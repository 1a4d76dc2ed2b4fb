/** ModuleBlock: the validity test for vote blocks read from the ledger. */
module Blocks {
  import opened Wrappers
  import opened Bytes

  const MODULE_BLOCK_TYPE_VOTE: string := "module_vote"
  const KEY_CREATOR: string := "creator"
  const KEY_CONTENT_HASH: string := "content_hash"
  const KEY_NAME: string := "name"

  /** Values a decoded transaction dictionary can hold. */
  datatype Value = Str(bytes: Bytes) | Unicode(text: string) | Int(n: int)

  /** The types named in `required_types`. Under Python 2 `bytes` is `str`. */
  datatype PyType = BytesType | StrType

  predicate IsInstance(v: Value, t: PyType) {
    match t
    case BytesType => v.Str?
    case StrType => v.Str?
  }

  /** A ledger block as this module sees it: type, transaction and signer key. */
  datatype Block = Block(blockType: string, transaction: map<string, Value>, publicKey: Bytes)

  datatype LookupError = KeyError(key: string)

  /** `has_fields`: stops at the first needle missing from the haystack. */
  function HasFields(needles: seq<string>, haystack: map<string, Value>): (r: bool)
    ensures r <==> forall i | 0 <= i < |needles| :: needles[i] in haystack
  {
    if needles == [] then true
    else if needles[0] !in haystack then false
    else HasFields(needles[1..], haystack)
  }

  /**
   * `has_required_types`: stops at the first value of the wrong type; indexing
   * a missing key raises KeyError.
   */
  function HasRequiredTypes(types: seq<(string, PyType)>, container: map<string, Value>): (r: Result<bool, LookupError>)
    ensures r == Ok(true) <==>
              forall i | 0 <= i < |types| :: types[i].0 in container && IsInstance(container[types[i].0], types[i].1)
    ensures (forall i | 0 <= i < |types| :: types[i].0 in container) ==> r.Ok?
  {
    if types == [] then Ok(true)
    else if types[0].0 !in container then Err(KeyError(types[0].0))
    else if !IsInstance(container[types[0].0], types[0].1) then Ok(false)
    else HasRequiredTypes(types[1..], container)
  }

  const REQUIRED_FIELDS: seq<string> := [KEY_CREATOR, KEY_CONTENT_HASH, KEY_NAME]
  const REQUIRED_TYPES: seq<(string, PyType)> := [(KEY_CREATOR, BytesType), (KEY_CONTENT_HASH, StrType), (KEY_NAME, StrType)]

  /**
   * `is_valid_vote_block`. A block it accepts is a vote block from which the
   * creator, content hash and name can all be read as byte strings.
   */
  predicate IsValidVoteBlock(b: Block): (r: bool)
    ensures r ==> && b.blockType == MODULE_BLOCK_TYPE_VOTE
                  && KEY_CREATOR in b.transaction && b.transaction[KEY_CREATOR].Str?
                  && KEY_CONTENT_HASH in b.transaction && b.transaction[KEY_CONTENT_HASH].Str?
                  && KEY_NAME in b.transaction && b.transaction[KEY_NAME].Str?
  {
    assert REQUIRED_TYPES[0] == (KEY_CREATOR, BytesType) && REQUIRED_TYPES[1] == (KEY_CONTENT_HASH, StrType)
        && REQUIRED_TYPES[2] == (KEY_NAME, StrType);
    if b.blockType != MODULE_BLOCK_TYPE_VOTE then false
    else if !HasFields(REQUIRED_FIELDS, b.transaction) then false
    else if |b.transaction| != |REQUIRED_FIELDS| then false
    else HasRequiredTypes(REQUIRED_TYPES, b.transaction) == Ok(true)
  }

  /** A block is valid iff its type is right, its keys are exactly the three fields, and all three are strings. */
  lemma ValidVoteBlockIff(b: Block)
    ensures IsValidVoteBlock(b) <==>
              && b.blockType == MODULE_BLOCK_TYPE_VOTE
              && b.transaction.Keys == {KEY_CREATOR, KEY_CONTENT_HASH, KEY_NAME}
              && b.transaction[KEY_CREATOR].Str?
              && b.transaction[KEY_CONTENT_HASH].Str?
              && b.transaction[KEY_NAME].Str?
  {
    var keys := {KEY_CREATOR, KEY_CONTENT_HASH, KEY_NAME};
    assert |keys| == 3;
    if b.blockType == MODULE_BLOCK_TYPE_VOTE && HasFields(REQUIRED_FIELDS, b.transaction) {
      assert REQUIRED_FIELDS[0] in b.transaction && REQUIRED_FIELDS[1] in b.transaction && REQUIRED_FIELDS[2] in b.transaction;
      assert keys <= b.transaction.Keys;
      if |b.transaction| == 3 {
        assert |b.transaction.Keys| == 3;
        SubsetOfSameSize(keys, b.transaction.Keys);
        var r := HasRequiredTypes(REQUIRED_TYPES, b.transaction);
        assert r == Ok(true) <==> forall i | 0 <= i < 3 :: IsInstance(b.transaction[REQUIRED_TYPES[i].0], REQUIRED_TYPES[i].1);
        assert REQUIRED_TYPES[0] == (KEY_CREATOR, BytesType);
        assert REQUIRED_TYPES[1] == (KEY_CONTENT_HASH, StrType);
        assert REQUIRED_TYPES[2] == (KEY_NAME, StrType);
      } else {
        assert b.transaction.Keys != keys;
      }
    } else if b.blockType == MODULE_BLOCK_TYPE_VOTE {
      assert !(REQUIRED_FIELDS[0] in b.transaction && REQUIRED_FIELDS[1] in b.transaction && REQUIRED_FIELDS[2] in b.transaction);
    }
  }

  lemma SubsetOfSameSize<T>(a: set<T>, b: set<T>)
    requires a <= b && |a| == |b|
    ensures a == b
  {
    assert |b - a| == |b| - |a| == 0;
  }

  lemma WrongBlockTypeIsInvalid(b: Block)
    requires b.blockType != MODULE_BLOCK_TYPE_VOTE
    ensures !IsValidVoteBlock(b)
  {
  }

  lemma MissingFieldIsInvalid(b: Block, key: string)
    requires key in REQUIRED_FIELDS && key !in b.transaction
    ensures !IsValidVoteBlock(b)
  {
    ValidVoteBlockIff(b);
  }

  lemma ExtraFieldIsInvalid(b: Block, key: string)
    requires key !in REQUIRED_FIELDS && key in b.transaction
    ensures !IsValidVoteBlock(b)
  {
    ValidVoteBlockIff(b);
  }

  lemma WrongValueTypeIsInvalid(b: Block, key: string)
    requires key in REQUIRED_FIELDS && key in b.transaction && !b.transaction[key].Str?
    ensures !IsValidVoteBlock(b)
  {
    ValidVoteBlockIff(b);
  }

  /** `has_fields` of no needles holds for every haystack. */
  lemma NoNeedlesAlwaysFound(haystack: map<string, Value>)
    ensures HasFields([], haystack)
  {
  }
}
