/**
 * ModuleIdentifier: the immutable (creator public key, content hash) pair
 * that names a module everywhere in the loader.
 */
module Identifiers {
  import opened Wrappers
  import opened Bytes

  datatype Identifier = Identifier(creator: Bytes, contentHash: Bytes)

  /** The right-hand operand of `==`: an instance of the same class, or any other object. */
  datatype Operand<T> = Same(value: T) | Foreign

  /** The JSON-like dictionaries built by `to_dict`. */
  datatype Json = JBytes(bytes: Bytes) | JInt(n: int) | JObject(fields: map<string, Json>)

  /** `__eq__`: field-wise comparison; never equal to an object of another class. */
  predicate Equals(a: Identifier, other: Operand<Identifier>) {
    other.Same? && a.creator == other.value.creator && a.contentHash == other.value.contentHash
  }

  /** `__ne__` */
  predicate NotEquals(a: Identifier, other: Operand<Identifier>) {
    !Equals(a, other)
  }

  lemma EqualsIsStructural(a: Identifier, other: Operand<Identifier>)
    ensures Equals(a, other) <==> other == Same(a)
    ensures NotEquals(a, other) <==> !Equals(a, other)
    ensures other == Foreign ==> !Equals(a, other)
  {
  }

  /** `__hash__`: Python's hash of the pair (creator, content_hash), for a given tuple hash. */
  function Hash(a: Identifier, tupleHash: (Bytes, Bytes) -> int): int {
    tupleHash(a.creator, a.contentHash)
  }

  lemma EqualIdentifiersHashEqually(a: Identifier, b: Identifier, tupleHash: (Bytes, Bytes) -> int)
    requires Equals(a, Same(b))
    ensures Hash(a, tupleHash) == Hash(b, tupleHash)
  {
  }

  /** `to_dict`: the creator hex-encoded, the content hash as is. */
  function ToDict(a: Identifier): (d: Json)
    ensures d.JObject? && d.fields.Keys == {"creator", "content_hash"}
    ensures d.fields["creator"].JBytes? && |d.fields["creator"].bytes| == 2 * |a.creator|
    ensures d.fields["content_hash"] == JBytes(a.contentHash)
  {
    JObject(map["creator" := JBytes(Hexlify(a.creator)), "content_hash" := JBytes(a.contentHash)])
  }

  /**
   * How the REST layer rebuilds an identifier from the hex creator and the
   * content hash of a request path; None where `unhexlify` raises.
   */
  function FromDict(d: Json): Option<Identifier> {
    if d.JObject? && "creator" in d.fields && "content_hash" in d.fields
       && d.fields["creator"].JBytes? && d.fields["content_hash"].JBytes?
    then
      match Unhexlify(d.fields["creator"].bytes)
      case None => None
      case Some(creator) => Some(Identifier(creator, d.fields["content_hash"].bytes))
    else None
  }

  lemma FromDictToDict(a: Identifier)
    ensures FromDict(ToDict(a)) == Some(a)
  {
    UnhexlifyHexlify(a.creator);
  }

  /** `__str__`: hex(creator) + "." + content_hash. */
  function ToString(a: Identifier): (s: Bytes)
    ensures |s| == 2 * |a.creator| + 1 + |a.contentHash|
    ensures s[..2 * |a.creator|] == Hexlify(a.creator)
    ensures s[2 * |a.creator|] == DOT
    ensures s[2 * |a.creator| + 1..] == a.contentHash
  {
    Hexlify(a.creator) + [DOT] + a.contentHash
  }

  /** The string form names the identifier uniquely: the first "." ends the hex creator. */
  lemma ToStringInjective(a: Identifier, b: Identifier)
    requires ToString(a) == ToString(b)
    ensures a == b
  {
    assert |a.creator| == |b.creator| by {
      var s := ToString(a);
      assert s[2 * |a.creator|] == DOT == s[2 * |b.creator|];
    }
    HexlifyInjective(a.creator, b.creator);
  }
}
