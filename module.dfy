/** Module: an immutable catalog record whose identity is its identifier. */
module Modules {
  import opened Wrappers
  import opened Bytes
  import opened Identifiers

  /** `Module(identifier, name, votes=0)`; the fields are the read-only properties. */
  datatype Module = Module(id: Identifier, name: Bytes, votes: nat := 0)

  lemma ConstructorDefaults(id: Identifier, name: Bytes)
    ensures Module(id, name).votes == 0
    ensures Module(id, name).id == id && Module(id, name).name == name
  {
  }

  /** `__eq__`: only the identifiers are compared; never equal to an object of another class. */
  predicate Equals(m: Module, other: Operand<Module>) {
    other.Same? && Identifiers.Equals(m.id, Same(other.value.id))
  }

  /** `__ne__` */
  predicate NotEquals(m: Module, other: Operand<Module>) {
    !Equals(m, other)
  }

  lemma EqualityIgnoresNameAndVotes(m: Module, other: Operand<Module>)
    ensures Equals(m, other) <==> other.Same? && other.value.id == m.id
    ensures NotEquals(m, other) <==> !Equals(m, other)
  {
  }

  /** `__hash__`: the identifier's hash. */
  function Hash(m: Module, tupleHash: (Bytes, Bytes) -> int): int {
    Identifiers.Hash(m.id, tupleHash)
  }

  lemma EqualModulesHashEqually(m: Module, n: Module, tupleHash: (Bytes, Bytes) -> int)
    requires Equals(m, Same(n))
    ensures Hash(m, tupleHash) == Hash(n, tupleHash)
  {
  }

  /** `to_dict`: {identifier: id.to_dict(), name, votes}. */
  function ToDict(m: Module): (d: Json)
    ensures d.JObject? && d.fields.Keys == {"identifier", "name", "votes"}
    ensures d.fields["identifier"] == Identifiers.ToDict(m.id)
    ensures d.fields["name"] == JBytes(m.name) && d.fields["votes"] == JInt(m.votes)
  {
    JObject(map["identifier" := Identifiers.ToDict(m.id), "name" := JBytes(m.name), "votes" := JInt(m.votes)])
  }

  /** Reads a module back from its dictionary form; None for any other shape. */
  function FromDict(d: Json): Option<Module> {
    if d.JObject? && d.fields.Keys >= {"identifier", "name", "votes"}
       && d.fields["name"].JBytes? && d.fields["votes"].JInt? && d.fields["votes"].n >= 0
    then
      match Identifiers.FromDict(d.fields["identifier"])
      case None => None
      case Some(id) => Some(Module(id, d.fields["name"].bytes, d.fields["votes"].n))
    else None
  }

  lemma FromDictToDict(m: Module)
    ensures FromDict(ToDict(m)) == Some(m)
  {
    Identifiers.FromDictToDict(m.id);
  }
}
