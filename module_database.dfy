/**
 * ModuleDatabase: the four keyed tables of the module store. Every SQL
 * statement of the source is one method; a plain INSERT on a key that is
 * already present fails with an integrity error and changes nothing.
 */
module Database {
  import opened Wrappers
  import opened Bytes
  import opened Identifiers
  import opened Modules
  import opened CatalogState

  const LATEST_DB_VERSION: nat := 1

  datatype WriteOutcome = Committed | IntegrityError

  datatype CheckError = AssertionError

  predicate IsDigits(s: string) {
    |s| > 0 && forall i | 0 <= i < |s| :: '0' <= s[i] <= '9'
  }

  /** `int(s)` for a string of decimal digits. */
  function ParseDecimal(s: string): nat
    requires forall i | 0 <= i < |s| :: '0' <= s[i] <= '9'
  {
    if s == [] then 0 else ParseDecimal(s[..|s| - 1]) * 10 + (s[|s| - 1] as int - '0' as int)
  }

  /** A digit string denotes a version below 1 exactly when every digit is zero. */
  lemma {:induction false} ParseDecimalIsZero(s: string)
    requires forall i | 0 <= i < |s| :: '0' <= s[i] <= '9'
    ensures ParseDecimal(s) < LATEST_DB_VERSION <==> forall i | 0 <= i < |s| :: s[i] == '0'
  {
    if s != [] {
      var init := s[..|s| - 1];
      ParseDecimalIsZero(init);
      assert forall i | 0 <= i < |init| :: init[i] == s[i];
    }
  }

  /** Distinct identifiers of a result list. */
  ghost predicate DistinctIds(ids: seq<Identifier>) {
    forall i, j | 0 <= i < j < |ids| :: ids[i] != ids[j]
  }

  ghost predicate DistinctVotes(vs: seq<Vote>) {
    forall i, j | 0 <= i < j < |vs| :: vs[i] != vs[j]
  }

  class ModuleDatabase {
    var catalog: map<Identifier, CatalogRow>
    var cache: set<Identifier>
    var library: set<Identifier>
    var votes: set<Vote>
    /** The `database_version` row of the `option` table. */
    var databaseVersion: nat

    function Snapshot(): Tables
      reads this
    {
      Tables(catalog, cache, library, votes)
    }

    constructor ()
      ensures Snapshot() == Tables(map[], {}, {}, {}) && databaseVersion == 0
    {
      catalog, cache, library, votes := map[], {}, {}, {};
      databaseVersion := 0;
    }

    // module cache

    method AddModuleToCache(id: Identifier) returns (r: WriteOutcome)
      modifies this
      ensures r == IntegrityError <==> id in old(cache)
      ensures cache == old(cache) + {id}
      ensures catalog == old(catalog) && library == old(library) && votes == old(votes)
      ensures databaseVersion == old(databaseVersion)
    {
      if id in cache {
        return IntegrityError;
      }
      cache := cache + {id};
      r := Committed;
    }

    method GetModuleFromCache(id: Identifier) returns (r: Option<Identifier>)
      ensures r.None? <==> id !in cache
      ensures r.Some? ==> r.value == id
    {
      var present := HasModuleInCache(id);
      if !present {
        return None;
      }
      r := Some(id);
    }

    method GetModulesFromCache() returns (ids: seq<Identifier>)
      ensures forall id :: id in ids <==> id in cache
      ensures DistinctIds(ids)
    {
      var rows := cache;
      ids := [];
      while rows != {}
        invariant rows <= cache
        invariant forall id :: id in cache <==> id in rows || id in ids
        invariant forall i | 0 <= i < |ids| :: ids[i] !in rows
        invariant DistinctIds(ids)
        decreases rows
      {
        var row :| row in rows;
        ids := ids + [row];
        rows := rows - {row};
      }
    }

    method HasModuleInCache(id: Identifier) returns (b: bool)
      ensures b <==> id in cache
    {
      b := id in cache;
    }

    // module catalog

    method AddModuleToCatalog(m: Module) returns (r: WriteOutcome)
      modifies this
      ensures r == IntegrityError <==> m.id in old(catalog)
      ensures catalog == if r == IntegrityError then old(catalog)
                         else old(catalog)[m.id := CatalogRow(m.name, m.votes)]
      ensures r == Committed ==> RowModule(m.id, catalog[m.id]) == m
      ensures cache == old(cache) && library == old(library) && votes == old(votes)
      ensures databaseVersion == old(databaseVersion)
    {
      if m.id in catalog {
        return IntegrityError;
      }
      catalog := catalog[m.id := CatalogRow(m.name, m.votes)];
      r := Committed;
    }

    /** UPDATE ... SET votes = votes + 1: matches no row for an absent identifier. */
    method AddVoteToModuleInCatalog(id: Identifier)
      modifies this
      ensures catalog == if id in old(catalog)
                         then old(catalog)[id := old(catalog)[id].(votes := old(catalog)[id].votes + 1)]
                         else old(catalog)
      ensures cache == old(cache) && library == old(library) && votes == old(votes)
      ensures databaseVersion == old(databaseVersion)
    {
      if id in catalog {
        catalog := catalog[id := catalog[id].(votes := catalog[id].votes + 1)];
      }
    }

    method GetModuleFromCatalog(id: Identifier) returns (r: Option<Module>)
      ensures r.None? <==> id !in catalog
      ensures r.Some? ==> r.value == RowModule(id, catalog[id])
    {
      var present := HasModuleInCatalog(id);
      if !present {
        return None;
      }
      r := Some(Module(id, catalog[id].name, catalog[id].votes));
    }

    method GetModulesFromCatalog() returns (modules: seq<Module>)
      ensures forall id :: id in catalog <==> exists i | 0 <= i < |modules| :: modules[i].id == id
      ensures forall i | 0 <= i < |modules| :: modules[i].id in catalog && modules[i] == RowModule(modules[i].id, catalog[modules[i].id])
      ensures forall i, j | 0 <= i < j < |modules| :: modules[i].id != modules[j].id
    {
      var rows := catalog.Keys;
      modules := [];
      while rows != {}
        invariant rows <= catalog.Keys
        invariant forall id :: id in catalog <==> id in rows || exists i | 0 <= i < |modules| :: modules[i].id == id
        invariant forall i | 0 <= i < |modules| :: modules[i].id in catalog && modules[i] == RowModule(modules[i].id, catalog[modules[i].id])
        invariant forall i | 0 <= i < |modules| :: modules[i].id !in rows
        invariant forall i, j | 0 <= i < j < |modules| :: modules[i].id != modules[j].id
        decreases rows
      {
        var id :| id in rows;
        ghost var before := modules;
        modules := modules + [Module(id, catalog[id].name, catalog[id].votes)];
        rows := rows - {id};
        assert modules[|before|].id == id;
        assert forall i | 0 <= i < |before| :: modules[i] == before[i];
      }
    }

    method HasModuleInCatalog(id: Identifier) returns (b: bool)
      ensures b <==> id in catalog
    {
      b := id in catalog;
    }

    /** UPDATE ... SET votes = n: matches no row for an absent identifier. */
    method UpdateModuleInCatalog(id: Identifier, n: nat)
      modifies this
      ensures catalog == if id in old(catalog) then old(catalog)[id := old(catalog)[id].(votes := n)] else old(catalog)
      ensures cache == old(cache) && library == old(library) && votes == old(votes)
      ensures databaseVersion == old(databaseVersion)
    {
      if id in catalog {
        catalog := catalog[id := catalog[id].(votes := n)];
      }
    }

    // module library

    method AddModuleToLibrary(id: Identifier) returns (r: WriteOutcome)
      modifies this
      ensures r == IntegrityError <==> id in old(library)
      ensures library == old(library) + {id}
      ensures catalog == old(catalog) && cache == old(cache) && votes == old(votes)
      ensures databaseVersion == old(databaseVersion)
    {
      if id in library {
        return IntegrityError;
      }
      library := library + {id};
      r := Committed;
    }

    method GetModuleFromLibrary(id: Identifier) returns (r: Option<Identifier>)
      ensures r.None? <==> id !in library
      ensures r.Some? ==> r.value == id
    {
      var present := HasModuleInLibrary(id);
      if !present {
        return None;
      }
      r := Some(id);
    }

    method GetModulesFromLibrary() returns (ids: seq<Identifier>)
      ensures forall id :: id in ids <==> id in library
      ensures DistinctIds(ids)
    {
      var rows := library;
      ids := [];
      while rows != {}
        invariant rows <= library
        invariant forall id :: id in library <==> id in rows || id in ids
        invariant forall i | 0 <= i < |ids| :: ids[i] !in rows
        invariant DistinctIds(ids)
        decreases rows
      {
        var row :| row in rows;
        ids := ids + [row];
        rows := rows - {row};
      }
    }

    method HasModuleInLibrary(id: Identifier) returns (b: bool)
      ensures b <==> id in library
    {
      b := id in library;
    }

    // module votes

    method AddVoteToVotes(voter: Bytes, id: Identifier) returns (r: WriteOutcome)
      modifies this
      ensures r == IntegrityError <==> Vote(voter, id) in old(votes)
      ensures votes == old(votes) + {Vote(voter, id)}
      ensures catalog == old(catalog) && cache == old(cache) && library == old(library)
      ensures databaseVersion == old(databaseVersion)
    {
      if Vote(voter, id) in votes {
        return IntegrityError;
      }
      votes := votes + {Vote(voter, id)};
      r := Committed;
    }

    /** None for an identifier outside the catalog, else every vote row on it. */
    method GetVotesForModule(id: Identifier) returns (r: Option<seq<Vote>>)
      ensures r.None? <==> id !in catalog
      ensures r.Some? ==> (forall v :: v in r.value <==> v in votes && v.subject == id) && DistinctVotes(r.value)
    {
      var present := HasModuleInCatalog(id);
      if !present {
        return None;
      }
      var rows := set v | v in votes && v.subject == id;
      var result := [];
      while rows != {}
        invariant forall v :: v in votes && v.subject == id <==> v in rows || v in result
        invariant forall i | 0 <= i < |result| :: result[i] !in rows
        invariant DistinctVotes(result)
        decreases rows
      {
        var row :| row in rows;
        result := result + [row];
        rows := rows - {row};
      }
      r := Some(result);
    }

    /** Every vote row cast by `peer`. */
    method GetVotesForPeer(peer: Bytes) returns (result: seq<Vote>)
      ensures forall v :: v in result <==> v in votes && v.voter == peer
      ensures DistinctVotes(result)
    {
      var rows := set v | v in votes && v.voter == peer;
      result := [];
      while rows != {}
        invariant forall v :: v in votes && v.voter == peer <==> v in rows || v in result
        invariant forall i | 0 <= i < |result| :: result[i] !in rows
        invariant DistinctVotes(result)
        decreases rows
      {
        var row :| row in rows;
        result := result + [row];
        rows := rows - {row};
      }
    }

    method DidVote(voter: Bytes, id: Identifier) returns (b: bool)
      ensures b <==> Vote(voter, id) in votes
    {
      b := Vote(voter, id) in votes;
    }

    /**
     * Asserts that the stored version is a digit string, applies the schema
     * (which creates missing tables and rewrites the version row) when it is
     * below the latest version, and reports the latest version. `version` is
     * the raw text of the `database_version` option row as the caller read
     * it; `databaseVersion` is the value the schema writes back into that row.
     */
    method CheckDatabase(version: string) returns (r: Result<nat, CheckError>)
      modifies this
      ensures r.Err? <==> !IsDigits(version)
      ensures r.Ok? ==> r.value == LATEST_DB_VERSION
      ensures databaseVersion ==
                if IsDigits(version) && ParseDecimal(version) < LATEST_DB_VERSION then LATEST_DB_VERSION
                else old(databaseVersion)
      ensures IsDigits(version) && (forall i | 0 <= i < |version| :: version[i] == '0') ==>
                databaseVersion == LATEST_DB_VERSION
      ensures IsDigits(version) && (exists i | 0 <= i < |version| :: version[i] != '0') ==>
                databaseVersion == old(databaseVersion)
      ensures Snapshot() == old(Snapshot())
    {
      if !IsDigits(version) {
        return Err(AssertionError);
      }
      ParseDecimalIsZero(version);
      var n := ParseDecimal(version);
      if n < LATEST_DB_VERSION {
        databaseVersion := LATEST_DB_VERSION;
      }
      r := Ok(LATEST_DB_VERSION);
    }
  }
}
