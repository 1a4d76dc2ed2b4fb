/**
 * The four tables of the module store as one value, and the effect each
 * lifecycle and vote operation of the community has on them. The methods of
 * ModuleCommunity are proved to produce exactly these effects; the lemmas
 * here state what the effects mean.
 */
module CatalogState {
  import opened Bytes
  import opened Identifiers
  import opened Modules

  /** A `module_catalog` row without its key. */
  datatype CatalogRow = CatalogRow(name: Bytes, votes: nat)

  /** A `module_votes` row. */
  datatype Vote = Vote(voter: Bytes, subject: Identifier)

  datatype Tables = Tables(
    catalog: map<Identifier, CatalogRow>,
    cache: set<Identifier>,
    library: set<Identifier>,
    votes: set<Vote>)

  function RowModule(id: Identifier, row: CatalogRow): Module {
    Module(id, row.name, row.votes)
  }

  /** Library membership implies cache membership implies catalog membership. */
  ghost predicate Chained(t: Tables) {
    t.library <= t.cache <= t.catalog.Keys
  }

  /** `vote_module` on the tables: guarded by the catalog and by `did_vote`. */
  function VoteEffect(t: Tables, voter: Bytes, id: Identifier): Tables {
    if id !in t.catalog || Vote(voter, id) in t.votes then t
    else t.(votes := t.votes + {Vote(voter, id)},
            catalog := t.catalog[id := t.catalog[id].(votes := t.catalog[id].votes + 1)])
  }

  /** `create_module_test` and the catalog part of `create_module`. */
  function CreateEffect(t: Tables, me: Bytes, contentHash: Bytes, name: Bytes): Tables {
    var id := Identifier(me, contentHash);
    if id in t.catalog then t
    else VoteEffect(t.(catalog := t.catalog[id := CatalogRow(name, 0)]), me, id)
  }

  /** `download_module`; `fetched` is false when the transport raised. */
  function DownloadEffect(t: Tables, id: Identifier, fetched: bool): Tables {
    if id in t.cache || id !in t.catalog || !fetched then t
    else t.(cache := t.cache + {id}, library := t.library + {id})
  }

  /** `_process_vote_block` for a valid block signed by `signer`. */
  function ReceiveVoteEffect(t: Tables, signer: Bytes, id: Identifier, name: Bytes): Tables {
    var t1 := if id in t.catalog then t else t.(catalog := t.catalog[id := CatalogRow(name, 0)]);
    if Vote(signer, id) in t1.votes then t1
    else t1.(votes := t1.votes + {Vote(signer, id)},
             catalog := t1.catalog[id := t1.catalog[id].(votes := t1.catalog[id].votes + 1)])
  }

  lemma VoteEffectIsGuarded(t: Tables, voter: Bytes, id: Identifier)
    ensures id !in t.catalog || Vote(voter, id) in t.votes ==> VoteEffect(t, voter, id) == t
    ensures id in t.catalog && Vote(voter, id) !in t.votes ==>
              var t' := VoteEffect(t, voter, id);
              && t'.votes == t.votes + {Vote(voter, id)}
              && t'.catalog.Keys == t.catalog.Keys
              && t'.catalog[id] == CatalogRow(t.catalog[id].name, t.catalog[id].votes + 1)
              && (forall other | other in t.catalog && other != id :: t'.catalog[other] == t.catalog[other])
              && t'.cache == t.cache && t'.library == t.library
  {
  }

  /** Creating a fresh module leaves exactly one self-voted catalog entry with one vote. */
  lemma CreateFreshModule(t: Tables, me: Bytes, contentHash: Bytes, name: Bytes)
    requires Identifier(me, contentHash) !in t.catalog
    requires Vote(me, Identifier(me, contentHash)) !in t.votes
    ensures var t' := CreateEffect(t, me, contentHash, name);
            && t'.catalog == t.catalog[Identifier(me, contentHash) := CatalogRow(name, 1)]
            && t'.votes == t.votes + {Vote(me, Identifier(me, contentHash))}
            && t'.cache == t.cache && t'.library == t.library
  {
  }

  lemma CreateExistingIsNoOp(t: Tables, me: Bytes, contentHash: Bytes, name: Bytes)
    requires Identifier(me, contentHash) in t.catalog
    ensures CreateEffect(t, me, contentHash, name) == t
  {
  }

  lemma DownloadIsIdempotent(t: Tables, id: Identifier, fetched: bool)
    ensures DownloadEffect(DownloadEffect(t, id, fetched), id, fetched) == DownloadEffect(t, id, fetched)
    ensures id !in t.catalog ==> DownloadEffect(t, id, fetched) == t
    ensures id in t.catalog && id !in t.cache && fetched ==>
              && DownloadEffect(t, id, fetched).cache == t.cache + {id}
              && DownloadEffect(t, id, fetched).library == t.library + {id}
  {
  }

  /** Replaying a vote block changes nothing. */
  lemma ReceiveVoteIsIdempotent(t: Tables, signer: Bytes, id: Identifier, name: Bytes)
    ensures var t' := ReceiveVoteEffect(t, signer, id, name);
            ReceiveVoteEffect(t', signer, id, name) == t'
  {
  }

  /** A received vote adds its row, and adds to the tally only when the row is new. */
  lemma ReceiveVoteCountsOnce(t: Tables, signer: Bytes, id: Identifier, name: Bytes)
    ensures var t' := ReceiveVoteEffect(t, signer, id, name);
            && id in t'.catalog
            && t'.votes == t.votes + {Vote(signer, id)}
            && t'.catalog[id].votes ==
                 (if id in t.catalog then t.catalog[id].votes else 0) + (if Vote(signer, id) in t.votes then 0 else 1)
            && t'.catalog[id].name == (if id in t.catalog then t.catalog[id].name else name)
            && (forall other | other != id :: other in t'.catalog <==> other in t.catalog)
            && (forall other | other in t.catalog && other != id :: t'.catalog[other] == t.catalog[other])
            && t'.cache == t.cache && t'.library == t.library
  {
  }

  /** Two distinct signers voting for a module unknown to this node give it two votes and two rows. */
  lemma TwoSignersTwoVotes(t: Tables, s1: Bytes, s2: Bytes, id: Identifier, name: Bytes)
    requires s1 != s2 && id !in t.catalog
    requires Vote(s1, id) !in t.votes && Vote(s2, id) !in t.votes
    ensures var t' := ReceiveVoteEffect(ReceiveVoteEffect(t, s1, id, name), s2, id, name);
            t'.catalog[id].votes == 2 && t'.votes == t.votes + {Vote(s1, id), Vote(s2, id)}
  {
    ReceiveVoteCountsOnce(t, s1, id, name);
    ReceiveVoteCountsOnce(ReceiveVoteEffect(t, s1, id, name), s2, id, name);
  }

  /** Every lifecycle effect keeps library within cache within catalog, and deletes no row. */
  lemma EffectsKeepChain(t: Tables, who: Bytes, id: Identifier, hash: Bytes, name: Bytes, fetched: bool)
    requires Chained(t)
    ensures Chained(VoteEffect(t, who, id)) && Chained(CreateEffect(t, who, hash, name))
    ensures Chained(DownloadEffect(t, id, fetched)) && Chained(ReceiveVoteEffect(t, who, id, name))
    ensures Grows(t, VoteEffect(t, who, id)) && Grows(t, CreateEffect(t, who, hash, name))
    ensures Grows(t, DownloadEffect(t, id, fetched)) && Grows(t, ReceiveVoteEffect(t, who, id, name))
  {
  }

  /** No row is ever deleted. */
  ghost predicate Grows(t: Tables, t': Tables) {
    t.catalog.Keys <= t'.catalog.Keys && t.cache <= t'.cache && t.library <= t'.library && t.votes <= t'.votes
  }

  // ---------------------------------------------------------------------
  // Reconciliation of the catalog against all vote blocks of the ledger

  /** The fields `_check_votes_in_catalog` reads from one vote block. */
  datatype VoteEntry = VoteEntry(signer: Bytes, creator: Bytes, contentHash: Bytes, name: Bytes)

  function EntryId(e: VoteEntry): Identifier {
    Identifier(e.creator, e.contentHash)
  }

  function EntryVote(e: VoteEntry): Vote {
    Vote(e.signer, EntryId(e))
  }

  /** Identifiers voted for in the blocks. */
  function BlockIds(s: seq<VoteEntry>): set<Identifier> {
    if s == [] then {} else BlockIds(s[..|s| - 1]) + {EntryId(s[|s| - 1])}
  }

  /** (signer, identifier) pairs of the blocks. */
  function BlockVotes(s: seq<VoteEntry>): set<Vote> {
    if s == [] then {} else BlockVotes(s[..|s| - 1]) + {EntryVote(s[|s| - 1])}
  }

  /** Number of blocks for `id`, double votes included. */
  function Tally(s: seq<VoteEntry>, id: Identifier): nat {
    if s == [] then 0
    else Tally(s[..|s| - 1], id) + (if EntryId(s[|s| - 1]) == id then 1 else 0)
  }

  /** The tables after a reconciliation that reached its end. */
  function Reconciled(t: Tables, s: seq<VoteEntry>): Tables {
    t.(votes := t.votes + BlockVotes(s),
       catalog := map id | id in t.catalog ::
                    if id in BlockIds(s) then t.catalog[id].(votes := Tally(s, id)) else t.catalog[id])
  }

  lemma {:induction false} BlockVotesMembers(s: seq<VoteEntry>, v: Vote)
    ensures v in BlockVotes(s) <==> exists j | 0 <= j < |s| :: EntryVote(s[j]) == v
  {
    if s != [] {
      var init := s[..|s| - 1];
      BlockVotesMembers(init, v);
      if v in BlockVotes(init) {
        var j :| 0 <= j < |init| && EntryVote(init[j]) == v;
        assert EntryVote(s[j]) == v;
      }
      if exists j | 0 <= j < |s| :: EntryVote(s[j]) == v {
        var j :| 0 <= j < |s| && EntryVote(s[j]) == v;
        if j < |init| { assert EntryVote(init[j]) == v; }
      }
    }
  }

  lemma {:induction false} BlockIdsMembers(s: seq<VoteEntry>, id: Identifier)
    ensures id in BlockIds(s) <==> Tally(s, id) > 0
    ensures id in BlockIds(s) <==> exists j | 0 <= j < |s| :: EntryId(s[j]) == id
  {
    if s != [] {
      var init := s[..|s| - 1];
      BlockIdsMembers(init, id);
      if id in BlockIds(init) {
        var j :| 0 <= j < |init| && EntryId(init[j]) == id;
        assert EntryId(s[j]) == id;
      }
      if exists j | 0 <= j < |s| :: EntryId(s[j]) == id {
        var j :| 0 <= j < |s| && EntryId(s[j]) == id;
        if j < |init| { assert EntryId(init[j]) == id; }
      }
    }
  }

  /** After reconciliation every block has its vote row, and every voted catalog entry holds its block count. */
  lemma ReconciledRecordsEveryBlock(t: Tables, s: seq<VoteEntry>)
    ensures forall j | 0 <= j < |s| :: EntryVote(s[j]) in Reconciled(t, s).votes
    ensures forall id | id in t.catalog && id in BlockIds(s) :: Reconciled(t, s).catalog[id].votes == Tally(s, id)
    ensures forall id | id in t.catalog && id !in BlockIds(s) :: Reconciled(t, s).catalog[id] == t.catalog[id]
    ensures Reconciled(t, s).catalog.Keys == t.catalog.Keys
  {
    forall j | 0 <= j < |s|
      ensures EntryVote(s[j]) in BlockVotes(s)
    {
      BlockVotesMembers(s, EntryVote(s[j]));
    }
  }

  /** Running the reconciliation again with the same blocks changes nothing. */
  lemma ReconcileIsFixedPoint(t: Tables, s: seq<VoteEntry>)
    ensures Reconciled(Reconciled(t, s), s) == Reconciled(t, s)
  {
    var r := Reconciled(t, s);
    var rr := Reconciled(r, s);
    assert rr.catalog == r.catalog;
  }

  /**
   * Reconciliation stores the vote rows of blocks whose module this node
   * never catalogued, so a vote row can name an identifier the catalog lacks.
   */
  lemma ReconcileCanVoteForUncatalogued(e: VoteEntry)
    ensures var t := Reconciled(Tables(map[], {}, {}, {}), [e]);
            EntryVote(e) in t.votes && EntryId(e) !in t.catalog
  {
    assert [e][..0] == [];
  }

  /** Two blocks from the same signer for the same module both count. */
  lemma DoubleVoteCountsTwice(e: VoteEntry)
    ensures Tally([e, e], EntryId(e)) == 2
    ensures BlockVotes([e, e]) == {EntryVote(e)}
  {
    assert [e, e][..1] == [e];
    assert [e][..0] == [];
    assert Tally([e], EntryId(e)) == 1;
    assert BlockVotes([e]) == {EntryVote(e)};
  }
  // ---------------------------------------------------------------------
  // A catalog tally never falls below the vote rows naming its module

  /** The vote rows that name `id`. */
  function RowsNaming(votes: set<Vote>, id: Identifier): (r: set<Vote>)
    ensures forall v | v in r :: v in votes && v.subject == id
    ensures forall v | v in votes && v.subject == id :: v in r
  {
    set v | v in votes && v.subject == id
  }

  /** Every vote row names a catalogued module. */
  ghost predicate RowsCatalogued(t: Tables) {
    forall v | v in t.votes :: v.subject in t.catalog
  }

  /** Every catalog entry's tally is at least the number of vote rows naming it. */
  ghost predicate TalliesCoverRows(t: Tables) {
    forall id | id in t.catalog :: t.catalog[id].votes >= |RowsNaming(t.votes, id)|
  }

  /** How one added vote row changes the rows naming each identifier. */
  lemma RowsNamingAdd(votes: set<Vote>, v: Vote, id: Identifier)
    ensures v !in votes && v.subject == id ==> |RowsNaming(votes + {v}, id)| == |RowsNaming(votes, id)| + 1
    ensures v in votes || v.subject != id ==> RowsNaming(votes + {v}, id) == RowsNaming(votes, id)
  {
    if v !in votes && v.subject == id {
      assert RowsNaming(votes + {v}, id) == RowsNaming(votes, id) + {v};
    }
  }

  /** The tables with one more vote row and its tally raised by one keep both invariants. */
  lemma CountedRowKeepsCover(t: Tables, v: Vote)
    requires RowsCatalogued(t) && TalliesCoverRows(t)
    requires v.subject in t.catalog && v !in t.votes
    ensures var t' := t.(votes := t.votes + {v},
                         catalog := t.catalog[v.subject := t.catalog[v.subject].(votes := t.catalog[v.subject].votes + 1)]);
            RowsCatalogued(t') && TalliesCoverRows(t')
  {
    var t' := t.(votes := t.votes + {v},
                 catalog := t.catalog[v.subject := t.catalog[v.subject].(votes := t.catalog[v.subject].votes + 1)]);
    forall id | id in t'.catalog
      ensures t'.catalog[id].votes >= |RowsNaming(t'.votes, id)|
    {
      RowsNamingAdd(t.votes, v, id);
    }
  }

  /** A new catalog entry with no votes keeps both invariants, given that no row names it yet. */
  lemma FreshEntryKeepsCover(t: Tables, id: Identifier, name: Bytes)
    requires RowsCatalogued(t) && TalliesCoverRows(t)
    requires id !in t.catalog
    ensures var t' := t.(catalog := t.catalog[id := CatalogRow(name, 0)]);
            RowsCatalogued(t') && TalliesCoverRows(t')
  {
    assert RowsNaming(t.votes, id) == {};
  }

  /**
   * As long as every vote row names a catalogued module, voting, creating,
   * downloading and receiving a vote block keep every tally at or above
   * its rows.
   */
  lemma EffectsKeepTalliesCoverRows(t: Tables, who: Bytes, id: Identifier, hash: Bytes, name: Bytes, fetched: bool)
    requires RowsCatalogued(t) && TalliesCoverRows(t)
    ensures RowsCatalogued(VoteEffect(t, who, id)) && TalliesCoverRows(VoteEffect(t, who, id))
    ensures RowsCatalogued(CreateEffect(t, who, hash, name)) && TalliesCoverRows(CreateEffect(t, who, hash, name))
    ensures RowsCatalogued(DownloadEffect(t, id, fetched)) && TalliesCoverRows(DownloadEffect(t, id, fetched))
    ensures RowsCatalogued(ReceiveVoteEffect(t, who, id, name)) && TalliesCoverRows(ReceiveVoteEffect(t, who, id, name))
  {
    if id in t.catalog && Vote(who, id) !in t.votes {
      CountedRowKeepsCover(t, Vote(who, id));
    }
    var created := Identifier(who, hash);
    if created !in t.catalog {
      var t1 := t.(catalog := t.catalog[created := CatalogRow(name, 0)]);
      FreshEntryKeepsCover(t, created, name);
      if Vote(who, created) !in t1.votes {
        CountedRowKeepsCover(t1, Vote(who, created));
      }
    }
    var r1 := if id in t.catalog then t else t.(catalog := t.catalog[id := CatalogRow(name, 0)]);
    if id !in t.catalog {
      FreshEntryKeepsCover(t, id, name);
    }
    if Vote(who, id) !in r1.votes {
      CountedRowKeepsCover(r1, Vote(who, id));
    }
  }

  /** Every stored row of the blocks names an identifier the blocks vote for. */
  lemma {:induction false} BlockVotesNameBlockIds(s: seq<VoteEntry>, v: Vote)
    requires v in BlockVotes(s)
    ensures v.subject in BlockIds(s)
  {
    var init := s[..|s| - 1];
    if v in BlockVotes(init) {
      BlockVotesNameBlockIds(init, v);
    }
  }

  /** The blocks store no more rows for an identifier than they have blocks for it. */
  lemma {:induction false} BlockRowsBelowTally(s: seq<VoteEntry>, id: Identifier)
    ensures |RowsNaming(BlockVotes(s), id)| <= Tally(s, id)
  {
    if s != [] {
      var init := s[..|s| - 1];
      BlockRowsBelowTally(init, id);
      RowsNamingAdd(BlockVotes(init), EntryVote(s[|s| - 1]), id);
    }
  }

  /**
   * When every stored row comes from a block, reconciliation leaves every
   * catalogued tally at or above its rows: the voted entries hold their
   * block counts, and no row names an entry the blocks leave alone.
   */
  lemma ReconciledTalliesCoverRows(t: Tables, s: seq<VoteEntry>)
    requires t.votes <= BlockVotes(s)
    ensures TalliesCoverRows(Reconciled(t, s))
  {
    var r := Reconciled(t, s);
    assert r.votes == BlockVotes(s);
    forall id | id in r.catalog
      ensures r.catalog[id].votes >= |RowsNaming(r.votes, id)|
    {
      if id in BlockIds(s) {
        BlockRowsBelowTally(s, id);
      } else {
        forall v | v in r.votes && v.subject == id
          ensures false
        {
          BlockVotesNameBlockIds(s, v);
        }
        assert RowsNaming(r.votes, id) == {};
      }
    }
  }

  /**
   * Reconciliation can store a row for a module this node never catalogued;
   * receiving that vote's block afterwards catalogues the module at 0 and,
   * the row being present, adds nothing. The tally then stays below its rows.
   */
  lemma ReconcileThenReceiveUndercounts(e: VoteEntry)
    ensures var t := ReceiveVoteEffect(Reconciled(Tables(map[], {}, {}, {}), [e]), e.signer, EntryId(e), e.name);
            && EntryVote(e) in t.votes
            && t.catalog[EntryId(e)].votes == 0
            && !TalliesCoverRows(t)
  {
    ReconcileCanVoteForUncatalogued(e);
    var t := ReceiveVoteEffect(Reconciled(Tables(map[], {}, {}, {}), [e]), e.signer, EntryId(e), e.name);
    assert EntryVote(e) in RowsNaming(t.votes, EntryId(e));
  }
}
