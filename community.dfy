/**
 * ModuleCommunity: the lifecycle (create, download, run), vote casting,
 * vote-block processing and vote reconciliation of the module overlay.
 *
 * Each operation is guarded by reads of the store and then changes it
 * through the store's own methods; each is proved to produce exactly the
 * effect defined in CatalogState. Signing is fire-and-forget: the
 * transactions handed to the ledger are recorded in the ghost `signed`.
 */
module Community {
  import opened Wrappers
  import opened Bytes
  import opened Identifiers
  import opened Modules
  import opened Blocks
  import opened CatalogState
  import opened Database
  import opened Engine

  /** Content hash of the test module: forty ASCII zeros. */
  const TEST_CONTENT_HASH: Bytes := seq(40, _ => 48 as byte)
  const TEST_NAME: Bytes := Ascii("test")

  /** The transaction dictionary `_sign_module` hands to the ledger. */
  function VoteTransaction(m: Module): map<string, Value> {
    map[KEY_CREATOR := Str(m.id.creator), KEY_CONTENT_HASH := Str(m.id.contentHash), KEY_NAME := Str(m.name)]
  }

  /** `should_sign`: co-sign requests are accepted for vote blocks only, so never refused for a valid one. */
  predicate ShouldSign(b: Block): (r: bool)
    ensures IsValidVoteBlock(b) ==> r
  {
    b.blockType == MODULE_BLOCK_TYPE_VOTE
  }

  /** The identifier a valid vote block votes for. */
  function VoteSubject(b: Block): Identifier
    requires IsValidVoteBlock(b)
  {
    ValidVoteBlockIff(b);
    Identifier(b.transaction[KEY_CREATOR].bytes, b.transaction[KEY_CONTENT_HASH].bytes)
  }

  /** The module name a valid vote block carries. */
  function VoteName(b: Block): Bytes
    requires IsValidVoteBlock(b)
  {
    ValidVoteBlockIff(b);
    b.transaction[KEY_NAME].bytes
  }

  /**
   * Every vote this node signs forms a valid vote block, which the node
   * would co-sign, and which names the module voted for.
   */
  lemma SignedVotesAreValid(m: Module, key: Bytes)
    ensures var b := Block(MODULE_BLOCK_TYPE_VOTE, VoteTransaction(m), key);
            IsValidVoteBlock(b) && ShouldSign(b) && VoteSubject(b) == m.id && VoteName(b) == m.name
  {
    var b := Block(MODULE_BLOCK_TYPE_VOTE, VoteTransaction(m), key);
    ValidVoteBlockIff(b);
  }

  /**
   * The guard at community.py:325 as written: `not block.is_valid_vote_block`
   * negates a bound method, which is always truthy, so it rejects nothing.
   */
  predicate RejectedAsWritten(b: Block) {
    false
  }

  /**
   * The guard as written lets through a block without a name, whose `name`
   * is then read, and a block with an extra key, which is then counted.
   */
  lemma VacuousGuardAdmitsInvalidBlocks()
    ensures var b := Block(MODULE_BLOCK_TYPE_VOTE, map[KEY_CREATOR := Str([]), KEY_CONTENT_HASH := Str([])], []);
            !IsValidVoteBlock(b) && !RejectedAsWritten(b) && KEY_NAME !in b.transaction
    ensures var b := Block(MODULE_BLOCK_TYPE_VOTE,
                           map[KEY_CREATOR := Str([]), KEY_CONTENT_HASH := Str([]), KEY_NAME := Str([]), "extra" := Int(0)], []);
            !IsValidVoteBlock(b) && !RejectedAsWritten(b)
  {
    var b1 := Block(MODULE_BLOCK_TYPE_VOTE, map[KEY_CREATOR := Str([]), KEY_CONTENT_HASH := Str([])], []);
    MissingFieldIsInvalid(b1, KEY_NAME);
    var b2 := Block(MODULE_BLOCK_TYPE_VOTE,
                    map[KEY_CREATOR := Str([]), KEY_CONTENT_HASH := Str([]), KEY_NAME := Str([]), "extra" := Int(0)], []);
    ExtraFieldIsInvalid(b2, "extra");
  }

  /** What the reconciliation logs. */
  datatype Report =
    | DoubleVote(voter: Bytes, subject: Identifier)
    | InconsistentVoteDb(unknown: set<Identifier>)

  datatype ReconcileError = MissingVotes(id: Identifier)

  /** One double-vote report per block whose (signer, identifier) pair an earlier block already had. */
  function DoubleVoteReports(s: seq<VoteEntry>): seq<Report> {
    if s == [] then []
    else
      var init, last := s[..|s| - 1], s[|s| - 1];
      DoubleVoteReports(init) + (if EntryVote(last) in BlockVotes(init) then [DoubleVote(last.signer, EntryId(last))] else [])
  }

  class ModuleCommunity {
    /** This node's public key. */
    const myKey: Bytes
    const db: ModuleDatabase
    const engine: ExecutionEngine
    /** Transactions handed to `trustchain.self_sign_block`. */
    ghost var signed: seq<map<string, Value>>
    ghost var reports: seq<Report>

    ghost predicate Valid()
      reads this, db, engine
    {
      Chained(db.Snapshot()) && engine.Valid()
    }

    constructor (myKey: Bytes)
      ensures Valid() && fresh(db) && fresh(engine) && this.myKey == myKey
      ensures db.Snapshot() == Tables(map[], {}, {}, {}) && engine.State() == EngineState([], [], [], [], [], [])
      ensures signed == [] && reports == []
    {
      this.myKey := myKey;
      db := new ModuleDatabase();
      engine := new ExecutionEngine();
      signed, reports := [], [];
    }

    /** `create_module` once the transport has packaged the module directory. */
    method CreateModule(packageDirExists: bool, infoHash: Bytes, packagedName: Bytes)
      requires Valid()
      modifies db, this
      ensures db.databaseVersion == old(db.databaseVersion)
      ensures Valid()
      ensures db.Snapshot() == if packageDirExists then CreateEffect(old(db.Snapshot()), myKey, infoHash, packagedName)
                               else old(db.Snapshot())
      ensures signed == old(signed) +
                if packageDirExists && Identifier(myKey, infoHash) !in old(db.catalog)
                   && Vote(myKey, Identifier(myKey, infoHash)) !in old(db.votes)
                then [VoteTransaction(Module(Identifier(myKey, infoHash), packagedName))] else []
      ensures reports == old(reports)
    {
      if !packageDirExists {
        return;
      }
      AddModuleAndVote(Module(Identifier(myKey, infoHash), packagedName));
    }

    /** `create_module_test` */
    method CreateModuleTest()
      requires Valid()
      modifies db, this
      ensures db.databaseVersion == old(db.databaseVersion)
      ensures Valid()
      ensures db.Snapshot() == CreateEffect(old(db.Snapshot()), myKey, TEST_CONTENT_HASH, TEST_NAME)
      ensures signed == old(signed) +
                if Identifier(myKey, TEST_CONTENT_HASH) !in old(db.catalog)
                   && Vote(myKey, Identifier(myKey, TEST_CONTENT_HASH)) !in old(db.votes)
                then [VoteTransaction(Module(Identifier(myKey, TEST_CONTENT_HASH), TEST_NAME))] else []
      ensures reports == old(reports)
    {
      AddModuleAndVote(Module(Identifier(myKey, TEST_CONTENT_HASH), TEST_NAME));
    }

    /** The shared tail of both create operations: catalog the module unless known, then vote. */
    method AddModuleAndVote(m: Module)
      requires Valid() && m.votes == 0 && m.id.creator == myKey
      modifies db, this
      ensures db.databaseVersion == old(db.databaseVersion)
      ensures Valid()
      ensures db.Snapshot() == CreateEffect(old(db.Snapshot()), myKey, m.id.contentHash, m.name)
      ensures signed == old(signed) +
                if m.id !in old(db.catalog) && Vote(myKey, m.id) !in old(db.votes) then [VoteTransaction(m)] else []
      ensures reports == old(reports)
    {
      var known := db.HasModuleInCatalog(m.id);
      if known {
        return;
      }
      var r := db.AddModuleToCatalog(m);
      assert r == Committed;
      VoteModule(m.id);
    }

    /** `download_module`; `fetched` is false when the transport raises, and `raised` reports it. */
    method DownloadModule(id: Identifier, fetched: bool) returns (raised: bool)
      requires Valid()
      modifies db
      ensures db.databaseVersion == old(db.databaseVersion)
      ensures Valid()
      ensures db.Snapshot() == DownloadEffect(old(db.Snapshot()), id, fetched)
      ensures raised <==> id !in old(db.cache) && id in old(db.catalog) && !fetched
    {
      raised := false;
      var cached := db.HasModuleInCache(id);
      if cached {
        return;
      }
      var known := db.HasModuleInCatalog(id);
      if !known {
        return;
      }
      var m := db.GetModuleFromCatalog(id);
      if m.Some? {
        if !fetched {
          return true;
        }
        var r1 := db.AddModuleToCache(m.value.id);
        var r2 := db.AddModuleToLibrary(m.value.id);
        assert r1 == Committed && r2 == Committed;
      }
    }

    /** `run_module`: hands a library module to the execution engine. */
    method RunModule(id: Identifier, installed: map<Bytes, Manifest>)
      requires Valid()
      modifies engine
      ensures Valid()
      ensures engine.State() ==
                if id in db.library then Run(old(engine.State()), RowModule(id, db.catalog[id]), installed)
                else old(engine.State())
    {
      var inLibrary := db.HasModuleInLibrary(id);
      if !inLibrary {
        return;
      }
      var m := db.GetModuleFromCatalog(id);
      if m.Some? {
        engine.RunModule(m.value, installed);
      }
    }

    /** `vote_module` */
    method VoteModule(id: Identifier)
      requires Valid()
      modifies db, this
      ensures db.databaseVersion == old(db.databaseVersion)
      ensures Valid()
      ensures db.Snapshot() == VoteEffect(old(db.Snapshot()), myKey, id)
      ensures signed == old(signed) +
                if id in old(db.catalog) && Vote(myKey, id) !in old(db.votes)
                then [VoteTransaction(RowModule(id, old(db.catalog)[id]))] else []
      ensures reports == old(reports)
    {
      var known := db.HasModuleInCatalog(id);
      if !known {
        return;
      }
      var voted := db.DidVote(myKey, id);
      if voted {
        return;
      }
      var m := db.GetModuleFromCatalog(id);
      if m.Some? {
        var r := db.AddVoteToVotes(myKey, m.value.id);
        assert r == Committed;
        db.AddVoteToModuleInCatalog(m.value.id);
        SignModule(m.value);
      }
    }

    /** `_sign_module`: hands the vote transaction to the ledger. */
    method SignModule(m: Module)
      modifies this
      ensures signed == old(signed) + [VoteTransaction(m)]
      ensures reports == old(reports)
    {
      signed := signed + [VoteTransaction(m)];
    }

    /** `received_block`: vote blocks go to `_process_vote_block`, others are ignored. */
    method ReceivedBlock(b: Block)
      requires Valid()
      modifies db
      ensures db.databaseVersion == old(db.databaseVersion)
      ensures Valid()
      ensures db.Snapshot() == if IsValidVoteBlock(b)
                               then ReceiveVoteEffect(old(db.Snapshot()), b.publicKey, VoteSubject(b), VoteName(b))
                               else old(db.Snapshot())
    {
      if b.blockType == MODULE_BLOCK_TYPE_VOTE {
        ProcessVoteBlock(b);
      }
    }

    /**
     * `_process_vote_block`. The source's guard at community.py:325 never
     * calls `is_valid_vote_block` (see RejectedAsWritten); this is the guard
     * with the call it evidently intends.
     */
    method ProcessVoteBlock(b: Block)
      requires Valid()
      modifies db
      ensures db.databaseVersion == old(db.databaseVersion)
      ensures Valid()
      ensures db.Snapshot() == if IsValidVoteBlock(b)
                               then ReceiveVoteEffect(old(db.Snapshot()), b.publicKey, VoteSubject(b), VoteName(b))
                               else old(db.Snapshot())
    {
      if !IsValidVoteBlock(b) {
        return;
      }
      ValidVoteBlockIff(b);
      var creator := b.transaction[KEY_CREATOR].bytes;
      var contentHash := b.transaction[KEY_CONTENT_HASH].bytes;
      var name := b.transaction[KEY_NAME].bytes;
      var id := Identifier(creator, contentHash);
      var known := db.HasModuleInCatalog(id);
      if !known {
        var r := db.AddModuleToCatalog(Module(id, name));
        assert r == Committed;
      }
      var voted := db.DidVote(b.publicKey, id);
      if !voted {
        var r := db.AddVoteToVotes(b.publicKey, id);
        assert r == Committed;
        db.AddVoteToModuleInCatalog(id);
      }
    }

    /**
     * `_check_votes_in_catalog` over the vote blocks of the ledger. Fails
     * when it reaches a catalog module no block votes for (`votes.pop`
     * without a default raises KeyError); the repairs made before that stay.
     */
    method CheckVotesInCatalog(blocks: seq<VoteEntry>) returns (r: Result<(), ReconcileError>)
      requires Valid()
      modifies db, this
      ensures db.databaseVersion == old(db.databaseVersion)
      ensures Valid()
      ensures db.votes == old(db.votes) + BlockVotes(blocks)
      ensures db.cache == old(db.cache) && db.library == old(db.library)
      ensures db.catalog.Keys == old(db.catalog).Keys
      ensures r.Ok? <==> old(db.catalog).Keys <= BlockIds(blocks)
      ensures r.Ok? ==> db.Snapshot() == Reconciled(old(db.Snapshot()), blocks)
      ensures forall id | id in db.catalog ::
                db.catalog[id] == old(db.catalog)[id] || db.catalog[id] == Reconciled(old(db.Snapshot()), blocks).catalog[id]
      ensures reports == old(reports) + DoubleVoteReports(blocks) +
                if r.Ok? && !(BlockIds(blocks) <= old(db.catalog).Keys)
                then [InconsistentVoteDb(BlockIds(blocks) - old(db.catalog).Keys)] else []
      ensures signed == old(signed)
    {
      ghost var before := db.Snapshot();
      var votes := CountBlocks(blocks);
      var modules := db.GetModulesFromCatalog();
      ListedIds(modules, db.catalog.Keys);
      var leftover;
      r, leftover := RepairTallies(blocks, modules, votes);
      if r.Ok? && |leftover| != 0 {
        reports := reports + [InconsistentVoteDb(leftover)];
      }
      ReconciledRecordsEveryBlock(before, blocks);
      if r.Ok? {
        ReconciledCatalog(before, blocks, db.catalog);
      }
    }

    /**
     * The loop over the blocks: stores every missing vote row, counts the
     * blocks per identifier, and logs each double vote.
     */
    method CountBlocks(blocks: seq<VoteEntry>) returns (votes: map<Identifier, nat>)
      modifies db, this
      ensures db.databaseVersion == old(db.databaseVersion)
      ensures db.votes == old(db.votes) + BlockVotes(blocks)
      ensures db.catalog == old(db.catalog) && db.cache == old(db.cache) && db.library == old(db.library)
      ensures votes.Keys == BlockIds(blocks)
      ensures forall id | id in votes :: votes[id] == Tally(blocks, id)
      ensures reports == old(reports) + DoubleVoteReports(blocks)
      ensures signed == old(signed)
    {
      votes := map[];
      var voters: map<Bytes, set<Identifier>> := map[];
      ghost var seen: seq<VoteEntry> := [];
      var i := 0;
      while i < |blocks|
        invariant 0 <= i <= |blocks| && seen == blocks[..i]
        invariant db.votes == old(db.votes) + BlockVotes(seen)
        invariant db.catalog == old(db.catalog) && db.cache == old(db.cache) && db.library == old(db.library)
        invariant db.databaseVersion == old(db.databaseVersion)
        invariant votes.Keys == BlockIds(seen)
        invariant forall id | id in votes :: votes[id] == Tally(seen, id)
        invariant Indexes(voters, BlockVotes(seen))
        invariant reports == old(reports) + DoubleVoteReports(seen)
        invariant signed == old(signed)
      {
        var e := blocks[i];
        var id := Identifier(e.creator, e.contentHash);
        SnocStep(seen, e);
        // the votes table
        var voted := db.DidVote(e.signer, id);
        if !voted {
          var w := db.AddVoteToVotes(e.signer, id);
          assert w == Committed;
        }
        var double;
        votes, voters, double := CountBlock(seen, e, votes, voters);
        if double {
          AppendAssoc(old(reports), DoubleVoteReports(seen), [DoubleVote(e.signer, id)]);
          reports := reports + [DoubleVote(e.signer, id)];
        }
        seen := seen + [e];
        i := i + 1;
      }
      assert seen == blocks;
    }

    /**
     * The loop over the catalog: writes each module's block count where it
     * differs and pops it from `votes`; what is left over is voted for but
     * not catalogued.
     */
    method RepairTallies(blocks: seq<VoteEntry>, modules: seq<Module>, votes: map<Identifier, nat>)
      returns (r: Result<(), ReconcileError>, leftover: set<Identifier>)
      requires db.catalog.Keys == ModuleIds(modules)
      requires forall i | 0 <= i < |modules| :: modules[i].id in db.catalog && modules[i] == RowModule(modules[i].id, db.catalog[modules[i].id])
      requires forall i, j | 0 <= i < j < |modules| :: modules[i].id != modules[j].id
      requires votes.Keys == BlockIds(blocks)
      requires forall id | id in votes :: votes[id] == Tally(blocks, id)
      modifies db
      ensures db.databaseVersion == old(db.databaseVersion)
      ensures db.votes == old(db.votes) && db.cache == old(db.cache) && db.library == old(db.library)
      ensures db.catalog.Keys == old(db.catalog).Keys
      ensures r.Ok? <==> old(db.catalog).Keys <= BlockIds(blocks)
      ensures r.Ok? ==> leftover == BlockIds(blocks) - old(db.catalog).Keys
      ensures forall id | id in db.catalog ::
                db.catalog[id] == old(db.catalog)[id] ||
                (id in BlockIds(blocks) && db.catalog[id] == old(db.catalog)[id].(votes := Tally(blocks, id)))
      ensures r.Ok? ==> forall id | id in db.catalog :: db.catalog[id] == old(db.catalog)[id].(votes := Tally(blocks, id))
    {
      var pending := votes;
      ghost var done: set<Identifier> := {};
      var i := 0;
      while i < |modules|
        invariant 0 <= i <= |modules| && done == ModuleIds(modules[..i])
        invariant db.votes == old(db.votes) && db.cache == old(db.cache) && db.library == old(db.library)
        invariant db.catalog.Keys == old(db.catalog).Keys
        invariant db.databaseVersion == old(db.databaseVersion)
        invariant done <= old(db.catalog).Keys && done <= BlockIds(blocks)
        invariant pending.Keys == BlockIds(blocks) - done
        invariant forall id | id in pending :: pending[id] == Tally(blocks, id)
        invariant forall id | id in done :: db.catalog[id] == old(db.catalog)[id].(votes := Tally(blocks, id))
        invariant forall id | id in db.catalog && id !in done :: db.catalog[id] == old(db.catalog)[id]
      {
        var id := modules[i].id;
        ModuleIdsStep(modules, i);
        if id in pending && pending[id] != modules[i].votes {
          db.UpdateModuleInCatalog(id, pending[id]);
        }
        if id !in pending {
          return Err(MissingVotes(id)), {};
        }
        pending := pending - {id};
        done := done + {id};
        i := i + 1;
      }
      assert modules[..i] == modules;
      r, leftover := Ok(()), pending.Keys;
    }
  }

  /** The identifiers of a list of modules. */
  function ModuleIds(ms: seq<Module>): set<Identifier> {
    if ms == [] then {} else ModuleIds(ms[..|ms| - 1]) + {ms[|ms| - 1].id}
  }

  lemma {:induction false} ModuleIdsMembers(ms: seq<Module>, id: Identifier)
    ensures id in ModuleIds(ms) <==> exists j | 0 <= j < |ms| :: ms[j].id == id
  {
    if ms != [] {
      var init := ms[..|ms| - 1];
      ModuleIdsMembers(init, id);
      if id in ModuleIds(init) {
        var j :| 0 <= j < |init| && init[j].id == id;
        assert ms[j].id == id;
      }
      if exists j | 0 <= j < |ms| :: ms[j].id == id {
        var j :| 0 <= j < |ms| && ms[j].id == id;
        if j < |init| { assert init[j].id == id; }
      }
    }
  }

  /** A listing of `keys` names exactly `keys`. */
  lemma ListedIds(ms: seq<Module>, keys: set<Identifier>)
    requires forall id :: id in keys <==> exists j | 0 <= j < |ms| :: ms[j].id == id
    ensures keys == ModuleIds(ms)
  {
    forall id
      ensures id in keys <==> id in ModuleIds(ms)
    {
      ModuleIdsMembers(ms, id);
    }
  }

  /** One more module of a listing without repeats adds an identifier not seen before. */
  lemma ModuleIdsStep(ms: seq<Module>, i: nat)
    requires i < |ms|
    requires forall a, b | 0 <= a < b < |ms| :: ms[a].id != ms[b].id
    ensures ModuleIds(ms[..i + 1]) == ModuleIds(ms[..i]) + {ms[i].id}
    ensures ms[i].id !in ModuleIds(ms[..i])
  {
    assert ms[..i + 1][..i] == ms[..i];
    ModuleIdsMembers(ms[..i], ms[i].id);
  }

  /** A catalog holding every entry's block count, when every entry has blocks, is the reconciled one. */
  lemma ReconciledCatalog(t: Tables, s: seq<VoteEntry>, c: map<Identifier, CatalogRow>)
    requires t.catalog.Keys <= BlockIds(s) && c.Keys == t.catalog.Keys
    requires forall id | id in c :: c[id] == t.catalog[id].(votes := Tally(s, id))
    ensures c == Reconciled(t, s).catalog
  {
    var target := Reconciled(t, s).catalog;
    assert c.Keys == target.Keys;
    forall id | id in c
      ensures c[id] == target[id]
    {
    }
  }

  /** What one more block adds to the summaries of the blocks before it. */
  lemma SnocStep(p: seq<VoteEntry>, e: VoteEntry)
    ensures BlockVotes(p + [e]) == BlockVotes(p) + {EntryVote(e)}
    ensures BlockIds(p + [e]) == BlockIds(p) + {EntryId(e)}
    ensures forall id :: Tally(p + [e], id) == Tally(p, id) + if EntryId(e) == id then 1 else 0
    ensures DoubleVoteReports(p + [e]) ==
            DoubleVoteReports(p) + if EntryVote(e) in BlockVotes(p) then [DoubleVote(e.signer, EntryId(e))] else []
  {
    assert (p + [e])[..|p|] == p;
  }

  /**
   * One block of the reconciliation's first loop: counts it for its
   * identifier and records its signer under the signer's hex key;
   * `double` tells whether that signer had already voted for it.
   */
  method CountBlock(ghost p: seq<VoteEntry>, e: VoteEntry, votes: map<Identifier, nat>, voters: map<Bytes, set<Identifier>>)
    returns (votes': map<Identifier, nat>, voters': map<Bytes, set<Identifier>>, double: bool)
    requires votes.Keys == BlockIds(p) && forall id | id in votes :: votes[id] == Tally(p, id)
    requires Indexes(voters, BlockVotes(p))
    ensures votes'.Keys == BlockIds(p + [e]) && forall id | id in votes' :: votes'[id] == Tally(p + [e], id)
    ensures Indexes(voters', BlockVotes(p + [e]))
    ensures double <==> EntryVote(e) in BlockVotes(p)
  {
    SnocStep(p, e);
    var id := Identifier(e.creator, e.contentHash);
    BlockIdsMembers(p, id);
    if id in votes {
      votes' := votes[id := votes[id] + 1];
    } else {
      votes' := votes[id := 1];
    }
    var signerHex := Hexlify(e.signer);
    var votedModules := if signerHex in voters then voters[signerHex] else {};
    assert Indexed(voters, EntryVote(e)) <==> EntryVote(e) in BlockVotes(p);
    if id !in votedModules {
      IndexesAdd(voters, BlockVotes(p), EntryVote(e));
      voters', double := voters[signerHex := votedModules + {id}], false;
    } else {
      voters', double := voters, true;
    }
  }

  /** `voters` has `w`'s identifier under the hex key of `w`'s signer. */
  predicate Indexed(voters: map<Bytes, set<Identifier>>, w: Vote) {
    Hexlify(w.voter) in voters && w.subject in voters[Hexlify(w.voter)]
  }

  /**
   * `voters` indexes the pairs `vs`: under a signer's hex key it holds
   * exactly the identifiers that signer voted for.
   */
  ghost predicate Indexes(voters: map<Bytes, set<Identifier>>, vs: set<Vote>) {
    forall w: Vote {:trigger Indexed(voters, w)} :: Indexed(voters, w) <==> w in vs
  }

  lemma IndexesAdd(voters: map<Bytes, set<Identifier>>, vs: set<Vote>, v: Vote)
    requires Indexes(voters, vs)
    ensures var h := Hexlify(v.voter);
            Indexes(voters[h := (if h in voters then voters[h] else {}) + {v.subject}], vs + {v})
  {
    var h := Hexlify(v.voter);
    var added := voters[h := (if h in voters then voters[h] else {}) + {v.subject}];
    forall w: Vote
      ensures Indexed(added, w) <==> w in vs + {v}
    {
      assert Indexed(voters, w) <==> w in vs;
      if Hexlify(w.voter) == h {
        HexlifyInjective(w.voter, v.voter);
      }
    }
  }
}
