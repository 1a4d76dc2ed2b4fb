# Module loader: catalog, votes and activation

This project models the core of the ipv8 module loader in Dafny:

- **Identities.** A module is identified by its creator's public key and its content hash (`ModuleIdentifier`). A `Module` pairs an identifier with a name and a vote tally.
- **The store.** `ModuleDatabase` keeps four keyed tables: the catalog of known modules with their tallies, the download cache, the installed library, and one vote row per (voter, module).
- **The overlay.** `ModuleCommunity` creates, downloads, runs and votes for modules. It signs a vote transaction for each local vote, applies vote blocks received from other peers, and reconciles the catalog's tallies against all vote blocks in the ledger.
- **Vote blocks.** `ModuleBlock.is_valid_vote_block` decides whether a block is a well-formed vote.
- **The execution engine.** It activates a library module at most once. What it does depends on the type the package's manifest declares:
  - an executable entry is imported;
  - an overlay registers overlays, discovery strategies and start callbacks;
  - a service is added to the master service.
- **The event bus.** It maps event types to listener lists.

The code is Python 2, so `str` and `bytes` are the same type. Public keys, content hashes and names are all `Bytes` (`seq<byte>`). Transaction keys are the source's ASCII literals, as `string`.

Each file of the source becomes one Dafny module:

| Dafny module | models |
|---|---|
| `Identifiers` | `core/module_identifier.py` |
| `Modules` | `core/module.py` |
| `Blocks` | `block.py` |
| `Database` | `module_database.py` |
| `Community` | `community.py` |
| `Engine` | `execution/engine.py` |
| `Bus` | `event/bus.py` |

A few support modules sit beside them:

- `Wrappers` holds `Option` and `Result`.
- `Bytes` holds `hexlify` and `unhexlify`.
- `CatalogState` gives the four tables as one value `Tables`. It defines the effect of each lifecycle and vote operation as a function on that value.

Each `ModuleCommunity` method is proved to change the store exactly as its effect function says. The lemmas in `CatalogState` state what the effects mean: guards, idempotence, the library ⊆ cache ⊆ catalog chain, and what reconciliation leaves behind.

## How the model represents the source

- **Classes with state.** The store, the engine and the bus are classes whose methods update fields. Their reader loops and dispatch loops are `while` loops, proved against specification functions.
- **INSERT on an existing key.** A plain SQL `INSERT` on an existing primary key fails. The store returns `IntegrityError` and leaves the table unchanged. Every caller in the community guards its inserts, and each call site proves that the insert commits.
- **Signing.** `trustchain.self_sign_block` is recorded as an append of the transaction to the ghost sequence `signed`.
- **Log messages.** The double-vote and "inconsistent vote db" messages of reconciliation are recorded in the ghost sequence `reports`.
- **Engine inputs.** The engine reads each package directory's `module.json`, and the configuration its imports yield, through `installed: map<Bytes, Manifest>`. The map is keyed by package directory name. What activation does to the node is recorded as appends to the engine's sequences: overlays, strategies, scheduled callbacks and services. For an executable package, `executed` is the log of `import_module` calls; Python's module cache runs a path that was imported before only once, so a repeated entry in the log (two ids sharing a name) stands for a call that executed nothing.
- **Reconciliation input.** It takes the ledger's vote blocks as a sequence of `VoteEntry`: signer, creator, content hash and name.
- **The `votes.pop` crash.** At `module_loader/community/module/community.py:436`, `votes.pop` raises for a catalogued module that no block votes for. The model returns `Err(MissingVotes(id))` at that point. Repairs made before it stay.

The code departs from the store's intended invariants in a few places. The model follows the code:

- **Catalog before votes.** The intent is that an identifier is catalogued before any vote row names it. Reconciliation stores the vote rows of every block, catalogued or not (`module_loader/community/module/community.py:403-405`). `CatalogState.ReconcileCanVoteForUncatalogued` exhibits such a row.
- **Tally at least its rows.** The intent is that a catalog entry's tally is never below the number of vote rows naming it. `CatalogState.EffectsKeepTalliesCoverRows` proves that voting, creating, downloading and receiving a vote keep this while every row names a catalogued module, and `CatalogState.ReconciledTalliesCoverRows` proves that reconciliation restores it when every stored row comes from a block. A row stored for an uncatalogued module breaks it: when that vote's block arrives later, `_process_vote_block` catalogues the module at 0 votes and, the row being present already, adds nothing (`community.py:336-348`). `CatalogState.ReconcileThenReceiveUndercounts` exhibits the resulting tally of 0 beside one row.
- **Recording a duplicate vote.** The intent is a no-op. The code's plain `INSERT` fails on the primary key (`module_database.py:384`), and callers check `did_vote` first.
- **Modules with no vote blocks.** The intent is to flag them with an "inconsistent database" warning. In the code they crash reconciliation at `votes.pop`. The warning is issued for identifiers that blocks vote for but the catalog lacks (`community.py:438-439`).
- **Double votes.** The intent suggests counting the first occurrence only. The code counts every block in the tally (`community.py:407-411`) and only logs the double vote. `CatalogState.DoubleVoteCountsTwice` states this.

## Model

| member | source | states |
|---|---|---|
| `Bytes.Hexlify` | module_loader/community/module/core/module_identifier.py:22 | the hex form is twice as long and holds only lower-case hex digits, never a dot |
| `Bytes.UnhexlifyHexlify` | module_loader/community/module/community.py:414 | `unhexlify` inverts `hexlify` on every byte string; this is what makes `hexlify` injective (`Bytes.HexlifyInjective`), so the hex key computed here determines the signer |
| `Bytes.HexlifyInjective` | module_loader/community/module/community.py:417-419 | distinct public keys have distinct hex keys in `voters` |
| `Identifiers.EqualsIsStructural` | module_loader/community/module/core/module_identifier.py:29-36 | identifiers are equal iff creator and content hash are both equal; a non-identifier is never equal; `__ne__` is the negation |
| `Identifiers.EqualIdentifiersHashEqually` | module_loader/community/module/core/module_identifier.py:38-39 | equal identifiers have equal hashes |
| `Identifiers.ToDict` | module_loader/community/module/core/module_identifier.py:20-24 | the dict has exactly the keys creator and content_hash; creator is hex-encoded (length doubles); content_hash is passed through |
| `Identifiers.FromDictToDict` | module_loader/community/module/core/module_identifier.py:20-24 | decoding `to_dict` gives back the identifier |
| `Identifiers.ToString` | module_loader/community/module/core/module_identifier.py:26-27 | the string is hex(creator), then a dot, then the content hash |
| `Identifiers.ToStringInjective` | module_loader/community/module/core/module_identifier.py:26-27 | distinct identifiers print differently |
| `Modules.ConstructorDefaults` | module_loader/community/module/core/module.py:6-23 | votes default to 0; the accessors return the constructor arguments |
| `Modules.EqualityIgnoresNameAndVotes` | module_loader/community/module/core/module.py:35-42 | modules are equal iff their identifiers are equal, whatever their names and votes; a non-module is never equal; `__ne__` negates |
| `Modules.EqualModulesHashEqually` | module_loader/community/module/core/module.py:44-45 | equal modules hash equally, with the identifier's hash |
| `Modules.ToDict` | module_loader/community/module/core/module.py:25-30 | the keys are exactly identifier, name and votes, holding `id.to_dict()`, the name and the tally |
| `Modules.FromDictToDict` | module_loader/community/module/core/module.py:25-30 | decoding `to_dict` gives back the module |
| `Blocks.HasFields` | module_loader/community/module/block.py:15-19 | true iff every needle is a key of the haystack |
| `Blocks.NoNeedlesAlwaysFound` | module_loader/community/module/block.py:15-19 | an empty needle list is always found |
| `Blocks.HasRequiredTypes` | module_loader/community/module/block.py:22-26 | true iff every listed key maps to a value of its type; never fails when all keys are present |
| `Blocks.IsValidVoteBlock` | module_loader/community/module/block.py:28-44 | an accepted block is a module_vote block whose creator, content_hash and name are all present and hold byte strings, so reading them cannot fail |
| `Blocks.ValidVoteBlockIff` | module_loader/community/module/block.py:28-44 | valid iff the type is module_vote, the keys are exactly creator, content_hash and name, and all three hold byte strings |
| `Blocks.WrongBlockTypeIsInvalid` | module_loader/community/module/block.py:31-32 | another block type is invalid |
| `Blocks.MissingFieldIsInvalid` | module_loader/community/module/block.py:33-34 | a transaction lacking a required key is invalid |
| `Blocks.ExtraFieldIsInvalid` | module_loader/community/module/block.py:35-36 | a transaction with any other key is invalid |
| `Blocks.WrongValueTypeIsInvalid` | module_loader/community/module/block.py:38-42 | a required key holding a non-byte-string is invalid |
| `Database.ParseDecimalIsZero` | module_loader/community/module/module_database.py:479-483 | a digit string parses below the latest version 1 iff all its digits are 0 |
| `Database.ModuleDatabase.constructor` | module_loader/community/module/module_database.py:26-45 | a new database has four empty tables |
| `Database.ModuleDatabase.AddModuleToCache` | module_loader/community/module/module_database.py:96-108 | inserts the id; fails without change iff it was already cached; other tables unchanged |
| `Database.ModuleDatabase.GetModuleFromCache` | module_loader/community/module/module_database.py:110-133 | None iff not cached, otherwise the identifier |
| `Database.ModuleDatabase.GetModulesFromCache` | module_loader/community/module/module_database.py:135-153 | lists every cached id exactly once |
| `Database.ModuleDatabase.HasModuleInCache` | module_loader/community/module/module_database.py:155-174 | true iff cached |
| `Database.ModuleDatabase.AddModuleToCatalog` | module_loader/community/module/module_database.py:176-189 | inserts the row; fails without change iff the id is catalogued; once committed, reading the row back gives the same module |
| `Database.ModuleDatabase.AddVoteToModuleInCatalog` | module_loader/community/module/module_database.py:191-203 | raises that row's tally by 1 and no other row; no change for an absent id |
| `Database.ModuleDatabase.GetModuleFromCatalog` | module_loader/community/module/module_database.py:205-230 | None iff not catalogued, otherwise the module with its stored name and votes |
| `Database.ModuleDatabase.GetModulesFromCatalog` | module_loader/community/module/module_database.py:232-252 | lists every catalogued module once, each with its stored row |
| `Database.ModuleDatabase.HasModuleInCatalog` | module_loader/community/module/module_database.py:254-272 | true iff catalogued |
| `Database.ModuleDatabase.UpdateModuleInCatalog` | module_loader/community/module/module_database.py:274-288 | sets that row's tally and touches no other row; no change for an absent id |
| `Database.ModuleDatabase.AddModuleToLibrary` | module_loader/community/module/module_database.py:291-303 | inserts the id; fails without change iff it was already in the library |
| `Database.ModuleDatabase.GetModuleFromLibrary` | module_loader/community/module/module_database.py:305-328 | None iff not in the library |
| `Database.ModuleDatabase.GetModulesFromLibrary` | module_loader/community/module/module_database.py:330-348 | lists every library id exactly once |
| `Database.ModuleDatabase.HasModuleInLibrary` | module_loader/community/module/module_database.py:350-369 | true iff in the library |
| `Database.ModuleDatabase.AddVoteToVotes` | module_loader/community/module/module_database.py:372-387 | inserts the vote row; fails without change iff the row exists |
| `Database.ModuleDatabase.GetVotesForModule` | module_loader/community/module/module_database.py:389-417 | None iff not catalogued, otherwise exactly that module's vote rows, each once |
| `Database.ModuleDatabase.GetVotesForPeer` | module_loader/community/module/module_database.py:419-443 | exactly the rows whose voter is the peer, each once |
| `Database.ModuleDatabase.DidVote` | module_loader/community/module/module_database.py:445-465 | true iff the (voter, creator, content hash) row exists |
| `Database.ModuleDatabase.CheckDatabase` | module_loader/community/module/module_database.py:473-486 | fails iff the stored version text is not all digits; otherwise returns 1, and applies the schema (writing version 1) iff the text is below 1, that is, iff every digit is 0; the tables and the version row are otherwise unchanged |
| `CatalogState.VoteEffectIsGuarded` | module_loader/community/module/community.py:256-280 | a vote changes nothing when the id is uncatalogued or already voted; otherwise it adds exactly the vote row and raises only that tally by 1 |
| `CatalogState.CreateFreshModule` | module_loader/community/module/community.py:171-190 | creating an unknown module leaves it catalogued with 1 vote and the creator's vote row |
| `CatalogState.CreateExistingIsNoOp` | module_loader/community/module/community.py:184-186 | creating a catalogued module changes nothing |
| `CatalogState.DownloadIsIdempotent` | module_loader/community/module/community.py:192-215 | a second download changes nothing; an uncatalogued id changes nothing; a fetched catalogued id joins cache and library |
| `CatalogState.ReceiveVoteIsIdempotent` | module_loader/community/module/community.py:338-348 | replaying a vote block changes nothing |
| `CatalogState.ReceiveVoteCountsOnce` | module_loader/community/module/community.py:338-348 | an unknown id is catalogued with 0 votes; the vote row is added, and the tally raised by 1 only when the row is new; no other row changes |
| `CatalogState.TwoSignersTwoVotes` | module_loader/community/module/community.py:338-348 | two distinct signers give an unknown module two votes and two rows |
| `CatalogState.EffectsKeepChain` | module_loader/community/module/community.py:192-215 | every effect keeps library ⊆ cache ⊆ catalog and removes no row |
| `CatalogState.BlockVotesMembers` | module_loader/community/module/community.py:403-405 | the vote rows reconciliation stores are exactly the (signer, id) pairs of the blocks |
| `CatalogState.BlockIdsMembers` | module_loader/community/module/community.py:407-411 | an id is voted for iff some block names it iff its block count is positive |
| `CatalogState.ReconciledRecordsEveryBlock` | module_loader/community/module/community.py:394-436 | after reconciliation every block has its vote row, every voted catalog entry holds its block count, and other entries are unchanged |
| `CatalogState.ReconcileIsFixedPoint` | module_loader/community/module/community.py:425-436 | reconciling again with the same blocks changes nothing |
| `CatalogState.ReconcileCanVoteForUncatalogued` | module_loader/community/module/community.py:403-405 | a block for an uncatalogued module leaves a vote row for it and no catalog entry |
| `CatalogState.EffectsKeepTalliesCoverRows` | module_loader/community/module/community.py:256-348 | while every vote row names a catalogued module, voting, creating, downloading and receiving a vote keep that and keep every tally at or above its rows |
| `CatalogState.BlockRowsBelowTally` | module_loader/community/module/community.py:403-411 | the blocks store no more rows for an id than they count blocks for it |
| `CatalogState.ReconciledTalliesCoverRows` | module_loader/community/module/community.py:394-436 | when every stored row comes from a block, every catalogued tally after reconciliation is at or above its rows |
| `CatalogState.ReconcileThenReceiveUndercounts` | module_loader/community/module/community.py:336-348 | receiving a block whose row reconciliation already stored for an uncatalogued module leaves a tally of 0 beside one row |
| `CatalogState.DoubleVoteCountsTwice` | module_loader/community/module/community.py:407-423 | two blocks from one signer for one module count twice but store one vote row |
| `Community.SignedVotesAreValid` | module_loader/community/module/community.py:350-366 | the transaction a local vote signs forms a valid vote block that this node would co-sign and that names the voted module |
| `Community.ShouldSign` | module_loader/community/module/community.py:283-297 | a co-sign request is never refused for a valid vote block |
| `Community.VacuousGuardAdmitsInvalidBlocks` | module_loader/community/module/community.py:325-333 | the guard as written admits a block that lacks name, which is then read, and a block with an extra key |
| `Community.CountBlock` | module_loader/community/module/community.py:407-423 | one block raises its id's count by one, indexes its signer, and reports a double vote iff the same pair came earlier |
| `Community.ModuleCommunity.constructor` | module_loader/community/module/community.py:58-92 | the node starts with an empty store and engine and nothing signed |
| `Community.ModuleCommunity.CreateModule` | module_loader/community/module/community.py:141-169 | no change without the package directory; otherwise the create effect, signing one vote iff the module was new |
| `Community.ModuleCommunity.CreateModuleTest` | module_loader/community/module/community.py:171-190 | the create effect for (my key, forty zeros) named test, signing one vote iff the module was new |
| `Community.ModuleCommunity.AddModuleAndVote` | module_loader/community/module/community.py:184-190 | catalogs the module unless known, then votes for it |
| `Community.ModuleCommunity.DownloadModule` | module_loader/community/module/community.py:192-215 | the download effect; the transport's failure surfaces only for a catalogued, uncached id |
| `Community.ModuleCommunity.RunModule` | module_loader/community/module/community.py:237-254 | the engine runs the stored module iff the id is in the library; otherwise the engine is unchanged |
| `Community.ModuleCommunity.VoteModule` | module_loader/community/module/community.py:256-280 | the vote effect, with exactly one signed transaction when a vote is cast and none otherwise; the chain is kept |
| `Community.ModuleCommunity.SignModule` | module_loader/community/module/community.py:350-366 | appends the creator, content_hash and name transaction to the signed log |
| `Community.ModuleCommunity.ReceivedBlock` | module_loader/community/module/community.py:299-311 | vote blocks go through vote processing; other blocks change nothing |
| `Community.ModuleCommunity.ProcessVoteBlock` | module_loader/community/module/community.py:313-348 | an invalid block changes nothing; a valid one has the receive-vote effect; the chain is kept |
| `Community.ModuleCommunity.CheckVotesInCatalog` | module_loader/community/module/community.py:381-441 | stores every block's vote row; succeeds iff every catalog entry has a block, and then leaves the reconciled tables; logs every double vote, and the uncatalogued voted ids |
| `Community.ModuleCommunity.CountBlocks` | module_loader/community/module/community.py:394-423 | adds the missing vote rows, counts the blocks per id, and logs each double vote in block order |
| `Community.ModuleCommunity.RepairTallies` | module_loader/community/module/community.py:425-439 | each catalog tally becomes its block count; fails iff a catalog id has no block; leaves over the voted ids not catalogued |
| `Engine.RunIsOnce` | module_loader/community/module/execution/engine.py:42-93 | running a module twice activates it once |
| `Engine.ImportedIsNoOp` | module_loader/community/module/execution/engine.py:46-93 | an imported id activates nothing more, whatever its manifest |
| `Engine.NoManifestOrUnknownTypeIsNoOp` | module_loader/community/module/execution/engine.py:35-93 | without a package manifest, or with an unknown type, nothing changes |
| `Engine.RunKeepsImportsDistinct` | module_loader/community/module/execution/engine.py:42-93 | the imported list grows by at most this id, exactly when it is activated, and never holds a duplicate |
| `Engine.WalkerBindingsShape` | module_loader/community/module/execution/engine.py:67-74 | one (strategy, peers) pair per walker, in order, bound to the overlay |
| `Engine.StartCallbacksShape` | module_loader/community/module/execution/engine.py:75-76 | one callback per on_start entry, in order, on the overlay |
| `Engine.OverlayActivationCounts` | module_loader/community/module/execution/engine.py:60-79 | one instance per declared overlay, one strategy per walker and one callback per on_start entry, each bound to an overlay of this package |
| `Engine.ExecutionEngine.constructor` | module_loader/community/module/execution/engine.py:17-27 | nothing imported or activated |
| `Engine.ExecutionEngine.RunModule` | module_loader/community/module/execution/engine.py:29-93 | the state becomes `Run` of the old state, keeping imports distinct |
| `Engine.ExecutionEngine.ActivateOverlays` | module_loader/community/module/execution/engine.py:60-78 | appends the instances, strategy bindings and callbacks of the declared overlays, in order |
| `Engine.ExecutionEngine.BindWalkers` | module_loader/community/module/execution/engine.py:67-74 | appends one strategy binding per walker |
| `Engine.ExecutionEngine.ScheduleStartCalls` | module_loader/community/module/execution/engine.py:75-76 | appends one callback per on_start entry |
| `Bus.AppendedAt` | module_loader/event/bus.py:10-14 | each listed type's list gains the listener once per mention, at its end; other types are unchanged |
| `Bus.AddTwiceKeepsBoth` | module_loader/event/bus.py:14 | adding a listener twice leaves two entries |
| `Bus.RemoveFirstSpec` | module_loader/event/bus.py:19 | removal drops exactly the first occurrence, or nothing when absent |
| `Bus.RemovedFrame` | module_loader/event/bus.py:16-19 | removal never creates a type and never touches unlisted types |
| `Bus.DeliveriesShape` | module_loader/event/bus.py:25-26 | one delivery per list entry, in registration order |
| `Bus.EventBus.constructor` | module_loader/event/bus.py:6-8 | no listeners, nothing delivered |
| `Bus.EventBus.AddProcessor` | module_loader/event/bus.py:10-14 | the map becomes `Appended` of the old map |
| `Bus.EventBus.RemoveProcessor` | module_loader/event/bus.py:16-19 | the map becomes `Removed` of the old map |
| `Bus.EventBus.Process` | module_loader/event/bus.py:21-26 | nothing for an unregistered type; otherwise delivers to each registered entry in order; the map is unchanged |

## Left out

- Community.ModuleCommunity.CheckVotesInCatalog: on the failing path it states only that each catalog entry is either unchanged or reconciled. It does not say which entries were repaired before the failure, because the order in which the catalog is listed is unspecified.
- Community.ModuleCommunity.CheckVotesInCatalog: a double vote is reported with the signer's key rather than its hex form, which is only used for the log text.
- Community.ModuleCommunity.DownloadModule: the transport's exception is returned as the flag `raised` instead of propagating. The tables are unchanged in that case, as in the source.
- Community.ModuleCommunity.constructor: listener registration, the transport start, the directory setup, the `sys.path` change and the two timer tasks (`community.py:79-108`) are scheduling, file-system and foreign calls.
- Community.ModuleCommunity.CreateModule: the transport's packaging is given as parameters: whether the package directory exists, the info hash, and the packaged name.
- Database.ModuleDatabase.constructor: the database file may already hold tables from an earlier run. The model starts from empty tables.
- Reconciliation reads the three transaction keys of each ledger block without validation (`community.py:397-399`). Blocks come in already extracted as `VoteEntry`, so a malformed ledger block, which raises `KeyError` there, is not modelled.
- `get_module_from_catalog` and `get_modules_from_catalog` of the community (`community.py:217-235`) are pass-throughs to the store readers of the same names, which are modelled.
- `_crawl_vote_blocks`, `unload` and the ledger's signing and crawling are timer-driven and foreign calls. Signing is kept as the ghost log `signed`.
- `Module.__str__` only formats log text.
- Python's `hash` of a tuple is a parameter of `Identifiers.Hash`. Only its agreement with equality is stated.
- The engine's `importlib`, `_COMMUNITIES` and `_WALKERS` lookups, `getattr` on the overlay module, and `reactor.callWhenRunning` are foreign calls. The model replaces them with the pre-resolved `installed` manifests and records their effects as appends.
  - A manifest lacking a key, or a class that cannot be resolved, raises in the source. That is not modelled.
  - A failure halfway through an overlay's activation also raises and leaves the instances already appended. That is not modelled either.
- Bus: what a listener's `process_event` does is not modelled; the call is recorded in `delivered`.
- Logging, SQL text and the blob conversions of the store are not modelled. The order of rows returned by the reader queries is left unspecified.

## Findings

| source | as written | input that shows it | evidently intended | confidence | as-written member | corrected member |
|---|---|---|---|---|---|---|
| module_loader/community/module/community.py:325 | `not block.is_valid_vote_block` negates the bound method, which is always truthy, so no block is rejected | a module_vote block whose transaction has creator and content_hash but no name passes the guard, then raises `KeyError` at line 333; a block with an extra key is counted as a vote | call `is_valid_vote_block()` and discard invalid blocks without changing the store | high, not executed | `Community.VacuousGuardAdmitsInvalidBlocks` | `Community.ModuleCommunity.ProcessVoteBlock` |
