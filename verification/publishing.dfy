/** The module-bundle publication gate of the session adapter
    (`verify_module_bundle` and `publish_module_bundle_with_option`): a fail-fast
    decision procedure over a list of blobs, followed by a commit loop that writes
    each blob under its module's id. Everything the gate calls out to is a field
    of `Collaborators` and is left uninterpreted. */
module ModulePublishing {
  import opened Outcomes
  import opened MoveTypes

  /** `PublishModuleBundleOption`: `forcePublish` skips the compatibility verdict,
      `onlyNewModule` refuses every update of an existing module. */
  datatype PublishModuleBundleOption = PublishModuleBundleOption(forcePublish: bool, onlyNewModule: bool)

  /** The session's data store: module id to the module's bytes, stored verbatim. */
  type ModuleStore = map<ModuleId, Blob>

  /** The external collaborators of the gate, each left uninterpreted:
      - `deserialize`: `CompiledModule::deserialize` (with its bounds check);
      - `existsFault`: a storage failure of `exists_module` for an id; when there is
        none, the answer is whether the id is in the store;
      - `loadModule`: the loader's `load_module` of the currently stored version;
      - `fullyCompatible`: `Compatibility::check` on the normalized old and new
        modules, then `is_fully_compatible`;
      - `verifyBundle`: `verify_module_bundle_for_publication`, `None` when it passes;
      - `publishFault`: a failure of the data store's `publish_module`; when there
        is none, the blob is written under the id. */
  datatype Collaborators = Collaborators(
    deserialize: Blob -> Result<CompiledModule, StatusCode>,
    existsFault: (ModuleStore, ModuleId) -> Option<StatusCode>,
    loadModule: (ModuleStore, ModuleId) -> Result<CompiledModule, StatusCode>,
    fullyCompatible: (CompiledModule, CompiledModule) -> bool,
    verifyBundle: (seq<CompiledModule>, ModuleStore) -> Option<StatusCode>,
    publishFault: (ModuleStore, ModuleId, Blob) -> Option<StatusCode>
  )

  /** What a publication returns, together with the data store it leaves behind
      (a failing commit loop can leave earlier writes in place). */
  datatype PublishOutcome = PublishOutcome(result: Result<(), StatusCode>, store: ModuleStore)

  /** Deserializes every blob in order and stops at the first failure, as the
      `collect` into a `PartialVMResult<Vec<_>>` does. */
  function DeserializeAll(deserialize: Blob -> Result<CompiledModule, StatusCode>, blobs: seq<Blob>)
    : (r: Result<seq<CompiledModule>, StatusCode>)
    ensures r.Ok? ==>
              && |r.value| == |blobs|
              && forall i :: 0 <= i < |blobs| ==> deserialize(blobs[i]) == Ok(r.value[i])
    ensures r.Err? ==>
              exists k :: 0 <= k < |blobs| && deserialize(blobs[k]) == Err(r.error)
                          && forall j :: 0 <= j < k ==> deserialize(blobs[j]).Ok?
  {
    if |blobs| == 0 then Ok([])
    else
      var m :- deserialize(blobs[0]);
      var rest :- DeserializeAll(deserialize, blobs[1..]);
      Ok([m] + rest)
  }

  /** The sender check: every module must be published under the sender's address. */
  function CheckAddresses(modules: seq<CompiledModule>, sender: AccountAddress): (r: Result<(), StatusCode>)
    ensures r.Ok? <==> forall i :: 0 <= i < |modules| ==> modules[i].Address() == sender
    ensures r.Err? ==> r.error == MODULE_ADDRESS_DOES_NOT_MATCH_SENDER
  {
    if |modules| == 0 then Ok(())
    else if modules[0].Address() != sender then Err(MODULE_ADDRESS_DOES_NOT_MATCH_SENDER)
    else CheckAddresses(modules[1..], sender)
  }

  /** The first three steps of the per-module loop: the existence query, the
      `onlyNewModule` rejection and the compatibility verdict, in that order. A
      module that is not stored passes without being compared; a stored one passes
      only when updates are allowed, its stored version loads, and the pair is
      fully compatible or publication is forced. An existence fault wins over
      everything, and a load failure is returned as itself, before any verdict. */
  function UpgradeGate(env: Collaborators, store: ModuleStore, option: PublishModuleBundleOption,
                       candidate: CompiledModule): (r: Result<(), StatusCode>)
    ensures env.existsFault(store, candidate.selfId).None? && candidate.selfId !in store ==> r == Ok(())
    ensures r.Ok? <==>
              && env.existsFault(store, candidate.selfId).None?
              && (candidate.selfId in store ==>
                    && !option.onlyNewModule
                    && env.loadModule(store, candidate.selfId).Ok?
                    && (option.forcePublish
                        || env.fullyCompatible(env.loadModule(store, candidate.selfId).value, candidate)))
    ensures env.existsFault(store, candidate.selfId).Some? ==> r == Err(env.existsFault(store, candidate.selfId).value)
    ensures env.existsFault(store, candidate.selfId).None? && candidate.selfId in store && option.onlyNewModule ==>
              r == Err(INVALID_MODULE_PUBLISHER)
    ensures (&& env.existsFault(store, candidate.selfId).None? && candidate.selfId in store
             && !option.onlyNewModule && env.loadModule(store, candidate.selfId).Err?)
            ==> r == Err(env.loadModule(store, candidate.selfId).error)
    ensures r.Err? ==>
              || env.existsFault(store, candidate.selfId) == Some(r.error)
              || (r.error == INVALID_MODULE_PUBLISHER && option.onlyNewModule)
              || env.loadModule(store, candidate.selfId) == Err(r.error)
              || (r.error == BACKWARD_INCOMPATIBLE_MODULE_UPDATE && !option.forcePublish)
  {
    var id := candidate.selfId;
    match env.existsFault(store, id)
    case Some(e) => Err(e)
    case None =>
      if id !in store then Ok(())
      else if option.onlyNewModule then Err(INVALID_MODULE_PUBLISHER)
      else
        var stored :- env.loadModule(store, id);
        if !env.fullyCompatible(stored, candidate) && !option.forcePublish then
          Err(BACKWARD_INCOMPATIBLE_MODULE_UPDATE)
        else Ok(())
  }

  /** The per-module loop from position `i`, with `seen` the ids already inserted
      into the bundle set: each module passes its upgrade gate and only then has its
      id inserted, so a duplicate is caught at its second occurrence. */
  function CheckModulesFrom(env: Collaborators, store: ModuleStore, option: PublishModuleBundleOption,
                            modules: seq<CompiledModule>, i: nat, seen: set<ModuleId>)
    : (r: Result<(), StatusCode>)
    requires i <= |modules|
    ensures r.Ok? ==> DistinctIds(modules[i..]) && Ids(modules[i..]) !! seen
    decreases |modules| - i
  {
    if i == |modules| then Ok(())
    else
      var _ :- UpgradeGate(env, store, option, modules[i]);
      var id := modules[i].selfId;
      if id in seen then Err(DUPLICATE_MODULE_NAME)
      else
        var r := CheckModulesFrom(env, store, option, modules, i + 1, seen + {id});
        assert modules[i..] == [modules[i]] + modules[i + 1..];
        r
  }

  function CheckModules(env: Collaborators, store: ModuleStore, option: PublishModuleBundleOption,
                        modules: seq<CompiledModule>): (r: Result<(), StatusCode>)
    ensures r.Ok? ==> DistinctIds(modules)
  {
    assert modules[0..] == modules;
    CheckModulesFrom(env, store, option, modules, 0, {})
  }

  /** `verify_module_bundle`: deserialization, the sender check, the per-module
      loop and bundle-level verification, each failing fast. On success the
      deserialized modules are returned in blob order. */
  function VerifyModuleBundle(env: Collaborators, store: ModuleStore, blobs: seq<Blob>,
                              sender: AccountAddress, option: PublishModuleBundleOption)
    : (r: Result<seq<CompiledModule>, StatusCode>)
    ensures r.Ok? ==>
              && |r.value| == |blobs|
              && (forall i :: 0 <= i < |blobs| ==> env.deserialize(blobs[i]) == Ok(r.value[i]))
              && (forall i :: 0 <= i < |blobs| ==> r.value[i].Address() == sender)
              && DistinctIds(r.value)
  {
    var modules :- DeserializeAll(env.deserialize, blobs);
    var _ :- CheckAddresses(modules, sender);
    var _ :- CheckModules(env, store, option, modules);
    match env.verifyBundle(modules, store)
    case Some(e) => Err(e)
    case None => Ok(modules)
  }

  /** A sequence's ids are its head's id and its tail's ids; distinct ids stay
      distinct in the tail, which never repeats the head's id. */
  lemma IdsOfHeadAndTail(modules: seq<CompiledModule>)
    requires |modules| > 0
    ensures Ids(modules) == {modules[0].selfId} + Ids(modules[1..])
    ensures DistinctIds(modules) ==> DistinctIds(modules[1..]) && modules[0].selfId !in Ids(modules[1..])
  {
    assert modules == [modules[0]] + modules[1..];
  }

  /** The store after writing `blobs[i]` under `modules[i]`'s id, in bundle order. */
  function Commit(store: ModuleStore, modules: seq<CompiledModule>, blobs: seq<Blob>): (r: ModuleStore)
    requires |modules| == |blobs|
    ensures r.Keys == store.Keys + Ids(modules)
    ensures forall id :: id in store && id !in Ids(modules) ==> r[id] == store[id]
    ensures DistinctIds(modules) ==>
              forall i :: 0 <= i < |modules| ==> r[modules[i].selfId] == blobs[i]
    decreases |modules|
  {
    if |modules| == 0 then store
    else
      var id := modules[0].selfId;
      IdsOfHeadAndTail(modules);
      var r := Commit(store[id := blobs[0]], modules[1..], blobs[1..]);
      assert DistinctIds(modules) ==> forall i :: 0 <= i < |modules| ==> r[modules[i].selfId] == blobs[i] by {
        if DistinctIds(modules) {
          forall i | 0 <= i < |modules|
            ensures r[modules[i].selfId] == blobs[i]
          {
            if i > 0 {
              assert modules[1..][i - 1] == modules[i] && blobs[1..][i - 1] == blobs[i];
            }
          }
        }
      }
      r
  }

  /** Committing a non-empty prefix is writing its first blob, then committing the
      rest of the prefix. */
  lemma CommitFirstWrite(store: ModuleStore, modules: seq<CompiledModule>, blobs: seq<Blob>, n: nat)
    requires |modules| == |blobs| && 0 < n <= |modules|
    ensures Commit(store, modules[..n], blobs[..n])
         == Commit(store[modules[0].selfId := blobs[0]], modules[1..][..n - 1], blobs[1..][..n - 1])
  {
    assert modules[..n][1..] == modules[1..][..n - 1] && blobs[..n][1..] == blobs[1..][..n - 1];
  }

  /** The `publish_module` call for position `k`, made on the store the loop has
      reached by then, raises no fault. */
  predicate WriteSucceeds(env: Collaborators, store: ModuleStore, modules: seq<CompiledModule>,
                          blobs: seq<Blob>, k: nat)
    requires |modules| == |blobs| && k < |modules|
  {
    env.publishFault(Commit(store, modules[..k], blobs[..k]), modules[k].selfId, blobs[k]).None?
  }

  /** The first `k` writes of the commit loop raise no fault. */
  predicate FaultFreeUpTo(env: Collaborators, store: ModuleStore, modules: seq<CompiledModule>,
                          blobs: seq<Blob>, k: nat)
    requires |modules| == |blobs| && k <= |modules|
  {
    forall j :: 0 <= j < k ==> WriteSucceeds(env, store, modules, blobs, j)
  }

  /** Write `k` is the first to fault, and its fault is `e`. */
  predicate FailedAt(env: Collaborators, store: ModuleStore, modules: seq<CompiledModule>,
                     blobs: seq<Blob>, k: nat, e: StatusCode)
    requires |modules| == |blobs|
  {
    && k < |modules|
    && FaultFreeUpTo(env, store, modules, blobs, k)
    && env.publishFault(Commit(store, modules[..k], blobs[..k]), modules[k].selfId, blobs[k]) == Some(e)
  }

  /** Seen from one position earlier, with the first write succeeding, a
      fault-free prefix of the rest grows by one. */
  lemma FaultFreePrefixShifts(env: Collaborators, store: ModuleStore, modules: seq<CompiledModule>,
                              blobs: seq<Blob>, k: nat)
    requires |modules| == |blobs| && k < |modules|
    requires env.publishFault(store, modules[0].selfId, blobs[0]).None?
    requires FaultFreeUpTo(env, store[modules[0].selfId := blobs[0]], modules[1..], blobs[1..], k)
    ensures FaultFreeUpTo(env, store, modules, blobs, k + 1)
  {
    var written := store[modules[0].selfId := blobs[0]];
    forall j | 0 <= j < k + 1
      ensures WriteSucceeds(env, store, modules, blobs, j)
    {
      if j == 0 {
        assert modules[..0] == [] && blobs[..0] == [];
      } else {
        assert WriteSucceeds(env, written, modules[1..], blobs[1..], j - 1);
        CommitFirstWrite(store, modules, blobs, j);
        assert modules[1..][j - 1] == modules[j] && blobs[1..][j - 1] == blobs[j];
      }
    }
  }

  /** Seen from one position earlier, with the first write succeeding, the first
      fault of the rest at `k` is the first fault at `k + 1`, on the same store. */
  lemma FailureShifts(env: Collaborators, store: ModuleStore, modules: seq<CompiledModule>,
                      blobs: seq<Blob>, k: nat, e: StatusCode)
    requires |modules| == |blobs| && 0 < |modules|
    requires env.publishFault(store, modules[0].selfId, blobs[0]).None?
    requires FailedAt(env, store[modules[0].selfId := blobs[0]], modules[1..], blobs[1..], k, e)
    ensures FailedAt(env, store, modules, blobs, k + 1, e)
    ensures Commit(store[modules[0].selfId := blobs[0]], modules[1..][..k], blobs[1..][..k])
         == Commit(store, modules[..k + 1], blobs[..k + 1])
  {
    FaultFreePrefixShifts(env, store, modules, blobs, k);
    CommitFirstWrite(store, modules, blobs, k + 1);
    assert modules[1..][k] == modules[k + 1] && blobs[1..][k] == blobs[k + 1];
  }

  /** The commit loop: `publish_module` for each module and blob, stopping at the
      first failure and keeping the writes made before it. A success means no write
      faulted; a failure is the first faulting write's error. */
  function PublishModules(env: Collaborators, store: ModuleStore, modules: seq<CompiledModule>, blobs: seq<Blob>)
    : (r: PublishOutcome)
    requires |modules| == |blobs|
    ensures r.result.Ok? ==>
              && r.store == Commit(store, modules, blobs)
              && FaultFreeUpTo(env, store, modules, blobs, |modules|)
    ensures r.result.Err? ==>
              exists k: nat :: && FailedAt(env, store, modules, blobs, k, r.result.error)
                          && r.store == Commit(store, modules[..k], blobs[..k])
    decreases |modules|
  {
    if |modules| == 0 then PublishOutcome(Ok(()), store)
    else
      match env.publishFault(store, modules[0].selfId, blobs[0])
      case Some(e) =>
        assert modules[..0] == [] && blobs[..0] == [];
        assert FailedAt(env, store, modules, blobs, 0, e);
        PublishOutcome(Err(e), store)
      case None =>
        var written := store[modules[0].selfId := blobs[0]];
        var r := PublishModules(env, written, modules[1..], blobs[1..]);
        if r.result.Err? then
          var k: nat :| && FailedAt(env, written, modules[1..], blobs[1..], k, r.result.error)
                   && r.store == Commit(written, modules[1..][..k], blobs[1..][..k]);
          FailureShifts(env, store, modules, blobs, k, r.result.error);
          r
        else
          FaultFreePrefixShifts(env, store, modules, blobs, |modules| - 1);
          r
  }

  /** `publish_module_bundle_with_option`: the store is written only once the whole
      bundle has been verified, blob `i` under the id of the `i`-th module. */
  function PublishModuleBundleWithOption(env: Collaborators, store: ModuleStore, blobs: seq<Blob>,
                                         sender: AccountAddress, option: PublishModuleBundleOption)
    : (r: PublishOutcome)
    ensures VerifyModuleBundle(env, store, blobs, sender, option).Ok? ==>
              r == PublishModules(env, store, VerifyModuleBundle(env, store, blobs, sender, option).value, blobs)
    ensures VerifyModuleBundle(env, store, blobs, sender, option).Err? ==>
              r == PublishOutcome(Err(VerifyModuleBundle(env, store, blobs, sender, option).error), store)
  {
    match VerifyModuleBundle(env, store, blobs, sender, option)
    case Err(e) => PublishOutcome(Err(e), store)
    case Ok(modules) => PublishModules(env, store, modules, blobs)
  }
}
