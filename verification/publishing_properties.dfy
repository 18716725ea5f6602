/** Properties of the publication gate: which status wins and in what order, that
    the data store is written only after every gate has passed, and that blob `i`
    lands under the id of the `i`-th module. */
module PublishingProperties {
  import opened Outcomes
  import opened MoveTypes
  import opened ModulePublishing

  /** `modules` is what the deserializer makes of `blobs`, blob by blob. */
  predicate Deserializes(env: Collaborators, blobs: seq<Blob>, modules: seq<CompiledModule>) {
    && |modules| == |blobs|
    && forall i :: 0 <= i < |blobs| ==> env.deserialize(blobs[i]) == Ok(modules[i])
  }

  /** Every module is declared under the sender's address. */
  predicate OwnedBy(modules: seq<CompiledModule>, sender: AccountAddress) {
    forall i :: 0 <= i < |modules| ==> modules[i].Address() == sender
  }

  /** Some module before position `k` has the same self id as module `k`. */
  predicate DuplicateAt(modules: seq<CompiledModule>, k: nat)
    requires k < |modules|
  {
    exists j :: 0 <= j < k && modules[j].selfId == modules[k].selfId
  }

  /** The verdict of the per-module loop on module `k`, stated without the loop's
      state: its upgrade gate first, then the duplicate check against earlier modules. */
  function ModuleStep(env: Collaborators, store: ModuleStore, option: PublishModuleBundleOption,
                      modules: seq<CompiledModule>, k: nat): Result<(), StatusCode>
    requires k < |modules|
  {
    match UpgradeGate(env, store, option, modules[k])
    case Err(e) => Err(e)
    case Ok(_) => if DuplicateAt(modules, k) then Err(DUPLICATE_MODULE_NAME) else Ok(())
  }

  /** Every module before position `k` passes its step. */
  predicate StepsPassBefore(env: Collaborators, store: ModuleStore, option: PublishModuleBundleOption,
                            modules: seq<CompiledModule>, k: nat)
    requires k <= |modules|
  {
    forall j :: 0 <= j < k ==> ModuleStep(env, store, option, modules, j).Ok?
  }

  /** Extending a prefix by module `i` adds its id; the id was already collected
      exactly when module `i` repeats an earlier id. */
  lemma IdsOfPrefix(modules: seq<CompiledModule>, i: nat)
    requires i < |modules|
    ensures Ids(modules[..i + 1]) == Ids(modules[..i]) + {modules[i].selfId}
    ensures modules[i].selfId in Ids(modules[..i]) <==> DuplicateAt(modules, i)
  {
    assert modules[..i + 1] == modules[..i] + [modules[i]];
    if modules[i].selfId in Ids(modules[..i]) {
      var m :| m in modules[..i] && m.selfId == modules[i].selfId;
      var j :| 0 <= j < i && modules[..i][j] == m;
      assert modules[j].selfId == modules[i].selfId;
    }
    if DuplicateAt(modules, i) {
      var j :| 0 <= j < i && modules[j].selfId == modules[i].selfId;
      assert modules[..i][j] == modules[j];
    }
  }

  /** The per-module loop, run from position `i` with the ids of the modules before
      `i` already collected, fails exactly at the first module whose step fails. */
  lemma {:induction false} CheckModulesFromIsFirstFailure(env: Collaborators, store: ModuleStore,
                                                          option: PublishModuleBundleOption,
                                                          modules: seq<CompiledModule>, i: nat)
    requires i <= |modules|
    ensures var r := CheckModulesFrom(env, store, option, modules, i, Ids(modules[..i]));
            && (r.Ok? <==> forall k :: i <= k < |modules| ==> ModuleStep(env, store, option, modules, k).Ok?)
            && (r.Err? ==> exists k :: i <= k < |modules|
                                       && ModuleStep(env, store, option, modules, k) == r
                                       && forall j :: i <= j < k ==> ModuleStep(env, store, option, modules, j).Ok?)
    decreases |modules| - i
  {
    if i < |modules| {
      IdsOfPrefix(modules, i);
      var r := CheckModulesFrom(env, store, option, modules, i, Ids(modules[..i]));
      var step := ModuleStep(env, store, option, modules, i);
      if UpgradeGate(env, store, option, modules[i]).Err? || DuplicateAt(modules, i) {
        assert r == step && step.Err?;
      } else {
        CheckModulesFromIsFirstFailure(env, store, option, modules, i + 1);
        assert r == CheckModulesFrom(env, store, option, modules, i + 1, Ids(modules[..i + 1]));
        assert step.Ok?;
      }
    }
  }

  /** The whole per-module loop fails exactly at the first module whose step fails. */
  lemma CheckModulesIsFirstFailure(env: Collaborators, store: ModuleStore, option: PublishModuleBundleOption,
                                   modules: seq<CompiledModule>)
    ensures CheckModules(env, store, option, modules).Ok? <==> StepsPassBefore(env, store, option, modules, |modules|)
    ensures var r := CheckModules(env, store, option, modules);
            r.Err? ==> exists k :: 0 <= k < |modules|
                                   && StepsPassBefore(env, store, option, modules, k)
                                   && ModuleStep(env, store, option, modules, k) == r
  {
    assert modules[..0] == [];
    assert Ids(modules[..0]) == {};
    CheckModulesFromIsFirstFailure(env, store, option, modules, 0);
  }

  /** A step failure preceded only by passing steps is the loop's verdict. */
  lemma FirstFailingStepDecides(env: Collaborators, store: ModuleStore, option: PublishModuleBundleOption,
                                modules: seq<CompiledModule>, k: nat)
    requires k < |modules| && StepsPassBefore(env, store, option, modules, k)
    requires ModuleStep(env, store, option, modules, k).Err?
    ensures CheckModules(env, store, option, modules) == ModuleStep(env, store, option, modules, k)
  {
    CheckModulesIsFirstFailure(env, store, option, modules);
    var r := CheckModules(env, store, option, modules);
    var f :| 0 <= f < |modules| && StepsPassBefore(env, store, option, modules, f)
             && ModuleStep(env, store, option, modules, f) == r;
    assert f == k;
  }

  /** A loop whose upgrade gates agree module by module reaches the same verdict. */
  lemma {:induction false} CheckModulesFromCongruent(env: Collaborators, option: PublishModuleBundleOption,
                                                     env': Collaborators, option': PublishModuleBundleOption,
                                                     store: ModuleStore, modules: seq<CompiledModule>,
                                                     i: nat, seen: set<ModuleId>)
    requires i <= |modules|
    requires forall k :: i <= k < |modules| ==>
               UpgradeGate(env, store, option, modules[k]) == UpgradeGate(env', store, option', modules[k])
    ensures CheckModulesFrom(env, store, option, modules, i, seen)
         == CheckModulesFrom(env', store, option', modules, i, seen)
    decreases |modules| - i
  {
    if i < |modules| {
      CheckModulesFromCongruent(env, option, env', option', store, modules, i + 1, seen + {modules[i].selfId});
    }
  }

  /** Two publications whose collaborators differ at most in the compatibility
      verdict, and whose upgrade gates agree on every module, behave identically. */
  lemma PublicationCongruent(env: Collaborators, option: PublishModuleBundleOption,
                             env': Collaborators, option': PublishModuleBundleOption,
                             store: ModuleStore, blobs: seq<Blob>, sender: AccountAddress)
    requires env'.deserialize == env.deserialize
    requires env'.verifyBundle == env.verifyBundle && env'.publishFault == env.publishFault
    requires forall m :: m in Modules(env, blobs) ==>
               UpgradeGate(env, store, option, m) == UpgradeGate(env', store, option', m)
    ensures PublishModuleBundleWithOption(env, store, blobs, sender, option)
         == PublishModuleBundleWithOption(env', store, blobs, sender, option')
  {
    var d := DeserializeAll(env.deserialize, blobs);
    if d.Ok? {
      var modules := d.value;
      forall k | 0 <= k < |modules|
        ensures UpgradeGate(env, store, option, modules[k]) == UpgradeGate(env', store, option', modules[k])
      {
        assert modules[k] in Modules(env, blobs);
      }
      assert modules[0..] == modules;
      CheckModulesFromCongruent(env, option, env', option', store, modules, 0, {});
      assert CheckModules(env, store, option, modules) == CheckModules(env', store, option', modules);
      assert VerifyModuleBundle(env, store, blobs, sender, option)
          == VerifyModuleBundle(env', store, blobs, sender, option');
      PublishModulesCongruent(env, env', store, modules, blobs);
    }
  }

  lemma {:induction false} PublishModulesCongruent(env: Collaborators, env': Collaborators, store: ModuleStore,
                                                   modules: seq<CompiledModule>, blobs: seq<Blob>)
    requires |modules| == |blobs|
    requires env'.publishFault == env.publishFault
    ensures PublishModules(env, store, modules, blobs) == PublishModules(env', store, modules, blobs)
    decreases |modules|
  {
    if |modules| > 0 {
      PublishModulesCongruent(env, env', store[modules[0].selfId := blobs[0]], modules[1..], blobs[1..]);
    }
  }

  /** The modules the bundle deserializes to, or none when a blob is malformed. */
  function Modules(env: Collaborators, blobs: seq<Blob>): seq<CompiledModule> {
    match DeserializeAll(env.deserialize, blobs)
    case Ok(modules) => modules
    case Err(_) => []
  }

  /** A bundle whose every blob deserializes is collected into exactly those modules. */
  lemma WellFormedBundleDeserializes(env: Collaborators, blobs: seq<Blob>, modules: seq<CompiledModule>)
    requires Deserializes(env, blobs, modules)
    ensures DeserializeAll(env.deserialize, blobs) == Ok(modules)
  {
    var r := DeserializeAll(env.deserialize, blobs);
    assert r.Ok?;
    assert r.value == modules;
  }

  // ---------------------------------------------------------------------------
  // Error precedence

  /** The first malformed blob decides the result, before any address, existence
      or duplicate check, and nothing is written. */
  lemma MalformedBlobRejectedFirst(env: Collaborators, store: ModuleStore, blobs: seq<Blob>,
                                   sender: AccountAddress, option: PublishModuleBundleOption, k: nat)
    requires k < |blobs| && env.deserialize(blobs[k]).Err?
    requires forall j :: 0 <= j < k ==> env.deserialize(blobs[j]).Ok?
    ensures PublishModuleBundleWithOption(env, store, blobs, sender, option)
         == PublishOutcome(Err(env.deserialize(blobs[k]).error), store)
  {
    var d := DeserializeAll(env.deserialize, blobs);
    assert d.Err?;
    var k' :| 0 <= k' < |blobs| && env.deserialize(blobs[k']) == Err(d.error)
              && forall j :: 0 <= j < k' ==> env.deserialize(blobs[j]).Ok?;
    assert k' == k;
  }

  /** A module declared under another address is rejected with
      `MODULE_ADDRESS_DOES_NOT_MATCH_SENDER`, before any existence check, and
      nothing is written. */
  lemma ForeignAddressRejected(env: Collaborators, store: ModuleStore, blobs: seq<Blob>,
                               sender: AccountAddress, option: PublishModuleBundleOption,
                               modules: seq<CompiledModule>, k: nat)
    requires Deserializes(env, blobs, modules)
    requires k < |modules| && modules[k].Address() != sender
    ensures PublishModuleBundleWithOption(env, store, blobs, sender, option)
         == PublishOutcome(Err(MODULE_ADDRESS_DOES_NOT_MATCH_SENDER), store)
  {
    WellFormedBundleDeserializes(env, blobs, modules);
  }

  /** When every earlier module passed, a module already in the store is refused
      with `INVALID_MODULE_PUBLISHER` under `onlyNewModule`, whatever `forcePublish`
      says, and nothing is written. */
  lemma ExistingModuleRejectedWhenOnlyNew(env: Collaborators, store: ModuleStore, blobs: seq<Blob>,
                                          sender: AccountAddress, option: PublishModuleBundleOption,
                                          modules: seq<CompiledModule>, k: nat)
    requires Deserializes(env, blobs, modules) && OwnedBy(modules, sender)
    requires option.onlyNewModule
    requires k < |modules| && StepsPassBefore(env, store, option, modules, k)
    requires env.existsFault(store, modules[k].selfId).None? && modules[k].selfId in store
    ensures PublishModuleBundleWithOption(env, store, blobs, sender, option)
         == PublishOutcome(Err(INVALID_MODULE_PUBLISHER), store)
  {
    StepFailureDecides(env, store, blobs, sender, option, modules, k);
  }

  /** When every earlier module passed, an incompatible update of a stored module
      without `forcePublish` is refused with `BACKWARD_INCOMPATIBLE_MODULE_UPDATE`,
      and nothing is written. */
  lemma IncompatibleUpdateRejected(env: Collaborators, store: ModuleStore, blobs: seq<Blob>,
                                   sender: AccountAddress, option: PublishModuleBundleOption,
                                   modules: seq<CompiledModule>, k: nat)
    requires Deserializes(env, blobs, modules) && OwnedBy(modules, sender)
    requires !option.onlyNewModule && !option.forcePublish
    requires k < |modules| && StepsPassBefore(env, store, option, modules, k)
    requires env.existsFault(store, modules[k].selfId).None? && modules[k].selfId in store
    requires env.loadModule(store, modules[k].selfId).Ok?
    requires !env.fullyCompatible(env.loadModule(store, modules[k].selfId).value, modules[k])
    ensures PublishModuleBundleWithOption(env, store, blobs, sender, option)
         == PublishOutcome(Err(BACKWARD_INCOMPATIBLE_MODULE_UPDATE), store)
  {
    StepFailureDecides(env, store, blobs, sender, option, modules, k);
  }

  /** When every module up to the second occurrence of a repeated id passed its
      upgrade gate, the bundle is refused with `DUPLICATE_MODULE_NAME`, and nothing
      is written. */
  lemma DuplicateIdRejected(env: Collaborators, store: ModuleStore, blobs: seq<Blob>,
                            sender: AccountAddress, option: PublishModuleBundleOption,
                            modules: seq<CompiledModule>, j: nat, k: nat)
    requires Deserializes(env, blobs, modules) && OwnedBy(modules, sender)
    requires j < k < |modules| && modules[j].selfId == modules[k].selfId
    requires forall i :: 0 <= i <= k ==> UpgradeGate(env, store, option, modules[i]).Ok?
    ensures PublishModuleBundleWithOption(env, store, blobs, sender, option)
         == PublishOutcome(Err(DUPLICATE_MODULE_NAME), store)
  {
    WellFormedBundleDeserializes(env, blobs, modules);
    CheckModulesIsFirstFailure(env, store, option, modules);
    assert ModuleStep(env, store, option, modules, k).Err?;
    var r := CheckModules(env, store, option, modules);
    var f :| 0 <= f < |modules| && StepsPassBefore(env, store, option, modules, f)
             && ModuleStep(env, store, option, modules, f) == r;
    assert f <= k;
    assert UpgradeGate(env, store, option, modules[f]).Ok?;
  }

  /** A module's own upgrade gate runs before its duplicate check: when every
      earlier module passed, the gate's error is the result even if the module
      repeats an earlier id, and nothing is written. */
  lemma StepFailureDecides(env: Collaborators, store: ModuleStore, blobs: seq<Blob>,
                           sender: AccountAddress, option: PublishModuleBundleOption,
                           modules: seq<CompiledModule>, k: nat)
    requires Deserializes(env, blobs, modules) && OwnedBy(modules, sender)
    requires k < |modules| && StepsPassBefore(env, store, option, modules, k)
    requires UpgradeGate(env, store, option, modules[k]).Err?
    ensures PublishModuleBundleWithOption(env, store, blobs, sender, option)
         == PublishOutcome(Err(UpgradeGate(env, store, option, modules[k]).error), store)
  {
    WellFormedBundleDeserializes(env, blobs, modules);
    FirstFailingStepDecides(env, store, option, modules, k);
  }

  /** Once every module passed the loop, a failure of bundle-level verification is
      the result, and no `publish_module` call is made. */
  lemma BundleVerificationFailurePropagates(env: Collaborators, store: ModuleStore, blobs: seq<Blob>,
                                            sender: AccountAddress, option: PublishModuleBundleOption,
                                            modules: seq<CompiledModule>)
    requires Deserializes(env, blobs, modules) && OwnedBy(modules, sender)
    requires StepsPassBefore(env, store, option, modules, |modules|)
    requires env.verifyBundle(modules, store).Some?
    ensures PublishModuleBundleWithOption(env, store, blobs, sender, option)
         == PublishOutcome(Err(env.verifyBundle(modules, store).value), store)
  {
    WellFormedBundleDeserializes(env, blobs, modules);
    CheckModulesIsFirstFailure(env, store, option, modules);
  }

  // ---------------------------------------------------------------------------
  // The options

  /** Under `onlyNewModule` the `forcePublish` flag has no effect at all. */
  lemma OnlyNewModuleIgnoresForcePublish(env: Collaborators, store: ModuleStore, blobs: seq<Blob>,
                                         sender: AccountAddress, option: PublishModuleBundleOption)
    requires option.onlyNewModule
    ensures PublishModuleBundleWithOption(env, store, blobs, sender, option)
         == PublishModuleBundleWithOption(env, store, blobs, sender, option.(forcePublish := !option.forcePublish))
  {
    PublicationCongruent(env, option, env, option.(forcePublish := !option.forcePublish), store, blobs, sender);
  }

  /** `forcePublish` removes the compatibility gate and nothing else: publishing
      with it is publishing without it against a checker that accepts every pair. */
  lemma ForcePublishOnlyBypassesCompatibility(env: Collaborators, store: ModuleStore, blobs: seq<Blob>,
                                              sender: AccountAddress, option: PublishModuleBundleOption)
    ensures PublishModuleBundleWithOption(env, store, blobs, sender, option.(forcePublish := true))
         == PublishModuleBundleWithOption(env.(fullyCompatible := (stored, candidate) => true), store, blobs,
                                          sender, option.(forcePublish := false))
  {
    PublicationCongruent(env, option.(forcePublish := true),
                         env.(fullyCompatible := (stored, candidate) => true), option.(forcePublish := false),
                         store, blobs, sender);
  }

  /** A module whose id is not in the store is never compared: the checker's
      verdict on pairs whose new module is not stored cannot influence the result,
      even in a bundle that also updates stored modules. */
  lemma FreshModulesNeverCompared(env: Collaborators, store: ModuleStore, blobs: seq<Blob>,
                                  sender: AccountAddress, option: PublishModuleBundleOption,
                                  compatible: (CompiledModule, CompiledModule) -> bool)
    requires forall m, stored :: m in Modules(env, blobs) && m.selfId in store ==>
               compatible(stored, m) == env.fullyCompatible(stored, m)
    ensures PublishModuleBundleWithOption(env, store, blobs, sender, option)
         == PublishModuleBundleWithOption(env.(fullyCompatible := compatible), store, blobs, sender, option)
  {
    PublicationCongruent(env, option, env.(fullyCompatible := compatible), option, store, blobs, sender);
  }

  // ---------------------------------------------------------------------------
  // Store effects

  /** A bundle that clears every gate is accepted: verification returns its
      modules in blob order. */
  lemma CleanBundleAccepted(env: Collaborators, store: ModuleStore, blobs: seq<Blob>,
                            sender: AccountAddress, option: PublishModuleBundleOption,
                            modules: seq<CompiledModule>)
    requires Deserializes(env, blobs, modules) && OwnedBy(modules, sender)
    requires StepsPassBefore(env, store, option, modules, |modules|)
    requires env.verifyBundle(modules, store).None?
    ensures VerifyModuleBundle(env, store, blobs, sender, option) == Ok(modules)
  {
    WellFormedBundleDeserializes(env, blobs, modules);
    CheckModulesIsFirstFailure(env, store, option, modules);
  }

  /** After a successful verification the commit writes blob `i` under the id of
      the `i`-th module (ids are distinct, so no write is overwritten), adds no
      other key and leaves every other module untouched; the first failing write stops
      the loop with the writes made before it in place. */
  lemma VerifiedBundleCommittedInOrder(env: Collaborators, store: ModuleStore, blobs: seq<Blob>,
                                       sender: AccountAddress, option: PublishModuleBundleOption,
                                       modules: seq<CompiledModule>)
    requires VerifyModuleBundle(env, store, blobs, sender, option) == Ok(modules)
    ensures Deserializes(env, blobs, modules) && OwnedBy(modules, sender) && DistinctIds(modules)
    ensures var r := PublishModuleBundleWithOption(env, store, blobs, sender, option);
            r.result.Ok? ==>
              && r.store.Keys == store.Keys + Ids(modules)
              && (forall i :: 0 <= i < |modules| ==> r.store[modules[i].selfId] == blobs[i])
              && (forall id :: id in store && id !in Ids(modules) ==> r.store[id] == store[id])
              && (forall j :: 0 <= j < |modules| ==>
                    env.publishFault(Commit(store, modules[..j], blobs[..j]), modules[j].selfId, blobs[j]).None?)
    ensures var r := PublishModuleBundleWithOption(env, store, blobs, sender, option);
            r.result.Err? ==>
              exists k :: 0 <= k < |modules|
                          && r.store == Commit(store, modules[..k], blobs[..k])
                          && env.publishFault(r.store, modules[k].selfId, blobs[k]) == Some(r.result.error)
                          && forall j :: 0 <= j < k ==>
                               env.publishFault(Commit(store, modules[..j], blobs[..j]), modules[j].selfId, blobs[j]).None?
  {
    var r := PublishModuleBundleWithOption(env, store, blobs, sender, option);
    assert r == PublishModules(env, store, modules, blobs);
    if r.result.Ok? {
      assert FaultFreeUpTo(env, store, modules, blobs, |modules|);
      forall j | 0 <= j < |modules|
        ensures env.publishFault(Commit(store, modules[..j], blobs[..j]), modules[j].selfId, blobs[j]).None?
      {
        assert WriteSucceeds(env, store, modules, blobs, j);
      }
    } else {
      var k: nat :| && FailedAt(env, store, modules, blobs, k, r.result.error)
                    && r.store == Commit(store, modules[..k], blobs[..k]);
      forall j | 0 <= j < k
        ensures env.publishFault(Commit(store, modules[..j], blobs[..j]), modules[j].selfId, blobs[j]).None?
      {
        assert WriteSucceeds(env, store, modules, blobs, j);
      }
    }
  }
}
