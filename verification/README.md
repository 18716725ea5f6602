# Move VM: module-bundle publication gate and gas-metered natives

A Dafny model of two parts of the Move VM runtime.

1. **The publication gate.** These are `SessionAdapter::verify_module_bundle` and
   `publish_module_bundle_with_option`. A sender submits a bundle of serialized
   modules together with a `PublishModuleBundleOption {force_publish, only_new_module}`.
   The gate runs fail-fast checks in a fixed order:
   - deserialize every blob;
   - check that every module's address is the sender;
   - for each module in turn: the existence query, the `only_new_module`
     rejection, the compatibility verdict, then the duplicate-id check;
   - verify the whole bundle.

   Only after all of these pass does the commit loop write blob `i` under the
   id of module `i`.
2. **Three gas-metered natives.** These are `native_to_bytes` (BCS serialization),
   `native_sha2_256` and `native_sha3_256`. Each is a pure function of a cost
   table, the cost index it charges under, and its argument. It returns a cost
   together with either the result values or a non-aborting abort code.

Collaborators whose code is not part of this model are uninterpreted. Each one
is a function-typed field of a datatype and is passed in as a parameter:
- `Collaborators`: `CompiledModule::deserialize`, the loader's `load_module`,
  the `Compatibility::check(..).is_fully_compatible()` verdict,
  `verify_module_bundle_for_publication`, and failures of the data store's
  `exists_module` / `publish_module`;
- `Library` and `NativeContext`: `native_gas`, the type-layout lookup,
  `read_ref`, `simple_serialize`, and the two digests.

The data store is a `map<ModuleId, Blob>`. When the existence query does not
fail, it answers whether the id is a key. When a write does not fail, it updates
the map.

Digest outputs have the subset type `Digest` of 32-byte sequences. The digests
are SHA-256 (section 6.2 of FIPS 180-4) and SHA3-256 (section 6.1 of FIPS 202).

Files:
- `outcomes.dfy`: `Option` and `Result`.
- `move_types.dfy`: ids, status codes and compiled modules.
- `publishing.dfy`: the gate and the commit loop.
- `publishing_properties.dfy`: error precedence, the options, store effects.
- `natives.dfy`: the shared native vocabulary.
- `bcs.dfy`, `hash.dfy`: the natives.
- `natives_properties.dfy`: metering properties.

Three facts about the code shape the model:
- The duplicate check runs per module, after that module's own existence and
  compatibility gates. The id goes into the bundle set only once those gates
  pass, so a duplicate is caught at its second occurrence, after that
  occurrence's own gates.
- The commit loop is not atomic. It calls `publish_module` for each module and
  returns at the first failure, so the earlier writes remain (`PublishModules`).
  What does hold is that nothing is written before every gate has passed.
- Statuses from the deserializer and the other collaborators pass through
  unchanged. The charge of every native is whatever the uninterpreted
  `native_gas` computes for the size it is given.

## Model

| member | source | states |
|---|---|---|
| ModulePublishing.DeserializeAll | language/move-vm/runtime/src/move_vm_adapter.rs:93-103 | On success, one module per blob, in blob order, each the deserialization of its blob. On failure, the error of the first blob that fails, with every earlier blob deserializing. |
| ModulePublishing.CheckAddresses | language/move-vm/runtime/src/move_vm_adapter.rs:105-117 | Passes exactly when every module's address is the sender. Otherwise the error is `MODULE_ADDRESS_DOES_NOT_MATCH_SENDER`. |
| ModulePublishing.UpgradeGate | language/move-vm/runtime/src/move_vm_adapter.rs:128-155 | A module passes iff its existence query succeeds and, if it is stored: updates are allowed, its stored version loads, and the pair is fully compatible or publication is forced. A module that is not stored passes without being compared. The error is chosen in the code's order. An existence fault is returned as itself. Otherwise a stored module under `only_new_module` gets `INVALID_MODULE_PUBLISHER`. Otherwise a load failure of the stored version is returned as itself. Otherwise an incompatible pair gets `BACKWARD_INCOMPATIBLE_MODULE_UPDATE`, and only without `force_publish`. |
| ModulePublishing.CheckModulesFrom | language/move-vm/runtime/src/move_vm_adapter.rs:119-160 | When the per-module loop passes from position `i`, the remaining modules have pairwise distinct ids, none already in the collected set. |
| ModulePublishing.CheckModules | language/move-vm/runtime/src/move_vm_adapter.rs:119-160 | A bundle that passes the per-module loop has pairwise distinct module ids. |
| ModulePublishing.VerifyModuleBundle | language/move-vm/runtime/src/move_vm_adapter.rs:82-168 | A verified bundle returns as many modules as blobs, in blob order. Each module is its blob's deserialization, declared under the sender, with no id repeated. |
| ModulePublishing.Commit | language/move-vm/runtime/src/move_vm_adapter.rs:72-76 | Writing the bundle in order adds exactly the bundle's ids as keys and leaves every other module untouched. With distinct ids, blob `i` is stored under module `i`'s id. |
| ModulePublishing.PublishModules | language/move-vm/runtime/src/move_vm_adapter.rs:72-77 | A successful commit loop raised no fault at any write and leaves the store of the full in-order commit. A failing one stops at the first faulting write `k`: writes before `k` raised no fault and are in place, and the error is the fault of write `k`. |
| ModulePublishing.PublishModuleBundleWithOption | language/move-vm/runtime/src/move_vm_adapter.rs:62-78 | A verification failure is returned with the store untouched. After a successful verification, the outcome is that of the commit loop over the verified modules. |
| PublishingProperties.CheckModulesFromIsFirstFailure | language/move-vm/runtime/src/move_vm_adapter.rs:127-160 | Run from position `i` with the earlier ids collected, the loop passes iff every later module's step passes. A step is the upgrade gate, then the duplicate check. Otherwise the loop's error is that of the first failing step. |
| PublishingProperties.CheckModulesIsFirstFailure | language/move-vm/runtime/src/move_vm_adapter.rs:120-160 | The loop passes iff every module's step passes. Otherwise its error is the step error of a module all of whose predecessors passed. |
| PublishingProperties.FirstFailingStepDecides | language/move-vm/runtime/src/move_vm_adapter.rs:127-160 | A failing step preceded only by passing steps is the loop's verdict. |
| PublishingProperties.CheckModulesFromCongruent | language/move-vm/runtime/src/move_vm_adapter.rs:127-160 | The loop depends on the collaborators and options only through each module's upgrade gate. |
| PublishingProperties.PublicationCongruent | language/move-vm/runtime/src/move_vm_adapter.rs:62-168 | Two publications give the same result and the same store when they have the same deserializer, bundle verifier and store writer, and agree on every module's upgrade gate. |
| PublishingProperties.WellFormedBundleDeserializes | language/move-vm/runtime/src/move_vm_adapter.rs:93-98 | When every blob deserializes, the collected result is exactly those modules. |
| PublishingProperties.MalformedBlobRejectedFirst | language/move-vm/runtime/src/move_vm_adapter.rs:93-103 | If a blob fails to deserialize, the first failing blob's error is the result, before any address, existence or duplicate check. The store is unchanged. |
| PublishingProperties.ForeignAddressRejected | language/move-vm/runtime/src/move_vm_adapter.rs:105-117 | If the bundle deserializes and any module's address differs from the sender, the result is `MODULE_ADDRESS_DOES_NOT_MATCH_SENDER`. The store is unchanged. |
| PublishingProperties.ExistingModuleRejectedWhenOnlyNew | language/move-vm/runtime/src/move_vm_adapter.rs:129-138 | Under `only_new_module`, take a module already in the store whose predecessors all passed. The result is `INVALID_MODULE_PUBLISHER` for either `force_publish` value. The store is unchanged. |
| PublishingProperties.IncompatibleUpdateRejected | language/move-vm/runtime/src/move_vm_adapter.rs:140-154 | Take a stored module that loads and is not fully compatible with its replacement, with every predecessor passing. Without `only_new_module` or `force_publish`, the result is `BACKWARD_INCOMPATIBLE_MODULE_UPDATE`. The store is unchanged. |
| PublishingProperties.DuplicateIdRejected | language/move-vm/runtime/src/move_vm_adapter.rs:120-160 | Take two modules sharing a self id, where every module up to the second passes its upgrade gate. The result is `DUPLICATE_MODULE_NAME`. The store is unchanged. |
| PublishingProperties.StepFailureDecides | language/move-vm/runtime/src/move_vm_adapter.rs:127-160 | A module's existence and compatibility gates run before its duplicate check. When its predecessors passed, its gate error is the result, even if the module repeats an id. The store is unchanged. |
| PublishingProperties.BundleVerificationFailurePropagates | language/move-vm/runtime/src/move_vm_adapter.rs:162-168 | When every module passes the loop, a bundle-verification failure is the result. No write happens. |
| PublishingProperties.OnlyNewModuleIgnoresForcePublish | language/move-vm/runtime/src/move_vm_adapter.rs:129-138 | Under `only_new_module`, flipping `force_publish` changes neither the result nor the store. |
| PublishingProperties.ForcePublishOnlyBypassesCompatibility | language/move-vm/runtime/src/move_vm_adapter.rs:140-154 | Publishing with `force_publish` is identical to publishing without it against a checker that calls every pair compatible. The flag removes that one gate and nothing else. |
| PublishingProperties.FreshModulesNeverCompared | language/move-vm/runtime/src/move_vm_adapter.rs:129-155 | Replacing the compatibility checker with one that agrees on every pair whose new module is stored changes nothing, even when the bundle also updates stored modules. A module that is not stored is never compared. |
| PublishingProperties.VerifiedBundleCommittedInOrder | language/move-vm/runtime/src/move_vm_adapter.rs:69-77 | After verification, the modules correspond to the blobs in order, are owned by the sender and have distinct ids. On success, no write raised a fault, blob `i` is stored under module `i`'s id, and nothing else changes. On failure, the loop stopped at the first faulting write, with the writes before it in place. |
| PublishingProperties.CleanBundleAccepted | language/move-vm/runtime/src/move_vm_adapter.rs:82-168 | A bundle that clears every gate is accepted: every blob deserializes, every module is owned by the sender, every module passes its upgrade gate and duplicate check, and bundle verification passes. Verification then returns the modules in blob order. |
| BcsNatives.NativeToBytes | language/move-stdlib/src/natives/bcs.rs:19-54 | A success returns one `vector<u8>` holding the layout-serialized referenced value, charged `native_gas(table, BCS_TO_BYTES, len)`. A failure is `NFE_BCS_SERIALIZATION_FAILURE` charged at size 1. A layout-lookup error, or a `read_ref` error under an existing layout, is returned as that error with no result or cost. No other error arises. |
| NativeProperties.ToBytesSucceedsIffSerializable | language/move-stdlib/src/natives/bcs.rs:31-53 | `to_bytes` yields a value iff the type has a layout, the reference reads and the value serializes. |
| NativeProperties.ToBytesWithoutLayoutCharged | language/move-stdlib/src/natives/bcs.rs:31-38 | A type without a layout gives the size-1-charged serialization failure, and the reference is not read. |
| NativeProperties.ToBytesSerializationFailureCharged | language/move-stdlib/src/natives/bcs.rs:33-38 | A value that does not serialize under an existing layout gives the same failure at the same size-1 cost. |
| NativeProperties.ToBytesCostDependsOnlyOnLength | language/move-stdlib/src/natives/bcs.rs:43-48 | Successful serializations of equal length cost the same, whatever the values and types. |
| HashNatives.NativeSha2_256 | language/move-stdlib/src/natives/hash.rs:20-41 | Never a native error. Returns one 32-byte `vector<u8>`, the SHA-256 digest of the input. Costs `native_gas(table, SHA2_256, len(input))`. |
| HashNatives.NativeSha3_256 | language/move-stdlib/src/natives/hash.rs:69-90 | Never a native error. Returns one 32-byte `vector<u8>`, the SHA3-256 digest of the input. Costs `native_gas(table, SHA3_256, len(input))`. |
| NativeProperties.DigestCostDependsOnlyOnLength | language/move-stdlib/src/natives/hash.rs:30-83 | For each digest native, two inputs of equal length are charged the same. |
| NativeProperties.DigestsMeteredIndependently | language/move-stdlib/src/natives/hash.rs:32-81 | Re-pricing `native_gas` at one digest's index leaves the other digest's call unchanged. The two are metered apart. |

## Left out

- `verify_script_args` and `verify_script_function_args` (move_vm_adapter.rs:170-218). The signer and argument checks live in `load_script`, `load_function` and `create_signers_and_arguments`, which are not part of this model. These two functions only delegate.
- `empty_loader_cache`: a one-line delegation. The loader cache and its concurrency are not part of this model, and neither is the cache population that `load_module` may perform.
- The `_gas_status` parameter of `verify_module_bundle`: publication charges no gas.
- The session wrapper conversions (`From`, `Into`, `AsRef`, `AsMut`, `new`): no logic.
- `warn!` logging, and the `Location` / `IndexKind` decoration of errors. Only the status code is kept.
- The internals of deserialization, `normalized::Module` and `Compatibility::check`, bundle verification, the loader, BCS encoding and type layouts, the SHA-2 and SHA-3 algorithms, and `native_gas` arithmetic. These are uninterpreted functions.
- The numeric value of `NFE_BCS_SERIALIZATION_FAILURE` (0x1C5) comes from move_core_types, which is not part of this model.
- Charging the returned cost to the transaction's gas status, including running out of gas: the interpreter does this after the native returns, and it is not part of this model.
- BcsNatives.NativeToBytes, HashNatives.NativeSha2_256, HashNatives.NativeSha3_256: the `debug_assert!` arity checks, and the argument type that `pop_arg!` expects, are `requires`. The interpreter's type checker guarantees them. The error `pop_arg!` would raise for a wrong argument is not modelled.
- The commented-out `native_to_address` and `native_keccak_256`: not compiled.
