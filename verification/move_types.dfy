/** The vocabulary shared by the publishing gate and the natives: bytes,
    account addresses, module identities, VM status codes and compiled modules. */
module MoveTypes {

  type byte = b: int | 0 <= b < 0x100

  /** A serialized module as submitted by a publisher and as kept by the data store. */
  type Blob = seq<byte>

  type AccountAddress = seq<byte>

  type Identifier = string

  /** `ModuleId`: the owning address and the module's name. */
  datatype ModuleId = ModuleId(address: AccountAddress, name: Identifier)

  /** The VM status codes the publishing gate raises itself, and `OtherStatus`
      for every other status a collaborator (the deserializer, the loader, the data
      store) reports, by its numeric code. `OtherStatus` never carries the code of
      one of the four named statuses: a collaborator reporting one of those reports
      the named constructor, so each status has exactly one representation. */
  datatype StatusCode =
    | MODULE_ADDRESS_DOES_NOT_MATCH_SENDER
    | INVALID_MODULE_PUBLISHER
    | BACKWARD_INCOMPATIBLE_MODULE_UPDATE
    | DUPLICATE_MODULE_NAME
    | OtherStatus(code: nat)

  /** A deserialized, bounds-checked module. Only its self id is inspected by the
      gate; everything else (handles, signatures, code) is kept abstractly. */
  datatype CompiledModule = CompiledModule(selfId: ModuleId, definitions: Blob) {

    /** `ModuleAccess::address`: the address the module will be published under. */
    function Address(): AccountAddress {
      selfId.address
    }
  }

  /** The set of self ids of a sequence of modules. */
  function Ids(modules: seq<CompiledModule>): set<ModuleId> {
    set m | m in modules :: m.selfId
  }

  /** No two modules of the sequence share a self id. */
  predicate DistinctIds(modules: seq<CompiledModule>) {
    forall i, j :: 0 <= i < j < |modules| ==> modules[i].selfId != modules[j].selfId
  }
}
