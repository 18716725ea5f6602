/** What the gas-metered natives share: cost indices, the cost table and
    `native_gas`, Move values and types as the natives see them, and
    `NativeResult`, the cost together with either return values or a
    non-aborting error code. */
module NativeFunctions {
  import opened Outcomes
  import opened MoveTypes

  /** The `NativeCostIndex` entries the modelled natives charge under. */
  datatype NativeCostIndex = SHA2_256 | SHA3_256 | BCS_TO_BYTES

  /** The gas schedule's cost table, held abstractly: only `native_gas` reads it. */
  datatype CostTable = CostTable(nativeTable: seq<nat>)

  /** `native_gas(table, index, size)`, whose arithmetic is left uninterpreted. */
  type NativeGas = (CostTable, NativeCostIndex, nat) -> nat

  /** A runtime type argument and a type layout, both held abstractly. */
  datatype Type = Type(tag: nat)
  datatype TypeLayout = TypeLayout(tag: nat)

  /** A Move value as a native receives or returns it: a `vector<u8>`, a
      reference, or any other value, held abstractly. */
  datatype Value = VectorU8(bytes: seq<byte>) | Reference(location: nat) | OpaqueValue(tag: nat)

  /** `NativeResult`: the gas cost, and either the returned values or an abort
      code that the interpreter raises after charging the cost. */
  datatype NativeResult = NativeResult(cost: nat, result: Result<seq<Value>, nat>)

  /** The part of `NativeContext` the natives use. */
  datatype NativeContext = NativeContext(
    costTable: CostTable,
    typeToTypeLayout: Type -> Result<Option<TypeLayout>, StatusCode>
  )

  /** A 256-bit digest: always exactly 32 bytes. */
  type Digest = s: seq<byte> | |s| == 32 witness seq(32, i => 0)

  /** The library code the natives call, left uninterpreted: `native_gas`,
      `read_ref` on a reference, BCS `simple_serialize` of a value under a layout,
      SHA-256 (section 6.2 of FIPS 180-4) and SHA3-256 (section 6.1 of FIPS 202). */
  datatype Library = Library(
    nativeGas: NativeGas,
    readRef: nat -> Result<Value, StatusCode>,
    simpleSerialize: (Value, TypeLayout) -> Option<seq<byte>>,
    sha2_256: seq<byte> -> Digest,
    sha3_256: seq<byte> -> Digest
  )
}
