/** `native_sha2_256` and `native_sha3_256`, Move's `std::hash::sha2_256` and
    `std::hash::sha3_256`. */
module HashNatives {
  import opened Outcomes
  import opened MoveTypes
  import opened NativeFunctions

  /** A digest native: charges `index` by the input length and returns the digest
      of the input as the single result; it never reports a native error. */
  function NativeDigest(context: NativeContext, nativeGas: NativeGas, index: NativeCostIndex,
                        digest: seq<byte> -> Digest, tyArgs: seq<Type>, args: seq<Value>)
    : (r: Result<NativeResult, StatusCode>)
    requires |tyArgs| == 0 && |args| == 1 && args[0].VectorU8?
  {
    var input := args[0].bytes;
    var cost := nativeGas(context.costTable, index, |input|);
    Ok(NativeResult(cost, Ok([VectorU8(digest(input))])))
  }

  function NativeSha2_256(context: NativeContext, lib: Library, tyArgs: seq<Type>, args: seq<Value>)
    : (r: Result<NativeResult, StatusCode>)
    requires |tyArgs| == 0 && |args| == 1 && args[0].VectorU8?
    ensures r.Ok? && r.value.result.Ok?
    ensures r.value.result.value == [VectorU8(lib.sha2_256(args[0].bytes))]
    ensures |r.value.result.value[0].bytes| == 32
    ensures r.value.cost == lib.nativeGas(context.costTable, SHA2_256, |args[0].bytes|)
  {
    NativeDigest(context, lib.nativeGas, SHA2_256, lib.sha2_256, tyArgs, args)
  }

  function NativeSha3_256(context: NativeContext, lib: Library, tyArgs: seq<Type>, args: seq<Value>)
    : (r: Result<NativeResult, StatusCode>)
    requires |tyArgs| == 0 && |args| == 1 && args[0].VectorU8?
    ensures r.Ok? && r.value.result.Ok?
    ensures r.value.result.value == [VectorU8(lib.sha3_256(args[0].bytes))]
    ensures |r.value.result.value[0].bytes| == 32
    ensures r.value.cost == lib.nativeGas(context.costTable, SHA3_256, |args[0].bytes|)
  {
    NativeDigest(context, lib.nativeGas, SHA3_256, lib.sha3_256, tyArgs, args)
  }
}
