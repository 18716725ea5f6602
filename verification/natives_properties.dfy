/** Properties of the natives' metering: what is charged on failure, that the
    charge depends on sizes only, and that the two digests are metered apart. */
module NativeProperties {
  import opened Outcomes
  import opened MoveTypes
  import opened NativeFunctions
  import opened BcsNatives
  import opened HashNatives

  /** `to_bytes` produces a value exactly when the type has a layout, the
      reference can be read and the value serializes under the layout; the
      bytes returned are the serialization. */
  lemma ToBytesSucceedsIffSerializable(context: NativeContext, lib: Library, tyArgs: seq<Type>, args: seq<Value>)
    requires |tyArgs| == 1 && |args| == 1 && args[0].Reference?
    ensures var r := NativeToBytes(context, lib, tyArgs, args);
            var layout := context.typeToTypeLayout(tyArgs[0]);
            var read := lib.readRef(args[0].location);
            (r.Ok? && r.value.result.Ok?)
              <==> (&& layout.Ok? && layout.value.Some? && read.Ok?
                    && lib.simpleSerialize(read.value, layout.value.value).Some?)
  {
  }

  /** A type without a layout is a non-aborting `NFE_BCS_SERIALIZATION_FAILURE`
      charged as a serialization of size 1, and the reference is never read. */
  lemma ToBytesWithoutLayoutCharged(context: NativeContext, lib: Library, tyArgs: seq<Type>, args: seq<Value>,
                                    readRef': nat -> Result<Value, StatusCode>)
    requires |tyArgs| == 1 && |args| == 1 && args[0].Reference?
    requires context.typeToTypeLayout(tyArgs[0]) == Ok(None)
    ensures NativeToBytes(context, lib, tyArgs, args)
         == Ok(NativeResult(lib.nativeGas(context.costTable, BCS_TO_BYTES, 1), Err(NFE_BCS_SERIALIZATION_FAILURE)))
    ensures NativeToBytes(context, lib, tyArgs, args) == NativeToBytes(context, lib.(readRef := readRef'), tyArgs, args)
  {
  }

  /** A value that does not serialize under an existing layout is the same
      failure at the same size-1 cost. */
  lemma ToBytesSerializationFailureCharged(context: NativeContext, lib: Library, tyArgs: seq<Type>, args: seq<Value>,
                                           layout: TypeLayout, v: Value)
    requires |tyArgs| == 1 && |args| == 1 && args[0].Reference?
    requires context.typeToTypeLayout(tyArgs[0]) == Ok(Some(layout))
    requires lib.readRef(args[0].location) == Ok(v) && lib.simpleSerialize(v, layout).None?
    ensures NativeToBytes(context, lib, tyArgs, args)
         == Ok(NativeResult(lib.nativeGas(context.costTable, BCS_TO_BYTES, 1), Err(NFE_BCS_SERIALIZATION_FAILURE)))
  {
  }

  /** Two successful serializations of the same length cost the same, whatever
      the values and their types. */
  lemma ToBytesCostDependsOnlyOnLength(context: NativeContext, lib: Library,
                                       tyArgs1: seq<Type>, args1: seq<Value>, tyArgs2: seq<Type>, args2: seq<Value>)
    requires |tyArgs1| == 1 && |args1| == 1 && args1[0].Reference?
    requires |tyArgs2| == 1 && |args2| == 1 && args2[0].Reference?
    requires var r1 := NativeToBytes(context, lib, tyArgs1, args1);
             var r2 := NativeToBytes(context, lib, tyArgs2, args2);
             && r1.Ok? && r1.value.result.Ok? && r2.Ok? && r2.value.result.Ok?
             && |r1.value.result.value[0].bytes| == |r2.value.result.value[0].bytes|
    ensures NativeToBytes(context, lib, tyArgs1, args1).value.cost
         == NativeToBytes(context, lib, tyArgs2, args2).value.cost
  {
  }

  /** Inputs of equal length are charged the same by each digest native. */
  lemma DigestCostDependsOnlyOnLength(context: NativeContext, lib: Library, input1: seq<byte>, input2: seq<byte>)
    requires |input1| == |input2|
    ensures NativeSha2_256(context, lib, [], [VectorU8(input1)]).value.cost
         == NativeSha2_256(context, lib, [], [VectorU8(input2)]).value.cost
    ensures NativeSha3_256(context, lib, [], [VectorU8(input1)]).value.cost
         == NativeSha3_256(context, lib, [], [VectorU8(input2)]).value.cost
  {
  }

  /** The digests are metered under distinct indices: each digest's charge reads
      only its own index of `native_gas`, so re-pricing one leaves the other's
      charge as it was. */
  lemma DigestsMeteredIndependently(context: NativeContext, lib: Library, gas': NativeGas, input: seq<byte>)
    ensures (forall n: nat :: gas'(context.costTable, SHA2_256, n) == lib.nativeGas(context.costTable, SHA2_256, n))
            ==> (NativeSha2_256(context, lib.(nativeGas := gas'), [], [VectorU8(input)])
                 == NativeSha2_256(context, lib, [], [VectorU8(input)]))
    ensures (forall n: nat :: gas'(context.costTable, SHA3_256, n) == lib.nativeGas(context.costTable, SHA3_256, n))
            ==> (NativeSha3_256(context, lib.(nativeGas := gas'), [], [VectorU8(input)])
                 == NativeSha3_256(context, lib, [], [VectorU8(input)]))
  {
  }
}
