/** `native_to_bytes`, Move's `std::bcs::to_bytes<T>(&T): vector<u8>`. */
module BcsNatives {
  import opened Outcomes
  import opened MoveTypes
  import opened NativeFunctions

  /** The abort code of a failed serialization (`NFE_BCS_SERIALIZATION_FAILURE`). */
  const NFE_BCS_SERIALIZATION_FAILURE: nat := 0x1C5

  /** Serializes the referenced value under the layout of its type argument. A
      type without a layout, or a value the layout cannot serialize, is a
      non-aborting failure charged as a serialization of size 1; a success is
      charged by the length of the bytes produced. Errors of the layout lookup or
      of reading the reference propagate with no cost at all. */
  function NativeToBytes(context: NativeContext, lib: Library, tyArgs: seq<Type>, args: seq<Value>)
    : (r: Result<NativeResult, StatusCode>)
    requires |tyArgs| == 1 && |args| == 1 && args[0].Reference?
    ensures r.Ok? && r.value.result.Ok? ==>
              var layout := context.typeToTypeLayout(tyArgs[0]);
              && layout.Ok? && layout.value.Some?
              && lib.readRef(args[0].location).Ok?
              && lib.simpleSerialize(lib.readRef(args[0].location).value, layout.value.value).Some?
              && var bytes := lib.simpleSerialize(lib.readRef(args[0].location).value, layout.value.value).value;
                 && r.value.result.value == [VectorU8(bytes)]
                 && r.value.cost == lib.nativeGas(context.costTable, BCS_TO_BYTES, |bytes|)
    ensures r.Ok? && r.value.result.Err? ==>
              && r.value.result.error == NFE_BCS_SERIALIZATION_FAILURE
              && r.value.cost == lib.nativeGas(context.costTable, BCS_TO_BYTES, 1)
    ensures context.typeToTypeLayout(tyArgs[0]).Err? ==> r == Err(context.typeToTypeLayout(tyArgs[0]).error)
    ensures (&& context.typeToTypeLayout(tyArgs[0]).Ok? && context.typeToTypeLayout(tyArgs[0]).value.Some?
             && lib.readRef(args[0].location).Err?)
            ==> r == Err(lib.readRef(args[0].location).error)
    ensures r.Err? ==>
              || context.typeToTypeLayout(tyArgs[0]) == Err(r.error)
              || (context.typeToTypeLayout(tyArgs[0]).Ok? && context.typeToTypeLayout(tyArgs[0]).value.Some?
                  && lib.readRef(args[0].location) == Err(r.error))
  {
    var reference := args[0];
    var argType := tyArgs[0];
    var layout :- context.typeToTypeLayout(argType);
    var serialized :- match layout
      case None => Ok(None)
      case Some(l) =>
        var v :- lib.readRef(reference.location);
        Ok(lib.simpleSerialize(v, l));
    match serialized
    case None =>
      Ok(NativeResult(lib.nativeGas(context.costTable, BCS_TO_BYTES, 1), Err(NFE_BCS_SERIALIZATION_FAILURE)))
    case Some(bytes) =>
      Ok(NativeResult(lib.nativeGas(context.costTable, BCS_TO_BYTES, |bytes|), Ok([VectorU8(bytes)])))
  }
}
