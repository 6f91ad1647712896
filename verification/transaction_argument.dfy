/** `argToTransactionArgument`: the same type-directed dispatch as the raw
    encoder, but producing a self-describing tagged argument instead of bytes. */
module TransactionArguments {
  import opened Results
  import opened Bytes
  import opened AccountAddresses
  import opened TypeTags
  import opened Values
  import opened ArgEncoder

  type uint64 = n: int | 0 <= n < 0x1_0000_0000_0000_0000
  type uint128 = n: int | 0 <= n < 0x1_0000_0000_0000_0000_0000_0000_0000_0000

  /** One variant per kind of argument a transaction can carry on its own. */
  datatype TransactionArgument =
    | ArgBool(b: bool)
    | ArgU8(u8: byte)
    | ArgU64(u64: uint64)
    | ArgU128(u128: uint128)
    | ArgAddress(address: AccountAddress)
    | ArgU8Vector(bytes: seq<byte>)

  /** The type tag an argument variant stands for. */
  function TagOf(arg: TransactionArgument): (r: TypeTag)
  {
    match arg
    case ArgBool(_) => Bool
    case ArgU8(_) => U8
    case ArgU64(_) => U64
    case ArgU128(_) => U128
    case ArgAddress(_) => Address
    case ArgU8Vector(_) => Vector(U8)
  }

  /** The runtime value an argument carries. */
  function ValueOf(arg: TransactionArgument): (r: Value)
  {
    match arg
    case ArgBool(b) => Boolean(b)
    case ArgU8(n) => Integer(n)
    case ArgU64(n) => Integer(n)
    case ArgU128(n) => Integer(n)
    case ArgAddress(a) => AddressObject(a)
    case ArgU8Vector(bytes) => ByteArray(bytes)
  }

  /** The BCS bytes of an argument's payload (without its variant index). */
  function ArgumentBytes(arg: TransactionArgument): (r: seq<byte>)
  {
    match arg
    case ArgBool(b) => [if b then 1 else 0]
    case ArgU8(n) => [n]
    case ArgU64(n) =>
      BoundIsPow256(U64);
      LittleEndian(n, 8)
    case ArgU128(n) =>
      BoundIsPow256(U128);
      LittleEndian(n, 16)
    case ArgAddress(a) => a
    case ArgU8Vector(bytes) => Uleb128(|bytes|) + bytes
  }

  /** The tagged argument for value `v` read at `tag`, or the error thrown. Of
      the vector tags only `vector<u8>` has a variant, and it takes raw bytes
      only; every other vector tag and every struct tag has none. */
  function ArgToTransactionArgument(v: Value, tag: TypeTag): (r: Result<TransactionArgument>)
    ensures r.Ok? ==> TagOf(r.value) == tag
    ensures r.Err? ==> r.error in {InvalidArg, InvalidAccountAddress, NotUint8Array, UnknownTransactionArgumentType}
    ensures (tag.Bool? || IsIntegerTag(tag)) && r.Err? ==> r.error == InvalidArg
    ensures tag.Address? && r.Err? ==> r.error == InvalidAccountAddress
    ensures tag == Vector(U8) ==> (r.Ok? <==> v.ByteArray?)
    ensures tag == Vector(U8) && r.Err? ==> r.error == NotUint8Array
    ensures tag.Vector? && tag.element != U8 ==> r == Err(UnknownTransactionArgumentType)
    ensures tag.Struct? ==> r == Err(UnknownTransactionArgumentType)
  {
    match tag
    case Bool =>
      if v.Boolean? then Ok(ArgBool(v.b)) else Err(InvalidArg)
    case U8 =>
      if v.Integer? && 0 <= v.i < MaxU8 then Ok(ArgU8(v.i)) else Err(InvalidArg)
    case U64 =>
      if v.Integer? && 0 <= v.i < MaxU64 then Ok(ArgU64(v.i)) else Err(InvalidArg)
    case U128 =>
      if v.Integer? && 0 <= v.i < MaxU128 then Ok(ArgU128(v.i)) else Err(InvalidArg)
    case Address =>
      if v.AddressObject? then Ok(ArgAddress(v.address))
      else if v.Text? then
        var a :- ParseAddress(v.s);
        Ok(ArgAddress(a))
      else Err(InvalidAccountAddress)
    case Vector(e) =>
      if e != U8 then Err(UnknownTransactionArgumentType)
      else if v.ByteArray? then Ok(ArgU8Vector(v.bytes))
      else Err(NotUint8Array)
    case Struct(_, _, _, _) => Err(UnknownTransactionArgumentType)
  }

  // ---------------------------------------------------------------------
  // How the conversion relates to the values it carries and to the encoder.
  // ---------------------------------------------------------------------

  /** Converting the value an argument carries, at the argument's own tag, gives
      the argument back. */
  lemma ConvertValueOf(arg: TransactionArgument)
    ensures ArgToTransactionArgument(ValueOf(arg), TagOf(arg)) == Ok(arg)
  {
  }

  /** A converted argument carries the value it was made from; a hex string is
      carried as the address it denotes. */
  lemma ValueOfConverted(v: Value, tag: TypeTag)
    requires ArgToTransactionArgument(v, tag).Ok?
    ensures v.Text? ==> ValueOf(ArgToTransactionArgument(v, tag).value) == AddressObject(ParseAddress(v.s).value)
    ensures !v.Text? ==> ValueOf(ArgToTransactionArgument(v, tag).value) == v
  {
  }

  /** On the scalar and address tags the conversion accepts exactly what the
      encoder accepts and fails with the same error. */
  lemma ConvertMirrorsEncoder(v: Value, tag: TypeTag)
    requires tag.Bool? || IsIntegerTag(tag) || tag.Address?
    ensures ArgToTransactionArgument(v, tag).Ok? <==> SerializeArg(v, tag).Ok?
    ensures ArgToTransactionArgument(v, tag).Err? ==>
              ArgToTransactionArgument(v, tag).error == SerializeArg(v, tag).error
  {
    SerializeArgAccepts(v, tag);
  }

  /** Whatever the conversion accepts the encoder accepts too, and the payload
      bytes of the argument are exactly the encoder's bytes. */
  lemma ConvertedBytes(v: Value, tag: TypeTag)
    requires ArgToTransactionArgument(v, tag).Ok?
    ensures SerializeArg(v, tag) == Ok(ArgumentBytes(ArgToTransactionArgument(v, tag).value))
  {
    var arg := ArgToTransactionArgument(v, tag).value;
    match tag
    case Bool =>
    case U8 =>
      assert LittleEndian(v.i, 1) == [v.i];
    case U64 =>
    case U128 =>
    case Address =>
    case Vector(_) =>
  }

  /** Where the two dispatches part: a vector of anything but `u8` is encodable
      (here, the empty array) but has no tagged variant. */
  lemma NonByteVectorAsymmetry(e: TypeTag)
    requires e != U8
    ensures SerializeArg(Array([]), Vector(e)) == Ok([0])
    ensures ArgToTransactionArgument(Array([]), Vector(e)) == Err(UnknownTransactionArgumentType)
  {
    assert SerializeItems([], e) == Ok([]);
    assert Uleb128(0) + [] == [0];
  }

  /** `vector<u8>` accepts an array of integers when encoding raw bytes but not
      when building a tagged argument. */
  lemma ByteVectorAsymmetry(bytes: seq<byte>)
    ensures SerializeArg(Array(BytesAsItems(bytes)), Vector(U8)) == Ok(Uleb128(|bytes|) + bytes)
    ensures ArgToTransactionArgument(Array(BytesAsItems(bytes)), Vector(U8)) == Err(NotUint8Array)
  {
    assert SerializeArg(ByteArray(bytes), Vector(U8)) == Ok(Uleb128(|bytes|) + bytes);
    assert SerializeArg(Array(BytesAsItems(bytes)), Vector(U8)) == Ok(Uleb128(|bytes|) + bytes) by {
      ByteArrayLikeArray(bytes);
    }
  }
}
