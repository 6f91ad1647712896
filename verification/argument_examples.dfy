/** The encoder and converter cases of the transaction-builder tests: each
    tested call, with the bytes, tagged argument or error it must produce. */
module ArgumentExamples {
  import opened Results
  import opened Bytes
  import opened AccountAddresses
  import opened TypeTags
  import opened Values
  import opened ArgEncoder
  import opened TransactionArguments
  import opened TypeTagExamples

  /** The address `0x2`: fifteen zero bytes and a two. */
  const Two: AccountAddress := seq(AddressLength - 1, _ => 0) + [2]

  /** Stands for the tag the tests pass that is no type tag at all. */
  const Unrecognised: TypeTag := Struct(One, "TestCoin", "Coin", [])

  lemma ParseTwo()
    ensures ParseAddress("0x2") == Ok(Two)
  {
    ParseAddressDigit('2');
    assert "0x" + ['2'] == "0x2";
  }

  // ---------------------------------------------------------------------
  // serializeArg
  // ---------------------------------------------------------------------

  lemma SerializeBool()
    ensures SerializeArg(Boolean(true), Bool) == Ok([1])
    ensures SerializeArg(Integer(123), Bool) == Err(InvalidArg)
  {
  }

  lemma SerializeU8()
    ensures SerializeArg(Integer(255), U8) == Ok([255])
    ensures SerializeArg(Text("u8"), U8) == Err(InvalidArg)
  {
    assert LittleEndian(255, 1) == [255];
  }

  lemma SerializeU64()
    ensures SerializeArg(Integer(MaxU64 - 1), U64) == Ok(seq(8, _ => 255))
    ensures SerializeArg(Text("u64"), U64) == Err(InvalidArg)
  {
    BoundIsPow256(U64);
    LittleEndianAllOnes(8);
  }

  lemma SerializeU128()
    ensures SerializeArg(Integer(MaxU128 - 1), U128) == Ok(seq(16, _ => 255))
    ensures SerializeArg(Text("u128"), U128) == Err(InvalidArg)
  {
    BoundIsPow256(U128);
    LittleEndianAllOnes(16);
  }

  /** The hex string `0x1` and the address value it denotes encode to the same
      sixteen bytes; a number is no address. */
  lemma SerializeAddress()
    ensures SerializeArg(Text("0x1"), Address) == Ok(One)
    ensures SerializeArg(AddressObject(One), Address) == Ok(One)
    ensures SerializeArg(Integer(123456), Address) == Err(InvalidAccountAddress)
  {
    ParseOne();
  }

  /** Any hex string encodes exactly as the address it parses to. */
  lemma SerializeAddressForms(s: string)
    requires ParseAddress(s).Ok?
    ensures SerializeArg(Text(s), Address) == SerializeArg(AddressObject(ParseAddress(s).value), Address)
  {
  }

  lemma SerializeVector()
    ensures SerializeArg(Array([Integer(255)]), Vector(U8)) == Ok([1, 255])
    ensures SerializeArg(Integer(123456), Vector(U8)) == Err(InvalidVectorArgs)
  {
    var items := [Integer(255)];
    assert items[1..] == [];
    assert SerializeArg(Integer(255), U8) == Ok([255]) by {
      assert LittleEndian(255, 1) == [255];
    }
    assert SerializeItems(items, U8) == Ok([255] + []);
    assert Uleb128(1) + ([255] + []) == [1, 255];
  }

  lemma SerializeUnrecognised()
    ensures SerializeArg(Integer(123456), Unrecognised) == Err(UnsupportedArgType)
  {
  }

  // ---------------------------------------------------------------------
  // argToTransactionArgument
  // ---------------------------------------------------------------------

  lemma ConvertBool()
    ensures ArgToTransactionArgument(Boolean(true), Bool) == Ok(ArgBool(true))
    ensures ArgToTransactionArgument(Integer(123), Bool) == Err(InvalidArg)
  {
  }

  lemma ConvertU8()
    ensures ArgToTransactionArgument(Integer(123), U8) == Ok(ArgU8(123))
    ensures ArgToTransactionArgument(Text("u8"), Bool) == Err(InvalidArg)
  {
  }

  lemma ConvertU64()
    ensures ArgToTransactionArgument(Integer(123), U64) == Ok(ArgU64(123))
    ensures ArgToTransactionArgument(Text("u64"), U64) == Err(InvalidArg)
  {
  }

  lemma ConvertU128()
    ensures ArgToTransactionArgument(Integer(123), U128) == Ok(ArgU128(123))
    ensures ArgToTransactionArgument(Text("u128"), U128) == Err(InvalidArg)
  {
  }

  lemma ConvertAddress()
    ensures ArgToTransactionArgument(Text("0x1"), Address) == Ok(ArgAddress(One))
    ensures ArgToTransactionArgument(AddressObject(Two), Address) == Ok(ArgAddress(Two))
    ensures ArgToTransactionArgument(Integer(123456), Address) == Err(InvalidAccountAddress)
  {
    ParseOne();
  }

  lemma ConvertVector()
    ensures ArgToTransactionArgument(ByteArray([1]), Vector(U8)) == Ok(ArgU8Vector([1]))
    ensures ArgToTransactionArgument(Integer(123456), Vector(U8)) == Err(NotUint8Array)
  {
  }

  lemma ConvertUnrecognised()
    ensures ArgToTransactionArgument(Integer(123456), Unrecognised) == Err(UnknownTransactionArgumentType)
  {
  }
}
