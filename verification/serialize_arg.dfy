/** The runtime values a caller hands to the argument encoder. JavaScript's
    dynamic values are closed into one datatype: the encoder's checks on the kind
    of a value become matches on its constructor. */
module Values {
  import opened Bytes
  import opened AccountAddresses

  datatype Value =
    | Boolean(b: bool)                   // a JavaScript boolean
    | Integer(i: int)                    // a number or a bigint
    | Text(s: string)                    // a string
    | ByteArray(bytes: seq<byte>)        // a Uint8Array
    | Array(items: seq<Value>)           // an array of values
    | AddressObject(address: AccountAddress) // an AccountAddress instance
}

/** `serializeArg`: the BCS bytes of a runtime value read at a given type tag,
    and the decoder that reads them back. */
module ArgEncoder {
  import opened Results
  import opened Seqs
  import opened Bytes
  import opened AccountAddresses
  import opened TypeTags
  import opened Values

  const MaxU8: nat := 0x100
  const MaxU64: nat := 0x1_0000_0000_0000_0000
  const MaxU128: nat := 0x1_0000_0000_0000_0000_0000_0000_0000_0000

  /** The tags with a fixed-width little-endian integer encoding. */
  predicate IsIntegerTag(tag: TypeTag)
  {
    tag.U8? || tag.U64? || tag.U128?
  }

  /** The byte width of an integer tag. */
  function Width(tag: TypeTag): (w: nat)
    requires IsIntegerTag(tag)
  {
    match tag
    case U8 => 1
    case U64 => 8
    case U128 => 16
  }

  /** One more than the largest value of an integer tag. */
  function Bound(tag: TypeTag): (b: nat)
    requires IsIntegerTag(tag)
  {
    match tag
    case U8 => MaxU8
    case U64 => MaxU64
    case U128 => MaxU128
  }

  lemma BoundIsPow256(tag: TypeTag)
    requires IsIntegerTag(tag)
    ensures Bound(tag) == Pow256(Width(tag))
  {
    assert Pow256(1) == 256;
    assert Pow256(8) == 256 * 256 * 256 * 256 * 256 * 256 * 256 * 256;
    assert Pow256(16) == Pow256(8) * Pow256(8) by {
      Pow256Add(8, 8);
    }
  }

  lemma {:induction false} Pow256Add(a: nat, b: nat)
    ensures Pow256(a + b) == Pow256(a) * Pow256(b)
  {
    if a > 0 {
      Pow256Add(a - 1, b);
    }
  }

  /** Which values each tag accepts, stated apart from how they are encoded:
      a boolean for `bool`, an integer in range for the integer tags, an address
      or a hex string for `address`, and for a vector an array whose every item
      the element tag accepts (or raw bytes, when the element is `u8`).
      Struct tags accept nothing. */
  predicate Conforms(v: Value, tag: TypeTag)
  {
    match tag
    case Bool => v.Boolean?
    case U8 => v.Integer? && 0 <= v.i < MaxU8
    case U64 => v.Integer? && 0 <= v.i < MaxU64
    case U128 => v.Integer? && 0 <= v.i < MaxU128
    case Address => v.AddressObject? || (v.Text? && IsHexAddress(v.s))
    case Vector(e) =>
      || (v.Array? && forall i :: 0 <= i < |v.items| ==> Conforms(v.items[i], e))
      || (v.ByteArray? && e == U8)
    case Struct(_, _, _, _) => false
  }

  /** The bytes `serializeArg` appends to its serializer for value `v` read at
      `tag`, or the error it throws. */
  function SerializeArg(v: Value, tag: TypeTag): (r: Result<seq<byte>>)
    ensures r.Err? ==> r.error in {InvalidArg, InvalidAccountAddress, InvalidVectorArgs, UnsupportedArgType}
    ensures (tag.Bool? || IsIntegerTag(tag)) && r.Err? ==> r.error == InvalidArg
    ensures tag.Bool? && r.Ok? ==> |r.value| == 1
    ensures IsIntegerTag(tag) && r.Ok? ==> |r.value| == Width(tag)
    ensures tag.Address? && r.Err? ==> r.error == InvalidAccountAddress
    ensures tag.Address? && r.Ok? ==> |r.value| == AddressLength
    ensures tag.Vector? && !v.Array? && !(v.ByteArray? && tag.element == U8) ==> r == Err(InvalidVectorArgs)
    ensures tag.Struct? ==> r == Err(UnsupportedArgType)
    decreases tag, 0
  {
    match tag
    case Bool =>
      if v.Boolean? then Ok([if v.b then 1 else 0]) else Err(InvalidArg)
    case U8 => SerializeInteger(v, tag)
    case U64 => SerializeInteger(v, tag)
    case U128 => SerializeInteger(v, tag)
    case Address =>
      if v.AddressObject? then Ok(v.address)
      else if v.Text? then
        var a :- ParseAddress(v.s);
        Ok(a)
      else Err(InvalidAccountAddress)
    case Vector(e) =>
      if v.ByteArray? && e == U8 then Ok(Uleb128(|v.bytes|) + v.bytes)
      else if v.Array? then
        var body :- SerializeItems(v.items, e);
        Ok(Uleb128(|v.items|) + body)
      else Err(InvalidVectorArgs)
    case Struct(_, _, _, _) => Err(UnsupportedArgType)
  }

  /** An integer in the tag's range, as `Width(tag)` little-endian bytes. */
  function SerializeInteger(v: Value, tag: TypeTag): (r: Result<seq<byte>>)
    requires IsIntegerTag(tag)
    ensures r.Ok? <==> v.Integer? && 0 <= v.i < Bound(tag)
    ensures r.Ok? ==> |r.value| == Width(tag) && FromLittleEndian(r.value) == v.i
    ensures r.Err? ==> r.error == InvalidArg
  {
    if v.Integer? && 0 <= v.i < Bound(tag) then
      BoundIsPow256(tag);
      LittleEndianRoundTrip(v.i, Width(tag));
      Ok(LittleEndian(v.i, Width(tag)))
    else Err(InvalidArg)
  }

  /** The items of an array, each encoded at the element tag, concatenated in
      order; the first item that fails makes the whole array fail. */
  function SerializeItems(items: seq<Value>, e: TypeTag): (r: Result<seq<byte>>)
    ensures r.Err? ==> r.error in {InvalidArg, InvalidAccountAddress, InvalidVectorArgs, UnsupportedArgType}
    decreases e, 1, |items|
  {
    if |items| == 0 then Ok([])
    else
      var head :- SerializeArg(items[0], e);
      var tail :- SerializeItems(items[1..], e);
      Ok(head + tail)
  }

  // ---------------------------------------------------------------------
  // The decoder.
  // ---------------------------------------------------------------------

  /** Reads one value of type `tag` from the front of `bytes`: the value, in the
      form the encoder's input is normalised to, and the number of bytes read. */
  function DecodeArg(bytes: seq<byte>, tag: TypeTag): (r: Option<(Value, nat)>)
    ensures r.Some? ==> r.value.1 <= |bytes|
    decreases tag, 0
  {
    match tag
    case Bool =>
      if |bytes| >= 1 && bytes[0] <= 1 then Some((Boolean(bytes[0] == 1), 1)) else None
    case U8 => DecodeInteger(bytes, tag)
    case U64 => DecodeInteger(bytes, tag)
    case U128 => DecodeInteger(bytes, tag)
    case Address =>
      if |bytes| >= AddressLength then Some((AddressObject(bytes[..AddressLength]), AddressLength)) else None
    case Vector(e) =>
      var (n, k) :- DecodeUleb128(bytes);
      var (items, used) :- DecodeItems(bytes[k..], e, n);
      Some((Array(items), k + used))
    case Struct(_, _, _, _) => None
  }

  function DecodeInteger(bytes: seq<byte>, tag: TypeTag): (r: Option<(Value, nat)>)
    requires IsIntegerTag(tag)
    ensures r.Some? ==> r.value.1 <= |bytes|
  {
    if |bytes| >= Width(tag) then Some((Integer(FromLittleEndian(bytes[..Width(tag)])), Width(tag))) else None
  }

  /** Reads `count` values of type `e`, one after the other. */
  function DecodeItems(bytes: seq<byte>, e: TypeTag, count: nat): (r: Option<(seq<Value>, nat)>)
    ensures r.Some? ==> |r.value.0| == count && r.value.1 <= |bytes|
    decreases e, 1, count
  {
    if count == 0 then Some(([], 0))
    else
      var (x, used) :- DecodeArg(bytes, e);
      var (xs, more) :- DecodeItems(bytes[used..], e, count - 1);
      Some(([x] + xs, used + more))
  }

  /** The canonical form of a value: a hex string becomes the address it
      denotes, raw bytes under `vector<u8>` become the array of the integers they
      hold, and arrays are normalised item by item. Everything else, and every
      value the tag rejects, is left as it is. */
  function Normalize(v: Value, tag: TypeTag): (r: Value)
    decreases tag, 0
  {
    match tag
    case Address =>
      if v.Text? && ParseAddress(v.s).Ok? then AddressObject(ParseAddress(v.s).value) else v
    case Vector(e) =>
      if v.ByteArray? && e == U8 then Array(BytesAsItems(v.bytes))
      else if v.Array? then Array(NormalizeItems(v.items, e))
      else v
    case _ => v
  }

  function NormalizeItems(items: seq<Value>, e: TypeTag): (r: seq<Value>)
    ensures |r| == |items|
    decreases e, 1
  {
    seq(|items|, i requires 0 <= i < |items| => Normalize(items[i], e))
  }

  /** Raw bytes as the array of the integers they hold. */
  function BytesAsItems(bytes: seq<byte>): (r: seq<Value>)
    ensures |r| == |bytes|
    ensures forall i :: 0 <= i < |bytes| ==> r[i] == Integer(bytes[i])
  {
    seq(|bytes|, i requires 0 <= i < |bytes| => Integer(bytes[i]))
  }

  // ---------------------------------------------------------------------
  // What the encoder accepts, and what its bytes mean.
  // ---------------------------------------------------------------------

  /** The encoder succeeds on exactly the values the tag accepts. */
  lemma {:induction false} SerializeArgAccepts(v: Value, tag: TypeTag)
    ensures SerializeArg(v, tag).Ok? <==> Conforms(v, tag)
    decreases tag, 0
  {
    match tag
    case Address =>
      if v.Text? {
        assert ParseAddress(v.s).Ok? <==> IsHexAddress(v.s);
      }
    case Vector(e) =>
      if v.Array? && !(v.ByteArray? && e == U8) {
        SerializeItemsAccepts(v.items, e);
      }
    case _ =>
  }

  lemma {:induction false} SerializeItemsAccepts(items: seq<Value>, e: TypeTag)
    ensures SerializeItems(items, e).Ok? <==> forall i :: 0 <= i < |items| ==> Conforms(items[i], e)
    decreases e, 1, |items|
  {
    if |items| > 0 {
      SerializeArgAccepts(items[0], e);
      SerializeItemsAccepts(items[1..], e);
      if forall i :: 0 <= i < |items| ==> Conforms(items[i], e) {
        assert forall i :: 0 <= i < |items| - 1 ==> Conforms(items[1..][i], e) by {
          forall i | 0 <= i < |items| - 1
            ensures Conforms(items[1..][i], e)
          {
            assert items[1..][i] == items[i + 1];
          }
        }
      } else {
        var j :| 0 <= j < |items| && !Conforms(items[j], e);
        if j > 0 {
          assert items[1..][j - 1] == items[j];
        }
      }
    }
  }

  lemma {:induction false} SerializeBytesItems(bytes: seq<byte>)
    ensures SerializeItems(BytesAsItems(bytes), U8) == Ok(bytes)
  {
    if |bytes| > 0 {
      var items := BytesAsItems(bytes);
      assert items[1..] == BytesAsItems(bytes[1..]);
      SerializeBytesItems(bytes[1..]);
      assert LittleEndian(bytes[0], 1) == [bytes[0]];
      assert bytes == [bytes[0]] + bytes[1..];
    }
  }

  /** Raw bytes under `vector<u8>` are encoded exactly as the array of the
      integers they hold. */
  lemma ByteArrayLikeArray(bytes: seq<byte>)
    ensures SerializeArg(ByteArray(bytes), Vector(U8)) == SerializeArg(Array(BytesAsItems(bytes)), Vector(U8))
  {
    SerializeBytesItems(bytes);
  }

  /** `bytes` begins with `prefix`. */
  predicate StartsWith(bytes: seq<byte>, prefix: seq<byte>)
  {
    |prefix| <= |bytes| && bytes[..|prefix|] == prefix
  }

  /** Decoding the encoding of an accepted value, whatever follows it, reads back
      the value's canonical form and exactly the encoded bytes. */
  lemma DecodeSerializeArg(v: Value, tag: TypeTag, rest: seq<byte>)
    requires Conforms(v, tag)
    ensures SerializeArg(v, tag).Ok?
    ensures DecodeArg(SerializeArg(v, tag).value + rest, tag)
            == Some((Normalize(v, tag), |SerializeArg(v, tag).value|))
  {
    SerializeArgAccepts(v, tag);
    var bytes := SerializeArg(v, tag).value;
    Split(bytes, rest);
    DecodeEncoded(v, tag, bytes + rest);
  }

  /** The decoder reads an accepted value back from any input that starts with
      its encoding. */
  lemma {:induction false} DecodeEncoded(v: Value, tag: TypeTag, bytes: seq<byte>)
    requires SerializeArg(v, tag).Ok? && StartsWith(bytes, SerializeArg(v, tag).value)
    ensures DecodeArg(bytes, tag) == Some((Normalize(v, tag), |SerializeArg(v, tag).value|))
    decreases tag, if v.ByteArray? then 1 else 0
  {
    match tag
    case Bool =>
      assert bytes[0] == bytes[..1][0];
    case U8 =>
    case U64 =>
    case U128 =>
    case Address =>
    case Vector(e) =>
      if v.ByteArray? {
        ByteArrayLikeArray(v.bytes);
        DecodeEncoded(Array(BytesAsItems(v.bytes)), tag, bytes);
        assert NormalizeItems(BytesAsItems(v.bytes), U8) == BytesAsItems(v.bytes);
      } else {
        SerializeVectorStep(v.items, e);
        DecodeVector(v.items, e, bytes);
      }
  }

  lemma PrefixSplit(bytes: seq<byte>, a: seq<byte>, b: seq<byte>)
    requires StartsWith(bytes, a + b)
    ensures StartsWith(bytes, a) && StartsWith(bytes[|a|..], b)
  {
    assert bytes[..|a|] == bytes[..|a + b|][..|a|];
    assert bytes[|a|..][..|b|] == bytes[..|a + b|][|a|..];
  }

  lemma UlebPrefix(n: nat, bytes: seq<byte>)
    requires StartsWith(bytes, Uleb128(n))
    ensures DecodeUleb128(bytes) == Some((n, |Uleb128(n)|))
  {
    var p := Uleb128(n);
    assert bytes == p + bytes[|p|..];
    Uleb128RoundTrip(n, bytes[|p|..]);
  }

  lemma DecodeVectorStep(bytes: seq<byte>, e: TypeTag, n: nat, k: nat, items: seq<Value>, used: nat, total: nat)
    requires DecodeUleb128(bytes) == Some((n, k))
    requires DecodeItems(bytes[k..], e, n) == Some((items, used))
    requires total == k + used
    ensures DecodeArg(bytes, Vector(e)) == Some((Array(items), total))
  {
  }

  lemma DecodeItemsStep(bytes: seq<byte>, e: TypeTag, count: nat, x: Value, used: nat, xs: seq<Value>, more: nat)
    requires count > 0
    requires DecodeArg(bytes, e) == Some((x, used))
    requires DecodeItems(bytes[used..], e, count - 1) == Some((xs, more))
    ensures DecodeItems(bytes, e, count) == Some(([x] + xs, used + more))
  {
  }

  lemma SerializeVectorStep(items: seq<Value>, e: TypeTag)
    requires SerializeArg(Array(items), Vector(e)).Ok?
    ensures SerializeItems(items, e).Ok?
    ensures SerializeArg(Array(items), Vector(e)) == Ok(Uleb128(|items|) + SerializeItems(items, e).value)
  {
  }

  lemma SerializeItemsStep(items: seq<Value>, e: TypeTag)
    requires |items| > 0 && SerializeItems(items, e).Ok?
    ensures SerializeArg(items[0], e).Ok? && SerializeItems(items[1..], e).Ok?
    ensures SerializeItems(items, e) == Ok(SerializeArg(items[0], e).value + SerializeItems(items[1..], e).value)
  {
  }

  lemma NormalizeItemsCons(items: seq<Value>, e: TypeTag)
    requires |items| > 0
    ensures NormalizeItems(items, e) == [Normalize(items[0], e)] + NormalizeItems(items[1..], e)
  {
    var all, cons := NormalizeItems(items, e), [Normalize(items[0], e)] + NormalizeItems(items[1..], e);
    forall i | 0 <= i < |all|
      ensures all[i] == cons[i]
    {
      if i > 0 {
        assert items[1..][i - 1] == items[i];
      }
    }
  }

  lemma {:induction false} DecodeVector(items: seq<Value>, e: TypeTag, bytes: seq<byte>)
    requires SerializeItems(items, e).Ok?
    requires StartsWith(bytes, Uleb128(|items|) + SerializeItems(items, e).value)
    ensures DecodeArg(bytes, Vector(e))
            == Some((Array(NormalizeItems(items, e)), |Uleb128(|items|) + SerializeItems(items, e).value|))
    decreases e, 3
  {
    var prefix := Uleb128(|items|);
    var body := SerializeItems(items, e).value;
    PrefixSplit(bytes, prefix, body);
    UlebPrefix(|items|, bytes);
    var suffix := bytes[|prefix|..];
    DecodeSerializeItems(items, e, suffix);
    DecodeVectorStep(bytes, e, |items|, |prefix|, NormalizeItems(items, e), |body|, |prefix + body|);
  }

  lemma {:induction false} DecodeSerializeItems(items: seq<Value>, e: TypeTag, bytes: seq<byte>)
    requires SerializeItems(items, e).Ok? && StartsWith(bytes, SerializeItems(items, e).value)
    ensures DecodeItems(bytes, e, |items|) == Some((NormalizeItems(items, e), |SerializeItems(items, e).value|))
    decreases e, 2, |items|
  {
    if |items| > 0 {
      var x, rest := items[0], items[1..];
      SerializeItemsStep(items, e);
      var head, tail := SerializeArg(x, e).value, SerializeItems(rest, e).value;
      PrefixSplit(bytes, head, tail);
      assert DecodeArg(bytes, e) == Some((Normalize(x, e), |head|)) by {
        DecodeEncoded(x, e, bytes);
      }
      assert DecodeItems(bytes[|head|..], e, |rest|) == Some((NormalizeItems(rest, e), |tail|)) by {
        DecodeSerializeItems(rest, e, bytes[|head|..]);
      }
      DecodeItemsFirst(items, e, bytes, head, tail);
    } else {
      assert NormalizeItems(items, e) == [];
    }
  }

  /** The inductive step: the first item's bytes decode to its canonical form, and
      the rest decode to the rest. */
  lemma DecodeItemsFirst(items: seq<Value>, e: TypeTag, bytes: seq<byte>, head: seq<byte>, tail: seq<byte>)
    requires |items| > 0 && SerializeItems(items, e) == Ok(head + tail) && |head| <= |bytes|
    requires DecodeArg(bytes, e) == Some((Normalize(items[0], e), |head|))
    requires DecodeItems(bytes[|head|..], e, |items| - 1) == Some((NormalizeItems(items[1..], e), |tail|))
    ensures DecodeItems(bytes, e, |items|) == Some((NormalizeItems(items, e), |SerializeItems(items, e).value|))
  {
    NormalizeItemsCons(items, e);
    DecodeItemsCombine(bytes, e, |items|, Normalize(items[0], e), NormalizeItems(items[1..], e), |head|, |tail|,
                       NormalizeItems(items, e), |head + tail|);
  }

  /** One item decoded, then the rest: the inductive step, over plain values. */
  lemma DecodeItemsCombine(bytes: seq<byte>, e: TypeTag, count: nat, x: Value, xs: seq<Value>, used: nat, more: nat,
                           all: seq<Value>, total: nat)
    requires count > 0 && all == [x] + xs && total == used + more
    requires DecodeArg(bytes, e) == Some((x, used))
    requires DecodeItems(bytes[used..], e, count - 1) == Some((xs, more))
    ensures DecodeItems(bytes, e, count) == Some((all, total))
  {
    DecodeItemsStep(bytes, e, count, x, used, xs, more);
  }
}
