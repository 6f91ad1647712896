/** The byte-level primitives of Binary Canonical Serialization that the
    argument encoder uses: fixed-width little-endian unsigned integers and the
    ULEB128 length prefix of sequences (section 7.6 of the DWARF 4 standard). */
module Bytes {
  import opened Results

  type byte = n: int | 0 <= n < 256

  /** 256 to the power `width`: one more than the largest `width`-byte unsigned integer. */
  function Pow256(width: nat): (r: nat)
    ensures r >= 1
  {
    if width == 0 then 1 else 256 * Pow256(width - 1)
  }

  /** The `width`-byte little-endian encoding of `n`, least significant byte first. */
  function LittleEndian(n: nat, width: nat): (r: seq<byte>)
    requires n < Pow256(width)
    ensures |r| == width
    ensures width > 0 ==> r[0] == n % 256
  {
    if width == 0 then [] else [n % 256] + LittleEndian(n / 256, width - 1)
  }

  /** The unsigned integer whose little-endian encoding is `bytes`. */
  function FromLittleEndian(bytes: seq<byte>): (n: nat)
    ensures n < Pow256(|bytes|)
  {
    if |bytes| == 0 then 0 else bytes[0] + 256 * FromLittleEndian(bytes[1..])
  }

  lemma {:induction false} LittleEndianRoundTrip(n: nat, width: nat)
    requires n < Pow256(width)
    ensures FromLittleEndian(LittleEndian(n, width)) == n
  {
    if width > 0 {
      var r := LittleEndian(n, width);
      assert r[1..] == LittleEndian(n / 256, width - 1);
      LittleEndianRoundTrip(n / 256, width - 1);
    }
  }

  lemma {:induction false} FromLittleEndianRoundTrip(bytes: seq<byte>)
    ensures LittleEndian(FromLittleEndian(bytes), |bytes|) == bytes
  {
    if |bytes| > 0 {
      var n := FromLittleEndian(bytes);
      var m := FromLittleEndian(bytes[1..]);
      assert n % 256 == bytes[0] && n / 256 == m;
      FromLittleEndianRoundTrip(bytes[1..]);
      assert bytes == [bytes[0]] + bytes[1..];
    }
  }

  /** The largest `width`-byte value is encoded as `width` bytes of 0xff. */
  lemma {:induction false} LittleEndianAllOnes(width: nat)
    ensures LittleEndian(Pow256(width) - 1, width) == seq(width, _ => 255)
  {
    if width > 0 {
      var n := Pow256(width) - 1;
      assert n % 256 == 255 && n / 256 == Pow256(width - 1) - 1;
      LittleEndianAllOnes(width - 1);
    }
  }

  /** The ULEB128 encoding of `n`: seven bits per byte, least significant group
      first, the high bit set on every byte but the last. */
  function Uleb128(n: nat): (r: seq<byte>)
    ensures 1 <= |r|
    ensures n < 128 <==> |r| == 1
    ensures r[|r| - 1] < 128
    ensures forall i :: 0 <= i < |r| - 1 ==> r[i] >= 128
  {
    if n < 128 then [n] else [n % 128 + 128] + Uleb128(n / 128)
  }

  /** Reads a canonical ULEB128 value from the front of `bytes`: the value and the
      number of bytes it took. A trailing zero group (a non-minimal encoding) or
      running out of input is a failure. */
  function DecodeUleb128(bytes: seq<byte>): (r: Option<(nat, nat)>)
    ensures r.Some? ==> 1 <= r.value.1 <= |bytes|
  {
    if |bytes| == 0 then None
    else if bytes[0] < 128 then Some((bytes[0], 1))
    else
      match DecodeUleb128(bytes[1..])
      case None => None
      case Some((high, used)) =>
        if high == 0 then None else Some((bytes[0] - 128 + 128 * high, used + 1))
  }

  lemma {:induction false} Uleb128RoundTrip(n: nat, rest: seq<byte>)
    ensures DecodeUleb128(Uleb128(n) + rest) == Some((n, |Uleb128(n)|))
  {
    if n >= 128 {
      var s := Uleb128(n) + rest;
      assert s[1..] == Uleb128(n / 128) + rest;
      Uleb128RoundTrip(n / 128, rest);
    }
  }

  lemma {:induction false} DecodeUleb128RoundTrip(bytes: seq<byte>)
    requires DecodeUleb128(bytes).Some?
    ensures Uleb128(DecodeUleb128(bytes).value.0) == bytes[..DecodeUleb128(bytes).value.1]
  {
    if bytes[0] >= 128 {
      var (high, used) := DecodeUleb128(bytes[1..]).value;
      DecodeUleb128RoundTrip(bytes[1..]);
      var n := bytes[0] - 128 + 128 * high;
      assert n % 128 == bytes[0] - 128 && n / 128 == high;
      assert bytes[..used + 1] == [bytes[0]] + bytes[1..][..used];
    }
  }
}
