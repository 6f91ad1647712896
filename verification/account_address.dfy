/** Account addresses: a fixed run of 16 bytes, written as a hexadecimal string
    with an optional `0x` prefix and left-padded with zeros to the full width. */
module AccountAddresses {
  import opened Results
  import opened Bytes

  const AddressLength: nat := 16

  type AccountAddress = s: seq<byte> | |s| == AddressLength witness seq(AddressLength, _ => 0)

  predicate IsHexDigit(c: char)
  {
    '0' <= c <= '9' || 'a' <= c <= 'f' || 'A' <= c <= 'F'
  }

  function HexValue(c: char): (v: nat)
    requires IsHexDigit(c)
    ensures v < 16
  {
    if '0' <= c <= '9' then (c as int) - ('0' as int)
    else if 'a' <= c <= 'f' then (c as int) - ('a' as int) + 10
    else (c as int) - ('A' as int) + 10
  }

  /** The lower-case hexadecimal digit of `v`. */
  function HexDigit(v: nat): (c: char)
    requires v < 16
    ensures IsHexDigit(c) && HexValue(c) == v
  {
    if v < 10 then ((v + '0' as int) as char) else ((v - 10 + 'a' as int) as char)
  }

  predicate AllHex(s: string)
  {
    forall i :: 0 <= i < |s| ==> IsHexDigit(s[i])
  }

  /** The digits of a hex string: the string without its `0x` prefix, if it has one. */
  function Digits(s: string): (d: string)
    ensures |s| >= 2 && s[..2] == "0x" ==> d == s[2..]
    ensures !(|s| >= 2 && s[..2] == "0x") ==> d == s
  {
    if |s| >= 2 && s[..2] == "0x" then s[2..] else s
  }

  /** A string that denotes an address: one to 32 hex digits after the optional prefix. */
  predicate IsHexAddress(s: string)
  {
    var d := Digits(s);
    1 <= |d| <= 2 * AddressLength && AllHex(d)
  }

  /** The number a string of hex digits denotes, most significant digit first. */
  function HexNumber(d: string): (r: nat)
    requires AllHex(d)
  {
    if |d| == 0 then 0 else 16 * HexNumber(d[..|d| - 1]) + HexValue(d[|d| - 1])
  }

  /** The number a run of bytes denotes, most significant byte first. */
  function BigEndian(bytes: seq<byte>): (r: nat)
  {
    if |bytes| == 0 then 0 else 256 * BigEndian(bytes[..|bytes| - 1]) + bytes[|bytes| - 1]
  }

  /** Decodes an even-length hex string two digits per byte. */
  function HexPairs(d: string): (bytes: seq<byte>)
    requires AllHex(d) && |d| % 2 == 0
    ensures |bytes| == |d| / 2
  {
    seq(|d| / 2, i requires 0 <= i < |d| / 2 => 16 * HexValue(d[2 * i]) + HexValue(d[2 * i + 1]))
  }

  /** The address a hex string denotes: its digits left-padded with `0` to 32
      digits and decoded two digits per byte. Anything else is rejected. */
  function ParseAddress(s: string): (r: Result<AccountAddress>)
    ensures r.Ok? <==> IsHexAddress(s)
    ensures r.Err? ==> r.error == InvalidAccountAddress
    ensures r.Ok? ==> BigEndian(r.value) == HexNumber(Digits(s))
  {
    var d := Digits(s);
    if 1 <= |d| <= 2 * AddressLength && AllHex(d) then
      var padded := seq(2 * AddressLength - |d|, _ => '0') + d;
      HexNumberZeroPadding(2 * AddressLength - |d|, d);
      HexPairsValue(padded);
      Ok(HexPairs(padded))
    else
      Err(InvalidAccountAddress)
  }

  /** The full-width, lower-case, `0x`-prefixed hex form of an address. */
  function FormatAddress(a: AccountAddress): (s: string)
    ensures |s| == 2 + 2 * AddressLength
  {
    "0x" + seq(2 * AddressLength, i requires 0 <= i < 2 * AddressLength =>
                 HexDigit(if i % 2 == 0 then a[i / 2] / 16 else a[i / 2] % 16))
  }

  lemma {:induction false} HexNumberZeroPadding(k: nat, d: string)
    requires AllHex(d)
    ensures AllHex(seq(k, _ => '0') + d)
    ensures HexNumber(seq(k, _ => '0') + d) == HexNumber(d)
  {
    var z: string := seq(k, _ => '0');
    if |d| == 0 {
      assert z + d == z;
      ZerosDenoteZero(k);
    } else {
      assert (z + d)[..|z + d| - 1] == z + d[..|d| - 1];
      HexNumberZeroPadding(k, d[..|d| - 1]);
    }
  }

  lemma {:induction false} ZerosDenoteZero(k: nat)
    ensures AllHex(seq(k, _ => '0'))
    ensures HexNumber(seq(k, _ => '0')) == 0
  {
    if k > 0 {
      var z: string := seq(k, _ => '0');
      assert z[..k - 1] == seq(k - 1, _ => '0');
      ZerosDenoteZero(k - 1);
    }
  }

  lemma {:induction false} HexPairsValue(d: string)
    requires AllHex(d) && |d| % 2 == 0
    ensures BigEndian(HexPairs(d)) == HexNumber(d)
  {
    if |d| > 0 {
      var p := d[..|d| - 2];
      var bytes := HexPairs(d);
      assert bytes[..|bytes| - 1] == HexPairs(p);
      assert bytes[|bytes| - 1] == 16 * HexValue(d[|d| - 2]) + HexValue(d[|d| - 1]);
      HexPairsValue(p);
      HexNumberLastPair(d);
    }
  }

  /** The number of a hex string is that of all but its last two digits,
      shifted by one byte, plus the byte those two digits make. */
  lemma HexNumberLastPair(d: string)
    requires AllHex(d) && |d| >= 2
    ensures HexNumber(d) == 256 * HexNumber(d[..|d| - 2]) + (16 * HexValue(d[|d| - 2]) + HexValue(d[|d| - 1]))
  {
    var q := d[..|d| - 1];
    assert q[..|q| - 1] == d[..|d| - 2];
    assert q[|q| - 1] == d[|d| - 2];
  }

  /** Two byte strings of one length that denote the same number are equal. */
  lemma {:induction false} BigEndianInjective(a: seq<byte>, b: seq<byte>)
    requires |a| == |b|
    requires BigEndian(a) == BigEndian(b)
    ensures a == b
  {
    if |a| > 0 {
      var n := |a| - 1;
      assert BigEndian(a) % 256 == a[n] && BigEndian(b) % 256 == b[n];
      BigEndianInjective(a[..n], b[..n]);
      assert a == a[..n] + [a[n]] && b == b[..n] + [b[n]];
    }
  }

  /** Two hex strings name the same address exactly when their digits denote the
      same number: `0x1`, `1` and `0x0001` are one address. */
  lemma SameAddressIffSameNumber(s1: string, s2: string)
    requires IsHexAddress(s1) && IsHexAddress(s2)
    ensures ParseAddress(s1) == ParseAddress(s2) <==> HexNumber(Digits(s1)) == HexNumber(Digits(s2))
  {
    if HexNumber(Digits(s1)) == HexNumber(Digits(s2)) {
      BigEndianInjective(ParseAddress(s1).value, ParseAddress(s2).value);
    }
  }

  /** Printing an address in full and parsing it back gives the same address. */
  lemma FormatAddressRoundTrip(a: AccountAddress)
    ensures ParseAddress(FormatAddress(a)) == Ok(a)
  {
    var s := FormatAddress(a);
    var d := s[2..];
    assert s[..2] == "0x";
    assert AllHex(d);
    var b := HexPairs(d);
    forall i | 0 <= i < AddressLength
      ensures b[i] == a[i]
    {
      assert d[2 * i] == HexDigit(a[i] / 16);
      assert d[2 * i + 1] == HexDigit(a[i] % 16);
    }
    assert b == a;
    HexPairsValue(d);
    BigEndianInjective(ParseAddress(s).value, a);
  }

  lemma {:induction false} BigEndianZeros(k: nat)
    ensures BigEndian(seq(k, _ => 0)) == 0
  {
    if k > 0 {
      assert seq(k, _ => 0)[..k - 1] == seq(k - 1, _ => 0);
      BigEndianZeros(k - 1);
    }
  }

  /** A one-digit address such as `0x1` is fifteen zero bytes and then the digit's value. */
  lemma ParseAddressDigit(c: char)
    requires IsHexDigit(c)
    ensures ParseAddress("0x" + [c]) == Ok(seq(AddressLength - 1, _ => 0) + [HexValue(c)])
  {
    var s := "0x" + [c];
    assert s[..2] == "0x" && s[2..] == [c];
    var expected: seq<byte> := seq(AddressLength - 1, _ => 0) + [HexValue(c)];
    assert expected[..AddressLength - 1] == seq(AddressLength - 1, _ => 0);
    BigEndianZeros(AddressLength - 1);
    assert HexNumber([c]) == HexValue(c) by {
      assert [c][..0] == [];
    }
    BigEndianInjective(ParseAddress(s).value, expected);
  }
}
