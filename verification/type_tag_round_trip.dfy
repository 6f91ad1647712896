/** Printing a type tag as its canonical signature and parsing the signature
    back gives the same tag, for every tag a signature can denote. */
module TypeTagRoundTrip {
  import opened Results
  import opened Seqs
  import opened Text
  import opened AccountAddresses
  import opened TypeTags
  import opened TypeTagParser

  // ---------------------------------------------------------------------
  // The pieces of a printed signature.
  // ---------------------------------------------------------------------

  lemma FormatAddressDigits(a: AccountAddress)
    ensures var s := FormatAddress(a);
      s[0] == '0' && s[1] == 'x' && forall i :: 2 <= i < |s| ==> IsHexDigit(s[i])
  {
  }

  lemma HexPlain(s: string)
    requires |s| > 2 && s[0] == '0' && s[1] == 'x'
    requires forall i :: 2 <= i < |s| ==> IsHexDigit(s[i])
    ensures Plain(s) && NoColon(s) && Trimmed(s)
  {
    assert IsHexDigit(s[|s| - 1]);
  }

  /** A printed address is `0x` and hex digits: no punctuation, no white space,
      and it reads back as the same address. */
  lemma FormatAddressShape(a: AccountAddress)
    ensures var s := FormatAddress(a);
      && Plain(s) && NoColon(s) && s[0] == '0' && Trimmed(s) && ParseAddress(Trim(s)) == Ok(a)
  {
    var s := FormatAddress(a);
    FormatAddressDigits(a);
    HexPlain(s);
    TrimFixed(s);
    FormatAddressRoundTrip(a);
  }

  /** The head `address::module::Name` of a printed struct signature. */
  function StructHeadText(a: AccountAddress, m: string, n: string): (r: string)
  {
    FormatAddress(a) + "::" + m + "::" + n
  }

  lemma PlainJoin(a: string, m: string, n: string)
    requires Plain(a) && Plain(m) && Plain(n)
    ensures Plain(a + "::" + m + "::" + n)
  {
    PlainAppend(a, "::");
    PlainAppend(a + "::", m);
    PlainAppend(a + "::" + m, "::");
    PlainAppend(a + "::" + m + "::", n);
  }

  lemma StructHeadPlain(a: AccountAddress, m: string, n: string)
    requires IsIdentifier(m) && IsIdentifier(n)
    ensures Plain(StructHeadText(a, m, n))
  {
    FormatAddressShape(a);
    IdentifierShape(m);
    IdentifierShape(n);
    PlainJoin(FormatAddress(a), m, n);
  }

  lemma StructHeadEnds(a: AccountAddress, m: string, n: string)
    requires IsIdentifier(n)
    ensures var h := StructHeadText(a, m, n);
      h[0] == '0' && h[|h| - 1] == n[|n| - 1]
  {
    FormatAddressDigits(a);
    EndsShape(FormatAddress(a), m, n);
  }

  lemma StructHeadAddress(a: AccountAddress, m: string)
    requires IsIdentifier(m)
    ensures StructHead(FormatAddress(a), m)
  {
    FormatAddressShape(a);
    IdentifierShape(m);
  }

  lemma StructHeadShape(a: AccountAddress, m: string, n: string)
    requires IsIdentifier(m) && IsIdentifier(n)
    ensures var h := StructHeadText(a, m, n);
      && Plain(h) && h[0] == '0' && h[|h| - 1] == n[|n| - 1]
      && StructHead(FormatAddress(a), m)
  {
    StructHeadPlain(a, m, n);
    StructHeadEnds(a, m, n);
    StructHeadAddress(a, m);
  }

  lemma GenericStructText(h: string, n: string, list: string)
    ensures h + n + "<" + list + ">" == h + (n + "<" + list + ">")
  {
    Group5(h, n, "<", list, ">");
  }

  lemma StructHeadValues(a: AccountAddress, m: string)
    requires IsIdentifier(m)
    ensures ParseAddress(Trim(FormatAddress(a))) == Ok(a) && Trim(m) == m
  {
    FormatAddressShape(a);
    IdentifierShape(m);
  }

  /** A printed struct head alone parses to that struct with no type arguments. */
  lemma ParseStructHeadText(a: AccountAddress, m: string, n: string)
    requires IsIdentifier(m) && IsIdentifier(n)
    ensures ParseTypeTag(StructHeadText(a, m, n)) == Ok(Struct(a, m, n, []))
  {
    StructHeadAddress(a, m);
    StructHeadValues(a, m);
    ParsePlainStruct(FormatAddress(a), m, n);
  }

  lemma GenericEnds(h: string, list: string)
    requires |h| > 0 && h[0] == '0'
    ensures var s := h + "<" + list + ">";
      Trimmed(s) && s[0] == '0'
  {
  }

  /** A printed struct head followed by a bracketed list parses to that struct
      with whatever the list parses to as its type arguments. */
  lemma ParseGenericStructText(a: AccountAddress, m: string, n: string, list: string)
    requires IsIdentifier(m) && IsIdentifier(n)
    requires Walk(list, 0) == Some(0)
    ensures var s := StructHeadText(a, m, n) + "<" + list + ">";
      && (ParseTypeTag(s).Ok? <==> ParseArgList(list).Ok?)
      && (ParseArgList(list).Ok? ==> ParseTypeTag(s) == Ok(Struct(a, m, n, ParseArgList(list).value)))
  {
    var h := FormatAddress(a) + "::" + m + "::";
    StructHeadEnds(a, m, n);
    GenericEnds(StructHeadText(a, m, n), list);
    GenericStructText(h, n, list);
    StructHeadAddress(a, m);
    ParseStructHead(FormatAddress(a), m, n + "<" + list + ">");
    StructHeadValues(a, m);
    IdentifierShape(n);
    ParseNamedGeneric(a, m, n, list);
  }

  // ---------------------------------------------------------------------
  // Brackets and commas in a printed signature.
  // ---------------------------------------------------------------------

  /** Every `<` of a printed signature is closed by a `>` within it. */
  lemma {:induction false} FormatBalanced(t: TypeTag)
    requires WellFormed(t)
    ensures Walk(Format(t), 0) == Some(0)
    decreases t
  {
    match t
    case Vector(e) =>
      FormatBalanced(e);
      WalkBracketed("vector", Format(e));
    case Struct(a, m, n, args) =>
      StructHeadShape(a, m, n);
      if |args| == 0 {
        WalkPlain(StructHeadText(a, m, n), 0);
      } else {
        FormatListBalanced(args);
        WalkBracketed(StructHeadText(a, m, n), FormatList(args));
      }
    case _ =>
      WalkPlain(Format(t), 0);
  }

  lemma {:induction false} FormatListBalanced(ts: seq<TypeTag>)
    requires forall i :: 0 <= i < |ts| ==> WellFormed(ts[i])
    ensures Walk(FormatList(ts), 0) == Some(0)
    decreases ts
  {
    if |ts| == 1 {
      FormatBalanced(ts[0]);
    } else if |ts| > 1 {
      var x := Format(ts[0]);
      FormatBalanced(ts[0]);
      FormatListBalanced(ts[1..]);
      WalkAppend(x, ",", 0);
      WalkAppend(x + ",", FormatList(ts[1..]), 0);
    }
  }

  /** A printed signature has no comma at its own level: the first top-level
      comma of anything that follows it is the first one after it. */
  lemma FormatCommaFree(t: TypeTag, y: string)
    requires WellFormed(t)
    ensures CommaIndex(Format(t) + y, 0) == |Format(t)| + CommaIndex(y, 0)
  {
    match t
    case Vector(e) =>
      FormatBalanced(e);
      CommaBracketed("vector", Format(e), y);
    case Struct(a, m, n, args) =>
      StructHeadShape(a, m, n);
      if |args| == 0 {
        CommaSkipsPlain(StructHeadText(a, m, n), y, 0);
      } else {
        FormatListBalanced(args);
        CommaBracketed(StructHeadText(a, m, n), FormatList(args), y);
      }
    case _ =>
      CommaSkipsPlain(Format(t), y, 0);
  }

  // ---------------------------------------------------------------------
  // The round trip.
  // ---------------------------------------------------------------------

  /** Parsing the canonical signature of a well-formed tag gives the tag back. */
  lemma {:induction false} FormatRoundTrip(t: TypeTag)
    requires WellFormed(t)
    ensures ParseTypeTag(Format(t)) == Ok(t)
    decreases t
  {
    match t
    case Vector(e) =>
      FormatRoundTrip(e);
      FormatBalanced(e);
      ParseVectorText("", Format(e));
      assert "vector" + "" == "vector";
    case Struct(a, m, n, args) =>
      FormatStructRoundTrip(a, m, n, args);
    case _ =>
      ParseTrimmedFixed(Format(t));
  }

  lemma {:induction false} FormatStructRoundTrip(a: AccountAddress, m: string, n: string, args: seq<TypeTag>)
    requires WellFormed(Struct(a, m, n, args))
    ensures ParseTypeTag(Format(Struct(a, m, n, args))) == Ok(Struct(a, m, n, args))
    decreases Struct(a, m, n, args), 0
  {
    if |args| == 0 {
      ParseStructHeadText(a, m, n);
    } else {
      FormatListBalanced(args);
      ParseGenericStructText(a, m, n, FormatList(args));
      FormatListRoundTrip(args);
    }
  }

  lemma ParseSingleArg(t: TypeTag)
    requires WellFormed(t) && ParseTypeTag(Format(t)) == Ok(t)
    ensures ParseArgList(Format(t)) == Ok([t])
  {
    FormatCommaFree(t, "");
    Empty(Format(t));
    ParseArgListSingleStep(Format(t));
  }

  lemma ParseArgsCons(x: string, y: string, t: TypeTag, ts: seq<TypeTag>)
    requires ParseTypeTag(x) == Ok(t) && ParseArgList(y) == Ok(ts)
    requires CommaIndex(x + ("," + y), 0) == |x|
    ensures ParseArgList(x + "," + y) == Ok([t] + ts)
  {
    Group3(x, ",", y);
    ParseArgListConsStep(x, y);
  }

  /** Parsing the printed list of one or more well-formed tags gives the list back. */
  lemma {:induction false} FormatListRoundTrip(ts: seq<TypeTag>)
    requires |ts| >= 1 && forall i :: 0 <= i < |ts| ==> WellFormed(ts[i])
    ensures ParseArgList(FormatList(ts)) == Ok(ts)
    decreases ts
  {
    var t, rest := ts[0], ts[1..];
    assert ParseTypeTag(Format(t)) == Ok(t) by {
      FormatRoundTrip(t);
    }
    if |ts| == 1 {
      ParseSingleArg(t);
      assert [t] == ts;
    } else {
      assert forall i :: 0 <= i < |rest| ==> WellFormed(rest[i]) by {
        forall i | 0 <= i < |rest|
          ensures WellFormed(rest[i])
        {
          assert rest[i] == ts[i + 1];
        }
      }
      FormatListRoundTrip(rest);
      FormatListCons(t, rest);
      assert [t] + rest == ts;
    }
  }

  /** A tag in front of a list that parses back: the printed list parses back. */
  lemma FormatListCons(t: TypeTag, rest: seq<TypeTag>)
    requires WellFormed(t) && ParseTypeTag(Format(t)) == Ok(t)
    requires |rest| >= 1 && ParseArgList(FormatList(rest)) == Ok(rest)
    ensures ParseArgList(FormatList([t] + rest)) == Ok([t] + rest)
  {
    var x, y := Format(t), FormatList(rest);
    FormatListText(t, rest);
    FormatCommaFirst(t, y);
    ParseArgsCons(x, y, t, rest);
  }

  lemma FormatListText(t: TypeTag, rest: seq<TypeTag>)
    requires |rest| >= 1
    ensures FormatList([t] + rest) == Format(t) + "," + FormatList(rest)
  {
    assert ([t] + rest)[0] == t && ([t] + rest)[1..] == rest;
  }

  /** The first top-level comma after a printed signature is the one that follows it. */
  lemma FormatCommaFirst(t: TypeTag, y: string)
    requires WellFormed(t)
    ensures CommaIndex(Format(t) + ("," + y), 0) == |Format(t)|
  {
    FormatCommaFree(t, "," + y);
    assert CommaIndex("," + y, 0) == 0;
  }
}
