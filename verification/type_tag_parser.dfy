/** The recursive-descent parser from type signatures to type tags:

      type       := bool | u8 | u64 | u128 | address
                  | vector < type >
                  | address :: identifier :: identifier [ < type , ... , type > ]

    White space between tokens is ignored; brackets and the commas of an
    argument list are matched by counting nesting depth. Every malformed
    signature fails with the "Invalid struct tag string literal." error, because
    whatever is not a keyword or a vector is read as a struct tag. */
module TypeTagParser {
  import opened Results
  import opened Seqs
  import opened Text
  import opened AccountAddresses
  import opened TypeTags

  function ParseTypeTag(input: string): (r: Result<TypeTag>)
    ensures r.Ok? ==> WellFormed(r.value)
    ensures r.Err? ==> r.error == InvalidStructTag
    decreases |input|, 3
  {
    ParseTrimmed(Trim(input))
  }

  /** Dispatch on a signature without surrounding white space: keywords first,
      then `vector`, and anything else as a struct tag. */
  function ParseTrimmed(s: string): (r: Result<TypeTag>)
    ensures r.Ok? ==> WellFormed(r.value)
    ensures r.Err? ==> r.error == InvalidStructTag
    decreases |s|, 2
  {
    if s == "bool" then Ok(Bool)
    else if s == "u8" then Ok(U8)
    else if s == "u64" then Ok(U64)
    else if s == "u128" then Ok(U128)
    else if s == "address" then Ok(Address)
    else if |s| >= 6 && s[..6] == "vector" then
      var rest := Trim(s[6..]);
      if |rest| >= 2 && rest[0] == '<' && CloseIndex(rest[1..], 1) == |rest| - 2 then
        var element :- ParseTypeTag(rest[1..|rest| - 1]);
        Ok(Vector(element))
      else
        Err(InvalidStructTag)
    else
      ParseStruct(s)
  }

  /** `address::module::rest`, split at the first two `::` only. */
  function ParseStruct(s: string): (r: Result<TypeTag>)
    ensures r.Ok? ==> r.value.Struct? && WellFormed(r.value)
    ensures r.Err? ==> r.error == InvalidStructTag
    decreases |s|, 1
  {
    var i := FindSeparator(s);
    if i == |s| then Err(InvalidStructTag)
    else
      var tail := s[i + 2..];
      var j := FindSeparator(tail);
      if j == |tail| then Err(InvalidStructTag)
      else
        var address :- ParseAddress(Trim(s[..i])).OrElse(InvalidStructTag);
        var moduleName := Trim(tail[..j]);
        if !IsIdentifier(moduleName) then Err(InvalidStructTag)
        else ParseNamed(address, moduleName, tail[j + 2..])
  }

  /** The part after the second `::`: a name, then optionally a bracketed
      argument list whose matching `>` must end the signature. */
  function ParseNamed(address: AccountAddress, moduleName: string, rest: string): (r: Result<TypeTag>)
    requires IsIdentifier(moduleName)
    ensures r.Ok? ==> r.value.Struct? && WellFormed(r.value)
    ensures r.Ok? ==> r.value.address == address && r.value.moduleName == moduleName
    ensures r.Err? ==> r.error == InvalidStructTag
    decreases |rest|, 1
  {
    var k := FindChar(rest, '<');
    var name := Trim(rest[..k]);
    if !IsIdentifier(name) then Err(InvalidStructTag)
    else if k == |rest| then Ok(Struct(address, moduleName, name, []))
    else
      var body := rest[k + 1..];
      if CloseIndex(body, 1) != |body| - 1 then Err(InvalidStructTag)
      else
        match ParseArgList(body[..|body| - 1])
        case Err(e) => Err(e)
        case Ok(typeArgs) => Ok(Struct(address, moduleName, name, typeArgs))
  }

  /** A comma-separated list of signatures, split only at commas outside any
      inner brackets; an empty list or an empty element is an error. */
  function ParseArgList(s: string): (r: Result<seq<TypeTag>>)
    ensures r.Ok? ==> |r.value| >= 1 && forall i :: 0 <= i < |r.value| ==> WellFormed(r.value[i])
    ensures r.Err? ==> r.error == InvalidStructTag
    decreases |s|, 4
  {
    var k := CommaIndex(s, 0);
    var first :- ParseTypeTag(s[..k]);
    if k == |s| then Ok([first])
    else
      var others :- ParseArgList(s[k + 1..]);
      Ok([first] + others)
  }

  // ---------------------------------------------------------------------
  // One step of the parser at a time, over any text with the right landmarks.
  // ---------------------------------------------------------------------

  /** A signature with no surrounding white space is dispatched as it is. */
  lemma ParseTrimmedFixed(s: string)
    requires Trimmed(s)
    ensures ParseTypeTag(s) == ParseTrimmed(s)
  {
    TrimFixed(s);
  }

  lemma NotKeywordVector(s: string)
    requires |s| >= 6 && s[..6] == "vector"
    ensures s != "bool" && s != "u8" && s != "u64" && s != "u128" && s != "address"
  {
    assert "address"[..6] == "addres";
  }

  lemma NotKeywordColon(s: string, i: nat)
    requires i < |s| && s[i] == ':'
    ensures s != "bool" && s != "u8" && s != "u64" && s != "u128" && s != "address"
  {
    assert NoColon("bool") && NoColon("u8") && NoColon("u64") && NoColon("u128") && NoColon("address");
  }

  lemma ParseVectorStep(s: string, rest: string)
    requires |s| >= 6 && s[..6] == "vector" && Trim(s[6..]) == rest
    requires |rest| >= 2 && rest[0] == '<' && CloseIndex(rest[1..], 1) == |rest| - 2
    ensures ParseTrimmed(s).Ok? <==> ParseTypeTag(rest[1..|rest| - 1]).Ok?
    ensures ParseTrimmed(s).Ok? ==> ParseTrimmed(s) == Ok(Vector(ParseTypeTag(rest[1..|rest| - 1]).value))
  {
    NotKeywordVector(s);
    var element := ParseTypeTag(rest[1..|rest| - 1]);
    assert ParseTrimmed(s) == if element.Ok? then Ok(Vector(element.value)) else Err(element.error);
  }

  /** A `vector` signature is accepted only when the text between its brackets is. */
  lemma ParseVectorOkStep(s: string, rest: string)
    requires |s| >= 6 && s[..6] == "vector" && Trim(s[6..]) == rest
    ensures ParseTrimmed(s).Ok? ==> |rest| >= 2 && ParseTypeTag(rest[1..|rest| - 1]).Ok?
  {
    NotKeywordVector(s);
    if |rest| >= 2 && rest[0] == '<' && CloseIndex(rest[1..], 1) == |rest| - 2 {
      var element := ParseTypeTag(rest[1..|rest| - 1]);
      assert ParseTrimmed(s) == if element.Ok? then Ok(Vector(element.value)) else Err(element.error);
    } else {
      assert ParseTrimmed(s) == Err(InvalidStructTag);
    }
  }

  lemma ParseTrimmedStruct(s: string, i: nat)
    requires |s| > 0 && IsHexDigit(s[0])
    requires i < |s| && s[i] == ':'
    ensures ParseTrimmed(s) == ParseStruct(s)
  {
    NotKeywordColon(s, i);
    NotVectorHex(s);
  }

  lemma NotVectorHex(s: string)
    requires |s| > 0 && IsHexDigit(s[0])
    ensures !(|s| >= 6 && s[..6] == "vector")
  {
    if |s| >= 6 {
      assert s[..6][0] == s[0];
    }
  }

  lemma ParseStructStep(s: string, i: nat, j: nat)
    requires FindSeparator(s) == i < |s|
    requires FindSeparator(s[i + 2..]) == j < |s| - i - 2
    requires ParseAddress(Trim(s[..i])).Ok? && IsIdentifier(Trim(s[i + 2..][..j]))
    ensures ParseStruct(s)
            == ParseNamed(ParseAddress(Trim(s[..i])).value, Trim(s[i + 2..][..j]), s[i + 2..][j + 2..])
  {
    var address := ParseAddress(Trim(s[..i]));
    assert address.OrElse(InvalidStructTag) == Ok(address.value);
  }

  lemma ParseNamedPlainStep(address: AccountAddress, moduleName: string, n: string)
    requires IsIdentifier(moduleName) && IsIdentifier(Trim(n))
    requires FindChar(n, '<') == |n|
    ensures ParseNamed(address, moduleName, n) == Ok(Struct(address, moduleName, Trim(n), []))
  {
    Empty(n);
  }

  lemma ParseNamedGenericStep(address: AccountAddress, moduleName: string, rest: string, k: nat)
    requires IsIdentifier(moduleName)
    requires FindChar(rest, '<') == k < |rest| && IsIdentifier(Trim(rest[..k]))
    requires CloseIndex(rest[k + 1..], 1) == |rest| - k - 2
    ensures ParseNamed(address, moduleName, rest).Ok? <==> ParseArgList(rest[k + 1..][..|rest| - k - 2]).Ok?
    ensures ParseArgList(rest[k + 1..][..|rest| - k - 2]).Ok? ==>
              ParseNamed(address, moduleName, rest)
              == Ok(Struct(address, moduleName, Trim(rest[..k]), ParseArgList(rest[k + 1..][..|rest| - k - 2]).value))
  {
  }

  lemma ParseStructMissingStep(s: string, i: nat)
    requires FindSeparator(s) == i < |s|
    requires FindSeparator(s[i + 2..]) == |s| - i - 2
    ensures ParseStruct(s) == Err(InvalidStructTag)
  {
    var tail := s[i + 2..];
    assert |tail| == |s| - i - 2;
    assert FindSeparator(tail) == |tail|;
  }

  lemma ParseStructNoSeparatorStep(s: string)
    requires FindSeparator(s) == |s|
    ensures ParseStruct(s) == Err(InvalidStructTag)
  {
  }

  lemma ParseStructBadHeadStep(s: string, i: nat, j: nat)
    requires FindSeparator(s) == i < |s|
    requires FindSeparator(s[i + 2..]) == j < |s| - i - 2
    requires !(ParseAddress(Trim(s[..i])).Ok? && IsIdentifier(Trim(s[i + 2..][..j])))
    ensures ParseStruct(s) == Err(InvalidStructTag)
  {
  }

  lemma ParseNamedUnclosedStep(address: AccountAddress, moduleName: string, rest: string, k: nat)
    requires IsIdentifier(moduleName)
    requires FindChar(rest, '<') == k < |rest|
    requires CloseIndex(rest[k + 1..], 1) == |rest| - k - 1
    ensures ParseNamed(address, moduleName, rest) == Err(InvalidStructTag)
  {
  }

  // ---------------------------------------------------------------------
  // Where the landmarks fall in text of each production's shape.
  // ---------------------------------------------------------------------

  lemma VectorTextShape(w: string, inner: string)
    requires AllSpace(w)
    ensures var s := "vector" + w + "<" + inner + ">";
      && Trimmed(s) && |s| >= 6 && s[..6] == "vector" && Trim(s[6..]) == "<" + inner + ">"
  {
    var rest := "<" + inner + ">";
    var s := "vector" + (w + rest);
    Group5("vector", w, "<", inner, ">");
    Group3("<", inner, ">");
    assert s[0] == 'v' && s[|s| - 1] == '>';
    Split("vector", w + rest);
    assert rest[0] == '<' && rest[|rest| - 1] == '>';
    TrimLeading(w, rest);
  }

  lemma BracketedShape(inner: string)
    requires Walk(inner, 0) == Some(0)
    ensures var rest := "<" + inner + ">";
      |rest| >= 2 && rest[0] == '<' && CloseIndex(rest[1..], 1) == |rest| - 2 && rest[1..|rest| - 1] == inner
  {
    Middle("<", inner, ">");
    CloseAtEnd(inner, 0);
  }

  /** `x::y` with no colon in `x` splits at the end of `x`. */
  lemma SeparatorShape(x: string, y: string)
    requires NoColon(x)
    ensures var s := x + "::" + y;
      FindSeparator(s) == |x| < |s| && s[|x|] == ':' && s[..|x|] == x && s[|x| + 2..] == y
  {
    Group3(x, "::", y);
    FindSeparatorSkips(x, "::" + y);
    assert FindSeparator("::" + y) == 0;
    Middle(x, "::", y);
  }

  lemma StructTextShape(a: string, m: string, rest: string)
    ensures a + "::" + m + "::" + rest == a + "::" + (m + "::" + rest)
  {
    Group5(a, "::", m, "::", rest);
    Group3(a, "::", m + "::" + rest);
  }

  lemma GenericTextShape(n: string, list: string)
    requires forall i :: 0 <= i < |n| ==> n[i] != '<'
    requires Walk(list, 0) == Some(0)
    ensures var rest := n + "<" + list + ">";
      && FindChar(rest, '<') == |n| < |rest| && rest[..|n|] == n
      && CloseIndex(rest[|n| + 1..], 1) == |rest| - |n| - 2
      && rest[|n| + 1..][..|rest| - |n| - 2] == list
  {
    var tail := "<" + (list + ">");
    var rest := n + "<" + list + ">";
    assert rest == n + tail by {
      Group4(n, "<", list, ">");
    }
    assert FindChar(rest, '<') == |n| by {
      FindCharSkips(n, tail, '<');
      assert FindChar(tail, '<') == 0;
    }
    assert rest[..|n|] == n && rest[|n| + 1..] == list + ">" by {
      Split(n, tail);
      assert tail[1..] == list + ">";
    }
    assert CloseIndex(list + ">", 1) == |list| by {
      CloseAtEnd(list, 0);
    }
    assert (list + ">")[..|list|] == list by {
      Split(list, ">");
    }
  }

  /** Identifiers hold no white space and none of the parser's punctuation. */
  lemma IdentifierShape(n: string)
    requires IsIdentifier(n)
    ensures Trimmed(n) && Trim(n) == n && NoColon(n) && Plain(n)
  {
    TrimFixed(n);
  }

  lemma UnclosedTextShape(n: string, body: string)
    requires forall i :: 0 <= i < |n| ==> n[i] != '<'
    requires Walk(body, 0).Some?
    ensures var rest := n + "<" + body;
      && FindChar(rest, '<') == |n| < |rest|
      && CloseIndex(rest[|n| + 1..], 1) == |rest| - |n| - 1
  {
    Group3(n, "<", body);
    FindCharSkips(n, "<" + body, '<');
    assert FindChar("<" + body, '<') == 0;
    Middle(n, "<", body);
    CloseIndexUnclosed(body, 0);
  }

  lemma EndsShape(a: string, m: string, rest: string)
    requires |a| > 0 && |rest| > 0
    ensures var s := a + "::" + m + "::" + rest;
      s[0] == a[0] && s[|s| - 1] == rest[|rest| - 1]
  {
  }

  lemma HexNotSpace(c: char)
    requires IsHexDigit(c)
    ensures !IsSpace(c)
  {
  }

  // ---------------------------------------------------------------------
  // How the parser reads each production, for any text of that shape.
  // ---------------------------------------------------------------------

  /** White space around a signature never changes what it parses to. */
  lemma ParseIgnoresPadding(w1: string, s: string, w2: string)
    requires AllSpace(w1) && AllSpace(w2)
    ensures ParseTypeTag(w1 + s + w2) == ParseTypeTag(s)
  {
    TrimIgnoresPadding(w1, s, w2);
  }

  /** `vector <inner>` parses to a vector of whatever `inner` parses to, with any
      white space between `vector` and `<`. When `inner` is not balanced, neither
      side parses. */
  lemma ParseVectorText(w: string, inner: string)
    requires AllSpace(w)
    ensures ParseTypeTag("vector" + w + "<" + inner + ">").Ok? <==> ParseTypeTag(inner).Ok?
    ensures ParseTypeTag(inner).Ok? ==>
              ParseTypeTag("vector" + w + "<" + inner + ">") == Ok(Vector(ParseTypeTag(inner).value))
  {
    var s := "vector" + w + "<" + inner + ">";
    var rest := "<" + inner + ">";
    VectorTextShape(w, inner);
    ParseTrimmedFixed(s);
    if Walk(inner, 0) == Some(0) {
      BracketedShape(inner);
      ParseVectorStep(s, rest);
    } else {
      Middle("<", inner, ">");
      ParseVectorOkStep(s, rest);
      ParseOkBalanced(inner);
    }
  }

  /** What a struct head must look like for the parser to read it:
      an address, `::`, a module name, `::`. */
  predicate StructHead(a: string, m: string)
  {
    && |a| > 0 && IsHexDigit(a[0]) && NoColon(a) && ParseAddress(Trim(a)).Ok?
    && NoColon(m) && IsIdentifier(Trim(m))
  }

  /** A signature that starts with a struct head is read as a struct of that
      address and module, whatever follows the second `::`. */
  lemma ParseStructHead(a: string, m: string, rest: string)
    requires StructHead(a, m)
    requires Trimmed(a + "::" + m + "::" + rest)
    ensures ParseTypeTag(a + "::" + m + "::" + rest)
            == ParseNamed(ParseAddress(Trim(a)).value, Trim(m), rest)
  {
    var tail := m + "::" + rest;
    var s := a + "::" + tail;
    StructTextShape(a, m, rest);
    SeparatorShape(a, tail);
    SeparatorShape(m, rest);
    ParseTrimmedFixed(s);
    ParseTrimmedStruct(s, |a|);
    ParseStructStep(s, |a|, |m|);
  }

  /** A name with no argument list parses to a struct with no type arguments. */
  lemma ParseNamedPlain(address: AccountAddress, moduleName: string, n: string)
    requires IsIdentifier(moduleName) && IsIdentifier(Trim(n))
    requires forall i :: 0 <= i < |n| ==> n[i] != '<'
    ensures ParseNamed(address, moduleName, n) == Ok(Struct(address, moduleName, Trim(n), []))
  {
    FindCharAbsent(n, '<');
    ParseNamedPlainStep(address, moduleName, n);
  }

  /** A name followed by a bracketed argument list parses to a struct whose type
      arguments are what the list parses to. */
  lemma ParseNamedGeneric(address: AccountAddress, moduleName: string, n: string, list: string)
    requires IsIdentifier(moduleName) && IsIdentifier(Trim(n))
    requires forall i :: 0 <= i < |n| ==> n[i] != '<'
    requires Walk(list, 0) == Some(0)
    ensures ParseNamed(address, moduleName, n + "<" + list + ">").Ok? <==> ParseArgList(list).Ok?
    ensures ParseArgList(list).Ok? ==>
              ParseNamed(address, moduleName, n + "<" + list + ">")
              == Ok(Struct(address, moduleName, Trim(n), ParseArgList(list).value))
  {
    GenericTextShape(n, list);
    ParseNamedGenericStep(address, moduleName, n + "<" + list + ">", |n|);
  }

  /** The single-argument branch, once the scanner has run to the end. */
  lemma ParseArgListSingleStep(x: string)
    requires CommaIndex(x, 0) == |x|
    ensures ParseArgList(x).Ok? <==> ParseTypeTag(x).Ok?
    ensures ParseTypeTag(x).Ok? ==> ParseArgList(x) == Ok([ParseTypeTag(x).value])
  {
    Empty(x);
  }

  /** The splitting branch, once the scanner has stopped at the comma after `x`. */
  lemma ParseArgListConsStep(x: string, y: string)
    requires CommaIndex(x + "," + y, 0) == |x|
    ensures ParseArgList(x + "," + y).Ok? <==> ParseTypeTag(x).Ok? && ParseArgList(y).Ok?
    ensures ParseTypeTag(x).Ok? && ParseArgList(y).Ok? ==>
              ParseArgList(x + "," + y) == Ok([ParseTypeTag(x).value] + ParseArgList(y).value)
  {
    Middle(x, ",", y);
  }

  /** An argument list in which no `>` is unmatched and every comma sits inside
      inner brackets is a single argument. */
  lemma ParseArgListSingle(x: string)
    requires Walk(x, 0).Some? && NoTopLevelComma(x)
    ensures ParseArgList(x).Ok? <==> ParseTypeTag(x).Ok?
    ensures ParseTypeTag(x).Ok? ==> ParseArgList(x) == Ok([ParseTypeTag(x).value])
  {
    CommaIndexNone(x);
    ParseArgListSingleStep(x);
  }

  /** An argument list splits at its first comma outside inner brackets: `x` is a
      balanced run with no comma at its own level, and the comma after it is the
      split point. */
  lemma ParseArgListCons(x: string, y: string)
    requires Walk(x, 0) == Some(0) && NoTopLevelComma(x)
    ensures ParseArgList(x + "," + y).Ok? <==> ParseTypeTag(x).Ok? && ParseArgList(y).Ok?
    ensures ParseTypeTag(x).Ok? && ParseArgList(y).Ok? ==>
              ParseArgList(x + "," + y) == Ok([ParseTypeTag(x).value] + ParseArgList(y).value)
  {
    CommaIndexFirst(x, y);
    ParseArgListConsStep(x, y);
  }

  // ---------------------------------------------------------------------
  // What every signature the parser accepts or rejects has in common.
  // ---------------------------------------------------------------------

  /** A trimmed signature that is no keyword, does not begin with `vector` and
      holds no `::` is rejected: it can only be read as a struct tag, and a struct
      tag needs an address part. This is what turns `u16`, `u32` and `signer` away. */
  lemma ParseUnknownWord(s: string)
    requires Trimmed(s)
    requires s != "bool" && s != "u8" && s != "u64" && s != "u128" && s != "address"
    requires !(|s| >= 6 && s[..6] == "vector")
    requires forall i :: 0 <= i && i + 1 < |s| ==> !(s[i] == ':' && s[i + 1] == ':')
    ensures ParseTypeTag(s) == Err(InvalidStructTag)
  {
    FindSeparatorFirst(s);
    ParseTrimmedFixed(s);
    ParseStructNoSeparatorStep(s);
  }

  /** Every signature the parser accepts has balanced angle brackets, before and
      after trimming: no `>` closes a bracket that was not opened and every `<`
      is closed. */
  lemma ParseBalanced(input: string)
    requires ParseTypeTag(input).Ok?
    ensures Walk(Trim(input), 0) == Some(0)
    ensures Walk(input, 0) == Some(0)
  {
    ParseTrimmedBalanced(Trim(input));
    WalkPadded(input);
  }

  /** `ParseBalanced` as an implication, for case splits on balance. */
  lemma ParseOkBalanced(input: string)
    ensures ParseTypeTag(input).Ok? ==> Walk(input, 0) == Some(0)
  {
    if ParseTypeTag(input).Ok? {
      ParseBalanced(input);
    }
  }

  lemma ParseTrimmedBalanced(s: string)
    ensures ParseTrimmed(s).Ok? ==> Walk(s, 0) == Some(0)
  {
    if s == "bool" || s == "u8" || s == "u64" || s == "u128" || s == "address" {
      assert Plain(s);
      WalkPlain(s, 0);
    } else if |s| >= 6 && s[..6] == "vector" {
      var rest := Trim(s[6..]);
      if |rest| >= 2 && rest[0] == '<' && CloseIndex(rest[1..], 1) == |rest| - 2 {
        assert Walk(rest, 0) == Some(0) by {
          BracketedBalanced(rest);
        }
        WalkPadded(s[6..]);
        assert Plain("vector");
        assert s == "vector" + s[6..];
        WalkAfterPlain("vector", s[6..]);
      }
    } else {
      assert ParseTrimmed(s) == ParseStruct(s);
      ParseStructBalanced(s);
    }
  }

  /** `<inner>` whose `<` is closed by its last character is balanced. */
  lemma BracketedBalanced(rest: string)
    requires |rest| >= 2 && rest[0] == '<' && CloseIndex(rest[1..], 1) == |rest| - 2
    ensures Walk(rest, 0) == Some(0)
  {
    var inner := rest[1..|rest| - 1];
    CloseIndexBalanced(rest[1..], 1);
    assert rest[1..][..|rest| - 2] == inner;
    assert rest == "" + "<" + inner + ">";
    WalkBracketed("", inner);
  }

  lemma ParseStructBalanced(s: string)
    ensures ParseStruct(s).Ok? ==> Walk(s, 0) == Some(0)
  {
    var i := FindSeparator(s);
    if i < |s| {
      var tail := s[i + 2..];
      var j := FindSeparator(tail);
      if j < |tail| {
        var address := ParseAddress(Trim(s[..i]));
        var moduleName := Trim(tail[..j]);
        var rest := tail[j + 2..];
        if address.Ok? && IsIdentifier(moduleName) {
          assert ParseStruct(s) == ParseNamed(address.value, moduleName, rest) by {
            ParseStructStep(s, i, j);
          }
          if ParseNamed(address.value, moduleName, rest).Ok? {
            assert Walk(s, 0) == Some(0) by {
              assert Walk(rest, 0) == Some(0) by {
                ParseNamedBalanced(address.value, moduleName, rest);
              }
              assert Plain(tail[..j]) by {
                IdentifierShape(moduleName);
                PlainPadded(tail[..j]);
              }
              assert Plain(s[..i]) by {
                AddressPlain(Trim(s[..i]));
                PlainPadded(s[..i]);
              }
              FindSeparatorFirst(s);
              FindSeparatorFirst(tail);
              SeparatedBalanced(tail, j);
              SeparatedBalanced(s, i);
            }
          }
        } else {
          ParseStructBadHeadStep(s, i, j);
        }
      } else {
        ParseStructMissingStep(s, i);
      }
    } else {
      ParseStructNoSeparatorStep(s);
    }
  }

  /** Plain text, `::`, then balanced text: balanced. */
  lemma SeparatedBalanced(s: string, i: nat)
    requires i + 1 < |s| && s[i] == ':' && s[i + 1] == ':'
    requires Plain(s[..i]) && Walk(s[i + 2..], 0) == Some(0)
    ensures Walk(s, 0) == Some(0)
  {
    var p := s[..i + 2];
    forall k | 0 <= k < |p|
      ensures p[k] != '<' && p[k] != '>' && p[k] != ','
    {
      if k < i {
        assert p[k] == s[..i][k];
      }
    }
    assert s == p + s[i + 2..];
    WalkAfterPlain(p, s[i + 2..]);
  }

  lemma ParseNamedBalanced(address: AccountAddress, moduleName: string, rest: string)
    requires IsIdentifier(moduleName) && ParseNamed(address, moduleName, rest).Ok?
    ensures Walk(rest, 0) == Some(0)
  {
    var k := FindChar(rest, '<');
    assert IsIdentifier(Trim(rest[..k]));
    assert k < |rest| ==> CloseIndex(rest[k + 1..], 1) == |rest| - k - 2;
    assert Plain(rest[..k]) by {
      IdentifierShape(Trim(rest[..k]));
      PlainPadded(rest[..k]);
    }
    FindCharFirst(rest, '<');
    NamedBalanced(rest, k);
  }

  /** Plain text, optionally followed by `<inner>` whose `<` its last character closes: balanced. */
  lemma NamedBalanced(rest: string, k: nat)
    requires k <= |rest| && Plain(rest[..k])
    requires k < |rest| ==> rest[k] == '<' && CloseIndex(rest[k + 1..], 1) == |rest| - k - 2
    ensures Walk(rest, 0) == Some(0)
  {
    if k == |rest| {
      assert rest == rest[..k];
      WalkPlain(rest, 0);
    } else {
      var head, body := rest[..k], rest[k + 1..];
      assert rest == head + ("<" + body) by {
        SplitAt(rest, k);
        assert rest[k..] == "<" + body;
      }
      BracketedAfterPlain(head, body);
    }
  }

  /** Plain text, then `<` and text whose last character closes it: balanced. */
  lemma BracketedAfterPlain(head: string, body: string)
    requires Plain(head) && |body| >= 1 && CloseIndex(body, 1) == |body| - 1
    ensures Walk(head + ("<" + body), 0) == Some(0)
  {
    var inner := body[..|body| - 1];
    assert body == inner + ">" && Walk(inner, 0) == Some(0) by {
      CloseIndexBalanced(body, 1);
      SplitAt(body, |body| - 1);
      assert body[|body| - 1..] == ">";
    }
    assert Walk(head + "<" + inner + ">", 0) == Some(0) by {
      WalkBracketed(head, inner);
    }
    Group4(head, "<", inner, ">");
  }

  /** An address in hex holds no bracket or comma. */
  lemma AddressPlain(s: string)
    requires IsHexAddress(s)
    ensures Plain(s)
  {
    var d := Digits(s);
    forall k | 0 <= k < |s|
      ensures s[k] != '<' && s[k] != '>' && s[k] != ','
    {
      if d == s {
        assert IsHexDigit(d[k]);
      } else if k >= 2 {
        assert s[k] == d[k - 2];
        assert IsHexDigit(d[k - 2]);
      } else {
        assert s[k] == s[..2][k];
      }
    }
  }

  // ---------------------------------------------------------------------
  // Whole signatures of the shapes the tests use.
  // ---------------------------------------------------------------------

  /** The empty signature is malformed. */
  lemma ParseEmpty()
    ensures ParseTypeTag("") == Err(InvalidStructTag)
  {
    assert Trim("") == "";
  }

  /** `address::module::Name` parses to that struct with no type arguments. */
  lemma ParsePlainStruct(a: string, m: string, n: string)
    requires StructHead(a, m) && IsIdentifier(n)
    ensures ParseTypeTag(a + "::" + m + "::" + n)
            == Ok(Struct(ParseAddress(Trim(a)).value, Trim(m), n, []))
  {
    IdentifierShape(n);
    EndsShape(a, m, n);
    HexNotSpace(a[0]);
    ParseStructHead(a, m, n);
    ParseNamedPlain(ParseAddress(Trim(a)).value, Trim(m), n);
  }

  /** A signature with a single `::` is not a struct tag, and fails. */
  lemma ParseMissingSeparator(a: string, m: string)
    requires |a| > 0 && IsHexDigit(a[0]) && NoColon(a) && NoColon(m)
    requires Trimmed(a + "::" + m)
    ensures ParseTypeTag(a + "::" + m) == Err(InvalidStructTag)
  {
    var s := a + "::" + m;
    SeparatorShape(a, m);
    FindSeparatorAbsent(m);
    ParseTrimmedFixed(s);
    ParseTrimmedStruct(s, |a|);
    ParseStructMissingStep(s, |a|);
  }

  /** A `<` after the name that is never closed makes the signature fail. */
  lemma ParseNamedUnclosed(address: AccountAddress, moduleName: string, n: string, body: string)
    requires IsIdentifier(moduleName)
    requires forall i :: 0 <= i < |n| ==> n[i] != '<'
    requires Walk(body, 0).Some?
    ensures ParseNamed(address, moduleName, n + "<" + body) == Err(InvalidStructTag)
  {
    UnclosedTextShape(n, body);
    ParseNamedUnclosedStep(address, moduleName, n + "<" + body, |n|);
  }

  /** An empty argument list `<>` is malformed. */
  lemma ParseNamedEmptyList(address: AccountAddress, moduleName: string, n: string)
    requires IsIdentifier(moduleName) && IsIdentifier(Trim(n))
    requires forall i :: 0 <= i < |n| ==> n[i] != '<'
    ensures ParseNamed(address, moduleName, n + "<" + "" + ">") == Err(InvalidStructTag)
  {
    ParseNamedGeneric(address, moduleName, n, "");
    ParseArgListSingleStep("");
    ParseEmpty();
  }
}
