/** The character-level scanning the type-signature parser is built from:
    whitespace trimming, finding the `::` separator and the `<` of a generic
    argument list, and the depth-counted search for the matching `>` and for
    the commas that split an argument list at its own nesting level. */
module Text {
  import opened Results
  import opened Seqs

  /** The characters JavaScript's `String.prototype.trim` removes: white space
      and line terminators. */
  predicate IsSpace(c: char)
  {
    var k := c as int;
    k == 0x20 || 0x09 <= k <= 0x0D || k == 0xA0 || k == 0x1680 || 0x2000 <= k <= 0x200A
    || k == 0x2028 || k == 0x2029 || k == 0x202F || k == 0x205F || k == 0x3000 || k == 0xFEFF
  }

  predicate AllSpace(s: string)
  {
    forall i :: 0 <= i < |s| ==> IsSpace(s[i])
  }

  /** `s` neither starts nor ends with white space. */
  predicate Trimmed(s: string)
  {
    |s| == 0 || (!IsSpace(s[0]) && !IsSpace(s[|s| - 1]))
  }

  function TrimStart(s: string): (r: string)
    ensures |r| <= |s|
  {
    if |s| > 0 && IsSpace(s[0]) then TrimStart(s[1..]) else s
  }

  function TrimEnd(s: string): (r: string)
    ensures |r| <= |s|
  {
    if |s| > 0 && IsSpace(s[|s| - 1]) then TrimEnd(s[..|s| - 1]) else s
  }

  /** `s` without its leading and trailing white space. */
  function Trim(s: string): (r: string)
    ensures |r| <= |s|
  {
    TrimEnd(TrimStart(s))
  }

  /** Trimming the start removes a run of white space and stops at the first other character. */
  lemma {:induction false} TrimStartShape(s: string)
    ensures var r := TrimStart(s);
      && r == s[|s| - |r|..]
      && AllSpace(s[..|s| - |r|])
      && (|r| == 0 || !IsSpace(r[0]))
  {
    if |s| > 0 && IsSpace(s[0]) {
      TrimStartShape(s[1..]);
    }
  }

  /** Trimming the end removes a run of white space and stops at the last other character. */
  lemma {:induction false} TrimEndShape(s: string)
    ensures var r := TrimEnd(s);
      && r == s[..|r|]
      && AllSpace(s[|r|..])
      && (|r| == 0 || !IsSpace(r[|r| - 1]))
  {
    if |s| > 0 && IsSpace(s[|s| - 1]) {
      TrimEndShape(s[..|s| - 1]);
      assert s[|TrimEnd(s)|..] == s[..|s| - 1][|TrimEnd(s)|..] + [s[|s| - 1]];
    }
  }

  lemma {:induction false} TrimStartPadded(w: string, s: string)
    requires AllSpace(w)
    requires |s| == 0 || !IsSpace(s[0])
    ensures TrimStart(w + s) == s
  {
    if |w| > 0 {
      assert (w + s)[1..] == w[1..] + s;
      TrimStartPadded(w[1..], s);
    } else {
      assert w + s == s;
    }
  }

  lemma {:induction false} TrimEndPadded(s: string, w: string)
    requires AllSpace(w)
    requires |s| == 0 || !IsSpace(s[|s| - 1])
    ensures TrimEnd(s + w) == s
  {
    if |w| > 0 {
      assert (s + w)[..|s + w| - 1] == s + w[..|w| - 1];
      TrimEndPadded(s, w[..|w| - 1]);
    } else {
      assert s + w == s;
    }
  }

  /** Trimming strips exactly the white space around a string that has none at its ends. */
  lemma TrimPadded(w1: string, s: string, w2: string)
    requires AllSpace(w1) && AllSpace(w2) && Trimmed(s)
    ensures Trim(w1 + s + w2) == s
  {
    assert w1 + s + w2 == w1 + (s + w2);
    if |s| == 0 {
      assert AllSpace(s + w2);
      assert AllSpace(w1 + (s + w2));
      TrimStartPadded(w1 + (s + w2), "");
      assert w1 + (s + w2) + "" == w1 + (s + w2);
    } else {
      TrimStartPadded(w1, s + w2);
      TrimEndPadded(s, w2);
    }
  }

  /** White space around any string does not change what trimming gives. */
  lemma TrimIgnoresPadding(w1: string, s: string, w2: string)
    requires AllSpace(w1) && AllSpace(w2)
    ensures Trim(w1 + s + w2) == Trim(s)
  {
    var lead, trail := TrimSplit(s);
    var t := Trim(s);
    AllSpaceAppend(w1, lead);
    AllSpaceAppend(trail, w2);
    assert w1 + s + w2 == (w1 + lead) + t + (trail + w2) by {
      Regroup(w1, lead, t, trail, w2);
    }
    TrimPadded(w1 + lead, t, trail + w2);
  }

  /** Every string is its trimmed form with white space on either side. */
  lemma TrimSplit(s: string) returns (lead: string, trail: string)
    ensures s == lead + (Trim(s) + trail)
    ensures AllSpace(lead) && AllSpace(trail) && Trimmed(Trim(s))
  {
    var a := TrimStart(s);
    var t := TrimEnd(a);
    lead := TrimStartSplit(s);
    trail := TrimEndSplit(a);
    assert |t| == 0 || t[0] == a[0] by {
      if |t| > 0 {
        assert a == t + trail;
        assert a[0] == (t + trail)[0];
      }
    }
  }

  /** A string is the white space trimming removes from its start, then what remains. */
  lemma TrimStartSplit(s: string) returns (lead: string)
    ensures s == lead + TrimStart(s) && AllSpace(lead)
    ensures |TrimStart(s)| == 0 || !IsSpace(TrimStart(s)[0])
  {
    var a := TrimStart(s);
    lead := s[..|s| - |a|];
    assert AllSpace(lead) && a == s[|s| - |a|..] && (|a| == 0 || !IsSpace(a[0])) by {
      TrimStartShape(s);
    }
    SplitAt(s, |s| - |a|);
  }

  /** A string is what trimming its end keeps, then the white space it removes. */
  lemma TrimEndSplit(a: string) returns (trail: string)
    ensures a == TrimEnd(a) + trail && AllSpace(trail)
    ensures |TrimEnd(a)| == 0 || !IsSpace(TrimEnd(a)[|TrimEnd(a)| - 1])
  {
    var t := TrimEnd(a);
    trail := a[|t|..];
    assert AllSpace(trail) && t == a[..|t|] && (|t| == 0 || !IsSpace(t[|t| - 1])) by {
      TrimEndShape(a);
    }
    SplitAt(a, |t|);
  }

  lemma AllSpaceAppend(a: string, b: string)
    requires AllSpace(a) && AllSpace(b)
    ensures AllSpace(a + b)
  {
    forall i | 0 <= i < |a + b|
      ensures IsSpace((a + b)[i])
    {
      if i < |a| {
        assert (a + b)[i] == a[i];
      } else {
        assert (a + b)[i] == b[i - |a|];
      }
    }
  }

  lemma TrimFixed(s: string)
    requires Trimmed(s)
    ensures Trim(s) == s
  {
    Empty(s);
    TrimPadded([], s, []);
  }

  lemma TrimLeading(w: string, s: string)
    requires AllSpace(w) && Trimmed(s)
    ensures Trim(w + s) == s
  {
    Empty(w + s);
    TrimPadded(w, s, []);
  }

  /** Index of the first `::` in `s`, or `|s|` when there is none. */
  function FindSeparator(s: string): (r: nat)
    ensures r <= |s|
    ensures r < |s| ==> r + 1 < |s|
  {
    if |s| < 2 then |s|
    else if s[0] == ':' && s[1] == ':' then 0
    else
      var r := FindSeparator(s[1..]);
      if r == |s| - 1 then |s| else 1 + r
  }

  /** The separator found is the first `::` of `s`. */
  lemma {:induction false} FindSeparatorFirst(s: string)
    ensures var r := FindSeparator(s);
      && (r < |s| ==> s[r] == ':' && s[r + 1] == ':')
      && forall i :: 0 <= i < r && i + 1 < |s| ==> !(s[i] == ':' && s[i + 1] == ':')
  {
    if |s| >= 2 && !(s[0] == ':' && s[1] == ':') {
      FindSeparatorFirst(s[1..]);
      assert forall i :: 1 <= i < |s| ==> s[i] == s[1..][i - 1];
    }
  }

  /** Index of the first `c` in `s`, or `|s|` when there is none. */
  function FindChar(s: string, c: char): (r: nat)
    ensures r <= |s|
  {
    if |s| == 0 then 0
    else if s[0] == c then 0
    else 1 + FindChar(s[1..], c)
  }

  /** The index found is that of the first `c` in `s`. */
  lemma {:induction false} FindCharFirst(s: string, c: char)
    ensures var r := FindChar(s, c);
      && (r < |s| ==> s[r] == c)
      && forall i :: 0 <= i < r ==> s[i] != c
  {
    if |s| > 0 && s[0] != c {
      FindCharFirst(s[1..], c);
    }
  }

  /** Without any `c` in `s`, the search runs to the end. */
  lemma {:induction false} FindCharAbsent(s: string, c: char)
    requires forall i :: 0 <= i < |s| ==> s[i] != c
    ensures FindChar(s, c) == |s|
  {
    if |s| > 0 {
      FindCharAbsent(s[1..], c);
    }
  }

  predicate NoColon(s: string)
  {
    forall i :: 0 <= i < |s| ==> s[i] != ':'
  }

  /** `s` holds none of the characters that structure a generic argument list. */
  predicate Plain(s: string)
  {
    forall i :: 0 <= i < |s| ==> s[i] != '<' && s[i] != '>' && s[i] != ','
  }

  lemma {:induction false} FindSeparatorSkips(x: string, y: string)
    requires NoColon(x)
    ensures FindSeparator(x + y) == |x| + FindSeparator(y)
  {
    if |x| == 0 {
      assert x + y == y;
    } else if |x + y| >= 2 {
      assert (x + y)[0] == x[0];
      assert (x + y)[1..] == x[1..] + y;
      FindSeparatorSkips(x[1..], y);
    }
  }

  lemma {:induction false} FindCharSkips(x: string, y: string, c: char)
    requires forall i :: 0 <= i < |x| ==> x[i] != c
    ensures FindChar(x + y, c) == |x| + FindChar(y, c)
  {
    if |x| == 0 {
      assert x + y == y;
    } else {
      assert (x + y)[0] == x[0];
      assert (x + y)[1..] == x[1..] + y;
      FindCharSkips(x[1..], y, c);
    }
  }

  /** The change of nesting depth one character makes. */
  function Step(c: char, depth: int): (r: int)
  {
    if c == '<' then depth + 1 else if c == '>' then depth - 1 else depth
  }

  /** The depth after reading `s` from `depth`, or None if a `>` closes a bracket
      that was never opened. */
  function Walk(s: string, depth: nat): (r: Option<nat>)
  {
    if |s| == 0 then Some(depth)
    else if s[0] == '>' && depth == 0 then None
    else Walk(s[1..], Step(s[0], depth))
  }

  /** Reading `s` from the inside of `depth` open brackets (`depth >= 1`), the
      index of the `>` that closes the outermost of them, or `|s|` if none does.
      The text before that `>` is itself balanced. */
  function CloseIndex(s: string, depth: nat): (r: nat)
    requires depth >= 1
    ensures r <= |s|
  {
    if |s| == 0 then 0
    else if s[0] == '>' && depth == 1 then 0
    else 1 + CloseIndex(s[1..], Step(s[0], depth))
  }

  /** The closing `>` found ends a balanced run of text. */
  lemma {:induction false} CloseIndexBalanced(s: string, depth: nat)
    requires depth >= 1
    ensures var r := CloseIndex(s, depth);
      r < |s| ==> s[r] == '>' && Walk(s[..r], depth - 1) == Some(0)
  {
    if |s| > 0 && !(s[0] == '>' && depth == 1) {
      var r := CloseIndex(s, depth);
      CloseIndexBalanced(s[1..], Step(s[0], depth));
      if r < |s| {
        assert s[..r][1..] == s[1..][..r - 1];
      }
    }
  }

  /** Reading `s` at nesting `depth`, the index of the first `,` met at depth 0,
      or `|s|` if there is none. */
  function CommaIndex(s: string, depth: int): (r: nat)
    ensures r <= |s|
  {
    if |s| == 0 then 0
    else if s[0] == ',' && depth == 0 then 0
    else 1 + CommaIndex(s[1..], Step(s[0], depth))
  }

  /** No comma of `s` is at bracket depth 0: before each comma, the text read so
      far is not a balanced run. */
  predicate NoTopLevelComma(s: string)
  {
    NoCommaAtZero(s, 0)
  }

  /** Read from `depth` open brackets on, no comma of `s` is met at depth 0. */
  predicate NoCommaAtZero(s: string, depth: nat)
  {
    forall i :: 0 <= i < |s| && s[i] == ',' ==> Walk(s[..i], depth) != Some(0)
  }

  /** The comma scanner passes over every comma that is not at depth 0, so it
      stops no earlier than the end of a text without a top-level comma. */
  lemma {:induction false} CommaIndexSkips(x: string, y: string, depth: nat)
    requires Walk(x, depth).Some? && NoCommaAtZero(x, depth)
    ensures CommaIndex(x + y, depth) == |x| + CommaIndex(y, Walk(x, depth).value)
  {
    if |x| > 0 {
      assert x[..0] == [];
      assert Walk(x[..0], depth) == Some(depth);
      var next := Step(x[0], depth);
      assert next >= 0;
      forall i | 0 <= i < |x[1..]| && x[1..][i] == ','
        ensures Walk(x[1..][..i], next) != Some(0)
      {
        assert x[..i + 1][1..] == x[1..][..i];
        assert x[i + 1] == ',';
      }
      assert (x + y)[0] == x[0];
      assert (x + y)[1..] == x[1..] + y;
      CommaIndexSkips(x[1..], y, next);
    } else {
      assert x + y == y;
    }
  }

  /** Text with no top-level comma is read to its end. */
  lemma CommaIndexNone(x: string)
    requires Walk(x, 0).Some? && NoTopLevelComma(x)
    ensures CommaIndex(x, 0) == |x|
  {
    Empty(x);
    CommaIndexSkips(x, [], 0);
  }

  /** A balanced run with no top-level comma, then a comma: that comma is the
      first one at depth 0. */
  lemma CommaIndexFirst(x: string, y: string)
    requires Walk(x, 0) == Some(0) && NoTopLevelComma(x)
    ensures CommaIndex(x + "," + y, 0) == |x|
  {
    Group3(x, ",", y);
    CommaIndexSkips(x, "," + y, 0);
    assert ("," + y)[0] == ',';
  }

  lemma {:induction false} WalkAppend(x: string, y: string, depth: nat)
    ensures Walk(x + y, depth) == (match Walk(x, depth) case None => None case Some(e) => Walk(y, e))
  {
    if |x| > 0 {
      assert (x + y)[1..] == x[1..] + y;
      if !(x[0] == '>' && depth == 0) {
        WalkAppend(x[1..], y, Step(x[0], depth));
      }
    } else {
      assert x + y == y;
    }
  }

  lemma {:induction false} WalkShift(x: string, depth: nat, m: nat)
    requires Walk(x, depth).Some?
    ensures Walk(x, depth + m) == Some(Walk(x, depth).value + m)
  {
    if |x| > 0 {
      WalkShift(x[1..], Step(x[0], depth), m);
    }
  }

  lemma {:induction false} WalkPlain(x: string, depth: nat)
    requires Plain(x)
    ensures Walk(x, depth) == Some(depth)
  {
    if |x| > 0 {
      WalkPlain(x[1..], depth);
    }
  }

  /** Plain text in front changes nothing about the depth reached. */
  lemma WalkAfterPlain(p: string, y: string)
    requires Plain(p)
    ensures Walk(p + y, 0) == Walk(y, 0)
  {
    WalkPlain(p, 0);
    WalkAppend(p, y, 0);
  }

  lemma SpacePlain(w: string)
    requires AllSpace(w)
    ensures Plain(w)
  {
    forall i | 0 <= i < |w|
      ensures w[i] != '<' && w[i] != '>' && w[i] != ','
    {
      assert IsSpace(w[i]);
    }
  }

  /** White space around plain text leaves it plain. */
  lemma PlainPadded(x: string)
    requires Plain(Trim(x))
    ensures Plain(x)
  {
    var lead, trail := TrimSplit(x);
    SpacePlain(lead);
    SpacePlain(trail);
    PlainAppend(Trim(x), trail);
    PlainAppend(lead, Trim(x) + trail);
  }

  /** White space around balanced text leaves it balanced. */
  lemma WalkPadded(x: string)
    requires Walk(Trim(x), 0) == Some(0)
    ensures Walk(x, 0) == Some(0)
  {
    var lead, trail := TrimSplit(x);
    SpacePlain(lead);
    SpacePlain(trail);
    assert Walk(Trim(x) + trail, 0) == Some(0) by {
      WalkAppend(Trim(x), trail, 0);
      WalkPlain(trail, 0);
    }
    WalkAfterPlain(lead, Trim(x) + trail);
  }

  /** A balanced run of text followed by `>` is closed by exactly that `>`. */
  lemma {:induction false} CloseAfterBalanced(x: string, y: string, k: nat)
    requires Walk(x, k) == Some(0)
    ensures CloseIndex(x + ">" + y, k + 1) == |x|
  {
    var s := x + ">" + y;
    if |x| > 0 {
      assert s[0] == x[0];
      assert s[1..] == x[1..] + ">" + y;
      CloseAfterBalanced(x[1..], y, Step(x[0], k));
    }
  }

  lemma CloseAtEnd(x: string, k: nat)
    requires Walk(x, k) == Some(0)
    ensures CloseIndex(x + ">", k + 1) == |x|
  {
    Empty(x + ">");
    CloseAfterBalanced(x, [], k);
  }

  /** Text read inside at least one open bracket holds no top-level comma. */
  lemma {:induction false} CommaInsideBrackets(x: string, y: string, k: nat)
    requires Walk(x, k).Some?
    ensures CommaIndex(x + y, k + 1) == |x| + CommaIndex(y, Walk(x, k).value + 1)
  {
    if |x| > 0 {
      assert (x + y)[0] == x[0];
      assert (x + y)[1..] == x[1..] + y;
      CommaInsideBrackets(x[1..], y, Step(x[0], k));
    } else {
      assert x + y == y;
    }
  }

  lemma {:induction false} CommaSkipsPlain(x: string, y: string, depth: int)
    requires Plain(x)
    ensures CommaIndex(x + y, depth) == |x| + CommaIndex(y, depth)
  {
    if |x| > 0 {
      assert (x + y)[0] == x[0];
      assert (x + y)[1..] == x[1..] + y;
      CommaSkipsPlain(x[1..], y, depth);
    } else {
      assert x + y == y;
    }
  }

  lemma PlainAppend(x: string, y: string)
    requires Plain(x) && Plain(y)
    ensures Plain(x + y)
  {
    forall i | 0 <= i < |x + y|
      ensures (x + y)[i] != '<' && (x + y)[i] != '>' && (x + y)[i] != ','
    {
      if i < |x| {
        assert (x + y)[i] == x[i];
      } else {
        assert (x + y)[i] == y[i - |x|];
      }
    }
  }

  /** Plain text followed by a bracketed balanced run is balanced. */
  lemma WalkBracketed(p: string, inner: string)
    requires Plain(p) && Walk(inner, 0) == Some(0)
    ensures Walk(p + "<" + inner + ">", 0) == Some(0)
  {
    WalkPlain(p, 0);
    WalkAppend(p, "<", 0);
    WalkShift(inner, 0, 1);
    WalkAppend(p + "<", inner, 0);
    WalkAppend(p + "<" + inner, ">", 0);
  }

  /** The only commas of a bracketed run that lie at its own level are after it. */
  lemma CommaBracketed(p: string, inner: string, y: string)
    requires Plain(p) && Walk(inner, 0) == Some(0)
    ensures CommaIndex(p + "<" + inner + ">" + y, 0) == |p| + |inner| + 2 + CommaIndex(y, 0)
  {
    var z := ">" + y;
    Group5(p, "<", inner, ">", y);
    CommaSkipsPlain(p, "<" + (inner + z), 0);
    assert ("<" + (inner + z))[1..] == inner + z;
    CommaInsideBrackets(inner, z, 0);
    assert z[1..] == y;
  }

  /** Without any `::` in `s`, the search runs to the end. */
  lemma {:induction false} FindSeparatorAbsent(s: string)
    requires NoColon(s)
    ensures FindSeparator(s) == |s|
  {
    if |s| >= 2 {
      FindSeparatorAbsent(s[1..]);
    }
  }

  /** Text that never drops below its starting depth closes none of the brackets open before it. */
  lemma {:induction false} CloseIndexUnclosed(s: string, k: nat)
    requires Walk(s, k).Some?
    ensures CloseIndex(s, k + 1) == |s|
  {
    if |s| > 0 {
      CloseIndexUnclosed(s[1..], Step(s[0], k));
    }
  }

  /** Plain text holds no comma at any level. */
  lemma CommaIndexPlain(s: string, depth: int)
    requires Plain(s)
    ensures CommaIndex(s, depth) == |s|
  {
    Empty(s);
    CommaSkipsPlain(s, [], depth);
  }

  /** Two plain runs joined by a comma split at that comma, and only there. */
  lemma CommaSplitPlain(x: string, y: string)
    requires Plain(x) && Plain(y)
    ensures Walk(x + "," + y, 0) == Some(0)
    ensures CommaIndex(x + "," + y, 0) == |x| && CommaIndex(y, 0) == |y|
  {
    WalkPlain(x, 0);
    WalkAppend(x, ",", 0);
    WalkAppend(x + ",", y, 0);
    WalkPlain(y, 0);
    CommaAfterPlain(x, y);
    CommaIndexPlain(y, 0);
  }

  lemma CommaAfterPlain(x: string, y: string)
    requires Plain(x)
    ensures CommaIndex(x + "," + y, 0) == |x|
  {
    Group3(x, ",", y);
    CommaSkipsPlain(x, "," + y, 0);
    assert ("," + y)[0] == ',';
  }
}
