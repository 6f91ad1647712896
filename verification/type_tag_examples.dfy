/** The type signatures of the transaction-builder tests, and what each parses to.
    Long signatures are matched to the pieces the general parser lemmas speak
    about by separate lemmas that only compare strings. */
module TypeTagExamples {
  import opened Results
  import opened Seqs
  import opened Text
  import opened AccountAddresses
  import opened TypeTags
  import opened TypeTagParser

  /** The address `0x1`: fifteen zero bytes and a one. */
  const One: AccountAddress := seq(AddressLength - 1, _ => 0) + [1]

  /** `0x1::<m>::<n>`. */
  function Qualified(m: string, n: string): (r: string)
  {
    "0x1" + "::" + m + "::" + n
  }

  lemma ParseOne()
    ensures ParseAddress("0x1") == Ok(One)
  {
    ParseAddressDigit('1');
    assert "0x" + ['1'] == "0x1";
  }

  // ---------------------------------------------------------------------
  // Scalars and vectors.
  // ---------------------------------------------------------------------

  lemma ParseBool()
    ensures ParseTypeTag("bool") == Ok(Bool)
  {
    ParseTrimmedFixed("bool");
  }

  lemma ParseU8()
    ensures ParseTypeTag("u8") == Ok(U8)
  {
    ParseTrimmedFixed("u8");
  }

  lemma ParseU64()
    ensures ParseTypeTag("u64") == Ok(U64)
  {
    ParseTrimmedFixed("u64");
  }

  lemma ParseU128()
    ensures ParseTypeTag("u128") == Ok(U128)
  {
    ParseTrimmedFixed("u128");
  }

  lemma ParseAddressKeyword()
    ensures ParseTypeTag("address") == Ok(Address)
  {
    ParseTrimmedFixed("address");
  }

  lemma ParseVectorAddress()
    ensures ParseTypeTag("vector<address>") == Ok(Vector(Address))
  {
    ParseAddressKeyword();
    WalkPlain("address", 0);
    ParseVectorText("", "address");
    VectorAddressText();
  }

  lemma ParseSpacedU64()
    ensures ParseTypeTag(" u64 ") == Ok(U64)
  {
    SpacedVectorText();
    ParseIgnoresPadding(" ", "u64", " ");
    ParseU64();
  }

  /** White space around `vector`, its brackets and its element does not matter. */
  lemma ParseSpacedVector()
    ensures ParseTypeTag(" vector < u64 > ") == Ok(Vector(U64))
  {
    SpacedVectorText();
    ParseIgnoresPadding(" ", "vector" + " " + "<" + " u64 " + ">", " ");
    WalkPlain(" u64 ", 0);
    ParseVectorText(" ", " u64 ");
    ParseSpacedU64();
  }

  // ---------------------------------------------------------------------
  // Structs at address 0x1.
  // ---------------------------------------------------------------------

  lemma TestCoinHead()
    ensures StructHead("0x1", "TestCoin") && Trim("0x1") == "0x1" && Trim("TestCoin") == "TestCoin"
  {
    TrimFixed("0x1");
    TrimFixed("TestCoin");
    assert "0x1"[..2] == "0x";
  }

  lemma CoinHead()
    ensures StructHead("0x1", "Coin") && Trim("0x1") == "0x1" && Trim("Coin") == "Coin"
  {
    TrimFixed("0x1");
    TrimFixed("Coin");
    assert "0x1"[..2] == "0x";
  }

  lemma QualifiedTrimmed(m: string, n: string)
    requires |n| > 0 && !IsSpace(n[|n| - 1])
    ensures Trimmed(Qualified(m, n))
  {
    EndsShape("0x1", m, n);
  }

  lemma QualifiedPlain(m: string, n: string)
    requires Plain(m) && Plain(n)
    ensures Plain(Qualified(m, n))
  {
    assert Plain("0x1") && Plain("::");
    PlainAppend("0x1", "::");
    PlainAppend("0x1" + "::", m);
    PlainAppend("0x1" + "::" + m, "::");
    PlainAppend("0x1" + "::" + m + "::", n);
  }

  /** Appending to the name of `0x1::<m>::<p>` appends to the signature. */
  lemma QualifiedAppend(m: string, p: string, q: string)
    ensures Qualified(m, p) + q == Qualified(m, p + q)
  {
    Group3("0x1" + "::" + m + "::", p, q);
  }

  /** `0x1::TestCoin::<n>` is the struct `n` of module `TestCoin` at address `0x1`. */
  lemma ParseTestCoin(n: string)
    requires IsIdentifier(n)
    ensures ParseTypeTag(Qualified("TestCoin", n)) == Ok(Struct(One, "TestCoin", n, []))
  {
    TestCoinHead();
    ParseOne();
    ParsePlainStruct("0x1", "TestCoin", n);
  }

  lemma ParseCoin()
    ensures ParseTypeTag("0x1::TestCoin::Coin") == Ok(Struct(One, "TestCoin", "Coin", []))
  {
    CoinText();
    ParseTestCoin("Coin");
  }

  // ---------------------------------------------------------------------
  // 0x1::Coin::CoinStore < 0x1::TestCoin::TestCoin1 ,  0x1::TestCoin::TestCoin2 >
  // ---------------------------------------------------------------------

  /** The generic signature of the test, cut where the parser cuts it. */
  lemma CoinStoreText(x: string, y: string)
    requires x == " 0x1::TestCoin::TestCoin1 " && y == "  0x1::TestCoin::TestCoin2 "
    ensures "0x1::Coin::CoinStore < 0x1::TestCoin::TestCoin1 ,  0x1::TestCoin::TestCoin2 > "
         == Qualified("Coin", "CoinStore " + "<" + (x + "," + y) + ">") + " "
  {
    CoinStoreHalves();
    CoinStoreFirstHalf();
    CoinStoreSecondHalf();
    CoinStoreHeadText();
    CoinStoreRegroup("0x1" + "::" + "Coin" + "::", "CoinStore " + "<", x, ",", y, ">", " ");
  }

  lemma ParsePaddedTestCoin(w1: string, n: string, w2: string)
    requires AllSpace(w1) && AllSpace(w2) && IsIdentifier(n)
    ensures ParseTypeTag(w1 + Qualified("TestCoin", n) + w2) == Ok(Struct(One, "TestCoin", n, []))
  {
    ParseIgnoresPadding(w1, Qualified("TestCoin", n), w2);
    ParseTestCoin(n);
  }

  lemma PaddedPlain(w1: string, s: string, w2: string)
    requires Plain(w1) && Plain(s) && Plain(w2)
    ensures Plain(w1 + s + w2)
  {
    PlainAppend(w1, s);
    PlainAppend(w1 + s, w2);
  }

  lemma PlainTestCoins()
    ensures Plain(Qualified("TestCoin", "TestCoin1")) && Plain(Qualified("TestCoin", "TestCoin2"))
    ensures IsIdentifier("TestCoin1") && IsIdentifier("TestCoin2")
  {
    assert IsIdentifier("TestCoin") && IsIdentifier("TestCoin1") && IsIdentifier("TestCoin2");
    IdentifierShape("TestCoin");
    IdentifierShape("TestCoin1");
    IdentifierShape("TestCoin2");
    QualifiedPlain("TestCoin", "TestCoin1");
    QualifiedPlain("TestCoin", "TestCoin2");
  }

  lemma CoinStoreArgsShape(x: string, y: string)
    requires x == " " + Qualified("TestCoin", "TestCoin1") + " "
    requires y == "  " + Qualified("TestCoin", "TestCoin2") + " "
    ensures Plain(x) && Plain(y)
  {
    PlainTestCoins();
    assert Plain(" ") && Plain("  ");
    PaddedPlain(" ", Qualified("TestCoin", "TestCoin1"), " ");
    PaddedPlain("  ", Qualified("TestCoin", "TestCoin2"), " ");
  }

  /** The two arguments, split at the comma between them. */
  lemma ParseCoinStoreArgs(x: string, y: string)
    requires x == " " + Qualified("TestCoin", "TestCoin1") + " "
    requires y == "  " + Qualified("TestCoin", "TestCoin2") + " "
    ensures ParseArgList(x + "," + y)
            == Ok([Struct(One, "TestCoin", "TestCoin1", []), Struct(One, "TestCoin", "TestCoin2", [])])
  {
    CoinStoreArgsShape(x, y);
    CommaSplitPlain(x, y);
    PlainTestCoins();
    assert AllSpace(" ") && AllSpace("  ");
    ParsePaddedTestCoin(" ", "TestCoin1", " ");
    ParsePaddedTestCoin("  ", "TestCoin2", " ");
    ParseArgListSingleStep(y);
    ParseArgListConsStep(x, y);
    var s1 := Struct(One, "TestCoin", "TestCoin1", []);
    var s2 := Struct(One, "TestCoin", "TestCoin2", []);
    assert ParseTypeTag(x) == Ok(s1) && ParseTypeTag(y) == Ok(s2);
    assert [s1] + [s2] == [s1, s2];
  }

  lemma CoinStoreNameShape()
    ensures Trim("CoinStore ") == "CoinStore" && IsIdentifier("CoinStore")
    ensures forall i :: 0 <= i < |"CoinStore "| ==> "CoinStore "[i] != '<'
  {
    assert AllSpace(" ");
    Empty("CoinStore");
    TrimFixed("CoinStore");
    TrimPadded("", "CoinStore", " ");
    assert "" + "CoinStore" + " " == "CoinStore ";
  }

  lemma ParseCoinStoreCore(x: string, y: string)
    requires x == " " + Qualified("TestCoin", "TestCoin1") + " "
    requires y == "  " + Qualified("TestCoin", "TestCoin2") + " "
    ensures ParseTypeTag(Qualified("Coin", "CoinStore " + "<" + (x + "," + y) + ">"))
            == Ok(Struct(One, "Coin", "CoinStore",
                         [Struct(One, "TestCoin", "TestCoin1", []), Struct(One, "TestCoin", "TestCoin2", [])]))
  {
    var list := x + "," + y;
    var rest := "CoinStore " + "<" + list + ">";
    ParseCoinStoreArgs(x, y);
    CoinStoreArgsShape(x, y);
    CommaSplitPlain(x, y);
    CoinStoreNameShape();
    CoinHead();
    ParseOne();
    QualifiedTrimmed("Coin", rest);
    ParseStructHead("0x1", "Coin", rest);
    ParseNamedGeneric(One, "Coin", "CoinStore ", list);
  }

  /** A generic struct with two struct arguments, in the order written. */
  lemma ParseCoinStore()
    ensures ParseTypeTag("0x1::Coin::CoinStore < 0x1::TestCoin::TestCoin1 ,  0x1::TestCoin::TestCoin2 > ")
            == Ok(Struct(One, "Coin", "CoinStore",
                         [Struct(One, "TestCoin", "TestCoin1", []), Struct(One, "TestCoin", "TestCoin2", [])]))
  {
    var x := " 0x1::TestCoin::TestCoin1 ";
    var y := "  0x1::TestCoin::TestCoin2 ";
    var core := Qualified("Coin", "CoinStore " + "<" + (x + "," + y) + ">");
    CoinStoreText(x, y);
    FirstArgText();
    SecondArgText();
    ParseCoinStoreCore(x, y);
    assert AllSpace(" ") && AllSpace("");
    Empty(core);
    ParseIgnoresPadding("", core, " ");
  }

  // ---------------------------------------------------------------------
  // The malformed signatures.
  // ---------------------------------------------------------------------

  /** A signature with only one `::` fails. */
  lemma ParseMissingSeparatorExample()
    ensures ParseTypeTag("0x1::TestCoin") == Err(InvalidStructTag)
  {
    MissingSeparatorText();
    ParseMissingSeparator("0x1", "TestCoin");
  }

  lemma CoinStoreIdentifiers()
    ensures IsIdentifier("CoinStore") && IsIdentifier("TestCoin")
  {
  }

  /** A generic argument list that is never closed fails. */
  lemma ParseUnclosedExample()
    ensures ParseTypeTag("0x1::TestCoin::CoinStore<0x1::TestCoin::TestCoin") == Err(InvalidStructTag)
  {
    var body := Qualified("TestCoin", "TestCoin");
    var rest := "CoinStore" + "<" + body;
    UnclosedText();
    CoinStoreOpenText();
    InnerCoinText();
    CoinStoreIdentifiers();
    QualifiedAppend("TestCoin", "CoinStore" + "<", body);
    IdentifierShape("TestCoin");
    IdentifierShape("CoinStore");
    QualifiedPlain("TestCoin", "TestCoin");
    WalkPlain(body, 0);
    QualifiedTrimmed("TestCoin", rest);
    TestCoinHead();
    ParseOne();
    ParseStructHead("0x1", "TestCoin", rest);
    ParseNamedUnclosed(One, "TestCoin", "CoinStore", body);
  }

  lemma ShortListShape()
    ensures Walk("0x1::TestCoin", 0) == Some(0)
    ensures CommaIndex("0x1::TestCoin", 0) == |"0x1::TestCoin"|
  {
    assert Plain("0x1::TestCoin");
    WalkPlain("0x1::TestCoin", 0);
    CommaIndexPlain("0x1::TestCoin", 0);
  }

  /** An argument that is not itself a well-formed signature makes the whole signature fail. */
  lemma ParseMissingInnerExample()
    ensures ParseTypeTag("0x1::TestCoin::CoinStore<0x1::TestCoin>") == Err(InvalidStructTag)
  {
    var list := "0x1::TestCoin";
    var rest := "CoinStore" + "<" + list + ">";
    MissingInnerText();
    CoinStoreOpenText();
    CoinStoreIdentifiers();
    QualifiedAppend("TestCoin", "CoinStore" + "<", list);
    QualifiedAppend("TestCoin", "CoinStore" + "<" + list, ">");
    IdentifierShape("CoinStore");
    ShortListShape();
    QualifiedTrimmed("TestCoin", rest);
    TestCoinHead();
    ParseOne();
    ParseStructHead("0x1", "TestCoin", rest);
    ParseNamedGeneric(One, "TestCoin", "CoinStore", list);
    ParseArgListSingleStep(list);
    ParseMissingSeparatorExample();
  }

  /** Move types this parser does not know, such as `u16`, `u32` and `signer`,
      fall through to the struct-tag reading and fail. */
  lemma ParseUnknownWordExamples()
    ensures ParseTypeTag("u16") == Err(InvalidStructTag)
    ensures ParseTypeTag("u32") == Err(InvalidStructTag)
    ensures ParseTypeTag("signer") == Err(InvalidStructTag)
  {
    UnknownWord("u16");
    UnknownWord("u32");
    UnknownWord("signer");
  }

  lemma UnknownWord(s: string)
    requires s == "u16" || s == "u32" || s == "signer"
    ensures ParseTypeTag(s) == Err(InvalidStructTag)
  {
    assert Trimmed(s);
    ParseUnknownWord(s);
  }

  // ---------------------------------------------------------------------
  // Text identities: each long signature written as the concatenation of
  // the pieces the parser lemmas above take apart. They compare strings only.
  // ---------------------------------------------------------------------

  lemma VectorAddressText()
    ensures "vector<address>" == "vector" + "" + "<" + "address" + ">"
  {
  }

  lemma SpacedVectorText()
    ensures " vector < u64 > " == " " + ("vector" + " " + "<" + " u64 " + ">") + " "
    ensures " u64 " == " " + "u64" + " "
  {
  }

  lemma CoinText()
    ensures "0x1::TestCoin::Coin" == Qualified("TestCoin", "Coin")
    ensures IsIdentifier("Coin")
  {
  }

  lemma CoinStoreHalves()
    ensures "0x1::Coin::CoinStore < 0x1::TestCoin::TestCoin1 ,  0x1::TestCoin::TestCoin2 > "
         == "0x1::Coin::CoinStore < 0x1::TestCoin::TestCoin1 " + ",  0x1::TestCoin::TestCoin2 > "
  {
  }

  lemma CoinStoreFirstHalf()
    ensures "0x1::Coin::CoinStore < 0x1::TestCoin::TestCoin1 "
         == "0x1::Coin::CoinStore <" + " 0x1::TestCoin::TestCoin1 "
  {
  }

  lemma CoinStoreSecondHalf()
    ensures ",  0x1::TestCoin::TestCoin2 > " == "," + "  0x1::TestCoin::TestCoin2 " + (">" + " ")
  {
  }

  lemma CoinStoreHeadText()
    ensures "0x1::Coin::CoinStore <" == Qualified("Coin", "CoinStore " + "<")
  {
  }

  lemma FirstArgText()
    ensures " 0x1::TestCoin::TestCoin1 " == " " + Qualified("TestCoin", "TestCoin1") + " "
  {
  }

  lemma SecondArgText()
    ensures "  0x1::TestCoin::TestCoin2 " == "  " + Qualified("TestCoin", "TestCoin2") + " "
  {
  }

  lemma CoinStoreRegroup(h: string, n: string, x: string, c: string, y: string, g: string, s: string)
    ensures h + n + x + (c + y + (g + s)) == h + (n + (x + c + y) + g) + s
  {
  }

  lemma MissingSeparatorText()
    ensures "0x1::TestCoin" == "0x1" + "::" + "TestCoin"
    ensures Trimmed("0x1::TestCoin") && NoColon("0x1") && NoColon("TestCoin")
  {
  }

  lemma UnclosedText()
    ensures "0x1::TestCoin::CoinStore<0x1::TestCoin::TestCoin"
         == "0x1::TestCoin::CoinStore<" + "0x1::TestCoin::TestCoin"
  {
  }

  lemma CoinStoreOpenText()
    ensures "0x1::TestCoin::CoinStore<" == Qualified("TestCoin", "CoinStore" + "<")
  {
  }

  lemma InnerCoinText()
    ensures "0x1::TestCoin::TestCoin" == Qualified("TestCoin", "TestCoin")
  {
  }

  lemma MissingInnerText()
    ensures "0x1::TestCoin::CoinStore<0x1::TestCoin>"
         == "0x1::TestCoin::CoinStore<" + "0x1::TestCoin" + ">"
  {
  }
}
