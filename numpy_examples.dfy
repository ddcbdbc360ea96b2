/**
 * Worked examples of the NumPy codec, taken from the repository's test suite
 * (tests/frameworks/test_numpy.py), each proved from the general lemmas.
 */
module NumPyExamples {
  import opened Common
  import opened Text
  import opened Types
  import opened NumPy

  lemma TokenM8(cs: CTypeSizes)
    ensures FirstToken(Formats(cs), "m8") == Some(19)
  {
    FirstTokenAt(Formats(cs), "m8", 19);
  }

  lemma TokenA(cs: CTypeSizes)
    ensures FirstToken(Formats(cs), "a") == Some(24)
  {
    FirstTokenAt(Formats(cs), "a", 24);
  }

  lemma TokenU(cs: CTypeSizes)
    ensures FirstToken(Formats(cs), "U") == Some(25)
  {
    FirstTokenAt(Formats(cs), "U", 25);
  }

  lemma ExactBytes(cs: CTypeSizes)
    ensures Search(Formats(cs), Some("bytes"), Some(1), "exact") == Ok(Some(FixedFormats()[23]))
  {
    SearchExactAt(Formats(cs), Some("bytes"), Some(1), "exact", 23);
  }

  /** `decode` on text with one token that `find` resolves. */
  lemma DecodeOne(cs: CTypeSizes, spec: string, t: string, f: Specifier, shape: Shape)
    requires Tokenize(spec, 0) == [t]
    requires Find(Formats(cs), t, NumPy.Ident) == Ok((f, shape))
    ensures Decode(cs, spec) == Ok([Field(f, shape)])
  {
    DecodeHasNoMarker(cs, spec);
    FindAllSucceeds(Formats(cs), [t], [Field(f, shape)]);
  }

  /** `decode` on text with two tokens that `find` resolves. */
  lemma DecodeTwo(cs: CTypeSizes, spec: string, t: string, u: string, f: Specifier, g: Specifier,
                  shape: Shape, shape': Shape)
    requires Tokenize(spec, 0) == [t, u]
    requires Find(Formats(cs), t, NumPy.Ident) == Ok((f, shape))
    requires Find(Formats(cs), u, NumPy.Ident) == Ok((g, shape'))
    ensures Decode(cs, spec) == Ok([Field(f, shape), Field(g, shape')])
  {
    DecodeHasNoMarker(cs, spec);
    var tokens := [t, u];
    var expected := [Field(f, shape), Field(g, shape')];
    forall i | 0 <= i < 2
      ensures expected[i].Field? && Find(Formats(cs), tokens[i], NumPy.Ident) == Ok((expected[i].spec, expected[i].shape))
    {
      if i == 1 { assert tokens[1] == u && expected[1] == Field(g, shape'); }
    }
    FindAllSucceeds(Formats(cs), tokens, expected);
  }

  /** `"(3,    4)    m8"`: blanks inside the parentheses and before the token are skipped. */
  lemma DecodeWhitespace(cs: CTypeSizes)
    ensures Decode(cs, "(3,    4)    m8") == Ok([Field(FixedFormats()[19], [3, 4])])
  {
    WhitespaceTokens();
    WhitespaceFind(cs);
    DecodeOne(cs, "(3,    4)    m8", "(3,    4)    m8", FixedFormats()[19], [3, 4]);
  }

  lemma WhitespaceExtents()
    ensures SpanFrom("(3,    4)    m8", 1, IsExtentChar) == 8
  {
    SpanExact("(3,    4)    m8", 1, 8, IsExtentChar);
  }

  lemma WhitespaceBlanks()
    ensures SpanFrom("(3,    4)    m8", 9, IsSpace) == 13
  {
    SpanExact("(3,    4)    m8", 9, 13, IsSpace);
  }

  lemma WhitespaceLength()
    ensures SpanFrom("(3,    4)    m8", 14, IsDigit) == 15
  {
    SpanExact("(3,    4)    m8", 14, 15, IsDigit);
  }

  lemma WhitespaceLead()
    ensures var s := "(3,    4)    m8";
            && ExtentStart(s) == 1 && ExtentEnd(s) == 8 && TokenStart(s) == 13
            && s[13..] == "m8" + ""
  {
    WhitespaceExtents();
    WhitespaceBlanks();
  }

  lemma WhitespaceGrouped()
    ensures FieldEnd("(3,    4)    m8", 0) == Some(15)
  {
    WhitespaceExtents();
    WhitespaceBlanks();
    WhitespaceLength();
    GroupedEndIs("(3,    4)    m8", 0, 8, 13, 15);
  }

  lemma WhitespaceTokens()
    ensures Tokenize("(3,    4)    m8", 0) == ["(3,    4)    m8"]
  {
    var s := "(3,    4)    m8";
    WhitespaceGrouped();
    assert s[0..15] == s;
    assert Tokenize(s, 15) == [];
  }

  lemma WhitespaceIdent()
    ensures NumPy.Ident(FixedFormats()[19], "(3,    4)    m8") == Ok(Some([3, 4]))
  {
    WhitespaceMatch();
    assert FixedFormats()[19].token == "m8";
    assert IsTokenText("m8");
    StringLikeTokens(FixedFormats()[19]);
    WhitespaceIdentOf(FixedFormats()[19]);
  }

  lemma WhitespaceIdentOf(f: Specifier)
    requires f.token == "m8" && !IsStringLike(f)
    requires MatchFormat("m8", false, "(3,    4)    m8") == Some(Groups("3,    4", ""))
    ensures NumPy.Ident(f, "(3,    4)    m8") == Ok(Some([3, 4]))
  {
    WhitespaceItems();
    WhitespacePieces();
    IdentOfExtents(f, "(3,    4)    m8", Groups("3,    4", ""), [3, 4]);
  }

  lemma WhitespaceMatch()
    ensures MatchFormat("m8", false, "(3,    4)    m8") == Some(Groups("3,    4", ""))
  {
    var s := "(3,    4)    m8";
    WhitespaceLead();
    MatchFormatComplete("m8", false, s, "", "");
    assert s[1..8] == "3,    4";
  }

  lemma WhitespaceItems()
    ensures RStrip(Strip("3,    4"), ',') == "3,    4"
    ensures Split("3,    4", ',') == ["3", "    4"]
  {
    var items := "3,    4";
    StripUnpadded(items);
    RStripLast(items, ',');
    assert Join([','], ["3", "    4"]) == items;
    SplitJoin(["3", "    4"], ',');
  }

  lemma WhitespaceFind(cs: CTypeSizes)
    ensures Find(Formats(cs), "(3,    4)    m8", NumPy.Ident) == Ok((FixedFormats()[19], [3, 4]))
  {
    WhitespaceLead();
    FormatsWellShaped(cs);
    TokenM8(cs);
    assert Formats(cs)[19] == FixedFormats()[19];
    WhitespaceIdent();
    FindKeyed(Formats(cs), "(3,    4)    m8", "m8", "", 19, [3, 4]);
  }

  /** `find` on text with token `w` whose first entry with key `w` yields `shape`. */
  lemma FindKeyed(types: seq<Specifier>, s: string, w: string, ending: string, i: nat, shape: Shape)
    requires WellShapedTable(types)
    requires IsTokenText(w) && IsEnding(ending)
    requires s[TokenStart(s)..] == w + ending
    requires FirstToken(types, TokenKey(w)) == Some(i)
    requires NumPy.Ident(types[i], s) == Ok(Some(shape))
    ensures Find(types, s, NumPy.Ident) == Ok((types[i], shape))
  {
    FindByKey(types, s, w, ending);
  }

  lemma WhitespacePieces()
    ensures ParseInts(["3", "    4"]) == Ok([3, 4])
  {
    SpanExact("3", 0, 0, IsSpace);
    assert Strip("3") == "3";
    SpanExact("    4", 0, 4, IsSpace);
    assert Strip("    4") == "4";
    assert ParseInt("3") == Ok(3);
    assert ParseInt("    4") == Ok(4);
    ParseIntsAll(["3", "    4"], [3, 4]);
  }

  lemma TokenS(cs: CTypeSizes)
    ensures FirstToken(Formats(cs), "S") == Some(23)
  {
    FirstTokenAt(Formats(cs), "S", 23);
  }

  /** The string formats are the three string-like entries. */
  lemma StringEntries()
    ensures FixedFormats()[23].token == "S" && IsStringLike(FixedFormats()[23])
    ensures FixedFormats()[24].token == "a" && IsStringLike(FixedFormats()[24])
    ensures FixedFormats()[25].token == "U" && IsStringLike(FixedFormats()[25])
  {
    StringLikeTokens(FixedFormats()[23]);
    StringLikeTokens(FixedFormats()[24]);
    StringLikeTokens(FixedFormats()[25]);
  }

  // ---------------------------------------------------------------------------
  // "S": a bare string format has length one

  lemma DecodeBareString(cs: CTypeSizes)
    ensures Decode(cs, "S") == Ok([Field(FixedFormats()[23], [1])])
  {
    BareTokens();
    BareFind(cs);
    DecodeOne(cs, "S", "S", FixedFormats()[23], [1]);
  }

  lemma BareTokens()
    ensures Tokenize("S", 0) == ["S"]
  {
    BareIsField("S");
    TokenizeField("S", 0, "S");
    assert Tokenize("S", 1) == [];
  }

  lemma BareIdent(f: Specifier)
    requires f.token == "S" && IsStringLike(f)
    ensures NumPy.Ident(f, "S") == Ok(Some([1]))
  {
    IdentBare(f);
  }

  lemma BareFind(cs: CTypeSizes)
    ensures Find(Formats(cs), "S", NumPy.Ident) == Ok((FixedFormats()[23], [1]))
  {
    StringEntries();
    BareIdent(FixedFormats()[23]);
    LeadBare("S");
    FormatsWellShaped(cs);
    TokenS(cs);
    assert Formats(cs)[23] == FixedFormats()[23];
    FindKeyed(Formats(cs), "S", "S", "", 23, [1]);
  }

  // ---------------------------------------------------------------------------
  // "(3, 7)S": the length defaults to one and comes before the extents

  lemma DecodeSpacedString(cs: CTypeSizes)
    ensures Decode(cs, "(3, 7)S") == Ok([Field(FixedFormats()[23], [1, 3, 7])])
  {
    SpacedTokens();
    SpacedFind(cs);
    DecodeOne(cs, "(3, 7)S", "(3, 7)S", FixedFormats()[23], [1, 3, 7]);
  }

  lemma SpacedLead()
    ensures var s := "(3, 7)S";
            && ExtentStart(s) == 1 && ExtentEnd(s) == 5 && TokenStart(s) == 6
            && s[ExtentStart(s)..ExtentEnd(s)] == "3, 7" && s[6..] == "S" + ""
  {
    assert "(3, 7)S" == "(" + "3, 7" + ")" + "S";
    LeadParenthesised("3, 7", "S");
  }

  lemma SpacedTokens()
    ensures Tokenize("(3, 7)S", 0) == ["(3, 7)S"]
  {
    var s := "(3, 7)S";
    SpanExact(s, 1, 5, IsExtentChar);
    SpanExact(s, 6, 6, IsSpace);
    SpanExact(s, 7, 7, IsDigit);
    GroupedEndIs(s, 0, 5, 6, 7);
    assert s[0..7] == s;
    assert Tokenize(s, 7) == [];
  }

  lemma SpacedRead()
    ensures RStrip(Strip("3, 7"), ',') == "3, 7"
    ensures Split("3, 7", ',') == ["3", " 7"] && ParseInts(["3", " 7"]) == Ok([3, 7])
  {
    SpacedStrip();
    SpacedSplit();
    SpacedPieces();
  }

  lemma SpacedStrip()
    ensures RStrip(Strip("3, 7"), ',') == "3, 7"
  {
    StripUnpadded("3, 7");
    RStripLast("3, 7", ',');
  }

  lemma SpacedSplit()
    ensures Split("3, 7", ',') == ["3", " 7"]
  {
    assert Join([','], ["3", " 7"]) == "3, 7";
    SplitJoin(["3", " 7"], ',');
  }

  lemma SpacedPieces()
    ensures ParseInts(["3", " 7"]) == Ok([3, 7])
  {
    SpanExact("3", 0, 0, IsSpace);
    assert Strip("3") == "3";
    SpanExact(" 7", 0, 1, IsSpace);
    assert Strip(" 7") == "7";
    ParseIntsAll(["3", " 7"], [3, 7]);
  }

  lemma SpacedMatch()
    ensures MatchFormat("S", true, "(3, 7)S") == Some(Groups("3, 7", ""))
  {
    SpacedLead();
    MatchFormatComplete("S", true, "(3, 7)S", "", "");
  }

  lemma SpacedIdentOf(f: Specifier)
    requires f.token == "S" && IsStringLike(f)
    requires MatchFormat("S", true, "(3, 7)S") == Some(Groups("3, 7", ""))
    ensures NumPy.Ident(f, "(3, 7)S") == Ok(Some([1, 3, 7]))
  {
    SpacedRead();
    IdentOfItems(f, "(3, 7)S", "3, 7", ["3", " 7"], [3, 7]);
    assert [1] + [3, 7] == [1, 3, 7];
  }

  /** `ident` on a match without length digits whose extent list needs no stripping. */
  lemma IdentOfItems(f: Specifier, s: string, items: string, pieces: seq<string>, dims: seq<nat>)
    requires MatchFormat(f.token, IsStringLike(f), s) == Some(Groups(items, ""))
    requires items != "" && RStrip(Strip(items), ',') == items
    requires Split(items, ',') == pieces && ParseInts(pieces) == Ok(dims)
    ensures NumPy.Ident(f, s) == Ok(Some(if IsStringLike(f) then [1] + dims else dims))
  {
    IdentOfExtents(f, s, Groups(items, ""), dims);
  }

  lemma SpacedFind(cs: CTypeSizes)
    ensures Find(Formats(cs), "(3, 7)S", NumPy.Ident) == Ok((FixedFormats()[23], [1, 3, 7]))
  {
    SpacedEntry(cs);
    SpacedLead();
    FormatsWellShaped(cs);
    TokenS(cs);
    KeyS();
    FindKeyed(Formats(cs), "(3, 7)S", "S", "", 23, [1, 3, 7]);
  }

  lemma SpacedEntry(cs: CTypeSizes)
    ensures Formats(cs)[23] == FixedFormats()[23]
    ensures NumPy.Ident(Formats(cs)[23], "(3, 7)S") == Ok(Some([1, 3, 7]))
  {
    assert Formats(cs)[23] == FixedFormats()[23];
    StringEntries();
    SpacedMatch();
    SpacedIdentOf(FixedFormats()[23]);
  }

  lemma KeyS()
    ensures IsTokenText("S") && TokenKey("S") == "S"
  {
    assert "S"[..1] == "S";
  }

  // ---------------------------------------------------------------------------
  // "90a10, (7,5)U5": two string fields, the length first in each shape

  lemma DecodeTwoStrings(cs: CTypeSizes)
    ensures Decode(cs, "90a10, (7,5)U5")
            == Ok([Field(FixedFormats()[24], [10, 90]), Field(FixedFormats()[25], [5, 7, 5])])
  {
    TwoTokens();
    TwoFindPlain(cs);
    TwoFindGrouped(cs);
    DecodeTwo(cs, "90a10, (7,5)U5", "90a10", "(7,5)U5", FixedFormats()[24], FixedFormats()[25], [10, 90], [5, 7, 5]);
  }

  lemma TwoFirstField()
    ensures FieldEnd("90a10, (7,5)U5", 0) == Some(5)
  {
    var s := "90a10, (7,5)U5";
    SpanExact(s, 0, 2, IsPlainChar);
    SpanExact(s, 3, 5, IsDigit);
  }

  lemma TwoGap()
    ensures Tokenize("90a10, (7,5)U5", 5) == Tokenize("90a10, (7,5)U5", 7)
  {
    var s := "90a10, (7,5)U5";
    TokenizeSkipsComma(s, 5);
    TwoBlank();
  }

  lemma TwoBlank()
    ensures FieldEnd("90a10, (7,5)U5", 6) == None
  {
    SpanExact("90a10, (7,5)U5", 6, 7, IsPlainChar);
  }

  lemma TwoSecondField()
    ensures Tokenize("90a10, (7,5)U5", 7) == ["(7,5)U5"]
  {
    var s := "90a10, (7,5)U5";
    TwoGroupedField();
    assert s[7..14] == "(7,5)U5";
    TokenizeField(s, 7, "(7,5)U5");
    assert Tokenize(s, 14) == [];
  }

  lemma TwoGroupedField()
    ensures IsFieldText("(7,5)U5")
  {
    StringEntries();
    TwoGroupedText();
    WithShapeIsField(FixedFormats()[25], [5, 7, 5]);
  }

  lemma TwoTokens()
    ensures Tokenize("90a10, (7,5)U5", 0) == ["90a10", "(7,5)U5"]
  {
    var s := "90a10, (7,5)U5";
    TwoFirstField();
    TwoGap();
    TwoSecondField();
    assert s[0..5] == "90a10";
  }

  /** `(7,5)U5` is what `with_shape` writes for U and the shape (5, 7, 5). */
  lemma TwoGroupedText()
    ensures WithShape(FixedFormats()[25], [5, 7, 5]) == "(7,5)U5"
    ensures ExtentList([7, 5]) + "U" + "5" == "(7,5)U5"
  {
    StringEntries();
    assert Decimal(7) == "7" && Decimal(5) == "5";
    assert Decimals([7, 5]) == ["7", "5"];
    assert Join(",", ["7", "5"]) == "7,5";
    assert [5, 7, 5][1..] == [7, 5];
  }

  lemma TwoFindPlain(cs: CTypeSizes)
    ensures Find(Formats(cs), "90a10", NumPy.Ident) == Ok((FixedFormats()[24], [10, 90]))
  {
    TwoPlainEntry(cs);
    TwoPlainLead();
    FormatsWellShaped(cs);
    TokenA(cs);
    FindKeyed(Formats(cs), "90a10", "a10", "", 24, [10, 90]);
  }

  lemma TwoPlainEntry(cs: CTypeSizes)
    ensures Formats(cs)[24] == FixedFormats()[24]
    ensures NumPy.Ident(Formats(cs)[24], "90a10") == Ok(Some([10, 90]))
  {
    assert Formats(cs)[24] == FixedFormats()[24];
    StringEntries();
    TwoPlainMatch();
    TwoPlainIdentOf(FixedFormats()[24]);
  }

  lemma TwoPlainLead()
    ensures ExtentStart("90a10") == 0 && ExtentEnd("90a10") == 2 && "90a10"[0..2] == "90"
    ensures TokenStart("90a10") == 2 && "90a10"[2..] == "a10" + ""
    ensures IsTokenText("a10") && TokenKey("a10") == "a"
  {
    SpanExact("90a10", 0, 2, IsExtentChar);
    SpanExact("90a10", 2, 2, IsSpace);
    assert "a10"[..1] == "a";
    assert "a10"[1..] == "10";
  }

  lemma TwoPlainMatch()
    ensures MatchFormat("a", true, "90a10") == Some(Groups("90", "10"))
  {
    TwoPlainLead();
    assert "a10" + "" == "a" + "10" + "";
    MatchFormatComplete("a", true, "90a10", "10", "");
  }

  lemma TwoPlainItems()
    ensures RStrip(Strip("90"), ',') == "90" && Split("90", ',') == ["90"]
    ensures ParseInts(["90"]) == Ok([90])
  {
    StripUnpadded("90");
    RStripLast("90", ',');
    assert Join([','], ["90"]) == "90";
    SplitJoin(["90"], ',');
    assert DecimalValue("90") == 90;
    assert ParseInt("90") == Ok(90);
    ParseIntsAll(["90"], [90]);
  }

  lemma TwoPlainIdentOf(f: Specifier)
    requires f.token == "a" && IsStringLike(f)
    requires MatchFormat("a", true, "90a10") == Some(Groups("90", "10"))
    ensures NumPy.Ident(f, "90a10") == Ok(Some([10, 90]))
  {
    TwoPlainItems();
    IdentOfExtents(f, "90a10", Groups("90", "10"), [90]);
    assert DecimalValue("10") == 10;
    assert [10] + [90] == [10, 90];
  }

  lemma TwoFindGrouped(cs: CTypeSizes)
    ensures Find(Formats(cs), "(7,5)U5", NumPy.Ident) == Ok((FixedFormats()[25], [5, 7, 5]))
  {
    TwoGroupedText();
    StringEntries();
    FormatsWellShaped(cs);
    assert Formats(cs)[25] == FixedFormats()[25];
    TokenU(cs);
    FindRendered(Formats(cs), FixedFormats()[25], [5, 7, 5]);
  }
}
