/**
 * Worked examples of the translator, taken from the repository's test suite
 * (tests/test_translator.py): struct format strings translated to NumPy dtype strings
 * under the exact strategy, and NumPy dtype strings that translate to themselves.
 */
module TranslatorExamples {
  import opened Common
  import opened Text
  import opened Types
  import opened Translator
  import Struct
  import StructExamples
  import NumPy
  import NumPyExamples

  /** `RenderFields` succeeds with the renderings of the fields when each one renders. */
  lemma RenderAll(types: seq<Specifier>, items: seq<Element>, renders: seq<string>, strategy: string)
    requires |renders| == |items|
    requires forall k :: 0 <= k < |items| ==> NumPy.RenderField(types, items[k], strategy) == Ok(renders[k])
    ensures NumPy.RenderFields(types, items, strategy) == Ok(renders)
  {
    var r := NumPy.RenderFields(types, items, strategy);
    if r.Ok? {
      assert r.value == renders;
    }
  }

  /** A field renders with the NumPy format `search` found for its kind and size. */
  lemma NumPyRenders(types: seq<Specifier>, f: Specifier, shape: Shape, g: Specifier, strategy: string, r: string)
    requires Search(types, f.kind, f.byteSize, strategy) == Ok(Some(g)) && r == NumPy.WithShape(g, shape)
    ensures NumPy.RenderField(types, Field(f, shape), strategy) == Ok(r)
  {
  }

  /** The NumPy encoding of fields without a marker: their renderings joined with commas. */
  lemma EncodeRendered(cs: NumPy.CTypeSizes, items: seq<Element>, renders: seq<string>, strategy: string)
    requires items != [] && items[0].Field?
    requires NumPy.RenderFields(NumPy.Formats(cs), items, strategy) == Ok(renders)
    ensures NumPy.Encode(cs, items, strategy) == Ok(Join(",", renders))
  {
    assert "" + Join(",", renders) == Join(",", renders);
  }

  /** The NumPy encoding of fields that all render: the renderings joined with commas. */
  lemma NumPyEncodes(cs: NumPy.CTypeSizes, items: seq<Element>, renders: seq<string>, out: string, strategy: string)
    requires items != [] && items[0].Field? && |renders| == |items|
    requires forall k :: 0 <= k < |items| ==> NumPy.RenderField(NumPy.Formats(cs), items[k], strategy) == Ok(renders[k])
    requires out == Join(",", renders)
    ensures NumPy.Encode(cs, items, strategy) == Ok(out)
  {
    RenderAll(NumPy.Formats(cs), items, renders, strategy);
    EncodeRendered(cs, items, renders, strategy);
  }

  /** A struct format string translates to NumPy as the NumPy encoding of what it decodes to. */
  lemma StructThenNumPy(cs: NumPy.CTypeSizes, s: string, decoded: seq<Element>, out: string)
    requires Struct.Decode(s) == Ok(decoded) && NumPy.Encode(cs, decoded, "exact") == Ok(out)
    ensures Translate(cs, s, "struct", "numpy", "exact") == Ok(out)
  {
    NamesLowered();
    TranslateOk(cs, s, "struct", "numpy", "exact", decoded, out);
  }

  /**
   * A struct format string of counted pieces translates to the NumPy renderings of the
   * formats the exact strategy picks for each piece's kind and size, with the piece's count
   * as the shape.
   */
  lemma StructToNumPy(cs: NumPy.CTypeSizes, s: string, out: string, pieces: seq<string>, ds: seq<string>,
                      idx: seq<nat>, entries: seq<Specifier>, renders: seq<string>)
    requires StructExamples.Pieces(pieces, ds, idx) && |idx| >= 1 && s == Join("", pieces)
    requires |entries| == |idx| && |renders| == |idx|
    requires forall k :: 0 <= k < |idx| ==>
               && Search(NumPy.Formats(cs), Struct.Formats()[idx[k]].kind, Struct.Formats()[idx[k]].byteSize, "exact")
                  == Ok(Some(entries[k]))
               && renders[k] == NumPy.WithShape(entries[k], StructExamples.CountShape(ds[k]))
    requires out == Join(",", renders)
    ensures Translate(cs, s, "struct", "numpy", "exact") == Ok(out)
  {
    StructExamples.DecodePieces(s, pieces, ds, idx);
    var decoded := Struct.Decode(s).value;
    var types := NumPy.Formats(cs);
    forall k | 0 <= k < |idx| ensures NumPy.RenderField(types, decoded[k], "exact") == Ok(renders[k]) {
      NumPyRenders(types, Struct.Formats()[idx[k]], StructExamples.CountShape(ds[k]), entries[k], "exact", renders[k]);
    }
    NumPyEncodes(cs, decoded, renders, out, "exact");
    StructThenNumPy(cs, s, decoded, out);
  }

  /** The exact strategy picks NumPy row `j` for struct row `i` when `j` is the first row of its kind and size. */
  lemma Picks(cs: NumPy.CTypeSizes, i: nat, j: nat)
    requires i < 21 && j < |NumPy.FixedFormats()|
    requires Fits(NumPy.FixedFormats()[j], Struct.Row(i).kind, Struct.Row(i).byteSize)
    requires forall k :: 0 <= k < j ==> !Fits(NumPy.FixedFormats()[k], Struct.Row(i).kind, Struct.Row(i).byteSize)
    ensures Search(NumPy.Formats(cs), Struct.Formats()[i].kind, Struct.Formats()[i].byteSize, "exact")
            == Ok(Some(NumPy.FixedFormats()[j]))
  {
    var types := NumPy.Formats(cs);
    assert Struct.Formats()[i] == Struct.Row(i);
    assert forall k :: 0 <= k <= j ==> types[k] == NumPy.FixedFormats()[k];
    assert Lower("exact") == "exact";
    SearchExactAt(types, Struct.Row(i).kind, Struct.Row(i).byteSize, "exact", j);
  }

  // ---------------------------------------------------------------------------
  // struct to NumPy

  /** A struct format string of one counted piece becomes one NumPy format. */
  lemma OnePiece(cs: NumPy.CTypeSizes, s: string, d: string, i: nat, e: Specifier, out: string)
    requires i < 21 && AllDigits(d) && s == d + Struct.Formats()[i].token
    requires Search(NumPy.Formats(cs), Struct.Formats()[i].kind, Struct.Formats()[i].byteSize, "exact") == Ok(Some(e))
    requires out == NumPy.WithShape(e, StructExamples.CountShape(d))
    ensures Translate(cs, s, "struct", "numpy", "exact") == Ok(out)
  {
    var pieces, ds, idx, entries, renders := [s], [d], [i], [e], [out];
    assert Join("", pieces) == s && Join(",", renders) == out;
    StructToNumPy(cs, s, out, pieces, ds, idx, entries, renders);
  }

  /** The pieces of two counted struct characters. */
  lemma TwoPiecesOf(pieces: seq<string>, ds: seq<string>, idx: seq<nat>)
    requires |pieces| == |ds| == |idx| == 2 && idx[0] < 21 && idx[1] < 21
    requires AllDigits(ds[0]) && pieces[0] == ds[0] + Struct.Formats()[idx[0]].token
    requires AllDigits(ds[1]) && pieces[1] == ds[1] + Struct.Formats()[idx[1]].token
    ensures StructExamples.Pieces(pieces, ds, idx) && Join("", pieces) == pieces[0] + pieces[1]
  {
    forall k | 0 <= k < |idx|
      ensures idx[k] < |Struct.Formats()| && AllDigits(ds[k]) && pieces[k] == ds[k] + Struct.Formats()[idx[k]].token
    {
      if k == 0 { } else { assert k == 1; }
    }
    JoinTwo(pieces);
  }

  /** Two strings joined with nothing between them. */
  lemma JoinTwo(pieces: seq<string>)
    requires |pieces| == 2
    ensures Join("", pieces) == pieces[0] + pieces[1]
  {
    assert Join("", pieces[1..]) == pieces[1];
  }

  /** The renderings of two pieces, each the NumPy format the exact strategy picks, with the count as shape. */
  lemma TwoRenders(cs: NumPy.CTypeSizes, pieces: seq<string>, ds: seq<string>, idx: seq<nat>,
                   entries: seq<Specifier>, renders: seq<string>)
    requires StructExamples.Pieces(pieces, ds, idx) && |idx| == |entries| == |renders| == 2
    requires Search(NumPy.Formats(cs), Struct.Formats()[idx[0]].kind, Struct.Formats()[idx[0]].byteSize, "exact")
             == Ok(Some(entries[0]))
    requires Search(NumPy.Formats(cs), Struct.Formats()[idx[1]].kind, Struct.Formats()[idx[1]].byteSize, "exact")
             == Ok(Some(entries[1]))
    requires renders[0] == NumPy.WithShape(entries[0], StructExamples.CountShape(ds[0]))
    requires renders[1] == NumPy.WithShape(entries[1], StructExamples.CountShape(ds[1]))
    ensures forall k :: 0 <= k < |idx| ==>
              && Search(NumPy.Formats(cs), Struct.Formats()[idx[k]].kind, Struct.Formats()[idx[k]].byteSize, "exact")
                 == Ok(Some(entries[k]))
              && renders[k] == NumPy.WithShape(entries[k], StructExamples.CountShape(ds[k]))
    ensures Join(",", renders) == renders[0] + "," + renders[1]
  {
    forall k | 0 <= k < |idx|
      ensures Search(NumPy.Formats(cs), Struct.Formats()[idx[k]].kind, Struct.Formats()[idx[k]].byteSize, "exact")
              == Ok(Some(entries[k]))
      ensures renders[k] == NumPy.WithShape(entries[k], StructExamples.CountShape(ds[k]))
    {
      if k == 0 { } else { assert k == 1; }
    }
    assert Join(",", renders[1..]) == renders[1];
  }

  /** A struct format string of two counted pieces becomes two comma-separated NumPy formats. */
  lemma TwoPieces(cs: NumPy.CTypeSizes, s: string, d1: string, i1: nat, e1: Specifier, o1: string,
                  d2: string, i2: nat, e2: Specifier, o2: string)
    requires i1 < 21 && AllDigits(d1) && i2 < 21 && AllDigits(d2)
    requires s == d1 + Struct.Formats()[i1].token + (d2 + Struct.Formats()[i2].token)
    requires Search(NumPy.Formats(cs), Struct.Formats()[i1].kind, Struct.Formats()[i1].byteSize, "exact") == Ok(Some(e1))
    requires Search(NumPy.Formats(cs), Struct.Formats()[i2].kind, Struct.Formats()[i2].byteSize, "exact") == Ok(Some(e2))
    requires o1 == NumPy.WithShape(e1, StructExamples.CountShape(d1))
    requires o2 == NumPy.WithShape(e2, StructExamples.CountShape(d2))
    ensures Translate(cs, s, "struct", "numpy", "exact") == Ok(o1 + "," + o2)
  {
    var pieces, ds, idx := [d1 + Struct.Formats()[i1].token, d2 + Struct.Formats()[i2].token], [d1, d2], [i1, i2];
    var entries, renders := [e1, e2], [o1, o2];
    TwoPiecesOf(pieces, ds, idx);
    TwoRenders(cs, pieces, ds, idx, entries, renders);
    StructToNumPy(cs, s, o1 + "," + o2, pieces, ds, idx, entries, renders);
  }

  /** A field without a count is rendered as the bare token. */
  lemma Unshaped(f: Specifier)
    ensures NumPy.WithShape(f, []) == f.token
  {
  }

  /** The exact strategy finds "i2" for "h" (row 5 of the struct table, row 4 of the NumPy table). */
  lemma ShortPick(cs: NumPy.CTypeSizes)
    ensures Search(NumPy.Formats(cs), Struct.Formats()[5].kind, Struct.Formats()[5].byteSize, "exact")
            == Ok(Some(NumPy.FixedFormats()[4]))
    ensures NumPy.FixedFormats()[4].token == "i2" && Struct.Formats()[5].token == "h"
  {
    Picks(cs, 5, 4);
  }

  /** "h" (short) becomes "i2". */
  lemma ShortToNumPy(cs: NumPy.CTypeSizes)
    ensures Translate(cs, "h", "struct", "numpy", "exact") == Ok("i2")
  {
    var e := NumPy.FixedFormats()[4];
    ShortPick(cs);
    Unshaped(e);
    assert StructExamples.CountShape("") == [];
    OnePiece(cs, "h", "", 5, e, "i2");
  }

  /** A non-string field with one extent renders as that extent in parentheses before the token. */
  lemma CountRender(f: Specifier, n: nat, r: string)
    requires NumPy.IsTokenText(f.token) && f.token != "S" && f.token != "a" && f.token != "U"
    requires r == "(" + Decimal(n) + ",)" + f.token
    ensures NumPy.WithShape(f, [n]) == r
  {
    NumPy.StringLikeTokens(f);
    assert "(" + (Decimal(n) + ",") + ")" == "(" + Decimal(n) + ",)";
  }

  /** A string field with one extent renders as the token followed by that extent, its length. */
  lemma LengthRender(f: Specifier, n: nat, r: string)
    requires NumPy.IsStringLike(f) && r == f.token + Decimal(n)
    ensures NumPy.WithShape(f, [n]) == r
  {
    assert "" + f.token == f.token;
  }

  /** The exact strategy finds "f2" for "e" (row 15 of the struct table, row 11 of the NumPy table). */
  lemma HalfPick(cs: NumPy.CTypeSizes)
    ensures Search(NumPy.Formats(cs), Struct.Formats()[15].kind, Struct.Formats()[15].byteSize, "exact")
            == Ok(Some(NumPy.FixedFormats()[11]))
    ensures NumPy.FixedFormats()[11].token == "f2" && Struct.Formats()[15].token == "e"
  {
    Picks(cs, 15, 11);
  }

  /** The exact strategy finds "S" for "s" (row 18 of the struct table, row 23 of the NumPy table). */
  lemma BytesPick(cs: NumPy.CTypeSizes)
    ensures Search(NumPy.Formats(cs), Struct.Formats()[18].kind, Struct.Formats()[18].byteSize, "exact")
            == Ok(Some(NumPy.FixedFormats()[23]))
    ensures NumPy.FixedFormats()[23].token == "S" && NumPy.IsStringLike(NumPy.FixedFormats()[23])
    ensures Struct.Formats()[18].token == "s"
  {
    Picks(cs, 18, 23);
    NumPyExamples.StringEntries();
  }

  /** The exact strategy finds "i4" for "i" (row 7 of the struct table, row 5 of the NumPy table). */
  lemma IntPick(cs: NumPy.CTypeSizes)
    ensures Search(NumPy.Formats(cs), Struct.Formats()[7].kind, Struct.Formats()[7].byteSize, "exact")
            == Ok(Some(NumPy.FixedFormats()[5]))
    ensures NumPy.FixedFormats()[5].token == "i4" && Struct.Formats()[7].token == "i"
  {
    Picks(cs, 7, 5);
  }

  /** The exact strategy finds "f8" for "d" (row 17 of the struct table, row 13 of the NumPy table). */
  lemma DoublePick(cs: NumPy.CTypeSizes)
    ensures Search(NumPy.Formats(cs), Struct.Formats()[17].kind, Struct.Formats()[17].byteSize, "exact")
            == Ok(Some(NumPy.FixedFormats()[13]))
    ensures NumPy.FixedFormats()[13].token == "f8" && Struct.Formats()[17].token == "d"
  {
    Picks(cs, 17, 13);
  }

  /** The exact strategy finds "i8" for "q" (row 11 of the struct table, row 6 of the NumPy table). */
  lemma LongLongPick(cs: NumPy.CTypeSizes)
    ensures Search(NumPy.Formats(cs), Struct.Formats()[11].kind, Struct.Formats()[11].byteSize, "exact")
            == Ok(Some(NumPy.FixedFormats()[6]))
    ensures NumPy.FixedFormats()[6].token == "i8" && Struct.Formats()[11].token == "q"
  {
    Picks(cs, 11, 6);
  }

  /** "e" (half precision) becomes "f2". */
  lemma HalfToNumPy(cs: NumPy.CTypeSizes)
    ensures Translate(cs, "e", "struct", "numpy", "exact") == Ok("f2")
  {
    var e := NumPy.FixedFormats()[11];
    HalfPick(cs);
    Unshaped(e);
    assert StructExamples.CountShape("") == [];
    OnePiece(cs, "e", "", 15, e, "f2");
  }

  /** "5s" (a five-byte string) becomes "S5". */
  lemma StringToNumPy(cs: NumPy.CTypeSizes)
    ensures Translate(cs, "5s", "struct", "numpy", "exact") == Ok("S5")
  {
    var e := NumPy.FixedFormats()[23];
    BytesPick(cs);
    assert StructExamples.CountShape("5") == [5] by { assert DecimalValue("5") == 5; }
    assert Decimal(5) == "5";
    LengthRender(e, 5, "S5");
    OnePiece(cs, "5s", "5", 18, e, "S5");
  }

  /** "7i3d" (seven ints, three doubles) becomes "(7,)i4,(3,)f8". */
  lemma IntsDoublesToNumPy(cs: NumPy.CTypeSizes)
    ensures Translate(cs, "7i3d", "struct", "numpy", "exact") == Ok("(7,)i4,(3,)f8")
  {
    var e1, e2 := NumPy.FixedFormats()[5], NumPy.FixedFormats()[13];
    IntPick(cs);
    DoublePick(cs);
    IntsDoublesRenders(e1, e2);
    IntsDoublesSpelling();
    TwoPieces(cs, "7i3d", "7", 7, e1, "(7,)i4", "3", 17, e2, "(3,)f8");
  }

  lemma IntsDoublesSpelling()
    ensures "7i3d" == "7" + Struct.Formats()[7].token + ("3" + Struct.Formats()[17].token)
    ensures "(7,)i4" + "," + "(3,)f8" == "(7,)i4,(3,)f8"
  {
    assert Struct.Formats()[7] == Struct.Row(7) && Struct.Formats()[17] == Struct.Row(17);
  }

  lemma IntsDoublesRenders(e1: Specifier, e2: Specifier)
    requires e1.token == "i4" && e2.token == "f8"
    ensures NumPy.WithShape(e1, StructExamples.CountShape("7")) == "(7,)i4"
    ensures NumPy.WithShape(e2, StructExamples.CountShape("3")) == "(3,)f8"
  {
    assert StructExamples.CountShape("7") == [7] by { assert DecimalValue("7") == 7; }
    assert StructExamples.CountShape("3") == [3] by { assert DecimalValue("3") == 3; }
    assert Decimal(7) == "7" && Decimal(3) == "3";
    assert NumPy.IsTokenText("i4") by { assert "i4"[1..] == "4"; }
    assert NumPy.IsTokenText("f8") by { assert "f8"[1..] == "8"; }
    CountRender(e1, 7, "(7,)i4");
    CountRender(e2, 3, "(3,)f8");
  }

  /** "5s7q" (a five-byte string, seven long longs) becomes "S5,(7,)i8". */
  lemma StringLongLongsToNumPy(cs: NumPy.CTypeSizes)
    ensures Translate(cs, "5s7q", "struct", "numpy", "exact") == Ok("S5,(7,)i8")
  {
    var e1, e2 := NumPy.FixedFormats()[23], NumPy.FixedFormats()[6];
    BytesPick(cs);
    LongLongPick(cs);
    StringLongLongsRenders(e1, e2);
    StringLongLongsSpelling();
    TwoPieces(cs, "5s7q", "5", 18, e1, "S5", "7", 11, e2, "(7,)i8");
  }

  lemma StringLongLongsSpelling()
    ensures "5s7q" == "5" + Struct.Formats()[18].token + ("7" + Struct.Formats()[11].token)
    ensures "S5" + "," + "(7,)i8" == "S5,(7,)i8"
  {
    assert Struct.Formats()[18] == Struct.Row(18) && Struct.Formats()[11] == Struct.Row(11);
  }

  lemma StringLongLongsRenders(e1: Specifier, e2: Specifier)
    requires e1.token == "S" && NumPy.IsStringLike(e1) && e2.token == "i8"
    ensures NumPy.WithShape(e1, StructExamples.CountShape("5")) == "S5"
    ensures NumPy.WithShape(e2, StructExamples.CountShape("7")) == "(7,)i8"
  {
    assert StructExamples.CountShape("5") == [5] by { assert DecimalValue("5") == 5; }
    assert StructExamples.CountShape("7") == [7] by { assert DecimalValue("7") == 7; }
    assert Decimal(5) == "5" && Decimal(7) == "7";
    assert NumPy.IsTokenText("i8") by { assert "i8"[1..] == "8"; }
    LengthRender(e1, 5, "S5");
    CountRender(e2, 7, "(7,)i8");
  }

  // ---------------------------------------------------------------------------
  // NumPy to NumPy

  /** The `S` entry of the NumPy table: ten bytes wide fields are read and written with it. */
  function BytesS(): Specifier {
    NumPy.Format("string", "S", "bytes", 1)
  }

  /** A ten-byte string field of extent 3. */
  function TenBytesTimesThree(): Element {
    Field(BytesS(), [10, 3])
  }

  lemma BytesSEntry(cs: NumPy.CTypeSizes)
    ensures NumPy.FixedFormats()[23] == BytesS() && NumPy.Formats(cs)[23] == BytesS()
  {
    assert NumPy.FixedFormats()[23] == NumPy.FixedRow(23);
    assert NumPy.Formats(cs)[23] == NumPy.FixedFormats()[23];
  }

  /** The exact strategy picks the `S` entry for one-byte `bytes`. */
  lemma BytesSPicked(cs: NumPy.CTypeSizes)
    ensures Search(NumPy.Formats(cs), Some("bytes"), Some(1), "exact") == Ok(Some(BytesS()))
  {
    NumPyExamples.ExactBytes(cs);
    BytesSEntry(cs);
  }

  /** `S` is the first entry with its token. */
  lemma BytesSFirst(cs: NumPy.CTypeSizes)
    ensures FirstToken(NumPy.Formats(cs), "S") == Some(23) && NumPy.Formats(cs)[23] == BytesS()
  {
    NumPyExamples.TokenS(cs);
    BytesSEntry(cs);
  }

  /** Under the exact strategy the field is canonical. */
  lemma TenBytesCanonical(cs: NumPy.CTypeSizes)
    ensures NumPy.Canonical(NumPy.Formats(cs), TenBytesTimesThree(), "exact")
  {
    BytesSPicked(cs);
    BytesSFirst(cs);
  }

  /** A string-like format with a length and one extent renders the extent first. */
  lemma LengthCountRender(f: Specifier, n: nat, m: nat, r: string)
    requires NumPy.IsStringLike(f) && r == "(" + Decimal(m) + ",)" + f.token + Decimal(n)
    ensures NumPy.WithShape(f, [n, m]) == r
  {
    assert [n, m][1..] == [m];
    assert "(" + (Decimal(m) + ",") + ")" == "(" + Decimal(m) + ",)";
  }

  lemma TenBytesSpelling()
    ensures "(3,)S10" == "(" + Decimal(3) + ",)" + BytesS().token + Decimal(10)
  {
    assert Decimal(10) == "10" && Decimal(3) == "3";
  }

  lemma BytesSStringLike()
    ensures NumPy.IsStringLike(BytesS())
  {
    assert NumPy.IsTokenText("S");
    NumPy.StringLikeTokens(BytesS());
  }

  /** And it renders as "(3,)S10". */
  lemma TenBytesRender(cs: NumPy.CTypeSizes)
    ensures NumPy.RenderField(NumPy.Formats(cs), TenBytesTimesThree(), "exact") == Ok("(3,)S10")
  {
    BytesSStringLike();
    TenBytesSpelling();
    LengthCountRender(BytesS(), 10, 3, "(3,)S10");
    BytesSPicked(cs);
    NumPyRenders(NumPy.Formats(cs), BytesS(), [10, 3], BytesS(), "exact", "(3,)S10");
  }

  /** Text that encodes copies of one canonical field translates from NumPy to NumPy unchanged. */
  lemma CopiesIdentity(cs: NumPy.CTypeSizes, f: Element, r: string, fields: seq<Element>, renders: seq<string>, out: string)
    requires NumPy.Canonical(NumPy.Formats(cs), f, "exact")
    requires NumPy.RenderField(NumPy.Formats(cs), f, "exact") == Ok(r)
    requires |fields| >= 1 && |renders| == |fields|
    requires forall k :: 0 <= k < |fields| ==> fields[k] == f && renders[k] == r
    requires out == Join(",", renders)
    ensures Translate(cs, out, "numpy", "numpy", "exact") == Ok(out)
  {
    NumPyEncodes(cs, fields, renders, out, "exact");
    NumPyToNumPyCanonical(cs, fields, "exact");
  }

  /** "(3,)S10" translates from NumPy to NumPy unchanged. */
  lemma TenBytesIdentity(cs: NumPy.CTypeSizes)
    ensures Translate(cs, "(3,)S10", "numpy", "numpy", "exact") == Ok("(3,)S10")
  {
    TenBytesCanonical(cs);
    TenBytesRender(cs);
    CopiesIdentity(cs, TenBytesTimesThree(), "(3,)S10", [TenBytesTimesThree()], ["(3,)S10"], "(3,)S10");
  }

  /** "(3,)S10,(3,)S10" translates from NumPy to NumPy unchanged. */
  lemma TwoTenBytesIdentity(cs: NumPy.CTypeSizes)
    ensures Translate(cs, "(3,)S10,(3,)S10", "numpy", "numpy", "exact") == Ok("(3,)S10,(3,)S10")
  {
    var f := TenBytesTimesThree();
    TenBytesCanonical(cs);
    TenBytesRender(cs);
    TwoTenBytesSpelling();
    CopiesIdentity(cs, f, "(3,)S10", [f, f], ["(3,)S10", "(3,)S10"], "(3,)S10,(3,)S10");
  }

  lemma TwoTenBytesSpelling()
    ensures Join(",", ["(3,)S10", "(3,)S10"]) == "(3,)S10,(3,)S10"
  {
    assert ["(3,)S10", "(3,)S10"][1..] == ["(3,)S10"];
  }
}
