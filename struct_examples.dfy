/**
 * Worked examples of the struct codec, taken from the repository's test suite
 * (tests/frameworks/test_struct.py), each proved from the general lemmas.
 *
 * A format string is described by its pieces: piece k is the count digits `ds[k]`
 * followed by the character of table row `idx[k]`.
 */
module StructExamples {
  import opened Common
  import opened Text
  import opened Types
  import opened Struct

  /** The shape a count denotes: `()` without digits, `(n,)` for the digits of n. */
  function CountShape(digits: string): Shape
    requires AllDigits(digits)
  {
    if digits == "" then [] else [DecimalValue(digits)]
  }

  /** The k-th piece, the count digits followed by the character of row `idx[k]`. */
  predicate Pieces(pieces: seq<string>, ds: seq<string>, idx: seq<nat>) {
    && |pieces| == |ds| == |idx|
    && forall k :: 0 <= k < |idx| ==>
         idx[k] < |Formats()| && AllDigits(ds[k]) && pieces[k] == ds[k] + Formats()[idx[k]].token
  }

  /** One piece names its row with its count. */
  lemma PieceOf(types: seq<Specifier>, i: nat, d: string, t: string)
    requires DistinctCharTokens(types) && i < |types| && AllDigits(d) && t == d + types[i].token
    ensures IsCountedText(t) && InTable(types, t[|t| - 1])
    ensures FieldOf(types, t) == Field(types[i], CountShape(d))
  {
    EntryOfToken(types, types[i]);
    assert t[..|t| - 1] == d;
    assert t[|t| - 1] == types[i].token[0];
  }

  /** `find` resolves each piece to its row, with its count. */
  lemma FindPieces(types: seq<Specifier>, pieces: seq<string>, ds: seq<string>, idx: seq<nat>)
    requires DistinctCharTokens(types) && |pieces| == |ds| == |idx|
    requires forall k :: 0 <= k < |idx| ==> idx[k] < |types| && AllDigits(ds[k]) && pieces[k] == ds[k] + types[idx[k]].token
    ensures forall k :: 0 <= k < |pieces| ==> IsCountedText(pieces[k])
    ensures FindAll(types, pieces, Struct.Ident)
            == Ok(seq(|idx|, k requires 0 <= k < |idx| => Field(types[idx[k]], CountShape(ds[k]))))
  {
    forall k | 0 <= k < |idx|
      ensures IsCountedText(pieces[k]) && InTable(types, pieces[k][|pieces[k]| - 1])
      ensures FieldOf(types, pieces[k]) == Field(types[idx[k]], CountShape(ds[k]))
    {
      PieceOf(types, idx[k], ds[k], pieces[k]);
    }
    var a := seq(|pieces|, k requires 0 <= k < |pieces| => FieldOf(types, pieces[k]));
    var b := seq(|idx|, k requires 0 <= k < |idx| => Field(types[idx[k]], CountShape(ds[k])));
    assert a == b;
    FindAllCounted(types, pieces);
  }

  /** The pieces, concatenated, decode to their rows and counts, in order. */
  lemma DecodePieces(s: string, pieces: seq<string>, ds: seq<string>, idx: seq<nat>)
    requires Pieces(pieces, ds, idx) && |idx| >= 1 && s == Join("", pieces)
    ensures && Decode(s).Ok? && |Decode(s).value| == |idx|
            && forall k :: 0 <= k < |idx| ==> Decode(s).value[k] == Field(Formats()[idx[k]], CountShape(ds[k]))
  {
    TableDistinct();
    FindPieces(Formats(), pieces, ds, idx);
    assert s[0..] == s;
    TokenizeCounted(s, 0, pieces);
    CountedNotMarker(pieces[0]);
  }

  /** The same after a byte-order marker, which comes first. */
  lemma DecodeMarkedPieces(s: string, m: string, pieces: seq<string>, ds: seq<string>, idx: seq<nat>)
    requires Pieces(pieces, ds, idx) && m != [] && IsSubstring(m, "@=<>!") && s == m + Join("", pieces)
    ensures && Decode(s).Ok? && |Decode(s).value| == |idx| + 1 && Decode(s).value[0] == Marker(m)
            && forall k :: 0 <= k < |idx| ==> Decode(s).value[k + 1] == Field(Formats()[idx[k]], CountShape(ds[k]))
  {
    TableDistinct();
    FindPieces(Formats(), pieces, ds, idx);
    MarkerSubstring(m);
    TokenizeMarked(m, pieces);
    assert ([m] + pieces)[1..] == pieces;
  }

  lemma OneOf(r: Result<seq<Element>>, a: Element)
    requires r.Ok? && |r.value| == 1 && r.value[0] == a
    ensures r == Ok([a])
  {
    assert r.value == [a];
  }

  lemma TwoOf(r: Result<seq<Element>>, a: Element, b: Element)
    requires r.Ok? && |r.value| == 2 && r.value[0] == a && r.value[1] == b
    ensures r == Ok([a, b])
  {
    assert r.value == [a, b];
  }

  lemma ThreeOf(r: Result<seq<Element>>, a: Element, b: Element, c: Element)
    requires r.Ok? && |r.value| == 3 && r.value[0] == a && r.value[1] == b && r.value[2] == c
    ensures r == Ok([a, b, c])
  {
    assert r.value == [a, b, c];
  }

  // ---------------------------------------------------------------------------
  // The examples

  /** "?2h5H": a `_Bool`, then two `short`s and five `unsigned short`s, in order. */
  lemma DecodeBoolShorts()
    ensures Decode("?2h5H") == Ok([Field(Formats()[4], []), Field(Formats()[5], [2]), Field(Formats()[6], [5])])
    ensures Formats()[4].kind == Some("bool") && Formats()[4].byteSize == Some(1)
    ensures Formats()[5].kind == Some("int") && Formats()[5].byteSize == Some(2)
    ensures Formats()[6].kind == Some("uint") && Formats()[6].byteSize == Some(2)
  {
    var pieces, ds, idx := ["?", "2h", "5H"], ["", "2", "5"], [4, 5, 6];
    assert CountShape(ds[0]) == [];
    assert CountShape(ds[1]) == [2] by { assert DecimalValue("2") == 2; }
    assert CountShape(ds[2]) == [5] by { assert DecimalValue("5") == 5; }
    assert Join("", pieces) == "?2h5H";
    DecodePieces("?2h5H", pieces, ds, idx);
    var r := Decode("?2h5H");
    assert r.value[0] == Field(Formats()[idx[0]], CountShape(ds[0]));
    assert r.value[1] == Field(Formats()[idx[1]], CountShape(ds[1]));
    assert r.value[2] == Field(Formats()[idx[2]], CountShape(ds[2]));
    ThreeOf(r, Field(Formats()[4], []), Field(Formats()[5], [2]), Field(Formats()[6], [5]));
  }

  /** "1iI1l": a count of one is kept as the shape `(1,)`, unlike no count at all. */
  lemma DecodeUnitCounts()
    ensures Decode("1iI1l") == Ok([Field(Formats()[7], [1]), Field(Formats()[8], []), Field(Formats()[9], [1])])
  {
    var pieces, ds, idx := ["1i", "I", "1l"], ["1", "", "1"], [7, 8, 9];
    assert CountShape(ds[0]) == [1] by { assert DecimalValue("1") == 1; }
    assert CountShape(ds[1]) == [];
    assert CountShape(ds[2]) == [1] by { assert DecimalValue("1") == 1; }
    assert Join("", pieces) == "1iI1l";
    DecodePieces("1iI1l", pieces, ds, idx);
    var r := Decode("1iI1l");
    assert r.value[0] == Field(Formats()[idx[0]], CountShape(ds[0]));
    assert r.value[1] == Field(Formats()[idx[1]], CountShape(ds[1]));
    assert r.value[2] == Field(Formats()[idx[2]], CountShape(ds[2]));
    ThreeOf(r, Field(Formats()[7], [1]), Field(Formats()[8], []), Field(Formats()[9], [1]));
  }

  /** "100l": a count of several digits. */
  lemma DecodeLongArray()
    ensures Decode("100l") == Ok([Field(Formats()[9], [100])])
  {
    var pieces, ds, idx := ["100l"], ["100"], [9];
    assert CountShape(ds[0]) == [100] by {
      assert "100"[..2] == "10" && "10"[..1] == "1" && "1"[..0] == "";
    }
    assert Join("", pieces) == "100l";
    DecodePieces("100l", pieces, ds, idx);
    var r := Decode("100l");
    assert r.value[0] == Field(Formats()[idx[0]], CountShape(ds[0]));
    OneOf(r, Field(Formats()[9], [100]));
  }

  /** "<h": the byte-order marker is kept as the first element, before the `short`. */
  lemma DecodeLittleEndianShort()
    ensures Decode("<h") == Ok([Marker("<"), Field(Formats()[5], [])])
  {
    var pieces, ds, idx := ["h"], [""], [5];
    assert CountShape(ds[0]) == [];
    assert OccursAt("<", "@=<>!", 2);
    assert "<" + Join("", pieces) == "<h";
    DecodeMarkedPieces("<h", "<", pieces, ds, idx);
    var r := Decode("<h");
    assert r.value[1] == Field(Formats()[idx[0]], CountShape(ds[0]));
    TwoOf(r, Marker("<"), Field(Formats()[5], []));
  }

  /** "!<h": a run of byte-order characters that is not part of `@=<>!` goes to `find`, which fails. */
  lemma DecodeMarkerRunFails()
    ensures Decode("!<h") == Err(UnsupportedSpecifier("!<"))
  {
    assert IsMarkerRun("!<");
    assert IsCountedText("h");
    assert "!<" + Join("", ["h"]) == "!<h";
    TokenizeMarked("!<", ["h"]);
    assert !IsSubstring("!<", "@=<>!") by {
      forall i ensures !OccursAt("!<", "@=<>!", i) {
        if 0 <= i <= 3 {
          assert "@=<>!"[i..i + 2][0] == "@=<>!"[i];
        }
      }
    }
    TableCharTokens();
    FindMarkerRun(Formats(), "!<");
  }

  /** "z": a character the table lacks is not supported. */
  lemma DecodeUnknownCharacter()
    ensures Decode("z") == Err(UnsupportedSpecifier("z"))
  {
    var z := "z";
    assert IsCountedText(z);
    assert Join("", [z]) == z && z[0..] == z;
    TokenizeCounted(z, 0, [z]);
    CountedNotMarker(z);
    assert 'z' !in Characters;
    InTableCharacters('z');
    TableCharTokens();
    FindUnknown(Formats(), z);
  }

  /** The empty text has no token, so `decode` fails. */
  lemma DecodeEmpty()
    ensures Decode("") == Err(NoTokens)
  {
    var empty := "";
    DecodeNoTokens(empty);
  }

  /** Nor has text of spaces only. */
  lemma DecodeSpaces()
    ensures Decode("  ") == Err(NoTokens)
  {
    var blank := "  ";
    assert forall k :: 0 <= k < |blank| ==> IsSkipped(blank[k]);
    DecodeNoTokens(blank);
  }

  /** `search` for an exact two-byte `int` picks `short`, the first such row. */
  lemma SearchShort()
    ensures Search(Formats(), Formats()[5].kind, Formats()[5].byteSize, "exact") == Ok(Some(Formats()[5]))
  {
    var t := Formats();
    assert t[5] == Row(5);
    assert Fits(t[5], Some("int"), Some(2));
    forall j | 0 <= j < 5 ensures !Fits(t[j], Some("int"), Some(2)) {
      assert t[j] == Row(j);
    }
    assert Lower("exact") == "exact";
    Types.SearchExactAt(t, Some("int"), Some(2), "exact", 5);
  }

  /**
   * The `int` entries include `ssize_t`, which has no byte size: `exact` for a four-byte
   * `int` picks `int`, while `closest` fails with TypeError, since its sort key subtracts
   * from None. The four strategies agree only when every entry of the kind has a size.
   */
  lemma IntClosestDisagrees()
    ensures Search(Formats(), Some("int"), Some(4), "exact") == Ok(Some(Formats()[7]))
    ensures Search(Formats(), Some("int"), Some(4), "closest") == Err(SizeNotComparable)
  {
    SearchInt();
    ClosestIntFails();
  }

  /** `search` for an exact four-byte `int` picks `int`, the first such row. */
  lemma SearchInt()
    ensures Search(Formats(), Some("int"), Some(4), "exact") == Ok(Some(Formats()[7]))
  {
    var t := Formats();
    assert t[7] == Row(7);
    forall j | 0 <= j < 7 ensures !Fits(t[j], Some("int"), Some(4)) {
      assert t[j] == Row(j);
    }
    assert Lower("exact") == "exact";
    Types.SearchExactAt(t, Some("int"), Some(4), "exact", 7);
  }

  /** `ssize_t` is an `int` entry without a size, so `closest` cannot compare sizes. */
  lemma ClosestIntFails()
    ensures Search(Formats(), Some("int"), Some(4), "closest") == Err(SizeNotComparable)
  {
    assert Formats()[13] == Row(13);
    assert Lower("closest") == "closest";
    Types.UnsizedEntryFails(Formats(), Some("int"), Some(4), "closest", 13);
  }

  /** A field renders as the shaped format `search` finds for its kind and size. */
  lemma RenderFound(types: seq<Specifier>, f: Specifier, extents: seq<Extent>, strategy: string, g: Specifier, r: string)
    requires Search(types, f.kind, f.byteSize, strategy) == Ok(Some(g)) && WithShape(g, extents) == Ok(r)
    ensures RenderField(types, Item(f, extents), strategy) == Ok(r)
  {
  }

  /** One field after a byte-order string: the string, then the field's rendering. */
  lemma EncodeMarkedOne(m: string, item: Arg, strategy: string, r: string, s: string)
    requires RenderField(Formats(), item, strategy) == Ok(r) && s == m + r
    ensures Encode([Str(m), item], strategy) == Ok(s)
  {
    assert [Str(m), item][1..] == [item];
    assert RenderFields(Formats(), [item][1..], strategy) == Ok([]);
  }

  lemma FourOf(r: Result<seq<Element>>, a: Element, b: Element, c: Element, d: Element)
    requires r.Ok? && |r.value| == 4 && r.value[0] == a && r.value[1] == b && r.value[2] == c && r.value[3] == d
    ensures r == Ok([a, b, c, d])
  {
    assert r.value == [a, b, c, d];
  }

  /** `with_shape` repeats the `short` character by the count 3. */
  lemma ShortTripleShape()
    ensures WithShape(Formats()[5], [Count(3)]) == Ok("hhh")
  {
    assert Formats()[5].token == "h";
    assert Repeat("h", 3) == "hhh";
  }

  /** The `short` entry counted three times renders as "hhh". */
  lemma RenderShortTriple()
    ensures RenderField(Formats(), Item(Formats()[5], [Count(3)]), "exact") == Ok("hhh")
  {
    SearchShort();
    ShortTripleShape();
    RenderFound(Formats(), Formats()[5], [Count(3)], "exact", Formats()[5], "hhh");
  }

  /** A leading marker and the `short` entry counted three times encode as "<hhh". */
  lemma EncodeShortTriple()
    ensures Encode([Str("<"), Item(Formats()[5], [Count(3)])], "exact") == Ok("<hhh")
  {
    assert "<" + "hhh" == "<hhh";
    RenderShortTriple();
    EncodeMarkedOne("<", Item(Formats()[5], [Count(3)]), "exact", "hhh", "<hhh");
  }

  /** And "<hhh" reads back as the marker and three scalar `short`s, not one field of shape `(3,)`. */
  lemma DecodeShortTriple()
    ensures Decode("<hhh") == Ok([Marker("<"), Field(Formats()[5], []), Field(Formats()[5], []), Field(Formats()[5], [])])
  {
    var pieces, ds, idx := ["h", "h", "h"], ["", "", ""], [5, 5, 5];
    assert CountShape(ds[0]) == [] && CountShape(ds[1]) == [] && CountShape(ds[2]) == [];
    assert OccursAt("<", "@=<>!", 2);
    assert "<" + Join("", pieces) == "<hhh";
    DecodeMarkedPieces("<hhh", "<", pieces, ds, idx);
    var r := Decode("<hhh");
    assert r.value[1] == Field(Formats()[idx[0]], CountShape(ds[0]));
    assert r.value[2] == Field(Formats()[idx[1]], CountShape(ds[1]));
    assert r.value[3] == Field(Formats()[idx[2]], CountShape(ds[2]));
    FourOf(r, Marker("<"), Field(Formats()[5], []), Field(Formats()[5], []), Field(Formats()[5], []));
  }
}
