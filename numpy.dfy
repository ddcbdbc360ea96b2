/**
 * NumPy's dtype notation (`pydtype/frameworks/numpy.py`): the format table, rendering a
 * format with a shape (`NumPyFormat.with_shape`), recognising one (`NumPyFormat.ident`),
 * and the codec that splits a comma-separated dtype string into fields and joins fields
 * back (`NumPyParser.decode`, `NumPyParser.encode`).
 *
 * The regular expressions of the source are written as left-to-right scanners. Every
 * token of the table starts with a letter or `?`, which no run of `[\d,\s]` or `\s`
 * contains, so the greedy first match the regex engine reports is the one the scanner finds.
 */
module NumPy {
  import opened Common
  import opened Text
  import opened Types

  // ---------------------------------------------------------------------------
  // The format table

  /** The sizes of C types, which the source reads from the host with `ctypes.sizeof`. */
  datatype CTypeSizes = CTypeSizes(
    cShort: nat, cUShort: nat, cLong: nat, cULong: nat, cInt: nat, cUInt: nat,
    cFloat: nat, cDouble: nat, cLongDouble: nat)

  function Format(name: string, token: string, kind: string, size: nat): Specifier {
    Specifier(name, token, Some(kind), Some(size))
  }

  /** The formats of fixed width, and the object and void formats. */
  function FixedFormats(): (types: seq<Specifier>)
    ensures |types| == 27
  {
    seq(27, FixedRow)
  }

  /** Row `i` of the fixed-width formats. */
  function FixedRow(i: int): Specifier {
    match i
    case 0 => Format("bool", "?", "bool", 1)
    case 1 => Format("int8", "b", "int", 1)
    case 2 => Format("uint8", "B", "uint", 1)
    case 3 => Format("int8", "i1", "int", 1)
    case 4 => Format("int16", "i2", "int", 2)
    case 5 => Format("int32", "i4", "int", 4)
    case 6 => Format("int64", "i8", "int", 8)
    case 7 => Format("uint8", "u1", "uint", 1)
    case 8 => Format("uint16", "u2", "uint", 2)
    case 9 => Format("uint32", "u4", "uint", 4)
    case 10 => Format("uint64", "u8", "uint", 8)
    case 11 => Format("float16", "f2", "float", 2)
    case 12 => Format("float32", "f4", "float", 4)
    case 13 => Format("float64", "f8", "float", 8)
    case 14 => Format("float128", "f16", "float", 16)
    case 15 => Format("complex64", "c8", "complex", 8)
    case 16 => Format("complex128", "c16", "complex", 16)
    case 17 => Format("complex256", "c32", "complex", 32)
    case 18 => Format("timedelta", "m", "timedelta", 8)
    case 19 => Format("timedelta", "m8", "timedelta", 8)
    case 20 => Format("datetime", "M", "datetime", 8)
    case 21 => Format("datetime", "M8", "datetime", 8)
    case 22 => Specifier("object", "O", None, None)
    case 23 => Format("string", "S", "bytes", 1)
    case 24 => Format("string", "a", "bytes", 1)
    case 25 => Format("unicode", "U", "str", 1)
    case _ => Specifier("void", "V", None, None)
  }

  /** The formats named after C types, sized by the host. */
  function CTypeFormats(cs: CTypeSizes): seq<Specifier> {
    [
      Format("c_short", "h", "int", cs.cShort),
      Format("c_ushort", "H", "uint", cs.cUShort),
      Format("c_long", "l", "int", cs.cLong),
      Format("c_ulong", "L", "uint", cs.cULong),
      Format("c_int", "i", "int", cs.cInt),
      Format("c_uint", "I", "uint", cs.cUInt),
      Format("c_float", "f", "float", cs.cFloat),
      Format("c_double", "d", "float", cs.cDouble),
      Format("c_longdouble", "g", "float", cs.cLongDouble)
    ]
  }

  /** The last four entries, kept in the table for completeness. */
  const OtherFormats: seq<Specifier> := [
    Format("c", "c", "char", 1),
    Format("p", "p", "int", 8),
    Format("P", "P", "uint", 8),
    Format("bool", "b1", "bool", 1)
  ]

  /** `NumPyTypes.types`, in table order. */
  function Formats(cs: CTypeSizes): seq<Specifier> {
    FixedFormats() + CTypeFormats(cs) + OtherFormats
  }

  // ---------------------------------------------------------------------------
  // Characters and tokens

  /** `[a-zA-Z\?]`: the character that names a format. */
  predicate IsTypeChar(c: char) { IsLetter(c) || c == '?' }

  /** `[\d,\s]`: the characters of a parenthesised extent list. */
  predicate IsExtentChar(c: char) { IsDigit(c) || c == ',' || IsSpace(c) }

  /** `[\d\s]`: what may precede a format outside parentheses. */
  predicate IsPlainChar(c: char) { IsDigit(c) || IsSpace(c) }

  /** The shape of every token of the table: a type character followed by digits. */
  predicate IsTokenText(t: string) {
    |t| >= 1 && IsTypeChar(t[0]) && AllDigits(t[1..])
  }

  /** A token that begins like a string format is nothing but that letter. */
  predicate KeepsStringLetters(t: string) {
    |t| >= 1 && (t[0] == 'S' || t[0] == 'a' || t[0] == 'U') ==> |t| == 1
  }

  /** `self.character in "SaU"`: string formats carry their length after the token. */
  predicate IsStringLike(f: Specifier) {
    IsSubstring(f.token, "SaU")
  }

  // ---------------------------------------------------------------------------
  // with_shape

  function Decimals(xs: seq<nat>): (r: seq<string>)
    ensures |r| == |xs| && forall i :: 0 <= i < |xs| ==> r[i] == Decimal(xs[i])
  {
    if xs == [] then [] else [Decimal(xs[0])] + Decimals(xs[1..])
  }

  /** The inside of an extent list: `d1,` for one extent, `d1,d2,...` for more. */
  function ExtentItems(dims: seq<nat>): string
    requires |dims| >= 1
  {
    if |dims| == 1 then Decimal(dims[0]) + "," else Join(",", Decimals(dims))
  }

  /** `(d1,)` for one extent, `(d1,d2,...)` for more. */
  function ExtentList(dims: seq<nat>): string
    requires |dims| >= 1
  {
    "(" + ExtentItems(dims) + ")"
  }

  /**
   * `NumPyFormat.with_shape`: a string format puts the first extent (its length) after the
   * token and the others in parentheses before it; any other format puts all extents there.
   */
  function WithShape(f: Specifier, shape: Shape): string {
    if |shape| == 0 then f.token
    else if IsStringLike(f) then
      (if |shape| == 1 then "" else ExtentList(shape[1..])) + f.token + Decimal(shape[0])
    else ExtentList(shape) + f.token
  }

  // ---------------------------------------------------------------------------
  // ident

  /** Where the extent group of the format regex starts: after an optional `(`. */
  function ExtentStart(s: string): nat {
    if |s| > 0 && s[0] == '(' then 1 else 0
  }

  /** Where the extent group `([\d,\s]*)` ends. */
  function ExtentEnd(s: string): (b: nat)
    ensures ExtentStart(s) <= b <= |s|
  {
    SpanFrom(s, ExtentStart(s), IsExtentChar)
  }

  /** Where the token has to start: after the extent group, an optional `)` and `\s*`. */
  function TokenStart(s: string): (d: nat)
    ensures ExtentEnd(s) <= d <= |s|
  {
    var b := ExtentEnd(s);
    SpanFrom(s, if b < |s| && s[b] == ')' then b + 1 else b, IsSpace)
  }

  /** What `$` leaves over at the end of a match. */
  predicate IsEnding(r: string) {
    r == "" || r == "\n"
  }

  /** The two groups of a match of the format regex: the extent list and the length digits. */
  datatype Groups = Groups(extents: string, length: string)

  /**
   * A match of `^\(?([\d,\s]*)\)?\s*TOKEN(\d*)$`, or without the `(\d*)` group when
   * `withLength` is false: the token, the length digits and the end of the text follow
   * the extent list.
   */
  function MatchFormat(token: string, withLength: bool, s: string): (r: Option<Groups>)
    ensures r.Some? ==> AllDigits(r.value.length)
  {
    var d := TokenStart(s);
    if d + |token| <= |s| && s[d..d + |token|] == token then
      var e := if withLength then SpanFrom(s, d + |token|, IsDigit) else d + |token|;
      SpanRun(s, d + |token|, IsDigit);
      if AtEnd(s, e) then Some(Groups(s[ExtentStart(s)..ExtentEnd(s)], s[d + |token|..e]))
      else None
    else None
  }

  /**
   * What a match consists of: the extent list, then from the token start the token, the
   * length digits (none when `withLength` is false) and the end of the text.
   */
  lemma MatchFormatSound(token: string, withLength: bool, s: string)
    requires MatchFormat(token, withLength, s).Some?
    ensures var g := MatchFormat(token, withLength, s).value;
            var d := TokenStart(s);
            var n := g.length;
            && g.extents == s[ExtentStart(s)..ExtentEnd(s)]
            && AllDigits(n) && (withLength || n == "")
            && d + |token| + |n| <= |s|
            && s[d..d + |token| + |n|] == token + n
            && IsEnding(s[d + |token| + |n|..])
  {
    var d := TokenStart(s);
    var e := if withLength then SpanFrom(s, d + |token|, IsDigit) else d + |token|;
    SpanRun(s, d + |token|, IsDigit);
    var n := s[d + |token|..e];
    assert s[d..e] == s[d..d + |token|] + n;
  }

  /**
   * `NumPyFormat.ident`: the shape `spec` denotes for this format, None when the format
   * regex does not match, or the failure of `int()` on a malformed extent list. A string
   * format without length digits has length 1.
   */
  function Ident(f: Specifier, spec: string): (r: Result<Option<Shape>>)
    ensures r == Ok(None) <==> MatchFormat(f.token, IsStringLike(f), spec).None?
    ensures r.Ok? && r.value.Some? && IsStringLike(f) ==> |r.value.value| >= 1
  {
    match MatchFormat(f.token, IsStringLike(f), spec)
    case None => Ok(None)
    case Some(g) => ShapeOf(IsStringLike(f), g)
  }

  /** The shape the groups of a match denote, or the failure of `int()` on an extent. */
  function ShapeOf(stringLike: bool, g: Groups): (r: Result<Option<Shape>>)
    requires AllDigits(g.length)
    ensures r.Ok? ==> r.value.Some?
    ensures r.Ok? && stringLike ==> |r.value.value| >= 1
  {
    var extents := RStrip(Strip(g.extents), ',');
    if stringLike then
      var length := if g.length == "" then 1 else DecimalValue(g.length);
      if extents == "" then Ok(Some([length]))
      else
        var rest :- ParseInts(Split(extents, ','));
        Ok(Some([length] + rest))
    else if extents == "" then Ok(Some([]))
    else
      var dims :- ParseInts(Split(extents, ','));
      Ok(Some(dims))
  }

  // ---------------------------------------------------------------------------
  // The tokenizer of decode

  /** `\([\d,\s]*\)\s*[a-zA-Z\?]\d*` at position i: where the match ends. */
  function GroupedEnd(s: string, i: nat): (r: Option<nat>)
    requires i <= |s|
    ensures r.Some? ==> i < r.value <= |s|
  {
    if i < |s| && s[i] == '(' then
      var b := SpanFrom(s, i + 1, IsExtentChar);
      if b < |s| && s[b] == ')' then
        var d := SpanFrom(s, b + 1, IsSpace);
        if d < |s| && IsTypeChar(s[d]) then Some(SpanFrom(s, d + 1, IsDigit)) else None
      else None
    else None
  }

  /** `[\d\s]*[a-zA-Z\?]\d*` at position i: where the match ends. */
  function PlainEnd(s: string, i: nat): (r: Option<nat>)
    requires i <= |s|
    ensures r.Some? ==> i < r.value <= |s|
  {
    var b := SpanFrom(s, i, IsPlainChar);
    if b < |s| && IsTypeChar(s[b]) then Some(SpanFrom(s, b + 1, IsDigit)) else None
  }

  /** The tokenizer regex at position i: the first alternative, else the second. */
  function FieldEnd(s: string, i: nat): (r: Option<nat>)
    requires i <= |s|
    ensures r.Some? ==> i < r.value <= |s|
  {
    var g := GroupedEnd(s, i);
    if g.Some? then g else PlainEnd(s, i)
  }

  /** `re.findall` with the tokenizer regex on `s[i..]`: each match taken, in order. */
  function Tokenize(s: string, i: nat): seq<string>
    requires i <= |s|
    decreases |s| - i
  {
    if i == |s| then []
    else match FieldEnd(s, i)
      case Some(e) => [s[i..e]] + Tokenize(s, e)
      case None => Tokenize(s, i + 1)
  }

  /** Every token of `decode` holds a type character. */
  predicate HasTypeChar(t: string) {
    exists k :: 0 <= k < |t| && IsTypeChar(t[k])
  }

  /** Each match of the tokenizer regex holds its type character. */
  lemma FieldEndHasTypeChar(s: string, i: nat)
    requires i <= |s| && FieldEnd(s, i).Some?
    ensures HasTypeChar(s[i..FieldEnd(s, i).value])
  {
    var e := FieldEnd(s, i).value;
    var k: nat;
    if GroupedEnd(s, i).Some? {
      var b := SpanFrom(s, i + 1, IsExtentChar);
      k := SpanFrom(s, b + 1, IsSpace);
    } else {
      k := SpanFrom(s, i, IsPlainChar);
    }
    assert s[i..e][k - i] == s[k];
  }

  /** Every token of `decode` holds a type character. */
  lemma {:induction false} TokensHaveTypeChar(s: string, i: nat)
    requires i <= |s|
    ensures forall j :: 0 <= j < |Tokenize(s, i)| ==> HasTypeChar(Tokenize(s, i)[j])
    decreases |s| - i
  {
    if i < |s| {
      match FieldEnd(s, i)
      case Some(e) =>
        FieldEndHasTypeChar(s, i);
        TokensHaveTypeChar(s, e);
        assert Tokenize(s, i) == [s[i..e]] + Tokenize(s, e);
      case None =>
        TokensHaveTypeChar(s, i + 1);
    }
  }

  /** A token is never a byte-order marker: `=<>|` holds no type character. */
  lemma NotMarker(t: string)
    requires HasTypeChar(t)
    ensures !IsSubstring(t, "=<>|")
  {
    var k :| 0 <= k < |t| && IsTypeChar(t[k]);
    forall i | OccursAt(t, "=<>|", i) ensures t[k] == "=<>|"[i + k] {
      assert t[k] == "=<>|"[i..i + |t|][k];
    }
    forall i | 0 <= i < 4 ensures !IsTypeChar("=<>|"[i]) { }
  }

  // ---------------------------------------------------------------------------
  // The codec

  /**
   * `NumPyParser.decode`: the fields a dtype string lists, each resolved by `find`. A first
   * token that is part of `=<>|` would be returned as a byte-order marker.
   */
  function Decode(cs: CTypeSizes, spec: string): Result<seq<Element>> {
    var split := Tokenize(spec, 0);
    if split == [] then Err(NoTokens)
    else if IsSubstring(split[0], "=<>|") then
      var fields :- FindAll(Formats(cs), split[1..], Ident);
      Ok([Marker(split[0])] + fields)
    else FindAll(Formats(cs), split, Ident)
  }

  /** One field of `encode`: the format `search` picks for its kind and size, with its shape. */
  function RenderField(types: seq<Specifier>, item: Element, strategy: string): (r: Result<string>)
    ensures r.Ok? ==> item.Field?
    ensures item.Marker? ==> r == Err(MisplacedMarker(item.text))
  {
    match item
    case Marker(text) => Err(MisplacedMarker(text))
    case Field(spec, shape) =>
      var found :- Search(types, spec.kind, spec.byteSize, strategy);
      if found.None? then Err(UnknownStrategy(strategy)) else Ok(WithShape(found.value, shape))
  }

  /** The list comprehension of `encode`: every field rendered, the first failure propagated. */
  function RenderFields(types: seq<Specifier>, items: seq<Element>, strategy: string): (r: Result<seq<string>>)
    ensures r.Ok? ==> |r.value| == |items|
                      && forall i :: 0 <= i < |items| ==> RenderField(types, items[i], strategy) == Ok(r.value[i])
    ensures r.Err? ==> exists i :: 0 <= i < |items| && RenderField(types, items[i], strategy) == Err(r.error)
                                   && forall j :: 0 <= j < i ==> RenderField(types, items[j], strategy).Ok?
  {
    if items == [] then Ok([])
    else
      var head :- RenderField(types, items[0], strategy);
      var tail := RenderFields(types, items[1..], strategy);
      if tail.Err? then
        RenderFailure(types, items, strategy, tail.error);
        Err(tail.error)
      else
        Ok([head] + tail.value)
  }

  lemma RenderFailure(types: seq<Specifier>, items: seq<Element>, strategy: string, e: Error)
    requires |items| > 0 && RenderField(types, items[0], strategy).Ok?
    requires exists i :: 0 <= i < |items| - 1 && RenderField(types, items[1..][i], strategy) == Err(e)
                         && forall j :: 0 <= j < i ==> RenderField(types, items[1..][j], strategy).Ok?
    ensures exists i :: 0 <= i < |items| && RenderField(types, items[i], strategy) == Err(e)
                        && forall j :: 0 <= j < i ==> RenderField(types, items[j], strategy).Ok?
  {
    var i :| 0 <= i < |items| - 1 && RenderField(types, items[1..][i], strategy) == Err(e)
             && forall j :: 0 <= j < i ==> RenderField(types, items[1..][j], strategy).Ok?;
    forall j | 0 < j < i + 1 ensures RenderField(types, items[j], strategy).Ok? {
      assert items[j] == items[1..][j - 1];
    }
    assert items[i + 1] == items[1..][i];
  }

  /**
   * `NumPyParser.encode`: a leading marker is copied verbatim, then the rendered fields
   * joined with commas. There must be at least one argument (IndexError otherwise).
   */
  function Encode(cs: CTypeSizes, args: seq<Element>, strategy: string): Result<string> {
    if args == [] then Err(NoArguments)
    else
      var endian := if args[0].Marker? then args[0].text else "";
      var fields := if args[0].Marker? then args[1..] else args;
      var formats :- RenderFields(Formats(cs), fields, strategy);
      Ok(endian + Join(",", formats))
  }

  // ---------------------------------------------------------------------------
  // Properties of the format regex

  /** "S", "a" and "U" each occur in "SaU". */
  lemma StringLetters()
    ensures OccursAt("S", "SaU", 0) && OccursAt("a", "SaU", 1) && OccursAt("U", "SaU", 2)
  {
    assert "SaU"[0..1] == "S";
    assert "SaU"[1..2] == "a";
    assert "SaU"[2..3] == "U";
  }

  /** A token found in "SaU" at `i` has the letter after `i` as its second character. */
  lemma SecondLetter(t: string, i: int)
    ensures |t| >= 2 && OccursAt(t, "SaU", i) ==> t[1] == "SaU"[i + 1] && t[1] == t[1..][0] && i + 1 < 3
  {
    if |t| >= 2 && OccursAt(t, "SaU", i) {
      assert t[1] == "SaU"[i..i + |t|][1];
    }
  }

  /** Only "S", "a" and "U" are string formats among well-shaped tokens. */
  lemma StringLikeTokens(f: Specifier)
    requires IsTokenText(f.token)
    ensures IsStringLike(f) <==> f.token == "S" || f.token == "a" || f.token == "U"
  {
    var t := f.token;
    if IsStringLike(f) {
      var i :| OccursAt(t, "SaU", i);
      if |t| >= 2 {
        SecondLetter(t, i);
        assert false;
      }
      assert t == "SaU"[i..i + 1];
    } else {
      StringLetters();
    }
  }

  /** Every token of the table is well shaped, and only the string formats start with S, a or U. */
  lemma FormatsWellShaped(cs: CTypeSizes)
    ensures WellShapedTable(Formats(cs))
  {
    forall i | 0 <= i < 27 ensures WellShapedToken(FixedFormats()[i].token) {
      if i < 14 {
        LowRowsShaped(i);
      } else {
        HighRowsShaped(i);
      }
    }
    CTypeRowsShaped(cs);
    OtherRowsShaped();
    ShapedConcat(FixedFormats(), CTypeFormats(cs));
    ShapedConcat(FixedFormats() + CTypeFormats(cs), OtherFormats);
  }

  lemma LowRowsShaped(i: nat)
    requires i < 14
    ensures WellShapedToken(FixedRow(i).token)
  {
  }

  lemma HighRowsShaped(i: nat)
    requires 14 <= i < 27
    ensures WellShapedToken(FixedRow(i).token)
  {
  }

  lemma CTypeRowsShaped(cs: CTypeSizes)
    ensures WellShapedTable(CTypeFormats(cs))
  {
  }

  lemma OtherRowsShaped()
    ensures WellShapedTable(OtherFormats)
  {
  }

  /** Two well-shaped tables, one after the other, make a well-shaped table. */
  lemma ShapedConcat(a: seq<Specifier>, b: seq<Specifier>)
    requires WellShapedTable(a) && WellShapedTable(b)
    ensures WellShapedTable(a + b)
  {
    forall i | 0 <= i < |a + b| ensures WellShapedToken((a + b)[i].token) {
      if i < |a| {
        assert (a + b)[i] == a[i];
      } else {
        assert (a + b)[i] == b[i - |a|];
      }
    }
  }

  /** The scanner finds every match the format regex describes. */
  lemma MatchFormatComplete(token: string, withLength: bool, s: string, n: string, ending: string)
    requires AllDigits(n) && (withLength || n == "") && IsEnding(ending)
    requires TokenStart(s) + |token| + |n| + |ending| == |s|
    requires s[TokenStart(s)..] == token + n + ending
    ensures MatchFormat(token, withLength, s) == Some(Groups(s[ExtentStart(s)..ExtentEnd(s)], n))
  {
    var d := TokenStart(s);
    var e := d + |token| + |n|;
    MatchPieces(s, d, token, n, ending);
    if withLength {
      SpanExact(s, d + |token|, e, IsDigit);
    }
    MatchFormatAt(token, withLength, s, e, n);
  }

  /** The scanner's result once the token, the end of the length digits and the end of the text are known. */
  lemma MatchFormatAt(token: string, withLength: bool, s: string, e: nat, n: string)
    requires TokenStart(s) + |token| <= e <= |s| && s[TokenStart(s)..TokenStart(s) + |token|] == token
    requires e == (if withLength then SpanFrom(s, TokenStart(s) + |token|, IsDigit) else TokenStart(s) + |token|)
    requires AtEnd(s, e) && s[TokenStart(s) + |token|..e] == n
    ensures MatchFormat(token, withLength, s) == Some(Groups(s[ExtentStart(s)..ExtentEnd(s)], n))
  {
  }

  /** Text from d on spelling a token, length digits and an ending, taken apart. */
  lemma MatchPieces(s: string, d: nat, token: string, n: string, ending: string)
    requires AllDigits(n) && IsEnding(ending)
    requires d + |token| + |n| + |ending| == |s| && s[d..] == token + n + ending
    ensures s[d..d + |token|] == token && s[d + |token|..d + |token| + |n|] == n
    ensures forall k :: d + |token| <= k < d + |token| + |n| ==> IsDigit(s[k])
    ensures AtEnd(s, d + |token| + |n|) && (d + |token| + |n| < |s| ==> !IsDigit(s[d + |token| + |n|]))
  {
    var w := token + n + ending;
    assert forall k :: 0 <= k < |w| ==> s[d + k] == w[k] by {
      forall k | 0 <= k < |w| ensures s[d + k] == w[k] {
        assert s[d..][k] == s[d + k];
      }
    }
    assert s[d..d + |token|] == token by {
      forall k | 0 <= k < |token| ensures s[d..d + |token|][k] == token[k] {
        assert w[k] == token[k];
      }
    }
    assert s[d + |token|..d + |token| + |n|] == n by {
      forall k | 0 <= k < |n| ensures s[d + |token|..d + |token| + |n|][k] == n[k] {
        assert w[|token| + k] == n[k];
      }
    }
    forall k | d + |token| <= k < d + |token| + |n| ensures IsDigit(s[k]) {
      assert w[k - d] == n[k - d - |token|];
    }
    if |ending| > 0 {
      assert w[|token| + |n|] == ending[0];
    }
  }

  /** Text that starts with its token has no extent list. */
  lemma LeadBare(s: string)
    requires |s| >= 1 && IsTypeChar(s[0])
    ensures ExtentStart(s) == 0 && ExtentEnd(s) == 0 && TokenStart(s) == 0
  {
    SpanExact(s, 0, 0, IsExtentChar);
    SpanExact(s, 0, 0, IsSpace);
  }

  /** Text of the form `(items)token...` has `items` as its extent list. */
  lemma LeadParenthesised(items: string, rest: string)
    requires forall k :: 0 <= k < |items| ==> IsExtentChar(items[k])
    requires |rest| >= 1 && IsTypeChar(rest[0])
    ensures var s := "(" + items + ")" + rest;
            && ExtentStart(s) == 1 && ExtentEnd(s) == 1 + |items| && TokenStart(s) == 2 + |items|
            && s[ExtentStart(s)..ExtentEnd(s)] == items && s[TokenStart(s)..] == rest
  {
    var s := "(" + items + ")" + rest;
    forall k | 1 <= k < 1 + |items| ensures IsExtentChar(s[k]) {
      assert s[k] == items[k - 1];
    }
    assert s[1 + |items|] == ')';
    SpanExact(s, 1, 1 + |items|, IsExtentChar);
    assert s[2 + |items|] == rest[0];
    SpanExact(s, 2 + |items|, 2 + |items|, IsSpace);
    assert s[1..1 + |items|] == items;
    assert s[2 + |items|..] == rest;
  }

  /** Text of the form `items token...` without parentheses: `items` is the extent list. */
  lemma LeadPlain(items: string, rest: string)
    requires forall k :: 0 <= k < |items| ==> IsExtentChar(items[k])
    requires |rest| >= 1 && IsTypeChar(rest[0])
    ensures var s := items + rest;
            && ExtentStart(s) == 0 && ExtentEnd(s) == |items| && TokenStart(s) == |items|
            && s[ExtentStart(s)..ExtentEnd(s)] == items && s[TokenStart(s)..] == rest
  {
    var s := items + rest;
    forall k | 0 <= k < |items| ensures IsExtentChar(s[k]) {
      assert s[k] == items[k];
    }
    assert s[0] == if |items| > 0 then items[0] else rest[0];
    assert s[|items|] == rest[0];
    SpanExact(s, 0, |items|, IsExtentChar);
    SpanExact(s, |items|, |items|, IsSpace);
    assert s[0..|items|] == items;
    assert s[|items|..] == rest;
  }

  // ---------------------------------------------------------------------------
  // with_shape and ident are inverse

  lemma {:induction false} JoinedDecimals(xs: seq<nat>)
    requires |xs| >= 1
    ensures var j := Join(",", Decimals(xs));
            && |j| >= 1 && IsDigit(j[0]) && IsDigit(j[|j| - 1])
            && forall k :: 0 <= k < |j| ==> IsDigit(j[k]) || j[k] == ','
  {
    var d := Decimal(xs[0]);
    if |xs| > 1 {
      JoinedDecimals(xs[1..]);
      var rest := Join(",", Decimals(xs[1..]));
      assert Decimals(xs)[1..] == Decimals(xs[1..]);
      assert Join(",", Decimals(xs)) == d + "," + rest;
      var j := d + "," + rest;
      forall k | 0 <= k < |j| ensures IsDigit(j[k]) || j[k] == ',' {
        if k < |d| { assert j[k] == d[k]; }
        else if k > |d| { assert j[k] == rest[k - |d| - 1]; }
      }
      assert j[|j| - 1] == rest[|rest| - 1];
    }
  }

  lemma {:induction false} ParseDecimals(xs: seq<nat>)
    ensures ParseInts(Decimals(xs)) == Ok(xs)
  {
    if xs != [] {
      var d := Decimal(xs[0]);
      StripUnpadded(d);
      DecimalRoundTrip(xs[0]);
      assert ParseInt(d) == Ok(xs[0]);
      assert Decimals(xs)[1..] == Decimals(xs[1..]);
      ParseDecimals(xs[1..]);
      assert [xs[0]] + xs[1..] == xs;
    }
  }

  /**
   * Reading extents back: `strip`, `rstrip(",")`, `split(",")` and `int` recover the
   * numbers from their comma-joined decimals, with or without a trailing comma.
   */
  lemma JoinedRead(dims: seq<nat>, trailing: bool)
    requires |dims| >= 1
    ensures var items := Join(",", Decimals(dims)) + (if trailing then "," else "");
            && (forall k :: 0 <= k < |items| ==> IsExtentChar(items[k]))
            && RStrip(Strip(items), ',') == Join(",", Decimals(dims))
  {
    var j := Join(",", Decimals(dims));
    var items := j + (if trailing then "," else "");
    JoinedDecimals(dims);
    RStripLast(j, ',');
    forall k | 0 <= k < |items| ensures IsExtentChar(items[k]) {
      if k < |j| { assert items[k] == j[k]; }
    }
    assert items[0] == j[0];
    StripUnpadded(items);
  }

  lemma JoinedParse(dims: seq<nat>)
    requires |dims| >= 1
    ensures ParseInts(Split(Join(",", Decimals(dims)), ',')) == Ok(dims)
  {
    forall i | 0 <= i < |Decimals(dims)| ensures ',' !in Decimals(dims)[i] {
      assert AllDigits(Decimals(dims)[i]);
    }
    SplitJoin(Decimals(dims), ',');
    ParseDecimals(dims);
  }

  /** The extent list `with_shape` writes reads back as the extents. */
  lemma ExtentItemsRead(dims: seq<nat>)
    requires |dims| >= 1
    ensures forall k :: 0 <= k < |ExtentItems(dims)| ==> IsExtentChar(ExtentItems(dims)[k])
    ensures var extents := RStrip(Strip(ExtentItems(dims)), ',');
            extents != "" && ParseInts(Split(extents, ',')) == Ok(dims)
  {
    if |dims| == 1 {
      assert Decimals(dims) == [Decimal(dims[0])];
    }
    JoinedRead(dims, |dims| == 1);
    JoinedParse(dims);
  }

  /** A bare token denotes a scalar, or a single string of length 1 for a string format. */
  lemma IdentBare(f: Specifier)
    requires IsTokenText(f.token)
    ensures Ident(f, f.token) == Ok(Some(if IsStringLike(f) then [1] else []))
  {
    var t := f.token;
    LeadBare(t);
    assert t[0..] == t + "" + "";
    MatchFormatComplete(t, IsStringLike(f), t, "", "");
    assert t[0..0] == "";
    assert Strip("") == "";
  }

  /** A string format followed by its length digits: one string of that length. */
  lemma IdentStringLength(f: Specifier, n: nat)
    requires IsTokenText(f.token) && IsStringLike(f)
    ensures Ident(f, f.token + Decimal(n)) == Ok(Some([n]))
  {
    var t := f.token;
    var s := t + Decimal(n);
    LeadBare(s);
    assert s[0..] == t + Decimal(n) + "";
    MatchFormatComplete(t, true, s, Decimal(n), "");
    assert s[0..0] == "";
    assert Strip("") == "";
    DecimalRoundTrip(n);
  }

  /** The format regex on `(extents)` followed by the token and the length digits. */
  lemma MatchParenthesised(token: string, withLength: bool, dims: seq<nat>, length: string)
    requires IsTokenText(token) && |dims| >= 1
    requires AllDigits(length) && (withLength || length == "")
    ensures MatchFormat(token, withLength, ExtentList(dims) + token + length)
            == Some(Groups(ExtentItems(dims), length))
  {
    var items := ExtentItems(dims);
    var s := ExtentList(dims) + token + length;
    assert s == "(" + items + ")" + (token + length);
    ExtentItemsRead(dims);
    LeadParenthesised(items, token + length);
    assert (token + length)[0] == token[0];
    assert token + length == token + length + "";
    MatchFormatComplete(token, withLength, s, length, "");
  }

  /** An extent list, a string format and a length: the length comes first in the shape. */
  lemma IdentStringExtents(f: Specifier, length: string, dims: seq<nat>)
    requires IsTokenText(f.token) && IsStringLike(f) && |dims| >= 1
    requires length == "" || (|length| > 0 && AllDigits(length))
    ensures Ident(f, ExtentList(dims) + f.token + length)
            == Ok(Some([if length == "" then 1 else DecimalValue(length)] + dims))
  {
    MatchParenthesised(f.token, true, dims, length);
    ExtentItemsRead(dims);
    IdentOfExtents(f, ExtentList(dims) + f.token + length, Groups(ExtentItems(dims), length), dims);
  }

  /**
   * A count without parentheses before the token (`"15?"`, `"90a10"`): the count is the
   * extent list, and a string format puts its length first.
   */
  lemma IdentPlainExtents(f: Specifier, dims: seq<nat>, length: string)
    requires IsTokenText(f.token) && |dims| >= 1
    requires AllDigits(length) && (IsStringLike(f) || length == "")
    ensures Ident(f, Join(",", Decimals(dims)) + f.token + length)
            == Ok(Some(if IsStringLike(f) then [if length == "" then 1 else DecimalValue(length)] + dims
                       else dims))
  {
    var items := Join(",", Decimals(dims));
    assert items + f.token + length == items + (f.token + length);
    JoinedRead(dims, false);
    assert items + "" == items;
    JoinedParse(dims);
    IdentPlainItems(f, items, length, dims);
  }

  /** A field whose extents stand before the token, outside parentheses. */
  lemma IdentPlainItems(f: Specifier, items: string, length: string, dims: seq<nat>)
    requires IsTokenText(f.token)
    requires AllDigits(length) && (IsStringLike(f) || length == "")
    requires forall k :: 0 <= k < |items| ==> IsExtentChar(items[k])
    requires RStrip(Strip(items), ',') == items && items != ""
    requires ParseInts(Split(items, ',')) == Ok(dims)
    ensures Ident(f, items + (f.token + length))
            == Ok(Some(if IsStringLike(f) then [if length == "" then 1 else DecimalValue(length)] + dims
                       else dims))
  {
    var s := items + (f.token + length);
    PlainMatch(f.token, IsStringLike(f), items, length);
    IdentOfExtents(f, s, Groups(items, length), dims);
  }

  lemma PlainMatch(token: string, withLength: bool, items: string, length: string)
    requires IsTokenText(token)
    requires AllDigits(length) && (withLength || length == "")
    requires forall k :: 0 <= k < |items| ==> IsExtentChar(items[k])
    ensures MatchFormat(token, withLength, items + (token + length)) == Some(Groups(items, length))
  {
    var rest := token + length;
    var s := items + rest;
    LeadPlain(items, rest);
    assert rest[0] == token[0];
    assert rest == token + length + "";
    MatchFormatComplete(token, withLength, s, length, "");
  }

  /** What `ident` makes of a match whose extent list reads as `dims`. */
  lemma IdentOfExtents(f: Specifier, s: string, g: Groups, dims: seq<nat>)
    requires MatchFormat(f.token, IsStringLike(f), s) == Some(g)
    requires RStrip(Strip(g.extents), ',') != ""
    requires ParseInts(Split(RStrip(Strip(g.extents), ','), ',')) == Ok(dims)
    ensures Ident(f, s) == Ok(Some(if IsStringLike(f)
                                   then [if g.length == "" then 1 else DecimalValue(g.length)] + dims
                                   else dims))
  {
  }

  /** An extent list and a non-string format: exactly those extents. */
  lemma IdentExtents(f: Specifier, dims: seq<nat>)
    requires IsTokenText(f.token) && !IsStringLike(f) && |dims| >= 1
    ensures Ident(f, ExtentList(dims) + f.token) == Ok(Some(dims))
  {
    MatchParenthesised(f.token, false, dims, "");
    assert ExtentList(dims) + f.token + "" == ExtentList(dims) + f.token;
    ExtentItemsRead(dims);
    IdentOfExtents(f, ExtentList(dims) + f.token, Groups(ExtentItems(dims), ""), dims);
  }

  /** `ident(with_shape(shape)) == shape`, for every shape a format can render. */
  lemma IdentWithShape(f: Specifier, shape: Shape)
    requires IsTokenText(f.token)
    requires IsStringLike(f) ==> |shape| >= 1
    ensures Ident(f, WithShape(f, shape)) == Ok(Some(shape))
  {
    if |shape| == 0 {
      IdentBare(f);
    } else if IsStringLike(f) {
      IdentStringWithShape(f, shape);
    } else {
      IdentExtents(f, shape);
    }
  }

  lemma IdentStringWithShape(f: Specifier, shape: Shape)
    requires IsTokenText(f.token) && IsStringLike(f) && |shape| >= 1
    ensures Ident(f, WithShape(f, shape)) == Ok(Some(shape))
  {
    if |shape| == 1 {
      assert WithShape(f, shape) == f.token + Decimal(shape[0]);
      IdentStringLength(f, shape[0]);
      assert shape == [shape[0]];
    } else {
      var s := WithShape(f, shape);
      assert s == ExtentList(shape[1..]) + f.token + Decimal(shape[0]);
      IdentStringMany(f, shape, s);
    }
  }

  lemma IdentStringMany(f: Specifier, shape: Shape, s: string)
    requires IsTokenText(f.token) && IsStringLike(f) && |shape| >= 2
    requires s == ExtentList(shape[1..]) + f.token + Decimal(shape[0])
    ensures Ident(f, s) == Ok(Some(shape))
  {
    DecimalRoundTrip(shape[0]);
    IdentStringExtents(f, Decimal(shape[0]), shape[1..]);
    assert [shape[0]] + shape[1..] == shape;
  }

  // ---------------------------------------------------------------------------
  // Which table entry `find` picks

  /** Whether a character is the whole token of a string format. */
  predicate IsStringLetter(c: char) { c == 'S' || c == 'a' || c == 'U' }

  /**
   * The token a format needs in order to accept text whose token part is `w`: for a string
   * format only the letter counts (the digits are the length), otherwise the whole of `w`.
   */
  function TokenKey(w: string): (key: string)
    requires IsTokenText(w)
    ensures IsTokenText(key) && key <= w
  {
    if IsStringLetter(w[0]) then w[..1] else w
  }

  /** Token text and length digits contain no newline, so `$` cannot shift where they end. */
  lemma EndingSplit(w: string, e: string, u: string, e': string)
    requires forall k :: 0 <= k < |w| ==> w[k] != '\n'
    requires forall k :: 0 <= k < |u| ==> u[k] != '\n'
    requires IsEnding(e) && IsEnding(e') && w + e == u + e'
    ensures w == u
  {
    assert forall k :: 0 <= k < |w + e| ==> ((w + e)[k] == '\n' <==> k >= |w|);
    assert forall k :: 0 <= k < |u + e'| ==> ((u + e')[k] == '\n' <==> k >= |u|);
    var m := if |w| < |u| then |w| else |u|;
    if m < |w + e| {
      assert (w + e)[m] == (u + e')[m];
    }
    assert |w| == |u|;
    assert w == (w + e)[..|w|];
    assert u == (u + e')[..|u|];
  }

  lemma TokenTextNoNewline(w: string)
    requires IsTokenText(w)
    ensures forall k :: 0 <= k < |w| ==> w[k] != '\n'
  {
    forall k | 1 <= k < |w| ensures IsDigit(w[k]) {
      assert w[k] == w[1..][k - 1];
    }
  }

  /** A format whose token is the key accepts the text. */
  lemma IdentKeyAccepts(f: Specifier, s: string, w: string, ending: string)
    requires IsTokenText(f.token) && KeepsStringLetters(f.token)
    requires IsTokenText(w) && IsEnding(ending)
    requires s[TokenStart(s)..] == w + ending
    requires f.token == TokenKey(w)
    ensures MatchFormat(f.token, IsStringLike(f), s).Some?
  {
    var t := f.token;
    StringLikeTokens(f);
    if IsStringLetter(w[0]) {
      assert w == t + w[1..];
      assert AllDigits(w[1..]);
      MatchFormatComplete(t, true, s, w[1..], ending);
    } else {
      assert w + ending == t + "" + ending;
      MatchFormatComplete(t, false, s, "", ending);
    }
  }

  /** A format that accepts the text has the key as its token. */
  lemma IdentAcceptsKey(f: Specifier, s: string, w: string, ending: string)
    requires IsTokenText(f.token) && KeepsStringLetters(f.token)
    requires IsTokenText(w) && IsEnding(ending)
    requires s[TokenStart(s)..] == w + ending
    requires MatchFormat(f.token, IsStringLike(f), s).Some?
    ensures f.token == TokenKey(w)
  {
    var d := TokenStart(s);
    var n := MatchFormat(f.token, IsStringLike(f), s).value.length;
    var u := f.token + n;
    AcceptedTail(f, s);
    DigitsNoNewline(f.token, n);
    TokenTextNoNewline(w);
    EndingSplit(w, ending, u, s[d + |u|..]);
    KeyOfAccepted(f, n, w);
  }

  /** What follows the extent list of an accepted text: the token, its digits, the end. */
  lemma AcceptedTail(f: Specifier, s: string)
    requires MatchFormat(f.token, IsStringLike(f), s).Some?
    ensures var n := MatchFormat(f.token, IsStringLike(f), s).value.length;
            var d := TokenStart(s);
            && AllDigits(n) && (IsStringLike(f) || n == "")
            && d + |f.token + n| <= |s|
            && s[d..] == (f.token + n) + s[d + |f.token + n|..]
            && IsEnding(s[d + |f.token + n|..])
  {
    MatchFormatSound(f.token, IsStringLike(f), s);
    var n := MatchFormat(f.token, IsStringLike(f), s).value.length;
    var d := TokenStart(s);
    var e := d + |f.token| + |n|;
    assert s[d..] == s[d..e] + s[e..];
  }

  lemma DigitsNoNewline(t: string, n: string)
    requires IsTokenText(t) && AllDigits(n)
    ensures forall k :: 0 <= k < |t + n| ==> (t + n)[k] != '\n'
  {
    TokenTextNoNewline(t);
    forall k | 0 <= k < |t + n| ensures (t + n)[k] != '\n' {
      if k >= |t| { assert (t + n)[k] == n[k - |t|]; }
    }
  }

  /** Token text made of a table token and its digits is keyed by that token. */
  lemma KeyOfAccepted(f: Specifier, n: string, w: string)
    requires IsTokenText(f.token) && KeepsStringLetters(f.token)
    requires AllDigits(n) && (IsStringLike(f) || n == "")
    requires IsTokenText(w) && w == f.token + n
    ensures f.token == TokenKey(w)
  {
    var t := f.token;
    StringLikeTokens(f);
    assert w[..1] == t[..1];
    if IsStringLike(f) {
      assert t == w[..1];
    } else {
      assert w == t;
    }
  }

  /**
   * A format of the table accepts text whose token part (after the extent list) is `w`
   * exactly when its token is the key of `w`.
   */
  lemma IdentByKey(f: Specifier, s: string, w: string, ending: string)
    requires IsTokenText(f.token) && KeepsStringLetters(f.token)
    requires IsTokenText(w) && IsEnding(ending)
    requires s[TokenStart(s)..] == w + ending
    ensures Ident(f, s) == Ok(None) <==> f.token != TokenKey(w)
  {
    if f.token == TokenKey(w) {
      IdentKeyAccepts(f, s, w, ending);
    }
    if MatchFormat(f.token, IsStringLike(f), s).Some? {
      IdentAcceptsKey(f, s, w, ending);
    }
  }

  /**
   * `find` on text whose token part is `w` resolves to the first entry whose token is the
   * key of `w`, and fails as unsupported when no entry has that token.
   */
  lemma FindByKey(types: seq<Specifier>, s: string, w: string, ending: string)
    requires WellShapedTable(types)
    requires IsTokenText(w) && IsEnding(ending)
    requires s[TokenStart(s)..] == w + ending
    ensures FirstToken(types, TokenKey(w)).None? ==> Find(types, s, Ident) == Err(UnsupportedSpecifier(s))
    ensures FirstToken(types, TokenKey(w)).Some? ==>
              var i := FirstToken(types, TokenKey(w)).value;
              && Ident(types[i], s) != Ok(None)
              && Find(types, s, Ident) == match Ident(types[i], s)
                                          case Ok(shape) => Ok((types[i], shape.value))
                                          case Err(e) => Err(e)
  {
    var key := TokenKey(w);
    forall j | 0 <= j < |types| ensures Ident(types[j], s) == Ok(None) <==> types[j].token != key {
      IdentByKey(types[j], s, w, ending);
    }
    var r := FirstToken(types, key);
    if r.Some? {
      FindFirst(types, s, Ident, r.value);
    }
  }

  // ---------------------------------------------------------------------------
  // The tokenizer

  /**
   * `decode` never returns a byte-order marker: its tokens all hold a type character, so
   * none is part of `=<>|`. What is left is `find` on every token, in input order.
   */
  lemma DecodeHasNoMarker(cs: CTypeSizes, spec: string)
    ensures Decode(cs, spec) == if Tokenize(spec, 0) == [] then Err(NoTokens)
                                else FindAll(Formats(cs), Tokenize(spec, 0), Ident)
    ensures Decode(cs, spec).Ok? ==> forall i :: 0 <= i < |Decode(cs, spec).value| ==> Decode(cs, spec).value[i].Field?
  {
    var split := Tokenize(spec, 0);
    if split != [] {
      TokensHaveTypeChar(spec, 0);
      NotMarker(split[0]);
    }
  }

  /** The steps of a match of the first alternative of the tokenizer regex. */
  lemma GroupedEndIs(s: string, i: nat, c: nat, d: nat, e: nat)
    requires i < |s| && s[i] == '('
    requires SpanFrom(s, i + 1, IsExtentChar) == c && c < |s| && s[c] == ')'
    requires SpanFrom(s, c + 1, IsSpace) == d && d < |s| && IsTypeChar(s[d])
    requires SpanFrom(s, d + 1, IsDigit) == e
    ensures GroupedEnd(s, i) == Some(e)
  {
  }

  /**
   * The shape of every field `with_shape` writes: an optional parenthesised extent list of
   * length `m`, then token text (a type character and digits).
   */
  predicate IsFieldTextAt(r: string, m: nat) {
    && m <= |r| && IsTokenText(r[m..])
    && (m == 0 || (m >= 2 && r[0] == '(' && r[m - 1] == ')'
                   && forall k :: 1 <= k < m - 1 ==> IsExtentChar(r[k])))
  }

  predicate IsFieldText(r: string) {
    exists m: nat | m <= |r| :: IsFieldTextAt(r, m)
  }

  /** Every rendered field has that shape. */
  lemma WithShapeIsField(f: Specifier, shape: Shape)
    requires IsTokenText(f.token)
    ensures IsFieldText(WithShape(f, shape))
  {
    var t := f.token;
    if |shape| == 0 {
      BareIsField(t);
    } else if IsStringLike(f) {
      var tail := t + Decimal(shape[0]);
      TokenWithDigits(t, Decimal(shape[0]));
      if |shape| == 1 {
        assert WithShape(f, shape) == tail;
        BareIsField(tail);
      } else {
        assert WithShape(f, shape) == "(" + ExtentItems(shape[1..]) + ")" + tail;
        ExtentItemsChars(shape[1..]);
        ParenthesisedIsField(ExtentItems(shape[1..]), tail);
      }
    } else {
      assert WithShape(f, shape) == "(" + ExtentItems(shape) + ")" + t;
      ExtentItemsChars(shape);
      ParenthesisedIsField(ExtentItems(shape), t);
    }
  }

  lemma BareIsField(t: string)
    requires IsTokenText(t)
    ensures IsFieldText(t)
  {
    assert t[0..] == t;
    assert IsFieldTextAt(t, 0);
  }

  lemma ExtentItemsChars(dims: seq<nat>)
    requires |dims| >= 1
    ensures forall k :: 0 <= k < |ExtentItems(dims)| ==> IsExtentChar(ExtentItems(dims)[k])
  {
    ExtentItemsRead(dims);
  }

  lemma TokenWithDigits(t: string, n: string)
    requires IsTokenText(t) && AllDigits(n)
    ensures IsTokenText(t + n)
  {
    var u := t + n;
    forall k | 0 <= k < |u| - 1 ensures IsDigit(u[1..][k]) {
      if k + 1 < |t| { assert u[1..][k] == t[1..][k]; }
      else { assert u[1..][k] == n[k + 1 - |t|]; }
    }
  }

  lemma ParenthesisedIsField(items: string, tail: string)
    requires forall k :: 0 <= k < |items| ==> IsExtentChar(items[k])
    requires IsTokenText(tail)
    ensures IsFieldText("(" + items + ")" + tail)
  {
    var r := "(" + items + ")" + tail;
    var m := |items| + 2;
    assert r[m..] == tail;
    forall k | 1 <= k < m - 1 ensures IsExtentChar(r[k]) {
      assert r[k] == items[k - 1];
    }
    assert IsFieldTextAt(r, m);
  }

  /**
   * The tokenizer, started at a rendered field followed by a comma or by the end of the
   * text, takes exactly that field.
   */
  lemma FieldEndAt(s: string, p: nat, r: string, m: nat)
    requires IsFieldTextAt(r, m)
    requires p + |r| <= |s| && forall k :: 0 <= k < |r| ==> s[p + k] == r[k]
    requires p + |r| == |s| || s[p + |r|] == ','
    ensures FieldEnd(s, p) == Some(p + |r|)
  {
    var w := r[m..];
    forall k | p + m + 1 <= k < p + |r| ensures IsDigit(s[k]) {
      assert s[k] == r[k - p] == w[k - p - m] == w[1..][k - p - m - 1];
    }
    SpanExact(s, p + m + 1, p + |r|, IsDigit);
    if m == 0 {
      assert s[p] == w[0];
      SpanExact(s, p, p, IsPlainChar);
    } else {
      forall k | p + 1 <= k < p + m - 1 ensures IsExtentChar(s[k]) {
        assert s[k] == r[k - p];
      }
      assert s[p + m - 1] == ')';
      SpanExact(s, p + 1, p + m - 1, IsExtentChar);
      assert s[p + m] == w[0];
      SpanExact(s, p + m, p + m, IsSpace);
      GroupedEndIs(s, p, p + m - 1, p + m, p + |r|);
    }
  }

  /** A comma starts no token and is skipped. */
  lemma TokenizeSkipsComma(s: string, i: nat)
    requires i < |s| && s[i] == ','
    ensures Tokenize(s, i) == Tokenize(s, i + 1)
  {
    SpanExact(s, i, i, IsPlainChar);
  }

  /** A rendered field followed by a comma or the end is one token of `re.findall`. */
  lemma TokenizeField(s: string, p: nat, r: string)
    requires IsFieldText(r)
    requires p + |r| <= |s| && s[p..p + |r|] == r
    requires p + |r| == |s| || s[p + |r|] == ','
    ensures Tokenize(s, p) == [r] + Tokenize(s, p + |r|)
  {
    forall k | 0 <= k < |r| ensures s[p + k] == r[k] {
      assert s[p..p + |r|][k] == s[p + k];
    }
    TokenizeFieldAt(s, p, r);
  }

  /** The same, with the field given character by character. */
  lemma TokenizeFieldAt(s: string, p: nat, r: string)
    requires IsFieldText(r)
    requires p + |r| <= |s| && forall k :: 0 <= k < |r| ==> s[p + k] == r[k]
    requires p + |r| == |s| || s[p + |r|] == ','
    ensures Tokenize(s, p) == [r] + Tokenize(s, p + |r|)
  {
    var m: nat :| m <= |r| && IsFieldTextAt(r, m);
    assert |r[m..]| >= 1;
    FieldEndAt(s, p, r, m);
    TokenizeStepAt(s, p, r);
  }

  /** A match of the field `r` at position p is the next token. */
  lemma TokenizeStepAt(s: string, p: nat, r: string)
    requires |r| >= 1 && p + |r| <= |s| && forall k :: 0 <= k < |r| ==> s[p + k] == r[k]
    requires FieldEnd(s, p) == Some(p + |r|)
    ensures Tokenize(s, p) == [r] + Tokenize(s, p + |r|)
  {
    assert s[p..p + |r|] == r by {
      forall k | 0 <= k < |r| ensures s[p..p + |r|][k] == r[k] {
        assert s[p + k] == r[k];
      }
    }
    TokenizeStep(s, p, p + |r|);
  }

  /** A match at position p is the next token. */
  lemma TokenizeStep(s: string, p: nat, e: nat)
    requires p < |s| && FieldEnd(s, p) == Some(e)
    ensures Tokenize(s, p) == [s[p..e]] + Tokenize(s, e)
  {
  }

  /** A rendered field and a comma at position p: one token, then tokenizing resumes after the comma. */
  lemma TokenizeFieldComma(s: string, p: nat, r: string)
    requires IsFieldText(r)
    requires p + |r| < |s| && forall k :: 0 <= k < |r| ==> s[p + k] == r[k]
    requires s[p + |r|] == ','
    ensures Tokenize(s, p) == [r] + Tokenize(s, p + |r| + 1)
  {
    TokenizeFieldAt(s, p, r);
    TokenizeSkipsComma(s, p + |r|);
  }

  /** Where `j` is spelled at p, its first field `r` is spelled at p and its rest after the comma. */
  lemma ShiftChars(s: string, p: nat, j: string, r: string, rest: string)
    requires j == r + "," + rest
    requires p + |j| == |s| && forall k :: 0 <= k < |j| ==> s[p + k] == j[k]
    ensures p + |r| < |s| && s[p + |r|] == ','
    ensures forall k :: 0 <= k < |r| ==> s[p + k] == r[k]
    ensures p + |r| + 1 + |rest| == |s| && forall k :: 0 <= k < |rest| ==> s[p + |r| + 1 + k] == rest[k]
  {
    forall k | 0 <= k < |r| ensures s[p + k] == r[k] {
      assert j[k] == r[k];
    }
    assert j[|r|] == ',';
    forall k | 0 <= k < |rest| ensures s[p + |r| + 1 + k] == rest[k] {
      assert j[|r| + 1 + k] == rest[k];
    }
  }

  /** Comma-joined renderings: the first, a comma, and the rest joined. */
  lemma JoinComma(renders: seq<string>)
    requires |renders| >= 2
    ensures Join(",", renders) == renders[0] + "," + Join(",", renders[1..])
  {
  }

  /** The renderings after the first are still rendered fields, and follow the first. */
  lemma FieldTail(renders: seq<string>)
    requires |renders| >= 1 && forall i :: 0 <= i < |renders| ==> IsFieldText(renders[i])
    ensures forall i :: 0 <= i < |renders[1..]| ==> IsFieldText(renders[1..][i])
    ensures renders == [renders[0]] + renders[1..]
  {
    assert forall i :: 0 <= i < |renders[1..]| ==> renders[1..][i] == renders[i + 1];
  }

  /** The fields `renders` spelled one after the other from position p to the end of `s`, separated by commas. */
  predicate SpelledAt(s: string, p: nat, renders: seq<string>)
    decreases |renders|
  {
    && |renders| >= 1
    && p + |renders[0]| <= |s|
    && (forall k :: 0 <= k < |renders[0]| ==> s[p + k] == renders[0][k])
    && if |renders| == 1 then p + |renders[0]| == |s|
       else p + |renders[0]| < |s| && s[p + |renders[0]|] == ',' && SpelledAt(s, p + |renders[0]| + 1, renders[1..])
  }

  /** Comma-joined fields spelled at p are spelled there one by one. */
  lemma {:induction false} JoinSpelled(s: string, p: nat, renders: seq<string>)
    requires |renders| >= 1
    requires var j := Join(",", renders); p + |j| == |s| && forall k :: 0 <= k < |j| ==> s[p + k] == j[k]
    ensures SpelledAt(s, p, renders)
    decreases |renders|
  {
    if |renders| >= 2 {
      JoinComma(renders);
      ShiftChars(s, p, Join(",", renders), renders[0], Join(",", renders[1..]));
      JoinSpelled(s, p + |renders[0]| + 1, renders[1..]);
    }
  }

  /** `re.findall` on rendered fields spelled one after the other gives back exactly those fields. */
  lemma {:induction false} TokenizeSpelled(s: string, p: nat, renders: seq<string>)
    requires forall i :: 0 <= i < |renders| ==> IsFieldText(renders[i])
    requires SpelledAt(s, p, renders)
    ensures Tokenize(s, p) == renders
    decreases |renders|
  {
    var r := renders[0];
    if |renders| == 1 {
      TokenizeFieldAt(s, p, r);
      assert renders == [r];
    } else {
      TokenizeFieldComma(s, p, r);
      FieldTail(renders);
      TokenizeSpelled(s, p + |r| + 1, renders[1..]);
    }
  }

  /** `re.findall` on comma-joined rendered fields gives back exactly those fields. */
  lemma TokenizeJoined(renders: seq<string>)
    requires |renders| >= 1 && forall i :: 0 <= i < |renders| ==> IsFieldText(renders[i])
    ensures Tokenize(Join(",", renders), 0) == renders
  {
    var s := Join(",", renders);
    assert forall k :: 0 <= k < |s| ==> s[0 + k] == s[k];
    JoinSpelled(s, 0, renders);
    TokenizeSpelled(s, 0, renders);
  }

  // ---------------------------------------------------------------------------
  // decode after encode

  /** The shape `ident` reads back from `with_shape(shape)`: a bare string format has length 1. */
  function DecodedShape(f: Specifier, shape: Shape): Shape {
    if IsStringLike(f) && |shape| == 0 then [1] else shape
  }

  /** The token part of a rendered field is keyed by the format's own token. */
  lemma RenderTail(f: Specifier, shape: Shape)
    requires IsTokenText(f.token) && KeepsStringLetters(f.token)
    ensures var r := WithShape(f, shape);
            && IsTokenText(r[TokenStart(r)..]) && TokenKey(r[TokenStart(r)..]) == f.token
  {
    var t := f.token;
    if IsStringLike(f) && |shape| >= 1 {
      var tail := t + Decimal(shape[0]);
      TokenWithDigits(t, Decimal(shape[0]));
      StringKey(f, tail);
      if |shape| == 1 {
        TailOfBare(tail);
      } else {
        ExtentItemsChars(shape[1..]);
        StringManyForm(f, shape);
        GroupedTail(ExtentItems(shape[1..]), tail, t);
      }
    } else {
      OwnKey(f);
      if |shape| == 0 {
        TailOfBare(t);
      } else {
        ExtentItemsChars(shape);
        GroupedTail(ExtentItems(shape), t, t);
      }
    }
  }

  /** A string format with extents after its length, regrouped as the extent group and the token part. */
  lemma StringManyForm(f: Specifier, shape: Shape)
    requires IsStringLike(f) && |shape| >= 2
    ensures WithShape(f, shape) == "(" + ExtentItems(shape[1..]) + ")" + (f.token + Decimal(shape[0]))
  {
  }

  /** After a parenthesised extent group, the token part is the text after the group. */
  lemma GroupedTail(items: string, rest: string, key: string)
    requires forall k :: 0 <= k < |items| ==> IsExtentChar(items[k])
    requires IsTokenText(rest) && TokenKey(rest) == key
    ensures var r := "(" + items + ")" + rest;
            && IsTokenText(r[TokenStart(r)..]) && TokenKey(r[TokenStart(r)..]) == key
  {
    LeadParenthesised(items, rest);
  }

  lemma TailOfBare(r: string)
    requires IsTokenText(r)
    ensures TokenStart(r) == 0 && r[TokenStart(r)..] == r
  {
    LeadBare(r);
    assert r[0..] == r;
  }

  /** A string format's length digits do not change the key. */
  lemma StringKey(f: Specifier, tail: string)
    requires IsTokenText(f.token) && IsStringLike(f)
    requires IsTokenText(tail) && |tail| >= |f.token| && tail[..|f.token|] == f.token
    ensures TokenKey(tail) == f.token
  {
    StringLikeTokens(f);
    assert tail[0] == f.token[0];
  }

  /** A format's token is its own key. */
  lemma OwnKey(f: Specifier)
    requires IsTokenText(f.token) && KeepsStringLetters(f.token)
    ensures TokenKey(f.token) == f.token
  {
    StringLikeTokens(f);
    assert f.token[..1] == [f.token[0]];
  }

  /**
   * `find` on a rendered field picks the first table entry with the rendering format's
   * token, and reads the shape back.
   */
  lemma FindRendered(types: seq<Specifier>, f: Specifier, shape: Shape)
    requires WellShapedTable(types)
    requires f in types
    ensures FirstToken(types, f.token).Some?
    ensures Find(types, WithShape(f, shape), Ident)
            == Ok((types[FirstToken(types, f.token).value], DecodedShape(f, shape)))
  {
    var r := WithShape(f, shape);
    RenderTail(f, shape);
    var w := r[TokenStart(r)..];
    assert r[TokenStart(r)..] == w + "";
    FindByKey(types, r, w, "");
    var j := FirstToken(types, f.token).value;
    var g := types[j];
    assert WithShape(g, shape) == r;
    if IsStringLike(g) && |shape| == 0 {
      IdentBare(g);
    } else {
      IdentWithShape(g, shape);
    }
  }

  /** `find` on every token succeeds when each one does, in order. */
  lemma FindAllSucceeds(types: seq<Specifier>, tokens: seq<string>, expected: seq<Element>)
    requires |expected| == |tokens|
    requires forall i :: 0 <= i < |tokens| ==>
               expected[i].Field? && Find(types, tokens[i], Ident) == Ok((expected[i].spec, expected[i].shape))
    ensures FindAll(types, tokens, Ident) == Ok(expected)
  {
    var r := FindAll(types, tokens, Ident);
    assert r.Ok?;
    assert r.value == expected;
  }

  /** The table entry `search` picks for one field under a strategy, when it picks one. */
  function Picked(types: seq<Specifier>, item: Element, strategy: string): (r: Option<Specifier>)
    requires item.Field?
    ensures r.Some? ==> r.value in types && r.value.kind == item.spec.kind
  {
    SearchKind(types, item.spec.kind, item.spec.byteSize, strategy);
    match Search(types, item.spec.kind, item.spec.byteSize, strategy)
    case Ok(Some(f)) => Some(f)
    case _ => None
  }

  /** Every token of the table is token text, and the string letters stand alone. */
  predicate WellShapedTable(types: seq<Specifier>) {
    forall i :: 0 <= i < |types| ==> WellShapedToken(types[i].token)
  }

  predicate WellShapedToken(t: string) {
    IsTokenText(t) && KeepsStringLetters(t)
  }

  /**
   * `find` on the tokens of comma-joined fields written by `with_shape` for table entries
   * gives one field per rendered one, in order, with the same token and the shape read back.
   */
  lemma FindAllRendered(types: seq<Specifier>, renders: seq<string>, fs: seq<Specifier>, shapes: seq<Shape>)
    requires WellShapedTable(types)
    requires |renders| >= 1 && |fs| == |renders| && |shapes| == |renders|
    requires forall i :: 0 <= i < |renders| ==> fs[i] in types && renders[i] == WithShape(fs[i], shapes[i])
    ensures Tokenize(Join(",", renders), 0) == renders
    ensures var d := FindAll(types, renders, Ident);
            && d.Ok? && |d.value| == |renders|
            && forall i :: 0 <= i < |renders| ==>
                 && d.value[i].Field?
                 && d.value[i].spec.token == fs[i].token
                 && FirstToken(types, fs[i].token).Some?
                 && d.value[i].spec == types[FirstToken(types, fs[i].token).value]
                 && d.value[i].shape == DecodedShape(fs[i], shapes[i])
  {
    var text := Join(",", renders);
    forall i | 0 <= i < |renders| ensures IsFieldText(renders[i]) {
      assert IsTokenText(fs[i].token);
      WithShapeIsField(fs[i], shapes[i]);
    }
    TokenizeJoined(renders);
    forall i | 0 <= i < |renders|
      ensures && FirstToken(types, fs[i].token).Some?
              && Find(types, renders[i], Ident)
                 == Ok((types[FirstToken(types, fs[i].token).value], DecodedShape(fs[i], shapes[i])))
    {
      FindRendered(types, fs[i], shapes[i]);
    }
  }

  /** `RenderFields` succeeds only with the rendering of the entry `search` picks for each field. */
  lemma RenderFieldsPicked(types: seq<Specifier>, fields: seq<Element>, strategy: string)
    requires forall i :: 0 <= i < |fields| ==> fields[i].Field?
    requires RenderFields(types, fields, strategy).Ok?
    ensures forall i :: 0 <= i < |fields| ==>
              && Picked(types, fields[i], strategy).Some?
              && RenderFields(types, fields, strategy).value[i]
                 == WithShape(Picked(types, fields[i], strategy).value, fields[i].shape)
  {
    var renders := RenderFields(types, fields, strategy).value;
    forall i | 0 <= i < |fields|
      ensures && Picked(types, fields[i], strategy).Some?
              && renders[i] == WithShape(Picked(types, fields[i], strategy).value, fields[i].shape)
    {
      assert RenderField(types, fields[i], strategy) == Ok(renders[i]);
    }
  }

  /** The round trip on any well-shaped table: `find` on the tokens of the rendered fields. */
  lemma FindAllOfRendered(types: seq<Specifier>, fields: seq<Element>, strategy: string)
    requires WellShapedTable(types)
    requires fields != [] && forall i :: 0 <= i < |fields| ==> fields[i].Field?
    requires RenderFields(types, fields, strategy).Ok?
    ensures var renders := RenderFields(types, fields, strategy).value;
            var d := FindAll(types, renders, Ident);
            && Tokenize(Join(",", renders), 0) == renders
            && d.Ok? && |d.value| == |fields|
            && forall i :: 0 <= i < |fields| ==>
                 && Picked(types, fields[i], strategy).Some?
                 && d.value[i].Field?
                 && d.value[i].spec.token == Picked(types, fields[i], strategy).value.token
                 && d.value[i].shape == DecodedShape(Picked(types, fields[i], strategy).value, fields[i].shape)
  {
    var renders := RenderFields(types, fields, strategy).value;
    RenderFieldsPicked(types, fields, strategy);
    var fs := seq(|fields|, i requires 0 <= i < |fields| => Picked(types, fields[i], strategy).value);
    var shapes := seq(|fields|, i requires 0 <= i < |fields| => fields[i].shape);
    FindAllRendered(types, renders, fs, shapes);
  }

  /**
   * Decoding what `encode` wrote gives one field per encoded field, in order: each resolves
   * to an entry with the token `search` picked, and carries the encoded shape (a string
   * format without extents reads back with length 1). The decoded entry is the first one
   * with that token.
   */
  lemma DecodeEncode(cs: CTypeSizes, fields: seq<Element>, strategy: string)
    requires fields != [] && forall i :: 0 <= i < |fields| ==> fields[i].Field?
    requires Encode(cs, fields, strategy).Ok?
    ensures var d := Decode(cs, Encode(cs, fields, strategy).value);
            && d.Ok? && |d.value| == |fields|
            && forall i :: 0 <= i < |fields| ==>
                 && Picked(Formats(cs), fields[i], strategy).Some?
                 && d.value[i].Field?
                 && d.value[i].spec.token == Picked(Formats(cs), fields[i], strategy).value.token
                 && d.value[i].shape == DecodedShape(Picked(Formats(cs), fields[i], strategy).value, fields[i].shape)
  {
    var types := Formats(cs);
    var renders := RenderFields(types, fields, strategy).value;
    var text := Join(",", renders);
    assert Encode(cs, fields, strategy).value == "" + text;
    assert "" + text == text;
    FormatsWellShaped(cs);
    FindAllOfRendered(types, fields, strategy);
    DecodeHasNoMarker(cs, text);
  }

  /**
   * A field `encode` writes back as it reads: `search` picks the field's own entry, that
   * entry is the first with its token, and its shape is the one `ident` reads back.
   */
  predicate Canonical(types: seq<Specifier>, item: Element, strategy: string) {
    && item.Field?
    && Picked(types, item, strategy) == Some(item.spec)
    && FirstToken(types, item.spec.token).Some?
    && types[FirstToken(types, item.spec.token).value] == item.spec
    && DecodedShape(item.spec, item.shape) == item.shape
  }

  /** Decoding what `encode` wrote for canonical fields gives back exactly those fields. */
  lemma DecodeEncodeCanonical(cs: CTypeSizes, fields: seq<Element>, strategy: string)
    requires fields != [] && forall i :: 0 <= i < |fields| ==> Canonical(Formats(cs), fields[i], strategy)
    requires Encode(cs, fields, strategy).Ok?
    ensures Decode(cs, Encode(cs, fields, strategy).value) == Ok(fields)
  {
    var types := Formats(cs);
    var renders := RenderFields(types, fields, strategy).value;
    EncodedFields(cs, fields, strategy);
    CanonicalRenders(types, fields, strategy);
    FormatsWellShaped(cs);
    FindAllCanonical(types, renders, fields, strategy);
    DecodeHasNoMarker(cs, Join(",", renders));
  }

  /** Without a leading marker, `encode` writes the renderings joined with commas. */
  lemma EncodedFields(cs: CTypeSizes, fields: seq<Element>, strategy: string)
    requires fields != [] && fields[0].Field? && Encode(cs, fields, strategy).Ok?
    ensures RenderFields(Formats(cs), fields, strategy).Ok?
    ensures Encode(cs, fields, strategy).value == Join(",", RenderFields(Formats(cs), fields, strategy).value)
  {
    var text := Join(",", RenderFields(Formats(cs), fields, strategy).value);
    assert "" + text == text;
  }

  /** `encode` with no argument fails on `spec[0]` (IndexError). */
  lemma EncodeEmpty(cs: CTypeSizes, strategy: string)
    ensures Encode(cs, [], strategy) == Err(NoArguments)
  {
  }

  /** A leading marker is copied verbatim in front of the comma-joined renderings of the other arguments. */
  lemma EncodeMarked(cs: CTypeSizes, m: string, fields: seq<Element>, strategy: string)
    ensures var r := Encode(cs, [Marker(m)] + fields, strategy);
            var formats := RenderFields(Formats(cs), fields, strategy);
            && (r.Ok? <==> formats.Ok?)
            && (r.Ok? ==> r.value == m + Join(",", formats.value))
            && (r.Err? ==> r.error == formats.error)
  {
    assert ([Marker(m)] + fields)[1..] == fields;
  }

  /** Without a leading marker, `encode` succeeds exactly when every field renders, and joins the renderings. */
  lemma EncodeUnmarked(cs: CTypeSizes, fields: seq<Element>, strategy: string)
    requires fields != [] && fields[0].Field?
    ensures var r := Encode(cs, fields, strategy);
            var formats := RenderFields(Formats(cs), fields, strategy);
            && (r.Ok? <==> formats.Ok?)
            && (r.Ok? ==> r.value == Join(",", formats.value))
            && (r.Err? ==> r.error == formats.error)
  {
    if RenderFields(Formats(cs), fields, strategy).Ok? {
      EncodedFields(cs, fields, strategy);
    }
  }

  /** Canonical fields render with their own entries. */
  lemma CanonicalRenders(types: seq<Specifier>, fields: seq<Element>, strategy: string)
    requires forall i :: 0 <= i < |fields| ==> Canonical(types, fields[i], strategy)
    requires RenderFields(types, fields, strategy).Ok?
    ensures forall i :: 0 <= i < |fields| ==>
              fields[i].spec in types
              && RenderFields(types, fields, strategy).value[i] == WithShape(fields[i].spec, fields[i].shape)
  {
    RenderFieldsPicked(types, fields, strategy);
  }

  /** `find` on the renderings of canonical fields resolves them to those fields. */
  lemma FindAllCanonical(types: seq<Specifier>, renders: seq<string>, fields: seq<Element>, strategy: string)
    requires WellShapedTable(types) && |renders| >= 1 && |fields| == |renders|
    requires forall i :: 0 <= i < |fields| ==> Canonical(types, fields[i], strategy)
    requires forall i :: 0 <= i < |fields| ==> fields[i].Field? && fields[i].spec in types && renders[i] == WithShape(fields[i].spec, fields[i].shape)
    ensures Tokenize(Join(",", renders), 0) == renders
    ensures FindAll(types, renders, Ident) == Ok(fields)
  {
    var fs := seq(|fields|, i requires 0 <= i < |fields| => fields[i].spec);
    var shapes := seq(|fields|, i requires 0 <= i < |fields| => fields[i].shape);
    FindAllRendered(types, renders, fs, shapes);
    var d := FindAll(types, renders, Ident).value;
    assert d == fields by {
      forall i | 0 <= i < |fields| ensures d[i] == fields[i] {
        assert d[i].spec == fields[i].spec && d[i].shape == fields[i].shape;
      }
    }
  }
}
