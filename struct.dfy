/**
 * The format characters of Python's `struct` module (`pydtype/frameworks/struct.py`): the
 * format table, rendering a format with a count (`StructFormat.with_shape`), recognising a
 * counted format (`StructFormat.ident`), and the codec that splits a format string into
 * counted characters and concatenates rendered fields (`StructParser.decode`,
 * `StructParser.encode`).
 *
 * The regular expressions of the source are written as left-to-right scanners. No token
 * of the table is a digit, so a run of digits before a token always ends where the
 * greedy match of `\d*` ends.
 */
module Struct {
  import opened Common
  import opened Text
  import opened Types

  // ---------------------------------------------------------------------------
  // The format table

  function Sized(name: string, token: string, kind: string, size: nat): Specifier {
    Specifier(name, token, Some(kind), Some(size))
  }

  function Unsized(name: string, token: string, kind: string): Specifier {
    Specifier(name, token, Some(kind), None)
  }

  /** `StructTypes.types`, in table order; `n`, `N`, `p` and `P` have no fixed size. */
  function Formats(): (types: seq<Specifier>)
    ensures |types| == 21
  {
    seq(21, Row)
  }

  /** Row `i` of `StructTypes.types`. */
  function Row(i: int): Specifier {
    match i
    case 0 => Specifier("pad byte", "x", None, None)
    case 1 => Sized("char", "c", "char", 1)
    case 2 => Sized("signed char", "b", "int", 1)
    case 3 => Sized("unsigned char", "B", "uint", 1)
    case 4 => Sized("_Bool", "?", "bool", 1)
    case 5 => Sized("short", "h", "int", 2)
    case 6 => Sized("unsigned short", "H", "uint", 2)
    case 7 => Sized("int", "i", "int", 4)
    case 8 => Sized("unsigned int", "I", "uint", 4)
    case 9 => Sized("long", "l", "int", 4)
    case 10 => Sized("unsigned long", "L", "uint", 4)
    case 11 => Sized("long long", "q", "int", 8)
    case 12 => Sized("unsigned long long", "Q", "uint", 8)
    case 13 => Unsized("ssize_t", "n", "int")
    case 14 => Unsized("size_t", "N", "uint")
    case 15 => Sized("half precision", "e", "float", 2)
    case 16 => Sized("float", "f", "float", 4)
    case 17 => Sized("double", "d", "float", 8)
    case 18 => Sized("string", "s", "bytes", 1)
    case 19 => Unsized("char[]", "p", "bytes")
    case _ => Unsized("void", "P", "int")
  }

  /** The characters of the table, in table order. */
  const Characters: string := "xcbB?hHiIlLqQnNefdspP"

  // ---------------------------------------------------------------------------
  // Characters and tokens

  /** `[@=<>!]`: the byte-order and alignment characters. */
  predicate IsMarkerChar(c: char) { c == '@' || c == '=' || c == '<' || c == '>' || c == '!' }

  /** `[\w\?]` other than a digit: the character that ends a counted format. */
  predicate IsTypeChar(c: char) { (IsWordChar(c) || c == '?') && !IsDigit(c) }

  /** A token of the table: one type character. */
  predicate IsCharToken(t: string) { |t| == 1 && IsTypeChar(t[0]) }

  /** An optional decimal count followed by a type character, such as `5s` or `?`. */
  predicate IsCountedText(t: string) {
    |t| >= 1 && AllDigits(t[..|t| - 1]) && IsTypeChar(t[|t| - 1])
  }

  /** A non-empty run of byte-order characters, such as `<` or `!<`. */
  predicate IsMarkerRun(t: string) {
    |t| >= 1 && forall k :: 0 <= k < |t| ==> IsMarkerChar(t[k])
  }

  // ---------------------------------------------------------------------------
  // with_shape

  /**
   * The trailing items `with_shape` receives for one field: an integer count, or anything
   * else, here the shape tuple another notation decoded.
   */
  datatype Extent = Count(n: nat) | Tuple(shape: Shape)

  /** The number of scalar fields a rendering with these extents stands for. */
  function Units(extents: seq<Extent>): nat {
    if extents == [] then 1 else if extents[0].Count? then extents[0].n else 0
  }

  /**
   * `StructFormat.with_shape`: the bare character without extents, the character repeated
   * for one integer count; two or more extents, or a count that is not an integer, fail.
   */
  function WithShape(f: Specifier, extents: seq<Extent>): (r: Result<string>)
    ensures r.Ok? <==> |extents| == 0 || (|extents| == 1 && extents[0].Count?)
    ensures r.Ok? ==> r.value == Repeat(f.token, Units(extents))
    ensures |extents| >= 2 ==> r == Err(MultiDimensional(|extents|))
  {
    if |extents| == 0 then Ok(f.token)
    else if |extents| > 1 then Err(MultiDimensional(|extents|))
    else match extents[0]
      case Count(n) => Ok(Repeat(f.token, n))
      case Tuple(_) => Err(NonIntegerCount)
  }

  // ---------------------------------------------------------------------------
  // ident

  /**
   * `StructFormat.ident`: `^(\d*)C$` for the format's character C. No count is the scalar
   * shape, a count `n` the shape `(n,)`; `$` also matches before a final line feed.
   */
  function Ident(f: Specifier, spec: string): (r: Result<Option<Shape>>)
    ensures r.Ok?
    ensures r.value.Some? ==> |r.value.value| <= 1
  {
    var d := SpanFrom(spec, 0, IsDigit);
    SpanRun(spec, 0, IsDigit);
    var e := d + |f.token|;
    if e <= |spec| && spec[d..e] == f.token && AtEnd(spec, e) then
      assert AllDigits(spec[..d]) by {
        forall k | 0 <= k < d ensures IsDigit(spec[..d][k]) { assert spec[..d][k] == spec[k]; }
      }
      Ok(Some(if d == 0 then [] else [DecimalValue(spec[..d])]))
    else Ok(None)
  }

  // ---------------------------------------------------------------------------
  // The tokenizer of decode

  /**
   * `[@=<>!]+|\d*[\w\?]` at position i: where the match ends. After a maximal digit run a
   * type character completes the match; otherwise the engine gives the last digit back to
   * `[\w\?]`, and the match ends with the run.
   */
  function FieldEnd(s: string, i: nat): (r: Option<nat>)
    requires i <= |s|
    ensures r.Some? ==> i < r.value <= |s|
  {
    if i < |s| && IsMarkerChar(s[i]) then Some(SpanFrom(s, i, IsMarkerChar))
    else
      var j := SpanFrom(s, i, IsDigit);
      if j < |s| && IsTypeChar(s[j]) then Some(j + 1)
      else if i < j then Some(j)
      else None
  }

  /** `re.findall` with the tokenizer regex on `s[i..]`: each match taken, in order. */
  function Tokenize(s: string, i: nat): seq<string>
    requires i <= |s|
    decreases |s| - i
  {
    if i == |s| then []
    else match FieldEnd(s, i)
      case Some(e) => [s[i..e]] + Tokenize(s, e)
      case None => Tokenize(s, i + 1)
  }

  // ---------------------------------------------------------------------------
  // The codec

  /**
   * `StructParser.decode`: the counted formats the string lists, each resolved by `find`.
   * A first token that is part of `@=<>!` is returned as the byte-order element.
   */
  function Decode(spec: string): Result<seq<Element>> {
    var split := Tokenize(spec, 0);
    if split == [] then Err(NoTokens)
    else if IsSubstring(split[0], "@=<>!") then
      var fields :- FindAll(Formats(), split[1..], Ident);
      Ok([Marker(split[0])] + fields)
    else FindAll(Formats(), split, Ident)
  }

  /** An argument of `encode`: a string, or a field given as a descriptor and its extents. */
  datatype Arg = Str(text: string) | Item(spec: Specifier, extents: seq<Extent>)

  /** `s, *shape = (spec, shape)`: a decoded pair unpacked, its shape tuple the one extent. */
  function Unpack(e: Element): (a: Arg)
    ensures e.Marker? ==> a == Str(e.text)
    ensures e.Field? ==> a.Item? && a.spec == e.spec && a.extents == [Tuple(e.shape)]
  {
    match e
    case Marker(text) => Str(text)
    case Field(spec, shape) => Item(spec, [Tuple(shape)])
  }

  /** The table entry `search` picks for one field, when it picks one. */
  function Picked(types: seq<Specifier>, item: Arg, strategy: string): (r: Option<Specifier>)
    requires item.Item?
    ensures r.Some? ==> r.value in types && r.value.kind == item.spec.kind
  {
    SearchKind(types, item.spec.kind, item.spec.byteSize, strategy);
    match Search(types, item.spec.kind, item.spec.byteSize, strategy)
    case Ok(Some(f)) => Some(f)
    case _ => None
  }

  /** One field of `encode`: the format `search` picks, rendered with the field's extents. */
  function RenderField(types: seq<Specifier>, item: Arg, strategy: string): (r: Result<string>)
    ensures item.Str? ==> r == Err(MisplacedMarker(item.text))
    ensures r.Ok? ==> item.Item?
  {
    match item
    case Str(text) => Err(MisplacedMarker(text))
    case Item(spec, extents) =>
      var found :- Search(types, spec.kind, spec.byteSize, strategy);
      if found.None? then Err(UnknownStrategy(strategy)) else WithShape(found.value, extents)
  }

  /** The list comprehension of `encode`: every field rendered, the first failure propagated. */
  function RenderFields(types: seq<Specifier>, items: seq<Arg>, strategy: string): (r: Result<seq<string>>)
    ensures r.Ok? ==> |r.value| == |items|
                      && forall i :: 0 <= i < |items| ==> RenderField(types, items[i], strategy) == Ok(r.value[i])
    ensures r.Err? ==> exists i :: 0 <= i < |items| && RenderField(types, items[i], strategy) == Err(r.error)
                                   && forall j :: 0 <= j < i ==> RenderField(types, items[j], strategy).Ok?
  {
    if items == [] then Ok([])
    else
      var head :- RenderField(types, items[0], strategy);
      var tail := RenderFields(types, items[1..], strategy);
      if tail.Err? then
        RenderFailure(types, items, strategy, tail.error);
        Err(tail.error)
      else
        Ok([head] + tail.value)
  }

  lemma RenderFailure(types: seq<Specifier>, items: seq<Arg>, strategy: string, e: Error)
    requires |items| > 0 && RenderField(types, items[0], strategy).Ok?
    requires exists i :: 0 <= i < |items| - 1 && RenderField(types, items[1..][i], strategy) == Err(e)
                         && forall j :: 0 <= j < i ==> RenderField(types, items[1..][j], strategy).Ok?
    ensures exists i :: 0 <= i < |items| && RenderField(types, items[i], strategy) == Err(e)
                        && forall j :: 0 <= j < i ==> RenderField(types, items[j], strategy).Ok?
  {
    var i :| 0 <= i < |items| - 1 && RenderField(types, items[1..][i], strategy) == Err(e)
             && forall j :: 0 <= j < i ==> RenderField(types, items[1..][j], strategy).Ok?;
    forall j | 0 < j < i + 1 ensures RenderField(types, items[j], strategy).Ok? {
      assert items[j] == items[1..][j - 1];
    }
    assert items[i + 1] == items[1..][i];
  }

  /**
   * `StructParser.encode`: a leading string is copied verbatim, then the rendered fields
   * concatenated. There must be at least one argument (IndexError otherwise).
   */
  function Encode(args: seq<Arg>, strategy: string): Result<string> {
    if args == [] then Err(NoArguments)
    else
      var endian := if args[0].Str? then args[0].text else "";
      var fields := if args[0].Str? then args[1..] else args;
      var formats :- RenderFields(Formats(), fields, strategy);
      Ok(endian + Join("", formats))
  }

  /** `encode` with no argument fails on `spec[0]` (IndexError). */
  lemma EncodeEmpty(strategy: string)
    ensures Encode([], strategy) == Err(NoArguments)
  {
  }

  /** A leading string is copied verbatim in front of the concatenated renderings of the other arguments. */
  lemma EncodeMarked(m: string, args: seq<Arg>, strategy: string)
    ensures var r := Encode([Str(m)] + args, strategy);
            var formats := RenderFields(Formats(), args, strategy);
            && (r.Ok? <==> formats.Ok?)
            && (r.Ok? ==> r.value == m + Join("", formats.value))
            && (r.Err? ==> r.error == formats.error)
  {
    assert ([Str(m)] + args)[1..] == args;
  }

  /** Without a leading string, `encode` succeeds exactly when every field renders, and concatenates the renderings. */
  lemma EncodeUnmarked(args: seq<Arg>, strategy: string)
    requires args != [] && args[0].Item?
    ensures var r := Encode(args, strategy);
            var formats := RenderFields(Formats(), args, strategy);
            && (r.Ok? <==> formats.Ok?)
            && (r.Ok? ==> r.value == Join("", formats.value))
            && (r.Err? ==> r.error == formats.error)
  {
    if RenderFields(Formats(), args, strategy).Ok? {
      assert "" + Join("", RenderFields(Formats(), args, strategy).value) == Join("", RenderFields(Formats(), args, strategy).value);
    }
  }

  // ---------------------------------------------------------------------------
  // The table

  /** Every entry's token is its character, and every character is a type character. */
  lemma TableCharacters()
    ensures |Formats()| == |Characters| == 21
    ensures forall i :: 0 <= i < |Formats()| ==> Formats()[i].token == [Characters[i]] && IsTypeChar(Characters[i])
  {
  }

  /** No two entries share a character. */
  lemma CharactersDistinct()
    ensures forall i, j :: 0 <= i < j < |Characters| ==> Characters[i] != Characters[j]
  {
  }

  /** Tokens that are single type characters. */
  predicate CharTokens(types: seq<Specifier>) {
    forall i :: 0 <= i < |types| ==> IsCharToken(types[i].token)
  }

  /** Tokens that are single type characters, no two alike. */
  predicate DistinctCharTokens(types: seq<Specifier>) {
    && CharTokens(types)
    && (forall i, j :: 0 <= i < |types| && 0 <= j < |types| && types[i].token == types[j].token ==> i == j)
  }

  /** Every token of the struct table is one type character. */
  lemma TableCharTokens()
    ensures CharTokens(Formats())
  {
    TableCharacters();
  }

  /** Every token of the struct table is one type character, and no two are alike. */
  lemma TableDistinct()
    ensures DistinctCharTokens(Formats())
  {
    TableCharTokens();
    TableCharacters();
    CharactersDistinct();
    forall i, j | 0 <= i < |Formats()| && 0 <= j < |Formats()| && Formats()[i].token == Formats()[j].token
      ensures i == j
    {
      assert Formats()[i].token[0] == Characters[i] && Formats()[j].token[0] == Characters[j];
    }
  }

  /** Some entry has the character `c` as its token. */
  predicate InTable(types: seq<Specifier>, c: char) {
    FirstToken(types, [c]).Some?
  }

  /** The first entry whose token is the character `c`. */
  function Entry(types: seq<Specifier>, c: char): (f: Specifier)
    requires InTable(types, c)
    ensures f in types && f.token == [c]
  {
    types[FirstToken(types, [c]).value]
  }

  /** A character is in the struct table exactly when it is one of its characters. */
  lemma InTableCharacters(c: char)
    ensures InTable(Formats(), c) <==> c in Characters
  {
    TableCharacters();
    if InTable(Formats(), c) {
      var i := FirstToken(Formats(), [c]).value;
      assert Formats()[i].token == [Characters[i]];
    }
    if c in Characters {
      var i :| 0 <= i < |Characters| && Characters[i] == c;
      assert Formats()[i].token == [c];
    }
  }

  /** In a table of distinct characters every entry is the entry of its own character. */
  lemma EntryOfToken(types: seq<Specifier>, f: Specifier)
    requires DistinctCharTokens(types) && f in types
    ensures InTable(types, f.token[0]) && Entry(types, f.token[0]) == f
  {
    var i :| 0 <= i < |types| && types[i] == f;
    assert f.token == [f.token[0]];
    var j := FirstToken(types, [f.token[0]]).value;
    assert types[j].token == f.token;
  }

  // ---------------------------------------------------------------------------
  // ident accepts exactly a count and the character

  /** The shape a counted format denotes: none without a count, `(n,)` with count n. */
  function Counted(t: string): Shape
    requires IsCountedText(t)
  {
    if |t| == 1 then [] else [DecimalValue(t[..|t| - 1])]
  }

  /** An optional count, the character, and an optional final line feed are accepted. */
  lemma IdentCounted(f: Specifier, d: string, ending: string)
    requires IsCharToken(f.token) && AllDigits(d) && (ending == "" || ending == "\n")
    ensures Ident(f, d + f.token + ending) == Ok(Some(if d == "" then [] else [DecimalValue(d)]))
  {
    var s := d + f.token + ending;
    SpanExact(s, 0, |d|, IsDigit);
    assert s[|d|..|d| + 1] == f.token;
    assert s[..|d|] == d;
  }

  /** Nothing else is accepted. */
  lemma IdentOnlyCounted(f: Specifier, s: string)
    requires IsCharToken(f.token) && Ident(f, s).value.Some?
    ensures exists d, ending :: AllDigits(d) && (ending == "" || ending == "\n") && s == d + f.token + ending
  {
    var d := SpanFrom(s, 0, IsDigit);
    SpanRun(s, 0, IsDigit);
    assert d + 1 <= |s| && s[d..d + 1] == f.token && AtEnd(s, d + 1);
    var digits, ending := s[..d], s[d + 1..];
    assert AllDigits(digits) by {
      forall k | 0 <= k < d ensures IsDigit(digits[k]) { assert digits[k] == s[k]; }
    }
    assert ending == "" || ending == "\n" by {
      if d + 1 < |s| { assert ending == [s[d + 1]]; }
    }
    assert s == digits + s[d..d + 1] + ending;
  }

  /**
   * `ident` accepts exactly an optional decimal count followed by the format's character:
   * without a count the shape is `()`, with count n it is `(n,)`.
   */
  lemma IdentExactly(f: Specifier, s: string)
    requires IsCharToken(f.token)
    ensures Ident(f, s).value.Some? <==>
              exists d, ending :: AllDigits(d) && (ending == "" || ending == "\n") && s == d + f.token + ending
    ensures forall d, ending :: AllDigits(d) && (ending == "" || ending == "\n") && s == d + f.token + ending ==>
              Ident(f, s) == Ok(Some(if d == "" then [] else [DecimalValue(d)]))
  {
    if Ident(f, s).value.Some? {
      IdentOnlyCounted(f, s);
    }
    forall d, ending | AllDigits(d) && (ending == "" || ending == "\n") && s == d + f.token + ending
      ensures Ident(f, s) == Ok(Some(if d == "" then [] else [DecimalValue(d)]))
    {
      IdentCounted(f, d, ending);
    }
  }

  /** The count written in decimal reads back as the shape `(n,)`: "1i" is `(1,)`. */
  lemma IdentCountForm(f: Specifier, n: nat)
    requires IsCharToken(f.token)
    ensures Ident(f, Decimal(n) + f.token) == Ok(Some([n]))
  {
    IdentCounted(f, Decimal(n), "");
    assert Decimal(n) + f.token + "" == Decimal(n) + f.token;
    DecimalRoundTrip(n);
  }

  /** A counted format is declined by every entry with another character. */
  lemma IdentDeclines(f: Specifier, t: string)
    requires IsCharToken(f.token) && IsCountedText(t) && f.token != [t[|t| - 1]]
    ensures Ident(f, t) == Ok(None)
  {
    var d := |t| - 1;
    forall k | 0 <= k < d ensures IsDigit(t[k]) {
      assert t[k] == t[..d][k];
    }
    SpanExact(t, 0, d, IsDigit);
    assert t[d..d + 1] == [t[d]];
  }

  // ---------------------------------------------------------------------------
  // Which entry `find` picks

  /** A counted format resolves to the first entry of its character, with the counted shape. */
  lemma FindCounted(types: seq<Specifier>, t: string)
    requires CharTokens(types) && IsCountedText(t) && InTable(types, t[|t| - 1])
    ensures Find(types, t, Ident) == Ok((Entry(types, t[|t| - 1]), Counted(t)))
  {
    var i := FirstToken(types, [t[|t| - 1]]).value;
    forall j | 0 <= j < i ensures Ident(types[j], t) == Ok(None) {
      IdentDeclines(types[j], t);
    }
    var d := t[..|t| - 1];
    assert t == d + types[i].token + "";
    IdentCounted(types[i], d, "");
    FindFirst(types, t, Ident, i);
  }

  /** A counted format whose character is in no entry is not supported. */
  lemma FindUnknown(types: seq<Specifier>, t: string)
    requires CharTokens(types) && IsCountedText(t) && !InTable(types, t[|t| - 1])
    ensures Find(types, t, Ident) == Err(UnsupportedSpecifier(t))
  {
    forall j | 0 <= j < |types| ensures Ident(types[j], t) == Ok(None) {
      IdentDeclines(types[j], t);
    }
  }

  /** A run of byte-order characters is accepted by no entry. */
  lemma FindMarkerRun(types: seq<Specifier>, t: string)
    requires CharTokens(types) && IsMarkerRun(t)
    ensures Find(types, t, Ident) == Err(UnsupportedSpecifier(t))
  {
    SpanExact(t, 0, 0, IsDigit);
    forall j | 0 <= j < |types| ensures Ident(types[j], t) == Ok(None) {
      assert t[0..1] != types[j].token by { assert t[0..1][0] == t[0]; }
    }
  }

  /** A token `find` resolves in a table of one-character tokens is no run of byte-order characters. */
  lemma FoundNoMarker(types: seq<Specifier>, t: string)
    requires CharTokens(types) && Find(types, t, Ident).Ok?
    requires t != [] && (IsMarkerChar(t[0]) ==> IsMarkerRun(t))
    ensures !IsMarkerChar(t[0])
  {
    if IsMarkerChar(t[0]) {
      FindMarkerRun(types, t);
    }
  }

  // ---------------------------------------------------------------------------
  // The tokenizer

  /** A counted format at position p is one match of the tokenizer regex. */
  lemma FieldEndCounted(s: string, p: nat, t: string)
    requires IsCountedText(t) && p + |t| <= |s| && s[p..p + |t|] == t
    ensures FieldEnd(s, p) == Some(p + |t|)
  {
    forall k | p <= k < p + |t| - 1 ensures IsDigit(s[k]) {
      assert s[k] == t[..|t| - 1][k - p];
    }
    assert s[p + |t| - 1] == t[|t| - 1];
    SpanExact(s, p, p + |t| - 1, IsDigit);
    if |t| > 1 {
      assert s[p] == t[..|t| - 1][0];
    }
  }

  /** A maximal run of byte-order characters at position p is one match. */
  lemma FieldEndMarker(s: string, p: nat, m: string)
    requires IsMarkerRun(m) && p + |m| <= |s| && s[p..p + |m|] == m
    requires p + |m| == |s| || !IsMarkerChar(s[p + |m|])
    ensures FieldEnd(s, p) == Some(p + |m|)
  {
    forall k | p <= k < p + |m| ensures IsMarkerChar(s[k]) {
      assert s[k] == m[k - p];
    }
    assert s[p] == m[0];
    SpanExact(s, p, p + |m|, IsMarkerChar);
  }

  lemma JoinHead(pieces: seq<string>)
    requires |pieces| >= 1
    ensures Join("", pieces) == pieces[0] + Join("", pieces[1..])
  {
  }

  /** A match at position p is the next token. */
  lemma TokenizeStep(s: string, p: nat, e: nat)
    requires p < |s| && FieldEnd(s, p) == Some(e)
    ensures Tokenize(s, p) == [s[p..e]] + Tokenize(s, e)
  {
  }

  /** The text from p on, split after its first |t| characters. */
  lemma SliceSplit(s: string, p: nat, t: string, rest: string)
    requires p <= |s| && s[p..] == t + rest
    ensures p + |t| <= |s| && s[p..p + |t|] == t && s[p + |t|..] == rest
  {
    assert s[p..][..|t|] == s[p..p + |t|];
    assert s[p..][|t|..] == s[p + |t|..];
  }

  lemma CountedTail(pieces: seq<string>)
    requires |pieces| >= 1 && forall k :: 0 <= k < |pieces| ==> IsCountedText(pieces[k])
    ensures forall k :: 0 <= k < |pieces[1..]| ==> IsCountedText(pieces[1..][k])
    ensures pieces == [pieces[0]] + pieces[1..]
  {
    forall k | 0 <= k < |pieces[1..]| ensures IsCountedText(pieces[1..][k]) {
      assert pieces[1..][k] == pieces[k + 1];
    }
  }

  /** The counted formats `pieces`, spelled one after the other from position p to the end of s. */
  predicate CountedAt(s: string, p: nat, pieces: seq<string>)
    decreases |pieces|
  {
    if pieces == [] then p == |s|
    else
      && p + |pieces[0]| <= |s|
      && (forall k :: 0 <= k < |pieces[0]| ==> s[p + k] == pieces[0][k])
      && CountedAt(s, p + |pieces[0]|, pieces[1..])
  }

  /** Text that continues with r and then rest: r at p, and rest right after it. */
  lemma ShiftPiece(s: string, p: nat, j: string, r: string, rest: string)
    requires j == r + rest
    requires p + |j| == |s| && forall k :: 0 <= k < |j| ==> s[p + k] == j[k]
    ensures forall k :: 0 <= k < |r| ==> s[p + k] == r[k]
    ensures p + |r| + |rest| == |s| && forall k :: 0 <= k < |rest| ==> s[p + |r| + k] == rest[k]
  {
    forall k | 0 <= k < |r| ensures s[p + k] == r[k] {
      assert j[k] == r[k];
    }
    forall k | 0 <= k < |rest| ensures s[p + |r| + k] == rest[k] {
      assert j[|r| + k] == rest[k];
    }
  }

  /** Concatenated formats spelled at p are spelled there one by one. */
  lemma {:induction false} JoinCountedAt(s: string, p: nat, pieces: seq<string>)
    requires var j := Join("", pieces); p + |j| == |s| && forall k :: 0 <= k < |j| ==> s[p + k] == j[k]
    ensures CountedAt(s, p, pieces)
    decreases |pieces|
  {
    if pieces != [] {
      JoinHead(pieces);
      ShiftPiece(s, p, Join("", pieces), pieces[0], Join("", pieces[1..]));
      JoinCountedAt(s, p + |pieces[0]|, pieces[1..]);
    }
  }

  /** `re.findall` on counted formats spelled one after the other gives back exactly those formats. */
  lemma {:induction false} TokenizeCountedAt(s: string, p: nat, pieces: seq<string>)
    requires CountedAt(s, p, pieces)
    requires forall k :: 0 <= k < |pieces| ==> IsCountedText(pieces[k])
    ensures Tokenize(s, p) == pieces
    decreases |pieces|
  {
    if pieces != [] {
      CountedTail(pieces);
      TokenizeCountedAt(s, p + |pieces[0]|, pieces[1..]);
      CountedStep(s, p, pieces[0], pieces[1..]);
    }
  }

  /** A counted format at p is the first token, followed by the tokens after it. */
  lemma CountedStep(s: string, p: nat, t: string, tokens: seq<string>)
    requires IsCountedText(t) && p + |t| <= |s| && forall k :: 0 <= k < |t| ==> s[p + k] == t[k]
    requires Tokenize(s, p + |t|) == tokens
    ensures Tokenize(s, p) == [t] + tokens
  {
    assert s[p..p + |t|] == t by {
      forall k | 0 <= k < |t| ensures s[p..p + |t|][k] == t[k] {
        assert s[p..p + |t|][k] == s[p + k];
      }
    }
    FieldEndCounted(s, p, t);
    TokenizeStep(s, p, p + |t|);
  }

  /** `re.findall` on concatenated counted formats gives back exactly those formats. */
  lemma TokenizeCounted(s: string, p: nat, pieces: seq<string>)
    requires p <= |s| && s[p..] == Join("", pieces)
    requires forall k :: 0 <= k < |pieces| ==> IsCountedText(pieces[k])
    ensures Tokenize(s, p) == pieces
  {
    var j := Join("", pieces);
    forall k | 0 <= k < |j| ensures s[p + k] == j[k] {
      assert s[p..][k] == s[p + k];
    }
    JoinCountedAt(s, p, pieces);
    TokenizeCountedAt(s, p, pieces);
  }

  // ---------------------------------------------------------------------------
  // decode

  /** A counted format, decoded: the entry of its character and its counted shape. */
  function FieldOf(types: seq<Specifier>, t: string): Element
    requires IsCountedText(t) && InTable(types, t[|t| - 1])
  {
    Field(Entry(types, t[|t| - 1]), Counted(t))
  }

  /** The byte-order markers are exactly the non-empty substrings of `@=<>!`. */
  lemma MarkerSubstring(t: string)
    requires t != [] && IsSubstring(t, "@=<>!")
    ensures IsMarkerRun(t)
  {
    var i :| OccursAt(t, "@=<>!", i);
    forall k | 0 <= k < |t| ensures IsMarkerChar(t[k]) {
      assert t[k] == "@=<>!"[i + k];
    }
  }

  /** A counted format is never taken for a byte-order marker. */
  lemma CountedNotMarker(t: string)
    requires IsCountedText(t)
    ensures !IsSubstring(t, "@=<>!")
  {
    assert !IsMarkerChar(t[|t| - 1]);
    if IsSubstring(t, "@=<>!") {
      MarkerSubstring(t);
    }
  }

  /** `find` on every counted format succeeds, in order. */
  lemma FindAllCounted(types: seq<Specifier>, pieces: seq<string>)
    requires CharTokens(types)
    requires forall k :: 0 <= k < |pieces| ==> IsCountedText(pieces[k]) && InTable(types, pieces[k][|pieces[k]| - 1])
    ensures FindAll(types, pieces, Ident)
            == Ok(seq(|pieces|, k requires 0 <= k < |pieces| => FieldOf(types, pieces[k])))
  {
    var expected := seq(|pieces|, k requires 0 <= k < |pieces| => FieldOf(types, pieces[k]));
    forall k | 0 <= k < |pieces|
      ensures Find(types, pieces[k], Ident) == Ok((expected[k].spec, expected[k].shape))
    {
      FindCounted(types, pieces[k]);
    }
    var r := FindAll(types, pieces, Ident);
    assert r.Ok?;
    assert r.value == expected;
  }

  /**
   * `decode` of concatenated counted formats: one field per format, in order, each the
   * entry of its character with shape `()` or `(count,)`. So "?2h5H" is `?`, `(2,)h`, `(5,)H`.
   */
  lemma DecodeCounted(pieces: seq<string>)
    requires |pieces| >= 1
    requires forall k :: 0 <= k < |pieces| ==> IsCountedText(pieces[k]) && InTable(Formats(), pieces[k][|pieces[k]| - 1])
    ensures Decode(Join("", pieces)) == Ok(seq(|pieces|, k requires 0 <= k < |pieces| => FieldOf(Formats(), pieces[k])))
  {
    TokenizeCounted(Join("", pieces), 0, pieces);
    CountedNotMarker(pieces[0]);
    TableDistinct();
    FindAllCounted(Formats(), pieces);
  }

  /** The tokens of a byte-order run followed by counted formats. */
  lemma TokenizeMarked(m: string, pieces: seq<string>)
    requires IsMarkerRun(m)
    requires forall k :: 0 <= k < |pieces| ==> IsCountedText(pieces[k])
    ensures Tokenize(m + Join("", pieces), 0) == [m] + pieces
  {
    var rest := Join("", pieces);
    var s := m + rest;
    SliceSplit(s, 0, m, rest);
    if pieces != [] {
      JoinHead(pieces);
      var t := pieces[0];
      assert s[|m|] == rest[0] == t[0];
      if |t| > 1 { assert t[0] == t[..|t| - 1][0]; }
    }
    FieldEndMarker(s, 0, m);
    TokenizeStep(s, 0, |m|);
    TokenizeCounted(s, |m|, pieces);
  }

  /** A leading byte-order marker is peeled off before the counted formats. */
  lemma DecodeMarked(m: string, pieces: seq<string>)
    requires m != [] && IsSubstring(m, "@=<>!")
    requires forall k :: 0 <= k < |pieces| ==> IsCountedText(pieces[k]) && InTable(Formats(), pieces[k][|pieces[k]| - 1])
    ensures Decode(m + Join("", pieces))
            == Ok([Marker(m)] + seq(|pieces|, k requires 0 <= k < |pieces| => FieldOf(Formats(), pieces[k])))
  {
    MarkerSubstring(m);
    TokenizeMarked(m, pieces);
    assert ([m] + pieces)[1..] == pieces;
    TableDistinct();
    FindAllCounted(Formats(), pieces);
  }

  /** Every token is non-empty, and one that starts with a byte-order character is a run of them. */
  lemma {:induction false} TokensShaped(s: string, i: nat)
    requires i <= |s|
    ensures forall k :: 0 <= k < |Tokenize(s, i)| ==>
              Tokenize(s, i)[k] != [] && (IsMarkerChar(Tokenize(s, i)[k][0]) ==> IsMarkerRun(Tokenize(s, i)[k]))
    decreases |s| - i
  {
    if i < |s| {
      match FieldEnd(s, i)
      case Some(e) =>
        TokensShaped(s, e);
        var t := s[i..e];
        if IsMarkerChar(t[0]) {
          assert IsMarkerChar(s[i]);
          SpanRun(s, i, IsMarkerChar);
          forall k | 0 <= k < |t| ensures IsMarkerChar(t[k]) { assert t[k] == s[i + k]; }
        }
      case None =>
        TokensShaped(s, i + 1);
    }
  }

  /** What `decode` resolves: the tokens after a peeled marker, or all of them. */
  lemma DecodeFindsAll(s: string)
    requires Decode(s).Ok?
    ensures var tokens := Tokenize(s, 0);
            var first := if IsSubstring(tokens[0], "@=<>!") then 1 else 0;
            tokens != [] && FindAll(Formats(), tokens[first..], Ident).Ok?
  {
    assert Tokenize(s, 0)[0..] == Tokenize(s, 0);
  }

  /**
   * A run of byte-order characters is accepted only as the first token and only when it is
   * part of `@=<>!`: "!<" or a marker after the first format makes `decode` fail.
   */
  lemma DecodeMarkerOnlyFirst(s: string)
    requires Decode(s).Ok?
    ensures var tokens := Tokenize(s, 0);
            && tokens != []
            && (forall k :: 0 <= k < |tokens| ==> tokens[k] != [])
            && (forall k :: 1 <= k < |tokens| ==> !IsMarkerChar(tokens[k][0]))
            && (IsMarkerChar(tokens[0][0]) ==> IsSubstring(tokens[0], "@=<>!"))
  {
    var tokens := Tokenize(s, 0);
    TokensShaped(s, 0);
    DecodeFindsAll(s);
    var first := if IsSubstring(tokens[0], "@=<>!") then 1 else 0;
    TableCharTokens();
    NoMarkerAfter(Formats(), tokens, first);
  }

  /** Tokens that all resolve to entries of a table of one-character tokens start with no byte-order character. */
  lemma NoMarkerAfter(types: seq<Specifier>, tokens: seq<string>, first: nat)
    requires CharTokens(types) && first <= |tokens|
    requires forall k :: 0 <= k < |tokens| ==>
               tokens[k] != [] && (IsMarkerChar(tokens[k][0]) ==> IsMarkerRun(tokens[k]))
    requires FindAll(types, tokens[first..], Ident).Ok?
    ensures forall k :: first <= k < |tokens| ==> !IsMarkerChar(tokens[k][0])
  {
    forall k | first <= k < |tokens| ensures !IsMarkerChar(tokens[k][0]) {
      assert tokens[first..][k - first] == tokens[k];
      assert Find(types, tokens[k], Ident).Ok?;
      FoundNoMarker(types, tokens[k]);
    }
  }

  /** A character that starts no match of the tokenizer regex; `findall` skips it. */
  predicate IsSkipped(c: char) { !IsMarkerChar(c) && !IsDigit(c) && !IsTypeChar(c) }

  lemma FieldEndNone(s: string, i: nat)
    requires i < |s|
    ensures FieldEnd(s, i).None? <==> IsSkipped(s[i])
  {
    if !IsMarkerChar(s[i]) && !IsDigit(s[i]) {
      SpanExact(s, i, i, IsDigit);
    }
  }

  /** `re.findall` finds nothing exactly when every character is skipped. */
  lemma {:induction false} TokenizeEmpty(s: string, i: nat)
    requires i <= |s|
    ensures Tokenize(s, i) == [] <==> forall k :: i <= k < |s| ==> IsSkipped(s[k])
    decreases |s| - i
  {
    if i < |s| {
      FieldEndNone(s, i);
      if FieldEnd(s, i).None? {
        TokenizeEmpty(s, i + 1);
      }
    }
  }

  /** `find` with the struct `ident` fails only by finding no entry. */
  lemma FindFailure(types: seq<Specifier>, t: string)
    requires Find(types, t, Ident).Err?
    ensures Find(types, t, Ident) == Err(UnsupportedSpecifier(t))
  {
  }

  /**
   * `decode` fails for want of a token (`split[0]` of an empty list) exactly when every
   * character of the input is skipped by the tokenizer, as for "" or "  ".
   */
  lemma DecodeNoTokens(s: string)
    ensures Decode(s) == Err(NoTokens) <==> forall k :: 0 <= k < |s| ==> IsSkipped(s[k])
  {
    TokenizeEmpty(s, 0);
    var tokens := Tokenize(s, 0);
    if tokens != [] {
      var first := if IsSubstring(tokens[0], "@=<>!") then 1 else 0;
      var found := FindAll(Formats(), tokens[first..], Ident);
      if found.Err? {
        var i :| 0 <= i < |tokens[first..]| && Find(Formats(), tokens[first..][i], Ident) == Err(found.error);
        FindFailure(Formats(), tokens[first..][i]);
      }
    }
  }

  // ---------------------------------------------------------------------------
  // decode after encode

  /** `n` copies of one element. */
  function Copies(e: Element, n: nat): (r: seq<Element>)
    ensures |r| == n && forall k :: 0 <= k < n ==> r[k] == e
  {
    seq(n, _ => e)
  }

  /** The fields `decode` reads from characters of a table: one scalar field each. */
  function Scalars(types: seq<Specifier>, r: string): (fields: seq<Element>)
    requires forall k :: 0 <= k < |r| ==> InTable(types, r[k])
    ensures |fields| == |r|
  {
    seq(|r|, k requires 0 <= k < |r| => Field(Entry(types, r[k]), []))
  }

  /**
   * The scalar fields a list of encoded fields stands for: the entry `search` picks for
   * each, repeated as often as its count says.
   */
  function Expanded(types: seq<Specifier>, args: seq<Arg>, strategy: string): seq<Element>
    requires forall i :: 0 <= i < |args| ==> args[i].Item? && Picked(types, args[i], strategy).Some?
  {
    if args == [] then []
    else Copies(Field(Picked(types, args[0], strategy).value, []), Units(args[0].extents))
         + Expanded(types, args[1..], strategy)
  }

  /** A rendered field is the picked entry's character, repeated by the count. */
  lemma RenderedPicked(types: seq<Specifier>, item: Arg, strategy: string)
    requires RenderField(types, item, strategy).Ok?
    ensures item.Item? && Picked(types, item, strategy).Some?
    ensures RenderField(types, item, strategy).value == Repeat(Picked(types, item, strategy).value.token, Units(item.extents))
  {
  }

  lemma ScalarsSplit(types: seq<Specifier>, a: string, b: string)
    requires forall k :: 0 <= k < |a| ==> InTable(types, a[k])
    requires forall k :: 0 <= k < |b| ==> InTable(types, b[k])
    ensures forall k :: 0 <= k < |a + b| ==> InTable(types, (a + b)[k])
    ensures Scalars(types, a + b) == Scalars(types, a) + Scalars(types, b)
  {
    forall k | 0 <= k < |a + b| ensures InTable(types, (a + b)[k]) {
      if k < |a| { assert (a + b)[k] == a[k]; } else { assert (a + b)[k] == b[k - |a|]; }
    }
    var x, y := Scalars(types, a + b), Scalars(types, a) + Scalars(types, b);
    forall k | 0 <= k < |x| ensures x[k] == y[k] {
      if k < |a| { assert (a + b)[k] == a[k]; } else { assert (a + b)[k] == b[k - |a|]; }
    }
  }

  /** The character of an entry, repeated n times, reads as n scalar fields of that entry. */
  lemma ScalarsRepeat(types: seq<Specifier>, f: Specifier, n: nat)
    requires DistinctCharTokens(types) && f in types
    ensures forall k :: 0 <= k < |Repeat(f.token, n)| ==> InTable(types, Repeat(f.token, n)[k])
    ensures Scalars(types, Repeat(f.token, n)) == Copies(Field(f, []), n)
  {
    EntryOfToken(types, f);
  }

  /** The concatenated renderings, read back character by character. */
  lemma {:induction false} ScalarsOfRendered(types: seq<Specifier>, args: seq<Arg>, strategy: string, renders: seq<string>)
    requires DistinctCharTokens(types) && |renders| == |args|
    requires forall i :: 0 <= i < |args| ==> args[i].Item? && Picked(types, args[i], strategy).Some?
    requires forall i :: 0 <= i < |args| ==>
               renders[i] == Repeat(Picked(types, args[i], strategy).value.token, Units(args[i].extents))
    ensures forall k :: 0 <= k < |Join("", renders)| ==> InTable(types, Join("", renders)[k])
    ensures Scalars(types, Join("", renders)) == Expanded(types, args, strategy)
    decreases |args|
  {
    if args != [] {
      var f := Picked(types, args[0], strategy).value;
      JoinHead(renders);
      ScalarsOfRendered(types, args[1..], strategy, renders[1..]);
      ScalarsRepeat(types, f, Units(args[0].extents));
      ScalarsSplit(types, renders[0], Join("", renders[1..]));
    }
  }

  /** A string's characters, each as a one-character piece. */
  function Chars(r: string): (pieces: seq<string>)
    ensures |pieces| == |r| && forall k :: 0 <= k < |r| ==> pieces[k] == [r[k]]
  {
    seq(|r|, k requires 0 <= k < |r| => [r[k]])
  }

  lemma {:induction false} JoinChars(r: string)
    ensures Join("", Chars(r)) == r
    decreases |r|
  {
    if |r| > 1 {
      JoinChars(r[1..]);
      assert Chars(r)[1..] == Chars(r[1..]);
      assert r == [r[0]] + r[1..];
    }
  }

  /** Characters of a table are one counted format each, without a count. */
  lemma CharsCounted(types: seq<Specifier>, r: string)
    requires CharTokens(types)
    requires forall k :: 0 <= k < |r| ==> InTable(types, r[k])
    ensures forall k :: 0 <= k < |r| ==> IsCountedText(Chars(r)[k]) && InTable(types, Chars(r)[k][0])
    ensures seq(|r|, k requires 0 <= k < |r| => FieldOf(types, Chars(r)[k])) == Scalars(types, r)
  {
    forall k | 0 <= k < |r| ensures IsCountedText(Chars(r)[k]) {
      assert Entry(types, r[k]).token[0] == r[k];
      assert Chars(r)[k][..0] == [];
    }
  }

  /** A string of table characters decodes as one scalar field per character. */
  lemma DecodeScalars(r: string)
    requires r != [] && forall k :: 0 <= k < |r| ==> InTable(Formats(), r[k])
    ensures Decode(r) == Ok(Scalars(Formats(), r))
  {
    TableDistinct();
    JoinChars(r);
    CharsCounted(Formats(), r);
    DecodeCounted(Chars(r));
  }

  /** The same after a byte-order marker. */
  lemma DecodeMarkedScalars(m: string, r: string)
    requires m != [] && IsSubstring(m, "@=<>!")
    requires forall k :: 0 <= k < |r| ==> InTable(Formats(), r[k])
    ensures Decode(m + r) == Ok([Marker(m)] + Scalars(Formats(), r))
  {
    TableDistinct();
    JoinChars(r);
    CharsCounted(Formats(), r);
    DecodeMarked(m, Chars(r));
  }

  /**
   * Rendering the count n with `with_shape` and decoding the result gives n scalar fields
   * of the entry, not one field of shape `(n,)`; the count 0 renders as "", which has no token.
   */
  lemma DecodeRepeated(f: Specifier, n: nat)
    requires f in Formats()
    ensures WithShape(f, [Count(n)]) == Ok(Repeat(f.token, n))
    ensures Decode(Repeat(f.token, n)) == if n == 0 then Err(NoTokens) else Ok(Copies(Field(f, []), n))
  {
    TableDistinct();
    ScalarsRepeat(Formats(), f, n);
    if n > 0 {
      DecodeScalars(Repeat(f.token, n));
    }
  }

  /** The fields rendered by `encode`, picked and repeated. */
  lemma RenderedFields(types: seq<Specifier>, args: seq<Arg>, strategy: string)
    requires RenderFields(types, args, strategy).Ok?
    ensures forall i :: 0 <= i < |args| ==> args[i].Item? && Picked(types, args[i], strategy).Some?
    ensures var renders := RenderFields(types, args, strategy).value;
            forall i :: 0 <= i < |args| ==>
              renders[i] == Repeat(Picked(types, args[i], strategy).value.token, Units(args[i].extents))
  {
    var renders := RenderFields(types, args, strategy).value;
    forall i | 0 <= i < |args|
      ensures args[i].Item? && Picked(types, args[i], strategy).Some?
      ensures renders[i] == Repeat(Picked(types, args[i], strategy).value.token, Units(args[i].extents))
    {
      RenderedPicked(types, args[i], strategy);
    }
  }

  /**
   * Decoding what `encode` wrote gives, in order, the entry `search` picked for each field,
   * once for a field without extents and n times for the count n, each as a scalar field.
   * Writing nothing (all counts 0) leaves no token to decode.
   */
  lemma DecodeEncode(args: seq<Arg>, strategy: string)
    requires forall i :: 0 <= i < |args| ==> args[i].Item?
    requires Encode(args, strategy).Ok?
    ensures forall i :: 0 <= i < |args| ==> Picked(Formats(), args[i], strategy).Some?
    ensures var r := Encode(args, strategy).value;
            Decode(r) == if r == "" then Err(NoTokens) else Ok(Expanded(Formats(), args, strategy))
  {
    var renders := RenderFields(Formats(), args, strategy).value;
    var r := Join("", renders);
    assert Encode(args, strategy).value == "" + r;
    assert "" + r == r;
    TableDistinct();
    RenderedFields(Formats(), args, strategy);
    ScalarsOfRendered(Formats(), args, strategy, renders);
    if r != "" {
      DecodeScalars(r);
    }
  }

  /** The same when `encode` was given a byte-order marker first: `decode` peels it off again. */
  lemma DecodeEncodeMarked(m: string, args: seq<Arg>, strategy: string)
    requires m != [] && IsSubstring(m, "@=<>!")
    requires forall i :: 0 <= i < |args| ==> args[i].Item?
    requires Encode([Str(m)] + args, strategy).Ok?
    ensures forall i :: 0 <= i < |args| ==> Picked(Formats(), args[i], strategy).Some?
    ensures Decode(Encode([Str(m)] + args, strategy).value) == Ok([Marker(m)] + Expanded(Formats(), args, strategy))
  {
    assert ([Str(m)] + args)[1..] == args;
    var renders := RenderFields(Formats(), args, strategy).value;
    var r := Join("", renders);
    assert Encode([Str(m)] + args, strategy).value == m + r;
    TableDistinct();
    RenderedFields(Formats(), args, strategy);
    ScalarsOfRendered(Formats(), args, strategy, renders);
    DecodeMarkedScalars(m, r);
  }
}
