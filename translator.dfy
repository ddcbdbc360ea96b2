/**
 * The translator: a dtype string of one notation decoded by that notation's parser and
 * encoded again by another's, under a search strategy.
 *
 * The parsers are looked up by their lower-cased framework name. The sizes of C types,
 * which the NumPy table takes from the host, are a parameter.
 */
module Translator {
  import opened Common
  import opened Text
  import opened Types
  import NumPy
  import Struct

  /** The parser implementations: `NumPyParser` and `StructParser`, in registration order. */
  datatype Notation = NumPyNotation | StructNotation

  /** The framework name each parser registers under. */
  function FrameworkName(n: Notation): string {
    match n
    case NumPyNotation => "numpy"
    case StructNotation => "struct"
  }

  /** `framework`: each implementation under its lower-cased framework name. */
  function Registry(): map<string, Notation> {
    map[Lower(FrameworkName(NumPyNotation)) := NumPyNotation,
        Lower(FrameworkName(StructNotation)) := StructNotation]
  }

  /** `framework[name]`: the parser registered under `name`, a KeyError for any other name. */
  function Lookup(name: string): (r: Result<Notation>)
    ensures r.Ok? <==> name == "numpy" || name == "struct"
    ensures r.Ok? ==> FrameworkName(r.value) == name
    ensures r.Err? ==> r.error == UnknownNotation(name)
  {
    assert Lower("numpy") == "numpy" && Lower("struct") == "struct";
    if name in Registry() then Ok(Registry()[name]) else Err(UnknownNotation(name))
  }

  /** `decode` of the implementation. */
  function DecodeWith(cs: NumPy.CTypeSizes, n: Notation, specifier: string): Result<seq<Element>> {
    match n
    case NumPyNotation => NumPy.Decode(cs, specifier)
    case StructNotation => Struct.Decode(specifier)
  }

  /** The arguments `encode(*decoded)` receives in the struct parser: each pair unpacked. */
  function StructArgs(decoded: seq<Element>): (args: seq<Struct.Arg>)
    ensures |args| == |decoded|
    ensures forall i :: 0 <= i < |decoded| ==> args[i] == Struct.Unpack(decoded[i])
  {
    seq(|decoded|, i requires 0 <= i < |decoded| => Struct.Unpack(decoded[i]))
  }

  /** `encode(*decoded, strategy=strategy)` of the implementation. */
  function EncodeWith(cs: NumPy.CTypeSizes, n: Notation, decoded: seq<Element>, strategy: string): Result<string> {
    match n
    case NumPyNotation => NumPy.Encode(cs, decoded, strategy)
    case StructNotation => Struct.Encode(StructArgs(decoded), strategy)
  }

  /**
   * `translate`: both names lower-cased, the specifier decoded by the source parser and the
   * result encoded by the destination parser. StopIteration from the exact strategy becomes
   * the translator's own error; every other failure passes through unchanged. The
   * destination is looked up only after decoding.
   */
  function Translate(cs: NumPy.CTypeSizes, specifier: string, from: string, to: string, strategy: string): Result<string> {
    var source, destination := Lower(from), Lower(to);
    var decoder :- Lookup(source);
    var decoded :- DecodeWith(cs, decoder, specifier);
    var encoder :- Lookup(destination);
    var encoded := EncodeWith(cs, encoder, decoded, strategy);
    if encoded == Err(NoExactMatch) then Err(CannotTranslate(specifier, source, destination, strategy))
    else encoded
  }

  // ---------------------------------------------------------------------------
  // The registry

  /** The framework names are lower-case already. */
  lemma NamesLowered()
    ensures Lower("numpy") == "numpy" && Lower("struct") == "struct"
  {
    assert Lower("numpy") == "numpy";
    assert Lower("struct") == "struct";
  }

  /** Every implementation is found under its framework name, in any letter case. */
  lemma LookupName(n: Notation, name: string)
    requires Lower(name) == FrameworkName(n)
    ensures Lookup(Lower(name)) == Ok(n)
  {
  }

  /** Only the two framework names are known; any other name fails with that name, lower-cased. */
  lemma LookupUnknown(name: string)
    requires Lower(name) != "numpy" && Lower(name) != "struct"
    ensures Lookup(Lower(name)) == Err(UnknownNotation(Lower(name)))
  {
  }

  // ---------------------------------------------------------------------------
  // Properties of translate

  /** The notation names compare case-insensitively; the reported names are lower-cased. */
  lemma TranslateCaseInsensitive(cs: NumPy.CTypeSizes, specifier: string, from: string, to: string, strategy: string)
    ensures Translate(cs, specifier, from, to, strategy) == Translate(cs, specifier, Lower(from), Lower(to), strategy)
  {
    LowerIdempotent(from);
    LowerIdempotent(to);
  }

  /**
   * A translation succeeds exactly when both names are known and the destination parser
   * encodes what the source parser decoded, and then its result is that encoding.
   */
  lemma TranslateComposes(cs: NumPy.CTypeSizes, specifier: string, from: string, to: string, strategy: string)
    ensures Translate(cs, specifier, from, to, strategy).Ok? <==>
              && Lookup(Lower(from)).Ok? && Lookup(Lower(to)).Ok?
              && DecodeWith(cs, Lookup(Lower(from)).value, specifier).Ok?
              && EncodeWith(cs, Lookup(Lower(to)).value, DecodeWith(cs, Lookup(Lower(from)).value, specifier).value, strategy).Ok?
    ensures Translate(cs, specifier, from, to, strategy).Ok? ==>
              Translate(cs, specifier, from, to, strategy)
              == EncodeWith(cs, Lookup(Lower(to)).value, DecodeWith(cs, Lookup(Lower(from)).value, specifier).value, strategy)
  {
  }

  /** With both names known, a decoding and its encoding give the translation. */
  lemma TranslateOk(cs: NumPy.CTypeSizes, specifier: string, from: string, to: string, strategy: string,
                    decoded: seq<Element>, out: string)
    requires Lookup(Lower(from)).Ok? && Lookup(Lower(to)).Ok?
    requires DecodeWith(cs, Lookup(Lower(from)).value, specifier) == Ok(decoded)
    requires EncodeWith(cs, Lookup(Lower(to)).value, decoded, strategy) == Ok(out)
    ensures Translate(cs, specifier, from, to, strategy) == Ok(out)
  {
  }

  /** An unknown source fails at once, whatever the destination. */
  lemma TranslateUnknownSource(cs: NumPy.CTypeSizes, specifier: string, from: string, to: string, strategy: string)
    requires Lower(from) != "numpy" && Lower(from) != "struct"
    ensures Translate(cs, specifier, from, to, strategy) == Err(UnknownNotation(Lower(from)))
  {
  }

  /** A specifier the source cannot decode fails with the decoder's error, before the destination is looked up. */
  lemma TranslateDecodeFirst(cs: NumPy.CTypeSizes, specifier: string, from: string, to: string, strategy: string)
    requires Lookup(Lower(from)).Ok? && DecodeWith(cs, Lookup(Lower(from)).value, specifier).Err?
    ensures Translate(cs, specifier, from, to, strategy)
            == Err(DecodeWith(cs, Lookup(Lower(from)).value, specifier).error)
  {
  }

  /** An unknown destination fails with its lower-cased name once decoding succeeded. */
  lemma TranslateUnknownDestination(cs: NumPy.CTypeSizes, specifier: string, from: string, to: string, strategy: string)
    requires Lookup(Lower(from)).Ok? && DecodeWith(cs, Lookup(Lower(from)).value, specifier).Ok?
    requires Lower(to) != "numpy" && Lower(to) != "struct"
    ensures Translate(cs, specifier, from, to, strategy) == Err(UnknownNotation(Lower(to)))
  {
  }

  /** The failures an encoder can raise; none of them is the translator's own error. */
  predicate IsEncoderError(e: Error) {
    || e.NoArguments? || e.MisplacedMarker? || e.NoExactMatch? || e.SizeNotComparable?
    || e.NoCandidate? || e.UnknownStrategy? || e.MultiDimensional? || e.NonIntegerCount?
  }

  /** `search` fails only by StopIteration, an empty candidate list or a missing size. */
  lemma SearchFailure(types: seq<Specifier>, kind: Option<string>, size: Option<nat>, strategy: string)
    requires Search(types, kind, size, strategy).Err?
    ensures var e := Search(types, kind, size, strategy).error;
            e == NoExactMatch || e == NoCandidate || e == SizeNotComparable
  {
  }

  lemma NumPyFieldFailure(types: seq<Specifier>, item: Element, strategy: string)
    requires NumPy.RenderField(types, item, strategy).Err?
    ensures IsEncoderError(NumPy.RenderField(types, item, strategy).error)
  {
    if item.Field? && Search(types, item.spec.kind, item.spec.byteSize, strategy).Err? {
      SearchFailure(types, item.spec.kind, item.spec.byteSize, strategy);
    }
  }

  lemma StructFieldFailure(types: seq<Specifier>, item: Struct.Arg, strategy: string)
    requires Struct.RenderField(types, item, strategy).Err?
    ensures IsEncoderError(Struct.RenderField(types, item, strategy).error)
  {
    if item.Item? && Search(types, item.spec.kind, item.spec.byteSize, strategy).Err? {
      SearchFailure(types, item.spec.kind, item.spec.byteSize, strategy);
    }
  }

  /** Whatever the destination, an encoding fails only with an encoder's error. */
  lemma EncodeFailure(cs: NumPy.CTypeSizes, n: Notation, decoded: seq<Element>, strategy: string)
    requires EncodeWith(cs, n, decoded, strategy).Err?
    ensures IsEncoderError(EncodeWith(cs, n, decoded, strategy).error)
  {
    var e := EncodeWith(cs, n, decoded, strategy).error;
    if decoded != [] {
      match n
      case NumPyNotation =>
        var fields := if decoded[0].Marker? then decoded[1..] else decoded;
        var r := NumPy.RenderFields(NumPy.Formats(cs), fields, strategy);
        assert r.Err? && r.error == e;
        var i :| 0 <= i < |fields| && NumPy.RenderField(NumPy.Formats(cs), fields[i], strategy) == Err(r.error);
        NumPyFieldFailure(NumPy.Formats(cs), fields[i], strategy);
      case StructNotation =>
        var args := StructArgs(decoded);
        var fields := if args[0].Str? then args[1..] else args;
        var r := Struct.RenderFields(Struct.Formats(), fields, strategy);
        assert r.Err? && r.error == e;
        var i :| 0 <= i < |fields| && Struct.RenderField(Struct.Formats(), fields[i], strategy) == Err(r.error);
        StructFieldFailure(Struct.Formats(), fields[i], strategy);
    }
  }

  /**
   * Only StopIteration is rewrapped: when the exact strategy finds no entry, the error names
   * the specifier, both lower-cased names and the strategy as given.
   */
  lemma TranslateNoExactMatch(cs: NumPy.CTypeSizes, specifier: string, from: string, to: string, strategy: string)
    requires Lookup(Lower(from)).Ok? && Lookup(Lower(to)).Ok?
    requires DecodeWith(cs, Lookup(Lower(from)).value, specifier).Ok?
    requires EncodeWith(cs, Lookup(Lower(to)).value, DecodeWith(cs, Lookup(Lower(from)).value, specifier).value, strategy)
             == Err(NoExactMatch)
    ensures Translate(cs, specifier, from, to, strategy) == Err(CannotTranslate(specifier, Lower(from), Lower(to), strategy))
  {
  }

  /** Any other failure of the encoder reaches the caller unchanged. */
  lemma TranslateOtherFailure(cs: NumPy.CTypeSizes, specifier: string, from: string, to: string, strategy: string)
    requires Lookup(Lower(from)).Ok? && Lookup(Lower(to)).Ok?
    requires DecodeWith(cs, Lookup(Lower(from)).value, specifier).Ok?
    requires var e := EncodeWith(cs, Lookup(Lower(to)).value, DecodeWith(cs, Lookup(Lower(from)).value, specifier).value, strategy);
             e.Err? && e.error != NoExactMatch
    ensures Translate(cs, specifier, from, to, strategy)
            == EncodeWith(cs, Lookup(Lower(to)).value, DecodeWith(cs, Lookup(Lower(from)).value, specifier).value, strategy)
  {
  }

  /**
   * Once decoding succeeded, the translation fails with its own error exactly when the
   * encoder raised StopIteration, and StopIteration itself never escapes.
   */
  lemma TranslateRewrapsOnlyExact(cs: NumPy.CTypeSizes, specifier: string, from: string, to: string, strategy: string)
    requires Lookup(Lower(from)).Ok? && Lookup(Lower(to)).Ok?
    requires DecodeWith(cs, Lookup(Lower(from)).value, specifier).Ok?
    ensures var r := Translate(cs, specifier, from, to, strategy);
            var e := EncodeWith(cs, Lookup(Lower(to)).value, DecodeWith(cs, Lookup(Lower(from)).value, specifier).value, strategy);
            && (r.Err? && r.error.CannotTranslate? <==> e == Err(NoExactMatch))
            && r != Err(NoExactMatch)
  {
    var decoded := DecodeWith(cs, Lookup(Lower(from)).value, specifier).value;
    var n := Lookup(Lower(to)).value;
    var e := EncodeWith(cs, n, decoded, strategy);
    if e.Err? {
      EncodeFailure(cs, n, decoded, strategy);
      if e.error != NoExactMatch {
        TranslateOtherFailure(cs, specifier, from, to, strategy);
      } else {
        TranslateNoExactMatch(cs, specifier, from, to, strategy);
      }
    } else {
      TranslateComposes(cs, specifier, from, to, strategy);
    }
  }

  // ---------------------------------------------------------------------------
  // The struct parser as destination

  /** No unpacked element renders in the struct encoder: a string is misplaced, a shape tuple no count. */
  lemma UnpackedFails(types: seq<Specifier>, e: Element, strategy: string)
    ensures Struct.RenderField(types, Struct.Unpack(e), strategy).Err?
  {
    match e
    case Marker(_) =>
    case Field(spec, shape) =>
      var found := Search(types, spec.kind, spec.byteSize, strategy);
      if found.Ok? && found.value.Some? {
        assert Struct.WithShape(found.value.value, [Struct.Tuple(shape)]) == Err(NonIntegerCount);
      }
  }

  /**
   * The struct encoder accepts decoded pairs only in the degenerate case of a lone byte-order
   * marker, which it copies: `with_shape` receives each shape tuple as its count, which a
   * string cannot be repeated by. So the struct parser never encodes a decoded field.
   */
  lemma StructEncodesOnlyMarker(cs: NumPy.CTypeSizes, decoded: seq<Element>, strategy: string)
    ensures EncodeWith(cs, StructNotation, decoded, strategy).Ok? <==> |decoded| == 1 && decoded[0].Marker?
    ensures EncodeWith(cs, StructNotation, decoded, strategy).Ok? ==>
              EncodeWith(cs, StructNotation, decoded, strategy).value == decoded[0].text
  {
    var args := StructArgs(decoded);
    if args != [] {
      var fields := if args[0].Str? then args[1..] else args;
      var r := Struct.RenderFields(Struct.Formats(), fields, strategy);
      if fields != [] {
        if args[0].Str? {
          assert fields[0] == Struct.Unpack(decoded[1]);
        } else {
          assert fields[0] == Struct.Unpack(decoded[0]);
        }
        UnpackedFails(Struct.Formats(), decoded[if args[0].Str? then 1 else 0], strategy);
        assert r.Err?;
      } else {
        assert Join("", []) == "";
        assert args[0].Str? ==> decoded[0].Marker?;
      }
    }
  }

  /** NumPy decoding yields no marker, so nothing translates from NumPy to struct. */
  lemma NumPyToStructFails(cs: NumPy.CTypeSizes, specifier: string, strategy: string)
    ensures Translate(cs, specifier, "numpy", "struct", strategy).Err?
  {
    var from, to := "numpy", "struct";
    assert Lower(from) == "numpy" && Lower(to) == "struct";
    TranslateComposes(cs, specifier, from, to, strategy);
    NumPy.DecodeHasNoMarker(cs, specifier);
    var decoded := NumPy.Decode(cs, specifier);
    if decoded.Ok? {
      StructEncodesOnlyMarker(cs, decoded.value, strategy);
      if |decoded.value| == 1 {
        assert decoded.value[0].Field?;
      }
    }
  }

  /**
   * NumPy to NumPy reproduces what `encode` wrote for canonical fields: decoding gives the
   * fields back and encoding them writes the same text.
   */
  lemma NumPyToNumPyCanonical(cs: NumPy.CTypeSizes, fields: seq<Element>, strategy: string)
    requires fields != [] && forall i :: 0 <= i < |fields| ==> NumPy.Canonical(NumPy.Formats(cs), fields[i], strategy)
    requires NumPy.Encode(cs, fields, strategy).Ok?
    ensures var s := NumPy.Encode(cs, fields, strategy).value;
            Translate(cs, s, "numpy", "numpy", strategy) == Ok(s)
  {
    var s := NumPy.Encode(cs, fields, strategy).value;
    NumPy.DecodeEncodeCanonical(cs, fields, strategy);
    NamesLowered();
    TranslateOk(cs, s, "numpy", "numpy", strategy, fields, s);
  }
}
