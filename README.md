# pydtype in Dafny

pydtype translates data-type specifier strings between two notations. One is NumPy's dtype strings, such as `"(3,)S10,f8"`. The other is the format characters of Python's `struct` module, such as `"<7i3d"`. Each notation has a table of element formats (`NumPyTypes.types`, `StructTypes.types`), and each format is described by the same record: a common name, the literal token, a kind and a byte size. A parser *decodes* a string into a list of (format, shape) pairs, optionally headed by a byte-order marker. It *encodes* such a list back, choosing for each pair the table entry that `search` finds for its kind and byte size under a strategy: `exact`, `closest`, `leaky` or `contain`. `translate` decodes with one notation's parser and encodes with another's.

This project models that core on values. Every part of it is pure in the source, so the model is built from datatypes, functions and lemmas:

| file | module | models |
|---|---|---|
| `common.dfy` | `Common` | `Option`, `Result`, and one `Error` case per exception the library lets escape |
| `text.dfy` | `Text` | the Python string operations the codecs use, on ASCII text: character classes, `str(n)`, `int(s)`, `strip`, `rstrip`, `split`, `join`, `lower`, `s * n`, `t in s` |
| `types.dfy` | `Types` | the specifier record, `match` with its four strategies, `Types.search` and `Types.find` |
| `numpy.dfy` | `NumPy` | the NumPy format table, `NumPyFormat.with_shape` and `ident`, `NumPyParser.encode` and `decode` |
| `struct.dfy` | `Struct` | the 21-entry struct table, `StructFormat.with_shape` and `ident`, `StructParser.encode` and `decode`, including the peeling of a leading byte-order marker |
| `translator.dfy` | `Translator` | the registry of parsers by framework name, and `translate` |
| `*_examples.dfy` | `NumPyExamples`, `StructExamples`, `TranslatorExamples` | concrete strings from the repository's test suite, each proved from the general lemmas |

The regular expressions of the source are modelled as deterministic scanners over the text, such as `SpanFrom`, `FieldEnd` and `MatchFormat`. Lemmas state what these scanners accept, in terms of the regular expression's parts. Each Python exception is an `Err` value of `Result`. The byte sizes of C types, which the NumPy table reads from the host with `ctypes.sizeof`, are a parameter `cs: CTypeSizes`.

The main results are these:

- **Search.** `search` returns an entry of the queried kind. `exact` returns the first entry, in table order, of the right kind and size. `closest`, `leaky` and `contain` return the first entry at minimal distance, within the bound for the last two. When every entry of the queried kind has a byte size, each strategy fails exactly when the source raises, and all four strategies agree when an exact entry exists. When some entry of the kind has no size, every strategy but `exact` fails with TypeError (`Types.MissingSizeFails`); the struct table's `int` entries are such a case, where `exact` and `closest` disagree (`StructExamples.IntClosestDisagrees`).
- **Find.** `find` is decided by the first entry that does not decline the token.
- **NumPy reading back its own output.** For every format and shape, `ident(with_shape(shape)) == shape`, where a string format needs the length as its first extent. Decoding what `encode` wrote gives back the field tokens and shapes, and it gives back exactly the fields when they are canonical. Under that condition a NumPy to NumPy translation is the identity.
- **Struct reading back its own output.** `decode` after `encode` gives back the picked entries, once for each unit of each count, with a leading marker peeled off again. A marker run is accepted only as the first token, and only when it is part of `@=<>!`.
- **Translate.** Names are case-insensitive. The destination is looked up only after decoding. Only StopIteration is rewrapped into the translator's own error; every other failure passes through unchanged.

## Model

| member | source | states |
|---|---|---|
| Text.SpanRun | pydtype/frameworks/numpy.py:120 | the scanner behind every `[...]*` run of the regular expressions: every character of the run satisfies the class and the next one does not |
| Text.SpanExact | pydtype/frameworks/numpy.py:120 | a run that is maximal is the one the scanner finds |
| Text.Decimal | pydtype/frameworks/numpy.py:21-28 | `str(n)` is non-empty, made of digits, and has no leading zero |
| Text.DecimalRoundTrip | pydtype/frameworks/numpy.py:41 | `int(str(n)) == n` |
| Text.DecimalCanonical | pydtype/frameworks/numpy.py:21-28 | a numeral without leading zeros is `str` of its value |
| Text.Strip | pydtype/frameworks/numpy.py:34 | the definition of `strip`: the text after its leading whitespace, with its trailing whitespace trimmed; `Text.StripShape`, `Text.StripUnpadded` and `Text.StripPadded` state what it keeps |
| Text.StripShape | pydtype/frameworks/numpy.py:34 | `strip` keeps a slice with only whitespace around it, and leaves no whitespace at either end |
| Text.StripUnpadded | pydtype/frameworks/numpy.py:34 | `strip` leaves text alone when it neither starts nor ends with whitespace |
| Text.StripPadded | pydtype/frameworks/numpy.py:34 | `strip` removes exactly the whitespace padding around text that neither starts nor ends with whitespace |
| Text.RStrip | pydtype/frameworks/numpy.py:34 | `rstrip(c)` keeps a prefix, removes only copies of `c`, and leaves no trailing `c` |
| Text.RStripLast | pydtype/frameworks/numpy.py:34 | `rstrip(",")` removes the one trailing comma of a one-extent list |
| Text.Join | pydtype/frameworks/numpy.py:116 | the definition of `sep.join(parts)`; `Text.JoinInjective`, `Text.JoinHasSeparator` and `Text.SplitJoin` state its properties |
| Text.Split | pydtype/frameworks/numpy.py:41 | `split` always yields at least one piece |
| Text.SplitPieces | pydtype/frameworks/numpy.py:41 | the pieces of `split` contain no separator and join back to the text |
| Text.JoinInjective | pydtype/frameworks/numpy.py:116 | two lists of separator-free pieces with the same join are equal |
| Text.JoinHasSeparator | pydtype/frameworks/numpy.py:116 | a join contains the separator if and only if it has two pieces or more |
| Text.SplitJoin | pydtype/frameworks/numpy.py:41 | `split` recovers the pieces of a join when no piece contains the separator |
| Text.ParseInt | pydtype/frameworks/numpy.py:41 | the definition of `int(s)` on ASCII text: the value of the stripped text when it is non-empty digits, and otherwise a ValueError naming the text; `Text.ParseIntPadded`, `Text.ParseIntRejects` and `Text.DecimalRoundTrip` state what it accepts |
| Text.ParseIntPadded | pydtype/frameworks/numpy.py:41 | `int` reads a numeral `str(n)` with any whitespace around it as n |
| Text.ParseIntRejects | pydtype/frameworks/numpy.py:41 | `int` fails with ValueError on blank text and on text whose stripped form holds a character other than a digit |
| Text.ParseInts | pydtype/frameworks/numpy.py:50 | `tuple(map(int, pieces))` has one number per piece on success, and fails only with a piece's failure |
| Text.ParseIntsOk | pydtype/frameworks/numpy.py:50 | on success each number is `int` of its piece, in order |
| Text.ParseIntsErr | pydtype/frameworks/numpy.py:50 | a failure is the failure of some piece |
| Text.ParseIntsAll | pydtype/frameworks/numpy.py:41 | pieces that each convert convert together, in order |
| Text.Lower | pydtype/core/types.py:32 | the definition of `lower` on ASCII text, one character at a time; `Text.LowerHasNoUpper`, `Text.LowerFixed` and `Text.LowerIdempotent` state its properties |
| Text.LowerHasNoUpper | pydtype/core/types.py:32 | the result of `lower` holds no upper-case letter |
| Text.LowerFixed | pydtype/translator.py:11 | `lower` leaves text unchanged if and only if it holds no upper-case letter |
| Text.LowerIdempotent | pydtype/translator.py:11 | lower-casing twice equals lower-casing once |
| Text.Repeat | pydtype/frameworks/struct.py:20 | `s * n` is as long as n copies of `s`, and for a one-character `s` repeats that character |
| Text.IsSubstring | pydtype/frameworks/numpy.py:19 | `t in s` is true if and only if `t` occurs contiguously in `s` |
| Types.FilterMembers | pydtype/core/types.py:39-42 | `filter` keeps exactly the elements that pass it |
| Types.SameKindMembers | pydtype/core/types.py:14 | the same-kind list holds exactly the table entries of the queried kind |
| Types.FirstSized | pydtype/core/types.py:35 | `next(...)` finds the first candidate of the target size, or there is none |
| Types.FirstNearest | pydtype/core/types.py:37 | the stable sort by distance puts first the first candidate with minimal distance |
| Types.Nearest | pydtype/core/types.py:37 | the sorting step returns one of its candidates |
| Types.Bounded | pydtype/core/types.py:38-43 | the filtering step succeeds only with a candidate |
| Types.Match | pydtype/core/types.py:26-43 | the definition of `match`: the strategy lower-cased, then `exact`, `closest`, `leaky` or `contain`, and None for any other name; the `Types.Search*` lemmas state what each strategy returns |
| Types.Search | pydtype/core/types.py:12-15 | the definition of `search`: `match` on the same-kind entries by byte size; `Types.SearchKind`, `Types.SearchExact`, `Types.SearchClosest`, `Types.SearchLeaky`, `Types.SearchContain` and `Types.MissingSizeFails` state its results |
| Types.MatchPicksCandidate | pydtype/core/types.py:26-43 | whatever `match` returns is one of its candidates |
| Types.SearchKind | pydtype/core/types.py:12-15 | whatever `search` returns is a table entry of the queried kind |
| Types.StrategyCaseInsensitive | pydtype/core/types.py:32 | strategy names compare after lower-casing |
| Types.UnknownStrategyYieldsNone | pydtype/core/types.py:32-43 | an unknown strategy name makes `match` fall off its end and return None |
| Types.SearchExact | pydtype/core/types.py:34-35 | `exact` fails with StopIteration if and only if no entry has the kind and size; otherwise it returns the first such entry in table order |
| Types.SearchExactAt | pydtype/core/types.py:34-35 | `exact` returns the entry at a given index when that index is the first that fits |
| Types.SearchClosest | pydtype/core/types.py:36-37 | when every entry of the queried kind has a byte size, `closest` fails with IndexError if and only if no entry has the kind; otherwise it returns the first same-kind entry of minimal distance |
| Types.SearchIsNearest | pydtype/core/types.py:36-37 | under `closest`, `search` is the sorting step on the same-kind entries |
| Types.BoundedPick | pydtype/core/types.py:38-43 | when every entry of the queried kind has a byte size, the bounded strategies fail if and only if no same-kind entry passes the bound; otherwise they return the first nearest one that passes |
| Types.SearchLeaky | pydtype/core/types.py:38-40 | when every entry of the queried kind has a byte size, `leaky` returns the first same-kind entry with the largest size not above the target, and fails if and only if there is none |
| Types.SearchContain | pydtype/core/types.py:41-43 | when every entry of the queried kind has a byte size, `contain` returns the first same-kind entry with the smallest size not below the target, and fails if and only if there is none |
| Types.StrategiesAgreeOnExact | pydtype/core/types.py:34-43 | when every entry of the queried kind has a byte size and an exact entry exists, all four strategies return the first exact one; without sizes they can disagree (`Types.MissingSizeFails`, `StructExamples.IntClosestDisagrees`) |
| Types.MissingSizeFails | pydtype/core/types.py:36-43 | outside `exact`, a missing size gives TypeError; only an empty candidate list gives IndexError first |
| Types.UnsizedEntryFails | pydtype/core/types.py:36-43 | an entry of the queried kind without a byte size makes `closest`, `leaky` and `contain` fail with TypeError |
| Types.FirstToken | pydtype/core/types.py:19 | the first entry with a token, or no entry has it |
| Types.Find | pydtype/core/types.py:17-23 | the definition of `find`: the entries tried in table order; `Types.FindFrom` and `Types.FindFirst` state its results |
| Types.FindFrom | pydtype/core/types.py:19-23 | `find` returns an entry of the table with a shape, or fails with ValueError or with the failure of a parse operation |
| Types.FindFirst | pydtype/core/types.py:17-23 | `find` is decided by the first entry whose `ident` does not decline the token |
| Types.FindAll | pydtype/frameworks/numpy.py:124 | `[find(s) for s in split]` resolves every token in order, or fails with the first failing token's error |
| NumPy.FixedFormats | pydtype/frameworks/numpy.py:56-83 | the 27 fixed-width, object and void entries, in table order |
| NumPy.FixedRow | pydtype/frameworks/numpy.py:57-83 | row by row, the name, token, kind and byte size of each fixed-width, object and void entry |
| NumPy.CTypeFormats | pydtype/frameworks/numpy.py:84-93 | the nine entries named after C types, sized by the host's `ctypes.sizeof` |
| NumPy.Formats | pydtype/frameworks/numpy.py:56-99 | the 40-entry table in table order: fixed-width entries, C-type entries, then the last four; `NumPy.FormatsWellShaped` states the shape of its tokens |
| NumPy.WithShape | pydtype/frameworks/numpy.py:16-28 | the definition of `with_shape`; `NumPy.IdentWithShape` states that `ident` reads its output back as the shape, and `NumPy.WithShapeIsField` that the output is one tokenizer match |
| NumPy.MatchFormat | pydtype/frameworks/numpy.py:30-44 | the scanner for the format regular expression; `NumPy.MatchFormatSound` and `NumPy.MatchFormatComplete` state that it agrees with the expression |
| NumPy.MatchFormatSound | pydtype/frameworks/numpy.py:32-33 | a match of the format regular expression is the extent group, then the token, the length digits and the end of the text |
| NumPy.MatchFormatComplete | pydtype/frameworks/numpy.py:43-44 | the scanner finds every match the regular expression describes |
| NumPy.Ident | pydtype/frameworks/numpy.py:30-50 | `ident` declines exactly when the regular expression does not match; a string format's shape always has a length |
| NumPy.ShapeOf | pydtype/frameworks/numpy.py:34-50 | the shape a match denotes: the length first for string formats, then the stripped extents, or the failure of `int` |
| NumPy.StringLikeTokens | pydtype/frameworks/numpy.py:19 | among token-shaped characters, `character in "SaU"` holds for `S`, `a` and `U` and nothing else |
| NumPy.FormatsWellShaped | pydtype/frameworks/numpy.py:56-98 | every token of the 40-entry table is one type character followed by digits, and S, a and U stand alone |
| NumPy.IdentBare | pydtype/frameworks/numpy.py:37-49 | a bare token is a scalar, or a string of length 1 |
| NumPy.IdentStringLength | pydtype/frameworks/numpy.py:37-40 | `Sn` is one string of length n |
| NumPy.IdentStringExtents | pydtype/frameworks/numpy.py:31-41 | parenthesised extents before a string format come after its length in the shape |
| NumPy.IdentPlainExtents | pydtype/frameworks/numpy.py:31-50 | a count without parentheses is read as the extents too: `90a10` is (10, 90) |
| NumPy.IdentExtents | pydtype/frameworks/numpy.py:42-50 | parenthesised extents before another format are exactly its shape |
| NumPy.IdentWithShape | pydtype/frameworks/numpy.py:16-50 | `ident(with_shape(shape)) == shape` for every shape a format can render |
| NumPy.ExtentItemsRead | pydtype/frameworks/numpy.py:24-50 | the extent list `with_shape` writes is made of extent characters and reads back as the extents |
| NumPy.JoinedParse | pydtype/frameworks/numpy.py:41-50 | `int` on the pieces of the comma-joined numerals gives the numbers back |
| NumPy.IdentByKey | pydtype/frameworks/numpy.py:30-50 | a table format accepts a token if and only if its own token is the token's key (the type character and any digits that belong to the token) |
| NumPy.FindByKey | pydtype/core/types.py:17-23 | `find` resolves a token to the first entry with its key, and fails as unsupported when no entry has it |
| NumPy.GroupedEnd | pydtype/frameworks/numpy.py:120 | the end of a match of the first, parenthesised alternative of the tokenizer regular expression, which lies after its start |
| NumPy.PlainEnd | pydtype/frameworks/numpy.py:120 | the end of a match of the second alternative of the tokenizer regular expression, which lies after its start |
| NumPy.FieldEnd | pydtype/frameworks/numpy.py:120 | a match of the tokenizer tries the first alternative, then the second, and is non-empty |
| NumPy.Tokenize | pydtype/frameworks/numpy.py:120 | the definition of `re.findall` with the tokenizer; `NumPy.TokensHaveTypeChar` and `NumPy.TokenizeJoined` state its results |
| NumPy.FieldEndHasTypeChar | pydtype/frameworks/numpy.py:120 | each match of the tokenizer regular expression holds a type character |
| NumPy.TokensHaveTypeChar | pydtype/frameworks/numpy.py:120 | every token `decode` finds holds a type character |
| NumPy.NotMarker | pydtype/frameworks/numpy.py:122 | no token is a substring of the marker string made of `=`, `<`, `>` and the vertical bar |
| NumPy.DecodeHasNoMarker | pydtype/frameworks/numpy.py:118-128 | `decode` never returns a byte-order marker: it fails without tokens, and otherwise is `find` on every token |
| NumPy.Decode | pydtype/frameworks/numpy.py:118-128 | the definition of `decode`; `NumPy.DecodeHasNoMarker` and `NumPy.DecodeEncodeCanonical` state its results |
| NumPy.RenderField | pydtype/frameworks/numpy.py:113 | a marker in field position fails, and only a field can render; `NumPy.RenderFieldsPicked` states that a rendering is `with_shape` of the entry `search` picked |
| NumPy.RenderFields | pydtype/frameworks/numpy.py:112-115 | every field rendered in order, or the first failure |
| NumPy.WithShapeIsField | pydtype/frameworks/numpy.py:16-28 | every rendered field has the shape of a tokenizer match |
| NumPy.TokenizeJoined | pydtype/frameworks/numpy.py:116-120 | `findall` on comma-joined rendered fields gives back exactly those fields |
| NumPy.FindRendered | pydtype/core/types.py:17-23 | `find` on a rendered field gives the first entry with its token and the shape written |
| NumPy.FindAllSucceeds | pydtype/frameworks/numpy.py:124 | `find` on every token succeeds when each one does |
| NumPy.Picked | pydtype/core/types.py:12-15 | the entry `search` picks for a field is in the table and of the field's kind |
| NumPy.RenderFieldsPicked | pydtype/frameworks/numpy.py:112-115 | each rendering is `with_shape` of the entry `search` picked |
| NumPy.FindAllOfRendered | pydtype/frameworks/numpy.py:112-124 | on a well-shaped table, `find` on the tokens of the renderings gives the picked tokens and the shapes |
| NumPy.DecodeEncode | pydtype/frameworks/numpy.py:106-128 | decoding what `encode` wrote gives one field per field, with the picked token and the written shape |
| NumPy.Encode | pydtype/frameworks/numpy.py:106-116 | the definition of `encode`; `NumPy.EncodeEmpty`, `NumPy.EncodeMarked` and `NumPy.EncodeUnmarked` state its results |
| NumPy.EncodeEmpty | pydtype/frameworks/numpy.py:109 | `encode` with no argument fails, as `spec[0]` raises IndexError |
| NumPy.EncodeMarked | pydtype/frameworks/numpy.py:108-116 | with a leading marker, `encode` succeeds if and only if the other arguments all render, and then writes the marker verbatim followed by the renderings joined with commas; otherwise it fails with the first rendering failure |
| NumPy.EncodeUnmarked | pydtype/frameworks/numpy.py:108-116 | without a leading marker, `encode` succeeds if and only if every argument renders, and then writes the renderings joined with commas; otherwise it fails with the first rendering failure |
| NumPy.EncodedFields | pydtype/frameworks/numpy.py:107-116 | without a leading marker, `encode` writes the renderings joined with commas |
| NumPy.CanonicalRenders | pydtype/frameworks/numpy.py:113 | canonical fields render with their own entries |
| NumPy.FindAllCanonical | pydtype/frameworks/numpy.py:120-124 | `find` on the renderings of canonical fields resolves them to exactly those fields |
| NumPy.DecodeEncodeCanonical | pydtype/frameworks/numpy.py:106-128 | `decode(encode(fields)) == fields` for canonical fields |
| Struct.Row | pydtype/frameworks/struct.py:38-58 | row by row, the name, character, kind and byte size of each struct entry |
| Struct.Formats | pydtype/frameworks/struct.py:37-59 | the 21-entry table in table order; `Struct.TableCharacters` and `Struct.TableDistinct` state its tokens |
| Struct.WithShape | pydtype/frameworks/struct.py:15-20 | succeeds if and only if there is no extent or one integer count, and then repeats the character by the count; two extents or more fail |
| Struct.Ident | pydtype/frameworks/struct.py:27-33 | never raises, and a shape has at most one extent |
| Struct.FieldEnd | pydtype/frameworks/struct.py:77 | a match of the tokenizer regular expression is non-empty |
| Struct.Unpack | pydtype/frameworks/struct.py:71 | `s, *shape = pair` keeps the descriptor and makes the decoded shape tuple, itself, the single extent; a string is passed on as a string |
| Struct.Picked | pydtype/core/types.py:12-15 | the picked entry is in the table and of the field's kind |
| Struct.RenderField | pydtype/frameworks/struct.py:70 | a string in field position fails, and only a field can render; `Struct.RenderedPicked` states that a rendering is the character of the entry `search` picked, repeated |
| Struct.RenderFields | pydtype/frameworks/struct.py:69-72 | every field rendered in order, or the first failure |
| Struct.Encode | pydtype/frameworks/struct.py:63-73 | the definition of `encode`; `Struct.EncodeEmpty`, `Struct.EncodeMarked` and `Struct.EncodeUnmarked` state its results |
| Struct.EncodeEmpty | pydtype/frameworks/struct.py:66 | `encode` with no argument fails, as `spec[0]` raises IndexError |
| Struct.EncodeMarked | pydtype/frameworks/struct.py:65-73 | with a leading string, `encode` succeeds if and only if the other arguments all render, and then writes the string verbatim followed by the concatenated renderings; otherwise it fails with the first rendering failure |
| Struct.EncodeUnmarked | pydtype/frameworks/struct.py:65-73 | without a leading string, `encode` succeeds if and only if every argument renders, and then concatenates the renderings; otherwise it fails with the first rendering failure |
| Struct.TableCharacters | pydtype/frameworks/struct.py:37-59 | the table's tokens are its 21 characters, in order, each a type character |
| Struct.CharactersDistinct | pydtype/frameworks/struct.py:37-59 | no two entries share a character |
| Struct.TableDistinct | pydtype/frameworks/struct.py:37-59 | every token is one type character, and no two are alike |
| Struct.Entry | pydtype/core/types.py:19-22 | the first entry whose token is a character |
| Struct.InTableCharacters | pydtype/frameworks/struct.py:37-59 | a character has an entry if and only if it is one of the 21 characters |
| Struct.EntryOfToken | pydtype/frameworks/struct.py:37-59 | with distinct characters, each entry is the entry of its own character |
| Struct.IdentCounted | pydtype/frameworks/struct.py:28-33 | an optional count, the character and an optional final line feed are accepted, with shape `()` or `(n,)` |
| Struct.IdentOnlyCounted | pydtype/frameworks/struct.py:28-30 | nothing else is accepted |
| Struct.IdentExactly | pydtype/frameworks/struct.py:27-33 | `ident` accepts exactly an optional count followed by the character, with the counted shape |
| Struct.IdentCountForm | pydtype/frameworks/struct.py:31-33 | `str(n)` followed by the character reads as `(n,)`, so "1i" is `(1,)` |
| Struct.IdentDeclines | pydtype/frameworks/struct.py:28-30 | a counted format is declined by every entry with another character |
| Struct.FindCounted | pydtype/core/types.py:17-22 | a counted format resolves to the first entry of its character, with the counted shape |
| Struct.FindUnknown | pydtype/core/types.py:23 | a character without an entry is unsupported |
| Struct.FindMarkerRun | pydtype/core/types.py:23 | a run of byte-order characters is accepted by no entry |
| Struct.Tokenize | pydtype/frameworks/struct.py:77 | the definition of `re.findall` with the tokenizer; `Struct.TokenizeCounted`, `Struct.TokenizeMarked`, `Struct.TokensShaped` and `Struct.TokenizeEmpty` state its results |
| Struct.FieldEndCounted | pydtype/frameworks/struct.py:77 | a counted format is one match of the tokenizer |
| Struct.FieldEndMarker | pydtype/frameworks/struct.py:77 | a maximal run of byte-order characters is one match |
| Struct.TokenizeCounted | pydtype/frameworks/struct.py:77 | `findall` on concatenated counted formats gives back exactly those formats |
| Struct.MarkerSubstring | pydtype/frameworks/struct.py:79 | the markers `decode` keeps, the non-empty parts of `@=<>!`, are runs of byte-order characters |
| Struct.CountedNotMarker | pydtype/frameworks/struct.py:79 | a counted format is never taken for a marker |
| Struct.FindAllCounted | pydtype/frameworks/struct.py:81 | `find` on every counted format succeeds, in order |
| Struct.Decode | pydtype/frameworks/struct.py:75-85 | the definition of `decode`; `Struct.DecodeCounted`, `Struct.DecodeMarked`, `Struct.DecodeFindsAll` and `Struct.DecodeNoTokens` state its results |
| Struct.DecodeCounted | pydtype/frameworks/struct.py:75-84 | concatenated counted formats decode to their entries and counts, in order |
| Struct.TokenizeMarked | pydtype/frameworks/struct.py:77 | a marker run followed by counted formats tokenizes as the run and then the formats |
| Struct.DecodeMarked | pydtype/frameworks/struct.py:79-85 | a leading marker is peeled off and returned first |
| Struct.TokensShaped | pydtype/frameworks/struct.py:77 | every token is non-empty, and one that starts with a byte-order character is a run of them |
| Struct.DecodeFindsAll | pydtype/frameworks/struct.py:79-81 | a successful `decode` has tokens and resolves all of them after a peeled marker |
| Struct.DecodeMarkerOnlyFirst | pydtype/frameworks/struct.py:77-81 | a successful decode has byte-order characters only in its first token, and only as part of `@=<>!` |
| Struct.FieldEndNone | pydtype/frameworks/struct.py:77 | no match starts at a character if and only if it is skipped |
| Struct.TokenizeEmpty | pydtype/frameworks/struct.py:77 | `findall` finds nothing if and only if every character is skipped |
| Struct.FindFailure | pydtype/core/types.py:23 | `find` with the struct `ident` fails only as unsupported |
| Struct.DecodeNoTokens | pydtype/frameworks/struct.py:77-79 | `decode` fails for lack of tokens if and only if every character is skipped |
| Struct.RenderedPicked | pydtype/frameworks/struct.py:70 | a rendered field is the picked entry's character repeated by the count |
| Struct.ScalarsRepeat | pydtype/frameworks/struct.py:20 | a character repeated n times reads as n scalar fields of its entry |
| Struct.ScalarsOfRendered | pydtype/frameworks/struct.py:73 | the concatenated renderings read back, character by character, as the expanded fields |
| Struct.DecodeScalars | pydtype/frameworks/struct.py:75-84 | table characters decode as one scalar field each |
| Struct.DecodeMarkedScalars | pydtype/frameworks/struct.py:75-85 | the same after a marker, which comes first |
| Struct.DecodeRepeated | pydtype/frameworks/struct.py:15-20 | the count n renders as n characters, which decode as n scalar fields rather than one field of shape `(n,)`; n = 0 leaves no token |
| Struct.RenderedFields | pydtype/frameworks/struct.py:69-72 | every rendering is the picked character repeated by its count |
| Struct.DecodeEncode | pydtype/frameworks/struct.py:63-85 | decoding what `encode` wrote gives the picked entries, expanded by their counts, in order; empty output has no token |
| Struct.DecodeEncodeMarked | pydtype/frameworks/struct.py:63-85 | with a leading marker, `decode` peels it off again and returns it first |
| Translator.Registry | pydtype/translator.py:6-7 | the two parsers under their lower-cased framework names; `Translator.Lookup` states which names it knows |
| Translator.Lookup | pydtype/translator.py:7 | the registry knows "numpy" and "struct" and no other name; an unknown name is a KeyError naming it |
| Translator.LookupName | pydtype/translator.py:7 | each parser is found under its framework name in any letter case |
| Translator.LookupUnknown | pydtype/translator.py:11-12 | any other name fails with that name, lower-cased |
| Translator.DecodeWith | pydtype/translator.py:12 | `decode` of the parser the source name selects |
| Translator.StructArgs | pydtype/translator.py:14 | `encode(*decoded)` receives one argument per decoded element, each the element as `s, *shape` unpacks it |
| Translator.EncodeWith | pydtype/translator.py:14 | `encode(*decoded, strategy=strategy)` of the parser the destination name selects |
| Translator.Translate | pydtype/translator.py:10-18 | the definition of `translate`; `Translator.TranslateComposes`, `Translator.TranslateRewrapsOnlyExact` and the other `Translator.Translate*` lemmas state its results |
| Translator.TranslateCaseInsensitive | pydtype/translator.py:11 | the notation names compare case-insensitively |
| Translator.TranslateComposes | pydtype/translator.py:10-18 | a translation succeeds if and only if both names are known and the destination encodes what the source decoded; its result is that encoding |
| Translator.TranslateOk | pydtype/translator.py:10-14 | a decoding and its encoding give the translation |
| Translator.TranslateUnknownSource | pydtype/translator.py:11-12 | an unknown source fails at once, whatever the destination |
| Translator.TranslateDecodeFirst | pydtype/translator.py:12 | a decoding failure is reported before the destination is looked up |
| Translator.TranslateUnknownDestination | pydtype/translator.py:14 | an unknown destination fails with its lower-cased name once decoding succeeded |
| Translator.SearchFailure | pydtype/core/types.py:34-43 | `search` fails only with StopIteration, IndexError or TypeError |
| Translator.EncodeFailure | pydtype/frameworks/numpy.py:107-116 | an encoder fails only with one of the encoder errors, never the translator's own error |
| Translator.TranslateNoExactMatch | pydtype/translator.py:15-18 | StopIteration becomes the translator's error, naming the specifier, both lower-cased names and the strategy |
| Translator.TranslateOtherFailure | pydtype/translator.py:13-14 | any other encoder failure reaches the caller unchanged |
| Translator.TranslateRewrapsOnlyExact | pydtype/translator.py:13-18 | once decoding succeeded, the translator's error occurs if and only if the encoder raised StopIteration, which never escapes |
| Translator.UnpackedFails | pydtype/frameworks/struct.py:15-20 | no unpacked decoded element renders in the struct encoder |
| Translator.StructEncodesOnlyMarker | pydtype/frameworks/struct.py:63-73 | the struct encoder succeeds on decoded elements if and only if they are a lone marker, which it copies |
| Translator.NumPyToStructFails | pydtype/translator.py:10-18 | every translation from NumPy to struct fails |
| Translator.NumPyToNumPyCanonical | pydtype/translator.py:10-18 | NumPy to NumPy is the identity on what `encode` writes for canonical fields |
| StructExamples.DecodeBoolShorts | tests/frameworks/test_struct.py:86 | "?2h5H" decodes to `_Bool` (), `short` (2,) and `unsigned short` (5,), with their kinds and sizes |
| StructExamples.DecodeUnitCounts | tests/frameworks/test_struct.py:87 | "1iI1l" decodes with shapes (1,), () and (1,) |
| StructExamples.DecodeLongArray | tests/frameworks/test_struct.py:65 | "100l" decodes to `long` with shape (100,) |
| StructExamples.DecodeLittleEndianShort | pydtype/frameworks/struct.py:79-85 | "<h" decodes to the marker and then `short` |
| StructExamples.DecodeMarkerRunFails | pydtype/frameworks/struct.py:77-81 | "!<h" fails: the run "!<" goes to `find` |
| StructExamples.DecodeUnknownCharacter | pydtype/core/types.py:23 | "z" is unsupported |
| StructExamples.DecodeEmpty | pydtype/frameworks/struct.py:79 | the empty text has no token |
| StructExamples.DecodeSpaces | pydtype/frameworks/struct.py:77-79 | text of spaces has no token |
| StructExamples.SearchShort | pydtype/core/types.py:34-35 | exact search for a two-byte `int` picks `short` |
| StructExamples.IntClosestDisagrees | pydtype/core/types.py:34-37 | for a four-byte `int` in the struct table, `exact` picks `int`, while `closest` fails with TypeError because `ssize_t` has no size |
| StructExamples.EncodeShortTriple | pydtype/frameworks/struct.py:63-73 | a marker and `short` counted 3 encode as "<hhh" |
| StructExamples.DecodeShortTriple | pydtype/frameworks/struct.py:75-85 | "<hhh" decodes as the marker and three scalar `short`s |
| NumPyExamples.DecodeWhitespace | tests/frameworks/test_numpy.py:94 | "(3,    4)    m8" decodes to `m8` with shape (3, 4) |
| NumPyExamples.DecodeBareString | tests/frameworks/test_numpy.py:34 | "S" decodes to `S` with shape (1,) |
| NumPyExamples.DecodeSpacedString | tests/frameworks/test_numpy.py:97 | "(3, 7)S" decodes to `S` with shape (1, 3, 7) |
| NumPyExamples.DecodeTwoStrings | tests/frameworks/test_numpy.py:122 | "90a10, (7,5)U5" decodes to `a` (10, 90) and `U` (5, 7, 5) |
| TranslatorExamples.ShortToNumPy | tests/test_translator.py:15 | "h" translates from struct to NumPy as "i2" |
| TranslatorExamples.HalfToNumPy | tests/test_translator.py:13 | "e" translates as "f2" |
| TranslatorExamples.StringToNumPy | tests/test_translator.py:14 | "5s" translates as "S5" |
| TranslatorExamples.IntsDoublesToNumPy | tests/test_translator.py:60 | "7i3d" translates as "(7,)i4,(3,)f8" |
| TranslatorExamples.StringLongLongsToNumPy | tests/test_translator.py:64 | "5s7q" translates as "S5,(7,)i8" |
| TranslatorExamples.TenBytesIdentity | tests/test_translator.py:49 | "(3,)S10" translates from NumPy to NumPy unchanged |
| TranslatorExamples.TwoTenBytesIdentity | tests/test_translator.py:65 | "(3,)S10,(3,)S10" translates from NumPy to NumPy unchanged |

## Left out

- The sizes of C types (`ctypes.sizeof`, `pydtype/frameworks/numpy.py:85-93`) are read from the host. Here they are the parameter `CTypeSizes`, and every result holds for all values of it.
- `StructFormat.get` only raises NotImplementedError. It is not part of this model, and neither are the `reference` URL attributes.
- The abstract base classes `Specifier` and `Parser` are not modelled as such. Their dispatch is a datatype `Notation` with a `match`. The compatibility shims and the package's `__init__` files are not part of this model, nor are the test configuration and the exception class hierarchy. Each exception is one `Error` case.
- `StructParser` declares no `framework` attribute (`pydtype/frameworks/struct.py:62-63`). The comprehension at `pydtype/translator.py:7` would therefore raise AttributeError when the module loads. The model registers it under "struct", which is evidently what was intended.
- Several expectations in `tests/test_translator.py` have a struct destination, for example `("?", "numpy", "struct", "?")`. The code as written cannot meet them. `StructParser.encode` unpacks each decoded pair as `s, *shape`, so `with_shape` receives the shape tuple as a count, and `character * tuple` raises TypeError. `Translator.StructEncodesOnlyMarker` and `Translator.NumPyToStructFails` prove this for every input. These expectations are therefore not proved, including `("Q", "struct", "struct", "Q")`.
- Only ASCII text is modelled. `\d`, `\w`, `\s`, `str.lower`, `str.strip` and `int()` accept more characters outside ASCII, and those cases are not captured.
- Regular expressions become deterministic scanners. They agree with Python's backtracking matcher on the cases the tables produce: every table token starts with a letter or `?`, and the post-token digits are taken greedily. No scanner is proved equal to a general regular-expression semantics.
- `int()` in `ident` is called only on pieces made of digits, commas and whitespace. `Text.ParseInt` models it on that text alone; signs, underscores and non-ASCII digits are left out.
- Shapes are sequences of natural numbers, so negative extents cannot be represented.
- NumPy.DecodeEncode: states the token and the shape of each decoded field, not that the decoded entry is the one `search` picked. The general round trip cannot give back the fields themselves: `search` may pick an entry other than the field's own specifier, and a string format without extents reads back with length 1. `NumPy.DecodeEncodeCanonical` states the exact round trip `decode(encode(fields)) == fields` for the fields it does hold for.
- Struct.Ident: its own contract states only that it never raises and yields at most one extent. The full acceptance condition is in `Struct.IdentExactly`, `Struct.IdentCounted` and `Struct.IdentOnlyCounted`.
- Types.Nearest and Types.Bounded: their own contracts state only that a success carries a candidate. The search lemmas `Types.SearchClosest`, `Types.SearchLeaky`, `Types.SearchContain` and `Types.MissingSizeFails` give the full behaviour, including the failures.
