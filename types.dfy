/**
 * The notation-independent core: the specifier record (`pydtype/core/specifier.py`)
 * and the registry operations `match`, `Types.search` and `Types.find`
 * (`pydtype/core/types.py`).
 *
 * A registry is an ordered table of specifiers. `Search` resolves a (kind, byte size)
 * query under a strategy; `Find` resolves a token by asking each entry's parse
 * operation in table order.
 */
module Types {
  import opened Common
  import opened Text

  /** Extents of an array field; for string-like formats the first one is the string length. */
  type Shape = seq<nat>

  /**
   * One element format of a notation: its descriptive name, the literal token, its kind
   * (absent for padding, object and void formats) and its byte size (absent when the
   * notation has no fixed width for it).
   */
  datatype Specifier = Specifier(commonName: string, token: string, kind: Option<string>, byteSize: Option<nat>)

  /** One element of a decoded specifier string: a byte-order marker or a field. */
  datatype Element = Marker(text: string) | Field(spec: Specifier, shape: Shape)

  // ---------------------------------------------------------------------------
  // Order-preserving filtering (list comprehensions and `filter`)

  function Filter(xs: seq<Specifier>, p: Specifier -> bool): (r: seq<Specifier>)
    ensures |r| <= |xs|
  {
    if xs == [] then [] else (if p(xs[0]) then [xs[0]] else []) + Filter(xs[1..], p)
  }

  /** The filter keeps exactly the elements that pass it. */
  lemma {:induction false} FilterMembers(xs: seq<Specifier>, p: Specifier -> bool)
    ensures forall x :: x in Filter(xs, p) <==> x in xs && p(x)
    decreases |xs|
  {
    if xs != [] {
      FilterMembers(xs[1..], p);
      assert xs == [xs[0]] + xs[1..];
    }
  }

  /**
   * The r-th kept element sits at some position i of the input, and every element
   * before position i that the filter keeps is among the first r kept ones.
   */
  lemma {:induction false} FilterPosition(xs: seq<Specifier>, p: Specifier -> bool, r: nat)
    requires r < |Filter(xs, p)|
    ensures exists i :: 0 <= i < |xs| && xs[i] == Filter(xs, p)[r]
                        && forall j :: 0 <= j < i && p(xs[j]) ==> xs[j] in Filter(xs, p)[..r]
  {
    var f := Filter(xs, p);
    var tail := Filter(xs[1..], p);
    var head := if p(xs[0]) then [xs[0]] else [];
    assert f == head + tail;
    if p(xs[0]) && r == 0 {
      assert xs[0] == f[0];
    } else {
      var r' := r - |head|;
      FilterPosition(xs[1..], p, r');
      var i :| 0 <= i < |xs| - 1 && xs[1..][i] == tail[r']
               && forall j :: 0 <= j < i && p(xs[1..][j]) ==> xs[1..][j] in tail[..r'];
      assert f[r] == tail[r'];
      assert f[..r] == head + tail[..r'];
      forall j | 0 <= j < i + 1 && p(xs[j]) ensures xs[j] in f[..r] {
        if j > 0 {
          assert xs[j] == xs[1..][j - 1];
        }
      }
      assert xs[i + 1] == f[r];
    }
  }

  function KindIs(kind: Option<string>): Specifier -> bool {
    (x: Specifier) => x.kind == kind
  }

  /** `[x for x in cls.types if x.kind == kind]`. */
  function SameKind(types: seq<Specifier>, kind: Option<string>): seq<Specifier> {
    Filter(types, KindIs(kind))
  }

  /** The same-kind entries are the table entries of that kind. */
  lemma SameKindMembers(types: seq<Specifier>, kind: Option<string>)
    ensures forall x :: x in SameKind(types, kind) <==> x in types && x.kind == kind
  {
    FilterMembers(types, KindIs(kind));
  }

  // ---------------------------------------------------------------------------
  // The four strategies of `match`

  predicate AllSized(c: seq<Specifier>) {
    forall j :: 0 <= j < |c| ==> c[j].byteSize.Some?
  }

  /** `abs(extractor(x) - target)`. */
  function Distance(x: Specifier, target: nat): nat
    requires x.byteSize.Some?
  {
    if x.byteSize.value <= target then target - x.byteSize.value else x.byteSize.value - target
  }

  /** The position of the first candidate whose byte size equals `target` (`next(...)`). */
  function FirstSized(c: seq<Specifier>, target: Option<nat>): (r: Option<nat>)
    ensures r.Some? ==> r.value < |c| && c[r.value].byteSize == target
                        && forall j :: 0 <= j < r.value ==> c[j].byteSize != target
    ensures r.None? ==> forall j :: 0 <= j < |c| ==> c[j].byteSize != target
  {
    if c == [] then None
    else if c[0].byteSize == target then Some(0)
    else match FirstSized(c[1..], target)
      case None => None
      case Some(k) => Some(k + 1)
  }

  /**
   * `sorted(c, key=lambda x: abs(x.byte_size - target))[0]`: the sort is stable, so this
   * is the first candidate whose distance to the target is minimal.
   */
  function FirstNearest(c: seq<Specifier>, target: nat): (r: nat)
    requires |c| > 0 && AllSized(c)
    ensures r < |c|
    ensures forall j :: 0 <= j < |c| ==> Distance(c[r], target) <= Distance(c[j], target)
    ensures forall j :: 0 <= j < r ==> Distance(c[j], target) > Distance(c[r], target)
  {
    if |c| == 1 then 0
    else
      var k := FirstNearest(c[1..], target) + 1;
      assert forall j :: 1 <= j < |c| ==> c[j] == c[1..][j - 1];
      if Distance(c[0], target) <= Distance(c[k], target) then 0 else k
  }

  function AtMostP(target: nat): Specifier -> bool {
    (x: Specifier) => x.byteSize.Some? && x.byteSize.value <= target
  }

  function AtLeastP(target: nat): Specifier -> bool {
    (x: Specifier) => x.byteSize.Some? && x.byteSize.value >= target
  }

  /**
   * The sorting step shared by `closest`, `leaky` and `contain`: an empty list has no
   * element 0 (IndexError) and a missing byte size or target cannot be subtracted (TypeError).
   */
  function Nearest(target: Option<nat>, c: seq<Specifier>): (r: Result<Option<Specifier>>)
    ensures r.Ok? ==> r.value.Some? && r.value.value in c
  {
    if c == [] then Err(NoCandidate)
    else if target.None? || !AllSized(c) then Err(SizeNotComparable)
    else Ok(Some(c[FirstNearest(c, target.value)]))
  }

  /**
   * The filtering step of `leaky` and `contain`: `filter` compares every candidate with the
   * target, which fails (TypeError) as soon as there is a candidate and a size is missing.
   */
  function Bounded(target: Option<nat>, c: seq<Specifier>, below: bool): (r: Result<Option<Specifier>>)
    ensures r.Ok? ==> r.value.Some?
  {
    if c != [] && (target.None? || !AllSized(c)) then Err(SizeNotComparable)
    else if c == [] then Err(NoCandidate)
    else Nearest(target, Filter(c, if below then AtMostP(target.value) else AtLeastP(target.value)))
  }

  /**
   * `match`: pick a candidate by byte size. An unrecognised strategy gives no
   * specifier at all (the function falls off its end and returns None).
   */
  function Match(target: Option<nat>, candidates: seq<Specifier>, strategy: string): Result<Option<Specifier>>
  {
    var strategy := Lower(strategy);
    if strategy == "exact" then
      match FirstSized(candidates, target)
      case Some(i) => Ok(Some(candidates[i]))
      case None => Err(NoExactMatch)
    else if strategy == "closest" then Nearest(target, candidates)
    else if strategy == "leaky" then Bounded(target, candidates, true)
    else if strategy == "contain" then Bounded(target, candidates, false)
    else Ok(None)
  }

  /** `Types.search`: the same-kind entries of the table, matched by byte size. */
  function Search(types: seq<Specifier>, kind: Option<string>, byteSize: Option<nat>, strategy: string): Result<Option<Specifier>>
  {
    Match(byteSize, SameKind(types, kind), strategy)
  }

  // ---------------------------------------------------------------------------
  // Properties of search

  /** Whatever `match` returns is one of the candidates. */
  lemma MatchPicksCandidate(target: Option<nat>, candidates: seq<Specifier>, strategy: string)
    ensures var r := Match(target, candidates, strategy);
            r.Ok? && r.value.Some? ==> r.value.value in candidates
  {
    if target.Some? {
      FilterMembers(candidates, AtMostP(target.value));
      FilterMembers(candidates, AtLeastP(target.value));
    }
  }

  /** Whatever `search` returns is an entry of the table of the queried kind. */
  lemma SearchKind(types: seq<Specifier>, kind: Option<string>, byteSize: Option<nat>, strategy: string)
    ensures var r := Search(types, kind, byteSize, strategy);
            r.Ok? && r.value.Some? ==> r.value.value in types && r.value.value.kind == kind
  {
    MatchPicksCandidate(byteSize, SameKind(types, kind), strategy);
    SameKindMembers(types, kind);
  }

  /** Strategy names are compared after lower-casing. */
  lemma StrategyCaseInsensitive(types: seq<Specifier>, kind: Option<string>, byteSize: Option<nat>, strategy: string)
    ensures Search(types, kind, byteSize, strategy) == Search(types, kind, byteSize, Lower(strategy))
  {
    LowerIdempotent(strategy);
  }

  /** An unrecognised strategy name yields no specifier rather than an `exact` search. */
  lemma UnknownStrategyYieldsNone(types: seq<Specifier>, kind: Option<string>, byteSize: Option<nat>, strategy: string)
    requires Lower(strategy) !in ["exact", "closest", "leaky", "contain"]
    ensures Search(types, kind, byteSize, strategy) == Ok(None)
  {
  }

  /** Table entries of a kind: `Same` means the entry also has the byte size `size`. */
  predicate Fits(x: Specifier, kind: Option<string>, size: Option<nat>) {
    x.kind == kind && x.byteSize == size
  }

  /**
   * `exact` returns the first entry, in table order, of the queried kind and byte size,
   * and fails with StopIteration exactly when there is none.
   */
  lemma {:induction false} SearchExact(types: seq<Specifier>, kind: Option<string>, size: Option<nat>, strategy: string)
    requires Lower(strategy) == "exact"
    ensures var r := Search(types, kind, size, strategy);
            && (r == Err(NoExactMatch) <==> forall j :: 0 <= j < |types| ==> !Fits(types[j], kind, size))
            && (r != Err(NoExactMatch) ==>
                  exists i :: 0 <= i < |types| && r == Ok(Some(types[i])) && Fits(types[i], kind, size)
                              && forall j :: 0 <= j < i ==> !Fits(types[j], kind, size))
  {
    SameKindMembers(types, kind);
    var c := SameKind(types, kind);
    match FirstSized(c, size)
    case None =>
      forall j | 0 <= j < |types| && types[j].kind == kind ensures types[j].byteSize != size {
        assert types[j] in c;
      }
    case Some(r) =>
      FilterPosition(types, KindIs(kind), r);
      var i :| 0 <= i < |types| && types[i] == c[r]
               && forall j :: 0 <= j < i && KindIs(kind)(types[j]) ==> types[j] in c[..r];
      assert types[i] in c;
      forall j | 0 <= j < i && types[j].kind == kind ensures types[j].byteSize != size {
        assert types[j] in c[..r];
      }
  }

  /** `exact` picks the entry named by its index when it is the first that fits. */
  lemma SearchExactAt(types: seq<Specifier>, kind: Option<string>, size: Option<nat>, strategy: string, i: nat)
    requires Lower(strategy) == "exact"
    requires i < |types| && Fits(types[i], kind, size)
    requires forall j :: 0 <= j < i ==> !Fits(types[j], kind, size)
    ensures Search(types, kind, size, strategy) == Ok(Some(types[i]))
  {
    SearchExact(types, kind, size, strategy);
  }

  /** All entries of the queried kind have a byte size. */
  predicate KindSized(types: seq<Specifier>, kind: Option<string>) {
    forall j :: 0 <= j < |types| && types[j].kind == kind ==> types[j].byteSize.Some?
  }

  lemma SameKindSized(types: seq<Specifier>, kind: Option<string>)
    requires KindSized(types, kind)
    ensures AllSized(SameKind(types, kind))
  {
    SameKindMembers(types, kind);
    var c := SameKind(types, kind);
    forall j | 0 <= j < |c| ensures c[j].byteSize.Some? {
      assert c[j] in types;
    }
  }

  /** No same-kind entries: no entry of the table has that kind. */
  lemma NoneOfKind(types: seq<Specifier>, kind: Option<string>)
    requires SameKind(types, kind) == []
    ensures forall j :: 0 <= j < |types| ==> types[j].kind != kind
  {
    SameKindMembers(types, kind);
    forall j | 0 <= j < |types| ensures types[j].kind != kind {
      assert types[j] !in SameKind(types, kind);
    }
  }

  /**
   * `closest` returns the first same-kind entry, in table order, whose byte size is nearest
   * to the target, and fails (IndexError) only when the table has no entry of that kind.
   */
  lemma {:induction false} SearchClosest(types: seq<Specifier>, kind: Option<string>, target: nat, strategy: string)
    requires Lower(strategy) == "closest" && KindSized(types, kind)
    ensures var r := Search(types, kind, Some(target), strategy);
            && (r == Err(NoCandidate) <==> forall j :: 0 <= j < |types| ==> types[j].kind != kind)
            && (r != Err(NoCandidate) ==>
                  exists i :: 0 <= i < |types| && r == Ok(Some(types[i])) && types[i].kind == kind
                              && (forall j :: 0 <= j < |types| && types[j].kind == kind ==>
                                    Distance(types[i], target) <= Distance(types[j], target))
                              && (forall j :: 0 <= j < i && types[j].kind == kind ==>
                                    Distance(types[j], target) > Distance(types[i], target)))
  {
    SearchIsNearest(types, kind, target, strategy);
    if SameKind(types, kind) == [] {
      NoneOfKind(types, kind);
    } else {
      ClosestFound(types, kind, target);
    }
  }

  /** Under `closest`, `search` is the nearest-size step applied to the same-kind entries. */
  lemma SearchIsNearest(types: seq<Specifier>, kind: Option<string>, target: nat, strategy: string)
    requires Lower(strategy) == "closest"
    ensures Search(types, kind, Some(target), strategy) == Nearest(Some(target), SameKind(types, kind))
  {
  }

  /** With some same-kind entry, the nearest-size step picks the first nearest one of the table. */
  lemma ClosestFound(types: seq<Specifier>, kind: Option<string>, target: nat)
    requires KindSized(types, kind) && SameKind(types, kind) != []
    ensures exists i :: 0 <= i < |types| && Nearest(Some(target), SameKind(types, kind)) == Ok(Some(types[i]))
                        && types[i].kind == kind
                        && (forall j :: 0 <= j < |types| && types[j].kind == kind ==>
                              Distance(types[i], target) <= Distance(types[j], target))
                        && (forall j :: 0 <= j < i && types[j].kind == kind ==>
                              Distance(types[j], target) > Distance(types[i], target))
  {
    var i := ClosestIndex(types, kind, target);
  }

  lemma ClosestIndex(types: seq<Specifier>, kind: Option<string>, target: nat) returns (i: nat)
    requires KindSized(types, kind) && SameKind(types, kind) != []
    ensures i < |types| && Nearest(Some(target), SameKind(types, kind)) == Ok(Some(types[i]))
    ensures types[i].kind == kind
    ensures forall j :: 0 <= j < |types| && types[j].kind == kind ==>
              Distance(types[i], target) <= Distance(types[j], target)
    ensures forall j :: 0 <= j < i && types[j].kind == kind ==>
              Distance(types[j], target) > Distance(types[i], target)
  {
    var c := SameKind(types, kind);
    SameKindSized(types, kind);
    var r := FirstNearest(c, target);
    assert Nearest(Some(target), c) == Ok(Some(c[r]));
    FilterPosition(types, KindIs(kind), r);
    i :| 0 <= i < |types| && types[i] == c[r]
         && forall j :: 0 <= j < i && KindIs(kind)(types[j]) ==> types[j] in c[..r];
    ClosestLift(types, kind, target, c, r, i);
  }

  lemma ClosestLift(types: seq<Specifier>, kind: Option<string>, target: nat, c: seq<Specifier>, r: nat, i: nat)
    requires KindSized(types, kind) && c == SameKind(types, kind) && AllSized(c)
    requires r < |c| && i < |types| && types[i] == c[r]
    requires forall j :: 0 <= j < |c| ==> Distance(c[r], target) <= Distance(c[j], target)
    requires forall j :: 0 <= j < r ==> Distance(c[j], target) > Distance(c[r], target)
    requires forall j :: 0 <= j < i && types[j].kind == kind ==> types[j] in c[..r]
    ensures types[i].kind == kind
    ensures forall j :: 0 <= j < |types| && types[j].kind == kind ==>
              Distance(types[i], target) <= Distance(types[j], target)
    ensures forall j :: 0 <= j < i && types[j].kind == kind ==>
              Distance(types[j], target) > Distance(types[i], target)
  {
    SameKindMembers(types, kind);
    assert types[i] in c;
    forall j | 0 <= j < |types| && types[j].kind == kind
      ensures Distance(types[i], target) <= Distance(types[j], target)
    {
      assert types[j] in c;
    }
    forall j | 0 <= j < i && types[j].kind == kind
      ensures Distance(types[j], target) > Distance(types[i], target)
    {
      assert types[j] in c[..r];
      var k :| 0 <= k < r && c[..r][k] == types[j];
      assert c[k] == types[j];
    }
  }

  /**
   * The bounded strategies through both filters: the kept entry is the first same-kind entry
   * within the bound whose distance is minimal.
   */
  lemma BoundedPick(types: seq<Specifier>, kind: Option<string>, target: nat, below: bool)
    requires KindSized(types, kind)
    ensures var p := if below then AtMostP(target) else AtLeastP(target);
            var r := Bounded(Some(target), SameKind(types, kind), below);
            && (r == Err(NoCandidate) <==> forall j :: 0 <= j < |types| && types[j].kind == kind ==> !p(types[j]))
            && (r != Err(NoCandidate) ==> exists i :: NearestWithin(types, kind, target, p, i) && r == Ok(Some(types[i])))
  {
    var p := if below then AtMostP(target) else AtLeastP(target);
    var c := SameKind(types, kind);
    SameKindSized(types, kind);
    var f := Filter(c, p);
    if f == [] {
      BoundedNone(types, kind, target, below);
    } else {
      BoundedSome(types, kind, target, below);
    }
  }

  lemma BoundedNone(types: seq<Specifier>, kind: Option<string>, target: nat, below: bool)
    requires KindSized(types, kind)
    requires Filter(SameKind(types, kind), if below then AtMostP(target) else AtLeastP(target)) == []
    ensures Bounded(Some(target), SameKind(types, kind), below) == Err(NoCandidate)
    ensures forall j :: 0 <= j < |types| && types[j].kind == kind ==>
              !(if below then AtMostP(target) else AtLeastP(target))(types[j])
  {
    SameKindMembers(types, kind);
    FilterMembers(SameKind(types, kind), if below then AtMostP(target) else AtLeastP(target));
    var p := if below then AtMostP(target) else AtLeastP(target);
    var c := SameKind(types, kind);
    SameKindSized(types, kind);
    forall j | 0 <= j < |types| && types[j].kind == kind ensures !p(types[j]) {
      assert types[j] in c;
      assert types[j] !in Filter(c, p);
    }
  }

  lemma BoundedSome(types: seq<Specifier>, kind: Option<string>, target: nat, below: bool)
    requires KindSized(types, kind)
    requires Filter(SameKind(types, kind), if below then AtMostP(target) else AtLeastP(target)) != []
    ensures exists i :: NearestWithin(types, kind, target, if below then AtMostP(target) else AtLeastP(target), i)
                        && Bounded(Some(target), SameKind(types, kind), below) == Ok(Some(types[i]))
  {
    var i := BoundedIndex(types, kind, target, below);
  }

  lemma BoundedIndex(types: seq<Specifier>, kind: Option<string>, target: nat, below: bool) returns (i: int)
    requires KindSized(types, kind)
    requires Filter(SameKind(types, kind), if below then AtMostP(target) else AtLeastP(target)) != []
    ensures NearestWithin(types, kind, target, if below then AtMostP(target) else AtLeastP(target), i)
    ensures Bounded(Some(target), SameKind(types, kind), below) == Ok(Some(types[i]))
  {
    var p := if below then AtMostP(target) else AtLeastP(target);
    var c := SameKind(types, kind);
    SameKindSized(types, kind);
    var f := Filter(c, p);
    FilterSized(c, p);
    var r := FirstNearest(f, target);
    assert Bounded(Some(target), c, below) == Ok(Some(f[r]));
    FilterPosition(c, p, r);
    var m :| 0 <= m < |c| && c[m] == f[r]
             && forall j :: 0 <= j < m && p(c[j]) ==> c[j] in f[..r];
    FilterPosition(types, KindIs(kind), m);
    i :| 0 <= i < |types| && types[i] == c[m]
             && forall j :: 0 <= j < i && KindIs(kind)(types[j]) ==> types[j] in c[..m];
    BoundedLift(types, kind, target, p, c, f, r, m, i);
  }

  /** Filtering keeps every entry's byte size known. */
  lemma FilterSized(c: seq<Specifier>, p: Specifier -> bool)
    requires AllSized(c)
    ensures AllSized(Filter(c, p))
  {
    FilterMembers(c, p);
    var f := Filter(c, p);
    forall j | 0 <= j < |f| ensures f[j].byteSize.Some? {
      assert f[j] in c;
    }
  }

  /**
   * Entry i is of the queried kind and passes the bound p; no such entry is nearer to the
   * target; every earlier such entry is strictly farther.
   */
  predicate NearestWithin(types: seq<Specifier>, kind: Option<string>, target: nat, p: Specifier -> bool, i: int)
    requires KindSized(types, kind)
  {
    && 0 <= i < |types| && types[i].kind == kind && p(types[i])
    && (forall j :: 0 <= j < |types| && types[j].kind == kind && p(types[j]) ==>
          Distance(types[i], target) <= Distance(types[j], target))
    && (forall j :: 0 <= j < i && types[j].kind == kind && p(types[j]) ==>
          Distance(types[j], target) > Distance(types[i], target))
  }

  lemma BoundedLift(types: seq<Specifier>, kind: Option<string>, target: nat, p: Specifier -> bool,
                    c: seq<Specifier>, f: seq<Specifier>, r: nat, m: nat, i: nat)
    requires KindSized(types, kind) && c == SameKind(types, kind) && AllSized(c) && f == Filter(c, p) && AllSized(f)
    requires r < |f| && m < |c| && i < |types| && c[m] == f[r] && types[i] == c[m]
    requires forall j :: 0 <= j < |f| ==> Distance(f[r], target) <= Distance(f[j], target)
    requires forall j :: 0 <= j < r ==> Distance(f[j], target) > Distance(f[r], target)
    requires forall j :: 0 <= j < m && p(c[j]) ==> c[j] in f[..r]
    requires forall j :: 0 <= j < i && types[j].kind == kind ==> types[j] in c[..m]
    ensures NearestWithin(types, kind, target, p, i)
  {
    SameKindMembers(types, kind);
    FilterMembers(c, p);
    assert f[r] in f;
    assert types[i] in c;
    forall j | 0 <= j < |types| && types[j].kind == kind && p(types[j])
      ensures Distance(types[i], target) <= Distance(types[j], target)
    {
      assert types[j] in c;
      assert types[j] in f;
    }
    forall j | 0 <= j < i && types[j].kind == kind && p(types[j])
      ensures Distance(types[j], target) > Distance(types[i], target)
    {
      assert types[j] in c[..m];
      var k :| 0 <= k < m && c[..m][k] == types[j];
      assert c[k] == types[j];
      assert types[j] in f[..r];
      var q :| 0 <= q < r && f[..r][q] == types[j];
      assert f[q] == types[j];
    }
  }

  /**
   * `leaky` returns the first same-kind entry, in table order, with the largest byte size
   * not above the target, and fails (IndexError) when no same-kind entry is that small.
   */
  lemma SearchLeaky(types: seq<Specifier>, kind: Option<string>, target: nat, strategy: string)
    requires Lower(strategy) == "leaky" && KindSized(types, kind)
    ensures var r := Search(types, kind, Some(target), strategy);
            && (r == Err(NoCandidate) <==>
                  forall j :: 0 <= j < |types| && types[j].kind == kind ==> types[j].byteSize.value > target)
            && (r != Err(NoCandidate) ==>
                  exists i :: 0 <= i < |types| && r == Ok(Some(types[i])) && types[i].kind == kind
                              && types[i].byteSize.value <= target
                              && (forall j :: 0 <= j < |types| && types[j].kind == kind && types[j].byteSize.value <= target ==>
                                    types[j].byteSize.value <= types[i].byteSize.value)
                              && (forall j :: 0 <= j < i && types[j].kind == kind ==>
                                    types[j].byteSize != types[i].byteSize))
  {
    var p := AtMostP(target);
    BoundedPick(types, kind, target, true);
    var r := Search(types, kind, Some(target), strategy);
    assert r == Bounded(Some(target), SameKind(types, kind), true);
    if r != Err(NoCandidate) {
      var i :| NearestWithin(types, kind, target, p, i) && r == Ok(Some(types[i]));
      forall j | 0 <= j < |types| && types[j].kind == kind && types[j].byteSize.value <= target
        ensures types[j].byteSize.value <= types[i].byteSize.value
      {
        assert p(types[j]);
      }
      forall j | 0 <= j < i && types[j].kind == kind ensures types[j].byteSize != types[i].byteSize {
        if p(types[j]) {
          assert Distance(types[j], target) > Distance(types[i], target);
        } else {
          assert types[j].byteSize.value > target;
        }
      }
    }
  }

  /**
   * `contain` returns the first same-kind entry, in table order, with the smallest byte size
   * not below the target, and fails (IndexError) when no same-kind entry is that large.
   */
  lemma SearchContain(types: seq<Specifier>, kind: Option<string>, target: nat, strategy: string)
    requires Lower(strategy) == "contain" && KindSized(types, kind)
    ensures var r := Search(types, kind, Some(target), strategy);
            && (r == Err(NoCandidate) <==>
                  forall j :: 0 <= j < |types| && types[j].kind == kind ==> types[j].byteSize.value < target)
            && (r != Err(NoCandidate) ==>
                  exists i :: 0 <= i < |types| && r == Ok(Some(types[i])) && types[i].kind == kind
                              && types[i].byteSize.value >= target
                              && (forall j :: 0 <= j < |types| && types[j].kind == kind && types[j].byteSize.value >= target ==>
                                    types[j].byteSize.value >= types[i].byteSize.value)
                              && (forall j :: 0 <= j < i && types[j].kind == kind ==>
                                    types[j].byteSize != types[i].byteSize))
  {
    var p := AtLeastP(target);
    BoundedPick(types, kind, target, false);
    var r := Search(types, kind, Some(target), strategy);
    assert r == Bounded(Some(target), SameKind(types, kind), false);
    if r != Err(NoCandidate) {
      var i :| NearestWithin(types, kind, target, p, i) && r == Ok(Some(types[i]));
      forall j | 0 <= j < |types| && types[j].kind == kind && types[j].byteSize.value >= target
        ensures types[j].byteSize.value >= types[i].byteSize.value
      {
        assert p(types[j]);
      }
      forall j | 0 <= j < i && types[j].kind == kind ensures types[j].byteSize != types[i].byteSize {
        if p(types[j]) {
          assert Distance(types[j], target) > Distance(types[i], target);
        } else {
          assert types[j].byteSize.value < target;
        }
      }
    }
  }

  /**
   * When some same-kind entry has exactly the target size, all four strategies return the
   * same entry: the first exact one. (The other three need every same-kind size to be known.)
   */
  lemma StrategiesAgreeOnExact(types: seq<Specifier>, kind: Option<string>, target: nat, i: nat)
    requires KindSized(types, kind)
    requires i < |types| && Fits(types[i], kind, Some(target))
    requires forall j :: 0 <= j < i ==> !Fits(types[j], kind, Some(target))
    ensures Search(types, kind, Some(target), "exact") == Ok(Some(types[i]))
    ensures Search(types, kind, Some(target), "closest") == Ok(Some(types[i]))
    ensures Search(types, kind, Some(target), "leaky") == Ok(Some(types[i]))
    ensures Search(types, kind, Some(target), "contain") == Ok(Some(types[i]))
  {
    StrategyNames();
    ExactAgrees(types, kind, target, i, "exact");
    ClosestAgrees(types, kind, target, i, "closest");
    LeakyAgrees(types, kind, target, i, "leaky");
    ContainAgrees(types, kind, target, i, "contain");
  }

  /** The four strategy names are already lower-case. */
  lemma StrategyNames()
    ensures Lower("exact") == "exact" && Lower("closest") == "closest"
    ensures Lower("leaky") == "leaky" && Lower("contain") == "contain"
  {
    assert Lower("exact") == "exact";
    assert Lower("closest") == "closest";
    assert Lower("leaky") == "leaky";
    assert Lower("contain") == "contain";
  }

  lemma ExactAgrees(types: seq<Specifier>, kind: Option<string>, target: nat, i: nat, strategy: string)
    requires Lower(strategy) == "exact"
    requires i < |types| && Fits(types[i], kind, Some(target))
    requires forall j :: 0 <= j < i ==> !Fits(types[j], kind, Some(target))
    ensures Search(types, kind, Some(target), strategy) == Ok(Some(types[i]))
  {
    SearchExact(types, kind, Some(target), strategy);
    var e :| 0 <= e < |types| && Search(types, kind, Some(target), strategy) == Ok(Some(types[e]))
             && Fits(types[e], kind, Some(target)) && forall j :: 0 <= j < e ==> !Fits(types[j], kind, Some(target));
    assert e == i;
  }

  lemma ClosestAgrees(types: seq<Specifier>, kind: Option<string>, target: nat, i: nat, strategy: string)
    requires Lower(strategy) == "closest"
    requires KindSized(types, kind)
    requires i < |types| && Fits(types[i], kind, Some(target))
    requires forall j :: 0 <= j < i ==> !Fits(types[j], kind, Some(target))
    ensures Search(types, kind, Some(target), strategy) == Ok(Some(types[i]))
  {
    SearchClosest(types, kind, target, strategy);
    var a :| 0 <= a < |types| && Search(types, kind, Some(target), strategy) == Ok(Some(types[a])) && types[a].kind == kind
             && (forall j :: 0 <= j < |types| && types[j].kind == kind ==> Distance(types[a], target) <= Distance(types[j], target))
             && (forall j :: 0 <= j < a && types[j].kind == kind ==> Distance(types[j], target) > Distance(types[a], target));
    NearestIsFirstExact(types, kind, target, i, a);
  }

  /** The first nearest entry is the first exact one when an exact one exists. */
  lemma NearestIsFirstExact(types: seq<Specifier>, kind: Option<string>, target: nat, i: nat, a: nat)
    requires KindSized(types, kind)
    requires i < |types| && Fits(types[i], kind, Some(target))
    requires forall j :: 0 <= j < i ==> !Fits(types[j], kind, Some(target))
    requires a < |types| && types[a].kind == kind
    requires forall j :: 0 <= j < |types| && types[j].kind == kind ==> Distance(types[a], target) <= Distance(types[j], target)
    requires forall j :: 0 <= j < a && types[j].kind == kind ==> Distance(types[j], target) > Distance(types[a], target)
    ensures a == i
  {
    assert Distance(types[a], target) <= Distance(types[i], target);
  }

  /** An entry of exactly the target size that no earlier same-size entry precedes is the first exact one. */
  lemma FirstOfSizeIsFirstExact(types: seq<Specifier>, kind: Option<string>, target: nat, i: nat, b: nat)
    requires i < |types| && Fits(types[i], kind, Some(target))
    requires forall j :: 0 <= j < i ==> !Fits(types[j], kind, Some(target))
    requires b < |types| && Fits(types[b], kind, Some(target))
    requires forall j :: 0 <= j < b && types[j].kind == kind ==> types[j].byteSize != types[b].byteSize
    ensures b == i
  {
  }

  lemma LeakyAgrees(types: seq<Specifier>, kind: Option<string>, target: nat, i: nat, strategy: string)
    requires Lower(strategy) == "leaky"
    requires KindSized(types, kind)
    requires i < |types| && Fits(types[i], kind, Some(target))
    requires forall j :: 0 <= j < i ==> !Fits(types[j], kind, Some(target))
    ensures Search(types, kind, Some(target), strategy) == Ok(Some(types[i]))
  {
    SearchLeaky(types, kind, target, strategy);
    var b :| 0 <= b < |types| && Search(types, kind, Some(target), strategy) == Ok(Some(types[b])) && types[b].kind == kind
             && types[b].byteSize.value <= target
             && (forall j :: 0 <= j < |types| && types[j].kind == kind && types[j].byteSize.value <= target ==>
                   types[j].byteSize.value <= types[b].byteSize.value)
             && (forall j :: 0 <= j < b && types[j].kind == kind ==> types[j].byteSize != types[b].byteSize);
    LargestBelowIsFirstExact(types, kind, target, i, b);
  }

  /** The first largest same-kind entry not above the target is the first exact one when an exact one exists. */
  lemma LargestBelowIsFirstExact(types: seq<Specifier>, kind: Option<string>, target: nat, i: nat, b: nat)
    requires KindSized(types, kind)
    requires i < |types| && Fits(types[i], kind, Some(target))
    requires forall j :: 0 <= j < i ==> !Fits(types[j], kind, Some(target))
    requires b < |types| && types[b].kind == kind && types[b].byteSize.value <= target
    requires forall j :: 0 <= j < |types| && types[j].kind == kind && types[j].byteSize.value <= target ==>
               types[j].byteSize.value <= types[b].byteSize.value
    requires forall j :: 0 <= j < b && types[j].kind == kind ==> types[j].byteSize != types[b].byteSize
    ensures b == i
  {
    assert types[i].byteSize.value <= types[b].byteSize.value;
    FirstOfSizeIsFirstExact(types, kind, target, i, b);
  }

  lemma ContainAgrees(types: seq<Specifier>, kind: Option<string>, target: nat, i: nat, strategy: string)
    requires Lower(strategy) == "contain"
    requires KindSized(types, kind)
    requires i < |types| && Fits(types[i], kind, Some(target))
    requires forall j :: 0 <= j < i ==> !Fits(types[j], kind, Some(target))
    ensures Search(types, kind, Some(target), strategy) == Ok(Some(types[i]))
  {
    SearchContain(types, kind, target, strategy);
    var d :| 0 <= d < |types| && Search(types, kind, Some(target), strategy) == Ok(Some(types[d])) && types[d].kind == kind
             && types[d].byteSize.value >= target
             && (forall j :: 0 <= j < |types| && types[j].kind == kind && types[j].byteSize.value >= target ==>
                   types[j].byteSize.value >= types[d].byteSize.value)
             && (forall j :: 0 <= j < d && types[j].kind == kind ==> types[j].byteSize != types[d].byteSize);
    SmallestAboveIsFirstExact(types, kind, target, i, d);
  }

  /** The first smallest same-kind entry not below the target is the first exact one when an exact one exists. */
  lemma SmallestAboveIsFirstExact(types: seq<Specifier>, kind: Option<string>, target: nat, i: nat, d: nat)
    requires KindSized(types, kind)
    requires i < |types| && Fits(types[i], kind, Some(target))
    requires forall j :: 0 <= j < i ==> !Fits(types[j], kind, Some(target))
    requires d < |types| && types[d].kind == kind && types[d].byteSize.value >= target
    requires forall j :: 0 <= j < |types| && types[j].kind == kind && types[j].byteSize.value >= target ==>
               types[j].byteSize.value >= types[d].byteSize.value
    requires forall j :: 0 <= j < d && types[j].kind == kind ==> types[j].byteSize != types[d].byteSize
    ensures d == i
  {
    assert types[i].byteSize.value >= types[d].byteSize.value;
    FirstOfSizeIsFirstExact(types, kind, target, i, d);
  }

  /**
   * Outside `exact`, a same-kind entry without a byte size (or a query without one) makes the
   * search fail with TypeError, and only an empty candidate list gives IndexError first.
   */
  lemma MissingSizeFails(types: seq<Specifier>, kind: Option<string>, byteSize: Option<nat>, strategy: string)
    requires Lower(strategy) in ["closest", "leaky", "contain"]
    requires byteSize.None? || !KindSized(types, kind)
    ensures var r := Search(types, kind, byteSize, strategy);
            r == if SameKind(types, kind) == [] then Err(NoCandidate) else Err(SizeNotComparable)
  {
    SameKindMembers(types, kind);
    var c := SameKind(types, kind);
    if byteSize.Some? {
      var j :| 0 <= j < |types| && types[j].kind == kind && types[j].byteSize.None?;
      assert types[j] in c;
      var k :| 0 <= k < |c| && c[k] == types[j];
    }
  }

  /** An entry of the queried kind without a byte size makes every strategy but `exact` fail with TypeError. */
  lemma UnsizedEntryFails(types: seq<Specifier>, kind: Option<string>, byteSize: Option<nat>, strategy: string, j: nat)
    requires Lower(strategy) in ["closest", "leaky", "contain"]
    requires j < |types| && types[j].kind == kind && types[j].byteSize.None?
    ensures Search(types, kind, byteSize, strategy) == Err(SizeNotComparable)
  {
    SameKindMembers(types, kind);
    assert types[j] in SameKind(types, kind);
    MissingSizeFails(types, kind, byteSize, strategy);
  }

  // ---------------------------------------------------------------------------
  // Find

  /** The position of the first table entry with the given token. */
  function FirstToken(types: seq<Specifier>, token: string): (r: Option<nat>)
    ensures r.Some? ==> r.value < |types| && types[r.value].token == token
                        && forall j :: 0 <= j < r.value ==> types[j].token != token
    ensures r.None? ==> forall j :: 0 <= j < |types| ==> types[j].token != token
  {
    FirstTokenFrom(types, token, 0)
  }

  function FirstTokenFrom(types: seq<Specifier>, token: string, from: nat): (r: Option<nat>)
    requires from <= |types|
    ensures r.Some? ==> from <= r.value < |types| && types[r.value].token == token
                        && forall j :: from <= j < r.value ==> types[j].token != token
    ensures r.None? ==> forall j :: from <= j < |types| ==> types[j].token != token
    decreases |types| - from
  {
    if from == |types| then None
    else if types[from].token == token then Some(from)
    else FirstTokenFrom(types, token, from + 1)
  }

  /** The first entry with a token, named by its index. */
  lemma FirstTokenAt(types: seq<Specifier>, token: string, i: nat)
    requires i < |types| && types[i].token == token
    requires forall j :: 0 <= j < i ==> types[j].token != token
    ensures FirstToken(types, token) == Some(i)
  {
  }

  /** A notation's parse operation `Specifier.ident`: no match, a shape, or a failure of `int()`. */
  type Ident = (Specifier, string) -> Result<Option<Shape>>

  /** `Types.find`: the first entry whose parse operation accepts the token, with that shape. */
  function Find(types: seq<Specifier>, spec: string, ident: Ident): Result<(Specifier, Shape)>
  {
    FindFrom(types, spec, ident, 0)
  }

  function FindFrom(types: seq<Specifier>, spec: string, ident: Ident, from: nat): (r: Result<(Specifier, Shape)>)
    requires from <= |types|
    ensures r.Ok? ==> exists i :: from <= i < |types| && r.value.0 == types[i]
                                  && ident(types[i], spec) == Ok(Some(r.value.1))
                                  && forall j :: from <= j < i ==> ident(types[j], spec) == Ok(None)
    ensures r.Err? ==> || (r.error == UnsupportedSpecifier(spec)
                           && forall j :: from <= j < |types| ==> ident(types[j], spec) == Ok(None))
                       || exists i :: from <= i < |types| && ident(types[i], spec) == Err(r.error)
                                      && forall j :: from <= j < i ==> ident(types[j], spec) == Ok(None)
    decreases |types| - from
  {
    if from == |types| then Err(UnsupportedSpecifier(spec))
    else match ident(types[from], spec)
      case Err(e) => Err(e)
      case Ok(Some(shape)) => Ok((types[from], shape))
      case Ok(None) => FindFrom(types, spec, ident, from + 1)
  }

  /** `find` is decided by the first entry whose parse operation does not decline the token. */
  lemma {:induction false} FindFirst(types: seq<Specifier>, spec: string, ident: Ident, i: nat)
    requires i < |types| && ident(types[i], spec) != Ok(None)
    requires forall j :: 0 <= j < i ==> ident(types[j], spec) == Ok(None)
    ensures Find(types, spec, ident) == match ident(types[i], spec)
                                        case Ok(shape) => Ok((types[i], shape.value))
                                        case Err(e) => Err(e)
  {
    FindSkip(types, spec, ident, 0, i);
  }

  lemma {:induction false} FindSkip(types: seq<Specifier>, spec: string, ident: Ident, from: nat, i: nat)
    requires from <= i < |types| && ident(types[i], spec) != Ok(None)
    requires forall j :: from <= j < i ==> ident(types[j], spec) == Ok(None)
    ensures FindFrom(types, spec, ident, from) == match ident(types[i], spec)
                                                  case Ok(shape) => Ok((types[i], shape.value))
                                                  case Err(e) => Err(e)
    decreases i - from
  {
    if from < i {
      FindSkip(types, spec, ident, from + 1, i);
    }
  }

  /**
   * `[cls.find(s) for s in split]`: every token resolved, in order, the first failure
   * propagated.
   */
  function FindAll(types: seq<Specifier>, tokens: seq<string>, ident: Ident): (r: Result<seq<Element>>)
    ensures r.Ok? ==> |r.value| == |tokens|
                      && forall i :: 0 <= i < |tokens| ==>
                           r.value[i].Field? && Find(types, tokens[i], ident) == Ok((r.value[i].spec, r.value[i].shape))
    ensures r.Err? ==> exists i :: 0 <= i < |tokens| && Find(types, tokens[i], ident) == Err(r.error)
                                   && forall j :: 0 <= j < i ==> Find(types, tokens[j], ident).Ok?
  {
    if tokens == [] then Ok([])
    else
      var head :- Find(types, tokens[0], ident);
      var tail := FindAll(types, tokens[1..], ident);
      if tail.Err? then
        FindAllFailure(types, tokens, ident, tail.error);
        Err(tail.error)
      else
        Ok([Field(head.0, head.1)] + tail.value)
  }

  lemma FindAllFailure(types: seq<Specifier>, tokens: seq<string>, ident: Ident, e: Error)
    requires |tokens| > 0 && Find(types, tokens[0], ident).Ok?
    requires exists i :: 0 <= i < |tokens| - 1 && Find(types, tokens[1..][i], ident) == Err(e)
                         && forall j :: 0 <= j < i ==> Find(types, tokens[1..][j], ident).Ok?
    ensures exists i :: 0 <= i < |tokens| && Find(types, tokens[i], ident) == Err(e)
                        && forall j :: 0 <= j < i ==> Find(types, tokens[j], ident).Ok?
  {
    var i :| 0 <= i < |tokens| - 1 && Find(types, tokens[1..][i], ident) == Err(e)
             && forall j :: 0 <= j < i ==> Find(types, tokens[1..][j], ident).Ok?;
    forall j | 0 < j < i + 1 ensures Find(types, tokens[j], ident).Ok? {
      assert tokens[j] == tokens[1..][j - 1];
    }
    assert tokens[i + 1] == tokens[1..][i];
  }
}
