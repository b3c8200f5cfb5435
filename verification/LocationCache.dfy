/** The cache that moves peers with one coordinate onto distinct cells around it. */
module LocationCaches {
  import opened Words
  import opened FloatKey
  import opened SpiralPlacement

  /** A call's coordinate, as the bits of two floats. */
  datatype Call = Call(latitude: u64, longitude: u64)

  datatype Point = Point(latitude: real, longitude: real)

  /** An adjusted coordinate: the coordinate asked for, moved by whole steps. */
  datatype Placement = Placement(base: Call, offset: Cell, step: real) {
    /** Where that is, in exact arithmetic. */
    ghost function At(): Point {
      Point(Moved(Value(base.latitude), offset.x, step), Moved(Value(base.longitude), offset.y, step))
    }
  }

  /** `Value` counts in units of 2^-1074. */
  const UNIT_EXPONENT: nat := 1074

  ghost function Degrees(units: int): real {
    Pow2Positive(UNIT_EXPONENT);
    units as real / Pow2(UNIT_EXPONENT) as real
  }

  ghost function Moved(units: int, steps: int, step: real): real {
    Degrees(units) + steps as real * step
  }

  function Key(c: Call): (u64, u64) { (ConvertF64(c.latitude), ConvertF64(c.longitude)) }

  predicate AreFinite(c: Call) { IsFinite(c.latitude) && IsFinite(c.longitude) }

  predicate IsSpot(c: Call) { IsCoordinate(c.latitude) && IsCoordinate(c.longitude) }

  /** Numerically equal coordinates. */
  predicate SameSpot(c: Call, d: Call) {
    SameNumber(c.latitude, d.latitude) && SameNumber(c.longitude, d.longitude)
  }

  /** Different coordinates that share a key all the same. */
  predicate Alias(c: Call, d: Call) {
    && !SameSpot(c, d)
    && (SameNumber(c.latitude, d.latitude) || Aliased(c.latitude, d.latitude))
    && (SameNumber(c.longitude, d.longitude) || Aliased(c.longitude, d.longitude))
  }

  type Counters = map<(u64, u64), nat>

  function Counter(m: Counters, k: (u64, u64)): nat { if k in m then m[k] else 0 }

  /** The counters after a sequence of calls. */
  function CountersAfter(calls: seq<Call>): Counters {
    if calls == [] then map[] else
      var before := CountersAfter(calls[..|calls| - 1]);
      var k := Key(calls[|calls| - 1]);
      before[k := Counter(before, k) + 1]
  }

  /** The offset given to the last call of a sequence. */
  function LastOffset(calls: seq<Call>): Cell
    requires calls != []
  {
    Walk(Counter(CountersAfter(calls), Key(calls[|calls| - 1])))
  }

  /** The offset given to call number i of a sequence. */
  function OffsetOf(calls: seq<Call>, i: nat): Cell
    requires i < |calls|
  {
    LastOffset(calls[..i + 1])
  }

  class LocationCache {
    var counters: Counters
    ghost var calls: seq<Call>

    ghost predicate Valid()
      reads this
    {
      counters == CountersAfter(calls)
    }

    constructor ()
      ensures Valid() && calls == [] && counters == map[]
    {
      counters := map[];
      calls := [];
    }

    method Adjust(c: Call, step: real) returns (p: Placement)
      requires Valid()
      modifies this
      ensures Valid() && calls == old(calls) + [c]
      ensures p == Placement(c, LastOffset(calls), step)
    {
      var k := Key(c);
      var counter := (if k in counters then counters[k] else 0) + 1;
      counters := counters[k := counter];
      calls := calls + [c];
      assert calls[..|calls| - 1] == old(calls);
      var offset := Spiral(counter);
      p := Placement(c, offset, step);
    }
  }

  // ----- every sequence of calls -----

  /** How many of the calls asked for this coordinate. */
  function Visits(calls: seq<Call>, c: Call): nat {
    if calls == [] then 0 else
      Visits(calls[..|calls| - 1], c) + if SameSpot(calls[|calls| - 1], c) then 1 else 0
  }

  /** How many asked for a different one with the same key. */
  function Aliases(calls: seq<Call>, c: Call): nat {
    if calls == [] then 0 else
      Aliases(calls[..|calls| - 1], c) + if Alias(calls[|calls| - 1], c) then 1 else 0
  }

  /** The counter that the last call for this coordinate got, 0 if there was none. */
  function LastCounter(calls: seq<Call>, c: Call): nat {
    if calls == [] then 0
    else if SameSpot(calls[|calls| - 1], c) then Counter(CountersAfter(calls), Key(c))
    else LastCounter(calls[..|calls| - 1], c)
  }

  /** The offsets the calls for this coordinate were given. */
  ghost function OffsetsAt(calls: seq<Call>, c: Call): set<Cell> {
    if calls == [] then {} else
      OffsetsAt(calls[..|calls| - 1], c) + if SameSpot(calls[|calls| - 1], c) then {LastOffset(calls)} else {}
  }

  /** Keys are shared by equal coordinates and by aliases, and by no others. */
  lemma KeysShared(c: Call, d: Call)
    ensures Key(c) == Key(d) <==> SameSpot(c, d) || Alias(c, d)
  {
    KeyIsCanonical(c.latitude, d.latitude);
    KeyIsCanonical(c.longitude, d.longitude);
  }

  /** On coordinates in range there are no aliases. */
  lemma SpotsHaveNoAlias(c: Call, d: Call)
    requires IsSpot(c) && IsSpot(d)
    ensures !Alias(c, d)
  {
    CoordinatesUnaliased(c.latitude, d.latitude);
    CoordinatesUnaliased(c.longitude, d.longitude);
  }

  /** A coordinate's counter is the number of calls for it and for its aliases. */
  lemma {:induction false} CounterIsVisits(calls: seq<Call>, c: Call)
    ensures Counter(CountersAfter(calls), Key(c)) == Visits(calls, c) + Aliases(calls, c)
  {
    if calls != [] {
      CounterIsVisits(calls[..|calls| - 1], c);
      KeysShared(calls[|calls| - 1], c);
    }
  }

  lemma {:induction false} NoAliases(calls: seq<Call>, c: Call)
    ensures Aliases(calls, c) == 0 <==> forall d | d in calls :: !Alias(d, c)
  {
    if calls != [] {
      NoAliases(calls[..|calls| - 1], c);
      assert calls == calls[..|calls| - 1] + [calls[|calls| - 1]];
    }
  }

  lemma WalkMovesOn(v: nat, n: nat)
    requires v >= 1
    ensures Walk(v + n) == Walk(v) <==> n == 0
  {
    WalkInjective(v + n, v);
  }

  /** The j-th call for a coordinate gets the j-th cell exactly if no alias came before it. */
  lemma JthCallGetsJthCell(calls: seq<Call>)
    requires calls != []
    ensures Visits(calls, calls[|calls| - 1]) >= 1
    ensures LastOffset(calls) == Walk(Visits(calls, calls[|calls| - 1]))
      <==> forall d | d in calls :: !Alias(d, calls[|calls| - 1])
  {
    var c := calls[|calls| - 1];
    CounterIsVisits(calls, c);
    NoAliases(calls, c);
    WalkMovesOn(Visits(calls, c), Aliases(calls, c));
  }

  lemma {:induction false} CountersGrow(calls: seq<Call>, i: nat, k: (u64, u64))
    requires i <= |calls|
    ensures Counter(CountersAfter(calls[..i]), k) <= Counter(CountersAfter(calls), k)
  {
    if i < |calls| {
      CountersGrow(calls[..|calls| - 1], i, k);
      assert calls[..|calls| - 1][..i] == calls[..i];
    } else {
      assert calls[..i] == calls;
    }
  }

  lemma CounterBumped(calls: seq<Call>, i: nat)
    requires i < |calls|
    ensures var k := Key(calls[i]);
            Counter(CountersAfter(calls[..i + 1]), k) == Counter(CountersAfter(calls[..i]), k) + 1
  {
    assert calls[..i + 1][..i] == calls[..i];
  }

  /** Two calls for one coordinate never get the same offset, whatever calls stand between them. */
  lemma OffsetsDistinct(calls: seq<Call>, i: nat, j: nat)
    requires i < j < |calls| && SameSpot(calls[i], calls[j])
    ensures OffsetOf(calls, i) != OffsetOf(calls, j)
  {
    var k := Key(calls[i]);
    KeysShared(calls[i], calls[j]);
    CounterBumped(calls, i);
    CounterBumped(calls, j);
    CountersGrow(calls[..j], i + 1, k);
    assert calls[..j][..i + 1] == calls[..i + 1];
    WalkInjective(Counter(CountersAfter(calls[..i + 1]), k), Counter(CountersAfter(calls[..j + 1]), k));
  }

  /** A placement lies from its coordinate by the step times the offset: x of it in latitude, y in
      longitude. */
  lemma PlacedBySteps(p: Placement)
    ensures p.At().latitude - Degrees(Value(p.base.latitude)) == p.offset.x as real * p.step
    ensures p.At().longitude - Degrees(Value(p.base.longitude)) == p.offset.y as real * p.step
  {
  }

  lemma MovedApart(units: int, a: int, b: int, step: real)
    requires step != 0.0
    ensures Moved(units, a, step) == Moved(units, b, step) <==> a == b
  {
    var d := Degrees(units);
    assert (d + a as real * step) - (d + b as real * step) == (a - b) as real * step;
  }

  lemma PointsApart(p: Placement, q: Placement)
    requires AreFinite(p.base) && AreFinite(q.base) && SameSpot(p.base, q.base) && p.step == q.step != 0.0
    ensures p.At() == q.At() <==> p.offset == q.offset
  {
    MovedApart(Value(p.base.latitude), p.offset.x, q.offset.x, p.step);
    MovedApart(Value(p.base.longitude), p.offset.y, q.offset.y, p.step);
  }

  /** So co-located peers are drawn at distinct points, wherever that is. */
  lemma PlacementsDistinct(calls: seq<Call>, i: nat, j: nat, step: real)
    requires i < j < |calls| && step != 0.0
    requires AreFinite(calls[i]) && AreFinite(calls[j]) && SameSpot(calls[i], calls[j])
    ensures Placement(calls[i], OffsetOf(calls, i), step).At() != Placement(calls[j], OffsetOf(calls, j), step).At()
  {
    OffsetsDistinct(calls, i, j);
    PointsApart(Placement(calls[i], OffsetOf(calls, i), step), Placement(calls[j], OffsetOf(calls, j), step));
  }

  /** A call is answered with its own coordinate exactly if no call for it or for an alias came
      before. */
  lemma FirstCallStays(calls: seq<Call>, step: real)
    requires calls != [] && step != 0.0
    ensures var c, before := calls[|calls| - 1], calls[..|calls| - 1];
            Placement(c, LastOffset(calls), step).At()
              == Point(Degrees(Value(c.latitude)), Degrees(Value(c.longitude)))
            <==> Visits(before, c) == 0 && Aliases(before, c) == 0
  {
    var c := calls[|calls| - 1];
    CounterIsVisits(calls, c);
    WalkMovesOn(1, Counter(CountersAfter(calls), Key(c)) - 1);
    MovedApart(Value(c.latitude), LastOffset(calls).x, 0, step);
    MovedApart(Value(c.longitude), LastOffset(calls).y, 0, step);
  }

  // ----- packing -----

  lemma {:induction false} LastCounterBounds(calls: seq<Call>, c: Call)
    ensures LastCounter(calls, c) <= Counter(CountersAfter(calls), Key(c))
    ensures Visits(calls, c) <= LastCounter(calls, c)
    ensures LastCounter(calls, c) > 0 <==> Visits(calls, c) > 0
  {
    if calls != [] {
      LastCounterBounds(calls[..|calls| - 1], c);
      CounterIsVisits(calls, c);
    }
  }

  /** Each offset used has a number up to the last counter, and the last counter is used. */
  lemma {:induction false} OffsetNumbers(calls: seq<Call>, c: Call)
    ensures forall p | p in OffsetsAt(calls, c) :: 1 <= Index(p) <= LastCounter(calls, c)
    ensures LastCounter(calls, c) > 0 ==> Walk(LastCounter(calls, c)) in OffsetsAt(calls, c)
    ensures |OffsetsAt(calls, c)| == Visits(calls, c)
  {
    if calls != [] {
      var before, last := calls[..|calls| - 1], calls[|calls| - 1];
      OffsetNumbers(before, c);
      if SameSpot(last, c) {
        KeysShared(last, c);
        LastCounterBounds(before, c);
        IndexOfWalk(LastCounter(calls, c));
      }
    }
  }

  /** No alias came before a call for this coordinate. */
  predicate Undisturbed(calls: seq<Call>, c: Call) {
    forall i, j | 0 <= i < j < |calls| :: Alias(calls[i], c) ==> !SameSpot(calls[j], c)
  }

  lemma UndisturbedStep(calls: seq<Call>, c: Call)
    requires calls != []
    ensures var before, last := calls[..|calls| - 1], calls[|calls| - 1];
            Undisturbed(calls, c)
            <==> Undisturbed(before, c) && (SameSpot(last, c) ==> forall d | d in before :: !Alias(d, c))
  {
    var n := |calls| - 1;
    if d :| d in calls[..n] && Alias(d, c) && SameSpot(calls[n], c) {
      var i :| 0 <= i < n && calls[i] == d;
      assert !Undisturbed(calls, c);
    }
  }

  lemma {:induction false} LastCounterExact(calls: seq<Call>, c: Call)
    ensures LastCounter(calls, c) == Visits(calls, c) <==> Undisturbed(calls, c)
  {
    if calls != [] {
      var before := calls[..|calls| - 1];
      UndisturbedStep(calls, c);
      LastCounterExact(before, c);
      LastCounterBounds(before, c);
      CounterIsVisits(calls, c);
      NoAliases(before, c);
    }
  }

  lemma SameSizeSubset<T>(a: set<T>, b: set<T>)
    requires a <= b && |a| == |b|
    ensures a == b
  {
    assert b == a + (b - a);
  }

  /** The offsets used around a coordinate are the first cells, as many as the calls for it, exactly
      if no alias came before any of them. */
  lemma OffsetsAreThePlacedCells(calls: seq<Call>, c: Call)
    ensures OffsetsAt(calls, c) == Placed(Visits(calls, c)) <==> Undisturbed(calls, c)
  {
    var v, m := Visits(calls, c), LastCounter(calls, c);
    OffsetNumbers(calls, c);
    LastCounterBounds(calls, c);
    LastCounterExact(calls, c);
    PlacedSize(v);
    if m == v {
      forall p | p in OffsetsAt(calls, c) ensures p in Placed(v) { InPlaced(p, v); }
      SameSizeSubset(OffsetsAt(calls, c), Placed(v));
    } else {
      IndexOfWalk(m);
      InPlaced(Walk(m), v);
    }
  }

  /** Over any run the calls for a coordinate use as many cells as there are calls, and all of them
      fit the square of radius r exactly if the last counter does. */
  lemma OffsetsFit(calls: seq<Call>, c: Call, r: nat)
    ensures |OffsetsAt(calls, c)| == Visits(calls, c)
    ensures OffsetsAt(calls, c) <= Square(r) <==> LastCounter(calls, c) <= Area(r)
  {
    var m := LastCounter(calls, c);
    OffsetNumbers(calls, c);
    if m <= Area(r) {
      forall p | p in OffsetsAt(calls, c) ensures p in Square(r) {
        WalkOfIndex(p);
        WalkRadius(Index(p), r);
        InSquare(p, r);
      }
    } else {
      WalkRadius(m, r);
      InSquare(Walk(m), r);
    }
  }

  /** Optimal packing over whole runs: no other choice of as many offsets fits a square smaller than
      the least one, Ring(v) for v calls; the offsets given do fit it exactly if the last counter
      does, and so they do whenever no alias came before a call for the coordinate; and then they
      fill it exactly at v == Area(Ring(v)). */
  lemma RunsPackOptimally(calls: seq<Call>, c: Call, offsets: set<Cell>, r: nat)
    requires |offsets| == Visits(calls, c)
    ensures offsets <= Square(r) ==> Ring(Visits(calls, c)) <= r
    ensures |OffsetsAt(calls, c)| == Visits(calls, c)
    ensures OffsetsAt(calls, c) <= Square(Ring(Visits(calls, c)))
      <==> LastCounter(calls, c) <= Area(Ring(Visits(calls, c)))
    ensures Undisturbed(calls, c) ==>
      && OffsetsAt(calls, c) <= Square(Ring(Visits(calls, c)))
      && (OffsetsAt(calls, c) == Square(Ring(Visits(calls, c))) <==> Visits(calls, c) == Area(Ring(Visits(calls, c))))
  {
    var v := Visits(calls, c);
    OptimalPacking(v, offsets, r);
    OffsetsFit(calls, c, Ring(v));
    OffsetsAreThePlacedCells(calls, c);
  }

  /** Among coordinates in range nothing is disturbed. */
  lemma SpotsUndisturbed(calls: seq<Call>, c: Call)
    requires IsSpot(c) && forall d | d in calls :: IsSpot(d)
    ensures Aliases(calls, c) == 0 && Undisturbed(calls, c)
  {
    forall d | d in calls ensures !Alias(d, c) { SpotsHaveNoAlias(d, c); }
    NoAliases(calls, c);
    forall i | 0 <= i < |calls| ensures !Alias(calls[i], c) { assert calls[i] in calls; }
  }
}
