/** Statistics of the gas used and the messages sent by the blocks of a shard between two scrapes. */
module GasWindows {
  import opened Words

  const U64_MAX: u64 := TWO_64 - 1

  /** What one block brings: its gas, its outbound messages per inbound one, and per account. */
  datatype Sample = Sample(gas: u64, outPerIn: real, outPerAccount: real)

  datatype GasWindow = GasWindow(
    samples: nat, min: u64, max: u64, total: u64, outPerIn: real, outPerAccount: real)
  {
    /** The reported average: integer division. */
    function Average(): nat
      requires samples >= 1
    {
      total / samples
    }
  }

  function SaturatingAdd(a: u64, b: u64): u64 {
    if a + b > U64_MAX then U64_MAX else a + b
  }

  function MaxReal(a: real, b: real): real { if a < b then b else a }

  function FirstOf(s: Sample): GasWindow { GasWindow(1, s.gas, s.gas, s.gas, s.outPerIn, s.outPerAccount) }

  /** One more sample. */
  function Record(w: Option<GasWindow>, s: Sample): Option<GasWindow> {
    match w
    case Some(w) =>
      Some(GasWindow(
        w.samples + 1,
        if s.gas < w.min then s.gas else w.min,
        if s.gas > w.max then s.gas else w.max,
        SaturatingAdd(w.total, s.gas),
        MaxReal(s.outPerIn, w.outPerIn),
        MaxReal(s.outPerAccount, w.outPerAccount)))
    case None => Some(FirstOf(s))
  }

  // ----- what a window holds, said from the samples -----

  function GasOf(samples: seq<Sample>): seq<u64> {
    seq(|samples|, i requires 0 <= i < |samples| => samples[i].gas)
  }

  /** The window that these samples, and no others, belong to. */
  ghost predicate Describes(w: Option<GasWindow>, samples: seq<Sample>) {
    match w
    case None => samples == []
    case Some(w) =>
      && w.samples == |samples| >= 1
      && (exists s :: s in samples && s.gas == w.min) && (forall s | s in samples :: w.min <= s.gas)
      && (exists s :: s in samples && s.gas == w.max) && (forall s | s in samples :: s.gas <= w.max)
      && w.total == (if Sum(GasOf(samples)) > U64_MAX then U64_MAX else Sum(GasOf(samples)))
      && RatiosDescribe(w, samples)
  }

  ghost predicate RatiosDescribe(w: GasWindow, samples: seq<Sample>) {
    && (exists s :: s in samples && s.outPerIn == w.outPerIn)
    && (forall s | s in samples :: s.outPerIn <= w.outPerIn)
    && (exists s :: s in samples && s.outPerAccount == w.outPerAccount)
    && (forall s | s in samples :: s.outPerAccount <= w.outPerAccount)
  }

  /** Each update keeps the window in step with its samples. */
  lemma RecordDescribes(w: Option<GasWindow>, samples: seq<Sample>, s: Sample)
    requires Describes(w, samples)
    ensures Describes(Record(w, s), samples + [s])
  {
    var more := samples + [s];
    assert GasOf(more)[..|samples|] == GasOf(samples);
    assert forall x | x in more :: x in samples || x == s;
    assert forall x | x in samples :: x in more;
    assert s in more;
    if w.None? { assert more == [s]; }
  }

  /** One sample taken out of the middle takes its gas out of the sum. */
  lemma SumWithout(samples: seq<Sample>, i: nat)
    requires i < |samples|
    ensures Sum(GasOf(samples)) == Sum(GasOf(samples[..i] + samples[i + 1..])) + samples[i].gas
  {
    assert GasOf(samples)[..i] + GasOf(samples)[i + 1..] == GasOf(samples[..i] + samples[i + 1..]);
    SumRemove(GasOf(samples), i);
  }

  lemma MultisetWithout<T>(s: seq<T>, i: nat)
    requires i < |s|
    ensures multiset(s) == multiset(s[..i] + s[i + 1..]) + multiset{s[i]}
  {
    assert s == s[..i] + [s[i]] + s[i + 1..];
  }

  lemma {:induction false} SumPermutation(a: seq<Sample>, b: seq<Sample>)
    requires multiset(a) == multiset(b)
    ensures Sum(GasOf(a)) == Sum(GasOf(b))
  {
    if a == [] {
      assert |b| == |multiset(b)| == 0;
    } else {
      assert a[0] in multiset(b);
      var i :| 0 <= i < |b| && b[i] == a[0];
      MultisetWithout(a, 0);
      MultisetWithout(b, i);
      assert multiset(a[..0] + a[1..]) == multiset(a) - multiset{a[0]};
      assert multiset(b[..i] + b[i + 1..]) == multiset(b) - multiset{a[0]};
      SumPermutation(a[..0] + a[1..], b[..i] + b[i + 1..]);
      SumWithout(a, 0);
      SumWithout(b, i);
    }
  }

  /** The order in which the samples came does not show. */
  lemma OrderIrrelevant(v: Option<GasWindow>, w: Option<GasWindow>, a: seq<Sample>, b: seq<Sample>)
    requires Describes(v, a) && Describes(w, b) && multiset(a) == multiset(b)
    ensures v == w
  {
    SumPermutation(a, b);
    assert |a| == |multiset(a)| == |multiset(b)| == |b|;
    forall s ensures s in a <==> s in b { assert s in multiset(a) <==> s in multiset(b); }
  }

  lemma TimesNext(x: nat, n: nat)
    ensures x * (n + 1) == x * n + x
  {
  }

  lemma {:induction false} SumBounds(gas: seq<u64>, lo: nat, hi: nat)
    requires forall g | g in gas :: lo <= g <= hi
    ensures lo * |gas| <= Sum(gas) <= hi * |gas|
  {
    if gas != [] {
      var before := gas[..|gas| - 1];
      assert gas[|gas| - 1] in gas;
      assert forall g | g in before :: g in gas;
      SumBounds(before, lo, hi);
      TimesNext(lo, |gas| - 1);
      TimesNext(hi, |gas| - 1);
    }
  }

  lemma DivisionBounds(total: nat, n: nat, x: nat)
    requires n >= 1
    ensures total <= x * n ==> total / n <= x
    ensures x <= total / n <==> x * n <= total
  {
    var q := total / n;
    assert q * n <= total < q * n + n;
    if x <= q { assert x * n <= q * n; }
    if x > q { assert x * n >= (q + 1) * n; }
  }

  lemma Quotient(total: nat, n: nat)
    requires n >= 1
    ensures total / n * n <= total < (total / n + 1) * n
  {
    assert (total / n + 1) * n == total / n * n + n;
  }

  /** A present window divides by at least one sample; its average is the total over the
      number of samples, rounded down. It never exceeds the maximum, and
      falls below the minimum exactly when that minimum, met by every sample, would already have
      saturated the sum. */
  lemma AverageBounds(w: Option<GasWindow>, samples: seq<Sample>)
    requires Describes(w, samples) && w.Some?
    ensures w.value.samples >= 1
    ensures w.value.Average() * w.value.samples <= w.value.total < (w.value.Average() + 1) * w.value.samples
    ensures w.value.Average() <= w.value.max
    ensures w.value.min <= w.value.Average() <==> w.value.min * |samples| <= U64_MAX
    ensures Sum(GasOf(samples)) <= U64_MAX ==> w.value.min <= w.value.Average()
  {
    var win := w.value;
    Quotient(win.total, win.samples);
    var gas := GasOf(samples);
    forall g | g in gas ensures win.min <= g <= win.max {
      var i :| 0 <= i < |gas| && gas[i] == g;
      assert samples[i] in samples;
    }
    SumBounds(gas, win.min, win.max);
    DivisionBounds(win.total, win.samples, win.max);
    DivisionBounds(win.total, win.samples, win.min);
  }
}
