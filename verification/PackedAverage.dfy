/** A running average packed into one 64-bit word: the sum in the upper 32 bits, the number of
    samples in the lower 32, so that both change in one atomic addition. */
module PackedAverages {
  import opened Words

  /** A drained window: the exact fraction sum / count. */
  datatype Average = Average(sum: nat, count: nat)

  /** One sample, packed. */
  function Packed(value: u32): u64 { value * TWO_32 + 1 }

  /** fetch_add wraps around. */
  function PushWord(word: u64, value: u32): u64 { (word + Packed(value)) % TWO_64 }

  /** What a drain reports of a word. */
  function ReadWord(word: u64): Option<Average> {
    var count := word % TWO_32;
    var value := word / TWO_32;
    if count > 0 then Some(Average(value, count)) else None
  }

  // ----- windows -----

  /** The word after these pushes onto an empty one. */
  function Pushed(values: seq<u32>): u64 {
    if values == [] then 0 else PushWord(Pushed(values[..|values| - 1]), values[|values| - 1])
  }

  /** The true average of a window, None if nothing was pushed. */
  function Exact(values: seq<u32>): Option<Average> {
    if values == [] then None else Some(Average(Sum(values), |values|))
  }

  lemma ModStep(a: nat, b: nat)
    ensures (a % TWO_64 + b) % TWO_64 == (a + b) % TWO_64
  {
    assert a == a / TWO_64 * TWO_64 + a % TWO_64;
  }

  /** The word is the sum and the count side by side, modulo 2^64. */
  lemma {:induction false} WordHoldsSumAndCount(values: seq<u32>)
    ensures Pushed(values) == (Sum(values) * TWO_32 + |values|) % TWO_64
  {
    if values != [] {
      var before := values[..|values| - 1];
      WordHoldsSumAndCount(before);
      ModStep(Sum(before) * TWO_32 + |before|, Packed(values[|values| - 1]));
    }
  }

  /** What each half of the word is: the lower the count modulo 2^32, the upper the sum plus what
      the count carries over, modulo 2^32. */
  lemma WordHalves(values: seq<u32>)
    ensures Pushed(values) % TWO_32 == |values| % TWO_32
    ensures Pushed(values) / TWO_32 == (Sum(values) + |values| / TWO_32) % TWO_32
  {
    WordHoldsSumAndCount(values);
    Halves(Sum(values), |values|);
  }

  lemma Halves(sum: nat, count: nat)
    ensures (sum * TWO_32 + count) % TWO_64 % TWO_32 == count % TWO_32
    ensures (sum * TWO_32 + count) % TWO_64 / TWO_32 == (sum + count / TWO_32) % TWO_32
  {
    var high, low := sum + count / TWO_32, count % TWO_32;
    var q := high / TWO_32;
    assert sum * TWO_32 + count == q * TWO_64 + (high % TWO_32 * TWO_32 + low);
  }

  /** Below 2^32 samples nothing carries: the upper half is the sum modulo 2^32. */
  lemma UpperHalf(values: seq<u32>)
    requires |values| < TWO_32
    ensures Pushed(values) / TWO_32 == Sum(values) % TWO_32
  {
    WordHalves(values);
    assert |values| / TWO_32 == 0;
  }

  /** A drain reports the true sum and count exactly when neither overflows 32 bits. */
  lemma DrainIsExact(values: seq<u32>)
    ensures ReadWord(Pushed(values)) == Exact(values) <==> Sum(values) < TWO_32 && |values| < TWO_32
  {
    WordHalves(values);
  }

  /** Below 2^32 samples, None means that nothing was pushed. */
  lemma NoneMeansEmpty(values: seq<u32>)
    requires |values| < TWO_32
    ensures ReadWord(Pushed(values)).None? <==> values == []
  {
    WordHalves(values);
  }

  // ----- the counter -----

  class AverageValueCounter {
    var word: u64
    /** The values pushed since the last drain. */
    ghost var values: seq<u32>

    ghost predicate Valid()
      reads this
    {
      word == Pushed(values)
    }

    /** The derived default. */
    constructor ()
      ensures Valid() && values == []
    {
      word := 0;
      values := [];
    }

    constructor WithValue(value: u32)
      ensures Valid() && values == [value]
    {
      word := Packed(value);
      values := [value];
      assert [value][..0] == [];
    }

    method Push(value: u32)
      requires Valid()
      modifies this
      ensures Valid() && values == old(values) + [value]
    {
      word := (word + Packed(value)) % TWO_64;
      values := values + [value];
      assert values[..|values| - 1] == old(values);
    }

    /** Drains the window: its true average exactly if neither its sum nor its count overflowed. */
    method Reset() returns (average: Option<Average>)
      requires Valid()
      modifies this
      ensures Valid() && values == []
      ensures average == ReadWord(Pushed(old(values)))
      ensures average == Exact(old(values)) <==> Sum(old(values)) < TWO_32 && |old(values)| < TWO_32
    {
      var value := word;
      word := 0;
      var count := value % TWO_32;
      value := value / TWO_32;
      if count > 0 {
        average := Some(Average(value, count));
      } else {
        average := None;
      }
      DrainIsExact(values);
      values := [];
    }
  }

  // ----- runs -----

  datatype Op = Push(value: u32) | Reset

  /** The word after a run of operations. */
  function RunWord(start: u64, ops: seq<Op>): u64 {
    if ops == [] then start else
      var before := RunWord(start, ops[..|ops| - 1]);
      match ops[|ops| - 1]
      case Push(v) => PushWord(before, v)
      case Reset => 0
  }

  /** What the drains of a run report, in order. */
  function Reports(start: u64, ops: seq<Op>): seq<Option<Average>> {
    if ops == [] then [] else
      var before := ops[..|ops| - 1];
      Reports(start, before)
        + if ops[|ops| - 1].Reset? then [ReadWord(RunWord(start, before))] else []
  }

  /** The values pushed since the last drain. */
  function Window(ops: seq<Op>): seq<u32> {
    if ops == [] then [] else
      match ops[|ops| - 1]
      case Push(v) => Window(ops[..|ops| - 1]) + [v]
      case Reset => []
  }

  /** The windows that the drains of a run close, in order. */
  function Windows(ops: seq<Op>): seq<seq<u32>> {
    if ops == [] then [] else
      Windows(ops[..|ops| - 1]) + if ops[|ops| - 1].Reset? then [Window(ops[..|ops| - 1])] else []
  }

  function PushesOf(ops: seq<Op>): seq<u32> {
    if ops == [] then [] else
      PushesOf(ops[..|ops| - 1]) + if ops[|ops| - 1].Push? then [ops[|ops| - 1].value] else []
  }

  lemma {:induction false} RunWordIsWindow(ops: seq<Op>)
    ensures RunWord(0, ops) == Pushed(Window(ops))
  {
    if ops != [] {
      RunWordIsWindow(ops[..|ops| - 1]);
      if ops[|ops| - 1].Push? {
        assert Window(ops)[..|Window(ops)| - 1] == Window(ops[..|ops| - 1]);
      }
    }
  }

  /** On every run, the i-th drain reports the i-th window: exactly so if that window's sum and
      count are below 2^32. */
  lemma {:induction false} DrainsReportWindows(ops: seq<Op>, i: nat)
    ensures |Reports(0, ops)| == |Windows(ops)|
    ensures i < |Windows(ops)| ==>
      && Reports(0, ops)[i] == ReadWord(Pushed(Windows(ops)[i]))
      && (Reports(0, ops)[i] == Exact(Windows(ops)[i])
          <==> Sum(Windows(ops)[i]) < TWO_32 && |Windows(ops)[i]| < TWO_32)
  {
    if ops != [] {
      var before := ops[..|ops| - 1];
      DrainsReportWindows(before, i);
      RunWordIsWindow(before);
      if i < |Windows(ops)| { DrainIsExact(Windows(ops)[i]); }
    }
  }

  function Flatten(windows: seq<seq<u32>>): seq<u32> {
    if windows == [] then [] else Flatten(windows[..|windows| - 1]) + windows[|windows| - 1]
  }

  /** Conservation: the closed windows and the open one are the pushes, each once, in order. */
  lemma {:induction false} WindowsPartitionPushes(ops: seq<Op>)
    ensures Flatten(Windows(ops)) + Window(ops) == PushesOf(ops)
  {
    if ops != [] {
      var before := ops[..|ops| - 1];
      WindowsPartitionPushes(before);
      if ops[|ops| - 1].Reset? {
        assert Windows(ops)[..|Windows(ops)| - 1] == Windows(before);
      } else {
        assert Windows(ops) == Windows(before);
        assert Flatten(Windows(before)) + (Window(before) + [ops[|ops| - 1].value])
            == (Flatten(Windows(before)) + Window(before)) + [ops[|ops| - 1].value];
      }
    }
  }

  /** A counter made with a value is a default counter that was pushed that value: every later
      run reports the same. */
  lemma {:induction false} WithValueIsPush(value: u32, ops: seq<Op>)
    ensures RunWord(Packed(value), ops) == RunWord(0, [Push(value)] + ops)
    ensures Reports(Packed(value), ops) == Reports(0, [Push(value)] + ops)
  {
    var all := [Push(value)] + ops;
    if ops == [] {
      assert all[..|all| - 1] == [];
      assert RunWord(0, []) == 0;
    } else {
      WithValueIsPush(value, ops[..|ops| - 1]);
      assert all[..|all| - 1] == [Push(value)] + ops[..|ops| - 1];
    }
  }
}
