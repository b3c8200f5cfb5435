/** The exported network configuration: the newest key block wins, and a configuration that does
    not parse still moves the block number on. */
module ConfigMetrics {
  import opened Words

  /** A key block's configuration. `values` stands for the parameters copied as one; the split
      bounds are there only if workchain 0 is. */
  datatype Config<T> = Readable(values: T, split: Option<(nat, nat)>) | Broken

  datatype Shown<T> = Shown(keyBlockSeqno: u32, values: Option<T>, split: (nat, nat))

  function Nothing<T>(): Shown<T> { Shown(0, None, (0, 0)) }

  datatype Call<T> = Call(seqno: u32, config: Config<T>)

  function Updated<T>(s: Shown<T>, c: Call<T>): Shown<T> {
    if c.seqno <= s.keyBlockSeqno then s
    else match c.config
      case Broken => s.(keyBlockSeqno := c.seqno)
      case Readable(values, split) =>
        Shown(c.seqno, Some(values), if split.Some? then split.value else s.split)
  }

  class ConfigState<T> {
    var data: Option<Shown<T>>

    constructor ()
      ensures data.None?
    {
      data := None;
    }

    /** Fails exactly on a broken configuration that is newer than what is shown. */
    method UpdateConfigMetrics(keyBlockSeqno: u32, config: Config<T>) returns (ok: bool)
      modifies this
      ensures var before := if old(data).Some? then old(data).value else Nothing();
              && data == Some(Updated(before, Call(keyBlockSeqno, config)))
              && (ok <==> keyBlockSeqno <= before.keyBlockSeqno || config.Readable?)
    {
      var d := if data.Some? then data.value else Nothing();
      ok := true;
      if keyBlockSeqno > d.keyBlockSeqno {
        d := d.(keyBlockSeqno := keyBlockSeqno);
        match config {
          case Broken => ok := false;
          case Readable(values, split) =>
            if split.Some? {
              d := d.(split := split.value);
            }
            d := d.(values := Some(values));
        }
      }
      data := Some(d);
    }
  }

  /** Call i was newer than all calls before it. */
  predicate IsRecord<T>(calls: seq<Call<T>>, i: int) {
    0 <= i < |calls| && calls[i].seqno > 0 && forall j | 0 <= j < i :: calls[j].seqno < calls[i].seqno
  }

  /** What the first n calls leave. */
  function AfterFirst<T>(calls: seq<Call<T>>, n: nat): Shown<T>
    requires n <= |calls|
  {
    if n == 0 then Nothing() else Updated(AfterFirst(calls, n - 1), calls[n - 1])
  }

  lemma {:induction false} ShownIsNewest<T>(calls: seq<Call<T>>, n: nat)
    requires n <= |calls|
    ensures forall j | 0 <= j < n :: calls[j].seqno <= AfterFirst(calls, n).keyBlockSeqno
    ensures AfterFirst(calls, n).keyBlockSeqno == 0
      || exists i :: IsRecord(calls, i) && i < n && calls[i].seqno == AfterFirst(calls, n).keyBlockSeqno
  {
    if n > 0 {
      ShownIsNewest(calls, n - 1);
      if calls[n - 1].seqno > AfterFirst(calls, n - 1).keyBlockSeqno { assert IsRecord(calls, n - 1); }
    }
  }

  /** A call is taken exactly if it is newer than all before it. */
  lemma RecordIsTaken<T>(calls: seq<Call<T>>, n: nat)
    requires n < |calls|
    ensures IsRecord(calls, n) <==> calls[n].seqno > AfterFirst(calls, n).keyBlockSeqno
  {
    ShownIsNewest(calls, n);
  }

  // ----- which block each part comes from -----

  /** The parts shown. A taken block always brings its number; the values only if it can be read;
      the split bounds only if, besides, workchain 0 is there. */
  datatype Part = Number | Values | Split

  predicate Brings<T>(c: Config<T>, part: Part) {
    part.Number? || (c.Readable? && (part.Values? || c.split.Some?))
  }

  /** The block, among the first n calls, that a part shown comes from: the last record that brings
      it, or -1 if none does. */
  function Origin<T>(calls: seq<Call<T>>, n: nat, part: Part): int
    requires n <= |calls|
  {
    if n == 0 then -1
    else if IsRecord(calls, n - 1) && Brings(calls[n - 1].config, part) then n - 1
    else Origin(calls, n - 1, part)
  }

  lemma {:induction false} OriginIsLast<T>(calls: seq<Call<T>>, n: nat, part: Part)
    requires n <= |calls|
    ensures -1 <= Origin(calls, n, part) < n
    ensures Origin(calls, n, part) != -1 ==>
      IsRecord(calls, Origin(calls, n, part)) && Brings(calls[Origin(calls, n, part)].config, part)
    ensures forall i | Origin(calls, n, part) < i < n && IsRecord(calls, i) :: !Brings(calls[i].config, part)
  {
    if n > 0 { OriginIsLast(calls, n - 1, part); }
  }

  function NumberAt<T>(calls: seq<Call<T>>, i: int): u32
    requires -1 <= i < |calls|
  {
    if i == -1 then 0 else calls[i].seqno
  }

  function ValuesAt<T>(calls: seq<Call<T>>, i: int): Option<T>
    requires -1 <= i < |calls| && (i != -1 ==> Brings(calls[i].config, Values))
  {
    if i == -1 then None else Some(calls[i].config.values)
  }

  function SplitAt<T>(calls: seq<Call<T>>, i: int): (nat, nat)
    requires -1 <= i < |calls| && (i != -1 ==> Brings(calls[i].config, Split))
  {
    if i == -1 then (0, 0) else calls[i].config.split.value
  }

  /** Whatever the order of the calls, each part shown is that of its own last record: the number of
      the newest block, the values of the newest that could be read, and the split bounds of the
      newest that could be read and had workchain 0; or the defaults where there is none. */
  lemma {:induction false} ValuesAreLastReadable<T>(calls: seq<Call<T>>, n: nat)
    requires n <= |calls|
    ensures -1 <= Origin(calls, n, Number) < n
    ensures -1 <= Origin(calls, n, Values) < n
            && (Origin(calls, n, Values) != -1 ==> Brings(calls[Origin(calls, n, Values)].config, Values))
    ensures -1 <= Origin(calls, n, Split) < n
            && (Origin(calls, n, Split) != -1 ==> Brings(calls[Origin(calls, n, Split)].config, Split))
    ensures AfterFirst(calls, n).keyBlockSeqno == NumberAt(calls, Origin(calls, n, Number))
    ensures AfterFirst(calls, n).values == ValuesAt(calls, Origin(calls, n, Values))
    ensures AfterFirst(calls, n).split == SplitAt(calls, Origin(calls, n, Split))
  {
    if n > 0 {
      ValuesAreLastReadable(calls, n - 1);
      RecordIsTaken(calls, n - 1);
    }
  }

  /** The number, the values and the split bounds all come from one block exactly if the newest
      block could be read and had workchain 0; the number and the values alone, exactly if it could
      be read. (Before any block all three are defaults.) */
  lemma NumberMatchesValues<T>(calls: seq<Call<T>>, n: nat)
    requires n <= |calls| && Origin(calls, n, Number) != -1
    ensures 0 <= Origin(calls, n, Number) < n
    ensures Origin(calls, n, Values) == Origin(calls, n, Number)
      <==> calls[Origin(calls, n, Number)].config.Readable?
    ensures Origin(calls, n, Split) == Origin(calls, n, Values) == Origin(calls, n, Number)
      <==> calls[Origin(calls, n, Number)].config.Readable? && calls[Origin(calls, n, Number)].config.split.Some?
  {
    OriginIsLast(calls, n, Number);
    OriginIsLast(calls, n, Values);
    OriginIsLast(calls, n, Split);
    forall i | 0 <= i < n && IsRecord(calls, i) ensures i <= Origin(calls, n, Number) {
      assert Brings(calls[i].config, Number);
    }
  }

  /** Both ways of mixing blocks: a newer block that cannot be read, and one without workchain 0. */
  lemma BlocksMix()
    ensures AfterFirst([Call(1, Readable(10, Some((1, 2)))), Call(2, Broken)], 2) == Shown(2, Some(10), (1, 2))
    ensures AfterFirst([Call(1, Readable(10, Some((1, 2)))), Call(2, Readable(20, None))], 2)
      == Shown(2, Some(20), (1, 2))
  {
    var calls := [Call(1, Readable(10, Some((1, 2)))), Call(2, Broken)];
    assert AfterFirst(calls, 1) == Shown(1, Some(10), (1, 2));
    var calls' := [Call(1, Readable(10, Some((1, 2)))), Call(2, Readable(20, None))];
    assert AfterFirst(calls', 1) == Shown(1, Some(10), (1, 2));
  }
}
