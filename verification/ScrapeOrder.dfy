/** The masterchain registers. One update at a time writes shard count, then sequence number, then
    time; scrapes read the time first, and the other two only if it is set. */
module ScrapeOrder {
  import opened Words

  datatype Update = Update(shardCount: nat, seqno: u32, utime: u32)

  /** The values before any update. */
  const DEFAULTS: Update := Update(0, 0, 0)

  /** A value read, and the number of the update that wrote it; 0 for the default. */
  datatype Stamped<T> = Stamped(value: T, from: nat)

  datatype Scrape =
    | NotBegun
    | NotReady(utime: Stamped<u32>)
    | SawTime(utime: Stamped<u32>)
    | SawCount(utime: Stamped<u32>, shardCount: Stamped<nat>)
    | Complete(utime: Stamped<u32>, shardCount: Stamped<nat>, seqno: Stamped<u32>)

  datatype State = State(
    updates: seq<Update>,          // every update begun
    written: nat,                  // registers the last one has written
    shardCount: Stamped<nat>,
    seqno: Stamped<u32>,
    utime: Stamped<u32>,
    scrapes: seq<Scrape>)

  datatype Action = Begin(u: Update) | Write | Read(i: nat)

  predicate Enabled(st: State, a: Action) {
    match a
    case Begin(_) => st.updates == [] || st.written == 3
    case Write => st.updates != [] && st.written < 3
    case Read(i) => i < |st.scrapes| && (st.scrapes[i].NotBegun? || st.scrapes[i].SawTime? || st.scrapes[i].SawCount?)
  }

  function ReadNext(st: State, s: Scrape): Scrape {
    match s
    case NotBegun => if st.utime.value > 0 then SawTime(st.utime) else NotReady(st.utime)
    case SawTime(t) => SawCount(t, st.shardCount)
    case SawCount(t, c) => Complete(t, c, st.seqno)
    case _ => s
  }

  function Next(st: State, a: Action): State
    requires Enabled(st, a)
  {
    match a
    case Begin(u) => st.(updates := st.updates + [u], written := 0)
    case Write =>
      var n := |st.updates|;
      var u := st.updates[n - 1];
      if st.written == 0 then st.(shardCount := Stamped(u.shardCount, n), written := 1)
      else if st.written == 1 then st.(seqno := Stamped(u.seqno, n), written := 2)
      else st.(utime := Stamped(u.utime, n), written := 3)
    case Read(i) => st.(scrapes := st.scrapes[i := ReadNext(st, st.scrapes[i])])
  }

  function Start(scrapes: nat): State {
    State([], 0, Stamped(0, 0), Stamped(0, 0), Stamped(0, 0), seq(scrapes, _ => NotBegun))
  }

  function Source(updates: seq<Update>, from: nat): Update
    requires from <= |updates|
  {
    if from == 0 then DEFAULTS else updates[from - 1]
  }

  /** The stamps tell the truth, and no register is behind one that is written after it. */
  ghost predicate RegistersOk(st: State) {
    && st.utime.from <= st.seqno.from <= st.shardCount.from <= |st.updates|
    && st.utime.value == Source(st.updates, st.utime.from).utime
    && st.seqno.value == Source(st.updates, st.seqno.from).seqno
    && st.shardCount.value == Source(st.updates, st.shardCount.from).shardCount
    && st.written <= 3
    && (st.written == 0 ==> st.utime.from == st.seqno.from == st.shardCount.from)
    && (st.written == 1 ==> st.shardCount.from == |st.updates| && st.utime.from == st.seqno.from)
    && (st.written == 2 ==> st.shardCount.from == st.seqno.from == |st.updates|)
    && (st.written == 3 ==> st.utime.from == |st.updates|)
  }

  /** What a scrape has read is truly stamped, at or after the time it read first, which is some
      update's. */
  ghost predicate ScrapeOk(st: State, s: Scrape) {
    && (s.NotReady? ==>
          && s.utime.from <= st.utime.from && s.utime.from <= |st.updates|
          && s.utime.value == Source(st.updates, s.utime.from).utime == 0)
    && (s.SawTime? || s.SawCount? || s.Complete? ==>
          && 0 < s.utime.from <= st.utime.from && s.utime.from <= |st.updates|
          && s.utime.value == Source(st.updates, s.utime.from).utime > 0)
    && (s.SawCount? || s.Complete? ==>
          && s.utime.from <= s.shardCount.from <= |st.updates|
          && s.shardCount.value == Source(st.updates, s.shardCount.from).shardCount)
    && (s.Complete? ==>
          && s.utime.from <= s.seqno.from <= |st.updates|
          && s.seqno.value == Source(st.updates, s.seqno.from).seqno)
  }

  ghost predicate Inv(st: State) {
    RegistersOk(st) && forall i | 0 <= i < |st.scrapes| :: ScrapeOk(st, st.scrapes[i])
  }

  lemma InvStep(st: State, a: Action)
    requires Inv(st) && Enabled(st, a)
    ensures Inv(Next(st, a))
  {
    var n := Next(st, a);
    forall i | 0 <= i < |st.scrapes| ensures ScrapeOk(n, n.scrapes[i]) {
      assert ScrapeOk(st, st.scrapes[i]);
    }
  }

  ghost predicate Runs(st: State, actions: seq<Action>)
    decreases |actions|
  {
    actions == [] || (Enabled(st, actions[0]) && Runs(Next(st, actions[0]), actions[1..]))
  }

  ghost function After(st: State, actions: seq<Action>): State
    requires Runs(st, actions)
    decreases |actions|
  {
    if actions == [] then st else After(Next(st, actions[0]), actions[1..])
  }

  lemma {:induction false} InvRun(st: State, actions: seq<Action>)
    requires Inv(st) && Runs(st, actions)
    ensures Inv(After(st, actions))
    decreases |actions|
  {
    if actions != [] {
      InvStep(st, actions[0]);
      InvRun(Next(st, actions[0]), actions[1..]);
    }
  }

  /** In every interleaving, a scrape that reports the time of update i reports the sequence number
      and the shard count of updates no earlier than i; so "ready" never comes with defaults. */
  lemma ScrapeNotBehindItsTime(scrapes: nat, actions: seq<Action>, i: nat)
    requires Runs(Start(scrapes), actions)
    ensures var st := After(Start(scrapes), actions);
      i < |st.scrapes| && st.scrapes[i].Complete? ==>
        var s := st.scrapes[i];
        && 1 <= s.utime.from <= s.seqno.from <= |st.updates|
        && 1 <= s.utime.from <= s.shardCount.from <= |st.updates|
        && s.utime.value == st.updates[s.utime.from - 1].utime > 0
        && s.seqno.value == st.updates[s.seqno.from - 1].seqno
        && s.shardCount.value == st.updates[s.shardCount.from - 1].shardCount
  {
    InvRun(Start(scrapes), actions);
  }

  /** In every interleaving a scrape that has begun reports ready exactly if the time it read is
      positive, and that time is an update's, or the default. */
  lemma ReadyIffTimeSet(scrapes: nat, actions: seq<Action>, i: nat)
    requires Runs(Start(scrapes), actions)
    ensures var st := After(Start(scrapes), actions);
      i < |st.scrapes| && !st.scrapes[i].NotBegun? ==>
        var s := st.scrapes[i];
        && (!s.NotReady? <==> s.utime.value > 0)
        && s.utime.from <= |st.updates| && s.utime.value == Source(st.updates, s.utime.from).utime
  {
    InvRun(Start(scrapes), actions);
  }

  /** A scrape that no update overlaps reports the last update whole, or not ready if its time is 0. */
  lemma UndisturbedScrape(st: State, i: nat)
    requires Inv(st) && i < |st.scrapes| && st.scrapes[i].NotBegun?
    requires st.updates != [] && st.written == 3
    ensures var n, u, s1 := |st.updates|, st.updates[|st.updates| - 1], Next(st, Read(i));
      if u.utime == 0 then
        s1.scrapes[i] == NotReady(Stamped(0, n))
      else
        && Enabled(s1, Read(i)) && Enabled(Next(s1, Read(i)), Read(i))
        && Next(Next(s1, Read(i)), Read(i)).scrapes[i]
             == Complete(Stamped(u.utime, n), Stamped(u.shardCount, n), Stamped(u.seqno, n))
  {
    assert st.utime.from == st.seqno.from == st.shardCount.from == |st.updates|;
  }
}
