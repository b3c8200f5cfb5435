/** Blocks counted by the software version of their collator, and the scrape that drains the
    counts. First one thread's view, then any number of threads, step by atomic step: a thread
    probes under the read lock, and on a miss drops it, takes the write lock and looks again. */
module SoftwareVersions {
  import opened Words
  import opened RwLocks

  type Counts = map<u32, u32>

  function CountOf(c: Counts, v: u32): u32 { if v in c then c[v] else 0 }

  /** fetch_add of one, or the insertion of a counter at one. */
  function Bumped(c: Counts, v: u32): Counts { c[v := (CountOf(c, v) + 1) % TWO_32] }

  /** Calls made for a version. */
  function CallsFor(calls: seq<u32>, v: u32): nat {
    if calls == [] then 0 else
      CallsFor(calls[..|calls| - 1], v) + if calls[|calls| - 1] == v then 1 else 0
  }

  /** Every count is the number of these calls for its version, modulo 2^32, and every version
      called is in the map. */
  ghost predicate CountsCalls(c: Counts, calls: seq<u32>) {
    && (forall v: u32 :: CountOf(c, v) == CallsFor(calls, v) % TWO_32)
    && (forall v | v in calls :: v in c)
  }

  lemma BumpCounts(c: Counts, calls: seq<u32>, v: u32)
    requires CountsCalls(c, calls)
    ensures CountsCalls(Bumped(c, v), calls + [v])
  {
    forall u: u32 ensures CountOf(Bumped(c, v), u) == CallsFor(calls + [v], u) % TWO_32 {
      assert (calls + [v])[..|calls|] == calls;
      AddMod(CallsFor(calls, v), 1);
    }
  }

  class MetricsState {
    var mcSoftwareVersions: Counts
    var scSoftwareVersions: Counts
    /** The calls for the masterchain and for shards since their counts were last drained. */
    ghost var mcCalls: seq<u32>
    ghost var scCalls: seq<u32>

    ghost predicate Valid()
      reads this
    {
      CountsCalls(mcSoftwareVersions, mcCalls) && CountsCalls(scSoftwareVersions, scCalls)
    }

    constructor ()
      ensures Valid() && mcCalls == [] && scCalls == []
      ensures mcSoftwareVersions == map[] && scSoftwareVersions == map[]
    {
      mcSoftwareVersions := map[];
      scSoftwareVersions := map[];
      mcCalls := [];
      scCalls := [];
    }

    method HandleSoftwareVersion(isMasterchain: bool, version: u32)
      requires Valid()
      modifies this
      ensures Valid()
      ensures mcCalls == old(mcCalls) + if isMasterchain then [version] else []
      ensures scCalls == old(scCalls) + if isMasterchain then [] else [version]
      ensures mcSoftwareVersions ==
        if isMasterchain then Bumped(old(mcSoftwareVersions), version) else old(mcSoftwareVersions)
      ensures scSoftwareVersions ==
        if isMasterchain then old(scSoftwareVersions) else Bumped(old(scSoftwareVersions), version)
    {
      var versions := if isMasterchain then mcSoftwareVersions else scSoftwareVersions;
      BumpCounts(versions, if isMasterchain then mcCalls else scCalls, version);
      if version in versions {
        versions := versions[version := (versions[version] + 1) % TWO_32];
      } else {
        versions := versions[version := 1];
      }
      if isMasterchain {
        mcSoftwareVersions := versions;
        mcCalls := mcCalls + [version];
      } else {
        scSoftwareVersions := versions;
        scCalls := scCalls + [version];
      }
    }

    /** The scrape of one map: reports the counts that are not zero, and zeroes all. */
    method DrainMasterchain() returns (report: Counts)
      requires Valid()
      modifies this`mcSoftwareVersions, this`mcCalls
      ensures Valid() && mcCalls == []
      ensures forall v: u32 :: CountOf(report, v) == CallsFor(old(mcCalls), v) % TWO_32
      ensures mcSoftwareVersions == map v | v in old(mcSoftwareVersions) :: 0
      ensures report ==
        map v | v in old(mcSoftwareVersions) && old(mcSoftwareVersions)[v] > 0 :: old(mcSoftwareVersions)[v]
    {
      report := map[];
      var rest := mcSoftwareVersions.Keys;
      while rest != {}
        invariant rest <= mcSoftwareVersions.Keys == old(mcSoftwareVersions).Keys
        invariant forall v | v in mcSoftwareVersions ::
          mcSoftwareVersions[v] == if v in rest then old(mcSoftwareVersions)[v] else 0
        invariant report == map v | v in old(mcSoftwareVersions) && v !in rest && old(mcSoftwareVersions)[v] > 0 ::
          old(mcSoftwareVersions)[v]
      {
        var v :| v in rest;
        rest := rest - {v};
        var count := mcSoftwareVersions[v];
        mcSoftwareVersions := mcSoftwareVersions[v := 0];
        if count > 0 {
          report := report[v := count];
        }
      }
      assert forall v: u32 :: CountOf(report, v) == CountOf(old(mcSoftwareVersions), v);
      mcCalls := [];
    }
  }

  // ----- any number of threads -----

  datatype Pc =
    | Idle
    | WantRead(v: u32)
    | Probing(v: u32)          // read lock held, before the lookup
    | Found(v: u32)            // read lock held, a reference to the counter in hand
    | WantWrite(v: u32)        // missed, the read lock dropped
    | Entering(v: u32)         // write lock held, before the lookup
    | WantScrape
    | Sweeping(todo: set<u32>, done: set<u32>) // read lock held; counters not yet drained, and drained

  datatype State = State(
    counts: Counts,
    lock: Lock,
    threads: seq<Pc>,
    calls: seq<u32>,             // every call begun
    drained: seq<(u32, u32)>)    // every count swapped out, with its version

  datatype Action = Begin(v: u32) | BeginScrape | Proceed | Swap(v: u32) | EndScrape

  function HoldOf(pc: Pc): Hold {
    match pc
    case Probing(_) => Read
    case Found(_) => Read
    case Sweeping(_, _) => Read
    case Entering(_) => Write
    case _ => No
  }

  predicate Enabled(st: State, t: nat, a: Action) {
    t < |st.threads| &&
    match a
    case Begin(_) => st.threads[t].Idle?
    case BeginScrape => st.threads[t].Idle?
    case Swap(v) => st.threads[t].Sweeping? && v in st.threads[t].todo
    case EndScrape => st.threads[t].Sweeping? && st.threads[t].todo == {}
    case Proceed =>
      match st.threads[t]
      case WantRead(_) => Grants(st.lock, No, Read)
      case WantScrape => Grants(st.lock, No, Read)
      case WantWrite(_) => Grants(st.lock, No, Write)
      case Probing(_) => true
      case Found(_) => true
      case Entering(_) => true
      case _ => false
  }

  function Goto(st: State, t: nat, pc: Pc): State
    requires t < |st.threads|
  {
    st.(threads := st.threads[t := pc], lock := Move(st.lock, t, HoldOf(st.threads[t]), HoldOf(pc)))
  }

  function Next(st: State, t: nat, a: Action): State
    requires Enabled(st, t, a)
  {
    match a
    case Begin(v) => Goto(st, t, WantRead(v)).(calls := st.calls + [v])
    case BeginScrape => Goto(st, t, WantScrape)
    case Swap(v) =>
      Goto(st, t, Sweeping(st.threads[t].todo - {v}, st.threads[t].done + {v})).(
        drained := st.drained + [(v, CountOf(st.counts, v))],
        counts := if v in st.counts then st.counts[v := 0] else st.counts)
    case EndScrape => Goto(st, t, Idle)
    case Proceed =>
      match st.threads[t]
      case WantRead(v) => Goto(st, t, Probing(v))
      case Probing(v) => Goto(st, t, if v in st.counts then Found(v) else WantWrite(v))
      case Found(v) =>
        // through the reference: without the entry there would be nothing to add to
        Goto(st, t, Idle).(counts := if v in st.counts then Bumped(st.counts, v) else st.counts)
      case WantWrite(v) => Goto(st, t, Entering(v))
      case Entering(v) =>
        Goto(st, t, Idle).(counts := if v in st.counts then Bumped(st.counts, v) else st.counts[v := 1])
      case WantScrape => Goto(st, t, Sweeping(st.counts.Keys, {}))
      case _ => st
  }

  function Start(threads: nat): State {
    State(map[], FREE, seq(threads, _ => Idle), [], [])
  }

  // ----- the law -----

  /** What the scrapes took out of a version's counter. */
  function DrainedFor(drained: seq<(u32, u32)>, v: u32): nat {
    if drained == [] then 0 else
      var last := drained[|drained| - 1];
      DrainedFor(drained[..|drained| - 1], v) + if last.0 == v then last.1 else 0
  }

  function Pending(pc: Pc, v: u32): nat {
    match pc
    case WantRead(u) => if u == v then 1 else 0
    case Probing(u) => if u == v then 1 else 0
    case Found(u) => if u == v then 1 else 0
    case WantWrite(u) => if u == v then 1 else 0
    case Entering(u) => if u == v then 1 else 0
    case _ => 0
  }

  function Owed(threads: seq<Pc>, v: u32): seq<nat> {
    seq(|threads|, i requires 0 <= i < |threads| => Pending(threads[i], v))
  }

  /** Threads that have begun a call for a version and not yet counted it. */
  function Outstanding(threads: seq<Pc>, v: u32): nat { Sum(Owed(threads, v)) }

  /** Calls are drained, counted or under way, but for whole wraps of the 32-bit counter. */
  predicate Balanced(calls: nat, accounted: nat) {
    calls >= accounted && (calls - accounted) % TWO_32 == 0
  }

  function Accounted(st: State, v: u32): nat {
    DrainedFor(st.drained, v) + CountOf(st.counts, v) + Outstanding(st.threads, v)
  }

  function Holds(threads: seq<Pc>): seq<Hold> {
    seq(|threads|, i requires 0 <= i < |threads| => HoldOf(threads[i]))
  }

  /** A sweep has drained each counter in the map, or will. */
  ghost predicate SweepsOk(st: State) {
    forall i | 0 <= i < |st.threads| && st.threads[i].Sweeping? ::
      st.threads[i].todo + st.threads[i].done == st.counts.Keys
  }

  ghost predicate Inv(st: State) {
    && SweepsOk(st)
    && LockOk(st.lock, Holds(st.threads))
    && (forall i | 0 <= i < |st.threads| && st.threads[i].Found? :: st.threads[i].v in st.counts)
    && (forall v: u32 :: Balanced(CallsFor(st.calls, v), Accounted(st, v)))
  }

  lemma LockStep(st: State, t: nat, a: Action)
    requires LockOk(st.lock, Holds(st.threads)) && Enabled(st, t, a)
    ensures LockOk(Next(st, t, a).lock, Holds(Next(st, t, a).threads))
  {
    var n := Next(st, t, a);
    var now := HoldOf(n.threads[t]);
    MoveKeepsLock(st.lock, Holds(st.threads), t, now);
    assert n.threads == st.threads[t := n.threads[t]];
    assert Holds(n.threads) == Holds(st.threads)[t := now];
    assert n.lock == Move(st.lock, t, HoldOf(st.threads[t]), now);
  }

  /** A counter in the map stays there, and a racing insert never replaces it: a step leaves an
      existing count as it is, adds one to it, or drains it. */
  lemma CounterNeverReplaced(st: State, t: nat, a: Action, v: u32)
    requires Enabled(st, t, a) && v in st.counts
    ensures v in Next(st, t, a).counts
    ensures var c := Next(st, t, a).counts[v];
            || c == st.counts[v]
            || (c == (st.counts[v] + 1) % TWO_32 && Pending(st.threads[t], v) == 1)
            || (c == 0 && a == Swap(v))
  {
  }

  predicate OwnBalanced(st: State, t: nat, v: u32, others: nat)
    requires t < |st.threads|
  {
    Balanced(CallsFor(st.calls, v),
             DrainedFor(st.drained, v) + CountOf(st.counts, v) + others + Pending(st.threads[t], v))
  }

  lemma BeginBalance(st: State, t: nat, u: u32, v: u32, others: nat)
    requires Enabled(st, t, Begin(u)) && OwnBalanced(st, t, v, others)
    ensures OwnBalanced(Next(st, t, Begin(u)), t, v, others)
  {
    assert Next(st, t, Begin(u)).calls[..|st.calls|] == st.calls;
  }

  lemma SwapBalance(st: State, t: nat, u: u32, v: u32, others: nat)
    requires Enabled(st, t, Swap(u)) && OwnBalanced(st, t, v, others)
    ensures OwnBalanced(Next(st, t, Swap(u)), t, v, others)
  {
    assert Next(st, t, Swap(u)).drained[..|st.drained|] == st.drained;
  }

  /** A step balances with the moving thread alone, whatever the others owe. */
  lemma OwnBalance(st: State, t: nat, a: Action, v: u32, others: nat)
    requires Enabled(st, t, a) && OwnBalanced(st, t, v, others)
    requires st.threads[t].Found? ==> st.threads[t].v in st.counts
    ensures OwnBalanced(Next(st, t, a), t, v, others)
  {
    match a
    case Begin(u) => BeginBalance(st, t, u, v, others);
    case Swap(u) => SwapBalance(st, t, u, v, others);
    case _ =>
  }

  /** What the threads other than t owe. */
  function OthersOwe(threads: seq<Pc>, t: nat, v: u32): nat
    requires t < |threads|
  {
    Outstanding(threads[t := Idle], v)
  }

  lemma AccountedSplit(st: State, t: nat, v: u32)
    requires t < |st.threads|
    ensures Accounted(st, v)
      == DrainedFor(st.drained, v) + CountOf(st.counts, v) + OthersOwe(st.threads, t, v) + Pending(st.threads[t], v)
  {
    SumMove(Owed(st.threads, v), t, 0);
    assert Owed(st.threads[t := Idle], v) == Owed(st.threads, v)[t := 0];
  }

  lemma MovesOne(st: State, t: nat, a: Action)
    requires Enabled(st, t, a)
    ensures |Next(st, t, a).threads| == |st.threads|
    ensures Next(st, t, a).threads[t := Idle] == st.threads[t := Idle]
  {
  }

  lemma BalanceFromOwn(st: State, t: nat, v: u32, others: nat)
    requires t < |st.threads| && others == OthersOwe(st.threads, t, v)
    ensures OwnBalanced(st, t, v, others) <==> Balanced(CallsFor(st.calls, v), Accounted(st, v))
  {
    AccountedSplit(st, t, v);
  }

  lemma BalanceStep(st: State, t: nat, a: Action, v: u32)
    requires Enabled(st, t, a) && (st.threads[t].Found? ==> st.threads[t].v in st.counts)
    requires Balanced(CallsFor(st.calls, v), Accounted(st, v))
    ensures Balanced(CallsFor(Next(st, t, a).calls, v), Accounted(Next(st, t, a), v))
  {
    var others := OthersOwe(st.threads, t, v);
    MovesOne(st, t, a);
    BalanceFromOwn(st, t, v, others);
    OwnBalance(st, t, a, v, others);
    BalanceFromOwn(Next(st, t, a), t, v, others);
  }

  /** Only a writer adds a counter. */
  lemma KeysChange(st: State, t: nat, a: Action)
    requires Enabled(st, t, a)
    ensures Next(st, t, a).counts.Keys == st.counts.Keys || HoldOf(st.threads[t]).Write?
  {
  }

  lemma SweepsStep(st: State, t: nat, a: Action)
    requires Inv(st) && Enabled(st, t, a)
    ensures SweepsOk(Next(st, t, a))
  {
    var n := Next(st, t, a);
    KeysChange(st, t, a);
    MovesOne(st, t, a);
    forall i | 0 <= i < |n.threads| && n.threads[i].Sweeping?
      ensures n.threads[i].todo + n.threads[i].done == n.counts.Keys
    {
      if i != t {
        assert n.threads[t := Idle][i] == st.threads[t := Idle][i];
        if HoldOf(st.threads[t]).Write? { Exclusion(st.lock, Holds(st.threads), t, i); }
      }
    }
  }

  lemma InvStep(st: State, t: nat, a: Action)
    requires Inv(st) && Enabled(st, t, a)
    ensures Inv(Next(st, t, a))
  {
    LockStep(st, t, a);
    SweepsStep(st, t, a);
    forall v: u32 ensures Balanced(CallsFor(Next(st, t, a).calls, v), Accounted(Next(st, t, a), v)) {
      BalanceStep(st, t, a, v);
    }
    forall i | 0 <= i < |st.threads| && i != t && st.threads[i].Found?
      ensures st.threads[i].v in Next(st, t, a).counts
    {
      CounterNeverReplaced(st, t, a, st.threads[i].v);
    }
  }

  type Schedule = seq<(nat, Action)>

  ghost predicate Runs(st: State, schedule: Schedule)
    decreases |schedule|
  {
    schedule == [] ||
    (Enabled(st, schedule[0].0, schedule[0].1) && Runs(Next(st, schedule[0].0, schedule[0].1), schedule[1..]))
  }

  ghost function After(st: State, schedule: Schedule): State
    requires Runs(st, schedule)
    decreases |schedule|
  {
    if schedule == [] then st else After(Next(st, schedule[0].0, schedule[0].1), schedule[1..])
  }

  lemma {:induction false} InvRun(st: State, schedule: Schedule)
    requires Inv(st) && Runs(st, schedule)
    ensures Inv(After(st, schedule))
    decreases |schedule|
  {
    if schedule != [] {
      InvStep(st, schedule[0].0, schedule[0].1);
      InvRun(Next(st, schedule[0].0, schedule[0].1), schedule[1..]);
    }
  }

  lemma InvStart(threads: nat)
    ensures Inv(Start(threads))
  {
    forall v: u32 ensures Outstanding(Start(threads).threads, v) == 0 {
      SumZero(Owed(Start(threads).threads, v));
    }
  }

  lemma BalancedMeans(calls: nat, accounted: nat)
    requires Balanced(calls, accounted)
    ensures accounted % TWO_32 == calls % TWO_32
    ensures calls < TWO_32 ==> accounted == calls
  {
    var wraps := (calls - accounted) / TWO_32;
    assert calls == accounted + wraps * TWO_32;
  }

  /** No lost increment, under every interleaving: for each version, what was drained and what is
      still counted and the calls under way are the calls begun, modulo 2^32; exactly so while
      fewer than 2^32 calls were made for it. */
  lemma NoLostIncrement(threads: nat, schedule: Schedule, v: u32)
    requires Runs(Start(threads), schedule)
    ensures var st := After(Start(threads), schedule);
      && Accounted(st, v) % TWO_32 == CallsFor(st.calls, v) % TWO_32
      && (CallsFor(st.calls, v) < TWO_32 ==> Accounted(st, v) == CallsFor(st.calls, v))
  {
    InvStart(threads);
    InvRun(Start(threads), schedule);
    var st := After(Start(threads), schedule);
    assert Balanced(CallsFor(st.calls, v), Accounted(st, v));
    BalancedMeans(CallsFor(st.calls, v), Accounted(st, v));
  }

  /** Under every interleaving a scrape ends only when it has drained every counter in the map. */
  lemma SweepsAreComplete(threads: nat, schedule: Schedule, t: nat)
    requires Runs(Start(threads), schedule)
    ensures var st := After(Start(threads), schedule);
      Enabled(st, t, EndScrape) ==> st.threads[t].done == st.counts.Keys
  {
    InvStart(threads);
    InvRun(Start(threads), schedule);
  }
}
