/** One shard's entry under concurrent updates, forced updates, removal and scrapes, step by
    atomic step. Any number of threads; the map's read-write lock excludes as usual. */
module ShardRace {
  import opened Words
  import opened PackedAverages
  import opened GasWindows
  import opened ShardStates
  import opened RwLocks

  /** Where a thread stands. */
  datatype Pc =
    | Idle
    | WantRead(s: ShardChainStats)                       // a plain update, before the read lock
    | Probing(s: ShardChainStats)                        // read lock held, before the lookup
    | WantWrite(s: ShardChainStats)                      // missed and dropped the lock, or a forced update
    | Entering(s: ShardChainStats)                       // write lock held, before the lookup
    | Applying(s: ShardChainStats, i: nat, write: bool)  // i steps of the update done, lock held
    | WantRemove
    | Removing                                           // write lock held
    | WantScrape
    | Taking                                             // read lock held, gas window next
    | Loading                                            // register next
    | Resetting                                          // average next

  /** The counters of an entry, by the step of an update that feeds them: 0 the stores into the
      register, 1 the average, 2 the transactions, 3 the account blocks, 4 the deployments, 5 the destructions. */
  const COUNTERS: nat := 6

  const ZEROS: seq<nat> := [0, 0, 0, 0, 0, 0]

  /** What a block brings to the counter that step k feeds. */
  function Amount(s: ShardChainStats, k: nat): u32 {
    match k
    case 0 => 1
    case 1 => s.transactionCount
    case 2 => s.transactionCount
    case 3 => s.accountBlocksCount
    case 4 => s.contractDeployments
    case 5 => s.contractDestructions
    case _ => 0
  }

  function Amounts(s: ShardChainStats): seq<nat> { seq(COUNTERS, k requires 0 <= k < COUNTERS => Amount(s, k)) }

  function AddAll(xs: seq<nat>, ys: seq<nat>): seq<nat>
    requires |xs| == |ys|
  {
    seq(|xs|, k requires 0 <= k < |xs| => xs[k] + ys[k])
  }

  type Tally = xs: seq<nat> | |xs| == COUNTERS witness ZEROS

  /** What has happened, kept beside the state to state the laws with. */
  datatype Log = Log(
    begun: Tally,                  // by counter: brought by all updates begun
    booked: Tally,                 // booked to the entry
    gone: Tally,                   // booked to entries since removed
    window: seq<u32>,              // pushed since the last drain
    closed: nat,                   // in the windows drained
    drained: nat,                  // what the drains reported of them
    longest: nat,                  // most samples that any window of the entry has had
    heaviest: nat,                 // greatest sum that any window of the entry has had
    unread: Option<(u32, u32)>,    // last pair stored, if after the last load
    gas: seq<Sample>,              // recorded since the last take
    brought: multiset<Sample>,     // brought by all updates begun
    taken: multiset<Sample>,       // in the windows taken
    dropped: multiset<Sample>,     // in the open windows of entries since removed
    passes: Passes)

  /** How often scrapes have taken the window, loaded the register, found it stored since the last
      load, and drained the average. */
  datatype Passes = Passes(takes: nat, loads: nat, pairs: nat, drains: nat)

  datatype State = State(
    slot: Option<Entry>,           // the shard's entry in the map
    lock: Lock,
    threads: seq<Pc>,
    log: Log)

  datatype Action = BeginUpdate(s: ShardChainStats) | BeginForced(s: ShardChainStats)
                  | BeginRemove | BeginScrape | Proceed

  function HoldOf(pc: Pc): Hold {
    match pc
    case Probing(_) => Read
    case Entering(_) => Write
    case Applying(_, _, write) => if write then Write else Read
    case Removing => Write
    case Taking => Read
    case Loading => Read
    case Resetting => Read
    case _ => No
  }

  // ----- steps -----

  predicate Enabled(st: State, t: nat, a: Action) {
    t < |st.threads| &&
    match a
    case Proceed =>
      (match st.threads[t]
       case Idle => false
       case WantRead(_) => Grants(st.lock, No, Read)
       case WantScrape => Grants(st.lock, No, Read)
       case WantWrite(_) => Grants(st.lock, No, Write)
       case WantRemove => Grants(st.lock, No, Write)
       case _ => true)
    case _ => st.threads[t].Idle?
  }

  /** Thread t goes to pc, and takes or drops the lock as that pc says. */
  function Goto(st: State, t: nat, pc: Pc): State
    requires t < |st.threads|
  {
    st.(threads := st.threads[t := pc], lock := Move(st.lock, t, HoldOf(st.threads[t]), HoldOf(pc)))
  }

  function Max(a: nat, b: nat): nat { if a < b then b else a }

  /** The record of step i of an update. */
  function LogStep(l: Log, s: ShardChainStats, i: nat): Log {
    match i
    case 0 => Book(l, s, 0).(unread := Some((s.seqno, s.utime)))
    case 6 => l.(gas := l.gas + [SampleOf(s)])
    case 1 =>
      var w := l.window + [s.transactionCount];
      Book(l, s, 1).(window := w, longest := Max(l.longest, |w|), heaviest := Max(l.heaviest, Sum(w)))
    case _ => if i < COUNTERS then Book(l, s, i) else l
  }

  function Book(l: Log, s: ShardChainStats, k: nat): Log
    requires k < COUNTERS
  {
    l.(booked := l.booked[k := l.booked[k] + Amount(s, k)])
  }

  function LogBegun(l: Log, s: ShardChainStats): Log {
    l.(begun := AddAll(l.begun, Amounts(s)), brought := l.brought + multiset{SampleOf(s)})
  }

  function LogTake(l: Log): Log {
    l.(gas := [], taken := l.taken + multiset(l.gas), passes := l.passes.(takes := l.passes.takes + 1))
  }

  function LogLoad(l: Log): Log {
    l.(unread := None,
       passes := l.passes.(loads := l.passes.loads + 1,
                           pairs := l.passes.pairs + if l.unread.Some? then 1 else 0))
  }

  /** The record of an entry made from one block. */
  function LogNew(l: Log, s: ShardChainStats): Log {
    Log(l.begun, Amounts(s), l.gone,
        [s.transactionCount], 0, 0, 1, s.transactionCount, Some((s.seqno, s.utime)),
        [SampleOf(s)], l.brought, l.taken, l.dropped, l.passes)
  }

  function LogGone(l: Log): Log {
    Log(l.begun, ZEROS, AddAll(l.gone, l.booked), [], 0, 0, 0, 0, None,
        [], l.brought, l.taken, l.dropped + multiset(l.gas), l.passes)
  }

  /** The sum a drain reports; nothing reads as zero. */
  function Reported(word: u64): nat {
    match ReadWord(word) case Some(a) => a.sum case None => 0
  }

  function LogDrain(l: Log, word: u64): Log {
    l.(window := [], closed := l.closed + Sum(l.window), drained := l.drained + Reported(word),
       passes := l.passes.(drains := l.passes.drains + 1))
  }

  function Next(st: State, t: nat, a: Action): State
    requires Enabled(st, t, a)
  {
    match a
    case BeginUpdate(s) => Goto(st, t, WantRead(s)).(log := LogBegun(st.log, s))
    case BeginForced(s) => Goto(st, t, WantWrite(s)).(log := LogBegun(st.log, s))
    case BeginRemove => Goto(st, t, WantRemove)
    case BeginScrape => Goto(st, t, WantScrape)
    case Proceed => Advance(st, t)
  }

  function Advance(st: State, t: nat): State
    requires t < |st.threads|
  {
    match st.threads[t]
    case Idle => st
    case WantRead(s) => Goto(st, t, Probing(s))
    case Probing(s) => Goto(st, t, if st.slot.Some? then Applying(s, 0, false) else WantWrite(s))
    case WantWrite(s) => Goto(st, t, Entering(s))
    case Entering(s) =>
      if st.slot.Some? then Goto(st, t, Applying(s, 0, true))
      else Goto(st, t, Applying(s, STEPS, true)).(slot := Some(NewEntry(s)), log := LogNew(st.log, s))
    case Applying(s, i, w) =>
      if i >= STEPS || st.slot.None? then Goto(st, t, Idle)
      else Goto(st, t, Applying(s, i + 1, w)).(
             slot := Some(UpdateStep(st.slot.value, s, i)), log := LogStep(st.log, s, i))
    case WantRemove => Goto(st, t, Removing)
    case Removing => Goto(st, t, Idle).(slot := None, log := LogGone(st.log))
    case WantScrape => Goto(st, t, Taking)
    case Taking =>
      if st.slot.None? then Goto(st, t, Idle)
      else Goto(st, t, Loading).(slot := Some(st.slot.value.(gas := None)), log := LogTake(st.log))
    case Loading =>
      if st.slot.None? then Goto(st, t, Idle)
      else
        var e := st.slot.value;
        Goto(st, t, if LoadedWord(e.seqnoAndUtime).Some? then Resetting else Idle).(
          slot := Some(e.(seqnoAndUtime := ClearDirty(e.seqnoAndUtime))), log := LogLoad(st.log))
    case Resetting =>
      if st.slot.None? then Goto(st, t, Idle)
      else Goto(st, t, Idle).(
             slot := Some(st.slot.value.(average := 0)), log := LogDrain(st.log, st.slot.value.average))
  }

  function Start(threads: nat): State {
    State(None, FREE, seq(threads, _ => Idle),
          Log(ZEROS, ZEROS, ZEROS, [], 0, 0, 0, 0, None, [], multiset{}, multiset{}, multiset{},
              Passes(0, 0, 0, 0)))
  }

  // ----- invariants -----

  function Holds(threads: seq<Pc>): seq<Hold> {
    seq(|threads|, i requires 0 <= i < |threads| => HoldOf(threads[i]))
  }

  /** An entry being updated or read is in the map. */
  ghost predicate SlotOk(st: State) {
    forall i | 0 <= i < |st.threads| ::
      st.threads[i].Applying? || st.threads[i].Loading? || st.threads[i].Resetting? ==> st.slot.Some?
  }

  function Masked(pair: Option<(u32, u32)>): Option<(u32, u32)> {
    match pair
    case Some((seqno, utime)) => Some((seqno, utime % TWO_31))
    case None => None
  }

  /** Every word of the entry says what the log says. */
  ghost predicate EntryOk(e: Entry, l: Log) {
    && LoadedWord(e.seqnoAndUtime) == Masked(l.unread)
    && e.average == Pushed(l.window)
    && e.totalTransactionCount == l.booked[2] % TWO_32
    && e.accountBlocks == l.booked[3] % TWO_32
    && e.contractDeployments == l.booked[4] % TWO_32
    && e.contractDestructions == l.booked[5] % TWO_32
    && Describes(e.gas, l.gas)
  }

  ghost predicate WindowsOk(l: Log) {
    && l.booked[1] == l.closed + Sum(l.window)
    && |l.window| <= l.longest && Sum(l.window) <= l.heaviest
    && (l.longest < TWO_32 ==> l.drained % TWO_32 == l.closed % TWO_32)
    && (l.longest < TWO_32 && l.heaviest < TWO_32 ==> l.drained == l.closed)
  }

  /** What a thread has still to bring to the counter that step k feeds. */
  function Pending(pc: Pc, k: nat): nat {
    match pc
    case WantRead(s) => Amount(s, k)
    case Probing(s) => Amount(s, k)
    case WantWrite(s) => Amount(s, k)
    case Entering(s) => Amount(s, k)
    case Applying(s, i, _) => if i <= k then Amount(s, k) else 0
    case _ => 0
  }

  function Owed(threads: seq<Pc>, k: nat): seq<nat> {
    seq(|threads|, i requires 0 <= i < |threads| => Pending(threads[i], k))
  }

  function Outstanding(threads: seq<Pc>, k: nat): nat { Sum(Owed(threads, k)) }

  ghost predicate FlowOk(st: State) {
    && (forall k | 0 <= k < COUNTERS ::
          st.log.begun[k] == st.log.gone[k] + st.log.booked[k] + Outstanding(st.threads, k))
    && st.log.begun[1] == st.log.begun[2] && st.log.gone[1] == st.log.gone[2]
  }

  /** Whether a thread has still to record the gas sample of its update. */
  predicate OwesSample(pc: Pc) {
    pc.WantRead? || pc.Probing? || pc.WantWrite? || pc.Entering? || (pc.Applying? && pc.i <= 6)
  }

  function PendingOf(pc: Pc, x: Sample): nat {
    if OwesSample(pc) && SampleOf(pc.s) == x then 1 else 0
  }

  function OwedOf(threads: seq<Pc>, x: Sample): seq<nat> {
    seq(|threads|, i requires 0 <= i < |threads| => PendingOf(threads[i], x))
  }

  function Recorded(l: Log, x: Sample): nat { l.taken[x] + l.dropped[x] + multiset(l.gas)[x] }

  ghost predicate GasFlowOk(st: State) {
    forall x: Sample :: st.log.brought[x] == Recorded(st.log, x) + Sum(OwedOf(st.threads, x))
  }

  /** Whether a scrape has taken the window and not yet loaded the register, or has found a pair
      there and not yet drained the average. */
  function UnderWay(pc: Pc, found: bool): nat {
    if (if found then pc.Resetting? else pc.Loading?) then 1 else 0
  }

  function AllUnderWay(threads: seq<Pc>, found: bool): seq<nat> {
    seq(|threads|, i requires 0 <= i < |threads| => UnderWay(threads[i], found))
  }

  function Begun(p: Passes, found: bool): nat { if found then p.pairs else p.takes }

  function Ended(p: Passes, found: bool): nat { if found then p.drains else p.loads }

  ghost predicate PassesOk(st: State) {
    forall found: bool ::
      Begun(st.log.passes, found) == Ended(st.log.passes, found) + Sum(AllUnderWay(st.threads, found))
  }

  /** Without an entry there is nothing booked and no window open. */
  predicate NothingOpen(l: Log) { l.booked == ZEROS && l.gas == [] }

  ghost predicate Inv(st: State) {
    && LockOk(st.lock, Holds(st.threads)) && SlotOk(st) && WindowsOk(st.log) && FlowOk(st) && GasFlowOk(st)
    && PassesOk(st)
    && (st.slot.Some? ==> EntryOk(st.slot.value, st.log))
    && (st.slot.None? ==> NothingOpen(st.log))
  }

  lemma OutstandingMove(threads: seq<Pc>, t: nat, pc: Pc, k: nat)
    requires t < |threads|
    ensures Outstanding(threads[t := pc], k) + Pending(threads[t], k) == Outstanding(threads, k) + Pending(pc, k)
  {
    SumMove(Owed(threads, k), t, Pending(pc, k));
    assert Owed(threads[t := pc], k) == Owed(threads, k)[t := Pending(pc, k)];
  }

  lemma LockStep(st: State, t: nat, a: Action)
    requires LockOk(st.lock, Holds(st.threads)) && Enabled(st, t, a)
    ensures LockOk(Next(st, t, a).lock, Holds(Next(st, t, a).threads))
  {
    var n := Next(st, t, a);
    var now := HoldOf(n.threads[t]);
    MoveKeepsLock(st.lock, Holds(st.threads), t, now);
    assert n.threads == st.threads[t := n.threads[t]];
    assert Holds(n.threads) == Holds(st.threads)[t := now];
    assert n.lock == Move(st.lock, t, HoldOf(st.threads[t]), now);
  }

  lemma PushOk(e: Entry, l: Log, s: ShardChainStats)
    requires EntryOk(e, l) && WindowsOk(l)
    ensures EntryOk(UpdateStep(e, s, 1), LogStep(l, s, 1)) && WindowsOk(LogStep(l, s, 1))
  {
    assert (l.window + [s.transactionCount])[..|l.window|] == l.window;
  }

  lemma BookOk(e: Entry, l: Log, s: ShardChainStats, k: nat)
    requires EntryOk(e, l) && WindowsOk(l) && 2 <= k <= 5
    ensures EntryOk(UpdateStep(e, s, k), Book(l, s, k)) && WindowsOk(Book(l, s, k))
  {
    AddMod(l.booked[k], Amount(s, k));
  }

  lemma EntryStep(e: Entry, l: Log, s: ShardChainStats, i: nat)
    requires EntryOk(e, l) && WindowsOk(l) && i < STEPS
    ensures EntryOk(UpdateStep(e, s, i), LogStep(l, s, i)) && WindowsOk(LogStep(l, s, i))
  {
    match i
    case 0 => RegisterRoundTrip(s.seqno, s.utime);
    case 1 => PushOk(e, l, s);
    case 6 => RecordDescribes(e.gas, l.gas, SampleOf(s));
    case _ => BookOk(e, l, s, i);
  }

  /** No thread stands between its push and its addition to the total. */
  ghost predicate NoneBetween(threads: seq<Pc>) {
    forall i | 0 <= i < |threads| :: !(threads[i].Applying? && threads[i].i == 2)
  }

  lemma BetweenIsNothing(threads: seq<Pc>)
    requires NoneBetween(threads)
    ensures Outstanding(threads, 1) == Outstanding(threads, 2)
  {
    assert Owed(threads, 1) == Owed(threads, 2);
  }

  lemma NewEntryOk(s: ShardChainStats, l: Log)
    ensures EntryOk(NewEntry(s), LogNew(l, s)) && WindowsOk(LogNew(l, s))
  {
    RegisterRoundTrip(s.seqno, s.utime);
    assert [s.transactionCount][..0] == [];
    assert Describes(None, []);
    RecordDescribes(None, [], SampleOf(s));
    assert [] + [SampleOf(s)] == [SampleOf(s)];
  }

  /** What a drain reports is the window's sum modulo 2^32, if the count did not overflow. */
  lemma ReportedSum(window: seq<u32>)
    requires |window| < TWO_32
    ensures Reported(Pushed(window)) == Sum(window) % TWO_32
  {
    UpperHalf(window);
    NoneMeansEmpty(window);
  }

  lemma DrainOk(e: Entry, l: Log)
    requires EntryOk(e, l) && WindowsOk(l)
    ensures EntryOk(e.(average := 0), LogDrain(l, e.average)) && WindowsOk(LogDrain(l, e.average))
  {
    if l.longest < TWO_32 {
      ReportedSum(l.window);
      ModSum(l.drained, l.closed, Reported(e.average), Sum(l.window));
    }
  }

  lemma LoadOk(e: Entry, l: Log)
    requires EntryOk(e, l) && WindowsOk(l)
    ensures EntryOk(e.(seqnoAndUtime := ClearDirty(e.seqnoAndUtime)), LogLoad(l)) && WindowsOk(LogLoad(l))
  {
    var word := e.seqnoAndUtime;
    assert !IsDirty(ClearDirty(word)) by { assert (word - TWO_31) / TWO_31 == word / TWO_31 - 1; }
  }

  /** Entry and log stay in step through any step of any thread. */
  lemma EntryAdvance(st: State, t: nat, a: Action)
    requires Inv(st) && Enabled(st, t, a)
    ensures WindowsOk(Next(st, t, a).log)
    ensures Next(st, t, a).slot.Some? ==> EntryOk(Next(st, t, a).slot.value, Next(st, t, a).log)
  {
    if a.Proceed? {
      match st.threads[t]
      case Entering(s) => NewEntryOk(s, st.log);
      case Applying(s, i, _) => if i < STEPS { EntryStep(st.slot.value, st.log, s, i); }
      case Loading => LoadOk(st.slot.value, st.log);
      case Resetting => DrainOk(st.slot.value, st.log);
      case _ =>
    }
  }

  /** The holder of the write lock is alone. */
  lemma WriterAlone(st: State, t: nat, i: nat)
    requires LockOk(st.lock, Holds(st.threads)) && t < |st.threads| && i < |st.threads| && i != t
    requires HoldOf(st.threads[t]).Write?
    ensures HoldOf(st.threads[i]).No?
  {
    Exclusion(st.lock, Holds(st.threads), t, i);
  }

  lemma SlotStep(st: State, t: nat, a: Action)
    requires Inv(st) && Enabled(st, t, a)
    ensures SlotOk(Next(st, t, a))
  {
    var n := Next(st, t, a);
    forall i | 0 <= i < |st.threads| && i != t
      ensures n.threads[i] == st.threads[i] && (HoldOf(st.threads[t]).Write? ==> HoldOf(st.threads[i]).No?)
    {
      if HoldOf(st.threads[t]).Write? { WriterAlone(st, t, i); }
    }
  }

  /** What a step books in the log is what its thread no longer owes. */
  predicate Books(l: Log, from: Pc, n: Log, to: Pc, k: nat)
    requires k < COUNTERS
  {
    n.begun[k] + Pending(from, k) + l.gone[k] + l.booked[k] == l.begun[k] + Pending(to, k) + n.gone[k] + n.booked[k]
  }

  lemma ApplyBooks(l: Log, s: ShardChainStats, i: nat, w: bool, k: nat)
    requires i < STEPS && k < COUNTERS
    ensures Books(l, Applying(s, i, w), LogStep(l, s, i), Applying(s, i + 1, w), k)
  {
  }

  lemma AdvanceBooks(st: State, t: nat, k: nat)
    requires t < |st.threads| && SlotOk(st) && (st.slot.None? ==> NothingOpen(st.log)) && k < COUNTERS
    ensures Books(st.log, st.threads[t], Advance(st, t).log, Advance(st, t).threads[t], k)
  {
    match st.threads[t]
    case Applying(s, i, w) =>
      if i < STEPS {
        ApplyBooks(st.log, s, i, w, k);
        assert Advance(st, t).log == LogStep(st.log, s, i);
      }
    case _ =>
  }

  lemma StepBooks(st: State, t: nat, a: Action, k: nat)
    requires Enabled(st, t, a) && SlotOk(st) && (st.slot.None? ==> NothingOpen(st.log)) && k < COUNTERS
    ensures Books(st.log, st.threads[t], Next(st, t, a).log, Next(st, t, a).threads[t], k)
  {
    if a.Proceed? { AdvanceBooks(st, t, k); }
  }

  lemma FlowStep(st: State, t: nat, a: Action)
    requires Inv(st) && Enabled(st, t, a)
    ensures FlowOk(Next(st, t, a))
  {
    var n := Next(st, t, a);
    assert n.threads == st.threads[t := n.threads[t]];
    forall k | 0 <= k < COUNTERS
      ensures n.log.begun[k] == n.log.gone[k] + n.log.booked[k] + Outstanding(n.threads, k)
    {
      OutstandingMove(st.threads, t, n.threads[t], k);
      StepBooks(st, t, a, k);
    }
    GoneBalance(st, t, a);
  }

  /** With no thread between them, the average and the total have been fed the same. */
  lemma BookedAlike(st: State)
    requires FlowOk(st) && NoneBetween(st.threads)
    ensures st.log.booked[1] == st.log.booked[2]
  {
    BetweenIsNothing(st.threads);
    assert st.log.begun[1] == st.log.gone[1] + st.log.booked[1] + Outstanding(st.threads, 1);
    assert st.log.begun[2] == st.log.gone[2] + st.log.booked[2] + Outstanding(st.threads, 2);
  }

  /** A remover is alone, so what it removes was fed alike. */
  lemma RemovedAlike(st: State, t: nat)
    requires LockOk(st.lock, Holds(st.threads)) && FlowOk(st) && t < |st.threads| && st.threads[t].Removing?
    ensures st.log.booked[1] == st.log.booked[2]
  {
    forall i: nat | i < |st.threads| && i != t ensures HoldOf(st.threads[i]).No? { WriterAlone(st, t, i); }
    BookedAlike(st);
  }

  lemma GoneBalance(st: State, t: nat, a: Action)
    requires LockOk(st.lock, Holds(st.threads)) && FlowOk(st) && Enabled(st, t, a)
    ensures Next(st, t, a).log.gone[1] == Next(st, t, a).log.gone[2]
    ensures Next(st, t, a).log.begun[1] == Next(st, t, a).log.begun[2]
  {
    if a.Proceed? && st.threads[t].Removing? { RemovedAlike(st, t); }
  }

  /** What a step records, takes or drops of sample x is what its thread no longer owes. */
  predicate Records(l: Log, from: Pc, n: Log, to: Pc, x: Sample) {
    n.brought[x] + PendingOf(from, x) + Recorded(l, x) == l.brought[x] + PendingOf(to, x) + Recorded(n, x)
  }

  lemma ApplyRecords(l: Log, s: ShardChainStats, i: nat, w: bool, x: Sample)
    requires i < STEPS
    ensures Records(l, Applying(s, i, w), LogStep(l, s, i), Applying(s, i + 1, w), x)
  {
    assert multiset(l.gas + [SampleOf(s)]) == multiset(l.gas) + multiset{SampleOf(s)};
  }

  /** Taking a window, dropping one and opening one with a first sample. */
  lemma WindowMoves(l: Log, x: Sample)
    ensures LogTake(l).brought[x] == l.brought[x] && Recorded(LogTake(l), x) == Recorded(l, x)
    ensures LogGone(l).brought[x] == l.brought[x] && Recorded(LogGone(l), x) == Recorded(l, x)
    ensures forall s | l.gas == [] :: LogNew(l, s).brought[x] == l.brought[x]
    ensures forall s | l.gas == [] ::
      Recorded(LogNew(l, s), x) == Recorded(l, x) + if SampleOf(s) == x then 1 else 0
  {
  }

  /** Where a step leaves the log alone, it owes the same sample before and after. */
  lemma QuietRecords(st: State, t: nat, x: Sample)
    requires t < |st.threads| && SlotOk(st) && Advance(st, t).log == st.log
    requires !st.threads[t].Applying? || st.threads[t].i >= STEPS
    requires st.threads[t].Entering? ==> st.slot.Some?
    ensures PendingOf(Advance(st, t).threads[t], x) == PendingOf(st.threads[t], x)
  {
  }

  /** Reading the register or the average touches no sample. */
  lemma ReadRecords(st: State, t: nat, x: Sample)
    requires t < |st.threads| && (st.threads[t].Loading? || st.threads[t].Resetting?)
    ensures Records(st.log, st.threads[t], Advance(st, t).log, Advance(st, t).threads[t], x)
  {
  }

  lemma UpdateRecords(st: State, t: nat, x: Sample)
    requires t < |st.threads| && SlotOk(st) && (st.slot.None? ==> NothingOpen(st.log))
    requires st.threads[t].Applying? || st.threads[t].Entering?
    ensures Records(st.log, st.threads[t], Advance(st, t).log, Advance(st, t).threads[t], x)
  {
    var n, pc := Advance(st, t), st.threads[t];
    if pc.Applying? && pc.i < STEPS {
      ApplyRecords(st.log, pc.s, pc.i, pc.write, x);
      assert n.log == LogStep(st.log, pc.s, pc.i) && n.threads[t] == Applying(pc.s, pc.i + 1, pc.write);
    } else if pc.Entering? && st.slot.None? {
      WindowMoves(st.log, x);
      assert n.log == LogNew(st.log, pc.s) && n.threads[t] == Applying(pc.s, STEPS, true);
    } else {
      QuietRecords(st, t, x);
    }
  }

  lemma AdvanceRecords(st: State, t: nat, x: Sample)
    requires t < |st.threads| && SlotOk(st) && (st.slot.None? ==> NothingOpen(st.log))
    ensures Records(st.log, st.threads[t], Advance(st, t).log, Advance(st, t).threads[t], x)
  {
    var n := Advance(st, t);
    match st.threads[t]
    case Applying(_, _, _) => UpdateRecords(st, t, x);
    case Entering(_) => UpdateRecords(st, t, x);
    case Removing =>
      WindowMoves(st.log, x);
      assert n.log == LogGone(st.log) && n.threads[t] == Idle;
    case Taking =>
      if st.slot.Some? {
        WindowMoves(st.log, x);
        assert n.log == LogTake(st.log) && n.threads[t] == Loading;
      } else {
        QuietRecords(st, t, x);
      }
    case Loading => ReadRecords(st, t, x);
    case Resetting => ReadRecords(st, t, x);
    case _ => QuietRecords(st, t, x);
  }

  lemma StepRecords(st: State, t: nat, a: Action, x: Sample)
    requires Enabled(st, t, a) && SlotOk(st) && (st.slot.None? ==> NothingOpen(st.log))
    ensures Records(st.log, st.threads[t], Next(st, t, a).log, Next(st, t, a).threads[t], x)
  {
    if a.Proceed? { AdvanceRecords(st, t, x); }
  }

  lemma OwedMove(threads: seq<Pc>, t: nat, pc: Pc, x: Sample)
    requires t < |threads|
    ensures Sum(OwedOf(threads[t := pc], x)) + PendingOf(threads[t], x)
         == Sum(OwedOf(threads, x)) + PendingOf(pc, x)
  {
    SumMove(OwedOf(threads, x), t, PendingOf(pc, x));
    assert OwedOf(threads[t := pc], x) == OwedOf(threads, x)[t := PendingOf(pc, x)];
  }

  lemma GasFlowStep(st: State, t: nat, a: Action)
    requires Inv(st) && Enabled(st, t, a)
    ensures GasFlowOk(Next(st, t, a))
  {
    var n := Next(st, t, a);
    assert n.threads == st.threads[t := n.threads[t]];
    forall x: Sample ensures n.log.brought[x] == Recorded(n.log, x) + Sum(OwedOf(n.threads, x)) {
      OwedMove(st.threads, t, n.threads[t], x);
      StepRecords(st, t, a, x);
    }
  }

  lemma StepPasses(st: State, t: nat, a: Action, found: bool)
    requires Enabled(st, t, a) && SlotOk(st) && (st.slot.Some? ==> EntryOk(st.slot.value, st.log))
    ensures var p, n := st.log.passes, Next(st, t, a);
      Begun(n.log.passes, found) + Ended(p, found) + UnderWay(st.threads[t], found)
        == Begun(p, found) + Ended(n.log.passes, found) + UnderWay(n.threads[t], found)
  {
    if a.Proceed? && st.threads[t].Applying? { ApplyPasses(st, t); }
  }

  lemma ApplyPasses(st: State, t: nat)
    requires t < |st.threads| && st.threads[t].Applying?
    ensures Advance(st, t).log.passes == st.log.passes
    ensures Advance(st, t).threads[t].Applying? || Advance(st, t).threads[t].Idle?
  {
  }

  /** A scrape that takes the window goes on to the register, and to the average exactly if it found
      a pair. */
  lemma PassesStep(st: State, t: nat, a: Action)
    requires Inv(st) && Enabled(st, t, a)
    ensures PassesOk(Next(st, t, a))
  {
    var n := Next(st, t, a);
    assert n.threads == st.threads[t := n.threads[t]];
    forall found: bool
      ensures Begun(n.log.passes, found) == Ended(n.log.passes, found) + Sum(AllUnderWay(n.threads, found))
    {
      SumMove(AllUnderWay(st.threads, found), t, UnderWay(n.threads[t], found));
      assert AllUnderWay(n.threads, found) == AllUnderWay(st.threads, found)[t := UnderWay(n.threads[t], found)];
      StepPasses(st, t, a, found);
    }
  }

  lemma FlowStart(threads: nat)
    ensures FlowOk(Start(threads)) && GasFlowOk(Start(threads)) && PassesOk(Start(threads))
  {
    var st := Start(threads);
    forall k | 0 <= k < COUNTERS ensures Outstanding(st.threads, k) == 0 {
      SumZero(Owed(st.threads, k));
    }
    forall x: Sample ensures Sum(OwedOf(st.threads, x)) == 0 {
      SumZero(OwedOf(st.threads, x));
    }
    forall found: bool ensures Sum(AllUnderWay(st.threads, found)) == 0 {
      SumZero(AllUnderWay(st.threads, found));
    }
  }

  lemma InvStart(threads: nat)
    ensures Inv(Start(threads))
  {
    FlowStart(threads);
  }

  /** Every step of every thread keeps the invariant. */
  lemma InvStep(st: State, t: nat, a: Action)
    requires Inv(st) && Enabled(st, t, a)
    ensures Inv(Next(st, t, a))
  {
    LockStep(st, t, a);
    EntryAdvance(st, t, a);
    SlotStep(st, t, a);
    FlowStep(st, t, a);
    GasFlowStep(st, t, a);
    PassesStep(st, t, a);
  }

  // ----- runs -----

  /** A schedule: which thread moves, and how. */
  type Schedule = seq<(nat, Action)>

  ghost predicate Runs(st: State, schedule: Schedule)
    decreases |schedule|
  {
    schedule == [] ||
    (Enabled(st, schedule[0].0, schedule[0].1) && Runs(Next(st, schedule[0].0, schedule[0].1), schedule[1..]))
  }

  ghost function After(st: State, schedule: Schedule): State
    requires Runs(st, schedule)
    decreases |schedule|
  {
    if schedule == [] then st else After(Next(st, schedule[0].0, schedule[0].1), schedule[1..])
  }

  lemma {:induction false} InvRun(st: State, schedule: Schedule)
    requires Inv(st) && Runs(st, schedule)
    ensures Inv(After(st, schedule))
    decreases |schedule|
  {
    if schedule != [] {
      InvStep(st, schedule[0].0, schedule[0].1);
      InvRun(Next(st, schedule[0].0, schedule[0].1), schedule[1..]);
    }
  }

  /** Sample conservation: what the drains reported plus what the average still holds is the
      transaction total modulo 2^32, if no window's count reached 2^32; and if no window's sum
      did either, it is the true number of transactions. */
  predicate Conserved(e: Entry, l: Log) {
    l.longest < TWO_32 ==>
      && (l.drained + e.average / TWO_32) % TWO_32 == e.totalTransactionCount
      && (l.heaviest < TWO_32 ==> l.drained + e.average / TWO_32 == l.booked[2])
  }

  lemma DrainedPlusHeld(drained: nat, closed: nat, sum: nat)
    requires drained % TWO_32 == closed % TWO_32
    ensures (drained + sum % TWO_32) % TWO_32 == (closed + sum) % TWO_32
    ensures drained == closed && sum < TWO_32 ==> drained + sum % TWO_32 == closed + sum
  {
    ModOfSum(drained, sum % TWO_32);
    ModOfSum(closed, sum);
  }

  lemma ConservedWhenBalanced(e: Entry, l: Log)
    requires e.average == Pushed(l.window) && e.totalTransactionCount == l.booked[2] % TWO_32
    requires WindowsOk(l) && l.booked[1] == l.booked[2]
    ensures Conserved(e, l)
  {
    if l.longest < TWO_32 {
      UpperHalf(l.window);
      DrainedPlusHeld(l.drained, l.closed, Sum(l.window));
    }
  }

  ghost predicate ConservedIfQuiet(st: State) {
    st.slot.Some? && NoneBetween(st.threads) ==> Conserved(st.slot.value, st.log)
  }

  lemma ConservedAt(st: State)
    requires Inv(st)
    ensures ConservedIfQuiet(st)
  {
    if st.slot.Some? && NoneBetween(st.threads) {
      BookedAlike(st);
      ConservedWhenBalanced(st.slot.value, st.log);
    }
  }

  /** Under every interleaving, samples are conserved whenever no thread stands between its push
      and its addition to the total; a scrape between a store and the push changes nothing. */
  lemma SamplesConserved(threads: nat, schedule: Schedule)
    requires Runs(Start(threads), schedule)
    ensures ConservedIfQuiet(After(Start(threads), schedule))
  {
    InvStart(threads);
    InvRun(Start(threads), schedule);
    ConservedAt(After(Start(threads), schedule));
  }

  /** When no thread owes counter k anything, what is booked to the live entry and to removed ones
      is all that the updates begun brought. */
  ghost predicate SettledIfQuiet(st: State, k: nat)
    requires k < COUNTERS
  {
    (forall i | 0 <= i < |st.threads| :: Pending(st.threads[i], k) == 0) ==>
      st.log.begun[k] == st.log.gone[k] + st.log.booked[k]
  }

  lemma SettledAt(st: State, k: nat)
    requires Inv(st) && k < COUNTERS
    ensures SettledIfQuiet(st, k)
  {
    if forall i | 0 <= i < |st.threads| :: Pending(st.threads[i], k) == 0 { SumZero(Owed(st.threads, k)); }
  }

  /** Every update reaches exactly one entry, with everything it counts, under every interleaving:
      none is lost to a racing insert or removal, and none is counted twice. */
  lemma EachSampleInOneEntry(threads: nat, schedule: Schedule, k: nat)
    requires Runs(Start(threads), schedule) && k < COUNTERS
    ensures SettledIfQuiet(After(Start(threads), schedule), k)
  {
    InvStart(threads);
    InvRun(Start(threads), schedule);
    SettledAt(After(Start(threads), schedule), k);
  }

  /** When no thread owes a gas sample, those of all updates begun are in the windows taken, in the
      open one or in those dropped with their entry, each exactly once. */
  ghost predicate GasSettledIfQuiet(st: State) {
    (forall i | 0 <= i < |st.threads| :: !OwesSample(st.threads[i])) ==>
      st.log.brought == st.log.taken + multiset(st.log.gas) + st.log.dropped
  }

  lemma GasSettledAt(st: State)
    requires Inv(st)
    ensures GasSettledIfQuiet(st)
  {
    if forall i | 0 <= i < |st.threads| :: !OwesSample(st.threads[i]) {
      forall x: Sample
        ensures st.log.brought[x] == (st.log.taken + multiset(st.log.gas) + st.log.dropped)[x]
      {
        SumZero(OwedOf(st.threads, x));
      }
    }
  }

  lemma EachGasSampleOnce(threads: nat, schedule: Schedule)
    requires Runs(Start(threads), schedule)
    ensures GasSettledIfQuiet(After(Start(threads), schedule))
  {
    InvStart(threads);
    InvRun(Start(threads), schedule);
    GasSettledAt(After(Start(threads), schedule));
  }

  /** With no scrape under way, every window taken was followed by a load, and every load after a
      store, and no other, by a drain. */
  ghost predicate WholeIfQuiet(st: State) {
    (forall i | 0 <= i < |st.threads| :: !st.threads[i].Loading? && !st.threads[i].Resetting?) ==>
      st.log.passes.takes == st.log.passes.loads && st.log.passes.pairs == st.log.passes.drains
  }

  lemma WholeAt(st: State)
    requires Inv(st)
    ensures WholeIfQuiet(st)
  {
    if forall i | 0 <= i < |st.threads| :: !st.threads[i].Loading? && !st.threads[i].Resetting? {
      SumZero(AllUnderWay(st.threads, false));
      SumZero(AllUnderWay(st.threads, true));
      assert Begun(st.log.passes, false) == Ended(st.log.passes, false);
      assert Begun(st.log.passes, true) == Ended(st.log.passes, true);
    }
  }

  lemma ScrapesAreWhole(threads: nat, schedule: Schedule)
    requires Runs(Start(threads), schedule)
    ensures WholeIfQuiet(After(Start(threads), schedule))
  {
    InvStart(threads);
    InvRun(Start(threads), schedule);
    WholeAt(After(Start(threads), schedule));
  }

  ghost predicate Truthful(st: State) { st.slot.Some? ==> EntryOk(st.slot.value, st.log) }

  lemma TruthfulAt(st: State)
    requires Inv(st)
    ensures Truthful(st)
  {
  }

  /** The live entry always says what happened to it: its totals are what was booked, modulo 2^32;
      a load of its register reports a pair exactly if one was stored since the last load, and then
      the last one stored, its time without the top bit; and its gas window holds exactly the
      samples since the last take. */
  lemma EntryTellsTheTruth(threads: nat, schedule: Schedule)
    requires Runs(Start(threads), schedule)
    ensures Truthful(After(Start(threads), schedule))
  {
    InvStart(threads);
    InvRun(Start(threads), schedule);
    TruthfulAt(After(Start(threads), schedule));
  }

  /** The entry that a thread updates or scrapes is never removed under it, and a racing insert
      never replaces an entry: the slot is emptied only by a thread that holds the lock alone, and
      a new entry is put in only where there was none. */
  lemma EntryNeverReplaced(st: State, t: nat, a: Action)
    requires Inv(st) && Enabled(st, t, a)
    ensures st.slot.Some? && Next(st, t, a).slot.None? ==>
      forall i | 0 <= i < |st.threads| && i != t :: HoldOf(st.threads[i]).No?
    ensures st.threads[t].Entering? && a.Proceed? && st.slot.Some? ==> Next(st, t, a).slot == st.slot
    ensures st.slot.None? && Next(st, t, a).slot.Some? ==>
      st.threads[t].Entering? && Next(st, t, a).slot.value == NewEntry(st.threads[t].s)
  {
    if a.Proceed? && st.threads[t].Removing? {
      forall i: nat | i < |st.threads| && i != t ensures HoldOf(st.threads[i]).No? { WriterAlone(st, t, i); }
    }
  }
}
