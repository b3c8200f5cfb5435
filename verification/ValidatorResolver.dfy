/** The resolver of validator addresses: for each validator set it is sent it looks all members up,
    round after round, and drops what it is doing when a newer set arrives. */
module ValidatorResolver {
  import opened Words

  type PublicKey = nat
  type Adnl = nat
  type Address = nat

  datatype Validator = Validator(key: PublicKey, adnl: Option<Adnl>)

  type ValidatorSet = seq<Validator>

  /** A recorded address, with the ADNL address it was found under. */
  datatype Found = Found(adnl: Adnl, address: Address)

  datatype Stage = Waiting | Holding | Finished(found: bool)

  /** A lookup in flight: it waits for a permit, holds one, or has an answer to collect. */
  datatype Lookup = Lookup(key: PublicKey, adnl: Adnl, stage: Stage)

  const MAX_PARALLEL_REQUESTS: nat := 50

  datatype Phase =
    | Borrowing   // top of the loop
    | Clearing    // a set in hand, addresses not yet cleared
    | Filling     // addresses cleared, `remaining` not yet filled
    | Building    // about to start a round
    | Draining    // waiting for lookups
    | Sleeping    // between rounds
    | Resolved    // all done, waiting for a change
    | Stopped

  datatype State = State(
    sent: ValidatorSet,                // last value of the channel
    version: nat,                      // how often it was sent
    closed: bool,                      // the sender is gone
    phase: Phase,
    vset: ValidatorSet,                // the set being resolved
    seen: nat,                         // the version last seen
    ips: map<PublicKey, Found>,        // validator_ips
    remaining: set<PublicKey>,
    lookups: seq<Lookup>,
    free: nat,                         // permits
    failed: set<PublicKey>)            // lookups of this round that failed, kept for the laws

  datatype Action =
    | Send(vset: ValidatorSet) | Close
    | Advance                                    // the resolver's next step
    | Acquire(i: nat)
    | Answer(i: nat, address: Option<Address>)
    | Collect(i: nat)
    | Change                                     // changed() returns Ok, from any await of the resolver
    | Disconnect                                 // changed() returns Err

  function Keys(vset: ValidatorSet): set<PublicKey> { set v | v in vset :: v.key }

  function Permits(lookups: seq<Lookup>): seq<nat> {
    seq(|lookups|, i requires 0 <= i < |lookups| => if lookups[i].stage.Holding? then 1 else 0)
  }

  /** The permits held by lookups. */
  function Held(lookups: seq<Lookup>): nat { Sum(Permits(lookups)) }

  // ----- one round -----

  datatype Round = Round(remaining: set<PublicKey>, lookups: seq<Lookup>)

  /** The start of a round: remaining members without an ADNL address are dropped, the others get
      a lookup each. */
  function Build(vset: ValidatorSet, remaining: set<PublicKey>): Round {
    if vset == [] then Round(remaining, []) else
      var v := vset[0];
      if v.key !in remaining then Build(vset[1..], remaining)
      else match v.adnl
        case None => Build(vset[1..], remaining - {v.key})
        case Some(a) =>
          var rest := Build(vset[1..], remaining);
          Round(rest.remaining, [Lookup(v.key, a, Waiting)] + rest.lookups)
  }

  method StartRound(vset: ValidatorSet, remaining: set<PublicKey>) returns (round: Round)
    ensures round == Build(vset, remaining)
  {
    var rest := remaining;
    var lookups: seq<Lookup> := [];
    assert vset[0..] == vset;
    for i := 0 to |vset|
      invariant Build(vset, remaining)
        == Round(Build(vset[i..], rest).remaining, lookups + Build(vset[i..], rest).lookups)
    {
      var v := vset[i];
      assert vset[i..][1..] == vset[i + 1..];
      if v.key in rest {
        match v.adnl {
          case Some(a) => lookups := lookups + [Lookup(v.key, a, Waiting)];
          case None => rest := rest - {v.key};
        }
      }
    }
    round := Round(rest, lookups);
  }

  predicate IsMember(vset: ValidatorSet, key: PublicKey, adnl: Adnl) { Validator(key, Some(adnl)) in vset }

  lemma {:induction false} BuildRemaining(vset: ValidatorSet, remaining: set<PublicKey>, k: PublicKey)
    ensures k in Build(vset, remaining).remaining <==> k in remaining && Validator(k, None) !in vset
  {
    if vset != [] {
      var v := vset[0];
      assert v == Validator(v.key, v.adnl);
      assert forall w :: w in vset <==> w == v || w in vset[1..];
      BuildRemaining(vset[1..], if v.key in remaining && v.adnl.None? then remaining - {v.key} else remaining, k);
    }
  }

  lemma {:induction false} BuildLookups(vset: ValidatorSet, remaining: set<PublicKey>)
    ensures forall l | l in Build(vset, remaining).lookups ::
      l.stage.Waiting? && IsMember(vset, l.key, l.adnl) && l.key in remaining
    ensures Held(Build(vset, remaining).lookups) == 0
  {
    if vset != [] {
      var v := vset[0];
      assert forall w | w in vset[1..] :: w in vset;
      assert v in vset && v == Validator(v.key, v.adnl);
      BuildLookups(vset[1..], if v.key in remaining && v.adnl.None? then remaining - {v.key} else remaining);
      NoneHeld(Build(vset, remaining).lookups);
    }
  }

  /** Every member still remaining that has an ADNL address is looked up under it. */
  lemma {:induction false} RoundAsksEveryone(vset: ValidatorSet, remaining: set<PublicKey>, k: PublicKey, a: Adnl)
    requires IsMember(vset, k, a) && k in Build(vset, remaining).remaining
    ensures Lookup(k, a, Waiting) in Build(vset, remaining).lookups
  {
    var v := vset[0];
    BuildRemaining(vset, remaining, k);
    if v != Validator(k, Some(a)) {
      assert Validator(k, Some(a)) in vset[1..];
      RoundAsksEveryone(vset[1..], if v.key in remaining && v.adnl.None? then remaining - {v.key} else remaining, k, a);
    }
  }

  /** The part of a set before the first listing of this key without an ADNL address. */
  function BeforeBare(vset: ValidatorSet, k: PublicKey): ValidatorSet {
    if vset == [] || vset[0] == Validator(k, None) then [] else [vset[0]] + BeforeBare(vset[1..], k)
  }

  lemma MultisetOfFirst<T>(x: T, xs: seq<T>)
    ensures multiset([x] + xs) == multiset{x} + multiset(xs)
  {
  }

  /** A round starts as many lookups of a remaining key as the set lists it with that ADNL address
      before it lists it without one. */
  lemma {:induction false} LookupsMatchListings(
      vset: ValidatorSet, remaining: set<PublicKey>, k: PublicKey, a: Adnl)
    ensures multiset(Build(vset, remaining).lookups)[Lookup(k, a, Waiting)]
         == if k in remaining then multiset(BeforeBare(vset, k))[Validator(k, Some(a))] else 0
  {
    if vset != [] {
      var v := vset[0];
      var rest := if v.key in remaining && v.adnl.None? then remaining - {v.key} else remaining;
      LookupsMatchListings(vset[1..], rest, k, a);
      MultisetOfFirst(v, BeforeBare(vset[1..], k));
      if v.key in remaining && v.adnl.Some? {
        MultisetOfFirst(Lookup(v.key, v.adnl.value, Waiting), Build(vset[1..], rest).lookups);
      }
    }
  }

  lemma NoneHeld(lookups: seq<Lookup>)
    requires forall l | l in lookups :: !l.stage.Holding?
    ensures Held(lookups) == 0
  {
    SumZero(Permits(lookups));
  }

  /** Every member is resolved, has no ADNL address, or is still remaining. */
  ghost predicate Accounted(vset: ValidatorSet, ips: map<PublicKey, Found>, remaining: set<PublicKey>) {
    forall v | v in vset :: v.adnl.None? || v.key in ips || v.key in remaining
  }

  /** No public key is listed both with and without an ADNL address; distinct keys are enough. */
  ghost predicate Consistent(vset: ValidatorSet) {
    forall v, w | v in vset && w in vset && v.key == w.key :: v.adnl.None? ==> w.adnl.None?
  }

  lemma DistinctIsConsistent(vset: ValidatorSet)
    requires forall i, j | 0 <= i < j < |vset| :: vset[i].key != vset[j].key
    ensures Consistent(vset)
  {
  }

  /** The first round of an epoch drops no member that has an ADNL address, exactly if the set is
      consistent. */
  lemma RoundKeepsEveryMember(vset: ValidatorSet)
    ensures Accounted(vset, map[], Build(vset, Keys(vset)).remaining) <==> Consistent(vset)
  {
    forall k ensures k in Build(vset, Keys(vset)).remaining <==> k in Keys(vset) && Validator(k, None) !in vset {
      BuildRemaining(vset, Keys(vset), k);
    }
    forall v | v in vset ensures v.key in Keys(vset) && v == Validator(v.key, v.adnl) { }
  }

  // ----- the resolver -----

  predicate Awaiting(p: Phase) { p.Draining? || p.Sleeping? || p.Resolved? }

  predicate Enabled(st: State, a: Action) {
    match a
    case Send(_) => !st.closed
    case Close => !st.closed
    case Advance =>
      (match st.phase
       case Draining => st.lookups == []
       case Resolved => false
       case Stopped => false
       case _ => true)
    case Acquire(i) => st.phase.Draining? && i < |st.lookups| && st.lookups[i].stage.Waiting? && st.free > 0
    case Answer(i, _) => st.phase.Draining? && i < |st.lookups| && st.lookups[i].stage.Holding?
    case Collect(i) => st.phase.Draining? && i < |st.lookups| && st.lookups[i].stage.Finished?
    case Change => Awaiting(st.phase) && st.version > st.seen
    case Disconnect => Awaiting(st.phase) && st.version == st.seen && st.closed
  }

  /** The unfinished resolution is dropped: lookups vanish and their permits return. */
  function Dropped(st: State): State { st.(lookups := [], free := st.free + Held(st.lookups)) }

  function Next(st: State, a: Action): State
    requires Enabled(st, a)
  {
    match a
    case Send(vset) => st.(sent := vset, version := st.version + 1)
    case Close => st.(closed := true)
    case Acquire(i) =>
      st.(lookups := st.lookups[i := st.lookups[i].(stage := Holding)], free := st.free - 1)
    case Answer(i, address) =>
      var l := st.lookups[i];
      st.(lookups := st.lookups[i := l.(stage := Finished(address.Some?))], free := st.free + 1,
          ips := if address.Some? then st.ips[l.key := Found(l.adnl, address.value)] else st.ips)
    case Collect(i) =>
      var l := st.lookups[i];
      st.(lookups := st.lookups[..i] + st.lookups[i + 1..],
          remaining := if l.stage.found then st.remaining - {l.key} else st.remaining,
          failed := if l.stage.found then st.failed else st.failed + {l.key})
    case Change => Dropped(st).(seen := st.version, phase := Borrowing)
    case Disconnect => Dropped(st).(phase := Stopped)
    case Advance =>
      match st.phase
      case Borrowing => st.(vset := st.sent, seen := st.version, phase := Clearing)
      case Clearing => st.(ips := map[], phase := Filling)
      case Filling => st.(remaining := Keys(st.vset), phase := Building)
      case Building =>
        var round := Build(st.vset, st.remaining);
        st.(remaining := round.remaining, lookups := round.lookups, failed := {}, phase := Draining)
      case Draining => st.(phase := if st.remaining == {} then Resolved else Sleeping)
      case Sleeping => st.(phase := Building)
      case _ => st
  }

  /** The channel may have been used before the resolver starts. */
  function Start(sent: ValidatorSet, version: nat): State {
    State(sent, version, false, Borrowing, [], version, map[], {}, [], MAX_PARALLEL_REQUESTS, {})
  }

  predicate AfterClear(p: Phase) { !p.Borrowing? && !p.Clearing? }

  predicate AfterFill(p: Phase) { AfterClear(p) && !p.Filling? }

  ghost predicate LookupsOk(st: State) {
    && (st.lookups != [] ==> st.phase.Draining?)
    && (forall l | l in st.lookups ::
          && IsMember(st.vset, l.key, l.adnl)
          && (l.stage == Finished(true) ==> l.key in st.ips))
    && st.free + Held(st.lookups) == MAX_PARALLEL_REQUESTS
  }

  ghost predicate EpochOk(st: State) {
    && (AfterClear(st.phase) ==> forall k | k in st.ips :: IsMember(st.vset, k, st.ips[k].adnl))
    && (AfterFill(st.phase) ==> st.remaining <= Keys(st.vset))
    && (AfterFill(st.phase) && Consistent(st.vset) ==> Accounted(st.vset, st.ips, st.remaining))
    && (st.phase.Resolved? ==> st.remaining == {})
  }

  ghost predicate ChannelOk(st: State) {
    && st.seen <= st.version
    && (!st.phase.Borrowing? && st.seen == st.version ==> st.vset == st.sent)
    && (st.phase.Stopped? ==> st.closed && st.seen == st.version)
  }

  predicate IsLookedUp(lookups: seq<Lookup>, k: PublicKey) {
    exists l | l in lookups :: l.key == k
  }

  /** A remaining member is asked for in every round: its lookup is under way or has failed. */
  ghost predicate RoundOk(st: State) {
    st.phase.Draining? || st.phase.Sleeping? ==>
      forall k, a | k in st.remaining && IsMember(st.vset, k, a) :: k in st.failed || IsLookedUp(st.lookups, k)
  }

  /** A key has still to be recorded: it is listed, and never without an ADNL address, and no
      address of it has been. */
  ghost predicate IsDue(st: State, k: PublicKey) {
    k in Keys(st.vset) && Validator(k, None) !in st.vset && k !in st.ips
  }

  predicate IsAnswered(lookups: seq<Lookup>, k: PublicKey) {
    exists l | l in lookups :: l.key == k && l.stage == Finished(true)
  }

  /** What is due remains; what remains is due, but for keys whose answer is not collected yet, and,
      before the first round, keys listed without an ADNL address. */
  ghost predicate RemainingOk(st: State) {
    && (st.phase.Filling? ==> st.ips == map[])
    && (AfterFill(st.phase) && !st.phase.Stopped? ==>
          && (forall k | IsDue(st, k) :: k in st.remaining)
          && (forall k | k in st.remaining && k in st.ips :: IsAnswered(st.lookups, k))
          && (!st.phase.Building? ==> forall k | k in st.remaining :: Validator(k, None) !in st.vset)
          && (st.phase.Sleeping? ==> st.remaining != {}))
  }

  ghost predicate Inv(st: State) {
    LookupsOk(st) && EpochOk(st) && ChannelOk(st) && RoundOk(st) && RemainingOk(st)
  }

  lemma HeldMove(lookups: seq<Lookup>, i: nat, l: Lookup)
    requires i < |lookups|
    ensures Held(lookups[i := l]) + (if lookups[i].stage.Holding? then 1 else 0)
            == Held(lookups) + if l.stage.Holding? then 1 else 0
  {
    var x := if l.stage.Holding? then 1 else 0;
    SumMove(Permits(lookups), i, x);
    assert Permits(lookups[i := l]) == Permits(lookups)[i := x];
  }

  lemma HeldRemove(lookups: seq<Lookup>, i: nat)
    requires i < |lookups| && !lookups[i].stage.Holding?
    ensures Held(lookups[..i] + lookups[i + 1..]) == Held(lookups)
  {
    SumRemove(Permits(lookups), i);
    assert Permits(lookups[..i] + lookups[i + 1..]) == Permits(lookups)[..i] + Permits(lookups)[i + 1..];
  }

  lemma LookupsStep(st: State, a: Action)
    requires Inv(st) && Enabled(st, a)
    ensures LookupsOk(Next(st, a))
  {
    var n := Next(st, a);
    match a
    case Acquire(i) =>
      HeldMove(st.lookups, i, n.lookups[i]);
      assert st.lookups[i] in st.lookups;
      assert forall l | l in n.lookups :: l in st.lookups || l == n.lookups[i];
    case Answer(i, _) =>
      HeldMove(st.lookups, i, n.lookups[i]);
      assert st.lookups[i] in st.lookups;
      assert forall l | l in n.lookups :: l in st.lookups || l == n.lookups[i];
    case Collect(i) =>
      HeldRemove(st.lookups, i);
      assert forall l | l in n.lookups :: l in st.lookups;
    case Advance =>
      if st.phase.Building? { BuildLookups(st.vset, st.remaining); }
    case _ =>
  }

  lemma EpochStep(st: State, a: Action)
    requires Inv(st) && Enabled(st, a)
    ensures EpochOk(Next(st, a))
  {
    match a
    case Answer(i, _) => assert st.lookups[i] in st.lookups;
    case Collect(i) => assert st.lookups[i] in st.lookups;
    case Advance =>
      if st.phase.Filling? {
        forall v | v in st.vset ensures v.key in Keys(st.vset) { }
      }
      if st.phase.Building? {
        forall k
          ensures k in Build(st.vset, st.remaining).remaining
            <==> k in st.remaining && Validator(k, None) !in st.vset
        {
          BuildRemaining(st.vset, st.remaining, k);
        }
      }
    case _ =>
  }

  lemma RoundStep(st: State, a: Action)
    requires Inv(st) && Enabled(st, a)
    ensures RoundOk(Next(st, a))
  {
    var n := Next(st, a);
    if n.phase.Draining? || n.phase.Sleeping? {
      forall k, adnl | k in n.remaining && IsMember(n.vset, k, adnl)
        ensures k in n.failed || IsLookedUp(n.lookups, k)
      {
        if st.phase.Building? {
          if a.Advance? { RoundAsksEveryone(st.vset, st.remaining, k, adnl); }
        } else if k !in st.failed {
          assert IsLookedUp(st.lookups, k);
          var i :| 0 <= i < |st.lookups| && st.lookups[i].key == k;
          LookupStays(st, a, i);
        }
      }
    }
  }

  /** A lookup stays in the queue until it is collected. */
  lemma LookupStays(st: State, a: Action, i: nat)
    requires Enabled(st, a) && i < |st.lookups| && (st.phase.Draining? || st.phase.Sleeping?)
    requires Next(st, a).phase.Draining? || Next(st, a).phase.Sleeping?
    ensures a == Collect(i) || IsLookedUp(Next(st, a).lookups, st.lookups[i].key)
  {
    var n := Next(st, a);
    match a
    case Collect(j) =>
      if i < j { assert n.lookups[i] == st.lookups[i]; }
      if i > j { assert n.lookups[i - 1] == st.lookups[i]; }
    case Acquire(_) => assert n.lookups[i].key == st.lookups[i].key;
    case Answer(_, _) => assert n.lookups[i].key == st.lookups[i].key;
    case _ =>
  }

  lemma AnswerRemaining(st: State, i: nat, address: Option<Address>)
    requires Inv(st) && Enabled(st, Answer(i, address))
    ensures RemainingOk(Next(st, Answer(i, address)))
  {
    var n := Next(st, Answer(i, address));
    forall k | k in n.remaining && k in n.ips ensures IsAnswered(n.lookups, k) {
      if address.Some? && k == st.lookups[i].key {
        assert n.lookups[i] in n.lookups;
      } else {
        AnsweredStays(st.lookups, i, n.lookups[i], k);
      }
    }
  }

  lemma AnsweredStays(lookups: seq<Lookup>, i: nat, l: Lookup, k: PublicKey)
    requires i < |lookups| && lookups[i].stage != Finished(true) && IsAnswered(lookups, k)
    ensures IsAnswered(lookups[i := l], k)
  {
    var j :| 0 <= j < |lookups| && lookups[j].key == k && lookups[j].stage == Finished(true);
    assert lookups[i := l][j] == lookups[j];
  }

  lemma CollectRemaining(st: State, i: nat)
    requires Inv(st) && Enabled(st, Collect(i))
    ensures RemainingOk(Next(st, Collect(i)))
  {
    var n := Next(st, Collect(i));
    assert st.lookups[i] in st.lookups;
    forall k | k in n.remaining && k in n.ips ensures IsAnswered(n.lookups, k) {
      var j :| 0 <= j < |st.lookups| && st.lookups[j].key == k && st.lookups[j].stage == Finished(true);
      if j < i { assert n.lookups[j] == st.lookups[j]; } else { assert n.lookups[j - 1] == st.lookups[j]; }
    }
  }

  lemma BuildKeepsDue(st: State)
    requires Inv(st) && st.phase.Building?
    ensures RemainingOk(Next(st, Advance))
  {
    var n := Next(st, Advance);
    assert st.lookups == [];
    forall k ensures k in n.remaining <==> k in st.remaining && Validator(k, None) !in st.vset {
      BuildRemaining(st.vset, st.remaining, k);
    }
    forall k | IsDue(n, k) ensures k in n.remaining { assert IsDue(st, k); }
    assert forall k :: !IsAnswered(st.lookups, k);
  }

  lemma RemainingStep(st: State, a: Action)
    requires Inv(st) && Enabled(st, a)
    ensures RemainingOk(Next(st, a))
  {
    var n := Next(st, a);
    match a
    case Acquire(i) =>
      forall k | IsAnswered(st.lookups, k) ensures IsAnswered(n.lookups, k) {
        AnsweredStays(st.lookups, i, n.lookups[i], k);
      }
      assert forall k | IsDue(n, k) :: IsDue(st, k);
    case Answer(i, address) =>
      AnswerRemaining(st, i, address);
    case Collect(i) => CollectRemaining(st, i);
    case Advance =>
      if st.phase.Building? {
        BuildKeepsDue(st);
      } else {
        assert forall k | IsDue(n, k) :: !AfterFill(n.phase) || n.phase.Building? || IsDue(st, k);
      }
    case _ => assert forall k | IsDue(n, k) :: IsDue(st, k) || !AfterFill(n.phase);
  }

  lemma InvStep(st: State, a: Action)
    requires Inv(st) && Enabled(st, a)
    ensures Inv(Next(st, a))
  {
    RemainingStep(st, a);
    RoundStep(st, a);
    LookupsStep(st, a);
    EpochStep(st, a);
  }

  /** Within an epoch `remaining` never grows: only the fill at its start adds to it. */
  lemma RemainingShrinks(st: State, a: Action)
    requires Enabled(st, a) && !(a.Advance? && st.phase.Filling?)
    ensures Next(st, a).remaining <= st.remaining
  {
    if a.Advance? && st.phase.Building? {
      forall k | k in Next(st, a).remaining ensures k in st.remaining { BuildRemaining(st.vset, st.remaining, k); }
    }
  }

  ghost predicate Runs(st: State, actions: seq<Action>)
    decreases |actions|
  {
    actions == [] || (Enabled(st, actions[0]) && Runs(Next(st, actions[0]), actions[1..]))
  }

  ghost function After(st: State, actions: seq<Action>): State
    requires Runs(st, actions)
    decreases |actions|
  {
    if actions == [] then st else After(Next(st, actions[0]), actions[1..])
  }

  lemma {:induction false} InvRun(st: State, actions: seq<Action>)
    requires Inv(st) && Runs(st, actions)
    ensures Inv(After(st, actions))
    decreases |actions|
  {
    if actions != [] {
      InvStep(st, actions[0]);
      InvRun(Next(st, actions[0]), actions[1..]);
    }
  }

  /** In every reachable state, over all epochs and cancellations: once cleared, the recorded
      addresses are of members of the set in hand, under their own ADNL address; lookups in flight
      are for that set too, so nothing of an older epoch can still arrive; every member is
      accounted for; and the resolution is complete only when each member with an ADNL address has
      an address recorded. */
  lemma EpochsAreClean(sent: ValidatorSet, version: nat, actions: seq<Action>)
    requires Runs(Start(sent, version), actions)
    ensures var st := After(Start(sent, version), actions);
      && (AfterClear(st.phase) ==> forall k | k in st.ips :: IsMember(st.vset, k, st.ips[k].adnl))
      && (forall l | l in st.lookups :: IsMember(st.vset, l.key, l.adnl))
      && (!AfterFill(st.phase) ==> st.lookups == [])
      && (AfterFill(st.phase) && Consistent(st.vset) ==> Accounted(st.vset, st.ips, st.remaining))
      && (st.phase.Resolved? && Consistent(st.vset) ==> forall v | v in st.vset && v.adnl.Some? :: v.key in st.ips)
  {
    InvRun(Start(sent, version), actions);
  }

  /** The resolver sleeps between rounds only when the lookup of every member that remains, under its
      ADNL address, has failed in the round just over. */
  lemma SleepsOnlyAfterAsking(sent: ValidatorSet, version: nat, actions: seq<Action>)
    requires Runs(Start(sent, version), actions)
    ensures var st := After(Start(sent, version), actions);
      st.phase.Sleeping? ==> forall k, a | k in st.remaining && IsMember(st.vset, k, a) :: k in st.failed
  {
    InvRun(Start(sent, version), actions);
  }

  /** Held and free permits are always 50, so at most 50 lookups are active; none is lost when a
      resolution is dropped. */
  lemma PermitsConserved(sent: ValidatorSet, version: nat, actions: seq<Action>)
    requires Runs(Start(sent, version), actions)
    ensures var st := After(Start(sent, version), actions);
      st.free + Held(st.lookups) == MAX_PARALLEL_REQUESTS && (st.lookups == [] ==> st.free == MAX_PARALLEL_REQUESTS)
  {
    InvRun(Start(sent, version), actions);
  }

  /** The last set among these actions, or the one before them. */
  function LastSent(sent: ValidatorSet, actions: seq<Action>): ValidatorSet
    decreases |actions|
  {
    if actions == [] then sent
    else LastSent(if actions[0].Send? then actions[0].vset else sent, actions[1..])
  }

  lemma {:induction false} ChannelHolds(st: State, actions: seq<Action>)
    requires Runs(st, actions)
    ensures After(st, actions).sent == LastSent(st.sent, actions)
    ensures After(st, actions).closed <==> st.closed || Close in actions
    decreases |actions|
  {
    if actions != [] { ChannelHolds(Next(st, actions[0]), actions[1..]); }
  }

  /** The resolver never rests on an old set: while it waits for a change, either it holds the last set
      sent, or the wake-up is due. It stops only when the sender is gone, and with the last set seen;
      and a gone sender ends any wait on the last set. */
  lemma NeverRestsOnOldSet(sent: ValidatorSet, version: nat, actions: seq<Action>)
    requires Runs(Start(sent, version), actions)
    ensures var st := After(Start(sent, version), actions);
      && (Awaiting(st.phase) ==> st.vset == LastSent(sent, actions) || Enabled(st, Change))
      && (st.phase.Stopped? ==> Close in actions && st.vset == LastSent(sent, actions))
      && (Awaiting(st.phase) && Close in actions ==> Enabled(st, Change) || Enabled(st, Disconnect))
  {
    InvRun(Start(sent, version), actions);
    ChannelHolds(Start(sent, version), actions);
  }

  /** Between rounds, and when all is done, what remains is exactly what is due: the keys listed, and
      only with ADNL addresses, of which none has been recorded. The resolver sleeps only if there is
      one, and is done only if there is none. */
  lemma RemainingIsDue(sent: ValidatorSet, version: nat, actions: seq<Action>)
    requires Runs(Start(sent, version), actions)
    ensures var st := After(Start(sent, version), actions);
      && (st.phase.Sleeping? || st.phase.Resolved? ==> forall k :: k in st.remaining <==> IsDue(st, k))
      && (st.phase.Sleeping? ==> exists k :: IsDue(st, k))
      && (st.phase.Resolved? ==> forall k :: !IsDue(st, k))
  {
    InvRun(Start(sent, version), actions);
    var st := After(Start(sent, version), actions);
    if st.phase.Sleeping? || st.phase.Resolved? {
      assert st.lookups == [];
      forall k ensures k in st.remaining <==> IsDue(st, k) { }
      if st.phase.Sleeping? {
        var k :| k in st.remaining;
        assert IsDue(st, k);
      }
    }
  }

  // ----- what is recorded -----

  /** The state after the first n actions of a run. */
  ghost function StateAt(st: State, actions: seq<Action>, n: nat): State
    requires Runs(st, actions) && n <= |actions|
    decreases |actions|
  {
    if n == 0 then st else StateAt(Next(st, actions[0]), actions[1..], n - 1)
  }

  lemma {:induction false} StateNext(st: State, actions: seq<Action>, n: nat)
    requires Runs(st, actions) && n < |actions|
    ensures Enabled(StateAt(st, actions, n), actions[n])
    ensures StateAt(st, actions, n + 1) == Next(StateAt(st, actions, n), actions[n])
    decreases |actions|
  {
    if n == 0 {
      assert StateAt(Next(st, actions[0]), actions[1..], 0) == Next(st, actions[0]);
    } else {
      StateNext(Next(st, actions[0]), actions[1..], n - 1);
    }
  }

  lemma {:induction false} StateLast(st: State, actions: seq<Action>)
    requires Runs(st, actions)
    ensures StateAt(st, actions, |actions|) == After(st, actions)
    decreases |actions|
  {
    if actions != [] { StateLast(Next(st, actions[0]), actions[1..]); }
  }

  /** Action i sent a set, and nothing since, among the first n actions, took a set in hand. */
  ghost predicate SentSinceTaken(st: State, actions: seq<Action>, n: nat, i: nat)
    requires Runs(st, actions) && n <= |actions|
  {
    && i < n && actions[i].Send?
    && forall j | i < j < n :: !(actions[j].Advance? && StateAt(st, actions, j).phase.Borrowing?)
  }

  lemma {:induction false} UnseenIsNewer(st: State, actions: seq<Action>, n: nat)
    requires Runs(st, actions) && n <= |actions| && st.phase.Borrowing?
    ensures var s := StateAt(st, actions, n);
      !s.phase.Borrowing? && s.version > s.seen ==> exists i :: SentSinceTaken(st, actions, n, i)
  {
    if n > 0 {
      var m := n - 1;
      var s := StateAt(st, actions, n);
      UnseenIsNewer(st, actions, m);
      StateNext(st, actions, m);
      if !s.phase.Borrowing? && s.version > s.seen {
        if actions[m].Send? {
          assert SentSinceTaken(st, actions, n, m);
        } else {
          var i :| SentSinceTaken(st, actions, m, i);
          assert SentSinceTaken(st, actions, n, i);
        }
      }
    }
  }

  /** A resolution is dropped only for a set sent since the one in hand was taken: no set is resolved
      twice over. */
  lemma DroppedOnlyForNewer(sent: ValidatorSet, version: nat, actions: seq<Action>)
    requires Runs(Start(sent, version), actions) && Enabled(After(Start(sent, version), actions), Change)
    ensures exists i :: SentSinceTaken(Start(sent, version), actions, |actions|, i)
  {
    StateLast(Start(sent, version), actions);
    UnseenIsNewer(Start(sent, version), actions, |actions|);
  }

  /** In state st this action answers a lookup of key k, under ADNL address `adnl`, with `address`. */
  predicate Finds(st: State, a: Action, k: PublicKey, adnl: Adnl, address: Address) {
    && a.Answer? && a.address == Some(address) && a.i < |st.lookups|
    && st.lookups[a.i].key == k && st.lookups[a.i].adnl == adnl
  }

  /** In state st this action clears the addresses, or finds one for key k. */
  ghost predicate Overwrites(st: State, a: Action, k: PublicKey) {
    (a.Advance? && st.phase.Clearing?) || exists adnl, address :: Finds(st, a, k, adnl, address)
  }

  /** Action i of the run found this, and nothing since, among the first n actions, cleared or found
      for the same key. */
  ghost predicate FoundLast(st: State, actions: seq<Action>, n: nat, i: nat, k: PublicKey, f: Found)
    requires Runs(st, actions) && n <= |actions|
  {
    && i < n && Finds(StateAt(st, actions, i), actions[i], k, f.adnl, f.address)
    && forall j | i < j < n :: !Overwrites(StateAt(st, actions, j), actions[j], k)
  }

  /** What a step does to the record of one key. */
  lemma RecordStep(st: State, a: Action, k: PublicKey)
    requires Enabled(st, a)
    ensures !Overwrites(st, a, k) ==>
      (k in Next(st, a).ips <==> k in st.ips) && (k in st.ips ==> Next(st, a).ips[k] == st.ips[k])
    ensures a.Advance? && st.phase.Clearing? ==> k !in Next(st, a).ips
    ensures forall adnl, address | Finds(st, a, k, adnl, address) ::
      k in Next(st, a).ips && Next(st, a).ips[k] == Found(adnl, address)
  {
    if a.Answer? && a.address.Some? {
      var l := st.lookups[a.i];
      assert Finds(st, a, l.key, l.adnl, a.address.value);
    }
  }

  /** The record after n actions: an address is recorded for a key exactly if it is the last one found
      for it, by an answer to a lookup of that key, since the last clear. */
  lemma {:induction false} RecordAt(st: State, actions: seq<Action>, n: nat, k: PublicKey, f: Found)
    requires Runs(st, actions) && n <= |actions| && k !in st.ips
    ensures k in StateAt(st, actions, n).ips && StateAt(st, actions, n).ips[k] == f
      <==> exists i :: FoundLast(st, actions, n, i, k, f)
  {
    if n > 0 {
      var m := n - 1;
      var s, a := StateAt(st, actions, m), actions[m];
      RecordAt(st, actions, m, k, f);
      StateNext(st, actions, m);
      RecordStep(s, a, k);
      if Overwrites(s, a, k) {
        forall i | FoundLast(st, actions, n, i, k, f) ensures i == m { }
        if Finds(s, a, k, f.adnl, f.address) { assert FoundLast(st, actions, n, m, k, f); }
      } else {
        forall i: nat ensures FoundLast(st, actions, n, i, k, f) <==> FoundLast(st, actions, m, i, k, f) { }
      }
    }
  }

  /** Over all epochs and cancellations: exactly the last address found for a key since the last clear
      is recorded for it, under the ADNL address it was looked up by. */
  lemma RecordedIsLastFound(sent: ValidatorSet, version: nat, actions: seq<Action>, k: PublicKey, f: Found)
    requires Runs(Start(sent, version), actions)
    ensures var st := After(Start(sent, version), actions);
      k in st.ips && st.ips[k] == f
      <==> exists i :: FoundLast(Start(sent, version), actions, |actions|, i, k, f)
  {
    StateLast(Start(sent, version), actions);
    RecordAt(Start(sent, version), actions, |actions|, k, f);
  }
}
