/** The shard map against the shard tree: exactly when the keys of the map are what the tree says
    they should be, over every run of splits, merges and blocks. */
module ShardTrees {
  import opened Words
  import opened ShardTags
  import opened ShardCoverage

  /** The tree as the chain sees it. `live` are its leaves; `waiting` are split shards whose
      halves have not both reported; `unseen` are the halves that have not. `blocks` counts the
      blocks seen of each live or waiting shard since it came into being. */
  datatype Tree = Tree(live: set<u64>, waiting: set<u64>, unseen: set<u64>, blocks: map<u64, nat>)

  datatype TreeEvent =
    | SplitShard(parent: u64)              // no block yet
    | FirstBlock(shard: u64, parent: u64)  // first block of a half, after the split
    | NextBlock(shard: u64)
    | MergeShards(parent: u64)             // first block of the merged shard

  predicate HalfOfWaiting(t: Tree, s: u64) {
    exists p | p in t.waiting :: IsHalf(s, p)
  }

  /** What the chain may do next: a shard has had a block of its own before it splits or merges. */
  predicate Enabled(t: Tree, e: TreeEvent, limit: nat) {
    match e
    case SplitShard(p) =>
      p in t.live && p !in t.unseen && Split(p, limit).Some?
    case FirstBlock(c, p) =>
      p in t.waiting && c in t.unseen && IsHalf(c, p)
    case NextBlock(s) =>
      s in t.live && s !in t.unseen
    case MergeShards(p) =>
      && Splittable(p) && Left(p) in t.live && Right(p) in t.live
      && Left(p) !in t.unseen && Right(p) !in t.unseen
  }

  function Next(t: Tree, e: TreeEvent, limit: nat): Tree
    requires Enabled(t, e, limit) && t.blocks.Keys == t.live + t.waiting
  {
    match e
    case SplitShard(p) =>
      Tree(t.live - {p} + {Left(p), Right(p)}, t.waiting + {p}, t.unseen + {Left(p), Right(p)},
           t.blocks[Left(p) := 0][Right(p) := 0])
    case FirstBlock(c, p) =>
      var unseen := t.unseen - {c};
      if Sibling(c, p) in unseen then
        Tree(t.live, t.waiting, unseen, t.blocks[c := 1])
      else
        Tree(t.live, t.waiting - {p}, unseen, t.blocks[c := 1] - {p})
    case NextBlock(s) =>
      t.(blocks := t.blocks[s := t.blocks[s] + 1])
    case MergeShards(p) =>
      Tree(t.live - {Left(p), Right(p)} + {p}, t.waiting, t.unseen,
           (t.blocks - {Left(p), Right(p)})[p := 1])
  }

  /** The block that the registry sees, if there is one. */
  function Observed(keys: set<u64>, e: TreeEvent, limit: nat): set<u64>
    requires e.MergeShards? ==> Splittable(e.parent)
  {
    match e
    case SplitShard(_) => keys
    case FirstBlock(c, p) => KeysAfter(keys, Forced(c, [p]), limit)
    case NextBlock(s) => KeysAfter(keys, Plain(s), limit)
    case MergeShards(p) => KeysAfter(keys, Forced(p, [Left(p), Right(p)]), limit)
  }

  /** The reported leaves, and the reported parents still waiting for a half. */
  function Reported(t: Tree): set<u64> {
    set s | s in t.blocks && t.blocks[s] > 0
  }

  predicate Overlap(s: u64, t: u64, x: int) { Covers(s, x) && Covers(t, x) }

  ghost predicate PairwiseDisjoint(keys: set<u64>) {
    forall s, t, x: int | s in keys && t in keys && s != t :: !Overlap(s, t, x)
  }

  ghost predicate LeavesOk(t: Tree) {
    && t.blocks.Keys == t.live + t.waiting
    && PairwiseDisjoint(t.live)
    && (forall s | s in t.live :: s > 0)
  }

  ghost predicate WaitingOk(t: Tree, limit: nat) {
    forall p | p in t.waiting :: Split(p, limit).Some? && (Left(p) in t.unseen || Right(p) in t.unseen)
  }

  ghost predicate UnseenOk(t: Tree) {
    forall s | s in t.unseen :: s in t.live && HalfOfWaiting(t, s) && (s in t.blocks ==> t.blocks[s] == 0)
  }

  ghost predicate Valid(t: Tree, limit: nat) {
    LeavesOk(t) && WaitingOk(t, limit) && UnseenOk(t)
  }

  /** A half of a waiting shard that is still a leaf. */
  function UnseenHalf(t: Tree, p: u64): (c: u64)
    requires Splittable(p)
    ensures IsHalf(c, p)
  {
    if Left(p) in t.unseen then Left(p) else Right(p)
  }

  /** A waiting shard is no leaf. */
  lemma WaitingNotLive(t: Tree, limit: nat, p: u64)
    requires Valid(t, limit) && p in t.waiting
    ensures p !in t.live
  {
    var c := UnseenHalf(t, p);
    HalfWithin(c, p);
    CoversItself(c);
    if p in t.live { assert Overlap(p, c, c); }
  }

  /** The halves of a leaf are neither leaves nor waiting. */
  lemma HalvesNew(t: Tree, limit: nat, p: u64, c: u64)
    requires Valid(t, limit) && p in t.live && IsHalf(c, p)
    ensures c !in t.live && c !in t.waiting
  {
    HalfWithin(c, p);
    CoversItself(c);
    if c in t.live { assert Overlap(p, c, c); }
    if c in t.waiting {
      var d := UnseenHalf(t, c);
      HalfWithin(d, c);
      CoversItself(d);
      HalvesSmaller(c);
      HalvesSmaller(p);
      assert Overlap(p, d, d);
    }
  }

  lemma HalvesSmaller(p: u64)
    requires Splittable(p)
    ensures LowBit(Left(p)) < LowBit(p) && LowBit(Right(p)) < LowBit(p)
  {
    HalvesPartition(p);
  }

  lemma SplitKeepsDisjoint(live: set<u64>, p: u64)
    requires PairwiseDisjoint(live) && p in live && Splittable(p)
    ensures PairwiseDisjoint(live - {p} + {Left(p), Right(p)})
  {
    HalvesPartition(p);
    forall s, t, x: int | s in live - {p} + {Left(p), Right(p)} && t in live - {p} + {Left(p), Right(p)} && s != t
      ensures !Overlap(s, t, x)
    {
      var s', t' := if s in live - {p} then s else p, if t in live - {p} then t else p;
      if s' != t' { assert !Overlap(s', t', x); }
    }
  }

  lemma MergeKeepsDisjoint(live: set<u64>, p: u64)
    requires PairwiseDisjoint(live) && Splittable(p) && Left(p) in live && Right(p) in live
    ensures PairwiseDisjoint(live - {Left(p), Right(p)} + {p})
  {
    HalvesPartition(p);
    forall s, t, x: int | s in live - {Left(p), Right(p)} + {p} && t in live - {Left(p), Right(p)} + {p} && s != t
      ensures !Overlap(s, t, x)
    {
      var s' := if s != p then s else if Covers(Left(p), x) then Left(p) else Right(p);
      var t' := if t != p then t else if Covers(Left(p), x) then Left(p) else Right(p);
      assert !Overlap(s', t', x);
    }
  }

  /** A merged shard was not there before. */
  lemma MergedNew(t: Tree, limit: nat, p: u64)
    requires Valid(t, limit) && Enabled(t, MergeShards(p), limit)
    ensures p !in t.live && p !in t.waiting
  {
    HalvesPartition(p);
    CoversItself(Left(p));
    if p in t.live { assert Overlap(p, Left(p), Left(p)); }
    assert IsHalf(Left(p), p);
  }

  lemma StillHalves(t: Tree, n: Tree)
    requires t.waiting <= n.waiting
    ensures forall s | HalfOfWaiting(t, s) :: HalfOfWaiting(n, s)
  {
    forall s | HalfOfWaiting(t, s) ensures HalfOfWaiting(n, s) {
      var q :| q in t.waiting && IsHalf(s, q);
      assert q in n.waiting;
    }
  }

  lemma SplitLeaves(t: Tree, p: u64, limit: nat)
    requires Valid(t, limit) && Enabled(t, SplitShard(p), limit)
    ensures LeavesOk(Next(t, SplitShard(p), limit))
    ensures Reported(Next(t, SplitShard(p), limit)) == Reported(t)
  {
    HalvesPartition(p);
    HalvesNew(t, limit, p, Left(p));
    HalvesNew(t, limit, p, Right(p));
    SplitKeepsDisjoint(t.live, p);
  }

  lemma SplitStep(t: Tree, p: u64, limit: nat)
    requires Valid(t, limit) && Enabled(t, SplitShard(p), limit)
    ensures Valid(Next(t, SplitShard(p), limit), limit)
    ensures Reported(Next(t, SplitShard(p), limit)) == Reported(t)
  {
    var n := Next(t, SplitShard(p), limit);
    SplitLeaves(t, p, limit);
    StillHalves(t, n);
    assert p in n.waiting && IsHalf(Left(p), p) && IsHalf(Right(p), p);
  }

  /** A shard is a half of one parent only. */
  lemma ParentUnique(c: u64, p: u64, q: u64)
    requires IsHalf(c, p) && IsHalf(c, q)
    ensures p == q
  {
    HalvesPartition(p);
    HalvesPartition(q);
    if p < q { ParentsApart(p, q); }
    if q < p { ParentsApart(q, p); }
  }

  /** Neighbouring tags of one level are two lengths apart. */
  lemma {:induction false} ParentsApart(p: nat, q: nat)
    requires 0 < p < q && LowBit(p) == LowBit(q)
    ensures q - p >= 2 * LowBit(p)
  {
    if p % 2 == 0 { ParentsApart(p / 2, q / 2); }
  }

  /** The condition under which a block leaves the map exact. It can be read off the map before the
      block: at the first block of the second half of a reported shard, the other half is there. */
  predicate Prompt(t: Tree, e: TreeEvent) {
    e.FirstBlock? && IsHalf(e.shard, e.parent) && Sibling(e.shard, e.parent) !in t.unseen && e.parent in Reported(t)
    ==> Sibling(e.shard, e.parent) in Reported(t)
  }

  lemma FirstBlockValid(t: Tree, c: u64, p: u64, limit: nat)
    requires Valid(t, limit) && Enabled(t, FirstBlock(c, p), limit)
    ensures Valid(Next(t, FirstBlock(c, p), limit), limit)
  {
    var n := Next(t, FirstBlock(c, p), limit);
    WaitingNotLive(t, limit, p);
    forall q | q in t.waiting && q != p ensures !IsHalf(c, q) {
      if IsHalf(c, q) { ParentUnique(c, p, q); }
    }
    HalvesPartition(p);
    forall s | s in n.unseen ensures HalfOfWaiting(n, s) {
      var q :| q in t.waiting && IsHalf(s, q);
      assert q in n.waiting;
    }
  }

  lemma FirstBlockKeys(t: Tree, c: u64, p: u64, limit: nat)
    requires Valid(t, limit) && Enabled(t, FirstBlock(c, p), limit)
    ensures Reported(Next(t, FirstBlock(c, p), limit)) == Observed(Reported(t), FirstBlock(c, p), limit)
      <==> Prompt(t, FirstBlock(c, p))
  {
    var n := Next(t, FirstBlock(c, p), limit);
    var b := Sibling(c, p);
    var keys := Reported(t);
    HalvesPartition(p);
    WaitingNotLive(t, limit, p);
    assert Observed(keys, FirstBlock(c, p), limit) == keys + {c} - if b in keys then {p} else {};
    assert Reported(n) == keys + {c} - if b in t.unseen then {} else {p};
  }

  lemma MergeLeaves(t: Tree, p: u64, limit: nat)
    requires Valid(t, limit) && Enabled(t, MergeShards(p), limit)
    ensures LeavesOk(Next(t, MergeShards(p), limit))
  {
    MergedNew(t, limit, p);
    HalvesPartition(p);
    forall q | q in t.waiting ensures q != Left(p) && q != Right(p) { WaitingNotLive(t, limit, q); }
    MergeKeepsDisjoint(t.live, p);
  }

  lemma MergeStep(t: Tree, p: u64, limit: nat)
    requires Valid(t, limit) && Enabled(t, MergeShards(p), limit)
    ensures Valid(Next(t, MergeShards(p), limit), limit)
    ensures Reported(Next(t, MergeShards(p), limit)) == Observed(Reported(t), MergeShards(p), limit)
  {
    MergeLeaves(t, p, limit);
    MergedNew(t, limit, p);
    StillHalves(t, Next(t, MergeShards(p), limit));
    HalvesPartition(p);
    assert Observed(Reported(t), MergeShards(p), limit) == Reported(t) + {p} - {Left(p), Right(p)};
  }

  lemma NextBlockStep(t: Tree, s: u64, limit: nat)
    requires Valid(t, limit) && Enabled(t, NextBlock(s), limit)
    ensures Valid(Next(t, NextBlock(s), limit), limit)
    ensures Reported(Next(t, NextBlock(s), limit)) == Observed(Reported(t), NextBlock(s), limit)
  {
    StillHalves(t, Next(t, NextBlock(s), limit));
  }

  /** One event, whatever it is, keeps the tree a tree, and keeps the map in step with it exactly
      under the condition. */
  lemma Step(t: Tree, e: TreeEvent, limit: nat)
    requires Valid(t, limit) && Enabled(t, e, limit)
    ensures Valid(Next(t, e, limit), limit)
    ensures Reported(Next(t, e, limit)) == Observed(Reported(t), e, limit) <==> Prompt(t, e)
  {
    match e
    case SplitShard(p) => SplitStep(t, p, limit);
    case FirstBlock(c, p) =>
      FirstBlockValid(t, c, p, limit);
      FirstBlockKeys(t, c, p, limit);
    case MergeShards(p) => MergeStep(t, p, limit);
    case NextBlock(s) => NextBlockStep(t, s, limit);
  }

  // ----- runs -----

  /** A run the chain may take from this tree. */
  ghost predicate Follows(t: Tree, events: seq<TreeEvent>, limit: nat)
    decreases |events|
  {
    events == [] ||
    (&& t.blocks.Keys == t.live + t.waiting && Enabled(t, events[0], limit)
     && Follows(Next(t, events[0], limit), events[1..], limit))
  }

  ghost function TreeAfter(t: Tree, events: seq<TreeEvent>, limit: nat): Tree
    requires Follows(t, events, limit)
    decreases |events|
  {
    if events == [] then t else TreeAfter(Next(t, events[0], limit), events[1..], limit)
  }

  ghost function MapAfter(t: Tree, keys: set<u64>, events: seq<TreeEvent>, limit: nat): set<u64>
    requires Follows(t, events, limit)
    decreases |events|
  {
    if events == [] then keys
    else MapAfter(Next(t, events[0], limit), Observed(keys, events[0], limit), events[1..], limit)
  }

  /** The map is exact now and after every further event. */
  ghost predicate ExactThroughout(t: Tree, keys: set<u64>, events: seq<TreeEvent>, limit: nat)
    requires Follows(t, events, limit)
    decreases |events|
  {
    && keys == Reported(t)
    && (events != [] ==>
          ExactThroughout(Next(t, events[0], limit), Observed(keys, events[0], limit), events[1..], limit))
  }

  /** Every event meets the condition when it comes. */
  ghost predicate AllPrompt(t: Tree, events: seq<TreeEvent>, limit: nat)
    requires Follows(t, events, limit)
    decreases |events|
  {
    events != [] ==> Prompt(t, events[0]) && AllPrompt(Next(t, events[0], limit), events[1..], limit)
  }

  /** Over every run of the chain, early splits and merges included, the map is exact throughout
      exactly if, whenever the second half of a reported shard first reports, the first half is
      still in the map. */
  lemma {:induction false} ExactExactlyIfPrompt(t: Tree, events: seq<TreeEvent>, limit: nat)
    requires Valid(t, limit) && Follows(t, events, limit)
    ensures Valid(TreeAfter(t, events, limit), limit)
    ensures ExactThroughout(t, Reported(t), events, limit) <==> AllPrompt(t, events, limit)
    decreases |events|
  {
    if events != [] {
      Step(t, events[0], limit);
      ExactExactlyIfPrompt(Next(t, events[0], limit), events[1..], limit);
    }
  }

  /** Exact throughout is exact at the end. */
  lemma {:induction false} ExactAtEnd(t: Tree, keys: set<u64>, events: seq<TreeEvent>, limit: nat)
    requires Follows(t, events, limit) && ExactThroughout(t, keys, events, limit)
    ensures MapAfter(t, keys, events, limit) == Reported(TreeAfter(t, events, limit))
    decreases |events|
  {
    if events != [] {
      ExactAtEnd(Next(t, events[0], limit), Observed(keys, events[0], limit), events[1..], limit);
    }
  }

  // ----- no run loses a reported shard -----

  predicate Inside(k: u64, s: u64) { k > 0 && s > 0 && LowBit(k) < LowBit(s) && Covers(s, k) }

  /** No key lies inside a leaf, nor is a half that has yet to report. */
  ghost predicate NoneInside(t: Tree, keys: set<u64>) {
    && (forall k, s | k in keys && s in t.live :: !Inside(k, s))
    && keys !! t.unseen
  }

  lemma {:induction false} InsideWholly(k: nat, s: nat)
    requires k > 0 && s > 0 && LowBit(k) < LowBit(s) && s - LowBit(s) <= k < s + LowBit(s)
    ensures s - LowBit(s) <= k - LowBit(k) && k + LowBit(k) <= s + LowBit(s)
    ensures 2 * LowBit(k) <= LowBit(s)
  {
    if k % 2 == 0 { InsideWholly(k / 2, s / 2); }
  }

  /** What lies inside a shard is one of its halves or lies inside one. */
  lemma InsideHalf(k: u64, p: u64)
    requires Splittable(p) && Inside(k, p)
    ensures IsHalf(k, p) || Inside(k, Left(p)) || Inside(k, Right(p))
  {
    HalvesPartition(p);
    InsideWholly(k, p);
    if LowBit(k) == LowBit(Left(p)) && !IsHalf(k, p) {
      var h := if Covers(Left(p), k) then Left(p) else Right(p);
      if k < h { ParentsApart(k, h); } else { ParentsApart(h, k); }
    }
  }

  /** Tree and map start so when the map is exact. */
  lemma NoneInsideReported(t: Tree, limit: nat)
    requires Valid(t, limit)
    ensures NoneInside(t, Reported(t))
  {
    forall k, s | k in Reported(t) && s in t.live ensures !Inside(k, s) {
      if Inside(k, s) {
        CoversItself(k);
        if k in t.live { assert Overlap(k, s, k); }
        var d := UnseenHalf(t, k);
        HalvesPartition(k);
        CoversItself(d);
        InsideWholly(k, s);
        assert Overlap(d, s, d);
      }
    }
  }

  lemma LiveNotInside(live: set<u64>, k: u64, s: u64)
    requires PairwiseDisjoint(live) && k in live && s in live
    ensures !Inside(k, s)
  {
    if Inside(k, s) {
      CoversItself(k);
      assert Overlap(k, s, k);
    }
  }

  lemma SplitNoneInside(t: Tree, keys: set<u64>, p: u64, limit: nat)
    requires Valid(t, limit) && Enabled(t, SplitShard(p), limit) && NoneInside(t, keys)
    ensures NoneInside(Next(t, SplitShard(p), limit), keys)
  {
    HalvesPartition(p);
    CoversItself(Left(p));
    CoversItself(Right(p));
    assert Inside(Left(p), p) && Inside(Right(p), p);
    forall k, h | k in keys && IsHalf(h, p) ensures !Inside(k, h) {
      assert Inside(k, h) ==> Inside(k, p);
    }
  }

  lemma MergeNoneInside(t: Tree, keys: set<u64>, p: u64, limit: nat)
    requires Valid(t, limit) && Enabled(t, MergeShards(p), limit) && NoneInside(t, keys)
    ensures NoneInside(Next(t, MergeShards(p), limit), Observed(keys, MergeShards(p), limit))
  {
    var n := Next(t, MergeShards(p), limit);
    MergeLeaves(t, p, limit);
    MergedNew(t, limit, p);
    HalvesPartition(p);
    forall k, s | k in Observed(keys, MergeShards(p), limit) && s in n.live ensures !Inside(k, s) {
      if k == p {
        LiveNotInside(n.live, p, s);
      } else if s == p && Inside(k, p) {
        InsideHalf(k, p);
      }
    }
  }

  lemma BlockNoneInside(t: Tree, keys: set<u64>, e: TreeEvent, limit: nat)
    requires Valid(t, limit) && Enabled(t, e, limit) && NoneInside(t, keys) && (e.FirstBlock? || e.NextBlock?)
    ensures NoneInside(Next(t, e, limit), Observed(keys, e, limit))
  {
    forall s | s in t.live ensures !Inside(e.shard, s) { LiveNotInside(t.live, e.shard, s); }
  }

  /** A key is removed only when the tree lets go of it. */
  lemma NeverMissesStep(t: Tree, keys: set<u64>, e: TreeEvent, limit: nat)
    requires Valid(t, limit) && Enabled(t, e, limit) && NoneInside(t, keys) && Reported(t) <= keys
    ensures NoneInside(Next(t, e, limit), Observed(keys, e, limit))
    ensures Reported(Next(t, e, limit)) <= Observed(keys, e, limit)
  {
    match e
    case SplitShard(p) =>
      SplitNoneInside(t, keys, p, limit);
      SplitStep(t, p, limit);
    case MergeShards(p) =>
      MergeNoneInside(t, keys, p, limit);
      MergeStep(t, p, limit);
    case FirstBlock(c, p) =>
      BlockNoneInside(t, keys, e, limit);
      HalvesPartition(p);
      WaitingNotLive(t, limit, p);
    case NextBlock(_) => BlockNoneInside(t, keys, e, limit);
  }

  lemma {:induction false} NeverMisses(t: Tree, keys: set<u64>, events: seq<TreeEvent>, limit: nat)
    requires Valid(t, limit) && NoneInside(t, keys) && Reported(t) <= keys && Follows(t, events, limit)
    ensures Reported(TreeAfter(t, events, limit)) <= MapAfter(t, keys, events, limit)
    decreases |events|
  {
    if events != [] {
      Step(t, events[0], limit);
      NeverMissesStep(t, keys, events[0], limit);
      NeverMisses(Next(t, events[0], limit), Observed(keys, events[0], limit), events[1..], limit);
    }
  }

  /** On every run of the chain, prompt or not, every reported leaf and every reported parent
      still waiting is in the map: all that can go wrong is that a key stays too long. */
  lemma NoShardLost(t: Tree, events: seq<TreeEvent>, limit: nat)
    requires Valid(t, limit) && Follows(t, events, limit)
    ensures Reported(TreeAfter(t, events, limit)) <= MapAfter(t, Reported(t), events, limit)
  {
    NoneInsideReported(t, limit);
    NeverMisses(t, Reported(t), events, limit);
  }

  // ----- runs that leave fresh halves alone -----

  /** No half splits before its sibling has reported. (It cannot merge before that.) */
  predicate Orderly(t: Tree, e: TreeEvent) { e.SplitShard? ==> !HalfOfWaiting(t, e.parent) }

  ghost predicate AllOrderly(t: Tree, events: seq<TreeEvent>, limit: nat)
    requires Follows(t, events, limit)
    decreases |events|
  {
    events != [] ==> Orderly(t, events[0]) && AllOrderly(Next(t, events[0], limit), events[1..], limit)
  }

  /** Every half that has had its first block since its reported parent split is in the map. */
  ghost predicate Tidy(t: Tree) {
    forall p, c | p in t.waiting && p in Reported(t) && IsHalf(c, p) && c !in t.unseen ::
      c in t.live && c in Reported(t)
  }

  /** A half of a waiting shard, once in the map, stays there until the wait is over. */
  lemma HalfStays(t: Tree, e: TreeEvent, limit: nat, p: u64, c: u64)
    requires Valid(t, limit) && Enabled(t, e, limit) && Orderly(t, e)
    requires p in t.waiting && IsHalf(c, p) && c in t.live && c in Reported(t)
    ensures c in Next(t, e, limit).live && c in Reported(Next(t, e, limit))
  {
    assert HalfOfWaiting(t, c);
    match e
    case SplitShard(q) =>
      HalvesNew(t, limit, q, Left(q));
      HalvesNew(t, limit, q, Right(q));
    case FirstBlock(_, q) => WaitingNotLive(t, limit, q);
    case MergeShards(q) => if IsHalf(c, q) { ParentUnique(c, p, q); }
    case NextBlock(_) =>
  }

  lemma ReportedBefore(t: Tree, e: TreeEvent, limit: nat, p: u64)
    requires Valid(t, limit) && Enabled(t, e, limit) && p in t.waiting && p in Reported(Next(t, e, limit))
    ensures p in Reported(t)
  {
    WaitingNotLive(t, limit, p);
    if e.MergeShards? { MergedNew(t, limit, e.parent); }
    if e.SplitShard? { HalvesNew(t, limit, e.parent, Left(e.parent)); }
  }

  lemma TidyHalf(t: Tree, e: TreeEvent, limit: nat, p: u64, c: u64)
    requires Valid(t, limit) && Enabled(t, e, limit) && Tidy(t) && Orderly(t, e)
    requires p in t.waiting && p in Reported(t) && IsHalf(c, p) && c !in Next(t, e, limit).unseen
    ensures c in Next(t, e, limit).live && c in Reported(Next(t, e, limit))
  {
    if c in t.unseen {
      assert e.FirstBlock? && e.shard == c;
      WaitingNotLive(t, limit, e.parent);
    } else {
      HalfStays(t, e, limit, p, c);
    }
  }

  lemma TidyStep(t: Tree, e: TreeEvent, limit: nat)
    requires Valid(t, limit) && Enabled(t, e, limit) && Tidy(t) && Orderly(t, e)
    ensures Prompt(t, e) && Tidy(Next(t, e, limit))
  {
    var n := Next(t, e, limit);
    forall p, c | p in n.waiting && p in Reported(n) && IsHalf(c, p) && c !in n.unseen
      ensures c in n.live && c in Reported(n)
    {
      ReportedBefore(t, e, limit, p);
      TidyHalf(t, e, limit, p, c);
    }
  }

  lemma {:induction false} OrderlyIsPrompt(t: Tree, events: seq<TreeEvent>, limit: nat)
    requires Valid(t, limit) && Tidy(t) && Follows(t, events, limit) && AllOrderly(t, events, limit)
    ensures AllPrompt(t, events, limit)
    decreases |events|
  {
    if events != [] {
      TidyStep(t, events[0], limit);
      Step(t, events[0], limit);
      OrderlyIsPrompt(Next(t, events[0], limit), events[1..], limit);
    }
  }

  /** The exact registry: on such runs the keys of the map are always the reported leaves and the
      reported parents still waiting; with no split waiting they are disjoint. */
  lemma ExactRegistry(t: Tree, events: seq<TreeEvent>, limit: nat)
    requires Valid(t, limit) && Tidy(t) && Follows(t, events, limit) && AllOrderly(t, events, limit)
    ensures ExactThroughout(t, Reported(t), events, limit)
    ensures TreeAfter(t, events, limit).waiting == {} ==>
              PairwiseDisjoint(MapAfter(t, Reported(t), events, limit))
  {
    OrderlyIsPrompt(t, events, limit);
    ExactExactlyIfPrompt(t, events, limit);
    ExactAtEnd(t, Reported(t), events, limit);
  }

  /** From an empty map under any tree, in the middle of splits too, of which the exporter has
      seen no block. */
  lemma ExactRegistryFromEmpty(t: Tree, events: seq<TreeEvent>, limit: nat)
    requires Valid(t, limit) && (forall s | s in t.blocks :: t.blocks[s] == 0)
    requires Follows(t, events, limit) && AllOrderly(t, events, limit)
    ensures ExactThroughout(t, {}, events, limit)
    ensures TreeAfter(t, events, limit).waiting == {} ==> PairwiseDisjoint(MapAfter(t, {}, events, limit))
  {
    assert Reported(t) == {};
    ExactRegistry(t, events, limit);
  }

  // ----- early splits: the same blocks, two outcomes -----

  lemma SmallShards()
    ensures Split(32, 0) == Some((16, 48)) && Split(16, 0) == Some((8, 24))
    ensures LowBit(48) == 16
  {
    assert LowBit(16) == 16;
    assert LowBit(32) == 32;
  }

  /** The two halves of the left half report before the right half does: the parent stays beside
      all that has replaced it. */
  lemma EarlySplitLeavesParent()
    ensures var k3 := KeysAfter(KeysAfter({32}, Forced(16, [32]), 0), Forced(8, [16]), 0);
            KeysAfter(KeysAfter(k3, Forced(24, [16]), 0), Forced(48, [32]), 0) == {32, 8, 24, 48}
  {
    SmallShards();
    var k2 := KeysAfter({32}, Forced(16, [32]), 0);
    assert k2 == {32, 16};
    var k3 := KeysAfter(k2, Forced(8, [16]), 0);
    assert k3 == {32, 16, 8};
    var k4 := KeysAfter(k3, Forced(24, [16]), 0);
    assert k4 == {32, 8, 24};
  }

  /** If only one of them does, the left half is still there when the right half reports. */
  lemma EarlySplitMayBeHarmless()
    ensures var k3 := KeysAfter(KeysAfter({32}, Forced(16, [32]), 0), Forced(8, [16]), 0);
            KeysAfter(KeysAfter(k3, Forced(48, [32]), 0), Forced(24, [16]), 0) == {8, 24, 48}
  {
    SmallShards();
    var k2 := KeysAfter({32}, Forced(16, [32]), 0);
    assert k2 == {32, 16};
    var k3 := KeysAfter(k2, Forced(8, [16]), 0);
    assert k3 == {32, 16, 8};
    var k4 := KeysAfter(k3, Forced(48, [32]), 0);
    assert k4 == {16, 8, 48};
  }
}
