/** The map of shards that the exporter reports, while the shard tree splits and merges under it. */
module ShardRegistry {
  import opened Words
  import opened ShardTags
  import opened ShardStates
  import opened ShortNames

  // ----- what one update does to the map -----

  /** The update of one entry, or its insertion. */
  function Applied(c: map<u64, Entry>, s: ShardChainStats): map<u64, Entry> {
    c[s.shardTag := if s.shardTag in c then Updated(c[s.shardTag], s) else NewEntry(s)]
  }

  /** The keys that a block after a split or a merge makes outdated. */
  function Outdated(keys: set<u64>, prevIds: seq<u64>, limit: nat): set<u64> {
    if |prevIds| == 1 then
      match Split(prevIds[0], limit)
      case Some((left, right)) => if left in keys && right in keys then {prevIds[0]} else {}
      case None => {}
    else
      set p | p in prevIds
  }

  function Forced(c: map<u64, Entry>, s: ShardChainStats, prevIds: seq<u64>, limit: nat): map<u64, Entry> {
    var a := Applied(c, s);
    a - Outdated(a.Keys, prevIds, limit)
  }

  // ----- sequences of calls -----

  /** A call: a plain update, or one after a split or merge. */
  datatype Call = Update(stats: ShardChainStats) | ForceUpdate(stats: ShardChainStats, prevIds: seq<u64>)

  function Called(c: map<u64, Entry>, call: Call, limit: nat): map<u64, Entry> {
    match call
    case Update(s) => Applied(c, s)
    case ForceUpdate(s, prevIds) => Forced(c, s, prevIds, limit)
  }

  /** The map after a sequence of calls. */
  function MapAfter(calls: seq<Call>, limit: nat): map<u64, Entry> {
    if calls == [] then map[] else
      Called(MapAfter(calls[..|calls| - 1], limit), calls[|calls| - 1], limit)
  }

  lemma OneMoreCall(calls: seq<Call>, call: Call, limit: nat)
    ensures MapAfter(calls + [call], limit) == Called(MapAfter(calls, limit), call, limit)
  {
    assert (calls + [call])[..|calls|] == calls;
  }

  class MetricsState {
    var shards: map<u64, ShardState>
    ghost var calls: seq<Call>
    /** Shards whose lowest set bit is at most this refuse to split. */
    const splitLimit: nat

    ghost predicate Valid()
      reads this`shards
    {
      && (forall t, u | t in shards && u in shards && t != u :: shards[t] != shards[u])
      && (forall t | t in shards :: shards[t].shortName == MakeShortShardName(t))
    }

    ghost function Footprint(): set<ShardState>
      reads this`shards
    {
      set t | t in shards :: shards[t]
    }

    ghost function Contents(): map<u64, Entry>
      reads this`shards, Footprint()
    {
      map t | t in shards :: shards[t].Snapshot()
    }

    /** The entries are those that the calls so far leave. */
    ghost predicate InStep()
      reads this, Footprint()
    {
      Contents() == MapAfter(calls, splitLimit)
    }

    constructor (splitLimit: nat)
      ensures Valid() && InStep() && calls == [] && shards == map[] && this.splitLimit == splitLimit
    {
      shards := map[];
      calls := [];
      this.splitLimit := splitLimit;
    }

    /** What both kinds of call do first. */
    method UpdateOrInsert(stats: ShardChainStats)
      requires Valid()
      modifies this`shards, Footprint()
      ensures Valid() && fresh(Footprint() - old(Footprint()))
      ensures Contents() == Applied(old(Contents()), stats)
    {
      var tag := stats.shardTag;
      ghost var before := Contents();
      if tag in shards {
        ghost var updated := Updated(before[tag], stats);
        shards[tag].Update(stats);
        assert Contents() == before[tag := updated];
      } else {
        Insert(stats);
      }
    }

    method UpdateShardChainStats(stats: ShardChainStats)
      requires Valid()
      modifies this, Footprint()
      ensures Valid() && fresh(Footprint() - old(Footprint()))
      ensures Contents() == Applied(old(Contents()), stats)
      ensures calls == old(calls) + [Update(stats)]
      ensures old(InStep()) ==> InStep()
    {
      OneMoreCall(calls, Update(stats), splitLimit);
      UpdateOrInsert(stats);
      calls := calls + [Update(stats)];
    }

    method Insert(stats: ShardChainStats)
      requires Valid() && stats.shardTag !in shards
      modifies this`shards
      ensures Valid() && fresh(Footprint() - old(Footprint()))
      ensures Contents() == old(Contents())[stats.shardTag := NewEntry(stats)]
    {
      ghost var before := Contents();
      var shard := new ShardState(stats);
      shards := shards[stats.shardTag := shard];
      assert Contents() == before[stats.shardTag := NewEntry(stats)];
    }

    method RemoveAll(ids: seq<u64>)
      modifies this`shards
      ensures shards == old(shards) - (set p | p in ids)
    {
      for i := 0 to |ids|
        invariant shards == old(shards) - (set p | p in ids[..i])
      {
        shards := shards - {ids[i]};
        assert ids[..i + 1] == ids[..i] + [ids[i]];
      }
      assert ids[..|ids|] == ids;
    }

    method RemoveOutdated(prevIds: seq<u64>)
      requires Valid()
      modifies this`shards
      ensures Valid() && Footprint() <= old(Footprint())
      ensures Contents() == old(Contents()) - Outdated(old(shards).Keys, prevIds, splitLimit)
      ensures shards == old(shards) - Outdated(old(shards).Keys, prevIds, splitLimit)
    {
      if |prevIds| == 1 {
        var halves := Split(prevIds[0], splitLimit);
        if halves.Some? && halves.value.0 in shards && halves.value.1 in shards {
          shards := shards - {prevIds[0]};
        }
      } else {
        RemoveAll(prevIds);
      }
      Fewer(Outdated(old(shards).Keys, prevIds, splitLimit));
    }

    /** Fewer shards are still distinct, and hold what they held. */
    twostate lemma Fewer(gone: set<u64>)
      requires old(Valid()) && shards == old(shards) - gone
      requires forall t | t in old(shards) :: unchanged(old(shards[t]))
      ensures Valid() && Footprint() <= old(Footprint())
      ensures Contents() == old(Contents()) - gone
    {
    }

    /** A forced call: under one write lock, so in one go. */
    method ReplaceOutdated(stats: ShardChainStats, prevIds: seq<u64>)
      requires Valid()
      modifies this`shards, Footprint()
      ensures Valid() && fresh(Footprint() - old(Footprint()))
      ensures Contents() == Forced(old(Contents()), stats, prevIds, splitLimit)
    {
      UpdateOrInsert(stats);
      RemoveOutdated(prevIds);
    }

    method ForceUpdateShardChainStats(stats: ShardChainStats, prevIds: seq<u64>)
      requires Valid()
      modifies this, Footprint()
      ensures Valid() && fresh(Footprint() - old(Footprint()))
      ensures Contents() == Forced(old(Contents()), stats, prevIds, splitLimit)
      ensures calls == old(calls) + [ForceUpdate(stats, prevIds)]
      ensures old(InStep()) ==> InStep()
    {
      OneMoreCall(calls, ForceUpdate(stats, prevIds), splitLimit);
      ghost var more := calls + [ForceUpdate(stats, prevIds)];
      ghost var contents := MapAfter(more, splitLimit);
      ReplaceOutdated(stats, prevIds);
      assert old(InStep()) ==> Contents() == contents;
      calls := more;
    }
  }

  // ----- what every entry tells -----

  /** A call leaves every other shard's entry as it is, or, if forced, removes it. */
  lemma OthersUntouched(c: map<u64, Entry>, call: Call, limit: nat, t: u64)
    requires t != call.stats.shardTag
    ensures t in Called(c, call, limit) ==> t in c && Called(c, call, limit)[t] == c[t]
    ensures call.Update? ==> (t in c <==> t in Called(c, call, limit))
  {
  }

  /** The blocks of one shard among these calls. */
  function BlocksOf(calls: seq<Call>, t: u64): seq<ShardChainStats> {
    if calls == [] then [] else
      var s := calls[|calls| - 1].stats;
      BlocksOf(calls[..|calls| - 1], t) + if s.shardTag == t then [s] else []
  }

  /** Call i does not remove shard t: where it was, or is inserted, it is afterwards. */
  predicate Keeps(calls: seq<Call>, limit: nat, i: nat, t: u64)
    requires i < |calls|
  {
    t in MapAfter(calls[..i], limit) || calls[i].stats.shardTag == t ==> t in MapAfter(calls[..i + 1], limit)
  }

  ghost predicate NeverRemoved(calls: seq<Call>, limit: nat, j: nat, t: u64) {
    forall i | j <= i < |calls| :: Keeps(calls, limit, i, t)
  }

  lemma KeepsInPrefix(calls: seq<Call>, limit: nat, n: nat, i: nat, t: u64)
    requires i < n <= |calls|
    ensures Keeps(calls[..n], limit, i, t) <==> Keeps(calls, limit, i, t)
  {
    assert calls[..n][..i] == calls[..i] && calls[..n][..i + 1] == calls[..i + 1];
  }

  /** Since call j, before which it was not in the map, shard t was not removed. */
  ghost predicate KeptSince(calls: seq<Call>, limit: nat, j: nat, t: u64) {
    j <= |calls| && t !in MapAfter(calls[..j], limit) && NeverRemoved(calls, limit, j, t)
  }

  lemma NeverRemovedBefore(calls: seq<Call>, limit: nat, j: nat, t: u64)
    requires calls != [] && NeverRemoved(calls, limit, j, t)
    ensures NeverRemoved(calls[..|calls| - 1], limit, j, t)
  {
    var n := |calls| - 1;
    forall i | j <= i < n ensures Keeps(calls[..n], limit, i, t) {
      assert Keeps(calls, limit, i, t);
      KeepsInPrefix(calls, limit, n, i, t);
    }
  }

  lemma AbsentInPrefix(calls: seq<Call>, limit: nat, j: nat, t: u64)
    requires j < |calls|
    ensures t in MapAfter(calls[..|calls| - 1][..j], limit) <==> t in MapAfter(calls[..j], limit)
  {
    assert calls[..|calls| - 1][..j] == calls[..j];
  }

  lemma LastKeeps(calls: seq<Call>, limit: nat, t: u64)
    requires calls != []
    ensures Keeps(calls, limit, |calls| - 1, t)
      <==> (t in MapAfter(calls[..|calls| - 1], limit) || calls[|calls| - 1].stats.shardTag == t
            ==> t in MapAfter(calls, limit))
  {
    assert calls[..|calls| - 1 + 1] == calls;
  }

  lemma KeptBefore(calls: seq<Call>, limit: nat, j: nat, t: u64)
    requires calls != [] && j < |calls| && KeptSince(calls, limit, j, t)
    ensures KeptSince(calls[..|calls| - 1], limit, j, t) && Keeps(calls, limit, |calls| - 1, t)
  {
    AbsentInPrefix(calls, limit, j, t);
    NeverRemovedBefore(calls, limit, j, t);
  }

  lemma LastCall(c: map<u64, Entry>, call: Call, limit: nat, t: u64, blocks: seq<ShardChainStats>)
    requires t in c <==> blocks != []
    requires t in c ==> Tells(c[t], blocks)
    requires t in Called(c, call, limit)
    ensures Tells(Called(c, call, limit)[t], blocks + if call.stats.shardTag == t then [call.stats] else [])
  {
    if call.stats.shardTag != t {
      OthersUntouched(c, call, limit, t);
      assert blocks + [] == blocks;
    } else if t in c {
      UpdateTells(c[t], blocks, call.stats);
    } else {
      NewEntryTells(call.stats);
      assert blocks + [call.stats] == [call.stats];
    }
  }

  /** While a shard is not removed, its entry tells of all its blocks, in the order of the calls,
      whatever calls for other shards stand between them. */
  lemma {:induction false} EntryTellsItsBlocks(calls: seq<Call>, limit: nat, j: nat, t: u64)
    requires KeptSince(calls, limit, j, t)
    ensures t in MapAfter(calls, limit) <==> BlocksOf(calls[j..], t) != []
    ensures t in MapAfter(calls, limit) ==> Tells(MapAfter(calls, limit)[t], BlocksOf(calls[j..], t))
  {
    if j == |calls| {
      assert calls[..j] == calls;
    } else {
      var before, last := calls[..|calls| - 1], calls[|calls| - 1];
      KeptBefore(calls, limit, j, t);
      LastKeeps(calls, limit, t);
      EntryTellsItsBlocks(before, limit, j, t);
      assert calls[j..][..|calls[j..]| - 1] == before[j..];
      if t in MapAfter(calls, limit) {
        if last.stats.shardTag != t { OthersUntouched(MapAfter(before, limit), last, limit, t); }
        LastCall(MapAfter(before, limit), last, limit, t, BlocksOf(before[j..], t));
      }
    }
  }

  lemma NeverRemovedOn(calls: seq<Call>, limit: nat, j: nat, t: u64)
    requires calls != [] && t in MapAfter(calls, limit) && NeverRemoved(calls[..|calls| - 1], limit, j, t)
    ensures NeverRemoved(calls, limit, j, t)
  {
    var n := |calls| - 1;
    forall i | j <= i < n ensures Keeps(calls, limit, i, t) {
      assert Keeps(calls[..n], limit, i, t);
      KeepsInPrefix(calls, limit, n, i, t);
    }
    LastKeeps(calls, limit, t);
  }

  lemma KeptOn(calls: seq<Call>, limit: nat, j: nat, t: u64)
    requires calls != [] && t in MapAfter(calls, limit) && KeptSince(calls[..|calls| - 1], limit, j, t)
    ensures KeptSince(calls, limit, j, t)
  {
    assert calls[..|calls| - 1][..j] == calls[..j];
    NeverRemovedOn(calls, limit, j, t);
  }

  /** When a shard in the map was last not in it. */
  lemma {:induction false} LastAbsent(calls: seq<Call>, limit: nat, t: u64) returns (j: nat)
    requires t in MapAfter(calls, limit)
    ensures KeptSince(calls, limit, j, t)
  {
    var before := calls[..|calls| - 1];
    if t in MapAfter(before, limit) {
      j := LastAbsent(before, limit, t);
    } else {
      j := |before|;
      assert before[..j] == before;
    }
    KeptOn(calls, limit, j, t);
  }

  /** So after any calls every entry of the map tells of exactly the blocks of its shard since the
      shard was last not in the map. */
  lemma EveryEntryTells(calls: seq<Call>, limit: nat, t: u64)
    requires t in MapAfter(calls, limit)
    ensures exists j: nat :: KeptSince(calls, limit, j, t) && Tells(MapAfter(calls, limit)[t], BlocksOf(calls[j..], t))
  {
    var j := LastAbsent(calls, limit, t);
    EntryTellsItsBlocks(calls, limit, j, t);
  }
}
