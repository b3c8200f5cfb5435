/** Coverage: whatever the order of the blocks, no account prefix that the shard map covers is
    ever lost. */
module ShardCoverage {
  import opened Words
  import opened ShardTags
  import opened ShardStates
  import opened ShardRegistry

  /** A block as the registry sees it: a plain one, or one after a split or merge, which lists
      its predecessors. */
  datatype Event = Plain(tag: u64) | Forced(tag: u64, prevIds: seq<u64>)

  function KeysAfter(keys: set<u64>, e: Event, limit: nat): set<u64> {
    match e
    case Plain(tag) => keys + {tag}
    case Forced(tag, prevIds) => keys + {tag} - Outdated(keys + {tag}, prevIds, limit)
  }

  function KeysAfterAll(keys: set<u64>, events: seq<Event>, limit: nat): set<u64> {
    if events == [] then keys else
      KeysAfter(KeysAfterAll(keys, events[..|events| - 1], limit), events[|events| - 1], limit)
  }

  /** The events move the keys of the map as the methods do. */
  lemma EventsAreUpdates(c: map<u64, Entry>, s: ShardChainStats, prevIds: seq<u64>, limit: nat)
    ensures Applied(c, s).Keys == KeysAfter(c.Keys, Plain(s.shardTag), limit)
    ensures ShardRegistry.Forced(c, s, prevIds, limit).Keys == KeysAfter(c.Keys, Forced(s.shardTag, prevIds), limit)
  {
  }

  /** All that is asked of a block: unless it has exactly one predecessor, its predecessors are
      halves of its own shard. */
  predicate MergesOwnHalves(e: Event) {
    e.Forced? && |e.prevIds| != 1 ==> forall p | p in e.prevIds :: IsHalf(p, e.tag)
  }

  /** A parent with both halves present may go, and so may halves whose parent is present: the
      covered prefixes do not change. */
  lemma RemovalKeepsCoverage(keys: set<u64>, gone: set<u64>, prefix: int)
    requires forall g | g in gone && Covers(g, prefix) :: exists k :: k in keys - gone && Covers(k, prefix)
    ensures IsCovered(keys - gone, prefix) <==> IsCovered(keys, prefix)
  {
    if IsCovered(keys, prefix) {
      var t :| t in keys && Covers(t, prefix);
      assert t in gone || t in keys - gone;
    }
  }

  /** One block adds exactly its own shard's prefixes to the covered ones. */
  lemma CoverageAfter(keys: set<u64>, e: Event, limit: nat, prefix: int)
    requires MergesOwnHalves(e)
    ensures IsCovered(KeysAfter(keys, e, limit), prefix) <==> IsCovered(keys, prefix) || Covers(e.tag, prefix)
  {
    var added := keys + {e.tag};
    assert IsCovered(added, prefix) <==> IsCovered(keys, prefix) || Covers(e.tag, prefix) by {
      if Covers(e.tag, prefix) { assert e.tag in added; }
      if IsCovered(keys, prefix) {
        var t :| t in keys && Covers(t, prefix);
        assert t in added;
      }
    }
    if e.Forced? {
      var gone := Outdated(added, e.prevIds, limit);
      forall g | g in gone && Covers(g, prefix)
        ensures exists k :: k in added - gone && Covers(k, prefix)
      {
        if |e.prevIds| == 1 {
          HalvesPartition(g);
          assert Left(g) in added - gone && Right(g) in added - gone;
        } else {
          HalfWithin(g, e.tag);
          forall p | p in e.prevIds ensures p != e.tag { HalfWithin(p, e.tag); }
          assert e.tag in added - gone;
        }
      }
      RemovalKeepsCoverage(added, gone, prefix);
    }
  }

  /** Coverage over runs: after any sequence of blocks, in any order, exactly the prefixes covered
      at the start or by some block's shard are covered; in particular coverage never shrinks. */
  lemma {:induction false} CoverageOfRun(keys: set<u64>, events: seq<Event>, limit: nat, prefix: int)
    requires forall e | e in events :: MergesOwnHalves(e)
    ensures IsCovered(KeysAfterAll(keys, events, limit), prefix)
      <==> IsCovered(keys, prefix) || exists e :: e in events && Covers(e.tag, prefix)
  {
    if events != [] {
      var before, last := events[..|events| - 1], events[|events| - 1];
      CoverageOfRun(keys, before, limit, prefix);
      CoverageAfter(KeysAfterAll(keys, before, limit), last, limit, prefix);
      assert forall e | e in events :: e in before || e == last;
      assert last in events && forall e | e in before :: e in events;
    }
  }

  ghost predicate Within(p: u64, tag: u64) {
    forall x | Covers(p, x) :: Covers(tag, x)
  }

  ghost predicate KeepsCoverage(e: Event, limit: nat) {
    forall keys: set<u64>, x | IsCovered(keys, x) :: IsCovered(KeysAfter(keys, e, limit), x)
  }

  /** The condition on predecessors is needed, and how much of it: the removal of several
      predecessors keeps every prefix of every map covered exactly when each of them lies within
      the block's own shard and is not that shard itself. */
  lemma CoverageKeptExactlyWithin(e: Event, limit: nat)
    requires e.Forced? && |e.prevIds| != 1 && e.tag > 0
    ensures KeepsCoverage(e, limit) <==> forall p | p in e.prevIds :: p != e.tag && Within(p, e.tag)
  {
    if p :| p in e.prevIds && (p == e.tag || !Within(p, e.tag)) {
      var x: int := p;
      if p == e.tag {
        CoversItself(p);
      } else {
        x :| Covers(p, x) && !Covers(e.tag, x);
      }
      var after := KeysAfter({p}, e, limit);
      assert p in {p} && IsCovered({p}, x);
      assert forall t | t in after :: t == e.tag && p != e.tag;
      assert !IsCovered(after, x);
    } else {
      forall keys: set<u64>, x | IsCovered(keys, x) ensures IsCovered(KeysAfter(keys, e, limit), x) {
        var t :| t in keys && Covers(t, x);
        var after := KeysAfter(keys, e, limit);
        assert e.tag in after;
        assert t in after || t in e.prevIds;
      }
    }
  }
}
