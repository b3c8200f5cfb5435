/** A read-write lock: any number of readers, or one writer alone. */
module RwLocks {
  import opened Words

  datatype Hold = No | Read | Write

  datatype Lock = Lock(readers: set<nat>, writer: Option<nat>)

  const FREE: Lock := Lock({}, None)

  /** Whether a thread that holds `was` may go on to hold `now`. */
  predicate Grants(lock: Lock, was: Hold, now: Hold) {
    || now.No?
    || now == was
    || (was.No? && now.Read? && lock.writer.None?)
    || (was.No? && now.Write? && lock.writer.None? && lock.readers == {})
  }

  function Move(lock: Lock, t: nat, was: Hold, now: Hold): Lock {
    Lock(if now.Read? then lock.readers + {t} else lock.readers - {t},
         if now.Write? then Some(t) else if was.Write? then None else lock.writer)
  }

  /** The lock records what the threads hold, and a writer excludes everyone else. */
  ghost predicate LockOk(lock: Lock, holds: seq<Hold>) {
    && (forall i :: i in lock.readers <==> 0 <= i < |holds| && holds[i].Read?)
    && (forall i | 0 <= i < |holds| :: holds[i].Write? <==> lock.writer == Some(i))
    && (lock.writer.Some? ==> lock.readers == {} && lock.writer.value < |holds|)
  }

  lemma MoveKeepsLock(lock: Lock, holds: seq<Hold>, t: nat, now: Hold)
    requires LockOk(lock, holds) && t < |holds| && Grants(lock, holds[t], now)
    ensures LockOk(Move(lock, t, holds[t], now), holds[t := now])
  {
  }

  /** The lock is granted as freely as exclusion allows: to a thread that holds nothing, exactly if
      the lock would still be in order. */
  lemma GrantedIfPossible(lock: Lock, holds: seq<Hold>, t: nat, now: Hold)
    requires LockOk(lock, holds) && t < |holds| && holds[t].No?
    ensures Grants(lock, No, now) <==> LockOk(Move(lock, t, No, now), holds[t := now])
  {
    var after := holds[t := now];
    if lock.writer.Some? && LockOk(Move(lock, t, No, now), after) {
      assert after[lock.writer.value].Write?;
    }
  }

  /** Exclusion: beside a writer nobody holds anything, and beside a reader nobody writes. */
  lemma Exclusion(lock: Lock, holds: seq<Hold>, i: nat, j: nat)
    requires LockOk(lock, holds) && i < |holds| && j < |holds| && i != j
    ensures holds[i].Write? ==> holds[j].No?
    ensures holds[i].Read? ==> !holds[j].Write?
  {
    assert holds[j].Read? ==> j in lock.readers;
    assert holds[i].Read? ==> i in lock.readers;
  }
}
