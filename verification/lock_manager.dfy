/** The page lock manager as the source builds it: a `PageLock` object per
    locked page, updated in place, and a `LockManager` owning the page→lock
    and transaction→pages tables. Each method is proved to perform one step
    of the `LockTables` state machine on the tables it owns. */
module PageLocking {
  import opened Common
  import opened LockTables

  /** The lock on one page: its mode and its holder list. */
  class PageLock {
    const pageId: PageId
    var lockType: LockType
    var transactionIds: seq<TransactionId>

    /** The record this object stands for. */
    function Record(): LockRecord
      reads this
    {
      LockRecord(lockType, transactionIds)
    }

    constructor (pageId: PageId, permission: Permission, transactionIds: seq<TransactionId>)
      ensures this.pageId == pageId
      ensures Record() == LockRecord(ModeFor(permission), transactionIds)
      ensures lockType == SLock <==> permission == ReadOnly
    {
      this.pageId := pageId;
      this.transactionIds := transactionIds;
      if permission == ReadOnly {
        this.lockType := SLock;
      } else {
        this.lockType := XLock;
      }
    }

    /** Turn a shared lock held by `tid` alone into an exclusive one. */
    method TryUpgradeLock(tid: TransactionId) returns (upgraded: bool)
      modifies this`lockType
      ensures (Record(), upgraded) == UpgradedLock(old(Record()), tid)
    {
      if lockType == SLock && |transactionIds| == 1 && transactionIds[0] == tid {
        lockType := XLock;
        return true;
      }
      return false;
    }

    /** Add a reader to a shared lock; answers `None` on an exclusive one. */
    method AddHolder(tid: TransactionId) returns (r: Option<TransactionId>)
      modifies this`transactionIds
      ensures Record() == AddedHolder(old(Record()), tid)
      ensures r == if lockType == SLock then Some(tid) else None
    {
      if lockType == SLock {
        if tid !in transactionIds {
          transactionIds := transactionIds + [tid];
        }
        return Some(tid);
      }
      return None;
    }

    /** Drop `tid` from the holders (the list's `remove`). */
    method RemoveHolder(tid: TransactionId)
      modifies this`transactionIds
      ensures Record() == old(Record()).(holders := RemoveFirst(old(transactionIds), tid))
    {
      transactionIds := RemoveFirst(transactionIds, tid);
    }
  }

  /** The records the lock objects of a page table stand for. */
  ghost function Records(m: map<PageId, PageLock>): map<PageId, LockRecord>
    reads m.Values
  {
    map pid | pid in m :: m[pid].Record()
  }

  lemma RecordsWithout(m: map<PageId, PageLock>, pid: PageId)
    ensures Records(m - {pid}) == Records(m) - {pid}
  {
  }

  /** What `acquireLock` ends with: the lock, or `TransactionAbortedException`
      after waiting longer than `timeout` milliseconds. */
  datatype AcquireOutcome = Acquired | Aborted(timeout: int)

  class LockManager {
    var pageIdLockMap: map<PageId, PageLock>
    var transactionPageIdMap: map<TransactionId, seq<PageId>>

    /** The two tables as values. */
    ghost function State(): Tables
      reads this, pageIdLockMap.Values
    {
      Tables(Records(pageIdLockMap), transactionPageIdMap)
    }

    /** Each page's lock object belongs to that page (so distinct pages have
        distinct lock objects) and the tables are consistent. */
    ghost predicate OwnsLocks()
      reads this, pageIdLockMap.Values
    {
      forall pid | pid in pageIdLockMap :: pageIdLockMap[pid].pageId == pid
    }

    ghost predicate Valid()
      reads this, pageIdLockMap.Values
    {
      OwnsLocks() && LockTables.Valid(State())
    }

    /** The capacities are initial hash-table sizes and do not change what
        the tables hold. */
    constructor (lockTabCap: int, transTabCap: int)
      ensures Valid() && State() == Empty
      ensures pageIdLockMap == map[]
    {
      pageIdLockMap := map[];
      transactionPageIdMap := map[];
      new;
      EmptyValid();
    }

    /** `holdsLock`: asks the transaction table; by consistency the answer
        also says whether `tid` is among the page's holders. */
    method HoldsLock(tid: TransactionId, pid: PageId) returns (held: bool)
      requires Valid()
      ensures held == Holds(State(), tid, pid)
      ensures held == HeldBy(State(), pid, tid)
    {
      var lockList := GetLockList(tid);
      held := lockList.Some? && pid in lockList.value;
      assert HeldBy(State(), pid, tid) <==> Holds(State(), tid, pid);
    }

    /** `getLockList`: the pages `tid` holds, or `None` (Java `null`) for a
        transaction without locks. */
    method GetLockList(tid: TransactionId) returns (lockList: Option<seq<PageId>>)
      requires Valid()
      ensures lockList.Some? <==> tid in State().pages
      ensures lockList.Some? ==> lockList.value == State().pages[tid] && lockList.value != []
      ensures lockList.Some? ==> forall pid :: pid in lockList.value ==> HeldBy(State(), pid, tid)
    {
      if tid in transactionPageIdMap {
        lockList := Some(transactionPageIdMap[tid]);
        assert forall pid :: pid in lockList.value ==> Holds(State(), tid, pid);
      } else {
        lockList := None;
      }
    }

    /** `updateTransactionTable`. */
    method UpdateTransactionTable(tid: TransactionId, pid: PageId)
      modifies this`transactionPageIdMap
      ensures transactionPageIdMap == PagesWith(old(transactionPageIdMap), tid, pid)
    {
      if tid in transactionPageIdMap {
        if pid !in transactionPageIdMap[tid] {
          transactionPageIdMap := transactionPageIdMap[tid := transactionPageIdMap[tid] + [pid]];
        }
      } else {
        transactionPageIdMap := transactionPageIdMap[tid := [pid]];
      }
    }

    /** `acquireLock`. `draw` is the value `rand.nextInt(MAX_TIME - MIN_TIME)`
        returned. A granted pass updates the tables as `AcquireStep` says; a
        pass that must wait leaves them untouched and, since nothing else
        runs in this sequential model, ends in the timeout abort. */
    method AcquireLock(pid: PageId, tid: TransactionId, perm: Permission, draw: int) returns (outcome: AcquireOutcome)
      requires Valid()
      requires 0 <= draw < MAX_TIME - MIN_TIME
      modifies this, pageIdLockMap.Values
      ensures Valid()
      ensures fresh(pageIdLockMap.Values - old(pageIdLockMap.Values))
      ensures old(pid in pageIdLockMap) ==> pid in pageIdLockMap && pageIdLockMap[pid] == old(pageIdLockMap[pid])
      ensures match AcquireStep(old(State()), pid, tid, perm)
        case Granted(next) => outcome == Acquired && State() == next
        case MustWait => outcome == Aborted(Timeout(draw)) && State() == old(State())
    {
      if pid in pageIdLockMap {
        outcome := AcquireHeld(pid, tid, perm, draw);
      } else {
        AddLock(pid, tid, perm);
        outcome := Acquired;
      }
    }

    /** `acquireLock` on a page that has a lock object: shared reads join,
        the sole reader upgrades, the exclusive holder passes, and every
        other request waits. The table of lock objects is not touched. */
    method AcquireHeld(pid: PageId, tid: TransactionId, perm: Permission, draw: int) returns (outcome: AcquireOutcome)
      requires Valid() && pid in pageIdLockMap
      requires 0 <= draw < MAX_TIME - MIN_TIME
      modifies this`transactionPageIdMap, pageIdLockMap[pid]
      ensures Valid()
      ensures match AcquireStep(old(State()), pid, tid, perm)
        case Granted(next) => outcome == Acquired && State() == next
        case MustWait => outcome == Aborted(Timeout(draw)) && State() == old(State())
    {
      ghost var before := State();
      assert WellFormedRecord(before.locks[pid]);
      var maxTime := Timeout(draw);
      var lock := pageIdLockMap[pid];
      assert lock.Record() == before.locks[pid];
      assert forall p | p in pageIdLockMap && p != pid :: pageIdLockMap[p] != lock;
      if lock.lockType == SLock {
        if perm == ReadOnly {
          UpdateTransactionTable(tid, pid);
          var added := lock.AddHolder(tid);
          RecordsAfterUpdate(before.locks, pid, lock);
          AcquirePreservesValid(before, pid, tid, perm);
          assert State() == AcquireStep(before, pid, tid, perm).next;
          return Acquired;
        } else if tid in transactionPageIdMap && pid in transactionPageIdMap[tid]
               && |lock.transactionIds| == 1 {
          var upgraded := lock.TryUpgradeLock(tid);
          RecordsAfterUpdate(before.locks, pid, lock);
          AcquirePreservesValid(before, pid, tid, perm);
          assert State() == AcquireStep(before, pid, tid, perm).next;
          return Acquired;
        } else {
          return Aborted(maxTime);
        }
      } else if lock.transactionIds[0] == tid {
        return Acquired;
      } else {
        return Aborted(maxTime);
      }
    }

    /** `acquireLock` on a page without a lock object: a new one, held by
        `tid` alone in the mode of the permission, and `pid` joins `tid`'s
        list. */
    method AddLock(pid: PageId, tid: TransactionId, perm: Permission)
      requires Valid() && pid !in pageIdLockMap
      modifies this`pageIdLockMap, this`transactionPageIdMap
      ensures Valid()
      ensures fresh(pageIdLockMap.Values - old(pageIdLockMap.Values))
      ensures State() == AcquireStep(old(State()), pid, tid, perm).next
    {
      ghost var before, m := State(), pageIdLockMap;
      ghost var next := AcquireStep(before, pid, tid, perm).next;
      var lock := new PageLock(pid, perm, [tid]);
      assert Records(m) == before.locks;
      pageIdLockMap := pageIdLockMap[pid := lock];
      RecordsAfterInsert(m, pid, lock);
      assert Records(pageIdLockMap) == next.locks;
      assert pageIdLockMap.Values - m.Values <= {lock};
      UpdateTransactionTable(tid, pid);
      assert transactionPageIdMap == next.pages;
      AcquirePreservesValid(before, pid, tid, perm);
    }

    /** A new lock object for a page without one adds its record and
        changes no other. */
    lemma RecordsAfterInsert(m: map<PageId, PageLock>, pid: PageId, lock: PageLock)
      requires pid !in m
      ensures Records(m[pid := lock]) == Records(m)[pid := lock.Record()]
    {
    }

    /** After an update of `lock`, the lock object of `pid`, the records
        are the old ones with `pid`'s replaced. */
    lemma RecordsAfterUpdate(before: map<PageId, LockRecord>, pid: PageId, lock: PageLock)
      requires pid in pageIdLockMap && pageIdLockMap[pid] == lock
      requires pageIdLockMap.Keys == before.Keys
      requires forall p | p in pageIdLockMap && p != pid :: pageIdLockMap[p].Record() == before[p]
      ensures Records(pageIdLockMap) == before[pid := lock.Record()]
    {
    }

    /** The first half of `releaseLock`: drop `pid` from `tid`'s list. */
    method ReleaseFromTransactionTable(tid: TransactionId, pid: PageId)
      modifies this`transactionPageIdMap
      ensures transactionPageIdMap == PagesWithout(old(transactionPageIdMap), tid, pid)
    {
      if tid in transactionPageIdMap {
        transactionPageIdMap := transactionPageIdMap[tid := RemoveFirst(transactionPageIdMap[tid], pid)];
        if |transactionPageIdMap[tid]| == 0 {
          transactionPageIdMap := transactionPageIdMap - {tid};
        }
      }
    }

    /** The second half of `releaseLock`: drop `tid` from the holders of
        `pid`'s lock object, and the object from the table once it has no
        holder left. */
    method ReleaseFromLockTable(tid: TransactionId, pid: PageId)
      requires OwnsLocks()
      modifies this`pageIdLockMap, pageIdLockMap.Values
      ensures OwnsLocks()
      ensures Records(pageIdLockMap) == LocksWithout(old(Records(pageIdLockMap)), pid, tid)
      ensures pageIdLockMap.Values <= old(pageIdLockMap.Values)
    {
      ghost var before := Records(pageIdLockMap);
      if pid in pageIdLockMap {
        var lock := pageIdLockMap[pid];
        ghost var h := RemoveFirst(before[pid].holders, tid);
        assert lock.Record() == before[pid];
        assert forall p | p in pageIdLockMap && p != pid :: pageIdLockMap[p] != lock;
        lock.RemoveHolder(tid);
        assert lock.Record() == before[pid].(holders := h);
        assert Records(pageIdLockMap) == before[pid := lock.Record()] by {
          RecordsAfterUpdate(before, pid, lock);
        }
        if |lock.transactionIds| == 0 {
          assert Records(pageIdLockMap - {pid}) == before - {pid} by {
            RecordsWithout(pageIdLockMap, pid);
          }
          pageIdLockMap := pageIdLockMap - {pid};
          assert Records(pageIdLockMap) == LocksWithout(before, pid, tid);
        } else {
          assert Records(pageIdLockMap) == LocksWithout(before, pid, tid);
        }
      }
    }

    /** `releaseLock`: the tables afterwards are `Released(old tables)`. */
    method ReleaseLock(tid: TransactionId, pid: PageId)
      requires Valid()
      modifies this, pageIdLockMap.Values
      ensures Valid()
      ensures State() == Released(old(State()), tid, pid)
      ensures pageIdLockMap.Values <= old(pageIdLockMap.Values)
    {
      ghost var before := State();
      ReleaseFromTransactionTable(tid, pid);
      ReleaseFromLockTable(tid, pid);
      assert State() == Released(before, tid, pid);
      ReleasePreservesValid(before, tid, pid);
    }

    /** `releaseLocksOnTransaction`: release every page on a snapshot of the
        transaction's list. */
    method ReleaseLocksOnTransaction(tid: TransactionId)
      requires Valid()
      modifies this, pageIdLockMap.Values
      ensures Valid()
      ensures State() == ReleasedAll(old(State()), tid)
      ensures pageIdLockMap.Values <= old(pageIdLockMap.Values)
    {
      if tid in transactionPageIdMap {
        var toRelease := transactionPageIdMap[tid];
        for i := 0 to |toRelease|
          invariant Valid()
          invariant ReleaseEach(State(), tid, toRelease[i..]) == ReleasedAll(old(State()), tid)
          invariant pageIdLockMap.Values <= old(pageIdLockMap.Values)
        {
          assert toRelease[i..][1..] == toRelease[i + 1..];
          ReleaseLock(tid, toRelease[i]);
        }
      }
    }
  }

  /** A second reader joins the first one's shared lock. */
  lemma SecondReaderJoins(t1: TransactionId, t2: TransactionId, p: PageId)
    requires t1 != t2
    ensures AcquireStep(OneReader(t1, p), p, t2, ReadOnly) == Granted(TwoReaders(t1, t2, p))
  {
    assert AddedHolder(LockRecord(SLock, [t1]), t2) == LockRecord(SLock, [t1, t2]);
    assert PagesWith(OneReader(t1, p).pages, t2, p) == TwoReaders(t1, t2, p).pages;
  }

  /** The second reader's release-all leaves the first reader alone. */
  lemma SecondReaderLeaves(t1: TransactionId, t2: TransactionId, p: PageId)
    requires t1 != t2
    ensures ReleasedAll(TwoReaders(t1, t2, p), t2) == OneReader(t1, p)
  {
    var s2 := TwoReaders(t1, t2, p);
    assert RemoveFirst([t2], t2) == [];
    assert [t1, t2][1..] == [t2];
    assert RemoveFirst([t1, t2], t2) == [t1];
    assert RemoveFirst([p], p) == [];
    assert s2.locks[p].holders == [t1, t2];
    assert LocksWithout(s2.locks, p, t2) == OneReader(t1, p).locks;
    assert PagesWithout(s2.pages, t2, p) == OneReader(t1, p).pages;
    assert [p][1..] == [];
    assert ReleaseEach(s2, t2, [p]) == ReleaseEach(Released(s2, t2, p), t2, []);
  }

  /** `t1` alone holds `p` shared. */
  function OneReader(t1: TransactionId, p: PageId): Tables {
    Tables(map[p := LockRecord(SLock, [t1])], map[t1 := [p]])
  }

  /** `t1` alone holds `p` exclusively. */
  function OneWriter(t1: TransactionId, p: PageId): Tables {
    Tables(map[p := LockRecord(XLock, [t1])], map[t1 := [p]])
  }

  /** The sole reader's write request upgrades its lock. */
  lemma ReaderUpgrades(t1: TransactionId, p: PageId)
    ensures AcquireStep(OneReader(t1, p), p, t1, ReadWrite) == Granted(OneWriter(t1, p))
  {
    assert Holds(OneReader(t1, p), t1, p);
    assert UpgradedLock(LockRecord(SLock, [t1]), t1).0 == LockRecord(XLock, [t1]);
  }

  /** `t1` and then `t2` hold `p` shared. */
  function TwoReaders(t1: TransactionId, t2: TransactionId, p: PageId): Tables {
    Tables(map[p := LockRecord(SLock, [t1, t2])], map[t1 := [p], t2 := [p]])
  }

  /** Two read requests for `p` on a lock manager without locks: both are
      granted and share one lock object. */
  method ShareBetween(lm: LockManager, t1: TransactionId, t2: TransactionId, p: PageId)
    returns (a: AcquireOutcome, b: AcquireOutcome)
    requires t1 != t2 && lm.Valid() && lm.State() == Empty
    modifies lm, lm.pageIdLockMap.Values
    ensures lm.Valid() && lm.State() == TwoReaders(t1, t2, p)
    ensures fresh(lm.pageIdLockMap.Values - old(lm.pageIdLockMap.Values))
    ensures a == Acquired && b == Acquired
  {
    assert AcquireStep(Empty, p, t1, ReadOnly) == Granted(OneReader(t1, p));
    a := lm.AcquireLock(p, t1, ReadOnly, 0);
    SecondReaderJoins(t1, t2, p);
    b := lm.AcquireLock(p, t2, ReadOnly, 0);
  }

  /** With `t1` and `t2` sharing `p`: once `t2` has released everything,
      `t1`'s write request is granted as an upgrade. */
  method UpgradeAfterRelease(lm: LockManager, t1: TransactionId, t2: TransactionId, p: PageId)
    returns (c: AcquireOutcome)
    requires t1 != t2 && lm.Valid() && lm.State() == TwoReaders(t1, t2, p)
    modifies lm, lm.pageIdLockMap.Values
    ensures lm.Valid() && lm.State() == OneWriter(t1, p)
    ensures c == Acquired
  {
    SecondReaderLeaves(t1, t2, p);
    lm.ReleaseLocksOnTransaction(t2);
    assert lm.State() == OneReader(t1, p);
    ReaderUpgrades(t1, p);
    c := lm.AcquireLock(p, t1, ReadWrite, 0);
  }

  /** Two readers share a page through one lock manager; once the second
      reader has released everything, the first one's write request is
      granted as an upgrade. */
  method SharedReadersThenWrite(t1: TransactionId, t2: TransactionId, p: PageId)
    returns (a: AcquireOutcome, b: AcquireOutcome, c: AcquireOutcome)
    requires t1 != t2
    ensures a == Acquired && b == Acquired && c == Acquired
  {
    var lm := new LockManager(16, 16);
    a, b := ShareBetween(lm, t1, t2, p);
    c := UpgradeAfterRelease(lm, t1, t2, p);
  }
}
