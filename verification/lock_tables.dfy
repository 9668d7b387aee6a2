/** The two lock tables of the page lock manager as a state machine over
    values: `locks` maps each page to its lock record (mode and holder list),
    `pages` maps each transaction to the list of pages it holds. Every
    operation of the lock manager runs inside one monitor, so each is one
    atomic step of this machine. */
module LockTables {
  import opened Common

  datatype TransactionId = TransactionId(id: int)
  datatype PageId = PageId(tableId: int, pageNumber: int)

  /** The permission a transaction asks for. */
  datatype Permission = ReadOnly | ReadWrite

  /** Shared (SLock) or exclusive (XLock). */
  datatype LockType = SLock | XLock

  /** A page's lock record: its mode and its holders in arrival order. */
  datatype LockRecord = LockRecord(lockType: LockType, holders: seq<TransactionId>)

  datatype Tables = Tables(locks: map<PageId, LockRecord>, pages: map<TransactionId, seq<PageId>>)

  /** Bounds of the per-call timeout, in milliseconds. */
  const MIN_TIME := 100
  const MAX_TIME := 1000

  const Empty := Tables(map[], map[])

  /** The timeout of one acquire call, given the value `draw` that
      `nextInt(MAX_TIME - MIN_TIME)` returned. */
  function Timeout(draw: int): (t: int)
    requires 0 <= draw < MAX_TIME - MIN_TIME
    ensures MIN_TIME <= t < MAX_TIME
  {
    MIN_TIME + draw
  }

  /** The mode a fresh record gets for a permission. */
  function ModeFor(p: Permission): LockType {
    if p == ReadOnly then SLock else XLock
  }

  /** `ArrayList.remove(Object)`: drop the first occurrence of `x`. */
  /** The position of the first occurrence of `x` in `s`. */
  function FirstIndex<T(==)>(s: seq<T>, x: T): (i: int)
    requires x in s
    ensures 0 <= i < |s| && s[i] == x && x !in s[..i]
  {
    if s[0] == x then 0
    else
      var i := 1 + FirstIndex(s[1..], x);
      assert s[..i] == [s[0]] + s[1..][..i - 1];
      i
  }

  /** `ArrayList.remove(Object)`: one occurrence of `x` fewer (the first,
      see `RemoveFirstDropsFirst`); without one the list is unchanged. */
  function RemoveFirst<T(==)>(s: seq<T>, x: T): (r: seq<T>)
    ensures multiset(r) == multiset(s) - multiset{x}
    ensures x !in s ==> r == s
  {
    if s == [] then []
    else
      assert s == [s[0]] + s[1..];
      if s[0] == x then s[1..]
      else [s[0]] + RemoveFirst(s[1..], x)
  }

  /** It is the first occurrence of `x` that goes, and the other elements
      keep their order. */
  lemma {:induction false} RemoveFirstDropsFirst<T>(s: seq<T>, x: T)
    requires x in s
    ensures RemoveFirst(s, x) == s[..FirstIndex(s, x)] + s[FirstIndex(s, x) + 1..]
  {
    if s[0] == x {
      assert s[..0] + s[1..] == s[1..];
    } else {
      var i := FirstIndex(s[1..], x);
      RemoveFirstDropsFirst(s[1..], x);
      DropAfterHead(s, i);
    }
  }

  /** Dropping position `i` of the tail and putting the head back drops
      position `i + 1`. */
  lemma DropAfterHead<T>(s: seq<T>, i: int)
    requires 0 <= i < |s| - 1
    ensures [s[0]] + (s[1..][..i] + s[1..][i + 1..]) == s[..i + 1] + s[i + 2..]
  {
    assert s[..i + 1] == [s[0]] + s[1..][..i];
    assert s[i + 2..] == s[1..][i + 1..];
  }

  lemma {:induction false} RemoveFirstNoDup<T>(s: seq<T>, x: T)
    requires NoDup(s)
    ensures NoDup(RemoveFirst(s, x))
    ensures x !in RemoveFirst(s, x)
    ensures forall y :: y != x ==> (y in RemoveFirst(s, x) <==> y in s)
  {
    if s != [] {
      assert s == [s[0]] + s[1..];
      assert NoDup(s[1..]) by {
        forall i, j | 0 <= i < j < |s[1..]|
          ensures s[1..][i] != s[1..][j]
        {
          assert s[1..][i] == s[i + 1] && s[1..][j] == s[j + 1];
        }
      }
      assert s[0] !in s[1..] by {
        forall k | 0 <= k < |s[1..]|
          ensures s[1..][k] != s[0]
        {
          assert s[1..][k] == s[k + 1];
        }
      }
      RemoveFirstNoDup(s[1..], x);
      if s[0] != x {
        NoDupCons(s[0], RemoveFirst(s[1..], x));
      }
    }
  }

  lemma NoDupCons<T>(a: T, s: seq<T>)
    requires NoDup(s) && a !in s
    ensures NoDup([a] + s)
  {
    forall i, j | 0 <= i < j < |[a] + s|
      ensures ([a] + s)[i] != ([a] + s)[j]
    {
      assert ([a] + s)[j] == s[j - 1];
      if i > 0 {
        assert ([a] + s)[i] == s[i - 1];
      }
    }
  }

  lemma {:induction false} NoDupCount<T>(s: seq<T>, x: T)
    requires NoDup(s) && x in s
    ensures multiset(s)[x] == 1
  {
    assert s == [s[0]] + s[1..];
    if s[0] == x {
      assert x !in s[1..];
    } else {
      NoDupCount(s[1..], x);
    }
  }

  // ---------------------------------------------------------------------
  // The consistency invariant.

  /** `tid` is listed among the holders of `pid`'s record. */
  predicate HeldBy(t: Tables, pid: PageId, tid: TransactionId) {
    pid in t.locks && tid in t.locks[pid].holders
  }

  /** `holdsLock`: `pid` is in `tid`'s page list. */
  predicate Holds(t: Tables, tid: TransactionId, pid: PageId) {
    tid in t.pages && pid in t.pages[tid]
  }

  /** A record never has an empty holder list, never a duplicate holder, and
      an exclusive record has exactly one holder. */
  predicate WellFormedRecord(r: LockRecord) {
    |r.holders| >= 1 && NoDup(r.holders) && (r.lockType == XLock ==> |r.holders| == 1)
  }

  ghost predicate Valid(t: Tables) {
    && (forall pid | pid in t.locks :: WellFormedRecord(t.locks[pid]))
    && (forall tid | tid in t.pages :: t.pages[tid] != [] && NoDup(t.pages[tid]))
    && (forall pid, tid :: HeldBy(t, pid, tid) <==> Holds(t, tid, pid))
  }

  lemma EmptyValid()
    ensures Valid(Empty)
    ensures forall tid, pid :: !Holds(Empty, tid, pid)
  {
  }

  /** Mutual exclusion: an exclusive record is held by exactly one
      transaction, and every other transaction holds no lock on that page. */
  lemma {:induction false} ExclusiveIsExclusive(t: Tables, pid: PageId, tid: TransactionId, other: TransactionId)
    requires Valid(t)
    requires pid in t.locks && t.locks[pid].lockType == XLock
    requires Holds(t, tid, pid) && other != tid
    ensures t.locks[pid].holders == [tid]
    ensures !Holds(t, other, pid)
  {
    assert HeldBy(t, pid, tid);
    assert WellFormedRecord(t.locks[pid]);
    assert !HeldBy(t, pid, other);
  }

  // ---------------------------------------------------------------------
  // Acquiring a lock.

  /** `updateTransactionTable`: append `pid` to `tid`'s list unless it is
      there, creating the list on the transaction's first lock. */
  function PagesWith(pages: map<TransactionId, seq<PageId>>, tid: TransactionId, pid: PageId): (r: map<TransactionId, seq<PageId>>)
    ensures r.Keys == pages.Keys + {tid}
    ensures pid in r[tid]
    ensures forall u :: u in pages && u != tid ==> r[u] == pages[u]
    ensures forall q :: q in r[tid] <==> q == pid || (tid in pages && q in pages[tid])
    ensures tid in pages && NoDup(pages[tid]) ==> NoDup(r[tid])
    ensures tid !in pages ==> r[tid] == [pid]
  {
    if tid in pages then
      if pid in pages[tid] then pages
      else pages[tid := pages[tid] + [pid]]
    else pages[tid := [pid]]
  }

  /** `PageLock.addHolder`: a shared record gains `tid` unless it already
      holds it; an exclusive record is left alone. */
  function AddedHolder(r: LockRecord, tid: TransactionId): (r': LockRecord)
    ensures r'.lockType == r.lockType
    ensures r.lockType == SLock ==> tid in r'.holders
    ensures forall u :: u in r'.holders <==> u in r.holders || (u == tid && r.lockType == SLock)
    ensures NoDup(r.holders) ==> NoDup(r'.holders)
  {
    if r.lockType == SLock then
      if tid in r.holders then r else r.(holders := r.holders + [tid])
    else r
  }

  /** `PageLock.tryUpgradeLock`: a shared record whose only holder is `tid`
      becomes exclusive; the flag says whether it did. */
  function UpgradedLock(r: LockRecord, tid: TransactionId): (res: (LockRecord, bool))
    ensures res.0.holders == r.holders
    ensures res.1 <==> r.lockType == SLock && r.holders == [tid]
    ensures res.0.lockType == if res.1 then XLock else r.lockType
  {
    if r.lockType == SLock && |r.holders| == 1 && r.holders[0] == tid then
      (r.(lockType := XLock), true)
    else (r, false)
  }

  /** The outcome of one pass of the acquire decision table. */
  datatype Attempt = Granted(next: Tables) | MustWait

  /** One pass of `acquireLock`'s decision table. */
  function AcquireStep(t: Tables, pid: PageId, tid: TransactionId, perm: Permission): (a: Attempt)
    requires pid in t.locks ==> t.locks[pid].holders != []
    ensures pid !in t.locks ==> a.Granted?
    ensures pid in t.locks && t.locks[pid].lockType == SLock && perm == ReadOnly ==> a.Granted?
    ensures a.Granted? ==> a.next.locks.Keys == t.locks.Keys + {pid}
  {
    if pid !in t.locks then
      Granted(Tables(t.locks[pid := LockRecord(ModeFor(perm), [tid])], PagesWith(t.pages, tid, pid)))
    else
      var r := t.locks[pid];
      if r.lockType == SLock then
        if perm == ReadOnly then
          Granted(Tables(t.locks[pid := AddedHolder(r, tid)], PagesWith(t.pages, tid, pid)))
        else if Holds(t, tid, pid) && |r.holders| == 1 then
          Granted(t.(locks := t.locks[pid := UpgradedLock(r, tid).0]))
        else MustWait
      else if r.holders[0] == tid then Granted(t)
      else MustWait
  }

  /** A page without a record: a record is created whose mode is shared
      exactly when the permission is read-only, held by `tid` alone, and
      `pid` joins `tid`'s list. */
  lemma AcquireFreshPage(t: Tables, pid: PageId, tid: TransactionId, perm: Permission)
    requires Valid(t) && pid !in t.locks
    ensures AcquireStep(t, pid, tid, perm).Granted?
    ensures var n := AcquireStep(t, pid, tid, perm).next;
      && (n.locks[pid].lockType == SLock <==> perm == ReadOnly)
      && n.locks[pid].holders == [tid]
      && Holds(n, tid, pid)
      && n.locks - {pid} == t.locks
  {
    var n := AcquireStep(t, pid, tid, perm).next;
    assert n.locks - {pid} == t.locks;
  }

  /** A read request on a shared record never blocks; afterwards `tid`
      occurs exactly once among the holders and `pid` exactly once in `tid`'s
      list, and asking again changes nothing. */
  lemma {:induction false} AcquireSharedRead(t: Tables, pid: PageId, tid: TransactionId)
    requires Valid(t) && pid in t.locks && t.locks[pid].lockType == SLock
    ensures AcquireStep(t, pid, tid, ReadOnly).Granted?
    ensures var n := AcquireStep(t, pid, tid, ReadOnly).next;
      && n.locks[pid].lockType == SLock
      && multiset(n.locks[pid].holders)[tid] == 1
      && multiset(n.pages[tid])[pid] == 1
      && AcquireStep(n, pid, tid, ReadOnly) == Granted(n)
  {
    var n := AcquireStep(t, pid, tid, ReadOnly).next;
    assert WellFormedRecord(t.locks[pid]);
    assert tid in t.pages ==> NoDup(t.pages[tid]);
    NoDupCount(n.locks[pid].holders, tid);
    NoDupCount(n.pages[tid], pid);
    assert AddedHolder(n.locks[pid], tid) == n.locks[pid];
    assert PagesWith(n.pages, tid, pid) == n.pages;
    assert n.locks[pid := n.locks[pid]] == n.locks;
  }

  /** A write request on a shared record whose only holder is `tid` turns
      the same record exclusive, keeping its holders; nothing else changes. */
  lemma AcquireUpgrade(t: Tables, pid: PageId, tid: TransactionId)
    requires Valid(t) && pid in t.locks
    requires t.locks[pid] == LockRecord(SLock, [tid])
    ensures AcquireStep(t, pid, tid, ReadWrite)
      == Granted(Tables(t.locks[pid := LockRecord(XLock, [tid])], t.pages))
  {
    assert HeldBy(t, pid, tid);
  }

  /** A transaction holding an exclusive record that asks again, with
      either permission, is granted at once and nothing changes. */
  lemma AcquireReentrant(t: Tables, pid: PageId, tid: TransactionId, perm: Permission)
    requires Valid(t) && pid in t.locks && t.locks[pid].lockType == XLock
    requires Holds(t, tid, pid)
    ensures AcquireStep(t, pid, tid, perm) == Granted(t)
  {
    assert HeldBy(t, pid, tid);
    assert WellFormedRecord(t.locks[pid]);
  }

  /** The request conflicts: it needs exclusivity, or the page is held
      exclusively, and some other transaction holds the page. */
  ghost predicate Conflicts(t: Tables, pid: PageId, tid: TransactionId, perm: Permission) {
    pid in t.locks
    && (perm == ReadWrite || t.locks[pid].lockType == XLock)
    && exists other :: other != tid && HeldBy(t, pid, other)
  }

  /** Exactly the conflicting requests must wait: shared locks are
      compatible with each other and with nothing else. */
  lemma {:induction false} AcquireWaitsIffConflict(t: Tables, pid: PageId, tid: TransactionId, perm: Permission)
    requires Valid(t)
    ensures AcquireStep(t, pid, tid, perm) == MustWait <==> Conflicts(t, pid, tid, perm)
  {
    if pid in t.locks {
      var r := t.locks[pid];
      assert WellFormedRecord(r);
      assert Holds(t, tid, pid) <==> HeldBy(t, pid, tid);
      assert |r.holders| == 1 ==> r.holders == [r.holders[0]];
      if r.holders != [tid] {
        var other := if r.holders[0] != tid then r.holders[0] else r.holders[1];
        assert other in r.holders && other != tid;
        assert HeldBy(t, pid, other);
      } else {
        assert forall other :: HeldBy(t, pid, other) ==> other == tid;
      }
    }
  }

  /** What a grant means: `tid` now holds `pid`, a read-write grant leaves
      the record exclusive, and every other (transaction, page) pair is held
      exactly as before. */
  lemma {:induction false} AcquireGrants(t: Tables, pid: PageId, tid: TransactionId, perm: Permission)
    requires Valid(t) && AcquireStep(t, pid, tid, perm).Granted?
    ensures var n := AcquireStep(t, pid, tid, perm).next;
      && Holds(n, tid, pid)
      && HeldBy(n, pid, tid)
      && (perm == ReadWrite ==> n.locks[pid].lockType == XLock)
      && (forall u, q :: (u, q) != (tid, pid) ==> (Holds(n, u, q) <==> Holds(t, u, q)))
  {
    var n := AcquireStep(t, pid, tid, perm).next;
    AcquirePreservesValid(t, pid, tid, perm);
    if pid in t.locks && !(t.locks[pid].lockType == SLock && perm == ReadOnly) {
      var r := t.locks[pid];
      assert WellFormedRecord(r);
      if r.lockType == XLock {
        assert HeldBy(t, pid, r.holders[0]);
      }
    }
    assert HeldBy(n, pid, tid);
  }

  /** Every granted step keeps the tables consistent. */
  lemma {:induction false} AcquirePreservesValid(t: Tables, pid: PageId, tid: TransactionId, perm: Permission)
    requires Valid(t) && AcquireStep(t, pid, tid, perm).Granted?
    ensures Valid(AcquireStep(t, pid, tid, perm).next)
  {
    var n := AcquireStep(t, pid, tid, perm).next;
    if pid !in t.locks {
      assert !Holds(t, tid, pid) by { assert !HeldBy(t, pid, tid); }
      forall q, u
        ensures HeldBy(n, q, u) <==> Holds(n, u, q)
      {
        assert HeldBy(t, q, u) <==> Holds(t, u, q);
        if q != pid {
          assert HeldBy(n, q, u) <==> HeldBy(t, q, u);
        }
      }
    } else {
      var r := t.locks[pid];
      if r.lockType == SLock && perm == ReadOnly {
        assert WellFormedRecord(r);
        assert tid in t.pages ==> NoDup(t.pages[tid]);
        forall q, u
          ensures HeldBy(n, q, u) <==> Holds(n, u, q)
        {
          assert HeldBy(t, q, u) <==> Holds(t, u, q);
          if q != pid {
            assert HeldBy(n, q, u) <==> HeldBy(t, q, u);
          }
        }
      } else if r.lockType == SLock {
        assert WellFormedRecord(r);
        assert HeldBy(t, pid, tid);
        forall q, u
          ensures HeldBy(n, q, u) <==> Holds(n, u, q)
        {
          assert HeldBy(t, q, u) <==> Holds(t, u, q);
          if q != pid {
            assert HeldBy(n, q, u) <==> HeldBy(t, q, u);
          }
        }
      }
    }
  }

  // ---------------------------------------------------------------------
  // Releasing locks.

  /** `releaseLock`, first half: drop `pid` from `tid`'s list, deleting
      the list when it becomes empty. */
  function PagesWithout(pages: map<TransactionId, seq<PageId>>, tid: TransactionId, pid: PageId): map<TransactionId, seq<PageId>> {
    if tid in pages then
      var l := RemoveFirst(pages[tid], pid);
      if |l| == 0 then pages - {tid} else pages[tid := l]
    else pages
  }

  /** `releaseLock`, second half: drop `tid` from `pid`'s holders, deleting
      the record when it becomes empty. */
  function LocksWithout(locks: map<PageId, LockRecord>, pid: PageId, tid: TransactionId): map<PageId, LockRecord> {
    if pid in locks then
      var h := RemoveFirst(locks[pid].holders, tid);
      if |h| == 0 then locks - {pid} else locks[pid := locks[pid].(holders := h)]
    else locks
  }

  /** `releaseLock(tid, pid)` on both tables. */
  function Released(t: Tables, tid: TransactionId, pid: PageId): (n: Tables)
    ensures n.locks.Keys <= t.locks.Keys && n.pages.Keys <= t.pages.Keys
    ensures forall q | q in t.locks && q != pid :: q in n.locks && n.locks[q] == t.locks[q]
    ensures forall u | u in t.pages && u != tid :: u in n.pages && n.pages[u] == t.pages[u]
  {
    LocksWithoutKeeps(t.locks, pid, tid);
    PagesWithoutKeeps(t.pages, tid, pid);
    Tables(LocksWithout(t.locks, pid, tid), PagesWithout(t.pages, tid, pid))
  }

  /** Dropping a holder deletes at most `pid`'s record and keeps the others. */
  lemma LocksWithoutKeeps(locks: map<PageId, LockRecord>, pid: PageId, tid: TransactionId)
    ensures var n := LocksWithout(locks, pid, tid);
      && n.Keys <= locks.Keys
      && forall q | q in locks && q != pid :: q in n && n[q] == locks[q]
  {
  }

  /** Dropping a page deletes at most `tid`'s list and keeps the others. */
  lemma PagesWithoutKeeps(pages: map<TransactionId, seq<PageId>>, tid: TransactionId, pid: PageId)
    ensures var n := PagesWithout(pages, tid, pid);
      && n.Keys <= pages.Keys
      && forall u | u in pages && u != tid :: u in n && n[u] == pages[u]
  {
  }

  /** The page table after a release: lists stay non-empty and
      duplicate-free, and only the pair (`tid`, `pid`) is gone. */
  lemma {:induction false} ReleasedPages(pages: map<TransactionId, seq<PageId>>, tid: TransactionId, pid: PageId)
    requires forall u | u in pages :: pages[u] != [] && NoDup(pages[u])
    ensures var n := PagesWithout(pages, tid, pid);
      && (forall u | u in n :: n[u] != [] && NoDup(n[u]))
      && (forall u, q :: (u in n && q in n[u]) <==> (u in pages && q in pages[u] && (u, q) != (tid, pid)))
  {
    if tid in pages {
      RemoveFirstNoDup(pages[tid], pid);
    }
  }

  /** The lock table after a release: records stay well formed, and only
      the pair (`pid`, `tid`) is gone. */
  lemma {:induction false} ReleasedLocks(locks: map<PageId, LockRecord>, pid: PageId, tid: TransactionId)
    requires forall q | q in locks :: WellFormedRecord(locks[q])
    ensures var n := LocksWithout(locks, pid, tid);
      && (forall q | q in n :: WellFormedRecord(n[q]))
      && (forall q, u :: (q in n && u in n[q].holders) <==> (q in locks && u in locks[q].holders && (q, u) != (pid, tid)))
  {
    if pid in locks {
      var h0 := locks[pid].holders;
      assert WellFormedRecord(locks[pid]);
      RemoveFirstNoDup(h0, tid);
      var h := RemoveFirst(h0, tid);
      assert |h| <= |h0| by {
        assert |multiset(h)| <= |multiset(h0)|;
      }
      var n := LocksWithout(locks, pid, tid);
      assert |h| != 0 ==> n[pid] == LockRecord(locks[pid].lockType, h);
    }
  }

  /** Releasing keeps the tables consistent, removes exactly the pair
      (`tid`, `pid`) and nothing else. */
  lemma {:induction false} ReleasePreservesValid(t: Tables, tid: TransactionId, pid: PageId)
    requires Valid(t)
    ensures var n := Released(t, tid, pid);
      && Valid(n)
      && !Holds(n, tid, pid)
      && (forall u, q :: (u, q) != (tid, pid) ==> (Holds(n, u, q) <==> Holds(t, u, q)))
  {
    var n := Released(t, tid, pid);
    ReleasedPages(t.pages, tid, pid);
    ReleasedLocks(t.locks, pid, tid);
    forall q, u
      ensures HeldBy(n, q, u) <==> Holds(n, u, q)
    {
      assert HeldBy(t, q, u) <==> Holds(t, u, q);
    }
  }

  /** Releasing a lock that is not held changes nothing. */
  lemma ReleaseNotHeld(t: Tables, tid: TransactionId, pid: PageId)
    requires Valid(t) && !Holds(t, tid, pid)
    ensures Released(t, tid, pid) == t
  {
    assert !HeldBy(t, pid, tid);
    assert tid in t.pages ==> t.pages[tid] != [];
    assert pid in t.locks ==> WellFormedRecord(t.locks[pid]);
    PagesWithoutAbsent(t.pages, tid, pid);
    LocksWithoutAbsent(t.locks, pid, tid);
  }

  lemma PagesWithoutAbsent(pages: map<TransactionId, seq<PageId>>, tid: TransactionId, pid: PageId)
    requires tid in pages ==> pages[tid] != [] && pid !in pages[tid]
    ensures PagesWithout(pages, tid, pid) == pages
  {
    if tid in pages {
      assert pages[tid := pages[tid]] == pages;
    }
  }

  lemma LocksWithoutAbsent(locks: map<PageId, LockRecord>, pid: PageId, tid: TransactionId)
    requires pid in locks ==> locks[pid].holders != [] && tid !in locks[pid].holders
    ensures LocksWithout(locks, pid, tid) == locks
  {
    if pid in locks {
      assert locks[pid := locks[pid].(holders := locks[pid].holders)] == locks;
    }
  }

  /** `releaseLock` applied to each page of `ps`, in order. */
  function ReleaseEach(t: Tables, tid: TransactionId, ps: seq<PageId>): (n: Tables)
    ensures n.locks.Keys <= t.locks.Keys && n.pages.Keys <= t.pages.Keys
    ensures forall u | u in t.pages && u != tid :: u in n.pages && n.pages[u] == t.pages[u]
    decreases |ps|
  {
    if ps == [] then t
    else ReleaseEach(Released(t, tid, ps[0]), tid, ps[1..])
  }

  /** `releaseLocksOnTransaction`: release every page on a snapshot of
      `tid`'s list. */
  function ReleasedAll(t: Tables, tid: TransactionId): (n: Tables)
    ensures tid !in t.pages ==> n == t
    ensures n.locks.Keys <= t.locks.Keys && n.pages.Keys <= t.pages.Keys
    ensures forall u | u in t.pages && u != tid :: u in n.pages && n.pages[u] == t.pages[u]
  {
    if tid in t.pages then ReleaseEach(t, tid, t.pages[tid]) else t
  }

  /** Releasing, in order, exactly the pages `tid` still holds removes its
      entry and touches no other transaction. */
  lemma {:induction false} ReleaseEachClears(t: Tables, tid: TransactionId, ps: seq<PageId>)
    requires Valid(t)
    requires ps == [] ==> tid !in t.pages
    requires ps != [] ==> tid in t.pages && t.pages[tid] == ps
    ensures var n := ReleaseEach(t, tid, ps);
      && Valid(n)
      && tid !in n.pages
      && (forall u, q :: u != tid ==> (Holds(n, u, q) <==> Holds(t, u, q)))
    decreases |ps|
  {
    if ps != [] {
      assert ps == [ps[0]] + ps[1..];
      ReleaseHead(t, tid, ps[1..]);
      ReleaseEachClears(Released(t, tid, ps[0]), tid, ps[1..]);
    }
  }

  /** Releasing the first page of `tid`'s list leaves the rest of the list. */
  lemma ReleaseHead(m: Tables, tid: TransactionId, rest: seq<PageId>)
    requires Valid(m) && tid in m.pages && |m.pages[tid]| > 0 && m.pages[tid] == [m.pages[tid][0]] + rest
    ensures var n := Released(m, tid, m.pages[tid][0]);
      && Valid(n)
      && (rest != [] ==> tid in n.pages && n.pages[tid] == rest)
      && (rest == [] ==> tid !in n.pages)
      && (forall u, q :: u != tid ==> (Holds(n, u, q) <==> Holds(m, u, q)))
  {
    var p := m.pages[tid][0];
    assert RemoveFirst(m.pages[tid], p) == rest;
    ReleasePreservesValid(m, tid, p);
  }

  /** After `releaseLocksOnTransaction(tid)` the transaction has no entry
      in either table, holds no page, and every other transaction holds
      exactly what it held before. */
  lemma ReleaseAllClears(t: Tables, tid: TransactionId)
    requires Valid(t)
    ensures var n := ReleasedAll(t, tid);
      && Valid(n)
      && tid !in n.pages
      && (forall pid :: !Holds(n, tid, pid) && !HeldBy(n, pid, tid))
      && (forall u, q :: u != tid ==> (Holds(n, u, q) <==> Holds(t, u, q)))
  {
    if tid in t.pages {
      ReleaseEachClears(t, tid, t.pages[tid]);
    } else {
      assert forall pid :: !HeldBy(t, pid, tid) by {
        forall pid ensures !HeldBy(t, pid, tid) {
          assert !Holds(t, tid, pid);
        }
      }
    }
    var n := ReleasedAll(t, tid);
    forall pid ensures !HeldBy(n, pid, tid) {
      assert !Holds(n, tid, pid);
    }
  }

  // ---------------------------------------------------------------------
  // The scenarios of the locking protocol.

  /** Two readers share a page; then the first one's write request must
      wait (it would time out and abort). */
  lemma ScenarioSharedThenWriteWaits(t1: TransactionId, t2: TransactionId, p: PageId)
    requires t1 != t2
    ensures var a := AcquireStep(Empty, p, t1, ReadOnly);
      a.Granted? &&
      var b := AcquireStep(a.next, p, t2, ReadOnly);
      b.Granted? && b.next.locks[p].holders == [t1, t2] &&
      AcquireStep(b.next, p, t1, ReadWrite) == MustWait
  {
  }

  /** An exclusive holder blocks a reader until it releases all its locks;
      then the reader is granted. */
  lemma ScenarioReleaseUnblocks(t1: TransactionId, t2: TransactionId, p: PageId)
    requires t1 != t2
    ensures var a := AcquireStep(Empty, p, t1, ReadWrite);
      a.Granted? &&
      AcquireStep(a.next, p, t2, ReadOnly) == MustWait &&
      var c := ReleasedAll(a.next, t1);
      c == Empty &&
      AcquireStep(c, p, t2, ReadOnly).Granted?
  {
    var a := AcquireStep(Empty, p, t1, ReadWrite).next;
    assert a.pages[t1] == [p];
    assert [p][1..] == [];
    assert ReleaseEach(a, t1, [p]) == ReleaseEach(Released(a, t1, p), t1, []);
    assert ReleasedAll(a, t1) == Released(a, t1, p);
    assert Released(a, t1, p).locks == map[];
    assert Released(a, t1, p).pages == map[];
  }

  // ---------------------------------------------------------------------
  // The shared-reader branch as it behaves when Java assertions are
  // disabled: the holder update sits inside an `assert` statement, so
  // without `-ea` only the transaction table is updated.

  function AcquireStepWithoutAssertions(t: Tables, pid: PageId, tid: TransactionId, perm: Permission): Attempt
    requires pid in t.locks ==> t.locks[pid].holders != []
  {
    if pid in t.locks && t.locks[pid].lockType == SLock && perm == ReadOnly then
      Granted(Tables(t.locks, PagesWith(t.pages, tid, pid)))
    else AcquireStep(t, pid, tid, perm)
  }

  /** Without assertions a second reader is listed as holding the page but
      is not among its holders, so the tables disagree; its next write
      request then enters the upgrade branch, the upgrade fails silently,
      and the call returns as if write access had been granted while the
      first reader still holds the shared lock. */
  lemma WithoutAssertionsBreaksConsistency(t1: TransactionId, t2: TransactionId, p: PageId)
    requires t1 != t2
    ensures var t := Tables(map[p := LockRecord(SLock, [t1])], map[t1 := [p]]);
      && Valid(t)
      && var a := AcquireStepWithoutAssertions(t, p, t2, ReadOnly);
      && a.Granted?
      && !Valid(a.next)
      && Holds(a.next, t2, p) && !HeldBy(a.next, p, t2)
      && AcquireStepWithoutAssertions(a.next, p, t2, ReadWrite) == Granted(a.next)
      && a.next.locks[p] == LockRecord(SLock, [t1])
  {
    var t := Tables(map[p := LockRecord(SLock, [t1])], map[t1 := [p]]);
    forall q, u ensures HeldBy(t, q, u) <==> Holds(t, u, q) {
    }
    var a := AcquireStepWithoutAssertions(t, p, t2, ReadOnly).next;
    assert Holds(a, t2, p) && !HeldBy(a, p, t2);
  }
}
