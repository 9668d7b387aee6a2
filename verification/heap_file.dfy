/** `HeapFile`: a file of fixed-size pages, and the iterator that walks its
    tuples page by page through the buffer pool. A page is modelled by the
    tuples its own iterator yields; the buffer pool by the list of pages
    the file holds, and every request the iterator makes to it is logged. */
module HeapFiles {
  import opened Common
  import opened Tuples
  import opened LockTables

  /** `numPages`: whole pages in a file of `fileLength` bytes (the long
      division of a non-negative length truncates, like Dafny's). */
  function NumPages(fileLength: int, pageSize: int): (n: int)
    requires fileLength >= 0 && pageSize > 0
    ensures n >= 0
  {
    fileLength / pageSize
  }

  /** The file holds exactly `NumPages` whole pages: they fit, and one more
      would not. */
  lemma NumPagesFit(fileLength: int, pageSize: int)
    requires fileLength >= 0 && pageSize > 0
    ensures var n := NumPages(fileLength, pageSize);
      && n * pageSize <= fileLength
      && fileLength < (n + 1) * pageSize
  {
    var n := NumPages(fileLength, pageSize);
    assert (n + 1) * pageSize == n * pageSize + pageSize;
  }

  /** `readPage` reads page `n` from byte `n * pageSize`: for every page
      number below `NumPages` the whole page lies inside the file, and
      distinct pages do not overlap. */
  lemma PageWithinFile(fileLength: int, pageSize: int, n: int)
    requires fileLength >= 0 && pageSize > 0
    requires 0 <= n < NumPages(fileLength, pageSize)
    ensures 0 <= n * pageSize
    ensures n * pageSize + pageSize <= fileLength
  {
    var pages := NumPages(fileLength, pageSize);
    NumPagesFit(fileLength, pageSize);
    ProductMonotone(pageSize, n + 1, pages);
    ProductMonotone(pageSize, 0, n);
    assert pageSize * (n + 1) == n * pageSize + pageSize;
  }

  /** The tuples of pages `from ..` in order. */
  function TuplesFrom(pages: seq<seq<Tuple>>, from: int): seq<Tuple>
    requires from >= 0
    decreases |pages| - from
  {
    if from >= |pages| then [] else pages[from] + TuplesFrom(pages, from + 1)
  }

  /** The first page from `from` on that has a tuple; past the last page
      when there is none. */
  function FirstNonEmpty(pages: seq<seq<Tuple>>, from: int): (p: int)
    requires from >= 0
    ensures p >= from
    ensures p < |pages| ==> pages[p] != []
    ensures p >= |pages| ==> p == from || p == |pages|
    ensures forall q | from <= q < p && q < |pages| :: pages[q] == []
    decreases |pages| - from
  {
    if from >= |pages| then from
    else if pages[from] != [] then from
    else FirstNonEmpty(pages, from + 1)
  }

  /** Skipping empty pages skips no tuple. */
  lemma {:induction false} SkipEmpty(pages: seq<seq<Tuple>>, from: int)
    requires from >= 0
    ensures FirstNonEmpty(pages, from) >= |pages| <==> TuplesFrom(pages, from) == []
    ensures TuplesFrom(pages, from) == TuplesFrom(pages, FirstNonEmpty(pages, from))
    decreases |pages| - from
  {
    if from < |pages| && pages[from] == [] {
      SkipEmpty(pages, from + 1);
    }
  }

  /** An empty page changes neither what remains nor where the next tuple is. */
  lemma SkipPage(pages: seq<seq<Tuple>>, p: int)
    requires 0 <= p < |pages| && pages[p] == []
    ensures FirstNonEmpty(pages, p) == FirstNonEmpty(pages, p + 1)
    ensures TuplesFrom(pages, p) == TuplesFrom(pages, p + 1)
  {
  }

  /** A run of empty pages changes neither what remains nor where the next
      tuple is. */
  lemma {:induction false} EmptyRange(pages: seq<seq<Tuple>>, lo: int, hi: int)
    requires 0 <= lo <= hi && (lo < hi ==> hi <= |pages|)
    requires forall q | lo <= q < hi :: pages[q] == []
    ensures FirstNonEmpty(pages, lo) == FirstNonEmpty(pages, hi)
    ensures TuplesFrom(pages, lo) == TuplesFrom(pages, hi)
    decreases hi - lo
  {
    if lo < hi {
      SkipPage(pages, lo);
      EmptyRange(pages, lo + 1, hi);
    }
  }

  /** A scan from `start` whose first non-empty page is `p` stops there,
      and what remains is that page and the pages after it. */
  lemma FoundAt(pages: seq<seq<Tuple>>, start: int, p: int)
    requires 0 <= start <= p < |pages| && pages[p] != []
    requires forall q | start <= q < p :: pages[q] == []
    ensures FirstNonEmpty(pages, start) == p
    ensures TuplesFrom(pages, start) == pages[p] + TuplesFrom(pages, p + 1) != []
  {
    EmptyRange(pages, start, p);
  }

  /** A scan from `start` that runs off the end finds no tuple. */
  lemma NoneFrom(pages: seq<seq<Tuple>>, start: int, p: int)
    requires 0 <= start <= p && |pages| <= p && (start < p ==> p <= |pages|)
    requires forall q | start <= q < p :: pages[q] == []
    ensures FirstNonEmpty(pages, start) == p
    ensures TuplesFrom(pages, start) == TuplesFrom(pages, p) == TuplesFrom(pages, p + 1) == []
  {
    EmptyRange(pages, start, p);
  }

  /** One buffer-pool request: the transaction, the page, the permission. */
  datatype Request = Request(tid: TransactionId, pid: PageId, perm: Permission)

  /** Read-only requests for pages `lo .. hi - 1` of table `tableId`, in order. */
  function Requests(tid: TransactionId, tableId: int, lo: int, hi: int): (rs: seq<Request>)
    ensures |rs| == if hi <= lo then 0 else hi - lo
    ensures forall i | 0 <= i < |rs| :: rs[i] == Request(tid, PageId(tableId, lo + i), ReadOnly)
    decreases hi - lo
  {
    if hi <= lo then [] else Requests(tid, tableId, lo, hi - 1) + [Request(tid, PageId(tableId, hi - 1), ReadOnly)]
  }

  /** Logging one more request extends the logged range by one page. */
  lemma RequestsSnoc(log: seq<Request>, tid: TransactionId, tableId: int, lo: int, hi: int)
    requires lo <= hi
    ensures log + Requests(tid, tableId, lo, hi) + [Request(tid, PageId(tableId, hi), ReadOnly)]
      == log + Requests(tid, tableId, lo, hi + 1)
  {
  }

  /** `rest` is what a page iterator over `page` has left after returning
      `position` tuples. */
  predicate RestOfPage(rest: seq<Tuple>, page: seq<Tuple>, position: int) {
    0 <= position <= |page| && rest == page[position..]
  }

  /** The anonymous `DbFileIterator` of `iterator(tid)` on the file with id
      `tableId` and pages `pages`. */
  class HeapFileIterator {
    const tid: TransactionId
    const tableId: int
    const pages: seq<seq<Tuple>>
    var pid: int
    /** The number of the page last fetched (`heapPage`), `None` for `null`. */
    var heapPage: Option<int>
    /** What the current page iterator has not returned yet; `None` for `null`. */
    var tupleIterator: Option<seq<Tuple>>
    var isOpen: bool
    var hasNext: bool
    /** How many tuples of the fetched page the page iterator has returned. */
    ghost var position: int
    /** Every buffer-pool request made so far, oldest first. */
    ghost var requested: seq<Request>

    /** The page iterator, when there is one, runs over the rest of the page
        last fetched, and `hasNext` is only set while there is one. */
    ghost predicate Valid()
      reads this
    {
      && pid >= 0
      && (hasNext ==> tupleIterator.Some?)
      && (heapPage.Some? ==> 0 <= heapPage.value < |pages|)
      && (tupleIterator.Some? ==>
            && heapPage.Some?
            && RestOfPage(tupleIterator.value, pages[heapPage.value], position))
    }

    /** The tuples `hasNext` and `next` go on to find: the rest of the page
        iterator, then the pages after `pid`; without a page iterator, the
        pages from `pid` on. */
    ghost function Remaining(): seq<Tuple>
      reads this
      requires pid >= 0
    {
      if tupleIterator.Some? then tupleIterator.value + TuplesFrom(pages, pid + 1)
      else TuplesFrom(pages, pid)
    }

    /** Where the scan of `hasNext` starts once the page iterator is found
        exhausted or absent. */
    ghost function ScanStart(): int
      reads this
    {
      if tupleIterator.Some? then pid + 1 else pid
    }

    constructor (tid: TransactionId, tableId: int, pages: seq<seq<Tuple>>)
      ensures Valid() && !isOpen && !hasNext && requested == []
      ensures this.tid == tid && this.tableId == tableId && this.pages == pages
      ensures pid == 0 && tupleIterator.None? && heapPage.None?
      ensures Remaining() == TuplesFrom(pages, 0)
    {
      this.tid := tid;
      this.tableId := tableId;
      this.pages := pages;
      pid := 0;
      heapPage := None;
      tupleIterator := None;
      isOpen := false;
      hasNext := false;
      requested := [];
    }

    /** `open`: marks the iterator open and goes back to page 0. The page
        iterator is kept, so only after `close` (or on a new iterator) does
        the scan restart from the first tuple of the file. */
    method Open()
      requires Valid()
      modifies this`isOpen, this`pid
      ensures Valid() && isOpen && pid == 0
      ensures old(tupleIterator).None? ==> Remaining() == TuplesFrom(pages, 0)
      ensures old(tupleIterator).Some? ==> Remaining() == old(tupleIterator).value + TuplesFrom(pages, 1)
    {
      isOpen := true;
      pid := 0;
    }

    /** `hasNext`: whether a tuple remains, fetching pages read-only from
        the current one on until one has a tuple. It loses no tuple and
        returns none: afterwards the page iterator, if true, is positioned
        on the next tuple. */
    method HasNext() returns (b: bool)
      requires Valid()
      modifies this`pid, this`heapPage, this`tupleIterator, this`hasNext, this`requested, this`position
      ensures Valid()
      ensures b <==> isOpen && old(Remaining()) != []
      ensures Remaining() == old(Remaining())
      ensures isOpen ==> hasNext == b
      ensures b ==> tupleIterator.Some? && tupleIterator.value != []
      ensures !isOpen ==> pid == old(pid) && hasNext == old(hasNext) && requested == old(requested)
      ensures isOpen && old(tupleIterator).Some? && old(tupleIterator).value != [] ==>
        pid == old(pid) && requested == old(requested)
      ensures isOpen && !(old(tupleIterator).Some? && old(tupleIterator).value != []) ==>
        var stop := FirstNonEmpty(pages, old(ScanStart()));
        && pid == stop
        && requested == old(requested) + Requests(tid, tableId, old(ScanStart()), if stop < |pages| then stop + 1 else |pages|)
    {
      ghost var remaining, start := Remaining(), ScanStart();
      if !isOpen {
        return false;
      }
      if tupleIterator.Some? {
        if tupleIterator.value != [] {
          hasNext := true;
          return true;
        }
        pid := pid + 1;
      }
      assert TuplesFrom(pages, pid) == remaining && pid == start;
      b := ScanPages();
      assert Remaining() == remaining;
    }

    /** The loop of `hasNext`: fetch pages from `pid` on until one has a
        tuple, skipping (and leaving behind) the empty ones. */
    method ScanPages() returns (b: bool)
      requires Valid() && (tupleIterator.Some? ==> tupleIterator.value == [])
      modifies this`pid, this`heapPage, this`tupleIterator, this`hasNext, this`requested, this`position
      ensures Valid() && hasNext == b
      ensures b <==> TuplesFrom(pages, old(pid)) != []
      ensures Remaining() == TuplesFrom(pages, old(pid))
      ensures b ==> tupleIterator.Some? && tupleIterator.value != []
      ensures var stop := FirstNonEmpty(pages, old(pid));
        && pid == stop
        && requested == old(requested) + Requests(tid, tableId, old(pid), if stop < |pages| then stop + 1 else |pages|)
    {
      ghost var start := pid;
      while pid < |pages|
        invariant Valid() && start <= pid
        invariant tupleIterator.Some? ==> tupleIterator.value == []
        invariant start < pid ==> pid <= |pages|
        invariant forall q | start <= q < pid :: pages[q] == []
        invariant requested == old(requested) + Requests(tid, tableId, start, pid)
        decreases |pages| - pid
      {
        FetchPage();
        RequestsSnoc(old(requested), tid, tableId, start, pid);
        if tupleIterator.value != [] {
          FoundAt(pages, start, pid);
          hasNext := true;
          return true;
        }
        pid := pid + 1;
      }
      NoneFrom(pages, start, pid);
      hasNext := false;
      return false;
    }

    /** One trip to the buffer pool: page `pid`, read-only, and a new page
        iterator at its first tuple. */
    method FetchPage()
      requires Valid() && pid < |pages|
      modifies this`heapPage, this`tupleIterator, this`position, this`requested
      ensures Valid()
      ensures heapPage == Some(pid) && tupleIterator == Some(pages[pid])
      ensures requested == old(requested) + [Request(tid, PageId(tableId, pid), ReadOnly)]
    {
      heapPage := Some(pid);
      tupleIterator := Some(pages[pid]);
      position := 0;
      requested := requested + [Request(tid, PageId(tableId, pid), ReadOnly)];
    }

    /** `next`: `NoSuchElementException` unless the iterator is open and the
        last `hasNext` found a tuple; otherwise the page iterator's next
        tuple, which is the first remaining one (and, past the end of the
        page, the page iterator's own `NoSuchElementException`). */
    method Next() returns (r: Result<Tuple, Exception>)
      requires Valid()
      modifies this`tupleIterator, this`position
      ensures Valid()
      ensures r.Success? <==> isOpen && hasNext && tupleIterator.Some? && old(tupleIterator).value != []
      ensures r.Success? ==> r.value == old(Remaining())[0] && Remaining() == old(Remaining())[1..]
      ensures r.Failure? ==> r.error == NoSuchElement && tupleIterator == old(tupleIterator)
    {
      if !isOpen || !hasNext {
        return Failure(NoSuchElement);
      }
      if tupleIterator.value == [] {
        return Failure(NoSuchElement);
      }
      var rest := tupleIterator.value;
      r := Success(rest[0]);
      tupleIterator := Some(rest[1..]);
      position := position + 1;
      assert (rest + TuplesFrom(pages, pid + 1))[1..] == rest[1..] + TuplesFrom(pages, pid + 1);
    }

    /** `next` as an iterator is meant to behave: the first remaining tuple
        whenever the iterator is open and one remains, whether or not
        `hasNext` was asked first. */
    method NextChecked() returns (r: Result<Tuple, Exception>)
      requires Valid()
      modifies this`pid, this`heapPage, this`tupleIterator, this`hasNext, this`requested, this`position
      ensures Valid()
      ensures r.Success? <==> isOpen && old(Remaining()) != []
      ensures r.Success? ==> r.value == old(Remaining())[0] && Remaining() == old(Remaining())[1..]
      ensures r.Failure? ==> r.error == NoSuchElement && Remaining() == old(Remaining())
    {
      var found := HasNext();
      if !found {
        return Failure(NoSuchElement);
      }
      r := Next();
    }

    /** `close`: back to the state of a new iterator, requests aside. */
    method Close()
      modifies this`pid, this`isOpen, this`hasNext, this`heapPage, this`tupleIterator
      ensures Valid() && !isOpen && !hasNext
      ensures pid == 0 && heapPage.None? && tupleIterator.None?
      ensures Remaining() == TuplesFrom(pages, 0)
    {
      pid := 0;
      isOpen := false;
      hasNext := false;
      heapPage := None;
      tupleIterator := None;
    }

    /** `rewind`: `close` then `open`; the scan restarts at the first tuple. */
    method Rewind()
      modifies this`pid, this`isOpen, this`hasNext, this`heapPage, this`tupleIterator
      ensures Valid() && isOpen && !hasNext
      ensures pid == 0 && heapPage.None? && tupleIterator.None?
      ensures Remaining() == TuplesFrom(pages, 0)
    {
      Close();
      Open();
    }
  }

  /** On a file whose only page holds `t`, `next` right after `open` throws
      `NoSuchElementException` although `t` has not been returned. */
  method NextRightAfterOpen(t: Tuple) returns (r: Result<Tuple, Exception>, ghost remaining: seq<Tuple>)
    ensures r == Failure(NoSuchElement) && remaining == [t]
  {
    var iter := new HeapFileIterator(TransactionId(1), 1, [[t]]);
    iter.Open();
    remaining := iter.Remaining();
    r := iter.Next();
  }

  /** The same call through `NextChecked` returns `t`. */
  method NextCheckedRightAfterOpen(t: Tuple) returns (r: Result<Tuple, Exception>)
    ensures r == Success(t)
  {
    var iter := new HeapFileIterator(TransactionId(1), 1, [[t]]);
    iter.Open();
    r := iter.NextChecked();
  }
}
