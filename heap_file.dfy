// HeapFile.java: a table stored as a file of fixed-size pages. The backing
// file is its byte length plus the content of each whole page; the buffer
// pool's getPage is a lookup of a page of that file (its cache and its locks
// are not modelled). The scan cursor HeapFileIterator is the second class.
module Storage {
  import opened JavaInt
  import opened Types
  import opened PageContract

  /** The most pages a file can reach: page numbers are Java `int`s, so writePage
      appends at most page 2^31 - 1. */
  const MaxPages: nat := 0x8000_0000

  /** numPages(): the whole pages in a file of `length` bytes, rounded down,
      so a trailing partial page is not addressable. */
  function PageCount(length: nat): (n: nat)
    ensures PageOffset(n) <= length < PageOffset(n) + PageSize
  {
    length / PageSize
  }

  /** What RandomAccessFile.read of one page returns after a seek to `offset`:
      -1 at or past the end of the file, otherwise the bytes available, at most a page. */
  function BytesRead(offset: nat, length: nat): (r: int)
    ensures r == -1 <==> offset >= length
    ensures r != -1 ==> 0 < r <= PageSize && offset + r <= length
    ensures r == PageSize <==> offset + PageSize <= length
  {
    if offset >= length then -1
    else if length - offset < PageSize then length - offset
    else PageSize
  }

  /** The byte offset of a page: `(long) pageNumber * pageSize`, as readPage computes it. */
  function PageOffset(pageNumber: int): (r: int)
    ensures r % PageSize == 0
    ensures r >= 0 <==> pageNumber >= 0
  {
    pageNumber * PageSize
  }

  // ---------------------------------------------------------------------------
  // The table's contents and the order a scan visits them in.

  /** Every row stored in the file, with multiplicity. */
  function FileRows(pages: seq<Slots>): multiset<Row>
  {
    if pages == [] then multiset{} else Rows(pages[0]) + FileRows(pages[1..])
  }

  /** Replacing one page swaps that page's rows for the new page's rows in the file's rows. */
  lemma {:induction false} FileRowsReplace(pages: seq<Slots>, k: int, p: Slots, d: multiset<Row>, e: multiset<Row>)
    requires 0 <= k < |pages|
    requires Rows(p) + d == Rows(pages[k]) + e
    ensures FileRows(pages[k := p]) + d == FileRows(pages) + e
  {
    var q := pages[k := p];
    if k == 0 {
      assert q[1..] == pages[1..];
      Rearrange(Rows(p), d, Rows(pages[0]), e, FileRows(pages[1..]));
    } else {
      assert q[1..] == pages[1..][k - 1 := p];
      FileRowsReplace(pages[1..], k - 1, p, d, e);
      PrependBoth(Rows(pages[0]), FileRows(q[1..]), d, FileRows(pages[1..]), e);
    }
  }

  lemma PrependBoth<T>(x: multiset<T>, a: multiset<T>, d: multiset<T>, b: multiset<T>, e: multiset<T>)
    requires a + d == b + e
    ensures (x + a) + d == (x + b) + e
  {
    forall z ensures ((x + a) + d)[z] == ((x + b) + e)[z] {
      assert (a + d)[z] == (b + e)[z];
    }
  }

  /** Appending a page adds that page's rows to the file's rows. */
  lemma {:induction false} FileRowsAppend(pages: seq<Slots>, p: Slots)
    ensures FileRows(pages + [p]) == FileRows(pages) + Rows(p)
  {
    if pages == [] {
      assert [p][1..] == [];
    } else {
      assert (pages + [p])[1..] == pages[1..] + [p];
      FileRowsAppend(pages[1..], p);
      var first, rest := Rows(pages[0]), FileRows(pages[1..]);
      forall z ensures (first + (rest + Rows(p)))[z] == ((first + rest) + Rows(p))[z] {
      }
    }
  }

  /** Inserting a row into a page that has an empty slot adds exactly that row
      to the table's contents. */
  lemma InsertAddsRow(pages: seq<Slots>, k: int, row: Row)
    requires 0 <= k < |pages| && NumEmptySlots(pages[k]) > 0
    ensures FileRows(pages[k := PageInsert(pages[k], row).value]) == FileRows(pages) + multiset{row}
  {
    FileRowsReplace(pages, k, PageInsert(pages[k], row).value, multiset{}, multiset{row});
  }

  /** Appending a fresh page that holds one inserted row adds exactly that row. */
  lemma AppendAddsRow(pages: seq<Slots>, numSlots: nat, row: Row)
    requires numSlots > 0
    ensures FileRows(pages + [PageInsert(EmptySlots(numSlots), row).value]) == FileRows(pages) + multiset{row}
  {
    var filled := PageInsert(EmptySlots(numSlots), row).value;
    assert Rows(filled) == multiset{row};
    FileRowsAppend(pages, filled);
  }

  /** Clearing the slot that holds a row removes exactly one copy of that row
      from the table's contents. */
  lemma DeleteRemovesRow(pages: seq<Slots>, k: int, slot: int, row: Row)
    requires 0 <= k < |pages| && PageDelete(pages[k], slot, row).Some?
    ensures row in FileRows(pages)
    ensures FileRows(pages[k := PageDelete(pages[k], slot, row).value]) == FileRows(pages) - multiset{row}
  {
    var cleared := PageDelete(pages[k], slot, row).value;
    FileRowsReplace(pages, k, cleared, multiset{row}, multiset{});
    RemoveOne(FileRows(pages[k := cleared]), FileRows(pages), row);
  }

  lemma RemoveOne<T>(a: multiset<T>, b: multiset<T>, x: T)
    requires a + multiset{x} == b
    ensures x in b && a == b - multiset{x}
  {
    assert b[x] == a[x] + 1;
    forall z ensures a[z] == (b - multiset{x})[z] {
      assert (a + multiset{x})[z] == b[z];
    }
  }

  /** Record ids in scan order: by page number, then by slot. */
  predicate RidBefore(a: RecordId, b: RecordId)
  {
    a.pid.pageNumber < b.pid.pageNumber || (a.pid.pageNumber == b.pid.pageNumber && a.slot < b.slot)
  }

  /** What a scan yields from page `from` on: each page's tuples, page after page. */
  function ScanFrom(tableId: int32, pages: seq<Slots>, from: nat): (ts: seq<Tuple>)
    requires |pages| <= MaxPages
    decreases |pages| - from
  {
    if from >= |pages| then []
    else PageTuples(PageId(tableId, from), pages[from]) + ScanFrom(tableId, pages, from + 1)
  }

  /** Every tuple carries a record id of table `tableId` on a page in [lo, hi). */
  ghost predicate RidsWithin(ts: seq<Tuple>, tableId: int32, lo: int, hi: int)
  {
    forall k :: 0 <= k < |ts| ==>
      && ts[k].rid.Some? && ts[k].rid.value.pid.tableId == tableId
      && lo <= ts[k].rid.value.pid.pageNumber < hi
  }

  /** The tuples' record ids are strictly increasing in (page, slot) order. */
  ghost predicate RidsAscending(ts: seq<Tuple>)
  {
    forall k, l :: 0 <= k < l < |ts| ==>
      ts[k].rid.Some? && ts[l].rid.Some? && RidBefore(ts[k].rid.value, ts[l].rid.value)
  }

  /** Every tuple a scan from page `from` yields carries a record id of this
      table and of one of those pages, and the record ids come in strictly
      increasing (page, slot) order. */
  lemma {:induction false} ScanRecordIds(tableId: int32, pages: seq<Slots>, from: nat)
    requires |pages| <= MaxPages
    ensures RidsWithin(ScanFrom(tableId, pages, from), tableId, from, |pages|)
    ensures RidsAscending(ScanFrom(tableId, pages, from))
    decreases |pages| - from
  {
    if from < |pages| {
      var here := PageTuples(PageId(tableId, from), pages[from]);
      ScanRecordIds(tableId, pages, from + 1);
      assert RidsWithin(here, tableId, from, from + 1);
      assert RidsAscending(here);
      ConcatRidsWithin(here, ScanFrom(tableId, pages, from + 1), tableId, from, |pages|);
      ConcatRidsAscending(here, ScanFrom(tableId, pages, from + 1), from);
    }
  }

  /** One page's tuples followed by those of later pages stay within the pages. */
  lemma ConcatRidsWithin(here: seq<Tuple>, later: seq<Tuple>, tableId: int32, from: int, hi: int)
    requires from < hi
    requires RidsWithin(here, tableId, from, from + 1) && RidsWithin(later, tableId, from + 1, hi)
    ensures RidsWithin(here + later, tableId, from, hi)
  {
    var ts := here + later;
    forall k | 0 <= k < |ts|
      ensures && ts[k].rid.Some? && ts[k].rid.value.pid.tableId == tableId
              && from <= ts[k].rid.value.pid.pageNumber < hi
    {
      if k < |here| {
        assert ts[k] == here[k];
      } else {
        assert ts[k] == later[k - |here|];
      }
    }
  }

  /** Page `from`'s tuples in slot order followed by later pages' tuples in
      record-id order are in record-id order. */
  lemma ConcatRidsAscending(here: seq<Tuple>, later: seq<Tuple>, from: int)
    requires RidsAscending(here) && RidsAscending(later)
    requires forall k :: 0 <= k < |here| ==> here[k].rid.Some? && here[k].rid.value.pid.pageNumber == from
    requires forall k :: 0 <= k < |later| ==> later[k].rid.Some? && later[k].rid.value.pid.pageNumber > from
    ensures RidsAscending(here + later)
  {
    var ts := here + later;
    forall k, l | 0 <= k < l < |ts|
      ensures ts[k].rid.Some? && ts[l].rid.Some? && RidBefore(ts[k].rid.value, ts[l].rid.value)
    {
      if l < |here| {
        assert ts[k] == here[k] && ts[l] == here[l];
      } else if k < |here| {
        assert ts[k] == here[k] && ts[l] == later[l - |here|];
      } else {
        assert ts[k] == later[k - |here|] && ts[l] == later[l - |here|];
      }
    }
  }

  lemma RowsOfConcat(a: seq<Tuple>, b: seq<Tuple>)
    ensures multiset(RowsOf(a + b)) == multiset(RowsOf(a)) + multiset(RowsOf(b))
  {
    assert RowsOf(a + b) == RowsOf(a) + RowsOf(b);
  }

  /** A scan from page `from` on yields exactly the rows stored on those pages. */
  lemma {:induction false} ScanRows(tableId: int32, pages: seq<Slots>, from: nat)
    requires |pages| <= MaxPages && from <= |pages|
    ensures multiset(RowsOf(ScanFrom(tableId, pages, from))) == FileRows(pages[from..])
    decreases |pages| - from
  {
    if from < |pages| {
      var here := PageTuples(PageId(tableId, from), pages[from]);
      var later := ScanFrom(tableId, pages, from + 1);
      ScanRows(tableId, pages, from + 1);
      PageTuplesRows(PageId(tableId, from), pages[from]);
      RowsOfConcat(here, later);
      assert pages[from..][1..] == pages[from + 1..];
    } else {
      assert pages[from..] == [];
    }
  }

  /** A page whose iterator yields at least one tuple. */
  predicate HasTuples(s: Slots)
  {
    NumEmptySlots(s) < |s|
  }

  /** Where hasNext stops when the current page is used up: the first later page that
      has tuples, or the last page (never moving back) when no later page has any. */
  function NextPageWithTuples(pages: seq<Slots>, w: nat): (p: nat)
    ensures w <= p
    ensures p > w ==> p < |pages|
    ensures forall q :: w < q < p ==> !HasTuples(pages[q])
    ensures p > w && !HasTuples(pages[p]) ==> p == |pages| - 1
    ensures p == w ==> w + 1 >= |pages|
    decreases |pages| - w
  {
    if w + 1 >= |pages| then w
    else if HasTuples(pages[w + 1]) then w + 1
    else NextPageWithTuples(pages, w + 1)
  }

  /** A scan from an existing page is that page's tuples followed by the rest,
      and the page contributes a tuple exactly when it has one. */
  lemma ScanStep(tableId: int32, pages: seq<Slots>, from: nat)
    requires |pages| <= MaxPages && from < |pages|
    ensures ScanFrom(tableId, pages, from)
            == PageTuples(PageId(tableId, from), pages[from]) + ScanFrom(tableId, pages, from + 1)
    ensures PageTuples(PageId(tableId, from), pages[from]) != [] <==> HasTuples(pages[from])
  {
  }

  /** The pages hasNext skips contribute nothing to the scan. */
  lemma {:induction false} SkippedPagesYieldNothing(tableId: int32, pages: seq<Slots>, w: nat)
    requires |pages| <= MaxPages
    ensures var p := NextPageWithTuples(pages, w);
            ScanFrom(tableId, pages, w + 1) == if p > w then ScanFrom(tableId, pages, p) else []
    decreases |pages| - w
  {
    if w + 1 < |pages| && !HasTuples(pages[w + 1]) {
      SkippedPagesYieldNothing(tableId, pages, w + 1);
      assert PageTuples(PageId(tableId, w + 1), pages[w + 1]) == [];
    }
  }

  /** The page first-fit insertion picks: the lowest-numbered page with an empty
      slot, or |pages| when every page is full. */
  function FirstNonFull(pages: seq<Slots>): (k: nat)
    ensures k <= |pages|
    ensures forall j :: 0 <= j < k ==> NumEmptySlots(pages[j]) == 0
    ensures k < |pages| ==> NumEmptySlots(pages[k]) > 0
  {
    if pages == [] || NumEmptySlots(pages[0]) > 0 then 0 else 1 + FirstNonFull(pages[1..])
  }

  // ---------------------------------------------------------------------------
  // Findings about page offsets.

  /** writePage as written: `pageNumber * BufferPool.getPageSize()` is an `int` product. */
  function WriteOffsetAsWritten(pageNumber: int32): (r: int32)
    ensures (r - PageOffset(pageNumber)) % Two32 == 0
    ensures -Two31 <= PageOffset(pageNumber) < Two31 ==> r == PageOffset(pageNumber)
  {
    Wrap(pageNumber * PageSize)
  }

  /** The `int` product gives the right offset exactly for the pages below 2^19
      (the first 2 GiB); page 2^19 gets a negative offset, and pages 2^20 and
      -2^20 land on page 0. */
  lemma WriteOffsetAsWrittenWraps(pageNumber: int32)
    requires pageNumber >= 0
    ensures WriteOffsetAsWritten(pageNumber) == PageOffset(pageNumber) <==> pageNumber < 0x8_0000
    ensures WriteOffsetAsWritten(0x8_0000) < 0
    ensures WriteOffsetAsWritten(0x10_0000) == PageOffset(0)
    ensures WriteOffsetAsWritten(-0x10_0000) == PageOffset(0)
  {
  }

  /** With the offset computed in `long`, as readPage does, distinct pages occupy
      disjoint byte ranges. */
  lemma PageOffsetsDisjoint(p: int, q: int)
    requires 0 <= p < q
    ensures PageOffset(p) + PageSize <= PageOffset(q)
  {
  }

  /** insertTuple as written appends the empty page's bytes at the current end of
      the file, then reads back page numPages()-1 of the grown file. The two
      offsets agree exactly when the file was a whole number of pages. */
  lemma AppendAsWrittenMisplaced(length: nat)
    ensures length == PageOffset(PageCount(length + PageSize) - 1) <==> length % PageSize == 0
  {
  }

  /** Appending as page number numPages() (what writePage does for that page number)
      makes the page read back as numPages()-1 of the grown file the appended one. */
  lemma AppendAsPageReadsBack(length: nat)
    ensures var grown := PageOffset(PageCount(length)) + PageSize;
            PageCount(grown) - 1 == PageCount(length)
  {
  }

  // ---------------------------------------------------------------------------

  class HeapFile {
    /** getId(): the table id, a hash of the backing file's absolute path. */
    const id: int32
    /** Slots per page, fixed by the schema's tuple width. */
    const numSlots: nat
    /** The byte length of the backing file. */
    var length: nat
    /** The content of each whole page of the file. */
    var pages: seq<Slots>

    ghost predicate Valid()
      reads this
    {
      && |pages| == PageCount(length)
      && |pages| <= MaxPages
      && forall i :: 0 <= i < |pages| ==> |pages[i]| == numSlots
    }

    /** A heap file over an existing backing file: its table id, the slots per
        page its schema gives, its byte length and its whole pages. */
    constructor (id: int32, numSlots: nat, length: nat, pages: seq<Slots>)
      requires |pages| == PageCount(length) && |pages| <= MaxPages
      requires forall i :: 0 <= i < |pages| ==> |pages[i]| == numSlots
      ensures Valid()
      ensures this.id == id && this.numSlots == numSlots
      ensures this.length == length && this.pages == pages
    {
      this.id := id;
      this.numSlots := numSlots;
      this.length := length;
      this.pages := pages;
    }

    /** numPages(): recomputed from the current length on every call; the
        `(int)` cast of the floor saturates at the largest `int`. The `double`
        arithmetic is exact wherever the cast does not saturate. */
    function NumPages(): (n: int32)
      reads this
      ensures n >= 0
      ensures PageCount(length) < MaxPages ==> PageOffset(n) <= length < PageOffset(n) + PageSize
      ensures PageCount(length) >= MaxPages ==> n == MaxInt32
      ensures Valid() ==> n <= |pages| && (|pages| < MaxPages ==> n == |pages|)
    {
      var count := PageCount(length);
      if count < MaxPages then count else MaxInt32
    }

    /** readPage: fails unless the whole page lies inside the file and is read in
        full; the page it builds carries the requested page id. */
    function ReadPage(pid: PageId): (r: Result<HeapPage>)
      reads this
      requires Valid()
      ensures r.Ok? <==> 0 <= pid.pageNumber < |pages|
      ensures r.Ok? ==> r.value.pid == pid && r.value.slots == pages[pid.pageNumber]
      ensures r.Err? ==> r.error == IllegalArgumentException
    {
      var pNo := pid.pageNumber;
      if PageOffset(Wrap(pNo + 1)) > length then Err(IllegalArgumentException)
      // seeking to a negative offset throws an IOException, reported as an invalid page
      else if pNo < 0 then Err(IllegalArgumentException)
      else if BytesRead(PageOffset(pNo), length) != PageSize then Err(IllegalArgumentException)
      else Ok(HeapPage(pid, pages[pNo]))
    }

    /** BufferPool.getPage for this file: a page of another table is not in this
        file; a page of this one is the page readPage builds. */
    function GetPage(pid: PageId): (r: Result<HeapPage>)
      reads this
      requires Valid()
      ensures r.Ok? <==> pid.tableId == id && 0 <= pid.pageNumber < |pages|
      ensures r.Ok? ==> r.value == HeapPage(pid, pages[pid.pageNumber])
      ensures pid.tableId != id ==> r == Err(DbException)
      ensures pid.tableId == id && r.Err? ==> r.error == IllegalArgumentException
    {
      if pid.tableId != id then Err(DbException) else ReadPage(pid)
    }

    /** writePage: rejects a page number past numPages(), accepts numPages() itself
        (the file grows by that page), and stores the page at offset pageNumber * pageSize. */
    method WritePage(page: HeapPage) returns (r: Result<()>)
      requires Valid()
      requires |page.slots| == numSlots
      modifies this
      ensures Valid()
      ensures r.Ok? <==> 0 <= page.pid.pageNumber <= old(NumPages())
      ensures r.Err? ==> pages == old(pages) && length == old(length)
      ensures page.pid.pageNumber > old(NumPages()) ==> r == Err(IllegalArgumentException)
      ensures page.pid.pageNumber < 0 ==> r == Err(IOException)
      ensures r.Ok? && page.pid.pageNumber < old(|pages|) ==>
                pages == old(pages)[page.pid.pageNumber := page.slots] && length == old(length)
      ensures r.Ok? && page.pid.pageNumber == old(|pages|) ==>
                pages == old(pages) + [page.slots] && length == PageOffset(page.pid.pageNumber) + PageSize
      ensures r.Ok? ==> ReadPage(page.pid) == Ok(page)
    {
      var pageNumber := page.pid.pageNumber;
      if pageNumber > NumPages() {
        return Err(IllegalArgumentException);
      }
      var offset := PageOffset(pageNumber);
      if offset < 0 {
        // RandomAccessFile.seek rejects a negative offset
        return Err(IOException);
      }
      if pageNumber < |pages| {
        pages := pages[pageNumber := page.slots];
      } else {
        pages := pages + [page.slots];
      }
      if offset + PageSize > length {
        length := offset + PageSize;
      }
      r := Ok(());
    }

    /** insertTuple: first fit over the existing pages; when all are full, one
        empty page is appended and the tuple goes there. Returns the one page it changed. */
    method InsertTuple(row: Row) returns (r: Result<seq<HeapPage>>)
      requires Valid() && |pages| < MaxPages
      requires FirstNonFull(pages) == |pages| ==> |pages| + 1 < MaxPages
      modifies this
      ensures Valid()
      ensures var n, k := old(|pages|), FirstNonFull(old(pages));
              k < n ==>
                && length == old(length)
                && pages == old(pages)[k := PageInsert(old(pages)[k], row).value]
                && r == Ok([HeapPage(PageId(id, k), pages[k])])
      ensures var n, k := old(|pages|), FirstNonFull(old(pages));
              k == n ==>
                && length == PageOffset(n) + PageSize
                && (numSlots > 0 ==>
                      && pages == old(pages) + [PageInsert(EmptySlots(numSlots), row).value]
                      && r == Ok([HeapPage(PageId(id, n), pages[n])]))
                && (numSlots == 0 ==> pages == old(pages) + [EmptySlots(0)] && r == Err(DbException))
    {
      assert NumPages() == |pages|;
      var i := 0;
      while i < NumPages()
        invariant 0 <= i <= |pages|
        invariant pages == old(pages) && length == old(length)
        invariant forall j :: 0 <= j < i ==> NumEmptySlots(pages[j]) == 0
      {
        var heapPage := GetPage(PageId(id, i)).value;
        if NumEmptySlots(heapPage.slots) > 0 {
          var filled := InsertIntoPage(i, row);
          return Ok([filled]);
        }
        i := i + 1;
      }
      r := InsertIntoNewPage(row);
    }

    /** The end of insertTuple when every page is full: write an empty page as
        page number numPages(), then insert into the last page of the grown file. */
    method InsertIntoNewPage(row: Row) returns (r: Result<seq<HeapPage>>)
      requires Valid() && |pages| + 1 < MaxPages
      modifies this
      ensures Valid()
      ensures var n := old(|pages|);
              && length == PageOffset(n) + PageSize
              && (numSlots > 0 ==>
                    && pages == old(pages) + [PageInsert(EmptySlots(numSlots), row).value]
                    && r == Ok([HeapPage(PageId(id, n), pages[n])]))
              && (numSlots == 0 ==> pages == old(pages) + [EmptySlots(0)] && r == Err(DbException))
    {
      var n := NumPages();
      var _ := WritePage(HeapPage(PageId(id, n), EmptySlots(numSlots)));
      var page := GetPage(PageId(id, NumPages() - 1)).value;
      if PageInsert(page.slots, row).None? {
        return Err(DbException);
      }
      var filled := InsertIntoPage(n, row);
      r := Ok([filled]);
    }

    /** HeapPage.insertTuple on the buffer pool's copy of page `k`, which is
        changed in place. */
    method InsertIntoPage(k: nat, row: Row) returns (page: HeapPage)
      requires Valid() && k < |pages| && NumEmptySlots(pages[k]) > 0
      modifies this`pages
      ensures Valid()
      ensures pages == old(pages)[k := PageInsert(old(pages)[k], row).value]
      ensures page == HeapPage(PageId(id, k), pages[k])
    {
      var filled := PageInsert(pages[k], row).value;
      pages := pages[k := filled];
      page := HeapPage(PageId(id, k), filled);
    }

    /** deleteTuple: clears the slot named by the tuple's record id on that one page,
        or fails when the record id is missing, names no page of this file, or its
        slot does not hold this tuple's row. Returns the one page it changed. */
    method DeleteTuple(t: Tuple) returns (r: Result<seq<HeapPage>>)
      requires Valid()
      modifies this
      ensures Valid() && length == old(length)
      ensures t.rid.None? ==> r == Err(NullPointerException)
      ensures r.Err? ==> pages == old(pages)
      ensures t.rid.Some? && t.rid.value.pid.tableId != id ==> r == Err(DbException)
      ensures t.rid.Some? && t.rid.value.pid.tableId == id && !(0 <= t.rid.value.pid.pageNumber < old(|pages|)) ==>
                r == Err(IllegalArgumentException)
      ensures t.rid.Some? && t.rid.value.pid.tableId == id && 0 <= t.rid.value.pid.pageNumber < old(|pages|)
              && PageDelete(old(pages)[t.rid.value.pid.pageNumber], t.rid.value.slot, t.fields).None? ==>
                r == Err(DbException)
      ensures r.Ok? <==>
                && t.rid.Some? && t.rid.value.pid.tableId == id
                && 0 <= t.rid.value.pid.pageNumber < old(|pages|)
                && PageDelete(old(pages)[t.rid.value.pid.pageNumber], t.rid.value.slot, t.fields).Some?
      ensures r.Ok? ==>
                var pn := t.rid.value.pid.pageNumber;
                && pages == old(pages)[pn := PageDelete(old(pages)[pn], t.rid.value.slot, t.fields).value]
                && r.value == [HeapPage(t.rid.value.pid, pages[pn])]
    {
      if t.rid.None? {
        return Err(NullPointerException);
      }
      var got := GetPage(t.rid.value.pid);
      if got.Err? {
        return Err(got.error);
      }
      var heapPage := got.value;
      var cleared := PageDelete(heapPage.slots, t.rid.value.slot, t.fields);
      if cleared.None? {
        return Err(DbException);
      }
      var pn := heapPage.pid.pageNumber;
      pages := pages[pn := cleared.value];
      r := Ok([HeapPage(heapPage.pid, cleared.value)]);
    }

    /** iterator(tid): a closed cursor over this file. */
    method Iterator() returns (iter: HeapFileIterator)
      ensures fresh(iter)
      ensures iter.heapFile == this && iter.it == None && iter.whichPage == 0
    {
      iter := new HeapFileIterator(this);
    }
  }

  /** HeapFileIterator: `it` holds the tuples of page `whichPage` still to be
      returned, or None before open() and after close(). */
  class HeapFileIterator {
    const heapFile: HeapFile
    var it: Option<seq<Tuple>>
    var whichPage: int

    /** The cursor is modelled for files below 2^31 pages, where numPages() is exact. */
    ghost predicate Valid()
      reads this, heapFile
    {
      heapFile.Valid() && |heapFile.pages| < MaxPages && whichPage >= 0
    }

    constructor (file: HeapFile)
      ensures heapFile == file && it == None && whichPage == 0
    {
      heapFile := file;
      it := None;
      whichPage := 0;
    }

    /** The tuples the cursor has yet to return, in order. */
    ghost function Remaining(): seq<Tuple>
      reads this, heapFile
      requires Valid()
    {
      match it
      case None => []
      case Some(current) => current + ScanFrom(heapFile.id, heapFile.pages, whichPage + 1)
    }

    /** getPageTuples: the tuples of one page of the file, or DbException for a
        page number outside the file. */
    function GetPageTuples(pageNumber: int): (r: Result<seq<Tuple>>)
      reads this, heapFile
      requires Valid()
      ensures r.Ok? <==> 0 <= pageNumber < heapFile.NumPages()
      ensures r.Ok? ==> r.value == PageTuples(PageId(heapFile.id, pageNumber), heapFile.pages[pageNumber])
      ensures r.Err? ==> r.error == DbException
    {
      if 0 <= pageNumber < heapFile.NumPages() then
        var page := heapFile.GetPage(PageId(heapFile.id, pageNumber)).value;
        Ok(PageTuples(page.pid, page.slots))
      else
        Err(DbException)
    }

    /** open: positions on page 0; a file without pages throws DbException and
        leaves `it` as it was. */
    method Open() returns (r: Result<()>)
      requires Valid()
      modifies this`it, this`whichPage
      ensures Valid() && whichPage == 0
      ensures r.Ok? <==> heapFile.NumPages() > 0
      ensures r.Err? ==> r.error == DbException && it == old(it)
      ensures r.Ok? ==> it == Some(PageTuples(PageId(heapFile.id, 0), heapFile.pages[0]))
      ensures r.Ok? ==> Remaining() == ScanFrom(heapFile.id, heapFile.pages, 0)
    {
      whichPage := 0;
      var tuples := GetPageTuples(whichPage);
      if tuples.Err? {
        return Err(tuples.error);
      }
      it := Some(tuples.value);
      r := Ok(());
    }

    /** hasNext: false while closed; otherwise moves forward over used-up pages
        until one has a tuple left or the last page is reached. It never changes
        what is left to return. */
    method HasNext() returns (b: bool)
      requires Valid()
      modifies this`it, this`whichPage
      ensures Valid()
      ensures b <==> old(Remaining()) != []
      ensures Remaining() == old(Remaining())
      ensures b ==> it.Some? && it.value != []
      ensures old(it).None? || old(it).value != [] ==> it == old(it) && whichPage == old(whichPage)
      ensures old(it).Some? && old(it).value == [] ==>
                whichPage == NextPageWithTuples(heapFile.pages, old(whichPage))
    {
      if it.None? {
        return false;
      }
      if it.value != [] {
        return true;
      }
      b := SkipUsedPages();
    }

    /** hasNext's loop, entered with the current page used up: advance until a
        page has a tuple or the last page is reached. */
    method SkipUsedPages() returns (b: bool)
      requires Valid() && it.Some? && it.value == []
      modifies this`it, this`whichPage
      ensures Valid()
      ensures b <==> old(Remaining()) != []
      ensures Remaining() == old(Remaining())
      ensures b ==> it.Some? && it.value != []
      ensures whichPage == NextPageWithTuples(heapFile.pages, old(whichPage))
    {
      ghost var pages, remaining := heapFile.pages, Remaining();
      ghost var target := NextPageWithTuples(pages, whichPage);
      assert heapFile.NumPages() == |pages|;
      while whichPage < heapFile.NumPages() - 1
        invariant Valid() && heapFile.pages == pages
        invariant it.Some? && it.value == []
        invariant NextPageWithTuples(pages, whichPage) == target
        invariant Remaining() == remaining
        decreases |pages| - whichPage
      {
        AdvancePage();
        if it.value != [] {
          return true;
        }
      }
      assert ScanFrom(heapFile.id, pages, whichPage + 1) == [];
      b := false;
    }

    /** One step of hasNext's loop: move to the next page and take its tuples.
        The current page being used up, nothing is skipped. */
    method AdvancePage()
      requires Valid() && it.Some? && it.value == [] && whichPage < heapFile.NumPages() - 1
      modifies this`it, this`whichPage
      ensures Valid() && whichPage == old(whichPage) + 1
      ensures it == Some(PageTuples(PageId(heapFile.id, whichPage), heapFile.pages[whichPage]))
      ensures Remaining() == old(Remaining())
      ensures it.value != [] ==> NextPageWithTuples(heapFile.pages, old(whichPage)) == whichPage
      ensures it.value == [] ==>
                NextPageWithTuples(heapFile.pages, old(whichPage)) == NextPageWithTuples(heapFile.pages, whichPage)
    {
      assert heapFile.NumPages() == |heapFile.pages|;
      ScanStep(heapFile.id, heapFile.pages, whichPage + 1);
      whichPage := whichPage + 1;
      var tuples := GetPageTuples(whichPage);
      it := Some(tuples.value);
    }

    /** next: the next tuple of the current page. It never moves to another page,
        so it throws NoSuchElementException once the current page is used up. */
    method Next() returns (r: Result<Tuple>)
      requires Valid()
      modifies this`it
      ensures Valid()
      ensures old(it).None? || old(it).value == [] ==>
                r == Err(NoSuchElementException) && it == old(it)
      ensures old(it).Some? && old(it).value != [] ==>
                r == Ok(old(it).value[0]) && it == Some(old(it).value[1..])
      ensures r.Ok? ==> old(Remaining()) == [r.value] + Remaining()
    {
      if it.None? || it.value == [] {
        return Err(NoSuchElementException);
      }
      ghost var rest := ScanFrom(heapFile.id, heapFile.pages, whichPage + 1);
      var current := it.value;
      assert current + rest == [current[0]] + (current[1..] + rest);
      r := Ok(current[0]);
      it := Some(current[1..]);
    }

    /** rewind: close followed by open. */
    method Rewind() returns (r: Result<()>)
      requires Valid()
      modifies this`it, this`whichPage
      ensures Valid() && whichPage == 0
      ensures r.Ok? <==> heapFile.NumPages() > 0
      ensures r.Err? ==> r.error == DbException && it == None
      ensures r.Ok? ==> Remaining() == ScanFrom(heapFile.id, heapFile.pages, 0)
    {
      Close();
      r := Open();
    }

    /** close: forgets the current page's tuples. */
    method Close()
      requires Valid()
      modifies this`it
      ensures Valid() && it == None && Remaining() == []
    {
      it := None;
    }
  }
}
