// The contract HeapFile relies on from HeapPage: a page is a fixed number of
// slots, each empty or holding one row. HeapPage's byte layout and header
// bitmap are not part of this model; only what HeapFile uses of a page is:
// its number of empty slots, insertion, deletion and its tuple iterator.
module PageContract {
  import opened JavaInt
  import opened Types

  /** BufferPool.getPageSize(): the engine-wide page size in bytes (its default). */
  const PageSize: nat := 4096

  /** The field values stored in one slot. */
  type Row = seq<Field>

  /** The slots of one page, in slot order; `None` is an empty slot. */
  type Slots = seq<Option<Row>>

  /** A page as the buffer pool hands it out: its id and its slots. */
  datatype HeapPage = HeapPage(pid: PageId, slots: Slots)

  /** The content of a freshly created page: every slot empty. */
  function EmptySlots(n: nat): (s: Slots)
    ensures |s| == n && NumEmptySlots(s) == n && Rows(s) == multiset{}
  {
    var s := seq(n, _ => None);
    AllEmpty(s);
    s
  }

  lemma {:induction false} AllEmpty(s: Slots)
    requires forall i :: 0 <= i < |s| ==> s[i].None?
    ensures NumEmptySlots(s) == |s| && Rows(s) == multiset{}
  {
    if s != [] {
      AllEmpty(s[..|s| - 1]);
    }
  }

  /** HeapPage.getNumEmptySlots(): how many slots hold no row. */
  function NumEmptySlots(s: Slots): (k: nat)
    ensures k <= |s|
  {
    if s == [] then 0
    else NumEmptySlots(s[..|s| - 1]) + (if s[|s| - 1].None? then 1 else 0)
  }

  /** A page is full exactly when none of its slots is empty. */
  lemma {:induction false} FullIffNoEmptySlot(s: Slots)
    ensures NumEmptySlots(s) == 0 <==> forall i :: 0 <= i < |s| ==> s[i].Some?
  {
    if s != [] {
      var n := |s|;
      FullIffNoEmptySlot(s[..n - 1]);
      assert forall i :: 0 <= i < n - 1 ==> s[..n - 1][i] == s[i];
    }
  }

  /** The row a slot holds, as a multiset of zero or one rows. */
  function Occupant(o: Option<Row>): multiset<Row>
  {
    if o.Some? then multiset{o.value} else multiset{}
  }

  /** Every row stored on a page, with multiplicity. */
  function Rows(s: Slots): multiset<Row>
  {
    if s == [] then multiset{}
    else Rows(s[..|s| - 1]) + Occupant(s[|s| - 1])
  }

  /** What replacing one slot does to the empty-slot count. */
  lemma {:induction false} UpdateSlotCount(s: Slots, j: int, x: Option<Row>)
    requires 0 <= j < |s|
    ensures NumEmptySlots(s[j := x]) ==
            NumEmptySlots(s) - (if s[j].None? then 1 else 0) + (if x.None? then 1 else 0)
  {
    var t, n := s[j := x], |s|;
    if j == n - 1 {
      assert t[..n - 1] == s[..n - 1];
    } else {
      UpdateSlotCount(s[..n - 1], j, x);
      assert t[..n - 1] == s[..n - 1][j := x];
    }
  }

  /** What replacing one slot does to the rows a page stores: the slot's old
      occupant leaves and the new one arrives. */
  lemma {:induction false} UpdateSlotRows(s: Slots, j: int, x: Option<Row>)
    requires 0 <= j < |s|
    ensures Rows(s[j := x]) + Occupant(s[j]) == Rows(s) + Occupant(x)
  {
    var t, n := s[j := x], |s|;
    var s', t' := s[..n - 1], t[..n - 1];
    if j == n - 1 {
      assert t' == s';
    } else {
      assert s'[j] == s[j];
      assert t' == s'[j := x];
      UpdateSlotRows(s', j, x);
      assert t[n - 1] == s[n - 1];
      Rearrange(Rows(t'), Occupant(s[j]), Rows(s'), Occupant(x), Occupant(s[n - 1]));
    }
  }

  lemma Rearrange<T>(a: multiset<T>, b: multiset<T>, c: multiset<T>, d: multiset<T>, e: multiset<T>)
    requires a + b == c + d
    ensures (a + e) + b == (c + e) + d
  {
    forall z ensures ((a + e) + b)[z] == ((c + e) + d)[z] {
      assert (a + b)[z] == (c + d)[z];
    }
  }

  /** The lowest-numbered empty slot, or |s| when the page is full. */
  function FirstEmpty(s: Slots): (j: nat)
    ensures j <= |s|
    ensures forall i :: 0 <= i < j ==> s[i].Some?
    ensures j < |s| ==> s[j].None?
  {
    if s == [] || s[0].None? then 0 else 1 + FirstEmpty(s[1..])
  }

  /** HeapPage.insertTuple: fails (DbException in the source) on a full page;
      otherwise exactly one empty slot now holds the row and nothing else changes. */
  function PageInsert(s: Slots, row: Row): (r: Option<Slots>)
    ensures r.Some? <==> NumEmptySlots(s) > 0
    ensures r.Some? ==> |r.value| == |s| && NumEmptySlots(r.value) == NumEmptySlots(s) - 1
    ensures r.Some? ==> Rows(r.value) == Rows(s) + multiset{row}
    ensures r.Some? ==> forall i :: 0 <= i < |s| && r.value[i] != s[i] ==> s[i].None? && r.value[i] == Some(row)
  {
    var j := FirstEmpty(s);
    FullIffNoEmptySlot(s);
    if j == |s| then None
    else
      UpdateSlotCount(s, j, Some(row));
      UpdateSlotRows(s, j, Some(row));
      Some(s[j := Some(row)])
  }

  /** HeapPage.deleteTuple: fails (DbException in the source) unless the tuple's
      slot exists and holds exactly this row; otherwise that slot is emptied. */
  function PageDelete(s: Slots, slot: int, row: Row): (r: Option<Slots>)
    ensures r.Some? <==> 0 <= slot < |s| && s[slot] == Some(row)
    ensures r.Some? ==> |r.value| == |s| && r.value[slot].None?
    ensures r.Some? ==> forall i :: 0 <= i < |s| && i != slot ==> r.value[i] == s[i]
    ensures r.Some? ==> NumEmptySlots(r.value) == NumEmptySlots(s) + 1
    ensures r.Some? ==> row in Rows(s) && Rows(r.value) == Rows(s) - multiset{row}
  {
    if 0 <= slot < |s| && s[slot] == Some(row) then
      UpdateSlotCount(s, slot, None);
      UpdateSlotRows(s, slot, None);
      assert Rows(s[slot := None]) + multiset{row} == Rows(s);
      Some(s[slot := None])
    else None
  }

  /** The rows of a sequence of tuples, in order. */
  function RowsOf(ts: seq<Tuple>): (r: seq<Row>)
    ensures |r| == |ts| && forall i :: 0 <= i < |ts| ==> r[i] == ts[i].fields
  {
    seq(|ts|, i requires 0 <= i < |ts| => ts[i].fields)
  }

  /** HeapPage.iterator(): the page's occupied slots in ascending slot order,
      each read back as a tuple whose record id names this page and that slot. */
  function PageTuples(pid: PageId, s: Slots): (ts: seq<Tuple>)
    ensures |ts| == |s| - NumEmptySlots(s)
    ensures forall k :: 0 <= k < |ts| ==>
              && ts[k].rid.Some? && ts[k].rid.value.pid == pid
              && 0 <= ts[k].rid.value.slot < |s| && s[ts[k].rid.value.slot] == Some(ts[k].fields)
    ensures forall k, l :: 0 <= k < l < |ts| ==>
              ts[k].rid.Some? && ts[l].rid.Some? && ts[k].rid.value.slot < ts[l].rid.value.slot
  {
    if s == [] then []
    else
      var n := |s|;
      var front := PageTuples(pid, s[..n - 1]);
      if s[n - 1].Some? then
        var ts := front + [Tuple(s[n - 1].value, Some(RecordId(pid, n - 1)))];
        assert ts[..|ts| - 1] == front;
        assert forall k :: 0 <= k < |front| ==> ts[k] == front[k];
        assert forall i :: 0 <= i < n - 1 ==> s[..n - 1][i] == s[i];
        ts
      else
        assert forall i :: 0 <= i < n - 1 ==> s[..n - 1][i] == s[i];
        front
  }

  /** The page iterator yields every stored row exactly as often as the page holds it. */
  lemma {:induction false} PageTuplesRows(pid: PageId, s: Slots)
    ensures multiset(RowsOf(PageTuples(pid, s))) == Rows(s)
  {
    if s != [] {
      var n := |s|;
      var front := PageTuples(pid, s[..n - 1]);
      PageTuplesRows(pid, s[..n - 1]);
      if s[n - 1].Some? {
        var last := Tuple(s[n - 1].value, Some(RecordId(pid, n - 1)));
        assert RowsOf(front + [last]) == RowsOf(front) + [last.fields];
      }
    }
  }
}
