/** The slotted layout of B-tree pages (storage/btree.rs): a pointer array growing up from the
    page header, cells growing down from the end of the page. A leaf keeps its pointers eight
    bytes after the header offset, an interior page twelve. */
module Slotted {
  import opened Bytes

  const MAX_PAGE := 32768
  const LEAF_BASE := 8
  const INTERIOR_BASE := 12

  function CellCount(d: seq<byte>, h: nat): u16
    requires h + 8 <= |d|
  { U16(d, h + 3) }

  function ContentStart(d: seq<byte>, h: nat): u16
    requires h + 8 <= |d|
  { U16(d, h + 5) }

  function PtrOffset(h: nat, base: nat, i: nat): nat { h + base + 2 * i }

  function Ptr(d: seq<byte>, h: nat, base: nat, i: nat): u16
    requires PtrOffset(h, base, i) + 2 <= |d|
  { U16(d, PtrOffset(h, base, i)) }

  function Ptrs(d: seq<byte>, h: nat, base: nat, n: nat): (ptrs: seq<u16>)
    requires PtrOffset(h, base, n) <= |d|
    ensures |ptrs| == n
  { seq(n, i requires 0 <= i < n => Ptr(d, h, base, i)) }

  ghost predicate Apart(p: nat, a: seq<byte>, q: nat, b: seq<byte>) {
    p + |a| <= q || q + |b| <= p
  }

  /** The cells `bs` lie at `ptrs`, all at or above `start`, and no two share a byte. */
  ghost predicate Layout(d: seq<byte>, start: nat, ptrs: seq<u16>, bs: seq<seq<byte>>) {
    && |ptrs| == |bs|
    && (forall i | 0 <= i < |bs| :: start <= ptrs[i] && At(d, ptrs[i], bs[i]))
    && (forall i, j | 0 <= i < j < |bs| :: Apart(ptrs[i], bs[i], ptrs[j], bs[j]))
  }

  /** Page `d` stores exactly the cells `bs`, in pointer order, clear of header and pointers. */
  ghost predicate Slots(d: seq<byte>, h: nat, base: nat, bs: seq<seq<byte>>) {
    && base >= 8
    && PtrOffset(h, base, |bs|) <= |d| <= MAX_PAGE
    && CellCount(d, h) == |bs|
    && PtrOffset(h, base, |bs|) <= ContentStart(d, h) <= |d|
    && Layout(d, ContentStart(d, h), Ptrs(d, h, base, |bs|), bs)
  }

  function InsertAt<T>(s: seq<T>, i: nat, x: T): (r: seq<T>)
    requires i <= |s|
    ensures |r| == |s| + 1 && r[i] == x
    ensures forall k | 0 <= k < i :: r[k] == s[k]
    ensures forall k | i < k < |r| :: r[k] == s[k - 1]
  { s[..i] + [x] + s[i..] }

  function RemoveAt<T>(s: seq<T>, i: nat): (r: seq<T>)
    requires i < |s|
    ensures |r| == |s| - 1
    ensures forall k | 0 <= k < i :: r[k] == s[k]
    ensures forall k | i <= k < |r| :: r[k] == s[k + 1]
  { s[..i] + s[i + 1..] }

  /** The space test: one more pointer, one more cell, and one byte to spare. */
  predicate Room(d: seq<byte>, h: nat, base: nat, len: nat)
    requires h + 8 <= |d|
  {
    PtrOffset(h, base, CellCount(d, h) + 1) + 1 + len <= ContentStart(d, h)
  }

  /** Nothing but the count, the content start and the bytes behind the header changed. */
  ghost predicate HeaderKept(d: seq<byte>, d': seq<byte>, h: nat, base: nat) {
    && |d'| == |d| >= h + base >= h + 8
    && (forall k | 0 <= k < h + 3 :: d'[k] == d[k])
    && (forall k | h + 7 <= k < h + base :: d'[k] == d[k])
  }

  lemma LayoutAt(d: seq<byte>, start: nat, ptrs: seq<u16>, bs: seq<seq<byte>>, i: nat)
    requires Layout(d, start, ptrs, bs) && i < |bs|
    ensures |ptrs| == |bs| && start <= ptrs[i] && At(d, ptrs[i], bs[i])
  {
  }

  lemma SlotAt(d: seq<byte>, h: nat, base: nat, bs: seq<seq<byte>>, i: nat)
    requires Slots(d, h, base, bs) && i < |bs|
    ensures PtrOffset(h, base, i) + 2 <= |d|
    ensures ContentStart(d, h) <= Ptr(d, h, base, i) && At(d, Ptr(d, h, base, i), bs[i])
  {
    assert Ptrs(d, h, base, |bs|)[i] == Ptr(d, h, base, i);
  }

  lemma SlotsSize(d: seq<byte>, h: nat, base: nat, bs: seq<seq<byte>>)
    requires Slots(d, h, base, bs)
    ensures h + 8 <= |d| <= MAX_PAGE
  {
  }

  /** A new cell below the content area disturbs no stored cell. */
  lemma LayoutInserted(d: seq<byte>, d': seq<byte>, start: nat, ptrs: seq<u16>, bs: seq<seq<byte>>,
                       idx: nat, p: u16, cell: seq<byte>)
    requires Layout(d, start, ptrs, bs) && idx <= |bs| && p + |cell| <= start && |d'| == |d|
    requires At(d', p, cell)
    requires forall k | start <= k < |d| :: d'[k] == d[k]
    ensures Layout(d', p, InsertAt(ptrs, idx, p), InsertAt(bs, idx, cell))
  {
    forall i | 0 <= i < |bs| ensures At(d', ptrs[i], bs[i]) {
      AtKept(d, d', ptrs[i], bs[i]);
    }
  }

  lemma LayoutKept(d: seq<byte>, d': seq<byte>, start: nat, ptrs: seq<u16>, bs: seq<seq<byte>>)
    requires Layout(d, start, ptrs, bs) && |d'| == |d|
    requires forall k | start <= k < |d| :: d'[k] == d[k]
    ensures Layout(d', start, ptrs, bs)
  {
    forall i | 0 <= i < |bs| ensures At(d', ptrs[i], bs[i]) {
      AtKept(d, d', ptrs[i], bs[i]);
    }
  }

  /** Dropping a pointer drops its cell and nothing else. */
  lemma LayoutRemoved(d: seq<byte>, start: nat, ptrs: seq<u16>, bs: seq<seq<byte>>, idx: nat)
    requires Layout(d, start, ptrs, bs) && idx < |bs|
    ensures Layout(d, start, RemoveAt(ptrs, idx), RemoveAt(bs, idx))
  {
  }

  /** Overwriting one cell by another of the same length leaves the others alone. */
  lemma LayoutReplaced(d: seq<byte>, d': seq<byte>, start: nat, ptrs: seq<u16>, bs: seq<seq<byte>>,
                       idx: nat, cell: seq<byte>)
    requires Layout(d, start, ptrs, bs) && idx < |bs| && |cell| == |bs[idx]| && |d'| == |d|
    requires At(d', ptrs[idx], cell)
    requires forall k | 0 <= k < |d| && !(ptrs[idx] <= k < ptrs[idx] + |cell|) :: d'[k] == d[k]
    ensures Layout(d', start, ptrs, bs[idx := cell])
  {
    forall i | 0 <= i < |bs| && i != idx ensures At(d', ptrs[i], bs[i]) {
      assert Apart(ptrs[i], bs[i], ptrs[idx], bs[idx]);
      AtKept(d, d', ptrs[i], bs[i]);
    }
  }

  /** Rewrites pointer `i` of an array of `n`. */
  method WritePtr(data: array<byte>, h: nat, base: nat, n: nat, i: nat, v: u16)
    requires i < n && PtrOffset(h, base, n) <= data.Length
    modifies data
    ensures Ptrs(data[..], h, base, n) == old(Ptrs(data[..], h, base, n))[i := v]
    ensures forall k | 0 <= k < data.Length && !(PtrOffset(h, base, i) <= k < PtrOffset(h, base, i + 1)) :: data[k] == old(data[..])[k]
  {
    ghost var d := data[..];
    WriteU16(data, PtrOffset(h, base, i), v);
    forall k | 0 <= k < n && k != i ensures Ptr(data[..], h, base, k) == Ptr(d, h, base, k) {
      assert PtrOffset(h, base, k) + 2 <= PtrOffset(h, base, i) || PtrOffset(h, base, i) + 2 <= PtrOffset(h, base, k);
    }
  }

  /** Copies pointer `i` to the slot above it. */
  method ShiftPtr(data: array<byte>, h: nat, base: nat, n: nat, i: nat)
    requires i + 1 < n && PtrOffset(h, base, n) <= data.Length
    modifies data
    ensures var ptrs := old(Ptrs(data[..], h, base, n)); Ptrs(data[..], h, base, n) == ptrs[i + 1 := ptrs[i]]
    ensures forall k | 0 <= k < data.Length && !(PtrOffset(h, base, 0) <= k < PtrOffset(h, base, n)) :: data[k] == old(data[..])[k]
  {
    PtrsAt(data[..], h, base, n, i);
    hide Ptrs, Ptr;
    var oldPtr := Ptr(data[..], h, base, i);
    WritePtr(data, h, base, n, i + 1, oldPtr);
  }

  /** Shifts the pointers from `idx` on up by one and stores `v` at `idx`. */
  method InsertPtr(data: array<byte>, h: nat, base: nat, n: nat, idx: nat, v: u16)
    requires idx <= n && PtrOffset(h, base, n + 1) <= data.Length
    modifies data
    ensures Ptrs(data[..], h, base, n + 1) == InsertAt(old(Ptrs(data[..], h, base, n)), idx, v)
    ensures forall k | 0 <= k < data.Length && !(PtrOffset(h, base, 0) <= k < PtrOffset(h, base, n + 1)) :: data[k] == old(data[..])[k]
  {
    ghost var d, ptrs := data[..], Ptrs(data[..], h, base, n);
    ghost var cur := Ptrs(data[..], h, base, n + 1);
    PtrsPrefix(d, h, base, n);
    hide Ptrs, Ptr, InsertAt;
    var i := n;
    while i > idx
      invariant idx <= i <= n
      invariant cur == Ptrs(data[..], h, base, n + 1)
      invariant forall k | 0 <= k < i :: cur[k] == ptrs[k]
      invariant forall k | i <= k < n :: cur[k + 1] == ptrs[k]
      invariant forall k | 0 <= k < data.Length && !(PtrOffset(h, base, 0) <= k < PtrOffset(h, base, n + 1)) :: data[k] == d[k]
    {
      i := i - 1;
      ShiftPtr(data, h, base, n + 1, i);
      cur := cur[i + 1 := cur[i]];
    }
    WritePtr(data, h, base, n + 1, idx, v);
    ShiftedIsInsert(cur, ptrs, idx, v);
  }

  lemma ShiftedIsInsert(cur: seq<u16>, ptrs: seq<u16>, idx: nat, v: u16)
    requires idx <= |ptrs| && |cur| == |ptrs| + 1
    requires forall k | 0 <= k < idx :: cur[k] == ptrs[k]
    requires forall k | idx <= k < |ptrs| :: cur[k + 1] == ptrs[k]
    ensures cur[idx := v] == InsertAt(ptrs, idx, v)
  {
    forall k | 0 <= k <= |ptrs| ensures cur[idx := v][k] == InsertAt(ptrs, idx, v)[k] {
      if k > idx { assert cur[(k - 1) + 1] == ptrs[k - 1]; }
    }
  }

  lemma PtrsAt(d: seq<byte>, h: nat, base: nat, n: nat, i: nat)
    requires PtrOffset(h, base, n) <= |d| && i < n
    ensures PtrOffset(h, base, i) + 2 <= |d| && Ptrs(d, h, base, n)[i] == Ptr(d, h, base, i)
  {
    hide Ptr;
  }

  lemma PtrsPrefix(d: seq<byte>, h: nat, base: nat, n: nat)
    requires PtrOffset(h, base, n + 1) <= |d|
    ensures forall k | 0 <= k < n :: Ptrs(d, h, base, n + 1)[k] == Ptrs(d, h, base, n)[k]
  {
    hide Ptr;
  }

  /** Writes a whole pointer array. */
  method WritePtrs(data: array<byte>, h: nat, base: nat, ptrs: seq<u16>)
    requires PtrOffset(h, base, |ptrs|) <= data.Length
    modifies data
    ensures Ptrs(data[..], h, base, |ptrs|) == ptrs
    ensures forall k | 0 <= k < data.Length && !(PtrOffset(h, base, 0) <= k < PtrOffset(h, base, |ptrs|)) :: data[k] == old(data[..])[k]
  {
    ghost var d := data[..];
    ghost var cur := Ptrs(data[..], h, base, |ptrs|);
    for i := 0 to |ptrs|
      invariant cur == Ptrs(data[..], h, base, |ptrs|)
      invariant forall k | 0 <= k < i :: cur[k] == ptrs[k]
      invariant forall k | 0 <= k < data.Length && !(PtrOffset(h, base, 0) <= k < PtrOffset(h, base, |ptrs|)) :: data[k] == d[k]
    {
      WritePtr(data, h, base, |ptrs|, i, ptrs[i]);
      cur := cur[i := ptrs[i]];
    }
  }

  method SetCounts(data: array<byte>, h: nat, start: u16, count: u16)
    requires h + 8 <= data.Length
    modifies data
    ensures CellCount(data[..], h) == count && ContentStart(data[..], h) == start
    ensures forall k | 0 <= k < data.Length && !(h + 3 <= k < h + 7) :: data[k] == old(data[..])[k]
  {
    WriteU16(data, h + 5, start);
    WriteU16(data, h + 3, count);
  }

  /** `try_insert_*_cell` once the slot is known: refuse and touch nothing, or store the cell
      below the content area and make room for its pointer. */
  method InsertSlot(data: array<byte>, h: nat, base: nat, idx: nat, cell: seq<byte>, ghost bs: seq<seq<byte>>)
    returns (ok: bool)
    requires Slots(data[..], h, base, bs) && idx <= |bs|
    modifies data
    ensures ok <==> old(Room(data[..], h, base, |cell|))
    ensures !ok ==> data[..] == old(data[..])
    ensures ok ==> Slots(data[..], h, base, InsertAt(bs, idx, cell)) && HeaderKept(old(data[..]), data[..], h, base)
    ensures ok ==> ContentStart(data[..], h) == ContentStart(old(data[..]), h) - |cell|
  {
    hide At, Apart, Ptrs, Layout, InsertAt;
    ghost var d := data[..];
    var cellCount := CellCount(data[..], h);
    var minPtr := PtrOffset(h, base, cellCount + 1) + 1;
    var contentStart := ContentStart(data[..], h);
    var newStart := if contentStart < |cell| then 0 else contentStart - |cell|;
    if newStart < minPtr {
      return false;
    }
    ghost var ptrs := Ptrs(d, h, base, cellCount);
    CopyInto(data, newStart, cell);
    AtPointwise(data[..], newStart, cell);
    ghost var d1 := data[..];
    PtrsKept(d, d1, h, base, cellCount);
    InsertPtr(data, h, base, cellCount, idx, newStart);
    ghost var d2 := data[..];
    SetCounts(data, h, newStart, cellCount + 1);
    PtrsKept(d2, data[..], h, base, cellCount + 1);
    AtKept(d1, data[..], newStart, cell);
    LayoutInserted(d, data[..], contentStart, ptrs, bs, idx, newStart, cell);
    return true;
  }

  /** Moves the pointers behind `idx` down by one; the content area is left alone. */
  method RemoveSlot(data: array<byte>, h: nat, base: nat, idx: nat, ghost bs: seq<seq<byte>>)
    requires Slots(data[..], h, base, bs) && idx < |bs|
    modifies data
    ensures Slots(data[..], h, base, RemoveAt(bs, idx)) && HeaderKept(old(data[..]), data[..], h, base)
    ensures ContentStart(data[..], h) == ContentStart(old(data[..]), h)
  {
    hide At, Apart, Ptrs, Layout, RemoveAt;
    ghost var d := data[..];
    var n := CellCount(data[..], h);
    ghost var start, ptrs := ContentStart(d, h), Ptrs(d, h, base, n);
    RemovePtr(data, h, base, n, idx);
    ghost var d1 := data[..];
    SetCounts(data, h, ContentStart(data[..], h), n - 1);
    PtrsKept(d1, data[..], h, base, n - 1);
    LayoutKept(d, data[..], start, ptrs, bs);
    LayoutRemoved(data[..], start, ptrs, bs, idx);
  }

  method RemovePtr(data: array<byte>, h: nat, base: nat, n: nat, idx: nat)
    requires idx < n && PtrOffset(h, base, n) <= data.Length
    modifies data
    ensures Ptrs(data[..], h, base, n - 1) == RemoveAt(old(Ptrs(data[..], h, base, n)), idx)
    ensures forall k | 0 <= k < data.Length && !(PtrOffset(h, base, 0) <= k < PtrOffset(h, base, n)) :: data[k] == old(data[..])[k]
  {
    ghost var d, ptrs := data[..], Ptrs(data[..], h, base, n);
    ghost var cur := ptrs;
    for j := idx to n - 1
      invariant cur == Ptrs(data[..], h, base, n)
      invariant forall k | 0 <= k < idx :: cur[k] == ptrs[k]
      invariant forall k | j <= k < n :: cur[k] == ptrs[k]
      invariant forall k | idx <= k < j :: cur[k] == ptrs[k + 1]
      invariant forall k | 0 <= k < data.Length && !(PtrOffset(h, base, 0) <= k < PtrOffset(h, base, n)) :: data[k] == d[k]
    {
      var nextPtr := Ptr(data[..], h, base, j + 1);
      WritePtr(data, h, base, n, j, nextPtr);
      cur := cur[j := nextPtr];
    }
    assert cur[..n - 1] == RemoveAt(ptrs, idx);
    assert Ptrs(data[..], h, base, n - 1) == cur[..n - 1];
  }

  lemma SlotsReplaced(d: seq<byte>, d': seq<byte>, h: nat, base: nat, bs: seq<seq<byte>>, i: nat, cell: seq<byte>)
    requires Slots(d, h, base, bs) && i < |bs| && |cell| == |bs[i]| && |d'| == |d|
    requires At(d', Ptr(d, h, base, i), cell)
    requires forall k | 0 <= k < |d| && !(Ptr(d, h, base, i) <= k < Ptr(d, h, base, i) + |cell|) :: d'[k] == d[k]
    ensures Slots(d', h, base, bs[i := cell])
  {
    SlotAt(d, h, base, bs, i);
    assert Ptrs(d, h, base, |bs|)[i] == Ptr(d, h, base, i);
    PtrsKept(d, d', h, base, |bs|);
    LayoutReplaced(d, d', ContentStart(d, h), Ptrs(d, h, base, |bs|), bs, i, cell);
  }

  lemma PtrsKept(d: seq<byte>, d': seq<byte>, h: nat, base: nat, n: nat)
    requires PtrOffset(h, base, n) <= |d| == |d'|
    requires forall k | PtrOffset(h, base, 0) <= k < PtrOffset(h, base, n) :: d'[k] == d[k]
    ensures Ptrs(d', h, base, n) == Ptrs(d, h, base, n)
  {
    forall i | 0 <= i < n ensures Ptr(d', h, base, i) == Ptr(d, h, base, i) {
      assert PtrOffset(h, base, i) + 2 <= PtrOffset(h, base, n);
    }
  }
}
