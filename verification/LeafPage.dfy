/** Table leaf pages (storage/btree.rs): rows as cells of rowid, payload length and payload. */
module LeafPage {
  import opened Bytes
  import opened Varint
  import opened Slotted

  const LEAF_TABLE: byte := 0x0d

  datatype Cell = Cell(key: nat, payload: seq<byte>)

  // ---- Lists of cells --------------------------------------------------------

  function CellBytes(c: Cell): (b: seq<byte>)
    ensures |b| >= 2 + |c.payload|
  { Enc(c.key) + (Enc(|c.payload|) + c.payload) }

  function Raw(cells: seq<Cell>): (bs: seq<seq<byte>>)
    ensures |bs| == |cells|
  { seq(|cells|, i requires 0 <= i < |cells| => CellBytes(cells[i])) }

  lemma RawInsert(cells: seq<Cell>, idx: nat, c: Cell)
    requires idx <= |cells|
    ensures Raw(InsertAt(cells, idx, c)) == InsertAt(Raw(cells), idx, CellBytes(c))
  {
  }

  lemma RawRemove(cells: seq<Cell>, idx: nat)
    requires idx < |cells|
    ensures Raw(RemoveAt(cells, idx)) == RemoveAt(Raw(cells), idx)
  {
  }

  lemma RawUpdate(cells: seq<Cell>, idx: nat, c: Cell)
    requires idx < |cells|
    ensures Raw(cells[idx := c]) == Raw(cells)[idx := CellBytes(c)]
  {
  }

  ghost predicate Sorted(cells: seq<Cell>) {
    forall i, j | 0 <= i < j < |cells| :: cells[i].key < cells[j].key
  }

  /** Rowids the reader gives back unchanged. */
  ghost predicate Keyed(cells: seq<Cell>) {
    forall c | c in cells :: c.key < TWO56
  }

  ghost predicate HasKey(cells: seq<Cell>, key: int) {
    exists i | 0 <= i < |cells| :: cells[i].key == key
  }

  function SortedInsert(cells: seq<Cell>, c: Cell): (r: seq<Cell>)
    ensures |r| == |cells| + 1
  {
    if cells == [] || c.key < cells[0].key then [c] + cells
    else [cells[0]] + SortedInsert(cells[1..], c)
  }

  function RemoveKey(cells: seq<Cell>, key: int): seq<Cell> {
    if cells == [] then []
    else (if cells[0].key == key then [] else [cells[0]]) + RemoveKey(cells[1..], key)
  }

  function ReplaceKey(cells: seq<Cell>, key: int, payload: seq<byte>): (r: seq<Cell>)
    ensures |r| == |cells|
  {
    seq(|cells|, i requires 0 <= i < |cells| => if cells[i].key == key then cells[i].(payload := payload) else cells[i])
  }

  /** `sort_by_key`: the stable sort by rowid. */
  function SortByKey(cells: seq<Cell>): (r: seq<Cell>)
    ensures |r| == |cells|
  {
    if cells == [] then [] else SortedInsert(SortByKey(cells[..|cells| - 1]), cells[|cells| - 1])
  }

  lemma {:induction false} SortedInsertIsInsertAt(cells: seq<Cell>, c: Cell, idx: nat)
    requires idx <= |cells|
    requires forall k | 0 <= k < idx :: cells[k].key <= c.key
    requires idx < |cells| ==> c.key < cells[idx].key
    ensures SortedInsert(cells, c) == InsertAt(cells, idx, c)
  {
    if idx == 0 {
      assert InsertAt(cells, 0, c) == [c] + cells;
    } else {
      SortedInsertIsInsertAt(cells[1..], c, idx - 1);
      assert InsertAt(cells, idx, c) == [cells[0]] + InsertAt(cells[1..], idx - 1, c);
    }
  }

  /** Where a key goes in a sorted list. */
  ghost function Slot(cells: seq<Cell>, key: int): (idx: nat)
    ensures idx <= |cells|
    ensures forall k | 0 <= k < idx :: cells[k].key <= key
    ensures idx < |cells| ==> key < cells[idx].key
  {
    if cells == [] || key < cells[0].key then 0
    else
      assert forall k | 0 <= k < |cells| - 1 :: cells[1..][k] == cells[k + 1];
      1 + Slot(cells[1..], key)
  }

  lemma SortedInsertKeeps(cells: seq<Cell>, c: Cell)
    requires Sorted(cells) && Keyed(cells) && !HasKey(cells, c.key) && c.key < TWO56
    ensures Sorted(SortedInsert(cells, c)) && Keyed(SortedInsert(cells, c))
  {
    hide Sorted, Keyed, HasKey, SortedInsert, InsertAt;
    var i := Slot(cells, c.key);
    SortedInsertIsInsertAt(cells, c, i);
    InsertedSorted(cells, c, i);
    InsertedKeyed(cells, c, i);
  }

  lemma InsertedSorted(cells: seq<Cell>, c: Cell, i: nat)
    requires Sorted(cells) && !HasKey(cells, c.key) && i <= |cells|
    requires (forall k | 0 <= k < i :: cells[k].key <= c.key) && (i < |cells| ==> c.key < cells[i].key)
    ensures Sorted(InsertAt(cells, i, c))
  {
    hide InsertAt;
    assert forall k | 0 <= k < |cells| :: cells[k].key != c.key;
  }

  lemma InsertedKeyed(cells: seq<Cell>, c: Cell, i: nat)
    requires Keyed(cells) && c.key < TWO56 && i <= |cells|
    ensures Keyed(InsertAt(cells, i, c))
  {
  }

  lemma {:induction false} SortByKeyOfSorted(cells: seq<Cell>)
    requires Sorted(cells)
    ensures SortByKey(cells) == cells
  {
    if cells != [] {
      var n := |cells| - 1;
      SortByKeyOfSorted(cells[..n]);
      SortedInsertIsInsertAt(cells[..n], cells[n], n);
      assert InsertAt(cells[..n], n, cells[n]) == cells;
    }
  }

  /** Appending a row to a sorted list and sorting is inserting it. */
  lemma SortByKeyOfAppended(cells: seq<Cell>, c: Cell)
    requires Sorted(cells)
    ensures SortByKey(cells + [c]) == SortedInsert(cells, c)
  {
    assert (cells + [c])[..|cells|] == cells;
    SortByKeyOfSorted(cells);
  }

  lemma {:induction false} RemoveKeyAbsent(cells: seq<Cell>, key: int)
    requires !HasKey(cells, key)
    ensures RemoveKey(cells, key) == cells
  {
    if cells != [] {
      assert forall i | 0 <= i < |cells| - 1 :: cells[1..][i] == cells[i + 1];
      RemoveKeyAbsent(cells[1..], key);
      assert cells[0].key != key;
    }
  }

  lemma {:induction false} NoKeyAfterRemove(cells: seq<Cell>, key: int)
    ensures !HasKey(RemoveKey(cells, key), key)
  {
    if cells != [] {
      var rest := RemoveKey(cells[1..], key);
      NoKeyAfterRemove(cells[1..], key);
      assert [] + rest == rest;
      assert forall i | 0 < i < 1 + |rest| :: ([cells[0]] + rest)[i] == rest[i - 1];
    }
  }

  lemma {:induction false} RemoveKeySubset(cells: seq<Cell>, key: int)
    ensures forall c | c in RemoveKey(cells, key) :: HasKey(cells, c.key)
  {
    if cells != [] {
      RemoveKeySubset(cells[1..], key);
      forall c | c in RemoveKey(cells, key) ensures HasKey(cells, c.key) {
        if c != cells[0] {
          var i :| 0 <= i < |cells[1..]| && cells[1..][i].key == c.key;
          assert cells[i + 1].key == c.key;
        }
      }
    }
  }

  lemma ReplaceKeySubset(cells: seq<Cell>, key: int, payload: seq<byte>)
    ensures forall c | c in ReplaceKey(cells, key, payload) :: HasKey(cells, c.key)
    ensures Sorted(cells) ==> Sorted(ReplaceKey(cells, key, payload))
  {
  }

  lemma SortedTail(cells: seq<Cell>)
    requires Sorted(cells) && cells != []
    ensures Sorted(cells[1..]) && !HasKey(cells[1..], cells[0].key)
    ensures forall i | 0 < i < |cells| :: cells[0].key != cells[i].key
  {
  }

  lemma {:induction false} RemoveKeyIsRemoveAt(cells: seq<Cell>, idx: nat)
    requires Sorted(cells) && idx < |cells|
    ensures RemoveKey(cells, cells[idx].key) == RemoveAt(cells, idx)
  {
    hide Sorted, HasKey;
    SortedTail(cells);
    if idx == 0 {
      RemoveKeyAbsent(cells[1..], cells[0].key);
      assert RemoveAt(cells, 0) == cells[1..];
    } else {
      assert cells[1..][idx - 1] == cells[idx] && cells[0].key != cells[idx].key;
      RemoveKeyIsRemoveAt(cells[1..], idx - 1);
      assert RemoveAt(cells, idx) == [cells[0]] + RemoveAt(cells[1..], idx - 1);
    }
  }

  /** Inserting, removing and replacing a row acts on the one part of the list it belongs to. */
  lemma {:induction false} InsertInMiddle(a: seq<Cell>, b: seq<Cell>, c: seq<Cell>, cell: Cell)
    requires (forall x | x in a :: x.key < cell.key) && forall x | x in c :: cell.key < x.key
    ensures SortedInsert(a + b + c, cell) == a + SortedInsert(b, cell) + c
  {
    hide SortedInsert;
    assert a + b + c == a + (b + c);
    InsertBehind(a, b + c, cell);
    InsertBefore(b, c, cell);
  }

  lemma {:induction false} InsertBehind(a: seq<Cell>, s: seq<Cell>, cell: Cell)
    requires forall x | x in a :: x.key < cell.key
    ensures SortedInsert(a + s, cell) == a + SortedInsert(s, cell)
  {
    if a == [] {
      assert a + s == s;
    } else {
      assert (a + s)[1..] == a[1..] + s;
      InsertBehind(a[1..], s, cell);
    }
  }

  lemma {:induction false} InsertBefore(b: seq<Cell>, c: seq<Cell>, cell: Cell)
    requires forall x | x in c :: cell.key < x.key
    ensures SortedInsert(b + c, cell) == SortedInsert(b, cell) + c
  {
    if b == [] {
      assert b + c == c;
    } else if b[0].key <= cell.key {
      assert (b + c)[1..] == b[1..] + c;
      InsertBefore(b[1..], c, cell);
    }
  }

  lemma {:induction false} RemoveConcat(a: seq<Cell>, b: seq<Cell>, key: int)
    ensures RemoveKey(a + b, key) == RemoveKey(a, key) + RemoveKey(b, key)
  {
    if a == [] {
      assert a + b == b;
    } else {
      RemoveConcat(a[1..], b, key);
      assert (a + b)[1..] == a[1..] + b && (a + b)[0] == a[0];
      var head := if a[0].key == key then [] else [a[0]];
      assert RemoveKey(a + b, key) == head + RemoveKey(a[1..] + b, key);
      assert head + (RemoveKey(a[1..], key) + RemoveKey(b, key)) == head + RemoveKey(a[1..], key) + RemoveKey(b, key);
    }
  }

  lemma HasKeyConcat(a: seq<Cell>, b: seq<Cell>, c: seq<Cell>, key: int)
    ensures HasKey(a + b + c, key) <==> HasKey(a, key) || HasKey(b, key) || HasKey(c, key)
  {
    var s := a + b + c;
    if i :| 0 <= i < |a| && a[i].key == key { assert s[i].key == key; }
    if i :| 0 <= i < |b| && b[i].key == key { assert s[|a| + i].key == key; }
    if i :| 0 <= i < |c| && c[i].key == key { assert s[|a| + |b| + i].key == key; }
  }

  lemma RemoveInMiddle(a: seq<Cell>, b: seq<Cell>, c: seq<Cell>, key: int)
    requires !HasKey(a, key) && !HasKey(c, key)
    ensures RemoveKey(a + b + c, key) == a + RemoveKey(b, key) + c
  {
    RemoveConcat(a + b, c, key);
    RemoveConcat(a, b, key);
    RemoveKeyAbsent(a, key);
    RemoveKeyAbsent(c, key);
  }

  lemma ReplaceInMiddle(a: seq<Cell>, b: seq<Cell>, c: seq<Cell>, key: int, payload: seq<byte>)
    requires !HasKey(a, key) && !HasKey(c, key)
    ensures ReplaceKey(a + b + c, key, payload) == a + ReplaceKey(b, key, payload) + c
  {
  }

  /** Deleting a row and inserting it again with another payload is replacing its payload. */
  lemma ReinsertIsReplace(cells: seq<Cell>, key: nat, payload: seq<byte>)
    requires Sorted(cells) && HasKey(cells, key)
    ensures SortedInsert(RemoveKey(cells, key), Cell(key, payload)) == ReplaceKey(cells, key, payload)
  {
    hide RemoveKey, SortedInsert, ReplaceKey, RemoveAt, InsertAt;
    var i :| 0 <= i < |cells| && cells[i].key == key;
    RemoveKeyIsRemoveAt(cells, i);
    SortedInsertIsInsertAt(RemoveAt(cells, i), Cell(key, payload), i);
    ReplaceKeyAt(cells, i, payload);
  }

  lemma ReplaceKeyAt(cells: seq<Cell>, i: nat, payload: seq<byte>)
    requires Sorted(cells) && i < |cells|
    ensures ReplaceKey(cells, cells[i].key, payload) == InsertAt(RemoveAt(cells, i), i, Cell(cells[i].key, payload))
  {
    hide RemoveAt, InsertAt;
  }

  // ---- Bytes -------------------------------------------------------------------

  ghost predicate LeafHolds(d: seq<byte>, h: nat, cells: seq<Cell>) {
    && h + 8 <= |d| && d[h] == LEAF_TABLE
    && Slots(d, h, LEAF_BASE, Raw(cells))
    && Sorted(cells) && Keyed(cells)
  }

  /** `rowid as i64`. */
  function AsI64(u: u64): i64 { if u < TWO63 then u else u - TWO64 }

  /** `read_cell_rowid`. */
  function ReadRowid(d: seq<byte>, p: nat): (r: Result<(i64, nat)>)
    ensures r.Ok? ==> p < r.value.1 <= |d|
  {
    var v :- Read(d, p);
    Ok((AsI64(v.0), p + v.1))
  }

  /** Reading a stored cell gives back its rowid and its payload. */
  lemma ReadCell(d: seq<byte>, p: nat, c: Cell)
    requires At(d, p, CellBytes(c)) && c.key < TWO56 && |d| <= MAX_PAGE
    ensures ReadRowid(d, p) == Ok((c.key, p + |Enc(c.key)|))
    ensures Read(d, p + |Enc(c.key)|) == Ok((|c.payload|, |Enc(|c.payload|)|))
    ensures At(d, p + |Enc(c.key)| + |Enc(|c.payload|)|, c.payload)
    ensures p + |CellBytes(c)| == p + |Enc(c.key)| + |Enc(|c.payload|)| + |c.payload|
  {
    hide Enc, Read, At;
    AtInside(d, p, CellBytes(c));
    AtParts(d, p, Enc(c.key), Enc(|c.payload|) + c.payload);
    AtParts(d, p + |Enc(c.key)|, Enc(|c.payload|), c.payload);
    ReadEnc(d, p, c.key);
    ReadEnc(d, p + |Enc(c.key)|, |c.payload|);
    assert |CellBytes(c)| == |Enc(c.key)| + |Enc(|c.payload|)| + |c.payload|;
  }

  lemma LeafCell(d: seq<byte>, h: nat, cells: seq<Cell>, i: nat)
    requires LeafHolds(d, h, cells) && i < |cells|
    ensures PtrOffset(h, LEAF_BASE, i) + 2 <= |d|
    ensures ContentStart(d, h) <= Ptr(d, h, LEAF_BASE, i)
    ensures At(d, Ptr(d, h, LEAF_BASE, i), CellBytes(cells[i])) && cells[i].key < TWO56
    ensures ReadRowid(d, Ptr(d, h, LEAF_BASE, i)) == Ok((cells[i].key, Ptr(d, h, LEAF_BASE, i) + |Enc(cells[i].key)|))
  {
    hide CellBytes, Enc, Read, ReadRowid, At, Slots, Raw, Sorted;
    SlotAt(d, h, LEAF_BASE, Raw(cells), i);
    SlotsSize(d, h, LEAF_BASE, Raw(cells));
    RawAt(cells, i);
    assert cells[i] in cells;
    ReadCell(d, Ptr(d, h, LEAF_BASE, i), cells[i]);
  }

  lemma RawAt(cells: seq<Cell>, i: nat)
    requires i < |cells|
    ensures Raw(cells)[i] == CellBytes(cells[i])
  {
  }

  lemma CellUnique(d: seq<byte>, p: nat, a: Cell, b: Cell)
    requires At(d, p, CellBytes(a)) && At(d, p, CellBytes(b)) && |d| <= MAX_PAGE
    requires a.key < TWO56 && b.key < TWO56
    ensures a == b
  {
    hide CellBytes, Enc, Read, ReadRowid, At;
    ReadCell(d, p, a);
    ReadCell(d, p, b);
    var q := p + |Enc(a.key)| + |Enc(|a.payload|)|;
    AtIsSlice(d, q, a.payload);
    AtIsSlice(d, q, b.payload);
  }

  /** A page holds at most one list of cells. */
  lemma LeafHoldsUnique(d: seq<byte>, h: nat, a: seq<Cell>, b: seq<Cell>)
    requires LeafHolds(d, h, a) && LeafHolds(d, h, b)
    ensures a == b
  {
    forall i | 0 <= i < |a| ensures a[i] == b[i] {
      LeafCell(d, h, a, i);
      LeafCell(d, h, b, i);
      CellUnique(d, Ptr(d, h, LEAF_BASE, i), a[i], b[i]);
    }
  }

  /** The bytes of a page outside its own header and content: page 1 keeps the database header. */
  ghost predicate PrefixKept(d: seq<byte>, d': seq<byte>, h: nat) {
    |d'| == |d| && h <= |d| && d'[..h] == d[..h]
  }

  // ---- Operations ----------------------------------------------------------------

  /** `build_table_cell`. A negative rowid overflows the varint writer. */
  method BuildTableCell(key: i64, record: seq<byte>) returns (cell: seq<byte>)
    requires 0 <= key && |record| < TWO63
    ensures cell == CellBytes(Cell(key, record))
  {
    var k := Encoded(key);
    var n := Encoded(|record|);
    cell := k + n + record;
  }

  /** The rowid in slot `i`, without its record. */
  method RowidInSlot(d: seq<byte>, h: nat, i: nat, ghost cells: seq<Cell>) returns (k: i64)
    requires LeafHolds(d, h, cells) && i < |cells|
    ensures k == cells[i].key
  {
    hide LeafHolds, ReadRowid, CellBytes, At;
    LeafCell(d, h, cells, i);
    return ReadRowid(d, Ptr(d, h, LEAF_BASE, i)).Extract().0;
  }

  lemma LeafCount(d: seq<byte>, h: nat, cells: seq<Cell>)
    requires LeafHolds(d, h, cells)
    ensures h + 8 <= |d| && CellCount(d, h) == |cells|
  {
  }

  /** The row scan shared by lookup, deletion and update: the slot of a rowid, or the row count. */
  method RowSlot(d: seq<byte>, h: nat, key: i64, ghost cells: seq<Cell>) returns (i: nat)
    requires LeafHolds(d, h, cells)
    ensures i <= |cells| && (forall k | 0 <= k < i :: cells[k].key != key)
    ensures i < |cells| ==> cells[i].key == key
  {
    hide LeafHolds, CellCount;
    LeafCount(d, h, cells);
    var cellCount := CellCount(d, h);
    i := 0;
    while i < cellCount
      invariant i <= |cells| && forall k | 0 <= k < i :: cells[k].key != key
    {
      var v := RowidInSlot(d, h, i, cells);
      if v == key {
        return;
      }
      i := i + 1;
    }
  }

  /** `find_cell_in_page_table`. */
  method FindCell(d: seq<byte>, h: nat, key: i64, ghost cells: seq<Cell>) returns (r: Option<i64>)
    requires LeafHolds(d, h, cells)
    ensures r == if HasKey(cells, key) then Some(key) else None
  {
    var i := RowSlot(d, h, key, cells);
    r := if i < CellCount(d, h) then Some(key) else None;
  }

  /** The slot `try_insert_leaf_cell` looks for: the first row with a larger rowid. */
  method InsertIndex(d: seq<byte>, h: nat, key: i64, ghost cells: seq<Cell>) returns (insertIdx: nat)
    requires LeafHolds(d, h, cells)
    ensures insertIdx <= |cells|
    ensures forall k | 0 <= k < insertIdx :: cells[k].key <= key
    ensures insertIdx < |cells| ==> key < cells[insertIdx].key
  {
    hide LeafHolds, CellCount;
    LeafCount(d, h, cells);
    var cellCount := CellCount(d, h);
    insertIdx := cellCount;
    for i := 0 to cellCount
      invariant insertIdx == cellCount
      invariant forall k | 0 <= k < i :: cells[k].key <= key
    {
      var v := RowidInSlot(d, h, i, cells);
      if key < v {
        insertIdx := i;
        break;
      }
    }
  }

  lemma LeafInserted(d': seq<byte>, h: nat, cells: seq<Cell>, idx: nat, c: Cell)
    requires Sorted(cells) && Keyed(cells) && !HasKey(cells, c.key) && c.key < TWO56
    requires idx <= |cells| && (forall k | 0 <= k < idx :: cells[k].key <= c.key)
    requires idx < |cells| ==> c.key < cells[idx].key
    requires Slots(d', h, LEAF_BASE, InsertAt(Raw(cells), idx, CellBytes(c)))
    requires d'[h] == LEAF_TABLE
    ensures LeafHolds(d', h, SortedInsert(cells, c))
  {
    SortedInsertIsInsertAt(cells, c, idx);
    SortedInsertKeeps(cells, c);
    RawInsert(cells, idx, c);
  }

  /** `try_insert_leaf_cell`. */
  method TryInsertLeafCell(data: array<byte>, h: nat, cell: seq<byte>, key: i64, ghost cells: seq<Cell>, ghost c: Cell)
    returns (ok: bool)
    requires LeafHolds(data[..], h, cells) && !HasKey(cells, key)
    requires key == c.key < TWO56 && cell == CellBytes(c)
    modifies data
    ensures ok <==> old(Room(data[..], h, LEAF_BASE, |cell|))
    ensures !ok ==> data[..] == old(data[..])
    ensures ok ==> LeafHolds(data[..], h, SortedInsert(cells, c)) && PrefixKept(old(data[..]), data[..], h)
  {
    ghost var d := data[..];
    var insertIdx := InsertIndex(data[..], h, key, cells);
    ok := InsertSlot(data, h, LEAF_BASE, insertIdx, cell, Raw(cells));
    if ok {
      LeafInserted(data[..], h, cells, insertIdx, c);
    }
  }

  lemma RemoveKeeps(cells: seq<Cell>, idx: nat)
    requires Sorted(cells) && Keyed(cells) && idx < |cells|
    ensures Sorted(RemoveAt(cells, idx)) && Keyed(RemoveAt(cells, idx))
  {
  }

  lemma LeafRemoved(d': seq<byte>, h: nat, cells: seq<Cell>, idx: nat)
    requires Sorted(cells) && Keyed(cells) && idx < |cells|
    requires Slots(d', h, LEAF_BASE, RemoveAt(Raw(cells), idx)) && d'[h] == LEAF_TABLE
    ensures LeafHolds(d', h, RemoveKey(cells, cells[idx].key))
  {
    RemoveKeyIsRemoveAt(cells, idx);
    RemoveKeeps(cells, idx);
    RawRemove(cells, idx);
  }

  /** The in-page half of `delete`: closes the pointer gap and leaves the cell bytes behind. */
  method DeleteFromLeaf(data: array<byte>, h: nat, key: i64, ghost cells: seq<Cell>) returns (found: bool)
    requires LeafHolds(data[..], h, cells)
    modifies data
    ensures found <==> HasKey(cells, key)
    ensures !found ==> data[..] == old(data[..])
    ensures LeafHolds(data[..], h, RemoveKey(cells, key)) && PrefixKept(old(data[..]), data[..], h)
    ensures ContentStart(data[..], h) == ContentStart(old(data[..]), h)
    ensures CellCount(data[..], h) == CellCount(old(data[..]), h) - if found then 1 else 0
  {
    var i := RowSlot(data[..], h, key, cells);
    if i == CellCount(data[..], h) {
      RemoveKeyAbsent(cells, key);
      return false;
    }
    RemoveSlot(data, h, LEAF_BASE, i, Raw(cells));
    LeafRemoved(data[..], h, cells, i);
    return true;
  }

  /** Where the payload of row `i` starts. */
  function PayloadOffset(d: seq<byte>, h: nat, i: nat, c: Cell): nat
    requires PtrOffset(h, LEAF_BASE, i) + 2 <= |d|
  {
    Ptr(d, h, LEAF_BASE, i) + |Enc(c.key)| + |Enc(|c.payload|)|
  }

  /** Reads length and start of the payload of row `i`. */
  method PayloadAt(d: seq<byte>, h: nat, i: nat, ghost cells: seq<Cell>) returns (start: nat, len: nat)
    requires LeafHolds(d, h, cells) && i < |cells|
    ensures PtrOffset(h, LEAF_BASE, i) + 2 <= |d| && start == PayloadOffset(d, h, i, cells[i])
    ensures len == |cells[i].payload| && At(d, start, cells[i].payload)
  {
    hide Enc, CellBytes, Layout;
    LeafCell(d, h, cells, i);
    var ptr := Ptr(d, h, LEAF_BASE, i);
    ReadCell(d, ptr, cells[i]);
    var v := ReadRowid(d, ptr).Extract();
    var l := Read(d, v.1).Extract();
    start, len := v.1 + l.1, l.0;
  }

  /** The in-page half of `update_table_row`: overwrites a payload of the same length, or declines. */
  method UpdateInLeaf(data: array<byte>, h: nat, key: i64, record: seq<byte>, ghost cells: seq<Cell>) returns (done: bool)
    requires LeafHolds(data[..], h, cells)
    modifies data
    ensures done <==> exists i | 0 <= i < |cells| :: cells[i].key == key && |cells[i].payload| == |record|
    ensures !done ==> data[..] == old(data[..])
    ensures done ==> LeafHolds(data[..], h, ReplaceKey(cells, key, record)) && PrefixKept(old(data[..]), data[..], h)
  {
    ghost var d := data[..];
    var i := RowSlot(data[..], h, key, cells);
    if i == CellCount(data[..], h) {
      return false;
    }
    var start, len := PayloadAt(data[..], h, i, cells);
    if |record| != len {
      return false;
    }
    CopyInto(data, start, record);
    LeafReplaced(d, data[..], h, cells, i, record);
    return true;
  }

  /** Overwriting a payload in place rewrites exactly that cell. */
  lemma CellReplaced(d: seq<byte>, d': seq<byte>, p: nat, c: Cell, record: seq<byte>)
    requires At(d, p, CellBytes(c)) && |record| == |c.payload|
    requires var start := p + |Enc(c.key)| + |Enc(|record|)|; start + |record| <= |d| && d' == Splice(d, start, record)
    ensures At(d', p, CellBytes(Cell(c.key, record)))
    ensures |CellBytes(Cell(c.key, record))| == |CellBytes(c)| == |Enc(c.key)| + |Enc(|record|)| + |record|
  {
    hide At, Enc, Splice;
    var k, l := Enc(c.key), Enc(|record|);
    AtParts(d, p, k, l + c.payload);
    AtParts(d, p + |k|, l, c.payload);
    AtKept(d, d', p, k);
    AtKept(d, d', p + |k|, l);
    AtPointwise(d', p + |k| + |l|, record);
    AtParts(d', p + |k|, l, record);
    AtParts(d', p, k, l + record);
  }

  lemma ReplaceIsUpdate(cells: seq<Cell>, i: nat, record: seq<byte>)
    requires Sorted(cells) && Keyed(cells) && i < |cells|
    ensures ReplaceKey(cells, cells[i].key, record) == cells[i := Cell(cells[i].key, record)]
    ensures Sorted(cells[i := Cell(cells[i].key, record)]) && Keyed(cells[i := Cell(cells[i].key, record)])
  {
    var r := cells[i := Cell(cells[i].key, record)];
    forall c | c in r ensures c.key < TWO56 {
      var j :| 0 <= j < |r| && r[j] == c;
      assert c.key == cells[j].key && cells[j] in cells;
    }
  }

  lemma LeafReplaced(d: seq<byte>, d': seq<byte>, h: nat, cells: seq<Cell>, i: nat, record: seq<byte>)
    requires LeafHolds(d, h, cells) && i < |cells| && |record| == |cells[i].payload|
    requires PtrOffset(h, LEAF_BASE, i) + 2 <= |d|
    requires var start := PayloadOffset(d, h, i, cells[i]); start + |record| <= |d| && d' == Splice(d, start, record)
    ensures LeafHolds(d', h, ReplaceKey(cells, cells[i].key, record)) && PrefixKept(d, d', h)
  {
    var c' := Cell(cells[i].key, record);
    SlotAt(d, h, LEAF_BASE, Raw(cells), i);
    CellReplaced(d, d', Ptr(d, h, LEAF_BASE, i), cells[i], record);
    SlotsReplaced(d, d', h, LEAF_BASE, Raw(cells), i, CellBytes(c'));
    ReplaceIsUpdate(cells, i, record);
    RawUpdate(cells, i, c');
  }

  // ---- Rebuilding and splitting ------------------------------------------------------

  function TotalSize(bs: seq<seq<byte>>): nat {
    if bs == [] then 0 else |bs[0]| + TotalSize(bs[1..])
  }

  /** A page with header offset `h` has space for these cells and their pointers. */
  ghost predicate Fits(size: nat, h: nat, cells: seq<Cell>) {
    PtrOffset(h, LEAF_BASE, |cells|) + TotalSize(Raw(cells)) <= size <= MAX_PAGE
  }

  /** Writes the cells from the last to the first, each below the one written before. */
  method WriteCells(data: array<byte>, low: nat, raw: seq<seq<byte>>) returns (start: nat, ptrs: seq<u16>)
    requires low + TotalSize(raw) <= data.Length <= MAX_PAGE && forall b | b in raw :: b != []
    modifies data
    ensures low <= start <= data.Length && |ptrs| == |raw| && Layout(data[..], start, ptrs, raw)
    ensures forall k | 0 <= k < low :: data[k] == old(data[..])[k]
  {
    hide At, Apart, Layout, TotalSize;
    start, ptrs := data.Length, [];
    NoCells(data[..], start);
    var i := |raw|;
    assert raw[i..] == [];
    while i > 0
      invariant 0 <= i <= |raw|
      invariant start == data.Length - TotalSize(raw[i..])
      invariant low + TotalSize(raw) <= data.Length
      invariant |ptrs| == |raw[i..]|
      invariant Layout(data[..], start, ptrs, raw[i..])
      invariant TotalSize(raw[i..]) <= TotalSize(raw)
      invariant forall k | 0 <= k < low :: data[k] == old(data[..])[k]
    {
      i := i - 1;
      FirstSize(raw, i);
      SuffixSize(raw, i);
      ghost var was := data[..];
      start := start - |raw[i]|;
      CopyInto(data, start, raw[i]);
      AtPointwise(data[..], start, raw[i]);
      LayoutInserted(was, data[..], start + |raw[i]|, ptrs, raw[i + 1..], 0, start, raw[i]);
      assert InsertAt(raw[i + 1..], 0, raw[i]) == raw[i..];
      assert InsertAt(ptrs, 0, start) == [start] + ptrs;
      ptrs := [start] + ptrs;
    }
    assert raw[0..] == raw;
  }

  lemma NoCells(d: seq<byte>, start: nat)
    ensures Layout(d, start, [], []) && TotalSize([]) == 0
  {
  }

  lemma FirstSize(bs: seq<seq<byte>>, i: nat)
    requires i < |bs|
    ensures TotalSize(bs[i..]) == |bs[i]| + TotalSize(bs[i + 1..])
  {
    assert bs[i..][1..] == bs[i + 1..];
  }

  lemma {:induction false} SuffixSize(bs: seq<seq<byte>>, i: nat)
    requires i <= |bs|
    ensures TotalSize(bs[i..]) <= TotalSize(bs)
  {
    if i > 0 {
      SuffixSize(bs[1..], i - 1);
      assert bs[1..][i - 1..] == bs[i..];
    } else {
      assert bs[0..] == bs;
    }
  }

  lemma {:induction false} PayloadsSmall(cells: seq<Cell>)
    ensures forall c | c in cells :: |c.payload| <= TotalSize(Raw(cells))
  {
    if cells != [] {
      PayloadsSmall(cells[1..]);
      assert Raw(cells)[0] == CellBytes(cells[0]) && Raw(cells)[1..] == Raw(cells[1..]);
      assert forall c | c in cells :: c == cells[0] || c in cells[1..];
    }
  }

  /** `rebuild_leaf_table_page`: the page holds exactly `cells` afterwards. */
  method RebuildLeaf(data: array<byte>, h: nat, cells: seq<Cell>)
    requires Fits(data.Length, h, cells) && data[h] == LEAF_TABLE
    requires Sorted(cells) && Keyed(cells)
    modifies data
    ensures LeafHolds(data[..], h, cells) && PrefixKept(old(data[..]), data[..], h)
  {
    hide Enc, CellBytes, At, Apart, Layout;
    data[h + 1], data[h + 2], data[h + 7] := 0, 0, 0;
    var n := |cells|;
    PayloadsSmall(cells);
    var raw := EncodeAll(cells);
    var start, ptrs := WriteCells(data, PtrOffset(h, LEAF_BASE, n), raw);
    ghost var d := data[..];
    SetCounts(data, h, start, n);
    WritePtrs(data, h, LEAF_BASE, ptrs);
    LayoutKept(d, data[..], start, ptrs, raw);
  }

  method EncodeAll(cells: seq<Cell>) returns (raw: seq<seq<byte>>)
    requires Keyed(cells) && forall c | c in cells :: |c.payload| < TWO63
    ensures raw == Raw(cells)
  {
    raw := [];
    for i := 0 to |cells|
      invariant raw == Raw(cells[..i])
    {
      assert cells[i] in cells;
      var cell := BuildTableCell(cells[i].key, cells[i].payload);
      assert cells[..i + 1] == cells[..i] + [cells[i]];
      raw := raw + [cell];
    }
    assert cells[..|cells|] == cells;
  }

  /** Reads all rows of a leaf. */
  method CollectCells(d: seq<byte>, h: nat, ghost cells: seq<Cell>) returns (rows: seq<Cell>)
    requires LeafHolds(d, h, cells)
    ensures rows == cells
  {
    hide LeafHolds, At, CellCount;
    LeafCount(d, h, cells);
    rows := [];
    for i := 0 to CellCount(d, h)
      invariant rows == cells[..i]
    {
      var start, len := PayloadAt(d, h, i, cells);
      AtIsSlice(d, start, cells[i].payload);
      var key := RowidInSlot(d, h, i, cells);
      rows := rows + [Cell(key, d[start..start + len])];
    }
  }

  method SortRows(rows: seq<Cell>) returns (r: seq<Cell>)
    ensures r == SortByKey(rows)
  {
    r := [];
    for i := 0 to |rows|
      invariant r == SortByKey(rows[..i])
    {
      assert rows[..i + 1][..i] == rows[..i];
      r := SortedInsert(r, rows[i]);
    }
    assert rows[..|rows|] == rows;
  }

  /** Both halves of a split have space: the cut is by row count, not by bytes. */
  ghost predicate SplitFits(size: nat, h: nat, h2: nat, all: seq<Cell>) {
    var mid := |all| / 2;
    Fits(size, h, all[..mid]) && Fits(size, h2, all[mid..])
  }

  /** The cells of a page and their pointers are within the page. */
  lemma HeldFits(d: seq<byte>, h: nat, cells: seq<Cell>)
    requires LeafHolds(d, h, cells)
    ensures Fits(|d|, h, cells)
  {
    hide Sorted, Keyed, CellBytes, TotalSize;
    var bs := Raw(cells);
    var ptrs := Ptrs(d, h, LEAF_BASE, |bs|);
    forall i | 0 <= i < |bs| ensures bs[i] != [] && ptrs[i] + |bs[i]| <= |d| {
      LayoutAt(d, ContentStart(d, h), ptrs, bs, i);
    }
    LayoutSpace(d, ContentStart(d, h), |d|, ptrs, bs);
  }

  /** Cells that share no byte need their sizes together: the one that lies last is above all others. */
  lemma {:induction false} LayoutSpace(d: seq<byte>, start: nat, end: nat, ptrs: seq<u16>, bs: seq<seq<byte>>)
    requires Layout(d, start, ptrs, bs) && start <= end
    requires forall i | 0 <= i < |bs| :: bs[i] != [] && ptrs[i] + |bs[i]| <= end
    ensures start + TotalSize(bs) <= end
    decreases |bs|
  {
    hide At, TotalSize;
    if bs == [] {
      NoCells(d, start);
    } else {
      var i := LastPtr(ptrs);
      LayoutAt(d, start, ptrs, bs, i);
      LayoutRemoved(d, start, ptrs, bs, i);
      forall k | 0 <= k < |bs| && k != i ensures ptrs[k] + |bs[k]| <= ptrs[i] {
        assert if k < i then Apart(ptrs[k], bs[k], ptrs[i], bs[i]) else Apart(ptrs[i], bs[i], ptrs[k], bs[k]);
      }
      LayoutSpace(d, start, ptrs[i], RemoveAt(ptrs, i), RemoveAt(bs, i));
      SizeConcat(bs[..i], bs[i + 1..]);
      SizeAround(bs, i);
    }
  }

  ghost function LastPtr(ptrs: seq<u16>): (i: nat)
    requires ptrs != []
    ensures i < |ptrs| && forall k | 0 <= k < |ptrs| :: ptrs[k] <= ptrs[i]
  {
    if |ptrs| == 1 then 0
    else
      var i := LastPtr(ptrs[..|ptrs| - 1]);
      assert forall k | 0 <= k < |ptrs| - 1 :: ptrs[..|ptrs| - 1][k] == ptrs[k];
      if ptrs[i] <= ptrs[|ptrs| - 1] then |ptrs| - 1 else i
  }

  lemma {:induction false} SizeConcat(a: seq<seq<byte>>, b: seq<seq<byte>>)
    ensures TotalSize(a + b) == TotalSize(a) + TotalSize(b)
  {
    if a == [] {
      assert a + b == b;
    } else {
      SizeConcat(a[1..], b);
      assert (a + b)[1..] == a[1..] + b && (a + b)[0] == a[0];
    }
  }

  lemma SizeAround(bs: seq<seq<byte>>, i: nat)
    requires i < |bs|
    ensures TotalSize(bs) == TotalSize(bs[..i]) + |bs[i]| + TotalSize(bs[i + 1..])
  {
    hide TotalSize;
    FirstSize(bs, i);
    SizeConcat(bs[..i], bs[i..]);
    assert bs[..i] + bs[i..] == bs;
  }

  /** A row no larger than any row of a full leaf, as one of the same size is, can always be put in by a
      split: each half leaves out a row of the leaf that is no smaller. */
  lemma SmallRowSplits(d: seq<byte>, h: nat, h2: nat, cells: seq<Cell>, c: Cell)
    requires LeafHolds(d, h, cells) && cells != [] && h2 <= h
    requires forall x | x in cells :: |CellBytes(c)| <= |CellBytes(x)|
    ensures SplitFits(|d|, h, h2, SortedInsert(cells, c))
  {
    hide LeafHolds, CellBytes, SortedInsert, TotalSize;
    HeldFits(d, h, cells);
    LeafRows(d, h, cells);
    var i := Slot(cells, c.key);
    SortedInsertIsInsertAt(cells, c, i);
    var mid := (|cells| + 1) / 2;
    HalfSizes(cells, c, i, mid);
  }

  lemma HalfSizes(cells: seq<Cell>, c: Cell, i: nat, mid: nat)
    requires i <= |cells| && 0 < mid <= |cells|
    requires forall x | x in cells :: |CellBytes(c)| <= |CellBytes(x)|
    ensures TotalSize(Raw(InsertAt(cells, i, c)[..mid])) <= TotalSize(Raw(cells))
    ensures TotalSize(Raw(InsertAt(cells, i, c)[mid..])) <= TotalSize(Raw(cells))
  {
    hide CellBytes, TotalSize;
    var all := InsertAt(cells, i, c);
    var x := cells[mid - 1];
    assert x in cells;
    SizeSplit(cells, mid);
    SizeSplit(cells, mid - 1);
    SizeOne(cells, mid - 1);
    if i < mid {
      assert all[mid..] == cells[mid - 1..];
      assert all[..mid] == InsertAt(cells[..mid - 1], i, c);
      SizeInserted(cells[..mid - 1], i, c);
    } else {
      assert all[..mid] == cells[..mid];
      assert all[mid..] == InsertAt(cells[mid..], i - mid, c);
      SizeInserted(cells[mid..], i - mid, c);
    }
  }

  lemma SizeSplit(cells: seq<Cell>, k: nat)
    requires k <= |cells|
    ensures TotalSize(Raw(cells)) == TotalSize(Raw(cells[..k])) + TotalSize(Raw(cells[k..]))
  {
    hide CellBytes, TotalSize;
    SizeConcat(Raw(cells[..k]), Raw(cells[k..]));
    assert Raw(cells[..k]) + Raw(cells[k..]) == Raw(cells);
  }

  lemma SizeOne(cells: seq<Cell>, k: nat)
    requires k < |cells|
    ensures TotalSize(Raw(cells[k..])) == |CellBytes(cells[k])| + TotalSize(Raw(cells[k + 1..]))
  {
    hide CellBytes, TotalSize;
    FirstSize(Raw(cells), k);
    assert Raw(cells)[k..] == Raw(cells[k..]) && Raw(cells)[k + 1..] == Raw(cells[k + 1..]);
  }

  lemma SizeInserted(cells: seq<Cell>, i: nat, c: Cell)
    requires i <= |cells|
    ensures TotalSize(Raw(InsertAt(cells, i, c))) == TotalSize(Raw(cells)) + |CellBytes(c)|
  {
    hide CellBytes, TotalSize;
    var all := InsertAt(cells, i, c);
    SizeSplit(all, i);
    SizeOne(all, i);
    SizeSplit(cells, i);
    assert all[..i] == cells[..i] && all[i + 1..] == cells[i..];
  }

  lemma HalvesReady(cells: seq<Cell>, c: Cell)
    requires Sorted(cells) && Keyed(cells) && !HasKey(cells, c.key) && c.key < TWO56
    ensures var all := SortedInsert(cells, c);
            && |all| == |cells| + 1
            && forall mid | 0 <= mid <= |all| :: Sorted(all[..mid]) && Keyed(all[..mid]) && Sorted(all[mid..]) && Keyed(all[mid..])
  {
    hide SortedInsert, HasKey;
    SortedInsertIsInsertAt(cells, c, Slot(cells, c.key));
    SortedInsertKeeps(cells, c);
  }

  lemma LeafRows(d: seq<byte>, h: nat, cells: seq<Cell>)
    requires LeafHolds(d, h, cells)
    ensures h + 8 <= |d| && d[h] == LEAF_TABLE && Sorted(cells) && Keyed(cells)
  {
  }

  /** `split_leaf_table`: the rows of a full leaf and the new row, divided over two pages. */
  method SplitLeaf(left: array<byte>, h: nat, right: array<byte>, h2: nat, newKey: nat, record: seq<byte>, ghost cells: seq<Cell>)
    returns (dividerKey: nat)
    requires left != right && left.Length == right.Length
    requires LeafHolds(left[..], h, cells) && cells != [] && !HasKey(cells, newKey) && newKey < TWO56
    requires LeafHolds(right[..], h2, [])
    requires SplitFits(left.Length, h, h2, SortedInsert(cells, Cell(newKey, record)))
    modifies left, right
    ensures var all := SortedInsert(cells, Cell(newKey, record));
            var mid := |all| / 2;
            && 0 < mid < |all| && dividerKey == all[mid - 1].key
            && LeafHolds(left[..], h, all[..mid]) && PrefixKept(old(left[..]), left[..], h)
            && LeafHolds(right[..], h2, all[mid..])
  {
    hide LeafHolds, SortedInsert, HasKey, Fits, Sorted, Keyed;
    LeafRows(left[..], h, cells);
    LeafRows(right[..], h2, []);
    HalvesReady(cells, Cell(newKey, record));
    var rows := CollectCells(left[..], h, cells);
    rows := rows + [Cell(newKey, record)];
    SortByKeyOfAppended(cells, Cell(newKey, record));
    rows := SortRows(rows);
    var mid := |rows| / 2;
    dividerKey := rows[mid - 1].key;
    RebuildLeaf(left, h, rows[..mid]);
    RebuildLeaf(right, h2, rows[mid..]);
  }

  /** `init_leaf_page`: an empty leaf. */
  method InitLeaf(size: nat, h: nat) returns (d: seq<byte>)
    requires h + 8 <= size <= MAX_PAGE
    ensures LeafHolds(d, h, []) && |d| == size
  {
    var data := new byte[size](_ => 0);
    data[h] := LEAF_TABLE;
    SetCounts(data, h, size, 0);
    d := data[..];
  }
}
