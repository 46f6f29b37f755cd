/** The stack-based table cursor (storage/btree.rs) over the pages of one tree. */
module BtreeCursor {
  import opened Bytes
  import opened Slotted
  import opened LeafPage
  import opened InteriorPage
  import opened LeafList
  import opened Tree
  import opened Btree

  datatype Frame = Frame(pgno: u32, childSlot: nat)

  // ---- Paths -----------------------------------------------------------------------

  /** The frames lead from the root of `t` downwards. */
  ghost predicate Path(t: Tree, fs: seq<Frame>) {
    fs != [] ==>
      t.Node? && fs[0].pgno == t.pgno && fs[0].childSlot < |t.kids| && Path(t.kids[fs[0].childSlot], fs[1..])
  }

  /** The subtree the frames lead to. */
  ghost function Sub(t: Tree, fs: seq<Frame>): Tree
    requires Path(t, fs)
    decreases |fs|
  { if fs == [] then t else Sub(t.kids[fs[0].childSlot], fs[1..]) }

  /** How many leaves lie before that subtree. */
  ghost function Passed(t: Tree, fs: seq<Frame>): nat
    requires Path(t, fs)
    decreases |fs|
  { if fs == [] then 0 else |LeavesOf(t.kids[..fs[0].childSlot])| + Passed(t.kids[fs[0].childSlot], fs[1..]) }

  lemma {:induction false} SubHolds(m: View, t: Tree, fs: seq<Frame>)
    requires Path(t, fs) && Holds(m, t) && Shaped(t)
    ensures Holds(m, Sub(t, fs)) && Shaped(Sub(t, fs))
    decreases |fs|
  {
    if fs != [] {
      SubHolds(m, t.kids[fs[0].childSlot], fs[1..]);
    }
  }

  /** The leaves of the subtree stand together among the leaves of the tree. */
  lemma {:induction false} SubLeaves(t: Tree, fs: seq<Frame>)
    requires Path(t, fs)
    ensures Passed(t, fs) + |Leaves(Sub(t, fs))| <= |Leaves(t)|
    ensures Leaves(t)[Passed(t, fs)..Passed(t, fs) + |Leaves(Sub(t, fs))|] == Leaves(Sub(t, fs))
    decreases |fs|
  {
    if fs != [] {
      var s := fs[0].childSlot;
      var a, b, c := LeavesOf(t.kids[..s]), Leaves(t.kids[s]), LeavesOf(t.kids[s + 1..]);
      SubLeaves(t.kids[s], fs[1..]);
      LeavesAt(t.kids, s);
      Middle(a, b, c, Passed(t.kids[s], fs[1..]), |Leaves(Sub(t, fs))|);
    }
  }

  lemma Middle(a: seq<Tree>, b: seq<Tree>, c: seq<Tree>, p: nat, n: nat)
    requires p + n <= |b|
    ensures (a + b + c)[|a| + p..|a| + p + n] == b[p..p + n]
  {
  }

  lemma SubInside(m: View, t: Tree, fs: seq<Frame>)
    requires Path(t, fs) && Holds(m, t) && Shaped(t)
    ensures Holds(m, Sub(t, fs)) && Shaped(Sub(t, fs))
    ensures Passed(t, fs) + |Leaves(Sub(t, fs))| <= |Leaves(t)|
    ensures Leaves(t)[Passed(t, fs)..Passed(t, fs) + |Leaves(Sub(t, fs))|] == Leaves(Sub(t, fs))
  {
    SubHolds(m, t, fs);
    SubLeaves(t, fs);
  }

  /** Going one level down or up. */
  lemma {:induction false} PathPush(t: Tree, fs: seq<Frame>, f: Frame)
    requires Path(t, fs)
    requires Sub(t, fs).Node? && f.pgno == Sub(t, fs).pgno && f.childSlot < |Sub(t, fs).kids|
    ensures Path(t, fs + [f]) && Sub(t, fs + [f]) == Sub(t, fs).kids[f.childSlot]
    ensures Passed(t, fs + [f]) == Passed(t, fs) + |LeavesOf(Sub(t, fs).kids[..f.childSlot])|
    decreases |fs|
  {
    if fs == [] {
      assert [] + [f] == [f] && [f][1..] == [];
    } else {
      PathPush(t.kids[fs[0].childSlot], fs[1..], f);
      assert (fs + [f])[1..] == fs[1..] + [f];
    }
  }

  lemma {:induction false} PathPop(t: Tree, fs: seq<Frame>)
    requires Path(t, fs) && fs != []
    ensures var init, last := fs[..|fs| - 1], fs[|fs| - 1];
            && Path(t, init) && Sub(t, init).Node? && last.pgno == Sub(t, init).pgno && last.childSlot < |Sub(t, init).kids|
            && Sub(t, fs) == Sub(t, init).kids[last.childSlot]
            && Passed(t, fs) == Passed(t, init) + |LeavesOf(Sub(t, init).kids[..last.childSlot])|
    decreases |fs|
  {
    var init, last := fs[..|fs| - 1], fs[|fs| - 1];
    if |fs| == 1 {
      assert init == [] && fs[1..] == [];
    } else {
      PathPop(t.kids[fs[0].childSlot], fs[1..]);
      assert fs[1..][..|fs| - 2] == init[1..];
    }
  }

  lemma RootPath(btree: Btree)
    requires btree.Valid()
    ensures Path(btree.tree, []) && Sub(btree.tree, []).pgno == btree.rootPage && Passed(btree.tree, []) == 0
  {
  }

  lemma EmptyPath(t: Tree)
    ensures Path(t, []) && Sub(t, []) == t && Passed(t, []) == 0
  {
  }

  /** A path that ends in a leaf leads to the leaf of that number. */
  lemma StandsInLeaf(btree: Btree, fs: seq<Frame>)
    requires btree.Valid() && Path(btree.tree, fs) && Sub(btree.tree, fs).Leaf?
    ensures Passed(btree.tree, fs) < |Leaves(btree.tree)| && Leaves(btree.tree)[Passed(btree.tree, fs)] == Sub(btree.tree, fs)
  {
    hide Ordered, Distinct, Holds, Leaves, LeavesOf, Sub, Path, Passed;
    var t, i := btree.tree, Passed(btree.tree, fs);
    SubInside(btree.pager.view, t, fs);
    LeafAlone(Sub(t, fs));
    assert Leaves(t)[i] == Leaves(t)[i..i + 1][0];
  }

  /** The page of the subtree the frames lead to. */
  lemma SubStored(btree: Btree, fs: seq<Frame>)
    requires btree.Valid() && Path(btree.tree, fs)
    ensures Ready(btree.pager) && Shaped(Sub(btree.tree, fs)) && Holds(btree.pager.view, Sub(btree.tree, fs))
    ensures var sub, m := Sub(btree.tree, fs), btree.pager.view;
            && sub.pgno in m && |m[sub.pgno]| == btree.pager.pageSize && HeaderOffset(sub.pgno) + 8 <= btree.pager.pageSize
            && m[sub.pgno][HeaderOffset(sub.pgno)] == (if sub.Leaf? then LEAF_TABLE else INTERIOR_TABLE)
            && (sub.Leaf? ==> LeafHolds(m[sub.pgno], HeaderOffset(sub.pgno), sub.cells))
            && (sub.Node? ==> InteriorHolds(m[sub.pgno], HeaderOffset(sub.pgno), KidPages(sub.kids), sub.keys) && CellCount(m[sub.pgno], HeaderOffset(sub.pgno)) == |sub.keys|)
  {
    hide Ordered, Distinct, Leaves, Path, Sub, Passed, KidPages, Ready;
    SubHolds(btree.pager.view, btree.tree, fs);
    PageType(btree.pager.view, Sub(btree.tree, fs));
    PageKnown(btree.pager, Sub(btree.tree, fs).pgno);
  }

  lemma FirstKid(t: Tree)
    requires Shaped(t) && t.Node?
    ensures |t.kids| > 0 && t.kids[0] < t
  {
  }

  lemma {:induction false} LeavesNonEmpty(t: Tree)
    requires Shaped(t)
    ensures Leaves(t) != []
  {
    if t.Node? {
      LeavesNonEmpty(t.kids[0]);
    }
  }

  // ---- The cursor -----------------------------------------------------------------------

  class TableCursor {
    const btree: Btree
    var stack: seq<Frame>
    var leafPgno: u32
    var cellIndex: nat
    var endOfTable: bool
    var currentKey: Option<i64>
    var currentRecord: Option<seq<byte>>
    /** The leaf the cursor stands in, counted from the left. */
    ghost var leaf: nat

    constructor (btree: Btree)
      requires btree.Valid()
      ensures this.btree == btree && currentKey == None && currentRecord == None && !endOfTable
    {
      this.btree := btree;
      stack, leafPgno, cellIndex, endOfTable := [], btree.rootPage, 0, false;
      currentKey, currentRecord := None, None;
      leaf := 0;
    }

    /** The row last read. */
    ghost function Current(): Option<Cell>
      reads this
    {
      if currentKey.Some? && currentKey.value >= 0 && currentRecord.Some? then Some(Cell(currentKey.value, currentRecord.value)) else None
    }

    /** The cursor as a position in the list of leaves. */
    ghost function Position(): Cursor<Cell>
      reads this
    { Cursor(leaf, cellIndex, endOfTable, Current()) }

    /** The stack leads to the leaf page the cursor stands in. */
    ghost predicate Valid()
      reads this, btree, btree.pager, btree.pager.file
    {
      && btree.Valid() && Path(btree.tree, stack)
      && Sub(btree.tree, stack).Leaf? && Sub(btree.tree, stack).pgno == leafPgno
      && leaf == Passed(btree.tree, stack) < |Leaves(btree.tree)| && Leaves(btree.tree)[leaf] == Sub(btree.tree, stack)
    }

    /** `descend_leftmost`: pushes a frame per interior page and returns the leaf below. */
    method DescendLeftmost(start: u32) returns (pgno: u32)
      requires btree.Valid() && Path(btree.tree, stack) && Sub(btree.tree, stack).pgno == start
      modifies this`stack, btree.pager`cache
      ensures btree.Valid() && Path(btree.tree, stack)
      ensures Sub(btree.tree, stack).Leaf? && Sub(btree.tree, stack).pgno == pgno
      ensures Passed(btree.tree, stack) == old(Passed(btree.tree, stack))
    {
      hide Ordered, Distinct, Holds, Leaves, LeavesOf, Ready, TreeOk, Path, Sub, Passed, InteriorHolds;
      pgno := start;
      while true
        invariant btree.Valid() && Path(btree.tree, stack) && Sub(btree.tree, stack).pgno == pgno
        invariant Passed(btree.tree, stack) == old(Passed(btree.tree, stack))
        decreases Sub(btree.tree, stack)
      {
        ghost var t, sub := btree.tree, Sub(btree.tree, stack);
        SubStored(btree, stack);
        var page := GetKnown(btree.pager, pgno);
        var headerOffset := HeaderOffset(pgno);
        if page[headerOffset] == LEAF_TABLE {
          return;
        }
        var child := ChildAtSlot(page, headerOffset, 0, KidPages(sub.kids), sub.keys);
        NoLeaves(sub);
        FirstKid(sub);
        PathPush(t, stack, Frame(pgno, 0));
        stack := stack + [Frame(pgno, 0)];
        pgno := child.Extract();
      }
    }

    /** `read_current`: reads the row under the cursor, if its leaf has one there. */
    method ReadCurrent() returns (found: bool)
      requires Valid()
      modifies this`currentKey, this`currentRecord, btree.pager`cache
      ensures Valid() && unchanged(this`stack, this`leafPgno, this`cellIndex, this`endOfTable, this`leaf)
      ensures (found, Position()) == Read(Lists(btree.tree), old(Position()))
    {
      hide Ordered, Distinct, LeafHolds, Holds, Leaves, Path, Sub, Passed, Ready, TreeOk;
      ghost var cells := Sub(btree.tree, stack).cells;
      SubStored(btree, stack);
      assert Lists(btree.tree)[leaf] == cells;
      var page := GetKnown(btree.pager, leafPgno);
      found := ReadRow(page, HeaderOffset(leafPgno), cells);
    }

    /** The page work of `read_current`. */
    method ReadRow(page: seq<byte>, headerOffset: nat, ghost cells: seq<Cell>) returns (found: bool)
      requires LeafHolds(page, headerOffset, cells)
      modifies this`currentKey, this`currentRecord
      ensures found <==> cellIndex < |cells|
      ensures found ==> currentKey == Some(cells[cellIndex].key) && currentRecord == Some(cells[cellIndex].payload)
      ensures !found ==> unchanged(this)
    {
      hide CellBytes, At, Apart, Layout;
      if cellIndex >= CellCount(page, headerOffset) {
        return false;
      }
      LeafCell(page, headerOffset, cells, cellIndex);
      var rowid := ReadRowid(page, Ptr(page, headerOffset, LEAF_BASE, cellIndex)).Extract();
      var start, len := PayloadAt(page, headerOffset, cellIndex, cells);
      AtIsSlice(page, start, cells[cellIndex].payload);
      currentKey := Some(rowid.0);
      currentRecord := Some(page[start..start + len]);
      return true;
    }

    /** `first`: the leftmost leaf's first row. */
    method First() returns (found: bool)
      requires btree.Valid()
      modifies this, btree.pager`cache
      ensures Valid() && (found, Position()) == LeafList.First(Lists(btree.tree), old(Position()))
    {
      hide Ordered, Distinct, Holds, Leaves, LeavesOf, Sub, Path, Passed, TreeOk, Ready, CellsOf, Btree.Valid;
      RootPath(btree);
      stack := [];
      var pgno := DescendLeftmost(btree.rootPage);
      leafPgno := pgno;
      cellIndex := 0;
      endOfTable := false;
      leaf := 0;
      StandsInLeaf(btree, stack);
      found := ReadCurrent();
    }

    /** Down into the child at `slot` of the interior page that the stack leads to. */
    method EnterChild(pgno: u32, slot: nat, page: seq<byte>) returns (leafPage: u32)
      requires btree.Valid() && Path(btree.tree, stack)
      requires var sub := Sub(btree.tree, stack);
               && sub.Node? && sub.pgno == pgno && slot < |sub.kids| && |sub.kids| == |sub.keys| + 1
               && InteriorHolds(page, HeaderOffset(pgno), KidPages(sub.kids), sub.keys)
      modifies this`stack, btree.pager`cache
      ensures btree.Valid() && Path(btree.tree, stack) && Sub(btree.tree, stack).Leaf? && Sub(btree.tree, stack).pgno == leafPage
      ensures Passed(btree.tree, stack) == old(Passed(btree.tree, stack) + |LeavesOf(Sub(btree.tree, stack).kids[..slot])|)
    {
      hide Ordered, Distinct, Holds, Leaves, LeavesOf, InteriorHolds;
      ghost var t, sub := btree.tree, Sub(btree.tree, stack);
      var child := ChildAtSlot(page, HeaderOffset(pgno), slot, KidPages(sub.kids), sub.keys);
      PathPush(t, stack, Frame(pgno, slot));
      stack := stack + [Frame(pgno, slot)];
      leafPage := DescendLeftmost(child.Extract());
    }

    /** `advance_to_next_leaf`: the leaf after the one the stack leads to. */
    method AdvanceToNextLeaf() returns (next: Option<u32>)
      requires Valid()
      modifies this`stack, btree.pager`cache
      ensures btree.Valid() && Path(btree.tree, stack)
      ensures next.Some? <==> leaf + 1 < |Leaves(btree.tree)|
      ensures next.Some? ==> Sub(btree.tree, stack).Leaf? && Sub(btree.tree, stack).pgno == next.value && Passed(btree.tree, stack) == leaf + 1
    {
      hide Ordered, Distinct, Holds, Leaves, LeavesOf, InteriorHolds, Path, Sub, Passed, Ready, TreeOk;
      LeafAlone(Sub(btree.tree, stack));
      EmptyPath(btree.tree);
      while stack != []
        invariant btree.Valid() && Path(btree.tree, stack)
        invariant Passed(btree.tree, stack) + |Leaves(Sub(btree.tree, stack))| == leaf + 1
        decreases |stack|
      {
        ghost var t := btree.tree;
        PathPop(t, stack);
        var frame := stack[|stack| - 1];
        stack := stack[..|stack| - 1];
        ghost var sub := Sub(t, stack);
        SubStored(btree, stack);
        var page := GetKnown(btree.pager, frame.pgno);
        var headerOffset := HeaderOffset(frame.pgno);
        var cellCount := CellCount(page, headerOffset);
        var nextSlot := frame.childSlot + 1;
        LeavesStep(sub, frame.childSlot);
        if nextSlot <= cellCount {
          var leafPage := EnterChild(frame.pgno, nextSlot, page);
          StandsInLeaf(btree, stack);
          return Some(leafPage);
        }
      }
      return None;
    }

    /** Takes its place at the start of the leaf the stack leads to. */
    method EnterLeaf(pgno: u32)
      requires btree.Valid() && Path(btree.tree, stack) && Sub(btree.tree, stack).Leaf? && Sub(btree.tree, stack).pgno == pgno
      requires Passed(btree.tree, stack) == leaf + 1
      modifies this`leaf, this`leafPgno, this`cellIndex
      ensures Valid() && leaf == old(leaf) + 1 && cellIndex == 0
    {
      hide Ordered, Distinct, Holds, Leaves, LeavesOf, Sub, Path, Passed, TreeOk, Ready, Btree.Valid;
      StandsInLeaf(btree, stack);
      leaf := leaf + 1;
      leafPgno := pgno;
      cellIndex := 0;
    }

    /** `next`: the row after the current one, in ascending rowid order over all leaves. Past the end of
        the table it answers false from then on. */
    method Next() returns (found: bool)
      requires btree.Valid() && (endOfTable || Valid())
      modifies this, btree.pager`cache
      ensures btree.Valid() && (endOfTable || Valid())
      ensures old(endOfTable) ==> !found && endOfTable
      ensures (found, Position()) == LeafList.Next(Lists(btree.tree), old(Position()))
    {
      hide Ordered, Distinct, Holds, Leaves, LeavesOf, Sub, Path, Passed, TreeOk, Ready, CellsOf, Btree.Valid;
      if endOfTable {
        return false;
      }
      cellIndex := cellIndex + 1;
      found := ReadCurrent();
      if found {
        return true;
      }
      var next := AdvanceToNextLeaf();
      if next.Some? {
        EnterLeaf(next.value);
        found := ReadCurrent();
        return found;
      }
      endOfTable := true;
      currentKey, currentRecord := None, None;
      return false;
    }
  }

  /** The largest rowid of a list, and 0 for none: what the rowid scan accumulates. */
  function MaxKey(cells: seq<Cell>): (m: nat)
    ensures forall c | c in cells :: c.key <= m
    ensures m == 0 || exists c | c in cells :: c.key == m
  {
    if cells == [] then 0
    else
      var m := MaxKey(cells[..|cells| - 1]);
      var k := cells[|cells| - 1].key;
      if k > m then k else m
  }

  lemma MaxKeyStep(all: seq<Cell>, i: nat)
    requires i < |all|
    ensures MaxKey(all[..i + 1]) == if all[i].key > MaxKey(all[..i]) then all[i].key else MaxKey(all[..i])
  {
    assert all[..i + 1][..i] == all[..i];
  }

  lemma MaxKeyNone(all: seq<Cell>)
    ensures MaxKey(all[..0]) == 0
  {
  }

  /** The cursor stands on row `seen` of `all`, the rows a scan gets to see. */
  ghost predicate Scanning(cur: TableCursor, all: seq<Cell>, seen: nat)
    reads cur, cur.btree, cur.btree.pager, cur.btree.pager.file
  {
    && cur.Valid() && seen < |all|
    && On(Lists(cur.btree.tree), cur.Position()) && Remaining(Lists(cur.btree.tree), cur.Position()) == all[seen..]
  }

  /** Starts a scan. */
  method ScanFirst(cur: TableCursor, ghost all: seq<Cell>) returns (more: bool)
    requires cur.btree.Valid() && all == Flat(Visible(Lists(cur.btree.tree)))
    modifies cur, cur.btree.pager`cache
    ensures cur.btree.Valid() && (more <==> all != []) && (more ==> Scanning(cur, all, 0))
  {
    hide Ordered, Distinct, Holds, Path, Leaves, CellsOf, Visible, Flat;
    LeavesNonEmpty(cur.btree.tree);
    FirstRemaining(Lists(cur.btree.tree), cur.Position());
    assert all[0..] == all;
    more := cur.First();
  }

  /** Goes on with a scan. */
  method ScanNext(cur: TableCursor, ghost all: seq<Cell>, ghost seen: nat) returns (more: bool)
    requires Scanning(cur, all, seen)
    modifies cur, cur.btree.pager`cache
    ensures cur.btree.Valid() && (more <==> seen + 1 < |all|) && (more ==> Scanning(cur, all, seen + 1))
  {
    hide Ordered, Distinct, Holds, Path, Leaves, Lists, Visible, Flat, Remaining;
    NextRemaining(Lists(cur.btree.tree), cur.Position());
    assert all[seen..][1..] == all[seen + 1..];
    more := cur.Next();
  }

  lemma ScanningRow(cur: TableCursor, all: seq<Cell>, seen: nat)
    requires Scanning(cur, all, seen)
    ensures cur.currentKey == Some(all[seen].key) && cur.currentRecord == Some(all[seen].payload)
  {
    assert all[seen..][0] == all[seen];
  }

  /** `allocate_rowid`: one more than the largest rowid a scan comes across. */
  method AllocateRowid(btree: Btree) returns (id: nat)
    requires btree.Valid()
    modifies btree.pager`cache
    ensures btree.Valid() && id == MaxKey(Flat(Visible(Lists(btree.tree)))) + 1
  {
    hide *;
    ghost var all := Flat(Visible(Lists(btree.tree)));
    var maxId: int := 0;
    var cur := new TableCursor(btree);
    MaxKeyNone(all);
    var more := ScanFirst(cur, all);
    ghost var seen := 0;
    while more
      invariant btree.Valid() && cur.btree == btree && seen <= |all|
      invariant if more then seen < |all| && Scanning(cur, all, seen) else seen == |all|
      invariant maxId == MaxKey(all[..seen])
      decreases |all| - seen
    {
      ScanningRow(cur, all, seen);
      var key: int := cur.currentKey.value;
      if key > maxId {
        maxId := key;
      }
      MaxKeyStep(all, seen);
      more := ScanNext(cur, all, seen);
      seen := seen + 1;
    }
    assert all[..|all|] == all;
    id := maxId + 1;
  }

  /** `first`, then `next` until it answers false: the rows come in ascending rowid order, each once, and
      they are all rows of the tree exactly if none stands behind an empty leaf. */
  method ScanTable(btree: Btree) returns (rows: seq<Cell>)
    requires btree.Valid()
    modifies btree.pager`cache
    ensures btree.Valid() && rows == Flat(Visible(Lists(btree.tree))) && Sorted(rows)
    ensures rows == Rows(btree.tree) <==> EmptyTail(Lists(btree.tree))
  {
    hide *;
    ghost var all := Flat(Visible(Lists(btree.tree)));
    ScanSorted(btree);
    var cur := new TableCursor(btree);
    var more := ScanFirst(cur, all);
    rows := [];
    while more
      invariant btree.Valid() && cur.btree == btree && |rows| <= |all| && rows == all[..|rows|]
      invariant if more then |rows| < |all| && Scanning(cur, all, |rows|) else |rows| == |all|
      decreases |all| - |rows|
    {
      ScanningRow(cur, all, |rows|);
      ghost var seen := |rows|;
      rows := rows + [Cell(cur.currentKey.value, cur.currentRecord.value)];
      more := ScanNext(cur, all, seen);
    }
    assert all[..|all|] == all;
  }

  lemma ScanSorted(btree: Btree)
    requires btree.Valid()
    ensures Sorted(Flat(Visible(Lists(btree.tree))))
    ensures Flat(Visible(Lists(btree.tree))) == Rows(btree.tree) <==> EmptyTail(Lists(btree.tree))
  {
    hide Flat, Visible, Scan, EmptyTail, Leaves, CellsOf, Shaped, Holds, Ordered, Distinct, Ready;
    var ls := Lists(btree.tree);
    RowsSorted(btree.tree, MIN_KEY, MAX_KEY);
    FlatVisible(ls);
    SortedPrefix(Flat(Visible(ls)), Flat(ls[|Visible(ls)|..]));
    LeavesNonEmpty(btree.tree);
    ScanComplete(ls);
    ScanIsVisible(ls);
  }

  lemma SortedPrefix(a: seq<Cell>, b: seq<Cell>)
    requires Sorted(a + b)
    ensures Sorted(a)
  {
    assert forall i | 0 <= i < |a| :: (a + b)[i] == a[i];
  }

  /** The rows behind the first empty leaf, which no scan sees. */
  function Hidden(t: Tree): seq<Cell> {
    var ls := Lists(t);
    Flat(ls[|Visible(ls)|..])
  }

  /** The allocated rowid is above every row a scan sees; it is new exactly if no hidden row has it, and
      above all rows exactly if every hidden row is below it. */
  lemma AllocatedIsFresh(t: Tree)
    ensures var id := MaxKey(Flat(Visible(Lists(t)))) + 1;
            && (forall c | c in Flat(Visible(Lists(t))) :: c.key < id)
            && (!HasKey(Rows(t), id) <==> !HasKey(Hidden(t), id))
            && ((forall c | c in Rows(t) :: c.key < id) <==> forall c | c in Hidden(t) :: c.key < id)
  {
    hide Flat, Visible, Lists, MaxKey, HasKey;
    var ls := Lists(t);
    FlatVisible(ls);
    NotAbove(Flat(Visible(ls)));
    HasKeyConcat([], Flat(Visible(ls)), Hidden(t), MaxKey(Flat(Visible(ls))) + 1);
    NoKeys(MaxKey(Flat(Visible(ls))) + 1);
    assert [] + Flat(Visible(ls)) == Flat(Visible(ls));
  }

  lemma NoKeys(key: int)
    ensures !HasKey([], key)
  {
  }

  lemma NotAbove(cells: seq<Cell>)
    ensures forall c | c in cells :: c.key < MaxKey(cells) + 1
    ensures !HasKey(cells, MaxKey(cells) + 1)
  {
    assert forall i | 0 <= i < |cells| :: cells[i] in cells;
  }

  lemma LeafAlone(t: Tree)
    requires t.Leaf?
    ensures Leaves(t) == [t]
  {
  }

  lemma NoLeaves(t: Tree)
    requires t.Node?
    ensures t.kids[..0] == [] && LeavesOf(t.kids[..0]) == []
  {
  }

  /** The leaves up to and including child `s`; with the last child, all of them. */
  lemma LeavesStep(t: Tree, s: nat)
    requires t.Node? && s < |t.kids|
    ensures |LeavesOf(t.kids[..s])| + |Leaves(t.kids[s])| == |LeavesOf(t.kids[..s + 1])|
    ensures s + 1 == |t.kids| ==> LeavesOf(t.kids[..s + 1]) == Leaves(t)
  {
    LeavesAt(t.kids[..s + 1], s);
    assert t.kids[..s + 1][..s] == t.kids[..s] && t.kids[..s + 1][s + 1..] == [];
    if s + 1 == |t.kids| {
      assert t.kids[..s + 1] == t.kids;
    }
  }
}
