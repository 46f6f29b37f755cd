/** Table B-tree operations over the pager (storage/btree.rs). */
module Btree {
  import opened Bytes
  import opened Slotted
  import opened LeafPage
  import opened InteriorPage
  import opened LeafList
  import opened Tree
  import opened MemoryFile
  import opened Pager

  datatype LeafSplit = LeafSplit(leftPgno: u32, dividerKey: nat, rightPgno: u32)

  /** The pager serves B-trees: writable, and its page size leaves room for 16-bit offsets. */
  ghost predicate Ready(pager: Pager)
    reads pager, pager.file
  {
    pager.Valid() && !pager.readOnly && pager.pageSize <= MAX_PAGE
  }

  /** Every readable page has a number in range and the page size as its length. */
  lemma PageKnown(pager: Pager, p: nat)
    requires Ready(pager) && p in pager.view
    ensures 0 < p <= pager.pageCount && |pager.view[p]| == pager.pageSize
  {
    assert pager.Look(p) == Get(pager.view, p);
  }

  ghost predicate SameLength(cells: seq<Cell>, key: int, len: nat) {
    exists i | 0 <= i < |cells| :: cells[i].key == key && |cells[i].payload| == len
  }

  /** `find_leaf_for_key`. A well-formed page is a leaf or an interior page. */
  method FindLeaf(pager: Pager, pgno: u32, key: i64, ghost t: Tree) returns (leaf: u32)
    requires Ready(pager) && Holds(pager.view, t) && Shaped(t) && t.pgno == pgno
    modifies pager`cache
    ensures Ready(pager)
    ensures leaf == Target(t, key).pgno
    decreases t
  {
    var page := GetKnown(pager, pgno);
    var headerOffset := HeaderOffset(pgno);
    if page[headerOffset] == LEAF_TABLE {
      return pgno;
    }
    assert page[headerOffset] == INTERIOR_TABLE;
    TargetOfNode(t, key);
    var child := FindChild(page, headerOffset, key, KidPages(t.kids), t.keys);
    leaf := FindLeaf(pager, child, key, t.kids[ChildSlot(t.keys, key)]);
  }

  /** `get_page` of a page of the tree: it does not fail. */
  method GetKnown(pager: Pager, pgno: u32) returns (d: seq<byte>)
    requires Ready(pager) && pgno in pager.view
    modifies pager`cache
    ensures Ready(pager) && d == pager.view[pgno] && |d| == pager.pageSize
  {
    PageKnown(pager, pgno);
    var page := pager.GetPage(pgno);
    return page.Extract().data;
  }

  /** `write_page` of a page of the tree: it does not fail. */
  method PutKnown(pager: Pager, pgno: u32, d: seq<byte>)
    requires Ready(pager) && 0 < pgno <= pager.pageCount && |d| == pager.pageSize
    modifies pager`cache, pager`view
    ensures Ready(pager) && pager.view == old(pager.view)[pgno as nat := d]
    ensures pgno in pager.cache && pager.cache[pgno].data == d
  {
    var done := pager.WritePage(Page(pgno, d, true));
  }

  /** A new empty leaf: allocated, written to the cache and at once to the file. */
  method NewLeaf(pager: Pager) returns (pgno: u32)
    requires Ready(pager) && pager.pageCount + 1 < TWO32
    modifies pager`cache, pager`pageCount, pager`view, pager.file
    ensures Ready(pager) && pgno == pager.pageCount == old(pager.pageCount) + 1 && pgno !in old(pager.view)
    ensures pgno in pager.view && LeafHolds(pager.view[pgno], HeaderOffset(pgno), [])
    ensures forall p | p in old(pager.view) :: p in pager.view && pager.view[p] == old(pager.view)[p]
  {
    var n := pager.AllocatePage();
    pgno := n;
    var d := InitLeaf(pager.pageSize, HeaderOffset(pgno));
    PutKnown(pager, pgno, d);
    pager.WritePageDirect(pgno, d);
  }

  /** What an insertion into a full leaf needs: at least one live row, and halves that fit. */
  ghost predicate SplitOk(size: nat, pgno: u32, cells: seq<Cell>, c: Cell) {
    cells != [] && SplitFits(size, HeaderOffset(pgno), 0, SortedInsert(cells, c))
  }

  ghost predicate Changed(was: View, now: View, pgno: nat) {
    pgno in now && forall p | p in was && p != pgno :: p in now && now[p] == was[p]
  }

  /** `insert_into_leaf_table`: refuse a rowid already there, insert in the page, or split. */
  method InsertIntoLeaf(pager: Pager, pgno: u32, cell: seq<byte>, c: Cell, ghost cells: seq<Cell>) returns (r: Result<Option<LeafSplit>>)
    requires Ready(pager) && pager.pageCount + 1 < TWO32
    requires pgno in pager.view && LeafHolds(pager.view[pgno], HeaderOffset(pgno), cells)
    requires c.key < TWO56 && cell == CellBytes(c)
    requires HasKey(cells, c.key) || Room(pager.view[pgno], HeaderOffset(pgno), LEAF_BASE, |cell|) || SplitOk(pager.pageSize, pgno, cells, c)
    modifies pager`cache, pager`pageCount, pager`view, pager.file
    ensures Ready(pager) && Changed(old(pager.view), pager.view, pgno) && pager.pageCount >= old(pager.pageCount)
    ensures HasKey(cells, c.key) ==> r == Err(Constraint) && pager.view == old(pager.view)
    ensures !HasKey(cells, c.key) && Room(old(pager.view)[pgno], HeaderOffset(pgno), LEAF_BASE, |cell|) ==>
              && r == Ok(None) && pager.view.Keys == old(pager.view).Keys && pager.pageCount == old(pager.pageCount)
              && LeafHolds(pager.view[pgno], HeaderOffset(pgno), SortedInsert(cells, c))
              && PrefixKept(old(pager.view)[pgno], pager.view[pgno], HeaderOffset(pgno))
    ensures !HasKey(cells, c.key) && !Room(old(pager.view)[pgno], HeaderOffset(pgno), LEAF_BASE, |cell|) ==>
              && pager.pageCount == old(pager.pageCount) + 1
              && r.Ok? && r.value.Some? && IsSplit(old(pager.view), pager.view, pgno, SortedInsert(cells, c), r.value.value)
  {
    hide LeafHolds, SortedInsert, HasKey, SplitFits, CellBytes, Pager.Valid, Room, PrefixKept;
    var page := GetKnown(pager, pgno);
    PageKnown(pager, pgno);
    var headerOffset := HeaderOffset(pgno);
    var existing := FindCell(page, headerOffset, c.key, cells);
    if existing.Some? {
      return Err(Constraint);
    }
    var data := Buffer(page);
    var ok := TryInsertLeafCell(data, headerOffset, cell, c.key, cells, c);
    if ok {
      PutKnown(pager, pgno, data[..]);
      return Ok(None);
    }
    var split := SplitInto(pager, pgno, data, c, cells);
    return Ok(Some(split));
  }

  /** The rows `all` divided between the old page and a new one. */
  ghost predicate IsSplit(was: View, now: View, pgno: nat, all: seq<Cell>, split: LeafSplit) {
    var mid := |all| / 2;
    && split.leftPgno == pgno && split.rightPgno !in was && split.rightPgno > 1
    && 0 < mid < |all| && split.dividerKey == all[mid - 1].key
    && split.leftPgno in now && split.rightPgno in now
    && LeafHolds(now[split.leftPgno], HeaderOffset(pgno), all[..mid])
    && LeafHolds(now[split.rightPgno], 0, all[mid..])
  }

  method SplitInto(pager: Pager, pgno: u32, data: array<byte>, c: Cell, ghost cells: seq<Cell>) returns (split: LeafSplit)
    requires Ready(pager) && pager.pageCount + 1 < TWO32 && 0 < pgno <= pager.pageCount && pgno in pager.view
    requires LeafHolds(data[..], HeaderOffset(pgno), cells) && data.Length == pager.pageSize
    requires !HasKey(cells, c.key) && c.key < TWO56 && SplitOk(pager.pageSize, pgno, cells, c)
    modifies pager`cache, pager`pageCount, pager`view, pager.file, data
    ensures Ready(pager) && Changed(old(pager.view), pager.view, pgno) && pager.pageCount == old(pager.pageCount) + 1
    ensures IsSplit(old(pager.view), pager.view, pgno, SortedInsert(cells, c), split)
  {
    hide LeafHolds, SplitFits, FilePage, SortedInsert, HasKey, Pager.Valid;
    var rightPgno := NewLeaf(pager);
    var rightPage := GetKnown(pager, rightPgno);
    var right := Buffer(rightPage);
    var dividerKey := SplitLeaf(data, HeaderOffset(pgno), right, HeaderOffset(rightPgno), c.key, c.payload, cells);
    PutKnown(pager, rightPgno, right[..]);
    PutKnown(pager, pgno, data[..]);
    return LeafSplit(pgno, dividerKey, rightPgno);
  }

  ghost predicate RoomFor(m: View, t: Tree, c: Cell)
    requires Holds(m, t) && Shaped(t)
  {
    TargetHolds(m, t, c.key);
    var l := Target(t, c.key);
    Room(m[l.pgno], HeaderOffset(l.pgno), LEAF_BASE, |CellBytes(c)|)
  }

  /** The same test for a row that takes the place of another: one pointer becomes free first. */
  ghost predicate RoomReplacing(m: View, t: Tree, c: Cell)
    requires Holds(m, t) && Shaped(t)
  {
    TargetHolds(m, t, c.key);
    var l := Target(t, c.key);
    var h := HeaderOffset(l.pgno);
    PtrOffset(h, LEAF_BASE, CellCount(m[l.pgno], h)) + 1 + |CellBytes(c)| <= ContentStart(m[l.pgno], h)
  }

  /** The routed leaf can take the row, or the root is itself a full leaf that can be split. Splits
      below an interior page are not part of this model. */
  ghost predicate CanInsert(m: View, size: nat, t: Tree, c: Cell)
    requires Holds(m, t) && Shaped(t)
  {
    || HasKey(Target(t, c.key).cells, c.key)
    || RoomFor(m, t, c)
    || (t.Leaf? && SplitOk(size, t.pgno, t.cells, c))
  }

  /** A table of one leaf takes every row that is no larger than those it has, full or not. */
  lemma SmallRowInserts(m: View, size: nat, t: Tree, c: Cell)
    requires Holds(m, t) && Shaped(t) && t.Leaf? && |m[t.pgno]| == size
    requires t.cells != [] && forall x | x in t.cells :: |CellBytes(c)| <= |CellBytes(x)|
    ensures CanInsert(m, size, t, c)
  {
    hide LeafHolds, SplitFits, CellBytes;
    SmallRowSplits(m[t.pgno], HeaderOffset(t.pgno), 0, t.cells, c);
  }

  /** The tree after a row has been put into the leaf it is routed to. */
  ghost function Inserted(t: Tree, c: Cell): Tree
    requires Shaped(t)
  { SetLeaf(t, c.key, SortedInsert(Target(t, c.key).cells, c)) }

  /** `insert_into_tree`: descends to the leaf and inserts there. */
  method InsertIntoTree(pager: Pager, pgno: u32, cell: seq<byte>, c: Cell, ghost t: Tree) returns (r: Result<Option<LeafSplit>>)
    requires Ready(pager) && pager.pageCount + 1 < TWO32
    requires Holds(pager.view, t) && Shaped(t) && t.pgno == pgno
    requires c.key < TWO56 && cell == CellBytes(c) && CanInsert(pager.view, pager.pageSize, t, c)
    modifies pager`cache, pager`pageCount, pager`view, pager.file
    ensures Ready(pager) && pager.pageCount >= old(pager.pageCount)
    ensures Changed(old(pager.view), pager.view, Target(t, c.key).pgno)
    ensures HasKey(Target(t, c.key).cells, c.key) ==> r == Err(Constraint) && pager.view == old(pager.view)
    ensures !HasKey(Target(t, c.key).cells, c.key) ==> r.Ok?
    ensures !HasKey(Target(t, c.key).cells, c.key) && RoomFor(old(pager.view), t, c) ==> r == Ok(None)
    ensures r.Ok? && r.value.None? ==>
              var p := Target(t, c.key).pgno;
              && pager.view.Keys == old(pager.view).Keys && pager.pageCount == old(pager.pageCount)
              && LeafHolds(pager.view[p], HeaderOffset(p), SortedInsert(Target(t, c.key).cells, c))
    ensures r.Ok? && r.value.Some? ==>
              t.Leaf? && IsSplit(old(pager.view), pager.view, pgno, SortedInsert(t.cells, c), r.value.value)
              && pager.pageCount == old(pager.pageCount) + 1
    decreases t
  {
    hide LeafHolds, InteriorHolds, Room, SplitFits;
    var page := GetKnown(pager, pgno);
    var headerOffset := HeaderOffset(pgno);
    PageType(pager.view, t);
    if page[headerOffset] == LEAF_TABLE {
      assert Target(t, c.key) == t;
      r := InsertIntoLeaf(pager, pgno, cell, c, t.cells);
    } else {
      TargetOfNode(t, c.key);
      var child := FindChild(page, headerOffset, c.key, KidPages(t.kids), t.keys);
      r := InsertIntoTree(pager, child, cell, c, t.kids[ChildSlot(t.keys, c.key)]);
    }
  }

  lemma RootHeld(m: View, t: Tree)
    requires Holds(m, t)
    ensures t.pgno in m
  {
  }

  lemma PageType(m: View, t: Tree)
    requires Holds(m, t)
    ensures HeaderOffset(t.pgno) < |m[t.pgno]|
    ensures m[t.pgno][HeaderOffset(t.pgno)] == if t.Leaf? then LEAF_TABLE else INTERIOR_TABLE
    ensures t.Node? ==> InteriorHolds(m[t.pgno], HeaderOffset(t.pgno), KidPages(t.kids), t.keys)
  {
  }

  /** One divider above the two halves of `all`: it is the last rowid of the left half. */
  ghost function PromotedTree(all: seq<Cell>, mid: nat, left: u32, right: u32, root: u32): Tree
    requires 0 < mid < |all|
  { Node(root, [Leaf(left, all[..mid]), Leaf(right, all[mid..])], [all[mid - 1].key]) }

  lemma PromotedOrdered(all: seq<Cell>, mid: nat, left: u32, right: u32, root: u32)
    requires 0 < mid < |all| && Sorted(all) && Keyed(all) && left != right && root !in {left, right}
    ensures var t := PromotedTree(all, mid, left, right, root);
            Shaped(t) && Distinct(t) && Ordered(t, MIN_KEY, MAX_KEY) && Rows(t) == all
  {
    hide Rows;
    var t := PromotedTree(all, mid, left, right, root);
    assert forall i | 0 <= i < |all| :: all[i] in all;
    assert Pages(t.kids[0]) == {left as nat} && Pages(t.kids[1]) == {right as nat};
    PromotedRows(all, mid, left, right, root);
  }

  lemma PromotedRows(all: seq<Cell>, mid: nat, left: u32, right: u32, root: u32)
    requires 0 < mid < |all|
    ensures Rows(PromotedTree(all, mid, left, right, root)) == all
  {
    var a, b := Leaf(left, all[..mid]), Leaf(right, all[mid..]);
    LeavesOfTwo(a, b);
    assert CellsOf([a, b]) == [all[..mid], all[mid..]];
    FlatTwo(all[..mid], all[mid..]);
    assert all[..mid] + all[mid..] == all;
  }

  lemma LeavesOfTwo(a: Tree, b: Tree)
    requires a.Leaf? && b.Leaf?
    ensures LeavesOf([a, b]) == [a, b]
  {
    assert [a, b][1..] == [b] && [b][1..] == [];
    assert LeavesOf([b][1..]) == [] && LeavesOf([b]) == [b];
  }

  lemma FlatTwo(a: seq<Cell>, b: seq<Cell>)
    ensures Flat([a, b]) == a + b
  {
    assert [a, b][1..] == [b] && [b][1..] == [];
    assert Flat([b][1..]) == [] && b + [] == b;
  }

  lemma PromotedHolds(m: View, all: seq<Cell>, mid: nat, left: u32, right: u32, root: u32)
    requires 0 < mid < |all| && left in m && right in m && root in m && right > 1
    requires LeafHolds(m[left], HeaderOffset(left), all[..mid]) && LeafHolds(m[right], 0, all[mid..])
    requires InteriorHolds(m[root], HeaderOffset(root), [left, right], [all[mid - 1].key])
    ensures Holds(m, PromotedTree(all, mid, left, right, root))
  {
    hide LeafHolds, InteriorHolds;
    var t := PromotedTree(all, mid, left, right, root);
    assert KidPages(t.kids) == [left, right];
    assert Holds(m, t.kids[0]) && Holds(m, t.kids[1]);
  }

  /** The two pages of a split hold the two halves of `all`. */
  ghost predicate HoldsSplit(m: View, all: seq<Cell>, split: LeafSplit) {
    var mid := |all| / 2;
    && split.rightPgno > 1 && split.rightPgno != split.leftPgno
    && 0 < mid < |all| && split.dividerKey == all[mid - 1].key
    && split.leftPgno in m && split.rightPgno in m
    && LeafHolds(m[split.leftPgno], HeaderOffset(split.leftPgno), all[..mid])
    && LeafHolds(m[split.rightPgno], 0, all[mid..])
  }

  lemma SplitDivider(m: View, cells: seq<Cell>, c: Cell, split: LeafSplit)
    requires HoldsSplit(m, SortedInsert(cells, c), split) && Sorted(cells) && Keyed(cells) && !HasKey(cells, c.key) && c.key <= MAX_KEY
    ensures split.dividerKey < TWO56
  {
    SortedInsertKeeps(cells, c);
    assert SortedInsert(cells, c)[|SortedInsert(cells, c)| / 2 - 1] in SortedInsert(cells, c);
  }

  lemma KeepSplit(m: View, m': View, all: seq<Cell>, split: LeafSplit)
    requires HoldsSplit(m, all, split)
    requires forall p | p in m :: p in m' && m'[p] == m[p]
    ensures HoldsSplit(m', all, split)
  {
  }

  lemma RowsOfLeaf(t: Tree)
    requires t.Leaf?
    ensures Rows(t) == t.cells
  {
    assert Lists(t) == [t.cells] && Flat([t.cells]) == t.cells;
  }

  /** The page work of `promote_root_split`. */
  method NewRootPage(pager: Pager, oldRoot: u32, split: LeafSplit) returns (newRoot: u32)
    requires Ready(pager) && pager.pageCount + 1 < TWO32 && split.dividerKey < TWO56
    modifies pager`cache, pager`pageCount, pager`view
    ensures Ready(pager) && newRoot !in old(pager.view) && newRoot in pager.view
    ensures forall p | p in old(pager.view) :: p in pager.view && pager.view[p] == old(pager.view)[p]
    ensures InteriorHolds(pager.view[newRoot], HeaderOffset(newRoot), [oldRoot, split.rightPgno], [split.dividerKey])
  {
    hide InteriorHolds, FilePage;
    var n := pager.AllocatePage();
    newRoot := n;
    var d := PromotedRoot(pager.pageSize, HeaderOffset(newRoot), oldRoot, split.dividerKey, split.rightPgno);
    PutKnown(pager, newRoot, d);
  }

  /** The tree a split leaf root is promoted to. */
  ghost predicate IsPromoted(was: Tree, now: Tree, c: Cell) {
    was.Leaf? && now.Node?
    && var all := SortedInsert(was.cells, c);
       var mid := |all| / 2;
       && 0 < mid < |all| && |now.kids| == 2 && now.keys == [all[mid - 1].key]
       && now.kids[0] == Leaf(was.pgno, all[..mid]) && now.kids[1] == Leaf(now.kids[1].pgno, all[mid..])
       && now.kids[1].pgno != was.pgno && now.pgno !in {was.pgno, now.kids[1].pgno}
  }

  class Btree {
    const pager: Pager
    var rootPage: u32
    /** The tree the pages store. */
    ghost var tree: Tree

    ghost predicate Valid()
      reads this, pager, pager.file
    {
      Ready(pager) && TreeOk(pager.view, tree) && tree.pgno == rootPage
    }

    /** Pages of other trees are left alone. */
    ghost predicate OthersKept(was: View, pages: set<nat>)
      reads pager
    {
      forall p | p in was && p !in pages :: p in pager.view && pager.view[p] == was[p]
    }

    /** `create_table`: a new tree without rows. */
    constructor Create(pager: Pager)
      requires Ready(pager) && pager.pageCount + 1 < TWO32
      modifies pager`cache, pager`pageCount, pager`view, pager.file
      ensures Valid() && this.pager == pager && Rows(tree) == [] && tree.Leaf?
      ensures rootPage !in old(pager.view) && OthersKept(old(pager.view), {})
    {
      hide LeafHolds, Rows, Pager.Valid;
      this.pager := pager;
      rootPage := 0;
      new;
      var pgno := NewLeaf(pager);
      rootPage := pgno;
      tree := Leaf(pgno, []);
      RowsOfLeaf(tree);
    }

    /** `promote_root_split`: a new root page with one divider above the two halves. */
    method PromoteRootSplit(split: LeafSplit, ghost c: Cell)
      requires Ready(pager) && pager.pageCount + 1 < TWO32 && tree.Leaf? && tree.pgno == rootPage
      requires split.leftPgno in pager.view && split.rightPgno in pager.view && split.leftPgno == rootPage
      requires Sorted(tree.cells) && Keyed(tree.cells) && !HasKey(tree.cells, c.key) && c.key <= MAX_KEY
      requires HoldsSplit(pager.view, SortedInsert(tree.cells, c), split)
      modifies this, pager`cache, pager`pageCount, pager`view
      ensures Valid() && IsPromoted(old(tree), tree, c) && Rows(tree) == SortedInsert(old(Rows(tree)), c)
      ensures OthersKept(old(pager.view), {})
    {
      hide HoldsSplit, LeafHolds, InteriorHolds;
      SplitDivider(pager.view, tree.cells, c, split);
      var newRoot := NewRootPage(pager, rootPage, split);
      KeepSplit(old(pager.view), pager.view, SortedInsert(tree.cells, c), split);
      rootPage := newRoot;
      TakePromoted(split, c);
    }

    ghost method TakePromoted(split: LeafSplit, c: Cell)
      requires Ready(pager) && tree.Leaf? && tree.pgno == split.leftPgno && rootPage !in {split.leftPgno, split.rightPgno}
      requires Sorted(tree.cells) && Keyed(tree.cells) && !HasKey(tree.cells, c.key) && c.key <= MAX_KEY
      requires HoldsSplit(pager.view, SortedInsert(tree.cells, c), split)
      requires rootPage in pager.view
      requires InteriorHolds(pager.view[rootPage], HeaderOffset(rootPage), [split.leftPgno, split.rightPgno], [split.dividerKey])
      modifies this`tree
      ensures Valid() && IsPromoted(old(tree), tree, c) && Rows(tree) == SortedInsert(old(Rows(tree)), c)
    {
      hide LeafHolds, InteriorHolds, Holds, Distinct, Ordered, Rows, Pager.Valid, SortedInsert;
      var cells := tree.cells;
      var all := SortedInsert(cells, c);
      var mid := |all| / 2;
      SortedInsertKeeps(cells, c);
      PromotedOrdered(all, mid, split.leftPgno, split.rightPgno, rootPage);
      PromotedHolds(pager.view, all, mid, split.leftPgno, split.rightPgno, rootPage);
      RowsOfLeaf(tree);
      tree := PromotedTree(all, mid, split.leftPgno, split.rightPgno, rootPage);
    }

    /** `Btree::insert`. A rowid already in the tree is refused and nothing changes; otherwise the
        rows change by exactly this one. A full leaf root is split and a new root put above it. */
    method Insert(key: i64, record: seq<byte>) returns (r: Result<()>)
      requires Valid() && pager.pageCount + 2 < TWO32
      requires 0 <= key <= MAX_KEY && |record| < TWO63 && CanInsert(pager.view, pager.pageSize, tree, Cell(key, record))
      modifies this, pager`cache, pager`pageCount, pager`view, pager.file
      ensures Valid() && OthersKept(old(pager.view), old(Pages(tree)))
      ensures r == if HasKey(old(Rows(tree)), key) then Err(Constraint) else Ok(())
      ensures r.Err? ==> tree == old(tree) && pager.view == old(pager.view)
      ensures r.Ok? ==> Rows(tree) == SortedInsert(old(Rows(tree)), Cell(key, record))
      ensures AsMap(Rows(tree)) == if r.Ok? then old(AsMap(Rows(tree)))[key as nat := record] else old(AsMap(Rows(tree)))
      ensures r.Ok? ==> tree == old(Inserted(tree, Cell(key, record))) || IsPromoted(old(tree), tree, Cell(key, record))
      ensures r.Ok? && old(RoomFor(pager.view, tree, Cell(key, record))) ==> tree == old(Inserted(tree, Cell(key, record)))
    {
      hide LeafHolds, InteriorHolds, Room, SplitFits, Lists, Rows, CellBytes, Ready, Holds, Ordered, Distinct, AsMap;
      var cell := BuildTableCell(key, record);
      var c := Cell(key, record);
      if !HasKey(Rows(tree), key) { AsMapInsert(Rows(tree), c); }
      RoutedLeafDecides(tree, key);
      TargetLeaf(pager.view, tree, key);
      RootHeld(pager.view, tree);
      var split :- InsertIntoTree(pager, rootPage, cell, c, tree);
      if split.Some? {
        RowsOfLeaf(tree);
        PromoteRootSplit(split.value, c);
      } else {
        TakeInserted(old(pager.view), c);
      }
      return Ok(());
    }

    /** Writes the page of the routed leaf back with rows it already had. */
    method StoreLeaf(leaf: u32, d: seq<byte>, ghost key: int, ghost cells: seq<Cell>)
      requires Valid() && MIN_KEY < key <= MAX_KEY && leaf == Target(tree, key).pgno && leaf in pager.view && |d| == pager.pageSize
      requires LeafHolds(d, HeaderOffset(leaf), cells) && Sorted(cells) && forall c | c in cells :: HasKey(Target(tree, key).cells, c.key)
      modifies this`tree, pager`cache, pager`view
      ensures Valid() && tree == SetLeaf(old(tree), key, cells) && Pages(tree) == old(Pages(tree))
      ensures pager.view == old(pager.view)[leaf as nat := d] && Target(tree, key).pgno == leaf
      ensures OthersKept(old(pager.view), old(Pages(tree))) && pager.view.Keys == old(pager.view.Keys)
    {
      hide LeafHolds, InteriorHolds, Ordered, Distinct, SetLeaf, Sorted, Holds, Pager.Valid;
      PageKnown(pager, leaf);
      TargetHolds(pager.view, tree, key);
      PutKnown(pager, leaf, d);
      SetLeafTwice(tree, key, cells, []);
      LeavesSetLeaf(tree, key, cells);
      TakeRewritten(old(pager.view), key, cells);
    }

    /** `Btree::delete`: removes the row of this rowid, if there is one, and nothing else. */
    method Delete(key: i64) returns (r: Result<bool>)
      requires Valid()
      modifies this`tree, pager`cache, pager`view
      ensures Valid() && OthersKept(old(pager.view), old(Pages(tree))) && Pages(tree) == old(Pages(tree))
      ensures pager.view.Keys == old(pager.view.Keys)
      ensures r == Ok(old(HasKey(Rows(tree), key)))
      ensures !old(HasKey(Rows(tree), key)) ==> pager.view == old(pager.view)
      ensures Rows(tree) == RemoveKey(old(Rows(tree)), key)
      ensures key >= 0 ==> AsMap(Rows(tree)) == old(AsMap(Rows(tree))) - {key as nat}
      ensures tree == if old(HasKey(Rows(tree), key)) then old(SetLeaf(tree, key, RemoveKey(Target(tree, key).cells, key))) else old(tree)
      ensures old(HasKey(Rows(tree), key)) ==>
                forall c: Cell | c.key == key && old(RoomReplacing(pager.view, tree, c)) :: RoomFor(pager.view, tree, c)
    {
      hide LeafHolds, InteriorHolds, Rows, Ordered, Distinct, SetLeaf, RemoveKey, Holds, Pager.Valid, AsMap;
      if key >= 0 { AsMapRemove(Rows(tree), key); }
      RoutedLeafDecides(tree, key);
      TargetHolds(pager.view, tree, key);
      var leaf := FindLeaf(pager, rootPage, key, tree);
      var page := GetKnown(pager, leaf);
      PageKnown(pager, leaf);
      var data := Buffer(page);
      ghost var cells := Target(tree, key).cells;
      var found := DeleteFromLeaf(data, HeaderOffset(leaf), key, cells);
      if found {
        RemoveKeySubset(cells, key);
        StoreLeaf(leaf, data[..], key, RemoveKey(cells, key));
        RowsRemove(old(tree), key);
      } else {
        RemoveKeyAbsent(Rows(tree), key);
      }
      return Ok(found);
    }

    /** `update_table_row`: overwrites the payload in place if the new one is as long. */
    method UpdateTableRow(key: i64, record: seq<byte>) returns (r: Result<bool>)
      requires Valid()
      modifies this`tree, pager`cache, pager`view
      ensures Valid() && OthersKept(old(pager.view), old(Pages(tree))) && Pages(tree) == old(Pages(tree))
      ensures pager.view.Keys == old(pager.view.Keys)
      ensures r == Ok(old(SameLength(Target(tree, key).cells, key, |record|)))
      ensures r == Ok(true) ==> Rows(tree) == ReplaceKey(old(Rows(tree)), key, record) && old(HasKey(Rows(tree), key))
      ensures r == Ok(true) ==> tree == old(SetLeaf(tree, key, ReplaceKey(Target(tree, key).cells, key, record)))
      ensures r == Ok(false) ==> tree == old(tree) && pager.view == old(pager.view)
    {
      hide LeafHolds, InteriorHolds, Rows, Ordered, Distinct, SetLeaf, ReplaceKey, Holds, Pager.Valid;
      RoutedLeafDecides(tree, key);
      TargetHolds(pager.view, tree, key);
      var leaf := FindLeaf(pager, rootPage, key, tree);
      var page := GetKnown(pager, leaf);
      PageKnown(pager, leaf);
      var data := Buffer(page);
      ghost var cells := Target(tree, key).cells;
      var done := UpdateInLeaf(data, HeaderOffset(leaf), key, record, cells);
      if done {
        ReplaceKeySubset(cells, key, record);
        StoreLeaf(leaf, data[..], key, ReplaceKey(cells, key, record));
        RowsReplace(old(tree), key, record);
      }
      return Ok(done);
    }

    /** `Btree::replace`: sets the payload of a rowid, in place or by deleting and inserting again. */
    method Replace(key: i64, record: seq<byte>) returns (r: Result<()>)
      requires Valid() && pager.pageCount + 2 < TWO32 && 0 <= key <= MAX_KEY && |record| < TWO63
      requires || SameLength(Target(tree, key).cells, key, |record|)
               || (HasKey(Rows(tree), key) && RoomReplacing(pager.view, tree, Cell(key, record)))
               || (!HasKey(Rows(tree), key) && CanInsert(pager.view, pager.pageSize, tree, Cell(key, record)))
      modifies this, pager`cache, pager`pageCount, pager`view, pager.file
      ensures Valid() && OthersKept(old(pager.view), old(Pages(tree))) && r == Ok(())
      ensures old(HasKey(Rows(tree), key)) ==>
                && Rows(tree) == ReplaceKey(old(Rows(tree)), key, record)
                && tree == old(SetLeaf(tree, key, ReplaceKey(Target(tree, key).cells, key, record)))
      ensures !old(HasKey(Rows(tree), key)) ==> Rows(tree) == SortedInsert(old(Rows(tree)), Cell(key, record))
      ensures AsMap(Rows(tree)) == old(AsMap(Rows(tree)))[key as nat := record]
    {
      hide LeafHolds, InteriorHolds, Rows, CellBytes, Ordered, Distinct, Holds, Ready, AsMap;
      if HasKey(Rows(tree), key) { AsMapReplace(Rows(tree), key, record); } else { AsMapInsert(Rows(tree), Cell(key, record)); }
      var updated := UpdateTableRow(key, record);
      if updated.Extract() {
        return Ok(());
      }
      ghost var t := tree;
      if HasKey(Rows(t), key) {
        Reinserted(pager.view, t, key, record);
      }
      var deleted := Delete(key);
      if !HasKey(Rows(t), key) {
        RemoveKeyAbsent(Rows(t), key);
      }
      r := Insert(key, record);
    }

    /** Ghost bookkeeping after the routed leaf's page has been rewritten with rows it already had. */
    ghost method TakeRewritten(was: View, key: int, cells: seq<Cell>)
      requires Ready(pager) && TreeOk(was, tree) && tree.pgno == rootPage && MIN_KEY < key <= MAX_KEY && Sorted(cells)
      requires forall c | c in cells :: HasKey(Target(tree, key).cells, c.key)
      requires var p := Target(tree, key).pgno;
               Changed(was, pager.view, p) && LeafHolds(pager.view[p], HeaderOffset(p), cells)
      modifies this`tree
      ensures Valid() && tree == SetLeaf(old(tree), key, cells) && Pages(tree) == old(Pages(tree))
    {
      hide LeafHolds, InteriorHolds;
      HoldsSetLeaf(was, pager.view, tree, key, cells);
      OrderedSetLeaf(tree, MIN_KEY, MAX_KEY, key, cells);
      DistinctSetLeaf(tree, key, cells);
      LeavesSetLeaf(tree, key, cells);
      tree := SetLeaf(tree, key, cells);
    }

    /** Ghost bookkeeping after an insertion without a split. */
    ghost method TakeInserted(was: View, c: Cell)
      requires Ready(pager) && TreeOk(was, tree) && tree.pgno == rootPage && c.key <= MAX_KEY
      requires !HasKey(Target(tree, c.key).cells, c.key)
      requires var p := Target(tree, c.key).pgno;
               Changed(was, pager.view, p) && LeafHolds(pager.view[p], HeaderOffset(p), SortedInsert(Target(tree, c.key).cells, c))
      modifies this`tree
      ensures Valid() && tree == Inserted(old(tree), c) && Rows(tree) == SortedInsert(old(Rows(tree)), c)
    {
      hide LeafHolds, InteriorHolds, Holds, Distinct, Ordered, Rows, Pager.Valid, SortedInsert, SetLeaf;
      TargetLeaf(was, tree, c.key);
      HoldsSetLeaf(was, pager.view, tree, c.key, SortedInsert(Target(tree, c.key).cells, c));
      KeepInserted(tree, c);
      tree := Inserted(tree, c);
    }
  }

  /** Deleting a row and inserting it again rewrites its payload where it stood. */
  lemma Reinserted(m: View, t: Tree, key: nat, record: seq<byte>)
    requires TreeOk(m, t) && HasKey(Rows(t), key)
    ensures var t1 := SetLeaf(t, key, RemoveKey(Target(t, key).cells, key));
            && Shaped(t1) && !HasKey(Rows(t1), key)
            && Inserted(t1, Cell(key, record)) == SetLeaf(t, key, ReplaceKey(Target(t, key).cells, key, record))
            && SortedInsert(RemoveKey(Rows(t), key), Cell(key, record)) == ReplaceKey(Rows(t), key, record)
            && Rows(t1) == RemoveKey(Rows(t), key)
  {
    var cells := Target(t, key).cells;
    var removed := RemoveKey(cells, key);
    RoutedLeafDecides(t, key);
    TargetLeaf(m, t, key);
    RowsRemove(t, key);
    RowsInsertRemoved(t, key, record);
    LeavesSetLeaf(t, key, removed);
    SetLeafTwice(t, key, removed, ReplaceKey(cells, key, record));
    ReinsertIsReplace(cells, key, record);
    NoKeyAfterRemove(Rows(t), key);
  }

  lemma RowsInsertRemoved(t: Tree, key: nat, record: seq<byte>)
    requires Ordered(t, MIN_KEY, MAX_KEY) && Shaped(t) && HasKey(Rows(t), key)
    requires Sorted(Target(t, key).cells)
    ensures SortedInsert(RemoveKey(Rows(t), key), Cell(key, record)) == ReplaceKey(Rows(t), key, record)
  {
    RoutedLeafDecides(t, key);
    var a, b, c := Before(t, key), Target(t, key).cells, After(t, key);
    RowsSetLeaf(t, key, []);
    KeyOutside(t, key);
    TargetApart(t, MIN_KEY, MAX_KEY, key);
    RemoveInMiddle(a, b, c, key);
    ReplaceInMiddle(a, b, c, key, record);
    ReinsertIsReplace(b, key, record);
    InsertInMiddle(a, RemoveKey(b, key), c, Cell(key, record));
  }

  lemma TargetLeaf(m: View, t: Tree, key: int)
    requires Holds(m, t) && Shaped(t)
    ensures Target(t, key).pgno in Pages(t) && Sorted(Target(t, key).cells) && Keyed(Target(t, key).cells)
  {
    TargetHolds(m, t, key);
  }

  lemma InsertedKeys(cells: seq<Cell>, c: Cell)
    requires !HasKey(cells, c.key) && Sorted(cells)
    ensures forall x | x in SortedInsert(cells, c) :: x.key == c.key || HasKey(cells, x.key)
  {
    hide SortedInsert;
    SortedInsertIsInsertAt(cells, c, Slot(cells, c.key));
    var i := Slot(cells, c.key);
    forall x | x in SortedInsert(cells, c) ensures x.key == c.key || HasKey(cells, x.key) {
      var k :| 0 <= k < |cells| + 1 && InsertAt(cells, i, c)[k] == x;
      assert k != i ==> x == cells[if k < i then k else k - 1];
    }
  }

  /** The new row keeps the tree well formed and is the only change to its rows. */
  lemma KeepInserted(t: Tree, c: Cell)
    requires Shaped(t) && Distinct(t) && Ordered(t, MIN_KEY, MAX_KEY) && c.key <= MAX_KEY
    requires !HasKey(Target(t, c.key).cells, c.key)
    requires Sorted(Target(t, c.key).cells) && Keyed(Target(t, c.key).cells)
    ensures var t' := Inserted(t, c);
            Shaped(t') && Distinct(t') && Pages(t') == Pages(t) && Ordered(t', MIN_KEY, MAX_KEY) && Rows(t') == SortedInsert(Rows(t), c)
  {
    hide SortedInsert, Sorted, HasKey, Ordered, Distinct, Pages, Rows, SetLeaf, Shaped;
    var cells := Target(t, c.key).cells;
    SortedInsertKeeps(cells, c);
    InsertedKeys(cells, c);
    OrderedSetLeaf(t, MIN_KEY, MAX_KEY, c.key, SortedInsert(cells, c));
    DistinctSetLeaf(t, c.key, SortedInsert(cells, c));
    LeavesSetLeaf(t, c.key, SortedInsert(cells, c));
    RowsInsert(t, c);
  }
}
