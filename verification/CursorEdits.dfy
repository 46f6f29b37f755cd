/** Editing the row a cursor stands on (vdbe/exec.rs over storage/btree.rs): stack and position of the
    cursor stay good, on pages and stack as on the list of leaves. */
module CursorEdits {
  import opened Bytes
  import opened LeafPage
  import opened InteriorPage
  import opened LeafList
  import opened Tree
  import opened Btree
  import opened BtreeCursor
  import TableView
  import VM = VirtualMachine

  lemma LeafCountKept(t: Tree, key: int, cells: seq<Cell>)
    requires Shaped(t)
    ensures Shaped(SetLeaf(t, key, cells)) && |Leaves(SetLeaf(t, key, cells))| == |Leaves(t)|
  {
    LeavesSetLeaf(t, key, cells);
  }

  /** Another subtree of as many leaves leaves the counts before and behind it alone. */
  lemma LeavesBefore(kids: seq<Tree>, r: nat, kid: Tree, s: nat)
    requires r < |kids| && s <= |kids| && |Leaves(kid)| == |Leaves(kids[r])|
    ensures |LeavesOf(kids[r := kid][..s])| == |LeavesOf(kids[..s])|
  {
    hide Leaves, LeavesOf;
    if r < s {
      var a, b := kids[..s], kids[r := kid][..s];
      LeavesAt(a, r);
      LeavesAt(b, r);
      assert a[..r] == b[..r] && a[r + 1..] == b[r + 1..];
    } else {
      assert kids[r := kid][..s] == kids[..s];
    }
  }

  /** Rewriting the rows of one leaf moves no path. */
  lemma {:induction false} PathSetLeaf(t: Tree, key: int, cells: seq<Cell>, fs: seq<Frame>)
    requires Shaped(t) && Path(t, fs)
    ensures var t' := SetLeaf(t, key, cells);
            && Path(t', fs) && Passed(t', fs) == Passed(t, fs)
            && Sub(t', fs).pgno == Sub(t, fs).pgno && (Sub(t, fs).Leaf? <==> Sub(t', fs).Leaf?)
    decreases |fs|
  {
    hide Leaves, LeavesOf, ChildSlot;
    if fs != [] {
      var r, s := ChildSlot(t.keys, key), fs[0].childSlot;
      var kid := SetLeaf(t.kids[r], key, cells);
      LeafCountKept(t.kids[r], key, cells);
      LeavesBefore(t.kids, r, kid, s);
      PathShaped(t, fs);
      if s == r { PathSetLeaf(t.kids[s], key, cells, fs[1..]); }
    }
  }

  lemma PathShaped(t: Tree, fs: seq<Frame>)
    requires Shaped(t) && Path(t, fs) && fs != []
    ensures Shaped(t.kids[fs[0].childSlot]) && Path(t.kids[fs[0].childSlot], fs[1..])
  {
  }

  /** A valid cursor stays valid, where it is, when one leaf of its tree gets other rows. */
  lemma PlaceKept(t: Tree, key: int, cells: seq<Cell>, fs: seq<Frame>)
    requires Shaped(t) && Path(t, fs) && Sub(t, fs).Leaf? && Passed(t, fs) < |Leaves(t)|
    ensures var t' := SetLeaf(t, key, cells);
            && Shaped(t') && Path(t', fs) && Sub(t', fs).Leaf? && Sub(t', fs).pgno == Sub(t, fs).pgno
            && Passed(t', fs) == Passed(t, fs) && |Leaves(t')| == |Leaves(t)|
  {
    hide Path, Sub, Passed, Leaves;
    PathSetLeaf(t, key, cells, fs);
    LeafCountKept(t, key, cells);
  }

  /** The row under the cursor is a row of the tree, in the leaf its rowid is routed to. */
  lemma UnderCursor(cur: TableCursor)
    requires cur.Valid() && On(Lists(cur.btree.tree), cur.Position())
    ensures cur.currentKey.Some? && 0 <= cur.currentKey.value <= MAX_KEY
    ensures HasKey(Rows(cur.btree.tree), cur.currentKey.value)
  {
    hide Ordered, Distinct, Holds, Path, Sub, Passed, Leaves, Flat;
    var t, c := cur.btree.tree, cur.Position();
    var row := Lists(t)[c.leaf][c.cell];
    TableView.RoutedHome(t, c.leaf, row);
    TableView.FlatMember(Lists(t), c.leaf, row);
    var i :| 0 <= i < |Rows(t)| && Rows(t)[i] == row;
  }

  /** `Insert` with `replace`: the row under the cursor gets another record. */
  method StoreCurrent(cur: TableCursor, record: seq<byte>) returns (r: Result<()>)
    requires cur.Valid() && On(Lists(cur.btree.tree), cur.Position())
    requires cur.btree.pager.pageCount + 2 < TWO32 && |record| < TWO63
    requires var t, key := cur.btree.tree, cur.currentKey.value;
             SameLength(Target(t, key).cells, key, |record|) || (key >= 0 && RoomReplacing(cur.btree.pager.view, t, Cell(key, record)))
    modifies cur.btree, cur.btree.pager`cache, cur.btree.pager`pageCount, cur.btree.pager`view, cur.btree.pager.file
    ensures r == Ok(()) && cur.Valid() && cur.Position() == old(cur.Position())
    ensures Lists(cur.btree.tree) == VM.Replaced(old(Lists(cur.btree.tree)), cur.currentKey.value, record)
  {
    hide Ordered, Distinct, Holds, Path, Sub, Passed, Leaves, Lists, CellsOf, On, SameLength, ReplaceKey, SetLeaf, Ready, Target, HasKey;
    ghost var t, fs := cur.btree.tree, cur.stack;
    UnderCursor(cur);
    var key := cur.currentKey.value;
    r := cur.btree.Replace(key, record);
    PlaceKept(t, key, ReplaceKey(Target(t, key).cells, key, record), fs);
    TableView.StoreIsReplace(t, key, record);
    StandsInLeaf(cur.btree, fs);
  }

  /** `Delete`: the row under the cursor goes; the cursor keeps its place. */
  method DeleteCurrent(cur: TableCursor) returns (r: Result<bool>)
    requires cur.Valid() && On(Lists(cur.btree.tree), cur.Position())
    modifies cur.btree`tree, cur.btree.pager`cache, cur.btree.pager`view
    ensures r == Ok(true) && cur.Valid() && cur.Position() == old(cur.Position())
    ensures Lists(cur.btree.tree) == VM.Removed(old(Lists(cur.btree.tree)), cur.currentKey.value)
  {
    hide Ordered, Distinct, Holds, Path, Sub, Passed, Leaves, Lists, CellsOf, On, RemoveKey, SetLeaf, Ready, Target, HasKey;
    ghost var t, fs := cur.btree.tree, cur.stack;
    UnderCursor(cur);
    var key := cur.currentKey.value;
    r := cur.btree.Delete(key);
    PlaceKept(t, key, RemoveKey(Target(t, key).cells, key), fs);
    TableView.RemovalIsDelete(t, key);
    StandsInLeaf(cur.btree, fs);
  }
}
