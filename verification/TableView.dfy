/** The tables of the virtual machine are the leaves of B-trees: what its instructions do to a table is
    what `Btree.Replace` and `Btree.Delete` do to the tree (vdbe/exec.rs over storage/btree.rs). */
module TableView {
  import opened Bytes
  import opened LeafPage
  import opened LeafList
  import opened Tree
  import Btree
  import VM = VirtualMachine
  import DmlMeaning

  lemma {:induction false} FlatMember(ls: seq<seq<Cell>>, i: nat, c: Cell)
    requires i < |ls| && c in ls[i]
    ensures c in Flat(ls)
  {
    if i > 0 { FlatMember(ls[1..], i - 1, c); }
  }

  /** A row is in the leaf that its rowid is routed to, and in no other. */
  lemma RoutedHome(t: Tree, i: nat, c: Cell)
    requires Ordered(t, MIN_KEY, MAX_KEY) && Shaped(t) && i < |Lists(t)| && c in Lists(t)[i]
    ensures MIN_KEY < c.key <= MAX_KEY && LeafIndex(t, c.key) == i
  {
    hide Ordered, Lists, Flat, LeafIndex;
    var ls := Lists(t);
    FlatMember(ls, i, c);
    RowWithin(t, c);
    TargetApart(t, MIN_KEY, MAX_KEY, c.key);
    IndexInside(t, c.key);
    var s := LeafIndex(t, c.key);
    if i < s {
      assert ls[..s][i] == ls[i];
      FlatMember(ls[..s], i, c);
      BeforeIs(t, c.key);
    } else if s < i {
      assert ls[s + 1..][i - s - 1] == ls[i];
      FlatMember(ls[s + 1..], i - s - 1, c);
      BeforeIs(t, c.key);
    }
  }

  lemma RowWithin(t: Tree, c: Cell)
    requires Ordered(t, MIN_KEY, MAX_KEY) && c in Flat(Lists(t))
    ensures MIN_KEY < c.key <= MAX_KEY
  {
    OrderedWithin(t, MIN_KEY, MAX_KEY);
    hide Ordered;
    var i :| 0 <= i < |Rows(t)| && Rows(t)[i] == c;
  }

  lemma IndexInside(t: Tree, key: int)
    requires Shaped(t)
    ensures LeafIndex(t, key) < |Lists(t)| && Lists(t)[LeafIndex(t, key)] == Target(t, key).cells
  {
    ListsSetLeaf(t, key, []);
  }

  lemma BeforeIs(t: Tree, key: int)
    requires Shaped(t)
    ensures LeafIndex(t, key) < |Lists(t)|
    ensures Before(t, key) == Flat(Lists(t)[..LeafIndex(t, key)]) && After(t, key) == Flat(Lists(t)[LeafIndex(t, key) + 1..])
  {
    IndexInside(t, key);
  }

  lemma AbsentElsewhere(t: Tree, i: nat, key: int)
    requires Ordered(t, MIN_KEY, MAX_KEY) && Shaped(t) && i < |Lists(t)| && i != LeafIndex(t, key)
    ensures !HasKey(Lists(t)[i], key)
  {
    hide Ordered, Lists, LeafIndex;
    if HasKey(Lists(t)[i], key) {
      var j :| 0 <= j < |Lists(t)[i]| && Lists(t)[i][j].key == key;
      RoutedHome(t, i, Lists(t)[i][j]);
    }
  }

  lemma ReplaceAbsent(cells: seq<Cell>, key: int, payload: seq<byte>)
    requires !HasKey(cells, key)
    ensures ReplaceKey(cells, key, payload) == cells
  {
  }

  /** The store of the machine is `Btree.Replace` of a row that is there. */
  lemma StoreIsReplace(t: Tree, key: int, payload: seq<byte>)
    requires Ordered(t, MIN_KEY, MAX_KEY) && Shaped(t)
    ensures VM.Replaced(Lists(t), key, payload) == Lists(SetLeaf(t, key, ReplaceKey(Target(t, key).cells, key, payload)))
  {
    hide Ordered, Lists, LeafIndex, SetLeaf, HasKey, ReplaceKey;
    IndexInside(t, key);
    ListsSetLeaf(t, key, ReplaceKey(Target(t, key).cells, key, payload));
    forall i | 0 <= i < |Lists(t)| && i != LeafIndex(t, key) ensures ReplaceKey(Lists(t)[i], key, payload) == Lists(t)[i] {
      AbsentElsewhere(t, i, key);
      ReplaceAbsent(Lists(t)[i], key, payload);
    }
  }

  /** The removal of the machine is `Btree.Delete`. */
  lemma RemovalIsDelete(t: Tree, key: int)
    requires Ordered(t, MIN_KEY, MAX_KEY) && Shaped(t)
    ensures VM.Removed(Lists(t), key) == Lists(SetLeaf(t, key, RemoveKey(Target(t, key).cells, key)))
  {
    hide Ordered, Lists, LeafIndex, SetLeaf, HasKey, RemoveKey;
    IndexInside(t, key);
    ListsSetLeaf(t, key, RemoveKey(Target(t, key).cells, key));
    forall i | 0 <= i < |Lists(t)| && i != LeafIndex(t, key) ensures RemoveKey(Lists(t)[i], key) == Lists(t)[i] {
      AbsentElsewhere(t, i, key);
      RemoveKeyAbsent(Lists(t)[i], key);
    }
  }

  /** The leaves of a stored tree can be swept: there is one, and no rowid occurs twice. */
  lemma TreeSweepable(m: View, t: Tree)
    requires TreeOk(m, t)
    ensures Lists(t) != [] && DmlMeaning.KeysDiffer(Lists(t))
  {
    hide Ordered, Lists, LeafIndex, Holds, Distinct;
    var ls: seq<seq<Cell>> := Lists(t);
    IndexInside(t, 0);
    forall i, x, y | 0 <= i < |ls| && 0 <= x < y < |ls[i]| ensures ls[i][x].key != ls[i][y].key {
      RoutedHome(t, i, ls[i][x]);
      IndexInside(t, ls[i][x].key);
      Btree.TargetLeaf(m, t, ls[i][x].key);
    }
    forall i, k, x, y | 0 <= i < k < |ls| && 0 <= x < |ls[i]| && 0 <= y < |ls[k]| ensures ls[i][x].key != ls[k][y].key {
      RoutedHome(t, i, ls[i][x]);
      RoutedHome(t, k, ls[k][y]);
    }
  }
}
