/** Table B-trees as values: shape, order, the pages that store them, and the row list they stand for. */
module Tree {
  import opened Bytes
  import opened LeafPage
  import opened InteriorPage
  import opened LeafList

  datatype Tree =
    | Leaf(pgno: u32, cells: seq<Cell>)
    | Node(pgno: u32, kids: seq<Tree>, keys: seq<nat>)

  type View = map<nat, seq<byte>>

  /** `page_header_offset`: the database header precedes page 1. */
  function HeaderOffset(pgno: nat): nat { if pgno == 1 then 100 else 0 }

  // ---- Leaves and routing ----------------------------------------------------------

  function Leaves(t: Tree): (ls: seq<Tree>)
    ensures forall l | l in ls :: l.Leaf?
    decreases t, 1
  {
    match t
    case Leaf(_, _) => [t]
    case Node(_, kids, _) => LeavesOf(kids)
  }

  function LeavesOf(ts: seq<Tree>): (ls: seq<Tree>)
    ensures forall l | l in ls :: l.Leaf?
    decreases ts, 0
  {
    if ts == [] then [] else Leaves(ts[0]) + LeavesOf(ts[1..])
  }

  /** The rows, leaf by leaf. */
  function Lists(t: Tree): (ls: seq<seq<Cell>>)
    ensures |ls| == |Leaves(t)|
  { CellsOf(Leaves(t)) }

  function CellsOf(ls: seq<Tree>): (r: seq<seq<Cell>>)
    requires forall l | l in ls :: l.Leaf?
    ensures |r| == |ls|
  { seq(|ls|, i requires 0 <= i < |ls| => ls[i].cells) }

  function Rows(t: Tree): seq<Cell> { Flat(Lists(t)) }

  ghost predicate Shaped(t: Tree) {
    t.Node? ==> |t.kids| == |t.keys| + 1 && forall i | 0 <= i < |t.kids| :: Shaped(t.kids[i])
  }

  function Low(keys: seq<nat>, lo: int, i: nat): int
    requires i <= |keys|
  { if i == 0 then lo else keys[i - 1] }

  function High(keys: seq<nat>, hi: int, i: nat): int
    requires i <= |keys|
  { if i < |keys| then keys[i] else hi }

  /** The search-tree invariant: rowids lie in (lo, hi], divider by divider. */
  ghost predicate Ordered(t: Tree, lo: int, hi: int) {
    match t
    case Leaf(_, cells) => Sorted(cells) && forall i | 0 <= i < |cells| :: lo < cells[i].key <= hi
    case Node(_, kids, keys) =>
      |kids| == |keys| + 1 && forall i | 0 <= i < |kids| :: Low(keys, lo, i) <= High(keys, hi, i) && Ordered(kids[i], Low(keys, lo, i), High(keys, hi, i))
  }

  lemma {:induction false} OrderedShaped(t: Tree, lo: int, hi: int)
    requires Ordered(t, lo, hi)
    ensures Shaped(t)
  {
    if t.Node? {
      forall i | 0 <= i < |t.kids| ensures Shaped(t.kids[i]) {
        OrderedShaped(t.kids[i], Low(t.keys, lo, i), High(t.keys, hi, i));
      }
    }
  }

  /** The number of the leaf a rowid is routed to. */
  function LeafIndex(t: Tree, key: int): nat
    requires Shaped(t)
  {
    match t
    case Leaf(_, _) => 0
    case Node(_, kids, keys) =>
      var s := ChildSlot(keys, key);
      |LeavesOf(kids[..s])| + LeafIndex(kids[s], key)
  }

  /** The tree with the rows of that leaf replaced. */
  function SetLeaf(t: Tree, key: int, cells: seq<Cell>): (r: Tree)
    requires Shaped(t)
    ensures r.pgno == t.pgno
  {
    match t
    case Leaf(pgno, _) => Leaf(pgno, cells)
    case Node(pgno, kids, keys) =>
      var s := ChildSlot(keys, key);
      Node(pgno, kids[s := SetLeaf(kids[s], key, cells)], keys)
  }

  lemma {:induction false} LeavesConcat(a: seq<Tree>, b: seq<Tree>)
    ensures LeavesOf(a + b) == LeavesOf(a) + LeavesOf(b)
  {
    hide Leaves, LeavesOf;
    NoTrees();
    if a == [] {
      assert a + b == b;
    } else {
      LeavesConcat(a[1..], b);
      LeavesFront(a);
      LeavesFront(a + b);
      assert (a + b)[0] == a[0] && (a + b)[1..] == a[1..] + b;
      assert LeavesOf(a + b) == Leaves(a[0]) + (LeavesOf(a[1..]) + LeavesOf(b));
    }
  }

  lemma NoTrees()
    ensures LeavesOf([]) == []
  {
  }

  lemma LeavesFront(ts: seq<Tree>)
    requires ts != []
    ensures LeavesOf(ts) == Leaves(ts[0]) + LeavesOf(ts[1..])
  {
  }

  lemma {:induction false} LeavesAt(ts: seq<Tree>, s: nat)
    requires s < |ts|
    ensures LeavesOf(ts) == LeavesOf(ts[..s]) + Leaves(ts[s]) + LeavesOf(ts[s + 1..])
  {
    hide Leaves, LeavesOf;
    LeavesConcat(ts[..s], ts[s..]);
    LeavesFront(ts[s..]);
    assert ts[..s] + ts[s..] == ts && ts[s..][1..] == ts[s + 1..];
  }

  /** Replacing the rows of the routed leaf replaces exactly one leaf of the list. */
  lemma {:induction false} LeavesSetLeaf(t: Tree, key: int, cells: seq<Cell>)
    requires Shaped(t)
    ensures Shaped(SetLeaf(t, key, cells))
    ensures LeafIndex(t, key) < |Leaves(t)|
    ensures Leaves(SetLeaf(t, key, cells)) == Leaves(t)[LeafIndex(t, key) := Leaf(Leaves(t)[LeafIndex(t, key)].pgno, cells)]
  {
    hide LeavesOf, ChildSlot;
    if t.Node? {
      var s := ChildSlot(t.keys, key);
      var kid' := SetLeaf(t.kids[s], key, cells);
      var kids' := t.kids[s := kid'];
      LeavesSetLeaf(t.kids[s], key, cells);
      LeavesAt(t.kids, s);
      LeavesAt(kids', s);
      assert kids'[..s] == t.kids[..s] && kids'[s + 1..] == t.kids[s + 1..];
      SetBetween(LeavesOf(t.kids[..s]), Leaves(t.kids[s]), LeavesOf(t.kids[s + 1..]), LeafIndex(t.kids[s], key), Leaf(Leaves(t.kids[s])[LeafIndex(t.kids[s], key)].pgno, cells));
    }
  }

  lemma SetBetween<T>(a: seq<T>, b: seq<T>, c: seq<T>, i: nat, x: T)
    requires i < |b|
    ensures (a + b + c)[|a| + i := x] == a + b[i := x] + c && (a + b + c)[|a| + i] == b[i]
  {
  }

  lemma {:induction false} SetLeafTwice(t: Tree, key: int, a: seq<Cell>, b: seq<Cell>)
    requires Shaped(t)
    ensures Shaped(SetLeaf(t, key, a)) && LeafIndex(SetLeaf(t, key, a), key) == LeafIndex(t, key)
    ensures SetLeaf(SetLeaf(t, key, a), key, b) == SetLeaf(t, key, b)
  {
    LeavesSetLeaf(t, key, a);
    if t.Node? {
      var s := ChildSlot(t.keys, key);
      SetLeafTwice(t.kids[s], key, a, b);
      var kids' := t.kids[s := SetLeaf(t.kids[s], key, a)];
      assert kids'[..s] == t.kids[..s];
    }
  }

  ghost function Target(t: Tree, key: int): (l: Tree)
    requires Shaped(t)
    ensures l.Leaf? && l in Leaves(t)
  {
    LeavesSetLeaf(t, key, []);
    Leaves(t)[LeafIndex(t, key)]
  }

  lemma ListsSetLeaf(t: Tree, key: int, cells: seq<Cell>)
    requires Shaped(t)
    ensures LeafIndex(t, key) < |Lists(t)| && Lists(t)[LeafIndex(t, key)] == Target(t, key).cells
    ensures Shaped(SetLeaf(t, key, cells)) && Lists(SetLeaf(t, key, cells)) == Lists(t)[LeafIndex(t, key) := cells]
  {
    LeavesSetLeaf(t, key, cells);
  }

  /** The rows before and after the routed leaf. */
  ghost function Before(t: Tree, key: int): seq<Cell>
    requires Shaped(t)
  { LeavesSetLeaf(t, key, []); Flat(Lists(t)[..LeafIndex(t, key)]) }

  ghost function After(t: Tree, key: int): seq<Cell>
    requires Shaped(t)
  { LeavesSetLeaf(t, key, []); Flat(Lists(t)[LeafIndex(t, key) + 1..]) }

  lemma RowsSetLeaf(t: Tree, key: int, cells: seq<Cell>)
    requires Shaped(t)
    ensures Shaped(SetLeaf(t, key, cells))
    ensures Rows(t) == Before(t, key) + Target(t, key).cells + After(t, key)
    ensures Rows(SetLeaf(t, key, cells)) == Before(t, key) + cells + After(t, key)
  {
    ListsSetLeaf(t, key, cells);
    FlatAt(Lists(t), LeafIndex(t, key));
    FlatUpdate(Lists(t), LeafIndex(t, key), cells);
  }

  // ---- Order ---------------------------------------------------------------------------

  function RowsOf(ts: seq<Tree>): seq<Cell> { Flat(CellsOf(LeavesOf(ts))) }

  ghost predicate Within(cells: seq<Cell>, lo: int, hi: int) {
    forall i | 0 <= i < |cells| :: lo < cells[i].key <= hi
  }

  lemma RowsOfSplit(ts: seq<Tree>, s: nat)
    requires s < |ts|
    ensures RowsOf(ts) == RowsOf(ts[..s]) + Rows(ts[s]) + RowsOf(ts[s + 1..])
  {
    var a, b, c := LeavesOf(ts[..s]), Leaves(ts[s]), LeavesOf(ts[s + 1..]);
    LeavesAt(ts, s);
    assert CellsOf(a + b + c) == CellsOf(a) + CellsOf(b) + CellsOf(c);
    FlatConcat(CellsOf(a) + CellsOf(b), CellsOf(c));
    FlatConcat(CellsOf(a), CellsOf(b));
  }

  lemma {:induction false} RowsOfWithin(ts: seq<Tree>, lo: int, hi: int)
    requires forall i | 0 <= i < |ts| :: Within(Rows(ts[i]), lo, hi)
    ensures Within(RowsOf(ts), lo, hi)
  {
    if ts != [] {
      RowsOfSplit(ts, 0);
      assert RowsOf(ts[..0]) == [];
      RowsOfWithin(ts[1..], lo, hi);
    }
  }

  lemma {:induction false} DividersAscend(t: Tree, lo: int, hi: int, i: nat, j: nat)
    requires t.Node? && Ordered(t, lo, hi) && i <= j <= |t.keys|
    ensures Low(t.keys, lo, i) <= Low(t.keys, lo, j) && High(t.keys, hi, i) <= High(t.keys, hi, j)
    decreases j - i
  {
    assert Low(t.keys, lo, j) <= High(t.keys, hi, j);
    if i < j {
      DividersAscend(t, lo, hi, i, j - 1);
      assert Low(t.keys, lo, j - 1) <= High(t.keys, hi, j - 1);
    }
  }

  /** Every row of an ordered tree lies within its bounds. */
  lemma {:induction false} OrderedWithin(t: Tree, lo: int, hi: int)
    requires Ordered(t, lo, hi)
    ensures Within(Rows(t), lo, hi)
    decreases t, 1
  {
    match t
    case Leaf(_, cells) =>
      assert Lists(t) == [cells];
      assert Flat([cells]) == cells;
    case Node(_, kids, keys) =>
      KidsWithin(t, lo, hi, 0, |kids|);
      assert kids[0..|kids|] == kids;
  }

  lemma {:induction false} KidsWithin(t: Tree, lo: int, hi: int, a: nat, b: nat)
    requires t.Node? && Ordered(t, lo, hi) && a <= b <= |t.kids|
    ensures Within(RowsOf(t.kids[a..b]), if a < |t.kids| then Low(t.keys, lo, a) else hi, if b > 0 then High(t.keys, hi, b - 1) else lo)
    decreases t, 0
  {
    if a < b {
      var ts := t.kids[a..b];
      forall i | 0 <= i < |ts| ensures Within(Rows(ts[i]), Low(t.keys, lo, a), High(t.keys, hi, b - 1)) {
        OrderedWithin(t.kids[a + i], Low(t.keys, lo, a + i), High(t.keys, hi, a + i));
        DividersAscend(t, lo, hi, a, a + i);
        DividersAscend(t, lo, hi, a + i, b - 1);
      }
      RowsOfWithin(ts, Low(t.keys, lo, a), High(t.keys, hi, b - 1));
    } else {
      assert t.kids[a..b] == [];
    }
  }

  /** The rows of an ordered tree ascend, from leaf to leaf. */
  lemma {:induction false} RowsSorted(t: Tree, lo: int, hi: int)
    requires Ordered(t, lo, hi)
    ensures Sorted(Rows(t))
    decreases t, 1
  {
    match t
    case Leaf(_, cells) =>
      assert Lists(t) == [cells] && Flat([cells]) == cells;
    case Node(_, kids, keys) =>
      KidsSorted(t, lo, hi, |kids|);
      assert kids[..|kids|] == kids;
  }

  lemma {:induction false} KidsSorted(t: Tree, lo: int, hi: int, b: nat)
    requires t.Node? && Ordered(t, lo, hi) && b <= |t.kids|
    ensures Sorted(RowsOf(t.kids[..b]))
    decreases t, 0, b
  {
    if b > 0 {
      KidsSorted(t, lo, hi, b - 1);
      RowsSorted(t.kids[b - 1], Low(t.keys, lo, b - 1), High(t.keys, hi, b - 1));
      KidsStep(t, lo, hi, b);
    } else {
      assert t.kids[..0] == [];
    }
  }

  lemma KidsStep(t: Tree, lo: int, hi: int, b: nat)
    requires t.Node? && Ordered(t, lo, hi) && 0 < b <= |t.kids|
    requires Sorted(RowsOf(t.kids[..b - 1])) && Sorted(Rows(t.kids[b - 1]))
    ensures Sorted(RowsOf(t.kids[..b]))
  {
    hide Ordered, RowsOf, Rows, Within, Sorted;
    OrderedKid(t, lo, hi, b - 1);
    var kid, low := t.kids[b - 1], Low(t.keys, lo, b - 1);
    RowsOfLast(t.kids[..b]);
    assert t.kids[..b][..b - 1] == t.kids[..b - 1];
    OrderedWithin(kid, low, High(t.keys, hi, b - 1));
    KidsWithin(t, lo, hi, 0, b - 1);
    assert t.kids[0..b - 1] == t.kids[..b - 1];
    SortedConcat(RowsOf(t.kids[..b - 1]), Rows(kid), Low(t.keys, lo, 0), low, High(t.keys, hi, b - 1));
  }

  lemma OrderedKid(t: Tree, lo: int, hi: int, i: nat)
    requires t.Node? && Ordered(t, lo, hi) && i < |t.kids|
    ensures i <= |t.keys| && Ordered(t.kids[i], Low(t.keys, lo, i), High(t.keys, hi, i))
  {
  }

  lemma RowsOfLast(ts: seq<Tree>)
    requires ts != []
    ensures RowsOf(ts) == RowsOf(ts[..|ts| - 1]) + Rows(ts[|ts| - 1])
  {
    hide Rows, Leaves;
    RowsOfSplit(ts, |ts| - 1);
    assert ts[|ts|..] == [];
    assert RowsOf([]) == [];
  }

  lemma SortedConcat(a: seq<Cell>, b: seq<Cell>, lo: int, mid: int, hi: int)
    requires Sorted(a) && Sorted(b) && Within(a, lo, mid) && Within(b, mid, hi)
    ensures Sorted(a + b)
  {
  }

  lemma FlatAround(x: seq<seq<Cell>>, y: seq<seq<Cell>>, z: seq<seq<Cell>>, i: nat)
    requires i < |y|
    ensures Flat((x + y + z)[..|x| + i]) == Flat(x) + Flat(y[..i])
    ensures Flat((x + y + z)[|x| + i + 1..]) == Flat(y[i + 1..]) + Flat(z)
  {
    assert (x + y + z)[..|x| + i] == x + y[..i];
    FlatConcat(x, y[..i]);
    assert (x + y + z)[|x| + i + 1..] == y[i + 1..] + z;
    FlatConcat(y[i + 1..], z);
  }

  lemma LeavesAround(t: Tree, key: int)
    requires t.Node? && Shaped(t)
    ensures var s := ChildSlot(t.keys, key);
            var a, b, c := LeavesOf(t.kids[..s]), Leaves(t.kids[s]), LeavesOf(t.kids[s + 1..]);
            && LeafIndex(t.kids[s], key) < |b| && LeafIndex(t, key) == |a| + LeafIndex(t.kids[s], key)
            && Leaves(t) == a + b + c && Lists(t) == CellsOf(a) + CellsOf(b) + CellsOf(c)
  {
    hide LeavesOf, ChildSlot;
    var s := ChildSlot(t.keys, key);
    LeavesAt(t.kids, s);
    LeavesSetLeaf(t.kids[s], key, []);
    CellsOfParts(LeavesOf(t.kids[..s]), Leaves(t.kids[s]), LeavesOf(t.kids[s + 1..]));
  }

  lemma CellsOfParts(a: seq<Tree>, b: seq<Tree>, c: seq<Tree>)
    requires forall l | l in a || l in b || l in c :: l.Leaf?
    ensures CellsOf(a + b + c) == CellsOf(a) + CellsOf(b) + CellsOf(c)
  {
  }

  lemma TargetOfNode(t: Tree, key: int)
    requires t.Node? && Shaped(t)
    ensures Target(t, key) == Target(t.kids[ChildSlot(t.keys, key)], key)
  {
    LeavesAround(t, key);
  }

  lemma BeforeNode(t: Tree, key: int, s: nat)
    requires t.Node? && Shaped(t) && s == ChildSlot(t.keys, key)
    ensures Before(t, key) == RowsOf(t.kids[..s]) + Before(t.kids[s], key)
  {
    hide Leaves, LeavesOf, LeafIndex, Flat;
    LeavesAround(t, key);
    FlatAround(CellsOf(LeavesOf(t.kids[..s])), Lists(t.kids[s]), CellsOf(LeavesOf(t.kids[s + 1..])), LeafIndex(t.kids[s], key));
  }

  lemma AfterNode(t: Tree, key: int, s: nat)
    requires t.Node? && Shaped(t) && s == ChildSlot(t.keys, key)
    ensures After(t, key) == After(t.kids[s], key) + RowsOf(t.kids[s + 1..])
  {
    hide Leaves, LeavesOf, LeafIndex, Flat;
    LeavesAround(t, key);
    FlatAround(CellsOf(LeavesOf(t.kids[..s])), Lists(t.kids[s]), CellsOf(LeavesOf(t.kids[s + 1..])), LeafIndex(t.kids[s], key));
  }

  /** A rowid within the bounds is above every row before its leaf and below every row after it,
      whether or not it is stored. */
  lemma {:induction false} TargetApart(t: Tree, lo: int, hi: int, key: int)
    requires Ordered(t, lo, hi) && Shaped(t) && lo < key <= hi
    ensures forall c | c in Before(t, key) :: c.key < key
    ensures forall c | c in After(t, key) :: key < c.key
  {
    hide Flat, Before, After, RowsOf, Within, Ordered, Low, High;
    if t.Leaf? {
      AloneApart(t, key);
    } else {
      var s := ChildSlot(t.keys, key);
      RoutedKid(t, lo, hi, key);
      TargetApart(t.kids[s], Low(t.keys, lo, s), High(t.keys, hi, s), key);
      BeforeNode(t, key, s);
      AfterNode(t, key, s);
      KidsApart(t, lo, hi, key);
    }
  }

  /** The child a rowid is routed to covers it. */
  lemma RoutedKid(t: Tree, lo: int, hi: int, key: int)
    requires t.Node? && Ordered(t, lo, hi) && Shaped(t) && lo < key <= hi
    ensures var s := ChildSlot(t.keys, key);
            && Shaped(t.kids[s]) && Ordered(t.kids[s], Low(t.keys, lo, s), High(t.keys, hi, s))
            && Low(t.keys, lo, s) < key <= High(t.keys, hi, s)
  {
  }

  /** The rows of the children before and after it keep to their sides. */
  lemma KidsApart(t: Tree, lo: int, hi: int, key: int)
    requires t.Node? && Ordered(t, lo, hi) && Shaped(t) && lo < key <= hi
    ensures forall c | c in RowsOf(t.kids[..ChildSlot(t.keys, key)]) :: c.key < key
    ensures forall c | c in RowsOf(t.kids[ChildSlot(t.keys, key) + 1..]) :: key < c.key
  {
    hide Flat, RowsOf, Within, Ordered;
    var s := ChildSlot(t.keys, key);
    KidsWithin(t, lo, hi, 0, s);
    KidsWithin(t, lo, hi, s + 1, |t.kids|);
    assert t.kids[0..s] == t.kids[..s] && t.kids[s + 1..|t.kids|] == t.kids[s + 1..];
    WithinBounds(RowsOf(t.kids[..s]), lo, if s > 0 then High(t.keys, hi, s - 1) else lo);
    WithinBounds(RowsOf(t.kids[s + 1..]), if s + 1 < |t.kids| then Low(t.keys, lo, s + 1) else hi, hi);
  }

  lemma WithinBounds(cells: seq<Cell>, lo: int, hi: int)
    requires Within(cells, lo, hi)
    ensures forall c | c in cells :: lo < c.key <= hi
  {
  }

  lemma AloneApart(t: Tree, key: int)
    requires t.Leaf?
    ensures Before(t, key) == [] && After(t, key) == []
  {
    assert Lists(t)[..0] == [] && Lists(t)[1..] == [];
  }

  /** Rows that were there and the routed rowid keep the tree ordered. */
  lemma {:induction false} OrderedSetLeaf(t: Tree, lo: int, hi: int, key: int, cells: seq<Cell>)
    requires Ordered(t, lo, hi) && Shaped(t) && lo < key <= hi && Sorted(cells)
    requires forall c | c in cells :: c.key == key || HasKey(Target(t, key).cells, c.key)
    ensures Ordered(SetLeaf(t, key, cells), lo, hi)
  {
    match t
    case Leaf(_, was) =>
      assert Target(t, key) == t;
      forall i | 0 <= i < |cells| ensures lo < cells[i].key <= hi { assert cells[i] in cells; }
    case Node(_, kids, keys) =>
      var s := ChildSlot(keys, key);
      TargetOfNode(t, key);
      OrderedSetLeaf(kids[s], Low(keys, lo, s), High(keys, hi, s), key, cells);
      var kids' := kids[s := SetLeaf(kids[s], key, cells)];
      forall i | 0 <= i < |kids'| ensures Low(keys, lo, i) <= High(keys, hi, i) && Ordered(kids'[i], Low(keys, lo, i), High(keys, hi, i)) {
      }
  }

  // ---- Pages ------------------------------------------------------------------------------

  function Pages(t: Tree): set<nat> {
    match t
    case Leaf(pgno, _) => {pgno as nat}
    case Node(pgno, kids, _) => {pgno as nat} + set i, p | 0 <= i < |kids| && p in Pages(kids[i]) :: p
  }

  /** No page is used twice. */
  ghost predicate Distinct(t: Tree) {
    t.Node? ==>
      && (forall i | 0 <= i < |t.kids| :: Distinct(t.kids[i]) && t.pgno !in Pages(t.kids[i]))
      && (forall i, j | 0 <= i < j < |t.kids| :: Pages(t.kids[i]) !! Pages(t.kids[j]))
  }

  function KidPages(kids: seq<Tree>): (r: seq<u32>)
    ensures |r| == |kids|
  { seq(|kids|, i requires 0 <= i < |kids| => kids[i].pgno) }

  /** The pages of `m` store the tree, byte for byte. */
  ghost predicate Holds(m: View, t: Tree) {
    && t.pgno in m
    && match t
       case Leaf(pgno, cells) => LeafHolds(m[pgno], HeaderOffset(pgno), cells)
       case Node(pgno, kids, keys) =>
         InteriorHolds(m[pgno], HeaderOffset(pgno), KidPages(kids), keys) && forall i | 0 <= i < |kids| :: Holds(m, kids[i])
  }

  /** A tree does not notice changes to other pages. */
  lemma {:induction false} HoldsKept(m: View, m': View, t: Tree)
    requires Holds(m, t)
    requires forall p | p in Pages(t) && p in m :: p in m' && m'[p] == m[p]
    ensures Holds(m', t)
  {
    if t.Node? {
      forall i | 0 <= i < |t.kids| ensures Holds(m', t.kids[i]) {
        HoldsKept(m, m', t.kids[i]);
      }
    }
  }

  lemma {:induction false} TargetHolds(m: View, t: Tree, key: int)
    requires Holds(m, t) && Shaped(t)
    ensures Target(t, key).pgno in Pages(t) && Target(t, key).pgno in m
    ensures LeafHolds(m[Target(t, key).pgno], HeaderOffset(Target(t, key).pgno), Target(t, key).cells)
  {
    if t.Node? {
      TargetOfNode(t, key);
      TargetHolds(m, t.kids[ChildSlot(t.keys, key)], key);
    }
  }

  /** Rewriting the routed leaf's page rewrites that leaf and nothing else. */
  lemma {:induction false} HoldsSetLeaf(m: View, m': View, t: Tree, key: int, cells: seq<Cell>)
    requires Holds(m, t) && Shaped(t) && Distinct(t)
    requires var p := Target(t, key).pgno; p in m' && LeafHolds(m'[p], HeaderOffset(p), cells)
    requires forall q | q in Pages(t) && q in m && q != Target(t, key).pgno :: q in m' && m'[q] == m[q]
    ensures Holds(m', SetLeaf(t, key, cells))
  {
    hide LeafHolds, InteriorHolds, ChildSlot, Target;
    if t.Leaf? {
      TargetOfLeaf(t, key);
    } else {
      var s := ChildSlot(t.keys, key);
      var kid := t.kids[s];
      TargetOfNode(t, key);
      TargetHolds(m, kid, key);
      HoldsSetLeaf(m, m', kid, key, cells);
      var kids' := t.kids[s := SetLeaf(kid, key, cells)];
      assert KidPages(kids') == KidPages(t.kids);
      forall i | 0 <= i < |kids'| ensures Holds(m', kids'[i]) {
        if i != s { HoldsKept(m, m', t.kids[i]); }
      }
    }
  }

  lemma TargetOfLeaf(t: Tree, key: int)
    requires t.Leaf?
    ensures Target(t, key) == t
  {
  }

  lemma {:induction false} DistinctSetLeaf(t: Tree, key: int, cells: seq<Cell>)
    requires Shaped(t) && Distinct(t)
    ensures Pages(SetLeaf(t, key, cells)) == Pages(t) && Distinct(SetLeaf(t, key, cells))
  {
    if t.Node? {
      var s := ChildSlot(t.keys, key);
      DistinctSetLeaf(t.kids[s], key, cells);
      var kids' := t.kids[s := SetLeaf(t.kids[s], key, cells)];
      assert forall i | 0 <= i < |kids'| :: Pages(kids'[i]) == Pages(t.kids[i]);
    }
  }

  // ---- The tree as a sorted list of rows ------------------------------------------------------

  const MIN_KEY := -1
  const MAX_KEY := TWO56 - 1

  /** A well-formed table tree stored in the pages of `m`. */
  ghost predicate TreeOk(m: View, t: Tree) {
    Holds(m, t) && Shaped(t) && Distinct(t) && Ordered(t, MIN_KEY, MAX_KEY)
  }

  lemma KeyOutside(t: Tree, key: int)
    requires Ordered(t, MIN_KEY, MAX_KEY) && Shaped(t) && MIN_KEY < key <= MAX_KEY
    ensures !HasKey(Before(t, key), key) && !HasKey(After(t, key), key)
  {
    TargetApart(t, MIN_KEY, MAX_KEY, key);
    assert forall i | 0 <= i < |Before(t, key)| :: Before(t, key)[i] in Before(t, key);
    assert forall i | 0 <= i < |After(t, key)| :: After(t, key)[i] in After(t, key);
  }

  /** One leaf decides about the whole tree: a rowid occurs in the tree iff it occurs in the leaf
      it is routed to. */
  lemma RoutedLeafDecides(t: Tree, key: int)
    requires Ordered(t, MIN_KEY, MAX_KEY) && Shaped(t)
    ensures HasKey(Rows(t), key) <==> HasKey(Target(t, key).cells, key)
    ensures HasKey(Rows(t), key) ==> MIN_KEY < key <= MAX_KEY
  {
    OrderedWithin(t, MIN_KEY, MAX_KEY);
    RowsSetLeaf(t, key, []);
    HasKeyConcat(Before(t, key), Target(t, key).cells, After(t, key), key);
    if HasKey(Rows(t), key) {
      KeyOutside(t, key);
    }
  }

  lemma RowsInsert(t: Tree, c: Cell)
    requires Ordered(t, MIN_KEY, MAX_KEY) && Shaped(t) && c.key <= MAX_KEY
    ensures Rows(SetLeaf(t, c.key, SortedInsert(Target(t, c.key).cells, c))) == SortedInsert(Rows(t), c)
  {
    TargetApart(t, MIN_KEY, MAX_KEY, c.key);
    RowsSetLeaf(t, c.key, SortedInsert(Target(t, c.key).cells, c));
    InsertInMiddle(Before(t, c.key), Target(t, c.key).cells, After(t, c.key), c);
  }

  lemma RowsRemove(t: Tree, key: int)
    requires Ordered(t, MIN_KEY, MAX_KEY) && Shaped(t) && MIN_KEY < key <= MAX_KEY
    ensures Rows(SetLeaf(t, key, RemoveKey(Target(t, key).cells, key))) == RemoveKey(Rows(t), key)
  {
    KeyOutside(t, key);
    RowsSetLeaf(t, key, RemoveKey(Target(t, key).cells, key));
    RemoveInMiddle(Before(t, key), Target(t, key).cells, After(t, key), key);
  }

  lemma RowsReplace(t: Tree, key: int, payload: seq<byte>)
    requires Ordered(t, MIN_KEY, MAX_KEY) && Shaped(t) && MIN_KEY < key <= MAX_KEY
    ensures Rows(SetLeaf(t, key, ReplaceKey(Target(t, key).cells, key, payload))) == ReplaceKey(Rows(t), key, payload)
  {
    KeyOutside(t, key);
    RowsSetLeaf(t, key, ReplaceKey(Target(t, key).cells, key, payload));
    ReplaceInMiddle(Before(t, key), Target(t, key).cells, After(t, key), key, payload);
  }

  // ---- ... and as a finite map -------------------------------------------------------------------

  function AsMap(cells: seq<Cell>): map<nat, seq<byte>> {
    if cells == [] then map[] else AsMap(cells[1..])[cells[0].key := cells[0].payload]
  }

  lemma {:induction false} AsMapKeys(cells: seq<Cell>, key: nat)
    ensures key in AsMap(cells) <==> HasKey(cells, key)
  {
    if cells != [] {
      AsMapKeys(cells[1..], key);
      if HasKey(cells[1..], key) {
        var i :| 0 <= i < |cells[1..]| && cells[1..][i].key == key;
        assert cells[i + 1].key == key;
      }
      if HasKey(cells, key) && cells[0].key != key {
        var i :| 0 <= i < |cells| && cells[i].key == key;
        assert cells[1..][i - 1].key == key;
      }
    }
  }

  lemma {:induction false} AsMapInsert(cells: seq<Cell>, c: Cell)
    requires !HasKey(cells, c.key)
    ensures AsMap(SortedInsert(cells, c)) == AsMap(cells)[c.key := c.payload]
  {
    if cells != [] && c.key >= cells[0].key {
      assert cells[0].key != c.key;
      assert forall i | 0 <= i < |cells[1..]| :: cells[1..][i] == cells[i + 1];
      AsMapInsert(cells[1..], c);
    } else {
      assert ([c] + cells)[1..] == cells;
    }
  }

  lemma {:induction false} AsMapRemove(cells: seq<Cell>, key: nat)
    ensures AsMap(RemoveKey(cells, key)) == AsMap(cells) - {key}
  {
    hide AsMap, RemoveKey;
    AsMapFront(cells);
    RemoveKeyFront(cells, key);
    if cells != [] {
      AsMapRemove(cells[1..], key);
      AsMapFront([cells[0]] + RemoveKey(cells[1..], key));
      assert ([cells[0]] + RemoveKey(cells[1..], key))[1..] == RemoveKey(cells[1..], key);
    }
  }

  lemma AsMapFront(cells: seq<Cell>)
    ensures AsMap(cells) == if cells == [] then map[] else AsMap(cells[1..])[cells[0].key := cells[0].payload]
  {
  }

  lemma RemoveKeyFront(cells: seq<Cell>, key: int)
    ensures RemoveKey(cells, key) ==
              if cells == [] then []
              else if cells[0].key == key then RemoveKey(cells[1..], key)
              else [cells[0]] + RemoveKey(cells[1..], key)
  {
  }

  lemma {:induction false} AsMapReplace(cells: seq<Cell>, key: nat, payload: seq<byte>)
    ensures AsMap(ReplaceKey(cells, key, payload)) == if HasKey(cells, key) then AsMap(cells)[key := payload] else AsMap(cells)
  {
    if cells != [] {
      assert ReplaceKey(cells, key, payload)[1..] == ReplaceKey(cells[1..], key, payload);
      assert forall i | 0 <= i < |cells[1..]| :: cells[1..][i] == cells[i + 1];
      AsMapReplace(cells[1..], key, payload);
      AsMapKeys(cells, key);
      AsMapKeys(cells[1..], key);
    }
  }
}
