/** A table seen through its cursor: the rows of its leaves, left to right. The cursor of
    storage/btree.rs walks this list, and the virtual machine works on it. */
module LeafList {
  import opened Bytes

  // ---- All rows ----------------------------------------------------------------

  function Flat<T>(ls: seq<seq<T>>): seq<T> {
    if ls == [] then [] else ls[0] + Flat(ls[1..])
  }

  lemma {:induction false} FlatConcat<T>(a: seq<seq<T>>, b: seq<seq<T>>)
    ensures Flat(a + b) == Flat(a) + Flat(b)
  {
    hide Flat;
    FlatFront(a);
    FlatFront(a + b);
    if a == [] {
      assert a + b == b;
    } else {
      FlatConcat(a[1..], b);
      assert (a + b)[0] == a[0] && (a + b)[1..] == a[1..] + b;
    }
  }

  lemma FlatFront<T>(ls: seq<seq<T>>)
    ensures Flat(ls) == if ls == [] then [] else ls[0] + Flat(ls[1..])
  {
  }

  lemma {:induction false} FlatAt<T>(ls: seq<seq<T>>, i: nat)
    requires i < |ls|
    ensures Flat(ls) == Flat(ls[..i]) + ls[i] + Flat(ls[i + 1..])
  {
    if i > 0 {
      FlatAt(ls[1..], i - 1);
      assert ls[..i][1..] == ls[1..][..i - 1];
      assert ls[1..][i..] == ls[i + 1..];
    }
  }

  lemma FlatUpdate<T>(ls: seq<seq<T>>, i: nat, x: seq<T>)
    requires i < |ls|
    ensures Flat(ls[i := x]) == Flat(ls[..i]) + x + Flat(ls[i + 1..])
  {
    FlatAt(ls[i := x], i);
    assert ls[i := x][..i] == ls[..i] && ls[i := x][i + 1..] == ls[i + 1..];
  }

  // ---- The cursor ------------------------------------------------------------------

  /** Leaf number, cell index in it, end-of-table flag and the row last read. */
  datatype Cursor<T> = Cursor(leaf: nat, cell: nat, eof: bool, current: Option<T>)

  function Start<T>(): Cursor<T> { Cursor(0, 0, false, None) }

  /** `read_current`: the row under the cursor, or the row read before. */
  function Read<T>(ls: seq<seq<T>>, c: Cursor<T>): (r: (bool, Cursor<T>))
  {
    if c.leaf < |ls| && c.cell < |ls[c.leaf]| then (true, c.(current := Some(ls[c.leaf][c.cell])))
    else (false, c)
  }

  /** `first`. */
  function First<T>(ls: seq<seq<T>>, c: Cursor<T>): (bool, Cursor<T>) {
    Read(ls, Cursor(0, 0, false, c.current))
  }

  /** `next`: the following cell, or else the first cell of the following leaf. An empty following
      leaf answers false without setting the flag. */
  function Next<T>(ls: seq<seq<T>>, c: Cursor<T>): (bool, Cursor<T>) {
    if c.eof then (false, c)
    else
      var s := Read(ls, c.(cell := c.cell + 1));
      if s.0 then s
      else if c.leaf + 1 < |ls| then Read(ls, Cursor(c.leaf + 1, 0, false, c.current))
      else (false, Cursor(c.leaf, c.cell + 1, true, None))
  }

  /** The cursor stands on a row and has read it. */
  ghost predicate On<T(!new)>(ls: seq<seq<T>>, c: Cursor<T>) {
    !c.eof && c.leaf < |ls| && c.cell < |ls[c.leaf]| && c.current == Some(ls[c.leaf][c.cell])
  }

  /** The leaves a scan gets to see: those before the first empty one. */
  function Visible<T>(ls: seq<seq<T>>): (r: seq<seq<T>>)
    ensures |r| <= |ls| && r == ls[..|r|]
    ensures forall i | 0 <= i < |r| :: r[i] != []
    ensures |r| < |ls| ==> ls[|r|] == []
  {
    if ls == [] || ls[0] == [] then []
    else
      var rest := Visible(ls[1..]);
      assert ls[..|rest| + 1] == [ls[0]] + ls[1..][..|rest|];
      [ls[0]] + rest
  }

  /** The rows not yet visited by a cursor that stands on a row, its own row first. */
  ghost function Remaining<T(!new)>(ls: seq<seq<T>>, c: Cursor<T>): (r: seq<T>)
    requires On(ls, c)
    ensures r != [] && r[0] == c.current.value
  {
    ls[c.leaf][c.cell..] + Flat(Visible(ls[c.leaf + 1..]))
  }

  lemma FirstRemaining<T(!new)>(ls: seq<seq<T>>, c: Cursor<T>)
    requires ls != []
    ensures First(ls, c).0 <==> Flat(Visible(ls)) != []
    ensures First(ls, c).0 ==> On(ls, First(ls, c).1) && Remaining(ls, First(ls, c).1) == Flat(Visible(ls))
  {
    if ls[0] != [] {
      assert ls[0][0..] == ls[0];
      assert Flat(Visible(ls)) == ls[0] + Flat(Visible(ls[1..])) by {
        assert Visible(ls)[1..] == Visible(ls[1..]);
      }
    }
  }

  lemma NextRemaining<T(!new)>(ls: seq<seq<T>>, c: Cursor<T>)
    requires On(ls, c)
    ensures Next(ls, c).0 <==> |Remaining(ls, c)| > 1
    ensures Next(ls, c).0 ==> On(ls, Next(ls, c).1) && Remaining(ls, Next(ls, c).1) == Remaining(ls, c)[1..]
  {
    var row := ls[c.leaf];
    assert row[c.cell..][1..] == row[c.cell + 1..];
    if c.cell + 1 == |row| && c.leaf + 1 < |ls| {
      var rest := ls[c.leaf + 1..];
      FirstRemaining(rest, c);
      assert Remaining(ls, c)[1..] == Flat(Visible(rest));
      if rest[0] != [] {
        assert ls[c.leaf + 2..] == rest[1..];
        assert Visible(rest)[1..] == Visible(rest[1..]);
      }
    } else if c.cell + 1 == |row| {
      assert ls[c.leaf + 1..] == [];
    }
  }

  /** All rows that `first` and then `next` until it answers false yield. */
  ghost function Rest<T(!new)>(ls: seq<seq<T>>, c: Cursor<T>): seq<T>
    requires On(ls, c)
    decreases |Remaining(ls, c)|
  {
    NextRemaining(ls, c);
    [c.current.value] + if Next(ls, c).0 then Rest(ls, Next(ls, c).1) else []
  }

  ghost function Scan<T(!new)>(ls: seq<seq<T>>): seq<T> {
    var s := First(ls, Start());
    if ls != [] && s.0 then Rest(ls, s.1) else []
  }

  lemma {:induction false} RestIsRemaining<T(!new)>(ls: seq<seq<T>>, c: Cursor<T>)
    requires On(ls, c)
    ensures Rest(ls, c) == Remaining(ls, c)
    decreases |Remaining(ls, c)|
  {
    NextRemaining(ls, c);
    if Next(ls, c).0 {
      RestIsRemaining(ls, Next(ls, c).1);
    }
  }

  /** A scan yields each row before the first empty leaf exactly once, in order. */
  lemma ScanIsVisible<T(!new)>(ls: seq<seq<T>>)
    requires ls != []
    ensures Scan(ls) == Flat(Visible(ls))
  {
    FirstRemaining(ls, Start());
    if First(ls, Start<T>()).0 {
      RestIsRemaining(ls, First(ls, Start()).1);
    }
  }

  /** The rows a scan sees, and those behind the first empty leaf. */
  lemma FlatVisible<T>(ls: seq<seq<T>>)
    ensures Flat(ls) == Flat(Visible(ls)) + Flat(ls[|Visible(ls)|..])
  {
    hide Flat;
    var k := |Visible(ls)|;
    FlatConcat(ls[..k], ls[k..]);
    assert ls[..k] + ls[k..] == ls;
  }

  // ---- After the last row ---------------------------------------------------------------------

  /** The cursor after `n` more calls of `next`. */
  function Moved<T>(ls: seq<seq<T>>, c: Cursor<T>, n: nat): Cursor<T> {
    if n == 0 then c else Next(ls, Moved(ls, c, n - 1)).1
  }

  /** Past the end of the table `next` answers false and changes nothing. */
  lemma EndStays<T>(ls: seq<seq<T>>, c: Cursor<T>)
    requires c.eof
    ensures Next(ls, c) == (false, c)
  {
  }

  /** Where `n` calls lead from a leaf that is used up, while the leaves they pass are empty. */
  lemma {:induction false} AfterEmpty<T>(ls: seq<seq<T>>, c: Cursor<T>, n: nat)
    requires !c.eof && c.leaf < |ls| && c.cell + 1 >= |ls[c.leaf]|
    requires forall j | c.leaf < j <= c.leaf + n && j < |ls| :: ls[j] == []
    ensures var d := Moved(ls, c, n);
            if c.leaf + n < |ls| then !d.eof && d.leaf == c.leaf + n && d.cell + 1 >= |ls[d.leaf]| else d.eof
  {
    if n > 0 { AfterEmpty(ls, c, n - 1); }
  }

  /** Once `next` has answered false it always will, exactly if no row stands in a later leaf: with a later
      row it comes back. */
  lemma FalseForever<T(!new)>(ls: seq<seq<T>>, c: Cursor<T>)
    requires On(ls, c) && !Next(ls, c).0
    ensures (forall n: nat :: !Next(ls, Moved(ls, c, n)).0) <==> forall j | c.leaf < j < |ls| :: ls[j] == []
  {
    hide *;
    if forall j | c.leaf < j < |ls| :: ls[j] == [] {
      forall n: nat ensures !Next(ls, Moved(ls, c, n)).0 { StaysFalse(ls, c, n); }
    } else {
      var n := ComesBack(ls, c);
    }
  }

  lemma StaysFalse<T(!new)>(ls: seq<seq<T>>, c: Cursor<T>, n: nat)
    requires On(ls, c) && !Next(ls, c).0 && forall j | c.leaf < j < |ls| :: ls[j] == []
    ensures !Next(ls, Moved(ls, c, n)).0
  {
    hide Next, Moved;
    LastOfLeaf(ls, c);
    AfterEmpty(ls, c, n);
    NextFromUsed(ls, Moved(ls, c, n));
  }

  lemma ComesBack<T(!new)>(ls: seq<seq<T>>, c: Cursor<T>) returns (n: nat)
    requires On(ls, c) && !Next(ls, c).0 && exists j :: c.leaf < j < |ls| && ls[j] != []
    ensures Next(ls, Moved(ls, c, n)).0
  {
    hide Next, Moved;
    LastOfLeaf(ls, c);
    var j :| c.leaf < j < |ls| && ls[j] != [];
    var k := FirstFull(ls, c.leaf + 1);
    n := k - 1 - c.leaf;
    AfterEmpty(ls, c, n);
    NextFromUsed(ls, Moved(ls, c, n));
  }

  lemma LastOfLeaf<T(!new)>(ls: seq<seq<T>>, c: Cursor<T>)
    requires On(ls, c) && !Next(ls, c).0
    ensures c.cell + 1 >= |ls[c.leaf]|
  {
  }

  lemma NextFromUsed<T>(ls: seq<seq<T>>, c: Cursor<T>)
    requires c.eof || (c.leaf < |ls| && c.cell + 1 >= |ls[c.leaf]|)
    ensures Next(ls, c).0 <==> !c.eof && c.leaf + 1 < |ls| && ls[c.leaf + 1] != []
  {
  }

  lemma FirstFull<T(!new)>(ls: seq<seq<T>>, i: nat) returns (j: nat)
    requires exists k :: i <= k < |ls| && ls[k] != []
    ensures i <= j < |ls| && ls[j] != [] && forall k | i <= k < j :: ls[k] == []
    decreases |ls| - i
  {
    if i < |ls| && ls[i] != [] { j := i; } else { j := FirstFull(ls, i + 1); }
  }

  ghost predicate EmptyTail<T(!new)>(ls: seq<seq<T>>) {
    forall i, j | 0 <= i < j < |ls| && ls[i] == [] :: ls[j] == []
  }

  /** A scan is the whole table exactly when no row stands behind an empty leaf. */
  lemma ScanComplete<T(!new)>(ls: seq<seq<T>>)
    requires ls != []
    ensures Scan(ls) == Flat(ls) <==> EmptyTail(ls)
  {
    hide Flat, Visible, Scan, EmptyTail;
    ScanIsVisible(ls);
    var k := |Visible(ls)|;
    FlatVisible(ls);
    FlatEmpty(ls[k..]);
    EmptyTailIs(ls, k);
  }

  lemma EmptyTailIs<T(!new)>(ls: seq<seq<T>>, k: nat)
    requires k == |Visible(ls)|
    ensures EmptyTail(ls) <==> forall j | 0 <= j < |ls| - k :: ls[k..][j] == []
  {
    assert forall q | 0 <= q < k :: ls[q] == Visible(ls)[q] != [];
    assert forall j | 0 <= j < |ls| - k :: ls[k..][j] == ls[k + j];
    if forall j | 0 <= j < |ls| - k :: ls[k..][j] == [] {
      forall i, j | 0 <= i < j < |ls| && ls[i] == [] ensures ls[j] == [] {
        assert ls[k..][j - k] == [];
      }
    }
  }

  lemma {:induction false} FlatEmpty<T>(ls: seq<seq<T>>)
    ensures Flat(ls) == [] <==> forall j | 0 <= j < |ls| :: ls[j] == []
  {
    if ls != [] {
      FlatEmpty(ls[1..]);
      assert forall j | 0 <= j < |ls[1..]| :: ls[1..][j] == ls[j + 1];
      assert forall j | 0 < j < |ls| :: ls[j] == ls[1..][j - 1];
    }
  }
}
