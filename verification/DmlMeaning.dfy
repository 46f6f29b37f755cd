/** What UPDATE and DELETE do to a table. */
module DmlMeaning {
  import opened Bytes
  import opened Names
  import opened Values
  import opened Ast
  import opened Program
  import opened SortGroup
  import opened VirtualMachine
  import opened CompileExpr
  import opened CompileDml
  import opened DmlRun
  import LP = LeafPage
  import LeafList
  import Record
  import SelectMeaning

  // ---- Rows chosen -----------------------------------------------------------------------------------

  /** The condition does not read register 0, which a sweep hands from row to row. */
  predicate Steady(d: Dml) {
    d.where.Some? ==>
      if d.where.value.Binary? then !ReadsReg0(d.where.value.left) && !ReadsReg0(d.where.value.right) else !ReadsReg0(d.where.value)
  }

  /** The rows the compiled condition lets pass. */
  predicate Chosen(lib: Lib, d: Dml, cell: LP.Cell) {
    var w := WherePasses(lib, d, cell, Value.Null);
    w.Ok? && w.value.0
  }

  /** A choice among rows: the one the code makes, or the one the statement asks for. */
  type Choice = LP.Cell -> bool

  function Coded(lib: Lib, d: Dml): Choice { (cell: LP.Cell) => Chosen(lib, d, cell) }

  /** Nothing that is evaluated for the row fails. */
  predicate NoError(lib: Lib, d: Dml, cell: LP.Cell)
    requires DmlOk(d)
  {
    && WherePasses(lib, d, cell, Value.Null).Ok? && cell.key < TWO63
    && (d.change.SetColumns? ==> NewValues(lib, d, cell).Ok?)
  }

  /** No error, and the code chooses as `sel` does. */
  predicate Clean(lib: Lib, d: Dml, sel: Choice, cell: LP.Cell)
    requires DmlOk(d)
  { NoError(lib, d, cell) && Chosen(lib, d, cell) == sel(cell) }

  predicate AllClean(lib: Lib, d: Dml, sel: Choice, ls: Table)
    requires DmlOk(d)
  { forall i, j | 0 <= i < |ls| && 0 <= j < |ls[i]| :: Clean(lib, d, sel, ls[i][j]) }

  /** No key occurs twice. */
  predicate KeysDiffer(ls: Table) {
    && (forall i, x, y | 0 <= i < |ls| && 0 <= x < y < |ls[i]| :: ls[i][x].key != ls[i][y].key)
    && (forall i, k, x, y | 0 <= i < k < |ls| && 0 <= x < |ls[i]| && 0 <= y < |ls[k]| :: ls[i][x].key != ls[k][y].key)
  }

  lemma WhereSteady(lib: Lib, d: Dml, cell: LP.Cell, reg0: Value)
    requires Steady(d) && WherePasses(lib, d, cell, Value.Null).Ok?
    ensures WherePasses(lib, d, cell, reg0).Ok? && WherePasses(lib, d, cell, reg0).value.0 == Chosen(lib, d, cell)
  {
    hide ColumnIndex, RowValues, Operate, Truthy, Eval, ReadsReg0;
    if d.where.Some? {
      var e := d.where.value;
      if e.Binary? {
        Reg0Free(lib, e.left, Value.Null, reg0);
        Reg0Free(lib, e.right, Value.Null, reg0);
      } else {
        Reg0Free(lib, e, Value.Null, reg0);
      }
    }
  }

  /** A row that decodes is swept without an error if the condition does without `%`. */
  lemma ReadableNoError(lib: Lib, d: Dml, cell: LP.Cell)
    requires DmlOk(d) && SimpleChange(d) && SelectMeaning.SafeTest(d.where) && RowValues(lib, Some(cell)).Ok? && cell.key < TWO63
    ensures NoError(lib, d, cell)
  {
    hide RowValues, Eval, ColumnIndex, SelectMeaning.NoModulo;
    if d.where.Some? {
      var e := d.where.value;
      if e.Binary? {
        FieldSafe(lib, d, cell, e.left);
        SelectMeaning.EvalSafe(lib, e.right, Value.Null);
        assert WhereOpcode(e.bop) != Opcode.Remainder;
      } else {
        FieldSafe(lib, d, cell, e);
      }
    }
    if d.change.SetColumns? {
      var was := OldValues(lib, d, cell);
      AssignSafe(lib, d, cell, was.value, |d.change.assignments|);
    }
  }

  lemma FieldSafe(lib: Lib, d: Dml, cell: LP.Cell, e: Expr)
    requires RowValues(lib, Some(cell)).Ok? && SelectMeaning.NoModulo(e)
    ensures FieldValue(lib, d, cell, e, Value.Null).Ok?
  {
    hide RowValues, ColumnIndex, Eval;
    if ColumnOperand(d.columns, e).None? { SelectMeaning.EvalSafe(lib, e, Value.Null); }
  }

  lemma {:induction false} AssignSafe(lib: Lib, d: Dml, cell: LP.Cell, was: Row, k: nat)
    requires DmlOk(d) && d.change.SetColumns? && SimpleChange(d) && k <= |d.change.assignments| && |was| == |d.columns|
    requires RowValues(lib, Some(cell)).Ok?
    ensures Assigned(lib, d, cell, was, k).Ok?
    decreases k
  {
    hide RowValues, FieldValue;
    if k > 0 {
      AssignSafe(lib, d, cell, was, k - 1);
      FieldSafe(lib, d, cell, d.change.assignments[k - 1].1);
    }
  }

  // ---- UPDATE ---------------------------------------------------------------------------------------------

  /** The row with its new record, if it is chosen. */
  function NewCell(lib: Lib, d: Dml, sel: Choice, cell: LP.Cell): (r: LP.Cell)
    requires d.change.SetColumns? && DmlOk(d)
    ensures r.key == cell.key
  {
    if sel(cell) && NewValues(lib, d, cell).Ok? then cell.(payload := Record.Encode(NewValues(lib, d, cell).value)) else cell
  }

  function NewCells(lib: Lib, d: Dml, sel: Choice, cells: seq<LP.Cell>): (r: seq<LP.Cell>)
    requires d.change.SetColumns? && DmlOk(d)
    ensures |r| == |cells|
  { seq(|cells|, j requires 0 <= j < |cells| => NewCell(lib, d, sel, cells[j])) }

  /** The table with leaves before `i`, and the first `j` rows of leaf `i`, updated. */
  function Mixed(lib: Lib, d: Dml, sel: Choice, ls: Table, i: nat, j: nat): (r: Table)
    requires d.change.SetColumns? && DmlOk(d)
    ensures |r| == |ls|
    ensures forall k | 0 <= k < |ls| :: |r[k]| == |ls[k]|
  {
    seq(|ls|, k requires 0 <= k < |ls| =>
      seq(|ls[k]|, l requires 0 <= l < |ls[k]| => if k < i || (k == i && l < j) then NewCell(lib, d, sel, ls[k][l]) else ls[k][l]))
  }

  /** The table with every row that a scan sees updated. */
  function Updated(lib: Lib, d: Dml, sel: Choice, ls: Table): (r: Table)
    requires d.change.SetColumns? && DmlOk(d)
    ensures |r| == |ls|
  {
    seq(|ls|, k requires 0 <= k < |ls| => if k < |LeafList.Visible(ls)| then NewCells(lib, d, sel, ls[k]) else ls[k])
  }

  /** The chosen ones among some rows, counted. */
  function ChosenCount(sel: Choice, cells: seq<LP.Cell>): nat {
    if cells == [] then 0 else (if sel(cells[0]) then 1 else 0) + ChosenCount(sel, cells[1..])
  }

  lemma ReplacedMixed(lib: Lib, d: Dml, sel: Choice, ls: Table, i: nat, j: nat)
    requires d.change.SetColumns? && DmlOk(d) && KeysDiffer(ls) && i < |ls| && j < |ls[i]|
    requires sel(ls[i][j]) && NewValues(lib, d, ls[i][j]).Ok?
    ensures Replaced(Mixed(lib, d, sel, ls, i, j), ls[i][j].key, Record.Encode(NewValues(lib, d, ls[i][j]).value)) == Mixed(lib, d, sel, ls, i, j + 1)
  {
    hide NewValues, Record.Encode;
    var key, payload := ls[i][j].key, Record.Encode(NewValues(lib, d, ls[i][j]).value);
    var m, m' := Mixed(lib, d, sel, ls, i, j), Mixed(lib, d, sel, ls, i, j + 1);
    forall k | 0 <= k < |ls| ensures LP.ReplaceKey(m[k], key, payload) == m'[k] {
      forall l | 0 <= l < |ls[k]| ensures LP.ReplaceKey(m[k], key, payload)[l] == m'[k][l] {
        assert m[k][l].key == ls[k][l].key;
        if k == i && l == j {
          assert m[k][l] == ls[k][l];
        } else {
          assert ls[k][l].key != key;
        }
      }
    }
  }

  lemma UnchosenMixed(lib: Lib, d: Dml, sel: Choice, ls: Table, i: nat, j: nat)
    requires d.change.SetColumns? && DmlOk(d) && i < |ls| && j < |ls[i]| && !sel(ls[i][j])
    ensures Mixed(lib, d, sel, ls, i, j) == Mixed(lib, d, sel, ls, i, j + 1)
  {
    hide NewValues, Record.Encode;
    var m, m' := Mixed(lib, d, sel, ls, i, j), Mixed(lib, d, sel, ls, i, j + 1);
    forall k | 0 <= k < |ls| ensures m[k] == m'[k] {
      forall l | 0 <= l < |ls[k]| ensures m[k][l] == m'[k][l] {
      }
    }
  }

  /** One row of an UPDATE. */
  lemma UpdateOne(lib: Lib, d: Dml, sel: Choice, ls: Table, i: nat, j: nat, a: Sweep)
    requires d.change.SetColumns? && DmlOk(d) && Steady(d) && KeysDiffer(ls) && i < |ls| && j < |ls[i]| && Clean(lib, d, sel, ls[i][j])
    requires a.stop.None? && a.ls == Mixed(lib, d, sel, ls, i, j)
    ensures var a' := Act(lib, d, ls[i][j], a);
            a'.stop.None? && a'.ls == Mixed(lib, d, sel, ls, i, j + 1) && a'.changes == a.changes + if sel(ls[i][j]) then 1 else 0
  {
    hide WherePasses, NewValues, Record.Encode, Replaced, Mixed, KeysDiffer, Steady;
    WhereSteady(lib, d, ls[i][j], a.reg0);
    if sel(ls[i][j]) {
      ReplacedMixed(lib, d, sel, ls, i, j);
    } else {
      UnchosenMixed(lib, d, sel, ls, i, j);
    }
  }

  /** Tables of the same shape, with the same rows behind the cursor, have the same next row. */
  lemma SameNext(ls: Table, m: Table, cur: Cur)
    requires |m| == |ls| && (forall k | 0 <= k < |ls| :: |m[k]| == |ls[k]|)
    requires forall k, l | 0 <= k < |ls| && 0 <= l < |ls[k]| && (k > cur.leaf || (k == cur.leaf && l > cur.cell)) :: m[k][l] == ls[k][l]
    ensures LeafList.Next(m, cur).0 == LeafList.Next(ls, cur).0
    ensures LeafList.Next(m, cur).0 ==> LeafList.Next(m, cur) == LeafList.Next(ls, cur)
  {
  }

  /** Moving on does not change which rows are done. */
  lemma MixedNext(lib: Lib, d: Dml, sel: Choice, ls: Table, cur: Cur)
    requires d.change.SetColumns? && DmlOk(d) && LeafList.On(ls, cur) && LeafList.Next(ls, cur).0
    ensures var n := LeafList.Next(ls, cur).1; Mixed(lib, d, sel, ls, cur.leaf, cur.cell + 1) == Mixed(lib, d, sel, ls, n.leaf, n.cell)
  {
    hide NewCell;
    var n := LeafList.Next(ls, cur).1;
    var m, m' := Mixed(lib, d, sel, ls, cur.leaf, cur.cell + 1), Mixed(lib, d, sel, ls, n.leaf, n.cell);
    forall k | 0 <= k < |ls| ensures m[k] == m'[k] {
      forall l | 0 <= l < |ls[k]| ensures m[k][l] == m'[k][l] {
      }
    }
  }

  lemma NextVisible(ls: Table, cur: Cur)
    requires LeafList.On(ls, cur) && cur.leaf < |LeafList.Visible(ls)|
    ensures LeafList.Next(ls, cur).0 ==> LeafList.Next(ls, cur).1.leaf < |LeafList.Visible(ls)|
    ensures !LeafList.Next(ls, cur).0 ==> cur.leaf + 1 == |LeafList.Visible(ls)| && cur.cell + 1 == |ls[cur.leaf]|
  {
    var v := LeafList.Visible(ls);
    assert cur.leaf + 1 < |v| ==> v[cur.leaf + 1] == ls[cur.leaf + 1];
  }

  lemma MixedEnd(lib: Lib, d: Dml, sel: Choice, ls: Table, i: nat)
    requires d.change.SetColumns? && DmlOk(d) && i < |ls| && i + 1 == |LeafList.Visible(ls)|
    ensures Mixed(lib, d, sel, ls, i, |ls[i]|) == Updated(lib, d, sel, ls)
  {
    hide NewCell, LeafList.Visible;
    var m, u := Mixed(lib, d, sel, ls, i, |ls[i]|), Updated(lib, d, sel, ls);
    forall k | 0 <= k < |ls| ensures m[k] == u[k] {
      forall l | 0 <= l < |ls[k]| ensures m[k][l] == u[k][l] {
      }
    }
  }

  lemma MixedBehind(lib: Lib, d: Dml, sel: Choice, ls: Table, cur: Cur)
    requires d.change.SetColumns? && DmlOk(d) && LeafList.On(ls, cur)
    ensures var m := Mixed(lib, d, sel, ls, cur.leaf, cur.cell + 1);
            LeafList.Next(m, cur).0 == LeafList.Next(ls, cur).0 && (LeafList.Next(m, cur).0 ==> LeafList.Next(m, cur) == LeafList.Next(ls, cur))
  {
    hide NewCell, LeafList.Next;
    SameNext(ls, Mixed(lib, d, sel, ls, cur.leaf, cur.cell + 1), cur);
  }

  /** The sweep of an UPDATE from the row under the cursor on. */
  lemma {:induction false} UpdateFrom(lib: Lib, d: Dml, sel: Choice, ls: Table, cur: Cur, a: Sweep)
    requires d.change.SetColumns? && DmlOk(d) && Steady(d) && KeysDiffer(ls) && AllClean(lib, d, sel, ls)
    requires LeafList.On(ls, cur) && cur.leaf < |LeafList.Visible(ls)| && a.stop.None? && a.ls == Mixed(lib, d, sel, ls, cur.leaf, cur.cell)
    ensures var r := SweepFrom(lib, d, cur, a);
            r.stop.None? && r.ls == Updated(lib, d, sel, ls) && r.changes == a.changes + ChosenCount(sel, LeafList.Remaining(ls, cur))
    decreases |LeafList.Remaining(ls, cur)|
  {
    hide Act, Mixed, Updated, KeysDiffer, Clean, Steady, LeafList.Remaining, LeafList.Next, LeafList.Visible;
    var row := LeafList.Remaining(ls, cur);
    UpdateOne(lib, d, sel, ls, cur.leaf, cur.cell, a);
    var a' := Act(lib, d, ls[cur.leaf][cur.cell], a);
    MixedBehind(lib, d, sel, ls, cur);
    LeafList.NextRemaining(ls, cur);
    NextVisible(ls, cur);
    var n := LeafList.Next(ls, cur);
    if n.0 {
      MixedNext(lib, d, sel, ls, cur);
      UpdateFrom(lib, d, sel, ls, n.1, a');
    } else {
      MixedEnd(lib, d, sel, ls, cur.leaf);
      assert row[1..] == [];
    }
  }

  /** UPDATE gives every chosen row that a scan sees its new record, once, and leaves all other rows, all
      keys and their order alone. */
  lemma UpdateBy(lib: Lib, d: Dml, sel: Choice, ls: Table)
    requires d.change.SetColumns? && DmlOk(d) && Steady(d) && ls != [] && KeysDiffer(ls) && AllClean(lib, d, sel, ls)
    ensures var r := SweepAll(lib, d, ls);
            r.stop.None? && r.ls == Updated(lib, d, sel, ls) && r.changes == ChosenCount(sel, LeafList.Flat(LeafList.Visible(ls)))
  {
    hide KeysDiffer, AllClean, Steady, SweepFrom, LeafList.Remaining;
    LeafList.FirstRemaining(ls, LeafList.Start());
    var f := LeafList.First(ls, LeafList.Start());
    if f.0 {
      MixedStart(lib, d, sel, ls);
      UpdateFrom(lib, d, sel, ls, f.1, Sweep(ls, 0, Value.Null, None));
    } else {
      assert Updated(lib, d, sel, ls) == ls;
    }
  }

  lemma MixedStart(lib: Lib, d: Dml, sel: Choice, ls: Table)
    requires d.change.SetColumns? && DmlOk(d)
    ensures Mixed(lib, d, sel, ls, 0, 0) == ls
  {
    var m := Mixed(lib, d, sel, ls, 0, 0);
    forall k | 0 <= k < |ls| ensures m[k] == ls[k] {
    }
  }

  // ---- The new values --------------------------------------------------------------------------------------

  /** The last of the first `k` assignments to column `c`. */
  function LastAssignment(d: Dml, c: nat, k: nat): (r: Option<nat>)
    requires d.change.SetColumns? && k <= |d.change.assignments|
    ensures r.Some? ==> r.value < k && d.change.assignments[r.value].0 == c
    ensures forall i | 0 <= i < k && d.change.assignments[i].0 == c :: r.Some? && i <= r.value
  {
    if k == 0 then None
    else if d.change.assignments[k - 1].0 == c then Some(k - 1)
    else LastAssignment(d, c, k - 1)
  }

  /** A column that is assigned gets the value of its last right-hand side, computed from the row as it
      was; a column that is not keeps its value. */
  lemma {:induction false} AssignedColumn(lib: Lib, d: Dml, cell: LP.Cell, was: Row, k: nat, c: nat)
    requires d.change.SetColumns? && DmlOk(d) && k <= |d.change.assignments| && |was| == |d.columns| && c < |d.columns|
    requires Assigned(lib, d, cell, was, k).Ok?
    ensures var i := LastAssignment(d, c, k); var row := Assigned(lib, d, cell, was, k).value;
            if i.None? then row[c] == was[c] else Ok(row[c]) == FieldValue(lib, d, cell, d.change.assignments[i.value].1, Value.Null)
    decreases k
  {
    hide FieldValue;
    if k > 0 { AssignedColumn(lib, d, cell, was, k - 1, c); }
  }

  /** The record of an updated row decodes to its new values. */
  lemma NewCellValues(lib: Lib, d: Dml, sel: Choice, cell: LP.Cell)
    requires d.change.SetColumns? && DmlOk(d) && sel(cell) && NewValues(lib, d, cell).Ok?
    requires Record.Storable(lib, NewValues(lib, d, cell).value)
    ensures RowValues(lib, Some(NewCell(lib, d, sel, cell))) == Ok(NewValues(lib, d, cell).value)
  {
    hide Record.Encode, Record.Decode, Record.Storable, NewValues;
    var row := NewValues(lib, d, cell).value;
    Record.RoundTrip(lib, row, []);
    assert Record.Encode(row) + [] == Record.Encode(row);
  }

  // ---- DELETE -------------------------------------------------------------------------------------------------

  /** What the sweep leaves of a leaf: behind a removed row the next one slides into its place and is
      not looked at. */
  function Pass(sel: Choice, cells: seq<LP.Cell>): (r: seq<LP.Cell>)
    ensures forall c | c in r :: c in cells
  {
    if cells == [] then []
    else if !sel(cells[0]) then [cells[0]] + Pass(sel, cells[1..])
    else if |cells| == 1 then []
    else [cells[1]] + Pass(sel, cells[2..])
  }

  /** The table behind a DELETE. */
  function Swept(sel: Choice, ls: Table): (r: Table)
    ensures |r| == |ls|
  { seq(|ls|, k requires 0 <= k < |ls| => if k < |LeafList.Visible(ls)| then Pass(sel, ls[k]) else ls[k]) }

  /** Leaves before `i` swept, leaf `i` as it is now, the others untouched. */
  function Midway(sel: Choice, ls: Table, i: nat, leaf: seq<LP.Cell>): (r: Table)
    ensures |r| == |ls|
    ensures forall k | 0 <= k < |ls| :: r[k] == if k < i then Pass(sel, ls[k]) else if k == i then leaf else ls[k]
  { seq(|ls|, k requires 0 <= k < |ls| => if k < i then Pass(sel, ls[k]) else if k == i then leaf else ls[k]) }

  /** `rest` is the end of the leaf, and `done` comes from the part before it. */
  ghost predicate Splits(cells: seq<LP.Cell>, done: seq<LP.Cell>, rest: seq<LP.Cell>) {
    && |rest| <= |cells| && rest == cells[|cells| - |rest|..]
    && forall c | c in done :: c in cells[..|cells| - |rest|]
  }

  lemma SplitsStep(cells: seq<LP.Cell>, done: seq<LP.Cell>, rest: seq<LP.Cell>, keep: nat, n: nat)
    requires Splits(cells, done, rest) && keep < n <= |rest|
    ensures Splits(cells, done + [rest[keep]], rest[n..])
  {
    var k := |cells| - |rest|;
    var before, now := cells[..k], cells[..k + n];
    assert rest[n..] == cells[k + n..] && rest[keep] == now[k + keep];
    InPrefix(cells, k, k + n, done);
  }

  lemma InPrefix(cells: seq<LP.Cell>, k: nat, m: nat, done: seq<LP.Cell>)
    requires k <= m <= |cells| && forall c | c in done :: c in cells[..k]
    ensures forall c | c in done :: c in cells[..m]
  {
    assert cells[..m] == cells[..k] + cells[k..m];
  }

  /** Removing the first of the remaining rows takes out that row alone. */
  lemma RemovedMidway(sel: Choice, ls: Table, i: nat, done: seq<LP.Cell>, rest: seq<LP.Cell>)
    requires KeysDiffer(ls) && i < |ls| && Splits(ls[i], done, rest) && rest != []
    ensures Removed(Midway(sel, ls, i, done + rest), rest[0].key) == Midway(sel, ls, i, done + rest[1..])
  {
    hide Pass, KeysDiffer, Splits;
    var key, m := rest[0].key, Midway(sel, ls, i, done + rest);
    SplitKeys(ls, i, done, rest);
    forall k | 0 <= k < |ls| ensures LP.RemoveKey(m[k], key) == Midway(sel, ls, i, done + rest[1..])[k] {
      if k == i {
        FirstRemoved(done, rest);
      } else {
        KeyElsewhere(ls, i, k, rest[0], m[k]);
        LP.RemoveKeyAbsent(m[k], key);
      }
    }
  }

  lemma FirstRemoved(done: seq<LP.Cell>, rest: seq<LP.Cell>)
    requires rest != [] && !LP.HasKey(done, rest[0].key) && !LP.HasKey(rest[1..], rest[0].key)
    ensures LP.RemoveKey(done + rest, rest[0].key) == done + rest[1..]
  {
    hide LP.HasKey, LP.RemoveKey;
    LP.RemoveConcat(done, rest, rest[0].key);
    LP.RemoveKeyAbsent(done, rest[0].key);
    HeadRemoved(rest);
  }

  lemma HeadRemoved(rest: seq<LP.Cell>)
    requires rest != [] && !LP.HasKey(rest[1..], rest[0].key)
    ensures LP.RemoveKey(rest, rest[0].key) == rest[1..]
  {
    hide LP.HasKey;
    LP.RemoveKeyAbsent(rest[1..], rest[0].key);
  }

  lemma SplitKeys(ls: Table, i: nat, done: seq<LP.Cell>, rest: seq<LP.Cell>)
    requires KeysDiffer(ls) && i < |ls| && Splits(ls[i], done, rest) && rest != []
    ensures !LP.HasKey(done, rest[0].key) && !LP.HasKey(rest[1..], rest[0].key) && rest[0] in ls[i]
  {
    var k := |ls[i]| - |rest|;
    assert rest[0] == ls[i][k];
    forall x | 0 <= x < |done| ensures done[x].key != rest[0].key {
      assert done[x] in done;
      var y :| 0 <= y < k && ls[i][y] == done[x];
    }
    forall x | 0 <= x < |rest[1..]| ensures rest[1..][x].key != rest[0].key {
      assert rest[1..][x] == ls[i][k + 1 + x];
    }
  }

  lemma KeyElsewhere(ls: Table, i: nat, k: nat, c: LP.Cell, cells: seq<LP.Cell>)
    requires KeysDiffer(ls) && i < |ls| && k < |ls| && k != i && c in ls[i] && forall e | e in cells :: e in ls[k]
    ensures !LP.HasKey(cells, c.key)
  {
    var x :| 0 <= x < |ls[i]| && ls[i][x] == c;
    forall j | 0 <= j < |cells| ensures cells[j].key != c.key {
      assert cells[j] in ls[k];
      var y :| 0 <= y < |ls[k]| && ls[k][y] == cells[j];
    }
  }

  /** One row of a DELETE. */
  lemma DeleteOne(lib: Lib, d: Dml, sel: Choice, ls: Table, i: nat, done: seq<LP.Cell>, rest: seq<LP.Cell>, a: Sweep)
    requires d.change.DropRow? && DmlOk(d) && Steady(d) && KeysDiffer(ls) && i < |ls| && Splits(ls[i], done, rest) && rest != []
    requires Clean(lib, d, sel, rest[0]) && a.stop.None? && a.ls == Midway(sel, ls, i, done + rest)
    ensures var a' := Act(lib, d, rest[0], a);
            && a'.stop.None? && a'.ls == Midway(sel, ls, i, if sel(rest[0]) then done + rest[1..] else done + rest)
            && a'.changes + |LeafList.Flat(a'.ls)| == a.changes + |LeafList.Flat(a.ls)|
  {
    hide WherePasses, Midway, KeysDiffer, Steady, Splits, Removed, LeafList.Flat;
    WhereSteady(lib, d, rest[0], a.reg0);
    if sel(rest[0]) {
      RemovedMidway(sel, ls, i, done, rest);
      MidwaySize(sel, ls, i, done + rest, done + rest[1..]);
    }
  }

  lemma MidwaySize(sel: Choice, ls: Table, i: nat, x: seq<LP.Cell>, y: seq<LP.Cell>)
    requires i < |ls|
    ensures |LeafList.Flat(Midway(sel, ls, i, x))| - |x| == |LeafList.Flat(Midway(sel, ls, i, y))| - |y|
  {
    hide Pass, LeafList.Flat;
    var m := Midway(sel, ls, i, x);
    LeafList.FlatAt(m, i);
    LeafList.FlatUpdate(m, i, y);
    assert m[i := y] == Midway(sel, ls, i, y);
  }

  lemma RestClean(lib: Lib, d: Dml, sel: Choice, ls: Table, i: nat, done: seq<LP.Cell>, rest: seq<LP.Cell>)
    requires DmlOk(d) && AllClean(lib, d, sel, ls) && i < |ls| && Splits(ls[i], done, rest) && rest != []
    ensures Clean(lib, d, sel, rest[0])
  {
    hide Clean;
    var k := |ls[i]| - |rest|;
    assert rest[0] == ls[i][k];
  }

  /** The cursor stands on `rest[0]`, behind `done`, in leaf `i`. */
  predicate StandsAt(cur: Cur, i: nat, done: seq<LP.Cell>, rest: seq<LP.Cell>) {
    !cur.eof && cur.leaf == i && cur.cell == |done| && rest != [] && cur.current == Some(rest[0])
  }

  /** `next` in the middle of a sweep: the row after the place of the cursor, or else the next leaf. */
  lemma NextMidway(sel: Choice, ls: Table, i: nat, leaf: seq<LP.Cell>, cur: Cur)
    requires i < |ls| && !cur.eof && cur.leaf == i
    ensures var n := LeafList.Next(Midway(sel, ls, i, leaf), cur);
            if cur.cell + 1 < |leaf| then n == (true, LeafList.Cursor(i, cur.cell + 1, false, Some(leaf[cur.cell + 1])))
            else if i + 1 < |ls| && ls[i + 1] != [] then n == (true, LeafList.Cursor(i + 1, 0, false, Some(ls[i + 1][0])))
            else !n.0
  {
    hide Pass;
  }

  lemma MidwayNext(sel: Choice, ls: Table, i: nat, leaf: seq<LP.Cell>)
    requires i + 1 < |ls| && leaf == Pass(sel, ls[i])
    ensures Midway(sel, ls, i, leaf) == Midway(sel, ls, i + 1, ls[i + 1])
  {
    hide Pass;
  }

  lemma MidwayEnd(sel: Choice, ls: Table, i: nat, leaf: seq<LP.Cell>)
    requires i < |LeafList.Visible(ls)| && leaf == Pass(sel, ls[i])
    requires !(i + 1 < |ls| && ls[i + 1] != [])
    ensures Midway(sel, ls, i, leaf) == Swept(sel, ls)
  {
    hide Pass, LeafList.Visible;
    var v := LeafList.Visible(ls);
    assert forall k | 0 <= k < |v| :: v[k] == ls[k];
    forall k | 0 <= k < |ls| ensures Midway(sel, ls, i, leaf)[k] == Swept(sel, ls)[k] {
    }
  }

  lemma LeafVisible(ls: Table, i: nat)
    requires i < |LeafList.Visible(ls)| && i + 1 < |ls| && ls[i + 1] != []
    ensures i + 1 < |LeafList.Visible(ls)|
  {
  }

  /** The rows of the leaf still to be met when one row has been dealt with. */
  function After(sel: Choice, rest: seq<LP.Cell>): (r: seq<LP.Cell>)
    requires rest != []
    ensures |r| < |rest|
  { if sel(rest[0]) && |rest| > 1 then rest[2..] else rest[1..] }

  /** The rows of the leaf that stay before them. */
  function Stays(sel: Choice, done: seq<LP.Cell>, rest: seq<LP.Cell>): seq<LP.Cell>
    requires rest != []
  {
    if !sel(rest[0]) then done + [rest[0]] else if |rest| > 1 then done + [rest[1]] else done
  }

  lemma PassStep(sel: Choice, done: seq<LP.Cell>, rest: seq<LP.Cell>)
    requires rest != []
    ensures done + Pass(sel, rest) == Stays(sel, done, rest) + Pass(sel, After(sel, rest))
  {
    var p := Pass(sel, After(sel, rest));
    if !sel(rest[0]) {
      assert done + ([rest[0]] + p) == done + [rest[0]] + p;
    } else if |rest| > 1 {
      assert done + ([rest[1]] + p) == done + [rest[1]] + p;
    }
  }

  lemma LeafStep(sel: Choice, done: seq<LP.Cell>, rest: seq<LP.Cell>)
    requires rest != []
    ensures (if sel(rest[0]) then done + rest[1..] else done + rest) == Stays(sel, done, rest) + After(sel, rest)
  {
  }

  lemma StaysSplits(sel: Choice, cells: seq<LP.Cell>, done: seq<LP.Cell>, rest: seq<LP.Cell>)
    requires rest != [] && Splits(cells, done, rest)
    ensures After(sel, rest) != [] ==> Splits(cells, Stays(sel, done, rest), After(sel, rest))
    ensures After(sel, rest) != [] ==> |Stays(sel, done, rest)| == |done| + 1
    ensures After(sel, rest) == [] ==> |Stays(sel, done, rest)| <= |done| + 1
  {
    hide Splits;
    if After(sel, rest) != [] {
      if sel(rest[0]) { SplitsStep(cells, done, rest, 1, 2); } else { SplitsStep(cells, done, rest, 0, 1); }
    }
  }

  lemma WholeSplits(cells: seq<LP.Cell>)
    ensures Splits(cells, [], cells)
  {
    assert cells == cells[0..];
  }

  /** The sweep of a DELETE from the row under the cursor on. */
  lemma {:induction false} DeleteFrom(lib: Lib, d: Dml, sel: Choice, ls: Table, cur: Cur, done: seq<LP.Cell>, rest: seq<LP.Cell>, a: Sweep)
    requires d.change.DropRow? && DmlOk(d) && Steady(d) && KeysDiffer(ls) && AllClean(lib, d, sel, ls)
    requires cur.leaf < |LeafList.Visible(ls)| && StandsAt(cur, cur.leaf, done, rest) && Splits(ls[cur.leaf], done, rest)
    requires Pass(sel, ls[cur.leaf]) == done + Pass(sel, rest) && a.stop.None? && a.ls == Midway(sel, ls, cur.leaf, done + rest)
    ensures var r := SweepFrom(lib, d, cur, a);
            && r.stop.None? && r.ls == Swept(sel, ls) && r.changes + |LeafList.Flat(r.ls)| == a.changes + |LeafList.Flat(a.ls)|
    decreases |ls| - cur.leaf, |rest|
  {
    hide Act, KeysDiffer, AllClean, Clean, Steady, Splits, Pass, Midway, Swept, LeafList.Next, LeafList.Visible, LeafList.Flat, Stays, After;
    var i := cur.leaf;
    RestClean(lib, d, sel, ls, i, done, rest);
    DeleteOne(lib, d, sel, ls, i, done, rest, a);
    PassStep(sel, done, rest);
    LeafStep(sel, done, rest);
    StaysSplits(sel, ls[i], done, rest);
    var a' := Act(lib, d, rest[0], a);
    var done', rest' := Stays(sel, done, rest), After(sel, rest);
    NextMidway(sel, ls, i, done' + rest', cur);
    var n := LeafList.Next(a'.ls, cur);
    if rest' != [] {
      DeleteFrom(lib, d, sel, ls, n.1, done', rest', a');
    } else {
      PassNothing(sel);
      assert done' + rest' == Pass(sel, ls[i]);
      if i + 1 < |ls| && ls[i + 1] != [] {
        MidwayNext(sel, ls, i, done' + rest');
        LeafVisible(ls, i);
        WholeSplits(ls[i + 1]);
        assert [] + ls[i + 1] == ls[i + 1] && [] + Pass(sel, ls[i + 1]) == Pass(sel, ls[i + 1]);
        DeleteFrom(lib, d, sel, ls, n.1, [], ls[i + 1], a');
      } else {
        MidwayEnd(sel, ls, i, done' + rest');
      }
    }
  }

  lemma PassNothing(sel: Choice)
    ensures Pass(sel, []) == []
  {
  }

  /** DELETE leaves of every leaf that a scan sees exactly what `Pass` leaves of it. */
  lemma DeleteBy(lib: Lib, d: Dml, sel: Choice, ls: Table)
    requires d.change.DropRow? && DmlOk(d) && Steady(d) && ls != [] && KeysDiffer(ls) && AllClean(lib, d, sel, ls)
    ensures var r := SweepAll(lib, d, ls);
            r.stop.None? && r.ls == Swept(sel, ls) && r.changes == |LeafList.Flat(ls)| - |LeafList.Flat(r.ls)|
  {
    hide LeafList.Flat, KeysDiffer, AllClean, Steady, SweepFrom, Pass;
    var f := LeafList.First(ls, LeafList.Start());
    if f.0 {
      WholeSplits(ls[0]);
      assert [] + ls[0] == ls[0] && [] + Pass(sel, ls[0]) == Pass(sel, ls[0]);
      assert Midway(sel, ls, 0, ls[0]) == ls;
      DeleteFrom(lib, d, sel, ls, f.1, [], ls[0], Sweep(ls, 0, Value.Null, None));
    } else {
      assert Swept(sel, ls) == ls;
    }
  }

  /** The rows of a leaf that are not chosen. */
  function Unchosen(sel: Choice, cells: seq<LP.Cell>): seq<LP.Cell> {
    if cells == [] then [] else (if sel(cells[0]) then [] else [cells[0]]) + Unchosen(sel, cells[1..])
  }

  predicate NoNeighbours(sel: Choice, cells: seq<LP.Cell>) {
    forall j | 0 <= j < |cells| - 1 :: !(sel(cells[j]) && sel(cells[j + 1]))
  }

  /** Only chosen rows go: every other row of the leaf is still there, in order. */
  lemma {:induction false} PassKeepsOthers(sel: Choice, cells: seq<LP.Cell>)
    ensures Unchosen(sel, Pass(sel, cells)) == Unchosen(sel, cells)
    decreases |cells|
  {
    if cells != [] {
      if !sel(cells[0]) {
        PassKeepsOthers(sel, cells[1..]);
        assert ([cells[0]] + Pass(sel, cells[1..]))[1..] == Pass(sel, cells[1..]);
      } else if |cells| > 1 {
        PassKeepsOthers(sel, cells[2..]);
        assert ([cells[1]] + Pass(sel, cells[2..]))[1..] == Pass(sel, cells[2..]);
        assert cells[1..][1..] == cells[2..];
      }
    }
  }

  lemma NoNeighboursStep(sel: Choice, cells: seq<LP.Cell>)
    requires cells != []
    ensures NoNeighbours(sel, cells) <==> NoNeighbours(sel, cells[1..]) && (|cells| > 1 ==> !(sel(cells[0]) && sel(cells[1])))
  {
    if NoNeighbours(sel, cells[1..]) && (|cells| > 1 ==> !(sel(cells[0]) && sel(cells[1]))) {
      forall j | 0 <= j < |cells| - 1 ensures !(sel(cells[j]) && sel(cells[j + 1])) {
        if j > 0 { assert cells[1..][j - 1] == cells[j] && cells[1..][j] == cells[j + 1]; }
      }
    }
    if NoNeighbours(sel, cells) {
      forall j | 0 <= j < |cells[1..]| - 1 ensures !(sel(cells[1..][j]) && sel(cells[1..][j + 1])) {
        assert cells[1..][j] == cells[j + 1] && cells[1..][j + 1] == cells[j + 2];
      }
    }
  }

  lemma {:induction false} UnchosenIsAll(sel: Choice, cells: seq<LP.Cell>)
    ensures |Unchosen(sel, cells)| <= |cells|
    ensures Unchosen(sel, cells) == cells <==> forall c | c in cells :: !sel(c)
  {
    if cells != [] {
      UnchosenIsAll(sel, cells[1..]);
      assert cells == [cells[0]] + cells[1..];
      if sel(cells[0]) {
        assert |Unchosen(sel, cells)| < |cells|;
      }
    }
  }

  /** All chosen rows go exactly when no two neighbours in the leaf are both chosen. */
  lemma {:induction false} PassCompleteIff(sel: Choice, cells: seq<LP.Cell>)
    ensures Pass(sel, cells) == Unchosen(sel, cells) <==> NoNeighbours(sel, cells)
    decreases |cells|
  {
    hide NoNeighbours;
    if cells == [] {
      NoneNeighbours(sel);
    } else {
      NoNeighboursStep(sel, cells);
      if !sel(cells[0]) {
        PassCompleteIff(sel, cells[1..]);
        ConsEqual(cells[0], Pass(sel, cells[1..]), Unchosen(sel, cells[1..]));
      } else if |cells| == 1 {
        NoneNeighbours(sel);
      } else {
        assert cells[1..][1..] == cells[2..];
        NoNeighboursStep(sel, cells[1..]);
        PassCompleteIff(sel, cells[2..]);
        if sel(cells[1]) {
          PassMissed(sel, cells);
        } else {
          ConsEqual(cells[1], Pass(sel, cells[2..]), Unchosen(sel, cells[2..]));
        }
      }
    }
  }

  lemma NoneNeighbours(sel: Choice)
    ensures NoNeighbours(sel, [])
  {
  }

  lemma ConsEqual(c: LP.Cell, a: seq<LP.Cell>, b: seq<LP.Cell>)
    ensures [c] + a == [c] + b <==> a == b
  {
    if [c] + a == [c] + b { assert a == ([c] + a)[1..] && b == ([c] + b)[1..]; }
  }

  /** The row that slides into the place of a removed one stays, chosen or not. */
  lemma PassMissed(sel: Choice, cells: seq<LP.Cell>)
    requires |cells| > 1 && sel(cells[0]) && sel(cells[1])
    ensures Pass(sel, cells) != Unchosen(sel, cells)
  {
    PassKeepsOthers(sel, cells);
    UnchosenIsAll(sel, Pass(sel, cells));
    assert cells[1] in Pass(sel, cells);
  }

  // ---- What the statement asks for ---------------------------------------------------------------------------------

  function ColumnValue(lib: Lib, cell: LP.Cell, c: nat): Result<Value> {
    var values :- RowValues(lib, Some(cell));
    Ok(Reg(values, c))
  }

  /** The value of an expression on the row, columns of the table allowed anywhere in it. */
  function RowValue(lib: Lib, d: Dml, cell: LP.Cell, e: Expr): Result<Value> {
    match e
    case Ident(name) =>
      var c := ColumnIndex(d.columns, name);
      if c.None? then Err(Other) else ColumnValue(lib, cell, c.value)
    case QualifiedIdent(table, column) =>
      var c := ColumnIndex(d.columns, column);
      if c.None? || !SameName(table, d.table) then Err(Other) else ColumnValue(lib, cell, c.value)
    case Binary(op, left, right) =>
      var a :- RowValue(lib, d, cell, left);
      var b :- RowValue(lib, d, cell, right);
      SqlBinary(lib, op, a, b)
    case Unary(op, expr) =>
      var a :- RowValue(lib, d, cell, expr);
      SqlUnary(lib, op, a)
    case _ => Meaning(lib, e)
  }

  /** The rows for which WHERE is true; null is not. */
  predicate Matches(lib: Lib, d: Dml, cell: LP.Cell) {
    d.where.Some? ==> var v := RowValue(lib, d, cell, d.where.value); v.Ok? && Truthy(lib, v.value)
  }

  function Asked(lib: Lib, d: Dml): Choice { (cell: LP.Cell) => Matches(lib, d, cell) }

  /** A column on its own, or a plain expression. */
  predicate FaithfulField(d: Dml, e: Expr) { ColumnOperand(d.columns, e).Some? || Plain(e) }

  /** The operators that the compiler of conditions has. */
  predicate WhereOp(op: BinaryOp) { op in {BinaryOp.Eq, BinaryOp.NotEq, BinaryOp.Lt, BinaryOp.Gt, BinaryOp.Is} }

  /** A column or plain expression, or a test of one against a plain expression on the right. */
  predicate FaithfulWhere(d: Dml) {
    d.where.Some? ==>
      var e := d.where.value;
      if e.Binary? then WhereOp(e.bop) && FaithfulField(d, e.left) && Plain(e.right) else FaithfulField(d, e)
  }

  /** The operands of the test are not such that a null misleads the machine. */
  predicate RowSafe(lib: Lib, d: Dml, cell: LP.Cell) {
    d.where.Some? && d.where.value.Binary? ==>
      var e := d.where.value;
      var a, b := RowValue(lib, d, cell, e.left), RowValue(lib, d, cell, e.right);
      a.Ok? && b.Ok? ==> !NullTrap(lib, e.bop, a.value, b.value)
  }

  lemma {:induction false} PlainRow(lib: Lib, d: Dml, cell: LP.Cell, e: Expr)
    requires Plain(e)
    ensures RowValue(lib, d, cell, e) == Meaning(lib, e) && !ReadsReg0(e)
  {
    hide SqlBinary, SqlUnary;
    match e
    case Binary(_, left, right) => PlainRow(lib, d, cell, left); PlainRow(lib, d, cell, right);
    case Unary(_, expr) => PlainRow(lib, d, cell, expr);
    case _ =>
  }

  lemma FieldMeans(lib: Lib, d: Dml, cell: LP.Cell, e: Expr, reg0: Value)
    requires FaithfulField(d, e)
    ensures FieldValue(lib, d, cell, e, reg0) == RowValue(lib, d, cell, e) && !ReadsReg0(e)
  {
    hide RowValues, Eval, Meaning, ColumnIndex, Plain;
    if ColumnOperand(d.columns, e).None? {
      PlainRow(lib, d, cell, e);
      PlainEval(lib, e, reg0);
    }
  }

  /** On a row without error the compiled condition chooses as WHERE does exactly if no null misleads it. */
  lemma ChosenExact(lib: Lib, d: Dml, cell: LP.Cell)
    requires FaithfulWhere(d) && WherePasses(lib, d, cell, Value.Null).Ok?
    ensures Chosen(lib, d, cell) == Matches(lib, d, cell) <==> RowSafe(lib, d, cell)
    ensures Steady(d)
  {
    hide FieldValue, FaithfulField, Eval, Operate, SqlBinary, Truthy, NullTrap, ReadsReg0, Plain;
    if d.where.Some? {
      var e := d.where.value;
      if e.Binary? {
        FieldMeans(lib, d, cell, e.left, Value.Null);
        PlainRow(lib, d, cell, e.right);
        PlainEval(lib, e.right, Value.Null);
        WhereOpcodes(e.bop);
        var a, b := RowValue(lib, d, cell, e.left), RowValue(lib, d, cell, e.right);
        if a.Ok? && b.Ok? { TestExact(lib, e.bop, a.value, b.value); }
      } else {
        FieldMeans(lib, d, cell, e, Value.Null);
      }
    }
  }

  lemma WhereOpcodes(op: BinaryOp)
    requires WhereOp(op)
    ensures TestOp(op) && WhereOpcode(op) == BinaryOpcode(op)
  {
  }

  /** Every row can be evaluated, and no null misleads the condition. */
  predicate AllSound(lib: Lib, d: Dml, ls: Table)
    requires DmlOk(d)
  { forall i, j | 0 <= i < |ls| && 0 <= j < |ls[i]| :: NoError(lib, d, ls[i][j]) && RowSafe(lib, d, ls[i][j]) }

  lemma AskedIsCoded(lib: Lib, d: Dml, ls: Table)
    requires DmlOk(d) && FaithfulWhere(d) && AllSound(lib, d, ls)
    ensures AllClean(lib, d, Asked(lib, d), ls)
  {
    hide FaithfulWhere, RowSafe, Matches, Chosen, NewValues, WherePasses;
    forall i, j | 0 <= i < |ls| && 0 <= j < |ls[i]| ensures Clean(lib, d, Asked(lib, d), ls[i][j]) {
      ChosenExact(lib, d, ls[i][j]);
    }
  }

  lemma FaithfulSteady(lib: Lib, d: Dml, cell: LP.Cell)
    requires FaithfulWhere(d)
    ensures Steady(d)
  {
    hide Plain, ReadsReg0, FaithfulField, RowValue, FieldValue;
    if d.where.Some? {
      var e := d.where.value;
      if e.Binary? {
        FieldMeans(lib, d, cell, e.left, Value.Null);
        PlainRow(lib, d, cell, e.right);
      } else {
        FieldMeans(lib, d, cell, e, Value.Null);
      }
    }
  }

  /** UPDATE gives every row for which WHERE is true, of those that a scan sees, its new record, once, and
      leaves all other rows, all rowids and their order alone. */
  lemma UpdateExact(lib: Lib, d: Dml, ls: Table)
    requires d.change.SetColumns? && DmlOk(d) && ls != [] && KeysDiffer(ls) && FaithfulWhere(d) && AllSound(lib, d, ls)
    ensures var r, m := SweepAll(lib, d, ls), Asked(lib, d);
            && r.stop.None? && r.ls == Updated(lib, d, m, ls) && r.changes == ChosenCount(m, LeafList.Flat(LeafList.Visible(ls)))
  {
    hide FaithfulWhere, AllSound, AllClean, KeysDiffer, Asked, SweepAll, Updated, Steady;
    FaithfulSteady(lib, d, LP.Cell(0, []));
    AskedIsCoded(lib, d, ls);
    UpdateBy(lib, d, Asked(lib, d), ls);
  }

  /** The record of an updated row decodes to the row as it was, with each assigned column set to the
      value of its last right-hand side on the old row. */
  lemma UpdatedValues(lib: Lib, d: Dml, cell: LP.Cell, c: nat)
    requires d.change.SetColumns? && DmlOk(d) && c < |d.columns| && Matches(lib, d, cell)
    requires forall i | 0 <= i < |d.change.assignments| :: FaithfulField(d, d.change.assignments[i].1)
    requires NewValues(lib, d, cell).Ok? && Record.Storable(lib, NewValues(lib, d, cell).value)
    ensures var now := RowValues(lib, Some(NewCell(lib, d, Asked(lib, d), cell)));
            var i := LastAssignment(d, c, |d.change.assignments|);
            && now.Ok? && |now.value| == |d.columns|
            && Ok(now.value[c]) == if i.None? then ColumnValue(lib, cell, c) else RowValue(lib, d, cell, d.change.assignments[i.value].1)
  {
    hide Matches, RowValues, RowValue, FieldValue, FaithfulField, Assigned, Record.Storable, Record.Encode, LastAssignment;
    var n := |d.change.assignments|;
    var i := LastAssignment(d, c, n);
    NewCellValues(lib, d, Asked(lib, d), cell);
    AssignedColumn(lib, d, cell, OldValues(lib, d, cell).value, n, c);
    if i.Some? { FieldMeans(lib, d, cell, d.change.assignments[i.value].1, Value.Null); }
  }

  /** DELETE keeps every row for which WHERE is not true, and removes from a leaf all rows for which it is
      exactly if no two neighbours there are both to go. Leaves behind an empty one are left alone. */
  lemma DeleteExact(lib: Lib, d: Dml, ls: Table)
    requires d.change.DropRow? && DmlOk(d) && ls != [] && KeysDiffer(ls) && FaithfulWhere(d) && AllSound(lib, d, ls)
    ensures var r, m, n := SweepAll(lib, d, ls), Asked(lib, d), |LeafList.Visible(ls)|;
            && r.stop.None? && |r.ls| == |ls| && r.changes == |LeafList.Flat(ls)| - |LeafList.Flat(r.ls)|
            && (forall k | 0 <= k < n ::
                  && r.ls[k] == Pass(m, ls[k]) && Unchosen(m, r.ls[k]) == Unchosen(m, ls[k])
                  && (r.ls[k] == Unchosen(m, ls[k]) <==> NoNeighbours(m, ls[k])))
            && (forall k | n <= k < |ls| :: r.ls[k] == ls[k])
  {
    hide FaithfulWhere, AllSound, AllClean, KeysDiffer, Asked, SweepAll, Steady, Pass, Unchosen, NoNeighbours, LeafList.Visible, LeafList.Flat;
    FaithfulSteady(lib, d, LP.Cell(0, []));
    AskedIsCoded(lib, d, ls);
    var m := Asked(lib, d);
    DeleteBy(lib, d, m, ls);
    forall k | 0 <= k < |LeafList.Visible(ls)|
      ensures Unchosen(m, Pass(m, ls[k])) == Unchosen(m, ls[k]) && (Pass(m, ls[k]) == Unchosen(m, ls[k]) <==> NoNeighbours(m, ls[k]))
    {
      PassKeepsOthers(m, ls[k]);
      PassCompleteIff(m, ls[k]);
    }
  }

  // ---- Conditions that choose something else ----------------------------------------------------------------------------

  /** AND, OR and all other operators without a test of their own are compiled to Eq: two tests of columns
      against integers joined by one of them are both false in the code, hence equal, and every row is
      chosen. The code is right exactly if every row is asked for. */
  lemma JoinedTests(lib: Lib, d: Dml, cells: seq<LP.Cell>, op: BinaryOp, x: string, n: i64, y: string, m: i64)
    requires d.where == Some(Binary(op, SelectMeaning.ColumnIs(x, n), SelectMeaning.ColumnIs(y, m))) && WhereOpcode(op) == Opcode.Eq
    ensures forall c | c in cells :: Chosen(lib, d, c)
    ensures (forall c | c in cells :: Chosen(lib, d, c) == Matches(lib, d, c)) <==> forall c | c in cells :: Matches(lib, d, c)
  {
    hide Eval, Matches;
    SelectMeaning.ColumnTestFalse(lib, x, n, Value.Null);
    SelectMeaning.ColumnTestFalse(lib, y, m, Value.Null);
    assert Truthy(lib, Bool(true));
  }

  /** A column on the right of the operator is compiled to null, which is unequal to every literal: `n <> y`
      chooses every row, rightly exactly if every row has another value there. */
  lemma RightColumn(lib: Lib, d: Dml, cells: seq<LP.Cell>, n: i64, y: string)
    requires d.where == Some(Binary(BinaryOp.NotEq, IntLit(n), Ident(y)))
    ensures forall c | c in cells :: Chosen(lib, d, c)
    ensures (forall c | c in cells :: Chosen(lib, d, c) == Matches(lib, d, c)) <==>
              forall c | c in cells :: var v := RowValue(lib, d, c, Ident(y)); v.Ok? && !v.value.Null? && Compare(lib, Value.Integer(n), v.value) != Equal
  {
    hide Chosen, Matches, RowValue, Compare;
    forall c ensures Chosen(lib, d, c) { RightColumnNull(lib, d, c, n, y); }
    forall c ensures Matches(lib, d, c) <==> var v := RowValue(lib, d, c, Ident(y)); v.Ok? && !v.value.Null? && Compare(lib, Value.Integer(n), v.value) != Equal {
      RightColumnAsked(lib, d, c, n, y);
    }
  }

  lemma RightColumnAsked(lib: Lib, d: Dml, cell: LP.Cell, n: i64, y: string)
    requires d.where == Some(Binary(BinaryOp.NotEq, IntLit(n), Ident(y)))
    ensures var v := RowValue(lib, d, cell, Ident(y));
            Matches(lib, d, cell) <==> v.Ok? && !v.value.Null? && Compare(lib, Value.Integer(n), v.value) != Equal
  {
    hide Compare, ColumnIndex, ColumnValue, Truthy;
    TruthOfBool(lib);
    assert RowValue(lib, d, cell, IntLit(n)) == Ok(Value.Integer(n));
  }

  lemma RightColumnNull(lib: Lib, d: Dml, cell: LP.Cell, n: i64, y: string)
    requires d.where == Some(Binary(BinaryOp.NotEq, IntLit(n), Ident(y)))
    ensures Chosen(lib, d, cell)
  {
    hide ToI32;
    assert Eval(lib, Ident(y), Value.Null) == Ok(Value.Null);
    assert FieldValue(lib, d, cell, IntLit(n), Value.Null) == Ok(Value.Integer(ToI32(n)));
  }

  /** A column named with its table is compiled to null as well: `t.y = n` chooses no row, rightly exactly
      if no row has that value there. */
  lemma QualifiedColumn(lib: Lib, d: Dml, cells: seq<LP.Cell>, t: string, y: string, n: i64)
    requires d.where == Some(Binary(BinaryOp.Eq, QualifiedIdent(t, y), IntLit(n)))
    ensures forall c | c in cells :: !Chosen(lib, d, c)
    ensures (forall c | c in cells :: Chosen(lib, d, c) == Matches(lib, d, c)) <==>
              forall c | c in cells :: var v := RowValue(lib, d, c, QualifiedIdent(t, y)); !(v.Ok? && !v.value.Null? && Compare(lib, v.value, Value.Integer(n)) == Equal)
  {
    hide Chosen, Matches, RowValue, Compare;
    forall c ensures !Chosen(lib, d, c) { QualifiedNull(lib, d, c, t, y, n); }
    forall c ensures Matches(lib, d, c) <==> var v := RowValue(lib, d, c, QualifiedIdent(t, y)); v.Ok? && !v.value.Null? && Compare(lib, v.value, Value.Integer(n)) == Equal {
      QualifiedAsked(lib, d, c, t, y, n);
    }
  }

  lemma QualifiedAsked(lib: Lib, d: Dml, cell: LP.Cell, t: string, y: string, n: i64)
    requires d.where == Some(Binary(BinaryOp.Eq, QualifiedIdent(t, y), IntLit(n)))
    ensures var v := RowValue(lib, d, cell, QualifiedIdent(t, y));
            Matches(lib, d, cell) <==> v.Ok? && !v.value.Null? && Compare(lib, v.value, Value.Integer(n)) == Equal
  {
    hide Compare, ColumnIndex, ColumnValue, Truthy;
    TruthOfBool(lib);
    assert RowValue(lib, d, cell, IntLit(n)) == Ok(Value.Integer(n));
  }

  lemma QualifiedNull(lib: Lib, d: Dml, cell: LP.Cell, t: string, y: string, n: i64)
    requires d.where == Some(Binary(BinaryOp.Eq, QualifiedIdent(t, y), IntLit(n)))
    ensures !Chosen(lib, d, cell)
  {
    hide ToI32;
    assert FieldValue(lib, d, cell, QualifiedIdent(t, y), Value.Null) == Ok(Value.Null);
    assert Eval(lib, IntLit(n), Value.Null) == Ok(Value.Integer(ToI32(n)));
  }

  /** `SET c = t.y` stores null, rightly exactly if the row has null in y. */
  lemma QualifiedAssigned(lib: Lib, d: Dml, cell: LP.Cell, c: nat, i: nat, t: string, y: string)
    requires d.change.SetColumns? && DmlOk(d) && c < |d.columns| && Matches(lib, d, cell)
    requires LastAssignment(d, c, |d.change.assignments|) == Some(i) && d.change.assignments[i].1 == QualifiedIdent(t, y)
    requires NewValues(lib, d, cell).Ok? && Record.Storable(lib, NewValues(lib, d, cell).value)
    ensures var now := RowValues(lib, Some(NewCell(lib, d, Asked(lib, d), cell)));
            && now.Ok? && |now.value| == |d.columns| && now.value[c] == Value.Null
            && (Ok(now.value[c]) == RowValue(lib, d, cell, QualifiedIdent(t, y)) <==>
                  ColumnIndex(d.columns, y).Some? && SameName(t, d.table) && ColumnValue(lib, cell, ColumnIndex(d.columns, y).value) == Ok(Value.Null))
  {
    hide Matches, RowValues, ColumnValue, Assigned, Record.Storable, Record.Encode, LastAssignment, ColumnIndex;
    NewCellValues(lib, d, Asked(lib, d), cell);
    AssignedColumn(lib, d, cell, OldValues(lib, d, cell).value, |d.change.assignments|, c);
    assert FieldValue(lib, d, cell, QualifiedIdent(t, y), Value.Null) == Ok(Value.Null);
  }

  /** A row removed that was not asked for: (5, 5) by `DELETE FROM t WHERE a = 1 AND b = 2`. */
  lemma WrongRowRemoved(lib: Lib)
    ensures var d := Dml("t", ["a", "b"], Some(Binary(BinaryOp.And, SelectMeaning.ColumnIs("a", 1), SelectMeaning.ColumnIs("b", 2))), DropRow);
            var cell := LP.Cell(1, Record.Encode([Value.Integer(5), Value.Integer(5)]));
            !Matches(lib, d, cell) && SweepAll(lib, d, [[cell]]).ls == [[]]
  {
    hide Record.Encode, Record.Decode, SweepAll, Matches, Chosen, LeafList.Flat, NoError, WherePasses, ColumnIndex;
    var d := Dml("t", ["a", "b"], Some(Binary(BinaryOp.And, SelectMeaning.ColumnIs("a", 1), SelectMeaning.ColumnIs("b", 2))), DropRow);
    var cell := LP.Cell(1, Record.Encode([Value.Integer(5), Value.Integer(5)]));
    JoinedTests(lib, d, [cell], BinaryOp.And, "a", 1, "b", 2);
    WrongRowUnasked(lib, d, cell);
    var ls: Table := [[cell]];
    assert NoError(lib, d, cell) by { JoinedNoError(lib, d, cell); }
    DeleteBy(lib, d, Coded(lib, d), ls);
    assert LeafList.Visible(ls) == ls by { assert ls[1..] == []; }
  }

  lemma JoinedNoError(lib: Lib, d: Dml, cell: LP.Cell)
    requires d.change.DropRow? && Chosen(lib, d, cell) && cell.key < TWO63
    ensures NoError(lib, d, cell)
  {
    hide WherePasses;
  }

  lemma WrongRowUnasked(lib: Lib, d: Dml, cell: LP.Cell)
    requires d.columns == ["a", "b"] && d.where == Some(Binary(BinaryOp.And, SelectMeaning.ColumnIs("a", 1), SelectMeaning.ColumnIs("b", 2)))
    requires cell.payload == Record.Encode([Value.Integer(5), Value.Integer(5)])
    ensures !Matches(lib, d, cell)
  {
    hide Record.Encode, Record.Decode, Matches, ColumnIndex;
    var row := [Value.Integer(5), Value.Integer(5)];
    SelectMeaning.SmallStorable(lib, 5, 5);
    Record.RoundTrip(lib, row, []);
    assert Record.Encode(row) + [] == Record.Encode(row);
    SelectMeaning.TwoColumns();
    assert ColumnValue(lib, cell, 0) == Ok(Value.Integer(5));
    OtherRow(lib, d, cell);
  }

  lemma OtherRow(lib: Lib, d: Dml, cell: LP.Cell)
    requires d.where == Some(Binary(BinaryOp.And, SelectMeaning.ColumnIs("a", 1), SelectMeaning.ColumnIs("b", 2)))
    requires ColumnIndex(d.columns, "a") == Some(0) && ColumnValue(lib, cell, 0) == Ok(Value.Integer(5))
    ensures !Matches(lib, d, cell)
  {
    hide ColumnIndex, ColumnValue, Truthy;
    TruthOfBool(lib);
    assert RowValue(lib, d, cell, Ident("a")) == Ok(Value.Integer(5));
    assert RowValue(lib, d, cell, IntLit(1)) == Ok(Value.Integer(1));
    assert RowValue(lib, d, cell, SelectMeaning.ColumnIs("a", 1)) == Ok(Bool(false));
  }
}
