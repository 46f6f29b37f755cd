/** What the code of an UPDATE or DELETE does when the machine runs it. */
module DmlRun {
  import opened Bytes
  import opened Names
  import opened Values
  import opened Ast
  import opened Program
  import opened SortGroup
  import opened VirtualMachine
  import opened CompileExpr
  import opened CompileDml
  import LP = LeafPage
  import LeafList
  import Record

  // ---- One row -------------------------------------------------------------------------------------

  function FieldValue(lib: Lib, d: Dml, cell: LP.Cell, e: Expr, reg0: Value): Result<Value> {
    var c := ColumnOperand(d.columns, e);
    if c.Some? then
      var values :- RowValues(lib, Some(cell));
      Ok(Reg(values, c.value))
    else Eval(lib, e, reg0)
  }

  /** The value of the condition; columns count only on the left of its operator. */
  function ConditionValue(lib: Lib, d: Dml, cell: LP.Cell, e: Expr, reg0: Value): Result<Value> {
    if e.Binary? then
      var a :- FieldValue(lib, d, cell, e.left, reg0);
      var b :- Eval(lib, e.right, reg0);
      Operate(lib, WhereOpcode(e.bop), a, b)
    else FieldValue(lib, d, cell, e, reg0)
  }

  /** Whether the row passes, and what is in register 0 then. */
  function WherePasses(lib: Lib, d: Dml, cell: LP.Cell, reg0: Value): Result<(bool, Value)> {
    if d.where.None? then Ok((true, reg0))
    else
      var v :- ConditionValue(lib, d, cell, d.where.value, reg0);
      Ok((Truthy(lib, v), v))
  }

  /** A right-hand side that takes one instruction. */
  predicate SimpleValue(e: Expr) { !e.Binary? && !e.Unary? }

  predicate SimpleChange(d: Dml) {
    d.change.SetColumns? ==> forall i | 0 <= i < |d.change.assignments| :: SimpleValue(d.change.assignments[i].1)
  }

  /** The old values with the first `k` assignments carried out; right-hand sides see the old values. */
  function Assigned(lib: Lib, d: Dml, cell: LP.Cell, was: Row, k: nat): (r: Result<Row>)
    requires d.change.SetColumns? && DmlOk(d) && k <= |d.change.assignments| && |was| == |d.columns|
    ensures r.Ok? ==> |r.value| == |d.columns|
  {
    if k == 0 then Ok(was)
    else
      var row :- Assigned(lib, d, cell, was, k - 1);
      var v :- FieldValue(lib, d, cell, d.change.assignments[k - 1].1, Value.Null);
      Ok(row[d.change.assignments[k - 1].0 := v])
  }

  /** The values of all columns of the table, null where the record is too short. */
  function OldValues(lib: Lib, d: Dml, cell: LP.Cell): (r: Result<Row>)
    ensures r.Ok? ==> |r.value| == |d.columns|
  {
    if d.columns == [] then Ok([])
    else
      var values :- RowValues(lib, Some(cell));
      Ok(Regs(values, 0, |d.columns|))
  }

  function NewValues(lib: Lib, d: Dml, cell: LP.Cell): (r: Result<Row>)
    requires d.change.SetColumns? && DmlOk(d)
    ensures r.Ok? ==> |r.value| == |d.columns|
  {
    var was :- OldValues(lib, d, cell);
    Assigned(lib, d, cell, was, |d.change.assignments|)
  }

  /** The table so far, the rows changed, register 0, and the error that ended the sweep early. */
  datatype Sweep = Sweep(ls: Table, changes: nat, reg0: Value, stop: Option<Error>)

  function ChangeRow(lib: Lib, d: Dml, cell: LP.Cell, a: Sweep): Sweep
    requires DmlOk(d)
  {
    match d.change
    case DropRow => a.(ls := Removed(a.ls, cell.key), changes := a.changes + 1)
    case SetColumns(_) =>
      var row := NewValues(lib, d, cell);
      if row.Err? then a.(stop := Some(row.error))
      else if cell.key >= TWO63 then a.(stop := Some(Other))
      else a.(ls := Replaced(a.ls, cell.key, Record.Encode(row.value)), changes := a.changes + 1)
  }

  function Act(lib: Lib, d: Dml, cell: LP.Cell, a: Sweep): (r: Sweep)
    requires DmlOk(d)
    ensures |r.ls| == |a.ls|
    ensures forall i | 0 <= i < |a.ls| :: |r.ls[i]| <= |a.ls[i]|
  {
    RemoveShrinks(a.ls, cell.key);
    var w := WherePasses(lib, d, cell, a.reg0);
    if w.Err? then a.(stop := Some(w.error))
    else if !w.value.0 then a.(reg0 := w.value.1)
    else ChangeRow(lib, d, cell, a.(reg0 := w.value.1))
  }

  lemma RemoveShrinks(ls: Table, key: int)
    ensures forall i | 0 <= i < |ls| :: |Removed(ls, key)[i]| <= |ls[i]|
  {
    forall i | 0 <= i < |ls| ensures |LP.RemoveKey(ls[i], key)| <= |ls[i]| { RemoveShrinksOne(ls[i], key); }
  }

  lemma {:induction false} RemoveShrinksOne(cells: seq<LP.Cell>, key: int)
    ensures |LP.RemoveKey(cells, key)| <= |cells|
  {
    if cells != [] { RemoveShrinksOne(cells[1..], key); }
  }

  /** The position in the table of a cursor that has just been moved there. */
  predicate Inside(ls: Table, cur: Cur) { !cur.eof && cur.leaf < |ls| && cur.cell < |ls[cur.leaf]| }

  /** From the row under the cursor on: act on it, then move to the next, in the table as it is then. */
  function SweepFrom(lib: Lib, d: Dml, cur: Cur, a: Sweep): Sweep
    requires DmlOk(d) && Inside(a.ls, cur) && cur.current.Some?
    decreases |a.ls| - cur.leaf, |a.ls[cur.leaf]| - cur.cell
  {
    var a' := Act(lib, d, cur.current.value, a);
    if a'.stop.Some? then a'
    else
      var n := LeafList.Next(a'.ls, cur);
      if n.0 then SweepFrom(lib, d, n.1, a') else a'
  }

  function SweepAll(lib: Lib, d: Dml, ls: Table): Sweep
    requires DmlOk(d)
  {
    var f := LeafList.First(ls, LeafList.Start());
    if f.0 then SweepFrom(lib, d, f.1, Sweep(ls, 0, Value.Null, None)) else Sweep(ls, 0, Value.Null, None)
  }

  // ---- One row on the machine -------------------------------------------------------------------------

  predicate OnCell(cursors: map<int, CursorState>, cell: LP.Cell) { 0 in cursors && cursors[0].cur.current == Some(cell) }

  /** A stretch of code that sets one register. */
  ghost predicate Sets(lib: Lib, code: seq<Insn>, reg: nat, want: Result<Value>, regs: seq<Value>, cursors: map<int, CursorState>) {
    && Straight(code)
    && RunCalc(lib, code, regs, cursors) == match want { case Ok(v) => Ok(SetReg(regs, reg, v)) case Err(e) => Err(e) }
  }

  lemma FieldComputes(lib: Lib, d: Dml, cell: LP.Cell, e: Expr, reg: nat, regs: seq<Value>, cursors: map<int, CursorState>)
    requires OnCell(cursors, cell)
    ensures Computes(lib, FieldCode(d.columns, e, reg), reg, FieldValue(lib, d, cell, e, Reg(regs, 0)), regs, cursors)
  {
    hide ExprCode, Eval, RunCalc, RowValues, ColumnOperand, Calc, SetReg;
    var c := ColumnOperand(d.columns, e);
    if c.Some? {
      ColumnCalc(lib, cell, c.value, reg, regs, cursors);
      OneInsn(lib, Op(Opcode.Column, reg, 0, c.value), regs, cursors);
    } else {
      ExprComputes(lib, e, reg, regs, cursors);
    }
  }

  /** A simple right-hand side touches no register but its own, and does not look at register 0. */
  lemma SimpleSets(lib: Lib, d: Dml, cell: LP.Cell, e: Expr, reg: nat, regs: seq<Value>, cursors: map<int, CursorState>)
    requires OnCell(cursors, cell) && SimpleValue(e)
    ensures Sets(lib, FieldCode(d.columns, e, reg), reg, FieldValue(lib, d, cell, e, Value.Null), regs, cursors)
  {
    hide RunCalc, Calc, ExprCode, Eval, SetReg, RowValues, ColumnOperand;
    var c := ColumnOperand(d.columns, e);
    if c.Some? {
      ColumnCalc(lib, cell, c.value, reg, regs, cursors);
      OneInsn(lib, Op(Opcode.Column, reg, 0, c.value), regs, cursors);
    } else {
      LiteralCalc(lib, e, reg, Value.Null, regs, cursors);
      OneInsn(lib, ExprCode(e, reg)[0], regs, cursors);
    }
  }

  lemma ColumnCalc(lib: Lib, cell: LP.Cell, c: nat, reg: nat, regs: seq<Value>, cursors: map<int, CursorState>)
    requires OnCell(cursors, cell)
    ensures Calc(lib, Op(Opcode.Column, reg, 0, c), regs, cursors) ==
              match RowValues(lib, Some(cell)) { case Ok(values) => Ok(SetReg(regs, reg, Reg(values, c))) case Err(e) => Err(e) }
  {
    hide RowValues, SetReg, Operate;
  }

  lemma ConditionComputes(lib: Lib, d: Dml, cell: LP.Cell, e: Expr, regs: seq<Value>, cursors: map<int, CursorState>)
    requires OnCell(cursors, cell)
    ensures Computes(lib, ConditionCode(d.columns, e), 0, ConditionValue(lib, d, cell, e, Reg(regs, 0)), regs, cursors)
  {
    hide FieldCode, FieldValue, ExprCode, Eval, RunCalc, Operate, OnCell;
    if e.Binary? {
      var left, right := FieldCode(d.columns, e.left, 1), ExprCode(e.right, 2);
      FieldComputes(lib, d, cell, e.left, 1, regs, cursors);
      CodeStraight(e.right, 2);
      var r := RunCalc(lib, left, regs, cursors);
      if r.Ok? { ExprComputes(lib, e.right, 2, r.value, cursors); }
      BinaryComputes(lib, left, right, WhereOpcode(e.bop), 0, FieldValue(lib, d, cell, e.left, Reg(regs, 0)), Eval(lib, e.right, Reg(regs, 0)), regs, cursors);
    } else {
      FieldComputes(lib, d, cell, e, 0, regs, cursors);
    }
  }

  /** The condition: to `next` if it fails, on if it holds. */
  lemma WhereRuns(lib: Lib, prog: seq<Insn>, d: Dml, cell: LP.Cell, next: nat, s: State) returns (t: State)
    requires OnCell(s.cursors, cell) && s.status == Running && Placed(prog, s.pc, WhereCode(d, next))
    ensures Reaches(lib, prog, s, t)
    ensures match WherePasses(lib, d, cell, Reg(s.regs, 0))
            case Err(e) => SameStop(t, s, e)
            case Ok((pass, v)) => t == s.(regs := t.regs, pc := if pass then s.pc + |WhereCode(d, next)| else next) && Reg(t.regs, 0) == v
  {
    hide ConditionCode, ConditionValue, RunCalc, Reaches, Placed, Truthy, OnCell, Calc, ExecMove, ExecChange, ExecBuffer;
    if d.where.None? {
      t := s;
      ReachSelf(lib, prog, s);
    } else {
      var code := ConditionCode(d.columns, d.where.value);
      PlacedConcat(prog, s.pc, code, [Op(Opcode.IfNot, 0, next, 0)]);
      ConditionComputes(lib, d, cell, d.where.value, s.regs, s.cursors);
      t := CalcRuns(lib, prog, s, code);
      if t.status == Running {
        var u := t;
        PlacedStep(prog, u.pc, [Op(Opcode.IfNot, 0, next, 0)]);
        t := Step(lib, prog, u);
        ReachStep(lib, prog, u);
        ReachThen(lib, prog, s, u, t);
      }
    }
  }

  // ---- The new record -----------------------------------------------------------------------------------

  /** Registers 2, 3, .. hold `row`, and register 0 is as it was. */
  ghost predicate HoldsRow(r: seq<Value>, regs: seq<Value>, row: Row) {
    Reg(r, 0) == Reg(regs, 0) && forall j | 0 <= j < |row| :: Reg(r, j + 2) == row[j]
  }

  /** The first `n` columns fetched. */
  ghost predicate Fetched(lib: Lib, cell: LP.Cell, n: nat, regs: seq<Value>, cursors: map<int, CursorState>) {
    && Straight(FetchCode(n))
    && var r := RunCalc(lib, FetchCode(n), regs, cursors);
       match RowValues(lib, Some(cell))
       case Err(e) => n > 0 ==> r == Err(e)
       case Ok(values) => r.Ok? && HoldsRow(r.value, regs, Regs(values, 0, n))
  }

  lemma {:induction false} FetchRuns(lib: Lib, cell: LP.Cell, n: nat, regs: seq<Value>, cursors: map<int, CursorState>)
    requires OnCell(cursors, cell)
    ensures Fetched(lib, cell, n, regs, cursors)
  {
    hide Fetched;
    if n > 0 {
      FetchRuns(lib, cell, n - 1, regs, cursors);
      FetchOneMore(lib, cell, n, regs, cursors);
    } else {
      NothingFetched(lib, cell, regs, cursors);
    }
  }

  lemma NothingFetched(lib: Lib, cell: LP.Cell, regs: seq<Value>, cursors: map<int, CursorState>)
    ensures Fetched(lib, cell, 0, regs, cursors)
  {
  }

  lemma FetchOneMore(lib: Lib, cell: LP.Cell, n: nat, regs: seq<Value>, cursors: map<int, CursorState>)
    requires n > 0 && OnCell(cursors, cell) && Fetched(lib, cell, n - 1, regs, cursors)
    ensures Fetched(lib, cell, n, regs, cursors)
  {
    hide RowValues, RunCalc, HoldsRow, SetReg, Regs;
    var insn := Op(Opcode.Column, n + 1, 0, n - 1);
    var r := RunCalc(lib, FetchCode(n - 1), regs, cursors);
    assert Straight([insn]);
    RunCalcConcat(lib, FetchCode(n - 1), [insn], regs, cursors);
    FirstFetched(lib, n, regs, cursors);
    if r.Ok? {
      OneInsn(lib, insn, r.value, cursors);
      if RowValues(lib, Some(cell)).Ok? { OneFetched(regs, r.value, RowValues(lib, Some(cell)).value, n); }
    }
  }

  lemma FirstFetched(lib: Lib, n: nat, regs: seq<Value>, cursors: map<int, CursorState>)
    ensures n == 1 ==> RunCalc(lib, FetchCode(n - 1), regs, cursors) == Ok(regs)
  {
  }

  lemma OneFetched(regs: seq<Value>, r: seq<Value>, values: Row, n: nat)
    requires n > 0 && HoldsRow(r, regs, Regs(values, 0, n - 1))
    ensures HoldsRow(SetReg(r, n + 1, Reg(values, n - 1)), regs, Regs(values, 0, n))
  {
    var row, r' := Regs(values, 0, n), SetReg(r, n + 1, Reg(values, n - 1));
    hide SetReg;
    forall j | 0 <= j < n ensures Reg(r', j + 2) == row[j] {
      if j < n - 1 { assert Regs(values, 0, n - 1)[j] == row[j]; }
    }
  }

  /** The first `k` assignments carried out on the registers. */
  ghost predicate AssignedTo(lib: Lib, d: Dml, cell: LP.Cell, was: Row, k: nat, regs: seq<Value>, cursors: map<int, CursorState>)
    requires DmlOk(d) && d.change.SetColumns? && k <= |d.change.assignments| && |was| == |d.columns|
  {
    && Straight(AssignCode(d, k))
    && var r := RunCalc(lib, AssignCode(d, k), regs, cursors);
       match Assigned(lib, d, cell, was, k)
       case Err(e) => r == Err(e)
       case Ok(row) => r.Ok? && HoldsRow(r.value, regs, row)
  }

  lemma {:induction false} AssignRuns(lib: Lib, d: Dml, cell: LP.Cell, was: Row, k: nat, regs: seq<Value>, cursors: map<int, CursorState>)
    requires OnCell(cursors, cell) && DmlOk(d) && d.change.SetColumns? && SimpleChange(d) && k <= |d.change.assignments| && |was| == |d.columns|
    requires HoldsRow(regs, regs, was)
    ensures AssignedTo(lib, d, cell, was, k, regs, cursors)
    decreases k
  {
    hide AssignedTo, HoldsRow, OnCell, SimpleChange;
    if k > 0 {
      AssignRuns(lib, d, cell, was, k - 1, regs, cursors);
      AssignOneMore(lib, d, cell, was, k, regs, cursors);
    } else {
      NothingAssigned(lib, d, cell, was, regs, cursors);
    }
  }

  lemma NothingAssigned(lib: Lib, d: Dml, cell: LP.Cell, was: Row, regs: seq<Value>, cursors: map<int, CursorState>)
    requires DmlOk(d) && d.change.SetColumns? && |was| == |d.columns| && HoldsRow(regs, regs, was)
    ensures AssignedTo(lib, d, cell, was, 0, regs, cursors)
  {
  }

  lemma AssignOneMore(lib: Lib, d: Dml, cell: LP.Cell, was: Row, k: nat, regs: seq<Value>, cursors: map<int, CursorState>)
    requires OnCell(cursors, cell) && DmlOk(d) && d.change.SetColumns? && SimpleChange(d) && 0 < k <= |d.change.assignments| && |was| == |d.columns|
    requires AssignedTo(lib, d, cell, was, k - 1, regs, cursors)
    ensures AssignedTo(lib, d, cell, was, k, regs, cursors)
  {
    hide FieldCode, FieldValue, OnCell, RunCalc, SetReg, HoldsRow;
    var (c, e) := d.change.assignments[k - 1];
    var code := FieldCode(d.columns, e, c + 2);
    var r := RunCalc(lib, AssignCode(d, k - 1), regs, cursors);
    SimpleSets(lib, d, cell, e, c + 2, regs, cursors);
    RunCalcConcat(lib, AssignCode(d, k - 1), code, regs, cursors);
    if r.Ok? {
      SimpleSets(lib, d, cell, e, c + 2, r.value, cursors);
      var v := FieldValue(lib, d, cell, e, Value.Null);
      if v.Ok? { OneAssigned(r.value, regs, Assigned(lib, d, cell, was, k - 1).value, c, v.value); }
    }
  }

  lemma OneAssigned(r: seq<Value>, regs: seq<Value>, row: Row, c: nat, v: Value)
    requires HoldsRow(r, regs, row) && c < |row|
    ensures HoldsRow(SetReg(r, c + 2, v), regs, row[c := v])
  {
    hide SetReg;
  }

  /** The rowid and the new record stand in the registers that the store reads. */
  predicate Built(r: seq<Value>, regs: seq<Value>, cell: LP.Cell, row: Row) {
    && Reg(r, 0) == Reg(regs, 0) && Reg(r, 10) == Value.Blob(Record.Encode(row))
    && cell.key < TWO63 && Reg(r, 1) == Value.Integer(cell.key)
  }

  /** Rowid and record, ready to be stored. */
  lemma RecordRuns(lib: Lib, d: Dml, cell: LP.Cell, row: Row, regs: seq<Value>, cursors: map<int, CursorState>)
    requires OnCell(cursors, cell) && HoldsRow(regs, regs, row) && |row| == |d.columns|
    ensures Straight(RecordCode(d))
    ensures var r := RunCalc(lib, RecordCode(d), regs, cursors);
            if cell.key >= TWO63 then r == Err(Other) else r.Ok? && Built(r.value, regs, cell, row)
  {
    hide RunCalc, Record.Encode, Calc, SetReg;
    var a, b := Op(Opcode.Rowid, 1, 0, 0), Op(Opcode.MakeRecord, |d.columns|, 2, 10);
    assert RecordCode(d) == [a] + [b];
    StoreCalc(lib, d, cell, regs, cursors);
    OneInsn(lib, a, regs, cursors);
    assert Straight([b]);
    RunCalcConcat(lib, [a], [b], regs, cursors);
    if cell.key < TWO63 {
      var r := SetReg(regs, 1, Value.Integer(cell.key));
      StoreCalc(lib, d, cell, r, cursors);
      OneInsn(lib, b, r, cursors);
      assert Regs(r, 2, |d.columns|) == row;
    }
  }

  lemma StoreCalc(lib: Lib, d: Dml, cell: LP.Cell, regs: seq<Value>, cursors: map<int, CursorState>)
    requires OnCell(cursors, cell)
    ensures Calc(lib, Op(Opcode.Rowid, 1, 0, 0), regs, cursors) ==
              if cell.key < TWO63 then Ok(SetReg(regs, 1, Value.Integer(cell.key))) else Err(Other)
    ensures Calc(lib, Op(Opcode.MakeRecord, |d.columns|, 2, 10), regs, cursors) ==
              Ok(SetReg(regs, 10, Value.Blob(Record.Encode(Regs(regs, 2, |d.columns|)))))
  {
    hide SetReg, Operate, Record.Encode, Regs;
  }

  function BuildCode(d: Dml): seq<Insn>
    requires d.change.SetColumns?
  { FetchCode(|d.columns|) + AssignCode(d, |d.change.assignments|) + RecordCode(d) }

  /** All the code up to the store. */
  lemma BuildRuns(lib: Lib, d: Dml, cell: LP.Cell, regs: seq<Value>, cursors: map<int, CursorState>)
    requires OnCell(cursors, cell) && DmlOk(d) && d.change.SetColumns? && SimpleChange(d)
    ensures Straight(BuildCode(d))
    ensures var r := RunCalc(lib, BuildCode(d), regs, cursors);
            match NewValues(lib, d, cell)
            case Err(e) => r == Err(e)
            case Ok(row) =>
              if cell.key >= TWO63 then r == Err(Other) else r.Ok? && Built(r.value, regs, cell, row)
  {
    hide FetchCode, AssignCode, RecordCode, RunCalc, Assigned, RowValues, Record.Encode, OnCell, SimpleChange, Reg;
    var n, k := |d.columns|, |d.change.assignments|;
    var f, g := FetchCode(n), AssignCode(d, k);
    FetchRuns(lib, cell, n, regs, cursors);
    AssignStraight(d, k);
    var was := OldValues(lib, d, cell);
    var r := RunCalc(lib, f, regs, cursors);
    RecordStraight(d);
    RunCalcConcat(lib, f, g, regs, cursors);
    RunCalcConcat(lib, f + g, RecordCode(d), regs, cursors);
    if was.Ok? {
      FetchedRow(lib, d, cell, regs, cursors);
      AssignRuns(lib, d, cell, was.value, k, r.value, cursors);
      var r' := RunCalc(lib, g, r.value, cursors);
      if r'.Ok? { RecordRuns(lib, d, cell, Assigned(lib, d, cell, was.value, k).value, r'.value, cursors); }
    }
  }

  lemma FetchedRow(lib: Lib, d: Dml, cell: LP.Cell, regs: seq<Value>, cursors: map<int, CursorState>)
    requires OnCell(cursors, cell) && OldValues(lib, d, cell).Ok?
    ensures Straight(FetchCode(|d.columns|))
    ensures var r := RunCalc(lib, FetchCode(|d.columns|), regs, cursors);
            r.Ok? && HoldsRow(r.value, regs, OldValues(lib, d, cell).value) && HoldsRow(r.value, r.value, OldValues(lib, d, cell).value)
  {
    hide RowValues, OnCell;
    FetchRuns(lib, cell, |d.columns|, regs, cursors);
  }

  lemma RecordStraight(d: Dml)
    ensures Straight(RecordCode(d))
  {
  }

  lemma {:induction false} AssignStraight(d: Dml, k: nat)
    requires d.change.SetColumns? && k <= |d.change.assignments|
    ensures Straight(AssignCode(d, k))
  {
    hide ColumnIndex, ExprCode;
    if k > 0 {
      AssignStraight(d, k - 1);
      CodeStraight(d.change.assignments[k - 1].1, d.change.assignments[k - 1].0 + 2);
    }
  }

  // ---- The sweep on the machine -----------------------------------------------------------------------------

  /** What goes with a sweep: the name of its table and all tables before it. */
  datatype Site = Site(name: string, tables: map<string, Table>)

  /** The state has got as far as `a`; the other tables, the buffer and the output are untouched. */
  predicate Reflects(site: Site, s: State, a: Sweep) {
    && s.tables == site.tables[site.name := a.ls] && s.changes == a.changes && s.out == [] && s.buffer == []
    && s.status == (if a.stop.Some? then Failed(a.stop.value) else Running)
    && (a.stop.None? ==> Reg(s.regs, 0) == a.reg0)
  }

  predicate SweepCursor(site: Site, s: State) { 0 in s.cursors && s.cursors[0].table == site.name }

  lemma DeleteRuns(lib: Lib, prog: seq<Insn>, site: Site, cell: LP.Cell, s: State, a: Sweep) returns (t: State)
    requires Reflects(site, s, a) && a.stop.None? && SweepCursor(site, s) && OnCell(s.cursors, cell)
    requires Placed(prog, s.pc, [Op(Opcode.Delete, 0, 0, 0)])
    ensures Reaches(lib, prog, s, t) && t.cursors == s.cursors && t.pc == s.pc + 1
    ensures Reflects(site, t, a.(ls := Removed(a.ls, cell.key), changes := a.changes + 1))
  {
    hide Reaches, Placed, Removed, Calc, ExecControl, ExecBuffer, ExecMove;
    PlacedStep(prog, s.pc, [Op(Opcode.Delete, 0, 0, 0)]);
    t := Step(lib, prog, s);
    ReachStep(lib, prog, s);
  }

  lemma StoreRuns(lib: Lib, prog: seq<Insn>, site: Site, cell: LP.Cell, row: Row, s: State, a: Sweep) returns (t: State)
    requires Reflects(site, s, a) && a.stop.None? && SweepCursor(site, s) && cell.key < TWO63
    requires Reg(s.regs, 1) == Value.Integer(cell.key) && Reg(s.regs, 10) == Value.Blob(Record.Encode(row))
    requires Placed(prog, s.pc, [Op(Opcode.Insert, 10, 0, 1).(p5 := 1)])
    ensures Reaches(lib, prog, s, t) && t.cursors == s.cursors && t.pc == s.pc + 1
    ensures Reflects(site, t, a.(ls := Replaced(a.ls, cell.key, Record.Encode(row)), changes := a.changes + 1))
  {
    hide Reaches, Placed, Replaced, Record.Encode, Calc, ExecControl, ExecBuffer, ExecMove;
    PlacedStep(prog, s.pc, [Op(Opcode.Insert, 10, 0, 1).(p5 := 1)]);
    t := Step(lib, prog, s);
    ReachStep(lib, prog, s);
  }

  /** The change of one row. */
  lemma ChangeRuns(lib: Lib, prog: seq<Insn>, d: Dml, site: Site, cell: LP.Cell, s: State, a: Sweep) returns (t: State)
    requires DmlOk(d) && SimpleChange(d) && Reflects(site, s, a) && a.stop.None? && SweepCursor(site, s) && OnCell(s.cursors, cell)
    requires Placed(prog, s.pc, ChangeCode(d))
    ensures Reaches(lib, prog, s, t) && Reflects(site, t, ChangeRow(lib, d, cell, a))
    ensures t.status == Running ==> t.cursors == s.cursors && t.pc == s.pc + |ChangeCode(d)|
  {
    hide Reaches, Placed, BuildCode, NewValues, Removed, Replaced, SimpleChange, OnCell, Reflects;
    if d.change.DropRow? {
      t := DeleteRuns(lib, prog, site, cell, s, a);
      StopsWith(site, t, ChangeRow(lib, d, cell, a));
    } else {
      ChangeIsBuild(d);
      t := UpdateRuns(lib, prog, d, site, cell, s, a);
    }
  }

  lemma UpdateRuns(lib: Lib, prog: seq<Insn>, d: Dml, site: Site, cell: LP.Cell, s: State, a: Sweep) returns (t: State)
    requires DmlOk(d) && d.change.SetColumns? && SimpleChange(d)
    requires Reflects(site, s, a) && a.stop.None? && SweepCursor(site, s) && OnCell(s.cursors, cell)
    requires Placed(prog, s.pc, BuildCode(d) + [Op(Opcode.Insert, 10, 0, 1).(p5 := 1)])
    ensures Reaches(lib, prog, s, t) && Reflects(site, t, ChangeRow(lib, d, cell, a))
    ensures t.status == Running ==> t.cursors == s.cursors && t.pc == s.pc + |BuildCode(d)| + 1
  {
    hide Reaches, Placed, BuildCode, NewValues, Replaced, Record.Encode, RunCalc, SimpleChange, OnCell;
    PlacedConcat(prog, s.pc, BuildCode(d), [Op(Opcode.Insert, 10, 0, 1).(p5 := 1)]);
    BuildRuns(lib, d, cell, s.regs, s.cursors);
    var u := CalcRuns(lib, prog, s, BuildCode(d));
    t := u;
    if u.status == Running {
      t := StoreRuns(lib, prog, site, cell, NewValues(lib, d, cell).value, u, a);
      ReachThen(lib, prog, s, u, t);
    }
  }

  lemma ChangeIsBuild(d: Dml)
    requires d.change.SetColumns?
    ensures ChangeCode(d) == BuildCode(d) + [Op(Opcode.Insert, 10, 0, 1).(p5 := 1)]
  {
  }

  /** The code for one row does what `Act` says, and ends at `next`. */
  lemma ActRuns(lib: Lib, prog: seq<Insn>, d: Dml, site: Site, cell: LP.Cell, next: nat, s: State, a: Sweep) returns (t: State)
    requires DmlOk(d) && SimpleChange(d) && Reflects(site, s, a) && a.stop.None? && SweepCursor(site, s) && OnCell(s.cursors, cell)
    requires Placed(prog, s.pc, WhereCode(d, next) + ChangeCode(d)) && next == s.pc + |WhereCode(d, next)| + |ChangeCode(d)|
    ensures Reaches(lib, prog, s, t) && Reflects(site, t, Act(lib, d, cell, a))
    ensures t.status == Running ==> t.cursors == s.cursors && t.pc == next
  {
    hide Reaches, Placed, WhereCode, ChangeCode, WherePasses, ChangeRow, SimpleChange, OnCell, DmlOk;
    PlacedConcat(prog, s.pc, WhereCode(d, next), ChangeCode(d));
    t := WhereRuns(lib, prog, d, cell, next, s);
    var w := WherePasses(lib, d, cell, a.reg0);
    if w.Ok? && w.value.0 {
      var u := t;
      t := ChangeRuns(lib, prog, d, site, cell, u, a.(reg0 := w.value.1));
      ReachThen(lib, prog, s, u, t);
    }
  }

  /** The code of the sweep stands where the compiler puts it. */
  predicate SweepPlaced(prog: seq<Insn>, d: Dml) {
    && Placed(prog, DML_TOP, WhereCode(d, DmlNext(d)) + ChangeCode(d))
    && Placed(prog, DmlNext(d), [Op(Opcode.Last, 0, DML_TOP, 0)])
    && Placed(prog, DmlNext(d) + 1, [Op(Opcode.Halt, 0, 0, 0)])
    && |WhereCode(d, DmlNext(d))| == |WhereCode(d, 0)|
  }

  /** `Last` in the table as it is after the change. */
  lemma AdvanceRuns(lib: Lib, prog: seq<Insn>, d: Dml, site: Site, s: State, a: Sweep) returns (t: State)
    requires Reflects(site, s, a) && a.stop.None? && SweepCursor(site, s) && s.pc == DmlNext(d) && SweepPlaced(prog, d)
    ensures Reaches(lib, prog, s, t) && Reflects(site, t, a) && SweepCursor(site, t)
    ensures var n := LeafList.Next(a.ls, s.cursors[0].cur);
            t.cursors[0].cur == n.1 && t.pc == if n.0 then DML_TOP else DmlNext(d) + 1
  {
    hide Reaches, Placed, LeafList.Next, DmlNext, WhereCode, ChangeCode, Calc, ExecControl, ExecChange, ExecBuffer;
    PlacedStep(prog, s.pc, [Op(Opcode.Last, 0, DML_TOP, 0)]);
    t := Step(lib, prog, s);
    ReachStep(lib, prog, s);
  }

  lemma {:induction false} SweepRuns(lib: Lib, prog: seq<Insn>, d: Dml, site: Site, s: State, a: Sweep) returns (t: State)
    requires DmlOk(d) && SimpleChange(d) && Reflects(site, s, a) && a.stop.None? && SweepCursor(site, s)
    requires s.pc == DML_TOP && SweepPlaced(prog, d) && Inside(a.ls, s.cursors[0].cur) && s.cursors[0].cur.current.Some?
    ensures Reaches(lib, prog, s, t) && Reflects(site, t, SweepFrom(lib, d, s.cursors[0].cur, a))
    ensures t.status == Running ==> t.pc == DmlNext(d) + 1
    decreases |a.ls| - s.cursors[0].cur.leaf, |a.ls[s.cursors[0].cur.leaf]| - s.cursors[0].cur.cell
  {
    hide Reaches, Placed, DmlOk, SimpleChange, Reflects, WhereCode, ChangeCode, WherePasses, ChangeRow;
    var cur := s.cursors[0].cur;
    t := ActRuns(lib, prog, d, site, cur.current.value, DmlNext(d), s, a);
    var a' := Act(lib, d, cur.current.value, a);
    StopsWith(site, t, a');
    if a'.stop.None? {
      var u := t;
      t := AdvanceRuns(lib, prog, d, site, u, a');
      ReachThen(lib, prog, s, u, t);
      var n := LeafList.Next(a'.ls, cur);
      if n.0 {
        NextInside(a'.ls, cur);
        u := t;
        t := SweepRuns(lib, prog, d, site, u, a');
        ReachThen(lib, prog, s, u, t);
      }
    }
  }

  lemma StopsWith(site: Site, t: State, a: Sweep)
    requires Reflects(site, t, a)
    ensures t.status == Running <==> a.stop.None?
  {
  }

  lemma NextInside(ls: Table, cur: Cur)
    requires LeafList.Next(ls, cur).0
    ensures var n := LeafList.Next(ls, cur).1;
            Inside(ls, n) && n.current.Some? && (n.leaf > cur.leaf || (n.leaf == cur.leaf && n.cell == cur.cell + 1))
  {
  }

  lemma DmlParts(d: Dml)
    ensures Placed(DmlCode(d), 0, DmlHead(d)) && SweepPlaced(DmlCode(d), d)
  {
    hide WhereCode, ChangeCode;
    WherePatched(d, [], [], DmlNext(d));
    var prog, rows := DmlCode(d), WhereCode(d, DmlNext(d)) + ChangeCode(d);
    assert prog == DmlHead(d) + rows + [Op(Opcode.Last, 0, DML_TOP, 0)] + [Op(Opcode.Halt, 0, 0, 0)];
    assert prog[0..DML_TOP] == DmlHead(d);
    assert prog[DML_TOP..DmlNext(d)] == rows;
    assert prog[DmlNext(d)..DmlNext(d) + 1] == [Op(Opcode.Last, 0, DML_TOP, 0)];
    assert prog[DmlNext(d) + 1..DmlNext(d) + 2] == [Op(Opcode.Halt, 0, 0, 0)];
  }

  // ---- The whole statement --------------------------------------------------------------------------------------

  /** The first three instructions. */
  lemma OpenRuns(lib: Lib, d: Dml, tables: map<string, Table>, nReg: nat) returns (t: State)
    requires Lower(d.table) in tables
    ensures Reaches(lib, DmlCode(d), Start(tables, nReg), t)
    ensures t == Start(tables, nReg).(pc := 3, cursors := map[0 := CursorState(Lower(d.table), LeafList.Start())])
  {
    hide Reaches, SweepPlaced, Calc, ExecMove, ExecChange, ExecBuffer;
    var prog, s := DmlCode(d), Start(tables, nReg);
    DmlParts(d);
    HeadInsns(d);
    var u, v := Step(lib, prog, s), Step(lib, prog, Step(lib, prog, s));
    t := Step(lib, prog, v);
    ReachStep(lib, prog, s);
    ReachStep(lib, prog, u);
    ReachStep(lib, prog, v);
    ReachThen(lib, prog, s, u, v);
    ReachThen(lib, prog, s, v, t);
  }

  lemma HeadInsns(d: Dml)
    ensures var prog := DmlCode(d);
            |prog| >= DML_TOP && prog[0] == DmlHead(d)[0] && prog[1] == DmlHead(d)[1] && prog[2] == DmlHead(d)[2] && prog[3] == DmlHead(d)[3]
  {
  }

  lemma RewindSweep(lib: Lib, d: Dml, site: Site, s: State, a: Sweep) returns (t: State)
    requires Reflects(site, s, a) && a.stop.None? && SweepCursor(site, s) && s.pc == 3
    ensures Reaches(lib, DmlCode(d), s, t) && Reflects(site, t, a) && SweepCursor(site, t)
    ensures var f := LeafList.First(a.ls, s.cursors[0].cur); t.cursors[0].cur == f.1 && t.pc == if f.0 then DML_TOP else DmlNext(d) + 1
  {
    hide Reaches, LeafList.First, DmlNext, Calc, ExecControl, ExecChange, ExecBuffer;
    HeadInsns(d);
    t := Step(lib, DmlCode(d), s);
    ReachStep(lib, DmlCode(d), s);
  }

  /** A compiled UPDATE or DELETE, run from its first instruction, sweeps its table once and changes no
      other; an evaluation that fails stops it with the changes made so far. */
  lemma DmlRuns(lib: Lib, d: Dml, tables: map<string, Table>, nReg: nat) returns (t: State)
    requires DmlOk(d) && SimpleChange(d) && Lower(d.table) in tables
    ensures Reaches(lib, DmlCode(d), Start(tables, nReg), t) && t.out == []
    ensures var a := SweepAll(lib, d, tables[Lower(d.table)]);
            && t.tables == tables[Lower(d.table) := a.ls] && t.changes == a.changes
            && t.status == if a.stop.Some? then Failed(a.stop.value) else Done
  {
    hide Reaches, DmlCode, SweepPlaced, Inside, SweepFrom, DmlOk, SimpleChange;
    var name, prog := Lower(d.table), DmlCode(d);
    var ls, site := tables[name], Site(name, tables);
    var a := Sweep(ls, 0, Value.Null, None);
    var s := OpenRuns(lib, d, tables, nReg);
    assert tables[name := ls] == tables;
    t := RewindSweep(lib, d, site, s, a);
    ReachThen(lib, prog, Start(tables, nReg), s, t);
    DmlParts(d);
    var f := LeafList.First(ls, LeafList.Start());
    if f.0 {
      FirstInside(ls);
      var u := t;
      t := SweepRuns(lib, prog, d, site, u, a);
      ReachThen(lib, prog, Start(tables, nReg), u, t);
    }
    if t.status == Running {
      var u := t;
      t := HaltRuns(lib, prog, d, u);
      ReachThen(lib, prog, Start(tables, nReg), u, t);
    }
  }

  lemma FirstInside(ls: Table)
    requires LeafList.First(ls, LeafList.Start()).0
    ensures Inside(ls, LeafList.First(ls, LeafList.Start()).1) && LeafList.First(ls, LeafList.Start()).1.current.Some?
  {
  }

  lemma HaltRuns(lib: Lib, prog: seq<Insn>, d: Dml, s: State) returns (t: State)
    requires SweepPlaced(prog, d) && s.status == Running && s.pc == DmlNext(d) + 1
    ensures Reaches(lib, prog, s, t) && t == s.(pc := t.pc, status := Done)
  {
    hide Reaches, Placed, DmlNext, WhereCode, ChangeCode, Calc, ExecMove, ExecChange, ExecBuffer;
    PlacedStep(prog, s.pc, [Op(Opcode.Halt, 0, 0, 0)]);
    t := Step(lib, prog, s);
    ReachStep(lib, prog, s);
  }
}
