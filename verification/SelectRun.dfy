/** What the code of a SELECT does when the machine runs it. */
module SelectRun {
  import opened Bytes
  import opened Names
  import opened Values
  import opened Ast
  import opened Program
  import opened SortGroup
  import opened SelectPlan
  import opened VirtualMachine
  import opened CompileExpr
  import opened CompileSelect
  import LP = LeafPage
  import LeafList
  import Grouping

  // ---- The result, row by row ------------------------------------------------------------------

  /** The rows the cursors of the query stand on. */
  type View = seq<Option<LP.Cell>>

  function ColumnOf(lib: Lib, view: View, c: ColumnRef): Result<Value> {
    if c.table >= |view| then Ok(Value.Null)
    else
      var values :- RowValues(lib, view[c.table]);
      Ok(Reg(values, c.column))
  }

  function OperandValue(lib: Lib, q: Query, view: View, e: Expr, reg0: Value): Result<Value> {
    var c := ResolveColumn(e, q.cat, q.tables);
    if c.Ok? then ColumnOf(lib, view, c.value) else Eval(lib, e, reg0)
  }

  function PredValue(lib: Lib, q: Query, view: View, e: Expr, reg0: Value): Result<Value> {
    if e.Binary? then
      var a :- OperandValue(lib, q, view, e.left, reg0);
      var b :- OperandValue(lib, q, view, e.right, reg0);
      Operate(lib, PredOpcode(e.bop), a, b)
    else OperandValue(lib, q, view, e, reg0)
  }

  /** Whether a condition lets the row pass; none lets every row pass. */
  function Passes(lib: Lib, q: Query, view: View, p: Option<Expr>, reg0: Value): Result<bool> {
    if p.None? then Ok(true)
    else
      var v :- PredValue(lib, q, view, p.value, reg0);
      Ok(Truthy(lib, v))
  }

  function SourceValue(lib: Lib, q: Query, view: View, s: Source, reg0: Value): Result<Value> {
    match s
    case FromColumn(c) => ColumnOf(lib, view, c)
    case FromExpr(e) => OperandValue(lib, q, view, e, reg0)
  }

  /** The values of the first `n` sources; from the second on, register 0 holds the first. */
  function LoadValues(lib: Lib, q: Query, view: View, n: nat, reg0: Value): (r: Result<Row>)
    requires n <= |q.plan.sources|
    ensures r.Ok? ==> |r.value| == n
  {
    if n == 0 then Ok([])
    else
      var row :- LoadValues(lib, q, view, n - 1, reg0);
      var v :- SourceValue(lib, q, view, q.plan.sources[n - 1], if n == 1 then reg0 else row[0]);
      Ok(row + [v])
  }

  /** Register 0, the rows emitted so far, and the error that ended the scan early. */
  datatype Acc = Acc(reg0: Value, rows: seq<Row>, stop: Option<Error>)

  /** One row, or pair of rows. */
  function Visit(lib: Lib, q: Query, view: View, a: Acc): Acc {
    var on := Passes(lib, q, view, q.on, a.reg0);
    if on.Err? then a.(stop := Some(on.error))
    else if !on.value then a
    else
      var wh := Passes(lib, q, view, q.where, a.reg0);
      if wh.Err? then a.(stop := Some(wh.error))
      else if !wh.value then a
      else
        var row := LoadValues(lib, q, view, |q.plan.sources|, a.reg0);
        if row.Err? then a.(stop := Some(row.error))
        else Acc(if row.value == [] then a.reg0 else row.value[0], a.rows + [row.value], None)
  }

  /** The loop over one cursor, the others standing still. */
  function ScanInner(lib: Lib, q: Query, outer: View, rows: seq<LP.Cell>, a: Acc): Acc {
    if rows == [] || a.stop.Some? then a
    else ScanInner(lib, q, outer, rows[1..], Visit(lib, q, outer + [Some(rows[0])], a))
  }

  /** Two nested loops, the first table outside. */
  function ScanJoin(lib: Lib, q: Query, rows: seq<LP.Cell>, inner: seq<LP.Cell>, a: Acc): Acc {
    if rows == [] || a.stop.Some? then a
    else ScanJoin(lib, q, rows[1..], inner, ScanInner(lib, q, [Some(rows[0])], inner, a))
  }

  /** The rows of a table that a scan gets to see. */
  function Seen(t: Table): seq<LP.Cell> { LeafList.Flat(LeafList.Visible(t)) }

  function TableOf(tables: map<string, Table>, b: Binding): Table { if Lower(b.name) in tables then tables[Lower(b.name)] else [] }

  function ScanAll(lib: Lib, q: Query, tables: map<string, Table>): Acc
    requires q.tables != []
  {
    var start := Acc(Value.Null, [], None);
    if Joins(q) then ScanJoin(lib, q, Seen(TableOf(tables, q.tables[0])), Seen(TableOf(tables, q.tables[1])), start)
    else ScanInner(lib, q, [], Seen(TableOf(tables, q.tables[0])), start)
  }

  // ---- One row on the machine --------------------------------------------------------------------

  /** The cursors of the query stand on the rows of `view`. */
  ghost predicate Stand(cursors: map<int, CursorState>, view: View) {
    forall i | 0 <= i < |view| :: i in cursors && cursors[i].cur.current == view[i]
  }

  function Emitted(q: Query, s: State): seq<Row> { if Buffered(q) then s.buffer else s.out }

  /** The state has got as far as `a`. */
  predicate Matches(q: Query, s: State, a: Acc) {
    a.stop.None? && s.status == Running && Reg(s.regs, 0) == a.reg0 && Emitted(q, s) == a.rows
  }

  /** What a stretch of row code may change: registers, program counter and emitted rows. */
  predicate Frame(q: Query, s: State, t: State) {
    && t.tables == s.tables && t.changes == s.changes && t.index == s.index
    && (if Buffered(q) then t.out == s.out else t.buffer == s.buffer)
  }

  /** The state has failed with the error, and the rows emitted, of `a`. */
  predicate Stopped(q: Query, t: State, a: Acc) {
    a.stop.Some? && t.status == Failed(a.stop.value) && Emitted(q, t) == a.rows
  }

  lemma OperandComputes(lib: Lib, q: Query, view: View, e: Expr, reg: nat, regs: seq<Value>, cursors: map<int, CursorState>)
    requires Stand(cursors, view) && |view| == |q.tables|
    ensures Computes(lib, OperandCode(q, e, reg), reg, OperandValue(lib, q, view, e, Reg(regs, 0)), regs, cursors)
  {
    hide ResolveColumn, ExprCode, Eval, RunCalc;
    var c := ResolveColumn(e, q.cat, q.tables);
    if c.Ok? {
      ColumnComputes(lib, view, c.value, reg, regs, cursors);
    } else {
      ExprComputes(lib, e, reg, regs, cursors);
    }
  }

  lemma ColumnComputes(lib: Lib, view: View, c: ColumnRef, reg: nat, regs: seq<Value>, cursors: map<int, CursorState>)
    requires Stand(cursors, view) && c.table < |view|
    ensures Computes(lib, [Op(Opcode.Column, reg, c.table, c.column)], reg, ColumnOf(lib, view, c), regs, cursors)
  {
    hide RunCalc, RowValues;
    OneInsn(lib, Op(Opcode.Column, reg, c.table, c.column), regs, cursors);
  }

  lemma PredComputes(lib: Lib, q: Query, view: View, e: Expr, reg: nat, regs: seq<Value>, cursors: map<int, CursorState>)
    requires Stand(cursors, view) && |view| == |q.tables|
    ensures Computes(lib, PredCode(q, e, reg), reg, PredValue(lib, q, view, e, Reg(regs, 0)), regs, cursors)
  {
    hide OperandCode, OperandValue, RunCalc, Operate, Stand;
    if e.Binary? {
      var left, right := OperandCode(q, e.left, reg + 1), OperandCode(q, e.right, reg + 2);
      OperandComputes(lib, q, view, e.left, reg + 1, regs, cursors);
      OperandComputes(lib, q, view, e.right, reg + 2, regs, cursors);
      var r := RunCalc(lib, left, regs, cursors);
      if r.Ok? { OperandComputes(lib, q, view, e.right, reg + 2, r.value, cursors); }
      BinaryComputes(lib, left, right, PredOpcode(e.bop), reg,
                     OperandValue(lib, q, view, e.left, Reg(regs, 0)), OperandValue(lib, q, view, e.right, Reg(regs, 0)), regs, cursors);
    } else {
      OperandComputes(lib, q, view, e, reg, regs, cursors);
    }
  }

  lemma SourceComputes(lib: Lib, q: Query, view: View, i: nat, regs: seq<Value>, cursors: map<int, CursorState>)
    requires Stand(cursors, view) && |view| == |q.tables| && SourcesOk(q.plan.sources, q.tables) && i < |q.plan.sources|
    ensures Computes(lib, SourceCode(q, q.plan.sources[i], i), i, SourceValue(lib, q, view, q.plan.sources[i], Reg(regs, 0)), regs, cursors)
  {
    hide OperandCode, OperandValue, ColumnOf, Computes;
    match q.plan.sources[i]
    case FromColumn(c) => ColumnComputes(lib, view, c, i, regs, cursors);
    case FromExpr(e) => OperandComputes(lib, q, view, e, i, regs, cursors);
  }

  /** Loading `n` sources leaves their values in the first `n` registers. */
  ghost predicate Loads(lib: Lib, q: Query, view: View, n: nat, regs: seq<Value>, cursors: map<int, CursorState>)
    requires n <= |q.plan.sources|
  {
    && Straight(LoadCode(q, n))
    && match (RunCalc(lib, LoadCode(q, n), regs, cursors), LoadValues(lib, q, view, n, Reg(regs, 0)))
       case (Ok(r), Ok(row)) => (forall j | 0 <= j < n :: Reg(r, j) == row[j]) && (n == 0 ==> r == regs)
       case (Err(e), Err(e')) => e == e'
       case _ => false
  }

  lemma {:induction false} LoadRuns(lib: Lib, q: Query, view: View, n: nat, regs: seq<Value>, cursors: map<int, CursorState>)
    requires Stand(cursors, view) && |view| == |q.tables| && SourcesOk(q.plan.sources, q.tables) && n <= |q.plan.sources|
    ensures Loads(lib, q, view, n, regs, cursors)
    decreases n
  {
    if n > 0 {
      LoadRuns(lib, q, view, n - 1, regs, cursors);
      LoadOneMore(lib, q, view, n, regs, cursors);
    }
  }

  lemma LoadOneMore(lib: Lib, q: Query, view: View, n: nat, regs: seq<Value>, cursors: map<int, CursorState>)
    requires Stand(cursors, view) && |view| == |q.tables| && SourcesOk(q.plan.sources, q.tables) && 0 < n <= |q.plan.sources|
    requires Loads(lib, q, view, n - 1, regs, cursors)
    ensures Loads(lib, q, view, n, regs, cursors)
  {
    hide Stand, SourcesOk, SourceCode, SourceValue, RunCalc;
    var code := SourceCode(q, q.plan.sources[n - 1], n - 1);
    var r := RunCalc(lib, LoadCode(q, n - 1), regs, cursors);
    SourceComputes(lib, q, view, n - 1, regs, cursors);
    RunCalcConcat(lib, LoadCode(q, n - 1), code, regs, cursors);
    if r.Ok? { SourceComputes(lib, q, view, n - 1, r.value, cursors); }
  }

  /** A condition: to `next` if it fails, on to the following instruction if it holds. */
  lemma TestRuns(lib: Lib, prog: seq<Insn>, q: Query, view: View, p: Option<Expr>, next: nat, s: State) returns (t: State)
    requires Stand(s.cursors, view) && |view| == |q.tables| && s.status == Running && Placed(prog, s.pc, TestCode(q, p, next))
    ensures Reaches(lib, prog, s, t)
    ensures match Passes(lib, q, view, p, Reg(s.regs, 0))
            case Err(e) => SameStop(t, s, e)
            case Ok(pass) => t == s.(regs := t.regs, pc := if pass then s.pc + |TestCode(q, p, next)| else next) && Reg(t.regs, 0) == Reg(s.regs, 0)
  {
    hide PredCode, PredValue, RunCalc, Reaches, Placed, Truthy, Stand;
    if p.None? {
      t := s;
      ReachSelf(lib, prog, s);
    } else {
      var code := PredCode(q, p.value, 1);
      PlacedConcat(prog, s.pc, code, [Op(Opcode.IfNot, 1, next, 0)]);
      PredComputes(lib, q, view, p.value, 1, s.regs, s.cursors);
      t := CalcRuns(lib, prog, s, code);
      if t.status == Running {
        t := IfNotRuns(lib, prog, next, s, t);
      }
    }
  }

  lemma IfNotRuns(lib: Lib, prog: seq<Insn>, next: nat, s: State, u: State) returns (t: State)
    requires Reaches(lib, prog, s, u) && u.status == Running && Placed(prog, u.pc, [Op(Opcode.IfNot, 1, next, 0)])
    ensures Reaches(lib, prog, s, t) && t == u.(pc := if Truthy(lib, Reg(u.regs, 1)) then u.pc + 1 else next)
  {
    hide Reaches, Truthy, Placed, Calc, ExecMove, ExecChange, ExecBuffer;
    PlacedStep(prog, u.pc, [Op(Opcode.IfNot, 1, next, 0)]);
    t := Step(lib, prog, u);
    ReachStep(lib, prog, u);
    ReachThen(lib, prog, s, u, t);
  }

  /** Loading the sources and emitting the row. */
  lemma EmitRuns(lib: Lib, prog: seq<Insn>, q: Query, view: View, s: State) returns (t: State)
    requires QueryOk(q) && Stand(s.cursors, view) && |view| == |q.tables| && s.status == Running
    requires Placed(prog, s.pc, LoadCode(q, |q.plan.sources|) + [EmitInsn(q)])
    ensures Reaches(lib, prog, s, t) && Frame(q, s, t) && t.cursors == s.cursors
    ensures match LoadValues(lib, q, view, |q.plan.sources|, Reg(s.regs, 0))
            case Err(e) => SameStop(t, s, e)
            case Ok(row) =>
              && t.status == Running && t.pc == s.pc + |LoadCode(q, |q.plan.sources|)| + 1
              && Emitted(q, t) == Emitted(q, s) + [row] && Reg(t.regs, 0) == if row == [] then Reg(s.regs, 0) else row[0]
  {
    hide Reaches, Placed, LoadCode, LoadValues, RunCalc, Stand, SourcesOk;
    var n := |q.plan.sources|;
    PlacedConcat(prog, s.pc, LoadCode(q, n), [EmitInsn(q)]);
    LoadRuns(lib, q, view, n, s.regs, s.cursors);
    var u := CalcRuns(lib, prog, s, LoadCode(q, n));
    t := u;
    if u.status == Running {
      assert Regs(u.regs, 0, n) == LoadValues(lib, q, view, n, Reg(s.regs, 0)).value;
      t := EmitOne(lib, prog, q, u);
      ReachThen(lib, prog, s, u, t);
    }
  }

  /** The instruction that emits the loaded row, to the caller or to the buffer. */
  lemma EmitOne(lib: Lib, prog: seq<Insn>, q: Query, s: State) returns (t: State)
    requires s.status == Running && (!q.plan.aggregated ==> q.plan.outputWidth == |q.plan.sources|) && Placed(prog, s.pc, [EmitInsn(q)])
    ensures Reaches(lib, prog, s, t) && Frame(q, s, t) && t.cursors == s.cursors && t.regs == s.regs
    ensures t.status == Running && t.pc == s.pc + 1 && Emitted(q, t) == Emitted(q, s) + [Regs(s.regs, 0, |q.plan.sources|)]
  {
    hide Reaches, Placed, Regs, Calc, ExecMove, ExecChange;
    PlacedStep(prog, s.pc, [EmitInsn(q)]);
    t := Step(lib, prog, s);
    ReachStep(lib, prog, s);
  }

  /** The row code as a whole does what `Visit` says, and ends at `next`. */
  lemma VisitRuns(lib: Lib, prog: seq<Insn>, q: Query, view: View, next: nat, s: State, a: Acc) returns (t: State)
    requires QueryOk(q) && Stand(s.cursors, view) && |view| == |q.tables| && Matches(q, s, a)
    requires Placed(prog, s.pc, VisitCode(q, next)) && next == s.pc + |VisitCode(q, next)|
    ensures Reaches(lib, prog, s, t) && Frame(q, s, t) && t.cursors == s.cursors
    ensures var a' := Visit(lib, q, view, a); if a'.stop.Some? then Stopped(q, t, a') else Matches(q, t, a') && t.pc == next
  {
    hide Reaches, Placed, TestCode, LoadCode, LoadValues, Passes, Stand, EmitInsn;
    var on, wh := TestCode(q, q.on, next), TestCode(q, q.where, next);
    var load := LoadCode(q, |q.plan.sources|) + [EmitInsn(q)];
    assert VisitCode(q, next) == on + (wh + load);
    PlacedConcat(prog, s.pc, on, wh + load);
    PlacedConcat(prog, s.pc + |on|, wh, load);
    t := TestRuns(lib, prog, q, view, q.on, next, s);
    if Passes(lib, q, view, q.on, a.reg0) == Ok(true) {
      var u := t;
      t := TestRuns(lib, prog, q, view, q.where, next, u);
      ReachThen(lib, prog, s, u, t);
      if Passes(lib, q, view, q.where, a.reg0) == Ok(true) {
        u := t;
        t := EmitRuns(lib, prog, q, view, u);
        ReachThen(lib, prog, s, u, t);
      }
    }
  }

  // ---- The loops on the machine ----------------------------------------------------------------------

  /** Cursor `c` is open on a table of this machine, with these leaves. */
  predicate OpenOn(s: State, c: int, ls: Table) {
    c in s.cursors && s.cursors[c].table in s.tables && s.tables[s.cursors[c].table] == ls
  }

  /** What a loop over cursor `c` may change. */
  predicate LoopFrame(q: Query, s: State, t: State, c: int) {
    && Frame(q, s, t) && t.cursors.Keys == s.cursors.Keys && c in s.cursors
    && t.cursors[c].table == s.cursors[c].table
    && forall d | d in s.cursors && d != c :: t.cursors[d] == s.cursors[d]
  }

  /** `Last`: back to `top` on the next row, or on to the following instruction behind the last. */
  lemma LastRuns(lib: Lib, prog: seq<Insn>, q: Query, c: nat, top: nat, ls: Table, s: State) returns (t: State)
    requires s.status == Running && OpenOn(s, c, ls) && LeafList.On(ls, s.cursors[c].cur)
    requires Placed(prog, s.pc, [Op(Opcode.Last, c, top, 0)])
    ensures Reaches(lib, prog, s, t) && t == s.(pc := t.pc, cursors := t.cursors) && LoopFrame(q, s, t, c)
    ensures var rest := LeafList.Remaining(ls, s.cursors[c].cur)[1..];
            if rest == [] then t.pc == s.pc + 1
            else t.pc == top && LeafList.On(ls, t.cursors[c].cur) && LeafList.Remaining(ls, t.cursors[c].cur) == rest
  {
    hide Reaches, Placed, LeafList.On, LeafList.Remaining, LeafList.Next, Calc, ExecControl, ExecChange, ExecBuffer;
    PlacedStep(prog, s.pc, [Op(Opcode.Last, c, top, 0)]);
    t := Step(lib, prog, s);
    ReachStep(lib, prog, s);
    LeafList.NextRemaining(ls, s.cursors[c].cur);
  }

  /** `Rewind`: on to the first row, or to `target` if there is none. */
  lemma RewindRuns(lib: Lib, prog: seq<Insn>, q: Query, c: nat, target: nat, ls: Table, s: State) returns (t: State)
    requires s.status == Running && OpenOn(s, c, ls) && ls != []
    requires Placed(prog, s.pc, [Op(Opcode.Rewind, c, target, 0)])
    ensures Reaches(lib, prog, s, t) && t == s.(pc := t.pc, cursors := t.cursors) && LoopFrame(q, s, t, c)
    ensures if Seen(ls) == [] then t.pc == target
            else t.pc == s.pc + 1 && LeafList.On(ls, t.cursors[c].cur) && LeafList.Remaining(ls, t.cursors[c].cur) == Seen(ls)
  {
    hide Reaches, Placed, LeafList.On, LeafList.Remaining, LeafList.First, Calc, ExecControl, ExecChange, ExecBuffer;
    PlacedStep(prog, s.pc, [Op(Opcode.Rewind, c, target, 0)]);
    t := Step(lib, prog, s);
    ReachStep(lib, prog, s);
    LeafList.FirstRemaining(ls, s.cursors[c].cur);
  }

  /** One turn of the innermost loop: the row code, then `Last`. */
  lemma TurnRuns(lib: Lib, prog: seq<Insn>, q: Query, outer: View, top: nat, ls: Table, s: State, a: Acc) returns (t: State)
    requires QueryOk(q) && Stand(s.cursors, outer) && |outer| + 1 == |q.tables| && Matches(q, s, a) && s.pc == top
    requires OpenOn(s, |outer|, ls) && LeafList.On(ls, s.cursors[|outer|].cur)
    requires var next := top + |VisitCode(q, 0)|; Placed(prog, top, VisitCode(q, next)) && Placed(prog, next, [Op(Opcode.Last, |outer|, top, 0)])
    ensures Reaches(lib, prog, s, t) && LoopFrame(q, s, t, |outer|)
    ensures var rest := LeafList.Remaining(ls, s.cursors[|outer|].cur);
            var a' := Visit(lib, q, outer + [Some(rest[0])], a);
            if a'.stop.Some? then Stopped(q, t, a')
            else
              && Matches(q, t, a')
              && if |rest| == 1 then t.pc == top + |VisitCode(q, 0)| + 1
                 else t.pc == top && LeafList.On(ls, t.cursors[|outer|].cur) && LeafList.Remaining(ls, t.cursors[|outer|].cur) == rest[1..]
  {
    hide Reaches, Placed, VisitCode, Visit, QueryOk, LeafList.Remaining;
    var c, next := |outer|, top + |VisitCode(q, 0)|;
    var view := outer + [s.cursors[c].cur.current];
    VisitPatched(q, [], next);
    t := VisitRuns(lib, prog, q, view, next, s, a);
    if t.status == Running {
      var u := t;
      t := LastRuns(lib, prog, q, c, top, ls, u);
      ReachThen(lib, prog, s, u, t);
    }
  }

  /** The innermost loop from its top, the cursor standing on the first of `rows`. */
  lemma {:induction false} InnerRuns(lib: Lib, prog: seq<Insn>, q: Query, outer: View, top: nat, ls: Table, rows: seq<LP.Cell>, s: State, a: Acc) returns (t: State)
    requires QueryOk(q) && Stand(s.cursors, outer) && |outer| + 1 == |q.tables| && Matches(q, s, a) && s.pc == top
    requires OpenOn(s, |outer|, ls) && LeafList.On(ls, s.cursors[|outer|].cur) && LeafList.Remaining(ls, s.cursors[|outer|].cur) == rows
    requires var next := top + |VisitCode(q, 0)|; Placed(prog, top, VisitCode(q, next)) && Placed(prog, next, [Op(Opcode.Last, |outer|, top, 0)])
    ensures Reaches(lib, prog, s, t) && LoopFrame(q, s, t, |outer|)
    ensures var a' := ScanInner(lib, q, outer, rows, a);
            if a'.stop.Some? then Stopped(q, t, a') else Matches(q, t, a') && t.pc == top + |VisitCode(q, 0)| + 1
    decreases |rows|
  {
    hide Reaches, Placed, VisitCode, Visit, QueryOk, LeafList.Remaining, LeafList.On;
    t := TurnRuns(lib, prog, q, outer, top, ls, s, a);
    var a' := Visit(lib, q, outer + [Some(rows[0])], a);
    if a'.stop.None? && |rows| > 1 {
      var u := t;
      t := InnerRuns(lib, prog, q, outer, top, ls, rows[1..], u, a');
      ReachThen(lib, prog, s, u, t);
    }
  }

  /** The inner table for one outer row: `Rewind`, then its loop if it has rows. */
  lemma InnerTable(lib: Lib, prog: seq<Insn>, q: Query, outer: View, ls: Table, s: State, a: Acc) returns (t: State)
    requires QueryOk(q) && Stand(s.cursors, outer) && |outer| == 1 && |q.tables| == 2 && Matches(q, s, a)
    requires OpenOn(s, 1, ls) && ls != [] && s.pc == Top(q) - 1 && LoopsPlaced(prog, q)
    ensures Reaches(lib, prog, s, t) && LoopFrame(q, s, t, 1)
    ensures var a' := ScanInner(lib, q, outer, Seen(ls), a);
            if a'.stop.Some? then Stopped(q, t, a') else Matches(q, t, a') && t.pc == Next(q) + 1
  {
    hide Reaches, Placed, VisitCode, Visit, QueryOk, LeafList.Remaining, LeafList.On, Seen;
    LoopParts(prog, q);
    t := RewindRuns(lib, prog, q, 1, Next(q) + 1, ls, s);
    if Seen(ls) != [] {
      var u := t;
      t := InnerRuns(lib, prog, q, outer, Top(q), ls, Seen(ls), u, a);
      ReachThen(lib, prog, s, u, t);
    }
  }

  /** The code of the loops stands where the compiler puts it. */
  predicate LoopsPlaced(prog: seq<Insn>, q: Query) {
    Placed(prog, OuterRewind(q), RewindCode(q) + VisitCode(q, Next(q)) + NextCode(q))
  }

  lemma LoopParts(prog: seq<Insn>, q: Query)
    requires LoopsPlaced(prog, q)
    ensures Placed(prog, OuterRewind(q), [RewindCode(q)[0]])
    ensures Joins(q) ==> Placed(prog, OuterRewind(q) + 1, [RewindCode(q)[1]]) && Placed(prog, Next(q) + 1, [NextCode(q)[1]])
    ensures Placed(prog, Top(q), VisitCode(q, Next(q))) && Placed(prog, Next(q), [NextCode(q)[0]])
    ensures |VisitCode(q, Next(q))| == |VisitCode(q, 0)|
  {
    hide Placed, VisitCode, RewindCode, NextCode, PostScan;
    CodeSizes(q);
    PlacedConcat(prog, OuterRewind(q), RewindCode(q) + VisitCode(q, Next(q)), NextCode(q));
    PlacedConcat(prog, OuterRewind(q), RewindCode(q), VisitCode(q, Next(q)));
    Singles(prog, OuterRewind(q), RewindCode(q));
    Singles(prog, Next(q), NextCode(q));
  }

  lemma CodeSizes(q: Query)
    ensures |RewindCode(q)| == |NextCode(q)| == (if Joins(q) then 2 else 1)
    ensures |VisitCode(q, Next(q))| == |VisitCode(q, 0)|
  {
    hide VisitCode;
    VisitPatched(q, [], Next(q));
  }

  lemma Singles(prog: seq<Insn>, at: nat, code: seq<Insn>)
    requires Placed(prog, at, code) && 1 <= |code| <= 2
    ensures Placed(prog, at, [code[0]]) && (|code| == 2 ==> Placed(prog, at + 1, [code[1]]))
  {
    hide Placed;
    if |code| == 2 {
      assert code == [code[0]] + [code[1]];
      PlacedConcat(prog, at, [code[0]], [code[1]]);
    } else {
      assert code == [code[0]];
    }
  }

  /** One outer row of a join: the inner table, then `Last` on the outer cursor. */
  lemma OuterTurn(lib: Lib, prog: seq<Insn>, q: Query, ls: Table, inner: Table, s: State, a: Acc) returns (t: State)
    requires QueryOk(q) && |q.tables| == 2 && Matches(q, s, a) && s.pc == Top(q) - 1 && LoopsPlaced(prog, q)
    requires OpenOn(s, 0, ls) && LeafList.On(ls, s.cursors[0].cur) && OpenOn(s, 1, inner) && inner != []
    ensures Reaches(lib, prog, s, t) && Frame(q, s, t) && (t.status == Running ==> OpenOn(t, 0, ls) && OpenOn(t, 1, inner))
    ensures var rest := LeafList.Remaining(ls, s.cursors[0].cur);
            var a' := ScanInner(lib, q, [Some(rest[0])], Seen(inner), a);
            if a'.stop.Some? then Stopped(q, t, a')
            else
              && Matches(q, t, a')
              && if |rest| == 1 then t.pc == PostScan(q)
                 else t.pc == Top(q) - 1 && LeafList.On(ls, t.cursors[0].cur) && LeafList.Remaining(ls, t.cursors[0].cur) == rest[1..]
  {
    hide Reaches, Placed, LoopsPlaced, VisitCode, Visit, QueryOk, LeafList.Remaining, Seen, ScanInner;
    t := InnerTable(lib, prog, q, [s.cursors[0].cur.current], inner, s, a);
    if t.status == Running {
      LoopParts(prog, q);
      var u := t;
      t := LastRuns(lib, prog, q, 0, Top(q) - 1, ls, u);
      ReachThen(lib, prog, s, u, t);
    }
  }

  lemma {:induction false} OuterRuns(lib: Lib, prog: seq<Insn>, q: Query, ls: Table, inner: Table, rows: seq<LP.Cell>, s: State, a: Acc) returns (t: State)
    requires QueryOk(q) && |q.tables| == 2 && Matches(q, s, a) && s.pc == Top(q) - 1 && LoopsPlaced(prog, q)
    requires OpenOn(s, 0, ls) && LeafList.On(ls, s.cursors[0].cur) && LeafList.Remaining(ls, s.cursors[0].cur) == rows
    requires OpenOn(s, 1, inner) && inner != []
    ensures Reaches(lib, prog, s, t) && Frame(q, s, t)
    ensures var a' := ScanJoin(lib, q, rows, Seen(inner), a);
            if a'.stop.Some? then Stopped(q, t, a') else Matches(q, t, a') && t.pc == PostScan(q)
    decreases |rows|
  {
    hide Reaches, LoopsPlaced, QueryOk, LeafList.Remaining, LeafList.On, Seen, ScanInner, OpenOn;
    t := OuterTurn(lib, prog, q, ls, inner, s, a);
    var a' := ScanInner(lib, q, [Some(rows[0])], Seen(inner), a);
    if a'.stop.None? && |rows| > 1 {
      var u := t;
      t := OuterRuns(lib, prog, q, ls, inner, rows[1..], u, a');
      ReachThen(lib, prog, s, u, t);
    }
  }

  // ---- The scan ------------------------------------------------------------------------------------------

  /** The cursors after the first `n` tables have been opened. */
  function OpenCursors(q: Query, n: nat): map<int, CursorState>
    requires n <= |q.tables|
  {
    if n == 0 then map[]
    else OpenCursors(q, n - 1)[n - 1 := CursorState(Lower(q.tables[n - 1].name), LeafList.Start())]
  }

  lemma {:induction false} OpenCursorsAt(q: Query, n: nat, i: nat)
    requires i < n <= |q.tables|
    ensures i in OpenCursors(q, n) && OpenCursors(q, n)[i] == CursorState(Lower(q.tables[i].name), LeafList.Start())
  {
    if i < n - 1 { OpenCursorsAt(q, n - 1, i); }
  }

  const SELECT_REGISTERS := 32

  /** The machine of a SELECT before its first step. */
  function Fresh(tables: map<string, Table>): State { Start(tables, SELECT_REGISTERS) }

  lemma {:induction false} OpensRun(lib: Lib, prog: seq<Insn>, q: Query, n: nat, tables: map<string, Table>)
    requires n <= |q.tables| && Placed(prog, 0, HeadCode(q)) && forall b | b in q.tables :: Lower(b.name) in tables
    ensures Reaches(lib, prog, Fresh(tables), Fresh(tables).(pc := n + 1, cursors := OpenCursors(q, n)))
  {
    hide Reaches, Calc, ExecMove, ExecChange, ExecBuffer;
    if n == 0 {
      assert prog[0] == HeadCode(q)[0];
      ReachStep(lib, prog, Fresh(tables));
    } else {
      OpensRun(lib, prog, q, n - 1, tables);
      var s := Fresh(tables).(pc := n, cursors := OpenCursors(q, n - 1));
      OpenInsnAt(q, |q.tables|, n - 1);
      assert prog[n] == HeadCode(q)[n];
      ReachStep(lib, prog, s);
      ReachThen(lib, prog, Fresh(tables), s, Step(lib, prog, s));
    }
  }

  lemma {:induction false} OpenInsnAt(q: Query, n: nat, i: nat)
    requires i < n <= |q.tables|
    ensures OpenCode(q, n)[i] == Op(Opcode.OpenRead, i, 0, 0).(p4 := Name(q.tables[i].name))
  {
    if i < n - 1 { OpenInsnAt(q, n - 1, i); }
  }

  /** The tables of the query are there, each with at least one leaf, and there are at most two of them. */
  ghost predicate Scannable(q: Query, tables: map<string, Table>) {
    |q.tables| <= 2 && forall b | b in q.tables :: Lower(b.name) in tables && tables[Lower(b.name)] != []
  }

  lemma SelectParts(q: Query)
    ensures Placed(SelectCode(q), 0, HeadCode(q)) && LoopsPlaced(SelectCode(q), q)
    ensures Placed(SelectCode(q), PostScan(q), FinishCode(q, PostScan(q)))
  {
    hide VisitCode, OpenCode, FinishCode, RewindCode, NextCode;
    var prog, l := SelectCode(q), RewindCode(q) + VisitCode(q, Next(q)) + NextCode(q);
    LoopSize(q);
    assert prog == HeadCode(q) + l + FinishCode(q, PostScan(q));
    assert prog[0..|HeadCode(q)|] == HeadCode(q);
    assert prog[OuterRewind(q)..OuterRewind(q) + |l|] == l;
  }

  lemma LoopSize(q: Query)
    ensures OuterRewind(q) + |RewindCode(q) + VisitCode(q, Next(q)) + NextCode(q)| == PostScan(q)
  {
    hide VisitCode;
    VisitPatched(q, [], Next(q));
  }

  /** From the first step to the end of all loops. */
  lemma ScanRuns(lib: Lib, q: Query, tables: map<string, Table>) returns (t: State)
    requires QueryOk(q) && Scannable(q, tables)
    ensures Reaches(lib, SelectCode(q), Fresh(tables), t) && Frame(q, Fresh(tables), t)
    ensures var a := ScanAll(lib, q, tables); if a.stop.Some? then Stopped(q, t, a) else Matches(q, t, a) && t.pc == PostScan(q)
  {
    hide Reaches, Placed, LoopsPlaced, LeafList.On, LeafList.Remaining, Visit, OpenCode, SelectCode, ScanInner, ScanJoin, Seen, SourcesOk;
    var prog, n := SelectCode(q), |q.tables|;
    SelectParts(q);
    OpensRun(lib, prog, q, n, tables);
    LoopParts(prog, q);
    var s := Fresh(tables).(pc := n + 1, cursors := OpenCursors(q, n));
    OpenCursorsAt(q, n, 0);
    var ls := tables[Lower(q.tables[0].name)];
    t := RewindRuns(lib, prog, q, 0, PostScan(q), ls, s);
    ReachThen(lib, prog, Fresh(tables), s, t);
    if Seen(ls) == [] {
      NothingScanned(lib, q, tables);
    } else {
      var u := t;
      if Joins(q) {
        OpenCursorsAt(q, n, 1);
        t := OuterRuns(lib, prog, q, ls, tables[Lower(q.tables[1].name)], Seen(ls), u, Acc(Value.Null, [], None));
      } else {
        t := InnerRuns(lib, prog, q, [], Top(q), ls, Seen(ls), u, Acc(Value.Null, [], None));
      }
      ReachThen(lib, prog, Fresh(tables), u, t);
    }
  }

  lemma NothingScanned(lib: Lib, q: Query, tables: map<string, Table>)
    requires q.tables != [] && Seen(TableOf(tables, q.tables[0])) == []
    ensures ScanAll(lib, q, tables) == Acc(Value.Null, [], None)
  {
    hide Seen;
  }

  // ---- Behind the scan -----------------------------------------------------------------------------------

  function GroupedBuffer(lib: Lib, q: Query, rows: seq<Row>): seq<Row> {
    if q.plan.aggregated then Grouping.GroupRows(lib, q.plan.group, rows) else rows
  }

  /** The buffer when it is emptied. */
  function Arranged(lib: Lib, q: Query, rows: seq<Row>): seq<Row> {
    var g := GroupedBuffer(lib, q, rows);
    if q.ordered then SortRows(lib, q.plan.sortKeys, g) else g
  }

  predicate AllWide(rows: seq<Row>, w: nat) { forall i | 0 <= i < |rows| :: |rows[i]| >= w }

  /** The first `w` values of each row. */
  function Shown(rows: seq<Row>, w: nat): (r: seq<Row>)
    requires AllWide(rows, w)
    ensures |r| == |rows|
  { seq(|rows|, i requires 0 <= i < |rows| => rows[i][..w]) }

  /** Grouped rows have a value for every column of the select list. */
  predicate Wide(q: Query) { q.plan.aggregated ==> q.plan.outputWidth <= |q.plan.group.keys| + |q.plan.group.aggs| }

  /** They have, exactly if the select list has no more plain columns than the query has GROUP BY terms. */
  lemma WideIff(select: Select, cat: Catalog)
    requires Prepare(select, cat).Ok?
    ensures var q := Prepare(select, cat).value;
            Wide(q) <==> (q.plan.aggregated ==> |select.columns| - Calls(select.columns) <= |select.groupBy|)
  {
    hide BindTables, Calls;
    var b := BindTables(select.from.value, cat).value;
    assert Prepare(select, cat).value.plan == BuildPlan(select, cat, b.0).value;
    hide BuildPlan;
  }

  lemma {:induction false} SortMembers(lib: Lib, keys: seq<SortKey>, rows: seq<Row>, w: nat)
    requires forall i | 0 <= i < |rows| :: |rows[i]| >= w
    ensures forall i | 0 <= i < |rows| :: |SortRows(lib, keys, rows)[i]| >= w
  {
    SortPermutes(lib, keys, rows);
    var s := SortRows(lib, keys, rows);
    forall i | 0 <= i < |rows| ensures |s[i]| >= w {
      assert s[i] in multiset(s);
      assert s[i] in rows;
    }
  }

  lemma GroupWidth(lib: Lib, spec: GroupSpec, rows: seq<Row>)
    requires Walks(lib)
    ensures forall i | 0 <= i < |Grouping.GroupRows(lib, spec, rows)| :: |Grouping.GroupRows(lib, spec, rows)[i]| == |spec.keys| + |spec.aggs|
  {
    var m := Grouping.GroupsOf(lib, spec, rows);
    var order := lib.hashOrder(m.Keys);
    assert multiset(order) == multiset(m.Keys);
    forall i | 0 <= i < |order| ensures order[i] in m && |m[order[i]].0| == |spec.keys| {
      assert order[i] in multiset(order);
      Grouping.GroupIsMembers(lib, spec, rows, order[i]);
    }
  }

  lemma ArrangedWide(lib: Lib, q: Query, rows: seq<Row>)
    requires QueryOk(q) && Wide(q) && Walks(lib) && forall i | 0 <= i < |rows| :: |rows[i]| == |q.plan.sources|
    ensures AllWide(Arranged(lib, q, rows), q.plan.outputWidth)
  {
    hide Grouping.GroupRows, SortRows, SourcesOk;
    if q.plan.aggregated { GroupWidth(lib, q.plan.group, rows); }
    var g := if q.plan.aggregated then Grouping.GroupRows(lib, q.plan.group, rows) else rows;
    if q.ordered { SortMembers(lib, q.plan.sortKeys, g, q.plan.outputWidth); }
  }

  lemma {:induction false} InnerWidth(lib: Lib, q: Query, outer: View, rows: seq<LP.Cell>, a: Acc)
    requires forall i | 0 <= i < |a.rows| :: |a.rows[i]| == |q.plan.sources|
    ensures forall i | 0 <= i < |ScanInner(lib, q, outer, rows, a).rows| :: |ScanInner(lib, q, outer, rows, a).rows[i]| == |q.plan.sources|
    decreases |rows|
  {
    hide Passes, LoadValues;
    if rows != [] && a.stop.None? { InnerWidth(lib, q, outer, rows[1..], Visit(lib, q, outer + [Some(rows[0])], a)); }
  }

  lemma {:induction false} JoinWidth(lib: Lib, q: Query, rows: seq<LP.Cell>, inner: seq<LP.Cell>, a: Acc)
    requires forall i | 0 <= i < |a.rows| :: |a.rows[i]| == |q.plan.sources|
    ensures forall i | 0 <= i < |ScanJoin(lib, q, rows, inner, a).rows| :: |ScanJoin(lib, q, rows, inner, a).rows[i]| == |q.plan.sources|
    decreases |rows|
  {
    hide ScanInner;
    if rows != [] && a.stop.None? {
      InnerWidth(lib, q, [Some(rows[0])], inner, a);
      JoinWidth(lib, q, rows[1..], inner, ScanInner(lib, q, [Some(rows[0])], inner, a));
    }
  }

  lemma ScanWidth(lib: Lib, q: Query, tables: map<string, Table>)
    requires q.tables != []
    ensures var rows := ScanAll(lib, q, tables).rows; forall i | 0 <= i < |rows| :: |rows[i]| == |q.plan.sources|
  {
    hide ScanInner, ScanJoin, Seen;
    var start := Acc(Value.Null, [], None);
    if Joins(q) { JoinWidth(lib, q, Seen(TableOf(tables, q.tables[0])), Seen(TableOf(tables, q.tables[1])), start); }
    else { InnerWidth(lib, q, [], Seen(TableOf(tables, q.tables[0])), start); }
  }

  lemma LoadNext(lib: Lib, prog: seq<Insn>, w: nat, target: nat, s: State) returns (t: State)
    requires s.status == Running && s.index < |s.buffer| && s.pc < |prog| && prog[s.pc] == Op(Opcode.BufferNext, 0, target, 0)
    requires |s.buffer[s.index]| >= w
    ensures Reaches(lib, prog, s, t) && t == s.(pc := s.pc + 1, regs := t.regs, index := s.index + 1)
    ensures Regs(t.regs, 0, w) == s.buffer[s.index][..w]
  {
    hide Reaches, Calc, ExecControl, ExecChange, ExecMove;
    t := Step(lib, prog, s);
    ReachStep(lib, prog, s);
  }

  lemma EmitRow(lib: Lib, prog: seq<Insn>, w: nat, top: nat, s: State) returns (t: State)
    requires s.status == Running && s.pc + 1 < |prog|
    requires prog[s.pc] == Op(Opcode.ResultRow, w, 0, 0) && prog[s.pc + 1] == Op(Opcode.Goto, 0, top, 0)
    ensures Reaches(lib, prog, s, t) && t == s.(pc := top, out := s.out + [Regs(s.regs, 0, w)])
  {
    hide Reaches, Calc, ExecMove, ExecChange, ExecBuffer;
    var u := Step(lib, prog, s);
    t := Step(lib, prog, u);
    ReachStep(lib, prog, s);
    ReachStep(lib, prog, u);
    ReachThen(lib, prog, s, u, t);
  }

  /** One row of the buffer: loaded, emitted, and back to the top of the loop. */
  lemma DrainTurn(lib: Lib, prog: seq<Insn>, q: Query, at: nat, s: State) returns (t: State)
    requires Buffered(q) && Placed(prog, at, DrainCode(q, at)) && s.status == Running && s.pc == at + 1 && s.index < |s.buffer|
    requires |s.buffer[s.index]| >= q.plan.outputWidth
    ensures Reaches(lib, prog, s, t)
    ensures t == s.(regs := t.regs, index := s.index + 1, out := s.out + [s.buffer[s.index][..q.plan.outputWidth]])
  {
    hide Reaches, Placed, Regs;
    DrainParts(prog, q, at);
    var u := LoadNext(lib, prog, q.plan.outputWidth, at + 4, s);
    t := EmitRow(lib, prog, q.plan.outputWidth, at + 1, u);
    ReachThen(lib, prog, s, u, t);
  }

  /** The loop over the buffer from its top, `BufferNext`, on. */
  lemma {:induction false} DrainRuns(lib: Lib, prog: seq<Insn>, q: Query, at: nat, s: State) returns (t: State)
    requires Buffered(q) && Placed(prog, at, DrainCode(q, at)) && s.status == Running && s.pc == at + 1 && s.index <= |s.buffer|
    requires AllWide(s.buffer, q.plan.outputWidth)
    ensures Reaches(lib, prog, s, t) && t.status == Running && t.pc == at + 4 && t.tables == s.tables && t.changes == s.changes
    ensures t.out == s.out + Shown(s.buffer, q.plan.outputWidth)[s.index..]
    decreases |s.buffer| - s.index
  {
    hide Reaches, Placed, DrainCode, Step;
    if s.index < |s.buffer| {
      var u := DrainTurn(lib, prog, q, at, s);
      t := DrainRuns(lib, prog, q, at, u);
      ReachThen(lib, prog, s, u, t);
      var all := Shown(s.buffer, q.plan.outputWidth);
      assert all[s.index..] == [all[s.index]] + all[s.index + 1..];
    } else {
      t := DrainEnds(lib, prog, q, at, s);
    }
  }

  lemma DrainEnds(lib: Lib, prog: seq<Insn>, q: Query, at: nat, s: State) returns (t: State)
    requires Buffered(q) && Placed(prog, at, DrainCode(q, at)) && s.status == Running && s.pc == at + 1 && s.index >= |s.buffer|
    ensures Reaches(lib, prog, s, t) && t == s.(pc := at + 4)
  {
    hide Reaches, Calc, ExecControl, ExecChange, ExecMove;
    DrainParts(prog, q, at);
    t := Step(lib, prog, s);
    ReachStep(lib, prog, s);
  }

  lemma DrainParts(prog: seq<Insn>, q: Query, at: nat)
    requires Buffered(q) && Placed(prog, at, DrainCode(q, at))
    ensures at + 4 <= |prog|
    ensures prog[at] == DrainCode(q, at)[0] && prog[at + 1] == DrainCode(q, at)[1] && prog[at + 2] == DrainCode(q, at)[2] && prog[at + 3] == DrainCode(q, at)[3]
  {
    var d := prog[at..at + 4];
    assert d[0] == prog[at] && d[1] == prog[at + 1] && d[2] == prog[at + 2] && d[3] == prog[at + 3];
  }

  lemma GroupRuns(lib: Lib, prog: seq<Insn>, q: Query, s: State) returns (t: State)
    requires Placed(prog, s.pc, GroupCode(q)) && s.status == Running
    ensures Reaches(lib, prog, s, t)
    ensures t == s.(pc := s.pc + |GroupCode(q)|, buffer := GroupedBuffer(lib, q, s.buffer), index := if q.plan.aggregated then 0 else s.index)
  {
    hide Reaches, Placed, Grouping.GroupRows, Calc, ExecControl, ExecChange, ExecMove;
    t := s;
    if q.plan.aggregated {
      PlacedStep(prog, s.pc, GroupCode(q));
      t := Step(lib, prog, s);
      ReachStep(lib, prog, s);
    } else {
      ReachSelf(lib, prog, s);
    }
  }

  lemma SortRuns(lib: Lib, prog: seq<Insn>, q: Query, s: State) returns (t: State)
    requires Placed(prog, s.pc, SortCode(q)) && s.status == Running
    ensures Reaches(lib, prog, s, t)
    ensures t == s.(pc := s.pc + |SortCode(q)|, buffer := if q.ordered then SortRows(lib, q.plan.sortKeys, s.buffer) else s.buffer)
  {
    hide Reaches, Placed, SortRows, Calc, ExecControl, ExecChange, ExecMove;
    t := s;
    if q.ordered {
      PlacedStep(prog, s.pc, SortCode(q));
      t := Step(lib, prog, s);
      ReachStep(lib, prog, s);
    } else {
      ReachSelf(lib, prog, s);
    }
  }

  /** Grouping and sorting, as far as the query has them. */
  lemma ArrangeRuns(lib: Lib, prog: seq<Insn>, q: Query, s: State) returns (t: State)
    requires Placed(prog, s.pc, GroupCode(q) + SortCode(q)) && s.status == Running
    ensures Reaches(lib, prog, s, t)
    ensures t == s.(pc := s.pc + |GroupCode(q)| + |SortCode(q)|, buffer := Arranged(lib, q, s.buffer), index := if q.plan.aggregated then 0 else s.index)
  {
    hide Reaches, Placed, GroupCode, SortCode, SortRows, Grouping.GroupRows;
    PlacedConcat(prog, s.pc, GroupCode(q), SortCode(q));
    var u := GroupRuns(lib, prog, q, s);
    t := SortRuns(lib, prog, q, u);
    ReachThen(lib, prog, s, u, t);
  }

  /** The buffer emptied, if there is one. */
  lemma DrainAll(lib: Lib, prog: seq<Insn>, q: Query, s: State) returns (t: State)
    requires Placed(prog, s.pc, DrainCode(q, s.pc)) && s.status == Running
    requires Buffered(q) ==> AllWide(s.buffer, q.plan.outputWidth)
    ensures Reaches(lib, prog, s, t) && t.status == Running && t.pc == s.pc + |DrainCode(q, s.pc)| && t.tables == s.tables && t.changes == s.changes
    ensures t.out == s.out + if Buffered(q) then Shown(s.buffer, q.plan.outputWidth) else []
  {
    hide Reaches, Calc, ExecControl, ExecChange, ExecMove;
    t := s;
    ReachSelf(lib, prog, s);
    if Buffered(q) {
      DrainParts(prog, q, s.pc);
      hide Placed;
      t := Step(lib, prog, s);
      ReachStep(lib, prog, s);
      if s.buffer != [] {
        var u := t;
        t := DrainRuns(lib, prog, q, s.pc, u);
        ReachThen(lib, prog, s, u, t);
      }
    }
  }

  lemma FinishRuns(lib: Lib, prog: seq<Insn>, q: Query, s: State) returns (t: State)
    requires Placed(prog, s.pc, FinishCode(q, s.pc)) && s.status == Running
    requires Buffered(q) ==> AllWide(Arranged(lib, q, s.buffer), q.plan.outputWidth)
    ensures Reaches(lib, prog, s, t) && t.status == Done && t.tables == s.tables && t.changes == s.changes
    ensures t.out == s.out + if Buffered(q) then Shown(Arranged(lib, q, s.buffer), q.plan.outputWidth) else []
  {
    hide Reaches, Placed, DrainCode, GroupCode, SortCode, Arranged, Shown, Calc, ExecMove, ExecChange, ExecBuffer;
    var gs := GroupCode(q) + SortCode(q);
    var at := s.pc + |GroupCode(q)| + |SortCode(q)|;
    PlacedConcat(prog, s.pc, gs + DrainCode(q, at), [Op(Opcode.Halt, 0, 0, 0)]);
    PlacedConcat(prog, s.pc, gs, DrainCode(q, at));
    var u := ArrangeRuns(lib, prog, q, s);
    t := DrainAll(lib, prog, q, u);
    ReachThen(lib, prog, s, u, t);
    u := t;
    PlacedStep(prog, u.pc, [Op(Opcode.Halt, 0, 0, 0)]);
    t := Step(lib, prog, u);
    ReachStep(lib, prog, u);
    ReachThen(lib, prog, s, u, t);
  }

  // ---- The whole statement -------------------------------------------------------------------------------

  /** The rows a SELECT gives, once its scan has gone through. */
  function Answer(lib: Lib, q: Query, rows: seq<Row>): seq<Row>
    requires AllWide(Arranged(lib, q, rows), q.plan.outputWidth)
  { if Buffered(q) then Shown(Arranged(lib, q, rows), q.plan.outputWidth) else rows }

  /** A compiled SELECT, run from its first instruction, halts with exactly the rows of its scan,
      arranged, and with no table changed; an evaluation that fails stops it with the rows before. */
  lemma SelectRuns(lib: Lib, q: Query, tables: map<string, Table>) returns (t: State)
    requires QueryOk(q) && Wide(q) && Walks(lib) && Scannable(q, tables)
    ensures Reaches(lib, SelectCode(q), Fresh(tables), t) && t.tables == tables && t.changes == 0
    ensures var a := ScanAll(lib, q, tables);
            match a.stop
            case Some(e) => t.status == Failed(e) && t.out == if Buffered(q) then [] else a.rows
            case None =>
              && t.status == Done && AllWide(Arranged(lib, q, a.rows), q.plan.outputWidth)
              && t.out == Answer(lib, q, a.rows)
  {
    hide Reaches, SelectCode, FinishCode, Arranged, Shown, SourcesOk, ScanAll, Placed, Wide;
    var prog, a := SelectCode(q), ScanAll(lib, q, tables);
    t := ScanRuns(lib, q, tables);
    ScanWidth(lib, q, tables);
    if a.stop.None? {
      SelectParts(q);
      var u := t;
      ArrangedWide(lib, q, a.rows);
      t := FinishRuns(lib, prog, q, u);
      ReachThen(lib, prog, Fresh(tables), u, t);
    }
  }
}
