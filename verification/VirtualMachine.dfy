/** The virtual machine (vdbe/exec.rs) as a state and its steps. */
module VirtualMachine {
  import opened Bytes
  import opened Values
  import opened Program
  import opened SortGroup
  import opened LeafPage
  import opened Names
  import LeafList
  import Record
  import Grouping

  // ---- State --------------------------------------------------------------------------------

  /** A table as its cursor sees it: the cells of its leaves. */
  type Table = seq<seq<Cell>>

  type Cur = LeafList.Cursor<Cell>

  datatype CursorState = CursorState(table: string, cur: Cur)

  datatype Status = Running | Done | Failed(error: Error)

  datatype State = State(
    status: Status,
    pc: nat,
    regs: seq<Value>,
    cursors: map<int, CursorState>,
    tables: map<string, Table>,
    buffer: seq<Row>,
    index: nat,
    changes: nat,
    out: seq<Row>)

  /** `get_reg`: a register not yet there reads as null. */
  function Reg(regs: seq<Value>, i: int): Value { if 0 <= i < |regs| then regs[i] else Value.Null }

  /** `set_reg`: the register file grows as needed. */
  function SetReg(regs: seq<Value>, i: nat, v: Value): (r: seq<Value>)
    ensures forall j: int :: Reg(r, j) == if j == i then v else Reg(regs, j)
  {
    (if i < |regs| then regs else regs + seq(i + 1 - |regs|, _ => Value.Null))[i := v]
  }

  /** Registers `from..from + n`. */
  function Regs(regs: seq<Value>, from: int, n: nat): (r: Row)
    ensures |r| == n
    ensures forall i | 0 <= i < n :: r[i] == Reg(regs, from + i)
  { seq(n, i => Reg(regs, from + i)) }

  // ---- Instructions that only compute -----------------------------------------------------

  predicate Operator(op: Opcode) {
    op in {Opcode.Add, Opcode.Subtract, Opcode.Multiply, Opcode.Divide, Opcode.Remainder, Opcode.Concat, Opcode.And, Opcode.Or,
           Opcode.Not, Opcode.Eq, Opcode.Ne, Opcode.Lt, Opcode.Le, Opcode.Gt, Opcode.Ge}
  }

  predicate Calculates(op: Opcode) {
    Operator(op) || op in {Opcode.Column, Opcode.Rowid, Opcode.MakeRecord, Opcode.Null, Opcode.Integer, Opcode.Real, Opcode.String}
  }

  function Bool(b: bool): Value { Value.Integer(if b then 1 else 0) }

  /** Taken for true by IfNot, And, Or and Not. */
  predicate Truthy(lib: Lib, v: Value) { !v.Null? && AsInteger(lib, v) != None && AsInteger(lib, v) != Some(0) }

  function RealOf(lib: Lib, v: Value): u64 { match AsReal(lib, v) { case Some(x) => x case None => lib.zero } }

  function IntOf(lib: Lib, v: Value): i64 { match AsInteger(lib, v) { case Some(x) => x case None => 0 } }

  /** `%` of the source: the sign follows the dividend; a zero divisor and the one overflow stop the program. */
  function Modulo(a: i64, b: i64): Result<Value> {
    if b == 0 || (a == -TWO63 && b == -1) then Err(Other)
    else
      var x: int, y: int := if a < 0 then -(a as int) else a, if b < 0 then -(b as int) else b;
      var r := x % y;
      Ok(Value.Integer(if a < 0 then -r else r))
  }

  /** The tests as the machine has them: Le and Ge are exchanged. */
  predicate Test(op: Opcode, o: Ordering) {
    match op
    case Eq => o == Equal
    case Ne => o != Equal
    case Lt => o == Less
    case Le => o != Less
    case Gt => o == Greater
    case Ge => o != Greater
    case _ => false
  }

  /** The value of an operator on two registers. */
  function Operate(lib: Lib, op: Opcode, a: Value, b: Value): Result<Value> {
    match op
    case Add => Ok(Value.Real(lib.add(RealOf(lib, a), RealOf(lib, b))))
    case Subtract => Ok(Value.Real(lib.subtract(RealOf(lib, a), RealOf(lib, b))))
    case Multiply => Ok(Value.Real(lib.multiply(RealOf(lib, a), RealOf(lib, b))))
    case Divide => Ok(Value.Real(lib.divide(RealOf(lib, a), RealOf(lib, b))))
    case Remainder => Modulo(IntOf(lib, a), IntOf(lib, b))
    case Concat => Ok(Value.Text(ToText(lib, a) + ToText(lib, b)))
    case And => Ok(Bool(!a.Null? && !b.Null? && Truthy(lib, a) && Truthy(lib, b)))
    case Or => Ok(Bool(!a.Null? && !b.Null? && (Truthy(lib, a) || Truthy(lib, b))))
    case Not => Ok(Bool(!Truthy(lib, a)))
    case _ => Ok(Bool(Test(op, Compare(lib, a, b))))
  }

  /** `cursor.values()`. */
  function RowValues(lib: Lib, current: Option<Cell>): Result<Row> {
    match current
    case None => Ok([])
    case Some(cell) =>
      match Record.Decode(lib, cell.payload)
      case Ok(d) => Ok(d.0)
      case Err(e) => Err(e)
  }

  /** The registers after an instruction that only computes. A negative destination, which no compiler
      emits, is an error here. */
  function Calc(lib: Lib, insn: Insn, regs: seq<Value>, cursors: map<int, CursorState>): Result<seq<Value>>
    requires Calculates(insn.op)
  {
    var dest := if insn.op == Opcode.MakeRecord then insn.p3 else insn.p1;
    if dest < 0 then Err(Other)
    else if Operator(insn.op) then
      var v :- Operate(lib, insn.op, Reg(regs, insn.p2), Reg(regs, insn.p3));
      Ok(SetReg(regs, dest, v))
    else
      match insn.op
      case Null => Ok(SetReg(regs, dest, Value.Null))
      case Integer => if -TWO63 <= insn.p2 < TWO63 then Ok(SetReg(regs, dest, Value.Integer(insn.p2))) else Err(Other)
      case Real => Ok(if insn.p4.Float? then SetReg(regs, dest, Value.Real(insn.p4.bits)) else regs)
      case String => Ok(if insn.p4.Str? then SetReg(regs, dest, Value.Text(insn.p4.s)) else regs)
      case Column =>
        if insn.p2 !in cursors then Ok(regs)
        else
          var values :- RowValues(lib, cursors[insn.p2].cur.current);
          Ok(SetReg(regs, dest, Reg(values, insn.p3)))
      case Rowid =>
        if insn.p2 !in cursors || cursors[insn.p2].cur.current == None then Ok(regs)
        else
          var key := cursors[insn.p2].cur.current.value.key;
          if key < TWO63 then Ok(SetReg(regs, dest, Value.Integer(key))) else Err(Other)
      case MakeRecord => Ok(SetReg(regs, dest, Value.Blob(Record.Encode(Regs(regs, insn.p2, if insn.p1 < 0 then 0 else insn.p1)))))
      case _ => Ok(regs)
  }

  // ---- All instructions -------------------------------------------------------------------------

  function Jump(s: State, target: int): State { if target < 0 then s.(status := Done) else s.(pc := target) }

  function Fail(s: State, e: Error): State { s.(status := Failed(e)) }

  /** The leaves after a row has been overwritten or taken out, wherever it stands. */
  function Replaced(t: Table, key: int, payload: seq<byte>): (r: Table)
    ensures |r| == |t|
  { seq(|t|, i requires 0 <= i < |t| => ReplaceKey(t[i], key, payload)) }

  function Removed(t: Table, key: int): (r: Table)
    ensures |r| == |t|
  { seq(|t|, i requires 0 <= i < |t| => RemoveKey(t[i], key)) }

  /** `insert` with its replace flag set: the row is there, and its leaf has room. */
  function StoreRow(s: State, insn: Insn): State {
    if insn.p2 !in s.cursors then s
    else
      var rowid, record := Reg(s.regs, insn.p3), Reg(s.regs, insn.p1);
      var name := s.cursors[insn.p2].table;
      if !rowid.Integer? then Fail(s, Mismatch)
      else if !record.Blob? || insn.p5 == 0 || name !in s.tables then Fail(s, Other)
      else s.(tables := s.tables[name := Replaced(s.tables[name], rowid.i, record.b)], changes := s.changes + 1)
  }

  function DeleteRow(s: State, insn: Insn): State {
    if insn.p2 !in s.cursors || s.cursors[insn.p2].cur.current == None then s
    else
      var name, key := s.cursors[insn.p2].table, s.cursors[insn.p2].cur.current.value.key;
      if name !in s.tables then Fail(s, Other)
      else s.(tables := s.tables[name := Removed(s.tables[name], key)], changes := s.changes + 1)
  }

  /** The leaves under an open cursor. */
  function Leaves(cursors: map<int, CursorState>, tables: map<string, Table>, c: int): Table
    requires c in cursors
  { if cursors[c].table in tables then tables[cursors[c].table] else [] }

  function Moved(s: State, c: int, cur: Cur): State
    requires c in s.cursors
  { s.(cursors := s.cursors[c := s.cursors[c].(cur := cur)]) }

  predicate MovesCursor(op: Opcode) { op in {Opcode.Rewind, Opcode.Last, Opcode.Count} }

  predicate ChangesTable(op: Opcode) { op in {Opcode.Insert, Opcode.Delete} }

  predicate UsesBuffer(op: Opcode) { op in {Opcode.RowData, Opcode.GroupBy, Opcode.Sort, Opcode.BufferRewind, Opcode.BufferNext} }

  /** The instructions about cursors. */
  function ExecMove(insn: Insn, s: State): State {
    match insn.op
    case Rewind =>
      if insn.p1 !in s.cursors then s
      else
        var f := LeafList.First(Leaves(s.cursors, s.tables, insn.p1), s.cursors[insn.p1].cur);
        var s' := Moved(s, insn.p1, f.1);
        if f.0 then s' else Jump(s', insn.p2)
    case Last =>
      if insn.p1 !in s.cursors then s
      else
        var n := LeafList.Next(Leaves(s.cursors, s.tables, insn.p1), s.cursors[insn.p1].cur);
        var s' := Moved(s, insn.p1, n.1);
        if n.0 then Jump(s', insn.p2) else s'
    case _ =>
      if insn.p2 !in s.cursors || insn.p1 < 0 then s
      else
        var n := |LeafList.Flat(LeafList.Visible(Leaves(s.cursors, s.tables, insn.p2)))|;
        if n < TWO63 then s.(regs := SetReg(s.regs, insn.p1, Value.Integer(n))) else Fail(s, Other)
  }

  /** The instructions that change a table. */
  function ExecChange(insn: Insn, s: State): State {
    if insn.op == Opcode.Insert then StoreRow(s, insn) else DeleteRow(s, insn)
  }

  /** The instructions about the row buffer. */
  function ExecBuffer(lib: Lib, insn: Insn, s: State): State {
    match insn.op
    case RowData => s.(buffer := s.buffer + [Regs(s.regs, 0, if insn.p1 < 0 then 0 else insn.p1)])
    case GroupBy => if insn.p4.Groups? then s.(buffer := Grouping.GroupRows(lib, insn.p4.spec, s.buffer), index := 0) else s
    case Sort => if insn.p4.SortKeys? then s.(buffer := SortGroup.SortRows(lib, insn.p4.keys, s.buffer)) else s
    case BufferRewind => if s.buffer == [] then Jump(s.(index := 0), insn.p2) else s.(index := 0)
    case _ =>
      if s.index >= |s.buffer| then Jump(s, insn.p2)
      else s.(regs := Overlaid(s.buffer[s.index], s.regs), index := s.index + 1)
  }

  /** Starting, stopping, jumping, opening and giving out a row. */
  function ExecControl(lib: Lib, insn: Insn, s: State): State {
    match insn.op
    case Halt => s.(status := Done)
    case Goto => Jump(s, insn.p2)
    case IfNot => if Truthy(lib, Reg(s.regs, insn.p1)) then s else Jump(s, insn.p2)
    case OpenRead => Opened(s, insn)
    case OpenWrite => Opened(s, insn)
    case ResultRow => s.(out := s.out + [Regs(s.regs, 0, if insn.p1 < 0 then 0 else insn.p1)])
    case _ => s
  }

  /** One instruction; the program counter already points behind it. */
  function Exec(lib: Lib, insn: Insn, s: State): State {
    if Calculates(insn.op) then
      match Calc(lib, insn, s.regs, s.cursors) { case Ok(regs) => s.(regs := regs) case Err(e) => Fail(s, e) }
    else if MovesCursor(insn.op) then ExecMove(insn, s)
    else if ChangesTable(insn.op) then ExecChange(insn, s)
    else if UsesBuffer(insn.op) then ExecBuffer(lib, insn, s)
    else ExecControl(lib, insn, s)
  }

  function Opened(s: State, insn: Insn): State {
    if !insn.p4.Name? then Fail(s, Other)
    else if Lower(insn.p4.name) !in s.tables then Fail(s, Other)
    else s.(cursors := s.cursors[insn.p1 := CursorState(Lower(insn.p4.name), LeafList.Start())])
  }

  /** The register file with `row` in its first registers. */
  function Overlaid(row: Row, regs: seq<Value>): (r: seq<Value>)
    ensures forall j: int :: Reg(r, j) == if 0 <= j < |row| then row[j] else Reg(regs, j)
  { if |row| >= |regs| then row else row + regs[|row|..] }

  /** A machine before its first step (`Vdbe::new`). */
  function Start(tables: map<string, Table>, nReg: nat): State {
    State(Running, 0, seq(nReg, _ => Value.Null), map[], tables, [], 0, 0, [])
  }

  // ---- Runs ------------------------------------------------------------------------------------------

  function Step(lib: Lib, prog: seq<Insn>, s: State): State {
    if s.status != Running then s
    else if s.pc >= |prog| then s.(status := Done)
    else Exec(lib, prog[s.pc], s.(pc := s.pc + 1))
  }

  function Iter(lib: Lib, prog: seq<Insn>, s: State, n: nat): State
    decreases n
  {
    if n == 0 then s else Iter(lib, prog, Step(lib, prog, s), n - 1)
  }

  ghost predicate Reaches(lib: Lib, prog: seq<Insn>, s: State, t: State) {
    exists n: nat :: Iter(lib, prog, s, n) == t
  }

  lemma {:induction false} IterAdd(lib: Lib, prog: seq<Insn>, s: State, n: nat, m: nat)
    ensures Iter(lib, prog, s, n + m) == Iter(lib, prog, Iter(lib, prog, s, n), m)
    decreases n
  {
    hide Step;
    if n > 0 { IterAdd(lib, prog, Step(lib, prog, s), n - 1, m); }
  }

  lemma ReachSelf(lib: Lib, prog: seq<Insn>, s: State)
    ensures Reaches(lib, prog, s, s)
  {
    assert Iter(lib, prog, s, 0) == s;
  }

  lemma ReachStep(lib: Lib, prog: seq<Insn>, s: State)
    ensures Reaches(lib, prog, s, Step(lib, prog, s))
  {
    hide Step;
    assert Iter(lib, prog, s, 1) == Iter(lib, prog, Step(lib, prog, s), 0);
  }

  lemma ReachThen(lib: Lib, prog: seq<Insn>, s: State, t: State, u: State)
    requires Reaches(lib, prog, s, t) && Reaches(lib, prog, t, u)
    ensures Reaches(lib, prog, s, u)
  {
    hide Iter;
    var n: nat :| Iter(lib, prog, s, n) == t;
    var m: nat :| Iter(lib, prog, t, m) == u;
    IterAdd(lib, prog, s, n, m);
    assert Iter(lib, prog, s, n + m) == u;
  }

  // ---- Stretches of code that only compute ---------------------------------------------------------

  predicate Straight(code: seq<Insn>) { forall i | 0 <= i < |code| :: Calculates(code[i].op) }

  /** The registers after a stretch of such code. */
  function RunCalc(lib: Lib, code: seq<Insn>, regs: seq<Value>, cursors: map<int, CursorState>): Result<seq<Value>>
    requires Straight(code)
  {
    if code == [] then Ok(regs)
    else
      var r :- Calc(lib, code[0], regs, cursors);
      RunCalc(lib, code[1..], r, cursors)
  }

  lemma {:induction false} RunCalcConcat(lib: Lib, a: seq<Insn>, b: seq<Insn>, regs: seq<Value>, cursors: map<int, CursorState>)
    requires Straight(a) && Straight(b)
    ensures Straight(a + b)
    ensures RunCalc(lib, a + b, regs, cursors) ==
              match RunCalc(lib, a, regs, cursors) { case Ok(r) => RunCalc(lib, b, r, cursors) case Err(e) => Err(e) }
  {
    hide Calc;
    if a == [] {
      assert a + b == b;
    } else {
      assert (a + b)[1..] == a[1..] + b;
      var r := Calc(lib, a[0], regs, cursors);
      if r.Ok? { RunCalcConcat(lib, a[1..], b, r.value, cursors); }
    }
  }

  /** `code` stands in the program at `at`. */
  predicate Placed(prog: seq<Insn>, at: nat, code: seq<Insn>) {
    at + |code| <= |prog| && prog[at..at + |code|] == code
  }

  lemma PlacedStep(prog: seq<Insn>, at: nat, code: seq<Insn>)
    requires Placed(prog, at, code) && code != []
    ensures at < |prog| && prog[at] == code[0] && Placed(prog, at + 1, code[1..])
  {
    assert prog[at..at + |code|][0] == prog[at];
    assert prog[at + 1..at + |code|] == prog[at..at + |code|][1..];
  }

  lemma PlacedConcat(prog: seq<Insn>, at: nat, a: seq<Insn>, b: seq<Insn>)
    requires Placed(prog, at, a + b)
    ensures Placed(prog, at, a) && Placed(prog, at + |a|, b)
  {
    assert prog[at..at + |a|] == (a + b)[..|a|];
    assert prog[at + |a|..at + |a| + |b|] == (a + b)[|a|..];
  }

  /** Two states that differ at most in registers and program counter, both stopped by the same error. */
  predicate SameStop(s: State, t: State, e: Error) {
    && s.status == Failed(e) && s.tables == t.tables && s.out == t.out && s.buffer == t.buffer && s.changes == t.changes
    && s.index == t.index && s.cursors == t.cursors
  }

  lemma {:induction false} CalcRuns(lib: Lib, prog: seq<Insn>, s: State, code: seq<Insn>) returns (t: State)
    requires Straight(code) && Placed(prog, s.pc, code) && s.status == Running
    ensures Reaches(lib, prog, s, t)
    ensures match RunCalc(lib, code, s.regs, s.cursors)
            case Ok(r) => t == s.(regs := r, pc := s.pc + |code|)
            case Err(e) => SameStop(t, s, e)
    decreases |code|
  {
    hide Calc, Reaches, Placed, ExecMove, ExecChange, ExecBuffer, ExecControl;
    if code == [] {
      t := s;
      ReachSelf(lib, prog, s);
    } else {
      PlacedStep(prog, s.pc, code);
      t := Step(lib, prog, s);
      ReachStep(lib, prog, s);
      if t.status == Running {
        var s1 := t;
        t := CalcRuns(lib, prog, s1, code[1..]);
        ReachThen(lib, prog, s, s1, t);
      }
    }
  }
}
