/** The virtual machine as the object that the program runs (`Vdbe`, vdbe/exec.rs). */
module Vdbe {
  import opened Bytes
  import opened Names
  import opened Values
  import opened Program
  import opened SortGroup
  import opened VirtualMachine
  import LeafList
  import Record
  import Grouping

  datatype StepResult = Continue | RowReady | Finished | Stopped(error: Error)

  function StatusOf(r: StepResult): Status {
    match r case Finished => Done case Stopped(e) => Failed(e) case _ => Running
  }

  lemma OverlaidStep(row: Row, regs: seq<Value>, i: nat)
    requires i < |row|
    ensures SetReg(Overlaid(row[..i], regs), i, row[i]) == Overlaid(row[..i + 1], regs)
  {
  }

  lemma NothingOverlaid(regs: seq<Value>)
    ensures Overlaid([], regs) == regs
  {
  }

  class Vdbe {
    const lib: Lib
    const program: seq<Insn>
    var pc: nat
    var regs: seq<Value>
    var cursors: map<int, CursorState>
    var tables: map<string, Table>
    var rowBuffer: seq<Row>
    var bufferIdx: nat
    var resultColumns: nat
    var changes: nat
    /** The rows given to the caller so far. */
    ghost var out: seq<Row>

    ghost function Now(status: Status): State
      reads this
    { State(status, pc, regs, cursors, tables, rowBuffer, bufferIdx, changes, out) }

    constructor (lib: Lib, program: seq<Insn>, tables: map<string, Table>, nReg: nat)
      ensures this.lib == lib && this.program == program && Now(Running) == Start(tables, if nReg < 8 then 8 else nReg)
    {
      this.lib, this.program, this.tables := lib, program, tables;
      pc, regs, cursors, rowBuffer, bufferIdx := 0, seq(if nReg < 8 then 8 else nReg, _ => Value.Null), map[], [], 0;
      resultColumns, changes, out := 0, 0, [];
    }

    method StoreReg(idx: nat, val: Value)
      modifies this`regs
      ensures regs == SetReg(old(regs), idx, val)
    {
      if idx >= |regs| {
        regs := regs + seq(idx + 1 - |regs|, _ => Value.Null);
      }
      regs := regs[idx := val];
    }

    /** Registers `from..from + n` as a row. */
    method Collect(from: int, n: int) returns (row: Row)
      ensures row == Regs(regs, from, if n < 0 then 0 else n)
    {
      row := [];
      var i := 0;
      while i < n
        invariant 0 <= i && (n >= 0 ==> i <= n) && (n < 0 ==> i == 0)
        invariant row == Regs(regs, from, i)
      {
        row := row + [Reg(regs, from + i)];
        i := i + 1;
      }
    }

    /** The instructions that only compute. */
    method Calculate(insn: Insn) returns (r: StepResult)
      requires Calculates(insn.op)
      modifies this`regs
      ensures match Calc(lib, insn, old(regs), cursors)
              case Ok(rs) => r == Continue && regs == rs
              case Err(e) => r == Stopped(e) && regs == old(regs)
    {
      hide SetReg, Operate, RowValues, Record.Encode;
      var dest := if insn.op == Opcode.MakeRecord then insn.p3 else insn.p1;
      if dest < 0 {
        return Stopped(Other);
      }
      if Operator(insn.op) {
        var v := Operate(lib, insn.op, Reg(regs, insn.p2), Reg(regs, insn.p3));
        if v.Err? {
          return Stopped(v.error);
        }
        StoreReg(dest, v.value);
        return Continue;
      }
      r := Load(insn, dest);
    }

    method Load(insn: Insn, dest: nat) returns (r: StepResult)
      requires Calculates(insn.op) && !Operator(insn.op) && dest == if insn.op == Opcode.MakeRecord then insn.p3 else insn.p1
      modifies this`regs
      ensures match Calc(lib, insn, old(regs), cursors)
              case Ok(rs) => r == Continue && regs == rs
              case Err(e) => r == Stopped(e) && regs == old(regs)
    {
      hide SetReg, Record.Encode, Record.Decode;
      r := Continue;
      match insn.op
      case Null =>
        StoreReg(dest, Value.Null);
      case Integer =>
        if !(-TWO63 <= insn.p2 < TWO63) {
          return Stopped(Other);
        }
        StoreReg(dest, Value.Integer(insn.p2));
      case Real =>
        if insn.p4.Float? {
          StoreReg(dest, Value.Real(insn.p4.bits));
        }
      case String =>
        if insn.p4.Str? {
          StoreReg(dest, Value.Text(insn.p4.s));
        }
      case Column =>
        if insn.p2 in cursors {
          var values := RowValues(lib, cursors[insn.p2].cur.current);
          if values.Err? {
            return Stopped(values.error);
          }
          StoreReg(dest, Reg(values.value, insn.p3));
        }
      case Rowid =>
        if insn.p2 in cursors && cursors[insn.p2].cur.current != None {
          var key := cursors[insn.p2].cur.current.value.key;
          if key >= TWO63 {
            return Stopped(Other);
          }
          StoreReg(dest, Value.Integer(key));
        }
      case MakeRecord =>
        var values := Collect(insn.p2, insn.p1);
        StoreReg(dest, Value.Blob(Record.Encode(values)));
      case _ =>
    }

    method JumpTo(target: int) returns (r: StepResult)
      modifies this`pc
      ensures Now(StatusOf(r)) == Jump(old(Now(Running)), target) && !r.RowReady?
    {
      if target < 0 {
        return Finished;
      }
      pc := target;
      return Continue;
    }

    method Open(insn: Insn) returns (r: StepResult)
      modifies this`cursors
      ensures Now(StatusOf(r)) == Opened(old(Now(Running)), insn) && !r.RowReady?
    {
      if !insn.p4.Name? || Lower(insn.p4.name) !in tables {
        return Stopped(Other);
      }
      cursors := cursors[insn.p1 := CursorState(Lower(insn.p4.name), LeafList.Start())];
      return Continue;
    }

    method CountRows(ls: Table) returns (n: nat)
      ensures n == |LeafList.Flat(LeafList.Visible(ls))|
    {
      hide LeafList.First, LeafList.Next;
      if ls == [] {
        return 0;
      }
      LeafList.FirstRemaining(ls, LeafList.Start());
      var f := LeafList.First(ls, LeafList.Start());
      if !f.0 {
        return 0;
      }
      n := 0;
      var more, cur := true, f.1;
      while more
        invariant more ==> LeafList.On(ls, cur) && n + |LeafList.Remaining(ls, cur)| == |LeafList.Flat(LeafList.Visible(ls))|
        invariant !more ==> n == |LeafList.Flat(LeafList.Visible(ls))|
        decreases |LeafList.Flat(LeafList.Visible(ls))| - n, more
      {
        n := n + 1;
        LeafList.NextRemaining(ls, cur);
        var s := LeafList.Next(ls, cur);
        more, cur := s.0, s.1;
      }
    }

    /** The instructions about cursors. */
    method MoveCursor(insn: Insn) returns (r: StepResult)
      requires MovesCursor(insn.op)
      modifies this`cursors, this`pc, this`regs
      ensures Now(StatusOf(r)) == ExecMove(insn, old(Now(Running))) && !r.RowReady?
    {
      hide LeafList.First, LeafList.Next, LeafList.Visible, LeafList.Flat, SetReg;
      var c := if insn.op == Opcode.Count then insn.p2 else insn.p1;
      if c !in cursors {
        return Continue;
      }
      if insn.op == Opcode.Count {
        r := CountInto(insn, c);
        return;
      }
      var s := if insn.op == Opcode.Rewind then LeafList.First(Leaves(cursors, tables, c), cursors[c].cur) else LeafList.Next(Leaves(cursors, tables, c), cursors[c].cur);
      cursors := cursors[c := cursors[c].(cur := s.1)];
      if s.0 == (insn.op == Opcode.Last) {
        r := JumpTo(insn.p2);
        return;
      }
      return Continue;
    }

    method CountInto(insn: Insn, c: int) returns (r: StepResult)
      requires insn.op == Opcode.Count && c == insn.p2 && c in cursors
      modifies this`regs
      ensures Now(StatusOf(r)) == ExecMove(insn, old(Now(Running))) && !r.RowReady?
    {
      hide LeafList.Visible, LeafList.Flat, SetReg;
      if insn.p1 < 0 {
        return Continue;
      }
      var n := CountRows(Leaves(cursors, tables, c));
      if n >= TWO63 {
        return Stopped(Other);
      }
      StoreReg(insn.p1, Value.Integer(n));
      return Continue;
    }

    /** The instructions that change a table. */
    method ChangeTable(insn: Insn) returns (r: StepResult)
      requires ChangesTable(insn.op)
      modifies this`tables, this`changes
      ensures Now(StatusOf(r)) == ExecChange(insn, old(Now(Running))) && !r.RowReady?
    {
      hide Replaced, Removed;
      if insn.p2 !in cursors {
        return Continue;
      }
      var name := cursors[insn.p2].table;
      if insn.op == Opcode.Insert {
        var rowid, record := Reg(regs, insn.p3), Reg(regs, insn.p1);
        if !rowid.Integer? {
          return Stopped(Mismatch);
        }
        if !record.Blob? || insn.p5 == 0 || name !in tables {
          return Stopped(Other);
        }
        tables := tables[name := Replaced(tables[name], rowid.i, record.b)];
      } else {
        if cursors[insn.p2].cur.current == None {
          return Continue;
        }
        if name !in tables {
          return Stopped(Other);
        }
        tables := tables[name := Removed(tables[name], cursors[insn.p2].cur.current.value.key)];
      }
      changes := changes + 1;
      return Continue;
    }

    /** The instructions about the row buffer. */
    method UseBuffer(insn: Insn) returns (r: StepResult)
      requires UsesBuffer(insn.op) && Walks(lib)
      modifies this`rowBuffer, this`bufferIdx, this`pc, this`regs
      ensures Now(StatusOf(r)) == ExecBuffer(lib, insn, old(Now(Running))) && !r.RowReady?
    {
      hide Grouping.GroupRows, SortRows, Overlaid;
      r := Continue;
      match insn.op
      case RowData =>
        var row := Collect(0, insn.p1);
        rowBuffer := rowBuffer + [row];
      case GroupBy =>
        if insn.p4.Groups? {
          rowBuffer := Grouping.ApplyGroupBy(lib, insn.p4.spec, rowBuffer);
          bufferIdx := 0;
        }
      case Sort =>
        if insn.p4.SortKeys? {
          rowBuffer := SortRows(lib, insn.p4.keys, rowBuffer);
        }
      case BufferRewind =>
        bufferIdx := 0;
        if rowBuffer == [] {
          r := JumpTo(insn.p2);
        }
      case BufferNext =>
        if bufferIdx >= |rowBuffer| {
          r := JumpTo(insn.p2);
        } else {
          LoadRow(rowBuffer[bufferIdx]);
          bufferIdx := bufferIdx + 1;
        }
      case _ =>
    }

    /** The values of a row into the first registers. */
    method LoadRow(row: Row)
      modifies this`regs
      ensures regs == Overlaid(row, old(regs))
    {
      hide Overlaid, SetReg;
      NothingOverlaid(regs);
      assert row[..0] == [];
      for i := 0 to |row|
        invariant regs == Overlaid(row[..i], old(regs))
      {
        OverlaidStep(row, old(regs), i);
        StoreReg(i, row[i]);
      }
      assert row[..|row|] == row;
    }

    /** `execute`: one instruction, the program counter already behind it. */
    method Execute(insn: Insn) returns (r: StepResult)
      requires Walks(lib)
      modifies this
      ensures Now(StatusOf(r)) == Exec(lib, insn, old(Now(Running)))
      ensures r.RowReady? <==> insn.op == Opcode.ResultRow
      ensures out == old(out) + if r.RowReady? then [Regs(regs, 0, resultColumns)] else []
    {
      hide Calc, ExecMove, ExecChange, ExecBuffer, ExecControl;
      if Calculates(insn.op) {
        r := Calculate(insn);
        return;
      }
      if MovesCursor(insn.op) {
        r := MoveCursor(insn);
        return;
      }
      if ChangesTable(insn.op) {
        r := ChangeTable(insn);
        return;
      }
      if UsesBuffer(insn.op) {
        r := UseBuffer(insn);
        return;
      }
      r := Control(insn);
    }

    /** The rest: starting, stopping, jumping, opening and giving out a row. */
    method Control(insn: Insn) returns (r: StepResult)
      modifies this
      ensures Now(StatusOf(r)) == ExecControl(lib, insn, old(Now(Running)))
      ensures r.RowReady? <==> insn.op == Opcode.ResultRow
      ensures out == old(out) + if r.RowReady? then [Regs(regs, 0, resultColumns)] else []
    {
      hide Opened, Regs, Reg, Truthy;
      r := Continue;
      match insn.op
      case Halt =>
        r := Finished;
      case Goto =>
        r := JumpTo(insn.p2);
      case IfNot =>
        if !Truthy(lib, Reg(regs, insn.p1)) {
          r := JumpTo(insn.p2);
        }
      case OpenRead =>
        r := Open(insn);
      case OpenWrite =>
        r := Open(insn);
      case ResultRow =>
        resultColumns := if insn.p1 < 0 then 0 else insn.p1;
        out := out + [Regs(regs, 0, resultColumns)];
        r := RowReady;
      case _ =>
    }

    /** `step`: runs until there is a row, the program ends, or an instruction fails. `n` bounds the steps. */
    method Step(ghost n: nat) returns (r: StepResult)
      requires Walks(lib) && Iter(lib, program, Now(Running), n).status != Running
      modifies this
      ensures !r.Continue? && Reaches(lib, program, old(Now(Running)), Now(StatusOf(r)))
      ensures out == old(out) + if r.RowReady? then [Regs(regs, 0, resultColumns)] else []
      ensures r.RowReady? ==> exists m | 0 <= m < n :: Iter(lib, program, Now(Running), m).status != Running
    {
      hide Exec, Iter, Reaches, Regs;
      ghost var start, left: nat := Now(Running), n;
      IterZero(lib, program, start);
      ReachSelf(lib, program, start);
      while pc < |program|
        invariant Reaches(lib, program, start, Now(Running))
        invariant left <= n && Iter(lib, program, Now(Running), left).status != Running && out == old(out)
        decreases left
      {
        ghost var s := Now(Running);
        IterZero(lib, program, s);
        IterStep(lib, program, s, left);
        ReachStep(lib, program, s);
        left := left - 1;
        var insn := program[pc];
        pc := pc + 1;
        r := Execute(insn);
        ReachThen(lib, program, start, s, Now(StatusOf(r)));
        if !r.Continue? {
          return;
        }
      }
      ghost var s := Now(Running);
      ReachStep(lib, program, s);
      ReachThen(lib, program, start, s, VirtualMachine.Step(lib, program, s));
      return Finished;
    }
  }

  lemma IterZero(lib: Lib, prog: seq<Insn>, s: State)
    ensures Iter(lib, prog, s, 0) == s
  {
  }

  lemma IterStep(lib: Lib, prog: seq<Insn>, s: State, n: nat)
    requires s.status == Running && Iter(lib, prog, s, n).status != Running
    ensures n > 0 && Iter(lib, prog, s, n) == Iter(lib, prog, VirtualMachine.Step(lib, prog, s), n - 1)
  {
    hide VirtualMachine.Step;
  }

  /** A stopped machine stays as it is. */
  lemma {:induction false} IterStopped(lib: Lib, prog: seq<Insn>, s: State, n: nat)
    requires s.status != Running
    ensures Iter(lib, prog, s, n) == s
  {
    if n > 0 { IterStopped(lib, prog, s, n - 1); }
  }

  /** So a program has at most one final state. */
  lemma FinalUnique(lib: Lib, prog: seq<Insn>, s: State, t: State, u: State)
    requires Reaches(lib, prog, s, t) && Reaches(lib, prog, s, u) && t.status != Running && u.status != Running
    ensures t == u
  {
    hide Iter;
    var n: nat :| Iter(lib, prog, s, n) == t;
    var m: nat :| Iter(lib, prog, s, m) == u;
    if n <= m {
      IterAdd(lib, prog, s, n, m - n);
      IterStopped(lib, prog, t, m - n);
    } else {
      IterAdd(lib, prog, s, m, n - m);
      IterStopped(lib, prog, u, n - m);
    }
  }

  /** The caller's loop (`exec_sql`, connection.rs): every row that `step` gives, until it stops. `t` is the
      final state of the program. */
  method RunAll(vm: Vdbe, ghost t: State) returns (rows: seq<Row>, r: StepResult)
    requires Walks(vm.lib) && Reaches(vm.lib, vm.program, vm.Now(Running), t) && t.status != Running && vm.out == []
    modifies vm
    ensures (r.Finished? || r.Stopped?) && vm.Now(StatusOf(r)) == t && rows == t.out
  {
    hide Iter;
    ghost var start := vm.Now(Running);
    ghost var n: nat :| Iter(vm.lib, vm.program, start, n) == t;
    rows := [];
    ReachSelf(vm.lib, vm.program, start);
    while true
      invariant Reaches(vm.lib, vm.program, start, vm.Now(Running)) && rows == vm.out
      invariant Iter(vm.lib, vm.program, vm.Now(Running), n).status != Running
      decreases n
    {
      ghost var s := vm.Now(Running);
      r := vm.Step(n);
      ReachThen(vm.lib, vm.program, start, s, vm.Now(StatusOf(r)));
      if !r.RowReady? {
        FinalUnique(vm.lib, vm.program, start, vm.Now(StatusOf(r)), t);
        return;
      }
      ghost var m: nat :| m < n && Iter(vm.lib, vm.program, vm.Now(Running), m).status != Running;
      n := m;
      rows := rows + [Regs(vm.regs, 0, vm.resultColumns)];
    }
  }
}
