/** SELECT as code (compile_select.rs): the code as a whole, and the compiler that emits and patches it. */
module CompileSelect {
  import opened Bytes
  import opened Ast
  import opened Program
  import opened SelectPlan
  import opened VirtualMachine
  import opened CompileExpr

  /** A SELECT whose names have been resolved. */
  datatype Query = Query(cat: Catalog, tables: seq<Binding>, on: Option<Expr>, where: Option<Expr>, plan: Plan, ordered: bool, grouped: bool)

  predicate Buffered(q: Query) { q.grouped || q.ordered || q.plan.aggregated }

  ghost predicate QueryOk(q: Query) {
    && q.tables != [] && (|q.tables| > 1 <==> q.on.Some?) && SourcesOk(q.plan.sources, q.tables)
    && (!q.plan.aggregated ==> q.plan.outputWidth == |q.plan.sources|)
  }

  /** The front end of `compile_select`. */
  function Prepare(select: Select, cat: Catalog): (r: Result<Query>)
    ensures r.Ok? ==> QueryOk(r.value) && r.value.cat == cat && r.value.where == select.where
    ensures r.Ok? ==> (r.value.ordered <==> select.orderBy != []) && (r.value.grouped <==> select.groupBy != [])
  {
    if select.from.None? then Err(Other)
    else
      var b :- BindTables(select.from.value, cat);
      var plan :- BuildPlan(select, cat, b.0);
      Ok(Query(cat, b.0, b.1, select.where, plan, select.orderBy != [], select.groupBy != []))
  }

  // ---- The code ------------------------------------------------------------------------------------

  /** `compile_column_or_expr`. */
  function OperandCode(q: Query, e: Expr, reg: nat): (code: seq<Insn>)
    ensures code != []
  {
    var c := ResolveColumn(e, q.cat, q.tables);
    if c.Ok? then [Op(Opcode.Column, reg, c.value.table, c.value.column)] else ExprCode(e, reg)
  }

  function PredOpcode(op: BinaryOp): (r: Opcode)
    ensures Operator(r)
  {
    match op
    case NotEq => Opcode.Ne
    case Lt => Opcode.Lt
    case Le => Opcode.Le
    case Gt => Opcode.Gt
    case Ge => Opcode.Ge
    case And => Opcode.And
    case Or => Opcode.Or
    case _ => Opcode.Eq
  }

  /** `compile_pred`. */
  function PredCode(q: Query, e: Expr, reg: nat): seq<Insn> {
    if e.Binary? then
      OperandCode(q, e.left, reg + 1) + OperandCode(q, e.right, reg + 2) + [Op(PredOpcode(e.bop), reg, reg + 1, reg + 2)]
    else OperandCode(q, e, reg)
  }

  /** A condition in register 1 and the jump to `next` if it does not hold. */
  function TestCode(q: Query, p: Option<Expr>, next: nat): seq<Insn> {
    if p.None? then [] else PredCode(q, p.value, 1) + [Op(Opcode.IfNot, 1, next, 0)]
  }

  function SourceCode(q: Query, s: Source, reg: nat): seq<Insn> {
    match s
    case FromColumn(c) => [Op(Opcode.Column, reg, c.table, c.column)]
    case FromExpr(e) => OperandCode(q, e, reg)
  }

  /** `compile_row_load`: the first `n` sources. */
  function LoadCode(q: Query, n: nat): seq<Insn>
    requires n <= |q.plan.sources|
  { if n == 0 then [] else LoadCode(q, n - 1) + SourceCode(q, q.plan.sources[n - 1], n - 1) }

  /** `emit_scan_result`. */
  function EmitInsn(q: Query): Insn {
    if Buffered(q) then Op(Opcode.RowData, |q.plan.sources|, 0, 0) else Op(Opcode.ResultRow, q.plan.outputWidth, 0, 0)
  }

  /** What is done for one row, or pair of rows; `next` is the address behind it. */
  function VisitCode(q: Query, next: nat): seq<Insn> {
    TestCode(q, q.on, next) + TestCode(q, q.where, next) + LoadCode(q, |q.plan.sources|) + [EmitInsn(q)]
  }

  /** The first `n` tables opened. */
  function OpenCode(q: Query, n: nat): (code: seq<Insn>)
    requires n <= |q.tables|
    ensures |code| == n
  { if n == 0 then [] else OpenCode(q, n - 1) + [Op(Opcode.OpenRead, n - 1, 0, 0).(p4 := Name(q.tables[n - 1].name))] }

  /** The address of the first Rewind. */
  function OuterRewind(q: Query): nat { 1 + |q.tables| }

  function Joins(q: Query): bool { |q.tables| > 1 }

  /** The address of the row code. */
  function Top(q: Query): nat { OuterRewind(q) + (if Joins(q) then 2 else 1) }

  /** The address behind it, where the innermost cursor moves on. */
  function Next(q: Query): nat { Top(q) + |VisitCode(q, 0)| }

  /** The address behind all loops. */
  function PostScan(q: Query): nat { Next(q) + (if Joins(q) then 2 else 1) }

  function RewindCode(q: Query): seq<Insn> {
    if Joins(q) then [Op(Opcode.Rewind, 0, PostScan(q), 0), Op(Opcode.Rewind, 1, Next(q) + 1, 0)]
    else [Op(Opcode.Rewind, 0, PostScan(q), 0)]
  }

  function NextCode(q: Query): seq<Insn> {
    if Joins(q) then [Op(Opcode.Last, 1, Top(q), 0), Op(Opcode.Last, 0, OuterRewind(q) + 1, 0)]
    else [Op(Opcode.Last, 0, Top(q), 0)]
  }

  function GroupCode(q: Query): seq<Insn> {
    if q.plan.aggregated then [Op(Opcode.GroupBy, |q.plan.sources|, 0, 0).(p4 := Groups(q.plan.group))] else []
  }

  function SortCode(q: Query): seq<Insn> {
    if q.ordered then [Op(Opcode.Sort, 0, 0, 0).(p4 := SortKeys(q.plan.sortKeys))] else []
  }

  /** The loop over the row buffer, from address `at` on. */
  function DrainCode(q: Query, at: nat): seq<Insn> {
    if Buffered(q) then
      [Op(Opcode.BufferRewind, 0, at + 4, 0), Op(Opcode.BufferNext, 0, at + 4, 0), Op(Opcode.ResultRow, q.plan.outputWidth, 0, 0),
       Op(Opcode.Goto, 0, at + 1, 0)]
    else []
  }

  function FinishCode(q: Query, at: nat): seq<Insn> {
    GroupCode(q) + SortCode(q) + DrainCode(q, at + |GroupCode(q)| + |SortCode(q)|) + [Op(Opcode.Halt, 0, 0, 0)]
  }

  function HeadCode(q: Query): seq<Insn> { [Op(Opcode.Init, 0, 1, 0)] + OpenCode(q, |q.tables|) }

  /** The whole program. */
  function SelectCode(q: Query): seq<Insn> {
    HeadCode(q) + RewindCode(q) + VisitCode(q, Next(q)) + NextCode(q) + FinishCode(q, PostScan(q))
  }

  // ---- The compiler ----------------------------------------------------------------------------------

  method EmitOperand(prog: Program, q: Query, e: Expr, reg: nat)
    modifies prog
    ensures prog.insns == old(prog.insns) + OperandCode(q, e, reg)
  {
    hide ResolveColumn;
    var c := ResolveColumn(e, q.cat, q.tables);
    if c.Ok? {
      var _ := prog.Emit(Op(Opcode.Column, reg, c.value.table, c.value.column));
    } else {
      EmitExpr(prog, e, reg);
    }
  }

  method EmitPred(prog: Program, q: Query, e: Expr, reg: nat)
    modifies prog
    ensures prog.insns == old(prog.insns) + PredCode(q, e, reg)
  {
    hide OperandCode;
    if e.Binary? {
      EmitOperand(prog, q, e.left, reg + 1);
      EmitOperand(prog, q, e.right, reg + 2);
      var _ := prog.Emit(Op(PredOpcode(e.bop), reg, reg + 1, reg + 2));
    } else {
      EmitOperand(prog, q, e, reg);
    }
  }

  /** A condition and its jump, whose target is not known yet. */
  method EmitTest(prog: Program, q: Query, p: Option<Expr>) returns (skip: Option<nat>)
    modifies prog
    ensures prog.insns == old(prog.insns) + TestCode(q, p, 0)
    ensures skip == if p.None? then None else Some(|prog.insns| - 1)
  {
    hide PredCode;
    if p.None? {
      return None;
    }
    EmitPred(prog, q, p.value, 1);
    var addr := prog.Emit(Op(Opcode.IfNot, 1, 0, 0));
    return Some(addr);
  }

  method EmitLoad(prog: Program, q: Query)
    modifies prog
    ensures prog.insns == old(prog.insns) + LoadCode(q, |q.plan.sources|)
  {
    hide OperandCode;
    for reg := 0 to |q.plan.sources|
      invariant prog.insns == old(prog.insns) + LoadCode(q, reg)
    {
      match q.plan.sources[reg]
      case FromColumn(c) =>
        var _ := prog.Emit(Op(Opcode.Column, reg, c.table, c.column));
      case FromExpr(e) =>
        EmitOperand(prog, q, e, reg);
    }
  }

  /** The row code, with the jumps of the conditions still open. */
  method EmitVisit(prog: Program, q: Query) returns (onSkip: Option<nat>, whereSkip: Option<nat>)
    modifies prog
    ensures prog.insns == old(prog.insns) + VisitCode(q, 0)
    ensures onSkip == if q.on.None? then None else Some(|old(prog.insns)| + |TestCode(q, q.on, 0)| - 1)
    ensures whereSkip == if q.where.None? then None else Some(|old(prog.insns)| + |TestCode(q, q.on, 0)| + |TestCode(q, q.where, 0)| - 1)
  {
    hide TestCode, LoadCode, EmitInsn;
    onSkip := EmitTest(prog, q, q.on);
    whereSkip := EmitTest(prog, q, q.where);
    EmitLoad(prog, q);
    var _ := prog.Emit(EmitInsn(q));
  }

  method Patch(prog: Program, addr: Option<nat>, target: nat)
    requires addr.Some? ==> addr.value < |prog.insns|
    modifies prog
    ensures prog.insns == Patched(old(prog.insns), addr, target)
  {
    if addr.Some? {
      prog.PatchP2(addr.value, target);
    }
  }

  function Patched(insns: seq<Insn>, addr: Option<nat>, target: nat): (r: seq<Insn>)
    requires addr.Some? ==> addr.value < |insns|
    ensures |r| == |insns|
  { if addr.Some? then insns[addr.value := insns[addr.value].(p2 := target)] else insns }

  /** Patching the open jumps of row code gives row code with that target. */
  lemma VisitPatched(q: Query, pre: seq<Insn>, next: nat)
    ensures var t, w := |TestCode(q, q.on, 0)|, |TestCode(q, q.where, 0)|;
            var on := if q.on.None? then None else Some(|pre| + t - 1);
            var wh := if q.where.None? then None else Some(|pre| + t + w - 1);
            Patched(Patched(pre + VisitCode(q, 0), on, next), wh, next) == pre + VisitCode(q, next)
    ensures |VisitCode(q, next)| == |VisitCode(q, 0)|
  {
    hide PredCode, LoadCode, EmitInsn, TestCode, Patched;
    var rest := LoadCode(q, |q.plan.sources|) + [EmitInsn(q)];
    var a, b := TestCode(q, q.on, 0), TestCode(q, q.where, 0);
    var a', b' := TestCode(q, q.on, next), TestCode(q, q.where, next);
    TestPatched(q, q.on, pre, b + rest, next);
    TestPatched(q, q.where, pre + a', rest, next);
    assert pre + VisitCode(q, 0) == pre + a + (b + rest);
    assert pre + a' + (b + rest) == (pre + a') + b + rest;
    assert pre + VisitCode(q, next) == (pre + a') + b' + rest;
  }

  lemma TestPatched(q: Query, p: Option<Expr>, pre: seq<Insn>, post: seq<Insn>, next: nat)
    ensures var t := TestCode(q, p, 0);
            Patched(pre + t + post, if p.None? then None else Some(|pre| + |t| - 1), next) == pre + TestCode(q, p, next) + post
    ensures |TestCode(q, p, next)| == |TestCode(q, p, 0)|
    ensures p.Some? ==> |TestCode(q, p, 0)| > 0
  {
    hide PredCode;
    if p.Some? {
      var t, t' := TestCode(q, p, 0), TestCode(q, p, next);
      var all := pre + t + post;
      assert all[|pre| + |t| - 1] == t[|t| - 1] == Op(Opcode.IfNot, 1, 0, 0);
      assert t' == t[|t| - 1 := Op(Opcode.IfNot, 1, next, 0)];
      assert all[|pre| + |t| - 1 := t'[|t| - 1]] == pre + t' + post;
    }
  }

  method EmitOpen(prog: Program, q: Query)
    modifies prog
    ensures prog.insns == old(prog.insns) + OpenCode(q, |q.tables|)
  {
    for i := 0 to |q.tables|
      invariant prog.insns == old(prog.insns) + OpenCode(q, i)
    {
      var _ := prog.Emit(Op(Opcode.OpenRead, i, 0, 0).(p4 := Name(q.tables[i].name)));
    }
  }

  /** The loop over the row buffer, its two exits patched. */
  method EmitDrain(prog: Program, q: Query)
    modifies prog
    ensures prog.insns == old(prog.insns) + DrainCode(q, |old(prog.insns)|)
  {
    if Buffered(q) {
      var rewindAddr := prog.Emit(Op(Opcode.BufferRewind, 0, 0, 0));
      var emitRow := |prog.insns|;
      var nextAddr := prog.Emit(Op(Opcode.BufferNext, 0, 0, 0));
      var _ := prog.Emit(Op(Opcode.ResultRow, q.plan.outputWidth, 0, 0));
      var _ := prog.Emit(Op(Opcode.Goto, 0, emitRow, 0));
      var haltAddr := |prog.insns|;
      prog.PatchP2(rewindAddr, haltAddr);
      prog.PatchP2(nextAddr, haltAddr);
    }
  }

  method EmitFinish(prog: Program, q: Query)
    modifies prog
    ensures prog.insns == old(prog.insns) + FinishCode(q, |old(prog.insns)|)
  {
    hide DrainCode;
    if q.plan.aggregated {
      var _ := prog.Emit(Op(Opcode.GroupBy, |q.plan.sources|, 0, 0).(p4 := Groups(q.plan.group)));
    }
    if q.ordered {
      var _ := prog.Emit(Op(Opcode.Sort, 0, 0, 0).(p4 := SortKeys(q.plan.sortKeys)));
    }
    EmitDrain(prog, q);
    var _ := prog.Emit(Op(Opcode.Halt, 0, 0, 0));
  }

  /** The row code with its jumps patched to the address behind it. */
  method EmitBody(prog: Program, q: Query)
    modifies prog
    ensures prog.insns == old(prog.insns) + VisitCode(q, |old(prog.insns)| + |VisitCode(q, 0)|)
    ensures |prog.insns| == |old(prog.insns)| + |VisitCode(q, 0)|
  {
    hide VisitCode, Patched;
    ghost var pre := prog.insns;
    var onSkip, whereSkip := EmitVisit(prog, q);
    var next := |prog.insns|;
    VisitPatched(q, pre, next);
    SkipsInside(q);
    Patch(prog, onSkip, next);
    Patch(prog, whereSkip, next);
  }

  /** One loop over one table. */
  method EmitLoop(prog: Program, q: Query)
    requires prog.insns == HeadCode(q) && !Joins(q)
    modifies prog
    ensures prog.insns == HeadCode(q) + RewindCode(q) + VisitCode(q, Next(q)) + NextCode(q)
    ensures |prog.insns| == PostScan(q)
  {
    hide VisitCode, OpenCode;
    var outerRewind := prog.Emit(Op(Opcode.Rewind, 0, 0, 0));
    EmitBody(prog, q);
    var _ := prog.Emit(Op(Opcode.Last, 0, outerRewind + 1, 0));
    prog.PatchP2(outerRewind, |prog.insns|);
    assert HeadCode(q) + RewindCode(q) == (HeadCode(q) + [Op(Opcode.Rewind, 0, 0, 0)])[outerRewind := RewindCode(q)[0]];
  }

  /** The inner loop of a join, the outer Rewind still unpatched. */
  method EmitInnerLoop(prog: Program, q: Query)
    requires prog.insns == HeadCode(q) + [Op(Opcode.Rewind, 0, 0, 0)] && Joins(q)
    modifies prog
    ensures prog.insns == HeadCode(q) + [Op(Opcode.Rewind, 0, 0, 0), RewindCode(q)[1]] + VisitCode(q, Next(q)) + [NextCode(q)[0]]
    ensures |prog.insns| == Next(q) + 1
  {
    hide VisitCode, OpenCode;
    var innerRewind := prog.Emit(Op(Opcode.Rewind, 1, 0, 0));
    EmitBody(prog, q);
    var _ := prog.Emit(Op(Opcode.Last, 1, innerRewind + 1, 0));
    prog.PatchP2(innerRewind, |prog.insns|);
  }

  /** Two nested loops. */
  method EmitJoinLoops(prog: Program, q: Query)
    requires prog.insns == HeadCode(q) && Joins(q)
    modifies prog
    ensures prog.insns == HeadCode(q) + RewindCode(q) + VisitCode(q, Next(q)) + NextCode(q)
    ensures |prog.insns| == PostScan(q)
  {
    hide VisitCode, OpenCode;
    var outerRewind := prog.Emit(Op(Opcode.Rewind, 0, 0, 0));
    EmitInnerLoop(prog, q);
    var _ := prog.Emit(Op(Opcode.Last, 0, outerRewind + 1, 0));
    prog.PatchP2(outerRewind, |prog.insns|);
  }

  lemma SkipsInside(q: Query)
    ensures |TestCode(q, q.on, 0)| + |TestCode(q, q.where, 0)| <= |VisitCode(q, 0)|
  {
  }

  /** `compile_select`, the simple count apart: every jump is patched to the place it is meant for. */
  method EmitSelect(q: Query) returns (prog: Program)
    ensures fresh(prog) && prog.insns == SelectCode(q)
  {
    hide VisitCode, OpenCode, RewindCode, NextCode, FinishCode;
    prog := new Program();
    var _ := prog.Emit(Op(Opcode.Init, 0, 1, 0));
    EmitOpen(prog, q);
    if |q.tables| > 1 {
      EmitJoinLoops(prog, q);
    } else {
      EmitLoop(prog, q);
    }
    EmitFinish(prog, q);
  }
}
