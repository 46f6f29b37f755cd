/** UPDATE and DELETE as code (compile.rs). */
module CompileDml {
  import opened Bytes
  import opened Ast
  import opened Program
  import opened VirtualMachine
  import opened CompileExpr

  /** What is done to a row that passes: new values for columns by number, or removal. */
  datatype Change = SetColumns(assignments: seq<(nat, Expr)>) | DropRow

  datatype Dml = Dml(table: string, columns: seq<string>, where: Option<Expr>, change: Change)

  predicate DmlOk(d: Dml) {
    d.change.SetColumns? ==> forall i | 0 <= i < |d.change.assignments| :: d.change.assignments[i].0 < |d.columns|
  }

  predicate Resolves(columns: seq<string>, a: (string, Expr), b: (nat, Expr)) {
    ColumnIndex(columns, a.0) == Some(b.0) && b.1 == a.1
  }

  function ResolveAssignments(assignments: seq<(string, Expr)>, columns: seq<string>): (r: Result<seq<(nat, Expr)>>)
    ensures r.Ok? ==> |r.value| == |assignments| && forall i | 0 <= i < |assignments| :: Resolves(columns, assignments[i], r.value[i])
  {
    if assignments == [] then Ok([])
    else
      var c := ColumnIndex(columns, assignments[0].0);
      if c.None? then Err(Other)
      else
        var rest :- ResolveAssignments(assignments[1..], columns);
        Ok([(c.value, assignments[0].1)] + rest)
  }

  predicate Unknown(columns: seq<string>, a: (string, Expr)) { ColumnIndex(columns, a.0).None? }

  lemma {:induction false} Unresolved(assignments: seq<(string, Expr)>, columns: seq<string>)
    ensures ResolveAssignments(assignments, columns).Err? <==> exists i | 0 <= i < |assignments| :: Unknown(columns, assignments[i])
  {
    hide ColumnIndex;
    if assignments != [] {
      Unresolved(assignments[1..], columns);
      assert forall i | 0 < i < |assignments| :: assignments[i] == assignments[1..][i - 1];
      assert forall i | 0 <= i < |assignments| - 1 :: assignments[1..][i] == assignments[i + 1];
    }
  }

  /** Every assignment gets the number of the first column of its name. */
  function PrepareUpdate(u: Update, cat: Catalog): (r: Result<Dml>)
    ensures r.Ok? ==>
              && DmlOk(r.value) && r.value.table == u.table && Lookup(cat, u.table) == Some(r.value.columns) && r.value.where == u.where
              && r.value.change.SetColumns? && |r.value.change.assignments| == |u.assignments|
              && forall i | 0 <= i < |u.assignments| :: Resolves(r.value.columns, u.assignments[i], r.value.change.assignments[i])
  {
    var columns := Lookup(cat, u.table);
    if columns.None? then Err(Other)
    else
      var assignments :- ResolveAssignments(u.assignments, columns.value);
      assert forall i | 0 <= i < |assignments| :: Resolves(columns.value, u.assignments[i], assignments[i]);
      Ok(Dml(u.table, columns.value, u.where, SetColumns(assignments)))
  }

  /** An UPDATE is refused exactly if its table or a column it assigns is unknown. */
  lemma UpdateRefused(u: Update, cat: Catalog)
    ensures PrepareUpdate(u, cat).Err? <==>
              (Lookup(cat, u.table).None? || exists i | 0 <= i < |u.assignments| :: Unknown(Lookup(cat, u.table).value, u.assignments[i]))
  {
    hide ColumnIndex, ResolveAssignments, Unknown;
    if Lookup(cat, u.table).Some? { Unresolved(u.assignments, Lookup(cat, u.table).value); }
  }

  function PrepareDelete(d: Delete, cat: Catalog): (r: Result<Dml>)
    ensures r.Ok? ==> DmlOk(r.value)
  {
    var columns := Lookup(cat, d.table);
    if columns.None? then Err(Other) else Ok(Dml(d.table, columns.value, d.where, DropRow))
  }

  // ---- The code ------------------------------------------------------------------------------------

  /** The column an operand names, if it is a plain name of one. */
  function ColumnOperand(columns: seq<string>, e: Expr): (r: Option<nat>)
    ensures r.Some? ==> r.value < |columns|
  { if e.Ident? then ColumnIndex(columns, e.name) else None }

  /** `compile_expr_with_columns`. */
  function FieldCode(columns: seq<string>, e: Expr, reg: nat): (code: seq<Insn>)
    ensures code != []
  {
    var c := ColumnOperand(columns, e);
    if c.Some? then [Op(Opcode.Column, reg, 0, c.value)] else ExprCode(e, reg)
  }

  function WhereOpcode(op: BinaryOp): (r: Opcode)
    ensures Operator(r)
  {
    match op
    case NotEq => Opcode.Ne
    case Lt => Opcode.Lt
    case Le => Opcode.Le
    case Gt => Opcode.Gt
    case Ge => Opcode.Ge
    case _ => Opcode.Eq
  }

  /** `compile_where_expr` with its result in register 0. */
  function ConditionCode(columns: seq<string>, e: Expr): seq<Insn> {
    if e.Binary? then FieldCode(columns, e.left, 1) + ExprCode(e.right, 2) + [Op(WhereOpcode(e.bop), 0, 1, 2)]
    else FieldCode(columns, e, 0)
  }

  function WhereCode(d: Dml, next: nat): seq<Insn> {
    if d.where.None? then [] else ConditionCode(d.columns, d.where.value) + [Op(Opcode.IfNot, 0, next, 0)]
  }

  /** The first `n` columns into registers 2, 3, .. */
  function FetchCode(n: nat): (code: seq<Insn>)
    ensures |code| == n
  { if n == 0 then [] else FetchCode(n - 1) + [Op(Opcode.Column, n + 1, 0, n - 1)] }

  /** The first `k` assignments. */
  function AssignCode(d: Dml, k: nat): seq<Insn>
    requires d.change.SetColumns? && k <= |d.change.assignments|
  {
    if k == 0 then []
    else AssignCode(d, k - 1) + FieldCode(d.columns, d.change.assignments[k - 1].1, d.change.assignments[k - 1].0 + 2)
  }

  function RecordCode(d: Dml): seq<Insn> { [Op(Opcode.Rowid, 1, 0, 0), Op(Opcode.MakeRecord, |d.columns|, 2, 10)] }

  function ChangeCode(d: Dml): seq<Insn> {
    match d.change
    case DropRow => [Op(Opcode.Delete, 0, 0, 0)]
    case SetColumns(assignments) =>
      FetchCode(|d.columns|) + AssignCode(d, |assignments|) + RecordCode(d) + [Op(Opcode.Insert, 10, 0, 1).(p5 := 1)]
  }

  const DML_TOP := 4

  function DmlNext(d: Dml): nat { DML_TOP + |WhereCode(d, 0)| + |ChangeCode(d)| }

  function DmlHead(d: Dml): (code: seq<Insn>)
    ensures |code| == DML_TOP
  {
    [Op(Opcode.Init, 0, 1, 0), Op(Opcode.Transaction, 0, 0, 0), Op(Opcode.OpenWrite, 0, 0, 0).(p4 := Name(d.table)),
     Op(Opcode.Rewind, 0, DmlNext(d) + 1, 0)]
  }

  function DmlCode(d: Dml): seq<Insn> {
    DmlHead(d) + WhereCode(d, DmlNext(d)) + ChangeCode(d) + [Op(Opcode.Last, 0, DML_TOP, 0), Op(Opcode.Halt, 0, 0, 0)]
  }

  // ---- The compiler ----------------------------------------------------------------------------------

  method EmitField(prog: Program, columns: seq<string>, e: Expr, reg: nat)
    modifies prog
    ensures prog.insns == old(prog.insns) + FieldCode(columns, e, reg)
  {
    hide ColumnIndex;
    if e.Ident? {
      var c := ColumnIndex(columns, e.name);
      if c.Some? {
        var _ := prog.Emit(Op(Opcode.Column, reg, 0, c.value));
        return;
      }
    }
    EmitExpr(prog, e, reg);
  }

  method EmitCondition(prog: Program, columns: seq<string>, e: Expr)
    modifies prog
    ensures prog.insns == old(prog.insns) + ConditionCode(columns, e)
  {
    hide FieldCode, ExprCode;
    if e.Binary? {
      EmitField(prog, columns, e.left, 1);
      EmitExpr(prog, e.right, 2);
      var _ := prog.Emit(Op(WhereOpcode(e.bop), 0, 1, 2));
    } else {
      EmitField(prog, columns, e, 0);
    }
  }

  method EmitChange(prog: Program, d: Dml)
    modifies prog
    ensures prog.insns == old(prog.insns) + ChangeCode(d)
  {
    hide FieldCode;
    match d.change
    case DropRow =>
      var _ := prog.Emit(Op(Opcode.Delete, 0, 0, 0));
    case SetColumns(assignments) =>
      for j := 0 to |d.columns|
        invariant prog.insns == old(prog.insns) + FetchCode(j)
      {
        var _ := prog.Emit(Op(Opcode.Column, j + 2, 0, j));
      }
      for k := 0 to |assignments|
        invariant prog.insns == old(prog.insns) + FetchCode(|d.columns|) + AssignCode(d, k)
      {
        EmitField(prog, d.columns, assignments[k].1, assignments[k].0 + 2);
      }
      var _ := prog.Emit(Op(Opcode.Rowid, 1, 0, 0));
      var _ := prog.Emit(Op(Opcode.MakeRecord, |d.columns|, 2, 10));
      var _ := prog.Emit(Op(Opcode.Insert, 10, 0, 1).(p5 := 1));
  }

  /** The condition, its jump still open. */
  method EmitWhere(prog: Program, d: Dml) returns (skip: Option<nat>)
    modifies prog
    ensures prog.insns == old(prog.insns) + WhereCode(d, 0)
    ensures skip == if d.where.None? then None else Some(|prog.insns| - 1)
  {
    hide ConditionCode;
    if d.where.None? {
      return None;
    }
    EmitCondition(prog, d.columns, d.where.value);
    var addr := prog.Emit(Op(Opcode.IfNot, 0, 0, 0));
    return Some(addr);
  }

  lemma WherePatched(d: Dml, pre: seq<Insn>, post: seq<Insn>, next: nat)
    ensures |WhereCode(d, next)| == |WhereCode(d, 0)|
    ensures d.where.Some? ==> |WhereCode(d, 0)| > 0
    ensures var at := |pre| + |WhereCode(d, 0)| - 1; var all := pre + WhereCode(d, 0) + post;
            d.where.Some? ==> all[at := all[at].(p2 := next)] == pre + WhereCode(d, next) + post
  {
    hide ConditionCode;
    if d.where.Some? {
      var w, w' := WhereCode(d, 0), WhereCode(d, next);
      var all := pre + w + post;
      assert all[|pre| + |w| - 1] == w[|w| - 1] == Op(Opcode.IfNot, 0, 0, 0);
      assert w' == w[|w| - 1 := Op(Opcode.IfNot, 0, next, 0)];
      assert all[|pre| + |w| - 1 := w'[|w| - 1]] == pre + w' + post;
    }
  }

  /** `compile_update` and `compile_delete`, which differ only in the change and the table they look up. */
  method EmitDml(d: Dml) returns (prog: Program)
    ensures fresh(prog) && prog.insns == DmlCode(d)
  {
    hide WhereCode, ChangeCode;
    prog := new Program();
    var _ := prog.Emit(Op(Opcode.Init, 0, 1, 0));
    var _ := prog.Emit(Op(Opcode.Transaction, 0, 0, 0));
    var _ := prog.Emit(Op(Opcode.OpenWrite, 0, 0, 0).(p4 := Name(d.table)));
    var rewind := prog.Emit(Op(Opcode.Rewind, 0, 0, 0));
    EmitRows(prog, d);
    var _ := prog.Emit(Op(Opcode.Last, 0, rewind + 1, 0));
    prog.PatchP2(rewind, |prog.insns|);
    var _ := prog.Emit(Op(Opcode.Halt, 0, 0, 0));
  }

  /** The row code with its jump patched. */
  method EmitRows(prog: Program, d: Dml)
    requires |prog.insns| == DML_TOP
    modifies prog
    ensures prog.insns == old(prog.insns) + WhereCode(d, DmlNext(d)) + ChangeCode(d)
    ensures |prog.insns| == DmlNext(d)
  {
    hide WhereCode, ChangeCode;
    ghost var pre := prog.insns;
    var skip := EmitWhere(prog, d);
    EmitChange(prog, d);
    WherePatched(d, pre, ChangeCode(d), DmlNext(d));
    if skip.Some? {
      prog.PatchP2(skip.value, |prog.insns|);
    } else {
      NoWhere(d);
    }
  }

  lemma NoWhere(d: Dml)
    requires d.where.None?
    ensures WhereCode(d, DmlNext(d)) == WhereCode(d, 0)
  {
  }
}
