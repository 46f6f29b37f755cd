/** What a SELECT means, and when its code gives that. */
module SelectMeaning {
  import opened Bytes
  import opened Names
  import opened Values
  import opened Ast
  import opened Program
  import opened SortGroup
  import opened SelectPlan
  import opened VirtualMachine
  import opened CompileExpr
  import opened CompileSelect
  import opened SelectRun
  import LP = LeafPage
  import Record
  import Varint

  // ---- The relational meaning ------------------------------------------------------------------

  /** The value of an expression on the rows of `view`, columns allowed anywhere in it. */
  function SqlValue(lib: Lib, q: Query, view: View, e: Expr): Result<Value> {
    var c := ResolveColumn(e, q.cat, q.tables);
    if c.Ok? then ColumnOf(lib, view, c.value)
    else
      match e
      case Binary(op, left, right) =>
        var a :- SqlValue(lib, q, view, left);
        var b :- SqlValue(lib, q, view, right);
        SqlBinary(lib, op, a, b)
      case Unary(op, expr) =>
        var a :- SqlValue(lib, q, view, expr);
        SqlUnary(lib, op, a)
      case _ => Meaning(lib, e)
  }

  /** A condition holds if it is true; null is not. */
  predicate Holds(lib: Lib, q: Query, view: View, p: Option<Expr>) {
    p.None? || (SqlValue(lib, q, view, p.value).Ok? && Truthy(lib, SqlValue(lib, q, view, p.value).value))
  }

  function SqlSource(lib: Lib, q: Query, view: View, s: Source): Result<Value> {
    match s
    case FromColumn(c) => ColumnOf(lib, view, c)
    case FromExpr(e) => SqlValue(lib, q, view, e)
  }

  /** The projection of the rows of `view` to the first `n` sources. */
  function Project(lib: Lib, q: Query, view: View, n: nat): (r: Row)
    requires n <= |q.plan.sources|
    ensures |r| == n
  {
    seq(n, i requires 0 <= i < n =>
      match SqlSource(lib, q, view, q.plan.sources[i]) { case Ok(v) => v case Err(_) => Value.Null })
  }

  /** Filtered and projected rows, in order. */
  function Wanted(lib: Lib, q: Query, views: seq<View>): seq<Row> {
    if views == [] then []
    else
      (if Holds(lib, q, views[0], q.on) && Holds(lib, q, views[0], q.where) then [Project(lib, q, views[0], |q.plan.sources|)] else [])
      + Wanted(lib, q, views[1..])
  }

  /** One row after the other behind the rows of `outer`. */
  function Extend(outer: View, rows: seq<LP.Cell>): (r: seq<View>)
    ensures |r| == |rows|
  { seq(|rows|, i requires 0 <= i < |rows| => outer + [Some(rows[i])]) }

  /** All pairs of rows, by the row of the first table and then by that of the second. */
  function Cross(rows: seq<LP.Cell>, inner: seq<LP.Cell>): seq<View> {
    if rows == [] then [] else Extend([Some(rows[0])], inner) + Cross(rows[1..], inner)
  }

  /** What the FROM clause stands for. */
  function Views(q: Query, tables: map<string, Table>): seq<View>
    requires q.tables != []
  {
    if Joins(q) then Cross(Seen(TableOf(tables, q.tables[0])), Seen(TableOf(tables, q.tables[1])))
    else Extend([], Seen(TableOf(tables, q.tables[0])))
  }

  // ---- The loops as one list of views --------------------------------------------------------------

  function ScanViews(lib: Lib, q: Query, views: seq<View>, a: Acc): Acc {
    if views == [] || a.stop.Some? then a else ScanViews(lib, q, views[1..], Visit(lib, q, views[0], a))
  }

  lemma {:induction false} ScanViewsConcat(lib: Lib, q: Query, u: seq<View>, v: seq<View>, a: Acc)
    ensures ScanViews(lib, q, u + v, a) == ScanViews(lib, q, v, ScanViews(lib, q, u, a))
    decreases |u|
  {
    hide Visit;
    if u == [] {
      assert u + v == v;
    } else if a.stop.None? {
      assert (u + v)[1..] == u[1..] + v;
      ScanViewsConcat(lib, q, u[1..], v, Visit(lib, q, u[0], a));
    }
  }

  lemma {:induction false} InnerIsViews(lib: Lib, q: Query, outer: View, rows: seq<LP.Cell>, a: Acc)
    ensures ScanInner(lib, q, outer, rows, a) == ScanViews(lib, q, Extend(outer, rows), a)
    decreases |rows|
  {
    hide Visit;
    if rows != [] && a.stop.None? {
      InnerIsViews(lib, q, outer, rows[1..], Visit(lib, q, outer + [Some(rows[0])], a));
      assert Extend(outer, rows)[1..] == Extend(outer, rows[1..]);
    }
  }

  lemma {:induction false} JoinIsViews(lib: Lib, q: Query, rows: seq<LP.Cell>, inner: seq<LP.Cell>, a: Acc)
    ensures ScanJoin(lib, q, rows, inner, a) == ScanViews(lib, q, Cross(rows, inner), a)
    decreases |rows|
  {
    hide ScanInner, Extend;
    if rows != [] {
      InnerIsViews(lib, q, [Some(rows[0])], inner, a);
      ScanViewsConcat(lib, q, Extend([Some(rows[0])], inner), Cross(rows[1..], inner), a);
      if a.stop.None? {
        JoinIsViews(lib, q, rows[1..], inner, ScanInner(lib, q, [Some(rows[0])], inner, a));
      }
    }
  }

  /** The scan is one pass over the views of the FROM clause. */
  lemma ScanIsViews(lib: Lib, q: Query, tables: map<string, Table>)
    requires q.tables != []
    ensures ScanAll(lib, q, tables) == ScanViews(lib, q, Views(q, tables), Acc(Value.Null, [], None))
  {
    hide ScanInner, ScanJoin, Seen, Extend, Cross, ScanViews;
    var start := Acc(Value.Null, [], None);
    if Joins(q) { JoinIsViews(lib, q, Seen(TableOf(tables, q.tables[0])), Seen(TableOf(tables, q.tables[1])), start); }
    else { InnerIsViews(lib, q, [], Seen(TableOf(tables, q.tables[0])), start); }
  }

  // ---- When code and meaning agree -------------------------------------------------------------------

  /** No column of the query occurs in the expression. */
  predicate NoColumns(q: Query, e: Expr) {
    && ResolveColumn(e, q.cat, q.tables).Err?
    && match e
       case Binary(_, left, right) => NoColumns(q, left) && NoColumns(q, right)
       case Unary(_, expr) => NoColumns(q, expr)
       case _ => true
  }

  /** A column on its own, or a plain expression without columns. */
  predicate FaithfulOperand(q: Query, e: Expr) { ResolveColumn(e, q.cat, q.tables).Ok? || (NoColumns(q, e) && Plain(e)) }

  /** A test on such operands. */
  predicate FaithfulPred(q: Query, e: Expr) {
    if e.Binary? then TestOp(e.bop) && FaithfulOperand(q, e.left) && FaithfulOperand(q, e.right) else FaithfulOperand(q, e)
  }

  predicate FaithfulTest(q: Query, p: Option<Expr>) { p.Some? ==> FaithfulPred(q, p.value) }

  predicate FaithfulQuery(q: Query) {
    && FaithfulTest(q, q.on) && FaithfulTest(q, q.where)
    && forall i | 0 <= i < |q.plan.sources| :: q.plan.sources[i].FromExpr? ==> FaithfulOperand(q, q.plan.sources[i].e)
  }

  lemma {:induction false} NoColumnsMeaning(lib: Lib, q: Query, view: View, e: Expr)
    requires NoColumns(q, e)
    ensures SqlValue(lib, q, view, e) == Meaning(lib, e)
  {
    hide ResolveColumn, SqlBinary, SqlUnary;
    match e
    case Binary(_, left, right) => NoColumnsMeaning(lib, q, view, left); NoColumnsMeaning(lib, q, view, right);
    case Unary(_, expr) => NoColumnsMeaning(lib, q, view, expr);
    case _ =>
  }

  lemma OperandMeans(lib: Lib, q: Query, view: View, e: Expr, reg0: Value)
    requires FaithfulOperand(q, e)
    ensures OperandValue(lib, q, view, e, reg0) == SqlValue(lib, q, view, e)
  {
    hide ResolveColumn, Eval, Meaning, Plain;
    if ResolveColumn(e, q.cat, q.tables).Err? {
      NoColumnsMeaning(lib, q, view, e);
      PlainEval(lib, e, reg0);
    }
  }

  /** The operands of the test are not such that a null misleads the machine. */
  predicate NullSafe(lib: Lib, q: Query, view: View, p: Option<Expr>) {
    p.Some? && p.value.Binary? ==>
      var a, b := SqlValue(lib, q, view, p.value.left), SqlValue(lib, q, view, p.value.right);
      a.Ok? && b.Ok? ==> !NullTrap(lib, p.value.bop, a.value, b.value)
  }

  /** A condition that is evaluated without error lets a row pass as SQL has it exactly if no null
      misleads it. */
  lemma PredMeans(lib: Lib, q: Query, view: View, p: Option<Expr>, reg0: Value)
    requires FaithfulTest(q, p)
    ensures var r := Passes(lib, q, view, p, reg0);
            if r.Ok? then (r.value == Holds(lib, q, view, p) <==> NullSafe(lib, q, view, p)) else !Holds(lib, q, view, p)
  {
    hide ResolveColumn, OperandValue, Operate, SqlBinary, Truthy, NullTrap, FaithfulOperand;
    if p.Some? {
      var e := p.value;
      if e.Binary? {
        OperandMeans(lib, q, view, e.left, reg0);
        OperandMeans(lib, q, view, e.right, reg0);
        BinaryUnresolved(q, e);
        SameOpcode(e.bop);
        var a, b := SqlValue(lib, q, view, e.left), SqlValue(lib, q, view, e.right);
        if a.Ok? && b.Ok? { TestExact(lib, e.bop, a.value, b.value); }
      } else {
        OperandMeans(lib, q, view, e, reg0);
      }
    }
  }

  lemma SameOpcode(op: BinaryOp)
    requires TestOp(op)
    ensures PredOpcode(op) == BinaryOpcode(op)
  {
  }

  lemma BinaryUnresolved(q: Query, e: Expr)
    requires e.Binary?
    ensures ResolveColumn(e, q.cat, q.tables).Err?
  {
  }

  lemma {:induction false} LoadMeans(lib: Lib, q: Query, view: View, n: nat, reg0: Value)
    requires FaithfulQuery(q) && n <= |q.plan.sources| && LoadValues(lib, q, view, n, reg0).Ok?
    ensures LoadValues(lib, q, view, n, reg0).value == Project(lib, q, view, n)
    decreases n
  {
    hide FaithfulOperand, FaithfulTest, OperandValue, ColumnOf, SqlValue;
    if n > 0 {
      LoadMeans(lib, q, view, n - 1, reg0);
      var row, s := LoadValues(lib, q, view, n - 1, reg0).value, q.plan.sources[n - 1];
      if s.FromExpr? { OperandMeans(lib, q, view, s.e, if n == 1 then reg0 else row[0]); }
      assert Project(lib, q, view, n) == Project(lib, q, view, n - 1) + [Project(lib, q, view, n)[n - 1]];
    }
  }

  /** No null misleads ON, nor WHERE where it is evaluated. */
  predicate ViewSafe(lib: Lib, q: Query, view: View) {
    NullSafe(lib, q, view, q.on) && (Holds(lib, q, view, q.on) ==> NullSafe(lib, q, view, q.where))
  }

  lemma VisitMeans(lib: Lib, q: Query, view: View, a: Acc)
    requires FaithfulQuery(q) && ViewSafe(lib, q, view) && a.stop.None? && Visit(lib, q, view, a).stop.None?
    ensures Visit(lib, q, view, a).rows == a.rows + Wanted(lib, q, [view])
  {
    hide FaithfulOperand, Passes, LoadValues, Project, Holds, NullSafe;
    PredMeans(lib, q, view, q.on, a.reg0);
    PredMeans(lib, q, view, q.where, a.reg0);
    if LoadValues(lib, q, view, |q.plan.sources|, a.reg0).Ok? {
      LoadMeans(lib, q, view, |q.plan.sources|, a.reg0);
    }
    assert Wanted(lib, q, [view][1..]) == [];
  }

  /** A scan that meets no error gives exactly the rows that were asked for, in order. */
  lemma {:induction false} ScanMeans(lib: Lib, q: Query, views: seq<View>, a: Acc)
    requires FaithfulQuery(q) && a.stop.None? && ScanViews(lib, q, views, a).stop.None?
    requires forall i | 0 <= i < |views| :: ViewSafe(lib, q, views[i])
    ensures ScanViews(lib, q, views, a).rows == a.rows + Wanted(lib, q, views)
    decreases |views|
  {
    hide FaithfulQuery, Visit, ViewSafe;
    if views != [] {
      VisitMeans(lib, q, views[0], a);
      WantedStep(lib, q, views);
      ScanMeans(lib, q, views[1..], Visit(lib, q, views[0], a));
    }
  }

  lemma WantedStep(lib: Lib, q: Query, views: seq<View>)
    requires views != []
    ensures Wanted(lib, q, views) == Wanted(lib, q, [views[0]]) + Wanted(lib, q, views[1..])
  {
    hide Holds, Project;
    assert Wanted(lib, q, [views[0]][1..]) == [];
  }

  // ---- Scans without errors ------------------------------------------------------------------------------

  /** Without `%` nothing that is evaluated can fail. */
  predicate NoModulo(e: Expr) {
    match e
    case Binary(op, left, right) => op != BinaryOp.Mod && NoModulo(left) && NoModulo(right)
    case Unary(_, expr) => NoModulo(expr)
    case _ => true
  }

  predicate SafeTest(p: Option<Expr>) {
    p.Some? ==> if p.value.Binary? then NoModulo(p.value.left) && NoModulo(p.value.right) else NoModulo(p.value)
  }

  predicate SafeQuery(q: Query) {
    && SafeTest(q.on) && SafeTest(q.where)
    && forall i | 0 <= i < |q.plan.sources| :: q.plan.sources[i].FromExpr? ==> NoModulo(q.plan.sources[i].e)
  }

  predicate Readable(lib: Lib, view: View) { forall i | 0 <= i < |view| :: RowValues(lib, view[i]).Ok? }

  lemma {:induction false} EvalSafe(lib: Lib, e: Expr, reg0: Value)
    requires NoModulo(e)
    ensures Eval(lib, e, reg0).Ok?
  {
    match e
    case Binary(op, left, right) =>
      EvalSafe(lib, left, reg0);
      EvalSafe(lib, right, reg0);
      assert BinaryOpcode(op) != Opcode.Remainder;
    case Unary(_, expr) => EvalSafe(lib, expr, reg0);
    case _ =>
  }

  lemma OperandSafe(lib: Lib, q: Query, view: View, e: Expr, reg0: Value)
    requires NoModulo(e) && Readable(lib, view)
    ensures OperandValue(lib, q, view, e, reg0).Ok?
  {
    hide ResolveColumn, RowValues, Eval, NoModulo;
    if ResolveColumn(e, q.cat, q.tables).Err? { EvalSafe(lib, e, reg0); }
  }

  lemma TestSafe(lib: Lib, q: Query, view: View, p: Option<Expr>, reg0: Value)
    requires SafeTest(p) && Readable(lib, view)
    ensures Passes(lib, q, view, p, reg0).Ok?
  {
    hide Readable, OperandValue, Truthy, NoModulo;
    if p.Some? {
      if p.value.Binary? {
        OperandSafe(lib, q, view, p.value.left, reg0);
        OperandSafe(lib, q, view, p.value.right, reg0);
      } else {
        OperandSafe(lib, q, view, p.value, reg0);
      }
    }
  }

  lemma {:induction false} LoadSafe(lib: Lib, q: Query, view: View, n: nat, reg0: Value)
    requires SafeQuery(q) && Readable(lib, view) && n <= |q.plan.sources|
    ensures LoadValues(lib, q, view, n, reg0).Ok?
    decreases n
  {
    hide OperandValue, NoModulo, RowValues, SafeTest;
    if n > 0 {
      LoadSafe(lib, q, view, n - 1, reg0);
      var row, s := LoadValues(lib, q, view, n - 1, reg0).value, q.plan.sources[n - 1];
      if s.FromExpr? { OperandSafe(lib, q, view, s.e, if n == 1 then reg0 else row[0]); }
    }
  }

  lemma VisitSafe(lib: Lib, q: Query, view: View, a: Acc)
    requires SafeQuery(q) && Readable(lib, view) && a.stop.None?
    ensures Visit(lib, q, view, a).stop.None?
  {
    hide Passes, LoadValues, Readable;
    TestSafe(lib, q, view, q.on, a.reg0);
    TestSafe(lib, q, view, q.where, a.reg0);
    LoadSafe(lib, q, view, |q.plan.sources|, a.reg0);
  }

  lemma {:induction false} ScanSafe(lib: Lib, q: Query, views: seq<View>, a: Acc)
    requires SafeQuery(q) && a.stop.None? && forall i | 0 <= i < |views| :: Readable(lib, views[i])
    ensures ScanViews(lib, q, views, a).stop.None?
    decreases |views|
  {
    hide SafeQuery, Visit, Readable;
    if views != [] {
      VisitSafe(lib, q, views[0], a);
      ScanSafe(lib, q, views[1..], Visit(lib, q, views[0], a));
    }
  }

  // ---- The theorem -----------------------------------------------------------------------------------------

  /** Every row that the scan can meet decodes. */
  predicate AllReadable(lib: Lib, q: Query, tables: map<string, Table>)
    requires q.tables != []
  { forall i | 0 <= i < |Views(q, tables)| :: Readable(lib, Views(q, tables)[i]) }

  /** No null misleads the conditions on any row that the scan can meet. */
  predicate AllSafe(lib: Lib, q: Query, tables: map<string, Table>)
    requires q.tables != []
  { forall i | 0 <= i < |Views(q, tables)| :: ViewSafe(lib, q, Views(q, tables)[i]) }

  /** SELECT over one table or two joined tables: with columns only as select items or direct operands of
      the conditions, and no null in those that misleads the machine, the compiled program halts with
      what it makes of the projections of the rows, or of the pairs of rows in outer-major order, for
      which ON and WHERE are true: these rows themselves, grouped and sorted by the plan. */
  lemma SelectAnswers(lib: Lib, q: Query, tables: map<string, Table>) returns (t: State)
    requires QueryOk(q) && Wide(q) && Walks(lib) && Scannable(q, tables)
    requires FaithfulQuery(q) && SafeQuery(q) && AllReadable(lib, q, tables) && AllSafe(lib, q, tables)
    ensures Reaches(lib, SelectCode(q), Fresh(tables), t) && t.status == Done && t.tables == tables
    ensures var rows := Wanted(lib, q, Views(q, tables));
            AllWide(Arranged(lib, q, rows), q.plan.outputWidth) && t.out == Answer(lib, q, rows)
  {
    hide Reaches, SelectCode, ScanAll, ScanViews, Views, Wanted, Arranged, Scannable, FaithfulQuery, SafeQuery, QueryOk, Wide, Readable, ViewSafe;
    t := SelectRuns(lib, q, tables);
    QueryHasTables(q);
    ScanIsViews(lib, q, tables);
    ScanSafe(lib, q, Views(q, tables), Acc(Value.Null, [], None));
    ScanMeans(lib, q, Views(q, tables), Acc(Value.Null, [], None));
    assert [] + Wanted(lib, q, Views(q, tables)) == Wanted(lib, q, Views(q, tables));
  }

  /** Without GROUP BY and aggregates these are exactly the rows that SQL asks for: in scan order, or under
      ORDER BY sorted by the keys, each row once, rows with equal keys in scan order. */
  lemma SelectMeans(lib: Lib, q: Query, tables: map<string, Table>) returns (t: State)
    requires QueryOk(q) && Walks(lib) && Scannable(q, tables) && !q.plan.aggregated && !q.grouped
    requires FaithfulQuery(q) && SafeQuery(q) && AllReadable(lib, q, tables) && AllSafe(lib, q, tables)
    ensures Reaches(lib, SelectCode(q), Fresh(tables), t) && t.status == Done && t.tables == tables
    ensures var rows := Wanted(lib, q, Views(q, tables));
            && (!q.ordered ==> t.out == rows)
            && (q.ordered ==> multiset(t.out) == multiset(rows))
            && (q.ordered ==> forall kinds | AllKinded(q.plan.sortKeys, kinds, rows) :: Sorts(lib, q.plan.sortKeys, kinds, rows, t.out))
  {
    hide Reaches, SelectCode, Views, Wanted, Scannable, FaithfulQuery, SafeQuery, AllReadable, AllSafe, SortRows, AllKinded, Sorts;
    t := SelectAnswers(lib, q, tables);
    QueryHasTables(q);
    var rows := Wanted(lib, q, Views(q, tables));
    WantedWidth(lib, q, Views(q, tables));
    if q.ordered {
      SortPermutes(lib, q.plan.sortKeys, rows);
      SameWidth(rows, SortRows(lib, q.plan.sortKeys, rows), |q.plan.sources|);
      WholeShown(SortRows(lib, q.plan.sortKeys, rows), |q.plan.sources|);
      forall kinds | AllKinded(q.plan.sortKeys, kinds, rows) ensures Sorts(lib, q.plan.sortKeys, kinds, rows, t.out) {
        SortSorts(lib, q.plan.sortKeys, kinds, rows);
      }
    }
  }

  lemma {:induction false} WantedWidth(lib: Lib, q: Query, views: seq<View>)
    ensures forall i | 0 <= i < |Wanted(lib, q, views)| :: |Wanted(lib, q, views)[i]| == |q.plan.sources|
  {
    hide Holds;
    if views != [] { WantedWidth(lib, q, views[1..]); }
  }

  lemma SameWidth(rows: seq<Row>, out: seq<Row>, w: nat)
    requires multiset(out) == multiset(rows) && forall i | 0 <= i < |rows| :: |rows[i]| == w
    ensures forall i | 0 <= i < |out| :: |out[i]| == w
  {
    forall i | 0 <= i < |out| ensures |out[i]| == w {
      assert out[i] in multiset(out);
      assert out[i] in rows;
    }
  }

  lemma WholeShown(rows: seq<Row>, w: nat)
    requires forall i | 0 <= i < |rows| :: |rows[i]| == w
    ensures AllWide(rows, w) && Shown(rows, w) == rows
  {
    forall i | 0 <= i < |rows| ensures rows[i][..w] == rows[i] {
    }
  }

  lemma QueryHasTables(q: Query)
    requires QueryOk(q)
    ensures q.tables != []
  {
  }

  // ---- Where it does not ---------------------------------------------------------------------------------------

  /** A column below the top operator is compiled to null: conditions whose operands are not columns
      themselves, such as `a = 1 AND b = 2`, have the same value on every row. */
  lemma NestedColumnsBlind(lib: Lib, q: Query, view: View, view': View, e: Expr, reg0: Value)
    requires e.Binary? && ResolveColumn(e.left, q.cat, q.tables).Err? && ResolveColumn(e.right, q.cat, q.tables).Err?
    ensures PredValue(lib, q, view, e, reg0) == PredValue(lib, q, view', e, reg0)
  {
    hide ResolveColumn, Eval, Operate;
  }

  function ColumnIs(column: string, n: i64): Expr { Binary(BinaryOp.Eq, Ident(column), IntLit(n)) }

  /** In particular a conjunction with a comparison of a column and an integer never lets a row pass. */
  lemma ConjunctionFails(lib: Lib, q: Query, view: View, column: string, n: i64, other: Expr, reg0: Value)
    requires ResolveColumn(other, q.cat, q.tables).Err?
    ensures var e := Binary(BinaryOp.And, ColumnIs(column, n), other);
            Passes(lib, q, view, Some(e), reg0).Ok? ==> Passes(lib, q, view, Some(e), reg0) == Ok(false)
  {
    hide ResolveColumn, Eval;
    BinaryUnresolved(q, ColumnIs(column, n));
    ColumnTestFalse(lib, column, n, reg0);
    FalseAnd(lib, Bool(false));
  }

  lemma ColumnTestFalse(lib: Lib, column: string, n: i64, reg0: Value)
    ensures Eval(lib, ColumnIs(column, n), reg0) == Ok(Bool(false))
  {
    hide ToI32;
    assert Eval(lib, Ident(column), reg0) == Ok(Value.Null) && Eval(lib, IntLit(n), reg0) == Ok(Value.Integer(ToI32(n)));
  }

  lemma FalseAnd(lib: Lib, v: Value)
    requires v == Bool(false)
    ensures forall w :: Operate(lib, PredOpcode(BinaryOp.And), v, w) == Ok(Bool(false))
    ensures !Truthy(lib, Bool(false))
  {
  }

  /** A scan under such a condition gives no row at all, so it is right exactly if no row was asked for. */
  lemma {:induction false} ConjunctionExact(lib: Lib, q: Query, views: seq<View>, a: Acc, column: string, n: i64, other: Expr)
    requires q.where == Some(Binary(BinaryOp.And, ColumnIs(column, n), other)) && ResolveColumn(other, q.cat, q.tables).Err?
    requires a.stop.None? && ScanViews(lib, q, views, a).stop.None?
    ensures ScanViews(lib, q, views, a).rows == a.rows
    ensures ScanViews(lib, q, views, a).rows == a.rows + Wanted(lib, q, views) <==>
              forall i | 0 <= i < |views| :: !(Holds(lib, q, views[i], q.on) && Holds(lib, q, views[i], q.where))
    decreases |views|
  {
    hide Passes, ResolveColumn, Holds, Project, LoadValues;
    WantedNone(lib, q, views);
    if views != [] {
      ConjunctionFails(lib, q, views[0], column, n, other, a.reg0);
      ConjunctionExact(lib, q, views[1..], Visit(lib, q, views[0], a), column, n, other);
    }
  }

  lemma {:induction false} WantedNone(lib: Lib, q: Query, views: seq<View>)
    ensures Wanted(lib, q, views) == [] <==> forall i | 0 <= i < |views| :: !(Holds(lib, q, views[i], q.on) && Holds(lib, q, views[i], q.where))
  {
    hide Holds, Project;
    if views != [] {
      WantedNone(lib, q, views[1..]);
      assert forall i | 0 < i < |views| :: views[i] == views[1..][i - 1];
      assert forall i | 0 <= i < |views| - 1 :: views[1..][i] == views[i + 1];
    }
  }

  /** A row that has both values, and does not pass. */
  lemma ConjunctionLoses(lib: Lib, q: Query, view: View, x: string, n: i64, y: string, m: i64, reg0: Value)
    requires ResolveColumn(Ident(x), q.cat, q.tables).Ok? && ColumnOf(lib, view, ResolveColumn(Ident(x), q.cat, q.tables).value) == Ok(Value.Integer(n))
    requires ResolveColumn(Ident(y), q.cat, q.tables).Ok? && ColumnOf(lib, view, ResolveColumn(Ident(y), q.cat, q.tables).value) == Ok(Value.Integer(m))
    ensures var e := Binary(BinaryOp.And, ColumnIs(x, n), ColumnIs(y, m));
            Holds(lib, q, view, Some(e)) && Passes(lib, q, view, Some(e), reg0) == Ok(false)
  {
    hide ResolveColumn, ColumnOf, Eval, Operate;
    BinaryUnresolved(q, ColumnIs(x, n));
    BinaryUnresolved(q, ColumnIs(y, m));
    BinaryUnresolved(q, Binary(BinaryOp.And, ColumnIs(x, n), ColumnIs(y, m)));
    SqlIs(lib, q, view, x, n);
    SqlIs(lib, q, view, y, m);
    ColumnTestFalse(lib, x, n, reg0);
    ColumnTestFalse(lib, y, m, reg0);
    FalseAnd(lib, Bool(false));
  }

  lemma SqlIs(lib: Lib, q: Query, view: View, x: string, n: i64)
    requires ResolveColumn(Ident(x), q.cat, q.tables).Ok? && ColumnOf(lib, view, ResolveColumn(Ident(x), q.cat, q.tables).value) == Ok(Value.Integer(n))
    ensures SqlValue(lib, q, view, ColumnIs(x, n)) == Ok(Bool(true))
  {
    hide ResolveColumn, ColumnOf;
    BinaryUnresolved(q, ColumnIs(x, n));
    IntLitUnresolved(q, n);
    assert SqlValue(lib, q, view, Ident(x)) == Ok(Value.Integer(n));
    assert SqlValue(lib, q, view, IntLit(n)) == Ok(Value.Integer(n));
  }

  lemma IntLitUnresolved(q: Query, n: i64)
    ensures ResolveColumn(IntLit(n), q.cat, q.tables).Err?
  {
  }

  /** Such a row: a table t(a, b) with the row (1, 2), and `WHERE a = 1 AND b = 2`. */
  lemma ConjunctionInput(lib: Lib, reg0: Value)
    ensures exists q: Query, view: View ::
              && q.where == Some(Binary(BinaryOp.And, ColumnIs("a", 1), ColumnIs("b", 2)))
              && q.tables == [Binding("t", "t")] && q.cat == map["t" := ["a", "b"]]
              && Holds(lib, q, view, q.where) && Passes(lib, q, view, q.where, reg0) == Ok(false)
  {
    hide Holds, Passes, Record.Encode, Record.Decode, ResolveColumn, Record.Storable;
    var cat, tables := map["t" := ["a", "b"]], [Binding("t", "t")];
    var row := [Value.Integer(1), Value.Integer(2)];
    var where := Some(Binary(BinaryOp.And, ColumnIs("a", 1), ColumnIs("b", 2)));
    var q := Query(cat, tables, None, where, Plan([], 0, false, GroupSpec([], []), []), false, false);
    var view: View := [Some(LP.Cell(1, Record.Encode(row)))];
    SmallStorable(lib, 1, 2);
    Record.RoundTrip(lib, row, []);
    assert Record.Encode(row) + [] == Record.Encode(row);
    FirstColumn();
    SecondColumn();
    ConjunctionLoses(lib, q, view, "a", 1, "b", 2, reg0);
  }

  lemma FirstColumn()
    ensures ResolveColumn(Ident("a"), map["t" := ["a", "b"]], [Binding("t", "t")]) == Ok(ColumnRef(0, 0))
  {
    TwoColumns();
    assert Owners([Binding("t", "t")][..0], map["t" := ["a", "b"]], "a") == [];
  }

  lemma SecondColumn()
    ensures ResolveColumn(Ident("b"), map["t" := ["a", "b"]], [Binding("t", "t")]) == Ok(ColumnRef(0, 1))
  {
    TwoColumns();
    assert Owners([Binding("t", "t")][..0], map["t" := ["a", "b"]], "b") == [];
  }

  lemma TwoColumns()
    ensures ColumnIndex(["a", "b"], "a") == Some(0) && ColumnIndex(["a", "b"], "b") == Some(1) && Lower("t") == "t"
  {
    assert Lower("a")[0] == 'a' && Lower("b")[0] == 'b';
    assert ["a", "b"][1..] == ["b"];
  }

  lemma SmallStorable(lib: Lib, n: i64, m: i64)
    requires 0 <= n < 128 && 0 <= m < 128
    ensures Record.Storable(lib, [Value.Integer(n), Value.Integer(m)])
  {
    hide Varint.Enc, Record.Serials;
    Record.SerialsOfTwo(Value.Integer(n), Value.Integer(m));
    Varint.EncLength(1);
    Varint.EncLength(2);
  }
}
