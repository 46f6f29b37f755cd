/** Whole statements: compiled, run to the end, and what the caller gets (connection.rs). */
module Statements {
  import opened Bytes
  import opened Names
  import opened Values
  import opened Ast
  import opened Program
  import opened SortGroup
  import opened SelectPlan
  import opened VirtualMachine
  import opened CompileSelect
  import opened CompileDml
  import opened SelectRun
  import opened DmlRun
  import opened Vdbe
  import LeafList
  import SelectMeaning
  import LP = LeafPage
  import Record

  // ---- SELECT COUNT(*) ------------------------------------------------------------------------

  /** `simple_count_star`: whatever the WHERE clause is. */
  predicate IsSimpleCount(select: Select) {
    && select.groupBy == [] && select.orderBy == [] && select.from.Some? && select.from.value.Table?
    && |select.columns| == 1 && select.columns[0].Call? && SameName(select.columns[0].func, "count")
    && |select.columns[0].args| == 1 && select.columns[0].args[0].Star?
  }

  function CountCode(name: string): seq<Insn> {
    [Op(Opcode.Init, 0, 1, 0), Op(Opcode.OpenRead, 0, 0, 0).(p4 := Name(name)), Op(Opcode.Count, 0, 0, 0),
     Op(Opcode.ResultRow, 1, 0, 0), Op(Opcode.Halt, 0, 0, 0)]
  }

  /** `compile_simple_count`. */
  method EmitCount(name: string) returns (prog: Program)
    ensures fresh(prog) && prog.insns == CountCode(name)
  {
    prog := new Program();
    var _ := prog.Emit(Op(Opcode.Init, 0, 1, 0));
    var _ := prog.Emit(Op(Opcode.OpenRead, 0, 0, 0).(p4 := Name(name)));
    var _ := prog.Emit(Op(Opcode.Count, 0, 0, 0));
    var _ := prog.Emit(Op(Opcode.ResultRow, 1, 0, 0));
    var _ := prog.Emit(Op(Opcode.Halt, 0, 0, 0));
  }

  lemma CountStarts(lib: Lib, name: string, tables: map<string, Table>) returns (t: State)
    requires Lower(name) in tables
    ensures Reaches(lib, CountCode(name), Start(tables, 8), t)
    ensures t == Start(tables, 8).(pc := 2, cursors := map[0 := CursorState(Lower(name), LeafList.Start())])
  {
    hide Reaches, Calc, ExecMove, ExecChange, ExecBuffer;
    var s := Start(tables, 8);
    var u := Step(lib, CountCode(name), s);
    t := Step(lib, CountCode(name), u);
    ReachStep(lib, CountCode(name), s);
    ReachStep(lib, CountCode(name), u);
    ReachThen(lib, CountCode(name), s, u, t);
  }

  lemma CountEnds(lib: Lib, name: string, s: State) returns (t: State)
    requires s.pc == 3 && s.status == Running
    ensures Reaches(lib, CountCode(name), s, t) && t == s.(pc := 5, status := Done, out := s.out + [[Reg(s.regs, 0)]])
  {
    hide Reaches, Calc, ExecMove, ExecChange, ExecBuffer;
    var u := Step(lib, CountCode(name), s);
    t := Step(lib, CountCode(name), u);
    ReachStep(lib, CountCode(name), s);
    ReachStep(lib, CountCode(name), u);
    ReachThen(lib, CountCode(name), s, u, t);
    assert Regs(s.regs, 0, 1) == [Reg(s.regs, 0)];
  }

  /** COUNT(*) gives one row, the number of rows a scan sees. */
  lemma CountRuns(lib: Lib, name: string, tables: map<string, Table>) returns (t: State)
    requires Lower(name) in tables && |Seen(tables[Lower(name)])| < TWO63
    ensures Reaches(lib, CountCode(name), Start(tables, 8), t) && t.status == Done && t.tables == tables
    ensures t.out == [[Value.Integer(|Seen(tables[Lower(name)])|)]]
  {
    hide Reaches, SetReg, Calc, ExecControl, ExecChange, ExecBuffer;
    var s := CountStarts(lib, name, tables);
    var u := Step(lib, CountCode(name), s);
    ReachStep(lib, CountCode(name), s);
    ReachThen(lib, CountCode(name), Start(tables, 8), s, u);
    t := CountEnds(lib, name, u);
    ReachThen(lib, CountCode(name), Start(tables, 8), u, t);
  }

  /** The query that such a statement asks for, as far as its condition goes. */
  function CountQuery(select: Select, cat: Catalog): Query
    requires IsSimpleCount(select)
  {
    var from := select.from.value;
    var binding := Binding(from.name, if from.alias.Some? then from.alias.value else from.name);
    Query(cat, [binding], None, select.where, Plan([], 0, false, GroupSpec([], []), []), false, false)
  }

  /** The rows for which WHERE is true, counted. */
  function MatchCount(lib: Lib, q: Query, rows: seq<LP.Cell>): (n: nat)
    ensures n <= |rows|
  {
    if rows == [] then 0
    else (if SelectMeaning.Holds(lib, q, [Some(rows[0])], q.where) then 1 else 0) + MatchCount(lib, q, rows[1..])
  }

  lemma {:induction false} MatchAll(lib: Lib, q: Query, rows: seq<LP.Cell>)
    ensures MatchCount(lib, q, rows) == |rows| <==> forall i | 0 <= i < |rows| :: SelectMeaning.Holds(lib, q, [Some(rows[i])], q.where)
  {
    hide SelectMeaning.Holds;
    if rows != [] {
      MatchAll(lib, q, rows[1..]);
      assert forall i | 0 < i < |rows| :: rows[i] == rows[1..][i - 1];
      assert forall i | 0 <= i < |rows| - 1 :: rows[1..][i] == rows[i + 1];
    }
  }

  /** COUNT(*) drops its condition: the number is right exactly if WHERE is true for every row that a scan
      sees. */
  lemma CountExact(lib: Lib, select: Select, cat: Catalog, tables: map<string, Table>) returns (t: State)
    requires IsSimpleCount(select) && var name := Lower(select.from.value.name); name in tables && |Seen(tables[name])| < TWO63
    ensures Reaches(lib, CountCode(select.from.value.name), Start(tables, 8), t) && t.status == Done
    ensures var q, rows := CountQuery(select, cat), Seen(tables[Lower(select.from.value.name)]);
            t.out == [[Value.Integer(MatchCount(lib, q, rows))]] <==>
              forall i | 0 <= i < |rows| :: SelectMeaning.Holds(lib, q, [Some(rows[i])], q.where)
  {
    hide Reaches, CountCode, Seen, SelectMeaning.Holds, MatchCount;
    var q, rows := CountQuery(select, cat), Seen(tables[Lower(select.from.value.name)]);
    t := CountRuns(lib, select.from.value.name, tables);
    MatchAll(lib, q, rows);
    assert t.out[0] == [Value.Integer(|rows|)];
    assert t.out == [[Value.Integer(MatchCount(lib, q, rows))]] <==> |rows| == MatchCount(lib, q, rows) by {
      OneNumber(|rows|, MatchCount(lib, q, rows));
    }
  }

  lemma OneNumber(n: nat, m: nat)
    requires n < TWO63 && m < TWO63
    ensures [[Value.Integer(n)]] == [[Value.Integer(m)]] <==> n == m
  {
    if [[Value.Integer(n)]] == [[Value.Integer(m)]] {
      assert [[Value.Integer(n)]][0][0] == [[Value.Integer(m)]][0][0];
    }
  }

  /** A wrong number: 1 for `SELECT COUNT(*) FROM t WHERE a = 1` on a table t(a, b) with the one row (5, 5). */
  lemma CountInput(lib: Lib) returns (t: State)
    ensures var cell := LP.Cell(1, Record.Encode([Value.Integer(5), Value.Integer(5)]));
            var select := Select([Call("count", [Star])], Some(TableRef.Table("t", None)), Some(SelectMeaning.ColumnIs("a", 1)), [], []);
            var q := CountQuery(select, map["t" := ["a", "b"]]);
            && Reaches(lib, CountCode("t"), Start(map["t" := [[cell]]], 8), t) && t.status == Done && t.out == [[Value.Integer(1)]]
            && MatchCount(lib, q, [cell]) == 0
  {
    hide Reaches, CountCode, Record.Encode, Record.Decode;
    var row := [Value.Integer(5), Value.Integer(5)];
    var cell := LP.Cell(1, Record.Encode(row));
    var select := Select([Call("count", [Star])], Some(TableRef.Table("t", None)), Some(SelectMeaning.ColumnIs("a", 1)), [], []);
    var q := CountQuery(select, map["t" := ["a", "b"]]);
    var tables: map<string, Table> := map["t" := [[cell]]];
    SelectMeaning.TwoColumns();
    assert Seen(tables["t"]) == [cell] by { OneRowSeen(cell); }
    t := CountRuns(lib, "t", tables);
    SelectMeaning.SmallStorable(lib, 5, 5);
    Record.RoundTrip(lib, row, []);
    assert Record.Encode(row) + [] == Record.Encode(row);
    SelectMeaning.FirstColumn();
    OtherValue(lib, q, [Some(cell)]);
    assert [cell][1..] == [];
  }

  lemma OneRowSeen(cell: LP.Cell)
    ensures Seen([[cell]]) == [cell]
  {
    var ls: Table := [[cell]];
    assert ls[1..] == [] && LeafList.Visible(ls[1..]) == [];
    assert LeafList.Visible(ls) == ls;
    assert LeafList.Flat(ls[1..]) == [] && [cell] + [] == [cell];
  }

  lemma OtherValue(lib: Lib, q: Query, view: View)
    requires ResolveColumn(Ident("a"), q.cat, q.tables) == Ok(ColumnRef(0, 0)) && ColumnOf(lib, view, ColumnRef(0, 0)) == Ok(Value.Integer(5))
    ensures !SelectMeaning.Holds(lib, q, view, Some(SelectMeaning.ColumnIs("a", 1)))
  {
    hide ResolveColumn, ColumnOf;
    SelectMeaning.BinaryUnresolved(q, SelectMeaning.ColumnIs("a", 1));
    SelectMeaning.IntLitUnresolved(q, 1);
    assert SelectMeaning.SqlValue(lib, q, view, Ident("a")) == Ok(Value.Integer(5));
    assert SelectMeaning.SqlValue(lib, q, view, IntLit(1)) == Ok(Value.Integer(1));
  }

  // ---- SELECT ---------------------------------------------------------------------------------------

  /** The database as a statement finds it: the catalogue's tables are there, each with a leaf. */
  ghost predicate Database(cat: Catalog, tables: map<string, Table>) {
    forall name | name in cat :: name in tables && tables[name] != []
  }

  lemma BoundTables(select: Select, cat: Catalog, tables: map<string, Table>)
    requires Prepare(select, cat).Ok? && Database(cat, tables)
    ensures forall b | b in Prepare(select, cat).value.tables :: Lower(b.name) in tables && tables[Lower(b.name)] != []
  {
    hide BuildPlan;
    var q := Prepare(select, cat).value;
    forall b | b in q.tables ensures Lower(b.name) in tables && tables[Lower(b.name)] != [] {
      var i :| 0 <= i < |q.tables| && q.tables[i] == b;
      assert Lookup(cat, q.tables[i].name).Some?;
    }
  }

  /** The rows of a SELECT: those of its scan, arranged, or the error that stopped it. */
  function Expected(lib: Lib, q: Query, tables: map<string, Table>): Result<seq<Row>>
    requires QueryOk(q)
  {
    var a := ScanAll(lib, q, tables);
    if a.stop.Some? then Err(a.stop.value)
    else if Buffered(q) && AllWide(Arranged(lib, q, a.rows), q.plan.outputWidth) then Ok(Shown(Arranged(lib, q, a.rows), q.plan.outputWidth))
    else Ok(a.rows)
  }

  /** A SELECT from its syntax tree to the rows the caller gets. */
  method ExecSelect(lib: Lib, select: Select, cat: Catalog, tables: map<string, Table>) returns (r: Result<seq<Row>>)
    requires Walks(lib) && Database(cat, tables)
    requires forall name | name in tables :: |Seen(tables[name])| < TWO63
    requires !IsSimpleCount(select) && Prepare(select, cat).Ok? ==> Wide(Prepare(select, cat).value) && |Prepare(select, cat).value.tables| <= 2
    ensures select.from.None? ==> r == Err(Other)
    ensures IsSimpleCount(select) ==>
              var name := select.from.value.name;
              r == if Lookup(cat, name).None? then Err(Other) else Ok([[Value.Integer(|Seen(tables[Lower(name)])|)]])
    ensures select.from.Some? && !IsSimpleCount(select) ==>
              match Prepare(select, cat)
              case Err(e) => r == Err(e)
              case Ok(q) => r == Expected(lib, q, tables)
  {
    hide Seen, BuildPlan, BindTables, Reaches, ScanAll, Arranged, Shown, SelectCode, Wide, QueryOk;
    if select.from.None? {
      return Err(Other);
    }
    if IsSimpleCount(select) {
      var name := select.from.value.name;
      if Lookup(cat, name).None? {
        return Err(Other);
      }
      r := RunCount(lib, name, tables);
      return;
    }
    var q := Prepare(select, cat);
    if q.Err? {
      return Err(q.error);
    }
    BoundTables(select, cat, tables);
    r := RunSelect(lib, q.value, tables);
  }

  method RunCount(lib: Lib, name: string, tables: map<string, Table>) returns (r: Result<seq<Row>>)
    requires Walks(lib) && Lower(name) in tables && |Seen(tables[Lower(name)])| < TWO63
    ensures r == Ok([[Value.Integer(|Seen(tables[Lower(name)])|)]])
  {
    hide Seen, Reaches;
    var prog := EmitCount(name);
    var vm := new Vdbe(lib, prog.insns, tables, 8);
    ghost var t := CountRuns(lib, name, tables);
    var rows, result := RunAll(vm, t);
    return Ok(rows);
  }

  method RunSelect(lib: Lib, q: Query, tables: map<string, Table>) returns (r: Result<seq<Row>>)
    requires Walks(lib) && QueryOk(q) && Wide(q) && Scannable(q, tables)
    ensures r == Expected(lib, q, tables)
  {
    hide Reaches, ScanAll, Arranged, Shown, SelectCode, Wide, Scannable, SourcesOk;
    var prog := EmitSelect(q);
    var vm := new Vdbe(lib, prog.insns, tables, SELECT_REGISTERS);
    ghost var t := SelectRuns(lib, q, tables);
    var rows, result := RunAll(vm, t);
    if result.Stopped? {
      return Err(result.error);
    }
    return Ok(rows);
  }

  // ---- UPDATE and DELETE ------------------------------------------------------------------------------

  /** An UPDATE or DELETE: the tables afterwards, and the number of rows changed. */
  method ExecDml(lib: Lib, d: Dml, tables: map<string, Table>, nReg: nat) returns (tables': map<string, Table>, r: Result<nat>)
    requires Walks(lib) && DmlOk(d) && SimpleChange(d) && Lower(d.table) in tables
    ensures var a := SweepAll(lib, d, tables[Lower(d.table)]);
            && tables' == tables[Lower(d.table) := a.ls]
            && r == if a.stop.Some? then Err(a.stop.value) else Ok(a.changes)
  {
    hide Reaches, SweepAll, DmlCode, DmlOk, SimpleChange;
    var prog := EmitDml(d);
    var vm := new Vdbe(lib, prog.insns, tables, nReg);
    ghost var t := DmlRuns(lib, d, tables, if nReg < 8 then 8 else nReg);
    var rows, result := RunAll(vm, t);
    tables' := vm.tables;
    if result.Stopped? {
      return tables', Err(result.error);
    }
    return tables', Ok(vm.changes);
  }

  method ExecUpdate(lib: Lib, u: Update, cat: Catalog, tables: map<string, Table>) returns (tables': map<string, Table>, r: Result<nat>)
    requires Walks(lib) && Database(cat, tables)
    requires PrepareUpdate(u, cat).Ok? ==> SimpleChange(PrepareUpdate(u, cat).value)
    ensures match PrepareUpdate(u, cat)
            case Err(e) => r == Err(e) && tables' == tables
            case Ok(d) => Lower(u.table) in tables && var a := SweepAll(lib, d, tables[Lower(u.table)]);
              tables' == tables[Lower(u.table) := a.ls] && r == if a.stop.Some? then Err(a.stop.value) else Ok(a.changes)
  {
    hide ResolveAssignments, SweepAll, SimpleChange, DmlOk;
    var d := PrepareUpdate(u, cat);
    if d.Err? {
      return tables, Err(d.error);
    }
    tables', r := ExecDml(lib, d.value, tables, |d.value.columns| + 16);
  }

  method ExecDelete(lib: Lib, del: Delete, cat: Catalog, tables: map<string, Table>) returns (tables': map<string, Table>, r: Result<nat>)
    requires Walks(lib) && Database(cat, tables)
    ensures match PrepareDelete(del, cat)
            case Err(e) => r == Err(e) && tables' == tables
            case Ok(d) => Lower(del.table) in tables && var a := SweepAll(lib, d, tables[Lower(del.table)]);
              tables' == tables[Lower(del.table) := a.ls] && r == if a.stop.Some? then Err(a.stop.value) else Ok(a.changes)
  {
    hide SweepAll;
    var d := PrepareDelete(del, cat);
    if d.Err? {
      return tables, Err(d.error);
    }
    tables', r := ExecDml(lib, d.value, tables, 0);
  }
}
