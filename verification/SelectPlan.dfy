/** Name resolution and planning of a SELECT (compile_select.rs). */
module SelectPlan {
  import opened Bytes
  import opened Names
  import opened Ast
  import opened Program

  // ---- The FROM clause -------------------------------------------------------------------------

  /** A table in the FROM clause; its cursor number is its place in the list. */
  datatype Binding = Binding(name: string, alias: string)

  datatype JoinInfo = JoinInfo(joinType: JoinType, on: Option<Expr>)

  type Bindings = (seq<Binding>, Option<JoinInfo>)

  /** `collect_from`: the tables from left to right, and the condition of the join met last. */
  function CollectFrom(from: TableRef, cat: Catalog, b: Bindings): (r: Result<Bindings>)
    ensures r.Ok? ==> |r.value.0| > |b.0| && b.0 <= r.value.0
    ensures r.Ok? ==> forall i | |b.0| <= i < |r.value.0| :: Lookup(cat, r.value.0[i].name).Some?
  {
    match from
    case Table(name, alias) =>
      if Lookup(cat, name).None? then Err(Other)
      else Ok((b.0 + [Binding(name, if alias.Some? then alias.value else name)], b.1))
    case Subquery => Err(Other)
    case Join(left, right, joinType, on) =>
      var l :- CollectFrom(left, cat, b);
      var r :- CollectFrom(right, cat, l);
      Ok((r.0, Some(JoinInfo(joinType, on))))
  }

  /** The tables of a FROM clause from left to right. */
  function Flatten(from: TableRef): seq<Binding> {
    match from
    case Table(name, alias) => [Binding(name, if alias.Some? then alias.value else name)]
    case Subquery => []
    case Join(left, right, _, _) => Flatten(left) + Flatten(right)
  }

  predicate AllKnown(from: TableRef, cat: Catalog) {
    match from
    case Table(name, _) => Lookup(cat, name).Some?
    case Subquery => false
    case Join(left, right, _, _) => AllKnown(left, cat) && AllKnown(right, cat)
  }

  /** The pushing recursion lists the tables from left to right and keeps the condition of the outermost
      join only; it fails exactly on an unknown table or a subquery. */
  lemma {:induction false} CollectFromIs(from: TableRef, cat: Catalog, b: Bindings)
    ensures CollectFrom(from, cat, b) ==
              if AllKnown(from, cat) then Ok((b.0 + Flatten(from), if from.Join? then Some(JoinInfo(from.joinType, from.on)) else b.1))
              else Err(Other)
  {
    match from
    case Join(left, right, _, _) =>
      CollectFromIs(left, cat, b);
      if AllKnown(left, cat) {
        var l := CollectFrom(left, cat, b).value;
        CollectFromIs(right, cat, l);
        assert b.0 + Flatten(left) + Flatten(right) == b.0 + (Flatten(left) + Flatten(right));
      }
    case _ =>
  }

  /** The tables of a query that can be compiled, and the ON condition if there are several. */
  function BindTables(from: TableRef, cat: Catalog): (r: Result<(seq<Binding>, Option<Expr>)>)
    ensures r.Ok? ==> r.value.0 != [] && (|r.value.0| > 1 <==> r.value.1.Some?)
    ensures r.Ok? ==> forall i | 0 <= i < |r.value.0| :: Lookup(cat, r.value.0[i].name).Some?
  {
    var b :- CollectFrom(from, cat, ([], None));
    if |b.0| == 1 then Ok((b.0, None))
    else if b.1.None? || b.1.value.joinType != Inner || b.1.value.on.None? then Err(Other)
    else Ok((b.0, b.1.value.on))
  }

  // ---- Columns -------------------------------------------------------------------------------------

  datatype ColumnRef = ColumnRef(table: nat, column: nat)

  function ColumnsOf(cat: Catalog, b: Binding): seq<string> {
    var c := Lookup(cat, b.name);
    if c.Some? then c.value else []
  }

  /** `find_table_index`. */
  function FindTable(tables: seq<Binding>, name: string): (r: Option<nat>)
    ensures r.Some? ==> r.value < |tables|
  {
    if tables == [] then None
    else if SameName(tables[0].name, name) || SameName(tables[0].alias, name) then Some(0)
    else
      var rest := FindTable(tables[1..], name);
      if rest.Some? then Some(rest.value + 1) else None
  }

  predicate HasColumn(cat: Catalog, b: Binding, name: string) { ColumnIndex(ColumnsOf(cat, b), name).Some? }

  /** The tables that have a column of that name. */
  function Owners(tables: seq<Binding>, cat: Catalog, name: string): (r: seq<nat>)
    ensures forall i | 0 <= i < |r| :: r[i] < |tables| && HasColumn(cat, tables[r[i]], name)
  {
    if tables == [] then []
    else
      var n := |tables| - 1;
      Owners(tables[..n], cat, name) + (if HasColumn(cat, tables[n], name) then [n] else [])
  }

  /** `resolve_expr_column`: a plain name has to belong to one table, a qualified one to its table. */
  function ResolveColumn(e: Expr, cat: Catalog, tables: seq<Binding>): (r: Result<ColumnRef>)
    ensures r.Ok? ==> r.value.table < |tables| && r.value.column < |ColumnsOf(cat, tables[r.value.table])|
    ensures r.Ok? ==> e.Ident? || e.QualifiedIdent?
  {
    match e
    case Ident(name) =>
      var owners := Owners(tables, cat, name);
      if |owners| != 1 then Err(Other)
      else Ok(ColumnRef(owners[0], ColumnIndex(ColumnsOf(cat, tables[owners[0]]), name).value))
    case QualifiedIdent(table, column) =>
      var t := FindTable(tables, table);
      if t.None? then Err(Other)
      else
        var c := ColumnIndex(ColumnsOf(cat, tables[t.value]), column);
        if c.None? then Err(Other) else Ok(ColumnRef(t.value, c.value))
    case _ => Err(Other)
  }

  // ---- The plan ----------------------------------------------------------------------------------------

  datatype Source = FromColumn(col: ColumnRef) | FromExpr(e: Expr)

  datatype Plan = Plan(sources: seq<Source>, outputWidth: nat, aggregated: bool, group: GroupSpec, sortKeys: seq<SortKey>)

  predicate SourcesOk(sources: seq<Source>, tables: seq<Binding>) {
    forall i | 0 <= i < |sources| :: sources[i].FromColumn? ==> sources[i].col.table < |tables|
  }

  predicate NoDuplicates(sources: seq<Source>) { forall i, j | 0 <= i < j < |sources| :: sources[i] != sources[j] }

  /** The place of a column among the sources, which it may have to join. */
  function PushUnique(sources: seq<Source>, col: ColumnRef): (r: (seq<Source>, nat))
    ensures r.1 < |r.0| && r.0[r.1] == FromColumn(col) && sources <= r.0
    ensures r.0 == sources <==> FromColumn(col) in sources
    ensures NoDuplicates(sources) ==> NoDuplicates(r.0)
  {
    var i := IndexOf(sources, FromColumn(col));
    if i.Some? then (sources, i.value) else (sources + [FromColumn(col)], |sources|)
  }

  function IndexOf(sources: seq<Source>, s: Source): (r: Option<nat>)
    ensures r.Some? ==> r.value < |sources| && sources[r.value] == s
    ensures r.None? ==> s !in sources
  {
    if sources == [] then None
    else if sources[0] == s then Some(0)
    else
      var rest := IndexOf(sources[1..], s);
      if rest.Some? then Some(rest.value + 1) else None
  }

  function ParseAgg(name: string): Option<AggFunc> {
    if SameName(name, "count") then Some(CountRows)
    else if SameName(name, "sum") then Some(Sum)
    else if SameName(name, "min") then Some(Min)
    else if SameName(name, "max") then Some(Max)
    else None
  }

  function AllColumns(table: nat, n: nat): (r: seq<Source>)
    ensures |r| == n && forall i | 0 <= i < n :: r[i] == FromColumn(ColumnRef(table, i))
  { seq(n, i requires 0 <= i < n => FromColumn(ColumnRef(table, i))) }

  /** The sources of a query without aggregates. */
  function RowSources(columns: seq<Expr>, cat: Catalog, tables: seq<Binding>): (r: Result<seq<Source>>)
    requires tables != []
    ensures r.Ok? ==> SourcesOk(r.value, tables)
  {
    if columns == [] then Ok([])
    else
      var n := |columns| - 1;
      var rest :- RowSources(columns[..n], cat, tables);
      if columns[n].Star? then
        if |tables| != 1 then Err(Other) else Ok(rest + AllColumns(0, |ColumnsOf(cat, tables[0])|))
      else
        var c := ResolveColumn(columns[n], cat, tables);
        Ok(rest + [if c.Ok? then FromColumn(c.value) else FromExpr(columns[n])])
  }

  /** The sources of the GROUP BY columns, and where they are. */
  function GroupKeys(groupBy: seq<Expr>, cat: Catalog, tables: seq<Binding>): (r: Result<(seq<Source>, seq<nat>)>)
    ensures r.Ok? ==> SourcesOk(r.value.0, tables) && |r.value.1| == |groupBy|
    ensures r.Ok? ==> forall i | 0 <= i < |r.value.1| :: r.value.1[i] < |r.value.0|
  {
    if groupBy == [] then Ok(([], []))
    else
      var n := |groupBy| - 1;
      var rest :- GroupKeys(groupBy[..n], cat, tables);
      var c :- ResolveColumn(groupBy[n], cat, tables);
      Ok(AddKey(rest.0, rest.1, c, tables))
  }

  function AddKey(sources: seq<Source>, keys: seq<nat>, c: ColumnRef, tables: seq<Binding>): (r: (seq<Source>, seq<nat>))
    requires SourcesOk(sources, tables) && c.table < |tables| && forall i | 0 <= i < |keys| :: keys[i] < |sources|
    ensures SourcesOk(r.0, tables) && |r.1| == |keys| + 1 && forall i | 0 <= i < |r.1| :: r.1[i] < |r.0|
  {
    var p := PushUnique(sources, c);
    (p.0, keys + [p.1])
  }

  /** The number of aggregates in a select list. */
  function Calls(columns: seq<Expr>): nat {
    if columns == [] then 0
    else
      var n := |columns| - 1;
      Calls(columns[..n]) + (if columns[n].Call? then 1 else 0)
  }

  /** The aggregates of the select list; other columns have to be among the keys. */
  function Aggregates(columns: seq<Expr>, keys: seq<nat>, sources: seq<Source>, cat: Catalog, tables: seq<Binding>): (r: Result<(seq<Source>, seq<AggSpec>)>)
    requires SourcesOk(sources, tables)
    ensures r.Ok? ==> SourcesOk(r.value.0, tables) && sources <= r.value.0 && |r.value.1| == Calls(columns)
  {
    if columns == [] then Ok((sources, []))
    else
      var n := |columns| - 1;
      var rest :- Aggregates(columns[..n], keys, sources, cat, tables);
      if columns[n].Call? then
        var args := columns[n].args;
        var func := ParseAgg(columns[n].func);
        if func.None? then Err(Other)
        else if func.value.CountRows? && |args| == 1 && args[0].Star? then Ok((rest.0, rest.1 + [AggSpec(CountRows, None)]))
        else if args == [] then Err(Other)
        else
          var c :- ResolveColumn(args[0], cat, tables);
          var p := PushUnique(rest.0, c);
          Ok((p.0, rest.1 + [AggSpec(func.value, Some(p.1))]))
      else
        var c :- ResolveColumn(columns[n], cat, tables);
        if exists k | k in keys :: k < |rest.0| && rest.0[k] == FromColumn(c) then Ok(rest) else Err(Other)
  }

  // ---- ORDER BY -----------------------------------------------------------------------------------------

  /** Whether an ORDER BY term names this source. */
  predicate NamesSource(e: Expr, s: Source, cat: Catalog, tables: seq<Binding>) {
    s.FromColumn? && s.col.table < |tables| &&
    var b := tables[s.col.table];
    s.col.column < |ColumnsOf(cat, b)| &&
    match e
    case Ident(name) => SameName(ColumnsOf(cat, b)[s.col.column], name)
    case QualifiedIdent(table, column) =>
      (SameName(b.name, table) || SameName(b.alias, table)) && SameName(ColumnsOf(cat, b)[s.col.column], column)
    case _ => false
  }

  /** `expr_matches`. */
  predicate SameExpr(a: Expr, b: Expr, cat: Catalog, tables: seq<Binding>) {
    if a.Ident? && b.Ident? then SameName(a.name, b.name)
    else if a.QualifiedIdent? && b.QualifiedIdent? then SameName(a.table, b.table) && SameName(a.column, b.column)
    else
      var ca, cb := ResolveColumn(a, cat, tables), ResolveColumn(b, cat, tables);
      ca.Ok? && cb.Ok? && ca.value == cb.value
  }

  function FirstSource(e: Expr, sources: seq<Source>, cat: Catalog, tables: seq<Binding>): (r: Option<nat>)
    ensures r.Some? ==> r.value < |sources| && NamesSource(e, sources[r.value], cat, tables)
  {
    if sources == [] then None
    else if NamesSource(e, sources[0], cat, tables) then Some(0)
    else
      var rest := FirstSource(e, sources[1..], cat, tables);
      if rest.Some? then Some(rest.value + 1) else None
  }

  function FirstMatch(e: Expr, list: seq<Expr>, cat: Catalog, tables: seq<Binding>): (r: Option<nat>)
    ensures r.Some? ==> r.value < |list|
  {
    if list == [] then None
    else if !list[0].Star? && SameExpr(list[0], e, cat, tables) then Some(0)
    else
      var rest := FirstMatch(e, list[1..], cat, tables);
      if rest.Some? then Some(rest.value + 1) else None
  }

  /** `resolve_order_index`. */
  function OrderIndex(e: Expr, select: Select, sources: seq<Source>, aggregated: bool, cat: Catalog, tables: seq<Binding>): Result<nat> {
    var s := FirstSource(e, sources, cat, tables);
    if s.Some? then Ok(s.value)
    else
      var c := FirstMatch(e, select.columns, cat, tables);
      if c.Some? then Ok(c.value)
      else
        var g := if aggregated then FirstMatch(e, select.groupBy, cat, tables) else None;
        if g.Some? then Ok(g.value) else Err(Other)
  }

  function OrderKeys(terms: seq<OrderTerm>, select: Select, sources: seq<Source>, aggregated: bool, cat: Catalog, tables: seq<Binding>): (r: Result<seq<SortKey>>)
    ensures r.Ok? ==> |r.value| == |terms|
    ensures r.Ok? ==> forall i | 0 <= i < |terms| :: r.value[i].desc == terms[i].desc
  {
    if terms == [] then Ok([])
    else
      var i :- OrderIndex(terms[0].expr, select, sources, aggregated, cat, tables);
      var rest :- OrderKeys(terms[1..], select, sources, aggregated, cat, tables);
      Ok([SortKey(i, terms[0].desc)] + rest)
  }

  /** `build_select_plan`. */
  function BuildPlan(select: Select, cat: Catalog, tables: seq<Binding>): (r: Result<Plan>)
    requires tables != []
    ensures r.Ok? ==> SourcesOk(r.value.sources, tables)
    ensures r.Ok? && !r.value.aggregated ==> r.value.outputWidth == |r.value.sources|
    ensures r.Ok? ==> |r.value.sortKeys| == |select.orderBy|
    ensures r.Ok? && r.value.aggregated ==>
              r.value.outputWidth == |select.columns| && |r.value.group.keys| == |select.groupBy| && |r.value.group.aggs| == Calls(select.columns)
  {
    if exists c | c in select.columns :: c.Call? then
      var k :- GroupKeys(select.groupBy, cat, tables);
      var a :- Aggregates(select.columns, k.1, k.0, cat, tables);
      var o :- OrderKeys(select.orderBy, select, a.0, true, cat, tables);
      Ok(Plan(a.0, |select.columns|, true, GroupSpec(k.1, a.1), o))
    else
      var sources :- RowSources(select.columns, cat, tables);
      var o :- OrderKeys(select.orderBy, select, sources, false, cat, tables);
      Ok(Plan(sources, |sources|, false, GroupSpec([], []), o))
  }

  // ---- What the plan means --------------------------------------------------------------------------

  /** The source a select item stands for. */
  function SourceOf(e: Expr, cat: Catalog, tables: seq<Binding>): Source {
    var c := ResolveColumn(e, cat, tables);
    if c.Ok? then FromColumn(c.value) else FromExpr(e)
  }

  /** Without stars the sources are the select items, one for one. */
  lemma {:induction false} RowSourcesAre(columns: seq<Expr>, cat: Catalog, tables: seq<Binding>)
    requires tables != [] && forall i | 0 <= i < |columns| :: !columns[i].Star?
    ensures var r := RowSources(columns, cat, tables);
            r.Ok? && |r.value| == |columns| && forall i | 0 <= i < |columns| :: r.value[i] == SourceOf(columns[i], cat, tables)
  {
    hide ResolveColumn;
    if columns != [] { RowSourcesAre(columns[..|columns| - 1], cat, tables); }
  }

  /** The keys of the groups are the GROUP BY columns, one for one, and each column has one place. */
  lemma {:induction false} GroupKeysAre(groupBy: seq<Expr>, cat: Catalog, tables: seq<Binding>)
    requires GroupKeys(groupBy, cat, tables).Ok?
    ensures var (sources, keys) := GroupKeys(groupBy, cat, tables).value;
            && NoDuplicates(sources)
            && forall i | 0 <= i < |groupBy| ::
                 var c := ResolveColumn(groupBy[i], cat, tables); c.Ok? && sources[keys[i]] == FromColumn(c.value)
  {
    hide ResolveColumn, NoDuplicates, AddKey, SourcesOk;
    NoneTwice();
    if groupBy != [] {
      var n := |groupBy| - 1;
      var rest := GroupKeys(groupBy[..n], cat, tables).value;
      GroupKeysAre(groupBy[..n], cat, tables);
      AddKeyIs(rest.0, rest.1, ResolveColumn(groupBy[n], cat, tables).value, tables);
    }
  }

  lemma AddKeyIs(sources: seq<Source>, keys: seq<nat>, c: ColumnRef, tables: seq<Binding>)
    requires SourcesOk(sources, tables) && c.table < |tables| && forall i | 0 <= i < |keys| :: keys[i] < |sources|
    ensures var r := AddKey(sources, keys, c, tables);
            && sources <= r.0 && keys <= r.1 && |r.1| == |keys| + 1 && r.1[|keys|] < |r.0| && r.0[r.1[|keys|]] == FromColumn(c)
            && (NoDuplicates(sources) ==> NoDuplicates(r.0))
  {
    hide NoDuplicates, PushUnique;
  }

  lemma NoneTwice()
    ensures NoDuplicates([])
  {
  }

  /** What an aggregate of the select list computes, as far as its argument goes. */
  predicate Aggregated(spec: AggSpec, e: Expr, sources: seq<Source>, cat: Catalog, tables: seq<Binding>) {
    && e.Call? && ParseAgg(e.func) == Some(spec.func)
    && match spec.colIndex
       case None => spec.func.CountRows? && |e.args| == 1 && e.args[0].Star?
       case Some(i) =>
         e.args != [] && i < |sources| && ResolveColumn(e.args[0], cat, tables).Ok?
         && sources[i] == FromColumn(ResolveColumn(e.args[0], cat, tables).value)
  }

  lemma AggregatedMore(spec: AggSpec, e: Expr, sources: seq<Source>, more: seq<Source>, cat: Catalog, tables: seq<Binding>)
    requires Aggregated(spec, e, sources, cat, tables) && sources <= more
    ensures Aggregated(spec, e, more, cat, tables)
  {
    hide ResolveColumn, ParseAgg;
  }

  /** The aggregates are the calls of the select list in order, each on the column it names. */
  lemma {:induction false} AggregatesAre(columns: seq<Expr>, keys: seq<nat>, sources: seq<Source>, cat: Catalog, tables: seq<Binding>, i: nat)
    requires SourcesOk(sources, tables) && Aggregates(columns, keys, sources, cat, tables).Ok? && i < |columns| && columns[i].Call?
    ensures var a := Aggregates(columns, keys, sources, cat, tables).value;
            Calls(columns[..i]) < |a.1| && Aggregated(a.1[Calls(columns[..i])], columns[i], a.0, cat, tables)
    decreases |columns|
  {
    hide ResolveColumn, ParseAgg, Aggregated, PushUnique, SourcesOk;
    var n := |columns| - 1;
    var rest := Aggregates(columns[..n], keys, sources, cat, tables).value;
    if i < n {
      AggregatesAre(columns[..n], keys, sources, cat, tables, i);
      assert columns[..n][..i] == columns[..i];
      AggregatesGrow(columns, keys, sources, cat, tables);
      AggregatedMore(rest.1[Calls(columns[..i])], columns[i], rest.0, Aggregates(columns, keys, sources, cat, tables).value.0, cat, tables);
    } else {
      LastAggregate(columns, keys, sources, cat, tables);
    }
  }

  lemma AggregatesGrow(columns: seq<Expr>, keys: seq<nat>, sources: seq<Source>, cat: Catalog, tables: seq<Binding>)
    requires SourcesOk(sources, tables) && columns != [] && Aggregates(columns, keys, sources, cat, tables).Ok?
    ensures var rest := Aggregates(columns[..|columns| - 1], keys, sources, cat, tables);
            rest.Ok? && rest.value.0 <= Aggregates(columns, keys, sources, cat, tables).value.0
            && rest.value.1 <= Aggregates(columns, keys, sources, cat, tables).value.1
  {
    hide ResolveColumn, ParseAgg;
  }

  lemma LastAggregate(columns: seq<Expr>, keys: seq<nat>, sources: seq<Source>, cat: Catalog, tables: seq<Binding>)
    requires SourcesOk(sources, tables) && columns != [] && columns[|columns| - 1].Call? && Aggregates(columns, keys, sources, cat, tables).Ok?
    ensures var n, a := |columns| - 1, Aggregates(columns, keys, sources, cat, tables).value;
            |a.1| == Calls(columns[..n]) + 1 && Aggregated(a.1[|a.1| - 1], columns[n], a.0, cat, tables)
  {
    hide ResolveColumn, ParseAgg, IndexOf;
  }

  /** An ORDER BY term that names a source sorts by the first such. */
  lemma {:induction false} OrderKeysAre(terms: seq<OrderTerm>, select: Select, sources: seq<Source>, aggregated: bool, cat: Catalog, tables: seq<Binding>, i: nat)
    requires OrderKeys(terms, select, sources, aggregated, cat, tables).Ok? && i < |terms|
    ensures var key, s := OrderKeys(terms, select, sources, aggregated, cat, tables).value[i], FirstSource(terms[i].expr, sources, cat, tables);
            && key.desc == terms[i].desc
            && (s.Some? ==> key.colIndex == s.value && NamesSource(terms[i].expr, sources[s.value], cat, tables))
            && Ok(key.colIndex) == OrderIndex(terms[i].expr, select, sources, aggregated, cat, tables)
    decreases |terms|
  {
    hide NamesSource, FirstSource, FirstMatch;
    if i > 0 { OrderKeysAre(terms[1..], select, sources, aggregated, cat, tables, i - 1); }
  }

  // ---- What resolution means ---------------------------------------------------------------------------

  ghost predicate OnlyOwner(t: nat, name: string, cat: Catalog, tables: seq<Binding>) {
    t < |tables| && HasColumn(cat, tables[t], name) && forall u | 0 <= u < |tables| && u != t :: !HasColumn(cat, tables[u], name)
  }

  lemma {:induction false} OwnersAll(tables: seq<Binding>, cat: Catalog, name: string, t: nat)
    requires t < |tables| && HasColumn(cat, tables[t], name)
    ensures t in Owners(tables, cat, name)
  {
    hide HasColumn;
    if t < |tables| - 1 { OwnersAll(tables[..|tables| - 1], cat, name, t); }
  }

  /** A plain name resolves exactly if one table of the query has it and no other does. */
  lemma ResolvesIff(name: string, cat: Catalog, tables: seq<Binding>)
    ensures ResolveColumn(Ident(name), cat, tables).Ok? <==> exists t :: OnlyOwner(t, name, cat, tables)
  {
    hide HasColumn, Owners, OnlyOwner;
    var owners := Owners(tables, cat, name);
    if |owners| == 1 {
      OneOwner(name, cat, tables);
    }
    if t :| OnlyOwner(t, name, cat, tables) {
      OwnerAlone(t, name, cat, tables);
    }
  }

  lemma OneOwner(name: string, cat: Catalog, tables: seq<Binding>)
    requires |Owners(tables, cat, name)| == 1
    ensures OnlyOwner(Owners(tables, cat, name)[0], name, cat, tables)
  {
    hide HasColumn, Owners;
    forall u | 0 <= u < |tables| && HasColumn(cat, tables[u], name) ensures u == Owners(tables, cat, name)[0] {
      OwnersAll(tables, cat, name, u);
    }
  }

  lemma OwnerAlone(t: nat, name: string, cat: Catalog, tables: seq<Binding>)
    requires OnlyOwner(t, name, cat, tables)
    ensures |Owners(tables, cat, name)| == 1
  {
    hide HasColumn, Owners;
    OwnersDistinct(tables, cat, name);
    OwnersAll(tables, cat, name, t);
    var owners := Owners(tables, cat, name);
    assert t in owners;
    assert forall i | 0 <= i < |owners| :: owners[i] == t;
  }

  lemma {:induction false} OwnersDistinct(tables: seq<Binding>, cat: Catalog, name: string)
    ensures forall i, j | 0 <= i < j < |Owners(tables, cat, name)| :: Owners(tables, cat, name)[i] < Owners(tables, cat, name)[j]
    ensures |Owners(tables, cat, name)| > 1 ==> Owners(tables, cat, name)[0] < Owners(tables, cat, name)[1]
  {
    hide HasColumn;
    if tables != [] { OwnersDistinct(tables[..|tables| - 1], cat, name); }
  }
}
