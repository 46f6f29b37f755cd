/** The values of a group of rows: what an aggregated SELECT shows of it, and what its select list asks for. */
module GroupItems {
  import opened Bytes
  import opened Values
  import opened Ast
  import opened Program
  import opened SortGroup
  import opened SelectPlan
  import Grouping

  // ---- Values of a group -----------------------------------------------------------------------

  /** A value of a group of rows: a column, by its place among the sources, or an aggregate. */
  datatype Item = Key(place: nat) | Agg(spec: AggSpec)

  /** As the machine has it: the column of the first row, or the aggregate. */
  function ItemValue(lib: Lib, item: Item, g: seq<Row>): Value {
    match item
    case Key(p) => if g == [] then Value.Null else Col(g[0], p)
    case Agg(spec) => Grouping.Finalize(lib, spec.func, Grouping.Folded(lib, spec, g))
  }

  predicate ItemOk(item: Item, n: nat) {
    match item
    case Key(p) => p < n
    case Agg(spec) => if spec.colIndex.Some? then spec.colIndex.value < n else spec.func.CountRows?
  }

  /** Rows of one width with one key. */
  ghost predicate GroupOk(keys: seq<nat>, n: nat, g: seq<Row>) {
    g != [] && forall i | 0 <= i < |g| :: |g[i]| == n && Grouping.KeyValues(keys, g[i]) == Grouping.KeyValues(keys, g[0])
  }

  predicate IsCount(item: Item) { item.Agg? && item.spec.func.CountRows? }

  /** The column of which the item is a value if all its values are the same. */
  function Extremal(item: Item): Option<nat> {
    match item
    case Key(p) => Some(p)
    case Agg(spec) => if spec.func.Min? || spec.func.Max? then spec.colIndex else None
  }

  /** The same item, two counts, or a key column and its least or greatest value. */
  predicate Coincide(keys: seq<nat>, a: Item, b: Item) {
    a == b || (IsCount(a) && IsCount(b)) || (Extremal(a).Some? && Extremal(a) == Extremal(b) && Extremal(a).value in keys)
  }

  // ---- Items that agree on every group -------------------------------------------------------------

  /** All rows of the group have `v` in the column. */
  ghost predicate Constant(p: nat, v: Value, g: seq<Row>) { forall i | 0 <= i < |g| :: p < |g[i]| && g[i][p] == v }

  lemma KeyConstant(keys: seq<nat>, n: nat, g: seq<Row>, p: nat)
    requires GroupOk(keys, n, g) && p in keys && p < n
    ensures Constant(p, Col(g[0], p), g)
  {
    var k :| 0 <= k < |keys| && keys[k] == p;
    forall i | 0 <= i < |g| ensures p < |g[i]| && g[i][p] == Col(g[0], p) {
      assert Grouping.KeyValues(keys, g[i])[k] == Grouping.KeyValues(keys, g[0])[k];
    }
  }

  lemma {:induction false} ExtremeOfConstant(lib: Lib, spec: AggSpec, g: seq<Row>, p: nat, v: Value)
    requires (spec.func.Min? || spec.func.Max?) && spec.colIndex == Some(p) && Constant(p, v, g)
    ensures var st := Grouping.Folded(lib, spec, g);
            var want := if g == [] || v.Null? then None else Some(v);
            if spec.func.Min? then st.min == want else st.max == want
  {
    hide Compare;
    if g != [] { ExtremeOfConstant(lib, spec, g[..|g| - 1], p, v); }
  }

  lemma ExtremalValue(lib: Lib, keys: seq<nat>, n: nat, item: Item, g: seq<Row>)
    requires GroupOk(keys, n, g) && Extremal(item).Some? && Extremal(item).value in keys && Extremal(item).value < n
    ensures ItemValue(lib, item, g) == Col(g[0], Extremal(item).value)
  {
    hide Grouping.Folded, GroupOk;
    GroupHasRow(keys, n, g);
    if item.Agg? {
      var p := Extremal(item).value;
      KeyConstant(keys, n, g, p);
      ExtremeOfConstant(lib, item.spec, g, p, Col(g[0], p));
    }
  }

  lemma GroupHasRow(keys: seq<nat>, n: nat, g: seq<Row>)
    requires GroupOk(keys, n, g)
    ensures g != []
  {
  }

  lemma CountValue(lib: Lib, item: Item, g: seq<Row>)
    requires IsCount(item)
    ensures ItemValue(lib, item, g) == Value.Integer(if |g| < TWO63 then |g| else TWO63 - 1)
  {
    hide Grouping.Folded;
    Grouping.FoldCounts(lib, item.spec, g);
  }

  lemma CoincideSame(lib: Lib, keys: seq<nat>, n: nat, a: Item, b: Item, g: seq<Row>)
    requires Coincide(keys, a, b) && GroupOk(keys, n, g) && ItemOk(a, n) && ItemOk(b, n)
    ensures ItemValue(lib, a, g) == ItemValue(lib, b, g)
  {
    hide GroupOk, ItemValue;
    if a != b {
      if IsCount(a) && IsCount(b) {
        CountValue(lib, a, g);
        CountValue(lib, b, g);
      } else {
        ExtremalValue(lib, keys, n, a, g);
        ExtremalValue(lib, keys, n, b, g);
      }
    }
  }

  // ---- Items that differ on some group -----------------------------------------------------------------

  /** A row with `v` in one column and `w` in all others. */
  function OneAt(n: nat, p: nat, v: Value, w: Value): (r: Row)
    ensures |r| == n
  { seq(n, i => if i == p then v else w) }

  /** Floats tell 0 + 1 from 0. */
  predicate Adds(lib: Lib) { lib.add(lib.zero, lib.floatOf(1)) != lib.zero }

  lemma SingleOk(keys: seq<nat>, n: nat, r: Row)
    requires |r| == n
    ensures GroupOk(keys, n, [r])
  {
  }

  lemma PairOk(keys: seq<nat>, n: nat, p: nat, v: Value, w: Value)
    requires p !in keys
    ensures GroupOk(keys, n, [OneAt(n, p, v, Value.Integer(0)), OneAt(n, p, w, Value.Integer(0))])
  {
    var r, s := OneAt(n, p, v, Value.Integer(0)), OneAt(n, p, w, Value.Integer(0));
    assert Grouping.KeyValues(keys, s) == Grouping.KeyValues(keys, r);
  }

  /** An item on one row. */
  function OnOne(lib: Lib, item: Item, r: Row): Value {
    match item
    case Key(p) => Col(r, p)
    case Agg(spec) =>
      var v := if spec.colIndex.Some? then Col(r, spec.colIndex.value) else Value.Null;
      match spec.func
      case CountRows => Value.Integer(1)
      case Sum => Value.Real(if v.Null? then lib.zero else lib.add(lib.zero, match AsReal(lib, v) { case Some(x) => x case None => lib.zero }))
      case _ => v
  }

  lemma OneRow(lib: Lib, item: Item, r: Row)
    requires ItemOk(item, |r|)
    ensures ItemValue(lib, item, [r]) == OnOne(lib, item, r)
  {
    hide Compare;
    if item.Agg? {
      assert [r][..0] == [];
      assert Grouping.Folded(lib, item.spec, [r][..0]) == Grouping.FRESH;
    }
  }

  lemma TwoRows(lib: Lib, item: Item, r: Row, s: Row, p: nat)
    requires Extremal(item) == Some(p) && p < |r| && p < |s|
    requires r[p] == Value.Integer(1) && s[p] == Value.Integer(0)
    ensures ItemValue(lib, item, [r, s]) == Value.Integer(if item.Agg? && item.spec.func.Min? then 0 else 1)
    ensures ItemValue(lib, item, [s, r]) == Value.Integer(if item.Agg? && item.spec.func.Max? then 1 else 0)
  {
    if item.Agg? {
      FoldedTwo(lib, item.spec, r, s);
      FoldedTwo(lib, item.spec, s, r);
    }
  }

  lemma FoldedTwo(lib: Lib, spec: AggSpec, r: Row, s: Row)
    ensures Grouping.Folded(lib, spec, [r, s]) ==
              Grouping.Step(lib, spec.func, Grouping.Argument(spec, s), Grouping.Step(lib, spec.func, Grouping.Argument(spec, r), Grouping.FRESH))
  {
    hide Grouping.Step, Grouping.Argument;
    assert [r, s][..1] == [r] && [r][..0] == [];
    assert Grouping.Folded(lib, spec, [r][..0]) == Grouping.FRESH;
    assert Grouping.Folded(lib, spec, [r]) == Grouping.Step(lib, spec.func, Grouping.Argument(spec, r), Grouping.FRESH);
  }

  /** A row on which two items of different kinds, or of different columns, differ. */
  function Telling(n: nat, a: Item, b: Item): Row {
    var p := if Extremal(a).Some? then Extremal(a).value
             else if a.Agg? && a.spec.colIndex.Some? then a.spec.colIndex.value else 0;
    if Extremal(a).Some? && Extremal(b).Some? then OneAt(n, p, Value.Integer(1), Value.Integer(0))
    else OneAt(n, if a.Agg? && a.spec.func.Sum? && b.Agg? && b.spec.func.Sum? then p else n, Value.Integer(1), Value.Null)
  }

  lemma OneRowTells(lib: Lib, n: nat, a: Item, b: Item)
    requires ItemOk(a, n) && ItemOk(b, n) && a != b && !(IsCount(a) && IsCount(b)) && Adds(lib)
    requires !(Extremal(a).Some? && Extremal(a) == Extremal(b))
    ensures |Telling(n, a, b)| == n && OnOne(lib, a, Telling(n, a, b)) != OnOne(lib, b, Telling(n, a, b))
  {
  }

  /** Items that do not coincide differ on some group. */
  lemma ItemsDiffer(lib: Lib, keys: seq<nat>, n: nat, a: Item, b: Item) returns (g: seq<Row>)
    requires !Coincide(keys, a, b) && ItemOk(a, n) && ItemOk(b, n) && Adds(lib)
    ensures GroupOk(keys, n, g) && ItemValue(lib, a, g) != ItemValue(lib, b, g)
  {
    hide GroupOk, ItemValue, OnOne, Telling;
    if Extremal(a).Some? && Extremal(a) == Extremal(b) {
      var p := Extremal(a).value;
      var r, s := OneAt(n, p, Value.Integer(1), Value.Integer(0)), OneAt(n, p, Value.Integer(0), Value.Integer(0));
      PairOk(keys, n, p, Value.Integer(1), Value.Integer(0));
      PairOk(keys, n, p, Value.Integer(0), Value.Integer(1));
      TwoRows(lib, a, r, s, p);
      TwoRows(lib, b, r, s, p);
      g := if ItemValue(lib, a, [r, s]) != ItemValue(lib, b, [r, s]) then [r, s] else [s, r];
    } else {
      var r := Telling(n, a, b);
      OneRowTells(lib, n, a, b);
      OneRow(lib, a, r);
      OneRow(lib, b, r);
      SingleOk(keys, n, r);
      g := [r];
    }
  }

  /** Two items have the same value on every group exactly if they coincide. */
  lemma CoincideExact(lib: Lib, keys: seq<nat>, n: nat, a: Item, b: Item)
    requires ItemOk(a, n) && ItemOk(b, n) && Adds(lib)
    ensures (forall g | GroupOk(keys, n, g) :: ItemValue(lib, a, g) == ItemValue(lib, b, g)) <==> Coincide(keys, a, b)
  {
    hide *;
    if Coincide(keys, a, b) {
      forall g | GroupOk(keys, n, g) ensures ItemValue(lib, a, g) == ItemValue(lib, b, g) { CoincideSame(lib, keys, n, a, b, g); }
    } else {
      var g := ItemsDiffer(lib, keys, n, a, b);
    }
  }

  // ---- What SQL asks of an aggregate ------------------------------------------------------------------

  /** A number as a value of 64 bits, as the machine's counter has it. */
  function Number(n: nat): Value { Value.Integer(if n < TWO63 then n else TWO63 - 1) }

  /** The value by SQL: COUNT of a column leaves out its nulls, SUM of nothing but nulls is null. */
  function SqlItem(lib: Lib, item: Item, g: seq<Row>): Value {
    match item
    case Key(p) => if g == [] then Value.Null else Col(g[0], p)
    case Agg(spec) =>
      var values := Grouping.Arguments(spec, g);
      match spec.func
      case CountRows => Number(if spec.colIndex.Some? then |values| else |g|)
      case Sum => if values == [] then Value.Null else Value.Real(Grouping.SumOf(lib, values))
      case _ => ItemValue(lib, item, g)
  }

  /** COUNT of a column meets no null, and SUM meets a value. */
  predicate Sound(item: Item, g: seq<Row>) {
    item.Agg? && item.spec.colIndex.Some? ==>
      var p := item.spec.colIndex.value;
      && (item.spec.func.CountRows? ==> forall i | 0 <= i < |g| :: !Col(g[i], p).Null?)
      && (item.spec.func.Sum? ==> exists i | 0 <= i < |g| :: !Col(g[i], p).Null?)
  }

  lemma {:induction false} ArgumentsThere(spec: AggSpec, g: seq<Row>)
    requires spec.colIndex.Some?
    ensures |Grouping.Arguments(spec, g)| <= |g|
    ensures |Grouping.Arguments(spec, g)| == |g| <==> forall i | 0 <= i < |g| :: !Col(g[i], spec.colIndex.value).Null?
    ensures Grouping.Arguments(spec, g) != [] <==> exists i | 0 <= i < |g| :: !Col(g[i], spec.colIndex.value).Null?
  {
    if g != [] {
      var n := |g| - 1;
      ArgumentsThere(spec, g[..n]);
      assert forall i | 0 <= i < n :: g[..n][i] == g[i];
    }
  }

  /** The machine computes an item by SQL exactly if COUNT of a column meets no null and SUM a value. */
  lemma AggregateExact(lib: Lib, item: Item, g: seq<Row>)
    requires |g| < TWO63 && (item.Agg? && item.spec.func.Sum? ==> item.spec.colIndex.Some?)
    ensures ItemValue(lib, item, g) == SqlItem(lib, item, g) <==> Sound(item, g)
  {
    hide Grouping.Folded, Grouping.Arguments, Col, Grouping.Finalize;
    if item.Agg? {
      var spec := item.spec;
      if spec.colIndex.Some? { ArgumentsThere(spec, g); }
      if spec.func.CountRows? {
        CountValue(lib, item, g);
      } else if spec.func.Sum? {
        Grouping.SumIsFold(lib, spec, g);
      }
    }
  }

  // ---- What is shown and what is asked -------------------------------------------------------------------

  /** What stands in place `x` of a grouped row: first the keys, then the aggregates. */
  function ShownItem(spec: GroupSpec, x: nat): Option<Item> {
    if x < |spec.keys| then Some(Key(spec.keys[x]))
    else if x - |spec.keys| < |spec.aggs| then Some(Agg(spec.aggs[x - |spec.keys|]))
    else None
  }

  /** The place of a column among the sources. */
  function PlaceOf(sources: seq<Source>, e: Expr, cat: Catalog, tables: seq<Binding>): (r: Option<nat>)
    ensures r.Some? ==> r.value < |sources|
  {
    var c := ResolveColumn(e, cat, tables);
    if c.Ok? then IndexOf(sources, FromColumn(c.value)) else None
  }

  /** What an item of the select list asks for. */
  function AskedItem(sources: seq<Source>, e: Expr, cat: Catalog, tables: seq<Binding>): (r: Option<Item>)
    ensures r.Some? ==> ItemOk(r.value, |sources|)
  {
    if e.Call? then
      var func := ParseAgg(e.func);
      if func.None? || e.args == [] then None
      else if func.value.CountRows? && |e.args| == 1 && e.args[0].Star? then Some(Agg(AggSpec(CountRows, None)))
      else
        var p := PlaceOf(sources, e.args[0], cat, tables);
        if p.None? then None else Some(Agg(AggSpec(func.value, p)))
    else
      var p := PlaceOf(sources, e, cat, tables);
      if p.None? then None else Some(Key(p.value))
  }

  /** A list without repetition has each element at one place. */
  lemma {:induction false} OnlyPlace(sources: seq<Source>, i: nat)
    requires NoDuplicates(sources) && i < |sources|
    ensures IndexOf(sources, sources[i]) == Some(i)
  {
    if i > 0 {
      assert sources[0] != sources[i];
      assert forall a, b | 0 <= a < b < |sources[1..]| :: sources[1..][a] == sources[a + 1] && sources[1..][b] == sources[b + 1];
      OnlyPlace(sources[1..], i - 1);
    }
  }

  lemma {:induction false} AggregatesDistinct(columns: seq<Expr>, keys: seq<nat>, sources: seq<Source>, cat: Catalog, tables: seq<Binding>)
    requires SourcesOk(sources, tables) && NoDuplicates(sources) && Aggregates(columns, keys, sources, cat, tables).Ok?
    ensures NoDuplicates(Aggregates(columns, keys, sources, cat, tables).value.0)
  {
    hide ResolveColumn, ParseAgg, NoDuplicates, IndexOf;
    if columns != [] { AggregatesDistinct(columns[..|columns| - 1], keys, sources, cat, tables); }
  }

  /** Every plain column of the select list is a key. */
  lemma {:induction false} PlainIsKey(columns: seq<Expr>, keys: seq<nat>, sources: seq<Source>, cat: Catalog, tables: seq<Binding>, i: nat)
    requires SourcesOk(sources, tables) && Aggregates(columns, keys, sources, cat, tables).Ok? && i < |columns| && !columns[i].Call?
    ensures var c, a := ResolveColumn(columns[i], cat, tables), Aggregates(columns, keys, sources, cat, tables).value;
            c.Ok? && exists k | k in keys :: k < |a.0| && a.0[k] == FromColumn(c.value)
    decreases |columns|
  {
    hide ResolveColumn, ParseAgg, PushUnique, SourcesOk;
    var n := |columns| - 1;
    AggregatesGrow(columns, keys, sources, cat, tables);
    var rest := Aggregates(columns[..n], keys, sources, cat, tables).value;
    if i < n {
      PlainIsKey(columns[..n], keys, sources, cat, tables, i);
    }
    var c := ResolveColumn(columns[i], cat, tables);
    var k :| k in keys && k < |rest.0| && rest.0[k] == FromColumn(c.value);
    assert Aggregates(columns, keys, sources, cat, tables).value.0[k] == rest.0[k];
  }

  /** The plan of an aggregated SELECT in its parts. */
  lemma AggregatedPlan(select: Select, cat: Catalog, tables: seq<Binding>)
    requires tables != [] && BuildPlan(select, cat, tables).Ok? && BuildPlan(select, cat, tables).value.aggregated
    ensures var p, k := BuildPlan(select, cat, tables).value, GroupKeys(select.groupBy, cat, tables);
            && k.Ok? && p.group.keys == k.value.1 && p.outputWidth == |select.columns|
            && Aggregates(select.columns, k.value.1, k.value.0, cat, tables) == Ok((p.sources, p.group.aggs))
            && OrderKeys(select.orderBy, select, p.sources, true, cat, tables) == Ok(p.sortKeys)
  {
    hide GroupKeys, Aggregates, OrderKeys, RowSources;
  }

  /** Every item of the select list asks for something: a plain column for a key, a call for an aggregate
      that the plan has. */
  lemma AskedThere(select: Select, cat: Catalog, tables: seq<Binding>, i: nat)
    requires tables != [] && BuildPlan(select, cat, tables).Ok? && BuildPlan(select, cat, tables).value.aggregated && i < |select.columns|
    ensures var p := BuildPlan(select, cat, tables).value;
            var asked := AskedItem(p.sources, select.columns[i], cat, tables);
            && asked.Some? && (asked.value.Key? ==> asked.value.place in p.group.keys)
            && (select.columns[i].Call? <==> asked.value.Agg?)
            && (select.columns[i].Call? ==> Calls(select.columns[..i]) < |p.group.aggs| && asked.value.spec == p.group.aggs[Calls(select.columns[..i])])
  {
    hide GroupKeys, Aggregates, ResolveColumn, ParseAgg, IndexOf, NoDuplicates, BuildPlan, SourcesOk;
    AggregatedPlan(select, cat, tables);
    var p, k := BuildPlan(select, cat, tables).value, GroupKeys(select.groupBy, cat, tables).value;
    var e := select.columns[i];
    GroupKeysAre(select.groupBy, cat, tables);
    AggregatesDistinct(select.columns, k.1, k.0, cat, tables);
    if e.Call? {
      AggregatesAre(select.columns, k.1, k.0, cat, tables, i);
      var spec := p.group.aggs[Calls(select.columns[..i])];
      if spec.colIndex.Some? { OnlyPlace(p.sources, spec.colIndex.value); StarUnresolved(e.args[0], cat, tables); }
    } else {
      PlainIsKey(select.columns, k.1, k.0, cat, tables, i);
      var c := ResolveColumn(e, cat, tables).value;
      var x :| x in k.1 && x < |p.sources| && p.sources[x] == FromColumn(c);
      OnlyPlace(p.sources, x);
    }
  }

  lemma StarUnresolved(e: Expr, cat: Catalog, tables: seq<Binding>)
    requires ResolveColumn(e, cat, tables).Ok?
    ensures !e.Star?
  {
  }

  // ---- The layout of the grouped row --------------------------------------------------------------------------

  /** The select list has the GROUP BY columns first, in order and all of them, and then its calls. */
  predicate InOrder(select: Select, cat: Catalog, tables: seq<Binding>) {
    forall i | 0 <= i < |select.columns| :: InLine(select, cat, tables, i)
  }

  predicate InLine(select: Select, cat: Catalog, tables: seq<Binding>, i: nat)
    requires i < |select.columns|
  {
    if i < |select.groupBy| then
      !select.columns[i].Call? && ResolveColumn(select.columns[i], cat, tables) == ResolveColumn(select.groupBy[i], cat, tables)
    else select.columns[i].Call?
  }

  lemma {:induction false} CallsBehind(columns: seq<Expr>, k: nat)
    requires k <= |columns| && (forall i | 0 <= i < k :: !columns[i].Call?) && forall i | k <= i < |columns| :: columns[i].Call?
    ensures Calls(columns) == |columns| - k
    decreases |columns|
  {
    if |columns| > k {
      CallsBehind(columns[..|columns| - 1], k);
    } else if columns != [] {
      CallsBehind(columns[..|columns| - 1], k - 1);
    }
  }

  /** Key `i` stands for GROUP BY column `i`, in the sources of the plan. */
  lemma KeyPlace(select: Select, cat: Catalog, tables: seq<Binding>, i: nat)
    requires tables != [] && BuildPlan(select, cat, tables).Ok? && BuildPlan(select, cat, tables).value.aggregated && i < |select.groupBy|
    ensures var p, c := BuildPlan(select, cat, tables).value, ResolveColumn(select.groupBy[i], cat, tables);
            && p.group.keys[i] < |p.sources| && NoDuplicates(p.sources)
            && c.Ok? && p.sources[p.group.keys[i]] == FromColumn(c.value) && PlaceOf(p.sources, select.groupBy[i], cat, tables) == Some(p.group.keys[i])
  {
    hide GroupKeys, Aggregates, ResolveColumn, IndexOf, NoDuplicates, BuildPlan, SourcesOk;
    AggregatedPlan(select, cat, tables);
    var p, k := BuildPlan(select, cat, tables).value, GroupKeys(select.groupBy, cat, tables).value;
    GroupKeysAre(select.groupBy, cat, tables);
    AggregatesDistinct(select.columns, k.1, k.0, cat, tables);
    assert p.sources[k.1[i]] == k.0[k.1[i]];
    OnlyPlace(p.sources, k.1[i]);
  }

  /** One place of the select list is shown what it asks for. */
  predicate InPlace(select: Select, p: Plan, cat: Catalog, tables: seq<Binding>, i: nat)
    requires i < |select.columns|
  { ShownItem(p.group, i).Some? && ShownItem(p.group, i) == AskedItem(p.sources, select.columns[i], cat, tables) }

  lemma KeyInPlace(select: Select, cat: Catalog, tables: seq<Binding>, i: nat)
    requires tables != [] && BuildPlan(select, cat, tables).Ok? && BuildPlan(select, cat, tables).value.aggregated
    requires i < |select.columns| && i < |select.groupBy|
    ensures InPlace(select, BuildPlan(select, cat, tables).value, cat, tables, i) <==> InLine(select, cat, tables, i)
  {
    hide ResolveColumn, IndexOf, NoDuplicates, BuildPlan, ParseAgg;
    var p := BuildPlan(select, cat, tables).value;
    KeyPlace(select, cat, tables, i);
    AskedThere(select, cat, tables, i);
    PlaceHolds(p.sources, select.columns[i], cat, tables);
  }

  lemma PlaceHolds(sources: seq<Source>, e: Expr, cat: Catalog, tables: seq<Binding>)
    ensures var r := PlaceOf(sources, e, cat, tables);
            r.Some? ==> ResolveColumn(e, cat, tables).Ok? && sources[r.value] == FromColumn(ResolveColumn(e, cat, tables).value)
  {
  }

  lemma CallInPlace(select: Select, cat: Catalog, tables: seq<Binding>, i: nat)
    requires tables != [] && BuildPlan(select, cat, tables).Ok? && BuildPlan(select, cat, tables).value.aggregated
    requires |select.groupBy| <= i < |select.columns|
    ensures InPlace(select, BuildPlan(select, cat, tables).value, cat, tables, i) ==> InLine(select, cat, tables, i)
    ensures InOrder(select, cat, tables) ==> InPlace(select, BuildPlan(select, cat, tables).value, cat, tables, i)
  {
    hide ResolveColumn, BuildPlan, AskedItem, Aggregates, GroupKeys;
    AggregatedPlan(select, cat, tables);
    AskedThere(select, cat, tables, i);
    if InOrder(select, cat, tables) {
      InOrderCalls(select, cat, tables, i);
    }
  }

  lemma InOrderCalls(select: Select, cat: Catalog, tables: seq<Binding>, i: nat)
    requires InOrder(select, cat, tables) && |select.groupBy| <= i < |select.columns|
    ensures select.columns[i].Call? && Calls(select.columns[..i]) == i - |select.groupBy|
  {
    hide ResolveColumn, Calls;
    forall j | 0 <= j <= i ensures select.columns[j].Call? <==> j >= |select.groupBy| { assert InLine(select, cat, tables, j); }
    CallsBehind(select.columns[..i], |select.groupBy|);
  }

  /** Every place of the select list is shown what it asks for exactly if the list is in order. */
  lemma InOrderIff(select: Select, cat: Catalog, tables: seq<Binding>)
    requires tables != [] && BuildPlan(select, cat, tables).Ok? && BuildPlan(select, cat, tables).value.aggregated
    ensures (forall i | 0 <= i < |select.columns| :: InPlace(select, BuildPlan(select, cat, tables).value, cat, tables, i)) <==>
              InOrder(select, cat, tables)
  {
    hide BuildPlan, InPlace, InLine;
    forall i | 0 <= i < |select.columns|
      ensures InPlace(select, BuildPlan(select, cat, tables).value, cat, tables, i) ==> InLine(select, cat, tables, i)
      ensures InOrder(select, cat, tables) ==> InPlace(select, BuildPlan(select, cat, tables).value, cat, tables, i)
    {
      if i < |select.groupBy| { KeyInPlace(select, cat, tables, i); } else { CallInPlace(select, cat, tables, i); }
    }
  }

  // ---- Rows of groups ------------------------------------------------------------------------------------------

  /** What the machine shows of a group: the first `w` values of its grouped row. */
  function ShownRow(lib: Lib, spec: GroupSpec, w: nat, g: seq<Row>): (r: Row)
    ensures |r| == w
  { seq(w, x requires 0 <= x < w => GroupedCol(lib, spec, x, g)) }

  /** Place `x` of the grouped row; behind its end it reads as null. */
  function GroupedCol(lib: Lib, spec: GroupSpec, x: nat, g: seq<Row>): Value {
    if ShownItem(spec, x).Some? then ItemValue(lib, ShownItem(spec, x).value, g) else Value.Null
  }

  /** The items the select list asks for. */
  function AskedItems(select: Select, p: Plan, cat: Catalog, tables: seq<Binding>): (r: seq<Item>)
    requires forall i | 0 <= i < |select.columns| :: AskedItem(p.sources, select.columns[i], cat, tables).Some?
    ensures |r| == |select.columns|
  { seq(|select.columns|, i requires 0 <= i < |select.columns| => AskedItem(p.sources, select.columns[i], cat, tables).value) }

  function MachineRow(lib: Lib, items: seq<Item>, g: seq<Row>): (r: Row)
    ensures |r| == |items|
  { seq(|items|, i requires 0 <= i < |items| => ItemValue(lib, items[i], g)) }

  /** The row SQL asks for. */
  function SqlRow(lib: Lib, items: seq<Item>, g: seq<Row>): (r: Row)
    ensures |r| == |items|
  { seq(|items|, i requires 0 <= i < |items| => SqlItem(lib, items[i], g)) }

  predicate AllSound(items: seq<Item>, g: seq<Row>) { forall i | 0 <= i < |items| :: Sound(items[i], g) }

  /** The keys and aggregates of a plan fit its rows. */
  predicate SpecOk(spec: GroupSpec, n: nat) {
    && (forall i | 0 <= i < |spec.keys| :: spec.keys[i] < n)
    && (forall i | 0 <= i < |spec.aggs| :: ItemOk(Agg(spec.aggs[i]), n))
  }

  predicate AllCoincide(spec: GroupSpec, items: seq<Item>) {
    forall i | 0 <= i < |items| :: ShownItem(spec, i).Some? && Coincide(spec.keys, ShownItem(spec, i).value, items[i])
  }

  /** The machine shows of every group the values of the items asked for exactly if each coincides with
      the item in its place. */
  lemma ShownExact(lib: Lib, spec: GroupSpec, n: nat, items: seq<Item>)
    requires SpecOk(spec, n) && Adds(lib) && |items| <= |spec.keys| + |spec.aggs| && forall i | 0 <= i < |items| :: ItemOk(items[i], n)
    ensures (forall g | GroupOk(spec.keys, n, g) :: ShownRow(lib, spec, |items|, g) == MachineRow(lib, items, g)) <==> AllCoincide(spec, items)
  {
    hide ItemValue, GroupOk, Coincide;
    forall i | 0 <= i < |items|
      ensures ShownItem(spec, i).Some?
      ensures (forall g | GroupOk(spec.keys, n, g) :: GroupedCol(lib, spec, i, g) == ItemValue(lib, items[i], g)) <==>
                Coincide(spec.keys, ShownItem(spec, i).value, items[i])
    {
      CoincideExact(lib, spec.keys, n, ShownItem(spec, i).value, items[i]);
    }
    if forall g | GroupOk(spec.keys, n, g) :: ShownRow(lib, spec, |items|, g) == MachineRow(lib, items, g) {
      forall i, g | 0 <= i < |items| && GroupOk(spec.keys, n, g) ensures GroupedCol(lib, spec, i, g) == ItemValue(lib, items[i], g) {
        assert ShownRow(lib, spec, |items|, g)[i] == MachineRow(lib, items, g)[i];
      }
    }
    if AllCoincide(spec, items) {
      forall g | GroupOk(spec.keys, n, g) ensures ShownRow(lib, spec, |items|, g) == MachineRow(lib, items, g) {
        CoincidingRow(lib, spec, n, items, g);
      }
    }
  }

  lemma CoincidingRow(lib: Lib, spec: GroupSpec, n: nat, items: seq<Item>, g: seq<Row>)
    requires SpecOk(spec, n) && forall i | 0 <= i < |items| :: ItemOk(items[i], n)
    requires AllCoincide(spec, items) && GroupOk(spec.keys, n, g)
    ensures ShownRow(lib, spec, |items|, g) == MachineRow(lib, items, g)
  {
    hide ItemValue, GroupOk, Coincide;
    forall i | 0 <= i < |items| ensures GroupedCol(lib, spec, i, g) == ItemValue(lib, items[i], g) {
      CoincideSame(lib, spec.keys, n, ShownItem(spec, i).value, items[i], g);
    }
  }

  lemma SqlRowExact(lib: Lib, n: nat, items: seq<Item>, g: seq<Row>)
    requires |g| < TWO63 && forall i | 0 <= i < |items| :: ItemOk(items[i], n)
    ensures MachineRow(lib, items, g) == SqlRow(lib, items, g) <==> AllSound(items, g)
  {
    hide ItemValue, SqlItem, Sound;
    forall i | 0 <= i < |items| ensures ItemValue(lib, items[i], g) == SqlItem(lib, items[i], g) <==> Sound(items[i], g) {
      AggregateExact(lib, items[i], g);
    }
    if MachineRow(lib, items, g) == SqlRow(lib, items, g) {
      forall i | 0 <= i < |items| ensures Sound(items[i], g) {
        assert MachineRow(lib, items, g)[i] == SqlRow(lib, items, g)[i];
      }
    }
  }
}
