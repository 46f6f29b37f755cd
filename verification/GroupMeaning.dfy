/** What an aggregated SELECT makes of its rows, and when that is what it asks for. */
module GroupMeaning {
  import opened Bytes
  import opened Values
  import opened Ast
  import opened Program
  import opened SortGroup
  import opened SelectPlan
  import opened VirtualMachine
  import opened CompileSelect
  import opened SelectRun
  import opened SelectMeaning
  import opened GroupItems
  import Grouping

  // ---- The groups of a scan ------------------------------------------------------------------------------------

  function Order(lib: Lib, spec: GroupSpec, rows: seq<Row>): seq<seq<byte>> { lib.hashOrder(Grouping.GroupsOf(lib, spec, rows).Keys) }

  /** The rows of each group, the groups as the machine walks over them. */
  function Groups(lib: Lib, spec: GroupSpec, rows: seq<Row>): (r: seq<seq<Row>>)
    ensures |r| == |Order(lib, spec, rows)|
  {
    var order := Order(lib, spec, rows);
    seq(|order|, i requires 0 <= i < |order| => Grouping.Members(lib, spec.keys, rows, order[i]))
  }

  function ShownRows(lib: Lib, spec: GroupSpec, w: nat, groups: seq<seq<Row>>): (r: seq<Row>)
    ensures |r| == |groups|
  { seq(|groups|, i requires 0 <= i < |groups| => ShownRow(lib, spec, w, groups[i])) }

  function SqlRows(lib: Lib, items: seq<Item>, groups: seq<seq<Row>>): (r: seq<Row>)
    ensures |r| == |groups|
  { seq(|groups|, i requires 0 <= i < |groups| => SqlRow(lib, items, groups[i])) }

  /** Two rows whose keys read the same have the same keys. */
  ghost predicate Tells(lib: Lib, keys: seq<nat>, rows: seq<Row>) {
    forall i, j | 0 <= i < |rows| && 0 <= j < |rows| && Grouping.KeyText(lib, keys, rows[i]) == Grouping.KeyText(lib, keys, rows[j]) ::
      Grouping.KeyValues(keys, rows[i]) == Grouping.KeyValues(keys, rows[j])
  }

  /** The rows with these key values: a group as SQL has it. */
  function SameKey(keys: seq<nat>, rows: seq<Row>, key: Row): seq<Row> {
    if rows == [] then []
    else
      var n := |rows| - 1;
      SameKey(keys, rows[..n], key) + (if Grouping.KeyValues(keys, rows[n]) == key then [rows[n]] else [])
  }

  lemma {:induction false} MembersAre(lib: Lib, keys: seq<nat>, rows: seq<Row>, k: seq<byte>)
    ensures forall r | r in Grouping.Members(lib, keys, rows, k) :: r in rows && Grouping.KeyText(lib, keys, r) == k
    ensures |Grouping.Members(lib, keys, rows, k)| <= |rows|
  {
    hide Grouping.KeyText;
    if rows != [] { MembersAre(lib, keys, rows[..|rows| - 1], k); }
  }

  lemma {:induction false} SameMembers(lib: Lib, keys: seq<nat>, rows: seq<Row>, k: seq<byte>, key: Row)
    requires forall i | 0 <= i < |rows| :: Grouping.KeyText(lib, keys, rows[i]) == k <==> Grouping.KeyValues(keys, rows[i]) == key
    ensures Grouping.Members(lib, keys, rows, k) == SameKey(keys, rows, key)
  {
    hide Grouping.KeyText, Grouping.KeyValues;
    if rows != [] { SameMembers(lib, keys, rows[..|rows| - 1], k, key); }
  }

  lemma {:induction false} SameKeyHas(keys: seq<nat>, rows: seq<Row>, key: Row)
    ensures forall r | r in SameKey(keys, rows, key) :: Grouping.KeyValues(keys, r) == key
  {
    hide Grouping.KeyValues;
    if rows != [] { SameKeyHas(keys, rows[..|rows| - 1], key); }
  }

  /** The machine's groups are those of SQL, the rows with one key, exactly if no two different keys read
      the same. */
  lemma GroupsExact(lib: Lib, keys: seq<nat>, rows: seq<Row>)
    ensures Tells(lib, keys, rows) <==>
              forall i | 0 <= i < |rows| ::
                Grouping.Members(lib, keys, rows, Grouping.KeyText(lib, keys, rows[i])) == SameKey(keys, rows, Grouping.KeyValues(keys, rows[i]))
  {
    hide Grouping.KeyText, Grouping.KeyValues, Grouping.Members, SameKey;
    if Tells(lib, keys, rows) {
      forall i | 0 <= i < |rows|
        ensures Grouping.Members(lib, keys, rows, Grouping.KeyText(lib, keys, rows[i])) == SameKey(keys, rows, Grouping.KeyValues(keys, rows[i]))
      {
        forall j | 0 <= j < |rows|
          ensures Grouping.KeyText(lib, keys, rows[j]) == Grouping.KeyText(lib, keys, rows[i]) <==>
                    Grouping.KeyValues(keys, rows[j]) == Grouping.KeyValues(keys, rows[i])
        {
          EqualKeysRead(lib, keys, rows[i], rows[j]);
        }
        SameMembers(lib, keys, rows, Grouping.KeyText(lib, keys, rows[i]), Grouping.KeyValues(keys, rows[i]));
      }
    }
    if forall i | 0 <= i < |rows| ::
        Grouping.Members(lib, keys, rows, Grouping.KeyText(lib, keys, rows[i])) == SameKey(keys, rows, Grouping.KeyValues(keys, rows[i])) {
      forall i, j | 0 <= i < |rows| && 0 <= j < |rows| && Grouping.KeyText(lib, keys, rows[i]) == Grouping.KeyText(lib, keys, rows[j])
        ensures Grouping.KeyValues(keys, rows[i]) == Grouping.KeyValues(keys, rows[j])
      {
        Grouping.MemberFound(lib, keys, rows, j);
        SameKeyHas(keys, rows, Grouping.KeyValues(keys, rows[i]));
      }
    }
  }

  lemma EqualKeysRead(lib: Lib, keys: seq<nat>, r: Row, s: Row)
    ensures Grouping.KeyValues(keys, r) == Grouping.KeyValues(keys, s) ==> Grouping.KeyText(lib, keys, r) == Grouping.KeyText(lib, keys, s)
  {
    hide Grouping.KeyValues;
  }

  lemma MembersOk(lib: Lib, keys: seq<nat>, n: nat, rows: seq<Row>, k: seq<byte>)
    requires Tells(lib, keys, rows) && (forall i | 0 <= i < |rows| :: |rows[i]| == n) && Grouping.Members(lib, keys, rows, k) != []
    ensures GroupOk(keys, n, Grouping.Members(lib, keys, rows, k))
  {
    hide Grouping.KeyText, Grouping.KeyValues, Grouping.Members;
    MembersAre(lib, keys, rows, k);
    var g := Grouping.Members(lib, keys, rows, k);
    forall i | 0 <= i < |g| ensures |g[i]| == n && Grouping.KeyValues(keys, g[i]) == Grouping.KeyValues(keys, g[0]) {
      assert g[i] in rows && g[0] in rows;
      var a :| 0 <= a < |rows| && rows[a] == g[i];
      var b :| 0 <= b < |rows| && rows[b] == g[0];
    }
  }

  /** The walk names every group, and each once. */
  lemma OrderNames(lib: Lib, spec: GroupSpec, rows: seq<Row>)
    requires Walks(lib)
    ensures var order, m := Order(lib, spec, rows), Grouping.GroupsOf(lib, spec, rows);
            && |order| == |m.Keys|
            && (forall i | 0 <= i < |order| :: order[i] in m && Grouping.Members(lib, spec.keys, rows, order[i]) != [])
            && (forall i, j | 0 <= i < j < |order| :: order[i] != order[j])
  {
    hide Grouping.GroupsOf, Grouping.Members;
    var order, m := Order(lib, spec, rows), Grouping.GroupsOf(lib, spec, rows);
    assert multiset(order) == multiset(m.Keys);
    assert |order| == |multiset(order)| == |multiset(m.Keys)| == |m.Keys|;
    forall i | 0 <= i < |order| ensures order[i] in m && Grouping.Members(lib, spec.keys, rows, order[i]) != [] {
      assert order[i] in multiset(order);
      Grouping.GroupIsMembers(lib, spec, rows, order[i]);
    }
    forall i, j | 0 <= i < j < |order| ensures order[i] != order[j] {
      OnceOnly(order, i, j);
      assert multiset(m.Keys)[order[i]] <= 1;
    }
  }

  lemma OnceOnly(order: seq<seq<byte>>, i: nat, j: nat)
    requires i < j < |order|
    ensures order[i] == order[j] ==> multiset(order)[order[i]] >= 2
  {
    assert order == order[..i] + [order[i]] + order[i + 1..j] + [order[j]] + order[j + 1..];
  }

  /** The rows of the buffer after grouping. */
  lemma GroupRowsAre(lib: Lib, spec: GroupSpec, rows: seq<Row>)
    requires Walks(lib)
    ensures Grouping.GroupRows(lib, spec, rows) == ShownRows(lib, spec, |spec.keys| + |spec.aggs|, Groups(lib, spec, rows))
  {
    hide Grouping.GroupsOf, Grouping.Members, ShownRow, Grouping.FinishRow;
    OrderNames(lib, spec, rows);
    var order, m := Order(lib, spec, rows), Grouping.GroupsOf(lib, spec, rows);
    forall i | 0 <= i < |order|
      ensures Grouping.FinishRow(lib, spec.aggs, m[order[i]]) ==
                ShownRow(lib, spec, |spec.keys| + |spec.aggs|, Grouping.Members(lib, spec.keys, rows, order[i]))
    {
      FinishedRow(lib, spec, rows, order[i]);
    }
  }

  lemma FinishedRow(lib: Lib, spec: GroupSpec, rows: seq<Row>, k: seq<byte>)
    requires k in Grouping.GroupsOf(lib, spec, rows)
    ensures Grouping.FinishRow(lib, spec.aggs, Grouping.GroupsOf(lib, spec, rows)[k]) ==
              ShownRow(lib, spec, |spec.keys| + |spec.aggs|, Grouping.Members(lib, spec.keys, rows, k))
  {
    hide Grouping.GroupsOf, Grouping.Members, Grouping.Folded, Grouping.Finalize;
    Grouping.GroupIsMembers(lib, spec, rows, k);
  }

  // ---- The whole statement -----------------------------------------------------------------------------------

  lemma {:induction false} ShownAgree(a: seq<Row>, b: seq<Row>, w: nat)
    requires multiset(a) == multiset(b) && AllWide(a, w) && AllWide(b, w)
    ensures multiset(Shown(a, w)) == multiset(Shown(b, w))
    decreases |a|
  {
    hide AllWide, Shown;
    if a == [] {
      assert |multiset(b)| == 0;
      assert b == [];
    } else {
      assert a[0] in multiset(b);
      var i :| 0 <= i < |b| && b[i] == a[0];
      Grouping.TakenOut(a, b, i);
      ShownOut(a, 0, w);
      ShownOut(b, i, w);
      assert a[..0] + a[1..] == a[1..];
      ShownAgree(a[1..], b[..i] + b[i + 1..], w);
    }
  }

  lemma ShownOut(a: seq<Row>, i: nat, w: nat)
    requires i < |a| && AllWide(a, w)
    ensures AllWide(a[..i] + a[i + 1..], w)
    ensures multiset(Shown(a, w)) == multiset([a[i][..w]]) + multiset(Shown(a[..i] + a[i + 1..], w))
  {
    var s := Shown(a, w);
    assert s == s[..i] + ([s[i]] + s[i + 1..]);
    assert Shown(a[..i] + a[i + 1..], w) == s[..i] + s[i + 1..];
  }

  /** What an aggregated query makes of the rows of its scan. */
  lemma GroupedAnswer(lib: Lib, q: Query, rows: seq<Row>)
    requires q.plan.aggregated && Wide(q) && Walks(lib) && AllWide(Arranged(lib, q, rows), q.plan.outputWidth)
    ensures multiset(Answer(lib, q, rows)) == multiset(ShownRows(lib, q.plan.group, q.plan.outputWidth, Groups(lib, q.plan.group, rows)))
  {
    hide Groups, SortRows, ShownRow, Grouping.GroupRows;
    var spec, w := q.plan.group, q.plan.outputWidth;
    var groups, buffer := Groups(lib, spec, rows), Grouping.GroupRows(lib, spec, rows);
    GroupRowsAre(lib, spec, rows);
    if q.ordered { SortPermutes(lib, q.plan.sortKeys, buffer); }
    ShownAgree(Arranged(lib, q, rows), buffer, w);
    forall i | 0 <= i < |groups| ensures buffer[i][..w] == ShownRow(lib, spec, w, groups[i]) {
      ShownPrefix(lib, spec, w, |spec.keys| + |spec.aggs|, groups[i]);
    }
    assert Shown(buffer, w) == ShownRows(lib, spec, w, groups);
  }

  lemma ShownPrefix(lib: Lib, spec: GroupSpec, w: nat, n: nat, g: seq<Row>)
    requires w <= n
    ensures ShownRow(lib, spec, n, g)[..w] == ShownRow(lib, spec, w, g)
  {
    hide GroupedCol;
  }

  /** Without GROUP BY there is one group, if there are rows at all. */
  lemma {:induction false} OneGroup(lib: Lib, spec: GroupSpec, rows: seq<Row>)
    requires spec.keys == []
    ensures Grouping.GroupsOf(lib, spec, rows).Keys == if rows == [] then {} else {[]}
    ensures Grouping.Members(lib, [], rows, []) == rows
  {
    if rows != [] { OneGroup(lib, spec, rows[..|rows| - 1]); }
  }

  /** The first `k` values of a grouped row are the keys of its group. */
  ghost predicate KeysFirst(spec: GroupSpec, items: seq<Item>) {
    |spec.keys| <= |items| && forall i | 0 <= i < |spec.keys| :: items[i] == Key(spec.keys[i])
  }

  /** Two groups that agree in their first values are one. */
  lemma RowsTellGroups(lib: Lib, spec: GroupSpec, items: seq<Item>, rows: seq<Row>, i: nat, j: nat)
    requires Walks(lib) && KeysFirst(spec, items) && i < |Groups(lib, spec, rows)| && j < |Groups(lib, spec, rows)|
    requires AllCoincide(spec, items) && ShownRow(lib, spec, |items|, Groups(lib, spec, rows)[i]) == SqlRow(lib, items, Groups(lib, spec, rows)[j])
    ensures i == j
  {
    hide Grouping.GroupsOf, Grouping.Members, Grouping.KeyText, Grouping.KeyValues, AllCoincide;
    OrderNames(lib, spec, rows);
    var order := Order(lib, spec, rows);
    var g, h := Groups(lib, spec, rows)[i], Groups(lib, spec, rows)[j];
    MembersAre(lib, spec.keys, rows, order[i]);
    MembersAre(lib, spec.keys, rows, order[j]);
    assert g[0] in g && h[0] in h;
    FirstValues(lib, spec, items, g, h);
    EqualKeysRead(lib, spec.keys, g[0], h[0]);
  }

  lemma FirstValues(lib: Lib, spec: GroupSpec, items: seq<Item>, g: seq<Row>, h: seq<Row>)
    requires KeysFirst(spec, items) && g != [] && h != [] && ShownRow(lib, spec, |items|, g) == SqlRow(lib, items, h)
    ensures Grouping.KeyValues(spec.keys, g[0]) == Grouping.KeyValues(spec.keys, h[0])
  {
    forall x | 0 <= x < |spec.keys| ensures Col(g[0], spec.keys[x]) == Col(h[0], spec.keys[x]) {
      assert ShownRow(lib, spec, |items|, g)[x] == SqlRow(lib, items, h)[x];
    }
  }

  /** With the keys in front, and every item in its place, the machine shows the rows SQL asks for exactly
      if every count of a column meets no null and every sum a value. */
  lemma ShownIsSql(lib: Lib, spec: GroupSpec, n: nat, items: seq<Item>, rows: seq<Row>)
    requires Walks(lib) && SpecOk(spec, n) && (forall i | 0 <= i < |items| :: ItemOk(items[i], n)) && KeysFirst(spec, items) && AllCoincide(spec, items)
    requires |rows| < TWO63 && Tells(lib, spec.keys, rows) && forall i | 0 <= i < |rows| :: |rows[i]| == n
    ensures var groups := Groups(lib, spec, rows);
            multiset(ShownRows(lib, spec, |items|, groups)) == multiset(SqlRows(lib, items, groups)) <==>
              forall i | 0 <= i < |groups| :: AllSound(items, groups[i])
  {
    hide Grouping.GroupsOf, Grouping.Members, ShownRow, SqlRow, AllSound, KeysFirst, AllCoincide, SpecOk, Tells;
    var groups := Groups(lib, spec, rows);
    var shown, sql := ShownRows(lib, spec, |items|, groups), SqlRows(lib, items, groups);
    OrderNames(lib, spec, rows);
    forall i | 0 <= i < |groups| ensures shown[i] == sql[i] <==> AllSound(items, groups[i]) {
      var k := Order(lib, spec, rows)[i];
      MembersOk(lib, spec.keys, n, rows, k);
      MembersAre(lib, spec.keys, rows, k);
      CoincidingRow(lib, spec, n, items, groups[i]);
      SqlRowExact(lib, n, items, groups[i]);
    }
    if multiset(shown) == multiset(sql) {
      forall i | 0 <= i < |groups| ensures shown[i] == sql[i] {
        assert shown[i] in multiset(shown);
        assert shown[i] in sql;
        var j :| 0 <= j < |sql| && sql[j] == shown[i];
        RowsTellGroups(lib, spec, items, rows, i, j);
      }
    }
    if forall i | 0 <= i < |groups| :: AllSound(items, groups[i]) {
      assert shown == sql;
    }
  }

  lemma {:induction false} AggsOk(columns: seq<Expr>, keys: seq<nat>, sources: seq<Source>, cat: Catalog, tables: seq<Binding>)
    requires SourcesOk(sources, tables) && Aggregates(columns, keys, sources, cat, tables).Ok?
    ensures var a := Aggregates(columns, keys, sources, cat, tables).value;
            forall j | 0 <= j < |a.1| :: ItemOk(Agg(a.1[j]), |a.0|)
  {
    hide ResolveColumn, ParseAgg, IndexOf;
    if columns != [] {
      AggsOk(columns[..|columns| - 1], keys, sources, cat, tables);
      AggregatesGrow(columns, keys, sources, cat, tables);
    }
  }

  lemma PlanSpecOk(select: Select, cat: Catalog, tables: seq<Binding>)
    requires tables != [] && BuildPlan(select, cat, tables).Ok? && BuildPlan(select, cat, tables).value.aggregated
    ensures SpecOk(BuildPlan(select, cat, tables).value.group, |BuildPlan(select, cat, tables).value.sources|)
  {
    hide BuildPlan, GroupKeys, Aggregates, SourcesOk;
    AggregatedPlan(select, cat, tables);
    var k := GroupKeys(select.groupBy, cat, tables).value;
    AggsOk(select.columns, k.1, k.0, cat, tables);
  }

  /** What an aggregated SELECT asks for: a row of its items for each group; without GROUP BY one row, of
      all rows, even of none. */
  function SqlAnswer(lib: Lib, spec: GroupSpec, items: seq<Item>, rows: seq<Row>): seq<Row> {
    if spec.keys == [] && rows == [] then [SqlRow(lib, items, [])] else SqlRows(lib, items, Groups(lib, spec, rows))
  }

  lemma EmptyAnswer(lib: Lib, spec: GroupSpec, w: nat, rows: seq<Row>)
    requires Walks(lib) && spec.keys == []
    ensures |ShownRows(lib, spec, w, Groups(lib, spec, rows))| == if rows == [] then 0 else 1
  {
    hide Grouping.GroupsOf, Grouping.Members;
    OneGroup(lib, spec, rows);
    OrderNames(lib, spec, rows);
  }

  /** The items of a prepared statement whose select list is in order. */
  lemma InOrderItems(select: Select, cat: Catalog, tables: seq<Binding>)
    requires tables != [] && BuildPlan(select, cat, tables).Ok? && BuildPlan(select, cat, tables).value.aggregated && InOrder(select, cat, tables)
    requires forall i | 0 <= i < |select.columns| :: AskedItem(BuildPlan(select, cat, tables).value.sources, select.columns[i], cat, tables).Some?
    ensures var p := BuildPlan(select, cat, tables).value; var items := AskedItems(select, p, cat, tables);
            AllCoincide(p.group, items) && KeysFirst(p.group, items) && forall i | 0 <= i < |items| :: ItemOk(items[i], |p.sources|)
  {
    hide BuildPlan, AskedItem, InOrder, ResolveColumn;
    var p := BuildPlan(select, cat, tables).value;
    InOrderIff(select, cat, tables);
    AggregatedPlan(select, cat, tables);
    SomeCall(select, cat, tables);
    forall i | 0 <= i < |select.columns| ensures ShownItem(p.group, i) == AskedItem(p.sources, select.columns[i], cat, tables) && ShownItem(p.group, i).Some? {
      assert InPlace(select, p, cat, tables, i);
    }
  }

  /** There is a call, so a list in order has all GROUP BY columns. */
  lemma SomeCall(select: Select, cat: Catalog, tables: seq<Binding>)
    requires tables != [] && BuildPlan(select, cat, tables).Ok? && BuildPlan(select, cat, tables).value.aggregated
    ensures InOrder(select, cat, tables) ==> |select.groupBy| < |select.columns|
    ensures |BuildPlan(select, cat, tables).value.group.keys| == |select.groupBy|
  {
    hide ResolveColumn, GroupKeys, Aggregates, OrderKeys;
    assert exists c | c in select.columns :: c.Call?;
    var c :| c in select.columns && c.Call?;
    var i :| 0 <= i < |select.columns| && select.columns[i] == c;
    assert InOrder(select, cat, tables) ==> InLine(select, cat, tables, i);
  }

  /** SELECT with aggregates: the program halts with one row for each group of the rows for which ON and
      WHERE are true, each the first values of the group's keys and aggregates. When the select list is in
      order and no two different keys read the same, these are the rows that SQL asks for exactly if every
      count of a column meets no null, every sum a value, and there is a row or a GROUP BY. */
  lemma GroupedMeans(lib: Lib, select: Select, cat: Catalog, q: Query, tables: map<string, Table>) returns (t: State)
    requires Prepare(select, cat) == Ok(q) && q.plan.aggregated && Wide(q) && Walks(lib) && Scannable(q, tables)
    requires FaithfulQuery(q) && SafeQuery(q) && AllReadable(lib, q, tables) && AllSafe(lib, q, tables)
    ensures Reaches(lib, SelectCode(q), Fresh(tables), t) && t.status == Done && t.tables == tables
    ensures forall i | 0 <= i < |select.columns| :: AskedItem(q.plan.sources, select.columns[i], cat, q.tables).Some?
    ensures var rows, spec := Wanted(lib, q, Views(q, tables)), q.plan.group;
            var groups, items := Groups(lib, spec, rows), AskedItems(select, q.plan, cat, q.tables);
            && multiset(t.out) == multiset(ShownRows(lib, spec, |select.columns|, groups))
            && (InOrder(select, cat, q.tables) && Tells(lib, spec.keys, rows) && |rows| < TWO63 ==>
                  (multiset(t.out) == multiset(SqlAnswer(lib, spec, items, rows)) <==>
                    (rows != [] || select.groupBy != []) && forall i | 0 <= i < |groups| :: AllSound(items, groups[i])))
  {
    hide Reaches, SelectCode, Views, Wanted, Scannable, FaithfulQuery, SafeQuery, AllReadable, AllSafe, Arranged, Answer, Groups, ShownRows, BuildPlan, BindTables, Wide, InOrder, Tells, AllSound, AskedItem;
    PreparedPlan(select, cat, q);
    forall i | 0 <= i < |select.columns| ensures AskedItem(q.plan.sources, select.columns[i], cat, q.tables).Some? { AskedThere(select, cat, q.tables, i); }
    t := SelectAnswers(lib, q, tables);
    var rows := Wanted(lib, q, Views(q, tables));
    GroupedAnswer(lib, q, rows);
    WantedWidth(lib, q, Views(q, tables));
    if InOrder(select, cat, q.tables) && Tells(lib, q.plan.group.keys, rows) && |rows| < TWO63 {
      GroupedSql(lib, select, cat, q.tables, rows);
    }
  }

  lemma PreparedPlan(select: Select, cat: Catalog, q: Query)
    requires Prepare(select, cat) == Ok(q)
    ensures q.tables != [] && QueryOk(q) && BuildPlan(select, cat, q.tables) == Ok(q.plan)
    ensures q.plan.aggregated ==> q.plan.outputWidth == |select.columns|
  {
    hide GroupKeys, Aggregates, OrderKeys, RowSources, BindTables;
  }

  lemma GroupedSql(lib: Lib, select: Select, cat: Catalog, tables: seq<Binding>, rows: seq<Row>)
    requires tables != [] && BuildPlan(select, cat, tables).Ok? && BuildPlan(select, cat, tables).value.aggregated && InOrder(select, cat, tables)
    requires forall i | 0 <= i < |select.columns| :: AskedItem(BuildPlan(select, cat, tables).value.sources, select.columns[i], cat, tables).Some?
    requires var p := BuildPlan(select, cat, tables).value;
             Walks(lib) && Tells(lib, p.group.keys, rows) && |rows| < TWO63 && forall i | 0 <= i < |rows| :: |rows[i]| == |p.sources|
    ensures var p := BuildPlan(select, cat, tables).value;
            var groups, items := Groups(lib, p.group, rows), AskedItems(select, p, cat, tables);
            multiset(ShownRows(lib, p.group, |select.columns|, groups)) == multiset(SqlAnswer(lib, p.group, items, rows)) <==>
              (rows != [] || select.groupBy != []) && forall i | 0 <= i < |groups| :: AllSound(items, groups[i])
  {
    hide BuildPlan, Groups, ShownRows, SqlRows, InOrder, Tells, AllSound, AskedItem, KeysFirst, AllCoincide, SpecOk, SqlRow;
    var p := BuildPlan(select, cat, tables).value;
    var groups, items := Groups(lib, p.group, rows), AskedItems(select, p, cat, tables);
    InOrderItems(select, cat, tables);
    PlanSpecOk(select, cat, tables);
    SomeCall(select, cat, tables);
    ShownIsSql(lib, p.group, |p.sources|, items, rows);
    if p.group.keys == [] && rows == [] {
      EmptyAnswer(lib, p.group, |items|, rows);
      assert |multiset(ShownRows(lib, p.group, |items|, groups))| == 0;
      assert |multiset([SqlRow(lib, items, [])])| == 1;
    }
  }
}
