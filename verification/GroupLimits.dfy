/** ORDER BY on groups, GROUP BY without an aggregate, and statements that come out otherwise than asked. */
module GroupLimits {
  import opened Bytes
  import opened Names
  import opened Values
  import opened Ast
  import opened Program
  import opened SortGroup
  import opened SelectPlan
  import opened VirtualMachine
  import opened CompileSelect
  import opened SelectRun
  import opened SelectMeaning
  import opened GroupItems
  import opened GroupMeaning
  import Grouping

  // ---- ORDER BY on groups ---------------------------------------------------------------------------------------

  /** ORDER BY looks for its term among the sources, at place `p`, and sorts by place `p` of the grouped
      row: on every group that is the column it names exactly if that column stands there. */
  lemma GroupedOrderExact(lib: Lib, spec: GroupSpec, n: nat, p: nat)
    requires SpecOk(spec, n) && p < n && Adds(lib)
    ensures (forall g | GroupOk(spec.keys, n, g) :: GroupedCol(lib, spec, p, g) == ItemValue(lib, Key(p), g)) <==>
              ShownItem(spec, p).Some? && Coincide(spec.keys, ShownItem(spec, p).value, Key(p))
  {
    hide ItemValue, GroupOk, Coincide;
    if ShownItem(spec, p).Some? {
      CoincideExact(lib, spec.keys, n, ShownItem(spec, p).value, Key(p));
    } else {
      var r := OneAt(n, p, Value.Integer(1), Value.Null);
      SingleOk(spec.keys, n, r);
      OneRow(lib, Key(p), r);
      assert GroupedCol(lib, spec, p, [r]) != ItemValue(lib, Key(p), [r]);
    }
  }

  /** GROUP BY terms that name different columns take their places in order ... */
  lemma {:induction false} KeysInPlace(groupBy: seq<Expr>, cat: Catalog, tables: seq<Binding>)
    requires GroupKeys(groupBy, cat, tables).Ok?
    requires forall i, j | 0 <= i < j < |groupBy| :: ResolveColumn(groupBy[i], cat, tables) != ResolveColumn(groupBy[j], cat, tables)
    ensures var (sources, keys) := GroupKeys(groupBy, cat, tables).value;
            && |sources| == |groupBy| && (forall i | 0 <= i < |groupBy| :: keys[i] == i)
            && forall i | 0 <= i < |groupBy| :: var c := ResolveColumn(groupBy[i], cat, tables); c.Ok? && sources[i] == FromColumn(c.value)
  {
    hide ResolveColumn, SourcesOk, IndexOf;
    if groupBy != [] {
      var n := |groupBy| - 1;
      KeysInPlace(groupBy[..n], cat, tables);
      var rest, c := GroupKeys(groupBy[..n], cat, tables).value, ResolveColumn(groupBy[n], cat, tables).value;
      forall i | 0 <= i < n ensures rest.0[i] != FromColumn(c) {
        assert ResolveColumn(groupBy[..n][i], cat, tables) == ResolveColumn(groupBy[i], cat, tables);
      }
      assert FromColumn(c) !in rest.0;
      NewPlace(rest.0, c);
    }
  }

  lemma NewPlace(sources: seq<Source>, c: ColumnRef)
    requires FromColumn(c) !in sources
    ensures PushUnique(sources, c) == (sources + [FromColumn(c)], |sources|)
  {
  }

  /** ... and then ORDER BY one of them sorts the groups by it. */
  lemma DistinctKeysOrder(lib: Lib, select: Select, cat: Catalog, tables: seq<Binding>, p: nat, g: seq<Row>)
    requires tables != [] && BuildPlan(select, cat, tables).Ok? && BuildPlan(select, cat, tables).value.aggregated && p < |select.groupBy|
    requires forall i, j | 0 <= i < j < |select.groupBy| :: ResolveColumn(select.groupBy[i], cat, tables) != ResolveColumn(select.groupBy[j], cat, tables)
    ensures GroupedCol(lib, BuildPlan(select, cat, tables).value.group, p, g) == ItemValue(lib, Key(p), g)
  {
    hide BuildPlan, ResolveColumn, Aggregates, GroupKeys, ItemValue;
    AggregatedPlan(select, cat, tables);
    KeysInPlace(select.groupBy, cat, tables);
  }

  /** The groups of a compiled query with ORDER BY come out sorted by these places, groups with equal keys
      as the machine walks over them. */
  lemma GroupedSorts(lib: Lib, q: Query, tables: map<string, Table>) returns (t: State, sorted: seq<Row>)
    requires QueryOk(q) && q.plan.aggregated && q.ordered && Wide(q) && Walks(lib) && Scannable(q, tables)
    requires FaithfulQuery(q) && SafeQuery(q) && AllReadable(lib, q, tables) && AllSafe(lib, q, tables)
    ensures Reaches(lib, SelectCode(q), Fresh(tables), t) && t.status == Done && t.tables == tables
    ensures var spec := q.plan.group;
            var rows := ShownRows(lib, spec, |spec.keys| + |spec.aggs|, GroupMeaning.Groups(lib, spec, Wanted(lib, q, Views(q, tables))));
            && AllWide(sorted, q.plan.outputWidth) && t.out == Shown(sorted, q.plan.outputWidth)
            && multiset(sorted) == multiset(rows)
            && forall kinds | AllKinded(q.plan.sortKeys, kinds, rows) :: Sorts(lib, q.plan.sortKeys, kinds, rows, sorted)
  {
    hide Reaches, SelectCode, Views, Wanted, Scannable, FaithfulQuery, SafeQuery, AllReadable, AllSafe, SortRows, AllKinded, Sorts, GroupMeaning.Groups, ShownRows, Grouping.GroupRows, QueryOk, Wide;
    t := SelectAnswers(lib, q, tables);
    QueryHasTables(q);
    var spec, wanted := q.plan.group, Wanted(lib, q, Views(q, tables));
    GroupRowsAre(lib, spec, wanted);
    var rows := Grouping.GroupRows(lib, spec, wanted);
    sorted := SortRows(lib, q.plan.sortKeys, rows);
    SortPermutes(lib, q.plan.sortKeys, rows);
    forall kinds | AllKinded(q.plan.sortKeys, kinds, rows) ensures Sorts(lib, q.plan.sortKeys, kinds, rows, sorted) {
      SortSorts(lib, q.plan.sortKeys, kinds, rows);
    }
  }

  // ---- GROUP BY without a call --------------------------------------------------------------------------------------

  /** The rows of the FROM clause for which ON and WHERE are true. */
  function Passing(lib: Lib, q: Query, views: seq<View>): seq<View> {
    if views == [] then []
    else (if Holds(lib, q, views[0], q.on) && Holds(lib, q, views[0], q.where) then [views[0]] else []) + Passing(lib, q, views[1..])
  }

  function Projected(lib: Lib, q: Query, views: seq<View>): (r: seq<Row>)
    ensures |r| == |views|
  { seq(|views|, i requires 0 <= i < |views| => Project(lib, q, views[i], |q.plan.sources|)) }

  /** The values of the GROUP BY terms. */
  function KeyOf(lib: Lib, q: Query, groupBy: seq<Expr>, view: View): (r: seq<Result<Value>>)
    ensures |r| == |groupBy|
  { seq(|groupBy|, i requires 0 <= i < |groupBy| => SqlValue(lib, q, view, groupBy[i])) }

  /** One row of each group, the last. */
  function OnePerGroup(lib: Lib, q: Query, groupBy: seq<Expr>, views: seq<View>): (r: seq<View>)
    ensures |r| <= |views|
  {
    if views == [] then []
    else
      var rest := OnePerGroup(lib, q, groupBy, views[1..]);
      if exists i | 0 <= i < |rest| :: KeyOf(lib, q, groupBy, rest[i]) == KeyOf(lib, q, groupBy, views[0]) then rest else [views[0]] + rest
  }

  ghost predicate KeysApart(lib: Lib, q: Query, groupBy: seq<Expr>, views: seq<View>) {
    forall i, j | 0 <= i < j < |views| :: KeyOf(lib, q, groupBy, views[i]) != KeyOf(lib, q, groupBy, views[j])
  }

  lemma {:induction false} WantedIsPassing(lib: Lib, q: Query, views: seq<View>)
    ensures Wanted(lib, q, views) == Projected(lib, q, Passing(lib, q, views))
  {
    hide Holds, Project;
    if views != [] { WantedIsPassing(lib, q, views[1..]); }
  }

  /** Every key of `views` is a key of `kept`. */
  ghost predicate HasKeys(lib: Lib, q: Query, groupBy: seq<Expr>, views: seq<View>, kept: seq<View>) {
    forall v | v in views :: exists i | 0 <= i < |kept| :: KeyOf(lib, q, groupBy, kept[i]) == KeyOf(lib, q, groupBy, v)
  }

  /** The rows kept have all keys, each once, and they are all rows exactly if no key comes twice. */
  ghost predicate Kept(lib: Lib, q: Query, groupBy: seq<Expr>, views: seq<View>, kept: seq<View>) {
    && KeysApart(lib, q, groupBy, kept) && HasKeys(lib, q, groupBy, views, kept) && (forall v | v in kept :: v in views)
    && (|kept| == |views| <==> KeysApart(lib, q, groupBy, views)) && (KeysApart(lib, q, groupBy, views) ==> kept == views)
  }

  lemma {:induction false} OnePerGroupIs(lib: Lib, q: Query, groupBy: seq<Expr>, views: seq<View>)
    ensures Kept(lib, q, groupBy, views, OnePerGroup(lib, q, groupBy, views))
  {
    hide KeyOf, Kept, OnePerGroup;
    if views == [] {
      NoneKept(lib, q, groupBy);
    } else {
      var rest := OnePerGroup(lib, q, groupBy, views[1..]);
      OnePerGroupIs(lib, q, groupBy, views[1..]);
      KeptUnfold(lib, q, groupBy, views);
      if i :| 0 <= i < |rest| && KeyOf(lib, q, groupBy, rest[i]) == KeyOf(lib, q, groupBy, views[0]) {
        KeptOld(lib, q, groupBy, views, rest, i);
      } else {
        KeptNew(lib, q, groupBy, views, rest);
      }
    }
  }

  lemma NoneKept(lib: Lib, q: Query, groupBy: seq<Expr>)
    ensures OnePerGroup(lib, q, groupBy, []) == [] && Kept(lib, q, groupBy, [], [])
  {
  }

  lemma KeptOld(lib: Lib, q: Query, groupBy: seq<Expr>, views: seq<View>, rest: seq<View>, i: nat)
    requires views != [] && |rest| < |views| && Kept(lib, q, groupBy, views[1..], rest)
    requires i < |rest| && KeyOf(lib, q, groupBy, rest[i]) == KeyOf(lib, q, groupBy, views[0])
    ensures Kept(lib, q, groupBy, views, rest)
  {
    hide KeyOf;
    assert rest[i] in views[1..];
    var j :| 0 <= j < |views[1..]| && views[1..][j] == rest[i];
    assert views[j + 1] == rest[i];
    assert forall v | v in views :: v == views[0] || v in views[1..];
  }

  lemma KeptNew(lib: Lib, q: Query, groupBy: seq<Expr>, views: seq<View>, rest: seq<View>)
    requires views != [] && Kept(lib, q, groupBy, views[1..], rest)
    requires !exists i | 0 <= i < |rest| :: KeyOf(lib, q, groupBy, rest[i]) == KeyOf(lib, q, groupBy, views[0])
    ensures Kept(lib, q, groupBy, views, [views[0]] + rest)
  {
    hide KeyOf, KeysApart, HasKeys;
    var kept := [views[0]] + rest;
    ApartCons(lib, q, groupBy, views[0], rest);
    MoreKeys(lib, q, groupBy, views, rest);
    ApartTail(lib, q, groupBy, views);
    assert views == [views[0]] + views[1..];
    if KeysApart(lib, q, groupBy, views[1..]) { ApartCons(lib, q, groupBy, views[0], views[1..]); }
  }

  lemma MoreKeys(lib: Lib, q: Query, groupBy: seq<Expr>, views: seq<View>, rest: seq<View>)
    requires views != [] && HasKeys(lib, q, groupBy, views[1..], rest)
    ensures HasKeys(lib, q, groupBy, views, [views[0]] + rest)
  {
    hide KeyOf;
    var kept := [views[0]] + rest;
    forall v | v in views ensures exists i | 0 <= i < |kept| :: KeyOf(lib, q, groupBy, kept[i]) == KeyOf(lib, q, groupBy, v) {
      if v in views[1..] {
        var i :| 0 <= i < |rest| && KeyOf(lib, q, groupBy, rest[i]) == KeyOf(lib, q, groupBy, v);
        assert kept[i + 1] == rest[i];
      } else {
        assert v == views[0] == kept[0];
      }
    }
  }

  lemma KeptUnfold(lib: Lib, q: Query, groupBy: seq<Expr>, views: seq<View>)
    requires views != []
    ensures var rest := OnePerGroup(lib, q, groupBy, views[1..]);
            OnePerGroup(lib, q, groupBy, views) ==
              if exists i | 0 <= i < |rest| :: KeyOf(lib, q, groupBy, rest[i]) == KeyOf(lib, q, groupBy, views[0]) then rest else [views[0]] + rest
  {
    hide KeyOf;
  }

  lemma ApartTail(lib: Lib, q: Query, groupBy: seq<Expr>, views: seq<View>)
    requires views != []
    ensures KeysApart(lib, q, groupBy, views) ==> KeysApart(lib, q, groupBy, views[1..])
  {
    hide KeyOf;
  }

  lemma ApartCons(lib: Lib, q: Query, groupBy: seq<Expr>, v: View, rest: seq<View>)
    requires KeysApart(lib, q, groupBy, rest) && forall i | 0 <= i < |rest| :: KeyOf(lib, q, groupBy, rest[i]) != KeyOf(lib, q, groupBy, v)
    ensures KeysApart(lib, q, groupBy, [v] + rest)
  {
    hide KeyOf;
  }

  /** GROUP BY without an aggregate in the select list groups nothing: every row is shown. The rows are
      those of SQL, one for each group, exactly if no two of them have the same GROUP BY values. */
  lemma UngroupedExact(lib: Lib, q: Query, groupBy: seq<Expr>, tables: map<string, Table>) returns (t: State)
    requires QueryOk(q) && Walks(lib) && Scannable(q, tables) && q.grouped && !q.plan.aggregated
    requires FaithfulQuery(q) && SafeQuery(q) && AllReadable(lib, q, tables) && AllSafe(lib, q, tables)
    ensures Reaches(lib, SelectCode(q), Fresh(tables), t) && t.status == Done && t.tables == tables
    ensures var views := Passing(lib, q, Views(q, tables));
            && multiset(t.out) == multiset(Projected(lib, q, views))
            && (multiset(t.out) == multiset(Projected(lib, q, OnePerGroup(lib, q, groupBy, views))) <==> KeysApart(lib, q, groupBy, views))
  {
    hide Reaches, SelectCode, Views, Wanted, Scannable, FaithfulQuery, SafeQuery, AllReadable, AllSafe, SortRows, Projected, Passing, KeysApart, OnePerGroup;
    t := SelectAnswers(lib, q, tables);
    QueryHasTables(q);
    var views := Passing(lib, q, Views(q, tables));
    var rows, kept := Projected(lib, q, views), OnePerGroup(lib, q, groupBy, views);
    WantedIsPassing(lib, q, Views(q, tables));
    WantedWidth(lib, q, Views(q, tables));
    var sorted := SortRows(lib, q.plan.sortKeys, rows);
    SortPermutes(lib, q.plan.sortKeys, rows);
    SameWidth(rows, sorted, |q.plan.sources|);
    WholeShown(rows, |q.plan.sources|);
    WholeShown(sorted, |q.plan.sources|);
    OnePerGroupIs(lib, q, groupBy, views);
    assert |multiset(rows)| == |views| && |multiset(Projected(lib, q, kept))| == |kept|;
  }

  // ---- Rows that come out otherwise --------------------------------------------------------------------------------

  /** The table t(a, b). */
  const TWO_COLUMNS: Catalog := map["t" := ["a", "b"]]
  const ONE_TABLE := [Binding("t", "t")]
  const PLACE_A := FromColumn(ColumnRef(0, 0))
  const PLACE_B := FromColumn(ColumnRef(0, 1))

  lemma AggregateNames()
    ensures ParseAgg("sum") == Some(Sum) && ParseAgg("count") == Some(CountRows)
  {
    assert |Lower("sum")| != |Lower("count")|;
  }

  lemma KeyA()
    ensures GroupKeys([Ident("a")], TWO_COLUMNS, ONE_TABLE) == Ok(([PLACE_A], [0]))
  {
    hide ResolveColumn, IndexOf, PushUnique;
    FirstColumn();
    NewPlace([], ColumnRef(0, 0));
    var groupBy: seq<Expr> := [Ident("a")];
    assert [] + [PLACE_A] == [PLACE_A] && [] + [0] == [0];
    KeysStep(groupBy, [], [], ColumnRef(0, 0), [PLACE_A], 0);
  }

  /** One more GROUP BY term. */
  lemma KeysStep(groupBy: seq<Expr>, sources: seq<Source>, keys: seq<nat>, c: ColumnRef, more: seq<Source>, x: nat)
    requires groupBy != [] && GroupKeys(groupBy[..|groupBy| - 1], TWO_COLUMNS, ONE_TABLE) == Ok((sources, keys))
    requires ResolveColumn(groupBy[|groupBy| - 1], TWO_COLUMNS, ONE_TABLE) == Ok(c) && PushUnique(sources, c) == (more, x)
    ensures GroupKeys(groupBy, TWO_COLUMNS, ONE_TABLE) == Ok((more, keys + [x]))
  {
    hide ResolveColumn, PushUnique;
  }

  /** A key where a sum was asked for: `SELECT SUM(b) FROM t GROUP BY a` shows a. */
  lemma SumInput(lib: Lib)
    ensures var select := Select([Call("sum", [Ident("b")])], Some(TableRef.Table("t", None)), None, [Ident("a")], []);
            var spec := GroupSpec([0], [AggSpec(Sum, Some(1))]);
            && BuildPlan(select, TWO_COLUMNS, ONE_TABLE) == Ok(Plan([PLACE_A, PLACE_B], 1, true, spec, []))
            && AskedItem([PLACE_A, PLACE_B], select.columns[0], TWO_COLUMNS, ONE_TABLE) == Some(Agg(spec.aggs[0]))
            && ShownRow(lib, spec, 1, [[Value.Integer(5), Value.Integer(7)]]) == [Value.Integer(5)]
            && SqlItem(lib, Agg(spec.aggs[0]), [[Value.Integer(5), Value.Integer(7)]]) == Value.Real(lib.add(lib.zero, lib.floatOf(7)))
  {
    var select := Select([Call("sum", [Ident("b")])], Some(TableRef.Table("t", None)), None, [Ident("a")], []);
    SumPlan(select);
    SumValue(lib, Value.Integer(5), 7);
  }

  lemma SumPlan(select: Select)
    requires select.columns == [Call("sum", [Ident("b")])] && select.groupBy == [Ident("a")] && select.orderBy == []
    ensures BuildPlan(select, TWO_COLUMNS, ONE_TABLE) == Ok(Plan([PLACE_A, PLACE_B], 1, true, GroupSpec([0], [AggSpec(Sum, Some(1))]), []))
    ensures AskedItem([PLACE_A, PLACE_B], select.columns[0], TWO_COLUMNS, ONE_TABLE) == Some(Agg(AggSpec(Sum, Some(1))))
  {
    hide ResolveColumn, IndexOf, PushUnique, ParseAgg, GroupKeys;
    AggregateNames();
    SecondColumn();
    NewPlace([PLACE_A], ColumnRef(0, 1));
    KeyA();
    assert PLACE_A != PLACE_B;
    OnlyPlace([PLACE_A, PLACE_B], 1);
    var columns := select.columns;
    assert columns[..0] == [];
    assert columns[0].Call? && columns[0] in columns;
    assert Aggregates(columns[..0], [0], [PLACE_A], TWO_COLUMNS, ONE_TABLE) == Ok(([PLACE_A], []));
    assert [PLACE_A] + [PLACE_B] == [PLACE_A, PLACE_B];
    assert [] + [AggSpec(Sum, Some(1))] == [AggSpec(Sum, Some(1))];
    assert Aggregates(columns, [0], [PLACE_A], TWO_COLUMNS, ONE_TABLE) == Ok(([PLACE_A, PLACE_B], [AggSpec(Sum, Some(1))]));
  }

  lemma SumValue(lib: Lib, v: Value, n: i64)
    ensures var g := [[v, Value.Integer(n)]];
            && ShownRow(lib, GroupSpec([0], [AggSpec(Sum, Some(1))]), 1, g) == [v]
            && SqlItem(lib, Agg(AggSpec(Sum, Some(1))), g) == Value.Real(lib.add(lib.zero, lib.floatOf(n)))
  {
    var g, spec := [[v, Value.Integer(n)]], AggSpec(Sum, Some(1));
    assert g[..0] == [] && Grouping.Arguments(spec, g[..0]) == [];
    assert Grouping.Arguments(spec, g) == [Value.Integer(n)];
    assert [Value.Integer(n)][..0] == [];
    assert Grouping.SumOf(lib, [Value.Integer(n)][..0]) == lib.zero;
  }

  /** Groups in the wrong order: `SELECT COUNT(*) FROM t GROUP BY a, a, b ORDER BY b` sorts by a. */
  lemma OrderInput(lib: Lib)
    ensures var select := Select([Call("count", [Star])], Some(TableRef.Table("t", None)), None, [Ident("a"), Ident("a"), Ident("b")], [OrderTerm(Ident("b"), false)]);
            && BuildPlan(select, TWO_COLUMNS, ONE_TABLE) ==
                 Ok(Plan([PLACE_A, PLACE_B], 1, true, GroupSpec([0, 0, 1], [AggSpec(CountRows, None)]), [SortKey(1, false)]))
            && !Coincide([0, 0, 1], Key(0), Key(1))
    ensures var rows := [[Value.Integer(1), Value.Integer(1), Value.Integer(9), Value.Integer(1)],
                         [Value.Integer(2), Value.Integer(2), Value.Integer(3), Value.Integer(1)]];
            SortRows(lib, [SortKey(1, false)], rows) == rows
  {
    var select := Select([Call("count", [Star])], Some(TableRef.Table("t", None)), None, [Ident("a"), Ident("a"), Ident("b")], [OrderTerm(Ident("b"), false)]);
    OrderPlan(select);
    SortedByA(lib);
  }

  lemma SortedByA(lib: Lib)
    ensures var rows := [[Value.Integer(1), Value.Integer(1), Value.Integer(9), Value.Integer(1)],
                         [Value.Integer(2), Value.Integer(2), Value.Integer(3), Value.Integer(1)]];
            SortRows(lib, [SortKey(1, false)], rows) == rows
  {
    var r, s := [Value.Integer(1), Value.Integer(1), Value.Integer(9), Value.Integer(1)], [Value.Integer(2), Value.Integer(2), Value.Integer(3), Value.Integer(1)];
    var keys := [SortKey(1, false)];
    assert CompareRows(lib, keys, s, r) == Greater;
    assert [r, s][1..] == [s] && [s][1..] == [];
    assert SortRows(lib, keys, [s]) == [s];
  }

  lemma OldPlace()
    ensures PushUnique([PLACE_A], ColumnRef(0, 0)) == ([PLACE_A], 0)
  {
    OnlyPlace([PLACE_A], 0);
  }

  lemma KeysAAB()
    ensures GroupKeys([Ident("a"), Ident("a"), Ident("b")], TWO_COLUMNS, ONE_TABLE) == Ok(([PLACE_A, PLACE_B], [0, 0, 1]))
  {
    hide ResolveColumn, IndexOf, PushUnique, GroupKeys;
    FirstColumn();
    SecondColumn();
    OldPlace();
    NewPlace([PLACE_A], ColumnRef(0, 1));
    KeyA();
    var groupBy: seq<Expr> := [Ident("a"), Ident("a"), Ident("b")];
    assert groupBy[..2] == [Ident("a"), Ident("a")];
    assert groupBy[..2][..1] == [Ident("a")];
    KeysStep(groupBy[..2], [PLACE_A], [0], ColumnRef(0, 0), [PLACE_A], 0);
    KeysStep(groupBy, [PLACE_A], [0] + [0], ColumnRef(0, 1), [PLACE_A] + [PLACE_B], 1);
    assert [PLACE_A] + [PLACE_B] == [PLACE_A, PLACE_B] && [0] + [0] + [1] == [0, 0, 1];
  }

  lemma OrderPlan(select: Select)
    requires select.columns == [Call("count", [Star])] && select.groupBy == [Ident("a"), Ident("a"), Ident("b")] && select.orderBy == [OrderTerm(Ident("b"), false)]
    ensures BuildPlan(select, TWO_COLUMNS, ONE_TABLE) ==
              Ok(Plan([PLACE_A, PLACE_B], 1, true, GroupSpec([0, 0, 1], [AggSpec(CountRows, None)]), [SortKey(1, false)]))
  {
    hide ResolveColumn, IndexOf, PushUnique, ParseAgg, GroupKeys, NamesSource, FirstMatch;
    AggregateNames();
    KeysAAB();
    NamedB();
    var columns := select.columns;
    assert columns[..0] == [];
    assert columns[0].Call? && columns[0] in columns;
    assert Aggregates(columns[..0], [0, 0, 1], [PLACE_A, PLACE_B], TWO_COLUMNS, ONE_TABLE) == Ok(([PLACE_A, PLACE_B], []));
    assert [] + [AggSpec(CountRows, None)] == [AggSpec(CountRows, None)];
    assert Aggregates(columns, [0, 0, 1], [PLACE_A, PLACE_B], TWO_COLUMNS, ONE_TABLE) == Ok(([PLACE_A, PLACE_B], [AggSpec(CountRows, None)]));
    assert select.orderBy[1..] == [] && [SortKey(1, false)] + [] == [SortKey(1, false)];
    assert OrderKeys(select.orderBy[1..], select, [PLACE_A, PLACE_B], true, TWO_COLUMNS, ONE_TABLE) == Ok([]);
  }

  lemma NamedB()
    ensures FirstSource(Ident("b"), [PLACE_A, PLACE_B], TWO_COLUMNS, ONE_TABLE) == Some(1)
  {
    TwoColumns();
    assert !SameName("a", "b");
    assert [PLACE_A, PLACE_B][1..] == [PLACE_B];
    assert !NamesSource(Ident("b"), PLACE_A, TWO_COLUMNS, ONE_TABLE) && NamesSource(Ident("b"), PLACE_B, TWO_COLUMNS, ONE_TABLE);
  }
}
