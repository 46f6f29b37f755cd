/** GROUP BY on the row buffer (`apply_group_by`, vdbe/exec.rs). */
module Grouping {
  import opened Bytes
  import opened Values
  import opened Program
  import opened SortGroup

  const SEPARATOR: byte := 0x1f

  // ---- Keys ----------------------------------------------------------------------------------

  function KeyValues(keys: seq<nat>, row: Row): (r: Row)
    ensures |r| == |keys|
  { seq(|keys|, i requires 0 <= i < |keys| => Col(row, keys[i])) }

  /** Texts with a separator between any two. */
  function Joined(texts: seq<seq<byte>>): seq<byte> {
    if texts == [] then []
    else if |texts| == 1 then texts[0]
    else texts[0] + [SEPARATOR] + Joined(texts[1..])
  }

  function Texts(lib: Lib, row: Row): (r: seq<seq<byte>>)
    ensures |r| == |row|
  { seq(|row|, i requires 0 <= i < |row| => ToText(lib, row[i])) }

  /** The key under which a row is grouped. */
  function KeyText(lib: Lib, keys: seq<nat>, row: Row): seq<byte> { Joined(Texts(lib, KeyValues(keys, row))) }

  // ---- Aggregates --------------------------------------------------------------------------

  datatype AggState = AggState(count: nat, sum: Option<u64>, min: Option<Value>, max: Option<Value>)

  const FRESH := AggState(0, None, None, None)

  function Argument(agg: AggSpec, row: Row): Option<Value> {
    if agg.colIndex.Some? && agg.colIndex.value < |row| then Some(row[agg.colIndex.value]) else None
  }

  /** `AggState::step`. */
  function Step(lib: Lib, func: AggFunc, val: Option<Value>, st: AggState): AggState {
    var s := st.(count := st.count + 1);
    if val == None || val.value.Null? then s
    else
      match func
      case CountRows => s
      case Sum =>
        var add := match AsReal(lib, val.value) { case Some(x) => x case None => lib.zero };
        s.(sum := Some(lib.add(if s.sum.Some? then s.sum.value else lib.zero, add)))
      case Min => s.(min := Some(if s.min == None || Compare(lib, val.value, s.min.value) == Less then val.value else s.min.value))
      case Max => s.(max := Some(if s.max == None || Compare(lib, val.value, s.max.value) == Greater then val.value else s.max.value))
  }

  /** `AggState::finalize`; the count is kept as an integer of 64 bits. */
  function Finalize(lib: Lib, func: AggFunc, st: AggState): Value {
    match func
    case CountRows => Value.Integer(if st.count < TWO63 then st.count else TWO63 - 1)
    case Sum => Value.Real(if st.sum.Some? then st.sum.value else lib.zero)
    case Min => if st.min.Some? then st.min.value else Value.Null
    case Max => if st.max.Some? then st.max.value else Value.Null
  }

  type Entry = (Row, seq<AggState>)

  function StepAll(lib: Lib, aggs: seq<AggSpec>, states: seq<AggState>, row: Row): (r: seq<AggState>)
    requires |states| == |aggs|
    ensures |r| == |aggs|
  { seq(|aggs|, i requires 0 <= i < |aggs| => Step(lib, aggs[i].func, Argument(aggs[i], row), states[i])) }

  function FinishRow(lib: Lib, aggs: seq<AggSpec>, e: Entry): Row
    requires |e.1| == |aggs|
  { e.0 + seq(|aggs|, i requires 0 <= i < |aggs| => Finalize(lib, aggs[i].func, e.1[i])) }

  // ---- The map of groups ---------------------------------------------------------------------------

  /** One row enters its group, which it may have to open. */
  function Enter(lib: Lib, spec: GroupSpec, m: map<seq<byte>, Entry>, row: Row): (r: map<seq<byte>, Entry>)
    requires forall k | k in m :: |m[k].1| == |spec.aggs|
    ensures forall k | k in r :: |r[k].1| == |spec.aggs|
  {
    var k := KeyText(lib, spec.keys, row);
    var e := if k in m then m[k] else (KeyValues(spec.keys, row), seq(|spec.aggs|, _ => FRESH));
    m[k := (e.0, StepAll(lib, spec.aggs, e.1, row))]
  }

  function GroupsOf(lib: Lib, spec: GroupSpec, rows: seq<Row>): (m: map<seq<byte>, Entry>)
    ensures forall k | k in m :: |m[k].1| == |spec.aggs|
  {
    if rows == [] then map[]
    else Enter(lib, spec, GroupsOf(lib, spec, rows[..|rows| - 1]), rows[|rows| - 1])
  }

  /** The buffer after grouping. */
  function GroupRows(lib: Lib, spec: GroupSpec, rows: seq<Row>): (r: seq<Row>) {
    RowsIn(lib, spec, GroupsOf(lib, spec, rows), lib.hashOrder(GroupsOf(lib, spec, rows).Keys))
  }

  function RowsIn(lib: Lib, spec: GroupSpec, m: map<seq<byte>, Entry>, order: seq<seq<byte>>): (r: seq<Row>)
    requires forall k | k in m :: |m[k].1| == |spec.aggs|
    ensures |r| == |order|
  {
    seq(|order|, i requires 0 <= i < |order| =>
      if order[i] in m then FinishRow(lib, spec.aggs, m[order[i]]) else [])
  }

  // ---- What the groups are -----------------------------------------------------------------------

  /** The rows with the key text `k`, in order. */
  function Members(lib: Lib, keys: seq<nat>, rows: seq<Row>, k: seq<byte>): (r: seq<Row>) {
    if rows == [] then []
    else
      var n := |rows| - 1;
      Members(lib, keys, rows[..n], k) + (if KeyText(lib, keys, rows[n]) == k then [rows[n]] else [])
  }

  /** An aggregate over the rows of one group. */
  function Folded(lib: Lib, agg: AggSpec, rows: seq<Row>): AggState {
    if rows == [] then FRESH
    else Step(lib, agg.func, Argument(agg, rows[|rows| - 1]), Folded(lib, agg, rows[..|rows| - 1]))
  }

  /** A group is entered under `k` exactly when some row has that key text, and its entry is the first
      such row's key and the aggregates of all of them. */
  lemma {:induction false} GroupIsMembers(lib: Lib, spec: GroupSpec, rows: seq<Row>, k: seq<byte>)
    ensures k in GroupsOf(lib, spec, rows) <==> Members(lib, spec.keys, rows, k) != []
    ensures k in GroupsOf(lib, spec, rows) ==>
              var e := GroupsOf(lib, spec, rows)[k]; var g := Members(lib, spec.keys, rows, k);
              e.0 == KeyValues(spec.keys, g[0]) && forall i | 0 <= i < |spec.aggs| :: e.1[i] == Folded(lib, spec.aggs[i], g)
  {
    hide KeyText, KeyValues, Step, Argument;
    if rows != [] {
      var n := |rows| - 1;
      GroupIsMembers(lib, spec, rows[..n], k);
      var g := Members(lib, spec.keys, rows[..n], k);
      if KeyText(lib, spec.keys, rows[n]) == k {
        assert (g + [rows[n]])[..|g|] == g;
      } else {
        assert Members(lib, spec.keys, rows, k) == g;
      }
    }
  }

  // ---- Conservation --------------------------------------------------------------------------------

  /** The sizes of the groups named in `order`, added up. */
  function Total(lib: Lib, keys: seq<nat>, rows: seq<Row>, order: seq<seq<byte>>): nat {
    if order == [] then 0 else |Members(lib, keys, rows, order[0])| + Total(lib, keys, rows, order[1..])
  }

  lemma {:induction false} TotalStep(lib: Lib, keys: seq<nat>, rows: seq<Row>, order: seq<seq<byte>>)
    requires rows != []
    ensures Total(lib, keys, rows, order) ==
              Total(lib, keys, rows[..|rows| - 1], order) + multiset(order)[KeyText(lib, keys, rows[|rows| - 1])]
  {
    hide KeyText;
    if order != [] {
      TotalStep(lib, keys, rows, order[1..]);
      assert order == [order[0]] + order[1..];
    }
  }

  lemma {:induction false} TotalOfNone(lib: Lib, keys: seq<nat>, order: seq<seq<byte>>)
    ensures Total(lib, keys, [], order) == 0
  {
    if order != [] { TotalOfNone(lib, keys, order[1..]); }
  }

  /** Every row is in exactly one group: over any list that names each group once, the group sizes
      (which are what COUNT gives) add up to the number of rows. */
  lemma {:induction false} CountsAddUp(lib: Lib, keys: seq<nat>, rows: seq<Row>, order: seq<seq<byte>>)
    requires forall i | 0 <= i < |rows| :: multiset(order)[KeyText(lib, keys, rows[i])] == 1
    ensures Total(lib, keys, rows, order) == |rows|
  {
    hide KeyText, Members;
    if rows == [] {
      TotalOfNone(lib, keys, order);
    } else {
      TotalStep(lib, keys, rows, order);
      CountsAddUp(lib, keys, rows[..|rows| - 1], order);
    }
  }

  /** The walk over the groups names each group once. */
  lemma GroupsNamedOnce(lib: Lib, spec: GroupSpec, rows: seq<Row>, i: nat)
    requires Walks(lib) && i < |rows|
    ensures multiset(lib.hashOrder(GroupsOf(lib, spec, rows).Keys))[KeyText(lib, spec.keys, rows[i])] == 1
  {
    hide KeyText, GroupsOf, Members;
    var k := KeyText(lib, spec.keys, rows[i]);
    GroupIsMembers(lib, spec, rows, k);
    MemberFound(lib, spec.keys, rows, i);
    assert multiset(GroupsOf(lib, spec, rows).Keys)[k] == 1;
  }

  lemma {:induction false} MemberFound(lib: Lib, keys: seq<nat>, rows: seq<Row>, i: nat)
    requires i < |rows|
    ensures rows[i] in Members(lib, keys, rows, KeyText(lib, keys, rows[i]))
  {
    hide KeyText;
    if i < |rows| - 1 { MemberFound(lib, keys, rows[..|rows| - 1], i); }
  }

  lemma {:induction false} FoldCounts(lib: Lib, agg: AggSpec, g: seq<Row>)
    ensures Folded(lib, agg, g).count == |g|
  {
    hide Compare, AsReal;
    if g != [] { FoldCounts(lib, agg, g[..|g| - 1]); }
  }

  /** So the rows that GROUP BY put away can be found in its counts. */
  lemma GroupingConserves(lib: Lib, spec: GroupSpec, rows: seq<Row>)
    requires Walks(lib)
    ensures Total(lib, spec.keys, rows, lib.hashOrder(GroupsOf(lib, spec, rows).Keys)) == |rows|
  {
    hide KeyText, Members, GroupsOf, Total;
    forall i | 0 <= i < |rows| ensures multiset(lib.hashOrder(GroupsOf(lib, spec, rows).Keys))[KeyText(lib, spec.keys, rows[i])] == 1 {
      GroupsNamedOnce(lib, spec, rows, i);
    }
    CountsAddUp(lib, spec.keys, rows, lib.hashOrder(GroupsOf(lib, spec, rows).Keys));
  }

  // ---- The order of the groups does not matter --------------------------------------------------------

  lemma {:induction false} RowsInAgree(lib: Lib, spec: GroupSpec, m: map<seq<byte>, Entry>, a: seq<seq<byte>>, b: seq<seq<byte>>)
    requires (forall k | k in m :: |m[k].1| == |spec.aggs|) && multiset(a) == multiset(b)
    ensures multiset(RowsIn(lib, spec, m, a)) == multiset(RowsIn(lib, spec, m, b))
    decreases |a|
  {
    hide FinishRow;
    if a == [] {
      assert |multiset(b)| == 0;
      assert b == [];
    } else {
      assert a[0] in multiset(b);
      var i :| 0 <= i < |b| && b[i] == a[0];
      TakenOut(a, b, i);
      RowsInAgree(lib, spec, m, a[1..], b[..i] + b[i + 1..]);
      assert a == [a[0]] + a[1..] && b == b[..i] + ([a[0]] + b[i + 1..]);
      RowsInParts(lib, spec, m, [a[0]], a[1..]);
      RowsInParts(lib, spec, m, b[..i], [a[0]] + b[i + 1..]);
      RowsInParts(lib, spec, m, [a[0]], b[i + 1..]);
      RowsInParts(lib, spec, m, b[..i], b[i + 1..]);
    }
  }

  lemma TakenOut<T>(a: seq<T>, b: seq<T>, i: nat)
    requires multiset(a) == multiset(b) && a != [] && i < |b| && b[i] == a[0]
    ensures multiset(a[1..]) == multiset(b[..i] + b[i + 1..])
  {
    assert a == [a[0]] + a[1..] && b == b[..i] + ([a[0]] + b[i + 1..]);
    assert multiset(b) == multiset(b[..i]) + (multiset{a[0]} + multiset(b[i + 1..]));
    assert multiset(a[1..]) == multiset(a) - multiset{a[0]};
  }

  lemma RowsInParts(lib: Lib, spec: GroupSpec, m: map<seq<byte>, Entry>, a: seq<seq<byte>>, b: seq<seq<byte>>)
    requires forall k | k in m :: |m[k].1| == |spec.aggs|
    ensures RowsIn(lib, spec, m, a + b) == RowsIn(lib, spec, m, a) + RowsIn(lib, spec, m, b)
  {
    hide FinishRow;
  }

  /** Two programs that walk their hash maps differently group alike, up to the order of the rows. */
  lemma GroupingOrderFree(lib: Lib, order: set<seq<byte>> -> seq<seq<byte>>, spec: GroupSpec, rows: seq<Row>)
    requires Walks(lib) && Walks(lib.(hashOrder := order))
    ensures multiset(GroupRows(lib, spec, rows)) == multiset(GroupRows(lib.(hashOrder := order), spec, rows))
  {
    hide GroupsOf, RowsIn;
    var m := GroupsOf(lib, spec, rows);
    SameGroups(lib, order, spec, rows);
    assert multiset(lib.hashOrder(m.Keys)) == multiset(m.Keys) == multiset(lib.(hashOrder := order).hashOrder(m.Keys));
    RowsInAgree(lib, spec, m, lib.hashOrder(m.Keys), order(m.Keys));
    SameFinish(lib, order, spec, m, order(m.Keys));
  }

  lemma SameFinish(lib: Lib, order: set<seq<byte>> -> seq<seq<byte>>, spec: GroupSpec, m: map<seq<byte>, Entry>, names: seq<seq<byte>>)
    requires forall k | k in m :: |m[k].1| == |spec.aggs|
    ensures RowsIn(lib, spec, m, names) == RowsIn(lib.(hashOrder := order), spec, m, names)
  {
    forall e: Entry | |e.1| == |spec.aggs| ensures FinishRow(lib, spec.aggs, e) == FinishRow(lib.(hashOrder := order), spec.aggs, e) {
    }
    hide FinishRow;
  }

  lemma {:induction false} SameGroups(lib: Lib, order: set<seq<byte>> -> seq<seq<byte>>, spec: GroupSpec, rows: seq<Row>)
    ensures GroupsOf(lib, spec, rows) == GroupsOf(lib.(hashOrder := order), spec, rows)
  {
    if rows != [] {
      SameGroups(lib, order, spec, rows[..|rows| - 1]);
      SameEnter(lib, order, spec, GroupsOf(lib, spec, rows[..|rows| - 1]), rows[|rows| - 1]);
    }
  }

  lemma SameEnter(lib: Lib, order: set<seq<byte>> -> seq<seq<byte>>, spec: GroupSpec, m: map<seq<byte>, Entry>, row: Row)
    requires forall k | k in m :: |m[k].1| == |spec.aggs|
    ensures Enter(lib, spec, m, row) == Enter(lib.(hashOrder := order), spec, m, row)
  {
    hide KeyText, KeyValues, Step, StepAll;
    SameKeyText(lib, order, spec.keys, row);
    var k := KeyText(lib, spec.keys, row);
    SameStepAll(lib, order, spec.aggs, if k in m then m[k].1 else seq(|spec.aggs|, _ => FRESH), row);
  }

  lemma SameKeyText(lib: Lib, order: set<seq<byte>> -> seq<seq<byte>>, keys: seq<nat>, row: Row)
    ensures KeyText(lib, keys, row) == KeyText(lib.(hashOrder := order), keys, row)
  {
    assert Texts(lib, KeyValues(keys, row)) == Texts(lib.(hashOrder := order), KeyValues(keys, row));
  }

  lemma SameStepAll(lib: Lib, order: set<seq<byte>> -> seq<seq<byte>>, aggs: seq<AggSpec>, states: seq<AggState>, row: Row)
    requires |states| == |aggs|
    ensures StepAll(lib, aggs, states, row) == StepAll(lib.(hashOrder := order), aggs, states, row)
  {
    hide Step, Argument;
    forall i | 0 <= i < |aggs|
      ensures Step(lib, aggs[i].func, Argument(aggs[i], row), states[i])
           == Step(lib.(hashOrder := order), aggs[i].func, Argument(aggs[i], row), states[i])
    {
      SameStep(lib, order, aggs[i].func, Argument(aggs[i], row), states[i]);
    }
  }

  lemma SameStep(lib: Lib, order: set<seq<byte>> -> seq<seq<byte>>, func: AggFunc, val: Option<Value>, st: AggState)
    ensures Step(lib, func, val, st) == Step(lib.(hashOrder := order), func, val, st)
  {
  }

  // ---- What the aggregates are ---------------------------------------------------------------------

  /** The values an aggregate looks at: the arguments that are there and not null, in row order. */
  function Arguments(agg: AggSpec, g: seq<Row>): seq<Value> {
    if g == [] then []
    else
      var v := Argument(agg, g[|g| - 1]);
      Arguments(agg, g[..|g| - 1]) + (if v.Some? && !v.value.Null? then [v.value] else [])
  }

  /** The sum from left to right, starting at zero. */
  function SumOf(lib: Lib, vs: seq<Value>): u64 {
    if vs == [] then lib.zero
    else
      var n := |vs| - 1;
      lib.add(SumOf(lib, vs[..n]), match AsReal(lib, vs[n]) { case Some(x) => x case None => lib.zero })
  }

  /** SUM adds up the group's values that are not null. */
  lemma {:induction false} SumIsFold(lib: Lib, agg: AggSpec, g: seq<Row>)
    requires agg.func == Sum
    ensures Finalize(lib, Sum, Folded(lib, agg, g)) == Value.Real(SumOf(lib, Arguments(agg, g)))
    ensures Folded(lib, agg, g).sum == None ==> Arguments(agg, g) == []
  {
    hide AsReal, Argument;
    if g != [] {
      var init, v := g[..|g| - 1], Argument(agg, g[|g| - 1]);
      SumIsFold(lib, agg, init);
      if v.Some? && !v.value.Null? {
        assert Arguments(agg, g)[..|Arguments(agg, g)| - 1] == Arguments(agg, init);
      } else {
        assert Arguments(agg, g) == Arguments(agg, init);
      }
    }
  }

  /** In a column of one kind, MIN is a value of the group that none of its values is less than. */
  lemma {:induction false} MinIsLeast(lib: Lib, agg: AggSpec, g: seq<Row>, kind: Kind)
    requires agg.func == Min && forall v | v in Arguments(agg, g) :: OfKind(v, kind)
    ensures var m := Folded(lib, agg, g).min; var vs := Arguments(agg, g);
            if vs == [] then m == None
            else m.Some? && m.value in vs && forall v | v in vs :: Compare(lib, v, m.value) != Less
  {
    hide Compare, Argument, OfKind;
    if g != [] {
      var init, v := g[..|g| - 1], Argument(agg, g[|g| - 1]);
      var vs, m := Arguments(agg, init), Folded(lib, agg, init).min;
      assert forall w | w in vs :: w in Arguments(agg, g);
      MinIsLeast(lib, agg, init, kind);
      if v.Some? && !v.value.Null? {
        assert Arguments(agg, g) == vs + [v.value];
        assert v.value in Arguments(agg, g);
        CompareReverses(lib, v.value, v.value, kind);
        forall w | w in vs ensures Compare(lib, w, v.value) == Less ==> m.Some? && Compare(lib, v.value, m.value) != Less {
          if Compare(lib, w, v.value) == Less && Compare(lib, v.value, m.value) == Less {
            CompareTransitive(lib, w, v.value, m.value, kind);
          }
        }
        if m.Some? { CompareReverses(lib, v.value, m.value, kind); }
      } else {
        assert Arguments(agg, g) == vs;
      }
    }
  }

  /** And MAX one that none of its values is greater than. */
  lemma {:induction false} MaxIsGreatest(lib: Lib, agg: AggSpec, g: seq<Row>, kind: Kind)
    requires agg.func == Max && forall v | v in Arguments(agg, g) :: OfKind(v, kind)
    ensures var m := Folded(lib, agg, g).max; var vs := Arguments(agg, g);
            if vs == [] then m == None
            else m.Some? && m.value in vs && forall v | v in vs :: Compare(lib, v, m.value) != Greater
  {
    hide Compare, Argument, OfKind;
    if g != [] {
      var init, v := g[..|g| - 1], Argument(agg, g[|g| - 1]);
      var vs, m := Arguments(agg, init), Folded(lib, agg, init).max;
      assert forall w | w in vs :: w in Arguments(agg, g);
      MaxIsGreatest(lib, agg, init, kind);
      if v.Some? && !v.value.Null? {
        assert Arguments(agg, g) == vs + [v.value];
        assert v.value in Arguments(agg, g);
        CompareReverses(lib, v.value, v.value, kind);
        forall w | w in vs && m.Some? && Compare(lib, v.value, m.value) == Greater ensures Compare(lib, w, v.value) != Greater {
          CompareReverses(lib, v.value, m.value, kind);
          CompareTransitive(lib, w, m.value, v.value, kind);
        }
      } else {
        assert Arguments(agg, g) == vs;
      }
    }
  }

  // ---- When equal keys are equal values ------------------------------------------------------------

  lemma {:induction false} JoinedInjective(a: seq<seq<byte>>, b: seq<seq<byte>>)
    requires |a| == |b| && Joined(a) == Joined(b)
    requires forall i | 0 <= i < |a| :: SEPARATOR !in a[i] && SEPARATOR !in b[i]
    ensures a == b
  {
    if |a| > 1 {
      var p, q := Joined(a), Joined(b);
      assert p[|a[0]|] == SEPARATOR && q[|b[0]|] == SEPARATOR;
      assert |a[0]| == |b[0]|;
      assert a[0] == p[..|a[0]|] && b[0] == q[..|b[0]|];
      assert Joined(a[1..]) == p[|a[0]| + 1..] && Joined(b[1..]) == q[|b[0]| + 1..];
      JoinedInjective(a[1..], b[1..]);
      assert a == [a[0]] + a[1..] && b == [b[0]] + b[1..];
    }
  }

  /** Rows whose key texts hold no separator share a group exactly when their keys read the same. */
  lemma SameGroupIff(lib: Lib, keys: seq<nat>, r: Row, s: Row)
    requires forall i | 0 <= i < |keys| :: SEPARATOR !in Texts(lib, KeyValues(keys, r))[i] && SEPARATOR !in Texts(lib, KeyValues(keys, s))[i]
    ensures KeyText(lib, keys, r) == KeyText(lib, keys, s) <==> Texts(lib, KeyValues(keys, r)) == Texts(lib, KeyValues(keys, s))
  {
    hide Texts, KeyValues;
    if KeyText(lib, keys, r) == KeyText(lib, keys, s) {
      JoinedInjective(Texts(lib, KeyValues(keys, r)), Texts(lib, KeyValues(keys, s)));
    }
  }

  /** With separators in the texts, different keys can fall together. */
  lemma SeparatorsCollide(lib: Lib)
    ensures var r, s := [Value.Text([SEPARATOR]), Value.Text([])], [Value.Text([]), Value.Text([SEPARATOR])];
            r != s && KeyText(lib, [0, 1], r) == KeyText(lib, [0, 1], s)
  {
    var r, s := [Value.Text([SEPARATOR]), Value.Text([])], [Value.Text([]), Value.Text([SEPARATOR])];
    assert KeyValues([0, 1], r) == r && KeyValues([0, 1], s) == s;
    assert Texts(lib, r) == [[SEPARATOR], []] && Texts(lib, s) == [[], [SEPARATOR]];
    assert Joined([[SEPARATOR], []]) == [SEPARATOR, SEPARATOR] && Joined([[], [SEPARATOR]]) == [SEPARATOR, SEPARATOR];
  }

  // ---- Implementation ---------------------------------------------------------------------------------

  /** The loop over the aggregates of one row. */
  method StepStates(lib: Lib, aggs: seq<AggSpec>, states: seq<AggState>, row: Row) returns (r: seq<AggState>)
    requires |states| == |aggs|
    ensures r == StepAll(lib, aggs, states, row)
  {
    hide Step, Argument;
    r := states;
    for i := 0 to |aggs|
      invariant |r| == |aggs|
      invariant forall j | 0 <= j < |aggs| :: r[j] == if j < i then Step(lib, aggs[j].func, Argument(aggs[j], row), states[j]) else states[j]
    {
      r := r[i := Step(lib, aggs[i].func, Argument(aggs[i], row), r[i])];
    }
  }

  method ApplyGroupBy(lib: Lib, spec: GroupSpec, rows: seq<Row>) returns (out: seq<Row>)
    requires Walks(lib)
    ensures out == GroupRows(lib, spec, rows)
  {
    hide KeyText, KeyValues, StepAll, FinishRow;
    var groups: map<seq<byte>, Entry> := map[];
    for i := 0 to |rows|
      invariant groups == GroupsOf(lib, spec, rows[..i])
    {
      assert rows[..i + 1][..i] == rows[..i];
      var key := KeyText(lib, spec.keys, rows[i]);
      if key !in groups {
        groups := groups[key := (KeyValues(spec.keys, rows[i]), seq(|spec.aggs|, _ => FRESH))];
      }
      var states := StepStates(lib, spec.aggs, groups[key].1, rows[i]);
      groups := groups[key := (groups[key].0, states)];
    }
    assert rows[..|rows|] == rows;
    var order := lib.hashOrder(groups.Keys);
    assert multiset(order) == multiset(groups.Keys);
    assert forall j | 0 <= j < |order| :: order[j] in multiset(order);
    out := [];
    for i := 0 to |order|
      invariant out == RowsIn(lib, spec, groups, order[..i])
    {
      RowsInParts(lib, spec, groups, order[..i], [order[i]]);
      assert order[..i + 1] == order[..i] + [order[i]];
      out := out + [FinishRow(lib, spec.aggs, groups[order[i]])];
    }
    assert order[..|order|] == order;
  }
}
