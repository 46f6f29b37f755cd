/** The row buffer of the virtual machine: ORDER BY and GROUP BY (vdbe/exec.rs). */
module SortGroup {
  import opened Values
  import opened Program

  type Row = seq<Value>

  /** Column `i` of a row; a row too short reads as null. */
  function Col(r: Row, i: nat): Value { if i < |r| then r[i] else Value.Null }

  // ---- ORDER BY ------------------------------------------------------------------------------

  /** The comparator of `sort_buffer`. */
  function CompareRows(lib: Lib, keys: seq<SortKey>, a: Row, b: Row): Ordering {
    if keys == [] then Equal
    else
      var o := Compare(lib, Col(a, keys[0].colIndex), Col(b, keys[0].colIndex));
      var ord := if keys[0].desc then o.Reverse() else o;
      if ord != Equal then ord else CompareRows(lib, keys[1..], a, b)
  }

  /** `x` put in front of the first row that is not less. */
  function Place(lib: Lib, keys: seq<SortKey>, x: Row, s: seq<Row>): (r: seq<Row>)
    ensures |r| == |s| + 1
  {
    if s == [] || CompareRows(lib, keys, s[0], x) != Less then [x] + s
    else [s[0]] + Place(lib, keys, x, s[1..])
  }

  /** The stable sort of the buffer. */
  function SortRows(lib: Lib, keys: seq<SortKey>, rows: seq<Row>): (r: seq<Row>)
    ensures |r| == |rows|
  {
    if rows == [] then [] else Place(lib, keys, rows[0], SortRows(lib, keys, rows[1..]))
  }

  /** Every key column holds nulls and values of one kind. */
  ghost predicate Kinded(keys: seq<SortKey>, kinds: seq<Kind>, r: Row) {
    |kinds| == |keys| && forall k | 0 <= k < |keys| :: OfKind(Col(r, keys[k].colIndex), kinds[k])
  }

  ghost predicate AllKinded(keys: seq<SortKey>, kinds: seq<Kind>, rows: seq<Row>) {
    forall i | 0 <= i < |rows| :: Kinded(keys, kinds, rows[i])
  }

  ghost predicate Ascending(lib: Lib, keys: seq<SortKey>, s: seq<Row>) {
    forall i, j | 0 <= i < j < |s| :: CompareRows(lib, keys, s[i], s[j]) != Greater
  }

  /** The rows that the comparator cannot tell from `x`, in order. */
  function Like(lib: Lib, keys: seq<SortKey>, x: Row, s: seq<Row>): seq<Row> {
    if s == [] then []
    else (if CompareRows(lib, keys, s[0], x) == Equal then [s[0]] else []) + Like(lib, keys, x, s[1..])
  }

  lemma {:induction false} RowsReverse(lib: Lib, keys: seq<SortKey>, kinds: seq<Kind>, a: Row, b: Row)
    requires Kinded(keys, kinds, a) && Kinded(keys, kinds, b)
    ensures CompareRows(lib, keys, b, a) == CompareRows(lib, keys, a, b).Reverse()
  {
    if keys != [] {
      KindedStep(keys, kinds, a);
      KindedStep(keys, kinds, b);
      CompareReverses(lib, Col(a, keys[0].colIndex), Col(b, keys[0].colIndex), kinds[0]);
      RowsReverse(lib, keys[1..], kinds[1..], a, b);
    }
  }

  lemma KindedStep(keys: seq<SortKey>, kinds: seq<Kind>, r: Row)
    requires Kinded(keys, kinds, r) && keys != []
    ensures OfKind(Col(r, keys[0].colIndex), kinds[0]) && Kinded(keys[1..], kinds[1..], r)
  {
    hide OfKind, Col;
  }

  /** The comparator is transitive, and equal only if both steps are. */
  lemma {:induction false} RowsTransitive(lib: Lib, keys: seq<SortKey>, kinds: seq<Kind>, a: Row, b: Row, c: Row)
    requires Kinded(keys, kinds, a) && Kinded(keys, kinds, b) && Kinded(keys, kinds, c)
    requires CompareRows(lib, keys, a, b) != Greater && CompareRows(lib, keys, b, c) != Greater
    ensures CompareRows(lib, keys, a, c) != Greater
    ensures CompareRows(lib, keys, a, c) == Equal ==> CompareRows(lib, keys, a, b) == Equal && CompareRows(lib, keys, b, c) == Equal
  {
    if keys != [] {
      KindedStep(keys, kinds, a);
      KindedStep(keys, kinds, b);
      KindedStep(keys, kinds, c);
      KeyTransitive(lib, keys[0].desc, Col(a, keys[0].colIndex), Col(b, keys[0].colIndex), Col(c, keys[0].colIndex), kinds[0]);
      if CompareRows(lib, keys[1..], a, b) != Greater && CompareRows(lib, keys[1..], b, c) != Greater {
        RowsTransitive(lib, keys[1..], kinds[1..], a, b, c);
      }
    }
  }

  function KeyOrder(lib: Lib, desc: bool, a: Value, b: Value): Ordering {
    if desc then Compare(lib, a, b).Reverse() else Compare(lib, a, b)
  }

  lemma KeyTransitive(lib: Lib, desc: bool, a: Value, b: Value, c: Value, kind: Kind)
    requires OfKind(a, kind) && OfKind(b, kind) && OfKind(c, kind)
    requires KeyOrder(lib, desc, a, b) != Greater && KeyOrder(lib, desc, b, c) != Greater
    ensures KeyOrder(lib, desc, a, c) != Greater
    ensures KeyOrder(lib, desc, a, c) == Equal <==> KeyOrder(lib, desc, a, b) == Equal && KeyOrder(lib, desc, b, c) == Equal
  {
    hide Compare, OfKind;
    CompareReverses(lib, a, b, kind);
    CompareReverses(lib, b, c, kind);
    CompareReverses(lib, a, c, kind);
    if desc {
      CompareTransitive(lib, c, b, a, kind);
    } else {
      CompareTransitive(lib, a, b, c, kind);
    }
  }

  lemma {:induction false} PlaceElements(lib: Lib, keys: seq<SortKey>, x: Row, s: seq<Row>)
    ensures multiset(Place(lib, keys, x, s)) == multiset([x]) + multiset(s)
  {
    if s != [] && CompareRows(lib, keys, s[0], x) == Less {
      PlaceElements(lib, keys, x, s[1..]);
      assert s == [s[0]] + s[1..];
    }
  }

  /** No row is lost, none is made up. */
  lemma {:induction false} SortPermutes(lib: Lib, keys: seq<SortKey>, rows: seq<Row>)
    ensures multiset(SortRows(lib, keys, rows)) == multiset(rows)
  {
    if rows != [] {
      SortPermutes(lib, keys, rows[1..]);
      PlaceElements(lib, keys, rows[0], SortRows(lib, keys, rows[1..]));
      assert rows == [rows[0]] + rows[1..];
    }
  }

  lemma PlaceKinded(lib: Lib, keys: seq<SortKey>, kinds: seq<Kind>, x: Row, s: seq<Row>)
    requires Kinded(keys, kinds, x) && AllKinded(keys, kinds, s)
    ensures AllKinded(keys, kinds, Place(lib, keys, x, s))
  {
    hide Kinded, CompareRows;
    if s != [] && CompareRows(lib, keys, s[0], x) == Less {
      PlaceKinded(lib, keys, kinds, x, s[1..]);
    }
  }

  lemma {:induction false} SortKinded(lib: Lib, keys: seq<SortKey>, kinds: seq<Kind>, rows: seq<Row>)
    requires AllKinded(keys, kinds, rows)
    ensures AllKinded(keys, kinds, SortRows(lib, keys, rows))
  {
    hide Kinded, Place;
    if rows != [] {
      SortKinded(lib, keys, kinds, rows[1..]);
      PlaceKinded(lib, keys, kinds, rows[0], SortRows(lib, keys, rows[1..]));
    }
  }

  lemma AscendingTail(lib: Lib, keys: seq<SortKey>, s: seq<Row>)
    requires Ascending(lib, keys, s) && s != []
    ensures Ascending(lib, keys, s[1..])
    ensures forall j | 0 <= j < |s| - 1 :: CompareRows(lib, keys, s[0], s[1..][j]) != Greater
  {
    hide CompareRows;
  }

  lemma AscendingCons(lib: Lib, keys: seq<SortKey>, x: Row, s: seq<Row>)
    requires Ascending(lib, keys, s) && forall j | 0 <= j < |s| :: CompareRows(lib, keys, x, s[j]) != Greater
    ensures Ascending(lib, keys, [x] + s)
  {
    hide CompareRows;
  }

  lemma {:induction false} PlaceAscending(lib: Lib, keys: seq<SortKey>, kinds: seq<Kind>, x: Row, s: seq<Row>)
    requires Ascending(lib, keys, s) && Kinded(keys, kinds, x) && AllKinded(keys, kinds, s)
    ensures Ascending(lib, keys, Place(lib, keys, x, s))
  {
    hide CompareRows, Kinded, Ascending;
    if s == [] {
      AscendingCons(lib, keys, x, s);
    } else if CompareRows(lib, keys, s[0], x) != Less {
      RowsReverse(lib, keys, kinds, s[0], x);
      AscendingTail(lib, keys, s);
      forall j | 0 <= j < |s| ensures CompareRows(lib, keys, x, s[j]) != Greater {
        if j > 0 {
          assert s[j] == s[1..][j - 1];
          RowsTransitive(lib, keys, kinds, x, s[0], s[j]);
        }
      }
      AscendingCons(lib, keys, x, s);
    } else {
      AscendingTail(lib, keys, s);
      PlaceAscending(lib, keys, kinds, x, s[1..]);
      var rest := Place(lib, keys, x, s[1..]);
      PlaceElements(lib, keys, x, s[1..]);
      forall j | 0 <= j < |rest| ensures CompareRows(lib, keys, s[0], rest[j]) != Greater {
        assert rest[j] in multiset(rest);
        assert rest[j] == x || rest[j] in s[1..];
      }
      AscendingCons(lib, keys, s[0], rest);
    }
  }

  /** The result is in order whenever the key columns are of one kind each. */
  lemma {:induction false} SortAscending(lib: Lib, keys: seq<SortKey>, kinds: seq<Kind>, rows: seq<Row>)
    requires AllKinded(keys, kinds, rows)
    ensures Ascending(lib, keys, SortRows(lib, keys, rows))
  {
    if rows != [] {
      hide Kinded, Ascending, Place;
      SortAscending(lib, keys, kinds, rows[1..]);
      SortKinded(lib, keys, kinds, rows[1..]);
      PlaceAscending(lib, keys, kinds, rows[0], SortRows(lib, keys, rows[1..]));
    }
  }

  lemma {:induction false} PlaceLike(lib: Lib, keys: seq<SortKey>, kinds: seq<Kind>, x: Row, s: seq<Row>, y: Row)
    requires Kinded(keys, kinds, x) && Kinded(keys, kinds, y) && AllKinded(keys, kinds, s)
    ensures Like(lib, keys, y, Place(lib, keys, x, s)) == Like(lib, keys, y, [x] + s)
  {
    hide CompareRows, Kinded;
    assert ([x] + s)[1..] == s;
    if s != [] && CompareRows(lib, keys, s[0], x) == Less {
      PlaceLike(lib, keys, kinds, x, s[1..], y);
      assert ([x] + s[1..])[1..] == s[1..];
      if CompareRows(lib, keys, s[0], y) == Equal && CompareRows(lib, keys, x, y) == Equal {
        RowsReverse(lib, keys, kinds, x, y);
        RowsTransitive(lib, keys, kinds, s[0], y, x);
        RowsReverse(lib, keys, kinds, s[0], x);
        RowsReverse(lib, keys, kinds, s[0], y);
        RowsTransitive(lib, keys, kinds, x, y, s[0]);
        assert false;
      }
    }
  }

  /** Rows the keys cannot tell apart keep their order. */
  lemma {:induction false} SortStable(lib: Lib, keys: seq<SortKey>, kinds: seq<Kind>, rows: seq<Row>, y: Row)
    requires AllKinded(keys, kinds, rows) && Kinded(keys, kinds, y)
    ensures Like(lib, keys, y, SortRows(lib, keys, rows)) == Like(lib, keys, y, rows)
  {
    hide CompareRows, Kinded, Place;
    if rows != [] {
      var rest := SortRows(lib, keys, rows[1..]);
      SortStable(lib, keys, kinds, rows[1..], y);
      SortKinded(lib, keys, kinds, rows[1..]);
      PlaceLike(lib, keys, kinds, rows[0], rest, y);
      assert ([rows[0]] + rest)[1..] == rest;
    }
  }

  /** In order by the keys, and every class of rows the keys cannot tell apart in its old order. */
  ghost predicate Sorts(lib: Lib, keys: seq<SortKey>, kinds: seq<Kind>, rows: seq<Row>, out: seq<Row>) {
    Ascending(lib, keys, out) && SameClasses(lib, keys, kinds, out, rows)
  }

  lemma SortSorts(lib: Lib, keys: seq<SortKey>, kinds: seq<Kind>, rows: seq<Row>)
    requires AllKinded(keys, kinds, rows)
    ensures Sorts(lib, keys, kinds, rows, SortRows(lib, keys, rows))
  {
    hide Ascending, Kinded, Like, SortRows, AllKinded;
    SortAscending(lib, keys, kinds, rows);
    forall y | Kinded(keys, kinds, y) ensures Like(lib, keys, y, SortRows(lib, keys, rows)) == Like(lib, keys, y, rows) {
      SortStable(lib, keys, kinds, rows, y);
    }
  }

  // ---- There is only one stable sort -------------------------------------------------------

  ghost predicate SameClasses(lib: Lib, keys: seq<SortKey>, kinds: seq<Kind>, s: seq<Row>, t: seq<Row>) {
    forall y | Kinded(keys, kinds, y) :: Like(lib, keys, y, s) == Like(lib, keys, y, t)
  }

  lemma LikeItself(lib: Lib, keys: seq<SortKey>, kinds: seq<Kind>, s: seq<Row>)
    requires s != [] && Kinded(keys, kinds, s[0])
    ensures Like(lib, keys, s[0], s) == [s[0]] + Like(lib, keys, s[0], s[1..])
  {
    RowsReverse(lib, keys, kinds, s[0], s[0]);
  }

  /** A row whose class is met in an ascending list is not before the first of the list. */
  lemma {:induction false} LikeMet(lib: Lib, keys: seq<SortKey>, kinds: seq<Kind>, s: seq<Row>, y: Row) returns (i: nat)
    requires Like(lib, keys, y, s) != []
    ensures i < |s| && CompareRows(lib, keys, s[i], y) == Equal
  {
    hide CompareRows;
    if CompareRows(lib, keys, s[0], y) == Equal {
      i := 0;
    } else {
      i := LikeMet(lib, keys, kinds, s[1..], y);
      i := i + 1;
    }
  }

  lemma HeadNotAfter(lib: Lib, keys: seq<SortKey>, kinds: seq<Kind>, s: seq<Row>, y: Row)
    requires AllKinded(keys, kinds, s) && Ascending(lib, keys, s) && Kinded(keys, kinds, y) && Like(lib, keys, y, s) != []
    ensures s != [] && CompareRows(lib, keys, s[0], y) != Greater
  {
    hide CompareRows, Kinded, Like;
    var i := LikeMet(lib, keys, kinds, s, y);
    if i > 0 { RowsTransitive(lib, keys, kinds, s[0], s[i], y); }
  }

  lemma SameHead(lib: Lib, keys: seq<SortKey>, kinds: seq<Kind>, s: seq<Row>, t: seq<Row>)
    requires AllKinded(keys, kinds, s) && AllKinded(keys, kinds, t) && Ascending(lib, keys, s) && Ascending(lib, keys, t)
    requires SameClasses(lib, keys, kinds, s, t) && s != []
    ensures t != [] && s[0] == t[0]
  {
    hide CompareRows, Kinded, Ascending, Like;
    LikeItself(lib, keys, kinds, s);
    HeadNotAfter(lib, keys, kinds, t, s[0]);
    LikeItself(lib, keys, kinds, t);
    HeadNotAfter(lib, keys, kinds, s, t[0]);
    RowsReverse(lib, keys, kinds, s[0], t[0]);
    LikeEqual(lib, keys, s[0], t);
    assert Like(lib, keys, s[0], s)[0] == s[0] && Like(lib, keys, s[0], t)[0] == t[0];
  }

  lemma LikeEqual(lib: Lib, keys: seq<SortKey>, y: Row, t: seq<Row>)
    requires t != [] && CompareRows(lib, keys, t[0], y) == Equal
    ensures Like(lib, keys, y, t) == [t[0]] + Like(lib, keys, y, t[1..])
  {
    hide CompareRows;
  }

  lemma SameTails(lib: Lib, keys: seq<SortKey>, kinds: seq<Kind>, s: seq<Row>, t: seq<Row>)
    requires SameClasses(lib, keys, kinds, s, t) && s != [] && t != [] && s[0] == t[0]
    ensures SameClasses(lib, keys, kinds, s[1..], t[1..])
  {
    hide CompareRows, Kinded;
    forall y | Kinded(keys, kinds, y) ensures Like(lib, keys, y, s[1..]) == Like(lib, keys, y, t[1..]) {
      assert Like(lib, keys, y, s) == Like(lib, keys, y, t);
      var head: seq<Row> := if CompareRows(lib, keys, s[0], y) == Equal then [s[0]] else [];
      assert Like(lib, keys, y, s[1..]) == (head + Like(lib, keys, y, s[1..]))[|head|..];
      assert Like(lib, keys, y, t[1..]) == (head + Like(lib, keys, y, t[1..]))[|head|..];
    }
  }

  lemma {:induction false} SameLists(lib: Lib, keys: seq<SortKey>, kinds: seq<Kind>, s: seq<Row>, t: seq<Row>)
    requires AllKinded(keys, kinds, s) && AllKinded(keys, kinds, t) && Ascending(lib, keys, s) && Ascending(lib, keys, t)
    requires SameClasses(lib, keys, kinds, s, t)
    ensures s == t
  {
    hide Kinded, Ascending, Like, SameClasses;
    if s != [] {
      SameHead(lib, keys, kinds, s, t);
      SameTails(lib, keys, kinds, s, t);
      AscendingTail(lib, keys, s);
      AscendingTail(lib, keys, t);
      SameLists(lib, keys, kinds, s[1..], t[1..]);
    } else if t != [] {
      ClassesSwap(lib, keys, kinds, s, t);
      SameHead(lib, keys, kinds, t, s);
    }
  }

  lemma ClassesSwap(lib: Lib, keys: seq<SortKey>, kinds: seq<Kind>, s: seq<Row>, t: seq<Row>)
    requires SameClasses(lib, keys, kinds, s, t)
    ensures SameClasses(lib, keys, kinds, t, s)
  {
    hide Like, Kinded;
  }

  /** Whatever sort the program uses, if it is stable and sorts, this is its result. */
  lemma StableSortUnique(lib: Lib, keys: seq<SortKey>, kinds: seq<Kind>, rows: seq<Row>, t: seq<Row>)
    requires AllKinded(keys, kinds, rows) && AllKinded(keys, kinds, t)
    ensures t == SortRows(lib, keys, rows) <==> Ascending(lib, keys, t) && SameClasses(lib, keys, kinds, t, rows)
  {
    hide Kinded, Ascending, Like, CompareRows, Place;
    var s := SortRows(lib, keys, rows);
    SortAscending(lib, keys, kinds, rows);
    SortKinded(lib, keys, kinds, rows);
    forall y | Kinded(keys, kinds, y) ensures Like(lib, keys, y, s) == Like(lib, keys, y, rows) {
      SortStable(lib, keys, kinds, rows, y);
    }
    if Ascending(lib, keys, t) && SameClasses(lib, keys, kinds, t, rows) {
      SameLists(lib, keys, kinds, s, t);
    }
  }

  /** Rows of mixed kinds need not come out in order: 5, 9 and 10 as text and integers, sorted
      "5" < 9 and 9 < 10, yet 10 < "5". */
  lemma MixedKindsUnordered(lib: Lib)
    ensures var keys := [SortKey(0, false)];
            var rows := [[Value.Text([53])], [Value.Integer(9)], [Value.Integer(10)]];
            !Ascending(lib, keys, SortRows(lib, keys, rows))
  {
    var keys := [SortKey(0, false)];
    var a, b, c := [Value.Text([53])], [Value.Integer(9)], [Value.Integer(10)];
    CompareCircular(lib);
    hide Compare;
    assert Col(a, 0) == Value.Text([53]) && Col(b, 0) == Value.Integer(9) && Col(c, 0) == Value.Integer(10);
    Circle(lib, keys, a, b, c);
  }

  lemma Circle(lib: Lib, keys: seq<SortKey>, a: Row, b: Row, c: Row)
    requires CompareRows(lib, keys, b, a) != Less && CompareRows(lib, keys, c, b) != Less && CompareRows(lib, keys, a, c) == Greater
    ensures !Ascending(lib, keys, SortRows(lib, keys, [a, b, c]))
  {
    hide CompareRows;
    assert SortRows(lib, keys, [c]) == [c] && SortRows(lib, keys, [b, c]) == [b, c] && SortRows(lib, keys, [a, b, c]) == [a, b, c];
  }
}
