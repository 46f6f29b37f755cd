/** CREATE TABLE and CREATE INDEX as tokens: the printer of the catalogue (schema.rs) and the parser
    (parser_impl.rs). */
module Ddl {
  import opened Bytes
  import opened Names

  /** The tokens these statements are made of; every other token is an `OtherToken`. */
  datatype Token =
    | CreateKw | TableKw | IndexKw | UniqueKw | IfKw | NotKw | ExistsKw | OnKw | PrimaryKw | KeyKw | AutoincrementKw | DefaultKw
    | NullKw | IntegerKw | RealKw | TextKw | BlobKw
    | LParen | RParen | Comma
    | Ident(name: string) | QuotedIdent(name: string) | BacktickIdent(name: string)
    | OtherToken

  datatype ColumnType = NullType | IntegerType | RealType | TextType | BlobType | NumericType

  datatype Constraint = PrimaryKey(autoincrement: bool) | NotNull | Unique

  datatype ColumnDef = ColumnDef(name: string, colType: ColumnType, constraints: seq<Constraint>)

  datatype CreateTable = CreateTable(ifNotExists: bool, name: string, columns: seq<ColumnDef>)

  datatype CreateIndex = CreateIndex(ifNotExists: bool, unique: bool, name: string, table: string, columns: seq<string>)

  datatype Statement = TableStatement(t: CreateTable) | IndexStatement(i: CreateIndex)

  // ---- The printer ---------------------------------------------------------------------------------

  /** NUMERIC is no keyword: it comes back from the lexer as a plain name. */
  function TypeToken(t: ColumnType): Token {
    match t
    case IntegerType => IntegerKw
    case RealType => RealKw
    case TextType => TextKw
    case BlobType => BlobKw
    case NullType => NullKw
    case NumericType => Ident("NUMERIC")
  }

  function Guard(ifNotExists: bool): seq<Token> { if ifNotExists then [IfKw, NotKw, ExistsKw] else [] }

  /** The columns with commas between them. */
  function ColumnTokens(columns: seq<ColumnDef>): seq<Token> {
    if columns == [] then []
    else
      var n := |columns| - 1;
      ColumnTokens(columns[..n]) + (if n > 0 then [Comma] else []) + [Ident(columns[n].name), TypeToken(columns[n].colType)]
  }

  function NameTokens(names: seq<string>): seq<Token> {
    if names == [] then []
    else
      var n := |names| - 1;
      NameTokens(names[..n]) + (if n > 0 then [Comma] else []) + [Ident(names[n])]
  }

  /** `create_sql`. */
  function TableTokens(c: CreateTable): seq<Token> {
    [CreateKw, TableKw] + Guard(c.ifNotExists) + [Ident(c.name), LParen] + ColumnTokens(c.columns) + [RParen]
  }

  /** `create_index_sql`. */
  function IndexTokens(c: CreateIndex): seq<Token> {
    [CreateKw] + (if c.unique then [UniqueKw] else []) + [IndexKw] + Guard(c.ifNotExists)
    + [Ident(c.name), OnKw, Ident(c.table), LParen] + NameTokens(c.columns) + [RParen]
  }

  method PrintTable(c: CreateTable) returns (sql: seq<Token>)
    ensures sql == TableTokens(c)
  {
    sql := [CreateKw, TableKw];
    if c.ifNotExists {
      sql := sql + [IfKw, NotKw, ExistsKw];
    }
    sql := sql + [Ident(c.name), LParen];
    ghost var head := sql;
    assert head == [CreateKw, TableKw] + Guard(c.ifNotExists) + [Ident(c.name), LParen];
    assert c.columns[..0] == [];
    for i := 0 to |c.columns|
      invariant sql == head + ColumnTokens(c.columns[..i])
    {
      assert c.columns[..i + 1][..i] == c.columns[..i];
      if i > 0 {
        sql := sql + [Comma];
      }
      sql := sql + [Ident(c.columns[i].name), TypeToken(c.columns[i].colType)];
    }
    assert c.columns[..|c.columns|] == c.columns;
    sql := sql + [RParen];
  }

  method PrintIndex(c: CreateIndex) returns (sql: seq<Token>)
    ensures sql == IndexTokens(c)
  {
    sql := [CreateKw];
    if c.unique {
      sql := sql + [UniqueKw];
    }
    sql := sql + [IndexKw];
    if c.ifNotExists {
      sql := sql + [IfKw, NotKw, ExistsKw];
    }
    sql := sql + [Ident(c.name), OnKw, Ident(c.table), LParen];
    ghost var head := sql;
    assert head == [CreateKw] + (if c.unique then [UniqueKw] else []) + [IndexKw] + Guard(c.ifNotExists) + [Ident(c.name), OnKw, Ident(c.table), LParen];
    assert c.columns[..0] == [];
    for i := 0 to |c.columns|
      invariant sql == head + NameTokens(c.columns[..i])
    {
      assert c.columns[..i + 1][..i] == c.columns[..i];
      if i > 0 {
        sql := sql + [Comma];
      }
      sql := sql + [Ident(c.columns[i])];
    }
    assert c.columns[..|c.columns|] == c.columns;
    sql := sql + [RParen];
  }

  // ---- The grammar ------------------------------------------------------------------------------------

  /** The tokens from `p` on start with this one. */
  predicate Sees(ts: seq<Token>, p: nat, t: Token) { p < |ts| && ts[p] == t }

  function Expecting(ts: seq<Token>, p: nat, t: Token): (r: Result<nat>)
    ensures r.Ok? ==> r.value == p + 1 <= |ts|
  { if Sees(ts, p, t) then Ok(p + 1) else Err(Other) }

  function IdentAt(ts: seq<Token>, p: nat): (r: Result<(string, nat)>)
    ensures r.Ok? ==> r.value.1 == p + 1 <= |ts|
  {
    if p >= |ts| then Err(Other)
    else match ts[p]
      case Ident(s) => Ok((s, p + 1))
      case QuotedIdent(s) => Ok((s, p + 1))
      case BacktickIdent(s) => Ok((s, p + 1))
      case _ => Err(Other)
  }

  /** IF NOT EXISTS, if there is an IF. */
  function GuardAt(ts: seq<Token>, p: nat): (r: Result<(bool, nat)>)
    ensures r.Ok? ==> p <= r.value.1 && (r.value.1 == p || r.value.1 <= |ts|)
  {
    if !Sees(ts, p, IfKw) then Ok((false, p))
    else
      var q :- Expecting(ts, p + 1, NotKw);
      var q' :- Expecting(ts, q, ExistsKw);
      Ok((true, q'))
  }

  function TypeNamed(name: string): ColumnType {
    var n := Lower(name);
    if n in ["int", "integer", "boolean", "bool"] then IntegerType
    else if n in ["float", "double", "real"] then RealType
    else if n in ["varchar", "char", "character", "text", "clob"] then TextType
    else if n == "blob" then BlobType
    else NumericType
  }

  /** The type, and where it ends; a missing one is numeric. */
  function TypeAt(ts: seq<Token>, p: nat): (r: (ColumnType, nat))
    ensures p <= r.1 <= p + 1 && (r.1 == p || r.1 <= |ts|)
  {
    if p >= |ts| then (NumericType, p)
    else match ts[p]
      case IntegerKw => (IntegerType, p + 1)
      case RealKw => (RealType, p + 1)
      case TextKw => (TextType, p + 1)
      case BlobKw => (BlobType, p + 1)
      case NullKw => (NullType, p + 1)
      case Ident(name) => (TypeNamed(name), p + 1)
      case _ => (NumericType, p)
  }

  function PrimaryKeysAt(ts: seq<Token>, p: nat): (r: Result<(seq<Constraint>, nat)>)
    ensures r.Ok? ==> p <= r.value.1 && (r.value.1 == p || r.value.1 <= |ts|)
    decreases |ts| - p
  {
    if !Sees(ts, p, PrimaryKw) then Ok(([], p))
    else
      var q :- Expecting(ts, p + 1, KeyKw);
      var auto := Sees(ts, q, AutoincrementKw);
      var rest :- PrimaryKeysAt(ts, if auto then q + 1 else q);
      Ok(([PrimaryKey(auto)] + rest.0, rest.1))
  }

  /** The constraints of a column. A default value is an expression, which this model does not parse. */
  function ConstraintsAt(ts: seq<Token>, p: nat): (r: Result<(seq<Constraint>, nat)>)
    ensures r.Ok? ==> p <= r.value.1 && (r.value.1 == p || r.value.1 <= |ts|)
  {
    var keys :- PrimaryKeysAt(ts, p);
    var notNull :- NotNullAt(ts, keys.1);
    var q := if Sees(ts, notNull.1, UniqueKw) then notNull.1 + 1 else notNull.1;
    var unique := if Sees(ts, notNull.1, UniqueKw) then [Unique] else [];
    if Sees(ts, q, DefaultKw) then Err(Other) else Ok((keys.0 + notNull.0 + unique, q))
  }

  function NotNullAt(ts: seq<Token>, p: nat): (r: Result<(seq<Constraint>, nat)>)
    ensures r.Ok? ==> p <= r.value.1 && (r.value.1 == p || r.value.1 <= |ts|)
  {
    if !Sees(ts, p, NotKw) then Ok(([], p))
    else
      var q :- Expecting(ts, p + 1, NullKw);
      Ok(([NotNull], q))
  }

  function ColumnAt(ts: seq<Token>, p: nat): (r: Result<(ColumnDef, nat)>)
    ensures r.Ok? ==> p < r.value.1 <= |ts|
  {
    var name :- IdentAt(ts, p);
    var colType := TypeAt(ts, name.1);
    var constraints :- ConstraintsAt(ts, colType.1);
    Ok((ColumnDef(name.0, colType.0, constraints.0), constraints.1))
  }

  /** Columns up to the first that no comma follows. */
  function ColumnsAt(ts: seq<Token>, p: nat): (r: Result<(seq<ColumnDef>, nat)>)
    ensures r.Ok? ==> p < r.value.1 <= |ts|
    decreases |ts| - p
  {
    var c :- ColumnAt(ts, p);
    if !Sees(ts, c.1, Comma) then Ok(([c.0], c.1))
    else
      var rest :- ColumnsAt(ts, c.1 + 1);
      Ok(([c.0] + rest.0, rest.1))
  }

  function NamesAt(ts: seq<Token>, p: nat): (r: Result<(seq<string>, nat)>)
    ensures r.Ok? ==> p < r.value.1 <= |ts|
    decreases |ts| - p
  {
    var c :- IdentAt(ts, p);
    if !Sees(ts, c.1, Comma) then Ok(([c.0], c.1))
    else
      var rest :- NamesAt(ts, c.1 + 1);
      Ok(([c.0] + rest.0, rest.1))
  }

  function TableAt(ts: seq<Token>, p: nat): Result<(CreateTable, nat)> {
    var g :- GuardAt(ts, p);
    var name :- IdentAt(ts, g.1);
    var open :- Expecting(ts, name.1, LParen);
    var columns :- ColumnsAt(ts, open);
    var end :- Expecting(ts, columns.1, RParen);
    Ok((CreateTable(g.0, name.0, columns.0), end))
  }

  function IndexAt(ts: seq<Token>, p: nat, unique: bool): Result<(CreateIndex, nat)> {
    var g :- GuardAt(ts, p);
    var name :- IdentAt(ts, g.1);
    var on :- Expecting(ts, name.1, OnKw);
    var table :- IdentAt(ts, on);
    var open :- Expecting(ts, table.1, LParen);
    var columns :- NamesAt(ts, open);
    var end :- Expecting(ts, columns.1, RParen);
    Ok((CreateIndex(g.0, unique, name.0, table.0, columns.0), end))
  }

  /** `parse_one`, on CREATE statements: what follows the statement is not looked at. */
  function Parse(ts: seq<Token>): Result<Statement> {
    var p :- Expecting(ts, 0, CreateKw);
    var unique := Sees(ts, p, UniqueKw);
    var q := if unique then p + 1 else p;
    if Sees(ts, q, IndexKw) then
      var i :- IndexAt(ts, q + 1, unique);
      Ok(IndexStatement(i.0))
    else
      var q' :- Expecting(ts, q, TableKw);
      var t :- TableAt(ts, q');
      Ok(TableStatement(t.0))
  }

  // ---- Round trips ----------------------------------------------------------------------------------

  /** The statement without the constraints of its columns, which are not printed. */
  function Bare(c: CreateTable): CreateTable { c.(columns := BareColumns(c.columns)) }

  function BareColumns(columns: seq<ColumnDef>): (r: seq<ColumnDef>)
    ensures |r| == |columns|
  { seq(|columns|, i requires 0 <= i < |columns| => columns[i].(constraints := [])) }

  lemma TypeRoundTrip(ts: seq<Token>, p: nat, t: ColumnType)
    requires p < |ts| && ts[p] == TypeToken(t)
    ensures TypeAt(ts, p) == (t, p + 1)
  {
    if t.NumericType? {
      assert Lower("NUMERIC") == "numeric";
      assert TypeNamed("NUMERIC") == NumericType;
    }
  }

  /** `ts` holds `part` at `p`. */
  predicate Stands(ts: seq<Token>, p: nat, part: seq<Token>) { p + |part| <= |ts| && ts[p..p + |part|] == part }

  lemma StandsParts(ts: seq<Token>, p: nat, a: seq<Token>, b: seq<Token>)
    requires Stands(ts, p, a + b)
    ensures Stands(ts, p, a) && Stands(ts, p + |a|, b)
  {
    assert ts[p..p + |a|] == (a + b)[..|a|];
    assert ts[p + |a|..p + |a| + |b|] == (a + b)[|a|..];
  }

  lemma StandsAt(ts: seq<Token>, p: nat, part: seq<Token>, i: nat)
    requires Stands(ts, p, part) && i < |part|
    ensures p + i < |ts| && ts[p + i] == part[i]
  {
    assert ts[p..p + |part|][i] == ts[p + i];
  }

  lemma NoConstraints(ts: seq<Token>, p: nat)
    requires p < |ts| && ts[p] in {Comma, RParen}
    ensures ConstraintsAt(ts, p) == Ok(([], p))
  {
    assert PrimaryKeysAt(ts, p) == Ok(([], p)) && NotNullAt(ts, p) == Ok(([], p));
    var none: seq<Constraint> := [];
    assert none + none + none == none;
  }

  lemma ColumnRoundTrip(ts: seq<Token>, p: nat, c: ColumnDef)
    requires Stands(ts, p, [Ident(c.name), TypeToken(c.colType)]) && p + 2 < |ts| && ts[p + 2] in {Comma, RParen}
    ensures ColumnAt(ts, p) == Ok((c.(constraints := []), p + 2))
  {
    hide ConstraintsAt, TypeAt;
    var part := [Ident(c.name), TypeToken(c.colType)];
    StandsAt(ts, p, part, 0);
    StandsAt(ts, p, part, 1);
    TypeRoundTrip(ts, p + 1, c.colType);
    NoConstraints(ts, p + 2);
  }

  /** Printed columns are read back one by one. */
  lemma {:induction false} ColumnsRoundTrip(ts: seq<Token>, p: nat, columns: seq<ColumnDef>)
    requires columns != [] && Stands(ts, p, ColumnTokens(columns) + [RParen])
    ensures ColumnsAt(ts, p) == Ok((BareColumns(columns), p + |ColumnTokens(columns)|))
    decreases |columns|
  {
    hide ColumnAt, BareColumns, ColumnTokens, Stands, TypeToken;
    ClosedColumns(columns);
    BareFront(columns);
    var part, tail := [Ident(columns[0].name), TypeToken(columns[0].colType)], ColumnTokens(columns[1..]) + [RParen];
    if |columns| == 1 {
      NoColumnTokens();
      assert columns[1..] == [] && BareColumns(columns) == [columns[0].(constraints := [])];
      StandsParts(ts, p, part, [RParen]);
      StandsAt(ts, p + 2, [RParen], 0);
      ColumnRoundTrip(ts, p, columns[0]);
    } else {
      StandsParts(ts, p, part, [Comma] + tail);
      StandsParts(ts, p + 2, [Comma], tail);
      StandsAt(ts, p + 2, [Comma], 0);
      ColumnRoundTrip(ts, p, columns[0]);
      ColumnsRoundTrip(ts, p + 3, columns[1..]);
    }
  }

  /** The printed columns and the closing parenthesis, first column first. */
  lemma ClosedColumns(columns: seq<ColumnDef>)
    requires columns != []
    ensures var part := [Ident(columns[0].name), TypeToken(columns[0].colType)];
            && ColumnTokens(columns) + [RParen] ==
                 (if |columns| == 1 then part + [RParen] else part + ([Comma] + (ColumnTokens(columns[1..]) + [RParen])))
            && |ColumnTokens(columns)| == |ColumnTokens(columns[1..])| + (if |columns| == 1 then 2 else 3)
  {
    ColumnsFromFront(columns);
    NoColumnTokens();
    hide ColumnTokens, TypeToken;
    if |columns| == 1 { assert columns[1..] == []; }
  }

  lemma NoColumnTokens()
    ensures ColumnTokens([]) == [] && BareColumns([]) == []
  {
  }

  lemma BareFront(columns: seq<ColumnDef>)
    requires columns != []
    ensures BareColumns(columns) == [columns[0].(constraints := [])] + BareColumns(columns[1..])
  {
  }

  /** The printer goes through the columns from the front. */
  lemma {:induction false} ColumnsFromFront(columns: seq<ColumnDef>)
    requires columns != []
    ensures ColumnTokens(columns) ==
              [Ident(columns[0].name), TypeToken(columns[0].colType)] + (if |columns| > 1 then [Comma] else []) + ColumnTokens(columns[1..])
    decreases |columns|
  {
    hide TypeToken, ColumnTokens;
    var n := |columns| - 1;
    LastColumnTokens(columns);
    NoColumnTokens();
    if n == 0 {
      assert columns[..0] == [] && columns[1..] == [];
    } else {
      ColumnsFromFront(columns[..n]);
      assert columns[..n][1..] == columns[1..][..n - 1];
      LastColumnTokens(columns[1..]);
      if n == 1 { assert columns[1..][..0] == []; }
    }
  }

  lemma LastColumnTokens(columns: seq<ColumnDef>)
    requires columns != []
    ensures var n := |columns| - 1;
            ColumnTokens(columns) ==
              ColumnTokens(columns[..n]) + (if n > 0 then [Comma] else []) + [Ident(columns[n].name), TypeToken(columns[n].colType)]
  {
    hide TypeToken;
  }

  lemma {:induction false} NamesFromFront(names: seq<string>)
    requires names != []
    ensures NameTokens(names) == [Ident(names[0])] + (if |names| > 1 then [Comma] else []) + NameTokens(names[1..])
    decreases |names|
  {
    var n := |names| - 1;
    if n == 0 {
      assert names[..0] == [] && names[1..] == [];
    } else {
      NamesFromFront(names[..n]);
      assert names[..n][1..] == names[1..][..n - 1];
      assert NameTokens(names[1..]) == NameTokens(names[1..][..n - 1]) + (if n - 1 > 0 then [Comma] else []) + [Ident(names[n])];
      if n == 1 { assert names[1..][..0] == []; }
    }
  }

  lemma {:induction false} NamesRoundTrip(ts: seq<Token>, p: nat, names: seq<string>)
    requires names != [] && Stands(ts, p, NameTokens(names) + [RParen])
    ensures NamesAt(ts, p) == Ok((names, p + |NameTokens(names)|))
    decreases |names|
  {
    hide NameTokens, Stands;
    ClosedNames(names);
    var part, tail := [Ident(names[0])], NameTokens(names[1..]) + [RParen];
    if |names| == 1 {
      NoNameTokens();
      assert names == [names[0]] && names[1..] == [];
      StandsParts(ts, p, part, [RParen]);
      StandsAt(ts, p, part, 0);
      StandsAt(ts, p + 1, [RParen], 0);
    } else {
      assert names == [names[0]] + names[1..];
      StandsParts(ts, p, part, [Comma] + tail);
      StandsParts(ts, p + 1, [Comma], tail);
      StandsAt(ts, p, part, 0);
      StandsAt(ts, p + 1, [Comma], 0);
      NamesRoundTrip(ts, p + 2, names[1..]);
    }
  }

  lemma ClosedNames(names: seq<string>)
    requires names != []
    ensures NameTokens(names) + [RParen] ==
              (if |names| == 1 then [Ident(names[0])] + [RParen] else [Ident(names[0])] + ([Comma] + (NameTokens(names[1..]) + [RParen])))
    ensures |NameTokens(names)| == |NameTokens(names[1..])| + (if |names| == 1 then 1 else 2)
  {
    hide NameTokens;
    NamesFromFront(names);
    NoNameTokens();
    var first, rest := [Ident(names[0])], NameTokens(names[1..]);
    if |names| == 1 {
      assert names[1..] == [];
      assert first + [] + [] == first;
    } else {
      assert (first + [Comma] + rest) + [RParen] == first + ([Comma] + (rest + [RParen]));
    }
  }

  lemma NoNameTokens()
    ensures NameTokens([]) == []
  {
  }

  lemma GuardRoundTrip(ts: seq<Token>, p: nat, g: bool, name: string)
    requires Stands(ts, p, Guard(g) + [Ident(name)])
    ensures GuardAt(ts, p) == Ok((g, p + |Guard(g)|)) && IdentAt(ts, p + |Guard(g)|) == Ok((name, p + |Guard(g)| + 1))
  {
    var part := Guard(g) + [Ident(name)];
    StandsAt(ts, p, part, 0);
    StandsAt(ts, p, part, |Guard(g)|);
    if g {
      StandsAt(ts, p, part, 1);
      StandsAt(ts, p, part, 2);
    }
  }

  lemma LastToken(ts: seq<Token>, p: nat, part: seq<Token>)
    requires Stands(ts, p, part + [RParen])
    ensures Expecting(ts, p + |part|, RParen) == Ok(p + |part| + 1)
  {
    StandsAt(ts, p, part + [RParen], |part|);
  }

  lemma OneToken(ts: seq<Token>, p: nat, t: Token)
    requires Stands(ts, p, [t])
    ensures Expecting(ts, p, t) == Ok(p + 1)
  {
    StandsAt(ts, p, [t], 0);
  }

  lemma TableRoundTrip(ts: seq<Token>, p: nat, c: CreateTable)
    requires c.columns != [] && Stands(ts, p, Guard(c.ifNotExists) + [Ident(c.name), LParen] + ColumnTokens(c.columns) + [RParen])
    ensures TableAt(ts, p).Ok? && TableAt(ts, p).value.0 == Bare(c)
  {
    hide Stands, GuardAt, IdentAt, ColumnsAt, ColumnTokens, Guard, Expecting;
    var g, columns := Guard(c.ifNotExists) + [Ident(c.name)], ColumnTokens(c.columns) + [RParen];
    assert Guard(c.ifNotExists) + [Ident(c.name), LParen] + ColumnTokens(c.columns) + [RParen] == g + ([LParen] + columns);
    StandsParts(ts, p, g, [LParen] + columns);
    StandsParts(ts, p + |g|, [LParen], columns);
    GuardRoundTrip(ts, p, c.ifNotExists, c.name);
    OneToken(ts, p + |g|, LParen);
    ColumnsRoundTrip(ts, p + |g| + 1, c.columns);
    LastToken(ts, p + |g| + 1, ColumnTokens(c.columns));
  }

  lemma IndexRoundTrip(ts: seq<Token>, p: nat, c: CreateIndex)
    requires c.columns != []
    requires Stands(ts, p, Guard(c.ifNotExists) + [Ident(c.name), OnKw, Ident(c.table), LParen] + NameTokens(c.columns) + [RParen])
    ensures IndexAt(ts, p, c.unique).Ok? && IndexAt(ts, p, c.unique).value.0 == c
  {
    hide Stands, GuardAt, IdentAt, NamesAt, NameTokens, Guard, Expecting;
    var g, columns := Guard(c.ifNotExists) + [Ident(c.name)], NameTokens(c.columns) + [RParen];
    var mid := [OnKw, Ident(c.table), LParen];
    assert Guard(c.ifNotExists) + [Ident(c.name), OnKw, Ident(c.table), LParen] + NameTokens(c.columns) + [RParen] == g + (mid + columns);
    StandsParts(ts, p, g, mid + columns);
    StandsParts(ts, p + |g|, mid, columns);
    GuardRoundTrip(ts, p, c.ifNotExists, c.name);
    MiddleRoundTrip(ts, p + |g|, c.table);
    NamesRoundTrip(ts, p + |g| + 3, c.columns);
    LastToken(ts, p + |g| + 3, NameTokens(c.columns));
  }

  lemma MiddleRoundTrip(ts: seq<Token>, p: nat, table: string)
    requires Stands(ts, p, [OnKw, Ident(table), LParen])
    ensures Expecting(ts, p, OnKw) == Ok(p + 1) && IdentAt(ts, p + 1) == Ok((table, p + 2)) && Expecting(ts, p + 2, LParen) == Ok(p + 3)
  {
    var mid := [OnKw, Ident(table), LParen];
    StandsAt(ts, p, mid, 0);
    StandsAt(ts, p, mid, 1);
    StandsAt(ts, p, mid, 2);
  }

  /** A printed CREATE TABLE parses to the statement without its constraints: to itself exactly if no
      column has one. */
  lemma PrintedTableParses(c: CreateTable)
    requires c.columns != []
    ensures Parse(TableTokens(c)) == Ok(TableStatement(Bare(c)))
    ensures Parse(TableTokens(c)) == Ok(TableStatement(c)) <==> forall i | 0 <= i < |c.columns| :: c.columns[i].constraints == []
  {
    hide TableAt, Stands, Guard, ColumnTokens;
    var ts := TableTokens(c);
    var rest := Guard(c.ifNotExists) + [Ident(c.name), LParen] + ColumnTokens(c.columns) + [RParen];
    assert ts == [CreateKw, TableKw] + rest;
    WholeStands(ts);
    StandsParts(ts, 0, [CreateKw, TableKw], rest);
    TableRoundTrip(ts, 2, c);
    BareIff(c);
  }

  lemma BareIff(c: CreateTable)
    ensures Bare(c) == c <==> forall i | 0 <= i < |c.columns| :: c.columns[i].constraints == []
  {
    var b := BareColumns(c.columns);
    if Bare(c) == c {
      forall i | 0 <= i < |c.columns| ensures c.columns[i].constraints == [] { assert c.columns[i] == b[i]; }
    }
  }

  lemma WholeStands(ts: seq<Token>)
    ensures Stands(ts, 0, ts)
  {
  }

  /** A printed CREATE INDEX parses to itself. */
  lemma PrintedIndexParses(c: CreateIndex)
    requires c.columns != []
    ensures Parse(IndexTokens(c)) == Ok(IndexStatement(c))
  {
    hide IndexAt, Stands, Guard, NameTokens;
    var ts := IndexTokens(c);
    var head := [CreateKw] + (if c.unique then [UniqueKw] else []) + [IndexKw];
    var rest := Guard(c.ifNotExists) + [Ident(c.name), OnKw, Ident(c.table), LParen] + NameTokens(c.columns) + [RParen];
    assert ts == head + rest;
    WholeStands(ts);
    StandsParts(ts, 0, head, rest);
    IndexRoundTrip(ts, |head|, c);
  }
}
