/** The catalogue of tables and indexes, and how it is rebuilt when a database is opened (schema.rs). */
module Schema {
  import opened Bytes
  import opened Names
  import opened Ddl
  import opened DdlParser

  datatype Affinity = TextAffinity | NumericAffinity | IntegerAffinity | RealAffinity | BlobAffinity

  datatype Column = Column(name: string, affinity: Affinity, notNull: bool, primaryKey: bool, autoincrement: bool)

  datatype Table = Table(name: string, rootPage: nat, columns: seq<Column>)

  datatype Index = Index(name: string, table: string, columns: seq<string>, rootPage: nat, unique: bool)

  datatype Kind = TableRow | IndexRow

  /** A row of the schema table; its `sql` is kept as tokens. */
  datatype SchemaRow = SchemaRow(kind: Kind, name: string, rootPage: nat, sql: seq<Token>)

  const SCHEMA_TABLE_NAME := "sqlite_schema"
  const SCHEMA_TABLE_NAME_LEGACY := "sqlite_master"

  function AffinityOf(t: ColumnType): Affinity {
    match t
    case IntegerType => IntegerAffinity
    case RealType => RealAffinity
    case TextType => TextAffinity
    case BlobType => BlobAffinity
    case _ => NumericAffinity
  }

  /** The last PRIMARY KEY decides about AUTOINCREMENT. */
  function Automatic(constraints: seq<Constraint>): bool {
    if constraints == [] then false
    else
      var n := |constraints| - 1;
      if constraints[n].PrimaryKey? then constraints[n].autoincrement else Automatic(constraints[..n])
  }

  /** `column_def_to_column`. */
  function ColumnOf(def: ColumnDef): Column {
    Column(def.name, AffinityOf(def.colType), NotNull in def.constraints,
           (exists c | c in def.constraints :: c.PrimaryKey?), Automatic(def.constraints))
  }

  function ColumnsOf(defs: seq<ColumnDef>): (r: seq<Column>)
    ensures |r| == |defs|
  { seq(|defs|, i requires 0 <= i < |defs| => ColumnOf(defs[i])) }

  function TableOf(c: CreateTable, rootPage: nat): Table { Table(c.name, rootPage, ColumnsOf(c.columns)) }

  function IndexOf(c: CreateIndex, rootPage: nat): Index { Index(c.name, c.table, c.columns, rootPage, c.unique) }

  predicate HasColumn(t: Table, name: string) { exists i | 0 <= i < |t.columns| :: SameName(t.columns[i].name, name) }

  // ---- Loading ---------------------------------------------------------------------------------------

  datatype Objects = Objects(tables: map<string, Table>, indexes: map<string, Index>)

  const SCHEMA_COLUMNS := [
    Column("type", TextAffinity, false, false, false), Column("name", TextAffinity, false, false, false),
    Column("tbl_name", TextAffinity, false, false, false), Column("rootpage", IntegerAffinity, false, false, false),
    Column("sql", TextAffinity, false, false, false)]

  /** What there is before any row is read: the schema table itself. */
  const BASE := Objects(map[SCHEMA_TABLE_NAME := Table(SCHEMA_TABLE_NAME, 1, SCHEMA_COLUMNS)], map[])

  predicate Reserved(name: string) { Lower(name) == SCHEMA_TABLE_NAME || Lower(name) == SCHEMA_TABLE_NAME_LEGACY }

  /** One turn of `load_schema_from_btree`. */
  function LoadRow(o: Objects, row: SchemaRow): Objects {
    match row.kind
    case TableRow =>
      if Reserved(row.name) || row.sql == [] then o
      else
        var s := Parse(row.sql);
        if s.Ok? && s.value.TableStatement? then o.(tables := o.tables[Lower(s.value.t.name) := TableOf(s.value.t, row.rootPage)]) else o
    case IndexRow =>
      if row.sql == [] then o
      else
        var s := Parse(row.sql);
        if s.Ok? && s.value.IndexStatement? then o.(indexes := o.indexes[Lower(row.name) := IndexOf(s.value.i, row.rootPage)]) else o
  }

  function Loaded(rows: seq<SchemaRow>): Objects {
    if rows == [] then BASE else LoadRow(Loaded(rows[..|rows| - 1]), rows[|rows| - 1])
  }

  /** A table as it comes back: names, root page and affinities, but none of the constraints. */
  function Unconstrained(t: Table): Table {
    t.(columns := seq(|t.columns|, i requires 0 <= i < |t.columns| => Column(t.columns[i].name, t.columns[i].affinity, false, false, false)))
  }

  function AllUnconstrained(tables: map<string, Table>): map<string, Table> { map k | k in tables :: Unconstrained(tables[k]) }

  /** What reading the rows again makes of a catalogue: no constraints, and no table of the legacy name. */
  function Reloaded(o: Objects): Objects { Objects(AllUnconstrained(o.tables) - {SCHEMA_TABLE_NAME_LEGACY}, o.indexes) }

  // ---- Statements ---------------------------------------------------------------------------------------

  /** What a CREATE statement answers, and the catalogue afterwards: a name in use is kept as it is. */
  function Declare(o: Objects, s: Statement, rootPage: nat): (Result<()>, Objects) {
    match s
    case TableStatement(c) =>
      if Lower(c.name) in o.tables then (if c.ifNotExists then Ok(()) else Err(Other), o)
      else (Ok(()), o.(tables := o.tables[Lower(c.name) := TableOf(c, rootPage)]))
    case IndexStatement(c) =>
      if Lower(c.name) in o.indexes then (if c.ifNotExists then Ok(()) else Err(Other), o)
      else if Lower(c.table) in o.tables && forall i | 0 <= i < |c.columns| :: HasColumn(o.tables[Lower(c.table)], c.columns[i]) then
        (Ok(()), o.(indexes := o.indexes[Lower(c.name) := IndexOf(c, rootPage)]))
      else (Err(Other), o)
  }

  /** The catalogue behind a run of statements, each with the page of its new tree. */
  function Declared(statements: seq<(Statement, nat)>): Objects {
    if statements == [] then BASE
    else
      var n := |statements| - 1;
      Declare(Declared(statements[..n]), statements[n].0, statements[n].1).1
  }

  predicate NamesTable(s: Statement, key: string) { s.TableStatement? && Lower(s.t.name) == key }

  /** The first statement that creates a table of this name. */
  function FirstTable(statements: seq<(Statement, nat)>, key: string): (r: Option<nat>)
    ensures r.Some? ==> r.value < |statements| && NamesTable(statements[r.value].0, key)
    ensures forall i | 0 <= i < |statements| && NamesTable(statements[i].0, key) :: r.Some? && r.value <= i
  {
    if statements == [] then None
    else
      var n := |statements| - 1;
      var r := FirstTable(statements[..n], key);
      if r.Some? then r else if NamesTable(statements[n].0, key) then Some(n) else None
  }

  /** Tables are as first declared: there is one of a name exactly if some statement creates it, and the
      first that does decides about columns and root page. */
  lemma {:induction false} FirstDeclared(statements: seq<(Statement, nat)>, key: string)
    requires key != SCHEMA_TABLE_NAME
    ensures var i := FirstTable(statements, key);
            Get(Declared(statements).tables, key) ==
              if i.None? then None else Some(TableOf(statements[i.value].0.t, statements[i.value].1))
    decreases |statements|
  {
    hide TableOf, IndexOf, HasColumn;
    if statements != [] { FirstDeclared(statements[..|statements| - 1], key); }
  }

  lemma BareTable(c: CreateTable, rootPage: nat)
    ensures TableOf(Bare(c), rootPage) == Unconstrained(TableOf(c, rootPage))
  {
    var a, b := TableOf(Bare(c), rootPage).columns, Unconstrained(TableOf(c, rootPage)).columns;
    forall i | 0 <= i < |a| ensures a[i] == b[i] {
      assert BareColumns(c.columns)[i] == c.columns[i].(constraints := []);
    }
  }

  lemma UnconstrainedAdd(tables: map<string, Table>, k: string, t: Table)
    ensures AllUnconstrained(tables[k := t]) == AllUnconstrained(tables)[k := Unconstrained(t)]
  {
    hide Unconstrained;
  }

  // ---- The catalogue in memory ------------------------------------------------------------------------

  class Schema {
    var tables: map<string, Table>
    var indexes: map<string, Index>
    var cookie: nat
    /** The rows of the schema table, in rowid order. */
    var rows: seq<SchemaRow>

    /** Reading the rows again would give this catalogue, but for constraints and the legacy name. */
    ghost predicate Reloads()
      reads this
    { Loaded(rows) == Reloaded(Objects(tables, indexes)) }

    /** `init_schema_table`: the catalogue that stored rows stand for. */
    constructor Open(rows: seq<SchemaRow>)
      ensures tables == Loaded(rows).tables && indexes == Loaded(rows).indexes && this.rows == rows && cookie == 0
    {
      tables, indexes, cookie, this.rows := BASE.tables, BASE.indexes, 0, rows;
      new;
      hide LoadRow;
      assert rows[..0] == [];
      for i := 0 to |rows|
        invariant Loaded(rows[..i]) == Objects(tables, indexes) && this.rows == rows && cookie == 0
      {
        assert rows[..i + 1][..i] == rows[..i];
        Register(rows[i]);
      }
      assert rows[..|rows|] == rows;
    }

    /** One turn of the loading loop. */
    method Register(row: SchemaRow)
      modifies this`tables, this`indexes
      ensures Objects(tables, indexes) == LoadRow(old(Objects(tables, indexes)), row)
    {
      hide Parse, TableOf, IndexOf;
      if row.sql == [] || (row.kind.TableRow? && Reserved(row.name)) {
        return;
      }
      var s := ParseOne(row.sql);
      if s.Ok? {
        match s.value
        case TableStatement(c) =>
          if row.kind.TableRow? {
            tables := tables[Lower(c.name) := TableOf(c, row.rootPage)];
          }
        case IndexStatement(c) =>
          if row.kind.IndexRow? {
            indexes := indexes[Lower(row.name) := IndexOf(c, row.rootPage)];
          }
      }
    }

    /** `create_table`; `rootPage` is the page of the new tree. A name in use is refused, or passed over
        with IF NOT EXISTS, and nothing changes. */
    method CreateTable(c: CreateTable, rootPage: nat) returns (r: Result<()>)
      modifies this
      ensures (r, Objects(tables, indexes)) == Declare(old(Objects(tables, indexes)), TableStatement(c), rootPage)
      ensures old(Lower(c.name) in tables) ==> rows == old(rows) && cookie == old(cookie)
      ensures old(Lower(c.name) !in tables) ==>
                rows == old(rows) + [SchemaRow(TableRow, c.name, rootPage, TableTokens(c))] && cookie == old(cookie) + 1
      ensures old(Reloads()) && c.columns != [] && SCHEMA_TABLE_NAME in old(tables) ==> Reloads()
    {
      hide TableOf, LoadRow, Reloaded, TableTokens;
      if Lower(c.name) in tables {
        return if c.ifNotExists then Ok(()) else Err(Other);
      }
      var sql := PrintTable(c);
      ghost var was := tables;
      rows := rows + [SchemaRow(TableRow, c.name, rootPage, sql)];
      tables := tables[Lower(c.name) := TableOf(c, rootPage)];
      cookie := cookie + 1;
      assert rows[..|rows| - 1] == old(rows);
      if old(Reloads()) && c.columns != [] && SCHEMA_TABLE_NAME in was {
        TableReloads(was, indexes, c, rootPage);
      }
      return Ok(());
    }

    /** `create_index`, the entries of its tree apart. */
    method CreateIndex(c: CreateIndex, rootPage: nat) returns (r: Result<()>)
      modifies this
      ensures (r, Objects(tables, indexes)) == Declare(old(Objects(tables, indexes)), IndexStatement(c), rootPage)
      ensures old(Lower(c.name) in indexes) || r.Err? ==> rows == old(rows) && cookie == old(cookie)
      ensures old(Lower(c.name) !in indexes) && r.Ok? ==>
                rows == old(rows) + [SchemaRow(IndexRow, c.name, rootPage, IndexTokens(c))] && cookie == old(cookie) + 1
      ensures old(Reloads()) && c.columns != [] ==> Reloads()
    {
      hide IndexOf, LoadRow, Reloaded, IndexTokens, HasColumn;
      if Lower(c.name) in indexes {
        return if c.ifNotExists then Ok(()) else Err(Other);
      }
      if Lower(c.table) !in tables {
        return Err(Other);
      }
      var table := tables[Lower(c.table)];
      for i := 0 to |c.columns|
        invariant forall j | 0 <= j < i :: HasColumn(table, c.columns[j])
      {
        if !HasColumn(table, c.columns[i]) {
          return Err(Other);
        }
      }
      var sql := PrintIndex(c);
      ghost var was := indexes;
      rows := rows + [SchemaRow(IndexRow, c.name, rootPage, sql)];
      indexes := indexes[Lower(c.name) := IndexOf(c, rootPage)];
      cookie := cookie + 1;
      assert rows[..|rows| - 1] == old(rows);
      if old(Reloads()) && c.columns != [] {
        IndexReloads(tables, was, c, rootPage);
      }
      return Ok(());
    }
  }

  lemma TableReloads(tables: map<string, Table>, indexes: map<string, Index>, c: CreateTable, rootPage: nat)
    requires c.columns != [] && Lower(c.name) != SCHEMA_TABLE_NAME
    ensures LoadRow(Reloaded(Objects(tables, indexes)), SchemaRow(TableRow, c.name, rootPage, TableTokens(c)))
         == Reloaded(Objects(tables[Lower(c.name) := TableOf(c, rootPage)], indexes))
  {
    hide Parse, AllUnconstrained, Unconstrained, ColumnsOf, ColumnTokens, Lower;
    UnconstrainedAdd(tables, Lower(c.name), TableOf(c, rootPage));
    if Reserved(c.name) {
      LegacyNameLost(Reloaded(Objects(tables, indexes)), c, rootPage);
      KeyDropped(AllUnconstrained(tables), SCHEMA_TABLE_NAME_LEGACY, Unconstrained(TableOf(c, rootPage)));
    } else {
      PrintedTableParses(c);
      BareTable(c, rootPage);
      KeyKept(AllUnconstrained(tables), Lower(c.name), Unconstrained(TableOf(c, rootPage)), SCHEMA_TABLE_NAME_LEGACY);
    }
  }

  lemma KeyDropped(m: map<string, Table>, k: string, t: Table)
    ensures m[k := t] - {k} == m - {k}
  {
  }

  lemma KeyKept(m: map<string, Table>, k: string, t: Table, drop: string)
    requires k != drop
    ensures m[k := t] - {drop} == (m - {drop})[k := t]
  {
  }

  lemma IndexReloads(tables: map<string, Table>, indexes: map<string, Index>, c: CreateIndex, rootPage: nat)
    requires c.columns != []
    ensures LoadRow(Reloaded(Objects(tables, indexes)), SchemaRow(IndexRow, c.name, rootPage, IndexTokens(c)))
         == Reloaded(Objects(tables, indexes[Lower(c.name) := IndexOf(c, rootPage)]))
  {
    hide Parse, AllUnconstrained, NameTokens;
    PrintedIndexParses(c);
  }

  /** A table called sqlite_master can be created, but is passed over when the rows are read again. */
  lemma LegacyNameLost(o: Objects, c: CreateTable, rootPage: nat)
    requires Lower(c.name) == SCHEMA_TABLE_NAME_LEGACY
    ensures LoadRow(o, SchemaRow(TableRow, c.name, rootPage, TableTokens(c))) == o
  {
    hide TableTokens;
  }

  /** Statements as the parser gives them have a column list. */
  predicate Proper(s: Statement) {
    match s case TableStatement(c) => c.columns != [] case IndexStatement(c) => c.columns != []
  }

  /** After any run of CREATE statements the catalogue is the declared one, each statement has answered
      as it should, and opening the database again gives the same indexes and, constraints apart, the same
      tables, exactly if none has the legacy name. */
  method RunDdl(statements: seq<(Statement, nat)>) returns (results: seq<Result<()>>, s: Schema, again: Schema)
    requires forall i | 0 <= i < |statements| :: Proper(statements[i].0)
    ensures Objects(s.tables, s.indexes) == Declared(statements)
    ensures |results| == |statements|
    ensures forall i | 0 <= i < |statements| :: results[i] == Declare(Declared(statements[..i]), statements[i].0, statements[i].1).0
    ensures Objects(again.tables, again.indexes) == Reloaded(Declared(statements))
    ensures Objects(again.tables, again.indexes) == Objects(AllUnconstrained(s.tables), s.indexes) <==> SCHEMA_TABLE_NAME_LEGACY !in s.tables
  {
    hide LoadRow, Loaded, Declare, Reloaded, Declared, AllUnconstrained, TableTokens, IndexTokens, Proper;
    s := new Schema.Open([]);
    BaseReloads();
    results := [];
    assert statements[..0] == [];
    for i := 0 to |statements|
      invariant s.Reloads() && SCHEMA_TABLE_NAME in s.tables && fresh(s)
      invariant Objects(s.tables, s.indexes) == Declared(statements[..i]) && |results| == i
      invariant forall j | 0 <= j < i :: results[j] == Declare(Declared(statements[..j]), statements[j].0, statements[j].1).0
    {
      DeclaredStep(statements, i);
      var r := RunOne(s, statements[i].0, statements[i].1);
      results := results + [r];
    }
    assert statements[..|statements|] == statements;
    again := new Schema.Open(s.rows);
    LegacyOnly(s.tables);
  }

  method RunOne(s: Schema, statement: Statement, rootPage: nat) returns (r: Result<()>)
    requires s.Reloads() && Proper(statement) && SCHEMA_TABLE_NAME in s.tables
    modifies s
    ensures s.Reloads() && SCHEMA_TABLE_NAME in s.tables
    ensures (r, Objects(s.tables, s.indexes)) == Declare(old(Objects(s.tables, s.indexes)), statement, rootPage)
  {
    hide LoadRow, Loaded, Reloaded, TableTokens, IndexTokens, TableOf, IndexOf, HasColumn;
    match statement
    case TableStatement(c) => r := s.CreateTable(c, rootPage);
    case IndexStatement(c) => r := s.CreateIndex(c, rootPage);
  }

  lemma DeclaredStep(statements: seq<(Statement, nat)>, i: nat)
    requires i < |statements|
    ensures Declared(statements[..i + 1]) == Declare(Declared(statements[..i]), statements[i].0, statements[i].1).1
  {
    hide Declare;
    assert statements[..i + 1][..i] == statements[..i];
  }

  lemma LegacyOnly(tables: map<string, Table>)
    ensures forall indexes :: Reloaded(Objects(tables, indexes)) == Objects(AllUnconstrained(tables) - {SCHEMA_TABLE_NAME_LEGACY}, indexes)
    ensures AllUnconstrained(tables) - {SCHEMA_TABLE_NAME_LEGACY} == AllUnconstrained(tables) <==> SCHEMA_TABLE_NAME_LEGACY !in tables
  {
    var m := AllUnconstrained(tables);
    assert SCHEMA_TABLE_NAME_LEGACY in tables <==> SCHEMA_TABLE_NAME_LEGACY in m;
    assert SCHEMA_TABLE_NAME_LEGACY !in m - {SCHEMA_TABLE_NAME_LEGACY};
  }

  lemma BaseReloads()
    ensures Reloaded(BASE) == BASE && SCHEMA_TABLE_NAME in BASE.tables && Loaded([]) == BASE && Declared([]) == BASE
  {
    assert Unconstrained(BASE.tables[SCHEMA_TABLE_NAME]) == BASE.tables[SCHEMA_TABLE_NAME];
    assert SCHEMA_TABLE_NAME != SCHEMA_TABLE_NAME_LEGACY by { assert SCHEMA_TABLE_NAME[7] != SCHEMA_TABLE_NAME_LEGACY[7]; }
    assert AllUnconstrained(BASE.tables) == BASE.tables;
  }
}
