/** The parts of the syntax tree that the compilers read (sqllite-parser/src/ast.rs). */
module Ast {
  import opened Bytes
  import opened Names

  datatype UnaryOp = Not | Minus | Plus | BitNot

  datatype BinaryOp =
    | Or | And | Eq | NotEq | Lt | Le | Gt | Ge | Add | Sub | Mul | Div | Mod | Concat
    | Like | NotLike | BitAnd | BitOr | Shl | Shr | Is | IsNot

  /** `OtherExpr` stands for the forms that no compiler looks into: blob literals, IS NULL, BETWEEN, IN,
      CASE, CAST, COLLATE and parameters. */
  datatype Expr =
    | NullLit
    | IntLit(i: i64)
    | RealLit(bits: u64)
    | StrLit(s: seq<byte>)
    | Ident(name: string)
    | QualifiedIdent(table: string, column: string)
    | Star
    | Unary(op: UnaryOp, expr: Expr)
    | Binary(bop: BinaryOp, left: Expr, right: Expr)
    | Call(func: string, args: seq<Expr>)
    | OtherExpr

  datatype OrderTerm = OrderTerm(expr: Expr, desc: bool)

  datatype JoinType = Cross | Inner | LeftOuter

  datatype TableRef =
    | Table(name: string, alias: Option<string>)
    | Subquery
    | Join(left: TableRef, right: TableRef, joinType: JoinType, on: Option<Expr>)

  datatype Select = Select(columns: seq<Expr>, from: Option<TableRef>, where: Option<Expr>, groupBy: seq<Expr>, orderBy: seq<OrderTerm>)

  datatype Update = Update(table: string, assignments: seq<(string, Expr)>, where: Option<Expr>)

  datatype Delete = Delete(table: string, where: Option<Expr>)

  // ---- The catalogue ---------------------------------------------------------------------------

  /** The catalogue: column names of each table, under the table's name in lower case. */
  type Catalog = map<string, seq<string>>

  function Lookup(cat: Catalog, table: string): Option<seq<string>> { Get(cat, Lower(table)) }

  /** `Table::column_index`: the first column of that name. */
  function ColumnIndex(columns: seq<string>, name: string): (r: Option<nat>)
    ensures r.Some? ==> r.value < |columns| && SameName(columns[r.value], name)
    ensures r.None? <==> forall i | 0 <= i < |columns| :: !SameName(columns[i], name)
    ensures r.Some? ==> forall i | 0 <= i < r.value :: !SameName(columns[i], name)
  {
    if columns == [] then None
    else if SameName(columns[0], name) then Some(0)
    else
      var rest := ColumnIndex(columns[1..], name);
      assert forall i | 0 < i < |columns| :: columns[i] == columns[1..][i - 1];
      if rest.Some? then Some(rest.value + 1) else None
  }
}
