/** The parser of CREATE statements as it runs: a position that moves over the tokens (parser_impl.rs). */
module DdlParser {
  import opened Bytes
  import opened Ddl

  /** What a parsing method returns, and where it stops, by the grammar. */
  ghost predicate Follows<T(!new)>(r: Result<T>, pos: nat, want: Result<(T, nat)>) {
    match want
    case Ok(w) => r == Ok(w.0) && pos == w.1
    case Err(e) => r == Err(e)
  }

  lemma NoPrimaryKey(ts: seq<Token>, p: nat)
    ensures !Sees(ts, p, PrimaryKw) ==> PrimaryKeysAt(ts, p) == Ok(([], p))
    ensures Sees(ts, p, PrimaryKw) ==> p < |ts|
  {
  }

  lemma PrefixedErr<T>(done: seq<T>, e: Error)
    ensures Prefixed(done, Err(e)) == Err(e)
  {
  }

  lemma PrefixedDone<T>(done: seq<T>, p: nat)
    ensures Prefixed(done, Ok(([], p))) == Ok((done, p))
  {
    assert done + [] == done;
  }

  class Parser {
    const tokens: seq<Token>
    var pos: nat

    constructor (tokens: seq<Token>)
      ensures this.tokens == tokens && pos == 0
    {
      this.tokens, pos := tokens, 0;
    }

    method Advance()
      modifies this
      ensures pos == if old(pos) < |tokens| then old(pos) + 1 else old(pos)
    {
      if pos < |tokens| {
        pos := pos + 1;
      }
    }

    method MatchToken(t: Token) returns (found: bool)
      modifies this
      ensures found == Sees(tokens, old(pos), t) && pos == if found then old(pos) + 1 else old(pos)
    {
      found := pos < |tokens| && tokens[pos] == t;
      if found {
        Advance();
      }
    }

    method Expect(t: Token) returns (r: Result<()>)
      modifies this
      ensures match Expecting(tokens, old(pos), t) { case Ok(p) => r == Ok(()) && pos == p case Err(e) => r == Err(e) }
    {
      var found := MatchToken(t);
      return if found then Ok(()) else Err(Other);
    }

    method ParseIdent() returns (r: Result<string>)
      modifies this
      ensures Follows(r, pos, IdentAt(tokens, old(pos)))
    {
      if pos < |tokens| {
        match tokens[pos] {
          case Ident(s) => Advance(); return Ok(s);
          case QuotedIdent(s) => Advance(); return Ok(s);
          case BacktickIdent(s) => Advance(); return Ok(s);
          case _ =>
        }
      }
      return Err(Other);
    }

    method ParseGuard() returns (r: Result<bool>)
      modifies this
      ensures Follows(r, pos, GuardAt(tokens, old(pos)))
    {
      var found := MatchToken(IfKw);
      if !found {
        return Ok(false);
      }
      var _ :- Expect(NotKw);
      var _ :- Expect(ExistsKw);
      return Ok(true);
    }

    method ParseColumnType() returns (t: ColumnType)
      modifies this
      ensures (t, pos) == TypeAt(tokens, old(pos))
    {
      if pos >= |tokens| {
        return NumericType;
      }
      match tokens[pos] {
        case IntegerKw => t := IntegerType;
        case RealKw => t := RealType;
        case TextKw => t := TextType;
        case BlobKw => t := BlobType;
        case NullKw => t := NullType;
        case Ident(name) => t := TypeNamed(name);
        case _ => return NumericType;
      }
      Advance();
    }

    /** KEY and AUTOINCREMENT, once PRIMARY has been read. */
    method ParsePrimaryKey() returns (r: Result<Constraint>)
      requires pos > 0 && Sees(tokens, pos - 1, PrimaryKw)
      modifies this
      ensures r.Err? ==> PrimaryKeysAt(tokens, old(pos) - 1) == Err(r.error)
      ensures r.Ok? ==> old(pos) < pos <= |tokens| && PrimaryKeysAt(tokens, old(pos) - 1) == Prefixed([r.value], PrimaryKeysAt(tokens, pos))
    {
      var _ :- Expect(KeyKw);
      var auto := MatchToken(AutoincrementKw);
      return Ok(PrimaryKey(auto));
    }

    /** The loop over PRIMARY KEY. */
    method ParsePrimaryKeys() returns (r: Result<seq<Constraint>>)
      modifies this
      ensures Follows(r, pos, PrimaryKeysAt(tokens, old(pos)))
    {
      hide PrimaryKeysAt, Prefixed, Sees;
      ghost var all := PrimaryKeysAt(tokens, pos);
      var keys: seq<Constraint> := [];
      PrefixedNone(all);
      NoPrimaryKey(tokens, pos);
      var more := MatchToken(PrimaryKw);
      while more
        invariant if more then pos > 0 && pos <= |tokens| && Sees(tokens, pos - 1, PrimaryKw) && all == Prefixed(keys, PrimaryKeysAt(tokens, pos - 1))
                  else all == Prefixed(keys, Ok(([], pos)))
        decreases |tokens| - pos, more
      {
        var key := ParsePrimaryKey();
        if key.Err? {
          PrefixedErr(keys, key.error);
          return Err(key.error);
        }
        PrefixedOne(keys, key.value, PrimaryKeysAt(tokens, pos));
        keys := keys + [key.value];
        NoPrimaryKey(tokens, pos);
        more := MatchToken(PrimaryKw);
      }
      PrefixedDone(keys, pos);
      return Ok(keys);
    }

    method ParseConstraints() returns (r: Result<seq<Constraint>>)
      modifies this
      ensures Follows(r, pos, ConstraintsAt(tokens, old(pos)))
    {
      hide PrimaryKeysAt;
      var constraints :- ParsePrimaryKeys();
      assert constraints + [] == constraints;
      var found := MatchToken(NotKw);
      if found {
        var _ :- Expect(NullKw);
        constraints := constraints + [NotNull];
      }
      assert constraints + [] == constraints;
      found := MatchToken(UniqueKw);
      if found {
        constraints := constraints + [Unique];
      }
      found := MatchToken(DefaultKw);
      if found {
        return Err(Other);
      }
      return Ok(constraints);
    }

    method ParseColumnDef() returns (r: Result<ColumnDef>)
      modifies this
      ensures Follows(r, pos, ColumnAt(tokens, old(pos)))
    {
      hide ConstraintsAt, TypeAt, IdentAt;
      var name :- ParseIdent();
      var colType := ParseColumnType();
      var constraints :- ParseConstraints();
      return Ok(ColumnDef(name, colType, constraints));
    }

    /** The loop over the columns of a table. */
    method ParseColumns() returns (r: Result<seq<ColumnDef>>)
      modifies this
      ensures Follows(r, pos, ColumnsAt(tokens, old(pos)))
    {
      hide ColumnAt;
      ghost var all := ColumnsAt(tokens, pos);
      var columns: seq<ColumnDef> := [];
      PrefixedNone(all);
      var more := true;
      while more
        invariant if more then all == Prefixed(columns, ColumnsAt(tokens, pos)) else all == Ok((columns, pos))
        decreases |tokens| - pos, more
      {
        ghost var p := pos;
        var c :- ParseColumnDef();
        ghost var q := pos;
        more := MatchToken(Comma);
        PrefixedOne(columns, c, ColumnsAt(tokens, q + 1));
        assert more ==> ColumnsAt(tokens, p) == Prefixed([c], ColumnsAt(tokens, q + 1));
        columns := columns + [c];
      }
      return Ok(columns);
    }

    /** The loop over the columns of an index. */
    method ParseNames() returns (r: Result<seq<string>>)
      modifies this
      ensures Follows(r, pos, NamesAt(tokens, old(pos)))
    {
      hide IdentAt;
      ghost var all := NamesAt(tokens, pos);
      var names: seq<string> := [];
      PrefixedNone(all);
      var more := true;
      while more
        invariant if more then all == Prefixed(names, NamesAt(tokens, pos)) else all == Ok((names, pos))
        decreases |tokens| - pos, more
      {
        ghost var p := pos;
        var c :- ParseIdent();
        ghost var q := pos;
        more := MatchToken(Comma);
        PrefixedOne(names, c, NamesAt(tokens, q + 1));
        assert more ==> NamesAt(tokens, p) == Prefixed([c], NamesAt(tokens, q + 1));
        names := names + [c];
      }
      return Ok(names);
    }

    method ParseCreateTable() returns (r: Result<CreateTable>)
      modifies this
      ensures Follows(r, pos, TableAt(tokens, old(pos)))
    {
      hide GuardAt, IdentAt, ColumnsAt;
      var ifNotExists :- ParseGuard();
      var name :- ParseIdent();
      var _ :- Expect(LParen);
      var columns :- ParseColumns();
      var _ :- Expect(RParen);
      return Ok(CreateTable(ifNotExists, name, columns));
    }

    method ParseCreateIndex(unique: bool) returns (r: Result<CreateIndex>)
      modifies this
      ensures Follows(r, pos, IndexAt(tokens, old(pos), unique))
    {
      hide GuardAt, IdentAt, NamesAt;
      var ifNotExists :- ParseGuard();
      var name :- ParseIdent();
      var _ :- Expect(OnKw);
      var table :- ParseIdent();
      var _ :- Expect(LParen);
      var columns :- ParseNames();
      var _ :- Expect(RParen);
      return Ok(CreateIndex(ifNotExists, unique, name, table, columns));
    }

    /** `parse_statement`, on CREATE statements. */
    method ParseStatement() returns (r: Result<Statement>)
      requires pos == 0
      modifies this
      ensures r == Parse(tokens)
    {
      hide TableAt, IndexAt;
      var _ :- Expect(CreateKw);
      var unique := MatchToken(UniqueKw);
      var index := MatchToken(IndexKw);
      if index {
        var i :- ParseCreateIndex(unique);
        return Ok(IndexStatement(i));
      }
      var _ :- Expect(TableKw);
      var t :- ParseCreateTable();
      return Ok(TableStatement(t));
    }
  }

  method ParseOne(tokens: seq<Token>) returns (r: Result<Statement>)
    ensures r == Parse(tokens)
  {
    var parser := new Parser(tokens);
    r := parser.ParseStatement();
  }
}
