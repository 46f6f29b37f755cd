/** Expressions as code (`compile_expr`, compile.rs), and what that code computes. */
module CompileExpr {
  import opened Bytes
  import opened Values
  import opened Program
  import opened Ast
  import opened VirtualMachine
  import Record

  // ---- The code ------------------------------------------------------------------------------

  /** `as i32`. */
  function ToI32(n: i64): (r: int)
    ensures -0x8000_0000 <= r < 0x8000_0000
    ensures -0x8000_0000 <= n < 0x8000_0000 <==> r == n
  { (n + 0x8000_0000) % 0x1_0000_0000 - 0x8000_0000 }

  function BinaryOpcode(op: BinaryOp): (r: Opcode)
    ensures Operator(r)
  {
    match op
    case Add => Opcode.Add
    case Sub => Opcode.Subtract
    case Mul => Opcode.Multiply
    case Div => Opcode.Divide
    case Mod => Opcode.Remainder
    case Concat => Opcode.Concat
    case And => Opcode.And
    case Or => Opcode.Or
    case NotEq => Opcode.Ne
    case Lt => Opcode.Lt
    case Le => Opcode.Le
    case Gt => Opcode.Gt
    case Ge => Opcode.Ge
    case _ => Opcode.Eq
  }

  function UnaryOpcode(op: UnaryOp): (r: Opcode)
    ensures Operator(r)
  { if op == UnaryOp.Minus then Opcode.Subtract else Opcode.Not }

  /** The instructions for `e` with its value in register `reg`. */
  function ExprCode(e: Expr, reg: nat): (code: seq<Insn>)
    ensures code != []
  {
    match e
    case IntLit(n) => [Op(Opcode.Integer, reg, ToI32(n), 0)]
    case RealLit(r) => [Op(Opcode.Real, reg, 0, 0).(p4 := Float(r))]
    case StrLit(s) => [Op(Opcode.String, reg, 0, 0).(p4 := Str(s))]
    case Binary(op, left, right) =>
      ExprCode(left, reg + 1) + ExprCode(right, reg + 2) + [Op(BinaryOpcode(op), reg, reg + 1, reg + 2)]
    case Unary(op, expr) => ExprCode(expr, reg + 1) + [Op(UnaryOpcode(op), reg, reg + 1, 0)]
    case _ => [Op(Opcode.Null, reg, 0, 0)]
  }

  method EmitExpr(prog: Program, e: Expr, reg: nat)
    modifies prog
    ensures prog.insns == old(prog.insns) + ExprCode(e, reg)
    decreases e
  {
    hide ToI32, BinaryOpcode, UnaryOpcode;
    match e
    case IntLit(n) =>
      var _ := prog.Emit(Op(Opcode.Integer, reg, ToI32(n), 0));
    case RealLit(r) =>
      var _ := prog.Emit(Op(Opcode.Real, reg, 0, 0).(p4 := Float(r)));
    case StrLit(s) =>
      var _ := prog.Emit(Op(Opcode.String, reg, 0, 0).(p4 := Str(s)));
    case Binary(op, left, right) =>
      ghost var a, b, last := ExprCode(left, reg + 1), ExprCode(right, reg + 2), Op(BinaryOpcode(op), reg, reg + 1, reg + 2);
      EmitExpr(prog, left, reg + 1);
      EmitExpr(prog, right, reg + 2);
      var _ := prog.Emit(Op(BinaryOpcode(op), reg, reg + 1, reg + 2));
      assert old(prog.insns) + a + b + [last] == old(prog.insns) + (a + b + [last]);
    case Unary(op, expr) =>
      EmitExpr(prog, expr, reg + 1);
      var _ := prog.Emit(Op(UnaryOpcode(op), reg, reg + 1, 0));
    case _ =>
      var _ := prog.Emit(Op(Opcode.Null, reg, 0, 0));
  }

  // ---- What the code computes ----------------------------------------------------------------------

  /** The value the code leaves, by recursion on the expression. A unary operator gets register 0 as its
      second operand. */
  function Eval(lib: Lib, e: Expr, reg0: Value): Result<Value> {
    match e
    case IntLit(n) => Ok(Value.Integer(ToI32(n)))
    case RealLit(r) => Ok(Value.Real(r))
    case StrLit(s) => Ok(Value.Text(s))
    case Binary(op, left, right) =>
      var a :- Eval(lib, left, reg0);
      var b :- Eval(lib, right, reg0);
      Operate(lib, BinaryOpcode(op), a, b)
    case Unary(op, expr) =>
      var a :- Eval(lib, expr, reg0);
      Operate(lib, UnaryOpcode(op), a, reg0)
    case _ => Ok(Value.Null)
  }

  /** Straight code that leaves `want` in register `reg` and the registers below as they were, or stops
      with the same error. */
  ghost predicate Computes(lib: Lib, code: seq<Insn>, reg: nat, want: Result<Value>, regs: seq<Value>, cursors: map<int, CursorState>) {
    && Straight(code)
    && match (RunCalc(lib, code, regs, cursors), want)
       case (Ok(r), Ok(v)) => Reg(r, reg) == v && forall j | 0 <= j < reg :: Reg(r, j) == Reg(regs, j)
       case (Err(e), Err(e')) => e == e'
       case _ => false
  }

  /** One operator behind code for its first operand, or for both. */
  lemma OneInsn(lib: Lib, insn: Insn, regs: seq<Value>, cursors: map<int, CursorState>)
    requires Calculates(insn.op)
    ensures Straight([insn]) && RunCalc(lib, [insn], regs, cursors) == Calc(lib, insn, regs, cursors)
  {
    hide Calc;
    assert Straight([insn]);
    var r := Calc(lib, insn, regs, cursors);
    if r.Ok? { assert RunCalc(lib, [], r.value, cursors) == r; }
  }

  lemma OperatorRuns(lib: Lib, op: Opcode, p1: nat, p2: nat, p3: nat, regs: seq<Value>, cursors: map<int, CursorState>)
    requires Operator(op)
    ensures Computes(lib, [Op(op, p1, p2, p3)], p1, Operate(lib, op, Reg(regs, p2), Reg(regs, p3)), regs, cursors)
  {
    hide Operate;
    OneInsn(lib, Op(op, p1, p2, p3), regs, cursors);
  }

  lemma UnaryComputes(lib: Lib, code: seq<Insn>, op: Opcode, reg: nat, a: Result<Value>, regs: seq<Value>, cursors: map<int, CursorState>)
    requires Computes(lib, code, reg + 1, a, regs, cursors) && Operator(op)
    ensures Computes(lib, code + [Op(op, reg, reg + 1, 0)], reg,
                     match a { case Ok(v) => Operate(lib, op, v, Reg(regs, 0)) case Err(e) => Err(e) }, regs, cursors)
  {
    hide RunCalc, Operate;
    var insn := Op(op, reg, reg + 1, 0);
    var r := RunCalc(lib, code, regs, cursors);
    OneInsn(lib, insn, regs, cursors);
    RunCalcConcat(lib, code, [insn], regs, cursors);
    if r.Ok? { OperatorRuns(lib, op, reg, reg + 1, 0, r.value, cursors); }
  }

  lemma BinaryComputes(lib: Lib, left: seq<Insn>, right: seq<Insn>, op: Opcode, reg: nat, a: Result<Value>, b: Result<Value>,
                       regs: seq<Value>, cursors: map<int, CursorState>)
    requires Computes(lib, left, reg + 1, a, regs, cursors) && Operator(op)
    requires RunCalc(lib, left, regs, cursors).Ok? ==> Computes(lib, right, reg + 2, b, RunCalc(lib, left, regs, cursors).value, cursors)
    requires Straight(right)
    ensures Computes(lib, left + right + [Op(op, reg, reg + 1, reg + 2)], reg,
                     match a { case Ok(v) => (match b { case Ok(w) => Operate(lib, op, v, w) case Err(e) => Err(e) }) case Err(e) => Err(e) },
                     regs, cursors)
  {
    hide RunCalc, Operate;
    var insn := Op(op, reg, reg + 1, reg + 2);
    OneInsn(lib, insn, regs, cursors);
    RunCalcConcat(lib, left, right, regs, cursors);
    RunCalcConcat(lib, left + right, [insn], regs, cursors);
    var r := RunCalc(lib, left, regs, cursors);
    if r.Ok? {
      var r' := RunCalc(lib, right, r.value, cursors);
      if r'.Ok? { OperatorRuns(lib, op, reg, reg + 1, reg + 2, r'.value, cursors); }
    }
  }

  lemma LiteralComputes(lib: Lib, e: Expr, reg: nat, regs: seq<Value>, cursors: map<int, CursorState>)
    requires !e.Binary? && !e.Unary?
    ensures Computes(lib, ExprCode(e, reg), reg, Eval(lib, e, Reg(regs, 0)), regs, cursors)
  {
    hide RunCalc, Calc, ExprCode, Eval, SetReg;
    LiteralCalc(lib, e, reg, Reg(regs, 0), regs, cursors);
    OneInsn(lib, ExprCode(e, reg)[0], regs, cursors);
  }

  /** What is no operator is loaded by one instruction. */
  lemma LiteralCalc(lib: Lib, e: Expr, reg: nat, reg0: Value, regs: seq<Value>, cursors: map<int, CursorState>)
    requires !e.Binary? && !e.Unary?
    ensures var insn := ExprCode(e, reg)[0];
            && ExprCode(e, reg) == [insn] && Calculates(insn.op) && Eval(lib, e, reg0).Ok?
            && Calc(lib, insn, regs, cursors) == Ok(SetReg(regs, reg, Eval(lib, e, reg0).value))
  {
    hide SetReg, Operate, RowValues, Record.Encode, Regs;
    assert ExprCode(e, reg) == [ExprCode(e, reg)[0]];
  }

  lemma {:induction false} CodeStraight(e: Expr, reg: nat)
    ensures Straight(ExprCode(e, reg))
    decreases e
  {
    match e
    case Binary(_, left, right) => CodeStraight(left, reg + 1); CodeStraight(right, reg + 2);
    case Unary(_, expr) => CodeStraight(expr, reg + 1);
    case _ =>
  }

  /** Compiled expressions are right: from any registers, the code leaves the expression's value in its
      register and every register below it alone. */
  lemma {:induction false} ExprComputes(lib: Lib, e: Expr, reg: nat, regs: seq<Value>, cursors: map<int, CursorState>)
    ensures Computes(lib, ExprCode(e, reg), reg, Eval(lib, e, Reg(regs, 0)), regs, cursors)
    decreases e
  {
    hide RunCalc, Operate;
    match e
    case Binary(op, left, right) =>
      ExprComputes(lib, left, reg + 1, regs, cursors);
      CodeStraight(right, reg + 2);
      var r := RunCalc(lib, ExprCode(left, reg + 1), regs, cursors);
      if r.Ok? { ExprComputes(lib, right, reg + 2, r.value, cursors); }
      BinaryComputes(lib, ExprCode(left, reg + 1), ExprCode(right, reg + 2), BinaryOpcode(op), reg,
                     Eval(lib, left, Reg(regs, 0)), Eval(lib, right, Reg(regs, 0)), regs, cursors);
    case Unary(op, expr) =>
      ExprComputes(lib, expr, reg + 1, regs, cursors);
      UnaryComputes(lib, ExprCode(expr, reg + 1), UnaryOpcode(op), reg, Eval(lib, expr, Reg(regs, 0)), regs, cursors);
    case _ =>
      LiteralComputes(lib, e, reg, regs, cursors);
  }

  // ---- What the expression means -------------------------------------------------------------------

  /** There, and taken for false. */
  predicate False(lib: Lib, v: Value) { !v.Null? && !Truthy(lib, v) }

  predicate Comparison(op: BinaryOp) {
    op in {BinaryOp.Eq, BinaryOp.NotEq, BinaryOp.Lt, BinaryOp.Le, BinaryOp.Gt, BinaryOp.Ge}
  }

  predicate Arithmetic(op: BinaryOp) {
    op in {BinaryOp.Add, BinaryOp.Sub, BinaryOp.Mul, BinaryOp.Div, BinaryOp.Mod, BinaryOp.Concat}
  }

  predicate Relates(op: BinaryOp, o: Ordering)
    requires Comparison(op)
  {
    match op
    case Eq => o == Equal
    case NotEq => o != Equal
    case Lt => o == Less
    case Le => o != Greater
    case Gt => o == Greater
    case Ge => o != Less
  }

  /** The binary operators by the rules of SQL: a null operand makes the result null, except that a false
      operand decides AND and a true one OR; IS takes two nulls for equal. Which values are true, how
      values compare, and arithmetic on operands that are there are the engine's. LIKE and the bit
      operators, which it does not have, get no meaning. */
  function SqlBinary(lib: Lib, op: BinaryOp, a: Value, b: Value): Result<Value> {
    if op == BinaryOp.And then
      Ok(if False(lib, a) || False(lib, b) then Bool(false) else if a.Null? || b.Null? then Value.Null else Bool(true))
    else if op == BinaryOp.Or then
      Ok(if Truthy(lib, a) || Truthy(lib, b) then Bool(true) else if a.Null? || b.Null? then Value.Null else Bool(false))
    else if op == BinaryOp.Is then Ok(Bool(Compare(lib, a, b) == Equal))
    else if op == BinaryOp.IsNot then Ok(Bool(Compare(lib, a, b) != Equal))
    else if Comparison(op) then Ok(if a.Null? || b.Null? then Value.Null else Bool(Relates(op, Compare(lib, a, b))))
    else if Arithmetic(op) then (if a.Null? || b.Null? then Ok(Value.Null) else Operate(lib, BinaryOpcode(op), a, b))
    else Err(Other)
  }

  function SqlUnary(lib: Lib, op: UnaryOp, a: Value): Result<Value> {
    match op
    case Not => Ok(if a.Null? then Value.Null else Bool(!Truthy(lib, a)))
    case Minus => Ok(if a.Null? then Value.Null else Value.Real(lib.subtract(lib.zero, RealOf(lib, a))))
    case Plus => Ok(a)
    case BitNot => Err(Other)
  }

  /** The value of an expression without columns, by recursion and without registers. */
  function Meaning(lib: Lib, e: Expr): Result<Value> {
    match e
    case NullLit => Ok(Value.Null)
    case IntLit(n) => Ok(Value.Integer(n))
    case RealLit(r) => Ok(Value.Real(r))
    case StrLit(s) => Ok(Value.Text(s))
    case Binary(op, left, right) =>
      var a :- Meaning(lib, left);
      var b :- Meaning(lib, right);
      SqlBinary(lib, op, a, b)
    case Unary(op, expr) =>
      var a :- Meaning(lib, expr);
      SqlUnary(lib, op, a)
    case _ => Err(Other)
  }

  /** Operators for which there is the right opcode. */
  predicate Supported(op: BinaryOp) {
    Arithmetic(op) || op in {BinaryOp.Or, BinaryOp.And, BinaryOp.Eq, BinaryOp.NotEq, BinaryOp.Lt, BinaryOp.Gt, BinaryOp.Is}
  }

  /** The machine's operators follow SQL exactly on operands that are there, and where a false operand
      decides AND; IS always does. */
  lemma OperatorExact(lib: Lib, op: BinaryOp, a: Value, b: Value)
    requires Supported(op)
    ensures Operate(lib, BinaryOpcode(op), a, b) == SqlBinary(lib, op, a, b) <==>
              || op == BinaryOp.Is || (!a.Null? && !b.Null?)
              || (op == BinaryOp.And && (False(lib, a) || False(lib, b)))
  {
    hide Compare, AsInteger, AsReal, ToText, Modulo;
    OperateNotNull(lib, BinaryOpcode(op), a, b);
  }

  /** Operands on which a test lets a row pass, or not, against SQL: two nulls are equal to the machine,
      null is unequal to and less than everything else, and with a null OR is false. */
  predicate NullTrap(lib: Lib, op: BinaryOp, a: Value, b: Value) {
    match op
    case Eq => a.Null? && b.Null?
    case NotEq => a.Null? != b.Null?
    case Lt => a.Null? && !b.Null?
    case Gt => !a.Null? && b.Null?
    case Or => (a.Null? && Truthy(lib, b)) || (b.Null? && Truthy(lib, a))
    case _ => false
  }

  predicate TestOp(op: BinaryOp) {
    op in {BinaryOp.Or, BinaryOp.And, BinaryOp.Eq, BinaryOp.NotEq, BinaryOp.Lt, BinaryOp.Gt, BinaryOp.Is}
  }

  /** As tests, where null counts as false, the operators fail exactly on those operands. */
  lemma TestExact(lib: Lib, op: BinaryOp, a: Value, b: Value)
    requires TestOp(op)
    ensures Operate(lib, BinaryOpcode(op), a, b).Ok? && SqlBinary(lib, op, a, b).Ok?
    ensures Truthy(lib, Operate(lib, BinaryOpcode(op), a, b).value) == Truthy(lib, SqlBinary(lib, op, a, b).value)
            <==> !NullTrap(lib, op, a, b)
  {
    hide Operate, SqlBinary, NullTrap, Truthy;
    if op == BinaryOp.Or || op == BinaryOp.And {
      LogicExact(lib, op, a, b);
    } else {
      CompareExact(lib, op, a, b);
    }
  }

  lemma CompareExact(lib: Lib, op: BinaryOp, a: Value, b: Value)
    requires op in {BinaryOp.Eq, BinaryOp.NotEq, BinaryOp.Lt, BinaryOp.Gt, BinaryOp.Is}
    ensures Operate(lib, BinaryOpcode(op), a, b).Ok? && SqlBinary(lib, op, a, b).Ok?
    ensures Truthy(lib, Operate(lib, BinaryOpcode(op), a, b).value) == Truthy(lib, SqlBinary(lib, op, a, b).value)
            <==> !NullTrap(lib, op, a, b)
  {
    hide Compare, Truthy;
    NullCompares(lib, a, b);
    TruthOfBool(lib);
  }

  lemma TruthOfBool(lib: Lib)
    ensures Truthy(lib, Bool(true)) && !Truthy(lib, Bool(false)) && !Truthy(lib, Value.Null)
  {
  }

  lemma LogicExact(lib: Lib, op: BinaryOp, a: Value, b: Value)
    requires op == BinaryOp.Or || op == BinaryOp.And
    ensures Operate(lib, BinaryOpcode(op), a, b).Ok? && SqlBinary(lib, op, a, b).Ok?
    ensures Truthy(lib, Operate(lib, BinaryOpcode(op), a, b).value) == Truthy(lib, SqlBinary(lib, op, a, b).value)
            <==> !NullTrap(lib, op, a, b)
  {
    hide Compare, AsInteger;
    TruthOfBool(lib);
  }

  lemma NullCompares(lib: Lib, a: Value, b: Value)
    ensures a.Null? && b.Null? ==> Compare(lib, a, b) == Equal
    ensures a.Null? && !b.Null? ==> Compare(lib, a, b) == Less
    ensures !a.Null? && b.Null? ==> Compare(lib, a, b) == Greater
  {
  }

  /** Built from literals that are there, and operators the machine has. */
  predicate Constant(e: Expr) {
    match e
    case IntLit(n) => -0x8000_0000 <= n < 0x8000_0000
    case RealLit(_) => true
    case StrLit(_) => true
    case Binary(op, left, right) => Supported(op) && Constant(left) && Constant(right)
    case Unary(op, expr) => op == UnaryOp.Not && Constant(expr)
    case _ => false
  }

  predicate Plain(e: Expr) { e.NullLit? || Constant(e) }

  /** Plain expressions compute what they mean, whatever register 0 holds, and are null only if they are
      the literal. */
  lemma {:induction false} PlainEval(lib: Lib, e: Expr, reg0: Value)
    requires Plain(e)
    ensures Eval(lib, e, reg0) == Meaning(lib, e)
    ensures !e.NullLit? && Meaning(lib, e).Ok? ==> !Meaning(lib, e).value.Null?
  {
    hide Operate, SqlBinary, Truthy;
    match e
    case Binary(op, left, right) =>
      PlainEval(lib, left, reg0);
      PlainEval(lib, right, reg0);
      var a, b := Meaning(lib, left), Meaning(lib, right);
      if a.Ok? && b.Ok? {
        OperatorExact(lib, op, a.value, b.value);
        OperateNotNull(lib, BinaryOpcode(op), a.value, b.value);
      }
    case Unary(op, expr) =>
      PlainEval(lib, expr, reg0);
      NotIs(lib, Meaning(lib, expr), reg0);
    case _ =>
  }

  lemma OperateNotNull(lib: Lib, op: Opcode, a: Value, b: Value)
    ensures Operate(lib, op, a, b).Ok? ==> !Operate(lib, op, a, b).value.Null?
  {
    hide Compare, AsInteger, AsReal, ToText;
  }

  lemma NotIs(lib: Lib, v: Result<Value>, reg0: Value)
    ensures v.Ok? ==> Operate(lib, Opcode.Not, v.value, reg0) == Ok(Bool(!Truthy(lib, v.value)))
    ensures v.Ok? && !v.value.Null? ==> SqlUnary(lib, UnaryOp.Not, v.value) == Ok(Bool(!Truthy(lib, v.value)))
  {
  }

  // ---- Operators that compute something else ----------------------------------------------------------

  /** The exchanged tests are right exactly on operands that are there and compare equal. */
  lemma LeGeExact(lib: Lib, a: Value, b: Value)
    ensures Operate(lib, BinaryOpcode(BinaryOp.Le), a, b) == SqlBinary(lib, BinaryOp.Le, a, b) <==> !a.Null? && !b.Null? && Compare(lib, a, b) == Equal
    ensures Operate(lib, BinaryOpcode(BinaryOp.Ge), a, b) == SqlBinary(lib, BinaryOp.Ge, a, b) <==> !a.Null? && !b.Null? && Compare(lib, a, b) == Equal
  {
    hide Compare;
  }

  /** NOT is right exactly on operands that are there. IS NOT, which is compiled to Eq, and unary plus,
      which is compiled to Not, are never right. */
  lemma OtherOperators(lib: Lib, a: Value, b: Value)
    ensures Operate(lib, UnaryOpcode(UnaryOp.Not), a, b) == SqlUnary(lib, UnaryOp.Not, a) <==> !a.Null?
    ensures Operate(lib, UnaryOpcode(UnaryOp.Plus), a, b) != SqlUnary(lib, UnaryOp.Plus, a)
    ensures Operate(lib, BinaryOpcode(BinaryOp.IsNot), a, b) != SqlBinary(lib, BinaryOp.IsNot, a, b)
  {
    hide Compare, Truthy;
    PlusWrong(lib, a, b);
  }

  lemma PlusWrong(lib: Lib, a: Value, b: Value)
    ensures Operate(lib, UnaryOpcode(UnaryOp.Plus), a, b) != Ok(a)
  {
    hide AsInteger;
    TruthOfBool(lib);
    assert Operate(lib, UnaryOpcode(UnaryOp.Plus), a, b) == Ok(Bool(!Truthy(lib, a)));
  }

  /** An integer literal keeps its value exactly if it fits 32 bits. */
  lemma LiteralExact(lib: Lib, n: i64, reg0: Value)
    ensures Eval(lib, IntLit(n), reg0) == Meaning(lib, IntLit(n)) <==> -0x8000_0000 <= n < 0x8000_0000
  {
  }

  predicate Small(n: int) { -0x10_0000_0000_0000 <= n <= 0x10_0000_0000_0000 }

  /** Floats subtract small integers exactly and tell them apart. */
  ghost predicate ExactIntegers(lib: Lib) {
    && lib.floatOf(0) == lib.zero
    && (forall n: i64, m: i64 | Small(n) && Small(m) :: lib.subtract(lib.floatOf(n), lib.floatOf(m)) == lib.floatOf(n - m))
    && (forall n: i64, m: i64 | Small(n) && Small(m) && lib.floatOf(n) == lib.floatOf(m) :: n == m)
  }

  /** The value reads as the integer `n` in arithmetic; null reads as 0. */
  predicate ReadsAs(lib: Lib, v: Value, n: i64) { RealOf(lib, v) == lib.floatOf(n) }

  /** Unary minus subtracts register 0 from its operand: on a small integer it negates exactly if register
      0 holds twice the operand. */
  lemma MinusExact(lib: Lib, e: Expr, reg0: Value, n: i64, m: i64)
    requires ExactIntegers(lib) && Small(n) && Small(m) && Small(n - m)
    requires Plain(e) && Meaning(lib, e).Ok? && !Meaning(lib, e).value.Null?
    requires ReadsAs(lib, Meaning(lib, e).value, n) && ReadsAs(lib, reg0, m)
    ensures Eval(lib, Unary(UnaryOp.Minus, e), reg0) == Meaning(lib, Unary(UnaryOp.Minus, e)) <==> m == 2 * n
  {
    PlainEval(lib, e, reg0);
    hide Plain, Meaning, Eval, RealOf;
    MinusBoth(lib, e, reg0);
    assert lib.subtract(lib.floatOf(n), lib.floatOf(m)) == lib.floatOf(n - m);
    assert lib.subtract(lib.floatOf(0), lib.floatOf(n)) == lib.floatOf(0 - n);
  }

  lemma MinusBoth(lib: Lib, e: Expr, reg0: Value)
    requires Eval(lib, e, reg0) == Meaning(lib, e) && Meaning(lib, e).Ok? && !Meaning(lib, e).value.Null?
    ensures var v := RealOf(lib, Meaning(lib, e).value);
            && Eval(lib, Unary(UnaryOp.Minus, e), reg0) == Ok(Value.Real(lib.subtract(v, RealOf(lib, reg0))))
            && Meaning(lib, Unary(UnaryOp.Minus, e)) == Ok(Value.Real(lib.subtract(lib.zero, v)))
  {
  }

  /** On the first row of a scan, where register 0 is null, only zero is negated: `-(1)` is 1. */
  lemma MinusOfOne(lib: Lib)
    requires ExactIntegers(lib)
    ensures forall n: i64 | -0x8000_0000 <= n < 0x8000_0000 ::
              Eval(lib, Unary(UnaryOp.Minus, IntLit(n)), Value.Null) == Meaning(lib, Unary(UnaryOp.Minus, IntLit(n))) <==> n == 0
    ensures Eval(lib, Unary(UnaryOp.Minus, IntLit(1)), Value.Null) == Ok(Value.Real(lib.floatOf(1)))
    ensures Meaning(lib, Unary(UnaryOp.Minus, IntLit(1))) == Ok(Value.Real(lib.floatOf(-1)))
    ensures lib.floatOf(1) != lib.floatOf(-1)
  {
    forall n: i64 | -0x8000_0000 <= n < 0x8000_0000
      ensures Eval(lib, Unary(UnaryOp.Minus, IntLit(n)), Value.Null) == Meaning(lib, Unary(UnaryOp.Minus, IntLit(n))) <==> n == 0
    {
      MinusExact(lib, IntLit(n), Value.Null, n, 0);
    }
    assert Small(1) && Small(0) && Small(-1);
    assert lib.subtract(lib.floatOf(1), lib.floatOf(0)) == lib.floatOf(1 - 0);
    assert lib.subtract(lib.floatOf(0), lib.floatOf(1)) == lib.floatOf(0 - 1);
  }

  /** Whether code for `e` reads register 0. */
  predicate ReadsReg0(e: Expr) {
    match e
    case Binary(_, left, right) => ReadsReg0(left) || ReadsReg0(right)
    case Unary(op, expr) => op == UnaryOp.Minus || ReadsReg0(expr)
    case _ => false
  }

  lemma {:induction false} Reg0Free(lib: Lib, e: Expr, a: Value, b: Value)
    requires !ReadsReg0(e)
    ensures Eval(lib, e, a) == Eval(lib, e, b)
  {
    match e
    case Binary(_, left, right) => Reg0Free(lib, left, a, b); Reg0Free(lib, right, a, b);
    case Unary(_, expr) => Reg0Free(lib, expr, a, b);
    case _ =>
  }
}
