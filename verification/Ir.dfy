/**
 The typed IR fragment: i32 and bool values, locals, checked arithmetic, comparisons,
 `not`/`neg`, short-circuit `and`/`or`, valued and unit `if`/blocks, `let`, assignment,
 `while`, `break` and `continue` - its typing rules and its meaning.

 Names are unique along every scope chain (the language forbids shadowing), so an
 environment is one map and leaving a block removes what the block declared.
 */
module Ir {
  import opened Wrappers
  import A = CheckedArith

  datatype Ty = I32 | Bool | Unit

  datatype BinOp = Add | Sub | Mul | Div | Mod | Eq | Neq | Lt | Gt | LtEq | GtEq | And | Or

  datatype UnaryOp = Not | Neg

  /** `ty` fields are the types cached by lowering. */
  datatype Expr =
    | IntLit(n: int)
    | BoolLit(b: bool)
    | Ident(name: string, ty: Ty)
    | Binary(op: BinOp, left: Expr, right: Expr, ty: Ty)
    | Unary(uop: UnaryOp, operand: Expr, ty: Ty)
    | BlockExpr(block: Block)
    | If(cond: Expr, thn: Block, els: Option<Expr>, ty: Ty)

  datatype Block = Block(stmts: seq<Stmt>, tail: Option<Expr>)

  datatype Stmt =
    | Let(name: string, mutable: bool, ty: Ty, value: Expr)
    | Assign(target: string, value: Expr)
    | ExprStmt(expr: Expr)
    | While(cond: Expr, body: Block)
    | Break
    | Continue

  predicate IsLogical(op: BinOp) { op == And || op == Or }

  predicate IsArith(op: BinOp) { op == Add || op == Sub || op == Mul || op == Div || op == Mod }

  predicate IsEquality(op: BinOp) { op == Eq || op == Neq }

  predicate IsRelational(op: BinOp) { op == Lt || op == Gt || op == LtEq || op == GtEq }

  /** The type a node carries, without looking below it. */
  function TyOf(e: Expr): Ty {
    match e
    case IntLit(_) => I32
    case BoolLit(_) => Bool
    case Ident(_, ty) => ty
    case Binary(_, _, _, ty) => ty
    case Unary(_, _, ty) => ty
    case BlockExpr(b) => BlockTy(b)
    case If(_, _, _, ty) => ty
  }

  function BlockTy(b: Block): Ty {
    match b.tail
    case None => Unit
    case Some(e) => TyOf(e)
  }

  // ----- static semantics -----

  datatype Binding = Binding(ty: Ty, mutable: bool)

  type Env = map<string, Binding>

  /** Do operand types fit the operator? */
  predicate OperandsFit(op: BinOp, l: Ty, r: Ty) {
    l == r && l != Unit &&
    (IsLogical(op) ==> l == Bool) && (IsArith(op) || IsRelational(op) ==> l == I32)
  }

  /** The expression is well typed in `env` and its cached types are consistent. */
  predicate TypedExpr(env: Env, e: Expr)
    decreases e, 1
  {
    match e
    case IntLit(n) => A.Fits32(n)
    case BoolLit(_) => true
    case Ident(x, ty) => x in env && env[x].ty == ty && ty != Unit
    case Binary(op, l, r, ty) =>
      TypedExpr(env, l) && TypedExpr(env, r) && OperandsFit(op, TyOf(l), TyOf(r)) &&
      ty == if IsArith(op) then TyOf(l) else Bool
    case Unary(op, a, ty) =>
      TypedExpr(env, a) && TyOf(a) == ty && ty == if op == Not then Bool else I32
    case BlockExpr(b) => TypedBlock(env, b)
    case If(c, t, f, ty) =>
      TypedExpr(env, c) && TyOf(c) == Bool && TypedBlock(env, t) && BlockTy(t) == ty &&
      (match f case None => ty == Unit case Some(fe) => TypedExpr(env, fe) && TyOf(fe) == ty)
  }

  predicate TypedBlock(env: Env, b: Block)
    decreases b
  {
    TypedStmts(env, b.stmts) &&
    (b.tail.Some? ==> TypedExpr(After(env, b.stmts), b.tail.value))
  }

  predicate TypedStmts(env: Env, ss: seq<Stmt>)
    decreases ss
  {
    ss == [] || (TypedStmt(env, ss[0]) && TypedStmts(Declare(env, ss[0]), ss[1..]))
  }

  predicate TypedStmt(env: Env, s: Stmt)
    decreases s
  {
    match s
    case Let(x, _, ty, v) => x !in env && ty != Unit && TypedExpr(env, v) && TyOf(v) == ty
    case Assign(x, v) => x in env && env[x].mutable && TypedExpr(env, v) && TyOf(v) == env[x].ty
    case ExprStmt(e) => TypedExpr(env, e)
    case While(c, b) => TypedExpr(env, c) && TyOf(c) == Bool && TypedBlock(env, b)
    case Break => true
    case Continue => true
  }

  /** The environment after one statement of a block. */
  function Declare(env: Env, s: Stmt): Env {
    if s.Let? then env[s.name := Binding(s.ty, s.mutable)] else env
  }

  function After(env: Env, ss: seq<Stmt>): Env
    decreases |ss|
  {
    if ss == [] then env else After(Declare(env, ss[0]), ss[1..])
  }

  // ----- dynamic semantics -----

  datatype Val = IntV(n: int) | BoolV(b: bool) | UnitV

  datatype Slot = Slot(v: Val, mutable: bool)

  type State = map<string, Slot>

  /** How evaluation ends. A panic keeps the state it happened in; `OutOfFuel` means that
      some loop ran for more rounds than allowed; `Stuck` is a type or scope error. */
  datatype Outcome =
    | Done(v: Val, s: State)
    | Breaks(s: State)
    | Continues(s: State)
    | Panics(s: State)
    | OutOfFuel
    | Stuck

  /** Keep only the variables of the enclosing scope. */
  function Restrict(outer: State, inner: State): State {
    map x | x in inner && x in outer :: inner[x]
  }

  function Leave(outer: State, o: Outcome): Outcome {
    match o
    case Done(v, s) => Done(v, Restrict(outer, s))
    case Breaks(s) => Breaks(Restrict(outer, s))
    case Continues(s) => Continues(Restrict(outer, s))
    case Panics(s) => Panics(Restrict(outer, s))
    case _ => o
  }

  datatype OpResult = Yields(v: Val) | Panic | Mismatch

  function CheckedVal(n: int): OpResult {
    if A.Fits32(n) then Yields(IntV(n)) else Panic
  }

  /** Arithmetic is exact or panics; division truncates toward zero. */
  function ArithValue(op: BinOp, a: int, b: int): OpResult
    requires IsArith(op)
  {
    match op
    case Add => CheckedVal(a + b)
    case Sub => CheckedVal(a - b)
    case Mul => CheckedVal(a * b)
    case Div => if b == 0 then Panic else CheckedVal(A.TruncDiv(a, b))
    case Mod =>
      if b == 0 || (a == A.INT32_MIN as int && b == -1) then Panic else CheckedVal(A.TruncMod(a, b))
  }

  predicate Compare(op: BinOp, a: int, b: int) {
    if op == Eq then a == b
    else if op == Neq then a != b
    else if op == Lt then a < b
    else if op == Gt then a > b
    else if op == LtEq then a <= b
    else a >= b
  }

  function BinaryValue(op: BinOp, v: Val, w: Val): OpResult
    requires !IsLogical(op)
  {
    if v.IntV? && w.IntV? then
      if IsArith(op) then ArithValue(op, v.n, w.n) else Yields(BoolV(Compare(op, v.n, w.n)))
    else if v.BoolV? && w.BoolV? && IsEquality(op) then
      Yields(BoolV((v.b == w.b) == (op == Eq)))
    else Mismatch
  }

  function UnaryValue(op: UnaryOp, v: Val): OpResult {
    if op == Not && v.BoolV? then Yields(BoolV(!v.b))
    else if op == Neg && v.IntV? then CheckedVal(-v.n)
    else Mismatch
  }

  function Finish(r: OpResult, s: State): Outcome {
    match r
    case Yields(v) => Done(v, s)
    case Panic => Panics(s)
    case Mismatch => Stuck
  }

  /** Operands are evaluated from left to right, each exactly once. */
  function EvalExpr(e: Expr, s: State, fuel: nat): Outcome
    decreases fuel, e, 1
  {
    match e
    case IntLit(n) => Done(IntV(n), s)
    case BoolLit(b) => Done(BoolV(b), s)
    case Ident(x, _) => if x in s then Done(s[x].v, s) else Stuck
    case Binary(op, l, r, _) =>
      var ol := EvalExpr(l, s, fuel);
      if !ol.Done? then ol
      else if IsLogical(op) then
        if !ol.v.BoolV? then Stuck
        else if ol.v.b == (op == Or) then ol
        else
          var or := EvalExpr(r, ol.s, fuel);
          if or.Done? && !or.v.BoolV? then Stuck else or
      else
        var or := EvalExpr(r, ol.s, fuel);
        if !or.Done? then or else Finish(BinaryValue(op, ol.v, or.v), or.s)
    case Unary(op, a, _) =>
      var oa := EvalExpr(a, s, fuel);
      if !oa.Done? then oa else Finish(UnaryValue(op, oa.v), oa.s)
    case BlockExpr(b) => Leave(s, EvalBlock(b, s, fuel))
    case If(c, t, f, _) =>
      var oc := EvalExpr(c, s, fuel);
      if !oc.Done? then oc
      else if !oc.v.BoolV? then Stuck
      else if oc.v.b then Leave(oc.s, EvalBlock(t, oc.s, fuel))
      else if f.Some? then EvalExpr(f.value, oc.s, fuel)
      else Done(UnitV, oc.s)
  }

  /** A block's statements and tail, without leaving its scope. */
  function EvalBlock(b: Block, s: State, fuel: nat): Outcome
    decreases fuel, b, 1
  {
    var o := EvalStmts(b.stmts, s, fuel);
    if !o.Done? then o
    else if b.tail.Some? then EvalExpr(b.tail.value, o.s, fuel)
    else Done(UnitV, o.s)
  }

  function EvalStmts(ss: seq<Stmt>, s: State, fuel: nat): Outcome
    decreases fuel, ss, 1
  {
    if ss == [] then Done(UnitV, s)
    else
      var o := EvalStmt(ss[0], s, fuel);
      if !o.Done? then o else EvalStmts(ss[1..], o.s, fuel)
  }

  function EvalStmt(st: Stmt, s: State, fuel: nat): Outcome
    decreases fuel, st, 1
  {
    match st
    case Let(x, m, _, value) =>
      var o := EvalExpr(value, s, fuel);
      if !o.Done? then o
      else if x in o.s then Stuck
      else Done(UnitV, o.s[x := Slot(o.v, m)])
    case Assign(x, value) =>
      var o := EvalExpr(value, s, fuel);
      if !o.Done? then o
      else if x !in o.s || !o.s[x].mutable then Stuck
      else Done(UnitV, o.s[x := Slot(o.v, true)])
    case ExprStmt(e) =>
      var o := EvalExpr(e, s, fuel);
      if !o.Done? then o else Done(UnitV, o.s)
    case While(_, _) => EvalWhile(st, s, fuel)
    case Break => Breaks(s)
    case Continue => Continues(s)
  }

  function EvalWhile(w: Stmt, s: State, fuel: nat): Outcome
    requires w.While?
    decreases fuel, w, 0
  {
    if fuel == 0 then OutOfFuel
    else
      var oc := EvalExpr(w.cond, s, fuel);
      if !oc.Done? then oc
      else if !oc.v.BoolV? then Stuck
      else if !oc.v.b then Done(UnitV, oc.s)
      else
        var ob := Leave(oc.s, EvalBlock(w.body, oc.s, fuel));
        match ob
        case Done(_, s') => EvalWhile(w, s', fuel - 1)
        case Continues(s') => EvalWhile(w, s', fuel - 1)
        case Breaks(s') => Done(UnitV, s')
        case _ => ob
  }
}
