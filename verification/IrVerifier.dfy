/**
 The structural verifier that runs once on lowered IR, on the modelled fragment: what
 it reports, and what a clean report guarantees about every run.
 */
module IrVerifier {
  import opened Wrappers
  import opened Ir
  import opened IrEffects

  datatype VerifyError =
    | BinaryTypeMismatch
    | UnaryTypeMismatch
    | BranchTypeMismatch
    | IfWithoutElseNotUnit
    | BreakOutsideLoop
    | ContinueOutsideLoop

  // ----- the errors of a tree, in the order in which they are pushed -----

  function ExprErrors(e: Expr, depth: nat): seq<VerifyError>
    decreases e, 1
  {
    match e
    case IntLit(_) => []
    case BoolLit(_) => []
    case Ident(_, _) => []
    case Binary(op, l, r, ty) =>
      ExprErrors(l, depth) + ExprErrors(r, depth) +
      (if ty == (if IsArith(op) then TyOf(l) else Bool) then [] else [BinaryTypeMismatch])
    case Unary(op, a, ty) =>
      ExprErrors(a, depth) + (if ty == (if op == Not then Bool else TyOf(a)) then [] else [UnaryTypeMismatch])
    case BlockExpr(b) => BlockErrors(b, depth)
    case If(c, t, f, ty) =>
      ExprErrors(c, depth) + BlockErrors(t, depth) +
      (if f.Some? then ExprErrors(f.value, depth) else []) + BranchErrors(BlockTy(t), f, ty)
  }

  /** The types of the branches against the type of the `if`. */
  function BranchErrors(thn: Ty, els: Option<Expr>, ty: Ty): seq<VerifyError> {
    match els
    case Some(fe) => if thn == ty && TyOf(fe) == ty then [] else [BranchTypeMismatch]
    case None => if ty == Unit then [] else [IfWithoutElseNotUnit]
  }

  function BlockErrors(b: Block, depth: nat): seq<VerifyError>
    decreases b
  {
    StmtsErrors(b.stmts, depth) + if b.tail.Some? then ExprErrors(b.tail.value, depth) else []
  }

  function StmtsErrors(ss: seq<Stmt>, depth: nat): seq<VerifyError>
    decreases ss
  {
    if ss == [] then [] else StmtErrors(ss[0], depth) + StmtsErrors(ss[1..], depth)
  }

  function StmtErrors(s: Stmt, depth: nat): seq<VerifyError>
    decreases s
  {
    match s
    case Let(_, _, _, v) => ExprErrors(v, depth)
    case Assign(_, v) => ExprErrors(v, depth)
    case ExprStmt(e) => ExprErrors(e, depth)
    case While(c, b) => ExprErrors(c, depth) + BlockErrors(b, depth + 1)
    case Break => if depth == 0 then [BreakOutsideLoop] else []
    case Continue => if depth == 0 then [ContinueOutsideLoop] else []
  }

  lemma Regroup<T>(start: seq<T>, a: seq<T>, b: seq<T>, c: seq<T>, d: seq<T>)
    ensures start + a + b + c + d == start + (a + b + c + d)
  {
  }

  // ----- the verifier: recursion that pushes onto a shared list -----

  class Verifier {
    var errors: seq<VerifyError>

    constructor ()
      ensures errors == []
    {
      errors := [];
    }

    method Push(e: VerifyError)
      modifies this
      ensures errors == old(errors) + [e]
    {
      errors := errors + [e];
    }

    method VerifyExpr(e: Expr, depth: nat)
      modifies this
      ensures errors == old(errors) + ExprErrors(e, depth)
      decreases e, 1
    {
      match e
      case IntLit(_) =>
      case BoolLit(_) =>
      case Ident(_, _) =>
      case Binary(op, l, r, ty) =>
        VerifyExpr(l, depth);
        VerifyExpr(r, depth);
        var expected := if IsArith(op) then TyOf(l) else Bool;
        if ty != expected { Push(BinaryTypeMismatch); }
      case Unary(op, a, ty) =>
        VerifyExpr(a, depth);
        var expected := if op == Not then Bool else TyOf(a);
        if ty != expected { Push(UnaryTypeMismatch); }
      case BlockExpr(b) => VerifyBlock(b, depth);
      case If(_, _, _, _) => VerifyIf(e, depth);
    }

    method VerifyIf(e: Expr, depth: nat)
      requires e.If?
      modifies this
      ensures errors == old(errors) + ExprErrors(e, depth)
      decreases e, 0
    {
      VerifyExpr(e.cond, depth);
      VerifyBlock(e.thn, depth);
      if e.els.Some? { VerifyExpr(e.els.value, depth); }
      CompareBranches(BlockTy(e.thn), e.els, e.ty);
      ghost var c, t := ExprErrors(e.cond, depth), BlockErrors(e.thn, depth);
      ghost var f := if e.els.Some? then ExprErrors(e.els.value, depth) else [];
      Regroup(old(errors), c, t, f, BranchErrors(BlockTy(e.thn), e.els, e.ty));
    }

    method CompareBranches(thn: Ty, els: Option<Expr>, ty: Ty)
      modifies this
      ensures errors == old(errors) + BranchErrors(thn, els, ty)
    {
      match els
      case Some(fe) => if thn != ty || TyOf(fe) != ty { Push(BranchTypeMismatch); }
      case None => if ty != Unit { Push(IfWithoutElseNotUnit); }
    }

    method VerifyBlock(b: Block, depth: nat)
      modifies this
      ensures errors == old(errors) + BlockErrors(b, depth)
      decreases b
    {
      var i := 0;
      ghost var done: seq<VerifyError> := [];
      assert b.stmts[0..] == b.stmts;
      while i < |b.stmts|
        invariant 0 <= i <= |b.stmts|
        invariant errors == old(errors) + done
        invariant StmtsErrors(b.stmts, depth) == done + StmtsErrors(b.stmts[i..], depth)
      {
        assert b.stmts[i..][1..] == b.stmts[i + 1..];
        VerifyStmt(b.stmts[i], depth);
        done := done + StmtErrors(b.stmts[i], depth);
        i := i + 1;
      }
      if b.tail.Some? { VerifyExpr(b.tail.value, depth); }
    }

    method VerifyStmt(s: Stmt, depth: nat)
      modifies this
      ensures errors == old(errors) + StmtErrors(s, depth)
      decreases s
    {
      match s
      case Let(_, _, _, v) => VerifyExpr(v, depth);
      case Assign(_, v) => VerifyExpr(v, depth);
      case ExprStmt(e) => VerifyExpr(e, depth);
      case While(c, b) =>
        VerifyExpr(c, depth);
        VerifyBlock(b, depth + 1);
      case Break => if depth == 0 { Push(BreakOutsideLoop); }
      case Continue => if depth == 0 { Push(ContinueOutsideLoop); }
    }
  }

  /** Verification of a function body starts outside every loop. */
  method Verify(body: Block) returns (ok: bool)
    ensures ok <==> BlockErrors(body, 0) == []
    ensures ok ==> forall s: State, fuel: nat :: !Jumps(EvalBlock(body, s, fuel))
  {
    var v := new Verifier();
    v.VerifyBlock(body, 0);
    ok := v.errors == [];
    if ok {
      forall s: State, fuel: nat ensures !Jumps(EvalBlock(body, s, fuel)) {
        CleanMeansNoJump(body, s, fuel);
      }
    }
  }

  // ----- what a clean report means -----

  /** A run of a verified function body never ends with a pending `break` or `continue`. */
  lemma CleanMeansNoJump(body: Block, s: State, fuel: nat)
    requires BlockErrors(body, 0) == []
    ensures !Jumps(EvalBlock(body, s, fuel))
  {
    CleanBlock(body);
    NoJumpBlockRun(body, s, fuel);
  }

  lemma {:induction false} CleanExpr(e: Expr)
    requires ExprErrors(e, 0) == []
    ensures NoJump(e)
    decreases e, 1
  {
    match e
    case IntLit(_) =>
    case BoolLit(_) =>
    case Ident(_, _) =>
    case Binary(_, l, r, _) => CleanExpr(l); CleanExpr(r);
    case Unary(_, a, _) => CleanExpr(a);
    case BlockExpr(b) => CleanBlock(b);
    case If(c, t, f, _) =>
      CleanExpr(c);
      CleanBlock(t);
      if f.Some? { CleanExpr(f.value); }
  }

  lemma {:induction false} CleanBlock(b: Block)
    requires BlockErrors(b, 0) == []
    ensures NoJumpBlock(b)
    decreases b, 0
  {
    CleanStmts(b.stmts);
    if b.tail.Some? { CleanExpr(b.tail.value); }
  }

  lemma {:induction false} CleanStmts(ss: seq<Stmt>)
    requires StmtsErrors(ss, 0) == []
    ensures NoJumpStmts(ss)
    decreases ss, 0
  {
    if ss != [] {
      CleanStmt(ss[0]);
      CleanStmts(ss[1..]);
    }
  }

  lemma {:induction false} CleanStmt(s: Stmt)
    requires StmtErrors(s, 0) == []
    ensures NoJumpStmt(s)
    decreases s, 0
  {
    match s
    case Let(_, _, _, v) => CleanExpr(v);
    case Assign(_, v) => CleanExpr(v);
    case ExprStmt(e) => CleanExpr(e);
    case While(c, _) => CleanExpr(c);
  }

  /** On well-typed trees the report is exact: it is clean if and only if no jump can
      leave the tree, so it never rejects a program for its types or its loops. */
  lemma {:induction false} ExactOnTypedExpr(env: Env, e: Expr, depth: nat)
    requires TypedExpr(env, e)
    ensures ExprErrors(e, depth) == [] <==> depth > 0 || NoJump(e)
    decreases e, 1
  {
    match e
    case IntLit(_) =>
    case BoolLit(_) =>
    case Ident(_, _) =>
    case Binary(_, l, r, _) => ExactOnTypedExpr(env, l, depth); ExactOnTypedExpr(env, r, depth);
    case Unary(_, a, _) => ExactOnTypedExpr(env, a, depth);
    case BlockExpr(b) => ExactOnTypedBlock(env, b, depth);
    case If(c, t, f, _) =>
      ExactOnTypedExpr(env, c, depth);
      ExactOnTypedBlock(env, t, depth);
      if f.Some? { ExactOnTypedExpr(env, f.value, depth); }
  }

  lemma {:induction false} ExactOnTypedBlock(env: Env, b: Block, depth: nat)
    requires TypedBlock(env, b)
    ensures BlockErrors(b, depth) == [] <==> depth > 0 || NoJumpBlock(b)
    decreases b, 0
  {
    ExactOnTypedStmts(env, b.stmts, depth);
    if b.tail.Some? { ExactOnTypedExpr(After(env, b.stmts), b.tail.value, depth); }
  }

  lemma {:induction false} ExactOnTypedStmts(env: Env, ss: seq<Stmt>, depth: nat)
    requires TypedStmts(env, ss)
    ensures StmtsErrors(ss, depth) == [] <==> depth > 0 || NoJumpStmts(ss)
    decreases ss, 0
  {
    if ss != [] {
      ExactOnTypedStmt(env, ss[0], depth);
      ExactOnTypedStmts(Declare(env, ss[0]), ss[1..], depth);
    }
  }

  lemma {:induction false} ExactOnTypedStmt(env: Env, s: Stmt, depth: nat)
    requires TypedStmt(env, s)
    ensures StmtErrors(s, depth) == [] <==> depth > 0 || NoJumpStmt(s)
    decreases s, 0
  {
    match s
    case Let(_, _, _, v) => ExactOnTypedExpr(env, v, depth);
    case Assign(_, v) => ExactOnTypedExpr(env, v, depth);
    case ExprStmt(e) => ExactOnTypedExpr(env, e, depth);
    case While(c, b) => ExactOnTypedExpr(env, c, depth); ExactOnTypedBlock(env, b, depth + 1);
    case Break =>
    case Continue =>
  }

  // ----- what is reported -----

  /** Errors of the parts are errors of the whole. */
  lemma PartsReported(e: Expr, depth: nat, error: VerifyError)
    ensures e.Binary? && (error in ExprErrors(e.left, depth) || error in ExprErrors(e.right, depth)) ==>
              error in ExprErrors(e, depth)
    ensures e.Unary? && error in ExprErrors(e.operand, depth) ==> error in ExprErrors(e, depth)
    ensures e.BlockExpr? && error in BlockErrors(e.block, depth) ==> error in ExprErrors(e, depth)
    ensures e.If? && (error in ExprErrors(e.cond, depth) || error in BlockErrors(e.thn, depth) ||
                      (e.els.Some? && error in ExprErrors(e.els.value, depth))) ==>
              error in ExprErrors(e, depth)
  {
  }

  /** Arithmetic must have the type of its left operand, every other operator is boolean. */
  lemma OperatorReport(op: BinOp, l: Expr, r: Expr, ty: Ty, depth: nat)
    requires ExprErrors(l, depth) == [] && ExprErrors(r, depth) == []
    ensures ExprErrors(Binary(op, l, r, ty), depth) ==
            if op in {Add, Sub, Mul, Div, Mod} && ty != TyOf(l) then [BinaryTypeMismatch]
            else if op in {Eq, Neq, Lt, Gt, LtEq, GtEq, And, Or} && ty != Bool then [BinaryTypeMismatch]
            else []
  {
    assert ExprErrors(l, depth) + ExprErrors(r, depth) == [];
  }

  lemma UnaryReport(a: Expr, ty: Ty, depth: nat)
    requires ExprErrors(a, depth) == []
    ensures ExprErrors(Unary(Not, a, ty), depth) == if ty != Bool then [UnaryTypeMismatch] else []
    ensures ExprErrors(Unary(Neg, a, ty), depth) == if ty != TyOf(a) then [UnaryTypeMismatch] else []
  {
  }

  /** Both branches must have the type of the `if`; without `else` it must be unit. */
  lemma BranchReport(c: Expr, t: Block, f: Option<Expr>, ty: Ty, depth: nat)
    requires ExprErrors(c, depth) == [] && BlockErrors(t, depth) == []
    requires f.Some? ==> ExprErrors(f.value, depth) == []
    ensures ExprErrors(If(c, t, f, ty), depth) ==
            if f.None? && ty != Unit then [IfWithoutElseNotUnit]
            else if f.Some? && (ty != BlockTy(t) || ty != TyOf(f.value)) then [BranchTypeMismatch]
            else []
  {
    var none: seq<VerifyError> := [];
    assert none + none + none == none;
  }

  /** A stray jump is reported by its name, and none is stray inside a loop. */
  lemma JumpReport(c: Expr, body: Block, depth: nat)
    requires ExprErrors(c, depth) == []
    ensures StmtErrors(Break, 0) == [BreakOutsideLoop] && StmtErrors(Continue, 0) == [ContinueOutsideLoop]
    ensures StmtErrors(Break, depth + 1) == [] && StmtErrors(Continue, depth + 1) == []
    ensures StmtErrors(While(c, body), depth) == BlockErrors(body, depth + 1)
  {
    assert [] + BlockErrors(body, depth + 1) == BlockErrors(body, depth + 1);
  }
}
