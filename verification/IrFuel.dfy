/**
 Fuel bounds the rounds of every loop and nothing else: once a run ends, more fuel does
 not change how it ends.  So a program has at most one outcome, and "diverges" means
 that it runs out of every amount of fuel.
 */
module IrFuel {
  import opened Ir

  lemma {:induction false} MoreFuelExpr(e: Expr, s: State, fuel: nat, more: nat)
    requires fuel <= more && !EvalExpr(e, s, fuel).OutOfFuel?
    ensures EvalExpr(e, s, more) == EvalExpr(e, s, fuel)
    decreases fuel, e, 1
  {
    match e
    case IntLit(_) =>
    case BoolLit(_) =>
    case Ident(_, _) =>
    case Binary(op, l, r, _) =>
      MoreFuelExpr(l, s, fuel, more);
      var o := EvalExpr(l, s, fuel);
      if o.Done? && !(IsLogical(op) && (!o.v.BoolV? || o.v.b == (op == Or))) {
        MoreFuelExpr(r, o.s, fuel, more);
      }
    case Unary(_, a, _) => MoreFuelExpr(a, s, fuel, more);
    case BlockExpr(b) => MoreFuelBlock(b, s, fuel, more);
    case If(c, t, f, _) =>
      MoreFuelExpr(c, s, fuel, more);
      var o := EvalExpr(c, s, fuel);
      if o.Done? && o.v.BoolV? {
        if o.v.b { MoreFuelBlock(t, o.s, fuel, more); }
        else if f.Some? { MoreFuelExpr(f.value, o.s, fuel, more); }
      }
  }

  lemma {:induction false} MoreFuelBlock(b: Block, s: State, fuel: nat, more: nat)
    requires fuel <= more && !EvalBlock(b, s, fuel).OutOfFuel?
    ensures EvalBlock(b, s, more) == EvalBlock(b, s, fuel)
    decreases fuel, b, 1
  {
    MoreFuelStmts(b.stmts, s, fuel, more);
    var o := EvalStmts(b.stmts, s, fuel);
    if o.Done? && b.tail.Some? { MoreFuelExpr(b.tail.value, o.s, fuel, more); }
  }

  lemma {:induction false} MoreFuelStmts(ss: seq<Stmt>, s: State, fuel: nat, more: nat)
    requires fuel <= more && !EvalStmts(ss, s, fuel).OutOfFuel?
    ensures EvalStmts(ss, s, more) == EvalStmts(ss, s, fuel)
    decreases fuel, ss, 1
  {
    if ss != [] {
      MoreFuelStmt(ss[0], s, fuel, more);
      var o := EvalStmt(ss[0], s, fuel);
      if o.Done? { MoreFuelStmts(ss[1..], o.s, fuel, more); }
    }
  }

  lemma {:induction false} MoreFuelStmt(st: Stmt, s: State, fuel: nat, more: nat)
    requires fuel <= more && !EvalStmt(st, s, fuel).OutOfFuel?
    ensures EvalStmt(st, s, more) == EvalStmt(st, s, fuel)
    decreases fuel, st, 1
  {
    match st
    case Let(_, _, _, v) => MoreFuelExpr(v, s, fuel, more);
    case Assign(_, v) => MoreFuelExpr(v, s, fuel, more);
    case ExprStmt(e) => MoreFuelExpr(e, s, fuel, more);
    case While(_, _) => MoreFuelLoop(st, s, fuel, more);
    case Break =>
    case Continue =>
  }

  lemma {:induction false} MoreFuelLoop(w: Stmt, s: State, fuel: nat, more: nat)
    requires w.While? && fuel <= more && !EvalWhile(w, s, fuel).OutOfFuel?
    ensures EvalWhile(w, s, more) == EvalWhile(w, s, fuel)
    decreases fuel, w, 0
  {
    MoreFuelExpr(w.cond, s, fuel, more);
    var oc := EvalExpr(w.cond, s, fuel);
    if oc.Done? && oc.v.BoolV? && oc.v.b {
      MoreFuelBlock(w.body, oc.s, fuel, more);
      var ob := Leave(oc.s, EvalBlock(w.body, oc.s, fuel));
      if ob.Done? || ob.Continues? { MoreFuelLoop(w, ob.s, fuel - 1, more - 1); }
    }
  }
}
