/**
 What an IR expression can do besides having a value: leave by a jump, run a loop, or
 assign variables.
 */
module IrEffects {
  import opened Ir

  // ----- jumps -----

  /** No `break` or `continue` that would leave the expression. */
  predicate NoJump(e: Expr)
    decreases e, 1
  {
    match e
    case IntLit(_) => true
    case BoolLit(_) => true
    case Ident(_, _) => true
    case Binary(_, l, r, _) => NoJump(l) && NoJump(r)
    case Unary(_, a, _) => NoJump(a)
    case BlockExpr(b) => NoJumpBlock(b)
    case If(c, t, f, _) => NoJump(c) && NoJumpBlock(t) && (f.Some? ==> NoJump(f.value))
  }

  predicate NoJumpBlock(b: Block)
    decreases b
  {
    NoJumpStmts(b.stmts) && (b.tail.Some? ==> NoJump(b.tail.value))
  }

  predicate NoJumpStmts(ss: seq<Stmt>)
    decreases ss
  {
    ss == [] || (NoJumpStmt(ss[0]) && NoJumpStmts(ss[1..]))
  }

  predicate NoJumpStmt(s: Stmt)
    decreases s
  {
    match s
    case Let(_, _, _, v) => NoJump(v)
    case Assign(_, v) => NoJump(v)
    case ExprStmt(e) => NoJump(e)
    case While(c, _) => NoJump(c)
    case Break => false
    case Continue => false
  }

  ghost predicate Jumps(o: Outcome) { o.Breaks? || o.Continues? }

  lemma {:induction false} NoJumpExpr(e: Expr, s: State, fuel: nat)
    requires NoJump(e)
    ensures !Jumps(EvalExpr(e, s, fuel))
    decreases fuel, e, 1
  {
    match e
    case IntLit(_) =>
    case BoolLit(_) =>
    case Ident(_, _) =>
    case Binary(_, l, r, _) =>
      NoJumpExpr(l, s, fuel);
      var o := EvalExpr(l, s, fuel);
      if o.Done? { NoJumpExpr(r, o.s, fuel); }
    case Unary(_, a, _) => NoJumpExpr(a, s, fuel);
    case BlockExpr(b) => NoJumpBlockRun(b, s, fuel);
    case If(c, t, f, _) =>
      NoJumpExpr(c, s, fuel);
      var o := EvalExpr(c, s, fuel);
      if o.Done? {
        NoJumpBlockRun(t, o.s, fuel);
        if f.Some? { NoJumpExpr(f.value, o.s, fuel); }
      }
  }

  lemma {:induction false} NoJumpBlockRun(b: Block, s: State, fuel: nat)
    requires NoJumpBlock(b)
    ensures !Jumps(EvalBlock(b, s, fuel))
    decreases fuel, b, 0
  {
    NoJumpStmtsRun(b.stmts, s, fuel);
    var o := EvalStmts(b.stmts, s, fuel);
    if o.Done? && b.tail.Some? { NoJumpExpr(b.tail.value, o.s, fuel); }
  }

  lemma {:induction false} NoJumpStmtsRun(ss: seq<Stmt>, s: State, fuel: nat)
    requires NoJumpStmts(ss)
    ensures !Jumps(EvalStmts(ss, s, fuel))
    decreases fuel, ss, 0
  {
    if ss != [] {
      NoJumpStmtRun(ss[0], s, fuel);
      var o := EvalStmt(ss[0], s, fuel);
      if o.Done? { NoJumpStmtsRun(ss[1..], o.s, fuel); }
    }
  }

  lemma {:induction false} NoJumpStmtRun(st: Stmt, s: State, fuel: nat)
    requires NoJumpStmt(st)
    ensures !Jumps(EvalStmt(st, s, fuel))
    decreases fuel, st, 1
  {
    match st
    case Let(_, _, _, v) => NoJumpExpr(v, s, fuel);
    case Assign(_, v) => NoJumpExpr(v, s, fuel);
    case ExprStmt(e) => NoJumpExpr(e, s, fuel);
    case While(_, _) => NoJumpLoop(st, s, fuel);
  }

  /** A loop swallows the jumps of its body. */
  lemma {:induction false} NoJumpLoop(w: Stmt, s: State, fuel: nat)
    requires w.While? && NoJump(w.cond)
    ensures !Jumps(EvalWhile(w, s, fuel))
    decreases fuel, w, 0
  {
    if fuel > 0 {
      NoJumpExpr(w.cond, s, fuel);
      var oc := EvalExpr(w.cond, s, fuel);
      if oc.Done? && oc.v.BoolV? && oc.v.b {
        var ob := Leave(oc.s, EvalBlock(w.body, oc.s, fuel));
        if ob.Done? || ob.Continues? { NoJumpLoop(w, ob.s, fuel - 1); }
      }
    }
  }

  // ----- loops -----

  predicate Loopless(e: Expr)
    decreases e, 1
  {
    match e
    case IntLit(_) => true
    case BoolLit(_) => true
    case Ident(_, _) => true
    case Binary(_, l, r, _) => Loopless(l) && Loopless(r)
    case Unary(_, a, _) => Loopless(a)
    case BlockExpr(b) => LooplessBlock(b)
    case If(c, t, f, _) => Loopless(c) && LooplessBlock(t) && (f.Some? ==> Loopless(f.value))
  }

  predicate LooplessBlock(b: Block)
    decreases b
  {
    LooplessStmts(b.stmts) && (b.tail.Some? ==> Loopless(b.tail.value))
  }

  predicate LooplessStmts(ss: seq<Stmt>)
    decreases ss
  {
    ss == [] || (LooplessStmt(ss[0]) && LooplessStmts(ss[1..]))
  }

  predicate LooplessStmt(s: Stmt)
    decreases s
  {
    match s
    case Let(_, _, _, v) => Loopless(v)
    case Assign(_, v) => Loopless(v)
    case ExprStmt(e) => Loopless(e)
    case While(_, _) => false
    case Break => true
    case Continue => true
  }

  /** Without loops, every run ends. */
  lemma {:induction false} LooplessExpr(e: Expr, s: State, fuel: nat)
    requires Loopless(e)
    ensures EvalExpr(e, s, fuel) != OutOfFuel
    decreases e, 1
  {
    match e
    case IntLit(_) =>
    case BoolLit(_) =>
    case Ident(_, _) =>
    case Binary(_, l, r, _) =>
      LooplessExpr(l, s, fuel);
      var o := EvalExpr(l, s, fuel);
      if o.Done? { LooplessExpr(r, o.s, fuel); }
    case Unary(_, a, _) => LooplessExpr(a, s, fuel);
    case BlockExpr(b) => LooplessBlockRun(b, s, fuel);
    case If(c, t, f, _) =>
      LooplessExpr(c, s, fuel);
      var o := EvalExpr(c, s, fuel);
      if o.Done? {
        LooplessBlockRun(t, o.s, fuel);
        if f.Some? { LooplessExpr(f.value, o.s, fuel); }
      }
  }

  lemma {:induction false} LooplessBlockRun(b: Block, s: State, fuel: nat)
    requires LooplessBlock(b)
    ensures EvalBlock(b, s, fuel) != OutOfFuel
    decreases b, 0
  {
    LooplessStmtsRun(b.stmts, s, fuel);
    var o := EvalStmts(b.stmts, s, fuel);
    if o.Done? && b.tail.Some? { LooplessExpr(b.tail.value, o.s, fuel); }
  }

  lemma {:induction false} LooplessStmtsRun(ss: seq<Stmt>, s: State, fuel: nat)
    requires LooplessStmts(ss)
    ensures EvalStmts(ss, s, fuel) != OutOfFuel
    decreases ss, 0
  {
    if ss != [] {
      LooplessStmtRun(ss[0], s, fuel);
      var o := EvalStmt(ss[0], s, fuel);
      if o.Done? { LooplessStmtsRun(ss[1..], o.s, fuel); }
    }
  }

  lemma {:induction false} LooplessStmtRun(st: Stmt, s: State, fuel: nat)
    requires LooplessStmt(st)
    ensures EvalStmt(st, s, fuel) != OutOfFuel
    decreases st, 0
  {
    match st
    case Let(_, _, _, v) => LooplessExpr(v, s, fuel);
    case Assign(_, v) => LooplessExpr(v, s, fuel);
    case ExprStmt(e) => LooplessExpr(e, s, fuel);
    case Break =>
    case Continue =>
  }

  // ----- assignments -----

  /** Assigns no variable in `kept`. */
  predicate Keeps(e: Expr, kept: set<string>)
    decreases e, 1
  {
    match e
    case IntLit(_) => true
    case BoolLit(_) => true
    case Ident(_, _) => true
    case Binary(_, l, r, _) => Keeps(l, kept) && Keeps(r, kept)
    case Unary(_, a, _) => Keeps(a, kept)
    case BlockExpr(b) => KeepsBlock(b, kept)
    case If(c, t, f, _) => Keeps(c, kept) && KeepsBlock(t, kept) && (f.Some? ==> Keeps(f.value, kept))
  }

  predicate KeepsBlock(b: Block, kept: set<string>)
    decreases b
  {
    KeepsStmts(b.stmts, kept) && (b.tail.Some? ==> Keeps(b.tail.value, kept))
  }

  predicate KeepsStmts(ss: seq<Stmt>, kept: set<string>)
    decreases ss
  {
    ss == [] || (KeepsStmt(ss[0], kept) && KeepsStmts(ss[1..], kept))
  }

  predicate KeepsStmt(s: Stmt, kept: set<string>)
    decreases s
  {
    match s
    case Let(_, _, _, v) => Keeps(v, kept)
    case Assign(x, v) => x !in kept && Keeps(v, kept)
    case ExprStmt(e) => Keeps(e, kept)
    case While(c, b) => Keeps(c, kept) && KeepsBlock(b, kept)
    case Break => true
    case Continue => true
  }

  /** Every variable of `s` is still there, and those in `kept` have their values. */
  ghost predicate Agrees(s: State, s': State, kept: set<string>) {
    forall x :: x in s ==> x in s' && (x in kept ==> s'[x] == s[x])
  }

  /** However it ends in a state, that state agrees with `s`. */
  ghost predicate Spares(s: State, o: Outcome, kept: set<string>) {
    o.Done? || o.Panics? || o.Breaks? || o.Continues? ==> Agrees(s, o.s, kept)
  }

  lemma SparesTrans(s: State, mid: State, o: Outcome, kept: set<string>)
    requires Agrees(s, mid, kept) && Spares(mid, o, kept)
    ensures Spares(s, o, kept)
  {
  }

  lemma {:induction false} KeepsExpr(e: Expr, kept: set<string>, s: State, fuel: nat)
    requires Keeps(e, kept)
    ensures Spares(s, EvalExpr(e, s, fuel), kept)
    decreases fuel, e, 1
  {
    match e
    case IntLit(_) =>
    case BoolLit(_) =>
    case Ident(_, _) =>
    case Binary(_, l, r, _) =>
      KeepsExpr(l, kept, s, fuel);
      var o := EvalExpr(l, s, fuel);
      if o.Done? {
        KeepsExpr(r, kept, o.s, fuel);
        SparesTrans(s, o.s, EvalExpr(r, o.s, fuel), kept);
      }
    case Unary(_, a, _) => KeepsExpr(a, kept, s, fuel);
    case BlockExpr(b) => KeepsBlockRun(b, kept, s, fuel);
    case If(c, t, f, _) =>
      KeepsExpr(c, kept, s, fuel);
      var o := EvalExpr(c, s, fuel);
      if o.Done? {
        KeepsBlockRun(t, kept, o.s, fuel);
        SparesTrans(s, o.s, Leave(o.s, EvalBlock(t, o.s, fuel)), kept);
        if f.Some? {
          KeepsExpr(f.value, kept, o.s, fuel);
          SparesTrans(s, o.s, EvalExpr(f.value, o.s, fuel), kept);
        }
      }
  }

  lemma {:induction false} KeepsBlockRun(b: Block, kept: set<string>, s: State, fuel: nat)
    requires KeepsBlock(b, kept)
    ensures Spares(s, Leave(s, EvalBlock(b, s, fuel)), kept)
    decreases fuel, b, 1
  {
    KeepsStmtsRun(b.stmts, kept, s, fuel);
    var o := EvalStmts(b.stmts, s, fuel);
    if o.Done? && b.tail.Some? {
      KeepsExpr(b.tail.value, kept, o.s, fuel);
      SparesTrans(s, o.s, EvalExpr(b.tail.value, o.s, fuel), kept);
    }
  }

  lemma {:induction false} KeepsStmtsRun(ss: seq<Stmt>, kept: set<string>, s: State, fuel: nat)
    requires KeepsStmts(ss, kept)
    ensures Spares(s, EvalStmts(ss, s, fuel), kept)
    decreases fuel, ss, 1
  {
    if ss != [] {
      var o := EvalStmt(ss[0], s, fuel);
      KeepsStmtRun(ss[0], kept, s, fuel);
      if o.Done? {
        KeepsStmtsRun(ss[1..], kept, o.s, fuel);
        SparesTrans(s, o.s, EvalStmts(ss[1..], o.s, fuel), kept);
      }
    }
  }

  lemma {:induction false} KeepsStmtRun(st: Stmt, kept: set<string>, s: State, fuel: nat)
    requires KeepsStmt(st, kept)
    ensures Spares(s, EvalStmt(st, s, fuel), kept)
    decreases fuel, st, 1
  {
    match st
    case Let(_, _, _, v) => KeepsExpr(v, kept, s, fuel);
    case Assign(_, v) => KeepsExpr(v, kept, s, fuel);
    case ExprStmt(e) => KeepsExpr(e, kept, s, fuel);
    case While(_, _) => KeepsLoop(st, kept, s, fuel);
    case Break =>
    case Continue =>
  }

  lemma {:induction false} KeepsLoop(w: Stmt, kept: set<string>, s: State, fuel: nat)
    requires w.While? && KeepsStmt(w, kept)
    ensures Spares(s, EvalWhile(w, s, fuel), kept)
    decreases fuel, w, 0
  {
    if fuel > 0 {
      KeepsExpr(w.cond, kept, s, fuel);
      var oc := EvalExpr(w.cond, s, fuel);
      if oc.Done? && oc.v.BoolV? && oc.v.b {
        KeepsBlockRun(w.body, kept, oc.s, fuel);
        var ob := Leave(oc.s, EvalBlock(w.body, oc.s, fuel));
        SparesTrans(s, oc.s, ob, kept);
        if ob.Done? || ob.Continues? {
          KeepsLoop(w, kept, ob.s, fuel - 1);
          SparesTrans(s, ob.s, EvalWhile(w, ob.s, fuel - 1), kept);
        }
      }
    }
  }
}
