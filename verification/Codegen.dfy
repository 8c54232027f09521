/**
 Emission: an IR expression becomes prelude statements plus a C expression.

 `Emit` and its companions say what is emitted; the class `CodeGenerator` is the
 imperative generator, which appends to its output and draws temporaries from a
 counter. The statements between an opening and a closing brace are gathered in a
 fresh output that becomes one node of the enclosing one.
 */
module Codegen {
  import opened Wrappers
  import opened Ir
  import opened CTree
  import opened Sequences

  // ----- what is emitted -----

  /** Prelude, resulting C expression, and the first temporary not yet taken. */
  datatype Emitted = Emitted(pre: seq<CStmt>, val: CExpr, next: nat)

  function CTypeOf(ty: Ty): CTy { if ty == Ty.I32 then Int32 else UInt8 }

  function CmpOf(op: BinOp): CmpOp
    requires IsEquality(op) || IsRelational(op)
  {
    match op
    case Eq => CEq
    case Neq => CNe
    case Lt => CLt
    case Gt => CGt
    case LtEq => CLe
    case GtEq => CGe
  }

  function FnOf(op: BinOp): RtFn
    requires IsArith(op)
  {
    match op
    case Add => AddFn
    case Sub => SubFn
    case Mul => MulFn
    case Div => DivFn
    case Mod => ModFn
  }

  /** A call for arithmetic; comparisons are written without parentheses. */
  function OperatorText(op: BinOp, l: CExpr, r: CExpr): CExpr
    requires !IsLogical(op)
  {
    if IsArith(op) then CCall(FnOf(op), l, r) else Splice(l, CmpOf(op), r)
  }

  function UnaryText(op: UnaryOp, v: CExpr): CExpr { if op == Not then CNot(v) else CNeg(v) }

  /** A discarded result is still evaluated, unless it is `(void)0`. */
  function Discard(v: CExpr): seq<CStmt> { if v == CVoid then [] else [Do(v)] }

  /** The guarded right-hand side of `and`/`or`. */
  function LogicalTail(op: BinOp, el: Emitted, er: Emitted): seq<CStmt> {
    var t := Tmp(el.next);
    [Decl(false, UInt8, t, Some(el.val)),
     IfElse(if op == And then CVar(t) else CNot(CVar(t)), er.pre + [Set(t, er.val)], NoElse)]
  }

  function Emit(e: Expr, k: nat): (em: Emitted)
    ensures em.next >= k
    decreases e, 1
  {
    match e
    case IntLit(n) => Emitted([], CInt(n), k)
    case BoolLit(b) => Emitted([], CInt(BoolInt(b)), k)
    case Ident(x, _) => Emitted([], CVar(User(x)), k)
    case Binary(op, l, r, _) =>
      var el := Emit(l, k);
      if IsLogical(op) then
        var er := Emit(r, el.next + 1);
        Emitted(el.pre + LogicalTail(op, el, er), CVar(Tmp(el.next)), er.next)
      else
        var er := Emit(r, el.next);
        Emitted(el.pre + er.pre, OperatorText(op, el.val, er.val), er.next)
    case Unary(op, a, _) =>
      var ea := Emit(a, k);
      Emitted(ea.pre, UnaryText(op, ea.val), ea.next)
    case BlockExpr(b) =>
      if BlockTy(b) == Unit then
        var eb := EmitBlock(b, k);
        Emitted([Scope(eb.pre + Discard(eb.val))], CVoid, eb.next)
      else
        var eb := EmitBlock(b, k + 1);
        Emitted([Decl(false, CTypeOf(BlockTy(b)), Tmp(k), None),
                 Scope(eb.pre + [Set(Tmp(k), eb.val)])],
                CVar(Tmp(k)), eb.next)
    case If(c, _, _, _) =>
      var ec := Emit(c, k);
      var ei := EmitBranches(e, ec.val, ec.next);
      Emitted(ec.pre + ei.pre, ei.val, ei.next)
  }

  /** The `if` itself, once its condition has been emitted. */
  function EmitBranches(e: Expr, cond: CExpr, k: nat): (em: Emitted)
    requires e.If?
    ensures em.next >= k
    decreases e, 0
  {
    if e.ty == Unit then
      var et := EmitBlock(e.thn, k);
      var ef := if e.els.Some? then Emit(e.els.value, et.next) else Emitted([], CVoid, et.next);
      var els := if e.els.Some? then Else(ef.pre + Discard(ef.val)) else NoElse;
      Emitted([IfElse(cond, et.pre + Discard(et.val), els)], CVoid, ef.next)
    else
      var tmp := Tmp(k);
      var et := EmitBlock(e.thn, k + 1);
      var ef := if e.els.Some? then Emit(e.els.value, et.next) else Emitted([], CVoid, et.next);
      var els := if e.els.Some? then Else(ef.pre + [Set(tmp, ef.val)]) else NoElse;
      Emitted([Decl(false, CTypeOf(e.ty), tmp, None),
               IfElse(cond, et.pre + [Set(tmp, et.val)], els)],
              CVar(tmp), ef.next)
  }

  /** A block's statements, then its tail; the caller provides the braces. */
  function EmitBlock(b: Block, k: nat): (em: Emitted)
    ensures em.next >= k
    decreases b, 1
  {
    var es := EmitStmts(b.stmts, k);
    if b.tail.Some? then
      var et := Emit(b.tail.value, es.next);
      Emitted(es.pre + et.pre, et.val, et.next)
    else es
  }

  function EmitStmts(ss: seq<Stmt>, k: nat): (em: Emitted)
    ensures em.next >= k && em.val == CVoid
    decreases ss, 1
  {
    if ss == [] then Emitted([], CVoid, k)
    else
      var e0 := EmitStmt(ss[0], k);
      var es := EmitStmts(ss[1..], e0.next);
      Emitted(e0.pre + es.pre, CVoid, es.next)
  }

  function EmitStmt(s: Stmt, k: nat): (em: Emitted)
    ensures em.next >= k && em.val == CVoid
    decreases s, 1
  {
    match s
    case Let(x, mutable, ty, value) =>
      var ev := Emit(value, k);
      Emitted(ev.pre + [Decl(!mutable, CTypeOf(ty), User(x), Some(ev.val))], CVoid, ev.next)
    case Assign(x, value) =>
      var ev := Emit(value, k);
      Emitted(ev.pre + [Set(User(x), ev.val)], CVoid, ev.next)
    case ExprStmt(e) =>
      var ev := Emit(e, k);
      Emitted(ev.pre + Discard(ev.val), CVoid, ev.next)
    case While(c, b) =>
      var ec := Emit(c, k);
      var eb := EmitBlock(b, ec.next);
      Emitted([Forever(ec.pre + [BreakUnless(ec.val)] + eb.pre + Discard(eb.val))], CVoid, eb.next)
    case Break => Emitted([CBreak], CVoid, k)
    case Continue => Emitted([CContinue], CVoid, k)
  }

  lemma EmitStmtsStep(ss: seq<Stmt>, i: nat, k: nat)
    requires i < |ss|
    ensures var e0 := EmitStmt(ss[i], k);
            var es := EmitStmts(ss[i + 1..], e0.next);
            EmitStmts(ss[i..], k) == Emitted(e0.pre + es.pre, CVoid, es.next)
  {
    assert ss[i..][1..] == ss[i + 1..];
  }

  // ----- the generator -----

  /** Statements written so far at the current nesting, and temporaries taken. */
  class CodeGenerator {
    var out: seq<CStmt>
    var tempCounter: nat

    constructor ()
      ensures out == [] && tempCounter == 0
    {
      out, tempCounter := [], 0;
    }

    twostate predicate Wrote(em: Emitted)
      reads this
    {
      tempCounter == em.next && out == old(out) + em.pre
    }

    method Line(s: CStmt)
      modifies this`out
      ensures out == old(out) + [s]
    {
      out := out + [s];
    }

    method FreshTmp() returns (x: Name)
      modifies this`tempCounter
      ensures x == Tmp(old(tempCounter)) && tempCounter == old(tempCounter) + 1
    {
      x := Tmp(tempCounter);
      tempCounter := tempCounter + 1;
    }

    method EmitExpr(e: Expr) returns (v: CExpr)
      modifies this
      ensures v == Emit(e, old(tempCounter)).val
      ensures Wrote(Emit(e, old(tempCounter)))
      decreases e, 2
    {
      match e
      case IntLit(n) => v := CInt(n);
      case BoolLit(b) => v := CInt(if b then 1 else 0);
      case Ident(x, _) => v := CVar(User(x));
      case Binary(_, _, _, _) => v := EmitBinaryOp(e);
      case Unary(op, a, _) =>
        v := EmitExpr(a);
        v := UnaryText(op, v);
      case BlockExpr(_) => v := EmitBlockExpr(e);
      case If(_, _, _, _) => v := EmitIf(e);
    }

    method EmitBinaryOp(e: Expr) returns (v: CExpr)
      requires e.Binary?
      modifies this
      ensures v == Emit(e, old(tempCounter)).val
      ensures Wrote(Emit(e, old(tempCounter)))
      decreases e, 1
    {
      ghost var el := Emit(e.left, tempCounter);
      var lv := EmitExpr(e.left);
      if IsLogical(e.op) {
        v := EmitGuardedRight(e.op, el, e.right, lv);
        Associative(old(out), el.pre, LogicalTail(e.op, el, Emit(e.right, el.next + 1)));
      } else {
        var rv := EmitExpr(e.right);
        Associative(old(out), el.pre, Emit(e.right, el.next).pre);
        v := OperatorText(e.op, lv, rv);
      }
    }

    /** The right side of `and`/`or`, after the left side `el` has been emitted. */
    method EmitGuardedRight(op: BinOp, ghost el: Emitted, r: Expr, lv: CExpr) returns (v: CExpr)
      requires IsLogical(op) && lv == el.val && tempCounter == el.next
      modifies this
      ensures v == CVar(Tmp(el.next)) && tempCounter == Emit(r, el.next + 1).next
      ensures out == old(out) + LogicalTail(op, el, Emit(r, el.next + 1))
      decreases r, 3
    {
      var t := FreshTmp();
      v := CVar(t);
      Line(Decl(false, UInt8, t, Some(lv)));
      var saved := out;
      out := [];
      var rv := EmitExpr(r);
      Line(Set(t, rv));
      assert out == Emit(r, el.next + 1).pre + [Set(t, rv)];
      out := saved + [IfElse(if op == And then v else CNot(v), out, NoElse)];
    }

    method EmitBlockExpr(e: Expr) returns (v: CExpr)
      requires e.BlockExpr?
      modifies this
      ensures v == Emit(e, old(tempCounter)).val
      ensures Wrote(Emit(e, old(tempCounter)))
      decreases e, 1
    {
      var b := e.block;
      if BlockTy(b) == Unit {
        var saved := out;
        out := [];
        v := EmitBlockBody(b);
        EmitDiscard(v);
        assert out == EmitBlock(b, old(tempCounter)).pre + Discard(v);
        out := saved + [Scope(out)];
        v := CVoid;
      } else {
        var t := FreshTmp();
        Line(Decl(false, CTypeOf(BlockTy(b)), t, None));
        var saved := out;
        out := [];
        v := EmitBlockBody(b);
        Line(Set(t, v));
        assert out == EmitBlock(b, old(tempCounter) + 1).pre + [Set(t, v)];
        out := saved + [Scope(out)];
        v := CVar(t);
      }
    }

    method EmitIf(e: Expr) returns (v: CExpr)
      requires e.If?
      modifies this
      ensures v == Emit(e, old(tempCounter)).val
      ensures Wrote(Emit(e, old(tempCounter)))
      decreases e, 1
    {
      var cond := EmitExpr(e.cond);
      if e.ty == Unit {
        EmitUnitBranches(e, cond);
        v := CVoid;
      } else {
        v := EmitValuedBranches(e, cond);
      }
    }

    method EmitUnitBranches(e: Expr, cond: CExpr)
      requires e.If? && e.ty == Unit
      modifies this
      ensures Wrote(EmitBranches(e, cond, old(tempCounter)))
      decreases e, 0
    {
      var saved := out;
      out := [];
      var v := EmitBlockBody(e.thn);
      EmitDiscard(v);
      ghost var et := EmitBlock(e.thn, old(tempCounter));
      assert out == et.pre + Discard(et.val);
      var thn, els := out, NoElse;
      if e.els.Some? {
        out := [];
        v := EmitExpr(e.els.value);
        EmitDiscard(v);
        assert out == Emit(e.els.value, et.next).pre + Discard(v);
        els := Else(out);
      }
      out := saved + [IfElse(cond, thn, els)];
    }

    method EmitValuedBranches(e: Expr, cond: CExpr) returns (v: CExpr)
      requires e.If? && e.ty != Unit
      modifies this
      ensures v == EmitBranches(e, cond, old(tempCounter)).val
      ensures Wrote(EmitBranches(e, cond, old(tempCounter)))
      decreases e, 0
    {
      var saved := out;
      var t := FreshTmp();
      out := [];
      v := EmitBlockBody(e.thn);
      Line(Set(t, v));
      ghost var et := EmitBlock(e.thn, old(tempCounter) + 1);
      assert out == et.pre + [Set(t, et.val)];
      var thn, els := out, NoElse;
      if e.els.Some? {
        out := [];
        v := EmitExpr(e.els.value);
        Line(Set(t, v));
        assert out == Emit(e.els.value, et.next).pre + [Set(t, v)];
        els := Else(out);
      }
      out := saved + [Decl(false, CTypeOf(e.ty), t, None), IfElse(cond, thn, els)];
      v := CVar(t);
    }

    method EmitDiscard(v: CExpr)
      modifies this`out
      ensures out == old(out) + Discard(v)
    {
      if v != CVoid { Line(Do(v)); }
    }

    method EmitBlockBody(b: Block) returns (v: CExpr)
      modifies this
      ensures v == EmitBlock(b, old(tempCounter)).val
      ensures Wrote(EmitBlock(b, old(tempCounter)))
      decreases b, 0
    {
      ghost var es := EmitStmts(b.stmts, tempCounter);
      EmitStatements(b.stmts);
      v := CVoid;
      if b.tail.Some? {
        v := EmitExpr(b.tail.value);
        Associative(old(out), es.pre, Emit(b.tail.value, es.next).pre);
      }
    }

    method EmitStatements(ss: seq<Stmt>)
      modifies this
      ensures Wrote(EmitStmts(ss, old(tempCounter)))
      decreases ss, 2
    {
      var i := 0;
      ghost var all := EmitStmts(ss, tempCounter);
      ghost var done: seq<CStmt> := [];
      assert ss[0..] == ss;
      while i < |ss|
        invariant 0 <= i <= |ss|
        invariant out == old(out) + done
        invariant all.pre == done + EmitStmts(ss[i..], tempCounter).pre
        invariant all.next == EmitStmts(ss[i..], tempCounter).next
      {
        ghost var e0 := EmitStmt(ss[i], tempCounter);
        EmitStmtsStep(ss, i, tempCounter);
        Associative(done, e0.pre, EmitStmts(ss[i + 1..], e0.next).pre);
        EmitStatement(ss[i]);
        Associative(old(out), done, e0.pre);
        done := done + e0.pre;
        i := i + 1;
      }
    }

    method EmitStatement(s: Stmt)
      modifies this
      ensures Wrote(EmitStmt(s, old(tempCounter)))
      decreases s, 1
    {
      match s
      case Let(x, mutable, ty, value) =>
        var v := EmitExpr(value);
        Line(Decl(!mutable, CTypeOf(ty), User(x), Some(v)));
      case Assign(x, value) =>
        var v := EmitExpr(value);
        Line(Set(User(x), v));
      case ExprStmt(e) =>
        var v := EmitExpr(e);
        EmitDiscard(v);
      case While(c, b) =>
        var saved := out;
        out := [];
        var cv := EmitExpr(c);
        Line(BreakUnless(cv));
        var v := EmitBlockBody(b);
        EmitDiscard(v);
        ghost var ec := Emit(c, old(tempCounter));
        assert out == ec.pre + [BreakUnless(cv)] + EmitBlock(b, ec.next).pre + Discard(v);
        out := saved + [Forever(out)];
      case Break => Line(CBreak);
      case Continue => Line(CContinue);
    }
  }
}
