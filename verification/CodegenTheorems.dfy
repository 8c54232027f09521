/**
 What the code generator promises: emitted code means what the IR means.
 */
module CodegenTheorems {
  import opened Ir
  import opened CTree
  import opened Codegen
  import opened CodegenCorrect
  import opened CodegenSimulation

  /** The emitted code and its resulting expression, taken together, panic. */
  ghost predicate CodePanics(co: COutcome, val: CExpr) {
    co == CPanics || (co.CDone? && val != CVoid && Value(val, co.cs) == CPanic)
  }

  /** C code that ends in `co` and leaves its result in `val` behaves like `o`. */
  ghost predicate Preserves(o: Outcome, co: COutcome, val: CExpr, cs: CState, lo: nat, hi: nat) {
    && co != Undefined && o != Stuck
    && (o.Panics? <==> CodePanics(co, val))
    && (o.OutOfFuel? <==> co == COutOfFuel)
    && (o.Done? <==> co.CDone? && !CodePanics(co, val))
    && (o.Breaks? <==> co.CBreaks?)
    && (o.Continues? <==> co.CContinues?)
    && (o.Done? || o.Breaks? || o.Continues? ==> Related(o.s, co.cs))
    && (o.Done? ==> Denotes(val, co.cs, o.v))
    && (co.CDone? || co.CBreaks? || co.CContinues? ==> TempsKept(cs, co.cs, lo, hi))
  }

  /** Running what is emitted for a block gives the block's value and final state, panics
      and jumps exactly when the block does, runs out of fuel exactly when the block does,
      is never undefined, and writes only the temporaries drawn for it. */
  lemma BlockMeaningPreserved(env: Env, b: Block, s: State, cs: CState, k: nat, fuel: nat)
    requires TypedBlock(env, b) && FaithfulBlock(b) && Start(env, s, cs, k)
    ensures var em := EmitBlock(b, k);
            Preserves(EvalBlock(b, s, fuel), Run(em.pre, cs, fuel), em.val, cs, k, em.next)
  {
    SimBlock(env, b, s, cs, k, fuel);
  }

  lemma ExprMeaningPreserved(env: Env, e: Expr, s: State, cs: CState, k: nat, fuel: nat)
    requires TypedExpr(env, e) && Faithful(e) && Start(env, s, cs, k)
    ensures var em := Emit(e, k);
            Preserves(EvalExpr(e, s, fuel), Run(em.pre, cs, fuel), em.val, cs, k, em.next)
  {
    SimExpr(env, e, s, cs, k, fuel);
  }

  /** The C variables of a function's parameters on entry: no temporaries yet. */
  function Entry(s: State): CState {
    map n | n in (set x | x in s :: User(x)) :: CellOf(s[n.id])
  }

  lemma EntryStarts(env: Env, s: State)
    requires Conforms(env, s)
    ensures Start(env, s, Entry(s), 0)
  {
    forall x | x in s ensures User(x) in Entry(s) && Entry(s)[User(x)] == CellOf(s[x]) {
      assert User(x) in (set y | y in s :: User(y));
    }
  }

  /** The generator, started afresh on a function body, writes code that means the same
      in every entry state. */
  method CompileBody(env: Env, b: Block) returns (pre: seq<CStmt>, val: CExpr, temps: nat)
    requires TypedBlock(env, b) && FaithfulBlock(b)
    ensures forall s: State, fuel: nat :: Conforms(env, s) ==>
              Preserves(EvalBlock(b, s, fuel), Run(pre, Entry(s), fuel), val, Entry(s), 0, temps)
  {
    var g := new CodeGenerator();
    val := g.EmitBlockBody(b);
    pre, temps := g.out, g.tempCounter;
    assert pre == EmitBlock(b, 0).pre;
    forall s: State, fuel: nat | Conforms(env, s)
      ensures Preserves(EvalBlock(b, s, fuel), Run(pre, Entry(s), fuel), val, Entry(s), 0, temps)
    {
      EntryStarts(env, s);
      BlockMeaningPreserved(env, b, s, Entry(s), 0, fuel);
    }
  }
}
