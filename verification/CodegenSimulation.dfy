/**
 The simulation proof: emitted code, run from a state that corresponds to the IR's,
 ends the same way in a corresponding state.
 */
module CodegenSimulation {
  import opened Wrappers
  import opened Ir
  import opened CTree
  import opened Codegen
  import opened CodegenCorrect
  import opened IrEffects

  /** Temporaries other than `t` are untouched. */
  ghost predicate OthersKept(cs: CState, cs': CState, t: Option<nat>) {
    forall n: nat {:trigger Tmp(n)} :: Some(n) != t ==>
      (Tmp(n) in cs <==> Tmp(n) in cs') && (Tmp(n) in cs ==> cs'[Tmp(n)] == cs[Tmp(n)])
  }

  /** The result of a braced piece of code that delivers its value in temporary `t`. */
  ghost predicate Delivers(env: Env, ty: Ty, o: Outcome, co: COutcome, cs: CState, t: Option<nat>) {
    match o
    case Done(v, s') =>
      Conforms(env, s') && HasTy(v, ty) && co.CDone? && Related(s', co.cs) && OthersKept(cs, co.cs, t) &&
      (t.Some? ==> Tmp(t.value) in co.cs &&
                   co.cs[Tmp(t.value)] == CCell(CTypeOf(ty), false, Some(Encode(v))))
    case Breaks(s') => Conforms(env, s') && co.CBreaks? && Related(s', co.cs) && OthersKept(cs, co.cs, t)
    case Continues(s') => Conforms(env, s') && co.CContinues? && Related(s', co.cs) && OthersKept(cs, co.cs, t)
    case Panics(_) => co == CPanics
    case OutOfFuel => co == COutOfFuel
    case Stuck => false
  }

  /** What is appended to a body: store the value in `t`, or evaluate and drop it. */
  function Sink(em: Emitted, t: Option<nat>): seq<CStmt> {
    if t.Some? then [Set(Tmp(t.value), em.val)] else Discard(em.val)
  }

  ghost predicate Target(cs: CState, k: nat, ty: Ty, t: Option<nat>) {
    t.Some? ==> t.value < k && ty != Unit && Tmp(t.value) in cs &&
                cs[Tmp(t.value)].ty == CTypeOf(ty) && !cs[Tmp(t.value)].isConst
  }

  lemma StoredEncoding(v: Val, ty: Ty)
    requires HasTy(v, ty) && ty != Unit
    ensures Stored(CTypeOf(ty), Encode(v)) == Some(Encode(v))
  {
  }

  /** Leaving a scope drops the same variables on both sides. */
  lemma LeaveRelated(env: Env, s: State, s': State, cs: CState, cs': CState)
    requires Conforms(env, s) && Related(s, cs) && Covers(env, s') && Related(s', cs')
    ensures Conforms(env, Restrict(s, s')) && Related(Restrict(s, s'), CRestrict(cs, cs'))
  {
    var r, cr := Restrict(s, s'), CRestrict(cs, cs');
    forall x | x in r ensures User(x) in cr && cr[User(x)] == CellOf(r[x]) {
      assert x in s && x in s';
      assert User(x) in cs && User(x) in cs';
    }
    forall x | User(x) in cr ensures x in r {
      assert User(x) in cs && User(x) in cs';
    }
  }

  lemma LeaveKept(cs: CState, cs': CState, k: nat, hi: nat, t: Option<nat>)
    requires Fresh(cs, k) && k <= hi
    requires forall n: nat {:trigger Tmp(n)} :: !(k <= n < hi) && Some(n) != t ==>
      (Tmp(n) in cs <==> Tmp(n) in cs') && (Tmp(n) in cs ==> cs'[Tmp(n)] == cs[Tmp(n)])
    ensures OthersKept(cs, CRestrict(cs, cs'), t)
  {
    var cr := CRestrict(cs, cs');
    forall n: nat {:trigger Tmp(n)} | Some(n) != t
      ensures (Tmp(n) in cs <==> Tmp(n) in cr) && (Tmp(n) in cs ==> cr[Tmp(n)] == cs[Tmp(n)])
    {
      if Tmp(n) in cs { assert n < k; }
    }
  }

  /** From the run of a body to the run of the braces around body and sink. */
  lemma SinkDelivers(env: Env, inner: Env, ty: Ty, s: State, o: Outcome, em: Emitted,
                     cs: CState, k: nat, fuel: nat, t: Option<nat>)
    requires Conforms(env, s) && Related(s, cs) && Fresh(cs, k) && em.next >= k
    requires forall x :: x in env ==> x in inner && inner[x] == env[x]
    requires Matches(env, inner, ty, o, em, Run(em.pre, cs, fuel), cs, k)
    requires Target(cs, k, ty, t)
    ensures Delivers(env, ty, Leave(s, o), CLeave(cs, Run(em.pre + Sink(em, t), cs, fuel)), cs, t)
  {
    var co := Run(em.pre, cs, fuel);
    RunConcat(em.pre, Sink(em, t), cs, fuel);
    match o
    case Done(v, s') =>
      SinkStep(em, v, ty, co.cs, fuel, t);
      var cs'' := Run(Sink(em, t), co.cs, fuel).cs;
      assert Covers(env, s');
      LeaveRelated(env, s, s', cs, cs'');
      LeaveKept(cs, cs'', k, em.next, t);
    case Breaks(s') =>
      LeaveRelated(env, s, s', cs, co.cs);
      LeaveKept(cs, co.cs, k, em.next, t);
    case Continues(s') =>
      LeaveRelated(env, s, s', cs, co.cs);
      LeaveKept(cs, co.cs, k, em.next, t);
    case Panics(_) =>
      if co.CDone? { RunOne(Sink(em, t)[0], co.cs, fuel); }
    case OutOfFuel =>
  }

  /** The sink itself: it stores the value, or evaluates it without effect. */
  lemma SinkStep(em: Emitted, v: Val, ty: Ty, cs: CState, fuel: nat, t: Option<nat>)
    requires HasTy(v, ty) && Denotes(em.val, cs, v)
    requires t.Some? ==> ty != Unit && Tmp(t.value) in cs &&
                         cs[Tmp(t.value)].ty == CTypeOf(ty) && !cs[Tmp(t.value)].isConst
    ensures Run(Sink(em, t), cs, fuel) ==
            CDone(if t.Some? then cs[Tmp(t.value) := CCell(CTypeOf(ty), false, Some(Encode(v)))] else cs)
  {
    if t.Some? {
      StoredEncoding(v, ty);
      RunOne(Set(Tmp(t.value), em.val), cs, fuel);
    } else if em.val != CVoid {
      RunOne(Do(em.val), cs, fuel);
    }
  }

  // ----- expressions -----

  /** The state a simulation step starts from. */
  ghost predicate Start(env: Env, s: State, cs: CState, k: nat) {
    Conforms(env, s) && Related(s, cs) && Fresh(cs, k)
  }

  /** Once the prelude has run, the C state corresponds to the one the text is read in. */
  ghost predicate AtText(env: Env, e: Expr, s: State, cs: CState, k: nat, fuel: nat) {
    var em, co, s' := Emit(e, k), Run(Emit(e, k).pre, cs, fuel), TextState(e, s, fuel);
    co.CDone? ==> Conforms(env, s') && Reaches(s', cs, co.cs, k, em.next)
  }

  lemma {:induction false} SimExpr(env: Env, e: Expr, s: State, cs: CState, k: nat, fuel: nat)
    requires TypedExpr(env, e) && Faithful(e) && Start(env, s, cs, k)
    ensures Matches(env, env, TyOf(e), EvalExpr(e, s, fuel), Emit(e, k), Run(Emit(e, k).pre, cs, fuel), cs, k)
    ensures AtText(env, e, s, cs, k, fuel)
    decreases fuel, e, 4
  {
    if e.Unary? {
      SimExpr(env, e.operand, s, cs, k, fuel);
      UnaryCases(env, e, s, cs, k, fuel);
    } else if e.Binary? && !IsLogical(e.op) {
      SimOperator(env, e, s, cs, k, fuel);
    } else {
      SimSettled(env, e, s, cs, k, fuel);
      SettledAtText(env, e, s, cs, k, fuel);
    }
  }

  /** Expressions whose text is a literal, a source variable or a temporary of their own. */
  lemma {:induction false} SimSettled(env: Env, e: Expr, s: State, cs: CState, k: nat, fuel: nat)
    requires (Settled(e) || e.Ident?) && TypedExpr(env, e) && Faithful(e) && Start(env, s, cs, k)
    ensures Matches(env, env, TyOf(e), EvalExpr(e, s, fuel), Emit(e, k), Run(Emit(e, k).pre, cs, fuel), cs, k)
    decreases fuel, e, 3
  {
    match e
    case IntLit(_) => SimLeaf(env, e, s, cs, k, fuel);
    case BoolLit(_) => SimLeaf(env, e, s, cs, k, fuel);
    case Ident(_, _) => SimLeaf(env, e, s, cs, k, fuel);
    case Binary(_, _, _, _) =>
      SimLogical(env, e, s, cs, k, fuel);
      LogicalMatches(env, e, s, cs, k, fuel);
    case BlockExpr(_) => SimBlockExpr(env, e, s, cs, k, fuel);
    case If(_, _, _, _) => SimIf(env, e, s, cs, k, fuel);
  }

  /** Such a text cannot panic. */
  lemma SettledAtText(env: Env, e: Expr, s: State, cs: CState, k: nat, fuel: nat)
    requires Settled(e) || e.Ident?
    requires Matches(env, env, TyOf(e), EvalExpr(e, s, fuel), Emit(e, k), Run(Emit(e, k).pre, cs, fuel), cs, k)
    ensures AtText(env, e, s, cs, k, fuel)
  {
    if Settled(e) { SettledShape(e, k); }
  }

  lemma SimLeaf(env: Env, e: Expr, s: State, cs: CState, k: nat, fuel: nat)
    requires e.IntLit? || e.BoolLit? || e.Ident?
    requires TypedExpr(env, e) && Start(env, s, cs, k)
    ensures Matches(env, env, TyOf(e), EvalExpr(e, s, fuel), Emit(e, k), Run(Emit(e, k).pre, cs, fuel), cs, k)
  {
  }

  lemma UnaryCases(env: Env, e: Expr, s: State, cs: CState, k: nat, fuel: nat)
    requires e.Unary? && TypedExpr(env, e) && AtText(env, e.operand, s, cs, k, fuel)
    requires var em := Emit(e.operand, k);
             Matches(env, env, TyOf(e), EvalExpr(e.operand, s, fuel), em, Run(em.pre, cs, fuel), cs, k)
    ensures Matches(env, env, TyOf(e), EvalExpr(e, s, fuel), Emit(e, k), Run(Emit(e, k).pre, cs, fuel), cs, k)
    ensures AtText(env, e, s, cs, k, fuel)
  {
  }

  /** The left text, evaluated after the right prelude, still has its value. */
  lemma LeftTextKept(l: Expr, k: nat, s1: State, s2: State, cs1: CState, cs2: CState, hi: nat)
    requires Settled(l) || Agrees(s1, s2, TextReads(l))
    requires var em := Emit(l, k);
             em.next <= hi && Related(s1, cs1) && Related(s2, cs2) &&
             TempsKept(cs1, cs2, em.next, hi) && Value(em.val, cs1) != CBad
    ensures Value(Emit(l, k).val, cs2) == Value(Emit(l, k).val, cs1)
  {
    if Settled(l) {
      SettledShape(l, k);
    } else {
      TextKept(l, k, s1, s2, cs1, cs2, hi);
      ValueKept(Emit(l, k).val, cs1, cs2);
    }
  }

  lemma LeftChainKept(l: Expr, k: nat, s1: State, s2: State, cs1: CState, cs2: CState, hi: nat)
    requires Settled(l) || Agrees(s1, s2, TextReads(l))
    requires var em := Emit(l, k);
             em.next <= hi && Related(s1, cs1) && Related(s2, cs2) &&
             TempsKept(cs1, cs2, em.next, hi) && BoolChain(em.val, cs1)
    ensures BoolChain(Emit(l, k).val, cs2)
  {
    if Settled(l) {
      SettledShape(l, k);
    } else {
      TextKept(l, k, s1, s2, cs1, cs2, hi);
      ChainKept(Emit(l, k).val, cs1, cs2);
    }
  }

  /** The parser groups an emitted comparison as the IR does, or to the same effect. */
  lemma ComparisonMeaning(env: Env, e: Expr, k: nat, cs: CState)
    requires e.Binary? && !IsLogical(e.op) && !IsArith(e.op) && TypedExpr(env, e)
    requires var el := Emit(e.left, k);
             TyOf(e.left) == Bool ==> BoolValued(el.val, cs) && BoolChain(Emit(e.right, el.next).val, cs)
    ensures var l := Emit(e.left, k).val;
            var r := Emit(e.right, Emit(e.left, k).next).val;
            Value(Splice(l, CmpOf(e.op), r), cs) == Value(CCmp(CmpOf(e.op), l, r), cs)
  {
    var el := Emit(e.left, k);
    var er := Emit(e.right, el.next);
    if TyOf(e.left) == Bool {
      SpliceOverBools(el.val, CmpOf(e.op), er.val, cs);
    } else {
      EmitShape(env, e.left, k);
      EmitShape(env, e.right, el.next);
      SpliceFlat(el.val, CmpOf(e.op), er.val);
    }
  }

  /** What the right operand's prelude cannot do to the left text. */
  lemma RightEffects(env: Env, l: Expr, r: Expr, k: nat, fuel: nat, ol: Outcome, col: COutcome, cs: CState, s1: State)
    requires MayRunFirst(l, r) && col.CDone? && EvalExpr(r, s1, fuel) != Stuck
    requires Matches(env, env, TyOf(l), ol, Emit(l, k), col, cs, k)
    ensures var or := EvalExpr(r, s1, fuel);
            (ol.Panics? ==> or.Done? || or.Panics?) &&
            (Settled(l) || Agrees(s1, TextState(r, s1, fuel), TextReads(l)))
  {
    if Settled(l) {
      SettledShape(l, k);
    } else {
      TextStateKeeps(r, TextReads(l), s1, fuel);
      if Calm(l) {
        CalmText(l, k);
        NoChecksNoPanic(Emit(l, k).val, col.cs);
      } else {
        NoJumpExpr(r, s1, fuel);
        LooplessExpr(r, s1, fuel);
      }
    }
  }

  lemma {:induction false} SimOperator(env: Env, e: Expr, s: State, cs: CState, k: nat, fuel: nat)
    requires e.Binary? && !IsLogical(e.op)
    requires TypedExpr(env, e) && Faithful(e) && Start(env, s, cs, k)
    ensures Matches(env, env, TyOf(e), EvalExpr(e, s, fuel), Emit(e, k), Run(Emit(e, k).pre, cs, fuel), cs, k)
    ensures AtText(env, e, s, cs, k, fuel)
    decreases fuel, e, 1
  {
    var l, r := e.left, e.right;
    var el := Emit(l, k);
    var er := Emit(r, el.next);
    var ol, s1 := EvalExpr(l, s, fuel), TextState(l, s, fuel);
    var col := Run(el.pre, cs, fuel);
    SimExpr(env, l, s, cs, k, fuel);
    RunConcat(el.pre, er.pre, cs, fuel);
    if col.CDone? {
      var or, s2 := EvalExpr(r, s1, fuel), TextState(r, s1, fuel);
      var cor := Run(er.pre, col.cs, fuel);
      SimExpr(env, r, s1, col.cs, el.next, fuel);
      SimChain(env, r, s1, col.cs, el.next, fuel);
      RightEffects(env, l, r, k, fuel, ol, col, cs, s1);
      OperatorCases(env, e, cs, k, ol, or, col, cor, s1, s2);
      TextStateDone(l, s, fuel);
      assert EvalExpr(e, s, fuel) == OperatorOutcome(e.op, ol, or);
      assert Run(Emit(e, k).pre, cs, fuel) == cor;
    }
  }

  /** Boolean text that does not begin by comparing integers is a chain over booleans. */
  ghost predicate ReadsAsChain(e: Expr, em: Emitted, co: COutcome) {
    TyOf(e) == Bool && !IntegersFirst(e) && co.CDone? ==> BoolChain(em.val, co.cs)
  }

  lemma {:induction false} SimChain(env: Env, e: Expr, s: State, cs: CState, k: nat, fuel: nat)
    requires TypedExpr(env, e) && Faithful(e) && Start(env, s, cs, k)
    ensures ReadsAsChain(e, Emit(e, k), Run(Emit(e, k).pre, cs, fuel))
    decreases fuel, e, 5
  {
    if IsEqualityNode(e) {
      if !IntegersFirst(e) { SimEqualities(env, e, s, cs, k, fuel); }
    } else if TyOf(e) == Bool {
      SimExpr(env, e, s, cs, k, fuel);
      EmitShape(env, e, k);
    }
  }

  lemma {:induction false} SimEqualities(env: Env, e: Expr, s: State, cs: CState, k: nat, fuel: nat)
    requires IsEqualityNode(e) && !IntegersFirst(e)
    requires TypedExpr(env, e) && Faithful(e) && Start(env, s, cs, k)
    ensures ReadsAsChain(e, Emit(e, k), Run(Emit(e, k).pre, cs, fuel))
    decreases fuel, e, 4
  {
    var l, r := e.left, e.right;
    var el := Emit(l, k);
    var er := Emit(r, el.next);
    var ol, s1 := EvalExpr(l, s, fuel), TextState(l, s, fuel);
    var col := Run(el.pre, cs, fuel);
    SimExpr(env, l, s, cs, k, fuel);
    SimChain(env, l, s, cs, k, fuel);
    RunConcat(el.pre, er.pre, cs, fuel);
    if col.CDone? {
      var cor := Run(er.pre, col.cs, fuel);
      SimExpr(env, r, s1, col.cs, el.next, fuel);
      SimChain(env, r, s1, col.cs, el.next, fuel);
      RightEffects(env, l, r, k, fuel, ol, col, cs, s1);
      if cor.CDone? {
        LeftChainKept(l, k, s1, TextState(r, s1, fuel), col.cs, cor.cs, er.next);
        ChainIsBool(el.val, cor.cs);
        SpliceOverBools(el.val, CmpOf(e.op), er.val, cor.cs);
      }
    }
  }

  /** How the outcomes of the operands make up the outcome of the operator. */
  function OperatorOutcome(op: BinOp, ol: Outcome, or: Outcome): Outcome
    requires !IsLogical(op)
  {
    if !ol.Done? then ol
    else if !or.Done? then or
    else Finish(BinaryValue(op, ol.v, or.v), or.s)
  }

  /** The text has the value of the outcome, or panics with it. */
  ghost predicate TextHas(text: CExpr, cs: CState, o: Outcome, ty: Ty) {
    match o
    case Done(v, _) => HasTy(v, ty) && Value(text, cs) == CVal(Encode(v))
    case Panics(_) => Value(text, cs) == CPanic
    case _ => false
  }

  lemma OperatorValue(env: Env, e: Expr, k: nat, ol: Outcome, or: Outcome, cs: CState)
    requires e.Binary? && !IsLogical(e.op) && TypedExpr(env, e)
    requires var el := Emit(e.left, k);
             var er := Emit(e.right, el.next);
             TextHas(el.val, cs, ol, TyOf(e.left)) && TextHas(er.val, cs, or, TyOf(e.right)) &&
             (IsEquality(e.op) && TyOf(e.left) == Bool ==> BoolChain(er.val, cs))
    ensures TextHas(Emit(e, k).val, cs, OperatorOutcome(e.op, ol, or), TyOf(e))
  {
    var el := Emit(e.left, k);
    var er := Emit(e.right, el.next);
    assert Emit(e, k).val == OperatorText(e.op, el.val, er.val);
    if !IsArith(e.op) { ComparisonMeaning(env, e, k, cs); }
    if ol.Done? && or.Done? {
      OperatorMeaning(e.op, el.val, er.val, ol.v, or.v, TyOf(e.left), cs);
    } else {
      OperatorPanics(e.op, el.val, er.val, cs);
    }
  }

  /** Two preludes in order, then a text with the value of the outcome. */
  lemma TextMatches(env: Env, ty: Ty, o: Outcome, tyR: Ty, or: Outcome, er: Emitted, em: Emitted,
                    cs: CState, cs1: CState, k: nat, mid: nat, cor: COutcome)
    requires k <= mid <= er.next && em.next == er.next && em.val != CVoid && ty != Unit
    requires TempsKept(cs, cs1, k, mid) && Matches(env, env, tyR, or, er, cor, cs1, mid)
    requires if cor.CDone? then TextHas(em.val, cor.cs, o, ty) && (o.Done? ==> or.Done? && o.s == or.s)
             else o == or || (o.Panics? && or.Panics?)
    ensures Matches(env, env, ty, o, em, cor, cs, k)
  {
    if cor.CDone? || cor.CBreaks? || cor.CContinues? {
      KeptTrans(cs, cs1, cor.cs, k, mid, er.next);
    }
  }

  lemma OperatorCases(env: Env, e: Expr, cs: CState, k: nat, ol: Outcome, or: Outcome, col: COutcome, cor: COutcome,
                      s1: State, s2: State)
    requires e.Binary? && !IsLogical(e.op) && TypedExpr(env, e) && Faithful(e)
    requires col.CDone? && (ol.Done? || ol.Panics?)
    requires Matches(env, env, TyOf(e.left), ol, Emit(e.left, k), col, cs, k)
    requires Matches(env, env, TyOf(e.right), or, Emit(e.right, Emit(e.left, k).next), cor, col.cs,
                     Emit(e.left, k).next)
    requires ReadsAsChain(e.right, Emit(e.right, Emit(e.left, k).next), cor)
    requires ol.Panics? ==> or.Done? || or.Panics?
    requires Settled(e.left) || Agrees(s1, s2, TextReads(e.left))
    requires Related(s1, col.cs) && (cor.CDone? ==> Related(s2, cor.cs))
    ensures Matches(env, env, TyOf(e), OperatorOutcome(e.op, ol, or), Emit(e, k), cor, cs, k)
  {
    var el := Emit(e.left, k);
    var er := Emit(e.right, el.next);
    var o := OperatorOutcome(e.op, ol, or);
    if cor.CDone? {
      assert TextHas(el.val, cor.cs, ol, TyOf(e.left)) by {
        LeftTextKept(e.left, k, s1, s2, col.cs, cor.cs, er.next);
      }
      OperatorValue(env, e, k, ol, or, cor.cs);
    }
    TextMatches(env, TyOf(e), o, TyOf(e.right), or, er, Emit(e, k), cs, col.cs, k, el.next, cor);
  }

  /** Declaring the next temporary gives a state in which the inner code can start. */
  lemma DeclareTemp(env: Env, ty: Ty, s: State, cs: CState, k: nat, init: Option<CExpr>, n: int, fuel: nat)
    requires Start(env, s, cs, k) && ty != Unit
    requires init.Some? ==> Value(init.value, cs) == CVal(n) && Stored(CTypeOf(ty), n) == Some(n)
    ensures var cs' := cs[Tmp(k) := CCell(CTypeOf(ty), false, if init.Some? then Some(n) else None)];
            Step(Decl(false, CTypeOf(ty), Tmp(k), init), cs, fuel) == CDone(cs') &&
            Start(env, s, cs', k + 1) && Target(cs', k + 1, ty, Some(k))
  {
  }

  /** From braces around inner code to the emitted expression they are part of. */
  lemma FromDelivers(env: Env, ty: Ty, o: Outcome, co: COutcome, cs: CState, cs1: CState,
                     k: nat, t: Option<nat>, em: Emitted)
    requires Fresh(cs, k) && Delivers(env, ty, o, co, cs1, t) && em.next >= k
    requires if t.None? then cs1 == cs && ty == Unit && em.val == CVoid
             else t == Some(k) && ty != Unit && em.val == CVar(Tmp(k)) && em.next > k &&
                  Tmp(k) in cs1 && cs1 == cs[Tmp(k) := cs1[Tmp(k)]]
    ensures Matches(env, env, ty, o, em, co, cs, k)
  {
  }

  lemma LeaveSame(env: Env, s: State, o: Outcome)
    requires Conforms(env, s)
    requires (o.Done? || o.Breaks? || o.Continues?) ==> Between(env, env, o.s)
    ensures !o.Panics? ==> Leave(s, o) == o
  {
    if o.Done? || o.Breaks? || o.Continues? { assert Restrict(s, o.s) == o.s; }
  }

  lemma RunTwo(a: CStmt, b: CStmt, cs: CState, fuel: nat)
    ensures Run([a, b], cs, fuel) ==
            var o := Step(a, cs, fuel); if o.CDone? then Step(b, o.cs, fuel) else o
  {
    assert [a, b] == [a] + [b];
    RunConcat([a], [b], cs, fuel);
    RunOne(a, cs, fuel);
    var o := Step(a, cs, fuel);
    if o.CDone? { RunOne(b, o.cs, fuel); }
  }

  /** Code that matches from an intermediate state matches from the first one. */
  lemma PrefixMatches(env: Env, inner: Env, ty: Ty, o: Outcome, em: Emitted, em': Emitted,
                      co: COutcome, cs: CState, cs1: CState, k: nat, mid: nat)
    requires k <= mid <= em.next && TempsKept(cs, cs1, k, mid)
    requires Matches(env, inner, ty, o, em, co, cs1, mid)
    requires em'.val == em.val && em'.next == em.next
    ensures Matches(env, inner, ty, o, em', co, cs, k)
  {
    if co.CDone? || co.CBreaks? || co.CContinues? {
      KeptTrans(cs, cs1, co.cs, k, mid, em.next);
    }
  }

  /** What `and`/`or` emits and how it evaluates, as values. */
  function LogicalEmitted(e: Expr, k: nat): Emitted
    requires e.Binary?
  {
    var el := Emit(e.left, k);
    var er := Emit(e.right, el.next + 1);
    Emitted(el.pre + LogicalTail(e.op, el, er), CVar(Tmp(el.next)), er.next)
  }

  function LogicalEval(e: Expr, s: State, fuel: nat): Outcome
    requires e.Binary?
  {
    var ol := EvalExpr(e.left, s, fuel);
    LogicalOutcome(e.op, ol, EvalExpr(e.right, if ol.Done? then ol.s else s, fuel))
  }

  lemma {:induction false} SimLogical(env: Env, e: Expr, s: State, cs: CState, k: nat, fuel: nat)
    requires e.Binary? && IsLogical(e.op) && TypedExpr(env, e) && Faithful(e) && Start(env, s, cs, k)
    ensures Matches(env, env, Bool, LogicalEval(e, s, fuel), LogicalEmitted(e, k),
                    Run(LogicalEmitted(e, k).pre, cs, fuel), cs, k)
    decreases fuel, e, 1
  {
    var el := Emit(e.left, k);
    var ol, col := EvalExpr(e.left, s, fuel), Run(el.pre, cs, fuel);
    SimExpr(env, e.left, s, cs, k, fuel);
    if Undecided(e.op, ol) { SimGuarded(env, e.right, ol.v.b, ol.s, col.cs, el.val, el.next, fuel); }
    LogicalBoth(env, e, s, cs, k, fuel);
  }

  /** The left side has a value that does not decide the result. */
  predicate Undecided(op: BinOp, ol: Outcome) { ol.Done? && ol.v.BoolV? && ol.v.b != (op == Or) }

  /** Running the guarded right side, from a result temporary that holds `b`, delivers its value. */
  ghost predicate GuardedRun(env: Env, r: Expr, b: bool, s: State, cs: CState, k: nat, fuel: nat) {
    var er := Emit(r, k + 1);
    var cs1 := cs[Tmp(k) := CCell(UInt8, false, Some(BoolInt(b)))];
    Delivers(env, Bool, EvalExpr(r, s, fuel),
             CLeave(cs1, Run(er.pre + Sink(er, Some(k)), cs1, fuel)), cs1, Some(k))
  }

  lemma LogicalBoth(env: Env, e: Expr, s: State, cs: CState, k: nat, fuel: nat)
    requires e.Binary? && IsLogical(e.op)
    requires var el := Emit(e.left, k);
             var ol, col := EvalExpr(e.left, s, fuel), Run(el.pre, cs, fuel);
             Matches(env, env, Bool, ol, el, col, cs, k) &&
             (Undecided(e.op, ol) ==> GuardedRun(env, e.right, ol.v.b, ol.s, col.cs, el.next, fuel))
    ensures Matches(env, env, Bool, LogicalEval(e, s, fuel), LogicalEmitted(e, k),
                    Run(LogicalEmitted(e, k).pre, cs, fuel), cs, k)
  {
    var el := Emit(e.left, k);
    var ol := EvalExpr(e.left, s, fuel);
    LogicalCases(env, e.op, cs, k, fuel, ol, Run(el.pre, cs, fuel), el, Emit(e.right, el.next + 1),
                 EvalExpr(e.right, if ol.Done? then ol.s else s, fuel));
  }

  /** The right side of `and`/`or`, once the left value is stored in the result temporary. */
  lemma {:induction false} SimGuarded(env: Env, r: Expr, b: bool, s: State, cs: CState, lv: CExpr, k: nat, fuel: nat)
    requires TypedExpr(env, r) && TyOf(r) == Bool && Faithful(r) && Start(env, s, cs, k)
    requires Value(lv, cs) == CVal(BoolInt(b))
    ensures GuardedRun(env, r, b, s, cs, k, fuel)
    decreases fuel, r, 6
  {
    DeclareTemp(env, Bool, s, cs, k, Some(lv), BoolInt(b), fuel);
    SimSunk(env, r, s, cs[Tmp(k) := CCell(UInt8, false, Some(BoolInt(b)))], k + 1, fuel, Some(k));
  }

  lemma LogicalMatches(env: Env, e: Expr, s: State, cs: CState, k: nat, fuel: nat)
    requires e.Binary? && IsLogical(e.op)
    requires Matches(env, env, Bool, LogicalEval(e, s, fuel), LogicalEmitted(e, k),
                     Run(LogicalEmitted(e, k).pre, cs, fuel), cs, k)
    ensures Matches(env, env, Bool, EvalExpr(e, s, fuel), Emit(e, k), Run(Emit(e, k).pre, cs, fuel), cs, k)
  {
    assert EvalExpr(e, s, fuel) == LogicalEval(e, s, fuel) && Emit(e, k) == LogicalEmitted(e, k);
  }

  /** How the outcomes of both sides make up the outcome of `and`/`or`. */
  function LogicalOutcome(op: BinOp, ol: Outcome, or: Outcome): Outcome {
    if !ol.Done? then ol
    else if !ol.v.BoolV? then Stuck
    else if ol.v.b == (op == Or) then ol
    else if or.Done? && !or.v.BoolV? then Stuck
    else or
  }

  /** The guard lets the right side run exactly when the left one does not decide. */
  lemma LogicalGuard(op: BinOp, b: bool, k: nat, er: Emitted, cs: CState, fuel: nat)
    requires IsLogical(op) && Tmp(k) in cs && cs[Tmp(k)].v == Some(BoolInt(b))
    ensures Step(IfElse(if op == And then CVar(Tmp(k)) else CNot(CVar(Tmp(k))),
                        er.pre + [Set(Tmp(k), er.val)], NoElse), cs, fuel) ==
            if b == (op == Or) then CDone(cs) else CLeave(cs, Run(er.pre + Sink(er, Some(k)), cs, fuel))
  {
    var guard := if op == And then CVar(Tmp(k)) else CNot(CVar(Tmp(k)));
    assert Value(CVar(Tmp(k)), cs) == CVal(BoolInt(b));
    assert Value(guard, cs) == CVal(BoolInt(b != (op == Or)));
    assert Sink(er, Some(k)) == [Set(Tmp(k), er.val)];
  }

  /** The left value goes to the result temporary, then the guard decides. */
  lemma TailRun(op: BinOp, b: bool, el: Emitted, er: Emitted, cs: CState, fuel: nat)
    requires IsLogical(op) && Tmp(el.next) !in cs && Value(el.val, cs) == CVal(BoolInt(b))
    ensures var cs1 := cs[Tmp(el.next) := CCell(UInt8, false, Some(BoolInt(b)))];
            Run(LogicalTail(op, el, er), cs, fuel) ==
            if b == (op == Or) then CDone(cs1)
            else CLeave(cs1, Run(er.pre + Sink(er, Some(el.next)), cs1, fuel))
  {
    var tail := LogicalTail(op, el, er);
    assert tail == [tail[0], tail[1]];
    RunTwo(tail[0], tail[1], cs, fuel);
    LogicalGuard(op, b, el.next, er, cs[Tmp(el.next) := CCell(UInt8, false, Some(BoolInt(b)))], fuel);
  }

  lemma TailDelivers(env: Env, op: BinOp, ol: Outcome, or: Outcome, el: Emitted, er: Emitted, cs: CState, fuel: nat)
    requires IsLogical(op) && ol.Done? && HasTy(ol.v, Bool) && Conforms(env, ol.s) && Related(ol.s, cs)
    requires Tmp(el.next) !in cs && Value(el.val, cs) == CVal(Encode(ol.v))
    requires ol.v.b != (op == Or) ==>
               var cs1 := cs[Tmp(el.next) := CCell(UInt8, false, Some(Encode(ol.v)))];
               var sink := er.pre + Sink(er, Some(el.next));
               Delivers(env, Bool, or, CLeave(cs1, Run(sink, cs1, fuel)), cs1, Some(el.next))
    ensures var cs1 := cs[Tmp(el.next) := CCell(UInt8, false, Some(Encode(ol.v)))];
            Delivers(env, Bool, LogicalOutcome(op, ol, or), Run(LogicalTail(op, el, er), cs, fuel), cs1, Some(el.next))
  {
    TailRun(op, ol.v.b, el, er, cs, fuel);
  }

  lemma LogicalCases(env: Env, op: BinOp, cs: CState, k: nat, fuel: nat, ol: Outcome, col: COutcome,
                     el: Emitted, er: Emitted, or: Outcome)
    requires IsLogical(op) && el.next >= k && er.next > el.next && col == Run(el.pre, cs, fuel)
    requires Matches(env, env, Bool, ol, el, col, cs, k)
    requires ol.Done? && ol.v.b != (op == Or) ==>
               var cs1 := col.cs[Tmp(el.next) := CCell(UInt8, false, Some(Encode(ol.v)))];
               var sink := er.pre + Sink(er, Some(el.next));
               Delivers(env, Bool, or, CLeave(cs1, Run(sink, cs1, fuel)), cs1, Some(el.next))
    ensures var em := Emitted(el.pre + LogicalTail(op, el, er), CVar(Tmp(el.next)), er.next);
            Matches(env, env, Bool, LogicalOutcome(op, ol, or), em, Run(em.pre, cs, fuel), cs, k)
  {
    var tail := LogicalTail(op, el, er);
    RunConcat(el.pre, tail, cs, fuel);
    if col.CDone? {
      if ol.Done? {
        var cs1 := col.cs[Tmp(el.next) := CCell(UInt8, false, Some(Encode(ol.v)))];
        var em := Emitted(tail, CVar(Tmp(el.next)), er.next);
        var o, co := LogicalOutcome(op, ol, or), Run(tail, col.cs, fuel);
        TailDelivers(env, op, ol, or, el, er, col.cs, fuel);
        FromDelivers(env, Bool, o, co, col.cs, cs1, el.next, Some(el.next), em);
        PrefixMatches(env, env, Bool, o, em, em.(pre := el.pre + tail), co, cs, col.cs, k, el.next);
      } else {
        assert Step(tail[0], col.cs, fuel) == CPanics;
      }
    }
  }

  /** An expression between braces, its value delivered in `t` or dropped. */
  lemma {:induction false} SimSunk(env: Env, e: Expr, s: State, cs: CState, k: nat, fuel: nat, t: Option<nat>)
    requires TypedExpr(env, e) && Faithful(e) && Start(env, s, cs, k) && Target(cs, k, TyOf(e), t)
    ensures var em := Emit(e, k);
            Delivers(env, TyOf(e), EvalExpr(e, s, fuel), CLeave(cs, Run(em.pre + Sink(em, t), cs, fuel)), cs, t)
    decreases fuel, e, 5
  {
    SimExpr(env, e, s, cs, k, fuel);
    SinkDelivers(env, env, TyOf(e), s, EvalExpr(e, s, fuel), Emit(e, k), cs, k, fuel, t);
    LeaveSame(env, s, EvalExpr(e, s, fuel));
  }

  lemma {:induction false} SimBlockExpr(env: Env, e: Expr, s: State, cs: CState, k: nat, fuel: nat)
    requires e.BlockExpr?
    requires TypedExpr(env, e) && Faithful(e) && Start(env, s, cs, k)
    ensures Matches(env, env, TyOf(e), EvalExpr(e, s, fuel), Emit(e, k), Run(Emit(e, k).pre, cs, fuel), cs, k)
    decreases fuel, e, 2
  {
    var b, em := e.block, Emit(e, k);
    var ty := BlockTy(b);
    var co := Run(em.pre, cs, fuel);
    if ty == Unit {
      SimBraces(env, b, s, cs, k, fuel, None);
      RunOne(em.pre[0], cs, fuel);
      FromDelivers(env, ty, EvalExpr(e, s, fuel), co, cs, cs, k, None, em);
    } else {
      DeclareTemp(env, ty, s, cs, k, None, 0, fuel);
      var cs1 := Step(em.pre[0], cs, fuel).cs;
      SimBraces(env, b, s, cs1, k + 1, fuel, Some(k));
      RunTwo(em.pre[0], em.pre[1], cs, fuel);
      FromDelivers(env, ty, EvalExpr(e, s, fuel), co, cs, cs1, k, Some(k), em);
    }
  }

  /** A block between braces, its value delivered in `t` or dropped. */
  lemma {:induction false} SimBraces(env: Env, b: Block, s: State, cs: CState, k: nat, fuel: nat, t: Option<nat>)
    requires TypedBlock(env, b) && FaithfulBlock(b) && Start(env, s, cs, k)
    requires Target(cs, k, BlockTy(b), t)
    ensures var eb := EmitBlock(b, k);
            Delivers(env, BlockTy(b), Leave(s, EvalBlock(b, s, fuel)),
                     CLeave(cs, Run(eb.pre + Sink(eb, t), cs, fuel)), cs, t)
    decreases fuel, b, 1
  {
    SimBlock(env, b, s, cs, k, fuel);
    AfterExtends(env, b.stmts);
    SinkDelivers(env, After(env, b.stmts), BlockTy(b), s, EvalBlock(b, s, fuel), EmitBlock(b, k), cs, k, fuel, t);
  }

  lemma {:induction false} SimBlock(env: Env, b: Block, s: State, cs: CState, k: nat, fuel: nat)
    requires TypedBlock(env, b) && FaithfulBlock(b) && Start(env, s, cs, k)
    ensures Matches(env, After(env, b.stmts), BlockTy(b), EvalBlock(b, s, fuel), EmitBlock(b, k),
                    Run(EmitBlock(b, k).pre, cs, fuel), cs, k)
    decreases fuel, b, 0
  {
    SimStmts(env, b.stmts, s, cs, k, fuel);
    var es := EmitStmts(b.stmts, k);
    var o, co := EvalStmts(b.stmts, s, fuel), Run(es.pre, cs, fuel);
    if b.tail.Some? {
      var et := Emit(b.tail.value, es.next);
      RunConcat(es.pre, et.pre, cs, fuel);
      if co.CDone? {
        var inner := After(env, b.stmts);
        AfterExtends(env, b.stmts);
        SimExpr(inner, b.tail.value, o.s, co.cs, es.next, fuel);
        PrefixMatches(env, inner, BlockTy(b), EvalExpr(b.tail.value, o.s, fuel), et, EmitBlock(b, k),
                      Run(et.pre, co.cs, fuel), cs, co.cs, k, es.next);
      }
    }
  }

  // ----- if -----

  /** The meaning of an `if` once its condition is known. */
  function EvalBranches(e: Expr, taken: bool, s: State, fuel: nat): Outcome
    requires e.If?
  {
    if taken then Leave(s, EvalBlock(e.thn, s, fuel))
    else if e.els.Some? then EvalExpr(e.els.value, s, fuel)
    else Done(UnitV, s)
  }

  lemma {:induction false} SimIf(env: Env, e: Expr, s: State, cs: CState, k: nat, fuel: nat)
    requires e.If?
    requires TypedExpr(env, e) && Faithful(e) && Start(env, s, cs, k)
    ensures Matches(env, env, TyOf(e), EvalExpr(e, s, fuel), Emit(e, k), Run(Emit(e, k).pre, cs, fuel), cs, k)
    decreases fuel, e, 2
  {
    var ec := Emit(e.cond, k);
    var ei := EmitBranches(e, ec.val, ec.next);
    SimExpr(env, e.cond, s, cs, k, fuel);
    var oc, cc := EvalExpr(e.cond, s, fuel), Run(ec.pre, cs, fuel);
    RunConcat(ec.pre, ei.pre, cs, fuel);
    if cc.CDone? {
      if oc.Done? {
        SimBranches(env, e, ec.val, oc.v.b, oc.s, cc.cs, ec.next, fuel);
        PrefixMatches(env, env, e.ty, EvalBranches(e, oc.v.b, oc.s, fuel), ei, Emit(e, k),
                      Run(ei.pre, cc.cs, fuel), cs, cc.cs, k, ec.next);
      } else {
        BranchesPanic(e, ec.val, cc.cs, ec.next, fuel);
      }
    }
  }

  /** A condition that panics makes the whole `if` panic. */
  lemma BranchesPanic(e: Expr, cond: CExpr, cs: CState, k: nat, fuel: nat)
    requires e.If? && Value(cond, cs) == CPanic && Fresh(cs, k)
    ensures Run(EmitBranches(e, cond, k).pre, cs, fuel) == CPanics
  {
    var ei := EmitBranches(e, cond, k);
    if e.ty == Unit {
      RunOne(ei.pre[0], cs, fuel);
    } else {
      RunTwo(ei.pre[0], ei.pre[1], cs, fuel);
      ValueKept(cond, cs, cs[Tmp(k) := CCell(CTypeOf(e.ty), false, None)]);
    }
  }

  /** The emitted `if` whose branches deliver their values in `t`. */
  function BranchCode(e: Expr, cond: CExpr, k: nat, t: Option<nat>): CStmt
    requires e.If?
  {
    var et := EmitBlock(e.thn, k);
    var els := if e.els.Some? then var ef := Emit(e.els.value, et.next); Else(ef.pre + Sink(ef, t)) else NoElse;
    IfElse(cond, et.pre + Sink(et, t), els)
  }

  lemma {:induction false} SimTaken(env: Env, e: Expr, cond: CExpr, taken: bool,
                                    s: State, cs: CState, k: nat, fuel: nat, t: Option<nat>)
    requires e.If? && TypedExpr(env, e) && Faithful(e) && Start(env, s, cs, k)
    requires Denotes(cond, cs, BoolV(taken)) && Target(cs, k, e.ty, t)
    ensures Delivers(env, e.ty, EvalBranches(e, taken, s, fuel), Step(BranchCode(e, cond, k, t), cs, fuel), cs, t)
    decreases fuel, e, 0
  {
    var et, code := EmitBlock(e.thn, k), BranchCode(e, cond, k, t);
    assert Value(cond, cs) == CVal(BoolInt(taken));
    if taken {
      SimBraces(env, e.thn, s, cs, k, fuel, t);
      assert Step(code, cs, fuel) == CLeave(cs, Run(et.pre + Sink(et, t), cs, fuel));
    } else if e.els.Some? {
      var ef := Emit(e.els.value, et.next);
      SimSunk(env, e.els.value, s, cs, et.next, fuel, t);
      assert Step(code, cs, fuel) == CLeave(cs, Run(ef.pre + Sink(ef, t), cs, fuel));
    }
  }

  lemma {:induction false} SimBranches(env: Env, e: Expr, cond: CExpr, taken: bool,
                                       s: State, cs: CState, k: nat, fuel: nat)
    requires e.If? && TypedExpr(env, e) && Faithful(e) && Start(env, s, cs, k)
    requires Denotes(cond, cs, BoolV(taken))
    ensures var ei := EmitBranches(e, cond, k);
            Matches(env, env, e.ty, EvalBranches(e, taken, s, fuel), ei, Run(ei.pre, cs, fuel), cs, k)
    decreases fuel, e, 1
  {
    var ei, o := EmitBranches(e, cond, k), EvalBranches(e, taken, s, fuel);
    var co := Run(ei.pre, cs, fuel);
    if e.ty == Unit {
      var code := BranchCode(e, cond, k, None);
      SimTaken(env, e, cond, taken, s, cs, k, fuel, None);
      assert ei.pre == [code];
      RunOne(code, cs, fuel);
      FromDelivers(env, e.ty, o, co, cs, cs, k, None, ei);
    } else {
      var decl, code := Decl(false, CTypeOf(e.ty), Tmp(k), None), BranchCode(e, cond, k + 1, Some(k));
      DeclareTemp(env, e.ty, s, cs, k, None, 0, fuel);
      var cs1 := Step(decl, cs, fuel).cs;
      ValueKept(cond, cs, cs1);
      SimTaken(env, e, cond, taken, s, cs1, k + 1, fuel, Some(k));
      assert ei.pre == [decl, code];
      RunTwo(decl, code, cs, fuel);
      FromDelivers(env, e.ty, o, co, cs, cs1, k, Some(k), ei);
    }
  }

  // ----- statements -----

  lemma {:induction false} SimStmts(env: Env, ss: seq<Stmt>, s: State, cs: CState, k: nat, fuel: nat)
    requires TypedStmts(env, ss) && FaithfulStmts(ss) && Start(env, s, cs, k)
    ensures Matches(env, After(env, ss), Unit, EvalStmts(ss, s, fuel), EmitStmts(ss, k),
                    Run(EmitStmts(ss, k).pre, cs, fuel), cs, k)
    decreases fuel, ss, 3
  {
    if ss != [] {
      var e0 := EmitStmt(ss[0], k);
      var env1 := Declare(env, ss[0]);
      var o, co := EvalStmt(ss[0], s, fuel), Run(e0.pre, cs, fuel);
      SimStmt(env, ss[0], s, cs, k, fuel);
      if co.CDone? {
        SimStmts(env1, ss[1..], o.s, co.cs, e0.next, fuel);
      }
      SequenceCases(env, ss, s, cs, k, fuel);
    }
  }

  /** First statement, then the rest. */
  lemma SequenceCases(env: Env, ss: seq<Stmt>, s: State, cs: CState, k: nat, fuel: nat)
    requires ss != [] && TypedStmts(env, ss)
    requires var e0 := EmitStmt(ss[0], k);
             var env1 := Declare(env, ss[0]);
             var o, co := EvalStmt(ss[0], s, fuel), Run(e0.pre, cs, fuel);
             Matches(env, env1, Unit, o, e0, co, cs, k) &&
             (co.CDone? ==>
                var es := EmitStmts(ss[1..], e0.next);
                o.Done? &&
                Matches(env1, After(env, ss), Unit, EvalStmts(ss[1..], o.s, fuel), es,
                        Run(es.pre, co.cs, fuel), co.cs, e0.next))
    ensures Matches(env, After(env, ss), Unit, EvalStmts(ss, s, fuel), EmitStmts(ss, k),
                    Run(EmitStmts(ss, k).pre, cs, fuel), cs, k)
  {
    var e0 := EmitStmt(ss[0], k);
    var env1 := Declare(env, ss[0]);
    var o := EvalStmt(ss[0], s, fuel);
    var rest := if o.Done? then EvalStmts(ss[1..], o.s, fuel) else o;
    assert EvalStmts(ss, s, fuel) == rest;
    AfterExtends(env1, ss[1..]);
    Sequence(env, env1, After(env, ss), o, rest, e0, EmitStmts(ss[1..], e0.next), cs, k, fuel);
  }

  /** One piece of code after another. */
  lemma Sequence(env: Env, env1: Env, inner: Env, o: Outcome, rest: Outcome, e0: Emitted, es: Emitted,
                 cs: CState, k: nat, fuel: nat)
    requires forall x :: x in env ==> x in env1 && env1[x] == env[x]
    requires forall x :: x in env1 ==> x in inner && inner[x] == env1[x]
    requires k <= e0.next <= es.next && (!o.Done? ==> rest == o)
    requires var co := Run(e0.pre, cs, fuel);
             Matches(env, env1, Unit, o, e0, co, cs, k) &&
             (co.CDone? ==> o.Done? && Matches(env1, inner, Unit, rest, es, Run(es.pre, co.cs, fuel), co.cs, e0.next))
    ensures var em := Emitted(e0.pre + es.pre, es.val, es.next);
            Matches(env, inner, Unit, rest, em, Run(em.pre, cs, fuel), cs, k)
  {
    var em, co := Emitted(e0.pre + es.pre, es.val, es.next), Run(e0.pre, cs, fuel);
    RunConcat(e0.pre, es.pre, cs, fuel);
    if co.CDone? {
      var co' := Run(es.pre, co.cs, fuel);
      assert Matches(env1, inner, Unit, rest, em, co', cs, k) by {
        PrefixMatches(env1, inner, Unit, rest, es, em, co', cs, co.cs, k, e0.next);
      }
      if rest.Breaks? || rest.Continues? { assert Covers(env, rest.s); }
    }
  }

  lemma {:induction false} SimStmt(env: Env, st: Stmt, s: State, cs: CState, k: nat, fuel: nat)
    requires TypedStmt(env, st) && FaithfulStmt(st) && Start(env, s, cs, k)
    ensures Matches(env, Declare(env, st), Unit, EvalStmt(st, s, fuel), EmitStmt(st, k),
                    Run(EmitStmt(st, k).pre, cs, fuel), cs, k)
    decreases fuel, st, 3
  {
    match st
    case Let(_, _, _, v) => SimStore(env, st, s, cs, k, fuel);
    case Assign(_, v) => SimStore(env, st, s, cs, k, fuel);
    case ExprStmt(e) =>
      SimExpr(env, e, s, cs, k, fuel);
      var ev := Emit(e, k);
      RunConcat(ev.pre, Discard(ev.val), cs, fuel);
      var co := Run(ev.pre, cs, fuel);
      if co.CDone? && ev.val != CVoid { RunOne(Do(ev.val), co.cs, fuel); }
    case While(_, _) =>
      var em := EmitStmt(st, k);
      SimLoop(env, st, s, cs, k, fuel);
      RunOne(em.pre[0], cs, fuel);
      FromDelivers(env, Unit, EvalStmt(st, s, fuel), Run(em.pre, cs, fuel), cs, cs, k, None, em);
    case Break => RunOne(CBreak, cs, fuel);
    case Continue => RunOne(CContinue, cs, fuel);
  }

  /** `let` and assignment: the value, then one store to a source variable. */
  lemma {:induction false} SimStore(env: Env, st: Stmt, s: State, cs: CState, k: nat, fuel: nat)
    requires st.Let? || st.Assign?
    requires TypedStmt(env, st) && FaithfulStmt(st) && Start(env, s, cs, k)
    ensures Matches(env, Declare(env, st), Unit, EvalStmt(st, s, fuel), EmitStmt(st, k),
                    Run(EmitStmt(st, k).pre, cs, fuel), cs, k)
    decreases fuel, st, 2
  {
    var ev, o := Emit(st.value, k), EvalExpr(st.value, s, fuel);
    SimExpr(env, st.value, s, cs, k, fuel);
    StoreMatches(env, st, s, o, cs, k, fuel);
    assert EmitStmt(st, k) == Emitted(ev.pre + [StoreOf(st, ev.val)], CVoid, ev.next);
    assert EvalStmt(st, s, fuel) == if o.Done? then Done(UnitV, Updated(st, o.v, o.s)) else o;
  }

  lemma StoreMatches(env: Env, st: Stmt, s: State, o: Outcome, cs: CState, k: nat, fuel: nat)
    requires (st.Let? || st.Assign?) && TypedStmt(env, st) && AtText(env, st.value, s, cs, k, fuel)
    requires var ev := Emit(st.value, k);
             Matches(env, env, TyOf(st.value), o, ev, Run(ev.pre, cs, fuel), cs, k)
    ensures var ev := Emit(st.value, k);
            var em := Emitted(ev.pre + [StoreOf(st, ev.val)], CVoid, ev.next);
            Matches(env, Declare(env, st), Unit, if o.Done? then Done(UnitV, Updated(st, o.v, o.s)) else o, em,
                    Run(em.pre, cs, fuel), cs, k)
  {
    var ev := Emit(st.value, k);
    var co, store := Run(ev.pre, cs, fuel), StoreOf(st, ev.val);
    RunConcat(ev.pre, [store], cs, fuel);
    if co.CDone? {
      RunOne(store, co.cs, fuel);
      if o.Done? { StoreRelated(env, st, o.v, ev.val, o.s, co.cs, fuel); }
    }
  }

  function StoreOf(st: Stmt, v: CExpr): CStmt
    requires st.Let? || st.Assign?
  {
    if st.Let? then Decl(!st.mutable, CTypeOf(st.ty), User(st.name), Some(v)) else Set(User(st.target), v)
  }

  function Updated(st: Stmt, v: Val, s: State): State
    requires st.Let? || st.Assign?
  {
    if st.Let? then s[st.name := Slot(v, st.mutable)] else s[st.target := Slot(v, true)]
  }

  /** The store has the effect of the IR's binding or assignment, and no other. */
  lemma StoreRelated(env: Env, st: Stmt, v: Val, cv: CExpr, s: State, cs: CState, fuel: nat)
    requires (st.Let? || st.Assign?) && TypedStmt(env, st)
    requires Conforms(env, s) && Related(s, cs) && HasTy(v, TyOf(st.value)) && Value(cv, cs) == CVal(Encode(v))
    ensures var s' := Updated(st, v, s);
            var co := Step(StoreOf(st, cv), cs, fuel);
            Conforms(Declare(env, st), s') && co.CDone? && Related(s', co.cs) &&
            forall n: nat :: (Tmp(n) in cs <==> Tmp(n) in co.cs) && (Tmp(n) in cs ==> co.cs[Tmp(n)] == cs[Tmp(n)])
  {
    StoredEncoding(v, TyOf(st.value));
  }

  /** Leaving an inner and an outer scope at once. */
  lemma OuterLeave(env: Env, ty: Ty, o: Outcome, co: COutcome, s: State, s1: State,
                   cs: CState, cs1: CState, k: nat, mid: nat)
    requires Start(env, s, cs, k) && Conforms(env, s1) && Related(s1, cs1) && TempsKept(cs, cs1, k, mid)
    requires Delivers(env, ty, o, CLeave(cs1, co), cs1, None)
    ensures Delivers(env, ty, o, CLeave(cs, co), cs, None)
  {
    forall x | x in cs ensures x in cs1 {
      match x
      case User(id) => assert id in s && id in env && id in s1;
      case Tmp(n) => assert n < k;
    }
    if co.CDone? || co.CBreaks? || co.CContinues? {
      var cr := CRestrict(cs, co.cs);
      assert cr == CRestrict(cs, CRestrict(cs1, co.cs));
      forall x | x in o.s ensures User(x) in cr && cr[User(x)] == CellOf(o.s[x]) {
        assert x in env && x in s;
      }
      forall n: nat {:trigger Tmp(n)}
        ensures (Tmp(n) in cs <==> Tmp(n) in cr) && (Tmp(n) in cs ==> cr[Tmp(n)] == cs[Tmp(n)])
      {
        if Tmp(n) in cs { assert n < k; }
      }
    }
  }

  /** Rounds of the IR loop and of `while (1)` correspond one to one. */
  lemma {:induction false} SimLoop(env: Env, w: Stmt, s: State, cs: CState, k: nat, fuel: nat)
    requires w.While? && TypedStmt(env, w) && FaithfulStmt(w) && Start(env, s, cs, k)
    ensures Delivers(env, Unit, EvalWhile(w, s, fuel), Loop(EmitStmt(w, k).pre[0], cs, fuel), cs, None)
    decreases fuel, w, 1
  {
    if fuel > 0 {
      SimRound(env, w, s, cs, k, fuel);
      var r := Round(w, s, fuel);
      if r.Done? || r.Continues? {
        var co := CLeave(cs, Run(EmitStmt(w, k).pre[0].body, cs, fuel));
        assert Fresh(co.cs, k);
        SimLoop(env, w, r.s, co.cs, k, fuel - 1);
      }
      RoundThenLoop(env, w, s, cs, k, fuel);
    }
  }

  /** One round, then the remaining ones. */
  lemma RoundThenLoop(env: Env, w: Stmt, s: State, cs: CState, k: nat, fuel: nat)
    requires w.While? && fuel > 0 && !Jumps(EvalExpr(w.cond, s, fuel))
    requires var loop := EmitStmt(w, k).pre[0];
             var r, co := Round(w, s, fuel), CLeave(cs, Run(loop.body, cs, fuel));
             Delivers(env, if r.Done? then BlockTy(w.body) else Unit, r, co, cs, None) &&
             (r.Done? || r.Continues? ==>
                Delivers(env, Unit, EvalWhile(w, r.s, fuel - 1), Loop(loop, co.cs, fuel - 1), co.cs, None))
    ensures Delivers(env, Unit, EvalWhile(w, s, fuel), Loop(EmitStmt(w, k).pre[0], cs, fuel), cs, None)
  {
  }

  /** One round: condition and body; a false condition ends the loop like a `break`. */
  function Round(w: Stmt, s: State, fuel: nat): Outcome
    requires w.While?
  {
    var oc := EvalExpr(w.cond, s, fuel);
    if !oc.Done? then oc
    else if !oc.v.BoolV? then Stuck
    else if !oc.v.b then Breaks(oc.s)
    else Leave(oc.s, EvalBlock(w.body, oc.s, fuel))
  }

  /** The prelude of a condition, the test, and what comes after it. */
  lemma TestThenRun(ec: Emitted, rest: seq<CStmt>, cs: CState, fuel: nat)
    ensures var co := Run(ec.pre, cs, fuel);
            Run(ec.pre + ([BreakUnless(ec.val)] + rest), cs, fuel) ==
            if !co.CDone? then co
            else match Value(ec.val, co.cs)
                 case CVal(n) => if n == 0 then CBreaks(co.cs) else Run(rest, co.cs, fuel)
                 case CPanic => CPanics
                 case CBad => Undefined
  {
    var co, test := Run(ec.pre, cs, fuel), BreakUnless(ec.val);
    RunConcat(ec.pre, [test] + rest, cs, fuel);
    if co.CDone? {
      RunConcat([test], rest, co.cs, fuel);
      RunOne(test, co.cs, fuel);
    }
  }

  lemma {:induction false} SimRound(env: Env, w: Stmt, s: State, cs: CState, k: nat, fuel: nat)
    requires w.While? && TypedStmt(env, w) && FaithfulStmt(w) && Start(env, s, cs, k)
    ensures var o := Round(w, s, fuel);
            Delivers(env, if o.Done? then BlockTy(w.body) else Unit, o,
                     CLeave(cs, Run(EmitStmt(w, k).pre[0].body, cs, fuel)), cs, None)
    ensures !Jumps(EvalExpr(w.cond, s, fuel))
    decreases fuel, w, 0
  {
    var ec := Emit(w.cond, k);
    var eb := EmitBlock(w.body, ec.next);
    var body := EmitStmt(w, k).pre[0].body;
    assert body == ec.pre + ([BreakUnless(ec.val)] + (eb.pre + Discard(eb.val)));
    SimExpr(env, w.cond, s, cs, k, fuel);
    NoJumpExpr(w.cond, s, fuel);
    TestThenRun(ec, eb.pre + Discard(eb.val), cs, fuel);
    var oc, cc := EvalExpr(w.cond, s, fuel), Run(ec.pre, cs, fuel);
    if cc.CDone? {
      var cs1 := cc.cs;
      if oc.Done? {
        if oc.v.b {
          SimBraces(env, w.body, oc.s, cs1, ec.next, fuel, None);
          var o, co := Leave(oc.s, EvalBlock(w.body, oc.s, fuel)), Run(eb.pre + Sink(eb, None), cs1, fuel);
          OuterLeave(env, BlockTy(w.body), o, co, s, oc.s, cs, cs1, k, ec.next);
          assert Round(w, s, fuel) == o && Run(body, cs, fuel) == co;
        } else {
          assert Run(body, cs, fuel) == CBreaks(cs1);
          LeaveRelated(env, s, oc.s, cs, cs1);
          LeaveSame(env, s, oc);
          LeaveKept(cs, cs1, k, ec.next, None);
        }
      }
    }
  }
}
