/**
 Emission preserves meaning: running the emitted C does what the IR does.
 */
module CodegenCorrect {
  import opened Wrappers
  import opened Ir
  import opened CTree
  import opened Codegen
  import opened IrEffects
  import A = CheckedArith

  // ----- the fragment on which the generator is right -----

  /** The emitted expression is a literal or a temporary of its own. */
  predicate Settled(e: Expr) {
    e.IntLit? || e.BoolLit? || (e.Binary? && IsLogical(e.op)) || e.BlockExpr? || e.If?
  }

  /** The emitted expression cannot panic: it has no checked arithmetic of its own. */
  predicate Calm(e: Expr) {
    match e
    case IntLit(_) => true
    case BoolLit(_) => true
    case Ident(_, _) => true
    case Binary(op, l, r, _) => IsLogical(op) || (!IsArith(op) && Calm(l) && Calm(r))
    case Unary(op, a, _) => op == Not && Calm(a)
    case BlockExpr(_) => true
    case If(_, _, _, _) => true
  }

  /** Is the node itself an equality test? */
  predicate IsEqualityNode(e: Expr) { e.Binary? && IsEquality(e.op) }

  /** An equality test, without parentheses, that begins by comparing integers. */
  predicate IntegersFirst(e: Expr) {
    e.Binary? && IsEquality(e.op) && (TyOf(e.left) == I32 || IntegersFirst(e.left))
  }

  /** The variables that the emitted expression reads; all else is in its prelude. */
  function TextReads(e: Expr): set<string> {
    match e
    case Ident(x, _) => {x}
    case Binary(op, l, r, _) => if IsLogical(op) then {} else TextReads(l) + TextReads(r)
    case Unary(_, a, _) => TextReads(a)
    case _ => {}
  }

  /** The prelude of `r` may run before the text of `l` is evaluated: the text is settled,
      or `r` assigns no variable that it reads and either the text cannot panic or `r` is
      sure to go on to it. */
  predicate MayRunFirst(l: Expr, r: Expr) {
    Settled(l) || (Keeps(r, TextReads(l)) && (Calm(l) || (NoJump(r) && Loopless(r))))
  }

  /** The programs the generator translates faithfully.  The three restrictions mirror
      three shortcuts of the generator: the prelude of a right operand runs before the
      text of the left one; a `break` in a loop condition lands in the emitted
      `while (1)`; comparisons are written without parentheses. */
  predicate Faithful(e: Expr)
    decreases e, 1
  {
    match e
    case IntLit(_) => true
    case BoolLit(_) => true
    case Ident(_, _) => true
    case Binary(op, l, r, _) =>
      Faithful(l) && Faithful(r) &&
      (IsLogical(op) || MayRunFirst(l, r)) &&
      (IsEquality(op) ==> !IntegersFirst(r))
    case Unary(_, a, _) => Faithful(a)
    case BlockExpr(b) => FaithfulBlock(b)
    case If(c, t, f, _) => Faithful(c) && FaithfulBlock(t) && (f.Some? ==> Faithful(f.value))
  }

  predicate FaithfulBlock(b: Block)
    decreases b
  {
    FaithfulStmts(b.stmts) && (b.tail.Some? ==> Faithful(b.tail.value))
  }

  predicate FaithfulStmts(ss: seq<Stmt>)
    decreases ss
  {
    ss == [] || (FaithfulStmt(ss[0]) && FaithfulStmts(ss[1..]))
  }

  predicate FaithfulStmt(s: Stmt)
    decreases s
  {
    match s
    case Let(_, _, _, v) => Faithful(v)
    case Assign(_, v) => Faithful(v)
    case ExprStmt(e) => Faithful(e)
    case While(c, b) => Faithful(c) && NoJump(c) && FaithfulBlock(b)
    case Break => true
    case Continue => true
  }

  // ----- how IR states and C states correspond -----

  function Encode(v: Val): int {
    match v
    case IntV(n) => n
    case BoolV(b) => BoolInt(b)
    case UnitV => 0
  }

  predicate HasTy(v: Val, ty: Ty) {
    match ty
    case I32 => v.IntV? && A.Fits32(v.n)
    case Bool => v.BoolV?
    case Unit => v.UnitV?
  }

  /** Every binding of `env` has a slot of its type; `s` may hold more (inner) names. */
  ghost predicate Covers(env: Env, s: State) {
    forall x :: x in env ==> x in s && HasTy(s[x].v, env[x].ty) && s[x].mutable == env[x].mutable
  }

  ghost predicate Conforms(env: Env, s: State) {
    Covers(env, s) && forall x :: x in s ==> x in env && env[x].ty != Unit
  }

  /** A state in which some of the names declared after `env` may already exist. */
  ghost predicate Between(env: Env, inner: Env, s: State) {
    Covers(env, s) && forall x :: x in s ==> x in inner
  }

  function CellOf(slot: Slot): CCell {
    CCell(if slot.v.IntV? then Int32 else UInt8, !slot.mutable, Some(Encode(slot.v)))
  }

  /** The C variables are exactly the IR variables, with the same values. */
  ghost predicate Related(s: State, cs: CState) {
    (forall x :: x in s ==> User(x) in cs && cs[User(x)] == CellOf(s[x])) &&
    (forall x :: User(x) in cs ==> x in s)
  }

  /** Temporaries numbered from `k` on are not in use. */
  ghost predicate Fresh(cs: CState, k: nat) {
    forall n: nat :: Tmp(n) in cs ==> n < k
  }

  /** Every temporary outside [lo, hi) is untouched. */
  ghost predicate TempsKept(cs: CState, cs': CState, lo: nat, hi: nat) {
    forall n: nat {:trigger Tmp(n)} :: !(lo <= n < hi) ==>
      (Tmp(n) in cs <==> Tmp(n) in cs') && (Tmp(n) in cs ==> cs'[Tmp(n)] == cs[Tmp(n)])
  }

  /** The C expression denotes the value; a unit value is never read. */
  ghost predicate Denotes(ce: CExpr, cs: CState, v: Val) {
    if v.UnitV? then ce == CVoid else ce != CVoid && Value(ce, cs) == CVal(Encode(v))
  }

  /** The C run ended in a state that matches `s` and has written only its own temporaries. */
  ghost predicate Reaches(s: State, cs: CState, cs': CState, lo: nat, hi: nat) {
    Related(s, cs') && Fresh(cs', hi) && TempsKept(cs, cs', lo, hi)
  }

  /** The result of emitted code matches the outcome of an expression (or block): same
      way of ending, same state, same value; a panic happens in the prelude or when the
      resulting expression is evaluated; nothing is undefined. */
  ghost predicate Matches(env: Env, inner: Env, ty: Ty, o: Outcome, em: Emitted, co: COutcome, cs: CState, k: nat) {
    match o
    case Done(v, s') =>
      Conforms(inner, s') && HasTy(v, ty) &&
      co.CDone? && Reaches(s', cs, co.cs, k, em.next) && Denotes(em.val, co.cs, v)
    case Breaks(s') => Between(env, inner, s') && co.CBreaks? && Reaches(s', cs, co.cs, k, em.next)
    case Continues(s') => Between(env, inner, s') && co.CContinues? && Reaches(s', cs, co.cs, k, em.next)
    case Panics(_) =>
      co == CPanics ||
      (co.CDone? && Fresh(co.cs, em.next) && TempsKept(cs, co.cs, k, em.next) &&
       em.val != CVoid && Value(em.val, co.cs) == CPanic)
    case OutOfFuel => co == COutOfFuel
    case Stuck => false
  }

  // ----- auxiliary facts -----

  lemma {:induction false} AfterExtends(env: Env, ss: seq<Stmt>)
    requires TypedStmts(env, ss)
    ensures forall x :: x in env ==> x in After(env, ss) && After(env, ss)[x] == env[x]
    decreases |ss|
  {
    if ss != [] { AfterExtends(Declare(env, ss[0]), ss[1..]); }
  }

  // ----- the text of an expression -----

  /** The state in which the text of an expression is evaluated, its prelude having run:
      the preludes of all operands come before the operators, even when one panics. */
  function TextState(e: Expr, s: State, fuel: nat): State {
    match e
    case Binary(op, l, r, _) =>
      if IsLogical(op) then StateOf(EvalExpr(e, s, fuel), s) else TextState(r, TextState(l, s, fuel), fuel)
    case Unary(_, a, _) => TextState(a, s, fuel)
    case _ => StateOf(EvalExpr(e, s, fuel), s)
  }

  function StateOf(o: Outcome, s: State): State { if o.Done? then o.s else s }

  lemma {:induction false} TextStateDone(e: Expr, s: State, fuel: nat)
    ensures EvalExpr(e, s, fuel).Done? ==> TextState(e, s, fuel) == EvalExpr(e, s, fuel).s
    decreases e
  {
    if e.Binary? && !IsLogical(e.op) {
      TextStateDone(e.left, s, fuel);
      TextStateDone(e.right, TextState(e.left, s, fuel), fuel);
    } else if e.Unary? {
      TextStateDone(e.operand, s, fuel);
    }
  }

  lemma {:induction false} TextStateKeeps(e: Expr, kept: set<string>, s: State, fuel: nat)
    requires Keeps(e, kept)
    ensures Agrees(s, TextState(e, s, fuel), kept)
    decreases e
  {
    if e.Binary? && !IsLogical(e.op) {
      var mid := TextState(e.left, s, fuel);
      TextStateKeeps(e.left, kept, s, fuel);
      TextStateKeeps(e.right, kept, mid, fuel);
    } else if e.Unary? {
      TextStateKeeps(e.operand, kept, s, fuel);
    } else {
      KeepsExpr(e, kept, s, fuel);
    }
  }

  /** The text reads source variables of the expression and temporaries drawn for it. */
  lemma {:induction false} TextVariables(e: Expr, k: nat)
    ensures var em := Emit(e, k);
            forall x :: x in Reads(em.val) ==> if x.User? then x.id in TextReads(e) else x.n < em.next
    decreases e
  {
    if Settled(e) {
      SettledShape(e, k);
    } else if e.Binary? {
      var el := Emit(e.left, k);
      var er := Emit(e.right, el.next);
      TextVariables(e.left, k);
      TextVariables(e.right, el.next);
      if !IsArith(e.op) { SpliceReads(el.val, CmpOf(e.op), er.val); }
    } else if e.Unary? {
      TextVariables(e.operand, k);
    }
  }

  /** What the text reads survives the prelude of another operand. */
  lemma TextKept(e: Expr, k: nat, s: State, s': State, cs: CState, cs': CState, hi: nat)
    requires Agrees(s, s', TextReads(e)) && Related(s, cs) && Related(s', cs')
    requires Emit(e, k).next <= hi && TempsKept(cs, cs', Emit(e, k).next, hi)
    ensures Within(cs, cs', Reads(Emit(e, k).val))
  {
    var em := Emit(e, k);
    TextVariables(e, k);
    forall x | x in Reads(em.val) && x in cs ensures x in cs' && cs'[x] == cs[x] {
      match x
      case User(id) => assert id in s;
      case Tmp(n) => assert n < em.next;
    }
  }

  /** Shapes of emitted expressions: what can end up next to a comparison operator. */
  lemma {:induction false} EmitShape(env: Env, e: Expr, k: nat)
    requires TypedExpr(env, e)
    ensures var v := Emit(e, k).val;
            (TyOf(e) == I32 ==> !v.CCmp?) && (v.CCmp? && EqualityLevel(v.op) ==> IsEqualityNode(e))
    decreases e
  {
    if e.Binary? && IsRelational(e.op) {
      EmitShape(env, e.left, k);
      EmitShape(env, e.right, Emit(e.left, k).next);
    }
  }

  lemma SettledShape(e: Expr, k: nat)
    requires Settled(e)
    ensures var em := Emit(e, k);
            em.val.CInt? || em.val == CVoid ||
            (em.val.CVar? && em.val.x.Tmp? && k <= em.val.x.n < em.next)
  {
  }

  lemma KeptTrans(cs: CState, cs1: CState, cs2: CState, lo: nat, mid: nat, hi: nat)
    requires lo <= mid <= hi && TempsKept(cs, cs1, lo, mid) && TempsKept(cs1, cs2, mid, hi)
    ensures TempsKept(cs, cs2, lo, hi)
  {
  }

  // ----- operators -----

  lemma SpliceFlat(l: CExpr, op: CmpOp, r: CExpr)
    requires EqualityLevel(op) ==> !(r.CCmp? && EqualityLevel(r.op))
    requires !EqualityLevel(op) ==> !l.CCmp? && !r.CCmp?
    ensures Splice(l, op, r) == CCmp(op, l, r)
  {
  }

  /** A boolean, unless evaluating it panics. */
  ghost predicate BoolValued(v: CExpr, cs: CState) {
    Value(v, cs) == CPanic || Value(v, cs) == CVal(0) || Value(v, cs) == CVal(1)
  }

  /** A chain of `==` and `!=` over booleans, read from the left. */
  ghost predicate BoolChain(v: CExpr, cs: CState) {
    if v.CCmp? && EqualityLevel(v.op) then BoolChain(v.l, cs) && BoolValued(v.r, cs) else BoolValued(v, cs)
  }

  lemma {:induction false} ChainIsBool(v: CExpr, cs: CState)
    requires BoolChain(v, cs)
    ensures BoolValued(v, cs)
  {
    if v.CCmp? && EqualityLevel(v.op) { ChainIsBool(v.l, cs); }
  }

  lemma {:induction false} ChainKept(v: CExpr, cs: CState, cs': CState)
    requires Within(cs, cs', Reads(v)) && BoolChain(v, cs)
    ensures BoolChain(v, cs')
  {
    if v.CCmp? && EqualityLevel(v.op) {
      ChainKept(v.l, cs, cs');
      ValueKept(v.r, cs, cs');
    } else {
      ValueKept(v, cs, cs');
    }
  }

  /** Over booleans it does not matter how a chain of equality tests is grouped. */
  lemma {:induction false} SpliceOverBools(l: CExpr, op: CmpOp, r: CExpr, cs: CState)
    requires EqualityLevel(op) && BoolValued(l, cs) && BoolChain(r, cs)
    ensures Value(Splice(l, op, r), cs) == Value(CCmp(op, l, r), cs)
    ensures BoolChain(l, cs) ==> BoolChain(Splice(l, op, r), cs)
    decreases r
  {
    if r.CCmp? && EqualityLevel(r.op) {
      var left := Splice(l, op, r.l);
      assert Splice(l, op, r) == CCmp(r.op, left, r.r);
      SpliceOverBools(l, op, r.l, cs);
      ChainIsBool(r.l, cs);
      Regroup(op, r.op, l, r.l, r.r, left, cs);
    } else {
      assert Splice(l, op, r) == CCmp(op, l, r);
    }
  }

  lemma Regroup(op: CmpOp, op2: CmpOp, a: CExpr, b: CExpr, c: CExpr, left: CExpr, cs: CState)
    requires EqualityLevel(op) && EqualityLevel(op2)
    requires BoolValued(a, cs) && BoolValued(b, cs) && BoolValued(c, cs)
    requires Value(left, cs) == Value(CCmp(op, a, b), cs)
    ensures Value(CCmp(op2, left, c), cs) == Value(CCmp(op, a, CCmp(op2, b, c)), cs)
  {
    assert Value(CCmp(op2, b, c), cs) != CBad;
  }

  /** No part of the expression can panic. */
  predicate NoChecks(v: CExpr) {
    match v
    case CNot(a) => NoChecks(a)
    case CNeg(_) => false
    case CCall(_, _, _) => false
    case CCmp(_, l, r) => NoChecks(l) && NoChecks(r)
    case _ => true
  }

  lemma {:induction false} NoChecksNoPanic(v: CExpr, cs: CState)
    requires NoChecks(v)
    ensures Value(v, cs) != CPanic
  {
    match v
    case CInt(_) =>
    case CVar(_) =>
    case CNot(a) => NoChecksNoPanic(a, cs);
    case CCmp(_, l, r) => NoChecksNoPanic(l, cs); NoChecksNoPanic(r, cs);
    case CVoid =>
  }

  lemma {:induction false} SpliceNoChecks(l: CExpr, op: CmpOp, r: CExpr)
    requires NoChecks(l) && NoChecks(r)
    ensures NoChecks(Splice(l, op, r))
    decreases r, l
  {
    if r.CCmp? && Level(r.op) <= Level(op) {
      SpliceNoChecks(l, op, r.l);
    } else if l.CCmp? && Level(l.op) < Level(op) {
      SpliceNoChecks(l.r, op, r);
    }
  }

  lemma {:induction false} CalmText(e: Expr, k: nat)
    requires Calm(e)
    ensures NoChecks(Emit(e, k).val)
    decreases e
  {
    if Settled(e) {
      SettledShape(e, k);
    } else if e.Binary? {
      var el := Emit(e.left, k);
      CalmText(e.left, k);
      CalmText(e.right, el.next);
      SpliceNoChecks(el.val, CmpOf(e.op), Emit(e.right, el.next).val);
    } else if e.Unary? {
      CalmText(e.operand, k);
    }
  }

  ghost predicate ValueOf(r: OpResult, cv: CValue) {
    match r
    case Yields(v) => cv == CVal(Encode(v))
    case Panic => cv == CPanic
    case Mismatch => false
  }

  /** The emitted operator applied to encoded operands computes the IR's operator. */
  lemma OperatorMeaning(op: BinOp, l: CExpr, r: CExpr, v: Val, w: Val, ty: Ty, cs: CState)
    requires !IsLogical(op) && OperandsFit(op, ty, ty) && HasTy(v, ty) && HasTy(w, ty)
    requires Value(l, cs) == CVal(Encode(v)) && Value(r, cs) == CVal(Encode(w))
    requires !IsArith(op) ==> Value(Splice(l, CmpOf(op), r), cs) == Value(CCmp(CmpOf(op), l, r), cs)
    ensures ValueOf(BinaryValue(op, v, w), Value(OperatorText(op, l, r), cs))
    ensures BinaryValue(op, v, w).Yields? ==>
              HasTy(BinaryValue(op, v, w).v, if IsArith(op) then I32 else Bool)
  {
  }

  lemma OperatorPanics(op: BinOp, l: CExpr, r: CExpr, cs: CState)
    requires !IsLogical(op)
    requires Value(l, cs) != CBad && Value(r, cs) != CBad
    requires Value(l, cs) == CPanic || Value(r, cs) == CPanic
    requires !IsArith(op) ==> Value(Splice(l, CmpOf(op), r), cs) == Value(CCmp(CmpOf(op), l, r), cs)
    ensures Value(OperatorText(op, l, r), cs) == CPanic
  {
  }
}
