/**
 Programs outside the faithful fragment: each breaks one of its conditions, and the
 emitted code does something else.
 */
module CodegenLimits {
  import opened Wrappers
  import opened Ir
  import opened IrEffects
  import opened CTree
  import opened Codegen
  import opened CodegenCorrect
  import opened CodegenSimulation
  import opened CodegenTheorems
  import A = CheckedArith

  /** `{ st; n }` */
  function Small(st: Stmt, n: int): Block { Block([st], Some(IntLit(n))) }

  lemma SmallTyped(env: Env, st: Stmt, n: int)
    requires A.Fits32(n) && TypedStmt(env, st)
    ensures TypedExpr(env, BlockExpr(Small(st, n))) && TyOf(BlockExpr(Small(st, n))) == I32
  {
    var inner := Declare(env, st);
    assert [st][1..] == [];
    assert TypedStmts(inner, []) && TypedStmts(env, [st]);
    assert After(inner, []) == inner && After(env, [st]) == inner;
    assert TypedExpr(inner, IntLit(n));
    assert TypedBlock(env, Small(st, n)) && TyOf(IntLit(n)) == BlockTy(Small(st, n)) == I32;
  }

  /** No block, no `if`, and no equality test directly to the right of another. */
  predicate Flat(e: Expr) {
    match e
    case Binary(op, l, r, _) => Flat(l) && Flat(r) && !(IsEquality(op) && IsEqualityNode(r))
    case Unary(_, a, _) => Flat(a)
    case _ => !e.BlockExpr? && !e.If?
  }

  lemma {:induction false} FlatHasNoEffect(e: Expr, vars: set<string>)
    requires Flat(e)
    ensures Keeps(e, vars) && NoJump(e) && Loopless(e)
  {
    match e
    case Binary(_, l, r, _) => FlatHasNoEffect(l, vars); FlatHasNoEffect(r, vars);
    case Unary(_, a, _) => FlatHasNoEffect(a, vars);
    case _ =>
  }

  /** The restrictions concern statements inside expressions and chains of equalities only. */
  lemma {:induction false} FlatIsFaithful(e: Expr)
    requires Flat(e)
    ensures Faithful(e)
  {
    match e
    case Binary(_, l, r, _) =>
      FlatIsFaithful(l);
      FlatIsFaithful(r);
      FlatHasNoEffect(r, TextReads(l));
    case Unary(_, a, _) => FlatIsFaithful(a);
    case _ =>
  }

  predicate OperandsFaithful(e: Expr) { e.Binary? && Faithful(e.left) && Faithful(e.right) }

  lemma SmallFaithful(st: Stmt, n: int)
    requires FaithfulStmt(st)
    ensures Faithful(BlockExpr(Small(st, n)))
  {
    assert [st][1..] == [];
    assert FaithfulStmts([]) && FaithfulStmts([st]) && Faithful(IntLit(n));
    assert FaithfulBlock(Small(st, n));
  }

  /** The value goes through temporary `k`. */
  function SmallCode(first: seq<CStmt>, n: int, k: nat): seq<CStmt> {
    [Decl(false, Int32, Tmp(k), None), Scope(first + [Set(Tmp(k), CInt(n))])]
  }

  lemma SmallEmitted(st: Stmt, n: int, k: nat)
    ensures var first := EmitStmt(st, k + 1);
            Emit(BlockExpr(Small(st, n)), k) == Emitted(SmallCode(first.pre, n, k), CVar(Tmp(k)), first.next)
  {
    var first := EmitStmt(st, k + 1);
    assert EmitStmts([st], k + 1) == first by {
      assert EmitStmts([st][1..], first.next) == Emitted([], CVoid, first.next);
      assert first.pre + [] == first.pre;
    }
    assert EmitBlock(Small(st, n), k + 1) == Emitted(first.pre, CInt(n), first.next) by {
      assert Emit(IntLit(n), first.next) == Emitted([], CInt(n), first.next);
      assert first.pre + [] == first.pre;
    }
    assert BlockTy(Small(st, n)) == I32;
  }

  /** An operator on two integer literals. */
  lemma LiteralsTyped(env: Env, op: BinOp, m: int, n: int, ty: Ty)
    requires A.Fits32(m) && A.Fits32(n) && !IsLogical(op) && ty == if IsArith(op) then I32 else Bool
    ensures TypedExpr(env, Binary(op, IntLit(m), IntLit(n), ty))
  {
    var l, r := IntLit(m), IntLit(n);
    assert TypedExpr(env, l) && TypedExpr(env, r) && TyOf(l) == TyOf(r) == I32;
  }

  // ----- the right operand assigns -----

  /** `{ x = n; m }` */
  function SetThen(x: string, n: int, m: int): Block { Small(Assign(x, IntLit(n)), m) }

  /** `x + { x = n; 1 }`: the right prelude runs before `x` is read. */
  function OrderSum(x: string, n: int): Expr {
    Binary(Add, Ident(x, I32), BlockExpr(SetThen(x, n, 1)), I32)
  }

  function Holding(x: string, n: int): State { map[x := Slot(IntV(n), true)] }

  function IntEnv(x: string): Env { map[x := Binding(I32, true)] }

  /** The right operand neither jumps nor loops, and the left one cannot panic. */
  predicate OnlyAssigns(e: Expr) {
    OperandsFaithful(e) && Calm(e.left) && NoJump(e.right) && Loopless(e.right)
  }

  lemma OrderSumTyped(x: string, n: int)
    requires A.Fits32(n)
    ensures TypedExpr(IntEnv(x), OrderSum(x, n)) && !Faithful(OrderSum(x, n)) && OnlyAssigns(OrderSum(x, n))
  {
    var assign, env, l, r := Assign(x, IntLit(n)), IntEnv(x), Ident(x, I32), BlockExpr(SetThen(x, n, 1));
    assert TypedExpr(env, IntLit(n)) && TyOf(IntLit(n)) == I32;
    SmallTyped(env, assign, 1);
    assert TypedExpr(env, l) && TyOf(l) == I32;
    assert !KeepsStmt(assign, {x});
    assert !KeepsStmts([assign], {x});
    assert !KeepsBlock(r.block, {x});
    assert TextReads(l) == {x} && !Keeps(r, {x});
    assert !MayRunFirst(l, r);
    assert NoJumpStmt(assign) && LooplessStmt(assign);
    assert NoJumpStmts([assign]) && LooplessStmts([assign]);
    assert NoJumpBlock(r.block) && LooplessBlock(r.block);
    SmallFaithful(assign, 1);
  }

  lemma SetThenEvaluated(x: string, before: int, n: int, m: int, fuel: nat)
    ensures EvalExpr(BlockExpr(SetThen(x, n, m)), Holding(x, before), fuel) == Done(IntV(m), Holding(x, n))
  {
    var s, s', assign := Holding(x, before), Holding(x, n), Assign(x, IntLit(n));
    assert EvalExpr(IntLit(n), s, fuel) == Done(IntV(n), s);
    assert s[x := Slot(IntV(n), true)] == s';
    assert EvalStmt(assign, s, fuel) == Done(UnitV, s');
    assert EvalStmts([assign][1..], s', fuel) == Done(UnitV, s');
    assert EvalBlock(SetThen(x, n, m), s, fuel) == Done(IntV(m), s');
    assert Restrict(s, s') == s';
  }

  function SetThenCode(x: string, n: int, m: int, k: nat): seq<CStmt> {
    SmallCode([Set(User(x), CInt(n))], m, k)
  }

  lemma SetThenEmitted(x: string, n: int, m: int, k: nat)
    ensures Emit(BlockExpr(SetThen(x, n, m)), k) == Emitted(SetThenCode(x, n, m, k), CVar(Tmp(k)), k + 1)
  {
    var assign := Assign(x, IntLit(n));
    assert Emit(IntLit(n), k + 1) == Emitted([], CInt(n), k + 1);
    assert EmitStmt(assign, k + 1).pre == [Set(User(x), CInt(n))];
    SmallEmitted(assign, m, k);
  }

  lemma SetThenRun(x: string, n: int, m: int, k: nat, cs: CState, fuel: nat)
    requires A.Fits32(n) && A.Fits32(m) && Tmp(k) !in cs
    requires User(x) in cs && cs[User(x)].ty == Int32 && !cs[User(x)].isConst
    ensures var co := Run(SetThenCode(x, n, m, k), cs, fuel);
            co.CDone? && Value(CVar(User(x)), co.cs) == CVal(n) && Value(CVar(Tmp(k)), co.cs) == CVal(m)
  {
    var assign, put := Set(User(x), CInt(n)), Set(Tmp(k), CInt(m));
    var cs1 := cs[Tmp(k) := CCell(Int32, false, None)];
    var cs2 := cs1[User(x) := CCell(Int32, false, Some(n))];
    var cs3 := cs2[Tmp(k) := CCell(Int32, false, Some(m))];
    assert Step(assign, cs1, fuel) == CDone(cs2) && Step(put, cs2, fuel) == CDone(cs3);
    RunTwo(assign, put, cs1, fuel);
    assert CRestrict(cs1, cs3) == cs3;
    assert [assign] + [put] == [assign, put];
    RunTwo(Decl(false, Int32, Tmp(k), None), Scope([assign, put]), cs, fuel);
  }

  lemma OrderSumEmitted(x: string, n: int)
    ensures Emit(OrderSum(x, n), 0) ==
            Emitted(SetThenCode(x, n, 1, 0), CCall(AddFn, CVar(User(x)), CVar(Tmp(0))), 1)
  {
    SetThenEmitted(x, n, 1, 0);
    assert Emit(Ident(x, I32), 0) == Emitted([], CVar(User(x)), 0);
    assert [] + SetThenCode(x, n, 1, 0) == SetThenCode(x, n, 1, 0);
  }

  /** With `x` at 0, the IR yields 1 and the emitted C `n + 1`. */
  lemma OperandOrderMatters(x: string, n: int, fuel: nat)
    requires A.Fits32(n) && A.Fits32(n + 1)
    ensures TypedExpr(IntEnv(x), OrderSum(x, n)) && !Faithful(OrderSum(x, n)) && OnlyAssigns(OrderSum(x, n))
    ensures EvalExpr(OrderSum(x, n), Holding(x, 0), fuel) == Done(IntV(1), Holding(x, n))
    ensures var em := Emit(OrderSum(x, n), 0);
            var co := Run(em.pre, Entry(Holding(x, 0)), fuel);
            co.CDone? && Value(em.val, co.cs) == CVal(n + 1)
  {
    OrderSumTyped(x, n);
    SetThenEvaluated(x, 0, n, 1, fuel);
    assert EvalExpr(Ident(x, I32), Holding(x, 0), fuel) == Done(IntV(0), Holding(x, 0));
    OrderSumEmitted(x, n);
    EntryStarts(IntEnv(x), Holding(x, 0));
    SetThenRun(x, n, 1, 0, Entry(Holding(x, 0)), fuel);
  }

  // ----- the right operand does not go on to the left text -----

  /** `n / 0 + { st; 1 }` */
  function PanicPlus(n: int, st: Stmt): Expr {
    Binary(Add, Binary(Div, IntLit(n), IntLit(0), I32), BlockExpr(Small(st, 1)), I32)
  }

  lemma PanicPlusTyped(n: int, st: Stmt)
    requires A.Fits32(n) && TypedStmt(map[], st) && FaithfulStmt(st) && !(NoJumpStmt(st) && LooplessStmt(st))
    ensures TypedExpr(map[], PanicPlus(n, st)) && !Faithful(PanicPlus(n, st)) && OperandsFaithful(PanicPlus(n, st))
  {
    var l, r := Binary(Div, IntLit(n), IntLit(0), I32), BlockExpr(Small(st, 1));
    LiteralsTyped(map[], Div, n, 0, I32);
    SmallTyped(map[], st, 1);
    assert !(NoJumpStmts([st]) && LooplessStmts([st]));
    assert !(NoJumpBlock(r.block) && LooplessBlock(r.block));
    assert !(NoJump(r) && Loopless(r));
    assert !Calm(l) && !Settled(l);
    assert !MayRunFirst(l, r);
    SmallFaithful(st, 1);
    assert Faithful(IntLit(n)) && Faithful(IntLit(0)) && MayRunFirst(IntLit(n), IntLit(0));
    assert Faithful(l);
  }

  /** The right operand assigns nothing that the left text reads. */
  predicate OnlyLeaves(e: Expr) { OperandsFaithful(e) && Keeps(e.right, TextReads(e.left)) && Loopless(e.right) }

  predicate OnlyLoops(e: Expr) { OperandsFaithful(e) && Keeps(e.right, TextReads(e.left)) && NoJump(e.right) }

  lemma PanicPlusPanics(n: int, st: Stmt, s: State, fuel: nat)
    ensures EvalExpr(PanicPlus(n, st), s, fuel) == Panics(s)
  {
    assert EvalExpr(IntLit(n), s, fuel) == Done(IntV(n), s) && EvalExpr(IntLit(0), s, fuel) == Done(IntV(0), s);
    assert EvalExpr(Binary(Div, IntLit(n), IntLit(0), I32), s, fuel) == Panics(s);
  }

  lemma PanicPlusEmitted(n: int, st: Stmt)
    ensures Emit(PanicPlus(n, st), 0).pre == SmallCode(EmitStmt(st, 1).pre, 1, 0)
  {
    var l, code := Binary(Div, IntLit(n), IntLit(0), I32), SmallCode(EmitStmt(st, 1).pre, 1, 0);
    assert Emit(IntLit(n), 0) == Emitted([], CInt(n), 0) && Emit(IntLit(0), 0) == Emitted([], CInt(0), 0);
    assert Emit(l, 0).pre == [] && Emit(l, 0).next == 0;
    SmallEmitted(st, 1, 0);
    assert Emit(PanicPlus(n, st), 0).pre == [] + code == code;
  }

  /** The emitted code declares a temporary, enters the block, and does what `first` does. */
  lemma SmallRun(first: seq<CStmt>, n: int, cs: CState, fuel: nat)
    requires Tmp(0) !in cs
    requires !Run(first, cs[Tmp(0) := CCell(Int32, false, None)], fuel).CDone?
    ensures var cs1 := cs[Tmp(0) := CCell(Int32, false, None)];
            Run(SmallCode(first, n, 0), cs, fuel) == CLeave(cs1, Run(first, cs1, fuel))
  {
    var inner := first + [Set(Tmp(0), CInt(n))];
    RunConcat(first, [Set(Tmp(0), CInt(n))], cs[Tmp(0) := CCell(Int32, false, None)], fuel);
    RunTwo(Decl(false, Int32, Tmp(0), None), Scope(inner), cs, fuel);
  }

  lemma PanicPlusRun(n: int, st: Stmt, cs: CState, fuel: nat, o: COutcome)
    requires Tmp(0) !in cs && !o.CDone?
    requires Run(EmitStmt(st, 1).pre, cs[Tmp(0) := CCell(Int32, false, None)], fuel) == o
    ensures Run(Emit(PanicPlus(n, st), 0).pre, cs, fuel) == CLeave(cs[Tmp(0) := CCell(Int32, false, None)], o)
  {
    PanicPlusEmitted(n, st);
    SmallRun(EmitStmt(st, 1).pre, 1, cs, fuel);
  }

  /** The IR panics, but the emitted code leaves the enclosing loop. */
  lemma JumpInOperandMatters(n: int, s: State, cs: CState, fuel: nat)
    requires A.Fits32(n) && Tmp(0) !in cs
    ensures TypedExpr(map[], PanicPlus(n, Break)) && !Faithful(PanicPlus(n, Break))
    ensures OnlyLeaves(PanicPlus(n, Break))
    ensures EvalExpr(PanicPlus(n, Break), s, fuel).Panics? && Run(Emit(PanicPlus(n, Break), 0).pre, cs, fuel).CBreaks?
  {
    PanicPlusTyped(n, Break);
    PanicPlusPanics(n, Break, s, fuel);
    var cs1 := cs[Tmp(0) := CCell(Int32, false, None)];
    assert EmitStmt(Break, 1).pre == [CBreak];
    RunOne(CBreak, cs1, fuel);
    PanicPlusRun(n, Break, cs, fuel, CBreaks(cs1));
  }

  /** `while true {}` */
  function Endless(): Stmt { While(BoolLit(true), Block([], None)) }

  lemma EndlessEmitted(k: nat)
    ensures EmitStmt(Endless(), k).pre == [Forever([BreakUnless(CInt(1))])]
  {
    var cond, body := Emit(BoolLit(true), k), EmitBlock(Block([], None), k);
    assert EmitStmts([], k) == Emitted([], CVoid, k);
    assert cond == Emitted([], CInt(1), k) && body == Emitted([], CVoid, k);
    assert cond.pre + [BreakUnless(cond.val)] + body.pre + Discard(body.val) == [BreakUnless(CInt(1))];
  }

  lemma {:induction false} EndlessRun(cs: CState, fuel: nat)
    ensures Loop(Forever([BreakUnless(CInt(1))]), cs, fuel) == COutOfFuel
  {
    if fuel > 0 {
      RunOne(BreakUnless(CInt(1)), cs, fuel);
      assert CRestrict(cs, cs) == cs;
      EndlessRun(cs, fuel - 1);
    }
  }

  lemma PanicPlusEndless(n: int, cs: CState, fuel: nat)
    requires Tmp(0) !in cs
    ensures Run(Emit(PanicPlus(n, Endless()), 0).pre, cs, fuel) == COutOfFuel
  {
    var cs1, loop := cs[Tmp(0) := CCell(Int32, false, None)], Forever([BreakUnless(CInt(1))]);
    EndlessEmitted(1);
    EndlessRun(cs1, fuel);
    RunOne(loop, cs1, fuel);
    PanicPlusRun(n, Endless(), cs, fuel, COutOfFuel);
  }

  lemma EndlessTyped(n: int)
    requires A.Fits32(n)
    ensures TypedExpr(map[], PanicPlus(n, Endless())) && !Faithful(PanicPlus(n, Endless()))
    ensures OnlyLoops(PanicPlus(n, Endless()))
  {
    assert TypedBlock(map[], Block([], None)) && FaithfulBlock(Block([], None));
    PanicPlusTyped(n, Endless());
  }

  /** The IR panics, but the emitted code never ends. */
  lemma LoopInOperandMatters(n: int, s: State, cs: CState, fuel: nat)
    requires A.Fits32(n) && Tmp(0) !in cs
    ensures TypedExpr(map[], PanicPlus(n, Endless())) && !Faithful(PanicPlus(n, Endless()))
    ensures OnlyLoops(PanicPlus(n, Endless()))
    ensures EvalExpr(PanicPlus(n, Endless()), s, fuel).Panics?
    ensures Run(Emit(PanicPlus(n, Endless()), 0).pre, cs, fuel) == COutOfFuel
  {
    EndlessTyped(n);
    PanicPlusPanics(n, Endless(), s, fuel);
    PanicPlusEndless(n, cs, fuel);
  }

  // ----- a jump leaves a loop condition -----

  /** `while { break; b } {}`: the jump leaves the enclosing loop, but lands in the
      emitted `while (1)` of the loop whose condition it is. */
  function BreakThen(b: bool): Block { Block([Break], Some(BoolLit(b))) }

  function BreakingLoop(b: bool): Stmt { While(BlockExpr(BreakThen(b)), Block([], None)) }

  lemma BreakingLoopJumps(b: bool, s: State, fuel: nat)
    requires fuel > 0
    ensures TypedStmt(map[], BreakingLoop(b)) && !FaithfulStmt(BreakingLoop(b))
    ensures Faithful(BreakingLoop(b).cond) && FaithfulBlock(BreakingLoop(b).body)
    ensures EvalStmt(BreakingLoop(b), s, fuel).Breaks?
  {
    assert TypedStmts(map[], [Break]) by { assert TypedStmts(map[], [Break][1..]); }
    assert TypedBlock(map[], BreakThen(b)) && TypedBlock(map[], Block([], None));
    assert !NoJumpStmts([Break]) && !NoJumpBlock(BreakThen(b));
    assert EvalStmts([Break], s, fuel) == Breaks(s);
    assert EvalBlock(BreakThen(b), s, fuel) == Breaks(s);
    assert EvalExpr(BlockExpr(BreakThen(b)), s, fuel).Breaks?;
  }

  lemma BreakThenEmitted(b: bool)
    ensures var pre := Emit(BlockExpr(BreakThen(b)), 0).pre;
            |pre| == 2 && pre[0] == Decl(false, UInt8, Tmp(0), None) && pre[1].Scope? &&
            |pre[1].body| > 0 && pre[1].body[0] == CBreak
  {
    assert BlockTy(BreakThen(b)) == Bool;
    assert EmitStmt(Break, 1).pre == [CBreak];
    assert EmitStmts([Break], 1).pre[0] == CBreak;
    assert EmitBlock(BreakThen(b), 1).pre[0] == CBreak;
  }

  /** The jump is the first thing that the emitted loop does. */
  lemma BreakingLoopEmitted(b: bool)
    ensures var code := EmitStmt(BreakingLoop(b), 0).pre;
            |code| == 1 && code[0].Forever? && |code[0].body| > 1 &&
            code[0].body[0] == Decl(false, UInt8, Tmp(0), None) && code[0].body[1].Scope? &&
            |code[0].body[1].body| > 0 && code[0].body[1].body[0] == CBreak
  {
    BreakThenEmitted(b);
    var cond := Emit(BlockExpr(BreakThen(b)), 0);
    var empty := EmitBlock(Block([], None), cond.next);
    var body := cond.pre + [BreakUnless(cond.val)] + empty.pre + Discard(empty.val);
    assert EmitStmt(BreakingLoop(b), 0).pre == [Forever(body)];
  }

  lemma BreakAtOnce(decl: CStmt, inner: seq<CStmt>, body: seq<CStmt>, cs: CState, fuel: nat)
    requires Tmp(0) !in cs && decl == Decl(false, UInt8, Tmp(0), None) && fuel > 0
    requires |inner| > 0 && inner[0] == CBreak && [decl, Scope(inner)] <= body
    ensures Run([Forever(body)], cs, fuel).CDone?
  {
    var cs1 := cs[Tmp(0) := CCell(UInt8, false, None)];
    assert Run(inner, cs1, fuel) == CBreaks(cs1);
    RunTwo(decl, Scope(inner), cs, fuel);
    var rest := body[2..];
    assert body == [decl, Scope(inner)] + rest;
    RunConcat([decl, Scope(inner)], rest, cs, fuel);
    RunOne(Forever(body), cs, fuel);
  }

  lemma BreakingLoopEnds(b: bool, cs: CState, fuel: nat)
    requires Tmp(0) !in cs && fuel > 0
    ensures Run(EmitStmt(BreakingLoop(b), 0).pre, cs, fuel).CDone?
  {
    BreakingLoopEmitted(b);
    var code := EmitStmt(BreakingLoop(b), 0).pre;
    var body := code[0].body;
    assert code == [Forever(body)];
    BreakAtOnce(body[0], body[1].body, body, cs, fuel);
  }

  lemma BreakInConditionMatters(b: bool, s: State, cs: CState, fuel: nat)
    requires Tmp(0) !in cs && fuel > 0
    ensures TypedStmt(map[], BreakingLoop(b)) && !FaithfulStmt(BreakingLoop(b))
    ensures Faithful(BreakingLoop(b).cond) && FaithfulBlock(BreakingLoop(b).body)
    ensures EvalStmt(BreakingLoop(b), s, fuel).Breaks? && Run(EmitStmt(BreakingLoop(b), 0).pre, cs, fuel).CDone?
  {
    BreakingLoopJumps(b, s, fuel);
    BreakingLoopEnds(b, cs, fuel);
  }

  // ----- comparisons without parentheses -----

  /** `b == (n == n)` is emitted as `b == n == n`, which C reads from the left. */
  function Chain(b: string, n: int): Expr {
    Binary(Eq, Ident(b, Bool), Binary(Eq, IntLit(n), IntLit(n), Bool), Bool)
  }

  function HoldingTrue(b: string): State { map[b := Slot(BoolV(true), false)] }

  function BoolEnv(b: string): Env { map[b := Binding(Bool, false)] }

  lemma ChainEvaluated(b: string, n: int, fuel: nat)
    ensures EvalExpr(Chain(b, n), HoldingTrue(b), fuel) == Done(BoolV(true), HoldingTrue(b))
  {
    var s := HoldingTrue(b);
    assert EvalExpr(IntLit(n), s, fuel) == Done(IntV(n), s);
    assert EvalExpr(Binary(Eq, IntLit(n), IntLit(n), Bool), s, fuel) == Done(BoolV(true), s);
    assert EvalExpr(Ident(b, Bool), s, fuel) == Done(BoolV(true), s);
  }

  function ChainText(b: string, n: int): CExpr { CCmp(CEq, CCmp(CEq, CVar(User(b)), CInt(n)), CInt(n)) }

  lemma ChainEmitted(b: string, n: int)
    ensures Emit(Chain(b, n), 0) == Emitted([], ChainText(b, n), 0)
  {
    var x, m := CVar(User(b)), CInt(n);
    assert Emit(IntLit(n), 0) == Emitted([], m, 0) && Emit(Ident(b, Bool), 0) == Emitted([], x, 0);
    assert Splice(m, CEq, m) == CCmp(CEq, m, m);
    assert Emit(Binary(Eq, IntLit(n), IntLit(n), Bool), 0) == Emitted([] + [], CCmp(CEq, m, m), 0);
    assert Splice(x, CEq, m) == CCmp(CEq, x, m);
    assert Splice(x, CEq, CCmp(CEq, m, m)) == CCmp(CEq, CCmp(CEq, x, m), m);
  }

  lemma ChainValue(b: string, n: int, cs: CState)
    requires n != 0 && n != 1 && Value(CVar(User(b)), cs) == CVal(1)
    ensures Value(ChainText(b, n), cs) == CVal(0)
  {
    var m := CInt(n);
    assert Value(m, cs) == CVal(n);
    assert Value(CCmp(CEq, CVar(User(b)), m), cs) == CVal(0);
  }

  predicate OnlyChained(e: Expr) { OperandsFaithful(e) && MayRunFirst(e.left, e.right) }

  lemma ChainOutside(b: string, n: int)
    requires A.Fits32(n)
    ensures TypedExpr(BoolEnv(b), Chain(b, n)) && !Faithful(Chain(b, n)) && OnlyChained(Chain(b, n))
  {
    var r := Binary(Eq, IntLit(n), IntLit(n), Bool);
    LiteralsTyped(BoolEnv(b), Eq, n, n, Bool);
    assert TypedExpr(BoolEnv(b), Ident(b, Bool));
    assert TyOf(IntLit(n)) == I32;
    assert IntegersFirst(r);
    assert Faithful(IntLit(n)) && MayRunFirst(IntLit(n), IntLit(n)) && !IntegersFirst(IntLit(n));
    assert Faithful(Ident(b, Bool)) && Faithful(r);
    assert MayRunFirst(Ident(b, Bool), r);
  }

  /** The IR yields true, the emitted C false. */
  lemma MissingParenthesesMatter(b: string, n: int, fuel: nat)
    requires A.Fits32(n) && n != 0 && n != 1
    ensures TypedExpr(BoolEnv(b), Chain(b, n)) && !Faithful(Chain(b, n)) && OnlyChained(Chain(b, n))
    ensures EvalExpr(Chain(b, n), HoldingTrue(b), fuel) == Done(BoolV(true), HoldingTrue(b))
    ensures Emit(Chain(b, n), 0).pre == [] && Value(Emit(Chain(b, n), 0).val, Entry(HoldingTrue(b))) == CVal(0)
  {
    ChainOutside(b, n);
    ChainEvaluated(b, n, fuel);
    ChainEmitted(b, n);
    EntryStarts(BoolEnv(b), HoldingTrue(b));
    ChainValue(b, n, Entry(HoldingTrue(b)));
  }
}
