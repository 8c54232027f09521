/**
 What the emitted C computes, in plain arithmetic and truth values: every operator on
 literals, and short programs for every kind of statement. Where the theorems of
 `CodegenTheorems` tie emitted code to the meaning of the IR, these tie it to numbers.
 */
module CodegenMeaning {
  import opened Wrappers
  import opened Ir
  import opened CTree
  import opened Codegen
  import opened CodegenSimulation
  import A = CheckedArith

  // ----- operators -----

  ghost predicate Int32Range(n: int) { -0x8000_0000 <= n <= 0x7fff_ffff }

  /** The number, or a panic when it does not fit. */
  ghost function Exactly(n: int): CValue { if Int32Range(n) then CVal(n) else CPanic }

  ghost function Truth(b: bool): CValue { if b then CVal(1) else CVal(0) }

  /** The operator on two integer literals becomes this text, which has this value. */
  ghost predicate Gives(op: BinOp, m: int, n: int, ty: Ty, k: nat, cs: CState, text: CExpr, v: CValue) {
    Emit(Binary(op, IntLit(m), IntLit(n), ty), k) == Emitted([], text, k) && Value(text, cs) == v
  }

  lemma LiteralText(op: BinOp, m: int, n: int, ty: Ty, k: nat, cs: CState, text: CExpr, v: CValue)
    requires !IsLogical(op) && text == OperatorText(op, CInt(m), CInt(n)) && Value(text, cs) == v
    ensures Gives(op, m, n, ty, k, cs, text, v)
  {
    assert Emit(IntLit(m), k) == Emitted([], CInt(m), k) && Emit(IntLit(n), k) == Emitted([], CInt(n), k);
  }

  lemma CallOnInts(fn: RtFn, m: int, n: int, cs: CState)
    requires Int32Range(m) && Int32Range(n)
    ensures Value(CCall(fn, CInt(m), CInt(n)), cs) == CallValue(fn, m, n)
  {
    assert Value(CInt(m), cs) == CVal(m) && Value(CInt(n), cs) == CVal(n);
  }

  /** Addition, subtraction and multiplication are exact or panic. */
  lemma SumsAndProducts(m: int, n: int, k: nat, cs: CState)
    requires Int32Range(m) && Int32Range(n)
    ensures Gives(Add, m, n, I32, k, cs, CCall(AddFn, CInt(m), CInt(n)), Exactly(m + n))
    ensures Gives(Sub, m, n, I32, k, cs, CCall(SubFn, CInt(m), CInt(n)), Exactly(m - n))
    ensures Gives(Mul, m, n, I32, k, cs, CCall(MulFn, CInt(m), CInt(n)), Exactly(m * n))
  {
    CallOnInts(AddFn, m, n, cs);
    CallOnInts(SubFn, m, n, cs);
    CallOnInts(MulFn, m, n, cs);
    LiteralText(Add, m, n, I32, k, cs, CCall(AddFn, CInt(m), CInt(n)), Exactly(m + n));
    LiteralText(Sub, m, n, I32, k, cs, CCall(SubFn, CInt(m), CInt(n)), Exactly(m - n));
    LiteralText(Mul, m, n, I32, k, cs, CCall(MulFn, CInt(m), CInt(n)), Exactly(m * n));
  }

  /** Neither division is defined on 0, nor on the smallest number by -1. */
  ghost predicate NoQuotient(m: int, n: int) { n == 0 || (m == -0x8000_0000 && n == -1) }

  ghost predicate SmallerSize(r: int, n: int) { -n < r < n || n < r < -n }

  /** The quotient is truncated toward zero: what remains is smaller than the divisor and
      has the sign of the dividend. */
  lemma Quotients(m: int, n: int, q: int, k: nat, cs: CState)
    requires Int32Range(m) && Int32Range(n) && !NoQuotient(m, n)
    requires SmallerSize(m - n * q, n) && (m >= 0 ==> m - n * q >= 0) && (m <= 0 ==> m - n * q <= 0)
    ensures Gives(Div, m, n, I32, k, cs, CCall(DivFn, CInt(m), CInt(n)), CVal(q))
    ensures Gives(Mod, m, n, I32, k, cs, CCall(ModFn, CInt(m), CInt(n)), CVal(m - n * q))
  {
    A.TruncDivUnique(m, n, q);
    CallOnInts(DivFn, m, n, cs);
    CallOnInts(ModFn, m, n, cs);
    QuotientCalls(m, n, q);
    LiteralText(Div, m, n, I32, k, cs, CCall(DivFn, CInt(m), CInt(n)), CVal(q));
    LiteralText(Mod, m, n, I32, k, cs, CCall(ModFn, CInt(m), CInt(n)), CVal(m - n * q));
  }

  lemma QuotientCalls(m: int, n: int, q: int)
    requires Int32Range(m) && Int32Range(n) && !NoQuotient(m, n) && q == A.TruncDiv(m, n)
    ensures CallValue(DivFn, m, n) == CVal(q) && CallValue(ModFn, m, n) == CVal(m - n * q)
  {
    A.TruncDivBound(m, n);
    A.TruncDivUnique(m, n, q);
    assert A.Fits32(q);
  }

  /** There is such a quotient. */
  lemma QuotientExists(m: int, n: int) returns (q: int)
    requires n != 0
    ensures SmallerSize(m - n * q, n) && (m >= 0 ==> m - n * q >= 0) && (m <= 0 ==> m - n * q <= 0)
  {
    q := A.TruncDiv(m, n);
    A.TruncDivUnique(m, n, q);
  }

  lemma QuotientsPanic(m: int, n: int, k: nat, cs: CState)
    requires Int32Range(m) && NoQuotient(m, n)
    ensures Gives(Div, m, n, I32, k, cs, CCall(DivFn, CInt(m), CInt(n)), CPanic)
    ensures Gives(Mod, m, n, I32, k, cs, CCall(ModFn, CInt(m), CInt(n)), CPanic)
  {
    CallOnInts(DivFn, m, n, cs);
    CallOnInts(ModFn, m, n, cs);
    if n == -1 { A.TruncDivUnique(m, n, -m); }
    LiteralText(Div, m, n, I32, k, cs, CCall(DivFn, CInt(m), CInt(n)), CPanic);
    LiteralText(Mod, m, n, I32, k, cs, CCall(ModFn, CInt(m), CInt(n)), CPanic);
  }

  lemma ComparisonText(op: BinOp, m: int, n: int, k: nat, cs: CState, c: CmpOp, b: bool)
    requires (IsEquality(op) || IsRelational(op)) && CmpOf(op) == c && CmpHolds(c, m, n) == b
    ensures Gives(op, m, n, Bool, k, cs, CCmp(c, CInt(m), CInt(n)), Truth(b))
  {
    assert Value(CInt(m), cs) == CVal(m) && Value(CInt(n), cs) == CVal(n);
    LiteralText(op, m, n, Bool, k, cs, CCmp(c, CInt(m), CInt(n)), Truth(b));
  }

  lemma Equalities(m: int, n: int, k: nat, cs: CState)
    ensures Gives(Eq, m, n, Bool, k, cs, CCmp(CEq, CInt(m), CInt(n)), Truth(m == n))
    ensures Gives(Neq, m, n, Bool, k, cs, CCmp(CNe, CInt(m), CInt(n)), Truth(m != n))
  {
    ComparisonText(Eq, m, n, k, cs, CEq, m == n);
    ComparisonText(Neq, m, n, k, cs, CNe, m != n);
  }

  lemma Orderings(m: int, n: int, k: nat, cs: CState)
    ensures Gives(Lt, m, n, Bool, k, cs, CCmp(CLt, CInt(m), CInt(n)), Truth(m < n))
    ensures Gives(Gt, m, n, Bool, k, cs, CCmp(CGt, CInt(m), CInt(n)), Truth(m > n))
    ensures Gives(LtEq, m, n, Bool, k, cs, CCmp(CLe, CInt(m), CInt(n)), Truth(m <= n))
    ensures Gives(GtEq, m, n, Bool, k, cs, CCmp(CGe, CInt(m), CInt(n)), Truth(m >= n))
  {
    ComparisonText(Lt, m, n, k, cs, CLt, m < n);
    ComparisonText(Gt, m, n, k, cs, CGt, m > n);
    ComparisonText(LtEq, m, n, k, cs, CLe, m <= n);
    ComparisonText(GtEq, m, n, k, cs, CGe, m >= n);
  }

  lemma BoolComparisons(a: bool, b: bool, k: nat, cs: CState)
    ensures Value(Emit(Binary(Eq, BoolLit(a), BoolLit(b), Bool), k).val, cs) == Truth(a == b)
    ensures Value(Emit(Binary(Neq, BoolLit(a), BoolLit(b), Bool), k).val, cs) == Truth(a != b)
  {
    var m, n := if a then 1 else 0, if b then 1 else 0;
    assert Emit(BoolLit(a), k) == Emit(IntLit(m), k) && Emit(BoolLit(b), k) == Emit(IntLit(n), k);
    ComparisonText(Eq, m, n, k, cs, CEq, m == n);
    ComparisonText(Neq, m, n, k, cs, CNe, m != n);
  }

  /** Which operators take two integers, two truth values, or one of each. */
  lemma TypedOperators(op: BinOp, m: int, n: int, a: bool, b: bool, ty: Ty)
    ensures TypedExpr(map[], Binary(op, IntLit(m), IntLit(n), ty)) <==>
            Int32Range(m) && Int32Range(n) &&
            match op
            case Add | Sub | Mul | Div | Mod => ty == I32
            case Eq | Neq | Lt | Gt | LtEq | GtEq => ty == Ty.Bool
            case And | Or => false
    ensures TypedExpr(map[], Binary(op, BoolLit(a), BoolLit(b), ty)) <==>
            ty == Ty.Bool && (op == And || op == Or || op == Eq || op == Neq)
    ensures !TypedExpr(map[], Binary(op, IntLit(m), BoolLit(b), ty))
    ensures !TypedExpr(map[], Binary(op, BoolLit(a), IntLit(n), ty))
  {
    assert TypedExpr(map[], IntLit(m)) <==> Int32Range(m);
    assert TypedExpr(map[], IntLit(n)) <==> Int32Range(n);
    assert TypedExpr(map[], BoolLit(a)) && TypedExpr(map[], BoolLit(b));
  }

  lemma UnaryOperators(a: bool, n: int, k: nat, cs: CState)
    requires Int32Range(n)
    ensures Value(Emit(BoolLit(a), k).val, cs) == Truth(a) && Value(Emit(IntLit(n), k).val, cs) == CVal(n)
    ensures Value(Emit(Unary(Not, BoolLit(a), Bool), k).val, cs) == Truth(!a)
    ensures Value(Emit(Unary(Neg, IntLit(n), I32), k).val, cs) == Exactly(-n)
  {
    assert Emit(BoolLit(a), k) == Emitted([], CInt(if a then 1 else 0), k);
    assert Emit(IntLit(n), k) == Emitted([], CInt(n), k);
  }

  // ----- running emitted code -----

  /** Running what is emitted for `e` ends with this number in its one new temporary. */
  ghost predicate Leaves(e: Expr, k: nat, cs: CState, fuel: nat, ty: CTy, n: int) {
    var em := Emit(e, k);
    em.val == CVar(Tmp(k)) && Run(em.pre, cs, fuel) == CDone(cs[Tmp(k) := CCell(ty, false, Some(n))])
  }

  lemma EmptyPrefix(ss: seq<CStmt>)
    ensures [] + ss == ss
  {
  }

  lemma LogicalEmits(e: Expr, k: nat)
    requires e.Binary? && IsLogical(e.op)
    ensures Emit(e, k) == LogicalEmitted(e, k)
  {
  }

  lemma LogicalText(op: BinOp, l: Expr, r: Expr, k: nat, el: Emitted, er: Emitted)
    requires IsLogical(op) && el == Emit(l, k) && el.pre == [] && er == Emit(r, el.next + 1)
    ensures Emit(Binary(op, l, r, Bool), k) == Emitted(LogicalTail(op, el, er), CVar(Tmp(el.next)), er.next)
  {
    LogicalEmits(Binary(op, l, r, Bool), k);
    EmptyPrefix(LogicalTail(op, el, er));
  }

  lemma LeftDecides(op: BinOp, a: bool, r: Expr, k: nat, cs: CState, fuel: nat)
    requires IsLogical(op) && a == (op == Or) && Tmp(k) !in cs
    ensures Leaves(Binary(op, BoolLit(a), r, Bool), k, cs, fuel, UInt8, if a then 1 else 0)
  {
    var el, er := Emitted([], CInt(if a then 1 else 0), k), Emit(r, k + 1);
    LogicalText(op, BoolLit(a), r, k, el, er);
    TailRun(op, a, el, er, cs, fuel);
  }

  /** When the left side decides, the right one is not run, whatever it is. */
  lemma ShortCircuits(r: Expr, k: nat, cs: CState, fuel: nat)
    requires Tmp(k) !in cs
    ensures Leaves(Binary(And, BoolLit(false), r, Bool), k, cs, fuel, UInt8, 0)
    ensures Leaves(Binary(Or, BoolLit(true), r, Bool), k, cs, fuel, UInt8, 1)
  {
    LeftDecides(And, false, r, k, cs, fuel);
    LeftDecides(Or, true, r, k, cs, fuel);
  }

  lemma RightStored(t: nat, n: int, v: int, ty: CTy, cs: CState, fuel: nat)
    requires Tmp(t) in cs && cs[Tmp(t)].ty == ty && !cs[Tmp(t)].isConst && Stored(ty, n) == Some(v)
    ensures CLeave(cs, Run([] + [Set(Tmp(t), CInt(n))], cs, fuel)) == CDone(cs[Tmp(t) := CCell(ty, false, Some(v))])
  {
    var cs' := cs[Tmp(t) := CCell(ty, false, Some(v))];
    assert [] + [Set(Tmp(t), CInt(n))] == [Set(Tmp(t), CInt(n))];
    RunOne(Set(Tmp(t), CInt(n)), cs, fuel);
    assert CRestrict(cs, cs') == cs';
  }

  lemma TailStores(op: BinOp, a: bool, m: int, k: nat, el: Emitted, er: Emitted, cs: CState, fuel: nat)
    requires IsLogical(op) && a != (op == Or) && Tmp(k) !in cs && 0 <= m < 256
    requires el == Emitted([], CInt(if a then 1 else 0), k) && er == Emitted([], CInt(m), k + 1)
    ensures Run(LogicalTail(op, el, er), cs, fuel) == CDone(cs[Tmp(k) := CCell(UInt8, false, Some(m))])
  {
    TailRun(op, a, el, er, cs, fuel);
    var cs1 := cs[Tmp(k) := CCell(UInt8, false, Some(if a then 1 else 0))];
    RightStored(k, m, m, UInt8, cs1, fuel);
    assert cs1[Tmp(k) := CCell(UInt8, false, Some(m))] == cs[Tmp(k) := CCell(UInt8, false, Some(m))];
  }

  lemma RightDecides(op: BinOp, a: bool, b: bool, k: nat, cs: CState, fuel: nat)
    requires IsLogical(op) && a != (op == Or) && Tmp(k) !in cs
    ensures Leaves(Binary(op, BoolLit(a), BoolLit(b), Bool), k, cs, fuel, UInt8, if b then 1 else 0)
  {
    var m := if b then 1 else 0;
    var el, er := Emitted([], CInt(if a then 1 else 0), k), Emitted([], CInt(m), k + 1);
    LogicalText(op, BoolLit(a), BoolLit(b), k, el, er);
    TailStores(op, a, m, k, el, er, cs, fuel);
  }

  lemma TruthTables(a: bool, b: bool, k: nat, cs: CState, fuel: nat)
    requires Tmp(k) !in cs
    ensures Leaves(Binary(And, BoolLit(a), BoolLit(b), Bool), k, cs, fuel, UInt8, if a && b then 1 else 0)
    ensures Leaves(Binary(Or, BoolLit(a), BoolLit(b), Bool), k, cs, fuel, UInt8, if a || b then 1 else 0)
  {
    if a {
      RightDecides(And, a, b, k, cs, fuel);
      LeftDecides(Or, a, BoolLit(b), k, cs, fuel);
    } else {
      LeftDecides(And, a, BoolLit(b), k, cs, fuel);
      RightDecides(Or, a, b, k, cs, fuel);
    }
  }

  // ----- conditionals -----

  /** `if b { t }` runs `t` in a scope of its own, or does nothing. */
  lemma WithoutElse(b: bool, t: Block, k: nat, cs: CState, fuel: nat)
    requires t.tail.None?
    ensures Run(Emit(If(BoolLit(b), t, None, Unit), k).pre, cs, fuel) ==
            if b then CLeave(cs, Run(EmitBlock(t, k).pre, cs, fuel)) else CDone(cs)
  {
    var e := If(BoolLit(b), t, None, Unit);
    var c := CInt(if b then 1 else 0);
    var s := IfElse(c, EmitBlock(t, k).pre, NoElse);
    assert Emit(e.cond, k) == Emitted([], c, k);
    assert EmitBlock(t, k).pre + [] == EmitBlock(t, k).pre;
    assert EmitBranches(e, c, k).pre == [s];
    assert [] + [s] == [s];
    RunOne(s, cs, fuel);
  }

  /** `if b { n } else { m }` leaves the number of its branch. */
  lemma Choice(b: bool, n: int, m: int, k: nat, cs: CState, fuel: nat)
    requires Tmp(k) !in cs && Int32Range(n) && Int32Range(m)
    ensures Leaves(If(BoolLit(b), Block([], Some(IntLit(n))), Some(IntLit(m)), I32), k, cs, fuel, Int32,
                   if b then n else m)
  {
    ChoiceText(b, n, m, k);
    var d, s := Decl(false, Int32, Tmp(k), None),
                IfElse(CInt(if b then 1 else 0), [] + [Set(Tmp(k), CInt(n))], Else([] + [Set(Tmp(k), CInt(m))]));
    RunTwo(d, s, cs, fuel);
    var v, cs1 := if b then n else m, cs[Tmp(k) := CCell(Int32, false, None)];
    RightStored(k, v, v, Int32, cs1, fuel);
    assert cs1[Tmp(k) := CCell(Int32, false, Some(v))] == cs[Tmp(k) := CCell(Int32, false, Some(v))];
  }

  lemma ChoiceText(b: bool, n: int, m: int, k: nat)
    ensures Emit(If(BoolLit(b), Block([], Some(IntLit(n))), Some(IntLit(m)), I32), k) ==
            Emitted([Decl(false, Int32, Tmp(k), None),
                     IfElse(CInt(if b then 1 else 0), [] + [Set(Tmp(k), CInt(n))], Else([] + [Set(Tmp(k), CInt(m))]))],
                    CVar(Tmp(k)), k + 1)
  {
    var e, c := If(BoolLit(b), Block([], Some(IntLit(n))), Some(IntLit(m)), I32), CInt(if b then 1 else 0);
    assert Emit(e.cond, k) == Emitted([], c, k);
    BranchTexts(n, m, k + 1);
    var pre := EmitBranches(e, c, k).pre;
    assert [] + pre == pre;
  }

  lemma BranchTexts(n: int, m: int, k: nat)
    ensures EmitBlock(Block([], Some(IntLit(n))), k) == Emitted([], CInt(n), k)
    ensures Emit(IntLit(m), k) == Emitted([], CInt(m), k)
  {
    assert EmitStmts([], k) == Emitted([], CVoid, k) && Emit(IntLit(n), k) == Emitted([], CInt(n), k);
  }

  // ----- variables -----

  ghost predicate Holds(cs: CState, x: string, n: int) {
    User(x) in cs && cs[User(x)] == CCell(Int32, false, Some(n))
  }

  lemma Declaration(x: string, mutable: bool, n: int, a: bool, k: nat, cs: CState, fuel: nat)
    requires User(x) !in cs && Int32Range(n)
    ensures Run(EmitStmt(Let(x, mutable, I32, IntLit(n)), k).pre, cs, fuel) ==
            CDone(cs[User(x) := CCell(Int32, !mutable, Some(n))])
    ensures Run(EmitStmt(Let(x, mutable, Bool, BoolLit(a)), k).pre, cs, fuel) ==
            CDone(cs[User(x) := CCell(UInt8, !mutable, Some(if a then 1 else 0))])
  {
    var i, j := Decl(!mutable, Int32, User(x), Some(CInt(n))),
                Decl(!mutable, UInt8, User(x), Some(CInt(if a then 1 else 0)));
    assert Emit(IntLit(n), k).pre + [i] == [i] && Emit(BoolLit(a), k).pre + [j] == [j];
    RunOne(i, cs, fuel);
    RunOne(j, cs, fuel);
  }

  /** `x = x + 1;` */
  function Increment(x: string): Stmt { Assign(x, Binary(Add, Ident(x, I32), IntLit(1), I32)) }

  lemma Incremented(x: string, m: int, k: nat, cs: CState, fuel: nat)
    requires Holds(cs, x, m) && Int32Range(m)
    ensures EmitStmt(Increment(x), k) == Emitted([Set(User(x), CCall(AddFn, CVar(User(x)), CInt(1)))], CVoid, k)
    ensures Step(Set(User(x), CCall(AddFn, CVar(User(x)), CInt(1))), cs, fuel) ==
            if m == 0x7fff_ffff then CPanics else CDone(cs[User(x) := CCell(Int32, false, Some(m + 1))])
  {
    assert Emit(Ident(x, I32), k) == Emitted([], CVar(User(x)), k);
    assert Emit(IntLit(1), k) == Emitted([], CInt(1), k);
    assert Value(CVar(User(x)), cs) == CVal(m) && Value(CInt(1), cs) == CVal(1);
  }

  /** `{ let x = n; x }` */
  function Local(x: string, mutable: bool, n: int): Expr {
    BlockExpr(Block([Let(x, mutable, I32, IntLit(n))], Some(Ident(x, I32))))
  }

  lemma LocalBlockText(x: string, mutable: bool, n: int, k: nat)
    ensures EmitBlock(Local(x, mutable, n).block, k) ==
            Emitted([Decl(!mutable, Int32, User(x), Some(CInt(n)))], CVar(User(x)), k)
  {
    var l, i := Let(x, mutable, I32, IntLit(n)), Decl(!mutable, Int32, User(x), Some(CInt(n)));
    assert Emit(IntLit(n), k).pre + [i] == [i];
    assert EmitStmt(l, k) == Emitted([i], CVoid, k);
    assert [l][1..] == [] && EmitStmts([], k) == Emitted([], CVoid, k);
    assert [i] + [] == [i];
    assert Emit(Ident(x, I32), k) == Emitted([], CVar(User(x)), k);
  }

  lemma LocalText(x: string, mutable: bool, n: int, k: nat)
    ensures Emit(Local(x, mutable, n), k) ==
            Emitted([Decl(false, Int32, Tmp(k), None),
                     Scope([Decl(!mutable, Int32, User(x), Some(CInt(n))), Set(Tmp(k), CVar(User(x)))])],
                    CVar(Tmp(k)), k + 1)
  {
    LocalBlockText(x, mutable, n, k + 1);
    var i, s := Decl(!mutable, Int32, User(x), Some(CInt(n))), Set(Tmp(k), CVar(User(x)));
    assert [i] + [s] == [i, s] && BlockTy(Local(x, mutable, n).block) == Ty.I32;
  }

  /** It leaves `n` in its temporary, and no `x`. */
  lemma LocalValue(x: string, mutable: bool, n: int, k: nat, cs: CState, fuel: nat)
    requires User(x) !in cs && Tmp(k) !in cs && Int32Range(n)
    ensures Leaves(Local(x, mutable, n), k, cs, fuel, Int32, n)
  {
    LocalText(x, mutable, n, k);
    var i, s := Decl(!mutable, Int32, User(x), Some(CInt(n))), Set(Tmp(k), CVar(User(x)));
    RunTwo(Decl(false, Int32, Tmp(k), None), Scope([i, s]), cs, fuel);
    var cs1 := cs[Tmp(k) := CCell(Int32, false, None)];
    RunTwo(i, s, cs1, fuel);
    var cs2 := cs1[User(x) := CCell(Int32, !mutable, Some(n))];
    var cs3 := cs2[Tmp(k) := CCell(Int32, false, Some(n))];
    assert CRestrict(cs1, cs3) == cs[Tmp(k) := CCell(Int32, false, Some(n))];
  }

  /** A discarded result is still computed: `m / 0;` panics. */
  lemma DiscardedQuotient(m: int, k: nat, cs: CState, fuel: nat)
    requires Int32Range(m)
    ensures Run(EmitStmt(ExprStmt(Binary(Div, IntLit(m), IntLit(0), I32)), k).pre, cs, fuel) == CPanics
  {
    QuotientsPanic(m, 0, k, cs);
    var d := Do(CCall(DivFn, CInt(m), CInt(0)));
    assert [] + [d] == [d];
    RunOne(d, cs, fuel);
  }

  // ----- loops -----

  lemma LoopText(c: Expr, cv: CExpr, b: Block, k: nat)
    requires Emit(c, k) == Emitted([], cv, k) && b.tail.None?
    ensures EmitStmt(While(c, b), k).pre == [Forever([BreakUnless(cv)] + EmitBlock(b, k).pre)]
  {
    var eb := EmitBlock(b, k);
    assert [] + [BreakUnless(cv)] == [BreakUnless(cv)];
    assert [BreakUnless(cv)] + eb.pre + [] == [BreakUnless(cv)] + eb.pre;
  }

  lemma Entered(c: CExpr, body: seq<CStmt>, cs: CState, fuel: nat)
    requires Value(c, cs).CVal?
    ensures Run([BreakUnless(c)] + body, cs, fuel) ==
            if Value(c, cs).n == 0 then CBreaks(cs) else Run(body, cs, fuel)
  {
    assert ([BreakUnless(c)] + body)[1..] == body;
  }

  /** `while false { ... }` does nothing, whatever its body is. */
  lemma NeverEntered(b: Block, k: nat, cs: CState, fuel: nat)
    requires b.tail.None? && fuel > 0
    ensures Run(EmitStmt(While(BoolLit(false), b), k).pre, cs, fuel) == CDone(cs)
  {
    LoopText(BoolLit(false), CInt(0), b, k);
    var body := EmitBlock(b, k).pre;
    Entered(CInt(0), body, cs, fuel);
    RunOne(Forever([BreakUnless(CInt(0))] + body), cs, fuel);
    assert CRestrict(cs, cs) == cs;
  }

  /** `while true { }` uses up any fuel. */
  lemma NeverLeft(k: nat, cs: CState, fuel: nat)
    ensures Run(EmitStmt(While(BoolLit(true), Block([], None)), k).pre, cs, fuel) == COutOfFuel
  {
    LoopText(BoolLit(true), CInt(1), Block([], None), k);
    assert EmitBlock(Block([], None), k).pre == [];
    RunOne(Forever([BreakUnless(CInt(1))] + []), cs, fuel);
    Spins(cs, fuel);
  }

  lemma {:induction false} Spins(cs: CState, fuel: nat)
    ensures Loop(Forever([BreakUnless(CInt(1))] + []), cs, fuel) == COutOfFuel
  {
    if fuel > 0 {
      Entered(CInt(1), [], cs, fuel);
      assert CRestrict(cs, cs) == cs;
      Spins(cs, fuel - 1);
    }
  }

  /** What may follow the increment in a loop body: nothing, or a jump and code that is
      never reached. */
  datatype Jump = NoJump | Again(unreached: seq<Stmt>) | Out(unreached: seq<Stmt>)

  function JumpStmts(j: Jump): seq<Stmt> {
    match j
    case NoJump => []
    case Again(rest) => [Continue] + rest
    case Out(rest) => [Break] + rest
  }

  /** `while x < n { x = x + 1; ... }` */
  function CountTo(x: string, n: int, j: Jump): Stmt {
    While(Binary(Lt, Ident(x, I32), IntLit(n), Bool), Block([Increment(x)] + JumpStmts(j), None))
  }

  function CompareText(x: string, n: int): CExpr { CCmp(CLt, CVar(User(x)), CInt(n)) }

  lemma CompareTextValue(x: string, m: int, n: int, k: nat, cs: CState)
    requires Holds(cs, x, m)
    ensures Emit(Binary(Lt, Ident(x, I32), IntLit(n), Bool), k) == Emitted([], CompareText(x, n), k)
    ensures Value(CompareText(x, n), cs) == CVal(if m < n then 1 else 0)
  {
    assert Emit(Ident(x, I32), k) == Emitted([], CVar(User(x)), k);
    assert Emit(IntLit(n), k) == Emitted([], CInt(n), k);
    assert Value(CVar(User(x)), cs) == CVal(m) && Value(CInt(n), cs) == CVal(n);
  }

  function JumpText(j: Jump, k: nat): seq<CStmt> { EmitStmts(JumpStmts(j), k).pre }

  lemma JumpRun(j: Jump, k: nat, cs: CState, fuel: nat)
    ensures Run(JumpText(j, k), cs, fuel) ==
            match j case NoJump => CDone(cs) case Again(_) => CContinues(cs) case Out(_) => CBreaks(cs)
  {
    if !j.NoJump? {
      var ss := JumpStmts(j);
      assert ss[0] == if j.Again? then Continue else Break;
      var c := if j.Again? then CContinue else CBreak;
      assert EmitStmt(ss[0], k) == Emitted([c], CVoid, k);
      assert ([c] + EmitStmts(ss[1..], k).pre)[0] == c;
    }
  }

  function RoundText(x: string, n: int, j: Jump, k: nat): seq<CStmt> {
    [BreakUnless(CompareText(x, n))] + ([Set(User(x), CCall(AddFn, CVar(User(x)), CInt(1)))] + JumpText(j, k))
  }

  lemma CountText(x: string, m: int, n: int, j: Jump, k: nat, cs: CState)
    requires Holds(cs, x, m) && Int32Range(m)
    ensures EmitStmt(CountTo(x, n, j), k).pre == [Forever(RoundText(x, n, j, k))]
  {
    CompareTextValue(x, m, n, k, cs);
    Incremented(x, m, k, cs, 0);
    var ss := [Increment(x)] + JumpStmts(j);
    assert ss[1..] == JumpStmts(j);
    LoopText(Binary(Lt, Ident(x, I32), IntLit(n), Bool), CompareText(x, n), Block(ss, None), k);
  }

  /** One round of the loop, with the scope of its body left. */
  lemma Round(x: string, m: int, n: int, j: Jump, k: nat, cs: CState, fuel: nat)
    requires Holds(cs, x, m) && Int32Range(m) && Int32Range(n)
    ensures var cs1 := cs[User(x) := CCell(Int32, false, Some(m + 1))];
            CLeave(cs, Run(RoundText(x, n, j, k), cs, fuel)) ==
            if m >= n then CBreaks(cs)
            else match j case NoJump => CDone(cs1) case Again(_) => CContinues(cs1) case Out(_) => CBreaks(cs1)
  {
    CompareTextValue(x, m, n, k, cs);
    var s := Set(User(x), CCall(AddFn, CVar(User(x)), CInt(1)));
    Entered(CompareText(x, n), [s] + JumpText(j, k), cs, fuel);
    assert CRestrict(cs, cs) == cs;
    if m < n {
      Incremented(x, m, k, cs, fuel);
      var cs1 := cs[User(x) := CCell(Int32, false, Some(m + 1))];
      assert ([s] + JumpText(j, k))[1..] == JumpText(j, k);
      JumpRun(j, k, cs1, fuel);
      assert CRestrict(cs, cs1) == cs1;
    }
  }

  /** `while x < n { x = x + 1; }`, also with a `continue` after the increment, takes one
      round for every step up to `n` and one more to see that it is there. */
  lemma {:induction false} CountsRounds(x: string, m: int, n: int, j: Jump, k: nat, cs: CState, fuel: nat)
    requires Holds(cs, x, m) && Int32Range(m) && Int32Range(n) && !j.Out?
    ensures Loop(Forever(RoundText(x, n, j, k)), cs, fuel) ==
            if fuel == 0 || fuel <= n - m then COutOfFuel
            else CDone(if m < n then cs[User(x) := CCell(Int32, false, Some(n))] else cs)
    decreases fuel
  {
    if fuel > 0 {
      Round(x, m, n, j, k, cs, fuel);
      if m < n {
        var cs1 := cs[User(x) := CCell(Int32, false, Some(m + 1))];
        CountsRounds(x, m + 1, n, j, k, cs1, fuel - 1);
        assert cs1[User(x) := CCell(Int32, false, Some(n))] == cs[User(x) := CCell(Int32, false, Some(n))];
      }
    }
  }

  lemma Counts(x: string, m: int, n: int, j: Jump, k: nat, cs: CState, fuel: nat)
    requires Holds(cs, x, m) && Int32Range(m) && Int32Range(n) && !j.Out?
    ensures Run(EmitStmt(CountTo(x, n, j), k).pre, cs, fuel) ==
            if fuel == 0 || fuel <= n - m then COutOfFuel
            else CDone(if m < n then cs[User(x) := CCell(Int32, false, Some(n))] else cs)
  {
    CountText(x, m, n, j, k, cs);
    CountsRounds(x, m, n, j, k, cs, fuel);
    RunOne(Forever(RoundText(x, n, j, k)), cs, fuel);
  }

  /** With a `break` after the increment there is at most one step. */
  lemma CountsOnce(x: string, m: int, n: int, rest: seq<Stmt>, k: nat, cs: CState, fuel: nat)
    requires Holds(cs, x, m) && Int32Range(m) && Int32Range(n) && fuel > 0
    ensures Run(EmitStmt(CountTo(x, n, Out(rest)), k).pre, cs, fuel) ==
            CDone(if m < n then cs[User(x) := CCell(Int32, false, Some(m + 1))] else cs)
  {
    CountText(x, m, n, Out(rest), k, cs);
    Round(x, m, n, Out(rest), k, cs, fuel);
    RunOne(Forever(RoundText(x, n, Out(rest), k)), cs, fuel);
  }
}
