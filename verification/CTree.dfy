/**
 The C that the back end emits, as a tree, and what it does.

 The semantics is defensive: reading an uninitialised or undeclared name, declaring a
 name twice, writing a const, a value that does not fit its type, or using the void
 expression as a value all end in `Undefined`. C leaves the order of operands open,
 so an operator is evaluated with both operand values at hand.
 */
module CTree {
  import opened Wrappers
  import A = CheckedArith

  /** Source variables and the generator's numbered temporaries. */
  datatype Name = User(id: string) | Tmp(n: nat)

  datatype CTy = Int32 | UInt8

  datatype CmpOp = CEq | CNe | CLt | CGt | CLe | CGe

  datatype RtFn = AddFn | SubFn | MulFn | DivFn | ModFn

  datatype CExpr =
    | CInt(n: int)
    | CVar(x: Name)
    | CNot(e: CExpr)                              // (!(e))
    | CNeg(e: CExpr)                              // osc_neg_i32(e)
    | CCall(fn: RtFn, l: CExpr, r: CExpr)         // osc_add_i32(l, r), ...
    | CCmp(op: CmpOp, l: CExpr, r: CExpr)         // l == r, ... without parentheses
    | CVoid                                       // (void)0

  datatype CStmt =
    | Decl(isConst: bool, ty: CTy, x: Name, init: Option<CExpr>)
    | Set(x: Name, e: CExpr)
    | Do(e: CExpr)
    | IfElse(c: CExpr, thn: seq<CStmt>, els: Else)
    | Scope(body: seq<CStmt>)
    | Forever(body: seq<CStmt>)                   // while (1) { ... }
    | BreakUnless(c: CExpr)                       // if (!(c)) break;
    | CBreak
    | CContinue

  datatype Else = NoElse | Else(body: seq<CStmt>)

  // ----- how a C parser reads unparenthesised comparisons -----

  predicate EqualityLevel(op: CmpOp) { op == CEq || op == CNe }

  /** `==` and `!=` bind looser than `<`, `>`, `<=` and `>=`. */
  function Level(op: CmpOp): nat { if EqualityLevel(op) then 0 else 1 }

  /** The tree that a C parser builds for the text of `l`, an operator, and the text of
      `r`: comparisons associate to the left and the tighter level groups first. */
  function Splice(l: CExpr, op: CmpOp, r: CExpr): CExpr
    decreases r, l
  {
    if r.CCmp? && Level(r.op) <= Level(op) then CCmp(r.op, Splice(l, op, r.l), r.r)
    else if l.CCmp? && Level(l.op) < Level(op) then CCmp(l.op, l.l, Splice(l.r, op, r))
    else CCmp(op, l, r)
  }

  // ----- dynamic semantics -----

  /** A variable: its type, whether it is const, and its value once initialised. */
  datatype CCell = CCell(ty: CTy, isConst: bool, v: Option<int>)

  type CState = map<Name, CCell>

  datatype CValue = CVal(n: int) | CPanic | CBad

  datatype COutcome =
    | CDone(cs: CState)
    | CBreaks(cs: CState)
    | CContinues(cs: CState)
    | CPanics
    | COutOfFuel
    | Undefined

  function BoolInt(b: bool): int { if b then 1 else 0 }

  function FromChecked(c: A.Checked<A.i32>): CValue {
    match c
    case Ok(n) => CVal(n as int)
    case Panic => CPanic
  }

  function CallValue(fn: RtFn, a: int, b: int): CValue {
    if !A.Fits32(a) || !A.Fits32(b) then CBad
    else
      var x, y := a as A.i32, b as A.i32;
      FromChecked(match fn
                  case AddFn => A.AddI32(x, y)
                  case SubFn => A.SubI32(x, y)
                  case MulFn => A.MulI32(x, y)
                  case DivFn => A.DivI32(x, y)
                  case ModFn => A.ModI32(x, y))
  }

  predicate CmpHolds(op: CmpOp, a: int, b: int) {
    match op
    case CEq => a == b
    case CNe => a != b
    case CLt => a < b
    case CGt => a > b
    case CLe => a <= b
    case CGe => a >= b
  }

  function Value(e: CExpr, cs: CState): CValue {
    match e
    case CInt(n) => CVal(n)
    case CVar(x) => if x in cs && cs[x].v.Some? then CVal(cs[x].v.value) else CBad
    case CNot(a) =>
      var v := Value(a, cs);
      if v.CVal? then CVal(BoolInt(v.n == 0)) else v
    case CNeg(a) =>
      var v := Value(a, cs);
      if !v.CVal? then v
      else if !A.Fits32(v.n) then CBad
      else FromChecked(A.NegI32(v.n as A.i32))
    case CCall(fn, l, r) =>
      var v, w := Value(l, cs), Value(r, cs);
      if v.CBad? || w.CBad? then CBad
      else if v.CPanic? || w.CPanic? then CPanic
      else CallValue(fn, v.n, w.n)
    case CCmp(op, l, r) =>
      var v, w := Value(l, cs), Value(r, cs);
      if v.CBad? || w.CBad? then CBad
      else if v.CPanic? || w.CPanic? then CPanic
      else CVal(BoolInt(CmpHolds(op, v.n, w.n)))
    case CVoid => CBad
  }

  /** Storing into a variable: an out-of-range i32 is not allowed, a byte wraps. */
  function Stored(ty: CTy, n: int): Option<int> {
    match ty
    case Int32 => if A.Fits32(n) then Some(n) else None
    case UInt8 => Some(n % 256)
  }

  function Write(x: Name, cell: CCell, v: CValue, cs: CState): COutcome {
    match v
    case CBad => Undefined
    case CPanic => CPanics
    case CVal(n) =>
      if Stored(cell.ty, n).Some? then CDone(cs[x := cell.(v := Stored(cell.ty, n))]) else Undefined
  }

  function CRestrict(outer: CState, inner: CState): CState {
    map x | x in inner && x in outer :: inner[x]
  }

  function CLeave(outer: CState, o: COutcome): COutcome {
    match o
    case CDone(cs) => CDone(CRestrict(outer, cs))
    case CBreaks(cs) => CBreaks(CRestrict(outer, cs))
    case CContinues(cs) => CContinues(CRestrict(outer, cs))
    case _ => o
  }

  function Run(ss: seq<CStmt>, cs: CState, fuel: nat): COutcome
    decreases fuel, ss, 1
  {
    if ss == [] then CDone(cs)
    else
      var o := Step(ss[0], cs, fuel);
      if o.CDone? then Run(ss[1..], o.cs, fuel) else o
  }

  function Step(s: CStmt, cs: CState, fuel: nat): COutcome
    decreases fuel, s, 1
  {
    match s
    case Decl(isConst, ty, x, init) =>
      if x in cs then Undefined
      else if init.None? then CDone(cs[x := CCell(ty, isConst, None)])
      else Write(x, CCell(ty, isConst, None), Value(init.value, cs), cs)
    case Set(x, e) =>
      if x !in cs || cs[x].isConst then Undefined else Write(x, cs[x], Value(e, cs), cs)
    case Do(e) =>
      (match Value(e, cs)
       case CVal(_) => CDone(cs)
       case CPanic => CPanics
       case CBad => Undefined)
    case IfElse(c, t, f) =>
      (match Value(c, cs)
       case CVal(n) =>
         if n != 0 then CLeave(cs, Run(t, cs, fuel))
         else if f.Else? then CLeave(cs, Run(f.body, cs, fuel))
         else CDone(cs)
       case CPanic => CPanics
       case CBad => Undefined)
    case Scope(b) => CLeave(cs, Run(b, cs, fuel))
    case Forever(_) => Loop(s, cs, fuel)
    case BreakUnless(c) =>
      (match Value(c, cs)
       case CVal(n) => if n == 0 then CBreaks(cs) else CDone(cs)
       case CPanic => CPanics
       case CBad => Undefined)
    case CBreak => CBreaks(cs)
    case CContinue => CContinues(cs)
  }

  function Loop(s: CStmt, cs: CState, fuel: nat): COutcome
    requires s.Forever?
    decreases fuel, s, 0
  {
    if fuel == 0 then COutOfFuel
    else
      var o := CLeave(cs, Run(s.body, cs, fuel));
      match o
      case CDone(cs') => Loop(s, cs', fuel - 1)
      case CContinues(cs') => Loop(s, cs', fuel - 1)
      case CBreaks(cs') => CDone(cs')
      case _ => o
  }

  // ----- general facts -----

  lemma {:induction false} RunConcat(a: seq<CStmt>, b: seq<CStmt>, cs: CState, fuel: nat)
    ensures Run(a + b, cs, fuel) ==
            var o := Run(a, cs, fuel); if o.CDone? then Run(b, o.cs, fuel) else o
    decreases |a|
  {
    if a == [] {
      assert a + b == b;
    } else {
      assert (a + b)[0] == a[0] && (a + b)[1..] == a[1..] + b;
      var o := Step(a[0], cs, fuel);
      if o.CDone? { RunConcat(a[1..], b, o.cs, fuel); }
    }
  }

  lemma RunOne(s: CStmt, cs: CState, fuel: nat)
    ensures Run([s], cs, fuel) == Step(s, cs, fuel)
  {
    var o := Step(s, cs, fuel);
    if o.CDone? { assert Run([], o.cs, fuel) == o; }
  }

  /** The variables an expression reads. */
  function Reads(e: CExpr): set<Name> {
    match e
    case CInt(_) => {}
    case CVar(x) => {x}
    case CNot(a) => Reads(a)
    case CNeg(a) => Reads(a)
    case CCall(_, l, r) => Reads(l) + Reads(r)
    case CCmp(_, l, r) => Reads(l) + Reads(r)
    case CVoid => {}
  }

  lemma {:induction false} SpliceReads(l: CExpr, op: CmpOp, r: CExpr)
    ensures Reads(Splice(l, op, r)) == Reads(l) + Reads(r)
    decreases r, l
  {
    if r.CCmp? && Level(r.op) <= Level(op) {
      SpliceReads(l, op, r.l);
    } else if l.CCmp? && Level(l.op) < Level(op) {
      SpliceReads(l.r, op, r);
    }
  }

  /** Some variables are still there with their values. */
  ghost predicate Within(cs: CState, cs': CState, vars: set<Name>) {
    forall x :: x in vars && x in cs ==> x in cs' && cs'[x] == cs[x]
  }

  /** An expression that has a value keeps it as long as the variables it reads do. */
  lemma {:induction false} ValueKept(e: CExpr, cs: CState, cs': CState)
    requires Within(cs, cs', Reads(e)) && Value(e, cs) != CBad
    ensures Value(e, cs') == Value(e, cs)
  {
    match e
    case CInt(_) =>
    case CVar(_) =>
    case CNot(a) => ValueKept(a, cs, cs');
    case CNeg(a) => ValueKept(a, cs, cs');
    case CCall(_, l, r) => ValueKept(l, cs, cs'); ValueKept(r, cs, cs');
    case CCmp(_, l, r) => ValueKept(l, cs, cs'); ValueKept(r, cs, cs');
    case CVoid =>
  }
}
