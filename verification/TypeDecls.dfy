/**
 Ordering the C type declarations.  A worklist emits the first declaration whose
 by-value types are all declared, until nothing is left or nothing is ready.
 */
module TypeDecls {
  import opened Sequences
  import opened Wrappers

  datatype BcType =
    | I32 | I64 | F64 | Bool | Str | Unit | Handle
    | Map | MapStrI32 | MapStrI64 | MapStrF64 | MapI32Str | MapI32I32
    | Struct(name: string)
    | Enum(name: string)
    | Array(element: BcType)
    | FixedArray(element: BcType, size: int)
    | ResultOf(ok: BcType, err: BcType)
    | FnPtr(params: seq<BcType>, ret: BcType, isExtern: bool)

  datatype CTypeDecl =
    | StructDecl(name: string, fields: seq<(string, BcType)>)
    | EnumDecl(name: string, variants: seq<(string, seq<BcType>)>)
    | ResultDecl(ok: BcType, err: BcType)
    | FnPtrDecl(ty: BcType)

  /** How result and function-pointer types are spelled in C, and the result types
      that the runtime header already declares.  Names may collide. */
  datatype Naming = Naming(
    resultName: (BcType, BcType) -> string,
    fnPtrName: BcType -> string,
    runtime: set<string>)

  function DeclName(n: Naming, d: CTypeDecl): string {
    match d
    case StructDecl(name, _) => name
    case EnumDecl(name, _) => name
    case ResultDecl(ok, err) => n.resultName(ok, err)
    case FnPtrDecl(ty) => n.fnPtrName(ty)
  }

  // ----- what an order must satisfy -----

  /** The C name a value of this type depends on; pointers and built-in types need none. */
  function NamedBy(n: Naming, ty: BcType): set<string> {
    match ty
    case Struct(name) => {name}
    case Enum(name) => {name}
    case ResultOf(ok, err) => {n.resultName(ok, err)} - n.runtime
    case FnPtr(_, _, _) => {n.fnPtrName(ty)}
    case _ => {}
  }

  function NamedByAll(n: Naming, types: seq<BcType>): set<string> {
    if types == [] then {} else NamedBy(n, types[0]) + NamedByAll(n, types[1..])
  }

  function NamedByFields(n: Naming, fields: seq<(string, BcType)>): set<string> {
    if fields == [] then {} else NamedBy(n, fields[0].1) + NamedByFields(n, fields[1..])
  }

  function NamedByVariants(n: Naming, variants: seq<(string, seq<BcType>)>): set<string> {
    if variants == [] then {} else NamedByAll(n, variants[0].1) + NamedByVariants(n, variants[1..])
  }

  /** The names that must be declared before `d`. */
  function Needs(n: Naming, d: CTypeDecl): set<string>
    requires WellFormed(d)
  {
    match d
    case StructDecl(_, fields) => NamedByFields(n, fields)
    case EnumDecl(_, variants) => NamedByVariants(n, variants)
    case ResultDecl(ok, err) => NamedBy(n, ok) + NamedBy(n, err)
    case FnPtrDecl(ty) => NamedByAll(n, ty.params) + NamedBy(n, ty.ret)
  }

  /** A function-pointer declaration holds a function-pointer type. */
  predicate WellFormed(d: CTypeDecl) {
    d.FnPtrDecl? ==> d.ty.FnPtr?
  }

  ghost function Declared(n: Naming, o: seq<CTypeDecl>): set<string> {
    set d | d in o :: DeclName(n, d)
  }

  /** Every declaration comes after all the types it names. */
  ghost predicate ValidOrder(n: Naming, o: seq<CTypeDecl>) {
    forall i :: 0 <= i < |o| ==> WellFormed(o[i]) && Needs(n, o[i]) <= Declared(n, o[..i])
  }

  ghost predicate Orderable(n: Naming, decls: multiset<CTypeDecl>) {
    exists o :: multiset(o) == decls && ValidOrder(n, o)
  }

  // ----- readiness -----

  predicate TypeIsAvailable(n: Naming, ty: BcType, available: set<string>) {
    match ty
    case Struct(name) => name in available
    case Enum(name) => name in available
    case ResultOf(ok, err) =>
      var name := n.resultName(ok, err);
      name in n.runtime || name in available
    case FnPtr(_, _, _) => n.fnPtrName(ty) in available
    case _ => true
  }

  predicate IsReady(n: Naming, d: CTypeDecl, available: set<string>) {
    match d
    case ResultDecl(ok, err) => TypeIsAvailable(n, ok, available) && TypeIsAvailable(n, err, available)
    case StructDecl(_, fields) => forall f :: f in fields ==> TypeIsAvailable(n, f.1, available)
    case EnumDecl(_, variants) =>
      forall v, ty :: v in variants && ty in v.1 ==> TypeIsAvailable(n, ty, available)
    case FnPtrDecl(FnPtr(params, ret, _)) =>
      (forall ty :: ty in params ==> TypeIsAvailable(n, ty, available)) && TypeIsAvailable(n, ret, available)
    case FnPtrDecl(_) => false
  }

  lemma OneAvailable(n: Naming, ty: BcType, available: set<string>)
    ensures TypeIsAvailable(n, ty, available) <==> NamedBy(n, ty) <= available
  {
  }

  lemma {:induction false} AllAvailable(n: Naming, types: seq<BcType>, available: set<string>)
    ensures (forall ty :: ty in types ==> TypeIsAvailable(n, ty, available)) <==> NamedByAll(n, types) <= available
  {
    if types != [] {
      OneAvailable(n, types[0], available);
      AllAvailable(n, types[1..], available);
      assert types == [types[0]] + types[1..];
    }
  }

  lemma {:induction false} FieldsAvailable(n: Naming, fields: seq<(string, BcType)>, available: set<string>)
    ensures (forall f :: f in fields ==> TypeIsAvailable(n, f.1, available)) <==> NamedByFields(n, fields) <= available
  {
    if fields != [] {
      OneAvailable(n, fields[0].1, available);
      FieldsAvailable(n, fields[1..], available);
      assert fields == [fields[0]] + fields[1..];
    }
  }

  lemma {:induction false} VariantsAvailable(n: Naming, variants: seq<(string, seq<BcType>)>, available: set<string>)
    ensures (forall v, ty :: v in variants && ty in v.1 ==> TypeIsAvailable(n, ty, available))
       <==> NamedByVariants(n, variants) <= available
  {
    if variants != [] {
      AllAvailable(n, variants[0].1, available);
      VariantsAvailable(n, variants[1..], available);
      assert variants == [variants[0]] + variants[1..];
    }
  }

  /** Readiness is: every name the declaration needs is declared. */
  lemma ReadyMeansNeedsMet(n: Naming, d: CTypeDecl, available: set<string>)
    ensures IsReady(n, d, available) <==> WellFormed(d) && Needs(n, d) <= available
  {
    match d
    case ResultDecl(ok, err) =>
    case StructDecl(_, fields) => FieldsAvailable(n, fields, available);
    case EnumDecl(_, variants) => VariantsAvailable(n, variants, available);
    case FnPtrDecl(ty) => if ty.FnPtr? { AllAvailable(n, ty.params, available); }
  }

  // ----- what the names stand for -----

  /** The type occurs by value in the C declaration: as a field, in the payload of a variant,
      as a side of a result, as a parameter or as the return type. */
  ghost predicate Component(d: CTypeDecl, ty: BcType) {
    match d
    case StructDecl(_, fields) => exists i :: 0 <= i < |fields| && fields[i].1 == ty
    case EnumDecl(_, variants) =>
      exists i, j :: 0 <= i < |variants| && 0 <= j < |variants[i].1| && variants[i].1[j] == ty
    case ResultDecl(ok, err) => ty == ok || ty == err
    case FnPtrDecl(FnPtr(params, ret, _)) => ty in params || ty == ret
    case FnPtrDecl(_) => false
  }

  /** The C declaration introduces this name. */
  ghost predicate Declares(n: Naming, d: CTypeDecl, name: string) {
    match d
    case StructDecl(own, _) => own == name
    case EnumDecl(own, _) => own == name
    case ResultDecl(ok, err) => n.resultName(ok, err) == name
    case FnPtrDecl(ty) => n.fnPtrName(ty) == name
  }

  ghost predicate DeclaredIn(n: Naming, o: seq<CTypeDecl>, name: string) {
    exists j :: 0 <= j < |o| && Declares(n, o[j], name)
  }

  /** C knows the type after these declarations: a struct or enum by its name, a result by
      its name or from the runtime header, a function pointer by its name; all else at once. */
  ghost predicate KnownAfter(n: Naming, o: seq<CTypeDecl>, ty: BcType) {
    match ty
    case Struct(name) => DeclaredIn(n, o, name)
    case Enum(name) => DeclaredIn(n, o, name)
    case ResultOf(ok, err) => n.resultName(ok, err) in n.runtime || DeclaredIn(n, o, n.resultName(ok, err))
    case FnPtr(_, _, _) => DeclaredIn(n, o, n.fnPtrName(ty))
    case _ => true
  }

  /** The C compiler accepts the order: it knows every component when it gets to it. */
  ghost predicate Compiles(n: Naming, o: seq<CTypeDecl>) {
    (forall i :: 0 <= i < |o| && o[i].FnPtrDecl? ==> o[i].ty.FnPtr?) &&
    forall i, ty :: 0 <= i < |o| && Component(o[i], ty) ==> KnownAfter(n, o[..i], ty)
  }

  /** A component is missing, or there is nothing that C could declare. */
  ghost predicate Lacking(n: Naming, o: seq<CTypeDecl>, d: CTypeDecl) {
    (d.FnPtrDecl? && !d.ty.FnPtr?) || exists ty :: Component(d, ty) && !KnownAfter(n, o, ty)
  }

  lemma AvailableIsKnown(n: Naming, o: seq<CTypeDecl>, ty: BcType)
    ensures TypeIsAvailable(n, ty, Declared(n, o)) <==> KnownAfter(n, o, ty)
  {
    forall name ensures name in Declared(n, o) <==> DeclaredIn(n, o, name) {
      if name in Declared(n, o) {
        var d :| d in o && DeclName(n, d) == name;
        assert Declares(n, d, name);
      }
      if j :| 0 <= j < |o| && Declares(n, o[j], name) { assert DeclName(n, o[j]) == name; }
    }
  }

  /** Readiness, seen from the components. */
  lemma ReadyMeansKnown(n: Naming, o: seq<CTypeDecl>, d: CTypeDecl)
    ensures IsReady(n, d, Declared(n, o)) <==> !Lacking(n, o, d)
  {
    var available := Declared(n, o);
    forall ty ensures TypeIsAvailable(n, ty, available) <==> KnownAfter(n, o, ty) { AvailableIsKnown(n, o, ty); }
    match d
    case ResultDecl(ok, err) => assert Component(d, ok) && Component(d, err);
    case StructDecl(_, fields) => assert forall f :: f in fields ==> Component(d, f.1);
    case EnumDecl(_, variants) => assert forall v, ty :: v in variants && ty in v.1 ==> Component(d, ty);
    case FnPtrDecl(ty) =>
      if ty.FnPtr? { assert Component(d, ty.ret) && forall p :: p in ty.params ==> Component(d, p); }
  }

  /** The orders that meet all needs are those that C accepts. */
  lemma ValidMeansCompiles(n: Naming, o: seq<CTypeDecl>)
    ensures ValidOrder(n, o) <==> Compiles(n, o)
  {
    forall i | 0 <= i < |o|
      ensures WellFormed(o[i]) && Needs(n, o[i]) <= Declared(n, o[..i]) <==> !Lacking(n, o[..i], o[i])
    {
      ReadyMeansNeedsMet(n, o[i], Declared(n, o[..i]));
      ReadyMeansKnown(n, o[..i], o[i]);
    }
  }

  // ----- why a stuck worklist is hopeless -----

  /** With `emitted` done, `rest` is what is left of `decls`, and none of it is ready. */
  ghost predicate StuckAfter(n: Naming, decls: multiset<CTypeDecl>, emitted: seq<CTypeDecl>, rest: seq<CTypeDecl>) {
    decls == multiset(emitted) + multiset(rest) &&
    forall d :: d in rest ==> !IsReady(n, d, Declared(n, emitted))
  }

  /** Part of the declarations cannot be placed, even after all the others. */
  ghost predicate Blocked(n: Naming, decls: multiset<CTypeDecl>, rest: seq<CTypeDecl>) {
    rest != [] && exists emitted :: StuckAfter(n, decls, emitted, rest)
  }

  /** Whatever an order declares among its first `k` was emitted before getting stuck. */
  lemma {:induction false} EmittedFirst(n: Naming, o: seq<CTypeDecl>, emitted: seq<CTypeDecl>,
                                        rest: seq<CTypeDecl>, k: nat)
    requires ValidOrder(n, o) && k <= |o| && StuckAfter(n, multiset(o), emitted, rest)
    ensures forall d :: d in o[..k] ==> d in emitted && d !in rest
  {
    if k > 0 {
      EmittedFirst(n, o, emitted, rest, k - 1);
      var d := o[k - 1];
      assert o[..k] == o[..k - 1] + [d];
      assert Needs(n, d) <= Declared(n, o[..k - 1]) <= Declared(n, emitted);
      ReadyMeansNeedsMet(n, d, Declared(n, emitted));
      assert d in multiset(o);
    }
  }

  lemma StuckIsHopeless(n: Naming, o: seq<CTypeDecl>, emitted: seq<CTypeDecl>, rest: seq<CTypeDecl>)
    requires StuckAfter(n, multiset(o), emitted, rest) && rest != []
    ensures !ValidOrder(n, o)
  {
    assert rest[0] in multiset(rest) && rest[0] in multiset(o);
    assert rest[0] in o[..|o|];
    if ValidOrder(n, o) {
      EmittedFirst(n, o, emitted, rest, |o|);
    }
  }

  lemma BlockedIsHopeless(n: Naming, decls: multiset<CTypeDecl>, rest: seq<CTypeDecl>)
    requires Blocked(n, decls, rest)
    ensures !Orderable(n, decls)
  {
    var emitted :| StuckAfter(n, decls, emitted, rest);
    forall o | multiset(o) == decls ensures !ValidOrder(n, o) {
      StuckIsHopeless(n, o, emitted, rest);
    }
  }

  // ----- cycles -----

  /** `d` names the type that `e` declares. */
  ghost predicate Names(n: Naming, d: CTypeDecl, e: CTypeDecl) {
    WellFormed(d) && DeclName(n, e) in Needs(n, d)
  }

  /** Declarations that name each other by value all the way round. */
  ghost predicate IsCycle(n: Naming, decls: multiset<CTypeDecl>, c: seq<CTypeDecl>) {
    c != [] && (forall i :: 0 <= i < |c| ==> c[i] in decls) &&
    (forall i, j :: 0 <= i < |c| && j == (if i + 1 < |c| then i + 1 else 0) ==> Names(n, c[i], c[j]))
  }

  /** Every type that is named by value is declared. */
  ghost predicate Closed(n: Naming, decls: multiset<CTypeDecl>) {
    forall d :: d in decls ==>
      WellFormed(d) && forall name :: name in Needs(n, d) ==> exists e :: e in decls && DeclName(n, e) == name
  }

  ghost predicate DistinctNames(n: Naming, decls: multiset<CTypeDecl>) {
    forall d, e :: d in decls && e in decls && DeclName(n, d) == DeclName(n, e) ==> d == e
  }

  /** A blocked declaration names another one. */
  lemma BlockedNames(n: Naming, decls: multiset<CTypeDecl>, emitted: seq<CTypeDecl>, rest: seq<CTypeDecl>, d: CTypeDecl)
    returns (e: CTypeDecl)
    requires StuckAfter(n, decls, emitted, rest) && Closed(n, decls) && d in rest
    ensures e in rest && Names(n, d, e)
  {
    assert d in multiset(rest) && d in decls;
    ReadyMeansNeedsMet(n, d, Declared(n, emitted));
    var name :| name in Needs(n, d) && name !in Declared(n, emitted);
    e :| e in decls && DeclName(n, e) == name;
    assert e in multiset(emitted) || e in multiset(rest);
  }

  ghost predicate IsChain(n: Naming, w: seq<CTypeDecl>) {
    forall i, j :: 0 <= i < |w| - 1 && j == i + 1 ==> Names(n, w[i], w[j])
  }

  lemma {:induction false} LongChain(n: Naming, decls: multiset<CTypeDecl>, emitted: seq<CTypeDecl>,
                                     rest: seq<CTypeDecl>, k: nat)
    returns (w: seq<CTypeDecl>)
    requires StuckAfter(n, decls, emitted, rest) && Closed(n, decls) && rest != []
    ensures |w| == k + 1 && IsChain(n, w) && forall d :: d in w ==> d in rest
  {
    if k == 0 {
      w := [rest[0]];
    } else {
      var v := LongChain(n, decls, emitted, rest, k - 1);
      var e := BlockedNames(n, decls, emitted, rest, v[k - 1]);
      w := v + [e];
    }
  }

  lemma BlockedHasCycle(n: Naming, decls: multiset<CTypeDecl>, emitted: seq<CTypeDecl>, rest: seq<CTypeDecl>)
    returns (c: seq<CTypeDecl>)
    requires StuckAfter(n, decls, emitted, rest) && Closed(n, decls) && rest != []
    ensures IsCycle(n, decls, c)
  {
    var w := LongChain(n, decls, emitted, rest, |rest|);
    var i, j := SomeRepeat(w, rest);
    c := w[i..j];
    forall k | 0 <= k < |c| ensures c[k] in decls {
      assert c[k] in w && c[k] in multiset(rest);
    }
    forall k, m | 0 <= k < |c| && m == (if k + 1 < |c| then k + 1 else 0) ensures Names(n, c[k], c[m]) {
      assert Names(n, w[i + k], w[i + k + 1]);
    }
  }

  /** In an order, a declaration of a cycle has another one before it. */
  lemma NeededEarlier(n: Naming, o: seq<CTypeDecl>, c: seq<CTypeDecl>, k: nat, i: nat) returns (j: nat)
    requires ValidOrder(n, o) && IsCycle(n, multiset(o), c) && DistinctNames(n, multiset(o))
    requires k < |o| && i < |c| && c[i] == o[k]
    ensures j < |c| && c[j] in o[..k]
  {
    j := if i + 1 < |c| then i + 1 else 0;
    assert Names(n, c[i], c[j]);
    var e :| e in o[..k] && DeclName(n, e) == DeclName(n, c[j]);
    assert e in o && e in multiset(o);
  }

  /** No element of a cycle can be among the first `k` of an order. */
  lemma {:induction false} CycleNeverStarts(n: Naming, o: seq<CTypeDecl>, c: seq<CTypeDecl>, k: nat)
    requires ValidOrder(n, o) && IsCycle(n, multiset(o), c) && DistinctNames(n, multiset(o)) && k <= |o|
    ensures forall i :: 0 <= i < |c| ==> c[i] !in o[..k]
  {
    if k > 0 {
      forall i | 0 <= i < |c| && c[i] == o[k - 1] ensures exists j :: 0 <= j < |c| && c[j] in o[..k - 1] {
        var j := NeededEarlier(n, o, c, k - 1, i);
      }
      CycleNeverStarts(n, o, c, k - 1);
      assert o[..k] == o[..k - 1] + [o[k - 1]];
    }
  }

  lemma CycleIsHopeless(n: Naming, decls: multiset<CTypeDecl>, c: seq<CTypeDecl>)
    requires IsCycle(n, decls, c) && DistinctNames(n, decls)
    ensures !Orderable(n, decls)
  {
    forall o | multiset(o) == decls ensures !ValidOrder(n, o) {
      assert c[0] in multiset(o) && c[0] in o[..|o|];
      if ValidOrder(n, o) { CycleNeverStarts(n, o, c, |o|); }
    }
  }

  // ----- the worklist -----

  /** The position of the first declaration that is ready. */
  method FirstReady(n: Naming, pending: seq<CTypeDecl>, available: set<string>) returns (index: Option<nat>)
    ensures index.None? <==> forall d :: d in pending ==> !IsReady(n, d, available)
    ensures index.Some? ==> index.value < |pending| && IsReady(n, pending[index.value], available)
    ensures index.Some? ==> forall i :: 0 <= i < index.value ==> !IsReady(n, pending[i], available)
  {
    for i := 0 to |pending|
      invariant forall j :: 0 <= j < i ==> !IsReady(n, pending[j], available)
    {
      if IsReady(n, pending[i], available) { return Some(i); }
    }
    return None;
  }

  lemma TakeOut(pending: seq<CTypeDecl>, i: nat)
    requires i < |pending|
    ensures multiset(pending[..i] + pending[i + 1..]) + multiset([pending[i]]) == multiset(pending)
  {
    assert pending == pending[..i] + [pending[i]] + pending[i + 1..];
  }

  /** What is left over does not compile after what could be emitted. */
  ghost predicate LeftOver(n: Naming, decls: multiset<CTypeDecl>, rest: seq<CTypeDecl>) {
    rest != [] && exists emitted ::
      multiset(emitted) + multiset(rest) == decls && Compiles(n, emitted) &&
      forall d :: d in rest ==> Lacking(n, emitted, d)
  }

  lemma Stuck(n: Naming, decls: multiset<CTypeDecl>, emitted: seq<CTypeDecl>, rest: seq<CTypeDecl>)
    requires StuckAfter(n, decls, emitted, rest) && rest != [] && ValidOrder(n, emitted)
    ensures Blocked(n, decls, rest) && LeftOver(n, decls, rest) && !Orderable(n, decls)
    ensures forall o :: multiset(o) == decls ==> !Compiles(n, o)
    ensures Closed(n, decls) ==> exists c :: IsCycle(n, decls, c)
  {
    BlockedIsHopeless(n, decls, rest);
    forall d | d in rest ensures Lacking(n, emitted, d) { ReadyMeansKnown(n, emitted, d); }
    forall o | multiset(o) == decls ensures !Compiles(n, o) { ValidMeansCompiles(n, o); }
    ValidMeansCompiles(n, emitted);
    if Closed(n, decls) { var c := BlockedHasCycle(n, decls, emitted, rest); }
  }

  lemma Finished(n: Naming, decls: multiset<CTypeDecl>, o: seq<CTypeDecl>)
    requires ValidOrder(n, o) && multiset(o) == decls
    ensures Orderable(n, decls) && Compiles(n, o)
    ensures DistinctNames(n, decls) ==> !exists c :: IsCycle(n, decls, c)
  {
    ValidMeansCompiles(n, o);
    forall c | IsCycle(n, decls, c) ensures !DistinctNames(n, decls) {
      if DistinctNames(n, decls) { CycleIsHopeless(n, decls, c); }
    }
  }

  /** Emits every declaration after the types it names, whenever some order does;
      otherwise stops with the blocked declarations (the source panics with their names). */
  method EmitTypeDeclarations(n: Naming, decls: seq<CTypeDecl>) returns (r: Result<seq<CTypeDecl>, seq<CTypeDecl>>)
    ensures r.Ok? <==> Orderable(n, multiset(decls))
    ensures r.Ok? ==> multiset(r.value) == multiset(decls) && ValidOrder(n, r.value)
    ensures r.Err? ==> Blocked(n, multiset(decls), r.error)
    ensures r.Ok? ==> Compiles(n, r.value)
    ensures r.Err? ==> forall o :: multiset(o) == multiset(decls) ==> !Compiles(n, o)
    ensures r.Err? ==> LeftOver(n, multiset(decls), r.error)
    ensures Closed(n, multiset(decls)) && DistinctNames(n, multiset(decls)) ==>
              (r.Err? <==> exists c :: IsCycle(n, multiset(decls), c))
  {
    var pending, available, emitted := decls, {}, [];
    while pending != []
      invariant multiset(decls) == multiset(emitted) + multiset(pending)
      invariant available == Declared(n, emitted) && ValidOrder(n, emitted)
      decreases |pending|
    {
      var index := FirstReady(n, pending, available);
      if index.None? {
        assert StuckAfter(n, multiset(decls), emitted, pending);
        Stuck(n, multiset(decls), emitted, pending);
        return Err(pending);
      }
      var d := pending[index.value];
      ReadyMeansNeedsMet(n, d, available);
      TakeOut(pending, index.value);
      ghost var before := emitted;
      pending, emitted := pending[..index.value] + pending[index.value + 1..], emitted + [d];
      available := available + {DeclName(n, d)};
      OneMore(n, before, d);
    }
    Finished(n, multiset(decls), emitted);
    return Ok(emitted);
  }

  lemma DeclaredAfter(n: Naming, o: seq<CTypeDecl>, d: CTypeDecl)
    ensures Declared(n, o + [d]) == Declared(n, o) + {DeclName(n, d)}
  {
    assert forall e :: e in o + [d] <==> e in o || e == d;
  }

  lemma OneMore(n: Naming, o: seq<CTypeDecl>, d: CTypeDecl)
    requires ValidOrder(n, o) && WellFormed(d) && Needs(n, d) <= Declared(n, o)
    ensures ValidOrder(n, o + [d]) && Declared(n, o + [d]) == Declared(n, o) + {DeclName(n, d)}
  {
    assert forall i :: 0 <= i <= |o| ==> (o + [d])[..i] == o[..i];
    assert o[..|o|] == o;
    DeclaredAfter(n, o, d);
  }

  /** The outcome does not depend on the order in which declarations are queued. */
  method EmitEitherOrder(n: Naming, a: seq<CTypeDecl>, b: seq<CTypeDecl>) returns (okA: bool, okB: bool)
    requires multiset(a) == multiset(b)
    ensures okA == okB
  {
    var ra := EmitTypeDeclarations(n, a);
    var rb := EmitTypeDeclarations(n, b);
    return ra.Ok?, rb.Ok?;
  }

  // ----- queueing the declarations of a program -----

  /** One declaration per C name of the types, none for names that the runtime declares. */
  ghost predicate Queued(n: Naming, types: seq<(BcType, BcType)>, decls: seq<CTypeDecl>) {
    (forall d :: d in decls ==> d.ResultDecl? && (d.ok, d.err) in types && DeclName(n, d) !in n.runtime) &&
    (forall i, j :: 0 <= i < j < |decls| ==> DeclName(n, decls[i]) != DeclName(n, decls[j])) &&
    forall t :: t in types ==> n.resultName(t.0, t.1) in n.runtime + Declared(n, decls)
  }

  lemma QueueOne(n: Naming, types: seq<(BcType, BcType)>, decls: seq<CTypeDecl>, ok: BcType, err: BcType)
    requires Queued(n, types, decls)
    ensures var name := n.resultName(ok, err);
            Queued(n, types + [(ok, err)],
                   if name in n.runtime + Declared(n, decls) then decls else decls + [ResultDecl(ok, err)])
  {
    var d := ResultDecl(ok, err);
    DeclaredAfter(n, decls, d);
    forall i | 0 <= i < |decls| ensures DeclName(n, decls[i]) in Declared(n, decls) { }
    assert (ok, err) in types + [(ok, err)];
  }

  method ResultDecls(n: Naming, resultTypes: seq<(BcType, BcType)>) returns (decls: seq<CTypeDecl>)
    ensures Queued(n, resultTypes, decls)
  {
    decls := [];
    var resultNames := {};
    for i := 0 to |resultTypes|
      invariant resultNames == Declared(n, decls) && Queued(n, resultTypes[..i], decls)
    {
      var (ok, err) := resultTypes[i];
      var name := n.resultName(ok, err);
      assert resultTypes[..i + 1] == resultTypes[..i] + [(ok, err)];
      QueueOne(n, resultTypes[..i], decls, ok, err);
      if name !in n.runtime && name !in resultNames {
        DeclaredAfter(n, decls, ResultDecl(ok, err));
        resultNames := resultNames + {name};
        decls := decls + [ResultDecl(ok, err)];
      }
    }
    assert resultTypes[..|resultTypes|] == resultTypes;
  }
}
