/** Call-graph construction by class hierarchy analysis: the targets of a call site are found by
    method dispatch over the declared class of the call and the classes below it, and the call
    graph holds every method reachable from the entry. */
module CHA {
  import opened Wrappers
  import opened Graphs

  type ClassId = nat
  type MethodId = nat
  /** A method subsignature (name plus parameter and return types), as an opaque key. */
  type Subsig = nat

  datatype CallKind = STATIC | SPECIAL | VIRTUAL | INTERFACE | DYNAMIC

  /** The method a call site names: its declaring class and subsignature. */
  datatype MethodRef = MethodRef(declaringClass: ClassId, subsig: Subsig)

  datatype CallSite = CallSite(kind: CallKind, ref: MethodRef)

  datatype JMethod = JMethod(declaringClass: ClassId, subsig: Subsig, isAbstract: bool, callSites: seq<CallSite>)

  /** A class or interface: its superclass, the interfaces it implements (or, for an interface,
      extends) and its declared methods in declaration order. */
  datatype JClass = JClass(superClass: Option<ClassId>, interfaces: seq<ClassId>, isInterface: bool, declaredMethods: seq<MethodId>)

  /** Every supertype of a class comes before it. */
  predicate SupertypesBefore(k: JClass, c: ClassId)
  {
    (k.superClass.Some? ==> k.superClass.value < c) &&
    forall i :: i in k.interfaces ==> i < c
  }

  datatype Hierarchy = Hierarchy(classes: seq<JClass>, methods: seq<JMethod>)
  {
    /** Every id in range, every declared method declared by its class, and the type hierarchy
        acyclic. */
    predicate Valid()
    {
      (forall c :: 0 <= c < |classes| ==> SupertypesBefore(classes[c], c)) &&
      (forall c, m :: 0 <= c < |classes| && m in classes[c].declaredMethods ==>
        m < |methods| && methods[m].declaringClass == c) &&
      (forall m :: 0 <= m < |methods| ==> methods[m].declaringClass < |classes|) &&
      (forall m, cs :: 0 <= m < |methods| && cs in methods[m].callSites ==> cs.ref.declaringClass < |classes|)
    }
  }

  /** A non-abstract method with the given subsignature. */
  predicate ConcreteMatch(h: Hierarchy, m: MethodId, sig: Subsig)
  {
    m < |h.methods| && !h.methods[m].isAbstract && h.methods[m].subsig == sig
  }

  /** The first method of `ms` that is non-abstract and has subsignature `sig`. */
  function FirstConcrete(h: Hierarchy, ms: seq<MethodId>, sig: Subsig): (r: Option<MethodId>)
    ensures r.None? <==> forall m :: m in ms ==> !ConcreteMatch(h, m, sig)
    ensures r.Some? ==> r.value in ms && ConcreteMatch(h, r.value, sig)
  {
    if ms == [] then None
    else if ConcreteMatch(h, ms[0], sig) then Some(ms[0])
    else FirstConcrete(h, ms[1..], sig)
  }

  /** No method before the one found matches. */
  lemma {:induction false} FirstConcreteIsFirst(h: Hierarchy, ms: seq<MethodId>, sig: Subsig)
    requires FirstConcrete(h, ms, sig).Some?
    ensures exists i :: (0 <= i < |ms| && ms[i] == FirstConcrete(h, ms, sig).value &&
      forall j :: 0 <= j < i ==> !ConcreteMatch(h, ms[j], sig))
  {
    if !ConcreteMatch(h, ms[0], sig) {
      var r := FirstConcrete(h, ms[1..], sig);
      FirstConcreteIsFirst(h, ms[1..], sig);
      var i :| 0 <= i < |ms[1..]| && ms[1..][i] == r.value && forall j :: 0 <= j < i ==> !ConcreteMatch(h, ms[1..][j], sig);
      assert ms[i + 1] == r.value;
      forall j | 0 < j < i + 1 ensures !ConcreteMatch(h, ms[j], sig) {
        assert ms[j] == ms[1..][j - 1];
      }
    } else {
      assert ms[0] == FirstConcrete(h, ms, sig).value;
    }
  }

  /** `dispatch`: the first concrete method with the subsignature declared by `c`, or else what
      dispatch finds in the superclass; `None` when the chain runs out. */
  function Dispatch(h: Hierarchy, c: ClassId, sig: Subsig): (r: Option<MethodId>)
    requires h.Valid() && c < |h.classes|
    ensures r.Some? ==> ConcreteMatch(h, r.value, sig) && h.methods[r.value].declaringClass in Chain(h, c)
    decreases c
  {
    match FirstConcrete(h, h.classes[c].declaredMethods, sig)
    case Some(m) => Some(m)
    case None =>
      if h.classes[c].superClass.Some? then Dispatch(h, h.classes[c].superClass.value, sig) else None
  }

  /** `c` followed by its superclasses, nearest first. */
  function Chain(h: Hierarchy, c: ClassId): (r: seq<ClassId>)
    requires h.Valid() && c < |h.classes|
    ensures |r| > 0 && r[0] == c
    ensures forall k :: 0 <= k < |r| ==> r[k] < |h.classes|
    decreases c
  {
    if h.classes[c].superClass.Some? then [c] + Chain(h, h.classes[c].superClass.value) else [c]
  }

  /** The class declares a concrete method with the subsignature. */
  predicate DeclaresConcrete(h: Hierarchy, c: ClassId, sig: Subsig)
    requires c < |h.classes|
  {
    exists m :: m in h.classes[c].declaredMethods && ConcreteMatch(h, m, sig)
  }

  /** No class of `ch` declares a concrete method with the subsignature. */
  predicate NoneDeclares(h: Hierarchy, ch: seq<ClassId>, sig: Subsig)
  {
    forall k :: 0 <= k < |ch| ==> ch[k] < |h.classes| && !DeclaresConcrete(h, ch[k], sig)
  }

  /** Position `k` of `ch` holds the first class that declares a concrete method with the
      subsignature. */
  predicate FirstDeclaringAt(h: Hierarchy, ch: seq<ClassId>, sig: Subsig, k: int)
  {
    0 <= k < |ch| && NoneDeclares(h, ch[..k], sig) && ch[k] < |h.classes| && DeclaresConcrete(h, ch[k], sig)
  }

  /** A class declaring no concrete match, put in front of classes declaring none, declares none. */
  lemma NoneDeclaresCons(h: Hierarchy, c: ClassId, rest: seq<ClassId>, sig: Subsig)
    requires c < |h.classes| && !DeclaresConcrete(h, c, sig) && NoneDeclares(h, rest, sig)
    ensures NoneDeclares(h, [c] + rest, sig)
  {
    var ch := [c] + rest;
    forall k | 0 <= k < |ch| ensures ch[k] < |h.classes| && !DeclaresConcrete(h, ch[k], sig) {
      if k > 0 { assert ch[k] == rest[k - 1]; }
    }
  }

  /** A class declaring no concrete match, put in front of a chain, moves the first declaring
      position one further. */
  lemma FirstDeclaringCons(h: Hierarchy, c: ClassId, rest: seq<ClassId>, sig: Subsig, k: int)
    requires c < |h.classes| && !DeclaresConcrete(h, c, sig) && FirstDeclaringAt(h, rest, sig, k)
    ensures FirstDeclaringAt(h, [c] + rest, sig, k + 1) && ([c] + rest)[k + 1] == rest[k]
  {
    var ch := [c] + rest;
    assert ch[..k + 1] == [c] + rest[..k];
    NoneDeclaresCons(h, c, rest[..k], sig);
  }

  /** Dispatch finds nothing exactly when no class on the superclass chain declares a concrete
      method with the subsignature; otherwise it returns the first such method of the nearest
      class that declares one. */
  lemma {:induction false} DispatchFirstOnChain(h: Hierarchy, c: ClassId, sig: Subsig)
    requires h.Valid() && c < |h.classes|
    ensures Dispatch(h, c, sig).None? <==> NoneDeclares(h, Chain(h, c), sig)
    ensures Dispatch(h, c, sig).Some? ==> exists k :: (FirstDeclaringAt(h, Chain(h, c), sig, k) &&
      Dispatch(h, c, sig) == FirstConcrete(h, h.classes[Chain(h, c)[k]].declaredMethods, sig))
    decreases c
  {
    var ch := Chain(h, c);
    var here := FirstConcrete(h, h.classes[c].declaredMethods, sig);
    if here.Some? {
      assert Dispatch(h, c, sig) == here;
      assert FirstDeclaringAt(h, ch, sig, 0) by {
        assert ch[0] == c && DeclaresConcrete(h, c, sig);
      }
    } else if h.classes[c].superClass.Some? {
      var sup := h.classes[c].superClass.value;
      DispatchFirstOnChain(h, sup, sig);
      var rest := Chain(h, sup);
      assert ch == [c] + rest;
      assert Dispatch(h, c, sig) == Dispatch(h, sup, sig);
      assert !DeclaresConcrete(h, c, sig);
      if Dispatch(h, c, sig).Some? {
        var k :| FirstDeclaringAt(h, rest, sig, k) &&
          Dispatch(h, sup, sig) == FirstConcrete(h, h.classes[rest[k]].declaredMethods, sig);
        FirstDeclaringCons(h, c, rest, sig, k);
      } else {
        NoneDeclaresCons(h, c, rest, sig);
      }
    } else {
      assert ch == [c];
    }
  }

  // ---------------------------------------------------------------- the class hierarchy

  /** `getDirectSubclassesOf`: the classes whose superclass is `c`. */
  function DirectSubclasses(h: Hierarchy, c: ClassId): set<ClassId>
  {
    set d | 0 <= d < |h.classes| && h.classes[d].superClass == Some(c)
  }

  /** `getDirectImplementorsOf`: the classes (not interfaces) that list `c` among their
      interfaces. */
  function DirectImplementors(h: Hierarchy, c: ClassId): set<ClassId>
  {
    set d | 0 <= d < |h.classes| && !h.classes[d].isInterface && c in h.classes[d].interfaces
  }

  /** The direct subtypes of `c`: its direct subclasses, direct implementors and direct
      subinterfaces. */
  function DirectSubtypes(h: Hierarchy, c: ClassId): set<ClassId>
  {
    set d | 0 <= d < |h.classes| && (h.classes[d].superClass == Some(c) || c in h.classes[d].interfaces)
  }

  function DirectSubtypeEdges(h: Hierarchy): nat -> set<nat>
  {
    (c: nat) => DirectSubtypes(h, c)
  }

  /** `c` and every type below it, directly or not. */
  function Subtypes(h: Hierarchy, c: ClassId): (r: set<ClassId>)
    requires c < |h.classes|
    ensures c in r && forall d :: d in r ==> c <= d < |h.classes|
    decreases |h.classes| - c
  {
    {c} + set d, e | d in DirectSubtypes(h, c) && c < d < |h.classes| && e in Subtypes(h, d) :: e
  }

  lemma DirectSubtypeAfter(h: Hierarchy, c: ClassId, d: ClassId)
    requires h.Valid() && d in DirectSubtypes(h, c)
    ensures c < d
  {
    assert SupertypesBefore(h.classes[d], d);
  }

  lemma {:induction false} SubtypesTransitive(h: Hierarchy, c: ClassId, x: ClassId)
    requires h.Valid() && c < |h.classes| && x in Subtypes(h, c)
    ensures Subtypes(h, x) <= Subtypes(h, c)
    decreases |h.classes| - c
  {
    if x != c {
      var d :| d in DirectSubtypes(h, c) && c < d < |h.classes| && x in Subtypes(h, d);
      SubtypesTransitive(h, d, x);
    }
  }

  /** Every type in `Subtypes(h, c)` is reached from `c` along direct-subtype links. */
  lemma {:induction false} SubtypeIsReachable(h: Hierarchy, c: ClassId, d: ClassId)
    requires h.Valid() && c < |h.classes| && d in Subtypes(h, c)
    ensures Reachable(c, DirectSubtypeEdges(h), d)
    decreases |h.classes| - c
  {
    var succ := DirectSubtypeEdges(h);
    if d == c {
      EntryReachable(c, succ);
    } else {
      var e :| e in DirectSubtypes(h, c) && c < e < |h.classes| && d in Subtypes(h, e);
      SubtypeIsReachable(h, e, d);
      ReachableThrough(c, succ, e, d);
    }
  }

  /** A direct subtype of a type in `Subtypes(h, c)` is in it too. */
  lemma SubtypesClosed(h: Hierarchy, c: ClassId)
    requires h.Valid() && c < |h.classes|
    ensures Closed(Subtypes(h, c), DirectSubtypeEdges(h))
  {
    var s := Subtypes(h, c);
    forall x, y | x in s && y in DirectSubtypeEdges(h)(x)
      ensures y in s
    {
      DirectSubtypeAfter(h, x, y);
      SubtypesTransitive(h, c, x);
      assert y in Subtypes(h, y);
      assert y in Subtypes(h, x);
    }
  }

  /** `Subtypes` is the set of types reachable from `c` along direct-subtype links. */
  lemma SubtypesAreReachable(h: Hierarchy, c: ClassId, d: ClassId)
    requires h.Valid() && c < |h.classes|
    ensures d in Subtypes(h, c) <==> Reachable(c, DirectSubtypeEdges(h), d)
  {
    if d in Subtypes(h, c) {
      SubtypeIsReachable(h, c, d);
    }
    SubtypesClosed(h, c);
    ClosedContainsReachable(c, DirectSubtypeEdges(h), Subtypes(h, c));
  }

  // ---------------------------------------------------------------- resolving call sites

  /** The method has the subsignature. */
  predicate HasSubsig(h: Hierarchy, m: MethodId, sig: Subsig)
  {
    m < |h.methods| && h.methods[m].subsig == sig
  }

  /** The first method of `ms` with subsignature `sig`. */
  function FirstDeclared(h: Hierarchy, ms: seq<MethodId>, sig: Subsig): (r: Option<MethodId>)
    ensures r.None? <==> forall m :: m in ms ==> !HasSubsig(h, m, sig)
    ensures r.Some? ==> r.value in ms && HasSubsig(h, r.value, sig)
  {
    if ms == [] then None
    else if HasSubsig(h, ms[0], sig) then Some(ms[0])
    else FirstDeclared(h, ms[1..], sig)
  }

  /** `getDeclaredMethod`: the method the class itself declares with the subsignature (a class
      declares at most one per subsignature). */
  function DeclaredMethod(h: Hierarchy, c: ClassId, sig: Subsig): (r: Option<MethodId>)
    requires c < |h.classes|
    ensures r.Some? ==> r.value in h.classes[c].declaredMethods && HasSubsig(h, r.value, sig)
    ensures r.None? <==> forall m :: m in h.classes[c].declaredMethods ==> !HasSubsig(h, m, sig)
  {
    FirstDeclared(h, h.classes[c].declaredMethods, sig)
  }

  /** A dispatch result as a set of targets: nothing for null. */
  function Found(r: Option<MethodId>): set<Option<MethodId>>
  {
    if r.Some? then {r} else {}
  }

  /** `resolve` as written: a static call takes the method the referenced class itself declares,
      which is null (here `None`) when the class only inherits it; a virtual call dispatches on the
      referenced class and its direct subclasses only, an interface call on the interface and its
      direct implementors only. */
  function ResolveAsWritten(h: Hierarchy, cs: CallSite): set<Option<MethodId>>
    requires h.Valid() && cs.ref.declaringClass < |h.classes|
  {
    var c, sig := cs.ref.declaringClass, cs.ref.subsig;
    match cs.kind
    case STATIC => {DeclaredMethod(h, c, sig)}
    case SPECIAL => Found(Dispatch(h, c, sig))
    case VIRTUAL =>
      Found(Dispatch(h, c, sig)) + set d, r | d in DirectSubclasses(h, c) && r in Found(Dispatch(h, d, sig)) :: r
    case INTERFACE =>
      Found(Dispatch(h, c, sig)) + set d, r | d in DirectImplementors(h, c) && r in Found(Dispatch(h, d, sig)) :: r
    case DYNAMIC => {}
  }

  /** The method a static call invokes: the one declared with the subsignature by the nearest
      class on the referenced class's superclass chain. */
  function StaticTarget(h: Hierarchy, c: ClassId, sig: Subsig): (r: Option<MethodId>)
    requires h.Valid() && c < |h.classes|
    ensures r.Some? ==> HasSubsig(h, r.value, sig)
    decreases c
  {
    var here := DeclaredMethod(h, c, sig);
    if here.Some? then here
    else if h.classes[c].superClass.Some? then StaticTarget(h, h.classes[c].superClass.value, sig)
    else None
  }

  /** `resolve` as evidently intended: a static call finds the inherited method; a virtual or
      interface call dispatches on every subtype of the referenced class. */
  function Resolve(h: Hierarchy, cs: CallSite): (r: set<MethodId>)
    requires h.Valid() && cs.ref.declaringClass < |h.classes|
    ensures forall m :: m in r ==> m < |h.methods|
  {
    var c, sig := cs.ref.declaringClass, cs.ref.subsig;
    match cs.kind
    case STATIC => var t := StaticTarget(h, c, sig); if t.Some? then {t.value} else {}
    case SPECIAL => var t := Dispatch(h, c, sig); if t.Some? then {t.value} else {}
    case VIRTUAL => set d | d in Subtypes(h, c) && Dispatch(h, d, sig).Some? :: Dispatch(h, d, sig).value
    case INTERFACE => set d | d in Subtypes(h, c) && Dispatch(h, d, sig).Some? :: Dispatch(h, d, sig).value
    case DYNAMIC => {}
  }

  /** The call-graph targets of a virtual or interface call are exactly what dispatch finds on the
      types reachable from the referenced class along subtype links, and each is a concrete method
      with the call's subsignature; a special call's target is what dispatch finds. */
  lemma ResolveIsHierarchyDispatch(h: Hierarchy, cs: CallSite, m: MethodId)
    requires h.Valid() && cs.ref.declaringClass < |h.classes|
    ensures cs.kind == VIRTUAL || cs.kind == INTERFACE ==>
      (m in Resolve(h, cs) <==> exists d: nat :: (Reachable(cs.ref.declaringClass, DirectSubtypeEdges(h), d) &&
        d < |h.classes| && Dispatch(h, d, cs.ref.subsig) == Some(m)))
    ensures cs.kind == SPECIAL ==> (m in Resolve(h, cs) <==> Dispatch(h, cs.ref.declaringClass, cs.ref.subsig) == Some(m))
    ensures cs.kind != STATIC && m in Resolve(h, cs) ==> ConcreteMatch(h, m, cs.ref.subsig)
  {
    var c, sig := cs.ref.declaringClass, cs.ref.subsig;
    if cs.kind == VIRTUAL || cs.kind == INTERFACE {
      if m in Resolve(h, cs) {
        var d :| d in Subtypes(h, c) && Dispatch(h, d, sig) == Some(m);
        SubtypesAreReachable(h, c, d);
      }
      if exists d: nat :: Reachable(c, DirectSubtypeEdges(h), d) && d < |h.classes| && Dispatch(h, d, sig) == Some(m) {
        var d: nat :| Reachable(c, DirectSubtypeEdges(h), d) && d < |h.classes| && Dispatch(h, d, sig) == Some(m);
        SubtypesAreReachable(h, c, d);
      }
    }
  }

  /** No class of `ch` declares a method with the subsignature. */
  predicate NoneDeclaresSubsig(h: Hierarchy, ch: seq<ClassId>, sig: Subsig)
  {
    forall k :: 0 <= k < |ch| ==> ch[k] < |h.classes| && DeclaredMethod(h, ch[k], sig).None?
  }

  /** A static call finds the method the nearest declaring class on the superclass chain
      declares; it finds nothing only when no class on the chain declares the subsignature. */
  lemma {:induction false} StaticTargetOnChain(h: Hierarchy, c: ClassId, sig: Subsig)
    requires h.Valid() && c < |h.classes|
    ensures StaticTarget(h, c, sig).None? <==> NoneDeclaresSubsig(h, Chain(h, c), sig)
    ensures DeclaredMethod(h, c, sig).Some? ==> StaticTarget(h, c, sig) == DeclaredMethod(h, c, sig)
    decreases c
  {
    var ch := Chain(h, c);
    assert ch[0] == c;
    if DeclaredMethod(h, c, sig).None? && h.classes[c].superClass.Some? {
      var sup := h.classes[c].superClass.value;
      StaticTargetOnChain(h, sup, sig);
      var rest := Chain(h, sup);
      assert ch == [c] + rest;
      if NoneDeclaresSubsig(h, rest, sig) {
        forall k | 0 <= k < |ch| ensures ch[k] < |h.classes| && DeclaredMethod(h, ch[k], sig).None? {
          if k > 0 { assert ch[k] == rest[k - 1]; }
        }
      }
      if NoneDeclaresSubsig(h, ch, sig) {
        forall k | 0 <= k < |rest| ensures rest[k] < |h.classes| && DeclaredMethod(h, rest[k], sig).None? {
          assert rest[k] == ch[k + 1];
        }
      }
    } else if DeclaredMethod(h, c, sig).None? {
      assert ch == [c];
    }
  }

  /** What dispatch finds on a subtype of the referenced class is a target of a virtual or
      interface call. */
  lemma SubtypeDispatchResolved(h: Hierarchy, cs: CallSite, d: ClassId, m: MethodId)
    requires h.Valid() && cs.ref.declaringClass < |h.classes|
    requires cs.kind == VIRTUAL || cs.kind == INTERFACE
    requires d in Subtypes(h, cs.ref.declaringClass) && Dispatch(h, d, cs.ref.subsig) == Some(m)
    ensures m in Resolve(h, cs)
  {
  }

  /** What dispatch finds on a direct subtype of the referenced class is a target of a virtual
      or interface call. */
  lemma DirectSubtypeDispatchResolved(h: Hierarchy, cs: CallSite, d: ClassId, m: MethodId)
    requires h.Valid() && cs.ref.declaringClass < |h.classes|
    requires cs.kind == VIRTUAL || cs.kind == INTERFACE
    requires d in DirectSubtypes(h, cs.ref.declaringClass) && Dispatch(h, d, cs.ref.subsig) == Some(m)
    ensures m in Resolve(h, cs)
  {
    var c := cs.ref.declaringClass;
    DirectSubtypeAfter(h, c, d);
    assert d in Subtypes(h, d);
    assert d in Subtypes(h, c);
    SubtypeDispatchResolved(h, cs, d, m);
  }

  /** A virtual or interface target found as written is found by the intended resolution. */
  lemma AsWrittenDispatchWithin(h: Hierarchy, cs: CallSite, m: MethodId)
    requires h.Valid() && cs.ref.declaringClass < |h.classes|
    requires cs.kind == VIRTUAL || cs.kind == INTERFACE
    requires Some(m) in ResolveAsWritten(h, cs)
    ensures m in Resolve(h, cs)
  {
    var c, sig := cs.ref.declaringClass, cs.ref.subsig;
    if Dispatch(h, c, sig) == Some(m) {
      SubtypeDispatchResolved(h, cs, c, m);
    } else if cs.kind == VIRTUAL {
      var d :| d in DirectSubclasses(h, c) && Some(m) in Found(Dispatch(h, d, sig));
      DirectSubtypeDispatchResolved(h, cs, d, m);
    } else {
      var d :| d in DirectImplementors(h, c) && Some(m) in Found(Dispatch(h, d, sig));
      DirectSubtypeDispatchResolved(h, cs, d, m);
    }
  }

  /** The intended resolution keeps every target the code as written finds. */
  lemma AsWrittenWithinResolve(h: Hierarchy, cs: CallSite, m: MethodId)
    requires h.Valid() && cs.ref.declaringClass < |h.classes|
    ensures Some(m) in ResolveAsWritten(h, cs) ==> m in Resolve(h, cs)
  {
    if Some(m) in ResolveAsWritten(h, cs) {
      if cs.kind == STATIC {
        StaticTargetOnChain(h, cs.ref.declaringClass, cs.ref.subsig);
      } else if cs.kind == VIRTUAL || cs.kind == INTERFACE {
        AsWrittenDispatchWithin(h, cs, m);
      }
    }
  }

  /** `A`, `B extends A` and `C extends B`, where `A` and `C` declare a concrete method with
      subsignature 5. */
  function ThreeLevels(): Hierarchy
  {
    Hierarchy(
      [JClass(None, [], false, [0]), JClass(Some(0), [], false, []), JClass(Some(1), [], false, [1])],
      [JMethod(0, 5, false, []), JMethod(2, 5, false, [])])
  }

  lemma ThreeLevelsValid()
    ensures ThreeLevels().Valid()
  {
    var h := ThreeLevels();
    forall c, m | 0 <= c < |h.classes| && m in h.classes[c].declaredMethods
      ensures m < |h.methods| && h.methods[m].declaringClass == c
    {
      assert c == 0 || c == 2;
    }
  }

  /** As written, a virtual call on `A` in `ThreeLevels` resolves to `A`'s method only. */
  lemma ThreeLevelsAsWritten()
    ensures ThreeLevels().Valid()
    ensures ResolveAsWritten(ThreeLevels(), CallSite(VIRTUAL, MethodRef(0, 5))) == {Some(0)}
  {
    ThreeLevelsValid();
    var h := ThreeLevels();
    assert Dispatch(h, 0, 5) == Some(0);
    assert Dispatch(h, 1, 5) == Some(0);
    assert DirectSubclasses(h, 0) == {1};
  }

  /** The intended resolution of that call reaches `C`'s method through `B`. */
  lemma ThreeLevelsResolvesToC()
    ensures ThreeLevels().Valid()
    ensures 1 in Resolve(ThreeLevels(), CallSite(VIRTUAL, MethodRef(0, 5)))
  {
    ThreeLevelsValid();
    var h := ThreeLevels();
    assert 2 in DirectSubtypes(h, 1) && 1 in DirectSubtypes(h, 0);
    assert 2 in Subtypes(h, 2);
    assert 2 in Subtypes(h, 1);
    assert 2 in Subtypes(h, 0);
    assert Dispatch(h, 2, 5) == Some(1);
    SubtypeDispatchResolved(h, CallSite(VIRTUAL, MethodRef(0, 5)), 2, 1);
  }

  /** As written, an override two levels down is missed: a virtual call on `A` in `ThreeLevels`
      does not resolve to `C`'s method, which the intended resolution finds. */
  lemma TransitiveOverrideMissed()
    ensures ThreeLevels().Valid()
    ensures var cs := CallSite(VIRTUAL, MethodRef(0, 5));
      Some(1) !in ResolveAsWritten(ThreeLevels(), cs) && 1 in Resolve(ThreeLevels(), cs)
  {
    ThreeLevelsAsWritten();
    ThreeLevelsResolvesToC();
  }

  /** As written, a static call through a subclass that inherits the method yields null: with
      `B extends A` and only `A` declaring the static method, `B.f()` resolves to `None`. */
  lemma InheritedStaticIsNull()
    ensures var h := Hierarchy([JClass(None, [], false, [0]), JClass(Some(0), [], false, [])], [JMethod(0, 7, false, [])]);
      var cs := CallSite(STATIC, MethodRef(1, 7));
      h.Valid() && ResolveAsWritten(h, cs) == {None} && Resolve(h, cs) == {0}
  {
    var h := Hierarchy([JClass(None, [], false, [0]), JClass(Some(0), [], false, [])], [JMethod(0, 7, false, [])]);
    assert DeclaredMethod(h, 0, 7) == Some(0) by {
      assert h.methods[0].subsig == 7 && 0 in h.classes[0].declaredMethods;
    }
  }

  // ---------------------------------------------------------------- building the call graph

  datatype CallSiteRef = CallSiteRef(caller: MethodId, index: nat)

  datatype CallEdge = CallEdge(kind: CallKind, callSite: CallSiteRef, callee: MethodId)

  datatype CallGraph = CallGraph(entryMethods: set<MethodId>, reachableMethods: set<MethodId>, edges: set<CallEdge>)

  /** Which `resolve` the walk calls: the code's, or the corrected one. */
  datatype Resolution = AsWritten | Intended

  /** The set `resolve` returns for a call site, a null element as `None`. */
  function Targets(h: Hierarchy, res: Resolution, cs: CallSite): (r: set<Option<MethodId>>)
    requires h.Valid() && cs.ref.declaringClass < |h.classes|
    ensures forall t :: t in r && t.Some? ==> t.value < |h.methods|
  {
    match res
    case AsWritten => ResolveAsWritten(h, cs)
    case Intended => set m | m in Resolve(h, cs) :: Some(m)
  }

  /** The call sites of a method, with the callers' ids in range. */
  function Sites(h: Hierarchy, m: MethodId): (r: seq<CallSite>)
    requires h.Valid() && m < |h.methods|
    ensures forall cs :: cs in r ==> cs.ref.declaringClass < |h.classes|
  {
    h.methods[m].callSites
  }

  /** Some call site of `m` resolves to a set holding null. */
  predicate HasNullSite(h: Hierarchy, res: Resolution, m: MethodId)
    requires h.Valid() && m < |h.methods|
  {
    exists j :: 0 <= j < |Sites(h, m)| && None in Targets(h, res, Sites(h, m)[j])
  }

  /** The corrected resolution never yields null. */
  lemma IntendedHasNoNull(h: Hierarchy, m: MethodId)
    requires h.Valid() && m < |h.methods|
    ensures !HasNullSite(h, Intended, m)
  {
  }

  /** The edges the first `n` call sites of `m` resolve to, each tagged with its call site's kind. */
  function EdgesUpTo(h: Hierarchy, res: Resolution, m: MethodId, n: nat): set<CallEdge>
    requires h.Valid() && m < |h.methods|
  {
    var sites := Sites(h, m);
    set j, t | 0 <= j < n && j < |sites| && t in Targets(h, res, sites[j]) && t.Some? ::
      CallEdge(sites[j].kind, CallSiteRef(m, j), t.value)
  }

  /** The targets the first `n` call sites of `m` resolve to. */
  function CalleesUpTo(h: Hierarchy, res: Resolution, m: MethodId, n: nat): (r: set<MethodId>)
    requires h.Valid() && m < |h.methods|
    ensures forall t :: t in r ==> t < |h.methods|
  {
    var sites := Sites(h, m);
    set j, t | 0 <= j < n && j < |sites| && t in Targets(h, res, sites[j]) && t.Some? :: t.value
  }

  /** Every edge resolving the call sites of `m` adds. */
  function EdgesFrom(h: Hierarchy, res: Resolution, m: MethodId): (r: set<CallEdge>)
    requires h.Valid() && m < |h.methods|
    ensures forall e :: e in r <==> (e.callSite.caller == m && e.callSite.index < |Sites(h, m)| &&
      e.kind == Sites(h, m)[e.callSite.index].kind && Some(e.callee) in Targets(h, res, Sites(h, m)[e.callSite.index]))
  {
    EdgesUpTo(h, res, m, |Sites(h, m)|)
  }

  /** The call graph's successor relation: the targets of a method's call sites. */
  function CallEdges(h: Hierarchy, res: Resolution): nat -> set<nat>
  {
    (m: nat) => if h.Valid() && m < |h.methods| then CalleesUpTo(h, res, m, |Sites(h, m)|) else {}
  }

  /** Each target of a call site is the callee of an edge from it. */
  lemma CalleeHasEdge(h: Hierarchy, res: Resolution, m: MethodId, t: MethodId)
    requires h.Valid() && m < |h.methods|
    requires t in CalleesUpTo(h, res, m, |Sites(h, m)|)
    ensures exists e :: e in EdgesFrom(h, res, m) && e.callee == t
  {
    var sites := Sites(h, m);
    var j :| 0 <= j < |sites| && Some(t) in Targets(h, res, sites[j]);
    assert CallEdge(sites[j].kind, CallSiteRef(m, j), t) in EdgesFrom(h, res, m);
  }

  /** Lines 65-69 for one call site: each target gets an edge tagged with the call's kind and
      joins the work list; a null target throws when it is printed. */
  method AddSiteTargets(kind: CallKind, site: CallSiteRef, targets: set<Option<MethodId>>,
                        edges: set<CallEdge>, workList: seq<MethodId>)
    returns (edges': set<CallEdge>, workList': seq<MethodId>, thrown: bool)
    ensures thrown <==> None in targets
    ensures !thrown ==> edges' == edges + set t | t in targets && t.Some? :: CallEdge(kind, site, t.value)
    ensures !thrown ==> |workList'| >= |workList| && workList'[..|workList|] == workList
    ensures !thrown ==> forall t :: t in workList'[|workList|..] <==> Some(t) in targets
  {
    edges', workList', thrown := edges, workList, false;
    var rest := targets;
    while rest != {}
      invariant rest <= targets
      invariant forall t :: t in targets - rest ==> t.Some?
      invariant edges' == edges + set t | t in targets - rest && t.Some? :: CallEdge(kind, site, t.value)
      invariant |workList'| >= |workList| && workList'[..|workList|] == workList
      invariant forall t :: t in workList'[|workList|..] <==> Some(t) in targets - rest
      decreases rest
    {
      var callee :| callee in rest;
      if callee.None? {
        thrown := true;
        return;
      }
      edges' := edges' + {CallEdge(kind, site, callee.value)};
      assert (workList' + [callee.value])[|workList|..] == workList'[|workList|..] + [callee.value];
      workList' := workList' + [callee.value];
      rest := rest - {callee};
    }
    assert targets - rest == targets;
  }

  /** Taking in one more call site adds exactly its edges and its targets. */
  lemma UpToNext(h: Hierarchy, res: Resolution, m: MethodId, i: nat)
    requires h.Valid() && m < |h.methods| && i < |Sites(h, m)|
    ensures var cs := Sites(h, m)[i]; var targets := Targets(h, res, cs);
      && EdgesUpTo(h, res, m, i + 1) == EdgesUpTo(h, res, m, i) +
           (set t | t in targets && t.Some? :: CallEdge(cs.kind, CallSiteRef(m, i), t.value))
      && (forall t :: t in CalleesUpTo(h, res, m, i + 1) <==> t in CalleesUpTo(h, res, m, i) || Some(t) in targets)
  {
  }

  /** Lines 62-71 for one newly reachable method: each target of each call site gets an edge
      tagged with the call site's kind and joins the work list; a null target throws when it is
      printed. */
  method ScanCallSites(h: Hierarchy, res: Resolution, m: MethodId, edges: set<CallEdge>, workList: seq<MethodId>)
    returns (edges': set<CallEdge>, workList': seq<MethodId>, thrown: bool)
    requires h.Valid() && m < |h.methods|
    ensures thrown <==> HasNullSite(h, res, m)
    ensures !thrown ==> edges' == edges + EdgesFrom(h, res, m)
    ensures !thrown ==> |workList'| >= |workList| && workList'[..|workList|] == workList
    ensures !thrown ==> forall t :: t in workList'[|workList|..] <==> t in CalleesUpTo(h, res, m, |Sites(h, m)|)
  {
    var sites := Sites(h, m);
    edges', workList', thrown := edges, workList, false;
    for i := 0 to |sites|
      invariant edges' == edges + EdgesUpTo(h, res, m, i)
      invariant |workList'| >= |workList| && workList'[..|workList|] == workList
      invariant forall t :: t in workList'[|workList|..] <==> t in CalleesUpTo(h, res, m, i)
      invariant forall j :: 0 <= j < i ==> None !in Targets(h, res, sites[j])
    {
      var targets := Targets(h, res, sites[i]);
      var before := workList';
      edges', workList', thrown := AddSiteTargets(sites[i].kind, CallSiteRef(m, i), targets, edges', workList');
      if thrown {
        return;
      }
      UpToNext(h, res, m, i);
      assert workList'[..|workList|] == before[..|workList|];
      assert workList'[|workList|..] == before[|workList|..] + workList'[|before|..];
    }
  }

  /** The walk so far: every method reached or queued is in range and reachable from the
      entry, the entry is reached or queued, and every successor of a reached method is reached
      or queued. */
  ghost predicate WalkInv(h: Hierarchy, res: Resolution, entry: MethodId, reached: set<MethodId>, workList: seq<MethodId>)
  {
    && reached <= Range(|h.methods|)
    && (forall t :: t in workList ==> t < |h.methods|)
    && (forall t :: t in reached || t in workList ==> Reachable(entry, CallEdges(h, res), t))
    && (entry in reached || entry in workList)
    && ClosedUpTo(CallEdges(h, res), reached, workList)
  }

  /** The recorded edges are exactly those of the reached methods' call sites. */
  ghost predicate EdgesInv(h: Hierarchy, res: Resolution, reached: set<MethodId>, edges: set<CallEdge>)
    requires h.Valid()
  {
    forall e :: e in edges <==>
      e.callSite.caller in reached && e.callSite.caller < |h.methods| && e in EdgesFrom(h, res, e.callSite.caller)
  }

  /** Every method reached or queued is the entry or the callee of a recorded edge. */
  ghost predicate CoverInv(entry: MethodId, reached: set<MethodId>, workList: seq<MethodId>, edges: set<CallEdge>)
  {
    forall t :: t in reached || t in workList ==> t == entry || exists e :: e in edges && e.callee == t
  }

  /** What holds of the call-graph walk between two polls: the above, and no reached method has
      a call site resolving to null. */
  ghost predicate BuildInv(h: Hierarchy, res: Resolution, entry: MethodId, reached: set<MethodId>,
                           workList: seq<MethodId>, edges: set<CallEdge>)
    requires h.Valid()
  {
    && WalkInv(h, res, entry, reached, workList)
    && EdgesInv(h, res, reached, edges)
    && CoverInv(entry, reached, workList, edges)
    && (forall m :: m in reached ==> m < |h.methods| && !HasNullSite(h, res, m))
  }

  /** Visiting the polled method queues its callees, which are reachable through it. */
  lemma VisitKeepsWalk(h: Hierarchy, res: Resolution, entry: MethodId, reached: set<MethodId>, polled: seq<MethodId>, wl: seq<MethodId>)
    requires h.Valid() && polled != [] && polled[0] < |h.methods| && polled[0] !in reached
    requires WalkInv(h, res, entry, reached, polled)
    requires |wl| >= |polled| - 1 && wl[..|polled| - 1] == polled[1..]
    requires forall t :: t in wl[|polled| - 1..] <==> t in CalleesUpTo(h, res, polled[0], |Sites(h, polled[0])|)
    ensures WalkInv(h, res, entry, reached + {polled[0]}, wl)
  {
    var m, before, succ := polled[0], polled[1..], CallEdges(h, res);
    assert |before| == |polled| - 1;
    assert forall t :: t in before ==> t in polled;
    ReachableStep(entry, succ, m);
    SplitMembership(wl, before);
    forall t | t in wl
      ensures t < |h.methods| && Reachable(entry, succ, t)
    {
      if t !in before {
        assert t in wl[|before|..];
        assert t in succ(m);
      }
    }
    VisitKeepsClosed(succ, reached, polled, wl);
  }

  /** Visiting a method records exactly the edges of its call sites. */
  lemma VisitKeepsEdges(h: Hierarchy, res: Resolution, reached: set<MethodId>, m: MethodId, edges: set<CallEdge>, edges': set<CallEdge>)
    requires h.Valid() && m < |h.methods| && EdgesInv(h, res, reached, edges)
    requires edges' == edges + EdgesFrom(h, res, m)
    ensures EdgesInv(h, res, reached + {m}, edges')
  {
  }

  /** Each callee queued by a visit is the callee of one of the edges it records. */
  lemma VisitKeepsCover(h: Hierarchy, res: Resolution, entry: MethodId, reached: set<MethodId>, polled: seq<MethodId>,
                        edges: set<CallEdge>, edges': set<CallEdge>, wl: seq<MethodId>)
    requires h.Valid() && polled != [] && polled[0] < |h.methods|
    requires CoverInv(entry, reached, polled, edges)
    requires edges' == edges + EdgesFrom(h, res, polled[0])
    requires |wl| >= |polled| - 1 && wl[..|polled| - 1] == polled[1..]
    requires forall t :: t in wl[|polled| - 1..] <==> t in CalleesUpTo(h, res, polled[0], |Sites(h, polled[0])|)
    ensures CoverInv(entry, reached + {polled[0]}, wl, edges')
  {
    var m, before := polled[0], polled[1..];
    assert |before| == |polled| - 1;
    assert forall t :: t in before ==> t in polled;
    SplitMembership(wl, before);
    forall t | t in reached + {m} || t in wl
      ensures t == entry || exists e :: e in edges' && e.callee == t
    {
      if t in reached || t in polled {
        if t != entry {
          var e :| e in edges && e.callee == t;
          assert e in edges';
        }
      } else {
        assert t in wl[|before|..];
        CalleeHasEdge(h, res, m, t);
      }
    }
  }

  /** Polling a method not yet reached whose call sites resolve without null, and scanning them,
      keeps the walk's invariant. */
  lemma VisitPreserves(h: Hierarchy, res: Resolution, entry: MethodId, reached: set<MethodId>, polled: seq<MethodId>,
                       edges: set<CallEdge>, edges': set<CallEdge>, wl: seq<MethodId>)
    requires h.Valid() && polled != [] && polled[0] !in reached
    requires BuildInv(h, res, entry, reached, polled, edges)
    requires !HasNullSite(h, res, polled[0])
    requires edges' == edges + EdgesFrom(h, res, polled[0])
    requires |wl| >= |polled| - 1 && wl[..|polled| - 1] == polled[1..]
    requires forall t :: t in wl[|polled| - 1..] <==> t in CalleesUpTo(h, res, polled[0], |Sites(h, polled[0])|)
    ensures BuildInv(h, res, entry, reached + {polled[0]}, wl, edges')
  {
    VisitKeepsWalk(h, res, entry, reached, polled, wl);
    VisitKeepsEdges(h, res, reached, polled[0], edges, edges');
    VisitKeepsCover(h, res, entry, reached, polled, edges, edges', wl);
  }

  /** Polling a method already reached keeps the walk's invariant. */
  lemma SkipPreserves(h: Hierarchy, res: Resolution, entry: MethodId, reached: set<MethodId>, polled: seq<MethodId>, edges: set<CallEdge>)
    requires h.Valid() && polled != [] && polled[0] in reached
    requires BuildInv(h, res, entry, reached, polled, edges)
    ensures BuildInv(h, res, entry, reached, polled[1..], edges)
  {
    assert forall t :: t in polled[1..] ==> t in polled;
    SkipKeepsClosed(CallEdges(h, res), reached, polled);
  }

  /** Once the work list is empty, the reached methods are exactly those reachable from the
      entry, each the entry or the callee of a recorded edge, and none of them has a call site
      resolving to null. */
  lemma DrainedIsReachable(h: Hierarchy, res: Resolution, entry: MethodId, reached: set<MethodId>, edges: set<CallEdge>)
    requires h.Valid() && BuildInv(h, res, entry, reached, [], edges)
    ensures forall m: nat :: m in reached <==> Reachable(entry, CallEdges(h, res), m)
    ensures forall e :: e in edges <==>
      e.callSite.caller in reached && e.callSite.caller < |h.methods| && e in EdgesFrom(h, res, e.callSite.caller)
    ensures forall m :: m in reached ==> m == entry || exists e :: e in edges && e.callee == m
    ensures !exists m: nat :: Reachable(entry, CallEdges(h, res), m) && m < |h.methods| && HasNullSite(h, res, m)
  {
    ClosedContainsReachable(entry, CallEdges(h, res), reached);
  }

  /** `buildCallGraph`: from the entry, polls methods off the work list; a method not yet
      reachable becomes reachable and has its call sites resolved, each target getting an edge
      and joining the work list. It throws exactly when some method reachable from the entry has
      a call site that resolves to null, which only the code's own `resolve` does. Otherwise the
      result holds exactly the methods reachable from the entry through resolved calls, and
      exactly the edges of their call sites. */
  method BuildCallGraph(h: Hierarchy, res: Resolution, entry: MethodId) returns (r: Result<CallGraph>)
    requires h.Valid() && entry < |h.methods|
    ensures r.Failure? <==> exists m: nat :: Reachable(entry, CallEdges(h, res), m) && m < |h.methods| && HasNullSite(h, res, m)
    ensures r.Failure? ==> r.error == NullPointer
    ensures res == Intended ==> r.Success?
    ensures r.Success? ==> r.value.entryMethods == {entry}
    ensures r.Success? ==> forall m: nat :: m in r.value.reachableMethods <==> Reachable(entry, CallEdges(h, res), m)
    ensures r.Success? ==> forall e :: e in r.value.edges <==>
      e.callSite.caller in r.value.reachableMethods && e.callSite.caller < |h.methods| && e in EdgesFrom(h, res, e.callSite.caller)
    ensures r.Success? ==> forall m :: m in r.value.reachableMethods ==> m == entry || exists e :: e in r.value.edges && e.callee == m
  {
    var cg := CallGraph({entry}, {}, {});
    var workList: seq<MethodId> := [entry];
    var reached: set<MethodId> := {};
    EntryReachable(entry, CallEdges(h, res));
    while workList != []
      invariant cg.entryMethods == {entry} && cg.reachableMethods == reached
      invariant BuildInv(h, res, entry, reached, workList, cg.edges)
      decreases Range(|h.methods|) - reached, |workList|
    {
      var m := workList[0];
      ghost var polled := workList;
      workList := workList[1..];
      if m !in reached {
        var edges, wl, thrown := ScanCallSites(h, res, m, cg.edges, workList);
        if thrown {
          assert Reachable(entry, CallEdges(h, res), m);
          if res == Intended {
            IntendedHasNoNull(h, m);
          }
          return Failure(NullPointer);
        }
        VisitPreserves(h, res, entry, reached, polled, cg.edges, edges, wl);
        reached := reached + {m};
        cg := cg.(reachableMethods := reached, edges := edges);
        workList := wl;
      } else {
        SkipPreserves(h, res, entry, reached, polled, cg.edges);
      }
    }
    DrainedIsReachable(h, res, entry, reached, cg.edges);
    r := Success(cg);
  }

  /** As written, the walk throws on a static call through a subclass that inherits the method:
      with `B extends A` and `A` declaring `f`, whose body calls `B.f()`, the entry `A.f` has a
      call site resolving to null, so building the call graph from it fails; the corrected
      resolution has no such site. */
  lemma InheritedStaticCrashesWalk()
    ensures var h := Hierarchy([JClass(None, [], false, [0]), JClass(Some(0), [], false, [])],
                               [JMethod(0, 7, false, [CallSite(STATIC, MethodRef(1, 7))])]);
      h.Valid() && Reachable(0, CallEdges(h, AsWritten), 0) &&
      HasNullSite(h, AsWritten, 0) && !HasNullSite(h, Intended, 0)
  {
    var h := Hierarchy([JClass(None, [], false, [0]), JClass(Some(0), [], false, [])],
                       [JMethod(0, 7, false, [CallSite(STATIC, MethodRef(1, 7))])]);
    EntryReachable(0, CallEdges(h, AsWritten));
    assert DeclaredMethod(h, 1, 7) == None;
    assert None in Targets(h, AsWritten, Sites(h, 0)[0]);
  }
}
