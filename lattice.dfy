/** Meet semilattices given by a meet function, and folding a sequence of facts into a target
    with `meetInto`: the vocabulary the dataflow solvers are stated in. */
module Lattice {

  ghost predicate Commutative<F(!new)>(meet: (F, F) -> F)
  {
    forall a: F, b: F :: meet(a, b) == meet(b, a)
  }

  ghost predicate Associative<F(!new)>(meet: (F, F) -> F)
  {
    forall a: F, b: F, c: F :: meet(a, meet(b, c)) == meet(meet(a, b), c)
  }

  ghost predicate Idempotent<F(!new)>(meet: (F, F) -> F)
  {
    forall a: F :: meet(a, a) == a
  }

  /** `meet` is the meet of a semilattice: commutative, associative and idempotent. */
  ghost predicate IsSemilattice<F(!new)>(meet: (F, F) -> F)
  {
    Commutative(meet) && Associative(meet) && Idempotent(meet)
  }

  /** `target` already absorbs `fact`: meeting `fact` into it changes nothing. */
  predicate Absorbs<F(==)>(meet: (F, F) -> F, fact: F, target: F)
  {
    meet(fact, target) == target
  }

  /** `a` is at or below `b` in the order the meet induces. */
  predicate Leq<F(==)>(meet: (F, F) -> F, a: F, b: F)
  {
    meet(a, b) == a
  }

  /** The target after `meetInto(facts[0], target)`, ..., `meetInto(facts[n-1], target)`, in that order. */
  function FoldMeet<F(!new)>(meet: (F, F) -> F, facts: seq<F>, target: F): F
  {
    if facts == [] then target
    else meet(facts[|facts| - 1], FoldMeet(meet, facts[..|facts| - 1], target))
  }

  /** Once a target absorbs a fact, meeting further facts into it keeps it absorbing. */
  lemma AbsorbPersists<F(!new)>(meet: (F, F) -> F, f: F, g: F, x: F)
    requires IsSemilattice(meet)
    requires Absorbs(meet, f, x)
    ensures Absorbs(meet, f, meet(g, x))
  {
    calc {
      meet(f, meet(g, x));
      meet(meet(f, g), x);
      { assert meet(f, g) == meet(g, f); }
      meet(meet(g, f), x);
      meet(g, meet(f, x));
    }
  }

  /** A meet absorbs its own left argument. */
  lemma AbsorbsMet<F(!new)>(meet: (F, F) -> F, f: F, x: F)
    requires IsSemilattice(meet)
    ensures Absorbs(meet, f, meet(f, x))
  {
    calc {
      meet(f, meet(f, x));
      meet(meet(f, f), x);
      meet(f, x);
    }
  }

  /** After folding, the target absorbs every fact that was folded into it. */
  lemma {:induction false} FoldAbsorbsEach<F(!new)>(meet: (F, F) -> F, facts: seq<F>, target: F, i: nat)
    requires IsSemilattice(meet)
    requires i < |facts|
    ensures Absorbs(meet, facts[i], FoldMeet(meet, facts, target))
  {
    var n := |facts| - 1;
    var prefix := facts[..n];
    if i == n {
      AbsorbsMet(meet, facts[n], FoldMeet(meet, prefix, target));
    } else {
      FoldAbsorbsEach(meet, prefix, target, i);
      AbsorbPersists(meet, facts[i], facts[n], FoldMeet(meet, prefix, target));
    }
  }

  /** Folding facts that a target already absorbs leaves the target unchanged. */
  lemma {:induction false} FoldOfAbsorbed<F(!new)>(meet: (F, F) -> F, facts: seq<F>, x: F)
    requires forall i :: 0 <= i < |facts| ==> Absorbs(meet, facts[i], x)
    ensures FoldMeet(meet, facts, x) == x
  {
    if facts != [] {
      var n := |facts| - 1;
      FoldOfAbsorbed(meet, facts[..n], x);
    }
  }

  /** Folding into a target absorbs the fold: folding the same facts again changes nothing. */
  lemma FoldIdempotent<F(!new)>(meet: (F, F) -> F, facts: seq<F>, target: F)
    requires IsSemilattice(meet)
    ensures FoldMeet(meet, facts, FoldMeet(meet, facts, target)) == FoldMeet(meet, facts, target)
  {
    forall i | 0 <= i < |facts|
      ensures Absorbs(meet, facts[i], FoldMeet(meet, facts, target))
    {
      FoldAbsorbsEach(meet, facts, target, i);
    }
    FoldOfAbsorbed(meet, facts, FoldMeet(meet, facts, target));
  }
}
