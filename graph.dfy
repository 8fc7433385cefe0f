/** Reachability in a directed graph whose nodes are numbered and whose successors are given by a
    function: the meaning of the work-list walks over control-flow graphs and call graphs. */
module Graphs {

  /** A walk from `entry` along `succ`. */
  ghost predicate IsPath(entry: nat, succ: nat -> set<nat>, p: seq<nat>)
  {
    |p| > 0 && p[0] == entry &&
    forall i :: 0 <= i < |p| - 1 ==> p[i + 1] in succ(p[i])
  }

  /** The node can be reached from `entry` along `succ`. */
  ghost predicate Reachable(entry: nat, succ: nat -> set<nat>, n: nat)
  {
    exists p :: IsPath(entry, succ, p) && p[|p| - 1] == n
  }

  /** The set holds the successors of each of its members. */
  ghost predicate Closed(s: set<nat>, succ: nat -> set<nat>)
  {
    forall m, t :: m in s && t in succ(m) ==> t in s
  }

  /** Every successor of a node below `size` is below `size`. */
  ghost predicate InRange(size: nat, succ: nat -> set<nat>)
  {
    forall m: nat, t :: m < size && t in succ(m) ==> t < size
  }

  /** The node indices below `n`. */
  function Range(n: nat): (r: set<nat>)
    ensures forall i: nat :: i in r <==> i < n
  {
    if n == 0 then {} else Range(n - 1) + {n - 1}
  }

  lemma EntryReachable(entry: nat, succ: nat -> set<nat>)
    ensures Reachable(entry, succ, entry)
  {
    assert IsPath(entry, succ, [entry]);
  }

  /** A reachable node leads on to each of its successors. */
  lemma ReachableStep(entry: nat, succ: nat -> set<nat>, m: nat)
    requires Reachable(entry, succ, m)
    ensures forall t :: t in succ(m) ==> Reachable(entry, succ, t)
  {
    var p :| IsPath(entry, succ, p) && p[|p| - 1] == m;
    forall t | t in succ(m)
      ensures Reachable(entry, succ, t)
    {
      var q := p + [t];
      assert IsPath(entry, succ, q);
    }
  }

  /** A node reachable from a successor of `entry` is reachable from `entry`. */
  lemma ReachableThrough(entry: nat, succ: nat -> set<nat>, next: nat, n: nat)
    requires next in succ(entry) && Reachable(next, succ, n)
    ensures Reachable(entry, succ, n)
  {
    var p :| IsPath(next, succ, p) && p[|p| - 1] == n;
    var q := [entry] + p;
    assert forall i :: 0 < i < |q| ==> q[i] == p[i - 1];
    assert IsPath(entry, succ, q);
  }

  /** A closed set that holds the entry holds every reachable node: the reachable nodes form the
      least such set. */
  lemma ClosedContainsReachable(entry: nat, succ: nat -> set<nat>, s: set<nat>)
    requires entry in s && Closed(s, succ)
    ensures forall n :: Reachable(entry, succ, n) ==> n in s
  {
    forall n | Reachable(entry, succ, n)
      ensures n in s
    {
      var p :| IsPath(entry, succ, p) && p[|p| - 1] == n;
      PathStaysIn(entry, succ, s, p);
    }
  }

  lemma {:induction false} PathStaysIn(entry: nat, succ: nat -> set<nat>, s: set<nat>, p: seq<nat>)
    requires entry in s && Closed(s, succ)
    requires IsPath(entry, succ, p)
    ensures p[|p| - 1] in s
  {
    if |p| > 1 {
      var q := p[..|p| - 1];
      assert IsPath(entry, succ, q);
      PathStaysIn(entry, succ, s, q);
      assert p[|p| - 1] in succ(p[|p| - 2]);
    }
  }

  /** From a node below `size`, every reachable node is below `size`. */
  lemma ReachableInRange(entry: nat, succ: nat -> set<nat>, size: nat, n: nat)
    requires entry < size && InRange(size, succ)
    requires Reachable(entry, succ, n)
    ensures n < size
  {
    forall m, t | m in Range(size) && t in succ(m)
      ensures t in Range(size)
    {
    }
    ClosedContainsReachable(entry, succ, Range(size));
  }

  /** Every successor of a visited node is visited or queued. */
  ghost predicate ClosedUpTo(succ: nat -> set<nat>, visited: set<nat>, queued: seq<nat>)
  {
    forall x, t :: x in visited && t in succ(x) ==> t in visited || t in queued
  }

  /** Visiting the polled node, with its successors queued behind the rest, keeps the visited
      nodes closed up to the queue. */
  lemma VisitKeepsClosed(succ: nat -> set<nat>, visited: set<nat>, polled: seq<nat>, wl: seq<nat>)
    requires polled != [] && ClosedUpTo(succ, visited, polled)
    requires forall t :: t in polled[1..] ==> t in wl
    requires forall t :: t in succ(polled[0]) ==> t in wl
    ensures ClosedUpTo(succ, visited + {polled[0]}, wl)
  {
    forall x, t | x in visited + {polled[0]} && t in succ(x)
      ensures t in visited + {polled[0]} || t in wl
    {
      if x != polled[0] && t !in visited && t != polled[0] {
        assert t in polled;
        assert polled == [polled[0]] + polled[1..];
      }
    }
  }

  /** Polling a node already visited keeps the visited nodes closed up to the rest of the queue. */
  lemma SkipKeepsClosed(succ: nat -> set<nat>, visited: set<nat>, polled: seq<nat>)
    requires polled != [] && polled[0] in visited && ClosedUpTo(succ, visited, polled)
    ensures ClosedUpTo(succ, visited, polled[1..])
  {
    forall x, t | x in visited && t in succ(x)
      ensures t in visited || t in polled[1..]
    {
      if t !in visited {
        assert t in polled;
        assert polled == [polled[0]] + polled[1..];
      }
    }
  }

  /** A work list that extends `rest` holds what `rest` holds and what was appended. */
  lemma SplitMembership(ws: seq<nat>, rest: seq<nat>)
    requires |ws| >= |rest| && ws[..|rest|] == rest
    ensures forall t :: t in ws <==> t in rest || t in ws[|rest|..]
  {
    assert ws == rest + ws[|rest|..];
  }
}
