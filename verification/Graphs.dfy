/** Finite directed graphs over device names, given by successor lists, and the
    notions of walk, reachability, distance and cycle used by the traversals. */
module Graphs {

  type Graph = map<string, seq<string>>

  predicate Edge(g: Graph, a: string, b: string) {
    a in g && b in g[a]
  }

  /** There is a walk of exactly `n` edges from `a` to `b`. */
  ghost predicate ReachIn(g: Graph, a: string, b: string, n: nat)
    decreases n
  {
    if n == 0 then a == b else exists m :: ReachIn(g, a, m, n - 1) && Edge(g, m, b)
  }

  ghost predicate Reach(g: Graph, a: string, b: string) {
    exists n: nat :: ReachIn(g, a, b, n)
  }

  ghost predicate OnCycle(g: Graph, a: string) {
    exists m :: Edge(g, a, m) && Reach(g, m, a)
  }

  ghost predicate Acyclic(g: Graph) {
    forall a :: !OnCycle(g, a)
  }

  ghost predicate ClosedUnder(g: Graph, s: set<string>) {
    forall a, b :: a in s && Edge(g, a, b) ==> b in s
  }

  /** The edges of `h` are those of `g` backwards, but for edges of `g` that leave it. */
  ghost predicate Reversed(g: Graph, h: Graph) {
    forall a, b :: Edge(h, b, a) <==> Edge(g, a, b) && b in g
  }

  lemma ReachSelf(g: Graph, a: string)
    ensures Reach(g, a, a)
  {
    assert ReachIn(g, a, a, 0);
  }

  lemma {:induction false} WalksConcat(g: Graph, a: string, b: string, c: string, m: nat, n: nat)
    requires ReachIn(g, a, b, m) && ReachIn(g, b, c, n)
    ensures ReachIn(g, a, c, m + n)
    decreases n
  {
    if n != 0 {
      var d :| ReachIn(g, b, d, n - 1) && Edge(g, d, c);
      WalksConcat(g, a, b, d, m, n - 1);
    }
  }

  lemma ReachTransitive(g: Graph, a: string, b: string, c: string)
    requires Reach(g, a, b) && Reach(g, b, c)
    ensures Reach(g, a, c)
  {
    var m: nat :| ReachIn(g, a, b, m);
    var n: nat :| ReachIn(g, b, c, n);
    WalksConcat(g, a, b, c, m, n);
  }

  lemma EdgeWalk(g: Graph, a: string, b: string)
    requires Edge(g, a, b)
    ensures ReachIn(g, a, b, 1) && Reach(g, a, b)
  {
    assert ReachIn(g, a, a, 0);
  }

  lemma {:induction false} WalkFirstEdge(g: Graph, a: string, b: string, n: nat) returns (m: string)
    requires n > 0 && ReachIn(g, a, b, n)
    ensures Edge(g, a, m) && ReachIn(g, m, b, n - 1)
    decreases n
  {
    var d :| ReachIn(g, a, d, n - 1) && Edge(g, d, b);
    if n == 1 {
      m := b;
    } else {
      m := WalkFirstEdge(g, a, d, n - 1);
    }
  }

  lemma NoEdgeNoWalk(g: Graph, a: string, b: string)
    requires Reach(g, a, b) && a != b
    ensures exists m :: Edge(g, a, m)
  {
    var n: nat :| ReachIn(g, a, b, n);
    var m := WalkFirstEdge(g, a, b, n);
  }

  lemma {:induction false} ClosedContainsWalk(g: Graph, s: set<string>, a: string, b: string, n: nat)
    requires ClosedUnder(g, s) && a in s && ReachIn(g, a, b, n)
    ensures b in s
    decreases n
  {
    if n != 0 {
      var d :| ReachIn(g, a, d, n - 1) && Edge(g, d, b);
      ClosedContainsWalk(g, s, a, d, n - 1);
    }
  }

  lemma ClosedContainsReach(g: Graph, s: set<string>, a: string)
    requires ClosedUnder(g, s) && a in s
    ensures forall b :: Reach(g, a, b) ==> b in s
  {
    forall b | Reach(g, a, b) ensures b in s {
      var n: nat :| ReachIn(g, a, b, n);
      ClosedContainsWalk(g, s, a, b, n);
    }
  }

  lemma {:induction false} WalkReversed(g: Graph, h: Graph, a: string, b: string, n: nat)
    requires Reversed(g, h) && ReachIn(g, a, b, n) && b in g
    ensures ReachIn(h, b, a, n)
    decreases n
  {
    if n != 0 {
      var d :| ReachIn(g, a, d, n - 1) && Edge(g, d, b);
      WalkReversed(g, h, a, d, n - 1);
      EdgeWalk(h, b, d);
      WalksConcat(h, b, d, a, 1, n - 1);
    }
  }

  lemma {:induction false} WalkReversedBack(g: Graph, h: Graph, b: string, a: string, n: nat)
    requires Reversed(g, h) && ReachIn(h, b, a, n)
    ensures ReachIn(g, a, b, n)
    decreases n
  {
    if n != 0 {
      var d :| ReachIn(h, b, d, n - 1) && Edge(h, d, a);
      WalkReversedBack(g, h, b, d, n - 1);
      EdgeWalk(g, a, d);
      WalksConcat(g, a, d, b, 1, n - 1);
    }
  }

  lemma ReachReversed(g: Graph, h: Graph, a: string, b: string)
    requires Reversed(g, h) && b in g
    ensures Reach(g, a, b) <==> Reach(h, b, a)
  {
    if Reach(g, a, b) {
      var n: nat :| ReachIn(g, a, b, n);
      WalkReversed(g, h, a, b, n);
    }
    if Reach(h, b, a) {
      var n: nat :| ReachIn(h, b, a, n);
      WalkReversedBack(g, h, b, a, n);
    }
  }

  lemma ClosedWalkIsCycle(g: Graph, a: string, n: nat)
    requires n > 0 && ReachIn(g, a, a, n)
    ensures OnCycle(g, a)
  {
    var m := WalkFirstEdge(g, a, a, n);
    assert Reach(g, m, a);
  }

  lemma EdgeBackIsCycle(g: Graph, a: string, b: string)
    requires Edge(g, a, b) && Reach(g, b, a)
    ensures OnCycle(g, b)
  {
    var n: nat :| ReachIn(g, b, a, n);
    EdgeWalk(g, a, b);
    WalksConcat(g, b, a, b, n, 1);
    ClosedWalkIsCycle(g, b, n + 1);
  }

  lemma CycleIsClosedWalk(g: Graph, a: string) returns (n: nat)
    requires OnCycle(g, a)
    ensures n > 0 && ReachIn(g, a, a, n)
  {
    var m :| Edge(g, a, m) && Reach(g, m, a);
    var k: nat :| ReachIn(g, m, a, k);
    EdgeWalk(g, a, m);
    WalksConcat(g, a, m, a, 1, k);
    n := k + 1;
  }

  lemma CycleReversed(g: Graph, h: Graph, a: string)
    requires Reversed(g, h)
    ensures OnCycle(g, a) <==> OnCycle(h, a)
  {
    if OnCycle(g, a) {
      var n := CycleIsClosedWalk(g, a);
      WalkReversed(g, h, a, a, n);
      ClosedWalkIsCycle(h, a, n);
    }
    if OnCycle(h, a) {
      var n := CycleIsClosedWalk(h, a);
      WalkReversedBack(g, h, a, a, n);
      ClosedWalkIsCycle(g, a, n);
    }
  }

  /** The number of edges on a shortest walk. */
  ghost function Dist(g: Graph, a: string, b: string): (d: nat)
    requires Reach(g, a, b)
    ensures ReachIn(g, a, b, d)
    ensures forall n: nat :: ReachIn(g, a, b, n) ==> d <= n
  {
    var n: nat :| ReachIn(g, a, b, n);
    Shortest(g, a, b, n)
  }

  ghost function Shortest(g: Graph, a: string, b: string, bound: nat): (d: nat)
    requires ReachIn(g, a, b, bound)
    ensures ReachIn(g, a, b, d)
    ensures forall n: nat :: ReachIn(g, a, b, n) ==> d <= n
    decreases bound
  {
    if n: nat :| n < bound && ReachIn(g, a, b, n) then Shortest(g, a, b, n) else bound
  }
}
