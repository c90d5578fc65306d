/** Traversals of the association graph (src/dat_traverse.cpp): filling in the
    parents, collecting what a device is associated with, and carrying a device's
    health to everything above it. */
module DatTraversal {
  import opened PropertyValues
  import opened Graphs
  import opened DeviceTree

  datatype Status = Status(health: string, healthRollup: string, originOfCondition: string, triState: string)

  class DeviceNode {
    const config: Device
    var parents: seq<string>
    var healthStatus: Status

    constructor (config: Device)
      ensures this.config == config && parents == []
      ensures healthStatus == Status("OK", "OK", "", "Active")
    {
      this.config := config;
      parents := [];
      healthStatus := Status("OK", "OK", "", "Active");
    }
  }

  type Tree = map<string, DeviceNode>

  ghost predicate ValidTree(dat: Tree) {
    && (forall k :: k in dat ==> dat[k].config.name == k)
    && forall j, k :: j in dat && k in dat && j != k ==> dat[j] != dat[k]
  }

  ghost function Nodes(dat: Tree): set<DeviceNode> {
    set k | k in dat :: dat[k]
  }

  function Associations(dat: Tree): Graph {
    map k | k in dat :: dat[k].config.association
  }

  ghost function Parents(dat: Tree): Graph
    reads Nodes(dat)
  {
    map k | k in dat :: dat[k].parents
  }

  // ------------------------------------------------------------------- parents

  function Copies(p: string, children: seq<string>, c: string): seq<string> {
    if children == [] then []
    else Copies(p, children[..|children| - 1], c) + (if children[|children| - 1] == c then [p] else [])
  }

  /** The parents entered for `c` when the devices of `order` are gone through. */
  function ParentsOf(order: seq<string>, g: Graph, c: string): seq<string>
    requires forall k :: k in order ==> k in g
  {
    if order == [] then []
    else
      var p := order[|order| - 1];
      ParentsOf(order[..|order| - 1], g, c) + Copies(p, g[p], c)
  }

  /** Second pass of the population of the tree. */
  method FillParents(order: seq<string>, dat: Tree)
    requires ValidTree(dat) && forall k :: k in order <==> k in dat
    requires forall k :: k in dat ==> dat[k].parents == []
    modifies Nodes(dat)`parents
    ensures forall c :: c in dat ==> dat[c].parents == ParentsOf(order, Associations(dat), c)
  {
    hide Copies, ParentsOf, Associations;
    ghost var g := Associations(dat);
    InTree(dat, order);
    ParentsStart(order, g);
    for i := 0 to |order|
      invariant forall c :: c in dat ==> dat[c].parents == ParentsOf(order[..i], g, c)
    {
      var entry := order[i];
      var association := dat[entry].config.association;
      CopiesStart(entry, association);
      for j := 0 to |association|
        invariant forall c :: c in dat ==>
          dat[c].parents == ParentsOf(order[..i], g, c) + Copies(entry, association[..j], c)
      {
        var child := association[j];
        CopiesStep(entry, association, j);
        if child in dat {
          dat[child].parents := dat[child].parents + [entry];
        }
      }
      assert association[..|association|] == association;
      ParentsStep(dat, order, i);
    }
    assert order[..|order|] == order;
  }

  lemma InTree(dat: Tree, order: seq<string>)
    requires forall k :: k in order <==> k in dat
    ensures forall k :: k in dat ==> k in Associations(dat) && dat[k] in Nodes(dat)
    ensures forall k :: k in order ==> k in Associations(dat) && Associations(dat)[k] == dat[k].config.association
  {
  }

  lemma ParentsStart(order: seq<string>, g: Graph)
    requires forall k :: k in order ==> k in g
    ensures forall c :: ParentsOf(order[..0], g, c) == []
  {
  }

  lemma ParentsStep(dat: Tree, order: seq<string>, i: nat)
    requires i < |order| && forall k :: k in order ==> k in dat
    ensures forall c :: (ParentsOf(order[..i + 1], Associations(dat), c) ==
      ParentsOf(order[..i], Associations(dat), c) + Copies(order[i], dat[order[i]].config.association, c))
  {
    assert order[..i + 1][..i] == order[..i];
  }

  lemma CopiesStart(p: string, children: seq<string>)
    ensures forall c, before: seq<string> :: before + Copies(p, children[..0], c) == before
  {
  }

  lemma CopiesStep(p: string, children: seq<string>, j: nat)
    requires j < |children|
    ensures forall c, before: seq<string> :: (before + Copies(p, children[..j + 1], c) ==
      before + Copies(p, children[..j], c) + (if children[j] == c then [p] else []))
  {
    assert children[..j + 1][..j] == children[..j];
    forall c, before: seq<string> ensures before + Copies(p, children[..j + 1], c)
        == before + Copies(p, children[..j], c) + (if children[j] == c then [p] else [])
    {
      assert Copies(p, children[..j + 1], c) == Copies(p, children[..j], c) + (if children[j] == c then [p] else []);
    }
  }

  lemma {:induction false} CopiesCount(p: string, children: seq<string>, c: string, q: string)
    ensures multiset(Copies(p, children, c))[q] == if q == p then multiset(children)[c] else 0
  {
    if children != [] {
      CopiesCount(p, children[..|children| - 1], c, q);
      assert children == children[..|children| - 1] + [children[|children| - 1]];
    }
  }

  /** A device is entered as a parent as often as it lists the child. */
  lemma {:induction false} ParentsCount(order: seq<string>, g: Graph, c: string, p: string)
    requires forall k :: k in order ==> k in g
    requires forall i, j :: 0 <= i < j < |order| ==> order[i] != order[j]
    ensures multiset(ParentsOf(order, g, c))[p] == if p in order then multiset(g[p])[c] else 0
  {
    if order != [] {
      var last := order[|order| - 1];
      ParentsCount(order[..|order| - 1], g, c, p);
      CopiesCount(last, g[last], c, p);
      assert order == order[..|order| - 1] + [last];
    }
  }

  /** Parents stand in the order in which the devices are gone through. */
  lemma {:induction false} ParentsInOrder(order: seq<string>, g: Graph, c: string, i: nat, j: nat)
    requires forall k :: k in order ==> k in g
    requires i < j < |ParentsOf(order, g, c)|
    ensures exists a, b ::
      0 <= a <= b < |order| && order[a] == ParentsOf(order, g, c)[i] && order[b] == ParentsOf(order, g, c)[j]
  {
    hide Copies;
    var n := |order| - 1;
    var front := order[..n];
    var before := ParentsOf(front, g, c);
    CopiesAre(order[n], g[order[n]], c);
    if j < |before| {
      ParentsInOrder(front, g, c, i, j);
      var a, b :| 0 <= a <= b < |front| && front[a] == before[i] && front[b] == before[j];
      assert order[a] == front[a] && order[b] == front[b];
    } else if i < |before| {
      ParentIsHolder(front, g, c, i);
      var a :| 0 <= a < |front| && front[a] == before[i];
      assert order[a] == front[a] && order[n] == ParentsOf(order, g, c)[j];
    } else {
      assert order[n] == ParentsOf(order, g, c)[i] && order[n] == ParentsOf(order, g, c)[j];
    }
  }

  lemma {:induction false} CopiesAre(p: string, children: seq<string>, c: string)
    ensures forall i :: 0 <= i < |Copies(p, children, c)| ==> Copies(p, children, c)[i] == p
  {
    if children != [] {
      CopiesAre(p, children[..|children| - 1], c);
    }
  }

  lemma {:induction false} ParentIsHolder(order: seq<string>, g: Graph, c: string, i: nat)
    requires forall k :: k in order ==> k in g
    requires i < |ParentsOf(order, g, c)|
    ensures exists a :: 0 <= a < |order| && order[a] == ParentsOf(order, g, c)[i]
  {
    hide Copies;
    var n := |order| - 1;
    var front := order[..n];
    CopiesAre(order[n], g[order[n]], c);
    if i < |ParentsOf(front, g, c)| {
      ParentIsHolder(front, g, c, i);
      var a :| 0 <= a < |front| && front[a] == ParentsOf(front, g, c)[i];
      assert order[a] == front[a];
    } else {
      assert order[n] == ParentsOf(order, g, c)[i];
    }
  }

  /** The parent relation is the association relation backwards. */
  lemma ParentsReverseAssociations(order: seq<string>, g: Graph, up: Graph)
    requires forall k :: k in order <==> k in g
    requires forall i, j :: 0 <= i < j < |order| ==> order[i] != order[j]
    requires up == map c | c in g :: ParentsOf(order, g, c)
    ensures Reversed(g, up)
  {
    forall a, b ensures Edge(up, b, a) <==> Edge(g, a, b) && b in g {
      if b in g {
        ParentsCount(order, g, b, a);
        assert a in ParentsOf(order, g, b) <==> multiset(ParentsOf(order, g, b))[a] > 0;
        assert a in g ==> (b in g[a] <==> multiset(g[a])[b] > 0);
      }
    }
  }

  // -------------------------------------------------------------- going down

  /** The associations that a traversal follows. */
  function Expanded(dat: Tree, expand: string -> bool): Graph {
    map k | k in dat :: if expand(k) then dat[k].config.association else []
  }

  lemma ExpandedEdges(dat: Tree, expand: string -> bool, a: string, b: string)
    ensures Edge(Expanded(dat, expand), a, b) <==> a in dat && expand(a) && b in dat[a].config.association
    ensures Edge(Associations(dat), a, b) <==> a in dat && b in dat[a].config.association
  {
  }

  /** What a depth-first traversal has found and still has to visit. */
  ghost predicate Traversed(g: Graph, device: string, result: seq<string>, toVisit: seq<string>) {
    && (forall i, j :: 0 <= i < j < |result| ==> result[i] != result[j])
    && (forall x :: x in result ==> x in g && Reach(g, device, x))
    && (forall x :: x in toVisit ==> Reach(g, device, x))
    && (forall x, y :: x in result && Edge(g, x, y) ==> y in result || y in toVisit)
    && (result == [] ==> toVisit == [device])
    && (result != [] ==> result[0] == device)
  }

  lemma TraversedSkip(g: Graph, device: string, result: seq<string>, toVisit: seq<string>)
    requires Traversed(g, device, result, toVisit) && toVisit != [] && toVisit[|toVisit| - 1] in result
    ensures Traversed(g, device, result, toVisit[..|toVisit| - 1])
  {
    assert toVisit == toVisit[..|toVisit| - 1] + [toVisit[|toVisit| - 1]];
  }

  lemma TraversedVisit(g: Graph, device: string, result: seq<string>, toVisit: seq<string>, x: string)
    requires Traversed(g, device, result, toVisit) && toVisit != [] && toVisit[|toVisit| - 1] == x
    requires x !in result && x in g
    ensures Traversed(g, device, result + [x], toVisit[..|toVisit| - 1] + g[x])
  {
    assert toVisit == toVisit[..|toVisit| - 1] + [x];
    forall y | y in g[x] ensures Reach(g, device, y) {
      EdgeWalk(g, x, y);
      ReachTransitive(g, device, x, y);
    }
  }

  lemma TraversedAll(g: Graph, device: string, result: seq<string>)
    requires Traversed(g, device, result, [])
    ensures forall x :: x in result <==> Reach(g, device, x)
  {
    var s := set x | x in result;
    assert ClosedUnder(g, s);
    ClosedContainsReach(g, s, device);
  }

  /** Every device that associations lead to, or an exception when they lead to a
      name that is not in the tree. */
  method ChildTraverse(dat: Tree, device: string, expand: string -> bool) returns (r: Result<seq<string>>)
    ensures r.Throws? <==> exists v :: Reach(Expanded(dat, expand), device, v) && v !in dat
    ensures r.Ok? ==>
      && (forall i, j :: 0 <= i < j < |r.value| ==> r.value[i] != r.value[j])
      && r.value != [] && r.value[0] == device
      && forall x :: x in r.value <==> Reach(Expanded(dat, expand), device, x)
  {
    ghost var g := Expanded(dat, expand);
    ReachSelf(g, device);
    var result: seq<string> := [];
    var toVisit := [device];
    while toVisit != []
      invariant Traversed(g, device, result, toVisit)
      decreases dat.Keys - set x | x in result, |toVisit|
    {
      var current := toVisit[|toVisit| - 1];
      if current !in result {
        if current !in dat {
          return Throws;
        }
        TraversedVisit(g, device, result, toVisit, current);
        assert current in dat.Keys - set x | x in result;
        assert current !in dat.Keys - set x | x in result + [current];
        toVisit := toVisit[..|toVisit| - 1] + (if expand(current) then dat[current].config.association else []);
        result := result + [current];
      } else {
        TraversedSkip(g, device, result, toVisit);
        toVisit := toVisit[..|toVisit| - 1];
      }
    }
    TraversedAll(g, device, result);
    return Ok(result);
  }

  // ---------------------------------------------------------------- going up

  /** Nothing that can be reached from `x` lies on a cycle. */
  ghost predicate NoCycleFrom(g: Graph, x: string) {
    forall y :: Reach(g, x, y) ==> !OnCycle(g, y)
  }

  ghost function Above(g: Graph, x: string): set<string> {
    set y | y in g && exists m :: Edge(g, x, m) && Reach(g, m, y)
  }

  lemma ParentHasFewerAbove(g: Graph, x: string, p: string)
    requires NoCycleFrom(g, x) && Edge(g, x, p)
    ensures NoCycleFrom(g, p)
    ensures |Above(g, p)| <= |Above(g, x)| && (p in g ==> |Above(g, p)| < |Above(g, x)|)
  {
    EdgeWalk(g, x, p);
    forall y | Reach(g, p, y) ensures Reach(g, x, y) {
      ReachTransitive(g, x, p, y);
    }
    forall y | y in Above(g, p) ensures y in Above(g, x) {
      var m :| Edge(g, p, m) && Reach(g, m, y);
      EdgeWalk(g, p, m);
      ReachTransitive(g, p, m, y);
    }
    SubsetSize(Above(g, p), Above(g, x));
    if p in g {
      ReachSelf(g, p);
      assert p in Above(g, x) && p !in Above(g, p);
      SubsetSize(Above(g, p), Above(g, x) - {p});
    }
  }

  lemma {:induction false} SubsetSize(a: set<string>, b: set<string>)
    requires a <= b
    ensures |a| <= |b|
  {
    if a != {} {
      var x :| x in a;
      SubsetSize(a - {x}, b - {x});
    }
  }

  /** The number of upward walks that start at `x`. */
  ghost function UpCount(g: Graph, x: string): (n: nat)
    requires NoCycleFrom(g, x)
    ensures n >= 1
    decreases |Above(g, x)|, 1, 0
  {
    if x in g then
      assert forall p :: p in g[x] ==> Edge(g, x, p);
      1 + UpCounts(g, x, g[x])
    else 1
  }

  ghost function UpCounts(g: Graph, x: string, ps: seq<string>): nat
    requires NoCycleFrom(g, x) && forall p :: p in ps ==> Edge(g, x, p)
    decreases |Above(g, x)|, 0, |ps|
  {
    if ps == [] then 0
    else
      ParentHasFewerAbove(g, x, ps[0]);
      (if ps[0] in g then UpCount(g, ps[0]) else 1) + UpCounts(g, x, ps[1..])
  }

  ghost function Weight(g: Graph, fringe: seq<string>): nat
    requires forall x :: x in fringe ==> NoCycleFrom(g, x)
  {
    if fringe == [] then 0 else UpCount(g, fringe[0]) + Weight(g, fringe[1..])
  }

  lemma {:induction false} WeightConcat(g: Graph, a: seq<string>, b: seq<string>)
    requires forall x :: x in a || x in b ==> NoCycleFrom(g, x)
    ensures Weight(g, a + b) == Weight(g, a) + Weight(g, b)
  {
    if a == [] {
      assert a + b == b;
    } else {
      assert (a + b)[1..] == a[1..] + b;
      WeightConcat(g, a[1..], b);
    }
  }

  lemma {:induction false} UpCountsIsWeight(g: Graph, x: string, ps: seq<string>)
    requires NoCycleFrom(g, x) && forall p :: p in ps ==> Edge(g, x, p)
    ensures forall p :: p in ps ==> NoCycleFrom(g, p)
    ensures UpCounts(g, x, ps) == Weight(g, ps)
  {
    if ps != [] {
      ParentHasFewerAbove(g, x, ps[0]);
      UpCountsIsWeight(g, x, ps[1..]);
      assert ps == [ps[0]] + ps[1..];
    }
  }

  /** One round of the upward walk: the front of the fringe gives way to its parents. */
  function Advance(g: Graph, fringe: seq<string>): seq<string> {
    if fringe == [] then []
    else fringe[1..] + (if fringe[0] in g then g[fringe[0]] else [])
  }

  function FringeAfter(g: Graph, fringe: seq<string>, n: nat): seq<string>
    decreases n
  {
    if n == 0 then fringe else FringeAfter(g, Advance(g, fringe), n - 1)
  }

  lemma AdvanceIsLighter(g: Graph, fringe: seq<string>)
    requires fringe != [] && forall x :: x in fringe ==> NoCycleFrom(g, x)
    ensures forall x :: x in Advance(g, fringe) ==> NoCycleFrom(g, x)
    ensures Weight(g, Advance(g, fringe)) == Weight(g, fringe) - 1
  {
    var x := fringe[0];
    var ps := if x in g then g[x] else [];
    UpCountsIsWeight(g, x, ps);
    WeightConcat(g, fringe[1..], ps);
  }

  lemma {:induction false} WalkEndsAtWeight(g: Graph, fringe: seq<string>)
    requires forall x :: x in fringe ==> NoCycleFrom(g, x)
    ensures FringeAfter(g, fringe, Weight(g, fringe)) == []
    decreases Weight(g, fringe)
  {
    if fringe != [] {
      AdvanceIsLighter(g, fringe);
      WalkEndsAtWeight(g, Advance(g, fringe));
    }
  }

  lemma {:induction false} WalkBelowCycleGoesOn(g: Graph, fringe: seq<string>, x: string, n: nat)
    requires x in fringe && !NoCycleFrom(g, x)
    ensures FringeAfter(g, fringe, n) != []
    decreases n
  {
    if n > 0 {
      if fringe[0] == x {
        var p := NextTowardsCycle(g, x);
        assert p in Advance(g, fringe);
        WalkBelowCycleGoesOn(g, Advance(g, fringe), p, n - 1);
      } else {
        assert x in fringe[1..] && x in Advance(g, fringe);
        WalkBelowCycleGoesOn(g, Advance(g, fringe), x, n - 1);
      }
    }
  }

  lemma NextTowardsCycle(g: Graph, x: string) returns (p: string)
    requires !NoCycleFrom(g, x)
    ensures Edge(g, x, p) && !NoCycleFrom(g, p)
  {
    var y :| Reach(g, x, y) && OnCycle(g, y);
    var n: nat :| ReachIn(g, x, y, n);
    if n == 0 {
      p :| Edge(g, x, p) && Reach(g, p, x);
    } else {
      p := WalkFirstEdge(g, x, y, n);
    }
  }

  /** The upward walk from a device, which keeps no record of where it has been,
      comes to an end exactly when nothing above the device lies on a cycle. */
  lemma UpwardWalkEndsIff(g: Graph, device: string)
    ensures (exists n: nat :: FringeAfter(g, [device], n) == []) <==> NoCycleFrom(g, device)
  {
    if NoCycleFrom(g, device) {
      WalkEndsAtWeight(g, [device]);
    } else {
      forall n: nat ensures FringeAfter(g, [device], n) != [] {
        WalkBelowCycleGoesOn(g, [device], device, n);
      }
    }
  }

  /** The status that a device hands on: its health, also as the roll-up, and itself as
      the origin of the condition. */
  function HandedOn(own: Status, device: string): Status {
    Status(own.health, own.health, device, own.triState)
  }

  /** What the callbacks of the health roll-up make of the status of a device. */
  function RolledUp(node: Status, status: Status): Status {
    Status(node.health, status.healthRollup, status.originOfCondition, status.triState)
  }

  /** The devices updated so far are among those above the start, and whatever they
      have as parents is updated too or waits in the fringe. */
  ghost predicate Climbing(g: Graph, device: string, visited: set<string>, fringe: seq<string>) {
    && (device in visited || device in fringe)
    && (forall x :: x in visited ==> Reach(g, device, x))
    && (forall x :: x in fringe ==> Reach(g, device, x) && NoCycleFrom(g, x))
    && forall x, p :: x in visited && Edge(g, x, p) ==> p in visited || p in fringe
  }

  lemma ClimbingStart(g: Graph, device: string)
    requires NoCycleFrom(g, device)
    ensures Climbing(g, device, {}, [device])
  {
    ReachSelf(g, device);
  }

  lemma ClimbingStep(g: Graph, device: string, visited: set<string>, fringe: seq<string>)
    requires Climbing(g, device, visited, fringe) && fringe != []
    ensures Climbing(g, device, visited + {fringe[0]}, Advance(g, fringe))
    ensures forall x :: x in fringe || x in Advance(g, fringe) ==> NoCycleFrom(g, x)
    ensures Weight(g, Advance(g, fringe)) < Weight(g, fringe)
  {
    AdvanceIsLighter(g, fringe);
    var x := fringe[0];
    assert fringe == [x] + fringe[1..];
    forall p | Edge(g, x, p) ensures Reach(g, device, p) {
      EdgeWalk(g, x, p);
      ReachTransitive(g, device, x, p);
    }
  }

  lemma ClimbedAll(g: Graph, device: string, visited: set<string>)
    requires Climbing(g, device, visited, [])
    ensures forall x :: x in visited <==> Reach(g, device, x)
  {
    assert ClosedUnder(g, visited);
    ClosedContainsReach(g, visited, device);
  }

  /** Hands the health of a device on to every device above it. */
  method ParentTraverse(dat: Tree, device: string)
    requires ValidTree(dat) && NoCycleFrom(Parents(dat), device)
    modifies Nodes(dat)`healthStatus
    ensures forall x :: x in dat ==>
      var now, was := dat[x].healthStatus, old(dat[x].healthStatus);
      if device in dat && Reach(Parents(dat), device, x)
      then
        && now.originOfCondition == device && now.health == was.health
        && now.healthRollup == old(dat[device].healthStatus.health)
        && now.triState == old(dat[device].healthStatus.triState)
      else now == was
  {
    hide Climbing, Weight, NoCycleFrom;
    if device !in dat {
      return;
    }
    var dev := dat[device];
    var status := Status(dev.healthStatus.health, dev.healthStatus.health, device, dev.healthStatus.triState);
    ghost var g := Parents(dat);
    ghost var visited: set<string> := {};
    ClimbingStart(g, device);
    var fringe := [device];
    while fringe != []
      invariant Parents(dat) == g && Climbing(g, device, visited, fringe)
      invariant forall x :: x in fringe ==> NoCycleFrom(g, x)
      invariant forall x :: x in dat ==>
        dat[x].healthStatus == if x in visited then RolledUp(old(dat[x].healthStatus), status)
                               else old(dat[x].healthStatus)
      decreases Weight(g, fringe)
    {
      ClimbingStep(g, device, visited, fringe);
      var deviceName := fringe[0];
      ghost var advanced := Advance(g, fringe);
      fringe := fringe[1..];
      visited := visited + {deviceName};
      if deviceName in dat {
        var node := dat[deviceName];
        assert node in Nodes(dat);
        node.healthStatus := RolledUp(node.healthStatus, status);
        if |node.parents| > 0 {
          fringe := fringe + node.parents;
        }
      }
      assert fringe == advanced;
    }
    ClimbedAll(g, device, visited);
  }

  /** With the parents filled in, the devices that hand-on reaches are those whose
      downward traversal contains the device. */
  lemma HandedOnToHolders(order: seq<string>, g: Graph, up: Graph, device: string, x: string)
    requires forall k :: k in order <==> k in g
    requires forall i, j :: 0 <= i < j < |order| ==> order[i] != order[j]
    requires up == map c | c in g :: ParentsOf(order, g, c)
    requires device in g
    ensures Reach(up, device, x) <==> Reach(g, x, device)
  {
    ParentsReverseAssociations(order, g, up);
    ReachReversed(g, up, x, device);
  }

  /** And it comes to an end exactly when no device whose downward traversal contains
      the device lies on a cycle of associations. */
  lemma HandOnEndsIff(order: seq<string>, g: Graph, up: Graph, device: string)
    requires forall k :: k in order <==> k in g
    requires forall i, j :: 0 <= i < j < |order| ==> order[i] != order[j]
    requires up == map c | c in g :: ParentsOf(order, g, c)
    requires device in g
    ensures (exists n: nat :: FringeAfter(up, [device], n) == [])
       <==> forall x :: Reach(g, x, device) ==> !OnCycle(g, x)
  {
    UpwardWalkEndsIff(up, device);
    ParentsReverseAssociations(order, g, up);
    forall x ensures Reach(g, x, device) <==> Reach(up, device, x) {
      ReachReversed(g, up, x, device);
    }
    forall x ensures OnCycle(g, x) <==> OnCycle(up, x) {
      CycleReversed(g, up, x);
    }
  }

  /** Populating the tree and then handing a health on: exactly the devices whose own
      downward traversal contains the device are updated. */
  method PopulateAndHandOn(order: seq<string>, dat: Tree, device: string)
    requires ValidTree(dat) && (forall k :: k in order <==> k in dat)
    requires forall i, j :: 0 <= i < j < |order| ==> order[i] != order[j]
    requires forall k :: k in dat ==> dat[k].parents == []
    requires forall x :: Reach(Associations(dat), x, device) ==> !OnCycle(Associations(dat), x)
    modifies Nodes(dat)
    ensures forall x :: x in dat ==>
      var now, was := dat[x].healthStatus, old(dat[x].healthStatus);
      if device in dat && Reach(Associations(dat), x, device)
      then
        && now.originOfCondition == device && now.health == was.health
        && now.healthRollup == old(dat[device].healthStatus.health)
        && now.triState == old(dat[device].healthStatus.triState)
      else now == was
  {
    hide NoCycleFrom, Reach, OnCycle, RolledUp, HandedOn, ParentsOf;
    ghost var g := Associations(dat);
    FillParents(order, dat);
    ghost var up := Parents(dat);
    assert up == map c | c in g :: ParentsOf(order, g, c);
    if device in dat {
      HoldersAreAbove(order, g, up, device);
      HandOn(dat, device, g, up);
    }
  }

  method HandOn(dat: Tree, device: string, ghost g: Graph, ghost up: Graph)
    requires ValidTree(dat) && device in dat && Parents(dat) == up && NoCycleFrom(up, device)
    requires forall x :: Reach(up, device, x) <==> Reach(g, x, device)
    modifies Nodes(dat)`healthStatus
    ensures forall x :: x in dat ==>
      var now, was := dat[x].healthStatus, old(dat[x].healthStatus);
      if Reach(g, x, device)
      then
        && now.originOfCondition == device && now.health == was.health
        && now.healthRollup == old(dat[device].healthStatus.health)
        && now.triState == old(dat[device].healthStatus.triState)
      else now == was
  {
    hide NoCycleFrom, Reach, RolledUp, HandedOn;
    ParentTraverse(dat, device);
    assert Parents(dat) == up;
  }

  lemma HoldersAreAbove(order: seq<string>, g: Graph, up: Graph, device: string)
    requires forall k :: k in order <==> k in g
    requires forall i, j :: 0 <= i < j < |order| ==> order[i] != order[j]
    requires up == map c | c in g :: ParentsOf(order, g, c)
    requires device in g && forall x :: Reach(g, x, device) ==> !OnCycle(g, x)
    ensures NoCycleFrom(up, device)
    ensures forall x :: Reach(up, device, x) <==> Reach(g, x, device)
  {
    HandOnEndsIff(order, g, up, device);
    UpwardWalkEndsIff(up, device);
    forall x ensures Reach(up, device, x) <==> Reach(g, x, device) {
      HandedOnToHolders(order, g, up, device, x);
    }
  }

  /** Two devices associated with each other. */
  const MUTUAL: Graph := map["GPU0" := ["GPU1"], "GPU1" := ["GPU0"]]

  /** The upward walk from either never ends. */
  lemma MutualAssociationClimbsForever(device: string, n: nat)
    requires device in MUTUAL
    ensures FringeAfter(map c | c in MUTUAL :: ParentsOf(["GPU0", "GPU1"], MUTUAL, c), [device], n) != []
  {
    hide FringeAfter, ParentsOf;
    var order := ["GPU0", "GPU1"];
    var up := map c | c in MUTUAL :: ParentsOf(order, MUTUAL, c);
    EdgeWalk(MUTUAL, "GPU0", "GPU1");
    EdgeWalk(MUTUAL, "GPU1", "GPU0");
    ReachSelf(MUTUAL, device);
    assert OnCycle(MUTUAL, device) by {
      var other := MUTUAL[device][0];
      assert Edge(MUTUAL, device, other) && Reach(MUTUAL, other, device);
    }
    HandOnEndsIff(order, MUTUAL, up, device);
  }
}
