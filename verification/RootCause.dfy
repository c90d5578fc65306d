/** Breadth-first search over DEVICE testpoints (src/dat_traverse.cpp) and the
    root-cause search that reads a self-test report in the reverse of its order
    (src/selftest.cpp). */
module RootCause {
  import opened PropertyValues
  import opened Graphs
  import opened DeviceTree
  import opened SelfTests
  import opened SelftestReport

  const DATA_DUMP := "data_dump"

  // -------------------------------------------------------------- associations

  function Dedup(xs: seq<string>): seq<string> {
    if xs == [] then []
    else
      var d, x := Dedup(xs[..|xs| - 1]), xs[|xs| - 1];
      if x in d then d else d + [x]
  }

  predicate NoDuplicates(xs: seq<string>) {
    forall i, j :: 0 <= i < j < |xs| ==> xs[i] != xs[j]
  }

  lemma {:induction false} DedupMeaning(xs: seq<string>)
    ensures NoDuplicates(Dedup(xs))
    ensures forall x :: x in Dedup(xs) <==> x in xs
  {
    if xs != [] {
      DedupMeaning(xs[..|xs| - 1]);
      assert xs == xs[..|xs| - 1] + [xs[|xs| - 1]];
    }
  }

  /** Where something is first mentioned. */
  function FirstMention(xs: seq<string>, x: string): (i: nat)
    ensures i <= |xs| && (i < |xs| ==> xs[i] == x) && forall k :: 0 <= k < i ==> xs[k] != x
  {
    if xs == [] || xs[0] == x then 0 else 1 + FirstMention(xs[1..], x)
  }

  /** Duplicates are dropped in favour of the first mention. */
  lemma {:induction false} DedupKeepsOrder(xs: seq<string>)
    ensures forall i, j :: 0 <= i < j < |Dedup(xs)| ==> FirstMention(xs, Dedup(xs)[i]) < FirstMention(xs, Dedup(xs)[j])
  {
    if xs != [] {
      var front := xs[..|xs| - 1];
      DedupKeepsOrder(front);
      DedupMeaning(front);
      forall x | x in front ensures FirstMention(xs, x) == FirstMention(front, x) < |front| {
        MentionedBefore(front, xs, x);
      }
      forall x | x !in front ensures FirstMention(xs, x) >= |front| {
        NotMentionedBefore(front, xs, x);
      }
      assert forall i :: 0 <= i < |Dedup(front)| ==> Dedup(front)[i] in Dedup(front);
    }
  }

  lemma MentionedBefore(front: seq<string>, xs: seq<string>, x: string)
    requires front <= xs && x in front
    ensures FirstMention(xs, x) == FirstMention(front, x) < |front|
  {
    var k :| 0 <= k < |front| && front[k] == x;
    var i, j := FirstMention(xs, x), FirstMention(front, x);
    assert xs[k] == x && (j < |front| ==> xs[j] == x);
    assert i <= k && j <= k;
  }

  lemma NotMentionedBefore(front: seq<string>, xs: seq<string>, x: string)
    requires front <= xs
    ensures FirstMention(xs, x) < |front| ==> x in front
  {
    var i := FirstMention(xs, x);
    assert i < |front| ==> front[i] == xs[i];
  }

  /** The devices that the chosen layers of a device name, each once, in the order
      in which they are first named. */
  method GetTestLayerAssociations(dev: Device, keep: LayerChoice) returns (result: seq<string>)
    ensures result == Dedup(Targets(Flat(dev.test, keep)))
  {
    hide Flat, Targets, Dedup;
    result := [];
    ghost var seen: seq<string> := [];
    assert seen == Targets(Flat(dev.test[..0], keep)) && result == Dedup(seen) by { NothingSeen(dev, keep); }
    for i := 0 to |dev.test|
      invariant seen == Targets(Flat(dev.test[..i], keep)) && result == Dedup(seen)
    {
      FlatStep(dev.test, keep, i);
      if keep.Has(dev.test[i].name) {
        var deviceTestpoints := Targets(dev.test[i].testPoints);
        TargetsConcat(Flat(dev.test[..i], keep), dev.test[i].testPoints);
        ghost var start := seen;
        for j := 0 to |deviceTestpoints|
          invariant seen == start + deviceTestpoints[..j] && result == Dedup(seen)
        {
          var elem := deviceTestpoints[j];
          DedupStep(seen, elem);
          if elem !in result {
            result := result + [elem];
          }
          seen := seen + [elem];
        }
      } else {
        assert Flat(dev.test[..i], keep) + [] == Flat(dev.test[..i], keep);
      }
    }
    assert dev.test[..|dev.test|] == dev.test;
  }

  lemma NothingSeen(dev: Device, keep: LayerChoice)
    ensures Targets(Flat(dev.test[..0], keep)) == [] && Dedup([]) == []
  {
  }

  lemma DedupStep(xs: seq<string>, x: string)
    ensures Dedup(xs + [x]) == if x in Dedup(xs) then Dedup(xs) else Dedup(xs) + [x]
  {
    assert (xs + [x])[..|xs|] == xs;
  }

  lemma {:induction false} TargetsConcat(a: seq<TestPoint>, b: seq<TestPoint>)
    ensures Targets(a + b) == Targets(a) + Targets(b)
  {
    if a == [] {
      assert a + b == b;
    } else {
      assert (a + b)[1..] == a[1..] + b;
      TargetsConcat(a[1..], b);
    }
  }

  // ------------------------------------------------------- breadth-first order

  /** The edges the search follows: the root's are limited to the layers of the
      event, those of every other device are not. */
  function SearchGraph(dat: Dat, root: string, keep: LayerChoice): Graph {
    map k | k in dat :: Targets(Flat(dat[k].test, if k == root then keep else AllLayers))
  }

  /** The root's layers are those among the categories of the event, or all if it has
      none; every other device's layers are all followed. */
  lemma SearchEdgeMeans(dat: Dat, root: string, categories: seq<string>, a: string, v: string)
    ensures Edge(SearchGraph(dat, root, EventLayers(categories)), a, v) <==>
      a in dat && exists l, tp :: l in dat[a].test && tp in l.testPoints && tp.accessor == DeviceAccessor(v)
                            && (a != root || categories == [] || l.name in categories)
  {
    if a in dat {
      var keep := if a == root then EventLayers(categories) else AllLayers;
      var tps := Flat(dat[a].test, keep);
      assert forall l: TestLayer :: keep.Has(l.name) <==> a != root || categories == [] || l.name in categories;
      TargetsMembers(tps);
      forall tp ensures tp in tps <==> exists l :: l in dat[a].test && keep.Has(l.name) && tp in l.testPoints {
        FlatMembers(dat[a].test, keep, tp);
      }
      hide Flat, Targets, EventLayers;
    }
  }

  function EventLayers(categories: seq<string>): LayerChoice {
    if categories == [] then AllLayers else Only(categories)
  }

  /** `order` lists what is reachable from `root`, once each, nearest first. */
  ghost predicate BreadthFirst(g: Graph, root: string, order: seq<string>) {
    && order != [] && order[0] == root
    && NoDuplicates(order)
    && (forall v :: v in order <==> Reach(g, root, v))
    && forall i, j :: 0 <= i < j < |order| ==> Dist(g, root, order[i]) <= Dist(g, root, order[j])
  }

  /** First come, first served: a device is found from the first device in the order that
      names it, and of those found from one device the one first named comes first. */
  ghost predicate FoundFrom(g: Graph, order: seq<string>, from: seq<nat>) {
    && |from| == |order|
    && (forall i :: 0 < i < |order| ==> from[i] < i && Edge(g, order[from[i]], order[i]))
    && (forall i, q :: 0 < i < |order| && 0 <= q < from[i] ==> !Edge(g, order[q], order[i]))
    && (forall i, j :: 0 < i < j < |order| ==> from[i] <= from[j])
    && (forall i, j :: 0 < i < j < |order| && from[i] == from[j] ==>
          MentionedFirst(g, order[from[i]], order[i], order[j]))
  }

  ghost predicate MentionedFirst(g: Graph, name: string, x: string, y: string) {
    name in g && FirstMention(g[name], x) < FirstMention(g[name], y)
  }

  ghost predicate QueueOrder(g: Graph, order: seq<string>) {
    exists from :: FoundFrom(g, order, from)
  }

  /** There is only one such order of the devices reached. */
  lemma {:induction false} QueueOrderUnique(g: Graph, root: string, a: seq<string>, b: seq<string>, n: nat)
    requires BreadthFirst(g, root, a) && BreadthFirst(g, root, b) && QueueOrder(g, a) && QueueOrder(g, b)
    requires n <= |a| == |b|
    ensures a[..n] == b[..n]
    decreases n
  {
    hide BreadthFirst, QueueOrder;
    FirstIsRoot(g, root, a);
    FirstIsRoot(g, root, b);
    if n > 1 {
      QueueOrderUnique(g, root, a, b, n - 1);
      NextIsSame(g, root, a, b, n - 1);
      assert a[..n] == a[..n - 1] + [a[n - 1]] && b[..n] == b[..n - 1] + [b[n - 1]];
    }
  }

  lemma FirstIsRoot(g: Graph, root: string, a: seq<string>)
    requires BreadthFirst(g, root, a)
    ensures |a| > 0 && a[..1] == [root]
  {
  }

  lemma NextIsSame(g: Graph, root: string, a: seq<string>, b: seq<string>, n: nat)
    requires BreadthFirst(g, root, a) && BreadthFirst(g, root, b) && QueueOrder(g, a) && QueueOrder(g, b)
    requires 0 < n < |a| == |b| && a[..n] == b[..n]
    ensures a[n] == b[n]
  {
    hide BreadthFirst, FoundFrom, MentionedFirst, Edge;
    var fa :| FoundFrom(g, a, fa);
    var fb :| FoundFrom(g, b, fb);
    SameMembers(g, root, a, b);
    var j := PlaceOf(a, b, n);
    var i := PlaceOf(b, a, n);
    SameDiscoverer(g, a, fa, b, fb, n, j);
    SameDiscoverer(g, b, fb, a, fa, n, i);
    NotBothLater(g, a, fa, b, fb, n, i, j);
  }

  lemma SameMembers(g: Graph, root: string, a: seq<string>, b: seq<string>)
    requires BreadthFirst(g, root, a) && BreadthFirst(g, root, b)
    ensures NoDuplicates(a) && NoDuplicates(b) && forall v :: v in a <==> v in b
  {
  }

  lemma NotBothLater(g: Graph, a: seq<string>, fa: seq<nat>, b: seq<string>, fb: seq<nat>, n: nat, i: nat, j: nat)
    requires FoundFrom(g, a, fa) && FoundFrom(g, b, fb) && 0 < n <= i < |a| && n <= j < |b|
    requires a[i] == b[n] && b[j] == a[n] && fb[j] == fa[n] && fa[i] == fb[n] && b[fb[j]] == a[fa[n]]
    ensures i == n || j == n
  {
    NotBothFirst(g, a[fa[n]], a[n], b[n]);
    hide Edge, MentionedFirst;
  }

  lemma NotBothFirst(g: Graph, name: string, x: string, y: string)
    ensures !(MentionedFirst(g, name, x, y) && MentionedFirst(g, name, y, x))
  {
  }

  lemma PlaceOf(a: seq<string>, b: seq<string>, n: nat) returns (j: nat)
    requires NoDuplicates(a) && n < |a| && n <= |b| && a[..n] == b[..n] && forall v :: v in a ==> v in b
    ensures n <= j < |b| && b[j] == a[n]
  {
    assert a[n] in a;
    forall q | 0 <= q < n ensures a[q] == b[q] {
      assert a[..n][q] == b[..n][q];
    }
    j :| 0 <= j < |b| && b[j] == a[n];
  }

  lemma SameDiscoverer(g: Graph, a: seq<string>, fa: seq<nat>, b: seq<string>, fb: seq<nat>, n: nat, j: nat)
    requires FoundFrom(g, a, fa) && FoundFrom(g, b, fb)
    requires 0 < n < |a| && n <= j < |b| && a[..n] == b[..n] && a[n] == b[j]
    ensures fb[j] == fa[n] && b[fb[j]] == a[fa[n]]
  {
    hide Edge, MentionedFirst;
    assert a[fa[n]] == a[..n][fa[n]] == b[..n][fa[n]] == b[fa[n]];
    assert fb[j] <= fa[n];
    assert a[fb[j]] == a[..n][fb[j]] == b[..n][fb[j]] == b[fb[j]];
  }

  /** `level` gives every device found so far the length of a walk to it, no device
      is found before a nearer one, and the first `head` have been expanded. */
  ghost predicate Levels(g: Graph, root: string, found: seq<string>, level: map<string, nat>, head: nat) {
    && found != [] && found[0] == root && head <= |found| && NoDuplicates(found)
    && (forall x :: x in level <==> x in found)
    && level[root] == 0
    && (forall x :: x in found ==> x in g && ReachIn(g, root, x, level[x]))
    && Ascending(found, level)
    && Expanded(g, found, level, head)
    && (head < |found| ==> forall x :: x in found ==> level[x] <= level[found[head]] + 1)
  }

  ghost predicate Ascending(found: seq<string>, level: map<string, nat>) {
    && (forall x :: x in found ==> x in level)
    && forall i, j :: 0 <= i < j < |found| ==> level[found[i]] <= level[found[j]]
  }

  ghost predicate Expanded(g: Graph, found: seq<string>, level: map<string, nat>, head: nat)
    requires head <= |found|
  {
    && (forall x :: x in found ==> x in level)
    && forall i, v :: 0 <= i < head && Edge(g, found[i], v) ==> v in found && level[v] <= level[found[i]] + 1
  }

  lemma {:induction false} LevelBelowWalk(g: Graph, root: string, found: seq<string>, level: map<string, nat>,
                                          v: string, n: nat)
    requires Levels(g, root, found, level, |found|) && ReachIn(g, root, v, n)
    ensures v in found && level[v] <= n
    decreases n
  {
    if n > 0 {
      var m :| ReachIn(g, root, m, n - 1) && Edge(g, m, v);
      LevelBelowWalk(g, root, found, level, m, n - 1);
      var i :| 0 <= i < |found| && found[i] == m;
    }
  }

  lemma LevelsGiveOrder(g: Graph, root: string, found: seq<string>, level: map<string, nat>)
    requires Levels(g, root, found, level, |found|)
    ensures BreadthFirst(g, root, found)
  {
    forall v | Reach(g, root, v) ensures v in found && level[v] == Dist(g, root, v) {
      LevelBelowWalk(g, root, found, level, v, Dist(g, root, v));
    }
    forall v | v in found ensures Reach(g, root, v) {}
    forall i, j | 0 <= i < j < |found| ensures Dist(g, root, found[i]) <= Dist(g, root, found[j]) {
      assert found[i] in found && found[j] in found;
    }
  }

  lemma LevelsStart(dat: Dat, root: string, keep: LayerChoice)
    requires root in dat
    ensures Levels(SearchGraph(dat, root, keep), root, [root], map[root := 0], 0)
  {
  }

  /** The device about to be expanded, and whose layers are then looked at. */
  lemma HeadIsKnown(dat: Dat, root: string, keep: LayerChoice, found: seq<string>, level: map<string, nat>, head: nat)
    requires Levels(SearchGraph(dat, root, keep), root, found, level, head) && head < |found|
    ensures found[head] in dat && found[head] in level
    ensures Reach(SearchGraph(dat, root, keep), root, found[head])
    ensures (found[head] == root) <==> head == 0
    ensures forall x :: x in level <==> x in found
  {
    assert found[head] in found;
  }

  /** Every device named so far by the device under expansion is known, at most one
      step farther. */
  ghost predicate Near(level: map<string, nat>, name: string, vs: seq<string>) {
    name in level && forall v :: v in vs ==> v in level && level[v] <= level[name] + 1
  }

  /** A device named by the device under expansion is known already. */
  lemma LevelsKnown(g: Graph, root: string, found: seq<string>, level: map<string, nat>, head: nat,
                    vs: seq<string>, v: string)
    requires Levels(g, root, found, level, head) && head < |found|
    requires v in found && Near(level, found[head], vs)
    ensures Near(level, found[head], vs + [v])
  {
  }

  /** Or it is entered, one step farther. */
  lemma LevelsAdd(g: Graph, root: string, found: seq<string>, level: map<string, nat>, head: nat,
                  vs: seq<string>, v: string)
    requires Levels(g, root, found, level, head) && head < |found| && found[head] in level
    requires Edge(g, found[head], v) && v !in found && v in g && Near(level, found[head], vs)
    ensures Levels(g, root, found + [v], level[v := level[found[head]] + 1], head)
    ensures Near(level[v := level[found[head]] + 1], found[head], vs + [v])
  {
    hide Ascending, Expanded;
    var level', far := level[v := level[found[head]] + 1], level[found[head]] + 1;
    assert ReachIn(g, root, v, far);
    assert forall x :: x in found ==> x != v && level'[x] == level[x] && level[x] <= far;
    assert forall x :: x in found + [v] <==> x in found || x == v;
    AscendingAdd(found, level, v, far);
    ExpandedAdd(g, found, level, head, v, far);
    assert found[head] in found && (found + [v])[head] == found[head];
  }

  lemma AscendingAdd(found: seq<string>, level: map<string, nat>, v: string, far: nat)
    requires Ascending(found, level) && v !in found && forall x :: x in found ==> level[x] <= far
    ensures Ascending(found + [v], level[v := far])
  {
    var found', level' := found + [v], level[v := far];
    forall i, j | 0 <= i < j < |found'| ensures level'[found'[i]] <= level'[found'[j]] {
      assert found'[i] == found[i] && found[i] in found;
      assert j < |found| ==> found'[j] == found[j] && found[j] in found;
    }
  }

  lemma ExpandedAdd(g: Graph, found: seq<string>, level: map<string, nat>, head: nat, v: string, far: nat)
    requires head < |found| && Expanded(g, found, level, head) && v !in found
    ensures Expanded(g, found + [v], level[v := far], head)
  {
    var found', level' := found + [v], level[v := far];
    forall i, w | 0 <= i < head && Edge(g, found'[i], w) ensures w in found' && level'[w] <= level'[found'[i]] + 1 {
      assert found'[i] == found[i] && found[i] in found;
    }
  }

  lemma LevelsNext(g: Graph, root: string, found: seq<string>, level: map<string, nat>, head: nat, vs: seq<string>)
    requires Levels(g, root, found, level, head) && head < |found|
    requires Near(level, found[head], vs) && forall v :: Edge(g, found[head], v) ==> v in vs
    ensures Levels(g, root, found, level, head + 1)
  {
  }

  lemma AssociationsAreEdges(dat: Dat, root: string, keep: LayerChoice, name: string)
    requires name in dat
    ensures var vs := Dedup(Targets(Flat(dat[name].test, if name == root then keep else AllLayers)));
      forall v :: v in vs <==> Edge(SearchGraph(dat, root, keep), name, v)
  {
    DedupMeaning(Targets(Flat(dat[name].test, if name == root then keep else AllLayers)));
  }

  method GetTestLayerSubAssociations(dat: Dat, rootDevice: string, categories: seq<string>)
    returns (r: Result<seq<string>>)
    ensures r.Throws? <==>
      || rootDevice !in dat
      || exists v :: Reach(SearchGraph(dat, rootDevice, EventLayers(categories)), rootDevice, v) && v !in dat
    ensures r.Ok? ==> BreadthFirst(SearchGraph(dat, rootDevice, EventLayers(categories)), rootDevice, r.value)
    ensures r.Ok? ==> QueueOrder(SearchGraph(dat, rootDevice, EventLayers(categories)), r.value)
  {
    hide Levels, Near, Edge, SearchGraph, Dedup, Flat, Targets, BreadthFirst, EventLayers, ReachIn;
    hide FoundFrom, FoundHere;
    if rootDevice !in dat {
      return Throws;
    }
    ghost var keep := EventLayers(categories);
    ghost var g := SearchGraph(dat, rootDevice, keep);
    LevelsStart(dat, rootDevice, keep);
    var fringe := [rootDevice];
    var result := [rootDevice];
    var layersChooser := EventLayers(categories);
    ghost var head := 0;
    ghost var level: map<string, nat> := map[rootDevice := 0];
    ghost var from: seq<nat> := [0];
    RootFound(g, rootDevice);
    while fringe != []
      invariant Levels(g, rootDevice, result, level, head)
      invariant head <= |result| && fringe == result[head..]
      invariant layersChooser == if head == 0 then keep else AllLayers
      invariant FoundFrom(g, result, from) && |from| == |result|
      invariant forall i :: 0 < i < |from| ==> from[i] < head
      decreases dat.Keys - set x | x in result, |fringe|
    {
      var name := fringe[0];
      HeadIsKnown(dat, rootDevice, keep, result, level, head);
      AssociationsAreEdges(dat, rootDevice, keep, name);
      fringe := fringe[1..];
      var layerAssociations := GetTestLayerAssociations(dat[name], layersChooser);
      NearNothing(level, name, layerAssociations[..0]);
      ghost var before := result;
      AssociationsInOrder(dat, rootDevice, keep, name);
      NothingFoundHere(result, from, head);
      for i := 0 to |layerAssociations|
        invariant Levels(g, rootDevice, result, level, head) && head < |result| && result[head] == name
        invariant name in level && fringe == result[head + 1..]
        invariant Near(level, name, layerAssociations[..i])
        invariant before <= result
        invariant |before| < |result| ==> result[|before|] in dat && result[|before|] !in before
        invariant FoundFrom(g, result, from) && FoundHere(result, from, head, layerAssociations, i)
        invariant |from| == |result|
      {
        var elem := layerAssociations[i];
        assert elem in layerAssociations && layerAssociations[..i + 1] == layerAssociations[..i] + [elem];
        if elem !in result {
          if elem !in dat {
            EdgeReached(g, rootDevice, name, elem);
            return Throws;
          }
          InGraph(dat, rootDevice, keep, elem);
          FoundNext(g, rootDevice, result, level, from, head, layerAssociations, i);
          from := from + [head];
          LevelsAdd(g, rootDevice, result, level, head, layerAssociations[..i], elem);
          fringe := fringe + [elem];
          level := level[elem := level[name] + 1];
          result := result + [elem];
        } else {
          FoundAlready(result, from, head, layerAssociations, i);
          LevelsKnown(g, rootDevice, result, level, head, layerAssociations[..i], elem);
        }
      }
      assert layerAssociations[..|layerAssociations|] == layerAssociations;
      LevelsNext(g, rootDevice, result, level, head, layerAssociations);
      LongerIsLess(dat.Keys, before, result);
      FoundBelow(result, from, head, layerAssociations, |layerAssociations|);
      head := head + 1;
      layersChooser := AllLayers;
    }
    LevelsGiveOrder(g, rootDevice, result, level);
    AllInTree(dat, rootDevice, keep, result, level);
    assert QueueOrder(g, result);
    return Ok(result);
  }

  /** What has been found from the device under expansion so far stands among the first
      `n` of the devices it names. */
  ghost predicate FoundHere(found: seq<string>, from: seq<nat>, head: nat, vs: seq<string>, n: nat) {
    && |from| == |found| && n <= |vs|
    && forall i :: 0 < i < |found| ==> from[i] < head || (from[i] == head && found[i] in vs[..n])
  }

  lemma RootFound(g: Graph, root: string)
    ensures FoundFrom(g, [root], [0])
  {
  }

  lemma NothingFoundHere(found: seq<string>, from: seq<nat>, head: nat)
    requires |from| == |found| && forall i :: 0 < i < |from| ==> from[i] < head
    ensures forall vs :: FoundHere(found, from, head, vs, 0)
  {
  }

  lemma FoundAlready(found: seq<string>, from: seq<nat>, head: nat, vs: seq<string>, n: nat)
    requires FoundHere(found, from, head, vs, n) && n < |vs|
    ensures FoundHere(found, from, head, vs, n + 1)
  {
  }

  lemma FoundBelow(found: seq<string>, from: seq<nat>, head: nat, vs: seq<string>, n: nat)
    requires FoundHere(found, from, head, vs, n)
    ensures forall i :: 0 < i < |from| ==> from[i] < head + 1
  {
  }

  /** The devices named, in the order in which they are first named. */
  ghost predicate NamedInOrder(g: Graph, name: string, vs: seq<string>) {
    && (forall v :: v in vs ==> Edge(g, name, v))
    && forall i, j :: 0 <= i < j < |vs| ==> MentionedFirst(g, name, vs[i], vs[j])
  }

  lemma AssociationsInOrder(dat: Dat, root: string, keep: LayerChoice, name: string)
    requires name in dat
    ensures NamedInOrder(SearchGraph(dat, root, keep), name,
                         Dedup(Targets(Flat(dat[name].test, if name == root then keep else AllLayers))))
  {
    var xs := Targets(Flat(dat[name].test, if name == root then keep else AllLayers));
    DedupMeaning(xs);
    DedupKeepsOrder(xs);
  }

  lemma FoundNext(g: Graph, root: string, found: seq<string>, level: map<string, nat>, from: seq<nat>, head: nat,
                  vs: seq<string>, n: nat)
    requires Levels(g, root, found, level, head) && head < |found| && n < |vs|
    requires FoundFrom(g, found, from) && FoundHere(found, from, head, vs, n)
    requires NamedInOrder(g, found[head], vs) && vs[n] !in found
    ensures FoundFrom(g, found + [vs[n]], from + [head])
    ensures FoundHere(found + [vs[n]], from + [head], head, vs, n + 1)
  {
    hide Levels, MentionedFirst, Reach, ReachIn;
    var v := vs[n];
    forall q | 0 <= q < head ensures !Edge(g, found[q], v) {
      NotNamedBefore(g, root, found, level, head, q, v);
    }
    forall i | 0 < i < |found| && from[i] == head ensures MentionedFirst(g, found[head], found[i], v) {
      var k :| 0 <= k < n && vs[..n][k] == found[i];
    }
    assert vs[..n + 1] == vs[..n] + [v];
    hide NamedInOrder;
    assert Edge(g, found[head], v) by { NamedEdge(g, found[head], vs, n); }
    hide Edge;
    FoundAdd(g, found, from, head, v);
  }

  lemma NamedEdge(g: Graph, name: string, vs: seq<string>, n: nat)
    requires NamedInOrder(g, name, vs) && n < |vs|
    ensures Edge(g, name, vs[n])
  {
  }

  lemma FoundAdd(g: Graph, found: seq<string>, from: seq<nat>, head: nat, v: string)
    requires FoundFrom(g, found, from) && head < |found| && Edge(g, found[head], v)
    requires forall q :: 0 <= q < head ==> !Edge(g, found[q], v)
    requires forall i :: 0 < i < |found| ==> from[i] <= head
    requires forall i :: 0 < i < |found| && from[i] == head ==> MentionedFirst(g, found[head], found[i], v)
    ensures FoundFrom(g, found + [v], from + [head])
  {
    hide Edge, MentionedFirst;
    var found', from' := found + [v], from + [head];
    var m := |found|;
    forall i | 0 < i < |found'|
      ensures from'[i] < i && Edge(g, found'[from'[i]], found'[i])
      ensures from'[i] <= head
    {
      assert i < m ==> found'[i] == found[i] && from'[i] == from[i];
    }
    forall i, q | 0 < i < |found'| && 0 <= q < from'[i] ensures !Edge(g, found'[q], found'[i]) {
      assert i < m ==> found'[i] == found[i] && from'[i] == from[i];
      assert found'[q] == found[q];
    }
    forall i, j | 0 < i < j < |found'|
      ensures from'[i] <= from'[j]
      ensures from'[i] == from'[j] ==> MentionedFirst(g, found'[from'[i]], found'[i], found'[j])
    {
      assert found'[i] == found[i] && from'[i] == from[i];
      assert j < m ==> found'[j] == found[j] && from'[j] == from[j];
    }
  }

  lemma NotNamedBefore(g: Graph, root: string, found: seq<string>, level: map<string, nat>, head: nat, q: nat,
                       v: string)
    requires Levels(g, root, found, level, head) && q < head && v !in found
    ensures !Edge(g, found[q], v)
  {
  }

  lemma LongerIsLess(all: set<string>, short: seq<string>, long: seq<string>)
    requires short <= long
    requires |short| < |long| ==> long[|short|] in all && long[|short|] !in short
    ensures |short| < |long| ==> (all - set x | x in long) < (all - set x | x in short)
  {
    if |short| < |long| {
      assert long[|short|] in all - set x | x in short;
      assert long[|short|] !in all - set x | x in long;
    }
  }

  lemma NearNothing(level: map<string, nat>, name: string, vs: seq<string>)
    requires name in level && vs == []
    ensures Near(level, name, vs)
  {
  }

  lemma EdgeReached(g: Graph, root: string, name: string, v: string)
    requires Reach(g, root, name) && Edge(g, name, v)
    ensures Reach(g, root, v)
  {
    EdgeWalk(g, name, v);
    ReachTransitive(g, root, name, v);
  }

  lemma InGraph(dat: Dat, root: string, keep: LayerChoice, v: string)
    requires v in dat
    ensures v in SearchGraph(dat, root, keep)
  {
  }

  lemma AllInTree(dat: Dat, root: string, keep: LayerChoice, found: seq<string>, level: map<string, nat>)
    requires Levels(SearchGraph(dat, root, keep), root, found, level, |found|)
    ensures forall v :: Reach(SearchGraph(dat, root, keep), root, v) ==> v in dat
  {
    LevelsGiveOrder(SearchGraph(dat, root, keep), root, found, level);
  }

  // ---------------------------------------------------------- root-cause search

  /** Reading the report against `order` from its end: the first failing device is
      the root cause, a device without an entry ends the search by an exception,
      and the trigger is blamed when every device passes. */
  ghost predicate SearchResult(order: seq<string>, report: Report, trigger: string, r: Result<string>) {
    match r
    case Throws => exists i :: 0 <= i < |order| && order[i] !in report && PassingAfter(order, report, i)
    case Ok(d) =>
      || (exists i :: 0 <= i < |order| && order[i] == d && d in report && !EvaluateDevice(report[d])
           && PassingAfter(order, report, i))
      || (PassingAfter(order, report, -1) && d == trigger)
  }

  ghost predicate PassingAfter(order: seq<string>, report: Report, i: int) {
    forall j :: i < j < |order| && 0 <= j ==> order[j] in report && EvaluateDevice(report[order[j]])
  }

  /** The search has one result only, ties in distance included. */
  lemma SearchIsDetermined(g: Graph, report: Report, root: string, a: seq<string>, ra: Result<string>,
                           b: seq<string>, rb: Result<string>)
    requires BreadthFirst(g, root, a) && QueueOrder(g, a) && SearchResult(a, report, root, ra)
    requires BreadthFirst(g, root, b) && QueueOrder(g, b) && SearchResult(b, report, root, rb)
    ensures a == b && ra == rb
  {
    SameLength(g, root, a, b);
    QueueOrderUnique(g, root, a, b, |a|);
    assert a[..|a|] == a && b[..|a|] == b;
    ScanIsDetermined(a, report, root, ra, rb);
  }

  lemma SameLength(g: Graph, root: string, a: seq<string>, b: seq<string>)
    requires BreadthFirst(g, root, a) && BreadthFirst(g, root, b)
    ensures |a| == |b|
  {
    SameMembers(g, root, a, b);
    DistinctSize(a);
    DistinctSize(b);
    assert (set v | v in a) == (set v | v in b);
  }

  lemma {:induction false} DistinctSize(a: seq<string>)
    requires NoDuplicates(a)
    ensures |set v | v in a| == |a|
  {
    if a != [] {
      var n := |a| - 1;
      DistinctSize(a[..n]);
      assert a == a[..n] + [a[n]];
      assert (set v | v in a) == (set v | v in a[..n]) + {a[n]};
    }
  }

  lemma ScanIsDetermined(order: seq<string>, report: Report, root: string, ra: Result<string>, rb: Result<string>)
    requires SearchResult(order, report, root, ra) && SearchResult(order, report, root, rb)
    ensures ra == rb
  {
  }

  /** Whatever is strictly farther from the root than `d` passes. */
  ghost predicate AllPassBeyond(g: Graph, report: Report, root: string, d: string) {
    forall v :: Reach(g, root, v) && Reach(g, root, d) && Dist(g, root, v) > Dist(g, root, d)
      ==> v in report && EvaluateDevice(report[v])
  }

  /** The search result in terms of distances alone. */
  ghost predicate FarthestFailing(g: Graph, report: Report, root: string, r: Result<string>) {
    match r
    case Throws => exists v :: Reach(g, root, v) && v !in report && AllPassBeyond(g, report, root, v)
    case Ok(d) =>
      Reach(g, root, d) &&
      if d in report && !EvaluateDevice(report[d]) then AllPassBeyond(g, report, root, d)
      else d == root && forall v :: Reach(g, root, v) ==> v in report && EvaluateDevice(report[v])
  }

  lemma SearchFindsFarthest(g: Graph, order: seq<string>, report: Report, root: string, r: Result<string>)
    requires BreadthFirst(g, root, order) && SearchResult(order, report, root, r)
    ensures FarthestFailing(g, report, root, r)
  {
    ReachSelf(g, root);
    if PassingAfter(order, report, -1) && r == Ok(root) {
      forall v | Reach(g, root, v) ensures v in report && EvaluateDevice(report[v]) {
        var j :| 0 <= j < |order| && order[j] == v;
      }
    } else {
      var i :| 0 <= i < |order| && PassingAfter(order, report, i)
        && (order[i] !in report || !EvaluateDevice(report[order[i]])) && (r.Ok? ==> r.value == order[i])
        && (r.Throws? ==> order[i] !in report) && (r.Ok? ==> order[i] in report);
      forall v | Reach(g, root, v) && Dist(g, root, v) > Dist(g, root, order[i])
        ensures v in report && EvaluateDevice(report[v])
      {
        var j :| 0 <= j < |order| && order[j] == v;
        assert i < j;
      }
      assert AllPassBeyond(g, report, root, order[i]);
    }
  }

  method FindRootCauseGeneral(dat: Dat, triggeringDevice: string, report: Report, categories: seq<string>)
    returns (r: Result<string>, ghost order: seq<string>)
    ensures var g := SearchGraph(dat, triggeringDevice, EventLayers(categories));
      if triggeringDevice in dat && forall v :: Reach(g, triggeringDevice, v) ==> v in dat
      then BreadthFirst(g, triggeringDevice, order) && SearchResult(order, report, triggeringDevice, r)
        && FarthestFailing(g, report, triggeringDevice, r) && QueueOrder(g, order)
      else r.Throws?
  {
    hide BreadthFirst, QueueOrder, FarthestFailing, SearchGraph, EventLayers;
    ghost var g := SearchGraph(dat, triggeringDevice, EventLayers(categories));
    order := [];
    var childVec := GetTestLayerSubAssociations(dat, triggeringDevice, categories);
    if childVec.Throws? {
      return Throws, [];
    }
    order := childVec.value;
    var it := |childVec.value|;
    while it > 0
      invariant 0 <= it <= |order| && PassingAfter(order, report, it - 1)
    {
      it := it - 1;
      if childVec.value[it] !in report {
        SearchFindsFarthest(g, order, report, triggeringDevice, Throws);
        return Throws, order;
      }
      if !EvaluateDevice(report[childVec.value[it]]) {
        SearchFindsFarthest(g, order, report, triggeringDevice, Ok(childVec.value[it]));
        return Ok(childVec.value[it]), order;
      }
    }
    SearchFindsFarthest(g, order, report, triggeringDevice, Ok(triggeringDevice));
    return Ok(triggeringDevice), order;
  }

  datatype Trace = Refused | Traced(originOfCondition: string) | Crashed

  /** The report that the search reads: looking up the event's device inserts an
      empty entry when its test was skipped. */
  ghost predicate TraceReport(s: Setup, root: string, report: Report) {
    root in s.dat && root in report &&
    if s.ShouldSkip(s.dat[root]) then report == map[root := NOTHING_TESTED]
    else s.Outcome(map[], root, report)
  }

  class RootCauseTracer {
    const dat: Dat
    const read: Oracle

    constructor (dat: Dat, read: Oracle)
      ensures this.dat == dat && this.read == read
    {
      this.dat := dat;
      this.read := read;
    }

    ghost function Run(): Setup {
      Setup(dat, ["data_dump"], read)
    }

    /** Tests the device of an event without its data dump and looks for the origin
        of its condition. */
    method Process(problemDevice: string, categories: seq<string>, fixedOrigin: Option<string>)
      returns (r: Trace, ghost report: Report, ghost order: seq<string>)
      requires ValidDat(dat)
      ensures r.Refused? <==>
        || problemDevice == "" || problemDevice !in dat
        || (!Run().ShouldSkip(dat[problemDevice]) && Run().Dangling(dat[problemDevice]))
      ensures !r.Refused? ==> TraceReport(Run(), problemDevice, report)
      ensures !r.Refused? && fixedOrigin.Some? ==> r == Traced(fixedOrigin.value)
      ensures !r.Refused? && fixedOrigin.None? ==>
        var g := SearchGraph(dat, problemDevice, EventLayers(categories));
        if forall v :: Reach(g, problemDevice, v) ==> v in dat
        then BreadthFirst(g, problemDevice, order) && QueueOrder(g, order) &&
             SearchResult(order, report, problemDevice, if r.Traced? then Ok(r.originOfCondition) else Throws)
        else r.Crashed?
    {
      hide Setup.Outcome, BreadthFirst, QueueOrder, SearchResult, SearchGraph, EventLayers;
      report, order := map[], [];
      if problemDevice == "" || problemDevice !in dat {
        return Refused, report, order;
      }
      var selftester := new Selftest(dat, read);
      var completeReportRes := new ReportResult();
      var rc := selftester.Perform(dat[problemDevice], completeReportRes, [DATA_DUMP]);
      assert selftester.Run([DATA_DUMP]) == Run();
      TestedOrSkipped(Run(), problemDevice, completeReportRes.entries);
      if rc.Error? {
        return Refused, report, order;
      }
      if problemDevice !in completeReportRes.entries {
        completeReportRes.entries := completeReportRes.entries[problemDevice := NOTHING_TESTED];
      }
      report := completeReportRes.entries;
      if fixedOrigin.Some? {
        return Traced(fixedOrigin.value), report, order;
      }
      var found: Result<string>;
      found, order := FindRootCauseGeneral(dat, problemDevice, completeReportRes.entries, categories);
      match found {
        case Ok(d) => return Traced(d), report, order;
        case Throws => return Crashed, report, order;
      }
    }
  }

  lemma TestedOrSkipped(s: Setup, root: string, after: Report)
    requires s.Outcome(map[], root, after)
    ensures !s.ShouldSkip(s.dat[root]) ==> TraceReport(s, root, after)
    ensures s.ShouldSkip(s.dat[root]) ==> after == map[] && TraceReport(s, root, map[root := NOTHING_TESTED])
  {
  }

  // ------------------------------------------------------- what the search means

  lemma ReportedVerdict(s: Setup, root: string, report: Report, v: string)
    requires ValidDat(s.dat) && s.Closed() && TraceReport(s, root, report) && v in report
    ensures v in s.dat && EvaluateDevice(report[v]) == s.OwnPass(s.dat[v])
  {
    if s.ShouldSkip(s.dat[root]) {
      s.SkippedHasNoEdges(s.dat[root]);
    } else {
      assert s.Completed(map[], root, report, v);
      VerdictOfNewEntry(s, map[], root, report, v);
    }
  }

  /** The origin found is a device that fails its own tests and beyond which, in
      distance from the event's device, every device passes; or it is the event's
      device and every device that the search reaches passes. */
  lemma OriginIsFarthestFailing(s: Setup, g: Graph, root: string, report: Report, order: seq<string>, d: string)
    requires ValidDat(s.dat) && s.Closed() && TraceReport(s, root, report)
    requires BreadthFirst(g, root, order) && SearchResult(order, report, root, Ok(d))
    ensures Reach(g, root, d) && d in s.dat
    ensures !s.OwnPass(s.dat[d]) ==>
      forall v :: Reach(g, root, v) && Dist(g, root, v) > Dist(g, root, d) ==> v in s.dat && s.OwnPass(s.dat[v])
    ensures s.OwnPass(s.dat[d]) ==>
      d == root && forall v :: Reach(g, root, v) ==> v in s.dat && s.OwnPass(s.dat[v])
  {
    hide BreadthFirst, SearchResult, TraceReport, EvaluateDevice, Setup.OwnPass, Setup.Closed, ValidDat, Reach, Dist;
    ReachSelf(g, root);
    SearchFindsFarthest(g, order, report, root, Ok(d));
    forall v | v in report ensures v in s.dat && EvaluateDevice(report[v]) == s.OwnPass(s.dat[v]) {
      ReportedVerdict(s, root, report, v);
    }
  }

  /** Every device that the search reaches has been tested. */
  ghost predicate Covered(s: Setup, g: Graph, root: string) {
    forall v :: Reach(g, root, v) ==> v == root || Reach(s.TestGraph(), root, v)
  }

  lemma CoveredIsReported(s: Setup, g: Graph, root: string, report: Report)
    requires TraceReport(s, root, report)
    ensures forall v :: v in report <==> v == root || Reach(s.TestGraph(), root, v)
  {
    if s.ShouldSkip(s.dat[root]) {
      s.SkippedHasNoEdges(s.dat[root]);
      forall v | Reach(s.TestGraph(), root, v) ensures v == root {
        if v != root {
          NoEdgeNoWalk(s.TestGraph(), root, v);
        }
      }
    } else {
      KeysAreReachable(s, root, report);
      ReachSelf(s.TestGraph(), root);
    }
  }

  /** Then the search never meets a device without an entry, whatever was read. */
  lemma CoveredNeverThrows(s: Setup, g: Graph, root: string, report: Report, order: seq<string>, r: Result<string>)
    requires TraceReport(s, root, report) && BreadthFirst(g, root, order)
    requires SearchResult(order, report, root, r) && Covered(s, g, root)
    ensures r.Ok?
  {
    CoveredIsReported(s, g, root, report);
    forall i | 0 <= i < |order| ensures order[i] in report {
      assert order[i] in order;
    }
  }

  /** The verdict that the report shows on a device: one that names a device that does
      not exist is left with an empty entry, which passes. */
  predicate ShownPass(s: Setup, v: string)
    requires v in s.dat
  {
    s.Dangling(s.dat[v]) || s.OwnPass(s.dat[v])
  }

  lemma ReportShows(s: Setup, root: string, report: Report, v: string)
    requires ValidDat(s.dat) && TraceReport(s, root, report) && v in report
    ensures v in s.dat && EvaluateDevice(report[v]) == ShownPass(s, v)
  {
    if s.ShouldSkip(s.dat[root]) {
      s.SkippedHasNoEdges(s.dat[root]);
    } else {
      assert s.Completed(map[], root, report, v);
      if !s.Dangling(s.dat[v]) {
        VerdictOfNewEntry(s, map[], root, report, v);
      }
    }
  }

  /** Position `i` of the search order holds a device that the self-test does not reach,
      and whatever comes after it is reached and shown to pass. */
  ghost predicate UntestedBehindPassing(s: Setup, root: string, order: seq<string>, i: nat) {
    && i < |order| && !IsTested(s, root, order[i])
    && forall j :: i < j < |order| ==> IsTested(s, root, order[j]) && order[j] in s.dat && ShownPass(s, order[j])
  }

  ghost predicate IsTested(s: Setup, root: string, v: string) {
    v == root || Reach(s.TestGraph(), root, v)
  }

  /** The search ends by an exception exactly if, from its end, it comes to a device that
      the self-test does not reach before it comes to one that fails. */
  lemma SearchThrowsIff(s: Setup, g: Graph, root: string, report: Report, order: seq<string>, r: Result<string>)
    requires ValidDat(s.dat) && TraceReport(s, root, report)
    requires BreadthFirst(g, root, order) && SearchResult(order, report, root, r)
    ensures r.Throws? <==> exists i: nat :: UntestedBehindPassing(s, root, order, i)
  {
    hide TraceReport, BreadthFirst, ShownPass, Reach, EvaluateDevice, ValidDat;
    CoveredIsReported(s, g, root, report);
    forall v | v in report ensures v in s.dat && EvaluateDevice(report[v]) == ShownPass(s, v) {
      ReportShows(s, root, report, v);
    }
    if r.Throws? {
      var i :| 0 <= i < |order| && order[i] !in report && PassingAfter(order, report, i);
      assert UntestedBehindPassing(s, root, order, i);
    } else if exists i: nat :: UntestedBehindPassing(s, root, order, i) {
      var i: nat :| UntestedBehindPassing(s, root, order, i);
      assert order[i] !in report && PassingAfter(order, report, i);
      UntestedNotSkipped(order, report, root, i, r);
    }
  }

  lemma UntestedNotSkipped(order: seq<string>, report: Report, root: string, i: nat, r: Result<string>)
    requires i < |order| && order[i] !in report && PassingAfter(order, report, i)
    requires SearchResult(order, report, root, r)
    ensures r.Throws?
  {
  }

  /** And otherwise it does as soon as every device passes. */
  lemma UncoveredThrows(s: Setup, g: Graph, root: string, report: Report, order: seq<string>, r: Result<string>)
    requires ValidDat(s.dat) && s.Closed() && TraceReport(s, root, report) && BreadthFirst(g, root, order)
    requires SearchResult(order, report, root, r) && !Covered(s, g, root)
    requires forall k :: k in s.dat ==> s.OwnPass(s.dat[k])
    ensures r.Throws?
  {
    CoveredIsReported(s, g, root, report);
    var v :| Reach(g, root, v) && v != root && !Reach(s.TestGraph(), root, v);
    var i :| 0 <= i < |order| && order[i] == v;
    assert order[i] !in report;
    if r.Ok? && r.value in report {
      ReportedVerdict(s, root, report, r.value);
    }
  }

  /** A guard on the profile that is enough: no data dump names a device. */
  ghost predicate NoDeviceInDataDump(dat: Dat) {
    forall k, l, tp :: k in dat && l in dat[k].test && l.name == "data_dump" && tp in l.testPoints
                   ==> tp.accessor.PropertyAccessor?
  }

  lemma NoDeviceInDataDumpCovers(s: Setup, root: string, categories: seq<string>)
    requires s.layersToIgnore == ["data_dump"] && s.Closed() && NoDeviceInDataDump(s.dat)
    ensures Covered(s, SearchGraph(s.dat, root, EventLayers(categories)), root)
  {
    var g := SearchGraph(s.dat, root, EventLayers(categories));
    forall a, b | Edge(g, a, b) ensures Edge(s.TestGraph(), a, b) {
      SearchEdgeIsTested(s, root, EventLayers(categories), a, b);
    }
    forall v | Reach(g, root, v) ensures Reach(s.TestGraph(), root, v) {
      var n: nat :| ReachIn(g, root, v, n);
      WalkInLarger(g, s.TestGraph(), root, v, n);
    }
  }

  lemma SearchEdgeIsTested(s: Setup, root: string, keep: LayerChoice, a: string, b: string)
    requires s.layersToIgnore == ["data_dump"] && s.Closed() && NoDeviceInDataDump(s.dat)
    requires Edge(SearchGraph(s.dat, root, keep), a, b)
    ensures Edge(s.TestGraph(), a, b)
  {
    var choice := if a == root then keep else AllLayers;
    TargetsMembers(Flat(s.dat[a].test, choice));
    var tp :| tp in Flat(s.dat[a].test, choice) && tp.accessor == DeviceAccessor(b);
    FlatMembers(s.dat[a].test, choice, tp);
    FlatMembers(s.dat[a].test, Except(["data_dump"]), tp);
    TargetsMembers(s.Tested(s.dat[a]));
    s.NotDanglingVisitsAll(s.dat[a]);
  }

  lemma {:induction false} WalkInLarger(g: Graph, h: Graph, a: string, b: string, n: nat)
    requires ReachIn(g, a, b, n) && forall x, y :: Edge(g, x, y) ==> Edge(h, x, y)
    ensures ReachIn(h, a, b, n)
    decreases n
  {
    if n > 0 {
      var m :| ReachIn(g, a, m, n - 1) && Edge(g, m, b);
      WalkInLarger(g, h, a, m, n - 1);
    }
  }

  /** A profile on which the search does end by an exception: a GPU whose data dump
      names its voltage regulator, which no other layer mentions. */
  const GPU_DUMPING_VR: Device :=
    Device("GPU0", Regular, [], [TestLayer("data_dump", [TestPoint("VR", DeviceAccessor("VR0"), "OK", Critical)])])

  const DUMPING_PROFILE: Dat := map["GPU0" := GPU_DUMPING_VR, "VR0" := Device("VR0", Regular, [], [])]

  lemma DumpingProfileTests(read: Oracle)
    ensures var s := Setup(DUMPING_PROFILE, ["data_dump"], read);
      forall k :: k in s.dat ==> s.Tested(s.dat[k]) == []
  {
    var s := Setup(DUMPING_PROFILE, ["data_dump"], read);
    forall k | k in s.dat ensures s.Tested(s.dat[k]) == [] {
      if k == "GPU0" {
        FlatStep(GPU_DUMPING_VR.test, Except(["data_dump"]), 0);
        assert GPU_DUMPING_VR.test[..1] == GPU_DUMPING_VR.test;
      }
    }
  }

  lemma DumpingProfileSearches()
    ensures Edge(SearchGraph(DUMPING_PROFILE, "GPU0", AllLayers), "GPU0", "VR0")
  {
    var tp := TestPoint("VR", DeviceAccessor("VR0"), "OK", Critical);
    FlatMembers(GPU_DUMPING_VR.test, AllLayers, tp);
    assert GPU_DUMPING_VR.test[0] in GPU_DUMPING_VR.test && GPU_DUMPING_VR.test[0].testPoints[0] == tp;
    TargetsMembers(Flat(GPU_DUMPING_VR.test, AllLayers));
  }

  lemma DataDumpEndsSearch(read: Oracle, report: Report, order: seq<string>, r: Result<string>)
    requires var s := Setup(DUMPING_PROFILE, ["data_dump"], read);
      && TraceReport(s, "GPU0", report)
      && BreadthFirst(SearchGraph(DUMPING_PROFILE, "GPU0", AllLayers), "GPU0", order)
      && SearchResult(order, report, "GPU0", r)
    ensures r.Throws?
  {
    hide Flat, BreadthFirst, SearchResult, SearchGraph, TraceReport;
    var s := Setup(DUMPING_PROFILE, ["data_dump"], read);
    var g := SearchGraph(DUMPING_PROFILE, "GPU0", AllLayers);
    DumpingProfileTests(read);
    DumpingProfileSearches();
    EdgeWalk(g, "GPU0", "VR0");
    if Reach(s.TestGraph(), "GPU0", "VR0") {
      NoEdgeNoWalk(s.TestGraph(), "GPU0", "VR0");
    }
    assert ValidDat(s.dat) && s.Closed();
    UncoveredThrows(s, g, "GPU0", report, order, r);
  }
}
