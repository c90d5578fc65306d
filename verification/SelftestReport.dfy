/** What a self-test report says: which devices it holds, what its verdicts are
    and when the results it records for nested devices can be trusted. */
module SelftestReport {
  import opened PropertyValues
  import opened Graphs
  import opened DeviceTree
  import opened SelfTests

  // ------------------------------------------------------- keys and verdicts

  /** Started on an empty report, the test of a device reports exactly the devices
      reachable through the tested DEVICE testpoints, cycles or not. */
  lemma KeysAreReachable(s: Setup, root: string, after: Report)
    requires s.Outcome(map[], root, after) && !s.ShouldSkip(s.dat[root])
    ensures forall k :: k in after <==> Reach(s.TestGraph(), root, k)
  {
    assert ClosedUnder(s.TestGraph(), after.Keys) by {
      forall a, b | a in after.Keys && Edge(s.TestGraph(), a, b) ensures b in after.Keys {
        assert s.Completed(map[], root, after, a);
      }
    }
    ClosedContainsReach(s.TestGraph(), after.Keys, root);
    forall k | k in after ensures Reach(s.TestGraph(), root, k) {
      assert s.Completed(map[], root, after, k);
    }
  }

  /** The verdict on a newly tested device is the verdict on its own testpoints. */
  lemma VerdictOfNewEntry(s: Setup, before: Report, root: string, after: Report, k: string)
    requires ValidDat(s.dat) && s.Outcome(before, root, after)
    requires k in after && k !in before && !s.Dangling(s.dat[k])
    ensures EvaluateDevice(after[k]) == s.OwnPass(s.dat[k])
  {
    assert s.Completed(before, root, after, k);
    s.VerdictIsOwn(before, root, k, after[k]);
  }

  /** Verdicts depend neither on the device the test was started from nor on what
      the report held before. */
  lemma VerdictsDoNotDependOnRoot(s: Setup, before0: Report, root0: string, after0: Report,
                                  before1: Report, root1: string, after1: Report, k: string)
    requires ValidDat(s.dat) && s.Outcome(before0, root0, after0) && s.Outcome(before1, root1, after1)
    requires k in after0 && k !in before0 && k in after1 && k !in before1
    requires !s.Dangling(s.dat[k])
    ensures EvaluateDevice(after0[k]) == EvaluateDevice(after1[k])
  {
    VerdictOfNewEntry(s, before0, root0, after0, k);
    VerdictOfNewEntry(s, before1, root1, after1, k);
  }

  // ----------------------------------------------------------- exact contents

  /** The result a testpoint of device `k` should get: a DEVICE testpoint passes
      when the device it names passes its own tests. */
  function IdealTp(s: Setup, k: string, tp: TestPoint): TestPointResult {
    match tp.accessor
    case PropertyAccessor(_) => OwnTpResult(k, tp, s.read)
    case DeviceAccessor(v) => DeviceTpResult(tp, v in s.dat && s.OwnPass(s.dat[v]))
  }

  function IdealTps(s: Setup, k: string, tps: seq<TestPoint>): (rs: seq<TestPointResult>)
    ensures |rs| == |tps|
    ensures forall j :: 0 <= j < |tps| ==> rs[|tps| - 1 - j] == IdealTp(s, k, tps[j])
  {
    seq(|tps|, i requires 0 <= i < |tps| => IdealTp(s, k, tps[|tps| - 1 - i]))
  }

  function IdealLayers(s: Setup, k: string, layers: seq<TestLayer>): (lrs: seq<LayerResult>)
    ensures |lrs| == |layers|
  {
    seq(|layers|, i requires 0 <= i < |layers| =>
      LayerResult(layers[i].name,
                  IdealTps(s, k, if layers[i].name !in s.layersToIgnore then layers[i].testPoints else [])))
  }

  function IdealEntry(s: Setup, k: string): DeviceResult
    requires k in s.dat
  {
    if s.ShouldSkip(s.dat[k]) then NOTHING_TESTED else DeviceResult(IdealLayers(s, k, s.dat[k].test))
  }

  /** One entry per reachable device, each computed from that device alone. */
  ghost function IdealReport(s: Setup, root: string): Report {
    map k | k in s.dat && Reach(s.TestGraph(), root, k) :: IdealEntry(s, k)
  }

  /** Device `d` fails and is named, on a cycle, by a testpoint of `k` whose expected
      value tells a pass from a failure. */
  ghost predicate FailsOnCycle(s: Setup, d: string, k: string, tp: TestPoint) {
    && d in s.dat && k in s.dat && !s.OwnPass(s.dat[d])
    && tp in s.Tested(s.dat[k]) && tp.accessor == DeviceAccessor(d) && tp.expectedValue != REPORT_RESULT_FAIL
    && Reach(s.TestGraph(), d, k)
  }

  ghost predicate NoFailingCycle(s: Setup) {
    forall d, k, tp :: !FailsOnCycle(s, d, k, tp)
  }

  /** In particular there is none on a tree without cycles, or whose cycles pass. */
  lemma AcyclicHasNoFailingCycle(s: Setup)
    requires s.Closed()
    ensures (forall d :: d in s.dat && OnCycle(s.TestGraph(), d) ==> s.OwnPass(s.dat[d])) ==> NoFailingCycle(s)
    ensures Acyclic(s.TestGraph()) ==> NoFailingCycle(s)
  {
    forall d, k, tp | FailsOnCycle(s, d, k, tp) ensures OnCycle(s.TestGraph(), d) {
      TargetsMembers(s.Tested(s.dat[k]));
      s.NotDanglingVisitsAll(s.dat[k]);
      EdgeBackIsCycle(s.TestGraph(), k, d);
    }
  }

  /** A pass and a failure leave the same result only if a failure was expected. */
  lemma ResultsDiffer(tp: TestPoint)
    requires tp.accessor.DeviceAccessor?
    ensures DeviceTpResult(tp, true) == DeviceTpResult(tp, false) <==> tp.expectedValue == REPORT_RESULT_FAIL
  {
  }

  ghost predicate AllIdeal(s: Setup, report: Report) {
    forall k :: k in report ==> k in s.dat && report[k] == IdealEntry(s, k)
  }

  /** An entry with a given verdict. */
  function EntryFor(pass: bool): (e: DeviceResult)
    ensures EvaluateDevice(e) == pass
  {
    var results := if pass then [] else [TestPointResult(false, OK, "", "", "", false)];
    var e := DeviceResult([LayerResult("", results)]);
    assert !pass ==> results[0] in results;
    assert e.layer[0] in e.layer;
    e
  }

  /** The ideal entry of a device carries the device's own verdict. */
  lemma IdealVerdict(s: Setup, k: string)
    requires ValidDat(s.dat) && s.Closed() && k in s.dat
    ensures EvaluateDevice(IdealEntry(s, k)) == s.OwnPass(s.dat[k])
  {
    hide Setup.OwnPass, Setup.ShouldSkip;
    var before: Report := map v | v in s.dat :: EntryFor(s.OwnPass(s.dat[v]));
    var layers := s.dat[k].test;
    if !s.ShouldSkip(s.dat[k]) {
      forall i | 0 <= i < |layers| ensures s.LayerRecorded(before, k, k, layers[i], IdealLayers(s, k, layers)[i]) {
        IdealLayerRecorded(s, before, k, layers[i]);
      }
    }
    s.VerdictIsOwn(before, k, k, IdealEntry(s, k));
  }

  lemma IdealLayerRecorded(s: Setup, before: Report, k: string, tl: TestLayer)
    requires s.Closed() && k in s.dat && tl in s.dat[k].test
    requires forall v :: v in s.dat ==> v in before && EvaluateDevice(before[v]) == s.OwnPass(s.dat[v])
    ensures s.LayerRecorded(before, k, k, tl,
              LayerResult(tl.name, IdealTps(s, k, if tl.name !in s.layersToIgnore then tl.testPoints else [])))
  {
    hide Setup.OwnPass, FillTpRes;
    var tps := if tl.name !in s.layersToIgnore then tl.testPoints else [];
    forall j | 0 <= j < |tps| ensures s.TpRecorded(before, k, k, tps[j], IdealTp(s, k, tps[j])) {
      FlatMembers(s.dat[k].test, Except(s.layersToIgnore), tps[j]);
      TargetsMembers(s.Tested(s.dat[k]));
      if tps[j].accessor.DeviceAccessor? {
        var v := tps[j].accessor.deviceName;
        assert v in s.dat;
        assert s.MayRecord(before, k, k, v, s.OwnPass(s.dat[v]));
      }
    }
  }

  lemma RecordedTpIsIdeal(s: Setup, before: Report, root: string, k: string, tp: TestPoint, r: TestPointResult)
    requires ValidDat(s.dat) && s.Closed() && NoFailingCycle(s) && AllIdeal(s, before)
    requires root in s.dat && k in s.dat
    requires Reach(s.TestGraph(), root, k) && tp in s.Tested(s.dat[k])
    requires s.TpRecorded(before, root, k, tp, r)
    ensures r == IdealTp(s, k, tp)
  {
    hide Setup.OwnPass, IdealEntry, FillTpRes;
    if tp.accessor.DeviceAccessor? {
      var v := tp.accessor.deviceName;
      var pass :| s.MayRecord(before, root, k, v, pass) && r == DeviceTpResult(tp, pass);
      IdealVerdict(s, v);
      ResultsDiffer(tp);
      assert !FailsOnCycle(s, v, k, tp);
    }
  }

  lemma RecordedTpsAreIdeal(s: Setup, before: Report, root: string, k: string,
                            tps: seq<TestPoint>, rs: seq<TestPointResult>)
    requires ValidDat(s.dat) && s.Closed() && NoFailingCycle(s) && AllIdeal(s, before)
    requires root in s.dat && k in s.dat && Reach(s.TestGraph(), root, k)
    requires forall tp :: tp in tps ==> tp in s.Tested(s.dat[k])
    requires s.TpsRecorded(before, root, k, tps, rs)
    ensures rs == IdealTps(s, k, tps)
  {
    hide Setup.TpRecorded, Setup.MayRecord, Setup.Tested, IdealTp, Setup.Closed, AllIdeal, NoFailingCycle;
    var n, ideal := |tps|, IdealTps(s, k, tps);
    forall q | 0 <= q < n ensures rs[q] == ideal[q] {
      var j := n - 1 - q;
      assert tps[j] in tps;
      assert s.TpRecorded(before, root, k, tps[j], rs[n - 1 - j]);
      RecordedTpIsIdeal(s, before, root, k, tps[j], rs[n - 1 - j]);
      assert ideal[n - 1 - j] == IdealTp(s, k, tps[j]);
    }
  }

  lemma RecordedLayersAreIdeal(s: Setup, before: Report, root: string, k: string, lrs: seq<LayerResult>)
    requires ValidDat(s.dat) && s.Closed() && NoFailingCycle(s) && AllIdeal(s, before)
    requires root in s.dat && k in s.dat && Reach(s.TestGraph(), root, k)
    requires s.LayersRecorded(before, root, k, s.dat[k].test, lrs)
    ensures lrs == IdealLayers(s, k, s.dat[k].test)
  {
    hide Setup.TpsRecorded, IdealTps, Setup.Closed, NoFailingCycle, AllIdeal;
    var layers := s.dat[k].test;
    forall i | 0 <= i < |layers| ensures lrs[i] == IdealLayers(s, k, layers)[i] {
      assert s.LayerRecorded(before, root, k, layers[i], lrs[i]);
      var tps := if layers[i].name !in s.layersToIgnore then layers[i].testPoints else [];
      forall tp | tp in tps ensures tp in s.Tested(s.dat[k]) {
        FlatMembers(layers, Except(s.layersToIgnore), tp);
      }
      RecordedTpsAreIdeal(s, before, root, k, tps, lrs[i].results);
    }
  }

  /** When no failing device lies on a cycle, the test of one more device keeps a report
      in which every entry is what testing its device by itself gives. */
  lemma OutcomeIsIdeal(s: Setup, before: Report, root: string, after: Report)
    requires ValidDat(s.dat) && s.Closed() && NoFailingCycle(s) && AllIdeal(s, before)
    requires s.Outcome(before, root, after)
    ensures AllIdeal(s, after)
  {
    hide IdealLayers, NoFailingCycle, Setup.Closed;
    forall k | k in after && k !in before ensures k in s.dat && after[k] == IdealEntry(s, k) {
      assert s.Completed(before, root, after, k);
      ClosedHasNoDangling(s, k);
      if !s.ShouldSkip(s.dat[k]) {
        RecordedLayersAreIdeal(s, before, root, k, after[k].layer);
      }
    }
  }

  lemma ClosedHasNoDangling(s: Setup, k: string)
    requires s.Closed() && k in s.dat
    ensures !s.Dangling(s.dat[k])
  {
  }

  /** So the recursive, caching test leaves the report that tests each reachable device
      by itself. */
  lemma ReportIsIdeal(s: Setup, root: string, after: Report)
    requires ValidDat(s.dat) && s.Closed() && NoFailingCycle(s)
    requires s.Outcome(map[], root, after) && !s.ShouldSkip(s.dat[root])
    ensures after == IdealReport(s, root)
  {
    KeysAreReachable(s, root, after);
    OutcomeIsIdeal(s, map[], root, after);
  }

  /** A DEVICE testpoint shows the verdict on its device, unless the value expected
      of it is missing or is the word recorded for a failure. */
  lemma DeviceTpShowsVerdict(tp: TestPoint, pass: bool)
    requires tp.accessor.DeviceAccessor?
    ensures DeviceTpResult(tp, pass).result
        <==> pass || tp.expectedValue == "" || tp.expectedValue == REPORT_RESULT_FAIL
  {
  }

  /** A failing device that lies on such a cycle spoils the report of its own test: the
      device before it on the cycle records it as passing. */
  lemma FailingCycleSpoilsReport(s: Setup, d: string, k: string, tp: TestPoint, after: Report)
    requires ValidDat(s.dat) && s.Closed() && s.Outcome(map[], d, after) && FailsOnCycle(s, d, k, tp)
    ensures !s.ShouldSkip(s.dat[d]) && after != IdealReport(s, d)
  {
    hide Setup.OwnPass;
    if s.ShouldSkip(s.dat[d]) {
      s.SkippedHasNoEdges(s.dat[d]);
    }
    KeysAreReachable(s, d, after);
    assert s.Completed(map[], d, after, k);
    if s.ShouldSkip(s.dat[k]) {
      s.SkippedHasNoEdges(s.dat[k]);
    }
    PassRecordedForFailing(s, d, k, tp, after[k].layer);
  }

  lemma PassRecordedForFailing(s: Setup, d: string, p: string, tp: TestPoint, lrs: seq<LayerResult>)
    requires d in s.dat && p in s.dat && !s.OwnPass(s.dat[d])
    requires tp in s.Tested(s.dat[p]) && tp.accessor == DeviceAccessor(d) && tp.expectedValue != REPORT_RESULT_FAIL
    requires s.LayersRecorded(map[], d, p, s.dat[p].test, lrs)
    ensures lrs != IdealLayers(s, p, s.dat[p].test)
  {
    hide Setup.OwnPass, Setup.TpsRecorded, IdealTps;
    var layers := s.dat[p].test;
    FlatMembers(layers, Except(s.layersToIgnore), tp);
    var i :| 0 <= i < |layers| && layers[i].name !in s.layersToIgnore && tp in layers[i].testPoints;
    assert s.LayerRecorded(map[], d, p, layers[i], lrs[i]);
    PassInLayer(s, d, p, tp, layers[i].testPoints, lrs[i].results);
    assert lrs[i] != IdealLayers(s, p, layers)[i];
  }

  lemma PassInLayer(s: Setup, d: string, p: string, tp: TestPoint, tps: seq<TestPoint>, rs: seq<TestPointResult>)
    requires d in s.dat && !s.OwnPass(s.dat[d])
    requires tp in tps && tp.accessor == DeviceAccessor(d) && tp.expectedValue != REPORT_RESULT_FAIL
    requires s.TpsRecorded(map[], d, p, tps, rs)
    ensures rs != IdealTps(s, p, tps)
  {
    hide Setup.OwnPass, FillTpRes;
    var j :| 0 <= j < |tps| && tps[j] == tp;
    assert s.TpRecorded(map[], d, p, tps[j], rs[|tps| - 1 - j]);
    ResultsDiffer(tp);
    assert IdealTps(s, p, tps)[|tps| - 1 - j] == IdealTp(s, p, tps[j]);
  }

  /** Testing every device from an empty report each: all these reports are what testing
      device by device gives, exactly if no failing device lies on such a cycle. */
  lemma ReportsAreIdealIff(s: Setup, reports: map<string, Report>)
    requires ValidDat(s.dat) && s.Closed()
    requires forall k :: k in s.dat && !s.ShouldSkip(s.dat[k]) ==> k in reports && s.Outcome(map[], k, reports[k])
    ensures (forall k :: k in s.dat && !s.ShouldSkip(s.dat[k]) ==> reports[k] == IdealReport(s, k))
       <==> NoFailingCycle(s)
  {
    hide Setup.Outcome, Setup.ShouldSkip, IdealReport, FailsOnCycle, Setup.Closed;
    if NoFailingCycle(s) {
      forall k | k in s.dat && !s.ShouldSkip(s.dat[k]) ensures reports[k] == IdealReport(s, k) {
        ReportIsIdeal(s, k, reports[k]);
      }
    } else {
      var d, k, tp :| FailsOnCycle(s, d, k, tp);
      FailingIsTested(s, d, k, tp);
      FailingCycleSpoilsReport(s, d, k, tp, reports[d]);
    }
  }

  lemma FailingIsTested(s: Setup, d: string, k: string, tp: TestPoint)
    requires FailsOnCycle(s, d, k, tp)
    ensures d in s.dat && !s.ShouldSkip(s.dat[d])
  {
    hide Setup.OwnPass;
    if s.ShouldSkip(s.dat[d]) {
      s.SkippedHasNoEdges(s.dat[d]);
    }
  }

  /** Two GPUs that name each other, the first of which fails its own testpoint. */
  const OWN_TP: TestPoint := TestPoint("power", PropertyAccessor("power_good"), "1", Critical)

  function Naming(peer: string): TestPoint {
    TestPoint("peer", DeviceAccessor(peer), "OK", Critical)
  }

  const PEERS: Dat := map[
    "GPU0" := Device("GPU0", Regular, [], [TestLayer("power_rail", [OWN_TP, Naming("GPU1")])]),
    "GPU1" := Device("GPU1", Regular, [], [TestLayer("power_rail", [Naming("GPU0")])])]

  lemma PeersTested(s: Setup)
    requires s.dat == PEERS && s.layersToIgnore == []
    ensures s.Tested(PEERS["GPU0"]) == [OWN_TP, Naming("GPU1")] && s.Tested(PEERS["GPU1"]) == [Naming("GPU0")]
    ensures s.Closed() && Edge(s.TestGraph(), "GPU0", "GPU1")
  {
    forall k | k in PEERS ensures s.Tested(PEERS[k]) == PEERS[k].test[0].testPoints {
      FlatStep(PEERS[k].test, Except([]), 0);
      assert PEERS[k].test[..1] == PEERS[k].test;
    }
    forall k | k in PEERS ensures !s.Dangling(PEERS[k]) {
      TargetsMembers(s.Tested(PEERS[k]));
    }
    s.NotDanglingVisitsAll(PEERS["GPU0"]);
    TargetsMembers(s.Tested(PEERS["GPU0"]));
    assert Naming("GPU1") in s.Tested(PEERS["GPU0"]);
  }

  /** The report of the failing GPU is spoilt: its peer records it as passing. */
  lemma PeersSpoilReport(s: Setup, after: Report)
    requires s.dat == PEERS && s.layersToIgnore == []
    requires s.read(OWN_TP.accessor, "GPU0") == OfText("0") && s.Outcome(map[], "GPU0", after)
    ensures after != IdealReport(s, "GPU0")
  {
    hide Setup.Outcome, IdealReport, Setup.Tested, Setup.Closed, Setup.TestGraph;
    PeersTested(s);
    assert OWN_TP in s.Tested(PEERS["GPU0"]) && !OwnTpResult("GPU0", OWN_TP, s.read).result;
    EdgeWalk(s.TestGraph(), "GPU0", "GPU1");
    assert Naming("GPU0") in s.Tested(PEERS["GPU1"]);
    FailingCycleSpoilsReport(s, "GPU0", "GPU1", Naming("GPU0"), after);
  }

  // ----------------------------------------------------------- the whole tree

  predicate EvaluateTestReport(report: Report) {
    forall k :: k in report ==> EvaluateDevice(report[k])
  }

  /** Testing the whole tree reports every device that is not skipped and every
      device some testpoint names; the report passes when every device passes. */
  lemma EntireTreeReport(s: Setup, after: Report)
    requires ValidDat(s.dat) && s.Closed() && s.TreeOutcome(map[], after)
    requires forall k :: k in s.dat && !s.ShouldSkip(s.dat[k]) ==> k in after
    ensures forall k :: (k in after <==>
      k in s.dat && (!s.ShouldSkip(s.dat[k]) || exists p :: Edge(s.TestGraph(), p, k)))
    ensures forall k :: k in after ==> EvaluateDevice(after[k]) == s.OwnPass(s.dat[k])
    ensures EvaluateTestReport(after) <==> (forall k :: k in s.dat ==> s.OwnPass(s.dat[k]))
  {
    forall k | k in after ensures s.TreeEntry(after, k) {}
    forall k, p | Edge(s.TestGraph(), p, k) ensures k in after {
      if s.ShouldSkip(s.dat[p]) {
        s.SkippedHasNoEdges(s.dat[p]);
      }
      assert s.TreeEntry(after, p);
    }
    forall k | k in s.dat && s.ShouldSkip(s.dat[k]) ensures s.OwnPass(s.dat[k]) {
      s.SkippedHasNoEdges(s.dat[k]);
    }
    forall k, p | k in s.dat && Edge(s.TestGraph(), p, k) ensures k in s.dat {}
    forall k | k in s.dat && s.ShouldSkip(s.dat[k]) && exists p :: Edge(s.TestGraph(), p, k) ensures k in after {
      var p :| Edge(s.TestGraph(), p, k);
    }
  }

  // ------------------------------------------------------- device after device

  /** One more device extends the report by what the device reaches. */
  lemma StepKeys(s: Setup, before: Report, root: string, after: Report)
    requires s.Outcome(before, root, after) && ClosedUnder(s.TestGraph(), before.Keys)
    ensures ClosedUnder(s.TestGraph(), after.Keys)
    ensures forall k :: k in after <==> k in before || (!s.ShouldSkip(s.dat[root]) && Reach(s.TestGraph(), root, k))
  {
    hide Setup.ShouldSkip;
    var g := s.TestGraph();
    forall a, b | a in after.Keys && Edge(g, a, b) ensures b in after.Keys {
      assert a !in before ==> s.Completed(before, root, after, a);
    }
    forall k | k in after && k !in before ensures Reach(g, root, k) {
      assert s.Completed(before, root, after, k);
    }
    if root in after {
      ClosedContainsReach(g, after.Keys, root);
    }
  }

  /** Some device before position `i` leads to `k`. */
  ghost predicate ReachedBefore(s: Setup, order: seq<string>, i: nat, k: string) {
    exists q :: 0 <= q < i && q < |order| && order[q] in s.dat && !s.ShouldSkip(s.dat[order[q]])
      && Reach(s.TestGraph(), order[q], k)
  }

  lemma {:induction false} WalkKeys(s: Setup, order: seq<string>, reports: seq<Report>, rc: RcCode, i: nat)
    requires s.Walk(order, reports, rc) && i < |reports| && ClosedUnder(s.TestGraph(), reports[0].Keys)
    ensures ClosedUnder(s.TestGraph(), reports[i].Keys)
    ensures forall k :: k in reports[i] <==> k in reports[0] || ReachedBefore(s, order, i, k)
    decreases i
  {
    hide Setup.Outcome, ClosedUnder, Reach, Setup.ShouldSkip, Setup.TestGraph, Setup.Fails;
    if i > 0 {
      WalkKeys(s, order, reports, rc, i - 1);
      assert s.Outcome(reports[i - 1], order[i - 1], reports[i]);
      RootInTree(s, reports[i - 1], order[i - 1], reports[i]);
      StepKeys(s, reports[i - 1], order[i - 1], reports[i]);
      forall k ensures ReachedBefore(s, order, i, k) <==>
          ReachedBefore(s, order, i - 1, k)
          || (!s.ShouldSkip(s.dat[order[i - 1]]) && Reach(s.TestGraph(), order[i - 1], k))
      {
      }
    }
  }

  lemma RootInTree(s: Setup, before: Report, root: string, after: Report)
    requires s.Outcome(before, root, after)
    ensures root in s.dat
  {
  }

  /** A device that names one that does not exist, and that nothing before leads to. */
  ghost predicate FirstDangling(s: Setup, order: seq<string>, before: Report, i: nat) {
    && i < |order| && order[i] in s.dat && !s.ShouldSkip(s.dat[order[i]]) && s.Dangling(s.dat[order[i]])
    && order[i] !in before && !ReachedBefore(s, order, i, order[i])
  }

  /** The test of the whole tree reports an error exactly if some device that names one
      that does not exist is not led to by any device before it: led to earlier, it has
      an entry already and is passed over. */
  lemma EntireTreeErrorIff(s: Setup, order: seq<string>, reports: seq<Report>, rc: RcCode)
    requires s.Walk(order, reports, rc) && ClosedUnder(s.TestGraph(), reports[0].Keys)
    ensures rc.Error? <==> exists i: nat :: FirstDangling(s, order, reports[0], i)
  {
    hide Setup.Outcome, ClosedUnder, ReachedBefore, Setup.ShouldSkip, Setup.Dangling, Setup.TestGraph;
    if rc.Error? {
      var i := |reports| - 2;
      WalkKeys(s, order, reports, rc, i);
      assert FirstDangling(s, order, reports[0], i);
    } else if exists i: nat :: FirstDangling(s, order, reports[0], i) {
      var i: nat :| FirstDangling(s, order, reports[0], i);
      WalkKeys(s, order, reports, rc, i);
      assert s.Fails(reports[i], order[i]);
    }
  }

  /** On a closed tree without failing cycles the report of the whole tree holds, for
      every device that is not skipped or is named by a testpoint, exactly what testing
      it by itself gives. */
  lemma EntireTreeIsIdeal(s: Setup, order: seq<string>, reports: seq<Report>, rc: RcCode)
    requires ValidDat(s.dat) && s.Closed() && NoFailingCycle(s)
    requires s.Walk(order, reports, rc) && reports[0] == map[] && forall k :: k in order <==> k in s.dat
    ensures rc.Succ?
    ensures reports[|reports| - 1]
         == map k | k in s.dat && (!s.ShouldSkip(s.dat[k]) || exists p :: Edge(s.TestGraph(), p, k)) :: IdealEntry(s, k)
  {
    hide Setup.Outcome, NoFailingCycle, IdealEntry, Setup.TestGraph, ReachedBefore;
    WalkStaysIdeal(s, order, reports, rc, |reports| - 1);
    EntireTreeErrorIff(s, order, reports, rc);
    WalkKeys(s, order, reports, rc, |reports| - 1);
    var last := reports[|reports| - 1];
    forall k ensures k in last <==>
        k in s.dat && (!s.ShouldSkip(s.dat[k]) || exists p :: Edge(s.TestGraph(), p, k))
    {
      ReachedInTree(s, order, k);
    }
  }

  lemma ReachedInTree(s: Setup, order: seq<string>, k: string)
    requires s.Closed() && forall k :: k in order <==> k in s.dat
    ensures ReachedBefore(s, order, |order|, k) <==>
      k in s.dat && (!s.ShouldSkip(s.dat[k]) || exists p :: Edge(s.TestGraph(), p, k))
  {
    hide Setup.ShouldSkip;
    var g := s.TestGraph();
    if ReachedBefore(s, order, |order|, k) {
      var q :| 0 <= q < |order| && !s.ShouldSkip(s.dat[order[q]]) && Reach(g, order[q], k);
      var n: nat :| ReachIn(g, order[q], k, n);
      if n > 0 {
        var p :| ReachIn(g, order[q], p, n - 1) && Edge(g, p, k);
        EdgeInTree(s, p, k);
      }
    }
    if k in s.dat && !s.ShouldSkip(s.dat[k]) {
      ReachSelf(g, k);
      var q :| 0 <= q < |order| && order[q] == k;
    }
    if p :| Edge(g, p, k) {
      EdgeInTree(s, p, k);
      EdgeWalk(g, p, k);
      var q :| 0 <= q < |order| && order[q] == p;
    }
  }

  lemma EdgeInTree(s: Setup, p: string, k: string)
    requires s.Closed() && Edge(s.TestGraph(), p, k)
    ensures p in s.dat && k in s.dat && !s.ShouldSkip(s.dat[p])
  {
    s.NotDanglingVisitsAll(s.dat[p]);
    if s.ShouldSkip(s.dat[p]) {
      s.SkippedHasNoEdges(s.dat[p]);
    }
  }

  lemma {:induction false} WalkStaysIdeal(s: Setup, order: seq<string>, reports: seq<Report>, rc: RcCode, i: nat)
    requires ValidDat(s.dat) && s.Closed() && NoFailingCycle(s)
    requires s.Walk(order, reports, rc) && i < |reports| && AllIdeal(s, reports[0])
    ensures AllIdeal(s, reports[i])
    decreases i
  {
    hide Setup.Outcome, NoFailingCycle, AllIdeal, Setup.Closed;
    if i > 0 {
      WalkStaysIdeal(s, order, reports, rc, i - 1);
      assert s.Outcome(reports[i - 1], order[i - 1], reports[i]);
      OutcomeIsIdeal(s, reports[i - 1], order[i - 1], reports[i]);
    }
  }
}
