/** The recursive self-test of a device and everything its DEVICE testpoints name
    (src/selftest.cpp), and what its report means. */
module SelfTests {
  import opened PropertyValues
  import opened Graphs
  import opened DeviceTree

  const REPORT_RESULT_FAIL := "Fail"
  const READ_FAILED := "Error - TP read failed."

  datatype RcCode = Succ | Error

  datatype TestPointResult = TestPointResult(
    isTypeDevice: bool,
    severity: Severity,
    targetName: string,
    valRead: string,
    valExpected: string,
    result: bool)

  datatype LayerResult = LayerResult(name: string, results: seq<TestPointResult>)

  datatype DeviceResult = DeviceResult(layer: seq<LayerResult>)

  type Report = map<string, DeviceResult>

  const NOTHING_TESTED := DeviceResult([])

  /** What an accessor yields when it is read for the named device. */
  type Oracle = (Accessor, string) -> PropertyValue

  // ---------------------------------------------------------------- evaluation

  /** A device passes when none of its own testpoints failed; the results of the
      devices it refers to do not count. */
  predicate EvaluateDevice(r: DeviceResult) {
    forall l :: l in r.layer ==> NoOwnFailure(l.results)
  }

  predicate NoOwnFailure(results: seq<TestPointResult>) {
    forall t :: t in results ==> t.isTypeDevice || t.result
  }

  /** Result of one testpoint from what was read for it. */
  function FillTpRes(tp: TestPoint, readVal: PropertyValue, name: string, isDevice: bool): TestPointResult {
    if readVal.IsEmpty() then
      TestPointResult(isDevice, tp.severity, name, READ_FAILED, tp.expectedValue, false)
    else
      TestPointResult(isDevice, tp.severity, name, readVal.strValue, tp.expectedValue,
                      tp.expectedValue == "" || readVal.Equals(OfString(tp.expectedValue)))
  }

  function OwnTpResult(dev: string, tp: TestPoint, read: Oracle): TestPointResult {
    FillTpRes(tp, read(tp.accessor, dev), tp.name, false)
  }

  function DeviceTpResult(tp: TestPoint, pass: bool): TestPointResult
    requires tp.accessor.DeviceAccessor?
  {
    FillTpRes(tp, if pass then OfString(tp.expectedValue) else OfText(REPORT_RESULT_FAIL), tp.accessor.deviceName, true)
  }

  // ------------------------------------------------------------- specification

  datatype Ran = Ran(report: Report, rc: RcCode)

  datatype Nested = Nested(report: Report, pass: bool)

  /** One run of the self-test: the tree, the layers left out, the readings. */
  datatype Setup = Setup(dat: Dat, layersToIgnore: seq<string>, read: Oracle) {

    function Tested(dev: Device): seq<TestPoint> {
      Flat(dev.test, Except(layersToIgnore))
    }

    predicate ShouldSkip(dev: Device) {
      !dev.kind.Regular? && !HasTestpoints(dev)
    }

    /** Some tested DEVICE testpoint of `dev` names no device of the tree. */
    predicate Dangling(dev: Device) {
      exists v :: v in Targets(Tested(dev)) && v !in dat
    }

    /** The tested DEVICE testpoints that come before the first dangling one. */
    function Visited(tps: seq<TestPoint>): seq<string> {
      if tps == [] then []
      else if !tps[0].accessor.DeviceAccessor? then Visited(tps[1..])
      else if tps[0].accessor.deviceName !in dat then []
      else [tps[0].accessor.deviceName] + Visited(tps[1..])
    }

    /** Which devices the test of a device moves on to. */
    function TestGraph(): Graph {
      map k | k in dat :: Visited(Tested(dat[k]))
    }

    /** Every own (non-DEVICE) testpoint of a layer that is not ignored passes. */
    predicate OwnPass(dev: Device) {
      OwnTestsPass(dev.name, Tested(dev))
    }

    predicate OwnTestsPass(k: string, tps: seq<TestPoint>) {
      forall tp :: tp in tps && tp.accessor.PropertyAccessor? ==> OwnTpResult(k, tp, read).result
    }

    ghost predicate Closed() {
      forall k :: k in dat ==> !Dangling(dat[k])
    }

    /** The verdict on device `v` that a testpoint of `k` may have recorded, in a
        test started at `root` with the report `before`: the cached verdict if
        there is one, `pass` for the root and for a device whose test is still
        under way (it then reaches `k`), and otherwise the verdict on `v` itself.
        A dangling `v` gives no verdict of its own. */
    ghost predicate MayRecord(before: Report, root: string, k: string, v: string, pass: bool) {
      v in dat &&
      if v in before then pass == EvaluateDevice(before[v])
      else if v == root then pass
      else Dangling(dat[v]) || pass == OwnPass(dat[v]) || (pass && Reach(TestGraph(), v, k))
    }

    ghost predicate TpRecorded(before: Report, root: string, k: string, tp: TestPoint, r: TestPointResult) {
      match tp.accessor
      case PropertyAccessor(_) => r == OwnTpResult(k, tp, read)
      case DeviceAccessor(v) =>
        || (MayRecord(before, root, k, v, true) && r == DeviceTpResult(tp, true))
        || (MayRecord(before, root, k, v, false) && r == DeviceTpResult(tp, false))
    }

    /** The results of a layer, which are kept in reverse order. */
    ghost predicate TpsRecorded(before: Report, root: string, k: string,
                                tps: seq<TestPoint>, rs: seq<TestPointResult>) {
      |rs| == |tps| && forall j :: 0 <= j < |tps| ==> TpRecorded(before, root, k, tps[j], rs[|tps| - 1 - j])
    }

    ghost predicate LayerRecorded(before: Report, root: string, k: string, tl: TestLayer, lr: LayerResult) {
      && lr.name == tl.name
      && TpsRecorded(before, root, k, if tl.name !in layersToIgnore then tl.testPoints else [], lr.results)
    }

    ghost predicate LayersRecorded(before: Report, root: string, k: string,
                                   layers: seq<TestLayer>, lrs: seq<LayerResult>) {
      |lrs| == |layers| && forall i :: 0 <= i < |layers| ==> LayerRecorded(before, root, k, layers[i], lrs[i])
    }

    /** What the finished test of device `k` has left in the report. */
    ghost predicate Recorded(before: Report, root: string, k: string, e: DeviceResult)
      requires k in dat
    {
      if ShouldSkip(dat[k]) || Dangling(dat[k]) then e == NOTHING_TESTED
      else LayersRecorded(before, root, k, dat[k].test, e.layer)
    }

    ghost predicate Completed(before: Report, root: string, after: Report, k: string) {
      && k in dat && k in after
      && Reach(TestGraph(), root, k)
      && (forall v :: Edge(TestGraph(), k, v) ==> v in after)
      && Recorded(before, root, k, after[k])
    }

    ghost predicate Extends(before: Report, after: Report) {
      forall k :: k in before ==> k in after && after[k] == before[k]
    }

    /** `after` is a report that testing `root` may turn `before` into. */
    ghost predicate Outcome(before: Report, root: string, after: Report) {
      root in dat &&
      if root in before || ShouldSkip(dat[root]) then after == before
      else
        && Extends(before, after) && root in after
        && forall k :: k in after && k !in before ==> Completed(before, root, after, k)
    }

    /** The same while the test of `root` is under way. */
    ghost predicate UnderWay(before: Report, root: string, now: Report) {
      && root in dat && root !in before
      && Extends(before, now) && root in now && now[root] == NOTHING_TESTED
      && forall k :: k in now && k !in before && k != root ==> Completed(before, root, now, k)
    }

    ghost predicate SoFar(tps: seq<TestPoint>, now: Report) {
      forall t :: t in tps && t.accessor.DeviceAccessor? ==>
        t.accessor.deviceName in dat && t.accessor.deviceName in now
    }

    // ------------------------------------------------------- the exact course of a run

    /** The test of a device on values: what it turns a report into, entry by entry. */
    function RunDevice(report: Report, d: string): (r: Ran)
      requires d in dat
      ensures Extends(report, r.report)
      ensures r.rc.Error? ==> d in r.report && r.report[d] == NOTHING_TESTED
      decreases dat.Keys - report.Keys, 0, 0, 0
    {
      if d in report || ShouldSkip(dat[d]) then Ran(report, Succ)
      else
        var placed := report[d := NOTHING_TESTED];
        assert d in dat.Keys - report.Keys && d !in dat.Keys - placed.Keys;
        RunLayers(placed, d, 0, [])
    }

    /** The layers from the `i`-th on, after the results `done`. */
    function RunLayers(report: Report, d: string, i: nat, done: seq<LayerResult>): (r: Ran)
      requires d in dat && d in report && report[d] == NOTHING_TESTED && i <= |dat[d].test|
      ensures forall k :: k in report && k != d ==> k in r.report && r.report[k] == report[k]
      ensures d in r.report && (r.rc.Error? ==> r.report[d] == NOTHING_TESTED)
      decreases dat.Keys - report.Keys, 2, |dat[d].test| - i, 0
    {
      if i == |dat[d].test| then Ran(report[d := DeviceResult(done)], Succ)
      else if dat[d].test[i].name in layersToIgnore then
        RunLayers(report, d, i + 1, done + [LayerResult(dat[d].test[i].name, [])])
      else RunTps(report, d, i, 0, done, [])
    }

    /** The testpoints of the `i`-th layer from the `j`-th on, after the results given. */
    function RunTps(report: Report, d: string, i: nat, j: nat, done: seq<LayerResult>,
                    results: seq<TestPointResult>): (r: Ran)
      requires d in dat && d in report && report[d] == NOTHING_TESTED
      requires i < |dat[d].test| && j <= |dat[d].test[i].testPoints|
      ensures forall k :: k in report && k != d ==> k in r.report && r.report[k] == report[k]
      ensures d in r.report && (r.rc.Error? ==> r.report[d] == NOTHING_TESTED)
      decreases dat.Keys - report.Keys, 2, |dat[d].test| - i - 1, 1 + |dat[d].test[i].testPoints| - j
    {
      var tl := dat[d].test[i];
      if j == |tl.testPoints| then RunLayers(report, d, i + 1, done + [LayerResult(tl.name, results)])
      else
        match tl.testPoints[j].accessor
        case PropertyAccessor(_) =>
          RunTps(report, d, i, j + 1, done, [OwnTpResult(d, tl.testPoints[j], read)] + results)
        case DeviceAccessor(v) =>
          if v !in dat then Ran(report, Error)
          else
            var n := RunNested(report, v);
            assert dat.Keys - n.report.Keys <= dat.Keys - report.Keys;
            RunTps(n.report, d, i, j + 1, done, [DeviceTpResult(tl.testPoints[j], n.pass)] + results)
    }

    /** The report and the verdict for a testpoint that names `v`. */
    function RunNested(report: Report, v: string): (n: Nested)
      requires v in dat
      ensures Extends(report, n.report) && v in n.report
      decreases dat.Keys - report.Keys, 1, 0, 0
    {
      if v in report then Nested(report, EvaluateDevice(report[v]))
      else
        var r := RunDevice(report, v);
        if r.rc.Error? then Nested(r.report, false)
        else
          var found := if v in r.report then r.report else r.report[v := NOTHING_TESTED];
          Nested(found, EvaluateDevice(found[v]))
    }

    /** The run of `d` that started on `before` has come to its `i`-th layer. */
    ghost predicate LayersLeft(before: Report, d: string, now: Report, i: nat, done: seq<LayerResult>) {
      && d in dat && d in now && now[d] == NOTHING_TESTED && i <= |dat[d].test|
      && RunDevice(before, d) == RunLayers(now, d, i, done)
    }

    ghost predicate TpsLeft(before: Report, d: string, now: Report, i: nat, j: nat, done: seq<LayerResult>,
                            results: seq<TestPointResult>)
    {
      && d in dat && d in now && now[d] == NOTHING_TESTED
      && i < |dat[d].test| && j <= |dat[d].test[i].testPoints|
      && RunDevice(before, d) == RunTps(now, d, i, j, done, results)
    }

    lemma RunBegins(before: Report, d: string)
      requires d in dat
      ensures d in before || ShouldSkip(dat[d]) ==> RunDevice(before, d) == Ran(before, Succ)
      ensures d !in before && !ShouldSkip(dat[d]) ==> LayersLeft(before, d, before[d := NOTHING_TESTED], 0, [])
    {
    }

    lemma LayerBegins(before: Report, d: string, now: Report, i: nat, done: seq<LayerResult>)
      requires LayersLeft(before, d, now, i, done) && i < |dat[d].test|
      ensures dat[d].test[i].name in layersToIgnore ==>
        LayersLeft(before, d, now, i + 1, done + [LayerResult(dat[d].test[i].name, [])])
      ensures dat[d].test[i].name !in layersToIgnore ==> TpsLeft(before, d, now, i, 0, done, [])
    {
    }

    lemma TpLeft(before: Report, d: string, now: Report, i: nat, j: nat, done: seq<LayerResult>,
                 results: seq<TestPointResult>)
      requires TpsLeft(before, d, now, i, j, done, results) && j < |dat[d].test[i].testPoints|
      ensures
        var tp := dat[d].test[i].testPoints[j];
        match tp.accessor
        case PropertyAccessor(_) => TpsLeft(before, d, now, i, j + 1, done, [OwnTpResult(d, tp, read)] + results)
        case DeviceAccessor(v) =>
          if v !in dat then RunDevice(before, d) == Ran(now, Error)
          else TpsLeft(before, d, RunNested(now, v).report, i, j + 1, done,
                       [DeviceTpResult(tp, RunNested(now, v).pass)] + results)
    {
    }

    lemma LayerEnds(before: Report, d: string, now: Report, i: nat, done: seq<LayerResult>,
                    results: seq<TestPointResult>)
      requires d in dat && i < |dat[d].test|
      requires TpsLeft(before, d, now, i, |dat[d].test[i].testPoints|, done, results)
      ensures LayersLeft(before, d, now, i + 1, done + [LayerResult(dat[d].test[i].name, results)])
    {
    }

    lemma RunEnds(before: Report, d: string, now: Report, done: seq<LayerResult>)
      requires d in dat && LayersLeft(before, d, now, |dat[d].test|, done)
      ensures RunDevice(before, d) == Ran(now[d := DeviceResult(done)], Succ)
    {
    }

    /** A device that names one that does not exist fails for the testpoint that leads to
        it first, and passes for every later one, its own way back included. */
    lemma DanglingFailsOnce(report: Report, v: string, later: Report)
      requires v in dat && v !in report && RunDevice(report, v).rc.Error?
      requires Extends(RunNested(report, v).report, later) || Extends(report[v := NOTHING_TESTED], later)
      ensures !RunNested(report, v).pass && RunNested(later, v).pass
    {
      assert EvaluateDevice(NOTHING_TESTED);
    }

    /** A device on a cycle passes for those that come back to it while its test is under
        way, whatever its own testpoints say. */
    lemma UnderWayPasses(v: string, later: Report)
      requires v in dat && v in later && later[v] == NOTHING_TESTED
      ensures RunNested(later, v) == Nested(later, true)
    {
      assert EvaluateDevice(NOTHING_TESTED);
    }

    // ------------------------------------------------------------------ lemmas

    lemma {:induction false} VisitedPrefix(taken: seq<TestPoint>, rest: seq<TestPoint>)
      requires forall t :: t in taken && t.accessor.DeviceAccessor? ==> t.accessor.deviceName in dat
      ensures Visited(taken + rest) == Targets(taken) + Visited(rest)
    {
      if taken == [] {
        assert taken + rest == rest;
      } else {
        assert taken[0] in taken && forall t :: t in taken[1..] ==> t in taken;
        VisitedPrefix(taken[1..], rest);
        assert (taken + rest)[1..] == taken[1..] + rest;
      }
    }

    lemma NotDanglingVisitsAll(dev: Device)
      requires !Dangling(dev)
      ensures Visited(Tested(dev)) == Targets(Tested(dev))
    {
      TargetsMembers(Tested(dev));
      forall t | t in Tested(dev) && t.accessor.DeviceAccessor? ensures t.accessor.deviceName in dat {
        assert t.accessor.deviceName in Targets(Tested(dev));
      }
      VisitedPrefix(Tested(dev), []);
      assert Tested(dev) + [] == Tested(dev);
    }

    /** The next DEVICE testpoint, after taken ones that were fine, is an edge if
        it is fine and makes the device dangling if it is not. */
    lemma NextTarget(dev: Device, taken: seq<TestPoint>, tp: TestPoint, rest: seq<TestPoint>, now: Report)
      requires Tested(dev) == taken + [tp] + rest && tp.accessor.DeviceAccessor?
      requires SoFar(taken, now)
      requires dev.name in dat && dat[dev.name] == dev
      ensures tp.accessor.deviceName in dat ==> Edge(TestGraph(), dev.name, tp.accessor.deviceName)
      ensures tp.accessor.deviceName !in dat ==> Dangling(dev)
      ensures tp.accessor.deviceName !in dat ==> forall v :: Edge(TestGraph(), dev.name, v) ==> v in now
    {
      VisitedPrefix(taken, [tp] + rest);
      assert taken + ([tp] + rest) == taken + [tp] + rest;
      TargetsMembers(Tested(dev));
      TargetsMembers(taken);
      assert tp in Tested(dev);
    }

    lemma AllTargetsTaken(dev: Device, now: Report)
      requires dev.name in dat && dat[dev.name] == dev
      requires SoFar(Tested(dev), now)
      ensures !Dangling(dev)
      ensures forall v :: Edge(TestGraph(), dev.name, v) ==> v in now
    {
      TargetsMembers(Tested(dev));
      NotDanglingVisitsAll(dev);
    }

    lemma SkippedHasNoEdges(dev: Device)
      requires ShouldSkip(dev)
      ensures Tested(dev) == [] && !Dangling(dev) && OwnPass(dev)
    {
      NoTestpointsNoTargets(dev.test, Except(layersToIgnore));
    }

    /** A layer's results show a failure of an own testpoint exactly when one failed. */
    lemma TpsVerdict(before: Report, root: string, k: string, tps: seq<TestPoint>, rs: seq<TestPointResult>)
      requires TpsRecorded(before, root, k, tps, rs)
      ensures NoOwnFailure(rs) == OwnTestsPass(k, tps)
    {
      hide Setup.MayRecord, PropertyValue.Equals, OfString;
      var n := |tps|;
      if NoOwnFailure(rs) {
        forall tp | tp in tps && tp.accessor.PropertyAccessor? ensures OwnTpResult(k, tp, read).result {
          var j :| 0 <= j < n && tps[j] == tp;
          assert TpRecorded(before, root, k, tps[j], rs[n - 1 - j]);
          assert rs[n - 1 - j] in rs;
        }
      }
      if OwnTestsPass(k, tps) {
        forall t | t in rs ensures t.isTypeDevice || t.result {
          var q :| 0 <= q < n && rs[q] == t;
          var j := n - 1 - q;
          assert TpRecorded(before, root, k, tps[j], rs[n - 1 - j]);
          assert tps[j] in tps;
        }
      }
    }

    /** The verdict read off a finished entry is the verdict on the device. */
    lemma VerdictIsOwn(before: Report, root: string, k: string, e: DeviceResult)
      requires ValidDat(dat) && k in dat && Recorded(before, root, k, e) && !Dangling(dat[k])
      ensures EvaluateDevice(e) == OwnPass(dat[k])
    {
      var dev := dat[k];
      if ShouldSkip(dev) {
        SkippedHasNoEdges(dev);
      } else {
        LayersVerdict(before, root, k, dev.test, e.layer);
      }
    }

    lemma EvaluateSplit(lrs: seq<LayerResult>)
      requires lrs != []
      ensures EvaluateDevice(DeviceResult(lrs))
           == (NoOwnFailure(lrs[0].results) && EvaluateDevice(DeviceResult(lrs[1..])))
    {
      assert lrs == [lrs[0]] + lrs[1..];
    }

    lemma OwnTestsSplit(k: string, a: seq<TestPoint>, b: seq<TestPoint>)
      ensures OwnTestsPass(k, a + b) == (OwnTestsPass(k, a) && OwnTestsPass(k, b))
    {
      forall tp | tp in a || tp in b ensures tp in a + b {}
    }

    lemma {:induction false} LayersVerdict(before: Report, root: string, k: string,
                                           layers: seq<TestLayer>, lrs: seq<LayerResult>)
      requires LayersRecorded(before, root, k, layers, lrs)
      ensures EvaluateDevice(DeviceResult(lrs)) == OwnTestsPass(k, Flat(layers, Except(layersToIgnore)))
      decreases |layers|
    {
      if layers != [] {
        var tps := if layers[0].name !in layersToIgnore then layers[0].testPoints else [];
        assert LayerRecorded(before, root, k, layers[0], lrs[0]);
        TpsVerdict(before, root, k, tps, lrs[0].results);
        assert LayersRecorded(before, root, k, layers[1..], lrs[1..]) by {
          forall i | 0 <= i < |layers[1..]| ensures LayerRecorded(before, root, k, layers[1..][i], lrs[1..][i]) {
            assert LayerRecorded(before, root, k, layers[i + 1], lrs[i + 1]);
          }
        }
        LayersVerdict(before, root, k, layers[1..], lrs[1..]);
        EvaluateSplit(lrs);
        OwnTestsSplit(k, tps, Flat(layers[1..], Except(layersToIgnore)));
      }
    }

    /** What a nested test may record, the test around it may record too. */
    lemma MayRecordOuter(before: Report, root: string, now: Report, v: string, k: string, w: string, pass: bool)
      requires ValidDat(dat) && UnderWay(before, root, now) && v !in now && Reach(TestGraph(), v, k)
      requires MayRecord(now, v, k, w, pass)
      ensures MayRecord(before, root, k, w, pass)
    {
      if w in now && w !in before && w != root && !Dangling(dat[w]) {
        assert Completed(before, root, now, w);
        VerdictIsOwn(before, root, w, now[w]);
      }
    }

    lemma TpRecordedOuter(before: Report, root: string, now: Report, v: string, k: string,
                          tp: TestPoint, r: TestPointResult)
      requires ValidDat(dat) && UnderWay(before, root, now) && v !in now && Reach(TestGraph(), v, k)
      requires TpRecorded(now, v, k, tp, r)
      ensures TpRecorded(before, root, k, tp, r)
    {
      if tp.accessor.DeviceAccessor? {
        var w := tp.accessor.deviceName;
        var pass :| MayRecord(now, v, k, w, pass) && r == DeviceTpResult(tp, pass);
        MayRecordOuter(before, root, now, v, k, w, pass);
      }
    }

    lemma LayersRecordedMono(before0: Report, root0: string, before1: Report, root1: string, k: string,
                             layers: seq<TestLayer>, lrs: seq<LayerResult>)
      requires forall tp, r :: TpRecorded(before0, root0, k, tp, r) ==> TpRecorded(before1, root1, k, tp, r)
      requires LayersRecorded(before0, root0, k, layers, lrs)
      ensures LayersRecorded(before1, root1, k, layers, lrs)
    {
      forall i | 0 <= i < |layers| ensures LayerRecorded(before1, root1, k, layers[i], lrs[i]) {
        assert LayerRecorded(before0, root0, k, layers[i], lrs[i]);
      }
    }

    lemma RecordedOuter(before: Report, root: string, now: Report, v: string, k: string, e: DeviceResult)
      requires ValidDat(dat) && UnderWay(before, root, now) && v !in now && Reach(TestGraph(), v, k)
      requires k in dat && Recorded(now, v, k, e)
      ensures Recorded(before, root, k, e)
    {
      forall tp, r | TpRecorded(now, v, k, tp, r) ensures TpRecorded(before, root, k, tp, r) {
        TpRecordedOuter(before, root, now, v, k, tp, r);
      }
      if !ShouldSkip(dat[k]) && !Dangling(dat[k]) {
        LayersRecordedMono(now, v, before, root, k, dat[k].test, e.layer);
      }
    }

    lemma NestedKeepsCompleted(before: Report, root: string, now: Report, v: string, later: Report, k: string)
      requires ValidDat(dat) && UnderWay(before, root, now) && v !in now && Reach(TestGraph(), root, v)
      requires Extends(now, later) && k in later && k !in before && k != root
      requires if k in now then Completed(before, root, now, k) else Completed(now, v, later, k)
      ensures Completed(before, root, later, k)
    {
      hide Setup.Recorded, Setup.TestGraph, Reach;
      if k !in now {
        ReachTransitive(TestGraph(), root, v, k);
        RecordedOuter(before, root, now, v, k, later[k]);
      }
    }

    /** Looking up a skipped device leaves an empty entry, which completes it. */
    lemma EmptyEntryKeepsUnderWay(before: Report, root: string, now: Report, v: string)
      requires UnderWay(before, root, now) && v in dat && v !in now && ShouldSkip(dat[v])
      requires Reach(TestGraph(), root, v)
      ensures UnderWay(before, root, now[v := NOTHING_TESTED])
    {
      hide Setup.Completed, Setup.TestGraph, Reach, Setup.ShouldSkip;
      var withEmpty := now[v := NOTHING_TESTED];
      EmptyEntryIsCompleted(before, root, withEmpty, v);
      forall k | k in withEmpty && k !in before && k != root ensures Completed(before, root, withEmpty, k) {
        if k != v {
          CompletedMono(before, root, now, withEmpty, k);
        }
      }
    }

    lemma EmptyEntryIsCompleted(before: Report, root: string, after: Report, v: string)
      requires v in dat && v in after && after[v] == NOTHING_TESTED && ShouldSkip(dat[v])
      requires Reach(TestGraph(), root, v)
      ensures Completed(before, root, after, v)
    {
      SkippedHasNoEdges(dat[v]);
    }

    /** A nested test of `v` leaves the test of `root` under way. */
    lemma NestedKeepsUnderWay(before: Report, root: string, now: Report, v: string, later: Report)
      requires ValidDat(dat) && UnderWay(before, root, now) && v !in now && Edge(TestGraph(), root, v)
      requires Outcome(now, v, later)
      ensures UnderWay(before, root, later)
      ensures v !in later ==> UnderWay(before, root, later[v := NOTHING_TESTED])
      ensures Extends(now, later)
    {
      EdgeWalk(TestGraph(), root, v);
      if ShouldSkip(dat[v]) {
        EmptyEntryKeepsUnderWay(before, root, now, v);
      } else {
        hide Setup.Completed, Setup.ShouldSkip, Setup.TestGraph, Reach;
        forall k | k in later && k !in before && k != root ensures Completed(before, root, later, k) {
          NestedKeepsCompleted(before, root, now, v, later, k);
        }
      }
    }

    /** The verdict that the test of `root` uses for its testpoint naming `v`. */
    lemma VerdictUsed(before: Report, root: string, now: Report, v: string, error: bool, pass: bool)
      requires ValidDat(dat) && UnderWay(before, root, now) && v in dat && v in now
      requires error ==> v !in before && v != root && Dangling(dat[v])
      requires pass == (!error && EvaluateDevice(now[v]))
      ensures MayRecord(before, root, root, v, pass)
    {
      if v !in before && v != root && !Dangling(dat[v]) {
        assert Completed(before, root, now, v);
        VerdictIsOwn(before, root, v, now[v]);
      }
    }

    lemma TpsStep(before: Report, root: string, k: string, tps: seq<TestPoint>, j: nat,
                  rs: seq<TestPointResult>, r: TestPointResult)
      requires j < |tps| && TpsRecorded(before, root, k, tps[..j], rs) && TpRecorded(before, root, k, tps[j], r)
      ensures TpsRecorded(before, root, k, tps[..j + 1], [r] + rs)
    {
      var done := tps[..j + 1];
      forall i | 0 <= i < |done| ensures TpRecorded(before, root, k, done[i], ([r] + rs)[|done| - 1 - i]) {
        if i < j {
          assert TpRecorded(before, root, k, tps[..j][i], rs[j - 1 - i]);
        }
      }
    }

    lemma LayersStep(before: Report, root: string, k: string, layers: seq<TestLayer>, i: nat,
                     lrs: seq<LayerResult>, lr: LayerResult)
      requires i < |layers| && LayersRecorded(before, root, k, layers[..i], lrs)
      requires LayerRecorded(before, root, k, layers[i], lr)
      ensures LayersRecorded(before, root, k, layers[..i + 1], lrs + [lr])
    {
      forall n | 0 <= n < i + 1 ensures LayerRecorded(before, root, k, layers[..i + 1][n], (lrs + [lr])[n]) {
        if n < i {
          assert LayerRecorded(before, root, k, layers[..i][n], lrs[n]);
        }
      }
    }

    lemma SoFarStep(dev: Device, i: nat, j: nat, now: Report)
      requires i < |dev.test| && j < |dev.test[i].testPoints|
      requires SoFar(Taken(dev, i, j), now)
      requires var a := dev.test[i].testPoints[j].accessor;
        a.DeviceAccessor? ==> a.deviceName in dat && a.deviceName in now
      ensures SoFar(Taken(dev, i, j + 1), now)
    {
      var tps := dev.test[i].testPoints;
      assert tps[..j + 1] == tps[..j] + [tps[j]];
    }

    /** The testpoints handled before testpoint `j` of layer `i`. */
    ghost function Taken(dev: Device, i: nat, j: nat): seq<TestPoint>
      requires i < |dev.test| && j <= |dev.test[i].testPoints|
    {
      Flat(dev.test[..i], Except(layersToIgnore)) + dev.test[i].testPoints[..j]
    }

    lemma TakenSplit(dev: Device, i: nat, j: nat) returns (rest: seq<TestPoint>)
      requires i < |dev.test| && j < |dev.test[i].testPoints| && dev.test[i].name !in layersToIgnore
      ensures Tested(dev) == Taken(dev, i, j) + [dev.test[i].testPoints[j]] + rest
    {
      var tps := dev.test[i].testPoints;
      rest := tps[j + 1..] + Flat(dev.test[i + 1..], Except(layersToIgnore));
      FlatSplit(dev.test, Except(layersToIgnore), i);
      assert dev.test[i..][1..] == dev.test[i + 1..];
      assert tps == tps[..j] + [tps[j]] + tps[j + 1..];
    }

    lemma Begin(before: Report, dev: Device)
      requires dev.name in dat && dat[dev.name] == dev
      ensures dev.name in before || ShouldSkip(dev) ==> Outcome(before, dev.name, before)
      ensures dev.name !in before ==> UnderWay(before, dev.name, before[dev.name := NOTHING_TESTED])
      ensures LayersRecorded(before, dev.name, dev.name, dev.test[..0], [])
      ensures forall now :: SoFar(Flat(dev.test[..0], Except(layersToIgnore)), now)
    {
    }

    lemma BeginLayer(before: Report, dev: Device, i: nat, now: Report)
      requires i < |dev.test| && SoFar(Flat(dev.test[..i], Except(layersToIgnore)), now)
      ensures SoFar(Taken(dev, i, 0), now)
      ensures TpsRecorded(before, dev.name, dev.name, dev.test[i].testPoints[..0], [])
      ensures TpsRecorded(before, dev.name, dev.name, [], [])
    {
    }

    lemma EndLayer(dev: Device, i: nat, now: Report)
      requires i < |dev.test| && dev.test[i].name !in layersToIgnore
      requires SoFar(Taken(dev, i, |dev.test[i].testPoints|), now)
      ensures SoFar(Flat(dev.test[..i + 1], Except(layersToIgnore)), now)
    {
      FlatStep(dev.test, Except(layersToIgnore), i);
      assert dev.test[i].testPoints[..|dev.test[i].testPoints|] == dev.test[i].testPoints;
    }

    lemma IgnoreLayer(dev: Device, i: nat)
      requires i < |dev.test| && dev.test[i].name in layersToIgnore
      ensures Flat(dev.test[..i + 1], Except(layersToIgnore)) == Flat(dev.test[..i], Except(layersToIgnore))
    {
      FlatStep(dev.test, Except(layersToIgnore), i);
    }

    lemma CompletedMono(before: Report, root: string, now: Report, after: Report, k: string)
      requires Completed(before, root, now, k)
      requires now.Keys <= after.Keys && after[k] == now[k]
      ensures Completed(before, root, after, k)
    {
    }

    /** Storing the finished entry, or leaving the empty one of a dangling device,
        completes the test. */
    lemma Finish(before: Report, root: string, now: Report, e: DeviceResult)
      requires UnderWay(before, root, now) && !ShouldSkip(dat[root])
      requires forall v :: Edge(TestGraph(), root, v) ==> v in now
      requires Recorded(before, root, root, e)
      ensures Outcome(before, root, now[root := e])
    {
      hide Setup.Recorded, Setup.TestGraph;
      ReachSelf(TestGraph(), root);
      var after := now[root := e];
      forall k | k in after && k !in before ensures Completed(before, root, after, k) {
        if k != root {
          CompletedMono(before, root, now, after, k);
        }
      }
    }

    lemma FinishDangling(before: Report, root: string, now: Report)
      requires UnderWay(before, root, now) && !ShouldSkip(dat[root]) && Dangling(dat[root])
      requires forall v :: Edge(TestGraph(), root, v) ==> v in now
      ensures Outcome(before, root, now)
    {
      Finish(before, root, now, NOTHING_TESTED);
      assert now == now[root := NOTHING_TESTED];
    }

    lemma SoFarMono(tps: seq<TestPoint>, now: Report, later: Report)
      requires SoFar(tps, now) && Extends(now, later)
      ensures SoFar(tps, later)
    {
    }

    lemma TpIsRecorded(before: Report, root: string, k: string, tp: TestPoint, pass: bool)
      requires tp.accessor.DeviceAccessor? ==> MayRecord(before, root, k, tp.accessor.deviceName, pass)
      ensures tp.accessor.DeviceAccessor? ==> TpRecorded(before, root, k, tp, DeviceTpResult(tp, pass))
      ensures tp.accessor.PropertyAccessor? ==> TpRecorded(before, root, k, tp, OwnTpResult(k, tp, read))
    {
    }

    lemma Grown(before: Report, root: string, now: Report)
      requires UnderWay(before, root, now)
      ensures dat.Keys - now.Keys < dat.Keys - before.Keys
    {
      assert root in dat.Keys - before.Keys && root !in dat.Keys - now.Keys;
    }

    // ------------------------------------------------------------ the whole tree

    /** What testing devices one after another may turn `before` into. */
    ghost predicate TreeOutcome(before: Report, after: Report) {
      Extends(before, after) && forall k :: k in after && k !in before ==> TreeEntry(after, k)
    }

    ghost predicate TreeEntry(after: Report, k: string) {
      && k in dat && k in after
      && (forall v :: Edge(TestGraph(), k, v) ==> v in after)
      && (if Dangling(dat[k]) then after[k] == NOTHING_TESTED else EvaluateDevice(after[k]) == OwnPass(dat[k]))
      && (!ShouldSkip(dat[k]) || exists p :: Edge(TestGraph(), p, k))
    }

    /** The test of `d` reports an error: it is new and names a device that does not exist. */
    ghost predicate Fails(before: Report, d: string) {
      d in dat && d !in before && !ShouldSkip(dat[d]) && Dangling(dat[d])
    }

    /** The reports from device to device; the first error ends the walk. */
    ghost predicate Walk(order: seq<string>, reports: seq<Report>, rc: RcCode) {
      && 0 < |reports| <= |order| + 1
      && (forall i :: 0 <= i < |reports| - 1 ==> Outcome(reports[i], order[i], reports[i + 1]))
      && (forall i :: 0 <= i < |reports| - 2 ==> !Fails(reports[i], order[i]))
      && (rc.Succ? ==> |reports| == |order| + 1)
      && (rc.Error? <==> |reports| > 1 && Fails(reports[|reports| - 2], order[|reports| - 2]))
    }

    ghost predicate WalkSoFar(order: seq<string>, reports: seq<Report>) {
      && 0 < |reports| <= |order| + 1
      && forall i :: 0 <= i < |reports| - 1 ==>
        Outcome(reports[i], order[i], reports[i + 1]) && !Fails(reports[i], order[i])
    }

    lemma WalkBegins(order: seq<string>, before: Report)
      ensures WalkSoFar(order, [before])
    {
    }

    lemma WalkOn(order: seq<string>, reports: seq<Report>, later: Report, rc: RcCode)
      requires WalkSoFar(order, reports) && |reports| <= |order|
      requires Outcome(reports[|reports| - 1], order[|reports| - 1], later)
      requires rc.Error? <==> Fails(reports[|reports| - 1], order[|reports| - 1])
      ensures rc.Succ? ==> WalkSoFar(order, reports + [later])
      ensures rc.Error? ==> Walk(order, reports + [later], Error)
    {
      hide Setup.Outcome, Setup.Fails;
    }

    lemma WalkEnds(order: seq<string>, reports: seq<Report>)
      requires WalkSoFar(order, reports) && |reports| == |order| + 1
      ensures Walk(order, reports, Succ)
    {
    }

    lemma TreeBegin(before: Report)
      ensures TreeOutcome(before, before)
    {
    }

    lemma RootReported(before: Report, root: string, after: Report)
      requires Outcome(before, root, after)
      ensures !ShouldSkip(dat[root]) ==> root in after
    {
    }

    lemma TreeStep(before: Report, now: Report, root: string, later: Report)
      requires ValidDat(dat) && TreeOutcome(before, now) && Outcome(now, root, later)
      ensures TreeOutcome(before, later) && now.Keys <= later.Keys
    {
      forall k | k in later && k !in before ensures TreeEntry(later, k) {
        if k in now {
          assert TreeEntry(now, k);
        } else {
          assert Completed(now, root, later, k);
          if !Dangling(dat[k]) {
            VerdictIsOwn(now, root, k, later[k]);
          }
          var n: nat :| ReachIn(TestGraph(), root, k, n);
          if n > 0 {
            var p :| ReachIn(TestGraph(), root, p, n - 1) && Edge(TestGraph(), p, k);
          }
        }
      }
    }
  }

  // -------------------------------------------------------------- the self-test

  class ReportResult {
    var entries: Report

    constructor ()
      ensures entries == map[]
    {
      entries := map[];
    }
  }

  class Selftest {
    const dat: Dat
    const read: Oracle

    constructor (dat: Dat, read: Oracle)
      ensures this.dat == dat && this.read == read
    {
      this.dat := dat;
      this.read := read;
    }

    ghost function Run(layersToIgnore: seq<string>): Setup {
      Setup(dat, layersToIgnore, read)
    }

    method Perform(dev: Device, reportRes: ReportResult, layersToIgnore: seq<string>) returns (rc: RcCode)
      requires ValidDat(dat) && dev.name in dat && dat[dev.name] == dev
      modifies reportRes
      ensures Run(layersToIgnore).Outcome(old(reportRes.entries), dev.name, reportRes.entries)
      ensures rc.Error? <==>
                && dev.name !in old(reportRes.entries)
                && !Run(layersToIgnore).ShouldSkip(dev) && Run(layersToIgnore).Dangling(dev)
      ensures Run(layersToIgnore).RunDevice(old(reportRes.entries), dev.name) == Ran(reportRes.entries, rc)
      decreases dat.Keys - reportRes.entries.Keys, 1
    {
      hide Setup.UnderWay, Setup.Outcome, Setup.TpRecorded, Setup.MayRecord, Setup.SoFar, Setup.TestGraph;
      hide Setup.LayersRecorded, Setup.TpsRecorded, Setup.Extends, Setup.Taken, Setup.Dangling, Flat, Targets;
      hide Setup.RunDevice, Setup.RunLayers, Setup.RunTps, Setup.RunNested;
      ghost var s := Run(layersToIgnore);
      ghost var before := reportRes.entries;
      s.Begin(before, dev);
      s.RunBegins(before, dev.name);
      var shouldSkip := !dev.kind.Regular? && !HasTestpoints(dev);
      if dev.name in reportRes.entries || shouldSkip {
        return Succ;
      }
      var deviceReport: seq<LayerResult> := [];
      // The entry is inserted first, so that a device that comes back to this one finds it.
      reportRes.entries := reportRes.entries[dev.name := NOTHING_TESTED];
      for i := 0 to |dev.test|
        invariant s.UnderWay(before, dev.name, reportRes.entries)
        invariant s.LayersRecorded(before, dev.name, dev.name, dev.test[..i], deviceReport)
        invariant s.SoFar(Flat(dev.test[..i], Except(layersToIgnore)), reportRes.entries)
        invariant s.LayersLeft(before, dev.name, reportRes.entries, i, deviceReport)
      {
        var tl := dev.test[i];
        var layerReport: seq<TestPointResult> := [];
        s.BeginLayer(before, dev, i, reportRes.entries);
        s.LayerBegins(before, dev.name, reportRes.entries, i, deviceReport);
        if tl.name !in layersToIgnore {
          for j := 0 to |tl.testPoints|
            invariant s.UnderWay(before, dev.name, reportRes.entries)
            invariant s.TpsRecorded(before, dev.name, dev.name, tl.testPoints[..j], layerReport)
            invariant s.SoFar(s.Taken(dev, i, j), reportRes.entries)
            invariant s.TpsLeft(before, dev.name, reportRes.entries, i, j, deviceReport, layerReport)
          {
            var tp := tl.testPoints[j];
            var tpResult;
            s.TpLeft(before, dev.name, reportRes.entries, i, j, deviceReport, layerReport);
            match tp.accessor {
              case DeviceAccessor(devName) =>
                ghost var rest := s.TakenSplit(dev, i, j);
                s.NextTarget(dev, s.Taken(dev, i, j), tp, rest, reportRes.entries);
                if devName !in dat {
                  s.FinishDangling(before, dev.name, reportRes.entries);
                  return Error;
                }
                s.Grown(before, dev.name, reportRes.entries);
                ghost var now := reportRes.entries;
                var devEvalRes := TestNested(dev, devName, reportRes, layersToIgnore, before);
                s.SoFarMono(s.Taken(dev, i, j), now, reportRes.entries);
                tpResult := FillTpRes(tp, if devEvalRes then OfString(tp.expectedValue) else OfText(REPORT_RESULT_FAIL),
                                      devName, true);
                s.TpIsRecorded(before, dev.name, dev.name, tp, devEvalRes);
              case PropertyAccessor(_) =>
                tpResult := FillTpRes(tp, read(tp.accessor, dev.name), tp.name, false);
                s.TpIsRecorded(before, dev.name, dev.name, tp, false);
            }
            s.TpsStep(before, dev.name, dev.name, tl.testPoints, j, layerReport, tpResult);
            s.SoFarStep(dev, i, j, reportRes.entries);
            layerReport := [tpResult] + layerReport;
          }
          assert tl.testPoints[..|tl.testPoints|] == tl.testPoints;
          s.EndLayer(dev, i, reportRes.entries);
          s.LayerEnds(before, dev.name, reportRes.entries, i, deviceReport, layerReport);
        } else {
          s.IgnoreLayer(dev, i);
        }
        s.LayersStep(before, dev.name, dev.name, dev.test, i, deviceReport, LayerResult(tl.name, layerReport));
        deviceReport := deviceReport + [LayerResult(tl.name, layerReport)];
      }
      assert dev.test[..|dev.test|] == dev.test;
      s.AllTargetsTaken(dev, reportRes.entries);
      s.RunEnds(before, dev.name, reportRes.entries, deviceReport);
      s.Finish(before, dev.name, reportRes.entries, DeviceResult(deviceReport));
      reportRes.entries := reportRes.entries[dev.name := DeviceResult(deviceReport)];
      return Succ;
    }

    /** The verdict on the device that a DEVICE testpoint of `dev` names: it is
        tested unless it is in the report already. */
    method TestNested(dev: Device, devName: string, reportRes: ReportResult, layersToIgnore: seq<string>,
                      ghost before: Report)
      returns (devEvalRes: bool)
      requires ValidDat(dat) && devName in dat
      requires Run(layersToIgnore).UnderWay(before, dev.name, reportRes.entries)
      requires Edge(Run(layersToIgnore).TestGraph(), dev.name, devName)
      modifies reportRes
      ensures Run(layersToIgnore).UnderWay(before, dev.name, reportRes.entries)
      ensures Run(layersToIgnore).Extends(old(reportRes.entries), reportRes.entries) && devName in reportRes.entries
      ensures Run(layersToIgnore).MayRecord(before, dev.name, dev.name, devName, devEvalRes)
      ensures devEvalRes == if Run(layersToIgnore).Fails(old(reportRes.entries), devName) then false
                            else EvaluateDevice(reportRes.entries[devName])
      ensures Run(layersToIgnore).RunNested(old(reportRes.entries), devName) == Nested(reportRes.entries, devEvalRes)
      decreases dat.Keys - reportRes.entries.Keys, 2
    {
      ghost var s := Run(layersToIgnore);
      ghost var now := reportRes.entries;
      var selftestRes := Succ;
      if devName !in reportRes.entries {
        selftestRes := Perform(dat[devName], reportRes, layersToIgnore);
        s.NestedKeepsUnderWay(before, dev.name, now, devName, reportRes.entries);
      }
      devEvalRes := false;
      if selftestRes.Succ? {
        // Looking up the entry of a skipped device inserts an empty one.
        if devName !in reportRes.entries {
          reportRes.entries := reportRes.entries[devName := NOTHING_TESTED];
        }
        devEvalRes := EvaluateDevice(reportRes.entries[devName]);
      }
      s.VerdictUsed(before, dev.name, reportRes.entries, devName, selftestRes.Error?, devEvalRes);
    }

    /** Tests every device of the tree, in the order in which the tree is walked. */
    method PerformEntireTree(order: seq<string>, reportRes: ReportResult, layersToIgnore: seq<string>)
      returns (rc: RcCode, ghost reports: seq<Report>)
      requires ValidDat(dat) && forall k :: k in order <==> k in dat
      modifies reportRes
      ensures Run(layersToIgnore).Walk(order, reports, rc)
      ensures reports[0] == old(reportRes.entries) && reports[|reports| - 1] == reportRes.entries
      ensures Run(layersToIgnore).TreeOutcome(old(reportRes.entries), reportRes.entries)
      ensures rc.Succ? ==> forall k :: k in dat && !Run(layersToIgnore).ShouldSkip(dat[k]) ==> k in reportRes.entries
    {
      hide Setup.Outcome, Setup.TestGraph, Setup.TreeOutcome, Setup.ShouldSkip, Setup.Dangling;
      hide Setup.WalkSoFar, Setup.Walk;
      ghost var s := Run(layersToIgnore);
      ghost var before := reportRes.entries;
      reports := [before];
      s.TreeBegin(before);
      s.WalkBegins(order, before);
      for i := 0 to |order|
        invariant |reports| == i + 1 && reports[0] == before && reports[i] == reportRes.entries
        invariant s.WalkSoFar(order, reports)
        invariant s.TreeOutcome(before, reportRes.entries)
        invariant forall q :: 0 <= q < i && !s.ShouldSkip(dat[order[q]]) ==> order[q] in reportRes.entries
      {
        ghost var now := reportRes.entries;
        var devRc := Perform(dat[order[i]], reportRes, layersToIgnore);
        s.TreeStep(before, now, order[i], reportRes.entries);
        s.RootReported(now, order[i], reportRes.entries);
        s.WalkOn(order, reports, reportRes.entries, devRc);
        reports := reports + [reportRes.entries];
        if devRc.Error? {
          return Error, reports;
        }
      }
      s.WalkEnds(order, reports);
      return Succ, reports;
    }
  }
}
