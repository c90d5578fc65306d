/** What the entries of a self-test report say about the readings and the profile, in
    terms of layers, testpoints and readings alone (src/selftest.cpp). */
module SelftestEntries {
  import opened PropertyValues
  import opened Graphs
  import opened DeviceTree
  import opened SelfTests
  import opened SelftestReport

  /** A reading passes if there is one and it is what is expected, if anything is:
      as an integer when both are integers, and otherwise as text. */
  predicate Meets(v: PropertyValue, expected: string) {
    && v.state != Empty
    && (expected == "" ||
        if v.state == Integer && OfString(expected).state == Integer
        then v.value64 == OfString(expected).value64
        else v.strValue == expected)
  }

  /** A testpoint of a layer that is not ignored. */
  predicate Examined(s: Setup, k: string, l: TestLayer, tp: TestPoint)
    requires k in s.dat
  {
    l in s.dat[k].test && l.name !in s.layersToIgnore && tp in l.testPoints
  }

  ghost predicate OwnReadingsMeet(s: Setup, k: string)
    requires k in s.dat
  {
    forall l, tp :: Examined(s, k, l, tp) && tp.accessor.PropertyAccessor? ==>
      Meets(s.read(tp.accessor, k), tp.expectedValue)
  }

  ghost predicate NamesMissing(s: Setup, k: string)
    requires k in s.dat
  {
    exists l, tp :: Examined(s, k, l, tp) && tp.accessor.DeviceAccessor? && tp.accessor.deviceName !in s.dat
  }

  /** What is recorded for a testpoint that reads a property. */
  predicate RecordsReading(r: TestPointResult, tp: TestPoint, v: PropertyValue) {
    && !r.isTypeDevice && r.targetName == tp.name && r.severity == tp.severity && r.valExpected == tp.expectedValue
    && r.valRead == (if v.state == Empty then "Error - TP read failed." else v.strValue)
    && (r.result <==> Meets(v, tp.expectedValue))
  }

  /** What is recorded for a testpoint that names a device. */
  predicate RecordsVerdict(r: TestPointResult, tp: TestPoint, pass: bool) {
    && tp.accessor.DeviceAccessor? && r.isTypeDevice && r.targetName == tp.accessor.deviceName
    && r.severity == tp.severity && r.valExpected == tp.expectedValue
    && r.valRead == (if pass then tp.expectedValue else "Fail")
    && (r.result <==> pass || tp.expectedValue == "" || tp.expectedValue == "Fail")
  }

  lemma OwnResultRecords(k: string, tp: TestPoint, read: Oracle)
    ensures RecordsReading(OwnTpResult(k, tp, read), tp, read(tp.accessor, k))
  {
  }

  lemma DeviceResultRecords(tp: TestPoint, pass: bool)
    requires tp.accessor.DeviceAccessor?
    ensures RecordsVerdict(DeviceTpResult(tp, pass), tp, pass)
  {
  }

  lemma TestedMeans(s: Setup, k: string, tp: TestPoint)
    requires k in s.dat
    ensures tp in s.Tested(s.dat[k]) <==> exists l :: Examined(s, k, l, tp)
  {
    FlatMembers(s.dat[k].test, Except(s.layersToIgnore), tp);
    assert forall l :: Examined(s, k, l, tp) <==>
      l in s.dat[k].test && Except(s.layersToIgnore).Has(l.name) && tp in l.testPoints;
  }

  /** The own verdict of a device in terms of its readings. */
  lemma OwnPassMeans(s: Setup, k: string)
    requires ValidDat(s.dat) && k in s.dat
    ensures s.OwnPass(s.dat[k]) <==> OwnReadingsMeet(s, k)
  {
    hide Setup.Tested, Meets, FillTpRes;
    forall tp ensures tp in s.Tested(s.dat[k]) <==> exists l :: Examined(s, k, l, tp) {
      TestedMeans(s, k, tp);
    }
    forall tp: TestPoint
      ensures OwnTpResult(k, tp, s.read).result <==> Meets(s.read(tp.accessor, k), tp.expectedValue)
    {
      OwnResultRecords(k, tp, s.read);
    }
    if s.OwnPass(s.dat[k]) {
      forall l, tp | Examined(s, k, l, tp) && tp.accessor.PropertyAccessor?
        ensures Meets(s.read(tp.accessor, k), tp.expectedValue)
      {
        assert tp in s.Tested(s.dat[k]);
      }
    }
    if OwnReadingsMeet(s, k) {
      forall tp | tp in s.Tested(s.dat[k]) && tp.accessor.PropertyAccessor?
        ensures OwnTpResult(k, tp, s.read).result
      {
        var l :| Examined(s, k, l, tp);
      }
    }
  }

  /** A device is dangling if a testpoint of a layer not ignored names a missing one. */
  lemma DanglingMeans(s: Setup, k: string)
    requires k in s.dat
    ensures s.Dangling(s.dat[k]) <==> NamesMissing(s, k)
  {
    hide Setup.Tested;
    TargetsMembers(s.Tested(s.dat[k]));
    forall tp ensures tp in s.Tested(s.dat[k]) <==> exists l :: Examined(s, k, l, tp) {
      TestedMeans(s, k, tp);
    }
    if NamesMissing(s, k) {
      var l, tp :| Examined(s, k, l, tp) && tp.accessor.DeviceAccessor? && tp.accessor.deviceName !in s.dat;
      assert tp.accessor == DeviceAccessor(tp.accessor.deviceName);
      assert tp.accessor.deviceName in Targets(s.Tested(s.dat[k]));
    }
  }

  /** The verdict on every new entry: the device passes exactly if all its own readings in
      layers not ignored are there and as expected. */
  lemma EntryVerdict(s: Setup, before: Report, root: string, after: Report, k: string)
    requires ValidDat(s.dat) && s.Outcome(before, root, after)
    requires k in after && k !in before && k in s.dat && !NamesMissing(s, k)
    ensures EvaluateDevice(after[k]) <==> OwnReadingsMeet(s, k)
  {
    DanglingMeans(s, k);
    VerdictOfNewEntry(s, before, root, after, k);
    OwnPassMeans(s, k);
  }

  /** A device gets an entry by its own test exactly if it is regular or has a testpoint. */
  lemma EntryIff(s: Setup, before: Report, root: string, after: Report)
    requires s.Outcome(before, root, after)
    ensures root in after <==>
      root in before || s.dat[root].kind == Regular || exists l :: l in s.dat[root].test && l.testPoints != []
  {
  }

  /** When the test of a device reports an error. */
  lemma FailsMeans(s: Setup, before: Report, k: string)
    requires k in s.dat
    ensures s.Fails(before, k) <==> k !in before && NamesMissing(s, k)
  {
    DanglingMeans(s, k);
    if s.ShouldSkip(s.dat[k]) {
      s.SkippedHasNoEdges(s.dat[k]);
    }
  }

  /** From a device that names no missing one, the test moves on to exactly the devices
      that testpoints of layers not ignored name. */
  lemma EdgeMeans(s: Setup, a: string, b: string)
    requires a in s.dat && !NamesMissing(s, a)
    ensures Edge(s.TestGraph(), a, b) <==> exists l, tp :: Examined(s, a, l, tp) && tp.accessor == DeviceAccessor(b)
  {
    DanglingMeans(s, a);
    s.NotDanglingVisitsAll(s.dat[a]);
    TargetsMembers(s.Tested(s.dat[a]));
    forall tp ensures tp in s.Tested(s.dat[a]) <==> exists l :: Examined(s, a, l, tp) {
      TestedMeans(s, a, tp);
    }
  }

  /** The verdict recorded for a device `v` in the entry of `k`: that of the report to
      start from, or the device's own, or a pass if `v` is on a way back from `k`. */
  ghost predicate VerdictFor(s: Setup, before: Report, root: string, k: string, v: string, pass: bool) {
    v in s.dat &&
    if v in before then pass == EvaluateDevice(before[v])
    else if NamesMissing(s, v) then true
    else
      && (OwnReadingsMeet(s, v) ==> pass)
      && (pass ==> OwnReadingsMeet(s, v) || Reach(s.TestGraph(), v, k))
  }

  ghost predicate Records(s: Setup, before: Report, root: string, k: string, tp: TestPoint, r: TestPointResult) {
    match tp.accessor
    case PropertyAccessor(_) => RecordsReading(r, tp, s.read(tp.accessor, k))
    case DeviceAccessor(v) => exists pass :: VerdictFor(s, before, root, k, v, pass) && RecordsVerdict(r, tp, pass)
  }

  lemma RecordedMeans(s: Setup, before: Report, root: string, k: string, tp: TestPoint, r: TestPointResult)
    requires ValidDat(s.dat) && Reach(s.TestGraph(), root, k) && s.TpRecorded(before, root, k, tp, r)
    ensures Records(s, before, root, k, tp, r)
  {
    hide Setup.OwnPass, FillTpRes, Meets, OwnReadingsMeet, NamesMissing, Setup.Dangling, RecordsVerdict;
    match tp.accessor
    case PropertyAccessor(_) => OwnResultRecords(k, tp, s.read);
    case DeviceAccessor(v) =>
      assert s.MayRecord(before, root, k, v, true) || s.MayRecord(before, root, k, v, false);
      var pass :| s.MayRecord(before, root, k, v, pass) && r == DeviceTpResult(tp, pass);
      DeviceResultRecords(tp, pass);
      OwnPassMeans(s, v);
      DanglingMeans(s, v);
      assert s.MayRecord(before, root, k, v, pass);
      assert v in s.dat;
      assert v in before ==> pass == EvaluateDevice(before[v]);
      assert v !in before && v == root ==> pass && Reach(s.TestGraph(), v, k);
      assert v !in before && v != root && !NamesMissing(s, v) ==>
        pass == s.OwnPass(s.dat[v]) || (pass && Reach(s.TestGraph(), v, k));
      assert VerdictFor(s, before, root, k, v, pass);
  }

  /** One result per testpoint, the last testpoint first. */
  ghost predicate RecordsAll(s: Setup, before: Report, root: string, k: string, tps: seq<TestPoint>,
                             rs: seq<TestPointResult>)
  {
    |rs| == |tps| && forall j :: 0 <= j < |tps| ==> Records(s, before, root, k, tps[j], rs[|tps| - 1 - j])
  }

  /** One layer: no result if the layer is ignored. */
  ghost predicate RecordsLayer(s: Setup, before: Report, root: string, k: string, l: TestLayer, lr: LayerResult) {
    lr.name == l.name &&
    if l.name in s.layersToIgnore then lr.results == [] else RecordsAll(s, before, root, k, l.testPoints, lr.results)
  }

  lemma TpsMean(s: Setup, before: Report, root: string, k: string, tps: seq<TestPoint>, rs: seq<TestPointResult>)
    requires ValidDat(s.dat) && Reach(s.TestGraph(), root, k) && s.TpsRecorded(before, root, k, tps, rs)
    ensures RecordsAll(s, before, root, k, tps, rs)
  {
    hide Setup.TpRecorded, Records, Reach, Setup.TestGraph, ValidDat;
    forall j | 0 <= j < |tps| ensures Records(s, before, root, k, tps[j], rs[|tps| - 1 - j]) {
      assert s.TpRecorded(before, root, k, tps[j], rs[|tps| - 1 - j]);
      RecordedMeans(s, before, root, k, tps[j], rs[|tps| - 1 - j]);
    }
  }

  lemma LayerMeans(s: Setup, before: Report, root: string, k: string, l: TestLayer, lr: LayerResult)
    requires ValidDat(s.dat) && Reach(s.TestGraph(), root, k) && s.LayerRecorded(before, root, k, l, lr)
    ensures RecordsLayer(s, before, root, k, l, lr)
  {
    if l.name in s.layersToIgnore {
      assert s.TpsRecorded(before, root, k, [], lr.results);
      assert |lr.results| == 0;
    } else {
      hide Setup.TpsRecorded, RecordsAll, Reach, Setup.TestGraph, ValidDat;
      TpsMean(s, before, root, k, l.testPoints, lr.results);
    }
  }

  /** The contents of every new entry: a list of results for each layer. */
  lemma EntryContents(s: Setup, before: Report, root: string, after: Report, k: string)
    requires ValidDat(s.dat) && s.Outcome(before, root, after)
    requires k in after && k !in before && k in s.dat && !NamesMissing(s, k)
    requires s.dat[k].kind == Regular || exists l :: l in s.dat[k].test && l.testPoints != []
    ensures |after[k].layer| == |s.dat[k].test|
    ensures forall i :: 0 <= i < |s.dat[k].test| ==>
      RecordsLayer(s, before, root, k, s.dat[k].test[i], after[k].layer[i])
  {
    hide RecordsLayer, NamesMissing, Setup.LayerRecorded, Setup.TestGraph, Reach;
    DanglingMeans(s, k);
    assert s.Completed(before, root, after, k);
    assert !s.ShouldSkip(s.dat[k]);
    assert s.LayersRecorded(before, root, k, s.dat[k].test, after[k].layer);
    forall i | 0 <= i < |s.dat[k].test|
      ensures RecordsLayer(s, before, root, k, s.dat[k].test[i], after[k].layer[i])
    {
      LayerMeans(s, before, root, k, s.dat[k].test[i], after[k].layer[i]);
    }
  }

  /** What testing a device by itself gives for a testpoint. */
  ghost predicate ShowsOwn(s: Setup, k: string, tp: TestPoint, r: TestPointResult) {
    match tp.accessor
    case PropertyAccessor(_) => RecordsReading(r, tp, s.read(tp.accessor, k))
    case DeviceAccessor(v) => v in s.dat && RecordsVerdict(r, tp, OwnReadingsMeet(s, v))
  }

  ghost predicate AllShowOwn(s: Setup, k: string, tps: seq<TestPoint>, rs: seq<TestPointResult>) {
    |rs| == |tps| && forall j :: 0 <= j < |tps| ==> ShowsOwn(s, k, tps[j], rs[|tps| - 1 - j])
  }

  /** The entry computed from a device alone, result by result: every testpoint that names
      a device shows that device's own verdict. */
  lemma IdealEntryContents(s: Setup, k: string, i: nat)
    requires ValidDat(s.dat) && s.Closed() && k in s.dat && i < |s.dat[k].test|
    requires s.dat[k].kind == Regular || exists l :: l in s.dat[k].test && l.testPoints != []
    ensures |IdealEntry(s, k).layer| == |s.dat[k].test|
    ensures
      var l, lr := s.dat[k].test[i], IdealEntry(s, k).layer[i];
      lr.name == l.name &&
      if l.name in s.layersToIgnore then lr.results == [] else AllShowOwn(s, k, l.testPoints, lr.results)
  {
    var l := s.dat[k].test[i];
    if l.name in s.layersToIgnore {
      assert |IdealTps(s, k, [])| == 0;
    } else {
      hide AllShowOwn, IdealTps;
      IdealTpsMean(s, k, l);
    }
  }

  lemma IdealTpsMean(s: Setup, k: string, l: TestLayer)
    requires ValidDat(s.dat) && s.Closed() && k in s.dat
    requires l in s.dat[k].test && l.name !in s.layersToIgnore
    ensures AllShowOwn(s, k, l.testPoints, IdealTps(s, k, l.testPoints))
  {
    var tps, rs := l.testPoints, IdealTps(s, k, l.testPoints);
    hide ShowsOwn, IdealTp, IdealTps, Setup.Closed, ValidDat;
    forall j | 0 <= j < |tps| ensures ShowsOwn(s, k, tps[j], rs[|tps| - 1 - j]) {
      assert tps[j] in tps;
      IdealTpMeans(s, k, l, tps[j]);
    }
  }

  lemma IdealTpMeans(s: Setup, k: string, l: TestLayer, tp: TestPoint)
    requires ValidDat(s.dat) && s.Closed() && k in s.dat && Examined(s, k, l, tp)
    ensures ShowsOwn(s, k, tp, IdealTp(s, k, tp))
  {
    hide Setup.OwnPass, FillTpRes, RecordsReading, RecordsVerdict, OwnReadingsMeet;
    match tp.accessor
    case PropertyAccessor(_) => OwnResultRecords(k, tp, s.read);
    case DeviceAccessor(v) =>
      DanglingMeans(s, k);
      assert v in s.dat;
      OwnPassMeans(s, v);
      DeviceResultRecords(tp, s.OwnPass(s.dat[v]));
  }

  /** The report of the whole tree passes exactly if every reading of every device does. */
  lemma EntireTreeVerdict(s: Setup, after: Report)
    requires ValidDat(s.dat) && (forall k :: k in s.dat ==> !NamesMissing(s, k)) && s.TreeOutcome(map[], after)
    requires forall k :: k in s.dat && !s.ShouldSkip(s.dat[k]) ==> k in after
    ensures EvaluateTestReport(after) <==> forall k :: k in s.dat ==> OwnReadingsMeet(s, k)
  {
    hide OwnReadingsMeet, Setup.OwnPass, NamesMissing, Setup.Dangling;
    forall k | k in s.dat
      ensures !s.Dangling(s.dat[k]) && (s.OwnPass(s.dat[k]) <==> OwnReadingsMeet(s, k))
    {
      DanglingMeans(s, k);
      OwnPassMeans(s, k);
    }
    assert s.Closed();
    EntireTreeReport(s, after);
  }
}
