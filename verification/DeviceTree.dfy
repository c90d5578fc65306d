/** The configured part of the Device Association Tree: what is read from the
    profile and never changes afterwards.  The "tree" is a general graph. */
module DeviceTree {
  import opened Graphs

  datatype Severity = OK | Warning | Critical

  datatype DeviceType = UnknownType | Regular | Sensor | Port | Software

  /** A testpoint either refers to another device or reads some property. */
  datatype Accessor = DeviceAccessor(deviceName: string) | PropertyAccessor(spec: string)

  datatype TestPoint = TestPoint(name: string, accessor: Accessor, expectedValue: string, severity: Severity)

  datatype TestLayer = TestLayer(name: string, testPoints: seq<TestPoint>)

  /** Layers and testpoints are in the order in which the ordered maps that hold
      them are walked. */
  datatype Device = Device(name: string, kind: DeviceType, association: seq<string>, test: seq<TestLayer>)

  type Dat = map<string, Device>

  ghost predicate ValidDat(dat: Dat) {
    forall k :: k in dat ==> dat[k].name == k
  }

  predicate HasTestpoints(dev: Device) {
    exists l :: l in dev.test && l.testPoints != []
  }

  /** A choice of test layers by name. */
  datatype LayerChoice = AllLayers | Only(names: seq<string>) | Except(names: seq<string>) {
    predicate Has(layer: string) {
      match this
      case AllLayers => true
      case Only(names) => layer in names
      case Except(names) => layer !in names
    }
  }

  /** The testpoints of the chosen layers, in order. */
  function Flat(layers: seq<TestLayer>, keep: LayerChoice): seq<TestPoint> {
    if layers == [] then []
    else (if keep.Has(layers[0].name) then layers[0].testPoints else []) + Flat(layers[1..], keep)
  }

  /** The devices named by DEVICE testpoints, in order, with repetitions. */
  function Targets(tps: seq<TestPoint>): seq<string> {
    if tps == [] then []
    else if tps[0].accessor.DeviceAccessor? then [tps[0].accessor.deviceName] + Targets(tps[1..])
    else Targets(tps[1..])
  }

  lemma {:induction false} FlatStep(layers: seq<TestLayer>, keep: LayerChoice, i: nat)
    requires i < |layers|
    ensures Flat(layers[..i + 1], keep)
         == Flat(layers[..i], keep) + (if keep.Has(layers[i].name) then layers[i].testPoints else [])
  {
    if i == 0 {
      assert layers[..1][1..] == [] && layers[..0] == [];
    } else {
      FlatStep(layers[1..], keep, i - 1);
      assert layers[..i + 1][1..] == layers[1..][..i];
      assert layers[..i][1..] == layers[1..][..i - 1];
    }
  }

  lemma {:induction false} FlatSplit(layers: seq<TestLayer>, keep: LayerChoice, i: nat)
    requires i <= |layers|
    ensures Flat(layers, keep) == Flat(layers[..i], keep) + Flat(layers[i..], keep)
  {
    if i == 0 {
      assert layers[..0] == [] && layers[0..] == layers;
    } else {
      FlatSplit(layers[1..], keep, i - 1);
      assert layers[..i][1..] == layers[1..][..i - 1];
      assert layers[i..] == layers[1..][i - 1..];
    }
  }

  lemma {:induction false} TargetsMembers(tps: seq<TestPoint>)
    ensures forall v :: v in Targets(tps) <==> exists t :: t in tps && t.accessor == DeviceAccessor(v)
  {
    if tps != [] {
      TargetsMembers(tps[1..]);
      assert tps == [tps[0]] + tps[1..];
    }
  }

  lemma {:induction false} NoTestpointsNoTargets(layers: seq<TestLayer>, keep: LayerChoice)
    requires forall l :: l in layers ==> l.testPoints == []
    ensures Flat(layers, keep) == []
  {
    if layers != [] {
      assert layers[0] in layers;
      NoTestpointsNoTargets(layers[1..], keep);
    }
  }

  lemma {:induction false} FlatMembers(layers: seq<TestLayer>, keep: LayerChoice, tp: TestPoint)
    ensures tp in Flat(layers, keep) <==> exists l :: l in layers && keep.Has(l.name) && tp in l.testPoints
  {
    if layers != [] {
      FlatMembers(layers[1..], keep, tp);
      assert layers == [layers[0]] + layers[1..];
    }
  }
}
