/** Reading an index back from a device name: when evaluation is one-to-one, and
    the fast inverse of tools/device-id-lang/ids.py against plain matching. */
module InversePatterns {
  import opened PropertyValues
  import opened Decimals
  import MixedRadix
  import opened PatternIndexes
  import opened CartesianProducts
  import opened Patterns

  // ------------------------------------------------------------- digit capture

  predicate IsNumeral(s: string) {
    s != "" && AllDigits(s)
  }

  /** Fragments and numerals by turns. */
  function Weave(fragments: seq<string>, numerals: seq<string>): string
    requires |fragments| == |numerals| + 1
  {
    if numerals == [] then fragments[0] else fragments[0] + numerals[0] + Weave(fragments[1..], numerals[1..])
  }

  /** The length of the longest prefix of digits. */
  function DigitRun(s: string): (n: nat)
    ensures n <= |s| && AllDigits(s[..n]) && (n < |s| ==> !IsDigit(s[n]))
  {
    if s != "" && IsDigit(s[0]) then
      var n := DigitRun(s[1..]);
      assert forall i :: 0 < i < n + 1 ==> s[i] == s[1..][i - 1];
      n + 1
    else 0
  }

  /** Matching `^f0([0-9]+)f1...([0-9]+)fn$`: every group takes as many digits as it
      can and gives them back one by one; the end may be followed by a line feed. */
  function Capture(fragments: seq<string>, s: string): Option<seq<string>>
    requires fragments != []
    decreases |fragments|, 0, |s|
  {
    if !(fragments[0] <= s) then None
    else
      var rest := s[|fragments[0]|..];
      if |fragments| == 1 then (if rest == "" || rest == "\n" then Some([]) else None)
      else CaptureGroup(fragments[1..], rest, DigitRun(rest))
  }

  function CaptureGroup(fragments: seq<string>, rest: string, k: nat): Option<seq<string>>
    requires fragments != [] && k <= |rest|
    decreases |fragments|, 1, k
  {
    if k == 0 then None
    else
      match Capture(fragments, rest[k..])
      case Some(groups) => Some([rest[..k]] + groups)
      case None => CaptureGroup(fragments, rest, k - 1)
  }

  lemma {:induction false} CaptureSound(fragments: seq<string>, s: string)
    requires fragments != [] && Capture(fragments, s).Some?
    ensures var groups := Capture(fragments, s).value;
      && |fragments| == |groups| + 1 && (forall i :: 0 <= i < |groups| ==> IsNumeral(groups[i]))
      && (s == Weave(fragments, groups) || s == Weave(fragments, groups) + "\n")
    decreases |fragments|, 0, |s|
  {
    var rest := s[|fragments[0]|..];
    assert s == fragments[0] + rest;
    if |fragments| > 1 {
      CaptureGroupSound(fragments[1..], rest, DigitRun(rest));
      WeaveOneMore(fragments, Capture(fragments, s).value, rest);
    }
  }

  lemma WeaveOneMore(fragments: seq<string>, groups: seq<string>, rest: string)
    requires |fragments| == |groups| + 1 > 1
    ensures rest == groups[0] + Weave(fragments[1..], groups[1..]) ==>
      fragments[0] + rest == Weave(fragments, groups)
    ensures rest == groups[0] + Weave(fragments[1..], groups[1..]) + "\n" ==>
      fragments[0] + rest == Weave(fragments, groups) + "\n"
  {
    var f, g, tail := fragments[0], groups[0], Weave(fragments[1..], groups[1..]);
    assert f + (g + tail) == f + g + tail;
    assert f + (g + tail + "\n") == f + g + tail + "\n";
  }

  lemma {:induction false} CaptureGroupSound(fragments: seq<string>, rest: string, k: nat)
    requires fragments != [] && k <= |rest| && AllDigits(rest[..k]) && CaptureGroup(fragments, rest, k).Some?
    ensures var groups := CaptureGroup(fragments, rest, k).value;
      && |groups| == |fragments| && (forall i :: 0 <= i < |groups| ==> IsNumeral(groups[i]))
      && (rest == groups[0] + Weave(fragments, groups[1..])
          || rest == groups[0] + Weave(fragments, groups[1..]) + "\n")
    decreases |fragments|, 1, k
  {
    if Capture(fragments, rest[k..]).Some? {
      CaptureSound(fragments, rest[k..]);
      var groups := CaptureGroup(fragments, rest, k).value;
      assert groups[1..] == Capture(fragments, rest[k..]).value;
      assert rest == rest[..k] + rest[k..];
    } else {
      assert forall i :: 0 <= i < k - 1 ==> rest[..k - 1][i] == rest[..k][i];
      CaptureGroupSound(fragments, rest, k - 1);
    }
  }

  /** Between two brackets there is text with something else than digits in it. */
  predicate Separated(fragments: seq<string>) {
    forall i :: 0 < i < |fragments| - 1 ==> !AllDigits(fragments[i])
  }

  /** Under that condition the capture finds the numerals that were written. */
  lemma {:induction false} CaptureFindsNumerals(fragments: seq<string>, numerals: seq<string>)
    requires |fragments| == |numerals| + 1 && Separated(fragments)
    requires forall i :: 0 <= i < |numerals| ==> IsNumeral(numerals[i])
    ensures Capture(fragments, Weave(fragments, numerals)) == Some(numerals)
    decreases |numerals|
  {
    if numerals == [] {
      assert Weave(fragments, numerals)[|fragments[0]|..] == "";
    } else {
      forall i | 0 < i < |fragments[1..]| - 1 ensures !AllDigits(fragments[1..][i]) {
        assert fragments[1..][i] == fragments[i + 1];
      }
      CaptureFindsNumerals(fragments[1..], numerals[1..]);
      var tail := Weave(fragments[1..], numerals[1..]);
      WeaveStart(fragments[1..], numerals[1..]);
      CaptureStep(fragments, numerals[0], tail, numerals[1..]);
      assert [numerals[0]] + numerals[1..] == numerals;
    }
  }

  lemma WeaveStart(fragments: seq<string>, numerals: seq<string>)
    requires |fragments| == |numerals| + 1
    ensures fragments[0] <= Weave(fragments, numerals)
    ensures |fragments| == 1 ==> |Weave(fragments, numerals)| == |fragments[0]|
  {
  }

  lemma CaptureStep(fragments: seq<string>, g: string, tail: string, groups: seq<string>)
    requires |fragments| >= 2 && IsNumeral(g) && Capture(fragments[1..], tail) == Some(groups)
    requires fragments[1] <= tail
    requires if |fragments| > 2 then !AllDigits(fragments[1]) else |tail| == |fragments[1]|
    ensures Capture(fragments, fragments[0] + g + tail) == Some([g] + groups)
  {
    hide DigitRun, CaptureGroup, Capture, AllDigits;
    var rest := g + tail;
    assert fragments[0] + g + tail == fragments[0] + rest;
    CaptureUnfold(fragments, rest);
    assert rest[|g|..] == tail && rest[..|g|] == g;
    DigitRunSplit(g, tail);
    forall m | |g| < m <= DigitRun(rest) ensures !(fragments[1] <= rest[m..]) {
      assert rest[m..] == tail[m - |g|..];
      if |fragments| > 2 {
        StandsOnce(fragments[1], tail, m - |g|);
      }
    }
    LongerGroupsFail(fragments[1..], rest, |g|, DigitRun(rest));
  }

  /** Text with more than digits in it does not occur again among the digits it starts with. */
  lemma StandsOnce(f: string, tail: string, d: nat)
    requires f <= tail && !AllDigits(f) && 0 < d <= DigitRun(tail)
    ensures !(f <= tail[d..])
  {
    hide DigitRun;
    var p := DigitRun(tail);
    forall i | 0 <= i < p && i < |f| ensures IsDigit(f[i]) {
      assert tail[..p][i] == f[i];
    }
    if p < |f| {
      assert tail[d..][p - d] == tail[p] == f[p];
    }
  }

  lemma CaptureUnfold(fragments: seq<string>, rest: string)
    requires |fragments| >= 2
    ensures Capture(fragments, fragments[0] + rest) == CaptureGroup(fragments[1..], rest, DigitRun(rest))
  {
    hide CaptureGroup, DigitRun;
    var s := fragments[0] + rest;
    assert s[|fragments[0]|..] == rest;
  }

  lemma {:induction false} DigitRunSplit(g: string, tail: string)
    requires AllDigits(g)
    ensures DigitRun(g + tail) == |g| + DigitRun(tail)
  {
    if g == "" {
      assert g + tail == tail;
    } else {
      DigitRunSplit(g[1..], tail);
      assert (g + tail)[1..] == g[1..] + tail;
    }
  }

  /** Groups longer than the numeral fail, because the next fragment does not follow them. */
  lemma {:induction false} LongerGroupsFail(fragments: seq<string>, rest: string, n: nat, k: nat)
    requires fragments != [] && 0 < n <= k <= |rest|
    requires forall m :: n < m <= k ==> !(fragments[0] <= rest[m..])
    requires Capture(fragments, rest[n..]).Some?
    ensures CaptureGroup(fragments, rest, k) == Some([rest[..n]] + Capture(fragments, rest[n..]).value)
    decreases k
  {
    if k > n {
      assert !(fragments[0] <= rest[k..]);
      LongerGroupsFail(fragments, rest, n, k - 1);
    }
  }

  /** A way to read the string: digits for every group, up to a final line feed. */
  ghost predicate Reading(fragments: seq<string>, s: string, groups: seq<string>) {
    && |fragments| == |groups| + 1 && (forall i :: 0 <= i < |groups| ==> IsNumeral(groups[i]))
    && (s == Weave(fragments, groups) || s == Weave(fragments, groups) + "\n")
  }

  /** The first group in which two readings differ in length is longer in the first one. */
  ghost predicate Greedier(a: seq<string>, b: seq<string>) {
    a == b || exists i :: 0 <= i < |a| && i < |b| && a[..i] == b[..i] && |a[i]| > |b[i]|
  }

  /** The capture finds a reading whenever there is one, and the greediest of all. */
  lemma {:induction false} CaptureIsGreedy(fragments: seq<string>, s: string, groups: seq<string>)
    requires fragments != [] && Reading(fragments, s, groups)
    ensures Capture(fragments, s).Some? && Greedier(Capture(fragments, s).value, groups)
    decreases |fragments|, 0, |s|
  {
    hide Greedier;
    ReadingStarts(fragments, s, groups);
    var rest := s[|fragments[0]|..];
    if |fragments| == 1 {
      SameIsGreedier(groups);
      assert Capture(fragments, s) == Some([]) && groups == [];
    } else {
      var n := |groups[0]|;
      DigitsWithin(rest, n);
      GroupIsGreedy(fragments[1..], rest, groups, DigitRun(rest));
    }
  }

  lemma SameIsGreedier(a: seq<string>)
    ensures Greedier(a, a)
  {
  }

  lemma ReadingStarts(fragments: seq<string>, s: string, groups: seq<string>)
    requires fragments != [] && Reading(fragments, s, groups)
    ensures fragments[0] <= s
    ensures |fragments| == 1 ==> groups == [] && (s[|fragments[0]|..] == "" || s[|fragments[0]|..] == "\n")
    ensures |fragments| > 1 ==>
      groups != [] && IsNumeral(groups[0])
      && var rest := s[|fragments[0]|..];
         |groups[0]| <= |rest| && rest[..|groups[0]|] == groups[0]
         && Reading(fragments[1..], rest[|groups[0]|..], groups[1..])
  {
    var f := fragments[0];
    if |fragments| > 1 {
      var g, tail := groups[0], Weave(fragments[1..], groups[1..]);
      assert f + g + tail == f + (g + tail) && f + g + tail + "\n" == f + (g + (tail + "\n"));
      var rest := s[|f|..];
      assert rest == g + tail || rest == g + (tail + "\n");
      assert rest[|g|..] == tail || rest[|g|..] == tail + "\n";
    }
  }

  lemma {:induction false} DigitsWithin(s: string, n: nat)
    requires n <= |s| && AllDigits(s[..n])
    ensures n <= DigitRun(s)
    decreases n
  {
    if n > 0 {
      assert s[..n][0] == s[0];
      assert s[1..][..n - 1] == s[..n][1..];
      DigitsWithin(s[1..], n - 1);
    }
  }

  lemma {:induction false} GroupIsGreedy(fragments: seq<string>, rest: string, groups: seq<string>, k: nat)
    requires fragments != [] && groups != [] && groups[0] != "" && |groups[0]| <= k <= |rest|
    requires rest[..|groups[0]|] == groups[0] && Reading(fragments, rest[|groups[0]|..], groups[1..])
    ensures CaptureGroup(fragments, rest, k).Some? && Greedier(CaptureGroup(fragments, rest, k).value, groups)
    decreases |fragments|, 1, k
  {
    hide Reading;
    var found := Capture(fragments, rest[k..]);
    if k > |groups[0]| {
      if found.Some? {
        var all := [rest[..k]] + found.value;
        assert CaptureGroup(fragments, rest, k) == Some(all);
        assert all[..0] == groups[..0] && |all[0]| > |groups[0]|;
      } else {
        GroupIsGreedy(fragments, rest, groups, k - 1);
      }
    } else {
      CaptureIsGreedy(fragments, rest[k..], groups[1..]);
      var all := [groups[0]] + found.value;
      assert CaptureGroup(fragments, rest, k) == Some(all);
      GreedierBehind(groups[0], found.value, groups[1..]);
      assert groups == [groups[0]] + groups[1..];
    }
  }

  lemma GreedierBehind(g: string, a: seq<string>, b: seq<string>)
    requires Greedier(a, b)
    ensures Greedier([g] + a, [g] + b)
  {
    if a != b {
      var i :| 0 <= i < |a| && i < |b| && a[..i] == b[..i] && |a[i]| > |b[i]|;
      var x, y := [g] + a, [g] + b;
      assert x[..i + 1] == [g] + a[..i] && y[..i + 1] == [g] + b[..i];
      assert |x[i + 1]| > |y[i + 1]|;
    }
  }

  // ------------------------------------------------------ one-to-one evaluation

  function Numerals(values: seq<nat>): (r: seq<string>)
    ensures |r| == |values|
  {
    seq(|values|, i requires 0 <= i < |values| => Decimal(values[i]))
  }

  lemma {:induction false} RenderIsWeave(fragments: seq<string>, values: seq<nat>)
    requires |fragments| == |values| + 1
    ensures Render(fragments, values) == Weave(fragments, Numerals(values))
  {
    if values != [] {
      RenderIsWeave(fragments[1..], values[1..]);
      assert Numerals(values)[1..] == Numerals(values[1..]);
    }
  }

  lemma CaptureOfRender(fragments: seq<string>, values: seq<nat>)
    requires |fragments| == |values| + 1 && Separated(fragments)
    ensures Capture(fragments, Render(fragments, values)) == Some(Numerals(values))
  {
    RenderIsWeave(fragments, values);
    CaptureFindsNumerals(fragments, Numerals(values));
  }

  lemma RenderIsInjective(fragments: seq<string>, v: seq<nat>, w: seq<nat>)
    requires |fragments| == |v| + 1 == |w| + 1 && Separated(fragments)
    requires Render(fragments, v) == Render(fragments, w)
    ensures v == w
  {
    CaptureOfRender(fragments, v);
    CaptureOfRender(fragments, w);
    forall i | 0 <= i < |v| ensures v[i] == w[i] {
      assert Numerals(v)[i] == Numerals(w)[i];
      DecimalIsInjective(v[i], w[i]);
    }
  }

  ghost predicate RendersOneToOne(fragments: seq<string>)
    requires fragments != []
  {
    forall v: seq<nat>, w: seq<nat> ::
      (|v| == |w| == |fragments| - 1 && Render(fragments, v) == Render(fragments, w) ==> v == w)
  }

  /** The rendering determines the bracket outputs exactly if every two brackets are
      separated by text with something else than digits in it. */
  lemma RendersOneToOneIffSeparated(fragments: seq<string>)
    requires fragments != []
    ensures RendersOneToOne(fragments) <==> Separated(fragments)
  {
    if Separated(fragments) {
      forall v: seq<nat>, w: seq<nat> |
        |v| == |w| == |fragments| - 1 && Render(fragments, v) == Render(fragments, w)
        ensures v == w
      {
        RenderIsInjective(fragments, v, w);
      }
    } else {
      var i :| 0 < i < |fragments| - 1 && AllDigits(fragments[i]);
      var v, w := TwoReadings(fragments, i);
    }
  }

  /** Around a fragment of digits f, "1" f "1" f "1" can be read in two ways. */
  lemma {:induction false} TwoReadings(fragments: seq<string>, i: nat) returns (v: seq<nat>, w: seq<nat>)
    requires 0 < i < |fragments| - 1 && AllDigits(fragments[i])
    ensures |v| == |w| == |fragments| - 1 && v != w && Render(fragments, v) == Render(fragments, w)
    decreases i
  {
    if i == 1 {
      var f := fragments[1];
      var long := "1" + f + "1";
      var zeros := seq(|fragments| - 3, _ => 0);
      v, w := [1, Value(long)] + zeros, [Value(long), 1] + zeros;
      DecimalOfValue(long);
      DecimalOfValue("1");
      assert Value("1") == 1 && Decimal(1) == "1";
      assert |Decimal(Value(long))| > |Decimal(1)|;
      var last := Render(fragments[2..], zeros);
      TwoBrackets(fragments, 1, Value(long), zeros);
      TwoBrackets(fragments, Value(long), 1, zeros);
      assert fragments[0] + ("1" + (f + (long + last))) == fragments[0] + (long + (f + ("1" + last)));
    } else {
      v, w := TwoReadings(fragments[1..], i - 1);
      var v', w' := [0] + v, [0] + w;
      assert v'[1..] == v && w'[1..] == w;
      v, w := v', w';
    }
  }

  lemma TwoBrackets(fragments: seq<string>, a: nat, b: nat, rest: seq<nat>)
    requires |fragments| == |rest| + 3
    ensures Render(fragments, [a, b] + rest)
         == fragments[0] + (Decimal(a) + (fragments[1] + (Decimal(b) + Render(fragments[2..], rest))))
  {
    hide Render, Decimal;
    OneBracket(fragments, a, [b] + rest);
    OneBracket(fragments[1..], b, rest);
    assert [a] + ([b] + rest) == [a, b] + rest;
    assert fragments[1..][1..] == fragments[2..];
  }

  lemma OneBracket(fragments: seq<string>, a: nat, rest: seq<nat>)
    requires |fragments| == |rest| + 2
    ensures Render(fragments, [a] + rest) == fragments[0] + (Decimal(a) + Render(fragments[1..], rest))
  {
    assert ([a] + rest)[1..] == rest;
    assert fragments[0] + Decimal(a) + Render(fragments[1..], rest)
        == fragments[0] + (Decimal(a) + Render(fragments[1..], rest));
  }

  function Joint(p: Pattern, a: nat, x: nat): seq<nat>
    requires ValidPattern(p) && a < |p.domains| && p.domains[a].Contains(x)
  {
    DomainMeaning(p, a);
    PositionsMembers(p.inputPos, a);
    var positions := PositionsOf(p.inputPos, a);
    seq(|positions|, i requires 0 <= i < |positions| =>
      assert positions[i] in positions;
      p.maps[positions[i]][x])
  }

  /** The same numbers picked from the numbers of all brackets. */
  function Picked(p: Pattern, a: nat, values: seq<nat>): seq<nat>
    requires |values| == |p.inputPos|
  {
    PositionsMembers(p.inputPos, a);
    var positions := PositionsOf(p.inputPos, a);
    seq(|positions|, i requires 0 <= i < |positions| => assert positions[i] in positions; values[positions[i]])
  }

  lemma PickedFromOutputs(p: Pattern, t: seq<int>, a: nat)
    requires ValidPattern(p) && InProduct(p.domains, t) && a < |p.domains| && p.domains[a].Values?
    requires MapsDefined(p, t)
    ensures p.domains[a].Enumerates(t[a]) && Picked(p, a, Outputs(p, t)) == Joint(p, a, t[a])
  {
    PositionsMembers(p.inputPos, a);
    var positions := PositionsOf(p.inputPos, a);
    assert p.domains[a].Enumerates(t[a]);
    forall i | 0 <= i < |positions| ensures Picked(p, a, Outputs(p, t))[i] == Joint(p, a, t[a])[i] {
      assert positions[i] in positions;
      assert At(t, a) == t[a];
    }
  }

  lemma ProductMapsDefined(p: Pattern, t: seq<int>)
    requires ValidPattern(p) && InProduct(p.domains, t)
    ensures MapsDefined(p, t) && Eval(p, t) == Some(Render(p.fragments, Outputs(p, t)))
  {
    forall a | 0 <= a < |p.domains| ensures p.domains[a].Contains(At(t, a)) {
      assert p.domains[a].Enumerates(t[a]);
    }
    AcceptedIffMapsDefined(p, t);
  }

  /** A tuple produces given numbers exactly when it does so axis by axis. */
  lemma OutputsAxisByAxis(p: Pattern, t: seq<int>, values: seq<nat>)
    requires ValidPattern(p) && InProduct(p.domains, t) && |values| == |p.inputPos| && MapsDefined(p, t)
    ensures Outputs(p, t) == values <==> forall a :: 0 <= a < |p.domains| ==> AxisFits(p, t, values, a)
  {
    if Outputs(p, t) == values {
      forall a | 0 <= a < |p.domains| ensures AxisFits(p, t, values, a) {
        if p.domains[a].Values? {
          PickedFromOutputs(p, t, a);
        }
      }
    }
    if forall a :: 0 <= a < |p.domains| ==> AxisFits(p, t, values, a) {
      forall b | 0 <= b < |values| ensures Outputs(p, t)[b] == values[b] {
        BracketFits(p, t, values, b);
      }
    }
  }

  ghost predicate AxisFits(p: Pattern, t: seq<int>, values: seq<nat>, a: nat)
    requires ValidPattern(p) && |t| == |p.domains| && |values| == |p.inputPos| && a < |p.domains|
  {
    p.domains[a].Values? ==> t[a] in p.domains[a].elems && Joint(p, a, t[a]) == Picked(p, a, values)
  }

  lemma BracketFits(p: Pattern, t: seq<int>, values: seq<nat>, b: nat)
    requires ValidPattern(p) && InProduct(p.domains, t) && |values| == |p.inputPos| && b < |values|
    requires MapsDefined(p, t) && forall a :: 0 <= a < |p.domains| ==> AxisFits(p, t, values, a)
    ensures Outputs(p, t)[b] == values[b]
  {
    var a := p.inputPos[b];
    DimCovers(p.inputPos);
    DomainMeaning(p, a);
    PositionsMembers(p.inputPos, a);
    var positions := PositionsOf(p.inputPos, a);
    var i :| 0 <= i < |positions| && positions[i] == b;
    assert AxisFits(p, t, values, a);
    assert Joint(p, a, t[a])[i] == Picked(p, a, values)[i];
  }

  /** The brackets on an axis map two of its values alike. */
  ghost predicate Confused(p: Pattern, a: nat, x: nat, y: nat)
    requires ValidPattern(p) && a < |p.domains|
  {
    && p.domains[a].Values? && x in p.domains[a].elems && y in p.domains[a].elems
    && Joint(p, a, x) == Joint(p, a, y)
  }

  /** The brackets on each axis tell its values apart. */
  ghost predicate AxesToldApart(p: Pattern)
    requires ValidPattern(p)
  {
    forall a, x: nat, y: nat :: 0 <= a < |p.domains| && Confused(p, a, x, y) ==> x == y
  }

  ghost predicate SomeAxisEmpty(p: Pattern) {
    exists a :: 0 <= a < |p.domains| && p.domains[a].Size() == 0
  }

  lemma ToldApartIsOneToOne(p: Pattern, t: seq<int>, u: seq<int>)
    requires ValidPattern(p) && Separated(p.fragments) && AxesToldApart(p)
    requires InProduct(p.domains, t) && InProduct(p.domains, u) && Eval(p, t) == Eval(p, u)
    ensures t == u
  {
    ProductMapsDefined(p, t);
    ProductMapsDefined(p, u);
    RenderIsInjective(p.fragments, Outputs(p, t), Outputs(p, u));
    forall a | 0 <= a < |p.domains| ensures t[a] == u[a] {
      SameAxisValue(p, t, u, a);
    }
  }

  lemma SameAxisValue(p: Pattern, t: seq<int>, u: seq<int>, a: nat)
    requires ValidPattern(p) && AxesToldApart(p) && a < |p.domains|
    requires InProduct(p.domains, t) && InProduct(p.domains, u) && MapsDefined(p, t) && MapsDefined(p, u)
    requires Outputs(p, t) == Outputs(p, u)
    ensures t[a] == u[a]
  {
    hide ValidPattern, Outputs, MapsDefined, Joint, Picked;
    assert p.domains[a].Enumerates(t[a]) && p.domains[a].Enumerates(u[a]);
    if p.domains[a].Values? {
      PickedFromOutputs(p, t, a);
      PickedFromOutputs(p, u, a);
      assert Confused(p, a, t[a], u[a]);
    }
  }

  /** Two values that an axis confuses give two tuples with one name. */
  lemma ConfusedAxis(p: Pattern, a: nat, x: nat, y: nat) returns (t: seq<int>, u: seq<int>)
    requires ValidPattern(p) && !SomeAxisEmpty(p) && a < |p.domains| && Confused(p, a, x, y) && x != y
    ensures InProduct(p.domains, t) && InProduct(p.domains, u) && t != u && Eval(p, t) == Eval(p, u)
  {
    forall i | 0 <= i < |p.domains| ensures p.domains[i].Size() > 0 {}
    var base: seq<int> := seq(|p.domains|, i requires 0 <= i < |p.domains| => p.domains[i].Get(0));
    t, u := base[a := x], base[a := y];
    forall i | 0 <= i < |p.domains|
      ensures p.domains[i].Enumerates(t[i]) && p.domains[i].Enumerates(u[i])
    {
    }
    ProductMapsDefined(p, t);
    ProductMapsDefined(p, u);
    SameButOneAxis(p, t, u, a);
  }

  lemma SameButOneAxis(p: Pattern, t: seq<int>, u: seq<int>, a: nat)
    requires ValidPattern(p) && InProduct(p.domains, t) && InProduct(p.domains, u) && a < |p.domains|
    requires MapsDefined(p, t) && MapsDefined(p, u) && p.domains[a].Values?
    requires forall i :: 0 <= i < |t| && i != a ==> t[i] == u[i]
    requires t[a] in p.domains[a].elems && u[a] in p.domains[a].elems && Joint(p, a, t[a]) == Joint(p, a, u[a])
    ensures Outputs(p, t) == Outputs(p, u)
  {
    forall i | 0 <= i < |p.domains| ensures AxisFits(p, t, Outputs(p, u), i) {
      if p.domains[i].Values? {
        PickedFromOutputs(p, u, i);
        assert p.domains[i].Enumerates(t[i]);
      }
    }
    OutputsAxisByAxis(p, t, Outputs(p, u));
  }

  /** With separated fragments the pattern is injective exactly when its brackets
      tell the values of every axis apart, or an axis has none to offer. */
  lemma SeparatedInjectiveIff(p: Pattern)
    requires ValidPattern(p) && Fits(p) && Separated(p.fragments)
    ensures IsInjective(p) <==> SomeAxisEmpty(p) || AxesToldApart(p)
  {
    hide ValidPattern, InProduct, Eval, Separated, Joint;
    InjectiveIffOneToOne(p);
    ListedAll(p);
    var ts := set x | x in Listed(p);
    if SomeAxisEmpty(p) {
      if x :| x in Listed(p) {
        TupleHasAllAxes(p, x);
      }
    } else if AxesToldApart(p) {
      forall x, y | x in ts && y in ts && Eval(p, x) == Eval(p, y) ensures x == y {
        ToldApartIsOneToOne(p, x, y);
      }
    } else {
      var a, x: nat, y: nat :| 0 <= a < |p.domains| && Confused(p, a, x, y) && x != y;
      var t, u := ConfusedAxis(p, a, x, y);
      assert t in ts && u in ts;
    }
  }

  lemma TupleHasAllAxes(p: Pattern, t: seq<int>)
    requires InProduct(p.domains, t)
    ensures !SomeAxisEmpty(p)
  {
    forall a | 0 <= a < |p.domains| ensures p.domains[a].Size() > 0 {
      assert p.domains[a].Enumerates(t[a]);
    }
  }

  ghost predicate InjectiveMap(m: BracketMap) {
    forall x, y :: x in m && y in m && m[x] == m[y] ==> x == y
  }

  /** One bracket with an injective map on every axis in use is enough. */
  lemma OneInjectiveBracketSuffices(p: Pattern)
    requires ValidPattern(p) && Fits(p) && Separated(p.fragments)
    requires forall a :: a in p.inputPos ==>
      exists b :: 0 <= b < |p.maps| && p.inputPos[b] == a && InjectiveMap(p.maps[b])
    ensures IsInjective(p)
  {
    forall a, x: nat, y: nat | 0 <= a < |p.domains| && Confused(p, a, x, y) ensures x == y {
      DomainMeaning(p, a);
      var b :| 0 <= b < |p.maps| && p.inputPos[b] == a && InjectiveMap(p.maps[b]);
      PositionsMembers(p.inputPos, a);
      var positions := PositionsOf(p.inputPos, a);
      var i :| 0 <= i < |positions| && positions[i] == b;
      assert p.domains[a].Contains(x) && p.domains[a].Contains(y);
      assert Joint(p, a, x)[i] == Joint(p, a, y)[i];
    }
    SeparatedInjectiveIff(p);
  }

  // ----------------------------------------------------------- the fast inverse

  /** The keys that a dictionary, given by its items, maps to `v`. */
  function KeysTo(items: seq<(nat, seq<nat>)>, v: seq<nat>): seq<nat> {
    if items == [] then []
    else
      var n := |items| - 1;
      KeysTo(items[..n], v) + (if items[n].1 == v then [items[n].0] else [])
  }

  /** `dictInv`: for every value, the keys that map to it. */
  method DictInv(items: seq<(nat, seq<nat>)>) returns (result: map<seq<nat>, seq<nat>>)
    ensures forall v :: v in result <==> KeysTo(items, v) != []
    ensures forall v :: v in result ==> result[v] == KeysTo(items, v)
  {
    result := map[];
    for i := 0 to |items|
      invariant forall v :: v in result <==> KeysTo(items[..i], v) != []
      invariant forall v :: v in result ==> result[v] == KeysTo(items[..i], v)
    {
      assert items[..i + 1][..i] == items[..i];
      var (k, v) := items[i];
      if v in result {
        result := result[v := result[v] + [k]];
      } else {
        result := result[v := [k]];
      }
    }
    assert items[..|items|] == items;
  }

  lemma {:induction false} KeysToMembers(items: seq<(nat, seq<nat>)>, v: seq<nat>)
    ensures forall k: nat :: k in KeysTo(items, v) <==> (k, v) in items
  {
    if items != [] {
      var n := |items| - 1;
      KeysToMembers(items[..n], v);
      assert items == items[..n] + [items[n]];
    }
  }

  lemma {:induction false} KeysToAscend(items: seq<(nat, seq<nat>)>, v: seq<nat>)
    requires forall i, j :: 0 <= i < j < |items| ==> items[i].0 < items[j].0
    ensures Values(KeysTo(items, v)).Valid()
  {
    if items != [] {
      var n := |items| - 1;
      KeysToAscend(items[..n], v);
      var before := KeysTo(items[..n], v);
      forall i | 0 <= i < |before| ensures before[i] < items[n].0 {
        KeysToMembers(items[..n], v);
        assert before[i] in before;
        var k :| 0 <= k < n && items[..n][k] == (before[i], v);
      }
    }
  }

  /** Every value of an axis with what its brackets make of it. */
  function AxisItems(p: Pattern, a: nat): seq<(nat, seq<nat>)>
    requires ValidPattern(p) && a < |p.domains| && p.domains[a].Values?
  {
    var elems := p.domains[a].elems;
    seq(|elems|, i requires 0 <= i < |elems| => (elems[i], Joint(p, a, elems[i])))
  }

  /** The values of an axis that produce the given numbers. */
  function Narrow(p: Pattern, a: nat, values: seq<nat>): Domain
    requires ValidPattern(p) && a < |p.domains| && |values| == |p.inputPos|
  {
    if p.domains[a].Anything? then Anything else Values(KeysTo(AxisItems(p, a), Picked(p, a, values)))
  }

  function Narrowed(p: Pattern, values: seq<nat>): seq<Domain>
    requires ValidPattern(p) && |values| == |p.inputPos|
  {
    seq(|p.domains|, a requires 0 <= a < |p.domains| => Narrow(p, a, values))
  }

  function Integers(groups: seq<string>): (r: seq<nat>)
    requires forall i :: 0 <= i < |groups| ==> IsNumeral(groups[i])
    ensures |r| == |groups|
  {
    seq(|groups|, i requires 0 <= i < |groups| => assert IsNumeral(groups[i]); Value(groups[i]))
  }

  function CapturedIntegers(p: Pattern, s: string): (r: Option<seq<nat>>)
    requires ValidPattern(p)
    ensures r.Some? ==> |r.value| == |p.inputPos|
  {
    match Capture(p.fragments, s)
    case None => None
    case Some(groups) =>
      CaptureSound(p.fragments, s);
      Some(Integers(groups))
  }

  /** `InvDeviceIdPattern.values`: capture the numbers, invert the maps axis by axis,
      multiply out.  No value stands for the exception raised for a pattern without
      brackets, a string that does not match, or numbers that nothing produces. */
  function FastInverse(p: Pattern, s: string): Option<seq<seq<int>>>
    requires ValidPattern(p)
  {
    if p.inputPos == [] || CapturedIntegers(p, s).None? then None
    else
      var narrowed := Narrowed(p, CapturedIntegers(p, s).value);
      if exists a :: 0 <= a < |narrowed| && narrowed[a].Size() == 0 then None else Some(Cart(narrowed))
  }

  method InvertAt(p: Pattern, s: string) returns (r: Option<seq<seq<int>>>)
    requires ValidPattern(p)
    ensures r == FastInverse(p, s)
  {
    hide ValidPattern, Joint, Picked, Capture, Cart;
    if |p.inputPos| == 0 || CapturedIntegers(p, s).None? {
      return None;
    }
    var values := CapturedIntegers(p, s).value;
    var lists: seq<Domain> := [];
    for a := 0 to |p.domains|
      invariant lists == Narrowed(p, values)[..a]
      invariant forall i :: 0 <= i < a ==> lists[i].Size() > 0
    {
      if p.domains[a].Anything? {
        lists := lists + [Anything];
      } else {
        var inverse := DictInv(AxisItems(p, a));
        if Picked(p, a, values) !in inverse {
          assert Narrowed(p, values)[a].Size() == 0;
          return None;
        }
        lists := lists + [Values(inverse[Picked(p, a, values)])];
      }
    }
    assert lists == Narrowed(p, values);
    return Some(Cart(lists));
  }

  // ------------------------------------------------- fast against brute force

  lemma NarrowMembers(p: Pattern, t: seq<int>, values: seq<nat>, a: nat)
    requires ValidPattern(p) && |t| == |p.domains| && |values| == |p.inputPos| && a < |p.domains|
    ensures Narrow(p, a, values).Valid()
    ensures Narrow(p, a, values).Enumerates(t[a]) <==> p.domains[a].Enumerates(t[a]) && AxisFits(p, t, values, a)
  {
    DomainMeaning(p, a);
    if p.domains[a].Values? {
      var items, key := AxisItems(p, a), Picked(p, a, values);
      KeysToAscend(items, key);
      if t[a] >= 0 {
        KeysToMembers(items, key);
        if t[a] in p.domains[a].elems {
          var i :| 0 <= i < |p.domains[a].elems| && p.domains[a].elems[i] == t[a];
          assert items[i] == (t[a], Joint(p, a, t[a]));
        }
      }
    }
  }

  /** The narrowed product holds the tuples that produce the numbers. */
  lemma NarrowedMembers(p: Pattern, values: seq<nat>, t: seq<int>)
    requires ValidPattern(p) && |values| == |p.inputPos|
    ensures InProduct(Narrowed(p, values), t)
       <==> InProduct(p.domains, t) && MapsDefined(p, t) && Outputs(p, t) == values
  {
    hide Narrow, AxisFits, Outputs;
    if |t| == |p.domains| {
      forall a | 0 <= a < |p.domains|
        ensures Narrowed(p, values)[a].Enumerates(t[a]) <==> p.domains[a].Enumerates(t[a]) && AxisFits(p, t, values, a)
      {
        NarrowMembers(p, t, values, a);
      }
      if InProduct(p.domains, t) {
        ProductMapsDefined(p, t);
        OutputsAxisByAxis(p, t, values);
      }
    }
  }

  lemma {:induction false} AscendingUnique(a: seq<seq<int>>, b: seq<seq<int>>)
    requires Ascends(a) && Ascends(b) && forall x :: x in a <==> x in b
    ensures a == b
  {
    hide Less, Ascends;
    assert a != [] ==> a[0] in a;
    assert b != [] ==> b[0] in b;
    if a != [] {
      SameLast(a, b);
      var x, m, n := a[|a| - 1], |a| - 1, |b| - 1;
      assert a == a[..m] + [x] && b == b[..n] + [x];
      NotBefore(a, m);
      NotBefore(b, n);
      forall y ensures y in a[..m] <==> y in b[..n] {
        assert y in a <==> y in a[..m] || y == x;
        assert y in b <==> y in b[..n] || y == x;
      }
      AscendsPrefix(a, m);
      AscendsPrefix(b, n);
      AscendingUnique(a[..m], b[..n]);
    }
  }

  lemma AscendsPrefix(a: seq<seq<int>>, m: nat)
    requires Ascends(a) && m <= |a|
    ensures Ascends(a[..m])
  {
  }

  lemma SameLast(a: seq<seq<int>>, b: seq<seq<int>>)
    requires Ascends(a) && Ascends(b) && a != [] && b != [] && forall x :: x in a <==> x in b
    ensures a[|a| - 1] == b[|b| - 1]
  {
    hide Less;
    var x, y := a[|a| - 1], b[|b| - 1];
    assert x in b && y in a;
    if Less(x, y) {
      LessIsAsymmetric(x, y);
    }
  }

  lemma NotBefore(a: seq<seq<int>>, m: nat)
    requires Ascends(a) && m < |a|
    ensures a[m] !in a[..m]
  {
  }

  lemma NarrowedAscends(p: Pattern, values: seq<nat>)
    requires ValidPattern(p) && |values| == |p.inputPos|
    ensures Ascends(Cart(Narrowed(p, values)))
  {
    hide Cart, Tuple, Less, Product, Narrow;
    var narrowed := Narrowed(p, values);
    assert ValidRanges(narrowed) by {
      forall a | 0 <= a < |narrowed| ensures narrowed[a].Valid() {
        NarrowMembers(p, seq(|p.domains|, _ => 0), values, a);
      }
    }
    CounterEnumeratesProduct(narrowed);
    forall i, j | 0 <= i < j < |Cart(narrowed)| ensures Less(Cart(narrowed)[i], Cart(narrowed)[j]) {
      CounterAscends(narrowed, i, j);
    }
  }

  /** On the rendering of the captured numbers the two inverses agree. */
  lemma InversesAgreeOnRendering(p: Pattern, values: seq<nat>)
    requires ValidPattern(p) && Fits(p) && Separated(p.fragments) && |values| == |p.inputPos|
    ensures Cart(Narrowed(p, values)) == Matching(p, Render(p.fragments, values), Listed(p))
  {
    hide CalcInputDomains, Cart, Listed, Matching, InProduct, Narrowed, Separated, Ascends;
    var s := Render(p.fragments, values);
    NarrowedAscends(p, values);
    MatchIsPreimage(p, s);
    forall t ensures t in Cart(Narrowed(p, values)) <==> t in Matching(p, s, Listed(p)) {
      CartMembers(Narrowed(p, values), t);
      NarrowedMembers(p, values, t);
      if InProduct(p.domains, t) {
        ProductMapsDefined(p, t);
        if Eval(p, t) == Some(s) {
          RenderIsInjective(p.fragments, Outputs(p, t), values);
        }
      }
    }
    AscendingUnique(Cart(Narrowed(p, values)), Matching(p, s, Listed(p)));
  }

  /** The string is written the way evaluation writes: no captured number has a
      leading zero and no line feed was left over at the end. */
  ghost predicate AsWritten(p: Pattern, s: string)
    requires ValidPattern(p)
  {
    match Capture(p.fragments, s)
    case None => false
    case Some(groups) =>
      CaptureSound(p.fragments, s);
      (forall i :: 0 <= i < |groups| ==> IsCanonical(groups[i])) && s == Weave(p.fragments, groups)
  }

  lemma AsWrittenIsRendering(p: Pattern, s: string)
    requires ValidPattern(p) && Separated(p.fragments)
    ensures AsWritten(p, s) ==> CapturedIntegers(p, s).Some? && s == Render(p.fragments, CapturedIntegers(p, s).value)
    ensures forall values: seq<nat> :: |values| == |p.inputPos| && s == Render(p.fragments, values) ==>
      AsWritten(p, s) && CapturedIntegers(p, s) == Some(values)
  {
    if AsWritten(p, s) {
      CaptureSound(p.fragments, s);
      var groups := Capture(p.fragments, s).value;
      var values := Integers(groups);
      forall i | 0 <= i < |groups| ensures Numerals(values)[i] == groups[i] {
        DecimalOfValue(groups[i]);
      }
      assert Numerals(values) == groups;
      RenderIsWeave(p.fragments, values);
    }
    forall values: seq<nat> | |values| == |p.inputPos| && s == Render(p.fragments, values)
      ensures AsWritten(p, s) && CapturedIntegers(p, s) == Some(values)
    {
      RenderingIsAsWritten(p, values);
    }
  }

  lemma RenderingIsAsWritten(p: Pattern, values: seq<nat>)
    requires ValidPattern(p) && Separated(p.fragments) && |values| == |p.inputPos|
    ensures AsWritten(p, Render(p.fragments, values))
    ensures CapturedIntegers(p, Render(p.fragments, values)) == Some(values)
  {
    CaptureOfRender(p.fragments, values);
    RenderIsWeave(p.fragments, values);
    var groups := Numerals(values);
    forall i | 0 <= i < |values| ensures IsCanonical(groups[i]) && Value(groups[i]) == values[i] {
      DecimalIsCanonical(values[i]);
      ValueOfDecimal(values[i]);
    }
    assert Integers(groups) == values;
  }

  /** Against brute-force matching, the fast inverse raises its exception only where
      there is no match, and returns the very list of matches exactly on strings
      written the way evaluation writes; on other spellings it returns inputs for a
      string that nothing evaluates to. */
  lemma FastInverseAgreement(p: Pattern, s: string)
    requires ValidPattern(p) && Fits(p) && Separated(p.fragments) && p.inputPos != []
    ensures FastInverse(p, s).None? ==> Matching(p, s, Listed(p)) == []
    ensures FastInverse(p, s).Some? ==>
      FastInverse(p, s).value != [] && (FastInverse(p, s).value == Matching(p, s, Listed(p)) <==> AsWritten(p, s))
  {
    hide CalcInputDomains, Cart, Listed, Matching, Capture, Separated, AsWritten, Narrowed, Product;
    var slow := Matching(p, s, Listed(p));
    AsWrittenIsRendering(p, s);
    if AsWritten(p, s) {
      InversesAgreeOnRendering(p, CapturedIntegers(p, s).value);
    } else if slow != [] {
      MatchIsRendering(p, s, slow[0]);
    }
    if CapturedIntegers(p, s).Some? {
      NarrowedInhabited(p, CapturedIntegers(p, s).value);
    }
  }

  lemma MatchIsRendering(p: Pattern, s: string, t: seq<int>)
    requires ValidPattern(p) && Fits(p) && Separated(p.fragments) && t in Matching(p, s, Listed(p))
    ensures MapsDefined(p, t) && s == Render(p.fragments, Outputs(p, t)) && AsWritten(p, s)
  {
    MatchIsPreimage(p, s);
    ProductMapsDefined(p, t);
    RenderingIsAsWritten(p, Outputs(p, t));
  }

  lemma NarrowedInhabited(p: Pattern, values: seq<nat>)
    requires ValidPattern(p) && |values| == |p.inputPos|
    ensures Cart(Narrowed(p, values)) == []
       <==> exists a :: 0 <= a < |Narrowed(p, values)| && Narrowed(p, values)[a].Size() == 0
  {
    var narrowed := Narrowed(p, values);
    CounterEnumeratesProduct(narrowed);
    ProductPositive(narrowed);
  }

  lemma {:induction false} ProductPositive(ranges: seq<Domain>)
    ensures Product(ranges) == 0 <==> exists a :: 0 <= a < |ranges| && ranges[a].Size() == 0
  {
    if ranges != [] {
      ProductPositive(ranges[..|ranges| - 1]);
      MixedRadix.TimesPositive(Product(ranges[..|ranges| - 1]), ranges[|ranges| - 1].Size());
      assert forall a :: 0 <= a < |ranges| - 1 ==> ranges[a] == ranges[..|ranges| - 1][a];
    }
  }

  /** In particular it finds exactly the matches of every name the pattern produces. */
  lemma FastInverseOfName(p: Pattern, x: seq<int>)
    requires ValidPattern(p) && Fits(p) && Separated(p.fragments) && p.inputPos != [] && x in Listed(p)
    ensures Eval(p, x).Some? && x in Matching(p, Eval(p, x).value, Listed(p))
    ensures FastInverse(p, Eval(p, x).value) == Some(Matching(p, Eval(p, x).value, Listed(p)))
  {
    hide CalcInputDomains, Listed, Matching, FastInverse, AsWritten, Eval;
    ListedEvaluates(p, x);
    var s := Eval(p, x).value;
    MatchingMembers(p, s, Listed(p));
    FastInverseAgreement(p, s);
    MatchIsRendering(p, s, x);
    RenderingIsAsWritten(p, Outputs(p, x));
  }

  // -------------------------------------------------------- values of brackets

  /** The values that the brackets get from a tuple. */
  function BracketsInput(p: Pattern, t: seq<int>): seq<int> {
    seq(|p.inputPos|, b requires 0 <= b < |p.inputPos| => At(t, p.inputPos[b]))
  }

  /** `values` with its two options: starting from bracket outputs is not implemented
      and raises an exception; the result may be given by brackets and not by axes. */
  method InverseValues(p: Pattern, s: string, bracketInput: bool, bracketOutput: bool)
    returns (r: Option<seq<seq<int>>>)
    requires ValidPattern(p)
    ensures r.None? <==> bracketOutput || FastInverse(p, s).None?
    ensures r.Some? && !bracketInput ==> r == FastInverse(p, s)
    ensures r.Some? && bracketInput ==>
      |r.value| == |FastInverse(p, s).value|
      && forall k :: 0 <= k < |r.value| ==> r.value[k] == BracketsInput(p, FastInverse(p, s).value[k])
  {
    if bracketOutput {
      return None;
    }
    r := InvertAt(p, s);
    if r.Some? && bracketInput {
      var tuples := r.value;
      r := Some(seq(|tuples|, k requires 0 <= k < |tuples| => BracketsInput(p, tuples[k])));
    }
  }

  /** The values given by brackets are such that each bracket maps its value to the
      number captured in its place. */
  lemma BracketsProduceCaptured(p: Pattern, s: string, t: seq<int>)
    requires ValidPattern(p) && FastInverse(p, s).Some? && t in FastInverse(p, s).value
    ensures forall b :: 0 <= b < |p.maps| ==>
      BracketsInput(p, t)[b] in p.maps[b] && p.maps[b][BracketsInput(p, t)[b]] == CapturedIntegers(p, s).value[b]
  {
    hide CapturedIntegers, Cart, Narrowed;
    var values := CapturedIntegers(p, s).value;
    CartMembers(Narrowed(p, values), t);
    NarrowedMembers(p, values, t);
    assert forall b :: 0 <= b < |p.maps| ==> Outputs(p, t)[b] == values[b];
  }

  // -------------------------------------------------------- names that disagree

  lemma {:induction false} LeadingZeroKeepsValue(g: string)
    requires AllDigits(g)
    ensures AllDigits("0" + g) && Value("0" + g) == Value(g)
    decreases |g|
  {
    if g == "" {
      assert "0" + g == "0" && Value("0"[..0]) == 0;
    } else {
      var init := g[..|g| - 1];
      LeadingZeroKeepsValue(init);
      assert ("0" + g)[..|g|] == "0" + init;
    }
  }

  /** The rendering of some outputs, with one more zero before the first number. */
  function WithLeadingZero(fragments: seq<string>, values: seq<nat>): string
    requires |fragments| == |values| + 1 && values != []
  {
    Weave(fragments, Numerals(values)[0 := "0" + Numerals(values)[0]])
  }

  /** Whatever the pattern: every name with a leading zero is inverted like the name
      itself, although nothing evaluates to it. */
  lemma LeadingZeroIsInverted(p: Pattern, values: seq<nat>)
    requires ValidPattern(p) && Fits(p) && Separated(p.fragments) && |values| == |p.inputPos| > 0
    ensures FastInverse(p, WithLeadingZero(p.fragments, values)) == FastInverse(p, Render(p.fragments, values))
    ensures Matching(p, WithLeadingZero(p.fragments, values), Listed(p)) == []
  {
    hide CalcInputDomains, Listed, Matching, Weave, Capture, Separated, Render;
    RenderingIsAsWritten(p, values);
    var numerals := Numerals(values);
    var groups := numerals[0 := "0" + numerals[0]];
    var s := Weave(p.fragments, groups);
    LeadingZeroKeepsValue(numerals[0]);
    forall i | 0 <= i < |groups| ensures IsNumeral(groups[i]) && Value(groups[i]) == values[i] {
      ValueOfDecimal(values[i]);
    }
    CaptureFindsNumerals(p.fragments, groups);
    assert Integers(groups) == values;
    assert CapturedIntegers(p, s) == CapturedIntegers(p, Render(p.fragments, values));
    assert !IsCanonical(groups[0]);
    if Matching(p, s, Listed(p)) != [] {
      MatchIsRendering(p, s, Matching(p, s, Listed(p))[0]);
    }
  }
}
