/** Device id patterns (src/device_id.cpp, DeviceIdPattern): fixed text and bracket
    maps routed to the axes of an index tuple. */
module Patterns {
  import opened PropertyValues
  import opened Decimals
  import opened MixedRadix
  import opened PatternIndexes
  import opened CartesianProducts

  type BracketMap = map<nat, nat>

  /** `fragments` surround the brackets; bracket `b` maps the value on axis
      `inputPos[b]` by `maps[b]`. */
  datatype Pattern = Pattern(
    fragments: seq<string>,
    inputPos: seq<nat>,
    maps: seq<BracketMap>,
    domains: seq<Domain>)

  // ------------------------------------------------------------ axes and domains

  /** One more than the largest axis in use. */
  function Dim(inputPos: seq<nat>): nat {
    if inputPos == [] then 0
    else
      var d, last := Dim(inputPos[..|inputPos| - 1]), inputPos[|inputPos| - 1] + 1;
      if d > last then d else last
  }

  lemma {:induction false} DimCovers(inputPos: seq<nat>)
    ensures forall b :: 0 <= b < |inputPos| ==> inputPos[b] < Dim(inputPos)
    ensures inputPos != [] ==> Dim(inputPos) > 0 && (Dim(inputPos) - 1) in inputPos
  {
    if inputPos != [] {
      DimCovers(inputPos[..|inputPos| - 1]);
      assert inputPos == inputPos[..|inputPos| - 1] + [inputPos[|inputPos| - 1]];
    }
  }

  /** The brackets routed to an axis, in order. */
  function PositionsOf(inputPos: seq<nat>, axis: nat): seq<nat> {
    if inputPos == [] then []
    else
      var n := |inputPos| - 1;
      PositionsOf(inputPos[..n], axis) + (if inputPos[n] == axis then [n] else [])
  }

  lemma {:induction false} PositionsMembers(inputPos: seq<nat>, axis: nat)
    ensures forall b: nat :: (b in PositionsOf(inputPos, axis) <==> b < |inputPos| && inputPos[b] == axis)
  {
    if inputPos != [] {
      PositionsMembers(inputPos[..|inputPos| - 1], axis);
    }
  }

  lemma {:induction false} PositionsAscend(inputPos: seq<nat>, axis: nat)
    ensures forall i, j :: 0 <= i < j < |PositionsOf(inputPos, axis)| ==>
      PositionsOf(inputPos, axis)[i] < PositionsOf(inputPos, axis)[j]
  {
    if inputPos != [] {
      var n := |inputPos| - 1;
      PositionsMembers(inputPos[..n], axis);
      PositionsAscend(inputPos[..n], axis);
      var before := PositionsOf(inputPos[..n], axis);
      assert forall i :: 0 <= i < |before| ==> before[i] in before;
    }
  }

  method CalcInputIndexToBracketPoss(inputPos: seq<nat>) returns (result: seq<seq<nat>>)
    ensures |result| == Dim(inputPos)
    ensures forall a :: 0 <= a < |result| ==> result[a] == PositionsOf(inputPos, a)
  {
    if |inputPos| > 0 {
      var max := inputPos[0];
      assert inputPos[..1][..0] == [];
      for i := 1 to |inputPos|
        invariant max + 1 == Dim(inputPos[..i])
      {
        assert inputPos[..i + 1][..i] == inputPos[..i];
        if inputPos[i] > max {
          max := inputPos[i];
        }
      }
      assert inputPos[..|inputPos|] == inputPos;
      DimCovers(inputPos);
      result := seq(max + 1, _ => []);
      for i := 0 to |inputPos|
        invariant |result| == max + 1
        invariant forall a :: 0 <= a < |result| ==> result[a] == PositionsOf(inputPos[..i], a)
      {
        assert inputPos[..i + 1][..i] == inputPos[..i];
        result := result[inputPos[i] := result[inputPos[i]] + [i]];
      }
    } else {
      result := [];
    }
  }

  function Least(s: set<nat>): (m: nat)
    requires s != {}
    ensures m in s && forall x: nat :: x in s ==> m <= x
  {
    LeastExists(s);
    var m :| m in s && forall x: nat :: x in s ==> m <= x;
    m
  }

  lemma LeastExists(s: set<nat>)
    requires s != {}
    ensures exists m :: m in s && forall x: nat :: x in s ==> m <= x
  {
    var m := LeastOf(s);
  }

  lemma {:induction false} LeastOf(s: set<nat>) returns (m: nat)
    requires s != {}
    ensures m in s && forall x: nat :: x in s ==> m <= x
  {
    var e :| e in s;
    m := e;
    assert forall x: nat :: x in s ==> x == e || x in s - {e};
    if s - {e} != {} {
      var k := LeastOf(s - {e});
      m := if e < k then e else k;
    }
  }

  /** The elements of a set in ascending order. */
  function Ascending(s: set<nat>): (r: seq<nat>)
    ensures forall x: nat :: x in r <==> x in s
    ensures forall i, j :: 0 <= i < j < |r| ==> r[i] < r[j]
    decreases |s|
  {
    if s == {} then [] else [Least(s)] + Ascending(s - {Least(s)})
  }

  /** What every bracket on an axis can map; anything where there is none. */
  function CalcInputDomain(positions: seq<nat>, maps: seq<BracketMap>): Domain
    requires forall b: nat :: b in positions ==> b < |maps|
  {
    if positions == [] then Anything
    else
      assert positions[0] in positions;
      Values(Ascending(set k | k in maps[positions[0]] && forall b: nat :: b in positions ==> k in maps[b]))
  }

  function CalcInputDomains(inputPos: seq<nat>, maps: seq<BracketMap>): seq<Domain>
    requires |inputPos| == |maps|
  {
    seq(Dim(inputPos), a requires 0 <= a < Dim(inputPos) =>
      PositionsMembers(inputPos, a);
      CalcInputDomain(PositionsOf(inputPos, a), maps))
  }

  ghost predicate ValidPattern(p: Pattern) {
    && |p.fragments| == |p.inputPos| + 1 && |p.maps| == |p.inputPos|
    && p.domains == CalcInputDomains(p.inputPos, p.maps)
  }

  /** An axis accepts a value exactly when every bracket on it can map the value. */
  lemma DomainMeaning(p: Pattern, a: nat)
    requires ValidPattern(p) && a < |p.domains|
    ensures p.domains[a].Valid()
    ensures p.domains[a].Anything? <==> a !in p.inputPos
    ensures forall v: int :: (p.domains[a].Contains(v) <==>
      forall b :: 0 <= b < |p.maps| && p.inputPos[b] == a ==> v in p.maps[b])
  {
    PositionsMembers(p.inputPos, a);
    var positions := PositionsOf(p.inputPos, a);
    if positions != [] {
      assert positions[0] in positions;
    }
  }

  // ---------------------------------------------------------------- evaluation

  predicate InDomain(p: Pattern, pi: seq<int>) {
    forall a :: 0 <= a < |p.domains| ==> p.domains[a].Contains(At(pi, a))
  }

  predicate MapsDefined(p: Pattern, pi: seq<int>)
    requires |p.maps| == |p.inputPos|
  {
    forall b :: 0 <= b < |p.maps| ==> At(pi, p.inputPos[b]) in p.maps[b]
  }

  /** The domain check accepts a tuple exactly when no bracket lookup can fail. */
  lemma AcceptedIffMapsDefined(p: Pattern, pi: seq<int>)
    requires ValidPattern(p)
    ensures InDomain(p, pi) <==> MapsDefined(p, pi)
  {
    DimCovers(p.inputPos);
    if InDomain(p, pi) {
      forall b | 0 <= b < |p.maps| ensures At(pi, p.inputPos[b]) in p.maps[b] {
        DomainMeaning(p, p.inputPos[b]);
      }
    }
    if MapsDefined(p, pi) {
      forall a | 0 <= a < |p.domains| ensures p.domains[a].Contains(At(pi, a)) {
        DomainMeaning(p, a);
      }
    }
  }

  function Outputs(p: Pattern, pi: seq<int>): seq<nat>
    requires |p.maps| == |p.inputPos| && MapsDefined(p, pi)
  {
    seq(|p.maps|, b requires 0 <= b < |p.maps| => p.maps[b][At(pi, p.inputPos[b])])
  }

  /** Fragments and numbers by turns. */
  function Render(fragments: seq<string>, values: seq<nat>): string
    requires |fragments| == |values| + 1
  {
    if values == [] then fragments[0] else fragments[0] + Decimal(values[0]) + Render(fragments[1..], values[1..])
  }

  function Eval(p: Pattern, pi: seq<int>): Option<string>
    requires ValidPattern(p)
  {
    if InDomain(p, pi) then
      AcceptedIffMapsDefined(p, pi);
      Some(Render(p.fragments, Outputs(p, pi)))
    else None
  }

  /** Evaluation as it is carried out: check, look up, write to a stream. */
  method EvalAt(p: Pattern, pi: seq<int>) returns (r: Option<string>)
    requires ValidPattern(p)
    ensures r == Eval(p, pi)
  {
    hide CalcInputDomains;
    var accepted := CheckIsInDomain(p, pi);
    if !accepted {
      return None;
    }
    AcceptedIffMapsDefined(p, pi);
    var ss := Stream(p, pi);
    return Some(ss);
  }

  method CheckIsInDomain(p: Pattern, pi: seq<int>) returns (accepted: bool)
    ensures accepted <==> InDomain(p, pi)
  {
    for a := 0 to |p.domains|
      invariant forall i :: 0 <= i < a ==> p.domains[i].Contains(At(pi, i))
    {
      if !p.domains[a].Contains(At(pi, a)) {
        return false;
      }
    }
    return true;
  }

  method Stream(p: Pattern, pi: seq<int>) returns (ss: string)
    requires |p.fragments| == |p.inputPos| + 1 && |p.maps| == |p.inputPos| && MapsDefined(p, pi)
    ensures ss == Render(p.fragments, Outputs(p, pi))
  {
    hide Render, RestAfter;
    ghost var values := Outputs(p, pi);
    ss := p.fragments[0];
    RenderFrom(p.fragments, values, 0, ss);
    for i := 0 to |p.inputPos|
      invariant Render(p.fragments, values) == ss + RestAfter(p.fragments, values, i)
    {
      var value := p.maps[i][At(pi, p.inputPos[i])];
      WriteNext(p.fragments, values, i, ss);
      ss := ss + Decimal(value);
      ss := ss + p.fragments[i + 1];
    }
    NothingLeft(p.fragments, values, ss);
  }

  lemma NothingLeft(fragments: seq<string>, values: seq<nat>, ss: string)
    requires |fragments| == |values| + 1
    ensures ss + RestAfter(fragments, values, |values|) == ss
  {
  }

  lemma WriteNext(fragments: seq<string>, values: seq<nat>, i: nat, ss: string)
    requires |fragments| == |values| + 1 && i < |values|
    ensures ss + RestAfter(fragments, values, i)
         == ss + Decimal(values[i]) + fragments[i + 1] + RestAfter(fragments, values, i + 1)
  {
  }

  /** What is still to be written after fragment `i`. */
  function RestAfter(fragments: seq<string>, values: seq<nat>, i: nat): string
    requires |fragments| == |values| + 1 && i <= |values|
    decreases |values| - i
  {
    if i == |values| then "" else Decimal(values[i]) + fragments[i + 1] + RestAfter(fragments, values, i + 1)
  }

  lemma {:induction false} RenderFrom(fragments: seq<string>, values: seq<nat>, i: nat, first: string)
    requires |fragments| == |values| + 1 && i <= |values| && fragments[i] == first
    ensures Render(fragments[i..], values[i..]) == first + RestAfter(fragments, values, i)
    ensures i == 0 ==> Render(fragments, values) == first + RestAfter(fragments, values, i)
    decreases |values| - i
  {
    if i < |values| {
      RenderFrom(fragments, values, i + 1, fragments[i + 1]);
      assert fragments[i..][1..] == fragments[i + 1..] && values[i..][1..] == values[i + 1..];
      var number, rest := Decimal(values[i]), RestAfter(fragments, values, i + 1);
      assert first + number + (fragments[i + 1] + rest) == first + (number + fragments[i + 1] + rest);
    }
    assert fragments[0..] == fragments && values[0..] == values;
  }

  /** Only the axes that some bracket uses matter. */
  lemma EvalIgnoresUnusedAxes(p: Pattern, pi: seq<int>, pj: seq<int>)
    requires ValidPattern(p) && forall b :: 0 <= b < |p.inputPos| ==> At(pi, p.inputPos[b]) == At(pj, p.inputPos[b])
    ensures Eval(p, pi) == Eval(p, pj)
  {
    AcceptedIffMapsDefined(p, pi);
    AcceptedIffMapsDefined(p, pj);
    if MapsDefined(p, pi) {
      assert Outputs(p, pi) == Outputs(p, pj);
    }
  }

  function Joined(pieces: seq<string>): string {
    if pieces == [] then "" else pieces[0] + Joined(pieces[1..])
  }

  /** Fragments in the even places, and between them what each bracket makes of the value
      on its axis, as a decimal numeral. */
  function Pieces(p: Pattern, pi: seq<int>): seq<string>
    requires |p.fragments| == |p.inputPos| + 1 && |p.maps| == |p.inputPos|
    requires forall b :: 0 <= b < |p.maps| ==> p.inputPos[b] < |pi| && pi[p.inputPos[b]] in p.maps[b]
  {
    seq(2 * |p.inputPos| + 1, i requires 0 <= i < 2 * |p.inputPos| + 1 =>
      if i % 2 == 0 then p.fragments[i / 2] else Decimal(p.maps[i / 2][pi[p.inputPos[i / 2]]]))
  }

  /** Evaluation succeeds exactly if every bracket maps the value on its axis, and gives
      fragments and mapped values by turns. */
  lemma EvalMeans(p: Pattern, pi: seq<int>)
    requires ValidPattern(p)
    ensures Eval(p, pi).Some? <==>
      forall b :: 0 <= b < |p.maps| ==> p.inputPos[b] < |pi| && pi[p.inputPos[b]] in p.maps[b]
    ensures Eval(p, pi).Some? ==>
      (forall b :: 0 <= b < |p.maps| ==> p.inputPos[b] < |pi| && pi[p.inputPos[b]] in p.maps[b])
      && Eval(p, pi) == Some(Joined(Pieces(p, pi)))
  {
    hide CalcInputDomains, InDomain, Render, Joined, Decimal;
    AcceptedIffMapsDefined(p, pi);
    assert forall b :: 0 <= b < |p.maps| && At(pi, p.inputPos[b]) in p.maps[b] ==> p.inputPos[b] < |pi|;
    if MapsDefined(p, pi) {
      RenderJoins(p.fragments, Outputs(p, pi), Pieces(p, pi));
    }
  }

  lemma {:induction false} RenderJoins(fragments: seq<string>, values: seq<nat>, pieces: seq<string>)
    requires |fragments| == |values| + 1 && |pieces| == 2 * |values| + 1
    requires forall i :: 0 <= i < |fragments| ==> pieces[2 * i] == fragments[i]
    requires forall i :: 0 <= i < |values| ==> pieces[2 * i + 1] == Decimal(values[i])
    ensures Render(fragments, values) == Joined(pieces)
    decreases |values|
  {
    hide Decimal;
    if values == [] {
      assert pieces == [pieces[0]] && pieces[2 * 0] == fragments[0];
      assert pieces[1..] == [];
    } else {
      var rest := pieces[2..];
      forall i | 0 <= i < |fragments| - 1 ensures rest[2 * i] == fragments[1..][i] {
        assert rest[2 * i] == pieces[2 * (i + 1)];
      }
      forall i | 0 <= i < |values| - 1 ensures rest[2 * i + 1] == Decimal(values[1..][i]) {
        assert rest[2 * i + 1] == pieces[2 * (i + 1) + 1];
      }
      RenderJoins(fragments[1..], values[1..], rest);
      assert pieces[1..][1..] == rest;
      assert pieces[2 * 0] == fragments[0] && pieces[2 * 0 + 1] == Decimal(values[0]);
      var f, d, t := fragments[0], Decimal(values[0]), Joined(rest);
      assert f + (d + t) == f + d + t;
    }
  }

  // --------------------------------------------------------------- enumeration

  /** The tuples that going through the domain yields. */
  function Listed(p: Pattern): seq<seq<int>> {
    CounterEnumeratesProduct(p.domains);
    Cart(p.domains)[..Product(p.domains) % TWO_32]
  }

  /** Enumerated tuples are canonical, as long as the pattern has axes, and accepted. */
  lemma EnumeratedTuple(p: Pattern, t: seq<int>)
    requires ValidPattern(p) && t in Cart(p.domains)
    ensures |t| == |p.domains| && Canonical(t) && Trim(t) == t && InDomain(p, t)
  {
    CartMembers(p.domains, t);
    DimCovers(p.inputPos);
    hide CalcInputDomain, Ascending, Cart;
    forall a | 0 <= a < |p.domains| ensures t[a] >= UNSPECIFIED && p.domains[a].Contains(t[a]) {
      assert p.domains[a].Enumerates(t[a]);
    }
    if t != [] {
      DomainMeaning(p, |t| - 1);
      assert p.domains[|t| - 1].Enumerates(t[|t| - 1]);
    }
  }

  lemma RangesAreValid(p: Pattern)
    requires ValidPattern(p)
    ensures ValidRanges(p.domains)
  {
    forall a | 0 <= a < |p.domains| ensures p.domains[a].Valid() {
      DomainMeaning(p, a);
    }
  }

  method DomainOf(p: Pattern) returns (result: seq<seq<int>>)
    requires ValidPattern(p)
    ensures result == Listed(p)
  {
    hide Tuple, Trim, Cart, Product, Listed;
    result := DomainVec(p.domains);
    ListedAt(p);
  }

  lemma ListedAt(p: Pattern)
    requires ValidPattern(p)
    ensures |Listed(p)| == Product(p.domains) % TWO_32
    ensures forall k :: 0 <= k < |Listed(p)| ==> Product(p.domains) > 0 && Listed(p)[k] == Trim(Tuple(p.domains, k))
  {
    hide Tuple, Trim, Cart, Product;
    CounterEnumeratesProduct(p.domains);
    forall k | 0 <= k < |Listed(p)| ensures Listed(p)[k] == Trim(Tuple(p.domains, k)) {
      assert Cart(p.domains)[k] in Cart(p.domains);
      EnumeratedTuple(p, Cart(p.domains)[k]);
    }
  }

  function Matching(p: Pattern, str: string, ts: seq<seq<int>>): seq<seq<int>>
    requires ValidPattern(p)
  {
    if ts == [] then []
    else
      var n := |ts| - 1;
      Matching(p, str, ts[..n]) + (if Eval(p, ts[n]) == Some(str) then [ts[n]] else [])
  }

  /** All enumerated tuples at which the pattern evaluates to the string. */
  method Match(p: Pattern, str: string) returns (res: seq<seq<int>>)
    requires ValidPattern(p)
    ensures res == Matching(p, str, Listed(p))
  {
    res := [];
    var args := DomainOf(p);
    for i := 0 to |args|
      invariant res == Matching(p, str, args[..i])
    {
      assert args[..i + 1][..i] == args[..i];
      var value := EvalAt(p, args[i]);
      if value == Some(str) {
        res := res + [args[i]];
      }
    }
    assert args[..|args|] == args;
  }

  lemma {:induction false} MatchingMembers(p: Pattern, str: string, ts: seq<seq<int>>)
    requires ValidPattern(p)
    ensures forall x :: x in Matching(p, str, ts) <==> x in ts && Eval(p, x) == Some(str)
  {
    if ts != [] {
      MatchingMembers(p, str, ts[..|ts| - 1]);
      assert ts == ts[..|ts| - 1] + [ts[|ts| - 1]];
    }
  }

  ghost predicate Ascends(ts: seq<seq<int>>) {
    forall i, j :: 0 <= i < j < |ts| ==> Less(ts[i], ts[j])
  }

  lemma {:induction false} MatchingAscends(p: Pattern, str: string, ts: seq<seq<int>>)
    requires ValidPattern(p) && Ascends(ts)
    ensures Ascends(Matching(p, str, ts))
  {
    if ts != [] {
      var n := |ts| - 1;
      MatchingAscends(p, str, ts[..n]);
      MatchingMembers(p, str, ts[..n]);
      var before := Matching(p, str, ts[..n]);
      forall i | 0 <= i < |before| ensures Less(before[i], ts[n]) {
        assert before[i] in ts[..n];
        var k :| 0 <= k < n && ts[k] == before[i];
      }
    }
  }

  lemma ListedAscends(p: Pattern)
    requires ValidPattern(p)
    ensures Ascends(Listed(p))
  {
    hide Tuple, Cart, Product, Less, Times;
    CounterEnumeratesProduct(p.domains);
    RangesAreValid(p);
    forall i, j | 0 <= i < j < |Listed(p)| ensures Less(Listed(p)[i], Listed(p)[j]) {
      CounterAscends(p.domains, i, j);
    }
  }

  /** The enumeration misses nothing as long as its size does not wrap. */
  ghost predicate Fits(p: Pattern) {
    Product(p.domains) < TWO_32
  }

  lemma ListedAll(p: Pattern)
    requires ValidPattern(p) && Fits(p)
    ensures Listed(p) == Cart(p.domains)
    ensures forall x :: x in Listed(p) <==> InProduct(p.domains, x)
  {
    hide Cart, Product, Tuple;
    CounterEnumeratesProduct(p.domains);
    forall x ensures x in Cart(p.domains) <==> InProduct(p.domains, x) {
      CartMembers(p.domains, x);
    }
  }

  /** What `match` returns: the preimage of the string, in ascending order, within
      the whole domain unless its size wraps. */
  lemma MatchIsPreimage(p: Pattern, str: string)
    requires ValidPattern(p)
    ensures Ascends(Matching(p, str, Listed(p)))
    ensures Fits(p) ==>
      forall x :: (x in Matching(p, str, Listed(p)) <==> InProduct(p.domains, x) && Eval(p, x) == Some(str))
  {
    hide Listed, Eval, Less, InProduct, Product;
    ListedAscends(p);
    MatchingAscends(p, str, Listed(p));
    MatchingMembers(p, str, Listed(p));
    if Fits(p) {
      ListedAll(p);
    }
  }

  // --------------------------------------------------------------- injectivity

  /** Whether the domain has as many elements as the set of its values. */
  ghost predicate IsInjective(p: Pattern)
    requires ValidPattern(p)
  {
    |set x | x in Listed(p)| == |set x | x in Listed(p) :: Eval(p, x)|
  }

  ghost predicate OneToOne(p: Pattern, ts: set<seq<int>>)
    requires ValidPattern(p)
  {
    forall x, y :: x in ts && y in ts && Eval(p, x) == Eval(p, y) ==> x == y
  }

  lemma {:induction false} SameSizeIffOneToOne(p: Pattern, ts: set<seq<int>>)
    requires ValidPattern(p)
    ensures |set x | x in ts :: Eval(p, x)| <= |ts|
    ensures |set x | x in ts :: Eval(p, x)| == |ts| <==> OneToOne(p, ts)
    decreases |ts|
  {
    hide Eval, ValidPattern;
    if ts != {} {
      var t :| t in ts;
      var rest := ts - {t};
      var image, restImage := (set x | x in ts :: Eval(p, x)), (set x | x in rest :: Eval(p, x));
      SameSizeIffOneToOne(p, rest);
      assert image == restImage + {Eval(p, t)};
      if Eval(p, t) in restImage {
        assert image == restImage;
        var u :| u in rest && Eval(p, u) == Eval(p, t);
        assert u != t && u in ts;
      } else {
        forall x | x in rest ensures Eval(p, x) != Eval(p, t) {
          assert Eval(p, x) in restImage;
        }
      }
    }
  }

  /** Comparing the two sizes tells exactly whether matching is unambiguous. */
  lemma InjectiveIffMatchUnique(p: Pattern)
    requires ValidPattern(p)
    ensures IsInjective(p) <==> (forall str :: MatchesOnce(p, str))
  {
    hide MatchesOnce;
    InjectiveIffOneToOne(p);
    if OneToOne(p, set x | x in Listed(p)) {
      forall str ensures MatchesOnce(p, str) {
        OneToOneMatchesOnce(p, str);
      }
    }
    if forall str :: MatchesOnce(p, str) {
      MatchesOnceOneToOne(p);
    }
  }

  ghost predicate MatchesOnce(p: Pattern, str: string)
    requires ValidPattern(p)
  {
    |Matching(p, str, Listed(p))| <= 1
  }

  lemma InjectiveIffOneToOne(p: Pattern)
    requires ValidPattern(p)
    ensures IsInjective(p) <==> OneToOne(p, set x | x in Listed(p))
  {
    hide Listed, Eval, ValidPattern;
    var ts := set x | x in Listed(p);
    SameSizeIffOneToOne(p, ts);
    assert (set x | x in ts :: Eval(p, x)) == (set x | x in Listed(p) :: Eval(p, x));
  }

  lemma OneToOneMatchesOnce(p: Pattern, str: string)
    requires ValidPattern(p) && OneToOne(p, set x | x in Listed(p))
    ensures MatchesOnce(p, str)
  {
    hide Listed, Eval, Matching, ValidPattern, Less;
    var m := Matching(p, str, Listed(p));
    MatchingMembers(p, str, Listed(p));
    if |m| > 1 {
      assert m[0] in m && m[1] in m;
      MatchingTwo(p, str);
    }
  }

  lemma MatchesOnceOneToOne(p: Pattern)
    requires ValidPattern(p) && forall str :: MatchesOnce(p, str)
    ensures OneToOne(p, set x | x in Listed(p))
  {
    hide Listed, Eval, Matching, ValidPattern;
    forall x, y | x in Listed(p) && y in Listed(p) && Eval(p, x) == Eval(p, y) ensures x == y {
      ListedEvaluates(p, x);
      var str := Eval(p, x).value;
      MatchingMembers(p, str, Listed(p));
      assert MatchesOnce(p, str);
      assert x in Matching(p, str, Listed(p)) && y in Matching(p, str, Listed(p));
    }
  }

  lemma MatchingTwo(p: Pattern, str: string)
    requires ValidPattern(p) && |Matching(p, str, Listed(p))| > 1
    ensures Matching(p, str, Listed(p))[0] != Matching(p, str, Listed(p))[1]
  {
    MatchIsPreimage(p, str);
    LessIsAsymmetric(Matching(p, str, Listed(p))[0], Matching(p, str, Listed(p))[1]);
  }

  lemma ListedEvaluates(p: Pattern, x: seq<int>)
    requires ValidPattern(p) && x in Listed(p)
    ensures Eval(p, x).Some?
  {
    assert x in Cart(p.domains);
    EnumeratedTuple(p, x);
  }

  /** `determineDeviceIndex`: the first match, or the empty tuple. */
  method DetermineDeviceIndex(p: Pattern, objPath: string) returns (r: seq<int>)
    requires ValidPattern(p)
    ensures Matching(p, objPath, Listed(p)) == [] ==> r == []
    ensures Matching(p, objPath, Listed(p)) != [] ==> r == Matching(p, objPath, Listed(p))[0]
  {
    var indexes := Match(p, objPath);
    if |indexes| > 0 {
      return indexes[0];
    }
    return [];
  }

  /** For an injective pattern it undoes evaluation on the whole domain. */
  lemma DeviceIndexRoundTrip(p: Pattern, x: seq<int>)
    requires ValidPattern(p) && IsInjective(p) && x in Listed(p)
    ensures Eval(p, x).Some? && Matching(p, Eval(p, x).value, Listed(p)) == [x]
  {
    hide Listed, Eval, Matching;
    ListedEvaluates(p, x);
    InjectiveIffMatchUnique(p);
    assert MatchesOnce(p, Eval(p, x).value);
    MatchingMembers(p, Eval(p, x).value, Listed(p));
    assert x in Matching(p, Eval(p, x).value, Listed(p));
  }
}
