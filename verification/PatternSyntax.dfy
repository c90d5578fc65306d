/** The device id language (include/device_id.hpp): the parser chain, and the text
    it reads back without loss. */
module PatternSyntax {
  import opened PropertyValues
  import opened Decimals
  import opened PatternIndexes
  import opened CartesianProducts
  import opened Patterns

  const INT_MAX: nat := 0x7FFF_FFFF

  // ----------------------------------------------------------------- splitting

  /** `boost::split` without token compression. */
  function Split(s: string, delims: set<char>): (r: seq<string>)
    ensures r != []
  {
    if s == "" then [""]
    else
      var rest := Split(s[1..], delims);
      if s[0] in delims then [""] + rest else [[s[0]] + rest[0]] + rest[1..]
  }

  predicate Free(s: string, delims: set<char>) {
    forall c :: c in s ==> c !in delims
  }

  lemma {:induction false} SplitNone(s: string, delims: set<char>)
    requires Free(s, delims)
    ensures Split(s, delims) == [s]
  {
    if s != "" {
      SplitNone(s[1..], delims);
      assert s == [s[0]] + s[1..];
    }
  }

  lemma {:induction false} SplitAt(a: string, c: char, rest: string, delims: set<char>)
    requires Free(a, delims) && c in delims
    ensures Split(a + [c] + rest, delims) == [a] + Split(rest, delims)
  {
    var s := a + [c] + rest;
    if a == "" {
      assert s[1..] == rest;
    } else {
      SplitAt(a[1..], c, rest, delims);
      assert s[1..] == a[1..] + [c] + rest;
      assert a == [a[0]] + a[1..];
    }
  }

  lemma SplitTwo(a: string, c: char, b: string, delims: set<char>)
    requires Free(a, delims) && Free(b, delims) && c in delims
    ensures Split(a + [c] + b, delims) == [a, b]
  {
    SplitAt(a, c, b, delims);
    SplitNone(b, delims);
  }

  // ------------------------------------------------------------------- parsing

  /** `std::from_chars` into a signed int, of which only non-negative values pass. */
  function ParseNonNegativeInt(s: string): Option<nat> {
    var digits := if s != "" && s[0] == '-' then s[1..] else s;
    if digits == "" || !AllDigits(digits) then None
    else if digits == s && Value(digits) <= INT_MAX then Some(Value(digits))
    else if digits != s && Value(digits) == 0 then Some(0)
    else None
  }

  datatype BracketRange = BracketRange(left: nat, right: nat) {
    function Size(): int {
      right - left + 1
    }

    predicate Contains(k: nat) {
      left <= k <= right
    }
  }

  function ParseRange(s: string): Option<BracketRange> {
    var elements := Split(s, {'-'});
    if |elements| == 1 then
      match ParseNonNegativeInt(elements[0])
      case Some(n) => Some(BracketRange(n, n))
      case None => None
    else if |elements| == 2 then
      match (ParseNonNegativeInt(elements[0]), ParseNonNegativeInt(elements[1]))
      case (Some(left), Some(right)) => if left <= right then Some(BracketRange(left, right)) else None
      case _ => None
    else None
  }

  datatype BracketRangeMap = BracketRangeMap(from: BracketRange, to: BracketRange) {
    function Image(k: nat): nat
      requires from.Contains(k)
    {
      if to.Size() == 1 then to.left else to.left + (k - from.left)
    }
  }

  /** The ranges must be of one length, or the second of length one. */
  function MakeRangeMap(from: BracketRange, to: BracketRange): Option<BracketRangeMap> {
    if from.Size() == to.Size() || to.Size() == 1 then Some(BracketRangeMap(from, to)) else None
  }

  function ParseRangeMap(s: string): Option<BracketRangeMap> {
    var elements := Split(s, {':'});
    if |elements| == 1 then
      match ParseRange(elements[0])
      case Some(range) => MakeRangeMap(range, range)
      case None => None
    else if |elements| == 2 then
      match (ParseRange(elements[0]), ParseRange(elements[1]))
      case (Some(from), Some(to)) => MakeRangeMap(from, to)
      case _ => None
    else None
  }

  /** The map that a pair of ranges stands for. */
  function MapOf(m: BracketRangeMap): BracketMap {
    map k: nat | k <= m.from.right && m.from.Contains(k) :: m.Image(k)
  }

  /** The conversion as it is carried out, key by key. */
  method ToBracketMap(m: BracketRangeMap) returns (result: BracketMap)
    requires m.from.left <= m.from.right && m.to.left <= m.to.right
    requires m.from.Size() == m.to.Size() || m.to.Size() == 1
    ensures result == MapOf(m)
  {
    result := map[];
    if m.to.Size() == 1 {
      for key := m.from.left to m.from.right + 1
        invariant result == map k: nat | k < key && m.from.Contains(k) :: m.Image(k)
      {
        result := result[key := m.to.left];
      }
    } else {
      var value := m.to.left;
      for key := m.from.left to m.from.right + 1
        invariant value == key - m.from.left + m.to.left
        invariant result == map k: nat | k < key && m.from.Contains(k) :: m.Image(k)
      {
        result := result[key := value];
        value := value + 1;
      }
    }
  }

  /** Lists of mappings are not supported. */
  function ParseBracketMap(s: string): Option<BracketRangeMap> {
    var elements := Split(s, {','});
    if |elements| == 1 then ParseRangeMap(elements[0]) else None
  }

  /** A bracket map with its input position, implicit when none was written. */
  datatype IndexedBracketMap = IndexedBracketMap(inputPosition: Option<nat>, indexMap: BracketMap)

  function ParseIndexed(s: string): Option<IndexedBracketMap> {
    var elements := Split(s, {'|'});
    if |elements| == 1 then
      match ParseBracketMap(elements[0])
      case Some(m) => Some(IndexedBracketMap(None, MapOf(m)))
      case None => None
    else if |elements| == 2 then
      match (ParseNonNegativeInt(elements[0]), ParseBracketMap(elements[1]))
      case (Some(pos), Some(m)) => Some(IndexedBracketMap(Some(pos), MapOf(m)))
      case _ => None
    else None
  }

  // --------------------------------------------------------- the whole pattern

  const BRACKETS: set<char> := {'[', ']'}

  function Texts(pieces: seq<string>): seq<string> {
    seq((|pieces| + 1) / 2, i requires 0 <= i < (|pieces| + 1) / 2 => pieces[2 * i])
  }

  function Contents(pieces: seq<string>): seq<string> {
    seq(|pieces| / 2, i requires 0 <= i < |pieces| / 2 => pieces[2 * i + 1])
  }

  /** Pieces alternate between text and bracket contents, whichever of the two
      bracket characters stands between them. */
  method SeparateTextAndBracketContents(str: string) returns (ok: bool, texts: seq<string>, contents: seq<string>)
    ensures ok <==> |Split(str, BRACKETS)| % 2 == 1
    ensures ok ==> texts == Texts(Split(str, BRACKETS)) && contents == Contents(Split(str, BRACKETS))
  {
    var result := Split(str, BRACKETS);
    texts, contents := [], [];
    if |result| % 2 == 0 {
      return false, texts, contents;
    }
    texts := [result[0]];
    var i := 1;
    while i < |result|
      invariant 1 <= i <= |result| && i % 2 == 1
      invariant texts == Texts(result[..i])
      invariant contents == Contents(result[..i])
    {
      contents := contents + [result[i]];
      texts := texts + [result[i + 1]];
      i := i + 2;
    }
    assert result[..i] == result;
    return true, texts, contents;
  }

  function ParseAll(contents: seq<string>): Option<seq<IndexedBracketMap>> {
    if contents == [] then Some([])
    else
      var n := |contents| - 1;
      match (ParseAll(contents[..n]), ParseIndexed(contents[n]))
      case (Some(front), Some(last)) => Some(front + [last])
      case _ => None
  }

  /** An implicit position is the position of the bracket. */
  function ExplicitPosition(position: Option<nat>, bracket: nat): nat {
    match position case Some(pos) => pos case None => bracket
  }

  method FillImplicitInputPositions(mappings: seq<IndexedBracketMap>) returns (filled: seq<IndexedBracketMap>)
    ensures |filled| == |mappings|
    ensures forall b: nat :: b < |mappings| ==>
      filled[b] == mappings[b].(inputPosition := Some(ExplicitPosition(mappings[b].inputPosition, b)))
    ensures forall b: nat :: b < |mappings| ==>
      && filled[b].indexMap == mappings[b].indexMap
      && filled[b].inputPosition == if mappings[b].inputPosition == None then Some(b) else mappings[b].inputPosition
  {
    filled := mappings;
    for i := 0 to |mappings|
      invariant |filled| == |mappings|
      invariant forall b: nat :: b < i ==>
        filled[b] == mappings[b].(inputPosition := Some(ExplicitPosition(mappings[b].inputPosition, b)))
      invariant forall b :: i <= b < |mappings| ==> filled[b] == mappings[b]
    {
      if filled[i].inputPosition.None? {
        filled := filled[i := filled[i].(inputPosition := Some(i))];
      }
    }
  }

  function MakePattern(fragments: seq<string>, mappings: seq<IndexedBracketMap>): (p: Pattern)
    requires |fragments| == |mappings| + 1
    ensures ValidPattern(p)
  {
    var inputPos := seq(|mappings|, b requires 0 <= b < |mappings| => ExplicitPosition(mappings[b].inputPosition, b));
    var maps := seq(|mappings|, b requires 0 <= b < |mappings| => mappings[b].indexMap);
    Pattern(fragments, inputPos, maps, CalcInputDomains(inputPos, maps))
  }

  lemma {:induction false} ParseAllLength(contents: seq<string>)
    ensures ParseAll(contents).Some? ==> |ParseAll(contents).value| == |contents|
  {
    if contents != [] {
      ParseAllLength(contents[..|contents| - 1]);
    }
  }

  /** The pattern that a text denotes, if any. */
  function Parsed(str: string): (r: Option<Pattern>)
    ensures r.Some? ==> ValidPattern(r.value)
  {
    var pieces := Split(str, BRACKETS);
    if |pieces| % 2 == 0 then None
    else
      ParseAllLength(Contents(pieces));
      match ParseAll(Contents(pieces))
      case Some(mappings) => Some(MakePattern(Texts(pieces), mappings))
      case None => None
  }

  method ParseContents(contents: seq<string>) returns (r: Option<seq<IndexedBracketMap>>)
    ensures r == ParseAll(contents)
  {
    hide ParseIndexed;
    var mappings: seq<IndexedBracketMap> := [];
    for i := 0 to |contents|
      invariant ParseAll(contents[..i]) == Some(mappings)
    {
      assert contents[..i + 1][..i] == contents[..i];
      var parsed := ParseIndexed(contents[i]);
      if parsed.None? {
        RejectedPrefix(contents, i + 1);
        return None;
      }
      mappings := mappings + [parsed.value];
    }
    assert contents[..|contents|] == contents;
    return Some(mappings);
  }

  method Assemble(fragments: seq<string>, mappings: seq<IndexedBracketMap>) returns (p: Pattern)
    requires |fragments| == |mappings| + 1
    ensures p == MakePattern(fragments, mappings)
  {
    hide CalcInputDomains;
    var filled := FillImplicitInputPositions(mappings);
    var inputPos, maps := [], [];
    for i := 0 to |filled|
      invariant |inputPos| == |maps| == i
      invariant forall b: nat :: b < i ==> inputPos[b] == ExplicitPosition(mappings[b].inputPosition, b)
      invariant forall b :: 0 <= b < i ==> maps[b] == mappings[b].indexMap
    {
      inputPos := inputPos + [filled[i].inputPosition.value];
      maps := maps + [filled[i].indexMap];
    }
    var domains := DomainsOf(inputPos, maps);
    p := Pattern(fragments, inputPos, maps, domains);
    ghost var q := MakePattern(fragments, mappings);
    assert inputPos == q.inputPos && maps == q.maps;
  }

  method DomainsOf(inputPos: seq<nat>, maps: seq<BracketMap>) returns (domains: seq<Domain>)
    requires |inputPos| == |maps|
    ensures domains == CalcInputDomains(inputPos, maps)
  {
    var positions := CalcInputIndexToBracketPoss(inputPos);
    domains := [];
    hide CalcInputDomain, Dim, PositionsOf;
    for a := 0 to |positions|
      invariant domains == CalcInputDomains(inputPos, maps)[..a]
    {
      PositionsMembers(inputPos, a);
      domains := domains + [CalcInputDomain(positions[a], maps)];
    }
  }

  /** The constructor of a pattern, pass by pass. */
  method ConstructPattern(str: string) returns (r: Option<Pattern>)
    ensures r == Parsed(str)
  {
    hide Split, ParseAll, MakePattern, Texts, Contents;
    var ok, fragments, contents := SeparateTextAndBracketContents(str);
    if !ok {
      return None;
    }
    var mappings := ParseContents(contents);
    if mappings.None? {
      return None;
    }
    PiecesAlternate(Split(str, BRACKETS));
    ParseAllLength(contents);
    var p := Assemble(fragments, mappings.value);
    return Some(p);
  }

  lemma PiecesAlternate(pieces: seq<string>)
    requires |pieces| % 2 == 1
    ensures |Texts(pieces)| == |Contents(pieces)| + 1
  {
  }

  lemma {:induction false} RejectedPrefix(contents: seq<string>, n: nat)
    requires n <= |contents| && ParseAll(contents[..n]).None?
    ensures ParseAll(contents).None?
    decreases |contents| - n
  {
    if n < |contents| {
      assert contents[..n + 1][..n] == contents[..n];
      RejectedPrefix(contents, n + 1);
    } else {
      assert contents[..n] == contents;
    }
  }

  // ---------------------------------------------------------------- round trip

  /** A range as it may be written. */
  datatype RangeText = Single(n: nat) | Span(l: nat, r: nat) {
    function Show(): string {
      match this
      case Single(n) => Decimal(n)
      case Span(l, r) => Decimal(l) + ['-'] + Decimal(r)
    }

    function Range(): BracketRange {
      match this
      case Single(n) => BracketRange(n, n)
      case Span(l, r) => BracketRange(l, r)
    }

    predicate WellFormed() {
      Range().left <= Range().right && Range().left <= INT_MAX && Range().right <= INT_MAX
    }
  }

  /** The contents of a bracket: `p|a-b:c-d`, with `p|` and `:c-d` optional. */
  datatype BracketText = BracketText(position: Option<nat>, from: RangeText, to: Option<RangeText>) {
    function ShowMap(): string {
      match to
      case None => from.Show()
      case Some(t) => from.Show() + [':'] + t.Show()
    }

    function Show(): string {
      match position
      case None => ShowMap()
      case Some(pos) => Decimal(pos) + ['|'] + ShowMap()
    }

    function Ranges(): BracketRangeMap {
      BracketRangeMap(from.Range(), match to case None => from.Range() case Some(t) => t.Range())
    }

    predicate WellFormed() {
      && from.WellFormed()
      && (to.Some? ==> to.value.WellFormed())
      && (to.Some? ==> from.Range().Size() == to.value.Range().Size() || to.value.Range().Size() == 1)
      && (position.Some? ==> position.value <= INT_MAX)
    }
  }

  lemma ParseDecimal(n: nat)
    ensures ParseNonNegativeInt(Decimal(n)) == if n <= INT_MAX then Some(n) else None
  {
    ValueOfDecimal(n);
    DecimalIsCanonical(n);
  }

  /** Digits and the characters used inside ranges. */
  lemma ShowIsFree(t: RangeText)
    ensures forall c :: c in t.Show() ==> IsDigit(c) || c == '-'
  {
  }

  lemma ParseRangeText(t: RangeText)
    ensures ParseRange(t.Show()) == if t.WellFormed() then Some(t.Range()) else None
  {
    match t
    case Single(n) =>
      SplitNone(Decimal(n), {'-'});
      ParseDecimal(n);
    case Span(l, r) =>
      SplitTwo(Decimal(l), '-', Decimal(r), {'-'});
      ParseDecimal(l);
      ParseDecimal(r);
  }

  lemma ParseRangeMapText(b: BracketText)
    ensures ParseRangeMap(b.ShowMap()) == if b.(position := None).WellFormed() then Some(b.Ranges()) else None
  {
    ShowIsFree(b.from);
    ParseRangeText(b.from);
    match b.to
    case None => SplitNone(b.from.Show(), {':'});
    case Some(t) =>
      ShowIsFree(t);
      SplitTwo(b.from.Show(), ':', t.Show(), {':'});
      ParseRangeText(t);
  }

  lemma ShowMapIsFree(b: BracketText)
    ensures forall c :: c in b.ShowMap() ==> IsDigit(c) || c == '-' || c == ':'
  {
    ShowIsFree(b.from);
    if b.to.Some? {
      ShowIsFree(b.to.value);
    }
  }

  /** What is written for a bracket is read back, and accepted exactly when it is
      well formed. */
  lemma ParseIndexedText(b: BracketText)
    ensures ParseIndexed(b.Show())
         == if b.WellFormed() then Some(IndexedBracketMap(b.position, MapOf(b.Ranges()))) else None
  {
    hide MapOf, ParseRangeMap, ParseNonNegativeInt;
    ShowMapIsFree(b);
    SplitNone(b.ShowMap(), {','});
    ParseRangeMapText(b);
    match b.position
    case None => SplitNone(b.ShowMap(), {'|'});
    case Some(pos) =>
      SplitTwo(Decimal(pos), '|', b.ShowMap(), {'|'});
      ParseDecimal(pos);
  }

  /** The map read covers exactly a..b and is constant or shifts by a fixed offset. */
  lemma MapOfText(b: BracketText)
    requires b.WellFormed()
    ensures forall k :: k in MapOf(b.Ranges()) <==> b.from.Range().left <= k <= b.from.Range().right
    ensures forall k :: k in MapOf(b.Ranges()) ==>
      MapOf(b.Ranges())[k] == (match b.to
                               case None => k
                               case Some(t) =>
                                 if t.Range().left == t.Range().right then t.Range().left
                                 else k - b.from.Range().left + t.Range().left)
  {
  }

  function Write(fragments: seq<string>, contents: seq<string>): string
    requires |fragments| == |contents| + 1
  {
    if contents == [] then fragments[0]
    else fragments[0] + ['['] + (contents[0] + [']'] + Write(fragments[1..], contents[1..]))
  }

  lemma {:induction false} SplitWritten(fragments: seq<string>, contents: seq<string>)
    requires |fragments| == |contents| + 1
    requires forall i :: 0 <= i < |fragments| ==> Free(fragments[i], BRACKETS)
    requires forall i :: 0 <= i < |contents| ==> Free(contents[i], BRACKETS)
    ensures |Split(Write(fragments, contents), BRACKETS)| == 2 * |contents| + 1
    ensures Texts(Split(Write(fragments, contents), BRACKETS)) == fragments
    ensures Contents(Split(Write(fragments, contents), BRACKETS)) == contents
    decreases |contents|
  {
    if contents == [] {
      SplitNone(fragments[0], BRACKETS);
    } else {
      hide Free, Split, Texts, Contents;
      var rest := Write(fragments[1..], contents[1..]);
      SplitWritten(fragments[1..], contents[1..]);
      SplitAt(contents[0], ']', rest, BRACKETS);
      SplitAt(fragments[0], '[', contents[0] + [']'] + rest, BRACKETS);
      assert contents[0] + [']'] + rest == contents[0] + ([']'] + rest);
      TwoMorePieces(fragments[0], contents[0], Split(rest, BRACKETS));
    }
  }

  lemma TwoMorePieces(text: string, content: string, pieces: seq<string>)
    ensures [text] + ([content] + pieces) == [text, content] + pieces
    ensures Texts([text, content] + pieces) == [text] + Texts(pieces)
    ensures Contents([text, content] + pieces) == [content] + Contents(pieces)
  {
    var all := [text, content] + pieces;
    var texts, contents := [text] + Texts(pieces), [content] + Contents(pieces);
    forall i | 0 <= i < |texts| ensures texts[i] == all[2 * i] {
      if i > 0 {
        assert texts[i] == Texts(pieces)[i - 1] == pieces[2 * (i - 1)];
      }
    }
    forall i | 0 <= i < |contents| ensures contents[i] == all[2 * i + 1] {
      if i > 0 {
        assert contents[i] == Contents(pieces)[i - 1] == pieces[2 * (i - 1) + 1];
      }
    }
    assert Texts(all) == texts;
    assert Contents(all) == contents;
  }

  function Shown(brackets: seq<BracketText>): seq<string> {
    seq(|brackets|, b requires 0 <= b < |brackets| => brackets[b].Show())
  }

  lemma ShownIsFree(brackets: seq<BracketText>)
    ensures |Shown(brackets)| == |brackets|
    ensures forall i :: 0 <= i < |brackets| ==> Free(Shown(brackets)[i], BRACKETS)
  {
    forall i | 0 <= i < |brackets| ensures Free(Shown(brackets)[i], BRACKETS) {
      ShowMapIsFree(brackets[i]);
    }
  }

  /** What the brackets of a text stand for. */
  function Denoted(brackets: seq<BracketText>): seq<IndexedBracketMap> {
    seq(|brackets|, b requires 0 <= b < |brackets| =>
      IndexedBracketMap(brackets[b].position, MapOf(brackets[b].Ranges())))
  }

  predicate AllWellFormed(brackets: seq<BracketText>) {
    forall b :: 0 <= b < |brackets| ==> brackets[b].WellFormed()
  }

  lemma LastBracket(brackets: seq<BracketText>, n: nat)
    requires |brackets| == n + 1
    ensures Shown(brackets)[..n] == Shown(brackets[..n])
    ensures Denoted(brackets)
         == Denoted(brackets[..n]) + [IndexedBracketMap(brackets[n].position, MapOf(brackets[n].Ranges()))]
    ensures AllWellFormed(brackets) <==> AllWellFormed(brackets[..n]) && brackets[n].WellFormed()
  {
    hide MapOf;
    assert AllWellFormed(brackets[..n]) ==> forall b :: 0 <= b < n ==> brackets[..n][b].WellFormed();
  }

  lemma {:induction false} ParseAllShown(brackets: seq<BracketText>)
    ensures ParseAll(Shown(brackets)) == if AllWellFormed(brackets) then Some(Denoted(brackets)) else None
  {
    hide MapOf, ParseIndexed;
    if brackets != [] {
      hide Denoted, AllWellFormed;
      var n := |brackets| - 1;
      LastBracket(brackets, n);
      ParseAllShown(brackets[..n]);
      ParseIndexedText(brackets[n]);
    } else {
      assert Denoted(brackets) == [];
    }
  }

  /** Parsing undoes writing: it accepts exactly the texts whose brackets are all
      well formed, and recovers fragments, positions and maps. */
  lemma ParseUndoesWrite(fragments: seq<string>, brackets: seq<BracketText>)
    requires |fragments| == |brackets| + 1
    requires forall i :: 0 <= i < |fragments| ==> Free(fragments[i], BRACKETS)
    ensures Parsed(Write(fragments, Shown(brackets)))
         == if AllWellFormed(brackets) then Some(MakePattern(fragments, Denoted(brackets))) else None
  {
    hide ParseAll, Write, Split, MakePattern, Shown, Free;
    ShownIsFree(brackets);
    SplitWritten(fragments, Shown(brackets));
    ParseAllShown(brackets);
  }

  function Low(t: RangeText): nat {
    match t case Single(n) => n case Span(l, _) => l
  }

  function High(t: RangeText): nat {
    match t case Single(n) => n case Span(_, r) => r
  }

  /** A range that ascends and whose numbers fit an int. */
  predicate IsRange(t: RangeText) {
    Low(t) <= High(t) <= 2147483647
  }

  predicate IsBracket(b: BracketText) {
    && IsRange(b.from) && (b.position.None? || b.position.value <= 2147483647)
    && (b.to.None? || (IsRange(b.to.value)
                       && (Low(b.to.value) == High(b.to.value)
                           || High(b.to.value) - Low(b.to.value) == High(b.from) - Low(b.from))))
  }

  /** What is read from the text of some fragments and brackets: these very fragments;
      for each bracket the position written, or its own number where none is; and a map
      defined exactly on its range, constant or shifted. */
  lemma ParsedMeans(fragments: seq<string>, brackets: seq<BracketText>)
    requires |fragments| == |brackets| + 1
    requires forall i :: 0 <= i < |fragments| ==> Free(fragments[i], BRACKETS)
    ensures
      var r := Parsed(Write(fragments, Shown(brackets)));
      && (r.Some? <==> forall b :: 0 <= b < |brackets| ==> IsBracket(brackets[b]))
      && (r.Some? ==>
            && r.value.fragments == fragments && |r.value.inputPos| == |r.value.maps| == |brackets|
            && forall b: nat :: b < |brackets| ==>
                 && r.value.inputPos[b] == (match brackets[b].position case Some(pos) => pos case None => b)
                 && ReadsAs(r.value.maps[b], brackets[b]))
  {
    hide Write, Shown, Parsed, CalcInputDomains, Free;
    ParseUndoesWrite(fragments, brackets);
    forall b | 0 <= b < |brackets| ensures brackets[b].WellFormed() <==> IsBracket(brackets[b]) {
    }
    if AllWellFormed(brackets) {
      var p := MakePattern(fragments, Denoted(brackets));
      forall b: nat | b < |brackets|
        ensures p.inputPos[b] == (match brackets[b].position case Some(pos) => pos case None => b)
        ensures ReadsAs(p.maps[b], brackets[b])
      {
        MapReads(brackets[b]);
      }
    }
  }

  ghost predicate ReadsAs(m: BracketMap, b: BracketText) {
    && (forall k: nat :: k in m <==> Low(b.from) <= k <= High(b.from))
    && forall k: nat :: k in m ==>
         m[k] == (match b.to
                  case None => k
                  case Some(t) => if Low(t) == High(t) then Low(t) else Low(t) + k - Low(b.from))
  }

  lemma MapReads(b: BracketText)
    requires b.WellFormed()
    ensures ReadsAs(MapOf(b.Ranges()), b)
  {
    MapOfText(b);
  }

  /** Text without a digit other than a number: what is read as a number at all. */
  lemma NumberMeans(s: string)
    ensures ParseNonNegativeInt(s).Some? <==>
      || (s != "" && AllDigits(s) && Value(s) <= 2147483647)
      || (|s| > 1 && s[0] == '-' && AllDigits(s[1..]) && Value(s[1..]) == 0)
    ensures s != "" && AllDigits(s) && Value(s) <= 2147483647 ==> ParseNonNegativeInt(s) == Some(Value(s))
    ensures |s| > 1 && s[0] == '-' && AllDigits(s[1..]) && Value(s[1..]) == 0 ==> ParseNonNegativeInt(s) == Some(0)
  {
  }

  /** Two brackets without positions are two axes. */
  lemma TwoAxesExample()
    ensures Parsed("GPU[0-7]_SXM[0-7]").Some?
    ensures Eval(Parsed("GPU[0-7]_SXM[0-7]").value, [3, 5]) == Some("GPU3_SXM5")
  {
    var w := BracketText(None, Span(0, 7), None);
    TwoAxesTexts();
    Numerals();
    hide Parsed, Decimal, Eval, BracketText.Show;
    Example(["GPU", "_SXM", ""], w, w, [3, 5], 3, 5, "GPU[0-7]_SXM[0-7]", "GPU3_SXM5");
  }

  /** Two brackets on one axis, the first of which shifts. */
  lemma OneAxisExample()
    ensures Parsed("NVSW[0|1-8:0-7]_[0|1-8]").Some?
    ensures Eval(Parsed("NVSW[0|1-8:0-7]_[0|1-8]").value, [3]) == Some("NVSW2_3")
  {
    var v, w := BracketText(Some(0), Span(1, 8), Some(Span(0, 7))), BracketText(Some(0), Span(1, 8), None);
    OneAxisBrackets();
    OneAxisTexts();
    OneAxisFree();
    Numerals();
    hide Parsed, Decimal, Eval, BracketText.Show, Free;
    Example(["NVSW", "_", ""], v, w, [3], 2, 3, "NVSW[0|1-8:0-7]_[0|1-8]", "NVSW2_3");
  }

  lemma Example(fragments: seq<string>, v: BracketText, w: BracketText, pi: seq<int>, x: nat, y: nat,
                text: string, name: string)
    requires |fragments| == 3 && forall i :: 0 <= i < 3 ==> Free(fragments[i], BRACKETS)
    requires IsBracket(v) && Low(v.from) <= Input(v, 0, pi) <= High(v.from) && x == Output(v, Input(v, 0, pi))
    requires IsBracket(w) && Low(w.from) <= Input(w, 1, pi) <= High(w.from) && y == Output(w, Input(w, 1, pi))
    requires text == fragments[0] + "[" + v.Show() + "]" + fragments[1] + "[" + w.Show() + "]" + fragments[2]
    requires name == fragments[0] + Decimal(x) + fragments[1] + Decimal(y) + fragments[2]
    ensures Parsed(text).Some? && Eval(Parsed(text).value, pi) == Some(name)
  {
    hide Parsed, Write, Shown, Decimal, Eval, BracketText.Show, Free;
    WriteTwo(fragments, v, w);
    EvalTwo(fragments, v, w, pi);
  }

  lemma TwoAxesTexts()
    ensures BracketText(None, Span(0, 7), None).Show() == "0-7"
    ensures "GPU" + "[" + "0-7" + "]" + "_SXM" + "[" + "0-7" + "]" + "" == "GPU[0-7]_SXM[0-7]"
    ensures "GPU" + "3" + "_SXM" + "5" + "" == "GPU3_SXM5"
  {
    Numerals();
  }

  lemma OneAxisBrackets()
    ensures BracketText(Some(0), Span(1, 8), None).Show() == "0|1-8"
    ensures BracketText(Some(0), Span(1, 8), Some(Span(0, 7))).Show() == "0|1-8:0-7"
  {
    Numerals();
    hide Decimal;
    assert Span(1, 8).Show() == "1-8" && Span(0, 7).Show() == "0-7";
    assert "1-8" + ":" + "0-7" == "1-8:0-7";
  }

  lemma OneAxisTexts()
    ensures "NVSW" + "[" + "0|1-8:0-7" + "]" + "_" + "[" + "0|1-8" + "]" + "" == "NVSW[0|1-8:0-7]_[0|1-8]"
    ensures "NVSW" + "2" + "_" + "3" + "" == "NVSW2_3"
  {
  }

  lemma OneAxisFree()
    ensures Free("NVSW", BRACKETS) && Free("_", BRACKETS) && Free("", BRACKETS)
  {
  }

  lemma Numerals()
    ensures Decimal(0) == "0" && Decimal(1) == "1" && Decimal(2) == "2" && Decimal(3) == "3" && Decimal(5) == "5"
    ensures Decimal(7) == "7" && Decimal(8) == "8" && Decimal(105) == "105"
  {
    assert Decimal(10) == "10";
  }

  lemma WriteTwo(fragments: seq<string>, v: BracketText, w: BracketText)
    requires |fragments| == 3
    ensures |Shown([v, w])| == 2
    ensures Write(fragments, Shown([v, w]))
         == fragments[0] + "[" + v.Show() + "]" + fragments[1] + "[" + w.Show() + "]" + fragments[2]
  {
    hide BracketText.Show;
    var contents := Shown([v, w]);
    assert contents == [v.Show(), w.Show()] && contents[1..] == [w.Show()];
    WriteOne(fragments[1..], w.Show());
    var last := fragments[1] + "[" + w.Show() + "]" + fragments[2];
    var a := fragments[0] + "[";
    assert Write(fragments, contents) == a + (v.Show() + ("]" + last));
    assert a + (v.Show() + ("]" + last)) == a + v.Show() + "]" + last;
    assert a + v.Show() + "]" + last == a + v.Show() + "]" + fragments[1] + "[" + w.Show() + "]" + fragments[2];
  }

  lemma WriteOne(fragments: seq<string>, content: string)
    requires |fragments| == 2
    ensures Write(fragments, [content]) == fragments[0] + "[" + content + "]" + fragments[1]
  {
    assert [content][1..] == [] && fragments[1..] == [fragments[1]];
    assert Write([fragments[1]], []) == fragments[1];
    assert fragments[0] + "[" + (content + ("]" + fragments[1])) == fragments[0] + "[" + content + "]" + fragments[1];
  }

  /** The value that a bracket gets in a tuple, and what it makes of it. */
  function Input(b: BracketText, number: nat, pi: seq<int>): int {
    At(pi, match b.position case Some(pos) => pos case None => number)
  }

  function Output(b: BracketText, k: int): int {
    match b.to
    case None => k
    case Some(t) => if Low(t) == High(t) then Low(t) else Low(t) + k - Low(b.from)
  }

  lemma EvalTwo(fragments: seq<string>, v: BracketText, w: BracketText, pi: seq<int>)
    requires |fragments| == 3 && forall i :: 0 <= i < 3 ==> Free(fragments[i], BRACKETS)
    requires IsBracket(v) && Low(v.from) <= Input(v, 0, pi) <= High(v.from)
    requires IsBracket(w) && Low(w.from) <= Input(w, 1, pi) <= High(w.from)
    ensures |Shown([v, w])| == 2 && Parsed(Write(fragments, Shown([v, w]))).Some?
    ensures Output(v, Input(v, 0, pi)) >= 0 && Output(w, Input(w, 1, pi)) >= 0
    ensures Eval(Parsed(Write(fragments, Shown([v, w]))).value, pi)
         == Some(fragments[0] + Decimal(Output(v, Input(v, 0, pi)))
                 + fragments[1] + Decimal(Output(w, Input(w, 1, pi))) + fragments[2])
  {
    ShownIsFree([v, w]);
    hide Write, Shown, Parsed, CalcInputDomain, CalcInputDomains, Decimal, Render, Free, InDomain;
    ParsedMeans(fragments, [v, w]);
    assert forall b :: 0 <= b < 2 ==> IsBracket([v, w][b]);
    var p := Parsed(Write(fragments, Shown([v, w]))).value;
    hide ReadsAs, IsBracket, MapsDefined, Outputs;
    OutputsTwo(p, v, w, pi);
    AcceptedIffMapsDefined(p, pi);
    RenderTwo(fragments, Output(v, Input(v, 0, pi)), Output(w, Input(w, 1, pi)));
  }

  lemma OutputsTwo(p: Pattern, v: BracketText, w: BracketText, pi: seq<int>)
    requires |p.maps| == |p.inputPos| == 2 && ReadsAs(p.maps[0], v) && ReadsAs(p.maps[1], w)
    requires p.inputPos[0] == (match v.position case Some(pos) => pos case None => 0)
    requires p.inputPos[1] == (match w.position case Some(pos) => pos case None => 1)
    requires Low(v.from) <= Input(v, 0, pi) <= High(v.from) && Low(w.from) <= Input(w, 1, pi) <= High(w.from)
    ensures MapsDefined(p, pi)
    ensures Output(v, Input(v, 0, pi)) >= 0 && Output(w, Input(w, 1, pi)) >= 0
    ensures Outputs(p, pi) == [Output(v, Input(v, 0, pi)), Output(w, Input(w, 1, pi))]
  {
  }

  lemma RenderTwo(fragments: seq<string>, x: nat, y: nat)
    requires |fragments| == 3
    ensures Render(fragments, [x, y]) == fragments[0] + Decimal(x) + fragments[1] + Decimal(y) + fragments[2]
  {
    hide Decimal;
    RenderOne(fragments[1..], y);
    assert [x, y][1..] == [y];
    var a, last := fragments[0] + Decimal(x), fragments[1] + Decimal(y) + fragments[2];
    assert Render(fragments, [x, y]) == a + last;
    Regroup(a, fragments[1], Decimal(y), fragments[2]);
  }

  lemma RenderOne(fragments: seq<string>, y: nat)
    requires |fragments| == 2
    ensures Render(fragments, [y]) == fragments[0] + Decimal(y) + fragments[1]
  {
    hide Decimal;
    assert [y][1..] == [] && fragments[1..] == [fragments[1]];
    assert Render([fragments[1]], []) == fragments[1];
  }

  lemma Regroup(a: string, b: string, c: string, d: string)
    ensures a + (b + c + d) == a + b + c + d
  {
  }

  /** Lists of mappings never parse, although the notation foresees them. */
  lemma ListsAreRejected(content: string)
    requires ',' in content
    ensures ParseIndexed(content).None?
  {
    hide ParseRangeMap, MapOf, Split;
    var elements := Split(content, {'|'});
    SplitKeeps(content, {'|'}, ',');
    var i :| 0 <= i < |elements| && ',' in elements[i];
    SplitMore(elements[i], {','});
    assert !AllDigits(elements[i]);
  }

  lemma {:induction false} SplitKeeps(s: string, delims: set<char>, c: char)
    requires c in s && c !in delims
    ensures exists i :: 0 <= i < |Split(s, delims)| && c in Split(s, delims)[i]
  {
    var rest := Split(s[1..], delims);
    if s[0] == c {
      assert c in Split(s, delims)[0];
    } else {
      SplitKeeps(s[1..], delims, c);
      var i :| 0 <= i < |rest| && c in rest[i];
      if s[0] in delims {
        assert c in Split(s, delims)[i + 1];
      } else {
        assert c in Split(s, delims)[i];
      }
    }
  }

  lemma {:induction false} SplitMore(s: string, delims: set<char>)
    requires exists c :: c in s && c in delims
    ensures |Split(s, delims)| > 1
  {
    if s[0] !in delims {
      var c :| c in s && c in delims;
      assert c in s[1..];
      SplitMore(s[1..], delims);
    }
  }
}
