/** The schema checker (src/json_schema.cpp, include/json_schema.hpp): it collects
    problems while it computes its verdict. */
module JsonSchemas {
  import opened PropertyValues
  import opened JsonProc

  /** A schema. Checks that suit one type of element only occur among the features
      of a schema, where they are passed over for elements of other types. */
  datatype Schema =
    | Literal(value: bool)
    | Features(checkers: seq<Checker>)
    | Types(expected: seq<ValueType>)
    | Values(allowed: seq<Json>)
    | AnyOf(schemas: seq<Schema>)

  datatype Checker =
    | ForAny(schema: Schema)
    | Properties(additional: Schema, known: map<string, Schema>)
    | Items(element: Schema)
    | Required(names: seq<string>)
    | Minimum(lower: real)
    | Maximum(upper: real)
    | MinLength(least: nat)
    | MaxLength(most: nat)
  {
    predicate ForType(t: ValueType) {
      match this
      case ForAny(_) => true
      case Properties(_, _) => t == ObjectType
      case Items(_) => t == ArrayType
      case Required(_) => t == ObjectType
      case Minimum(_) => t.NumberType?
      case Maximum(_) => t.NumberType?
      case MinLength(_) => t == StringType
      case MaxLength(_) => t == StringType
    }
  }

  /** What a problem says; the wording is left out. */
  datatype Message =
    | NotAllowed
    | UnexpectedType(expected: seq<ValueType>, actual: ValueType)
    | UnexpectedValue(allowed: seq<Json>, found: Json)
    | MissingProperty(name: string)
    | BelowMinimum(lower: real, number: Json)
    | AboveMaximum(upper: real, number: Json)
    | TooShort(least: nat, length: nat)
    | TooLong(most: nat, length: nat)
    | NoSchemaMatches
    | OfSchemaNo(no: nat, inner: Message)

  datatype Problem = Problem(path: Path, message: Message)

  class ProblemsCollector {
    var problems: seq<Problem>

    constructor ()
      ensures problems == []
    {
      problems := [];
    }

    method PushBack(problem: Problem)
      modifies this
      ensures problems == old(problems) + [problem]
    {
      problems := problems + [problem];
    }
  }

  /** Equality of values: numbers of different types may be equal, and the order of
      members does not matter. */
  predicate SameValue(a: Json, b: Json) {
    match (a, b)
    case (Number(_, x), Number(_, y)) => x == y
    case (Arr(x), Arr(y)) => |x| == |y| && forall i :: 0 <= i < |x| ==> SameValue(x[i], y[i])
    case (Obj(x), Obj(y)) =>
      |x| == |y| && forall i :: 0 <= i < |x| ==>
        var j := Find(y, x[i].key);
        j.Some? && SameValue(x[i].value, y[j.value].value)
    case _ => a == b
  }

  predicate HasKey(js: Json, key: string) {
    js.Obj? && Find(js.members, key).Some?
  }

  // --------------------------------------------------------- declarative meaning

  /** What it means for a document to satisfy a schema. */
  predicate Satisfies(s: Schema, js: Json)
    decreases s
  {
    match s
    case Literal(value) => value
    case Features(checkers) =>
      forall i :: 0 <= i < |checkers| && checkers[i].ForType(js.Type()) ==> Passes(checkers[i], js)
    case Types(expected) => js.Type() in expected
    case Values(allowed) => exists i :: 0 <= i < |allowed| && SameValue(allowed[i], js)
    case AnyOf(schemas) => exists i :: 0 <= i < |schemas| && Satisfies(schemas[i], js)
  }

  predicate Passes(c: Checker, js: Json)
    requires c.ForType(js.Type())
    decreases c
  {
    match c
    case ForAny(schema) => Satisfies(schema, js)
    case Properties(additional, known) =>
      forall i :: 0 <= i < |Members(js)| ==>
        Satisfies(if Members(js)[i].key in known then known[Members(js)[i].key] else additional, Members(js)[i].value)
    case Items(element) => forall i :: 0 <= i < |Elements(js)| ==> Satisfies(element, Elements(js)[i])
    case Required(names) => forall i :: 0 <= i < |names| ==> HasKey(js, names[i])
    case Minimum(lower) => NumberOf(js) >= lower
    case Maximum(upper) => NumberOf(js) <= upper
    case MinLength(least) => LengthOf(js) >= least
    case MaxLength(most) => LengthOf(js) <= most
  }

  function Members(js: Json): seq<Member> {
    match js case Obj(members) => members case _ => []
  }

  function Elements(js: Json): seq<Json> {
    match js case Arr(items) => items case _ => []
  }

  function NumberOf(js: Json): real {
    match js case Number(_, value) => value case _ => 0.0
  }

  function LengthOf(js: Json): nat {
    match js case Str(text) => |text| case _ => 0
  }

  /** What each kind of schema asks of a document, and each feature of an element of the
      type it is for. */
  lemma SatisfiesMeans(s: Schema, js: Json)
    ensures s.Literal? ==> (Satisfies(s, js) <==> s.value)
    ensures s.Types? ==> (Satisfies(s, js) <==>
      match js
      case Null => NullType in s.expected
      case Boolean(_) => BooleanType in s.expected
      case Number(kind, _) => NumberType(kind) in s.expected
      case Str(_) => StringType in s.expected
      case Arr(_) => ArrayType in s.expected
      case Obj(_) => ObjectType in s.expected)
    ensures s.Values? ==> (Satisfies(s, js) <==> exists v :: v in s.allowed && SameValue(v, js))
    ensures s.AnyOf? ==> (Satisfies(s, js) <==> exists t :: t in s.schemas && Satisfies(t, js))
    ensures s.Features? ==> (Satisfies(s, js) <==> forall c :: c in s.checkers ==> Fulfils(c, js))
  {
    match s
    case Features(checkers) =>
      forall c: Checker ensures Fulfils(c, js) <==> (c.ForType(js.Type()) ==> Passes(c, js)) {
        FulfilsMeans(c, js);
      }
      hide Fulfils, Passes;
      assert forall i :: 0 <= i < |checkers| ==> checkers[i] in checkers;
    case Values(allowed) =>
      assert forall i :: 0 <= i < |allowed| ==> allowed[i] in allowed;
    case AnyOf(schemas) =>
      assert forall i :: 0 <= i < |schemas| ==> schemas[i] in schemas;
    case _ =>
  }

  /** An element of another type fulfils every check that is not for its type. */
  ghost predicate Fulfils(c: Checker, js: Json) {
    match c
    case ForAny(schema) => Satisfies(schema, js)
    case Properties(additional, known) =>
      js.Obj? ==> forall m :: m in js.members ==>
        if m.key in known then Satisfies(known[m.key], m.value) else Satisfies(additional, m.value)
    case Items(element) => js.Arr? ==> forall e :: e in js.items ==> Satisfies(element, e)
    case Required(names) => js.Obj? ==> forall name :: name in names ==> exists m :: m in js.members && m.key == name
    case Minimum(lower) => js.Number? ==> js.value >= lower
    case Maximum(upper) => js.Number? ==> js.value <= upper
    case MinLength(least) => js.Str? ==> |js.text| >= least
    case MaxLength(most) => js.Str? ==> |js.text| <= most
  }

  lemma FulfilsMeans(c: Checker, js: Json)
    ensures Fulfils(c, js) <==> (c.ForType(js.Type()) ==> Passes(c, js))
  {
    hide Satisfies;
    match c
    case Required(names) =>
      if js.Obj? {
        forall name ensures HasKey(js, name) <==> exists m :: m in js.members && m.key == name {
          HasKeyMeans(js.members, name);
        }
        hide HasKey;
        assert forall i :: 0 <= i < |names| ==> names[i] in names;
      }
    case Properties(_, _) =>
      if js.Obj? {
        assert Members(js) == js.members;
        assert forall i :: 0 <= i < |js.members| ==> Members(js)[i] in js.members;
      }
    case Items(_) =>
      if js.Arr? {
        assert Elements(js) == js.items;
        assert forall i :: 0 <= i < |js.items| ==> Elements(js)[i] in js.items;
      }
    case _ =>
  }

  lemma HasKeyMeans(members: seq<Member>, name: string)
    ensures Find(members, name).Some? <==> exists m :: m in members && m.key == name
  {
    if Find(members, name).Some? {
      assert members[Find(members, name).value] in members;
    }
    hide Find;
  }

  /** Which values count as equal: numbers by their value, whatever their kind; texts and
      flags if identical; arrays item by item; objects with the same keys, key by key. */
  lemma SameValueMeans(a: Json, b: Json)
    ensures a.Number? && b.Number? ==> (SameValue(a, b) <==> a.value == b.value)
    ensures a.Str? ==> (SameValue(a, b) <==> b == Str(a.text))
    ensures a.Boolean? ==> (SameValue(a, b) <==> b == Boolean(a.flag))
    ensures a.Null? ==> (SameValue(a, b) <==> b.Null?)
    ensures a.Arr? && b.Arr? ==>
      (SameValue(a, b) <==>
        |a.items| == |b.items| && forall i :: 0 <= i < |a.items| ==> SameValue(a.items[i], b.items[i]))
    ensures a.Obj? && b.Obj? && DistinctKeys(b.members) ==>
      (SameValue(a, b) <==>
        |a.members| == |b.members| && forall m :: m in a.members ==>
          exists n :: n in b.members && n.key == m.key && SameValue(m.value, n.value))
    ensures a.Type() != b.Type() && !(a.Number? && b.Number?) ==> !SameValue(a, b)
  {
    if a.Obj? && b.Obj? && DistinctKeys(b.members) && |a.members| == |b.members| {
      SameMembersMeans(a, b);
    }
  }

  lemma SameMembersMeans(a: Json, b: Json)
    requires a.Obj? && b.Obj? && DistinctKeys(b.members) && |a.members| == |b.members|
    ensures SameValue(a, b) <==> forall m :: m in a.members ==>
      exists n :: n in b.members && n.key == m.key && SameValue(m.value, n.value)
  {
    forall i | 0 <= i < |a.members|
      ensures (exists n :: n in b.members && n.key == a.members[i].key && SameValue(a.members[i].value, n.value))
        <==> var j := Find(b.members, a.members[i].key);
             j.Some? && SameValue(a.members[i].value, b.members[j.value].value)
    {
      OnlyMember(b.members, a.members[i]);
    }
    assert forall i :: 0 <= i < |a.members| ==> a.members[i] in a.members;
  }

  lemma OnlyMember(members: seq<Member>, m: Member)
    requires DistinctKeys(members)
    ensures (exists n :: n in members && n.key == m.key && SameValue(m.value, n.value))
      <==> var j := Find(members, m.key); j.Some? && SameValue(m.value, members[j.value].value)
  {
    var j := Find(members, m.key);
    if j.Some? {
      assert members[j.value] in members;
    }
    forall n | n in members && n.key == m.key ensures j.Some? && n == members[j.value] {
      var k :| 0 <= k < |members| && members[k] == n;
      FindDistinct(members, k);
    }
    hide SameValue, Find;
  }

  // -------------------------------------------------------- the problems reported

  /** The problems with an element at a path, in the order in which they are found. */
  function Problems(s: Schema, js: Json, path: Path): seq<Problem>
    decreases s, 1, 0
  {
    match s
    case Literal(value) => if value then [] else [Problem(path, NotAllowed)]
    case Features(checkers) => FeatureProblems(s, js, path, |checkers|)
    case Types(expected) =>
      if js.Type() in expected then [] else [Problem(path, UnexpectedType(expected, js.Type()))]
    case Values(allowed) =>
      if exists i :: 0 <= i < |allowed| && SameValue(allowed[i], js) then []
      else [Problem(path, UnexpectedValue(allowed, js))]
    case AnyOf(schemas) =>
      if exists i :: 0 <= i < |schemas| && Problems(schemas[i], js, path) == [] then []
      else [Problem(path, NoSchemaMatches)] + SchemaProblems(s, js, path, |schemas|)
  }

  /** Those of the first `n` features. */
  function FeatureProblems(s: Schema, js: Json, path: Path, n: nat): seq<Problem>
    requires s.Features? && n <= |s.checkers|
    decreases s, 0, n
  {
    if n == 0 then []
    else
      FeatureProblems(s, js, path, n - 1)
      + if s.checkers[n - 1].ForType(js.Type()) then CheckerProblems(s.checkers[n - 1], js, path) else []
  }

  /** Those of the first `n` schemas, marked with the number of the schema. */
  function SchemaProblems(s: Schema, js: Json, path: Path, n: nat): seq<Problem>
    requires s.AnyOf? && n <= |s.schemas|
    decreases s, 0, n
  {
    if n == 0 then []
    else SchemaProblems(s, js, path, n - 1) + Marked(Problems(s.schemas[n - 1], js, path), n - 1)
  }

  function Marked(ps: seq<Problem>, no: nat): seq<Problem> {
    seq(|ps|, k requires 0 <= k < |ps| => Problem(ps[k].path, OfSchemaNo(no, ps[k].message)))
  }

  function CheckerProblems(c: Checker, js: Json, path: Path): seq<Problem>
    requires c.ForType(js.Type())
    decreases c, 1, 0
  {
    match c
    case ForAny(schema) => Problems(schema, js, path)
    case Properties(_, _) => MemberProblems(c, Members(js), path, |Members(js)|)
    case Items(_) => ItemProblems(c, Elements(js), path, |Elements(js)|)
    case Required(names) => MissingProblems(names, js, path, |names|)
    case Minimum(lower) => if NumberOf(js) >= lower then [] else [Problem(path, BelowMinimum(lower, js))]
    case Maximum(upper) => if NumberOf(js) <= upper then [] else [Problem(path, AboveMaximum(upper, js))]
    case MinLength(least) => if LengthOf(js) >= least then [] else [Problem(path, TooShort(least, LengthOf(js)))]
    case MaxLength(most) => if LengthOf(js) <= most then [] else [Problem(path, TooLong(most, LengthOf(js)))]
  }

  function MemberProblems(c: Checker, members: seq<Member>, path: Path, n: nat): seq<Problem>
    requires c.Properties? && n <= |members|
    decreases c, 0, n
  {
    if n == 0 then []
    else
      var m := members[n - 1];
      MemberProblems(c, members, path, n - 1)
      + Problems(if m.key in c.known then c.known[m.key] else c.additional, m.value, path + [Key(m.key)])
  }

  function ItemProblems(c: Checker, items: seq<Json>, path: Path, n: nat): seq<Problem>
    requires c.Items? && n <= |items|
    decreases c, 0, n
  {
    if n == 0 then []
    else ItemProblems(c, items, path, n - 1) + Problems(c.element, items[n - 1], path + [Index(n - 1)])
  }

  function MissingProblems(names: seq<string>, js: Json, path: Path, n: nat): seq<Problem>
    requires n <= |names|
  {
    if n == 0 then []
    else
      MissingProblems(names, js, path, n - 1)
      + if HasKey(js, names[n - 1]) then [] else [Problem(path, MissingProperty(names[n - 1]))]
  }

  // ------------------------------------------------------------------ the checker

  method SingleCheck(condition: bool, message: Message, path: StackJsonPath, collector: ProblemsCollector)
    returns (r: bool)
    modifies collector
    ensures r == condition
    ensures collector.problems
         == old(collector.problems) + if condition then [] else [Problem(PathOf(path), message)]
  {
    if !condition {
      var at := GetPath(path);
      collector.PushBack(Problem(at, message));
    }
    return condition;
  }

  /** Problems are only appended, and there are some exactly if the verdict is no. */
  method RawCheck(s: Schema, js: Json, path: StackJsonPath, collector: ProblemsCollector) returns (r: bool)
    modifies collector
    ensures collector.problems == old(collector.problems) + Problems(s, js, PathOf(path))
    ensures r <==> Problems(s, js, PathOf(path)) == []
    decreases s, 1
  {
    match s
    case Literal(value) =>
      r := SingleCheck(value, NotAllowed, path, collector);
    case Features(_) =>
      r := CheckFeatures(s, js, path, collector);
    case Types(expected) =>
      r := SingleCheck(js.Type() in expected, UnexpectedType(expected, js.Type()), path, collector);
    case Values(allowed) =>
      r := SingleCheck(exists i :: 0 <= i < |allowed| && SameValue(allowed[i], js), UnexpectedValue(allowed, js),
                       path, collector);
    case AnyOf(_) =>
      r := CheckAnyOf(s, js, path, collector);
  }

  method CheckFeatures(s: Schema, js: Json, path: StackJsonPath, collector: ProblemsCollector) returns (r: bool)
    requires s.Features?
    modifies collector
    ensures collector.problems == old(collector.problems) + Problems(s, js, PathOf(path))
    ensures r <==> Problems(s, js, PathOf(path)) == []
    decreases s, 0
  {
    r := true;
    hide CheckerProblems;
    for i := 0 to |s.checkers|
      invariant collector.problems == old(collector.problems) + FeatureProblems(s, js, PathOf(path), i)
      invariant r <==> FeatureProblems(s, js, PathOf(path), i) == []
    {
      if s.checkers[i].ForType(js.Type()) {
        var test := CheckFeature(s.checkers[i], js, path, collector);
        r := r && test;
      }
    }
  }

  /** The first schema that matches ends the search; the problems of the others are
      kept aside and reported if none does. */
  method CheckAnyOf(s: Schema, js: Json, path: StackJsonPath, collector: ProblemsCollector) returns (r: bool)
    requires s.AnyOf?
    modifies collector
    ensures collector.problems == old(collector.problems) + Problems(s, js, PathOf(path))
    ensures r <==> Problems(s, js, PathOf(path)) == []
    decreases s, 0
  {
    hide Problems, SchemaProblems;
    ghost var at := PathOf(path);
    r := false;
    var locals: seq<seq<Problem>> := [];
    var i := 0;
    while i < |s.schemas| && !r
      invariant i == |locals| <= |s.schemas|
      invariant collector.problems == old(collector.problems)
      invariant forall k :: 0 <= k < i ==> locals[k] == Problems(s.schemas[k], js, at)
      invariant r <==> exists k :: 0 <= k < i && Problems(s.schemas[k], js, at) == []
    {
      var local := new ProblemsCollector();
      r := RawCheck(s.schemas[i], js, path, local);
      locals := locals + [local.problems];
      i := i + 1;
    }
    AnyOfProblems(s, js, at, i);
    if !r {
      var here := GetPath(path);
      collector.PushBack(Problem(here, NoSchemaMatches));
      ReportAll(s, js, at, locals, collector);
    }
  }

  /** Having looked at the first schemas up to a match, or at all of them. */
  lemma AnyOfProblems(s: Schema, js: Json, at: Path, n: nat)
    requires s.AnyOf? && n <= |s.schemas|
    ensures (exists k :: 0 <= k < n && Problems(s.schemas[k], js, at) == []) ==> Problems(s, js, at) == []
    ensures n == |s.schemas| && !(exists k :: 0 <= k < n && Problems(s.schemas[k], js, at) == []) ==>
      Problems(s, js, at) == [Problem(at, NoSchemaMatches)] + SchemaProblems(s, js, at, n)
  {
  }

  method ReportAll(s: Schema, js: Json, ghost at: Path, locals: seq<seq<Problem>>, collector: ProblemsCollector)
    requires s.AnyOf? && |locals| == |s.schemas|
    requires forall k :: 0 <= k < |locals| ==> locals[k] == Problems(s.schemas[k], js, at)
    modifies collector
    ensures collector.problems == old(collector.problems) + SchemaProblems(s, js, at, |s.schemas|)
  {
    for k := 0 to |locals|
      invariant collector.problems == old(collector.problems) + SchemaProblems(s, js, at, k)
    {
      AppendMarked(locals[k], k, collector);
    }
  }

  method AppendMarked(ps: seq<Problem>, no: nat, collector: ProblemsCollector)
    modifies collector
    ensures collector.problems == old(collector.problems) + Marked(ps, no)
  {
    for j := 0 to |ps|
      invariant collector.problems == old(collector.problems) + Marked(ps[..j], no)
    {
      assert Marked(ps[..j + 1], no) == Marked(ps[..j], no) + [Problem(ps[j].path, OfSchemaNo(no, ps[j].message))];
      collector.PushBack(Problem(ps[j].path, OfSchemaNo(no, ps[j].message)));
    }
    assert ps[..|ps|] == ps;
  }

  method CheckFeature(c: Checker, js: Json, path: StackJsonPath, collector: ProblemsCollector) returns (r: bool)
    requires c.ForType(js.Type())
    modifies collector
    ensures collector.problems == old(collector.problems) + CheckerProblems(c, js, PathOf(path))
    ensures r <==> CheckerProblems(c, js, PathOf(path)) == []
    decreases c, 1
  {
    match c
    case ForAny(schema) =>
      r := RawCheck(schema, js, path, collector);
    case Properties(_, _) =>
      r := CheckProperties(c, js, path, collector);
    case Items(_) =>
      r := CheckItems(c, js, path, collector);
    case Required(names) =>
      r := CheckRequired(names, js, path, collector);
    case Minimum(lower) =>
      r := SingleCheck(NumberOf(js) >= lower, BelowMinimum(lower, js), path, collector);
    case Maximum(upper) =>
      r := SingleCheck(NumberOf(js) <= upper, AboveMaximum(upper, js), path, collector);
    case MinLength(least) =>
      r := SingleCheck(LengthOf(js) >= least, TooShort(least, LengthOf(js)), path, collector);
    case MaxLength(most) =>
      r := SingleCheck(LengthOf(js) <= most, TooLong(most, LengthOf(js)), path, collector);
  }

  method CheckProperties(c: Checker, js: Json, path: StackJsonPath, collector: ProblemsCollector) returns (r: bool)
    requires c.Properties? && js.Obj?
    modifies collector
    ensures collector.problems
         == old(collector.problems) + MemberProblems(c, js.members, PathOf(path), |js.members|)
    ensures r <==> MemberProblems(c, js.members, PathOf(path), |js.members|) == []
    decreases c, 0
  {
    hide Problems, CheckerProblems;
    r := true;
    for i := 0 to |js.members|
      invariant collector.problems == old(collector.problems) + MemberProblems(c, js.members, PathOf(path), i)
      invariant r <==> MemberProblems(c, js.members, PathOf(path), i) == []
    {
      var m := js.members[i];
      var schema := if m.key in c.known then c.known[m.key] else c.additional;
      var test := RawCheck(schema, m.value, Step(path, Key(m.key)), collector);
      r := r && test;
    }
  }

  method CheckItems(c: Checker, js: Json, path: StackJsonPath, collector: ProblemsCollector) returns (r: bool)
    requires c.Items? && js.Arr?
    modifies collector
    ensures collector.problems == old(collector.problems) + ItemProblems(c, js.items, PathOf(path), |js.items|)
    ensures r <==> ItemProblems(c, js.items, PathOf(path), |js.items|) == []
    decreases c, 0
  {
    hide Problems, CheckerProblems;
    r := true;
    for i := 0 to |js.items|
      invariant collector.problems == old(collector.problems) + ItemProblems(c, js.items, PathOf(path), i)
      invariant r <==> ItemProblems(c, js.items, PathOf(path), i) == []
    {
      var test := RawCheck(c.element, js.items[i], Step(path, Index(i)), collector);
      r := r && test;
    }
  }

  method CheckRequired(names: seq<string>, js: Json, path: StackJsonPath, collector: ProblemsCollector)
    returns (r: bool)
    modifies collector
    ensures collector.problems == old(collector.problems) + MissingProblems(names, js, PathOf(path), |names|)
    ensures r <==> MissingProblems(names, js, PathOf(path), |names|) == []
  {
    hide HasKey;
    r := true;
    for i := 0 to |names|
      invariant collector.problems == old(collector.problems) + MissingProblems(names, js, PathOf(path), i)
      invariant r <==> MissingProblems(names, js, PathOf(path), i) == []
    {
      var test := HasKey(js, names[i]);
      if !test {
        var at := GetPath(path);
        collector.PushBack(Problem(at, MissingProperty(names[i])));
      }
      r := r && test;
    }
  }

  // ------------------------------------------------- verdict, problems and meaning

  /** Nothing is reported exactly when the document satisfies the schema. */
  lemma {:induction false} NoProblemsIffSatisfied(s: Schema, js: Json, path: Path)
    ensures Problems(s, js, path) == [] <==> Satisfies(s, js)
    decreases s, 1
  {
    match s
    case Features(checkers) => NoFeatureProblems(s, js, path, |checkers|);
    case AnyOf(schemas) =>
      forall i | 0 <= i < |schemas| ensures Problems(schemas[i], js, path) == [] <==> Satisfies(schemas[i], js) {
        NoProblemsIffSatisfied(schemas[i], js, path);
      }
    case _ =>
  }

  lemma {:induction false} NoFeatureProblems(s: Schema, js: Json, path: Path, n: nat)
    requires s.Features? && n <= |s.checkers|
    ensures FeatureProblems(s, js, path, n) == [] <==>
      forall i :: 0 <= i < n && s.checkers[i].ForType(js.Type()) ==> Passes(s.checkers[i], js)
    decreases s, 0, n
  {
    hide Passes, CheckerProblems;
    if n > 0 {
      NoFeatureProblems(s, js, path, n - 1);
      if s.checkers[n - 1].ForType(js.Type()) {
        NoCheckerProblems(s.checkers[n - 1], js, path);
      }
    }
  }

  lemma {:induction false} NoCheckerProblems(c: Checker, js: Json, path: Path)
    requires c.ForType(js.Type())
    ensures CheckerProblems(c, js, path) == [] <==> Passes(c, js)
    decreases c, 1
  {
    match c
    case ForAny(schema) => NoProblemsIffSatisfied(schema, js, path);
    case Properties(_, _) => NoMemberProblems(c, js.members, path, |js.members|);
    case Items(_) => NoItemProblems(c, js.items, path, |js.items|);
    case Required(names) => NoMissingProblems(names, js, path, |names|);
    case _ =>
  }

  lemma {:induction false} NoMemberProblems(c: Checker, members: seq<Member>, path: Path, n: nat)
    requires c.Properties? && n <= |members|
    ensures MemberProblems(c, members, path, n) == [] <==>
      (forall i :: 0 <= i < n ==>
        Satisfies(if members[i].key in c.known then c.known[members[i].key] else c.additional, members[i].value))
    decreases c, 0, n
  {
    hide Satisfies, Problems;
    if n > 0 {
      var m := members[n - 1];
      NoMemberProblems(c, members, path, n - 1);
      NoProblemsIffSatisfied(if m.key in c.known then c.known[m.key] else c.additional, m.value, path + [Key(m.key)]);
    }
  }

  lemma {:induction false} NoItemProblems(c: Checker, items: seq<Json>, path: Path, n: nat)
    requires c.Items? && n <= |items|
    ensures ItemProblems(c, items, path, n) == [] <==> forall i :: 0 <= i < n ==> Satisfies(c.element, items[i])
    decreases c, 0, n
  {
    hide Satisfies, Problems;
    if n > 0 {
      NoItemProblems(c, items, path, n - 1);
      NoProblemsIffSatisfied(c.element, items[n - 1], path + [Index(n - 1)]);
    }
  }

  lemma {:induction false} NoMissingProblems(names: seq<string>, js: Json, path: Path, n: nat)
    requires n <= |names|
    ensures MissingProblems(names, js, path, n) == [] <==> forall i :: 0 <= i < n ==> HasKey(js, names[i])
    decreases n
  {
    hide HasKey;
    if n > 0 {
      NoMissingProblems(names, js, path, n - 1);
    }
  }

  /** What a schema that is not satisfied reports: one problem at the element itself, or,
      for alternatives, that none matches and then every problem of the alternative number
      `i` under its number. */
  lemma ProblemsMean(s: Schema, js: Json, path: Path)
    requires !Satisfies(s, js)
    ensures s.Literal? ==> Problems(s, js, path) == [Problem(path, NotAllowed)]
    ensures s.Types? ==> Problems(s, js, path) == [Problem(path, UnexpectedType(s.expected, js.Type()))]
    ensures s.Values? ==> Problems(s, js, path) == [Problem(path, UnexpectedValue(s.allowed, js))]
    ensures s.AnyOf? ==>
      var ps := Problems(s, js, path);
      && ps != [] && ps[0] == Problem(path, NoSchemaMatches)
      && forall q, i: nat, m :: Problem(q, OfSchemaNo(i, m)) in ps <==>
           i < |s.schemas| && Problem(q, m) in Problems(s.schemas[i], js, path)
  {
    if s.AnyOf? {
      forall i | 0 <= i < |s.schemas| ensures Problems(s.schemas[i], js, path) != [] {
        NoProblemsIffSatisfied(s.schemas[i], js, path);
      }
      NumberedProblems(s, js, path, |s.schemas|);
    }
  }

  lemma {:induction false} NumberedProblems(s: Schema, js: Json, path: Path, n: nat)
    requires s.AnyOf? && n <= |s.schemas|
    ensures forall q, i: nat, m :: Problem(q, OfSchemaNo(i, m)) in SchemaProblems(s, js, path, n) <==>
      i < n && Problem(q, m) in Problems(s.schemas[i], js, path)
    decreases n
  {
    hide Problems;
    if n > 0 {
      NumberedProblems(s, js, path, n - 1);
      MarkedMembers(Problems(s.schemas[n - 1], js, path), n - 1);
      hide Marked;
    }
  }

  lemma MarkedMembers(ps: seq<Problem>, no: nat)
    ensures forall q, i: nat, m :: Problem(q, OfSchemaNo(i, m)) in Marked(ps, no) <==> i == no && Problem(q, m) in ps
  {
    forall q, i: nat, m: Message
      ensures Problem(q, OfSchemaNo(i, m)) in Marked(ps, no) <==> i == no && Problem(q, m) in ps
    {
      if i == no && Problem(q, m) in ps {
        var k :| 0 <= k < |ps| && ps[k] == Problem(q, m);
        assert Marked(ps, no)[k] == Problem(q, OfSchemaNo(i, m));
      }
    }
  }

  /** A check of a whole document. */
  method Check(s: Schema, js: Json, collector: ProblemsCollector) returns (r: bool)
    modifies collector
    ensures r <==> Satisfies(s, js)
    ensures r <==> collector.problems == old(collector.problems)
    ensures collector.problems == old(collector.problems) + Problems(s, js, [])
  {
    r := RawCheck(s, js, Top, collector);
    NoProblemsIffSatisfied(s, js, []);
  }

  // --------------------------------------------------- where problems are and why

  /** The message is right about the node. */
  predicate TrueOf(message: Message, node: Json) {
    match message
    case NotAllowed => true
    case UnexpectedType(expected, actual) => node.Type() == actual && actual !in expected
    case UnexpectedValue(allowed, found) => node == found && forall v :: v in allowed ==> !SameValue(v, node)
    case MissingProperty(name) => node.Obj? && forall m :: m in node.members ==> m.key != name
    case BelowMinimum(lower, number) => node == number && node.Number? && node.value < lower
    case AboveMaximum(upper, number) => node == number && node.Number? && node.value > upper
    case TooShort(least, length) => node.Str? && |node.text| == length < least
    case TooLong(most, length) => node.Str? && |node.text| == length > most
    case NoSchemaMatches => true
    case OfSchemaNo(_, inner) => TrueOf(inner, node)
  }

  /** The path leads from the element at `base` to a node that the message is right about. */
  predicate InPlace(p: Problem, js: Json, base: Path) {
    && base <= p.path
    && Contains(js, p.path[|base|..])
    && TrueOf(p.message, OptionalNodeAt(js, p.path[|base|..]).value)
  }

  predicate AllInPlace(ps: seq<Problem>, js: Json, base: Path) {
    forall k :: 0 <= k < |ps| ==> InPlace(ps[k], js, base)
  }

  lemma OneInPlace(message: Message, js: Json, base: Path)
    requires TrueOf(message, js)
    ensures AllInPlace([Problem(base, message)], js, base)
  {
    assert base[|base|..] == [];
  }

  /** Every reported path is an address in the document, and what is said is true there. */
  lemma {:induction false} ProblemsAreInPlace(s: Schema, js: Json, base: Path)
    requires Valid(js)
    ensures AllInPlace(Problems(s, js, base), js, base)
    decreases s, 1
  {
    hide InPlace, Valid, SameValue;
    match s
    case Literal(_) => OneInPlace(NotAllowed, js, base);
    case Features(checkers) => FeaturesInPlace(s, js, base, |checkers|);
    case Types(expected) =>
      if js.Type() !in expected {
        OneInPlace(UnexpectedType(expected, js.Type()), js, base);
      }
    case Values(allowed) =>
      if forall i :: 0 <= i < |allowed| ==> !SameValue(allowed[i], js) {
        OneInPlace(UnexpectedValue(allowed, js), js, base);
      }
    case AnyOf(schemas) =>
      OneInPlace(NoSchemaMatches, js, base);
      SchemasInPlace(s, js, base, |schemas|);
  }

  lemma {:induction false} FeaturesInPlace(s: Schema, js: Json, base: Path, n: nat)
    requires Valid(js) && s.Features? && n <= |s.checkers|
    ensures AllInPlace(FeatureProblems(s, js, base, n), js, base)
    decreases s, 0, n
  {
    hide InPlace, Valid, CheckerProblems;
    if n > 0 {
      FeaturesInPlace(s, js, base, n - 1);
      if s.checkers[n - 1].ForType(js.Type()) {
        CheckerInPlace(s.checkers[n - 1], js, base);
      }
    }
  }

  lemma {:induction false} SchemasInPlace(s: Schema, js: Json, base: Path, n: nat)
    requires Valid(js) && s.AnyOf? && n <= |s.schemas|
    ensures AllInPlace(SchemaProblems(s, js, base, n), js, base)
    decreases s, 0, n
  {
    hide Valid, Problems;
    if n > 0 {
      SchemasInPlace(s, js, base, n - 1);
      ProblemsAreInPlace(s.schemas[n - 1], js, base);
      MarkedInPlace(Problems(s.schemas[n - 1], js, base), n - 1, js, base);
      hide InPlace;
    }
  }

  lemma MarkedInPlace(ps: seq<Problem>, no: nat, js: Json, base: Path)
    requires AllInPlace(ps, js, base)
    ensures AllInPlace(Marked(ps, no), js, base)
  {
    forall k | 0 <= k < |ps| ensures InPlace(Marked(ps, no)[k], js, base) {
      assert InPlace(ps[k], js, base);
    }
  }

  lemma {:induction false} CheckerInPlace(c: Checker, js: Json, base: Path)
    requires Valid(js) && c.ForType(js.Type())
    ensures AllInPlace(CheckerProblems(c, js, base), js, base)
    decreases c, 1
  {
    assert base[|base|..] == [];
    match c
    case ForAny(schema) => ProblemsAreInPlace(schema, js, base);
    case Properties(_, _) => MembersInPlace(c, js, base, |js.members|);
    case Items(_) => ItemsInPlace(c, js, base, |js.items|);
    case Required(names) => MissingInPlace(names, js, base, |names|);
    case _ =>
  }

  lemma {:induction false} MembersInPlace(c: Checker, js: Json, base: Path, n: nat)
    requires Valid(js) && c.Properties? && js.Obj? && n <= |js.members|
    ensures AllInPlace(MemberProblems(c, js.members, base, n), js, base)
    decreases c, 0, n
  {
    hide InPlace, Problems;
    if n > 0 {
      var m := js.members[n - 1];
      var schema := if m.key in c.known then c.known[m.key] else c.additional;
      MembersInPlace(c, js, base, n - 1);
      ProblemsAreInPlace(schema, m.value, base + [Key(m.key)]);
      FindDistinct(js.members, n - 1);
      ChildInPlace(Problems(schema, m.value, base + [Key(m.key)]), js, Key(m.key), base);
    }
  }

  lemma {:induction false} ItemsInPlace(c: Checker, js: Json, base: Path, n: nat)
    requires Valid(js) && c.Items? && js.Arr? && n <= |js.items|
    ensures AllInPlace(ItemProblems(c, js.items, base, n), js, base)
    decreases c, 0, n
  {
    hide InPlace, Problems;
    if n > 0 {
      ItemsInPlace(c, js, base, n - 1);
      ProblemsAreInPlace(c.element, js.items[n - 1], base + [Index(n - 1)]);
      ChildInPlace(Problems(c.element, js.items[n - 1], base + [Index(n - 1)]), js, Index(n - 1), base);
    }
  }

  lemma {:induction false} MissingInPlace(names: seq<string>, js: Json, base: Path, n: nat)
    requires js.Obj? && n <= |names|
    ensures AllInPlace(MissingProblems(names, js, base, n), js, base)
    decreases n
  {
    if n > 0 {
      MissingInPlace(names, js, base, n - 1);
      assert base[|base|..] == [];
    }
  }

  /** What is in place below a child is in place below its parent. */
  lemma ChildInPlace(ps: seq<Problem>, js: Json, coordinate: PathElement, base: Path)
    requires Child(js, coordinate).Some?
    requires AllInPlace(ps, Child(js, coordinate).value, base + [coordinate])
    ensures AllInPlace(ps, js, base)
  {
    hide TrueOf, Child;
    forall k | 0 <= k < |ps| ensures InPlace(ps[k], js, base) {
      var path := ps[k].path;
      assert InPlace(ps[k], Child(js, coordinate).value, base + [coordinate]);
      assert path[..|base| + 1] == base + [coordinate];
      var rest := path[|base| + 1..];
      assert path[|base|..] == [coordinate] + rest;
      DeeperNode(js, coordinate, rest);
    }
  }
}
