/** JSON documents, addresses inside them and patterned documents
    (src/json_proc.cpp, include/json_proc.hpp). */
module JsonProc {
  import opened PropertyValues
  import opened Decimals
  import opened PatternIndexes
  import opened Patterns
  import opened PatternSyntax

  datatype NumberKind = Integer | Unsigned | Float

  datatype ValueType = NullType | BooleanType | NumberType(kind: NumberKind) | StringType | ArrayType | ObjectType

  /** The members of an object are kept in the order in which they are visited. */
  datatype Json =
    | Null
    | Boolean(flag: bool)
    | Number(kind: NumberKind, value: real)
    | Str(text: string)
    | Arr(items: seq<Json>)
    | Obj(members: seq<Member>)
  {
    function Type(): ValueType {
      match this
      case Null => NullType
      case Boolean(_) => BooleanType
      case Number(kind, _) => NumberType(kind)
      case Str(_) => StringType
      case Arr(_) => ArrayType
      case Obj(_) => ObjectType
    }

    function Children(): seq<Json> {
      match this
      case Arr(items) => items
      case Obj(members) => seq(|members|, i requires 0 <= i < |members| => members[i].value)
      case _ => []
    }
  }

  datatype Member = Member(key: string, value: Json)

  predicate DistinctKeys(members: seq<Member>) {
    forall i, j :: 0 <= i < j < |members| ==> members[i].key != members[j].key
  }

  /** What the container guarantees: no key twice. */
  predicate Valid(js: Json) {
    match js
    case Arr(items) => forall i :: 0 <= i < |items| ==> Valid(items[i])
    case Obj(members) => DistinctKeys(members) && forall i :: 0 <= i < |members| ==> Valid(members[i].value)
    case _ => true
  }

  // ------------------------------------------------------------------- addresses

  datatype PathElement = Key(key: string) | Index(index: nat)
  type Path = seq<PathElement>

  /** Where the key stands among the members. */
  function Find(members: seq<Member>, key: string): (r: Option<nat>)
    ensures r.Some? ==> r.value < |members| && members[r.value].key == key
    ensures r.None? ==> forall i :: 0 <= i < |members| ==> members[i].key != key
  {
    if members == [] then None
    else if members[0].key == key then Some(0)
    else
      match Find(members[1..], key)
      case Some(i) => Some(i + 1)
      case None => None
  }

  function Child(js: Json, coordinate: PathElement): Option<Json> {
    match (js, coordinate)
    case (Obj(members), Key(key)) =>
      (match Find(members, key) case Some(i) => Some(members[i].value) case None => None)
    case (Arr(items), Index(i)) => if i < |items| then Some(items[i]) else None
    case _ => None
  }

  /** The node at an address, if there is one. */
  function OptionalNodeAt(js: Json, path: Path): Option<Json>
    decreases |path|
  {
    if path == [] then Some(js)
    else
      match Child(js, path[0])
      case Some(child) => OptionalNodeAt(child, path[1..])
      case None => None
  }

  predicate Contains(js: Json, path: Path) {
    OptionalNodeAt(js, path).Some?
  }

  lemma FindDistinct(members: seq<Member>, i: nat)
    requires DistinctKeys(members) && i < |members|
    ensures Find(members, members[i].key) == Some(i)
  {
  }

  lemma DeeperNode(js: Json, coordinate: PathElement, path: Path)
    requires Child(js, coordinate).Some?
    ensures OptionalNodeAt(js, [coordinate] + path) == OptionalNodeAt(Child(js, coordinate).value, path)
  {
    assert ([coordinate] + path)[1..] == path;
  }

  /** An address leads to the whole document if it is empty, from an array by an index
      within it, from an object by the key of a member, and nowhere else. */
  lemma NodeAtMeans(js: Json, path: Path)
    requires Valid(js)
    ensures OptionalNodeAt(js, []) == Some(js)
    ensures js.Arr? ==> forall i: nat ::
      (OptionalNodeAt(js, [Index(i)] + path) == if i < |js.items| then OptionalNodeAt(js.items[i], path) else None)
    ensures js.Obj? ==> forall i :: 0 <= i < |js.members| ==>
      OptionalNodeAt(js, [Key(js.members[i].key)] + path) == OptionalNodeAt(js.members[i].value, path)
    ensures js.Obj? ==> forall key :: (forall m :: m in js.members ==> m.key != key) ==>
      OptionalNodeAt(js, [Key(key)] + path) == None
    ensures !js.Arr? ==> forall i :: OptionalNodeAt(js, [Index(i)] + path) == None
    ensures !js.Obj? ==> forall key :: OptionalNodeAt(js, [Key(key)] + path) == None
  {
    hide Find;
    forall coordinate: PathElement ensures ([coordinate] + path)[1..] == path {
    }
    if js.Obj? {
      forall i | 0 <= i < |js.members| ensures Find(js.members, js.members[i].key) == Some(i) {
        FindDistinct(js.members, i);
      }
      forall key | forall m :: m in js.members ==> m.key != key ensures Find(js.members, key).None? {
        NotFound(js.members, key);
      }
    }
  }

  lemma NotFound(members: seq<Member>, key: string)
    ensures Find(members, key).Some? ==> exists m :: m in members && m.key == key
  {
    if Find(members, key).Some? {
      assert members[Find(members, key).value] in members;
    }
  }

  /** A chain of coordinates as a descending algorithm keeps it, last one first. */
  datatype StackJsonPath = Top | Step(previous: StackJsonPath, element: PathElement)

  function PathOf(node: StackJsonPath): Path {
    match node
    case Top => []
    case Step(previous, element) => PathOf(previous) + [element]
  }

  method GetPath(startNode: StackJsonPath) returns (result: Path)
    ensures result == PathOf(startNode)
  {
    result := [];
    var node := startNode;
    while node != Top
      invariant PathOf(startNode) == PathOf(node) + result
      decreases node
    {
      result := [node.element] + result;
      node := node.previous;
    }
  }

  // --------------------------------------------------------- patterned documents

  function EvalText(text: string, pi: seq<int>): Option<string> {
    match Parsed(text)
    case Some(p) => Eval(p, pi)
    case None => None
  }

  /** Every string read as a pattern and evaluated; nothing if any of them fails. */
  function EvalJson(js: Json, pi: seq<int>): Option<Json>
    decreases js, 0
  {
    match js
    case Str(text) =>
      (match EvalText(text, pi) case Some(s) => Some(Str(s)) case None => None)
    case Arr(items) =>
      if forall i :: 0 <= i < |items| ==> EvalJson(items[i], pi).Some?
      then Some(Arr(seq(|items|, i requires 0 <= i < |items| => EvalJson(items[i], pi).value)))
      else None
    case Obj(members) =>
      if forall i :: 0 <= i < |members| ==> EvalJson(members[i].value, pi).Some?
      then Some(Obj(seq(|members|, i requires 0 <= i < |members| =>
                    Member(members[i].key, EvalJson(members[i].value, pi).value))))
      else None
    case _ => Some(js)
  }

  /** Evaluation as it is carried out, overwriting a copy of the document. */
  method EvalInto(js: Json, pi: seq<int>, copy: Json) returns (ok: bool, result: Json)
    requires copy == js
    ensures ok <==> EvalJson(js, pi).Some?
    ensures ok ==> result == EvalJson(js, pi).value
    decreases js
  {
    result := copy;
    match js
    case Str(text) =>
      var p := ConstructPattern(text);
      if p.None? {
        return false, result;
      }
      var s := EvalAt(p.value, pi);
      if s.None? {
        return false, result;
      }
      return true, Str(s.value);
    case Arr(items) =>
      for i := 0 to |items|
        invariant result.Arr? && |result.items| == |items|
        invariant forall k :: 0 <= k < i ==> EvalJson(items[k], pi) == Some(result.items[k])
        invariant forall k :: i <= k < |items| ==> result.items[k] == items[k]
      {
        var good, v := EvalInto(items[i], pi, result.items[i]);
        if !good {
          return false, result;
        }
        result := Arr(result.items[i := v]);
      }
      return true, result;
    case Obj(members) =>
      for i := 0 to |members|
        invariant result.Obj? && |result.members| == |members|
        invariant forall k :: 0 <= k < |members| ==> result.members[k].key == members[k].key
        invariant forall k :: 0 <= k < i ==> EvalJson(members[k].value, pi) == Some(result.members[k].value)
        invariant forall k :: i <= k < |members| ==> result.members[k] == members[k]
      {
        var good, v := EvalInto(members[i].value, pi, result.members[i].value);
        if !good {
          return false, result;
        }
        result := Obj(result.members[i := result.members[i].(value := v)]);
      }
      return true, result;
    case _ =>
      return true, result;
  }

  /** Two documents that differ in the text of strings only. */
  predicate SameShape(a: Json, b: Json) {
    match (a, b)
    case (Str(_), Str(_)) => true
    case (Arr(x), Arr(y)) => |x| == |y| && forall i :: 0 <= i < |x| ==> SameShape(x[i], y[i])
    case (Obj(x), Obj(y)) =>
      |x| == |y| && forall i :: 0 <= i < |x| ==> x[i].key == y[i].key && SameShape(x[i].value, y[i].value)
    case _ => a == b && a.Children() == []
  }

  lemma {:induction false} EvalKeepsShape(js: Json, pi: seq<int>)
    requires EvalJson(js, pi).Some?
    ensures SameShape(js, EvalJson(js, pi).value)
    ensures Valid(js) ==> Valid(EvalJson(js, pi).value)
    decreases js
  {
    hide EvalText;
    match js
    case Arr(items) =>
      forall i | 0 <= i < |items|
        ensures SameShape(items[i], EvalJson(items[i], pi).value)
        ensures Valid(items[i]) ==> Valid(EvalJson(items[i], pi).value)
      {
        EvalKeepsShape(items[i], pi);
      }
    case Obj(members) =>
      forall i | 0 <= i < |members|
        ensures SameShape(members[i].value, EvalJson(members[i].value, pi).value)
        ensures Valid(members[i].value) ==> Valid(EvalJson(members[i].value, pi).value)
      {
        EvalKeepsShape(members[i].value, pi);
      }
    case _ =>
  }

  /** Evaluating and then going to an address is going there and then evaluating. */
  lemma {:induction false} EvalCommutesWithAddress(js: Json, pi: seq<int>, path: Path)
    requires EvalJson(js, pi).Some?
    ensures Contains(EvalJson(js, pi).value, path) <==> Contains(js, path)
    ensures Contains(js, path) ==>
      OptionalNodeAt(EvalJson(js, pi).value, path) == EvalJson(OptionalNodeAt(js, path).value, pi)
    decreases |path|
  {
    hide EvalText;
    if path != [] {
      EvalCommutesWithChild(js, pi, path[0]);
      if Child(js, path[0]).Some? {
        EvalCommutesWithAddress(Child(js, path[0]).value, pi, path[1..]);
      }
    }
  }

  lemma EvalCommutesWithChild(js: Json, pi: seq<int>, coordinate: PathElement)
    requires EvalJson(js, pi).Some?
    ensures Child(js, coordinate).Some? ==>
      Child(EvalJson(js, pi).value, coordinate) == EvalJson(Child(js, coordinate).value, pi)
    ensures Child(js, coordinate).Some? ==> EvalJson(Child(js, coordinate).value, pi).Some?
    ensures Child(js, coordinate).None? ==> Child(EvalJson(js, pi).value, coordinate).None?
  {
    hide EvalText;
    if js.Obj? && coordinate.Key? {
      FindSameKeys(js.members, EvalJson(js, pi).value.members, coordinate.key);
    }
  }

  lemma {:induction false} FindSameKeys(a: seq<Member>, b: seq<Member>, key: string)
    requires |a| == |b| && forall i :: 0 <= i < |a| ==> a[i].key == b[i].key
    ensures Find(a, key) == Find(b, key)
    decreases |a|
  {
    if a != [] {
      FindSameKeys(a[1..], b[1..], key);
    }
  }

  /** At every address: a string becomes what its pattern evaluates to, an array keeps its
      length and an object its keys, and everything else stays. */
  lemma EvalAtAddress(js: Json, pi: seq<int>, path: Path)
    requires EvalJson(js, pi).Some? && Contains(js, path)
    ensures Contains(EvalJson(js, pi).value, path)
    ensures
      var was, now := OptionalNodeAt(js, path).value, OptionalNodeAt(EvalJson(js, pi).value, path).value;
      match was
      case Str(text) => Parsed(text).Some? && Eval(Parsed(text).value, pi).Some?
                        && now == Str(Eval(Parsed(text).value, pi).value)
      case Arr(items) => now.Arr? && |now.items| == |items|
      case Obj(members) => now.Obj? && |now.members| == |members|
                           && forall i :: 0 <= i < |members| ==> now.members[i].key == members[i].key
      case _ => now == was
  {
    hide Parsed, Eval;
    EvalCommutesWithAddress(js, pi, path);
  }

  /** Evaluation fails exactly when some string in the document does. */
  lemma {:induction false} EvalSucceedsIff(js: Json, pi: seq<int>)
    requires Valid(js)
    ensures EvalJson(js, pi).Some? <==> forall path :: StringsEvaluate(js, path, pi)
    decreases js
  {
    hide EvalText;
    assert StringsEvaluate(js, [], pi) <==> (js.Str? ==> EvalText(js.text, pi).Some?);
    if EvalJson(js, pi).Some? {
      forall path ensures StringsEvaluate(js, path, pi) {
        EvalCommutesWithAddress(js, pi, path);
      }
    } else if !js.Str? {
      var coordinate, child := FailingChild(js, pi);
      EvalSucceedsIff(child, pi);
      var rest: Path :| !StringsEvaluate(child, rest, pi);
      DeeperNode(js, coordinate, rest);
      assert !StringsEvaluate(js, [coordinate] + rest, pi);
    }
  }

  predicate StringsEvaluate(js: Json, path: Path, pi: seq<int>) {
    var node := OptionalNodeAt(js, path);
    node.Some? && node.value.Str? ==> EvalText(node.value.text, pi).Some?
  }

  lemma FailingChild(js: Json, pi: seq<int>) returns (coordinate: PathElement, child: Json)
    requires Valid(js) && EvalJson(js, pi).None? && !js.Str?
    ensures Child(js, coordinate) == Some(child) && EvalJson(child, pi).None? && Valid(child) && child < js
  {
    hide EvalText;
    match js
    case Arr(items) =>
      var i :| 0 <= i < |items| && EvalJson(items[i], pi).None?;
      coordinate, child := Index(i), items[i];
    case Obj(members) =>
      var i :| 0 <= i < |members| && EvalJson(members[i].value, pi).None?;
      FindDistinct(members, i);
      coordinate, child := Key(members[i].key), members[i].value;
  }

  // ----------------------------------------------------------------- idempotence

  lemma {:induction false} PiecesAreFree(s: string, delims: set<char>)
    ensures forall i :: 0 <= i < |Split(s, delims)| ==> Free(Split(s, delims)[i], delims)
  {
    if s != "" {
      PiecesAreFree(s[1..], delims);
    }
  }

  lemma {:induction false} RenderIsFree(fragments: seq<string>, values: seq<nat>)
    requires |fragments| == |values| + 1
    requires forall i :: 0 <= i < |fragments| ==> Free(fragments[i], BRACKETS)
    ensures Free(Render(fragments, values), BRACKETS)
    decreases |values|
  {
    if values != [] {
      RenderIsFree(fragments[1..], values[1..]);
      assert Free(Decimal(values[0]), BRACKETS);
    }
  }

  /** No bracket survives evaluation. */
  lemma EvalTextIsFree(text: string, pi: seq<int>)
    requires EvalText(text, pi).Some?
    ensures Free(EvalText(text, pi).value, BRACKETS)
  {
    hide Split, ParseAll, Render;
    var p := Parsed(text).value;
    PiecesAreFree(text, BRACKETS);
    AcceptedIffMapsDefined(p, pi);
    RenderIsFree(p.fragments, Outputs(p, pi));
  }

  /** Text without brackets evaluates to itself, whatever the index. */
  lemma EvalFreeText(text: string, pi: seq<int>)
    requires Free(text, BRACKETS)
    ensures EvalText(text, pi) == Some(text)
  {
    SplitNone(text, BRACKETS);
    assert Texts([text]) == [text] && Contents([text]) == [];
    var p := Parsed(text).value;
    assert p.inputPos == [] && p.maps == [] && p.domains == [];
    assert Outputs(p, pi) == [];
  }

  /** Evaluating once more, at any index, changes nothing. */
  lemma {:induction false} EvalIsIdempotent(js: Json, pi: seq<int>, pj: seq<int>)
    requires EvalJson(js, pi).Some?
    ensures EvalJson(EvalJson(js, pi).value, pj) == EvalJson(js, pi)
    decreases js
  {
    hide EvalText;
    match js
    case Str(text) =>
      EvalTextIsFree(text, pi);
      EvalFreeText(EvalText(text, pi).value, pj);
    case Arr(items) =>
      var once := EvalJson(js, pi).value;
      forall i | 0 <= i < |items| ensures EvalJson(once.items[i], pj) == Some(once.items[i]) {
        EvalIsIdempotent(items[i], pi, pj);
      }
      assert EvalJson(once, pj).value.items == once.items;
    case Obj(members) =>
      var once := EvalJson(js, pi).value;
      forall i | 0 <= i < |members| ensures EvalJson(once.members[i].value, pj) == Some(once.members[i].value) {
        EvalIsIdempotent(members[i].value, pi, pj);
      }
      assert EvalJson(once, pj).value.members == once.members;
    case _ =>
  }
}
