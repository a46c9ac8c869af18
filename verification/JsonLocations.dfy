// What a path means, without evaluating it: the places in a document that it points
// at. A place is the list of keys and positions that lead to it.
module JsonLocations {
  import opened Wrappers
  import opened Sequences
  import opened Decimal
  import opened JsonTree
  import opened JsonPath

  datatype Step = Key(name: string) | Position(i: nat)

  // A node of a document and where it is.
  datatype Node = Node(place: seq<Step>, value: Json)

  function Children(j: Json): (nodes: seq<Node>) {
    match j
    case Array(items) => seq(|items|, i requires 0 <= i < |items| => Node([Position(i)], items[i]))
    case Object(entries) =>
      seq(|entries|, i requires 0 <= i < |entries| => Node([Key(entries[i].key)], entries[i].value))
    case _ => []
  }

  function Under(place: seq<Step>, nodes: seq<Node>): (r: seq<Node>) {
    seq(|nodes|, i requires 0 <= i < |nodes| => Node(place + nodes[i].place, nodes[i].value))
  }

  // All nodes that are depth steps below j, in the order in which j lists them.
  function NodesAt(j: Json, depth: nat): (nodes: seq<Node>)
    decreases depth, 1, 0
  {
    if depth == 0 then [Node([], j)] else NodesBelow(Children(j), depth - 1)
  }

  function NodesBelow(children: seq<Node>, depth: nat): (nodes: seq<Node>)
    decreases depth, 2, |children|
  {
    if |children| == 0 then []
    else Under(children[0].place, NodesAt(children[0].value, depth)) + NodesBelow(children[1..], depth)
  }

  // A token allows a step: the field of its name, the position of its index, or any.
  predicate Allows(token: PathToken, step: Step) {
    match token
    case FieldToken(name) => step == Key(name)
    case IndexToken(index) => step.Position? && step.i == index
    case WildcardToken => true
  }

  predicate PointsAt(tokens: seq<PathToken>, place: seq<Step>) {
    |tokens| == |place| && forall k :: 0 <= k < |tokens| ==> Allows(tokens[k], place[k])
  }

  // The values of the nodes that a path points at.
  function Pointed(nodes: seq<Node>, tokens: seq<PathToken>): (values: seq<Json>) {
    if |nodes| == 0 then []
    else (if PointsAt(tokens, nodes[0].place) then [nodes[0].value] else []) + Pointed(nodes[1..], tokens)
  }

  // ---------- One step ----------

  lemma {:induction false} PointedConcat(a: seq<Node>, b: seq<Node>, tokens: seq<PathToken>)
    ensures Pointed(a + b, tokens) == Pointed(a, tokens) + Pointed(b, tokens)
  {
    if |a| == 0 {
      assert a + b == b;
    } else {
      PointedConcat(a[1..], b, tokens);
      ConcatTail(a, b);
      Regroup(if PointsAt(tokens, a[0].place) then [a[0].value] else [], Pointed(a[1..], tokens), Pointed(b, tokens));
    }
  }

  lemma PointsOn(tokens: seq<PathToken>, step: Step, place: seq<Step>)
    requires |tokens| > 0
    ensures PointsAt(tokens, [step] + place) <==> Allows(tokens[0], step) && PointsAt(tokens[1..], place)
  {
    var longer := [step] + place;
    assert forall k :: 0 < k < |longer| ==> longer[k] == place[k - 1];
    if PointsAt(tokens, longer) {
      assert Allows(tokens[0], longer[0]);
      forall k | 0 <= k < |place| ensures Allows(tokens[1..][k], place[k]) {
        assert Allows(tokens[k + 1], longer[k + 1]);
      }
    }
  }

  lemma {:induction false} PointedUnder(step: Step, nodes: seq<Node>, tokens: seq<PathToken>)
    requires |tokens| > 0
    ensures Pointed(Under([step], nodes), tokens) == if Allows(tokens[0], step) then Pointed(nodes, tokens[1..]) else []
  {
    hide PointsAt, Allows;
    if |nodes| != 0 {
      var under := Under([step], nodes);
      assert under[1..] == Under([step], nodes[1..]);
      PointedUnder(step, nodes[1..], tokens);
      PointsOn(tokens, step, nodes[0].place);
    }
  }

  predicate OneStep(nodes: seq<Node>) { forall i :: 0 <= i < |nodes| ==> |nodes[i].place| == 1 }

  // The children that a token allows.
  function Allowed(children: seq<Node>, token: PathToken): (values: seq<Json>)
    requires OneStep(children)
  {
    if |children| == 0 then []
    else (if Allows(token, children[0].place[0]) then [children[0].value] else []) + Allowed(children[1..], token)
  }

  lemma {:induction false} PointedBelow(children: seq<Node>, tokens: seq<PathToken>)
    requires |tokens| > 0 && OneStep(children)
    requires forall i :: 0 <= i < |children| ==>
      EvalPath([children[i].value], tokens[1..]) == Pointed(NodesAt(children[i].value, |tokens| - 1), tokens[1..])
    ensures Pointed(NodesBelow(children, |tokens| - 1), tokens) == EvalPath(Allowed(children, tokens[0]), tokens[1..])
  {
    hide Allows, PointsAt, EvalPath;
    if |children| == 0 {
      EvalNothing(tokens[1..]);
    } else {
      var child, rest := children[0], children[1..];
      var nodes := NodesAt(child.value, |tokens| - 1);
      PointedBelow(rest, tokens);
      PointedConcat(Under(child.place, nodes), NodesBelow(rest, |tokens| - 1), tokens);
      assert child.place == [child.place[0]];
      PointedUnder(child.place[0], nodes, tokens);
      EvalConcat([child.value], Allowed(rest, tokens[0]), tokens[1..]);
      assert [] + Allowed(rest, tokens[0]) == Allowed(rest, tokens[0]);
    }
  }

  lemma {:induction false} AllAllowed(children: seq<Node>, token: PathToken)
    requires OneStep(children) && token.WildcardToken?
    ensures |Allowed(children, token)| == |children|
    ensures forall i :: 0 <= i < |children| ==> Allowed(children, token)[i] == children[i].value
  {
    if |children| != 0 { AllAllowed(children[1..], token); }
  }

  lemma {:induction false} NoneAllowed(children: seq<Node>, token: PathToken)
    requires OneStep(children) && forall i :: 0 <= i < |children| ==> !Allows(token, children[i].place[0])
    ensures Allowed(children, token) == []
  {
    if |children| != 0 { NoneAllowed(children[1..], token); }
  }

  lemma {:induction false} OneAllowed(children: seq<Node>, token: PathToken, k: nat)
    requires OneStep(children) && k < |children|
    requires forall i :: 0 <= i < |children| ==> (Allows(token, children[i].place[0]) <==> i == k)
    ensures Allowed(children, token) == [children[k].value]
  {
    if k == 0 {
      forall i | 0 <= i < |children[1..]| ensures !Allows(token, children[1..][i].place[0]) {
        assert children[1..][i] == children[i + 1];
      }
      NoneAllowed(children[1..], token);
    } else {
      forall i | 0 <= i < |children[1..]|
        ensures Allows(token, children[1..][i].place[0]) <==> i == k - 1
      {
        assert children[1..][i] == children[i + 1];
      }
      OneAllowed(children[1..], token, k - 1);
    }
  }

  // A token selects the children that it allows.
  lemma SelectsAllowed(j: Json, token: PathToken)
    requires Distinct(j)
    ensures OneStep(Children(j)) && Select(j, token) == Allowed(Children(j), token)
  {
    var children := Children(j);
    match token
    case FieldToken(name) =>
      if j.Object? && Lookup(j.entries, name).Some? {
        var k := LookupFound(j.entries, name);
        OneAllowed(children, token, k);
      } else {
        if j.Object? { NothingFound(j.entries, name); }
        NoneAllowed(children, token);
      }
    case IndexToken(index) =>
      if j.Array? && 0 <= index < |j.items| {
        OneAllowed(children, token, index);
      } else {
        NoneAllowed(children, token);
      }
    case WildcardToken =>
      AllAllowed(children, token);
      assert Select(j, token) == Allowed(children, token);
  }

  lemma {:induction false} NothingFound(entries: seq<Entry>, name: string)
    requires Lookup(entries, name).None?
    ensures forall i :: 0 <= i < |entries| ==> entries[i].key != name
  {
    if |entries| != 0 { NothingFound(entries[1..], name); }
  }

  lemma ChildDistinct(j: Json, i: nat)
    requires Distinct(j) && i < |Children(j)|
    ensures Distinct(Children(j)[i].value)
  {
  }

  // ---------- Paths ----------

  // Evaluating a path gives the values of the nodes it points at, in document order.
  lemma {:induction false} EvalPoints(root: Json, tokens: seq<PathToken>)
    requires Distinct(root)
    ensures EvalPath([root], tokens) == Pointed(NodesAt(root, |tokens|), tokens)
    decreases |tokens|
  {
    if |tokens| == 0 {
      var nodes := NodesAt(root, 0);
      assert nodes[1..] == [] && PointsAt(tokens, nodes[0].place);
    } else {
      hide Distinct, Select, Pointed, NodesBelow;
      var children := Children(root);
      SelectsAllowed(root, tokens[0]);
      SelectOne(root, tokens[0]);
      forall i | 0 <= i < |children|
        ensures EvalPath([children[i].value], tokens[1..])
             == Pointed(NodesAt(children[i].value, |tokens| - 1), tokens[1..])
      {
        ChildDistinct(root, i);
        EvalPoints(children[i].value, tokens[1..]);
      }
      PointedBelow(children, tokens);
    }
  }

  // The short evaluator follows the first child that each token allows.
  lemma FirstStep(root: Json, tokens: seq<PathToken>)
    requires Distinct(root) && |tokens| > 0
    ensures OneStep(Children(root))
    ensures var allowed := Allowed(Children(root), tokens[0]);
      FirstPathValue(root, tokens) == if |allowed| == 0 then None else FirstPathValue(allowed[0], tokens[1..])
  {
    SelectsAllowed(root, tokens[0]);
  }

  // An index selects the item at its position, and none if there is no such position.
  lemma IndexSelects(before: seq<Json>, x: Json, after: seq<Json>, index: int)
    ensures var items := before + [x] + after;
      && EvalPath([Array(items)], [IndexToken(|before|)]) == [x]
      && FirstPathValue(Array(items), [IndexToken(|before|)]) == Some(x)
      && (!(0 <= index < |items|) ==>
            && EvalPath([Array(items)], [IndexToken(index)]) == []
            && FirstPathValue(Array(items), [IndexToken(index)]) == None)
  {
    var root := Array(before + [x] + after);
    SelectOne(root, IndexToken(|before|));
    SelectOne(root, IndexToken(index));
    assert [IndexToken(index)][1..] == [] && [IndexToken(|before|)][1..] == [];
  }

  // ---------- Comparison ----------

  predicate IsFloat(text: string, float: FloatParser) {
    ('.' in text || 'e' in text || 'E' in text) && float(text).Some?
  }

  // Numbers are alike if both are floats of one value, or 64-bit integers of one value,
  // or neither and written alike.
  predicate AlikeNumbers(x: string, y: string, float: FloatParser) {
    if IsFloat(x, float) || IsFloat(y, float) then IsFloat(x, float) && IsFloat(y, float) && float(x) == float(y)
    else if Atoi(x).Some? || Atoi(y).Some? then Atoi(x) == Atoi(y)
    else x == y
  }

  // A number that is neither a float nor a 64-bit integer stands for its text.
  predicate StandsForText(number: string, text: string, float: FloatParser) {
    number == text && !IsFloat(number, float) && Atoi(number).None?
  }

  // compareValues, structure by structure.
  predicate Alike(a: Json, b: Json, float: FloatParser)
    decreases a, 0
  {
    match a
    case Null => b.Null?
    case Bool(x) => b.Bool? && x == b.b
    case Number(x) => (b.Number? && AlikeNumbers(x, b.text, float)) || (b.Str? && StandsForText(x, b.text, float))
    case Str(x) => (b.Str? && x == b.text) || (b.Number? && StandsForText(b.text, x, float))
    case Array(xs) => b.Array? && AlikeItems(xs, b.items, float)
    case Object(xs) => b.Object? && AlikeEntries(xs, b.entries, float)
  }

  predicate AlikeItems(xs: seq<Json>, ys: seq<Json>, float: FloatParser)
    decreases xs, 1
  {
    |xs| == |ys| && forall i :: 0 <= i < |xs| ==> Alike(xs[i], ys[i], float)
  }

  // The same keys, in any order, with values that are alike.
  predicate AlikeEntries(xs: seq<Entry>, ys: seq<Entry>, float: FloatParser)
    decreases xs, 1
  {
    && (forall i :: 0 <= i < |xs| ==>
          var other := Lookup(ys, xs[i].key);
          other.Some? && Alike(xs[i].value, other.value, float))
    && (forall k :: 0 <= k < |ys| ==> Lookup(xs, ys[k].key).Some?)
  }

  lemma {:induction false} SameValueIff(a: Json, b: Json, float: FloatParser)
    requires Distinct(a) && Distinct(b)
    ensures SameValue(a, b, float) <==> Alike(a, b, float)
    decreases a, 0
  {
    hide Atoi, Distinct, AlikeItems, AlikeEntries;
    match a
    case Array(xs) => if b.Array? { ItemsAlike(xs, b.items, float); }
    case Object(xs) => if b.Object? { EntriesAlike(xs, b.entries, float); }
    case _ =>
  }

  lemma {:induction false} ItemsAlike(xs: seq<Json>, ys: seq<Json>, float: FloatParser)
    requires Distinct(Array(xs)) && Distinct(Array(ys))
    ensures SameValue(Array(xs), Array(ys), float) <==> AlikeItems(xs, ys, float)
    decreases xs, 1
  {
    hide Alike;
    var numbers := (text: string) => ReadNumber(text, float);
    var vs, ws := MeaningsOf(xs, numbers), MeaningsOf(ys, numbers);
    if |xs| == |ys| {
      forall i | 0 <= i < |xs| ensures vs[i] == ws[i] <==> Alike(xs[i], ys[i], float) {
        SameValueIff(xs[i], ys[i], float);
      }
    }
    assert SameValue(Array(xs), Array(ys), float) <==> vs == ws;
  }

  lemma {:induction false} EntriesAlike(xs: seq<Entry>, ys: seq<Entry>, float: FloatParser)
    requires Distinct(Object(xs)) && Distinct(Object(ys))
    ensures SameValue(Object(xs), Object(ys), float) <==> AlikeEntries(xs, ys, float)
    decreases xs, 1
  {
    hide Alike, TableOf, Lookup, Distinct;
    var numbers := (text: string) => ReadNumber(text, float);
    var s, t := TableOf(xs, numbers), TableOf(ys, numbers);
    forall i | 0 <= i < |xs|
      ensures xs[i].key in s && s[xs[i].key] == Meaning(xs[i].value, numbers)
      ensures xs[i].key in t <==> Lookup(ys, xs[i].key).Some?
      ensures xs[i].key in t ==>
        (s[xs[i].key] == t[xs[i].key] <==> Alike(xs[i].value, Lookup(ys, xs[i].key).value, float))
    {
      EntryInTable(xs, i, numbers);
      TableLookup(ys, numbers, xs[i].key);
      if Lookup(ys, xs[i].key).Some? {
        var k := LookupFound(ys, xs[i].key);
        EntriesDistinct(xs, i);
        EntriesDistinct(ys, k);
        SameValueIff(xs[i].value, ys[k].value, float);
      }
    }
    forall k | 0 <= k < |ys|
      ensures ys[k].key in t && (ys[k].key in s <==> Lookup(xs, ys[k].key).Some?)
    {
      EntryInTable(ys, k, numbers);
      TableLookup(xs, numbers, ys[k].key);
    }
    assert SameValue(Object(xs), Object(ys), float) <==> s == t;
    if AlikeEntries(xs, ys, float) {
      TablesAlike(xs, ys, numbers);
    }
  }

  // A number written with a point is never the integer it denotes.
  lemma IntegerIsNoFloat(float: FloatParser)
    requires float("1.0").Some?
    ensures !SameValue(Number("1"), Number("1.0"), float)
  {
    hide Atoi;
    assert "1.0"[1] == '.';
    assert IsFloat("1.0", float) && !IsFloat("1", float);
    SameValueIff(Number("1"), Number("1.0"), float);
  }

  lemma TablesAlike(xs: seq<Entry>, ys: seq<Entry>, numbers: Numbers)
    requires var s, t := TableOf(xs, numbers), TableOf(ys, numbers);
      && (forall i :: 0 <= i < |xs| ==> xs[i].key in s && xs[i].key in t && s[xs[i].key] == t[xs[i].key])
      && (forall k :: 0 <= k < |ys| ==> ys[k].key in t && ys[k].key in s)
    ensures TableOf(xs, numbers) == TableOf(ys, numbers)
  {
    hide TableOf, Lookup;
    var s, t := TableOf(xs, numbers), TableOf(ys, numbers);
    forall key ensures key in s <==> key in t
      ensures key in s ==> key in t && s[key] == t[key]
    {
      if key in s { var i := TableEntry(xs, numbers, key); }
      if key in t { var k := TableEntry(ys, numbers, key); }
    }
  }

  lemma EntriesDistinct(entries: seq<Entry>, i: nat)
    requires Distinct(Object(entries)) && i < |entries|
    ensures Distinct(entries[i].value)
  {
  }

  lemma EntryInTable(entries: seq<Entry>, i: nat, numbers: Numbers)
    requires Distinct(Object(entries)) && i < |entries|
    ensures entries[i].key in TableOf(entries, numbers)
    ensures TableOf(entries, numbers)[entries[i].key] == Meaning(entries[i].value, numbers)
  {
    LookupAt(entries, i);
    TableLookup(entries, numbers, entries[i].key);
  }

  lemma TableEntry(entries: seq<Entry>, numbers: Numbers, key: string) returns (i: nat)
    requires key in TableOf(entries, numbers)
    ensures i < |entries| && entries[i].key == key
  {
    TableLookup(entries, numbers, key);
    i := LookupFound(entries, key);
  }

  // ---------- Filters ----------

  // What a filter looks at below a node: the items of an array, or the node itself.
  function Candidates(node: Node): (nodes: seq<Node>) {
    if node.value.Array? then Under(node.place, Children(node.value)) else [node]
  }

  // The candidates below the nodes that a path points at which a filter accepts.
  ghost function PointedAccepted(nodes: seq<Node>, p: seq<PathToken>, f: Filter, float: FloatParser)
    : (values: seq<Json>)
  {
    if |nodes| == 0 then []
    else
      (if PointsAt(p, nodes[0].place) then Accepted(Candidates(nodes[0]), f, float) else [])
      + PointedAccepted(nodes[1..], p, f, float)
  }

  ghost function Accepted(nodes: seq<Node>, f: Filter, float: FloatParser): (values: seq<Json>) {
    if |nodes| == 0 then []
    else (if PassesFilter(nodes[0].value, f, float) then [nodes[0].value] else []) + Accepted(nodes[1..], f, float)
  }

  // A filter compares the first value its own path points at, or its size.
  ghost predicate PassesFilter(candidate: Json, f: Filter, float: FloatParser) {
    var found := if f.useSelf then [candidate] else Pointed(NodesAt(candidate, |f.path|), f.path);
    |found| > 0 &&
    if f.sizeCheck then exists n: nat :: IsSize(found[0], n) && Alike(Number(Itoa(n)), f.expected, float)
    else Alike(found[0], f.expected, float)
  }

  predicate IsSize(j: Json, n: nat) {
    || (j.Array? && n == |j.items|)
    || (j.Object? && n == |j.entries|)
    || (j.Str? && n == |j.text|)
  }

  lemma PassesIff(candidate: Json, f: Filter, float: FloatParser)
    requires Distinct(candidate) && Distinct(f.expected)
    ensures FilterMatches(f, candidate, float) <==> PassesFilter(candidate, f, float)
  {
    hide Distinct, SameValue, Itoa, NodesAt, Pointed, EvalPath, Alike;
    EvalPoints(candidate, f.path);
    var found := if f.useSelf then [candidate] else EvalPath([candidate], f.path);
    if |found| > 0 {
      FoundDistinct(candidate, f);
      SameValueIff(found[0], f.expected, float);
      if ValueSize(found[0]).Some? { SizeAlike(ValueSize(found[0]).value, f.expected, float); }
      assert ValueSize(found[0]).Some? ==> IsSize(found[0], ValueSize(found[0]).value);
      assert forall n: nat :: IsSize(found[0], n) ==> ValueSize(found[0]) == Some(n);
    }
  }

  lemma SizeAlike(n: nat, expected: Json, float: FloatParser)
    requires Distinct(expected)
    ensures SameValue(Number(Itoa(n)), expected, float) <==> Alike(Number(Itoa(n)), expected, float)
  {
    SameValueIff(Number(Itoa(n)), expected, float);
  }

  lemma FoundDistinct(candidate: Json, f: Filter)
    requires Distinct(candidate)
    ensures var found := if f.useSelf then [candidate] else EvalPath([candidate], f.path);
      |found| > 0 ==> Distinct(found[0])
  {
    hide Distinct;
    EvalPoints(candidate, f.path);
    NodesDistinct(candidate, |f.path|);
    PointedDistinct(NodesAt(candidate, |f.path|), f.path);
  }

  lemma {:induction false} PointedDistinct(nodes: seq<Node>, tokens: seq<PathToken>)
    requires forall i :: 0 <= i < |nodes| ==> Distinct(nodes[i].value)
    ensures forall i :: 0 <= i < |Pointed(nodes, tokens)| ==> Distinct(Pointed(nodes, tokens)[i])
  {
    hide Distinct, PointsAt;
    if |nodes| != 0 { PointedDistinct(nodes[1..], tokens); }
  }

  lemma {:induction false} FilteredIsAccepted(nodes: seq<Node>, values: seq<Json>, f: Filter, float: FloatParser)
    requires |nodes| == |values| && Distinct(f.expected)
    requires forall i :: 0 <= i < |nodes| ==> nodes[i].value == values[i] && Distinct(values[i])
    ensures Filtered(values, f, float) == Accepted(nodes, f, float)
  {
    hide FilterMatches, PassesFilter, Distinct;
    if |nodes| != 0 {
      PassesIff(values[0], f, float);
      FilteredIsAccepted(nodes[1..], values[1..], f, float);
    }
  }

  lemma {:induction false} FilteredAllPointed(nodes: seq<Node>, p: seq<PathToken>, f: Filter, float: FloatParser)
    requires Distinct(f.expected) && forall i :: 0 <= i < |nodes| ==> Distinct(nodes[i].value)
    ensures FilteredAll(Pointed(nodes, p), f, float) == PointedAccepted(nodes, p, f, float)
  {
    hide PointsAt, Filtered, Accepted, FilterCandidates, Candidates, Distinct;
    if |nodes| != 0 {
      FilteredAllPointed(nodes[1..], p, f, float);
      CandidatesAre(nodes[0], f, float);
      var rest := Pointed(nodes[1..], p);
      assert ([nodes[0].value] + rest)[1..] == rest;
      assert [] + rest == rest;
    }
  }

  lemma CandidatesAre(node: Node, f: Filter, float: FloatParser)
    requires Distinct(node.value) && Distinct(f.expected)
    ensures Filtered(FilterCandidates(node.value), f, float) == Accepted(Candidates(node), f, float)
  {
    FilteredIsAccepted(Candidates(node), FilterCandidates(node.value), f, float);
  }

  lemma {:induction false} NodesDistinct(j: Json, depth: nat)
    requires Distinct(j)
    ensures forall i :: 0 <= i < |NodesAt(j, depth)| ==> Distinct(NodesAt(j, depth)[i].value)
    decreases depth, 1, 0
  {
    if depth > 0 {
      forall i | 0 <= i < |Children(j)| ensures Distinct(Children(j)[i].value) { ChildDistinct(j, i); }
      BelowDistinct(Children(j), depth - 1);
    }
  }

  lemma {:induction false} BelowDistinct(children: seq<Node>, depth: nat)
    requires forall i :: 0 <= i < |children| ==> Distinct(children[i].value)
    ensures forall i :: 0 <= i < |NodesBelow(children, depth)| ==> Distinct(NodesBelow(children, depth)[i].value)
    decreases depth, 2, |children|
  {
    hide Distinct;
    if |children| != 0 {
      NodesDistinct(children[0].value, depth);
      BelowDistinct(children[1..], depth);
    }
  }

  // Values gives the values a path points at, or with a filter the candidates below
  // them that pass it, in document order.
  lemma ValuesPoint(p: JSONPath, root: Json, float: FloatParser)
    requires Distinct(root) && (p.filter.Some? ==> Distinct(p.filter.value.expected))
    ensures var nodes := NodesAt(root, |p.path|);
      Values(p, root, float) ==
        match p.filter
        case None => Pointed(nodes, p.path)
        case Some(f) => PointedAccepted(nodes, p.path, f, float)
  {
    EvalPoints(root, p.path);
    NodesDistinct(root, |p.path|);
    if p.filter.Some? { FilteredAllPointed(NodesAt(root, |p.path|), p.path, p.filter.value, float); }
  }
}
