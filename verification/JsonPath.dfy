// internal/matcher/jsonpath.go: the path language, its two evaluators, filters,
// and when the short evaluator may stand in for the full one.
module JsonPath {
  import opened Wrappers
  import opened Decimal
  import opened JsonTree
  import opened Sequences

  datatype PathToken = FieldToken(name: string) | IndexToken(index: int) | WildcardToken

  datatype Filter = Filter(path: seq<PathToken>, useSelf: bool, sizeCheck: bool, expected: Json)

  datatype JSONPath = JSONPath(path: seq<PathToken>, filter: Option<Filter>)

  // json.Number.Float64: the number of the float64 value a literal reads as.
  type FloatParser = string -> Option<int>

  // normalizeValue on a number literal: a float, a 64-bit integer, or the text of
  // an integer that is too large.
  function ReadNumber(text: string, float: FloatParser): (v: JsonValue) {
    if ('.' in text || 'e' in text || 'E' in text) && float(text).Some? then FloatValue(float(text).value)
    else match Atoi(text)
      case Some(i) => IntegerValue(i)
      case None => StringValue(text)
  }

  // compareValues: equal after normalising, whatever the order of object entries.
  predicate SameValue(a: Json, b: Json, float: FloatParser) {
    var numbers := (text: string) => ReadNumber(text, float);
    Meaning(a, numbers) == Meaning(b, numbers)
  }

  // ---------- Evaluation ----------

  // The nodes one token selects below one node.
  function Select(node: Json, token: PathToken): (nodes: seq<Json>) {
    match token
    case FieldToken(name) =>
      if node.Object? then
        match Lookup(node.entries, name)
        case Some(value) => [value]
        case None => []
      else []
    case IndexToken(index) =>
      if node.Array? && 0 <= index < |node.items| then [node.items[index]] else []
    case WildcardToken =>
      match node
      case Array(items) => items
      case Object(entries) => EntryValues(entries)
      case _ => []
  }

  function SelectAll(nodes: seq<Json>, token: PathToken): (r: seq<Json>) {
    if |nodes| == 0 then [] else Select(nodes[0], token) + SelectAll(nodes[1..], token)
  }

  function EvalPath(nodes: seq<Json>, tokens: seq<PathToken>): (r: seq<Json>)
    decreases |tokens|
  {
    if |tokens| == 0 then nodes else EvalPath(SelectAll(nodes, tokens[0]), tokens[1..])
  }

  function Head(nodes: seq<Json>): (r: Option<Json>) {
    if |nodes| == 0 then None else Some(nodes[0])
  }

  function FirstPathValue(root: Json, tokens: seq<PathToken>): (r: Option<Json>)
    decreases |tokens|
  {
    if |tokens| == 0 then Some(root)
    else match Head(Select(root, tokens[0]))
      case Some(node) => FirstPathValue(node, tokens[1..])
      case None => None
  }

  function FilterCandidates(node: Json): (r: seq<Json>) {
    if node.Array? then node.items else [node]
  }

  function ValueSize(value: Json): (r: Option<nat>) {
    match value
    case Array(items) => Some(|items|)
    case Object(entries) => Some(|entries|)
    case Str(text) => Some(|text|)
    case _ => None
  }

  // The comparison of a filter.
  predicate Accepts(f: Filter, value: Json, float: FloatParser) {
    if f.sizeCheck then
      ValueSize(value).Some? && SameValue(Number(Itoa(ValueSize(value).value)), f.expected, float)
    else SameValue(value, f.expected, float)
  }

  predicate FilterMatches(f: Filter, candidate: Json, float: FloatParser) {
    var value := if f.useSelf then Some(candidate) else Head(EvalPath([candidate], f.path));
    value.Some? && Accepts(f, value.value, float)
  }

  function Filtered(nodes: seq<Json>, f: Filter, float: FloatParser): (r: seq<Json>) {
    if |nodes| == 0 then []
    else (if FilterMatches(f, nodes[0], float) then [nodes[0]] else []) + Filtered(nodes[1..], f, float)
  }

  function FilteredAll(nodes: seq<Json>, f: Filter, float: FloatParser): (r: seq<Json>) {
    if |nodes| == 0 then [] else Filtered(FilterCandidates(nodes[0]), f, float) + FilteredAll(nodes[1..], f, float)
  }

  function Values(p: JSONPath, root: Json, float: FloatParser): (r: seq<Json>) {
    var nodes := EvalPath([root], p.path);
    if p.filter.None? then nodes else FilteredAll(nodes, p.filter.value, float)
  }

  function FirstValue(p: JSONPath, root: Json, float: FloatParser): (r: Option<Json>) {
    if p.filter.Some? then Head(Values(p, root, float)) else FirstPathValue(root, p.path)
  }

  // ---------- Laws of evaluation ----------

  lemma {:induction false} SelectAllConcat(a: seq<Json>, b: seq<Json>, token: PathToken)
    ensures SelectAll(a + b, token) == SelectAll(a, token) + SelectAll(b, token)
  {
    if |a| == 0 {
      assert a + b == b;
    } else {
      hide Select;
      SelectAllConcat(a[1..], b, token);
      ConcatTail(a, b);
      Regroup(Select(a[0], token), SelectAll(a[1..], token), SelectAll(b, token));
    }
  }

  // Evaluation distributes over the nodes it starts from.
  lemma {:induction false} EvalConcat(a: seq<Json>, b: seq<Json>, tokens: seq<PathToken>)
    ensures EvalPath(a + b, tokens) == EvalPath(a, tokens) + EvalPath(b, tokens)
    decreases |tokens|
  {
    if |tokens| != 0 {
      SelectAllConcat(a, b, tokens[0]);
      EvalConcat(SelectAll(a, tokens[0]), SelectAll(b, tokens[0]), tokens[1..]);
    }
  }

  // A path evaluates in stages: first one part of it, then the rest.
  lemma {:induction false} EvalStages(nodes: seq<Json>, p: seq<PathToken>, q: seq<PathToken>)
    ensures EvalPath(nodes, p + q) == EvalPath(EvalPath(nodes, p), q)
    decreases |p|
  {
    hide SelectAll;
    if |p| == 0 {
      assert p + q == q;
    } else {
      EvalStages(SelectAll(nodes, p[0]), p[1..], q);
      ConcatTail(p, q);
    }
  }

  lemma {:induction false} EvalNothing(tokens: seq<PathToken>)
    ensures EvalPath([], tokens) == []
  {
    if |tokens| != 0 { EvalNothing(tokens[1..]); }
  }

  lemma SelectOne(node: Json, token: PathToken)
    ensures SelectAll([node], token) == Select(node, token)
  {
    assert [node][1..] == [];
  }

  // ---------- The short evaluator against the full one ----------

  // Whatever the short evaluator finds is the first node of the full evaluation.
  lemma {:induction false} FirstIsHead(root: Json, tokens: seq<PathToken>)
    requires FirstPathValue(root, tokens).Some?
    ensures Head(EvalPath([root], tokens)) == FirstPathValue(root, tokens)
    decreases |tokens|
  {
    if |tokens| != 0 {
      var nodes := Select(root, tokens[0]);
      SelectOne(root, tokens[0]);
      FirstIsHead(nodes[0], tokens[1..]);
      assert nodes == [nodes[0]] + nodes[1..];
      EvalConcat([nodes[0]], nodes[1..], tokens[1..]);
    }
  }

  predicate WildcardFree(tokens: seq<PathToken>) {
    forall i :: 0 <= i < |tokens| ==> !tokens[i].WildcardToken?
  }

  // Without wildcards there is at most one node, and both evaluators agree on it.
  lemma {:induction false} WildcardFreeAgrees(root: Json, tokens: seq<PathToken>)
    requires WildcardFree(tokens)
    ensures |EvalPath([root], tokens)| <= 1
    ensures FirstPathValue(root, tokens) == Head(EvalPath([root], tokens))
    decreases |tokens|
  {
    if |tokens| != 0 {
      var nodes := Select(root, tokens[0]);
      SelectOne(root, tokens[0]);
      if |nodes| == 0 {
        EvalNothing(tokens[1..]);
      } else {
        assert nodes == [nodes[0]];
        WildcardFreeAgrees(nodes[0], tokens[1..]);
      }
    }
  }

  predicate SelectsNothing(t: PathToken) { t.IndexToken? && t.index < 0 }

  // A path on which the evaluators agree for every document: no wildcard before
  // the last token, or an index that no array has.
  predicate Interchangeable(tokens: seq<PathToken>) {
    || (forall i :: 0 <= i < |tokens| - 1 ==> !tokens[i].WildcardToken?)
    || (exists i :: 0 <= i < |tokens| && SelectsNothing(tokens[i]))
  }

  lemma {:induction false} NegativeIndexFails(root: Json, tokens: seq<PathToken>, i: nat)
    requires i < |tokens| && SelectsNothing(tokens[i])
    ensures FirstPathValue(root, tokens) == None && EvalPath([root], tokens) == []
    decreases i
  {
    var nodes := Select(root, tokens[0]);
    assert tokens[..i] + tokens[i..] == tokens;
    EvalStages([root], tokens[..i], tokens[i..]);
    NothingSelected(EvalPath([root], tokens[..i]), tokens[i]);
    EvalNothing(tokens[i..][1..]);
    if i > 0 && |nodes| > 0 {
      NegativeIndexFails(nodes[0], tokens[1..], i - 1);
    }
  }

  lemma {:induction false} NothingSelected(nodes: seq<Json>, token: PathToken)
    requires SelectsNothing(token)
    ensures SelectAll(nodes, token) == []
  {
    if |nodes| != 0 { NothingSelected(nodes[1..], token); }
  }

  lemma {:induction false} InterchangeableAgrees(root: Json, tokens: seq<PathToken>)
    requires Interchangeable(tokens)
    ensures FirstPathValue(root, tokens) == Head(EvalPath([root], tokens))
    decreases |tokens|
  {
    if i :| 0 <= i < |tokens| && SelectsNothing(tokens[i]) {
      NegativeIndexFails(root, tokens, i);
    } else if |tokens| == 0 || WildcardFree(tokens) {
      WildcardFreeAgrees(root, tokens);
    } else {
      var nodes := Select(root, tokens[0]);
      SelectOne(root, tokens[0]);
      if |tokens| > 1 {
        if |nodes| == 0 {
          EvalNothing(tokens[1..]);
        } else {
          assert !tokens[0].WildcardToken? && nodes == [nodes[0]];
          assert forall j :: 0 <= j < |tokens| - 2 ==> tokens[1..][j] == tokens[j + 1];
          InterchangeableAgrees(nodes[0], tokens[1..]);
        }
      }
    }
  }

  // A document in which the path leads to the given value and to nothing else first.
  function Reaching(tokens: seq<PathToken>, target: Json): (root: Json) {
    if |tokens| == 0 then target
    else
      var below := Reaching(tokens[1..], target);
      match tokens[0]
      case FieldToken(name) => Object([Entry(name, below)])
      case IndexToken(index) => if index < 0 then Null else Array(seq(index + 1, _ => below))
      case WildcardToken => Array([below])
  }

  lemma {:induction false} ReachingWorks(tokens: seq<PathToken>, target: Json, more: seq<PathToken>)
    requires forall i :: 0 <= i < |tokens| ==> !SelectsNothing(tokens[i])
    ensures FirstPathValue(Reaching(tokens, target), tokens + more) == FirstPathValue(target, more)
    ensures EvalPath([Reaching(tokens, target)], tokens + more) == EvalPath([target], more)
  {
    if |tokens| == 0 {
      assert tokens + more == more;
    } else {
      var root, below := Reaching(tokens, target), Reaching(tokens[1..], target);
      assert !SelectsNothing(tokens[0]);
      ReachingStep(tokens, target);
      assert forall i :: 0 <= i < |tokens| - 1 ==> tokens[1..][i] == tokens[i + 1];
      ReachingWorks(tokens[1..], target, more);
      hide Reaching;
      OneNodeStep(root, below, tokens + more);
      ConcatTail(tokens, more);
    }
  }

  // The first token of a path leads on into such a document.
  lemma ReachingStep(tokens: seq<PathToken>, target: Json)
    requires |tokens| > 0 && !SelectsNothing(tokens[0])
    ensures Select(Reaching(tokens, target), tokens[0]) == [Reaching(tokens[1..], target)]
  {
  }

  lemma OneNodeStep(node: Json, next: Json, tokens: seq<PathToken>)
    requires |tokens| > 0 && Select(node, tokens[0]) == [next]
    ensures FirstPathValue(node, tokens) == FirstPathValue(next, tokens[1..])
    ensures EvalPath([node], tokens) == EvalPath([next], tokens[1..])
  {
    SelectOne(node, tokens[0]);
  }

  lemma FailsOnNull(tokens: seq<PathToken>)
    requires |tokens| > 0
    ensures FirstPathValue(Null, tokens) == None && EvalPath([Null], tokens) == []
  {
    SelectOne(Null, tokens[0]);
    EvalNothing(tokens[1..]);
  }

  // A document on which a path that is not interchangeable tells the evaluators
  // apart: only the full one reaches the target.
  function Separating(tokens: seq<PathToken>, i: nat, target: Json): (root: Json)
    requires i < |tokens|
  {
    Reaching(tokens[..i], Array([Null, Reaching(tokens[i + 1..], target)]))
  }

  lemma SeparatingSeparates(tokens: seq<PathToken>, i: nat, target: Json)
    requires i < |tokens| - 1 && tokens[i].WildcardToken?
    requires forall k :: 0 <= k < |tokens| ==> !SelectsNothing(tokens[k])
    ensures FirstPathValue(Separating(tokens, i, target), tokens) == None
    ensures Head(EvalPath([Separating(tokens, i, target)], tokens)) == Some(target)
  {
    hide Reaching, SelectAll;
    var before, after := tokens[..i], tokens[i + 1..];
    var good := Reaching(after, target);
    var fork := Array([Null, good]);
    assert tokens == before + tokens[i..];
    ReachingWorks(before, fork, tokens[i..]);
    assert tokens[i..][1..] == after;
    SelectOne(fork, tokens[i]);
    FailsOnNull(after);
    EvalConcat([Null], [good], after);
    assert [Null] + [good] == [Null, good];
    ReachingWorks(after, target, []);
    assert after + [] == after;
  }

  // On an unsafe path some document has the target as its first value in full,
  // and no first value at all in short.
  lemma UnsafeDocument(tokens: seq<PathToken>, target: Json) returns (root: Json)
    requires !Interchangeable(tokens)
    ensures FirstPathValue(root, tokens) == None && Head(EvalPath([root], tokens)) == Some(target)
  {
    var i :| 0 <= i < |tokens| - 1 && tokens[i].WildcardToken?;
    root := Separating(tokens, i, target);
    SeparatingSeparates(tokens, i, target);
  }

  // The short evaluator computes the head of the full one on every document
  // exactly when the path is interchangeable.
  lemma ShortEvaluatorCorrectIff(tokens: seq<PathToken>)
    ensures Interchangeable(tokens)
       <==> forall root :: FirstPathValue(root, tokens) == Head(EvalPath([root], tokens))
  {
    if Interchangeable(tokens) {
      forall root ensures FirstPathValue(root, tokens) == Head(EvalPath([root], tokens)) {
        InterchangeableAgrees(root, tokens);
      }
    } else {
      var root := UnsafeDocument(tokens, Null);
    }
  }

  // For a whole path expression: a filter always evaluates in full.
  predicate ShortcutSafe(p: JSONPath) { p.filter.Some? || Interchangeable(p.path) }

  lemma FirstValueIsFirstOfValues(p: JSONPath, float: FloatParser)
    ensures ShortcutSafe(p) <==> forall root :: FirstValue(p, root, float) == Head(Values(p, root, float))
  {
    ShortEvaluatorCorrectIff(p.path);
    if p.filter.None? {
      forall root
        ensures FirstValue(p, root, float) == FirstPathValue(root, p.path)
        ensures Head(Values(p, root, float)) == Head(EvalPath([root], p.path))
      {
      }
      if !Interchangeable(p.path) {
        var root :| FirstPathValue(root, p.path) != Head(EvalPath([root], p.path));
        assert FirstValue(p, root, float) != Head(Values(p, root, float));
      }
    }
  }

  // ---------- The loops of the source ----------

  // The body of evalPath's inner loop: what one node contributes.
  method AppendSelected(next: seq<Json>, node: Json, token: PathToken) returns (r: seq<Json>)
    ensures r == next + Select(node, token)
  {
    r := next;
    match token {
      case FieldToken(name) =>
        if node.Object? {
          var value := Lookup(node.entries, name);
          if value.Some? {
            r := r + [value.value];
          }
        }
      case IndexToken(index) =>
        if node.Array? && index >= 0 && index < |node.items| {
          r := r + [node.items[index]];
        }
      case WildcardToken =>
        if node.Array? {
          r := r + node.items;
        } else if node.Object? {
          for e := 0 to |node.entries|
            invariant r == next + EntryValues(node.entries)[..e]
          {
            r := r + [node.entries[e].value];
          }
        }
    }
  }

  method SelectAllLoop(current: seq<Json>, token: PathToken) returns (next: seq<Json>)
    ensures next == SelectAll(current, token)
  {
    hide Select;
    next := [];
    for n := 0 to |current|
      invariant next == SelectAll(current[..n], token)
    {
      SelectAllConcat(current[..n], [current[n]], token);
      SelectOne(current[n], token);
      assert current[..n + 1] == current[..n] + [current[n]];
      next := AppendSelected(next, current[n], token);
    }
    assert current[..|current|] == current;
  }

  method EvalPathLoop(nodes: seq<Json>, tokens: seq<PathToken>) returns (current: seq<Json>)
    ensures current == EvalPath(nodes, tokens)
  {
    hide SelectAll;
    current := nodes;
    for t := 0 to |tokens|
      invariant EvalPath(nodes, tokens) == EvalPath(current, tokens[t..])
    {
      current := SelectAllLoop(current, tokens[t]);
      assert tokens[t..][1..] == tokens[t + 1..];
      if |current| == 0 {
        EvalNothing(tokens[t + 1..]);
        return [];
      }
    }
  }

  method FirstPathValueLoop(root: Json, tokens: seq<PathToken>) returns (r: Option<Json>)
    ensures r == FirstPathValue(root, tokens)
  {
    var current := root;
    for t := 0 to |tokens|
      invariant FirstPathValue(root, tokens) == FirstPathValue(current, tokens[t..])
    {
      assert tokens[t..][1..] == tokens[t + 1..];
      match tokens[t] {
        case FieldToken(name) =>
          if !current.Object? {
            return None;
          }
          var value := Lookup(current.entries, name);
          if value.None? {
            return None;
          }
          current := value.value;
        case IndexToken(index) =>
          if !current.Array? || index < 0 || index >= |current.items| {
            return None;
          }
          current := current.items[index];
        case WildcardToken =>
          match current {
            case Array(items) =>
              if |items| == 0 {
                return None;
              }
              current := items[0];
            case Object(entries) =>
              if |entries| == 0 {
                return None;
              }
              current := entries[0].value;
            case _ => return None;
          }
      }
    }
    return Some(current);
  }

  lemma {:induction false} FilteredConcat(a: seq<Json>, b: seq<Json>, f: Filter, float: FloatParser)
    ensures Filtered(a + b, f, float) == Filtered(a, f, float) + Filtered(b, f, float)
  {
    if |a| == 0 {
      assert a + b == b;
    } else {
      hide FilterMatches;
      FilteredConcat(a[1..], b, f, float);
      ConcatTail(a, b);
      Regroup(if FilterMatches(f, a[0], float) then [a[0]] else [], Filtered(a[1..], f, float), Filtered(b, f, float));
    }
  }

  lemma {:induction false} FilteredAllConcat(a: seq<Json>, b: seq<Json>, f: Filter, float: FloatParser)
    ensures FilteredAll(a + b, f, float) == FilteredAll(a, f, float) + FilteredAll(b, f, float)
  {
    if |a| == 0 {
      assert a + b == b;
    } else {
      hide Filtered, FilterCandidates;
      FilteredAllConcat(a[1..], b, f, float);
      ConcatTail(a, b);
      Regroup(Filtered(FilterCandidates(a[0]), f, float), FilteredAll(a[1..], f, float), FilteredAll(b, f, float));
    }
  }

  lemma FilteredNone(f: Filter, float: FloatParser)
    ensures Filtered([], f, float) == [] && FilteredAll([], f, float) == []
  {
  }

  // What one more candidate, and one more node, adds.
  lemma FilteredNext(candidates: seq<Json>, c: nat, f: Filter, float: FloatParser)
    requires c < |candidates|
    ensures Filtered(candidates[..c + 1], f, float) ==
      Filtered(candidates[..c], f, float) + if FilterMatches(f, candidates[c], float) then [candidates[c]] else []
  {
    hide FilterMatches;
    FilteredConcat(candidates[..c], [candidates[c]], f, float);
    assert candidates[..c + 1] == candidates[..c] + [candidates[c]];
    assert Filtered([], f, float) == [];
  }

  lemma FilteredAllNext(nodes: seq<Json>, n: nat, f: Filter, float: FloatParser)
    requires n < |nodes|
    ensures FilteredAll(nodes[..n + 1], f, float) ==
      FilteredAll(nodes[..n], f, float) + Filtered(FilterCandidates(nodes[n]), f, float)
  {
    hide Filtered, FilterCandidates;
    FilteredAllConcat(nodes[..n], [nodes[n]], f, float);
    assert nodes[..n + 1] == nodes[..n] + [nodes[n]];
    assert FilteredAll([], f, float) == [] && [nodes[n]][1..] == [];
  }

  // Nothing is lost again: what part of a list selects, the whole list selects.
  lemma FilteredPart(candidates: seq<Json>, c: nat, f: Filter, float: FloatParser)
    requires c <= |candidates|
    ensures |Filtered(candidates, f, float)| >= |Filtered(candidates[..c], f, float)|
  {
    FilteredConcat(candidates[..c], candidates[c..], f, float);
    assert candidates == candidates[..c] + candidates[c..];
  }

  lemma FilteredAllPart(nodes: seq<Json>, n: nat, f: Filter, float: FloatParser)
    requires n <= |nodes|
    ensures |FilteredAll(nodes, f, float)| >= |FilteredAll(nodes[..n], f, float)|
  {
    FilteredAllConcat(nodes[..n], nodes[n..], f, float);
    assert nodes == nodes[..n] + nodes[n..];
  }

  method ValuesLoop(p: JSONPath, root: Json, float: FloatParser) returns (values: seq<Json>)
    ensures values == Values(p, root, float)
  {
    hide FilterMatches, EvalPath;
    var nodes := EvalPathLoop([root], p.path);
    if p.filter.None? {
      return nodes;
    }
    var f := p.filter.value;
    values := [];
    for n := 0 to |nodes|
      invariant values == FilteredAll(nodes[..n], f, float)
    {
      var candidates := FilterCandidates(nodes[n]);
      ghost var before := values;
      for c := 0 to |candidates|
        invariant values == before + Filtered(candidates[..c], f, float)
      {
        FilteredNext(candidates, c, f, float);
        if FilterMatches(f, candidates[c], float) {
          values := values + [candidates[c]];
        }
      }
      assert candidates[..|candidates|] == candidates;
      FilteredAllNext(nodes, n, f, float);
    }
    assert nodes[..|nodes|] == nodes;
  }

  // Exists answers without collecting the values: it holds exactly when there are some.
  method Exists(p: JSONPath, root: Json, float: FloatParser) returns (found: bool)
    ensures found <==> |Values(p, root, float)| > 0
  {
    hide FilterMatches, EvalPath, FilteredAll, Filtered, FilterCandidates;
    var nodes := EvalPathLoop([root], p.path);
    if p.filter.None? {
      return |nodes| > 0;
    }
    var f := p.filter.value;
    FilteredNone(f, float);
    assert nodes[..0] == [];
    for n := 0 to |nodes|
      invariant FilteredAll(nodes[..n], f, float) == []
    {
      var candidates := FilterCandidates(nodes[n]);
      FilteredAllNext(nodes, n, f, float);
      FilteredAllPart(nodes, n + 1, f, float);
      assert candidates[..0] == [];
      for c := 0 to |candidates|
        invariant Filtered(candidates[..c], f, float) == []
      {
        FilteredNext(candidates, c, f, float);
        FilteredPart(candidates, c + 1, f, float);
        if FilterMatches(f, candidates[c], float) {
          return true;
        }
      }
      assert candidates[..|candidates|] == candidates;
    }
    assert nodes[..|nodes|] == nodes;
    return false;
  }

  // FirstValue as the source computes it.
  method FirstValueLoop(p: JSONPath, root: Json, float: FloatParser) returns (r: Option<Json>)
    ensures r == FirstValue(p, root, float)
  {
    if p.filter.Some? {
      var values := ValuesLoop(p, root, float);
      return Head(values);
    }
    r := FirstPathValueLoop(root, p.path);
  }
}
