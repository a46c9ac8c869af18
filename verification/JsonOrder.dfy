// What JSONPath evaluation owes to the order in which Go visits its maps: two
// evaluations of one value may visit every object in different orders.
module JsonOrder {
  import opened Wrappers
  import opened Strings
  import opened JsonTree
  import opened JsonPath

  // ---------- Bags of nodes ----------

  predicate AllDistinct(nodes: seq<Json>) { forall i :: 0 <= i < |nodes| ==> Distinct(nodes[i]) }

  // The values of some nodes, each as often as it occurs.
  function Bag(nodes: seq<Json>): (b: multiset<JsonValue>) { multiset(MeaningsOf(nodes, AsWritten)) }

  lemma BagConcat(a: seq<Json>, b: seq<Json>)
    ensures Bag(a + b) == Bag(a) + Bag(b)
  {
    assert MeaningsOf(a + b, AsWritten) == MeaningsOf(a, AsWritten) + MeaningsOf(b, AsWritten);
  }

  lemma BagOne(node: Json)
    ensures Bag([node]) == multiset{ValueOf(node)}
  {
    assert MeaningsOf([node], AsWritten) == [ValueOf(node)];
  }

  lemma BagSize(nodes: seq<Json>)
    ensures |Bag(nodes)| == |nodes|
  {
  }

  function Keys(entries: seq<Entry>): (ks: seq<string>) {
    seq(|entries|, i requires 0 <= i < |entries| => entries[i].key)
  }

  lemma KeysInTable(entries: seq<Entry>, numbers: Numbers, key: string)
    ensures key in Keys(entries) <==> key in TableOf(entries, numbers)
  {
    TableLookup(entries, numbers, key);
    if key in TableOf(entries, numbers) {
      var i := LookupFound(entries, key);
      assert Keys(entries)[i] == key;
    }
    if i :| 0 <= i < |entries| && Keys(entries)[i] == key {
      KeyFound(entries, i);
    }
  }

  lemma {:induction false} KeyFound(entries: seq<Entry>, i: nat)
    requires i < |entries|
    ensures Lookup(entries, entries[i].key).Some?
  {
    if i > 0 { KeyFound(entries[1..], i - 1); }
  }

  // Two views of one object list the same keys with the same values.
  lemma SameObjects(entries: seq<Entry>, others: seq<Entry>)
    requires SameJson(Object(entries), Object(others))
    ensures |entries| == |others|
    ensures Bag(EntryValues(entries)) == Bag(EntryValues(others))
  {
    var ks, ls := Keys(entries), Keys(others);
    assert TableOf(entries, AsWritten) == TableOf(others, AsWritten);
    forall key ensures key in ks <==> key in ls {
      KeysInTable(entries, AsWritten, key);
      KeysInTable(others, AsWritten, key);
    }
    DistinctBags(ks, ls);
    var vs, ws := MeaningsOf(EntryValues(entries), AsWritten), MeaningsOf(EntryValues(others), AsWritten);
    forall i, j | 0 <= i < |ks| && 0 <= j < |ls| && ks[i] == ls[j] ensures vs[i] == ws[j] {
      LookupAt(entries, i);
      LookupAt(others, j);
      TableLookup(entries, AsWritten, ks[i]);
      TableLookup(others, AsWritten, ks[i]);
    }
    BagTransfer(ks, vs, ls, ws);
    assert |multiset(ks)| == |ks| && |multiset(ls)| == |ls|;
  }

  // ---------- The nodes selected, in any order ----------

  lemma SelectBag(a: Json, b: Json, token: PathToken)
    requires SameJson(a, b)
    ensures Bag(Select(a, token)) == Bag(Select(b, token))
    ensures AllDistinct(Select(a, token)) && AllDistinct(Select(b, token))
  {
    hide Bag, TableOf, Distinct, Select, AllDistinct;
    match token
    case FieldToken(name) => SelectFieldBag(a, b, name);
    case IndexToken(index) => SelectIndexBag(a, b, index);
    case WildcardToken => SelectWildcardBag(a, b);
  }

  lemma SelectFieldBag(a: Json, b: Json, name: string)
    requires SameJson(a, b)
    ensures var x, y := Select(a, FieldToken(name)), Select(b, FieldToken(name));
      Bag(x) == Bag(y) && AllDistinct(x) && AllDistinct(y)
  {
    hide Bag, TableOf, Distinct;
    if a.Object? { SelectField(a.entries, b.entries, name); }
  }

  lemma SelectIndexBag(a: Json, b: Json, index: int)
    requires SameJson(a, b)
    ensures var x, y := Select(a, IndexToken(index)), Select(b, IndexToken(index));
      Bag(x) == Bag(y) && AllDistinct(x) && AllDistinct(y)
  {
    hide Bag, TableOf, Distinct;
    if a.Array? { SelectIndex(a.items, b.items, index); }
  }

  lemma SelectWildcardBag(a: Json, b: Json)
    requires SameJson(a, b)
    ensures var x, y := Select(a, WildcardToken), Select(b, WildcardToken);
      Bag(x) == Bag(y) && AllDistinct(x) && AllDistinct(y)
  {
    hide Bag, TableOf;
    match a
    case Object(entries) => SameObjects(entries, b.entries);
    case Array(items) => SelectIndex(items, b.items, 0);
    case _ =>
  }

  lemma SelectField(entries: seq<Entry>, others: seq<Entry>, name: string)
    requires SameJson(Object(entries), Object(others))
    ensures Bag(Select(Object(entries), FieldToken(name))) == Bag(Select(Object(others), FieldToken(name)))
    ensures AllDistinct(Select(Object(entries), FieldToken(name)))
      && AllDistinct(Select(Object(others), FieldToken(name)))
  {
    hide Bag, TableOf, Lookup;
    TableLookup(entries, AsWritten, name);
    TableLookup(others, AsWritten, name);
    assert TableOf(entries, AsWritten) == TableOf(others, AsWritten);
    if Lookup(entries, name).Some? {
      var i := LookupFound(entries, name);
      var j := LookupFound(others, name);
      BagOne(entries[i].value);
      BagOne(others[j].value);
    }
  }

  lemma SelectIndex(items: seq<Json>, others: seq<Json>, index: int)
    requires SameJson(Array(items), Array(others))
    ensures Bag(items) == Bag(others) && AllDistinct(items) && AllDistinct(others) && |items| == |others|
    ensures Bag(Select(Array(items), IndexToken(index))) == Bag(Select(Array(others), IndexToken(index)))
  {
    assert MeaningsOf(items, AsWritten) == MeaningsOf(others, AsWritten);
    assert Bag(items) == Bag(others);
    hide Bag;
    if 0 <= index < |items| {
      assert MeaningsOf(items, AsWritten)[index] == MeaningsOf(others, AsWritten)[index];
      BagOne(items[index]);
      BagOne(others[index]);
    }
  }

  // Taking a node with the same value out of the second bag.
  lemma MatchingNode(nodes: seq<Json>, others: seq<Json>) returns (j: nat)
    requires |nodes| > 0 && Bag(nodes) == Bag(others)
    ensures j < |others| && ValueOf(others[j]) == ValueOf(nodes[0])
    ensures Bag(nodes[1..]) == Bag(others[..j] + others[j + 1..])
  {
    var vs, ws := MeaningsOf(nodes, AsWritten), MeaningsOf(others, AsWritten);
    assert vs[0] in multiset(ws);
    j :| 0 <= j < |ws| && ws[j] == vs[0];
    assert nodes == [nodes[0]] + nodes[1..] && others == others[..j] + ([others[j]] + others[j + 1..]);
    BagConcat([nodes[0]], nodes[1..]);
    BagConcat(others[..j], [others[j]] + others[j + 1..]);
    BagConcat([others[j]], others[j + 1..]);
    BagConcat(others[..j], others[j + 1..]);
    BagOne(nodes[0]);
    BagOne(others[j]);
    assert Bag(nodes) - multiset{vs[0]} == Bag(nodes[1..]);
    assert Bag(others) - multiset{vs[0]} == Bag(others[..j] + others[j + 1..]);
  }

  lemma {:induction false} SelectAllBag(nodes: seq<Json>, others: seq<Json>, token: PathToken)
    requires AllDistinct(nodes) && AllDistinct(others) && Bag(nodes) == Bag(others)
    ensures Bag(SelectAll(nodes, token)) == Bag(SelectAll(others, token))
    ensures AllDistinct(SelectAll(nodes, token)) && AllDistinct(SelectAll(others, token))
  {
    hide Select, Bag, Distinct;
    BagSize(nodes);
    BagSize(others);
    if |nodes| != 0 {
      var j := MatchingNode(nodes, others);
      var rest := others[..j] + others[j + 1..];
      SelectAllBag(nodes[1..], rest, token);
      SelectBag(nodes[0], others[j], token);
      SelectAllConcat(others[..j], [others[j]] + others[j + 1..], token);
      SelectAllConcat([others[j]], others[j + 1..], token);
      SelectAllConcat(others[..j], others[j + 1..], token);
      SelectOne(others[j], token);
      assert others == others[..j] + ([others[j]] + others[j + 1..]);
      Reassemble(SelectAll(others[..j], token), Select(others[j], token), SelectAll(others[j + 1..], token));
      BagConcat(Select(nodes[0], token), SelectAll(nodes[1..], token));
    }
  }

  lemma Reassemble(before: seq<Json>, here: seq<Json>, after: seq<Json>)
    ensures Bag(before + (here + after)) == Bag(here) + Bag(before + after)
    ensures AllDistinct(before + after) && AllDistinct(here) ==> AllDistinct(before + (here + after))
  {
    hide Bag, Distinct;
    BagConcat(before, here + after);
    BagConcat(here, after);
    BagConcat(before, after);
    if AllDistinct(before + after) {
      forall i | 0 <= i < |before| ensures Distinct(before[i]) { assert (before + after)[i] == before[i]; }
      forall i | 0 <= i < |after| ensures Distinct(after[i]) { assert (before + after)[|before| + i] == after[i]; }
    }
  }

  // Whatever the orders, evaluation finds the same values, each as often.
  lemma {:induction false} EvalBag(nodes: seq<Json>, others: seq<Json>, tokens: seq<PathToken>)
    requires AllDistinct(nodes) && AllDistinct(others) && Bag(nodes) == Bag(others)
    ensures Bag(EvalPath(nodes, tokens)) == Bag(EvalPath(others, tokens))
    ensures AllDistinct(EvalPath(nodes, tokens)) && AllDistinct(EvalPath(others, tokens))
    decreases |tokens|
  {
    if |tokens| != 0 {
      SelectAllBag(nodes, others, tokens[0]);
      EvalBag(SelectAll(nodes, tokens[0]), SelectAll(others, tokens[0]), tokens[1..]);
    }
  }

  lemma EvalBagFrom(a: Json, b: Json, tokens: seq<PathToken>)
    requires SameJson(a, b)
    ensures Bag(EvalPath([a], tokens)) == Bag(EvalPath([b], tokens))
    ensures AllDistinct(EvalPath([a], tokens)) && AllDistinct(EvalPath([b], tokens))
  {
    BagOne(a);
    BagOne(b);
    EvalBag([a], [b], tokens);
  }

  // What the short evaluator finds in one order is among the values the full one
  // finds in another.
  lemma FirstIsAmongValues(a: Json, b: Json, tokens: seq<PathToken>)
    requires SameJson(a, b) && FirstPathValue(a, tokens).Some?
    ensures ValueOf(FirstPathValue(a, tokens).value) in Bag(EvalPath([b], tokens))
  {
    FirstIsHead(a, tokens);
    EvalBagFrom(a, b, tokens);
    var nodes := EvalPath([a], tokens);
    assert MeaningsOf(nodes, AsWritten)[0] == ValueOf(nodes[0]);
  }

  // ---------- The first value, in any order ----------

  predicate SameOption(x: Option<Json>, y: Option<Json>) {
    if x.None? then y.None? else y.Some? && ValueOf(x.value) == ValueOf(y.value)
  }

  // A path whose first value does not depend on any order: no wildcard at all, or
  // an index that no array has.
  predicate Orderless(tokens: seq<PathToken>) {
    WildcardFree(tokens) || exists i :: 0 <= i < |tokens| && SelectsNothing(tokens[i])
  }

  lemma OrderlessAgrees(a: Json, b: Json, tokens: seq<PathToken>)
    requires SameJson(a, b) && Orderless(tokens)
    ensures SameOption(FirstPathValue(a, tokens), Head(EvalPath([b], tokens)))
    ensures |EvalPath([a], tokens)| == |EvalPath([b], tokens)| <= 1
    ensures SameOption(Head(EvalPath([a], tokens)), Head(EvalPath([b], tokens)))
  {
    var x, y := EvalPath([a], tokens), EvalPath([b], tokens);
    if i :| 0 <= i < |tokens| && SelectsNothing(tokens[i]) {
      NegativeIndexFails(a, tokens, i);
      NegativeIndexFails(b, tokens, i);
    } else {
      WildcardFreeAgrees(a, tokens);
      WildcardFreeAgrees(b, tokens);
      EvalBagFrom(a, b, tokens);
      BagSize(x);
      BagSize(y);
      if |x| == 1 {
        assert x == [x[0]] && y == [y[0]];
        BagOne(x[0]);
        BagOne(y[0]);
        assert ValueOf(x[0]) in Bag(y);
      }
    }
  }

  // ---------- Where the order shows ----------

  lemma {:induction false} ReachingDistinct(tokens: seq<PathToken>, x: Json)
    requires Distinct(x)
    ensures Distinct(Reaching(tokens, x))
  {
    if |tokens| != 0 { ReachingDistinct(tokens[1..], x); }
  }

  lemma {:induction false} ReachingSame(tokens: seq<PathToken>, x: Json, y: Json)
    requires ValueOf(x) == ValueOf(y)
    ensures ValueOf(Reaching(tokens, x)) == ValueOf(Reaching(tokens, y))
  {
    if |tokens| != 0 {
      ReachingSame(tokens[1..], x, y);
      var a, b := Reaching(tokens, x), Reaching(tokens, y);
      match tokens[0]
      case FieldToken(_) =>
        OneEntry(a.entries[0]);
        OneEntry(b.entries[0]);
      case IndexToken(index) =>
        if index >= 0 { assert MeaningsOf(a.items, AsWritten) == MeaningsOf(b.items, AsWritten); }
      case WildcardToken =>
        assert MeaningsOf(a.items, AsWritten) == MeaningsOf(b.items, AsWritten);
    }
  }

  lemma OneEntry(e: Entry)
    ensures TableOf([e], AsWritten) == map[e.key := ValueOf(e.value)]
  {
    assert [e][1..] == [] && TableOf([], AsWritten) == map[];
  }

  lemma {:induction false} ReachingDocument(tokens: seq<PathToken>, x: Json, numeral: string -> bool)
    requires Document(x, numeral)
    ensures Document(Reaching(tokens, x), numeral)
  {
    ReachingDistinct(tokens, x);
    if |tokens| != 0 {
      ReachingDocument(tokens[1..], x, numeral);
      var root := Reaching(tokens, x);
      match root
      case Object(entries) => OneEntry(entries[0]);
      case Array(items) =>
        forall i | 0 <= i < |items| ensures Numerals(MeaningsOf(items, AsWritten)[i], numeral) {
          assert items[i] == Reaching(tokens[1..], x);
        }
      case _ =>
    }
  }

  // An object with two entries, of which a path goes on into either.
  function Fork(after: seq<PathToken>, x: Json, y: Json, swapped: bool): (j: Json) {
    var one, two := Entry("a", Reaching(after, x)), Entry("b", Reaching(after, y));
    Object(if swapped then [two, one] else [one, two])
  }

  lemma ForkSame(after: seq<PathToken>, x: Json, y: Json)
    requires Distinct(x) && Distinct(y)
    ensures SameJson(Fork(after, x, y, false), Fork(after, x, y, true))
  {
    hide Reaching;
    ReachingDistinct(after, x);
    ReachingDistinct(after, y);
    TwoEntries(Entry("a", Reaching(after, x)), Entry("b", Reaching(after, y)));
    assert "a" != "b";
  }

  lemma TwoEntries(one: Entry, two: Entry)
    requires Distinct(one.value) && Distinct(two.value) && one.key != two.key
    ensures SameJson(Object([one, two]), Object([two, one]))
  {
    hide Distinct;
    var s, t := Meaning(one.value, AsWritten), Meaning(two.value, AsWritten);
    assert TableOf([one, two], AsWritten) == map[two.key := t][one.key := s] by { TwoEntriesTable(one, two); }
    assert TableOf([two, one], AsWritten) == map[one.key := s][two.key := t] by { TwoEntriesTable(two, one); }
    assert map[two.key := t][one.key := s] == map[one.key := s][two.key := t];
    TwoDistinct(one, two);
    TwoDistinct(two, one);
  }

  lemma TwoEntriesTable(one: Entry, two: Entry)
    ensures TableOf([one, two], AsWritten)
         == map[two.key := Meaning(two.value, AsWritten)][one.key := Meaning(one.value, AsWritten)]
  {
    hide Meaning;
    assert [one, two][1..] == [two] && [two][1..] == [];
    assert TableOf([], AsWritten) == map[];
    assert TableOf([two], AsWritten) == map[two.key := Meaning(two.value, AsWritten)];
  }

  lemma TwoDistinct(one: Entry, two: Entry)
    requires Distinct(one.value) && Distinct(two.value) && one.key != two.key
    ensures Distinct(Object([one, two]))
  {
  }

  lemma ForkDocument(after: seq<PathToken>, x: Json, y: Json, numeral: string -> bool)
    requires Document(x, numeral) && Document(y, numeral)
    ensures Document(Fork(after, x, y, false), numeral)
  {
    hide Reaching, Distinct, Numerals;
    ReachingDocument(after, x, numeral);
    ReachingDocument(after, y, numeral);
    assert "a" != "b";
    TwoDocuments(Entry("a", Reaching(after, x)), Entry("b", Reaching(after, y)), numeral);
  }

  lemma TwoDocuments(one: Entry, two: Entry, numeral: string -> bool)
    requires Document(one.value, numeral) && Document(two.value, numeral) && one.key != two.key
    ensures Document(Object([one, two]), numeral)
  {
    hide Distinct;
    TwoDistinct(one, two);
    TwoEntriesTable(one, two);
    var table := TableOf([one, two], AsWritten);
    assert ValueOf(Object([one, two])) == ObjectValue(table);
    forall key | key in table ensures Numerals(table[key], numeral) {
      assert key == one.key || key == two.key;
    }
  }

  lemma ForkForks(after: seq<PathToken>, x: Json, y: Json, swapped: bool)
    requires forall k :: 0 <= k < |after| ==> !SelectsNothing(after[k])
    ensures var fork, first := Fork(after, x, y, swapped), if swapped then y else x;
      && FirstPathValue(fork, [WildcardToken] + after) == Some(first)
      && Head(EvalPath([fork], [WildcardToken] + after)) == Some(first)
  {
    var first, second := if swapped then y else x, if swapped then x else y;
    ForkEvaluates(Fork(after, x, y, swapped), after, first, second);
  }

  lemma ForkEvaluates(fork: Json, after: seq<PathToken>, first: Json, second: Json)
    requires forall k :: 0 <= k < |after| ==> !SelectsNothing(after[k])
    requires fork.Object? && |fork.entries| == 2
    requires fork.entries[0].value == Reaching(after, first) && fork.entries[1].value == Reaching(after, second)
    ensures FirstPathValue(fork, [WildcardToken] + after) == Some(first)
    ensures Head(EvalPath([fork], [WildcardToken] + after)) == Some(first)
  {
    hide Reaching, SelectAll;
    var tokens := [WildcardToken] + after;
    assert tokens[1..] == after && after + [] == after;
    SelectOne(fork, WildcardToken);
    var here, there := Reaching(after, first), Reaching(after, second);
    assert Select(fork, WildcardToken) == [here] + [there];
    EvalConcat([here], [there], after);
    ReachingWorks(after, first, []);
    ReachingWorks(after, second, []);
  }

  // With a wildcard anywhere on the way, one document has two views on which the
  // short and the full evaluation begin with different given values.
  lemma OrderShows(tokens: seq<PathToken>, x: Json, y: Json, numeral: string -> bool) returns (a: Json, b: Json)
    requires !Orderless(tokens) && Document(x, numeral) && Document(y, numeral)
    ensures SameJson(a, b) && Document(a, numeral) && (a.Array? || a.Object?)
    ensures FirstPathValue(a, tokens) == Head(EvalPath([a], tokens)) == Some(x)
    ensures FirstPathValue(b, tokens) == Head(EvalPath([b], tokens)) == Some(y)
  {
    var i :| 0 <= i < |tokens| && tokens[i].WildcardToken?;
    hide Reaching, EvalPath, FirstPathValue, SameJson, Fork, Distinct, Numerals;
    var before, after := tokens[..i], tokens[i + 1..];
    var u, v := Fork(after, x, y, false), Fork(after, x, y, true);
    assert tokens == before + ([WildcardToken] + after);
    a, b := Reaching(before, u), Reaching(before, v);
    ForkSame(after, x, y);
    ReachingSameJson(before, u, v);
    ForkDocument(after, x, y, numeral);
    ReachingDocument(before, u, numeral);
    NestedReaching(before, after, x, y);
    ForkReached(before, after, x, y, false);
    ForkReached(before, after, x, y, true);
  }

  lemma NestedReaching(before: seq<PathToken>, after: seq<PathToken>, x: Json, y: Json)
    requires forall k :: 0 <= k < |before| ==> !SelectsNothing(before[k])
    ensures var a := Reaching(before, Fork(after, x, y, false)); a.Array? || a.Object?
  {
    if |before| != 0 { assert !SelectsNothing(before[0]); }
  }

  lemma ReachingSameJson(tokens: seq<PathToken>, x: Json, y: Json)
    requires SameJson(x, y)
    ensures SameJson(Reaching(tokens, x), Reaching(tokens, y))
  {
    ReachingDistinct(tokens, x);
    ReachingDistinct(tokens, y);
    ReachingSame(tokens, x, y);
  }

  lemma ForkReached(before: seq<PathToken>, after: seq<PathToken>, x: Json, y: Json, swapped: bool)
    requires forall k :: 0 <= k < |before| ==> !SelectsNothing(before[k])
    requires forall k :: 0 <= k < |after| ==> !SelectsNothing(after[k])
    ensures var a, first := Reaching(before, Fork(after, x, y, swapped)), if swapped then y else x;
      var tokens := before + ([WildcardToken] + after);
      FirstPathValue(a, tokens) == Some(first) && Head(EvalPath([a], tokens)) == Some(first)
  {
    hide Reaching, EvalPath, FirstPathValue, Fork;
    ForkForks(after, x, y, swapped);
    ReachingWorks(before, Fork(after, x, y, swapped), [WildcardToken] + after);
  }

  // However Go visits its maps, the short evaluator finds the value that the full
  // one finds first, exactly on the orderless paths.
  lemma ShortEvaluatorExactIff(tokens: seq<PathToken>)
    ensures Orderless(tokens) <==>
      forall a, b :: SameJson(a, b) ==> SameOption(FirstPathValue(a, tokens), Head(EvalPath([b], tokens)))
  {
    if Orderless(tokens) {
      forall a, b | SameJson(a, b) ensures SameOption(FirstPathValue(a, tokens), Head(EvalPath([b], tokens))) {
        OrderlessAgrees(a, b, tokens);
      }
    } else {
      var a, b := OrderShows(tokens, Null, Bool(true), _ => true);
      assert !SameOption(FirstPathValue(a, tokens), Head(EvalPath([b], tokens)));
    }
  }

  // ---------- Filters ----------

  // A filter whose verdict does not depend on any order.
  predicate OrderlessFilter(f: Filter) { f.useSelf || Orderless(f.path) }

  // A path expression whose first value does not depend on any order.
  predicate OrderlessPath(p: JSONPath) {
    Orderless(p.path) && (p.filter.Some? ==> OrderlessFilter(p.filter.value))
  }

  lemma FilterSame(f: Filter, a: Json, b: Json, float: FloatParser)
    requires SameJson(a, b) && OrderlessFilter(f)
    ensures FilterMatches(f, a, float) == FilterMatches(f, b, float)
  {
    var x := if f.useSelf then Some(a) else Head(EvalPath([a], f.path));
    var y := if f.useSelf then Some(b) else Head(EvalPath([b], f.path));
    if !f.useSelf {
      OrderlessAgrees(a, b, f.path);
      EvalBagFrom(a, b, f.path);
    }
    assert SameOption(x, y);
    if x.Some? {
      var numbers := (text: string) => ReadNumber(text, float);
      SameUnderAnyNumbers(x.value, y.value, numbers);
      SameSize(x.value, y.value);
    }
  }

  lemma SameSize(a: Json, b: Json)
    requires SameJson(a, b)
    ensures ValueSize(a) == ValueSize(b)
  {
    match a
    case Object(entries) => SameObjects(entries, b.entries);
    case Array(items) => assert |MeaningsOf(items, AsWritten)| == |MeaningsOf(b.items, AsWritten)|;
    case _ =>
  }

  lemma CandidatesSame(a: Json, b: Json)
    requires SameJson(a, b)
    ensures |FilterCandidates(a)| == |FilterCandidates(b)|
    ensures forall i :: 0 <= i < |FilterCandidates(a)| ==> SameJson(FilterCandidates(a)[i], FilterCandidates(b)[i])
  {
    if a.Array? {
      forall i | 0 <= i < |a.items| ensures SameJson(a.items[i], b.items[i]) {
        assert MeaningsOf(a.items, AsWritten)[i] == MeaningsOf(b.items, AsWritten)[i];
      }
    }
  }

  lemma {:induction false} FilteredSame(xs: seq<Json>, ys: seq<Json>, f: Filter, float: FloatParser)
    requires |xs| == |ys| && OrderlessFilter(f)
    requires forall i :: 0 <= i < |xs| ==> SameJson(xs[i], ys[i])
    ensures var x, y := Filtered(xs, f, float), Filtered(ys, f, float);
      |x| == |y| && forall i :: 0 <= i < |x| ==> SameJson(x[i], y[i])
  {
    hide FilterMatches, SameJson, OrderlessFilter;
    if |xs| != 0 {
      FilterSame(f, xs[0], ys[0], float);
      FilteredSame(xs[1..], ys[1..], f, float);
    }
  }

  lemma SameBag(xs: seq<Json>, ys: seq<Json>)
    requires |xs| == |ys| && forall i :: 0 <= i < |xs| ==> SameJson(xs[i], ys[i])
    ensures Bag(xs) == Bag(ys)
  {
    assert MeaningsOf(xs, AsWritten) == MeaningsOf(ys, AsWritten);
  }

  lemma {:induction false} FilteredAllBag(nodes: seq<Json>, others: seq<Json>, f: Filter, float: FloatParser)
    requires AllDistinct(nodes) && AllDistinct(others) && Bag(nodes) == Bag(others) && OrderlessFilter(f)
    ensures Bag(FilteredAll(nodes, f, float)) == Bag(FilteredAll(others, f, float))
  {
    hide Filtered, FilterCandidates, Bag, OrderlessFilter, SameJson, Distinct;
    BagSize(nodes);
    BagSize(others);
    if |nodes| != 0 {
      var j := MatchingNode(nodes, others);
      var rest := others[..j] + others[j + 1..];
      FilteredAllBag(nodes[1..], rest, f, float);
      FilteredNodeBag(nodes[0], others[j], f, float);
      FilteredAllConcat(others[..j], [others[j]] + others[j + 1..], f, float);
      FilteredAllConcat([others[j]], others[j + 1..], f, float);
      FilteredAllConcat(others[..j], others[j + 1..], f, float);
      assert [others[j]][1..] == [] && others == others[..j] + ([others[j]] + others[j + 1..]);
      var here := Filtered(FilterCandidates(others[j]), f, float);
      FilteredNone(f, float);
      assert FilteredAll([others[j]], f, float) == here + [] == here;
      Reassemble(FilteredAll(others[..j], f, float), here, FilteredAll(others[j + 1..], f, float));
      BagConcat(Filtered(FilterCandidates(nodes[0]), f, float), FilteredAll(nodes[1..], f, float));
    }
  }

  lemma FilteredNodeBag(a: Json, b: Json, f: Filter, float: FloatParser)
    requires Distinct(a) && Distinct(b) && ValueOf(a) == ValueOf(b) && OrderlessFilter(f)
    ensures Bag(Filtered(FilterCandidates(a), f, float)) == Bag(Filtered(FilterCandidates(b), f, float))
  {
    CandidatesSame(a, b);
    FilteredSame(FilterCandidates(a), FilterCandidates(b), f, float);
    SameBag(Filtered(FilterCandidates(a), f, float), Filtered(FilterCandidates(b), f, float));
  }

  // Wildcards or not, a path without an order-dependent filter finds the same
  // values in every order, so whether it finds any does not depend on the order.
  lemma ValuesIgnoreOrder(p: JSONPath, a: Json, b: Json, float: FloatParser)
    requires SameJson(a, b) && (p.filter.Some? ==> OrderlessFilter(p.filter.value))
    ensures Bag(Values(p, a, float)) == Bag(Values(p, b, float))
    ensures |Values(p, a, float)| == |Values(p, b, float)|
  {
    EvalBagFrom(a, b, p.path);
    if p.filter.Some? {
      FilteredAllBag(EvalPath([a], p.path), EvalPath([b], p.path), p.filter.value, float);
    }
    BagSize(Values(p, a, float));
    BagSize(Values(p, b, float));
  }

  // On an orderless path, filtered or not, FirstValue in one order is the first of
  // Values in any other.
  lemma FirstValueIgnoresOrder(p: JSONPath, a: Json, b: Json, float: FloatParser)
    requires SameJson(a, b) && OrderlessPath(p)
    ensures SameOption(FirstValue(p, a, float), Head(Values(p, b, float)))
  {
    hide Filtered, FilterCandidates, EvalPath, OrderlessFilter, FirstPathValue, Orderless;
    OrderlessAgrees(a, b, p.path);
    if p.filter.Some? {
      var f, x, y := p.filter.value, EvalPath([a], p.path), EvalPath([b], p.path);
      EvalBagFrom(a, b, p.path);
      if |x| == 1 {
        assert x[1..] == [] && y[1..] == [];
        FilteredNone(f, float);
        CandidatesSame(x[0], y[0]);
        FilteredSame(FilterCandidates(x[0]), FilterCandidates(y[0]), f, float);
      }
    }
  }
}
