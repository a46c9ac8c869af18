// When the text of a template helper depends on the order in which Go visits its maps.
module HelperOrder {
  import opened Wrappers
  import opened Decimal
  import opened JsonTree
  import opened JsonPath
  import opened JsonOrder

  // How a selected value is written: stringify, with escaping inside JSON bodies.
  type TextOf = JsonValue -> string

  function OptionalText(value: Option<Json>, text: TextOf): (s: string) {
    if value.None? then "" else text(ValueOf(value.value))
  }

  // What stringify keeps apart and what it does not.
  ghost predicate Stringifies(text: TextOf) {
    && text(StringValue("x")) != text(StringValue("y"))
    && (forall items :: text(ArrayValue(items)) != "")
    && (forall table :: text(ObjectValue(table)) != "")
    && (forall literal :: text(LiteralValue(literal)) == text(StringValue(literal)))
  }

  // ---------- Documents below documents ----------

  predicate AllDocuments(nodes: seq<Json>, numeral: string -> bool) {
    forall i :: 0 <= i < |nodes| ==> Document(nodes[i], numeral)
  }

  lemma SelectDocuments(node: Json, token: PathToken, numeral: string -> bool)
    requires Document(node, numeral)
    ensures AllDocuments(Select(node, token), numeral)
  {
    match node
    case Array(items) => ItemDocuments(items, numeral);
    case Object(entries) =>
      forall i | 0 <= i < |entries| ensures Document(entries[i].value, numeral) {
        EntryDocument(entries, i, numeral);
      }
      if token.FieldToken? && Lookup(entries, token.name).Some? {
        var i := LookupFound(entries, token.name);
      }
    case _ =>
  }

  lemma ItemDocuments(items: seq<Json>, numeral: string -> bool)
    requires Document(Array(items), numeral)
    ensures AllDocuments(items, numeral)
  {
    forall i | 0 <= i < |items| ensures Document(items[i], numeral) {
      assert MeaningsOf(items, AsWritten)[i] == ValueOf(items[i]);
    }
  }

  lemma EntryDocument(entries: seq<Entry>, i: nat, numeral: string -> bool)
    requires Document(Object(entries), numeral) && i < |entries|
    ensures Document(entries[i].value, numeral)
  {
    LookupAt(entries, i);
    TableLookup(entries, AsWritten, entries[i].key);
    assert entries[i].key in TableOf(entries, AsWritten);
  }

  lemma {:induction false} SelectAllDocuments(nodes: seq<Json>, token: PathToken, numeral: string -> bool)
    requires AllDocuments(nodes, numeral)
    ensures AllDocuments(SelectAll(nodes, token), numeral)
  {
    hide Document, Select;
    if |nodes| != 0 {
      SelectDocuments(nodes[0], token, numeral);
      SelectAllDocuments(nodes[1..], token, numeral);
    }
  }

  lemma {:induction false} EvalDocuments(nodes: seq<Json>, tokens: seq<PathToken>, numeral: string -> bool)
    requires AllDocuments(nodes, numeral)
    ensures AllDocuments(EvalPath(nodes, tokens), numeral)
    decreases |tokens|
  {
    if |tokens| != 0 {
      SelectAllDocuments(nodes, tokens[0], numeral);
      EvalDocuments(SelectAll(nodes, tokens[0]), tokens[1..], numeral);
    }
  }

  // Documents that a filter accepts.
  predicate AllAccepted(nodes: seq<Json>, f: Filter, float: FloatParser, numeral: string -> bool) {
    forall i :: 0 <= i < |nodes| ==> Document(nodes[i], numeral) && FilterMatches(f, nodes[i], float)
  }

  lemma {:induction false} FilteredAccepted(nodes: seq<Json>, f: Filter, float: FloatParser, numeral: string -> bool)
    requires AllDocuments(nodes, numeral)
    ensures AllAccepted(Filtered(nodes, f, float), f, float, numeral)
  {
    hide FilterMatches, Document;
    if |nodes| != 0 { FilteredAccepted(nodes[1..], f, float, numeral); }
  }

  lemma {:induction false} FilteredAllAccepted(nodes: seq<Json>, f: Filter, float: FloatParser,
                                               numeral: string -> bool)
    requires AllDocuments(nodes, numeral)
    ensures AllAccepted(FilteredAll(nodes, f, float), f, float, numeral)
  {
    hide FilterMatches, Document, Filtered;
    if |nodes| != 0 {
      if nodes[0].Array? { ItemDocuments(nodes[0].items, numeral); }
      FilteredAccepted(FilterCandidates(nodes[0]), f, float, numeral);
      FilteredAllAccepted(nodes[1..], f, float, numeral);
    }
  }

  lemma ValuesAccepted(p: JSONPath, root: Json, float: FloatParser, numeral: string -> bool)
    requires p.filter.Some? && Document(root, numeral)
    ensures AllAccepted(Values(p, root, float), p.filter.value, float, numeral)
  {
    EvalDocuments([root], p.path, numeral);
    FilteredAllAccepted(EvalPath([root], p.path), p.filter.value, float, numeral);
  }

  // ---------- Helpers whose text does not depend on any order ----------

  ghost predicate Never(f: Filter, float: FloatParser, numeral: string -> bool) {
    forall c :: Document(c, numeral) ==> !FilterMatches(f, c, float)
  }

  // All that a filter accepts is written alike.
  ghost predicate OneText(f: Filter, float: FloatParser, numeral: string -> bool, text: TextOf) {
    forall c, d ::
      Document(c, numeral) && Document(d, numeral) && FilterMatches(f, c, float) && FilterMatches(f, d, float) ==>
        text(ValueOf(c)) == text(ValueOf(d))
  }

  predicate Blocked(tokens: seq<PathToken>) { exists i :: 0 <= i < |tokens| && SelectsNothing(tokens[i]) }

  // Without a filter, the path must be orderless. With one, the filter must be, and
  // the path too unless all the filter accepts is written alike; and neither matters
  // where the path leads nowhere or the filter accepts nothing.
  ghost predicate Steady(p: JSONPath, float: FloatParser, numeral: string -> bool, text: TextOf) {
    match p.filter
    case None => Orderless(p.path)
    case Some(f) =>
      || Blocked(p.path) || Never(f, float, numeral)
      || (OrderlessFilter(f) && (WildcardFree(p.path) || OneText(f, float, numeral, text)))
  }

  // The short text in one view is the full text in the other.
  predicate SameHelperText(p: JSONPath, a: Json, b: Json, float: FloatParser, text: TextOf) {
    OptionalText(FirstValue(p, a, float), text) == OptionalText(Head(Values(p, b, float)), text)
  }

  lemma SteadyText(p: JSONPath, a: Json, b: Json, float: FloatParser, numeral: string -> bool, text: TextOf)
    requires SameJson(a, b) && Document(a, numeral) && Steady(p, float, numeral, text)
    ensures SameHelperText(p, a, b, float, text)
  {
    hide FilterMatches, Numerals, Distinct, ValueOf, EvalPath, FirstPathValue, FilteredAll, WildcardFree, Blocked;
    if p.filter.None? || (OrderlessFilter(p.filter.value) && WildcardFree(p.path)) {
      FirstValueIgnoresOrder(p, a, b, float);
    } else {
      ValuesAccepted(p, a, float, numeral);
      ValuesAccepted(p, b, float, numeral);
      if Blocked(p.path) {
        BlockedValues(p, a, float);
        BlockedValues(p, b, float);
      } else if !Never(p.filter.value, float, numeral) {
        ValuesIgnoreOrder(p, a, b, float);
      }
    }
  }

  lemma BlockedValues(p: JSONPath, root: Json, float: FloatParser)
    requires Blocked(p.path) && p.filter.Some?
    ensures Values(p, root, float) == []
  {
    var i :| 0 <= i < |p.path| && SelectsNothing(p.path[i]);
    NegativeIndexFails(root, p.path, i);
  }

  // ---------- Helpers whose text does ----------

  // Two views of one document that a filter with an order-dependent path takes and leaves.
  lemma FilterWavers(f: Filter, c: Json, float: FloatParser, numeral: string -> bool) returns (a: Json, b: Json)
    requires !OrderlessFilter(f) && Document(c, numeral) && FilterMatches(f, c, float)
    ensures SameJson(a, b) && Document(a, numeral) && (a.Array? || a.Object?)
    ensures FilterMatches(f, a, float) && !FilterMatches(f, b, float)
  {
    hide Orderless, EvalPath, FirstPathValue, Accepts, Numerals, Distinct, ValueOf;
    var accepted := EvalPath([c], f.path)[0];
    EvalDocuments([c], f.path, numeral);
    var other := if Accepts(f, Null, float) then Bool(true) else Null;
    assert !Accepts(f, other, float) by { NotBoth(f, float); }
    assert Document(other, numeral) by { PlainDocuments(numeral); }
    a, b := OrderShows(f.path, accepted, other, numeral);
  }

  lemma NotBoth(f: Filter, float: FloatParser)
    ensures !Accepts(f, Null, float) || !Accepts(f, Bool(true), float)
  {
  }

  lemma PlainDocuments(numeral: string -> bool)
    ensures Document(Null, numeral) && Document(Bool(true), numeral)
    ensures Document(Str("x"), numeral) && Document(Str("y"), numeral)
  {
  }

  lemma OneItemDocument(c: Json, numeral: string -> bool)
    requires Document(c, numeral)
    ensures Document(Array([c]), numeral)
  {
    assert MeaningsOf([c], AsWritten) == [ValueOf(c)];
  }

  // A document in which a filtered path first finds this candidate, if the filter takes it.
  lemma CandidateReached(p: JSONPath, c: Json, float: FloatParser)
    requires p.filter.Some? && !Blocked(p.path)
    ensures Values(p, Reaching(p.path, Array([c])), float) == Filtered([c], p.filter.value, float)
  {
    hide Reaching, FilterMatches, Filtered;
    var nodes := [Array([c])];
    assert p.path + [] == p.path;
    ReachingWorks(p.path, Array([c]), []);
    assert EvalPath(nodes, []) == nodes;
    assert nodes[1..] == [];
    FilteredNone(p.filter.value, float);
    var found := Filtered([c], p.filter.value, float);
    assert found + [] == found;
  }

  lemma OneCandidate(c: Json, f: Filter, float: FloatParser)
    ensures Filtered([c], f, float) == if FilterMatches(f, c, float) then [c] else []
  {
    hide FilterMatches;
    assert [c][1..] == [];
  }

  // An order-dependent filter that accepts anything shows.
  lemma WaveringFilterShows(p: JSONPath, c: Json, float: FloatParser, numeral: string -> bool, text: TextOf)
    returns (a: Json, b: Json)
    requires Stringifies(text) && p.filter.Some? && !Blocked(p.path) && !OrderlessFilter(p.filter.value)
    requires Document(c, numeral) && FilterMatches(p.filter.value, c, float)
    ensures SameJson(a, b) && Document(a, numeral)
    ensures OptionalText(Head(Values(p, a, float)), text) != OptionalText(Head(Values(p, b, float)), text)
  {
    hide FilterMatches, Numerals, Distinct, Values, Reaching, Filtered, OrderlessFilter;
    var taken, left := FilterWavers(p.filter.value, c, float, numeral);
    a, b := Reaching(p.path, Array([taken])), Reaching(p.path, Array([left]));
    OneItemSame(taken, left, numeral);
    ReachingSameJson(p.path, Array([taken]), Array([left]));
    ReachingDocument(p.path, Array([taken]), numeral);
    CandidateReached(p, taken, float);
    CandidateReached(p, left, float);
    OneCandidate(taken, p.filter.value, float);
    OneCandidate(left, p.filter.value, float);
    assert text(ValueOf(taken)) != "";
  }

  lemma OneItemSame(c: Json, d: Json, numeral: string -> bool)
    requires SameJson(c, d) && Document(c, numeral)
    ensures SameJson(Array([c]), Array([d])) && Document(Array([c]), numeral)
  {
    OneItemDocument(c, numeral);
    assert MeaningsOf([c], AsWritten) == MeaningsOf([d], AsWritten);
  }

  // Two accepted documents behind a wildcard, written differently, show.
  lemma TwoTextsShow(p: JSONPath, c: Json, d: Json, float: FloatParser, numeral: string -> bool, text: TextOf)
    returns (a: Json, b: Json)
    requires p.filter.Some? && !Orderless(p.path) && text(ValueOf(c)) != text(ValueOf(d))
    requires Document(c, numeral) && FilterMatches(p.filter.value, c, float)
    requires Document(d, numeral) && FilterMatches(p.filter.value, d, float)
    ensures SameJson(a, b) && Document(a, numeral)
    ensures OptionalText(Head(Values(p, a, float)), text) != OptionalText(Head(Values(p, b, float)), text)
  {
    hide FilterMatches, Numerals, Distinct, Orderless, FirstPathValue, EvalPath;
    OneItemDocument(c, numeral);
    OneItemDocument(d, numeral);
    a, b := OrderShows(p.path, Array([c]), Array([d]), numeral);
    FirstCandidate(p, a, c, float);
    FirstCandidate(p, b, d, float);
  }

  lemma FirstCandidate(p: JSONPath, root: Json, c: Json, float: FloatParser)
    requires p.filter.Some? && Head(EvalPath([root], p.path)) == Some(Array([c]))
    requires FilterMatches(p.filter.value, c, float)
    ensures Head(Values(p, root, float)) == Some(c)
  {
    hide FilterMatches, EvalPath;
    OneCandidate(c, p.filter.value, float);
  }

  lemma UnsteadyShows(p: JSONPath, float: FloatParser, numeral: string -> bool, text: TextOf)
    returns (a: Json, b: Json)
    requires Stringifies(text) && !Steady(p, float, numeral, text)
    ensures SameJson(a, b) && Document(a, numeral)
    ensures OptionalText(Head(Values(p, a, float)), text) != OptionalText(Head(Values(p, b, float)), text)
  {
    hide FilterMatches, Numerals, Distinct, FirstPathValue, EvalPath, FilteredAll, OrderlessFilter;
    if p.filter.None? {
      PlainDocuments(numeral);
      a, b := OrderShows(p.path, Str("x"), Str("y"), numeral);
    } else {
      var f := p.filter.value;
      if !OrderlessFilter(f) {
        var c :| Document(c, numeral) && FilterMatches(f, c, float);
        a, b := WaveringFilterShows(p, c, float, numeral, text);
      } else {
        var c, d :| Document(c, numeral) && FilterMatches(f, c, float) && Document(d, numeral)
          && FilterMatches(f, d, float) && text(ValueOf(c)) != text(ValueOf(d));
        a, b := TwoTextsShow(p, c, d, float, numeral, text);
      }
    }
  }

  // The renderers give a helper one text on every document, in whatever orders either
  // sees it, exactly when the helper is steady.
  lemma HelperTextIff(p: JSONPath, float: FloatParser, numeral: string -> bool, text: TextOf)
    requires Stringifies(text)
    ensures Steady(p, float, numeral, text) <==>
      forall a, b :: SameJson(a, b) && Document(a, numeral) ==> SameHelperText(p, a, b, float, text)
  {
    hide SameJson, Document, FirstValue, Values, Steady, Stringifies;
    if Steady(p, float, numeral, text) {
      forall a, b | SameJson(a, b) && Document(a, numeral) ensures SameHelperText(p, a, b, float, text) {
        SteadyText(p, a, b, float, numeral, text);
      }
    } else {
      var a, b := UnsteadyShows(p, float, numeral, text);
      assert SameJson(a, a) by { SameAsItself(a, b); }
      assert !SameHelperText(p, a, a, float, text) || !SameHelperText(p, a, b, float, text);
    }
  }

  lemma SameAsItself(a: Json, b: Json)
    requires SameJson(a, b)
    ensures SameJson(a, a)
  {
  }

  // A filter accepts nothing exactly when its path leads nowhere or it compares a size
  // with what is no size.
  lemma NeverIff(f: Filter, float: FloatParser, numeral: string -> bool)
    requires Document(f.expected, numeral)
    ensures Never(f, float, numeral) <==>
      || (!f.useSelf && Blocked(f.path))
      || (f.sizeCheck && forall n: nat :: !SameValue(Number(Itoa(n)), f.expected, float))
  {
    hide Numerals, Distinct, EvalPath, Reaching, Itoa, SameValue;
    if !f.useSelf && Blocked(f.path) {
      forall c ensures !FilterMatches(f, c, float) {
        var i :| 0 <= i < |f.path| && SelectsNothing(f.path[i]);
        NegativeIndexFails(c, f.path, i);
      }
    } else if !f.sizeCheck {
      assert Accepts(f, f.expected, float) by { SameAsWritten(f.expected, float); }
      SomeAccepted(f, f.expected, float, numeral);
    } else if n: nat :| SameValue(Number(Itoa(n)), f.expected, float) {
      var target := Str(seq(n, _ => 'x'));
      assert Document(target, numeral) by { TextDocument(target, numeral); }
      SomeAccepted(f, target, float, numeral);
    }
  }

  lemma SameAsWritten(j: Json, float: FloatParser)
    ensures SameValue(j, j, float)
  {
  }

  lemma TextDocument(j: Json, numeral: string -> bool)
    requires j.Str?
    ensures Document(j, numeral)
  {
  }

  // What a filter compares well with, it can reach.
  lemma SomeAccepted(f: Filter, target: Json, float: FloatParser, numeral: string -> bool)
    requires (f.useSelf || !Blocked(f.path)) && Document(target, numeral) && Accepts(f, target, float)
    ensures !Never(f, float, numeral)
  {
    hide Numerals, Distinct, EvalPath, Reaching, Accepts;
    var c := if f.useSelf then target else Reaching(f.path, target);
    if !f.useSelf {
      ReachingDocument(f.path, target, numeral);
      ReachingWorks(f.path, target, []);
      assert f.path + [] == f.path;
      assert EvalPath([target], []) == [target] by { EvalNowhere(target); }
    }
    assert FilterMatches(f, c, float);
  }

  lemma EvalNowhere(target: Json)
    ensures EvalPath([target], []) == [target]
  {
  }

  // A filter that compares the candidate itself with null, a boolean or a string.
  lemma ScalarOneText(f: Filter, float: FloatParser, numeral: string -> bool, text: TextOf)
    requires Stringifies(text) && f.useSelf && !f.sizeCheck
    requires f.expected.Null? || f.expected.Bool? || f.expected.Str?
    ensures OneText(f, float, numeral, text)
  {
    hide Distinct, Numerals;
    forall c | Document(c, numeral) && FilterMatches(f, c, float)
      ensures text(ValueOf(c)) == text(ValueOf(f.expected))
    {
      assert SameValue(c, f.expected, float);
      if c.Number? { assert ReadNumber(c.text, float) == StringValue(f.expected.text); }
    }
  }
}
