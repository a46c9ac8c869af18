// Parsing and printing are inverse: a token sequence parses to a tree exactly
// when it is that tree printed, so the grammar is unambiguous and the parser
// accepts all of it and nothing else.
module GraphQLRoundTrip {
  import opened Wrappers
  import opened GraphQLTokens
  import opened GraphQLSyntax
  import opened GraphQLGrammar

  // ---------- Printed trees parse ----------

  lemma Regroup3(a: seq<Token>, b: seq<Token>, c: seq<Token>)
    ensures a + b + c == a + (b + c)
  {
  }

  lemma Regroup5(a: seq<Token>, b: seq<Token>, c: seq<Token>, d: seq<Token>, e: seq<Token>)
    ensures a + b + c + d + e == a + (b + (c + (d + e)))
  {
  }

  lemma BangParses(bang: bool, rest: seq<Token>)
    requires !PeekPunct(rest, "!")
    ensures var tail := (if bang then P("!") else []) + rest;
      PeekPunct(tail, "!") == bang && (if bang then tail[1..] else tail) == rest
  {
  }

  lemma {:induction false} TypeRefParses(t: TypeRef, rest: seq<Token>)
    requires !PeekPunct(rest, "!")
    ensures ParseTypeRef(PrintTypeRef(t) + rest) == Ok(Parsed(t, rest))
  {
    var bang := if t.bang then P("!") else [];
    var tail := bang + rest;
    BangParses(t.bang, rest);
    match t {
      case Named(name, _) =>
        Regroup3(N(name), bang, rest);
        NamedTypeParses(name, t.bang, rest, tail);
      case ListOf(inner, _) =>
        Regroup5(P("["), PrintTypeRef(inner), P("]"), bang, rest);
        ListTypeParses(inner, t.bang, rest, tail);
    }
  }

  lemma NamedTypeParses(name: string, bang: bool, rest: seq<Token>, tail: seq<Token>)
    requires PeekPunct(tail, "!") == bang && (if bang then tail[1..] else tail) == rest
    ensures ParseTypeRef(N(name) + tail) == Ok(Parsed(Named(name, bang), rest))
  {
    assert (N(name) + tail)[1..] == tail;
  }

  lemma ListTypeParses(inner: TypeRef, bang: bool, rest: seq<Token>, tail: seq<Token>)
    requires PeekPunct(tail, "!") == bang && (if bang then tail[1..] else tail) == rest
    ensures ParseTypeRef(P("[") + (PrintTypeRef(inner) + (P("]") + tail))) == Ok(Parsed(ListOf(inner, bang), rest))
    decreases inner
  {
    var close := P("]") + tail;
    var afterOpen := PrintTypeRef(inner) + close;
    TypeRefParses(inner, close);
    assert (P("[") + afterOpen)[1..] == afterOpen;
    assert close[1..] == tail;
  }

  // A printed value starts with a token of its own, never with a closing bracket.
  lemma ValueStarts(v: Value)
    ensures |PrintValue(v)| > 0
    ensures PrintValue(v)[0] != Punct("]")
  {
  }

  lemma {:induction false} ValueParses(v: Value, rest: seq<Token>)
    ensures ParseValue(PrintValue(v) + rest) == Ok(Parsed(v, rest))
    decreases v, 1
  {
    hide ParseValues, ParsePairs, PrintValues, PrintPairs;
    var ts := PrintValue(v) + rest;
    match v {
      case Variable(name) =>
        assert ts == P("$") + (N(name) + rest);
      case ListValue(items) =>
        ValuesParse(items, rest);
        assert ts == P("[") + (PrintValues(items) + (P("]") + rest));
      case ObjectValue(fields) =>
        PairsParse(fields, "}", rest);
        assert ts == P("{") + (PrintPairs(fields) + (P("}") + rest));
      case StringValue(_) =>
      case NumberValue(_) =>
      case NameValue(_) =>
    }
  }

  lemma {:induction false} ValuesParse(vs: seq<Value>, rest: seq<Token>)
    ensures ParseValues(PrintValues(vs) + (P("]") + rest)) == Ok(Parsed(vs, rest))
    decreases vs, 0
  {
    var ts, end := PrintValues(vs) + (P("]") + rest), P("]") + rest;
    if |vs| == 0 {
      assert ts == end && end[1..] == rest;
    } else {
      var tail := PrintValues(vs[1..]) + end;
      assert ts == PrintValue(vs[0]) + tail;
      ValueStarts(vs[0]);
      ValueParses(vs[0], tail);
      ValuesParse(vs[1..], rest);
      assert vs == [vs[0]] + vs[1..];
    }
  }

  lemma {:induction false} PairsParse(ps: seq<NamedValue>, close: string, rest: seq<Token>)
    ensures ParsePairs(PrintPairs(ps) + (P(close) + rest), close) == Ok(Parsed(ps, rest))
    decreases ps, 0
  {
    var ts, end := PrintPairs(ps) + (P(close) + rest), P(close) + rest;
    if |ps| == 0 {
      assert ts == end && end[1..] == rest;
    } else {
      var p := ps[0];
      var tail := PrintPairs(ps[1..]) + end;
      assert ts == N(p.name) + (P(":") + (PrintValue(p.value) + tail));
      assert (P(":") + (PrintValue(p.value) + tail))[1..] == PrintValue(p.value) + tail;
      ValueParses(p.value, tail);
      assert ParsePair(ts) == Ok(Parsed(p, tail));
      PairsParse(ps[1..], close, rest);
      assert ps == [p] + ps[1..];
    }
  }

  lemma ArgumentsParse(a: Arguments, rest: seq<Token>)
    requires !PeekPunct(rest, "(")
    ensures ParseArguments(PrintArguments(a) + rest) == Ok(Parsed(a, rest))
  {
    if a.None? {
      assert PrintArguments(a) + rest == rest;
    } else {
      PairsParse(a.value, ")", rest);
      assert PrintArguments(a) + rest == P("(") + (PrintPairs(a.value) + (P(")") + rest));
    }
  }

  lemma ArgumentsStart(a: Arguments, rest: seq<Token>)
    ensures a.None? ==> PrintArguments(a) + rest == rest
    ensures a.Some? ==> PeekPunct(PrintArguments(a) + rest, "(")
  {
  }

  lemma DirectivesStart(ds: seq<Directive>, rest: seq<Token>)
    ensures |ds| == 0 ==> PrintDirectives(ds) + rest == rest
    ensures |ds| > 0 ==> PeekPunct(PrintDirectives(ds) + rest, "@")
  {
  }

  lemma SelectionSetStarts(ss: seq<Selection>, rest: seq<Token>)
    ensures PeekPunct(PrintSelectionSet(ss) + rest, "{")
  {
  }

  lemma DirectiveParses(d: Directive, tail: seq<Token>)
    requires !PeekPunct(tail, "(")
    ensures var ts := P("@") + (N(d.name) + (PrintArguments(d.arguments) + tail));
      PeekPunct(ts, "@") && ParseDirective(ts) == Ok(Parsed(d, tail))
  {
    hide ParseArguments, PrintArguments;
    var afterName := PrintArguments(d.arguments) + tail;
    var afterAt := N(d.name) + afterName;
    assert (P("@") + afterAt)[1..] == afterAt && afterAt[1..] == afterName;
    ArgumentsParse(d.arguments, tail);
  }

  lemma {:induction false} DirectivesParse(ds: seq<Directive>, rest: seq<Token>)
    requires !PeekPunct(rest, "(") && !PeekPunct(rest, "@")
    ensures ParseDirectives(PrintDirectives(ds) + rest) == Ok(Parsed(ds, rest))
  {
    hide ParseDirective, PrintArguments;
    if |ds| == 0 {
      assert PrintDirectives(ds) + rest == rest;
    } else {
      var tail := PrintDirectives(ds[1..]) + rest;
      DirectivesStart(ds[1..], rest);
      DirectiveParses(ds[0], tail);
      Regroup5(P("@"), N(ds[0].name), PrintArguments(ds[0].arguments), PrintDirectives(ds[1..]), rest);
      DirectivesParse(ds[1..], rest);
      assert ds == [ds[0]] + ds[1..];
    }
  }

  lemma VariableParses(v: VariableDefinition, tail: seq<Token>)
    requires !PeekPunct(tail, "!") && !PeekPunct(tail, "=")
    ensures ParseVariable(PrintVariables([v]) + tail) == Ok(Parsed(v, tail))
  {
    hide ParseValue, PrintValue, ParseTypeRef, PrintTypeRef;
    var default := if v.default.None? then [] else P("=") + PrintValue(v.default.value);
    var afterType := default + tail;
    var afterColon := PrintTypeRef(v.typeRef) + afterType;
    var afterName := P(":") + afterColon;
    assert PrintVariables([v]) + tail == P("$") + (N(v.name) + afterName);
    assert (N(v.name) + afterName)[1..] == afterName && afterName[1..] == afterColon;
    TypeRefParses(v.typeRef, afterType);
    if v.default.None? {
      assert afterType == tail;
    } else {
      ValueParses(v.default.value, tail);
      assert afterType == P("=") + (PrintValue(v.default.value) + tail);
    }
    assert ParseDefault(afterType) == Ok(Parsed(v.default, tail));
  }

  lemma {:induction false} VariablesParse(vs: seq<VariableDefinition>, rest: seq<Token>)
    ensures ParseVariables(PrintVariables(vs) + (P(")") + rest)) == Ok(Parsed(vs, rest))
  {
    hide ParseVariable, PrintValue, PrintTypeRef;
    var ts, end := PrintVariables(vs) + (P(")") + rest), P(")") + rest;
    if |vs| == 0 {
      assert ts == end && end[1..] == rest;
    } else {
      var tail := PrintVariables(vs[1..]) + end;
      assert PrintVariables(vs) == PrintVariables([vs[0]]) + PrintVariables(vs[1..]);
      assert ts == PrintVariables([vs[0]]) + tail;
      VariableParses(vs[0], tail);
      VariablesParse(vs[1..], rest);
      assert vs == [vs[0]] + vs[1..];
    }
  }

  // What follows a selection: the end of the set or another selection.
  predicate AfterSelection(rest: seq<Token>) {
    |rest| > 0 && (rest[0] == Punct("}") || rest[0] == Punct("...") || rest[0].Name?)
  }

  lemma SelectionStarts(s: Selection, rest: seq<Token>)
    ensures AfterSelection(PrintSelection(s) + rest)
    ensures (PrintSelection(s) + rest)[0] != Punct("}")
  {
  }

  lemma FieldNameParses(alias: Option<string>, name: string, rest: seq<Token>)
    requires !PeekPunct(rest, ":")
    ensures ParseFieldName((if alias.None? then [] else N(alias.value) + P(":")) + (N(name) + rest))
         == Ok(Parsed((alias, name), rest))
  {
    var tail := N(name) + rest;
    assert tail[1..] == rest;
    if alias.None? {
      assert [] + tail == tail;
    } else {
      AliasParses(alias.value, name, rest, P(":") + tail);
      Regroup3(N(alias.value), P(":"), tail);
    }
  }

  lemma AliasParses(alias: string, name: string, rest: seq<Token>, afterAlias: seq<Token>)
    requires afterAlias == P(":") + (N(name) + rest)
    ensures ParseFieldName(N(alias) + afterAlias) == Ok(Parsed((Some(alias), name), rest))
  {
    assert (N(alias) + afterAlias)[1..] == afterAlias;
    assert afterAlias[1..] == N(name) + rest && (N(name) + rest)[1..] == rest;
  }

  lemma {:induction false} SelectionParses(s: Selection, rest: seq<Token>)
    requires WellFormedSelection(s) && AfterSelection(rest)
    ensures ParseSelection(PrintSelection(s) + rest) == Ok(Parsed(s, rest))
    decreases s, 2
  {
    hide ParseDirectives, PrintDirectives, ParseSelectionSet, PrintSelectionSet, ParseField;
    var ts := PrintSelection(s) + rest;
    match s {
      case Field(_, _, _, _, _) => FieldParses(s, rest);
      case Spread(name, directives) =>
        var tail := PrintDirectives(directives) + rest;
        assert ts == P("...") + (N(name) + tail);
        assert ts[1..] == N(name) + tail && (N(name) + tail)[1..] == tail;
        DirectivesParse(directives, rest);
      case Inline(typeName, directives, children) =>
        var braces := PrintSelectionSet(children) + rest;
        var tail := PrintDirectives(directives) + braces;
        assert ts == P("...") + (N("on") + (N(typeName) + tail));
        assert ts[1..] == N("on") + (N(typeName) + tail);
        assert ts[2..] == N(typeName) + tail && (N(typeName) + tail)[1..] == tail;
        SelectionSetParses(children, rest);
        SelectionSetStarts(children, rest);
        DirectivesParse(directives, braces);
    }
  }

  lemma FieldParses(s: Selection, rest: seq<Token>)
    requires s.Field? && WellFormedSelection(s) && AfterSelection(rest)
    ensures ParseSelection(PrintSelection(s) + rest) == Ok(Parsed(s, rest))
    decreases s, 1
  {
    hide ParseDirectives, PrintDirectives, ParseSelectionSet, PrintSelectionSet, ParseArguments, PrintArguments,
      ParseFieldName;
    var ts := PrintSelection(s) + rest;
    var braces := (if |s.children| == 0 then [] else PrintSelectionSet(s.children)) + rest;
    var afterArguments := PrintDirectives(s.directives) + braces;
    var afterName := PrintArguments(s.arguments) + afterArguments;
    FieldText(s, rest);
    hide PrintSelection, ParseField;
    assert |s.children| == 0 ==> braces == rest;
    if |s.children| != 0 { SelectionSetStarts(s.children, rest); }
    DirectivesStart(s.directives, braces);
    ArgumentsStart(s.arguments, afterArguments);
    FieldNameParses(s.alias, s.name, afterName);
    ArgumentsParse(s.arguments, afterArguments);
    DirectivesParse(s.directives, braces);
    if |s.children| != 0 {
      SelectionSetParses(s.children, rest);
    }
    FieldFromParts(ts, s, afterName, afterArguments, braces, rest);
    FieldIsSelection(ts);
  }

  lemma FieldFromParts(ts: seq<Token>, s: Selection, r1: seq<Token>, r2: seq<Token>, r3: seq<Token>, r4: seq<Token>)
    requires s.Field?
    requires ParseFieldName(ts) == Ok(Parsed((s.alias, s.name), r1))
    requires ParseArguments(r1) == Ok(Parsed(s.arguments, r2))
    requires ParseDirectives(r2) == Ok(Parsed(s.directives, r3))
    requires if PeekPunct(r3, "{") then ParseSelectionSet(r3) == Ok(Parsed(s.children, r4))
             else s.children == [] && r3 == r4
    ensures ParseField(ts) == Ok(Parsed(s, r4))
  {
    hide ParseFieldName, ParseArguments, ParseDirectives, ParseSelectionSet, PeekPunct;
  }

  lemma FieldIsSelection(ts: seq<Token>)
    requires ParseField(ts).Ok?
    ensures ParseSelection(ts) == ParseField(ts)
  {
    hide ParseArguments, ParseDirectives, ParseSelectionSet;
  }

  lemma FieldText(s: Selection, rest: seq<Token>)
    requires s.Field?
    ensures PrintSelection(s) + rest ==
      (if s.alias.None? then [] else N(s.alias.value) + P(":"))
      + (N(s.name) + (PrintArguments(s.arguments) + (PrintDirectives(s.directives)
      + ((if |s.children| == 0 then [] else PrintSelectionSet(s.children)) + rest))))
  {
    hide PrintArguments, PrintDirectives, PrintSelectionSet;
    var head := if s.alias.None? then [] else N(s.alias.value) + P(":");
    var a, ds := PrintArguments(s.arguments), PrintDirectives(s.directives);
    var b := if |s.children| == 0 then [] else PrintSelectionSet(s.children);
    assert PrintSelection(s) == head + N(s.name) + a + ds + b;
    Regroup5(head, N(s.name), a, ds, b);
    Regroup5(head, N(s.name), a, ds + b, rest);
    Regroup3(ds, b, rest);
    Regroup3(head + N(s.name) + a, ds, b);
  }

  lemma {:induction false} SelectionSetParses(ss: seq<Selection>, rest: seq<Token>)
    requires WellFormedSelections(ss) && |ss| > 0
    ensures ParseSelectionSet(PrintSelectionSet(ss) + rest) == Ok(Parsed(ss, rest))
    decreases ss, 1
  {
    hide ParseSelections, PrintSelections;
    SelectionsParse(ss, rest);
    assert PrintSelectionSet(ss) + rest == P("{") + (PrintSelections(ss) + (P("}") + rest));
  }

  lemma {:induction false} SelectionsParse(ss: seq<Selection>, rest: seq<Token>)
    requires WellFormedSelections(ss)
    ensures ParseSelections(PrintSelections(ss) + (P("}") + rest)) == Ok(Parsed(ss, rest))
    decreases ss, 0
  {
    hide ParseSelection, PrintSelection, WellFormedSelection;
    var ts, end := PrintSelections(ss) + (P("}") + rest), P("}") + rest;
    if |ss| == 0 {
      assert ts == end && end[1..] == rest;
    } else {
      var tail := PrintSelections(ss[1..]) + end;
      assert ts == PrintSelection(ss[0]) + tail;
      SelectionStarts(ss[0], tail);
      if |ss| > 1 { SelectionStarts(ss[1], PrintSelections(ss[1..][1..]) + end); }
      assert AfterSelection(tail) by {
        if |ss| > 1 {
          assert tail == PrintSelection(ss[1]) + (PrintSelections(ss[1..][1..]) + end);
        }
      }
      SelectionParses(ss[0], tail);
      SelectionsParse(ss[1..], rest);
      assert ss == [ss[0]] + ss[1..];
    }
  }

  function PrintTitle(title: Option<string>): (ts: seq<Token>) {
    if title.None? then [] else N(title.value)
  }

  function PrintVariableDefinitions(vs: Option<seq<VariableDefinition>>): (ts: seq<Token>) {
    if vs.None? then [] else P("(") + PrintVariables(vs.value) + P(")")
  }

  // A token that can follow an operation's title.
  predicate OpensBody(ts: seq<Token>) { PeekPunct(ts, "(") || PeekPunct(ts, "@") || PeekPunct(ts, "{") }

  lemma TitleParses(title: Option<string>, rest: seq<Token>)
    requires title != Some("on") && OpensBody(rest)
    ensures ParseTitle(PrintTitle(title) + rest) == Parsed(title, rest)
  {
    if title.None? {
      assert PrintTitle(title) + rest == rest;
    } else {
      assert (N(title.value) + rest)[1..] == rest;
    }
  }

  lemma VariableDefinitionsParse(vs: Option<seq<VariableDefinition>>, rest: seq<Token>)
    requires OpensBody(rest) && !PeekPunct(rest, "(")
    ensures ParseVariableDefinitions(PrintVariableDefinitions(vs) + rest) == Ok(Parsed(vs, rest))
    ensures OpensBody(PrintVariableDefinitions(vs) + rest)
  {
    hide ParseVariables, PrintVariables;
    if vs.None? {
      assert PrintVariableDefinitions(vs) + rest == rest;
    } else {
      var afterOpen := PrintVariables(vs.value) + (P(")") + rest);
      VariablesParse(vs.value, rest);
      assert PrintVariableDefinitions(vs) + rest == P("(") + afterOpen;
      assert (P("(") + afterOpen)[1..] == afterOpen;
    }
  }

  lemma OperationParses(d: Definition, rest: seq<Token>)
    requires d.Operation? && WellFormedDefinition(d)
    ensures ParseDefinition(PrintDefinition(d) + rest) == Ok(Parsed(d, rest))
  {
    hide ParseDirectives, PrintDirectives, ParseSelectionSet, PrintSelectionSet, ParseTitle, PrintTitle,
      ParseVariableDefinitions, PrintVariableDefinitions;
    var body := PrintSelectionSet(d.selections) + rest;
    var afterVariables := PrintDirectives(d.directives) + body;
    var afterTitle := PrintVariableDefinitions(d.variables) + afterVariables;
    var afterKind := PrintTitle(d.title) + afterTitle;
    assert PrintDefinition(d) + rest == N(d.kind) + afterKind by { OperationText(d, rest); }
    assert (N(d.kind) + afterKind)[1..] == afterKind;
    SelectionSetParses(d.selections, rest);
    SelectionSetStarts(d.selections, rest);
    DirectivesStart(d.directives, body);
    DirectivesParse(d.directives, body);
    VariableDefinitionsParse(d.variables, afterVariables);
    TitleParses(d.title, afterTitle);
    assert ParseOperation(N(d.kind) + afterKind) == Ok(Parsed(d, rest));
  }

  lemma OperationText(d: Definition, rest: seq<Token>)
    requires d.Operation?
    ensures PrintDefinition(d) + rest ==
      N(d.kind) + (PrintTitle(d.title) + (PrintVariableDefinitions(d.variables)
        + (PrintDirectives(d.directives) + (PrintSelectionSet(d.selections) + rest))))
  {
    var k, t, v, ds, b := N(d.kind), PrintTitle(d.title), PrintVariableDefinitions(d.variables),
      PrintDirectives(d.directives), PrintSelectionSet(d.selections);
    assert PrintDefinition(d) == k + t + v + ds + b;
    Regroup5(k, t, v, ds, b);
    Regroup3(ds, b, rest);
    Regroup5(k, t, v, ds + b, rest);
    assert k + t + v + (ds + b) == k + t + v + ds + b by { Regroup3(k + t + v, ds, b); }
  }

  lemma FragmentParses(d: Definition, rest: seq<Token>)
    requires d.Fragment? && WellFormedDefinition(d)
    ensures ParseDefinition(PrintDefinition(d) + rest) == Ok(Parsed(d, rest))
  {
    hide ParseDirectives, PrintDirectives, ParseSelectionSet, PrintSelectionSet, ParseOperation;
    var braces := PrintSelectionSet(d.selections) + rest;
    var afterType := PrintDirectives(d.directives) + braces;
    var afterOn := N(d.typeName) + afterType;
    var afterName := N("on") + afterOn;
    var afterKeyword := N(d.name) + afterName;
    FragmentText(d, rest);
    hide PrintDefinition;
    SelectionSetParses(d.selections, rest);
    SelectionSetStarts(d.selections, rest);
    DirectivesStart(d.directives, braces);
    DirectivesParse(d.directives, braces);
    FragmentFromParts(d, afterType, braces, rest);
    hide ParseFragment;
    assert PeekName(N("fragment") + afterKeyword, "fragment");
  }

  lemma FragmentFromParts(d: Definition, afterType: seq<Token>, braces: seq<Token>, rest: seq<Token>)
    requires d.Fragment?
    requires ParseDirectives(afterType) == Ok(Parsed(d.directives, braces))
    requires ParseSelectionSet(braces) == Ok(Parsed(d.selections, rest))
    ensures ParseFragment(N("fragment") + (N(d.name) + (N("on") + (N(d.typeName) + afterType)))) == Ok(Parsed(d, rest))
  {
    hide ParseDirectives, ParseSelectionSet;
    var afterOn := N(d.typeName) + afterType;
    var afterName := N("on") + afterOn;
    var afterKeyword := N(d.name) + afterName;
    assert (N("fragment") + afterKeyword)[1..] == afterKeyword && afterKeyword[1..] == afterName;
    assert afterName[1..] == afterOn && afterOn[1..] == afterType;
  }

  lemma DefinitionParses(d: Definition, rest: seq<Token>)
    requires WellFormedDefinition(d)
    ensures |PrintDefinition(d)| > 0
    ensures ParseDefinition(PrintDefinition(d) + rest) == Ok(Parsed(d, rest))
  {
    match d
    case Shorthand(selections) => SelectionSetParses(selections, rest);
    case Operation(_, _, _, _, _) => OperationParses(d, rest);
    case Fragment(_, _, _, _) => FragmentParses(d, rest);
  }

  lemma {:induction false} PrintedDocumentParses(document: Document)
    requires WellFormed(document)
    ensures ParseDocument(PrintDocument(document)) == Ok(document)
  {
    hide ParseDefinition, PrintDefinition, WellFormedDefinition;
    if |document| != 0 {
      DefinitionParses(document[0], PrintDocument(document[1..]));
      PrintedDocumentParses(document[1..]);
      assert document == [document[0]] + document[1..];
    }
  }

  // ---------- Whatever parses was printed ----------

  lemma PeeledPunct(ts: seq<Token>, text: string)
    requires PeekPunct(ts, text)
    ensures ts == P(text) + ts[1..]
  {
  }

  lemma PeeledName(ts: seq<Token>)
    requires PeekAnyName(ts)
    ensures ts == N(ts[0].text) + ts[1..]
  {
  }

  lemma BangParsed(rest: seq<Token>, bang: bool)
    requires PeekPunct(rest, "!") == bang
    ensures rest == (if bang then P("!") else []) + if bang then rest[1..] else rest
  {
  }

  lemma {:induction false} ParsedTypeRef(ts: seq<Token>)
    requires ParseTypeRef(ts).Ok?
    ensures var p := ParseTypeRef(ts).value; ts == PrintTypeRef(p.node) + p.rest
    decreases |ts|
  {
    var p := ParseTypeRef(ts).value;
    var bang := if p.node.bang then P("!") else [];
    if PeekPunct(ts, "[") {
      PeeledPunct(ts, "[");
      ParsedTypeRef(ts[1..]);
      var inner := ParseTypeRef(ts[1..]).value;
      PeeledPunct(inner.rest, "]");
      BangParsed(inner.rest[1..], p.node.bang);
      Regroup5(P("["), PrintTypeRef(inner.node), P("]"), bang, p.rest);
    } else {
      PeeledName(ts);
      BangParsed(ts[1..], p.node.bang);
      Regroup3(N(ts[0].text), bang, p.rest);
    }
  }

  lemma {:induction false} ParsedValue(ts: seq<Token>)
    requires ParseValue(ts).Ok?
    ensures var p := ParseValue(ts).value; ts == PrintValue(p.node) + p.rest
    decreases |ts|, 0
  {
    hide ParseValues, ParsePairs, PrintValues, PrintPairs;
    if PeekPunct(ts, "$") {
      assert ts == P("$") + (N(ts[1].text) + ts[2..]);
    } else if PeekPunct(ts, "[") {
      ParsedValues(ts[1..]);
    } else if PeekPunct(ts, "{") {
      ParsedPairs(ts[1..], "}");
    }
  }

  lemma {:induction false} ParsedValues(ts: seq<Token>)
    requires ParseValues(ts).Ok?
    ensures var p := ParseValues(ts).value; ts == PrintValues(p.node) + (P("]") + p.rest)
    decreases |ts|, 1
  {
    if !PeekPunct(ts, "]") {
      ParsedValue(ts);
      var first := ParseValue(ts).value;
      ParsedValues(first.rest);
      assert ([first.node] + ParseValues(first.rest).value.node)[1..] == ParseValues(first.rest).value.node;
    }
  }

  lemma {:induction false} ParsedPairs(ts: seq<Token>, close: string)
    requires ParsePairs(ts, close).Ok?
    ensures var p := ParsePairs(ts, close).value; ts == PrintPairs(p.node) + (P(close) + p.rest)
    decreases |ts|, 2
  {
    if !PeekPunct(ts, close) {
      var first := ParsePair(ts).value;
      ParsedValue(ts[1..][1..]);
      ParsedPairs(first.rest, close);
      var more := ParsePairs(first.rest, close).value;
      assert ([first.node] + more.node)[1..] == more.node;
      var value := PrintValue(first.node.value);
      assert ts == N(first.node.name) + (P(":") + (value + first.rest));
      Regroup5(N(first.node.name), P(":"), value, PrintPairs(more.node), P(close) + more.rest);
    }
  }

  lemma ParsedArguments(ts: seq<Token>)
    requires ParseArguments(ts).Ok?
    ensures var p := ParseArguments(ts).value; ts == PrintArguments(p.node) + p.rest
  {
    if PeekPunct(ts, "(") {
      ParsedPairs(ts[1..], ")");
    }
  }

  lemma ParsedDirective(ts: seq<Token>)
    requires PeekPunct(ts, "@") && ParseDirective(ts).Ok?
    ensures var p := ParseDirective(ts).value;
      ts == P("@") + (N(p.node.name) + (PrintArguments(p.node.arguments) + p.rest))
  {
    hide ParseArguments, PrintArguments;
    PeeledPunct(ts, "@");
    PeeledName(ts[1..]);
    ParsedArguments(ts[1..][1..]);
  }

  lemma {:induction false} ParsedDirectives(ts: seq<Token>)
    requires ParseDirectives(ts).Ok?
    ensures var p := ParseDirectives(ts).value; ts == PrintDirectives(p.node) + p.rest
    decreases |ts|
  {
    hide ParseDirective, PrintArguments;
    if PeekPunct(ts, "@") {
      var first := ParseDirective(ts).value;
      ParsedDirective(ts);
      ParsedDirectives(first.rest);
      var more := ParseDirectives(first.rest).value;
      assert ([first.node] + more.node)[1..] == more.node;
      Regroup5(P("@"), N(first.node.name), PrintArguments(first.node.arguments), PrintDirectives(more.node), more.rest);
    }
  }

  lemma ParsedDefault(ts: seq<Token>)
    requires ParseDefault(ts).Ok?
    ensures var p := ParseDefault(ts).value;
      ts == PrintDefault(p.node) + p.rest
  {
    if PeekPunct(ts, "=") {
      ParsedValue(ts[1..]);
    }
  }

  function PrintDefault(default: Option<Value>): (ts: seq<Token>) {
    if default.None? then [] else P("=") + PrintValue(default.value)
  }

  lemma VariableText(v: VariableDefinition, rest: seq<Token>)
    ensures PrintVariables([v]) + rest ==
      P("$") + (N(v.name) + (P(":") + (PrintTypeRef(v.typeRef) + (PrintDefault(v.default) + rest))))
  {
    hide PrintTypeRef, PrintDefault;
    var typeRef, default := PrintTypeRef(v.typeRef), PrintDefault(v.default);
    assert PrintVariables([v]) == P("$") + N(v.name) + P(":") + typeRef + default by {
      DefaultText(v);
    }
    Regroup3(P("$") + N(v.name) + P(":") + typeRef, default, rest);
    Regroup5(P("$"), N(v.name), P(":"), typeRef, default + rest);
  }

  lemma DefaultText(v: VariableDefinition)
    ensures PrintVariables([v]) == P("$") + N(v.name) + P(":") + PrintTypeRef(v.typeRef) + PrintDefault(v.default)
  {
    hide PrintTypeRef, PrintValue;
    assert [v][1..] == [];
  }

  lemma ParsedVariable(ts: seq<Token>)
    requires ParseVariable(ts).Ok?
    ensures var p := ParseVariable(ts).value; ts == PrintVariables([p.node]) + p.rest
  {
    hide ParseTypeRef, PrintTypeRef, ParseValue, PrintValue, ParseDefault, PrintVariables;
    var p := ParseVariable(ts).value;
    PeeledPunct(ts, "$");
    PeeledName(ts[1..]);
    PeeledPunct(ts[1..][1..], ":");
    var afterColon := ts[1..][1..][1..];
    ParsedTypeRef(afterColon);
    ParsedDefault(ParseTypeRef(afterColon).value.rest);
    VariableText(p.node, p.rest);
  }

  lemma VariablesText(first: VariableDefinition, more: seq<VariableDefinition>)
    ensures PrintVariables([first] + more) == PrintVariables([first]) + PrintVariables(more)
  {
    hide PrintTypeRef, PrintValue;
    assert ([first] + more)[1..] == more && [first][1..] == [];
  }

  lemma {:induction false} ParsedVariables(ts: seq<Token>)
    requires ParseVariables(ts).Ok?
    ensures var p := ParseVariables(ts).value; ts == PrintVariables(p.node) + (P(")") + p.rest)
    decreases |ts|
  {
    hide ParseVariable, PrintVariables;
    if PeekPunct(ts, ")") {
      PeeledPunct(ts, ")");
      NoVariables();
    } else {
      var first := ParseVariable(ts).value;
      ParsedVariable(ts);
      ParsedVariables(first.rest);
      var more := ParseVariables(first.rest).value;
      VariablesText(first.node, more.node);
      Regroup3(PrintVariables([first.node]), PrintVariables(more.node), P(")") + more.rest);
    }
  }

  lemma NoVariables()
    ensures PrintVariables([]) == []
  {
  }

  lemma {:induction false} ParsedSelectionSet(ts: seq<Token>)
    requires ParseSelectionSet(ts).Ok?
    ensures var p := ParseSelectionSet(ts).value;
      ts == PrintSelectionSet(p.node) + p.rest && WellFormedSelections(p.node)
    decreases |ts|, 0
  {
    hide ParseSelections, PrintSelections;
    ParsedSelections(ts[1..]);
    var p := ParseSelectionSet(ts).value;
    assert ts == P("{") + ts[1..];
    Regroup3(P("{"), PrintSelections(p.node), P("}") + p.rest);
    Regroup3(P("{") + PrintSelections(p.node), P("}"), p.rest);
  }

  lemma {:induction false} ParsedSelections(ts: seq<Token>)
    requires ParseSelections(ts).Ok?
    ensures var p := ParseSelections(ts).value;
      ts == PrintSelections(p.node) + (P("}") + p.rest) && WellFormedSelections(p.node)
    decreases |ts|, 2
  {
    hide ParseSelection, PrintSelection, WellFormedSelection;
    if !PeekPunct(ts, "}") {
      var first := ParseSelection(ts).value;
      ParsedSelection(ts);
      ParsedSelections(first.rest);
      var more := ParseSelections(first.rest).value;
      assert ([first.node] + more.node)[1..] == more.node;
    }
  }

  lemma {:induction false} ParsedSelection(ts: seq<Token>)
    requires ParseSelection(ts).Ok?
    ensures var p := ParseSelection(ts).value;
      ts == PrintSelection(p.node) + p.rest && WellFormedSelection(p.node)
    decreases |ts|, 1
  {
    hide ParseDirectives, PrintDirectives, ParseSelectionSet, PrintSelectionSet, ParseField;
    if !PeekPunct(ts, "...") {
      ParsedField(ts);
    } else if PeekName(ts[1..], "on") {
      ParsedDirectives(ts[2..][1..]);
      var directives := ParseDirectives(ts[2..][1..]).value;
      ParsedSelectionSet(directives.rest);
      var children := ParseSelectionSet(directives.rest).value;
      var ds, b := PrintDirectives(directives.node), PrintSelectionSet(children.node);
      assert ts == P("...") + (N("on") + (N(ts[2].text) + ts[2..][1..]));
      Regroup3(ds, b, children.rest);
      Regroup5(P("..."), N("on"), N(ts[2].text), ds, b);
      Regroup5(P("..."), N("on"), N(ts[2].text), ds + b, children.rest);
      Regroup3(P("...") + N("on") + N(ts[2].text), ds, b);
    } else {
      ParsedDirectives(ts[1..][1..]);
      var directives := ParseDirectives(ts[1..][1..]).value;
      assert ts == P("...") + (N(ts[1].text) + ts[1..][1..]);
      Regroup3(P("...") + N(ts[1].text), PrintDirectives(directives.node), directives.rest);
    }
  }

  function PrintFieldName(alias: Option<string>, name: string): (ts: seq<Token>) {
    (if alias.None? then [] else N(alias.value) + P(":")) + N(name)
  }

  lemma ParsedFieldName(ts: seq<Token>)
    requires ParseFieldName(ts).Ok?
    ensures var p := ParseFieldName(ts).value; ts == PrintFieldName(p.node.0, p.node.1) + p.rest
  {
  }

  lemma ParsedField(ts: seq<Token>)
    requires ParseField(ts).Ok?
    ensures var p := ParseField(ts).value;
      p.node.Field? && ts == PrintSelection(p.node) + p.rest && WellFormedSelection(p.node)
    decreases |ts|, 0
  {
    hide ParseDirectives, PrintDirectives, ParseSelectionSet, PrintSelectionSet, ParseArguments, PrintArguments,
      ParseFieldName;
    ParsedFieldName(ts);
    var head := ParseFieldName(ts).value;
    ParsedArguments(head.rest);
    var arguments := ParseArguments(head.rest).value;
    ParsedDirectives(arguments.rest);
    var directives := ParseDirectives(arguments.rest).value;
    var p := ParseField(ts).value;
    var braces := if |p.node.children| == 0 then [] else PrintSelectionSet(p.node.children);
    if PeekPunct(directives.rest, "{") {
      ParsedSelectionSet(directives.rest);
    }
    assert directives.rest == braces + p.rest;
    var h := PrintFieldName(head.node.0, head.node.1);
    Regroup5(h, PrintArguments(arguments.node), PrintDirectives(directives.node), braces, p.rest);
  }

  lemma ParsedTitle(ts: seq<Token>)
    ensures var p := ParseTitle(ts); ts == PrintTitle(p.node) + p.rest && p.node != Some("on")
  {
    if ParseTitle(ts).node.Some? { PeeledName(ts); }
  }

  lemma ParsedVariableDefinitions(ts: seq<Token>)
    requires ParseVariableDefinitions(ts).Ok?
    ensures var p := ParseVariableDefinitions(ts).value; ts == PrintVariableDefinitions(p.node) + p.rest
  {
    hide ParseVariables, PrintVariables;
    if PeekPunct(ts, "(") {
      var p := ParseVariableDefinitions(ts).value;
      PeeledPunct(ts, "(");
      ParsedVariables(ts[1..]);
      Regroup3(P("("), PrintVariables(p.node.value), P(")") + p.rest);
      Regroup3(P("(") + PrintVariables(p.node.value), P(")"), p.rest);
    }
  }

  lemma ParsedOperation(ts: seq<Token>)
    requires PeekAnyName(ts) && IsOperationKind(ts[0].text) && ParseOperation(ts).Ok?
    ensures var p := ParseOperation(ts).value; ts == PrintDefinition(p.node) + p.rest && WellFormedDefinition(p.node)
  {
    hide ParseDirectives, PrintDirectives, ParseSelectionSet, PrintSelectionSet, ParseVariableDefinitions,
      PrintVariableDefinitions, ParseTitle, PrintTitle, PrintDefinition, IsOperationKind;
    var title := ParseTitle(ts[1..]);
    ParsedTitle(ts[1..]);
    var variables := ParseVariableDefinitions(title.rest).value;
    ParsedVariableDefinitions(title.rest);
    ParsedDirectives(variables.rest);
    var directives := ParseDirectives(variables.rest).value;
    ParsedSelectionSet(directives.rest);
    var p := ParseOperation(ts).value;
    PeeledName(ts);
    OperationText(p.node, p.rest);
  }

  lemma FragmentText(d: Definition, rest: seq<Token>)
    requires d.Fragment?
    ensures PrintDefinition(d) + rest == N("fragment") + (N(d.name) + (N("on") + (N(d.typeName)
      + (PrintDirectives(d.directives) + (PrintSelectionSet(d.selections) + rest)))))
  {
    hide PrintDirectives, PrintSelectionSet;
    var ds, b := PrintDirectives(d.directives), PrintSelectionSet(d.selections);
    var head := N("fragment") + N(d.name) + N("on") + N(d.typeName);
    assert PrintDefinition(d) == head + ds + b;
    Regroup3(head, ds, b);
    Regroup3(head, ds + b, rest);
    Regroup3(ds, b, rest);
    Regroup5(N("fragment"), N(d.name), N("on"), N(d.typeName), ds + b + rest);
  }

  lemma ParsedFragment(ts: seq<Token>)
    requires ParseFragment(ts).Ok?
    ensures var p := ParseFragment(ts).value; ts == PrintDefinition(p.node) + p.rest && WellFormedDefinition(p.node)
  {
    hide ParseDirectives, PrintDirectives, ParseSelectionSet, PrintSelectionSet;
    var afterType := ts[1..][1..][1..][1..];
    ParsedDirectives(afterType);
    var directives := ParseDirectives(afterType).value;
    ParsedSelectionSet(directives.rest);
    var p := ParseFragment(ts).value;
    assert ts == N("fragment") + (N(p.node.name) + (N("on") + (N(p.node.typeName) + afterType)));
    FragmentText(p.node, p.rest);
  }

  lemma ParsedDefinition(ts: seq<Token>)
    requires ParseDefinition(ts).Ok?
    ensures var p := ParseDefinition(ts).value; ts == PrintDefinition(p.node) + p.rest && WellFormedDefinition(p.node)
  {
    hide ParseFragment, ParseOperation, ParseSelectionSet, PrintDirectives, PrintSelectionSet;
    if PeekName(ts, "fragment") {
      ParsedFragment(ts);
    } else if |ts| > 0 && ts[0].Name? && IsOperationKind(ts[0].text) {
      ParsedOperation(ts);
    } else {
      ParsedSelectionSet(ts);
    }
  }

  lemma {:induction false} ParsedDocument(ts: seq<Token>)
    requires ParseDocument(ts).Ok?
    ensures var document := ParseDocument(ts).value; ts == PrintDocument(document) && WellFormed(document)
    decreases |ts|
  {
    hide ParseDefinition, PrintDefinition, WellFormedDefinition;
    if |ts| != 0 {
      ParsedDefinition(ts);
      var first := ParseDefinition(ts).value;
      ParsedDocument(first.rest);
      var more := ParseDocument(first.rest).value;
      assert ([first.node] + more)[1..] == more;
    }
  }

  // The parser accepts exactly the printed well-formed trees, each as itself.
  lemma ParseInvertsPrint(ts: seq<Token>, document: Document)
    ensures ParseDocument(ts) == Ok(document) <==> WellFormed(document) && ts == PrintDocument(document)
  {
    if ParseDocument(ts) == Ok(document) {
      ParsedDocument(ts);
    }
    if WellFormed(document) && ts == PrintDocument(document) {
      PrintedDocumentParses(document);
    }
  }
}
