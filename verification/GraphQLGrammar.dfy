// The recursive-descent parser of graphql.go as functions from the tokens still
// to be read to a tree and the tokens left over, with the same branches and the
// same errors; and the theorem that it inverts Print in both directions.
module GraphQLGrammar {
  import opened Wrappers
  import opened GraphQLTokens
  import opened GraphQLSyntax

  datatype Parsed<+T> = Parsed(node: T, rest: seq<Token>)

  type Outcome<+T> = Result<Parsed<T>, SyntaxError>

  predicate PeekPunct(ts: seq<Token>, text: string) { |ts| > 0 && ts[0] == Punct(text) }

  predicate PeekName(ts: seq<Token>, text: string) { |ts| > 0 && ts[0] == Name(text) }

  predicate PeekAnyName(ts: seq<Token>) { |ts| > 0 && ts[0].Name? }

  function ExpectName(ts: seq<Token>): (r: Outcome<string>)
    ensures r.Ok? ==> |r.value.rest| < |ts|
  {
    if PeekAnyName(ts) then Ok(Parsed(ts[0].text, ts[1..])) else Err(ExpectedName)
  }

  function ExpectNameValue(ts: seq<Token>, text: string): (r: Outcome<()>)
    ensures r.Ok? ==> |r.value.rest| < |ts|
  {
    if PeekName(ts, text) then Ok(Parsed((), ts[1..])) else Err(ExpectedNameValue(text))
  }

  function ExpectPunct(ts: seq<Token>, text: string): (r: Outcome<()>)
    ensures r.Ok? ==> |r.value.rest| < |ts|
  {
    if PeekPunct(ts, text) then Ok(Parsed((), ts[1..])) else Err(ExpectedToken(text))
  }

  function ParseTypeRef(ts: seq<Token>): (r: Outcome<TypeRef>)
    ensures r.Ok? ==> |r.value.rest| < |ts|
    decreases |ts|
  {
    if PeekPunct(ts, "[") then
      var inner :- ParseTypeRef(ts[1..]);
      var close :- ExpectPunct(inner.rest, "]");
      var bang := PeekPunct(close.rest, "!");
      Ok(Parsed(ListOf(inner.node, bang), if bang then close.rest[1..] else close.rest))
    else
      var name :- ExpectName(ts);
      var bang := PeekPunct(name.rest, "!");
      Ok(Parsed(Named(name.node, bang), if bang then name.rest[1..] else name.rest))
  }

  function ParseValue(ts: seq<Token>): (r: Outcome<Value>)
    ensures r.Ok? ==> |r.value.rest| < |ts|
    decreases |ts|, 0
  {
    if PeekPunct(ts, "$") then
      var name :- ExpectName(ts[1..]);
      Ok(Parsed(Variable(name.node), name.rest))
    else if PeekPunct(ts, "[") then
      var items :- ParseValues(ts[1..]);
      Ok(Parsed(ListValue(items.node), items.rest))
    else if PeekPunct(ts, "{") then
      var fields :- ParsePairs(ts[1..], "}");
      Ok(Parsed(ObjectValue(fields.node), fields.rest))
    else if |ts| > 0 && ts[0].Str? then Ok(Parsed(StringValue(ts[0].text), ts[1..]))
    else if |ts| > 0 && ts[0].Number? then Ok(Parsed(NumberValue(ts[0].text), ts[1..]))
    else if |ts| > 0 && ts[0].Name? then Ok(Parsed(NameValue(ts[0].text), ts[1..]))
    else Err(ExpectedValue)
  }

  // The values up to and including the closing bracket.
  function ParseValues(ts: seq<Token>): (r: Outcome<seq<Value>>)
    ensures r.Ok? ==> |r.value.rest| < |ts|
    decreases |ts|, 1
  {
    if PeekPunct(ts, "]") then Ok(Parsed([], ts[1..]))
    else
      var first :- ParseValue(ts);
      var more :- ParseValues(first.rest);
      Ok(Parsed([first.node] + more.node, more.rest))
  }

  // One "name: value" of an object or an argument list.
  function ParsePair(ts: seq<Token>): (r: Outcome<NamedValue>)
    ensures r.Ok? ==> |r.value.rest| < |ts|
    decreases |ts|, 1
  {
    var name :- ExpectName(ts);
    var colon :- ExpectPunct(name.rest, ":");
    var value :- ParseValue(colon.rest);
    Ok(Parsed(NamedValue(name.node, value.node), value.rest))
  }

  function ParsePairs(ts: seq<Token>, close: string): (r: Outcome<seq<NamedValue>>)
    ensures r.Ok? ==> |r.value.rest| < |ts|
    decreases |ts|, 2
  {
    if PeekPunct(ts, close) then Ok(Parsed([], ts[1..]))
    else
      var first :- ParsePair(ts);
      var more :- ParsePairs(first.rest, close);
      Ok(Parsed([first.node] + more.node, more.rest))
  }

  function ParseArguments(ts: seq<Token>): (r: Outcome<Arguments>)
    ensures r.Ok? ==> |r.value.rest| <= |ts|
  {
    if !PeekPunct(ts, "(") then Ok(Parsed(None, ts))
    else
      var pairs :- ParsePairs(ts[1..], ")");
      Ok(Parsed(Some(pairs.node), pairs.rest))
  }

  function ParseDirective(ts: seq<Token>): (r: Outcome<Directive>)
    requires PeekPunct(ts, "@")
    ensures r.Ok? ==> |r.value.rest| < |ts|
  {
    var name :- ExpectName(ts[1..]);
    var arguments :- ParseArguments(name.rest);
    Ok(Parsed(Directive(name.node, arguments.node), arguments.rest))
  }

  function ParseDirectives(ts: seq<Token>): (r: Outcome<seq<Directive>>)
    ensures r.Ok? ==> |r.value.rest| <= |ts|
    decreases |ts|
  {
    if !PeekPunct(ts, "@") then Ok(Parsed([], ts))
    else
      var first :- ParseDirective(ts);
      var more :- ParseDirectives(first.rest);
      Ok(Parsed([first.node] + more.node, more.rest))
  }

  function ParseDefault(ts: seq<Token>): (r: Outcome<Option<Value>>)
    ensures r.Ok? ==> |r.value.rest| <= |ts|
  {
    if !PeekPunct(ts, "=") then Ok(Parsed(None, ts))
    else
      var value :- ParseValue(ts[1..]);
      Ok(Parsed(Some(value.node), value.rest))
  }

  function ParseVariable(ts: seq<Token>): (r: Outcome<VariableDefinition>)
    ensures r.Ok? ==> |r.value.rest| < |ts|
  {
    var dollar :- ExpectPunct(ts, "$");
    var name :- ExpectName(dollar.rest);
    var colon :- ExpectPunct(name.rest, ":");
    var typeRef :- ParseTypeRef(colon.rest);
    var default :- ParseDefault(typeRef.rest);
    Ok(Parsed(VariableDefinition(name.node, typeRef.node, default.node), default.rest))
  }

  function ParseVariables(ts: seq<Token>): (r: Outcome<seq<VariableDefinition>>)
    ensures r.Ok? ==> |r.value.rest| < |ts|
    decreases |ts|
  {
    if PeekPunct(ts, ")") then Ok(Parsed([], ts[1..]))
    else
      var first :- ParseVariable(ts);
      var more :- ParseVariables(first.rest);
      Ok(Parsed([first.node] + more.node, more.rest))
  }

  function ParseSelectionSet(ts: seq<Token>): (r: Outcome<seq<Selection>>)
    ensures r.Ok? ==> |r.value.rest| < |ts| && |r.value.node| > 0
    decreases |ts|, 0
  {
    var open :- ExpectPunct(ts, "{");
    var selections :- ParseSelections(open.rest);
    if |selections.node| == 0 then Err(EmptySelectionSet) else Ok(selections)
  }

  function ParseSelections(ts: seq<Token>): (r: Outcome<seq<Selection>>)
    ensures r.Ok? ==> |r.value.rest| < |ts|
    decreases |ts|, 2
  {
    if PeekPunct(ts, "}") then Ok(Parsed([], ts[1..]))
    else
      var first :- ParseSelection(ts);
      var more :- ParseSelections(first.rest);
      Ok(Parsed([first.node] + more.node, more.rest))
  }

  function ParseSelection(ts: seq<Token>): (r: Outcome<Selection>)
    ensures r.Ok? ==> |r.value.rest| < |ts|
    decreases |ts|, 1
  {
    if PeekPunct(ts, "...") then
      if PeekName(ts[1..], "on") then
        var typeName :- ExpectName(ts[2..]);
        var directives :- ParseDirectives(typeName.rest);
        var children :- ParseSelectionSet(directives.rest);
        Ok(Parsed(Inline(typeName.node, directives.node, children.node), children.rest))
      else
        var name :- ExpectName(ts[1..]);
        var directives :- ParseDirectives(name.rest);
        Ok(Parsed(Spread(name.node, directives.node), directives.rest))
    else ParseField(ts)
  }

  function ParseField(ts: seq<Token>): (r: Outcome<Selection>)
    ensures r.Ok? ==> |r.value.rest| < |ts|
    decreases |ts|, 0
  {
    var head :- ParseFieldName(ts);
    var (alias, name) := head.node;
    var arguments :- ParseArguments(head.rest);
    var directives :- ParseDirectives(arguments.rest);
    var children :- if PeekPunct(directives.rest, "{") then ParseSelectionSet(directives.rest)
                    else Ok(Parsed([], directives.rest));
    Ok(Parsed(Field(alias, name, arguments.node, directives.node, children.node), children.rest))
  }

  // "name" or "alias: name".
  function ParseFieldName(ts: seq<Token>): (r: Outcome<(Option<string>, string)>)
    ensures r.Ok? ==> |r.value.rest| < |ts|
  {
    var first :- ExpectName(ts);
    if PeekPunct(first.rest, ":") then
      var second :- ExpectName(first.rest[1..]);
      Ok(Parsed((Some(first.node), second.node), second.rest))
    else Ok(Parsed((None, first.node), first.rest))
  }

  function ParseDefinition(ts: seq<Token>): (r: Outcome<Definition>)
    ensures r.Ok? ==> |r.value.rest| < |ts|
  {
    if PeekName(ts, "fragment") then ParseFragment(ts)
    else if |ts| > 0 && ts[0].Name? && IsOperationKind(ts[0].text) then ParseOperation(ts)
    else if PeekPunct(ts, "{") then
      var selections :- ParseSelectionSet(ts);
      Ok(Parsed(Shorthand(selections.node), selections.rest))
    else Err(ExpectedDefinition)
  }

  function ParseFragment(ts: seq<Token>): (r: Outcome<Definition>)
    ensures r.Ok? ==> |r.value.rest| < |ts|
  {
    var keyword :- ExpectNameValue(ts, "fragment");
    var name :- ExpectName(keyword.rest);
    var on :- ExpectNameValue(name.rest, "on");
    var typeName :- ExpectName(on.rest);
    var directives :- ParseDirectives(typeName.rest);
    var selections :- ParseSelectionSet(directives.rest);
    Ok(Parsed(Fragment(name.node, typeName.node, directives.node, selections.node), selections.rest))
  }

  // An operation's name is optional, and "on" is never taken for one.
  function ParseTitle(ts: seq<Token>): (r: Parsed<Option<string>>)
    ensures |r.rest| <= |ts|
  {
    if PeekAnyName(ts) && !PeekName(ts, "on") then Parsed(Some(ts[0].text), ts[1..]) else Parsed(None, ts)
  }

  function ParseVariableDefinitions(ts: seq<Token>): (r: Outcome<Option<seq<VariableDefinition>>>)
    ensures r.Ok? ==> |r.value.rest| <= |ts|
  {
    if !PeekPunct(ts, "(") then Ok(Parsed(None, ts))
    else
      var variables :- ParseVariables(ts[1..]);
      Ok(Parsed(Some(variables.node), variables.rest))
  }

  function ParseOperation(ts: seq<Token>): (r: Outcome<Definition>)
    requires PeekAnyName(ts)
    ensures r.Ok? ==> |r.value.rest| < |ts|
  {
    var title := ParseTitle(ts[1..]);
    var variables :- ParseVariableDefinitions(title.rest);
    var directives :- ParseDirectives(variables.rest);
    var selections :- ParseSelectionSet(directives.rest);
    Ok(Parsed(Operation(ts[0].text, title.node, variables.node, directives.node, selections.node), selections.rest))
  }

  function ParseDocument(ts: seq<Token>): (r: Result<Document, SyntaxError>)
    decreases |ts|
  {
    if |ts| == 0 then Ok([])
    else
      var first :- ParseDefinition(ts);
      var more :- ParseDocument(first.rest);
      Ok([first.node] + more)
  }
}
