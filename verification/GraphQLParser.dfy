// graphQLParser: a cursor over tokens whose parse methods write canonical text
// as they go. Every method is proved to do what the grammar functions do, to
// return the canonical text of the tree they build, and to advance the cursor.
module GraphQLParser {
  import opened Wrappers
  import opened Strings
  import opened GraphQLTokens
  import opened GraphQLSyntax
  import opened GraphQLCanon
  import G = GraphQLGrammar

  type Canonical = Result<string, SyntaxError>

  // r is the canonical text of what the grammar reads, or the grammar's error,
  // and rest is what the grammar leaves unread.
  ghost predicate Agrees<T>(r: Canonical, spec: G.Outcome<T>, canon: T -> string, rest: seq<Token>) {
    match spec
    case Ok(p) => r == Ok(canon(p.node)) && rest == p.rest
    case Err(e) => r == Err(e)
  }

  // Nodes already read, followed by what a list production still reads.
  ghost function Prepend<T>(done: seq<T>, more: G.Outcome<seq<T>>): (r: G.Outcome<seq<T>>) {
    match more
    case Ok(p) => Ok(G.Parsed(done + p.node, p.rest))
    case Err(e) => Err(e)
  }

  lemma PrependNone<T>(more: G.Outcome<seq<T>>)
    ensures Prepend([], more) == more
  {
    if more.Ok? { assert [] + more.value.node == more.value.node; }
  }

  lemma PrependOne<T>(done: seq<T>, node: T, more: G.Outcome<seq<T>>)
    ensures Prepend(done, Prepend([node], more)) == Prepend(done + [node], more)
  {
    if more.Ok? { assert done + ([node] + more.value.node) == done + [node] + more.value.node; }
  }

  lemma TwoText(a: string, b: string)
    ensures Join([a, b], ':') == a + ":" + b
  {
    assert [a, b][1..] == [b];
  }

  lemma ThreeText(a: string, b: string, c: string)
    ensures Join([a, b, c], ':') == a + ":" + b + ":" + c
  {
    assert [a, b, c][1..] == [b, c];
    TwoText(b, c);
  }

  lemma FiveText(a: string, b: string, c: string, d: string, e: string)
    ensures Join([a, b, c, d, e], ':') == a + ":" + b + ":" + c + ":" + d + ":" + e
  {
    assert [a, b, c, d, e][1..] == [b, c, d, e] && [b, c, d, e][1..] == [c, d, e];
    ThreeText(c, d, e);
    assert Join([b, c, d, e], ':') == b + ":" + Join([c, d, e], ':');
  }

  lemma SixText(a: string, b: string, c: string, d: string, e: string, f: string)
    ensures Join([a, b, c, d, e, f], ':') == a + ":" + b + ":" + c + ":" + d + ":" + e + ":" + f
  {
    assert [a, b, c, d, e, f][1..] == [b, c, d, e, f];
    FiveText(b, c, d, e, f);
  }

  lemma FragmentText(name: string, typeName: string, directives: string, selections: string)
    ensures Join(["fragment", name, "on", typeName, directives, selections], ':')
         == "fragment:" + name + ":on:" + typeName + ":" + directives + ":" + selections
  {
    hide Join;
    SixText("fragment", name, "on", typeName, directives, selections);
    assert "fragment:" == "fragment" + ":";
    assert "fragment:" + name + ":on:" == "fragment" + ":" + name + ":" + "on" + ":";
  }

  class Parser {
    const tokens: seq<Token>
    var pos: nat

    constructor (tokens: seq<Token>)
      ensures this.tokens == tokens && pos == 0 && Valid()
    {
      this.tokens := tokens;
      pos := 0;
    }

    ghost predicate Valid()
      reads this
    {
      pos <= |tokens|
    }

    ghost function Rest(): (ts: seq<Token>)
      requires Valid()
      reads this
    {
      tokens[pos..]
    }

    predicate Eof()
      reads this
    {
      pos >= |tokens|
    }

    predicate PeekPunct(text: string)
      requires Valid()
      reads this
      ensures PeekPunct(text) == G.PeekPunct(Rest(), text)
    {
      !Eof() && tokens[pos] == Punct(text)
    }

    predicate PeekName(text: string)
      requires Valid()
      reads this
      ensures PeekName(text) == G.PeekName(Rest(), text)
    {
      !Eof() && tokens[pos] == Name(text)
    }

    predicate PeekAnyName()
      requires Valid()
      reads this
      ensures PeekAnyName() == G.PeekAnyName(Rest())
    {
      !Eof() && tokens[pos].Name?
    }

    // p.pos++
    method Advance()
      requires Valid() && !Eof()
      modifies `pos
      ensures Valid() && pos == old(pos) + 1 && Rest() == old(Rest())[1..]
    {
      pos := pos + 1;
    }

    method ExpectName() returns (r: Canonical)
      requires Valid()
      modifies `pos
      ensures Valid() && Agrees(r, G.ExpectName(old(Rest())), (s: string) => s, Rest())
      ensures r.Ok? ==> pos == old(pos) + 1
    {
      if !PeekAnyName() {
        return Err(ExpectedName);
      }
      r := Ok(tokens[pos].text);
      Advance();
    }

    method ExpectNameValue(text: string) returns (r: Canonical)
      requires Valid()
      modifies `pos
      ensures Valid() && Agrees(r, G.ExpectNameValue(old(Rest()), text), (u: ()) => "", Rest())
      ensures r.Ok? ==> pos == old(pos) + 1
    {
      if !PeekName(text) {
        return Err(ExpectedNameValue(text));
      }
      Advance();
      return Ok("");
    }

    method ExpectPunct(text: string) returns (r: Canonical)
      requires Valid()
      modifies `pos
      ensures Valid() && Agrees(r, G.ExpectPunct(old(Rest()), text), (u: ()) => "", Rest())
      ensures r.Ok? ==> pos == old(pos) + 1
    {
      if !PeekPunct(text) {
        return Err(ExpectedToken(text));
      }
      Advance();
      return Ok("");
    }

    method ParseTypeRef() returns (r: Canonical)
      requires Valid()
      modifies `pos
      ensures Valid() && Agrees(r, G.ParseTypeRef(old(Rest())), CanonTypeRef, Rest())
      ensures r.Ok? ==> old(pos) < pos
      decreases |tokens| - pos
    {
      var base;
      if PeekPunct("[") {
        Advance();
        var inner :- ParseTypeRef();
        var _ :- ExpectPunct("]");
        base := "[" + inner + "]";
      } else {
        var name :- ExpectName();
        base := name;
      }
      if PeekPunct("!") {
        Advance();
        base := base + "!";
      } else {
        assert base + "" == base;
      }
      return Ok(base);
    }

    method ParseValue() returns (r: Canonical)
      requires Valid()
      modifies `pos
      ensures Valid() && Agrees(r, G.ParseValue(old(Rest())), CanonValue, Rest())
      ensures r.Ok? ==> old(pos) < pos
      decreases |tokens| - pos, 0
    {
      hide Join, Sort, Quote;
      if PeekPunct("$") {
        Advance();
        var name :- ExpectName();
        return Ok("$" + name);
      }
      if PeekPunct("[") {
        Advance();
        var values :- ParseValues();
        assert "list[" == "list" + ['['];
        return Ok("list[" + Join(values, ',') + "]");
      }
      if PeekPunct("{") {
        Advance();
        var fields :- ParsePairs("}");
        assert "obj{" == "obj" + ['{'];
        return Ok("obj{" + Join(Sort(fields), ',') + "}");
      }
      if !Eof() && tokens[pos].Str? {
        r := Ok("str:" + Quote(tokens[pos].text));
        Advance();
        return;
      }
      if !Eof() && tokens[pos].Number? {
        r := Ok("num:" + tokens[pos].text);
        Advance();
        return;
      }
      if !Eof() && tokens[pos].Name? {
        r := Ok("name:" + tokens[pos].text);
        Advance();
        return;
      }
      return Err(ExpectedValue);
    }

    // The loop over the items of a list, up to and including its "]".
    method ParseValues() returns (r: Result<seq<string>, SyntaxError>)
      requires Valid()
      modifies `pos
      ensures Valid()
      ensures match G.ParseValues(old(Rest()))
              case Ok(p) => r == Ok(CanonValues(p.node)) && Rest() == p.rest
              case Err(e) => r == Err(e)
      ensures r.Ok? ==> old(pos) < pos
      decreases |tokens| - pos, 1
    {
      hide G.ParseValue, CanonValue;
      ghost var start := Rest();
      var values: seq<string> := [];
      ghost var nodes: seq<Value> := [];
      PrependNone(G.ParseValues(start));
      while !PeekPunct("]")
        invariant Valid() && old(pos) <= pos
        invariant G.ParseValues(start) == Prepend(nodes, G.ParseValues(Rest()))
        invariant values == CanonValues(nodes)
        decreases |tokens| - pos
      {
        ghost var here := Rest();
        var value :- ParseValue();
        PrependOne(nodes, G.ParseValue(here).value.node, G.ParseValues(Rest()));
        nodes := nodes + [G.ParseValue(here).value.node];
        values := values + [value];
      }
      var end := ExpectPunct("]");
      assert end.Ok?;
      assert nodes + [] == nodes;
      return Ok(values);
    }

    method ParsePair() returns (r: Canonical)
      requires Valid()
      modifies `pos
      ensures Valid() && Agrees(r, G.ParsePair(old(Rest())), CanonPair, Rest())
      ensures r.Ok? ==> old(pos) < pos
      decreases |tokens| - pos, 1
    {
      hide G.ParseValue, CanonValue;
      var name :- ExpectName();
      var _ :- ExpectPunct(":");
      var value :- ParseValue();
      TwoText(name, value);
      return Ok(name + ":" + value);
    }

    // The loop over object fields or arguments, up to and including the closing token.
    method ParsePairs(close: string) returns (r: Result<seq<string>, SyntaxError>)
      requires Valid()
      modifies `pos
      ensures Valid()
      ensures match G.ParsePairs(old(Rest()), close)
              case Ok(p) => r == Ok(CanonPairs(p.node)) && Rest() == p.rest
              case Err(e) => r == Err(e)
      ensures r.Ok? ==> old(pos) < pos
      decreases |tokens| - pos, 2
    {
      hide G.ParsePair, CanonPair;
      ghost var start := Rest();
      var pairs: seq<string> := [];
      ghost var nodes: seq<NamedValue> := [];
      PrependNone(G.ParsePairs(start, close));
      while !PeekPunct(close)
        invariant Valid() && old(pos) <= pos
        invariant G.ParsePairs(start, close) == Prepend(nodes, G.ParsePairs(Rest(), close))
        invariant pairs == CanonPairs(nodes)
        decreases |tokens| - pos
      {
        ghost var here := Rest();
        var pair :- ParsePair();
        PrependOne(nodes, G.ParsePair(here).value.node, G.ParsePairs(Rest(), close));
        nodes := nodes + [G.ParsePair(here).value.node];
        pairs := pairs + [pair];
      }
      var end := ExpectPunct(close);
      assert end.Ok?;
      assert nodes + [] == nodes;
      return Ok(pairs);
    }

    method ParseArguments() returns (r: Canonical)
      requires Valid()
      modifies `pos
      ensures Valid() && Agrees(r, G.ParseArguments(old(Rest())), CanonArguments, Rest())
      ensures r.Ok? ==> old(pos) <= pos
    {
      hide Join, G.ParsePairs;
      if !PeekPunct("(") {
        assert Join([], ',') == "" by { EmptyJoin(); }
        assert Sort(CanonPairs([])) == [];
        assert "args[]" == "args" + ['['] + "" + [']'];
        return Ok("args[]");
      }
      Advance();
      var pairs :- ParsePairs(")");
      assert "args[" == "args" + ['['];
      return Ok("args[" + Join(Sort(pairs), ',') + "]");
    }

    method ParseDirective() returns (r: Canonical)
      requires Valid() && PeekPunct("@")
      modifies `pos
      ensures Valid() && Agrees(r, G.ParseDirective(old(Rest())), CanonDirective, Rest())
      ensures r.Ok? ==> old(pos) < pos
    {
      hide G.ParseArguments, CanonArguments;
      Advance();
      var name :- ExpectName();
      var arguments :- ParseArguments();
      TwoText(name, arguments);
      return Ok(name + ":" + arguments);
    }

    method ParseDirectives() returns (r: Canonical)
      requires Valid()
      modifies `pos
      ensures Valid() && Agrees(r, G.ParseDirectives(old(Rest())), CanonDirectives, Rest())
      ensures r.Ok? ==> old(pos) <= pos
    {
      hide G.ParseDirective, CanonDirective, Join, Sort;
      ghost var start := Rest();
      var directives: seq<string> := [];
      ghost var nodes: seq<Directive> := [];
      PrependNone(G.ParseDirectives(start));
      while PeekPunct("@")
        invariant Valid() && old(pos) <= pos
        invariant G.ParseDirectives(start) == Prepend(nodes, G.ParseDirectives(Rest()))
        invariant directives == CanonDirectiveTexts(nodes)
        decreases |tokens| - pos
      {
        ghost var here := Rest();
        var directive :- ParseDirective();
        PrependOne(nodes, G.ParseDirective(here).value.node, G.ParseDirectives(Rest()));
        nodes := nodes + [G.ParseDirective(here).value.node];
        directives := directives + [directive];
      }
      assert nodes + [] == nodes;
      assert "dirs[" == "dirs" + ['['];
      return Ok("dirs[" + Join(Sort(directives), ',') + "]");
    }

    method ParseDefault() returns (r: Canonical)
      requires Valid()
      modifies `pos
      ensures Valid() && Agrees(r, G.ParseDefault(old(Rest())), CanonDefault, Rest())
      ensures r.Ok? ==> old(pos) <= pos
    {
      hide G.ParseValue, CanonValue;
      if !PeekPunct("=") {
        return Ok("");
      }
      Advance();
      var value :- ParseValue();
      return Ok("=" + value);
    }

    method ParseVariable() returns (r: Canonical)
      requires Valid()
      modifies `pos
      ensures Valid() && Agrees(r, G.ParseVariable(old(Rest())), CanonVariable, Rest())
      ensures r.Ok? ==> old(pos) < pos
    {
      hide G.ParseTypeRef, G.ParseDefault, CanonTypeRef, CanonDefault;
      var _ :- ExpectPunct("$");
      var name :- ExpectName();
      var _ :- ExpectPunct(":");
      var typeName :- ParseTypeRef();
      var defaultValue :- ParseDefault();
      TwoText(name, typeName + defaultValue);
      assert name + ":" + typeName + defaultValue == name + ":" + (typeName + defaultValue);
      return Ok(name + ":" + typeName + defaultValue);
    }

    method ParseVariableDefinitions() returns (r: Canonical)
      requires Valid()
      modifies `pos
      ensures Valid() && Agrees(r, G.ParseVariableDefinitions(old(Rest())), CanonVariables, Rest())
      ensures r.Ok? ==> old(pos) <= pos
    {
      hide G.ParseVariable, CanonVariable, Join;
      if !PeekPunct("(") {
        assert Join([], ',') == "" by { EmptyJoin(); }
        assert Sort(CanonVariableTexts([])) == [];
        assert "[]" == "" + ['['] + "" + [']'];
        return Ok("[]");
      }
      Advance();
      ghost var start := Rest();
      var definitions: seq<string> := [];
      ghost var nodes: seq<VariableDefinition> := [];
      PrependNone(G.ParseVariables(start));
      while !PeekPunct(")")
        invariant Valid() && old(pos) < pos
        invariant G.ParseVariables(start) == Prepend(nodes, G.ParseVariables(Rest()))
        invariant definitions == CanonVariableTexts(nodes)
        decreases |tokens| - pos
      {
        ghost var here := Rest();
        var definition :- ParseVariable();
        PrependOne(nodes, G.ParseVariable(here).value.node, G.ParseVariables(Rest()));
        nodes := nodes + [G.ParseVariable(here).value.node];
        definitions := definitions + [definition];
      }
      var end := ExpectPunct(")");
      assert end.Ok?;
      assert nodes + [] == nodes;
      assert "[" == "" + ['['];
      return Ok("[" + Join(Sort(definitions), ',') + "]");
    }

    method ParseSelectionSet() returns (r: Canonical)
      requires Valid()
      modifies `pos
      ensures Valid() && Agrees(r, G.ParseSelectionSet(old(Rest())), CanonSelectionSet, Rest())
      ensures r.Ok? ==> old(pos) < pos
      decreases |tokens| - pos, 0
    {
      hide G.ParseSelection, CanonSelection, Join, Sort;
      var _ :- ExpectPunct("{");
      ghost var start := Rest();
      var selections: seq<string> := [];
      ghost var nodes: seq<Selection> := [];
      PrependNone(G.ParseSelections(start));
      while !PeekPunct("}")
        invariant Valid() && old(pos) < pos
        invariant G.ParseSelections(start) == Prepend(nodes, G.ParseSelections(Rest()))
        invariant selections == CanonSelections(nodes)
        decreases |tokens| - pos
      {
        ghost var here := Rest();
        var selection :- ParseSelection();
        PrependOne(nodes, G.ParseSelection(here).value.node, G.ParseSelections(Rest()));
        nodes := nodes + [G.ParseSelection(here).value.node];
        selections := selections + [selection];
      }
      var end := ExpectPunct("}");
      assert end.Ok?;
      assert nodes + [] == nodes;
      if |selections| == 0 {
        return Err(EmptySelectionSet);
      }
      assert "sel[" == "sel" + ['['];
      return Ok("sel[" + Join(Sort(selections), ',') + "]");
    }

    method ParseSelection() returns (r: Canonical)
      requires Valid()
      modifies `pos
      ensures Valid() && Agrees(r, G.ParseSelection(old(Rest())), CanonSelection, Rest())
      ensures r.Ok? ==> old(pos) < pos
      decreases |tokens| - pos, 2
    {
      hide G.ParseDirectives, G.ParseSelectionSet, G.ParseField, CanonDirectives, CanonSelectionSet, CanonArguments,
        Join;
      if PeekPunct("...") {
        Advance();
        if PeekName("on") {
          Advance();
          var typeName :- ExpectName();
          var directives :- ParseDirectives();
          var selections :- ParseSelectionSet();
          FiveText("inline", "on", typeName, directives, selections);
          assert "inline:on:" == "inline" + ":" + "on" + ":";
          return Ok("inline:on:" + typeName + ":" + directives + ":" + selections);
        }
        var name :- ExpectName();
        var directives :- ParseDirectives();
        ThreeText("spread", name, directives);
        assert "spread:" == "spread" + ":";
        return Ok("spread:" + name + ":" + directives);
      }
      r := ParseField();
    }

    method ParseField() returns (r: Canonical)
      requires Valid()
      modifies `pos
      ensures Valid() && Agrees(r, G.ParseField(old(Rest())), CanonSelection, Rest())
      ensures r.Ok? ==> old(pos) < pos
      decreases |tokens| - pos, 1
    {
      hide G.ParseDirectives, G.ParseSelectionSet, G.ParseArguments, CanonDirectives, CanonSelectionSet,
        CanonArguments, Join;
      hide G.PeekPunct, G.ExpectName;
      var first :- ExpectName();
      var alias := "";
      var name := first;
      if PeekPunct(":") {
        Advance();
        alias := first;
        name :- ExpectName();
      }
      var arguments :- ParseArguments();
      var directives :- ParseDirectives();
      var selections := "";
      if PeekPunct("{") {
        selections :- ParseSelectionSet();
      }
      SixText("field", alias, name, arguments, directives, selections);
      assert "field:" == "field" + ":";
      return Ok("field:" + alias + ":" + name + ":" + arguments + ":" + directives + ":" + selections);
    }

    method ParseDefinition() returns (r: Canonical)
      requires Valid()
      modifies `pos
      ensures Valid() && Agrees(r, G.ParseDefinition(old(Rest())), CanonDefinition, Rest())
      ensures r.Ok? ==> old(pos) < pos
    {
      hide G.ParseFragment, G.ParseOperation, G.ParseSelectionSet, CanonVariables, CanonDirectives,
        CanonSelectionSet, Join;
      if PeekName("fragment") {
        r := ParseFragmentDefinition();
      } else if PeekName("query") || PeekName("mutation") || PeekName("subscription") {
        r := ParseOperationDefinition();
      } else if PeekPunct("{") {
        var selections :- ParseSelectionSet();
        SixText("op", "query", "", "", "[]", selections);
        assert "op:query:::[]:" == "op" + ":" + "query" + ":" + "" + ":" + "" + ":" + "[]" + ":";
        return Ok("op:query:::[]:" + selections);
      } else {
        return Err(ExpectedDefinition);
      }
    }

    method ParseFragmentDefinition() returns (r: Canonical)
      requires Valid()
      modifies `pos
      ensures Valid() && Agrees(r, G.ParseFragment(old(Rest())), CanonDefinition, Rest())
      ensures r.Ok? ==> old(pos) < pos
    {
      hide G.ParseDirectives, G.ParseSelectionSet, CanonVariables, CanonDirectives, CanonSelectionSet, Join;
      var _ :- ExpectNameValue("fragment");
      var name :- ExpectName();
      var _ :- ExpectNameValue("on");
      var typeName :- ExpectName();
      var directives :- ParseDirectives();
      var selections :- ParseSelectionSet();
      FragmentText(name, typeName, directives, selections);
      return Ok("fragment:" + name + ":on:" + typeName + ":" + directives + ":" + selections);
    }

    method ParseOperationDefinition() returns (r: Canonical)
      requires Valid() && PeekAnyName()
      modifies `pos
      ensures Valid() && Agrees(r, G.ParseOperation(old(Rest())), CanonDefinition, Rest())
      ensures r.Ok? ==> old(pos) < pos
    {
      hide G.ParseDirectives, G.ParseSelectionSet, G.ParseVariableDefinitions, CanonVariables, CanonDirectives,
        CanonSelectionSet, Join;
      var operation := tokens[pos].text;
      Advance();
      var name := "";
      if PeekAnyName() && !PeekName("on") {
        name := tokens[pos].text;
        Advance();
      }
      var variables :- ParseVariableDefinitions();
      var directives :- ParseDirectives();
      var selections :- ParseSelectionSet();
      SixText("op", operation, name, variables, directives, selections);
      assert "op:" == "op" + ":";
      return Ok("op:" + operation + ":" + name + ":" + variables + ":" + directives + ":" + selections);
    }

    method ParseDocument() returns (r: Canonical)
      requires Valid() && pos == 0
      modifies `pos
      ensures Valid()
      ensures match G.ParseDocument(tokens)
              case Ok(document) => r == Ok(CanonDocument(document)) && pos == |tokens|
              case Err(e) => r == Err(e)
    {
      hide G.ParseDefinition, CanonDefinition, Join, Sort;
      var definitions: seq<string> := [];
      ghost var nodes: Document := [];
      assert tokens[0..] == tokens;
      assert G.ParseDocument(tokens).Ok? ==> [] + G.ParseDocument(tokens).value == G.ParseDocument(tokens).value;
      while !Eof()
        invariant Valid()
        invariant G.ParseDocument(tokens) ==
          match G.ParseDocument(Rest()) case Ok(more) => Ok(nodes + more) case Err(e) => Err(e)
        invariant definitions == CanonDefinitions(nodes)
        decreases |tokens| - pos
      {
        ghost var here := Rest();
        var definition :- ParseDefinition();
        ghost var node := G.ParseDefinition(here).value.node;
        assert G.ParseDocument(Rest()).Ok? ==>
          nodes + ([node] + G.ParseDocument(Rest()).value) == nodes + [node] + G.ParseDocument(Rest()).value;
        nodes := nodes + [node];
        definitions := definitions + [definition];
      }
      assert nodes + [] == nodes;
      return Ok("doc(" + Join(Sort(definitions), '|') + ")");
    }
  }

  lemma EmptyJoin()
    ensures Join([], ',') == ""
  {
  }
}
