// The documents graphql.go accepts, as syntax trees. The source never builds
// them: its parser writes the canonical text directly. Here they say what a
// query is (Print) independently of how it is read or canonicalised.
module GraphQLSyntax {
  import opened Wrappers
  import opened GraphQLTokens

  datatype TypeRef =
    | Named(name: string, bang: bool)
    | ListOf(inner: TypeRef, bang: bool)

  datatype Value =
    | Variable(name: string)
    | ListValue(items: seq<Value>)
    | ObjectValue(fields: seq<NamedValue>)
    | StringValue(text: string)
    | NumberValue(text: string)
    | NameValue(name: string)

  // An object field or an argument.
  datatype NamedValue = NamedValue(name: string, value: Value)

  // None: no parentheses; Some([]): an empty pair.
  type Arguments = Option<seq<NamedValue>>

  datatype Directive = Directive(name: string, arguments: Arguments)

  datatype VariableDefinition = VariableDefinition(name: string, typeRef: TypeRef, default: Option<Value>)

  datatype Selection =
    | Field(alias: Option<string>, name: string, arguments: Arguments, directives: seq<Directive>,
      children: seq<Selection>)
    | Spread(name: string, directives: seq<Directive>)
    | Inline(typeName: string, directives: seq<Directive>, children: seq<Selection>)

  datatype Definition =
    | Shorthand(selections: seq<Selection>)
    | Operation(kind: string, title: Option<string>, variables: Option<seq<VariableDefinition>>,
                directives: seq<Directive>, selections: seq<Selection>)
    | Fragment(name: string, typeName: string, directives: seq<Directive>, selections: seq<Selection>)

  type Document = seq<Definition>

  // ---------- What the grammar asks of a tree ----------

  predicate IsOperationKind(s: string) { s == "query" || s == "mutation" || s == "subscription" }

  // "..." followed by "on" opens an inline fragment; only a field may lack children.
  predicate WellFormedSelection(s: Selection) {
    match s
    case Field(_, _, _, _, children) => WellFormedSelections(children)
    case Spread(name, _) => name != "on"
    case Inline(_, _, children) => |children| > 0 && WellFormedSelections(children)
  }

  predicate WellFormedSelections(ss: seq<Selection>) {
    forall i :: 0 <= i < |ss| ==> WellFormedSelection(ss[i])
  }

  predicate WellFormedDefinition(d: Definition) {
    && |d.selections| > 0
    && WellFormedSelections(d.selections)
    && (d.Operation? ==> IsOperationKind(d.kind) && d.title != Some("on"))
  }

  predicate WellFormed(document: Document) {
    forall i :: 0 <= i < |document| ==> WellFormedDefinition(document[i])
  }

  // ---------- Printing ----------

  function P(text: string): (ts: seq<Token>) { [Punct(text)] }

  function N(text: string): (ts: seq<Token>) { [Name(text)] }

  function PrintTypeRef(t: TypeRef): (ts: seq<Token>) {
    (match t
     case Named(name, _) => N(name)
     case ListOf(inner, _) => P("[") + PrintTypeRef(inner) + P("]"))
    + if t.bang then P("!") else []
  }

  function PrintValue(v: Value): (ts: seq<Token>)
    decreases v, 1
  {
    match v
    case Variable(name) => P("$") + N(name)
    case ListValue(items) => P("[") + PrintValues(items) + P("]")
    case ObjectValue(fields) => P("{") + PrintPairs(fields) + P("}")
    case StringValue(text) => [Str(text)]
    case NumberValue(text) => [Number(text)]
    case NameValue(name) => N(name)
  }

  function PrintValues(vs: seq<Value>): (ts: seq<Token>)
    decreases vs, 0
  {
    if |vs| == 0 then [] else PrintValue(vs[0]) + PrintValues(vs[1..])
  }

  function PrintPairs(ps: seq<NamedValue>): (ts: seq<Token>)
    decreases ps, 0
  {
    if |ps| == 0 then [] else N(ps[0].name) + P(":") + PrintValue(ps[0].value) + PrintPairs(ps[1..])
  }

  function PrintArguments(a: Arguments): (ts: seq<Token>) {
    if a.None? then [] else P("(") + PrintPairs(a.value) + P(")")
  }

  function PrintDirectives(ds: seq<Directive>): (ts: seq<Token>) {
    if |ds| == 0 then []
    else P("@") + N(ds[0].name) + PrintArguments(ds[0].arguments) + PrintDirectives(ds[1..])
  }

  function PrintVariables(vs: seq<VariableDefinition>): (ts: seq<Token>) {
    if |vs| == 0 then []
    else
      P("$") + N(vs[0].name) + P(":") + PrintTypeRef(vs[0].typeRef)
      + (if vs[0].default.None? then [] else P("=") + PrintValue(vs[0].default.value))
      + PrintVariables(vs[1..])
  }

  function PrintSelection(s: Selection): (ts: seq<Token>)
    decreases s, 2
  {
    match s
    case Field(alias, name, arguments, directives, children) =>
      (if alias.None? then [] else N(alias.value) + P(":"))
      + N(name) + PrintArguments(arguments) + PrintDirectives(directives)
      + (if |children| == 0 then [] else PrintSelectionSet(children))
    case Spread(name, directives) => P("...") + N(name) + PrintDirectives(directives)
    case Inline(typeName, directives, children) =>
      P("...") + N("on") + N(typeName) + PrintDirectives(directives) + PrintSelectionSet(children)
  }

  function PrintSelectionSet(ss: seq<Selection>): (ts: seq<Token>)
    decreases ss, 1
  {
    P("{") + PrintSelections(ss) + P("}")
  }

  function PrintSelections(ss: seq<Selection>): (ts: seq<Token>)
    decreases ss, 0
  {
    if |ss| == 0 then [] else PrintSelection(ss[0]) + PrintSelections(ss[1..])
  }

  function PrintDefinition(d: Definition): (ts: seq<Token>) {
    match d
    case Shorthand(selections) => PrintSelectionSet(selections)
    case Operation(kind, title, variables, directives, selections) =>
      N(kind) + (if title.None? then [] else N(title.value))
      + (if variables.None? then [] else P("(") + PrintVariables(variables.value) + P(")"))
      + PrintDirectives(directives) + PrintSelectionSet(selections)
    case Fragment(name, typeName, directives, selections) =>
      N("fragment") + N(name) + N("on") + N(typeName) + PrintDirectives(directives) + PrintSelectionSet(selections)
  }

  function PrintDocument(document: Document): (ts: seq<Token>) {
    if |document| == 0 then [] else PrintDefinition(document[0]) + PrintDocument(document[1..])
  }
}
