// The canonical text graphql.go compares, and what two queries must share for
// their canonical texts to agree: their syntax trees read with unordered
// definitions, selections, arguments, directives, variable definitions and
// object fields, and everything else as written.
module GraphQLCanon {
  import opened Wrappers
  import opened Strings
  import opened GraphQLTokens
  import opened GraphQLSyntax

  // ---------- Canonical text ----------

  // tag, open bracket, items separated by commas, close bracket.
  function Bracketed(tag: string, open: char, items: seq<string>, close: char): (s: string) {
    tag + [open] + Join(items, ',') + [close]
  }

  function CanonTypeRef(t: TypeRef): (s: string) {
    (match t
     case Named(name, _) => name
     case ListOf(inner, _) => "[" + CanonTypeRef(inner) + "]")
    + if t.bang then "!" else ""
  }

  function CanonValue(v: Value): (s: string)
    decreases v, 1
  {
    match v
    case Variable(name) => "$" + name
    case ListValue(items) => Bracketed("list", '[', CanonValues(items), ']')
    case ObjectValue(fields) => Bracketed("obj", '{', Sort(CanonPairs(fields)), '}')
    case StringValue(text) => "str:" + Quote(text)
    case NumberValue(text) => "num:" + text
    case NameValue(name) => "name:" + name
  }

  function CanonValues(vs: seq<Value>): (ss: seq<string>)
    decreases vs, 0
  {
    seq(|vs|, i requires 0 <= i < |vs| => CanonValue(vs[i]))
  }

  function CanonPair(p: NamedValue): (s: string)
    decreases p, 2
  {
    Join([p.name, CanonValue(p.value)], ':')
  }

  function CanonPairs(ps: seq<NamedValue>): (ss: seq<string>)
    decreases ps, 0
  {
    seq(|ps|, i requires 0 <= i < |ps| => CanonPair(ps[i]))
  }

  function Listed<T>(a: Option<seq<T>>): (r: seq<T>) {
    if a.None? then [] else a.value
  }

  function CanonArguments(a: Arguments): (s: string) {
    Bracketed("args", '[', Sort(CanonPairs(Listed(a))), ']')
  }

  function CanonDirective(d: Directive): (s: string) {
    Join([d.name, CanonArguments(d.arguments)], ':')
  }

  function CanonDirectiveTexts(ds: seq<Directive>): (ss: seq<string>) {
    seq(|ds|, i requires 0 <= i < |ds| => CanonDirective(ds[i]))
  }

  function CanonDirectives(ds: seq<Directive>): (s: string) {
    Bracketed("dirs", '[', Sort(CanonDirectiveTexts(ds)), ']')
  }

  function CanonDefault(default: Option<Value>): (s: string) {
    if default.None? then "" else "=" + CanonValue(default.value)
  }

  function CanonVariable(v: VariableDefinition): (s: string) {
    Join([v.name, CanonTypeRef(v.typeRef) + CanonDefault(v.default)], ':')
  }

  function CanonVariableTexts(vs: seq<VariableDefinition>): (ss: seq<string>) {
    seq(|vs|, i requires 0 <= i < |vs| => CanonVariable(vs[i]))
  }

  function CanonVariables(vs: Option<seq<VariableDefinition>>): (s: string) {
    Bracketed("", '[', Sort(CanonVariableTexts(Listed(vs))), ']')
  }

  function TextOf(name: Option<string>): (s: string) {
    if name.None? then "" else name.value
  }

  function CanonSelection(s: Selection): (r: string)
    decreases s, 2
  {
    match s
    case Field(alias, name, arguments, directives, children) =>
      Join(["field", TextOf(alias), name, CanonArguments(arguments), CanonDirectives(directives),
            if |children| == 0 then "" else CanonSelectionSet(children)], ':')
    case Spread(name, directives) =>
      Join(["spread", name, CanonDirectives(directives)], ':')
    case Inline(typeName, directives, children) =>
      Join(["inline", "on", typeName, CanonDirectives(directives), CanonSelectionSet(children)], ':')
  }

  function CanonSelectionSet(ss: seq<Selection>): (r: string)
    decreases ss, 1
  {
    Bracketed("sel", '[', Sort(CanonSelections(ss)), ']')
  }

  function CanonSelections(ss: seq<Selection>): (r: seq<string>)
    decreases ss, 0
  {
    seq(|ss|, i requires 0 <= i < |ss| => CanonSelection(ss[i]))
  }

  function CanonDefinition(d: Definition): (s: string) {
    match d
    case Shorthand(selections) =>
      Join(["op", "query", "", "", "[]", CanonSelectionSet(selections)], ':')
    case Operation(kind, title, variables, directives, selections) =>
      Join(["op", kind, TextOf(title), CanonVariables(variables), CanonDirectives(directives),
            CanonSelectionSet(selections)], ':')
    case Fragment(name, typeName, directives, selections) =>
      Join(["fragment", name, "on", typeName, CanonDirectives(directives), CanonSelectionSet(selections)], ':')
  }

  function CanonDefinitions(document: Document): (ss: seq<string>) {
    seq(|document|, i requires 0 <= i < |document| => CanonDefinition(document[i]))
  }

  function CanonDocument(document: Document): (s: string) {
    "doc(" + Join(Sort(CanonDefinitions(document)), '|') + ")"
  }

  // ---------- Meaning ----------

  datatype MValue =
    | MVariable(name: string)
    | MList(items: seq<MValue>)
    | MObject(fields: multiset<MPair>)
    | MString(text: string)
    | MNumber(text: string)
    | MName(name: string)

  datatype MPair = MPair(name: string, value: MValue)

  datatype MDirective = MDirective(name: string, arguments: multiset<MPair>)

  datatype MVariableDefinition = MVariableDefinition(name: string, typeRef: TypeRef, default: Option<MValue>)

  datatype MSelection =
    | MField(alias: Option<string>, name: string, arguments: multiset<MPair>, directives: multiset<MDirective>,
             children: multiset<MSelection>)
    | MSpread(name: string, directives: multiset<MDirective>)
    | MInline(typeName: string, directives: multiset<MDirective>, children: multiset<MSelection>)

  datatype MDefinition =
    | MShorthand(selections: multiset<MSelection>)
    | MOperation(kind: string, title: Option<string>, variables: multiset<MVariableDefinition>,
                 directives: multiset<MDirective>, selections: multiset<MSelection>)
    | MFragment(name: string, typeName: string, directives: multiset<MDirective>, selections: multiset<MSelection>)

  ghost function MeaningOfValue(v: Value): (m: MValue)
    decreases v, 1
  {
    match v
    case Variable(name) => MVariable(name)
    case ListValue(items) => MList(MeaningsOfValues(items))
    case ObjectValue(fields) => MObject(multiset(MeaningsOfPairs(fields)))
    case StringValue(text) => MString(text)
    case NumberValue(text) => MNumber(text)
    case NameValue(name) => MName(name)
  }

  ghost function MeaningsOfValues(vs: seq<Value>): (ms: seq<MValue>)
    decreases vs, 0
  {
    seq(|vs|, i requires 0 <= i < |vs| => MeaningOfValue(vs[i]))
  }

  ghost function MeaningOfPair(p: NamedValue): (m: MPair)
    decreases p, 2
  {
    MPair(p.name, MeaningOfValue(p.value))
  }

  ghost function MeaningsOfPairs(ps: seq<NamedValue>): (ms: seq<MPair>)
    decreases ps, 0
  {
    seq(|ps|, i requires 0 <= i < |ps| => MeaningOfPair(ps[i]))
  }

  ghost function MeaningOfDirective(d: Directive): (m: MDirective) {
    MDirective(d.name, multiset(MeaningsOfPairs(Listed(d.arguments))))
  }

  ghost function MeaningsOfDirectives(ds: seq<Directive>): (ms: seq<MDirective>) {
    seq(|ds|, i requires 0 <= i < |ds| => MeaningOfDirective(ds[i]))
  }

  ghost function MeaningOfVariable(v: VariableDefinition): (m: MVariableDefinition) {
    MVariableDefinition(v.name, v.typeRef, if v.default.None? then None else Some(MeaningOfValue(v.default.value)))
  }

  ghost function MeaningsOfVariables(vs: seq<VariableDefinition>): (ms: seq<MVariableDefinition>) {
    seq(|vs|, i requires 0 <= i < |vs| => MeaningOfVariable(vs[i]))
  }

  ghost function MeaningOfSelection(s: Selection): (m: MSelection)
    decreases s, 2
  {
    match s
    case Field(alias, name, arguments, directives, children) =>
      MField(alias, name, multiset(MeaningsOfPairs(Listed(arguments))), multiset(MeaningsOfDirectives(directives)),
             multiset(MeaningsOfSelections(children)))
    case Spread(name, directives) => MSpread(name, multiset(MeaningsOfDirectives(directives)))
    case Inline(typeName, directives, children) =>
      MInline(typeName, multiset(MeaningsOfDirectives(directives)), multiset(MeaningsOfSelections(children)))
  }

  ghost function MeaningsOfSelections(ss: seq<Selection>): (ms: seq<MSelection>)
    decreases ss, 0
  {
    seq(|ss|, i requires 0 <= i < |ss| => MeaningOfSelection(ss[i]))
  }

  ghost function MeaningOfDefinition(d: Definition): (m: MDefinition) {
    match d
    case Shorthand(selections) => MShorthand(multiset(MeaningsOfSelections(selections)))
    case Operation(kind, title, variables, directives, selections) =>
      MOperation(kind, title, multiset(MeaningsOfVariables(Listed(variables))),
                 multiset(MeaningsOfDirectives(directives)), multiset(MeaningsOfSelections(selections)))
    case Fragment(name, typeName, directives, selections) =>
      MFragment(name, typeName, multiset(MeaningsOfDirectives(directives)), multiset(MeaningsOfSelections(selections)))
  }

  ghost function MeaningsOfDefinitions(document: Document): (ms: seq<MDefinition>) {
    seq(|document|, i requires 0 <= i < |document| => MeaningOfDefinition(document[i]))
  }

  ghost function Meaning(document: Document): (m: multiset<MDefinition>) {
    multiset(MeaningsOfDefinitions(document))
  }
}
