// Two documents have the same canonical text exactly when they have the same
// meaning.
module GraphQLEquivalence {
  import opened Wrappers
  import opened Sequences
  import opened Strings
  import opened GraphQLTokens
  import opened GraphQLLexer
  import opened GraphQLSyntax
  import opened GraphQLCanon
  import opened TextScan

  // ---------- Trees whose leaves are what the lexer produces ----------

  predicate LexicalName(s: string) { ValidToken(Name(s)) }

  predicate LexicalTypeRef(t: TypeRef) {
    match t
    case Named(name, _) => LexicalName(name)
    case ListOf(inner, _) => LexicalTypeRef(inner)
  }

  predicate LexicalValue(v: Value)
    decreases v, 1
  {
    match v
    case Variable(name) => LexicalName(name)
    case ListValue(items) => forall i :: 0 <= i < |items| ==> LexicalValue(items[i])
    case ObjectValue(fields) => LexicalPairs(fields)
    case StringValue(_) => true
    case NumberValue(text) => ValidToken(Number(text))
    case NameValue(name) => LexicalName(name)
  }

  predicate LexicalPairs(ps: seq<NamedValue>)
    decreases ps, 0
  {
    forall i :: 0 <= i < |ps| ==> LexicalName(ps[i].name) && LexicalValue(ps[i].value)
  }

  predicate LexicalDirectives(ds: seq<Directive>) {
    forall i :: 0 <= i < |ds| ==> LexicalName(ds[i].name) && LexicalPairs(Listed(ds[i].arguments))
  }

  predicate LexicalVariable(v: VariableDefinition) {
    LexicalName(v.name) && LexicalTypeRef(v.typeRef) && (v.default.Some? ==> LexicalValue(v.default.value))
  }

  predicate LexicalVariables(vs: seq<VariableDefinition>) {
    forall i :: 0 <= i < |vs| ==> LexicalVariable(vs[i])
  }

  predicate LexicalSelection(s: Selection)
    decreases s, 1
  {
    match s
    case Field(alias, name, arguments, directives, children) =>
      && (alias.Some? ==> LexicalName(alias.value)) && LexicalName(name)
      && LexicalPairs(Listed(arguments)) && LexicalDirectives(directives) && LexicalSelections(children)
    case Spread(name, directives) => LexicalName(name) && LexicalDirectives(directives)
    case Inline(typeName, directives, children) =>
      LexicalName(typeName) && LexicalDirectives(directives) && LexicalSelections(children)
  }

  predicate LexicalSelections(ss: seq<Selection>)
    decreases ss, 0
  {
    forall i :: 0 <= i < |ss| ==> LexicalSelection(ss[i])
  }

  predicate LexicalDefinition(d: Definition) {
    && LexicalSelections(d.selections)
    && match d
       case Shorthand(_) => true
       case Operation(kind, title, variables, directives, _) =>
         && LexicalName(kind) && (title.Some? ==> LexicalName(title.value))
         && LexicalVariables(Listed(variables)) && LexicalDirectives(directives)
       case Fragment(name, typeName, directives, _) =>
         LexicalName(name) && LexicalName(typeName) && LexicalDirectives(directives)
  }

  // ---------- Canonical texts are balanced ----------

  lemma NamePlain(c: char)
    requires IsNameContinue(c)
    ensures IsPlain(c) && c != '!' && c != '$'
  {
  }

  lemma NameBalanced(s: string)
    requires LexicalName(s)
    ensures Balanced(s, 2) && |s| > 0
  {
    forall i | 0 <= i < |s| ensures IsPlain(s[i]) {
      NamePlain(s[i]);
    }
    PlainBalanced(s);
  }

  predicate IsNumberChar(c: char) { IsDigit(c) || c == '-' || c == '+' || c == '.' || c == 'e' || c == 'E' }

  lemma SpanChars(s: string, from: nat, n: nat)
    requires from <= |s| && n == from + Span(s[from..], IsDigit)
    ensures forall i :: from <= i < n ==> IsNumberChar(s[i])
  {
    forall i | from <= i < n ensures IsNumberChar(s[i]) {
      assert s[i] == s[from..][i - from];
    }
  }

  lemma IntegerChars(s: string)
    requires IntegerEnd(s).Ok?
    ensures forall k :: 0 <= k < IntegerEnd(s).value ==> IsNumberChar(s[k])
  {
    hide Span;
    SpanChars(s, if s[0] == '-' then 1 else 0, IntegerEnd(s).value);
  }

  lemma FractionChars(s: string, i: nat)
    requires i <= |s| && FractionEnd(s, i).Ok?
    ensures forall k :: i <= k < FractionEnd(s, i).value ==> IsNumberChar(s[k])
  {
    hide Span;
    if i < FractionEnd(s, i).value { SpanChars(s, i + 1, FractionEnd(s, i).value); }
  }

  lemma ExponentChars(s: string, i: nat)
    requires i <= |s| && ExponentEnd(s, i).Ok?
    ensures forall k :: i <= k < ExponentEnd(s, i).value ==> IsNumberChar(s[k])
  {
    hide Span;
    var end := ExponentEnd(s, i).value;
    if i < end {
      SpanChars(s, if s[i + 1] == '+' || s[i + 1] == '-' then i + 2 else i + 1, end);
    }
  }

  lemma NumberBalanced(s: string)
    requires ValidToken(Number(s))
    ensures Balanced(s, 2) && |s| > 0
  {
    hide IntegerEnd, FractionEnd, ExponentEnd;
    var i := IntegerEnd(s).value;
    IntegerChars(s);
    FractionChars(s, i);
    ExponentChars(s, FractionEnd(s, i).value);
    forall k | 0 <= k < |s| ensures IsPlain(s[k]) {
      assert IsNumberChar(s[k]);
    }
    PlainBalanced(s);
  }

  lemma KeywordBalanced(s: string)
    requires forall i :: 0 <= i < |s| ==> 'a' <= s[i] <= 'z'
    ensures Balanced(s, 2)
  {
    forall i | 0 <= i < |s| ensures IsPlain(s[i]) {}
    PlainBalanced(s);
  }

  lemma BracketedBalanced(tag: string, open: char, items: seq<string>, close: char)
    requires IsOpen(open) && IsClose(close) && AllItems(items)
    requires forall i :: 0 <= i < |tag| ==> 'a' <= tag[i] <= 'z'
    ensures Balanced(Bracketed(tag, open, items, close), 2)
    ensures |Bracketed(tag, open, items, close)| > 0
  {
    ItemsBalanced(items, ',');
    KeywordBalanced(tag);
    BracketsBalanced(tag, open, Join(items, ','), close);
  }

  lemma BracketedItem(tag: string, open: char, items: seq<string>, close: char)
    requires IsOpen(open) && IsClose(close) && AllItems(items)
    requires forall i :: 0 <= i < |tag| ==> 'a' <= tag[i] <= 'z'
    ensures IsItem(Bracketed(tag, open, items, close))
  {
    BracketedBalanced(tag, open, items, close);
    Weaken(Bracketed(tag, open, items, close), 2, 1);
  }

  lemma {:induction false} TypeRefBalanced(t: TypeRef)
    requires LexicalTypeRef(t)
    ensures Balanced(CanonTypeRef(t), 2) && |CanonTypeRef(t)| > 0
  {
    var bang := if t.bang then "!" else "";
    match t {
      case Named(name, _) =>
        NameBalanced(name);
        BangBalanced(name, t.bang);
      case ListOf(inner, _) =>
        TypeRefBalanced(inner);
        Weaken(CanonTypeRef(inner), 2, 0);
        BracketsBalanced("", '[', CanonTypeRef(inner), ']');
        assert "" + ['['] + CanonTypeRef(inner) + [']'] == "[" + CanonTypeRef(inner) + "]";
        BangBalanced("[" + CanonTypeRef(inner) + "]", t.bang);
    }
  }

  lemma BangBalanced(s: string, bang: bool)
    requires Balanced(s, 2)
    ensures Balanced(s + if bang then "!" else "", 2)
  {
    if bang {
      CharBalanced('!', 2);
      BalancedAppend(s, "!", 2);
    } else {
      assert s + "" == s;
    }
  }

  lemma TaggedItem(tag: string, body: string)
    requires Balanced(tag, 2) && Balanced(body, 2) && |tag| > 0
    ensures IsItem(tag + ":" + body)
  {
    Weaken(tag, 2, 1);
    Weaken(body, 2, 1);
    CharBalanced(':', 1);
    BalancedAppend(tag, ":", 1);
    BalancedAppend(tag + ":", body, 1);
  }

  lemma VariableItem(name: string)
    requires LexicalName(name)
    ensures IsItem("$" + name)
  {
    NameBalanced(name);
    CharBalanced('$', 1);
    Weaken(name, 2, 1);
    BalancedAppend("$", name, 1);
  }

  lemma {:induction false} ValueItem(v: Value)
    requires LexicalValue(v)
    ensures IsItem(CanonValue(v))
    decreases v, 1
  {
    hide LexicalName, Balanced, IsItem, Join, Quote, ValidToken;
    match v {
      case Variable(name) =>
        VariableItem(name);
      case ListValue(items) =>
        forall i | 0 <= i < |items| ensures IsItem(CanonValues(items)[i]) {
          ValueItem(items[i]);
        }
        BracketedItem("list", '[', CanonValues(items), ']');
      case ObjectValue(fields) =>
        PairItems(fields);
        AllItemsSorted(CanonPairs(fields));
        BracketedItem("obj", '{', Sort(CanonPairs(fields)), '}');
      case StringValue(text) =>
        QuoteBalanced(text);
        KeywordBalanced("str");
        TaggedItem("str", Quote(text));
        assert "str:" == "str" + ":";
      case NumberValue(text) =>
        NumberBalanced(text);
        KeywordBalanced("num");
        TaggedItem("num", text);
        assert "num:" == "num" + ":";
      case NameValue(name) =>
        NameBalanced(name);
        KeywordBalanced("name");
        TaggedItem("name", name);
        assert "name:" == "name" + ":";
    }
  }

  lemma TwoPartsItem(name: string, body: string)
    requires LexicalName(name) && Balanced(body, 1)
    ensures IsItem(Join([name, body], ':'))
  {
    NameBalanced(name);
    Weaken(name, 2, 1);
    PartsBalanced([name, body]);
  }

  lemma {:induction false} PairItems(ps: seq<NamedValue>)
    requires LexicalPairs(ps)
    ensures AllItems(CanonPairs(ps))
    decreases ps, 0
  {
    forall i | 0 <= i < |ps| ensures IsItem(CanonPairs(ps)[i]) {
      ValueItem(ps[i].value);
      TwoPartsItem(ps[i].name, CanonValue(ps[i].value));
    }
  }

  lemma ArgumentsBalanced(a: Arguments)
    requires LexicalPairs(Listed(a))
    ensures Balanced(CanonArguments(a), 2)
  {
    PairItems(Listed(a));
    AllItemsSorted(CanonPairs(Listed(a)));
    BracketedBalanced("args", '[', Sort(CanonPairs(Listed(a))), ']');
  }

  lemma DirectiveItems(ds: seq<Directive>)
    requires LexicalDirectives(ds)
    ensures AllItems(CanonDirectiveTexts(ds))
  {
    forall i | 0 <= i < |ds| ensures IsItem(CanonDirectiveTexts(ds)[i]) {
      ArgumentsBalanced(ds[i].arguments);
      Weaken(CanonArguments(ds[i].arguments), 2, 1);
      TwoPartsItem(ds[i].name, CanonArguments(ds[i].arguments));
    }
  }

  lemma DirectivesBalanced(ds: seq<Directive>)
    requires LexicalDirectives(ds)
    ensures Balanced(CanonDirectives(ds), 2)
  {
    hide Sort, Join, Bracketed, CanonDirectiveTexts, LexicalDirectives, Balanced;
    DirectiveItems(ds);
    AllItemsSorted(CanonDirectiveTexts(ds));
    BracketedBalanced("dirs", '[', Sort(CanonDirectiveTexts(ds)), ']');
  }

  lemma VariableItems(vs: seq<VariableDefinition>)
    requires LexicalVariables(vs)
    ensures AllItems(CanonVariableTexts(vs))
  {
    forall i | 0 <= i < |vs| ensures IsItem(CanonVariableTexts(vs)[i]) {
      assert LexicalVariable(vs[i]);
      VariableBodyBalanced(vs[i]);
      TwoPartsItem(vs[i].name, CanonTypeRef(vs[i].typeRef) + CanonDefault(vs[i].default));
    }
  }

  lemma VariableBodyBalanced(v: VariableDefinition)
    requires LexicalVariable(v)
    ensures Balanced(CanonTypeRef(v.typeRef) + CanonDefault(v.default), 1)
  {
    TypeRefBalanced(v.typeRef);
    Weaken(CanonTypeRef(v.typeRef), 2, 1);
    if v.default.Some? {
      ValueItem(v.default.value);
      CharBalanced('=', 1);
      BalancedAppend("=", CanonValue(v.default.value), 1);
    }
    BalancedAppend(CanonTypeRef(v.typeRef), CanonDefault(v.default), 1);
  }

  lemma VariablesBalanced(vs: Option<seq<VariableDefinition>>)
    requires LexicalVariables(Listed(vs))
    ensures Balanced(CanonVariables(vs), 2) && |CanonVariables(vs)| > 0
  {
    VariableItems(Listed(vs));
    AllItemsSorted(CanonVariableTexts(Listed(vs)));
    BracketedBalanced("", '[', Sort(CanonVariableTexts(Listed(vs))), ']');
  }

  lemma {:induction false} SelectionItem(s: Selection)
    requires LexicalSelection(s)
    ensures IsItem(CanonSelection(s))
    decreases s, 2
  {
    hide CanonArguments, CanonDirectives, CanonSelectionSet, Balanced, IsItem, Join, LexicalName, LexicalDirectives;
    Keywords();
    match s {
      case Field(alias, name, arguments, directives, children) =>
        if |children| != 0 { SelectionSetBalanced(children); }
        if alias.Some? { NameBalanced(alias.value); }
        NameBalanced(name);
        ArgumentsBalanced(arguments);
        DirectivesBalanced(directives);
        SixPartsItem("field", TextOf(alias), name, CanonArguments(arguments), CanonDirectives(directives),
                     if |children| == 0 then "" else CanonSelectionSet(children));
      case Spread(name, directives) =>
        NameBalanced(name);
        DirectivesBalanced(directives);
        ThreePartsItem("spread", name, CanonDirectives(directives));
      case Inline(typeName, directives, children) =>
        NameBalanced(typeName);
        DirectivesBalanced(directives);
        SelectionSetBalanced(children);
        FivePartsItem("inline", "on", typeName, CanonDirectives(directives), CanonSelectionSet(children));
    }
  }

  lemma Keywords()
    ensures Balanced("", 2) && Balanced("field", 2) && Balanced("spread", 2) && Balanced("inline", 2)
    ensures Balanced("on", 2) && Balanced("op", 2) && Balanced("query", 2) && Balanced("fragment", 2)
    ensures Balanced("[]", 2)
  {
    hide Balanced;
    SelectionKeywords();
    DefinitionKeywords();
    KeywordBalanced("");
    BracketsBalanced("", '[', "", ']');
    assert "" + ['['] + "" + [']'] == "[]";
  }

  lemma SelectionKeywords()
    ensures Balanced("field", 2) && Balanced("spread", 2) && Balanced("inline", 2) && Balanced("on", 2)
  {
    hide Balanced;
    KeywordBalanced("field");
    KeywordBalanced("spread");
    KeywordBalanced("inline");
    KeywordBalanced("on");
  }

  lemma DefinitionKeywords()
    ensures Balanced("op", 2) && Balanced("query", 2) && Balanced("fragment", 2)
  {
    hide Balanced;
    KeywordBalanced("op");
    KeywordBalanced("query");
    KeywordBalanced("fragment");
  }

  lemma ThreePartsItem(a: string, b: string, c: string)
    requires Balanced(a, 2) && Balanced(b, 2) && Balanced(c, 2)
    ensures IsItem(Join([a, b, c], ':'))
  {
    hide Balanced, Join;
    PartsItem([a, b, c]);
  }

  lemma FivePartsItem(a: string, b: string, c: string, d: string, e: string)
    requires Balanced(a, 2) && Balanced(b, 2) && Balanced(c, 2) && Balanced(d, 2) && Balanced(e, 2)
    ensures IsItem(Join([a, b, c, d, e], ':'))
  {
    hide Balanced, Join;
    PartsItem([a, b, c, d, e]);
  }

  lemma SixPartsItem(a: string, b: string, c: string, d: string, e: string, f: string)
    requires Balanced(a, 2) && Balanced(b, 2) && Balanced(c, 2) && Balanced(d, 2) && Balanced(e, 2) && Balanced(f, 2)
    ensures IsItem(Join([a, b, c, d, e, f], ':'))
  {
    hide Balanced, Join;
    PartsItem([a, b, c, d, e, f]);
  }

  lemma PartsItem(parts: seq<string>)
    requires |parts| > 1
    requires forall i :: 0 <= i < |parts| ==> Balanced(parts[i], 2)
    ensures IsItem(Join(parts, ':'))
  {
    forall i | 0 <= i < |parts| ensures Balanced(parts[i], 1) {
      Weaken(parts[i], 2, 1);
    }
    PartsBalanced(parts);
  }

  lemma {:induction false} SelectionItems(ss: seq<Selection>)
    requires LexicalSelections(ss)
    ensures AllItems(CanonSelections(ss))
    decreases ss, 0
  {
    forall i | 0 <= i < |ss| ensures IsItem(CanonSelections(ss)[i]) {
      SelectionItem(ss[i]);
    }
  }

  lemma {:induction false} SelectionSetBalanced(ss: seq<Selection>)
    requires LexicalSelections(ss)
    ensures Balanced(CanonSelectionSet(ss), 2) && |CanonSelectionSet(ss)| > 0
    decreases ss, 1
  {
    SelectionItems(ss);
    AllItemsSorted(CanonSelections(ss));
    BracketedBalanced("sel", '[', Sort(CanonSelections(ss)), ']');
  }

  lemma DefinitionItem(d: Definition)
    requires LexicalDefinition(d)
    ensures IsItem(CanonDefinition(d))
  {
    hide CanonVariables, CanonDirectives, CanonSelectionSet, Balanced, IsItem, Join, LexicalName, LexicalDirectives;
    SelectionSetBalanced(d.selections);
    Keywords();
    match d {
      case Shorthand(selections) =>
        SixPartsItem("op", "query", "", "", "[]", CanonSelectionSet(selections));
      case Operation(kind, title, variables, directives, selections) =>
        NameBalanced(kind);
        if title.Some? { NameBalanced(title.value); }
        VariablesBalanced(variables);
        DirectivesBalanced(directives);
        SixPartsItem("op", kind, TextOf(title), CanonVariables(variables), CanonDirectives(directives),
                     CanonSelectionSet(selections));
      case Fragment(name, typeName, directives, selections) =>
        NameBalanced(name);
        NameBalanced(typeName);
        DirectivesBalanced(directives);
        SixPartsItem("fragment", name, "on", typeName, CanonDirectives(directives), CanonSelectionSet(selections));
    }
  }

  // ---------- Equal texts, equal meanings ----------

  lemma BracketedInjective(tag: string, open: char, ss: seq<string>, tt: seq<string>, close: char)
    requires AllItems(ss) && AllItems(tt)
    requires Bracketed(tag, open, ss, close) == Bracketed(tag, open, tt, close)
    ensures ss == tt
  {
    var a, b := Bracketed(tag, open, ss, close), Bracketed(tag, open, tt, close);
    assert a[|tag| + 1..|a| - 1] == Join(ss, ',');
    assert b[|tag| + 1..|b| - 1] == Join(tt, ',');
    SplitItems(ss, tt, ',');
  }

  // A sorted, bracketed list determines its items up to order, and nothing more.
  lemma BagText(tag: string, open: char, ss: seq<string>, tt: seq<string>, close: char)
    requires AllItems(ss) && AllItems(tt)
    ensures Bracketed(tag, open, Sort(ss), close) == Bracketed(tag, open, Sort(tt), close)
       <==> multiset(ss) == multiset(tt)
  {
    SortDetermined(ss, tt);
    AllItemsSorted(ss);
    AllItemsSorted(tt);
    if Bracketed(tag, open, Sort(ss), close) == Bracketed(tag, open, Sort(tt), close) {
      BracketedInjective(tag, open, Sort(ss), Sort(tt), close);
    }
  }

  lemma {:induction false} TypeRefInjective(t: TypeRef, u: TypeRef)
    requires LexicalTypeRef(t) && LexicalTypeRef(u)
    requires CanonTypeRef(t) == CanonTypeRef(u)
    ensures t == u
  {
    TypeRefShape(t);
    TypeRefShape(u);
    assert t.bang == u.bang;
    var end := if t.bang then "!" else "";
    match (t, u) {
      case (Named(a, _), Named(b, _)) =>
        CancelRight(a, b, end);
      case (ListOf(a, _), ListOf(b, _)) =>
        var x, y := CanonTypeRef(a), CanonTypeRef(b);
        CancelRight("[" + x + "]", "[" + y + "]", end);
        CancelRight("[" + x, "[" + y, "]");
        CancelLeft("[", x, y);
        TypeRefInjective(a, b);
      case _ =>
    }
  }

  lemma TypeRefShape(t: TypeRef)
    requires LexicalTypeRef(t)
    ensures var s := CanonTypeRef(t); |s| > 0 && (s[0] == '[' <==> t.ListOf?) && (s[|s| - 1] == '!' <==> t.bang)
  {
    if t.Named? {
      NamePlain(t.name[0]);
      NamePlain(t.name[|t.name| - 1]);
    }
  }

  function KindOf(v: Value): (k: nat) {
    match v
    case Variable(_) => 0
    case ListValue(_) => 1
    case ObjectValue(_) => 2
    case StringValue(_) => 3
    case NumberValue(_) => 4
    case NameValue(_) => 5
  }

  function KindOfText(s: string): (k: nat)
    requires |s| > 1
  {
    match s[0]
    case '$' => 0
    case 'l' => 1
    case 'o' => 2
    case 's' => 3
    case _ => if s[1] == 'u' then 4 else 5
  }

  lemma ValueKind(v: Value)
    requires LexicalValue(v)
    ensures |CanonValue(v)| > 1 && KindOfText(CanonValue(v)) == KindOf(v)
  {
    hide Quote, Join, Sort;
    match v
    case Variable(name) => NameBalanced(name);
    case ListValue(_) =>
    case ObjectValue(_) =>
    case StringValue(text) => assert CanonValue(v)[0] == 's';
    case NumberValue(text) => assert CanonValue(v)[1] == 'u';
    case NameValue(name) => assert CanonValue(v)[1] == 'a';
  }

  lemma TagInjective(tag: string, a: string, b: string)
    requires tag + a == tag + b
    ensures a == b
  {
    assert (tag + a)[|tag|..] == a && (tag + b)[|tag|..] == b;
  }

  lemma {:induction false} ValueTexts(v: Value, w: Value)
    requires LexicalValue(v) && LexicalValue(w)
    ensures CanonValue(v) == CanonValue(w) <==> MeaningOfValue(v) == MeaningOfValue(w)
    decreases v, 1
  {
    hide Bracketed, Sort, CanonPairs, CanonValues, MeaningsOfPairs, MeaningsOfValues, Quote, KindOfText, LexicalName;
    ValueKind(v);
    ValueKind(w);
    if KindOf(v) == KindOf(w) {
      match v {
        case Variable(name) =>
          if CanonValue(v) == CanonValue(w) { TagInjective("$", name, w.name); }
        case ListValue(items) => ListTexts(items, w.items);
        case ObjectValue(fields) =>
          PairTexts(fields, w.fields);
          PairItems(fields);
          PairItems(w.fields);
          BagText("obj", '{', CanonPairs(fields), CanonPairs(w.fields), '}');
        case StringValue(text) =>
          if CanonValue(v) == CanonValue(w) {
            TagInjective("str:", Quote(text), Quote(w.text));
            QuoteInjective(text, w.text);
          }
        case NumberValue(text) =>
          if CanonValue(v) == CanonValue(w) { TagInjective("num:", text, w.text); }
        case NameValue(name) =>
          if CanonValue(v) == CanonValue(w) { TagInjective("name:", name, w.name); }
      }
    }
  }

  lemma {:induction false} ListTexts(vs: seq<Value>, ws: seq<Value>)
    requires forall i :: 0 <= i < |vs| ==> LexicalValue(vs[i])
    requires forall i :: 0 <= i < |ws| ==> LexicalValue(ws[i])
    ensures Bracketed("list", '[', CanonValues(vs), ']') == Bracketed("list", '[', CanonValues(ws), ']')
       <==> MeaningsOfValues(vs) == MeaningsOfValues(ws)
    decreases vs, 0
  {
    var ss, tt := CanonValues(vs), CanonValues(ws);
    forall i | 0 <= i < |vs| ensures IsItem(ss[i]) { ValueItem(vs[i]); }
    forall i | 0 <= i < |ws| ensures IsItem(tt[i]) { ValueItem(ws[i]); }
    if Bracketed("list", '[', ss, ']') == Bracketed("list", '[', tt, ']') {
      BracketedInjective("list", '[', ss, tt, ']');
    }
    var ms, ns := MeaningsOfValues(vs), MeaningsOfValues(ws);
    if |vs| == |ws| {
      forall i | 0 <= i < |vs| ensures ss[i] == tt[i] <==> ms[i] == ns[i] {
        ValueTexts(vs[i], ws[i]);
      }
      assert ss == tt <==> ms == ns;
    }
  }

  lemma TwoParts(a: string, x: string, b: string, y: string)
    requires Balanced(a, 2) && Balanced(b, 2)
    ensures Join([a, x], ':') == Join([b, y], ':') <==> a == b && x == y
  {
    if Join([a, x], ':') == Join([b, y], ':') {
      SplitParts([a, x], [b, y]);
      assert [a, x][0] == a && [b, y][0] == b && [a, x][1] == x && [b, y][1] == y;
    }
  }

  lemma {:induction false} PairTexts(ps: seq<NamedValue>, qs: seq<NamedValue>)
    requires LexicalPairs(ps) && LexicalPairs(qs)
    ensures multiset(CanonPairs(ps)) == multiset(CanonPairs(qs))
       <==> multiset(MeaningsOfPairs(ps)) == multiset(MeaningsOfPairs(qs))
    decreases ps, 0
  {
    hide LexicalName;
    var ss, tt, ms, ns := CanonPairs(ps), CanonPairs(qs), MeaningsOfPairs(ps), MeaningsOfPairs(qs);
    forall i, j | 0 <= i < |ps| && 0 <= j < |qs| ensures ss[i] == tt[j] <==> ms[i] == ns[j] {
      ValueTexts(ps[i].value, qs[j].value);
      NameBalanced(ps[i].name);
      NameBalanced(qs[j].name);
      TwoParts(ps[i].name, CanonValue(ps[i].value), qs[j].name, CanonValue(qs[j].value));
    }
    SameBags(ss, ms, tt, ns);
  }

  lemma ArgumentTexts(a: Arguments, b: Arguments)
    requires LexicalPairs(Listed(a)) && LexicalPairs(Listed(b))
    ensures CanonArguments(a) == CanonArguments(b)
       <==> multiset(MeaningsOfPairs(Listed(a))) == multiset(MeaningsOfPairs(Listed(b)))
  {
    hide Bracketed, Sort, CanonPairs, MeaningsOfPairs, LexicalPairs;
    PairTexts(Listed(a), Listed(b));
    PairItems(Listed(a));
    PairItems(Listed(b));
    BagText("args", '[', CanonPairs(Listed(a)), CanonPairs(Listed(b)), ']');
  }

  lemma DirectiveTexts(ds: seq<Directive>, es: seq<Directive>)
    requires LexicalDirectives(ds) && LexicalDirectives(es)
    ensures CanonDirectives(ds) == CanonDirectives(es)
       <==> multiset(MeaningsOfDirectives(ds)) == multiset(MeaningsOfDirectives(es))
  {
    hide Bracketed, Sort, LexicalName, LexicalPairs, CanonArguments, MeaningsOfPairs;
    var ss, tt := CanonDirectiveTexts(ds), CanonDirectiveTexts(es);
    var ms, ns := MeaningsOfDirectives(ds), MeaningsOfDirectives(es);
    forall i, j | 0 <= i < |ds| && 0 <= j < |es| ensures ss[i] == tt[j] <==> ms[i] == ns[j] {
      ArgumentTexts(ds[i].arguments, es[j].arguments);
      NameBalanced(ds[i].name);
      NameBalanced(es[j].name);
      TwoParts(ds[i].name, CanonArguments(ds[i].arguments), es[j].name, CanonArguments(es[j].arguments));
    }
    SameBags(ss, ms, tt, ns);
    DirectiveItems(ds);
    DirectiveItems(es);
    BagText("dirs", '[', ss, tt, ']');
  }

  lemma DefaultTexts(v: VariableDefinition, w: VariableDefinition)
    requires LexicalVariable(v) && LexicalVariable(w)
    ensures CanonTypeRef(v.typeRef) + CanonDefault(v.default) == CanonTypeRef(w.typeRef) + CanonDefault(w.default)
       <==> v.typeRef == w.typeRef && MeaningOfVariable(v).default == MeaningOfVariable(w).default
  {
    hide CanonTypeRef, LexicalTypeRef, CanonValue, MeaningOfValue, LexicalValue, LexicalName;
    var x, y := CanonDefault(v.default), CanonDefault(w.default);
    if v.default.Some? && w.default.Some? {
      ValueTexts(v.default.value, w.default.value);
      if x == y { TagInjective("=", CanonValue(v.default.value), CanonValue(w.default.value)); }
    }
    if CanonTypeRef(v.typeRef) + x == CanonTypeRef(w.typeRef) + y {
      TypeRefBalanced(v.typeRef);
      TypeRefBalanced(w.typeRef);
      Cut(CanonTypeRef(v.typeRef), CanonTypeRef(w.typeRef), x, y, 2);
      TypeRefInjective(v.typeRef, w.typeRef);
    }
  }

  lemma VariableTexts(vs: Option<seq<VariableDefinition>>, ws: Option<seq<VariableDefinition>>)
    requires LexicalVariables(Listed(vs)) && LexicalVariables(Listed(ws))
    ensures CanonVariables(vs) == CanonVariables(ws)
       <==> multiset(MeaningsOfVariables(Listed(vs))) == multiset(MeaningsOfVariables(Listed(ws)))
  {
    hide Bracketed, Sort, LexicalName, CanonTypeRef, CanonDefault, LexicalTypeRef, LexicalValue;
    var us, bs := Listed(vs), Listed(ws);
    var ss, tt := CanonVariableTexts(us), CanonVariableTexts(bs);
    var ms, ns := MeaningsOfVariables(us), MeaningsOfVariables(bs);
    forall i, j | 0 <= i < |us| && 0 <= j < |bs| ensures ss[i] == tt[j] <==> ms[i] == ns[j] {
      var v, w := us[i], bs[j];
      assert LexicalVariable(v) && LexicalVariable(w);
      DefaultTexts(v, w);
      NameBalanced(v.name);
      NameBalanced(w.name);
      TwoParts(v.name, CanonTypeRef(v.typeRef) + CanonDefault(v.default),
               w.name, CanonTypeRef(w.typeRef) + CanonDefault(w.default));
    }
    SameBags(ss, ms, tt, ns);
    VariableItems(us);
    VariableItems(bs);
    BagText("", '[', ss, tt, ']');
  }

  predicate SixParts(ps: seq<string>) {
    |ps| == 6 && Balanced(ps[0], 2) && Balanced(ps[1], 2) && Balanced(ps[2], 2) && Balanced(ps[3], 2)
      && Balanced(ps[4], 2)
  }

  lemma {:induction false} SelectionTexts(s: Selection, t: Selection)
    requires LexicalSelection(s) && LexicalSelection(t)
    ensures CanonSelection(s) == CanonSelection(t) <==> MeaningOfSelection(s) == MeaningOfSelection(t)
    decreases s, 2
  {
    hide CanonArguments, CanonDirectives, CanonSelectionSet, MeaningsOfPairs, MeaningsOfDirectives,
      MeaningsOfSelections,
      Balanced, LexicalName, LexicalPairs, LexicalDirectives, Join;
    Keywords();
    SelectionHead(s);
    SelectionHead(t);
    match (s, t) {
      case (Field(_, _, _, _, _), Field(_, _, _, _, _)) =>
        FieldTexts(s, t);
      case (Spread(name, directives), Spread(name', directives')) =>
        DirectiveTexts(directives, directives');
        NameBalanced(name);
        NameBalanced(name');
        ThreeParts("spread", name, CanonDirectives(directives), name', CanonDirectives(directives'));
      case (Inline(typeName, directives, children), Inline(typeName', directives', children')) =>
        DirectiveTexts(directives, directives');
        ChildTexts(children, children');
        NameBalanced(typeName);
        NameBalanced(typeName');
        DirectivesBalanced(directives);
        DirectivesBalanced(directives');
        FiveParts("inline", "on", typeName, CanonDirectives(directives), CanonSelectionSet(children),
                  typeName', CanonDirectives(directives'), CanonSelectionSet(children'));
      case _ =>
    }
  }

  // A selection's text starts with the first letter of its kind.
  lemma SelectionHead(s: Selection)
    ensures |CanonSelection(s)| > 0
    ensures CanonSelection(s)[0] == if s.Field? then 'f' else if s.Spread? then 's' else 'i'
  {
    hide CanonArguments, CanonDirectives, CanonSelectionSet;
  }

  lemma ThreeParts(tag: string, a: string, b: string, a': string, b': string)
    requires Balanced(tag, 2) && Balanced(a, 2) && Balanced(a', 2)
    ensures Join([tag, a, b], ':') == Join([tag, a', b'], ':') <==> a == a' && b == b'
  {
    hide Balanced;
    var ps, qs := [tag, a, b], [tag, a', b'];
    if Join(ps, ':') == Join(qs, ':') {
      SplitParts(ps, qs);
      assert ps[1] == a && qs[1] == a' && ps[2] == b && qs[2] == b';
    }
  }

  lemma FiveParts(tag: string, on: string, a: string, b: string, c: string, a': string, b': string, c': string)
    requires Balanced(tag, 2) && Balanced(on, 2) && Balanced(a, 2) && Balanced(a', 2) && Balanced(b, 2)
      && Balanced(b', 2)
    ensures Join([tag, on, a, b, c], ':') == Join([tag, on, a', b', c'], ':') <==> a == a' && b == b' && c == c'
  {
    hide Balanced;
    var ps, qs := [tag, on, a, b, c], [tag, on, a', b', c'];
    if Join(ps, ':') == Join(qs, ':') {
      SplitParts(ps, qs);
      assert ps[2] == a && qs[2] == a' && ps[3] == b && qs[3] == b' && ps[4] == c && qs[4] == c';
    }
  }

  lemma SixPartsEqual(ps: seq<string>, qs: seq<string>)
    requires SixParts(ps) && SixParts(qs)
    ensures Join(ps, ':') == Join(qs, ':') <==> ps == qs
  {
    hide Balanced;
    if Join(ps, ':') == Join(qs, ':') {
      SplitParts(ps, qs);
    }
  }

  lemma OptionalNameTexts(a: Option<string>, b: Option<string>)
    requires a.Some? ==> LexicalName(a.value)
    requires b.Some? ==> LexicalName(b.value)
    ensures TextOf(a) == TextOf(b) <==> a == b
  {
  }

  lemma FieldTexts(s: Selection, t: Selection)
    requires s.Field? && t.Field? && LexicalSelection(s) && LexicalSelection(t)
    ensures CanonSelection(s) == CanonSelection(t) <==> MeaningOfSelection(s) == MeaningOfSelection(t)
    decreases s, 1
  {
    hide CanonArguments, CanonDirectives, CanonSelectionSet, MeaningsOfPairs, MeaningsOfDirectives,
      MeaningsOfSelections,
      Balanced, LexicalName, LexicalPairs, LexicalDirectives, Join, TextOf, LexicalSelections;
    var ps := FieldParts(s);
    var qs := FieldParts(t);
    FieldPartsBalanced(s);
    FieldPartsBalanced(t);
    SixPartsEqual(ps, qs);
    OptionalNameTexts(s.alias, t.alias);
    ArgumentTexts(s.arguments, t.arguments);
    DirectiveTexts(s.directives, t.directives);
    OptionalChildTexts(s.children, t.children);
    assert ps == qs <==> ps[1] == qs[1] && ps[2] == qs[2] && ps[3] == qs[3] && ps[4] == qs[4] && ps[5] == qs[5];
  }

  function OptionalSet(ss: seq<Selection>): (s: string) {
    if |ss| == 0 then "" else CanonSelectionSet(ss)
  }

  function FieldParts(s: Selection): (ps: seq<string>)
    requires s.Field?
  {
    ["field", TextOf(s.alias), s.name, CanonArguments(s.arguments), CanonDirectives(s.directives),
      OptionalSet(s.children)]
  }

  lemma FieldPartsBalanced(s: Selection)
    requires s.Field? && LexicalSelection(s)
    ensures SixParts(FieldParts(s))
  {
    hide CanonArguments, CanonDirectives, CanonSelectionSet, Balanced, LexicalName, LexicalPairs, LexicalDirectives,
      LexicalSelections;
    Keywords();
    if s.alias.Some? { NameBalanced(s.alias.value); }
    NameBalanced(s.name);
    ArgumentsBalanced(s.arguments);
    DirectivesBalanced(s.directives);
  }

  lemma OptionalChildTexts(ss: seq<Selection>, tt: seq<Selection>)
    requires LexicalSelections(ss) && LexicalSelections(tt)
    ensures OptionalSet(ss) == OptionalSet(tt)
       <==> multiset(MeaningsOfSelections(ss)) == multiset(MeaningsOfSelections(tt))
    decreases ss, 1
  {
    hide CanonSelectionSet, Balanced;
    ChildTexts(ss, tt);
    SelectionSetBalanced(ss);
    SelectionSetBalanced(tt);
    var m, n := MeaningsOfSelections(ss), MeaningsOfSelections(tt);
    assert |multiset(m)| == |ss| && |multiset(n)| == |tt|;
  }

  lemma {:induction false} ChildTexts(ss: seq<Selection>, tt: seq<Selection>)
    requires LexicalSelections(ss) && LexicalSelections(tt)
    ensures CanonSelectionSet(ss) == CanonSelectionSet(tt)
       <==> multiset(MeaningsOfSelections(ss)) == multiset(MeaningsOfSelections(tt))
    decreases ss, 0
  {
    hide Bracketed, Sort, LexicalSelection, CanonSelection, MeaningOfSelection;
    var cs, ds, ms, ns := CanonSelections(ss), CanonSelections(tt), MeaningsOfSelections(ss), MeaningsOfSelections(tt);
    forall i, j | 0 <= i < |ss| && 0 <= j < |tt| ensures cs[i] == ds[j] <==> ms[i] == ns[j] {
      SelectionTexts(ss[i], tt[j]);
    }
    SameBags(cs, ms, ds, ns);
    SelectionItems(ss);
    SelectionItems(tt);
    BagText("sel", '[', cs, ds, ']');
  }

  function DefinitionParts(d: Definition): (ps: seq<string>) {
    match d
    case Shorthand(selections) => ["op", "query", "", "", "[]", CanonSelectionSet(selections)]
    case Operation(kind, title, variables, directives, selections) =>
      ["op", kind, TextOf(title), CanonVariables(variables), CanonDirectives(directives), CanonSelectionSet(selections)]
    case Fragment(name, typeName, directives, selections) =>
      ["fragment", name, "on", typeName, CanonDirectives(directives), CanonSelectionSet(selections)]
  }

  lemma DefinitionPartsBalanced(d: Definition)
    requires LexicalDefinition(d)
    ensures SixParts(DefinitionParts(d))
    ensures CanonDefinition(d) == Join(DefinitionParts(d), ':')
  {
    hide CanonVariables, CanonDirectives, CanonSelectionSet, Balanced, Join, LexicalName, LexicalDirectives,
      LexicalVariables;
    Keywords();
    match d {
      case Shorthand(_) =>
      case Operation(kind, title, variables, directives, _) =>
        NameBalanced(kind);
        if title.Some? { NameBalanced(title.value); }
        VariablesBalanced(variables);
        DirectivesBalanced(directives);
      case Fragment(name, typeName, directives, _) =>
        NameBalanced(name);
        NameBalanced(typeName);
        DirectivesBalanced(directives);
    }
  }

  lemma DefinitionTexts(d: Definition, e: Definition)
    requires LexicalDefinition(d) && LexicalDefinition(e)
    ensures CanonDefinition(d) == CanonDefinition(e) <==> MeaningOfDefinition(d) == MeaningOfDefinition(e)
  {
    hide CanonVariables, CanonDirectives, CanonSelectionSet, CanonDefinition, MeaningsOfVariables, MeaningsOfDirectives,
      MeaningsOfSelections, Balanced, Join, LexicalName, LexicalDirectives, LexicalVariables, LexicalSelections,
      TextOf, SixParts;
    var ps, qs := DefinitionParts(d), DefinitionParts(e);
    DefinitionPartsBalanced(d);
    DefinitionPartsBalanced(e);
    SixPartsEqual(ps, qs);
    ChildTexts(d.selections, e.selections);
    match (d, e) {
      case (Shorthand(_), Shorthand(_)) =>
        assert ps == qs <==> ps[5] == qs[5];
      case (Operation(_, title, variables, directives, _), Operation(_, title', variables', directives', _)) =>
        OptionalNameTexts(title, title');
        VariableTexts(variables, variables');
        DirectiveTexts(directives, directives');
        assert ps == qs <==> ps[1] == qs[1] && ps[2] == qs[2] && ps[3] == qs[3] && ps[4] == qs[4] && ps[5] == qs[5];
      case (Fragment(_, _, directives, _), Fragment(_, _, directives', _)) =>
        DirectiveTexts(directives, directives');
        assert ps == qs <==> ps[1] == qs[1] && ps[3] == qs[3] && ps[4] == qs[4] && ps[5] == qs[5];
      case (Shorthand(_), Operation(_, _, variables, _, _)) =>
        VariablesBalanced(variables);
        assert ps[3] != qs[3];
      case (Operation(_, _, variables, _, _), Shorthand(_)) =>
        VariablesBalanced(variables);
        assert ps[3] != qs[3];
      case (Fragment(_, _, _, _), _) =>
        assert ps[0][0] == 'f' && qs[0][0] == 'o';
      case (_, Fragment(_, _, _, _)) =>
        assert ps[0][0] == 'o' && qs[0][0] == 'f';
    }
  }

  predicate LexicalDocument(document: Document) {
    forall i :: 0 <= i < |document| ==> LexicalDefinition(document[i])
  }

  // The canonical text is a complete invariant of the meaning.
  lemma CanonicalIffSameMeaning(document: Document, other: Document)
    requires LexicalDocument(document) && LexicalDocument(other)
    ensures CanonDocument(document) == CanonDocument(other) <==> Meaning(document) == Meaning(other)
  {
    hide Sort, Join, LexicalDefinition, CanonDefinition, MeaningOfDefinition, IsItem;
    var ss, tt := CanonDefinitions(document), CanonDefinitions(other);
    var ms, ns := MeaningsOfDefinitions(document), MeaningsOfDefinitions(other);
    forall i, j | 0 <= i < |document| && 0 <= j < |other| ensures ss[i] == tt[j] <==> ms[i] == ns[j] {
      DefinitionTexts(document[i], other[j]);
    }
    SameBags(ss, ms, tt, ns);
    SortDetermined(ss, tt);
    if CanonDocument(document) == CanonDocument(other) {
      forall i | 0 <= i < |ss| ensures IsItem(ss[i]) { DefinitionItem(document[i]); }
      forall i | 0 <= i < |tt| ensures IsItem(tt[i]) { DefinitionItem(other[i]); }
      AllItemsSorted(ss);
      AllItemsSorted(tt);
      var a, b := Join(Sort(ss), '|'), Join(Sort(tt), '|');
      assert CanonDocument(document)[4..4 + |a|] == a && CanonDocument(other)[4..4 + |b|] == b;
      assert |CanonDocument(document)| == |a| + 5 && |CanonDocument(other)| == |b| + 5;
      SplitItems(Sort(ss), Sort(tt), '|');
    }
  }

  // ---------- Valid tokens make lexical trees ----------

  lemma ValidParts(a: seq<Token>, b: seq<Token>)
    requires ValidTokens(a + b)
    ensures ValidTokens(a) && ValidTokens(b)
  {
    hide ValidToken;
    forall i | 0 <= i < |a| ensures ValidToken(a[i]) { assert (a + b)[i] == a[i]; }
    forall i | 0 <= i < |b| ensures ValidToken(b[i]) { assert (a + b)[|a| + i] == b[i]; }
  }

  lemma ValidName(name: string)
    requires ValidTokens(N(name))
    ensures LexicalName(name)
  {
    assert ValidToken(N(name)[0]);
  }

  lemma {:induction false} TypeRefLexical(t: TypeRef)
    requires ValidTokens(PrintTypeRef(t))
    ensures LexicalTypeRef(t)
  {
    hide ValidToken, LexicalName, ValidTokens;
    var bang := if t.bang then P("!") else [];
    match t {
      case Named(name, _) =>
        ValidParts(N(name), bang);
        ValidName(name);
      case ListOf(inner, _) =>
        ValidParts(P("[") + PrintTypeRef(inner) + P("]"), bang);
        ValidParts(P("[") + PrintTypeRef(inner), P("]"));
        ValidParts(P("["), PrintTypeRef(inner));
        TypeRefLexical(inner);
    }
  }

  lemma {:induction false} ValueLexical(v: Value)
    requires ValidTokens(PrintValue(v))
    ensures LexicalValue(v)
    decreases v, 1
  {
    hide ValidToken, LexicalName, LexicalPairs;
    match v {
      case Variable(name) =>
        ValidParts(P("$"), N(name));
        ValidName(name);
      case ListValue(items) =>
        ValidParts(P("[") + PrintValues(items), P("]"));
        ValidParts(P("["), PrintValues(items));
        ValuesLexical(items);
      case ObjectValue(fields) =>
        ValidParts(P("{") + PrintPairs(fields), P("}"));
        ValidParts(P("{"), PrintPairs(fields));
        PairsLexical(fields);
      case StringValue(_) =>
      case NumberValue(_) => assert ValidToken(PrintValue(v)[0]);
      case NameValue(name) => ValidName(name);
    }
  }

  lemma {:induction false} ValuesLexical(vs: seq<Value>)
    requires ValidTokens(PrintValues(vs))
    ensures forall i :: 0 <= i < |vs| ==> LexicalValue(vs[i])
    decreases vs, 0
  {
    hide ValidToken, LexicalName, PrintValue, LexicalValue, ValidTokens;
    if |vs| != 0 {
      ValidParts(PrintValue(vs[0]), PrintValues(vs[1..]));
      ValueLexical(vs[0]);
      ValuesLexical(vs[1..]);
    }
  }

  lemma {:induction false} PairsLexical(ps: seq<NamedValue>)
    requires ValidTokens(PrintPairs(ps))
    ensures LexicalPairs(ps)
    decreases ps, 0
  {
    hide ValidToken, LexicalName, PrintValue, LexicalValue, ValidTokens;
    if |ps| != 0 {
      var name, value := N(ps[0].name), PrintValue(ps[0].value);
      ValidParts(name + P(":") + value, PrintPairs(ps[1..]));
      ValidParts(name + P(":"), value);
      ValidParts(name, P(":"));
      ValidName(ps[0].name);
      ValueLexical(ps[0].value);
      PairsLexical(ps[1..]);
    }
  }

  lemma ArgumentsLexical(a: Arguments)
    requires ValidTokens(PrintArguments(a))
    ensures LexicalPairs(Listed(a))
  {
    hide ValidToken, LexicalName, LexicalValue, PrintPairs, ValidTokens;
    if a.Some? {
      ValidParts(P("(") + PrintPairs(a.value), P(")"));
      ValidParts(P("("), PrintPairs(a.value));
      PairsLexical(a.value);
    }
  }

  lemma {:induction false} DirectivesLexical(ds: seq<Directive>)
    requires ValidTokens(PrintDirectives(ds))
    ensures LexicalDirectives(ds)
  {
    hide ValidToken, LexicalName, LexicalPairs, PrintArguments, ValidTokens;
    if |ds| != 0 {
      var name, arguments := N(ds[0].name), PrintArguments(ds[0].arguments);
      ValidParts(P("@") + name + arguments, PrintDirectives(ds[1..]));
      ValidParts(P("@") + name, arguments);
      ValidParts(P("@"), name);
      ValidName(ds[0].name);
      ArgumentsLexical(ds[0].arguments);
      DirectivesLexical(ds[1..]);
    }
  }

  lemma {:induction false} VariablesLexical(vs: seq<VariableDefinition>)
    requires ValidTokens(PrintVariables(vs))
    ensures LexicalVariables(vs)
  {
    hide ValidToken, LexicalName, LexicalTypeRef, LexicalValue, PrintTypeRef, PrintValue, ValidTokens;
    if |vs| != 0 {
      var name, typeRef := N(vs[0].name), PrintTypeRef(vs[0].typeRef);
      var default := if vs[0].default.None? then [] else P("=") + PrintValue(vs[0].default.value);
      ValidParts(P("$") + name + P(":") + typeRef + default, PrintVariables(vs[1..]));
      ValidParts(P("$") + name + P(":") + typeRef, default);
      ValidParts(P("$") + name + P(":"), typeRef);
      ValidParts(P("$") + name, P(":"));
      ValidParts(P("$"), name);
      ValidName(vs[0].name);
      TypeRefLexical(vs[0].typeRef);
      if vs[0].default.Some? {
        ValidParts(P("="), PrintValue(vs[0].default.value));
        ValueLexical(vs[0].default.value);
      }
      VariablesLexical(vs[1..]);
    }
  }

  lemma {:induction false} SelectionLexical(s: Selection)
    requires ValidTokens(PrintSelection(s))
    ensures LexicalSelection(s)
    decreases s, 2
  {
    hide ValidToken, LexicalName, LexicalPairs, LexicalDirectives, PrintArguments, PrintDirectives,
      PrintSelectionSet, ValidTokens;
    match s {
      case Field(alias, name, arguments, directives, children) =>
        var head := if alias.None? then [] else N(alias.value) + P(":");
        var braces := if |children| == 0 then [] else PrintSelectionSet(children);
        ValidParts(head + N(name) + PrintArguments(arguments) + PrintDirectives(directives), braces);
        ValidParts(head + N(name) + PrintArguments(arguments), PrintDirectives(directives));
        ValidParts(head + N(name), PrintArguments(arguments));
        ValidParts(head, N(name));
        if alias.Some? {
          ValidParts(N(alias.value), P(":"));
          ValidName(alias.value);
        }
        ValidName(name);
        ArgumentsLexical(arguments);
        DirectivesLexical(directives);
        if |children| != 0 { SelectionSetLexical(children); }
      case Spread(name, directives) =>
        ValidParts(P("...") + N(name), PrintDirectives(directives));
        ValidParts(P("..."), N(name));
        ValidName(name);
        DirectivesLexical(directives);
      case Inline(typeName, directives, children) =>
        var head := P("...") + N("on");
        ValidParts(head + N(typeName) + PrintDirectives(directives), PrintSelectionSet(children));
        ValidParts(head + N(typeName), PrintDirectives(directives));
        ValidParts(head, N(typeName));
        ValidName(typeName);
        DirectivesLexical(directives);
        SelectionSetLexical(children);
    }
  }

  lemma {:induction false} SelectionSetLexical(ss: seq<Selection>)
    requires ValidTokens(PrintSelectionSet(ss))
    ensures LexicalSelections(ss)
    decreases ss, 1
  {
    ValidParts(P("{") + PrintSelections(ss), P("}"));
    ValidParts(P("{"), PrintSelections(ss));
    SelectionsLexical(ss);
  }

  lemma {:induction false} SelectionsLexical(ss: seq<Selection>)
    requires ValidTokens(PrintSelections(ss))
    ensures LexicalSelections(ss)
    decreases ss, 0
  {
    hide ValidToken, LexicalSelection, PrintSelection, ValidTokens;
    if |ss| != 0 {
      ValidParts(PrintSelection(ss[0]), PrintSelections(ss[1..]));
      SelectionLexical(ss[0]);
      SelectionsLexical(ss[1..]);
    }
  }

  lemma DefinitionLexical(d: Definition)
    requires ValidTokens(PrintDefinition(d))
    ensures LexicalDefinition(d)
  {
    hide ValidToken, LexicalName, LexicalDirectives, LexicalVariables, LexicalSelections, PrintVariables,
      PrintDirectives,
      PrintSelectionSet, ValidTokens;
    match d {
      case Shorthand(selections) => SelectionSetLexical(selections);
      case Operation(kind, title, variables, directives, selections) =>
        var named := if title.None? then [] else N(title.value);
        var vs := if variables.None? then [] else P("(") + PrintVariables(variables.value) + P(")");
        ValidParts(N(kind) + named + vs + PrintDirectives(directives), PrintSelectionSet(selections));
        ValidParts(N(kind) + named + vs, PrintDirectives(directives));
        ValidParts(N(kind) + named, vs);
        ValidParts(N(kind), named);
        ValidName(kind);
        if title.Some? { ValidName(title.value); }
        OptionalVariablesLexical(variables);
        DirectivesLexical(directives);
        SelectionSetLexical(selections);
      case Fragment(name, typeName, directives, selections) =>
        var head := N("fragment") + N(name) + N("on");
        ValidParts(head + N(typeName) + PrintDirectives(directives), PrintSelectionSet(selections));
        ValidParts(head + N(typeName), PrintDirectives(directives));
        ValidParts(head, N(typeName));
        ValidParts(N("fragment") + N(name), N("on"));
        ValidParts(N("fragment"), N(name));
        ValidName(name);
        ValidName(typeName);
        DirectivesLexical(directives);
        SelectionSetLexical(selections);
    }
  }

  lemma OptionalVariablesLexical(vs: Option<seq<VariableDefinition>>)
    requires ValidTokens(if vs.None? then [] else P("(") + PrintVariables(vs.value) + P(")"))
    ensures LexicalVariables(Listed(vs))
  {
    if vs.Some? {
      ValidParts(P("(") + PrintVariables(vs.value), P(")"));
      ValidParts(P("("), PrintVariables(vs.value));
      VariablesLexical(vs.value);
    }
  }

  lemma {:induction false} DocumentLexical(document: Document)
    requires ValidTokens(PrintDocument(document))
    ensures LexicalDocument(document)
  {
    hide ValidToken, LexicalDefinition, PrintDefinition, ValidTokens;
    if |document| != 0 {
      ValidParts(PrintDefinition(document[0]), PrintDocument(document[1..]));
      DefinitionLexical(document[0]);
      DocumentLexical(document[1..]);
    }
  }
}
