// parseGraphQLDocument and GraphQLBodyMatcher.Matches, from query text to verdict.
module GraphQLMatcher {
  import opened Wrappers
  import opened GraphQLTokens
  import opened GraphQLSpelling
  import opened GraphQLLexer
  import opened GraphQLLayout
  import opened GraphQLSyntax
  import opened GraphQLCanon
  import Grammar = GraphQLGrammar
  import RoundTrip = GraphQLRoundTrip
  import Equivalence = GraphQLEquivalence
  import GraphQLParser
  import opened Matching

  // The tree of a query text.
  function DocumentOf(query: string): (r: Result<Document, SyntaxError>) {
    var tokens :- Lex(query);
    if |tokens| == 0 then Err(EmptyQuery) else Grammar.ParseDocument(tokens)
  }

  method ParseGraphQLDocument(query: string) returns (r: Result<string, SyntaxError>)
    ensures r == match DocumentOf(query) case Ok(document) => Ok(CanonDocument(document)) case Err(e) => Err(e)
  {
    hide Lex, Grammar.ParseDocument, CanonDocument;
    var tokens := TokenizeGraphQL(query);
    if tokens.Err? {
      return Err(tokens.error);
    }
    if |tokens.value| == 0 {
      return Err(EmptyQuery);
    }
    var parser := new GraphQLParser.Parser(tokens.value);
    r := parser.ParseDocument();
  }

  // The trees of query texts have the leaves the lexer produces.
  lemma DocumentLexical(query: string)
    requires DocumentOf(query).Ok?
    ensures Equivalence.LexicalDocument(DocumentOf(query).value)
  {
    hide Lex, Grammar.ParseDocument, ValidTokens, Equivalence.LexicalDocument;
    LexedTokensValid(query);
    RoundTrip.ParsedDocument(Lex(query).value);
    Equivalence.DocumentLexical(DocumentOf(query).value);
  }

  // Two queries that parse have the same canonical text exactly when they have
  // the same meaning.
  lemma QueriesMatchIffSameMeaning(query: string, other: string)
    requires DocumentOf(query).Ok? && DocumentOf(other).Ok?
    ensures CanonDocument(DocumentOf(query).value) == CanonDocument(DocumentOf(other).value)
       <==> Meaning(DocumentOf(query).value) == Meaning(DocumentOf(other).value)
  {
    hide DocumentOf, Equivalence.LexicalDocument;
    DocumentLexical(query);
    DocumentLexical(other);
    Equivalence.CanonicalIffSameMeaning(DocumentOf(query).value, DocumentOf(other).value);
  }

  // A query is read as a document exactly when the document is not empty and well
  // formed and the query is a way to write it: with any blanks, commas and comments,
  // and any spelling of its strings and numbers.
  lemma QueryIffWritten(query: string, document: Document)
    ensures DocumentOf(query) == Ok(document)
       <==> |document| > 0 && WellFormed(document) && IsWritten(query, PrintDocument(document))
  {
    hide Lex, IsWritten, Grammar.ParseDocument, WellFormed, PrintDocument;
    LexIff(query, PrintDocument(document));
    if Lex(query).Ok? {
      var tokens := Lex(query).value;
      RoundTrip.ParseInvertsPrint(tokens, document);
      if Grammar.ParseDocument(tokens) == Ok(document) { EmptyDocument(tokens, document); }
    }
  }

  lemma EmptyDocument(tokens: seq<Token>, document: Document)
    requires Grammar.ParseDocument(tokens) == Ok(document)
    ensures |tokens| == 0 <==> |document| == 0
  {
    hide Grammar.ParseDefinition;
  }

  // ---------- The request body matcher ----------

  // The JSON object of a request or of a stub's parameters: its query, and its variables
  // and operation name where they are neither missing nor null. The variables are raw
  // JSON text.
  datatype GraphQLRequest = GraphQLRequest(query: string, variables: Option<string>, operation: Option<string>)

  datatype MatcherError = QueryError(error: SyntaxError) | VariablesError

  ghost predicate SameQuery(expected: string, actual: string) {
    && DocumentOf(expected).Ok? && DocumentOf(actual).Ok?
    && Meaning(DocumentOf(expected).value) == Meaning(DocumentOf(actual).value)
  }

  // Both without variables, or with variables of one value.
  ghost predicate SameVariables(expected: Option<string>, actual: Option<string>, lib: Library) {
    match (expected, actual)
    case (None, None) => true
    case (Some(raw), Some(other)) => SameJSONText(raw, other, lib)
    case _ => false
  }

  // Missing variables stay missing; others are normalised, which fails on invalid JSON.
  function Normalized(variables: Option<string>, lib: Library): (r: Option<Option<string>>) {
    match variables
    case None => Some(None)
    case Some(raw) =>
      match NormalizeRawJSON(raw, lib)
      case Some(text) => Some(Some(text))
      case None => None
  }

  lemma VariablesIff(expected: Option<string>, actual: Option<string>, lib: Library)
    requires DecodesJSON(lib) && Normalized(expected, lib).Some?
    ensures Normalized(expected, lib) == Normalized(actual, lib) <==> SameVariables(expected, actual, lib)
  {
    hide NormalizeRawJSON, DecodesJSON, SameJSONText;
    if expected.Some? && actual.Some? {
      NormalizedIff(actual.value, expected.value, lib);
      SameTextFlips(actual.value, expected.value, lib);
    }
  }

  lemma SameTextFlips(raw: string, other: string, lib: Library)
    ensures SameJSONText(raw, other, lib) <==> SameJSONText(other, raw, lib)
  {
  }

  class GraphQLBodyMatcher {
    const parameters: GraphQLRequest          // as given to the constructor
    const canonical: string
    const variables: Option<string>           // normalised
    const lib: Library

    ghost predicate Valid() {
      && DecodesJSON(lib)
      && DocumentOf(parameters.query).Ok? && canonical == CanonDocument(DocumentOf(parameters.query).value)
      && Normalized(parameters.variables, lib) == Some(variables)
    }

    // parseGraphQLBodyMatcher, after its parameters have parsed.
    constructor (parameters: GraphQLRequest, canonical: string, variables: Option<string>, lib: Library)
      requires DecodesJSON(lib) && Normalized(parameters.variables, lib) == Some(variables)
      requires DocumentOf(parameters.query).Ok? && canonical == CanonDocument(DocumentOf(parameters.query).value)
      ensures Valid() && this.parameters == parameters && this.lib == lib
    {
      this.parameters := parameters;
      this.canonical := canonical;
      this.variables := variables;
      this.lib := lib;
    }

    // None stands for a body that is not a JSON object with a query string and, if any,
    // an operation name that is a string.
    method Matches(body: Option<GraphQLRequest>) returns (matches: bool)
      requires Valid()
      ensures matches <==>
        && body.Some?
        && SameQuery(parameters.query, body.value.query)
        && SameVariables(parameters.variables, body.value.variables, lib)
        && parameters.operation == body.value.operation
    {
      hide DocumentOf, CanonDocument, Meaning, NormalizeRawJSON, DecodesJSON, SameVariables;
      if body.None? {
        return false;
      }
      var request := body.value;
      VariablesIff(parameters.variables, request.variables, lib);
      var requestVariables := Normalized(request.variables, lib);
      if requestVariables.None? {
        return false;
      }
      var requestDocument := ParseGraphQLDocument(request.query);
      if requestDocument.Err? {
        return false;
      }
      QueriesMatchIffSameMeaning(parameters.query, request.query);
      if canonical != requestDocument.value {
        return false;
      }
      if variables.Some? != requestVariables.value.Some? {
        return false;
      }
      if variables.Some? && variables.value != requestVariables.value.value {
        return false;
      }
      var operation := parameters.operation;
      if operation.Some? != request.operation.Some? {
        return false;
      }
      if operation.Some? && operation.value != request.operation.value {
        return false;
      }
      return true;
    }
  }

  // parseGraphQLBodyMatcher: a stub with an unreadable query or with invalid variables
  // is rejected when it is defined.
  method NewGraphQLBodyMatcher(parameters: GraphQLRequest, lib: Library)
    returns (r: Result<GraphQLBodyMatcher, MatcherError>)
    requires DecodesJSON(lib)
    ensures match DocumentOf(parameters.query)
            case Err(e) => r == Err(QueryError(e))
            case Ok(_) =>
              if Normalized(parameters.variables, lib).None? then r == Err(VariablesError)
              else r.Ok? && fresh(r.value) && r.value.Valid() && r.value.parameters == parameters && r.value.lib == lib
  {
    hide DocumentOf, CanonDocument, NormalizeRawJSON, DecodesJSON;
    var document := ParseGraphQLDocument(parameters.query);
    if document.Err? {
      return Err(QueryError(document.error));
    }
    var variables := Normalized(parameters.variables, lib);
    if variables.None? {
      return Err(VariablesError);
    }
    var matcher := new GraphQLBodyMatcher(parameters, document.value, variables.value, lib);
    return Ok(matcher);
  }

  // A bare selection set and the same set under "query" are one operation in the
  // GraphQL language, but not here: their canonical texts always differ.
  lemma ShorthandIsNotQuery(selections: seq<Selection>)
    requires Equivalence.LexicalSelections(selections)
    ensures CanonDocument([Shorthand(selections)]) != CanonDocument([Operation("query", None, None, [], selections)])
  {
    hide CanonDocument, MeaningOfDefinition;
    var shorthand, full := Shorthand(selections), Operation("query", None, None, [], selections);
    assert Equivalence.LexicalDefinition(shorthand);
    assert Equivalence.LexicalName("query") by { QueryIsName(); }
    assert Equivalence.LexicalDefinition(full);
    assert MeaningOfDefinition(shorthand) != MeaningOfDefinition(full) by { DifferentKinds(selections); }
    Equivalence.CanonicalIffSameMeaning([shorthand], [full]);
    var ms, ns := MeaningsOfDefinitions([shorthand]), MeaningsOfDefinitions([full]);
    assert ms == [MeaningOfDefinition(shorthand)] && ns == [MeaningOfDefinition(full)];
    assert MeaningOfDefinition(shorthand) in multiset(ms) && MeaningOfDefinition(shorthand) !in multiset(ns);
  }

  lemma QueryIsName()
    ensures Equivalence.LexicalName("query")
  {
    assert forall i :: 0 <= i < |"query"| ==> 'a' <= "query"[i] <= 'z';
  }

  lemma DifferentKinds(selections: seq<Selection>)
    ensures MeaningOfDefinition(Shorthand(selections))
         != MeaningOfDefinition(Operation("query", None, None, [], selections))
  {
  }
}
