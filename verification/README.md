# ViMock: a verified model

ViMock answers HTTP requests from stub mappings that an admin API adds, changes and
removes. This project models the parts of it in which results depend on more than one
function, and proves what they promise.

- **GraphQL matching** (`GraphQLTokens`, `GraphQLSpelling`, `GraphQLLexer`, `GraphQLLayout`,
  `GraphQLSyntax`, `GraphQLGrammar`, `GraphQLRoundTrip`, `GraphQLCanon`, `TextScan`,
  `GraphQLEquivalence`, `GraphQLParser`, `GraphQLMatcher`). The tokeniser and the recursive-descent
  parser are the imperative ones of `graphql.go`; they refine a grammar over an explicit syntax
  tree, and read exactly the texts that are ways to write a tree. The meaning of a tree is the
  tree with every reorderable list replaced by a multiset, defined without any text. The main
  result: two queries match exactly when their meanings are equal. It rests on sorting, on
  unique decoding of the bracketed text format, and on induction over the mutually recursive
  tree types.
- **Stubs, selection and scenarios** (`Matching`, `MappingStore`, `Selection`, `ScenarioStates`,
  `Server`, `NaiveServer`, `Criteria`). The mutable stores are classes whose methods equal
  functions on the stored values. Over every run of admin steps and requests, the real server,
  with its hash indexes, sequence numbers, published snapshots, fast path and membership tables,
  serves what a naive server consisting of one list, one state map and a record of who was put
  into which scenario serves; and every request gets the foremost stub whose criteria it meets.
- **JSON, JSONPath and templates** (`JsonTree`, `JsonPath`, `JsonLocations`, `JsonPathSyntax`,
  `JsonPathExpressions`, `JsonOrder`, `JsonText`, `JsonReader`, `HelperOrder`, `Template`,
  `TemplateText`, `Decimal`). Paths, filters and templates are given a meaning of their own, which
  the evaluators, parsers and renderers are shown to have. Go visits the entries of a map in a new
  order each time, so every evaluation has an order of its own; the two evaluators and the two
  renderers are compared on all inputs and all orders. The text that equalToJson compares is shown
  to stand for the value, and to read back as it.
- **Record and replay** (`Recording`, `RecordedResponse`, `Base64`, `Utf8`, `RequestBody`). When a
  recorded stub matches the request it came from and when its response is the recorded one, as
  if-and-only-ifs, and that after a recording is stopped every request that replays is served; and
  how a body that can be read once serves all readers.
- **Dribbled bodies and gRPC frames** (`Dribble`, `GrpcFrame`), in 64-bit and 32-bit arithmetic.

`Wrappers`, `Sequences` and `Strings` hold option and result types, facts about concatenation, and
sorting and joining of texts.

## Where the code does not do what one might expect

Each of these is a theorem below, with the exact condition under which the code is right.

- `compareStubOrder` subtracts priorities, so priorities 2^63 or more apart are ordered the wrong
  way round (`Selection.SelectionCorrectIff`, `Selection.WrappedPriorityWins`). The run theorems
  take all priorities from some window of 2^63 values.
- Matching compares methods under Unicode case folding and the indexes compare upper-cased bytes,
  so a stub whose method is written with a Kelvin sign (U+212A) for K matches requests that never
  find it (`Selection.MatchIndexedIff`, `Selection.KelvinMethodMissed`). The run theorems take stubs
  with ASCII methods.
- A POST over a live id that changes its scenario leaves the old membership behind, and a
  scenario's state can then outlive all its stubs (`Server.MembersStayExactIff`,
  `Server.StateOutlivesStubs`).
- `FirstValue`, used by compiled templates, and `Values`, used by interpreted ones, each visit
  objects in an order of their own, so any wildcard in a path can make the two renderers, or two
  renderings by one of them, differ (`JsonOrder.ShortEvaluatorExactIff`,
  `HelperOrder.HelperTextIff`, `Template.RenderersAgreeIff`). Even in one order `FirstValue` gives up where the first branch
  under a wildcard fails, while `Values` goes on (`JsonPath.ShortEvaluatorCorrectIff`,
  `Template.OneOrderAgreesIff`). A compiled template also renders nothing at all, literal text
  included, for a request body that is not JSON (`Template.UnparsedBodyAgreesIff`,
  `Template.UnparsedBodyLosesText`).
- A recorded stub misses its own request when the path was sent escaped together with a query,
  when the query or a captured header is not UTF-8, when the recorded body is a JSON string or
  null, which matching unwraps once more, or when a header is captured under a name that folds to
  that of the header without being one (`Recording.RecordedStubMatchesIff`,
  `Recording.EscapedPathMisses`, `Recording.QueryByteMisses`, `Recording.NullBodyMisses`,
  `Recording.KelvinNameMisses`).
- A recorded JSON response is decoded and written again, so that white space, the order of
  entries and numbers beyond float64 are not replayed as they were
  (`RecordedResponse.ResponseReplaysIff`, `RecordedResponse.JsonBodiesReplayAlikeIff`,
  `RecordedResponse.LargeNumberChanges`).
- A request with the method ANY is recorded as a stub for every method
  (`Recording.RecordedStubServesIff`, `Recording.AnyServesAll`).
- A JSONPath filter does not take 1.0 for 1 (`JsonLocations.IntegerIsNoFloat`), while `equalToJson`
  may.
- A JSONPath filter whose literal is a lone quote makes compiling panic
  (`JsonPathSyntax.FilterPanicsIff`, `JsonPathSyntax.LoneQuotePanics`).
- A shorthand GraphQL query `{...}` and `query {...}` never match each other
  (`GraphQLMatcher.ShorthandIsNotQuery`).
- `splitBody` is right exactly when its products fit in 64 bits (`Dribble.SplitCorrectIff`). Inline
  bodies are limited to 32 MiB and stored files to 64 MiB, so only a body from the proxy, of more than
  3,037,000,500 bytes, can be split wrongly (`Dribble.SafeSizeIff`, `Dribble.LargeBodyPanics`).
- The pauses of a dribbled response add up exactly when the total in nanoseconds fits in 64 bits
  (`Dribble.PausesMeetTotal`).

## Model

| member | source | states |
|---|---|---|
| Strings.SortDetermined | internal/matcher/graphql.go:378-379 | Sorting texts depends only on which texts there are and how often: two lists sort to the same list exactly when they are permutations of each other |
| GraphQLTokens.UnquoteQuoted | internal/matcher/graphql.go:297-320 | Reading back a quoted string gives the string, for every string, valid UTF-8 or not and whichever characters count as printable: `strconv.Unquote` inverts `strconv.Quote` |
| Utf8.EncodeRuneValue | internal/matcher/graphql.go:312-316 | Every valid UTF-8 sequence is the encoding of its code point, which is no surrogate: the escapes for characters that are not printable read back |
| Utf8.DecodeEncodedRune | internal/matcher/graphql.go:312-316 | Conversely the UTF-8 encoding of every code point but the surrogates is a valid sequence for it, whatever follows |
| GraphQLTokens.QuoteInjective | internal/matcher/graphql.go:694-695 | Two string values are written alike only if they are the same string |
| GraphQLLexer.TokenizeGraphQL | internal/matcher/graphql.go:241-295 | The tokeniser loop returns exactly the tokens, or the error, of the lexer specification, for every text; `GraphQLLayout.LexIff` says what those tokens are |
| GraphQLLexer.ReadGraphQLString | internal/matcher/graphql.go:297-320 | The quote scanner returns the text and end of the string as the specification has them, block strings included, or its error; `GraphQLLayout.LexIff` says what they are |
| GraphQLLexer.ReadGraphQLNumber | internal/matcher/graphql.go:322-355 | The number scanner stops where the specification says, with the same three errors |
| GraphQLLayout.LexIff | internal/matcher/graphql.go:241-355 | The lexer reads a text as some tokens exactly when the text is a way to write them: every token in any of its spellings (strings in quotes with any escapes, or in triple quotes with their contents as they stand), with any blanks, commas and comments, and nothing between tokens that do not run together |
| GraphQLLayout.UnquoteIff | internal/matcher/graphql.go:306-316 | A string in quotes reads as a text exactly when it is made of characters and escapes that stand for that text, part by part; all escapes of Go strings |
| GraphQLLayout.BlockLexes | internal/matcher/graphql.go:297-304 | A string in triple quotes reads as the text up to the first closing ones, unchanged, whatever follows |
| GraphQLLayout.NumberLexes | internal/matcher/graphql.go:322-355 | Any sign, digits, fraction and exponent are read to their end and no further |
| GraphQLLexer.LexedTokensValid | internal/matcher/graphql.go:255-292 | Every token the lexer produces is well formed, which is what the texts of a tree need to come apart again |
| GraphQLRoundTrip.PrintedDocumentParses | internal/matcher/graphql.go:369-704 | Printing any well-formed document and parsing the tokens gives the same document back, with every token consumed |
| GraphQLRoundTrip.ParsedDocument | internal/matcher/graphql.go:369-704 | Whatever the parser accepts is the printing of the tree it builds, and that tree is well formed |
| GraphQLRoundTrip.ParseInvertsPrint | internal/matcher/graphql.go:369-704 | The parser accepts exactly the printings of well-formed documents, each as itself (both directions) |
| GraphQLRoundTrip.ValueParses | internal/matcher/graphql.go:647-704 | A printed value is parsed back in front of any remaining tokens |
| GraphQLRoundTrip.SelectionParses | internal/matcher/graphql.go:537-600 | A printed selection is parsed back in front of any tokens that cannot extend it; field, spread and inline fragment |
| GraphQLRoundTrip.DefinitionParses | internal/matcher/graphql.go:382-449 | A printed definition is parsed back in front of any remaining tokens |
| GraphQLRoundTrip.ParsedSelection | internal/matcher/graphql.go:537-600 | Tokens accepted as a selection are the printing of that selection followed by the unread rest |
| GraphQLRoundTrip.ParsedDefinition | internal/matcher/graphql.go:382-449 | Tokens accepted as a definition are its printing followed by the unread rest |
| GraphQLParser.Parser.ParseDocument | internal/matcher/graphql.go:369-380 | The imperative parser succeeds exactly when the grammar does and then returns the canonical text of the tree with all tokens consumed; otherwise it returns the same error |
| GraphQLParser.Parser.ParseDefinition | internal/matcher/graphql.go:382-397 | Returns the canonical text of the definition the grammar reads, leaves exactly the unread tokens, and advances on success |
| GraphQLParser.Parser.ParseFragmentDefinition | internal/matcher/graphql.go:399-423 | As the grammar for fragments: same text, same rest, same error, strictly advancing |
| GraphQLParser.Parser.ParseOperationDefinition | internal/matcher/graphql.go:425-449 | As the grammar for operations, including the name that may not be `on`; strictly advancing |
| GraphQLParser.Parser.ParseVariableDefinitions | internal/matcher/graphql.go:451-487 | As the grammar for variable definitions, sorted by text; strictly advancing |
| GraphQLParser.Parser.ParseTypeRef | internal/matcher/graphql.go:489-513 | As the grammar for type references; strictly advancing |
| GraphQLParser.Parser.ParseSelectionSet | internal/matcher/graphql.go:515-535 | As the grammar for selection sets, sorted by text, refusing an empty set; strictly advancing |
| GraphQLParser.Parser.ParseSelection | internal/matcher/graphql.go:537-567 | As the grammar for selections; strictly advancing |
| GraphQLParser.Parser.ParseField | internal/matcher/graphql.go:569-600 | As the grammar for fields with alias, arguments, directives and an optional selection set; strictly advancing |
| GraphQLParser.Parser.ParseArguments | internal/matcher/graphql.go:602-627 | As the grammar for optional arguments, sorted by text; never moves back |
| GraphQLParser.Parser.ParseDirectives | internal/matcher/graphql.go:629-645 | As the grammar for directives, sorted by text; never moves back |
| GraphQLParser.Parser.ParseValue | internal/matcher/graphql.go:647-704 | As the grammar for values: lists keep their order, object fields are sorted; strictly advancing |
| TextScan.SplitItems | internal/matcher/graphql.go:485-486 | Two joined lists of bracket-balanced items are equal texts only if they are the same lists: separators inside brackets or quotes never confuse the decoding |
| GraphQLEquivalence.ValueTexts | internal/matcher/graphql.go:647-704 | Two values have one canonical text exactly when they have one meaning (list order kept, object fields as a multiset) |
| GraphQLEquivalence.ArgumentTexts | internal/matcher/graphql.go:602-627 | Two argument lists have one canonical text exactly when they are equal as multisets of named values |
| GraphQLEquivalence.DirectiveTexts | internal/matcher/graphql.go:629-645 | Two directive lists have one canonical text exactly when they are equal as multisets |
| GraphQLEquivalence.VariableTexts | internal/matcher/graphql.go:451-487 | Two lists of variable definitions have one canonical text exactly when they are equal as multisets |
| GraphQLEquivalence.SelectionTexts | internal/matcher/graphql.go:537-600 | Two selections have one canonical text exactly when they have one meaning, at every depth |
| GraphQLEquivalence.DefinitionTexts | internal/matcher/graphql.go:382-449 | Two definitions have one canonical text exactly when they have one meaning; shorthand, operation and fragment never collide |
| GraphQLEquivalence.CanonicalIffSameMeaning | internal/matcher/graphql.go:369-380 | Canonical texts of documents are equal exactly when the documents are equal up to recursive reordering of definitions, selections, arguments, directives, variables and object fields |
| GraphQLMatcher.ParseGraphQLDocument | internal/matcher/graphql.go:199-239 | From query text to canonical text: the canonical text of the query's tree, or its first error |
| GraphQLMatcher.DocumentLexical | internal/matcher/graphql.go:199-239 | The tree of any query that parses satisfies the hypothesis of `CanonicalIffSameMeaning` |
| GraphQLMatcher.QueriesMatchIffSameMeaning | internal/matcher/graphql.go:108-114 | For any two query texts that parse, the comparison of canonical texts decides sameness of meaning |
| GraphQLMatcher.QueryIffWritten | internal/matcher/graphql.go:199-239 | A query is read as a document exactly when the document is not empty and well formed and the query is a way to write it, in any formatting and any spelling of its strings and numbers |
| GraphQLMatcher.GraphQLBodyMatcher.Matches | internal/matcher/graphql.go:102-162 | A request body matches exactly when its query has the same meaning, its variables are the same JSON value (but for the order of object entries and the spelling of numbers) or missing alike, and its operation name is the same or missing alike |
| GraphQLMatcher.NewGraphQLBodyMatcher | internal/matcher/graphql.go:62-100 | A matcher is built exactly when its query parses and its variables, if any, are JSON; else the query error comes first |
| GraphQLMatcher.VariablesIff | internal/matcher/graphql.go:119-124 | Normalised variables are equal exactly when the variables are one JSON value, or missing on both sides |
| GraphQLMatcher.ShorthandIsNotQuery | internal/matcher/graphql.go:388-393 | A bare selection set and the same set under `query` never match each other, for any selections |
| Decimal.AtoiItoa | internal/matcher/jsonpath.go:173-177 | Reading the decimal text of any 64-bit index gives the index back |
| JsonPathSyntax.ParsePathLoop | internal/matcher/jsonpath.go:140-184 | The parser loop returns exactly the tokens or the error of the path grammar |
| JsonPathSyntax.FilterPanicsIff | internal/matcher/jsonpath.go:186-240 | Parsing a filter panics exactly when its selector parses and its literal, trimmed, is a lone quote |
| JsonPathSyntax.LoneQuotePanics | internal/matcher/jsonpath.go:226-230 | A concrete expression on which compiling panics |
| JsonPathSyntax.ParseInvertsPrint | internal/matcher/jsonpath.go:140-184 | Writing a path and parsing it gives the path back exactly when every field name is non-empty without `.` or `[` and does not start with `*`, and every index is a 64-bit number |
| JsonPathSyntax.ParsedPathValid | internal/matcher/jsonpath.go:140-184 | Whatever the parser returns is such a path, and writing it down parses to the same path |
| JsonPathExpressions.ParsePathIff | internal/matcher/jsonpath.go:140-184 | A text is parsed as some tokens exactly when it is a spelling of them: names up to the next point or bracket, and indexes as 64-bit decimals with any sign, leading zeros and white space |
| JsonPathExpressions.AtoiIff | internal/matcher/jsonpath.go:173-177 | `strconv.Atoi` reads exactly the decimal numbers of 64 bits with an optional sign |
| JsonPathExpressions.FilterParses | internal/matcher/jsonpath.go:186-224 | A filter @path, @path.size() or @ compared with a literal, with any white space around both sides, compiles to that path, that size flag and that literal |
| JsonPathExpressions.QuotedLiteral | internal/matcher/jsonpath.go:226-230 | A literal in single quotes is the text between them, whatever that is |
| JsonPathExpressions.PlainLiteral | internal/matcher/jsonpath.go:232-240 | Any other literal without single quotes is the JSON value it decodes to |
| JsonPathExpressions.SingleQuotedLiteral | internal/matcher/jsonpath.go:232-240 | JSON strings inside a literal may be written in single quotes |
| JsonPathExpressions.PathCompiles | internal/matcher/jsonpath.go:39-72 | A path without a filter compiles to its tokens, white space around it ignored |
| JsonPathExpressions.FilteredPathCompiles | internal/matcher/jsonpath.go:128-138 | A path followed by a filter compiles to its tokens and that filter, or to the error of the filter |
| JsonPathExpressions.CompiledIsSpelled | internal/matcher/jsonpath.go:39-72 | Conversely whatever compiles is, but for white space around it, a spelling of its path, alone or followed by a spelling of its filter |
| JsonPathExpressions.FilterIsSpelled | internal/matcher/jsonpath.go:186-224 | Whatever parses as a filter is a spelling of its selector and a literal, on the two sides of the first == |
| JsonPath.EvalPathLoop | internal/matcher/jsonpath.go:242-275 | The two nested loops compute the recursive evaluation, for the order in which this evaluation visits objects; `JsonLocations.EvalPoints` says what it finds |
| JsonLocations.EvalPoints | internal/matcher/jsonpath.go:242-275 | Evaluating a path gives exactly the values at the places it points at (the field of each name, the position of each index, anything for a wildcard), in document order |
| JsonLocations.IndexSelects | internal/matcher/jsonpath.go:253-258 | The index n selects the item that has n items before it, alone, and an index outside the array nothing, for both evaluators |
| JsonLocations.FirstStep | internal/matcher/jsonpath.go:277-318 | The short evaluator goes on with the first child that each token allows, or fails if there is none |
| JsonLocations.ValuesPoint | internal/matcher/jsonpath.go:90-105 | `Values` gives the values a path points at, or with a filter the candidates there (the items of an array, else the value itself) that pass it, in document order; a filter passes a candidate if the first value its own path points at, or its size, is alike to the literal |
| JsonLocations.SameValueIff | internal/matcher/jsonpath.go:358-396 | Comparison structure by structure: same kind, same items in order, same keys in any order; numbers as floats of one value, integers of one value, or by their text |
| JsonLocations.IntegerIsNoFloat | internal/matcher/jsonpath.go:372-384 | The number 1.0 never compares equal to 1 |
| JsonPath.FirstPathValueLoop | internal/matcher/jsonpath.go:277-318 | The short evaluator's loop computes its specification: the first selected node at each token |
| JsonPath.ValuesLoop | internal/matcher/jsonpath.go:90-105 | The loops collect the evaluated nodes, or the filter candidates that match, in order |
| JsonPath.Exists | internal/matcher/jsonpath.go:74-88 | `Exists` holds exactly when `Values` is not empty, with and without a filter |
| JsonPath.FirstValueLoop | internal/matcher/jsonpath.go:107-116 | `FirstValue` is the head of `Values` on a filtered path and the short evaluation otherwise |
| JsonPath.EvalStages | internal/matcher/jsonpath.go:242-275 | Evaluating p followed by q is evaluating q on the nodes p gives |
| JsonPath.EvalConcat | internal/matcher/jsonpath.go:242-275 | Evaluation distributes over concatenation of the starting nodes |
| JsonPath.FirstIsHead | internal/matcher/jsonpath.go:277-318 | If both visit objects in one order, the value the short evaluator finds is the first node of the full evaluation |
| JsonPath.WildcardFreeAgrees | internal/matcher/jsonpath.go:242-318 | Without wildcards there is at most one node and the two evaluators agree, on success and on failure |
| JsonPath.ShortEvaluatorCorrectIff | internal/matcher/jsonpath.go:242-318 | If both visit objects in one order, the short evaluator gives the head of the full evaluation on every document exactly when no wildcard stands before the last token (or some index is negative and selects nothing) |
| JsonPath.FirstValueIsFirstOfValues | internal/matcher/jsonpath.go:90-116 | If both visit objects in one order, `FirstValue` is the first of `Values` on every document exactly for filtered or interchangeable paths |
| JsonPath.UnsafeDocument | internal/matcher/jsonpath.go:277-318 | For every other path there is a document where the full evaluation starts with a given value and the short one finds nothing, whatever the order |
| JsonTree.SameUnderAnyNumbers | internal/matcher/jsonpath.go:358-396 | Two views of one value normalise alike: comparison does not depend on the order of object entries |
| JsonOrder.EvalBag | internal/matcher/jsonpath.go:242-275 | Whatever the orders in which two evaluations visit objects, they find the same values, each equally often |
| JsonOrder.FirstIsAmongValues | internal/matcher/jsonpath.go:277-318 | What the short evaluator finds in one order is among the values the full evaluation finds in any other |
| JsonOrder.ShortEvaluatorExactIff | internal/matcher/jsonpath.go:242-318 | For independent visiting orders: the short evaluator finds the value the full one finds first, on every document and every pair of orders, exactly when the path has no wildcard (or an index that selects nothing) |
| JsonOrder.OrderShows | internal/matcher/jsonpath.go:258-266 | For every other path, and any two values, one document begins with the first value in one visiting order and with the second in another |
| HelperOrder.HelperTextIff | internal/matcher/jsonpath.go:90-116 | For independent visiting orders: the first of `Values` and `FirstValue` are written alike on every document exactly for steady paths. Without a filter that is an orderless path; with one, filter and path are orderless, or the filter is and all it accepts is written alike, or the path leads nowhere, or the filter accepts nothing |
| HelperOrder.NeverIff | internal/matcher/jsonpath.go:320-356 | A filter accepts no document exactly when its path leads nowhere or it compares a size with what no size is equal to |
| HelperOrder.ScalarOneText | internal/matcher/jsonpath.go:358-396 | All that a filter comparing the candidate itself with null, a boolean or a string accepts is written alike |
| JsonOrder.ValuesIgnoreOrder | internal/matcher/jsonpath.go:74-105 | `Values` finds the same values in every order, so `Exists` does not depend on it, for every path whose filter (if any) is orderless |
| JsonOrder.FirstValueIgnoresOrder | internal/matcher/jsonpath.go:90-116 | On orderless paths, filtered or not, `FirstValue` in one order is the first of `Values` in any other |
| Template.FindAllChained | internal/mapping/model.go:670-677 | The helper matches of a body are ordered, non-overlapping, non-empty spans inside it |
| Template.MatchAgain | internal/response/render.go:67-71 | The helper pattern applied to a matched text matches it again as a whole, with the same quoted expression: the second regular-expression search in the interpreter loses nothing |
| Template.SpansPartition | internal/mapping/model.go:682-709 | Literals and helper spans partition the template: replacing every helper by itself gives the template back |
| TemplateText.MatchIff | internal/response/render.go:13-13 | The helper pattern matches at a position exactly where a helper starts there, in either kind of quotes and with any white space in its gaps |
| TemplateText.FindsHelpers | internal/mapping/model.go:670-677 | In a template written as text and helpers the search finds every helper, with its expression, and nothing else |
| TemplateText.InterpreterWrites | internal/response/render.go:66-86 | Interpreting a template writes its text as it stands and in the place of each helper the first value of its expression, or nothing if the expression does not compile, the request body does not parse, or there is no value |
| TemplateText.PiecesOf | internal/response/render.go:66-86 | Every template is such text and helpers |
| TemplateText.CompiledWrites | internal/response/render.go:88-121 | A template compiles exactly if it is to be templated, has a helper and all its expressions compile; it then writes its text as it stands and each value, found in short, in its place |
| TemplateText.BodyWrites | internal/response/render.go:55-61 | What `Render` makes of an inline body, for every body, request and list of transformers |
| Template.CompileLoop | internal/mapping/model.go:672-712 | The compiler loop panics exactly where a helper path does before any other fails to compile; else it produces exactly the segments of the specification, or nothing where the source returns nil |
| Template.RenderCompiledLoop | internal/response/render.go:88-121 | The rendering loop writes exactly the concatenation of the segment texts, each helper evaluated in a visiting order of its own |
| Template.RenderersAgreeIff | internal/response/render.go:66-143 | For every template that compiles: compiled and interpreted rendering agree on every parsed request body and all visiting orders of all helpers exactly when every helper is steady (`HelperOrder.Steady`) |
| Template.OneOrderAgreesIff | internal/response/render.go:66-143 | If all helpers see the body in one order, the two renderers agree on every parsed body exactly when no helper path without a filter has a wildcard before its last token |
| Template.UnparsedBodyAgreesIff | internal/response/render.go:88-97 | On a request body that is not JSON the two agree exactly when the template has no literal text: the compiled one renders nothing |
| Template.UnparsedBodyLosesText | internal/response/render.go:88-97 | A concrete template whose literal text is rendered by the interpreter and lost by the compiled form when the request body is not JSON |
| Template.BodyRendersAsInterpreted | internal/response/render.go:55-61 | The choice made by `Render` between compiled and interpreted template does not show in the response, in any visiting orders, for parsed bodies and steady helpers; a body without helpers is served unchanged |
| JsonText.QuoteJsonInjective | internal/matcher/request.go:209-209 | Different strings have different JSON string texts, with all escapes of `json.Marshal` including those for <, >, & and U+2028 |
| JsonText.SameTextIff | internal/matcher/request.go:199-210 | `normalizeRawJSON` gives two values one text exactly when they are equal but for the order of object entries and the spelling of numbers |
| JsonReader.QuotedReads | internal/matcher/request.go:209-209 | Every string is read back, with the escapes of section 7 of RFC 8259, from the text `json.Marshal` writes for it |
| JsonReader.JsonReadsBack | internal/matcher/request.go:209-209 | The text `json.Marshal` writes for a value reads as that value, in words, strings, arrays and objects, with its numbers as they were written |
| Matching.EqualToJsonIff | internal/matcher/request.go:96-114 | An equalToJson pattern accepts exactly the bodies that decode to the expected value but for the order of object entries and the spelling of numbers |
| Matching.NormalizedIff | internal/matcher/request.go:199-210 | Two texts normalise alike exactly when they are texts of one value in that sense |
| Criteria.MatchesIff | internal/mapping/model.go:483-537 | A stub matches a request exactly when the request meets each of its criteria: method (ANY for any), the first URL field that is given, query values, header values under names compared but for case, body patterns (or their absence), custom matcher |
| Criteria.ServedByCriteria | internal/server/runtime.go:149-192 | A request is served by a stub whose criteria hold and whose required state is current, such that no other such stub has a lower priority and no earlier one the same; by none only if there is none |
| Criteria.RunServesByCriteria | internal/server/runtime.go:149-192 | The same for every request of every run of the server, under the hypotheses of `Server.RunServesAsSpecified` |
| Criteria.PathIgnored | internal/mapping/model.go:511-526 | Where every stub goes by the whole URI (url, or urlPattern), requests alike in everything but their path are served the same stub |
| Criteria.URIIgnored | internal/mapping/model.go:511-526 | Where every stub goes by the path (urlPath, or urlPathPattern), the URI and the query in it do not matter to it |
| Matching.KelvinFolds | internal/mapping/model.go:528-537 | The Kelvin sign U+212A folds to K between any ASCII letters |
| Matching.LongSFolds | internal/mapping/model.go:528-537 | The long s U+017F folds to S between any ASCII letters |
| Selection.FoldMethods | internal/mapping/model.go:528-537 | For a stored upper-case method equal to the request method under Unicode case folding, the upper-cased request method is that method exactly when it is ASCII |
| MappingStore.Store.Create | internal/mapping/store.go:78-93 | Create stores under the id, keeps the sequence number and place of a stored id and otherwise appends with the next number; the published snapshot is exact |
| MappingStore.Store.Replace | internal/mapping/store.go:95-112 | Replace changes only a stored id, in place, keeping its sequence number |
| MappingStore.Store.Delete | internal/mapping/store.go:114-132 | Delete removes the id from the table and its one place in the order, and nothing else |
| MappingStore.Store.RemoveOrdered | internal/mapping/store.go:122-128 | The loop over the order takes out the first occurrence of the id and keeps the rest in order |
| MappingStore.Store.Publish | internal/mapping/store.go:142-171 | The rebuilt snapshot is exact: list, table, every index bucket, fallback list and scenario flag are what scans of the stored mappings give |
| MappingStore.Store.PublishOne | internal/mapping/store.go:152-186 | Adding one mapping keeps all indexes exact |
| MappingStore.CreateKeepsConsistent | internal/mapping/store.go:78-93 | Create keeps the store invariant: distinct order, same keys as the table, strictly increasing sequence numbers bounded by nextSeq |
| MappingStore.ReplaceKeepsConsistent | internal/mapping/store.go:95-112 | Replace keeps the store invariant |
| MappingStore.DeleteKeepsConsistent | internal/mapping/store.go:114-132 | Delete keeps the store invariant |
| MappingStore.RemoveShifts | internal/mapping/store.go:122-129 | Deleting an id closes its gap in the order and moves nothing else |
| Selection.MatchIndexedIff | internal/mapping/store.go:173-203 | A mapping that matches a request lies in one of the buckets the lookup visits exactly when its method is ASCII or it is not indexed at all |
| Selection.KelvinMethodMissed | internal/mapping/store.go:188-203 | A concrete stub, with a Kelvin sign in its method, that matches a request and that the indexes do not find |
| Selection.IndexedMatchesAreAllMatches | internal/mapping/store.go:188-203 | For stubs with ASCII methods, the candidates that match are, as a multiset, the matches of a full scan |
| Selection.MatchingCandidatesDistinct | internal/mapping/store.go:188-203 | No stub is yielded twice among the matching candidates |
| Selection.CompareCorrectIff | internal/server/runtime.go:244-255 | The comparison is the order by priority, then sequence, exactly where the 64-bit subtraction does not wrap |
| Selection.SelectionCorrectIff | internal/server/runtime.go:244-267 | Selection finds the least stub of every candidate list exactly when no two priorities are 2^63 or more apart |
| Selection.WrappedPriorityWins | internal/server/runtime.go:244-255 | Two concrete stubs of which selection picks the one with the larger priority number |
| Selection.BestIsFirstLowest | internal/server/runtime.go:257-267 | Selecting by (priority, sequence) from any arrangement of some stubs picks the first of lowest priority in insertion order |
| Selection.FirstLowestMeaning | internal/server/runtime.go:244-255 | The specification scan: nothing before the chosen stub is as low, nothing after it is lower |
| Selection.SelectBestStub | internal/server/runtime.go:257-267 | The selection loop returns what the recursive selection returns |
| ScenarioStates.Store.SelectAndTransition | internal/scenario/store.go:28-41 | Picks the best candidate whose required state is current and moves its scenario, in one step |
| ScenarioStates.Store.SelectBestMatchingState | internal/scenario/store.go:104-117 | The loop picks the best of the candidates whose state matches |
| ScenarioStates.Store.Transition | internal/scenario/store.go:127-136 | Stores the new state unless the stub has no scenario, no new state, or a required state that is not current |
| ScenarioStates.Store.Reset | internal/scenario/store.go:54-63 | Drops every state and keeps membership |
| ScenarioStates.Store.MappingUpdated | internal/scenario/store.go:76-91 | An update within a scenario adds the id; across scenarios it removes the old membership and adds the new |
| ScenarioStates.Store.RemoveMapping | internal/scenario/store.go:157-174 | Removes the id; the last id of a scenario takes the scenario and its state with it |
| ScenarioStates.Store.AddMapping | internal/scenario/store.go:145-155 | Adds the id to its scenario's members |
| ScenarioStates.ServedIsPath | internal/scenario/store.go:28-41 | Between two forgettings of a scenario, the stubs served from it form a path in its state graph: each requires the state the earlier ones left |
| ScenarioStates.LeavesStartAtMostOnce | internal/scenario/store.go:104-143 | If no offered stub leads back to Started, the stubs that require Started and leave it are served at most once, all together |
| Server.RuntimeAPI.FindMatchLazy | internal/server/runtime.go:149-192 | Fast path or scenario path over the current snapshot; for a valid store this is a `Serves` step, the one the run theorems speak about |
| Server.RuntimeAPI.FastPath | internal/server/runtime.go:160-176 | The lazy loop returns the best matching candidate |
| Server.RuntimeAPI.CollectMatching | internal/server/runtime.go:178-187 | The second loop collects the matching candidates in order |
| Server.AdminAPI.CreateMapping | internal/server/admin.go:68-78 | A POST is the `Post` step of the run model, on both stores |
| Server.AdminAPI.UpdateMapping | internal/server/admin.go:80-106 | A PUT is the `Put` step; an unknown id changes nothing |
| Server.AdminAPI.DeleteMapping | internal/server/admin.go:108-127 | A DELETE is the `Delete` step; an unknown id changes nothing |
| Server.AdminAPI.ResetScenarios | internal/server/admin.go:129-132 | A scenario reset is the `ResetStates` step |
| Server.AdminAPI.ActivateRecordedMappings | internal/server/admin.go:179-184 | Activating recorded stubs is posting each of them in turn |
| Server.FastPathIsScenarioPath | internal/server/runtime.go:157-192 | Without scenarios the fast path picks what the scenario path would, and the scenario path would change no state |
| Server.ServedAsSpecified | internal/server/runtime.go:149-192 | With ASCII stub methods, on either path the stub served is the first in insertion order, of lowest priority, among all stored stubs that match and whose required state is current; the state advances as that stub says |
| Server.RunServesAsSpecified | internal/server/runtime.go:149-192 | In every run of posts, puts, deletes, resets and requests (ASCII stub methods, priorities in some window of 2^63 values, request methods that are tokens, one view of the body per request), every step leaves the specified state and every request is served the specified stub |
| Server.MembersStayExactIff | internal/server/admin.go:68-127 | Scenario membership (members are exactly the stored stubs of the scenario, none empty, state only with a member) survives a step exactly when the step is not a POST that moves a stored stub out of its scenario |
| Server.RunKeepsMembers | internal/scenario/store.go:65-102 | In every run of steps of that kind membership stays exact, so a scenario without stored stubs reads as Started |
| Server.StateOutlivesStubs | internal/server/admin.go:68-78 | The run post, serve, post under another scenario, delete leaves no stub and yet a used state: `Create` over a live id does not remove the old membership |
| NaiveServer.StepSimulates | internal/server/admin.go:68-132 | Every such step of the real server does to the naive server (a list, a state map, and who was put into which scenario) what the naive server does itself |
| NaiveServer.RunRefinesNaive | internal/server/runtime.go:149-192 | Over every run from the empty server, under the hypotheses of `Server.RunServesAsSpecified`, each request is served what a naive server without indexes, sequence numbers or snapshots serves |
| NaiveServer.LinksAreStubs | internal/server/admin.go:68-127 | In runs in which no POST moves a stored stub out of its scenario, the naive server's links are exactly the scenarios of its listed stubs |
| Utf8.RepairKeepsIff | internal/recording/store.go:172-181 | A string survives being written as JSON and read back exactly when it is valid UTF-8; every other byte becomes U+FFFD |
| Utf8.RepairStray | internal/recording/store.go:172-181 | Valid text stays, and each byte that starts no character becomes U+FFFD |
| Utf8.RepairedIsValid | internal/recording/store.go:172-181 | What comes back from JSON text is UTF-8, so writing and reading it again changes nothing more |
| Recording.CapturedHeadersMatchIff | internal/recording/store.go:214-226 | The recorded headers match the request they were captured from exactly when every captured name is a token and every captured value is UTF-8 or was also sent in its repaired form |
| Recording.TargetReplays | internal/recording/store.go:193-203 | The recorded URL matches the request again exactly when there was no query, or the path was sent as it reads and the query is UTF-8 |
| Recording.RecordedStubMatchesIff | internal/recording/store.go:157-243 | A stub built from an event, through its JSON text, matches the request it came from exactly when target and captured headers replay (names and values) and the captured body, if any, is not a JSON string or null |
| Recording.RecordedStubServesIff | internal/recording/store.go:157-243 | The stub of a recorded request that replays matches another request exactly when that has its method but for case (or the recorded method is ANY), its target and query, each captured header with the captured value, and, where a body was captured, a body of the same JSON value |
| Recording.AnyServesAll | internal/recording/store.go:193-196 | A concrete request with the method ANY, whose stub also matches a DELETE |
| Recording.EscapedPathMisses | internal/recording/store.go:197-198 | A concrete request, with an escaped space and a query, that its own stub misses |
| Recording.QueryByteMisses | internal/recording/store.go:172-181 | A concrete request, with a query byte that is not UTF-8, that its own stub misses |
| Recording.NullBodyMisses | internal/recording/store.go:228-243 | A concrete request, with the body null, that its own stub misses |
| Recording.KelvinNameMisses | internal/recording/store.go:333-343 | A concrete request whose header is captured under a name with a Kelvin sign, and which its own stub misses |
| Recording.BodyReplays | internal/matcher/request.go:199-210 | A recorded body normalises to itself again exactly when it is neither a JSON string nor null |
| Recording.StopRecording | internal/server/admin.go:151-184 | Stopping ends the recording and, if every event gives a valid stub, posts exactly those stubs in order; otherwise the server is unchanged |
| Recording.PostedStay | internal/server/admin.go:179-184 | Stubs activated one after the other under different ids are all stored at the end, unchanged |
| Recording.ServedAfterActivation | internal/server/admin.go:179-184 | After new stubs without scenarios are activated, any request is served the first of lowest priority among the stubs eligible before and the new stubs that match |
| Recording.RecordedRequestsAreServed | internal/server/admin.go:151-184 | End to end: a recorded request that replays is served after the recording is stopped, whatever the server held; if nothing served it before, by the stub built from the first recorded event whose stub matches it, with the response recorded for that event, its own unless an earlier one matches too |
| RecordedResponse.ResponseReplaysIff | internal/recording/store.go:245-302 | A recorded response comes back with its status and its headers, but for the empty ones and Content-Length, Connection, Date and Transfer-Encoding, exactly when they are UTF-8. A body that does not say it is JSON, or is not, comes back byte for byte; one that is comes back as text that reads as the same value, with numbers as float64 |
| RecordedResponse.ExcludedIff | internal/recording/store.go:312-319 | Of canonical header names exactly those four are dropped |
| RecordedResponse.JsonSaysSo | internal/server/runtime.go:288-298 | A JSON response is never sent without a Content-Type: one that has none gets application/json, and nothing else is added |
| RecordedResponse.DefinedIff | internal/mapping/model.go:595-668 | A recorded response is accepted as a stub response exactly when its status has three digits |
| RecordedResponse.RepairedHeadersIff | internal/recording/store.go:269-287 | Recorded headers survive their JSON text exactly when all their values are UTF-8 |
| RecordedResponse.JsonBodiesReplayAlikeIff | internal/recording/store.go:254-260 | Two recorded JSON bodies are replayed as one text exactly when they are one value, but for the order of object entries and for numbers that read as one float64 |
| RecordedResponse.LargeNumberChanges | internal/recording/store.go:254-260 | The recorded body with the number 9007199254740993 is replayed with 9007199254740992 |
| Base64.DecodeEncode | internal/recording/store.go:266-266 | Decoding the base64 text of any bytes gives them back |
| Base64.TestVectors | internal/recording/store.go:266-266 | Test vectors of section 10 of RFC 4648 |
| Recording.Store.Start | internal/recording/store.go:77-90 | Starts an empty recording, replacing a running one |
| Recording.Store.Stop | internal/recording/store.go:92-105 | Ends the recording and returns the stubs of exactly the events recorded since Start; an error without a recording |
| Recording.Store.AddEvent | internal/recording/store.go:133-155 | Keeps the last 1000 events of all, and adds a recording event to the running recording only |
| Recording.LastOf | internal/recording/store.go:143-151 | The events kept are the latest, at most as many as configured |
| Recording.SnapshotStubs | internal/recording/store.go:157-170 | A snapshot is one stub per event, in order, and fails exactly when some event gives no valid stub |
| Recording.BuildSnapshot | internal/recording/store.go:157-170 | The loop builds that snapshot |
| Recording.Store.Snapshot | internal/recording/store.go:107-113 | A snapshot without a recording is built from the last 1000 events of all |
| RequestBody.RequestBodyCache.Bytes | internal/server/runtime.go:206-216 | The stream is read at most once, and every call returns what that one reading gave |
| RequestBody.RequestBodyCache.Context | internal/server/runtime.go:218-228 | There is a context exactly for a readable body; it holds the whole body and is the same object every time |
| RequestBody.RequestBodyCache.BytesForRecording | internal/server/runtime.go:230-242 | Recording keeps the whole body if it has been read before, or if it is announced and readable; otherwise nothing |
| RequestBody.BodyContext.Parsed | internal/matcher/request.go:140-149 | Parsing is done once, and every call answers as parsing the raw body does |
| RequestBody.ServeAndRecord | internal/server/runtime.go:33-90 | Matching, rendering and recording of one request see one and the same body, whichever of them look at it; a body that rendering needs and cannot read ends the request unrecorded |
| Dribble.SplitBodyLoop | internal/server/runtime.go:346-362 | The loops produce the parts of the specification, or stop where slicing would panic, for all bodies and chunk counts |
| Dribble.SplitEvenly | internal/server/runtime.go:355-361 | For 2 <= chunks < len: exactly `chunks` non-empty parts whose sizes differ by at most one and which concatenate to the body |
| Dribble.SplitCorrectIff | internal/server/runtime.go:346-362 | For every body and number of chunks, the parts concatenate to the body exactly when there is nothing to multiply or len * chunks fits in 64 bits |
| Dribble.SafeSizeIff | internal/server/runtime.go:355-361 | A body splits rightly into every number of chunks exactly when it has at most 3,037,000,500 bytes |
| Dribble.LargeBodyPanics | internal/server/runtime.go:355-361 | One byte more, and one chunk less than bytes: the last cut is negative and slicing panics |
| Dribble.WriteResponseBody | internal/server/runtime.go:315-344 | Panics exactly where splitting does; on success everything is sent, on failure a prefix; where the products fit that is the body, with min(chunks, len) - 1 pauses of the interval |
| Dribble.WritePart | internal/server/runtime.go:327-341 | One turn of the loop: skip an empty part; else write, flush, and pause unless it was the last part |
| Dribble.PausesMeetTotal | internal/delay/delay.go:45-56 | The pauses never take longer than the configured total; with chunks <= len they fall short by fewer nanoseconds than there are pauses exactly when the total fits in 64 bits |
| GrpcFrame.EncodeGRPCFrame | internal/server/grpc_runtime.go:196-201 | Fills a fresh buffer with a zero flag, the big-endian length and the payload |
| GrpcFrame.FrameLayout | internal/server/grpc_runtime.go:196-201 | A frame is a zero byte, the length of the payload in four bytes with the most significant first, and the payload |
| GrpcFrame.RoundTripIff | internal/server/grpc_runtime.go:177-201 | Decoding an encoded payload gives it back exactly when it is shorter than 2^32 bytes; a longer one is refused |
| GrpcFrame.AcceptedIsEncoded | internal/server/grpc_runtime.go:177-194 | Every accepted frame is exactly the encoding of the payload returned |

## Left out

- Which characters beyond ASCII are printable (`strconv.IsPrint`) is left open (`GraphQLTokens.Printable`); the theorems hold for any choice.
- GraphQL block strings keep their raw contents, as the code does: escapes and indentation inside them are not interpreted there either. Absent and empty argument, variable and directive lists mean the same, as their canonical texts do.
- Regular expressions for URL patterns, JSON validation and decoding, float parsing, media type parsing, the texts `json.Marshal` writes for a number (as it was decoded, or as the float64 it reads as), and the custom matcher's verdict are parameters (`Matching.Library`); theorems hold whatever they answer, save for the laws named next. `GraphQLMatcher.GraphQLBodyMatcher.Matches` is the custom matcher proved separately.
- Matching.EqualToJsonIff: assumes that decoded objects do not repeat a key and that numbers are written with number characters (`Matching.DecodesJSON`); which literals are the same number is left to the parameter.
- Recording.RecordedStubMatchesIff: assumes in addition (`Recording.JSONLaws`) that no text is a string literal for itself, that the empty text is not JSON, and that decoding replaces bytes that are not UTF-8 as encoding does; and of the request (`Recording.Delivered`) what net/http and net/url deliver.
- Recording.Store.Start: the validation of the target URL happens before the step and is not modelled; nor are event times, names of stubs, and the status header that gRPC responses get on top.
- The base64 decoder of the model takes what the encoder writes; the line breaks inside a text that `encoding/base64` skips are refused, and no recorded text has any.
- The template helper pattern is matched by a concrete matcher for that one regular expression, ASCII white space included; `stringify` and the escaping inside JSON bodies are one function parameter.
- A template with a helper path that panics (`Template.CompileLoop`) is never rendered, since the panic comes while its stub is parsed; the rendering functions treat such a path as one that does not compile.
- Matching.BodyPatternMatches sees a body in one order for all patterns of a request, and the run theorems with it; by `JsonOrder.ValuesIgnoreOrder` the order matters only to filters that have a wildcard in their own path.
- MappingStore.Store.Create: sequence numbers are unbounded, where the source counts in 64 bits. Names, metadata and raw JSON of a mapping are not carried; of a response definition, status, headers and body are.
- MappingStore.Store.Publish: snapshots are values, so that a published one never changes is a matter of type and not a theorem. The loop's skip of an id without a mapping is left out, since the invariant proves there is none.
- Server.RunServesAsSpecified: a request reads one published snapshot and one scenario state, and an admin call is one atomic step; the source loads the snapshot twice per request and updates its two stores one after the other, so interleavings inside one call are not modelled.
- Dribble.WriteResponseBody: the writer is taken to flush; cancelled sleeps appear only as failing operations.
- Random and fixed initial delays, proxying, response files, HTTP handlers, status codes and error texts, TLS, configuration, logging and identifiers: input and output, or single-branch checks.
- Protobuf descriptors and the JSON form of protobuf messages: their meaning sits in libraries; only the frame around a message is modelled.
- Of the text of a JSON body, `JsonReader` reads what `json.Marshal` writes, which has no white space; how the source decodes texts in general is a parameter.
- Which of its errors the GraphQL parser reports is specified by the grammar of the model alone; a stub or a request is refused for any of them.
