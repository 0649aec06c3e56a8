# Routing core: compilation, dispatch and reverse routing

A Dafny model of the route compiler and dispatcher of the `yusukezzz/routing`
PHP library.

- **Registration.** `RouteDataGenerator` registers routes. A route whose pattern is a single literal
  string goes into a table keyed by path, then by method. Any other route is
  compiled into a regex fragment and a list of placeholder names. The fragment
  is the quoted literals plus one `([^/]+)` group per placeholder. These routes
  are buffered per method, in insertion order. Registration rejects:
  - a second route for the same (path, method);
  - a literal path that an earlier variable route of the method matches in full;
  - a fragment already registered for the method;
  - a placeholder name used twice.
- **Compilation.** `getData` splits each method's variable routes into chunks. The chunk size
  is `ceil(n / max(1, round(n / 10)))`. Each chunk becomes one branch-reset
  alternation `~^(?|alt_0|alt_1|...)$~`. Each branch is padded with empty
  `()` groups so that its group count plus one is a fresh key. The chunk's
  route map sends that key back to the route.
- **Dispatch.** `Dispatcher::dispatch` and its copy `RouteMatcher::match` answer a (method,
  uri) request:
  - The static table is consulted first, with HEAD falling back to GET.
  - Next the method's chunks are scanned, or GET's for a HEAD request with no
    variable routes. The first matching chunk picks its route by
    `count($matches)` and binds names to captures by position.
  - Otherwise every other method is tried, to tell "method not allowed" from
    "not found".
- **Reverse routing.** `Router::urlFor` looks a route up by name. It then checks that every
  placeholder has a non-null parameter and substitutes the values into the raw
  pattern.

## How the model is organised

| file | module | what it holds |
|---|---|---|
| `wrappers.dfy`, `seqs.dfy` | `Wrappers`, `Seqs` | `Option`/`Result`, distinctness, flattening |
| `assoc.dfy` | `Assoc` | PHP ordered arrays as association lists: `Keys`, `Get`, `Put` |
| `pattern.dfy` | `Pattern` | tokens, fragments, `isStaticRoute`, `buildRegexForRoute` |
| `matching.dfy` | `Matching` | the greedy backtracking matcher and its specification `FullMatch` |
| `route.dfy` | `Routes` | the `Route` entity, `matches`, positional binding, the first-match scan |
| `route_tables.dfy` | `RouteTables` | compiled route data and `preg_match` on a branch-reset chunk |
| `route_data_generator.dfy` | `RouteDataGenerator` | registration, chunk sizing, `processChunk`, `getData` |
| `dispatcher.dfy` | `Dispatcher` | `dispatch` and its helpers |
| `route_matcher.dfy` | `RouteMatcher` | `RouteMatcher` as loops; each method equals its `Dispatcher` counterpart |
| `correctness.dfy` | `Correctness` | the capture-count argument; dispatch equals scanning registrations |
| `router.dfy` | `Router` | `urlFor`, as written and corrected |
| `scenarios.dfy` | `Scenarios` | the behaviours the repository's tests exercise |

Modelling choices:

- A regex fragment is a sequence of pieces: `Ch(c)` per literal character and
  `Cap` per `([^/]+)` group. `preg_quote` escapes character by character and is
  injective, so two fragments are equal exactly when the regex strings are.
- `Match` is a deterministic greedy backtracking matcher. Each group first takes
  the longest run without `/`, then gives characters back. `MatchIffFullMatch`
  proves that `Match` succeeds exactly on the strings the fragment spells with
  some choice of non-empty, slash-free captures.
- Branch reset: when branch `i` of a chunk matches, `$matches` is the uri, that
  branch's captures and its padding groups (each `""`). Its length is therefore
  `1 + groups + padding` whatever the other branches contain
  (`RouteTables.MatchChunk`). All the padding groups take part in the match, so
  PHP trims none of them from the end of `$matches`.
- `setVariables` mutates a shared route. The model returns the route together
  with its bindings (`Bound`) instead.
- Errors are values:
  - registration errors: `RouteError`;
  - dispatch errors: `NotFound` / `MethodNotAllowed(allowed)`;
  - reverse-routing errors: `UnknownRoute` / `MissingVariable`.
- `round($count / 10)` on a non-negative count is `(count + 5) / 10`, and
  `ceil(a / b)` is `(a + b - 1) / b`. Both are modelled in integers.

Behaviour of the code that the model keeps as it is:

- When the uri is a key of the static table, "method not allowed" lists that
  path's methods only. Variable routes of other methods that also match the uri
  are not consulted (src/Dispatcher.php:27-28, 75-86).
- "Not found" and the allowed list look only at variable routes. Static routes
  of other paths never contribute.
- The parameter check of `urlFor` is `isset`. An empty-string value passes it;
  only a missing key or `null` fails (`Router.IsSet`).
- `RouteMatcher::matchVariableRoute` calls `$route->getVariableNames()`
  (src/RouteMatcher.php:113). The `Route` class shown defines only
  `variableNames()`. `RouteMatcher` lives in another namespace and was evidently
  written against a `Route` class with that accessor. The model reads the call
  as returning the route's declared placeholder names.

## Model

| member | source | states |
|---|---|---|
| Assoc.Put | src/RouteDataGenerator.php:132 | assigning to a PHP array key: the key now maps to the value, every other key keeps its value, an existing key keeps its position and a new key is appended; distinct keys stay distinct |
| Assoc.Get | src/Dispatcher.php:79 | `isset($a[$k])` holds exactly when `k` is one of the array's keys |
| Pattern.BuildRegexForRoute | src/RouteDataGenerator.php:151-174 | compilation fails exactly when some placeholder name repeats, and then reports the first name that repeats an earlier one; otherwise the fragment is the quoted literals and one group per placeholder in order, the names are in first-occurrence order, and there are as many groups as names |
| Pattern.CapCountEscape | src/RouteDataGenerator.php:155-171 | a compiled pattern has exactly one capturing group per placeholder |
| Pattern.EscapeAppend | src/RouteDataGenerator.php:155-171 | compiling a concatenation of token lists gives the concatenation of the fragments and of the name lists |
| Matching.Match | src/Route.php:96-97 | a successful anchored match yields one capture per group, each a non-empty run without `/`, that spell the whole string |
| Matching.TryCap | src/Route.php:96-97 | a group tried at lengths `k` down to 1: the capture is a prefix of at most `k` characters without `/` and the rest matches what follows; it fails exactly when no length from 1 to `k` lets the rest match |
| Matching.MatchComplete | src/Route.php:94-98 | every way of spelling the string with slash-free captures is found by the matcher, so backtracking never misses a match |
| Matching.MatchIffFullMatch | src/Route.php:94-98 | the matcher succeeds exactly when the whole string is an instance of the fragment |
| Matching.RenderQuote | src/RouteDataGenerator.php:157 | a `preg_quote`d literal followed by a fragment matches the literal's own characters and then what the fragment spells |
| Matching.RenderUnique | src/Dispatcher.php:104-108 | when every group ends the fragment or is followed by `/`, the captures that spell a string are unique |
| Matching.MatchRecoversCaptures | src/Dispatcher.php:97-108 | on such a fragment, matching the spelled string gives back exactly the captures it was spelled with |
| Routes.SetVariablesLastWins | src/Route.php:67-70 | setting variables replaces the previous bindings wholesale; on a route never bound, the variables afterwards are exactly the ones set |
| Routes.Matches | src/Route.php:94-98 | `matches` is true exactly when the fragment spells the entire string, never a prefix or suffix of it |
| Routes.Bind | src/Dispatcher.php:104-108 | the bindings list the route's names in declared order, the i-th bound to the i-th captured group |
| Routes.BindIgnoresExtra | src/Dispatcher.php:106-108 | groups past the last name, such as padding groups, are never bound |
| Routes.FirstMatchSpec | src/Dispatcher.php:96-113 | scanning routes in order finds nothing exactly when none matches the whole uri; otherwise it returns the earliest that matches, its names bound to captures that spell the uri |
| Routes.FirstMatchAppend | src/RouteDataGenerator.php:88 | scanning a list split into two consecutive parts is scanning the first part, then the second if the first finds nothing |
| RouteTables.MatchChunk | src/RouteDataGenerator.php:79 | when a chunk's branch-reset pattern matches, `count($matches)` is the group count of one of its branches plus one |
| RouteTables.MatchChunkSpec | src/RouteDataGenerator.php:79 | a chunk pattern fails exactly when no branch matches the whole uri; otherwise `$matches` is the uri, the first matching branch's captures and empty strings for its padding |
| Dispatcher.DispatchStaticRoute | src/Dispatcher.php:75-86 | a literal path answers with the exact method's route, else GET's for HEAD, with no variables; it fails exactly when neither exists, and then lists the path's methods in registration order, the requested one not among them |
| Dispatcher.SelectRouteSpec | src/Dispatcher.php:97-108 | a chunk selects nothing exactly when no branch matches; otherwise it selects the route recorded under the first matching branch's count and binds its names to that branch's groups |
| Dispatcher.DispatchVariableRoute | src/Dispatcher.php:94-114 | `null` exactly when no chunk selects a route; a returned route's bindings have exactly its placeholder names as keys |
| Dispatcher.ChunksFor | src/Dispatcher.php:32-33 | a method has chunks exactly when it is a key of the variable data |
| Dispatcher.AllowedMethods | src/Dispatcher.php:50-53 | the requested method is never on its own allowed list |
| Dispatcher.MatchingMethodAllowed | src/Dispatcher.php:50-58 | every other method whose chunks match the uri is on the allowed list |
| Dispatcher.AllowedMethodsMatch | src/Dispatcher.php:50-58 | every method on the allowed list is another method whose chunks match the uri |
| Dispatcher.FindAllowedMethods | src/Dispatcher.php:47-67 | "not found" (carrying the uri) exactly when no other method's chunks match; otherwise "method not allowed" with a non-empty list that leaves out the requested method |
| Dispatcher.FindVariableRoute | src/Dispatcher.php:31-42 | a route found for the method, or for GET on a HEAD request, comes back with exactly its placeholder names bound; `Correctness.FoundIsReference` states which route it is |
| Dispatcher.Dispatch | src/Dispatcher.php:25-45 | a uri in the static table is answered by its entry alone; a variable route comes back with exactly its names bound; "method not allowed" never lists the requested method; "not found" means the uri is not static and no other method's chunks match |
| RouteMatcher.BindVariables | src/RouteMatcher.php:111-115 | the assignment loop builds the positional bindings: name i to group i |
| RouteMatcher.MatchVariableRoute | src/RouteMatcher.php:100-121 | the loop that breaks at the first matching chunk returns what `Dispatcher::dispatchVariableRoute` returns |
| RouteMatcher.FindAllowedMethods | src/RouteMatcher.php:60-75 | the accumulated list is `Dispatcher`'s allowed list, in the same order |
| RouteMatcher.MatchStaticRoute | src/RouteMatcher.php:82-93 | the same answer as `Dispatcher::dispatchStaticRoute` |
| RouteMatcher.Match | src/RouteMatcher.php:25-52 | `match` gives the same outcome as `Dispatcher::dispatch` on the same route data |
| RouteDataGenerator.FirstShadowing | src/RouteDataGenerator.php:116-126 | finds a route exactly when some registered variable route of the method matches the whole literal path, and then returns the first such route in registration (`foreach`) order |
| RouteDataGenerator.AddStaticRoute | src/RouteDataGenerator.php:105-133 | a (path, method) pair already present fails as a duplicate; otherwise it fails exactly when an earlier variable route of the method matches the path in full, and then the error names the path, the regex of the first such route in registration order, and the method; on success the literal route is stored under (path, method), every other cell entry is unchanged and the variable routes and names are untouched |
| RouteDataGenerator.AddVariableRoute | src/RouteDataGenerator.php:135-149 | fails exactly when a placeholder name repeats or the fragment is already registered for the method; on success the new route, carrying the compiled fragment and names, is appended to that method's list and nothing else changes |
| RouteDataGenerator.AddRoute | src/RouteDataGenerator.php:25-36 | registration keeps the tables well formed; a given name then returns the new route and every other name keeps its route, so re-registering a name overwrites it |
| RouteDataGenerator.AddStaticPreservesValid | src/RouteDataGenerator.php:105-133 | a stored literal route keeps every static cell non-empty, keyed by distinct methods and holding literal routes of their own method |
| RouteDataGenerator.AddVariablePreservesValid | src/RouteDataGenerator.php:135-149 | an appended variable route keeps every method's list well formed, of that method and free of repeated fragments |
| RouteDataGenerator.NumParts | src/RouteDataGenerator.php:96 | at least 1, and `round(count / 10)` rounding halves up: for counts from 5 on, the half-up bracket around `count / 10`; below 15, exactly 1 |
| RouteDataGenerator.ComputeChunkSize | src/RouteDataGenerator.php:94-98 | the ceiling of `count / numParts`: `numParts` chunks of that size cover the count and one less would not; between 1 and the count for a positive count |
| RouteDataGenerator.ChunkSizeAtMost14 | src/RouteDataGenerator.php:94-98 | a chunk never holds more than 14 routes |
| RouteDataGenerator.ArrayChunk | src/RouteDataGenerator.php:88 | the chunks concatenate back to the list in order, each holds 1 to `size` routes, all but the last exactly `size` |
| RouteDataGenerator.ProcessFrom | src/RouteDataGenerator.php:64-81 | one branch per route, and every recorded key exceeds the group count the loop started from |
| RouteDataGenerator.ProcessFromRecordsRoutes | src/RouteDataGenerator.php:70-74 | every route of a chunk is in the route map under its padded group count plus one |
| RouteDataGenerator.ProcessFromKeysIncrease | src/RouteDataGenerator.php:69-77 | keys strictly increase along the chunk, so no route overwrites another in the route map |
| RouteDataGenerator.ProcessFromRegex | src/RouteDataGenerator.php:73 | branch i is route i's own fragment |
| RouteDataGenerator.ProcessFromOnlyRecorded | src/RouteDataGenerator.php:64-81 | the route map holds no key other than the routes' recorded keys |
| RouteDataGenerator.ProcessChunk | src/RouteDataGenerator.php:64-81 | in a processed chunk, every branch's `count($matches)` is a key of the route map, and the route there has fewer names than that count and no name twice |
| RouteDataGenerator.CompileRoutes | src/RouteDataGenerator.php:86-89 | a method's routes become between 1 and `numParts` well-formed chunks |
| RouteDataGenerator.ChunkCountAtMostParts | src/RouteDataGenerator.php:94-98 | splitting with the computed size never yields more chunks than `numParts` |
| RouteDataGenerator.GenerateVariableRouteData | src/RouteDataGenerator.php:83-92 | one entry per method, in the method order of registration, each holding that method's compiled routes |
| RouteDataGenerator.GetData | src/RouteDataGenerator.php:51-58 | the static table is handed over unchanged; the variable data is empty when no variable route exists and otherwise has one well-formed entry per method |
| Correctness.CaptureCountFrom | src/RouteDataGenerator.php:64-81 | the branch-reset argument: when a chunk built from routes matches, `count($matches)` is the key of the first route that matches, and the leading groups are its captures |
| Correctness.CaptureCountIdentifiesRoute | src/Dispatcher.php:97-108 | a processed chunk selects exactly the first of its routes that matches, with the same bindings |
| Correctness.ChunksScanInOrder | src/Dispatcher.php:96-113 | scanning processed chunks in order is scanning all their routes in order |
| Correctness.CompiledRoutesAreFirstMatch | src/RouteDataGenerator.php:86-89 | chunking a method's routes is invisible: dispatching its chunks gives the first registered route that matches |
| Correctness.AllowedMethodsCompiled | src/Dispatcher.php:47-59 | the allowed list over compiled data is the list of other methods whose registered routes match, in method order |
| Correctness.ChunksForCompiled | src/RouteDataGenerator.php:86-90 | a method has chunks in `getData` exactly when it has variable routes, and they are those routes compiled |
| Correctness.FoundIsReference | src/Dispatcher.php:31-42 | the variable lookup scans the method's routes, or GET's for HEAD only when HEAD has no variable routes, and returns the first registered match |
| Correctness.AllowedIsReference | src/Dispatcher.php:47-59 | the allowed list computed on compiled data equals the reference list computed on the registrations |
| Correctness.DispatchIsReference | src/Dispatcher.php:25-45 | dispatching compiled data is the reference dispatch over the registrations |
| Correctness.ReferenceAllowedSpec | src/Dispatcher.php:50-58 | a method is on the reference allowed list exactly when it is another method with a matching registered route |
| Correctness.DispatchFindsFirstRegistered | src/Dispatcher.php:31-42 | for a non-static uri, dispatch succeeds exactly when one of the candidate routes matches, and returns the earliest registered one with its names bound to captures that spell the uri |
| Correctness.NotFoundIffNoRouteMatches | src/Dispatcher.php:61-66 | for a non-static uri, "not found" exactly when no variable route of any method matches it |
| Correctness.MethodNotAllowedListsMatchingMethods | src/Dispatcher.php:47-63 | for a non-static uri, a "method not allowed" answer lists exactly the other methods with a matching variable route |
| Correctness.HeadAnsweredAsGet | src/Dispatcher.php:37-41 | with no HEAD variable routes and no HEAD entry for the path, HEAD is answered as GET whenever GET finds a route |
| Router.FirstMissing | src/Router.php:108-111 | none exactly when every name is set; otherwise the first name, in declared order, that is absent or null |
| Router.CheckedRoute | src/Router.php:102-111 | unknown name gives an unknown-route error naming it; otherwise it succeeds exactly when every variable is set, and otherwise reports the first missing variable with the route's name |
| Router.CloseAt | src/Router.php:112 | the lazy `.*?\}` ends at the first `}`, and fails when a line break comes before every `}` |
| Router.PatternAt | src/Router.php:112 | `#\{key:?.*?\}#` matches at a position only over `{`, the key and text up to a `}`; the key is read literally, which is exact for names of letters, digits, `_` and `-` |
| Router.ParamValues | src/Router.php:115 | the replacement values are the parameters' values in the parameters' own order, null as "" |
| Router.UrlForAsWritten | src/Router.php:100-116 | fails exactly as the checks do; for a route without variables the result is its raw uri (the general result is `Router.UrlForAsWrittenPositional`) |
| Router.UrlFor | src/Router.php:100-116 | fails exactly as the checks do, with the same error |
| Router.ReplacePass | src/Router.php:112-115 | one `preg_replace` pass of `#\{key:?.*?\}#` over a printed pattern replaces exactly the placeholders named `key` and copies everything else, provided `key` is not a proper prefix of a placeholder name and literals hold no `{`; the key is read literally, which is exact for names of letters, digits, `_` and `-` |
| Router.PregReplacePrint | src/Router.php:112-115 | `preg_replace` with one pattern per variable is the chain of those passes, the k-th pattern taking the k-th replacement or "" once the replacements run out; the key is read literally, which is exact for names of letters, digits, `_` and `-` |
| Router.PrintReplaced | src/Router.php:112-115 | after the chain of passes, the placeholder of the i-th variable holds the i-th replacement, so the result spells the route's fragment with the replacements in its groups by position |
| Router.UrlForAsWrittenPositional | src/Router.php:100-116 | as written, for every route whose variable names are not prefixes of one another and every `$params` whose values hold no `{`: the URL is the pattern with the i-th placeholder replaced by the i-th value of `$params`, in the parameters' own order and whatever their names, or by "" once the values run out; the key is read literally, which is exact for names of letters, digits, `_` and `-` |
| Router.AsWrittenAgreesInDeclaredOrder | src/Router.php:100-116 | as written and corrected agree when `$params` lists the route's variables first, in declared order |
| Router.SubstituteLiteral | src/Router.php:115 | literal text outside placeholders is preserved |
| Router.SubstitutePlaceholder | src/Router.php:112-115 | a `{name}` placeholder becomes the value of `name` |
| Router.SubstitutePrint | src/Router.php:112-115 | substituting into a printed pattern spells the route's fragment with each group replaced by its variable's value |
| Router.UrlForRoundTrip | src/Router.php:100-116 | once every variable is set the URL is built, and when every value is a non-empty run without `/` the route matches the URL |
| Router.UrlForDispatchesBack | src/Router.php:100-116 | when placeholders are separated by `/`, matching the built URL against its route binds every variable to the parameter it was built from |
| Router.StaticRouteUrl | src/Router.php:115 | a named literal route's URL is its raw uri, whatever the parameters |
| Router.ParamOrderSwapsSegments | src/Router.php:115 | as written, the same parameters listed `id` first give `/hoge/123/aiueo`; corrected, `/hoge/aiueo/123` |
| Router.HogeAsWritten | src/Router.php:112-115 | as written, `/hoge/{string}/{id}` takes the first parameter value for `{string}` and the second for `{id}` |
| Router.HogeCorrected | src/Router.php:112-115 | corrected, each placeholder of `/hoge/{string}/{id}` takes its own parameter |
| Router.PrefixNameCapturesLongerName | src/Router.php:112 | as written, `/{id}/{idx}` with `id=1, idx=2` gives `/1/1`; corrected, `/1/2` |
| Router.IdxAsWritten | src/Router.php:112-115 | as written, the `{id}` pattern also replaces `{idx}` |
| Router.IdxCorrected | src/Router.php:112-115 | corrected, each placeholder of `/{id}/{idx}` takes its own parameter |
| Scenarios.LiteralRouteAnswers | test/RouterTest.php:20-30 | a GET route for `/hoge` answers a GET request for `/hoge`, with no variables |
| Scenarios.VariableRouteBindsSegments | test/RouterTest.php:32-43 | `/hoge/{var1}/{var2}` answers `/hoge/a/b`, for any two segments, with `var1 = a` and `var2 = b` |
| Scenarios.EmptyRouterFindsNothing | test/RouterTest.php:49-52 | with nothing registered every request is not found |
| Scenarios.StaticPathListsItsMethods | test/RouterTest.php:58-64 | GET and POST on `/hoge`, then PUT: method not allowed, listing GET then POST |
| Scenarios.UrlForLiteralRoute | test/RouterTest.php:66-73 | a named literal route's URL is its path |
| Scenarios.UrlForVariableRoute | test/RouterTest.php:75-82 | `/hoge/{string}/{id}` with `string=aiueo, id=123` gives `/hoge/aiueo/123` |
| Scenarios.UrlForUnknownName | test/RouterTest.php:88-91 | an unregistered name fails with an unknown-route error naming it |
| Scenarios.UrlForMissingParameter | test/RouterTest.php:97-113 | `/{param}` with no `param`, or with `param => null`, fails naming `param` and the route |

## Left out

- PCRE is replaced by a matcher for the default placeholder `[^/]+` only.
  Custom placeholder expressions (`{name:expr}`) and inner capturing groups are
  not modelled.
- PCRE matches bytes: the patterns carry no `/u` modifier
  (src/Route.php:96-97, src/RouteDataGenerator.php:79-80). The model matches
  characters. They differ when adjacent placeholders meet non-ASCII text. For
  example, `/{a}{b}` matches `/é` in PCRE, which splits the two bytes of `é`
  between the groups. The model finds no match and answers "not found".
- `preg_match` returns false when it reaches `pcre.backtrack_limit`, and the
  code treats that as no match. The model's matcher always finishes, so it
  never gives up on a uri that adjacent groups make expensive to match.
- PCRE's `$` also matches before a final `"\n"`. The model's anchor is the
  exact end of the string.
- The route parser is not part of this model. Patterns arrive as token lists,
  and for `urlFor` the raw pattern is the printed form of its tokens.
- Handlers are opaque values. `RouteHandler`/`RouteHandlerInterface` and the
  invocation of the handler are foreign calls, not modelled.
- `Router::handle`, `getCurrentRoute`, `addRoute` and the `get`/`post`/...
  wrappers are glue around parsing, registration and dispatch.
- Exception classes and message texts are replaced by error values carrying the
  same data.
- PHP's integer-like string keys are not modelled. A key such as `"123"` in a
  PHP array becomes an integer key, and this changes nothing observable here.
- Integer `urlFor` parameters are not modelled. In `['id' => 123]`,
  `preg_replace` turns 123 into the text `"123"`, and the model takes
  parameter values as strings.
- `$n` and `\n` back-references inside replacement values are not modelled.
  `preg_replace` would expand them; the model copies values verbatim.
- Registering after `getData`, and the mutation of shared `Route` objects by
  `setVariables`, are not modelled. Bindings are returned beside the route
  instead.
- Router.PatternAt: compares the key with the text character by character.
  The code splices `$key` into `#\{key:?.*?\}#` without `preg_quote`
  (src/Router.php:112), so PCRE reads the name as a regex. The two agree for
  names made of letters, digits, `_` and `-`. They differ for names holding a
  PCRE metacharacter or the `#` delimiter. For `{a.b}`, PCRE also replaces
  `{axb}`. A name with `*` matches other placeholders too. A name with `#`
  ends the pattern early, so `preg_replace` fails and returns null. PCRE is
  not modelled, so the model cannot state these cases.
- Router.UrlForAsWritten: inherits the literal key comparison of
  `Router.PatternAt`. It is exact only when every variable name is made of
  letters, digits, `_` and `-`.
- Router.ReplacePass: inherits the literal key comparison of
  `Router.PatternAt`. For a key with a PCRE metacharacter, such as `a.b`, the
  code's pass also replaces placeholders the key matches as a regex (`{axb}`).
  The lemma states only the literal reading.
- Router.PregReplacePrint: chains `Router.ReplacePass`, so it states the
  literal reading of every key. It is exact only for names made of letters,
  digits, `_` and `-`.
- Router.UrlForAsWrittenPositional: its requires admit names with PCRE
  metacharacters. For those names it states the model's literal reading, not
  what PCRE produces. For example, `/{a.b}/{axb}` with values `1`, `2` is
  `/1/2` in the model but `/1/1` in the code. The statement is exact when
  every name is made of letters, digits, `_` and `-`.
- Matching.TryCap: does not state that the capture it keeps is the longest
  that works. Only its correctness and its failure condition are stated.
- Routes.Matches: the regex text `~^...$~` is not built; matching is stated on
  the fragment directly.

## Findings

| source | as written | input that shows it | evidently intended | confidence | as-written member | corrected member |
|---|---|---|---|---|---|---|
| src/Router.php:115 | `preg_replace` pairs the k-th placeholder pattern with the k-th value of `$params`, in the parameters' own order, not by name | `/hoge/{string}/{id}` with `['id' => '123', 'string' => 'aiueo']` gives `/hoge/123/aiueo` | each placeholder replaced by the parameter of its own name: `/hoge/aiueo/123` | not executed | Router.ParamOrderSwapsSegments | Router.UrlForDispatchesBack |
| src/Router.php:112 | the pattern `#\{id:?.*?\}#` also matches `{idx}`, since `:?` is optional and `.*?` runs to the next `}` | `/{id}/{idx}` with `['id' => '1', 'idx' => '2']` gives `/1/1` | `{id}` alone replaced by `id`'s value: `/1/2` | not executed | Router.PrefixNameCapturesLongerName | Router.UrlForRoundTrip |

In both rows the code as written is `Router.UrlForAsWritten`.
`Router.UrlForAsWrittenPositional` states its positional pairing for every route
whose names are not prefixes of one another. The corrected
`Router.UrlFor` replaces each `{name}` or `{name:...}` placeholder by the value of
its own name. The round trip is proved for the corrected definition:
`UrlForRoundTrip` shows that the route matches the URL it builds, and
`UrlForDispatchesBack` shows that matching binds every variable back to its
parameter.
