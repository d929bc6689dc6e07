# The rework engine of resolve-url-loader, in Dafny

This project models `process` in `lib/engine/rework.js`. `process` parses compiled
CSS, visits every declaration list of the syntax tree in document order, and
rewrites each declaration whose value contains `url`. The rewrite uses the
directory of the original source file that the source-map consumer gives for
the declaration's start position. It then serialises the tree. When a source
map is requested, it relativises the generated map's `sources` and stamps
its `sourceRoot`.

The model has three modules:

- `UrlRewrite` (`url_rewrite.dfy`) is the decision stated on values.
  - `IsCandidate` is the candidate test. It is built on `IndexOf`, a model of `String.prototype.indexOf`.
  - `Directory` is the truthiness of `startPosOriginal && startPosOriginal.source && path.dirname(...)`.
  - `Visit` decides one declaration. The outcome is `Keep`, `Rewrite(newValue)` or `Fatal`.
  - `Walk` is the traversal of all declarations in document order. It stops at the first fatal declaration.
- `Rework` (`rework.dfy`) is the imperative plugin.
  - Declarations are objects of class `Declaration`. The field `value` is mutable and `start` is fixed.
  - `EachDeclaration` overwrites one value in place, or returns the error it throws.
  - `VisitList` is `declarations.forEach(eachDeclaration)`.
  - `ReworkPlugin` calls the visitor with each list of the stylesheet in order and skips absent lists.
  - `VisitList` and `ReworkPlugin` are proved to leave the declarations' values equal to `Walk` of their old values, and to throw exactly when `Walk` aborts. `EachDeclaration` is proved to apply `Visit`'s decision to the old value, and to throw exactly when that decision is fatal.
- `Engine` (`process.dfy`) is `process` itself.
  - A parse error and the visitor's throw are caught and returned as `Failure`.
  - Otherwise the result is `Output(content, map)`. The map is absent when no source map is requested.
  - When a map is requested, the `SourceMap` object's `sources` field is reassigned with the relativised sources, and `sourceRoot` is assigned `params.sourceRoot` verbatim.
  - `Process` is proved equal to the pure `ProcessOutcome`, and the lemmas below say what that outcome means.

The collaborators whose code is not shown are parameters, held as function-typed fields of `Env` and `Library`:

- the value processor and the `transformValue` it makes;
- the consumer's `originalPositionFor`, whose answer may be null;
- `path.dirname` and `path.resolve`;
- `sources-absolute-to-relative`;
- the serialiser.

The only thing assumed of `path.dirname` is that a non-empty path has a non-empty directory (`DirnameKeepsNonEmpty`). The lemmas that need it take it as a hypothesis.

Two details of the code shape the model:

- The candidate test (lib/engine/rework.js:79) is a plain substring test for `url` on a truthy value, so a value such as `curly` also counts as a url declaration.
- On a throw, `process` returns the exception object itself (lib/engine/rework.js:37), not the `{content, map}` its doc comment promises (lib/engine/rework.js:18). The model returns the exception's message as `Failure(error)`.

## Model

| member | source | states |
|---|---|---|
| UrlRewrite.IndexOf | lib/engine/rework.js:79 | `indexOf`: the result is -1 or an index where the pattern occurs, and there is no occurrence before it (none at all when -1) |
| UrlRewrite.IndexOfFrom | lib/engine/rework.js:79 | the search from a start index returns the first occurrence at or after it, or -1 when there is none from there on |
| UrlRewrite.IsCandidate | lib/engine/rework.js:79 | a candidate has a present value in which `url` occurs at the index `indexOf` reports; an absent or empty value is never a candidate |
| UrlRewrite.CandidateIffContainsUrl | lib/engine/rework.js:79-80 | a declaration is a candidate exactly when its value is present and `url` occurs somewhere in it |
| UrlRewrite.OriginalPositionFor | lib/engine/rework.js:84 | `sourceMapConsumer && sourceMapConsumer.originalPositionFor(start)`: no lookup result without a consumer, otherwise the consumer's own answer for the declaration's start |
| UrlRewrite.Directory | lib/engine/rework.js:87 | the directory is empty when the lookup gave no result or a result without a non-empty `source`, and is `path.dirname(source)` otherwise |
| UrlRewrite.DirectoryIffSource | lib/engine/rework.js:87-88 | given that dirname keeps non-empty paths non-empty, the directory is truthy exactly when the lookup gave a result with a non-empty `source` |
| UrlRewrite.Visit | lib/engine/rework.js:79-99 | a non-candidate is kept, nothing is changed or thrown without a consumer, and a throw happens only for a candidate under a consumer |
| UrlRewrite.VisitCases | lib/engine/rework.js:83-99 | the three-way state machine as iffs: kept iff not a candidate or no consumer; fatal iff a candidate whose lookup under the consumer has no non-empty source; rewritten iff it has one, to exactly `transformValue(value, dirname(source))`; a non-candidate's outcome does not depend on the consumer |
| UrlRewrite.Walk | lib/engine/rework.js:68-72 | the traversal yields exactly one value per declaration (the value at each position is given by `WalkAt`) |
| UrlRewrite.WalkAt | lib/engine/rework.js:68-99 | each declaration ends with its own decision applied when no earlier declaration aborted, and with its old value otherwise |
| UrlRewrite.WalkFailedIff | lib/engine/rework.js:96-98 | the traversal aborts exactly when some declaration is fatal |
| UrlRewrite.WalkAppend | lib/engine/rework.js:68-72 | traversing two runs of declarations is traversing the first, then the second unless the first aborted, which leaves the second untouched |
| UrlRewrite.WalkComposed | lib/engine/rework.js:68-72 | the outcome of a traversal of a concatenation follows from the outcomes of its parts |
| UrlRewrite.NoConsumerLeavesAll | lib/engine/rework.js:84-97 | with no consumer every value is left as it was and nothing is thrown |
| UrlRewrite.FirstFatal | lib/engine/rework.js:96-98 | the index of the first declaration that throws: none before it throws, and it throws unless it is the end |
| UrlRewrite.WalkByFirstFatal | lib/engine/rework.js:68-98 | the traversal aborts iff there is a first fatal declaration; every declaration before it is decided, it and all after it keep their values |
| UrlRewrite.NonCandidateUnchanged | lib/engine/rework.js:79-80 | a declaration that is not a candidate is never changed |
| UrlRewrite.CandidateRewrittenFromOwnSource | lib/engine/rework.js:83-94 | a candidate reached by the traversal whose own lookup has a non-empty source gets exactly `transformValue(old value, dirname(that source))` |
| UrlRewrite.CompletedWalkRewroteEveryCandidate | lib/engine/rework.js:83-99 | with a consumer, a traversal that completes has found a source for every candidate and rewritten each one from its own source |
| UrlRewrite.WalkFailsIffMissingSource | lib/engine/rework.js:96-98 | the traversal aborts exactly when there is a consumer and some candidate's lookup has no non-empty source |
| UrlRewrite.NothingAfterFailure | lib/engine/rework.js:98 | from the first fatal declaration on, no declaration is changed |
| Rework.DeclarationsOf | lib/engine/rework.js:69 | the declarations of a rule: none when the rule has no declaration list, the list itself otherwise |
| Rework.EachDeclaration | lib/engine/rework.js:78-101 | the declaration's new value is its old value with `Visit`'s decision applied, and the method throws the fixed message exactly when that decision is fatal |
| Rework.VisitList | lib/engine/rework.js:69-70 | the list's values become `Walk` of their old values, and the method throws exactly when that walk aborts |
| Rework.ReworkPlugin | lib/engine/rework.js:64-72 | over all lists in document order, absent lists skipped, the declarations' values become `Walk` of their old values, and the plugin throws exactly when the walk aborts |
| Engine.EnvFor | lib/engine/rework.js:21-22 | the visitor sees the given consumer and `path.dirname`, and `transformValue` is the value processor made from `path.dirname(params.source)` and the options |
| Engine.SourceRootOrDot | lib/engine/rework.js:43 | `sourceRoot \|\| '.'` is never empty; it is the root itself when the root is a non-empty string and `"."` when the root is undefined or empty |
| Engine.SourcesBase | lib/engine/rework.js:43 | the sources are made relative to `path.resolve(path.dirname(params.source), root)` for a non-empty root, and to `path.resolve(path.dirname(params.source), ".")` otherwise |
| Engine.OutputMap | lib/engine/rework.js:42-55 | a successful result has a map exactly when a source map is requested, its `sources` are the generated map's sources relativised against `SourcesBase`, and its `sourceRoot` is `params.sourceRoot` verbatim |
| Engine.ProcessOutcome | lib/engine/rework.js:20-56 | an unparsable input yields its parse error; otherwise the result is a failure exactly when the traversal aborts, and then it carries the fixed message |
| Engine.Process | lib/engine/rework.js:20-56 | the returned result is `ProcessOutcome` of the parsed tree's old values, a returned map is a new object, and the tree's values are left as `Walk` made them |
| Engine.ProcessFailsIff | lib/engine/rework.js:28-38 | `process` fails exactly when the input does not parse, or when there is a consumer and some url declaration's lookup has no non-empty source |
| Engine.SucceededResolvedEach | lib/engine/rework.js:83-94 | a successful result serialises every declaration resolved on its own: under a consumer each url declaration is rewritten from its own source's directory, and every other value is unchanged |
| Engine.NoConsumerSerialisesInput | lib/engine/rework.js:84-97 | without a consumer `process` succeeds and serialises the declaration values unchanged |

## Left out

- Parsing (lib/engine/rework.js:29) and embedding the source map as a comment (line 25): the parser is not shown. `Process` takes the parser's answer as input, either the declaration lists in document order or the error thrown.
- Serialisation (lines 31-34): the serialiser is an abstract function of the declaration values. The generated map's sources are a given sequence. An exception thrown by the serialiser is not modelled.
- The tree traversal of rework-visit (line 68): the stylesheet is the sequence of declaration lists the visitor receives, in document order. `ReworkPlugin` is stated by recursion over the stylesheet's prefixes rather than by the library's own recursion over nested rules.
- Rework.ReworkPlugin, Rework.VisitList, Engine.Process: these require that no declaration object appears twice in the tree. A parsed tree never shares nodes, and the model does not capture aliasing between declarations.
- The value processor, `sources-absolute-to-relative`, `path.resolve` and the consumer's position lookup are abstract functions. Their own behaviour is not modelled: the transformer's idempotence, identity on data URIs and absolute URLs, and directory sensitivity; the relativiser's path algebra and its path errors.
- `absoluteToRelative` updates the sources array in place (line 43). The model reassigns the `sources` field of the map object with the relativised sequence.
- `path.dirname` is abstract. The lemmas that need it assume only that a non-empty path has a non-empty directory.
- The `console.log` diagnostics (lines 90-93): output with no effect on the result.
- Engine.ProcessFailsIff: does not capture throws from the value processor's `transformValue` (line 89) or from the consumer's `originalPositionFor` (line 84), which the catch at lines 36-37 would also return. These collaborators are total functions in the model, so the "only if" direction holds only for collaborators that never throw.
- The returned exception object is modelled by its message string.
- JavaScript truthiness of `declaration.value` is modelled for strings and absent values only. A value is `None` or a string, and the empty string is falsy.
