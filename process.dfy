/**
 * The engine's entry point `process`: the visitor runs over the parsed
 * stylesheet, the tree is serialised, and when a source map is requested the
 * generated map has its sources relativised and its `sourceRoot` stamped.
 * A throw from parsing or from the visitor is caught and returned as the
 * result.
 *
 * `ProcessOutcome` is the result as a function of the inputs; the method
 * `Process` is proved against it, and the lemmas below say what it means.
 */
module Engine {
  import opened Wrappers
  import opened UrlRewrite
  import opened Rework

  /** The options hash; `sourceRoot` may be undefined. */
  datatype Params = Params(source: string, sourceMap: bool, sourceRoot: Option<string>)

  /** The collaborators `process` calls but whose code is not part of this model. */
  datatype Library = Library(
    dirname: string -> string,                                   // path.dirname
    resolve: (string, string) -> string,                         // path.resolve
    valueProcessor: (string, Params) -> ((string, string) -> string),  // value-processor: makes transformValue
    relativise: (seq<string>, string) -> seq<string>,            // sources-absolute-to-relative
    stringify: seq<Option<string>> -> string,                    // the serialiser, as a function of the declaration values
    mapSources: seq<string>)                                     // the sources of the map the serialiser generates

  /** The parser's answer: the tree's declaration lists, or the exception it threw. */
  datatype Parsed = Parsed(stylesheet: Stylesheet) | ParseError(error: string)

  /** The source map object of the result; its fields are written after it is generated. */
  class SourceMap {
    var sources: seq<string>
    var sourceRoot: Option<string>

    constructor (sources: seq<string>)
      ensures this.sources == sources && sourceRoot == None
    {
      this.sources := sources;
      sourceRoot := None;
    }
  }

  /** What `process` returns: `{content, map}` (map null unless requested), or the caught exception. */
  datatype Result = Output(content: string, mapObject: Option<SourceMap>) | Failure(error: string)

  /** The parsed input as values: the declarations in document order, or the parse error. */
  datatype Source = Tree(decls: seq<Decl>) | Unparsable(error: string)

  /** A source map's fields as values. */
  datatype MapValue = MapValue(sources: seq<string>, sourceRoot: Option<string>)

  /** A result as values. */
  datatype Outcome = Done(content: string, mapValue: Option<MapValue>) | Failed(error: string)

  /** The declarations `process` may write: those of the parsed tree. */
  function TreeOf(parsed: Parsed): seq<Declaration> {
    if parsed.Parsed? then Flatten(parsed.stylesheet) else []
  }

  /** The parsed input as the specification sees it. */
  function SourceOf(parsed: Parsed): Source
    reads TreeOf(parsed)
  {
    if parsed.Parsed? then Tree(Snapshots(Flatten(parsed.stylesheet))) else Unparsable(parsed.error)
  }

  /** The result as values. */
  function View(r: Result): Outcome
    reads if r.Output? && r.mapObject.Some? then {r.mapObject.value} else {}
  {
    match r
    case Failure(error) => Failed(error)
    case Output(content, mapObject) =>
      Done(content, if mapObject.Some? then Some(MapValue(mapObject.value.sources, mapObject.value.sourceRoot)) else None)
  }

  /** The environment of the visitor: `transformValue` is made from the directory of `params.source`. */
  function EnvFor(consumer: Option<Consumer>, params: Params, lib: Library): (env: Env)
    ensures env.consumer == consumer && env.dirname == lib.dirname
    ensures env.transformValue == lib.valueProcessor(lib.dirname(params.source), params)
  {
    Env(lib.valueProcessor(lib.dirname(params.source), params), consumer, lib.dirname)
  }

  /** `params.sourceRoot || '.'`: the root, or "." when it is undefined or empty. */
  function SourceRootOrDot(root: Option<string>): (r: string)
    ensures r != ""
    ensures root.Some? && root.value != "" ==> r == root.value
    ensures root.None? || root.value == "" ==> r == "."
  {
    if root.Some? && root.value != "" then root.value else "."
  }

  /** The directory the map's sources are made relative to. */
  function SourcesBase(params: Params, lib: Library): (base: string)
    ensures params.sourceRoot.None? || params.sourceRoot.value == "" ==> base == lib.resolve(lib.dirname(params.source), ".")
    ensures params.sourceRoot.Some? && params.sourceRoot.value != "" ==>
      base == lib.resolve(lib.dirname(params.source), params.sourceRoot.value)
  {
    lib.resolve(lib.dirname(params.source), SourceRootOrDot(params.sourceRoot))
  }

  /** The `map` of a successful result. */
  function OutputMap(params: Params, lib: Library): (m: Option<MapValue>)
    ensures m.Some? <==> params.sourceMap
    ensures m.Some? ==> m.value.sourceRoot == params.sourceRoot
    ensures m.Some? ==> m.value.sources == lib.relativise(lib.mapSources, SourcesBase(params, lib))
  {
    if params.sourceMap then Some(MapValue(lib.relativise(lib.mapSources, SourcesBase(params, lib)), params.sourceRoot))
    else None
  }

  /** The result of `process` for a parsed input. */
  function ProcessOutcome(src: Source, consumer: Option<Consumer>, params: Params, lib: Library): (o: Outcome)
    ensures src.Unparsable? ==> o == Failed(src.error)
    ensures src.Tree? ==> (o.Failed? <==> Walk(src.decls, EnvFor(consumer, params, lib)).failed)
    ensures src.Tree? && o.Failed? ==> o.error == UrlUnavailable
  {
    match src
    case Unparsable(error) => Failed(error)
    case Tree(decls) =>
      var walked := Walk(decls, EnvFor(consumer, params, lib));
      if walked.failed then Failed(UrlUnavailable)
      else Done(lib.stringify(walked.values), OutputMap(params, lib))
  }

  /**
   * `process`: parse errors and the visitor's throw are returned as the
   * result; otherwise the rewritten tree is serialised and, when requested,
   * the generated map is re-rooted.
   */
  method Process(parsed: Parsed, consumer: Option<Consumer>, params: Params, lib: Library) returns (r: Result)
    requires Distinct(TreeOf(parsed))
    modifies TreeOf(parsed)
    ensures View(r) == ProcessOutcome(old(SourceOf(parsed)), consumer, params, lib)
    ensures r.Output? && r.mapObject.Some? ==> fresh(r.mapObject.value)
    ensures parsed.Parsed? ==>
      Values(Flatten(parsed.stylesheet)) == Walk(old(Snapshots(Flatten(parsed.stylesheet))), EnvFor(consumer, params, lib)).values
  {
    var filePath := lib.dirname(params.source);
    var transformValue := lib.valueProcessor(filePath, params);
    if parsed.ParseError? {
      return Failure(parsed.error);
    }
    var env := Env(transformValue, consumer, lib.dirname);
    var thrown := ReworkPlugin(parsed.stylesheet, env);
    if thrown.Some? {
      return Failure(thrown.value);
    }
    var code := lib.stringify(Values(Flatten(parsed.stylesheet)));
    if params.sourceMap {
      var generated := new SourceMap(lib.mapSources);
      generated.sources := lib.relativise(generated.sources, lib.resolve(filePath, SourceRootOrDot(params.sourceRoot)));
      generated.sourceRoot := params.sourceRoot;
      return Output(code, Some(generated));
    } else {
      return Output(code, None);
    }
  }

  /** The value a declaration ends with when the whole call succeeds, decided on its own. */
  function Resolved(d: Decl, env: Env): Option<string> {
    if IsCandidate(d.value) && env.consumer.Some? && HasSource(env.consumer.value(d.start))
    then Some(env.transformValue(d.value.value, env.dirname(env.consumer.value(d.start).value.source.value)))
    else d.value
  }

  /** Every declaration resolved on its own. */
  function AllResolved(ds: seq<Decl>, env: Env): (vs: seq<Option<string>>)
    ensures |vs| == |ds|
  {
    seq(|ds|, k requires 0 <= k < |ds| => Resolved(ds[k], env))
  }

  /**
   * `process` fails exactly when the input does not parse or when there is a
   * consumer and some url declaration's lookup has no non-empty source; the
   * latter failure carries the fixed message.
   */
  lemma ProcessFailsIff(src: Source, consumer: Option<Consumer>, params: Params, lib: Library)
    requires DirnameKeepsNonEmpty(lib.dirname)
    ensures ProcessOutcome(src, consumer, params, lib).Failed? <==>
      src.Unparsable? ||
      (consumer.Some? &&
       exists k :: 0 <= k < |src.decls| && IsCandidate(src.decls[k].value) && !HasSource(consumer.value(src.decls[k].start)))
  {
    if src.Tree? {
      WalkFailsIffMissingSource(src.decls, EnvFor(consumer, params, lib));
    }
  }

  /**
   * A successful call serialises every declaration resolved on its own: each
   * url declaration rewritten from the directory of its own source (when there
   * is a consumer), every other declaration as it was.
   */
  lemma {:induction false} SucceededResolvedEach(decls: seq<Decl>, consumer: Option<Consumer>, params: Params, lib: Library)
    requires DirnameKeepsNonEmpty(lib.dirname)
    requires ProcessOutcome(Tree(decls), consumer, params, lib).Done?
    ensures ProcessOutcome(Tree(decls), consumer, params, lib) ==
      Done(lib.stringify(AllResolved(decls, EnvFor(consumer, params, lib))), OutputMap(params, lib))
  {
    var env := EnvFor(consumer, params, lib);
    var walked := Walk(decls, env);
    forall k | 0 <= k < |decls| ensures walked.values[k] == AllResolved(decls, env)[k] {
      if !IsCandidate(decls[k].value) {
        NonCandidateUnchanged(decls, env, k);
      } else if consumer.Some? {
        CompletedWalkRewroteEveryCandidate(decls, env, k);
      } else {
        NoConsumerLeavesAll(decls, env);
      }
    }
    assert walked.values == AllResolved(decls, env);
  }

  /** Without a consumer the call succeeds and serialises every declaration value unchanged. */
  lemma NoConsumerSerialisesInput(decls: seq<Decl>, params: Params, lib: Library)
    ensures ProcessOutcome(Tree(decls), None, params, lib) == Done(lib.stringify(ValuesOf(decls)), OutputMap(params, lib))
  {
    NoConsumerLeavesAll(decls, EnvFor(None, params, lib));
  }
}
