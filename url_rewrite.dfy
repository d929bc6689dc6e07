/**
 * The url-declaration rewriting decision of the rework engine, stated on values.
 *
 * For one declaration, `Visit` is what `eachDeclaration` decides: leave it, rewrite
 * its value from the directory of its original source, or abort.  For all the
 * declarations of a stylesheet in document order, `Walk` is the traversal that
 * the visitor performs, stopping at the first abort.  The imperative engine in
 * module Rework is proved against these two functions.
 */
module UrlRewrite {
  import opened Wrappers

  /** Start position of a declaration in the compiled CSS. */
  datatype Position = Position(line: nat, column: nat)

  /** The answer of the consumer's `originalPositionFor`; `source` is null where nothing is mapped. */
  datatype OriginalPosition = OriginalPosition(source: Option<string>, line: Option<nat>, column: Option<nat>)

  /** A source-map consumer, seen as its `originalPositionFor` lookup (whose answer may itself be null). */
  type Consumer = Position -> Option<OriginalPosition>

  /** What the decision for one declaration depends on besides the declaration. */
  datatype Env = Env(
    transformValue: (string, string) -> string,  // the value processor: (value, directory) to new value
    consumer: Option<Consumer>,                   // the source-map consumer, which may be null
    dirname: string -> string)                    // path.dirname

  /** The message of the error thrown when a mapped stylesheet has no source for a url declaration. */
  const UrlUnavailable: string := "source-map information is not available at url() declaration"

  /** A declaration as the decision sees it: its (possibly absent) value and its start position. */
  datatype Decl = Decl(value: Option<string>, start: Position)

  /** The three outcomes for one declaration. */
  datatype Action = Keep | Rewrite(newValue: string) | Fatal

  /** `pat` occurs in `s` at index `j`. */
  predicate OccursAt(s: string, pat: string, j: int) {
    0 <= j && j + |pat| <= |s| && s[j..j + |pat|] == pat
  }

  /** `String.prototype.indexOf(pat, from)` for a `from` within the string: the first occurrence at or after `from`, or -1. */
  function IndexOfFrom(s: string, pat: string, from: nat): (r: int)
    decreases |s| - from
    ensures r == -1 || (from <= r && OccursAt(s, pat, r))
    ensures forall j :: from <= j && (r == -1 || j < r) ==> !OccursAt(s, pat, j)
  {
    if from + |pat| > |s| then -1
    else if s[from..from + |pat|] == pat then from
    else IndexOfFrom(s, pat, from + 1)
  }

  /** `String.prototype.indexOf(pat)`: the first occurrence in `s`, or -1 when there is none. */
  function IndexOf(s: string, pat: string): (r: int)
    ensures r == -1 || OccursAt(s, pat, r)
    ensures forall j :: 0 <= j && (r == -1 || j < r) ==> !OccursAt(s, pat, j)
  {
    IndexOfFrom(s, pat, 0)
  }

  /** The candidate test: the value is truthy (present and non-empty) and contains `url`. */
  predicate IsCandidate(value: Option<string>): (b: bool)
    ensures b ==> value.Some? && OccursAt(value.value, "url", IndexOf(value.value, "url"))
    ensures value.None? || value.value == "" ==> !b
  {
    value.Some? && value.value != "" && IndexOf(value.value, "url") >= 0
  }

  /** The candidate test means exactly: a value is present and `url` occurs somewhere in it. */
  lemma CandidateIffContainsUrl(value: Option<string>)
    ensures IsCandidate(value) <==> value.Some? && exists j :: OccursAt(value.value, "url", j)
  {
    if value.Some? && exists j :: OccursAt(value.value, "url", j) {
      var j :| OccursAt(value.value, "url", j);
      assert value.value != "";
    }
  }

  /** The consumer's answer for a start position; null when there is no consumer. */
  function OriginalPositionFor(consumer: Option<Consumer>, start: Position): (found: Option<OriginalPosition>)
    ensures consumer.None? ==> found.None?
    ensures consumer.Some? ==> found == consumer.value(start)
  {
    if consumer.Some? then consumer.value(start) else None
  }

  /** The lookup yielded an original position whose source is a non-empty string. */
  predicate HasSource(found: Option<OriginalPosition>) {
    found.Some? && found.value.source.Some? && found.value.source.value != ""
  }

  /**
   * The value of `found && found.source && dirname(found.source)` as far as its
   * truthiness goes: every falsy outcome is the empty string.
   */
  function Directory(found: Option<OriginalPosition>, dirname: string -> string): (dir: string)
    ensures found.None? || found.value.source.None? || found.value.source.value == "" ==> dir == ""
    ensures HasSource(found) ==> dir == dirname(found.value.source.value)
  {
    if HasSource(found) then dirname(found.value.source.value) else ""
  }

  /** The one fact about `path.dirname` the decision relies on: a non-empty path has a non-empty directory. */
  ghost predicate DirnameKeepsNonEmpty(dirname: string -> string) {
    forall s :: s != "" ==> dirname(s) != ""
  }

  /** With that fact, "no directory" happens exactly when the lookup gives no non-empty source. */
  lemma DirectoryIffSource(found: Option<OriginalPosition>, dirname: string -> string)
    requires DirnameKeepsNonEmpty(dirname)
    ensures Directory(found, dirname) != "" <==> HasSource(found)
  {
  }

  /** The decision `eachDeclaration` takes for one declaration. */
  function Visit(d: Decl, env: Env): (a: Action)
    ensures !IsCandidate(d.value) ==> a == Keep
    ensures env.consumer.None? ==> a == Keep
    ensures a.Fatal? ==> IsCandidate(d.value) && env.consumer.Some?
  {
    if !IsCandidate(d.value) then Keep
    else
      var directory := Directory(OriginalPositionFor(env.consumer, d.start), env.dirname);
      if directory != "" then Rewrite(env.transformValue(d.value.value, directory))
      else if env.consumer.Some? then Fatal
      else Keep
  }

  /**
   * The three-way state machine for a candidate: skipped without a consumer,
   * rewritten from the directory of its own lookup's source, fatal otherwise.
   * A non-candidate never depends on the consumer.
   */
  lemma VisitCases(d: Decl, env: Env, other: Option<Consumer>)
    requires DirnameKeepsNonEmpty(env.dirname)
    ensures !IsCandidate(d.value) ==> Visit(d, env.(consumer := other)) == Visit(d, env) == Keep
    ensures Visit(d, env) == Keep <==> !IsCandidate(d.value) || env.consumer.None?
    ensures Visit(d, env).Fatal? <==>
      IsCandidate(d.value) && env.consumer.Some? && !HasSource(env.consumer.value(d.start))
    ensures Visit(d, env).Rewrite? <==>
      IsCandidate(d.value) && env.consumer.Some? && HasSource(env.consumer.value(d.start))
    ensures Visit(d, env).Rewrite? ==>
      Visit(d, env).newValue ==
      env.transformValue(d.value.value, env.dirname(env.consumer.value(d.start).value.source.value))
  {
    DirectoryIffSource(OriginalPositionFor(env.consumer, d.start), env.dirname);
  }

  /** The value a declaration has after its action is applied (only a rewrite writes it). */
  function Applied(d: Decl, a: Action): Option<string> {
    if a.Rewrite? then Some(a.newValue) else d.value
  }

  /** The values of a sequence of declarations. */
  function ValuesOf(ds: seq<Decl>): seq<Option<string>> {
    seq(|ds|, k requires 0 <= k < |ds| => ds[k].value)
  }

  /** The declaration values after a traversal, and whether it was aborted. */
  datatype Walked = Walked(values: seq<Option<string>>, failed: bool)

  /**
   * The traversal of all declarations in document order: each one is decided on
   * its own, and the first fatal one aborts the walk, leaving it and every later
   * declaration as it was.
   */
  function Walk(ds: seq<Decl>, env: Env): (w: Walked)
    ensures |w.values| == |ds|
  {
    if ds == [] then Walked([], false)
    else
      var a := Visit(ds[0], env);
      if a.Fatal? then Walked(ValuesOf(ds), true)
      else
        var rest := Walk(ds[1..], env);
        Walked([Applied(ds[0], a)] + rest.values, rest.failed)
  }

  /** No declaration before index `k` is fatal. */
  predicate NoFatalBefore(ds: seq<Decl>, env: Env, k: nat)
    requires k <= |ds|
  {
    forall j :: 0 <= j < k ==> !Visit(ds[j], env).Fatal?
  }

  /**
   * What the walk leaves in each declaration: its own decision applied when no
   * earlier declaration aborted the walk, its old value otherwise.  Nothing is
   * carried from one declaration to the next.
   */
  lemma {:induction false} WalkAt(ds: seq<Decl>, env: Env, k: nat)
    requires k < |ds|
    ensures Walk(ds, env).values[k] ==
      if NoFatalBefore(ds, env, k) then Applied(ds[k], Visit(ds[k], env)) else ds[k].value
  {
    if Visit(ds[0], env).Fatal? {
      assert k > 0 ==> !NoFatalBefore(ds, env, k);
    } else if k > 0 {
      WalkAt(ds[1..], env, k - 1);
      assert NoFatalBefore(ds, env, k) <==> NoFatalBefore(ds[1..], env, k - 1) by {
        if NoFatalBefore(ds[1..], env, k - 1) {
          forall j | 0 <= j < k ensures !Visit(ds[j], env).Fatal? {
            if j > 0 { assert ds[j] == ds[1..][j - 1]; }
          }
        }
        if NoFatalBefore(ds, env, k) {
          forall j | 0 <= j < k - 1 ensures !Visit(ds[1..][j], env).Fatal? {
            assert ds[1..][j] == ds[j + 1];
          }
        }
      }
    }
  }

  /** The walk aborts exactly when some declaration is fatal. */
  lemma {:induction false} WalkFailedIff(ds: seq<Decl>, env: Env)
    ensures Walk(ds, env).failed <==> exists j :: 0 <= j < |ds| && Visit(ds[j], env).Fatal?
  {
    if ds != [] && !Visit(ds[0], env).Fatal? {
      WalkFailedIff(ds[1..], env);
      if exists j :: 0 <= j < |ds| && Visit(ds[j], env).Fatal? {
        var j :| 0 <= j < |ds| && Visit(ds[j], env).Fatal?;
        assert ds[1..][j - 1] == ds[j];
      }
      if exists j :: 0 <= j < |ds| - 1 && Visit(ds[1..][j], env).Fatal? {
        var j :| 0 <= j < |ds| - 1 && Visit(ds[1..][j], env).Fatal?;
        assert ds[1..][j] == ds[j + 1];
      }
    }
  }

  /** Walking a concatenation is walking the first part, then the second unless the first aborted. */
  lemma {:induction false} WalkAppend(p: seq<Decl>, q: seq<Decl>, env: Env)
    ensures Walk(p + q, env) ==
      if Walk(p, env).failed then Walked(Walk(p, env).values + ValuesOf(q), true)
      else Walked(Walk(p, env).values + Walk(q, env).values, Walk(q, env).failed)
  {
    if p == [] {
      assert p + q == q;
    } else {
      assert (p + q)[0] == p[0];
      assert (p + q)[1..] == p[1..] + q;
      if Visit(p[0], env).Fatal? {
        assert ValuesOf(p + q) == ValuesOf(p) + ValuesOf(q);
      } else {
        WalkAppend(p[1..], q, env);
      }
    }
  }

  /**
   * Walking a concatenation from the outcomes of its parts: the second part is
   * walked only when the first did not abort, and then decides the outcome.
   */
  lemma WalkComposed(p: seq<Decl>, q: seq<Decl>, env: Env,
                     pValues: seq<Option<string>>, pFailed: bool, qValues: seq<Option<string>>, failed: bool)
    requires Walk(p, env) == Walked(pValues, pFailed)
    requires pFailed ==> qValues == ValuesOf(q) && failed
    requires !pFailed ==> Walk(q, env) == Walked(qValues, failed)
    ensures Walk(p + q, env) == Walked(pValues + qValues, failed)
  {
    WalkAppend(p, q, env);
  }

  /** With no source-map consumer the walk changes nothing and never aborts. */
  lemma {:induction false} NoConsumerLeavesAll(ds: seq<Decl>, env: Env)
    requires env.consumer.None?
    ensures Walk(ds, env) == Walked(ValuesOf(ds), false)
  {
    if ds != [] {
      NoConsumerLeavesAll(ds[1..], env);
      assert ValuesOf(ds) == [ds[0].value] + ValuesOf(ds[1..]);
    }
  }

  /** The index of the first fatal declaration, or the length when there is none. */
  function FirstFatal(ds: seq<Decl>, env: Env): (f: nat)
    ensures f <= |ds| && NoFatalBefore(ds, env, f)
    ensures f < |ds| ==> Visit(ds[f], env).Fatal?
  {
    if ds == [] then 0
    else if Visit(ds[0], env).Fatal? then 0
    else
      var f := 1 + FirstFatal(ds[1..], env);
      assert forall j :: 1 <= j < f ==> ds[j] == ds[1..][j - 1];
      f
  }

  /**
   * The walk, pointwise: up to the first fatal declaration each one holds its own
   * decision applied; from there on nothing is changed, and the walk aborts
   * exactly when such a declaration exists.  Any index `f` with the first-fatal
   * property determines the walk this way.
   */
  lemma WalkMatches(ds: seq<Decl>, env: Env, values: seq<Option<string>>, f: nat)
    requires f <= |ds| == |values| && NoFatalBefore(ds, env, f)
    requires f < |ds| ==> Visit(ds[f], env).Fatal?
    requires forall k :: 0 <= k < |ds| ==>
      values[k] == if k < f then Applied(ds[k], Visit(ds[k], env)) else ds[k].value
    ensures Walk(ds, env) == Walked(values, f < |ds|)
  {
    WalkFailedIff(ds, env);
    forall k | 0 <= k < |ds| ensures Walk(ds, env).values[k] == values[k] {
      WalkAt(ds, env, k);
      if k > f {
        assert !NoFatalBefore(ds, env, k);
      }
    }
    if f == |ds| {
      assert !exists j :: 0 <= j < |ds| && Visit(ds[j], env).Fatal?;
    }
  }

  /** The walk is determined by `FirstFatal`. */
  lemma WalkByFirstFatal(ds: seq<Decl>, env: Env)
    ensures Walk(ds, env).failed <==> FirstFatal(ds, env) < |ds|
    ensures forall k :: 0 <= k < |ds| ==>
      Walk(ds, env).values[k] == if k < FirstFatal(ds, env) then Applied(ds[k], Visit(ds[k], env)) else ds[k].value
  {
    var f := FirstFatal(ds, env);
    WalkFailedIff(ds, env);
    forall k | 0 <= k < |ds|
      ensures Walk(ds, env).values[k] == if k < f then Applied(ds[k], Visit(ds[k], env)) else ds[k].value
    {
      WalkAt(ds, env, k);
      if k > f {
        assert !NoFatalBefore(ds, env, k);
      }
    }
  }

  /** A declaration that is not a candidate keeps its value, whatever the consumer. */
  lemma NonCandidateUnchanged(ds: seq<Decl>, env: Env, k: nat)
    requires k < |ds| && !IsCandidate(ds[k].value)
    ensures Walk(ds, env).values[k] == ds[k].value
  {
    WalkAt(ds, env, k);
  }

  /**
   * A candidate reached by the walk whose own lookup yields a non-empty source is
   * rewritten to exactly `transformValue(value, dirname(source))`.
   */
  lemma CandidateRewrittenFromOwnSource(ds: seq<Decl>, env: Env, k: nat)
    requires DirnameKeepsNonEmpty(env.dirname)
    requires k < |ds| && NoFatalBefore(ds, env, k)
    requires IsCandidate(ds[k].value) && env.consumer.Some?
    requires HasSource(env.consumer.value(ds[k].start))
    ensures Walk(ds, env).values[k] ==
      Some(env.transformValue(ds[k].value.value, env.dirname(env.consumer.value(ds[k].start).value.source.value)))
  {
    WalkAt(ds, env, k);
    VisitCases(ds[k], env, env.consumer);
  }

  /**
   * With a consumer, a walk that completes has rewritten every candidate from
   * its own source: no url declaration is silently left alone.
   */
  lemma CompletedWalkRewroteEveryCandidate(ds: seq<Decl>, env: Env, k: nat)
    requires DirnameKeepsNonEmpty(env.dirname) && env.consumer.Some?
    requires k < |ds| && IsCandidate(ds[k].value) && !Walk(ds, env).failed
    ensures HasSource(env.consumer.value(ds[k].start))
    ensures Walk(ds, env).values[k] ==
      Some(env.transformValue(ds[k].value.value, env.dirname(env.consumer.value(ds[k].start).value.source.value)))
  {
    WalkFailedIff(ds, env);
    VisitCases(ds[k], env, env.consumer);
    CandidateRewrittenFromOwnSource(ds, env, k);
  }

  /** With a consumer, the walk aborts exactly when some candidate's lookup has no non-empty source. */
  lemma WalkFailsIffMissingSource(ds: seq<Decl>, env: Env)
    requires DirnameKeepsNonEmpty(env.dirname)
    ensures Walk(ds, env).failed <==>
      env.consumer.Some? &&
      exists k :: 0 <= k < |ds| && IsCandidate(ds[k].value) && !HasSource(env.consumer.value(ds[k].start))
  {
    WalkFailedIff(ds, env);
    forall k | 0 <= k < |ds| {
      VisitCases(ds[k], env, env.consumer);
    }
  }

  /** Nothing from the first fatal declaration on is changed. */
  lemma NothingAfterFailure(ds: seq<Decl>, env: Env, f: nat, k: nat)
    requires f <= k < |ds| && Visit(ds[f], env).Fatal?
    ensures Walk(ds, env).values[k] == ds[k].value
  {
    WalkAt(ds, env, k);
  }
}
