/**
 * The rework plugin of the engine: the visitor runs over the parsed
 * stylesheet and `eachDeclaration` rewrites url declarations in place.
 *
 * Declarations are objects whose `value` field the traversal overwrites; the
 * stylesheet is the sequence of declaration lists the visitor is handed, in
 * document order.  Every method is proved against the functions `Visit` and
 * `Walk` of module UrlRewrite.
 */
module Rework {
  import opened Wrappers
  import opened UrlRewrite

  /** A declaration node of the syntax tree: its value is rewritten in place, its position is fixed. */
  class Declaration {
    var value: Option<string>
    const start: Position

    constructor (value: Option<string>, start: Position)
      ensures this.value == value && this.start == start
    {
      this.value := value;
      this.start := start;
    }

    /** The declaration as the rewriting decision sees it. */
    function Snapshot(): Decl
      reads this
    {
      Decl(value, start)
    }
  }

  /**
   * The declaration lists the visitor is called with, in document order; a
   * node without declarations hands the visitor an absent list.
   */
  type Stylesheet = seq<Option<seq<Declaration>>>

  /** The declarations of one (possibly absent) list. */
  function DeclarationsOf(list: Option<seq<Declaration>>): (ds: seq<Declaration>)
    ensures list.None? ==> ds == []
    ensures list.Some? ==> ds == list.value
  {
    if list.Some? then list.value else []
  }

  /** All declarations of a stylesheet in the order the visitor reaches them. */
  function Flatten(sheet: Stylesheet): seq<Declaration> {
    if sheet == [] then [] else Flatten(sheet[..|sheet| - 1]) + DeclarationsOf(sheet[|sheet| - 1])
  }

  /** The declarations' current snapshots. */
  function Snapshots(ds: seq<Declaration>): seq<Decl>
    reads ds
  {
    seq(|ds|, k requires 0 <= k < |ds| reads ds => ds[k].Snapshot())
  }

  /** The declarations' current values. */
  function Values(ds: seq<Declaration>): seq<Option<string>>
    reads ds
  {
    seq(|ds|, k requires 0 <= k < |ds| reads ds => ds[k].value)
  }

  /** Reading values distributes over concatenation. */
  lemma ValuesAppend(a: seq<Declaration>, b: seq<Declaration>)
    ensures Values(a + b) == Values(a) + Values(b)
  {
    assert forall k :: 0 <= k < |a| + |b| ==> (a + b)[k] == if k < |a| then a[k] else b[k - |a|];
  }

  /** The values recorded in snapshots are the declarations' values. */
  lemma ValuesOfSnapshots(ds: seq<Declaration>)
    ensures ValuesOf(Snapshots(ds)) == Values(ds)
  {
  }

  /** Taking snapshots distributes over concatenation. */
  lemma SnapshotsAppend(a: seq<Declaration>, b: seq<Declaration>)
    ensures Snapshots(a + b) == Snapshots(a) + Snapshots(b)
  {
    assert forall k :: 0 <= k < |a| + |b| ==> (a + b)[k] == if k < |a| then a[k] else b[k - |a|];
  }

  /** The two parts of a sequence without shared nodes share no node and have none within. */
  lemma DistinctAppend(a: seq<Declaration>, b: seq<Declaration>)
    requires Distinct(a + b)
    ensures Distinct(a) && Distinct(b)
    ensures forall i, j :: 0 <= i < |a| && 0 <= j < |b| ==> a[i] != b[j]
  {
    forall i, j | 0 <= i < j < |a| ensures a[i] != a[j] {
      assert a[i] == (a + b)[i] && a[j] == (a + b)[j];
    }
    forall i, j | 0 <= i < j < |b| ensures b[i] != b[j] {
      assert b[i] == (a + b)[|a| + i] && b[j] == (a + b)[|a| + j];
    }
    forall i, j | 0 <= i < |a| && 0 <= j < |b| ensures a[i] != b[j] {
      assert a[i] == (a + b)[i] && b[j] == (a + b)[|a| + j];
    }
  }

  /** No declaration object occurs twice (the syntax tree never shares a node). */
  predicate Distinct(ds: seq<Declaration>) {
    forall i, j :: 0 <= i < j < |ds| ==> ds[i] != ds[j]
  }

  /** The result of throwing: the error message when thrown, nothing otherwise. */
  function ThrownIf(failed: bool): Option<string> {
    if failed then Some(UrlUnavailable) else None
  }

  /**
   * `eachDeclaration`: decides one declaration and overwrites its value when it
   * is rewritten; `thrown` is the error it throws.
   */
  method EachDeclaration(declaration: Declaration, env: Env) returns (thrown: Option<string>)
    modifies declaration
    ensures declaration.value == Applied(old(declaration.Snapshot()), Visit(old(declaration.Snapshot()), env))
    ensures thrown == ThrownIf(Visit(old(declaration.Snapshot()), env).Fatal?)
  {
    thrown := None;
    var isValid := IsCandidate(declaration.value);
    if isValid {
      var startPosApparent := declaration.start;
      var startPosOriginal := OriginalPositionFor(env.consumer, startPosApparent);
      var directory := Directory(startPosOriginal, env.dirname);
      if directory != "" {
        var newValue := env.transformValue(declaration.value.value, directory);
        declaration.value := Some(newValue);
      } else if env.consumer.Some? {
        thrown := Some(UrlUnavailable);
      }
    }
  }

  /**
   * `declarations.forEach(eachDeclaration)`: the declarations of one list in
   * sequence, stopped by the first throw.
   */
  method VisitList(declarations: seq<Declaration>, env: Env) returns (thrown: Option<string>)
    requires Distinct(declarations)
    modifies declarations
    ensures Values(declarations) == Walk(old(Snapshots(declarations)), env).values
    ensures thrown == ThrownIf(Walk(old(Snapshots(declarations)), env).failed)
  {
    ghost var before := Snapshots(declarations);
    thrown := None;
    var i := 0;
    while i < |declarations|
      invariant 0 <= i <= |declarations|
      invariant thrown == None && NoFatalBefore(before, env, i)
      invariant forall k :: 0 <= k < i ==> declarations[k].value == Applied(before[k], Visit(before[k], env))
      invariant forall k :: i <= k < |declarations| ==> declarations[k].value == before[k].value
    {
      assert declarations[i].Snapshot() == before[i];
      thrown := EachDeclaration(declarations[i], env);
      if thrown.Some? {
        WalkMatches(before, env, Values(declarations), i);
        return;
      }
      i := i + 1;
    }
    WalkMatches(before, env, Values(declarations), i);
  }

  /**
   * `reworkPlugin`: the visitor is called with every declaration list in
   * document order; an absent list is passed over, a present one is visited,
   * and a throw stops the traversal.  The traversal is stated on the
   * stylesheet's prefixes: all lists but the last, then the last.
   */
  method ReworkPlugin(stylesheet: Stylesheet, env: Env) returns (thrown: Option<string>)
    requires Distinct(Flatten(stylesheet))
    modifies Flatten(stylesheet)
    ensures Values(Flatten(stylesheet)) == Walk(old(Snapshots(Flatten(stylesheet))), env).values
    ensures thrown == ThrownIf(Walk(old(Snapshots(Flatten(stylesheet))), env).failed)
    decreases |stylesheet|
  {
    if stylesheet == [] {
      return None;
    }
    var init := stylesheet[..|stylesheet| - 1];
    var last := DeclarationsOf(stylesheet[|stylesheet| - 1]);
    ghost var all := Flatten(stylesheet);
    ghost var front := Flatten(init);
    assert all == front + last;
    assert forall k :: 0 <= k < |front| ==> front[k] == all[k];
    assert forall k :: 0 <= k < |last| ==> last[k] == all[|front| + k];
    DistinctAppend(front, last);
    ghost var frontBefore := Snapshots(front);
    ghost var lastBefore := Snapshots(last);
    assert Snapshots(all) == frontBefore + lastBefore by {
      SnapshotsAppend(front, last);
    }
    thrown := ReworkPlugin(init, env);
    ghost var frontValues := Values(front);
    assert unchanged(last);
    ghost var frontFailed := thrown.Some?;
    if thrown.None? && stylesheet[|stylesheet| - 1].Some? {
      label Last:
      thrown := VisitList(last, env);
      assert unchanged@Last(front);
    } else if thrown.Some? {
      ValuesOfSnapshots(last);
    }
    ghost var lastValues := Values(last);
    assert Values(all) == frontValues + lastValues by {
      ValuesAppend(front, last);
    }
    WalkComposed(frontBefore, lastBefore, env, frontValues, frontFailed, lastValues, thrown.Some?);
  }
}
