/** The code fix for CS8632 (a nullable annotation used outside a nullable context) in a
    project whose nullable context is enabled: it removes the `#nullable disable` directives
    that immediately precede the diagnostic. The directives are given as the root's
    `NullableDirectiveTrivia` nodes and tokens; the document editor is replaced by the list
    of directives it is asked to remove, in the order it is asked. */
module AddNullableEnabledContextCodeFixProvider {
  import opened Common

  const FixableDiagnosticIds: seq<string> := ["CS8632"]

  datatype NullableContextOptions = Disable | Warnings | Annotations | Enable

  datatype CompilationOptions = CompilationOptions(nullableContextOptions: NullableContextOptions)

  /** A `#nullable` directive: where it starts, whether one of its children is the `disable`
      keyword, and whether it is a node (rather than a token of that kind). */
  datatype NullableDirective = NullableDirective(id: nat, spanStart: nat, hasDisableKeyword: bool, isNode: bool)

  /** The registered fix "Fix nullable context", which runs the directive removal for the
      context's span. */
  datatype CodeFix = FixNullableContext(span: TextSpan)

  datatype Registration<D> = Registration(fix: CodeFix, diagnostic: D)

  /** Only CS8632 is fixable. */
  lemma FixesOnlyCS8632()
    ensures forall id :: id in FixableDiagnosticIds <==> id == "CS8632"
  {
  }

  /** `RegisterCodeFixesAsync`: no fix without compilation options or when the project's
      nullable context is disabled; otherwise a single fix, registered on the first of the
      context's diagnostics (a code-fix context always has at least one). */
  function RegisterCodeFixes<D>(options: Option<CompilationOptions>, span: TextSpan, diagnostics: seq<D>)
    : (registered: seq<Registration<D>>)
    requires |diagnostics| > 0
    ensures registered == [] <==> options.None? || options.value.nullableContextOptions == Disable
    ensures |registered| <= 1
    ensures registered != [] ==>
              registered[0].diagnostic == diagnostics[0] && registered[0].fix == FixNullableContext(span)
  {
    if options.None? then []
    else if options.value.nullableContextOptions != Disable then
      [Registration(FixNullableContext(span), diagnostics[0])]
    else []
  }

  function SpanStartOf(d: NullableDirective): int { d.spanStart }

  predicate HasDisableKeyword(d: NullableDirective) { d.hasDisableKeyword }

  predicate IsNode(d: NullableDirective) { d.isNode }

  function StartsBefore(start: nat): NullableDirective -> bool
  {
    (d: NullableDirective) => d.spanStart < start
  }

  /** The directives that start before `start`, in source order. */
  function DirectivesBefore(directives: seq<NullableDirective>, start: nat): (r: seq<NullableDirective>)
    ensures forall i :: 0 <= i < |r| ==> r[i] in directives && r[i].spanStart < start
  {
    var sorted := StableSortBy(directives, SpanStartOf);
    FilterIndexed(sorted, StartsBefore(start));
    assert forall d :: d in sorted ==> d in directives by {
      forall d | d in sorted ensures d in directives {
        assert d in multiset(sorted);
      }
    }
    Filter(sorted, StartsBefore(start))
  }

  /** `precedingDisablePragmas`: ordered by start, those before the span, reversed, and
      taken while they hold a `disable` keyword. */
  function PrecedingDisablePragmas(directives: seq<NullableDirective>, start: nat): (r: seq<NullableDirective>)
    ensures forall i :: 0 <= i < |r| ==> r[i] in directives && r[i].spanStart < start && r[i].hasDisableKeyword
  {
    var before := DirectivesBefore(directives, start);
    var r := TakeWhile(Reverse(before), HasDisableKeyword);
    assert forall i :: 0 <= i < |r| ==> r[i] == before[|before| - 1 - i];
    r
  }

  /** The directives before the span are exactly those of the document that start before it,
      sorted by start. */
  lemma DirectivesBeforeAreSortedAndComplete(directives: seq<NullableDirective>, start: nat)
    ensures var before := DirectivesBefore(directives, start);
            && SortedBy(before, SpanStartOf)
            && (forall i :: 0 <= i < |before| ==> before[i] in directives && before[i].spanStart < start)
            && (forall d :: d in directives && d.spanStart < start ==> d in before)
  {
    var sorted := StableSortBy(directives, SpanStartOf);
    var p := StartsBefore(start);
    var before := Filter(sorted, p);
    FilterKeepsSorted(sorted, p, SpanStartOf);
    forall i | 0 <= i < |before| ensures before[i] in directives && before[i].spanStart < start {
      assert before[i] in before;
      assert before[i] in multiset(sorted);
    }
    forall d | d in directives && d.spanStart < start ensures d in before {
      assert d in multiset(sorted);
    }
  }

  /** The removal candidates are the maximal run of `disable` directives closest before the
      span, in source order the last `n` directives before it, closest first: each of them
      holds a `disable` keyword, and the next one back, if any, does not. */
  lemma PrecedingDisablePragmasAreTheClosestRun(directives: seq<NullableDirective>, start: nat)
    ensures var before := DirectivesBefore(directives, start);
            var run := PrecedingDisablePragmas(directives, start);
            var n := |run|;
            && n <= |before|
            && (forall i :: 0 <= i < n ==> run[i] == before[|before| - 1 - i] && run[i].hasDisableKeyword)
            && (n < |before| ==> !before[|before| - 1 - n].hasDisableKeyword)
  {
    var before := DirectivesBefore(directives, start);
    var run := TakeWhile(Reverse(before), HasDisableKeyword);
    assert PrecedingDisablePragmas(directives, start) == run;
    TakeWhileOfReverse(before, HasDisableKeyword);
    forall i | 0 <= i < |run| ensures run[i].hasDisableKeyword {
      assert HasDisableKeyword(run[i]);
    }
    if |run| < |before| {
      assert !HasDisableKeyword(before[|before| - 1 - |run|]);
    }
  }

  /** `Reverse` then `TakeWhile` takes the longest suffix whose elements satisfy `p`, last
      element first. */
  lemma TakeWhileOfReverse<T>(s: seq<T>, p: T -> bool)
    ensures var r := TakeWhile(Reverse(s), p);
            && |r| <= |s|
            && (forall i :: 0 <= i < |r| ==> r[i] == s[|s| - 1 - i] && p(r[i]))
            && (|r| < |s| ==> !p(s[|s| - 1 - |r|]))
  {
    var r := TakeWhile(Reverse(s), p);
    assert forall i :: 0 <= i < |r| ==> r[i] == Reverse(s)[i];
  }

  /** `FixForNullableEnabledProjectAsync`: the `foreach` asks the editor to remove each
      candidate that is a node, closest first, and skips the others. */
  method FixForNullableEnabledProject(directives: seq<NullableDirective>, span: TextSpan)
    returns (removed: seq<NullableDirective>)
    ensures removed == Filter(PrecedingDisablePragmas(directives, span.start), IsNode)
  {
    var precedingDisablePragmas := PrecedingDisablePragmas(directives, span.start);
    removed := RemoveNodes(precedingDisablePragmas);
  }

  /** The `foreach` of `FixForNullableEnabledProjectAsync`: each candidate that is a node is
      removed, in order; the others are skipped. */
  method RemoveNodes(precedingDisablePragmas: seq<NullableDirective>) returns (removed: seq<NullableDirective>)
    ensures removed == Filter(precedingDisablePragmas, IsNode)
  {
    removed := [];
    for i := 0 to |precedingDisablePragmas|
      invariant removed == Filter(precedingDisablePragmas[..i], IsNode)
    {
      var nullablePragma := precedingDisablePragmas[i];
      FilterOfLongerPrefix(precedingDisablePragmas, i, IsNode);
      if !nullablePragma.isNode {
        continue;
      }
      removed := removed + [nullablePragma];
    }
    assert precedingDisablePragmas[..|precedingDisablePragmas|] == precedingDisablePragmas;
  }

  /** A directive is removed exactly when it is a node, starts before the span, holds a
      `disable` keyword and no directive without one lies between it and the span. */
  lemma RemovedDirectives(directives: seq<NullableDirective>, span: TextSpan, d: NullableDirective)
    ensures var before := DirectivesBefore(directives, span.start);
            var removed := Filter(PrecedingDisablePragmas(directives, span.start), IsNode);
            d in removed
            <==> d.isNode && exists k :: 0 <= k < |before| && before[k] == d
                                         && forall j :: k <= j < |before| ==> before[j].hasDisableKeyword
  {
    InTrailingRun(DirectivesBefore(directives, span.start), HasDisableKeyword, IsNode, d);
  }

  /** An element kept from `TakeWhile(Reverse(s), p)` is one that `q` accepts and after
      which, itself included, every element of `s` satisfies `p`. */
  lemma InTrailingRun<T>(s: seq<T>, p: T -> bool, q: T -> bool, d: T)
    ensures d in Filter(TakeWhile(Reverse(s), p), q)
        <==> q(d) && exists k :: 0 <= k < |s| && s[k] == d && forall j :: k <= j < |s| ==> p(s[j])
  {
    var run := TakeWhile(Reverse(s), p);
    if d in Filter(run, q) {
      assert d in run && q(d);
      var k := RunIsTrailing(s, p, d);
    }
    if q(d) && exists k :: 0 <= k < |s| && s[k] == d && forall j :: k <= j < |s| ==> p(s[j]) {
      var k :| 0 <= k < |s| && s[k] == d && forall j :: k <= j < |s| ==> p(s[j]);
      var i := TrailingIsInRun(s, p, k);
      assert run[i] == d && q(run[i]);
    }
  }

  /** An element of `TakeWhile(Reverse(s), p)` sits in a suffix of `s` that satisfies `p`. */
  lemma RunIsTrailing<T>(s: seq<T>, p: T -> bool, d: T) returns (k: nat)
    requires d in TakeWhile(Reverse(s), p)
    ensures k < |s| && s[k] == d && forall j :: k <= j < |s| ==> p(s[j])
  {
    var run := TakeWhile(Reverse(s), p);
    TakeWhileOfReverse(s, p);
    var i :| 0 <= i < |run| && run[i] == d;
    k := |s| - 1 - i;
    forall j | k <= j < |s| ensures p(s[j]) {
      assert s[j] == run[|s| - 1 - j];
    }
  }

  /** An element followed only by elements satisfying `p` is in `TakeWhile(Reverse(s), p)`. */
  lemma TrailingIsInRun<T>(s: seq<T>, p: T -> bool, k: nat) returns (i: nat)
    requires k < |s| && forall j :: k <= j < |s| ==> p(s[j])
    ensures i < |TakeWhile(Reverse(s), p)| && TakeWhile(Reverse(s), p)[i] == s[k]
  {
    var run := TakeWhile(Reverse(s), p);
    TakeWhileOfReverse(s, p);
    var n := |run|;
    i := |s| - 1 - k;
    if n < |s| {
      var m := |s| - 1 - n;
      assert !p(s[m]);
      assert m < k;
    }
  }

  /** Every removed directive is a `#nullable disable` node that starts before the span;
      directives at or after its start are never removed. */
  lemma RemovedDirectivesPrecedeTheSpan(directives: seq<NullableDirective>, span: TextSpan)
    ensures var removed := Filter(PrecedingDisablePragmas(directives, span.start), IsNode);
            forall d :: d in removed ==> d in directives && d.isNode && d.hasDisableKeyword && d.spanStart < span.start
  {
    DirectivesBeforeAreSortedAndComplete(directives, span.start);
    PrecedingDisablePragmasAreTheClosestRun(directives, span.start);
  }

  /** A directive without `disable` between a directive and the span keeps that directive:
      an `enable` after a `disable` in an earlier class ends the run. */
  lemma NonDisableEndsTheRun(directives: seq<NullableDirective>, start: nat, d: NullableDirective, e: NullableDirective)
    requires d in directives && e in directives
    requires d.spanStart < e.spanStart < start && !e.hasDisableKeyword
    ensures d !in PrecedingDisablePragmas(directives, start)
  {
    DirectivesBeforeAreSortedAndComplete(directives, start);
    LaterFailureEndsTrailingRun(DirectivesBefore(directives, start), SpanStartOf, HasDisableKeyword, d, e);
  }

  /** In a sorted sequence, an element that fails `p` keeps every element with a smaller key
      out of the trailing run of `p`. */
  lemma LaterFailureEndsTrailingRun<T>(s: seq<T>, key: T -> int, p: T -> bool, d: T, e: T)
    requires SortedBy(s, key) && d in s && e in s
    requires key(d) < key(e) && !p(e)
    ensures d !in TakeWhile(Reverse(s), p)
  {
    var run := TakeWhile(Reverse(s), p);
    TakeWhileOfReverse(s, p);
    var m :| 0 <= m < |s| && s[m] == e;
    if m >= |s| - |run| {
      TrailingRunSatisfies(s, p, m);
    }
  }

  /** Every element of the trailing run satisfies `p`. */
  lemma TrailingRunSatisfies<T>(s: seq<T>, p: T -> bool, j: int)
    requires |s| - |TakeWhile(Reverse(s), p)| <= j < |s|
    ensures p(s[j])
  {
    TakeWhileOfReverse(s, p);
    assert s[j] == TakeWhile(Reverse(s), p)[|s| - 1 - j];
  }

  /** When every directive before the span is a `disable`, all of them are candidates,
      closest first: consecutive disables go together, and so does a disable inside an
      earlier type when nothing intervenes. */
  lemma AllPrecedingDisablesAreCandidates(directives: seq<NullableDirective>, start: nat)
    requires forall d :: d in directives && d.spanStart < start ==> d.hasDisableKeyword
    ensures PrecedingDisablePragmas(directives, start) == Reverse(DirectivesBefore(directives, start))
  {
    DirectivesBeforeAreSortedAndComplete(directives, start);
    PrecedingDisablePragmasAreTheClosestRun(directives, start);
  }

  /** `FixAllAsync` makes no change. */
  function FixAll<Doc, D>(document: Doc, diagnostics: seq<D>): (r: Doc)
    ensures r == document
  {
    document
  }
}
