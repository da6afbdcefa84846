/** The C# selection rules of the extract-members analysis: the class declaration a span
    selects, and the member declarations and variable declarators it selects within one
    type declaration. The relevant nodes of a span (`GetRelevantNodesAsync`) are given, each
    with its ancestors. */
module CSharpExtractMembersAnalyzer {
  import opened Common
  import opened Syntax

  /** `GetSelectedClassDeclarationAsync`: the first relevant class declaration, or null. */
  function GetSelectedClassDeclaration(relevantNodes: seq<seq<Node>>): (r: Option<seq<Node>>)
    ensures r.None? <==> relevantNodes == []
    ensures r.Some? ==> r.value == relevantNodes[0]
  {
    if relevantNodes == [] then None else Some(relevantNodes[0])
  }

  /** The sort key `span.CompareTo(n.Span)`. */
  function CompareToSpan(span: TextSpan): seq<Node> -> int
  {
    (n: seq<Node>) => if n == [] then 0 else span.CompareTo(n[0].span)
  }

  /** The type declaration at or above a node (`FirstAncestorOrSelf(IsTypeDeclaration)`). */
  function ContainingTypeDeclaration(n: seq<Node>): Option<Node>
  {
    AncestorOrSelfWhere(n, IsOfKind(TypeDeclaration))
  }

  function HasContainingDeclaration(containing: Option<Node>): seq<Node> -> bool
  {
    (n: seq<Node>) => ContainingTypeDeclaration(n) == containing
  }

  /** The relevant nodes, each once, ordered by `span.CompareTo(n.Span)`. */
  function RelevantNodes(memberDeclarations: seq<seq<Node>>, variableDeclarations: seq<seq<Node>>, span: TextSpan)
    : (r: seq<seq<Node>>)
    ensures NoDuplicates(r)
    ensures SortedBy(r, CompareToSpan(span))
    ensures forall n :: n in r <==> n in memberDeclarations || n in variableDeclarations
  {
    var all := memberDeclarations + variableDeclarations;
    var distinct := Distinct(all);
    var r := StableSortBy(distinct, CompareToSpan(span));
    assert forall n :: n in r <==> n in distinct by {
      forall n ensures n in r <==> n in distinct {
        assert n in r <==> n in multiset(r);
      }
    }
    assert forall n :: n in distinct <==> n in all by {
      forall n | n in all ensures n in distinct {
        var i :| 0 <= i < |all| && all[i] == n;
      }
    }
    PermutationKeepsNoDuplicates(distinct, r);
    r
  }

  /** `GetSelectedMemberNodesAsync`: no nodes when nothing is relevant; otherwise the
      relevant nodes in sort order whose containing type declaration is that of the first
      relevant node. */
  function GetSelectedMemberNodes(memberDeclarations: seq<seq<Node>>, variableDeclarations: seq<seq<Node>>, span: TextSpan)
    : (r: seq<seq<Node>>)
    ensures r == [] <==> memberDeclarations == [] && variableDeclarations == []
    ensures forall n :: n in r ==> n in memberDeclarations || n in variableDeclarations
    ensures NoDuplicates(r)
    ensures SortedBy(r, CompareToSpan(span))
    ensures r != [] ==> r[0] == RelevantNodes(memberDeclarations, variableDeclarations, span)[0]
    ensures forall i :: 0 <= i < |r| ==> ContainingTypeDeclaration(r[i]) == ContainingTypeDeclaration(r[0])
  {
    if memberDeclarations == [] && variableDeclarations == [] then []
    else
      var relevantNodes := RelevantNodes(memberDeclarations, variableDeclarations, span);
      var some := if memberDeclarations != [] then memberDeclarations[0] else variableDeclarations[0];
      assert some in memberDeclarations || some in variableDeclarations;
      assert some in relevantNodes;
      var containingDeclaration := ContainingTypeDeclaration(relevantNodes[0]);
      var p := HasContainingDeclaration(containingDeclaration);
      var r := Filter(relevantNodes, p);
      FilterFirst(relevantNodes, p, 0);
      FilterIndexed(relevantNodes, p);
      FilterSubset(relevantNodes, p);
      FilterKeepsSorted(relevantNodes, p, CompareToSpan(span));
      FilterKeepsNoDuplicates(relevantNodes, p);
      r
  }

  /** The selection is exactly the relevant nodes sharing the first relevant node's
      containing type declaration: nothing of another type declaration, nothing left out. */
  lemma SelectedMembersAreThoseOfTheFirstDeclaration(memberDeclarations: seq<seq<Node>>, variableDeclarations: seq<seq<Node>>,
                                                     span: TextSpan, n: seq<Node>)
    requires memberDeclarations != [] || variableDeclarations != []
    ensures var first := RelevantNodes(memberDeclarations, variableDeclarations, span)[0];
            n in GetSelectedMemberNodes(memberDeclarations, variableDeclarations, span)
            <==> (n in memberDeclarations || n in variableDeclarations)
                 && ContainingTypeDeclaration(n) == ContainingTypeDeclaration(first)
  {
    var relevantNodes := RelevantNodes(memberDeclarations, variableDeclarations, span);
    assert (memberDeclarations + variableDeclarations)[0] in relevantNodes;
    var p := HasContainingDeclaration(ContainingTypeDeclaration(relevantNodes[0]));
    if n in relevantNodes && p(n) {
      var i :| 0 <= i < |relevantNodes| && relevantNodes[i] == n;
    }
  }

  /** The order `span.CompareTo(n.Span)` puts a node that starts later than another first,
      unless one of them starts exactly where the span does; nodes starting there come
      longest first. */
  lemma SelectedMembersStartLatestFirst(memberDeclarations: seq<seq<Node>>, variableDeclarations: seq<seq<Node>>,
                                        span: TextSpan, i: nat, j: nat)
    requires i < j < |GetSelectedMemberNodes(memberDeclarations, variableDeclarations, span)|
    ensures var r := GetSelectedMemberNodes(memberDeclarations, variableDeclarations, span);
            r[i] != [] && r[j] != [] ==>
              var a := r[i][0].span;
              var b := r[j][0].span;
              && (a.start != span.start && b.start != span.start ==> a.start >= b.start)
              && (a.start == span.start && b.start == span.start ==> a.length >= b.length)
  {
    var r := GetSelectedMemberNodes(memberDeclarations, variableDeclarations, span);
    assert CompareToSpan(span)(r[i]) <= CompareToSpan(span)(r[j]);
  }
}
