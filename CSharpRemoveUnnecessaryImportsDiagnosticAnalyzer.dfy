/** The C# hooks of the unnecessary-usings analyzer: which spans the "remove unnecessary
    usings" fix is offered on. Each unnecessary using is given as its spine (the directive,
    then its ancestors); the span of a container's using directives is the syntax layer's
    `Usings.GetContainedSpan()` and is a parameter. The result is the sequence the iterator
    yields together with the exception, if any, that ends it. */
module CSharpRemoveUnnecessaryImportsDiagnosticAnalyzer {
  import opened Common
  import opened Syntax

  /** `ImmutableArray.CastUp`: C# merges nothing, the imports are returned as they are. */
  function MergeImports<U>(unnecessaryImports: seq<U>): (r: seq<U>)
    ensures |r| == |unnecessaryImports| && forall i :: 0 <= i < |r| ==> r[i] == unnecessaryImports[i]
  {
    unnecessaryImports
  }

  /** `TryGetLastToken`: C# needs no special last token. */
  function TryGetLastToken<Token>(node: Node): (r: Option<Token>)
    ensures r.None?
  {
    None
  }

  /** The kinds of trivia the comment test tells apart. */
  datatype TriviaKind =
    | SingleLineCommentTrivia
    | MultiLineCommentTrivia
    | SingleLineDocumentationCommentTrivia
    | MultiLineDocumentationCommentTrivia
    | OtherTrivia

  /** `IsRegularCommentOrDocComment`: a `//` or `/* */` comment or a documentation comment. */
  predicate IsRegularCommentOrDocComment(trivia: TriviaKind)
  {
    trivia != OtherTrivia
  }

  lemma CommentsAreRegularOrDoc(trivia: TriviaKind)
    ensures IsRegularCommentOrDocComment(trivia)
        <==> (trivia == SingleLineCommentTrivia || trivia == MultiLineCommentTrivia)
             || (trivia == SingleLineDocumentationCommentTrivia || trivia == MultiLineDocumentationCommentTrivia)
  {
  }

  /** The exceptions that end the enumeration: `Contract.ThrowIfFalse` on no nodes, and
      `First` when a node has no namespace or compilation unit above it. */
  datatype Exception = ContractFailure | NoMatchingElement

  /** What enumerating the iterator gives: the spans yielded, then the exception if any. */
  datatype Enumeration = Enumeration(yielded: seq<TextSpan>, thrown: Option<Exception>)

  /** A namespace declaration (block or file-scoped) or a compilation unit. */
  predicate IsContainer(n: Node)
  {
    n.kind == NamespaceDeclaration || n.kind == CompilationUnit
  }

  /** `GetAncestors().First(...)`: the closest strict ancestor that is a container. */
  function ContainerOf(spine: seq<Node>): (r: Option<Node>)
    requires spine != []
    ensures r.Some? ==> IsContainer(r.value) && r.value in spine[1..]
    ensures r.None? <==> forall i :: 1 <= i < |spine| ==> !IsContainer(spine[i])
  {
    var r := AncestorOrSelfWhere(spine[1..], IsContainer);
    assert forall i :: 1 <= i < |spine| ==> spine[i] == spine[1..][i - 1];
    r
  }

  /** The number of leading nodes that have a container. */
  function Resolved(nodes: seq<seq<Node>>): (k: nat)
    requires forall i :: 0 <= i < |nodes| ==> nodes[i] != []
    ensures k <= |nodes|
    ensures forall i :: 0 <= i < k ==> ContainerOf(nodes[i]).Some?
    ensures k < |nodes| ==> ContainerOf(nodes[k]).None?
  {
    if nodes == [] || ContainerOf(nodes[0]).None? then 0
    else
      var k := Resolved(nodes[1..]);
      assert forall i :: 1 <= i < |nodes| ==> nodes[i] == nodes[1..][i - 1];
      1 + k
  }

  /** The containers of nodes that all have one. */
  function Containers(nodes: seq<seq<Node>>): (r: seq<Node>)
    requires forall i :: 0 <= i < |nodes| ==> nodes[i] != [] && ContainerOf(nodes[i]).Some?
    ensures |r| == |nodes| && forall i :: 0 <= i < |nodes| ==> r[i] == ContainerOf(nodes[i]).value
  {
    if nodes == [] then []
    else
      AllResolvedTail(nodes);
      var rest := Containers(nodes[1..]);
      var r := [ContainerOf(nodes[0]).value] + rest;
      assert forall i :: 0 < i < |r| ==> r[i] == rest[i - 1] && nodes[1..][i - 1] == nodes[i];
      r
  }

  /** The nodes after the first of nodes that all have a container all have one. */
  lemma AllResolvedTail(nodes: seq<seq<Node>>)
    requires nodes != []
    requires forall i :: 0 <= i < |nodes| ==> nodes[i] != [] && ContainerOf(nodes[i]).Some?
    ensures forall i :: 0 <= i < |nodes[1..]| ==> nodes[1..][i] != [] && ContainerOf(nodes[1..][i]).Some?
  {
    forall i | 0 <= i < |nodes[1..]|
      ensures nodes[1..][i] != [] && ContainerOf(nodes[1..][i]).Some?
    {
      assert nodes[1..][i] == nodes[i + 1];
    }
  }

  /** `GetFixableDiagnosticSpans`: the usings span of each distinct container, in the order
      the containers first occur. `Distinct` yields a container as soon as it first meets
      it, so when a node has no container the spans of the containers met before it have
      already been yielded. */
  function GetFixableDiagnosticSpans(nodes: seq<seq<Node>>, usingsSpan: Node -> TextSpan): (r: Enumeration)
    requires forall i :: 0 <= i < |nodes| ==> nodes[i] != []
    ensures nodes == [] ==> r == Enumeration([], Some(ContractFailure))
    ensures r.thrown == Some(NoMatchingElement) <==>
              nodes != [] && exists i :: 0 <= i < |nodes| && ContainerOf(nodes[i]).None?
  {
    if nodes == [] then Enumeration([], Some(ContractFailure))
    else
      var k := Resolved(nodes);
      var spans := Map(Distinct(Containers(nodes[..k])), usingsSpan);
      Enumeration(spans, if k < |nodes| then Some(NoMatchingElement) else None)
  }

  /** When every node has a container, the spans are those of the distinct containers, one
      each, in first-occurrence order, and nothing is thrown. `Containers(nodes)[i]` is the
      container of `nodes[i]`. */
  lemma OneSpanPerDistinctContainer(nodes: seq<seq<Node>>, usingsSpan: Node -> TextSpan)
    requires nodes != []
    requires forall i :: 0 <= i < |nodes| ==> nodes[i] != [] && ContainerOf(nodes[i]).Some?
    ensures var r := GetFixableDiagnosticSpans(nodes, usingsSpan);
            var distinct := Distinct(Containers(nodes));
            && r.thrown.None?
            && |r.yielded| == |distinct|
            && (forall i :: 0 <= i < |distinct| ==> r.yielded[i] == usingsSpan(distinct[i]))
            && NoDuplicates(distinct)
            && (forall c :: c in distinct <==> c in Containers(nodes))
  {
    var cs := Containers(nodes);
    AllResolvedYieldsEveryContainer(nodes, usingsSpan);
    forall c ensures c in Distinct(cs) <==> c in cs {
      DistinctHasTheSameElements(cs, c);
    }
  }

  /** When every node has a container, nothing is thrown and every distinct container's span
      is yielded. */
  lemma AllResolvedYieldsEveryContainer(nodes: seq<seq<Node>>, usingsSpan: Node -> TextSpan)
    requires nodes != []
    requires forall i :: 0 <= i < |nodes| ==> nodes[i] != [] && ContainerOf(nodes[i]).Some?
    ensures GetFixableDiagnosticSpans(nodes, usingsSpan) == Enumeration(Map(Distinct(Containers(nodes)), usingsSpan), None)
  {
    AllAreResolved(nodes);
    assert nodes[..|nodes|] == nodes;
  }

  /** When every node has a container, all of them are resolved. */
  lemma AllAreResolved(nodes: seq<seq<Node>>)
    requires forall i :: 0 <= i < |nodes| ==> nodes[i] != [] && ContainerOf(nodes[i]).Some?
    ensures Resolved(nodes) == |nodes|
  {
    var k := Resolved(nodes);
    if k < |nodes| {
      assert false;
    }
  }

  /** Several unnecessary usings of one container give a single span. */
  lemma OneContainerGivesOneSpan(nodes: seq<seq<Node>>, usingsSpan: Node -> TextSpan, c: Node)
    requires nodes != []
    requires forall i :: 0 <= i < |nodes| ==> nodes[i] != [] && ContainerOf(nodes[i]) == Some(c)
    ensures GetFixableDiagnosticSpans(nodes, usingsSpan) == Enumeration([usingsSpan(c)], None)
  {
    var k := Resolved(nodes);
    assert nodes[..k] == nodes;
    var cs := Containers(nodes);
    DistinctOfConstant(cs, c);
  }

  /** The first node without a container ends the enumeration; the spans of the containers
      of the nodes before it have been yielded. */
  lemma MissingContainerEndsTheEnumeration(nodes: seq<seq<Node>>, usingsSpan: Node -> TextSpan, k: nat)
    requires forall i :: 0 <= i < |nodes| ==> nodes[i] != []
    requires k < |nodes| && ContainerOf(nodes[k]).None?
    requires forall i :: 0 <= i < k ==> ContainerOf(nodes[i]).Some?
    ensures var r := GetFixableDiagnosticSpans(nodes, usingsSpan);
            && r.thrown == Some(NoMatchingElement)
            && r.yielded == Map(Distinct(Containers(nodes[..k])), usingsSpan)
  {
    var j := Resolved(nodes);
    if j < k {
      assert false;
    }
    if k < j {
      assert false;
    }
  }
}
