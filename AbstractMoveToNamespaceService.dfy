/** The language-independent part of the move-to-namespace refactoring: it classifies the
    selection as a namespace to move, a named type to move, or types inside a namespace to
    move, or rejects it, and then dispatches the move. The language hooks (the name of a
    namespace or of a type's namespace, whether a span lies in a namespace declaration) and
    the namespaces of the project are parameters; the moves themselves are edits of the
    document and are returned as the operation the dispatch chooses. */
module AbstractMoveToNamespaceService {
  import opened Common
  import opened Syntax
  import opened SelectionAnalyzer
  import opened MoveToNamespaceAnalysisResults

  /** `ContainsNamespaceDeclaration`: a namespace declaration somewhere below the node. */
  predicate ContainsNamespaceDeclaration(node: Node): (r: bool)
    ensures r <==> exists x :: Reaches(node, x, Anything()) && x.kind == NamespaceDeclaration
  {
    var below := DescendantNodes(node, Anything());
    assert forall x :: x in below <==> Reaches(node, x, Anything()) by {
      forall x ensures x in below <==> Reaches(node, x, Anything()) {
        DescendantNodesAreReachable(node, x, Anything());
      }
    }
    ContainsKind(node, NamespaceDeclaration)
  }

  /** `ContainsMultipleNamespaceInSpine`: more than one namespace among the node and its
      ancestors. */
  predicate ContainsMultipleNamespaceInSpine(spine: seq<Node>): (r: bool)
    ensures r <==> exists j, k :: 0 <= j < k < |spine| && spine[j].kind == NamespaceDeclaration && spine[k].kind == NamespaceDeclaration
  {
    FilterKeepsTwo(spine, IsOfKind(NamespaceDeclaration));
    CountOfKind(spine, NamespaceDeclaration) > 1
  }

  /** `ContainsMultipleTypesInSpine`: more than one type among the node and its ancestors. */
  predicate ContainsMultipleTypesInSpine(spine: seq<Node>): (r: bool)
    ensures r <==> exists j, k :: 0 <= j < k < |spine| && spine[j].kind == TypeDeclaration && spine[k].kind == TypeDeclaration
  {
    FilterKeepsTwo(spine, IsOfKind(TypeDeclaration));
    CountOfKind(spine, TypeDeclaration) > 1
  }

  /** A namespace nested in another namespace has more than one namespace in its spine, and
      so does a type inside two namespaces. */
  lemma NestedNamespacesAreMultiple(spine: seq<Node>, j: nat, k: nat)
    requires j < k < |spine|
    requires spine[j].kind == NamespaceDeclaration && spine[k].kind == NamespaceDeclaration
    ensures ContainsMultipleNamespaceInSpine(spine)
  {
    CountOfKindSplit(spine, NamespaceDeclaration, k);
    CountOfKindSplit(spine[..k], NamespaceDeclaration, j);
    assert spine[..k][j..][0] == spine[j];
    CountOfKindAtLeastOne(spine[..k][j..], NamespaceDeclaration);
    CountOfKindAtLeastOne(spine[k..], NamespaceDeclaration);
  }

  /** The types the selection meets among the context's children. */
  function IntersectedTypeNodes<Doc>(analysis: SelectionAnalysisResult<Doc>): seq<Node>
  {
    Filter(analysis.intersectedNodes, IsOfKind(TypeDeclaration))
  }

  /** `TryAnalyzeNamespaceAsync`. A namespace context that the selection meets types in is a
      move of those types. Otherwise the closest namespace at or above the context is moved,
      unless there is none, the selection is a caret outside it, it holds another namespace,
      or it lies in another namespace. */
  function TryAnalyzeNamespace<Doc>(analysis: SelectionAnalysisResult<Doc>, getNamespaceName: Node -> string,
                                    isContainedInNamespaceDeclaration: (Node, TextSpan) -> bool,
                                    namespaces: seq<string>)
    : (r: MoveToNamespaceAnalysisResult<Doc>)
    requires IsAnalysisOf(analysis)
    ensures r.Valid? ==> IsAnalysisOf(r.selectionAnalysis) && r.namespaces == namespaces && r.container != NamedType
    ensures r.Valid? ==> r.selectionAnalysis.context[0].kind == NamespaceDeclaration
    ensures analysis.context[0].kind == NamespaceDeclaration && IntersectedTypeNodes(analysis) != [] ==>
              r == Valid(analysis, getNamespaceName(analysis.context[0]), namespaces, MultipleNamedTypes)
    ensures r.Valid? && r.container == MultipleNamedTypes ==>
              r.selectionAnalysis == analysis && IntersectedTypeNodes(analysis) != []
              && r.originalNamespace == getNamespaceName(analysis.context[0])
    ensures r.Valid? && r.container == Namespace ==>
              var ctx := r.selectionAnalysis.context;
              && !ContainsNamespaceDeclaration(ctx[0]) && !ContainsMultipleNamespaceInSpine(ctx)
              && r.originalNamespace == getNamespaceName(ctx[0])
              && r.selectionAnalysis.selection == analysis.selection
              && exists k :: 0 <= k < |analysis.context| && ctx == analysis.context[k..]
                             && forall i :: 0 <= i < k ==> analysis.context[i].kind != NamespaceDeclaration
  {
    var context := analysis.context;
    if context[0].kind == NamespaceDeclaration && IntersectedTypeNodes(analysis) != [] then
      NewAnalysisResult(analysis, getNamespaceName(context[0]), namespaces, MultipleNamedTypes)
    else
      var k := FirstAncestorOrSelf(context, IsOfKind(NamespaceDeclaration));
      if k == |context| then
        Invalid
      else
        var declarationSyntax := context[k];
        if analysis.selection.IsEmpty() && !isContainedInNamespaceDeclaration(declarationSyntax, analysis.selection) then
          Invalid
        else
          AncestorSpine(context, k);
          if ContainsNamespaceDeclaration(declarationSyntax) || ContainsMultipleNamespaceInSpine(context[k..]) then
            Invalid
          else
            NewAnalysisResult(WithContext(analysis, context[k..]), getNamespaceName(declarationSyntax), namespaces, Namespace)
  }

  /** The rejections of the namespace analysis, each with its reason: outside a
      multiple-types selection, no namespace at or above the context, a caret outside it, a
      namespace inside it, or a namespace around it. */
  lemma NamespaceAnalysisIsInvalidExactly<Doc>(analysis: SelectionAnalysisResult<Doc>, getNamespaceName: Node -> string,
                                               isContainedInNamespaceDeclaration: (Node, TextSpan) -> bool,
                                               namespaces: seq<string>)
    requires IsAnalysisOf(analysis)
    ensures var context := analysis.context;
            var k := FirstAncestorOrSelf(context, IsOfKind(NamespaceDeclaration));
            TryAnalyzeNamespace(analysis, getNamespaceName, isContainedInNamespaceDeclaration, namespaces) == Invalid
            <==> !(context[0].kind == NamespaceDeclaration && IntersectedTypeNodes(analysis) != [])
                 && (k == |context|
                     || (analysis.selection.IsEmpty() && !isContainedInNamespaceDeclaration(context[k], analysis.selection))
                     || ContainsNamespaceDeclaration(context[k])
                     || ContainsMultipleNamespaceInSpine(context[k..]))
  {
  }

  /** `TryAnalyzeNamedTypeAsync`: a type nested in another type, or inside two namespaces,
      is rejected; a type is moved with the name its hook gives; any other context gives
      null. */
  function TryAnalyzeNamedType<Doc>(analysis: SelectionAnalysisResult<Doc>, getNamespaceName: Node -> string,
                                    namespaces: seq<string>)
    : (r: Option<MoveToNamespaceAnalysisResult<Doc>>)
    requires IsAnalysisOf(analysis)
    ensures r.None? <==> !ContainsMultipleNamespaceInSpine(analysis.context) && !ContainsMultipleTypesInSpine(analysis.context)
                         && analysis.context[0].kind != TypeDeclaration
    ensures r == Some(Invalid) <==> ContainsMultipleNamespaceInSpine(analysis.context) || ContainsMultipleTypesInSpine(analysis.context)
    ensures r.Some? && r.value.Valid? ==>
              r.value == Valid(analysis, getNamespaceName(analysis.context[0]), namespaces, NamedType)
              && analysis.context[0].kind == TypeDeclaration
  {
    var node := analysis.context;
    if ContainsMultipleNamespaceInSpine(node) || ContainsMultipleTypesInSpine(node) then
      Some(Invalid)
    else if node[0].kind == TypeDeclaration then
      Some(NewAnalysisResult(analysis, getNamespaceName(node[0]), namespaces, NamedType))
    else
      None
  }

  /** The shape of a result the analysis can produce: the selection analysis is well formed,
      and its context is what the move for the container expects. */
  predicate IsWellFormedResult<Doc>(r: MoveToNamespaceAnalysisResult<Doc>)
  {
    r.Valid? ==>
      && IsAnalysisOf(r.selectionAnalysis)
      && (r.container == Namespace ==>
            r.selectionAnalysis.context[0].kind == NamespaceDeclaration
            && !ContainsMultipleNamespaceInSpine(r.selectionAnalysis.context))
      && (r.container == NamedType ==> r.selectionAnalysis.context[0].kind == TypeDeclaration)
      && (r.container == MultipleNamedTypes ==>
            r.selectionAnalysis.context[0].kind == NamespaceDeclaration && r.selectionAnalysis.intersectedNodes != [])
  }

  /** `AnalyzeTypeAtSelectionAsync`: a type-declaration context is analysed as a named type,
      any other as a namespace; the named-type analysis never gives null here. */
  function AnalyzeTypeAtSelection<Doc>(document: Doc, span: TextSpan, findNode: TextSpan -> seq<Node>,
                                       getNamespaceName: Node -> string,
                                       isContainedInNamespaceDeclaration: (Node, TextSpan) -> bool,
                                       namespaces: seq<string>)
    : (r: MoveToNamespaceAnalysisResult<Doc>)
    requires IsSpine(findNode(span))
    ensures IsWellFormedResult(r)
    ensures r.Valid? ==> r.selectionAnalysis.document == document && r.selectionAnalysis.selection == span
                         && r.namespaces == namespaces
  {
    var analysis := Analyze(document, span, findNode);
    if analysis.context[0].kind == TypeDeclaration then
      TryAnalyzeNamedType(analysis, getNamespaceName, namespaces).value
    else
      var r := TryAnalyzeNamespace(analysis, getNamespaceName, isContainedInNamespaceDeclaration, namespaces);
      assert r.Valid? && r.container == MultipleNamedTypes ==> analysis.intersectedNodes != [] by {
        if r.Valid? && r.container == MultipleNamedTypes {
          assert IntersectedTypeNodes(analysis)[0] in analysis.intersectedNodes;
        }
      }
      r
  }

  /** The code action the refactoring offers for a result. */
  datatype MoveToNamespaceCodeAction<Doc> = MoveToNamespaceCodeAction(analysisResult: MoveToNamespaceAnalysisResult<Doc>)

  /** `GetCodeActionsAsync`: one action when the analysis can be performed, none otherwise. */
  function GetCodeActions<Doc>(typeAnalysisResult: MoveToNamespaceAnalysisResult<Doc>)
    : (r: seq<MoveToNamespaceCodeAction<Doc>>)
    ensures |r| <= 1
    ensures r != [] <==> typeAnalysisResult.CanPerform()
    ensures r != [] ==> r[0].analysisResult == typeAnalysisResult
  {
    if typeAnalysisResult.CanPerform() then [MoveToNamespaceCodeAction(typeAnalysisResult)] else []
  }

  /** The move `MoveToNamespaceAsync` starts. */
  datatype MoveOperation<Doc> =
    | Failed
    | MoveItemsInNamespace(document: Doc, namespaceDeclaration: Node, targetNamespace: string)
    | MoveTypeToNamespace(selectionAnalysis: SelectionAnalysisResult<Doc>, targetNamespace: string)
    | MoveMultipleTypesToNamespace(selectionAnalysis: SelectionAnalysisResult<Doc>, targetNamespace: string)

  /** `MoveToNamespaceAsync`: fails for a result that cannot be performed, and otherwise
      moves the namespace's items, the type, or the selected types. The cast of a namespace
      result's context to a namespace declaration holds for every well-formed result. */
  function MoveToNamespace<Doc>(analysisResult: MoveToNamespaceAnalysisResult<Doc>, targetNamespace: string)
    : (r: MoveOperation<Doc>)
    requires IsWellFormedResult(analysisResult)
    ensures r.Failed? <==> !analysisResult.CanPerform()
    ensures r.MoveItemsInNamespace? <==> analysisResult.Valid? && analysisResult.container == Namespace
    ensures r.MoveTypeToNamespace? <==> analysisResult.Valid? && analysisResult.container == NamedType
    ensures r.MoveMultipleTypesToNamespace? <==> analysisResult.Valid? && analysisResult.container == MultipleNamedTypes
    ensures r.MoveItemsInNamespace? ==> r.namespaceDeclaration.kind == NamespaceDeclaration
    ensures !r.Failed? ==> r.targetNamespace == targetNamespace
  {
    if !analysisResult.CanPerform() then Failed
    else
      match analysisResult.container
      case Namespace =>
        MoveItemsInNamespace(analysisResult.selectionAnalysis.document, analysisResult.selectionAnalysis.context[0], targetNamespace)
      case NamedType => MoveTypeToNamespace(analysisResult.selectionAnalysis, targetNamespace)
      case MultipleNamedTypes => MoveMultipleTypesToNamespace(analysisResult.selectionAnalysis, targetNamespace)
  }

  /** `String.Substring` throws when the start is past the end. */
  datatype SubstringError = ArgumentOutOfRange

  /** `GetNewSymbolName`: the symbol's display name with its containing namespace's part
      replaced by the target namespace. */
  function GetNewSymbolName(symbolDisplay: string, containingNamespaceDisplay: string, targetNamespace: string)
    : (r: Result<string, SubstringError>)
    ensures r.Err? <==> |containingNamespaceDisplay| > |symbolDisplay|
    ensures r.Ok? ==> |r.value| == |targetNamespace| + |symbolDisplay| - |containingNamespaceDisplay|
                      && r.value[..|targetNamespace|] == targetNamespace
                      && r.value[|targetNamespace|..] == symbolDisplay[|containingNamespaceDisplay|..]
  {
    if |containingNamespaceDisplay| > |symbolDisplay| then Err(ArgumentOutOfRange)
    else Ok(targetNamespace + symbolDisplay[|containingNamespaceDisplay|..])
  }

  /** A symbol displayed as its namespace followed by the rest of its name is renamed to the
      target namespace followed by that rest: `A.B.C` moved from `A.B` to `X` is `X.C`. */
  lemma NewSymbolNameReplacesTheNamespace(ns: string, rest: string, targetNamespace: string)
    ensures GetNewSymbolName(ns + rest, ns, targetNamespace) == Ok(targetNamespace + rest)
  {
    assert (ns + rest)[|ns|..] == rest;
  }
}
