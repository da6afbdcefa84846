/** The language-neutral extract-member analysis shared by pull-member-up and extract-class:
    the members a span selects, with the type that declares them, or else the type
    declaration the span selects. The language-specific selection
    (`GetSelectedMemberNodesAsync`, `GetSelectedClassDeclarationAsync`), `FindNode`, the
    semantic model's `GetDeclaredSymbol`, `ContainingType`, `GetMembersOfTypeDeclaration` and
    `MemberAndDestinationValidator.IsMemberValid` are parameters. Nodes are given with their
    ancestors. */
module AbstractExtractMemberAnalyzer {
  import opened Common
  import opened Syntax

  /** A selected member: its node and the symbol it declares. */
  datatype MemberPair<S> = MemberPair(node: seq<Node>, symbol: S)

  /** `ExtractMemberAnalysis`: the singleton `InvalidSelection`, or the original type, its
      declaration node and the selected members (`default` when a whole type is selected). */
  datatype ExtractMemberAnalysis<S> =
    | InvalidSelection
    | ExtractMemberAnalysis(originalType: Option<S>, originalTypeDeclarationNode: Option<Node>,
                            selectedMembers: Option<seq<MemberPair<S>>>)

  /** Every selected member node has a node (so has a span). */
  predicate HasMemberNodes<S>(analysis: ExtractMemberAnalysis<S>)
  {
    analysis.ExtractMemberAnalysis? && analysis.selectedMembers.Some? ==>
      forall i :: 0 <= i < |analysis.selectedMembers.value| ==> analysis.selectedMembers.value[i].node != []
  }

  function TypeDeclarationOf(n: seq<Node>): Option<Node>
  {
    AncestorOrSelfWhere(n, IsOfKind(TypeDeclaration))
  }

  /** The node declares a symbol and that symbol is a valid member to move. */
  predicate DeclaresValidMember<S>(n: seq<Node>, declaredSymbol: seq<Node> -> Option<S>, isMemberValid: S -> bool)
  {
    declaredSymbol(n).Some? && isMemberValid(declaredSymbol(n).value)
  }

  function DeclaresValidMemberOf<S>(declaredSymbol: seq<Node> -> Option<S>, isMemberValid: S -> bool): seq<Node> -> bool
  {
    (n: seq<Node>) => DeclaresValidMember(n, declaredSymbol, isMemberValid)
  }

  function NodeOf<S>(p: MemberPair<S>): seq<Node> { p.node }

  /** `Select(node => (node, GetDeclaredSymbol(node))).Where(symbol != null && IsMemberValid)`:
      the pairs are the nodes declaring a valid member, in order, each with its symbol. */
  function SelectedMemberPairs<S>(nodes: seq<seq<Node>>, declaredSymbol: seq<Node> -> Option<S>, isMemberValid: S -> bool)
    : (r: seq<MemberPair<S>>)
    ensures Map(r, NodeOf) == Filter(nodes, DeclaresValidMemberOf(declaredSymbol, isMemberValid))
    ensures forall i :: 0 <= i < |r| ==> declaredSymbol(r[i].node) == Some(r[i].symbol) && isMemberValid(r[i].symbol)
  {
    if nodes == [] then []
    else
      var rest := SelectedMemberPairs(nodes[1..], declaredSymbol, isMemberValid);
      var n := nodes[0];
      var p := DeclaresValidMemberOf(declaredSymbol, isMemberValid);
      assert nodes == [n] + nodes[1..];
      FilterCons(n, nodes[1..], p);
      if DeclaresValidMember(n, declaredSymbol, isMemberValid) then
        var pair := MemberPair(n, declaredSymbol(n).value);
        MapAppend([pair], rest, NodeOf);
        assert Map([pair], NodeOf) == [n];
        var r := [pair] + rest;
        assert forall i :: 0 < i < |r| ==> r[i] == rest[i - 1];
        r
      else rest
  }

  /** Every pair's node is one of the selected nodes, so it is not empty when none of them is. */
  lemma PairNodesAreSelected<S>(nodes: seq<seq<Node>>, declaredSymbol: seq<Node> -> Option<S>, isMemberValid: S -> bool)
    requires forall i :: 0 <= i < |nodes| ==> nodes[i] != []
    ensures var pairs := SelectedMemberPairs(nodes, declaredSymbol, isMemberValid);
            forall i :: 0 <= i < |pairs| ==> pairs[i].node != []
  {
    var pairs := SelectedMemberPairs(nodes, declaredSymbol, isMemberValid);
    var kept := Filter(nodes, DeclaresValidMemberOf(declaredSymbol, isMemberValid));
    forall i | 0 <= i < |pairs| ensures pairs[i].node != [] {
      assert pairs[i].node == Map(pairs, NodeOf)[i] == kept[i];
      assert kept[i] in kept;
      var j :| 0 <= j < |nodes| && nodes[j] == kept[i];
    }
  }

  /** `GetMemberNodeAnalysisAsync`: none when no selected node declares a valid member;
      otherwise the selected pairs with the containing type of the first pair and the type
      declaration above its node. */
  function GetMemberNodeAnalysis<S>(selectedMemberNodes: seq<seq<Node>>, declaredSymbol: seq<Node> -> Option<S>,
                                    isMemberValid: S -> bool, containingType: S -> Option<S>)
    : (r: Option<ExtractMemberAnalysis<S>>)
    ensures r.None? <==> forall i :: 0 <= i < |selectedMemberNodes| ==> !DeclaresValidMember(selectedMemberNodes[i], declaredSymbol, isMemberValid)
    ensures r.Some? ==> && r.value.ExtractMemberAnalysis?
                        && r.value.selectedMembers == Some(SelectedMemberPairs(selectedMemberNodes, declaredSymbol, isMemberValid))
                        && r.value.selectedMembers.value != []
  {
    var pairs := SelectedMemberPairs(selectedMemberNodes, declaredSymbol, isMemberValid);
    var p := DeclaresValidMemberOf(declaredSymbol, isMemberValid);
    assert |Filter(selectedMemberNodes, p)| == |pairs|;
    if pairs == [] then
      FilterEmpty(selectedMemberNodes, p);
      None
    else
      var kept := Filter(selectedMemberNodes, p);
      assert kept[0] in kept;
      var firstPair := pairs[0];
      Some(ExtractMemberAnalysis(containingType(firstPair.symbol), TypeDeclarationOf(firstPair.node), Some(pairs)))
  }

  /** The first selected node that declares a valid member decides the original type and its
      declaration node. */
  lemma FirstValidMemberDecidesTheType<S>(selectedMemberNodes: seq<seq<Node>>, declaredSymbol: seq<Node> -> Option<S>,
                                          isMemberValid: S -> bool, containingType: S -> Option<S>, k: nat)
    requires k < |selectedMemberNodes| && DeclaresValidMember(selectedMemberNodes[k], declaredSymbol, isMemberValid)
    requires forall j :: 0 <= j < k ==> !DeclaresValidMember(selectedMemberNodes[j], declaredSymbol, isMemberValid)
    ensures var r := GetMemberNodeAnalysis(selectedMemberNodes, declaredSymbol, isMemberValid, containingType);
            && r.Some? && r.value.ExtractMemberAnalysis?
            && r.value.originalType == containingType(declaredSymbol(selectedMemberNodes[k]).value)
            && r.value.originalTypeDeclarationNode == TypeDeclarationOf(selectedMemberNodes[k])
  {
    var pairs := SelectedMemberPairs(selectedMemberNodes, declaredSymbol, isMemberValid);
    var p := DeclaresValidMemberOf(declaredSymbol, isMemberValid);
    FilterFirst(selectedMemberNodes, p, k);
    assert Map(pairs, NodeOf)[0] == pairs[0].node;
  }

  /** `GetClassNodeAnalysisAsync`: the selected class declaration, or else the type
      declaration at or above the node the span finds provided that node is one of its
      members; then a result only if the declaration declares a named type. */
  function GetClassNodeAnalysis<S>(selectedClassNode: Option<seq<Node>>, selectedNode: seq<Node>,
                                   membersOfTypeDeclaration: Node -> seq<Node>, declaredNamedType: seq<Node> -> Option<S>)
    : (r: Option<ExtractMemberAnalysis<S>>)
    requires selectedClassNode.Some? ==> selectedClassNode.value != []
    ensures r.Some? ==> && r.value.ExtractMemberAnalysis?
                        && r.value.originalType.Some? && r.value.originalTypeDeclarationNode.Some?
                        && r.value.selectedMembers.None?
    ensures selectedClassNode.Some? ==>
              && (r.Some? <==> declaredNamedType(selectedClassNode.value).Some?)
              && (r.Some? ==> && r.value.originalTypeDeclarationNode == Some(selectedClassNode.value[0])
                              && r.value.originalType == declaredNamedType(selectedClassNode.value))
    ensures selectedClassNode.None? && r.Some? ==>
              var declaration := r.value.originalTypeDeclarationNode.value;
              && TypeDeclarationOf(selectedNode) == Some(declaration)
              && selectedNode != [] && selectedNode[0] in membersOfTypeDeclaration(declaration)
    ensures selectedClassNode.None? && TypeDeclarationOf(selectedNode).None? ==> r.None?
  {
    var classNode: Option<seq<Node>> :=
      if selectedClassNode.Some? then selectedClassNode
      else
        var k := FirstAncestorOrSelf(selectedNode, IsOfKind(TypeDeclaration));
        if k == |selectedNode| then None
        else if selectedNode[0] !in membersOfTypeDeclaration(selectedNode[k]) then None
        else Some(selectedNode[k..]);
    match classNode
    case None => None
    case Some(node) =>
      match declaredNamedType(node)
      case None => None
      case Some(originalType) => Some(ExtractMemberAnalysis(Some(originalType), Some(node[0]), None))
  }

  /** `AnalyzeAsync`: the member analysis if there is one, else the class analysis, else
      `InvalidSelection`. */
  function Analyze<S>(selectedMemberNodes: seq<seq<Node>>, declaredSymbol: seq<Node> -> Option<S>,
                      isMemberValid: S -> bool, containingType: S -> Option<S>,
                      selectedClassNode: Option<seq<Node>>, selectedNode: seq<Node>,
                      membersOfTypeDeclaration: Node -> seq<Node>, declaredNamedType: seq<Node> -> Option<S>)
    : (r: ExtractMemberAnalysis<S>)
    requires selectedClassNode.Some? ==> selectedClassNode.value != []
    ensures (r.ExtractMemberAnalysis? && r.selectedMembers.Some?)
            <==> exists i :: 0 <= i < |selectedMemberNodes| && DeclaresValidMember(selectedMemberNodes[i], declaredSymbol, isMemberValid)
    ensures r.ExtractMemberAnalysis? && r.selectedMembers.None? ==> r.originalType.Some? && r.originalTypeDeclarationNode.Some?
    ensures r == InvalidSelection <==>
              && GetMemberNodeAnalysis(selectedMemberNodes, declaredSymbol, isMemberValid, containingType).None?
              && GetClassNodeAnalysis(selectedClassNode, selectedNode, membersOfTypeDeclaration, declaredNamedType).None?
    ensures (forall i :: 0 <= i < |selectedMemberNodes| ==> selectedMemberNodes[i] != []) ==> HasMemberNodes(r)
    ensures var m := GetMemberNodeAnalysis(selectedMemberNodes, declaredSymbol, isMemberValid, containingType);
            var c := GetClassNodeAnalysis(selectedClassNode, selectedNode, membersOfTypeDeclaration, declaredNamedType);
            && (m.Some? ==> r == m.value)
            && (m.None? ==> r == (if c.Some? then c.value else InvalidSelection))
  {
    var memberNodeAnalysis := GetMemberNodeAnalysis(selectedMemberNodes, declaredSymbol, isMemberValid, containingType);
    if memberNodeAnalysis.Some? then
      if forall i :: 0 <= i < |selectedMemberNodes| ==> selectedMemberNodes[i] != [] then
        PairNodesAreSelected(selectedMemberNodes, declaredSymbol, isMemberValid);
        assert memberNodeAnalysis.value.selectedMembers.value == SelectedMemberPairs(selectedMemberNodes, declaredSymbol, isMemberValid);
        assert forall i :: 0 <= i < |memberNodeAnalysis.value.selectedMembers.value| ==> memberNodeAnalysis.value.selectedMembers.value[i].node != [];
        memberNodeAnalysis.value
      else memberNodeAnalysis.value
    else
      var classNodeAnalysis := GetClassNodeAnalysis(selectedClassNode, selectedNode, membersOfTypeDeclaration, declaredNamedType);
      if classNodeAnalysis.Some? then classNodeAnalysis.value else InvalidSelection
  }
}
