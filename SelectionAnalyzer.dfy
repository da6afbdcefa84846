/** The selection analysis the move-to-namespace refactoring starts from: the node the
    selection finds (`FindNode`, a parameter here, given with its ancestors), the child nodes
    of that node whose span meets the selection, and whether the selection overlaps the
    node's full span. */
module SelectionAnalyzer {
  import opened Common
  import opened Syntax

  datatype SelectionAnalysisResult<Doc> = SelectionAnalysisResult(
    document: Doc,
    selection: TextSpan,
    context: seq<Node>,
    intersectedNodes: seq<Node>,
    isSelectionExactOnContext: bool)

  function IntersectsSelection(selection: TextSpan): Node -> bool
  {
    (n: Node) => n.span.IntersectsWith(selection)
  }

  /** The analysis holds what its constructor computes from its document, selection and
      context. */
  predicate IsAnalysisOf<Doc>(r: SelectionAnalysisResult<Doc>)
  {
    && IsSpine(r.context)
    && r.intersectedNodes == Filter(r.context[0].children, IntersectsSelection(r.selection))
    && r.isSelectionExactOnContext == r.context[0].fullSpan.OverlapsWith(r.selection)
  }

  /** The `SelectionAnalysisResult` constructor: the context's child nodes whose span meets
      the selection (touching counts), in order, and whether some position lies both in the
      context's full span and in the selection. */
  function NewSelectionAnalysisResult<Doc>(document: Doc, selection: TextSpan, context: seq<Node>)
    : (r: SelectionAnalysisResult<Doc>)
    requires IsSpine(context)
    ensures IsAnalysisOf(r)
    ensures r.document == document && r.selection == selection && r.context == context
    ensures forall n :: n in r.intersectedNodes <==> n in context[0].children && n.span.IntersectsWith(selection)
    ensures r.isSelectionExactOnContext <==> exists p :: context[0].fullSpan.Contains(p) && selection.Contains(p)
  {
    OverlapsWithIffSharedPosition(context[0].fullSpan, selection);
    var intersected := Filter(context[0].children, IntersectsSelection(selection));
    assert forall n :: n in context[0].children && n.span.IntersectsWith(selection) ==> n in intersected by {
      forall n | n in context[0].children && n.span.IntersectsWith(selection) ensures n in intersected {
        var i :| 0 <= i < |context[0].children| && context[0].children[i] == n;
      }
    }
    SelectionAnalysisResult(document, selection, context, intersected, context[0].fullSpan.OverlapsWith(selection))
  }

  /** `AnalyzeAsync`: the analysis of the node the selection finds. */
  function Analyze<Doc>(document: Doc, selection: TextSpan, findNode: TextSpan -> seq<Node>)
    : (r: SelectionAnalysisResult<Doc>)
    requires IsSpine(findNode(selection))
    ensures IsAnalysisOf(r)
    ensures r.document == document && r.selection == selection && r.context == findNode(selection)
  {
    NewSelectionAnalysisResult(document, selection, findNode(selection))
  }

  /** `WithContext`: the same document and selection analysed at another node. */
  function WithContext<Doc>(analysis: SelectionAnalysisResult<Doc>, context: seq<Node>)
    : (r: SelectionAnalysisResult<Doc>)
    requires IsSpine(context)
    ensures IsAnalysisOf(r)
    ensures r.document == analysis.document && r.selection == analysis.selection && r.context == context
  {
    NewSelectionAnalysisResult(analysis.document, analysis.selection, context)
  }

  /** A caret (an empty selection) meets every child it touches, at its start, inside or at
      its end, but is never exact on the context. */
  lemma CaretMeetsTouchingChildren<Doc>(r: SelectionAnalysisResult<Doc>, c: Node)
    requires IsAnalysisOf(r) && r.selection.IsEmpty()
    requires c in r.context[0].children && c.span.start <= r.selection.start <= c.span.End()
    ensures c in r.intersectedNodes
    ensures !r.isSelectionExactOnContext
  {
    var children := r.context[0].children;
    var i :| 0 <= i < |children| && children[i] == c;
    OverlapsWithIffSharedPosition(r.context[0].fullSpan, r.selection);
  }
}
