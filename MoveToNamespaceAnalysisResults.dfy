/** The outcome of the move-to-namespace analysis: either `Invalid`, which cannot be
    performed, or a valid result naming the selection analysis, the original namespace, the
    namespaces of the project and the kind of container being moved. */
module MoveToNamespaceAnalysisResults {
  import opened SelectionAnalyzer

  /** What is moved: the members of a namespace, one named type, or the types a selection
      meets inside a namespace. */
  datatype ContainerType = Namespace | NamedType | MultipleNamedTypes

  datatype MoveToNamespaceAnalysisResult<Doc> =
    | Invalid
    | Valid(selectionAnalysis: SelectionAnalysisResult<Doc>, originalNamespace: string,
            namespaces: seq<string>, container: ContainerType)
  {
    /** Only the public constructor sets `CanPerform`. */
    predicate CanPerform() { Valid? }
  }

  /** The public constructor: a result that can be performed and keeps its arguments. */
  function NewAnalysisResult<Doc>(analyzerResult: SelectionAnalysisResult<Doc>, originalNamespace: string,
                                  namespaces: seq<string>, container: ContainerType)
    : (r: MoveToNamespaceAnalysisResult<Doc>)
    ensures r.CanPerform()
    ensures r.selectionAnalysis == analyzerResult && r.originalNamespace == originalNamespace
    ensures r.namespaces == namespaces && r.container == container
  {
    Valid(analyzerResult, originalNamespace, namespaces, container)
  }

  /** `Invalid` is the one result that cannot be performed. */
  lemma OnlyInvalidCannotPerform<Doc>(r: MoveToNamespaceAnalysisResult<Doc>)
    ensures !r.CanPerform() <==> r == Invalid
  {
  }
}
