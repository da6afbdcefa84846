/** The move-type refactoring's choice of actions: moving a type to a file of its own,
    renaming the file after the type, or renaming the type after the file. The state the
    refactoring builds (`State.Generate`), the suggested file names, the name match between
    a type and the document (`TypeNameMatchesDocumentName`) and the names the semantic model
    declares are parameters; the editors that carry out an action are not modelled, only
    the solution they give back. */
module AbstractMoveTypeService {
  import opened Common
  import opened Syntax

  datatype MoveTypeOperationKind = MoveType | RenameType | RenameFile | MoveTypeNamespaceScope

  /** The refactoring state: the type under the caret with its ancestors, its name, the
      document's root and the document's name without extension. */
  datatype State = State(typeNode: seq<Node>, typeName: string, root: Node,
                         documentNameWithoutExtension: string, isDocumentNameAValidIdentifier: bool)

  datatype CodeAction = MoveTypeCodeAction(operationKind: MoveTypeOperationKind, fileName: string)

  /** `CreateStateAsync`: no state without a relevant type node; otherwise the state the
      generator builds for it, which may be null as well. */
  function CreateState(nodeToAnalyze: Option<seq<Node>>, generate: seq<Node> -> Option<State>): (r: Option<State>)
    ensures nodeToAnalyze.None? ==> r.None?
    ensures nodeToAnalyze.Some? ==> r == generate(nodeToAnalyze.value)
  {
    if nodeToAnalyze.None? then None else generate(nodeToAnalyze.value)
  }

  /** `IsNestedType`: the type's parent is a type. */
  predicate IsNestedType(typeNode: seq<Node>)
  {
    |typeNode| > 1 && typeNode[1].kind == TypeDeclaration
  }

  predicate IsCompilationUnitOrNamespace(n: Node)
  {
    n.kind == CompilationUnit || n.kind == NamespaceDeclaration
  }

  /** `TopLevelTypeDeclarations`: the types reached from the root through compilation units
      and namespaces only, in document order. */
  function TopLevelTypeDeclarations(root: Node): (r: seq<Node>)
    ensures forall i :: 0 <= i < |r| ==> r[i].kind == TypeDeclaration
  {
    FilterIndexed(DescendantNodes(root, IsCompilationUnitOrNamespace), IsOfKind(TypeDeclaration));
    Filter(DescendantNodes(root, IsCompilationUnitOrNamespace), IsOfKind(TypeDeclaration))
  }

  /** A node is a top-level type exactly when it is a type that hangs below the root with
      only compilation units and namespaces above it: types nested in types are not. */
  lemma TopLevelTypesAreTheTypesOutsideTypes(root: Node, x: Node)
    ensures x in TopLevelTypeDeclarations(root)
        <==> x.kind == TypeDeclaration && Reaches(root, x, IsCompilationUnitOrNamespace)
  {
    var all := DescendantNodes(root, IsCompilationUnitOrNamespace);
    DescendantNodesAreReachable(root, x, IsCompilationUnitOrNamespace);
    if x.kind == TypeDeclaration && x in all {
      var i :| 0 <= i < |all| && all[i] == x;
    }
  }

  /** `MultipleTopLevelTypeDeclarationInSourceDocument`: `Skip(1).Any()`, that is, at least
      two top-level types. */
  predicate MultipleTopLevelTypeDeclarationInSourceDocument(root: Node)
  {
    |TopLevelTypeDeclarations(root)| > 1
  }

  /** `AnyTopLevelTypeMatchesDocumentName`: some top-level type's declared name matches the
      document's name. */
  predicate AnyTopLevelTypeMatchesDocumentName(root: Node, declaredName: Node -> string, typeNameMatchesDocumentName: string -> bool)
  {
    exists i :: 0 <= i < |TopLevelTypeDeclarations(root)| && typeNameMatchesDocumentName(declaredName(TopLevelTypeDeclarations(root)[i]))
  }

  function MoveTypeAction(fileName: string): CodeAction { MoveTypeCodeAction(MoveType, fileName) }

  function RenameFileAction(fileName: string): CodeAction { MoveTypeCodeAction(RenameFile, fileName) }

  /** The actions `CreateActions` offers, as a value: nothing when the type's name already
      matches the document; move-to-file actions per suggested name when the document has
      several top-level types or the type is nested; and, when no top-level type matches
      the document, rename-file actions per suggested name followed by a rename of the type
      to the document's name when that name is an identifier. */
  function Actions(state: State, suggestedFileNames: seq<string>, declaredName: Node -> string,
                   typeNameMatchesDocumentName: string -> bool): seq<CodeAction>
  {
    ActionsFor(typeNameMatchesDocumentName(state.typeName),
               MultipleTopLevelTypeDeclarationInSourceDocument(state.root) || IsNestedType(state.typeNode),
               AnyTopLevelTypeMatchesDocumentName(state.root, declaredName, typeNameMatchesDocumentName),
               state, suggestedFileNames)
  }

  /** The action table once its three tests are decided. */
  function ActionsFor(typeMatchesDocumentName: bool, manyTypesOrNested: bool, anyTopLevelTypeMatches: bool,
                      state: State, suggestedFileNames: seq<string>): seq<CodeAction>
  {
    if typeMatchesDocumentName then []
    else
      (if manyTypesOrNested then Map(suggestedFileNames, MoveTypeAction) else [])
      + (if !anyTopLevelTypeMatches
         then Map(suggestedFileNames, RenameFileAction)
              + (if state.isDocumentNameAValidIdentifier
                 then [MoveTypeCodeAction(RenameType, state.documentNameWithoutExtension)] else [])
         else [])
  }

  /** `CreateActions`: the `ArrayBuilder` is filled by the two `foreach` loops and the final
      rename of the type. */
  method CreateActions(state: State, suggestedFileNames: seq<string>, declaredName: Node -> string,
                       typeNameMatchesDocumentName: string -> bool)
    returns (actions: seq<CodeAction>)
    ensures actions == Actions(state, suggestedFileNames, declaredName, typeNameMatchesDocumentName)
  {
    var typeMatchesDocumentName := typeNameMatchesDocumentName(state.typeName);
    var manyTypes := MultipleTopLevelTypeDeclarationInSourceDocument(state.root);
    var isNestedType := IsNestedType(state.typeNode);
    var anyMatches := AnyTopLevelTypeMatchesDocumentName(state.root, declaredName, typeNameMatchesDocumentName);
    actions := FillActions(typeMatchesDocumentName, manyTypes || isNestedType, anyMatches, state, suggestedFileNames);
  }

  /** The body of `CreateActions` once its tests are evaluated. */
  method FillActions(typeMatchesDocumentName: bool, manyTypesOrNested: bool, anyTopLevelTypeMatches: bool,
                     state: State, suggestedFileNames: seq<string>)
    returns (actions: seq<CodeAction>)
    ensures actions == ActionsFor(typeMatchesDocumentName, manyTypesOrNested, anyTopLevelTypeMatches, state, suggestedFileNames)
  {
    if typeMatchesDocumentName {
      return [];
    }
    ghost var renameType := MoveTypeCodeAction(RenameType, state.documentNameWithoutExtension);
    ghost var renames := Map(suggestedFileNames, RenameFileAction);
    ghost var tail := if !anyTopLevelTypeMatches
                      then renames + (if state.isDocumentNameAValidIdentifier then [renameType] else [])
                      else [];
    actions := [];
    if manyTypesOrNested {
      actions := AddActionPerFileName(actions, suggestedFileNames, MoveTypeAction);
      assert actions == Map(suggestedFileNames, MoveTypeAction);
    }
    ghost var moves := actions;
    assert ActionsFor(typeMatchesDocumentName, manyTypesOrNested, anyTopLevelTypeMatches, state, suggestedFileNames)
        == moves + tail;
    if !anyTopLevelTypeMatches {
      actions := AddActionPerFileName(actions, suggestedFileNames, RenameFileAction);
      if state.isDocumentNameAValidIdentifier {
        actions := actions + [MoveTypeCodeAction(RenameType, state.documentNameWithoutExtension)];
        assert actions == moves + (renames + [renameType]);
      } else {
        assert actions == moves + (renames + []);
      }
    } else {
      assert actions == moves + [];
    }
  }

  /** One of the `foreach (var fileName in suggestedFileNames)` loops: an action per
      suggested name, in order, after those already built. */
  method AddActionPerFileName(actions: seq<CodeAction>, suggestedFileNames: seq<string>, action: string -> CodeAction)
    returns (r: seq<CodeAction>)
    ensures r == actions + Map(suggestedFileNames, action)
  {
    r := actions;
    for i := 0 to |suggestedFileNames|
      invariant r == actions + Map(suggestedFileNames[..i], action)
    {
      MapOfLongerPrefix(suggestedFileNames, i, action);
      r := r + [action(suggestedFileNames[i])];
    }
    assert suggestedFileNames[..|suggestedFileNames|] == suggestedFileNames;
  }

  /** Which actions are offered: a move to a new file for a suggested name exactly when the
      document has several top-level types or the type is nested; a file rename for a
      suggested name, and a type rename to the document's name (if it is an identifier),
      exactly when no top-level type matches the document; and nothing at all when the
      type's own name matches. */
  lemma OfferedActions(state: State, suggestedFileNames: seq<string>, declaredName: Node -> string,
                       typeNameMatchesDocumentName: string -> bool, name: string)
    ensures var actions := Actions(state, suggestedFileNames, declaredName, typeNameMatchesDocumentName);
            var offered := !typeNameMatchesDocumentName(state.typeName);
            && (typeNameMatchesDocumentName(state.typeName) ==> actions == [])
            && (MoveTypeCodeAction(MoveType, name) in actions
                <==> offered && name in suggestedFileNames
                     && (MultipleTopLevelTypeDeclarationInSourceDocument(state.root) || IsNestedType(state.typeNode)))
            && (MoveTypeCodeAction(RenameFile, name) in actions
                <==> offered && name in suggestedFileNames
                     && !AnyTopLevelTypeMatchesDocumentName(state.root, declaredName, typeNameMatchesDocumentName))
            && (MoveTypeCodeAction(RenameType, name) in actions
                <==> offered && name == state.documentNameWithoutExtension && state.isDocumentNameAValidIdentifier
                     && !AnyTopLevelTypeMatchesDocumentName(state.root, declaredName, typeNameMatchesDocumentName))
            && (forall a :: a in actions ==> a.operationKind != MoveTypeNamespaceScope)
  {
    var actions := Actions(state, suggestedFileNames, declaredName, typeNameMatchesDocumentName);
    FileNameActions(suggestedFileNames, MoveTypeCodeAction(MoveType, name));
    FileNameActions(suggestedFileNames, MoveTypeCodeAction(RenameFile, name));
    FileNameActions(suggestedFileNames, MoveTypeCodeAction(RenameType, name));
    forall a | a in actions ensures a.operationKind != MoveTypeNamespaceScope {
      FileNameActions(suggestedFileNames, a);
    }
  }

  /** The per-name actions are exactly the actions of their kind naming a suggested file. */
  lemma FileNameActions(suggestedFileNames: seq<string>, a: CodeAction)
    ensures a in Map(suggestedFileNames, MoveTypeAction) <==> a.operationKind == MoveType && a.fileName in suggestedFileNames
    ensures a in Map(suggestedFileNames, RenameFileAction) <==> a.operationKind == RenameFile && a.fileName in suggestedFileNames
  {
    var moves := Map(suggestedFileNames, MoveTypeAction);
    var renames := Map(suggestedFileNames, RenameFileAction);
    if a.fileName in suggestedFileNames {
      var i :| 0 <= i < |suggestedFileNames| && suggestedFileNames[i] == a.fileName;
      assert moves[i] == MoveTypeAction(a.fileName);
      assert renames[i] == RenameFileAction(a.fileName);
    }
  }

  /** A single top-level type that is not nested gets no move-to-file action, only renames. */
  lemma SingleTypeIsNotMoved(state: State, suggestedFileNames: seq<string>, declaredName: Node -> string,
                             typeNameMatchesDocumentName: string -> bool)
    requires |TopLevelTypeDeclarations(state.root)| <= 1 && !IsNestedType(state.typeNode)
    ensures forall a :: a in Actions(state, suggestedFileNames, declaredName, typeNameMatchesDocumentName)
                        ==> a.operationKind != MoveType
  {
    var renames := Map(suggestedFileNames, RenameFileAction);
    assert forall a :: a in renames ==> a.operationKind == RenameFile;
  }

  /** `GetRefactoringAsync`: no actions without a state, `CreateActions` otherwise. */
  method GetRefactoring(state: Option<State>, suggestedFileNames: seq<string>, declaredName: Node -> string,
                        typeNameMatchesDocumentName: string -> bool)
    returns (actions: seq<CodeAction>)
    ensures state.None? ==> actions == []
    ensures state.Some? ==> actions == Actions(state.value, suggestedFileNames, declaredName, typeNameMatchesDocumentName)
  {
    if state.None? {
      return [];
    }
    actions := CreateActions(state.value, suggestedFileNames, declaredName, typeNameMatchesDocumentName);
  }

  /** `GetModifiedSolutionAsync`: the unchanged solution without a state or when the editor
      gives back null; otherwise the editor's solution, the editor being chosen by the
      operation kind and given the first suggested file name, if any. */
  function GetModifiedSolution<Solution>(solution: Solution, state: Option<State>, operationKind: MoveTypeOperationKind,
                                         suggestedFileNames: seq<string>,
                                         edit: (MoveTypeOperationKind, State, Option<string>) -> Option<Solution>)
    : (r: Solution)
    ensures state.None? ==> r == solution
    ensures state.Some? ==>
              var fileName := if suggestedFileNames == [] then None else Some(suggestedFileNames[0]);
              var modified := edit(operationKind, state.value, fileName);
              r == (if modified.Some? then modified.value else solution)
  {
    if state.None? then solution
    else
      var fileName := if suggestedFileNames == [] then None else Some(suggestedFileNames[0]);
      var modified := edit(operationKind, state.value, fileName);
      if modified.None? then solution else modified.value
  }
}
