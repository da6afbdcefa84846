# Roslyn IDE features: a Dafny model

This project models a set of small, self-contained pieces of logic from the Roslyn
IDE layer (the C# and Visual Basic compiler platform's editor, language-server and
refactoring features) and proves what each of them promises. The compiler's syntax tree is
replaced by a finite `Node` datatype. Each node carries an id, a kind, a span, a full span
and children. A node "with its ancestors" is a spine `seq<Node>`, starting at the node and
followed by its parent chain. Semantic-model queries, validators and host services are
passed in as function parameters (oracles).

The modules follow the source files:

- **Caches.**
  - `CopyDataCache`: the 50-entry FIFO copy-data queue.
  - `AddImportsCacheIdentifiers` and `AddImportsCopyCache`: the add-imports copy cache, its key and its operation visitor (both as written and as a walk over the whole tree; see Findings).
  - `RazorWorkspaceListenerInitializer`: the Razor listener's buffer-until-initialized state machine.
- **Validators and equalities.**
  - `DefinitionsAndReferences`.
  - `DocumentPathEqualityComparer`.
  - `DocumentExtensions`: union over linked documents, any-accepts, first applicable naming rule.
- **The Move-to-Namespace dialog.**
  - `CSharpMoveToNamespaceWorkspace`: the temporary document's template.
  - `CSharpMoveToNamespaceTextViewModelProvider`: the line scan that finds the namespace name in it, with the round trip between the two.
  - `MoveToNamespaceEditorControl`: OLE command routing.
  - `DependencyObjectExtensions`: the nearest-typed-ancestor search.
- **Syntax rules.**
  - `RequireLocalFunctionAtEndOfBlockAnalyzer`.
  - `AddNullableEnabledContextCodeFixProvider`.
  - `CSharpInlineParameterNameHintsService`.
  - `CSharpRemoveUnnecessaryImportsDiagnosticAnalyzer`.
  - `FormatDocumentOnTypeHandler`: the `textDocument/onTypeFormatting` handler of the Language Server Protocol.
- **Refactoring decisions.**
  - `SelectionAnalyzer`.
  - `MoveToNamespaceAnalysisResults` and `AbstractMoveToNamespaceService`.
  - `AbstractMoveTypeService`.
  - `AbstractExtractMemberAnalyzer` and `CSharpExtractMembersAnalyzer`.
  - `PullMemberUpRefactoringProvider`.
  - `AbstractGoToBaseService`.
- **Shared definitions.**
  - `Common`: `Option`, `Result`, `TextSpan` and sequence helpers, including a stable sort.
  - `Syntax`: the tree and its spines.

`TextSpan` is `(start, length)`. Its semantics are fixed in `Common` as Roslyn defines them:
- `IntersectsWith` counts spans that only touch;
- `OverlapsWith` needs a non-empty overlap;
- `Contains(p)` is `start <= p < end`;
- `CompareTo` is the start difference, then the length difference.

Objects whose fields the source updates in place are classes:
- the copy-data service;
- the add-imports cache and its visitor;
- the Razor initializer;
- the find-usages context;
- the hint buffer.

Loops the source runs step by step are `while`/`for` loops, proved against specification
functions.

## Model

| member | source | states |
|---|---|---|
| CopyDataCache.FirstWithSequenceNumber | src/EditorFeatures/Core/CopyData/DefaultCopyDataService.cs:40-41 | An entry is found iff some cached entry has the sequence number. The one found is the oldest such entry. |
| CopyDataCache.GetCommandState | src/EditorFeatures/Core/CopyData/DefaultCopyDataService.cs:53-56 | Always fails with `NotImplementedException`. |
| CopyDataCache.CopyDataService.constructor | src/EditorFeatures/Core/CopyData/DefaultCopyDataService.cs:28-29 | Starts with an empty queue that satisfies the bound invariant. |
| CopyDataCache.CopyDataService.TryGetData | src/EditorFeatures/Core/CopyData/DefaultCopyDataService.cs:40-41 | Returns a cached entry with the requested sequence number. It returns none only when no cached entry has it. |
| CopyDataCache.CopyDataService.TryGetCurrentData | src/EditorFeatures/Core/CopyData/DefaultCopyDataService.cs:72-73 | Is `TryGetData` of the current clipboard sequence number. |
| CopyDataCache.CopyDataService.Store | src/EditorFeatures/Core/CopyData/DefaultCopyDataService.cs:43-51 | Appends at the back. At 50 entries it first drops exactly the oldest one. It keeps the cache at most 50 entries long, holding the last 50 stores in order. Afterwards the stored entry's sequence number is found. |
| CopyDataCache.CopyDataService.ExecuteCommand | src/EditorFeatures/Core/CopyData/DefaultCopyDataService.cs:61-70 | Stores exactly one entry, built from the clipboard sequence number, the view and the caret. Returns false. |
| CopyDataCache.LastAtMostSnoc | src/EditorFeatures/Core/CopyData/DefaultCopyDataService.cs:43-51 | One more store moves the window of the last 50 entries by one. This is the FIFO order `Store` preserves. |
| AddImportsCacheIdentifiers.NewIdentifier | src/EditorFeatures/Core/Implementation/AddImports/IAddImportsCopyCacheService.cs:28-32 | The identifier keeps the document's id and the given Guid. |
| AddImportsCacheIdentifiers.Equals | src/EditorFeatures/Core/Implementation/AddImports/IAddImportsCopyCacheService.cs:34-39 | Equal iff the other object is an identifier with the same document id and Guid. Never equal to an object of another type. |
| AddImportsCacheIdentifiers.EqualsIsReflexiveAndSymmetric | src/EditorFeatures/Core/Implementation/AddImports/IAddImportsCopyCacheService.cs:34-39 | Equality is reflexive and symmetric. |
| AddImportsCacheIdentifiers.EqualsIsTransitive | src/EditorFeatures/Core/Implementation/AddImports/IAddImportsCopyCacheService.cs:34-39 | Equality is transitive. |
| AddImportsCacheIdentifiers.GetHashCode | src/EditorFeatures/Core/Implementation/AddImports/IAddImportsCopyCacheService.cs:41-46 | The hash combines the document id's hash and the Guid's hash; its agreement with `Equals` is `EqualIdentifiersHaveEqualHashes`. |
| AddImportsCacheIdentifiers.EqualIdentifiersHaveEqualHashes | src/EditorFeatures/Core/Implementation/AddImports/IAddImportsCopyCacheService.cs:41-46 | Equal identifiers have equal hash codes, whatever the component hashes and the combiner are. |
| AddImportsCacheIdentifiers.FreshGuidsGiveDistinctIdentifiers | src/EditorFeatures/Core/Implementation/AddImports/IAddImportsCopyCacheService.cs:28-39 | Two identifiers for one document with different Guids are not equal. |
| AddImportsCopyCache.Recorded | src/EditorFeatures/Core/Implementation/AddImports/AddImportsCopyCacheService.cs:109-140 | Only three operations record a symbol: an invocation (its target method's containing type), a variable declaration (its type), and a method body whose declared symbol is a static method (that method's containing symbol). |
| AddImportsCopyCache.CollectedIffRecordedInTree | src/EditorFeatures/Core/Implementation/AddImports/AddImportsCopyCacheService.cs:101-140 | The corrected walk (see Findings) collects a symbol iff some operation of the tree records it as non-null. |
| AddImportsCopyCache.AddAllIsSetUnion | src/EditorFeatures/Core/Implementation/AddImports/AddImportsCopyCacheService.cs:84-89 | Adding to the used-symbol set keeps it duplicate-free. It adds exactly the new symbols and keeps the old ones first. |
| AddImportsCopyCache.UsedSymbolsAreTheRecordedOnes | src/EditorFeatures/Core/Implementation/AddImports/AddImportsCopyCacheService.cs:84-89 | With the corrected walk, a node's used symbols hold each symbol once: exactly those its operation tree records. |
| AddImportsCopyCache.VisitedAsWritten | src/EditorFeatures/Core/Implementation/AddImports/AddImportsCopyCacheService.cs:92-140 | As written, the visitor meets at most one symbol: the one the operation itself records. |
| AddImportsCopyCache.UsedSymbolsAsWrittenAreTheRootOnes | src/EditorFeatures/Core/Implementation/AddImports/AddImportsCopyCacheService.cs:84-92 | As written, the used-symbol set holds at most one symbol, the root operation's own; the children play no part. |
| AddImportsCopyCache.StatementCopyRecordsNothingAsWritten | src/EditorFeatures/Core/Implementation/AddImports/AddImportsCopyCacheService.cs:87-113 | For the copied statement `T.M();`, the visitor as written records nothing, while the walk records `T`. |
| AddImportsCopyCache.SelectionKeysAppend | src/EditorFeatures/Core/Implementation/AddImports/AddImportsCopyCacheService.cs:55-65 | The keys are concatenated in span order: two batches of spans give the two entries one after the other. |
| AddImportsCopyCache.Visitor.constructor | src/EditorFeatures/Core/Implementation/AddImports/AddImportsCopyCacheService.cs:96-99 | The visitor starts with an empty set. |
| AddImportsCopyCache.Visitor.AddIfNotNull | src/EditorFeatures/Core/Implementation/AddImports/AddImportsCopyCacheService.cs:101-107 | A null symbol is not added; any other one is added to the set. |
| AddImportsCopyCache.Visitor.Visit | src/EditorFeatures/Core/Implementation/AddImports/AddImportsCopyCacheService.cs:87 | The corrected `Visit`: a null operation adds nothing. Any other one adds the symbols its whole tree collects. |
| AddImportsCopyCache.Visitor.VisitAsWritten | src/EditorFeatures/Core/Implementation/AddImports/AddImportsCopyCacheService.cs:87-140 | `Visit` as written: a null operation adds nothing. Any other one adds only its own symbol, if it has one. |
| AddImportsCopyCache.Visitor.VisitOperation | src/EditorFeatures/Core/Implementation/AddImports/AddImportsCopyCacheService.cs:109-140 | The corrected walk: children are visited first, then the operation's own symbol is recorded. The set becomes the old set plus the tree's collected symbols. |
| AddImportsCopyCache.GetSymbolKeys | src/EditorFeatures/Core/Implementation/AddImports/AddImportsCopyCacheService.cs:82-90 | With the corrected walk, the keys are those of the node's used symbols, each symbol once. |
| AddImportsCopyCache.GetSymbolKeysAsWritten | src/EditorFeatures/Core/Implementation/AddImports/AddImportsCopyCacheService.cs:82-90 | As written, the keys are those of at most the root operation's symbol. |
| AddImportsCopyCache.AddImportsCopyCacheService.constructor | src/EditorFeatures/Core/Implementation/AddImports/AddImportsCopyCacheService.cs:42-44 | The cache starts empty. |
| AddImportsCopyCache.AddImportsCopyCacheService.AddSelectionToCache | src/EditorFeatures/Core/Implementation/AddImports/AddImportsCopyCacheService.cs:42-70 | Returns the identifier for the document and the new Guid. Stores the selection's keys (from the corrected walk) under it, overwriting any previous entry, and leaves every other entry unchanged. |
| AddImportsCopyCache.AddImportsCopyCacheService.GetData | src/EditorFeatures/Core/Implementation/AddImports/AddImportsCopyCacheService.cs:72-80 | An identifier never cached gives an empty array; a cached one gives exactly its entry. |
| RazorWorkspaceListenerInitializer.Initializer.constructor | src/LanguageServer/Microsoft.CodeAnalysis.LanguageServer/HostWorkspace/RazorWorkspaceListenerInitializer.cs:28-31 | No listener, no client, nothing pending, nothing forwarded. |
| RazorWorkspaceListenerInitializer.Initializer.Initialize | src/LanguageServer/Microsoft.CodeAnalysis.LanguageServer/HostWorkspace/RazorWorkspaceListenerInitializer.cs:43-69 | The first call creates the listener and takes the client. It forwards every pending id exactly once and empties the set. A later call changes no state and forwards nothing. |
| RazorWorkspaceListenerInitializer.Initializer.CreateListener | src/LanguageServer/Microsoft.CodeAnalysis.LanguageServer/HostWorkspace/RazorWorkspaceListenerInitializer.cs:53-68 | The once-only part of `Initialize`: the listener is created and the client recorded. The pending set is emptied, and each of its ids is forwarded exactly once. |
| RazorWorkspaceListenerInitializer.Initializer.ForwardEach | src/LanguageServer/Microsoft.CodeAnalysis.LanguageServer/HostWorkspace/RazorWorkspaceListenerInitializer.cs:64-68 | The flush loop forwards each buffered id once. Nothing else changes. |
| RazorWorkspaceListenerInitializer.Initializer.NotifyDynamicFile | src/LanguageServer/Microsoft.CodeAnalysis.LanguageServer/HostWorkspace/RazorWorkspaceListenerInitializer.cs:71-88 | Before initialization the id is only added to the pending set. Afterwards it is forwarded at once, duplicates included. |
| RazorWorkspaceListenerInitializer.NotifyKeepsDetermined | src/LanguageServer/Microsoft.CodeAnalysis.LanguageServer/HostWorkspace/RazorWorkspaceListenerInitializer.cs:75-81 | A notification before initialization adds its id to the pending set and forwards nothing. |
| RazorWorkspaceListenerInitializer.NotifyAfterInitialize | src/LanguageServer/Microsoft.CodeAnalysis.LanguageServer/HostWorkspace/RazorWorkspaceListenerInitializer.cs:85-87 | A notification after initialization appends exactly its id to the forwarded ids. |
| RazorWorkspaceListenerInitializer.ReinitializeKeepsDetermined | src/LanguageServer/Microsoft.CodeAnalysis.LanguageServer/HostWorkspace/RazorWorkspaceListenerInitializer.cs:48-52 | A second `Initialize` keeps the recorded client, the pending set and the forwarded ids. |
| RazorWorkspaceListenerInitializer.FirstInitializeDetermines | src/LanguageServer/Microsoft.CodeAnalysis.LanguageServer/HostWorkspace/RazorWorkspaceListenerInitializer.cs:54-68 | The first `Initialize` records its client, empties the pending set and forwards its distinct ids. |
| RazorWorkspaceListenerInitializer.DistinctSequenceCountsOnce | src/LanguageServer/Microsoft.CodeAnalysis.LanguageServer/HostWorkspace/RazorWorkspaceListenerInitializer.cs:28 | Flushing a set forwards each of its ids exactly once. |
| RazorWorkspaceListenerInitializer.ForwardedOverARun | src/LanguageServer/Microsoft.CodeAnalysis.LanguageServer/HostWorkspace/RazorWorkspaceListenerInitializer.cs:43-88 | Over a whole run, the forwarded ids are each distinct id notified before the first `Initialize` once, then every later notification in order. |
| DefinitionsAndReferences.Create | src/Features/Core/Portable/FindUsages/DefinitionsAndReferences.cs:32-50 | Succeeds iff every reference's definition is among the definitions, keeping both arrays unchanged and valid. On failure, names the smallest offending reference index. |
| DefinitionsAndReferences.EmptyIsValid | src/Features/Core/Portable/FindUsages/DefinitionsAndReferences.cs:18-19 | `Empty` has no definitions and no references and satisfies the invariant. |
| DefinitionsAndReferences.CreateEmpty | src/Features/Core/Portable/FindUsages/DefinitionsAndReferences.cs:18-19 | Constructing from two empty arrays succeeds and gives `Empty`. |
| DocumentPathEqualityComparer.Equals | src/Workspaces/Core/Portable/Rename/ConflictEngine/DocumentPathEqualityComparer.cs:16-24 | With a null argument, equal iff both are null. Otherwise equal iff the file paths are equal, both-null paths included. |
| DocumentPathEqualityComparer.EqualsIsAnEquivalence | src/Workspaces/Core/Portable/Rename/ConflictEngine/DocumentPathEqualityComparer.cs:16-24 | `Equals` is reflexive, symmetric and transitive. |
| DocumentPathEqualityComparer.DistinctObjectsWithSamePathAreEqual | src/Workspaces/Core/Portable/Rename/ConflictEngine/DocumentPathEqualityComparer.cs:23 | Distinct document objects with the same path are equal. |
| DocumentPathEqualityComparer.GetHashCodeAsWritten | src/Workspaces/Core/Portable/Rename/ConflictEngine/DocumentPathEqualityComparer.cs:26 | The hash as written is the object's own hash, a function of its identity only. |
| DocumentPathEqualityComparer.AsWrittenHashDisagreesWithEquals | src/Workspaces/Core/Portable/Rename/ConflictEngine/DocumentPathEqualityComparer.cs:26 | Two objects for one file are equal yet get different object hashes. |
| DocumentPathEqualityComparer.GetHashCodeByPath | src/Workspaces/Core/Portable/Rename/ConflictEngine/DocumentPathEqualityComparer.cs:26 | The corrected hash is a function of the file path only. |
| DocumentPathEqualityComparer.HashByPathAgreesWithEquals | src/Workspaces/Core/Portable/Rename/ConflictEngine/DocumentPathEqualityComparer.cs:23-26 | With a hash of the path, documents the comparer calls equal hash alike. |
| DocumentExtensions.AddRangeIsUnion | src/Features/Core/Portable/Shared/Extensions/DocumentExtensions.cs:56-67 | For a reflexive comparer, each added item has an equivalent in the set, and the set only grows by added items. |
| DocumentExtensions.GetUnionItems | src/Features/Core/Portable/Shared/Extensions/DocumentExtensions.cs:51-68 | The loop's set is `AddRange` of the document's items followed by each linked document's, nulls counting as empty. |
| DocumentExtensions.UnionIsDuplicateFree | src/Features/Core/Portable/Shared/Extensions/DocumentExtensions.cs:56-67 | For a reflexive, symmetric comparer, the union holds an equivalent of every item and no two equivalent items. |
| DocumentExtensions.AllItemsHasEachDocument | src/Features/Core/Portable/Shared/Extensions/DocumentExtensions.cs:58-65 | Every item of the document or of a linked document reaches the union's input. |
| DocumentExtensions.IsValidContextForDocumentOrLinkedDocuments | src/Features/Core/Portable/Shared/Extensions/DocumentExtensions.cs:70-91 | True iff the checker accepts the document or a linked document. The document is checked first, and no document after the first one accepted. |
| DocumentExtensions.FirstApplicableRule | src/Features/Core/Portable/Shared/Extensions/DocumentExtensions.cs:96-102 | Returns the first rule, in rule order, whose specification applies. Fails with `Unreachable` iff none applies. |
| DocumentExtensions.GetApplicableNamingRuleForSymbol | src/Features/Core/Portable/Shared/Extensions/DocumentExtensions.cs:93-103 | The symbol overload: the first rule that applies to the symbol, or failure. |
| DocumentExtensions.GetApplicableNamingRuleForKind | src/Features/Core/Portable/Shared/Extensions/DocumentExtensions.cs:105-116 | The kind/modifiers/accessibility overload: the first rule that applies, or failure. |
| CSharpMoveToNamespaceWorkspace.GetDocumentText | src/VisualStudio/Core/Def/Implementation/MoveToNamespace/CSharpMoveToNamespaceWorkspace.cs:33-40 | The template's length fits its five lines. The namespace name is inserted verbatim right after `namespace `. |
| CSharpMoveToNamespaceTextViewModelProvider.TrimKeepsTheMiddle | src/VisualStudio/Core/Def/Implementation/MoveToNamespace/CSharpMoveToNamespaceTextViewModelProvider.cs:43 | `Trim` removes only white space at both ends and keeps the middle. |
| CSharpMoveToNamespaceTextViewModelProvider.SpanOfLine | src/VisualStudio/Core/Def/Implementation/MoveToNamespace/CSharpMoveToNamespaceTextViewModelProvider.cs:46-47 | The span starts 10 after the untrimmed line start and is 10 shorter than the trimmed text. It is rejected when the length would be negative or the span would leave the snapshot. |
| CSharpMoveToNamespaceTextViewModelProvider.NamespaceSpan | src/VisualStudio/Core/Def/Implementation/MoveToNamespace/CSharpMoveToNamespaceTextViewModelProvider.cs:36-52 | The result of the line scan. A span it returns lies within the snapshot. |
| CSharpMoveToNamespaceTextViewModelProvider.NamespaceSpanIsFirstNamespaceLine | src/VisualStudio/Core/Def/Implementation/MoveToNamespace/CSharpMoveToNamespaceTextViewModelProvider.cs:38-51 | No span iff no trimmed line starts with `namespace` (ordinal, no word boundary). Otherwise it is the span of the first such line. |
| CSharpMoveToNamespaceTextViewModelProvider.GetNamespaceSpan | src/VisualStudio/Core/Def/Implementation/MoveToNamespace/CSharpMoveToNamespaceTextViewModelProvider.cs:36-52 | The line loop with its early return and final throw computes the first namespace line's span. |
| CSharpMoveToNamespaceTextViewModelProvider.CreateTextViewModel | src/VisualStudio/Core/Def/Implementation/MoveToNamespace/CSharpMoveToNamespaceTextViewModelProvider.cs:24-34 | The view is elided to exactly the namespace span. It fails when the scan fails. |
| CSharpMoveToNamespaceTextViewModelProvider.TemplateLines | src/VisualStudio/Core/Def/Implementation/MoveToNamespace/CSharpMoveToNamespaceWorkspace.cs:35-39 | The template's lines are: empty, `namespace <ns>`, `{`, `}`, and the empty line after the final break. |
| CSharpMoveToNamespaceTextViewModelProvider.NamespaceSpanOfTemplate | src/VisualStudio/Core/Def/Implementation/MoveToNamespace/CSharpMoveToNamespaceTextViewModelProvider.cs:40-47 | Round trip: for a non-empty name with no line break and no trailing white space, the scan of the template finds line 1, and the span covers exactly the name. |
| CSharpMoveToNamespaceTextViewModelProvider.EmptyNamespaceNameIsRejected | src/VisualStudio/Core/Def/Implementation/MoveToNamespace/CSharpMoveToNamespaceTextViewModelProvider.cs:44-47 | A bare `namespace` line gives a negative length, so the scan fails rather than returning a span. |
| MoveToNamespaceEditorControl.QueryStatus | src/VisualStudio/Core/Def/Implementation/MoveToNamespace/MoveToNamespaceEditorControl.cs:231-288 | An unknown group gives `OLECMDERR_E_UNKNOWNGROUP` with the array untouched. A known group gives `S_OK` and rewrites only entries below `cmdCount`: pass-through entries take the next target's flags (or keep theirs when it fails), Cut/Copy/Paste get exactly `SUPPORTED`, and the rest get 0. |
| MoveToNamespaceEditorControl.ClipboardCommandsAreNotPassedThrough | src/VisualStudio/Core/Def/Implementation/MoveToNamespace/MoveToNamespaceEditorControl.cs:377-435 | Cut, Copy and Paste are never pass-through commands, in either group. |
| MoveToNamespaceEditorControl.Exec | src/VisualStudio/Core/Def/Implementation/MoveToNamespace/MoveToNamespaceEditorControl.cs:299-368 | An unknown group is refused with `OLECMDERR_E_UNKNOWNGROUP`. A pass-through command goes to the next target, whose result is returned. Anything else is `OLECMDERR_E_NOTSUPPORTED`. |
| MoveToNamespaceEditorControl.ExecAgreesWithQueryStatus | src/VisualStudio/Core/Def/Implementation/MoveToNamespace/MoveToNamespaceEditorControl.cs:299-368 | `Exec` forwards a pass-through command and returns the next target's result. Everything else returns `OLECMDERR_E_NOTSUPPORTED`, and such a command is never reported enabled. |
| MoveToNamespaceEditorControl.PassThroughSet | src/VisualStudio/Core/Def/Implementation/MoveToNamespace/MoveToNamespaceEditorControl.cs:377-435 | In the 97 group exactly Delete, SelectAll, Undo and Redo pass through. In the 2K group, clipboard and unlisted ids do not. Unknown groups never pass through. |
| DependencyObjectExtensions.VisualTree.TryGetParent | src/VisualStudio/Core/Def/Implementation/Utilities/DependencyObjectExtensions.cs:8-11 | A non-visual has no parent; a visual's parent is `VisualTreeHelper.GetParent`. |
| DependencyObjectExtensions.VisualTree.Ancestors | src/VisualStudio/Core/Def/Implementation/Utilities/DependencyObjectExtensions.cs:8-11 | The parent chain starts at `TryGetParent` (none for a non-visual) and is finite where the tree is acyclic. |
| DependencyObjectExtensions.VisualTree.GetParentOfType | src/VisualStudio/Core/Def/Implementation/Utilities/DependencyObjectExtensions.cs:13-27 | A result has the type and is a strict ancestor. No result means no strict ancestor has the type. |
| DependencyObjectExtensions.GetParentOfTypeIsNearestAncestor | src/VisualStudio/Core/Def/Implementation/Utilities/DependencyObjectExtensions.cs:13-27 | The result is the first strict ancestor of the type, or none when the chain ends without one. |
| DependencyObjectExtensions.GetParentOfTypeIsStrictAncestor | src/VisualStudio/Core/Def/Implementation/MoveToNamespace/MoveToNamespaceEditorControl.cs:107-125 | The element itself is never the result, even when it has the type. The editor control's private copy of the search (same body) is this function. |
| DependencyObjectExtensions.NonVisualHasNoParentOfType | src/VisualStudio/Core/Def/Implementation/Utilities/DependencyObjectExtensions.cs:8-11 | A non-visual has no parent, so nothing is found above it. |
| RequireLocalFunctionAtEndOfBlockAnalyzer.IndexOf | src/Analyzers/CSharp/Analyzers/LocalFunctionPlacement/RequireLocalFunctionAtEndOfBlockAnalyzer.cs:38 | Returns the first position of the node, or -1 iff it is absent. |
| RequireLocalFunctionAtEndOfBlockAnalyzer.AnalyzeLocalFunction | src/Analyzers/CSharp/Analyzers/LocalFunctionPlacement/RequireLocalFunctionAtEndOfBlockAnalyzer.cs:30-66 | No diagnostic without a parent. Otherwise a diagnostic iff a later sibling is an expression statement. It is at most one, at the local function, with severity Info. |
| RequireLocalFunctionAtEndOfBlockAnalyzer.AnalyzeNode | src/Analyzers/CSharp/Analyzers/LocalFunctionPlacement/RequireLocalFunctionAtEndOfBlockAnalyzer.cs:27-67 | Only `LocalFunctionStatement` nodes are analysed. |
| RequireLocalFunctionAtEndOfBlockAnalyzer.OnlyLaterSiblingsCount | src/Analyzers/CSharp/Analyzers/LocalFunctionPlacement/RequireLocalFunctionAtEndOfBlockAnalyzer.cs:37-41 | Siblings before the local function are never inspected. |
| RequireLocalFunctionAtEndOfBlockAnalyzer.NonExpressionSiblingIsPassedOver | src/Analyzers/CSharp/Analyzers/LocalFunctionPlacement/RequireLocalFunctionAtEndOfBlockAnalyzer.cs:44-53 | A later local function or other non-expression statement neither triggers the diagnostic nor ends the scan. |
| RequireLocalFunctionAtEndOfBlockAnalyzer.DeclarationAndReturnAreNotReported | src/Analyzers/CSharp/Tests/LocalFunctionPlacement/LocalFunctionPlacementTests.cs:17-31 | A local function followed by a declaration and a `return` is not reported. |
| AddNullableEnabledContextCodeFixProvider.FixesOnlyCS8632 | src/Features/CSharp/Portable/AddNullableEnabled/AddNullableEnabledContextCodeFixProvider.cs:28 | The only fixable diagnostic id is CS8632. |
| AddNullableEnabledContextCodeFixProvider.RegisterCodeFixes | src/Features/CSharp/Portable/AddNullableEnabled/AddNullableEnabledContextCodeFixProvider.cs:32-55 | No fix without compilation options or when the nullable context is Disable. Otherwise exactly one fix, on the first diagnostic, for the context's span. |
| AddNullableEnabledContextCodeFixProvider.DirectivesBefore | src/Features/CSharp/Portable/AddNullableEnabled/AddNullableEnabledContextCodeFixProvider.cs:61-64 | Each directive kept is one of the document's and starts before the span. |
| AddNullableEnabledContextCodeFixProvider.PrecedingDisablePragmas | src/Features/CSharp/Portable/AddNullableEnabled/AddNullableEnabledContextCodeFixProvider.cs:62-66 | Each candidate is one of the document's, starts before the span and holds a `disable` keyword. |
| AddNullableEnabledContextCodeFixProvider.DirectivesBeforeAreSortedAndComplete | src/Features/CSharp/Portable/AddNullableEnabled/AddNullableEnabledContextCodeFixProvider.cs:62-64 | The ordered, filtered directives are exactly those starting before the span, sorted by start. |
| AddNullableEnabledContextCodeFixProvider.PrecedingDisablePragmasAreTheClosestRun | src/Features/CSharp/Portable/AddNullableEnabled/AddNullableEnabledContextCodeFixProvider.cs:62-66 | The candidates are the maximal run of `disable` directives closest before the span. |
| AddNullableEnabledContextCodeFixProvider.FixForNullableEnabledProject | src/Features/CSharp/Portable/AddNullableEnabled/AddNullableEnabledContextCodeFixProvider.cs:57-79 | The loop removes exactly the candidates that are nodes, in candidate order. |
| AddNullableEnabledContextCodeFixProvider.RemoveNodes | src/Features/CSharp/Portable/AddNullableEnabled/AddNullableEnabledContextCodeFixProvider.cs:68-76 | The `foreach` removes exactly the candidates that are nodes, in candidate order, and skips the rest. |
| AddNullableEnabledContextCodeFixProvider.RemovedDirectives | src/Features/CSharp/Portable/AddNullableEnabled/AddNullableEnabledContextCodeFixProvider.cs:61-76 | A directive is removed iff it is a node, starts before the span and is a `disable`, and no non-`disable` directive lies between it and the span. |
| AddNullableEnabledContextCodeFixProvider.RemovedDirectivesPrecedeTheSpan | src/Features/CSharp/Portable/AddNullableEnabled/AddNullableEnabledContextCodeFixProvider.cs:61-64 | Every removed directive is a `#nullable disable` starting before the span. Nothing at or after the span is touched. |
| AddNullableEnabledContextCodeFixProvider.NonDisableEndsTheRun | src/EditorFeatures/CSharpTest/AddNullableEnabled/AddNullableEnabledTests.cs:65-98 | A non-`disable` directive between a directive and the span keeps that directive. |
| AddNullableEnabledContextCodeFixProvider.AllPrecedingDisablesAreCandidates | src/EditorFeatures/CSharpTest/AddNullableEnabled/AddNullableEnabledTests.cs:100-126 | When every directive before the span is a `disable`, all of them are candidates. |
| AddNullableEnabledContextCodeFixProvider.FixAll | src/Features/CSharp/Portable/AddNullableEnabled/AddNullableEnabledContextCodeFixProvider.cs:81-84 | Fix-all makes no change. |
| CSharpInlineParameterNameHintsService.GetKind | src/Features/CSharp/Portable/InlineHints/CSharpInlineParameterNameHintsService.cs:86-96 | The classification switch, recursing through casts, prefix operators and `!`; what it computes is `GetKindIsKindOfCore`. |
| CSharpInlineParameterNameHintsService.GetKindIsKindOfCore | src/Features/CSharp/Portable/InlineHints/CSharpInlineParameterNameHintsService.cs:86-96 | `GetKind` classifies the innermost expression under casts, prefix operators and `!`. Literal iff that expression is a literal or interpolated string; ObjectCreation iff it is an object creation. |
| CSharpInlineParameterNameHintsService.AttributeHintsAreThePositionalArguments | src/Features/CSharp/Portable/InlineHints/CSharpInlineParameterNameHintsService.cs:49-56 | A hint is produced exactly for each attribute argument without `name =` and without `name:`, at its span start. |
| CSharpInlineParameterNameHintsService.PresentNamesAreTheColonNames | src/Features/CSharp/Portable/InlineHints/CSharpInlineParameterNameHintsService.cs:66-71 | A name is present iff some argument is written with it before a colon. |
| CSharpInlineParameterNameHintsService.GetsHint | src/Features/CSharp/Portable/InlineHints/CSharpInlineParameterNameHintsService.cs:75-80 | The two skips of the second loop: an argument gets a hint iff it has no `name:` and its parameter, if resolved, does not have a present name. |
| CSharpInlineParameterNameHintsService.HintsGivenPresentNamesAreOfSelected | src/Features/CSharp/Portable/InlineHints/CSharpInlineParameterNameHintsService.cs:73-83 | The second loop gives, for any set of present names, exactly one hint for each argument that passes both skip tests, and nothing else. |
| CSharpInlineParameterNameHintsService.ArgumentHintsSkipNamedParameters | src/Features/CSharp/Portable/InlineHints/CSharpInlineParameterNameHintsService.cs:73-83 | A hint is produced exactly for each argument without `name:` whose resolved parameter's name is not present. An unresolved parameter is never skipped. |
| CSharpInlineParameterNameHintsService.HintBuffer.constructor | src/Features/CSharp/Portable/InlineHints/CSharpInlineParameterNameHintsService.cs:30 | The buffer starts empty. |
| CSharpInlineParameterNameHintsService.HintBuffer.Add | src/Features/CSharp/Portable/InlineHints/CSharpInlineParameterNameHintsService.cs:55 | Appends one hint. |
| CSharpInlineParameterNameHintsService.AddAttributeArguments | src/Features/CSharp/Portable/InlineHints/CSharpInlineParameterNameHintsService.cs:43-57 | The loop appends the attribute hints in argument order and keeps the buffer's existing contents. |
| CSharpInlineParameterNameHintsService.CollectPresentNames | src/Features/CSharp/Portable/InlineHints/CSharpInlineParameterNameHintsService.cs:66-71 | The first loop collects exactly the colon names. |
| CSharpInlineParameterNameHintsService.AddArguments | src/Features/CSharp/Portable/InlineHints/CSharpInlineParameterNameHintsService.cs:59-84 | The loops append the argument hints in argument order and keep the buffer's existing contents. |
| CSharpInlineParameterNameHintsService.AddAllParameterNameHintLocations | src/Features/CSharp/Portable/InlineHints/CSharpInlineParameterNameHintsService.cs:26-41 | Dispatches on the node kind and appends that node's hints. |
| CSharpInlineParameterNameHintsService.NodeHintsSitAtTheirArguments | src/Features/CSharp/Portable/InlineHints/CSharpInlineParameterNameHintsService.cs:33-40 | Only argument lists and attribute argument lists produce hints. Each hint sits at the start of an argument that qualifies. |
| CSharpInlineParameterNameHintsService.IsIndexer | src/Features/CSharp/Portable/InlineHints/CSharpInlineParameterNameHintsService.cs:98-101 | True iff the node is a bracketed argument list. |
| CSharpInlineParameterNameHintsService.GetReplacementText | src/Features/CSharp/Portable/InlineHints/CSharpInlineParameterNameHintsService.cs:103-108 | The name followed by `": "`, prefixed with `@` exactly for a reserved keyword. |
| CSharpInlineParameterNameHintsService.ReplacementTextRoundTrip | src/Features/CSharp/Portable/InlineHints/CSharpInlineParameterNameHintsService.cs:103-108 | The parameter name can be read back from its replacement text. |
| CSharpRemoveUnnecessaryImportsDiagnosticAnalyzer.MergeImports | src/Analyzers/CSharp/Analyzers/RemoveUnnecessaryImports/CSharpRemoveUnnecessaryImportsDiagnosticAnalyzer.cs:37-38 | The imports are returned unchanged, in order. |
| CSharpRemoveUnnecessaryImportsDiagnosticAnalyzer.TryGetLastToken | src/Analyzers/CSharp/Analyzers/RemoveUnnecessaryImports/CSharpRemoveUnnecessaryImportsDiagnosticAnalyzer.cs:46-48 | Always null. |
| CSharpRemoveUnnecessaryImportsDiagnosticAnalyzer.CommentsAreRegularOrDoc | src/Analyzers/CSharp/Analyzers/RemoveUnnecessaryImports/CSharpRemoveUnnecessaryImportsDiagnosticAnalyzer.cs:43-44 | A comment counts iff it is a regular or a documentation comment. |
| CSharpRemoveUnnecessaryImportsDiagnosticAnalyzer.ContainerOf | src/Analyzers/CSharp/Analyzers/RemoveUnnecessaryImports/CSharpRemoveUnnecessaryImportsDiagnosticAnalyzer.cs:55 | The closest strict ancestor that is a namespace or compilation unit. None iff no ancestor is one. |
| CSharpRemoveUnnecessaryImportsDiagnosticAnalyzer.GetFixableDiagnosticSpans | src/Analyzers/CSharp/Analyzers/RemoveUnnecessaryImports/CSharpRemoveUnnecessaryImportsDiagnosticAnalyzer.cs:50-66 | No nodes ends in the contract failure. A node without a container ends the enumeration with `First`'s exception. |
| CSharpRemoveUnnecessaryImportsDiagnosticAnalyzer.OneSpanPerDistinctContainer | src/Analyzers/CSharp/Analyzers/RemoveUnnecessaryImports/CSharpRemoveUnnecessaryImportsDiagnosticAnalyzer.cs:55-64 | One usings span per distinct container, in first-occurrence order. |
| CSharpRemoveUnnecessaryImportsDiagnosticAnalyzer.OneContainerGivesOneSpan | src/Analyzers/CSharp/Analyzers/RemoveUnnecessaryImports/CSharpRemoveUnnecessaryImportsDiagnosticAnalyzer.cs:55 | Several usings in one container give a single span. |
| CSharpRemoveUnnecessaryImportsDiagnosticAnalyzer.MissingContainerEndsTheEnumeration | src/Analyzers/CSharp/Analyzers/RemoveUnnecessaryImports/CSharpRemoveUnnecessaryImportsDiagnosticAnalyzer.cs:55 | The spans of the containers found before the first node without one are yielded, then the exception. |
| FormatDocumentOnTypeHandler.IsNewLine | src/LanguageServer/Protocol/Handler/Formatting/FormatDocumentOnTypeHandler.cs:74 | `SyntaxFacts.IsNewLine`: carriage return, line feed, next line, line separator or paragraph separator. |
| FormatDocumentOnTypeHandler.HandleRequest | src/LanguageServer/Protocol/Handler/Formatting/FormatDocumentOnTypeHandler.cs:37-106 | Null iff there is no document. An empty array for a missing or empty character, a declined character or no changes. |
| FormatDocumentOnTypeHandler.EditsAreTheChangesAwayFromTheCaret | src/LanguageServer/Protocol/Handler/Formatting/FormatDocumentOnTypeHandler.cs:74-105 | One edit per sent change, in order. After a newline, the sent changes are those not containing the caret; otherwise all of them. |
| FormatDocumentOnTypeHandler.NewLineKeepsTheCaretLine | src/LanguageServer/Protocol/Handler/Formatting/FormatDocumentOnTypeHandler.cs:74-102 | After a newline, no sent change contains the caret, and every change not containing it is sent. |
| FormatDocumentOnTypeHandler.OnlyTheFirstCharacterCounts | src/LanguageServer/Protocol/Handler/Formatting/FormatDocumentOnTypeHandler.cs:56-74 | Two requests whose strings share a first character get the same answer. |
| SelectionAnalyzer.NewSelectionAnalysisResult | src/Features/Core/Portable/SelectionAnalyzer.cs:29-43 | Keeps the document, selection and context. The intersected nodes are exactly the context's children whose span intersects the selection. The "exact" flag holds iff the context's full span overlaps the selection. |
| SelectionAnalyzer.Analyze | src/Features/Core/Portable/SelectionAnalyzer.cs:11-25 | The context is the node `FindNode` returns for the selection. |
| SelectionAnalyzer.WithContext | src/Features/Core/Portable/MoveToNamespace/AbstractMoveToNamespaceService.cs:108 | The same document and selection, analysed at another context. |
| SelectionAnalyzer.CaretMeetsTouchingChildren | src/Features/Core/Portable/SelectionAnalyzer.cs:37-42 | An empty selection meets every child it touches, yet the "exact" flag is false. |
| MoveToNamespaceAnalysisResults.NewAnalysisResult | src/Features/Core/Portable/MoveToNamespace/MoveToNamespaceAnalysisResult.cs:17-28 | The result can be performed and stores its four arguments unchanged. |
| MoveToNamespaceAnalysisResults.MoveToNamespaceAnalysisResult.CanPerform | src/Features/Core/Portable/MoveToNamespace/MoveToNamespaceAnalysisResult.cs:12-32 | `CanPerform` is set by the public constructor only, so it holds exactly for a valid result. |
| MoveToNamespaceAnalysisResults.OnlyInvalidCannotPerform | src/Features/Core/Portable/MoveToNamespace/MoveToNamespaceAnalysisResult.cs:9-33 | A result cannot be performed iff it is `Invalid`. |
| AbstractMoveToNamespaceService.ContainsNamespaceDeclaration | src/Features/Core/Portable/MoveToNamespace/AbstractMoveToNamespaceService.cs:135-136 | True iff some node strictly below the node is a namespace declaration. |
| AbstractMoveToNamespaceService.ContainsMultipleNamespaceInSpine | src/Features/Core/Portable/MoveToNamespace/AbstractMoveToNamespaceService.cs:138-139 | True iff two distinct positions of the node's spine are namespace declarations. |
| AbstractMoveToNamespaceService.ContainsMultipleTypesInSpine | src/Features/Core/Portable/MoveToNamespace/AbstractMoveToNamespaceService.cs:141-142 | True iff two distinct positions of the node's spine are type declarations. |
| AbstractMoveToNamespaceService.NestedNamespacesAreMultiple | src/Features/Core/Portable/MoveToNamespace/AbstractMoveToNamespaceService.cs:138-139 | A namespace inside another namespace has more than one namespace in its spine. |
| AbstractMoveToNamespaceService.TryAnalyzeNamespace | src/Features/Core/Portable/MoveToNamespace/AbstractMoveToNamespaceService.cs:70-112 | A namespace context meeting types gives exactly a MultipleNamedTypes result with the analysis unchanged and that namespace's name; a MultipleNamedTypes result arises only that way. Otherwise a valid result is a Namespace container whose context is the enclosing namespace declaration. |
| AbstractMoveToNamespaceService.NamespaceAnalysisIsInvalidExactly | src/Features/Core/Portable/MoveToNamespace/AbstractMoveToNamespaceService.cs:85-105 | Outside the first case, the result is `Invalid` iff one of four holds: no namespace at or above the context; an empty selection outside it; a nested namespace inside it; or it is nested. |
| AbstractMoveToNamespaceService.TryAnalyzeNamedType | src/Features/Core/Portable/MoveToNamespace/AbstractMoveToNamespaceService.cs:114-133 | `Invalid` iff the spine holds more than one namespace or more than one type. Otherwise a NamedType result for a type context, and null for any other context. |
| AbstractMoveToNamespaceService.AnalyzeTypeAtSelection | src/Features/Core/Portable/MoveToNamespace/AbstractMoveToNamespaceService.cs:54-68 | A type-declaration context gets the type analysis, any other context the namespace analysis. The result is well formed for the document and span. |
| AbstractMoveToNamespaceService.GetCodeActions | src/Features/Core/Portable/MoveToNamespace/AbstractMoveToNamespaceService.cs:39-52 | Exactly one action, for the result, iff it can be performed; none otherwise. |
| AbstractMoveToNamespaceService.MoveToNamespace | src/Features/Core/Portable/MoveToNamespace/AbstractMoveToNamespaceService.cs:144-165 | Failed iff the result cannot be performed; otherwise the move matching the container, with the target namespace. |
| AbstractMoveToNamespaceService.GetNewSymbolName | src/Features/Core/Portable/MoveToNamespace/AbstractMoveToNamespaceService.cs:317-321 | Fails iff the namespace's display string is longer than the symbol's. Otherwise has the length of the target plus the rest of the symbol's display string. |
| AbstractMoveToNamespaceService.NewSymbolNameReplacesTheNamespace | src/Features/Core/Portable/MoveToNamespace/AbstractMoveToNamespaceService.cs:317-321 | A symbol displayed as its namespace plus a rest becomes the target namespace plus that rest. |
| AbstractMoveTypeService.CreateState | src/Features/Core/Portable/CodeRefactorings/MoveType/AbstractMoveTypeService.cs:78-88 | No state without a relevant node; otherwise the generated one. |
| AbstractMoveTypeService.IsNestedType | src/Features/Core/Portable/CodeRefactorings/MoveType/AbstractMoveTypeService.cs:152-153 | A type is nested iff its parent is a type declaration. |
| AbstractMoveTypeService.TopLevelTypeDeclarations | src/Features/Core/Portable/CodeRefactorings/MoveType/AbstractMoveTypeService.cs:164-166 | Every node it yields is a type declaration; which ones is `TopLevelTypesAreTheTypesOutsideTypes`. |
| AbstractMoveTypeService.MultipleTopLevelTypeDeclarationInSourceDocument | src/Features/Core/Portable/CodeRefactorings/MoveType/AbstractMoveTypeService.cs:161-162 | `Skip(1).Any()`: there are at least two top-level types. |
| AbstractMoveTypeService.AnyTopLevelTypeMatchesDocumentName | src/Features/Core/Portable/CodeRefactorings/MoveType/AbstractMoveTypeService.cs:168-180 | True iff the declared name of some top-level type matches the document name. |
| AbstractMoveTypeService.TopLevelTypesAreTheTypesOutsideTypes | src/Features/Core/Portable/CodeRefactorings/MoveType/AbstractMoveTypeService.cs:164-166 | A node is a top-level type iff it is a type reached through compilation units and namespaces only. |
| AbstractMoveTypeService.CreateActions | src/Features/Core/Portable/CodeRefactorings/MoveType/AbstractMoveTypeService.cs:90-147 | The builder ends holding the action table for the state. |
| AbstractMoveTypeService.FillActions | src/Features/Core/Portable/CodeRefactorings/MoveType/AbstractMoveTypeService.cs:102-146 | The two loops and the final test fill exactly the table for the decided tests. |
| AbstractMoveTypeService.OfferedActions | src/Features/Core/Portable/CodeRefactorings/MoveType/AbstractMoveTypeService.cs:92-142 | Nothing when the name matches the document. A MoveType action per suggested name iff several top-level types or nested. When no top-level type matches: a RenameFile per suggested name, then RenameType iff the document name is an identifier. |
| AbstractMoveTypeService.SingleTypeIsNotMoved | src/Features/Core/Portable/CodeRefactorings/MoveType/AbstractMoveTypeService.cs:112-123 | A single, non-nested top-level type gets no move action. |
| AbstractMoveTypeService.GetRefactoring | src/Features/Core/Portable/CodeRefactorings/MoveType/AbstractMoveTypeService.cs:42-54 | No actions without a state; otherwise the action table. |
| AbstractMoveTypeService.GetModifiedSolution | src/Features/Core/Portable/CodeRefactorings/MoveType/AbstractMoveTypeService.cs:56-74 | The original solution without a state or when the editor yields null; otherwise the editor's solution. |
| CSharpExtractMembersAnalyzer.GetSelectedClassDeclaration | src/Features/CSharp/Portable/CodeRefactorings/Extractmembers/CSharpExtractMembersAnalyzer.cs:27-31 | The first relevant class declaration, or null iff there is none. |
| CSharpExtractMembersAnalyzer.RelevantNodes | src/Features/CSharp/Portable/CodeRefactorings/Extractmembers/CSharpExtractMembersAnalyzer.cs:48-51 | The member and declarator nodes, each once and nothing else, sorted by `span.CompareTo(n.Span)`. |
| CSharpExtractMembersAnalyzer.GetSelectedMemberNodes | src/Features/CSharp/Portable/CodeRefactorings/Extractmembers/CSharpExtractMembersAnalyzer.cs:33-61 | Empty iff there are no relevant nodes. Otherwise the result is duplicate-free, sorted, drawn from the inputs, starts with the first sorted node, and shares its containing type declaration. |
| CSharpExtractMembersAnalyzer.SelectedMembersAreThoseOfTheFirstDeclaration | src/Features/CSharp/Portable/CodeRefactorings/Extractmembers/CSharpExtractMembersAnalyzer.cs:53-60 | A node is selected iff it is relevant and shares the first sorted node's containing type declaration. |
| CSharpExtractMembersAnalyzer.SelectedMembersStartLatestFirst | src/Features/CSharp/Portable/CodeRefactorings/Extractmembers/CSharpExtractMembersAnalyzer.cs:50 | The order puts later-starting nodes first, unless a node starts where the span does. Nodes starting there come longest first. |
| AbstractExtractMemberAnalyzer.SelectedMemberPairs | src/Features/Core/Portable/ExtractMembers/AbstractExtractMemberAnalyzer.cs:81-84 | The pairs are the nodes declaring a valid member, in order, each with its non-null, valid symbol. |
| AbstractExtractMemberAnalyzer.GetMemberNodeAnalysis | src/Features/Core/Portable/ExtractMembers/AbstractExtractMemberAnalyzer.cs:76-98 | Null iff no node declares a valid member. Otherwise it carries the non-empty pairs. |
| AbstractExtractMemberAnalyzer.FirstValidMemberDecidesTheType | src/Features/Core/Portable/ExtractMembers/AbstractExtractMemberAnalyzer.cs:93-97 | The original type and declaration node come from the first node declaring a valid member. |
| AbstractExtractMemberAnalyzer.GetClassNodeAnalysis | src/Features/Core/Portable/ExtractMembers/AbstractExtractMemberAnalyzer.cs:41-74 | A selected class gives a result iff it declares a named type. Without one, the result needs the found node to be a member of its enclosing type declaration. A result carries no members. |
| AbstractExtractMemberAnalyzer.Analyze | src/Features/Core/Portable/ExtractMembers/AbstractExtractMemberAnalyzer.cs:29-39 | The result is the member analysis when that is non-null, otherwise the class analysis when that is non-null, otherwise `InvalidSelection`. `InvalidSelection` iff both are null. A class result has a type and a node. |
| PullMemberUpRefactoringProvider.PullUpActions | src/Features/Core/Portable/PullMemberUp/PullMemberUpRefactoringProvider.cs:79-81 | At most one action per destination. Each action is one the puller computes for some destination, and each computed action is present. |
| PullMemberUpRefactoringProvider.PullUpActionsFollowDestinations | src/Features/Core/Portable/PullMemberUp/PullMemberUpRefactoringProvider.cs:79-81 | Exactly one action per destination for which the puller computes one, in destination order, and no other. |
| PullMemberUpRefactoringProvider.ComputeRefactorings | src/Features/Core/Portable/PullMemberUp/PullMemberUpRefactoringProvider.cs:36-95 | Nothing for an invalid selection or no members. The contract failures arise iff the type or node is null. At most one registration, only with valid members and destinations. |
| PullMemberUpRefactoringProvider.DestinationsDependOnFields | src/Features/Core/Portable/PullMemberUp/PullMemberUpRefactoringProvider.cs:61-67 | A destination is offered iff it is valid and is a base type, or an interface when not every member is a field. |
| PullMemberUpRefactoringProvider.SingleMemberGetsInlineActions | src/Features/Core/Portable/PullMemberUp/PullMemberUpRefactoringProvider.cs:74-89 | One valid member gets one inlinable nested action at its span. Its nested actions are exactly `PullUpActions` over the valid destinations (one per destination the puller handles, in order), then the dialog. |
| PullMemberUpRefactoringProvider.SeveralMembersGetTheDialog | src/Features/Core/Portable/PullMemberUp/PullMemberUpRefactoringProvider.cs:91-94 | Several valid members get exactly the dialog action, or nothing without destinations. |
| AbstractGoToBaseService.FindBaseNoArgConstructor | src/Features/Core/Portable/GoToBase/AbstractGoToBaseService.cs:20-29 | Null without a base type. Otherwise the first base instance constructor that is accessible and whose parameters are all optional or `params`. |
| AbstractGoToBaseService.FindUsagesContext.constructor | src/Features/Core/Portable/GoToBase/AbstractGoToBaseService.cs:31 | A context with no reports. |
| AbstractGoToBaseService.FindUsagesContext.ReportNoResults | src/Features/Core/Portable/GoToBase/AbstractGoToBaseService.cs:40 | Appends one no-results report. |
| AbstractGoToBaseService.FindUsagesContext.SetSearchTitle | src/Features/Core/Portable/GoToBase/AbstractGoToBaseService.cs:52-55 | Appends the search title. |
| AbstractGoToBaseService.FindUsagesContext.OnDefinitionFound | src/Features/Core/Portable/GoToBase/AbstractGoToBaseService.cs:74 | Appends one definition. |
| AbstractGoToBaseService.DefinitionOf | src/Features/Core/Portable/GoToBase/AbstractGoToBaseService.cs:62-81 | The source definition is preferred, then a metadata one. None iff neither exists. |
| AbstractGoToBaseService.DefinitionReports | src/Features/Core/Portable/GoToBase/AbstractGoToBaseService.cs:57-81 | At most one definition per base. None at all iff no base has a definition. |
| AbstractGoToBaseService.CandidateBases | src/Features/Core/Portable/GoToBase/AbstractGoToBaseService.cs:44-50 | The bases found; for a constructor with none, the next constructor in the chain. |
| AbstractGoToBaseService.FindBases | src/Features/Core/Portable/GoToBase/AbstractGoToBaseService.cs:31-87 | Appends exactly `BasesReports` to the context. With no symbol that is "cannot navigate" alone. Otherwise it is the title, each base's definition in order, then "no base" if none was found. |
| AbstractGoToBaseService.ReportBases | src/Features/Core/Portable/GoToBase/AbstractGoToBaseService.cs:52-87 | Once the bases are known: the title, then the definitions of the bases in order, then "no base" exactly when there were none. |
| AbstractGoToBaseService.ReportDefinitions | src/Features/Core/Portable/GoToBase/AbstractGoToBaseService.cs:57-81 | The loop reports each base's definition, if any, in order. `found` holds iff one was reported. |
| AbstractGoToBaseService.NoBaseIsReportedIffNoBaseHasADefinition | src/Features/Core/Portable/GoToBase/AbstractGoToBaseService.cs:36-86 | No symbol gives only "cannot navigate". Otherwise the title comes first, then the definitions, then "no base" iff none was reported. |
| AbstractGoToBaseService.EachDefinitionIsReported | src/Features/Core/Portable/GoToBase/AbstractGoToBaseService.cs:62-81 | Every base with a definition is reported once, at its place in base order. |

## Left out

- The Visual Studio and WPF plumbing is not modelled: the dialogs, view models, elision-buffer setup, keystroke and OLE message/VARIANT marshalling, and the clipboard `IDataObject` wrappers. It has no logic of its own beyond its calls into the host.
- Concurrency is not modelled. The add-imports `Task.Run` is an already-computed value. The Razor lock and the cancellation tokens are dropped; each operation runs sequentially.
- The compiler is an oracle (a function parameter), never a model. This covers:
  - the syntax and semantic model;
  - `FindNode`, `GetDeclaredSymbol`, `DetermineParameter`, `GetContainedSpan`;
  - `MemberAndDestinationValidator`, `WorkspacePathUtilities`, `FindBaseHelpers`, `SymbolFinder` and `State.Generate`;
  - `SyntaxFacts` keyword tables;
  - `VisualStudioMoveToNamespaceOptionsService`'s `FindNamespaceDeclaration`.
- Even so, `TextSpan` and `SyntaxKind` are defined in the model, not taken from the compiler.
- The move operations and namespace listing of the move-to-namespace service are not modelled at all: lines 167-315 and 330-357 of its source. The same goes for the nullable fix's document editor and the `ReplaceNode*` wrappers of the document extensions. Each is a call into an editor or service whose source is not part of this model.
- Resource strings and title formats are not modelled: the go-to-base title is the symbol's display name, and "Fix nullable context" is a constant action.
- `SelectionAnalyzer.WithContext`: the `WithContext` method is not defined in the shown source. It is modelled as rebuilding the analysis through the `SelectionAnalysisResult` constructor.
- Node identity (reference equality in C#) is value equality on `Node`, which carries an id.
- `HashSet` enumeration order is insertion order where a sequence comes out of it: the add-imports visitor and the document union. For the Razor flush any order is allowed, and the contracts speak of the set.
- `CSharpRemoveUnnecessaryImportsDiagnosticAnalyzer.GetFixableDiagnosticSpans`: the lazy iterator is modelled as the spans it yields, followed by the exception that ends the enumeration, if any.
- `AbstractExtractMemberAnalyzer.Analyze`: `InvalidSelection` is a constructor without fields. Its null original type and null declaration node are therefore not fields that can be read.
- `ExtractClassRefactoringProvider` is not modelled. It reads `analysis.SelectedMember`, which `ExtractMemberAnalysis` does not define.
- The keyword recommenders, `CSharpExtractInterfaceService`, the LSP settings records and the other declarative files are not modelled. They have no logic beyond property access or unseen context queries.
- `MoveToNamespaceEditorControl.QueryStatus`: the numeric values of `VSStd2KCmdID` and `VSStd97CmdID` are not in the shown source. The cast from a raw id to a command is a parameter (`CommandIds`).
- `CSharpMoveToNamespaceWorkspace.GetDocumentText`: the line break is `LF` or `CRLF`, standing for the source file's own verbatim line breaks.
- `CSharpMoveToNamespaceTextViewModelProvider.NamespaceSpanOfTemplate`: proved only for names that are non-empty, have no line break and no trailing white space. For other names the round trip is not proved.
- `DependencyObjectExtensions.VisualTree.Ancestors`: the visual tree is assumed acyclic (a height witness), since the recursion does not end otherwise.
- `CopyDataCache.CopyDataService.Store`: the `stored` history is ghost and exists only to state the FIFO invariant.

## Findings

| source | as written | input that shows it | evidently intended | confidence | as-written member | corrected member |
|---|---|---|---|---|---|---|
| src/EditorFeatures/Core/Implementation/AddImports/AddImportsCopyCacheService.cs:92 | `Visitor` derives from `OperationVisitor`, whose base visits do nothing, so the overrides' `base.Visit…` calls reach no child and only the root operation of a copied node is examined | copying the statement `T.M();`: its operation is an expression statement holding the invocation of `T.M`, and nothing is recorded | a walk over the whole operation tree (`OperationWalker`), the idiom the overrides' leading `base` calls follow, so that `T` is recorded | medium; not executed | AddImportsCopyCache.StatementCopyRecordsNothingAsWritten | AddImportsCopyCache.Visitor.VisitOperation |
| src/Workspaces/Core/Portable/Rename/ConflictEngine/DocumentPathEqualityComparer.cs:26 | `GetHashCode(obj)` is the object's own hash, while `Equals` compares file paths | two distinct `Document` objects for the file `C.cs` (ids 1 and 2): `Equals` is true, but identity hashes 1 and 2 differ | a hash of the file path, so that equal documents hash alike as `IEqualityComparer` requires | not executed | DocumentPathEqualityComparer.AsWrittenHashDisagreesWithEquals | DocumentPathEqualityComparer.HashByPathAgreesWithEquals |
