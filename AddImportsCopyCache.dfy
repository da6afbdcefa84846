/** The add-imports copy cache: when text is copied, the symbols the copied spans use are
    recorded (as symbol keys) under a fresh identifier, so that a later paste can add the
    imports they need. The semantic model is replaced by its answers: `findNode` gives the
    node at a span, `getOperation` the node's operation tree (if any), `symbolKey` a symbol's
    key. The background task that computes an entry is modelled as computing it at once.

    The source's visitor derives from `OperationVisitor`, so only the root operation of each
    node is examined (`VisitAsWritten`). The overrides call their `base` visit first, the
    idiom of a walker over the whole tree, and the service here uses that walk
    (`VisitOperation`). */
module AddImportsCopyCache {
  import opened Common
  import opened AddImportsCacheIdentifiers

  /** A symbol; symbol equality is structural. */
  datatype Symbol = Symbol(id: nat)

  /** What `GetDeclaredSymbol` answers for the syntax of a method body. */
  datatype DeclaredSymbol = NoDeclaredSymbol
                          | MethodSymbol(isStatic: bool, containingSymbol: Option<Symbol>)
                          | OtherSymbol

  /** The operation tree of a node, reduced to the three kinds of operation the visitor
      handles; every other kind is `OtherOperation`. */
  datatype Operation =
    | Invocation(targetMethodContainingType: Option<Symbol>, children: seq<Operation>)
    | VariableDeclaration(declaredType: Option<Symbol>, children: seq<Operation>)
    | MethodBody(hasSemanticModel: bool, declared: DeclaredSymbol, children: seq<Operation>)
    | OtherOperation(children: seq<Operation>)

  /** The symbol a single operation contributes, before its null check. */
  function Recorded(op: Operation): (r: Option<Symbol>)
    ensures op.OtherOperation? ==> r.None?
    ensures op.MethodBody? && r.Some? ==> op.hasSemanticModel && op.declared.MethodSymbol? && op.declared.isStatic
  {
    match op
    case Invocation(t, _) => t
    case VariableDeclaration(t, _) => t
    case MethodBody(hasModel, declared, _) =>
      if hasModel && declared.MethodSymbol? && declared.isStatic then declared.containingSymbol else None
    case OtherOperation(_) => None
  }

  /** The non-null symbols the corrected visitor meets when it walks the whole tree, children
      first and in child order. */
  function Collected(op: Operation): seq<Symbol>
    decreases op, 1
  {
    CollectedFromChildren(op, |op.children|) + (if Recorded(op).Some? then [Recorded(op).value] else [])
  }

  /** The symbols collected from the first `n` children of `op`. */
  function CollectedFromChildren(op: Operation, n: nat): seq<Symbol>
    requires n <= |op.children|
    decreases op, 0, n
  {
    if n == 0 then [] else CollectedFromChildren(op, n - 1) + Collected(op.children[n - 1])
  }

  /** `node` occurs in the tree rooted at `op`. */
  predicate InTree(node: Operation, op: Operation)
    decreases op
  {
    node == op || exists i :: 0 <= i < |op.children| && InTree(node, op.children[i])
  }

  /** A symbol is collected exactly when some operation of the tree records it. */
  lemma {:induction false} CollectedIffRecordedInTree(op: Operation, x: Symbol)
    ensures x in Collected(op) <==> exists node :: InTree(node, op) && Recorded(node) == Some(x)
    decreases op, 1
  {
    CollectedFromChildrenIff(op, |op.children|, x);
    if x in Collected(op) {
      if !(x in CollectedFromChildren(op, |op.children|)) {
        assert InTree(op, op);
      }
    }
  }

  lemma {:induction false} CollectedFromChildrenIff(op: Operation, n: nat, x: Symbol)
    requires n <= |op.children|
    ensures x in CollectedFromChildren(op, n)
        <==> exists i, node :: 0 <= i < n && InTree(node, op.children[i]) && Recorded(node) == Some(x)
    decreases op, 0, n
  {
    if n > 0 {
      CollectedFromChildrenIff(op, n - 1, x);
      CollectedIffRecordedInTree(op.children[n - 1], x);
      if x in CollectedFromChildren(op, n) {
        if x in Collected(op.children[n - 1]) {
          var node :| InTree(node, op.children[n - 1]) && Recorded(node) == Some(x);
          assert 0 <= n - 1 < n && InTree(node, op.children[n - 1]) && Recorded(node) == Some(x);
        }
      }
      if exists i, node :: 0 <= i < n && InTree(node, op.children[i]) && Recorded(node) == Some(x) {
        var i, node :| 0 <= i < n && InTree(node, op.children[i]) && Recorded(node) == Some(x);
        if i == n - 1 {
          assert x in Collected(op.children[n - 1]);
        } else {
          assert x in CollectedFromChildren(op, n - 1);
        }
      }
    }
  }

  /** A `HashSet.Add` sequence: each element once, at its first insertion. */
  function AddAll(acc: seq<Symbol>, xs: seq<Symbol>): seq<Symbol>
    decreases |xs|
  {
    if xs == [] then acc
    else AddAll(if xs[0] in acc then acc else acc + [xs[0]], xs[1..])
  }

  /** Adding keeps the set free of duplicates, adds exactly the new elements and keeps the
      earlier ones first. */
  lemma {:induction false} AddAllIsSetUnion(acc: seq<Symbol>, xs: seq<Symbol>)
    ensures NoDuplicates(acc) ==> NoDuplicates(AddAll(acc, xs))
    ensures forall x :: x in AddAll(acc, xs) <==> x in acc || x in xs
    ensures |acc| <= |AddAll(acc, xs)| && acc == AddAll(acc, xs)[..|acc|]
    decreases |xs|
  {
    if xs != [] {
      var next := if xs[0] in acc then acc else acc + [xs[0]];
      AddAllIsSetUnion(next, xs[1..]);
      assert forall x :: x in xs <==> x == xs[0] || x in xs[1..];
    }
  }

  lemma {:induction false} AddAllAppend(acc: seq<Symbol>, xs: seq<Symbol>, ys: seq<Symbol>)
    ensures AddAll(acc, xs + ys) == AddAll(AddAll(acc, xs), ys)
    decreases |xs|
  {
    if xs == [] {
      assert xs + ys == ys;
    } else {
      assert (xs + ys)[1..] == xs[1..] + ys;
      AddAllAppend(if xs[0] in acc then acc else acc + [xs[0]], xs[1..], ys);
    }
  }

  /** The symbols of one operation tree as the visitor's set holds them, in insertion order. */
  function UsedSymbols(op: Option<Operation>): seq<Symbol>
  {
    if op.None? then [] else AddAll([], Collected(op.value))
  }

  /** The set holds each symbol once, and exactly the symbols some operation of the tree
      records: an invocation's target type, a declaration's type, or the containing symbol
      of a static method whose body it is. */
  lemma UsedSymbolsAreTheRecordedOnes(op: Option<Operation>)
    ensures NoDuplicates(UsedSymbols(op))
    ensures forall x :: x in UsedSymbols(op) <==> op.Some? && exists node :: InTree(node, op.value) && Recorded(node) == Some(x)
  {
    if op.Some? {
      AddAllIsSetUnion([], Collected(op.value));
      forall x ensures x in UsedSymbols(op) <==> exists node :: InTree(node, op.value) && Recorded(node) == Some(x) {
        CollectedIffRecordedInTree(op.value, x);
      }
    }
  }

  /** The symbols the visitor as written meets in one operation. It derives from
      `OperationVisitor`, whose base visits do nothing, so the overrides' `base.Visit…` calls
      reach no child and only the operation's own symbol is met. */
  function VisitedAsWritten(op: Operation): (r: seq<Symbol>)
    ensures |r| <= 1
    ensures forall x :: x in r <==> Recorded(op) == Some(x)
  {
    if Recorded(op).Some? then [Recorded(op).value] else []
  }

  /** The used-symbol set the visitor as written leaves for one node. */
  function UsedSymbolsAsWritten(op: Option<Operation>): seq<Symbol>
  {
    if op.None? then [] else AddAll([], VisitedAsWritten(op.value))
  }

  /** As written, the set holds at most the root operation's own symbol, and the children
      play no part. */
  lemma UsedSymbolsAsWrittenAreTheRootOnes(op: Option<Operation>)
    ensures |UsedSymbolsAsWritten(op)| <= 1
    ensures forall x :: x in UsedSymbolsAsWritten(op) <==> op.Some? && Recorded(op.value) == Some(x)
  {
    if op.Some? {
      AddAllIsSetUnion([], VisitedAsWritten(op.value));
    }
  }

  /** Copying the statement `T.M();`: its operation is an expression statement whose only
      child is the invocation of `T.M`. The visitor as written records nothing for it, while
      the walk records `T`. */
  lemma {:induction false} StatementCopyRecordsNothingAsWritten(t: Symbol)
    ensures var statement := OtherOperation([Invocation(Some(t), [])]);
            UsedSymbolsAsWritten(Some(statement)) == [] && UsedSymbols(Some(statement)) == [t]
  {
    var invocation := Invocation(Some(t), []);
    var statement := OtherOperation([invocation]);
    assert CollectedFromChildren(invocation, 0) == [];
    assert Collected(invocation) == [t];
    assert CollectedFromChildren(statement, 1) == CollectedFromChildren(statement, 0) + Collected(invocation);
    assert Collected(statement) == [t];
    assert AddAll([], [t]) == AddAll([t], []);
  }

  /** The keys recorded for one copied span. */
  function SpanKeys<K>(span: TextSpan, findNode: TextSpan -> nat,
                       getOperation: nat -> Option<Operation>, symbolKey: Symbol -> K): seq<K>
  {
    Map(UsedSymbols(getOperation(findNode(span))), symbolKey)
  }

  /** The keys recorded for each copied span, as a function of the span. */
  function KeysOfSpan<K>(findNode: TextSpan -> nat, getOperation: nat -> Option<Operation>,
                         symbolKey: Symbol -> K): TextSpan -> seq<K>
  {
    (span: TextSpan) => SpanKeys(span, findNode, getOperation, symbolKey)
  }

  /** The cache entry for a selection: the keys of each node's used symbols, concatenated in
      the order of the copied spans. */
  function SelectionKeys<K>(spans: seq<TextSpan>, findNode: TextSpan -> nat,
                            getOperation: nat -> Option<Operation>, symbolKey: Symbol -> K): seq<K>
  {
    FlatMap(spans, KeysOfSpan(findNode, getOperation, symbolKey))
  }

  /** Copying spans in two batches gives the concatenation of the two entries. */
  lemma SelectionKeysAppend<K>(a: seq<TextSpan>, b: seq<TextSpan>, findNode: TextSpan -> nat,
                               getOperation: nat -> Option<Operation>, symbolKey: Symbol -> K)
    ensures SelectionKeys(a + b, findNode, getOperation, symbolKey)
         == SelectionKeys(a, findNode, getOperation, symbolKey) + SelectionKeys(b, findNode, getOperation, symbolKey)
  {
    FlatMapAppend(a, b, KeysOfSpan(findNode, getOperation, symbolKey));
  }

  /** The operation visitor with the set of used symbols it fills. */
  class Visitor {
    var usedSymbols: seq<Symbol>

    constructor()
      ensures usedSymbols == []
    {
      usedSymbols := [];
    }

    method AddIfNotNull(symbol: Option<Symbol>)
      modifies this
      ensures usedSymbols == AddAll(old(usedSymbols), if symbol.Some? then [symbol.value] else [])
    {
      if symbol.Some? && symbol.value !in usedSymbols {
        usedSymbols := usedSymbols + [symbol.value];
      }
    }

    /** `Visit`: a `null` operation is ignored. */
    method Visit(op: Option<Operation>)
      modifies this
      ensures usedSymbols == AddAll(old(usedSymbols), if op.Some? then Collected(op.value) else [])
    {
      if op.Some? {
        VisitOperation(op.value);
      }
    }

    /** `Visit` as written: the operation is dispatched to its override, which records the
        operation's own symbol; no child is visited. */
    method VisitAsWritten(op: Option<Operation>)
      modifies this
      ensures usedSymbols == AddAll(old(usedSymbols), if op.Some? then VisitedAsWritten(op.value) else [])
    {
      if op.Some? {
        AddIfNotNull(Recorded(op.value));
      }
    }

    /** The corrected visit, as an `OperationWalker` performs it: the children are visited
        first, then the three overridden visits record their symbol. */
    method VisitOperation(op: Operation)
      modifies this
      ensures usedSymbols == AddAll(old(usedSymbols), Collected(op))
      decreases op
    {
      ghost var start := usedSymbols;
      var i := 0;
      while i < |op.children|
        invariant i <= |op.children|
        invariant usedSymbols == AddAll(start, CollectedFromChildren(op, i))
      {
        ghost var done := CollectedFromChildren(op, i);
        VisitOperation(op.children[i]);
        AddAllAppend(start, done, Collected(op.children[i]));
        assert CollectedFromChildren(op, i + 1) == done + Collected(op.children[i]);
        i := i + 1;
      }
      ghost var own := if Recorded(op).Some? then [Recorded(op).value] else [];
      AddAllAppend(start, CollectedFromChildren(op, |op.children|), own);
      AddIfNotNull(Recorded(op));
    }
  }

  /** `GetSymbolKeys` with the corrected visitor: the keys of the symbols a node's operation
      tree uses, each symbol once. */
  method GetSymbolKeys<K>(node: nat, getOperation: nat -> Option<Operation>, symbolKey: Symbol -> K)
    returns (keys: seq<K>)
    ensures keys == Map(UsedSymbols(getOperation(node)), symbolKey)
  {
    var visitor := new Visitor();
    visitor.Visit(getOperation(node));
    keys := Map(visitor.usedSymbols, symbolKey);
  }

  /** `GetSymbolKeys` as written: the keys of at most the root operation's symbol. */
  method GetSymbolKeysAsWritten<K>(node: nat, getOperation: nat -> Option<Operation>, symbolKey: Symbol -> K)
    returns (keys: seq<K>)
    ensures keys == Map(UsedSymbolsAsWritten(getOperation(node)), symbolKey)
  {
    var visitor := new Visitor();
    visitor.VisitAsWritten(getOperation(node));
    keys := Map(visitor.usedSymbols, symbolKey);
  }

  class AddImportsCopyCacheService<K> {
    var cache: map<AddImportsCacheIdentifier, seq<K>>

    constructor()
      ensures cache == map[]
    {
      cache := map[];
    }

    /** Records the keys for the copied spans under a new identifier for the document and
        returns that identifier; an existing entry under the same identifier is replaced. */
    method AddSelectionToCache(document: Document, textSpans: seq<TextSpan>, newGuid: nat,
                               findNode: TextSpan -> nat, getOperation: nat -> Option<Operation>,
                               symbolKey: Symbol -> K)
      returns (identifier: AddImportsCacheIdentifier)
      modifies this
      ensures identifier == NewIdentifier(document, newGuid)
      ensures cache == old(cache)[identifier := SelectionKeys(textSpans, findNode, getOperation, symbolKey)]
    {
      identifier := NewIdentifier(document, newGuid);
      var builder: seq<K> := [];
      var i := 0;
      while i < |textSpans|
        invariant i <= |textSpans|
        invariant builder == SelectionKeys(textSpans[..i], findNode, getOperation, symbolKey)
        invariant cache == old(cache)
      {
        var keys := GetSymbolKeys(findNode(textSpans[i]), getOperation, symbolKey);
        assert textSpans[..i + 1] == textSpans[..i] + [textSpans[i]];
        FlatMapSnoc(textSpans[..i], textSpans[i], KeysOfSpan(findNode, getOperation, symbolKey));
        builder := builder + keys;
        i := i + 1;
      }
      assert textSpans[..|textSpans|] == textSpans;
      cache := cache[identifier := builder];
    }

    /** `GetDataAsync`: the entry, or an empty array for an identifier never cached. */
    function GetData(identifier: AddImportsCacheIdentifier): (r: seq<K>)
      reads this
      ensures identifier !in cache ==> r == []
      ensures identifier in cache ==> r == cache[identifier]
    {
      if identifier in cache then cache[identifier] else []
    }
  }
}
