/** The syntax tree the analyzers and refactorings walk, reduced to what their rules look
    at: a node's kind, its span and full span, and its child nodes in source order. A node
    is identified by its `id`, which stands for the reference identity of a syntax node, so
    two nodes with the same text at different places differ.

    A node together with its ancestors is a *spine*: the node first, then its parent, its
    grandparent and so on; `Parent`, `FirstAncestorOrSelf` and `AncestorsAndSelf().OfType<T>()`
    are read off it. */
module Syntax {
  import opened Common

  /** The node kinds the modelled rules tell apart; every other kind is `OtherKind`. */
  datatype SyntaxKind =
    | CompilationUnit
    | NamespaceDeclaration
    | TypeDeclaration
    | LocalFunctionStatement
    | ExpressionStatement
    | OtherKind(code: nat)

  datatype Node = Node(id: nat, kind: SyntaxKind, span: TextSpan, fullSpan: TextSpan, children: seq<Node>)

  /** `spine[0]` is a node and each later element is the parent of the one before it. */
  predicate IsSpine(spine: seq<Node>)
  {
    |spine| > 0 && forall i :: 0 <= i < |spine| - 1 ==> spine[i] in spine[i + 1].children
  }

  /** `Parent`: null at the root. */
  function Parent(spine: seq<Node>): (r: Option<Node>)
    requires IsSpine(spine)
    ensures r.Some? <==> |spine| > 1
    ensures r.Some? ==> spine[0] in r.value.children
  {
    if |spine| > 1 then Some(spine[1]) else None
  }

  /** The suffix of a spine that starts at an ancestor is the spine of that ancestor. */
  lemma AncestorSpine(spine: seq<Node>, k: nat)
    requires IsSpine(spine) && k < |spine|
    ensures IsSpine(spine[k..])
  {
    forall i | 0 <= i < |spine[k..]| - 1 ensures spine[k..][i] in spine[k..][i + 1].children {
      assert spine[k..][i] == spine[k + i] && spine[k..][i + 1] == spine[k + i + 1];
    }
  }

  /** `FirstAncestorOrSelf(p)` as a position in the spine: the first node, from the node
      itself upwards, that satisfies `p`, or `|spine|` (null) when none does. */
  function FirstAncestorOrSelf(spine: seq<Node>, p: Node -> bool): (r: nat)
    ensures r <= |spine|
    ensures r < |spine| ==> p(spine[r])
    ensures forall i :: 0 <= i < r ==> !p(spine[i])
  {
    if spine == [] then 0
    else if p(spine[0]) then 0
    else
      var r := FirstAncestorOrSelf(spine[1..], p);
      assert forall i :: 1 <= i <= r ==> spine[i] == spine[1..][i - 1];
      1 + r
  }

  /** `FirstAncestorOrSelf(p)` as the node found, if any. */
  function AncestorOrSelfWhere(spine: seq<Node>, p: Node -> bool): (r: Option<Node>)
    ensures r.None? <==> forall i :: 0 <= i < |spine| ==> !p(spine[i])
    ensures r.Some? ==> p(r.value) && r.value in spine
  {
    var k := FirstAncestorOrSelf(spine, p);
    if k < |spine| then Some(spine[k]) else None
  }

  function IsOfKind(kind: SyntaxKind): Node -> bool
  {
    (n: Node) => n.kind == kind
  }

  /** `AncestorsAndSelf().OfType<T>().Count()`. */
  function CountOfKind(spine: seq<Node>, kind: SyntaxKind): (r: nat)
    ensures r <= |spine|
  {
    |Filter(spine, IsOfKind(kind))|
  }

  /** The count over a spine is the count over its first `k` nodes plus the count over the
      spine of the `k`-th ancestor. */
  lemma CountOfKindSplit(spine: seq<Node>, kind: SyntaxKind, k: nat)
    requires k <= |spine|
    ensures CountOfKind(spine, kind) == CountOfKind(spine[..k], kind) + CountOfKind(spine[k..], kind)
  {
    assert spine == spine[..k] + spine[k..];
    FilterAppend(spine[..k], spine[k..], IsOfKind(kind));
  }

  /** A node of the kind counts at least once. */
  lemma CountOfKindAtLeastOne(spine: seq<Node>, kind: SyntaxKind)
    requires |spine| > 0 && spine[0].kind == kind
    ensures CountOfKind(spine, kind) >= 1
  {
    assert spine[0] in Filter(spine, IsOfKind(kind));
  }

  // ---------------------------------------------------------------------------------------
  // DescendantNodes

  /** `DescendantNodes(descendIntoChildren)`, in document order: each child, then the
      descendants of that child. The children of a node are visited only when
      `descend` accepts that node, the starting node included. */
  function DescendantNodes(n: Node, descend: Node -> bool): seq<Node>
    decreases n, 1
  {
    if descend(n) then DescendantsOfChildren(n, descend, |n.children|) else []
  }

  /** The part of `DescendantNodes(n, descend)` that comes from the first `k` children. */
  function DescendantsOfChildren(n: Node, descend: Node -> bool, k: nat): seq<Node>
    requires k <= |n.children|
    decreases n, 0, k
  {
    if k == 0 then []
    else DescendantsOfChildren(n, descend, k - 1) + ([n.children[k - 1]] + DescendantNodes(n.children[k - 1], descend))
  }

  /** `x` hangs below `n` on a path whose every node above `x` is accepted by `descend`. */
  predicate Reaches(n: Node, x: Node, descend: Node -> bool)
    decreases n
  {
    descend(n) && exists i :: 0 <= i < |n.children| && (n.children[i] == x || Reaches(n.children[i], x, descend))
  }

  /** The descendants are exactly the nodes reachable through accepted nodes. */
  lemma {:induction false} DescendantNodesAreReachable(n: Node, x: Node, descend: Node -> bool)
    ensures x in DescendantNodes(n, descend) <==> Reaches(n, x, descend)
    decreases n, 1
  {
    if descend(n) {
      DescendantsOfChildrenReachable(n, x, descend, |n.children|);
    }
  }

  lemma {:induction false} DescendantsOfChildrenReachable(n: Node, x: Node, descend: Node -> bool, k: nat)
    requires k <= |n.children|
    ensures x in DescendantsOfChildren(n, descend, k)
        <==> exists i :: 0 <= i < k && (n.children[i] == x || Reaches(n.children[i], x, descend))
    decreases n, 0, k
  {
    if k > 0 {
      var c := n.children[k - 1];
      DescendantsOfChildrenReachable(n, x, descend, k - 1);
      DescendantNodesAreReachable(c, x, descend);
      if x in DescendantsOfChildren(n, descend, k) && !(x in DescendantsOfChildren(n, descend, k - 1)) {
        assert c == x || Reaches(c, x, descend);
      }
    }
  }

  function Anything(): Node -> bool
  {
    (n: Node) => true
  }

  /** `DescendantNodes().OfType<T>().Any()`: some node strictly below `n` has the kind. */
  predicate ContainsKind(n: Node, kind: SyntaxKind)
  {
    exists i :: 0 <= i < |DescendantNodes(n, Anything())| && DescendantNodes(n, Anything())[i].kind == kind
  }

  /** A child of the kind, or a child containing one, is found. */
  lemma ContainsKindOfChild(n: Node, i: nat, kind: SyntaxKind)
    requires i < |n.children|
    requires n.children[i].kind == kind || ContainsKind(n.children[i], kind)
    ensures ContainsKind(n, kind)
  {
    var c := n.children[i];
    var x: Node;
    if c.kind == kind {
      x := c;
    } else {
      var j :| 0 <= j < |DescendantNodes(c, Anything())| && DescendantNodes(c, Anything())[j].kind == kind;
      x := DescendantNodes(c, Anything())[j];
      DescendantNodesAreReachable(c, x, Anything());
    }
    DescendantNodesAreReachable(n, x, Anything());
    var d := DescendantNodes(n, Anything());
    var k :| 0 <= k < |d| && d[k] == x;
  }
}
