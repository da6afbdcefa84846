/** The analyzer that asks for local functions to come last in their block: a local function
    is reported when one of the nodes after it, among its parent's child nodes, is an
    expression statement. Later local functions and statements of other kinds are passed
    over. The analysis context is replaced by the node's spine and the reported diagnostic
    is returned. */
module RequireLocalFunctionAtEndOfBlockAnalyzer {
  import opened Common
  import opened Syntax

  datatype ReportDiagnostic = Info | Warning | Error | Hidden

  /** The diagnostic `IDE` reports: where it is and how severe. */
  datatype Diagnostic = Diagnostic(location: TextSpan, severity: ReportDiagnostic)

  /** `ImmutableArray.IndexOf`: the first position of `node`, or -1. */
  function IndexOf(siblings: seq<Node>, node: Node): (r: int)
    ensures -1 <= r < |siblings|
    ensures r == -1 <==> node !in siblings
    ensures r >= 0 ==> siblings[r] == node && forall j :: 0 <= j < r ==> siblings[j] != node
  {
    if siblings == [] then -1
    else if siblings[0] == node then 0
    else
      var r := IndexOf(siblings[1..], node);
      assert forall j :: 1 <= j < |siblings| ==> siblings[j] == siblings[1..][j - 1];
      if r == -1 then -1 else r + 1
  }

  /** Some sibling after position `location` is an expression statement. */
  predicate FollowedByExpressionStatement(siblings: seq<Node>, location: int)
  {
    exists i :: 0 <= i < |siblings| && location < i && siblings[i].kind == ExpressionStatement
  }

  /** The callback registered for `LocalFunctionStatement` nodes: no diagnostic at the root;
      otherwise one diagnostic, of severity Info at the local function, exactly when an
      expression statement follows it among its parent's children. */
  method AnalyzeLocalFunction(localFunction: seq<Node>) returns (diagnostic: Option<Diagnostic>)
    requires IsSpine(localFunction) && localFunction[0].kind == LocalFunctionStatement
    ensures |localFunction| == 1 ==> diagnostic.None?
    ensures |localFunction| > 1 ==>
              var siblings := localFunction[1].children;
              (diagnostic.Some? <==> FollowedByExpressionStatement(siblings, IndexOf(siblings, localFunction[0])))
    ensures diagnostic.Some? ==> diagnostic.value == Diagnostic(localFunction[0].span, Info)
  {
    var parent := Parent(localFunction);
    if parent.None? {
      return None;
    }
    var siblings := parent.value.children;
    var location := IndexOf(siblings, localFunction[0]);
    var isFollowedByStatements := false;
    var i := location + 1;
    while i < |siblings|
      invariant location + 1 <= i <= |siblings|
      invariant !isFollowedByStatements
      invariant forall j :: 0 <= j < i && location < j ==> siblings[j].kind != ExpressionStatement
      decreases |siblings| - i
    {
      var sibling := siblings[i];
      if sibling.kind == LocalFunctionStatement {
        i := i + 1;
        continue;
      }
      if sibling.kind == ExpressionStatement {
        isFollowedByStatements := true;
        break;
      }
      i := i + 1;
    }
    if isFollowedByStatements {
      return Some(Diagnostic(localFunction[0].span, Info));
    }
    return None;
  }

  /** The syntax-node action: only `LocalFunctionStatement` nodes reach the callback. */
  method AnalyzeNode(node: seq<Node>) returns (diagnostic: Option<Diagnostic>)
    requires IsSpine(node)
    ensures node[0].kind != LocalFunctionStatement ==> diagnostic.None?
    ensures diagnostic.Some? ==>
              |node| > 1 && diagnostic.value == Diagnostic(node[0].span, Info)
              && FollowedByExpressionStatement(node[1].children, IndexOf(node[1].children, node[0]))
  {
    if node[0].kind != LocalFunctionStatement {
      return None;
    }
    diagnostic := AnalyzeLocalFunction(node);
  }

  /** The local function is one of its parent's children, so the scan starts right after
      it, and the result depends only on the siblings after it: those before it are never
      inspected. */
  lemma {:induction false} OnlyLaterSiblingsCount(before: seq<Node>, localFunction: Node, after: seq<Node>)
    requires localFunction !in before
    ensures var siblings := before + [localFunction] + after;
            IndexOf(siblings, localFunction) == |before|
            && (FollowedByExpressionStatement(siblings, |before|)
                <==> exists i :: 0 <= i < |after| && after[i].kind == ExpressionStatement)
  {
    var siblings := before + [localFunction] + after;
    assert siblings[|before|] == localFunction;
    assert forall i :: 0 <= i < |after| ==> siblings[|before| + 1 + i] == after[i];
    if FollowedByExpressionStatement(siblings, |before|) {
      var i :| 0 <= i < |siblings| && |before| < i && siblings[i].kind == ExpressionStatement;
      assert after[i - |before| - 1] == siblings[i];
    }
  }

  /** A sibling that is not an expression statement, such as another local function, a
      declaration or a `return`, neither causes a diagnostic nor hides a later expression
      statement. */
  lemma NonExpressionSiblingIsPassedOver(before: seq<Node>, other: Node, after: seq<Node>, location: int)
    requires -1 <= location < |before|
    requires other.kind != ExpressionStatement
    ensures FollowedByExpressionStatement(before + [other] + after, location)
        <==> FollowedByExpressionStatement(before + after, location)
  {
    var with := before + [other] + after;
    var without := before + after;
    if FollowedByExpressionStatement(with, location) {
      var i :| 0 <= i < |with| && location < i && with[i].kind == ExpressionStatement;
      if i < |before| {
        assert without[i] == with[i];
      } else {
        assert without[i - 1] == with[i];
      }
    }
    if FollowedByExpressionStatement(without, location) {
      var i :| 0 <= i < |without| && location < i && without[i].kind == ExpressionStatement;
      if i < |before| {
        assert with[i] == without[i];
      } else {
        assert with[i + 1] == without[i];
      }
    }
  }

  /** The block `{ void L() { } int x = 0; return x; }`: a declaration and a `return`
      follow the local function, so nothing is reported. */
  lemma DeclarationAndReturnAreNotReported(l: Node, declaration: Node, ret: Node)
    requires l.kind == LocalFunctionStatement && declaration.kind == OtherKind(0) && ret.kind == OtherKind(1)
    ensures !FollowedByExpressionStatement([l, declaration, ret], 0)
  {
  }
}
