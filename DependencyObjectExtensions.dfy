/** The nearest-ancestor search over the WPF visual tree. The tree is given by which objects
    are visuals and by `VisualTreeHelper.GetParent` of each visual; the type test `parent is T`
    is a predicate on objects. */
module DependencyObjectExtensions {
  import opened Common

  /** The visual tree as the search sees it. `height` is a witness that parent chains are
      finite: a visual's parent is lower than the visual. */
  datatype VisualTree<!O(!new)> = VisualTree(isVisual: O -> bool, visualParent: O -> Option<O>, height: O -> nat) {

    /** Every parent chain is finite and has no cycle. */
    ghost predicate Acyclic()
    {
      forall o :: isVisual(o) && visualParent(o).Some? ==> height(visualParent(o).value) < height(o)
    }

    /** `TryGetParent`: no parent for an object that is not a visual, else its visual parent. */
    function TryGetParent(obj: O): Option<O>
    {
      if isVisual(obj) then visualParent(obj) else None
    }

    /** The strict ancestors of `obj`, nearest first, following `TryGetParent` to its end. */
    function Ancestors(obj: O): (r: seq<O>)
      requires Acyclic()
      ensures forall i :: 0 <= i < |r| ==> height(r[i]) < height(obj)
      ensures r == [] <==> TryGetParent(obj).None?
      ensures r != [] ==> r[0] == TryGetParent(obj).value
      decreases height(obj)
    {
      match TryGetParent(obj)
      case None => []
      case Some(parent) => [parent] + Ancestors(parent)
    }

    /** `GetParentOfType`: the parent if it has the type, none if there is no parent, and
        otherwise the search from the parent. */
    function GetParentOfType(element: O, isOfType: O -> bool): (r: Option<O>)
      requires Acyclic()
      ensures r.Some? ==> isOfType(r.value) && r.value in Ancestors(element)
      ensures r.None? ==> forall i :: 0 <= i < |Ancestors(element)| ==> !isOfType(Ancestors(element)[i])
      decreases height(element)
    {
      var parent := TryGetParent(element);
      if parent.Some? && isOfType(parent.value) then parent
      else if parent.None? then None
      else GetParentOfType(parent.value, isOfType)
    }
  }

  /** The search returns the nearest strict ancestor having the type, or none when the chain
      of parents ends without one. */
  lemma {:induction false} GetParentOfTypeIsNearestAncestor<O(!new)>(tree: VisualTree<O>, element: O, isOfType: O -> bool)
    requires tree.Acyclic()
    ensures tree.GetParentOfType(element, isOfType) == FirstWhere(tree.Ancestors(element), isOfType)
    decreases tree.height(element)
  {
    var parent := tree.TryGetParent(element);
    if parent.Some? && !isOfType(parent.value) {
      GetParentOfTypeIsNearestAncestor(tree, parent.value, isOfType);
      var a := tree.Ancestors(element);
      assert a[1..] == tree.Ancestors(parent.value);
    }
  }

  /** The element itself is never the answer, even when it has the type: every candidate is
      higher up the tree than the element. */
  lemma GetParentOfTypeIsStrictAncestor<O(!new)>(tree: VisualTree<O>, element: O, isOfType: O -> bool)
    requires tree.Acyclic()
    ensures var r := tree.GetParentOfType(element, isOfType);
            r.Some? ==> r.value != element && isOfType(r.value) && r.value in tree.Ancestors(element)
  {
    GetParentOfTypeIsNearestAncestor(tree, element, isOfType);
  }

  /** An object that is not a visual has no parent, so nothing is found above it. */
  lemma NonVisualHasNoParentOfType<O(!new)>(tree: VisualTree<O>, element: O, isOfType: O -> bool)
    requires tree.Acyclic() && !tree.isVisual(element)
    ensures tree.Ancestors(element) == [] && tree.GetParentOfType(element, isOfType) == None
  {
  }
}
