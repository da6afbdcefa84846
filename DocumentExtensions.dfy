/** Helpers that run a computation on a document and on the documents linked to it (the
    same file in other projects). Linked documents are given already resolved, in the order
    `GetLinkedDocumentIds` lists them; the item computation, the context checker and the
    naming-rule tests are parameters. */
module DocumentExtensions {
  import opened Common

  // ---------------------------------------------------------------------------------------
  // GetUnionItemsFromDocumentAndLinkedDocumentsAsync

  /** `NullToEmpty`: a default (null) array counts as empty. */
  function NullToEmpty<T>(values: Option<seq<T>>): seq<T>
  {
    if values.Some? then values.value else []
  }

  /** `set` already holds an item equivalent to `x`. */
  predicate HasEquivalent<T>(set_: seq<T>, x: T, comparer: (T, T) -> bool)
  {
    exists i :: 0 <= i < |set_| && comparer(set_[i], x)
  }

  /** `HashSet<T>(comparer).AddRange(xs)`: each item is added unless an equivalent one is
      already there; the set's enumeration order is insertion order. */
  function AddRange<T>(set_: seq<T>, xs: seq<T>, comparer: (T, T) -> bool): seq<T>
    decreases |xs|
  {
    if xs == [] then set_
    else AddRange(if HasEquivalent(set_, xs[0], comparer) then set_ else set_ + [xs[0]], xs[1..], comparer)
  }

  /** Every item the document or a linked document produces, in the order produced. */
  function AllItems<D, T>(document: D, linked: seq<D>, getItems: D -> Option<seq<T>>): seq<T>
  {
    if linked == [] then NullToEmpty(getItems(document))
    else AllItems(document, linked[..|linked| - 1], getItems) + NullToEmpty(getItems(linked[|linked| - 1]))
  }

  lemma {:induction false} AddRangeAppend<T>(set_: seq<T>, xs: seq<T>, ys: seq<T>, comparer: (T, T) -> bool)
    ensures AddRange(set_, xs + ys, comparer) == AddRange(AddRange(set_, xs, comparer), ys, comparer)
    decreases |xs|
  {
    if xs == [] {
      assert xs + ys == ys;
    } else {
      assert (xs + ys)[1..] == xs[1..] + ys;
      AddRangeAppend(if HasEquivalent(set_, xs[0], comparer) then set_ else set_ + [xs[0]], xs[1..], ys, comparer);
    }
  }

  /** A reflexive comparer: each item added has an equivalent in the set, no item enters the
      set when an equivalent one is there, and only added items enter it. */
  lemma {:induction false} AddRangeIsUnion<T>(set_: seq<T>, xs: seq<T>, comparer: (T, T) -> bool)
    requires forall x :: comparer(x, x)
    ensures var r := AddRange(set_, xs, comparer);
            && |set_| <= |r| && r[..|set_|] == set_
            && (forall i :: 0 <= i < |xs| ==> HasEquivalent(r, xs[i], comparer))
            && (forall i :: 0 <= i < |set_| ==> HasEquivalent(r, set_[i], comparer))
            && (forall j :: |set_| <= j < |r| ==> r[j] in xs && !HasEquivalent(r[..j], r[j], comparer))
    decreases |xs|
  {
    var r := AddRange(set_, xs, comparer);
    if xs == [] {
      forall i | 0 <= i < |set_| ensures HasEquivalent(r, set_[i], comparer) {
        assert comparer(r[i], set_[i]);
      }
    } else {
      var next := if HasEquivalent(set_, xs[0], comparer) then set_ else set_ + [xs[0]];
      AddRangeIsUnion(next, xs[1..], comparer);
      assert r == AddRange(next, xs[1..], comparer);
      assert r[..|set_|] == next[..|set_|];
      forall i | 0 <= i < |xs| ensures HasEquivalent(r, xs[i], comparer) {
        if i == 0 {
          if HasEquivalent(set_, xs[0], comparer) {
            var k :| 0 <= k < |set_| && comparer(set_[k], xs[0]);
            assert r[k] == set_[k];
          } else {
            assert HasEquivalent(r, next[|set_|], comparer);
          }
        } else {
          assert xs[i] == xs[1..][i - 1];
        }
      }
      forall i | 0 <= i < |set_| ensures HasEquivalent(r, set_[i], comparer) {
        assert set_[i] == next[i];
      }
      forall j | |set_| <= j < |r| ensures r[j] in xs && !HasEquivalent(r[..j], r[j], comparer) {
        if j >= |next| {
          assert r[j] in xs[1..];
        } else {
          assert r[..j] == set_;
        }
      }
    }
  }

  /** The union loop: the document's items, then each linked document's, added to a set
      with the given comparer. */
  method GetUnionItems<D, T>(document: D, linked: seq<D>, comparer: (T, T) -> bool,
                             getItemsWorker: D -> Option<seq<T>>)
    returns (items: seq<T>)
    ensures items == AddRange([], AllItems(document, linked, getItemsWorker), comparer)
  {
    var totalItems: seq<T> := [];
    var values := getItemsWorker(document);
    totalItems := AddRange(totalItems, NullToEmpty(values), comparer);
    for i := 0 to |linked|
      invariant totalItems == AddRange([], AllItems(document, linked[..i], getItemsWorker), comparer)
    {
      values := getItemsWorker(linked[i]);
      assert linked[..i + 1][..i] == linked[..i];
      AddRangeAppend([], AllItems(document, linked[..i], getItemsWorker), NullToEmpty(values), comparer);
      totalItems := AddRange(totalItems, NullToEmpty(values), comparer);
    }
    assert linked[..|linked|] == linked;
    items := totalItems;
  }

  /** For a reflexive and symmetric comparer, the union holds an equivalent of every item of
      the document and of each linked document, holds no two equivalent items, and holds
      only items some document produced. */
  lemma UnionIsDuplicateFree<D, T>(document: D, linked: seq<D>, comparer: (T, T) -> bool,
                                   getItemsWorker: D -> Option<seq<T>>)
    requires forall x :: comparer(x, x)
    requires forall x, y :: comparer(x, y) == comparer(y, x)
    ensures var all := AllItems(document, linked, getItemsWorker);
            var r := AddRange([], all, comparer);
            && (forall i :: 0 <= i < |all| ==> HasEquivalent(r, all[i], comparer))
            && (forall i, j :: 0 <= i < j < |r| ==> !comparer(r[i], r[j]))
            && (forall j :: 0 <= j < |r| ==> r[j] in all)
  {
    var all := AllItems(document, linked, getItemsWorker);
    var r := AddRange([], all, comparer);
    AddRangeIsUnion([], all, comparer);
    forall i, j | 0 <= i < j < |r| ensures !comparer(r[i], r[j]) {
      assert r[..j][i] == r[i];
    }
  }

  /** A linked document's items, null included, all reach the union. */
  lemma AllItemsHasEachDocument<D, T>(document: D, linked: seq<D>, getItemsWorker: D -> Option<seq<T>>, k: int, x: T)
    requires -1 <= k < |linked|
    requires x in NullToEmpty(getItemsWorker(if k == -1 then document else linked[k]))
    ensures x in AllItems(document, linked, getItemsWorker)
    decreases |linked|
  {
    if linked != [] && k < |linked| - 1 {
      AllItemsHasEachDocument(document, linked[..|linked| - 1], getItemsWorker, k, x);
    }
  }

  // ---------------------------------------------------------------------------------------
  // IsValidContextForDocumentOrLinkedDocumentsAsync

  /** Whether the checker accepts the document or one of its linked documents; `checked` is
      the sequence of documents the checker was called on, the document first and none after
      the first one accepted. */
  method IsValidContextForDocumentOrLinkedDocuments<D>(document: D, linked: seq<D>, contextChecker: D -> bool)
    returns (valid: bool, checked: seq<D>)
    ensures valid <==> contextChecker(document) || exists i :: 0 <= i < |linked| && contextChecker(linked[i])
    ensures 1 <= |checked| <= |linked| + 1 && checked == ([document] + linked)[..|checked|]
    ensures forall i :: 0 <= i < |checked| - 1 ==> !contextChecker(checked[i])
    ensures valid ==> contextChecker(checked[|checked| - 1])
    ensures !valid ==> checked == [document] + linked
  {
    checked := [document];
    if contextChecker(document) {
      return true, checked;
    }
    for i := 0 to |linked|
      invariant checked == [document] + linked[..i]
      invariant forall j :: 0 <= j < |checked| ==> !contextChecker(checked[j])
    {
      checked := checked + [linked[i]];
      assert linked[..i + 1] == linked[..i] + [linked[i]];
      if contextChecker(linked[i]) {
        assert checked == ([document] + linked)[..|checked|];
        return true, checked;
      }
    }
    assert linked[..|linked|] == linked;
    forall i | 0 <= i < |linked| ensures !contextChecker(linked[i]) {
      assert checked[i + 1] == linked[i];
    }
    return false, checked;
  }

  // ---------------------------------------------------------------------------------------
  // GetApplicableNamingRuleAsync (both overloads)

  /** A naming rule, reduced to the symbol specification it applies to and its style. */
  datatype NamingRule = NamingRule(symbolSpecification: nat, namingStyle: nat)

  /** `ExceptionUtilities.Unreachable()`, thrown when no rule applies. */
  datatype Exception = UnreachableException

  /** The loop both overloads share: the first rule, in order, whose specification applies. */
  method FirstApplicableRule(rules: seq<NamingRule>, appliesTo: nat -> bool)
    returns (r: Result<NamingRule, Exception>)
    ensures r.Ok? <==> exists i :: 0 <= i < |rules| && appliesTo(rules[i].symbolSpecification)
    ensures r.Ok? ==> exists i :: 0 <= i < |rules| && rules[i] == r.value
                                  && appliesTo(r.value.symbolSpecification)
                                  && forall j :: 0 <= j < i ==> !appliesTo(rules[j].symbolSpecification)
    ensures r.Err? ==> r.error == UnreachableException
  {
    for i := 0 to |rules|
      invariant forall j :: 0 <= j < i ==> !appliesTo(rules[j].symbolSpecification)
    {
      if appliesTo(rules[i].symbolSpecification) {
        return Ok(rules[i]);
      }
    }
    return Err(UnreachableException);
  }

  /** The overload for a symbol: `appliesToSymbol(spec, symbol)` is
      `SymbolSpecification.AppliesTo(symbol)`. */
  method GetApplicableNamingRuleForSymbol<S>(rules: seq<NamingRule>, symbol: S, appliesToSymbol: (nat, S) -> bool)
    returns (r: Result<NamingRule, Exception>)
    ensures r.Ok? <==> exists i :: 0 <= i < |rules| && appliesToSymbol(rules[i].symbolSpecification, symbol)
    ensures r.Ok? ==> exists i :: 0 <= i < |rules| && rules[i] == r.value
                                  && appliesToSymbol(r.value.symbolSpecification, symbol)
                                  && forall j :: 0 <= j < i ==> !appliesToSymbol(rules[j].symbolSpecification, symbol)
  {
    r := FirstApplicableRule(rules, (spec: nat) => appliesToSymbol(spec, symbol));
  }

  /** The overload for a symbol kind, modifiers and an optional accessibility. */
  method GetApplicableNamingRuleForKind<K, M, A>(rules: seq<NamingRule>, kind: K, modifiers: M, accessibility: Option<A>,
                                               appliesToKind: (nat, K, M, Option<A>) -> bool)
    returns (r: Result<NamingRule, Exception>)
    ensures r.Ok? <==> exists i :: 0 <= i < |rules| && appliesToKind(rules[i].symbolSpecification, kind, modifiers, accessibility)
    ensures r.Ok? ==> exists i :: 0 <= i < |rules| && rules[i] == r.value
                                  && appliesToKind(r.value.symbolSpecification, kind, modifiers, accessibility)
                                  && forall j :: 0 <= j < i ==> !appliesToKind(rules[j].symbolSpecification, kind, modifiers, accessibility)
  {
    r := FirstApplicableRule(rules, (spec: nat) => appliesToKind(spec, kind, modifiers, accessibility));
  }
}
