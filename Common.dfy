/** Shared vocabulary of the model: optional and failing results, the text span of the
    compiler platform, and the few sequence operations (LINQ Where, Distinct, a stable
    OrderBy, TakeWhile, Reverse) that several of the modelled files use. */
module Common {

  /** A value or the absence of one (C# `null`). */
  datatype Option<T> = None | Some(value: T)

  /** A computed value or the exception the source would throw instead. */
  datatype Result<T, E> = Ok(value: T) | Err(error: E)

  function Max(a: int, b: int): int { if a < b then b else a }
  function Min(a: int, b: int): int { if a < b then a else b }

  /** A span of text: `start` and `length`, both non-negative, ending before `End()`. */
  datatype TextSpan = TextSpan(start: nat, length: nat) {

    function End(): nat { start + length }

    predicate IsEmpty() { length == 0 }

    /** `position` lies in the half-open range [start, end). */
    predicate Contains(position: int) { start <= position < End() }

    /** The spans meet or overlap; spans that only touch at an endpoint count. */
    predicate IntersectsWith(other: TextSpan) { other.start <= End() && other.End() >= start }

    /** The spans share at least one position. */
    predicate OverlapsWith(other: TextSpan) { Max(start, other.start) < Min(End(), other.End()) }

    /** Orders by start, then by length; the sign is what matters to callers. */
    function CompareTo(other: TextSpan): int
    {
      if start != other.start then start - other.start else length - other.length
    }
  }

  function FromBounds(start: nat, end: nat): (r: TextSpan)
    requires start <= end
    ensures r.start == start && r.End() == end
  {
    TextSpan(start, end - start)
  }

  lemma IntersectsWithIsSymmetric(a: TextSpan, b: TextSpan)
    ensures a.IntersectsWith(b) <==> b.IntersectsWith(a)
  {
  }

  /** Overlap means exactly that some position lies in both spans, so an empty span overlaps
      nothing, and overlapping spans always intersect. */
  lemma OverlapsWithIffSharedPosition(a: TextSpan, b: TextSpan)
    ensures a.OverlapsWith(b) <==> exists p :: a.Contains(p) && b.Contains(p)
    ensures a.OverlapsWith(b) ==> a.IntersectsWith(b) && !a.IsEmpty() && !b.IsEmpty()
  {
    if a.OverlapsWith(b) {
      var p := Max(a.start, b.start);
      assert a.Contains(p) && b.Contains(p);
    }
  }

  /** Touching spans intersect but do not overlap. */
  lemma TouchingSpansIntersectWithoutOverlap(a: TextSpan, b: TextSpan)
    requires b.start == a.End()
    ensures a.IntersectsWith(b) && !a.OverlapsWith(b)
  {
  }

  lemma CompareToIsZeroIffEqual(a: TextSpan, b: TextSpan)
    ensures a.CompareTo(b) == 0 <==> a == b
    ensures a.CompareTo(b) == -b.CompareTo(a)
  {
  }

  // ---------------------------------------------------------------------------------------
  // Sequence operations

  /** LINQ `Select`. */
  function Map<A, B>(s: seq<A>, f: A -> B): (r: seq<B>)
    ensures |r| == |s|
    ensures forall i :: 0 <= i < |s| ==> r[i] == f(s[i])
  {
    if s == [] then [] else [f(s[0])] + Map(s[1..], f)
  }

  lemma MapAppend<A, B>(a: seq<A>, b: seq<A>, f: A -> B)
    ensures Map(a + b, f) == Map(a, f) + Map(b, f)
  {
  }

  /** `Select` over a prefix extended by the next element. */
  lemma MapOfLongerPrefix<A, B>(s: seq<A>, i: nat, f: A -> B)
    requires i < |s|
    ensures Map(s[..i + 1], f) == Map(s[..i], f) + [f(s[i])]
  {
    assert s[..i + 1] == s[..i] + [s[i]];
    MapAppend(s[..i], [s[i]], f);
  }

  /** LINQ `Where`: the elements satisfying `p`, in their original order. */
  function Filter<T(==)>(s: seq<T>, p: T -> bool): (r: seq<T>)
    ensures |r| <= |s|
    ensures forall x | x in r :: x in s && p(x)
    ensures forall x | x in s && p(x) :: x in r
  {
    if s == [] then [] else (if p(s[0]) then [s[0]] else []) + Filter(s[1..], p)
  }

  lemma FilterAppend<T>(a: seq<T>, b: seq<T>, p: T -> bool)
    ensures Filter(a + b, p) == Filter(a, p) + Filter(b, p)
  {
    if a == [] {
      assert a + b == b;
    } else {
      assert (a + b)[1..] == a[1..] + b;
      FilterAppend(a[1..], b, p);
    }
  }

  /** Every element `Where` keeps comes from its input and passes the test. */
  lemma FilterIndexed<T>(s: seq<T>, p: T -> bool)
    ensures forall i :: 0 <= i < |Filter(s, p)| ==> Filter(s, p)[i] in s && p(Filter(s, p)[i])
  {
    var r := Filter(s, p);
    forall i | 0 <= i < |r| ensures r[i] in s && p(r[i]) {
      assert r[i] in r;
    }
  }

  /** `Where` keeps nothing only when nothing passes. */
  lemma FilterEmpty<T>(s: seq<T>, p: T -> bool)
    requires Filter(s, p) == []
    ensures forall i :: 0 <= i < |s| ==> !p(s[i])
  {
    forall i | 0 <= i < |s| ensures !p(s[i]) {
      assert s[i] in s;
    }
  }

  /** What `Where` keeps is in its input and passes the test. */
  lemma FilterSubset<T>(s: seq<T>, p: T -> bool)
    ensures forall x :: x in Filter(s, p) ==> x in s && p(x)
  {
    var r := Filter(s, p);
    forall x | x in r ensures x in s && p(x) {
      var i :| 0 <= i < |r| && r[i] == x;
    }
  }

  /** The first element `Where` keeps is the first element that passes. */
  lemma {:induction false} FilterFirst<T>(s: seq<T>, p: T -> bool, k: nat)
    requires k < |s| && p(s[k]) && forall j :: 0 <= j < k ==> !p(s[j])
    ensures Filter(s, p) != [] && Filter(s, p)[0] == s[k]
  {
    if k > 0 {
      FilterFirst(s[1..], p, k - 1);
    }
  }

  /** `Where` over a sequence extended by one element. */
  lemma FilterSnoc<T>(s: seq<T>, x: T, p: T -> bool)
    ensures Filter(s + [x], p) == Filter(s, p) + (if p(x) then [x] else [])
  {
    FilterAppend(s, [x], p);
    assert Filter([x], p) == (if p(x) then [x] else []) + Filter([], p);
  }

  /** `Where` over a prefix extended by the next element. */
  lemma FilterOfLongerPrefix<T>(s: seq<T>, i: nat, p: T -> bool)
    requires i < |s|
    ensures Filter(s[..i + 1], p) == Filter(s[..i], p) + (if p(s[i]) then [s[i]] else [])
  {
    assert s[..i + 1] == s[..i] + [s[i]];
    FilterSnoc(s[..i], s[i], p);
  }

  /** `Where` keeps an order. */
  lemma {:induction false} FilterKeepsSorted<T>(s: seq<T>, p: T -> bool, key: T -> int)
    requires SortedBy(s, key)
    ensures SortedBy(Filter(s, p), key)
  {
    if s != [] {
      FilterKeepsSorted(s[1..], p, key);
      var rest := Filter(s[1..], p);
      var r := (if p(s[0]) then [s[0]] else []) + rest;
      forall i, j | 0 <= i < j < |r| ensures key(r[i]) <= key(r[j]) {
        if p(s[0]) && i == 0 {
          assert r[j] == rest[j - 1] && rest[j - 1] in s[1..];
        }
      }
    }
  }

  /** `Where` leaves no duplicates behind. */
  lemma {:induction false} FilterKeepsNoDuplicates<T>(s: seq<T>, p: T -> bool)
    requires NoDuplicates(s)
    ensures NoDuplicates(Filter(s, p))
  {
    if s != [] {
      var t := s[1..];
      assert NoDuplicates(t) by {
        forall i, j | 0 <= i < j < |t| ensures t[i] != t[j] {
          assert t[i] == s[i + 1] && t[j] == s[j + 1];
        }
      }
      FilterKeepsNoDuplicates(t, p);
      var rest := Filter(t, p);
      var r := (if p(s[0]) then [s[0]] else []) + rest;
      forall i, j | 0 <= i < j < |r| ensures r[i] != r[j] {
        if p(s[0]) && i == 0 {
          assert r[j] == rest[j - 1] && rest[j - 1] in t;
          var k :| 0 <= k < |t| && t[k] == r[j];
          assert t[k] == s[k + 1];
        }
      }
    }
  }

  /** A permutation of a sequence without duplicates has none either. */
  lemma PermutationKeepsNoDuplicates<T>(s: seq<T>, r: seq<T>)
    requires NoDuplicates(s) && multiset(r) == multiset(s)
    ensures NoDuplicates(r)
  {
    forall i, j | 0 <= i < j < |r| ensures r[i] != r[j] {
      if r[i] == r[j] {
        MultiplicityOfNoDuplicates(s, r[i]);
        MultiplicityAtLeastTwo(r, i, j);
      }
    }
  }

  lemma {:induction false} MultiplicityOfNoDuplicates<T>(s: seq<T>, x: T)
    requires NoDuplicates(s)
    ensures multiset(s)[x] <= 1
  {
    if s != [] {
      var t := s[1..];
      assert s == [s[0]] + t;
      assert NoDuplicates(t) by {
        forall i, j | 0 <= i < j < |t| ensures t[i] != t[j] {
          assert t[i] == s[i + 1] && t[j] == s[j + 1];
        }
      }
      MultiplicityOfNoDuplicates(t, x);
      if s[0] == x {
        assert x !in t by {
          forall k | 0 <= k < |t| ensures t[k] != x {
            assert t[k] == s[k + 1];
          }
        }
      }
    }
  }

  lemma MultiplicityAtLeastTwo<T>(r: seq<T>, i: nat, j: nat)
    requires i < j < |r| && r[i] == r[j]
    ensures multiset(r)[r[i]] >= 2
  {
    assert r == r[..i] + [r[i]] + r[i + 1..j] + [r[j]] + r[j + 1..];
  }

  lemma FilterAll<T>(s: seq<T>, p: T -> bool)
    requires forall x :: x in s ==> p(x)
    ensures Filter(s, p) == s
  {
  }

  /** No element occurs twice. */
  predicate NoDuplicates<T(==)>(s: seq<T>)
  {
    forall i, j :: 0 <= i < j < |s| ==> s[i] != s[j]
  }

  /** LINQ `Distinct`: each element once, at its first occurrence. */
  function Distinct<T(==)>(s: seq<T>): (r: seq<T>)
    ensures NoDuplicates(r)
    ensures forall x | x in r :: x in s
    ensures forall x | x in s :: x in r
    ensures |r| <= |s|
  {
    if s == [] then []
    else
      var d := Distinct(s[..|s| - 1]);
      if s[|s| - 1] in d then d else d + [s[|s| - 1]]
  }

  /** `Distinct` keeps exactly the elements of its input. */
  lemma DistinctHasTheSameElements<T>(s: seq<T>, x: T)
    ensures x in Distinct(s) <==> x in s
  {
    var d := Distinct(s);
    if x in d {
      var i :| 0 <= i < |d| && d[i] == x;
      assert d[i] in s;
    }
    if x in s {
      var i :| 0 <= i < |s| && s[i] == x;
      assert s[i] in d;
    }
  }

  /** A sequence of one repeated element has that element once. */
  lemma {:induction false} DistinctOfConstant<T>(s: seq<T>, c: T)
    requires s != [] && forall i :: 0 <= i < |s| ==> s[i] == c
    ensures Distinct(s) == [c]
  {
    if |s| > 1 {
      DistinctOfConstant(s[..|s| - 1], c);
    }
  }

  /** LINQ `Reverse`. */
  function Reverse<T>(s: seq<T>): (r: seq<T>)
    ensures |r| == |s|
    ensures forall i :: 0 <= i < |s| ==> r[i] == s[|s| - 1 - i]
  {
    if s == [] then [] else Reverse(s[1..]) + [s[0]]
  }

  /** LINQ `FirstOrDefault(p)`: the first element satisfying `p`, or none. */
  function FirstWhere<T>(s: seq<T>, p: T -> bool): (r: Option<T>)
    ensures r.None? <==> forall i :: 0 <= i < |s| ==> !p(s[i])
    ensures r.Some? ==> exists i :: 0 <= i < |s| && s[i] == r.value && p(s[i])
                                    && forall j :: 0 <= j < i ==> !p(s[j])
  {
    if s == [] then None
    else if p(s[0]) then Some(s[0])
    else
      var r := FirstWhere(s[1..], p);
      assert forall i :: 0 < i < |s| ==> s[i] == s[1..][i - 1];
      r
  }

  /** LINQ `TakeWhile`: the longest prefix whose elements all satisfy `p`. */
  function TakeWhile<T>(s: seq<T>, p: T -> bool): (r: seq<T>)
    ensures |r| <= |s| && r == s[..|r|]
    ensures forall i :: 0 <= i < |r| ==> p(r[i])
    ensures |r| < |s| ==> !p(s[|r|])
  {
    if s == [] || !p(s[0]) then [] else [s[0]] + TakeWhile(s[1..], p)
  }

  /** LINQ `SelectMany`: the sequences `f` gives for the elements of `s`, concatenated in
      order. */
  function FlatMap<X, Y>(s: seq<X>, f: X -> seq<Y>): seq<Y>
  {
    if s == [] then [] else FlatMap(s[..|s| - 1], f) + f(s[|s| - 1])
  }

  lemma FlatMapSnoc<X, Y>(s: seq<X>, x: X, f: X -> seq<Y>)
    ensures FlatMap(s + [x], f) == FlatMap(s, f) + f(x)
  {
    assert (s + [x])[..|s|] == s;
  }

  lemma {:induction false} FlatMapAppend<X, Y>(a: seq<X>, b: seq<X>, f: X -> seq<Y>)
    ensures FlatMap(a + b, f) == FlatMap(a, f) + FlatMap(b, f)
    decreases |b|
  {
    if b == [] {
      assert a + b == a;
    } else {
      var b0 := b[..|b| - 1];
      var x := b[|b| - 1];
      calc {
        FlatMap(a + b, f);
        { assert a + b == (a + b0) + [x]; }
        FlatMap((a + b0) + [x], f);
        { FlatMapSnoc(a + b0, x, f); }
        FlatMap(a + b0, f) + f(x);
        { FlatMapAppend(a, b0, f); }
        FlatMap(a, f) + FlatMap(b0, f) + f(x);
        { FlatMapSnoc(b0, x, f); assert b == b0 + [x]; }
        FlatMap(a, f) + FlatMap(b, f);
      }
    }
  }

  /** `s` is in ascending order of `key`. */
  predicate SortedBy<T>(s: seq<T>, key: T -> int)
  {
    forall i, j :: 0 <= i < j < |s| ==> key(s[i]) <= key(s[j])
  }

  /** The elements of `s` whose key is `k`, in order. */
  function KeyIs<T>(key: T -> int, k: int): T -> bool
  {
    (y: T) => key(y) == k
  }

  function WithKey<T(==)>(s: seq<T>, key: T -> int, k: int): seq<T>
  {
    Filter(s, KeyIs(key, k))
  }

  /** Inserts `x` before the first element whose key is not smaller than its own. */
  function InsertBy<T>(x: T, s: seq<T>, key: T -> int): (r: seq<T>)
    ensures |r| == |s| + 1
  {
    if s == [] then [x]
    else if key(x) <= key(s[0]) then [x] + s
    else [s[0]] + InsertBy(x, s[1..], key)
  }

  /** Inserting adds `x` and loses nothing. */
  lemma {:induction false} InsertByIsPermutation<T>(x: T, s: seq<T>, key: T -> int)
    ensures multiset(InsertBy(x, s, key)) == multiset(s) + multiset{x}
  {
    if s != [] && key(x) > key(s[0]) {
      var t := InsertBy(x, s[1..], key);
      InsertByIsPermutation(x, s[1..], key);
      calc {
        multiset(InsertBy(x, s, key));
        multiset([s[0]] + t);
        multiset([s[0]]) + multiset(t);
        multiset([s[0]]) + multiset(s[1..]) + multiset{x};
        { assert s == [s[0]] + s[1..]; }
        multiset(s) + multiset{x};
      }
    } else {
      assert InsertBy(x, s, key) == [x] + s;
    }
  }

  /** Inserting keeps a lower bound that `x` and every element of `s` respect. */
  lemma {:induction false} InsertByKeepsLowerBound<T>(x: T, s: seq<T>, key: T -> int, lo: int)
    requires key(x) >= lo && forall i :: 0 <= i < |s| ==> key(s[i]) >= lo
    ensures forall i :: 0 <= i < |InsertBy(x, s, key)| ==> key(InsertBy(x, s, key)[i]) >= lo
  {
    if s != [] && key(x) > key(s[0]) {
      InsertByKeepsLowerBound(x, s[1..], key, lo);
      var t := InsertBy(x, s[1..], key);
      assert forall i :: 0 < i < |[s[0]] + t| ==> ([s[0]] + t)[i] == t[i - 1];
    }
  }

  lemma {:induction false} InsertByKeepsSorted<T>(x: T, s: seq<T>, key: T -> int)
    requires SortedBy(s, key)
    ensures SortedBy(InsertBy(x, s, key), key)
  {
    if s != [] && key(x) > key(s[0]) {
      var t := InsertBy(x, s[1..], key);
      InsertByKeepsSorted(x, s[1..], key);
      InsertByKeepsLowerBound(x, s[1..], key, key(s[0]));
      var r := [s[0]] + t;
      forall i, j | 0 <= i < j < |r| ensures key(r[i]) <= key(r[j]) {
        assert r[j] == t[j - 1];
        if 0 < i {
          assert r[i] == t[i - 1];
        }
      }
    }
  }

  /** LINQ `OrderBy`: a stable sort by an integer key. */
  function StableSortBy<T>(s: seq<T>, key: T -> int): (r: seq<T>)
    ensures multiset(r) == multiset(s)
    ensures SortedBy(r, key)
  {
    if s == [] then []
    else
      assert s == [s[0]] + s[1..];
      var t := StableSortBy(s[1..], key);
      InsertByKeepsSorted(s[0], t, key);
      InsertByIsPermutation(s[0], t, key);
      InsertBy(s[0], t, key)
  }

  /** Sorting a sequence that is already in order changes nothing. */
  lemma {:induction false} StableSortByOfSorted<T>(s: seq<T>, key: T -> int)
    requires SortedBy(s, key)
    ensures StableSortBy(s, key) == s
  {
    if s != [] {
      StableSortByOfSorted(s[1..], key);
      assert s == [s[0]] + s[1..];
    }
  }

  /** `Where` keeps more than one element exactly when two positions pass the test. */
  lemma {:induction false} FilterKeepsTwo<T>(s: seq<T>, p: T -> bool)
    ensures |Filter(s, p)| > 1 <==> exists j, k :: 0 <= j < k < |s| && p(s[j]) && p(s[k])
  {
    if s != [] {
      FilterKeepsTwo(s[1..], p);
      var rest := Filter(s[1..], p);
      if |Filter(s, p)| > 1 && p(s[0]) {
        assert rest[0] in rest;
        var k :| 0 <= k < |s[1..]| && s[1..][k] == rest[0];
        assert p(s[0]) && p(s[k + 1]);
      }
      if exists j, k :: 0 <= j < k < |s| && p(s[j]) && p(s[k]) {
        var j, k :| 0 <= j < k < |s| && p(s[j]) && p(s[k]);
        if j == 0 {
          assert s[1..][k - 1] in s[1..];
        } else {
          assert p(s[1..][j - 1]) && p(s[1..][k - 1]);
        }
      }
    }
  }

  lemma FilterCons<T>(x: T, s: seq<T>, p: T -> bool)
    ensures Filter([x] + s, p) == (if p(x) then [x] else []) + Filter(s, p)
  {
    assert ([x] + s)[1..] == s;
  }

  lemma {:induction false} InsertByKeepsKeyClasses<T>(x: T, s: seq<T>, key: T -> int, k: int)
    ensures WithKey(InsertBy(x, s, key), key, k)
         == (if key(x) == k then [x] else []) + WithKey(s, key, k)
  {
    var p := KeyIs(key, k);
    if s == [] {
    } else if key(x) <= key(s[0]) {
      FilterCons(x, s, p);
    } else {
      var t := InsertBy(x, s[1..], key);
      var head := if p(s[0]) then [s[0]] else [];
      var mid := if p(x) then [x] else [];
      var rest := Filter(s[1..], p);
      calc {
        Filter(InsertBy(x, s, key), p);
        { assert InsertBy(x, s, key) == [s[0]] + t; }
        Filter([s[0]] + t, p);
        { FilterCons(s[0], t, p); }
        head + Filter(t, p);
        { InsertByKeepsKeyClasses(x, s[1..], key, k); }
        head + (mid + rest);
        { if p(s[0]) { assert mid == []; } else { assert head == []; } }
        mid + (head + rest);
        { assert s == [s[0]] + s[1..]; FilterCons(s[0], s[1..], p); }
        mid + Filter(s, p);
      }
    }
  }

  /** Stability: elements with equal keys keep their relative order. */
  lemma {:induction false} StableSortByIsStable<T>(s: seq<T>, key: T -> int, k: int)
    ensures WithKey(StableSortBy(s, key), key, k) == WithKey(s, key, k)
  {
    if s != [] {
      StableSortByIsStable(s[1..], key, k);
      InsertByKeepsKeyClasses(s[0], StableSortBy(s[1..], key), key, k);
    }
  }
}
