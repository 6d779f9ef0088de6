/// Go's `sort.SliceStable`, stated by its result. The library rearranges a
/// slice in place; the model gives the arrangement it produces as a stable
/// insertion sort and proves the three things callers rely on: the result
/// is a permutation of the input, it is ordered by `less`, and elements
/// that `less` does not tell apart keep their original relative order.
module StableSort {

  /// `less` is a strict weak order: it is asymmetric, and "not less than"
  /// is transitive. Sorting promises nothing for other comparators.
  ghost predicate StrictWeakOrder<T(!new)>(less: (T, T) -> bool) {
    && (forall a, b :: less(a, b) ==> !less(b, a))
    && (forall a, b, c :: !less(a, b) && !less(b, c) ==> !less(a, c))
  }

  /// No element is `less` than an element before it.
  ghost predicate Sorted<T>(s: seq<T>, less: (T, T) -> bool) {
    forall i, j :: 0 <= i < j < |s| ==> !less(s[j], s[i])
  }

  /// Neither element is `less` than the other.
  predicate Equivalent<T>(a: T, b: T, less: (T, T) -> bool) {
    !less(a, b) && !less(b, a)
  }

  /// The elements of `s` equivalent to `z`, in the order they have in `s`.
  function ClassOf<T>(s: seq<T>, z: T, less: (T, T) -> bool): (r: seq<T>)
    ensures |r| <= |s|
  {
    if s == [] then []
    else ClassOf(s[..|s| - 1], z, less) + (if Equivalent(s[|s| - 1], z, less) then [s[|s| - 1]] else [])
  }

  /// Insert `x` into `sorted`, after every element it is not `less` than.
  function Insert<T>(sorted: seq<T>, x: T, less: (T, T) -> bool): (r: seq<T>)
    ensures multiset(r) == multiset(sorted) + multiset{x}
  {
    if sorted == [] then [x]
    else if less(x, sorted[|sorted| - 1]) then
      assert sorted == sorted[..|sorted| - 1] + [sorted[|sorted| - 1]];
      Insert(sorted[..|sorted| - 1], x, less) + [sorted[|sorted| - 1]]
    else sorted + [x]
  }

  /// sort.SliceStable(s, less): a permutation of `s`.
  function Sort<T>(s: seq<T>, less: (T, T) -> bool): (r: seq<T>)
    ensures multiset(r) == multiset(s)
  {
    if s == [] then []
    else
      assert s == s[..|s| - 1] + [s[|s| - 1]];
      Insert(Sort(s[..|s| - 1], less), s[|s| - 1], less)
  }

  lemma {:induction false} InsertSorted<T(!new)>(sorted: seq<T>, x: T, less: (T, T) -> bool)
    requires StrictWeakOrder(less) && Sorted(sorted, less)
    ensures Sorted(Insert(sorted, x, less), less)
  {
    if sorted != [] {
      var init, last := sorted[..|sorted| - 1], sorted[|sorted| - 1];
      var r := Insert(sorted, x, less);
      if less(x, last) {
        InsertSorted(init, x, less);
        var r' := Insert(init, x, less);
        assert r == r' + [last];
        forall i | 0 <= i < |r'| ensures !less(last, r'[i]) {
          assert r'[i] in multiset(r');
          if r'[i] != x {
            assert r'[i] in multiset(init);
            var k :| 0 <= k < |init| && init[k] == r'[i];
            assert sorted[k] == r'[i];
          }
        }
      } else {
        forall i | 0 <= i < |sorted| ensures !less(x, sorted[i]) {
          if i < |sorted| - 1 {
            assert !less(last, sorted[i]);
          }
        }
      }
    }
  }

  /// The result of `Sort` is ordered by `less`.
  lemma {:induction false} SortSorted<T(!new)>(s: seq<T>, less: (T, T) -> bool)
    requires StrictWeakOrder(less)
    ensures Sorted(Sort(s, less), less)
  {
    if s != [] {
      SortSorted(s[..|s| - 1], less);
      InsertSorted(Sort(s[..|s| - 1], less), s[|s| - 1], less);
    }
  }

  /// An element that `x` is `less` than is never in the same class as `x`.
  lemma LessSeparatesClasses<T(!new)>(x: T, y: T, z: T, less: (T, T) -> bool)
    requires StrictWeakOrder(less) && less(x, y)
    ensures !(Equivalent(x, z, less) && Equivalent(y, z, less))
  {
  }

  lemma {:induction false} ClassOfSnoc<T>(s: seq<T>, y: T, z: T, less: (T, T) -> bool)
    ensures ClassOf(s + [y], z, less) == ClassOf(s, z, less) + (if Equivalent(y, z, less) then [y] else [])
  {
    assert (s + [y])[..|s|] == s;
  }

  lemma {:induction false} InsertClass<T(!new)>(sorted: seq<T>, x: T, z: T, less: (T, T) -> bool)
    requires StrictWeakOrder(less)
    ensures ClassOf(Insert(sorted, x, less), z, less)
         == ClassOf(sorted, z, less) + (if Equivalent(x, z, less) then [x] else [])
  {
    if sorted == [] {
      ClassOfSnoc([], x, z, less);
      assert [] + [x] == [x];
    } else {
      var init, last := sorted[..|sorted| - 1], sorted[|sorted| - 1];
      assert sorted == init + [last];
      if less(x, last) {
        InsertClass(init, x, z, less);
        assert Insert(sorted, x, less) == Insert(init, x, less) + [last];
        InsertClassPast(init, last, Insert(init, x, less), x, z, less);
      } else {
        ClassOfSnoc(sorted, x, z, less);
      }
    }
  }

  /// The step of `InsertClass` where `x` moves past `last`: `x` and `last`
  /// are never in the same class, so their order does not show in a class.
  lemma InsertClassPast<T(!new)>(init: seq<T>, last: T, r: seq<T>, x: T, z: T, less: (T, T) -> bool)
    requires StrictWeakOrder(less) && less(x, last)
    requires ClassOf(r, z, less) == ClassOf(init, z, less) + (if Equivalent(x, z, less) then [x] else [])
    ensures ClassOf(r + [last], z, less)
         == ClassOf(init + [last], z, less) + (if Equivalent(x, z, less) then [x] else [])
  {
    var X := if Equivalent(x, z, less) then [x] else [];
    var L := if Equivalent(last, z, less) then [last] else [];
    ClassOfSnoc(init, last, z, less);
    ClassOfSnoc(r, last, z, less);
    LessSeparatesClasses(x, last, z, less);
    var C := ClassOf(init, z, less);
    if X == [] {
      assert C + X == C;
      assert C + L + X == C + L;
    } else {
      assert L == [];
      assert C + L == C;
      assert C + X + L == C + X;
    }
  }

  /// `Sort` is stable: for every `z`, the elements equivalent to `z` appear
  /// in the result in exactly the order they had in the input.
  lemma {:induction false} SortStable<T(!new)>(s: seq<T>, z: T, less: (T, T) -> bool)
    requires StrictWeakOrder(less)
    ensures ClassOf(Sort(s, less), z, less) == ClassOf(s, z, less)
  {
    if s != [] {
      SortStable(s[..|s| - 1], z, less);
      InsertClass(Sort(s[..|s| - 1], less), s[|s| - 1], z, less);
    }
  }

  /// An input that is already ordered comes back unchanged.
  lemma {:induction false} SortOfSorted<T>(s: seq<T>, less: (T, T) -> bool)
    requires Sorted(s, less)
    ensures Sort(s, less) == s
  {
    if s != [] {
      var init := s[..|s| - 1];
      assert Sorted(init, less);
      SortOfSorted(init, less);
      assert s == init + [s[|s| - 1]];
    }
  }
}
