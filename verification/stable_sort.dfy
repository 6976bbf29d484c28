/** `Array.prototype.sort` with a comparator. ECMAScript requires the sort
    to be stable, so with a consistent comparator its result is fixed: the
    elements ordered by the comparator, and elements the comparator calls
    equal kept in their original order. The model is an insertion sort
    over a "comes before" relation `lt` (the comparator returning a
    negative number). */
module StableSort {

  /** `lt` is irreflexive, transitive, and its incomparability is
      transitive (negative transitivity): a consistent comparator. */
  ghost predicate StrictWeakOrder<T(!new)>(lt: (T, T) -> bool) {
    && (forall x :: !lt(x, x))
    && (forall x, y, z :: lt(x, y) && lt(y, z) ==> lt(x, z))
    && (forall x, y, z :: lt(x, z) ==> lt(x, y) || lt(y, z))
  }

  /** Neither comes before the other: the comparator returns 0. */
  predicate Equiv<T>(lt: (T, T) -> bool, x: T, y: T) {
    !lt(x, y) && !lt(y, x)
  }

  ghost predicate Sorted<T>(s: seq<T>, lt: (T, T) -> bool) {
    forall i, j :: 0 <= i < j < |s| ==> !lt(s[j], s[i])
  }

  /** Inserts `x` after every element it does not come before. */
  function Insert<T>(r: seq<T>, x: T, lt: (T, T) -> bool): seq<T> {
    if r == [] then [x]
    else if lt(x, r[|r| - 1]) then Insert(r[..|r| - 1], x, lt) + [r[|r| - 1]]
    else r + [x]
  }

  /** The result of `s.sort(cmp)`. */
  function Sort<T>(s: seq<T>, lt: (T, T) -> bool): seq<T> {
    if s == [] then [] else Insert(Sort(s[..|s| - 1], lt), s[|s| - 1], lt)
  }

  lemma {:induction false} InsertPermutes<T>(r: seq<T>, x: T, lt: (T, T) -> bool)
    ensures multiset(Insert(r, x, lt)) == multiset(r) + multiset{x}
  {
    if r != [] && lt(x, r[|r| - 1]) {
      InsertPermutes(r[..|r| - 1], x, lt);
      assert r == r[..|r| - 1] + [r[|r| - 1]];
    }
  }

  /** The result is a permutation of the input. */
  lemma {:induction false} SortPermutes<T>(s: seq<T>, lt: (T, T) -> bool)
    ensures multiset(Sort(s, lt)) == multiset(s)
  {
    if s != [] {
      SortPermutes(s[..|s| - 1], lt);
      InsertPermutes(Sort(s[..|s| - 1], lt), s[|s| - 1], lt);
      assert s == s[..|s| - 1] + [s[|s| - 1]];
    }
  }

  /** Appending an element that comes before none of `s` keeps `s` sorted. */
  lemma SnocSorted<T>(s: seq<T>, z: T, lt: (T, T) -> bool)
    requires Sorted(s, lt)
    requires forall k :: 0 <= k < |s| ==> !lt(z, s[k])
    ensures Sorted(s + [z], lt)
  {
    var out := s + [z];
    forall i, j | 0 <= i < j < |out| ensures !lt(out[j], out[i]) {
      if j < |s| {
        assert out[j] == s[j] && out[i] == s[i];
      }
    }
  }

  lemma {:induction false} InsertSorted<T(!new)>(r: seq<T>, x: T, lt: (T, T) -> bool)
    requires StrictWeakOrder(lt) && Sorted(r, lt)
    ensures Sorted(Insert(r, x, lt), lt)
  {
    if r != [] {
      var init, last := r[..|r| - 1], r[|r| - 1];
      if lt(x, last) {
        assert Sorted(init, lt);
        InsertSorted(init, x, lt);
        var ins := Insert(init, x, lt);
        InsertPermutes(init, x, lt);
        forall k | 0 <= k < |ins| ensures !lt(last, ins[k]) {
          var y := ins[k];
          assert y in multiset(ins);
          if y != x {
            assert y in multiset(init);
            var i :| 0 <= i < |init| && init[i] == y;
            assert r[i] == y;
          }
        }
        SnocSorted(ins, last, lt);
      } else {
        forall k | 0 <= k < |r| ensures !lt(x, r[k]) {
          if k < |r| - 1 {
            assert !lt(last, r[k]);
          }
        }
        SnocSorted(r, x, lt);
      }
    }
  }

  /** The result is ordered by the comparator. */
  lemma {:induction false} SortSorted<T(!new)>(s: seq<T>, lt: (T, T) -> bool)
    requires StrictWeakOrder(lt)
    ensures Sorted(Sort(s, lt), lt)
  {
    if s != [] {
      SortSorted(s[..|s| - 1], lt);
      InsertSorted(Sort(s[..|s| - 1], lt), s[|s| - 1], lt);
    }
  }

  /** The elements equivalent to `e`, in order. */
  function EquivClass<T>(s: seq<T>, e: T, lt: (T, T) -> bool): seq<T> {
    if s == [] then []
    else EquivClass(s[..|s| - 1], e, lt) + (if Equiv(lt, s[|s| - 1], e) then [s[|s| - 1]] else [])
  }

  /** Elements in the "comes before" relation are never both in the class of `e`. */
  ghost predicate ClassUnordered<T(!new)>(e: T, lt: (T, T) -> bool) {
    forall x, y :: lt(x, y) ==> !(Equiv(lt, x, e) && Equiv(lt, y, e))
  }

  lemma WeakOrderClasses<T(!new)>(e: T, lt: (T, T) -> bool)
    requires StrictWeakOrder(lt)
    ensures ClassUnordered(e, lt)
  {
  }

  /** The class of `e` in `s`, followed by `x` when `x` belongs to it. */
  function ClassThen<T>(s: seq<T>, x: T, e: T, lt: (T, T) -> bool): seq<T> {
    EquivClass(s, e, lt) + (if Equiv(lt, x, e) then [x] else [])
  }

  lemma EquivClassSnoc<T>(s: seq<T>, x: T, e: T, lt: (T, T) -> bool)
    ensures EquivClass(s + [x], e, lt) == ClassThen(s, x, e, lt)
  {
    assert (s + [x])[..|s|] == s;
  }

  lemma InsertAtEnd<T>(r: seq<T>, x: T, e: T, lt: (T, T) -> bool)
    requires r == [] || !lt(x, r[|r| - 1])
    ensures EquivClass(Insert(r, x, lt), e, lt) == ClassThen(r, x, e, lt)
  {
    assert Insert(r, x, lt) == r + [x];
    EquivClassSnoc(r, x, e, lt);
  }

  lemma {:induction false} InsertKeepsClasses<T(!new)>(r: seq<T>, x: T, e: T, lt: (T, T) -> bool)
    requires ClassUnordered(e, lt)
    ensures EquivClass(Insert(r, x, lt), e, lt) == ClassThen(r, x, e, lt)
  {
    if r != [] && lt(x, r[|r| - 1]) {
      InsertKeepsClasses(r[..|r| - 1], x, e, lt);
      assert !(Equiv(lt, x, e) && Equiv(lt, r[|r| - 1], e));
    } else {
      InsertAtEnd(r, x, e, lt);
    }
  }

  /** Stability: the elements the comparator cannot tell apart from `e`
      keep their relative order. */
  lemma {:induction false} SortStable<T(!new)>(s: seq<T>, e: T, lt: (T, T) -> bool)
    requires StrictWeakOrder(lt)
    ensures EquivClass(Sort(s, lt), e, lt) == EquivClass(s, e, lt)
  {
    if s != [] {
      SortStable(s[..|s| - 1], e, lt);
      WeakOrderClasses(e, lt);
      InsertKeepsClasses(Sort(s[..|s| - 1], lt), s[|s| - 1], e, lt);
    }
  }

  /** Input that is already in order is returned unchanged. */
  lemma {:induction false} SortIdentity<T>(s: seq<T>, lt: (T, T) -> bool)
    requires Sorted(s, lt)
    ensures Sort(s, lt) == s
  {
    if s != [] {
      var init := s[..|s| - 1];
      assert Sorted(init, lt);
      SortIdentity(init, lt);
      if init != [] {
        assert !lt(s[|s| - 1], init[|init| - 1]);
      }
      assert s == init + [s[|s| - 1]];
    }
  }
}
