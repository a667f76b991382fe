/** Python's `sorted`, as the handlers use it: a stable sort by a key.
    The key order is given as a strict "goes before" relation lt; sorting
    with `reverse=True` is the stable sort by the converse relation. */
module Sorting {
  import opened Packages

  /** What `sorted` needs of the key order: irreflexive, transitive, and
      with incomparability transitive (lt(a, c) forces lt(a, b) or lt(b, c)). */
  ghost predicate StrictWeakOrder<T(!new)>(lt: (T, T) -> bool)
  {
    && (forall a :: !lt(a, a))
    && (forall a, b, c :: lt(a, b) && lt(b, c) ==> lt(a, c))
    && (forall a, b, c :: lt(a, c) ==> lt(a, b) || lt(b, c))
  }

  /** No element is strictly before an element to its left. */
  ghost predicate Sorted<T>(s: seq<T>, lt: (T, T) -> bool)
  {
    forall i, j :: 0 <= i < j < |s| ==> !lt(s[j], s[i])
  }

  /** x goes in front of the first element of t that is not strictly before
      it, so x lands ahead of the elements of t it ties with. */
  function Insert<T>(x: T, t: seq<T>, lt: (T, T) -> bool): (r: seq<T>)
    ensures |r| == |t| + 1
    ensures multiset(r) == multiset(t) + multiset{x}
  {
    if t == [] || !lt(t[0], x) then [x] + t
    else
      assert t == [t[0]] + t[1..];
      [t[0]] + Insert(x, t[1..], lt)
  }

  /** Insertion sort from the back: each element is inserted ahead of the
      later elements it ties with, which is the stability `sorted` promises. */
  function SortBy<T>(s: seq<T>, lt: (T, T) -> bool): (r: seq<T>)
    ensures |r| == |s|
    ensures multiset(r) == multiset(s)
  {
    if s == [] then []
    else
      assert s == [s[0]] + s[1..];
      Insert(s[0], SortBy(s[1..], lt), lt)
  }

  /** A sorted list stays sorted when an element that no element of it is
      strictly before goes in front. */
  lemma SortedCons<T>(h: T, rest: seq<T>, lt: (T, T) -> bool)
    requires Sorted(rest, lt)
    requires forall y :: y in rest ==> !lt(y, h)
    ensures Sorted([h] + rest, lt)
  {
  }

  lemma {:induction false} InsertSorted<T(!new)>(x: T, t: seq<T>, lt: (T, T) -> bool)
    requires StrictWeakOrder(lt) && Sorted(t, lt)
    ensures Sorted(Insert(x, t, lt), lt)
  {
    if t != [] && lt(t[0], x) {
      var h, tail := t[0], t[1..];
      assert forall i :: 0 <= i < |tail| ==> tail[i] == t[i + 1];
      assert Sorted(tail, lt);
      InsertSorted(x, tail, lt);
      var rest := Insert(x, tail, lt);
      forall y | y in rest
        ensures !lt(y, h)
      {
        assert y in multiset(rest);
        if y != x {
          assert y in multiset(tail);
          var j :| 0 <= j < |tail| && tail[j] == y;
          assert t[j + 1] == y;
        }
      }
      SortedCons(h, rest, lt);
    }
  }

  /** The sort's output is sorted whenever the key order is a strict weak order. */
  lemma {:induction false} SortBySorted<T(!new)>(s: seq<T>, lt: (T, T) -> bool)
    requires StrictWeakOrder(lt)
    ensures Sorted(SortBy(s, lt), lt)
  {
    if s != [] {
      SortBySorted(s[1..], lt);
      InsertSorted(s[0], SortBy(s[1..], lt), lt);
    }
  }

  /** The position of the first element of s that no element of s is
      strictly before: a least element, and strictly before every element
      to its left. */
  function FirstLeast<T(!new)>(s: seq<T>, lt: (T, T) -> bool): (i: nat)
    requires s != []
    ensures i < |s|
    ensures StrictWeakOrder(lt) ==>
      (forall j :: 0 <= j < |s| ==> !lt(s[j], s[i])) && (forall j :: 0 <= j < i ==> lt(s[i], s[j]))
  {
    if |s| == 1 then 0
    else
      var k := 1 + FirstLeast(s[1..], lt);
      assert s[k] == s[1..][k - 1];
      assert forall j :: 1 <= j < |s| ==> s[j] == s[1..][j - 1];
      if lt(s[k], s[0]) then k else 0
  }

  /** The head of the stable sort is the first least element of the input:
      among the elements that tie for first place, the earliest one. */
  lemma {:induction false} SortByHead<T(!new)>(s: seq<T>, lt: (T, T) -> bool)
    requires s != []
    ensures SortBy(s, lt)[0] == s[FirstLeast(s, lt)]
  {
    if |s| > 1 {
      SortByHead(s[1..], lt);
      assert s[1 + FirstLeast(s[1..], lt)] == s[1..][FirstLeast(s[1..], lt)];
    }
  }

  /** The elements that tie with a: neither is strictly before the other. */
  function Tied<T>(lt: (T, T) -> bool, a: T): T -> bool
  {
    (x: T) => !lt(x, a) && !lt(a, x)
  }

  /** Two elements one of which is strictly before the other do not both
      tie with the same a. */
  lemma TiedApart<T(!new)>(lt: (T, T) -> bool, a: T, y: T, x: T)
    requires StrictWeakOrder(lt) && lt(y, x)
    ensures !(Tied(lt, a)(y) && Tied(lt, a)(x))
  {
  }

  /** Insertion puts x ahead of every element it ties with and behind only
      elements strictly before it, so among the elements tied with any a,
      x simply comes first. */
  lemma {:induction false} InsertStable<T(!new)>(x: T, t: seq<T>, lt: (T, T) -> bool, a: T)
    requires StrictWeakOrder(lt)
    ensures Keep(Insert(x, t, lt), Tied(lt, a)) == (if Tied(lt, a)(x) then [x] else []) + Keep(t, Tied(lt, a))
  {
    var e := Tied(lt, a);
    var first: seq<T> := if e(x) then [x] else [];
    if t == [] || !lt(t[0], x) {
      assert Insert(x, t, lt) == [x] + t;
      assert ([x] + t)[1..] == t;
    } else {
      var ins := Insert(x, t[1..], lt);
      var head: seq<T> := if e(t[0]) then [t[0]] else [];
      assert Insert(x, t, lt) == [t[0]] + ins;
      assert ([t[0]] + ins)[1..] == ins;
      assert Keep([t[0]] + ins, e) == head + Keep(ins, e);
      InsertStable(x, t[1..], lt, a);
      assert Keep(t, e) == head + Keep(t[1..], e);
      TiedApart(lt, a, t[0], x);
      if head == [] {
        assert Keep(Insert(x, t, lt), e) == Keep(ins, e);
        assert Keep(t, e) == Keep(t[1..], e);
      } else {
        assert first == [];
        assert Keep(ins, e) == Keep(t[1..], e);
      }
    }
  }

  /** `sorted` is stable: the elements tied with any a keep their input order. */
  lemma {:induction false} SortByStable<T(!new)>(s: seq<T>, lt: (T, T) -> bool, a: T)
    requires StrictWeakOrder(lt)
    ensures Keep(SortBy(s, lt), Tied(lt, a)) == Keep(s, Tied(lt, a))
  {
    if s != [] {
      SortByStable(s[1..], lt, a);
      InsertStable(s[0], SortBy(s[1..], lt), lt, a);
    }
  }
}
