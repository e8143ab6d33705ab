/** `Array.prototype.sort` with a comparator, as both the gauge thresholds
    and the data table use it. The engine's sort is stable, and when the
    comparator is a strict weak order every stable sort returns the same
    sequence; the model computes it by insertion.

    `before(a, b)` holds when the comparator puts `a` strictly before `b`
    (it returned a negative number for `(a, b)`). */
module Sorting {

  /** The comparator is a strict weak order on the elements of `dom`:
      asymmetric, and "not before" is transitive. */
  predicate StrictWeakOrder<T>(before: (T, T) -> bool, dom: seq<T>) {
    && (forall i, j :: 0 <= i < |dom| && 0 <= j < |dom| && before(dom[i], dom[j]) ==> !before(dom[j], dom[i]))
    && (forall i, j, k ::
          (0 <= i < |dom| && 0 <= j < |dom| && 0 <= k < |dom| &&
           !before(dom[i], dom[j]) && !before(dom[j], dom[k])) ==> !before(dom[i], dom[k]))
  }

  /** Every element of `s` occurs in `dom`. */
  ghost predicate Within<T>(s: seq<T>, dom: seq<T>) {
    forall i :: 0 <= i < |s| ==> s[i] in dom
  }

  /** No later element must come strictly before an earlier one. */
  predicate Sorted<T>(s: seq<T>, before: (T, T) -> bool) {
    forall i, j :: 0 <= i < j < |s| ==> !before(s[j], s[i])
  }

  /** Neither element goes before the other. */
  predicate Tied<T>(before: (T, T) -> bool, a: T, b: T) {
    !before(a, b) && !before(b, a)
  }

  /** Places `x` after the elements that go strictly before it and ahead of the rest. */
  function Insert<T>(x: T, s: seq<T>, before: (T, T) -> bool): (r: seq<T>)
    ensures |r| == |s| + 1
    ensures multiset(r) == multiset(s) + multiset{x}
  {
    if |s| == 0 then [x]
    else if before(s[0], x) then
      assert s == [s[0]] + s[1..];
      [s[0]] + Insert(x, s[1..], before)
    else [x] + s
  }

  /** `[...s].sort(cmp)`: a rearrangement of `s`. */
  function Sort<T>(s: seq<T>, before: (T, T) -> bool): (r: seq<T>)
    ensures |r| == |s|
    ensures multiset(r) == multiset(s)
  {
    if |s| == 0 then []
    else
      assert s == [s[0]] + s[1..];
      Insert(s[0], Sort(s[1..], before), before)
  }

  lemma SortWithin<T>(s: seq<T>, before: (T, T) -> bool, dom: seq<T>)
    requires Within(s, dom)
    ensures Within(Sort(s, before), dom)
  {
    var r := Sort(s, before);
    forall i | 0 <= i < |r|
      ensures r[i] in dom
    {
      assert r[i] in multiset(r);
      assert r[i] in multiset(s);
    }
  }

  lemma {:induction false} InsertSorted<T>(x: T, s: seq<T>, before: (T, T) -> bool, dom: seq<T>)
    requires StrictWeakOrder(before, dom)
    requires x in dom && Within(s, dom)
    requires Sorted(s, before)
    ensures Sorted(Insert(x, s, before), before)
  {
    var r := Insert(x, s, before);
    if |s| > 0 {
      if before(s[0], x) {
        var tail := Insert(x, s[1..], before);
        InsertSorted(x, s[1..], before, dom);
        assert r == [s[0]] + tail;
        forall j | 0 < j < |r|
          ensures !before(r[j], s[0])
        {
          assert r[j] in multiset(tail);
          assert r[j] in multiset(s[1..]) + multiset{x};
          if r[j] != x {
            assert r[j] in s[1..];
            var k :| 0 <= k < |s[1..]| && s[1..][k] == r[j];
            assert s[k + 1] == r[j];
          }
        }
      } else {
        forall j | 0 <= j < |s|
          ensures !before(s[j], x)
        {
          if j > 0 {
            assert !before(s[j], s[0]);
          }
        }
      }
    }
  }

  /** The result is ordered by the comparator. */
  lemma {:induction false} SortSorted<T>(s: seq<T>, before: (T, T) -> bool, dom: seq<T>)
    requires StrictWeakOrder(before, dom)
    requires Within(s, dom)
    ensures Sorted(Sort(s, before), before)
  {
    if |s| > 0 {
      SortSorted(s[1..], before, dom);
      SortWithin(s[1..], before, dom);
      InsertSorted(s[0], Sort(s[1..], before), before, dom);
    }
  }

  /** The elements of `s` tied with `k`, in order. */
  function TiedWith<T>(s: seq<T>, k: T, before: (T, T) -> bool): seq<T> {
    if |s| == 0 then []
    else (if Tied(before, s[0], k) then [s[0]] else []) + TiedWith(s[1..], k, before)
  }

  /** Two elements one of which goes strictly before the other are not both tied with `k`. */
  lemma NotBothTied<T>(a: T, b: T, k: T, before: (T, T) -> bool, dom: seq<T>)
    requires StrictWeakOrder(before, dom)
    requires a in dom && b in dom && k in dom
    requires before(a, b)
    ensures !(Tied(before, a, k) && Tied(before, b, k))
  {
    var i :| 0 <= i < |dom| && dom[i] == a;
    var j :| 0 <= j < |dom| && dom[j] == b;
    var m :| 0 <= m < |dom| && dom[m] == k;
    assert !before(a, k) && !before(k, b) ==> !before(a, b);
  }

  /** No element of `s` that goes strictly before `x` is tied with `k` together with `x`. */
  predicate SeparatedFrom<T>(x: T, s: seq<T>, k: T, before: (T, T) -> bool) {
    forall i :: 0 <= i < |s| && before(s[i], x) ==> !(Tied(before, s[i], k) && Tied(before, x, k))
  }

  lemma SeparatedTail<T>(x: T, s: seq<T>, k: T, before: (T, T) -> bool)
    requires |s| > 0 && SeparatedFrom(x, s, k, before)
    ensures SeparatedFrom(x, s[1..], k, before)
  {
    forall i | 0 <= i < |s[1..]| && before(s[1..][i], x)
      ensures !(Tied(before, s[1..][i], k) && Tied(before, x, k))
    {
      assert s[1..][i] == s[i + 1];
    }
  }

  /** `TiedWith` of a sequence with a known head. */
  lemma TiedWithCons<T>(y: T, t: seq<T>, k: T, before: (T, T) -> bool)
    ensures TiedWith([y] + t, k, before) == (if Tied(before, y, k) then [y] else []) + TiedWith(t, k, before)
  {
    assert ([y] + t)[0] == y && ([y] + t)[1..] == t;
  }

  /** `TiedWith` of a non-empty sequence, split at its head. */
  lemma TiedWithHead<T>(s: seq<T>, k: T, before: (T, T) -> bool)
    requires |s| > 0
    ensures TiedWith(s, k, before) == (if Tied(before, s[0], k) then [s[0]] else []) + TiedWith(s[1..], k, before)
  {
  }

  /** An empty prefix commutes with any other. */
  lemma SwapEmpty<T>(a: seq<T>, b: seq<T>, t: seq<T>)
    requires a == [] || b == []
    ensures a + (b + t) == b + (a + t)
  {
  }

  lemma {:induction false} InsertTied<T>(x: T, s: seq<T>, k: T, before: (T, T) -> bool)
    requires SeparatedFrom(x, s, k, before)
    ensures TiedWith(Insert(x, s, before), k, before)
         == (if Tied(before, x, k) then [x] else []) + TiedWith(s, k, before)
  {
    if |s| > 0 && before(s[0], x) {
      var rest := Insert(x, s[1..], before);
      SeparatedTail(x, s, k, before);
      InsertTied(x, s[1..], k, before);
      TiedWithCons(s[0], rest, k, before);
      TiedWithHead(s, k, before);
      SwapEmpty(if Tied(before, s[0], k) then [s[0]] else [],
                if Tied(before, x, k) then [x] else [],
                TiedWith(s[1..], k, before));
    } else {
      TiedWithCons(x, s, k, before);
    }
  }

  /** Stability: the elements tied with any `k` keep their input order. */
  lemma {:induction false} SortStable<T>(s: seq<T>, k: T, before: (T, T) -> bool, dom: seq<T>)
    requires StrictWeakOrder(before, dom)
    requires k in dom && Within(s, dom)
    ensures TiedWith(Sort(s, before), k, before) == TiedWith(s, k, before)
  {
    if |s| > 0 {
      var sorted := Sort(s[1..], before);
      SortStable(s[1..], k, before, dom);
      SortWithin(s[1..], before, dom);
      forall i | 0 <= i < |sorted| && before(sorted[i], s[0])
        ensures !(Tied(before, sorted[i], k) && Tied(before, s[0], k))
      {
        NotBothTied(sorted[i], s[0], k, before, dom);
      }
      InsertTied(s[0], sorted, k, before);
    }
  }

  /** No two different elements of `dom` are tied. */
  ghost predicate NoTies<T>(before: (T, T) -> bool, dom: seq<T>) {
    forall i, j :: 0 <= i < |dom| && 0 <= j < |dom| && Tied(before, dom[i], dom[j]) ==> dom[i] == dom[j]
  }

  lemma TiedEqual<T>(a: T, b: T, before: (T, T) -> bool, dom: seq<T>)
    requires NoTies(before, dom) && a in dom && b in dom
    requires a == b || Tied(before, a, b)
    ensures a == b
  {
    var i :| 0 <= i < |dom| && dom[i] == a;
    var j :| 0 <= j < |dom| && dom[j] == b;
  }

  lemma SortedHead<T>(a: seq<T>, before: (T, T) -> bool, y: T)
    requires Sorted(a, before) && y in a
    ensures y == a[0] || !before(y, a[0])
  {
    var i :| 0 <= i < |a| && a[i] == y;
  }

  lemma SameTails<T>(a: seq<T>, b: seq<T>)
    requires |a| > 0 && |b| > 0 && a[0] == b[0] && multiset(a) == multiset(b)
    ensures multiset(a[1..]) == multiset(b[1..])
  {
    assert a == [a[0]] + a[1..] && b == [b[0]] + b[1..];
    assert multiset(a) == multiset{a[0]} + multiset(a[1..]);
    assert multiset(b) == multiset{b[0]} + multiset(b[1..]);
    assert multiset(a[1..]) == multiset(a) - multiset{a[0]};
  }

  /** When no two different elements of `dom` are tied, a sorted rearrangement
      is unique: two sorted sequences with the same elements are equal. */
  lemma {:induction false} SortedUnique<T>(a: seq<T>, b: seq<T>, before: (T, T) -> bool, dom: seq<T>)
    requires Within(a, dom) && NoTies(before, dom)
    requires Sorted(a, before) && Sorted(b, before)
    requires multiset(a) == multiset(b)
    ensures a == b
  {
    if |a| > 0 {
      assert |b| == |multiset(b)| == |a|;
      assert a[0] in multiset(b) && b[0] in multiset(a);
      SortedHead(b, before, a[0]);
      SortedHead(a, before, b[0]);
      TiedEqual(a[0], b[0], before, dom);
      SameTails(a, b);
      assert Within(a[1..], dom);
      SortedUnique(a[1..], b[1..], before, dom);
      assert a == [a[0]] + a[1..] && b == [b[0]] + b[1..];
    } else {
      assert |multiset(b)| == 0;
    }
  }
}
