/** The collection operations the components apply to the audit entity:
    `Array.prototype.filter`, counting with `filter(...).length`, and
    lodash `groupBy` followed by `Object.entries`. */
module Collections {

  /** `xs.filter(keep)`: the kept elements, in input order. */
  function Filter<T>(xs: seq<T>, keep: T -> bool): (r: seq<T>)
    ensures |r| <= |xs|
    ensures forall i :: 0 <= i < |r| ==> keep(r[i])
  {
    if |xs| == 0 then []
    else
      var init := Filter(xs[..|xs| - 1], keep);
      var last := xs[|xs| - 1];
      if keep(last) then init + [last] else init
  }

  /** The filter keeps every occurrence of a kept element and nothing else. */
  lemma {:induction false} FilterOccurrences<T>(xs: seq<T>, keep: T -> bool, x: T)
    ensures multiset(Filter(xs, keep))[x] == if keep(x) then multiset(xs)[x] else 0
  {
    if |xs| > 0 {
      var init := xs[..|xs| - 1];
      var last := xs[|xs| - 1];
      FilterOccurrences(init, keep, x);
      assert xs == init + [last];
      assert multiset(xs) == multiset(init) + multiset{last};
    }
  }

  /** Membership in the filter result: exactly the kept elements of the input. */
  lemma FilterMembership<T>(xs: seq<T>, keep: T -> bool, x: T)
    ensures x in Filter(xs, keep) <==> x in xs && keep(x)
  {
    FilterOccurrences(xs, keep, x);
    assert x in xs <==> multiset(xs)[x] > 0;
    assert x in Filter(xs, keep) <==> multiset(Filter(xs, keep))[x] > 0;
  }

  /** `FilterMembership` for every element at once. */
  lemma FilterMembers<T>(xs: seq<T>, keep: T -> bool)
    ensures forall x :: x in Filter(xs, keep) <==> x in xs && keep(x)
  {
    forall x
      ensures x in Filter(xs, keep) <==> x in xs && keep(x)
    {
      FilterMembership(xs, keep, x);
    }
  }

  /** Filtering distributes over concatenation: the filter is stable, each
      part keeps its own relative order and the parts keep theirs. */
  lemma {:induction false} FilterConcat<T>(a: seq<T>, b: seq<T>, keep: T -> bool)
    ensures Filter(a + b, keep) == Filter(a, keep) + Filter(b, keep)
  {
    if |b| > 0 {
      var ab := a + b;
      var b' := b[..|b| - 1];
      var last := b[|b| - 1];
      assert ab[..|ab| - 1] == a + b';
      assert ab[|ab| - 1] == last;
      FilterConcat(a, b', keep);
      var tail := if keep(last) then [last] else [];
      assert Filter(ab, keep) == Filter(a + b', keep) + tail;
      assert Filter(b, keep) == Filter(b', keep) + tail;
      assert Filter(a, keep) + Filter(b', keep) + tail == Filter(a, keep) + (Filter(b', keep) + tail);
    } else {
      assert a + b == a;
    }
  }

  /** Filtering with a predicate and with its negation splits the input. */
  lemma {:induction false} FilterSplits<T>(xs: seq<T>, keep: T -> bool)
    ensures |Filter(xs, keep)| + |Filter(xs, x => !keep(x))| == |xs|
  {
    if |xs| > 0 {
      FilterSplits(xs[..|xs| - 1], keep);
    }
  }

  /** `xs.filter(p).length`. */
  function Count<T>(xs: seq<T>, p: T -> bool): (n: nat)
    ensures n <= |xs|
    ensures n == |xs| <==> forall i :: 0 <= i < |xs| ==> p(xs[i])
    ensures n == 0 <==> forall i :: 0 <= i < |xs| ==> !p(xs[i])
  {
    if |xs| == 0 then 0
    else
      var init := xs[..|xs| - 1];
      var n' := Count(init, p);
      assert forall i :: 0 <= i < |init| ==> init[i] == xs[i];
      n' + if p(xs[|xs| - 1]) then 1 else 0
  }

  /** Counting the elements that satisfy `p` is the length of their filter:
      `xs.filter(p).length`. */
  lemma {:induction false} CountIsFilterLength<T>(xs: seq<T>, p: T -> bool)
    ensures Count(xs, p) == |Filter(xs, p)|
  {
    if |xs| > 0 {
      CountIsFilterLength(xs[..|xs| - 1], p);
    }
  }


  // ---------------------------------------------------------------------
  // lodash groupBy

  /** One entry of `Object.entries(groupBy(xs, key))`. */
  datatype Group<T> = Group(key: string, items: seq<T>)

  function Keys<T>(gs: seq<Group<T>>): (ks: seq<string>)
    ensures |ks| == |gs|
    ensures forall i :: 0 <= i < |gs| ==> ks[i] == gs[i].key
  {
    if |gs| == 0 then [] else [gs[0].key] + Keys(gs[1..])
  }

  predicate DistinctKeys<T>(gs: seq<Group<T>>) {
    forall i, j :: 0 <= i < j < |gs| ==> gs[i].key != gs[j].key
  }

  /** The items of the group with key `k`, empty when there is no such group. */
  function ItemsOf<T>(gs: seq<Group<T>>, k: string): seq<T> {
    if |gs| == 0 then []
    else if gs[0].key == k then gs[0].items
    else ItemsOf(gs[1..], k)
  }

  /** The elements of `xs` whose key is `k`, in input order. */
  function Select<T>(xs: seq<T>, key: T -> string, k: string): seq<T> {
    Filter(xs, x => key(x) == k)
  }

  /** Membership in a selection: the elements of `xs` with key `k`. */
  lemma SelectMembership<T>(xs: seq<T>, key: T -> string, k: string, x: T)
    ensures x in Select(xs, key, k) <==> x in xs && key(x) == k
  {
    FilterMembership(xs, y => key(y) == k, x);
  }

  /** Files one more element: appended to its key's group, or a new group
      at the end when its key has not been seen. */
  function AddItem<T>(gs: seq<Group<T>>, x: T, key: T -> string): (r: seq<Group<T>>)
    ensures Keys(r) == if key(x) in Keys(gs) then Keys(gs) else Keys(gs) + [key(x)]
  {
    if |gs| == 0 then [Group(key(x), [x])]
    else if gs[0].key == key(x) then [Group(gs[0].key, gs[0].items + [x])] + gs[1..]
    else
      var tail := AddItem(gs[1..], x, key);
      assert Keys([gs[0]] + tail) == [gs[0].key] + Keys(tail);
      assert Keys(gs) == [gs[0].key] + Keys(gs[1..]);
      [gs[0]] + tail
  }

  /** `groupBy(xs, key)` with its entries in first-seen key order. */
  function GroupBy<T>(xs: seq<T>, key: T -> string): seq<Group<T>> {
    if |xs| == 0 then [] else AddItem(GroupBy(xs[..|xs| - 1], key), xs[|xs| - 1], key)
  }

  function TotalSize<T>(gs: seq<Group<T>>): nat {
    if |gs| == 0 then 0 else |gs[0].items| + TotalSize(gs[1..])
  }

  lemma {:induction false} AddItemDistinct<T>(gs: seq<Group<T>>, x: T, key: T -> string)
    requires DistinctKeys(gs)
    ensures DistinctKeys(AddItem(gs, x, key))
  {
    var r := AddItem(gs, x, key);
    forall i, j | 0 <= i < j < |r|
      ensures r[i].key != r[j].key
    {
      assert Keys(r)[i] == r[i].key && Keys(r)[j] == r[j].key;
      if key(x) in Keys(gs) {
        assert Keys(gs)[i] == gs[i].key && Keys(gs)[j] == gs[j].key;
      } else if j < |gs| {
        assert Keys(gs)[i] == gs[i].key && Keys(gs)[j] == gs[j].key;
      } else {
        assert Keys(gs)[i] == gs[i].key;
      }
    }
  }

  lemma {:induction false} AddItemItems<T>(gs: seq<Group<T>>, x: T, key: T -> string, k: string)
    requires DistinctKeys(gs)
    ensures ItemsOf(AddItem(gs, x, key), k) == ItemsOf(gs, k) + (if key(x) == k then [x] else [])
  {
    if |gs| > 0 && gs[0].key != key(x) {
      AddItemItems(gs[1..], x, key, k);
    } else if |gs| > 0 && gs[0].key == key(x) && gs[0].key != k {
      assert forall j :: 0 < j < |gs| ==> gs[j].key != gs[0].key;
      NotInItems(gs[1..], k);
    }
  }

  lemma {:induction false} NotInItems<T>(gs: seq<Group<T>>, k: string)
    ensures k !in Keys(gs) ==> ItemsOf(gs, k) == []
  {
    if |gs| > 0 {
      assert Keys(gs) == [gs[0].key] + Keys(gs[1..]);
      NotInItems(gs[1..], k);
    }
  }

  lemma {:induction false} AddItemTotal<T>(gs: seq<Group<T>>, x: T, key: T -> string)
    ensures TotalSize(AddItem(gs, x, key)) == TotalSize(gs) + 1
  {
    if |gs| > 0 && gs[0].key != key(x) {
      AddItemTotal(gs[1..], x, key);
      var r := AddItem(gs, x, key);
      assert r[1..] == AddItem(gs[1..], x, key);
    } else if |gs| > 0 {
      var r := AddItem(gs, x, key);
      assert r[1..] == gs[1..];
    }
  }

  /** Group keys are distinct. */
  lemma {:induction false} GroupByDistinct<T>(xs: seq<T>, key: T -> string)
    ensures DistinctKeys(GroupBy(xs, key))
  {
    if |xs| > 0 {
      GroupByDistinct(xs[..|xs| - 1], key);
      AddItemDistinct(GroupBy(xs[..|xs| - 1], key), xs[|xs| - 1], key);
    }
  }

  /** The group with key `k` holds exactly the elements with key `k`, in input order. */
  lemma {:induction false} GroupByItems<T>(xs: seq<T>, key: T -> string, k: string)
    ensures ItemsOf(GroupBy(xs, key), k) == Select(xs, key, k)
  {
    if |xs| > 0 {
      var init := xs[..|xs| - 1];
      GroupByItems(init, key, k);
      GroupByDistinct(init, key);
      AddItemItems(GroupBy(init, key), xs[|xs| - 1], key, k);
    }
  }

  /** Some element has key `k` exactly when one of all but the last has it
      or the last one has it. */
  lemma SomeKeySplit<T>(xs: seq<T>, key: T -> string, k: string)
    requires |xs| > 0
    ensures (exists i :: 0 <= i < |xs| && key(xs[i]) == k)
        <==> (exists i :: 0 <= i < |xs| - 1 && key(xs[i]) == k) || key(xs[|xs| - 1]) == k
  {
    var init := xs[..|xs| - 1];
    if exists i :: 0 <= i < |xs| && key(xs[i]) == k {
      var i :| 0 <= i < |xs| && key(xs[i]) == k;
    }
  }

  /** A key has a group exactly when some element has that key. */
  lemma {:induction false} GroupByKeys<T>(xs: seq<T>, key: T -> string, k: string)
    ensures k in Keys(GroupBy(xs, key)) <==> exists i :: 0 <= i < |xs| && key(xs[i]) == k
  {
    if |xs| > 0 {
      var init := xs[..|xs| - 1];
      var ks := Keys(GroupBy(init, key));
      GroupByKeys(init, key, k);
      assert k in Keys(GroupBy(xs, key)) <==> k in ks || key(xs[|xs| - 1]) == k;
      assert forall i :: 0 <= i < |init| ==> init[i] == xs[i];
      SomeKeySplit(xs, key, k);
    }
  }

  /** Every element lands in exactly one group: the sizes add up to the input length. */
  lemma {:induction false} GroupByTotal<T>(xs: seq<T>, key: T -> string)
    ensures TotalSize(GroupBy(xs, key)) == |xs|
  {
    if |xs| > 0 {
      GroupByTotal(xs[..|xs| - 1], key);
      AddItemTotal(GroupBy(xs[..|xs| - 1], key), xs[|xs| - 1], key);
    }
  }

  /** With distinct keys, a group's items are the items looked up by its key. */
  lemma {:induction false} ItemsOfDistinct<T>(gs: seq<Group<T>>, i: nat)
    requires DistinctKeys(gs) && i < |gs|
    ensures ItemsOf(gs, gs[i].key) == gs[i].items
  {
    if i > 0 {
      ItemsOfDistinct(gs[1..], i - 1);
    }
  }

  /** Group `i` holds exactly the elements with its key, and at least one. */
  lemma GroupByGroup<T>(xs: seq<T>, key: T -> string, i: nat)
    requires i < |GroupBy(xs, key)|
    ensures GroupBy(xs, key)[i].items == Select(xs, key, GroupBy(xs, key)[i].key)
    ensures |GroupBy(xs, key)[i].items| > 0
  {
    var gs := GroupBy(xs, key);
    GroupByDistinct(xs, key);
    ItemsOfDistinct(gs, i);
    GroupByItems(xs, key, gs[i].key);
    assert Keys(gs)[i] == gs[i].key;
    GroupByKeys(xs, key, gs[i].key);
    var j :| 0 <= j < |xs| && key(xs[j]) == gs[i].key;
    FilterMembership(xs, x => key(x) == gs[i].key, xs[j]);
  }

  /** The groups of `groupBy`: one per distinct key, each holding exactly
      the elements with that key in input order (so none is empty), and
      together holding every element once. */
  lemma GroupBySpec<T>(xs: seq<T>, key: T -> string)
    ensures DistinctKeys(GroupBy(xs, key))
    ensures forall i :: 0 <= i < |GroupBy(xs, key)| ==>
      GroupBy(xs, key)[i].items == Select(xs, key, GroupBy(xs, key)[i].key) &&
      |GroupBy(xs, key)[i].items| > 0
    ensures forall k :: k in Keys(GroupBy(xs, key)) <==> exists i :: 0 <= i < |xs| && key(xs[i]) == k
    ensures TotalSize(GroupBy(xs, key)) == |xs|
  {
    var gs := GroupBy(xs, key);
    GroupByDistinct(xs, key);
    GroupByTotal(xs, key);
    forall i | 0 <= i < |gs|
      ensures gs[i].items == Select(xs, key, gs[i].key) && |gs[i].items| > 0
    {
      GroupByGroup(xs, key, i);
    }
    forall k
      ensures k in Keys(gs) <==> exists i :: 0 <= i < |xs| && key(xs[i]) == k
    {
      GroupByKeys(xs, key, k);
    }
  }

  // ---------------------------------------------------------------------
  // Counts per group

  /** `Object.entries(groups).map(([k, items]) => ({k, value: items.length}))`. */
  function Sizes<T>(gs: seq<Group<T>>): (counts: seq<(string, nat)>)
    ensures |counts| == |gs|
    ensures forall i :: 0 <= i < |gs| ==> counts[i].0 == gs[i].key
  {
    seq(|gs|, i requires 0 <= i < |gs| => (gs[i].key, |gs[i].items|))
  }

  function SumCounts(counts: seq<(string, nat)>): nat {
    if |counts| == 0 then 0 else counts[0].1 + SumCounts(counts[1..])
  }

  /** The counts add up to the number of grouped items. */
  lemma {:induction false} SumSizes<T>(gs: seq<Group<T>>)
    ensures SumCounts(Sizes(gs)) == TotalSize(gs)
  {
    if |gs| > 0 {
      SumSizes(gs[1..]);
      assert Sizes(gs)[1..] == Sizes(gs[1..]);
    }
  }

  /** The pie data of a `groupBy`: one entry per key, in first-seen order;
      the counts add up to the number of elements. */
  function GroupCounts<T>(xs: seq<T>, key: T -> string): (counts: seq<(string, nat)>)
    ensures SumCounts(counts) == |xs|
  {
    var gs := GroupBy(xs, key);
    GroupByTotal(xs, key);
    SumSizes(gs);
    Sizes(gs)
  }

  function Names(counts: seq<(string, nat)>): (names: seq<string>)
    ensures |names| == |counts|
    ensures forall i :: 0 <= i < |counts| ==> names[i] == counts[i].0
  {
    seq(|counts|, i requires 0 <= i < |counts| => counts[i].0)
  }

  /** One entry per distinct key, each counting exactly the elements with
      that key (so at least one), and together counting every element. */
  lemma GroupCountsSpec<T>(xs: seq<T>, key: T -> string)
    ensures forall i, j :: 0 <= i < j < |GroupCounts(xs, key)| ==>
              GroupCounts(xs, key)[i].0 != GroupCounts(xs, key)[j].0
    ensures forall i :: 0 <= i < |GroupCounts(xs, key)| ==>
              GroupCounts(xs, key)[i].1 == |Select(xs, key, GroupCounts(xs, key)[i].0)| > 0
    ensures forall k :: k in Names(GroupCounts(xs, key)) <==> exists j :: 0 <= j < |xs| && key(xs[j]) == k
  {
    var gs := GroupBy(xs, key);
    GroupBySpec(xs, key);
    assert Names(GroupCounts(xs, key)) == Keys(gs);
  }
}
