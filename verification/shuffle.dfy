/** `shuffleArray` of the older view (src/components/View.tsx): a
    Fisher–Yates shuffle of the palette, made before each pie chart is
    drawn. `Math.random()` becomes an oracle: the sequence of values it
    returns, in call order, each in [0, 1). */
module Shuffle {

  import opened Values
  import opened Panels

  lemma ScaledBelow(r: real, n: nat)
    requires 0.0 <= r < 1.0 && n > 0
    ensures 0.0 <= r * n as real < n as real
  {
    if r > 0.0 {
      PositiveProduct(r, n as real);
    }
    PositiveProduct(1.0 - r, n as real);
    assert (1.0 - r) * n as real == n as real - r * n as real;
  }

  /** `Math.floor(draw * (i + 1))`: an index in [0, i]. */
  function PickIndex(draw: real, i: nat): (j: nat)
    requires 0.0 <= draw < 1.0
    ensures j <= i
  {
    ScaledBelow(draw, i + 1);
    (draw * (i + 1) as real).Floor
  }

  /** Every index in [0, i] is picked by some draw: the shuffle can make
      any choice the algorithm allows. */
  lemma EveryIndexReachable(i: nat, j: nat)
    requires j <= i
    ensures var draw := j as real / (i + 1) as real;
            0.0 <= draw < 1.0 && PickIndex(draw, i) == j
  {
    var n := (i + 1) as real;
    var draw := j as real / n;
    assert draw * n == j as real;
  }

  /** Exchanges the elements at `i` and `j`. */
  function Swap<T>(s: seq<T>, i: nat, j: nat): (r: seq<T>)
    requires i < |s| && j < |s|
    ensures |r| == |s|
    ensures r[i] == s[j] && r[j] == s[i]
    ensures forall k :: 0 <= k < |s| && k != i && k != j ==> r[k] == s[k]
    ensures multiset(r) == multiset(s)
  {
    var r := s[i := s[j]][j := s[i]];
    SwapPermutes(s, i, j);
    r
  }

  lemma SwapPermutes<T>(s: seq<T>, i: nat, j: nat)
    requires i < |s| && j < |s|
    ensures multiset(s[i := s[j]][j := s[i]]) == multiset(s)
  {
    var t := s[i := s[j]];
    assert multiset(t) == multiset(s) - multiset{s[i]} + multiset{s[j]};
    assert t[j] == s[j];
    assert multiset(t[j := s[i]]) == multiset(t) - multiset{s[j]} + multiset{s[i]};
  }

  /** `shuffleArray(array)` with `draws` standing for the successive values
      of `Math.random()`: a copy whose elements are exchanged from the last
      position down to position 1, each with a position at or below it. */
  method ShuffleArray<T>(a: seq<T>, draws: seq<real>) returns (shuffled: seq<T>)
    requires |a| <= |draws| + 1
    requires forall k :: 0 <= k < |draws| ==> 0.0 <= draws[k] < 1.0
    ensures |shuffled| == |a|
    ensures multiset(shuffled) == multiset(a)
  {
    shuffled := a;
    var i: int := |a| - 1;
    while i > 0
      invariant -1 <= i < |a|
      invariant |shuffled| == |a|
      invariant multiset(shuffled) == multiset(a)
      invariant i > 0 ==> |a| - 1 - i < |draws|
    {
      var j := PickIndex(draws[|a| - 1 - i], i);
      shuffled := Swap(shuffled, i, j);
      i := i - 1;
    }
  }

  // ---------------------------------------------------------------------
  // Permutations keep distinctness

  lemma {:induction false} DistinctOnce<T>(s: seq<T>, x: T)
    requires Distinct(s)
    ensures multiset(s)[x] <= 1
  {
    if |s| > 0 {
      var tail := s[1..];
      assert s == [s[0]] + tail;
      assert Distinct(tail);
      DistinctOnce(tail, x);
      if x == s[0] {
        assert x !in tail;
      }
    }
  }

  lemma RepeatedTwice<T>(s: seq<T>, i: nat, j: nat)
    requires i < j < |s| && s[i] == s[j]
    ensures multiset(s)[s[i]] >= 2
  {
    assert s == s[..j] + s[j..];
    assert s[i] == s[..j][i];
    assert s[j] == s[j..][0];
    assert multiset(s) == multiset(s[..j]) + multiset(s[j..]);
  }

  /** A rearrangement of a sequence without repeats has no repeats. */
  lemma PermutationKeepsDistinct<T>(a: seq<T>, r: seq<T>)
    requires Distinct(a) && multiset(r) == multiset(a)
    ensures Distinct(r)
  {
    forall i, j | 0 <= i < j < |r|
      ensures r[i] != r[j]
    {
      if r[i] == r[j] {
        RepeatedTwice(r, i, j);
        DistinctOnce(a, r[i]);
      }
    }
  }

  // ---------------------------------------------------------------------
  // Cell colours of the older view

  /** `shuffledColors[entryIndex % shuffledColors.length]`. */
  function ShuffledCellColor(shuffled: seq<string>, i: nat): (color: string)
    requires |shuffled| > 0
    ensures color in shuffled
  {
    shuffled[i % |shuffled|]
  }

  /** With a shuffled palette without repeats every cell colour comes from
      the palette, and cells fewer than the palette's length apart get
      different colours. */
  lemma ShuffledCellColors(bank: seq<string>, shuffled: seq<string>, i: nat, j: nat)
    requires Distinct(bank) && multiset(shuffled) == multiset(bank)
    requires i < j && j - i < |bank|
    ensures |shuffled| == |bank|
    ensures ShuffledCellColor(shuffled, i) in bank
    ensures ShuffledCellColor(shuffled, i) != ShuffledCellColor(shuffled, j)
  {
    SameLength(shuffled, bank);
    PermutationKeepsDistinct(bank, shuffled);
    var n := |shuffled|;
    ResiduesDiffer(i, j, n);
    InMultiset(shuffled, bank, i % n);
  }

  lemma InMultiset<T>(a: seq<T>, b: seq<T>, i: nat)
    requires multiset(a) == multiset(b) && i < |a|
    ensures a[i] in b
  {
    assert a[i] in multiset(a);
  }

  lemma SameLength<T>(a: seq<T>, b: seq<T>)
    requires multiset(a) == multiset(b)
    ensures |a| == |b|
  {
    assert |a| == |multiset(a)| && |b| == |multiset(b)|;
  }

  /** A nonzero multiple of `n` is at least `n` away from zero. */
  lemma MultipleBounds(k: int, n: int)
    requires n > 0
    ensures k >= 1 ==> k * n >= n
    ensures k <= -1 ==> k * n <= -n
  {
    if k >= 1 {
      assert k * n == (k - 1) * n + n;
      assert (k - 1) * n >= 0;
    } else if k <= -1 {
      assert k * n == (k + 1) * n - n;
      assert (k + 1) * n <= 0;
    }
  }

  /** The remainder is the `r` of any decomposition `q * n + r` with `0 <= r < n`. */
  lemma ModUnique(a: int, n: int, q: int, r: int)
    requires n > 0 && 0 <= r < n && a == q * n + r
    ensures a % n == r
  {
    var q', r' := a / n, a % n;
    assert a == q' * n + r';
    assert (q - q') * n == r' - r;
    MultipleBounds(q - q', n);
  }

  /** Positions fewer than `n` apart fall on different residues modulo `n`. */
  lemma ResiduesDiffer(i: nat, j: nat, n: nat)
    requires n > 0 && i < j && j - i < n
    ensures i % n != j % n
  {
    var qi, qj := i / n, j / n;
    assert i == qi * n + i % n && j == qj * n + j % n;
    assert (qj - qi) * n == (j - i) - (j % n - i % n);
    MultipleBounds(qj - qi, n);
  }

  /** Stepping back by `n` keeps the residue modulo `n`. */
  lemma ResidueShift(i: nat, n: nat)
    requires n > 0 && n <= i
    ensures (i - n) % n == i % n
  {
    var q := i / n;
    assert i == q * n + i % n;
    assert i - n == (q - 1) * n + i % n;
    ModUnique(i - n, n, q - 1, i % n);
  }

  /** The colours of the cells of one pie chart of the older view, drawn
      from `bank` (`COLOR_BANK` there) shuffled with the given draws: they
      repeat with period `|bank|`, and any `|bank|` consecutive cells get
      different colours, so each full round uses the whole palette. */
  method PieCellColors(bank: seq<string>, slices: nat, draws: seq<real>) returns (colors: seq<string>)
    requires Distinct(bank) && |bank| > 0
    requires |bank| <= |draws| + 1
    requires forall k :: 0 <= k < |draws| ==> 0.0 <= draws[k] < 1.0
    ensures |colors| == slices
    ensures forall i :: 0 <= i < slices ==> colors[i] in bank
    ensures forall i :: |bank| <= i < slices ==> colors[i] == colors[i - |bank|]
    ensures forall i, j :: 0 <= i < j < slices && j - i < |bank| ==> colors[i] != colors[j]
  {
    var shuffled := ShuffleArray(bank, draws);
    SameLength(shuffled, bank);
    PermutationKeepsDistinct(bank, shuffled);
    var n := |shuffled|;
    colors := seq(slices, i requires 0 <= i < slices => ShuffledCellColor(shuffled, i));
    forall i, j | 0 <= i < j < slices && j - i < |bank|
      ensures colors[i] != colors[j]
    {
      ShuffledCellColors(bank, shuffled, i, j);
    }
    forall i | |bank| <= i < slices
      ensures colors[i] == colors[i - |bank|]
    {
      ResidueShift(i, n);
    }
    forall i | 0 <= i < slices
      ensures colors[i] in bank
    {
      assert colors[i] in multiset(shuffled);
    }
  }

  /** One pie chart of the older view, `generatePieChartData(summary.rows)`
      followed by the cell colours: a panel without rows makes `rows.map`
      throw (`None`), otherwise there is one slice and one colour per row. */
  method LegacyPieChart(p: Panel, draws: seq<real>) returns (r: Option<(seq<PieSlice>, seq<string>)>)
    requires |LegacyColorBank| <= |draws| + 1
    requires forall k :: 0 <= k < |draws| ==> 0.0 <= draws[k] < 1.0
    ensures r.None? <==> p.rows.None?
    ensures r.Some? ==> r.value.0 == PieChartData(p.rows.value)
    ensures r.Some? ==> |r.value.1| == |p.rows.value|
    ensures r.Some? ==> forall i :: 0 <= i < |r.value.1| ==> r.value.1[i] in LegacyColorBank
    ensures r.Some? ==> forall i, j :: 0 <= i < j < |r.value.1| && j - i < 20 ==> r.value.1[i] != r.value.1[j]
  {
    if p.rows.None? {
      return None;
    }
    var slices := PieChartData(p.rows.value);
    LegacyBankDistinct();
    var colors := PieCellColors(LegacyColorBank, |slices|, draws);
    r := Some((slices, colors));
  }

  /** The older view's palette satisfies what the cell colouring needs:
      20 colours, none repeated. */
  lemma LegacyPaletteUsable()
    ensures Distinct(LegacyColorBank) && |LegacyColorBank| == 20
  {
    LegacyBankDistinct();
  }
}
