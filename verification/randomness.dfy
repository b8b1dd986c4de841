/**
 Python's `random` module as arbitrary streams of draws. No probability is
 modelled: a run of the program is one choice of streams, and every
 property proved about a strategy holds for all of them.
 */
module Randomness {
  import opened Wrappers

  /** The k-th integer draw of a run (`randbelow`) is `ints(k)` reduced below
      its bound; the k-th `random()` is `units(k)`. Callers thread the
      position k of the next draw. */
  datatype Rng = Rng(ints: nat -> nat, units: nat -> real)

  /** `randbelow(n)` at position pos. */
  function Below(rng: Rng, pos: nat, n: nat): (r: nat)
    requires n > 0
    ensures r < n
  {
    rng.ints(pos) % n
  }

  /** `random.choice(xs)`. */
  function Choice<T(==)>(rng: Rng, pos: nat, xs: seq<T>): (r: T)
    requires |xs| > 0
    ensures r in xs
  {
    xs[Below(rng, pos, |xs|)]
  }

  function Swap<T>(xs: seq<T>, i: nat, j: nat): (r: seq<T>)
    requires i < |xs| && j < |xs|
    ensures |r| == |xs| && multiset(r) == multiset(xs)
    ensures r[i] == xs[j] && r[j] == xs[i]
    ensures forall k | 0 <= k < |xs| && k != i && k != j :: r[k] == xs[k]
  {
    var r := xs[i := xs[j]][j := xs[i]];
    assert multiset(xs[i := xs[j]]) == multiset(xs) - multiset{xs[i]} + multiset{xs[j]};
    r
  }

  /** `random.shuffle(xs)` (CPython): for i from |xs|-1 down to 1, swap
      position i with position randbelow(i + 1). One draw per swap. */
  function Shuffle<T>(rng: Rng, pos: nat, xs: seq<T>): (r: (seq<T>, nat))
    ensures |r.0| == |xs| && multiset(r.0) == multiset(xs)
    ensures r.1 == pos + (if |xs| == 0 then 0 else |xs| - 1)
  {
    ShuffleDown(rng, pos, xs, if |xs| == 0 then 0 else |xs| - 1)
  }

  function ShuffleDown<T>(rng: Rng, pos: nat, xs: seq<T>, i: nat): (r: (seq<T>, nat))
    requires i < |xs| || i == 0
    ensures |r.0| == |xs| && multiset(r.0) == multiset(xs)
    ensures r.1 == pos + i
    decreases i
  {
    if i == 0 then (xs, pos)
    else ShuffleDown(rng, pos + 1, Swap(xs, i, Below(rng, pos, i + 1)), i - 1)
  }

  function Sum(ws: seq<real>): real {
    if ws == [] then 0.0 else ws[0] + Sum(ws[1..])
  }

  /** `itertools.accumulate(ws)` started from acc: running totals. */
  function AccumulateFrom(acc: real, ws: seq<real>): (r: seq<real>)
    ensures |r| == |ws|
    ensures forall i | 0 <= i < |ws| :: r[i] == acc + Sum(ws[..i + 1])
    decreases |ws|
  {
    if ws == [] then []
    else
      var r := [acc + ws[0]] + AccumulateFrom(acc + ws[0], ws[1..]);
      forall i | 0 <= i < |ws|
        ensures r[i] == acc + Sum(ws[..i + 1])
      {
        assert ws[..i + 1][1..] == ws[1..][..i];
      }
      r
  }

  function Accumulate(ws: seq<real>): (r: seq<real>)
    ensures |r| == |ws|
    ensures forall i | 0 <= i < |ws| :: r[i] == Sum(ws[..i + 1])
  {
    AccumulateFrom(0.0, ws)
  }

  ghost predicate Sorted(a: seq<real>) {
    forall i, j | 0 <= i < j < |a| :: a[i] <= a[j]
  }

  /** `bisect.bisect_right(a, x, lo, hi)`. */
  function Bisect(a: seq<real>, x: real, lo: nat, hi: nat): (r: nat)
    requires lo <= hi <= |a|
    ensures lo <= r <= hi
    decreases hi - lo
  {
    if lo < hi then
      var mid := (lo + hi) / 2;
      if x < a[mid] then Bisect(a, x, lo, mid) else Bisect(a, x, mid + 1, hi)
    else lo
  }

  /** On a sorted sequence the binary search stops at the first slot whose
      entry exceeds x, or at hi when there is none. */
  lemma {:induction false} BisectFindsSlot(a: seq<real>, x: real, lo: nat, hi: nat)
    requires lo <= hi <= |a| && Sorted(a)
    ensures var r := Bisect(a, x, lo, hi);
      && (forall j | lo <= j < r :: a[j] <= x)
      && (r < hi ==> x < a[r])
    decreases hi - lo
  {
    if lo < hi {
      var mid := (lo + hi) / 2;
      if x < a[mid] {
        BisectFindsSlot(a, x, lo, mid);
      } else {
        BisectFindsSlot(a, x, mid + 1, hi);
      }
    }
  }

  /** The index `random.choices(population, weights=ws, k=1)` picks: None
      stands for its ValueError on weights whose total is not positive. */
  function WeightedIndex(rng: Rng, pos: nat, ws: seq<real>): (r: Option<nat>)
    requires |ws| > 0
    ensures r.Some? ==> r.value < |ws|
    ensures r.None? <==> Sum(ws) <= 0.0
  {
    var cum := Accumulate(ws);
    assert cum[|ws| - 1] == Sum(ws[..|ws|]);
    assert ws[..|ws|] == ws;
    PickSlot(cum, rng.units(pos))
  }

  /** The bisection over running totals cum with the draw u: the draw is
      scaled by the total, and the search is capped at the last index. */
  function PickSlot(cum: seq<real>, u: real): (r: Option<nat>)
    requires |cum| > 0
    ensures r.Some? ==> r.value < |cum|
    ensures r.None? <==> cum[|cum| - 1] <= 0.0
  {
    var total := cum[|cum| - 1];
    if total <= 0.0 then None
    else Some(Bisect(cum, u * total, 0, |cum| - 1))
  }

  lemma {:induction false} SumPositive(ws: seq<real>)
    requires |ws| > 0 && forall i | 0 <= i < |ws| :: ws[i] > 0.0
    ensures Sum(ws) > 0.0
  {
    if |ws| > 1 {
      SumPositive(ws[1..]);
    }
  }

  lemma {:induction false} PrefixSumStep(ws: seq<real>, i: nat)
    requires 0 < i < |ws|
    ensures Sum(ws[..i + 1]) == Sum(ws[..i]) + ws[i]
    decreases i
  {
    assert ws[..i + 1][1..] == ws[1..][..i];
    assert ws[..i][1..] == ws[1..][..i - 1];
    if i > 1 {
      PrefixSumStep(ws[1..], i - 1);
    } else {
      assert ws[1..][..1] == [ws[1]];
      assert Sum([ws[1]]) == ws[1] + Sum([]);
    }
  }

  /** Positive weights make the running totals strictly increasing. */
  lemma {:induction false} AccumulateSorted(ws: seq<real>)
    requires forall k | 0 <= k < |ws| :: ws[k] > 0.0
    ensures Sorted(Accumulate(ws))
  {
    var a := Accumulate(ws);
    forall i, j | 0 <= i < j < |a|
      ensures a[i] <= a[j]
    {
      AccumulateGap(ws, i, j);
    }
  }

  lemma {:induction false} AccumulateGap(ws: seq<real>, i: nat, j: nat)
    requires i < j < |ws| && forall k | 0 <= k < |ws| :: ws[k] > 0.0
    ensures Accumulate(ws)[i] < Accumulate(ws)[j]
    decreases j - i
  {
    var a := Accumulate(ws);
    PrefixSumStep(ws, j);
    if i < j - 1 {
      AccumulateGap(ws, i, j - 1);
    }
  }

  /** With positive weights the pick is the index whose slice of the running
      totals holds the scaled draw x = random() * total: every earlier
      total is at most x, and x lies below the chosen index's total unless
      the index is the last one (the search is capped at |ws| - 1). */
  lemma WeightedIndexSlot(rng: Rng, pos: nat, ws: seq<real>)
    requires |ws| > 0 && forall k | 0 <= k < |ws| :: ws[k] > 0.0
    ensures WeightedIndex(rng, pos, ws).Some?
    ensures InSlot(Accumulate(ws), rng.units(pos), WeightedIndex(rng, pos, ws).value)
  {
    WeightedIndexIsPick(rng, pos, ws);
    PositiveTotals(ws);
    PickSlotFindsSlot(Accumulate(ws), rng.units(pos));
  }

  lemma WeightedIndexIsPick(rng: Rng, pos: nat, ws: seq<real>)
    requires |ws| > 0
    ensures WeightedIndex(rng, pos, ws) == PickSlot(Accumulate(ws), rng.units(pos))
  {
  }

  /** Positive weights give sorted running totals with a positive last one. */
  lemma PositiveTotals(ws: seq<real>)
    requires |ws| > 0 && forall k | 0 <= k < |ws| :: ws[k] > 0.0
    ensures Sorted(Accumulate(ws)) && Accumulate(ws)[|ws| - 1] > 0.0
  {
    SumPositive(ws);
    AccumulateSorted(ws);
    AccumulateTotal(ws);
  }

  lemma AccumulateTotal(ws: seq<real>)
    requires |ws| > 0
    ensures Accumulate(ws)[|ws| - 1] == Sum(ws)
  {
    assert Accumulate(ws)[|ws| - 1] == Sum(ws[..|ws|]);
    assert ws[..|ws|] == ws;
  }

  /** Index i holds the draw u scaled by the total of the running totals
      cum: every earlier total is at most the scaled draw, which lies below
      the total at i unless i is the last index. */
  ghost predicate InSlot(cum: seq<real>, u: real, i: nat)
    requires |cum| > 0
  {
    var x := u * cum[|cum| - 1];
    && i < |cum|
    && (forall j | 0 <= j < i :: cum[j] <= x)
    && (i < |cum| - 1 ==> x < cum[i])
  }

  lemma PickSlotFindsSlot(cum: seq<real>, u: real)
    requires |cum| > 0 && Sorted(cum) && cum[|cum| - 1] > 0.0
    ensures PickSlot(cum, u).Some?
    ensures InSlot(cum, u, PickSlot(cum, u).value)
  {
    BisectFindsSlot(cum, u * cum[|cum| - 1], 0, |cum| - 1);
  }
}
