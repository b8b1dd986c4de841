/**
 The "keep strictly better" bookkeeping every anytime strategy shares:
 `(best_path, best_cost)` starts at `(None, inf)` and changes only when an
 evaluation returned a cost strictly below the current best.
 */
module Anytime {
  import opened Wrappers
  import opened Graphs

  /** A cost bound: +infinity or a finite value. */
  datatype Bound = Infinity | Finite(value: real)

  /** c < b, every real being below +infinity. */
  predicate Below(c: real, b: Bound) {
    b.Infinity? || c < b.value
  }

  /** b is finite and at most x. */
  predicate AtMost(b: Bound, x: real) {
    b.Finite? && b.value <= x
  }

  /** One oracle call: the path evaluated and what the oracle answered. */
  datatype Eval = Eval(path: Path, cost: Option<real>)

  /** `(best_path, best_cost)`. */
  datatype Best = Best(path: Option<Path>, cost: Bound)

  const NoBest: Best := Best(None, Infinity)

  /** `if cost is not None and cost < best_cost: best_cost, best_path = cost, path`. */
  function Improve(b: Best, e: Eval): Best {
    if e.cost.Some? && Below(e.cost.value, b.cost) then Best(Some(e.path), Finite(e.cost.value))
    else b
  }

  /** Evaluation i beats the bound b, costs no more than any evaluation, and
      costs strictly less than every evaluation before it. */
  ghost predicate FirstCheapest(b: Bound, evals: seq<Eval>, i: int) {
    && 0 <= i < |evals|
    && evals[i].cost.Some?
    && Below(evals[i].cost.value, b)
    && (forall j | 0 <= j < |evals| && evals[j].cost.Some? :: evals[i].cost.value <= evals[j].cost.value)
    && (forall j | 0 <= j < i && evals[j].cost.Some? :: evals[i].cost.value < evals[j].cost.value)
  }

  /** r is what keeping-strictly-better yields from b over evals: b itself
      when no evaluation beats it, otherwise the first cheapest evaluation. */
  ghost predicate IsBestOf(r: Best, b: Best, evals: seq<Eval>) {
    || (r == b && forall j | 0 <= j < |evals| && evals[j].cost.Some? :: !Below(evals[j].cost.value, b.cost))
    || (exists i :: FirstCheapest(b.cost, evals, i) && r == Best(Some(evals[i].path), Finite(evals[i].cost.value)))
  }

  /** The best-tracking loop run over evals, starting from b. */
  function TrackFrom(b: Best, evals: seq<Eval>): (r: Best)
    ensures IsBestOf(r, b, evals)
    decreases |evals|
  {
    if evals == [] then b
    else
      var r := TrackFrom(Improve(b, evals[0]), evals[1..]);
      ImproveFirst(b, evals, r);
      r
  }

  /** Keeping strictly better never raises the cost: a bound the starting
      best meets, the tracked best meets too. */
  lemma BestOfKeeps(r: Best, b: Best, evals: seq<Eval>, x: real)
    requires IsBestOf(r, b, evals) && AtMost(b.cost, x)
    ensures AtMost(r.cost, x)
  {
    if !(r == b) {
      var i :| FirstCheapest(b.cost, evals, i) && r == Best(Some(evals[i].path), Finite(evals[i].cost.value));
    }
  }

  /** After an Improve with e the cost is at most e's. */
  lemma ImproveAtMost(b: Best, e: Eval)
    requires e.cost.Some?
    ensures AtMost(Improve(b, e).cost, e.cost.value)
  {
  }

  /** The inductive step: one Improve followed by the rest of the loop. */
  lemma ImproveFirst(b: Best, evals: seq<Eval>, r: Best)
    requires |evals| > 0 && IsBestOf(r, Improve(b, evals[0]), evals[1..])
    ensures IsBestOf(r, b, evals)
  {
    var e, rest, b' := evals[0], evals[1..], Improve(b, evals[0]);
    if e.cost.Some? && Below(e.cost.value, b.cost) {
      if r == b' && forall j | 0 <= j < |rest| && rest[j].cost.Some? :: !Below(rest[j].cost.value, b'.cost) {
        FirstWins(b, evals);
      } else {
        var i :| FirstCheapest(b'.cost, rest, i) && r == Best(Some(rest[i].path), Finite(rest[i].cost.value));
        LaterWins(b, evals, i);
      }
    } else {
      if r == b && forall j | 0 <= j < |rest| && rest[j].cost.Some? :: !Below(rest[j].cost.value, b.cost) {
        forall j | 0 <= j < |evals| && evals[j].cost.Some?
          ensures !Below(evals[j].cost.value, b.cost)
        {
          if j > 0 {
            assert rest[j - 1] == evals[j];
          }
        }
      } else {
        var i :| FirstCheapest(b.cost, rest, i) && r == Best(Some(rest[i].path), Finite(rest[i].cost.value));
        LaterWins(b, evals, i);
      }
    }
  }

  /** The first evaluation wins when it beats b and nothing after it beats it. */
  lemma FirstWins(b: Best, evals: seq<Eval>)
    requires |evals| > 0 && evals[0].cost.Some? && Below(evals[0].cost.value, b.cost)
    requires var rest := evals[1..];
      forall j | 0 <= j < |rest| && rest[j].cost.Some? :: !Below(rest[j].cost.value, Finite(evals[0].cost.value))
    ensures FirstCheapest(b.cost, evals, 0)
  {
    var c, rest := evals[0].cost.value, evals[1..];
    forall j | 0 <= j < |evals| && evals[j].cost.Some?
      ensures c <= evals[j].cost.value
    {
      if j > 0 {
        assert rest[j - 1] == evals[j];
      }
    }
  }

  /** The first cheapest of the rest, when it also undercuts the first
      evaluation whenever that one beat b, is the first cheapest of all. */
  lemma LaterWins(b: Best, evals: seq<Eval>, i: int)
    requires |evals| > 0
    requires FirstCheapest(Improve(b, evals[0]).cost, evals[1..], i)
    ensures FirstCheapest(b.cost, evals, i + 1)
  {
    var rest := evals[1..];
    var c := rest[i].cost.value;
    forall j | 0 <= j < |evals| && evals[j].cost.Some?
      ensures c <= evals[j].cost.value
    {
      if j > 0 {
        assert rest[j - 1] == evals[j];
      }
    }
    forall j | 0 <= j < i + 1 && evals[j].cost.Some?
      ensures c < evals[j].cost.value
    {
      if j > 0 {
        assert rest[j - 1] == evals[j];
      }
    }
  }

  /** What a strategy reports after evaluating evals, in plain terms: a path
      exactly when some evaluation succeeded; a cost no larger than any
      successful evaluation; and the path and cost of the first evaluation
      that reached that minimum. */
  ghost predicate KeptBest(r: Best, evals: seq<Eval>) {
    && (r.path.None? <==> r.cost.Infinity?)
    && (r.cost.Infinity? <==> forall j | 0 <= j < |evals| :: evals[j].cost.None?)
    && (forall j | 0 <= j < |evals| && evals[j].cost.Some? ::
          r.cost.Finite? && r.cost.value <= evals[j].cost.value)
    && (r.path.Some? ==>
          exists i | 0 <= i < |evals| ::
            && evals[i] == Eval(r.path.value, Some(r.cost.value))
            && forall j | 0 <= j < i && evals[j].cost.Some? :: r.cost.value < evals[j].cost.value)
  }

  /** The best-tracking loop from `(None, inf)`. */
  function Track(evals: seq<Eval>): (r: Best)
    ensures KeptBest(r, evals)
    ensures evals == [] ==> r == NoBest
  {
    TrackKeepsBest(evals);
    TrackFrom(NoBest, evals)
  }

  lemma TrackKeepsBest(evals: seq<Eval>)
    ensures KeptBest(TrackFrom(NoBest, evals), evals)
  {
    var r := TrackFrom(NoBest, evals);
    if r != NoBest {
      var i :| FirstCheapest(NoBest.cost, evals, i) && r == Best(Some(evals[i].path), Finite(evals[i].cost.value));
      assert evals[i] == Eval(r.path.value, Some(r.cost.value));
    }
  }
}
