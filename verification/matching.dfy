/** The submit handler's scorer (game.js:163-185): each selected point, in the
    order it was chosen, is credited to the nearest correct point that no
    earlier selection has taken, provided that point lies within the tolerance.
    The distance is the map's geodesic distance, taken here as a parameter. */
module Matching {
  import opened Wrappers
  import opened Selection

  /** The running result of the scorer: the `correctMatched` flags and `acertos`. */
  datatype Tally = Tally(matched: seq<bool>, hits: nat)

  /** The nearest-so-far record of the inner scan: nothing found yet
      (`closestIdx === -1`) or an index with its distance. */
  datatype Closest = NotFound | Found(idx: nat, d: real)

  /** Number of set flags. */
  function CountTrue(m: seq<bool>): (n: nat)
    ensures n <= |m|
    ensures n == |m| <==> forall k :: 0 <= k < |m| ==> m[k]
  {
    if m == [] then 0 else CountTrue(m[..|m| - 1]) + (if m[|m| - 1] then 1 else 0)
  }

  /** Setting one clear flag raises the count by one. */
  lemma {:induction false} CountTrueSet(m: seq<bool>, i: nat)
    requires i < |m| && !m[i]
    ensures CountTrue(m[i := true]) == CountTrue(m) + 1
  {
    var last := |m| - 1;
    if i < last {
      assert m[i := true][..last] == m[..last][i := true];
      CountTrueSet(m[..last], i);
    } else {
      assert m[i := true][..last] == m[..last];
    }
  }

  /** The inner scan over the first `n` correct points, skipping matched ones and
      replacing the record only on a strictly smaller distance. The result is
      the unmatched point of least distance, the lowest index among equals. */
  function ClosestUnmatched<P, Q>(p: P, correct: seq<Q>, matched: seq<bool>, dist: (P, Q) -> real, n: nat): (r: Closest)
    requires n <= |correct| == |matched|
    ensures r.NotFound? <==> forall k :: 0 <= k < n ==> matched[k]
    ensures r.Found? ==> r.idx < n && !matched[r.idx] && r.d == dist(p, correct[r.idx])
    ensures r.Found? ==> forall k :: 0 <= k < n && !matched[k] ==> r.d <= dist(p, correct[k])
    ensures r.Found? ==> forall k :: 0 <= k < r.idx && !matched[k] ==> r.d < dist(p, correct[k])
  {
    if n == 0 then NotFound
    else
      var best := ClosestUnmatched(p, correct, matched, dist, n - 1);
      if matched[n - 1] then best
      else
        var d := dist(p, correct[n - 1]);
        if best.NotFound? || d < best.d then Found(n - 1, d) else best
  }

  /** The correct point credited to selection `p`: the nearest unmatched one,
      when it lies within `tol`; none otherwise. */
  function Claim<P, Q>(p: P, correct: seq<Q>, matched: seq<bool>, dist: (P, Q) -> real, tol: real): (r: Option<nat>)
    requires |correct| == |matched|
    ensures r.Some? ==> r.value < |correct| && !matched[r.value] && dist(p, correct[r.value]) <= tol
    ensures r.Some? ==> forall k :: 0 <= k < |correct| && !matched[k] ==> dist(p, correct[r.value]) <= dist(p, correct[k])
    ensures r.Some? ==> forall k :: 0 <= k < r.value && !matched[k] ==> dist(p, correct[r.value]) < dist(p, correct[k])
    ensures r.None? <==> forall k :: 0 <= k < |correct| && !matched[k] ==> dist(p, correct[k]) > tol
  {
    var c := ClosestUnmatched(p, correct, matched, dist, |correct|);
    if c.Found? && c.d <= tol then Some(c.idx) else None
  }

  /** One iteration of the outer `forEach`: credit the claimed point, if any. */
  function Step<P, Q>(p: P, correct: seq<Q>, t: Tally, dist: (P, Q) -> real, tol: real): (r: Tally)
    requires |t.matched| == |correct|
    ensures |r.matched| == |correct|
    ensures r.hits == t.hits || r.hits == t.hits + 1
    ensures forall k :: 0 <= k < |correct| && t.matched[k] ==> r.matched[k]
  {
    match Claim(p, correct, t.matched, dist, tol)
    case Some(i) => Tally(t.matched[i := true], t.hits + 1)
    case None => t
  }

  /** The scorer over the selections in the order chosen, from all flags clear. */
  function Greedy<P, Q>(selected: seq<P>, correct: seq<Q>, dist: (P, Q) -> real, tol: real): (t: Tally)
    ensures |t.matched| == |correct|
    ensures t.hits == CountTrue(t.matched)
    ensures t.hits <= |selected| && t.hits <= |correct|
  {
    if selected == [] then
      var none := seq(|correct|, _ => false);
      assert CountTrue(none) == 0 by { CountTrueNone(|correct|); }
      Tally(none, 0)
    else
      var before := Greedy(selected[..|selected| - 1], correct, dist, tol);
      var after := Step(selected[|selected| - 1], correct, before, dist, tol);
      assert after.hits == CountTrue(after.matched) by {
        var c := Claim(selected[|selected| - 1], correct, before.matched, dist, tol);
        if c.Some? { CountTrueSet(before.matched, c.value); }
      }
      after
  }

  /** All flags clear: none counted. */
  lemma {:induction false} CountTrueNone(n: nat)
    ensures CountTrue(seq(n, _ => false)) == 0
  {
    if n > 0 {
      assert seq(n, _ => false)[..n - 1] == seq(n - 1, _ => false);
      CountTrueNone(n - 1);
    }
  }

  /** A selection scores exactly when some still-unmatched correct point lies
      within the tolerance; a selection that misses changes nothing. */
  lemma StepHitIff<P, Q>(p: P, correct: seq<Q>, t: Tally, dist: (P, Q) -> real, tol: real)
    requires |t.matched| == |correct|
    ensures var r := Step(p, correct, t, dist, tol);
      r.hits == t.hits + 1 <==> exists k :: 0 <= k < |correct| && !t.matched[k] && dist(p, correct[k]) <= tol
    ensures var r := Step(p, correct, t, dist, tol);
      r.hits == t.hits ==> r == t
    ensures var r := Step(p, correct, t, dist, tol);
      r.hits == t.hits + 1 ==> CountTrue(r.matched) == CountTrue(t.matched) + 1
  {
    var c := Claim(p, correct, t.matched, dist, tol);
    if c.Some? {
      CountTrueSet(t.matched, c.value);
    }
  }

  /** The scorer over one more selection is one more step. */
  lemma GreedyPrefixStep<P, Q>(selected: seq<P>, correct: seq<Q>, dist: (P, Q) -> real, tol: real, k: nat)
    requires k < |selected|
    ensures Greedy(selected[..k + 1], correct, dist, tol)
         == Step(selected[k], correct, Greedy(selected[..k], correct, dist, tol), dist, tol)
  {
    assert selected[..k + 1][..k] == selected[..k];
  }

  /** The correct point credited to the `k`-th selection, given what the
      earlier selections have taken. */
  function ClaimAt<P, Q>(selected: seq<P>, correct: seq<Q>, dist: (P, Q) -> real, tol: real, k: nat): (r: Option<nat>)
    requires k < |selected|
    ensures r.Some? ==> r.value < |correct| && dist(selected[k], correct[r.value]) <= tol
  {
    Claim(selected[k], correct, Greedy(selected[..k], correct, dist, tol).matched, dist, tol)
  }

  /** A flag, once set, stays set. */
  lemma {:induction false} MatchedMonotone<P, Q>(selected: seq<P>, correct: seq<Q>, dist: (P, Q) -> real, tol: real, a: nat, b: nat, i: nat)
    requires a <= b <= |selected| && i < |correct|
    requires Greedy(selected[..a], correct, dist, tol).matched[i]
    ensures Greedy(selected[..b], correct, dist, tol).matched[i]
    decreases b - a
  {
    if a < b {
      GreedyPrefixStep(selected, correct, dist, tol, a);
      MatchedMonotone(selected, correct, dist, tol, a + 1, b, i);
    }
  }

  /** No correct point is credited to two selections. */
  lemma ClaimsDistinct<P, Q>(selected: seq<P>, correct: seq<Q>, dist: (P, Q) -> real, tol: real, k1: nat, k2: nat)
    requires k1 < k2 < |selected|
    requires ClaimAt(selected, correct, dist, tol, k1).Some?
    requires ClaimAt(selected, correct, dist, tol, k2).Some?
    ensures ClaimAt(selected, correct, dist, tol, k1).value != ClaimAt(selected, correct, dist, tol, k2).value
  {
    var i1 := ClaimAt(selected, correct, dist, tol, k1).value;
    GreedyPrefixStep(selected, correct, dist, tol, k1);
    MatchedMonotone(selected, correct, dist, tol, k1 + 1, k2, i1);
  }

  /** A point credited to some selection is flagged from then on. */
  lemma ClaimedIsMatched<P, Q>(selected: seq<P>, correct: seq<Q>, dist: (P, Q) -> real, tol: real, k: nat, n: nat, i: nat)
    requires k < n <= |selected|
    requires ClaimAt(selected, correct, dist, tol, k) == Some(i)
    ensures i < |correct| && Greedy(selected[..n], correct, dist, tol).matched[i]
  {
    GreedyPrefixStep(selected, correct, dist, tol, k);
    MatchedMonotone(selected, correct, dist, tol, k + 1, n, i);
  }

  /** Before any selection no flag is set. */
  lemma GreedyStartsClear<P, Q>(selected: seq<P>, correct: seq<Q>, dist: (P, Q) -> real, tol: real, i: nat)
    requires i < |correct|
    ensures !Greedy(selected[..0], correct, dist, tol).matched[i]
  {
    assert selected[..0] == [];
  }

  /** A step sets no flag other than the one it claims. */
  lemma StepSetsOnlyClaim<P, Q>(p: P, correct: seq<Q>, t: Tally, dist: (P, Q) -> real, tol: real, i: nat)
    requires |t.matched| == |correct| && i < |correct|
    requires Step(p, correct, t, dist, tol).matched[i]
    requires Claim(p, correct, t.matched, dist, tol) != Some(i)
    ensures t.matched[i]
  {
  }

  /** Every flag that is set was set by the claim of some selection. */
  lemma {:induction false} MatchedIsClaimed<P, Q>(selected: seq<P>, correct: seq<Q>, dist: (P, Q) -> real, tol: real, n: nat, i: nat)
    returns (k: nat)
    requires n <= |selected| && i < |correct|
    requires Greedy(selected[..n], correct, dist, tol).matched[i]
    ensures k < n && ClaimAt(selected, correct, dist, tol, k) == Some(i)
  {
    GreedyStartsClear(selected, correct, dist, tol, i);
    if n == 0 {
      assert false;
    } else {
      GreedyPrefixStep(selected, correct, dist, tol, n - 1);
      if ClaimAt(selected, correct, dist, tol, n - 1) == Some(i) {
        k := n - 1;
      } else {
        StepSetsOnlyClaim(selected[n - 1], correct, Greedy(selected[..n - 1], correct, dist, tol), dist, tol, i);
        k := MatchedIsClaimed(selected, correct, dist, tol, n - 1, i);
      }
    }
  }

  /** The inner `forEach` (game.js:169-179): scan the correct points in order,
      skip the matched ones, keep the first of least distance. `closestIdx` is
      -1 when every point is matched; the initial `Infinity` is the "-1" case,
      which any finite distance beats. */
  method FindClosest<P, Q>(pos: P, correct: seq<Q>, correctMatched: array<bool>, dist: (P, Q) -> real)
    returns (closestIdx: int, closestDist: real)
    requires correctMatched.Length == |correct|
    ensures -1 <= closestIdx < |correct|
    ensures ClosestUnmatched(pos, correct, correctMatched[..], dist, |correct|)
         == if closestIdx == -1 then NotFound else Found(closestIdx, closestDist)
  {
    closestIdx := -1;
    closestDist := 0.0;
    var j := 0;
    while j < |correct|
      invariant 0 <= j <= |correct|
      invariant -1 <= closestIdx < |correct|
      invariant ClosestUnmatched(pos, correct, correctMatched[..], dist, j)
             == if closestIdx == -1 then NotFound else Found(closestIdx, closestDist)
    {
      if !correctMatched[j] {
        var d := dist(pos, correct[j]);
        if closestIdx == -1 || d < closestDist {
          closestDist := d;
          closestIdx := j;
        }
      }
      j := j + 1;
    }
  }

  /** What one outer iteration does, given the result of the inner scan. */
  lemma StepFromClosest<P, Q>(p: P, correct: seq<Q>, t: Tally, dist: (P, Q) -> real, tol: real, idx: int, d: real)
    requires |t.matched| == |correct| && -1 <= idx < |correct|
    requires ClosestUnmatched(p, correct, t.matched, dist, |correct|) == if idx == -1 then NotFound else Found(idx, d)
    ensures Step(p, correct, t, dist, tol) == if idx != -1 && d <= tol then Tally(t.matched[idx := true], t.hits + 1) else t
  {
  }

  /** The scorer as written (game.js:163-185): a `correctMatched` array and a
      loop over the selections in the order chosen. */
  method CountHits<P, Q>(selected: seq<P>, correct: seq<Q>, dist: (P, Q) -> real, tol: real)
    returns (hits: nat, matched: seq<bool>)
    ensures Tally(matched, hits) == Greedy(selected, correct, dist, tol)
    ensures hits <= |correct| && hits == CountTrue(matched)
  {
    var correctMatched := new bool[|correct|](_ => false);
    hits := 0;
    var i := 0;
    assert selected[..0] == [];
    assert correctMatched[..] == seq(|correct|, _ => false);
    while i < |selected|
      invariant 0 <= i <= |selected|
      invariant Tally(correctMatched[..], hits) == Greedy(selected[..i], correct, dist, tol)
    {
      var closestIdx, closestDist := FindClosest(selected[i], correct, correctMatched, dist);
      ghost var before := Tally(correctMatched[..], hits);
      GreedyPrefixStep(selected, correct, dist, tol, i);
      StepFromClosest(selected[i], correct, before, dist, tol, closestIdx, closestDist);
      if closestIdx != -1 && closestDist <= tol {
        hits := hits + 1;
        correctMatched[closestIdx] := true;
        assert correctMatched[..] == before.matched[closestIdx := true];
      }
      i := i + 1;
    }
    assert selected[..i] == selected;
    matched := correctMatched[..];
  }

  /** Distances in the example below: selection 0 is 10 from correct point 0 and
      100 from correct point 1; selection 1 is 100 from correct point 0 and
      1000 from correct point 1. */
  function OrderExampleDistance(p: nat, q: nat): real {
    if p == 0 && q == 0 then 10.0
    else if p == 0 then 100.0
    else if q == 0 then 100.0
    else 1000.0
  }

  /** The greedy scorer depends on the order of the selections: picking 0 then 1
      scores one hit, picking 1 then 0 scores two. */
  lemma OrderMatters()
    ensures Greedy<nat, nat>([0, 1], [0, 1], OrderExampleDistance, 150.0).hits == 1
    ensures Greedy<nat, nat>([1, 0], [0, 1], OrderExampleDistance, 150.0).hits == 2
  {
    FirstPickTakesPointZero(0, 10.0);
    FirstPickTakesPointZero(1, 100.0);
    SecondPick(0, 1000.0);
    SecondPick(1, 100.0);
  }

  /** From all flags clear, either selection takes correct point 0. */
  lemma FirstPickTakesPointZero(p: nat, d: real)
    requires p <= 1 && d == OrderExampleDistance(p, 0)
    ensures Greedy<nat, nat>([p], [0, 1], OrderExampleDistance, 150.0) == Tally([true, false], 1)
  {
    var correct: seq<nat> := [0, 1];
    var single: seq<nat> := [p];
    assert single[..0] == [];
    var none := Tally([false, false], 0);
    assert ClosestUnmatched<nat, nat>(p, correct, none.matched, OrderExampleDistance, 1) == Found(0, d);
    assert ClosestUnmatched<nat, nat>(p, correct, none.matched, OrderExampleDistance, 2) == Found(0, d);
  }

  /** With correct point 0 taken, the other selection `1 - q` meets point 1 at
      distance `d`; it scores only when `d` is within the tolerance. */
  lemma SecondPick(q: nat, d: real)
    requires q <= 1 && d == OrderExampleDistance(1 - q, 1)
    ensures Greedy<nat, nat>([q, 1 - q], [0, 1], OrderExampleDistance, 150.0).hits == if d <= 150.0 then 2 else 1
  {
    var correct: seq<nat> := [0, 1];
    var pair: seq<nat> := [q, 1 - q];
    var taken := Tally([true, false], 1);
    assert pair[..1] == [q];
    FirstPickTakesPointZero(q, OrderExampleDistance(q, 0));
    assert ClosestUnmatched<nat, nat>(1 - q, correct, taken.matched, OrderExampleDistance, 1) == NotFound;
    assert ClosestUnmatched<nat, nat>(1 - q, correct, taken.matched, OrderExampleDistance, 2) == Found(1, d);
  }

  /** Selecting correct points themselves, each at most once, scores one hit
      per selection when the distance is zero exactly between equal points. */
  lemma PerfectSelection<P>(selected: seq<P>, correct: seq<P>, dist: (P, P) -> real, tol: real)
    requires tol >= 0.0
    requires NoDuplicates(correct) && NoDuplicates(selected)
    requires forall k :: 0 <= k < |selected| ==> selected[k] in correct
    requires forall k, j :: 0 <= k < |selected| && 0 <= j < |correct| ==>
               dist(selected[k], correct[j]) >= 0.0 && (dist(selected[k], correct[j]) == 0.0 <==> selected[k] == correct[j])
    ensures Greedy(selected, correct, dist, tol).hits == |selected|
  {
    PerfectPrefix(selected, correct, dist, tol, |selected|);
    assert selected[..|selected|] == selected;
  }

  lemma {:induction false} PerfectPrefix<P>(selected: seq<P>, correct: seq<P>, dist: (P, P) -> real, tol: real, n: nat)
    requires tol >= 0.0
    requires NoDuplicates(correct) && NoDuplicates(selected)
    requires forall k :: 0 <= k < |selected| ==> selected[k] in correct
    requires forall k, j :: 0 <= k < |selected| && 0 <= j < |correct| ==>
               dist(selected[k], correct[j]) >= 0.0 && (dist(selected[k], correct[j]) == 0.0 <==> selected[k] == correct[j])
    requires n <= |selected|
    ensures var t := Greedy(selected[..n], correct, dist, tol);
      t.hits == n && forall j :: 0 <= j < |correct| ==> (t.matched[j] <==> correct[j] in selected[..n])
  {
    if n == 0 {
      assert selected[..0] == [];
    } else {
      PerfectPrefix(selected, correct, dist, tol, n - 1);
      PerfectPrefixStep(selected, correct, dist, tol, n);
    }
  }

  lemma PerfectPrefixStep<P>(selected: seq<P>, correct: seq<P>, dist: (P, P) -> real, tol: real, n: nat)
    requires tol >= 0.0
    requires NoDuplicates(correct) && NoDuplicates(selected)
    requires forall k :: 0 <= k < |selected| ==> selected[k] in correct
    requires forall k, j :: 0 <= k < |selected| && 0 <= j < |correct| ==>
               dist(selected[k], correct[j]) >= 0.0 && (dist(selected[k], correct[j]) == 0.0 <==> selected[k] == correct[j])
    requires 0 < n <= |selected|
    requires var t := Greedy(selected[..n - 1], correct, dist, tol);
      t.hits == n - 1 && forall j :: 0 <= j < |correct| ==> (t.matched[j] <==> correct[j] in selected[..n - 1])
    ensures var t := Greedy(selected[..n], correct, dist, tol);
      t.hits == n && forall j :: 0 <= j < |correct| ==> (t.matched[j] <==> correct[j] in selected[..n])
  {
    GreedyPrefixStep(selected, correct, dist, tol, n - 1);
    var before := Greedy(selected[..n - 1], correct, dist, tol);
    var p := selected[n - 1];
    assert p in correct;
    var i :| 0 <= i < |correct| && correct[i] == p;
    assert p !in selected[..n - 1] by {
      forall k | 0 <= k < n - 1 ensures selected[k] != p {
        assert selected[k] != selected[n - 1];
      }
    }
    assert !before.matched[i];
    assert forall j :: 0 <= j < |correct| ==>
      dist(p, correct[j]) >= 0.0 && (dist(p, correct[j]) == 0.0 <==> p == correct[j]);
    PerfectStep(p, correct, before.matched, dist, tol, i);
    var after := Greedy(selected[..n], correct, dist, tol);
    assert after == Tally(before.matched[i := true], n);
    PrefixSnoc(selected, n);
    forall j | 0 <= j < |correct|
      ensures after.matched[j] <==> correct[j] in selected[..n]
    {
      if j != i {
        assert correct[j] != p;
      }
    }
  }

  /** A selection equal to the unmatched correct point `i` claims exactly `i`. */
  lemma PerfectStep<P>(p: P, correct: seq<P>, matched: seq<bool>, dist: (P, P) -> real, tol: real, i: nat)
    requires tol >= 0.0 && NoDuplicates(correct)
    requires i < |correct| == |matched| && correct[i] == p && !matched[i]
    requires forall j :: 0 <= j < |correct| ==>
               dist(p, correct[j]) >= 0.0 && (dist(p, correct[j]) == 0.0 <==> p == correct[j])
    ensures Claim(p, correct, matched, dist, tol) == Some(i)
  {
    var c := Claim(p, correct, matched, dist, tol);
    assert dist(p, correct[i]) == 0.0;
    assert c.Some?;
    assert dist(p, correct[c.value]) == 0.0;
  }

  /** A prefix of length n is the one of length n - 1 plus element n - 1. */
  lemma PrefixSnoc<T>(s: seq<T>, n: nat)
    requires 0 < n <= |s|
    ensures s[..n] == s[..n - 1] + [s[n - 1]]
  {
  }
}
