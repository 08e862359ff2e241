/** The normalised forwarding probability of calculateForwardingProbability:
    the weight ALPHA * pheromone + BETA * heuristic of the candidate next hop,
    divided by the sum of the same weight over every neighbour that has an
    entry in the destination's row (0 when that sum is not positive). */
module Probability {
  import opened Pheromone

  /** heuristicTable.getOrDefault(n, 0.5). */
  function HeuristicOf(h: map<Host, real>, n: Host): real
  {
    if n in h then h[n] else 0.5
  }

  /** The roulette-wheel weight of neighbour n for destination dest. */
  function Weight(t: PheromoneMap, h: map<Host, real>, dest: Host): Host -> real
  {
    (n: Host) => ALPHA * Lookup(t, dest, n) + BETA * HeuristicOf(h, n)
  }

  /** The sum of f over a finite set of hosts, in no particular order. */
  ghost function Sum(keys: set<Host>, f: Host -> real): real
    decreases keys
  {
    if keys == {} then 0.0 else var n :| n in keys; f(n) + Sum(keys - {n}, f)
  }

  /** The sum does not depend on the order in which the hosts are taken. */
  lemma {:induction false} SumRemove(keys: set<Host>, f: Host -> real, x: Host)
    requires x in keys
    ensures Sum(keys, f) == f(x) + Sum(keys - {x}, f)
    decreases keys
  {
    var y :| y in keys && Sum(keys, f) == f(y) + Sum(keys - {y}, f);
    if y != x {
      SumRemove(keys - {y}, f, x);
      SumRemove(keys - {x}, f, y);
      assert keys - {y} - {x} == keys - {x} - {y};
    }
  }

  lemma {:induction false} SumNonNegative(keys: set<Host>, f: Host -> real)
    requires forall n :: n in keys ==> f(n) >= 0.0
    ensures Sum(keys, f) >= 0.0
    decreases keys
  {
    if keys != {} {
      var y :| y in keys && Sum(keys, f) == f(y) + Sum(keys - {y}, f);
      SumNonNegative(keys - {y}, f);
    }
  }

  /** With non-negative terms, the sum is at least each of its terms. */
  lemma SumAtLeastTerm(keys: set<Host>, f: Host -> real, x: Host)
    requires x in keys
    requires forall n :: n in keys ==> f(n) >= 0.0
    ensures Sum(keys, f) >= f(x)
  {
    SumRemove(keys, f, x);
    SumNonNegative(keys - {x}, f);
  }

  /** A non-negative part of a positive whole, divided by it, lies in [0, 1]. */
  lemma DivideAtMostOne(a: real, b: real)
    requires 0.0 <= a <= b && b > 0.0
    ensures 0.0 <= a / b <= 1.0
  {
    assert a / b * b == a;
  }

  lemma SelfDivide(c: real)
    requires c != 0.0
    ensures c / c == 1.0
  {
  }

  lemma DivisionDistributes(a: real, b: real, c: real)
    requires c != 0.0
    ensures a / c + b / c == (a + b) / c
  {
  }

  /** Dividing every term by c divides the sum by c. */
  lemma {:induction false} SumScaled(keys: set<Host>, f: Host -> real, g: Host -> real, c: real)
    requires c != 0.0
    requires forall n :: n in keys ==> g(n) == f(n) / c
    ensures Sum(keys, g) == Sum(keys, f) / c
    decreases keys
  {
    if keys != {} {
      var x :| x in keys;
      var rest := keys - {x};
      SumRemove(keys, f, x);
      SumRemove(keys, g, x);
      SumScaled(rest, f, g, c);
      DivisionDistributes(f(x), Sum(rest, f), c);
    } else {
      assert Sum(keys, g) == 0.0 && Sum(keys, f) == 0.0;
    }
  }

  /** The denominator of calculateForwardingProbability: 0 when the destination has no row. */
  ghost function Denominator(t: PheromoneMap, h: map<Host, real>, dest: Host): (d: real)
    ensures NonNegativeScores(t, h) ==> d >= 0.0
  {
    if dest in t then
      if NonNegativeScores(t, h) then
        WeightsNonNegative(t, h, dest);
        SumNonNegative(t[dest].Keys, Weight(t, h, dest));
        Sum(t[dest].Keys, Weight(t, h, dest))
      else
        Sum(t[dest].Keys, Weight(t, h, dest))
    else 0.0
  }

  /** calculateForwardingProbability(dest, hop). */
  ghost function ForwardingProbability(t: PheromoneMap, h: map<Host, real>, dest: Host, hop: Host): (p: real)
    ensures NonNegativeScores(t, h) ==> p >= 0.0
  {
    var denominator := Denominator(t, h, dest);
    if denominator > 0.0 then Weight(t, h, dest)(hop) / denominator else 0.0
  }

  /** Every stored trail strength and every stored heuristic is non-negative. */
  ghost predicate NonNegativeScores(t: PheromoneMap, h: map<Host, real>)
  {
    && (forall d, n :: d in t && n in t[d] ==> t[d][n] >= 0.0)
    && (forall n :: n in h ==> h[n] >= 0.0)
  }

  /** A destination without entries yields probability 0 ("do not forward into the unknown"). */
  lemma ProbabilityWithoutEntries(t: PheromoneMap, h: map<Host, real>, dest: Host, hop: Host)
    requires dest !in t || t[dest] == map[]
    ensures ForwardingProbability(t, h, dest, hop) == 0.0
  {
  }

  lemma WeightsNonNegative(t: PheromoneMap, h: map<Host, real>, dest: Host)
    requires NonNegativeScores(t, h)
    requires dest in t
    ensures forall n :: n in t[dest].Keys ==> Weight(t, h, dest)(n) >= 0.0
  {
  }

  /** For a hop that has an entry in the destination's row, the probability lies in [0, 1]. */
  lemma ProbabilityBounds(t: PheromoneMap, h: map<Host, real>, dest: Host, hop: Host)
    requires NonNegativeScores(t, h)
    requires dest in t && hop in t[dest]
    ensures 0.0 <= ForwardingProbability(t, h, dest, hop) <= 1.0
  {
    WeightsNonNegative(t, h, dest);
    SumAtLeastTerm(t[dest].Keys, Weight(t, h, dest), hop);
    var denominator := Denominator(t, h, dest);
    if denominator > 0.0 {
      DivideAtMostOne(Weight(t, h, dest)(hop), denominator);
    }
  }

  /** Under the floor invariant a non-empty row has a positive denominator. */
  lemma DenominatorPositive(t: PheromoneMap, h: map<Host, real>, dest: Host)
    requires AboveFloor(t) && (forall n :: n in h ==> h[n] >= 0.0)
    requires dest in t && t[dest] != map[]
    ensures Denominator(t, h, dest) > 0.0
  {
    var x :| x in t[dest];
    WeightsNonNegative(t, h, dest);
    SumAtLeastTerm(t[dest].Keys, Weight(t, h, dest), x);
  }

  /** The forwarding probability of every candidate hop, for one destination. */
  ghost function Probabilities(t: PheromoneMap, h: map<Host, real>, dest: Host): Host -> real
  {
    (n: Host) => ForwardingProbability(t, h, dest, n)
  }

  /** Over the neighbours of a non-empty row, the probabilities sum to 1. */
  lemma ProbabilitiesSumToOne(t: PheromoneMap, h: map<Host, real>, dest: Host)
    requires AboveFloor(t) && (forall n :: n in h ==> h[n] >= 0.0)
    requires dest in t && t[dest] != map[]
    ensures Sum(t[dest].Keys, Probabilities(t, h, dest)) == 1.0
  {
    DenominatorPositive(t, h, dest);
    var denominator := Denominator(t, h, dest);
    var weight := Weight(t, h, dest);
    assert forall n :: n in t[dest].Keys ==> Probabilities(t, h, dest)(n) == weight(n) / denominator;
    SumScaled(t[dest].Keys, weight, Probabilities(t, h, dest), denominator);
    assert Sum(t[dest].Keys, weight) == denominator;
    SelfDivide(denominator);
  }

  /** Within one destination, a hop with the larger weight has the larger probability. */
  lemma ProbabilityOrder(t: PheromoneMap, h: map<Host, real>, dest: Host, x: Host, y: Host)
    requires AboveFloor(t) && (forall n :: n in h ==> h[n] >= 0.0)
    requires dest in t && t[dest] != map[]
    ensures ForwardingProbability(t, h, dest, x) < ForwardingProbability(t, h, dest, y)
        <==> Weight(t, h, dest)(x) < Weight(t, h, dest)(y)
  {
    DenominatorPositive(t, h, dest);
    DivideOrder(Weight(t, h, dest)(x), Weight(t, h, dest)(y), Denominator(t, h, dest));
  }

  /** Division by a positive number keeps the strict order. */
  lemma DivideOrder(a: real, b: real, c: real)
    requires c > 0.0
    ensures a / c < b / c <==> a < b
  {
    assert a / c * c == a;
    assert b / c * c == b;
  }

  /** Two neighbours X (pheromone 0.1) and Y (pheromone 0.9) with the default
      heuristic 0.5: their weights 0.26 and 0.74 sum to 1, so these are also
      their probabilities. */
  lemma TwoNeighbourScenario(dest: Host, x: Host, y: Host)
    requires x != y
    ensures ForwardingProbability(map[dest := map[x := 0.1, y := 0.9]], map[], dest, x) == 0.26
    ensures ForwardingProbability(map[dest := map[x := 0.1, y := 0.9]], map[], dest, y) == 0.74
  {
    var t: PheromoneMap := map[dest := map[x := 0.1, y := 0.9]];
    var w := Weight(t, map[], dest);
    assert t[dest].Keys == {x, y};
    SumRemove({x, y}, w, x);
    assert {x, y} - {x} == {y};
    SumRemove({y}, w, y);
    assert {y} - {y} == {};
    assert Denominator(t, map[], dest) == 1.0;
  }

  /** A hop without an entry in the destination's row is weighted with the floor
      in the numerator but is absent from the denominator, so the "probability"
      can exceed 1: one neighbour x at the floor with the default heuristic, and
      a candidate y carrying the heuristic a contact gives it. */
  lemma ProbabilityCanExceedOne(dest: Host, x: Host, y: Host)
    requires x != y
    ensures ForwardingProbability(map[dest := map[x := INITIAL_PHEROMONE]], map[y := PeerHeuristic()], dest, y) > 1.0
  {
    var t: PheromoneMap := map[dest := map[x := INITIAL_PHEROMONE]];
    var h := map[y := PeerHeuristic()];
    var w := Weight(t, h, dest);
    assert t[dest].Keys == {x};
    SumRemove({x}, w, x);
    assert {x} - {x} == {};
    assert Denominator(t, h, dest) == 0.26;
  }
}
