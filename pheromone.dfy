/** The pheromone table of AntColonyRoutingProtocol (destination -> neighbour
    -> trail strength) and the three ways the router changes it: the lazy
    insertion on contact, the multiplicative evaporation with a floor clamp,
    and the deposits of the backward ant.  Doubles are modelled as reals. */
module Pheromone {
  import opened Paths

  /** A host of the delay-tolerant network; only identity matters. */
  type Host(==, !new)

  /** Destination -> neighbour -> trail strength. */
  type PheromoneMap = map<Host, map<Host, real>>

  const INITIAL_PHEROMONE: real := 0.1
  const GAMMA: real := 100.0
  const RHO: real := 0.2
  const ALPHA: real := 0.6
  const BETA: real := 0.4
  const M: real := 0.5
  const N: real := 0.5

  /** The heuristic formula M * connectivityChangeRate + N * 1/(load + 0.1). */
  function HeuristicScore(connectivityChangeRate: real, load: real): (score: real)
    requires load + 0.1 != 0.0
    ensures connectivityChangeRate >= 0.0 && load + 0.1 > 0.0 ==> score > 0.0
  {
    ReciprocalSign(load + 0.1);
    M * connectivityChangeRate + N * (1.0 / (load + 0.1))
  }

  /** The reciprocal of a positive number is positive. */
  lemma ReciprocalSign(x: real)
    requires x != 0.0
    ensures x > 0.0 ==> 1.0 / x > 0.0
  {
    assert (1.0 / x) * x == 1.0;
  }

  /** The score every contacted peer receives: both statistics are fixed at 0.5. */
  function PeerHeuristic(): (h: real)
    ensures h == 13.0 / 12.0
  {
    HeuristicScore(0.5, 0.5)
  }

  /** table.get(d).getOrDefault(n, INITIAL_PHEROMONE), absent rows included. */
  function Lookup(t: PheromoneMap, d: Host, n: Host): (v: real)
    ensures AboveFloor(t) ==> v >= INITIAL_PHEROMONE
    ensures d in t && n in t[d] ==> v == t[d][n]
  {
    if d in t && n in t[d] then t[d][n] else INITIAL_PHEROMONE
  }

  /** Every stored trail strength is at least the floor. */
  ghost predicate AboveFloor(t: PheromoneMap)
  {
    forall d, n :: d in t && n in t[d] ==> t[d][n] >= INITIAL_PHEROMONE
  }

  // ---------------------------------------------------------------- contact

  /** Map.putIfAbsent on a row. */
  function PutIfAbsent(row: map<Host, real>, peer: Host, v: real): map<Host, real>
  {
    if peer in row then row else row[peer := v]
  }

  /** The table after connectionUp(_, peer): `peer` becomes a destination with an
      empty row if it was none, and every row gains `peer` at the floor unless
      it already had an entry for it. */
  function WithPeer(t: PheromoneMap, peer: Host): (r: PheromoneMap)
    ensures r.Keys == t.Keys + {peer}
    ensures forall d :: d in r ==> peer in r[d]
    ensures forall d, n :: d in t && n in t[d] ==> n in r[d] && r[d][n] == t[d][n]
    ensures forall d, n :: d in r && n in r[d] && n != peer ==> d in t && n in t[d]
    ensures forall d :: d in r && !(d in t && peer in t[d]) ==> r[d][peer] == INITIAL_PHEROMONE
    ensures AboveFloor(t) ==> AboveFloor(r)
  {
    var withRow := if peer in t then t else t[peer := map[]];
    map d | d in withRow :: PutIfAbsent(withRow[d], peer, INITIAL_PHEROMONE)
  }

  /** A second contact with the same peer changes nothing. */
  lemma WithPeerIdempotent(t: PheromoneMap, peer: Host)
    ensures WithPeer(WithPeer(t, peer), peer) == WithPeer(t, peer)
  {
    var once := WithPeer(t, peer);
    var twice := WithPeer(once, peer);
    forall d | d in once ensures twice[d] == once[d] {
      assert peer in once[d];
      forall n | n in twice[d] ensures n in once[d] && twice[d][n] == once[d][n] {
        if n != peer {
          assert d in once && n in once[d];
        }
      }
    }
  }

  // ------------------------------------------------------------ evaporation

  /** One evaporation step of a trail strength: max(v * (1 - RHO), floor). */
  function Evaporated(v: real): (r: real)
    ensures r >= INITIAL_PHEROMONE
    ensures r == INITIAL_PHEROMONE || r == v * (1.0 - RHO)
    ensures r >= v * (1.0 - RHO)
  {
    var newValue := v * (1.0 - RHO);
    if newValue > INITIAL_PHEROMONE then newValue else INITIAL_PHEROMONE
  }

  /** A value at or above the floor never grows, and one above it strictly shrinks. */
  lemma EvaporationContracts(v: real)
    requires v >= INITIAL_PHEROMONE
    ensures Evaporated(v) <= v
    ensures v > INITIAL_PHEROMONE ==> Evaporated(v) < v
    ensures v == INITIAL_PHEROMONE ==> Evaporated(v) == v
  {
  }

  function EvaporatedRow(row: map<Host, real>): map<Host, real>
  {
    map n | n in row :: Evaporated(row[n])
  }

  /** The table after evaporatePheromones. */
  function EvaporateAll(t: PheromoneMap): (r: PheromoneMap)
    ensures r.Keys == t.Keys
    ensures forall d :: d in t ==> r[d].Keys == t[d].Keys
    ensures AboveFloor(r)
  {
    map d | d in t :: EvaporatedRow(t[d])
  }

  /** On a table that respects the floor, evaporation never increases an
      entry and strictly decreases every entry above the floor. */
  lemma EvaporateAllContracts(t: PheromoneMap)
    requires AboveFloor(t)
    ensures forall d, n :: d in t && n in t[d] ==> EvaporateAll(t)[d][n] <= t[d][n]
    ensures forall d, n :: d in t && n in t[d] && t[d][n] > INITIAL_PHEROMONE ==>
              EvaporateAll(t)[d][n] < t[d][n]
  {
    forall d, n | d in t && n in t[d]
      ensures EvaporateAll(t)[d][n] <= t[d][n]
      ensures t[d][n] > INITIAL_PHEROMONE ==> EvaporateAll(t)[d][n] < t[d][n]
    {
      EvaporationContracts(t[d][n]);
    }
  }

  // ---------------------------------------------------------- backward ant

  /** deltaTau = GAMMA * (1 / (size - i)) for the pair at index i of the reversed path. */
  function Delta(size: nat, i: nat): (delta: real)
    requires i < size
    ensures 0.0 < delta <= GAMMA
  {
    GAMMA * (1.0 / (size - i) as real)
  }

  /** Deposits grow along the reversed path: the pair nearest the original
      source receives the most. */
  lemma DeltaIncreasing(size: nat, i: nat, j: nat)
    requires i < j < size
    ensures 0.0 < Delta(size, i) < Delta(size, j)
  {
    var a, b := (size - i) as real, (size - j) as real;
    assert a > b >= 1.0;
    ReciprocalDecreasing(a, b);
  }

  /** 1/a < 1/b for a > b > 0. */
  lemma ReciprocalDecreasing(a: real, b: real)
    requires a > b > 0.0
    ensures 1.0 / a < 1.0 / b
  {
    var x, y := 1.0 / a, 1.0 / b;
    assert x * a == 1.0;
    assert y * b == 1.0;
    assert x > 0.0;
    assert x * b < x * a;
  }

  /** One deposit: table[from][to] := getOrDefault(to, floor) + delta, creating the row if needed. */
  function Deposit(t: PheromoneMap, from: Host, to: Host, delta: real): (r: PheromoneMap)
    ensures r.Keys == t.Keys + {from}
    ensures to in r[from] && r[from][to] == Lookup(t, from, to) + delta
  {
    var row := if from in t then t[from] else map[];
    t[from := row[to := (if to in row then row[to] else INITIAL_PHEROMONE) + delta]]
  }

  /** A deposit touches one entry: every other pair keeps its presence and its value. */
  lemma DepositElsewhere(t: PheromoneMap, from: Host, to: Host, delta: real, d: Host, n: Host)
    requires d != from || n != to
    ensures (d in Deposit(t, from, to, delta) && n in Deposit(t, from, to, delta)[d]) <==> (d in t && n in t[d])
    ensures Lookup(Deposit(t, from, to, delta), d, n) == Lookup(t, d, n)
  {
  }

  /** A non-negative deposit removes and lowers nothing and keeps the floor. */
  lemma DepositMonotone(t: PheromoneMap, from: Host, to: Host, delta: real)
    requires delta >= 0.0
    ensures forall d, n :: d in t && n in t[d] ==>
              n in Deposit(t, from, to, delta)[d] && Deposit(t, from, to, delta)[d][n] >= t[d][n]
    ensures AboveFloor(t) ==> AboveFloor(Deposit(t, from, to, delta))
  {
  }

  /** The table after the first k deposits of the backward ant over the reversed path `rev`. */
  function ReinforcePrefix(t: PheromoneMap, rev: seq<Host>, k: nat): (r: PheromoneMap)
    requires k == 0 || k < |rev|
    ensures t.Keys <= r.Keys
  {
    if k == 0 then t
    else Deposit(ReinforcePrefix(t, rev, k - 1), rev[k - 1], rev[k], Delta(|rev|, k - 1))
  }

  /** The table after createBackwardAnt has walked the whole reversed path `rev`. */
  function Reinforce(t: PheromoneMap, rev: seq<Host>): (r: PheromoneMap)
    ensures t.Keys <= r.Keys
    ensures AboveFloor(t) ==> AboveFloor(r)
  {
    if |rev| == 0 then t
    else
      ReinforcePrefixMonotone(t, rev, |rev| - 1);
      ReinforcePrefix(t, rev, |rev| - 1)
  }

  /** (d, n) is a consecutive pair of the reversed path. */
  ghost predicate IsEdge(rev: seq<Host>, d: Host, n: Host)
  {
    exists i :: 0 <= i < |rev| - 1 && rev[i] == d && rev[i + 1] == n
  }

  /** Deposits never lower an entry, never remove one, and keep the floor. */
  lemma {:induction false} ReinforcePrefixMonotone(t: PheromoneMap, rev: seq<Host>, k: nat)
    requires k == 0 || k < |rev|
    ensures forall d, n :: d in t && n in t[d] ==>
              n in ReinforcePrefix(t, rev, k)[d] && ReinforcePrefix(t, rev, k)[d][n] >= t[d][n]
    ensures AboveFloor(t) ==> AboveFloor(ReinforcePrefix(t, rev, k))
  {
    if k > 0 {
      var prev := ReinforcePrefix(t, rev, k - 1);
      var r := Deposit(prev, rev[k - 1], rev[k], Delta(|rev|, k - 1));
      assert ReinforcePrefix(t, rev, k) == r;
      ReinforcePrefixMonotone(t, rev, k - 1);
      DepositMonotone(prev, rev[k - 1], rev[k], Delta(|rev|, k - 1));
    }
  }

  /** An entry that is not one of the first k pairs keeps its presence and value. */
  lemma {:induction false} ReinforcePrefixUntouched(t: PheromoneMap, rev: seq<Host>, k: nat, d: Host, n: Host)
    requires k == 0 || k < |rev|
    requires forall i :: 0 <= i < k ==> rev[i] != d || rev[i + 1] != n
    ensures (d in ReinforcePrefix(t, rev, k) && n in ReinforcePrefix(t, rev, k)[d]) <==> (d in t && n in t[d])
    ensures Lookup(ReinforcePrefix(t, rev, k), d, n) == Lookup(t, d, n)
  {
    if k > 0 {
      ReinforcePrefixUntouched(t, rev, k - 1, d, n);
      DepositElsewhere(ReinforcePrefix(t, rev, k - 1), rev[k - 1], rev[k], Delta(|rev|, k - 1), d, n);
    }
  }

  /** On a duplicate-free reversed path, pair i gains exactly its own deposit. */
  lemma {:induction false} ReinforcePrefixEdge(t: PheromoneMap, rev: seq<Host>, k: nat, i: nat)
    requires NoDup(rev) && i < k < |rev|
    ensures rev[i] in ReinforcePrefix(t, rev, k) && rev[i + 1] in ReinforcePrefix(t, rev, k)[rev[i]]
    ensures ReinforcePrefix(t, rev, k)[rev[i]][rev[i + 1]] == Lookup(t, rev[i], rev[i + 1]) + Delta(|rev|, i)
  {
    if i == k - 1 {
      ReinforcePrefixUntouched(t, rev, k - 1, rev[i], rev[i + 1]);
    } else {
      ReinforcePrefixEdge(t, rev, k - 1, i);
      var prev := ReinforcePrefix(t, rev, k - 1);
      assert rev[k - 1] != rev[i];
      DepositElsewhere(prev, rev[k - 1], rev[k], Delta(|rev|, k - 1), rev[i], rev[i + 1]);
      assert Lookup(prev, rev[i], rev[i + 1]) == prev[rev[i]][rev[i + 1]];
    }
  }

  /** createBackwardAnt over a duplicate-free reversed path `rev`: pair (rev[i], rev[i+1])
      ends at its old value (or the floor) plus GAMMA / (|rev| - i). */
  lemma ReinforceEdge(t: PheromoneMap, rev: seq<Host>, i: nat)
    requires NoDup(rev) && i + 1 < |rev|
    ensures rev[i] in Reinforce(t, rev) && rev[i + 1] in Reinforce(t, rev)[rev[i]]
    ensures Reinforce(t, rev)[rev[i]][rev[i + 1]] == Lookup(t, rev[i], rev[i + 1]) + Delta(|rev|, i)
  {
    ReinforcePrefixEdge(t, rev, |rev| - 1, i);
  }

  /** An entry that is not a consecutive pair of the reversed path keeps its
      presence and its value. */
  lemma ReinforceElsewhere(t: PheromoneMap, rev: seq<Host>, d: Host, n: Host)
    requires !IsEdge(rev, d, n)
    ensures (d in Reinforce(t, rev) && n in Reinforce(t, rev)[d]) <==> (d in t && n in t[d])
    ensures Lookup(Reinforce(t, rev), d, n) == Lookup(t, d, n)
  {
    if |rev| > 0 {
      ReinforcePrefixUntouched(t, rev, |rev| - 1, d, n);
    }
  }

  /** The backward ant never lowers or removes an entry and keeps the floor. */
  lemma ReinforceMonotone(t: PheromoneMap, rev: seq<Host>)
    ensures forall d, n :: d in t && n in t[d] ==>
              d in Reinforce(t, rev) && n in Reinforce(t, rev)[d] && Reinforce(t, rev)[d][n] >= t[d][n]
    ensures AboveFloor(t) ==> AboveFloor(Reinforce(t, rev))
  {
    if |rev| > 0 {
      ReinforcePrefixMonotone(t, rev, |rev| - 1);
    }
  }

  /** The worked example: the ant path [a, b, c, d] is reversed to [d, c, b, a]
      and deposits 100/4 on (d, c), 100/3 on (c, b) and 100/2 on (b, a). */
  lemma BackwardAntExample(t: PheromoneMap, a: Host, b: Host, c: Host, d: Host)
    requires a != b && a != c && a != d && b != c && b != d && c != d
    ensures Reverse([a, b, c, d]) == [d, c, b, a]
    ensures Lookup(Reinforce(t, [d, c, b, a]), d, c) == Lookup(t, d, c) + 25.0
    ensures Lookup(Reinforce(t, [d, c, b, a]), c, b) == Lookup(t, c, b) + 100.0 / 3.0
    ensures Lookup(Reinforce(t, [d, c, b, a]), b, a) == Lookup(t, b, a) + 50.0
  {
    var rev := [d, c, b, a];
    assert NoDup(rev);
    ReinforceEdge(t, rev, 0);
    ReinforceEdge(t, rev, 1);
    ReinforceEdge(t, rev, 2);
  }
}
