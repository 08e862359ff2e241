/** The forward ant of AntColonyRoutingProtocol as a pure specification.

    processForwardAnt is a recursive depth-first walk over the live contact
    graph.  All its frames share ONE path list, which is never popped on
    backtracking, so the "path" is the order in which the walk enters hosts.
    When the walk enters the destination, createBackwardAnt reverses that
    same list in place and deposits pheromone along it, and the enclosing
    frames go on appending to the reversed list.  Explore and ExploreAll
    follow that behaviour step for step; the class in router.dfy is proved
    to compute exactly them. */
module AntWalk {
  import opened Paths
  import opened Pheromone

  /** The live contact graph: the hosts each host is connected to, in the
      order getConnections lists them. */
  type Graph = map<Host, seq<Host>>

  /** Every host a connection leads to has a connection list of its own. */
  ghost predicate Closed(g: Graph)
  {
    forall u, v :: u in g && v in g[u] ==> v in g
  }

  /** currentHost.getConnections(), mapped to the other end of each connection. */
  function Connections(g: Graph, u: Host): seq<Host>
  {
    if u in g then g[u] else []
  }

  /** Everything one forward ant changes: its shared path list, the pheromone
      table the backward ant deposits into, and whether the ant is delivered. */
  datatype WalkState = WalkState(path: seq<Host>, table: PheromoneMap, delivered: bool)

  /** processForwardAnt(antId, current, _): the cycle guard, the append, the
      destination test and the loop over the current host's connections. */
  function Explore(g: Graph, dest: Host, st: WalkState, current: Host): (r: WalkState)
    requires Closed(g)
    ensures Elems(st.path) + {current} <= Elems(r.path)
    ensures Elems(r.path) <= Elems(st.path) + g.Keys + {current}
    ensures NoDup(st.path) ==> NoDup(r.path)
    ensures AboveFloor(st.table) ==> AboveFloor(r.table)
    ensures st.delivered ==> r.delivered
    decreases g.Keys + {current} - Elems(st.path), 0, 0
  {
    if current in st.path then st
    else
      var path := st.path + [current];
      AppendFresh(st.path, current);
      if current == dest then
        var rev := Reverse(path);
        ReverseElems(path);
        ReinforceMonotone(st.table, rev);
        WalkState(rev, Reinforce(st.table, rev), true)
      else
        ExploreAll(g, dest, st.(path := path), Connections(g, current))
  }

  /** The for-loop of processForwardAnt over the remaining connections `ns`:
      each neighbour not yet on the (shared) path is explored in turn. */
  function ExploreAll(g: Graph, dest: Host, st: WalkState, ns: seq<Host>): (r: WalkState)
    requires Closed(g)
    requires forall v :: v in ns ==> v in g
    ensures Elems(st.path) <= Elems(r.path)
    ensures Elems(r.path) <= Elems(st.path) + g.Keys
    ensures NoDup(st.path) ==> NoDup(r.path)
    ensures AboveFloor(st.table) ==> AboveFloor(r.table)
    ensures st.delivered ==> r.delivered
    decreases g.Keys - Elems(st.path), 1, |ns|
  {
    if ns == [] then st
    else
      var next := if ns[0] in st.path then st else Explore(g, dest, st, ns[0]);
      ExploreAll(g, dest, next, ns[1..])
  }

  /** Unfolding helper for the methods' proofs: one step of Explore on a
      host already on the path. */
  lemma ExploreRevisit(g: Graph, dest: Host, st: WalkState, current: Host)
    requires Closed(g) && current in st.path
    ensures Explore(g, dest, st, current) == st
  {
  }

  /** Unfolding helper for the methods' proofs: one step of Explore on
      the destination. */
  lemma ExploreArrive(g: Graph, dest: Host, st: WalkState, current: Host)
    requires Closed(g) && current !in st.path && current == dest
    ensures Explore(g, dest, st, current)
         == WalkState(Reverse(st.path + [current]), Reinforce(st.table, Reverse(st.path + [current])), true)
  {
  }

  /** Unfolding helper for the methods' proofs: one step of Explore on a
      host that is neither on the path nor the destination. */
  lemma ExploreEnter(g: Graph, dest: Host, st: WalkState, current: Host)
    requires Closed(g) && current !in st.path && current != dest
    ensures current in g ==> forall v :: v in Connections(g, current) ==> v in g
    ensures Explore(g, dest, st, current)
         == ExploreAll(g, dest, st.(path := st.path + [current]), Connections(g, current))
  {
  }

  /** Unfolding helper for the methods' proofs: one round of ExploreAll. */
  lemma ExploreAllStep(g: Graph, dest: Host, st: WalkState, ns: seq<Host>)
    requires Closed(g) && ns != [] && forall v :: v in ns ==> v in g
    ensures ExploreAll(g, dest, st, ns)
         == ExploreAll(g, dest, if ns[0] in st.path then st else Explore(g, dest, st, ns[0]), ns[1..])
  {
  }

  /** Until the destination is entered, the walk only appends to the path and
      touches neither the pheromone table nor the delivered flag. */
  lemma {:induction false} ExploreOnlyAppends(g: Graph, dest: Host, st: WalkState, current: Host)
    requires Closed(g)
    requires dest in st.path || dest !in Explore(g, dest, st, current).path
    ensures st.path <= Explore(g, dest, st, current).path
    ensures Explore(g, dest, st, current).table == st.table
    ensures Explore(g, dest, st, current).delivered == st.delivered
    decreases g.Keys + {current} - Elems(st.path), 0, 0
  {
    if current !in st.path {
      var path := st.path + [current];
      AppendFresh(st.path, current);
      if current != dest {
        ExploreAllOnlyAppends(g, dest, st.(path := path), Connections(g, current));
      }
    }
  }

  lemma {:induction false} ExploreAllOnlyAppends(g: Graph, dest: Host, st: WalkState, ns: seq<Host>)
    requires Closed(g)
    requires forall v :: v in ns ==> v in g
    requires dest in st.path || dest !in ExploreAll(g, dest, st, ns).path
    ensures st.path <= ExploreAll(g, dest, st, ns).path
    ensures ExploreAll(g, dest, st, ns).table == st.table
    ensures ExploreAll(g, dest, st, ns).delivered == st.delivered
    decreases g.Keys - Elems(st.path), 1, |ns|
  {
    if ns != [] {
      var next := if ns[0] in st.path then st else Explore(g, dest, st, ns[0]);
      var r := ExploreAll(g, dest, next, ns[1..]);
      assert dest in next.path ==> dest in Elems(r.path);
      if ns[0] !in st.path {
        ExploreOnlyAppends(g, dest, st, ns[0]);
      }
      ExploreAllOnlyAppends(g, dest, next, ns[1..]);
    }
  }

  /** r's table is st's table reinforced once along the reversed path r.path[..k],
      which starts at the destination and reads st's path backwards. */
  ghost predicate ArrivedAlong(st: WalkState, r: WalkState, k: int)
  {
    && 1 <= k <= |r.path|
    && r.table == Reinforce(st.table, r.path[..k])
    && st.path <= Reverse(r.path[..k])
  }

  /** The step that enters the destination reverses the path and reinforces along it. */
  lemma ArrivalStep(g: Graph, dest: Host, st: WalkState, current: Host)
    requires Closed(g)
    requires current == dest && current !in st.path
    ensures Explore(g, dest, st, current).delivered
    ensures Explore(g, dest, st, current).path[0] == dest
    ensures ArrivedAlong(st, Explore(g, dest, st, current), |st.path| + 1)
  {
    var path := st.path + [current];
    var rev := Reverse(path);
    assert Explore(g, dest, st, current) == WalkState(rev, Reinforce(st.table, rev), true);
    ReverseReverse(path);
    assert rev[..|rev|] == rev;
  }

  /** Once delivered, the rest of the loop keeps the arrival intact. */
  lemma ArrivedBefore(g: Graph, dest: Host, st: WalkState, next: WalkState, ns: seq<Host>, k: int)
    requires Closed(g)
    requires forall v :: v in ns ==> v in g
    requires next.delivered && |next.path| > 0 && next.path[0] == dest && ArrivedAlong(st, next, k)
    ensures ExploreAll(g, dest, next, ns).delivered
    ensures ExploreAll(g, dest, next, ns).path[0] == dest
    ensures ArrivedAlong(st, ExploreAll(g, dest, next, ns), k)
  {
    var r := ExploreAll(g, dest, next, ns);
    assert dest in next.path;
    ExploreAllOnlyAppends(g, dest, next, ns);
    assert r.path[..k] == next.path[..k];
  }

  /** An arrival along a path that extends st's path is also an arrival for st. */
  lemma ArrivedAlongPrefix(st: WalkState, next: WalkState, r: WalkState, k: int)
    requires st.path <= next.path && next.table == st.table
    requires ArrivedAlong(next, r, k)
    ensures ArrivedAlong(st, r, k)
  {
  }

  /** The arrival of a forward ant.  When a walk that had not yet seen the
      destination enters it, the ant is delivered and the final table is the
      old table reinforced exactly once, along the path as it stood on
      arrival, reversed: that reversed path is a prefix of the final path,
      starts at the destination, and reads the old path backwards. */
  lemma {:induction false} ExploreArrival(g: Graph, dest: Host, st: WalkState, current: Host)
    requires Closed(g)
    requires dest !in st.path && dest in Explore(g, dest, st, current).path
    ensures var r := Explore(g, dest, st, current);
      && r.delivered
      && r.path[0] == dest
      && exists k :: ArrivedAlong(st, r, k)
    decreases g.Keys + {current} - Elems(st.path), 0, 0
  {
    var r := Explore(g, dest, st, current);
    var path := st.path + [current];
    AppendFresh(st.path, current);
    if current == dest {
      ArrivalStep(g, dest, st, current);
    } else {
      ExploreAllArrival(g, dest, st.(path := path), Connections(g, current));
      var k :| ArrivedAlong(st.(path := path), r, k);
      ArrivedAlongPrefix(st, st.(path := path), r, k);
    }
  }

  lemma {:induction false} ExploreAllArrival(g: Graph, dest: Host, st: WalkState, ns: seq<Host>)
    requires Closed(g)
    requires forall v :: v in ns ==> v in g
    requires dest !in st.path && dest in ExploreAll(g, dest, st, ns).path
    ensures var r := ExploreAll(g, dest, st, ns);
      && r.delivered
      && r.path[0] == dest
      && exists k :: ArrivedAlong(st, r, k)
    decreases g.Keys - Elems(st.path), 1, |ns|
  {
    var r := ExploreAll(g, dest, st, ns);
    var next := if ns[0] in st.path then st else Explore(g, dest, st, ns[0]);
    assert r == ExploreAll(g, dest, next, ns[1..]);
    if dest in next.path {
      ExploreArrival(g, dest, st, ns[0]);
      var k :| ArrivedAlong(st, next, k);
      ArrivedBefore(g, dest, st, next, ns[1..], k);
    } else {
      if ns[0] !in st.path {
        ExploreOnlyAppends(g, dest, st, ns[0]);
      }
      ExploreAllArrival(g, dest, next, ns[1..]);
      var k :| ArrivedAlong(next, r, k);
      ArrivedAlongPrefix(st, next, r, k);
    }
  }

  /** The loop over a host's connections leaves every one of them on the path. */
  lemma {:induction false} ExploreAllCovers(g: Graph, dest: Host, st: WalkState, ns: seq<Host>)
    requires Closed(g)
    requires forall v :: v in ns ==> v in g
    ensures Elems(ns) <= Elems(ExploreAll(g, dest, st, ns).path)
    decreases |ns|
  {
    if ns != [] {
      var next := if ns[0] in st.path then st else Explore(g, dest, st, ns[0]);
      ExploreAllCovers(g, dest, next, ns[1..]);
      assert ns == [ns[0]] + ns[1..];
    }
  }

  /** Every host the walk enters, other than the destination, has all of its
      connections on the final path: the walk leaves no neighbour unexplored. */
  lemma {:induction false} ExploreClosed(g: Graph, dest: Host, st: WalkState, current: Host)
    requires Closed(g)
    ensures var r := Explore(g, dest, st, current);
      forall u :: u in Elems(r.path) - Elems(st.path) && u != dest ==>
        Elems(Connections(g, u)) <= Elems(r.path)
    decreases g.Keys + {current} - Elems(st.path), 0, 0
  {
    if current !in st.path && current != dest {
      var path := st.path + [current];
      AppendFresh(st.path, current);
      ExploreAllClosed(g, dest, st.(path := path), Connections(g, current));
      ExploreAllCovers(g, dest, st.(path := path), Connections(g, current));
    }
  }

  lemma {:induction false} ExploreAllClosed(g: Graph, dest: Host, st: WalkState, ns: seq<Host>)
    requires Closed(g)
    requires forall v :: v in ns ==> v in g
    ensures var r := ExploreAll(g, dest, st, ns);
      forall u :: u in Elems(r.path) - Elems(st.path) && u != dest ==>
        Elems(Connections(g, u)) <= Elems(r.path)
    decreases g.Keys - Elems(st.path), 1, |ns|
  {
    if ns != [] {
      var next := if ns[0] in st.path then st else Explore(g, dest, st, ns[0]);
      if ns[0] !in st.path {
        ExploreClosed(g, dest, st, ns[0]);
      }
      ExploreAllClosed(g, dest, next, ns[1..]);
    }
  }

  /** w is a walk along live connections. */
  ghost predicate IsWalk(g: Graph, w: seq<Host>)
  {
    forall i :: 0 <= i < |w| - 1 ==> w[i + 1] in Connections(g, w[i])
  }

  /** A walk that does not reach the destination visits every host reachable
      from its start without passing through a host already on the path. */
  lemma ExploreReachesAll(g: Graph, dest: Host, st: WalkState, current: Host, w: seq<Host>)
    requires Closed(g)
    requires current !in st.path
    requires dest !in Explore(g, dest, st, current).path
    requires IsWalk(g, w) && |w| > 0 && w[0] == current
    requires forall i :: 0 <= i < |w| ==> w[i] !in st.path
    ensures Elems(w) <= Elems(Explore(g, dest, st, current).path)
  {
    var r := Explore(g, dest, st, current);
    ExploreClosed(g, dest, st, current);
    var i := 0;
    while i < |w| - 1
      invariant 0 <= i < |w|
      invariant forall j :: 0 <= j <= i ==> w[j] in r.path
    {
      assert w[i] in Elems(r.path) - Elems(st.path);
      assert w[i + 1] in Elems(Connections(g, w[i]));
      i := i + 1;
    }
  }
}
