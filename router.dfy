/** AntColonyRoutingProtocol: the routing decision engine one host runs.
    It owns four tables and a counter and updates them in place on contact
    events; the decisions about single messages only read them. */
module Routing {
  import opened Paths
  import opened Pheromone
  import opened Probability
  import opened AntWalk

  /** What the decisions read of a message: its recorded sender (getFrom) and
      its destination (getTo). */
  datatype Message = Message(from: Host, to: Host)

  class AntColonyRoutingProtocol {
    var pheromoneTable: PheromoneMap
    var heuristicTable: map<Host, real>
    var forwardAntPaths: map<nat, seq<Host>>
    var deliveredAnts: set<nat>
    var sequenceNumber: nat

    /** The invariant every event handler keeps: the pheromone floor, the one
        heuristic value ever written, duplicate-free ant paths under ids
        already handed out, and delivered ants that are registered. */
    ghost predicate Valid()
      reads this
    {
      && AboveFloor(pheromoneTable)
      && (forall n :: n in heuristicTable ==> heuristicTable[n] == PeerHeuristic())
      && (forall id :: id in forwardAntPaths ==> id < sequenceNumber && NoDup(forwardAntPaths[id]))
      && deliveredAnts <= forwardAntPaths.Keys
    }

    /** What a forward ant owns: its path, the table it reinforces, its delivery. */
    ghost function AntState(antId: nat): WalkState
      reads this
      requires antId in forwardAntPaths
    {
      WalkState(forwardAntPaths[antId], pheromoneTable, antId in deliveredAnts)
    }

    /** The hosts already on ant antId's path. */
    ghost function Visited(antId: nat): set<Host>
      reads this
    {
      if antId in forwardAntPaths then Elems(forwardAntPaths[antId]) else {}
    }

    /** AntColonyRoutingProtocol(Settings): empty tables, counter at 0. */
    constructor ()
      ensures Valid()
      ensures pheromoneTable == map[] && heuristicTable == map[]
      ensures forwardAntPaths == map[] && deliveredAnts == {} && sequenceNumber == 0
    {
      pheromoneTable := map[];
      heuristicTable := map[];
      forwardAntPaths := map[];
      deliveredAnts := {};
      sequenceNumber := 0;
    }

    /** AntColonyRoutingProtocol(proto): nothing of the prototype is copied. */
    constructor FromPrototype(proto: AntColonyRoutingProtocol)
      ensures Valid()
      ensures pheromoneTable == map[] && heuristicTable == map[]
      ensures forwardAntPaths == map[] && deliveredAnts == {} && sequenceNumber == 0
    {
      pheromoneTable := map[];
      heuristicTable := map[];
      forwardAntPaths := map[];
      deliveredAnts := {};
      sequenceNumber := 0;
    }

    /** replicate(): a fresh, independent engine with empty state. */
    method Replicate() returns (r: AntColonyRoutingProtocol)
      ensures fresh(r) && r.Valid()
      ensures r.pheromoneTable == map[] && r.heuristicTable == map[]
      ensures r.forwardAntPaths == map[] && r.deliveredAnts == {} && r.sequenceNumber == 0
    {
      r := new AntColonyRoutingProtocol.FromPrototype(this);
    }

    // ------------------------------------------------------------ events

    /** updateHeuristicInfo(peer): both local statistics are the constant 0.5. */
    method UpdateHeuristicInfo(peer: Host)
      requires Valid()
      modifies this`heuristicTable
      ensures Valid()
      ensures heuristicTable == old(heuristicTable)[peer := PeerHeuristic()]
    {
      var connectivityChangeRate := 0.5;
      var load := 0.5;
      var heuristicValue := HeuristicScore(connectivityChangeRate, load);
      assert heuristicValue == PeerHeuristic();
      heuristicTable := heuristicTable[peer := heuristicValue];
    }

    /** connectionUp(thisHost, peer): peer becomes a destination, every row
        gains peer at the floor unless present, and peer's heuristic is set. */
    method ConnectionUp(thisHost: Host, peer: Host)
      requires Valid()
      modifies this`pheromoneTable, this`heuristicTable
      ensures Valid()
      ensures pheromoneTable == WithPeer(old(pheromoneTable), peer)
      ensures heuristicTable == old(heuristicTable)[peer := PeerHeuristic()]
    {
      var table := pheromoneTable;
      if peer !in table {
        table := table[peer := map[]];
      }
      ghost var start := table;
      var pending := table.Keys;
      while pending != {}
        invariant pending <= start.Keys && table.Keys == start.Keys
        invariant forall d :: d in pending ==> table[d] == start[d]
        invariant forall d :: d in start && d !in pending ==> table[d] == PutIfAbsent(start[d], peer, INITIAL_PHEROMONE)
        decreases pending
      {
        var dest :| dest in pending;
        table := table[dest := PutIfAbsent(table[dest], peer, INITIAL_PHEROMONE)];
        pending := pending - {dest};
      }
      assert table == WithPeer(pheromoneTable, peer);
      pheromoneTable := table;
      UpdateHeuristicInfo(peer);
    }

    /** connectionDown(thisHost, peer): a global evaporation tick. */
    method ConnectionDown(thisHost: Host, peer: Host)
      requires Valid()
      modifies this`pheromoneTable
      ensures Valid()
      ensures pheromoneTable == EvaporateAll(old(pheromoneTable))
    {
      EvaporatePheromones();
    }

    /** evaporatePheromones(): every entry v becomes max(v * (1 - RHO), floor);
        the neighbours of a row are visited through a snapshot of its keys. */
    method EvaporatePheromones()
      requires Valid()
      modifies this`pheromoneTable
      ensures Valid()
      ensures pheromoneTable == EvaporateAll(old(pheromoneTable))
    {
      var table := pheromoneTable;
      var pendingRows := table.Keys;
      while pendingRows != {}
        invariant pendingRows <= pheromoneTable.Keys && table.Keys == pheromoneTable.Keys
        invariant forall d :: d in pendingRows ==> table[d] == pheromoneTable[d]
        invariant forall d :: d in pheromoneTable && d !in pendingRows ==> table[d] == EvaporatedRow(pheromoneTable[d])
        decreases pendingRows
      {
        var dest :| dest in pendingRows;
        var pheromones := table[dest];
        var neighbors := pheromones.Keys;
        while neighbors != {}
          invariant neighbors <= pheromoneTable[dest].Keys && pheromones.Keys == pheromoneTable[dest].Keys
          invariant forall n :: n in neighbors ==> pheromones[n] == pheromoneTable[dest][n]
          invariant forall n :: n in pheromoneTable[dest] && n !in neighbors ==>
                      pheromones[n] == Evaporated(pheromoneTable[dest][n])
          decreases neighbors
        {
          var neighbor :| neighbor in neighbors;
          var newValue := pheromones[neighbor] * (1.0 - RHO);
          pheromones := pheromones[neighbor := if newValue > INITIAL_PHEROMONE then newValue else INITIAL_PHEROMONE];
          neighbors := neighbors - {neighbor};
        }
        table := table[dest := pheromones];
        pendingRows := pendingRows - {dest};
      }
      assert table == EvaporateAll(pheromoneTable);
      pheromoneTable := table;
    }

    /** doExchangeForNewConnection: refresh the peer's heuristic and, when this
        host carries messages, send a forward ant towards `dest`. */
    method DoExchangeForNewConnection(thisHost: Host, peer: Host, hasMessages: bool, graph: Graph, dest: Host)
      requires Valid() && Closed(graph)
      modifies this
      ensures Valid()
      ensures heuristicTable == old(heuristicTable)[peer := PeerHeuristic()]
      ensures !hasMessages ==>
        && pheromoneTable == old(pheromoneTable) && forwardAntPaths == old(forwardAntPaths)
        && deliveredAnts == old(deliveredAnts) && sequenceNumber == old(sequenceNumber)
      ensures hasMessages ==>
        && sequenceNumber == old(sequenceNumber) + 1
        && old(sequenceNumber) !in old(forwardAntPaths) && old(sequenceNumber) in forwardAntPaths
        && forwardAntPaths == old(forwardAntPaths)[old(sequenceNumber) := forwardAntPaths[old(sequenceNumber)]]
        && deliveredAnts - {old(sequenceNumber)} == old(deliveredAnts)
        && AntState(old(sequenceNumber)) == Explore(graph, dest, WalkState([thisHost], old(pheromoneTable), false), peer)
    {
      UpdateHeuristicInfo(peer);
      if hasMessages {
        CreateForwardAnt(thisHost, peer, graph, dest);
      }
    }

    // ------------------------------------------------------------- ants

    /** createForwardAnt(source, peer): take the next id, register the path
        [source] under it, and walk from peer. */
    method CreateForwardAnt(source: Host, peer: Host, graph: Graph, dest: Host)
      requires Valid() && Closed(graph)
      modifies this`sequenceNumber, this`forwardAntPaths, this`pheromoneTable, this`deliveredAnts
      ensures Valid()
      ensures sequenceNumber == old(sequenceNumber) + 1
      ensures old(sequenceNumber) !in old(forwardAntPaths) && old(sequenceNumber) !in old(deliveredAnts)
      ensures old(sequenceNumber) in forwardAntPaths
      ensures forwardAntPaths == old(forwardAntPaths)[old(sequenceNumber) := forwardAntPaths[old(sequenceNumber)]]
      ensures deliveredAnts - {old(sequenceNumber)} == old(deliveredAnts)
      ensures AntState(old(sequenceNumber)) == Explore(graph, dest, WalkState([source], old(pheromoneTable), false), peer)
    {
      var antId := sequenceNumber;
      sequenceNumber := sequenceNumber + 1;
      var path := [source];
      forwardAntPaths := forwardAntPaths[antId := path];
      ProcessForwardAnt(antId, peer, source, graph, dest);
    }

    /** processForwardAnt(antId, currentHost, previousHost): the depth-first
        walk over the shared path list.  The destination test here compares
        with `dest`; the source's test isFinalDest(null, currentHost)
        dereferences null (see ForwardAntStep). */
    method ProcessForwardAnt(antId: nat, currentHost: Host, previousHost: Host, graph: Graph, dest: Host)
      requires Valid() && Closed(graph)
      modifies this`forwardAntPaths, this`pheromoneTable, this`deliveredAnts
      ensures Valid()
      ensures antId !in old(forwardAntPaths) ==>
        && forwardAntPaths == old(forwardAntPaths)
        && pheromoneTable == old(pheromoneTable) && deliveredAnts == old(deliveredAnts)
      ensures antId in old(forwardAntPaths) ==>
        && antId in forwardAntPaths
        && forwardAntPaths == old(forwardAntPaths)[antId := forwardAntPaths[antId]]
        && deliveredAnts - {antId} == old(deliveredAnts) - {antId}
        && AntState(antId) == Explore(graph, dest, old(AntState(antId)), currentHost)
      decreases graph.Keys + {currentHost} - Visited(antId), 1
    {
      if antId !in forwardAntPaths {
        return;
      }
      VisitHost(antId, currentHost, graph, dest);
    }

    /** The body of processForwardAnt for a registered ant: stop at a host
        already on the path, deliver at the destination, otherwise record
        the host and try its connections. */
    method VisitHost(antId: nat, currentHost: Host, graph: Graph, dest: Host)
      requires Valid() && Closed(graph) && antId in forwardAntPaths
      modifies this`forwardAntPaths, this`pheromoneTable, this`deliveredAnts
      ensures Valid()
      ensures antId in forwardAntPaths
      ensures forwardAntPaths == old(forwardAntPaths)[antId := forwardAntPaths[antId]]
      ensures deliveredAnts - {antId} == old(deliveredAnts) - {antId}
      ensures AntState(antId) == Explore(graph, dest, old(AntState(antId)), currentHost)
      decreases graph.Keys + {currentHost} - Visited(antId), 0
    {
      ghost var entry := AntState(antId);
      if currentHost in forwardAntPaths[antId] {
        ExploreRevisit(graph, dest, entry, currentHost);
        return;
      }
      if currentHost == dest {
        ExploreArrive(graph, dest, entry, currentHost);
        DeliverForwardAnt(antId, currentHost);
        return;
      }

      ExploreEnter(graph, dest, entry, currentHost);
      AppendToPath(antId, currentHost);
      ghost var paths := forwardAntPaths;
      assert graph.Keys - Visited(antId) < graph.Keys + {currentHost} - Elems(entry.path);
      ForwardToConnections(antId, currentHost, graph, dest);
      UpdateCompose(old(forwardAntPaths), paths, forwardAntPaths, antId);
    }

    /** forwardAntPaths.get(antId).add(currentHost) for a host not yet on the path. */
    method AppendToPath(antId: nat, host: Host)
      requires Valid() && antId in forwardAntPaths && host !in forwardAntPaths[antId]
      modifies this`forwardAntPaths
      ensures Valid()
      ensures forwardAntPaths == old(forwardAntPaths)[antId := old(forwardAntPaths[antId]) + [host]]
      ensures Visited(antId) == old(Visited(antId)) + {host}
    {
      var path := forwardAntPaths[antId] + [host];
      AppendFresh(forwardAntPaths[antId], host);
      forwardAntPaths := forwardAntPaths[antId := path];
    }

    /** The destination branch of processForwardAnt: record the last hop,
        send the backward ant and mark the forward ant as delivered. */
    method DeliverForwardAnt(antId: nat, dest: Host)
      requires Valid() && antId in forwardAntPaths && dest !in forwardAntPaths[antId]
      modifies this`forwardAntPaths, this`pheromoneTable, this`deliveredAnts
      ensures Valid()
      ensures antId in forwardAntPaths
      ensures forwardAntPaths == old(forwardAntPaths)[antId := Reverse(old(forwardAntPaths[antId]) + [dest])]
      ensures pheromoneTable == Reinforce(old(pheromoneTable), forwardAntPaths[antId])
      ensures deliveredAnts == old(deliveredAnts) + {antId}
    {
      AppendToPath(antId, dest);
      CreateBackwardAnt(antId);
      deliveredAnts := deliveredAnts + {antId};
    }

    /** The neighbour loop of processForwardAnt: hand the ant to every
        connection of currentHost that is not yet on its path, re-reading the
        shared path list before each one. */
    method ForwardToConnections(antId: nat, currentHost: Host, graph: Graph, dest: Host)
      requires Valid() && Closed(graph)
      requires antId in forwardAntPaths && currentHost in forwardAntPaths[antId]
      modifies this`forwardAntPaths, this`pheromoneTable, this`deliveredAnts
      ensures Valid()
      ensures antId in forwardAntPaths
      ensures forwardAntPaths == old(forwardAntPaths)[antId := forwardAntPaths[antId]]
      ensures deliveredAnts - {antId} == old(deliveredAnts) - {antId}
      ensures AntState(antId) == ExploreAll(graph, dest, old(AntState(antId)), Connections(graph, currentHost))
      decreases graph.Keys - Visited(antId), 2
    {
      var connections := Connections(graph, currentHost);
      ghost var entry := AntState(antId);
      ghost var goal := ExploreAll(graph, dest, entry, connections);
      var i := 0;
      while i < |connections|
        invariant 0 <= i <= |connections|
        invariant Valid()
        invariant antId in forwardAntPaths
        invariant forwardAntPaths == old(forwardAntPaths)[antId := forwardAntPaths[antId]]
        invariant deliveredAnts - {antId} == old(deliveredAnts) - {antId}
        invariant Elems(entry.path) <= Visited(antId)
        invariant ExploreAll(graph, dest, AntState(antId), connections[i..]) == goal
      {
        var neighbor := connections[i];
        ghost var before := AntState(antId);
        ExploreAllStep(graph, dest, before, connections[i..]);
        assert connections[i..][1..] == connections[i + 1..];
        ghost var next := if neighbor in before.path then before else Explore(graph, dest, before, neighbor);
        ghost var paths := forwardAntPaths;
        if neighbor !in forwardAntPaths[antId] {
          assert graph.Keys + {neighbor} - Visited(antId) <= graph.Keys - Elems(entry.path);
          ProcessForwardAnt(antId, neighbor, currentHost, graph, dest);
        }
        UpdateCompose(old(forwardAntPaths), paths, forwardAntPaths, antId);
        assert AntState(antId) == next;
        i := i + 1;
        assert ExploreAll(graph, dest, AntState(antId), connections[i..]) == goal;
      }
    }

    /** createBackwardAnt(antId, path): reverse the ant's path in place, then
        deposit along it. */
    method CreateBackwardAnt(antId: nat)
      requires Valid() && antId in forwardAntPaths
      modifies this`forwardAntPaths, this`pheromoneTable
      ensures Valid()
      ensures forwardAntPaths == old(forwardAntPaths)[antId := Reverse(old(forwardAntPaths[antId]))]
      ensures pheromoneTable == Reinforce(old(pheromoneTable), forwardAntPaths[antId])
    {
      var path := Reverse(forwardAntPaths[antId]);
      ReverseElems(forwardAntPaths[antId]);
      forwardAntPaths := forwardAntPaths[antId := path];
      DepositAlong(path);
      ReinforceMonotone(old(pheromoneTable), path);
    }

    /** The deposit loop of createBackwardAnt: for each consecutive pair
        (path[i], path[i+1]), create the row of path[i] if absent and add
        GAMMA / (size - i) to the entry, which starts from the floor when
        absent. */
    method DepositAlong(path: seq<Host>)
      modifies this`pheromoneTable
      ensures pheromoneTable == Reinforce(old(pheromoneTable), path)
    {
      var table := pheromoneTable;
      var i := 0;
      while i < |path| - 1
        invariant i == 0 || i < |path|
        invariant table == ReinforcePrefix(pheromoneTable, path, i)
      {
        var from := path[i];
        var to := path[i + 1];
        var row := if from in table then table[from] else map[];
        var deltaTau := Delta(|path|, i);
        var currentTau := if to in row then row[to] else INITIAL_PHEROMONE;
        table := table[from := row[to := currentTau + deltaTau]];
        i := i + 1;
      }
      assert |path| > 0 ==> i == |path| - 1;
      pheromoneTable := table;
    }

    // -------------------------------------------------------- decisions

    /** newMessage(m): every new message is accepted. */
    function NewMessage(m: Message): (accept: bool)
      ensures accept
    {
      true
    }

    /** isFinalDest(m, aHost): aHost is the message's destination. */
    function IsFinalDest(m: Message, aHost: Host): (r: bool)
      ensures r <==> aHost == m.to
    {
      m.to == aHost
    }

    /** shouldDeleteOldMessage(m, hostReportingOld): always true. */
    function ShouldDeleteOldMessage(m: Message, hostReportingOld: Host): (delete: bool)
      ensures delete
    {
      true
    }

    /** calculateForwardingProbability(destination, nextHop), summing the
        denominator over the row's keys one at a time. */
    method CalculateForwardingProbability(destination: Host, nextHop: Host) returns (p: real)
      ensures p == ForwardingProbability(pheromoneTable, heuristicTable, destination, nextHop)
      ensures Valid() && destination in pheromoneTable && nextHop in pheromoneTable[destination] ==> 0.0 <= p <= 1.0
    {
      var pheromone := Lookup(pheromoneTable, destination, nextHop);
      var heuristic := HeuristicOf(heuristicTable, nextHop);
      var numerator := ALPHA * pheromone + BETA * heuristic;
      var denominator := 0.0;
      if destination in pheromoneTable {
        var row := pheromoneTable[destination];
        ghost var weight := Weight(pheromoneTable, heuristicTable, destination);
        var pending := row.Keys;
        while pending != {}
          invariant pending <= row.Keys
          invariant denominator + Sum(pending, weight) == Sum(row.Keys, weight)
          decreases pending
        {
          var neighbor :| neighbor in pending;
          var neighborPheromone := row[neighbor];
          var neighborHeuristic := HeuristicOf(heuristicTable, neighbor);
          SumRemove(pending, weight, neighbor);
          denominator := denominator + (ALPHA * neighborPheromone + BETA * neighborHeuristic);
          pending := pending - {neighbor};
        }
      }
      p := if denominator > 0.0 then numerator / denominator else 0.0;
      if Valid() && destination in pheromoneTable && nextHop in pheromoneTable[destination] {
        ProbabilityBounds(pheromoneTable, heuristicTable, destination, nextHop);
      }
    }

    /** shouldSendMessageToHost(m, otherHost, thisHost), with the uniform random
        draw in [0, 1) passed in as `draw`. */
    method ShouldSendMessageToHost(m: Message, otherHost: Host, thisHost: Host, draw: real) returns (send: bool)
      ensures send <==> otherHost == m.to || draw < ForwardingProbability(pheromoneTable, heuristicTable, m.to, otherHost)
      ensures otherHost != m.to && m.to !in pheromoneTable && draw >= 0.0 ==> !send
    {
      var destination := m.to;
      if otherHost == destination {
        return true;
      }
      var probability := CalculateForwardingProbability(destination, otherHost);
      send := draw < probability;
      if destination !in pheromoneTable {
        ProbabilityWithoutEntries(pheromoneTable, heuristicTable, destination, otherHost);
      }
    }

    /** shouldDeleteSentMessage(m, otherHost): delete the local copy when the
        peer's entry towards the destination beats the sender's, an absent
        entry counting as 0.0. */
    function ShouldDeleteSentMessage(m: Message, otherHost: Host): (delete: bool)
      reads this
      ensures delete ==> m.to in pheromoneTable && otherHost != m.from
      ensures delete && Valid() ==> otherHost in pheromoneTable[m.to]
      ensures (Valid() && m.to in pheromoneTable && m.from !in pheromoneTable[m.to]
                && otherHost in pheromoneTable[m.to]) ==> delete
    {
      var destination := m.to;
      if destination in pheromoneTable then
        var row := pheromoneTable[destination];
        var thisPheromone := if m.from in row then row[m.from] else 0.0;
        var otherPheromone := if otherHost in row then row[otherHost] else 0.0;
        otherPheromone > thisPheromone
      else
        false
    }
  }

  /** On one engine's table, swapping the message's sender and the peer
      cannot make both delete decisions true. */
  lemma DeleteSentAsymmetric(router: AntColonyRoutingProtocol, m: Message, otherHost: Host)
    requires router.ShouldDeleteSentMessage(m, otherHost)
    ensures !router.ShouldDeleteSentMessage(Message(otherHost, m.to), m.from)
  {
  }

  /** With both entries present, a peer whose entry does not beat the
      sender's (a tie included) never triggers a delete. */
  lemma DeleteSentNotBetter(router: AntColonyRoutingProtocol, m: Message, otherHost: Host)
    requires m.to in router.pheromoneTable
    requires m.from in router.pheromoneTable[m.to] && otherHost in router.pheromoneTable[m.to]
    requires router.pheromoneTable[m.to][m.from] >= router.pheromoneTable[m.to][otherHost]
    ensures !router.ShouldDeleteSentMessage(m, otherHost)
  {
  }

  /** With both entries present, a peer whose entry strictly beats the
      sender's always triggers a delete. */
  lemma DeleteSentBetter(router: AntColonyRoutingProtocol, m: Message, otherHost: Host)
    requires m.to in router.pheromoneTable
    requires m.from in router.pheromoneTable[m.to] && otherHost in router.pheromoneTable[m.to]
    requires router.pheromoneTable[m.to][m.from] < router.pheromoneTable[m.to][otherHost]
    ensures router.ShouldDeleteSentMessage(m, otherHost)
  {
  }

  // ------------------------------------------- the destination test as written

  /** A Java reference to a message, which may be null. */
  datatype MessageRef = Null | Ref(message: Message)

  datatype Thrown = NullPointerException

  datatype Outcome<T> = Returned(value: T) | Threw(exception: Thrown)

  /** isFinalDest(m, aHost) on a reference: m.getTo() throws on null. */
  function IsFinalDestOn(m: MessageRef, aHost: Host): (r: Outcome<bool>)
    ensures r.Threw? <==> m.Null?
  {
    match m
    case Null => Threw(NullPointerException)
    case Ref(message) => Returned(message.to == aHost)
  }

  /** processForwardAnt up to its destination test: the cycle guard, the
      append, and isFinalDest(m, currentHost) for the message reference `m`
      the call passes.  Returns the new path and the outcome of the test. */
  function ForwardAntStep(path: seq<Host>, currentHost: Host, m: MessageRef): (r: Outcome<(seq<Host>, bool)>)
    ensures r.Threw? <==> currentHost !in path && m.Null?
    ensures r.Returned? ==> path <= r.value.0 && currentHost in r.value.0
  {
    if currentHost in path then Returned((path, false))
    else
      var appended := path + [currentHost];
      match IsFinalDestOn(m, currentHost)
      case Threw(e) => Threw(e)
      case Returned(isDest) => Returned((appended, isDest))
  }

  /** As written, processForwardAnt passes null: every step that gets past the
      cycle guard throws, so the first step of every forward ant whose peer
      differs from its source throws. */
  lemma ForwardAntStepAsWrittenThrows(source: Host, path: seq<Host>, currentHost: Host)
    requires currentHost !in path
    ensures ForwardAntStep(path, currentHost, Null) == Threw(NullPointerException)
    ensures currentHost != source ==> ForwardAntStep([source], currentHost, Null).Threw?
  {
  }

  /** With the message reference the test evidently means, the step appends
      the host and reports whether it is the destination, as Explore does. */
  lemma ForwardAntStepIntended(path: seq<Host>, currentHost: Host, m: Message)
    requires currentHost !in path
    ensures ForwardAntStep(path, currentHost, Ref(m)) == Returned((path + [currentHost], currentHost == m.to))
  {
  }
}
