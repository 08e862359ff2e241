# AntColonyRoutingProtocol in Dafny

A model of `AntColonyRoutingProtocol`, the ant-colony routing decision engine
of a delay-tolerant network simulator, with proofs about it.

One engine runs on each host. It keeps four tables and a counter:
- a pheromone table (destination → neighbour → trail strength);
- a heuristic table (neighbour → score);
- the paths of the forward ants, by ant id;
- the set of delivered ants;
- the ant sequence number.

Contact events update these tables in place:
- a new connection inserts the peer at the pheromone floor;
- a message exchange refreshes the peer's heuristic and may send a forward ant;
- a lost connection evaporates every trail.

A forward ant walks the live contact graph depth first. When it reaches the
destination, a backward ant reverses the path and deposits pheromone along it.
The per-message decisions only read the tables.

The model has five modules:
- `Paths` (paths.dfy): sequence helpers. These are the hosts on a path, the
  no-repeats property, and the in-place reversal.
- `Pheromone` (pheromone.dfy): the host type, the constants, and the pheromone
  table as a value. It holds the three table transformations as specification
  functions: contact insertion, evaporation and the backward ant's deposits.
- `Probability` (probability.dfy): the normalised forwarding probability, over
  an order-independent sum.
- `AntWalk` (ant_walk.dfy): the forward ant's walk as pure recursive functions,
  `Explore` and `ExploreAll`. They include the shared path list and its
  in-place reversal on arrival.
- `Routing` (router.dfy): the class `AntColonyRoutingProtocol`. Its fields are
  the engine's fields, and its methods update them in place. Each method is
  proved against the specification functions above.

The class invariant `Valid` says four things:
- every trail is at or above the floor 0.1;
- every heuristic entry is the one value the engine ever writes (13/12);
- every registered ant path has no repeated host and an id below the counter;
- every delivered ant is registered.

Every event handler keeps this invariant.

Some of the code's behaviour differs from what a reader might expect. The
model follows the code:
- **Deposit size.** One might expect the largest deposit next to the
  destination. The code deposits GAMMA / (size − i) on pair i of the reversed
  path. The pair next to the destination therefore receives the least and the
  pair next to the source the most (`Pheromone.DeltaIncreasing`,
  `Pheromone.BackwardAntExample`).
- **Where ants start.** One might expect a new contact to send ants. The code
  sends them only in `doExchangeForNewConnection`, and `connectionUp` sends
  none.
- **First host explored.** The walk starts at the peer, with the path `[source]`.
  It does not start at the source.
- **Probabilities above 1.** One might expect the forwarding probabilities of
  a destination's neighbours to sum to 1. That holds over the row's own keys
  (`Probability.ProbabilitiesSumToOne`). A hop without an entry in the row is
  still weighted in the numerator, so its "probability" can exceed 1
  (`Probability.ProbabilityCanExceedOne`).

## Model

| member | source | states |
|---|---|---|
| Pheromone.HeuristicScore | src/routing/AntColonyRoutingProtocol.java:156 | the formula M·rate + N·1/(load+0.1) is positive for a non-negative rate and a load above −0.1 |
| Pheromone.Lookup | src/routing/AntColonyRoutingProtocol.java:161-162 | getOrDefault with the floor, as also at line 148: a present entry is returned as stored, and on a table above the floor the result is at least the floor |
| Pheromone.PeerHeuristic | src/routing/AntColonyRoutingProtocol.java:153-157 | the heuristic written for every peer is M·0.5 + N·1/(0.5+0.1) = 13/12 |
| Pheromone.WithPeer | src/routing/AntColonyRoutingProtocol.java:40-44 | after a contact the peer is a destination; every row has the peer; existing entries keep their values; only the peer is added, at the floor; the floor is preserved |
| Pheromone.WithPeerIdempotent | src/routing/AntColonyRoutingProtocol.java:41-44 | a second contact with the same peer leaves the table unchanged (putIfAbsent) |
| Pheromone.Evaporated | src/routing/AntColonyRoutingProtocol.java:182-183 | one evaporation step is max(v·(1−RHO), floor): never below the floor and never below v·0.8 |
| Pheromone.EvaporationContracts | src/routing/AntColonyRoutingProtocol.java:182-183 | evaporation never raises a trail at or above the floor; it strictly lowers one above the floor and keeps one at the floor |
| Pheromone.EvaporateAll | src/routing/AntColonyRoutingProtocol.java:179-186 | evaporation keeps every destination and every neighbour key and leaves the whole table above the floor |
| Pheromone.EvaporateAllContracts | src/routing/AntColonyRoutingProtocol.java:179-186 | on a table above the floor, evaporation lowers no entry and strictly lowers every entry above the floor |
| Pheromone.Delta | src/routing/AntColonyRoutingProtocol.java:147 | the deposit GAMMA·1/(size−i) is positive and at most GAMMA |
| Pheromone.DeltaIncreasing | src/routing/AntColonyRoutingProtocol.java:142-147 | deposits grow strictly with the index in the reversed path, so the pair at the source end receives the most |
| Pheromone.Deposit | src/routing/AntColonyRoutingProtocol.java:146-149 | one deposit creates the row if absent and sets table[from][to] to getOrDefault(to, floor) + delta |
| Pheromone.DepositElsewhere | src/routing/AntColonyRoutingProtocol.java:146-149 | a deposit changes neither the presence nor the value of any other (destination, neighbour) pair |
| Pheromone.DepositMonotone | src/routing/AntColonyRoutingProtocol.java:146-149 | a non-negative deposit removes and lowers nothing and keeps the floor |
| Pheromone.ReinforcePrefix | src/routing/AntColonyRoutingProtocol.java:142-150 | the first k rounds of the deposit loop remove no destination row |
| Pheromone.Reinforce | src/routing/AntColonyRoutingProtocol.java:142-150 | the whole deposit loop removes no destination row and keeps the floor |
| Pheromone.ReinforcePrefixMonotone | src/routing/AntColonyRoutingProtocol.java:142-150 | any number of backward-ant deposits removes and lowers no entry and keeps the floor |
| Pheromone.ReinforcePrefixUntouched | src/routing/AntColonyRoutingProtocol.java:142-150 | a pair that is none of the first k consecutive pairs keeps its presence and value |
| Pheromone.ReinforcePrefixEdge | src/routing/AntColonyRoutingProtocol.java:142-150 | on a path without repeats, pair i ends at its old value (or the floor) plus exactly its own deposit |
| Pheromone.ReinforceEdge | src/routing/AntColonyRoutingProtocol.java:140-151 | after the backward ant, pair (rev[i], rev[i+1]) holds its old value (or the floor) plus GAMMA/(|rev|−i) |
| Pheromone.ReinforceElsewhere | src/routing/AntColonyRoutingProtocol.java:140-151 | the backward ant leaves every pair that is not consecutive on the reversed path unchanged, present or absent |
| Pheromone.ReinforceMonotone | src/routing/AntColonyRoutingProtocol.java:140-151 | the backward ant lowers and removes nothing and keeps the floor |
| Pheromone.BackwardAntExample | src/routing/AntColonyRoutingProtocol.java:140-151 | path [a,b,c,d] reverses to [d,c,b,a] and deposits 100/4 on (d,c), 100/3 on (c,b) and 100/2 on (b,a) |
| Paths.Reverse | src/routing/AntColonyRoutingProtocol.java:141 | Collections.reverse: same length, element k is element |s|−1−k |
| Paths.ReverseElems | src/routing/AntColonyRoutingProtocol.java:141 | reversal keeps the same hosts and keeps a path without repeats without repeats |
| Paths.ReverseReverse | src/routing/AntColonyRoutingProtocol.java:141 | reversing twice gives the path back |
| Paths.AppendFresh | src/routing/AntColonyRoutingProtocol.java:122-124 | appending a host not yet on the path keeps it without repeats and adds exactly that host |
| Probability.SumRemove | src/routing/AntColonyRoutingProtocol.java:169-173 | the denominator's sum over the row's keys does not depend on the order of the keys |
| Probability.SumScaled | src/routing/AntColonyRoutingProtocol.java:176 | dividing every weight by the denominator divides the sum by it |
| Probability.Denominator | src/routing/AntColonyRoutingProtocol.java:166-174 | the sum of the weights over the destination's row, 0 without a row, is non-negative when all scores are |
| Probability.ForwardingProbability | src/routing/AntColonyRoutingProtocol.java:160-177 | numerator over denominator, 0 when the denominator is not positive; non-negative when all scores are |
| Probability.ProbabilityWithoutEntries | src/routing/AntColonyRoutingProtocol.java:168-176 | a destination without a row, or with an empty row, gives probability 0 |
| Probability.ProbabilityBounds | src/routing/AntColonyRoutingProtocol.java:160-177 | for a hop with an entry in the destination's row, the probability lies in [0, 1] |
| Probability.DenominatorPositive | src/routing/AntColonyRoutingProtocol.java:166-176 | under the floor invariant a non-empty row has a positive denominator, so the division is taken |
| Probability.ProbabilitiesSumToOne | src/routing/AntColonyRoutingProtocol.java:160-177 | over the keys of a non-empty row, the forwarding probabilities sum to exactly 1 |
| Probability.ProbabilityOrder | src/routing/AntColonyRoutingProtocol.java:165-176 | within one destination, a hop has the larger probability if and only if it has the larger weight |
| Probability.TwoNeighbourScenario | src/routing/AntColonyRoutingProtocol.java:160-177 | neighbours at 0.1 and 0.9 with the default heuristic get probabilities 0.26 and 0.74 |
| Probability.ProbabilityCanExceedOne | src/routing/AntColonyRoutingProtocol.java:161-176 | a hop absent from the row is weighted only in the numerator, and its value can exceed 1 |
| AntWalk.Explore | src/routing/AntColonyRoutingProtocol.java:120-138 | one processForwardAnt call only adds hosts (the current one included) and only hosts of the graph; it keeps the path without repeats, keeps the floor and never undelivers |
| AntWalk.ExploreAll | src/routing/AntColonyRoutingProtocol.java:132-137 | the connection loop only adds graph hosts, keeps the path without repeats, keeps the floor and never undelivers |
| AntWalk.ExploreRevisit | src/routing/AntColonyRoutingProtocol.java:122 | unfolding helper for the methods' proofs: Explore of a host already on the path is the unchanged state |
| AntWalk.ExploreArrive | src/routing/AntColonyRoutingProtocol.java:124-129 | unfolding helper for the methods' proofs: Explore of the destination is the appended, reversed path, the table reinforced along it, and delivered |
| AntWalk.ExploreEnter | src/routing/AntColonyRoutingProtocol.java:124-137 | unfolding helper for the methods' proofs: Explore of any other new host is ExploreAll over its connections after appending it |
| AntWalk.ExploreAllStep | src/routing/AntColonyRoutingProtocol.java:132-137 | unfolding helper for the methods' proofs: one round of ExploreAll |
| AntWalk.ExploreOnlyAppends | src/routing/AntColonyRoutingProtocol.java:120-138 | until the destination is entered, the walk extends the path and touches neither the table nor the delivered flag |
| AntWalk.ExploreArrival | src/routing/AntColonyRoutingProtocol.java:120-151 | if the walk enters the destination, the ant is delivered. The final path starts at the destination. The table is the old one reinforced once, along the reversed path as it stood on arrival, and that path reads the old path backwards |
| AntWalk.ExploreAllCovers | src/routing/AntColonyRoutingProtocol.java:132-137 | after the loop every connection of the host is on the path |
| AntWalk.ExploreClosed | src/routing/AntColonyRoutingProtocol.java:120-138 | every host the walk entered, other than the destination, has all its connections on the final path |
| AntWalk.ExploreReachesAll | src/routing/AntColonyRoutingProtocol.java:120-138 | a walk that does not reach the destination visits every host reachable from its start through hosts not already on the path |
| Routing.AntColonyRoutingProtocol.constructor | src/routing/AntColonyRoutingProtocol.java:25-30 | a new engine has empty tables, counter 0, and satisfies the invariant |
| Routing.AntColonyRoutingProtocol.FromPrototype | src/routing/AntColonyRoutingProtocol.java:32-37 | the copy constructor copies nothing: empty tables, counter 0 |
| Routing.AntColonyRoutingProtocol.Replicate | src/routing/AntColonyRoutingProtocol.java:107-110 | replicate returns a fresh engine with empty state |
| Routing.AntColonyRoutingProtocol.UpdateHeuristicInfo | src/routing/AntColonyRoutingProtocol.java:153-158 | the peer's heuristic becomes 13/12 and no other entry changes |
| Routing.AntColonyRoutingProtocol.ConnectionUp | src/routing/AntColonyRoutingProtocol.java:39-46 | the new pheromone table is WithPeer of the old one, the heuristic is refreshed, and the invariant is kept |
| Routing.AntColonyRoutingProtocol.ConnectionDown | src/routing/AntColonyRoutingProtocol.java:48-51 | the new pheromone table is EvaporateAll of the old one |
| Routing.AntColonyRoutingProtocol.EvaporatePheromones | src/routing/AntColonyRoutingProtocol.java:179-186 | the nested loop over rows and a key snapshot computes EvaporateAll of the old table and keeps the invariant |
| Routing.AntColonyRoutingProtocol.DoExchangeForNewConnection | src/routing/AntColonyRoutingProtocol.java:53-61 | the heuristic is refreshed. With no messages nothing else changes. Otherwise one fresh ant id is taken, no other ant's path or delivery changes, and the new ant's state is Explore from the peer, starting from the path [thisHost] |
| Routing.AntColonyRoutingProtocol.CreateForwardAnt | src/routing/AntColonyRoutingProtocol.java:112-118 | the counter is incremented and the old counter is a fresh id. Only that ant's path changes, and its final state is Explore from the peer, starting from [source] and the old table |
| Routing.AntColonyRoutingProtocol.ProcessForwardAnt | src/routing/AntColonyRoutingProtocol.java:120-138 | an unknown ant changes nothing. For a known ant, only its path, its delivery and the table change, to exactly Explore of its previous state |
| Routing.AntColonyRoutingProtocol.VisitHost | src/routing/AntColonyRoutingProtocol.java:122-137 | for a registered ant, the cycle guard, the destination branch and the connection loop together compute Explore |
| Routing.AntColonyRoutingProtocol.AppendToPath | src/routing/AntColonyRoutingProtocol.java:124 | the host is appended to the ant's path and the invariant is kept |
| Routing.AntColonyRoutingProtocol.DeliverForwardAnt | src/routing/AntColonyRoutingProtocol.java:124-129 | at the destination, the path becomes the reversed path with the destination, the table is reinforced along it, and the ant is delivered |
| Routing.AntColonyRoutingProtocol.ForwardToConnections | src/routing/AntColonyRoutingProtocol.java:132-137 | the connection loop, re-reading the shared path before each neighbour, computes ExploreAll over the connections |
| Routing.AntColonyRoutingProtocol.CreateBackwardAnt | src/routing/AntColonyRoutingProtocol.java:140-151 | the path is reversed in place and the table becomes Reinforce of the old table along it; the invariant is kept |
| Routing.AntColonyRoutingProtocol.DepositAlong | src/routing/AntColonyRoutingProtocol.java:142-150 | the deposit loop computes Reinforce of the old table along the reversed path |
| Routing.AntColonyRoutingProtocol.NewMessage | src/routing/AntColonyRoutingProtocol.java:63-66 | every new message is accepted |
| Routing.AntColonyRoutingProtocol.IsFinalDest | src/routing/AntColonyRoutingProtocol.java:68-71 | true exactly when the host is the message's destination |
| Routing.AntColonyRoutingProtocol.ShouldDeleteOldMessage | src/routing/AntColonyRoutingProtocol.java:99-102 | old messages are always deleted |
| Routing.AntColonyRoutingProtocol.CalculateForwardingProbability | src/routing/AntColonyRoutingProtocol.java:160-177 | the loop computes ForwardingProbability, which lies in [0, 1] for a hop in the row under the invariant |
| Routing.AntColonyRoutingProtocol.ShouldSendMessageToHost | src/routing/AntColonyRoutingProtocol.java:78-86 | send if and only if the peer is the destination or the draw is below the forwarding probability; never forward towards an unknown destination |
| Routing.AntColonyRoutingProtocol.ShouldDeleteSentMessage | src/routing/AntColonyRoutingProtocol.java:88-97 | deleting needs a known destination and a peer other than the message's sender, and under the invariant a peer entry. A peer entry with no sender entry always deletes |
| Routing.DeleteSentAsymmetric | src/routing/AntColonyRoutingProtocol.java:89-97 | on one engine's table, swapping the message's sender and the peer cannot make both delete decisions true |
| Routing.DeleteSentNotBetter | src/routing/AntColonyRoutingProtocol.java:91-94 | with both entries present, a peer whose entry does not strictly beat the sender's (a tie included) never triggers a delete |
| Routing.DeleteSentBetter | src/routing/AntColonyRoutingProtocol.java:91-94 | with both entries present, a peer whose entry strictly beats the sender's always triggers a delete |
| Routing.IsFinalDestOn | src/routing/AntColonyRoutingProtocol.java:68-71 | isFinalDest throws exactly when the message reference is null |
| Routing.ForwardAntStep | src/routing/AntColonyRoutingProtocol.java:120-126 | the step as written throws exactly when the host is new and the message reference is null; otherwise the path only grows and holds the host |
| Routing.ForwardAntStepAsWrittenThrows | src/routing/AntColonyRoutingProtocol.java:120-126 | as written, every forward-ant step past the cycle guard throws a NullPointerException |
| Routing.ForwardAntStepIntended | src/routing/AntColonyRoutingProtocol.java:120-126 | with a real message the step appends the host and reports whether it is the destination |

## Left out

- shouldSaveReceivedMessage (lines 73-76) is not modelled. It asks the host's router whether it already holds the message, and that router is not part of this model.
- update (lines 103-105) has an empty body and is not modelled.
- The random draw of shouldSendMessageToHost is a parameter `draw` of `ShouldSendMessageToHost`, not a generator.
- Doubles are modelled as exact reals. IEEE rounding is not modelled, and neither is the summation order of the denominator, which changes the rounded result.
- sequenceNumber is a `nat`. The wrap-around of Java's `int` after 2^31 ants is not modelled.
- `getConnections()` is the parameter `graph`, a map from each host to the ordered list of its connection peers. It must be closed: every peer has a list of its own. The live connection list is assumed not to change during one walk.
- The destination the forward ant looks for is a parameter `dest`. The code tests `isFinalDest(null, …)`, which throws (see Findings).
- doExchangeForNewConnection reads `getMessageCollection().size() > 0`. The model takes it as the flag `hasMessages`, and the peer's `Connection` as the pair (thisHost, peer).
- ConnectionUp, EvaporatePheromones and DepositAlong build the new table in a local variable and assign it once at the end. The source updates each entry in place; no other code observes the table in between.
- VisitHost, AppendToPath, DeliverForwardAnt and ForwardToConnections are parts of processForwardAnt split into their own methods. DepositAlong is the loop of createBackwardAnt. The order of the steps is unchanged.
- The iteration order of HashMap key sets is a nondeterministic choice of key in the loops. The results do not depend on it.

## Findings

| source | as written | input that shows it | evidently intended | confidence | as-written member | corrected member |
|---|---|---|---|---|---|---|
| src/routing/AntColonyRoutingProtocol.java:126, 70 | processForwardAnt calls isFinalDest(null, currentHost), and isFinalDest calls m.getTo() on it | any forward ant whose peer is not on the path [source], i.e. every contact with a host carrying messages: the first step appends the peer and then dereferences null | compare the current host with the destination the ant is looking for, and on a match reverse the path, reinforce and mark the ant delivered | not executed | Routing.ForwardAntStepAsWrittenThrows | Routing.AntColonyRoutingProtocol.ProcessForwardAnt |
