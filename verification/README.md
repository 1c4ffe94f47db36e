# PacMann decision and targeting rules in Dafny

This project models the decision and targeting rules of the PacMann maze-chase game. A player and four ghosts move along a directed maze graph whose vertices sit at integer grid coordinates. Whenever an actor stands on a vertex, it asks its decision rule which edge to take next. The model covers these rules:

- the keyboard-driven player (`PacMannManual`);
- the autonomous player (`PacMannAI`) with its evade / hunt / pellet / dot cascade;
- the targets of three ghosts (`Blinky`, `Pinky`, `Inky`), with their spawn delays and flee corners.

Each rule is a pure function of a snapshot of the game (`Game.GameModel`). The snapshot holds the maze, the board size, the player's and Blinky's locations, the actor list, the item layout, the latest command and the pathfinder.

Two collaborators are not part of this model, so they enter as function-typed fields of the snapshot:

- the maze's nearest-vertex lookup `closestTo`;
- the breadth-first `shortestNonBacktrackingPath`.

Each is constrained only by the promise the rules rely on. `closestTo` returns a vertex of the maze (`MazeGraph.Wf`). A non-empty path starts at its start vertex (`Game.PathfinderOk`). Java's `null` is `Option.None`. Where the modelled code can throw, the member returns a `Result`, and `Result.Err` names the exception. This covers Pinky's target and every step of the autonomous player. `Double.POSITIVE_INFINITY` becomes the `Inf` case of `Distances.Dist`, since every distance is a whole number of edges or infinite.

Modules: `Wrappers` (Option, Result), `MazeGraph` (directions, coordinates, edges, the graph), `Distances` (distance order, running minimum, first-wins argmin/argmax), `Game` (the snapshot), `Ghosts`, `ManualPlayer`, `AutoPlayer`.

The autonomous player's `distance` helper has an inverted guard (see Findings). Every member of `AutoPlayer` therefore takes a `Guard` argument:

- `AsWritten` is the code. For a player without a current edge, it throws NoSuchElement where the queried vertex has no outgoing edge. Otherwise it passes null to the pathfinder.
- `Corrected` is the evident intent. It substitutes the vertex's first edge and never throws.

With a current edge the two choose the same edge (`AutoPlayer.GuardsAgreeWithEdge`).

The code and its comments disagree in several places. The model follows the code each time:

- The comment on `nextEdge` speaks of "Euclidean distance". The code measures non-backtracking path length, and so does the model.
- The comment on `nextEdge` says the player evades when "the nearest ghost" is close. The code measures only ghosts in CHASE, so a fleeing ghost one edge away does not trigger evasion (`AutoPlayer.NearestChaser`, `AutoPlayer.NoChasersNoEvasion`).
- The comment on `nextEdge` says the player heads for the closest pellet whenever no ghost flees. The code does so only while pellets remain and at least two ghosts chase; with one chaser it heads for the nearest dot (`AutoPlayer.NextEdge`).
- The comment on `distance` calls it the Euclidean distance to a ghost. The code returns the non-backtracking path length to any vertex, or infinity (`AutoPlayer.PathDistance`).
- The comment on `closestFleeingGhost` says it returns null when no ghost is fleeing. The code also returns null when every fleeing ghost is unreachable, because infinity is never below the initial infinity.
- The comment on `maximizeShortestChasingGhostDistance` says infinity cannot occur. A chasing ghost can still be unreachable. The model handles that case: all-infinite heads still yield the first edge.

## Model

| member | source | states |
|---|---|---|
| `MazeGraph.EdgeInDirectionExactly` | src/model/PacMannManual.java:34-40 | the edge-in-direction lookup returns an edge exactly when that edge leaves the vertex in that direction (one edge per direction) |
| `Distances.MinOf` | src/model/PacMannAI.java:167-178 | the running `Math.min` from +infinity is below or equal to every element, is one of them when finite, and is infinite exactly when all elements are |
| `Distances.FirstArgMin` | src/model/PacMannAI.java:213-224 | the strict-`<` scan from +infinity keeps the first index holding the least finite value, and keeps none exactly when every value is infinite |
| `Distances.FirstArgMax` | src/model/PacMannAI.java:144-159 | the strict-`>` scan from -1 keeps the first index holding the greatest value, and keeps none only for an empty list |
| `Distances.FirstArgMinIsUnique` | src/model/PacMannAI.java:122-137 | any index that is the first least finite value is the one the minimum scan returns |
| `Distances.FirstArgMaxIsUnique` | src/model/PacMannAI.java:144-159 | any index that is the first greatest value is the one the maximum scan returns |
| `Game.VerticesWithItem` | src/model/PacMannAI.java:201-209 | a vertex is listed exactly when it is a maze vertex holding the requested item |
| `Game.FilterSingle` | src/model/PacMannAI.java:203-206 | a single vertex is kept exactly when it holds the item |
| `Game.FilterAppend` | src/model/PacMannAI.java:203-206 | filtering a concatenation is the concatenation of the filtered parts, so the list keeps the order and multiplicity of `vertices()` that closest-vertex ties depend on |
| `Game.CountChasing` | src/model/PacMannAI.java:94-104 | the count of chasing ghosts never exceeds the number of actors |
| `Game.CountChasingCountsChasers` | src/model/PacMannAI.java:94-104 | the count equals the number of positions in the actor list holding a ghost in CHASE |
| `Game.CountChasingZero` | src/model/PacMannAI.java:94-104 | the count is zero exactly when no actor is a chasing ghost |
| `Ghosts.NewBlinky` | src/model/Blinky.java:11-13 | Blinky's constructor yields Blinky with a 2000 ms delay, whatever delay it is passed |
| `Ghosts.NewBlinkyIgnoresDelayArgument` | src/model/Blinky.java:11-12 | two calls with different delay arguments build the same ghost |
| `Ghosts.SpawnDelaysStaggered` | src/model/Pinky.java:13-15 | Blinky waits 2000 ms, Pinky 2000 ms longer (4000) and Inky 2000 ms longer still (6000) |
| `Ghosts.Ahead` | src/model/Pinky.java:29-37 | the look-ahead point is the player's coordinates plus n times the unit step of the facing direction |
| `Ghosts.AheadMovesOneAxis` | src/model/Pinky.java:29-37 | LEFT/RIGHT keep the row and UP/DOWN keep the column; exactly one coordinate moves, by exactly n |
| `Ghosts.AheadThenBack` | src/model/Pinky.java:32-37 | stepping back the same distance in the opposite direction returns to the player |
| `Ghosts.Reflect` | src/model/Inky.java:28-29 | the raw target lies as far beyond the player, on each axis, as Blinky lies before it |
| `Ghosts.ReflectIsPointReflection` | src/model/Inky.java:28-29 | a point is the raw target exactly when the player is the midpoint of it and Blinky |
| `Ghosts.ReflectInvolution` | src/model/Inky.java:28-29 | reflecting the raw target through the player again gives Blinky's position |
| `Ghosts.ReflectFixedPoint` | src/model/Inky.java:28-31 | with Blinky on the player's vertex, the raw target is the player's vertex |
| `Ghosts.ReflectExample` | src/model/Inky.java:28-29 | the player at (6,4) and Blinky at (2,2) give the raw target (10,6) |
| `Ghosts.BlinkyTarget` | src/model/Blinky.java:21-28 | the target is a maze vertex: the player's nearest vertex in CHASE, the vertex nearest (2,2) in FLEE |
| `Ghosts.PinkyTarget` | src/model/Pinky.java:25-44 | in CHASE, the target is the vertex nearest the point 3 units ahead of the player along its edge's direction, and it throws exactly when the player has no edge; in FLEE, the vertex nearest (width-3,2) |
| `Ghosts.InkyTarget` | src/model/Inky.java:19-38 | in CHASE, the target is the vertex nearest the player displaced by the Blinky-to-player vector; in FLEE, the vertex nearest (2,height-3) |
| `Ghosts.FleeTargetsIgnoreActors` | src/model/Blinky.java:25-26 | fleeing targets of all three ghosts depend only on the maze and the board size, never on where the actors are |
| `ManualPlayer.NextEdge` | src/model/PacMannManual.java:25-49 | only at a vertex; any edge returned leaves the player's vertex; it takes the command direction when possible, else the current direction when possible; it returns null exactly when neither is possible |
| `ManualPlayer.CommandTakesPriority` | src/model/PacMannManual.java:34-40 | when an edge exists in the command direction, that edge is returned, whatever the current edge is (none, or one in any direction, open or not) |
| `ManualPlayer.ContinuesStraight` | src/model/PacMannManual.java:38-41 | when the command cannot be obeyed, the edge continuing the current direction is returned |
| `AutoPlayer.PathLength` | src/model/PacMannAI.java:197-198 | a pathfinder answer reads as its number of edges, and as infinity exactly when there is no path |
| `AutoPlayer.DistanceThrowsOnDeadVertex` | src/model/PacMannAI.java:193-194 | in a one-vertex maze with no edges, the code's `distance` throws NoSuchElement for a player without an edge |
| `AutoPlayer.PrevEdgeFor` | src/model/PacMannAI.java:192-195 | as written, the player's edge (possibly null) goes to the pathfinder unchanged. With the corrected guard an edge goes exactly when the player or `v` has one, and the substitute is the first edge leaving `v` |
| `AutoPlayer.PathDistance` | src/model/PacMannAI.java:197-198 | the value `distance` returns when it does not throw: infinite exactly when the pathfinder finds no path, else the path's number of edges |
| `AutoPlayer.Distance` | src/model/PacMannAI.java:190-200 | as written, `distance` throws NoSuchElement exactly when the player has no edge and `v` has no outgoing edge; otherwise it is the path length with the player's edge passed unchanged. With the corrected guard it never throws |
| `AutoPlayer.DistanceCorrectsGuard` | src/model/PacMannAI.java:192-198 | the corrected distance never throws and substitutes an edge leaving `v`; it agrees with the code whenever the player has an edge |
| `AutoPlayer.NearestChaser` | src/model/PacMannAI.java:167-179 | the value is at most the distance to every chasing ghost, is attained by one when finite, and is infinite exactly when no chasing ghost is reachable (including when none chases) |
| `AutoPlayer.ShortestGhostDistance` | src/model/PacMannAI.java:167-179 | throws exactly when `distance` from `v` throws and some ghost is chasing; otherwise it returns the nearest chaser's distance |
| `AutoPlayer.MaximizeShortestChasingGhostDistance` | src/model/PacMannAI.java:144-160 | throws exactly when a ghost chases and `distance` throws from some edge's head. Otherwise it returns an outgoing edge whose head is farthest from the nearest chasing ghost, the first on ties, and null exactly when the vertex has no edge |
| `AutoPlayer.ClosestFleeingGhost` | src/model/PacMannAI.java:122-138 | throws exactly when `distance` from the player throws and a ghost is fleeing. Otherwise it returns a fleeing ghost at the least finite distance, the first on ties, and null exactly when no fleeing ghost is reachable |
| `AutoPlayer.ClosestVertex` | src/model/PacMannAI.java:213-225 | throws exactly when there is a candidate and `distance` from `start` throws. Otherwise it returns a candidate at the least finite distance, the first on ties, and null exactly when no candidate is reachable |
| `AutoPlayer.GreedyStep` | src/model/PacMannAI.java:239-251 | throws exactly when `distance` throws from some edge's head. Otherwise it returns the outgoing edge whose head is nearest the target, the first on ties, or null exactly when no head reaches it |
| `AutoPlayer.BestFirstStep` | src/model/PacMannAI.java:231-252 | a non-empty path yields its first edge, otherwise the greedy fallback applies; every edge returned leaves `start` |
| `AutoPlayer.EdgeToClosestVertex` | src/model/PacMannAI.java:78-84 | null for no targets. It throws only through the code's guard, for a player without an edge: whenever the player's own `distance` throws, and also when the best first step's greedy fallback throws from an edge's head. Otherwise it picks a target nearest the player, the first on ties (or none if none is reachable), and returns the best first step towards it; the step leaves the player's vertex |
| `AutoPlayer.EdgeToClosestVertexThrowsInFallback` | src/model/PacMannAI.java:80-82 | a player without an edge, whose own `distance` does not throw, still makes `edgeToClosestVertex` throw when no path reaches the target and the only edge leads to a vertex with no outgoing edge |
| `AutoPlayer.ChaseClosestGhostEdge` | src/model/PacMannAI.java:111-115 | callable only when a fleeing ghost is reachable; the target is a fleeing ghost, and a non-empty path towards it yields its first edge, which leaves the player's vertex |
| `AutoPlayer.NextEdge` | src/model/PacMannAI.java:42-66 | every edge returned leaves the player's vertex. It throws only through the code's guard, for a player without an edge. Evasion fires when a chaser is under 3 edges away and returns the safest edge. Otherwise it hunts the nearest reachable fleeing ghost. Otherwise it targets pellets only when pellets remain and at least two ghosts chase, and dots otherwise |
| `AutoPlayer.NoChasersNoEvasion` | src/model/PacMannAI.java:49-52 | with no ghost in CHASE, `shortestGhostDistance` returns infinity without throwing and the evasion rule never fires |
| `AutoPlayer.SingleChaserEvasion` | src/model/PacMannAI.java:49-52 | with one chasing ghost under 3 edges away, the chosen edge's head is at least as far from that ghost as every other outgoing edge's head |
| `AutoPlayer.OnlyChaserDistance` | src/model/PacMannAI.java:167-178 | with exactly one chasing ghost, the nearest chaser's distance is the distance to that ghost |
| `AutoPlayer.CorrectedNeverThrows` | src/model/PacMannAI.java:42-66 | with the corrected guard the whole cascade never throws |
| `AutoPlayer.DistancesAgreeWithEdge` | src/model/PacMannAI.java:190-198 | with a current edge both guards measure every distance alike |
| `AutoPlayer.MaximizeAgreesWithEdge` | src/model/PacMannAI.java:144-160 | with a current edge both guards pick the same evasion edge |
| `AutoPlayer.ClosestFleeingGhostAgreesWithEdge` | src/model/PacMannAI.java:122-138 | with a current edge both guards pick the same fleeing ghost |
| `AutoPlayer.ClosestVertexAgreesWithEdge` | src/model/PacMannAI.java:213-225 | with a current edge both guards pick the same closest candidate |
| `AutoPlayer.GreedyStepAgreesWithEdge` | src/model/PacMannAI.java:239-251 | with a current edge both guards take the same greedy fallback |
| `AutoPlayer.EdgeToClosestVertexAgreesWithEdge` | src/model/PacMannAI.java:78-84 | with a current edge both guards head for the same item |
| `AutoPlayer.GuardsAgreeWithEdge` | src/model/PacMannAI.java:42-66 | with a current edge, the code's cascade and the corrected one return the same answer |

## Left out

- `Ghost`, `GameModel`, `Location`, `MazeGraph` and `Pathfinding` are not part of this model. They are outside this model, so shared ghost movement and spawn countdowns are absent. So are the tick loop, collisions, score, lives and the game-state machine, and location advancement. The breadth-first search and the nearest-vertex search appear only as abstract fields with the contracts above.
- The order of `outgoingEdges()` and of `vertices()` is whatever the graph lists. It is not fixed to a particular direction order.
- Clyde is not modelled because its `target()` has an empty body. Only its 8000 ms delay exists.
- The window, timer, dialogs and key handling are presentation code and are not modelled.
- Colours are not modelled, including the colour argument Blinky's constructor ignores.
- The pathfinder `shortestNonBacktrackingPath` is assumed never to throw, including for a null target. The code passes it one when `closestVertex` finds no reachable item and `bestFirstStep` is asked for a step towards null. `Pathfinding` is not part of this model, so it is a total function field. `AutoPlayer.CorrectedNeverThrows` and the corrected half of the finding below rely on this assumption.
- Java `int` arithmetic in Pinky's look-ahead and Inky's reflection is modelled with unbounded `int`, without 32-bit wrap-around. The operands are vertex coordinates bounded by the board, and Pinky moves them by at most 3 and Inky by at most doubling, so no overflow can occur on a playable board.
- Floating point is not modelled. Distances are edge counts or infinity, which `double` represents exactly.
- AutoPlayer.ChaseClosestGhostEdge: its contract fixes the step only when a non-empty path to the ghost exists. The greedy fallback is stated by `AutoPlayer.BestFirstStep` and `AutoPlayer.GreedyStep`.
- Behaviour after a throw is not modelled. When the code throws inside `nextEdge`, the model returns `Err(NoSuchElement)` and says nothing about how the exception propagates through the game loop.
- `Game.CountChasing`: its own contract states only the bound. The exact count is stated by `Game.CountChasingCountsChasers`.

## Findings

| source | as written | input that shows it | evidently intended | confidence | as-written member | corrected member |
|---|---|---|---|---|---|---|
| src/model/PacMannAI.java:193-194 | the guard `!v.outgoingEdges().iterator().hasNext()` calls `next()` exactly when `v` has no outgoing edge, so the "arbitrary first edge" is never substituted | player with no current edge, queried vertex with no outgoing edge: `next()` throws NoSuchElementException | guard `hasNext()`: substitute `v`'s first edge when the player has none and `v` has one, and never throw | not executed | `AutoPlayer.Distance` with `AsWritten`, `AutoPlayer.DistanceThrowsOnDeadVertex` | `AutoPlayer.Distance` with `Corrected`, `AutoPlayer.DistanceCorrectsGuard`, `AutoPlayer.CorrectedNeverThrows`, `AutoPlayer.GuardsAgreeWithEdge` |
