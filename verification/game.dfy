/**
 * The read-only view of the running game that the decision and targeting
 * rules consult: the maze, the board size, the player's location, Blinky's
 * location, all actors, the item layout, the latest player command, and the
 * pathfinder. The pathfinder's breadth-first search is not part of this
 * model; it is a field, constrained only by `PathfinderOk`.
 */
module Game {
  import opened Wrappers
  import opened MazeGraph

  datatype GhostState = Chase | Flee

  datatype Item = Dot | Pellet

  /** An entry of the actor list: the player, or a ghost with its state and nearest vertex. */
  datatype Actor = PacMann | Ghost(state: GhostState, at: IPair)

  /**
   * An actor's location as the decision rules see it: its nearest vertex, the
   * edge it is on (possibly none), and whether it stands exactly on a vertex.
   */
  datatype Location = Location(nearestVertex: IPair, edge: Option<Edge>, atVertex: bool)

  /**
   * `shortestNonBacktrackingPath(start, target, prevEdge)`: the edges of a
   * shortest path from `start` to `target` whose first step does not reverse
   * `prevEdge`, or none when there is no such path. The target may be null.
   */
  type Pathfinder = (IPair, Option<IPair>, Option<Edge>) -> Option<seq<Edge>>

  datatype GameModel = GameModel(
    graph: Graph,
    width: int,
    height: int,
    pacMann: Location,
    blinky: Location,
    actors: seq<Actor>,
    items: map<IPair, Item>,
    playerCommand: Option<Direction>,
    shortestNonBacktrackingPath: Pathfinder)

  /** The one promise of the pathfinder the decision rules rely on: a non-empty path starts at `start`. */
  ghost predicate PathfinderOk(f: Pathfinder)
  {
    forall s, t, p :: f(s, t, p).Some? && |f(s, t, p).value| > 0 ==> f(s, t, p).value[0].tail == s
  }

  /** A consistent snapshot: a well-formed maze, the player on one of its vertices, a pathfinder that keeps its promise. */
  ghost predicate Consistent(m: GameModel)
  {
    && MazeGraph.Wf(m.graph)
    && m.pacMann.nearestVertex in m.graph.vertices
    && PathfinderOk(m.shortestNonBacktrackingPath)
  }

  predicate IsChasing(a: Actor)
  {
    a.Ghost? && a.state == Chase
  }

  predicate IsFleeing(a: Actor)
  {
    a.Ghost? && a.state == Flee
  }

  /** `itemAt(v) == item`: a vertex without an entry holds no item. */
  predicate HasItem(m: GameModel, v: IPair, item: Item)
  {
    v in m.items && m.items[v] == item
  }

  /** The vertices of `vs`, in order, that hold `item`. */
  function Filter(m: GameModel, vs: seq<IPair>, item: Item): (r: seq<IPair>)
    ensures forall v :: v in r <==> v in vs && HasItem(m, v, item)
    ensures |r| <= |vs|
    decreases |vs|
  {
    if |vs| == 0 then []
    else
      var prev := Filter(m, vs[..|vs| - 1], item);
      if HasItem(m, vs[|vs| - 1], item) then prev + [vs[|vs| - 1]] else prev
  }

  /** A one-vertex list keeps its vertex exactly when it holds the item. */
  lemma FilterSingle(m: GameModel, v: IPair, item: Item)
    ensures Filter(m, [v], item) == if HasItem(m, v, item) then [v] else []
  {
    assert [v][..0] == [];
  }

  /**
   * Filtering distributes over concatenation, so together with `FilterSingle`
   * the result is the in-order list of the vertices holding the item, each as
   * often as it occurs: the order closest-vertex ties are broken by.
   */
  lemma {:induction false} FilterAppend(m: GameModel, a: seq<IPair>, b: seq<IPair>, item: Item)
    ensures Filter(m, a + b, item) == Filter(m, a, item) + Filter(m, b, item)
    decreases |b|
  {
    if |b| == 0 {
      assert a + b == a;
    } else {
      var n := |b| - 1;
      assert (a + b)[..|a + b| - 1] == a + b[..n];
      assert (a + b)[|a + b| - 1] == b[n];
      FilterAppend(m, a, b[..n], item);
    }
  }

  /** `getVerticesWithItem`: the maze's vertices holding `item`, in the graph's vertex order. */
  function VerticesWithItem(m: GameModel, item: Item): (r: seq<IPair>)
    ensures forall v :: v in r <==> v in m.graph.vertices && HasItem(m, v, item)
  {
    Filter(m, m.graph.vertices, item)
  }

  /** Some actor is a ghost in state CHASE. */
  predicate AnyChasing(actors: seq<Actor>)
  {
    exists k :: 0 <= k < |actors| && IsChasing(actors[k])
  }

  /** Some actor is a ghost in state FLEE. */
  predicate AnyFleeing(actors: seq<Actor>)
  {
    exists k :: 0 <= k < |actors| && IsFleeing(actors[k])
  }

  /** `countChasingGhosts`: the number of ghosts among the actors that are in state CHASE. */
  function CountChasing(actors: seq<Actor>): (r: nat)
    ensures r <= |actors|
    decreases |actors|
  {
    if |actors| == 0 then 0
    else CountChasing(actors[..|actors| - 1]) + (if IsChasing(actors[|actors| - 1]) then 1 else 0)
  }

  /** The positions of the chasing ghosts in the actor list. */
  ghost function ChasingPositions(actors: seq<Actor>): set<nat>
  {
    set k: nat | k < |actors| && IsChasing(actors[k])
  }

  /** The count is exactly the number of chasing ghosts: positions counted once each. */
  lemma {:induction false} CountChasingCountsChasers(actors: seq<Actor>)
    ensures CountChasing(actors) == |ChasingPositions(actors)|
    decreases |actors|
  {
    if |actors| > 0 {
      var n := |actors| - 1;
      var prefix := actors[..n];
      CountChasingCountsChasers(prefix);
      assert ChasingPositions(prefix) == set k: nat | k < n && IsChasing(actors[k]);
      if IsChasing(actors[n]) {
        assert ChasingPositions(actors) == ChasingPositions(prefix) + {n};
      } else {
        assert ChasingPositions(actors) == ChasingPositions(prefix);
      }
    }
  }

  /** No ghost is counted as chasing exactly when none is in state CHASE. */
  lemma {:induction false} CountChasingZero(actors: seq<Actor>)
    ensures CountChasing(actors) == 0 <==> forall k :: 0 <= k < |actors| ==> !IsChasing(actors[k])
    decreases |actors|
  {
    if |actors| > 0 {
      var n := |actors| - 1;
      CountChasingZero(actors[..n]);
      assert forall k :: 0 <= k < n ==> actors[..n][k] == actors[k];
    }
  }
}
