/**
 * The targeting rules of three ghosts. Each ghost has a fixed spawn delay, a
 * CHASE target worked out from the player (and, for Inky, from Blinky) by
 * integer grid arithmetic, and a fixed FLEE corner; every target is handed to
 * the maze's nearest-vertex lookup, so it is always a vertex of the maze.
 */
module Ghosts {
  import opened Wrappers
  import opened MazeGraph
  import opened Game

  datatype Identity = Blinky | Pinky | Inky

  /** Milliseconds a ghost waits before it first moves. */
  function InitialDelay(id: Identity): nat
  {
    match id
    case Blinky => 2000
    case Pinky => 4000
    case Inky => 6000
  }

  /** The point a ghost heads for while in state FLEE, on a board of the given size. */
  function FleeCorner(id: Identity, width: int, height: int): IPair
  {
    match id
    case Blinky => IPair(2, 2)
    case Pinky => IPair(width - 3, 2)
    case Inky => IPair(2, height - 3)
  }

  /** A constructed ghost's identity-specific parameter. */
  datatype Profile = Profile(id: Identity, initialDelay: nat)

  /**
   * Blinky's constructor: whatever delay the caller passes, Blinky gets its
   * own fixed delay of 2000 ms.
   */
  function NewBlinky(initialDelay: int): (p: Profile)
    ensures p.id == Blinky
    ensures p.initialDelay == 2000
  {
    Profile(Blinky, InitialDelay(Blinky))
  }

  /** Blinky's constructor gives the same ghost for every argument. */
  lemma NewBlinkyIgnoresDelayArgument(d1: int, d2: int)
    ensures NewBlinky(d1) == NewBlinky(d2)
    ensures NewBlinky(d1).initialDelay == InitialDelay(Blinky)
  {
  }

  /** The ghosts are released one after another, two seconds apart, Blinky first. */
  lemma SpawnDelaysStaggered()
    ensures InitialDelay(Blinky) == NewBlinky(0).initialDelay
    ensures InitialDelay(Pinky) == InitialDelay(Blinky) + 2000
    ensures InitialDelay(Inky) == InitialDelay(Pinky) + 2000
  {
  }

  /** Pinky's look-ahead: the point `n` grid units from `p` in direction `d`. */
  function Ahead(p: IPair, d: Direction, n: int): (q: IPair)
    ensures q.i == p.i + n * StepI(d) && q.j == p.j + n * StepJ(d)
  {
    match d
    case Left => IPair(p.i - n, p.j)
    case Right => IPair(p.i + n, p.j)
    case Up => IPair(p.i, p.j - n)
    case Down => IPair(p.i, p.j + n)
  }

  /** The look-ahead moves along exactly one axis, by exactly `n`, and the other coordinate is kept. */
  lemma AheadMovesOneAxis(p: IPair, d: Direction, n: int)
    requires n > 0
    ensures d in {Left, Right} <==> Ahead(p, d, n).j == p.j
    ensures d in {Up, Down} <==> Ahead(p, d, n).i == p.i
    ensures (Ahead(p, d, n).i - p.i) + (Ahead(p, d, n).j - p.j) == n || (Ahead(p, d, n).i - p.i) + (Ahead(p, d, n).j - p.j) == -n
  {
  }

  /** Looking back the same distance from the look-ahead point returns to the player. */
  lemma AheadThenBack(p: IPair, d: Direction, n: int)
    ensures Ahead(Ahead(p, d, n), Opposite(d), n) == p
  {
  }

  /** Inky's raw target: the player's position displaced once more by the vector from Blinky to the player. */
  function Reflect(pac: IPair, blinky: IPair): (q: IPair)
    ensures q.i - pac.i == pac.i - blinky.i
    ensures q.j - pac.j == pac.j - blinky.j
  {
    IPair(2 * pac.i - blinky.i, 2 * pac.j - blinky.j)
  }

  /** The player is the midpoint of Blinky and the raw target, and the raw target is the only such point. */
  lemma ReflectIsPointReflection(pac: IPair, blinky: IPair, q: IPair)
    ensures q == Reflect(pac, blinky) <==> q.i + blinky.i == 2 * pac.i && q.j + blinky.j == 2 * pac.j
  {
  }

  /** Reflecting twice through the player gives Blinky's position back. */
  lemma ReflectInvolution(pac: IPair, blinky: IPair)
    ensures Reflect(pac, Reflect(pac, blinky)) == blinky
  {
  }

  /** With Blinky on the player's vertex, Inky aims at the player's vertex itself. */
  lemma ReflectFixedPoint(pac: IPair)
    ensures Reflect(pac, pac) == pac
  {
  }

  /** The player at (6,4) and Blinky at (2,2) give the raw target (10,6). */
  lemma ReflectExample()
    ensures Reflect(IPair(6, 4), IPair(2, 2)) == IPair(10, 6)
  {
  }

  /** Blinky's `target()`: the player's nearest vertex when chasing, the vertex nearest (2,2) when fleeing. */
  function BlinkyTarget(m: GameModel, state: GhostState): (t: IPair)
    requires Consistent(m)
    ensures t in m.graph.vertices
    ensures state == Chase ==> t == m.pacMann.nearestVertex
    ensures state == Flee ==> t == m.graph.closestTo(2, 2)
  {
    match state
    case Chase => m.pacMann.nearestVertex
    case Flee => m.graph.closestTo(FleeCorner(Blinky, m.width, m.height).i, FleeCorner(Blinky, m.width, m.height).j)
  }

  /**
   * Pinky's `target()`: when chasing, the vertex nearest the point three units
   * ahead of the player along the direction of the player's current edge;
   * the source reads that edge unguarded, so a player without an edge makes
   * it throw. When fleeing, the vertex nearest (width-3, 2).
   */
  function PinkyTarget(m: GameModel, state: GhostState): (t: Result<IPair>)
    requires Consistent(m)
    ensures t.Ok? ==> t.value in m.graph.vertices
    ensures t.Err? <==> state == Chase && m.pacMann.edge.None?
    ensures t.Err? ==> t.fault == NullPointer
    ensures state == Chase && m.pacMann.edge.Some? ==>
      var p := m.pacMann.nearestVertex;
      var d := m.pacMann.edge.value.direction;
      t == Ok(m.graph.closestTo(p.i + 3 * StepI(d), p.j + 3 * StepJ(d)))
    ensures state == Flee ==> t == Ok(m.graph.closestTo(m.width - 3, 2))
  {
    match state
    case Chase =>
      if m.pacMann.edge.None? then Err(NullPointer)
      else
        var q := Ahead(m.pacMann.nearestVertex, m.pacMann.edge.value.direction, 3);
        Ok(m.graph.closestTo(q.i, q.j))
    case Flee =>
      var c := FleeCorner(Pinky, m.width, m.height);
      Ok(m.graph.closestTo(c.i, c.j))
  }

  /**
   * Inky's `target()`: when chasing, the vertex nearest the point reflection
   * of Blinky's nearest vertex through the player's nearest vertex; when
   * fleeing, the vertex nearest (2, height-3).
   */
  function InkyTarget(m: GameModel, state: GhostState): (t: IPair)
    requires Consistent(m)
    ensures t in m.graph.vertices
    ensures state == Chase ==>
      var p := m.pacMann.nearestVertex;
      var b := m.blinky.nearestVertex;
      t == m.graph.closestTo(p.i + (p.i - b.i), p.j + (p.j - b.j))
    ensures state == Flee ==> t == m.graph.closestTo(2, m.height - 3)
  {
    match state
    case Chase =>
      var q := Reflect(m.pacMann.nearestVertex, m.blinky.nearestVertex);
      m.graph.closestTo(q.i, q.j)
    case Flee =>
      var c := FleeCorner(Inky, m.width, m.height);
      m.graph.closestTo(c.i, c.j)
  }

  /** A fleeing ghost's target depends only on the maze and the board size, never on the actors. */
  lemma FleeTargetsIgnoreActors(m1: GameModel, m2: GameModel)
    requires Consistent(m1) && Consistent(m2)
    requires m1.graph.closestTo == m2.graph.closestTo
    requires m1.width == m2.width && m1.height == m2.height
    ensures BlinkyTarget(m1, Flee) == BlinkyTarget(m2, Flee)
    ensures PinkyTarget(m1, Flee) == PinkyTarget(m2, Flee)
    ensures InkyTarget(m1, Flee) == InkyTarget(m2, Flee)
  {
  }
}
