/**
 * The autonomous player (`PacMannAI`). At each vertex it runs a priority
 * cascade: evade when a chasing ghost is near, otherwise hunt the nearest
 * fleeing ghost, otherwise collect a pellet when pellets remain and at least
 * two ghosts are chasing, otherwise collect a dot. Every "nearest" is by
 * non-backtracking path length, with +infinity for "no path", and every
 * choice keeps the first candidate among equals.
 *
 * All of it rests on `distance`, whose guard for a player without a current
 * edge is inverted. Each member therefore takes a `Guard`: `AsWritten` is the
 * code, which can throw; `Corrected` is the evidently intended guard, which
 * never throws. With a current edge the two coincide (`GuardsAgreeWithEdge`).
 */
module AutoPlayer {
  import opened Wrappers
  import opened MazeGraph
  import opened Distances
  import opened Game

  /** `ESCAPE_THRESHOLD` (3.0): path lengths are whole numbers, so `d < 3.0` is `Lt(d, Fin(3))`. */
  const EscapeThreshold: nat := 3

  /** Which guard `distance` uses when the player has no current edge. */
  datatype Guard =
    | AsWritten   // `!hasNext()`: asks for `next()` of an empty iterator, else passes null on
    | Corrected   // `hasNext()`: substitutes the vertex's first edge when it has one

  /** A pathfinder answer read as a distance: its number of edges, or +infinity for no path. */
  function PathLength(path: Option<seq<Edge>>): (d: Dist)
    ensures d.Inf? <==> path.None?
    ensures d.Fin? ==> d.n == |path.value|
  {
    match path
    case None => Inf
    case Some(p) => Fin(|p|)
  }

  /**
   * The edge `distance(v, _)` hands the pathfinder as the one not to reverse:
   * the player's current edge; when there is none, the code keeps the null,
   * while the corrected guard substitutes the first edge leaving `v`, if any.
   */
  function PrevEdgeFor(m: GameModel, v: IPair, guard: Guard): (p: Option<Edge>)
    ensures m.pacMann.edge.Some? ==> p == m.pacMann.edge
    ensures guard == AsWritten ==> p == m.pacMann.edge
    ensures guard == Corrected ==> (p.None? <==> m.pacMann.edge.None? && |Outgoing(m.graph, v)| == 0)
    ensures guard == Corrected && m.pacMann.edge.None? && p.Some? ==> p.value in Outgoing(m.graph, v)
    ensures guard == Corrected && m.pacMann.edge.None? && |Outgoing(m.graph, v)| > 0 ==> p == Some(Outgoing(m.graph, v)[0])
  {
    if guard == Corrected && m.pacMann.edge.None? && |Outgoing(m.graph, v)| > 0 then Some(Outgoing(m.graph, v)[0])
    else m.pacMann.edge
  }

  /**
   * `distance(v, _)` throws: the code's guard calls `next()` exactly when the
   * player has no edge and `v` has no outgoing edge. The condition does not
   * depend on the target, so a loop of `distance(v, _)` calls throws exactly
   * when it makes at least one call.
   */
  predicate Throws(m: GameModel, v: IPair, guard: Guard)
  {
    guard == AsWritten && m.pacMann.edge.None? && |Outgoing(m.graph, v)| == 0
  }

  /** The value `distance(v, w)` returns when it does not throw. */
  function PathDistance(m: GameModel, v: IPair, w: Option<IPair>, guard: Guard): (d: Dist)
    ensures d.Inf? <==> m.shortestNonBacktrackingPath(v, w, PrevEdgeFor(m, v, guard)).None?
    ensures d.Fin? ==> d.n == |m.shortestNonBacktrackingPath(v, w, PrevEdgeFor(m, v, guard)).value|
  {
    PathLength(m.shortestNonBacktrackingPath(v, w, PrevEdgeFor(m, v, guard)))
  }

  /**
   * `distance(v, w)`: the number of edges of the non-backtracking path from
   * `v` to `w`, or +infinity when there is none. As written it throws
   * NoSuchElement exactly when the player has no edge and `v` has no
   * outgoing edge, and otherwise passes the player's edge on unchanged;
   * with the corrected guard it never throws.
   */
  function Distance(m: GameModel, v: IPair, w: Option<IPair>, guard: Guard): (r: Result<Dist>)
    ensures r.Err? <==> Throws(m, v, guard)
    ensures r.Err? ==> r.fault == NoSuchElement
    ensures guard == AsWritten && r.Ok? ==>
      r.value == PathLength(m.shortestNonBacktrackingPath(v, w, m.pacMann.edge))
    ensures r.Ok? ==> r.value == PathLength(m.shortestNonBacktrackingPath(v, w, PrevEdgeFor(m, v, guard)))
  {
    if Throws(m, v, guard) then Err(NoSuchElement)
    else Ok(PathDistance(m, v, w, guard))
  }

  /** A vertex with no outgoing edge while the player has no current edge makes the code's `distance` throw. */
  lemma DistanceThrowsOnDeadVertex()
    ensures
      var dead := IPair(0, 0);
      var m := GameModel(
        Graph([dead], map[], (x, y) => dead), 1, 1,
        Location(dead, None, true), Location(dead, None, true),
        [PacMann], map[], None, (s, t, p) => None);
      Distance(m, dead, Some(dead), AsWritten) == Err(NoSuchElement)
  {
  }

  /**
   * The corrected `distance` never throws, substitutes an edge leaving `v`
   * itself when the player has none, and agrees with the code whenever the
   * player has a current edge.
   */
  lemma DistanceCorrectsGuard(m: GameModel, v: IPair, w: Option<IPair>)
    requires MazeGraph.Wf(m.graph)
    ensures Distance(m, v, w, Corrected).Ok?
    ensures m.pacMann.edge.Some? ==> Distance(m, v, w, AsWritten) == Distance(m, v, w, Corrected)
    ensures m.pacMann.edge.None? && |Outgoing(m.graph, v)| > 0 ==>
      PrevEdgeFor(m, v, Corrected).Some? && PrevEdgeFor(m, v, Corrected).value.tail == v
  {
  }

  /** The distances from `v` to each actor, +infinity for every actor that is not a chasing ghost. */
  function ChaseDistances(m: GameModel, v: IPair, guard: Guard): seq<Dist>
  {
    seq(|m.actors|, k requires 0 <= k < |m.actors| =>
      if IsChasing(m.actors[k]) then PathDistance(m, v, Some(m.actors[k].at), guard) else Inf)
  }

  /**
   * The value `shortestGhostDistance(v)` returns when it does not throw: the
   * least distance from `v` to a chasing ghost; +infinity when no ghost is
   * chasing or none can be reached.
   */
  function NearestChaser(m: GameModel, v: IPair, guard: Guard): (r: Dist)
    ensures forall k :: 0 <= k < |m.actors| && IsChasing(m.actors[k]) ==>
      Le(r, PathDistance(m, v, Some(m.actors[k].at), guard))
    ensures r.Inf? <==> forall k :: 0 <= k < |m.actors| && IsChasing(m.actors[k]) ==>
      PathDistance(m, v, Some(m.actors[k].at), guard).Inf?
    ensures r.Fin? ==> exists k ::
      0 <= k < |m.actors| && IsChasing(m.actors[k]) && PathDistance(m, v, Some(m.actors[k].at), guard) == r
  {
    var ds := ChaseDistances(m, v, guard);
    assert forall k :: 0 <= k < |m.actors| ==>
      ds[k] == (if IsChasing(m.actors[k]) then PathDistance(m, v, Some(m.actors[k].at), guard) else Inf);
    MinOf(ds)
  }

  /**
   * `shortestGhostDistance(v)`: throws exactly when `distance(v, _)` throws
   * and some ghost is chasing (only chasing ghosts are measured); otherwise
   * the nearest chasing ghost's distance.
   */
  function ShortestGhostDistance(m: GameModel, v: IPair, guard: Guard): (r: Result<Dist>)
    ensures r.Err? <==> Throws(m, v, guard) && AnyChasing(m.actors)
    ensures r.Err? ==> r.fault == NoSuchElement
    ensures r.Ok? ==> r.value == NearestChaser(m, v, guard)
  {
    if Throws(m, v, guard) && AnyChasing(m.actors) then Err(NoSuchElement)
    else Ok(NearestChaser(m, v, guard))
  }

  /** The player must evade: a chasing ghost is fewer than `EscapeThreshold` edges away. */
  predicate Evading(m: GameModel, guard: Guard)
  {
    Lt(NearestChaser(m, m.pacMann.nearestVertex, guard), Fin(EscapeThreshold))
  }

  /** How far from the chasing ghosts each edge of `es` leads. */
  function HeadSafety(m: GameModel, es: seq<Edge>, guard: Guard): seq<Dist>
  {
    seq(|es|, k requires 0 <= k < |es| => NearestChaser(m, es[k].head, guard))
  }

  /**
   * `maximizeShortestChasingGhostDistance`: throws when some chasing ghost is
   * measured from an edge's head where `distance` throws; otherwise the edge
   * leaving the player's vertex whose head is farthest from the nearest
   * chasing ghost, the first such edge on ties, and none only when the vertex
   * has no edge.
   */
  function MaximizeShortestChasingGhostDistance(m: GameModel, guard: Guard): (r: Result<Option<Edge>>)
    requires Consistent(m)
    ensures
      var es := Outgoing(m.graph, m.pacMann.nearestVertex);
      && (r.Err? <==> AnyChasing(m.actors) && exists e :: e in es && Throws(m, e.head, guard))
      && (r.Err? ==> r.fault == NoSuchElement)
      && (r.Ok? ==> (r.value.None? <==> |es| == 0))
      && (r.Ok? && r.value.Some? ==> r.value.value in es && r.value.value.tail == m.pacMann.nearestVertex)
      && (r.Ok? && r.value.Some? ==> forall e :: e in es ==>
            Le(NearestChaser(m, e.head, guard), NearestChaser(m, r.value.value.head, guard)))
      && (r.Ok? && r.value.Some? ==> forall k ::
            (0 <= k < |es| && NearestChaser(m, es[k].head, guard) == NearestChaser(m, r.value.value.head, guard))
            ==> r.value.value in es[..k + 1])
  {
    var es := Outgoing(m.graph, m.pacMann.nearestVertex);
    assert forall e :: e in es ==> exists k :: 0 <= k < |es| && es[k] == e;
    if AnyChasing(m.actors) && exists k :: 0 <= k < |es| && Throws(m, es[k].head, guard) then
      Err(NoSuchElement)
    else
      var ds := HeadSafety(m, es, guard);
      match FirstArgMax(ds)
      case None => Ok(None)
      case Some(i) =>
        assert forall k :: 0 <= k < |es| ==> ds[k] == NearestChaser(m, es[k].head, guard);
        assert forall k :: 0 <= k < |es| && ds[k] == ds[i] ==> i <= k && es[i] in es[..k + 1];
        Ok(Some(es[i]))
  }

  /** The distances from the player to each actor, +infinity for every actor that is not a fleeing ghost. */
  function FleeDistances(m: GameModel, guard: Guard): seq<Dist>
  {
    seq(|m.actors|, k requires 0 <= k < |m.actors| =>
      if IsFleeing(m.actors[k]) then PathDistance(m, m.pacMann.nearestVertex, Some(m.actors[k].at), guard) else Inf)
  }

  /**
   * `closestFleeingGhost`, as the position of that ghost in the actor list.
   * It throws exactly when `distance` from the player throws and some ghost
   * is fleeing. Otherwise it is a fleeing ghost at the least finite distance,
   * the first one on ties, and none when no fleeing ghost can be reached,
   * which includes, but is not limited to, no ghost fleeing: an unreachable
   * ghost's +infinity never beats the initial +infinity.
   */
  function ClosestFleeingGhost(m: GameModel, guard: Guard): (r: Result<Option<nat>>)
    ensures r.Err? <==> Throws(m, m.pacMann.nearestVertex, guard) && AnyFleeing(m.actors)
    ensures r.Err? ==> r.fault == NoSuchElement
    ensures r.Ok? ==>
      var pac := m.pacMann.nearestVertex;
      var g := r.value;
      && (g.Some? ==> g.value < |m.actors| && IsFleeing(m.actors[g.value]))
      && (g.Some? ==> PathDistance(m, pac, Some(m.actors[g.value].at), guard).Fin?)
      && (g.Some? ==> forall k :: 0 <= k < |m.actors| && IsFleeing(m.actors[k]) ==>
            Le(PathDistance(m, pac, Some(m.actors[g.value].at), guard), PathDistance(m, pac, Some(m.actors[k].at), guard)))
      && (g.Some? ==> forall k :: 0 <= k < g.value && IsFleeing(m.actors[k]) ==>
            Lt(PathDistance(m, pac, Some(m.actors[g.value].at), guard), PathDistance(m, pac, Some(m.actors[k].at), guard)))
      && (g.None? <==> forall k :: 0 <= k < |m.actors| && IsFleeing(m.actors[k]) ==>
            PathDistance(m, pac, Some(m.actors[k].at), guard).Inf?)
  {
    if Throws(m, m.pacMann.nearestVertex, guard) && AnyFleeing(m.actors) then Err(NoSuchElement)
    else
      var ds := FleeDistances(m, guard);
      assert forall k :: 0 <= k < |m.actors| ==>
        ds[k] == (if IsFleeing(m.actors[k]) then PathDistance(m, m.pacMann.nearestVertex, Some(m.actors[k].at), guard) else Inf);
      Ok(FirstArgMin(ds))
  }

  /** The distances from `start` to each candidate. */
  function CandidateDistances(m: GameModel, start: IPair, candidates: seq<IPair>, guard: Guard): seq<Dist>
  {
    seq(|candidates|, k requires 0 <= k < |candidates| => PathDistance(m, start, Some(candidates[k]), guard))
  }

  /**
   * `closestVertex(start, candidates)`: throws exactly when there is a
   * candidate and `distance` from `start` throws; otherwise the candidate at
   * the least finite distance from `start`, the first on ties, or null when
   * none can be reached.
   */
  function ClosestVertex(m: GameModel, start: IPair, candidates: seq<IPair>, guard: Guard): (r: Result<Option<IPair>>)
    ensures r.Err? <==> Throws(m, start, guard) && |candidates| > 0
    ensures r.Err? ==> r.fault == NoSuchElement
    ensures r.Ok? && r.value.Some? ==>
      r.value.value in candidates && PathDistance(m, start, r.value, guard).Fin?
    ensures r.Ok? && r.value.Some? ==> forall c :: c in candidates ==>
      Le(PathDistance(m, start, r.value, guard), PathDistance(m, start, Some(c), guard))
    ensures r.Ok? && r.value.Some? ==> forall k ::
      (0 <= k < |candidates| && PathDistance(m, start, Some(candidates[k]), guard) == PathDistance(m, start, r.value, guard))
      ==> r.value.value in candidates[..k + 1]
    ensures r.Ok? ==> (r.value.None? <==> forall c :: c in candidates ==> PathDistance(m, start, Some(c), guard).Inf?)
  {
    if Throws(m, start, guard) && |candidates| > 0 then Err(NoSuchElement)
    else
      var ds := CandidateDistances(m, start, candidates, guard);
      assert forall k :: 0 <= k < |candidates| ==> ds[k] == PathDistance(m, start, Some(candidates[k]), guard);
      assert forall c :: c in candidates ==> exists k :: 0 <= k < |candidates| && candidates[k] == c;
      match FirstArgMin(ds)
      case None => Ok(None)
      case Some(i) =>
        assert forall k :: 0 <= k < |candidates| && ds[k] == ds[i] ==> i <= k && candidates[i] in candidates[..k + 1];
        Ok(Some(candidates[i]))
  }

  /** The distances from the head of each edge of `es` to `target`. */
  function HeadDistances(m: GameModel, es: seq<Edge>, target: Option<IPair>, guard: Guard): seq<Dist>
  {
    seq(|es|, k requires 0 <= k < |es| => PathDistance(m, es[k].head, target, guard))
  }

  /**
   * The greedy fallback of `bestFirstStep`: it throws when `distance` throws
   * from the head of an edge leaving `start`; otherwise it is the edge leaving
   * `start` whose head is nearest the target, the first on ties, or none when
   * no head reaches it.
   */
  function GreedyStep(m: GameModel, start: IPair, target: Option<IPair>, guard: Guard): (r: Result<Option<Edge>>)
    requires Consistent(m)
    ensures
      var es := Outgoing(m.graph, start);
      && (r.Err? <==> exists e :: e in es && Throws(m, e.head, guard))
      && (r.Err? ==> r.fault == NoSuchElement)
      && (r.Ok? ==> (r.value.None? <==> forall e :: e in es ==> PathDistance(m, e.head, target, guard).Inf?))
      && (r.Ok? && r.value.Some? ==> r.value.value in es && r.value.value.tail == start)
      && (r.Ok? && r.value.Some? ==> PathDistance(m, r.value.value.head, target, guard).Fin?)
      && (r.Ok? && r.value.Some? ==> forall e :: e in es ==>
            Le(PathDistance(m, r.value.value.head, target, guard), PathDistance(m, e.head, target, guard)))
      && (r.Ok? && r.value.Some? ==> forall k ::
            (0 <= k < |es| && PathDistance(m, es[k].head, target, guard) == PathDistance(m, r.value.value.head, target, guard))
            ==> r.value.value in es[..k + 1])
  {
    var es := Outgoing(m.graph, start);
    assert forall e :: e in es ==> exists k :: 0 <= k < |es| && es[k] == e;
    if exists k :: 0 <= k < |es| && Throws(m, es[k].head, guard) then
      Err(NoSuchElement)
    else
      var ds := HeadDistances(m, es, target, guard);
      assert forall k :: 0 <= k < |es| ==> ds[k] == PathDistance(m, es[k].head, target, guard);
      match FirstArgMin(ds)
      case None => Ok(None)
      case Some(i) =>
        assert forall k :: 0 <= k < |es| && ds[k] == ds[i] ==> i <= k && es[i] in es[..k + 1];
        Ok(Some(es[i]))
  }

  /**
   * `bestFirstStep(start, target, prevEdge)`: the first edge of the
   * non-backtracking path when there is a non-empty one, otherwise the greedy
   * fallback. Every edge returned leaves `start`.
   */
  function BestFirstStep(m: GameModel, start: IPair, target: Option<IPair>, prevEdge: Option<Edge>, guard: Guard)
    : (r: Result<Option<Edge>>)
    requires Consistent(m)
    ensures r.Ok? && r.value.Some? ==> r.value.value.tail == start
    ensures r.Err? ==> r.fault == NoSuchElement
    ensures
      var path := m.shortestNonBacktrackingPath(start, target, prevEdge);
      path.Some? && |path.value| > 0 ==> r == Ok(Some(path.value[0]))
    ensures
      var path := m.shortestNonBacktrackingPath(start, target, prevEdge);
      !(path.Some? && |path.value| > 0) ==> r == GreedyStep(m, start, target, guard)
  {
    var path := m.shortestNonBacktrackingPath(start, target, prevEdge);
    if path.Some? && |path.value| > 0 then Ok(Some(path.value[0]))
    else GreedyStep(m, start, target, guard)
  }

  /**
   * `edgeToClosestVertex(targets)`: none for no targets. Otherwise it throws
   * when the player's own `distance` throws, and also when the best first
   * step's greedy fallback throws from an edge's head; else it picks a target nearest
   * the player (the first on ties, or null when none is reachable) and
   * answers with the best first step towards it along the player's edge.
   */
  function EdgeToClosestVertex(m: GameModel, targets: seq<IPair>, guard: Guard): (r: Result<Option<Edge>>)
    requires Consistent(m)
    ensures |targets| == 0 ==> r == Ok(None)
    ensures r.Ok? && r.value.Some? ==> r.value.value.tail == m.pacMann.nearestVertex
    ensures r.Err? ==> r.fault == NoSuchElement && guard == AsWritten && m.pacMann.edge.None?
    ensures |targets| > 0 && Throws(m, m.pacMann.nearestVertex, guard) ==> r.Err?
    ensures |targets| > 0 && !Throws(m, m.pacMann.nearestVertex, guard) ==>
      var pac := m.pacMann.nearestVertex;
      exists goal: Option<IPair> ::
        && ClosestVertex(m, pac, targets, guard) == Ok(goal)
        && (goal.Some? ==> goal.value in targets && forall t :: t in targets ==>
              Le(PathDistance(m, pac, goal, guard), PathDistance(m, pac, Some(t), guard)))
        && (goal.None? ==> forall t :: t in targets ==> PathDistance(m, pac, Some(t), guard).Inf?)
        && r == BestFirstStep(m, pac, goal, m.pacMann.edge, guard)
  {
    if |targets| == 0 then Ok(None)
    else
      var pac := m.pacMann.nearestVertex;
      match ClosestVertex(m, pac, targets, guard)
      case Err(f) => Err(f)
      case Ok(goal) => BestFirstStep(m, pac, goal, m.pacMann.edge, guard)
  }

  /**
   * The player's own `distance` need not throw for `edgeToClosestVertex` to
   * throw: with no path to the target the greedy fallback measures from an
   * edge's head, and a head with no outgoing edge makes the code throw there.
   */
  lemma EdgeToClosestVertexThrowsInFallback()
    ensures
      var v := IPair(0, 0);
      var u := IPair(1, 0);
      var m := GameModel(
        Graph([v, u], map[v := [Edge(v, u, Right)]], (x, y) => v), 2, 1,
        Location(v, None, true), Location(v, None, true),
        [PacMann], map[u := Dot], None, (s, t, p) => None);
      && Consistent(m)
      && !Throws(m, v, AsWritten)
      && EdgeToClosestVertex(m, [u], AsWritten) == Err(NoSuchElement)
  {
  }

  /**
   * `chaseClosestGhostEdge`, callable only when some fleeing ghost is
   * reachable: the best first step from the player towards that ghost.
   */
  function ChaseClosestGhostEdge(m: GameModel, guard: Guard): (r: Result<Option<Edge>>)
    requires Consistent(m)
    requires ClosestFleeingGhost(m, guard).Ok? && ClosestFleeingGhost(m, guard).value.Some?
    ensures r.Ok? && r.value.Some? ==> r.value.value.tail == m.pacMann.nearestVertex
    ensures
      var g := ClosestFleeingGhost(m, guard).value.value;
      var pac := m.pacMann.nearestVertex;
      var path := m.shortestNonBacktrackingPath(pac, Some(m.actors[g].at), m.pacMann.edge);
      && IsFleeing(m.actors[g])
      && (path.Some? && |path.value| > 0 ==> r == Ok(Some(path.value[0])))
  {
    var g := m.actors[ClosestFleeingGhost(m, guard).value.value];
    BestFirstStep(m, m.pacMann.nearestVertex, Some(g.at), m.pacMann.edge, guard)
  }

  /**
   * `PacMannAI.nextEdge`. Every edge it returns leaves the player's vertex,
   * and it can throw only through the code's guard, for a player without an
   * edge. Evasion comes first and answers with the safest edge; then hunting
   * the nearest reachable fleeing ghost; then the nearest pellet, but only
   * while pellets remain and at least two ghosts chase; then the nearest dot.
   */
  function NextEdge(m: GameModel, guard: Guard): (r: Result<Option<Edge>>)
    requires Consistent(m)
    ensures r.Ok? && r.value.Some? ==> r.value.value.tail == m.pacMann.nearestVertex
    ensures r.Err? ==> r.fault == NoSuchElement && guard == AsWritten && m.pacMann.edge.None?
    ensures Throws(m, m.pacMann.nearestVertex, guard) && AnyChasing(m.actors) ==> r.Err?
    ensures !(Throws(m, m.pacMann.nearestVertex, guard) && AnyChasing(m.actors)) && Evading(m, guard) ==>
      r == MaximizeShortestChasingGhostDistance(m, guard)
    ensures !(Throws(m, m.pacMann.nearestVertex, guard) && AnyChasing(m.actors)) && !Evading(m, guard) ==>
      && (ClosestFleeingGhost(m, guard).Err? ==> r.Err?)
      && (ClosestFleeingGhost(m, guard) == Ok(None) ==>
            var pellets := VerticesWithItem(m, Pellet);
            if |pellets| > 0 && CountChasing(m.actors) >= 2 then r == EdgeToClosestVertex(m, pellets, guard)
            else r == EdgeToClosestVertex(m, VerticesWithItem(m, Dot), guard))
      && (ClosestFleeingGhost(m, guard).Ok? && ClosestFleeingGhost(m, guard).value.Some? ==>
            r == BestFirstStep(m, m.pacMann.nearestVertex,
                   Some(m.actors[ClosestFleeingGhost(m, guard).value.value].at), m.pacMann.edge, guard))
  {
    var start := m.pacMann.nearestVertex;
    var pellets := VerticesWithItem(m, Pellet);
    var dots := VerticesWithItem(m, Dot);
    match ShortestGhostDistance(m, start, guard)
    case Err(f) => Err(f)
    case Ok(shortestGhost) =>
      if Lt(shortestGhost, Fin(EscapeThreshold)) then
        MaximizeShortestChasingGhostDistance(m, guard)
      else
        match ClosestFleeingGhost(m, guard)
        case Err(f) => Err(f)
        case Ok(fleeing) =>
          if fleeing.Some? then
            ChaseClosestGhostEdge(m, guard)
          else if |pellets| > 0 && CountChasing(m.actors) >= 2 then
            EdgeToClosestVertex(m, pellets, guard)
          else
            EdgeToClosestVertex(m, dots, guard)
  }

  /** With no ghost chasing, the player never evades, whichever guard is used. */
  lemma NoChasersNoEvasion(m: GameModel, guard: Guard)
    requires CountChasing(m.actors) == 0
    ensures !Evading(m, guard)
    ensures ShortestGhostDistance(m, m.pacMann.nearestVertex, guard) == Ok(Inf)
  {
    CountChasingZero(m.actors);
  }

  /**
   * With exactly one chasing ghost within the escape threshold, the player
   * takes the edge whose head is farthest, by path length, from that ghost.
   */
  lemma SingleChaserEvasion(m: GameModel, guard: Guard, g: nat)
    requires Consistent(m)
    requires g < |m.actors| && IsChasing(m.actors[g])
    requires forall k :: 0 <= k < |m.actors| && IsChasing(m.actors[k]) ==> k == g
    requires Lt(PathDistance(m, m.pacMann.nearestVertex, Some(m.actors[g].at), guard), Fin(EscapeThreshold))
    ensures
      var es := Outgoing(m.graph, m.pacMann.nearestVertex);
      var chaser := Some(m.actors[g].at);
      var r := NextEdge(m, guard);
      && (r.Ok? ==> (r.value.None? <==> |es| == 0))
      && (r.Ok? && r.value.Some? ==> r.value.value in es && forall e :: e in es ==>
            Le(PathDistance(m, e.head, chaser, guard), PathDistance(m, r.value.value.head, chaser, guard)))
  {
    forall v: IPair
      ensures NearestChaser(m, v, guard) == PathDistance(m, v, Some(m.actors[g].at), guard)
    {
      OnlyChaserDistance(m, guard, g, v);
    }
    assert Evading(m, guard);
  }

  /** With exactly one chasing ghost, the nearest chaser's distance is the distance to that ghost. */
  lemma OnlyChaserDistance(m: GameModel, guard: Guard, g: nat, v: IPair)
    requires g < |m.actors| && IsChasing(m.actors[g])
    requires forall k :: 0 <= k < |m.actors| && IsChasing(m.actors[k]) ==> k == g
    ensures NearestChaser(m, v, guard) == PathDistance(m, v, Some(m.actors[g].at), guard)
  {
  }

  /** The corrected cascade never throws. */
  lemma CorrectedNeverThrows(m: GameModel)
    requires Consistent(m)
    ensures NextEdge(m, Corrected).Ok?
  {
  }

  /** With a current edge both guards pass the same edge to the pathfinder, so every measured distance agrees. */
  lemma DistancesAgreeWithEdge(m: GameModel, v: IPair)
    requires m.pacMann.edge.Some?
    ensures forall w :: PathDistance(m, v, w, AsWritten) == PathDistance(m, v, w, Corrected)
    ensures ChaseDistances(m, v, AsWritten) == ChaseDistances(m, v, Corrected)
    ensures NearestChaser(m, v, AsWritten) == NearestChaser(m, v, Corrected)
  {
    assert ChaseDistances(m, v, AsWritten) == ChaseDistances(m, v, Corrected);
  }

  /** With a current edge both guards pick the same evasion edge. */
  lemma MaximizeAgreesWithEdge(m: GameModel)
    requires Consistent(m)
    requires m.pacMann.edge.Some?
    ensures MaximizeShortestChasingGhostDistance(m, AsWritten) == MaximizeShortestChasingGhostDistance(m, Corrected)
  {
    var es := Outgoing(m.graph, m.pacMann.nearestVertex);
    forall k | 0 <= k < |es|
      ensures NearestChaser(m, es[k].head, AsWritten) == NearestChaser(m, es[k].head, Corrected)
    {
      DistancesAgreeWithEdge(m, es[k].head);
    }
    assert HeadSafety(m, es, AsWritten) == HeadSafety(m, es, Corrected);
  }

  /** With a current edge both guards pick the same fleeing ghost. */
  lemma ClosestFleeingGhostAgreesWithEdge(m: GameModel)
    requires m.pacMann.edge.Some?
    ensures ClosestFleeingGhost(m, AsWritten) == ClosestFleeingGhost(m, Corrected)
  {
    DistancesAgreeWithEdge(m, m.pacMann.nearestVertex);
    assert FleeDistances(m, AsWritten) == FleeDistances(m, Corrected);
  }

  /** With a current edge both guards pick the same closest candidate. */
  lemma ClosestVertexAgreesWithEdge(m: GameModel, start: IPair, cs: seq<IPair>)
    requires m.pacMann.edge.Some?
    ensures ClosestVertex(m, start, cs, AsWritten) == ClosestVertex(m, start, cs, Corrected)
  {
    DistancesAgreeWithEdge(m, start);
    assert !Throws(m, start, AsWritten) && !Throws(m, start, Corrected);
    assert CandidateDistances(m, start, cs, AsWritten) == CandidateDistances(m, start, cs, Corrected);
    assert FirstArgMin(CandidateDistances(m, start, cs, AsWritten)) == FirstArgMin(CandidateDistances(m, start, cs, Corrected));
  }

  /** With a current edge both guards take the same greedy fallback. */
  lemma GreedyStepAgreesWithEdge(m: GameModel, start: IPair, t: Option<IPair>)
    requires Consistent(m)
    requires m.pacMann.edge.Some?
    ensures GreedyStep(m, start, t, AsWritten) == GreedyStep(m, start, t, Corrected)
  {
    var es := Outgoing(m.graph, start);
    forall k | 0 <= k < |es|
      ensures PathDistance(m, es[k].head, t, AsWritten) == PathDistance(m, es[k].head, t, Corrected)
    {
      DistancesAgreeWithEdge(m, es[k].head);
    }
    assert HeadDistances(m, es, t, AsWritten) == HeadDistances(m, es, t, Corrected);
    assert FirstArgMin(HeadDistances(m, es, t, AsWritten)) == FirstArgMin(HeadDistances(m, es, t, Corrected));
    assert forall k :: 0 <= k < |es| ==> !Throws(m, es[k].head, AsWritten) && !Throws(m, es[k].head, Corrected);
  }

  /** With a current edge both guards take the same step towards the closest target. */
  lemma EdgeToClosestVertexAgreesWithEdge(m: GameModel, targets: seq<IPair>)
    requires Consistent(m)
    requires m.pacMann.edge.Some?
    ensures EdgeToClosestVertex(m, targets, AsWritten) == EdgeToClosestVertex(m, targets, Corrected)
  {
    var pac := m.pacMann.nearestVertex;
    ClosestVertexAgreesWithEdge(m, pac, targets);
    var goal := ClosestVertex(m, pac, targets, Corrected);
    if goal.Ok? {
      GreedyStepAgreesWithEdge(m, pac, goal.value);
    }
  }

  /**
   * When the player has a current edge the guard is never consulted, so the
   * code's cascade and the corrected one choose the same edge.
   */
  lemma GuardsAgreeWithEdge(m: GameModel)
    requires Consistent(m)
    requires m.pacMann.edge.Some?
    ensures NextEdge(m, AsWritten) == NextEdge(m, Corrected)
  {
    var pac := m.pacMann.nearestVertex;
    DistancesAgreeWithEdge(m, pac);
    MaximizeAgreesWithEdge(m);
    ClosestFleeingGhostAgreesWithEdge(m);
    var fleeing := ClosestFleeingGhost(m, Corrected);
    if fleeing.Ok? && fleeing.value.Some? {
      GreedyStepAgreesWithEdge(m, pac, Some(m.actors[fleeing.value.value].at));
    }
    EdgeToClosestVertexAgreesWithEdge(m, VerticesWithItem(m, Pellet));
    EdgeToClosestVertexAgreesWithEdge(m, VerticesWithItem(m, Dot));
  }
}
