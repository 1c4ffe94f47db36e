/**
 * The player driven by the keyboard: at each vertex it turns in the most
 * recently commanded direction if it can, otherwise keeps going the way it
 * was going, otherwise stops.
 */
module ManualPlayer {
  import opened Wrappers
  import opened MazeGraph
  import opened Game

  /** There is an edge leaving `v` in direction `d`. */
  predicate CanGo(g: Graph, v: IPair, d: Direction)
  {
    exists e :: e in Outgoing(g, v) && e.direction == d
  }

  /**
   * `PacMannManual.nextEdge`, callable only while the player stands exactly
   * on a vertex. Every edge it returns leaves that vertex; it points in the
   * commanded direction whenever that is possible, else in the direction of
   * the player's current edge whenever that is possible, and there is no
   * edge only when neither is possible.
   */
  function NextEdge(m: GameModel): (r: Option<Edge>)
    requires MazeGraph.Wf(m.graph)
    requires m.pacMann.atVertex
    ensures r.Some? ==> r.value in Outgoing(m.graph, m.pacMann.nearestVertex)
    ensures r.Some? ==> r.value.tail == m.pacMann.nearestVertex
    ensures m.playerCommand.Some? && CanGo(m.graph, m.pacMann.nearestVertex, m.playerCommand.value) ==>
      r.Some? && r.value.direction == m.playerCommand.value
    ensures
      (&& !(m.playerCommand.Some? && CanGo(m.graph, m.pacMann.nearestVertex, m.playerCommand.value))
       && m.pacMann.edge.Some? && CanGo(m.graph, m.pacMann.nearestVertex, m.pacMann.edge.value.direction))
      ==> r.Some? && r.value.direction == m.pacMann.edge.value.direction
    ensures r.None? <==>
      && !(m.playerCommand.Some? && CanGo(m.graph, m.pacMann.nearestVertex, m.playerCommand.value))
      && !(m.pacMann.edge.Some? && CanGo(m.graph, m.pacMann.nearestVertex, m.pacMann.edge.value.direction))
  {
    var v := m.pacMann.nearestVertex;
    var command := m.playerCommand;
    var current := m.pacMann.edge;
    if command.Some? && EdgeInDirection(m.graph, v, command.value).Some? then
      EdgeInDirection(m.graph, v, command.value)
    else if current.Some? && EdgeInDirection(m.graph, v, current.value.direction).Some? then
      EdgeInDirection(m.graph, v, current.value.direction)
    else
      None
  }

  /**
   * The returned edge is fully determined: it is the one edge of the vertex in
   * the chosen direction, and the command wins whenever it can be obeyed,
   * whatever the current edge is.
   */
  lemma CommandTakesPriority(m: GameModel, e: Edge)
    requires MazeGraph.Wf(m.graph)
    requires m.pacMann.atVertex
    requires m.playerCommand.Some?
    requires e in Outgoing(m.graph, m.pacMann.nearestVertex) && e.direction == m.playerCommand.value
    ensures NextEdge(m) == Some(e)
  {
  }

  /** The player keeps going straight when no command can be obeyed and the road continues. */
  lemma ContinuesStraight(m: GameModel, e: Edge)
    requires MazeGraph.Wf(m.graph)
    requires m.pacMann.atVertex
    requires m.playerCommand.None? || !CanGo(m.graph, m.pacMann.nearestVertex, m.playerCommand.value)
    requires m.pacMann.edge.Some?
    requires e in Outgoing(m.graph, m.pacMann.nearestVertex) && e.direction == m.pacMann.edge.value.direction
    ensures NextEdge(m) == Some(e)
  {
  }
}
