/**
 * The maze: vertices at integer grid coordinates, each with at most one
 * outgoing edge per compass direction, and the nearest-vertex lookup.
 * The lookup's own algorithm is not part of this model; it is a field of
 * the graph, constrained only to return a vertex of the graph.
 */
module MazeGraph {
  import opened Wrappers

  datatype Direction = Left | Right | Up | Down

  /** The unit step of a direction: `i` grows to the right, `j` downwards. */
  function StepI(d: Direction): int
  {
    match d
    case Left => -1
    case Right => 1
    case Up => 0
    case Down => 0
  }

  function StepJ(d: Direction): int
  {
    match d
    case Left => 0
    case Right => 0
    case Up => -1
    case Down => 1
  }

  function Opposite(d: Direction): Direction
  {
    match d
    case Left => Right
    case Right => Left
    case Up => Down
    case Down => Up
  }

  /** Grid coordinates: `i` grows to the right, `j` grows downwards. */
  datatype IPair = IPair(i: int, j: int)

  /** A directed edge from `tail` to the adjacent vertex `head`, leaving `tail` in `direction`. */
  datatype Edge = Edge(tail: IPair, head: IPair, direction: Direction)

  /**
   * `vertices` lists every vertex in the graph's fixed iteration order;
   * `out[v]` lists the edges leaving `v` in the order `outgoingEdges()`
   * yields them; `closestTo(x, y)` is the vertex nearest the point (x, y).
   */
  datatype Graph = Graph(
    vertices: seq<IPair>,
    out: map<IPair, seq<Edge>>,
    closestTo: (int, int) -> IPair)

  /** The edges leaving `v`, in iteration order (none for a vertex without an entry). */
  function Outgoing(g: Graph, v: IPair): seq<Edge>
  {
    if v in g.out then g.out[v] else []
  }

  /**
   * The shape every maze has: there is at least one vertex, every edge leaves
   * the vertex it is listed under and lands on a vertex, no two edges of a
   * vertex share a direction, and the nearest-vertex lookup returns a vertex.
   */
  ghost predicate Wf(g: Graph)
  {
    && |g.vertices| > 0
    && (forall v :: v in g.out ==> v in g.vertices)
    && (forall v, k :: 0 <= k < |Outgoing(g, v)| ==>
          Outgoing(g, v)[k].tail == v && Outgoing(g, v)[k].head in g.vertices)
    && (forall v, k, l :: 0 <= k < l < |Outgoing(g, v)| ==>
          Outgoing(g, v)[k].direction != Outgoing(g, v)[l].direction)
    && (forall x: int, y: int :: g.closestTo(x, y) in g.vertices)
  }

  /** The first edge of `es` pointing in direction `d`, if any. */
  function FindDirection(es: seq<Edge>, d: Direction): (r: Option<Edge>)
    ensures r.Some? ==> r.value in es && r.value.direction == d
    ensures r.None? <==> forall k :: 0 <= k < |es| ==> es[k].direction != d
  {
    if |es| == 0 then None
    else if es[0].direction == d then Some(es[0])
    else FindDirection(es[1..], d)
  }

  /** `edgeInDirection`: the edge leaving `v` in direction `d`, or none. */
  function EdgeInDirection(g: Graph, v: IPair, d: Direction): (r: Option<Edge>)
    requires Wf(g)
    ensures r.Some? ==> r.value in Outgoing(g, v) && r.value.tail == v && r.value.direction == d
    ensures r.None? <==> forall e :: e in Outgoing(g, v) ==> e.direction != d
  {
    FindDirection(Outgoing(g, v), d)
  }

  /**
   * In a well-formed graph an edge of `v` is the edge in its direction, and
   * only it: the lookup and membership-with-direction say the same thing.
   */
  lemma EdgeInDirectionExactly(g: Graph, v: IPair, d: Direction, e: Edge)
    requires Wf(g)
    ensures EdgeInDirection(g, v, d) == Some(e) <==> e in Outgoing(g, v) && e.direction == d
  {
  }
}
