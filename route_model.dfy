/** The node graph the route planner searches. Its construction from map data, the
    nearest-node lookup, the neighbour discovery and the metric scale belong to the
    road-graph model, which is not part of this model: they appear here as given
    functions with the properties the planner relies on. Nodes are indices into the
    model's node sequence. */
module RouteModel {
  import opened Wrappers

  /** The search scratch fields a node carries: the planner writes all four. */
  datatype NodeState = NodeState(visited: bool, g: real, h: real, parent: Option<nat>)

  /** The estimated total cost g + h by which the open list is ordered. */
  function Fval(n: NodeState): real { n.g + n.h }

  /** The neutral scratch state of a node in a freshly built model. */
  const Neutral := NodeState(false, 0.0, 0.0, None)

  /** The nodes of adj that are in range and not yet visited, in order (duplicates kept). */
  function FilterUnvisited(adj: seq<nat>, nodes: seq<NodeState>): (r: seq<nat>)
    ensures forall k :: 0 <= k < |r| ==> r[k] < |nodes| && !nodes[r[k]].visited
    ensures forall j :: j in r <==> j in adj && j < |nodes| && !nodes[j].visited
    ensures |r| <= |adj|
  {
    if adj == [] then []
    else
      var rest := FilterUnvisited(adj[1..], nodes);
      if adj[0] < |nodes| && !nodes[adj[0]].visited then [adj[0]] + rest else rest
  }

  /** A distance that is the same in both directions. */
  ghost predicate Symmetric(dist: (nat, nat) -> real)
  {
    forall i: nat, j: nat :: dist(i, j) == dist(j, i)
  }

  class Model {
    /** The number of nodes. */
    const size: nat
    /** Node::distance, the straight-line distance between two nodes. */
    const dist: (nat, nat) -> real
    /** The nodes directly connected to a node by a way. */
    const adjacent: nat -> seq<nat>
    /** FindClosestNode: the node nearest to a normalised coordinate. */
    const closest: (real, real) -> nat
    /** MetricScale: the factor from normalised distance to metres. */
    const metricScale: real

    /** The scratch state of every node. */
    var nodes: seq<NodeState>
    /** The path the planner stores once it reaches the goal. */
    var path: seq<nat>

    /** What the planner assumes of the graph: a non-negative, symmetric distance that is
        zero from a node to itself, adjacency and nearest-node results that name nodes, and
        a non-negative metric scale. */
    ghost predicate WellFormed()
    {
      && (forall i: nat, j: nat :: dist(i, j) >= 0.0)
      && Symmetric(dist)
      && (forall i: nat :: dist(i, i) == 0.0)
      && (forall i: nat, j :: j in adjacent(i) ==> j < size)
      && (forall x, y :: closest(x, y) < size)
      && metricScale >= 0.0
    }

    ghost predicate Valid()
      reads this`nodes
    {
      WellFormed() && |nodes| == size
    }

    /** A freshly built model: every node in the neutral state, no path yet. */
    constructor (size: nat, dist: (nat, nat) -> real, adjacent: nat -> seq<nat>,
                 closest: (real, real) -> nat, metricScale: real)
      ensures this.size == size && this.dist == dist && this.adjacent == adjacent
      ensures this.closest == closest && this.metricScale == metricScale
      ensures nodes == seq(size, _ => Neutral) && path == []
    {
      this.size, this.dist, this.adjacent := size, dist, adjacent;
      this.closest, this.metricScale := closest, metricScale;
      nodes := seq(size, _ => Neutral);
      path := [];
    }

    /** Node::FindNeighbors: the adjacent nodes not yet visited. */
    function FindNeighbors(i: nat): (r: seq<nat>)
      reads this
      ensures forall k :: 0 <= k < |r| ==> r[k] < |nodes| && !nodes[r[k]].visited
      ensures forall j :: j in r <==> j in adjacent(i) && j < |nodes| && !nodes[j].visited
    {
      FilterUnvisited(adjacent(i), nodes)
    }
  }
}
