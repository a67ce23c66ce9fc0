/** The A* route planner: it resolves the start and end coordinates to nodes, expands nodes
    from an open list until it takes one at zero distance from the end node, and then walks
    the parent links back to build the path and its length in metres.

    As the code is written, the open list is sorted by CompareFvals, which is "greater
    than" on g + h, so the node taken from the front has the LARGEST g + h; and the path is
    returned goal first, since it is never reversed. */
module RoutePlanning {
  import opened Wrappers
  import opened RouteModel

  predicate InRange(t: seq<nat>, n: nat)
  {
    forall k :: 0 <= k < |t| ==> t[k] < n
  }

  /** The order std::sort leaves behind with CompareFvals as its comparator: no element
      compares before one that precedes it, that is, g + h never increases. */
  predicate SortedDesc(t: seq<nat>, nodes: seq<NodeState>)
    requires InRange(t, |nodes|)
  {
    forall i, j :: 0 <= i < j < |t| ==> Fval(nodes[t[j]]) <= Fval(nodes[t[i]])
  }

  /** A list whose members are all below n is in range. */
  lemma MembersInRange(t: seq<nat>, n: nat)
    requires forall y :: y in t ==> y < n
    ensures InRange(t, n)
  {
    forall k | 0 <= k < |t| ensures t[k] < n {
      assert t[k] in t;
    }
  }

  /** Every node of t has g + h at most bound. */
  predicate AtMost(t: seq<nat>, nodes: seq<NodeState>, bound: real)
    requires InRange(t, |nodes|)
  {
    forall k :: 0 <= k < |t| ==> Fval(nodes[t[k]]) <= bound
  }

  /** A node placed in front of a sorted list that it does not compare below stays sorted. */
  lemma SortedCons(a: nat, t: seq<nat>, nodes: seq<NodeState>)
    requires a < |nodes| && InRange(t, |nodes|) && SortedDesc(t, nodes)
    requires AtMost(t, nodes, Fval(nodes[a]))
    ensures InRange([a] + t, |nodes|) && SortedDesc([a] + t, nodes)
  {
    var r := [a] + t;
    forall i, j | 0 <= i < j < |r| ensures Fval(nodes[r[j]]) <= Fval(nodes[r[i]]) {
      assert r[j] == t[j - 1];
      if i > 0 { assert r[i] == t[i - 1]; }
    }
  }

  /** CompareFvals is a strict weak ordering, as std::sort requires of its comparator:
      irreflexive, asymmetric and transitive, with incomparability (equal g + h) transitive
      too; and it depends only on the sum g + h of each node. */
  lemma CompareFvalsIsStrictWeakOrder(a: NodeState, b: NodeState, c: NodeState)
    ensures !RoutePlanner.CompareFvals(a, a)
    ensures RoutePlanner.CompareFvals(a, b) ==> !RoutePlanner.CompareFvals(b, a)
    ensures RoutePlanner.CompareFvals(a, b) && RoutePlanner.CompareFvals(b, c) ==> RoutePlanner.CompareFvals(a, c)
    ensures !RoutePlanner.CompareFvals(a, b) && !RoutePlanner.CompareFvals(b, a)
         && !RoutePlanner.CompareFvals(b, c) && !RoutePlanner.CompareFvals(c, b)
        ==> !RoutePlanner.CompareFvals(a, c) && !RoutePlanner.CompareFvals(c, a)
    ensures Fval(a) == Fval(b) ==> (RoutePlanner.CompareFvals(a, c) <==> RoutePlanner.CompareFvals(b, c))
  {
  }

  /** Inserts x into a list in that order, after every element that compares before it. */
  function Insert(x: nat, t: seq<nat>, nodes: seq<NodeState>): (r: seq<nat>)
    requires x < |nodes| && InRange(t, |nodes|)
    ensures multiset(r) == multiset(t) + multiset{x}
    ensures |r| == |t| + 1 && InRange(r, |nodes|) && forall y :: y in r <==> y == x || y in t
  {
    if t == [] then [x]
    else if RoutePlanner.CompareFvals(nodes[t[0]], nodes[x]) then
      assert t == [t[0]] + t[1..];
      [t[0]] + Insert(x, t[1..], nodes)
    else
      [x] + t
  }

  /** Inserting x adds nothing above a bound that x and the list both respect. */
  lemma {:induction false} InsertAtMost(x: nat, t: seq<nat>, nodes: seq<NodeState>, b: real)
    requires x < |nodes| && InRange(t, |nodes|) && AtMost(t, nodes, b) && Fval(nodes[x]) <= b
    ensures AtMost(Insert(x, t, nodes), nodes, b)
  {
    if t != [] && RoutePlanner.CompareFvals(nodes[t[0]], nodes[x]) {
      assert AtMost(t[1..], nodes, b) by {
        forall k | 0 <= k < |t| - 1 ensures Fval(nodes[t[1..][k]]) <= b {
          assert t[1..][k] == t[k + 1];
        }
      }
      InsertAtMost(x, t[1..], nodes, b);
    }
  }

  /** Inserting into a sorted list keeps it sorted. */
  lemma {:induction false} InsertSorted(x: nat, t: seq<nat>, nodes: seq<NodeState>)
    requires x < |nodes| && InRange(t, |nodes|) && SortedDesc(t, nodes)
    ensures SortedDesc(Insert(x, t, nodes), nodes)
  {
    if t == [] {
    } else if RoutePlanner.CompareFvals(nodes[t[0]], nodes[x]) {
      var rest := Insert(x, t[1..], nodes);
      SortedTail(t, nodes);
      InsertSorted(x, t[1..], nodes);
      assert AtMost(t[1..], nodes, Fval(nodes[t[0]])) by {
        forall k | 0 <= k < |t| - 1 ensures Fval(nodes[t[1..][k]]) <= Fval(nodes[t[0]]) {
          assert t[1..][k] == t[k + 1];
        }
      }
      InsertAtMost(x, t[1..], nodes, Fval(nodes[t[0]]));
      SortedCons(t[0], rest, nodes);
    } else {
      SortedTail(t, nodes);
      assert AtMost(t, nodes, Fval(nodes[x]));
      SortedCons(x, t, nodes);
    }
  }

  /** The std::sort call of NextNode: a permutation of the open list in the order above.
      std::sort is not stable, so which of several nodes with equal g + h comes first is
      unspecified; this insertion sort is one admissible outcome, and nothing proved about
      the planner depends on its choice. */
  function Sort(t: seq<nat>, nodes: seq<NodeState>): (r: seq<nat>)
    requires InRange(t, |nodes|)
    ensures multiset(r) == multiset(t)
    ensures |r| == |t| && forall y :: y in r <==> y in t
    ensures InRange(r, |nodes|) && SortedDesc(r, nodes)
  {
    if t == [] then []
    else
      assert t == [t[0]] + t[1..];
      var rest := Sort(t[1..], nodes);
      InsertSorted(t[0], rest, nodes);
      Insert(t[0], rest, nodes)
  }

  /** The front of a sorted list compares at least as high as all of it, and the rest of
      the list is still sorted. */
  lemma SortedTail(s: seq<nat>, nodes: seq<NodeState>)
    requires |s| > 0 && InRange(s, |nodes|) && SortedDesc(s, nodes)
    ensures forall y :: y in s ==> Fval(nodes[y]) <= Fval(nodes[s[0]])
    ensures InRange(s[1..], |nodes|) && SortedDesc(s[1..], nodes)
  {
    forall y | y in s ensures Fval(nodes[y]) <= Fval(nodes[s[0]]) {
      var k :| 0 <= k < |s| && s[k] == y;
      if k > 0 { assert Fval(nodes[s[k]]) <= Fval(nodes[s[0]]); }
    }
    forall i, j | 0 <= i < j < |s| - 1
      ensures Fval(nodes[s[1..][j]]) <= Fval(nodes[s[1..][i]])
    {
      assert s[1..][i] == s[i + 1] && s[1..][j] == s[j + 1];
    }
  }

  /** Removing the front of a list removes one occurrence of it and nothing else. */
  lemma FrontSplit(s: seq<nat>)
    requires |s| > 0
    ensures multiset(s[1..]) + multiset{s[0]} == multiset(s)
    ensures forall y :: y in s[1..] ==> y in s
  {
    assert s == [s[0]] + s[1..];
  }

  /** What taking the front of the sorted list yields: a node of the list whose g + h is
      maximal, and the rest of the list, sorted, holding every other occurrence. */
  lemma SortFront(t: seq<nat>, nodes: seq<NodeState>)
    requires InRange(t, |nodes|) && |t| > 0
    ensures var s := Sort(t, nodes);
      && |s| == |t| && s[0] in t
      && (forall k :: k in t ==> Fval(nodes[k]) <= Fval(nodes[s[0]]))
      && multiset(s[1..]) + multiset{s[0]} == multiset(t)
      && (forall y :: y in s[1..] ==> y in t)
      && InRange(s[1..], |nodes|) && SortedDesc(s[1..], nodes)
  {
    var s := Sort(t, nodes);
    SortedTail(s, nodes);
    FrontSplit(s);
  }

  /** A path as ConstructFinalPath builds it: it starts anywhere, each next element is the
      parent of the previous one, and the last element has no parent. */
  predicate IsParentChain(nodes: seq<NodeState>, p: seq<nat>)
  {
    && |p| > 0
    && LinkedByParents(nodes, p)
    && nodes[p[|p| - 1]].parent == None
  }

  /** Each element of p after the first is the parent of the one before it. */
  predicate LinkedByParents(nodes: seq<NodeState>, p: seq<nat>)
  {
    && InRange(p, |nodes|)
    && (forall k :: 0 <= k < |p| - 1 ==> nodes[p[k]].parent == Some(p[k + 1]))
  }

  /** Following one more parent link extends a linked sequence. */
  lemma LinkedByParentsExtend(nodes: seq<NodeState>, p: seq<nat>, parent: nat)
    requires |p| > 0 && LinkedByParents(nodes, p) && nodes[p[|p| - 1]].parent == Some(parent)
    requires parent < |nodes|
    ensures LinkedByParents(nodes, p + [parent])
  {
    var q := p + [parent];
    forall k | 0 <= k < |q| - 1
      ensures nodes[q[k]].parent == Some(q[k + 1])
    {
      assert q[k] == p[k];
    }
  }

  /** The sum of the distances between consecutive nodes of a path, each measured from a
      node to the one after it. */
  function PathLength(p: seq<nat>, dist: (nat, nat) -> real): real
  {
    if |p| <= 1 then 0.0 else dist(p[0], p[1]) + PathLength(p[1..], dist)
  }

  /** A length in normalised units converted with a metric scale. */
  function Scaled(length: real, scale: real): real
  {
    length * scale
  }

  /** Helper: the sign of a scaled length, for the solver's nonlinear arithmetic. */
  lemma ScaledNonNegative(length: real, scale: real)
    requires length >= 0.0 && scale >= 0.0
    ensures Scaled(length, scale) >= 0.0
  {
  }

  /** The nodes not yet visited. */
  function Unvisited(nodes: seq<NodeState>): set<nat>
  {
    set i | 0 <= i < |nodes| && !nodes[i].visited
  }

  /** Every node in the neutral state, as in a freshly built model. */
  predicate Unsearched(nodes: seq<NodeState>)
  {
    forall i :: 0 <= i < |nodes| ==> !nodes[i].visited && nodes[i].parent == None
  }

  /** The link from node i to its parent: the parent is a visited node that i is adjacent
      to, ranked strictly earlier (so parent links cannot form a cycle), and i's cost is the
      parent's cost plus the edge from the parent. */
  ghost predicate ParentLink(nodes: seq<NodeState>, rank: seq<nat>, dist: (nat, nat) -> real,
                             adj: nat -> seq<nat>, i: nat)
    requires i < |nodes| == |rank| && nodes[i].parent.Some?
  {
    var p := nodes[i].parent.value;
    && p < |nodes| && nodes[p].visited && i in adj(p)
    && rank[p] < rank[i] && nodes[i].g == nodes[p].g + dist(p, i)
  }

  /** The invariant of the search over the scratch fields: parent links are well formed and
      every visited node except the start has a parent. */
  ghost predicate SearchTree(nodes: seq<NodeState>, start: nat, rank: seq<nat>, dist: (nat, nat) -> real,
                             adj: nat -> seq<nat>)
  {
    && |rank| == |nodes|
    && start < |nodes|
    && (forall i {:trigger ParentLink(nodes, rank, dist, adj, i)} ::
          0 <= i < |nodes| && nodes[i].parent.Some? ==> ParentLink(nodes, rank, dist, adj, i))
    && (forall i :: 0 <= i < |nodes| && nodes[i].visited && i != start ==> nodes[i].parent.Some?)
  }

  lemma ProperSubsetSmaller(a: set<nat>, b: set<nat>, x: nat)
    requires a <= b && x in b && x !in a
    ensures |a| < |b|
  {
    assert a <= b - {x};
    assert |b - {x}| == |b| - 1;
    SubsetNoLarger(a, b - {x});
  }

  /** Linking at least one unvisited node makes the set of unvisited nodes strictly smaller;
      linking none leaves it as it was. */
  lemma UnvisitedShrinks(before: seq<NodeState>, after: seq<NodeState>, ns: seq<nat>)
    requires forall k :: 0 <= k < |ns| ==> ns[k] < |before| && !before[ns[k]].visited
    requires Unvisited(after) == Unvisited(before) - set k | k in ns
    ensures |ns| > 0 ==> |Unvisited(after)| < |Unvisited(before)|
    ensures |ns| == 0 ==> Unvisited(after) == Unvisited(before)
  {
    if |ns| > 0 {
      ProperSubsetSmaller(Unvisited(after), Unvisited(before), ns[0]);
    }
  }

  lemma SubsetNoLarger(a: set<nat>, b: set<nat>)
    requires a <= b
    ensures |a| <= |b|
  {
    assert b == a + (b - a);
  }

  /** The scratch state AddNeighbors gives a neighbour k of the node being expanded. */
  function Linked(nodes: seq<NodeState>, current: nat, k: nat, dist: (nat, nat) -> real, end: nat): NodeState
    requires current < |nodes|
  {
    NodeState(true, nodes[current].g + dist(current, k), dist(k, end), Some(current))
  }

  /** Linking an unvisited node to a visited one, with a rank later than all others,
      keeps the search invariant. */
  lemma LinkKeepsSearchTree(nodes: seq<NodeState>, start: nat, rank: seq<nat>, dist: (nat, nat) -> real,
                            adj: nat -> seq<nat>, end: nat, current: nat, k: nat, clock: nat)
    requires SearchTree(nodes, start, rank, dist, adj)
    requires current < |nodes| && nodes[current].visited && k < |nodes| && !nodes[k].visited
    requires k in adj(current)
    requires forall i :: 0 <= i < |rank| ==> rank[i] < clock
    ensures SearchTree(nodes[k := Linked(nodes, current, k, dist, end)], start, rank[k := clock], dist, adj)
  {
    var nodes', rank' := nodes[k := Linked(nodes, current, k, dist, end)], rank[k := clock];
    forall i | 0 <= i < |nodes'| && nodes'[i].parent.Some?
      ensures ParentLink(nodes', rank', dist, adj, i)
    {
      if i != k {
        assert ParentLink(nodes, rank, dist, adj, i);
      }
    }
  }

  /** Marking the start node visited keeps the search invariant. */
  lemma VisitStartKeepsSearchTree(nodes: seq<NodeState>, start: nat, rank: seq<nat>, dist: (nat, nat) -> real,
                                  adj: nat -> seq<nat>)
    requires SearchTree(nodes, start, rank, dist, adj)
    ensures SearchTree(nodes[start := nodes[start].(visited := true)], start, rank, dist, adj)
  {
    var nodes' := nodes[start := nodes[start].(visited := true)];
    forall i | 0 <= i < |nodes'| && nodes'[i].parent.Some?
      ensures ParentLink(nodes', rank, dist, adj, i)
    {
      assert ParentLink(nodes, rank, dist, adj, i);
    }
  }

  /** After linking the nodes of ns in turn, each of them holds its linked state, computed
      from the cost the node being expanded had before, and every other node is as before. */
  ghost predicate LinkedPrefix(before: seq<NodeState>, after: seq<NodeState>, current: nat, ns: seq<nat>,
                               dist: (nat, nat) -> real, end: nat)
    requires current < |before|
  {
    && |after| == |before|
    && (forall k :: k in ns ==> k < |after| && after[k] == Linked(before, current, k, dist, end))
    && (forall k :: 0 <= k < |after| && k !in ns ==> after[k] == before[k])
  }

  /** One more neighbour: its link computed in the current state is the one computed before
      the first, and it is either still unvisited or already linked that way. */
  lemma LinkStep(before: seq<NodeState>, mid: seq<NodeState>, current: nat, ns: seq<nat>, i: nat,
                 dist: (nat, nat) -> real, end: nat)
    requires current < |before| && before[current].visited
    requires forall k :: 0 <= k < |ns| ==> ns[k] < |before| && !before[ns[k]].visited
    requires i < |ns| && LinkedPrefix(before, mid, current, ns[..i], dist, end)
    ensures mid[current] == before[current] && ns[i] != current
    ensures !mid[ns[i]].visited || mid[ns[i]] == Linked(mid, current, ns[i], dist, end)
    ensures LinkedPrefix(before, mid[ns[i] := Linked(mid, current, ns[i], dist, end)], current, ns[..i + 1], dist, end)
    ensures ns[..i + 1] == ns[..i] + [ns[i]]
  {
    assert current !in ns[..i];
    assert ns[..i + 1] == ns[..i] + [ns[i]];
  }

  /** After linking the nodes of ns, the unvisited nodes are the former ones minus ns. */
  lemma UnvisitedAfterLinking(before: seq<NodeState>, after: seq<NodeState>, ns: seq<nat>)
    requires |before| == |after|
    requires forall k :: k in ns ==> k < |after| && after[k].visited
    requires forall k :: 0 <= k < |after| && k !in ns ==> after[k] == before[k]
    ensures Unvisited(after) == Unvisited(before) - set k | k in ns
  {
  }

  /** During a search, a node's parent is a node ranked strictly earlier. */
  lemma ParentRanksEarlier(nodes: seq<NodeState>, start: nat, rank: seq<nat>, dist: (nat, nat) -> real,
                           adj: nat -> seq<nat>, i: nat)
    requires SearchTree(nodes, start, rank, dist, adj) && i < |nodes| && nodes[i].parent.Some?
    ensures nodes[i].parent.value < |nodes| && rank[nodes[i].parent.value] < rank[i]
  {
    assert ParentLink(nodes, rank, dist, adj, i);
  }

  /** From a given node there is only one parent chain. */
  lemma {:induction false} ParentChainUnique(nodes: seq<NodeState>, p: seq<nat>, q: seq<nat>)
    requires IsParentChain(nodes, p) && IsParentChain(nodes, q) && p[0] == q[0]
    ensures p == q
  {
    HasParentIffLonger(nodes, p);
    HasParentIffLonger(nodes, q);
    if |p| > 1 {
      ParentChainUnique(nodes, p[1..], q[1..]);
      assert p == [p[0]] + p[1..] && q == [q[0]] + q[1..];
    }
  }

  lemma HasParentIffLonger(nodes: seq<NodeState>, p: seq<nat>)
    requires IsParentChain(nodes, p)
    ensures nodes[p[0]].parent.Some? <==> |p| > 1
    ensures |p| > 1 ==> nodes[p[0]].parent == Some(p[1])
  {
  }

  /** During a search, the parent chain of a visited node ends at the start node. */
  lemma {:induction false} ChainEndsAtStart(nodes: seq<NodeState>, start: nat, rank: seq<nat>,
                                            dist: (nat, nat) -> real, adj: nat -> seq<nat>, p: seq<nat>)
    requires SearchTree(nodes, start, rank, dist, adj) && IsParentChain(nodes, p)
    requires nodes[p[0]].visited
    ensures p[|p| - 1] == start
  {
    if |p| > 1 {
      assert nodes[p[0]].parent == Some(p[1]);
      assert ParentLink(nodes, rank, dist, adj, p[0]);
      ChainEndsAtStart(nodes, start, rank, dist, adj, p[1..]);
    }
  }

  /** With a symmetric distance, the length of a parent chain is the difference between the
      cost g of its first node and that of its last. */
  lemma {:induction false} ChainLengthIsCost(nodes: seq<NodeState>, start: nat, rank: seq<nat>,
                                             dist: (nat, nat) -> real, adj: nat -> seq<nat>, p: seq<nat>)
    requires SearchTree(nodes, start, rank, dist, adj) && IsParentChain(nodes, p) && Symmetric(dist)
    ensures PathLength(p, dist) == nodes[p[0]].g - nodes[p[|p| - 1]].g
  {
    if |p| > 1 {
      assert nodes[p[0]].parent == Some(p[1]);
      assert ParentLink(nodes, rank, dist, adj, p[0]);
      assert dist(p[1], p[0]) == dist(p[0], p[1]);
      ChainLengthIsCost(nodes, start, rank, dist, adj, p[1..]);
    }
  }

  /** During a search, each node of a parent chain is adjacent to the next one, its parent:
      read from its last node to its first, the chain is a walk through the graph. */
  lemma ChainFollowsGraph(nodes: seq<NodeState>, start: nat, rank: seq<nat>, dist: (nat, nat) -> real,
                          adj: nat -> seq<nat>, p: seq<nat>)
    requires SearchTree(nodes, start, rank, dist, adj) && IsParentChain(nodes, p)
    ensures forall k :: 0 <= k < |p| - 1 ==> p[k] in adj(p[k + 1])
  {
    forall k | 0 <= k < |p| - 1 ensures p[k] in adj(p[k + 1]) {
      assert p[k] < |nodes| && nodes[p[k]].parent == Some(p[k + 1]);
      assert ParentLink(nodes, rank, dist, adj, p[k]);
    }
  }

  /** What a successful search leaves behind: a parent chain from a node at zero distance
      from the end node back to the start node, each node of it adjacent to the next, and as
      distance its length scaled to metres, which is also the difference of the costs g at
      its two ends, scaled the same way. */
  ghost predicate RouteFound(nodes: seq<NodeState>, p: seq<nat>, start: nat, end: nat,
                             dist: (nat, nat) -> real, adj: nat -> seq<nat>, scale: real, distance: real)
  {
    && start < |nodes|
    && IsParentChain(nodes, p)
    && dist(p[0], end) == 0.0
    && p[|p| - 1] == start
    && (forall k :: 0 <= k < |p| - 1 ==> p[k] in adj(p[k + 1]))
    && distance == Scaled(PathLength(p, dist), scale)
    && distance == Scaled(nodes[p[0]].g - nodes[start].g, scale)
  }

  /** The path ConstructFinalPath builds from a visited node at zero distance from the end
      node is a route found. */
  lemma FinalPathIsRoute(nodes: seq<NodeState>, start: nat, end: nat, rank: seq<nat>,
                         dist: (nat, nat) -> real, adj: nat -> seq<nat>, scale: real, p: seq<nat>, distance: real)
    requires SearchTree(nodes, start, rank, dist, adj) && Symmetric(dist)
    requires IsParentChain(nodes, p) && nodes[p[0]].visited && dist(p[0], end) == 0.0
    requires distance == Scaled(PathLength(p, dist), scale)
    ensures RouteFound(nodes, p, start, end, dist, adj, scale, distance)
  {
    ChainEndsAtStart(nodes, start, rank, dist, adj, p);
    ChainLengthIsCost(nodes, start, rank, dist, adj, p);
    ChainFollowsGraph(nodes, start, rank, dist, adj, p);
  }

  /** Extending a path by one node adds the distance from its last node to the new one. */
  lemma {:induction false} PathLengthAppend(p: seq<nat>, y: nat, dist: (nat, nat) -> real)
    requires |p| > 0
    ensures PathLength(p + [y], dist) == PathLength(p, dist) + dist(p[|p| - 1], y)
  {
    if |p| > 1 {
      assert (p + [y])[1..] == p[1..] + [y];
      PathLengthAppend(p[1..], y, dist);
    }
  }

  /** With non-negative distances a path has non-negative length. */
  lemma {:induction false} PathLengthNonNegative(p: seq<nat>, dist: (nat, nat) -> real)
    requires forall i: nat, j: nat :: dist(i, j) >= 0.0
    ensures PathLength(p, dist) >= 0.0
  {
    if |p| > 1 {
      PathLengthNonNegative(p[1..], dist);
    }
  }

  /** A walk through the graph: a non-empty sequence of nodes, each adjacent to the one
      before it. */
  ghost predicate IsWalk(adj: nat -> seq<nat>, w: seq<nat>)
  {
    |w| > 0 && forall k :: 0 <= k < |w| - 1 ==> w[k + 1] in adj(w[k])
  }

  /** What an exhausted search establishes: no walk from the start node ends at a node at
      zero distance from the end node, nor at the end node itself. */
  ghost predicate NoRoute(adj: nat -> seq<nat>, dist: (nat, nat) -> real, start: nat, end: nat)
  {
    forall w :: IsWalk(adj, w) && w[0] == start ==> dist(w[|w| - 1], end) != 0.0 && w[|w| - 1] != end
  }

  /** Node v has been expanded: it is not at zero distance from the end node and every node
      adjacent to it is visited. */
  ghost predicate Expanded(nodes: seq<NodeState>, adj: nat -> seq<nat>, dist: (nat, nat) -> real, end: nat, v: nat)
  {
    && v < |nodes|
    && dist(v, end) != 0.0
    && forall j :: j in adj(v) && j < |nodes| ==> nodes[j].visited
  }

  /** Every visited node that is not on the open list has been expanded. */
  ghost predicate Closed(nodes: seq<NodeState>, open: seq<nat>, adj: nat -> seq<nat>, dist: (nat, nat) -> real, end: nat)
  {
    forall v {:trigger Expanded(nodes, adj, dist, end, v)} ::
      0 <= v < |nodes| && nodes[v].visited && v !in open ==> Expanded(nodes, adj, dist, end, v)
  }

  /** Marking the start visited and putting it on the open list keeps every visited node off
      the open list expanded. */
  lemma ClosedSeed(nodes: seq<NodeState>, open: seq<nat>, adj: nat -> seq<nat>, dist: (nat, nat) -> real,
                   end: nat, start: nat)
    requires Closed(nodes, open, adj, dist, end) && start < |nodes|
    ensures Closed(nodes[start := nodes[start].(visited := true)], open + [start], adj, dist, end)
  {
    var after := nodes[start := nodes[start].(visited := true)];
    forall v | 0 <= v < |after| && after[v].visited && v !in open + [start]
      ensures Expanded(after, adj, dist, end, v)
    {
      assert v != start && v !in open;
      assert Expanded(nodes, adj, dist, end, v);
    }
  }

  /** Taking a node that is not at zero distance from the end node off the open list and
      linking its unvisited neighbours, which join the open list, keeps every visited node
      off the open list expanded. */
  lemma ClosedStep(before: seq<NodeState>, after: seq<NodeState>, open: seq<nat>, rest: seq<nat>,
                   current: nat, ns: seq<nat>, adj: nat -> seq<nat>, dist: (nat, nat) -> real, end: nat)
    requires Closed(before, open, adj, dist, end)
    requires multiset(rest) + multiset{current} == multiset(open)
    requires current < |before| && dist(current, end) != 0.0
    requires forall j :: j in ns <==> j in adj(current) && j < |before| && !before[j].visited
    requires |after| == |before|
    requires Unvisited(after) == Unvisited(before) - set k | k in ns
    requires forall k :: 0 <= k < |after| && k !in ns ==> after[k] == before[k]
    ensures Closed(after, rest + ns, adj, dist, end)
  {
    forall v | 0 <= v < |after| && after[v].visited && v !in rest + ns
      ensures Expanded(after, adj, dist, end, v)
    {
      assert after[v] == before[v];
      if v != current {
        assert multiset(open)[v] == multiset(rest)[v] + multiset{current}[v] == 0;
        assert Expanded(before, adj, dist, end, v);
      }
      forall j | j in adj(v) && j < |after| ensures after[j].visited {
        if j !in ns {
          assert after[j] == before[j];
        } else {
          assert j !in Unvisited(after);
        }
      }
    }
  }

  /** Once the open list is empty, every node a walk from a visited node reaches is visited
      and is not at zero distance from the end node. */
  lemma {:induction false} WalkStaysClosed(nodes: seq<NodeState>, adj: nat -> seq<nat>, dist: (nat, nat) -> real,
                                           end: nat, w: seq<nat>)
    requires Closed(nodes, [], adj, dist, end)
    requires forall i: nat, j :: j in adj(i) ==> j < |nodes|
    requires IsWalk(adj, w) && w[0] < |nodes| && nodes[w[0]].visited
    ensures w[|w| - 1] < |nodes| && nodes[w[|w| - 1]].visited && dist(w[|w| - 1], end) != 0.0
  {
    if |w| > 1 {
      var u := w[..|w| - 1];
      assert IsWalk(adj, u) by {
        forall k | 0 <= k < |u| - 1 ensures u[k + 1] in adj(u[k]) {
          assert u[k] == w[k] && u[k + 1] == w[k + 1];
        }
      }
      WalkStaysClosed(nodes, adj, dist, end, u);
      assert Expanded(nodes, adj, dist, end, u[|u| - 1]);
      assert w[|w| - 1] in adj(w[|w| - 2]);
    }
    assert Expanded(nodes, adj, dist, end, w[|w| - 1]);
  }

  /** An exhausted search leaves no route from a visited start node. */
  lemma ExhaustedMeansNoRoute(nodes: seq<NodeState>, adj: nat -> seq<nat>, dist: (nat, nat) -> real,
                              start: nat, end: nat)
    requires Closed(nodes, [], adj, dist, end)
    requires forall i: nat, j :: j in adj(i) ==> j < |nodes|
    requires start < |nodes| && nodes[start].visited && dist(end, end) == 0.0
    ensures NoRoute(adj, dist, start, end)
  {
    forall w | IsWalk(adj, w) && w[0] == start
      ensures dist(w[|w| - 1], end) != 0.0 && w[|w| - 1] != end
    {
      WalkStaysClosed(nodes, adj, dist, end, w);
    }
  }

  class RoutePlanner {
    /** The road graph searched; the planner holds a reference, not a copy. */
    const model: Model
    /** The open list: references (indices) into the model's nodes. */
    var openList: seq<nat>
    const startNode: nat
    const endNode: nat
    /** The length in metres of the last path constructed. */
    var distance: real

    /** The order in which nodes were first visited, which orders every node after its parent. */
    ghost var rank: seq<nat>
    ghost var clock: nat

    ghost predicate Valid()
      reads this`openList, this`rank, this`clock, model`nodes
    {
      && model.Valid()
      && endNode < model.size
      && SearchTree(model.nodes, startNode, rank, model.dist, model.adjacent)
      && (forall n :: n in openList ==> n < model.size && model.nodes[n].visited)
      && (forall i :: 0 <= i < |rank| ==> rank[i] < clock)
    }

    /** The coordinates arrive as percentages of the map extent and are scaled by 0.01
        before the nearest nodes are looked up. The search assumes a freshly built model,
        the only state in which the planner is ever given one. */
    constructor (model: Model, startX: real, startY: real, endX: real, endY: real)
      requires model.Valid() && Unsearched(model.nodes)
      ensures this.model == model && Valid()
      ensures startNode == model.closest(startX * 0.01, startY * 0.01)
      ensures endNode == model.closest(endX * 0.01, endY * 0.01)
      ensures openList == [] && distance == 0.0
      ensures Closed(model.nodes, openList, model.adjacent, model.dist, endNode)
    {
      var sx, sy, ex, ey := startX * 0.01, startY * 0.01, endX * 0.01, endY * 0.01;
      this.model := model;
      startNode := model.closest(sx, sy);
      endNode := model.closest(ex, ey);
      openList := [];
      distance := 0.0;
      rank := seq(model.size, _ => 0);
      clock := 1;
    }

    /** GetDistance is const: it reads the stored distance and changes nothing. */
    function GetDistance(): (d: real)
      reads this`distance
      ensures d == distance
    {
      distance
    }

    /** CompareFvals: node a sorts before node b when its g + h is larger. */
    static predicate CompareFvals(a: NodeState, b: NodeState)
    {
      a.g + a.h > b.g + b.h
    }

    /** The heuristic: the straight-line distance to the end node, which is non-negative
        and zero at the end node itself. */
    function CalculateHValue(node: nat): (h: real)
      requires model.WellFormed()
      ensures h >= 0.0 && (node == endNode ==> h == 0.0)
    {
      model.dist(node, endNode)
    }

    /** Sorts the open list, then removes and returns its front element. */
    method NextNode() returns (current: nat)
      requires Valid() && |openList| > 0
      modifies this`openList
      ensures Valid()
      ensures current in old(openList) && current < model.size && model.nodes[current].visited
      ensures multiset(openList) + multiset{current} == multiset(old(openList))
      ensures |openList| == |old(openList)| - 1
      ensures forall k :: k in old(openList) ==> Fval(model.nodes[k]) <= Fval(model.nodes[current])
      ensures InRange(openList, |model.nodes|) && SortedDesc(openList, model.nodes)
    {
      MembersInRange(openList, |model.nodes|);
      var sorted := Sort(openList, model.nodes);
      SortFront(openList, model.nodes);
      current := sorted[0];
      openList := sorted[1..];
    }

    /** Expands a node: every neighbour still unvisited gets the node as parent, a cost of
        the node's cost plus the edge to it, the heuristic as h, and is marked visited and
        appended to the open list, in the order FindNeighbors returns them. */
    method AddNeighbors(current: nat)
      requires Valid() && current < model.size && model.nodes[current].visited
      modifies this`openList, this`rank, this`clock, model`nodes
      ensures Valid()
      ensures var ns := old(model.FindNeighbors(current));
        && openList == old(openList) + ns
        && (forall k :: k in ns ==>
              model.nodes[k] == NodeState(true, old(model.nodes[current].g) + model.dist(current, k),
                                          model.dist(k, endNode), Some(current)))
        && (forall k :: 0 <= k < model.size && k !in ns ==> model.nodes[k] == old(model.nodes[k]))
        && Unvisited(model.nodes) == Unvisited(old(model.nodes)) - set k | k in ns
    {
      var neighbors := model.FindNeighbors(current);
      var i := 0;
      while i < |neighbors|
        invariant 0 <= i <= |neighbors|
        invariant Valid()
        invariant openList == old(openList) + neighbors[..i]
        invariant LinkedPrefix(old(model.nodes), model.nodes, current, neighbors[..i], model.dist, endNode)
      {
        LinkStep(old(model.nodes), model.nodes, current, neighbors, i, model.dist, endNode);
        AddNeighbor(current, neighbors[i]);
        i := i + 1;
      }
      assert neighbors[..i] == neighbors;
      UnvisitedAfterLinking(old(model.nodes), model.nodes, neighbors);
    }

    /** One pass of the loop in AddNeighbors: link one neighbour to the node being expanded
        and append it to the open list. The neighbour is either still unvisited or was linked
        the same way earlier in the same pass (FindNeighbors may list a node twice). */
    method AddNeighbor(current: nat, neighbor: nat)
      requires Valid() && current < model.size && model.nodes[current].visited
      requires neighbor < model.size && neighbor != current && neighbor in model.adjacent(current)
      requires !model.nodes[neighbor].visited
        || model.nodes[neighbor] == Linked(model.nodes, current, neighbor, model.dist, endNode)
      modifies this`openList, this`rank, this`clock, model`nodes
      ensures Valid()
      ensures model.nodes == old(model.nodes)[neighbor := Linked(old(model.nodes), current, neighbor, model.dist, endNode)]
      ensures openList == old(openList) + [neighbor]
    {
      var linked := NodeState(true, model.nodes[current].g + model.dist(current, neighbor),
                              CalculateHValue(neighbor), Some(current));
      if !model.nodes[neighbor].visited {
        LinkKeepsSearchTree(model.nodes, startNode, rank, model.dist, model.adjacent, endNode, current, neighbor, clock);
        rank := rank[neighbor := clock];
        clock := clock + 1;
      } else {
        assert model.nodes[neighbor := linked] == model.nodes;
      }
      model.nodes := model.nodes[neighbor := linked];
      openList := openList + [neighbor];
    }

    /** Follows the parent links from a node, collecting the nodes goal first and adding up
        the distance from each node to its parent; the sum is scaled to metres once. */
    method ConstructFinalPath(current: nat) returns (pathFound: seq<nat>)
      requires Valid() && current < model.size
      modifies this`distance
      ensures IsParentChain(model.nodes, pathFound) && pathFound[0] == current
      ensures distance == Scaled(PathLength(pathFound, model.dist), model.metricScale)
      ensures distance >= 0.0
    {
      distance := 0.0;
      pathFound := [];
      var node := current;
      ghost var nodes, ranks := model.nodes, rank;
      ghost var trail: seq<nat> := [node];
      while model.nodes[node].parent.Some?
        invariant model.nodes == nodes
        invariant node < |nodes| && |trail| > 0 && LinkedByParents(nodes, trail)
        invariant trail[0] == current && trail[|trail| - 1] == node
        invariant pathFound + [node] == trail
        invariant distance == PathLength(trail, model.dist)
        decreases ranks[node]
      {
        var parent := model.nodes[node].parent.value;
        ParentRanksEarlier(nodes, startNode, ranks, model.dist, model.adjacent, node);
        PathLengthAppend(trail, parent, model.dist);
        LinkedByParentsExtend(nodes, trail, parent);
        pathFound := pathFound + [node];
        distance := distance + model.dist(node, parent);
        node := parent;
        trail := trail + [node];
      }
      pathFound := pathFound + [node];
      PathLengthNonNegative(trail, model.dist);
      ScaledNonNegative(distance, model.metricScale);
      distance := Scaled(distance, model.metricScale);
    }

    /** The search. It marks the start visited and puts it on the open list, then takes
        nodes from the open list until one lies at zero distance from the end node. In that
        case the path is stored in the model, and `found` holds. If the open list runs empty
        first, no walk through the graph leads from the start node to the end node, and the
        stored path and the distance are left as they were. The search starts from a state
        in which every visited node off the open list has been expanded, as in the freshly
        built model the constructor requires. */
    method AStarSearch() returns (ghost found: bool)
      requires Valid() && Closed(model.nodes, openList, model.adjacent, model.dist, endNode)
      modifies this`openList, this`rank, this`clock, this`distance, model`nodes, model`path
      ensures Valid() && model.nodes[startNode].visited
      ensures found ==> RouteFound(model.nodes, model.path, startNode, endNode, model.dist, model.adjacent,
                                   model.metricScale, distance)
      ensures !found ==> NoRoute(model.adjacent, model.dist, startNode, endNode)
      ensures !found ==> openList == [] && model.path == old(model.path) && distance == old(distance)
    {
      ClosedSeed(model.nodes, openList, model.adjacent, model.dist, endNode, startNode);
      VisitStartKeepsSearchTree(model.nodes, startNode, rank, model.dist, model.adjacent);
      model.nodes := model.nodes[startNode := model.nodes[startNode].(visited := true)];
      openList := openList + [startNode];
      var current, reached := startNode, false;
      while |openList| > 0
        invariant Valid() && model.nodes[startNode].visited
        invariant Closed(model.nodes, openList, model.adjacent, model.dist, endNode)
        invariant !reached
        modifies this`openList, this`rank, this`clock, model`nodes
        decreases |Unvisited(model.nodes)|, |openList|
      {
        ghost var open := openList;
        current := NextNode();
        if model.dist(current, endNode) == 0.0 {
          reached := true;
          break;
        }
        ghost var before, rest := model.nodes, openList;
        ghost var neighbors := model.FindNeighbors(current);
        AddNeighbors(current);
        UnvisitedShrinks(before, model.nodes, neighbors);
        ClosedStep(before, model.nodes, open, rest, current, neighbors, model.adjacent, model.dist, endNode);
      }
      found := reached;
      if reached {
        var p := ConstructFinalPath(current);
        FinalPathIsRoute(model.nodes, startNode, endNode, rank, model.dist, model.adjacent, model.metricScale, p, distance);
        model.path := p;
      } else {
        ExhaustedMeansNoRoute(model.nodes, model.adjacent, model.dist, startNode, endNode);
      }
    }
  }
}
