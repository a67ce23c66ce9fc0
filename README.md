# Route planner, elapsed-time formatter and validated classes

This project is a Dafny model of the core of a set of C++ exercises. It has four parts.

- **The A\* route planner** (`RoutePlanning`, over the node graph in `RouteModel`). The
  constructor resolves the start and end coordinates, given as percentages of the map extent,
  to the nearest nodes. `AStarSearch` marks the start node visited and seeds the open list
  with it. It then repeatedly sorts the open list with `CompareFvals`, takes the front node,
  and stops when that node lies at zero distance from the end node. Otherwise it expands the
  node: every unvisited neighbour gets the node as parent, a cost `g`, a heuristic `h`, and is
  marked visited and appended to the open list. When the search stops at the goal,
  `ConstructFinalPath` follows the parent links back, sums the distances, scales the sum to
  metres, and the path is stored in the model.
- **`Format::ElapsedTime`** (`Format`) of the system monitor. It renders a number of seconds
  as `HH:MM:SS`, with `TimeValueToString` padding a field below ten with one `'0'`.
- **`Pyramid`** (`Pyramids`) and **`Student`** (`Students`). These are classes whose
  constructors and setters store their argument and then run `Validate`, which throws
  `invalid_argument` when the class invariant is broken.

Nodes are indices into the model's node sequence. The planner's open list, start node and
end node are such indices. The scratch fields the planner writes on a node (`visited`, `g`,
`h`, `parent`) form a `NodeState` value in `Model.nodes`. A C++ exception is an `Outcome` or
`Result` failure carrying the `invalid_argument` message. A throwing constructor is a static
`Create` method, which returns no object on failure.

## Behaviour modelled as written

The planner is modelled as its code behaves, even where its comments say otherwise:

- `CompareFvals` is "greater than" on `g + h`, so `std::sort` orders the open list from the
  largest `g + h` down. `NextNode` takes the front, so it returns a node whose `g + h` is
  **maximal**. The comment beside it speaks of the lowest sum.
- `ConstructFinalPath` never reverses the vector it builds, so the path runs **goal first**
  and ends at the start node. The comment above it asks for start first.

Both are stated and proved as the code has them: `NextNode` and `SortFront` give the maximum,
and `ConstructFinalPath` and `AStarSearch` give a goal-first parent chain.

## Model

| member | source | states |
|---|---|---|
| Format.NatToDecimal | CppND-System-Monitor/src/format.cpp:30-34 | std::to_string on a non-negative value: a digit string whose decimal value is the number, with a leading '0' only for 0, one character exactly below 10 and at most two exactly below 100 |
| Format.IntToDecimal | CppND-System-Monitor/src/format.cpp:30-34 | std::to_string on a long: a non-negative value gives a non-empty digit string worth the value, starting with '0' only for 0; a negative value gives '-' followed by a digit string worth its magnitude, with no leading zero |
| Format.LeadingZero | CppND-System-Monitor/src/format.cpp:30 | a '0' put in front of a digit string leaves a digit string of the same value |
| Format.TimeValueToString | CppND-System-Monitor/src/format.cpp:28-35 | one '0' is prepended exactly when the value is below 10, otherwise the plain decimal form; for a non-negative value the result is digits worth the value, at least two wide, exactly two below 100 and wider from 100, starting with '0' exactly when the value is below 10 |
| Format.ElapsedTime | CppND-System-Monitor/src/format.cpp:11-26 | a count of seconds that is not positive gives exactly "00:00:00" |
| Format.ClockSplit | CppND-System-Monitor/src/format.cpp:16-22 | minutes (seconds/60)%60 and seconds %60 are below 60, hours*3600 + minutes*60 + seconds gives back the count, and the hour value is below 100 exactly when the count is below 360000 |
| Format.JoinFields | CppND-System-Monitor/src/format.cpp:17-23 | three digit fields joined by ':' with the last two two wide are laid out as H:MM:SS with the given values and hold exactly two colons |
| Format.ElapsedTimeLayout | CppND-System-Monitor/src/format.cpp:14-23 | for a positive count the result is an hour field of at least two digits worth seconds/3600, ':', two digits worth (seconds/60)%60 < 60, ':', two digits worth seconds%60 < 60; the hour field is wider than two exactly when the count is at least 360000; there are exactly two colons |
| Format.ElapsedTimeRoundTrip | CppND-System-Monitor/src/format.cpp:11-26 | reading the result back as H:MM:SS gives the count of seconds, or 0 for a count that is not positive |
| Format.ElapsedTimeColons | CppND-System-Monitor/src/format.cpp:12-23 | every result holds exactly two ':' |
| Pyramids.Pyramid.Init | Intro_OPP/Pyramid/Pyramid.h:10 | the member initializers store the three dimensions as given |
| Pyramids.Pyramid.Create | Intro_OPP/Pyramid/Pyramid.h:10-12 | construction succeeds exactly when all three dimensions are positive, and then yields a new valid pyramid with those dimensions; otherwise it fails with invalid_argument("negative dimension") |
| Pyramids.Pyramid.Length | Intro_OPP/Pyramid/Pyramid.h:24 | the length read from a valid pyramid is positive |
| Pyramids.Pyramid.Width | Intro_OPP/Pyramid/Pyramid.h:25 | the width read from a valid pyramid is positive |
| Pyramids.Pyramid.Height | Intro_OPP/Pyramid/Pyramid.h:26 | the height read from a valid pyramid is positive |
| Pyramids.Pyramid.SetLength | Intro_OPP/Pyramid/Pyramid.h:28-31 | stores the length first (kept even when rejected), changes no other field, and passes exactly when the pyramid is then valid; from a valid pyramid it passes exactly when the new length is positive; a failure is invalid_argument("negative dimension") |
| Pyramids.Pyramid.SetWidth | Intro_OPP/Pyramid/Pyramid.h:33-36 | as SetLength, for the width |
| Pyramids.Pyramid.SetHeight | Intro_OPP/Pyramid/Pyramid.h:38-41 | as SetLength, for the height |
| Pyramids.Pyramid.Volume | Intro_OPP/Pyramid/Pyramid.h:44 | three times the volume is length * width * height, and a valid pyramid has a positive volume |
| Pyramids.Pyramid.Validate | Intro_OPP/Pyramid/Pyramid.h:51-54 | passes exactly when all three dimensions are positive, otherwise fails with invalid_argument("negative dimension"); changes nothing |
| Pyramids.PyramidScenario | Intro_OPP/Pyramid/Pyramid.cpp:5-23 | a 4 x 5 x 6 pyramid reports 4, 5, 6 and volume 40, and constructing one with length -1 throws |
| Students.Student.Init | Intro_OPP/Student/Student.h:20 | the member initializers store name, grade and GPA as given |
| Students.Student.Create | Intro_OPP/Student/Student.h:20-22 | construction succeeds exactly when 0 <= grade <= 12 and 0.0 <= GPA <= 4.0, and then yields a new valid student with the given fields; otherwise it fails with invalid_argument("argument out of bounds") |
| Students.Student.Name | Intro_OPP/Student/Student.h:24-26 | returns the stored name |
| Students.Student.Grade | Intro_OPP/Student/Student.h:27-29 | the grade read from a valid student lies in 0..12 |
| Students.Student.GPA | Intro_OPP/Student/Student.h:30-32 | the GPA read from a valid student lies in 0.0..4.0 |
| Students.Student.SetName | Intro_OPP/Student/Student.h:35-38 | stores the name, changes no other field, passes exactly when the student is then valid, and never fails on a valid student |
| Students.Student.SetGrade | Intro_OPP/Student/Student.h:40-43 | stores the grade first (kept even when rejected), changes no other field, passes exactly when the student is then valid; from a valid student it passes exactly when the grade lies in 0..12 |
| Students.Student.SetGPA | Intro_OPP/Student/Student.h:45-48 | stores the GPA first (kept even when rejected), changes no other field, passes exactly when the student is then valid; from a valid student it passes exactly when the GPA lies in 0.0..4.0 |
| Students.Student.Validate | Intro_OPP/Student/Student.h:55-58 | passes exactly when the grade lies in 0..12 and the GPA in 0.0..4.0, otherwise fails with invalid_argument("argument out of bounds"); changes nothing |
| Students.StudentScenario | Intro_OPP/Student/main.cpp:5-21 | Student("Nick", 3, 4.0) is accepted and reports its fields; setting grade 20 then throws, the grade stays 20, so a following name change throws too |
| RouteModel.Model.constructor | CppND-Route-Planning-Project/src/main.cpp:108 | a freshly built model keeps the given graph, gives every node the neutral scratch state (unvisited, g = h = 0, no parent) and has no path yet |
| RouteModel.FilterUnvisited | CppND-Route-Planning-Project/src/src/route_planner.cpp:110 | the neighbours found are exactly the adjacent nodes that exist and are not yet visited |
| RouteModel.Model.FindNeighbors | CppND-Route-Planning-Project/src/src/route_planner.cpp:110 | every neighbour returned is an unvisited node, and every unvisited adjacent node is returned |
| RoutePlanning.RoutePlanner.constructor | CppND-Route-Planning-Project/src/src/route_planner.cpp:4-14 | the start and end nodes are the nodes nearest to the four coordinates each multiplied by 0.01; the open list is empty, the distance is 0, the planner invariant holds, and no visited node is left unexpanded |
| RoutePlanning.RoutePlanner.GetDistance | CppND-Route-Planning-Project/src/src/route_planner.h:14 | returns the stored distance; as a function it changes nothing, as the const member promises |
| RoutePlanning.RoutePlanner.CalculateHValue | CppND-Route-Planning-Project/src/src/route_planner.cpp:77-79 | the heuristic (the distance to the end node) is non-negative and is 0 at the end node |
| RoutePlanning.RoutePlanner.CompareFvals | CppND-Route-Planning-Project/src/src/route_planner.cpp:104-106 | node a sorts before node b exactly when a.g + a.h > b.g + b.h |
| RoutePlanning.CompareFvalsIsStrictWeakOrder | CppND-Route-Planning-Project/src/src/route_planner.cpp:104-106 | the comparator is irreflexive, asymmetric and transitive, equal g + h is a transitive incomparability, and nodes with equal g + h compare alike |
| RoutePlanning.Insert | CppND-Route-Planning-Project/src/src/route_planner.cpp:84 | inserting a node adds exactly one occurrence of it to the list and keeps the list in range |
| RoutePlanning.InsertAtMost | CppND-Route-Planning-Project/src/src/route_planner.cpp:84 | inserting adds nothing whose g + h exceeds a bound that the node and the list respect |
| RoutePlanning.InsertSorted | CppND-Route-Planning-Project/src/src/route_planner.cpp:84 | inserting into a list in comparator order keeps it in that order |
| RoutePlanning.Sort | CppND-Route-Planning-Project/src/src/route_planner.cpp:84 | std::sort with CompareFvals: a permutation of the open list (same multiset) in which g + h never increases |
| RoutePlanning.SortedTail | CppND-Route-Planning-Project/src/src/route_planner.cpp:84-87 | the front of a sorted list has the largest g + h of the list, and the rest is still sorted |
| RoutePlanning.SortFront | CppND-Route-Planning-Project/src/src/route_planner.cpp:84-87 | the front of the sorted open list is one of its nodes with maximal g + h, and the rest holds every other occurrence, still sorted |
| RoutePlanning.RoutePlanner.NextNode | CppND-Route-Planning-Project/src/src/route_planner.cpp:82-92 | on a non-empty open list: returns a visited node of the list whose g + h is maximal, removes exactly one occurrence of it (the rest is unchanged as a multiset, one shorter), leaves the rest sorted, and keeps the planner invariant |
| RoutePlanning.RoutePlanner.AddNeighbors | CppND-Route-Planning-Project/src/src/route_planner.cpp:109-121 | the open list becomes the old one followed by the neighbours found, in order; each neighbour gets the node as parent, g = the node's g + distance to it, h = its distance to the end node, and is visited; every other node is unchanged; the unvisited set loses exactly the neighbours; the planner invariant holds |
| RoutePlanning.RoutePlanner.AddNeighbor | CppND-Route-Planning-Project/src/src/route_planner.cpp:112-120 | one pass of the loop: the neighbour's state becomes the linked state and nothing else in the nodes changes, it is appended to the open list, and the planner invariant holds |
| RoutePlanning.LinkKeepsSearchTree | CppND-Route-Planning-Project/src/src/route_planner.cpp:113-119 | linking an unvisited node to a visited one it is adjacent to keeps the parent links acyclic, every node adjacent to its parent, and the cost of every node equal to its parent's cost plus the edge |
| RoutePlanning.LinkStep | CppND-Route-Planning-Project/src/src/route_planner.cpp:112-120 | after linking a prefix of the neighbours, the next neighbour is either still unvisited or already linked the same way, and linking it extends the prefix |
| RoutePlanning.UnvisitedShrinks | CppND-Route-Planning-Project/src/src/route_planner.cpp:60-71 | expanding a node with at least one neighbour strictly shrinks the unvisited set, and with none leaves it unchanged, so the search loop terminates |
| RoutePlanning.ParentRanksEarlier | CppND-Route-Planning-Project/src/src/route_planner.cpp:31-39 | during a search a node's parent exists and was visited strictly earlier, so following parents terminates |
| RoutePlanning.RoutePlanner.ConstructFinalPath | CppND-Route-Planning-Project/src/src/route_planner.cpp:23-45 | the path starts at the given node, each next element is the parent of the previous, the last has no parent (goal first); the distance is the sum of the distances along the path multiplied once by the metric scale, and is non-negative |
| RoutePlanning.LinkedByParentsExtend | CppND-Route-Planning-Project/src/src/route_planner.cpp:33-39 | following one more parent link extends a parent-linked sequence |
| RoutePlanning.PathLengthAppend | CppND-Route-Planning-Project/src/src/route_planner.cpp:37 | extending a path by one node adds the distance from its last node to the new one |
| RoutePlanning.PathLengthNonNegative | CppND-Route-Planning-Project/src/src/route_planner.cpp:37 | with non-negative distances a path has non-negative length |
| RoutePlanning.ParentChainUnique | CppND-Route-Planning-Project/src/src/route_planner.cpp:31-41 | from a given node there is only one parent chain, so the path constructed is determined by its first node |
| RoutePlanning.ChainEndsAtStart | CppND-Route-Planning-Project/src/src/route_planner.cpp:31-41 | during a search the parent chain of a visited node ends at the start node |
| RoutePlanning.ChainLengthIsCost | CppND-Route-Planning-Project/src/src/route_planner.cpp:37 | with a symmetric distance the length of a parent chain is the cost g of its first node minus that of its last |
| RoutePlanning.ChainFollowsGraph | CppND-Route-Planning-Project/src/src/route_planner.cpp:110-113 | during a search each node of a parent chain is adjacent to its parent, the next node of the chain, so the chain read backwards is a walk through the graph |
| RoutePlanning.FinalPathIsRoute | CppND-Route-Planning-Project/src/src/route_planner.cpp:65-66 | the path built from a visited node at zero distance from the end node runs back to the start node, each node adjacent to the next, and its scaled length equals the scaled cost g of the goal node minus that of the start |
| RoutePlanning.VisitStartKeepsSearchTree | CppND-Route-Planning-Project/src/src/route_planner.cpp:54 | marking the start node visited keeps the parent links well formed |
| RoutePlanning.ClosedSeed | CppND-Route-Planning-Project/src/src/route_planner.cpp:54-55 | marking the start visited and putting it on the open list keeps every visited node off the open list expanded |
| RoutePlanning.ClosedStep | CppND-Route-Planning-Project/src/src/route_planner.cpp:60-71 | taking a node that is not at zero distance from the end node off the open list and linking its unvisited adjacent nodes onto it keeps every visited node off the open list expanded: not at zero distance from the end node, with every adjacent node visited |
| RoutePlanning.WalkStaysClosed | CppND-Route-Planning-Project/src/src/route_planner.cpp:60-71 | once the open list is empty, every node reached by a walk through the graph from a visited node is visited and not at zero distance from the end node |
| RoutePlanning.ExhaustedMeansNoRoute | CppND-Route-Planning-Project/src/src/route_planner.cpp:60-72 | an empty open list with every visited node expanded means no walk from the start node reaches the end node or any node at zero distance from it |
| RoutePlanning.RoutePlanner.AStarSearch | CppND-Route-Planning-Project/src/src/route_planner.cpp:52-72 | the search terminates with the start visited and the planner invariant kept; when it reaches the goal, the stored path is a parent chain from a node at zero distance from the end node back to the start, each node adjacent to the next, and the distance is its length scaled to metres (equal to the scaled cost difference); when the open list runs empty, no walk through the graph leads from the start node to the end node or to any node at zero distance from it, and the stored path and the distance are untouched |

## Left out

- The road-graph model is not part of this model. That covers building it from map data,
  `FindClosestNode`, the adjacency behind `FindNeighbors`, `Node::distance` and
  `MetricScale`. These are given functions of a `Model`. The distance is assumed
  non-negative, symmetric and zero from a node to itself. Adjacency and nearest-node
  results are assumed to name existing nodes. The metric scale is assumed non-negative.
- RoutePlanning.RoutePlanner.AddNeighbors: the C++ loop iterates the node's own `neighbors`
  vector (route_planner.cpp:110-112). `FindNeighbors` fills that vector, and it stays on the
  node. The model iterates a list computed afresh: the adjacent nodes unvisited at that
  moment. The two differ when a node is expanded a second time, which can happen when it
  was queued twice. C++ then re-links and re-appends the nodes its vector still holds, which
  overwrites their parent and `g`. The model links and appends nothing, since every adjacent
  node is visited by then. How `FindNeighbors` treats a vector that is already filled is
  part of the road-graph model, which is not part of this model.
- Floating point: distances, `g`, `h`, the metric scale, the four `float` start and end
  coordinates that the planner constructor scales by 0.01, the volume and the GPA are `real`.
  Rounding, and the float-to-double promotions, are not modelled.
- Students.Student.Create: a NaN GPA passes the C++ `Validate` (Student.h:55-56), because
  every comparison with NaN is false. The model's GPA is a `real`, which has no NaN, so this
  acceptance is not captured.
- Students.Student.SetGPA: for the same reason, storing a NaN GPA passes in C++ but cannot
  be expressed here.
- Pyramids.Pyramid.Volume: the product `length * width * height` is computed in `int` in
  C++ and can overflow. The model multiplies unbounded integers.
- RoutePlanning.Sort: `std::sort` is not stable and may place nodes with equal `g + h` in any
  order. The model fixes one such order (an insertion sort). Every property proved depends
  only on the sortedness and permutation facts that any admissible order has.
- RoutePlanning.RoutePlanner.ConstructFinalPath: the C++ path holds copies of the nodes.
  The model holds their indices.
- RoutePlanning.RoutePlanner.constructor: requires a freshly built model, with no node
  visited and no parent set. This is the only state in which the planner is given one. The
  C++ constructor does not check it.
- RoutePlanning.RoutePlanner.AddNeighbors: requires the expanded node to be visited.
  `AStarSearch` only expands nodes taken from the open list, which are always visited.
- RoutePlanning.RoutePlanner.AStarSearch: requires every visited node that is off the open
  list to be expanded already. The constructor's freshly built model satisfies this, with no
  node visited. C++ returns nothing. The model's `found` result is
  ghost and only names the branch taken, for the contract. The stop test compares the real
  distance with 0 exactly, as the C++ compares the float.
- RoutePlanning.RoutePlanner.NextNode: on an empty open list `front()` is undefined
  behaviour in C++. The model requires a non-empty list, which `AStarSearch` ensures.
- Format.IntToDecimal: `TimeValueToString` on a negative value is modelled as std::to_string
  writes it. `ElapsedTime` only passes non-negative values, so properties of the padded
  field are stated for those.
- The rest of the system monitor is not modelled: the `/proc` readers of `linux_parser`,
  `Process`, `System` and the processor utilisation. They are I/O over live operating
  system data.
- The route planner's `main` is not modelled: file reading, the interactive input loops
  and rendering.
