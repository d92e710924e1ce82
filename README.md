# Weighted grid pathfinder: a Dafny model

This project models the path search that the Screeps bots in this repository
use to route creeps across a 50 x 50 room, together with the direction and
distance arithmetic it is built on. It covers two versions of that code:

- the TypeScript version, `src/searcher.ts` and `src/utils.map.ts`;
- the older CommonJS version, `src/searcher.js` and `src/utils.map.js`.

Both versions share one model. A `Dialect` value (`TypeScript` or
`CommonJs`) selects a version wherever the two behave differently:

- rotating a `Direction` object ignores its increment in the CommonJS
  helpers;
- `buildPath` returns `ERR_NO_PATH` for an empty path in the CommonJS
  version;
- the cost table is read from terrain masks in TypeScript and from terrain
  names in CommonJS.

Modules, one per file:

- `MapUtils` (`map_utils.dfy`): positions and the eight directions, with
  their constant and offset tables. It covers the rotations and their JavaScript `%`,
  the general and exact direction between cells, Chebyshev and Manhattan
  distance, adjacency and `filterAdjacentSpaces`. It also models
  `reversePath`, a loop proved against the function it computes, with its
  round trip.
- `MapUtilsJs` (`map_utils_js.dfy`): what the CommonJS helpers do
  differently. The direction table has a hole at slot 0, and object
  rotations are always one eighth. As a result, reversing a path twice does
  not give it back.
- `Seqs` (`seqs.dfy`): lodash `_.intersection`, as a function with its
  membership, no-repeat and order properties.
- `SearchDirections` (`directions.dfy`): the room grid, `isInBounds` and
  `isObstructed`. It covers `getPreferredDirections` in both versions, and
  the directions `searchFromNode` passes on after a move (the pruning in
  the style of jump point search).
- `PriorityQueue` (`queue.dfy`): the binary heap `Queue`, a class over a
  growable array with `size` and `counter`. The percolation loops are
  proved against the functions `SiftUp` and `SiftDown`.
- `Paths` (`paths.dfy`): `buildPath` over an arena of closed nodes, proved
  against the walk it builds.
- `Frontier` (`frontier.dfy`): the invariant the search loops keep over
  the queue, the closed cells and the closed nodes, one lemma per step.
- `Search` (`search.dfy`): the room's cost table and the class `Searcher`.
  It covers `addNode`, `searchFromNode`, the search loops
  `findGoalNode` and `findAllGoalNodes`, and the calls built on them.

A search node refers to its parent by the parent's slot in the searcher's
list of closed nodes. A parent is always closed before its child, so
`buildPath` follows strictly decreasing slots.

The search loops terminate because every expansion uses up one
(cell, direction) key, and there are only 20000 of them. A ghost set of
used keys bounds the loops.

When the source throws, the model returns `TypeError`. This happens when
`searchFromNode` destructures the `undefined` that `shift()` returns for an
exhausted direction list.

## Model

| member | source | states |
|---|---|---|
| MapUtils.Compare | src/utils.map.ts:9-12 | the result is -1 exactly when a < b and 1 exactly when a > b |
| MapUtils.DirectionsByConstant | src/utils.map.ts:33-42 | the direction stored under a constant carries that constant |
| MapUtils.DirectionsByOffset | src/utils.map.ts:44-59 | defined exactly for the eight non-zero offsets with dy in -1..1, and the entry has that offset |
| MapUtils.TablesAgree | src/utils.map.ts:33-59 | looking a direction up by its offset or by its constant gives the same direction back |
| MapUtils.GetGeneralDirection | src/utils.map.ts:60-62 | undefined exactly when source == target; otherwise the offset is the sign of the x and y differences |
| MapUtils.GetExactDirection | src/utils.map.ts:64-66 | defined exactly for adjacent cells, and it moves the source onto the target |
| MapUtils.JsRemainder8 | src/utils.map.ts:77 | JavaScript's `% 8` takes the dividend's sign; it is the plain remainder on 0..15 and non-positive on negatives |
| MapUtils.ClockwiseDirectionConstant | src/utils.map.ts:76-78 | for an increment of 0..8: the constant plus the increment, wrapped back into 1..8 |
| MapUtils.AnticlockwiseDirectionConstant | src/utils.map.ts:84-86 | for an increment of 0..8: the constant minus the increment, wrapped back into 1..8 |
| MapUtils.ReverseDirectionConstant | src/utils.map.ts:92-94 | the constant four eighths round, in 1..8 |
| MapUtils.RotationsUndoEachOther | src/utils.map.ts:76-86 | clockwise and anticlockwise turns by the same 0..7 undo each other in both orders; 8 eighths is the identity |
| MapUtils.ReverseConstantInvolution | src/utils.map.ts:88-94 | reversing a constant twice gives it back |
| MapUtils.ClockwiseDirection | src/utils.map.ts:72-74 | the direction object's constant is the rotated constant |
| MapUtils.AnticlockwiseDirection | src/utils.map.ts:80-82 | the direction object's constant is the rotated constant |
| MapUtils.ReverseDirection | src/utils.map.ts:88-90 | the reversed direction has the negated offset and the reversed constant |
| MapUtils.RotationGeometry | src/utils.map.ts:68-86 | two eighths clockwise maps (dx, dy) to (-dy, dx), and anticlockwise to (dy, -dx); one eighth clockwise gives (sign(dx - dy), sign(dx + dy)) |
| MapUtils.DistanceLaws | src/utils.map.ts:134-148 | both distances are symmetric and zero exactly on `areSame` cells, with chebyshev <= manhattan <= 2 * chebyshev |
| MapUtils.AdjacentIsOneMove | src/utils.map.ts:138-140 | `areAdjacent` holds exactly when one of the eight directions moves the first cell onto the second |
| MapUtils.FilterAdjacentSpaces | src/utils.map.ts:103-105 | the result keeps every given cell adjacent to the position, each as often as it was given, and no other cell, in the original order |
| MapUtils.ReverseStep | src/utils.map.ts:153-162 | a reversed step's offset agrees with its direction constant |
| MapUtils.ReverseStepMovesBack | src/utils.map.ts:153-162 | a reversed consistent step has the reversed constant and the negated offset, and sits one step back along the original offset |
| MapUtils.ReverseStepInvolution | src/utils.map.ts:153-162 | reversing a consistent step twice gives it back |
| MapUtils.ReversePathRoundTrip | src/utils.map.ts:150-165 | reversing a path of consistent steps twice gives the path back |
| MapUtils.ReversePath | src/utils.map.ts:150-165 | output step k is input step n-1-k reversed, so the length is kept |
| MapUtilsJs.AllDirections | src/utils.map.js:122-133 | `allDirections` has eight entries, and entry c-1 is the direction with constant c |
| MapUtilsJs.DirectionTableLayout | src/utils.map.js:122-132 | slot 0 of `directionsByConstant` is undefined, and slots 1..8 hold TOP..TOP_LEFT |
| MapUtilsJs.ClockwiseDirectionOfObject | src/utils.map.js:30-36 | on a Direction object the rotation is one eighth clockwise, whatever the increment |
| MapUtilsJs.AnticlockwiseDirectionOfObject | src/utils.map.js:38-44 | on a Direction object the rotation is one eighth anticlockwise, whatever the increment |
| MapUtilsJs.ReverseDirectionOfNumber | src/utils.map.js:46-48 | on a number, reversal is the opposite constant |
| MapUtilsJs.ReverseDirectionOfObject | src/utils.map.js:46-48 | on a Direction object, reversal is the one-eighth clockwise neighbour |
| MapUtilsJs.ObjectReversalIsNotOpposite | src/utils.map.js:46-48 | object reversal never gives the opposite direction |
| MapUtilsJs.IncrementIgnored | src/utils.map.js:30-36 | rotating TOP by four eighths gives TOP_RIGHT on the object, where the TypeScript helper gives BOTTOM |
| MapUtilsJs.ReverseStepTurnsOneEighth | src/utils.map.js:104-119 | a reversed step turns one eighth clockwise, and its cell is the input cell moved along that direction |
| MapUtilsJs.ReverseStepTwice | src/utils.map.js:104-119 | reversing a step twice turns it two eighths clockwise, never back to itself |
| MapUtilsJs.ReversedTwiceTurnsAQuarter | src/utils.map.js:104-119 | reversing a non-empty path twice keeps the length, turns every direction two eighths clockwise, and never gives the path back |
| MapUtilsJs.ReversePath | src/utils.map.js:104-119 | output step k is input step n-1-k reversed the CommonJS way |
| Seqs.IntersectionExcept | src/searcher.ts:243 | the elements of the first list that occur in the second and are not excluded: each kept once, ordered by where each first occurs in the first list |
| Seqs.Intersection | src/searcher.ts:243 | `_.intersection(a, b)`: exactly the elements of a that are in b, without repeats, ordered by where each first occurs in a |
| SearchDirections.CellIndex | src/searcher.ts:221-224 | the slot y * 50 + x of a room cell lies in 0..2499 |
| SearchDirections.CellIndexIsInjective | src/searcher.ts:226-234 | different room cells have different slots in the cost and closed-status arrays |
| SearchDirections.PreferredDirections | src/searcher.ts:4-19 | empty exactly when source == target; otherwise eight entries, starting with the general direction |
| SearchDirections.PreferredAround | src/searcher.ts:9-18 | eight entries, starting with the bearing |
| SearchDirections.PreferredDirectionsWidenTheTurn | src/searcher.ts:4-19 | in the TypeScript version the list is a permutation of all eight directions; entry k is (k+1)/2 eighths off the bearing, and the last entry is the reverse bearing |
| SearchDirections.CommonJsPreferredDirectionsStayNear | src/searcher.js:4-19 | in the CommonJS version a direction is preferred exactly when it is at most one eighth off the bearing |
| SearchDirections.CommonJsPreferredDirectionsFirstThree | src/searcher.js:4-19 | the CommonJS list holds the bearing, its clockwise and its anticlockwise neighbour, three different directions, first met in that order |
| SearchDirections.ForcedDirections | src/searcher.ts:279-300 | the list has one to five entries, and the direction of travel comes first |
| SearchDirections.ForcedWhenHorizontal | src/searcher.ts:286-289 | after a horizontal move, a direction is kept exactly when it is the travel direction, or a diagonal on the same side whose `addIfForced` test holds |
| SearchDirections.ForcedWhenVertical | src/searcher.ts:290-293 | after a vertical move, the same rule with the axes swapped |
| SearchDirections.ForcedWhenDiagonal | src/searcher.ts:294-300 | after a diagonal move, a direction is kept exactly when it is the travel direction, one of its two straight parts, or a back-turning diagonal whose `addIfForced` test holds |
| SearchDirections.ForcedDirectionsGoForward | src/searcher.ts:279-300 | the kept directions have no repeats, and none points against the travel |
| PriorityQueue.PriorityIsStrictOrder | src/searcher.ts:68-74 | `isHigherPriority` is irreflexive, asymmetric and transitive |
| PriorityQueue.NotHigherIsTransitive | src/searcher.ts:68-74 | "not higher" is transitive as well |
| PriorityQueue.PriorityIsTotal | src/searcher.ts:68-81 | entries with different counters are always ordered one way or the other |
| PriorityQueue.HeapRootIsBest | src/searcher.ts:85-89 | in heap order, no live entry outranks slot 0 |
| PriorityQueue.HeapTopIsBest | src/searcher.ts:85-89 | the root is a live entry that no live entry outranks |
| PriorityQueue.FindPosition | src/searcher.ts:105-107 | the first live slot at the position, or none exactly when no slot has it |
| PriorityQueue.Queue.constructor | src/searcher.ts:62-66 | an empty valid heap with counter 1 |
| PriorityQueue.Queue.Add | src/searcher.ts:76-83 | the node is stored with the next counter; size and counter grow by one, the live entries gain exactly that node, and heap order holds; the CommonJS `add` (src/searcher.js:63-68) is the same |
| PriorityQueue.Queue.Peek | src/searcher.ts:85-89 | nothing exactly on an empty queue; otherwise a live entry that no live entry outranks |
| PriorityQueue.Queue.Pop | src/searcher.ts:91-102 | an empty queue is unchanged; otherwise the top is returned, size drops by one, exactly that entry leaves, and heap order holds |
| PriorityQueue.Queue.Update | src/searcher.ts:104-117 | returns true exactly when a live entry has the position; the queue is unchanged when the callback gives nothing; otherwise the first such entry is swapped for the callback's node, and heap order holds |
| PriorityQueue.Queue.ShiftTopDirection | src/searcher.ts:316-317 | the top entry's list loses its head, which is returned with the remaining length; an empty list gives undefined and changes nothing |
| PriorityQueue.Queue.PercolateUp | src/searcher.ts:119-131 | the array becomes `SiftUp` of the old one, heap order is restored, and the live entries are kept |
| PriorityQueue.Queue.PercolateDown | src/searcher.ts:133-152 | the array becomes `SiftDown` of the old one, heap order is restored, and the live entries are kept |
| PriorityQueue.SiftUp | src/searcher.ts:119-131 | the moves `percolateUp` makes keep the array's length |
| PriorityQueue.BestChild | src/searcher.ts:136-143 | the chosen child is a child of the slot, and its sibling does not outrank it |
| PriorityQueue.SiftDown | src/searcher.ts:133-152 | the moves `percolateDown` makes keep the array's length |
| PriorityQueue.SiftUpFromHole | src/searcher.ts:119-131 | filling a hole by sifting up gives heap order, keeps the held and live entries, and touches no dead slot |
| PriorityQueue.SiftDownFromHole | src/searcher.ts:133-152 | filling a hole by sifting down gives heap order, keeps the held and live entries, and touches no dead slot |
| PriorityQueue.SiftUpKeepsEntries | src/searcher.ts:119-131 | `percolateUp` from a slot out of order only with its parent restores heap order and keeps the live entries |
| PriorityQueue.SiftDownKeepsEntries | src/searcher.ts:133-152 | `percolateDown` from a slot out of order only with its children restores heap order and keeps the live entries |
| PriorityQueue.Assign | src/searcher.ts:78-81 | a JavaScript array store at an index no larger than the length overwrites that slot or appends, and leaves the rest |
| PriorityQueue.AssignIsUpReady | src/searcher.ts:76-82 | storing a new entry just past the live ones adds it to them and leaves it ready to move up |
| PriorityQueue.ReplacementIsUpReady | src/searcher.ts:108-111 | replacing an entry by one of no lower priority leaves the heap ready to move it up |
| PriorityQueue.RemoveTopIsDownReady | src/searcher.ts:94-97 | moving the last live entry to the top leaves the heap ready to move it down |
| Frontier.CandidateDirections | src/searcher.ts:243 | the directions `addNode` keeps have no repeats, come from those offered, and are empty on the target |
| Frontier.TypeScriptCandidateDirections | src/searcher.ts:243 | off the target, the TypeScript version keeps exactly the offered directions; the list is empty exactly on the target or when nothing was offered |
| Frontier.CommonJsCandidateDirections | src/searcher.js:210 | the CommonJS version keeps only directions at most one eighth off the bearing to the target, as a subsequence of bearing, clockwise neighbour, anticlockwise neighbour |
| Frontier.AfterClose | src/searcher.ts:226-230 | closing a live node keeps the search invariant, with the node appended and its cell closed |
| Frontier.AfterShift | src/searcher.ts:316-319 | shifting a closed node's direction uses a fresh key of a closed cell, and keeps the frontier with the node's rest or without it |
| Frontier.CandidateOk | src/searcher.ts:236-243 | the node `addNode` builds for an open cell is a well-kept entry, and no closed node sits on its cell |
| Frontier.CandidateAdded | src/searcher.ts:257-267 | adding that node on a cell without an entry keeps the frontier |
| Frontier.CandidateReplaced | src/searcher.ts:244-256 | replacing a cell's entry by that node, keeping the entry's counter, keeps the frontier |
| Paths.StepInto | src/searcher.ts:41-51 | the step built for a parent link enters the child's cell, and its offset agrees with its constant |
| Paths.PathToIsWalk | src/searcher.ts:38-56 | the steps to a linked node form a walk from the source that ends on the node's cell |
| Paths.PathToCost | src/searcher.ts:276-277 | the steps to a linked node enter only unobstructed room cells, and their costs add up to the node's `costSoFar` |
| Paths.PathCostIsEven | src/searcher.ts:358-363 | a walk over cells costing 0, 2 or 10 has an even cost |
| Paths.ArenaPath | src/searcher.ts:358-363 | any closed node has a walk from the source over unobstructed cells that costs its `costSoFar`, and that cost is even |
| Paths.UnshiftLink | src/searcher.ts:41-52 | the inner loop puts exactly the one step from parent to child in front of the path |
| Paths.BuildPath | src/searcher.ts:38-56 | `buildPath` returns exactly the walk from the root of the parent chain to the node; the CommonJS version (src/searcher.js:25-46) gives `ERR_NO_PATH` instead of an empty walk |
| Search.CostTable | src/searcher.ts:180-202 | one cost per cell, each 0, 2, 10 or 255; the CommonJS version never gives 0 |
| Search.LoadCosts | src/searcher.ts:180-202 | the searcher's fresh array holds the room's cost table (from masks in TypeScript, from names in CommonJS, src/searcher.js:155-169), and the matching cache on the room is filled and kept valid |
| Search.Improved | src/searcher.ts:244-256 | the callback replaces exactly when the new estimate is strictly lower; the replacement keeps the entry's counter and does not rank below it |
| Search.Searcher.constructor | src/searcher.ts:165-174 | an empty queue, nothing closed, target range 0, and a private copy of the room's costs |
| Search.Searcher.FreshIsSearching | src/searcher.ts:165-174 | a new searcher whose source is a room cell satisfies the search invariant |
| Search.Searcher.AvoidingPositions | src/searcher.ts:204-207 | exactly the slots of the given cells become 255 in the searcher's own costs; the room is unchanged |
| Search.Searcher.WithTargetRange | src/searcher.ts:209-212 | sets the target range and nothing else |
| Search.Searcher.Close | src/searcher.ts:226-230 | appends the node to the closed nodes, marks its slot closed, and keeps the search invariant |
| Search.Searcher.ShiftDirection | src/searcher.ts:316-319 | returns the peeked node's first direction (undefined for an empty list); the node keeps the rest, or leaves the queue when none is left |
| Search.Searcher.ShiftAndMark | src/searcher.ts:316-319 | as above, and the invariant is kept; an empty list happens on the target, and in TypeScript only there |
| Search.Searcher.ExpandTop | src/searcher.ts:316-320 | either the list was empty (on the target, and in TypeScript only there), or a fresh key is expanded; the invariant is kept either way |
| Search.Searcher.PeekAndClose | src/searcher.ts:308-312 | nothing exactly on an empty queue; otherwise the top entry is closed, with the invariant kept |
| Search.Searcher.GoalStep | src/searcher.ts:308-320 | one iteration: returns on an empty queue or a goal, or else expands a fresh key |
| Search.Searcher.FindGoalNode | src/searcher.ts:304-322 | `ERR_NO_PATH` only on an empty queue; a returned node is a goal and the last node closed; it throws only in the CommonJS version (src/searcher.js:266-284, where a node's list can run dry) or with a negative range |
| Search.Searcher.PeekAndRecord | src/searcher.ts:329-336 | stops exactly on an empty queue, or on a node costlier than the first result; otherwise closes the node and records it when it is a new goal |
| Search.Searcher.AllGoalsStep | src/searcher.ts:329-341 | one iteration of `findAllGoalNodes`: stops, or closes one node and, as written, throws exactly when that node's list is used up (in TypeScript only on the target), or makes progress; with range 0 it finds nothing new |
| Search.Searcher.ExpandStep | src/searcher.ts:337-341 | as written it throws exactly when the node's list is used up, so peeking the target cell always throws; otherwise it expands a fresh key or, corrected, drops the node |
| Search.Searcher.FindAllGoalNodes | src/searcher.ts:324-343 | as written: returned goals are closed, distinct and within the first result's cost; it throws only when the last node closed had its list used up (in TypeScript, the target's node); with range 0 it never returns a goal; the CommonJS loop (src/searcher.js:286-305) is the same |
| Search.Searcher.FindAllGoalNodesCorrected | src/searcher.ts:324-343 | never throws; the results are goal cells, each recorded once, none costlier than the first; every goal closed during the call is among them |
| Search.Searcher.PathOf | src/searcher.ts:345-351 | the path to a closed goal is a walk from the source to that goal over unobstructed cells, costing its `costSoFar`; `ERR_NO_PATH` only in CommonJS with the goal on the source |
| Search.Searcher.FindSinglePath | src/searcher.ts:345-351 | a path is a walk from the source to a goal over unobstructed cells; `ERR_NO_PATH` means the queue ran dry (or, in CommonJS, the source is itself a goal) |
| Search.Searcher.FindAllPaths | src/searcher.ts:353-355 | each path is such a walk, and different paths end on different cells |
| Search.Searcher.PathsOf | src/searcher.ts:353-355 | `_.map(goals, buildPath)`: one result per goal, each a walk to that goal |
| Search.Searcher.FindPathLength | src/searcher.ts:358-363 | a length returned is half the cost of a walk from the source to a goal; nothing is returned only on an empty queue |
| Search.Searcher.Offer | src/searcher.ts:244-267 | `update` with the strictly-cheaper callback, else `add`: an entry on the cell is replaced, keeping its counter, only when the new estimate is lower; otherwise the node is added |
| Search.Searcher.AddNode | src/searcher.ts:236-268 | a closed cell leaves the queue unchanged; otherwise the node built from the arguments is offered, and the invariant (one entry per cell among others) is kept |
| Search.Searcher.GetCost | src/searcher.ts:222-224 | the cost stored at the cell's slot |
| Search.Searcher.IsObstructed | src/searcher.ts:218-220 | agrees with the obstruction test on the cost list that the search invariants use: outside the interior, or a cost of 255 |
| Search.Searcher.SearchFromNode | src/searcher.ts:270-302 | an obstructed neighbour changes nothing; otherwise the neighbour is added at the current cost plus its own, with the forced directions of the move |
| Search.FindPathLengthIn | src/searcher.ts:365-367 | static `findPathLength`: a length is half the terrain cost of a walk from the source to the target; only the CommonJS version throws |
| Search.OfferKeepsFrontier | src/searcher.ts:244-267 | offering a node that may join keeps the frontier, whether the queue replaces, ignores or adds it |
| Search.NeighbourJoins | src/searcher.ts:276-301 | a move from a closed node onto an unobstructed cell builds a node that may join the search |
| Search.NewResultIsNewCell | src/searcher.ts:334 | a live node that `_.contains` does not find among the closed results is on a cell none of them occupies |
| Search.Recorded | src/searcher.ts:333-336 | recording a peeked goal keeps the results distinct, closed, no costlier than the first, and complete; with range 0 only the target cell is recorded |
| Search.ShiftKeepsFrontier | src/searcher.ts:316-319 | shifting the top entry's direction keeps the frontier |

## Left out

- Reading terrain from the game (`room.getTerrain()`, `lookAtArea`) is replaced by two inputs of the room, a terrain mask and a terrain name per cell. The lazy caches `costs` and `terrainCosts` on the room are kept as optional fields.
- `addOffset` and the room's `getPositionAt` are plain coordinate addition.
- `findAdjacentFreeSpaces`, `isFree`, `isPlains`, `getTerrain`, `getRoomTerrain`, `hasStructure` and `getAllObjects` are not modelled, because they read structures and objects from the game.
- The game-side orchestration (areas, colony, nest, mastermind, movement, main, creeps), logging and the test helpers are not part of this model.
- The concrete test expectations (the open-grid path from (23,14) to (33,19) of length 10, and the two paths around the walled (29,20)) are not proved. Checking them would mean unfolding hundreds of heap operations on a concrete 2500-cell room.
- No path is proved shortest. The search is a pruned best-first search, and the model proves that a returned path is a walk to a goal over unobstructed cells with the stated cost.
- Costs follow the code rather than the documented plain/swamp/wall table. In TypeScript, a terrain mask other than 0, wall or swamp leaves the zero of a fresh `Uint8Array`. So costs are 0, 2, 10 or 255, and path lengths stay whole because 0 is even too.
- The source cell must lie in the room (0..49 on both axes). Outside it, the source reads `undefined` from typed arrays, which the model does not follow.
- MapUtils.GetExactDirection: requires an x difference of at most one. For a wider one the source looks up a row its offset table does not have and throws a TypeError (src/utils.map.ts:65); its only caller, `buildPath`, passes neighbouring cells.
- Search.Searcher.FindGoalNode: requires a searcher on which nothing has been searched yet (the search invariant), as the source uses each searcher for one search; `FreshIsSearching` shows that a new searcher meets it.
- Search.Searcher.FindAllGoalNodes: same requirement as `FindGoalNode`. When it throws, the contract states only that the last node peeked had an exhausted list (in TypeScript, the target cell's node).
- Search.Searcher.FindGoalNode: does not state when the CommonJS version throws, only that the TypeScript version with a non-negative range never does.
- Search.Searcher.FindAllPaths: it is built on `FindAllGoalNodesCorrected`, not on the as-written goal collection, which throws whenever it peeks the target cell (see Findings).
- Search.Searcher.FindAllGoalNodesCorrected: does not state that its results are the cheapest goals, only that none costs more than the first and that every goal closed is recorded.
- PriorityQueue.Queue.Update: requires that the callback keeps the counter and never lowers the priority. The source accepts any callback, and its only caller (`addNode`) passes one that meets this.
- PriorityQueue.Queue.Add: the CommonJS `add` writes the counter onto the caller's own node object. The model returns the stamped copy instead, and does not model that aliasing. The searcher never reads the caller's object again.
- Node objects are values. In the source, `shift()` shortens the list of the object shared by the heap, `closedNodes` and the results. In the model, closed nodes keep the list they had when closed. Nothing reads the list of a closed node except through the heap.
- Parent links are slots in the list of closed nodes rather than object references. The source writes that list but never reads it.
- `costSoFar` and the other numbers are JavaScript doubles in the source. They are modelled as unbounded integers, which is exact below 2^53. Costs on a path of at most 2500 cells stay far below that bound.
- `findPathLength`'s `/ 2` is floating-point division in the source. It is modelled as integer division, and proved exact because `costSoFar` is even.

## Findings

| source | as written | input that shows it | evidently intended | confidence | as-written member | corrected member |
|---|---|---|---|---|---|---|
| src/searcher.ts:337-341 | `findAllGoalNodes` shifts a direction from every node it peeks, goals included. The node on the target cell has an empty list, since no direction is preferred there. `shift()` gives `undefined`, and `searchFromNode` throws on destructuring it. The same holds in src/searcher.js:299-303. | the default target range 0 on any room where the target is reachable, e.g. source (24,16) and target (26,16) on open plain: the call throws when the target's node is peeked, so it never returns a goal | a peeked goal whose directions are used up is recorded and dropped from the queue without expanding, and the call goes on to return the goals found | not executed | Search.Searcher.FindAllGoalNodes | Search.Searcher.FindAllGoalNodesCorrected |
