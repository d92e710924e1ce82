/**
 * The searcher of src/searcher.ts and src/searcher.js: the cost table it
 * takes from the room, its own state (queue, closed cells, closed nodes,
 * target range) and the search loops built on `addNode` and
 * `searchFromNode`.
 *
 * A node is closed when it is peeked and stays in the queue until its
 * direction list is used up. Closed nodes are kept in order; parent links
 * are their slots. Calls that throw in the source (`searchFromNode` handed
 * the `undefined` of an exhausted direction list) give `TypeError`.
 */
module Search {
  import opened Options
  import opened MapUtils
  import opened Seqs
  import opened PriorityQueue
  import opened SearchDirections
  import opened Paths
  import opened Frontier

  /** What a call gives: the value it returns, or the TypeError it throws. */
  datatype Completion<T> = Returned(value: T) | TypeError

  /** What `findGoalNode` returns: a goal node, or `ERR_NO_PATH`. */
  datatype GoalResult = GoalNode(node: SearchNode) | NoGoal

  const TERRAIN_MASK_WALL := 1
  const TERRAIN_MASK_SWAMP := 2

  /** Every expansion key of the room: eight directions for each of its 2500 cells. */
  const AllKeys: set<int> := set k | 0 <= k < 20000

  /**
   * The TypeScript cost of a cell from its terrain mask. A mask the switch
   * does not name leaves the zero of a fresh Uint8Array.
   */
  function MaskCost(mask: int): int {
    if mask == TERRAIN_MASK_WALL then 255
    else if mask == TERRAIN_MASK_SWAMP then 10
    else if mask == 0 then 2
    else 0
  }

  /** The CommonJS cost of a cell from its terrain name. */
  function NameCost(name: string): int {
    if name == "plain" then 2 else if name == "swamp" then 10 else 255
  }

  /** The cost table `loadCosts` builds, slot `y * 50 + x` for cell (x, y). */
  function CostTable(dialect: Dialect, masks: seq<int>, names: seq<string>): (r: seq<int>)
    requires |masks| == 2500 && |names| == 2500
    ensures |r| == 2500
    ensures forall k :: 0 <= k < 2500 ==> r[k] in {0, 2, 10, 255}
    ensures dialect == CommonJs ==> forall k :: 0 <= k < 2500 ==> r[k] in {2, 10, 255}
  {
    if dialect == TypeScript then seq(2500, k requires 0 <= k < 2500 => MaskCost(masks[k]))
    else seq(2500, k requires 0 <= k < 2500 => NameCost(names[k]))
  }

  /**
   * A room: its terrain as the game reports it (the mask `getTerrain` gives
   * and the name `lookAtArea` gives, each by cell slot), and the cost tables
   * the two searchers cache on it (`costs` for the TypeScript one,
   * `terrainCosts` for the CommonJS one).
   */
  class Room {
    const terrainMasks: seq<int>
    const terrainNames: seq<string>
    var costs: Option<seq<int>>
    var terrainCosts: Option<seq<int>>

    /** A cached table is the one the terrain gives. */
    ghost predicate Valid()
      reads this
    {
      |terrainMasks| == 2500 && |terrainNames| == 2500 &&
      (costs.Some? ==> costs.value == CostTable(TypeScript, terrainMasks, terrainNames)) &&
      (terrainCosts.Some? ==> terrainCosts.value == CostTable(CommonJs, terrainMasks, terrainNames))
    }

    constructor(terrainMasks: seq<int>, terrainNames: seq<string>)
      requires |terrainMasks| == 2500 && |terrainNames| == 2500
      ensures Valid() && costs.None? && terrainCosts.None?
      ensures this.terrainMasks == terrainMasks && this.terrainNames == terrainNames
    {
      this.terrainMasks := terrainMasks;
      this.terrainNames := terrainNames;
      costs := None;
      terrainCosts := None;
    }
  }

  /**
   * `loadCosts`: fills the room's cache column by column the first time, and
   * gives the searcher a copy of its own.
   */
  method LoadCosts(dialect: Dialect, room: Room) returns (costs: array<int>)
    requires room.Valid()
    modifies room
    ensures room.Valid() && fresh(costs)
    ensures costs[..] == CostTable(dialect, room.terrainMasks, room.terrainNames)
    ensures dialect == TypeScript ==> room.costs == Some(costs[..]) && room.terrainCosts == old(room.terrainCosts)
    ensures dialect == CommonJs ==> room.terrainCosts == Some(costs[..]) && room.costs == old(room.costs)
  {
    ghost var table := CostTable(dialect, room.terrainMasks, room.terrainNames);
    var cache := if dialect == TypeScript then room.costs else room.terrainCosts;
    if cache.None? {
      var terrainCosts := new int[2500](_ => 0);
      for x := 0 to 50
        modifies terrainCosts
        invariant forall p: Position | InGrid(p) ::
          terrainCosts[CellIndex(p)] == if p.x < x then table[CellIndex(p)] else 0
      {
        for y := 0 to 50
          modifies terrainCosts
          invariant forall p: Position | InGrid(p) ::
            terrainCosts[CellIndex(p)] == if p.x < x || (p.x == x && p.y < y) then table[CellIndex(p)] else 0
        {
          var k := y * 50 + x;
          if dialect == TypeScript {
            var mask := room.terrainMasks[k];
            if mask == TERRAIN_MASK_WALL {
              terrainCosts[k] := 255;
            } else if mask == TERRAIN_MASK_SWAMP {
              terrainCosts[k] := 10;
            } else if mask == 0 {
              terrainCosts[k] := 2;
            }
          } else {
            var terrain := room.terrainNames[k];
            terrainCosts[k] := if terrain == "plain" then 2 else if terrain == "swamp" then 10 else 255;
          }
        }
      }
      forall k | 0 <= k < 2500 ensures terrainCosts[k] == table[k] {
        assert k == CellIndex(Position(k % 50, k / 50));
      }
      assert terrainCosts[..] == table;
      cache := Some(terrainCosts[..]);
      if dialect == TypeScript {
        room.costs := cache;
      } else {
        room.terrainCosts := cache;
      }
    }
    var copy := cache.value;
    costs := new int[2500](k requires 0 <= k < 2500 => copy[k]);
  }

  /** Some position to avoid has slot `k`. */
  ghost predicate Avoids(positionsToAvoid: seq<Position>, k: int) {
    exists p :: p in positionsToAvoid && CellIndex(p) == k
  }

  /** lodash 3 `_.contains` on the results: the same queue entry, told apart by its counter. */
  predicate Contains(results: seq<SearchNode>, node: SearchNode) {
    exists i :: 0 <= i < |results| && results[i].counter == node.counter
  }

  /**
   * The entry `addNode` leaves on a cell that already has entry `x`: the new
   * node's fields over `x`'s (so `x`'s position and counter stay), when the
   * new estimate is strictly lower.
   */
  function Improved(node: SearchNode, x: SearchNode): (r: Option<SearchNode>)
    ensures r.Some? <==> node.estimatedCost < x.estimatedCost
    ensures r.Some? ==> r.value.counter == x.counter && !IsHigherPriority(x, r.value)
    ensures r.Some? && x.position == node.position ==> r.value == node.(counter := x.counter)
  {
    if node.estimatedCost < x.estimatedCost then
      Some(x.(parentNode := node.parentNode, costSoFar := node.costSoFar, nextDirections := node.nextDirections,
              chebyshevDistance := node.chebyshevDistance, manhattanDistance := node.manhattanDistance,
              estimatedCost := node.estimatedCost))
    else None
  }

  class Searcher {
    const dialect: Dialect
    const room: Room
    const source: Position
    const target: Position
    const queue: Queue
    const closedStatus: array<int>
    const costs: array<int>
    /** The nodes closed so far, in order: the arena parent links point into. */
    var closedNodes: seq<SearchNode>
    var targetRange: int
    /** The (cell, direction) keys searched so far. */
    ghost var expanded: set<int>

    ghost predicate Valid()
      reads this, queue, costs
    {
      closedStatus.Length == 2500 && costs.Length == 2500 && closedStatus != costs &&
      queue.Valid() &&
      forall k :: 0 <= k < 2500 ==> costs[k] in {0, 2, 10, 255}
    }

    /** The fixed inputs of the search. */
    ghost function Inputs(): Setting
      reads costs
    {
      Setting(dialect, source, target, costs[..])
    }

    /** Nothing searched yet: a searcher is good for one search. */
    ghost predicate Fresh()
      reads this, queue, closedStatus
    {
      queue.size == 0 && closedNodes == [] && expanded == {} &&
      forall k :: 0 <= k < closedStatus.Length ==> closedStatus[k] == 0
    }

    /** What the search loops keep true. */
    ghost predicate Searching()
      reads this, queue, closedStatus, costs
    {
      Valid() && Fits(Inputs()) &&
      FrontierOk(Inputs(), closedNodes, expanded, queue.Elements()) &&
      ClosedOk(Inputs(), closedNodes, expanded, closedStatus[..])
    }

    /**
     * The Searcher constructor: an empty queue, nothing closed, target range
     * 0 and a private copy of the room's costs.
     */
    constructor(dialect: Dialect, room: Room, source: Position, target: Position)
      requires room.Valid()
      modifies room
      ensures Valid() && Fresh() && room.Valid()
      ensures this.dialect == dialect && this.room == room && this.source == source && this.target == target
      ensures targetRange == 0 && fresh(queue) && fresh(closedStatus) && fresh(costs)
      ensures costs[..] == CostTable(dialect, room.terrainMasks, room.terrainNames)
    {
      var loaded := LoadCosts(dialect, room);
      this.dialect := dialect;
      this.room := room;
      this.source := source;
      this.target := target;
      queue := new Queue();
      closedStatus := new int[2500](_ => 0);
      closedNodes := [];
      targetRange := 0;
      expanded := {};
      costs := loaded;
    }

    /** A searcher with nothing searched, started from a cell of the room, is ready to search. */
    lemma FreshIsSearching()
      requires Valid() && Fresh() && InGrid(source)
      ensures Searching()
    {
      assert queue.internalArray[..queue.size] == [];
    }

    /**
     * `avoidingPositions`: marks each given cell impassable in the searcher's
     * own costs; a slot outside the table is ignored, as a typed array does.
     */
    method AvoidingPositions(positionsToAvoid: seq<Position>)
      requires Valid()
      modifies costs
      ensures Valid() && unchanged(room)
      ensures forall k :: 0 <= k < 2500 ==> costs[k] == if Avoids(positionsToAvoid, k) then 255 else old(costs[k])
    {
      for i := 0 to |positionsToAvoid|
        invariant Valid()
        invariant forall k :: 0 <= k < 2500 ==> costs[k] == if Avoids(positionsToAvoid[..i], k) then 255 else old(costs[k])
      {
        var position := positionsToAvoid[i];
        var k := position.y * 50 + position.x;
        if 0 <= k < 2500 {
          costs[k] := 255;
        }
        forall j | 0 <= j < 2500 ensures Avoids(positionsToAvoid[..i + 1], j) <==> Avoids(positionsToAvoid[..i], j) || CellIndex(position) == j {
          assert positionsToAvoid[..i + 1] == positionsToAvoid[..i] + [position];
        }
      }
      assert positionsToAvoid[..|positionsToAvoid|] == positionsToAvoid;
    }

    /** `withTargetRange`: goals are the cells within this Chebyshev distance of the target. */
    method WithTargetRange(targetRange: int)
      modifies this
      ensures this.targetRange == targetRange
      ensures closedNodes == old(closedNodes) && expanded == old(expanded)
    {
      this.targetRange := targetRange;
    }

    /** `isGoal`. */
    predicate IsGoal(position: Position)
      reads this
    {
      GetChebyshevDistance(position, target) <= targetRange
    }

    /** `isClosed`: a slot outside the table reads as `undefined`, which is not closed. */
    predicate IsClosed(position: Position)
      reads this, closedStatus
    {
      0 <= CellIndex(position) < closedStatus.Length && closedStatus[CellIndex(position)] == 1
    }

    /**
     * `close`: records the node and marks its cell closed. Closing a live
     * entry keeps the search invariant.
     */
    method Close(node: SearchNode)
      modifies this, closedStatus
      ensures closedNodes == old(closedNodes) + [node]
      ensures var k := CellIndex(node.position);
        closedStatus[..] == if 0 <= k < closedStatus.Length then old(closedStatus[..])[k := 1] else old(closedStatus[..])
      ensures expanded == old(expanded) && targetRange == old(targetRange)
      requires Searching() && node in queue.Elements()
      ensures Searching()
    {
      ghost var searching := Searching() && node in queue.Elements();
      ghost var arena, closed := closedNodes, closedStatus[..];
      if searching {
        AfterClose(Inputs(), arena, expanded, queue.Elements(), closed, node);
      }
      closedNodes := closedNodes + [node];
      var k := node.position.y * 50 + node.position.x;
      if 0 <= k < closedStatus.Length {
        closedStatus[k] := 1;
      }
    }

    /**
     * `currentNode.nextDirections.shift()` on the peeked node, then `pop`
     * when that leaves its list empty. Gives the shifted direction, which is
     * `undefined` for a list that was already empty.
     */
    method ShiftDirection() returns (direction: Option<Direction>)
      requires queue.Valid() && queue.size > 0
      modifies queue
      ensures queue.Valid()
      ensures var top := old(queue.internalArray[0]);
        direction == (if top.nextDirections == [] then None else Some(top.nextDirections[0])) &&
        queue.Elements() == (if |top.nextDirections| <= 1 then old(queue.Elements()) - multiset{top}
          else old(queue.Elements()) - multiset{top} + multiset{top.(nextDirections := top.nextDirections[1..])}) &&
        queue.size == if |top.nextDirections| <= 1 then old(queue.size) - 1 else old(queue.size)
    {
      ghost var top := queue.internalArray[0];
      var remaining;
      direction, remaining := queue.ShiftTopDirection();
      if remaining == 0 {
        if top.nextDirections == [] {
          assert queue.internalArray[0] == top;
        }
        var _ := queue.Pop();
      }
    }

    /**
     * The first half of expanding the top entry: shift its next direction,
     * dropping the entry when that was its last one, and mark the
     * (cell, direction) key as searched.
     */
    method ShiftAndMark(currentNode: SearchNode) returns (direction: Option<Direction>)
      requires Searching() && queue.size > 0 && queue.internalArray[0] == currentNode
      requires |closedNodes| > 0 && closedNodes[|closedNodes| - 1] == currentNode
      modifies this, queue
      ensures closedNodes == old(closedNodes) && targetRange == old(targetRange)
      ensures direction.None? <==> currentNode.nextDirections == []
      ensures direction.None? ==> dialect == TypeScript ==> currentNode.position == target
      ensures currentNode.position == target ==> direction.None?
      ensures direction.None? ==> Searching() && expanded == old(expanded) && queue.size < old(queue.size)
      ensures direction.Some? ==> Searching() && direction.value == currentNode.nextDirections[0]
      ensures direction.Some? ==>
        (var k := Key(currentNode.position, direction.value);
         k in AllKeys && k !in old(expanded) && expanded == old(expanded) + {k})
    {
      ghost var m := queue.Elements();
      assert currentNode in m by {
        assert queue.internalArray[..queue.size][0] == currentNode;
      }
      assert EntryOk(Inputs(), closedNodes, expanded, currentNode);
      ghost var closed := closedStatus[..];
      direction := ShiftDirection();
      assert closedStatus[..] == closed;
      if direction.None? {
        FrontierRemove(Inputs(), closedNodes, expanded, m, currentNode);
        return;
      }
      Mark(currentNode, m);
    }

    /** Marks the top entry's first direction from its cell as searched, once it is shifted off. */
    ghost method Mark(top: SearchNode, m: multiset<SearchNode>)
      requires Valid() && Fits(Inputs())
      requires FrontierOk(Inputs(), closedNodes, expanded, m) && ClosedOk(Inputs(), closedNodes, expanded, closedStatus[..])
      requires top in m && top.nextDirections != [] && closedStatus[CellIndex(top.position)] == 1
      requires queue.Elements() == if |top.nextDirections| == 1 then m - multiset{top}
        else m - multiset{top} + multiset{top.(nextDirections := top.nextDirections[1..])}
      modifies this
      ensures Searching() && closedNodes == old(closedNodes) && targetRange == old(targetRange)
      ensures var k := Key(top.position, top.nextDirections[0]);
        k in AllKeys && k !in old(expanded) && expanded == old(expanded) + {k}
    {
      ShiftKeepsFrontier(Inputs(), closedNodes, expanded, m, closedStatus[..], top, queue.Elements());
      expanded := expanded + {Key(top.position, top.nextDirections[0])};
    }

    /**
     * One pass of the search loop after the top entry was closed: shift its
     * next direction and search from it that way. An entry with no
     * directions left (`exhausted`) is dropped from the queue; that is where
     * the source hands `undefined` to `searchFromNode` and throws.
     */
    method ExpandTop(currentNode: SearchNode) returns (exhausted: bool)
      requires Searching() && queue.size > 0 && queue.internalArray[0] == currentNode
      requires |closedNodes| > 0 && closedNodes[|closedNodes| - 1] == currentNode
      modifies this, queue
      ensures closedNodes == old(closedNodes) && targetRange == old(targetRange)
      ensures exhausted <==> currentNode.nextDirections == []
      ensures exhausted ==> dialect == TypeScript ==> currentNode.position == target
      ensures currentNode.position == target ==> exhausted
      ensures exhausted ==> Searching() && expanded == old(expanded) && queue.size < old(queue.size)
      ensures !exhausted ==>
        Searching() &&
        (var k := Key(currentNode.position, currentNode.nextDirections[0]);
         k in AllKeys && k !in old(expanded) && expanded == old(expanded) + {k})
    {
      var direction := ShiftAndMark(currentNode);
      if direction.None? {
        return true;
      }
      ghost var marked := expanded;
      SearchFromNode(currentNode, |closedNodes| - 1, direction.value);
      assert expanded == marked;
      return false;
    }

    /**
     * `findGoalNode`: seeds the queue with the source and its preferred
     * directions, then peeks, closes and expands until the peeked node is a
     * goal or the queue is empty.
     */
    method FindGoalNode() returns (r: Completion<GoalResult>)
      requires Searching()
      modifies this, queue, closedStatus
      ensures targetRange == old(targetRange)
      ensures r.Returned? ==> Searching()
      ensures r == Returned(NoGoal) ==> queue.size == 0
      ensures r.Returned? && r.value.GoalNode? ==>
        IsGoal(r.value.node.position) && |closedNodes| > 0 && closedNodes[|closedNodes| - 1] == r.value.node
      ensures r.TypeError? ==> dialect == CommonJs || targetRange < 0
    {
      AddNode(source, None, 0, PreferredDirections(dialect, source, target));
      while true
        invariant Searching() && targetRange == old(targetRange)
        decreases AllKeys - expanded
      {
        ghost var before := expanded;
        var done;
        done, r := GoalStep();
        if done {
          return;
        }
        ghost var k :| k in AllKeys && k !in before && expanded == before + {k};
        Progress(before, k);
      }
    }

    /** `findGoalNode`'s peek and close: the top entry, now closed, or nothing on an empty queue. */
    method PeekAndClose() returns (top: Option<SearchNode>)
      requires Searching()
      modifies this, closedStatus
      ensures Searching() && expanded == old(expanded) && targetRange == old(targetRange)
      ensures top.None? ==> queue.size == 0
      ensures top.Some? ==>
        queue.size > 0 && queue.internalArray[0] == top.value && closedNodes == old(closedNodes) + [top.value]
    {
      top := queue.Peek();
      if top.Some? {
        Close(top.value);
      }
    }

    /**
     * One turn of `findGoalNode`'s loop: peek; stop on an empty queue;
     * close; stop on a goal; otherwise expand the top entry, which throws
     * when it has no direction left.
     */
    method GoalStep() returns (done: bool, r: Completion<GoalResult>)
      requires Searching()
      modifies this, queue, closedStatus
      ensures targetRange == old(targetRange)
      ensures !done ==> Searching() && exists k :: k in AllKeys && k !in old(expanded) && expanded == old(expanded) + {k}
      ensures done && r.Returned? ==> Searching()
      ensures done && r == Returned(NoGoal) ==> queue.size == 0
      ensures done && r.Returned? && r.value.GoalNode? ==>
        IsGoal(r.value.node.position) && |closedNodes| > 0 && closedNodes[|closedNodes| - 1] == r.value.node
      ensures done && r.TypeError? ==> dialect == CommonJs || targetRange < 0
    {
      var top := PeekAndClose();
      if top.None? {
        return true, Returned(NoGoal);
      }
      var currentNode := top.value;
      if IsGoal(currentNode.position) {
        return true, Returned(GoalNode(currentNode));
      }
      var exhausted := ExpandTop(currentNode);
      return exhausted, TypeError;
    }

    /**
     * `findAllGoalNodes`' peek, stop test, close and record: stops on an
     * empty queue or once the top entry costs more than the first goal found;
     * otherwise closes the top entry and records it when it is a goal not
     * recorded yet.
     */
    method PeekAndRecord(results: seq<SearchNode>, ghost from: nat) returns (current: Option<SearchNode>, found: seq<SearchNode>)
      requires Searching() && from <= |closedNodes|
      requires ResultsOk(results, closedNodes, target, targetRange) && AllRecorded(results, closedNodes, from, target, targetRange)
      modifies this, closedStatus
      ensures Searching() && expanded == old(expanded) && targetRange == old(targetRange)
      ensures current.None? ==>
        found == results && closedNodes == old(closedNodes) &&
        (queue.size == 0 || (|results| > 0 && queue.internalArray[0].costSoFar > results[0].costSoFar))
      ensures current.Some? ==>
        queue.size > 0 && queue.internalArray[0] == current.value && closedNodes == old(closedNodes) + [current.value] &&
        found == if IsGoal(current.value.position) && !Contains(results, current.value) then results + [current.value] else results
      ensures ResultsOk(found, closedNodes, target, targetRange) && AllRecorded(found, closedNodes, from, target, targetRange)
      ensures targetRange == 0 && found != results ==> current.Some? && current.value.position == target
    {
      found := results;
      current := queue.Peek();
      if current.None? || (|results| > 0 && current.value.costSoFar > results[0].costSoFar) {
        return None, results;
      }
      var currentNode := current.value;
      if IsGoal(currentNode.position) && !Contains(results, currentNode) {
        found := results + [currentNode];
      }
      Recorded(Inputs(), closedNodes, expanded, queue.Elements(), results, found, currentNode, from, targetRange);
      Close(currentNode);
    }

    /**
     * The last node closed is where the search threw: its list of directions
     * was used up, and in TypeScript only the target's entry runs out.
     */
    ghost predicate ThrewOnExhausted()
      reads this
    {
      |closedNodes| > 0 && closedNodes[|closedNodes| - 1].nextDirections == [] &&
      (dialect == CommonJs || closedNodes[|closedNodes| - 1].position == target)
    }

    /**
     * One turn of `findAllGoalNodes`' loop. With `skipExhausted` an entry
     * with no direction left is dropped and the loop goes on; without it,
     * as the source is written, that is where the call throws.
     */
    method AllGoalsStep(results: seq<SearchNode>, ghost from: nat, skipExhausted: bool)
      returns (stop: bool, thrown: bool, found: seq<SearchNode>)
      requires Searching() && from <= |closedNodes|
      requires ResultsOk(results, closedNodes, target, targetRange) && AllRecorded(results, closedNodes, from, target, targetRange)
      modifies this, queue, closedStatus
      ensures targetRange == old(targetRange) && from <= |closedNodes|
      ensures thrown ==> !skipExhausted && !stop
      ensures thrown ==> ThrewOnExhausted()
      ensures !stop ==>
        |closedNodes| == |old(closedNodes)| + 1 &&
        (thrown <==> !skipExhausted && closedNodes[|closedNodes| - 1].nextDirections == [])
      ensures !thrown ==>
        Searching() && ResultsOk(found, closedNodes, target, targetRange) && AllRecorded(found, closedNodes, from, target, targetRange)
      ensures stop ==> queue.size == 0 || (|found| > 0 && queue.internalArray[0].costSoFar > found[0].costSoFar)
      ensures !stop && !thrown ==>
        AllKeys - expanded < AllKeys - old(expanded) || (expanded == old(expanded) && queue.size < old(queue.size))
      ensures !skipExhausted && !thrown && NothingAtRangeZero(results, targetRange) ==> NothingAtRangeZero(found, targetRange)
    {
      var current;
      current, found := PeekAndRecord(results, from);
      if current.None? {
        return true, false, found;
      }
      var currentNode := current.value;
      thrown := ExpandStep(currentNode, skipExhausted);
      return false, thrown, found;
    }

    /**
     * Expands the top entry, just closed. An entry with no direction left
     * throws as the source is written, or is dropped with `skipExhausted`.
     * Either way the search moves on: a new key is searched or the queue
     * shrinks.
     */
    method ExpandStep(currentNode: SearchNode, skipExhausted: bool) returns (thrown: bool)
      requires Searching() && queue.size > 0 && queue.internalArray[0] == currentNode
      requires |closedNodes| > 0 && closedNodes[|closedNodes| - 1] == currentNode
      modifies this, queue
      ensures closedNodes == old(closedNodes) && targetRange == old(targetRange)
      ensures thrown <==> !skipExhausted && currentNode.nextDirections == []
      ensures thrown ==> ThrewOnExhausted()
      ensures !skipExhausted && currentNode.position == target ==> thrown
      ensures !thrown ==>
        Searching() &&
        (AllKeys - expanded < AllKeys - old(expanded) || (expanded == old(expanded) && queue.size < old(queue.size)))
    {
      ghost var before := expanded;
      var exhausted := ExpandTop(currentNode);
      if !exhausted {
        Progress(before, Key(currentNode.position, currentNode.nextDirections[0]));
      }
      return exhausted && !skipExhausted;
    }

    /**
     * `findAllGoalNodes`, as written: seeds the queue with the source, then
     * closes entries in order, recording each goal once, until the queue is
     * empty or the top entry costs more than the first goal. Expanding an
     * entry with no direction left throws, and the target's own entry never
     * has one: with target range 0 the call never returns a goal.
     */
    method FindAllGoalNodes() returns (r: Completion<seq<SearchNode>>)
      requires Searching()
      modifies this, queue, closedStatus
      ensures targetRange == old(targetRange)
      ensures r.Returned? ==>
        Searching() && ResultsOk(r.value, closedNodes, target, targetRange) &&
        AllRecorded(r.value, closedNodes, |old(closedNodes)|, target, targetRange) &&
        (queue.size == 0 || (|r.value| > 0 && queue.internalArray[0].costSoFar > r.value[0].costSoFar))
      ensures r.TypeError? ==> ThrewOnExhausted()
      ensures r.Returned? ==> NothingAtRangeZero(r.value, targetRange)
    {
      var results: seq<SearchNode> := [];
      ghost var from := |closedNodes|;
      AddNode(source, None, 0, PreferredDirections(dialect, source, target));
      while true
        invariant Searching() && targetRange == old(targetRange) && from == |old(closedNodes)| <= |closedNodes|
        invariant ResultsOk(results, closedNodes, target, targetRange) && AllRecorded(results, closedNodes, from, target, targetRange)
        invariant NothingAtRangeZero(results, targetRange)
        decreases AllKeys - expanded, queue.size
      {
        var stop, thrown;
        stop, thrown, results := AllGoalsStep(results, from, false);
        if thrown {
          return TypeError;
        }
        if stop {
          return Returned(results);
        }
      }
    }

    /**
     * `findAllGoalNodes` with an exhausted entry dropped instead of expanded:
     * it never throws, and every goal closed along the way is recorded,
     * the target's own entry included.
     */
    method FindAllGoalNodesCorrected() returns (results: seq<SearchNode>)
      requires Searching()
      modifies this, queue, closedStatus
      ensures Searching() && targetRange == old(targetRange)
      ensures ResultsOk(results, closedNodes, target, targetRange)
      ensures AllRecorded(results, closedNodes, |old(closedNodes)|, target, targetRange)
      ensures queue.size == 0 || (|results| > 0 && queue.internalArray[0].costSoFar > results[0].costSoFar)
    {
      results := [];
      ghost var from := |closedNodes|;
      AddNode(source, None, 0, PreferredDirections(dialect, source, target));
      while true
        invariant Searching() && targetRange == old(targetRange) && from == |old(closedNodes)| <= |closedNodes|
        invariant ResultsOk(results, closedNodes, target, targetRange) && AllRecorded(results, closedNodes, from, target, targetRange)
        decreases AllKeys - expanded, queue.size
      {
        var stop, thrown;
        stop, thrown, results := AllGoalsStep(results, from, true);
        if stop {
          return;
        }
      }
    }

    /**
     * A path the searcher may report: a walk from the source over cells that
     * are not obstructed, ending on a goal.
     */
    ghost predicate GoalWalk(steps: seq<PathStep>)
      reads this, costs
      requires costs.Length == 2500
    {
      IsWalk(source, steps) && IsGoal(End(source, steps)) &&
      forall k :: 0 <= k < |steps| ==> InGrid(Cell(steps[k])) && !SearchDirections.IsObstructed(costs[..], Cell(steps[k]))
    }

    /**
     * `r` is a path to `node`'s cell that may be reported, or the CommonJS
     * `ERR_NO_PATH` for a node on the source.
     */
    ghost predicate PathFor(r: PathResult, node: SearchNode)
      reads this, costs
      requires costs.Length == 2500
    {
      (r.Path? ==> GoalWalk(r.steps) && End(source, r.steps) == node.position) &&
      (r.ErrNoPath? ==> dialect == CommonJs && node.position == source)
    }

    /**
     * The path `buildPath` gives for a closed goal node: a walk to its cell
     * costing its cost so far.
     */
    method PathOf(node: SearchNode) returns (r: PathResult)
      requires costs.Length == 2500 && Fits(Inputs()) && LinkedArena(closedNodes, source, costs[..])
      requires node in closedNodes && IsGoal(node.position)
      ensures PathFor(r, node)
      ensures r.Path? ==> PathCost(costs[..], r.steps) == node.costSoFar
    {
      ghost var k :| 0 <= k < |closedNodes| && closedNodes[k] == node;
      ArenaPath(closedNodes, k, source, costs[..]);
      r := BuildPath(dialect, closedNodes, node);
    }

    /** `findSinglePath`: the path to the goal node `findGoalNode` finds, or `ERR_NO_PATH`. */
    method FindSinglePath() returns (r: Completion<PathResult>)
      requires Searching()
      modifies this, queue, closedStatus
      ensures r.TypeError? ==> dialect == CommonJs || targetRange < 0
      ensures r == Returned(ErrNoPath) ==> queue.size == 0 || (dialect == CommonJs && IsGoal(source))
      ensures r.Returned? && r.value.Path? ==> GoalWalk(r.value.steps)
    {
      var node := FindGoalNode();
      if node.TypeError? {
        return TypeError;
      }
      if node.value.NoGoal? {
        return Returned(ErrNoPath);
      }
      var path := PathOf(node.value.node);
      return Returned(path);
    }

    /**
     * `findAllPaths`: the path to each goal node found, over the goal nodes
     * of `FindAllGoalNodesCorrected`. Each is a walk to a different goal
     * cell.
     */
    method FindAllPaths() returns (paths: seq<PathResult>)
      requires Searching()
      modifies this, queue, closedStatus
      ensures forall i :: 0 <= i < |paths| ==>
        (paths[i].Path? ==> GoalWalk(paths[i].steps)) && (paths[i].ErrNoPath? ==> dialect == CommonJs && IsGoal(source))
      ensures forall i, j :: 0 <= i < j < |paths| && paths[i].Path? && paths[j].Path? ==>
        End(source, paths[i].steps) != End(source, paths[j].steps)
    {
      var goals := FindAllGoalNodesCorrected();
      paths := PathsOf(goals);
    }

    /** `_.map(goals, buildPath)` over closed goal nodes. */
    method PathsOf(goals: seq<SearchNode>) returns (paths: seq<PathResult>)
      requires costs.Length == 2500 && Fits(Inputs()) && LinkedArena(closedNodes, source, costs[..])
      requires forall i :: 0 <= i < |goals| ==> goals[i] in closedNodes && IsGoal(goals[i].position)
      ensures |paths| == |goals|
      ensures forall i :: 0 <= i < |goals| ==> PathFor(paths[i], goals[i])
    {
      paths := [];
      for i := 0 to |goals|
        invariant |paths| == i
        invariant forall j :: 0 <= j < i ==> PathFor(paths[j], goals[j])
      {
        var path := PathOf(goals[i]);
        paths := paths + [path];
      }
    }

    /**
     * `findPathLength`: half the goal node's cost so far, the number of
     * plain-cell moves its path is worth; nothing without a goal.
     */
    method FindPathLength() returns (r: Completion<Option<int>>)
      requires Searching()
      modifies this, queue, closedStatus
      ensures targetRange == old(targetRange)
      ensures r.TypeError? ==> dialect == CommonJs || targetRange < 0
      ensures r == Returned(None) ==> queue.size == 0
      ensures r.Returned? && r.value.Some? ==>
        exists steps :: GoalWalk(steps) && PathCost(costs[..], steps) == 2 * r.value.value
    {
      var node := FindGoalNode();
      if node.TypeError? {
        return TypeError;
      }
      if node.value.NoGoal? {
        return Returned(None);
      }
      var k := |closedNodes| - 1;
      ArenaPath(closedNodes, k, source, costs[..]);
      ghost var steps := PathTo(closedNodes, closedNodes[k], |closedNodes|);
      assert GoalWalk(steps);
      return Returned(Some(node.value.node.costSoFar / 2));
    }

    /**
     * What handing `node` to the queue does: on a cell with an entry, that
     * entry is replaced by `node` (keeping its counter) only when `node`'s
     * estimate is strictly lower; on a cell without one, `node` is added.
     */
    twostate predicate Offered(node: SearchNode)
      reads this, queue
      requires old(queue.Valid()) && queue.Valid()
    {
      var at := FindPosition(old(queue.internalArray[..queue.size]), node.position);
      if at.Some? then
        var x := old(queue.internalArray[at.value]);
        if node.estimatedCost < x.estimatedCost then
          queue.counter == old(queue.counter) && queue.size == old(queue.size) &&
          queue.Elements() == old(queue.Elements()) - multiset{x} + multiset{node.(counter := x.counter)}
        else
          unchanged(queue)
      else
        queue.counter == old(queue.counter) + 1 && queue.size == old(queue.size) + 1 &&
        queue.Elements() == old(queue.Elements()) + multiset{node.(counter := old(queue.counter))}
    }

    /** The queue half of `addNode`: `update` with the strictly-cheaper callback, else `add`. */
    method Offer(node: SearchNode)
      requires queue.Valid()
      modifies queue
      ensures queue.Valid()
      ensures Offered(node)
    {
      ghost var live := queue.internalArray[..queue.size];
      var didUpdate := queue.Update(node.position, (x: SearchNode) => Improved(node, x));
      if !didUpdate {
        var _ := queue.Add(node);
      }
    }

    /**
     * What `addNode` does to the queue: nothing on a closed cell; otherwise
     * it offers the node built from its arguments.
     */
    twostate predicate NodeAdded(position: Position, parentNode: Option<nat>, costSoFar: int, nextDirections: seq<Direction>)
      reads this, queue, closedStatus
      requires old(queue.Valid()) && queue.Valid()
    {
      if old(IsClosed(position)) then unchanged(queue)
      else Offered(Candidate(dialect, target, position, parentNode, costSoFar, nextDirections))
    }

    /** `addNode`, on a node that may join the search: it keeps the search invariant. */
    method AddNode(position: Position, parentNode: Option<nat>, costSoFar: int, nextDirections: seq<Direction>)
      requires Searching() && Joins(Inputs(), closedNodes, position, parentNode, costSoFar, nextDirections)
      modifies queue
      ensures Searching()
      ensures NodeAdded(position, parentNode, costSoFar, nextDirections)
    {
      if IsClosed(position) {
        return;
      }
      ghost var m := queue.Elements();
      ghost var live := queue.internalArray[..queue.size];
      var chebyshevDistance := GetChebyshevDistance(position, target);
      var manhattanDistance := GetManhattanDistance(position, target);
      var estimatedCost := costSoFar + 2 * chebyshevDistance;
      var directions := Intersection(PreferredDirections(dialect, position, target), nextDirections);
      var node := SearchNode(parentNode, position, estimatedCost, costSoFar, manhattanDistance, chebyshevDistance, directions, 0);
      assert node == Candidate(dialect, target, position, parentNode, costSoFar, nextDirections);
      ghost var c := queue.counter;
      Offer(node);
      OfferKeepsFrontier(Inputs(), closedNodes, expanded, closedStatus[..], m, live, queue.Elements(), c,
        position, parentNode, costSoFar, nextDirections);
    }

    /** `getCost`. */
    function GetCost(position: Position): (c: int)
      reads this, costs
      requires costs.Length == 2500 && InGrid(position)
      ensures c == costs[CellIndex(position)]
    {
      costs[position.y * 50 + position.x]
    }

    /** `isObstructed`: the border and everything past it, or a cost of 255; the bounds test comes first. */
    predicate IsObstructed(position: Position): (b: bool)
      reads this, costs
      requires costs.Length == 2500
      ensures b == SearchDirections.IsObstructed(costs[..], position)
    {
      !IsInBounds(position) || GetCost(position) == 255
    }

    /**
     * `searchFromNode`: moves from the closed node at slot `currentIndex` in
     * `direction`. An obstructed neighbour is skipped; otherwise the
     * neighbour is handed to `addNode` with the cost of entering it added and
     * the forced directions of the move.
     */
    method SearchFromNode(currentNode: SearchNode, currentIndex: nat, direction: Direction)
      requires Searching() && currentIndex < |closedNodes| && closedNodes[currentIndex] == currentNode
      modifies queue
      ensures Searching()
      ensures var neighbour := Neighbour(currentNode.position, direction);
        if SearchDirections.IsObstructed(old(costs[..]), neighbour) then unchanged(queue)
        else NodeAdded(neighbour, Some(currentIndex), currentNode.costSoFar + old(costs[CellIndex(neighbour)]),
          ForcedDirections(old(costs[..]), currentNode.position, direction))
    {
      var neighbourPosition := direction.AddToPosition(currentNode.position);
      assert neighbourPosition == Neighbour(currentNode.position, direction);
      if IsObstructed(neighbourPosition) {
        return;
      }
      var neighbourCost := GetCost(neighbourPosition);
      var costSoFar := currentNode.costSoFar + neighbourCost;
      assert costSoFar == currentNode.costSoFar + costs[CellIndex(neighbourPosition)];
      var nextDirections := ForcedDirections(costs[..], currentNode.position, direction);
      NeighbourJoins(Inputs(), closedNodes, currentIndex, direction, neighbourPosition, costSoFar, nextDirections);
      AddNode(neighbourPosition, Some(currentIndex), costSoFar, nextDirections);
    }
  }

  /**
   * The static `findPathLength`: a fresh searcher on the room, target range
   * 0. A length it gives is half the cost of a walk from the source to the
   * target over the room's terrain.
   */
  method FindPathLengthIn(dialect: Dialect, room: Room, source: Position, target: Position) returns (r: Completion<Option<int>>)
    requires room.Valid() && InGrid(source)
    modifies room
    ensures room.Valid()
    ensures r.TypeError? ==> dialect == CommonJs
    ensures r.Returned? && r.value.Some? ==>
      exists steps :: IsWalk(source, steps) && End(source, steps) == target &&
        (forall k :: 0 <= k < |steps| ==> InGrid(Cell(steps[k]))) &&
        PathCost(CostTable(dialect, room.terrainMasks, room.terrainNames), steps) == 2 * r.value.value
  {
    var searcher := new Searcher(dialect, room, source, target);
    searcher.FreshIsSearching();
    r := searcher.FindPathLength();
    if r.Returned? && r.value.Some? {
      ghost var steps :| searcher.GoalWalk(steps) && PathCost(searcher.costs[..], steps) == 2 * r.value.value;
      DistanceLaws(End(source, steps), target);
    }
  }

  /** Offering a node that may join keeps the frontier, whichever way the queue takes it. */
  lemma OfferKeepsFrontier(s: Setting, arena: seq<SearchNode>, expanded: set<int>, closed: seq<int>,
                           m: multiset<SearchNode>, live: seq<SearchNode>, m': multiset<SearchNode>, c: int,
                           position: Position, parentNode: Option<nat>, costSoFar: int, nextDirections: seq<Direction>)
    requires Fits(s) && |closed| == 2500 && ClosedOk(s, arena, expanded, closed) && FrontierOk(s, arena, expanded, m)
    requires m == multiset(live)
    requires InGrid(position) && closed[CellIndex(position)] != 1
    requires Linked(arena, Candidate(s.dialect, s.target, position, parentNode, costSoFar, nextDirections), |arena|, s.source, s.costs)
    requires s.dialect == TypeScript && position != s.target ==> nextDirections != []
    requires var node := Candidate(s.dialect, s.target, position, parentNode, costSoFar, nextDirections);
      var at := FindPosition(live, position);
      if at.Some? then
        var x := live[at.value];
        m' == if node.estimatedCost < x.estimatedCost then m - multiset{x} + multiset{node.(counter := x.counter)} else m
      else
        m' == m + multiset{node.(counter := c)}
    ensures FrontierOk(s, arena, expanded, m')
  {
    var at := FindPosition(live, position);
    if at.Some? {
      var x := live[at.value];
      assert x in m;
      CandidateReplaced(s, arena, expanded, m, closed, position, parentNode, costSoFar, nextDirections, x);
    } else {
      forall e | e in m ensures e.position != position {
        assert e in live;
      }
      CandidateAdded(s, arena, expanded, m, closed, position, parentNode, costSoFar, nextDirections, c);
    }
  }

  /**
   * The node `addNode` is handed may join the search: it sits on the room,
   * is linked into the closed nodes, and (TypeScript) off the target it is
   * offered some direction.
   */
  ghost predicate Joins(s: Setting, arena: seq<SearchNode>, position: Position, parentNode: Option<nat>, costSoFar: int,
                        nextDirections: seq<Direction>)
    requires |s.costs| == 2500
  {
    InGrid(position) &&
    Linked(arena, Candidate(s.dialect, s.target, position, parentNode, costSoFar, nextDirections), |arena|, s.source, s.costs) &&
    (s.dialect == TypeScript && position != s.target ==> nextDirections != [])
  }

  /** A free neighbour of a closed node, offered at least one direction, may join. */
  lemma NeighbourJoins(s: Setting, arena: seq<SearchNode>, p: nat, direction: Direction, n: Position, costSoFar: int,
                       nextDirections: seq<Direction>)
    requires Fits(s) && LinkedArena(arena, s.source, s.costs) && p < |arena|
    requires n == Neighbour(arena[p].position, direction) && !IsObstructed(s.costs, n)
    requires costSoFar == arena[p].costSoFar + s.costs[CellIndex(n)]
    requires nextDirections != []
    ensures Joins(s, arena, n, Some(p), costSoFar, nextDirections)
  {
    assert AreAdjacent(arena[p].position, n) by {
      assert direction in AllDirections;
    }
  }

  /** Marking a new key shrinks what is left to search. */
  lemma Progress(expanded: set<int>, k: int)
    requires k in AllKeys && k !in expanded
    ensures AllKeys - (expanded + {k}) < AllKeys - expanded
  {
    assert k in AllKeys - expanded;
  }

  /**
   * What `findAllGoalNodes` has recorded: closed nodes on goal cells, each
   * cell once, none costing more than the first.
   */
  ghost predicate ResultsOk(results: seq<SearchNode>, arena: seq<SearchNode>, target: Position, targetRange: int) {
    (forall i :: 0 <= i < |results| ==>
      results[i] in arena && GetChebyshevDistance(results[i].position, target) <= targetRange &&
      results[i].costSoFar <= results[0].costSoFar) &&
    forall i, j :: 0 <= i < j < |results| ==> results[i].position != results[j].position
  }

  /** With target range 0, nothing is recorded. */
  predicate NothingAtRangeZero(results: seq<SearchNode>, targetRange: int) {
    targetRange == 0 ==> results == []
  }

  /** Every node closed from slot `from` on that is on a goal cell is recorded. */
  ghost predicate AllRecorded(results: seq<SearchNode>, arena: seq<SearchNode>, from: nat, target: Position, targetRange: int) {
    forall j :: from <= j < |arena| && GetChebyshevDistance(arena[j].position, target) <= targetRange ==>
      Contains(results, arena[j])
  }

  /**
   * A live entry that is not recorded sits on a cell no recorded node
   * sits on: a recorded node is closed, and the entry on a closed node's
   * cell is that node's own.
   */
  lemma NewResultIsNewCell(s: Setting, arena: seq<SearchNode>, expanded: set<int>, m: multiset<SearchNode>,
                           results: seq<SearchNode>, node: SearchNode)
    requires |s.costs| == 2500 && FrontierOk(s, arena, expanded, m) && node in m
    requires forall i :: 0 <= i < |results| ==> results[i] in arena
    requires !Contains(results, node)
    ensures forall i :: 0 <= i < |results| ==> results[i].position != node.position
  {
    forall i | 0 <= i < |results| ensures results[i].position != node.position {
      var j :| 0 <= j < |arena| && arena[j] == results[i];
      assert node.counter != arena[j].counter;
    }
  }

  /**
   * Closing the top entry `node`, which costs no more than the first goal
   * found, and recording it when it is a new goal keeps the record right.
   */
  lemma Recorded(s: Setting, arena: seq<SearchNode>, expanded: set<int>, m: multiset<SearchNode>,
                 results: seq<SearchNode>, found: seq<SearchNode>, node: SearchNode, from: nat, targetRange: int)
    requires |s.costs| == 2500 && FrontierOk(s, arena, expanded, m) && node in m && from <= |arena|
    requires ResultsOk(results, arena, s.target, targetRange) && AllRecorded(results, arena, from, s.target, targetRange)
    requires |results| > 0 ==> node.costSoFar <= results[0].costSoFar
    requires found == if GetChebyshevDistance(node.position, s.target) <= targetRange && !Contains(results, node)
      then results + [node] else results
    ensures ResultsOk(found, arena + [node], s.target, targetRange)
    ensures AllRecorded(found, arena + [node], from, s.target, targetRange)
    ensures targetRange == 0 && found != results ==> node.position == s.target
  {
    RecordedGrows(results, found, arena, node, from, s.target, targetRange);
    var grown := arena + [node];
    forall i | 0 <= i < |found| ensures found[i] in grown {
      if i < |results| {
        assert found[i] == results[i];
      }
    }
    if found != results {
      DistanceLaws(node.position, s.target);
      NewResultIsNewCell(s, arena, expanded, m, results, node);
      forall i, j | 0 <= i < j < |found| ensures found[i].position != found[j].position {
        if j == |results| {
          assert found[i] == results[i];
        }
      }
    }
  }

  /** Closing `node` and recording it when it is a new goal keeps everything recorded. */
  lemma RecordedGrows(results: seq<SearchNode>, found: seq<SearchNode>, arena: seq<SearchNode>, node: SearchNode,
                      from: nat, target: Position, targetRange: int)
    requires from <= |arena| && AllRecorded(results, arena, from, target, targetRange)
    requires found == if GetChebyshevDistance(node.position, target) <= targetRange && !Contains(results, node)
      then results + [node] else results
    ensures AllRecorded(found, arena + [node], from, target, targetRange)
  {
    var grown := arena + [node];
    forall j | from <= j < |grown| && GetChebyshevDistance(grown[j].position, target) <= targetRange
      ensures Contains(found, grown[j])
    {
      if j < |arena| {
        var i :| 0 <= i < |results| && results[i].counter == arena[j].counter;
        assert found[i] == results[i];
      } else if found != results {
        assert found[|results|] == node;
      }
    }
  }

  /**
   * After the shift (and the pop, when that emptied the list) the queue holds
   * the rest of the peeked node, or nothing of it; either way the frontier
   * and the closed side hold with the taken expansion added.
   */
  lemma ShiftKeepsFrontier(s: Setting, arena: seq<SearchNode>, expanded: set<int>, m: multiset<SearchNode>,
                           closed: seq<int>, top: SearchNode, m': multiset<SearchNode>)
    requires Fits(s) && |closed| == 2500
    requires FrontierOk(s, arena, expanded, m) && ClosedOk(s, arena, expanded, closed)
    requires top in m && top.nextDirections != [] && closed[CellIndex(top.position)] == 1
    requires m' == if |top.nextDirections| == 1 then m - multiset{top}
      else m - multiset{top} + multiset{top.(nextDirections := top.nextDirections[1..])}
    ensures var k := Key(top.position, top.nextDirections[0]);
      k in AllKeys && k !in expanded &&
      FrontierOk(s, arena, expanded + {k}, m') && ClosedOk(s, arena, expanded + {k}, closed)
  {
    AfterShift(s, arena, expanded, m, closed, top);
  }
}
