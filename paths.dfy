/**
 * `buildPath` of src/searcher.ts and src/searcher.js: turning the chain of
 * parents of a goal node into the list of steps from the source.
 *
 * Nodes refer to their parent by its slot in the searcher's list of closed
 * nodes (the arena). Every parent was closed before its child, so a parent's
 * slot is below the slot (or the bound) of the child, and the chain ends.
 */
module Paths {
  import opened MapUtils
  import opened PriorityQueue
  import opened SearchDirections

  /** What `buildPath` returns: the steps, or `ERR_NO_PATH`. */
  datatype PathResult = Path(steps: seq<PathStep>) | ErrNoPath

  /** The parent of `node`, if any, sits below `bound` in `arena` on an adjacent cell. */
  ghost predicate LinksBelow(arena: seq<SearchNode>, node: SearchNode, bound: nat) {
    bound <= |arena| &&
    (node.parentNode.Some? ==>
      node.parentNode.value < bound && AreAdjacent(arena[node.parentNode.value].position, node.position))
  }

  /** Every node of the arena links below its own slot. */
  ghost predicate IsArena(arena: seq<SearchNode>) {
    forall k :: 0 <= k < |arena| ==> LinksBelow(arena, arena[k], k)
  }

  /**
   * A search node as the searcher builds it: a root sits on the source at
   * no cost; any other node was entered from its parent, onto a cell that is
   * not obstructed, and its cost so far is its parent's plus that cell's.
   */
  ghost predicate Linked(arena: seq<SearchNode>, node: SearchNode, bound: nat, source: Position, costs: seq<int>)
    requires |costs| == 2500
  {
    LinksBelow(arena, node, bound) &&
    match node.parentNode
    case None => node.position == source && node.costSoFar == 0
    case Some(p) =>
      !IsObstructed(costs, node.position) &&
      node.costSoFar == arena[p].costSoFar + costs[CellIndex(node.position)]
  }

  ghost predicate LinkedArena(arena: seq<SearchNode>, source: Position, costs: seq<int>)
    requires |costs| == 2500
  {
    forall k :: 0 <= k < |arena| ==> Linked(arena, arena[k], k, source, costs)
  }

  /** The cell a step enters. */
  function Cell(step: PathStep): Position {
    Position(step.x, step.y)
  }

  /** The step that enters the adjacent cell `to` from `from`. */
  function StepInto(from: Position, to: Position): (r: PathStep)
    requires AreAdjacent(from, to)
    ensures StepConsistent(r) && Cell(r) == to
    ensures from.x + r.dx == to.x && from.y + r.dy == to.y
  {
    var d := GetExactDirection(from, to).value;
    PathStep(to.x, to.y, d.dx, d.dy, d.constant)
  }

  /** The steps from the root of the chain to `node`, one per parent link. */
  ghost function PathTo(arena: seq<SearchNode>, node: SearchNode, bound: nat): seq<PathStep>
    requires IsArena(arena) && LinksBelow(arena, node, bound)
    decreases bound
  {
    match node.parentNode
    case None => []
    case Some(p) => PathTo(arena, arena[p], p) + [StepInto(arena[p].position, node.position)]
  }

  /**
   * `steps` is a walk from `start`: every step is consistent with its
   * direction and moves one cell on from the cell before it.
   */
  ghost predicate IsWalk(start: Position, steps: seq<PathStep>) {
    forall k :: 0 <= k < |steps| ==>
      StepConsistent(steps[k]) &&
      var before := if k == 0 then start else Cell(steps[k - 1]);
      before.x + steps[k].dx == steps[k].x && before.y + steps[k].dy == steps[k].y
  }

  /** Where a walk from `start` ends. */
  function End(start: Position, steps: seq<PathStep>): Position {
    if steps == [] then start else Cell(steps[|steps| - 1])
  }

  /** The summed cost of the cells a walk enters. */
  function PathCost(costs: seq<int>, steps: seq<PathStep>): int
    requires |costs| == 2500 && forall k :: 0 <= k < |steps| ==> InGrid(Cell(steps[k]))
  {
    if steps == [] then 0
    else PathCost(costs, steps[..|steps| - 1]) + costs[CellIndex(Cell(steps[|steps| - 1]))]
  }

  /** Linked arenas are arenas. */
  lemma LinkedIsArena(arena: seq<SearchNode>, source: Position, costs: seq<int>)
    requires |costs| == 2500 && LinkedArena(arena, source, costs)
    ensures IsArena(arena)
  {
    forall k | 0 <= k < |arena| ensures LinksBelow(arena, arena[k], k) {
      assert Linked(arena, arena[k], k, source, costs);
    }
  }

  /** The steps to a linked node form a walk from the source that ends on the node. */
  lemma {:induction false} PathToIsWalk(arena: seq<SearchNode>, node: SearchNode, bound: nat, source: Position, costs: seq<int>)
    requires |costs| == 2500 && LinkedArena(arena, source, costs) && Linked(arena, node, bound, source, costs)
    ensures IsArena(arena)
    ensures IsWalk(source, PathTo(arena, node, bound))
    ensures End(source, PathTo(arena, node, bound)) == node.position
    decreases bound
  {
    LinkedIsArena(arena, source, costs);
    match node.parentNode
    case None =>
    case Some(p) =>
      var parent := arena[p];
      assert Linked(arena, parent, p, source, costs);
      PathToIsWalk(arena, parent, p, source, costs);
      var before := PathTo(arena, parent, p);
      var step := StepInto(parent.position, node.position);
      assert PathTo(arena, node, bound) == before + [step];
      WalkExtends(source, before, step);
  }

  /** A walk extended by a step that moves on from its end is a walk. */
  lemma WalkExtends(start: Position, steps: seq<PathStep>, step: PathStep)
    requires IsWalk(start, steps) && StepConsistent(step)
    requires End(start, steps).x + step.dx == step.x && End(start, steps).y + step.dy == step.y
    ensures IsWalk(start, steps + [step]) && End(start, steps + [step]) == Cell(step)
  {
    var r := steps + [step];
    forall k | 0 <= k < |r|
      ensures StepConsistent(r[k])
      ensures var b := if k == 0 then start else Cell(r[k - 1]);
        b.x + r[k].dx == r[k].x && b.y + r[k].dy == r[k].y
    {
      if k < |steps| {
        assert r[k] == steps[k];
        if k > 0 {
          assert r[k - 1] == steps[k - 1];
        }
      } else if k > 0 {
        assert r[k - 1] == steps[|steps| - 1];
      }
    }
  }

  /**
   * The steps to a linked node enter only cells that are not obstructed,
   * and together they cost exactly the node's cost so far.
   */
  lemma {:induction false} PathToCost(arena: seq<SearchNode>, node: SearchNode, bound: nat, source: Position, costs: seq<int>)
    requires |costs| == 2500 && LinkedArena(arena, source, costs) && Linked(arena, node, bound, source, costs)
    ensures IsArena(arena)
    ensures forall k :: 0 <= k < |PathTo(arena, node, bound)| ==> !IsObstructed(costs, Cell(PathTo(arena, node, bound)[k]))
    ensures forall k :: 0 <= k < |PathTo(arena, node, bound)| ==> InGrid(Cell(PathTo(arena, node, bound)[k]))
    ensures PathCost(costs, PathTo(arena, node, bound)) == node.costSoFar
    decreases bound
  {
    LinkedIsArena(arena, source, costs);
    match node.parentNode
    case None =>
    case Some(p) =>
      var parent := arena[p];
      assert Linked(arena, parent, p, source, costs);
      PathToCost(arena, parent, p, source, costs);
      var before := PathTo(arena, parent, p);
      var r := PathTo(arena, node, bound);
      assert r == before + [StepInto(parent.position, node.position)];
      assert r[..|r| - 1] == before;
      assert forall k :: 0 <= k < |before| ==> r[k] == before[k];
  }

  /** A walk over cells of cost 0, 2 or 10 costs an even amount. */
  lemma {:induction false} PathCostIsEven(costs: seq<int>, steps: seq<PathStep>)
    requires |costs| == 2500 && forall k :: 0 <= k < |steps| ==> InGrid(Cell(steps[k]))
    requires forall k :: 0 <= k < |steps| ==> costs[CellIndex(Cell(steps[k]))] in {0, 2, 10}
    ensures PathCost(costs, steps) % 2 == 0
    decreases |steps|
  {
    if steps != [] {
      var init := steps[..|steps| - 1];
      assert forall k :: 0 <= k < |init| ==> init[k] == steps[k];
      PathCostIsEven(costs, init);
    }
  }

  /**
   * The steps to any closed node: a walk from the source to its cell over
   * cells that are not obstructed, costing the node's cost so far, which is
   * even when every cell costs 0, 2, 10 or 255.
   */
  lemma ArenaPath(arena: seq<SearchNode>, k: nat, source: Position, costs: seq<int>)
    requires |costs| == 2500 && LinkedArena(arena, source, costs) && k < |arena|
    requires forall c :: 0 <= c < 2500 ==> costs[c] in {0, 2, 10, 255}
    ensures IsArena(arena) && LinksBelow(arena, arena[k], |arena|)
    ensures var steps := PathTo(arena, arena[k], |arena|);
      IsWalk(source, steps) && End(source, steps) == arena[k].position &&
      (forall i :: 0 <= i < |steps| ==> InGrid(Cell(steps[i])) && !IsObstructed(costs, Cell(steps[i]))) &&
      PathCost(costs, steps) == arena[k].costSoFar && arena[k].costSoFar % 2 == 0
  {
    assert Linked(arena, arena[k], k, source, costs);
    PathToIsWalk(arena, arena[k], |arena|, source, costs);
    PathToCost(arena, arena[k], |arena|, source, costs);
    var steps := PathTo(arena, arena[k], |arena|);
    forall i | 0 <= i < |steps| ensures costs[CellIndex(Cell(steps[i]))] in {0, 2, 10} {
      assert !IsObstructed(costs, Cell(steps[i]));
    }
    PathCostIsEven(costs, steps);
  }

  /**
   * The inner loop of `buildPath` for one parent link: walks from the
   * parent's cell towards the child's in the exact direction between them,
   * once per unit of their Chebyshev distance, putting each step in front.
   */
  method UnshiftLink(from: Position, to: Position, path: seq<PathStep>) returns (r: seq<PathStep>)
    requires AreAdjacent(from, to)
    ensures r == [StepInto(from, to)] + path
  {
    var direction := GetExactDirection(from, to).value;
    var position := from;
    r := path;
    var i := 0;
    DistanceLaws(to, from);
    while i < GetChebyshevDistance(to, from)
      invariant 0 <= i <= 1
      invariant i == 0 ==> position == from && r == path
      invariant i == 1 ==> position == to && r == [StepInto(from, to)] + path
    {
      position := direction.AddToPosition(position);
      r := [PathStep(position.x, position.y, direction.dx, direction.dy, direction.constant)] + r;
      i := i + 1;
    }
  }

  /**
   * `buildPath`: follows the parent links from `node` back to the root,
   * prepending for each link the steps from the parent's cell to the
   * child's (one, as parent and child are adjacent). The CommonJS version
   * gives `ERR_NO_PATH` for an empty path.
   */
  method BuildPath(dialect: Dialect, arena: seq<SearchNode>, node: SearchNode) returns (r: PathResult)
    requires IsArena(arena) && LinksBelow(arena, node, |arena|)
    ensures dialect == TypeScript ==> r == Path(PathTo(arena, node, |arena|))
    ensures dialect == CommonJs ==>
      r == if PathTo(arena, node, |arena|) == [] then ErrNoPath else Path(PathTo(arena, node, |arena|))
  {
    var path: seq<PathStep> := [];
    var current := node;
    ghost var bound: nat := |arena|;
    while current.parentNode.Some?
      invariant LinksBelow(arena, current, bound)
      invariant PathTo(arena, current, bound) + path == PathTo(arena, node, |arena|)
      decreases bound
    {
      ghost var p := current.parentNode.value;
      var parent := arena[current.parentNode.value];
      ghost var before, step := PathTo(arena, parent, p), StepInto(parent.position, current.position);
      assert PathTo(arena, current, bound) == before + [step];
      ghost var rest := path;
      path := UnshiftLink(parent.position, current.position, path);
      assert before + path == (before + [step]) + rest;
      bound := p;
      current := parent;
    }
    if dialect == CommonJs && |path| == 0 {
      return ErrNoPath;
    }
    return Path(path);
  }
}
