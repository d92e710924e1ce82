/**
 * The older CommonJS map helpers (src/utils.map.js). Distances, adjacency,
 * `filterAdjacentSpaces`, `getGeneralDirection`, `getExactDirection` and the
 * rotations of plain numbers are the same as in MapUtils and are shared from
 * there. What differs: the direction table is an array with a hole at 0, and
 * rotating a Direction object recurses on its constant WITHOUT passing the
 * increment on, so every object rotation is a single eighth.
 */
module MapUtilsJs {
  import opened Options
  import MapUtils

  /** `MapUtils.directionsByConstant`: an array whose slot 0 is `undefined`. */
  const DirectionsByConstantArray: seq<Option<MapUtils.Direction>> :=
    [None] + seq(8, i requires 0 <= i < 8 => Some(MapUtils.AllDirections[i]))

  /** `MapUtils.allDirections`: the table without its hole. */
  function AllDirections(): (r: seq<MapUtils.Direction>)
    ensures |r| == 8
    ensures forall c: MapUtils.DirectionConstant :: r[c - 1] == MapUtils.DirectionsByConstant(c)
  {
    seq(8, i requires 0 <= i < 8 => DirectionsByConstantArray[1 + i].value)
  }

  /** Slot 0 is undefined and slots 1..8 hold TOP..TOP_LEFT, as in the TypeScript table. */
  lemma DirectionTableLayout()
    ensures |DirectionsByConstantArray| == 9 && DirectionsByConstantArray[0].None?
    ensures forall c: MapUtils.DirectionConstant :: DirectionsByConstantArray[c] == Some(MapUtils.DirectionsByConstant(c))
  {
  }

  /**
   * `clockwiseDirection` on a Direction object: the recursive call on the
   * constant drops `increment`, so the default of one eighth is used.
   */
  function ClockwiseDirectionOfObject(direction: MapUtils.Direction, increment: int): (r: MapUtils.Direction)
    ensures r == MapUtils.ClockwiseDirection(direction, 1)
  {
    MapUtils.DirectionsByConstant(MapUtils.ClockwiseDirectionConstant(direction.constant, 1))
  }

  /** `anticlockwiseDirection` on a Direction object: always one eighth. */
  function AnticlockwiseDirectionOfObject(direction: MapUtils.Direction, increment: int): (r: MapUtils.Direction)
    ensures r == MapUtils.AnticlockwiseDirection(direction, 1)
  {
    MapUtils.DirectionsByConstant(MapUtils.AnticlockwiseDirectionConstant(direction.constant, 1))
  }

  /** `reverseDirection` of a number: four eighths, the opposite octant. */
  function ReverseDirectionOfNumber(direction: MapUtils.DirectionConstant): (r: MapUtils.DirectionConstant)
    ensures r == MapUtils.ReverseDirectionConstant(direction)
  {
    MapUtils.ClockwiseDirectionConstant(direction, 4)
  }

  /** `reverseDirection` of a Direction object: one eighth clockwise, not the opposite. */
  function ReverseDirectionOfObject(direction: MapUtils.Direction): (r: MapUtils.Direction)
    ensures r == MapUtils.ClockwiseDirection(direction, 1)
  {
    ClockwiseDirectionOfObject(direction, 4)
  }

  /** ... which is never the opposite direction. */
  lemma ObjectReversalIsNotOpposite(direction: MapUtils.Direction)
    ensures ReverseDirectionOfObject(direction) != MapUtils.ReverseDirection(direction)
  {
  }

  /** A concrete witness: four eighths clockwise of TOP should be BOTTOM, the object form gives TOP_RIGHT. */
  lemma IncrementIgnored()
    ensures ClockwiseDirectionOfObject(MapUtils.DirectionsByConstant(MapUtils.TOP), 4).constant == MapUtils.TOP_RIGHT
    ensures MapUtils.ClockwiseDirection(MapUtils.DirectionsByConstant(MapUtils.TOP), 4).constant == MapUtils.BOTTOM
  {
  }

  /** One step of the CommonJS `reversePath`. */
  function ReverseStep(step: MapUtils.PathStep): (r: MapUtils.PathStep)
  {
    var direction := ReverseDirectionOfObject(MapUtils.DirectionsByConstant(step.direction));
    var cell := direction.AddToPosition(MapUtils.Position(step.x, step.y));
    MapUtils.PathStep(cell.x, cell.y, direction.dx, direction.dy, direction.constant)
  }

  /** What `reversePath` computes: output step `k` is input step `n - 1 - k`, turned around. */
  function ReversedPath(path: seq<MapUtils.PathStep>): seq<MapUtils.PathStep> {
    seq(|path|, k requires 0 <= k < |path| => ReverseStep(path[|path| - 1 - k]))
  }

  /** A reversed step is the input cell moved along the one-eighth-clockwise neighbour of its direction. */
  lemma ReverseStepTurnsOneEighth(step: MapUtils.PathStep)
    ensures ReverseStep(step).direction == MapUtils.ClockwiseDirectionConstant(step.direction, 1)
    ensures ReverseStep(step).x == step.x + MapUtils.ClockwiseDirection(MapUtils.DirectionsByConstant(step.direction), 1).dx
    ensures ReverseStep(step).y == step.y + MapUtils.ClockwiseDirection(MapUtils.DirectionsByConstant(step.direction), 1).dy
  {
  }

  /** Turning a step around twice turns its direction two eighths clockwise. */
  lemma ReverseStepTwice(step: MapUtils.PathStep)
    ensures ReverseStep(ReverseStep(step)).direction == MapUtils.ClockwiseDirectionConstant(step.direction, 2)
    ensures ReverseStep(ReverseStep(step)).direction != step.direction
  {
  }

  /** Step `k` of the twice-reversed path is step `k` turned around twice. */
  lemma ReversedTwiceAt(path: seq<MapUtils.PathStep>, k: nat)
    requires k < |path|
    ensures |ReversedPath(ReversedPath(path))| == |path|
    ensures ReversedPath(ReversedPath(path))[k] == ReverseStep(ReverseStep(path[k]))
  {
    var once := ReversedPath(path);
    assert once[|path| - 1 - k] == ReverseStep(path[k]);
  }

  /**
   * Reversing twice does not give the path back: every step's direction
   * ends up two eighths clockwise of where it started.
   */
  lemma {:induction false} ReversedTwiceTurnsAQuarter(path: seq<MapUtils.PathStep>)
    requires path != []
    ensures |ReversedPath(ReversedPath(path))| == |path|
    ensures forall k :: 0 <= k < |path| ==>
      ReversedPath(ReversedPath(path))[k].direction == MapUtils.ClockwiseDirectionConstant(path[k].direction, 2)
    ensures ReversedPath(ReversedPath(path)) != path
  {
    ReversedTwiceAt(path, 0);
    forall k | 0 <= k < |path|
      ensures ReversedPath(ReversedPath(path))[k].direction == MapUtils.ClockwiseDirectionConstant(path[k].direction, 2)
    {
      ReversedTwiceAt(path, k);
      ReverseStepTwice(path[k]);
    }
    ReverseStepTwice(path[0]);
  }

  /** The CommonJS `reversePath` loop. */
  method ReversePath(path: seq<MapUtils.PathStep>) returns (reversedPath: seq<MapUtils.PathStep>)
    ensures reversedPath == ReversedPath(path)
  {
    reversedPath := [];
    var i := |path| - 1;
    while i >= 0
      invariant -1 <= i < |path|
      invariant |reversedPath| == |path| - 1 - i
      invariant forall k :: 0 <= k < |reversedPath| ==> reversedPath[k] == ReverseStep(path[|path| - 1 - k])
    {
      reversedPath := reversedPath + [ReverseStep(path[i])];
      i := i - 1;
    }
  }
}
