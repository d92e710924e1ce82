/**
 * Positions, the eight Screeps movement directions and the distance
 * arithmetic of the map helpers (src/utils.map.ts).
 *
 * A Direction is one of the eight entries of `AllDirections`, the table
 * `directionsByConstant`: every Direction object of the program is one of
 * these eight shared values, so equality of values is equality of objects.
 */
module MapUtils {
  import opened Options
  import opened Seqs

  datatype Position = Position(x: int, y: int)

  /** Screeps direction constants, numbered clockwise from TOP. */
  type DirectionConstant = c: int | 1 <= c <= 8 witness 1

  const TOP: DirectionConstant := 1
  const TOP_RIGHT: DirectionConstant := 2
  const RIGHT: DirectionConstant := 3
  const BOTTOM_RIGHT: DirectionConstant := 4
  const BOTTOM: DirectionConstant := 5
  const BOTTOM_LEFT: DirectionConstant := 6
  const LEFT: DirectionConstant := 7
  const TOP_LEFT: DirectionConstant := 8

  type DirectionOffset = d: int | -1 <= d <= 1

  /** A unit move: its offset on the grid (y grows downwards) and its constant. */
  datatype Octant = Octant(dx: DirectionOffset, dy: DirectionOffset, constant: DirectionConstant)
  {
    function AddToPosition(position: Position): Position {
      Position(position.x + dx, position.y + dy)
    }
  }

  /** `directionsByConstant`, in constant order; `allDirections` is the same list. */
  const AllDirections: seq<Octant> := [
    Octant(0, -1, TOP),
    Octant(1, -1, TOP_RIGHT),
    Octant(1, 0, RIGHT),
    Octant(1, 1, BOTTOM_RIGHT),
    Octant(0, 1, BOTTOM),
    Octant(-1, 1, BOTTOM_LEFT),
    Octant(-1, 0, LEFT),
    Octant(-1, -1, TOP_LEFT)
  ]

  type Direction = d: Octant | d in AllDirections witness Octant(0, -1, TOP)

  /** A step along a path: the cell entered and the direction used to enter it. */
  datatype PathStep = PathStep(x: int, y: int, dx: int, dy: int, direction: DirectionConstant)

  /** The sign of `a - b`. */
  function Compare(a: int, b: int): (r: DirectionOffset)
    ensures r == -1 <==> a < b
    ensures r == 1 <==> a > b
  {
    if a < b then -1 else if a > b then 1 else 0
  }

  /** `directionsByConstant[constant]`. */
  function DirectionsByConstant(constant: DirectionConstant): (d: Direction)
    ensures d.constant == constant
  {
    AllDirections[constant - 1]
  }

  /**
   * `directionsByOffset[dx][dy]`: defined for the eight non-zero offsets,
   * undefined for (0, 0) and for any `dy` outside -1..1.
   */
  function DirectionsByOffset(dx: DirectionOffset, dy: int): (r: Option<Direction>)
    ensures r.Some? <==> -1 <= dy <= 1 && !(dx == 0 && dy == 0)
    ensures r.Some? ==> r.value.dx == dx && r.value.dy == dy
  {
    if dx == -1 then
      if dy == -1 then Some(DirectionsByConstant(TOP_LEFT))
      else if dy == 0 then Some(DirectionsByConstant(LEFT))
      else if dy == 1 then Some(DirectionsByConstant(BOTTOM_LEFT))
      else None
    else if dx == 0 then
      if dy == -1 then Some(DirectionsByConstant(TOP))
      else if dy == 1 then Some(DirectionsByConstant(BOTTOM))
      else None
    else
      if dy == -1 then Some(DirectionsByConstant(TOP_RIGHT))
      else if dy == 0 then Some(DirectionsByConstant(RIGHT))
      else if dy == 1 then Some(DirectionsByConstant(BOTTOM_RIGHT))
      else None
  }

  /** The two tables agree: looking a direction up by its own offset gives it back. */
  lemma TablesAgree(d: Direction)
    ensures DirectionsByOffset(d.dx, d.dy) == Some(d)
    ensures DirectionsByConstant(d.constant) == d
  {
  }

  /** The bearing from `source` to `target`, rounded to an octant; undefined when they coincide. */
  function GetGeneralDirection(source: Position, target: Position): (r: Option<Direction>)
    ensures r.None? <==> source == target
    ensures r.Some? ==> (r.value.dx == -1 <==> target.x < source.x) && (r.value.dx == 1 <==> target.x > source.x)
    ensures r.Some? ==> (r.value.dy == -1 <==> target.y < source.y) && (r.value.dy == 1 <==> target.y > source.y)
  {
    DirectionsByOffset(Compare(target.x, source.x), Compare(target.y, source.y))
  }

  /**
   * The direction that moves `source` exactly onto `target`. Indexing the
   * offset table with an x difference outside -1..1 throws, hence the
   * precondition; the result is undefined when the cells are not adjacent.
   */
  function GetExactDirection(source: Position, target: Position): (r: Option<Direction>)
    requires -1 <= target.x - source.x <= 1
    ensures r.Some? <==> AreAdjacent(source, target)
    ensures r.Some? ==> r.value.AddToPosition(source) == target
  {
    DirectionsByOffset(target.x - source.x, target.y - source.y)
  }

  /** JavaScript's `a % 8`: the remainder takes the sign of the dividend. */
  function JsRemainder8(a: int): (r: int)
    ensures 0 <= a < 16 ==> r == if a < 8 then a else a - 8
    ensures a < 0 ==> r <= 0
  {
    if a >= 0 then a % 8 else -((-a) % 8)
  }

  /**
   * Turning `increment` eighths clockwise. Within one turn this is the
   * constant plus the increment, wrapped back into 1..8.
   */
  function ClockwiseDirectionConstant(direction: DirectionConstant, increment: int): (r: int)
    ensures 0 <= increment <= 8 ==> r == if direction + increment <= 8 then direction + increment else direction + increment - 8
  {
    JsRemainder8(direction + increment - 1) + 1
  }

  /** Turning `increment` eighths anticlockwise. */
  function AnticlockwiseDirectionConstant(direction: DirectionConstant, increment: int): (r: int)
    ensures 0 <= increment <= 8 ==> r == if direction - increment >= 1 then direction - increment else direction - increment + 8
  {
    JsRemainder8(direction - increment + 7) + 1
  }

  /** The opposite direction: four eighths clockwise. */
  function ReverseDirectionConstant(direction: DirectionConstant): (r: DirectionConstant)
    ensures r == if direction <= 4 then direction + 4 else direction - 4
  {
    ClockwiseDirectionConstant(direction, 4)
  }

  /** Clockwise and anticlockwise turns by the same amount undo each other; eight eighths is a full turn. */
  lemma RotationsUndoEachOther(direction: DirectionConstant, increment: int)
    requires 0 <= increment <= 7
    ensures AnticlockwiseDirectionConstant(ClockwiseDirectionConstant(direction, increment), increment) == direction
    ensures ClockwiseDirectionConstant(AnticlockwiseDirectionConstant(direction, increment), increment) == direction
    ensures ClockwiseDirectionConstant(direction, 8) == direction
  {
  }

  /** Reversal is an involution on constants. */
  lemma ReverseConstantInvolution(direction: DirectionConstant)
    ensures ReverseDirectionConstant(ReverseDirectionConstant(direction)) == direction
  {
  }

  /** `clockwiseDirection` on a Direction object (`mapDirection` over the constant). */
  function ClockwiseDirection(direction: Direction, increment: int): (r: Direction)
    requires 0 <= increment <= 8
    ensures r.constant == ClockwiseDirectionConstant(direction.constant, increment)
  {
    DirectionsByConstant(ClockwiseDirectionConstant(direction.constant, increment))
  }

  /** `anticlockwiseDirection` on a Direction object. */
  function AnticlockwiseDirection(direction: Direction, increment: int): (r: Direction)
    requires 0 <= increment <= 8
    ensures r.constant == AnticlockwiseDirectionConstant(direction.constant, increment)
  {
    DirectionsByConstant(AnticlockwiseDirectionConstant(direction.constant, increment))
  }

  /** `reverseDirection` on a Direction object: the opposite offset. */
  function ReverseDirection(direction: Direction): (r: Direction)
    ensures r.dx == -direction.dx && r.dy == -direction.dy
    ensures r.constant == ReverseDirectionConstant(direction.constant)
  {
    DirectionsByConstant(ReverseDirectionConstant(direction.constant))
  }

  /**
   * The rotations, read as geometry: two eighths clockwise turns (dx, dy)
   * into (-dy, dx), one eighth turns it into (sign(dx - dy), sign(dx + dy)).
   */
  lemma RotationGeometry(direction: Direction)
    ensures ClockwiseDirection(direction, 2).dx == -direction.dy
    ensures ClockwiseDirection(direction, 2).dy == direction.dx
    ensures ClockwiseDirection(direction, 1).dx == Compare(direction.dx - direction.dy, 0)
    ensures ClockwiseDirection(direction, 1).dy == Compare(direction.dx + direction.dy, 0)
    ensures AnticlockwiseDirection(direction, 2).dx == direction.dy
    ensures AnticlockwiseDirection(direction, 2).dy == -direction.dx
  {
  }

  function Abs(a: int): nat {
    if a < 0 then -a else a
  }

  function Max(a: nat, b: nat): nat {
    if a < b then b else a
  }

  /** The number of king moves between two cells. */
  function GetChebyshevDistance(one: Position, two: Position): nat {
    Max(Abs(one.x - two.x), Abs(one.y - two.y))
  }

  function GetManhattanDistance(one: Position, two: Position): nat {
    Abs(one.x - two.x) + Abs(one.y - two.y)
  }

  predicate AreSame(one: Position, two: Position) {
    one.x == two.x && one.y == two.y
  }

  predicate AreAdjacent(one: Position, two: Position) {
    GetChebyshevDistance(one, two) == 1
  }

  /** Both distances are symmetric, vanish exactly on equal cells, and bound each other. */
  lemma DistanceLaws(one: Position, two: Position)
    ensures GetChebyshevDistance(one, two) == GetChebyshevDistance(two, one)
    ensures GetManhattanDistance(one, two) == GetManhattanDistance(two, one)
    ensures GetChebyshevDistance(one, two) == 0 <==> AreSame(one, two)
    ensures GetManhattanDistance(one, two) == 0 <==> AreSame(one, two)
    ensures GetChebyshevDistance(one, two) <= GetManhattanDistance(one, two) <= 2 * GetChebyshevDistance(one, two)
  {
  }

  /** Two cells are adjacent exactly when one of the eight directions moves the first onto the second. */
  lemma AdjacentIsOneMove(one: Position, two: Position)
    ensures AreAdjacent(one, two) <==> exists i :: 0 <= i < 8 && AllDirections[i].AddToPosition(one) == two
  {
    if AreAdjacent(one, two) {
      var d := GetExactDirection(one, two).value;
      var i := d.constant - 1;
      assert AllDirections[i] == d;
    }
  }

  /** `filterAdjacentSpaces`: the cells of `otherPositions` adjacent to `position`, in their order. */
  function FilterAdjacentSpaces(position: Position, otherPositions: seq<Position>): (r: seq<Position>)
    ensures forall p :: p in r <==> p in otherPositions && AreAdjacent(position, p)
    ensures IsSubsequence(r, otherPositions)
    ensures forall p :: multiset(r)[p] == (if AreAdjacent(position, p) then multiset(otherPositions)[p] else 0)
  {
    if otherPositions == [] then []
    else
      var rest := FilterAdjacentSpaces(position, otherPositions[1..]);
      assert otherPositions == [otherPositions[0]] + otherPositions[1..];
      assert multiset(otherPositions) == multiset{otherPositions[0]} + multiset(otherPositions[1..]);
      if AreAdjacent(position, otherPositions[0]) then
        assert ([otherPositions[0]] + rest)[1..] == rest;
        assert multiset([otherPositions[0]] + rest) == multiset{otherPositions[0]} + multiset(rest);
        [otherPositions[0]] + rest
      else rest
  }

  /** The offset of a step agrees with its direction constant. */
  predicate StepConsistent(step: PathStep) {
    var d := DirectionsByConstant(step.direction);
    step.dx == d.dx && step.dy == d.dy
  }

  /** One step of `reversePath`: the reverse direction, applied to the step's own cell. */
  function ReverseStep(step: PathStep): (r: PathStep)
    ensures StepConsistent(r)
  {
    var direction := ReverseDirection(DirectionsByConstant(step.direction));
    var cell := direction.AddToPosition(Position(step.x, step.y));
    PathStep(cell.x, cell.y, direction.dx, direction.dy, direction.constant)
  }

  /** What `reversePath` computes: output step `k` is input step `n - 1 - k`, turned around. */
  function ReversedPath(path: seq<PathStep>): seq<PathStep> {
    seq(|path|, k requires 0 <= k < |path| => ReverseStep(path[|path| - 1 - k]))
  }

  /** A reversed step has the opposite direction and lies one step back along the original offset. */
  lemma ReverseStepMovesBack(step: PathStep)
    requires StepConsistent(step)
    ensures ReverseStep(step).direction == ReverseDirectionConstant(step.direction)
    ensures ReverseStep(step).dx == -step.dx && ReverseStep(step).dy == -step.dy
    ensures ReverseStep(step).x == step.x - step.dx && ReverseStep(step).y == step.y - step.dy
  {
  }

  /** Turning a consistent step around twice gives it back. */
  lemma ReverseStepInvolution(step: PathStep)
    requires StepConsistent(step)
    ensures ReverseStep(ReverseStep(step)) == step
  {
    ReverseConstantInvolution(step.direction);
  }

  /** Reversing a path whose steps agree with their directions twice gives it back. */
  lemma {:induction false} ReversePathRoundTrip(path: seq<PathStep>)
    requires forall k :: 0 <= k < |path| ==> StepConsistent(path[k])
    ensures ReversedPath(ReversedPath(path)) == path
  {
    var once := ReversedPath(path);
    var twice := ReversedPath(once);
    assert |twice| == |path|;
    forall k | 0 <= k < |path| ensures twice[k] == path[k] {
      var j := |path| - 1 - k;
      assert twice[k] == ReverseStep(once[j]);
      assert once[j] == ReverseStep(path[k]);
      ReverseStepInvolution(path[k]);
    }
  }

  /** `reversePath`: a descending loop pushing the turned-around steps. */
  method ReversePath(path: seq<PathStep>) returns (reversedPath: seq<PathStep>)
    ensures reversedPath == ReversedPath(path)
  {
    reversedPath := [];
    var i := |path| - 1;
    while i >= 0
      invariant -1 <= i < |path|
      invariant |reversedPath| == |path| - 1 - i
      invariant forall k :: 0 <= k < |reversedPath| ==> reversedPath[k] == ReverseStep(path[|path| - 1 - k])
    {
      reversedPath := reversedPath + [ReverseStep(path[i])];
      i := i - 1;
    }
  }
}
