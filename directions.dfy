/**
 * The grid and direction logic of the searcher (src/searcher.ts and
 * src/searcher.js): room cells, the walkable interior, the order in which
 * a node prefers to explore directions, and the jump-point style pruning
 * that decides which directions a freshly reached neighbour keeps.
 */
module SearchDirections {
  import opened Options
  import opened MapUtils
  import MapUtilsJs
  import opened Seqs

  /** Which of the two sources is modelled: the TypeScript one or the older CommonJS one. */
  datatype Dialect = TypeScript | CommonJs

  /** A cell of the 50 x 50 room. */
  predicate InGrid(p: Position) {
    0 <= p.x < 50 && 0 <= p.y < 50
  }

  /** `isInBounds`: strictly inside the border, which holds the room's exits. */
  predicate IsInBounds(p: Position) {
    p.x > 0 && p.x < 49 && p.y > 0 && p.y < 49
  }

  /** The slot `y * 50 + x` of a cell in the cost and closed-status arrays. */
  function CellIndex(p: Position): (k: int)
    ensures InGrid(p) ==> 0 <= k < 2500
  {
    p.y * 50 + p.x
  }

  /** Different cells of the room have different slots. */
  lemma CellIndexIsInjective(p: Position, q: Position)
    requires InGrid(p) && InGrid(q) && CellIndex(p) == CellIndex(q)
    ensures p == q
  {
  }

  /** `addOffset`: the cell at offset (dx, dy), as the room's `getPositionAt` gives it. */
  function AddOffset(p: Position, dx: int, dy: int): Position {
    Position(p.x + dx, p.y + dy)
  }

  /** `isObstructed`: outside the interior, or impassable (cost 255). */
  predicate IsObstructed(costs: seq<int>, p: Position)
    requires |costs| == 2500
  {
    !IsInBounds(p) || costs[CellIndex(p)] == 255
  }

  /**
   * The number of eighths between two directions, turning whichever way is
   * shorter.
   */
  function Turn(a: DirectionConstant, b: DirectionConstant): (r: nat)
    ensures r <= 4 && (r == 0 <==> a == b)
  {
    var k := if a <= b then b - a else b - a + 8;
    if k <= 4 then k else 8 - k
  }

  /**
   * `getPreferredDirections`: the general bearing to the target, then the
   * directions one, two, three eighths to either side, then the opposite
   * bearing; nothing when the node is on the target.
   */
  function PreferredDirections(dialect: Dialect, source: Position, target: Position): (r: seq<Direction>)
    ensures r == [] <==> source == target
    ensures r != [] ==> |r| == 8 && Some(r[0]) == GetGeneralDirection(source, target)
  {
    match GetGeneralDirection(source, target)
    case None => []
    case Some(d) => PreferredAround(dialect, d)
  }

  /** The preferred list around a bearing. The CommonJS rotations of a Direction object ignore their increment. */
  function PreferredAround(dialect: Dialect, d: Direction): (r: seq<Direction>)
    ensures |r| == 8 && r[0] == d
  {
    if dialect == TypeScript then
      [d,
        ClockwiseDirection(d, 1), AnticlockwiseDirection(d, 1),
        ClockwiseDirection(d, 2), AnticlockwiseDirection(d, 2),
        ClockwiseDirection(d, 3), AnticlockwiseDirection(d, 3),
        ClockwiseDirection(d, 4)]
    else
      [d,
        MapUtilsJs.ClockwiseDirectionOfObject(d, 1), MapUtilsJs.AnticlockwiseDirectionOfObject(d, 1),
        MapUtilsJs.ClockwiseDirectionOfObject(d, 2), MapUtilsJs.AnticlockwiseDirectionOfObject(d, 2),
        MapUtilsJs.ClockwiseDirectionOfObject(d, 3), MapUtilsJs.AnticlockwiseDirectionOfObject(d, 3),
        MapUtilsJs.ClockwiseDirectionOfObject(d, 4)]
  }

  /** The constants of the TypeScript preferred list around the bearing `c`. */
  function TurnsOf(c: DirectionConstant): seq<int> {
    [c, ClockwiseDirectionConstant(c, 1), AnticlockwiseDirectionConstant(c, 1),
      ClockwiseDirectionConstant(c, 2), AnticlockwiseDirectionConstant(c, 2),
      ClockwiseDirectionConstant(c, 3), AnticlockwiseDirectionConstant(c, 3),
      ClockwiseDirectionConstant(c, 4)]
  }

  /** The eight turns are eight different constants... */
  lemma TurnsAreDistinct(c: DirectionConstant)
    ensures forall i, j :: 0 <= i < j < 8 ==> TurnsOf(c)[i] != TurnsOf(c)[j]
  {
    TurnsWiden(c);
    var cs := TurnsOf(c);
    forall i, j | 0 <= i < j < 8 ensures cs[i] != cs[j] {
      if (i + 1) / 2 == (j + 1) / 2 {
        // the same number of eighths, once each way round
        assert j == i + 1 && (i == 1 || i == 3 || i == 5);
      }
    }
  }

  /** ... so every constant is among them. */
  lemma TurnsCoverAll(c: DirectionConstant)
    ensures forall e: DirectionConstant :: e in TurnsOf(c)
  {
    var cs := TurnsOf(c);
    forall e: DirectionConstant ensures e in cs {
      var d := if e >= c then e - c else e - c + 8;
      var k := if d == 0 then 0 else if d <= 4 then 2 * d - 1 else 2 * (8 - d);
      assert cs[k] == e;
    }
  }

  /** Entry `k` of the list turns `(k + 1) / 2` eighths away from the bearing. */
  lemma TurnsWiden(c: DirectionConstant)
    ensures forall k :: 0 <= k < 8 ==> 1 <= TurnsOf(c)[k] <= 8 && Turn(c, TurnsOf(c)[k]) == (k + 1) / 2
  {
    var cs := TurnsOf(c);
    forall k | 0 <= k < 8 ensures 1 <= cs[k] <= 8 && Turn(c, cs[k]) == (k + 1) / 2 {
      if k == 0 {
      } else if k == 1 {
      } else if k == 2 {
      } else if k == 3 {
      } else if k == 4 {
      } else if k == 5 {
      } else if k == 6 {
      } else {
      }
    }
  }

  /**
   * In the TypeScript searcher every direction is preferred exactly once,
   * in order of how far it turns away from the bearing, ending with the
   * opposite bearing.
   */
  lemma PreferredDirectionsWidenTheTurn(source: Position, target: Position)
    requires source != target
    ensures var r := PreferredDirections(TypeScript, source, target);
      NoDup(r) && (forall d: Direction :: d in r) &&
      (forall k :: 0 <= k < 8 ==> Turn(r[0].constant, r[k].constant) == (k + 1) / 2) &&
      r[7] == ReverseDirection(r[0])
  {
    var r := PreferredDirections(TypeScript, source, target);
    var c := r[0].constant;
    TurnsAreDistinct(c);
    TurnsCoverAll(c);
    TurnsWiden(c);
    var cs := TurnsOf(c);
    assert forall k :: 0 <= k < 8 ==> r[k].constant == cs[k];
    forall d: Direction ensures d in r {
      assert d.constant in cs;
      var k :| 0 <= k < 8 && cs[k] == d.constant;
      DirectionIsItsConstant(d, r[k]);
    }
    forall i, j | 0 <= i < j < 8 ensures r[i] != r[j] {
      assert cs[i] != cs[j];
    }
    DirectionIsItsConstant(r[7], ReverseDirection(r[0]));
  }

  /** A direction is determined by its constant. */
  lemma DirectionIsItsConstant(d: Direction, e: Direction)
    requires d.constant == e.constant
    ensures d == e
  {
    assert d in AllDirections && e in AllDirections;
  }

  /**
   * In the CommonJS searcher only the bearing and its two neighbours are
   * preferred: every rotation of a Direction object is a single eighth.
   */
  lemma CommonJsPreferredDirectionsStayNear(source: Position, target: Position)
    requires source != target
    ensures var r := PreferredDirections(CommonJs, source, target);
      forall d: Direction :: d in r <==> Turn(r[0].constant, d.constant) <= 1
  {
    var r := PreferredDirections(CommonJs, source, target);
    var c := r[0].constant;
    var cw, acw := ClockwiseDirectionConstant(c, 1), AnticlockwiseDirectionConstant(c, 1);
    assert c in {1, 2, 3, 4, 5, 6, 7, 8};
    assert forall k :: 0 <= k < 8 ==> r[k].constant == if k == 0 then c else if k % 2 == 1 then cw else acw;
    forall d: Direction ensures d in r <==> Turn(c, d.constant) <= 1 {
      if Turn(c, d.constant) <= 1 {
        var k := if d.constant == c then 0 else if d.constant == cw then 1 else 2;
        DirectionIsItsConstant(d, r[k]);
      }
    }
  }

  /**
   * The CommonJS preferred list names the two neighbours of the bearing four
   * and three times over; as a set, and by where each first occurs, it is the
   * bearing, then its clockwise neighbour, then its anticlockwise one.
   */
  lemma CommonJsPreferredDirectionsFirstThree(source: Position, target: Position)
    requires source != target
    ensures var r := PreferredDirections(CommonJs, source, target);
      var l := [r[0], ClockwiseDirection(r[0], 1), AnticlockwiseDirection(r[0], 1)];
      NoDup(l) && (forall d :: d in r <==> d in l) &&
      forall d | d in r :: FirstIndex(r, d) == FirstIndex(l, d)
  {
    var r := PreferredDirections(CommonJs, source, target);
    var d := r[0];
    var c, a := ClockwiseDirection(d, 1), AnticlockwiseDirection(d, 1);
    TurnsAreDistinct(d.constant);
    var cs := TurnsOf(d.constant);
    assert cs[0] == d.constant && cs[1] == c.constant && cs[2] == a.constant;
    assert d != c && d != a && c != a;
    var l := [d, c, a];
    assert r == [d, c, a, c, a, c, a, c];
    assert FirstIndex(r, d) == 0 == FirstIndex(l, d);
    assert r[1..][0] == c && l[1..][0] == c;
    assert FirstIndex(r, c) == 1 == FirstIndex(l, c);
    assert r[1..][1..][0] == a && l[1..][1..][0] == a;
    assert FirstIndex(r, a) == 2 == FirstIndex(l, a);
  }

  /** The cell a node moves into. */
  function Neighbour(current: Position, direction: Direction): Position {
    direction.AddToPosition(current)
  }

  /**
   * The test of `addIfForced`: the diagonal move through `travel` is worth
   * keeping when `travel` is free and the cell `alternative` beside the
   * neighbour costs more than the neighbour.
   */
  predicate Forces(costs: seq<int>, neighbourCost: int, travel: Position, alternative: Position)
    requires |costs| == 2500 && InGrid(alternative)
  {
    !IsObstructed(costs, travel) && costs[CellIndex(alternative)] > neighbourCost
  }

  function ForcedIf(costs: seq<int>, neighbourCost: int, travel: Position, alternative: Position, d: Direction): seq<Direction>
    requires |costs| == 2500 && InGrid(alternative)
  {
    if Forces(costs, neighbourCost, travel, alternative) then [d] else []
  }

  /**
   * The directions `searchFromNode` hands the neighbour it reaches: the
   * direction of travel first; a straight move adds the diagonal on either
   * side when it is forced; a diagonal move adds its two straight parts and
   * the two diagonals that cut back round a costlier cell when forced.
   */
  function ForcedDirections(costs: seq<int>, current: Position, direction: Direction): (r: seq<Direction>)
    requires |costs| == 2500 && IsInBounds(Neighbour(current, direction))
    ensures 1 <= |r| <= 5 && r[0] == direction
  {
    var n := Neighbour(current, direction);
    var c := costs[CellIndex(n)];
    var dx: int, dy: int := direction.dx, direction.dy;
    if dy == 0 then
      [direction] +
        ForcedIf(costs, c, AddOffset(n, dx, -1), AddOffset(n, 0, -1), DirectionsByOffset(dx, -1).value) +
        ForcedIf(costs, c, AddOffset(n, dx, 1), AddOffset(n, 0, 1), DirectionsByOffset(dx, 1).value)
    else if dx == 0 then
      [direction] +
        ForcedIf(costs, c, AddOffset(n, -1, dy), AddOffset(n, -1, 0), DirectionsByOffset(-1, dy).value) +
        ForcedIf(costs, c, AddOffset(n, 1, dy), AddOffset(n, 1, 0), DirectionsByOffset(1, dy).value)
    else
      [direction, DirectionsByOffset(dx, 0).value, DirectionsByOffset(0, dy).value] +
        ForcedIf(costs, c, AddOffset(current, 0, 2 * dy), AddOffset(current, 0, dy), DirectionsByOffset(-dx, dy).value) +
        ForcedIf(costs, c, AddOffset(current, 2 * dx, 0), AddOffset(current, dx, 0), DirectionsByOffset(dx, -dy).value)
  }

  /** A direction is determined by its offset. */
  lemma DirectionIsItsOffset(d: Direction, e: Direction)
    requires d.dx == e.dx && d.dy == e.dy
    ensures d == e
  {
    assert d in AllDirections && e in AllDirections;
  }

  /**
   * Moving horizontally, the neighbour keeps the direction of travel and the
   * diagonal continuing on the side `s` exactly when that diagonal is free
   * and the cell beside the neighbour on that side costs more.
   */
  lemma ForcedWhenHorizontal(costs: seq<int>, current: Position, direction: Direction)
    requires |costs| == 2500 && IsInBounds(Neighbour(current, direction)) && direction.dy == 0
    ensures var n := Neighbour(current, direction); var c := costs[CellIndex(n)];
      forall d: Direction :: d in ForcedDirections(costs, current, direction) <==>
        d == direction ||
        (d.dx == direction.dx && d.dy != 0 && Forces(costs, c, Neighbour(n, d), AddOffset(n, 0, d.dy)))
  {
    var n := Neighbour(current, direction);
    forall d: Direction | d.dx == direction.dx && d.dy != 0 ensures d == DirectionsByOffset(direction.dx, d.dy).value {
      DirectionIsItsOffset(d, DirectionsByOffset(direction.dx, d.dy).value);
    }
  }

  /** Moving vertically: the same, with the axes swapped. */
  lemma ForcedWhenVertical(costs: seq<int>, current: Position, direction: Direction)
    requires |costs| == 2500 && IsInBounds(Neighbour(current, direction)) && direction.dx == 0
    ensures var n := Neighbour(current, direction); var c := costs[CellIndex(n)];
      forall d: Direction :: d in ForcedDirections(costs, current, direction) <==>
        d == direction ||
        (d.dy == direction.dy && d.dx != 0 && Forces(costs, c, Neighbour(n, d), AddOffset(n, d.dx, 0)))
  {
    forall d: Direction | d.dy == direction.dy && d.dx != 0 ensures d == DirectionsByOffset(d.dx, direction.dy).value {
      DirectionIsItsOffset(d, DirectionsByOffset(d.dx, direction.dy).value);
    }
  }

  /** Which directions a diagonal move keeps for the neighbour. */
  predicate KeptWhenDiagonal(costs: seq<int>, current: Position, direction: Direction, d: Direction)
    requires |costs| == 2500 && IsInBounds(Neighbour(current, direction))
  {
    var n := Neighbour(current, direction);
    var c := costs[CellIndex(n)];
    d == direction ||
    (d.dx == direction.dx && d.dy == 0) ||
    (d.dx == 0 && d.dy == direction.dy) ||
    (d.dx == -direction.dx && d.dy == direction.dy && Forces(costs, c, Neighbour(n, d), AddOffset(n, d.dx, 0))) ||
    (d.dx == direction.dx && d.dy == -direction.dy && Forces(costs, c, Neighbour(n, d), AddOffset(n, 0, d.dy)))
  }

  /**
   * Moving diagonally, the neighbour keeps the direction of travel and its
   * two straight parts, and each diagonal that turns a quarter back exactly
   * when that diagonal is free and the cell it cuts round costs more than
   * the neighbour.
   */
  lemma ForcedWhenDiagonal(costs: seq<int>, current: Position, direction: Direction)
    requires |costs| == 2500 && IsInBounds(Neighbour(current, direction))
    requires direction.dx != 0 && direction.dy != 0
    ensures forall d: Direction :: d in ForcedDirections(costs, current, direction) <==> KeptWhenDiagonal(costs, current, direction, d)
  {
    var r := ForcedDirections(costs, current, direction);
    forall d: Direction ensures d in r <==> KeptWhenDiagonal(costs, current, direction, d) {
      if d in r {
        ForcedDiagonalSound(costs, current, direction, d);
      } else if KeptWhenDiagonal(costs, current, direction, d) {
        ForcedDiagonalComplete(costs, current, direction, d);
      }
    }
  }

  /** The two optional diagonals of a diagonal move, and the cells their tests inspect. */
  lemma DiagonalPieces(costs: seq<int>, current: Position, direction: Direction)
    requires |costs| == 2500 && IsInBounds(Neighbour(current, direction))
    requires direction.dx != 0 && direction.dy != 0
    ensures var n := Neighbour(current, direction);
      var c := costs[CellIndex(n)];
      var dx: int, dy: int := direction.dx, direction.dy;
      var p, q := DirectionsByOffset(-dx, dy).value, DirectionsByOffset(dx, -dy).value;
      Neighbour(n, p) == AddOffset(current, 0, 2 * dy) && AddOffset(n, p.dx, 0) == AddOffset(current, 0, dy) &&
      Neighbour(n, q) == AddOffset(current, 2 * dx, 0) && AddOffset(n, 0, q.dy) == AddOffset(current, dx, 0) &&
      ForcedDirections(costs, current, direction) ==
        [direction, DirectionsByOffset(dx, 0).value, DirectionsByOffset(0, dy).value] +
        ForcedIf(costs, c, Neighbour(n, p), AddOffset(n, p.dx, 0), p) +
        ForcedIf(costs, c, Neighbour(n, q), AddOffset(n, 0, q.dy), q)
  {
  }

  lemma ForcedDiagonalSound(costs: seq<int>, current: Position, direction: Direction, d: Direction)
    requires |costs| == 2500 && IsInBounds(Neighbour(current, direction))
    requires direction.dx != 0 && direction.dy != 0
    requires d in ForcedDirections(costs, current, direction)
    ensures KeptWhenDiagonal(costs, current, direction, d)
  {
    DiagonalPieces(costs, current, direction);
  }

  lemma ForcedDiagonalComplete(costs: seq<int>, current: Position, direction: Direction, d: Direction)
    requires |costs| == 2500 && IsInBounds(Neighbour(current, direction))
    requires direction.dx != 0 && direction.dy != 0
    requires KeptWhenDiagonal(costs, current, direction, d)
    ensures d in ForcedDirections(costs, current, direction)
  {
    DiagonalPieces(costs, current, direction);
    DirectionIsItsOffset(d, DirectionsByOffset(d.dx, d.dy).value);
  }

  /** The kept directions are all different and none of them points back against the travel. */
  lemma ForcedDirectionsGoForward(costs: seq<int>, current: Position, direction: Direction)
    requires |costs| == 2500 && IsInBounds(Neighbour(current, direction))
    ensures NoDup(ForcedDirections(costs, current, direction))
    ensures forall d | d in ForcedDirections(costs, current, direction) :: Dot(d, direction) >= 0
  {
    var r := ForcedDirections(costs, current, direction);
    if direction.dy == 0 {
      HorizontalShape(costs, current, direction);
    } else if direction.dx == 0 {
      VerticalShape(costs, current, direction);
    } else {
      DiagonalShape(costs, current, direction);
    }
    DistinctOffsets(r);
  }

  lemma HorizontalShape(costs: seq<int>, current: Position, direction: Direction)
    requires |costs| == 2500 && IsInBounds(Neighbour(current, direction)) && direction.dy == 0
    ensures var r := ForcedDirections(costs, current, direction);
      (forall d | d in r :: d.dx == direction.dx) &&
      forall i, j :: 0 <= i < j < |r| ==> r[i].dy != r[j].dy
  {
    var n := Neighbour(current, direction);
    var c := costs[CellIndex(n)];
    var dx: int := direction.dx;
    var a := ForcedIf(costs, c, AddOffset(n, dx, -1), AddOffset(n, 0, -1), DirectionsByOffset(dx, -1).value);
    var b := ForcedIf(costs, c, AddOffset(n, dx, 1), AddOffset(n, 0, 1), DirectionsByOffset(dx, 1).value);
    assert ForcedDirections(costs, current, direction) == [direction] + a + b;
  }

  lemma VerticalShape(costs: seq<int>, current: Position, direction: Direction)
    requires |costs| == 2500 && IsInBounds(Neighbour(current, direction)) && direction.dx == 0
    ensures var r := ForcedDirections(costs, current, direction);
      (forall d | d in r :: d.dy == direction.dy) &&
      forall i, j :: 0 <= i < j < |r| ==> r[i].dx != r[j].dx
  {
    var n := Neighbour(current, direction);
    var c := costs[CellIndex(n)];
    var dy: int := direction.dy;
    var a := ForcedIf(costs, c, AddOffset(n, -1, dy), AddOffset(n, -1, 0), DirectionsByOffset(-1, dy).value);
    var b := ForcedIf(costs, c, AddOffset(n, 1, dy), AddOffset(n, 1, 0), DirectionsByOffset(1, dy).value);
    assert ForcedDirections(costs, current, direction) == [direction] + a + b;
  }

  lemma DiagonalShape(costs: seq<int>, current: Position, direction: Direction)
    requires |costs| == 2500 && IsInBounds(Neighbour(current, direction))
    requires direction.dx != 0 && direction.dy != 0
    ensures var r := ForcedDirections(costs, current, direction);
      (forall d | d in r :: d.dx == direction.dx || d.dy == direction.dy) &&
      forall i, j :: 0 <= i < j < |r| ==> r[i].dx != r[j].dx || r[i].dy != r[j].dy
  {
    var n := Neighbour(current, direction);
    var c := costs[CellIndex(n)];
    var dx: int, dy: int := direction.dx, direction.dy;
    var h, v := DirectionsByOffset(dx, 0).value, DirectionsByOffset(0, dy).value;
    var p, q := DirectionsByOffset(-dx, dy).value, DirectionsByOffset(dx, -dy).value;
    var a := ForcedIf(costs, c, AddOffset(current, 0, 2 * dy), AddOffset(current, 0, dy), p);
    var b := ForcedIf(costs, c, AddOffset(current, 2 * dx, 0), AddOffset(current, dx, 0), q);
    var r := ForcedDirections(costs, current, direction);
    assert r == [direction, h, v] + a + b;
    assert a == [] || a == [p];
    assert b == [] || b == [q];
    DistinctOfFive(direction, h, v, p, q, a, b);
  }

  lemma DistinctOfFive(d: Direction, h: Direction, v: Direction, p: Direction, q: Direction, a: seq<Direction>, b: seq<Direction>)
    requires d.dx != 0 && d.dy != 0
    requires h.dx == d.dx && h.dy == 0 && v.dx == 0 && v.dy == d.dy
    requires p.dx == -d.dx && p.dy == d.dy && q.dx == d.dx && q.dy == -d.dy
    requires (a == [] || a == [p]) && (b == [] || b == [q])
    ensures var r := [d, h, v] + a + b;
      (forall e | e in r :: e.dx == d.dx || e.dy == d.dy) &&
      forall i, j :: 0 <= i < j < |r| ==> r[i].dx != r[j].dx || r[i].dy != r[j].dy
  {
    var r := [d, h, v] + a + b;
    if a == [] && b == [] {
      assert r == [d, h, v];
    } else if a == [] {
      assert r == [d, h, v, q];
    } else if b == [] {
      assert r == [d, h, v, p];
    } else {
      assert r == [d, h, v, p, q];
    }
  }

  /** The product of two offsets. */
  function Mul(a: DirectionOffset, b: DirectionOffset): int {
    if a == 0 || b == 0 then 0 else if a == b then 1 else -1
  }

  /** The dot product of two directions: negative exactly when they point more than a quarter apart. */
  function Dot(a: Direction, b: Direction): int {
    Mul(a.dx, b.dx) + Mul(a.dy, b.dy)
  }

  /** Directions with pairwise different offsets are pairwise different. */
  lemma DistinctOffsets(r: seq<Direction>)
    requires forall i, j :: 0 <= i < j < |r| ==> r[i].dx != r[j].dx || r[i].dy != r[j].dy
    ensures NoDup(r)
  {
  }

  /**
   * The identity of one expansion: a cell and a direction. A closed node
   * expands each of its directions at most once, which bounds the search.
   */
  function Key(p: Position, d: Direction): (k: int)
    ensures InGrid(p) ==> 0 <= k < 20000 && k / 8 == CellIndex(p)
  {
    CellIndex(p) * 8 + d.constant - 1
  }

  /** Different cells or different directions give different keys. */
  lemma KeyIsInjective(p: Position, d: Direction, q: Position, e: Direction)
    requires InGrid(p) && InGrid(q) && Key(p, d) == Key(q, e)
    ensures p == q && d == e
  {
    assert d in AllDirections && e in AllDirections;
    assert d == DirectionsByConstant(d.constant) && e == DirectionsByConstant(e.constant);
  }
}
