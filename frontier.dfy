/**
 * What the search loops of src/searcher.ts and src/searcher.js keep true of
 * the queue, the closed nodes and the closed cells, stated over values so
 * that each step of the loops is a small lemma.
 *
 * The closed nodes form the arena parent links point into. An expansion is a
 * (cell, direction) pair, identified by its Key; every expansion happens on a
 * closed cell and at most once, which is what bounds the loops.
 */
module Frontier {
  import opened Options
  import opened MapUtils
  import opened Seqs
  import opened PriorityQueue
  import opened SearchDirections
  import opened Paths

  /** The fixed inputs of one search: which source, the two ends and the cost of every cell. */
  datatype Setting = Setting(dialect: Dialect, source: Position, target: Position, costs: seq<int>)

  /**
   * One cost per cell, each that of plain (2), swamp (10), wall or avoided
   * cell (255), or an unrecognised terrain mask (0, TypeScript only).
   */
  ghost predicate Fits(s: Setting) {
    |s.costs| == 2500 && InGrid(s.source) &&
    forall k :: 0 <= k < 2500 ==> s.costs[k] in {0, 2, 10, 255}
  }

  /** The node `addNode` builds, before the queue stamps its counter on it. */
  function Candidate(dialect: Dialect, target: Position, position: Position, parentNode: Option<nat>,
                     costSoFar: int, nextDirections: seq<Direction>): SearchNode
  {
    var chebyshevDistance := GetChebyshevDistance(position, target);
    SearchNode(parentNode, position, costSoFar + 2 * chebyshevDistance, costSoFar,
      GetManhattanDistance(position, target), chebyshevDistance,
      Intersection(PreferredDirections(dialect, position, target), nextDirections), 0)
  }

  /** The directions a node added by `addNode` keeps: no repeats, only offered ones, none on the target. */
  lemma CandidateDirections(dialect: Dialect, target: Position, position: Position, parentNode: Option<nat>,
                            costSoFar: int, nextDirections: seq<Direction>)
    ensures var r := Candidate(dialect, target, position, parentNode, costSoFar, nextDirections).nextDirections;
      NoDup(r) && (forall d :: d in r ==> d in nextDirections) && (position == target ==> r == [])
  {
  }

  /**
   * In the TypeScript searcher every offered direction is kept off the
   * target, so the list is empty exactly on the target or when nothing was
   * offered.
   */
  lemma TypeScriptCandidateDirections(target: Position, position: Position, parentNode: Option<nat>,
                                      costSoFar: int, nextDirections: seq<Direction>)
    ensures var r := Candidate(TypeScript, target, position, parentNode, costSoFar, nextDirections).nextDirections;
      (position != target ==> forall d :: d in r <==> d in nextDirections) &&
      (r == [] <==> position == target || nextDirections == [])
  {
    var preferred := PreferredDirections(TypeScript, position, target);
    var r := Intersection(preferred, nextDirections);
    assert Candidate(TypeScript, target, position, parentNode, costSoFar, nextDirections).nextDirections == r;
    if r != [] {
      assert r[0] in preferred && r[0] in nextDirections;
    }
    if position != target {
      TypeScriptPrefersAll(position, target);
      if nextDirections != [] {
        assert nextDirections[0] in r;
      }
    }
  }

  lemma TypeScriptPrefersAll(source: Position, target: Position)
    requires source != target
    ensures forall d: Direction :: d in PreferredDirections(TypeScript, source, target)
  {
    PreferredDirectionsWidenTheTurn(source, target);
  }

  /**
   * In the CommonJS searcher only directions at most one eighth off the
   * bearing survive, in the order bearing, clockwise, anticlockwise.
   */
  lemma CommonJsCandidateDirections(target: Position, position: Position, parentNode: Option<nat>,
                                    costSoFar: int, nextDirections: seq<Direction>)
    requires position != target
    ensures var r := Candidate(CommonJs, target, position, parentNode, costSoFar, nextDirections).nextDirections;
      var bearing := GetGeneralDirection(position, target).value;
      (forall d :: d in r ==> Turn(bearing.constant, d.constant) <= 1) &&
      IsSubsequence(r, [bearing, ClockwiseDirection(bearing, 1), AnticlockwiseDirection(bearing, 1)])
  {
    var preferred := PreferredDirections(CommonJs, position, target);
    var bearing := preferred[0];
    var l := [bearing, ClockwiseDirection(bearing, 1), AnticlockwiseDirection(bearing, 1)];
    var r := Intersection(preferred, nextDirections);
    CommonJsPreferredDirectionsStayNear(position, target);
    CommonJsPreferredDirectionsFirstThree(position, target);
    forall i, j | 0 <= i < j < |r| ensures FirstIndex(l, r[i]) < FirstIndex(l, r[j]) {
      assert r[i] in r && r[j] in r;
    }
    OrderedIsSubsequence(r, l);
  }

  /** A node of the queue as the search keeps it. */
  ghost predicate EntryOk(s: Setting, arena: seq<SearchNode>, expanded: set<int>, e: SearchNode)
    requires |s.costs| == 2500
  {
    InGrid(e.position) &&
    Linked(arena, e, |arena|, s.source, s.costs) &&
    NoDup(e.nextDirections) &&
    (forall d | d in e.nextDirections :: Key(e.position, d) !in expanded) &&
    (e.position == s.target ==> e.nextDirections == []) &&
    (s.dialect == TypeScript && e.nextDirections == [] ==> e.position == s.target)
  }

  /** At most one live entry per cell, and that entry only once. */
  ghost predicate OnePerPosition(m: multiset<SearchNode>) {
    forall e, f | e in m && f in m && e.position == f.position :: e == f && m[e] == 1
  }

  /**
   * The live entries: each kept as above, one per cell, and one on the cell
   * of a closed node is that node's own entry.
   */
  ghost predicate FrontierOk(s: Setting, arena: seq<SearchNode>, expanded: set<int>, m: multiset<SearchNode>)
    requires |s.costs| == 2500
  {
    (forall e | e in m :: EntryOk(s, arena, expanded, e)) &&
    OnePerPosition(m) &&
    (forall e, j | e in m && 0 <= j < |arena| && e.position == arena[j].position :: e.counter == arena[j].counter)
  }

  /**
   * The closed side: the arena is linked, every expansion is a key of a
   * closed cell, and every closed node sits on a closed cell.
   */
  ghost predicate ClosedOk(s: Setting, arena: seq<SearchNode>, expanded: set<int>, closed: seq<int>)
    requires |s.costs| == 2500 && |closed| == 2500
  {
    LinkedArena(arena, s.source, s.costs) &&
    (forall k | k in expanded :: 0 <= k < 20000 && closed[k / 8] == 1) &&
    (forall j | 0 <= j < |arena| :: InGrid(arena[j].position) && closed[CellIndex(arena[j].position)] == 1)
  }

  /** Removing an entry keeps one entry per cell. */
  lemma OnePerPositionRemove(m: multiset<SearchNode>, x: SearchNode)
    requires OnePerPosition(m)
    ensures OnePerPosition(m - multiset{x})
  {
    var r := m - multiset{x};
    forall e, f | e in r && f in r && e.position == f.position ensures e == f && r[e] == 1 {
      assert e in m && f in m;
    }
  }

  /** Adding an entry on a cell without one keeps one entry per cell. */
  lemma OnePerPositionAdd(m: multiset<SearchNode>, y: SearchNode)
    requires OnePerPosition(m) && forall e | e in m :: e.position != y.position
    ensures OnePerPosition(m + multiset{y})
  {
    var r := m + multiset{y};
    assert y !in m;
    forall e, f | e in r && f in r && e.position == f.position ensures e == f && r[e] == 1 {
      if e != y {
        assert e in m;
      }
      if f != y {
        assert f in m;
      }
    }
  }

  /** Swapping an entry for another on the same cell keeps one entry per cell. */
  lemma OnePerPositionReplace(m: multiset<SearchNode>, x: SearchNode, y: SearchNode)
    requires OnePerPosition(m) && x in m && y.position == x.position
    ensures OnePerPosition(m - multiset{x} + multiset{y})
  {
    var r := m - multiset{x};
    OnePerPositionRemove(m, x);
    forall e | e in r ensures e.position != y.position {
      assert e in m;
    }
    OnePerPositionAdd(r, y);
  }

  /** Closing a node appends it to the arena; links into the old arena still hold. */
  lemma LinkedGrows(arena: seq<SearchNode>, x: SearchNode, e: SearchNode, source: Position, costs: seq<int>)
    requires |costs| == 2500 && Linked(arena, e, |arena|, source, costs)
    ensures Linked(arena + [x], e, |arena|, source, costs)
    ensures Linked(arena + [x], e, |arena| + 1, source, costs)
  {
    if e.parentNode.Some? {
      assert (arena + [x])[e.parentNode.value] == arena[e.parentNode.value];
    }
  }

  /** Closing a live node keeps both sides of the invariant. */
  lemma AfterClose(s: Setting, arena: seq<SearchNode>, expanded: set<int>, m: multiset<SearchNode>,
                   closed: seq<int>, x: SearchNode)
    requires Fits(s) && |closed| == 2500
    requires FrontierOk(s, arena, expanded, m) && ClosedOk(s, arena, expanded, closed) && x in m
    ensures InGrid(x.position)
    ensures FrontierOk(s, arena + [x], expanded, m)
    ensures ClosedOk(s, arena + [x], expanded, closed[CellIndex(x.position) := 1])
  {
    var grown := arena + [x];
    var c := closed[CellIndex(x.position) := 1];
    forall e | e in m ensures EntryOk(s, grown, expanded, e) {
      LinkedGrows(arena, x, e, s.source, s.costs);
    }
    forall e, j | e in m && 0 <= j < |grown| && e.position == grown[j].position
      ensures e.counter == grown[j].counter
    {
      if j < |arena| {
        assert grown[j] == arena[j];
      }
    }
    forall j | 0 <= j < |grown| ensures Linked(grown, grown[j], j, s.source, s.costs) {
      if j < |arena| {
        assert Linked(arena, arena[j], j, s.source, s.costs);
        LinkedGrows(arena, x, arena[j], s.source, s.costs);
        assert LinksBelow(grown, arena[j], j);
      } else {
        LinkedGrows(arena, x, x, s.source, s.costs);
      }
    }
    forall j | 0 <= j < |grown| ensures InGrid(grown[j].position) && c[CellIndex(grown[j].position)] == 1 {
      if j < |arena| {
        assert grown[j] == arena[j];
      }
    }
  }

  /**
   * Taking the first direction off a closed live node expands a fresh key;
   * the node keeps the rest of its list, or leaves when that is empty.
   */
  lemma AfterShift(s: Setting, arena: seq<SearchNode>, expanded: set<int>, m: multiset<SearchNode>,
                   closed: seq<int>, top: SearchNode)
    requires Fits(s) && |closed| == 2500
    requires FrontierOk(s, arena, expanded, m) && ClosedOk(s, arena, expanded, closed)
    requires top in m && top.nextDirections != [] && closed[CellIndex(top.position)] == 1
    ensures var k := Key(top.position, top.nextDirections[0]);
      0 <= k < 20000 && k !in expanded && ClosedOk(s, arena, expanded + {k}, closed) &&
      FrontierOk(s, arena, expanded + {k}, m - multiset{top}) &&
      (|top.nextDirections| > 1 ==>
        FrontierOk(s, arena, expanded + {k}, m - multiset{top} + multiset{top.(nextDirections := top.nextDirections[1..])}))
  {
    var k := Key(top.position, top.nextDirections[0]);
    assert EntryOk(s, arena, expanded, top);
    ShiftRemoves(s, arena, expanded, m, top);
    if |top.nextDirections| > 1 {
      var rest := top.(nextDirections := top.nextDirections[1..]);
      ShiftKeepsRest(s, arena, expanded, top);
      var r := m - multiset{top};
      OnePerPositionReplace(m, top, rest);
      forall e, j | e in r + multiset{rest} && 0 <= j < |arena| && e.position == arena[j].position
        ensures e.counter == arena[j].counter
      {
        if e != rest {
          assert e in m;
        }
      }
    }
  }

  /** Without the shifted entry, the other entries do not have the taken key. */
  lemma ShiftRemoves(s: Setting, arena: seq<SearchNode>, expanded: set<int>, m: multiset<SearchNode>, top: SearchNode)
    requires |s.costs| == 2500 && FrontierOk(s, arena, expanded, m)
    requires top in m && top.nextDirections != []
    ensures FrontierOk(s, arena, expanded + {Key(top.position, top.nextDirections[0])}, m - multiset{top})
  {
    var d := top.nextDirections[0];
    var k := Key(top.position, d);
    var grown := expanded + {k};
    var r := m - multiset{top};
    OnePerPositionRemove(m, top);
    forall e | e in r ensures EntryOk(s, arena, grown, e) {
      assert e in m && e != top;
      assert e.position != top.position;
      forall d' | d' in e.nextDirections ensures Key(e.position, d') != k {
        if Key(e.position, d') == k {
          KeyIsInjective(e.position, d', top.position, d);
        }
      }
    }
  }

  /** The rest of the shifted entry's list is still free of searched keys, the taken one included. */
  lemma ShiftKeepsRest(s: Setting, arena: seq<SearchNode>, expanded: set<int>, top: SearchNode)
    requires |s.costs| == 2500 && EntryOk(s, arena, expanded, top) && |top.nextDirections| > 1
    ensures EntryOk(s, arena, expanded + {Key(top.position, top.nextDirections[0])},
      top.(nextDirections := top.nextDirections[1..]))
  {
    var d := top.nextDirections[0];
    var k := Key(top.position, d);
    var grown := expanded + {k};
    var rest := top.(nextDirections := top.nextDirections[1..]);
    assert NoDup(rest.nextDirections) by {
      forall i, j | 0 <= i < j < |rest.nextDirections| ensures rest.nextDirections[i] != rest.nextDirections[j] {
        assert rest.nextDirections[i] == top.nextDirections[i + 1];
        assert rest.nextDirections[j] == top.nextDirections[j + 1];
      }
    }
    forall d' | d' in rest.nextDirections ensures Key(rest.position, d') !in grown {
      var i :| 0 <= i < |rest.nextDirections| && rest.nextDirections[i] == d';
      assert top.nextDirections[i + 1] == d';
      if Key(rest.position, d') == k {
        KeyIsInjective(rest.position, d', top.position, d);
      }
    }
  }

  /** Removing a live entry keeps the frontier. */
  lemma FrontierRemove(s: Setting, arena: seq<SearchNode>, expanded: set<int>, m: multiset<SearchNode>, x: SearchNode)
    requires |s.costs| == 2500 && FrontierOk(s, arena, expanded, m)
    ensures FrontierOk(s, arena, expanded, m - multiset{x})
  {
    OnePerPositionRemove(m, x);
  }

  /**
   * The node `addNode` builds for an open cell, linked into the arena, is a
   * well-kept entry, and no closed node sits on its cell.
   */
  lemma CandidateOk(s: Setting, arena: seq<SearchNode>, expanded: set<int>, closed: seq<int>,
                    position: Position, parentNode: Option<nat>, costSoFar: int, nextDirections: seq<Direction>, c: int)
    requires Fits(s) && |closed| == 2500 && ClosedOk(s, arena, expanded, closed)
    requires InGrid(position) && closed[CellIndex(position)] != 1
    requires Linked(arena, Candidate(s.dialect, s.target, position, parentNode, costSoFar, nextDirections), |arena|, s.source, s.costs)
    requires s.dialect == TypeScript && position != s.target ==> nextDirections != []
    ensures EntryOk(s, arena, expanded, Candidate(s.dialect, s.target, position, parentNode, costSoFar, nextDirections).(counter := c))
    ensures forall j :: 0 <= j < |arena| ==> arena[j].position != position
  {
    var n := Candidate(s.dialect, s.target, position, parentNode, costSoFar, nextDirections);
    CandidateDirections(s.dialect, s.target, position, parentNode, costSoFar, nextDirections);
    if s.dialect == TypeScript {
      TypeScriptCandidateDirections(s.target, position, parentNode, costSoFar, nextDirections);
    }
    forall d | d in n.nextDirections ensures Key(position, d) !in expanded {
      assert Key(position, d) / 8 == CellIndex(position);
    }
  }

  /** Adding a well-kept entry on a cell with no entry and no closed node keeps the frontier. */
  lemma FrontierAdd(s: Setting, arena: seq<SearchNode>, expanded: set<int>, m: multiset<SearchNode>, y: SearchNode)
    requires |s.costs| == 2500 && FrontierOk(s, arena, expanded, m) && EntryOk(s, arena, expanded, y)
    requires forall e | e in m :: e.position != y.position
    requires forall j :: 0 <= j < |arena| ==> arena[j].position != y.position
    ensures FrontierOk(s, arena, expanded, m + multiset{y})
  {
    OnePerPositionAdd(m, y);
  }

  /** Swapping the entry of a cell with no closed node for a well-kept one keeps the frontier. */
  lemma FrontierReplace(s: Setting, arena: seq<SearchNode>, expanded: set<int>, m: multiset<SearchNode>,
                        x: SearchNode, y: SearchNode)
    requires |s.costs| == 2500 && FrontierOk(s, arena, expanded, m) && EntryOk(s, arena, expanded, y)
    requires x in m && y.position == x.position
    requires forall j :: 0 <= j < |arena| ==> arena[j].position != y.position
    ensures FrontierOk(s, arena, expanded, m - multiset{x} + multiset{y})
  {
    OnePerPositionReplace(m, x, y);
  }

  /** `addNode` adding its node on a cell with no entry keeps the frontier. */
  lemma CandidateAdded(s: Setting, arena: seq<SearchNode>, expanded: set<int>, m: multiset<SearchNode>, closed: seq<int>,
                       position: Position, parentNode: Option<nat>, costSoFar: int, nextDirections: seq<Direction>, c: int)
    requires Fits(s) && |closed| == 2500 && ClosedOk(s, arena, expanded, closed) && FrontierOk(s, arena, expanded, m)
    requires InGrid(position) && closed[CellIndex(position)] != 1
    requires Linked(arena, Candidate(s.dialect, s.target, position, parentNode, costSoFar, nextDirections), |arena|, s.source, s.costs)
    requires s.dialect == TypeScript && position != s.target ==> nextDirections != []
    requires forall e | e in m :: e.position != position
    ensures FrontierOk(s, arena, expanded, m + multiset{Candidate(s.dialect, s.target, position, parentNode, costSoFar, nextDirections).(counter := c)})
  {
    CandidateOk(s, arena, expanded, closed, position, parentNode, costSoFar, nextDirections, c);
    FrontierAdd(s, arena, expanded, m, Candidate(s.dialect, s.target, position, parentNode, costSoFar, nextDirections).(counter := c));
  }

  /** `addNode` replacing the entry of its cell, keeping the entry's counter, keeps the frontier. */
  lemma CandidateReplaced(s: Setting, arena: seq<SearchNode>, expanded: set<int>, m: multiset<SearchNode>, closed: seq<int>,
                          position: Position, parentNode: Option<nat>, costSoFar: int, nextDirections: seq<Direction>, x: SearchNode)
    requires Fits(s) && |closed| == 2500 && ClosedOk(s, arena, expanded, closed) && FrontierOk(s, arena, expanded, m)
    requires InGrid(position) && closed[CellIndex(position)] != 1
    requires Linked(arena, Candidate(s.dialect, s.target, position, parentNode, costSoFar, nextDirections), |arena|, s.source, s.costs)
    requires s.dialect == TypeScript && position != s.target ==> nextDirections != []
    requires x in m && x.position == position
    ensures FrontierOk(s, arena, expanded,
      m - multiset{x} + multiset{Candidate(s.dialect, s.target, position, parentNode, costSoFar, nextDirections).(counter := x.counter)})
  {
    CandidateOk(s, arena, expanded, closed, position, parentNode, costSoFar, nextDirections, x.counter);
    FrontierReplace(s, arena, expanded, m, x, Candidate(s.dialect, s.target, position, parentNode, costSoFar, nextDirections).(counter := x.counter));
  }
}
