/**
 * The search frontier of src/searcher.ts and src/searcher.js: a binary
 * min-heap of search nodes, kept in a growable array with a separate `size`
 * (entries at and beyond `size` are dead) and an insertion `counter`.
 */
module PriorityQueue {
  import opened Options
  import opened MapUtils

  /**
   * A search node. `parentNode` is the index of the parent among the
   * searcher's closed nodes (every parent is a node closed earlier), so the
   * parent chain is a chain of decreasing indices. `counter` is the
   * insertion stamp the queue gives a stored node.
   */
  datatype SearchNode = SearchNode(
    parentNode: Option<nat>,
    position: Position,
    estimatedCost: int,
    costSoFar: int,
    manhattanDistance: int,
    chebyshevDistance: int,
    nextDirections: seq<Direction>,
    counter: int)

  /**
   * `isHigherPriority`: the lower estimate first, then the smaller Manhattan
   * distance to the target, then the later insertion.
   */
  predicate IsHigherPriority(a: SearchNode, b: SearchNode) {
    a.estimatedCost < b.estimatedCost ||
    (a.estimatedCost == b.estimatedCost &&
      (a.manhattanDistance < b.manhattanDistance ||
        (a.manhattanDistance == b.manhattanDistance && a.counter > b.counter)))
  }

  /** The priority is a strict order: irreflexive, asymmetric and transitive. */
  lemma PriorityIsStrictOrder(a: SearchNode, b: SearchNode, c: SearchNode)
    ensures !IsHigherPriority(a, a)
    ensures IsHigherPriority(a, b) ==> !IsHigherPriority(b, a)
    ensures IsHigherPriority(a, b) && IsHigherPriority(b, c) ==> IsHigherPriority(a, c)
  {
  }

  /** Being no higher in priority is transitive too (the order is lexicographic). */
  lemma NotHigherIsTransitive(a: SearchNode, b: SearchNode, c: SearchNode)
    ensures !IsHigherPriority(a, b) && !IsHigherPriority(b, c) ==> !IsHigherPriority(a, c)
  {
  }

  /** Any two entries with different counters are ordered one way or the other. */
  lemma PriorityIsTotal(a: SearchNode, b: SearchNode)
    requires a.counter != b.counter
    ensures IsHigherPriority(a, b) || IsHigherPriority(b, a)
  {
  }

  /** Heap order on the first `n` slots: no child outranks its parent `(i - 1) >> 1`. */
  ghost predicate IsHeap(s: seq<SearchNode>, n: nat) {
    n <= |s| &&
    forall i, j :: 0 < i < n && j == (i - 1) / 2 ==> !IsHigherPriority(s[i], s[j])
  }

  /** In a heap nothing outranks the root: the root is the entry `peek` and `pop` hand out. */
  lemma {:induction false} HeapRootIsBest(s: seq<SearchNode>, n: nat, i: nat)
    requires IsHeap(s, n) && i < n
    ensures !IsHigherPriority(s[i], s[0])
    decreases i
  {
    if i > 0 {
      var j := (i - 1) / 2;
      HeapRootIsBest(s, n, j);
      assert !IsHigherPriority(s[i], s[j]);
      NotHigherIsTransitive(s[i], s[j], s[0]);
    }
  }

  /** The same, over the entries as a multiset. */
  lemma HeapTopIsBest(s: seq<SearchNode>, n: nat)
    requires IsHeap(s, n) && 0 < n
    ensures s[0] in multiset(s[..n])
    ensures forall e | e in multiset(s[..n]) :: !IsHigherPriority(e, s[0])
  {
    assert s[..n][0] == s[0];
    forall e | e in multiset(s[..n]) ensures !IsHigherPriority(e, s[0]) {
      var i :| 0 <= i < n && s[..n][i] == e;
      HeapRootIsBest(s, n, i);
    }
  }

  /**
   * What `percolateUp(h)` needs: heap order on every edge except the one from
   * `h` to its parent, and the children of `h` do not outrank `h`'s parent.
   */
  ghost predicate UpReady(s: seq<SearchNode>, n: nat, h: nat) {
    h < n <= |s| &&
    (forall i, j :: 0 < i < n && i != h && j == (i - 1) / 2 ==> !IsHigherPriority(s[i], s[j])) &&
    (h > 0 ==> forall i :: 0 < i < n && (i - 1) / 2 == h ==> !IsHigherPriority(s[i], s[(h - 1) / 2]))
  }

  /**
   * What `percolateDown(h)` needs: heap order on every edge except those
   * from the children of `h`, which must not outrank `h`'s parent either.
   */
  ghost predicate DownReady(s: seq<SearchNode>, n: nat, h: nat) {
    h < n <= |s| &&
    (forall i, j :: 0 < i < n && j == (i - 1) / 2 && j != h ==> !IsHigherPriority(s[i], s[j])) &&
    (h > 0 ==> forall i :: 0 < i < n && (i - 1) / 2 == h ==> !IsHigherPriority(s[i], s[(h - 1) / 2]))
  }

  /** Moving the parent's entry into the hole and the hole onto its slot keeps the held entries. */
  lemma HoleMoves(s: seq<SearchNode>, n: nat, h: nat, p: nat, v: SearchNode)
    requires h < n <= |s| && p < n && p != h
    ensures multiset(s[h := s[p]][..n][p := v]) == multiset(s[..n][h := v])
  {
    var t := s[..n];
    assert s[h := s[p]][..n] == t[h := t[p]];
  }

  /** The index of the first entry at `position`, the one `update` finds. */
  function FindPosition(s: seq<SearchNode>, position: Position): (r: Option<nat>)
    ensures r.Some? ==> r.value < |s| && s[r.value].position == position
    ensures r.Some? ==> forall j :: 0 <= j < r.value ==> s[j].position != position
    ensures r.None? <==> forall j :: 0 <= j < |s| ==> s[j].position != position
  {
    if s == [] then None
    else if s[0].position == position then Some(0)
    else match FindPosition(s[1..], position)
      case None => None
      case Some(k) => Some(k + 1)
  }

  class Queue {
    var internalArray: seq<SearchNode>
    var size: nat
    var counter: int

    /** The live entries. */
    ghost function Elements(): multiset<SearchNode>
      reads this
      requires size <= |internalArray|
    {
      multiset(internalArray[..size])
    }

    /** Every live entry carries a counter already handed out. */
    ghost predicate Consistent()
      reads this
    {
      size <= |internalArray| && 1 <= counter &&
      forall i :: 0 <= i < size ==> internalArray[i].counter < counter
    }

    ghost predicate Valid()
      reads this
    {
      Consistent() && IsHeap(internalArray, size)
    }

    constructor()
      ensures Valid() && size == 0 && counter == 1 && Elements() == multiset{}
    {
      internalArray := [];
      size := 0;
      counter := 1;
    }

    /**
     * `add`: stamps the next counter on the node, stores it in the first
     * dead slot (or appends) and restores heap order.
     */
    method Add(node: SearchNode) returns (stored: SearchNode)
      requires Valid()
      modifies this
      ensures Valid()
      ensures stored == node.(counter := old(counter))
      ensures counter == old(counter) + 1 && size == old(size) + 1
      ensures Elements() == old(Elements()) + multiset{stored}
    {
      stored := node.(counter := counter);
      counter := counter + 1;
      var index := size;
      size := size + 1;
      AssignIsUpReady(internalArray, index, stored, counter);
      internalArray := Assign(internalArray, index, stored);
      PercolateUp(index);
    }

    /** `peek`: the top entry, which nothing outranks; nothing on an empty queue. */
    method Peek() returns (r: Option<SearchNode>)
      requires Valid()
      ensures r.None? <==> size == 0
      ensures r.Some? ==> r.value == internalArray[0] && r.value in Elements()
      ensures r.Some? ==> forall e | e in Elements() :: !IsHigherPriority(e, r.value)
    {
      if size == 0 {
        return None;
      }
      HeapTopIsBest(internalArray, size);
      return Some(internalArray[0]);
    }

    /** `pop`: removes and returns the top entry; nothing changes on an empty queue. */
    method Pop() returns (r: Option<SearchNode>)
      requires Valid()
      modifies this
      ensures Valid() && counter == old(counter)
      ensures old(size) == 0 ==> r.None? && unchanged(this)
      ensures old(size) > 0 ==> r == Some(old(internalArray[0])) && size == old(size) - 1
      ensures old(size) > 0 ==> Elements() == old(Elements()) - multiset{old(internalArray[0])}
      ensures r.Some? ==> forall e | e in old(Elements()) :: !IsHigherPriority(e, r.value)
    {
      if size == 0 {
        return None;
      }
      HeapTopIsBest(internalArray, size);
      var value := internalArray[0];
      if size > 1 {
        LiveAfterRemoveTop(internalArray, size);
        RemoveTopIsDownReady(internalArray, size);
        size := size - 1;
        internalArray := internalArray[0 := internalArray[size]];
        PercolateDown(0);
      } else {
        size := size - 1;
      }
      return Some(value);
    }

    /**
     * `update`: finds the first live entry at `position`; when `f` gives a
     * replacement, stores it there and moves it up. `f` keeps the counter
     * and never lowers the priority, as the searcher's callback does.
     */
    method Update(position: Position, f: SearchNode -> Option<SearchNode>) returns (found: bool)
      requires Valid()
      requires forall x :: f(x).Some? ==> f(x).value.counter == x.counter && !IsHigherPriority(x, f(x).value)
      modifies this
      ensures Valid() && size == old(size) && counter == old(counter)
      ensures found <==> FindPosition(old(internalArray[..size]), position).Some?
      ensures !found ==> unchanged(this)
      ensures found ==>
        var x := old(internalArray[FindPosition(internalArray[..size], position).value]);
        if f(x).None? then unchanged(this)
        else Elements() == old(Elements()) - multiset{x} + multiset{f(x).value}
    {
      var index := 0;
      while index < size
        invariant 0 <= index <= size
        invariant forall j :: 0 <= j < index ==> internalArray[..size][j].position != position
      {
        var value := internalArray[index];
        if value.position == position {
          var newNode := f(value);
          assert FindPosition(internalArray[..size], position) == Some(index);
          if newNode.Some? {
            ReplacementIsUpReady(internalArray, size, index, newNode.value);
            LiveAfterReplace(internalArray, size, index, newNode.value);
            internalArray := internalArray[index := newNode.value];
            PercolateUp(index);
          }
          return true;
        }
        index := index + 1;
      }
      return false;
    }

    /**
     * The searcher's `currentNode.nextDirections.shift()`: the peeked node is
     * the entry at the top, and its direction list loses its head in place.
     * Returns the head (undefined for an empty list) and the new length.
     */
    method ShiftTopDirection() returns (direction: Option<Direction>, remaining: nat)
      requires Valid() && size > 0
      modifies this
      ensures Valid() && size == old(size) && counter == old(counter)
      ensures var top := old(internalArray[0]);
        if top.nextDirections == [] then
          direction.None? && remaining == 0 && unchanged(this)
        else
          direction == Some(top.nextDirections[0]) && remaining == |top.nextDirections| - 1 &&
          internalArray[0] == top.(nextDirections := top.nextDirections[1..]) &&
          Elements() == old(Elements()) - multiset{top} + multiset{internalArray[0]}
    {
      var top := internalArray[0];
      if top.nextDirections == [] {
        return None, 0;
      }
      direction := Some(top.nextDirections[0]);
      var shifted := top.(nextDirections := top.nextDirections[1..]);
      LiveAfterReplace(internalArray, size, 0, shifted);
      SamePriorityKeepsHeap(internalArray, size, 0, shifted);
      internalArray := internalArray[0 := shifted];
      remaining := |top.nextDirections| - 1;
    }

    /** `percolateUp`: moves the entry at `index` up past every parent it outranks. */
    method PercolateUp(index: nat)
      requires Consistent() && UpReady(internalArray, size, index)
      modifies this
      ensures internalArray == SiftUp(old(internalArray), index, old(internalArray[index]))
      ensures Valid() && size == old(size) && counter == old(counter)
      ensures Elements() == old(Elements())
    {
      var value := internalArray[index];
      ghost var goal := SiftUp(internalArray, index, value);
      SiftUpKeepsEntries(internalArray, size, index);
      var i := index;
      while i > 0
        invariant i < size == old(size) && |internalArray| == |old(internalArray)|
        invariant counter == old(counter)
        invariant SiftUp(internalArray, i, value) == goal
        decreases i
      {
        var parentIndex := (i - 1) / 2;
        var parentValue := internalArray[parentIndex];
        if !IsHigherPriority(value, parentValue) {
          break;
        }
        internalArray := internalArray[i := parentValue];
        i := parentIndex;
      }
      internalArray := internalArray[i := value];
      SameEntriesSameCounters(old(internalArray), internalArray, size, counter);
    }

    /** `percolateDown`: moves the entry at `index` down below every child that outranks it. */
    method PercolateDown(index: nat)
      requires Consistent() && DownReady(internalArray, size, index)
      modifies this
      ensures internalArray == SiftDown(old(internalArray), old(size), index, old(internalArray[index]))
      ensures Valid() && size == old(size) && counter == old(counter)
      ensures Elements() == old(Elements())
    {
      var value := internalArray[index];
      ghost var goal := SiftDown(internalArray, size, index, value);
      SiftDownKeepsEntries(internalArray, size, index);
      var i := index;
      while i < size / 2
        invariant i < size == old(size) && |internalArray| == |old(internalArray)|
        invariant counter == old(counter)
        invariant SiftDown(internalArray, size, i, value) == goal
        decreases size - i
      {
        var leftChildIndex := 2 * i + 1;
        var rightChildIndex := leftChildIndex + 1;
        var bestChildIndex := leftChildIndex;
        if rightChildIndex < size {
          if IsHigherPriority(internalArray[rightChildIndex], internalArray[leftChildIndex]) {
            bestChildIndex := rightChildIndex;
          }
        }
        var bestChild := internalArray[bestChildIndex];
        if !IsHigherPriority(bestChild, value) {
          break;
        }
        internalArray := internalArray[i := bestChild];
        i := bestChildIndex;
      }
      internalArray := internalArray[i := value];
      SameEntriesSameCounters(old(internalArray), internalArray, size, counter);
    }
  }

  /**
   * Where `percolateUp` leaves the array when the entry `v` is held out of
   * slot `h`: while `v` outranks the parent of the hole, the parent moves
   * down into the hole; then `v` fills it.
   */
  function SiftUp(s: seq<SearchNode>, h: nat, v: SearchNode): (r: seq<SearchNode>)
    requires h < |s|
    ensures |r| == |s|
    decreases h
  {
    if h > 0 && IsHigherPriority(v, s[(h - 1) / 2]) then SiftUp(s[h := s[(h - 1) / 2]], (h - 1) / 2, v)
    else s[h := v]
  }

  /** The child `percolateDown` compares against: the right one only when it outranks the left. */
  function BestChild(s: seq<SearchNode>, n: nat, h: nat): (b: nat)
    requires h < n / 2 && n <= |s|
    ensures b < n && (b - 1) / 2 == h && b > h
    ensures forall k :: 0 < k < n && (k - 1) / 2 == h ==> !IsHigherPriority(s[k], s[b])
  {
    var b := if 2 * h + 2 < n && IsHigherPriority(s[2 * h + 2], s[2 * h + 1]) then 2 * h + 2 else 2 * h + 1;
    BestChildOutranksSibling(s, n, h, b);
    b
  }

  /**
   * Where `percolateDown` leaves the first `n` slots when `v` is held out of
   * slot `h`: while the best child of the hole outranks `v`, it moves up
   * into the hole; then `v` fills it.
   */
  function SiftDown(s: seq<SearchNode>, n: nat, h: nat, v: SearchNode): (r: seq<SearchNode>)
    requires h < n <= |s|
    ensures |r| == |s|
    decreases n - h
  {
    if h < n / 2 && IsHigherPriority(s[BestChild(s, n, h)], v) then
      SiftDown(s[h := s[BestChild(s, n, h)]], n, BestChild(s, n, h), v)
    else s[h := v]
  }

  /** Sifting up from a hole restores heap order, keeps the live entries and touches nothing past them. */
  lemma {:induction false} SiftUpFromHole(s: seq<SearchNode>, n: nat, h: nat, v: SearchNode)
    requires UpHole(s, n, h, v)
    ensures IsHeap(SiftUp(s, h, v), n)
    ensures multiset(SiftUp(s, h, v)[..n]) == multiset(s[..n][h := v])
    ensures SiftUp(s, h, v)[n..] == s[n..]
    decreases h
  {
    if h > 0 && IsHigherPriority(v, s[(h - 1) / 2]) {
      var p := (h - 1) / 2;
      UpStep(s, n, h, v);
      SiftUpFromHole(s[h := s[p]], n, p, v);
      HoleMoves(s, n, h, p, v);
      assert s[h := s[p]][n..] == s[n..];
    } else {
      UpFinish(s, n, h, v);
      assert s[h := v][..n] == s[..n][h := v];
      assert s[h := v][n..] == s[n..];
    }
  }

  /** Sifting down from a hole restores heap order, keeps the live entries and touches nothing past them. */
  lemma {:induction false} SiftDownFromHole(s: seq<SearchNode>, n: nat, h: nat, v: SearchNode)
    requires DownHole(s, n, h, v)
    ensures IsHeap(SiftDown(s, n, h, v), n)
    ensures multiset(SiftDown(s, n, h, v)[..n]) == multiset(s[..n][h := v])
    ensures SiftDown(s, n, h, v)[n..] == s[n..]
    decreases n - h
  {
    if h < n / 2 && IsHigherPriority(s[BestChild(s, n, h)], v) {
      var b := BestChild(s, n, h);
      DownStep(s, n, h, b, v);
      SiftDownFromHole(s[h := s[b]], n, b, v);
      HoleMoves(s, n, h, b, v);
      assert s[h := s[b]][n..] == s[n..];
    } else {
      if h < n / 2 {
        DownStop(s, n, h, BestChild(s, n, h), v);
      }
      DownFinish(s, n, h, v);
      assert s[h := v][..n] == s[..n][h := v];
      assert s[h := v][n..] == s[n..];
    }
  }

  /** `percolateUp` restores heap order and keeps the live entries and their counters. */
  lemma SiftUpKeepsEntries(s: seq<SearchNode>, n: nat, h: nat)
    requires UpReady(s, n, h)
    ensures IsHeap(SiftUp(s, h, s[h]), n)
    ensures multiset(SiftUp(s, h, s[h])[..n]) == multiset(s[..n])
    ensures SiftUp(s, h, s[h])[n..] == s[n..]
  {
    UpStart(s, n, h);
    SiftUpFromHole(s, n, h, s[h]);
    assert s[..n][h := s[h]] == s[..n];
  }

  /** `percolateDown` restores heap order and keeps the live entries and their counters. */
  lemma SiftDownKeepsEntries(s: seq<SearchNode>, n: nat, h: nat)
    requires DownReady(s, n, h)
    ensures IsHeap(SiftDown(s, n, h, s[h]), n)
    ensures multiset(SiftDown(s, n, h, s[h])[..n]) == multiset(s[..n])
    ensures SiftDown(s, n, h, s[h])[n..] == s[n..]
  {
    DownStart(s, n, h);
    SiftDownFromHole(s, n, h, s[h]);
    assert s[..n][h := s[h]] == s[..n];
  }

  /** Rearranging the live entries keeps every bound on their counters. */
  lemma SameEntriesSameCounters(s: seq<SearchNode>, t: seq<SearchNode>, n: nat, c: int)
    requires n <= |s| && n <= |t| && multiset(t[..n]) == multiset(s[..n])
    requires forall k :: 0 <= k < n ==> s[k].counter < c
    ensures forall k :: 0 <= k < n ==> t[k].counter < c
  {
    forall k | 0 <= k < n ensures t[k].counter < c {
      assert t[..n][k] in multiset(s[..n]);
      var j :| 0 <= j < n && s[..n][j] == t[k];
    }
  }

  /**
   * `percolateUp` in progress: slot `h` is a hole for the held entry `v`.
   * Edges away from the hole are ordered, the hole's children do not outrank
   * `v`, and they do not outrank the hole's parent either.
   */
  ghost predicate UpHole(s: seq<SearchNode>, n: nat, h: nat, v: SearchNode) {
    h < n <= |s| &&
    (forall k, j :: 0 < k < n && k != h && j == (k - 1) / 2 && j != h ==> !IsHigherPriority(s[k], s[j])) &&
    (forall k :: 0 < k < n && (k - 1) / 2 == h ==> !IsHigherPriority(s[k], v)) &&
    (h > 0 ==> forall k :: 0 < k < n && (k - 1) / 2 == h ==> !IsHigherPriority(s[k], s[(h - 1) / 2]))
  }

  lemma UpStart(s: seq<SearchNode>, n: nat, h: nat)
    requires UpReady(s, n, h)
    ensures UpHole(s, n, h, s[h])
  {
    forall k | 0 < k < n && (k - 1) / 2 == h ensures !IsHigherPriority(s[k], s[h]) {
      assert k != h;
    }
  }

  lemma UpStep(s: seq<SearchNode>, n: nat, h: nat, v: SearchNode)
    requires UpHole(s, n, h, v) && h > 0 && IsHigherPriority(v, s[(h - 1) / 2])
    ensures UpHole(s[h := s[(h - 1) / 2]], n, (h - 1) / 2, v)
  {
    var p := (h - 1) / 2;
    var t := s[h := s[p]];
    forall k | 0 < k < n && (k - 1) / 2 == p ensures !IsHigherPriority(t[k], v) {
      if k != h {
        assert !IsHigherPriority(s[k], s[p]);
        PriorityIsStrictOrder(s[k], v, s[p]);
      } else {
        PriorityIsStrictOrder(v, s[p], v);
      }
    }
    if p > 0 {
      var g := (p - 1) / 2;
      assert !IsHigherPriority(s[p], s[g]);
      forall k | 0 < k < n && (k - 1) / 2 == p ensures !IsHigherPriority(t[k], t[g]) {
        if k != h {
          assert !IsHigherPriority(s[k], s[p]);
        }
        NotHigherIsTransitive(t[k], s[p], s[g]);
      }
    }
    forall k, j | 0 < k < n && k != p && j == (k - 1) / 2 && j != p ensures !IsHigherPriority(t[k], t[j]) {
      if j == h {
        assert t[j] == s[p];
      } else {
        assert !IsHigherPriority(s[k], s[j]);
      }
    }
  }

  lemma UpFinish(s: seq<SearchNode>, n: nat, h: nat, v: SearchNode)
    requires UpHole(s, n, h, v) && (h == 0 || !IsHigherPriority(v, s[(h - 1) / 2]))
    ensures IsHeap(s[h := v], n)
  {
    var t := s[h := v];
    forall k, j | 0 < k < n && j == (k - 1) / 2 ensures !IsHigherPriority(t[k], t[j]) {
      if k != h && j != h {
        assert !IsHigherPriority(s[k], s[j]);
      }
    }
  }

  /**
   * `percolateDown` in progress: edges away from the hole `h` are ordered,
   * the held entry `v` does not outrank the hole's parent, and the hole's
   * children do not outrank it either.
   */
  ghost predicate DownHole(s: seq<SearchNode>, n: nat, h: nat, v: SearchNode) {
    h < n <= |s| &&
    (forall k, j :: 0 < k < n && k != h && j == (k - 1) / 2 && j != h ==> !IsHigherPriority(s[k], s[j])) &&
    (h > 0 ==> !IsHigherPriority(v, s[(h - 1) / 2])) &&
    (h > 0 ==> forall k :: 0 < k < n && (k - 1) / 2 == h ==> !IsHigherPriority(s[k], s[(h - 1) / 2]))
  }

  lemma DownStart(s: seq<SearchNode>, n: nat, h: nat)
    requires DownReady(s, n, h)
    ensures DownHole(s, n, h, s[h])
  {
    if h > 0 {
      var p := (h - 1) / 2;
      assert p != h;
      assert !IsHigherPriority(s[h], s[p]);
    }
  }

  /** The child `percolateDown` picks is not outranked by its sibling. */
  lemma BestChildOutranksSibling(s: seq<SearchNode>, n: nat, h: nat, b: nat)
    requires n <= |s| && b < n && (b - 1) / 2 == h
    requires b == 2 * h + 1 ==> 2 * h + 2 >= n || !IsHigherPriority(s[2 * h + 2], s[2 * h + 1])
    requires b == 2 * h + 2 ==> IsHigherPriority(s[2 * h + 2], s[2 * h + 1])
    ensures forall k :: 0 < k < n && (k - 1) / 2 == h ==> !IsHigherPriority(s[k], s[b])
  {
    forall k | 0 < k < n && (k - 1) / 2 == h ensures !IsHigherPriority(s[k], s[b]) {
      PriorityIsStrictOrder(s[k], s[b], s[b]);
    }
  }

  lemma DownStep(s: seq<SearchNode>, n: nat, h: nat, b: nat, v: SearchNode)
    requires DownHole(s, n, h, v) && b < n && (b - 1) / 2 == h && b > 0
    requires forall k :: 0 < k < n && (k - 1) / 2 == h ==> !IsHigherPriority(s[k], s[b])
    requires IsHigherPriority(s[b], v)
    ensures DownHole(s[h := s[b]], n, b, v)
  {
    var t := s[h := s[b]];
    PriorityIsStrictOrder(s[b], v, v);
    assert t[(b - 1) / 2] == s[b];
    forall k | 0 < k < n && (k - 1) / 2 == b ensures !IsHigherPriority(t[k], t[(b - 1) / 2]) {
      assert !IsHigherPriority(s[k], s[b]);
    }
    forall k, j | 0 < k < n && k != b && j == (k - 1) / 2 && j != b ensures !IsHigherPriority(t[k], t[j]) {
      if k == h {
        assert !IsHigherPriority(s[b], s[j]);
      } else if j == h {
        assert !IsHigherPriority(s[k], s[b]);
      } else {
        assert !IsHigherPriority(s[k], s[j]);
      }
    }
  }

  lemma DownStop(s: seq<SearchNode>, n: nat, h: nat, b: nat, v: SearchNode)
    requires b < n <= |s|
    requires forall k :: 0 < k < n && (k - 1) / 2 == h ==> !IsHigherPriority(s[k], s[b])
    requires !IsHigherPriority(s[b], v)
    ensures forall k :: 0 < k < n && (k - 1) / 2 == h ==> !IsHigherPriority(s[k], v)
  {
    forall k | 0 < k < n && (k - 1) / 2 == h ensures !IsHigherPriority(s[k], v) {
      NotHigherIsTransitive(s[k], s[b], v);
    }
  }

  lemma DownFinish(s: seq<SearchNode>, n: nat, h: nat, v: SearchNode)
    requires DownHole(s, n, h, v)
    requires h >= n / 2 || forall k :: 0 < k < n && (k - 1) / 2 == h ==> !IsHigherPriority(s[k], v)
    ensures IsHeap(s[h := v], n)
  {
    var t := s[h := v];
    forall k, j | 0 < k < n && j == (k - 1) / 2 ensures !IsHigherPriority(t[k], t[j]) {
      if k != h && j != h {
        assert !IsHigherPriority(s[k], s[j]);
      }
    }
  }

  /** Replacing an entry by one of no lower priority leaves it ready to move up. */
  lemma ReplacementIsUpReady(s: seq<SearchNode>, n: nat, h: nat, w: SearchNode)
    requires IsHeap(s, n) && h < n
    requires !IsHigherPriority(s[h], w)
    ensures UpReady(s[h := w], n, h)
  {
    var t := s[h := w];
    forall i, j | 0 < i < n && i != h && j == (i - 1) / 2 ensures !IsHigherPriority(t[i], t[j]) {
      assert !IsHigherPriority(s[i], s[j]);
      if j == h {
        NotHigherIsTransitive(s[i], s[h], w);
      }
    }
    if h > 0 {
      var p := (h - 1) / 2;
      assert !IsHigherPriority(s[h], s[p]);
      forall i | 0 < i < n && (i - 1) / 2 == h ensures !IsHigherPriority(t[i], t[p]) {
        assert !IsHigherPriority(s[i], s[h]);
        NotHigherIsTransitive(s[i], s[h], s[p]);
      }
    }
  }

  /**
   * A JavaScript array assignment at an index no larger than the length:
   * overwrites the slot, or appends when the index is the length.
   */
  function Assign(s: seq<SearchNode>, i: nat, w: SearchNode): (r: seq<SearchNode>)
    requires i <= |s|
    ensures |r| == if i < |s| then |s| else |s| + 1
    ensures r[i] == w && forall k :: 0 <= k < |r| && k != i ==> r[k] == s[k]
  {
    if i < |s| then s[i := w] else s + [w]
  }

  /**
   * Storing a new entry just past the live ones adds it to the live entries
   * and leaves it ready to move up.
   */
  lemma AssignIsUpReady(s: seq<SearchNode>, n: nat, w: SearchNode, c: int)
    requires IsHeap(s, n) && forall k :: 0 <= k < n ==> s[k].counter < c
    requires w.counter < c
    ensures UpReady(Assign(s, n, w), n + 1, n)
    ensures multiset(Assign(s, n, w)[..n + 1]) == multiset(s[..n]) + multiset{w}
    ensures forall k :: 0 <= k < n + 1 ==> Assign(s, n, w)[k].counter < c
  {
    var t := Assign(s, n, w);
    forall i, j | 0 < i < n + 1 && i != n && j == (i - 1) / 2 ensures !IsHigherPriority(t[i], t[j]) {
      assert !IsHigherPriority(s[i], s[j]);
    }
    assert t[..n + 1] == s[..n] + [w];
  }

  /** Moving the last live entry to the top leaves it ready to move down. */
  lemma RemoveTopIsDownReady(s: seq<SearchNode>, n: nat)
    requires IsHeap(s, n) && 1 < n
    ensures DownReady(s[0 := s[n - 1]], n - 1, 0)
  {
    var t := s[0 := s[n - 1]];
    forall i, j | 0 < i < n - 1 && j == (i - 1) / 2 && j != 0 ensures !IsHigherPriority(t[i], t[j]) {
      assert !IsHigherPriority(s[i], s[j]);
    }
  }

  /** Changing an entry without changing its rank keeps the heap. */
  lemma SamePriorityKeepsHeap(s: seq<SearchNode>, n: nat, h: nat, w: SearchNode)
    requires IsHeap(s, n) && h < n
    requires w.estimatedCost == s[h].estimatedCost && w.manhattanDistance == s[h].manhattanDistance
    requires w.counter == s[h].counter
    ensures IsHeap(s[h := w], n)
  {
    var t := s[h := w];
    forall i, j | 0 < i < n && j == (i - 1) / 2 ensures !IsHigherPriority(t[i], t[j]) {
      assert !IsHigherPriority(s[i], s[j]);
    }
  }

  /** Overwriting a live slot swaps one entry for another. */
  lemma LiveAfterReplace(s: seq<SearchNode>, n: nat, i: nat, w: SearchNode)
    requires i < n <= |s|
    ensures multiset(s[i := w][..n]) == multiset(s[..n]) - multiset{s[i]} + multiset{w}
  {
    assert s[i := w][..n] == s[..n][i := w];
  }

  /** Moving the last live entry to the top and shrinking drops the old top. */
  lemma LiveAfterRemoveTop(s: seq<SearchNode>, n: nat)
    requires 1 < n <= |s|
    ensures multiset(s[0 := s[n - 1]][..n - 1]) == multiset(s[..n]) - multiset{s[0]}
  {
    assert s[..n] == [s[0]] + s[1..n - 1] + [s[n - 1]];
    assert s[0 := s[n - 1]][..n - 1] == [s[n - 1]] + s[1..n - 1];
  }
}
