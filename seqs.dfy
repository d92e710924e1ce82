/**
 * The two lodash array helpers the pathfinder relies on, stated over
 * sequences: `_.filter` keeps an order-preserving subsequence, and
 * `_.intersection` keeps the first array's order and drops repeats.
 */
module Seqs {

  /** No element occurs twice. */
  ghost predicate NoDup<T>(s: seq<T>) {
    forall i, j :: 0 <= i < j < |s| ==> s[i] != s[j]
  }

  /** `a` is obtained from `b` by deleting elements (order is kept). */
  ghost predicate IsSubsequence<T>(a: seq<T>, b: seq<T>)
    decreases |b|
  {
    if a == [] then true
    else if b == [] then false
    else (a[0] == b[0] && IsSubsequence(a[1..], b[1..])) || IsSubsequence(a, b[1..])
  }

  /** The slot of the first occurrence of `x` in `a`. */
  function FirstIndex<T(==)>(a: seq<T>, x: T): (k: nat)
    requires x in a
    ensures k < |a| && a[k] == x && x !in a[..k]
  {
    if a[0] == x then 0
    else
      var k := 1 + FirstIndex(a[1..], x);
      assert a[..k] == [a[0]] + a[1..][..k - 1];
      k
  }

  /**
   * The elements of `a` that occur in `b` and not in `seen`, in `a`'s order,
   * each kept at its first occurrence only.
   */
  function IntersectionExcept<T(==,!new)>(a: seq<T>, b: seq<T>, seen: set<T>): (r: seq<T>)
    ensures forall x :: x in r <==> x in a && x in b && x !in seen
    ensures NoDup(r)
    ensures IsSubsequence(r, a)
    ensures forall i, j :: 0 <= i < j < |r| ==> FirstIndex(a, r[i]) < FirstIndex(a, r[j])
    decreases |a|
  {
    if a == [] then []
    else if a[0] in b && a[0] !in seen then
      var rest := IntersectionExcept(a[1..], b, seen + {a[0]});
      assert ([a[0]] + rest)[1..] == rest;
      PrependKeepsFirstOrder(a, rest);
      [a[0]] + rest
    else
      var r := IntersectionExcept(a[1..], b, seen);
      SkipKeepsFirstOrder(a, r);
      r
  }

  /** Putting `a[0]` before a list ordered by first occurrence in `a[1..]` gives one ordered in `a`. */
  lemma PrependKeepsFirstOrder<T>(a: seq<T>, rest: seq<T>)
    requires a != [] && forall x :: x in rest ==> x in a[1..] && x != a[0]
    requires forall i, j :: 0 <= i < j < |rest| ==> FirstIndex(a[1..], rest[i]) < FirstIndex(a[1..], rest[j])
    ensures forall x :: x in [a[0]] + rest ==> x in a
    ensures var r := [a[0]] + rest;
      forall i, j :: 0 <= i < j < |r| ==> FirstIndex(a, r[i]) < FirstIndex(a, r[j])
  {
    var r := [a[0]] + rest;
    forall i, j | 0 <= i < j < |r| ensures r[i] in a && r[j] in a && FirstIndex(a, r[i]) < FirstIndex(a, r[j]) {
      assert r[j] == rest[j - 1] && r[j] in rest;
      if i > 0 {
        assert r[i] == rest[i - 1] && r[i] in rest;
      }
    }
  }

  /** A list ordered by first occurrence in `a[1..]`, without `a[0]`, is ordered in `a` too. */
  lemma SkipKeepsFirstOrder<T>(a: seq<T>, r: seq<T>)
    requires a != [] && forall x :: x in r ==> x in a[1..] && x != a[0]
    requires forall i, j :: 0 <= i < j < |r| ==> FirstIndex(a[1..], r[i]) < FirstIndex(a[1..], r[j])
    ensures forall x :: x in r ==> x in a
    ensures forall i, j :: 0 <= i < j < |r| ==> FirstIndex(a, r[i]) < FirstIndex(a, r[j])
  {
    forall x | x in r ensures x in a {
      assert x in a[1..];
    }
    forall i, j | 0 <= i < j < |r| ensures FirstIndex(a, r[i]) < FirstIndex(a, r[j]) {
      assert r[i] in r && r[j] in r;
    }
  }

  /**
   * lodash `_.intersection(a, b)`: the elements of `a` that occur in `b`,
   * each once, ordered by where they first occur in `a`.
   */
  function Intersection<T(==,!new)>(a: seq<T>, b: seq<T>): (r: seq<T>)
    ensures forall x :: x in r <==> x in a && x in b
    ensures NoDup(r)
    ensures IsSubsequence(r, a)
    ensures forall i, j :: 0 <= i < j < |r| ==> FirstIndex(a, r[i]) < FirstIndex(a, r[j])
  {
    IntersectionExcept(a, b, {})
  }

  /**
   * A list of elements of `l` ordered by their first occurrence in `l` is a
   * subsequence of `l`.
   */
  lemma {:induction false} OrderedIsSubsequence<T>(r: seq<T>, l: seq<T>)
    requires forall x :: x in r ==> x in l
    requires forall i, j :: 0 <= i < j < |r| ==> FirstIndex(l, r[i]) < FirstIndex(l, r[j])
    ensures IsSubsequence(r, l)
    decreases |l|
  {
    if r != [] {
      assert r[0] in r;
      var tail := l[1..];
      forall j | 0 < j < |r| ensures r[j] != l[0] && r[j] in tail {
        assert r[j] in r;
        assert FirstIndex(l, r[j]) > 0;
      }
      if r[0] == l[0] {
        var rest := r[1..];
        forall x | x in rest ensures x in tail {
          var j :| 0 <= j < |rest| && rest[j] == x;
          assert r[j + 1] == x;
        }
        forall i, j | 0 <= i < j < |rest| ensures FirstIndex(tail, rest[i]) < FirstIndex(tail, rest[j]) {
          assert rest[i] == r[i + 1] && rest[j] == r[j + 1];
        }
        OrderedIsSubsequence(rest, tail);
      } else {
        forall x | x in r ensures x in tail {
          var j :| 0 <= j < |r| && r[j] == x;
        }
        forall i, j | 0 <= i < j < |r| ensures FirstIndex(tail, r[i]) < FirstIndex(tail, r[j]) {
          assert r[i] != l[0];
        }
        OrderedIsSubsequence(r, tail);
      }
    }
  }

  /** A subsequence of a sequence without repeats has no repeats. */
  lemma {:induction false} SubsequenceKeepsNoDup<T>(a: seq<T>, b: seq<T>)
    requires IsSubsequence(a, b) && NoDup(b)
    ensures NoDup(a)
    decreases |b|
  {
    if a != [] && b != [] {
      assert NoDup(b[1..]) by {
        forall i, j | 0 <= i < j < |b[1..]| ensures b[1..][i] != b[1..][j] {
          assert b[1..][i] == b[i + 1] && b[1..][j] == b[j + 1];
        }
      }
      if a[0] == b[0] && IsSubsequence(a[1..], b[1..]) {
        SubsequenceKeepsNoDup(a[1..], b[1..]);
        SubsequenceMembers(a[1..], b[1..]);
        forall i, j | 0 <= i < j < |a| ensures a[i] != a[j] {
          if i == 0 {
            assert a[j] == a[1..][j - 1];
            assert a[j] in b[1..];
            var k :| 0 <= k < |b[1..]| && b[1..][k] == a[j];
            assert b[k + 1] == a[j];
          } else {
            assert a[i] == a[1..][i - 1] && a[j] == a[1..][j - 1];
          }
        }
      } else {
        SubsequenceKeepsNoDup(a, b[1..]);
      }
    }
  }

  /** Every element of a subsequence is an element of the sequence. */
  lemma {:induction false} SubsequenceMembers<T>(a: seq<T>, b: seq<T>)
    requires IsSubsequence(a, b)
    ensures forall x :: x in a ==> x in b
    decreases |b|
  {
    if a != [] && b != [] {
      if a[0] == b[0] && IsSubsequence(a[1..], b[1..]) {
        SubsequenceMembers(a[1..], b[1..]);
        forall x | x in a ensures x in b {
          if x == a[0] {
            assert b[0] in b;
          } else {
            var k :| 0 <= k < |a| && a[k] == x;
            assert a[1..][k - 1] == x;
            assert x in b[1..];
          }
        }
      } else {
        SubsequenceMembers(a, b[1..]);
      }
    }
  }
}
