/** The stable sort that `Array.prototype.sort` performs with a comparator
    that orders by an integer rank first and by a real weight, descending,
    second. Both sorts of the optimizer have that shape: candidates by
    descending score, and the final list by node type and then descending
    score. A stable sort is determined by its comparator, so insertion sort
    gives exactly the order the source produces. */
module Sorting {

  /** `a` may stand before `b`: lower rank, or equal rank and no smaller weight. */
  predicate InOrder<T>(rank: T -> int, weight: T -> real, a: T, b: T) {
    rank(a) < rank(b) || (rank(a) == rank(b) && weight(a) >= weight(b))
  }

  ghost predicate SortedBy<T>(s: seq<T>, rank: T -> int, weight: T -> real) {
    forall i, j :: 0 <= i < j < |s| ==> InOrder(rank, weight, s[i], s[j])
  }

  /** Inserts `x` before the first element it may stand before; `x` goes in
      front of every element it ties with, which keeps the sort stable. */
  function Insert<T>(x: T, s: seq<T>, rank: T -> int, weight: T -> real): (r: seq<T>)
    requires SortedBy(s, rank, weight)
    ensures SortedBy(r, rank, weight)
    ensures multiset(r) == multiset(s) + multiset{x}
    ensures |r| == |s| + 1
    ensures r[0] == x || (|s| > 0 && r[0] == s[0])
  {
    if |s| == 0 || InOrder(rank, weight, x, s[0]) then [x] + s
    else
      var rest := Insert(x, s[1..], rank, weight);
      assert s == [s[0]] + s[1..];
      assert InOrder(rank, weight, s[0], rest[0]);
      [s[0]] + rest
  }

  /** The stable sort by ascending rank, then descending weight. */
  function SortBy<T>(s: seq<T>, rank: T -> int, weight: T -> real): (r: seq<T>)
    ensures SortedBy(r, rank, weight)
    ensures multiset(r) == multiset(s)
    ensures |r| == |s|
  {
    if |s| == 0 then []
    else
      assert s == [s[0]] + s[1..];
      Insert(s[0], SortBy(s[1..], rank, weight), rank, weight)
  }

  /** The elements of `s` with rank `k` and weight `w`, in their order in `s`. */
  function Ties<T>(s: seq<T>, rank: T -> int, weight: T -> real, k: int, w: real): (r: seq<T>)
    ensures |r| <= |s|
  {
    if |s| == 0 then []
    else (if rank(s[0]) == k && weight(s[0]) == w then [s[0]] else []) + Ties(s[1..], rank, weight, k, w)
  }

  /** Insert puts `x` in front of the elements it ties with. */
  lemma {:induction false} InsertTies<T>(x: T, s: seq<T>, rank: T -> int, weight: T -> real, k: int, w: real)
    requires SortedBy(s, rank, weight)
    ensures Ties(Insert(x, s, rank, weight), rank, weight, k, w) ==
            (if rank(x) == k && weight(x) == w then [x] else []) + Ties(s, rank, weight, k, w)
  {
    if |s| == 0 || InOrder(rank, weight, x, s[0]) {
      TiesCons(x, s, rank, weight, k, w);
    } else {
      var rest := Insert(x, s[1..], rank, weight);
      InsertTies(x, s[1..], rank, weight, k, w);
      TiesCons(s[0], rest, rank, weight, k, w);
      TiesCons(s[0], s[1..], rank, weight, k, w);
      assert s == [s[0]] + s[1..];
      TiesSwap(x, s[0], Ties(s[1..], rank, weight, k, w), rank, weight, k, w);
    }
  }

  lemma TiesCons<T>(a: T, s: seq<T>, rank: T -> int, weight: T -> real, k: int, w: real)
    ensures Ties([a] + s, rank, weight, k, w) == (if rank(a) == k && weight(a) == w then [a] else []) + Ties(s, rank, weight, k, w)
  {
    assert ([a] + s)[0] == a && ([a] + s)[1..] == s;
  }

  /** Two elements that do not tie can trade places among the ties. */
  lemma TiesSwap<T>(x: T, y: T, t: seq<T>, rank: T -> int, weight: T -> real, k: int, w: real)
    requires !InOrder(rank, weight, x, y)
    ensures var tx := if rank(x) == k && weight(x) == w then [x] else [];
            var ty := if rank(y) == k && weight(y) == w then [y] else [];
            ty + (tx + t) == tx + (ty + t)
  {
  }

  /** SortBy is stable: the elements that tie on both rank and weight keep
      their input order. */
  lemma {:induction false} SortByStable<T>(s: seq<T>, rank: T -> int, weight: T -> real, k: int, w: real)
    ensures Ties(SortBy(s, rank, weight), rank, weight, k, w) == Ties(s, rank, weight, k, w)
  {
    if |s| > 0 {
      SortByStable(s[1..], rank, weight, k, w);
      InsertTies(s[0], SortBy(s[1..], rank, weight), rank, weight, k, w);
    }
  }
}
