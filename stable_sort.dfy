/**
 * Python's `sorted(xs, key=k)` on a list whose keys are integers: a stable ascending sort.
 * The sort is represented by the permutation of positions it produces; everything is
 * stated over `keys`, the key of each position computed once before sorting.
 */
module StableSort {

  /** Position `i` comes before position `j`: a smaller key, or an equal key and an earlier position. */
  predicate Before(keys: seq<int>, i: nat, j: nat)
    requires i < |keys| && j < |keys|
  {
    keys[i] < keys[j] || (keys[i] == keys[j] && i < j)
  }

  /** `order` lists positions of `keys` in strictly increasing `Before` order. */
  ghost predicate Ordered(keys: seq<int>, order: seq<nat>) {
    (forall p :: 0 <= p < |order| ==> order[p] < |keys|) &&
    (forall p, q :: 0 <= p < q < |order| ==> Before(keys, order[p], order[q]))
  }

  /** `order` holds each position 0 .. n-1 of `keys` exactly once, in stable ascending order. */
  ghost predicate IsStableSort(keys: seq<int>, order: seq<nat>) {
    Ordered(keys, order) && |order| == |keys| &&
    forall i: nat :: i < |keys| ==> i in order
  }

  /** Inserts position `x` into the ordered `order`, in front of the first position it precedes. */
  function Insert(keys: seq<int>, x: nat, order: seq<nat>): (r: seq<nat>)
    requires x < |keys| && x !in order
    requires Ordered(keys, order)
    ensures Ordered(keys, r)
    ensures |r| == |order| + 1
    ensures forall y :: y in r <==> y in order || y == x
  {
    if order == [] then [x]
    else if Before(keys, x, order[0]) then
      assert forall q :: 0 < q < |order| ==> Before(keys, order[0], order[q]);
      [x] + order
    else
      var rest := Insert(keys, x, order[1..]);
      assert forall y :: y in order[1..] ==> Before(keys, order[0], y) by {
        forall y | y in order[1..] ensures Before(keys, order[0], y) {
          var q :| 0 <= q < |order[1..]| && order[1..][q] == y;
          assert order[q + 1] == y;
        }
      }
      assert forall q :: 0 <= q < |rest| ==> rest[q] in rest;
      [order[0]] + rest
  }

  /** The stable sort of positions 0 .. n-1, by insertion. */
  function SortPrefix(keys: seq<int>, n: nat): (order: seq<nat>)
    requires n <= |keys|
    ensures Ordered(keys, order)
    ensures |order| == n
    ensures forall i: nat :: i in order <==> i < n
  {
    if n == 0 then [] else Insert(keys, n - 1, SortPrefix(keys, n - 1))
  }

  /** `sorted(range(len(keys)), key=keys.__getitem__)`: every position once, stable ascending. */
  function Sort(keys: seq<int>): (order: seq<nat>)
    ensures IsStableSort(keys, order)
    ensures forall i: nat :: i in order <==> i < |keys|
  {
    SortPrefix(keys, |keys|)
  }

  /** Where `x` stands in `order`. */
  function Position(order: seq<nat>, x: nat): (p: nat)
    requires x in order
    ensures p < |order| && order[p] == x
    ensures forall q :: 0 <= q < p ==> order[q] != x
  {
    if order[0] == x then 0 else 1 + Position(order[1..], x)
  }

  /** An ordered sequence holds no position twice. */
  lemma OrderedDistinct(keys: seq<int>, order: seq<nat>)
    requires Ordered(keys, order)
    ensures forall p, q :: 0 <= p < q < |order| ==> order[p] != order[q]
  {
    forall p, q | 0 <= p < q < |order| ensures order[p] != order[q] {
      assert Before(keys, order[p], order[q]);
    }
  }

  /** An ordered sequence holds no position twice, so the position of its p-th entry is p. */
  lemma PositionOfEntry(keys: seq<int>, order: seq<nat>, p: nat)
    requires Ordered(keys, order) && p < |order|
    ensures Position(order, order[p]) == p
  {
    var q := Position(order, order[p]);
    if q < p {
      assert false;
    }
  }

  /** A non-empty sequence holds its first entry. */
  lemma HeadIsMember(s: seq<nat>)
    ensures s == [] || s[0] in s
  {
  }

  /** Two ordered sequences over the same positions are equal. */
  lemma {:induction false} OrderedUnique(keys: seq<int>, a: seq<nat>, b: seq<nat>)
    requires Ordered(keys, a) && Ordered(keys, b)
    requires forall y :: y in a <==> y in b
    ensures a == b
    decreases |a|
  {
    if a == [] {
      HeadIsMember(b);
    } else {
      assert b != [] by { assert a[0] in b; }
      var p := Position(a, b[0]);
      var q := Position(b, a[0]);
      assert 0 < p ==> Before(keys, a[0], a[p]);
      assert 0 < q ==> Before(keys, b[0], b[q]);
      assert a[0] == b[0];
      forall y ensures y in a[1..] <==> y in b[1..] {
        if y in a[1..] {
          var p :| 1 <= p < |a| && a[p] == y;
          assert Before(keys, a[0], y);
          assert y in b && y != b[0];
          var q := Position(b, y);
          assert b[1..][q - 1] == y;
        }
        if y in b[1..] {
          var q :| 1 <= q < |b| && b[q] == y;
          assert Before(keys, b[0], y);
          assert y in a && y != a[0];
          var p := Position(a, y);
          assert a[1..][p - 1] == y;
        }
      }
      OrderedUnique(keys, a[1..], b[1..]);
    }
  }

  /** Any stable ascending sort of the positions puts them exactly where `Sort` does. */
  lemma SortIsUnique(keys: seq<int>, order: seq<nat>)
    requires IsStableSort(keys, order)
    ensures order == Sort(keys)
  {
    OrderedUnique(keys, order, Sort(keys));
  }

  /** The number of positions that come before `i`. */
  ghost function Rank(keys: seq<int>, i: nat): nat
    requires i < |keys|
  {
    |set j: nat | j < |keys| && Before(keys, j, i)|
  }

  /** The entries of a sequence without repetitions at indices below p are p distinct values. */
  lemma {:induction false} PrefixCardinality(order: seq<nat>, p: nat)
    requires p <= |order|
    requires forall q, r :: 0 <= q < r < |order| ==> order[q] != order[r]
    ensures |set q | 0 <= q < p :: order[q]| == p
  {
    if p > 0 {
      PrefixCardinality(order, p - 1);
      var small := set q | 0 <= q < p - 1 :: order[q];
      assert (set q | 0 <= q < p :: order[q]) == small + {order[p - 1]};
      assert order[p - 1] !in small;
    }
  }

  /** The rank of `i` in any stable sort is the number of positions that come before it. */
  lemma PositionIsRank(keys: seq<int>, order: seq<nat>, i: nat)
    requires IsStableSort(keys, order) && i < |keys|
    ensures i in order && Position(order, i) == Rank(keys, i)
  {
    var p := Position(order, i);
    var before := set j: nat | j < |keys| && Before(keys, j, i);
    var prefix := set q | 0 <= q < p :: order[q];
    forall j | j in before ensures j in prefix {
      var q := Position(order, j);
      if q > p {
        assert false;
      }
      assert q != p;
    }
    forall j | j in prefix ensures j in before {
      var q :| 0 <= q < p && order[q] == j;
      assert Before(keys, order[q], order[p]);
    }
    assert before == prefix;
    OrderedDistinct(keys, order);
    PrefixCardinality(order, p);
  }

  /** A subset is no larger than the set that contains it. */
  lemma SubsetCardinality(small: set<nat>, large: set<nat>)
    requires small <= large
    ensures |small| <= |large|
  {
    assert large == small + (large - small);
  }

  /** A position that comes before another has the smaller rank. */
  lemma RankRespectsBefore(keys: seq<int>, i: nat, j: nat)
    requires i < |keys| && j < |keys| && Before(keys, i, j)
    ensures Rank(keys, i) < Rank(keys, j)
  {
    var below := set k: nat | k < |keys| && Before(keys, k, i);
    var aboveAll := set k: nat | k < |keys| && Before(keys, k, j);
    assert below + {i} <= aboveAll;
    assert i !in below;
    SubsetCardinality(below + {i}, aboveAll);
  }
}
