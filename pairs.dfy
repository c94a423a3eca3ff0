/**
 * The enumeration of index pairs `(i, j)` with `i < j < n` that both
 * plagiarism reducers produce with their nested `for i` / `for j in
 * range(i + 1, n)` loops, in the order those loops visit them.
 */
module Pairs {

  type Pair = (nat, nat)

  /** `(i, lo), (i, lo + 1), ..., (i, hi - 1)`: one pass of the inner loop. */
  function Row(i: nat, lo: nat, hi: nat): (r: seq<Pair>)
    decreases hi
  {
    if hi <= lo then [] else Row(i, lo, hi - 1) + [(i, hi - 1)]
  }

  /** Every pair the loops emit before the outer loop reaches `i`. */
  function PairsBelow(i: nat, n: nat): seq<Pair> {
    if i == 0 then [] else PairsBelow(i - 1, n) + Row(i - 1, i, n)
  }

  /** Every pair of distinct indices below `n`, in the loops' order. */
  function AllPairs(n: nat): seq<Pair> {
    PairsBelow(n, n)
  }

  /** Strict lexicographic order on pairs. */
  predicate LexLess(p: Pair, q: Pair) {
    p.0 < q.0 || (p.0 == q.0 && p.1 < q.1)
  }

  lemma {:induction false} RowShape(i: nat, lo: nat, hi: nat)
    requires lo <= hi
    ensures |Row(i, lo, hi)| == hi - lo
    ensures forall k :: 0 <= k < hi - lo ==> Row(i, lo, hi)[k] == (i, lo + k)
    decreases hi
  {
    if lo < hi {
      RowShape(i, lo, hi - 1);
    }
  }

  /** Before the outer loop reaches `i` the loops have emitted `i * (2n - i - 1) / 2` pairs. */
  lemma {:induction false} PairsBelowCount(i: nat, n: nat)
    requires i <= n
    ensures 2 * |PairsBelow(i, n)| == i * (2 * n - i - 1)
  {
    if i > 0 {
      PairsBelowCount(i - 1, n);
      RowShape(i - 1, i, n);
      var m := i - 1;
      assert 2 * |PairsBelow(i, n)| == m * (2 * n - m - 1) + 2 * (n - i);
      assert m * (2 * n - m - 1) + 2 * (n - i) == i * (2 * n - i - 1) by {
        assert m * (2 * n - m - 1) == m * (2 * n - i);
        assert i * (2 * n - i - 1) == (m + 1) * (2 * n - i) - i;
      }
    }
  }

  /** A pair is emitted before row `i` exactly when its first index is below `i`. */
  lemma {:induction false} PairsBelowMembers(i: nat, n: nat)
    requires i <= n
    ensures forall p :: p in PairsBelow(i, n) <==> p.0 < i && p.0 < p.1 < n
  {
    if i > 0 {
      PairsBelowMembers(i - 1, n);
      RowShape(i - 1, i, n);
      var row := Row(i - 1, i, n);
      forall p: Pair | p.0 == i - 1 && p.0 < p.1 < n ensures p in row {
        assert row[p.1 - i] == p;
      }
    }
  }

  /** The loops emit pairs in strictly increasing lexicographic order, hence never the same pair twice. */
  lemma {:induction false} PairsBelowOrdered(i: nat, n: nat)
    requires i <= n
    ensures forall a, b :: 0 <= a < b < |PairsBelow(i, n)| ==> LexLess(PairsBelow(i, n)[a], PairsBelow(i, n)[b])
  {
    if i > 0 {
      PairsBelowOrdered(i - 1, n);
      PairsBelowMembers(i - 1, n);
      RowShape(i - 1, i, n);
      var prev := PairsBelow(i - 1, n);
      var row := Row(i - 1, i, n);
      var all := PairsBelow(i, n);
      assert all == prev + row;
      forall a, b | 0 <= a < b < |all| ensures LexLess(all[a], all[b]) {
        if b < |prev| {
          assert all[a] == prev[a] && all[b] == prev[b];
        } else if a < |prev| {
          assert all[a] == prev[a] && prev[a] in prev;
          assert all[a].0 < i - 1;
          assert all[b] == row[b - |prev|] == (i - 1, i + b - |prev|);
        } else {
          assert all[a] == row[a - |prev|] == (i - 1, i + a - |prev|);
          assert all[b] == row[b - |prev|] == (i - 1, i + b - |prev|);
        }
      }
    }
  }

  /** For `n` indices the loops visit exactly the `n(n-1)/2` pairs `i < j < n`, in lexicographic order. */
  lemma AllPairsSpec(n: nat)
    ensures 2 * |AllPairs(n)| == n * (n - 1)
    ensures forall p :: p in AllPairs(n) <==> p.0 < p.1 < n
    ensures forall a, b :: 0 <= a < b < |AllPairs(n)| ==> LexLess(AllPairs(n)[a], AllPairs(n)[b])
  {
    PairsBelowCount(n, n);
    PairsBelowMembers(n, n);
    PairsBelowOrdered(n, n);
  }
}
