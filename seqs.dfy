/**
 * Sequence combinators behind the `filter`, `map`, `sort`, `slice` and
 * `forEach`-into-a-map idioms of the modelled code, with the facts about
 * them that the modules use.
 */
module Seqs {
  import opened Wrappers

  /** `s.filter(p)` / a list comprehension with a condition. */
  function Filter<T(!new)>(p: T -> bool, s: seq<T>): (r: seq<T>)
    ensures |r| <= |s|
    ensures forall x :: x in r <==> x in s && p(x)
    ensures multiset(r) <= multiset(s)
  {
    if s == [] then []
    else
      assert s == [s[0]] + s[1..];
      if p(s[0]) then [s[0]] + Filter(p, s[1..])
      else Filter(p, s[1..])
  }

  /** Filtering distributes over concatenation: the kept elements stay in their original order. */
  lemma {:induction false} FilterConcat<T(!new)>(p: T -> bool, a: seq<T>, b: seq<T>)
    ensures Filter(p, a + b) == Filter(p, a) + Filter(p, b)
  {
    if a == [] {
      assert a + b == b;
    } else {
      assert (a + b)[0] == a[0];
      assert (a + b)[1..] == a[1..] + b;
      FilterConcat(p, a[1..], b);
      if p(a[0]) {
        assert Filter(p, a + b) == [a[0]] + Filter(p, a[1..] + b);
        assert Filter(p, a) == [a[0]] + Filter(p, a[1..]);
      } else {
        assert Filter(p, a + b) == Filter(p, a[1..] + b);
      }
    }
  }

  /** `s.filter(p).length`. */
  function Count<T(!new)>(p: T -> bool, s: seq<T>): (n: nat)
    ensures n <= |s|
  {
    |Filter(p, s)|
  }

  lemma {:induction false} CountConcat<T(!new)>(p: T -> bool, a: seq<T>, b: seq<T>)
    ensures Count(p, a + b) == Count(p, a) + Count(p, b)
  {
    FilterConcat(p, a, b);
  }

  /** `s.map(f)`. */
  function Map<A, B>(f: A -> B, s: seq<A>): (r: seq<B>)
    ensures |r| == |s|
    ensures forall i :: 0 <= i < |s| ==> r[i] == f(s[i])
  {
    if s == [] then [] else [f(s[0])] + Map(f, s[1..])
  }

  /** Mapping distributes over concatenation. */
  lemma MapConcat<A, B>(f: A -> B, a: seq<A>, b: seq<A>)
    ensures Map(f, a + b) == Map(f, a) + Map(f, b)
  {
  }

  /** When `f` takes every element passing `p` to one passing `q`, every mapped element passes `q`. */
  lemma MapKeeps<A, B>(f: A -> B, p: A -> bool, q: B -> bool, s: seq<A>)
    requires forall x :: x in s ==> p(x)
    requires forall x :: p(x) ==> q(f(x))
    ensures forall y :: y in Map(f, s) ==> q(y)
  {
    forall y | y in Map(f, s) ensures q(y) {
      var i :| 0 <= i < |s| && Map(f, s)[i] == y;
      assert s[i] in s;
    }
  }

  /** `s.find(p)` / `next((x for x in s if p(x)), None)`: the first element that passes. */
  function FindFirst<T>(p: T -> bool, s: seq<T>): (r: Option<T>)
    ensures r.None? <==> forall x :: x in s ==> !p(x)
    ensures r.Some? ==> r.value in s && p(r.value)
  {
    if s == [] then None
    else if p(s[0]) then Some(s[0])
    else FindFirst(p, s[1..])
  }

  /** The element found is the one at the first position that passes. */
  lemma {:induction false} FindFirstAt<T>(p: T -> bool, s: seq<T>, k: nat)
    requires k < |s| && p(s[k])
    requires forall j :: 0 <= j < k ==> !p(s[j])
    ensures FindFirst(p, s) == Some(s[k])
  {
    if k > 0 {
      FindFirstAt(p, s[1..], k - 1);
    }
  }

  /** `s.slice(0, k)` / `s[:k]` / `head(k)`. */
  function Take<T>(s: seq<T>, k: nat): (r: seq<T>)
    ensures |r| == if |s| < k then |s| else k
    ensures r == s[..|r|]
  {
    if |s| <= k then s else s[..k]
  }

  /** The sum of a sequence of numbers, as `reduce((a, b) => a + b, 0)`. */
  function Sum(s: seq<real>): real {
    if s == [] then 0.0 else Sum(s[..|s| - 1]) + s[|s| - 1]
  }

  lemma {:induction false} SumBounds(s: seq<real>, lo: real, hi: real)
    requires forall x :: x in s ==> lo <= x <= hi
    ensures |s| as real * lo <= Sum(s) <= |s| as real * hi
  {
    if s != [] {
      var init := s[..|s| - 1];
      assert forall x :: x in init ==> x in s;
      SumBounds(init, lo, hi);
      assert s[|s| - 1] in s;
    }
  }

  /** Dividing by a positive `n` keeps a value between `n * lo` and `n * hi` between `lo` and `hi`. */
  lemma QuotientBounds(a: real, n: real, lo: real, hi: real)
    requires n > 0.0 && n * lo <= a <= n * hi
    ensures lo <= a / n <= hi
  {
    var q := a / n;
    assert a == n * q;
    assert n * (q - lo) >= 0.0;
    assert n * (hi - q) >= 0.0;
  }

  /** `s` ordered by non-decreasing `key`. */
  ghost predicate SortedBy<T>(s: seq<T>, key: T -> real) {
    forall i, j :: 0 <= i < j < |s| ==> key(s[i]) <= key(s[j])
  }

  /** Putting in front an element whose key is no larger than every other keeps a sequence sorted. */
  lemma ConsSorted<T>(a: T, t: seq<T>, key: T -> real)
    requires SortedBy(t, key)
    requires forall y :: y in t ==> key(a) <= key(y)
    ensures SortedBy([a] + t, key)
  {
    var u := [a] + t;
    forall i, j | 0 <= i < j < |u| ensures key(u[i]) <= key(u[j]) {
      assert u[j] == t[j - 1];
      if i == 0 {
        assert t[j - 1] in t;
      } else {
        assert u[i] == t[i - 1];
      }
    }
  }

  /** Inserts `x` before the first element whose key is not smaller, so equal keys keep their order. */
  function InsertBy<T(!new)>(x: T, s: seq<T>, key: T -> real): (r: seq<T>)
    requires SortedBy(s, key)
    ensures SortedBy(r, key)
    ensures multiset(r) == multiset(s) + multiset{x}
  {
    if s == [] || key(x) <= key(s[0]) then
      HeadBound(x, s, key);
      ConsSorted(x, s, key);
      [x] + s
    else
      var tail := s[1..];
      assert SortedBy(tail, key);
      var rest := InsertBy(x, tail, key);
      assert s == [s[0]] + tail;
      HeadBound(s[0], tail, key);
      RestBound(s[0], x, tail, rest, key);
      ConsSorted(s[0], rest, key);
      assert multiset([s[0]] + rest) == multiset{s[0]} + multiset(rest);
      assert multiset(s) == multiset{s[0]} + multiset(tail);
      [s[0]] + rest
  }

  /** An element whose key is no larger than the first of a sorted sequence is no larger than all of it. */
  lemma HeadBound<T>(x: T, s: seq<T>, key: T -> real)
    requires SortedBy(s, key)
    requires s == [] || key(x) <= key(s[0])
    ensures forall y :: y in s ==> key(x) <= key(y)
  {
    forall y | y in s ensures key(x) <= key(y) {
      var j :| 0 <= j < |s| && s[j] == y;
      assert key(s[0]) <= key(s[j]);
    }
  }

  /** A bound on the elements of `tail` and on `x` bounds a sequence holding just those. */
  lemma RestBound<T>(a: T, x: T, tail: seq<T>, rest: seq<T>, key: T -> real)
    requires multiset(rest) == multiset(tail) + multiset{x}
    requires key(a) <= key(x)
    requires forall y :: y in tail ==> key(a) <= key(y)
    ensures forall y :: y in rest ==> key(a) <= key(y)
  {
    forall y | y in rest ensures key(a) <= key(y) {
      assert y in multiset(rest);
      if y != x {
        assert y in multiset(tail);
      }
    }
  }

  /** A stable sort by ascending key (JavaScript's `sort` with `(a, b) => key(a) - key(b)`). */
  function SortBy<T(!new)>(s: seq<T>, key: T -> real): (r: seq<T>)
    ensures SortedBy(r, key)
    ensures multiset(r) == multiset(s)
    ensures |r| == |s|
  {
    if s == [] then []
    else
      var r := InsertBy(s[0], SortBy(s[1..], key), key);
      assert s == [s[0]] + s[1..];
      assert |r| == |multiset(r)|;
      r
  }

  /** Sorting keeps exactly the elements it was given. */
  lemma SortByMembers<T(!new)>(s: seq<T>, key: T -> real)
    ensures forall x :: x in SortBy(s, key) <==> x in s
  {
    var r := SortBy(s, key);
    forall x ensures x in r <==> x in s {
      assert x in r <==> x in multiset(r);
      assert x in s <==> x in multiset(s);
    }
  }

  /** The image of a member is a member of the image. */
  lemma MapMember<A, B>(f: A -> B, s: seq<A>, x: A)
    requires x in s
    ensures f(x) in Map(f, s)
  {
    var i :| 0 <= i < |s| && s[i] == x;
    assert Map(f, s)[i] == f(x);
  }

  /**
   * The first `k` elements of a sort keep the `k` smallest keys: every
   * element cut off has a key no smaller than any kept one, and an element
   * is cut off only when `k` are kept.
   */
  lemma TopK<T(!new)>(s: seq<T>, key: T -> real, k: nat)
    ensures var top := Take(SortBy(s, key), k);
      SortedBy(top, key) && multiset(top) <= multiset(s)
      && (forall x, y :: x in multiset(s) - multiset(top) && y in top ==> key(y) <= key(x))
      && (forall x :: x in s && x !in top ==> |top| == k)
  {
    var sorted := SortBy(s, key);
    var n := if |sorted| < k then |sorted| else k;
    var top := sorted[..n];
    assert Take(sorted, k) == top;
    PrefixSorted(sorted, key, n);
    MultisetSplit(sorted, n);
    SplitSorted(sorted, key, n);
    CutOff(s, sorted, key, n);
  }

  /** A prefix of a sorted sequence is sorted. */
  lemma PrefixSorted<T>(s: seq<T>, key: T -> real, n: nat)
    requires SortedBy(s, key) && n <= |s|
    ensures SortedBy(s[..n], key)
  {
    forall i, j | 0 <= i < j < n ensures key(s[..n][i]) <= key(s[..n][j]) {
      assert s[..n][i] == s[i] && s[..n][j] == s[j];
    }
  }

  /** What a prefix of a sorted permutation of `s` leaves out lies after the cut. */
  lemma CutOff<T>(s: seq<T>, sorted: seq<T>, key: T -> real, n: nat)
    requires multiset(sorted) == multiset(s) && n <= |sorted|
    requires multiset(sorted) == multiset(sorted[..n]) + multiset(sorted[n..])
    requires forall x, y :: x in sorted[n..] && y in sorted[..n] ==> key(y) <= key(x)
    ensures forall x, y :: x in multiset(s) - multiset(sorted[..n]) && y in sorted[..n] ==> key(y) <= key(x)
    ensures forall x :: x in s && x !in sorted[..n] ==> n < |sorted|
  {
    forall x, y | x in multiset(s) - multiset(sorted[..n]) && y in sorted[..n] ensures key(y) <= key(x) {
      assert x in multiset(sorted[n..]);
    }
    forall x | x in s && x !in sorted[..n] ensures n < |sorted| {
      assert x in multiset(sorted);
      assert x in multiset(sorted[n..]);
    }
  }

  lemma MultisetSplit<T>(s: seq<T>, n: nat)
    requires n <= |s|
    ensures multiset(s) == multiset(s[..n]) + multiset(s[n..])
  {
    assert s == s[..n] + s[n..];
  }

  /** In a sorted sequence every element before a cut has a key no larger than every element after it. */
  lemma SplitSorted<T>(s: seq<T>, key: T -> real, n: nat)
    requires SortedBy(s, key) && n <= |s|
    ensures forall x, y :: x in s[n..] && y in s[..n] ==> key(y) <= key(x)
  {
    forall x, y | x in s[n..] && y in s[..n] ensures key(y) <= key(x) {
      var i :| 0 <= i < n && s[..n][i] == y;
      var j :| 0 <= j < |s| - n && s[n..][j] == x;
      assert s[i] == y && s[n + j] == x;
    }
  }

  /**
   * The map obtained by setting `m[key] = value` for every entry in order,
   * as a `forEach` that writes into an object or a `Map`: the last entry for
   * a key wins.
   */
  function LastWins<K(!new), V>(es: seq<(K, V)>): (m: map<K, V>)
    ensures m.Keys == set e | e in es :: e.0
  {
    if es == [] then map[]
    else
      var init := es[..|es| - 1];
      var last := es[|es| - 1];
      assert es == init + [last];
      LastWins(init)[last.0 := last.1]
  }

  /** A key maps to the value of its last entry. */
  lemma {:induction false} LastWinsValue<K(!new), V>(es: seq<(K, V)>, j: nat)
    requires j < |es|
    requires forall i :: j < i < |es| ==> es[i].0 != es[j].0
    ensures es[j].0 in LastWins(es) && LastWins(es)[es[j].0] == es[j].1
  {
    if j < |es| - 1 {
      LastWinsValue(es[..|es| - 1], j);
    }
  }

  /** No element occurs twice. */
  ghost predicate NoDup<T>(s: seq<T>) {
    forall i, j :: 0 <= i < j < |s| ==> s[i] != s[j]
  }

  /** The distinct elements of `s` in order of first occurrence, as the keys of a `Counter`. */
  function Distinct<T(==,!new)>(s: seq<T>): (r: seq<T>)
    ensures forall x :: x in r <==> x in s
    ensures NoDup(r)
  {
    if s == [] then []
    else
      var init := s[..|s| - 1];
      var last := s[|s| - 1];
      assert s == init + [last];
      var p := Distinct(init);
      if last in p then p else p + [last]
  }

  /** How often `x` occurs in `s` (`s.count(x)`, a `Counter` entry). */
  function Occurrences<T(==)>(x: T, s: seq<T>): (n: nat)
    ensures n <= |s|
    ensures n > 0 <==> x in s
  {
    if s == [] then 0
    else (if s[0] == x then 1 else 0) + Occurrences(x, s[1..])
  }

  /** Two positions holding the same element make it occur at least twice in the multiset. */
  lemma RepeatedInMultiset<T>(s: seq<T>, i: nat, j: nat)
    requires i < j < |s| && s[i] == s[j]
    ensures multiset(s)[s[i]] >= 2
  {
    assert s == s[..j] + [s[j]] + s[j + 1..];
    assert s[i] in s[..j];
  }

  /** An element of a duplicate-free sequence occurs at most once in its multiset. */
  lemma {:induction false} NoDupMultiset<T>(s: seq<T>, x: T)
    requires NoDup(s)
    ensures multiset(s)[x] <= 1
  {
    if s != [] {
      assert s == [s[0]] + s[1..];
      assert NoDup(s[1..]);
      NoDupMultiset(s[1..], x);
      if x == s[0] {
        assert x !in s[1..];
      }
    }
  }
}
