/**
 * The ordering Python's `sorted` uses on strings (code point by code point,
 * a proper prefix first), and sorting a collection of words into a
 * duplicate-free ascending list, as `sorted(set(words))` does.
 */
module StringOrder {

  /** `a < b` on Python strings. */
  predicate StrLess(a: string, b: string)
    decreases |a|
  {
    if a == [] then b != []
    else b != [] && (a[0] < b[0] || (a[0] == b[0] && StrLess(a[1..], b[1..])))
  }

  lemma {:induction false} StrLessIrreflexive(a: string)
    ensures !StrLess(a, a)
    decreases |a|
  {
    if a != [] {
      StrLessIrreflexive(a[1..]);
    }
  }

  lemma {:induction false} StrLessTransitive(a: string, b: string, c: string)
    requires StrLess(a, b) && StrLess(b, c)
    ensures StrLess(a, c)
    decreases |a|
  {
    if a != [] && a[0] == b[0] && b[0] == c[0] {
      StrLessTransitive(a[1..], b[1..], c[1..]);
    }
  }

  /** Any two different strings are ordered one way or the other. */
  lemma {:induction false} StrLessTotal(a: string, b: string)
    ensures a == b || StrLess(a, b) || StrLess(b, a)
    decreases |a|
  {
    if a != [] && b != [] && a[0] == b[0] {
      StrLessTotal(a[1..], b[1..]);
      if a[1..] == b[1..] {
        assert a == [a[0]] + a[1..] && b == [b[0]] + b[1..];
      }
    }
  }

  /** Strictly ascending, hence without duplicates. */
  ghost predicate Ascending(s: seq<string>) {
    forall i, j :: 0 <= i < j < |s| ==> StrLess(s[i], s[j])
  }

  /** `w` put into its place in an ascending list, unless it is already there. */
  function Insert(w: string, s: seq<string>): (r: seq<string>)
    requires Ascending(s)
    ensures Ascending(r)
    ensures forall x :: x in r <==> x in s || x == w
  {
    if s == [] then [w]
    else if w == s[0] then s
    else if StrLess(w, s[0]) then
      assert forall j :: 0 < j < |s| ==> StrLess(w, s[j]) by {
        forall j | 0 < j < |s| ensures StrLess(w, s[j]) {
          StrLessTransitive(w, s[0], s[j]);
        }
      }
      [w] + s
    else
      StrLessTotal(w, s[0]);
      var t := Insert(w, s[1..]);
      assert forall x :: x in t ==> StrLess(s[0], x);
      [s[0]] + t
  }

  /** `sorted(set(ws))`. */
  function SortedUnique(ws: seq<string>): (r: seq<string>)
    ensures Ascending(r)
    ensures forall x :: x in r <==> x in ws
  {
    if ws == [] then []
    else
      var r := Insert(ws[|ws| - 1], SortedUnique(ws[..|ws| - 1]));
      assert forall x :: x in ws <==> x in ws[..|ws| - 1] || x == ws[|ws| - 1];
      r
  }

  /** In two ascending lists with the same elements, neither first element is below the other. */
  lemma HeadNotBelow(a: seq<string>, b: seq<string>)
    requires Ascending(a) && Ascending(b) && a != [] && b != []
    requires forall x :: x in a <==> x in b
    ensures !StrLess(a[0], b[0])
  {
    if StrLess(a[0], b[0]) {
      assert a[0] in b;
      var j :| 0 <= j < |b| && b[j] == a[0];
      if j > 0 {
        StrLessTransitive(a[0], b[0], b[j]);
      }
      StrLessIrreflexive(a[0]);
    }
  }

  /** An ascending list is determined by its elements: `sorted(set(...))` has one possible value. */
  lemma {:induction false} AscendingUnique(a: seq<string>, b: seq<string>)
    requires Ascending(a) && Ascending(b)
    requires forall x :: x in a <==> x in b
    ensures a == b
    decreases |a|
  {
    assert a != [] ==> a[0] in a;
    assert b != [] ==> b[0] in b;
    if a != [] && b != [] {
      HeadNotBelow(a, b);
      HeadNotBelow(b, a);
      StrLessTotal(a[0], b[0]);
      forall x ensures x in a[1..] <==> x in b[1..] {
        if x in a[1..] {
          var i :| 1 <= i < |a| && a[i] == x;
          assert StrLess(a[0], x);
          StrLessIrreflexive(x);
          assert x in b && x != b[0];
        }
        if x in b[1..] {
          var i :| 1 <= i < |b| && b[i] == x;
          assert StrLess(b[0], x);
          StrLessIrreflexive(x);
          assert x in a && x != a[0];
        }
      }
      AscendingUnique(a[1..], b[1..]);
      assert a == [a[0]] + a[1..] && b == [b[0]] + b[1..];
    }
  }
}
