/**
 * Character classes and string operations of Python's `str` and JavaScript's
 * `String` that the modelled code relies on: whitespace, ASCII case mapping,
 * stripping, whitespace splitting, joining, substring search and `split`
 * on a separator.
 */
module Strings {
  import opened Wrappers

  /** Python's `str.isspace()`, used by `split()`, `strip()` and the `\s` class of `re`. */
  predicate IsPySpace(c: char) {
    ('\U{0009}' <= c <= '\U{000D}') || ('\U{001C}' <= c <= '\U{001F}') || c == ' '
    || c == '\U{0085}' || c == '\U{00A0}' || c == '\U{1680}' || ('\U{2000}' <= c <= '\U{200A}')
    || c == '\U{2028}' || c == '\U{2029}' || c == '\U{202F}' || c == '\U{205F}' || c == '\U{3000}'
  }

  /** JavaScript's WhiteSpace and LineTerminator characters: the `\s` class of a RegExp and `trim()`. */
  predicate IsJsSpace(c: char) {
    ('\U{0009}' <= c <= '\U{000D}') || c == ' ' || c == '\U{00A0}' || c == '\U{1680}'
    || ('\U{2000}' <= c <= '\U{200A}') || c == '\U{2028}' || c == '\U{2029}'
    || c == '\U{202F}' || c == '\U{205F}' || c == '\U{3000}' || c == '\U{FEFF}'
  }

  /** The characters a JavaScript RegExp `.` does not match without the `s` flag. */
  predicate IsJsLineTerminator(c: char) {
    c == '\n' || c == '\r' || c == '\U{2028}' || c == '\U{2029}'
  }

  predicate IsAsciiUpper(c: char) { 'A' <= c <= 'Z' }

  predicate IsAsciiLower(c: char) { 'a' <= c <= 'z' }

  predicate IsDigit(c: char) { '0' <= c <= '9' }

  /** The `\w` class of Python's `re`, restricted to ASCII: letters, digits and `_`. */
  predicate IsWordChar(c: char) {
    IsAsciiUpper(c) || IsAsciiLower(c) || IsDigit(c) || c == '_'
  }

  /** ASCII case mapping of `str.lower()` / `String.prototype.toLowerCase()`. */
  function LowerChar(c: char): (d: char)
    ensures !IsAsciiUpper(d)
    ensures IsAsciiUpper(c) || d == c
  {
    if IsAsciiUpper(c) then (c as int + 32) as char else c
  }

  function Lower(s: string): (r: string)
    ensures |r| == |s|
    ensures forall i :: 0 <= i < |s| ==> r[i] == LowerChar(s[i])
  {
    if s == [] then [] else [LowerChar(s[0])] + Lower(s[1..])
  }

  /** `s` with every character satisfying `drop` removed (`translate`, `re.sub` with an empty replacement). */
  function RemoveAll(s: string, drop: char -> bool): (r: string)
    ensures |r| <= |s|
    ensures forall c :: c in r <==> c in s && !drop(c)
  {
    if s == [] then []
    else if drop(s[0]) then RemoveAll(s[1..], drop)
    else [s[0]] + RemoveAll(s[1..], drop)
  }

  /** The number of leading characters of `s` that satisfy `sp`. */
  function Leading(s: string, sp: char -> bool): (n: nat)
    ensures n <= |s|
    ensures forall i :: 0 <= i < n ==> sp(s[i])
    ensures n == |s| || !sp(s[n])
  {
    if s != [] && sp(s[0]) then 1 + Leading(s[1..], sp) else 0
  }

  /** The leading characters counted by `Leading` all satisfy `sp`. */
  lemma {:induction false} LeadingRun(s: string, sp: char -> bool)
    ensures forall c :: c in s[..Leading(s, sp)] ==> sp(c)
    decreases |s|
  {
    if s != [] && sp(s[0]) {
      LeadingRun(s[1..], sp);
      assert s[..Leading(s, sp)] == [s[0]] + s[1..][..Leading(s[1..], sp)];
    }
  }

  /** The number of trailing characters of `s` that satisfy `sp`. */
  function Trailing(s: string, sp: char -> bool): (n: nat)
    ensures n <= |s|
    ensures forall i :: |s| - n <= i < |s| ==> sp(s[i])
    ensures n == |s| || !sp(s[|s| - n - 1])
  {
    if s != [] && sp(s[|s| - 1]) then 1 + Trailing(s[..|s| - 1], sp) else 0
  }

  /** `s` without its leading characters that satisfy `sp`. */
  function TrimStart(s: string, sp: char -> bool): string {
    s[Leading(s, sp)..]
  }

  /** `s` without its trailing characters that satisfy `sp`. */
  function TrimEnd(s: string, sp: char -> bool): string {
    s[..|s| - Trailing(s, sp)]
  }

  /** Both ends trimmed: no `sp` character at either end, and only characters of `s` inside. */
  function Trim(s: string, sp: char -> bool): (r: string)
    ensures r == [] || (!sp(r[0]) && !sp(r[|r| - 1]))
    ensures forall c :: c in r ==> c in s
  {
    var t := TrimStart(s, sp);
    var r := TrimEnd(t, sp);
    assert forall c :: c in r ==> c in t;
    assert forall c :: c in t ==> c in s;
    r
  }

  /** A string already without `sp` characters at either end is left unchanged by `Trim`. */
  lemma {:induction false} TrimIdempotent(s: string, sp: char -> bool)
    requires s == [] || (!sp(s[0]) && !sp(s[|s| - 1]))
    ensures Trim(s, sp) == s
  {
    assert TrimStart(s, sp) == s;
    assert TrimEnd(s, sp) == s;
  }

  /** Python's `str.strip()`. */
  function Strip(s: string): (r: string)
    ensures r == [] || (!IsPySpace(r[0]) && !IsPySpace(r[|r| - 1]))
    ensures forall c :: c in r ==> c in s
  {
    Trim(s, IsPySpace)
  }

  /** JavaScript's `String.prototype.trim()`. */
  function JsTrim(s: string): (r: string)
    ensures r == [] || (!IsJsSpace(r[0]) && !IsJsSpace(r[|r| - 1]))
    ensures forall c :: c in r ==> c in s
  {
    Trim(s, IsJsSpace)
  }

  /** Removing characters distributes over concatenation. */
  lemma {:induction false} RemoveAllConcat(a: string, b: string, drop: char -> bool)
    ensures RemoveAll(a + b, drop) == RemoveAll(a, drop) + RemoveAll(b, drop)
  {
    if a == [] {
      assert a + b == b;
    } else {
      assert (a + b)[0] == a[0];
      assert (a + b)[1..] == a[1..] + b;
      RemoveAllConcat(a[1..], b, drop);
    }
  }

  /** Dropping more afterwards subsumes dropping less first. */
  lemma {:induction false} RemoveAllNested(s: string, d1: char -> bool, d2: char -> bool)
    requires forall c :: d1(c) ==> d2(c)
    ensures RemoveAll(RemoveAll(s, d1), d2) == RemoveAll(s, d2)
  {
    if s != [] {
      RemoveAllNested(s[1..], d1, d2);
      assert s == [s[0]] + s[1..];
      RemoveAllConcat([s[0]], s[1..], d2);
      if !d1(s[0]) {
        RemoveAllConcat([s[0]], RemoveAll(s[1..], d1), d2);
      }
    }
  }

  /** A string with no character to drop is left as it is. */
  lemma {:induction false} RemoveAllKeepsAll(s: string, drop: char -> bool)
    requires forall c :: c in s ==> !drop(c)
    ensures RemoveAll(s, drop) == s
  {
    if s != [] {
      assert s[0] in s;
      assert forall c :: c in s[1..] ==> c in s;
      RemoveAllKeepsAll(s[1..], drop);
    }
  }

  /** A string made only of characters to drop vanishes. */
  lemma RemoveAllDropsAll(s: string, drop: char -> bool)
    requires forall c :: c in s ==> drop(c)
    ensures RemoveAll(s, drop) == []
  {
  }

  /**
   * Trimming removes only characters satisfying `sp`, and only at the ends:
   * the result is a slice of `s` with nothing but `sp` characters before
   * and after it.
   */
  lemma TrimSpec(s: string, sp: char -> bool)
    ensures exists i, j ::
      && 0 <= i <= j <= |s| && Trim(s, sp) == s[i..j]
      && (forall k :: 0 <= k < i ==> sp(s[k])) && (forall k :: j <= k < |s| ==> sp(s[k]))
  {
    var i := Leading(s, sp);
    var t := s[i..];
    var j := i + |t| - Trailing(t, sp);
    assert Trim(s, sp) == s[i..j];
    forall k | j <= k < |s| ensures sp(s[k]) {
      assert s[k] == t[k - i];
    }
  }

  /** `strip()` removes whitespace from the two ends and nothing else. */
  lemma StripSpec(s: string)
    ensures exists i, j ::
      && 0 <= i <= j <= |s| && Strip(s) == s[i..j]
      && (forall k :: 0 <= k < i ==> IsPySpace(s[k])) && (forall k :: j <= k < |s| ==> IsPySpace(s[k]))
  {
    TrimSpec(s, IsPySpace);
  }

  /** `trim()` removes JavaScript whitespace from the two ends and nothing else. */
  lemma JsTrimSpec(s: string)
    ensures exists i, j ::
      && 0 <= i <= j <= |s| && JsTrim(s) == s[i..j]
      && (forall k :: 0 <= k < i ==> IsJsSpace(s[k])) && (forall k :: j <= k < |s| ==> IsJsSpace(s[k]))
  {
    TrimSpec(s, IsJsSpace);
  }

  /** Characters that `drop` removes anyway are not missed when trimming `sp` characters first. */
  lemma TrimRemoveAll(s: string, sp: char -> bool, drop: char -> bool)
    requires forall c :: sp(c) ==> drop(c)
    ensures RemoveAll(Trim(s, sp), drop) == RemoveAll(s, drop)
  {
    TrimStartRemoveAll(s, sp, drop);
    TrimEndRemoveAll(TrimStart(s, sp), sp, drop);
  }

  lemma TrimStartRemoveAll(s: string, sp: char -> bool, drop: char -> bool)
    requires forall c :: sp(c) ==> drop(c)
    ensures RemoveAll(TrimStart(s, sp), drop) == RemoveAll(s, drop)
  {
    var n := Leading(s, sp);
    assert s == s[..n] + s[n..];
    RemoveAllConcat(s[..n], s[n..], drop);
    RemoveAllDropsAll(s[..n], drop);
  }

  lemma TrimEndRemoveAll(s: string, sp: char -> bool, drop: char -> bool)
    requires forall c :: sp(c) ==> drop(c)
    ensures RemoveAll(TrimEnd(s, sp), drop) == RemoveAll(s, drop)
  {
    var n := |s| - Trailing(s, sp);
    assert s == s[..n] + s[n..];
    RemoveAllConcat(s[..n], s[n..], drop);
    RemoveAllDropsAll(s[n..], drop);
  }

  /** The longest prefix of `s` in which no character satisfies `stop`. */
  function PrefixUntil(s: string, stop: char -> bool): (r: string)
    ensures |r| <= |s| && r == s[..|r|]
    ensures forall c :: c in r ==> !stop(c)
    ensures |r| == |s| || stop(s[|r|])
  {
    if s == [] || stop(s[0]) then [] else [s[0]] + PrefixUntil(s[1..], stop)
  }

  /** A string without a `stop` character is its own longest such prefix. */
  lemma {:induction false} PrefixUntilWhole(s: string, stop: char -> bool)
    requires forall c :: c in s ==> !stop(c)
    ensures PrefixUntil(s, stop) == s
  {
    if s != [] {
      assert s[0] in s;
      assert forall c :: c in s[1..] ==> c in s;
      PrefixUntilWhole(s[1..], stop);
    }
  }

  /** The prefix stops at the first `stop` character. */
  lemma {:induction false} PrefixUntilConcat(a: string, b: string, stop: char -> bool)
    requires forall c :: c in a ==> !stop(c)
    requires b != [] && stop(b[0])
    ensures PrefixUntil(a + b, stop) == a
  {
    if a == [] {
      assert a + b == b;
    } else {
      assert (a + b)[0] == a[0] && a[0] in a;
      assert (a + b)[1..] == a[1..] + b;
      assert forall c :: c in a[1..] ==> c in a;
      PrefixUntilConcat(a[1..], b, stop);
    }
  }

  /** Python's `str.split()` without arguments: the maximal runs of non-whitespace characters. */
  function Words(s: string): (ws: seq<string>)
    ensures forall w :: w in ws ==> w != [] && forall c :: c in w ==> !IsPySpace(c) && c in s
    decreases |s|
  {
    var t := TrimStart(s, IsPySpace);
    if t == [] then []
    else
      var w := PrefixUntil(t, IsPySpace);
      assert w != [];
      var rest := Words(t[|w|..]);
      WordsCons(s, Leading(s, IsPySpace), w, rest);
      [w] + rest
  }

  /** The first word and the words after it are words of `s`. */
  lemma WordsCons(s: string, n: nat, w: string, rest: seq<string>)
    requires n <= |s| && w != []
    requires |w| <= |s| - n && w == s[n..][..|w|] && forall c :: c in w ==> !IsPySpace(c)
    requires forall v :: v in rest ==> v != [] && forall c :: c in v ==> !IsPySpace(c) && c in s[n..][|w|..]
    ensures forall v :: v in [w] + rest ==> v != [] && forall c :: c in v ==> !IsPySpace(c) && c in s
  {
    assert forall c :: c in w ==> c in s;
    assert forall c :: c in s[n..][|w|..] ==> c in s;
  }

  /** The strings of `ws` one after the other. */
  function Concat(ws: seq<string>): string {
    if ws == [] then [] else ws[0] + Concat(ws[1..])
  }

  /**
   * The words of `s`, put back together, are exactly the non-whitespace
   * characters of `s` in their order: splitting loses only whitespace.
   */
  lemma {:induction false} WordsConcat(s: string)
    ensures Concat(Words(s)) == RemoveAll(s, IsPySpace)
    decreases |s|
  {
    var t := TrimStart(s, IsPySpace);
    TrimStartRemoveAll(s, IsPySpace, IsPySpace);
    WordsUnfold(s);
    if t != [] {
      var w := PrefixUntil(t, IsPySpace);
      var rest := t[|w|..];
      WordsConcat(rest);
      WordsConcatStep(t, w, rest);
      ConcatCons(w, Words(rest));
    }
  }

  /** One step of `Words`, with the first word non-empty. */
  lemma WordsUnfold(s: string)
    ensures var t := TrimStart(s, IsPySpace);
      && (t == [] ==> Words(s) == [])
      && (t != [] ==> PrefixUntil(t, IsPySpace) != []
                      && Words(s) == [PrefixUntil(t, IsPySpace)] + Words(t[|PrefixUntil(t, IsPySpace)|..]))
  {
  }

  lemma ConcatCons(w: string, ws: seq<string>)
    ensures Concat([w] + ws) == w + Concat(ws)
  {
    assert ([w] + ws)[1..] == ws;
  }

  lemma WordsConcatStep(t: string, w: string, rest: string)
    requires t == w + rest && forall c :: c in w ==> !IsPySpace(c)
    ensures RemoveAll(t, IsPySpace) == w + RemoveAll(rest, IsPySpace)
  {
    RemoveAllConcat(w, rest, IsPySpace);
    RemoveAllKeepsAll(w, IsPySpace);
  }

  /** The leading run of `a + x` stops inside `a` or runs through all of `a` into `x`. */
  lemma {:induction false} LeadingConcat(a: string, x: string, sp: char -> bool)
    ensures Leading(a + x, sp) == if Leading(a, sp) < |a| then Leading(a, sp) else |a| + Leading(x, sp)
  {
    if a == [] {
      assert a + x == x;
    } else {
      assert (a + x)[0] == a[0];
      assert (a + x)[1..] == a[1..] + x;
      LeadingConcat(a[1..], x, sp);
    }
  }

  lemma TrimStartConcat(a: string, x: string, sp: char -> bool)
    ensures TrimStart(a + x, sp) == if TrimStart(a, sp) != [] then TrimStart(a, sp) + x else TrimStart(x, sp)
  {
    LeadingConcat(a, x, sp);
    var n := Leading(a, sp);
    if n < |a| {
      assert (a + x)[n..] == a[n..] + x;
    } else {
      assert (a + x)[|a| + Leading(x, sp)..] == x[Leading(x, sp)..];
    }
  }

  /** `Words` looks only at what is left after the leading whitespace. */
  lemma WordsSameStart(x: string, y: string)
    requires TrimStart(x, IsPySpace) == TrimStart(y, IsPySpace)
    ensures Words(x) == Words(y)
  {
    WordsUnfold(x);
    WordsUnfold(y);
  }

  /** A non-empty string without whitespace is one word. */
  lemma WordsSingle(w: string)
    requires w != [] && forall c :: c in w ==> !IsPySpace(c)
    ensures Words(w) == [w]
  {
    assert TrimStart(w, IsPySpace) == w;
    PrefixUntilWhole(w, IsPySpace);
    WordsUnfold(w);
    assert w[|w|..] == [];
    WordsUnfold([]);
  }

  /** Whitespace alone holds no word, and leading whitespace changes no word. */
  lemma WordsSpaces(sp: string, x: string)
    requires forall c :: c in sp ==> IsPySpace(c)
    ensures Words(sp + x) == Words(x)
  {
    LeadingAll(sp, IsPySpace);
    TrimStartConcat(sp, x, IsPySpace);
    WordsSameStart(sp + x, x);
  }

  lemma {:induction false} LeadingAll(s: string, sp: char -> bool)
    requires forall c :: c in s ==> sp(c)
    ensures Leading(s, sp) == |s|
  {
    if s != [] {
      assert s[0] in s;
      assert forall c :: c in s[1..] ==> c in s;
      LeadingAll(s[1..], sp);
    }
  }

  /**
   * Every whitespace character separates words: the words of `a`, a
   * whitespace character and `b` are the words of `a` followed by those of
   * `b`.
   */
  lemma {:induction false} WordsSplit(a: string, c: char, b: string)
    requires IsPySpace(c)
    ensures Words(a + [c] + b) == Words(a) + Words(b)
    decreases |a|
  {
    if TrimStart(a, IsPySpace) == [] {
      WordsSplitBlank(a, c, b);
    } else {
      var w, r := FirstWord(a);
      WordsSplit(r, c, b);
      WordsSplitStep(a, c, b, w, r);
    }
  }

  /** What follows the leading whitespace: a first word `w`, then `r`, empty or starting with whitespace. */
  lemma FirstWord(a: string) returns (w: string, r: string)
    requires TrimStart(a, IsPySpace) != []
    ensures TrimStart(a, IsPySpace) == w + r && |r| < |a|
    ensures w != [] && forall x :: x in w ==> !IsPySpace(x)
    ensures r == [] || IsPySpace(r[0])
  {
    var t := TrimStart(a, IsPySpace);
    w := PrefixUntil(t, IsPySpace);
    r := t[|w|..];
    assert t == w + r;
    assert w != [] by { assert !IsPySpace(t[0]); }
  }

  lemma WordsSplitBlank(a: string, c: char, b: string)
    requires IsPySpace(c) && TrimStart(a, IsPySpace) == []
    ensures Words(a + [c] + b) == Words(b) && Words(a) == []
  {
    assert a + [c] + b == a + ([c] + b);
    TrimStartConcat(a, [c] + b, IsPySpace);
    LeadingAll([c], IsPySpace);
    TrimStartConcat([c], b, IsPySpace);
    WordsSameStart(a + [c] + b, b);
    WordsUnfold(a);
  }

  /** The first word `w` of `a` is the first word of `a + [c] + b`, and the rest `r` splits at `c`. */
  lemma WordsSplitStep(a: string, c: char, b: string, w: string, r: string)
    requires IsPySpace(c) && TrimStart(a, IsPySpace) == w + r
    requires w != [] && forall x :: x in w ==> !IsPySpace(x)
    requires r == [] || IsPySpace(r[0])
    requires Words(r + [c] + b) == Words(r) + Words(b)
    ensures Words(a + [c] + b) == Words(a) + Words(b)
  {
    var u := r + [c] + b;
    TrimStartInsert(a, c, b, w, r);
    assert u == [] || IsPySpace(u[0]) by {
      assert u[0] == if r == [] then c else r[0];
    }
    WordsFirst(a + [c] + b, w, u);
    WordsFirst(a, w, r);
    ConsAssoc(Words(a + [c] + b), Words(a), Words(u), Words(r), Words(b), w);
  }

  lemma AppendCons<T>(w: seq<T>, h: T, t: seq<T>)
    ensures w + ([h] + t) == w + [h] + t
  {
  }

  /** What follows the leading whitespace of `a` keeps what is appended to `a`. */
  lemma TrimStartInsert(a: string, c: char, b: string, w: string, r: string)
    requires TrimStart(a, IsPySpace) == w + r && w != []
    ensures TrimStart(a + [c] + b, IsPySpace) == w + (r + [c] + b)
  {
    Regroup(a, c, b, w, r);
    TrimStartConcat(a, [c] + b, IsPySpace);
  }

  lemma Regroup<T>(a: seq<T>, c: T, b: seq<T>, w: seq<T>, r: seq<T>)
    ensures a + [c] + b == a + ([c] + b)
    ensures w + r + ([c] + b) == w + (r + [c] + b)
  {
  }

  /** `[w] + (r + b) == ([w] + r) + b`, stated apart so the equalities are not solved next to `Words`. */
  lemma ConsAssoc<T>(x: seq<T>, a: seq<T>, y: seq<T>, r: seq<T>, b: seq<T>, w: T)
    requires y == r + b && x == [w] + y && a == [w] + r
    ensures x == a + b
  {
  }

  /** When what follows the leading whitespace is a word `w` and then `u`, the words are `w` and those of `u`. */
  lemma WordsFirst(s: string, w: string, u: string)
    requires TrimStart(s, IsPySpace) == w + u
    requires w != [] && forall c :: c in w ==> !IsPySpace(c)
    requires u == [] || IsPySpace(u[0])
    ensures Words(s) == [w] + Words(u)
  {
    if u == [] {
      assert w + u == w;
      PrefixUntilWhole(w, IsPySpace);
    } else {
      PrefixUntilConcat(w, u, IsPySpace);
    }
    WordsUnfold(s);
    assert (w + u)[|w|..] == u;
  }

  /** The maximal runs of consecutive characters satisfying `inRun`, left to right. */
  function Runs(s: string, inRun: char -> bool): (rs: seq<string>)
    ensures forall w :: w in rs ==> w != [] && forall c :: c in w ==> inRun(c) && c in s
    decreases |s|
  {
    if s == [] then []
    else
      var n := Leading(s, inRun);
      if n == 0 then
        var rest := Runs(s[1..], inRun);
        assert forall w, c :: w in rest && c in w ==> c in s[1..];
        rest
      else
        assert forall c :: c in s[..n] ==> inRun(c) && c in s;
        var rest := Runs(s[n..], inRun);
        assert forall w, c :: w in rest && c in w ==> c in s[n..];
        [s[..n]] + rest
  }

  /**
   * `s[i..j]` is the first run of `inRun` characters of `s`: nothing before
   * `i` is in a run, and the run cannot be extended past `j`.
   */
  predicate FirstRun(s: string, inRun: char -> bool, i: int, j: int) {
    && 0 <= i < j <= |s|
    && (forall k :: 0 <= k < i ==> !inRun(s[k]))
    && (forall k :: i <= k < j ==> inRun(s[k]))
    && (j == |s| || !inRun(s[j]))
  }

  /** One step of `Runs`. */
  lemma RunsUnfold(s: string, inRun: char -> bool)
    requires s != []
    ensures var n := Leading(s, inRun);
      && (n == 0 ==> Runs(s, inRun) == Runs(s[1..], inRun))
      && (n > 0 ==> Runs(s, inRun) == [s[..n]] + Runs(s[n..], inRun))
  {
  }

  /**
   * Every character outside the class separates runs: the runs of `a`, such
   * a character and `b` are the runs of `a` followed by those of `b`.
   */
  lemma {:induction false} RunsSplit(a: string, c: char, b: string, inRun: char -> bool)
    requires !inRun(c)
    ensures Runs(a + [c] + b, inRun) == Runs(a, inRun) + Runs(b, inRun)
    decreases |a|
  {
    if a == [] {
      assert a + [c] + b == [c] + b;
      RunsSplitEmpty(c, b, inRun);
      assert Runs(a, inRun) + Runs(b, inRun) == Runs(b, inRun);
    } else {
      var n := Leading(a, inRun);
      var m := if n == 0 then 1 else n;
      RunsSplit(a[m..], c, b, inRun);
      RunsSplitStep(a, c, b, inRun);
    }
  }

  /** A leading character outside the class adds no run. */
  lemma RunsSplitEmpty(c: char, b: string, inRun: char -> bool)
    requires !inRun(c)
    ensures Runs([c] + b, inRun) == Runs(b, inRun)
  {
    assert ([c] + b)[1..] == b;
    RunsUnfold([c] + b, inRun);
  }

  /** The first step of `Runs` on `a` is the first step on `a + [c] + b`, and the rest splits at `c`. */
  lemma RunsSplitStep(a: string, c: char, b: string, inRun: char -> bool)
    requires a != [] && !inRun(c)
    requires var n := Leading(a, inRun); var m := if n == 0 then 1 else n;
      Runs(a[m..] + [c] + b, inRun) == Runs(a[m..], inRun) + Runs(b, inRun)
    ensures Runs(a + [c] + b, inRun) == Runs(a, inRun) + Runs(b, inRun)
  {
    var s := a + [c] + b;
    var n := Leading(a, inRun);
    var m := if n == 0 then 1 else n;
    LeadingInsert(a, c, b, inRun);
    RunsUnfold(s, inRun);
    RunsUnfold(a, inRun);
    if n > 0 {
      ConsAssoc(Runs(s, inRun), Runs(a, inRun), Runs(s[m..], inRun), Runs(a[m..], inRun), Runs(b, inRun), a[..n]);
    }
  }

  /** A character outside the class after `a` leaves the leading run of `a` as it is. */
  lemma LeadingInsert(a: string, c: char, b: string, inRun: char -> bool)
    requires a != [] && !inRun(c)
    ensures var n := Leading(a, inRun); var m := if n == 0 then 1 else n;
      && Leading(a + [c] + b, inRun) == n
      && (a + [c] + b)[..n] == a[..n]
      && (a + [c] + b)[m..] == a[m..] + [c] + b
  {
    assert a + [c] + b == a + ([c] + b);
    LeadingConcat(a, [c] + b, inRun);
  }

  /** A non-empty string made only of class characters is one run, itself. */
  lemma RunsSingle(w: string, inRun: char -> bool)
    requires w != [] && forall c :: c in w ==> inRun(c)
    ensures Runs(w, inRun) == [w]
  {
    LeadingAll(w, inRun);
    RunsUnfold(w, inRun);
    assert w[..|w|] == w && w[|w|..] == [];
  }

  /** The first of the runs is the first run of `s`. */
  lemma {:induction false} RunsFirst(s: string, inRun: char -> bool)
    requires exists k :: 0 <= k < |s| && inRun(s[k])
    ensures Runs(s, inRun) != []
    ensures exists i, j :: FirstRun(s, inRun, i, j) && Runs(s, inRun)[0] == s[i..j]
    decreases |s|
  {
    var n := Leading(s, inRun);
    RunsUnfold(s, inRun);
    if n == 0 {
      var k :| 0 <= k < |s| && inRun(s[k]);
      assert s[1..][k - 1] == s[k];
      RunsFirst(s[1..], inRun);
      var i, j :| FirstRun(s[1..], inRun, i, j) && Runs(s[1..], inRun)[0] == s[1..][i..j];
      FirstRunShift(s, inRun, i, j);
    } else {
      assert FirstRun(s, inRun, 0, n);
    }
  }

  /** A first run of `s[1..]` is, one place further on, the first run of `s` when `s[0]` is outside. */
  lemma FirstRunShift(s: string, inRun: char -> bool, i: int, j: int)
    requires s != [] && !inRun(s[0])
    requires FirstRun(s[1..], inRun, i, j)
    ensures FirstRun(s, inRun, i + 1, j + 1)
    ensures s[1..][i..j] == s[i + 1..j + 1]
  {
    forall k | 0 <= k < i + 1
      ensures !inRun(s[k])
    {
      if k > 0 { assert s[k] == s[1..][k - 1]; }
    }
  }

  /** `sep.join(ws)` / `ws.join(sep)`. */
  function Join(ws: seq<string>, sep: string): (r: string)
    ensures forall c :: c in r ==> c in sep || exists w :: w in ws && c in w
  {
    if ws == [] then []
    else if |ws| == 1 then ws[0]
    else ws[0] + sep + Join(ws[1..], sep)
  }

  lemma JoinCons(head: string, tail: seq<string>, sep: string)
    requires tail != []
    ensures Join([head] + tail, sep) == head + sep + Join(tail, sep)
  {
    assert ([head] + tail)[1..] == tail;
  }

  lemma JoinEmpty(ws: seq<string>, sep: string)
    requires forall w :: w in ws ==> w != []
    ensures Join(ws, sep) == [] <==> ws == []
  {
    if ws != [] {
      assert ws[0] in ws;
      assert |Join(ws, sep)| >= |ws[0]|;
    }
  }

  /** `sub` occurs in `s` at position `i`. */
  predicate OccursAt(s: string, sub: string, i: nat) {
    i + |sub| <= |s| && s[i..i + |sub|] == sub
  }

  /** The first position at which `sub` occurs in `s` (`indexOf`, `find`). */
  function IndexOf(s: string, sub: string): (r: Option<nat>)
    ensures r.Some? ==> OccursAt(s, sub, r.value) && forall j :: 0 <= j < r.value ==> !OccursAt(s, sub, j)
    ensures r.None? ==> forall j :: 0 <= j <= |s| ==> !OccursAt(s, sub, j)
    decreases |s|
  {
    if |sub| > |s| then None
    else if s[..|sub|] == sub then Some(0)
    else
      OccursShiftAll(s, sub);
      match IndexOf(s[1..], sub)
      case None => None
      case Some(k) => Some(k + 1)
  }

  /** An occurrence after the first character is an occurrence in the rest. */
  lemma OccursShiftAll(s: string, sub: string)
    requires s != []
    ensures forall j :: 1 <= j <= |s| ==> (OccursAt(s, sub, j) <==> OccursAt(s[1..], sub, j - 1))
  {
    forall j | 1 <= j <= |s| ensures OccursAt(s, sub, j) <==> OccursAt(s[1..], sub, j - 1) {
      if j + |sub| <= |s| {
        assert s[1..][j - 1..j - 1 + |sub|] == s[j..j + |sub|];
      }
    }
  }

  /** An occurrence in a prefix is an occurrence in the whole string. */
  lemma OccursInPrefix(s: string, sub: string, n: nat)
    requires n <= |s|
    ensures forall j :: 0 <= j <= n ==> (OccursAt(s[..n], sub, j) ==> OccursAt(s, sub, j))
  {
    forall j | 0 <= j <= n && OccursAt(s[..n], sub, j) ensures OccursAt(s, sub, j) {
      assert s[..n][j..j + |sub|] == s[j..j + |sub|];
    }
  }

  /** `s.includes(sub)` / Python's `sub in s`. */
  predicate Contains(s: string, sub: string) {
    IndexOf(s, sub).Some?
  }

  lemma ContainsAt(s: string, sub: string, i: nat)
    requires OccursAt(s, sub, i)
    ensures Contains(s, sub)
  {
  }

  /** JavaScript's `s.split(sep)` for a non-empty string separator. */
  function SplitOn(s: string, sep: string): (chunks: seq<string>)
    requires sep != []
    ensures |chunks| >= 1
    ensures forall c :: c in chunks ==> !Contains(c, sep)
    decreases |s|
  {
    match IndexOf(s, sep)
    case None => [s]
    case Some(i) =>
      var head := s[..i];
      OccursInPrefix(s, sep, i);
      [head] + SplitOn(s[i + |sep|..], sep)
  }

  /** Joining the pieces of `SplitOn` with the separator gives back the original string. */
  lemma {:induction false} SplitOnJoin(s: string, sep: string)
    requires sep != []
    ensures Join(SplitOn(s, sep), sep) == s
    decreases |s|
  {
    match IndexOf(s, sep)
    case None =>
    case Some(i) =>
      var rest := s[i + |sep|..];
      var tail := SplitOn(rest, sep);
      SplitOnJoin(rest, sep);
      SplitOnUnfold(s, sep, i);
      JoinCons(s[..i], tail, sep);
      assert s == s[..i] + s[i..i + |sep|] + rest;
  }

  lemma SplitOnUnfold(s: string, sep: string, i: nat)
    requires sep != [] && IndexOf(s, sep) == Some(i)
    ensures SplitOn(s, sep) == [s[..i]] + SplitOn(s[i + |sep|..], sep)
    ensures s[i..i + |sep|] == sep
  {
  }

  /** The decimal numeral of a natural number. */
  function NatToString(n: nat): (r: string)
    ensures r != [] && forall c :: c in r ==> IsDigit(c)
  {
    var d := ['0' + (n % 10) as char];
    if n < 10 then d else NatToString(n / 10) + d
  }

  /** JavaScript's conversion of an integer to a string, as in a template literal. */
  function IntToString(n: int): (r: string)
    ensures r != []
    ensures n >= 0 <==> r[0] != '-'
  {
    if n >= 0 then
      var r := NatToString(n);
      assert r[0] in r;
      r
    else "-" + NatToString(-n)
  }
}
