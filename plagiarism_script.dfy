/**
 * The stand-alone plagiarism script: text cleaning, the token-length filter,
 * the selection of files with enough text (remembering their original
 * positions), and the pair loop that reports only the pairs at or above the
 * threshold, under the files' original indices. The TF-IDF cosine
 * similarity matrix is an uninterpreted parameter.
 */
module PlagiarismScript {
  import opened Wrappers
  import opened Strings
  import opened Seqs
  import opened Pairs

  /** The threshold, in percent, used when the input does not give one. */
  const DefaultThreshold: real := 75.0

  function Threshold(given: Option<real>): real {
    if given.Some? then given.value else DefaultThreshold
  }

  /** What `[^\w\s]` matches. */
  predicate IsNeitherWordNorSpace(c: char) {
    !IsWordChar(c) && !IsPySpace(c)
  }

  /** `re.sub(r'\s+', ' ', s)`: every maximal run of whitespace becomes one space. */
  function CollapseSpace(s: string): string
    decreases |s|
  {
    if s == [] then []
    else if IsPySpace(s[0]) then [' '] + CollapseSpace(s[Leading(s, IsPySpace)..])
    else [s[0]] + CollapseSpace(s[1..])
  }

  /**
   * After collapsing, a character is either a space or a non-whitespace
   * character of the input, no space follows a space, and the
   * non-whitespace characters of the input are all there, in their order.
   * The spaces stand where the whitespace runs stood: the words are the
   * same, and the result starts (ends) with a space exactly when the input
   * starts (ends) with whitespace.
   */
  lemma CollapseSpaceSpec(s: string)
    ensures var r := CollapseSpace(s);
      && (forall c :: c in r ==> c == ' ' || (c in s && !IsPySpace(c)))
      && (forall k :: 0 <= k < |r| - 1 && r[k] == ' ' ==> r[k + 1] != ' ')
      && RemoveAll(r, IsPySpace) == RemoveAll(s, IsPySpace)
      && Words(r) == Words(s)
      && (r == [] <==> s == [])
      && (s != [] ==> (r[0] == ' ' <==> IsPySpace(s[0])))
      && (s != [] ==> (r[|r| - 1] == ' ' <==> IsPySpace(s[|s| - 1])))
  {
    CollapseSpaceShape(s);
    CollapseRemoveAll(s, IsPySpace);
    WordsCollapse(s);
    CollapseSpaceEnds(s);
  }

  /** Collapsing leaves a stretch without whitespace as it is. */
  lemma {:induction false} CollapseNonSpace(w: string, x: string)
    requires forall c :: c in w ==> !IsPySpace(c)
    ensures CollapseSpace(w + x) == w + CollapseSpace(x)
    decreases |w|
  {
    if w != [] {
      assert w[0] in w;
      assert (w + x)[0] == w[0];
      assert (w + x)[1..] == w[1..] + x;
      assert forall c :: c in w[1..] ==> c in w;
      CollapseNonSpace(w[1..], x);
      assert CollapseSpace(w + x) == [w[0]] + CollapseSpace(w[1..] + x);
      assert [w[0]] + (w[1..] + CollapseSpace(x)) == ([w[0]] + w[1..]) + CollapseSpace(x);
      assert w == [w[0]] + w[1..];
    } else {
      assert w + x == x;
    }
  }

  /** Collapsing whitespace runs keeps the words of the text. */
  lemma {:induction false} WordsCollapse(s: string)
    ensures Words(CollapseSpace(s)) == Words(s)
    decreases |s|
  {
    var w := PrefixUntil(s, IsPySpace);
    var rest := s[|w|..];
    assert s == w + rest;
    CollapseNonSpace(w, rest);
    if rest == [] {
      assert CollapseSpace(rest) == [];
      assert w + [] == w;
    } else {
      var n := Leading(rest, IsPySpace);
      var tail := rest[n..];
      WordsCollapse(tail);
      WordsCollapseStep(w, rest, n);
    }
  }

  /** One word, one whitespace run, and the words after it. */
  lemma WordsCollapseStep(w: string, rest: string, n: nat)
    requires forall c :: c in w ==> !IsPySpace(c)
    requires rest != [] && IsPySpace(rest[0]) && n == Leading(rest, IsPySpace)
    requires CollapseSpace(w + rest) == w + CollapseSpace(rest)
    requires Words(CollapseSpace(rest[n..])) == Words(rest[n..])
    ensures Words(CollapseSpace(w + rest)) == Words(w + rest)
  {
    var tail := rest[n..];
    var ct := CollapseSpace(tail);
    CollapseRun(rest, n);
    AppendCons(w, ' ', ct);
    WordsSplit(w, ' ', ct);
    AppendCons(w, rest[0], rest[1..n] + tail);
    WordsSplit(w, rest[0], rest[1..n] + tail);
    WordsSpaces(rest[1..n], tail);
  }

  /** A whitespace run at the front collapses to one space; the rest of the run is all whitespace. */
  lemma CollapseRun(rest: string, n: nat)
    requires rest != [] && IsPySpace(rest[0]) && n == Leading(rest, IsPySpace)
    ensures CollapseSpace(rest) == [' '] + CollapseSpace(rest[n..])
    ensures rest == [rest[0]] + (rest[1..n] + rest[n..])
    ensures forall c :: c in rest[1..n] ==> IsPySpace(c)
  {
    RunParts(rest, n, IsPySpace);
  }

  /** A run counted by `Leading`, split after its first character. */
  lemma RunParts(rest: string, n: nat, sp: char -> bool)
    requires rest != [] && n == Leading(rest, sp) && n > 0
    ensures rest == [rest[0]] + (rest[1..n] + rest[n..])
    ensures forall c :: c in rest[1..n] ==> sp(c)
  {
    SplitAfterFirst(rest, n);
    RunTail(rest, n, sp);
  }

  lemma SplitAfterFirst(s: string, n: nat)
    requires 1 <= n <= |s|
    ensures s == [s[0]] + (s[1..n] + s[n..])
  {
    assert s == s[..1] + s[1..n] + s[n..];
  }

  lemma RunTail(rest: string, n: nat, sp: char -> bool)
    requires rest != [] && n == Leading(rest, sp) && n > 0
    ensures forall c :: c in rest[1..n] ==> sp(c)
  {
    LeadingRun(rest[1..], sp);
    assert rest[1..n] == rest[1..][..n - 1];
  }

  /** The collapsed text is empty, starts and ends with a space exactly when the input is empty, starts and ends with whitespace. */
  lemma {:induction false} CollapseSpaceEnds(s: string)
    ensures var r := CollapseSpace(s);
      && (r == [] <==> s == [])
      && (s != [] ==> (r[0] == ' ' <==> IsPySpace(s[0])))
      && (s != [] ==> (r[|r| - 1] == ' ' <==> IsPySpace(s[|s| - 1])))
    decreases |s|
  {
    if s != [] {
      assert IsPySpace(' ');
      var n := if IsPySpace(s[0]) then Leading(s, IsPySpace) else 1;
      var tail := s[n..];
      var head := if IsPySpace(s[0]) then [' '] else [s[0]];
      assert CollapseSpace(s) == head + CollapseSpace(tail);
      CollapseSpaceEnds(tail);
      if tail != [] {
        assert tail[|tail| - 1] == s[|s| - 1];
      }
    }
  }

  /** The characters and single spaces of a collapsed string. */
  lemma {:induction false} CollapseSpaceShape(s: string)
    ensures var r := CollapseSpace(s);
      && (forall c :: c in r ==> c == ' ' || (c in s && !IsPySpace(c)))
      && (forall k :: 0 <= k < |r| - 1 && r[k] == ' ' ==> r[k + 1] != ' ')
    decreases |s|
  {
    if s != [] {
      var rest := if IsPySpace(s[0]) then s[Leading(s, IsPySpace)..] else s[1..];
      CollapseSpaceShape(rest);
      var t := CollapseSpace(rest);
      assert forall c :: c in rest ==> c in s;
      if IsPySpace(s[0]) {
        assert CollapseSpace(s) == [' '] + t;
        if t != [] {
          CollapseStartsWith(rest);
        }
      } else {
        assert CollapseSpace(s) == [s[0]] + t;
      }
    }
  }

  /**
   * Collapsing changes only whitespace: with everything `drop` removes
   * taken out (whitespace and the space among it), a string and its
   * collapsed form are the same.
   */
  lemma {:induction false} CollapseRemoveAll(s: string, drop: char -> bool)
    requires drop(' ') && forall c :: IsPySpace(c) ==> drop(c)
    ensures RemoveAll(CollapseSpace(s), drop) == RemoveAll(s, drop)
    decreases |s|
  {
    if s != [] {
      var n := if IsPySpace(s[0]) then Leading(s, IsPySpace) else 1;
      var rest := s[n..];
      CollapseRemoveAll(rest, drop);
      assert s == s[..n] + rest;
      RemoveAllConcat(s[..n], rest, drop);
      var head := if IsPySpace(s[0]) then [' '] else [s[0]];
      assert CollapseSpace(s) == head + CollapseSpace(rest);
      RemoveAllConcat(head, CollapseSpace(rest), drop);
      if IsPySpace(s[0]) {
        RemoveAllDropsAll(s[..n], drop);
        RemoveAllDropsAll(head, drop);
      } else {
        assert s[..n] == head;
      }
    }
  }

  /** A string that does not start with whitespace keeps its first character. */
  lemma CollapseStartsWith(s: string)
    requires s != [] && !IsPySpace(s[0])
    ensures CollapseSpace(s) != [] && CollapseSpace(s)[0] == s[0]
  {
  }

  /**
   * `clean_text`: lower-case, collapse whitespace runs, drop everything that
   * is neither a word character nor whitespace, strip the ends.
   */
  function CleanText(text: string): string {
    Strip(RemoveAll(CollapseSpace(Lower(text)), IsNeitherWordNorSpace))
  }

  /**
   * The cleaned text is lower-case and holds only word characters and
   * spaces (every other kind of whitespace was collapsed to a space first;
   * a run of two spaces remains where punctuation stood between them, as in
   * "a . b"), has no space at either end, and keeps every word character of
   * the lower-cased text, in order.
   */
  lemma CleanTextSpec(text: string)
    ensures var r := CleanText(text);
      && (forall c :: c in r ==> (IsWordChar(c) || c == ' ') && !IsAsciiUpper(c))
      && (r == [] || (r[0] != ' ' && r[|r| - 1] != ' '))
      && RemoveAll(r, IsNotWordChar) == RemoveAll(Lower(text), IsNotWordChar)
  {
    CleanTextShape(text);
    CleanTextKeepsWords(text);
  }

  predicate IsNotWordChar(c: char) {
    !IsWordChar(c)
  }

  /** Cleaning removes no word character and reorders nothing. */
  lemma CleanTextKeepsWords(text: string)
    ensures RemoveAll(CleanText(text), IsNotWordChar) == RemoveAll(Lower(text), IsNotWordChar)
  {
    var lower := Lower(text);
    var collapsed := CollapseSpace(lower);
    var kept := RemoveAll(collapsed, IsNeitherWordNorSpace);
    TrimRemoveAll(kept, IsPySpace, IsNotWordChar);
    RemoveAllNested(collapsed, IsNeitherWordNorSpace, IsNotWordChar);
    CollapseRemoveAll(lower, IsNotWordChar);
  }

  /** The characters and the ends of a cleaned text. */
  lemma CleanTextShape(text: string)
    ensures var r := CleanText(text);
      && (forall c :: c in r ==> (IsWordChar(c) || c == ' ') && !IsAsciiUpper(c))
      && (r == [] || (r[0] != ' ' && r[|r| - 1] != ' '))
  {
    var lower := Lower(text);
    CollapseSpaceShape(lower);
    var collapsed := CollapseSpace(lower);
    forall c | c in lower ensures !IsAsciiUpper(c) {
      var i :| 0 <= i < |lower| && lower[i] == c;
    }
    var kept := RemoveAll(collapsed, IsNeitherWordNorSpace);
    forall c | c in kept ensures (IsWordChar(c) || c == ' ') && !IsAsciiUpper(c) {
      assert c in collapsed && !IsNeitherWordNorSpace(c);
    }
  }

  predicate IsLongToken(t: string) {
    |t| > 2
  }

  /** `tokenize`, applied to the tokens the tokenizer produced: only tokens longer than two characters. */
  function Tokenize(tokens: seq<string>): seq<string> {
    Filter(IsLongToken, tokens)
  }

  /**
   * A token is kept exactly when it is longer than two characters, and the
   * kept tokens of a concatenation are the kept tokens of each part in turn,
   * so their order is the original order.
   */
  lemma TokenizeSpec(a: seq<string>, b: seq<string>)
    ensures forall t :: t in Tokenize(a) <==> t in a && |t| > 2
    ensures Tokenize(a + b) == Tokenize(a) + Tokenize(b)
  {
    FilterConcat(IsLongToken, a, b);
  }

  /** A page's text, `page.extract_text() or ""`. */
  function PageText(page: Option<string>): string {
    if page.Some? then page.value else ""
  }

  /** The pages of one document joined by spaces. */
  function JoinPages(pages: seq<Option<string>>): string {
    Join(Map(PageText, pages), " ")
  }

  /**
   * `extract_text`: the cleaned text of the joined pages, or the empty text
   * when the file cannot be opened or read as a PDF (`None`).
   */
  function ExtractText(pdf: Option<seq<Option<string>>>): string {
    if pdf.None? then "" else CleanText(JoinPages(pdf.value))
  }

  /** The words of each page, page after page. */
  function PageWords(pages: seq<Option<string>>): seq<string> {
    if pages == [] then [] else Words(PageText(pages[0])) + PageWords(pages[1..])
  }

  /**
   * The space between two pages separates their words: the words of the
   * joined text are the words of the pages, in page order, none of them
   * glued to a word of the next page (an unreadable page adds none).
   */
  lemma {:induction false} JoinPagesWords(pages: seq<Option<string>>)
    ensures Words(JoinPages(pages)) == PageWords(pages)
    decreases |pages|
  {
    if pages == [] {
      assert JoinPages(pages) == [];
      WordsUnfold([]);
    } else if |pages| == 1 {
      assert Map(PageText, pages) == [PageText(pages[0])];
      assert PageWords(pages) == Words(PageText(pages[0])) + [];
    } else {
      var head := PageText(pages[0]);
      assert Map(PageText, pages) == [head] + Map(PageText, pages[1..]);
      JoinCons(head, Map(PageText, pages[1..]), " ");
      assert JoinPages(pages) == head + [' '] + JoinPages(pages[1..]);
      WordsSplit(head, ' ', JoinPages(pages[1..]));
      JoinPagesWords(pages[1..]);
    }
  }

  /**
   * An unreadable file gives the empty text; a readable one gives the
   * cleaned text of its joined pages: lower-case word characters and
   * spaces, no space at either end, and every word character of the pages
   * in order.
   */
  lemma ExtractTextSpec(pdf: Option<seq<Option<string>>>)
    ensures pdf.None? ==> ExtractText(pdf) == []
    ensures pdf.Some? ==> var r := ExtractText(pdf);
      && (forall c :: c in r ==> (IsWordChar(c) || c == ' ') && !IsAsciiUpper(c))
      && (r == [] || (r[0] != ' ' && r[|r| - 1] != ' '))
      && RemoveAll(r, IsNotWordChar) == RemoveAll(Lower(JoinPages(pdf.value)), IsNotWordChar)
  {
    if pdf.Some? {
      CleanTextSpec(JoinPages(pdf.value));
    }
  }

  /**
   * A file takes part exactly when it could be read and its cleaned text
   * is longer than 100 characters; an unreadable file never does.
   */
  lemma ExtractedSelection(pdfs: seq<Option<seq<Option<string>>>>, i: nat)
    requires i < |pdfs|
    ensures var valid := ValidIndices(Map(ExtractText, pdfs));
      && (i in valid <==> pdfs[i].Some? && |ExtractText(pdfs[i])| > 100)
      && (pdfs[i].None? ==> i !in valid)
  {
    SelectionMembers(Map(ExtractText, pdfs));
  }

  /** A file takes part in the comparison when its text is non-empty and longer than 100 characters. */
  predicate IsSubstantial(text: string) {
    text != [] && |text| > 100
  }

  /** The original positions of the files that take part, in order. */
  function ValidIndices(texts: seq<string>): seq<nat> {
    if texts == [] then []
    else
      var init := ValidIndices(texts[..|texts| - 1]);
      if IsSubstantial(texts[|texts| - 1]) then init + [|texts| - 1] else init
  }

  /** The texts of the files that take part, in order. */
  function KeptTexts(texts: seq<string>): seq<string> {
    if texts == [] then []
    else
      var init := KeptTexts(texts[..|texts| - 1]);
      if IsSubstantial(texts[|texts| - 1]) then init + [texts[|texts| - 1]] else init
  }

  /**
   * `valid_indices` holds exactly the positions of the substantial texts, in
   * strictly increasing order, and the kept texts are the texts at those
   * positions. An unreadable file (empty text) is simply not among them.
   */
  lemma SelectionSpec(texts: seq<string>)
    ensures var valid := ValidIndices(texts); var kept := KeptTexts(texts);
      && |kept| == |valid|
      && (forall k :: 0 <= k < |valid| ==> valid[k] < |texts| && kept[k] == texts[valid[k]])
      && (forall a, b :: 0 <= a < b < |valid| ==> valid[a] < valid[b])
      && (forall i :: 0 <= i < |texts| ==> (i in valid <==> IsSubstantial(texts[i])))
  {
    SelectionShape(texts);
    SelectionMembers(texts);
  }

  /** The kept texts are the texts at the valid positions, which increase strictly. */
  lemma {:induction false} SelectionShape(texts: seq<string>)
    ensures var valid := ValidIndices(texts); var kept := KeptTexts(texts);
      && |kept| == |valid|
      && (forall k :: 0 <= k < |valid| ==> valid[k] < |texts| && kept[k] == texts[valid[k]])
      && (forall a, b :: 0 <= a < b < |valid| ==> valid[a] < valid[b])
  {
    if texts != [] {
      var init := texts[..|texts| - 1];
      var last := texts[|texts| - 1];
      SelectionShape(init);
      var v := ValidIndices(init);
      var k := KeptTexts(init);
      assert ValidIndices(texts) == if IsSubstantial(last) then v + [|init|] else v;
      assert KeptTexts(texts) == if IsSubstantial(last) then k + [last] else k;
      assert forall i :: 0 <= i < |init| ==> init[i] == texts[i];
    }
  }

  /** A position is valid exactly when its text is substantial. */
  lemma {:induction false} SelectionMembers(texts: seq<string>)
    ensures forall i :: 0 <= i < |texts| ==> (i in ValidIndices(texts) <==> IsSubstantial(texts[i]))
    ensures forall i :: i in ValidIndices(texts) ==> i < |texts|
  {
    if texts != [] {
      var init := texts[..|texts| - 1];
      var last := texts[|texts| - 1];
      SelectionMembers(init);
      var v := ValidIndices(init);
      assert ValidIndices(texts) == if IsSubstantial(last) then v + [|init|] else v;
      assert forall i :: 0 <= i < |init| ==> init[i] == texts[i];
    }
  }

  /** The `for i, file_path in enumerate(files)` loop: keep the substantial texts and their positions. */
  method SelectFiles(texts: seq<string>) returns (kept: seq<string>, valid: seq<nat>)
    ensures kept == KeptTexts(texts) && valid == ValidIndices(texts)
  {
    kept, valid := [], [];
    var i := 0;
    while i < |texts|
      invariant 0 <= i <= |texts|
      invariant kept == KeptTexts(texts[..i]) && valid == ValidIndices(texts[..i])
    {
      assert texts[..i + 1][..i] == texts[..i];
      if IsSubstantial(texts[i]) {
        kept := kept + [texts[i]];
        valid := valid + [i];
      }
      i := i + 1;
    }
    assert texts[..|texts|] == texts;
  }

  /** One reported pair: original indices and the similarity in percent. */
  datatype Match = Match(index1: nat, index2: nat, similarity: real)

  /** Row `i` and column `j` of the cosine-similarity matrix of a corpus; not modelled. */
  type SimilarityMatrix = (seq<string>, nat, nat) -> real

  function Percent(texts: seq<string>, similarity: SimilarityMatrix, p: Pair): real {
    similarity(texts, p.0, p.1) * 100.0
  }

  /**
   * The reports for the pairs `ps` of kept positions whose similarity in
   * percent reaches `threshold`, under their original indices. (A pair
   * outside `valid` contributes nothing; `AllPairs` of the kept texts has
   * none.)
   */
  function Gated(texts: seq<string>, valid: seq<nat>, ps: seq<Pair>, similarity: SimilarityMatrix, threshold: real)
    : seq<Match>
  {
    if ps == [] then []
    else
      var p := ps[|ps| - 1];
      var init := Gated(texts, valid, ps[..|ps| - 1], similarity, threshold);
      if p.0 < |valid| && p.1 < |valid| && Percent(texts, similarity, p) >= threshold
      then init + [Match(valid[p.0], valid[p.1], Percent(texts, similarity, p))]
      else init
  }

  /** A match is reported exactly for a listed, in-range pair at or above the threshold. */
  lemma {:induction false} GatedMembers(texts: seq<string>, valid: seq<nat>, ps: seq<Pair>, similarity: SimilarityMatrix, threshold: real)
    ensures forall m :: m in Gated(texts, valid, ps, similarity, threshold) <==>
      exists p :: p in ps && p.0 < |valid| && p.1 < |valid| && Percent(texts, similarity, p) >= threshold
        && m == Match(valid[p.0], valid[p.1], Percent(texts, similarity, p))
  {
    if ps != [] {
      var init := ps[..|ps| - 1];
      GatedMembers(texts, valid, init, similarity, threshold);
      assert forall p :: p in ps <==> p in init || p == ps[|ps| - 1];
    }
  }

  lemma GatedSnoc(texts: seq<string>, valid: seq<nat>, ps: seq<Pair>, p: Pair, similarity: SimilarityMatrix, threshold: real)
    ensures Gated(texts, valid, ps + [p], similarity, threshold) ==
      Gated(texts, valid, ps, similarity, threshold)
      + (if p.0 < |valid| && p.1 < |valid| && Percent(texts, similarity, p) >= threshold
         then [Match(valid[p.0], valid[p.1], Percent(texts, similarity, p))] else [])
  {
    assert (ps + [p])[..|ps|] == ps;
  }

  /** The nested pair loop over the kept texts, reporting only the pairs at or above the threshold. */
  method ReportMatches(texts: seq<string>, valid: seq<nat>, similarity: SimilarityMatrix, threshold: real)
    returns (results: seq<Match>)
    requires |valid| == |texts|
    ensures results == Gated(texts, valid, AllPairs(|texts|), similarity, threshold)
  {
    var n := |texts|;
    results := [];
    var i := 0;
    while i < n
      invariant 0 <= i <= n
      invariant results == Gated(texts, valid, PairsBelow(i, n), similarity, threshold)
    {
      results := ReportRow(texts, valid, i, PairsBelow(i, n), results, similarity, threshold);
      i := i + 1;
    }
  }

  /** The inner loop for row `i`: the pairs `(i, j)` with `i < j`, appended to the matches so far. */
  method ReportRow(texts: seq<string>, valid: seq<nat>, i: nat, before: seq<Pair>, acc: seq<Match>,
                   similarity: SimilarityMatrix, threshold: real)
    returns (results: seq<Match>)
    requires |valid| == |texts| && i < |texts|
    requires acc == Gated(texts, valid, before, similarity, threshold)
    ensures results == Gated(texts, valid, before + Row(i, i + 1, |texts|), similarity, threshold)
  {
    var n := |texts|;
    results := acc;
    var j := i + 1;
    assert before + Row(i, i + 1, j) == before;
    while j < n
      invariant i + 1 <= j <= n
      invariant results == Gated(texts, valid, before + Row(i, i + 1, j), similarity, threshold)
    {
      var score := Percent(texts, similarity, (i, j));
      ghost var ps := before + Row(i, i + 1, j);
      GatedSnoc(texts, valid, ps, (i, j), similarity, threshold);
      assert Row(i, i + 1, j + 1) == Row(i, i + 1, j) + [(i, j)];
      assert before + Row(i, i + 1, j + 1) == ps + [(i, j)];
      if score >= threshold {
        results := results + [Match(valid[i], valid[j], score)];
      }
      j := j + 1;
    }
  }

  /** The script's output for the extracted texts of the given files. */
  function Run(texts: seq<string>, threshold: Option<real>, similarity: SimilarityMatrix): seq<Match> {
    var kept := KeptTexts(texts);
    if |kept| < 2 then []
    else Gated(kept, ValidIndices(texts), AllPairs(|kept|), similarity, Threshold(threshold))
  }

  /**
   * The `threshold` member of the input: absent, a number (JSON `true` and
   * `false` are the numbers 1 and 0 to Python), or anything else (`null`, a
   * string, a list), which Python cannot compare with a float.
   */
  datatype ThresholdField = Missing | Number(value: real) | NotNumber

  function GivenThreshold(field: ThresholdField): Option<real> {
    if field.Number? then Some(field.value) else None
  }

  /** Why `main` reports an error and exits with status 1. */
  datatype ScriptError =
    | EmptyVocabulary         // the vectorizer found no term in the kept texts
    | ThresholdNotComparable  // `similarity >= threshold` raised a TypeError

  /**
   * Whether the TF-IDF vectorizer, with the script's tokenizer and English
   * stop words, finds at least one term in the given texts.
   */
  type Vocabulary = seq<string> -> bool

  /**
   * What `main` ends with: the printed matches, or the error of its outer
   * `except` clause. The vectorizer runs before the pair loop, and the pair
   * loop compares the threshold at least once when two files are kept.
   */
  function Outcome(texts: seq<string>, threshold: ThresholdField, hasVocabulary: Vocabulary,
                   similarity: SimilarityMatrix): Result<seq<Match>, ScriptError>
  {
    var kept := KeptTexts(texts);
    if |kept| < 2 then Success([])
    else if !hasVocabulary(kept) then Failure(EmptyVocabulary)
    else if threshold.NotNumber? then Failure(ThresholdNotComparable)
    else Success(Run(texts, GivenThreshold(threshold), similarity))
  }

  /**
   * `main`, from the files' extracted texts (`ExtractText` of each file) to
   * the printed list of matches or the error.
   */
  method CheckFiles(texts: seq<string>, threshold: ThresholdField, hasVocabulary: Vocabulary,
                    similarity: SimilarityMatrix)
    returns (r: Result<seq<Match>, ScriptError>)
    ensures r == Outcome(texts, threshold, hasVocabulary, similarity)
  {
    var kept, valid := SelectFiles(texts);
    if |kept| < 2 {
      return Success([]);
    }
    if !hasVocabulary(kept) {
      return Failure(EmptyVocabulary);
    }
    if threshold.NotNumber? {
      return Failure(ThresholdNotComparable);
    }
    SelectionSpec(texts);
    var results := ReportMatches(kept, valid, similarity, Threshold(GivenThreshold(threshold)));
    return Success(results);
  }

  /**
   * `main` fails exactly when two files are kept and either the vectorizer
   * finds no term or the threshold is not a number, the vectorizer's error
   * coming first; a missing threshold means 75; otherwise it prints the
   * matches `RunSpec` describes.
   */
  lemma OutcomeSpec(texts: seq<string>, threshold: ThresholdField, hasVocabulary: Vocabulary,
                    similarity: SimilarityMatrix)
    ensures var r := Outcome(texts, threshold, hasVocabulary, similarity); var kept := KeptTexts(texts);
      && (r.Failure? <==> |kept| >= 2 && (!hasVocabulary(kept) || threshold.NotNumber?))
      && (r.Failure? ==> (r.error == EmptyVocabulary <==> !hasVocabulary(kept)))
      && (|kept| < 2 ==> r == Success([]))
      && (r.Success? && threshold.Missing? ==>
            forall m :: m in r.value ==> m.similarity >= DefaultThreshold)
      && (r.Success? && threshold.Number? ==>
            forall m :: m in r.value ==> m.similarity >= threshold.value)
  {
    if |KeptTexts(texts)| >= 2 && hasVocabulary(KeptTexts(texts)) && !threshold.NotNumber? {
      RunMatchesValid(texts, GivenThreshold(threshold), similarity);
    }
  }

  /**
   * The output: empty with fewer than two substantial files; otherwise
   * every match names two substantial files by original index, the first
   * before the second, with a similarity at or above the threshold (75 by
   * default); and a pair of kept files is reported exactly when its
   * similarity in percent reaches the threshold.
   */
  lemma RunSpec(texts: seq<string>, threshold: Option<real>, similarity: SimilarityMatrix)
    ensures var r := Run(texts, threshold, similarity); var kept := KeptTexts(texts); var valid := ValidIndices(texts);
      && (|kept| < 2 ==> r == [])
      && (forall m :: m in r ==>
            && m.index1 < m.index2 < |texts|
            && IsSubstantial(texts[m.index1]) && IsSubstantial(texts[m.index2])
            && m.similarity >= Threshold(threshold))
      && (|kept| >= 2 ==> forall a, b :: 0 <= a < b < |valid| ==>
            ((Match(valid[a], valid[b], Percent(kept, similarity, (a, b))) in r)
             <==> (Percent(kept, similarity, (a, b)) >= Threshold(threshold))))
  {
    RunMatchesValid(texts, threshold, similarity);
    RunReportsExactly(texts, threshold, similarity);
  }

  /** Every reported match names two substantial files, in order, at or above the threshold. */
  lemma RunMatchesValid(texts: seq<string>, threshold: Option<real>, similarity: SimilarityMatrix)
    ensures forall m :: m in Run(texts, threshold, similarity) ==>
      && m.index1 < m.index2 < |texts|
      && IsSubstantial(texts[m.index1]) && IsSubstantial(texts[m.index2])
      && m.similarity >= Threshold(threshold)
  {
    var r := Run(texts, threshold, similarity);
    var kept := KeptTexts(texts);
    var valid := ValidIndices(texts);
    SelectionSpec(texts);
    if |kept| >= 2 {
      var n := |kept|;
      var t := Threshold(threshold);
      PairsBelowMembers(n, n);
      GatedMembers(kept, valid, AllPairs(n), similarity, t);
      forall m | m in r
        ensures m.index1 < m.index2 < |texts|
        ensures IsSubstantial(texts[m.index1]) && IsSubstantial(texts[m.index2])
        ensures m.similarity >= t
      {
        var p :| p in AllPairs(n) && p.0 < n && p.1 < n && Percent(kept, similarity, p) >= t
          && m == Match(valid[p.0], valid[p.1], Percent(kept, similarity, p));
        assert valid[p.0] in valid && valid[p.1] in valid;
      }
    }
  }

  /** A pair of kept files is reported exactly when its similarity in percent reaches the threshold. */
  lemma RunReportsExactly(texts: seq<string>, threshold: Option<real>, similarity: SimilarityMatrix)
    ensures var r := Run(texts, threshold, similarity); var kept := KeptTexts(texts); var valid := ValidIndices(texts);
      |kept| >= 2 ==> forall a, b :: 0 <= a < b < |valid| ==>
        ((Match(valid[a], valid[b], Percent(kept, similarity, (a, b))) in r)
         <==> (Percent(kept, similarity, (a, b)) >= Threshold(threshold)))
  {
    var r := Run(texts, threshold, similarity);
    var kept := KeptTexts(texts);
    var valid := ValidIndices(texts);
    SelectionSpec(texts);
    if |kept| >= 2 {
      var n := |kept|;
      var t := Threshold(threshold);
      PairsBelowMembers(n, n);
      GatedMembers(kept, valid, AllPairs(n), similarity, t);
      forall a, b | 0 <= a < b < |valid|
        ensures Match(valid[a], valid[b], Percent(kept, similarity, (a, b))) in r
          <==> Percent(kept, similarity, (a, b)) >= t
      {
        var m := Match(valid[a], valid[b], Percent(kept, similarity, (a, b)));
        if m in r {
          var p :| p in AllPairs(n) && p.0 < n && p.1 < n && Percent(kept, similarity, p) >= t
            && m == Match(valid[p.0], valid[p.1], Percent(kept, similarity, p));
          Injective(valid, p.0, a);
          Injective(valid, p.1, b);
        } else {
          assert (a, b) in AllPairs(n);
        }
      }
    }
  }

  /** Strictly increasing positions identify their index. */
  lemma Injective(valid: seq<nat>, x: nat, y: nat)
    requires forall a, b :: 0 <= a < b < |valid| ==> valid[a] < valid[b]
    requires x < |valid| && y < |valid| && valid[x] == valid[y]
    ensures x == y
  {
  }
}
