/**
 * The plagiarism-check service: threshold validation, text preprocessing,
 * the download loop that aborts on the first unusable document, and the
 * pair loop that reports every pair of documents with a plagiarism flag.
 * The TF-IDF cosine similarity is an uninterpreted parameter.
 */
module PlagiarismServer {
  import opened Wrappers
  import opened Strings
  import opened Seqs
  import opened Pairs

  /** The threshold, in percent, used when a request does not give one. */
  const DefaultThreshold: real := 75.0

  datatype Reason =
    | ThresholdOutOfRange
    | DownloadFailed(url: string)
    | PdfProcessingFailed
    | NoMeaningfulText(url: string)
    | InternalError  // any other exception, here the vectorizer finding no term

  datatype HttpError = HttpError(code: int, reason: Reason)

  /**
   * The request's threshold after validation: absent means the default;
   * a given value is accepted only within [0, 100], otherwise the request
   * is rejected as unprocessable (status 422).
   */
  function ValidateThreshold(given: Option<real>): (r: Result<real, HttpError>)
    ensures given.None? ==> r == Success(DefaultThreshold)
    ensures given.Some? ==> (r.Success? <==> 0.0 <= given.value <= 100.0)
    ensures given.Some? && r.Success? ==> r.value == given.value
    ensures r.Failure? ==> r.error == HttpError(422, ThresholdOutOfRange)
  {
    match given
    case None => Success(DefaultThreshold)
    case Some(v) => if 0.0 <= v <= 100.0 then Success(v) else Failure(HttpError(422, ThresholdOutOfRange))
  }

  /** Python's `string.punctuation`: the 32 ASCII punctuation characters. */
  predicate IsPunctuation(c: char) {
    ('!' <= c <= '/') || (':' <= c <= '@') || ('[' <= c <= '`') || ('{' <= c <= '~')
  }

  const StopWords: set<string> := {"the", "and", "is", "in", "it", "to", "of", "for"}

  /** The whitespace-separated words of the lower-cased, punctuation-free text, stop words dropped. */
  function KeptWords(text: string): seq<string> {
    Filter(IsKept, Words(RemoveAll(Lower(text), IsPunctuation)))
  }

  predicate IsKept(w: string) {
    w !in StopWords
  }

  /** A word is kept exactly when it is a word of the cleaned text and not a stop word. */
  lemma KeptWordsSpec(text: string)
    ensures var ws := KeptWords(text);
      && (forall w :: w in ws <==> w in Words(RemoveAll(Lower(text), IsPunctuation)) && w !in StopWords)
      && (forall w, c :: w in ws && c in w ==> !IsPunctuation(c) && !IsAsciiUpper(c))
  {
    var cleaned := RemoveAll(Lower(text), IsPunctuation);
    forall c | c in cleaned ensures !IsAsciiUpper(c) {
      var i :| 0 <= i < |Lower(text)| && Lower(text)[i] == c;
    }
  }

  /**
   * `preprocess_text`: the kept words joined by single spaces, then every
   * digit removed and the ends stripped. Digits go last, so a word such as
   * "in1" becomes the stop word "in" after the stop-word filter has run.
   */
  function PreprocessText(text: string): string {
    Strip(RemoveAll(Join(KeptWords(text), " "), IsDigit))
  }

  /**
   * The preprocessed text holds no punctuation, no digit and no upper-case
   * letter, and has no whitespace at either end.
   */
  lemma PreprocessTextSpec(text: string)
    ensures var r := PreprocessText(text);
      && (forall c :: c in r ==> !IsPunctuation(c) && !IsDigit(c) && !IsAsciiUpper(c))
      && (r == [] || (!IsPySpace(r[0]) && !IsPySpace(r[|r| - 1])))
  {
    KeptWordsSpec(text);
    var ks := KeptWords(text);
    var joined := Join(ks, " ");
    var d := RemoveAll(joined, IsDigit);
    forall c | c in Strip(d) ensures !IsPunctuation(c) && !IsDigit(c) && !IsAsciiUpper(c) {
      assert c in d;
      assert c in joined;
      if c !in " " {
        var w :| w in ks && c in w;
      }
    }
  }

  /** What fetching one URL gives: the text extracted from the PDF, or one of the two failures. */
  datatype Fetched = Downloaded(text: string) | RequestFailed | PdfUnreadable

  /**
   * A fetched document the service can compare: downloaded, and non-empty
   * after `preprocess` (the service passes `PreprocessText`).
   */
  predicate Usable(f: Fetched, preprocess: string -> string) {
    f.Downloaded? && preprocess(f.text) != []
  }

  function TextOf(f: Fetched, preprocess: string -> string): string {
    if f.Downloaded? then preprocess(f.text) else []
  }

  /** The error the download loop raises for an unusable document. */
  function FetchError(url: string, f: Fetched): HttpError {
    match f
    case RequestFailed => HttpError(400, DownloadFailed(url))
    case PdfUnreadable => HttpError(400, PdfProcessingFailed)
    case Downloaded(_) => HttpError(400, NoMeaningfulText(url))
  }

  /**
   * What the download loop yields: the preprocessed texts in order, or the
   * error of the first unusable document.
   */
  function Download(urls: seq<string>, fetched: seq<Fetched>, preprocess: string -> string): Result<seq<string>, HttpError>
    requires |urls| == |fetched|
  {
    if fetched == [] then Success([])
    else if !Usable(fetched[0], preprocess) then Failure(FetchError(urls[0], fetched[0]))
    else
      match Download(urls[1..], fetched[1..], preprocess)
      case Failure(e) => Failure(e)
      case Success(ts) => Success([TextOf(fetched[0], preprocess)] + ts)
  }

  /** `k` is the first document that cannot be used. */
  predicate FirstUnusable(fetched: seq<Fetched>, k: int, preprocess: string -> string) {
    0 <= k < |fetched| && !Usable(fetched[k], preprocess) && forall m :: 0 <= m < k ==> Usable(fetched[m], preprocess)
  }

  /**
   * The download loop succeeds exactly when every document is usable, then
   * with one text per document in order; otherwise it fails with the error
   * of the first unusable document.
   */
  lemma {:induction false} DownloadSpec(urls: seq<string>, fetched: seq<Fetched>, preprocess: string -> string)
    requires |urls| == |fetched|
    ensures var r := Download(urls, fetched, preprocess);
      && (r.Success? <==> forall k :: 0 <= k < |fetched| ==> Usable(fetched[k], preprocess))
      && (r.Success? ==> |r.value| == |fetched| && forall k :: 0 <= k < |fetched| ==> r.value[k] == TextOf(fetched[k], preprocess))
      && (r.Failure? ==> exists k :: FirstUnusable(fetched, k, preprocess) && r.error == FetchError(urls[k], fetched[k]))
  {
    if fetched != [] && Usable(fetched[0], preprocess) {
      DownloadSpec(urls[1..], fetched[1..], preprocess);
      var r := Download(urls[1..], fetched[1..], preprocess);
      if r.Success? {
        forall k | 0 <= k < |fetched| ensures Usable(fetched[k], preprocess) {
          if k > 0 { assert fetched[k] == fetched[1..][k - 1]; }
        }
      } else {
        var k :| FirstUnusable(fetched[1..], k, preprocess) && r.error == FetchError(urls[1..][k], fetched[1..][k]);
        assert FirstUnusable(fetched, k + 1, preprocess) by {
          forall m | 0 <= m < k + 1 ensures Usable(fetched[m], preprocess) {
            if m > 0 { assert fetched[m] == fetched[1..][m - 1]; }
          }
        }
      }
    } else if fetched != [] {
      assert FirstUnusable(fetched, 0, preprocess);
    }
  }

  /** One entry of the response. */
  datatype PairResult = PairResult(file1Index: nat, file2Index: nat, similarityScore: real, isPlagiarised: bool)

  /** Cosine similarity of the TF-IDF rows `i` and `j` of a corpus; not modelled. */
  type Similarity = (seq<string>, nat, nat) -> real

  function Entry(texts: seq<string>, p: Pair, similarity: Similarity, cut: real): PairResult {
    var s := similarity(texts, p.0, p.1);
    PairResult(p.0, p.1, s, s >= cut)
  }

  /** The entries for the pairs `ps`, in order. */
  function Report(texts: seq<string>, ps: seq<Pair>, similarity: Similarity, cut: real): seq<PairResult> {
    if ps == [] then []
    else Report(texts, ps[..|ps| - 1], similarity, cut) + [Entry(texts, ps[|ps| - 1], similarity, cut)]
  }

  lemma ReportSnoc(texts: seq<string>, ps: seq<Pair>, p: Pair, similarity: Similarity, cut: real)
    ensures Report(texts, ps + [p], similarity, cut) == Report(texts, ps, similarity, cut) + [Entry(texts, p, similarity, cut)]
  {
    assert (ps + [p])[..|ps|] == ps;
  }

  lemma {:induction false} ReportShape(texts: seq<string>, ps: seq<Pair>, similarity: Similarity, cut: real)
    ensures |Report(texts, ps, similarity, cut)| == |ps|
    ensures forall k :: 0 <= k < |ps| ==> Report(texts, ps, similarity, cut)[k] == Entry(texts, ps[k], similarity, cut)
  {
    if ps != [] {
      ReportShape(texts, ps[..|ps| - 1], similarity, cut);
    }
  }

  datatype Request = Request(fileUrls: seq<string>, threshold: Option<real>)

  /** The download loop: one document at a time, stopping at the first unusable one. */
  method FetchTexts(urls: seq<string>, fetched: seq<Fetched>, preprocess: string -> string)
    returns (r: Result<seq<string>, HttpError>)
    requires |fetched| == |urls|
    ensures r == Download(urls, fetched, preprocess)
  {
    var texts: seq<string> := [];
    var k := 0;
    assert urls[0..] == urls && fetched[0..] == fetched;
    PrependNothing(Download(urls, fetched, preprocess));
    while k < |fetched|
      invariant 0 <= k <= |fetched|
      invariant Download(urls, fetched, preprocess) == Prepend(texts, Download(urls[k..], fetched[k..], preprocess))
    {
      var f := fetched[k];
      assert urls[k..][1..] == urls[k + 1..] && fetched[k..][1..] == fetched[k + 1..];
      if !f.Downloaded? {
        return Failure(FetchError(urls[k], f));
      }
      var processed := preprocess(f.text);
      if processed == [] {
        return Failure(FetchError(urls[k], f));
      }
      PrependTwice(texts, processed, Download(urls[k + 1..], fetched[k + 1..], preprocess));
      texts := texts + [processed];
      k := k + 1;
    }
    assert texts + [] == texts;
    return Success(texts);
  }

  /** `done` in front of the texts of a successful download. */
  function Prepend(done: seq<string>, r: Result<seq<string>, HttpError>): Result<seq<string>, HttpError> {
    match r
    case Failure(e) => Failure(e)
    case Success(ts) => Success(done + ts)
  }

  lemma PrependNothing(r: Result<seq<string>, HttpError>)
    ensures Prepend([], r) == r
  {
    if r.Success? {
      assert [] + r.value == r.value;
    }
  }

  lemma PrependTwice(done: seq<string>, t: string, r: Result<seq<string>, HttpError>)
    ensures Prepend(done, Prepend([t], r)) == Prepend(done + [t], r)
  {
    if r.Success? {
      assert done + ([t] + r.value) == (done + [t]) + r.value;
    }
  }

  /** The nested pair loop: one entry per pair, flagged when the similarity reaches `cut`. */
  method ComparePairs(texts: seq<string>, similarity: Similarity, cut: real) returns (results: seq<PairResult>)
    ensures results == Report(texts, AllPairs(|texts|), similarity, cut)
  {
    var n := |texts|;
    results := [];
    var i := 0;
    while i < n
      invariant 0 <= i <= n
      invariant results == Report(texts, PairsBelow(i, n), similarity, cut)
    {
      results := CompareRow(texts, i, PairsBelow(i, n), results, similarity, cut);
      i := i + 1;
    }
  }

  /** The inner loop for row `i`: one entry for each `(i, j)` with `i < j`, after the entries so far. */
  method CompareRow(texts: seq<string>, i: nat, ghost before: seq<Pair>, acc: seq<PairResult>,
                    similarity: Similarity, cut: real)
    returns (results: seq<PairResult>)
    requires i < |texts|
    requires acc == Report(texts, before, similarity, cut)
    ensures results == Report(texts, before + Row(i, i + 1, |texts|), similarity, cut)
  {
    var n := |texts|;
    results := acc;
    var j := i + 1;
    assert before + Row(i, i + 1, j) == before;
    while j < n
      invariant i + 1 <= j <= n
      invariant results == Report(texts, before + Row(i, i + 1, j), similarity, cut)
    {
      var score := similarity(texts, i, j);
      ReportRowStep(texts, before, i, j, similarity, cut);
      results := results + [PairResult(i, j, score, score >= cut)];
      j := j + 1;
    }
  }

  /**
   * A term of the default `TfidfVectorizer` tokenizer: a maximal run of two
   * or more word characters. Such a run exists exactly when two word
   * characters stand next to each other.
   */
  predicate HasTerm(t: string) {
    exists i :: 0 <= i < |t| - 1 && WordCharPair(t, i)
  }

  predicate WordCharPair(t: string, i: nat)
    requires i < |t| - 1
  {
    IsWordChar(t[i]) && IsWordChar(t[i + 1])
  }

  /**
   * Whether fitting the vectorizer on `texts` finds a vocabulary; without
   * one (in particular for no texts at all) `fit_transform` raises.
   */
  predicate HasVocabulary(texts: seq<string>) {
    exists k :: 0 <= k < |texts| && HasTerm(texts[k])
  }

  /** One more step of the inner loop adds the entry for `(i, j)`. */
  lemma ReportRowStep(texts: seq<string>, before: seq<Pair>, i: nat, j: nat, similarity: Similarity, cut: real)
    requires i < j
    ensures Report(texts, before + Row(i, i + 1, j + 1), similarity, cut)
         == Report(texts, before + Row(i, i + 1, j), similarity, cut) + [Entry(texts, (i, j), similarity, cut)]
  {
    assert Row(i, i + 1, j + 1) == Row(i, i + 1, j) + [(i, j)];
    assert before + Row(i, i + 1, j + 1) == (before + Row(i, i + 1, j)) + [(i, j)];
    ReportSnoc(texts, before + Row(i, i + 1, j), (i, j), similarity, cut);
  }

  /**
   * The response of the `/checkPlagiarism` endpoint. `fetched[k]` is what
   * downloading and extracting `fileUrls[k]` yields. An invalid threshold is
   * rejected first; an unusable document then aborts the whole request with
   * no results; the vectorizer then fails with status 500 when the texts
   * have no term at all; otherwise every pair of documents is reported.
   */
  function Respond(req: Request, fetched: seq<Fetched>, preprocess: string -> string, similarity: Similarity)
    : Result<seq<PairResult>, HttpError>
    requires |fetched| == |req.fileUrls|
  {
    match ValidateThreshold(req.threshold)
    case Failure(e) => Failure(e)
    case Success(threshold) =>
      match Download(req.fileUrls, fetched, preprocess)
      case Failure(e) => Failure(e)
      case Success(texts) =>
        if !HasVocabulary(texts) then Failure(HttpError(500, InternalError))
        else Success(Report(texts, AllPairs(|texts|), similarity, threshold / 100.0))
  }

  /** The `/checkPlagiarism` endpoint: validation, the download loop, then the pair loop. */
  method CheckPlagiarism(req: Request, fetched: seq<Fetched>, preprocess: string -> string, similarity: Similarity)
    returns (resp: Result<seq<PairResult>, HttpError>)
    requires |fetched| == |req.fileUrls|
    ensures resp == Respond(req, fetched, preprocess, similarity)
  {
    var validated := ValidateThreshold(req.threshold);
    if validated.Failure? {
      return Failure(validated.error);
    }
    var texts := FetchTexts(req.fileUrls, fetched, preprocess);
    if texts.Failure? {
      return Failure(texts.error);
    }
    if !HasVocabulary(texts.value) {
      return Failure(HttpError(500, InternalError));
    }
    var results := ComparePairs(texts.value, similarity, validated.value / 100.0);
    return Success(results);
  }

  /**
   * The endpoint's error cases: an out-of-range threshold is reported before
   * anything is fetched; given a valid threshold, the first document that
   * does not download or keeps no text is reported (status 400); when all
   * are usable but their texts have no term, the vectorizer's error becomes
   * status 500; the request succeeds exactly when neither happens.
   */
  lemma RespondErrors(req: Request, fetched: seq<Fetched>, preprocess: string -> string, similarity: Similarity)
    requires |fetched| == |req.fileUrls|
    ensures var v := ValidateThreshold(req.threshold); var r := Respond(req, fetched, preprocess, similarity);
      var usable := forall k :: 0 <= k < |fetched| ==> Usable(fetched[k], preprocess);
      && (v.Failure? ==> r == Failure(HttpError(422, ThresholdOutOfRange)))
      && (v.Success? ==> (r.Success? <==> usable && HasVocabulary(TextsOf(fetched, preprocess))))
      && (v.Success? && !usable ==>
            exists k :: FirstUnusable(fetched, k, preprocess) && r == Failure(FetchError(req.fileUrls[k], fetched[k])))
      && (v.Success? && usable && !HasVocabulary(TextsOf(fetched, preprocess)) ==>
            r == Failure(HttpError(500, InternalError)))
  {
    DownloadSpec(req.fileUrls, fetched, preprocess);
    var d := Download(req.fileUrls, fetched, preprocess);
    if d.Success? {
      assert d.value == TextsOf(fetched, preprocess);
    }
  }

  /** A request with no file URLs and a valid threshold fails with status 500. */
  lemma NoFilesIsInternalError(req: Request, preprocess: string -> string, similarity: Similarity)
    requires req.fileUrls == [] && ValidateThreshold(req.threshold).Success?
    ensures Respond(req, [], preprocess, similarity) == Failure(HttpError(500, InternalError))
  {
    assert Download(req.fileUrls, [], preprocess) == Success([]);
  }

  function IndexPair(e: PairResult): Pair {
    (e.file1Index, e.file2Index)
  }

  /**
   * A successful response for `n` documents lists the index pairs of
   * `AllPairs(n)` in that order: by `AllPairsSpec`, every `i < j < n` once,
   * lexicographically, `n(n-1)/2` in all.
   */
  lemma RespondPairs(req: Request, fetched: seq<Fetched>, preprocess: string -> string, similarity: Similarity)
    requires |fetched| == |req.fileUrls|
    ensures var r := Respond(req, fetched, preprocess, similarity);
      r.Success? ==> Map(IndexPair, r.value) == AllPairs(|fetched|)
  {
    var r := Respond(req, fetched, preprocess, similarity);
    if r.Success? {
      DownloadSpec(req.fileUrls, fetched, preprocess);
      var texts := Download(req.fileUrls, fetched, preprocess).value;
      ReportPairs(texts, similarity, ValidateThreshold(req.threshold).value / 100.0);
    }
  }

  /**
   * Every entry of a successful response carries the similarity of its two
   * preprocessed documents and is flagged exactly when that unrounded
   * similarity reaches the threshold divided by 100.
   */
  lemma RespondFlags(req: Request, fetched: seq<Fetched>, preprocess: string -> string, similarity: Similarity)
    requires |fetched| == |req.fileUrls|
    ensures var r := Respond(req, fetched, preprocess, similarity);
      r.Success? ==>
        forall k :: 0 <= k < |r.value| ==>
          && r.value[k].similarityScore == similarity(TextsOf(fetched, preprocess), r.value[k].file1Index, r.value[k].file2Index)
          && (r.value[k].isPlagiarised <==> r.value[k].similarityScore >= ValidateThreshold(req.threshold).value / 100.0)
  {
    var r := Respond(req, fetched, preprocess, similarity);
    if r.Success? {
      DownloadSpec(req.fileUrls, fetched, preprocess);
      var texts := Download(req.fileUrls, fetched, preprocess).value;
      assert texts == TextsOf(fetched, preprocess);
      var cut := ValidateThreshold(req.threshold).value / 100.0;
      assert r.value == Report(texts, AllPairs(|texts|), similarity, cut);
      ReportEntries(texts, similarity, cut);
    }
  }

  /** The preprocessed texts of all documents, in order; an undownloaded one has none. */
  function TextsOf(fetched: seq<Fetched>, preprocess: string -> string): (r: seq<string>)
    ensures |r| == |fetched|
    ensures forall k :: 0 <= k < |fetched| && fetched[k].Downloaded? ==> r[k] == preprocess(fetched[k].text)
    ensures forall k :: 0 <= k < |fetched| && !fetched[k].Downloaded? ==> r[k] == []
  {
    Map(f => TextOf(f, preprocess), fetched)
  }

  /** The pair loop reports exactly the index pairs of `AllPairs`, in its order. */
  lemma ReportPairs(texts: seq<string>, similarity: Similarity, cut: real)
    ensures Map(IndexPair, Report(texts, AllPairs(|texts|), similarity, cut)) == AllPairs(|texts|)
  {
    ReportShape(texts, AllPairs(|texts|), similarity, cut);
  }

  /** Each reported entry holds its pair's similarity and is flagged iff that reaches `cut`. */
  lemma ReportEntries(texts: seq<string>, similarity: Similarity, cut: real)
    ensures var r := Report(texts, AllPairs(|texts|), similarity, cut);
      forall k :: 0 <= k < |r| ==>
        && r[k].similarityScore == similarity(texts, r[k].file1Index, r[k].file2Index)
        && (r[k].isPlagiarised <==> r[k].similarityScore >= cut)
  {
    ReportShape(texts, AllPairs(|texts|), similarity, cut);
  }

  /**
   * A single lower-case word without punctuation that is not a stop word
   * loses only its digits, even when what remains is a stop word: stop words
   * are filtered before digits are removed.
   */
  lemma SingleWordLosesOnlyDigits(w: string)
    requires w != [] && w !in StopWords
    requires forall c :: c in w ==> !IsPySpace(c) && !IsPunctuation(c) && !IsAsciiUpper(c)
    ensures PreprocessText(w) == RemoveAll(w, IsDigit)
  {
    assert Lower(w) == w;
    RemoveAllKeepsAll(w, IsPunctuation);
    WordsSingle(w);
    assert Filter(IsKept, [w]) == [w] by { assert [w][1..] == []; }
    var d := RemoveAll(w, IsDigit);
    TrimIdempotent(d, IsPySpace);
  }

  /** "in1" preprocesses to the stop word "in". */
  lemma StopWordSurvivesDigitRemoval()
    ensures PreprocessText("in1") == "in"
  {
    InOneIsPlainWord();
    SingleWordLosesOnlyDigits("in1");
    DigitsOfIn1();
  }

  lemma InOneIsPlainWord()
    ensures "in1" != [] && "in1" !in StopWords
    ensures forall c :: c in "in1" ==> !IsPySpace(c) && !IsPunctuation(c) && !IsAsciiUpper(c)
  {
    forall c | c in "in1" ensures !IsPySpace(c) && !IsPunctuation(c) && !IsAsciiUpper(c) {
      assert c == 'i' || c == 'n' || c == '1';
    }
  }

  lemma DigitsOfIn1()
    ensures RemoveAll("in1", IsDigit) == "in"
  {
    assert "in1"[1..] == "n1" && "n1"[1..] == "1" && "1"[1..] == [];
  }
}
