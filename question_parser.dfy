/**
 * The question-generation handler: choosing the markdown text out of the
 * model client's reply, and turning that markdown into question records.
 * The markdown is cut at every `---`; a piece becomes a question when it
 * holds the `**Type**:`, `**Question**:` and `**Hint**:` markers, and each
 * field is the text after its marker, on one line, trimmed.
 */
module QuestionParser {
  import opened Wrappers
  import opened Strings
  import opened Seqs

  /** The `data` member of the client's reply: a string, an array, or anything else (absent, null, an object). */
  datatype Payload = Text(s: string) | Items(items: seq<Payload>) | Other

  /** A generated question; `kind` is the record's `type`. */
  datatype Question = Question(kind: string, text: string, hint: string)

  const Separator: string := "---"
  const TypeMarker: string := "**Type**:"
  const QuestionMarker: string := "**Question**:"
  const HintMarker: string := "**Hint**:"

  predicate IsNewline(c: char) { c == '\n' }

  /**
   * The markdown: the data itself when it is a string, else its first
   * element when it is an array whose first element is a string, else "".
   */
  function Markdown(data: Payload): string {
    match data
    case Text(s) => s
    case Items(items) => if items != [] && items[0].Text? then items[0].s else ""
    case Other => ""
  }

  /**
   * What `marker\s*(.*)` captures in `s`, the capture cut at the first
   * `stop` character: starting at the first occurrence of the marker, the
   * greedy `\s*` skips all whitespace, and the capture runs to the first
   * `stop` character or the end. `None` when the marker does not occur.
   */
  function Capture(s: string, marker: string, stop: char -> bool): (r: Option<string>)
    ensures r.Some? <==> Contains(s, marker)
    ensures r.Some? ==> forall c :: c in r.value ==> !stop(c)
  {
    match IndexOf(s, marker)
    case None => None
    case Some(i) =>
      var rest := s[i + |marker|..];
      Some(PrefixUntil(TrimStart(rest, IsJsSpace), stop))
  }

  /**
   * The capture is a piece of `s`: it starts after the first occurrence of
   * the marker and the whitespace that follows it, holds no `stop`
   * character, and ends at a `stop` character or at the end of `s`.
   */
  lemma CaptureSpan(s: string, marker: string, stop: char -> bool)
    requires Contains(s, marker)
    ensures Capture(s, marker, stop).Some?
    ensures exists i, start :: CapturedFrom(s, marker, stop, i, start, Capture(s, marker, stop).value)
  {
    var i := IndexOf(s, marker).value;
    var from := i + |marker|;
    SkipThenPrefix(s, from, stop);
    var start := from + Leading(s[from..], IsJsSpace);
    assert CapturedFrom(s, marker, stop, i, start, Capture(s, marker, stop).value);
  }

  /**
   * `r` is what a capture after `marker` yields when the marker first occurs
   * at `i` and the capture starts at `start`.
   */
  predicate CapturedFrom(s: string, marker: string, stop: char -> bool, i: nat, start: nat, r: string) {
    && OccursAt(s, marker, i) && (forall j :: 0 <= j < i ==> !OccursAt(s, marker, j))
    && i + |marker| <= start <= |s|
    && (forall k :: i + |marker| <= k < start ==> IsJsSpace(s[k]))
    && (start == |s| || !IsJsSpace(s[start]))
    && start + |r| <= |s| && r == s[start..start + |r|]
    && (forall c :: c in r ==> !stop(c))
    && (start + |r| == |s| || stop(s[start + |r|]))
  }

  /**
   * Skipping the whitespace from position `from` and then taking the text
   * up to the next `stop` character picks the span between the two.
   */
  lemma SkipThenPrefix(s: string, from: nat, stop: char -> bool)
    requires from <= |s|
    ensures var start := from + Leading(s[from..], IsJsSpace);
      var r := PrefixUntil(TrimStart(s[from..], IsJsSpace), stop);
      && start <= |s|
      && (forall k :: from <= k < start ==> IsJsSpace(s[k]))
      && (start == |s| || !IsJsSpace(s[start]))
      && start + |r| <= |s| && r == s[start..start + |r|]
      && (start + |r| == |s| || stop(s[start + |r|]))
  {
    var rest := s[from..];
    var n := Leading(rest, IsJsSpace);
    var start := from + n;
    assert TrimStart(rest, IsJsSpace) == s[start..];
    forall k | from <= k < start
      ensures IsJsSpace(s[k])
    {
      assert s[k] == rest[k - from];
    }
    if start < |s| {
      assert s[start] == rest[n];
    }
    PrefixAt(s, start, stop);
  }

  /** The text up to the next `stop` character from `start` is a span of `s` ending at one or at the end. */
  lemma PrefixAt(s: string, start: nat, stop: char -> bool)
    requires start <= |s|
    ensures var r := PrefixUntil(s[start..], stop);
      && start + |r| <= |s| && r == s[start..start + |r|]
      && (start + |r| == |s| || stop(s[start + |r|]))
  {
    var t := s[start..];
    var r := PrefixUntil(t, stop);
    assert t[..|r|] == s[start..start + |r|];
    if start + |r| < |s| {
      assert s[start + |r|] == t[|r|];
    }
  }

  /**
   * One piece of the markdown: a question when all three markers occur.
   * The type is the rest of its marker's line; the question and the hint
   * are the first line after their marker (a `/s` capture cut at `\n`).
   */
  function ParseChunk(chunk: string): (q: Option<Question>)
    ensures q.Some? <==> Contains(chunk, TypeMarker) && Contains(chunk, QuestionMarker) && Contains(chunk, HintMarker)
    ensures q.Some? ==>
      && (forall c :: c in q.value.kind ==> !IsJsLineTerminator(c))
      && (forall c :: c in q.value.text ==> c != '\n')
      && (forall c :: c in q.value.hint ==> c != '\n')
    ensures q.Some? ==>
      && (q.value.kind == [] || (!IsJsSpace(q.value.kind[0]) && !IsJsSpace(q.value.kind[|q.value.kind| - 1])))
      && (q.value.text == [] || (!IsJsSpace(q.value.text[0]) && !IsJsSpace(q.value.text[|q.value.text| - 1])))
      && (q.value.hint == [] || (!IsJsSpace(q.value.hint[0]) && !IsJsSpace(q.value.hint[|q.value.hint| - 1])))
  {
    var kind := Capture(chunk, TypeMarker, IsJsLineTerminator);
    var text := Capture(chunk, QuestionMarker, IsNewline);
    var hint := Capture(chunk, HintMarker, IsNewline);
    if kind.Some? && text.Some? && hint.Some? then
      Some(Question(JsTrim(kind.value), JsTrim(text.value), JsTrim(hint.value)))
    else None
  }

  /** `chunks.map(parse).filter(q => q !== null)`. */
  function ParseChunks(chunks: seq<string>): (qs: seq<Question>)
    ensures |qs| <= |chunks|
    ensures forall q :: q in qs <==> exists c :: c in chunks && ParseChunk(c) == Some(q)
  {
    if chunks == [] then []
    else
      var rest := ParseChunks(chunks[1..]);
      assert forall c :: c in chunks <==> c == chunks[0] || c in chunks[1..];
      match ParseChunk(chunks[0])
      case Some(q) => [q] + rest
      case None => rest
  }

  /**
   * Parsing works piece by piece: the questions of two runs of pieces are
   * the questions of the first followed by those of the second, so the
   * questions keep the order of their pieces.
   */
  lemma {:induction false} ParseChunksConcat(a: seq<string>, b: seq<string>)
    ensures ParseChunks(a + b) == ParseChunks(a) + ParseChunks(b)
  {
    if a == [] {
      assert a + b == b;
    } else {
      assert (a + b)[0] == a[0];
      assert (a + b)[1..] == a[1..] + b;
      ParseChunksConcat(a[1..], b);
    }
  }

  /** A single piece gives its question, or nothing when a marker is missing. */
  lemma ParseChunksSingle(c: string)
    ensures ParseChunks([c]) == if ParseChunk(c).Some? then [ParseChunk(c).value] else []
  {
    assert [c][1..] == [];
  }

  /** Why a request fails; both are answered with status 500. */
  datatype GenerateError = InvalidResponseFormat | GenerationFailed

  function StatusCode(e: GenerateError): nat {
    match e
    case InvalidResponseFormat => 500
    case GenerationFailed => 500
  }

  /**
   * The handler once the client is connected: `reply` is `None` when the
   * prediction call throws. An empty markdown text is an invalid response.
   */
  function GenerateQuestions(reply: Option<Payload>): Result<seq<Question>, GenerateError> {
    if reply.None? then Failure(GenerationFailed)
    else
      var md := Markdown(reply.value);
      if md == [] then Failure(InvalidResponseFormat)
      else Success(ParseChunks(SplitOn(md, Separator)))
  }

  /**
   * The handler answers with questions exactly when the call succeeded and
   * produced non-empty markdown; the questions come from the pieces of that
   * markdown between `---` separators, at most one per piece.
   */
  lemma GenerateQuestionsSpec(reply: Option<Payload>)
    ensures var r := GenerateQuestions(reply);
      && (reply.None? ==> r == Failure(GenerationFailed))
      && (reply.Some? && Markdown(reply.value) == [] ==> r == Failure(InvalidResponseFormat))
      && (r.Success? <==> reply.Some? && Markdown(reply.value) != [])
      && (r.Success? ==>
            var chunks := SplitOn(Markdown(reply.value), Separator);
            && Join(chunks, Separator) == Markdown(reply.value)
            && |r.value| <= |chunks|
            && r.value == ParseChunks(chunks))
  {
    if reply.Some? && Markdown(reply.value) != [] {
      SplitOnJoin(Markdown(reply.value), Separator);
    }
  }
}
