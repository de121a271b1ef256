/** The text chunker of the embedding processor (`chunkText`, `estimateTokens`,
    `getOverlapText` in src/core/embedding-processor.js).
    A text is cut into sentence units at runs of `.`, `!` and `?`; blank units are
    dropped; the units are packed into a buffer under a token budget, and when a
    unit does not fit, the trimmed buffer becomes a chunk and the next buffer is
    seeded with the last words of the closed one. */
module Chunker {
  import opened JsText

  /** `Math.ceil(text.length / 4)`: a rough token count of four characters per token. */
  function EstimateTokens(text: string): (n: nat)
    ensures 4 * n >= |text| && 4 * n < |text| + 4
    ensures n == 0 <==> text == []
  {
    (|text| + 3) / 4
  }

  function Min(a: int, b: int): int {
    if a < b then a else b
  }

  /** `xs.slice(start)`: a negative start counts from the end, and a start past
      either end is clamped. */
  function SliceFrom<T>(xs: seq<T>, start: int): (r: seq<T>)
    ensures |r| <= |xs|
    ensures r == xs[|xs| - |r|..]
  {
    if start < 0 then
      (if |xs| + start < 0 then xs else xs[|xs| + start..])
    else if start > |xs| then []
    else xs[start..]
  }

  /** `text.trim().split(/\s+/)` */
  function Words(text: string): seq<string> {
    Split(Trim(text), Whitespace)
  }

  /** `words.slice(-Math.min(overlapTokens, words.length))` in `getOverlapText`:
      with a positive overlap the last `min(overlap, #words)` words, at least one;
      with zero every word, because `slice(-0)` is `slice(0)`; with a negative
      overlap the words after the first `-overlap`. */
  function OverlapWords(text: string, overlap: int): (ov: seq<string>)
    ensures var words := Words(text);
      overlap >= 1 ==> 1 <= Min(overlap, |words|) && ov == words[|words| - Min(overlap, |words|)..]
    ensures overlap == 0 ==> ov == Words(text)
    ensures overlap < 0 ==> ov == Words(text)[Min(-overlap, |Words(text)|)..]
  {
    var words := Words(text);
    SliceFrom(words, -Min(overlap, |words|))
  }

  /** `getOverlapText(text, overlapTokens)`: the overlap words joined by single
      spaces, followed by one space. */
  function OverlapText(text: string, overlap: int): string {
    Join(OverlapWords(text, overlap), " ") + " "
  }

  /** The words of a non-blank text are whitespace-free and non-empty. */
  lemma WordsAreWords(text: string)
    requires !IsBlank(text)
    ensures forall k :: 0 <= k < |Words(text)| ==> IsWord(Words(text)[k])
  {
    TrimFacts(text);
    SplitTrimmedYieldsWords(Trim(text));
  }

  /** A text and its trimmed form have the same words. */
  lemma WordsOfTrim(text: string)
    ensures Words(Trim(text)) == Words(text)
  {
    TrimIdempotent(text);
  }

  /** The overlap text of a blank text is a single space. */
  lemma OverlapOfBlank(text: string, overlap: int)
    requires IsBlank(text)
    ensures OverlapText(text, overlap) == " "
  {
    TrimFacts(text);
    FirstDelimiterOfFree([], Whitespace);
    assert Words(text) == [""];
  }

  /** The overlap text splits back into exactly the overlap words. */
  lemma OverlapRoundTrip(text: string, overlap: int)
    requires overlap >= 1 && !IsBlank(text)
    ensures Words(OverlapText(text, overlap)) == OverlapWords(text, overlap)
  {
    var ov := OverlapWords(text, overlap);
    OverlapWordsAreWords(text, overlap);
    JoinWordsTrimmed(ov);
    TrimPadded(Join(ov, " "), " ");
    SplitJoin(ov);
  }

  /** The overlap words joined by spaces are a trimmed text; they are the text's
      words or a tail of them, so they are whitespace-free and non-empty. */
  lemma OverlapJoinTrimmed(text: string, overlap: int)
    requires !IsBlank(text)
    ensures var j := Join(OverlapWords(text, overlap), " ");
      IsTrimmed(j) && (j == [] <==> OverlapWords(text, overlap) == [])
  {
    var ov := OverlapWords(text, overlap);
    if ov != [] {
      OverlapWordsAreWords(text, overlap);
      JoinWordsTrimmed(ov);
    }
  }

  /** The overlap words are a tail of the words, so each is a word. */
  lemma OverlapWordsAreWords(text: string, overlap: int)
    requires !IsBlank(text)
    ensures forall k :: 0 <= k < |OverlapWords(text, overlap)| ==> IsWord(OverlapWords(text, overlap)[k])
  {
    WordsAreWords(text);
    TailOfWords(Words(text), OverlapWords(text, overlap));
  }

  /** A tail of a list of words is a list of words. */
  lemma TailOfWords(words: seq<string>, tail: seq<string>)
    requires |tail| <= |words| && tail == words[|words| - |tail|..]
    requires forall k :: 0 <= k < |words| ==> IsWord(words[k])
    ensures forall k :: 0 <= k < |tail| ==> IsWord(tail[k])
  {
    forall k | 0 <= k < |tail|
      ensures IsWord(tail[k])
    {
      assert tail[k] == words[|words| - |tail| + k];
    }
  }

  /** `xs.filter(s => s.trim().length > 0)` */
  function NonBlank(xs: seq<string>): seq<string> {
    if xs == [] then []
    else (if Trim(xs[0]) != [] then [xs[0]] else []) + NonBlank(xs[1..])
  }

  /** The sentence units of `chunkText`. */
  function Sentences(text: string): seq<string> {
    NonBlank(Split(text, SentenceEnd))
  }

  /** The filter keeps exactly the non-blank pieces. */
  lemma {:induction false} NonBlankSpec(xs: seq<string>)
    ensures forall k :: 0 <= k < |NonBlank(xs)| ==> !IsBlank(NonBlank(xs)[k]) && NonBlank(xs)[k] in xs
    ensures forall x :: x in xs && !IsBlank(x) ==> x in NonBlank(xs)
  {
    if xs != [] {
      NonBlankSpec(xs[1..]);
      TrimFacts(xs[0]);
      var head := if Trim(xs[0]) != [] then [xs[0]] else [];
      assert NonBlank(xs) == head + NonBlank(xs[1..]);
      forall x | x in xs && !IsBlank(x) ensures x in NonBlank(xs) {
        if x != xs[0] {
          assert x in xs[1..];
        }
      }
    }
  }

  /** Sentence units are non-blank, contain no sentence punctuation, and every
      non-blank piece between punctuation runs is one of them. */
  lemma SentencesSpec(text: string)
    ensures forall k :: 0 <= k < |Sentences(text)| ==>
      !IsBlank(Sentences(text)[k]) && FreeOf(Sentences(text)[k], SentenceEnd)
    ensures forall p :: p in Split(text, SentenceEnd) && !IsBlank(p) ==> p in Sentences(text)
  {
    NonBlankSpec(Split(text, SentenceEnd));
    SplitPiecesFree(text, SentenceEnd);
  }

  /** The loop state of `chunkText`: the chunks emitted so far, `currentChunk`
      and `currentTokens`. */
  datatype Buffer = Buffer(chunks: seq<string>, current: string, tokens: nat)

  /** The chunk is closed before `sentence` when the sentence would overflow the
      budget and the buffer holds something. */
  predicate Closes(b: Buffer, sentence: string, maxTokens: int) {
    b.tokens + EstimateTokens(sentence) > maxTokens && |b.current| > 0
  }

  /** One iteration of the loop in `chunkText`. */
  function Step(b: Buffer, sentence: string, maxTokens: int, overlap: int): Buffer {
    if Closes(b, sentence, maxTokens) then
      var seeded := OverlapText(b.current, overlap) + sentence;
      Buffer(b.chunks + [Trim(b.current)], seeded, EstimateTokens(seeded))
    else
      Buffer(b.chunks, b.current + sentence + ". ", b.tokens + EstimateTokens(sentence))
  }

  /** The loop state after the given sentence units. */
  function Run(sentences: seq<string>, maxTokens: int, overlap: int): Buffer
    decreases |sentences|
  {
    if sentences == [] then Buffer([], "", 0)
    else
      var n := |sentences| - 1;
      Step(Run(sentences[..n], maxTokens, overlap), sentences[n], maxTokens, overlap)
  }

  /** The tail of `chunkText`: emit the non-blank trimmed buffer, and fall back to
      the whole text when no chunk was emitted. */
  function Finish(b: Buffer, text: string): seq<string> {
    var chunks := if Trim(b.current) != [] then b.chunks + [Trim(b.current)] else b.chunks;
    if |chunks| > 0 then chunks else [text]
  }

  /** What `chunkText(text, maxTokens, overlap)` returns. */
  function Chunks(text: string, maxTokens: int, overlap: int): seq<string> {
    Finish(Run(Sentences(text), maxTokens, overlap), text)
  }

  /** Each pass of the loop over the sentence units is one `Step`. */
  lemma RunStep(sentences: seq<string>, i: nat, maxTokens: int, overlap: int)
    requires i < |sentences|
    ensures Run(sentences[..i + 1], maxTokens, overlap) == Step(Run(sentences[..i], maxTokens, overlap), sentences[i], maxTokens, overlap)
  {
    assert sentences[..i + 1][..i] == sentences[..i];
  }

  /** One pass of the loop: a split emits the trimmed buffer and reseeds it with
      the overlap text and the unit alone, re-estimating its tokens from the whole
      new buffer; otherwise the unit and `". "` are appended and its estimate is
      added. */
  lemma RunAdvances(sentences: seq<string>, i: nat, maxTokens: int, overlap: int)
    requires i < |sentences|
    ensures var b, b' := Run(sentences[..i], maxTokens, overlap), Run(sentences[..i + 1], maxTokens, overlap);
      var s := sentences[i];
      if b.tokens + EstimateTokens(s) > maxTokens && b.current != [] then
        && b'.chunks == b.chunks + [Trim(b.current)]
        && b'.current == OverlapText(b.current, overlap) + s
        && b'.tokens == EstimateTokens(b'.current)
      else
        && b'.chunks == b.chunks
        && b'.current == b.current + s + ". "
        && b'.tokens == b.tokens + EstimateTokens(s)
  {
    RunStep(sentences, i, maxTokens, overlap);
  }

  /** `chunkText`, as the loop the source runs. */
  method ChunkText(text: string, maxTokens: int, overlap: int) returns (chunks: seq<string>)
    ensures chunks == Chunks(text, maxTokens, overlap)
  {
    var sentences := Sentences(text);
    chunks := [];
    var currentChunk := "";
    var currentTokens: nat := 0;
    for i := 0 to |sentences|
      invariant Buffer(chunks, currentChunk, currentTokens) == Run(sentences[..i], maxTokens, overlap)
    {
      RunStep(sentences, i, maxTokens, overlap);
      var sentence := sentences[i];
      var sentenceTokens := EstimateTokens(sentence);
      if currentTokens + sentenceTokens > maxTokens && |currentChunk| > 0 {
        chunks := chunks + [Trim(currentChunk)];
        var overlapText := OverlapText(currentChunk, overlap);
        currentChunk := overlapText + sentence;
        currentTokens := EstimateTokens(currentChunk);
      } else {
        currentChunk := currentChunk + sentence + ". ";
        currentTokens := currentTokens + sentenceTokens;
      }
    }
    assert sentences[..|sentences|] == sentences;
    if Trim(currentChunk) != [] {
      chunks := chunks + [Trim(currentChunk)];
    }
    if |chunks| == 0 {
      chunks := [text];
    }
  }

  /** How many times the loop closes a chunk. */
  function Closings(sentences: seq<string>, maxTokens: int, overlap: int): nat
    decreases |sentences|
  {
    if sentences == [] then 0
    else
      var n := |sentences| - 1;
      Closings(sentences[..n], maxTokens, overlap)
        + (if Closes(Run(sentences[..n], maxTokens, overlap), sentences[n], maxTokens) then 1 else 0)
  }

  predicate AllNonBlank(sentences: seq<string>) {
    forall k :: 0 <= k < |sentences| ==> !IsBlank(sentences[k])
  }

  /** Once a sentence unit has been seen the buffer is never blank; every closed
      chunk is trimmed and non-empty, one per closing. */
  lemma {:induction false} RunShape(sentences: seq<string>, maxTokens: int, overlap: int)
    requires AllNonBlank(sentences)
    ensures var b := Run(sentences, maxTokens, overlap);
      && |b.chunks| == Closings(sentences, maxTokens, overlap)
      && ChunksTrimmed(b.chunks)
      && (sentences == [] <==> b.current == [])
      && (sentences != [] ==> !IsBlank(b.current))
    decreases |sentences|
  {
    if sentences != [] {
      var n := |sentences| - 1;
      var prefix, s := sentences[..n], sentences[n];
      assert AllNonBlank(prefix) by {
        forall k | 0 <= k < |prefix| ensures !IsBlank(prefix[k]) { assert prefix[k] == sentences[k]; }
      }
      RunShape(prefix, maxTokens, overlap);
      var b := Run(prefix, maxTokens, overlap);
      assert !IsBlank(s);
      if Closes(b, s, maxTokens) {
        TrimFacts(b.current);
        BlankConcat(OverlapText(b.current, overlap), s);
      } else {
        BlankConcat(b.current, s);
        BlankConcat(b.current + s, ". ");
      }
    }
  }

  /** `chunkText` never returns an empty sequence; without a non-blank sentence
      unit it returns exactly `[text]`; otherwise it returns one more chunk than
      there were closings, each trimmed and non-empty. */
  lemma ChunksShape(text: string, maxTokens: int, overlap: int)
    ensures var chunks, sentences := Chunks(text, maxTokens, overlap), Sentences(text);
      && |chunks| >= 1
      && (sentences == [] ==> chunks == [text])
      && (sentences != [] ==>
            && |chunks| == Closings(sentences, maxTokens, overlap) + 1
            && forall k :: 0 <= k < |chunks| ==> chunks[k] != [] && IsTrimmed(chunks[k]))
  {
    var sentences := Sentences(text);
    SentencesSpec(text);
    RunShape(sentences, maxTokens, overlap);
    var b := Run(sentences, maxTokens, overlap);
    TrimFacts(b.current);
  }

  /** The first sentence unit always enters the empty buffer, however large it is:
      a text with one sentence unit gives exactly one chunk. */
  lemma SingleSentenceOneChunk(text: string, maxTokens: int, overlap: int)
    requires |Sentences(text)| == 1
    ensures Chunks(text, maxTokens, overlap) == [Trim(Sentences(text)[0] + ". ")]
  {
    var s := Sentences(text)[0];
    SentencesSpec(text);
    assert Sentences(text)[..0] == [];
    assert "" + s + ". " == s + ". ";
    assert Run(Sentences(text), maxTokens, overlap) == Buffer([], s + ". ", EstimateTokens(s));
    BlankConcat(s, ". ");
    TrimFacts(s + ". ");
  }

  /** The buffer when no chunk is closed: every unit followed by `". "`. */
  function Buffered(sentences: seq<string>): string
    decreases |sentences|
  {
    if sentences == [] then ""
    else
      var n := |sentences| - 1;
      Buffered(sentences[..n]) + sentences[n] + ". "
  }

  /** The sum of the units' token estimates. */
  function TotalTokens(sentences: seq<string>): nat
    decreases |sentences|
  {
    if sentences == [] then 0
    else
      var n := |sentences| - 1;
      TotalTokens(sentences[..n]) + EstimateTokens(sentences[n])
  }

  /** Within the budget the loop never closes a chunk and only accumulates. */
  lemma {:induction false} RunWithinBudget(sentences: seq<string>, maxTokens: int, overlap: int)
    requires TotalTokens(sentences) <= maxTokens
    ensures Run(sentences, maxTokens, overlap) == Buffer([], Buffered(sentences), TotalTokens(sentences))
    decreases |sentences|
  {
    if sentences != [] {
      RunWithinBudget(sentences[..|sentences| - 1], maxTokens, overlap);
    }
  }

  /** When the units' estimates sum to at most `maxTokens` there is exactly one
      chunk: each unit followed by `". "`, then trimmed, so the chunk ends with `.`. */
  lemma NoSplitWithinBudget(text: string, maxTokens: int, overlap: int)
    requires Sentences(text) != [] && TotalTokens(Sentences(text)) <= maxTokens
    ensures Chunks(text, maxTokens, overlap) == [Trim(Buffered(Sentences(text)))]
  {
    var sentences := Sentences(text);
    SentencesSpec(text);
    RunWithinBudget(sentences, maxTokens, overlap);
    RunShape(sentences, maxTokens, overlap);
    TrimFacts(Buffered(sentences));
  }

  /** The filter keeps a list whose pieces are all non-blank. */
  lemma {:induction false} NonBlankKeepsAll(xs: seq<string>)
    requires AllNonBlank(xs)
    ensures NonBlank(xs) == xs
  {
    if xs != [] {
      TrimFacts(xs[0]);
      NonBlankKeepsAll(xs[1..]);
    }
  }

  lemma SplitOfStrictText(text: string)
    requires text == "a.b.c.d"
    ensures Split(text, SentenceEnd) == ["a", "b", "c", "d"]
  {
    var units := ["a", "b", "c", "d"];
    assert units[1..] == ["b", "c", "d"] && units[2..] == ["c", "d"] && units[3..] == ["d"];
    assert Join(units, ".") == text;
    SplitJoinOn(units, SentenceEnd, '.');
  }

  lemma StrictUnitsNonBlank(xs: seq<string>)
    requires xs == ["a", "b", "c", "d"]
    ensures AllNonBlank(xs)
  {
    forall k | 0 <= k < |xs|
      ensures !IsBlank(xs[k])
    {
      assert |xs[k]| == 1 && 'a' <= xs[k][0] <= 'd';
    }
  }

  lemma SentencesOfStrictText(text: string)
    requires text == "a.b.c.d"
    ensures Sentences(text) == ["a", "b", "c", "d"]
  {
    SplitOfStrictText(text);
    StrictUnitsNonBlank(Split(text, SentenceEnd));
    NonBlankKeepsAll(Split(text, SentenceEnd));
  }

  /** The first three units fill the budget of three exactly. */
  lemma StrictTextFirstUnits(xs: seq<string>)
    requires xs == ["a", "b", "c"]
    ensures TotalTokens(xs) == 3
    ensures Buffered(xs) == "a. b. c. "
  {
    assert xs[..2] == ["a", "b"];
    assert ["a", "b"][..1] == ["a"];
    assert ["a"][..0] == [];
  }

  lemma StrictTextOverlap(c: string)
    requires c == "a. b. c. "
    ensures Trim(c) == "a. b. c."
    ensures OverlapText(c, 50) == "a. b. c. "
  {
    var words := ["a.", "b.", "c."];
    assert c == "a. b. c." + " ";
    TrimPadded("a. b. c.", " ");
    assert words[1..] == ["b.", "c."] && ["b.", "c."][1..] == ["c."];
    assert Join(words, " ") == "a. b. c.";
    SplitJoin(words);
    assert Words(c) == words;
  }

  lemma StrictTextLastChunk(c: string)
    requires c == "a. b. c. " + "d"
    ensures EstimateTokens(c) == 3
    ensures Trim(c) == "a. b. c. d"
  {
    TrimPadded(c, "");
    assert c + "" == c;
  }

  lemma StrictTextStep(b: Buffer, unit: string)
    requires b == Buffer([], "a. b. c. ", 3) && unit == "d"
    ensures Step(b, unit, 3, 50) == Buffer(["a. b. c."], "a. b. c. d", 3)
  {
    StrictTextOverlap(b.current);
    var seeded := OverlapText(b.current, 50) + unit;
    assert seeded == "a. b. c. " + "d";
    StrictTextLastChunk(seeded);
    assert Closes(b, unit, 3);
    assert Step(b, unit, 3, 50) == Buffer(b.chunks + [Trim(b.current)], seeded, EstimateTokens(seeded));
    assert b.chunks + [Trim(b.current)] == ["a. b. c."];
  }

  lemma StrictTextRun(xs: seq<string>)
    requires xs == ["a", "b", "c", "d"]
    ensures Run(xs, 3, 50) == Buffer(["a. b. c."], "a. b. c. d", 3)
  {
    var first := xs[..3];
    assert first == ["a", "b", "c"];
    StrictTextFirstUnits(first);
    RunWithinBudget(first, 3, 50);
    StrictTextStep(Run(first, 3, 50), xs[3]);
  }

  lemma StrictTextFinish(b: Buffer, text: string)
    requires b == Buffer(["a. b. c."], "a. b. c. d", 3)
    ensures Finish(b, text) == ["a. b. c.", "a. b. c. d"]
  {
    StrictTextLastChunk(b.current);
    assert b.chunks + [b.current] == ["a. b. c.", "a. b. c. d"];
  }

  /** A text estimated below the budget can still be cut: "a.b.c.d" is estimated at
      two tokens, yet its four units cost one token each, so a budget of three
      closes a chunk before the fourth unit. */
  lemma ShortTextCanStillSplit(text: string, maxTokens: int, overlap: int)
    requires text == "a.b.c.d" && maxTokens == 3 && overlap == 50
    ensures EstimateTokens(text) < maxTokens
    ensures Chunks(text, maxTokens, overlap) == ["a. b. c.", "a. b. c. d"]
  {
    assert |text| == 7;
    SentencesOfStrictText(text);
    StrictTextRun(Sentences(text));
    StrictTextFinish(Run(Sentences(text), maxTokens, overlap), text);
  }

  /** A sentence unit lies in the buffer, or its trimmed text lies in an emitted chunk. */
  ghost predicate Covered(x: string, b: Buffer) {
    Infix(x, b.current) || exists j :: 0 <= j < |b.chunks| && Infix(Trim(x), b.chunks[j])
  }

  /** The unit a step adds lies in the new buffer. */
  lemma StepCoversNew(b: Buffer, s: string, maxTokens: int, overlap: int)
    ensures Covered(s, Step(b, s, maxTokens, overlap))
  {
    var b' := Step(b, s, maxTokens, overlap);
    if Closes(b, s, maxTokens) {
      assert b'.current == OverlapText(b.current, overlap) + s + "";
      InfixMiddle(OverlapText(b.current, overlap), s, "");
    } else {
      InfixMiddle(b.current, s, ". ");
    }
  }

  /** A step keeps every non-blank unit covered: one in the buffer moves, trimmed,
      into the chunk the step emits, or stays in the extended buffer. */
  lemma StepKeepsCovered(x: string, b: Buffer, s: string, maxTokens: int, overlap: int)
    requires !IsBlank(x) && Covered(x, b)
    ensures Covered(x, Step(b, s, maxTokens, overlap))
  {
    var b' := Step(b, s, maxTokens, overlap);
    if Infix(x, b.current) {
      if Closes(b, s, maxTokens) {
        InfixTrim(x, b.current);
        assert b'.chunks[|b.chunks|] == Trim(b.current);
      } else {
        InfixAppend(x, b.current, s + ". ");
        assert b'.current == b.current + (s + ". ");
      }
    } else {
      var j :| 0 <= j < |b.chunks| && Infix(Trim(x), b.chunks[j]);
      assert b'.chunks[j] == b.chunks[j];
    }
  }

  /** Every sentence unit seen so far lies in the buffer or its trimmed text lies
      in an emitted chunk. */
  lemma {:induction false} RunCovers(sentences: seq<string>, maxTokens: int, overlap: int)
    requires AllNonBlank(sentences)
    ensures forall i :: 0 <= i < |sentences| ==> Covered(sentences[i], Run(sentences, maxTokens, overlap))
    decreases |sentences|
  {
    if sentences != [] {
      var n := |sentences| - 1;
      var prefix, s := sentences[..n], sentences[n];
      assert AllNonBlank(prefix) by {
        forall k | 0 <= k < |prefix| ensures !IsBlank(prefix[k]) { assert prefix[k] == sentences[k]; }
      }
      RunCovers(prefix, maxTokens, overlap);
      var b := Run(prefix, maxTokens, overlap);
      assert Run(sentences, maxTokens, overlap) == Step(b, s, maxTokens, overlap);
      forall i | 0 <= i < |sentences|
        ensures Covered(sentences[i], Step(b, s, maxTokens, overlap))
      {
        if i == n {
          StepCoversNew(b, s, maxTokens, overlap);
        } else {
          assert prefix[i] == sentences[i];
          StepKeepsCovered(sentences[i], b, s, maxTokens, overlap);
        }
      }
    }
  }


  /** No text is lost: the trimmed text of every sentence unit lies inside some chunk. */
  lemma ChunksCover(text: string, maxTokens: int, overlap: int)
    ensures var chunks, sentences := Chunks(text, maxTokens, overlap), Sentences(text);
      forall i :: 0 <= i < |sentences| ==>
        exists j :: 0 <= j < |chunks| && Infix(Trim(sentences[i]), chunks[j])
  {
    var sentences := Sentences(text);
    if sentences != [] {
      SentencesSpec(text);
      RunShape(sentences, maxTokens, overlap);
      RunCovers(sentences, maxTokens, overlap);
      var b := Run(sentences, maxTokens, overlap);
      TrimFacts(b.current);
      var chunks := Chunks(text, maxTokens, overlap);
      assert chunks == b.chunks + [Trim(b.current)];
      forall i | 0 <= i < |sentences|
        ensures exists j :: 0 <= j < |chunks| && Infix(Trim(sentences[i]), chunks[j])
      {
        assert Covered(sentences[i], b);
        if Infix(sentences[i], b.current) {
          InfixTrim(sentences[i], b.current);
          assert chunks[|b.chunks|] == Trim(b.current);
        } else {
          var j :| 0 <= j < |b.chunks| && Infix(Trim(sentences[i]), b.chunks[j]);
          assert chunks[j] == b.chunks[j];
        }
      }
    }
  }

  /** A buffer seeded with the overlap text of a closed chunk and grown by
      non-blank text trims to a chunk that begins with the overlap words. */
  lemma OverlapSurvives(closed: string, buffer: string, overlap: int)
    requires closed != [] && IsTrimmed(closed)
    requires OverlapText(closed, overlap) <= buffer
    requires !IsBlank(buffer[|OverlapText(closed, overlap)|..])
    ensures Join(OverlapWords(closed, overlap), " ") <= Trim(buffer)
  {
    var j := Join(OverlapWords(closed, overlap), " ");
    var rest := buffer[|j| + 1..];
    assert buffer == j + ([' '] + rest);
    BlankConcat([' '], rest);
    if j != [] {
      TrimFacts(closed);
      OverlapJoinTrimmed(closed, overlap);
      PrefixSurvivesTrim(j, [' '] + rest);
    }
  }

  /** Each chunk after the first begins with the overlap words of the chunk
      before it. */
  ghost predicate ChunksChained(chunks: seq<string>, overlap: int) {
    forall j :: 0 <= j < |chunks| - 1 ==>
      Join(OverlapWords(chunks[j], overlap), " ") <= chunks[j + 1]
  }

  /** The open buffer begins with the overlap text of the last chunk and continues
      with non-blank text. */
  ghost predicate SeededFromLast(b: Buffer, overlap: int) {
    |b.chunks| > 0 ==>
      var seed := OverlapText(b.chunks[|b.chunks| - 1], overlap);
      seed <= b.current && !IsBlank(b.current[|seed|..])
  }

  predicate ChunksTrimmed(chunks: seq<string>) {
    forall k :: 0 <= k < |chunks| ==> chunks[k] != [] && IsTrimmed(chunks[k])
  }

  /** A chunk whose successor begins with its overlap words extends the chain. */
  lemma ChainExtend(chunks: seq<string>, c: string, overlap: int)
    requires ChunksChained(chunks, overlap)
    requires |chunks| > 0 ==> Join(OverlapWords(chunks[|chunks| - 1], overlap), " ") <= c
    ensures ChunksChained(chunks + [c], overlap)
  {
    var cs := chunks + [c];
    forall j | 0 <= j < |cs| - 1
      ensures Join(OverlapWords(cs[j], overlap), " ") <= cs[j + 1]
    {
      assert cs[j] == chunks[j];
      if j + 1 < |chunks| {
        assert cs[j + 1] == chunks[j + 1];
      }
    }
  }

  /** Closing a chunk keeps the chain and seeds the buffer from the new last chunk. */
  lemma CloseKeepsChain(b: Buffer, s: string, maxTokens: int, overlap: int)
    requires Closes(b, s, maxTokens) && !IsBlank(s)
    requires ChunksTrimmed(b.chunks) && ChunksChained(b.chunks, overlap) && SeededFromLast(b, overlap)
    ensures var b' := Step(b, s, maxTokens, overlap);
      ChunksChained(b'.chunks, overlap) && SeededFromLast(b', overlap)
  {
    var c := Trim(b.current);
    if |b.chunks| > 0 {
      OverlapSurvives(b.chunks[|b.chunks| - 1], b.current, overlap);
    }
    ChainExtend(b.chunks, c, overlap);
    CloseSeeds(b, s, maxTokens, overlap);
  }

  /** After a close the buffer is the overlap text of the new chunk and the unit. */
  lemma CloseSeeds(b: Buffer, s: string, maxTokens: int, overlap: int)
    requires Closes(b, s, maxTokens) && !IsBlank(s)
    ensures SeededFromLast(Step(b, s, maxTokens, overlap), overlap)
  {
    var b' := Step(b, s, maxTokens, overlap);
    var seed := OverlapText(b.current, overlap);
    OverlapTextOfTrim(b.current, overlap);
    assert b'.chunks[|b'.chunks| - 1] == Trim(b.current);
    SeedThenRest(seed, s);
  }

  lemma OverlapTextOfTrim(text: string, overlap: int)
    ensures OverlapText(Trim(text), overlap) == OverlapText(text, overlap)
  {
    WordsOfTrim(text);
  }

  lemma SeedThenRest(seed: string, rest: string)
    requires !IsBlank(rest)
    ensures seed <= seed + rest && !IsBlank((seed + rest)[|seed|..])
  {
    assert (seed + rest)[|seed|..] == rest;
  }

  /** Appending a unit to the buffer keeps the chain and the seed. */
  lemma AppendKeepsChain(b: Buffer, s: string, maxTokens: int, overlap: int)
    requires !Closes(b, s, maxTokens)
    requires ChunksChained(b.chunks, overlap) && SeededFromLast(b, overlap)
    ensures var b' := Step(b, s, maxTokens, overlap);
      ChunksChained(b'.chunks, overlap) && SeededFromLast(b', overlap)
  {
    var b' := Step(b, s, maxTokens, overlap);
    if |b.chunks| > 0 {
      var seed := OverlapText(b.chunks[|b.chunks| - 1], overlap);
      var rest := b.current[|seed|..];
      assert b'.current == b.current + (s + ". ");
      assert b'.current[|seed|..] == rest + (s + ". ");
      BlankConcat(rest, s + ". ");
    }
  }

  /** The chain and the seed hold throughout the loop. */
  lemma {:induction false} RunOverlaps(sentences: seq<string>, maxTokens: int, overlap: int)
    requires AllNonBlank(sentences)
    ensures var b := Run(sentences, maxTokens, overlap);
      ChunksChained(b.chunks, overlap) && SeededFromLast(b, overlap)
    decreases |sentences|
  {
    if sentences != [] {
      var n := |sentences| - 1;
      var prefix, s := sentences[..n], sentences[n];
      assert AllNonBlank(prefix) by {
        forall k | 0 <= k < |prefix| ensures !IsBlank(prefix[k]) { assert prefix[k] == sentences[k]; }
      }
      RunOverlaps(prefix, maxTokens, overlap);
      RunShape(prefix, maxTokens, overlap);
      var b := Run(prefix, maxTokens, overlap);
      if Closes(b, s, maxTokens) {
        CloseKeepsChain(b, s, maxTokens, overlap);
      } else {
        AppendKeepsChain(b, s, maxTokens, overlap);
      }
    }
  }

  /** Consecutive chunks overlap: each chunk after the first begins with the
      overlap words of the chunk before it, joined by single spaces. */
  lemma ChunksOverlap(text: string, maxTokens: int, overlap: int)
    ensures ChunksChained(Chunks(text, maxTokens, overlap), overlap)
  {
    var sentences := Sentences(text);
    if sentences != [] {
      SentencesSpec(text);
      RunShape(sentences, maxTokens, overlap);
      RunOverlaps(sentences, maxTokens, overlap);
      var b := Run(sentences, maxTokens, overlap);
      TrimFacts(b.current);
      assert Chunks(text, maxTokens, overlap) == b.chunks + [Trim(b.current)];
      if |b.chunks| > 0 {
        OverlapSurvives(b.chunks[|b.chunks| - 1], b.current, overlap);
      }
      ChainExtend(b.chunks, Trim(b.current), overlap);
    }
  }
}
