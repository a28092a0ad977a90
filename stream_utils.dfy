/**
 * The reply-stream engine `processAIStream` (components/stream-utils.ts).
 *
 * Each read hands over one decoded chunk of newline-delimited JSON. The chunk is
 * split on line feeds, blank candidates are dropped, and every candidate is
 * parsed on its own; there is no buffer that carries a partial line over to the
 * next read. A parsed frame may replace the held context, and its normalised
 * `response` text is appended to the reply, which pushes to the chat list at
 * most once per animation frame and once more, unconditionally, at the end.
 *
 * The first half states the loop's effect as functions of the lines and chunks
 * it reads; the class `StreamProcessor` runs the loop step by step and is proved
 * to agree with them.
 */
module StreamUtils {
  import opened Wrappers
  import opened Text
  import opened Seqs
  import opened Chat
  import opened StreamText

  /** The `response` field of a parsed frame, as `jsonResponse.response || ''`
      sees it. */
  datatype Response =
    | Str(s: string)  // a string, possibly empty
    | Falsy           // absent, null, false or 0: the fragment is ''
    | NonString       // any other truthy value: calling `.replace` on it throws

  /** A parsed frame: its response and its `context`, `None` when that field is
      absent or falsy. */
  datatype Frame = Frame(response: Response, context: Option<seq<int>>)

  /** `JSON.parse` on one candidate line: `None` when it throws (or yields a
      value whose fields cannot be read). */
  type Parser = string -> Option<Frame>

  /** What the loop has accumulated: `assistantMessage`, `finalContext`,
      `isCodeBlock`. */
  datatype Acc = Acc(message: string, context: seq<int>, inCode: bool)

  const Start: Acc := Acc("", [], false)

  /** The text put in front of the reply when the stream fails. */
  const InterruptedPrefix: string := "\U{26A0}\U{FE0F} Generation interrupted. Current progress:\n"

  predicate NonBlank(line: string) {
    Trim(line) != []
  }

  /** `textChunk.split('\n').filter(line => line.trim() !== '')`: the candidate
      frames of one chunk, in chunk order. */
  function CandidateLines(chunk: string): seq<string> {
    Filter(Split(chunk), NonBlank)
  }

  /** The candidates are the pieces of the chunk between line feeds that are not
      blank, kept in chunk order; none holds a line feed. */
  lemma CandidateLinesSpec(chunk: string)
    ensures forall k :: 0 <= k < |CandidateLines(chunk)| ==>
              '\n' !in CandidateLines(chunk)[k] && Trim(CandidateLines(chunk)[k]) != []
    ensures forall l :: l in CandidateLines(chunk) <==> l in Split(chunk) && Trim(l) != []
    ensures IsSubsequence(CandidateLines(chunk), Split(chunk))
  {
    var pieces, r := Split(chunk), CandidateLines(chunk);
    FilterIsSubsequence(pieces, NonBlank);
    forall k | 0 <= k < |r| ensures '\n' !in r[k] && Trim(r[k]) != [] {
      assert NonBlank(r[k]);
      assert r[k] in pieces;
    }
    forall l ensures l in r <==> l in pieces && Trim(l) != [] {
      assert NonBlank(l) == (Trim(l) != []);
    }
  }

  // ---------------------------------------------------------------------------
  // The loop's effect, as functions of what it reads

  /** The fragment a parsed frame appends: normalised `response`, or nothing when
      the response is a truthy non-string (the frame's handler throws before the
      append). */
  function FrameText(f: Frame): Option<string> {
    match f.response
    case Str(s) => Some(Normalise(s))
    case Falsy => Some(Normalise(""))
    case NonString => None
  }

  /** One frame: a truthy `context` replaces the held one (this happens before the
      response is looked at), then the fragment is appended and the fence bit
      flips when the fragment holds a fence. */
  function StepFrame(a: Acc, f: Frame): Acc {
    var a' := if f.context.Some? then a.(context := f.context.value) else a;
    match FrameText(f)
    case None => a'
    case Some(c) => a'.(message := a'.message + c, inCode := a'.inCode != HasFence(c))
  }

  /** One candidate line: a line that does not parse leaves everything as it was. */
  function StepLine(a: Acc, line: string, parse: Parser): Acc {
    match parse(line)
    case None => a
    case Some(f) => StepFrame(a, f)
  }

  function StepLines(a: Acc, lines: seq<string>, parse: Parser): Acc
    decreases |lines|
  {
    if lines == [] then a else StepLines(StepLine(a, lines[0], parse), lines[1..], parse)
  }

  /** One read: the candidate lines of that chunk alone. */
  function StepChunk(a: Acc, chunk: string, parse: Parser): Acc {
    StepLines(a, CandidateLines(chunk), parse)
  }

  function StepChunks(a: Acc, chunks: seq<string>, parse: Parser): Acc
    decreases |chunks|
  {
    if chunks == [] then a else StepChunks(StepChunk(a, chunks[0], parse), chunks[1..], parse)
  }

  // Reference definitions, read from the end of the input

  /** The fragment one line contributes, if any. */
  function LineText(line: string, parse: Parser): Option<string> {
    match parse(line)
    case None => None
    case Some(f) => FrameText(f)
  }

  /** The context one line carries, if any. */
  function LineContext(line: string, parse: Parser): Option<seq<int>> {
    match parse(line)
    case None => None
    case Some(f) => f.context
  }

  /** Everything the lines contribute, in order. */
  function Appended(lines: seq<string>, parse: Parser): string
    decreases |lines|
  {
    if lines == [] then []
    else
      var init := Appended(lines[..|lines| - 1], parse);
      match LineText(lines[|lines| - 1], parse)
      case None => init
      case Some(c) => init + c
  }

  /** The context of the last line whose frame parsed and carried a truthy one. */
  function LastContext(lines: seq<string>, parse: Parser): Option<seq<int>>
    decreases |lines|
  {
    if lines == [] then None
    else if LineContext(lines[|lines| - 1], parse).Some? then LineContext(lines[|lines| - 1], parse)
    else LastContext(lines[..|lines| - 1], parse)
  }

  /** How many lines contribute a fragment holding a fence. */
  function FenceCount(lines: seq<string>, parse: Parser): nat
    decreases |lines|
  {
    if lines == [] then 0
    else
      var init := FenceCount(lines[..|lines| - 1], parse);
      match LineText(lines[|lines| - 1], parse)
      case Some(c) => if HasFence(c) then init + 1 else init
      case None => init
  }

  lemma {:induction false} StepLinesConcat(a: Acc, xs: seq<string>, ys: seq<string>, parse: Parser)
    ensures StepLines(a, xs + ys, parse) == StepLines(StepLines(a, xs, parse), ys, parse)
    decreases |xs|
  {
    if xs == [] {
      assert xs + ys == ys;
    } else {
      assert (xs + ys)[1..] == xs[1..] + ys;
      StepLinesConcat(StepLine(a, xs[0], parse), xs[1..], ys, parse);
    }
  }

  lemma StepLinesSnoc(a: Acc, xs: seq<string>, l: string, parse: Parser)
    ensures StepLines(a, xs + [l], parse) == StepLine(StepLines(a, xs, parse), l, parse)
  {
    StepLinesConcat(a, xs, [l], parse);
  }

  /** What the loop holds after a run of lines: the old reply followed by every
      fragment in order; the context of the last frame that carried a truthy one
      (the old context if none did); and the fence bit flipped once per fragment
      that holds a fence, however many fences that fragment contains. */
  lemma StepLinesEffect(a: Acc, lines: seq<string>, parse: Parser)
    ensures StepLines(a, lines, parse).message == a.message + Appended(lines, parse)
    ensures StepLines(a, lines, parse).context ==
              match LastContext(lines, parse) case Some(c) => c case None => a.context
    ensures StepLines(a, lines, parse).inCode == (a.inCode != (FenceCount(lines, parse) % 2 == 1))
  {
    StepLinesMessage(a, lines, parse);
    StepLinesContext(a, lines, parse);
    StepLinesFence(a, lines, parse);
  }

  lemma {:induction false} StepLinesMessage(a: Acc, lines: seq<string>, parse: Parser)
    ensures StepLines(a, lines, parse).message == a.message + Appended(lines, parse)
    decreases |lines|
  {
    if lines != [] {
      var init, l := lines[..|lines| - 1], lines[|lines| - 1];
      InitLast(lines);
      StepLinesMessage(a, init, parse);
      StepLinesSnoc(a, init, l, parse);
      StepLineFields(StepLines(a, init, parse), l, parse);
      SnocUnfold(init, l, parse);
    }
  }

  lemma {:induction false} StepLinesContext(a: Acc, lines: seq<string>, parse: Parser)
    ensures StepLines(a, lines, parse).context ==
              match LastContext(lines, parse) case Some(c) => c case None => a.context
    decreases |lines|
  {
    if lines != [] {
      var init, l := lines[..|lines| - 1], lines[|lines| - 1];
      InitLast(lines);
      StepLinesContext(a, init, parse);
      StepLinesSnoc(a, init, l, parse);
      StepLineFields(StepLines(a, init, parse), l, parse);
      SnocUnfold(init, l, parse);
    }
  }

  lemma {:induction false} StepLinesFence(a: Acc, lines: seq<string>, parse: Parser)
    ensures StepLines(a, lines, parse).inCode == (a.inCode != (FenceCount(lines, parse) % 2 == 1))
    decreases |lines|
  {
    if lines != [] {
      var init, l := lines[..|lines| - 1], lines[|lines| - 1];
      var flip := match LineText(l, parse) case Some(c) => HasFence(c) case None => false;
      var b, k := StepLines(a, init, parse), FenceCount(init, parse);
      assert FenceCount(lines, parse) == k + if flip then 1 else 0;
      calc {
        StepLines(a, lines, parse).inCode;
      == { InitLast(lines); StepLinesSnoc(a, init, l, parse); }
        StepLine(b, l, parse).inCode;
      == { StepLineFence(b, l, parse); }
        b.inCode != flip;
      == { StepLinesFence(a, init, parse); }
        (a.inCode != (k % 2 == 1)) != flip;
      == { Parity(k, flip); }
        a.inCode != ((k + if flip then 1 else 0) % 2 == 1);
      ==
        a.inCode != (FenceCount(lines, parse) % 2 == 1);
      }
    }
  }

  lemma InitLast(lines: seq<string>)
    requires lines != []
    ensures lines == lines[..|lines| - 1] + [lines[|lines| - 1]]
  {
  }

  /** What one line does to the fence bit. */
  lemma StepLineFence(b: Acc, l: string, parse: Parser)
    ensures StepLine(b, l, parse).inCode ==
              (b.inCode != match LineText(l, parse) case Some(c) => HasFence(c) case None => false)
  {
    StepLineFields(b, l, parse);
  }

  /** Adding one flips the parity; adding nothing keeps it. */
  lemma Parity(n: nat, flip: bool)
    ensures ((n + if flip then 1 else 0) % 2 == 1) == ((n % 2 == 1) != flip)
  {
  }

  /** What one line does to each field of the accumulator. */
  lemma StepLineFields(b: Acc, l: string, parse: Parser)
    ensures StepLine(b, l, parse).message ==
              b.message + match LineText(l, parse) case Some(c) => c case None => []
    ensures StepLine(b, l, parse).context ==
              match LineContext(l, parse) case Some(c) => c case None => b.context
    ensures StepLine(b, l, parse).inCode ==
              (b.inCode != match LineText(l, parse) case Some(c) => HasFence(c) case None => false)
  {
  }

  /** The reference definitions, one line further. */
  lemma SnocUnfold(init: seq<string>, l: string, parse: Parser)
    ensures Appended(init + [l], parse) ==
              Appended(init, parse) + match LineText(l, parse) case Some(c) => c case None => []
    ensures LastContext(init + [l], parse) ==
              if LineContext(l, parse).Some? then LineContext(l, parse) else LastContext(init, parse)
    ensures FenceCount(init + [l], parse) ==
              FenceCount(init, parse) + match LineText(l, parse) case Some(c) => (if HasFence(c) then 1 else 0) case None => 0
  {
    var lines := init + [l];
    assert lines[..|lines| - 1] == init;
    assert lines[|lines| - 1] == l;
  }

  /** The reply only grows: no line removes text from it. */
  lemma MessageGrows(a: Acc, lines: seq<string>, parse: Parser)
    ensures a.message <= StepLines(a, lines, parse).message
  {
    StepLinesEffect(a, lines, parse);
  }

  /** A line that fails to parse is dropped: the lines around it have the same
      effect as if it were not there. */
  lemma MalformedLineIgnored(a: Acc, xs: seq<string>, bad: string, ys: seq<string>, parse: Parser)
    requires parse(bad).None?
    ensures StepLines(a, xs + [bad] + ys, parse) == StepLines(a, xs + ys, parse)
  {
    StepLinesConcat(a, xs + [bad], ys, parse);
    StepLinesSnoc(a, xs, bad, parse);
    StepLinesConcat(a, xs, ys, parse);
  }

  /** All candidate lines of a sequence of chunks, chunk by chunk. */
  function ChunkLines(chunks: seq<string>): seq<string>
    decreases |chunks|
  {
    if chunks == [] then [] else CandidateLines(chunks[0]) + ChunkLines(chunks[1..])
  }

  /** Reads are independent: a run of chunks has the effect of the candidate
      lines of each chunk taken separately, one after another. */
  lemma {:induction false} ChunksAreSeparate(a: Acc, chunks: seq<string>, parse: Parser)
    ensures StepChunks(a, chunks, parse) == StepLines(a, ChunkLines(chunks), parse)
    decreases |chunks|
  {
    if chunks != [] {
      ChunksAreSeparate(StepChunk(a, chunks[0], parse), chunks[1..], parse);
      StepLinesConcat(a, CandidateLines(chunks[0]), ChunkLines(chunks[1..]), parse);
    }
  }

  lemma ChunksMessageGrows(a: Acc, chunks: seq<string>, parse: Parser)
    ensures a.message <= StepChunks(a, chunks, parse).message
  {
    ChunksAreSeparate(a, chunks, parse);
    MessageGrows(a, ChunkLines(chunks), parse);
  }

  /** A single line that is not blank is the one candidate of its chunk. */
  lemma CandidateLinesOfLine(l: string)
    requires '\n' !in l && Trim(l) != []
    ensures CandidateLines(l) == [l]
  {
    SplitWithoutNewline(l);
  }

  lemma StepLinesOne(a: Acc, l: string, parse: Parser)
    ensures StepLines(a, [l], parse) == StepLine(a, l, parse)
  {
    assert [l][1..] == [];
  }

  lemma StepChunksOne(a: Acc, c: string, parse: Parser)
    ensures StepChunks(a, [c], parse) == StepChunk(a, c, parse)
  {
    assert [c][1..] == [];
  }

  /** A frame cut by a read boundary is lost: each half is a candidate of its own
      read, neither half parses, and nothing of the frame reaches the reply. */
  lemma SplitFrameIsLost(a: Acc, head: string, tail: string, parse: Parser)
    requires '\n' !in head && '\n' !in tail
    requires Trim(head) != [] && Trim(tail) != []
    requires parse(head).None? && parse(tail).None?
    ensures StepChunks(a, [head, tail], parse) == a
  {
    CandidateLinesOfLine(head);
    CandidateLinesOfLine(tail);
    StepLinesOne(a, head, parse);
    StepLinesOne(a, tail, parse);
    StepChunksOne(a, head, parse);
    StepChunksOne(a, tail, parse);
    assert [head, tail] == [head] + [tail];
    StepChunksConcat(a, [head], [tail], parse);
  }

  /** The same frame delivered in one read is one candidate and is processed. */
  lemma WholeFrameIsProcessed(a: Acc, head: string, tail: string, parse: Parser)
    requires '\n' !in head && '\n' !in tail && Trim(head) != []
    ensures StepChunks(a, [head + tail], parse) == StepLine(a, head + tail, parse)
  {
    assert '\n' !in head + tail;
    assert Trim(head + tail) != [] by {
      TrimEmptyIffBlank(head);
      TrimEmptyIffBlank(head + tail);
      var k :| 0 <= k < |head| && !IsSpace(head[k]);
      assert (head + tail)[k] == head[k];
    }
    CandidateLinesOfLine(head + tail);
    StepLinesOne(a, head + tail, parse);
    StepChunksOne(a, head + tail, parse);
  }

  /** A `\boxed{` fragment is closed on its own, before the text that was meant
      to go inside it arrives: `\boxed{` then `4` reads `\boxed{}4`, not
      `\boxed{4}`. */
  lemma BoxedRepairIsPerFragment(a: Acc, l1: string, l2: string, inner: string, parse: Parser)
    requires parse(l1) == Some(Frame(Str(OpenBoxed), None))
    requires parse(l2) == Some(Frame(Str(inner), None)) && '\\' !in inner
    ensures StepLines(a, [l1, l2], parse).message == a.message + EmptyBoxed + inner
  {
    LineTextOpenBoxed(l1, parse);
    NormaliseNoBackslash(inner);
    AppendedTwo(l1, l2, EmptyBoxed, inner, parse);
    StepLinesMessage(a, [l1, l2], parse);
  }

  lemma LineTextOpenBoxed(l: string, parse: Parser)
    requires parse(l) == Some(Frame(Str(OpenBoxed), None))
    ensures LineText(l, parse) == Some(EmptyBoxed)
  {
    NormaliseOpenBoxed();
  }

  /** Two lines that each contribute a fragment contribute both, in order. */
  lemma AppendedTwo(l1: string, l2: string, c1: string, c2: string, parse: Parser)
    requires LineText(l1, parse) == Some(c1) && LineText(l2, parse) == Some(c2)
    ensures Appended([l1, l2], parse) == c1 + c2
  {
    calc {
      Appended([l1, l2], parse);
      { assert [l1] + [l2] == [l1, l2]; SnocUnfold([l1], l2, parse); }
      Appended([l1], parse) + c2;
      { assert [] + [l1] == [l1]; SnocUnfold([], l1, parse); }
      Appended([], parse) + c1 + c2;
      { assert Appended([], parse) == []; }
      [] + c1 + c2;
      { assert [] + c1 == c1; }
      c1 + c2;
    }
  }

  /** Text without a backslash passes the normaliser unchanged. */
  lemma NormaliseNoBackslash(s: string)
    requires '\\' !in s
    ensures Normalise(s) == s
  {
    OperatorsNoBackslash(s);
    assert !(BoxedPrefix <= s) by {
      assert BoxedPrefix[0] == '\\';
      if |s| > 0 { assert s[0] in s; }
    }
  }

  /** A reply streamed as `{"response":"4"}` then
      `{"response":"","done":true,"context":[1,2,3]}` reads `4` and leaves the
      context `[1,2,3]`. */
  lemma TwoFrameReply(l1: string, l2: string, parse: Parser)
    requires parse(l1) == Some(Frame(Str("4"), None))
    requires parse(l2) == Some(Frame(Str(""), Some([1, 2, 3])))
    ensures StepLines(Start, [l1, l2], parse) == Acc("4", [1, 2, 3], false)
  {
    OperatorsNoBackslash("4");
    OperatorsNoBackslash("");
    assert !HasFence("4") && !HasFence("");
    var a1 := StepLine(Start, l1, parse);
    assert a1 == Acc("4", [], false);
    assert StepLine(a1, l2, parse) == Acc("4", [1, 2, 3], false);
    assert [l1, l2] == [l1] + [l2];
    StepLinesConcat(Start, [l1], [l2], parse);
    StepLinesOne(Start, l1, parse);
    StepLinesOne(a1, l2, parse);
  }

  /** An empty context array is truthy: it replaces a non-empty one held before. */
  lemma EmptyContextOverwrites(a: Acc, l: string, parse: Parser)
    requires |a.context| > 0
    requires parse(l) == Some(Frame(Falsy, Some([])))
    ensures StepLine(a, l, parse).context == []
  {
  }

  /** Whether some line of the run contributes a fragment, and so schedules a
      push. */
  predicate AnyFragment(lines: seq<string>, parse: Parser)
    decreases |lines|
  {
    lines != [] && (AnyFragment(lines[..|lines| - 1], parse) || LineText(lines[|lines| - 1], parse).Some?)
  }

  /** Taking one more line of a run: its effect and whether it schedules a push. */
  lemma NextLine(a: Acc, lines: seq<string>, k: nat, parse: Parser)
    requires k < |lines|
    ensures StepLines(a, lines[..k + 1], parse) == StepLine(StepLines(a, lines[..k], parse), lines[k], parse)
    ensures AnyFragment(lines[..k + 1], parse) == (AnyFragment(lines[..k], parse) || LineText(lines[k], parse).Some?)
  {
    assert lines[..k + 1] == lines[..k] + [lines[k]];
    assert lines[..k + 1][..k] == lines[..k];
    StepLinesSnoc(a, lines[..k], lines[k], parse);
  }

  // ---------------------------------------------------------------------------
  // The read loop

  /** What one `await reader.read()` delivers. */
  datatype ReadResult =
    | Chunk(text: string)             // `{ done: false, value }`, already decoded
    | Rejected(isAbortError: bool)    // the read throws; `error.name === 'AbortError'` or not

  /** One read, and whether an animation frame passed while it was awaited. */
  datatype Read = Read(frameFired: bool, result: ReadResult)

  /** How `processAIStream` ends: at once when the response has no body,
      normally (after reporting the context, if it
      does), quietly on an `AbortError`, or by rethrowing any other error. */
  datatype Outcome = NoBody | Completed(reported: Option<seq<int>>) | Aborted | Failed

  /** How many reads the loop turns into chunks: it stops at the first read
      before which the abort signal is seen (`abortAt`), at the first rejected
      read, or when the reads run out (the reader reports `done`). */
  function Consumed(script: seq<Read>, abortAt: nat): (n: nat)
    ensures n <= |script| && n <= abortAt
    ensures forall k :: 0 <= k < n ==> script[k].result.Chunk?
    ensures n < |script| && n < abortAt ==> script[n].result.Rejected?
    decreases |script|
  {
    if abortAt == 0 || script == [] || script[0].result.Rejected? then 0
    else 1 + Consumed(script[1..], abortAt - 1)
  }

  /** The texts of a run of chunk reads. */
  function Texts(script: seq<Read>): (r: seq<string>)
    requires forall k :: 0 <= k < |script| ==> script[k].result.Chunk?
    ensures |r| == |script| && forall k :: 0 <= k < |script| ==> r[k] == script[k].result.text
  {
    if script == [] then [] else [script[0].result.text] + Texts(script[1..])
  }

  /** `ms` is `m0` with some of the messages carrying `id` showing a prefix of
      `full`: what the animation-frame pushes of a reply that reached `full`
      can have done to the chat list. */
  ghost predicate PushedOnly(m0: seq<ChatMessage>, ms: seq<ChatMessage>, id: string, full: string) {
    && |ms| == |m0|
    && forall i :: 0 <= i < |m0| ==>
         || ms[i] == m0[i]
         || (m0[i].id == id && ms[i] == m0[i].(content := ms[i].content) && ms[i].content <= full)
  }

  lemma PushedOnlyGrows(m0: seq<ChatMessage>, ms: seq<ChatMessage>, id: string, full: string, full': string)
    requires PushedOnly(m0, ms, id, full) && full <= full'
    ensures PushedOnly(m0, ms, id, full')
  {
  }

  /** One more push of the reply so far keeps the list within `PushedOnly`. */
  lemma PushedAgain(m0: seq<ChatMessage>, ms: seq<ChatMessage>, id: string, full: string)
    requires PushedOnly(m0, ms, id, full)
    ensures PushedOnly(m0, SetContent(ms, id, full), id, full)
  {
  }

  /** The final push overrides every earlier one: the list ends as if only the
      final push had happened. */
  lemma SetContentOverPushes(m0: seq<ChatMessage>, ms: seq<ChatMessage>, id: string, full: string)
    requires PushedOnly(m0, ms, id, full)
    ensures SetContent(ms, id, full) == SetContent(m0, id, full)
  {
    var a, b := SetContent(ms, id, full), SetContent(m0, id, full);
    forall i | 0 <= i < |m0| ensures a[i] == b[i] {
      assert ms[i].id == m0[i].id;
    }
  }

  /** The error path rewrites the last message whatever the pushes wrote to it,
      and leaves the rest as the pushes made it. */
  lemma ReplaceLastOverPushes(m0: seq<ChatMessage>, ms: seq<ChatMessage>, id: string, full: string, notice: string)
    requires PushedOnly(m0, ms, id, full) && ms != []
    ensures var r := ReplaceLast(ms, notice);
            && |r| == |m0|
            && PushedOnly(m0[..|m0| - 1], r[..|r| - 1], id, full)
            && r[|r| - 1] == m0[|m0| - 1].(content := notice)
  {
    var n := |m0| - 1;
    assert ms[n] == m0[n] || ms[n] == m0[n].(content := ms[n].content);
  }

  /** The loop stops at the first read that is past the abort point, rejected, or
      missing. */
  lemma {:induction false} ConsumedAt(script: seq<Read>, abortAt: nat, i: nat)
    requires i <= |script| && i <= abortAt
    requires forall k :: 0 <= k < i ==> script[k].result.Chunk?
    requires i == |script| || i == abortAt || script[i].result.Rejected?
    ensures Consumed(script, abortAt) == i
    decreases i
  {
    if i > 0 {
      ConsumedAt(script[1..], abortAt - 1, i - 1);
    }
  }

  lemma {:induction false} StepChunksConcat(a: Acc, xs: seq<string>, ys: seq<string>, parse: Parser)
    ensures StepChunks(a, xs + ys, parse) == StepChunks(StepChunks(a, xs, parse), ys, parse)
    decreases |xs|
  {
    if xs == [] {
      assert xs + ys == ys;
    } else {
      assert (xs + ys)[1..] == xs[1..] + ys;
      StepChunksConcat(StepChunk(a, xs[0], parse), xs[1..], ys, parse);
    }
  }

  lemma StepChunksSnoc(a: Acc, cs: seq<string>, c: string, parse: Parser)
    ensures StepChunks(a, cs + [c], parse) == StepChunk(StepChunks(a, cs, parse), c, parse)
  {
    StepChunksConcat(a, cs, [c], parse);
    StepChunksOne(StepChunks(a, cs, parse), c, parse);
  }

  lemma TextsSnoc(script: seq<Read>, n: nat)
    requires n < |script| && forall k :: 0 <= k <= n ==> script[k].result.Chunk?
    ensures Texts(script[..n + 1]) == Texts(script[..n]) + [script[n].result.text]
  {
    var a, b := Texts(script[..n + 1]), Texts(script[..n]) + [script[n].result.text];
    assert |a| == |b|;
    forall k | 0 <= k < |a| ensures a[k] == b[k] {
      assert script[..n + 1][k] == script[k];
    }
  }

  /** How a stream with a body ends: a rejected read ends it with the `catch`,
      as an abort or as a failure by the error's name; otherwise it completes and
      reports the context iff it is non-empty. */
  function Expected(script: seq<Read>, abortAt: nat, context: seq<int>): Outcome {
    var n := Consumed(script, abortAt);
    if n < |script| && n < abortAt then
      (if script[n].result.isAbortError then Aborted else Failed)
    else Completed(if |context| > 0 then Some(context) else None)
  }

  /** The chat list `m0` became `ms` in a stream that ended with `outcome` and
      reply `full`: completion leaves it as one final push of `full`; an abort
      leaves only the pushes; a failure leaves the pushes everywhere but in the
      last message, which holds the interruption notice followed by `full`. */
  ghost predicate ListAfter(m0: seq<ChatMessage>, ms: seq<ChatMessage>, outcome: Outcome, id: string, full: string) {
    && (outcome.Completed? ==> ms == SetContent(m0, id, full))
    && (outcome.Aborted? ==> PushedOnly(m0, ms, id, full))
    && (outcome.Failed? ==>
          && m0 != [] && |ms| == |m0|
          && PushedOnly(m0[..|ms| - 1], ms[..|ms| - 1], id, full)
          && ms[|ms| - 1] == m0[|ms| - 1].(content := InterruptedPrefix + full))
  }

  class StreamProcessor {
    /** `assistantMessage`, `finalContext`, `isCodeBlock`, `updatePending`. */
    var message: string
    var context: seq<int>
    var inCode: bool
    var updatePending: bool
    /** The chat list `setMessages` writes to. */
    var messages: seq<ChatMessage>
    /** The placeholder message this stream fills, and the `JSON.parse` it uses. */
    const tempId: string
    const parse: Parser
    /** Animation-frame callbacks requested and run so far. */
    ghost var requested: nat
    ghost var fired: nat

    /** At most one animation-frame callback is outstanding, exactly while an
        update is pending. */
    ghost predicate Valid()
      reads this
    {
      requested == fired + (if updatePending then 1 else 0)
    }

    function State(): Acc
      reads this
    {
      Acc(message, context, inCode)
    }

    constructor (tempId: string, messages: seq<ChatMessage>, parse: Parser)
      ensures Valid() && State() == Start && !updatePending
      ensures this.tempId == tempId && this.messages == messages && this.parse == parse
    {
      this.tempId := tempId;
      this.messages := messages;
      this.parse := parse;
      message := "";
      context := [];
      inCode := false;
      updatePending := false;
      requested := 0;
      fired := 0;
    }

    /** `throttledUpdate`: schedules one animation-frame push unless one is
        already pending, in which case it schedules nothing. */
    method RequestUpdate()
      requires Valid()
      modifies this`updatePending, this`requested
      ensures Valid() && updatePending
      ensures requested == old(requested) + (if old(updatePending) then 0 else 1)
    {
      if !updatePending {
        updatePending := true;
        requested := requested + 1;
      }
    }

    /** The scheduled animation-frame callback: shows the reply as it is now in
        the placeholder message, and clears the pending flag. */
    method FireScheduledUpdate()
      requires Valid() && updatePending
      modifies this`messages, this`updatePending, this`fired
      ensures Valid() && !updatePending && fired == old(fired) + 1
      ensures messages == SetContent(old(messages), tempId, message)
    {
      messages := SetContent(messages, tempId, message);
      updatePending := false;
      fired := fired + 1;
    }

    /** The body of the inner `try` for one candidate line. */
    method ProcessLine(line: string)
      requires Valid()
      modifies this`message, this`context, this`inCode, this`updatePending, this`requested
      ensures Valid()
      ensures State() == StepLine(old(State()), line, parse)
      ensures updatePending == (old(updatePending) || LineText(line, parse).Some?)
    {
      var parsed := parse(line);
      if parsed.None? {
        return;  // `JSON.parse` threw: logged and skipped
      }
      var frame := parsed.value;
      if frame.context.Some? {
        context := frame.context.value;
      }
      var content: string;
      match frame.response {
        case NonString => return;  // `.replace` is not a function: logged and skipped
        case Falsy => content := "";
        case Str(s) => content := s;
      }
      content := ReplaceOperators(content);
      content := RepairBoxed(content);
      if HasFence(content) {
        inCode := !inCode;
      }
      message := message + content;
      RequestUpdate();
    }

    /** One decoded chunk: every candidate line, in chunk order. */
    method ProcessChunk(text: string)
      requires Valid()
      modifies this`message, this`context, this`inCode, this`updatePending, this`requested
      ensures Valid()
      ensures State() == StepChunk(old(State()), text, parse)
      ensures old(message) <= message
      ensures updatePending == (old(updatePending) || AnyFragment(CandidateLines(text), parse))
    {
      var lines := CandidateLines(text);
      ProcessLines(lines);
    }

    /** The `for` loop over the candidate lines of a chunk. */
    method ProcessLines(lines: seq<string>)
      requires Valid()
      modifies this`message, this`context, this`inCode, this`updatePending, this`requested
      ensures Valid()
      ensures State() == StepLines(old(State()), lines, parse)
      ensures old(message) <= message
      ensures updatePending == (old(updatePending) || AnyFragment(lines, parse))
    {
      MessageGrows(old(State()), lines, parse);
      var k := 0;
      while k < |lines|
        invariant 0 <= k <= |lines|
        invariant Valid()
        invariant State() == StepLines(old(State()), lines[..k], parse)
        invariant updatePending == (old(updatePending) || AnyFragment(lines[..k], parse))
      {
        ProcessLine(lines[k]);
        NextLine(old(State()), lines, k, parse);
        k := k + 1;
      }
      assert lines[..k] == lines;
    }

    /** After the loop: hands the context to `onContext` when it is non-empty (the
        only call, so at most once), and pushes the final reply unconditionally. */
    method Finish() returns (reported: Option<seq<int>>)
      modifies this`messages
      ensures reported == (if |context| > 0 then Some(context) else None)
      ensures messages == SetContent(old(messages), tempId, message)
    {
      reported := if |context| > 0 then Some(context) else None;
      messages := SetContent(messages, tempId, message);
    }

    /** The outer `catch`: an `AbortError` returns without touching the list; any
        other error shows the interruption notice and the reply so far in the
        last message, then is rethrown. */
    method HandleError(isAbortError: bool)
      requires isAbortError || messages != []
      modifies this`messages
      ensures isAbortError ==> messages == old(messages)
      ensures !isAbortError ==> messages == ReplaceLast(old(messages), InterruptedPrefix + message)
    {
      if !isAbortError {
        messages := ReplaceLast(messages, InterruptedPrefix + message);
      }
    }

    /** The scheduled push running between two reads, seen against the whole
        run so far: the reply state is untouched and the list still holds only
        pushes of a prefix of the reply. */
    method FireDuringRun(ghost m0: seq<ChatMessage>)
      requires Valid() && updatePending
      requires PushedOnly(m0, messages, tempId, message)
      modifies this`messages, this`updatePending, this`fired
      ensures Valid() && State() == old(State())
      ensures PushedOnly(m0, messages, tempId, message)
    {
      PushedAgain(m0, messages, tempId, message);
      FireScheduledUpdate();
    }

    /** One chunk read inside the loop, seen against the whole run so far: the
        state is the fold over one more chunk, and the list still holds only
        pushes of a prefix of the reply. */
    method TakeChunk(ghost m0: seq<ChatMessage>, ghost a0: Acc, ghost texts: seq<string>, text: string)
      requires Valid() && State() == StepChunks(a0, texts, parse)
      requires PushedOnly(m0, messages, tempId, message)
      modifies this`message, this`context, this`inCode, this`updatePending, this`requested
      ensures Valid() && State() == StepChunks(a0, texts + [text], parse)
      ensures PushedOnly(m0, messages, tempId, message)
    {
      ghost var before := message;
      ProcessChunk(text);
      StepChunksSnoc(a0, texts, text, parse);
      PushedOnlyGrows(m0, messages, tempId, before, message);
    }

    /** The `while (true)` loop: reads until the abort signal is seen, the
        reader is done or a read is rejected, and returns how many reads it
        turned into chunks. */
    method ReadAll(script: seq<Read>, abortAt: nat) returns (n: nat)
      requires Valid()
      modifies this`message, this`context, this`inCode, this`updatePending, this`requested
      modifies this`messages, this`fired
      ensures Valid()
      ensures n == Consumed(script, abortAt)
      ensures State() == StepChunks(old(State()), Texts(script[..n]), parse)
      ensures PushedOnly(old(messages), messages, tempId, message)
    {
      n := 0;
      ghost var a0 := State();
      ghost var texts: seq<string> := [];
      while true
        invariant n <= |script| && n <= abortAt
        invariant forall k :: 0 <= k < n ==> script[k].result.Chunk?
        invariant texts == Texts(script[..n])
        invariant Valid()
        invariant State() == StepChunks(a0, texts, parse)
        invariant PushedOnly(old(messages), messages, tempId, message)
        decreases |script| - n
      {
        if n == abortAt {
          break;  // `controller.signal.aborted`
        }
        if n == |script| {
          break;  // the reader reports `done`
        }
        var read := script[n];
        if read.frameFired && updatePending {
          FireDuringRun(old(messages));
        }
        if read.result.Rejected? {
          break;  // the read throws: handled after the loop
        }
        var text := read.result.text;
        TakeChunk(old(messages), a0, texts, text);
        TextsSnoc(script, n);
        texts := texts + [text];
        n := n + 1;
      }
      ConsumedAt(script, abortAt, n);
    }

    /** The whole of `processAIStream` over a script of reads. Without a body
        there is no reader and nothing happens. Otherwise the abort signal is
        checked before each read and is seen from read `abortAt` on; an
        animation frame that passes during a read runs the pending push, if
        any. */
    method Run(hasBody: bool, script: seq<Read>, abortAt: nat) returns (outcome: Outcome)
      requires Valid() && State() == Start && !updatePending && messages != []
      modifies this
      ensures Valid()
      ensures !hasBody ==> outcome == NoBody && messages == old(messages) && State() == Start
      ensures hasBody ==>
                && State() == StepChunks(Start, Texts(script[..Consumed(script, abortAt)]), parse)
                && outcome == Expected(script, abortAt, context)
                && ListAfter(old(messages), messages, outcome, tempId, message)
    {
      if !hasBody {
        return NoBody;
      }
      var n := ReadAll(script, abortAt);
      ghost var reached := State();
      outcome := Settle(old(messages), script, abortAt, n);
      assert State() == reached && Valid();
    }

    /** What follows the loop in `processAIStream`: the `catch` when the loop
        stopped at a rejected read, the final push and `onContext` otherwise. */
    method Settle(ghost m0: seq<ChatMessage>, script: seq<Read>, abortAt: nat, n: nat) returns (outcome: Outcome)
      requires n == Consumed(script, abortAt) && m0 != []
      requires PushedOnly(m0, messages, tempId, message)
      modifies this`messages
      ensures outcome == Expected(script, abortAt, context)
      ensures ListAfter(m0, messages, outcome, tempId, message)
    {
      if n < |script| && n < abortAt {
        var isAbortError := script[n].result.isAbortError;
        if !isAbortError {
          ReplaceLastOverPushes(m0, messages, tempId, message, InterruptedPrefix + message);
        }
        HandleError(isAbortError);
        return if isAbortError then Aborted else Failed;
      }
      SetContentOverPushes(m0, messages, tempId, message);
      var reported := Finish();
      outcome := Completed(reported);
    }
  }
}
