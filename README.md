# Chat client core: a Dafny model

This project models the logic at the centre of a chat front end that streams
replies from a local language-model server. It covers four parts.

- **The reply stream engine** (`processAIStream`, components/stream-utils.ts).
  It reads the HTTP body chunk by chunk and splits each chunk into
  newline-delimited JSON frames. Frames that do not parse are skipped.
  - Each frame's `response` text is normalised:
    - `\times`, `\div` and `\pm` before a word boundary become glyphs;
    - `\boxed` fragments are patched;
    - a code-fence bit is flipped.
  - The text is appended to the reply, and the last `context` array is remembered.
  - Screen updates are coalesced through one "update pending" flag.
  - After the loop, one final push and a context report happen.
  - An abort check runs before every read. A separate error path prefixes an interruption notice.

  The engine is the class `StreamUtils.StreamProcessor`, and each method is
  proved against pure step functions (`StepLine`, `StepChunk`, `StepChunks`). The
  normaliser is the pure `StreamText.Normalise`.
- **The rendering-side text preprocessing** (components/markdown.tsx).
  - `convertMathSymbols` replaces six TeX operators that stand between white space
    or the ends of the text.
  - It is followed by the `$$…$$` and `$…$` rewrites.
  - Each regular-expression replacement is modelled as the left-to-right,
    non-overlapping scan it performs.
- **The submit/stop controller of the input box** (components/multimodal-input.tsx).
  The class `MultimodalInput.InputController` holds:
  - the conversation context;
  - the abort controller of the running request;
  - the placeholder id;
  - the local loading flag.

  Its methods cover submitting, receiving a context, stopping, failing, settling
  and switching chats.
- **Pure helpers** (lib/utils.ts): `generateUUID`, `convertToUIMessages`,
  `sanitizeUIMessages` and `getDocumentTimestampByIndex`.

The code behaves differently from an idealised stream client in several ways. The model follows the code in each case:

- Nothing carries over between reads. A frame split across two reads gives two fragments that both fail to parse and are lost (`StreamUtils.SplitFrameIsLost`).
- `\boxed` repair is per fragment. There is no brace count over the whole message (`StreamUtils.BoxedRepairIsPerFragment`).
- The repair is idempotent on every fragment except `\boxed{`. That fragment becomes `\boxed{}` and then `\boxed{\ }` (`StreamText.RepairBoxedIdempotent`).
- The interruption notice written by the error path does not survive. When the placeholder is the last message, the caller's rollback removes it again (`Chat.RollbackDiscardsReplacedLast`). This holds because React state updates are taken to apply when they are issued. If the rollback updater were deferred, it would read the placeholder id after the `finally` block cleared it, match nothing, and the notice would stay.
- `JSON.parse` is the parameter `parse`, a partial function from a line to a frame. A frame has:
  - a `response` that is a string, falsy, or a non-string truthy value (on which `.replace` throws, so the fragment is skipped after its context was taken);
  - an optional `context`.

  The clocks (`Date.now()`) and `Math.random` are parameters as well.

## Model

| member | source | states |
|---|---|---|
| Seqs.Filter | lib/utils.ts:58-63 | `Array.prototype.filter`: no longer than the input, every kept element satisfies the predicate, and an element is kept iff it is in the input and satisfies the predicate |
| Seqs.FilterIsSubsequence | lib/utils.ts:58-63 | the filtered list keeps its elements in their original order (a subsequence of the input) |
| Seqs.FilterIdempotent | lib/utils.ts:58-63 | filtering twice with the same predicate is filtering once |
| Seqs.FilterConcat | lib/utils.ts:58-63 | filtering distributes over concatenation; with the one-element case of `Filter` this fixes the result exactly, including how many times a repeated kept message appears |
| Text.TrimStart | components/stream-utils.ts:55 | `trimStart`: the result is a suffix, everything dropped is white space, and the result does not start with white space |
| Text.TrimEnd | components/stream-utils.ts:55 | `trimEnd`: the result is a prefix, everything dropped is white space, and the result does not end with white space |
| Text.TrimEmptyIffBlank | components/stream-utils.ts:55 | `line.trim() === ''` holds exactly when every character of the line is white space |
| Text.Trim | components/stream-utils.ts:55 | `trim()`, built from TrimStart and TrimEnd; TrimEmptyIffBlank states when it is empty |
| Text.Split | components/stream-utils.ts:53-54 | `split('\n')` yields at least one piece and no piece holds a newline |
| Text.JoinSplit | components/stream-utils.ts:53-54 | joining the pieces with newlines gives back the chunk, so splitting loses no text |
| Text.SplitWithoutNewline | components/stream-utils.ts:53-54 | a text without a newline splits into itself alone |
| Text.Decimal | components/multimodal-input.tsx:79 | `Date.now().toString()` is a non-empty string of decimal digits; DecimalReadBack reads the number back from it |
| Text.DecimalReadBack | components/multimodal-input.tsx:79-80 | reading the digits of `n.toString()` back gives `n`, so the string determines the clock reading |
| Text.DecimalInjective | components/multimodal-input.tsx:79-80 | two different clock readings are written as two different strings |
| Chat.SetContent | components/stream-utils.ts:29-35 | the `prev.map` update: same length, the message with the given id gets the new content, every other message is unchanged |
| Chat.SetContentLastWins | components/stream-utils.ts:93-99 | a later push of the same id overrides an earlier one completely |
| Chat.SetContentAbsent | components/stream-utils.ts:29-35 | a push for an id not in the list changes nothing |
| Chat.FindIndex | components/multimodal-input.tsx:137 | `findIndex`: -1 iff no message has the id, otherwise the first index whose message has it |
| Chat.TruncateBefore | components/multimodal-input.tsx:137-138 | the truncation is a prefix of the list with no message carrying the id, and it stops exactly at the first message that does |
| Chat.TruncateBeforeIdempotent | components/multimodal-input.tsx:156-157 | truncating twice is truncating once |
| Chat.ReplaceLast | components/stream-utils.ts:109-118 | same length, all but the last message unchanged, the last one keeps its fields except the new content |
| Chat.RollbackDiscardsReplacedLast | components/multimodal-input.tsx:136-139 | when the placeholder is last, the rollback after the error path removes the interruption notice together with the placeholder |
| Chat.FindIndexSameIds | components/multimodal-input.tsx:137 | content pushes never move the placeholder: lists with the same ids find it at the same place |
| StreamText.ReplaceBounded | components/stream-utils.ts:67-69 | `.replace(/\\op\b/g, glyph)` as a left-to-right scan; specified by ReplaceBoundedAt and ReplaceBoundedGlued (exactly which occurrences are replaced, at any position), ReplaceBoundedRoundTrip, ReplaceBoundedChars and ReplaceBoundedClears |
| StreamText.ReplaceBoundedAt | components/stream-utils.ts:67-69 | wherever it stands, an operator followed by the end of the text or by a non-word character becomes the glyph, and the text before and after is scanned as on its own |
| StreamText.ReplaceBoundedGlued | components/stream-utils.ts:67-69 | wherever it stands, an operator followed by a word character is copied unchanged with that character (`\timesx` stays), and the text before and after is scanned as on its own |
| StreamText.ReplaceBoundedSplit | components/stream-utils.ts:67-69 | the scan of a text followed by one that starts with a backslash is the scan of each part: no match reaches across, and a match ending at the join is bounded either way |
| StreamText.NoBackslashPrefixCopied | components/stream-utils.ts:67-69 | a backslash-free stretch is copied as it is, whatever follows it |
| StreamText.ReplaceBoundedRoundTrip | components/stream-utils.ts:66-69 | `.replace(/\\op\b/g, glyph)` loses nothing: expanding the glyph back yields the original text when the glyph did not occur in it |
| StreamText.ReplaceBoundedChars | components/stream-utils.ts:66-69 | the replacement introduces no character other than the glyph |
| StreamText.PrefixOfReplaced | components/stream-utils.ts:66-69 | a backslash-free, glyph-free prefix of the result is a prefix of the input |
| StreamText.PrefixSurvives | components/stream-utils.ts:66-69 | a backslash-free prefix of the input survives the replacement |
| StreamText.ReplaceBoundedClears | components/stream-utils.ts:66-69 | after the global replacement no occurrence of the operator followed by a word boundary remains; ReplaceBoundedGlued states the other half, that an operator followed by a word character is not replaced |
| StreamText.NoBackslashUnchanged | components/stream-utils.ts:66-69 | text without a backslash passes unchanged |
| StreamText.ReplaceOperatorsRoundTrip | components/stream-utils.ts:66-69 | the three-operator chain is undone by expanding ×, ÷ and ± back, for text that had none of them |
| StreamText.OperatorsNoBackslash | components/stream-utils.ts:66-69 | the chain leaves text without a backslash unchanged |
| StreamText.RepairBoxed | components/stream-utils.ts:71-75 | exactly `\boxed{}` becomes `\boxed{\ }`; any other fragment starting with `\boxed` gets one `}` appended iff it does not end in `}` and is kept otherwise; a fragment not starting with `\boxed` is unchanged; every result starting with `\boxed` ends in `}` |
| StreamText.ReplaceOperators | components/stream-utils.ts:66-69 | the three replacements in the source's order; specified by ReplaceOperatorsRoundTrip and OperatorsNoBackslash |
| StreamText.Normalise | components/stream-utils.ts:65-75 | operator replacement followed by the `\boxed` repair; specified by NormaliseOpenBoxed, StreamUtils.NormaliseNoBackslash and the contract of RepairBoxed |
| StreamText.HasFence | components/stream-utils.ts:77-79 | `content.includes('```')`; its effect on the fence bit is stated by StreamUtils.StepLinesEffect |
| StreamText.RepairBoxedIdempotent | components/stream-utils.ts:71-75 | repairing twice equals repairing once, iff the fragment is not `\boxed{` |
| StreamText.NormaliseOpenBoxed | components/stream-utils.ts:65-75 | the normaliser turns the fragment `\boxed{` into `\boxed{}` |
| StreamUtils.CandidateLines | components/stream-utils.ts:52-55 | `split('\n')` then the non-blank filter; specified by CandidateLinesSpec and CandidateLinesOfLine |
| StreamUtils.StepFrame | components/stream-utils.ts:61-82 | one parsed frame: a truthy context is taken first, then the normalised fragment is appended and the fence bit flipped; summed up over many lines by StepLinesEffect |
| StreamUtils.StepLine | components/stream-utils.ts:57-85 | one candidate line: a line that fails to parse changes nothing (MalformedLineIgnored), any other is one StepFrame |
| StreamUtils.StepLines | components/stream-utils.ts:57-86 | the inner `for` loop as a fold; specified by StepLinesEffect, StepLinesConcat and MessageGrows, and ProcessLines is proved equal to it |
| StreamUtils.StepChunk | components/stream-utils.ts:52-86 | one read: the fold over that chunk's candidate lines alone; ChunksAreSeparate |
| StreamUtils.StepChunks | components/stream-utils.ts:42-87 | the read loop as a fold over chunks; specified by ChunksAreSeparate and ChunksMessageGrows, and ReadAll is proved equal to it |
| StreamUtils.CandidateLinesSpec | components/stream-utils.ts:52-55 | the candidates of a chunk are the newline-free pieces that are not blank, exactly those, in chunk order |
| StreamUtils.StepLinesEffect | components/stream-utils.ts:57-85 | after a run of lines the message is the old one plus the normalised texts of the parsed frames, the context is the last truthy frame context (or the old one), and the fence bit flipped once per fragment holding a fence |
| StreamUtils.StepLinesConcat | components/stream-utils.ts:57-86 | processing lines in two runs is processing them in one |
| StreamUtils.MessageGrows | components/stream-utils.ts:81 | the accumulated message only grows |
| StreamUtils.MalformedLineIgnored | components/stream-utils.ts:83-85 | a line `JSON.parse` rejects changes no state and later lines are still processed |
| StreamUtils.ChunksAreSeparate | components/stream-utils.ts:52-57 | processing chunks is processing the candidates of each chunk in turn, with nothing carried over between reads |
| StreamUtils.ChunksMessageGrows | components/stream-utils.ts:42-87 | across reads the message only grows |
| StreamUtils.SplitFrameIsLost | components/stream-utils.ts:52-55 | a frame split over two reads into two unparseable halves adds nothing |
| StreamUtils.WholeFrameIsProcessed | components/stream-utils.ts:52-59 | the same frame delivered in one read is processed as one line |
| StreamUtils.NormaliseNoBackslash | components/stream-utils.ts:65-75 | text without a backslash passes the whole normaliser unchanged |
| StreamUtils.BoxedRepairIsPerFragment | components/stream-utils.ts:71-75 | a frame `\boxed{` followed by a frame with backslash-free text `t` appends `\boxed{}` then `t`: the brace is closed before `t` arrives (`\boxed{}4`, not `\boxed{4}`) |
| StreamUtils.TwoFrameReply | components/stream-utils.ts:57-82 | a reply `4` followed by a done frame with context `[1,2,3]` gives message `4` and that context |
| StreamUtils.EmptyContextOverwrites | components/stream-utils.ts:61-63 | an empty `context` array is truthy and overwrites an earlier non-empty one |
| StreamUtils.NextLine | components/stream-utils.ts:57-86 | one more line extends the fold by one step and sets the pending flag iff its frame's handler reached the append (a string or falsy `response`) |
| StreamUtils.Consumed | components/stream-utils.ts:42-50 | the loop reads at most up to the abort point and the end of the body; every read before the stop delivered a chunk, and a stop before both limits is a rejected read |
| StreamUtils.ConsumedAt | components/stream-utils.ts:42-50 | the loop stops at exactly the first abort, end of body or rejected read |
| StreamUtils.Texts | components/stream-utils.ts:49-52 | the decoded texts are the chunks of the reads, in order |
| StreamUtils.SetContentOverPushes | components/stream-utils.ts:93-99 | the final push gives the same list whatever scheduled pushes happened before it |
| StreamUtils.ReplaceLastOverPushes | components/stream-utils.ts:109-118 | the error path keeps the list length and writes the notice over the old last message |
| StreamUtils.StreamProcessor.constructor | components/stream-utils.ts:19-23 | empty message and context, fence bit off, nothing pending |
| StreamUtils.StreamProcessor.RequestUpdate | components/stream-utils.ts:25-39 | `throttledUpdate`: schedules a push only when none is pending; afterwards one is pending |
| StreamUtils.StreamProcessor.FireScheduledUpdate | components/stream-utils.ts:28-37 | the scheduled frame sets only the placeholder's content to the current message and clears the flag |
| StreamUtils.StreamProcessor.ProcessLine | components/stream-utils.ts:58-85 | one candidate line advances the state by the step function; a push is pending iff one was, or the frame's handler reached the append (a string or falsy `response`) |
| StreamUtils.StreamProcessor.ProcessLines | components/stream-utils.ts:57-86 | the `for` loop advances the state by the fold over the lines; the message only grows |
| StreamUtils.StreamProcessor.ProcessChunk | components/stream-utils.ts:52-86 | one read advances the state by the chunk step; the message only grows; a push is pending iff one was, or some candidate's handler reached the append (a string or falsy `response`) |
| StreamUtils.StreamProcessor.Finish | components/stream-utils.ts:89-99 | reports the context iff it is non-empty and sets the placeholder's content to the whole message |
| StreamUtils.StreamProcessor.HandleError | components/stream-utils.ts:100-119 | an `AbortError` leaves the list alone; any other error writes the notice plus the message into the last message |
| StreamUtils.StreamProcessor.ReadAll | components/stream-utils.ts:42-87 | reads until the abort point, the end or a rejected read; the state is the fold over the chunks read; only placeholder pushes touched the list |
| StreamUtils.StreamProcessor.Settle | components/stream-utils.ts:89-119 | after the loop: the outcome is the one `Expected` names for the reads consumed; completion leaves the list as one final push of the whole message, an abort error leaves only pushes, another error puts the notice plus the message into the last message (`ListAfter`) |
| StreamUtils.StreamProcessor.Run | components/stream-utils.ts:9-121 | no body: nothing happens; otherwise the state is the fold over the chunks read; completion reports the context iff non-empty and pushes the whole message; an abort error leaves only pushes; another error replaces the last message with the notice |
| MarkdownText.ConvertFrom | components/markdown.tsx:14-19 | one operator's start-or-space, operator, space-or-end replacement as a left-to-right scan; specified by ConvertFromRoundTrip, ConvertFromChars, ConvertFromNoBackslash and, at any position, by ConvertCopy, ConvertNonSpaceRun, ConvertSpacedAt, ConvertAtEnd, ConvertBetween, ConvertGluedBefore and ConvertGluedAfter |
| MarkdownText.ConvertOp | components/markdown.tsx:14-19 | that scan started at the start of the text, where `^` matches; ConvertAtStart, ConvertGluedAfterHead and ConvertShared state what happens there |
| MarkdownText.ConvertMathSymbols | components/markdown.tsx:12-20 | the six replacements in the source's order; specified by ConvertMathSymbolsRoundTrip and ConvertMathSymbolsNoBackslash |
| MarkdownText.MatchEnd | components/markdown.tsx:14 | the trailing white-space-or-end group: the match ends after the operator and at most one white-space character |
| MarkdownText.ConvertFromRoundTrip | components/markdown.tsx:14 | one operator's replacement loses nothing: expanding the glyph back gives the input when the glyph did not occur |
| MarkdownText.ConvertFromChars | components/markdown.tsx:14 | the replacement introduces no character other than the glyph |
| MarkdownText.ConvertFromNoBackslash | components/markdown.tsx:14 | text without a backslash is unchanged by one operator's pass |
| MarkdownText.ConvertAtStart | components/markdown.tsx:14 | at the start of the text, an operator followed by white space or the end is replaced by the glyph; the white space stays and the scan goes on after it |
| MarkdownText.ConvertCopy | components/markdown.tsx:14 | anywhere past the start, a character is copied and the scan moves on unless it is white space directly followed by a match |
| MarkdownText.ConvertNonSpaceRun | components/markdown.tsx:14 | anywhere past the start, a stretch with no white space is copied unchanged whatever follows it |
| MarkdownText.ConvertSpacedAt | components/markdown.tsx:14 | anywhere in the text, white space, an operator, white space becomes white space, glyph, white space, and the scan goes on after them |
| MarkdownText.ConvertAtEnd | components/markdown.tsx:14 | anywhere in the text, white space then an operator that ends the text becomes the white space and the glyph |
| MarkdownText.ConvertBetween | components/markdown.tsx:14 | for any operator and any surrounding text, one between two white-space characters is converted and both are kept; the rest of the text is scanned on its own |
| MarkdownText.ConvertGluedBefore | components/markdown.tsx:14 | for any operator and any surrounding text, one glued to the non-space character before it is copied unchanged; the rest is scanned on its own |
| MarkdownText.ConvertGluedAfter | components/markdown.tsx:14 | for any operator and any surrounding text, one glued to the non-space character after it is copied unchanged; the rest is scanned on its own |
| MarkdownText.ConvertGluedAfterHead | components/markdown.tsx:14 | the same at the start of the text, where nothing precedes the operator |
| MarkdownText.ConvertShared | components/markdown.tsx:14 | for any operator, in `op op` separated by one space the first match consumes the space, so only the first operator is converted (`\times \times` becomes `× \times`) |
| MarkdownText.ConvertBetweenSpaces | components/markdown.tsx:14 | `a \times b` becomes `a × b`, both spaces kept |
| MarkdownText.ConvertNeedsSpaceBefore | components/markdown.tsx:14 | `a\times b` is left unchanged |
| MarkdownText.ConvertNeedsSpaceAfter | components/markdown.tsx:14 | `\timesx` is left unchanged |
| MarkdownText.ConvertMathSymbolsRoundTrip | components/markdown.tsx:12-20 | the six-operator chain loses nothing: expanding the six glyphs back gives the input when none occurred in it |
| MarkdownText.ConvertMathSymbolsNoBackslash | components/markdown.tsx:12-20 | text without a backslash is returned unchanged |
| MarkdownText.FindClose | components/markdown.tsx:128-129 | the lazy `(.*?)` finds a closing delimiter inside the text |
| MarkdownText.FindCloseFirst | components/markdown.tsx:128-129 | the closing delimiter found is the first, no line terminator precedes it, and when none is found every later delimiter lies beyond a line terminator |
| MarkdownText.BlockPass | components/markdown.tsx:128 | the `$$…$$` replacement as a scan; BlockPassIdentity shows it is the identity |
| MarkdownText.InlinePass | components/markdown.tsx:129 | the `$…$` replacement as a scan; specified by InlinePassKeepsText and, at any position, by InlinePassPlain, InlinePassNoDollarPrefix, InlineFormulaWidenedAt and InlineDoublesPair |
| MarkdownText.PreprocessAsWritten | components/markdown.tsx:127-129 | the three stages in the source's order; PreprocessAsWrittenNoBackslash reduces it to the inline pass on any backslash-free text, so the inline pass's lemmas apply at every position |
| MarkdownText.BlockPassIdentity | components/markdown.tsx:128 | the `$$…$$` rewrite writes every match back as it was: it is the identity |
| MarkdownText.InlinePassKeepsText | components/markdown.tsx:129 | the inline rewrite changes only dollar signs: without them the text is the same |
| MarkdownText.InlinePassNoDollar | components/markdown.tsx:129 | text without `$` passes unchanged |
| MarkdownText.InlinePassPlain | components/markdown.tsx:129 | anywhere in the text, a character other than `$` is copied and the scan moves on |
| MarkdownText.InlinePassNoDollarPrefix | components/markdown.tsx:129 | a stretch without `$` is copied unchanged whatever follows it, so what comes after it is rewritten as if it opened the text |
| MarkdownText.InlineFormulaWidenedAt | components/markdown.tsx:129 | anywhere in the text, a one-line `$p$` with no `$` inside becomes `$$p$$` and the scan goes on after it |
| MarkdownText.InlineDoublesPair | components/markdown.tsx:129 | anywhere in the text, `$$` reads as an empty inline formula and becomes `$$$$` |
| MarkdownText.InlinePassDoublesDisplay | components/markdown.tsx:129 | the inline pass turns `$$p$$` (no `$` in `p`) into `$$$$p$$$$` |
| MarkdownText.PreprocessAsWrittenNoBackslash | components/markdown.tsx:127-129 | as written, on text without a backslash the whole preprocessing equals the inline pass |
| MarkdownText.InlineFormulaWidened | components/markdown.tsx:127-129 | as written, a reply `$p$` (no `$`, backslash or line terminator in `p`, `p` possibly empty) becomes `$$p$$` |
| MarkdownText.DisplayFormulaDoubled | components/markdown.tsx:127-129 | as written, a display formula `$$p$$` (no `$` or backslash in `p`) comes out as `$$$$p$$$$` |
| MarkdownText.DollarPass | components/markdown.tsx:128-129 | the corrected single scan that leaves `$$…$$` alone and widens `$…$`; specified by DollarPassKeepsText and, at any position, by DollarPassPlain, DollarPassNoDollarPrefix, DisplayFormulaKept and InlineFormulaWidenedOnce |
| MarkdownText.Preprocess | components/markdown.tsx:127-129 | the corrected preprocessing; PreprocessNoBackslash reduces it to the corrected scan on any backslash-free text; DisplayFormulaPreserved and InlineFormulaStillWidened state it on whole formulas |
| MarkdownText.PreprocessNoBackslash | components/markdown.tsx:127-129 | with the correction, on text without a backslash the whole preprocessing equals the corrected scan |
| MarkdownText.DollarPassPlain | components/markdown.tsx:128-129 | corrected scan: anywhere in the text, a character other than `$` is copied and the scan moves on |
| MarkdownText.DollarPassNoDollarPrefix | components/markdown.tsx:128-129 | corrected scan: a stretch without `$` is copied unchanged whatever follows it, so every formula after it is treated as if it opened the text |
| MarkdownText.DisplayFormulaKept | components/markdown.tsx:127-129 | corrected scan: a one-line `$$p$$` (no `$` in `p`) is kept as it is, followed by the scan of whatever comes after it; with DollarPassNoDollarPrefix this holds at any position |
| MarkdownText.InlineFormulaWidenedOnce | components/markdown.tsx:129 | corrected scan: a one-line non-empty `$p$` (no `$` in `p`) becomes `$$p$$` exactly once, followed by the scan of whatever comes after it; with DollarPassNoDollarPrefix this holds at any position |
| MarkdownText.DollarPassKeepsText | components/markdown.tsx:127-129 | the corrected scan changes only dollar signs |
| MarkdownText.DisplayFormulaPreserved | components/markdown.tsx:127-129 | corrected preprocessing leaves a reply `$$p$$` (no `$`, backslash or line terminator in `p`) as it is |
| MarkdownText.InlineFormulaStillWidened | components/markdown.tsx:127-129 | corrected preprocessing still turns a reply `$p$` (non-empty, no `$`, backslash or line terminator in `p`) into `$$p$$` |
| MultimodalInput.UserId | components/multimodal-input.tsx:79 | `Date.now().toString()`; UserIdInjective and UserIdIsNotTempId |
| MultimodalInput.TempId | components/multimodal-input.tsx:80 | `` `temp-${Date.now()}` ``; TempIdInjective and UserIdIsNotTempId |
| MultimodalInput.UserIdInjective | components/multimodal-input.tsx:79 | user messages sent at different clock readings get different ids |
| MultimodalInput.TempIdInjective | components/multimodal-input.tsx:80 | placeholders created at different clock readings get different ids, so an earlier reply's placeholder id never matches a later one |
| MultimodalInput.UserMessage | components/multimodal-input.tsx:83-88 | the appended user message; its effect is stated by InputController.Begin and RollbackAfterSubmit |
| MultimodalInput.Placeholder | components/multimodal-input.tsx:90-95 | the empty assistant placeholder; its effect is stated by InputController.Begin and RollbackAfterSubmit |
| MultimodalInput.CanSubmit | components/multimodal-input.tsx:74-75 | the negation of the early-return guard (blank trimmed input, or a request loading); used in the contract of InputController.Submit |
| MultimodalInput.UserIdIsNotTempId | components/multimodal-input.tsx:79-80 | a user message id never equals a placeholder id, whatever the clock readings |
| MultimodalInput.SentContext | components/multimodal-input.tsx:109 | the request carries the context iff it is non-empty, and then exactly it |
| MultimodalInput.Rollback | components/multimodal-input.tsx:137-138 | the rollback is a prefix of the list with no message carrying the placeholder id, stopping at the first that does; unchanged when no id is held |
| MultimodalInput.RollbackAfterSubmit | components/multimodal-input.tsx:83-95 | rolling back just after the two appends removes the placeholder and keeps the user message |
| MultimodalInput.SubmitThenRollback | components/multimodal-input.tsx:151-160 | stopping right after a submit leaves the old list plus the user message |
| MultimodalInput.AbortController.Abort | components/multimodal-input.tsx:154 | `abort()` sets the signal's aborted flag |
| MultimodalInput.InputController.constructor | components/multimodal-input.tsx:56-64 | mounting: empty context, no controller, no placeholder id, not loading |
| MultimodalInput.InputController.Submit | components/multimodal-input.tsx:73-110 | with blank input or loading nothing changes and no request goes out; otherwise the input is cleared, loading set, user message and empty placeholder appended, a fresh unaborted controller held, and the request carries the trimmed text and the context only if non-empty |
| MultimodalInput.InputController.Begin | components/multimodal-input.tsx:77-110 | the proceeding half of a submit: input cleared, loading set, the submitted text kept, user message and empty placeholder appended under a fresh temp id, a fresh unaborted controller held, and the request built from the held context |
| MultimodalInput.InputController.OnContext | components/multimodal-input.tsx:117-119 | `handleNewContext` replaces the held context |
| MultimodalInput.InputController.Stop | components/multimodal-input.tsx:151-162 | with a controller: aborts it, rolls the list back before the placeholder, empties the context; without one nothing changes |
| MultimodalInput.InputController.Settle | components/multimodal-input.tsx:142-146 | the `finally` block clears controller and placeholder id and the loading flag |
| MultimodalInput.InputController.Fail | components/multimodal-input.tsx:129-146 | an `AbortError` leaves input, list and context; any other error restores the submitted text, rolls back and empties the context; both settle |
| MultimodalInput.InputController.Succeed | components/multimodal-input.tsx:142-146 | a normal end only settles |
| MultimodalInput.InputController.ChangeChat | components/multimodal-input.tsx:62-64 | a new chat id empties the context; the same id keeps it |
| Utils.GenerateUUID | lib/utils.ts:23-29 | the template filled with 31 random nibbles; specified by UUIDLayout and ReadSlotsFill |
| Utils.HexDigit | lib/utils.ts:27 | `v.toString(16)` of a nibble is a lower-case hexadecimal digit |
| Utils.HexValueOfDigit | lib/utils.ts:27 | the digit reads back as the nibble it shows |
| Utils.VariantOf | lib/utils.ts:26 | the variant expression (low two bits of the draw, bit 8 set) lies in 8..11 and keeps the low two bits of the draw |
| Utils.Fill | lib/utils.ts:24-28 | the template fill keeps the length, keeps every non-slot character, writes a hex digit at each `x` and one of `8`, `9`, `a`, `b` at each `y` |
| Utils.SlotsOfTemplate | lib/utils.ts:24 | the template has 31 random slots |
| Utils.UUIDLayout | lib/utils.ts:23-29 | for any draws: 36 characters, `-` at 8, 13, 18 and 23, `4` at 14, one of `8`, `9`, `a`, `b` at 19, lower-case hexadecimal elsewhere |
| Utils.ReadSlotsFill | lib/utils.ts:24-28 | every draw can be read back from its slot (the variant digit for the `y` slot) |
| Utils.ConvertToUIMessages | lib/utils.ts:45-55 | same length and order; id, role, creation time and attachments carried over; string content verbatim, other content through `JSON.stringify` |
| Utils.ConvertConcat | lib/utils.ts:45-55 | the conversion distributes over concatenation |
| Utils.SanitizeUIMessages | lib/utils.ts:58-63 | `messages.filter(...)`; specified by SanitizeKeepsExactly, SanitizeIdempotent and SanitizeDropsBlank |
| Utils.SanitizeKeepsExactly | lib/utils.ts:58-63 | a message is kept iff its trimmed content is non-empty or it has an attachment, in the original order |
| Utils.SanitizeIdempotent | lib/utils.ts:58-63 | sanitising twice is sanitising once |
| Utils.SanitizeDropsBlank | lib/utils.ts:58-63 | a blank message without attachments is dropped |
| Utils.DocumentTimestampAsWritten | lib/utils.ts:90-97 | the function as written; TimestampOffByOne and TimestampCorrectionIsLocal |
| Utils.TimestampOffByOne | lib/utils.ts:90-97 | as written, `index == documents.length` passes the guard and reads `createdAt` of `undefined` |
| Utils.DocumentTimestamp | lib/utils.ts:90-97 | corrected guard: a non-negative index never throws; a stored time iff the index is in range, and then that document's; a fresh date without documents or past the end |
| Utils.TimestampCorrectionIsLocal | lib/utils.ts:94-96 | the correction changes the result only at `index == documents.length` |

## Left out

- `TextDecoder`: each read's decoded text is given as input. Decoding is per chunk and not in streaming mode.
- `JSON.parse` is the parameter `parse`. The JSON grammar is not modelled.
- `fetch`, `response.ok`, `response.body` and their errors are not modelled. A failed request enters the model as `Fail(false)`, and a missing reader as `Run(false, …)`.
- `requestAnimationFrame` timing is not modelled. A pending push that fires after the final push or the error push (it would overwrite the notice) happens outside `Run`; `FireScheduledUpdate` can be called after it to model that.
- React state updates are applied when they are issued. Deferred functional updaters and re-renders are not modelled.
- Interleavings at `await` points are not modelled. A stop issued during `await append(...)` finds no controller yet and does nothing, which `InputController.Stop` already covers. A context reported after a stop is observed by calling `OnContext` after `Stop`.
- The `append` prop is taken to append the user message to the list.
- The user id and the user message's creation time come from one clock reading, and likewise for the placeholder. `new Date()` is the same number as `Date.now()`.
- Chat.ReplaceLast: requires a non-empty list; its only callers are the error path below.
- StreamUtils.StreamProcessor.HandleError: requires a non-empty list when the error is not an `AbortError`. With an empty list the source appends an object that holds only `content`, which is not a chat message.
- StreamUtils.StreamProcessor.Run: requires a non-empty message list for the same reason.
- The `onStop` prop, `toast`, textarea focus and sizing, and all markup are not modelled.
- `processTextStream`, `getLocalStorage`, `fetcher` and `cn` are not part of this model.
- components/artifact.tsx and components/preview-attachment-a.tsx are not part of this model.
- Utils.Document: holds only the id and the creation time. The rest of the database schema is not part of this model.
- MarkdownText.ConvertMathSymbols: where each operator is and is not converted is stated for one operator's pass (the ConvertFrom lemmas), not for the six passes chained. For the chain, only the round trip and the identity on backslash-free text are proved.
- Utils.ConvertToUIMessages: the casts of `role` and `attachments` check nothing, so both are copied as they are. `JSON.stringify` is the parameter `stringify`.

## Findings

| source | as written | input that shows it | evidently intended | confidence | as-written member | corrected member |
|---|---|---|---|---|---|---|
| components/markdown.tsx:128-129 | the `$$…$$` pass writes display formulas back unchanged, and the `$…$` pass then reads each `$$` as an empty inline formula and doubles it | `$$x$$` becomes `$$$$x$$$$` | display formulas kept as `$$x$$`, inline `$x$` widened to `$$x$$` | not executed | MarkdownText.DisplayFormulaDoubled | MarkdownText.DisplayFormulaPreserved |
| lib/utils.ts:94-96 | the guard is `index > documents.length` | `index == documents.length` reads `createdAt` of `undefined` and throws | `index >= documents.length` returns a fresh date | not executed | Utils.TimestampOffByOne | Utils.DocumentTimestamp |
