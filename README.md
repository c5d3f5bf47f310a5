# hackathon-curator: a verified model of the scoring, rendering and test-server logic

hackathon-curator turns a source-code diff into a "review attention" heatmap.
An analyzer service (`algo`) answers `POST /file` with a list of
`{ token, score }` pieces whose tokens rebuild the diff text and whose scores
lie in [0,1] or are null. Several clients show those scores:

- the VS Code extension's editor decorations and webviews;
- the sidebar;
- a Chrome extension;
- a test server that scans directories of `.diff`/`.patch` files, scores
  them and streams refresh events to a results page.

The analyzer's scorer in this repository is a random placeholder. It cuts
the text into pieces of 1 to 120 characters that prefer to end just before
whitespace, and gives each piece a random three-decimal score or none. Next
to it sits a memo table for prompts sent to a language model, keyed by the
exact prompt text, with a registry of calls in flight and a cache file.

The model is split into one module per source file, plus shared modules:

| module | file | models |
|---|---|---|
| `Wrappers`, `Text`, `Json`, `Scores` | wrappers.dfy, text.dfy, json.dfy, scores.dfy | `Option`/`Result`; the JavaScript string operations used (`\s`, `trim`, `split`, `join`, `includes`, `toLowerCase`); JSON values and property access; the `{ token, score }` record, `clamp01`, `Math.round`, `toFixed` and the green-to-red hue |
| `Html` | html.dfy | `escapeHtml`, shared by the three webviews |
| `Chunker` | chunker.dfy | `algo/src/algo.ts`: `chunkTextRandomly` (a loop), `scoreTokensRandomly`, `computeTokenScores` |
| `AlgoServer` | algo_server.dfy | `algo/src/index.ts`: the `/file` handler, its scorer as written and corrected, the reply body |
| `AnalyzeResponse` | analyze_response.dfy | both clients' `parseAnalyzeResponse` and request bodies |
| `LlmCache` | llm_cache.dfy | `algo/src/llm.ts`: a class `Gateway` with the cache map, the in-flight set and the cache file |
| `EditorHeatmap` | editor_heatmap.dfy | `curator/src/ui/editorHeatmap.ts`: bins, colours, the offset and bucketing loop, installing decorations on an `Editor` class |
| `HeatmapView` | heatmap_view.dfy | `curator/src/ui/heatmapView.ts`: styles, tooltips, `renderTokenContent` |
| `TokenView` | token_view.dfy | `curator/media/tokenView.js`: `renderTokens` (a loop) |
| `Sidebar` | sidebar.dfy | `curator/media/sidebar.js`: a class `SidebarView` for the button, spinner, status and code area |
| `TestServer` | test_server.dfy | `test-server/src/index.ts`: the directory lists, `walkFiles` (a loop), the path guard, `scoreAll` |
| `Sse` | sse.dfy | `test-server/src/index.ts`: `broadcast` framing, an event-stream reader, a class `Registry` of clients |
| `FileList` | file_list.dfy | `test-server/public/app.js`: a class `Page` with `renderFileList`, the page's hue, `isDiff` |

## Modelling choices

**Randomness.** `Math.random` is an injected oracle: `rand: nat -> Unit`,
where `rand(k)` is the k-th draw, in [0,1). Draws are consumed in the
source's order:

- the chunker takes one draw per piece;
- then the scorer takes, per piece, a null draw, plus a score draw when the
  piece is not null.

**Numbers.** Numbers are reals.

- `Math.round(x)` is `floor(x + 1/2)`.
- `x.toFixed(d)` is the integer nearest to `x * 10^d`, halves up, written
  with `d` decimals.
- Parsed JSON numbers are never NaN, so `clamp01`'s NaN branch has no
  counterpart.

**Duplicated functions.** Functions the repository repeats in several files
are defined once: `clamp01`, `escapeHtml`, `parseAnalyzeResponse`, the
chunker and `scoreToColor`. The rows below cite each copy where a lemma is
about it.

**Editor decorations.** A decoration keeps its range and the score its hover
message shows; the message itself, `score: ` and the clamped score to three
decimals, is `EditorHeatmap.Hover` of that score.

**Events.** The reader of the event stream follows the event-stream format
of section 9.2.6 of the WHATWG HTML Living Standard. It stands for the
results page's `EventSource`.

**The language-model gateway.** `promptLlm` checks the key on every call,
before the cache, so even a cached prompt fails without a key. Only a
reply that is not JSON is rejected; any JSON value is cached.

## Model

| member | source | states |
|---|---|---|
| Json.Get | curator/src/services/networkClient.ts:46-47 | property access yields a value exactly for an object that has the key, and then that key's value |
| Scores.Clamp01 | curator/src/services/networkClient.ts:66-77 | the result lies in [0,1], equals the input on [0,1], and is the point of [0,1] nearest to the input |
| Scores.Clamp01Idempotent | chrome-extension/networkClient.js:57-68 | clamping twice is clamping once |
| Scores.Clamp01Monotone | curator/src/ui/heatmapView.ts:89-100 | clamping preserves the order of scores |
| Scores.JsRound | curator/src/ui/heatmapView.ts:80 | `Math.round(x)` is the integer within one half of x, halves rounded up |
| Scores.JsRoundMonotone | curator/src/ui/heatmapView.ts:83 | rounding preserves order |
| Scores.JsRoundOfInt | curator/src/ui/editorHeatmap.ts:99 | rounding an integer gives it back |
| Scores.PadDigitsValue | curator/src/ui/heatmapView.ts:102-108 | the padded digits read back as the number, and a leading zero appears only when the digits are exactly one more than the decimals |
| Scores.DecimalStringValue | curator/src/ui/heatmapView.ts:104 | the string is the numeral of n / 10^d: an integer part without superfluous leading zeros and, when d > 0, exactly one point followed by exactly d digits; its digits read back as n |
| Scores.FixedNonNegativeValue | curator/media/tokenView.js:34 | `x.toFixed(d)` for x ≥ 0 is the numeral with exactly d decimals of k / 10^d, where k is the integer nearest to x·10^d, halves up |
| Scores.ScaledIsProduct | curator/media/tokenView.js:34 | scaling by ten d times is multiplying by 10^d |
| Scores.Fixed | curator/src/ui/heatmapView.ts:102-108 | `x.toFixed(d)` holds only digits, a point and a sign, and starts with a minus sign exactly when x < 0 |
| Scores.FixedValue | curator/src/ui/heatmapView.ts:102-108 | `x.toFixed(d)` is the numeral with exactly d decimals of the rounded value: for x ≥ 0 without a sign, for x < 0 a minus sign followed by the numeral of the rounded magnitude |
| Scores.RoundTo3 | algo/src/algo.ts:41 | `Number(u.toFixed(3))` is a whole number of thousandths within 0.0005 of u, and in [0,1] for a draw in [0,1) |
| Scores.Hue | curator/src/ui/heatmapView.ts:78-80 | the hue lies in [0,120]: 120 for scores at most 0, 0 for scores at least 1 |
| Scores.HueNonIncreasing | curator/media/tokenView.js:18-22 | a higher score never gets a greener hue |
| Text.Lower | test-server/public/app.js:25 | every ASCII capital becomes its small letter, every other character is kept, and no capital is left |
| Text.LowerIdempotent | test-server/public/app.js:71-72 | lower-casing twice is lower-casing once |
| Text.Split | test-server/src/index.ts:25 | `split` always yields at least one piece |
| Text.SplitPiecesHaveNoSeparator | test-server/src/index.ts:24-27 | no piece of a split holds the separator |
| Text.JoinSplit | test-server/src/index.ts:28-29 | joining the pieces of a split with the separator gives back the string |
| Text.SplitJoin | test-server/src/index.ts:28-31 | splitting a join of separator-free pieces gives back the pieces |
| Text.SplitPiecesOccur | test-server/src/index.ts:210 | every piece of a split occurs in the split string |
| Text.Trim | test-server/src/index.ts:26 | `trim` yields an infix of its input that neither starts nor ends with whitespace, and everything dropped before or after it is whitespace; trimmed text is left unchanged |
| Text.NatToString | curator/src/ui/heatmapView.ts:84 | `String(n)` is a non-empty string of digits |
| Text.NatToStringValue | curator/src/ui/heatmapView.ts:84 | reading the digits of `String(n)` gives back n |
| Html.ReplaceAllChars | curator/src/ui/heatmapView.ts:111-116 | after a global replacement every character comes from the text (and is not the replaced one) or from the replacement |
| Html.EscapedHasNoMarkup | curator/src/ui/heatmapView.ts:110-117 | escaped text holds no `<`, `>`, `"` or `'` |
| Html.EscapeHtmlChar | curator/media/tokenView.js:2-9 | the chain of replacements turns one character into its entity, or leaves it |
| Html.EscapeHtmlAppend | curator/media/sidebar.js:18-25 | escaping distributes over concatenation |
| Html.EscapeHtmlIsEscapeEach | curator/src/ui/heatmapView.ts:110-117 | the chain of five global replacements, `&` first, escapes each character exactly once |
| Html.UnescapeEscape | curator/src/ui/heatmapView.ts:110-117 | decoding the five entities recovers the escaped text |
| Html.EscapePlain | curator/media/sidebar.js:18-25 | text without `&<>"'` is left unchanged |
| Html.SpanTagCount | curator/src/ui/heatmapView.ts:69 | a span whose attributes and body hold no `<` contains exactly two `<` |
| Chunker.RandomInt | algo/src/algo.ts:11-13 | `randomInt(lo, hi)` lies in [lo, hi] |
| Chunker.Target | algo/src/algo.ts:23 | a drawn target length lies in [20, 120] |
| Chunker.BackToWhitespace | algo/src/algo.ts:27-28 | the backward walk stops at i or at a whitespace position, with no whitespace between it and the start |
| Chunker.ChunkEnd | algo/src/algo.ts:24-30 | a piece's end lies after its start, within the text and within the target |
| Chunker.ChunkEndIsLastWhitespace | algo/src/algo.ts:24-30 | a piece that stops early stops at the last whitespace of (i, i+target], or after exactly target characters when there is none |
| Chunker.ChunkTextRandomly | algo/src/algo.ts:15-36 | the loop returns the specified pieces and uses one draw per piece; the pieces rebuild the text and have 1 to 120 characters |
| Chunker.PieceEnd | algo/src/algo.ts:24-30 | the loop body's cut-and-walk-back computes the specified end |
| Chunker.ChunksAdvance | algo/src/algo.ts:31-33 | cutting one piece preserves the loop invariant |
| Chunker.ChunksFacts | algo/src/algo.ts:15-36 | the whole list of pieces is lossless and bounded |
| Chunker.ChunksStep | algo/src/algo.ts:21-33 | the pieces from i are the next piece, then the pieces from its end |
| Chunker.ChunksLossless | algo/src/index.ts:23-44 | concatenating the pieces gives back the text exactly; this is the server's copy of the loop, the same text as in algo.ts |
| Chunker.ChunksBounded | algo/src/index.ts:26-42 | every piece has 1 to 120 characters; there are at most as many pieces as characters; the empty text gives none |
| Chunker.ChunksBoundary | algo/src/algo.ts:24-30 | a non-final piece has exactly its target length, or the next piece starts with whitespace |
| Chunker.FirstChunkBoundary | algo/src/algo.ts:24-30 | the boundary property for the first piece |
| Chunker.ScoreOf | algo/src/algo.ts:40-41 | a score is null exactly when the null draw is below 0.15; otherwise it is a whole number of thousandths in [0,1] within 0.0005 of the score draw |
| Chunker.ScoreTokens | algo/src/algo.ts:38-44 | one entry per token |
| Chunker.ScoreTokensSpec | algo/src/algo.ts:38-44 | entries keep their tokens in order; entry i is scored from its own draws; every score lies in [0,1] |
| Chunker.SourceText | algo/src/algo.ts:47 | `fileDiff` is used whenever present, even empty; `file` only when it is absent; otherwise the empty text |
| Chunker.ScoredUnfold | algo/src/algo.ts:46-50 | scoring the chunker's pieces from the draw where it stopped gives the specified result |
| Chunker.ComputeTokenScores | algo/src/algo.ts:46-50 | the pieces rebuild the source text, have 1 to 120 characters, and have scores in [0,1] |
| AlgoServer.RequestSource | algo/src/index.ts:67 | a missing body gives the empty text; otherwise the `fileDiff ?? file ?? ''` choice |
| AlgoServer.ScoreOfAsWritten | algo/src/index.ts:49 | as written, a score is null exactly when the null draw is below 0.15 |
| AlgoServer.ScoreTokensAsWritten | algo/src/index.ts:46-52 | as written, one entry per token |
| AlgoServer.AsWrittenIsShifted | algo/src/index.ts:46-52 | as written, each entry keeps its token and null-ness, and its score is the library's plus 0.0001 |
| AlgoServer.AsWrittenScoreRange | algo/src/index.ts:49 | as written, a score lies in [0.0001, 1.0001], and exceeds 1 exactly when the score draw is at least 0.9995 |
| AlgoServer.AsWrittenScoreLeavesUnitRange | algo/src/index.ts:49 | the draws 0.5, 0.9996 make the server send the score 1.0001 |
| AlgoServer.HandleFile | algo/src/index.ts:64-72 | with the corrected scorer, the reply's pieces rebuild the request text, have 1 to 120 characters, and have scores in [0,1] |
| AlgoServer.ItemJson | algo/src/index.ts:71 | a piece is sent as `{ token, score }`, with `null` for a missing score |
| AlgoServer.Reply | algo/src/index.ts:71 | the reply is `{ tokenScores }`, holding one item per piece in order |
| AnalyzeResponse.CuratorRequest | curator/src/services/networkClient.ts:19 | the VS Code extension's body makes the server analyse the diff |
| AnalyzeResponse.ExtensionRequest | chrome-extension/networkClient.js:10 | the browser extension's body carries the diff and an empty `file` |
| AnalyzeResponse.ParseItem | curator/src/services/networkClient.ts:42-58 | an item parses exactly when it is an object with a string token and a null or numeric score; the token is kept, null stays null, a number is clamped; a non-object and a non-string token are each rejected |
| AnalyzeResponse.ParseItemsSpec | chrome-extension/networkClient.js:33-50 | the list parses exactly when every item does, into the items' results in order; otherwise the first failing item's error is reported |
| AnalyzeResponse.ParseAnalyzeResponse | curator/src/services/networkClient.ts:34-41 | a non-object is rejected, then a missing or non-array `tokenScores` |
| AnalyzeResponse.ParsedScoresInUnitRange | chrome-extension/networkClient.js:45-48 | every score a successful parse returns lies in [0,1] |
| AnalyzeResponse.ParseReply | curator/src/services/networkClient.ts:34-60 | a reply whose scores lie in [0,1] parses back to exactly the pieces sent |
| AnalyzeResponse.ParseServerReply | curator/src/services/networkClient.ts:26-28 | end to end, a corrected server reply reaches the client unchanged |
| HeatmapView.Lightness | curator/src/ui/heatmapView.ts:83 | lightness lies in [35,40]: 40 for scores at most 0, 35 for scores at least 1 |
| HeatmapView.LightnessNonIncreasing | curator/src/ui/heatmapView.ts:83 | a higher score is never lighter |
| HeatmapView.StyleIsInert | curator/src/ui/heatmapView.ts:74-87 | the style is empty exactly for a null score, and holds no `"` or `<` |
| HeatmapView.StyleTextInert | curator/src/ui/heatmapView.ts:84-86 | the fixed style text holds no `"` or `<` |
| HeatmapView.TitleIsInert | curator/src/ui/heatmapView.ts:68 | a tooltip holds no `"` or `<` |
| HeatmapView.AttributesAreInert | curator/src/ui/heatmapView.ts:67-69 | no style or tooltip can end its attribute or open a tag |
| HeatmapView.TokenSpanTagCount | curator/src/ui/heatmapView.ts:65-70 | each piece's span opens and closes exactly one tag, whatever its token |
| HeatmapView.RenderedTagCount | curator/src/ui/heatmapView.ts:63-72 | the content holds exactly two `<` per piece: one span each, however the tokens read |
| TokenView.RenderTokens | curator/media/tokenView.js:24-39 | the loop builds one span per element, in order; a missing list gives the empty string |
| TokenView.StyleIsInert | curator/media/tokenView.js:30-33 | the style is empty exactly for a null score, and holds no `"` or `<` |
| TokenView.StyleTextInert | curator/media/tokenView.js:33 | the fixed style text holds no `"` or `<` |
| TokenView.TipSpanTagCount | curator/media/tokenView.js:36 | each element's span opens and closes exactly one tag |
| TokenView.TokenViewTagCount | curator/media/tokenView.js:24-39 | a missing list renders nothing; otherwise the markup has two `<` per element |
| TokenView.TipShowsReason | curator/media/tokenView.js:34 | a scored tooltip starts with the score and ends with a reason line exactly when there is a reason |
| Sidebar.TitleSpanTagCount | curator/media/sidebar.js:52 | each element's span opens and closes exactly one tag |
| Sidebar.SidebarTagCount | curator/media/sidebar.js:40-55 | the sidebar's markup has two `<` per element |
| Sidebar.SidebarView.constructor | curator/media/sidebar.js:6-9 | the view starts idle, with button and spinner consistent |
| Sidebar.SidebarView.SetLoading | curator/media/sidebar.js:11-16 | the button is disabled exactly when loading, its label and the spinner follow, and the status shows the running text or nothing |
| Sidebar.SidebarView.OnAnalyzeClick | curator/media/sidebar.js:57-60 | a click shows the loading state and posts one `analyze` message |
| Sidebar.SidebarView.RenderTokens | curator/media/sidebar.js:40-55 | the code area gets one span per element, in order, and nothing else changes |
| Sidebar.SidebarView.OnMessage | curator/media/sidebar.js:62-78 | `loading` sets the button and the status text as `setLoading` does; `render` always ends loading and shows the error (clearing the code) or the results; `status` sets the text; other messages change nothing |
| EditorHeatmap.ScoreToBin | curator/src/ui/editorHeatmap.ts:90-94 | the bin lies in [0,20]: 0 for scores at most 0, 20 for scores at least 1, within half a bin of the clamped score |
| EditorHeatmap.ScoreToBinMonotone | curator/src/ui/editorHeatmap.ts:90-94 | a higher score never lands in a lower bin |
| EditorHeatmap.HueForBin | curator/src/ui/editorHeatmap.ts:96-99 | a bin's hue is 120 − 6·bin: 120 at bin 0, 0 at bin 20 |
| EditorHeatmap.BinHueNearWebviewHue | curator/src/ui/editorHeatmap.ts:99 | the editor's binned hue is within 3 degrees of the webviews' hue for the same score |
| EditorHeatmap.CreateDecorationTypes | curator/src/ui/editorHeatmap.ts:41-52 | exactly one decoration type per bin 0..20, each with its bin's colour |
| EditorHeatmap.Editor.constructor | curator/src/ui/editorHeatmap.ts:9 | a new editor shows no decorations |
| EditorHeatmap.Editor.SetDecorations | curator/src/ui/editorHeatmap.ts:86 | setting a type's decorations replaces that type's list only |
| EditorHeatmap.BucketAdd | curator/src/ui/editorHeatmap.ts:70-75 | appending a decoration to its bin's list keeps every bin's list equal to its bucket |
| EditorHeatmap.BucketScored | curator/src/ui/editorHeatmap.ts:68-75 | a scored, non-empty piece's decoration goes to the end of its bin |
| EditorHeatmap.BucketSkipped | curator/src/ui/editorHeatmap.ts:65-68 | an empty or unscored piece adds no decoration |
| EditorHeatmap.DecoratedStep | curator/src/ui/editorHeatmap.ts:63-79 | advancing past a piece, and its length, preserves the loop invariant |
| EditorHeatmap.PlacePiece | curator/src/ui/editorHeatmap.ts:64-78 | the loop body files the piece's decoration, if any, under its bin |
| EditorHeatmap.BucketDecorations | curator/src/ui/editorHeatmap.ts:60-79 | after the loop every bin's list is exactly that bin's decorations in document order; the running offset is always the length of the pieces before, and ends at the document's length |
| EditorHeatmap.OffsetSnoc | curator/src/ui/editorHeatmap.ts:78 | adding a piece's length to the offset gives where the next piece starts |
| EditorHeatmap.InstallStep | curator/src/ui/editorHeatmap.ts:82-87 | installing one bin's list extends the installed bins by one and keeps the other types' decorations |
| EditorHeatmap.ApplyTokenDecorations | curator/src/ui/editorHeatmap.ts:54-88 | each bin's type shows exactly its bucket, and every other type keeps what it had |
| EditorHeatmap.TokenLocated | curator/src/ui/editorHeatmap.ts:37-39 | each piece sits in the joined document at the offset the loop computes, which never passes the document's end |
| EditorHeatmap.DecorationWithin | curator/src/ui/editorHeatmap.ts:66-67 | each decoration is a non-empty range inside its pieces' span |
| EditorHeatmap.OrderedAtSeam | curator/src/ui/editorHeatmap.ts:78 | the first decoration ends before the next piece's first decoration starts |
| EditorHeatmap.DecorationStartsAfter | curator/src/ui/editorHeatmap.ts:60-79 | no decoration starts before the offset the walk starts at |
| EditorHeatmap.DecorationOrdered | curator/src/ui/editorHeatmap.ts:60-79 | consecutive decorations do not overlap |
| EditorHeatmap.DecorationsOrdered | curator/src/ui/editorHeatmap.ts:60-79 | decorations lie inside the document, non-empty, in increasing order and pairwise disjoint |
| EditorHeatmap.DecorationFromCovered | curator/src/ui/editorHeatmap.ts:63-79 | each decoration is the one placed for a particular piece |
| EditorHeatmap.DecorationsCoverTokens | curator/src/ui/editorHeatmap.ts:63-76 | every decoration covers exactly the text of a non-empty, scored piece and carries that piece's bin and score; conversely every non-empty, scored piece is covered by a decoration |
| EditorHeatmap.HoverShowsScore | curator/src/ui/editorHeatmap.ts:73 | the hover message is `score: ` followed by the clamped score rounded to the nearest thousandth, with exactly three decimals |
| EditorHeatmap.PieceDecorated | curator/src/ui/editorHeatmap.ts:63-78 | the decoration of a non-empty, scored piece, placed at its offset, is among the decorations |
| EditorHeatmap.BucketMembers | curator/src/ui/editorHeatmap.ts:70-75 | a bin receives exactly the decorations filed under it |
| FileList.PageHue | test-server/public/app.js:18-22 | the page's hue is 120 at 0, 0 at 1, in [0,120] on [0,1], and outside it otherwise (it is not clamped) |
| FileList.PageHueDecreasing | test-server/public/app.js:20 | a higher score is always redder |
| FileList.PageHueNearWebviewHue | test-server/public/app.js:20 | on [0,1] the page's hue is within half a degree of the webviews' rounded hue |
| FileList.ListedSpec | test-server/public/app.js:27 | a path is listed exactly when it is a result whose lower-cased form contains the filter, and never more often than it is a result |
| FileList.ListedAppend | test-server/public/app.js:27 | listing a concatenation lists each part in turn, so the list keeps the result order |
| FileList.ListedSingle | test-server/public/app.js:27 | a single path is listed exactly when its lower-cased form contains the filter |
| FileList.ListedNonEmpty | test-server/public/app.js:27 | something is listed exactly when some result matches the filter |
| FileList.ListedFirst | test-server/public/app.js:27-37 | when something is listed, the first listed path (the default selection) is the first matching result |
| FileList.EmptyFilterListsAll | test-server/public/app.js:25-27 | an empty filter lists every result in order |
| FileList.Page.constructor | test-server/public/app.js:1-7 | the page starts with no results, no selection and no list |
| FileList.Page.RenderFileList | test-server/public/app.js:24-38 | the list is the filtered paths in order, the entry equal to the selection is active, and the first listed path is selected only when nothing was |
| FileList.AtMostOneActive | test-server/public/app.js:31 | with distinct result paths, at most one entry is active |
| FileList.DefaultSelectionNotYetActive | test-server/public/app.js:31-37 | the rendering that makes the default selection marks nothing active |
| FileList.IsDiffIgnoresCase | test-server/public/app.js:71-72 | a path is a diff exactly when its lower-cased form is |
| LlmCache.ModelsDiffer | algo/src/llm.ts:61 | `fast` asks `gpt-5-nano`, `slow` asks `gpt-5-mini` |
| LlmCache.IndexKeysDistinct | algo/src/llm.ts:27 | distinct array indices give distinct keys |
| LlmCache.ArrayEntriesAreIndexed | algo/src/llm.ts:26-29 | loading an array file gives exactly its decimal indices, each with its element |
| LlmCache.DecideIgnoresSpeed | algo/src/llm.ts:54-61 | the speed picks only the model: every other outcome is the same for both speeds |
| LlmCache.CallOnlyWhenUnknown | algo/src/llm.ts:50-59 | a call is made exactly when the key is set and the prompt is neither cached nor in flight; a hit exactly when the key is set and the prompt is cached |
| LlmCache.Gateway.constructor | algo/src/llm.ts:21-35 | start-up loads the entries of an object or array file, and nothing from a missing, blank or broken file |
| LlmCache.Gateway.Begin | algo/src/llm.ts:49-95 | no key fails first; then a cache hit, then a pending call; otherwise one call, registered in flight; the cache is untouched |
| LlmCache.Gateway.Complete | algo/src/llm.ts:62-91 | a JSON reply is cached under the prompt, with the other entries unchanged, and saved; a failed or non-JSON reply changes nothing; in every case the prompt leaves the in-flight set |
| LlmCache.Gateway.SaveCache | algo/src/llm.ts:37-47 | the file holds the cache's entries (except `__proto__`) |
| LlmCache.Gateway.ClearCache | algo/src/llm.ts:98-99 | clearing makes the size 0 and leaves the in-flight set and the file alone |
| LlmCache.SaveThenLoad | algo/src/llm.ts:21-47 | loading what was saved gives back every entry except one under `__proto__` |
| LlmCache.SaveThenLoadExact | algo/src/llm.ts:21-47 | without a `__proto__` prompt, loading what was saved restores the cache exactly |
| Sse.StreamSnoc | test-server/src/index.ts:156-159 | writing one more frame extends the text already written |
| Sse.BeforeColon | test-server/src/index.ts:157-158 | a field name is the colon-free text before the first colon |
| Sse.FieldOfWritten | test-server/src/index.ts:157-158 | a line written as `name: value` reads back as that name and value |
| Sse.ReadEventLine | test-server/src/index.ts:157 | an `event:` line sets the event type |
| Sse.ReadDataLine | test-server/src/index.ts:158 | a `data:` line appends its value and a line feed |
| Sse.SplitFrame | test-server/src/index.ts:157-158 | a frame's text splits into its `event`, `data` and blank lines |
| Sse.SplitStream | test-server/src/index.ts:154-160 | the text of a run of frames splits into their lines |
| Sse.FrameReads | test-server/src/index.ts:157-158 | a frame's three lines dispatch exactly its event and leave the buffers empty |
| Sse.StreamLinesRead | test-server/src/index.ts:154-160 | the lines of a run of frames dispatch their events in order |
| Sse.StreamRoundTrip | test-server/src/index.ts:154-160 | a reader of the written text receives exactly the broadcast events, in order, when no type or payload holds a line break |
| Sse.FindIndex | test-server/src/index.ts:175 | the first position holding the id, or -1 when none does |
| Sse.SplicedAt | test-server/src/index.ts:176 | after the splice, each remaining client sits where the splice moves it |
| Sse.OthersSurvive | test-server/src/index.ts:174-177 | closing keeps every client with another id |
| Sse.SurvivorsHaveOtherIds | test-server/src/index.ts:174-177 | with distinct ids, no survivor has the closed id |
| Sse.CloseRemovesOnlyThatId | test-server/src/index.ts:174-177 | with distinct ids, closing removes the client with that id and no other |
| Sse.CloseKeepsIdsIncreasing | test-server/src/index.ts:174-177 | closing keeps the ids increasing |
| Sse.Registry.constructor | test-server/src/index.ts:151-152 | the first id is 1, and there are no clients |
| Sse.Registry.Connect | test-server/src/index.ts:168-172 | a new client gets the next id, above every connected one, and is sent the hello frame |
| Sse.Registry.Close | test-server/src/index.ts:174-177 | closing removes exactly the client with that id, keeping ids increasing |
| Sse.Registry.Broadcast | test-server/src/index.ts:154-160 | every client is sent `event: T` and `data: P` and a blank line, with a string payload verbatim |
| TestServer.NonEmpty | test-server/src/index.ts:27 | `filter(Boolean)` keeps exactly the non-empty strings |
| TestServer.NonEmptyAppend | test-server/src/index.ts:27 | filtering a concatenation filters each part in turn, so the order is kept |
| TestServer.NonEmptyKeepsAll | test-server/src/index.ts:27 | filtering a list without empty strings changes nothing |
| TestServer.TrimAllKeepsTrimmed | test-server/src/index.ts:26 | trimming trimmed entries changes nothing |
| TestServer.DirListWellFormed | test-server/src/index.ts:24-27 | every parsed directory is non-empty, trimmed and comma-free |
| TestServer.DirListRoundTrip | test-server/src/index.ts:24-31 | parsing the comma-join of well-formed directories gives them back |
| TestServer.InputDirsDefault | test-server/src/index.ts:24 | without the variable, only `files/training-set` is scanned |
| TestServer.WatchDirsWithoutInputs | test-server/src/index.ts:28-31 | with no input directory only `algo` is watched |
| TestServer.WatchDirsWithInputs | test-server/src/index.ts:28-31 | well-formed input directories are watched, followed by `algo` |
| TestServer.WatchDirsAppendAlgo | test-server/src/index.ts:24-31 | the watched directories are the input directories followed by `algo` |
| TestServer.LastDot | test-server/src/index.ts:59 | the position of the last dot of a name, or -1 when it has none |
| TestServer.ExtnameOfSuffix | test-server/src/index.ts:59 | a name ending (lower-cased) in a dot-led, dot-free suffix has that extension |
| TestServer.ExtAllowedEndsWithDiff | test-server/src/index.ts:59-60 | an accepted name ends, lower-cased, with `.diff` or `.patch` after a non-empty stem |
| TestServer.ExtAllowedIff | test-server/src/index.ts:37 | a name passes the extension test exactly when it ends, lower-cased, with `.diff` or `.patch` after a non-empty stem |
| TestServer.AllowedExtShapes | test-server/src/index.ts:37 | both allowed extensions are a dot followed by dot-free text |
| TestServer.WalkFiles | test-server/src/index.ts:43-70 | the walk appends the accepted files below the directory, in listing order; an unreadable directory adds nothing |
| TestServer.WalkedSnoc | test-server/src/index.ts:51-68 | one more entry's paths follow the others' |
| TestServer.WalkEntry | test-server/src/index.ts:52-67 | one turn skips `.DS_Store*`, descends into a directory that is not ignored, and keeps an accepted file |
| TestServer.WalkedAreDiffs | test-server/src/index.ts:43-70 | every collected path lies below the directory and is a diff or patch |
| TestServer.WalkedEntryAreDiffs | test-server/src/index.ts:52-67 | the same, for one entry |
| TestServer.BelowChild | test-server/src/index.ts:53-57 | a path below a sub-directory lies below the directory |
| TestServer.AcceptedChildIsDiff | test-server/src/index.ts:59-66 | an accepted file's path lies below the directory and is a diff |
| TestServer.WalkedIncludesAccepted | test-server/src/index.ts:58-66 | every accepted file of the listing is collected |
| TestServer.WalkedSkipsRejectedFiles | test-server/src/index.ts:59-65 | a path whose files, at any depth of the tree, are all too large or have another extension is never collected |
| TestServer.WalkedSkipsIgnoredDirs | test-server/src/index.ts:51-57 | a path whose files all lie below an ignored or `.DS_Store*` directory, at any depth, is never collected |
| TestServer.CollectedUnder | test-server/src/index.ts:52-57 | below a directory the walk enters the same files are collected; below an ignored, unreadable or `.DS_Store*` directory none |
| TestServer.WalkedIsCollected | test-server/src/index.ts:43-70 | the walk collects exactly the collectable files of the whole tree, in listing order: accepted, not `.DS_Store*`, and reached only through readable directories that are neither ignored nor `.DS_Store*` |
| TestServer.WalkedEntryIsCollected | test-server/src/index.ts:51-67 | the same, for one entry |
| TestServer.WalkedMembers | test-server/src/index.ts:43-70 | a path is collected exactly when some file of the tree with that path is collectable |
| TestServer.GuardedPathStaysInside | test-server/src/index.ts:209-210 | a request without a path is rejected; a path that passes the guard (here and at line 222) is non-empty and has no `..` segment |
| TestServer.FirstOccurrencesSpec | test-server/src/index.ts:118 | de-duplication leaves no repetition and the same elements |
| TestServer.Uniq | test-server/src/index.ts:118 | building the set keeps each path once, at its first occurrence |
| TestServer.ScoredResultsMembers | test-server/src/index.ts:123-133 | a result is kept exactly for a file whose scoring succeeded, with that outcome |
| TestServer.ScoredResultsPaths | test-server/src/index.ts:123-133 | no path is kept more often than it is listed |
| TestServer.ScoredResultsSpec | test-server/src/index.ts:121-135 | both halves of what the workers keep |
| TestServer.PathLeTotal | test-server/src/index.ts:137 | any two paths compare one way or the other |
| TestServer.InsertSorted | test-server/src/index.ts:137 | inserting into a sorted list keeps it sorted |
| TestServer.InsertAdds | test-server/src/index.ts:137 | inserting adds exactly the one result |
| TestServer.SortByPathSorted | test-server/src/index.ts:137 | sorting orders the results by path |
| TestServer.SortByPathPermutes | test-server/src/index.ts:137 | sorting is a permutation of the results |
| TestServer.SortByPathKeepsPaths | test-server/src/index.ts:137 | sorting keeps the same paths |
| TestServer.ScoredFilesDistinct | test-server/src/index.ts:111-139 | no path is answered twice |
| TestServer.ScoredFilesMembers | test-server/src/index.ts:111-139 | a result is answered exactly for a collected file whose scoring succeeded |
| TestServer.ScoreAll | test-server/src/index.ts:111-139 | the results are the collected files, each once, that scored, sorted by path, all diff or patch files |
| TestServer.FilesOfAreDiffs | test-server/src/index.ts:112-116 | every collected file of every directory is a diff or patch |

## Left out

- **HTTP, process and VS Code plumbing.** This covers Express routing and
  `listen`, `fetch` with its timeout, the test server's readiness poll,
  `readFile`, and the page templates and legend. It also covers the VS Code
  document, webview, `positionAt` and disposal calls, and the DOM, tooltips,
  highlight.js and `EventSource` of the pages. All of this is I/O. Positions
  in the editor are character offsets.
- **The model call.** The OpenAI call, dotenv and the file system are foreign
  calls. An upstream outcome is an argument of `Gateway.Complete`. The cache
  file holds a JSON value whose text is left abstract, and a write or rename
  failure (which the source ignores) is not modelled.
- **Shared in-flight promises.** Only the key registry is modelled. A caller
  told `Pending` shares the first caller's result.
- **Concurrency and timing.** This covers the five-worker pool of
  `scoreAll` (the model scores files in order and then sorts), the watcher
  and its debounce timer, and the client-level `broadcast` of refresh
  events.
- **Directory walking.** A directory's listing, a file's size and each
  file's scoring outcome are inputs. `path.join`/`path.relative`
  normalisation is modelled as `dir + "/" + name`.
- **`/api/files`.** It walks the same directories and sorts with the
  default sort. It is not modelled.
- **JSON text.** `JSON.parse` and `JSON.stringify` are abstracted: the
  stringifier of `broadcast` is a parameter.
- **Event-stream details.** The carriage return, the byte order mark, the
  `id`/`retry` fields, and an unterminated last line are not modelled.
- Scores.Clamp01: NaN is not modelled, because parsed numbers cannot be
  NaN.
- Scores.Fixed: the exponent form of `toFixed` for magnitudes of 1e21 or
  more is not modelled.
- Text.Lower: only ASCII letters are lower-cased.
- Chunker.ChunkTextRandomly: strings are sequences of Unicode scalar values,
  while JavaScript's `length`, indexing and `slice` count UTF-16 code units.
  Lengths and targets are therefore counted in scalar values: a piece of an
  astral-plane text (emoji, say) can hold more characters than in the
  source, and the source's splitting of a surrogate pair into lone
  surrogates is not modelled. The same holds for Chunker.ChunkEnd and for
  the editor's offsets.
- Chunker.ComputeTokenScores: the `String(source)` coercion of a
  non-string `fileDiff` or `file` is not modelled; the source text is a
  string or absent.
- TestServer.PathLeTotal: `localeCompare` collation is replaced by the
  lexicographic order of Unicode scalar values.
- TokenView.RenderTokens: the `String(text)` coercion of a non-string
  token or reason is not modelled; tokens and reasons are strings or absent.
- Sidebar.SidebarView.OnMessage: the page elements are taken to exist.
- LlmCache.Gateway.SaveCache: a prompt equal to `__proto__` is not
  written, as in the source. Insertion order of the Map is not modelled.

## Findings

| source | as written | input that shows it | evidently intended | confidence | as-written member | corrected member |
|---|---|---|---|---|---|---|
| algo/src/index.ts:49 | `Number(Math.random().toFixed(3) + 1)` appends the character `1` to the three-decimal string, adding 0.0001 to every score | null draw 0.5, then score draw 0.9996: `toFixed(3)` gives `1.000`, the reply carries the score 1.0001, outside the promised 0..1 | `Number(Math.random().toFixed(3))`, as in algo/src/algo.ts:41, so that every score lies in [0,1] | high; not executed | AlgoServer.AsWrittenScoreLeavesUnitRange | AlgoServer.HandleFile |
