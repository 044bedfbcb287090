# FindexAI core, modelled and verified in Dafny

FindexAI is a browser extension with a Python backend. It answers questions about a YouTube video and adds an in-page search. This project models the parts of it that hold real logic, and proves what they promise.

- **The in-page search and highlight engine** (`extension/src/hooks/useSearch.js`).
  - `SearchText.dfy`: the term escaping, the literal, case-insensitive regular expression it compiles to, and `split` by that expression.
  - `SearchDom.dfy`: the page as the sequence of its text leaves in document order. Each leaf has an identity, its ancestor elements and its value; element classes live in a map. The file defines the one-pass specification `ScanDoc` of a highlight scan and states its properties:
    - the text is preserved;
    - identities stay fresh and distinct;
    - the results are dense and ordered;
    - there is one undo entry per replaced node;
    - rejected text is untouched.
    
    It also models `clearHighlights` as written, an exact-undo variant, and the class bookkeeping of `scrollToResult`.
  - `UseSearch.dfy`: the hook itself, as a class. Its fields are the page, the classes, the results, the undo log, the cursor, the term and the pending debounce timer. Its methods follow the source's loops: the walker loop, the `forEach` over text nodes and over split parts, and the loop over current markers. Each method is proved against `ScanDoc` and the cyclic index functions.
- **The search overlay** (`SearchOverlay.dfy`): its Enter and Shift+Enter dispatch, the results label and the rendering conditions.
- **The top-level component** (`YouTubeQAApp.dfy`), as a class holding:
  - the `isChatOpen` and `isSearchMode` flags;
  - the window key handler;
  - `toggleChat` and the overlay and sidebar callbacks;
  - the append-only message log of `handleAskQuestion`;
  - the keyword-chosen demo replies.
- **The chat sidebar** (`ChatSidebar.dfy`): `handleSubmit`, the send button's disabled condition, and `formatDuration` with its read-back.
- **The subtitles route** (`GetSubs.dfy`): the order of the checks in `get_subtitles_handler`, the known-error classifier, the 404/500 rule, and the repeated classifier of `get_video_info`.
- **The answer builder** (`Ask.dfy`): `generate_answer`. It builds its string from the description cut to 500 characters, at most ten tags, all categories, a transcript excerpt of 200 characters, whole minutes and comma-grouped views. Each of these is given a read-back property.
- **The upload file name** (`UploadHandler.dfy`): the `safe_name` sanitiser, POSIX `splitext` and `join`, and the generated name `safe_timestamp_id8.ext`.
- `Strings.dfy` holds the string primitives the source relies on:
  - ASCII case folding;
  - JavaScript `trim` and Python `rstrip`;
  - `join`, slicing, `padStart`;
  - decimal rendering and its read-back.

## Model

| member | source | states |
|---|---|---|
| `Strings.Trim` | extension/src/components/ChatSidebar.jsx:48 | `trim()` is empty exactly for blank text; otherwise it neither starts nor ends with whitespace |
| `Strings.TrimSpec` | extension/src/components/ChatSidebar.jsx:48-49 | the trimmed string is an infix of the input whose removed head and tail are whitespace |
| `Strings.TrimIdempotent` | extension/src/components/ChatSidebar.jsx:49 | trimming a trimmed string changes nothing |
| `Strings.TrimEnd` | backend/doc_analyser/upload_hander.py:24 | `rstrip()` is a prefix of the input; the removed tail is whitespace and the result does not end in whitespace. Whitespace here lacks the separators \x1c-\x1f, so this is Python's `rstrip` only on text in which those never occur, such as the output of `Sanitize`, which has already turned them into '_' |
| `Strings.Take` | backend/routes/ask.py:16 | `s[:n]` has length `min(len(s), n)` and is a prefix of `s` |
| `Strings.PadStart` | extension/src/components/ChatSidebar.jsx:57 | `padStart(n, c)` reaches length `max(len, n)`: the input at the end, `c` in front |
| `Strings.JoinContainsItems` | backend/routes/ask.py:17-20 | every item joined with a separator appears in full in the joined string |
| `Strings.LowerIdempotent` | extension/src/hooks/useSearch.js:43 | lowercasing twice is lowercasing once |
| `Strings.NatToStringDigits` | backend/routes/ask.py:39 | a rendered natural is a non-empty digit run without a leading zero that reads back as the number |
| `Strings.NatToStringInjective` | extension/src/components/SearchOverlay.jsx:83-85 | distinct naturals render differently |
| `Strings.ConcatInfixes` | backend/routes/ask.py:44-55 | each piece of a concatenation sits in it at the summed length of the pieces before it |
| `SearchText.EscapeIsLiteral` | extension/src/hooks/useSearch.js:62 | the escaped term, read as a pattern, denotes exactly the term, whatever syntax characters it holds |
| `SearchText.PatternIsLiteralGroup` | extension/src/hooks/useSearch.js:61-64 | the compiled pattern is one capturing group around the literal term |
| `SearchText.MatchAtLower` | extension/src/hooks/useSearch.js:63 | a match under the `i` flag is a window equal to the term after lowercasing both |
| `SearchText.FirstMatchFrom` | extension/src/hooks/useSearch.js:65 | the regex search returns a position whose window fits in the text |
| `SearchText.FirstMatchSpec` | extension/src/hooks/useSearch.js:65 | the search returns the leftmost match and returns none only when there is no match at all |
| `SearchText.SplitSpec` | extension/src/hooks/useSearch.js:65 | `split` by `(term)`/gi gives an odd number of parts that concatenate to the text; odd parts are occurrences of the term, even parts hold none |
| `SearchText.SplitStep` | extension/src/hooks/useSearch.js:65 | the text before the leftmost match, the match, then a well-shaped split of the rest, is a well-shaped split |
| `SearchText.SplitFindsMatch` | extension/src/hooks/useSearch.js:43-67 | `parts.length > 1` exactly when the walker's `toLowerCase().includes` test holds |
| `SearchDom.UniqueIffDistinct` | extension/src/hooks/useSearch.js:31-54 | the leaf-by-leaf distinctness the proofs use is pairwise distinctness of identities |
| `SearchDom.IndexOfId` | extension/src/hooks/useSearch.js:85 | finds the first leaf with an identity, or reports correctly that there is none |
| `SearchDom.TextOfAppend` | extension/src/hooks/useSearch.js:65-85 | the page text of two stretches is their texts joined |
| `SearchDom.FilterAppend` | extension/src/hooks/useSearch.js:31-54 | the walker's list over two stretches is their lists joined |
| `SearchDom.FilterSpec` | extension/src/hooks/useSearch.js:35-46 | the walker yields exactly the leaves whose parent is present and not SCRIPT, STYLE, NOSCRIPT or MARK, and whose lowercased value contains the lowercased term |
| `SearchDom.FirstAccepted` | extension/src/hooks/useSearch.js:52-54 | the first leaf yielded is the first accepted leaf; every leaf before it is rejected |
| `SearchDom.PieceStep` | extension/src/hooks/useSearch.js:70-79 | handling one part only allocates identities upward |
| `SearchDom.FragmentOf` | extension/src/hooks/useSearch.js:69-80 | the fragment's identities grow from the fresh start |
| `SearchDom.FragmentOfSnoc` | extension/src/hooks/useSearch.js:69-80 | the fragment of one more part is one more `forEach` step |
| `SearchDom.MarksOfAppend` | extension/src/hooks/useSearch.js:72-76 | the new marks of two stretches are their marks joined |
| `SearchDom.MarksOfSingle` | extension/src/hooks/useSearch.js:72-76 | a leaf contributes its parent mark exactly when that mark is new |
| `SearchDom.MarksOfOld` | extension/src/hooks/useSearch.js:72-76 | a page with only old identities has no new marks |
| `SearchDom.FragmentText` | extension/src/hooks/useSearch.js:69-80 | the fragment's text nodes and mark texts spell the split parts in order; dropping the empty parts loses nothing |
| `SearchDom.FragmentIds` | extension/src/hooks/useSearch.js:72-78 | every created node and mark has a fresh identity, and no two created nodes share one |
| `SearchDom.PieceMarks` | extension/src/hooks/useSearch.js:70-79 | each part keeps the dense numbering of the results and the match between results and new marks |
| `SearchDom.FragmentMarks` | extension/src/hooks/useSearch.js:69-80 | the fragment's results are numbered on from `results.length` and are exactly its new marks, in order; a split with a match yields at least one |
| `SearchDom.AddHighlightSnoc` | extension/src/hooks/useSearch.js:73 | one more mark sets just that element's class to `search-highlight` |
| `SearchDom.FragAtFresh` | extension/src/hooks/useSearch.js:69-80 | the fragment built mid-scan is fresh and internally distinct |
| `SearchDom.ScanDocSnoc` | extension/src/hooks/useSearch.js:59-88 | the scan of one more leaf is one more step |
| `SearchDom.ScanSkip` | extension/src/hooks/useSearch.js:35-46 | rejected leaves are copied through unchanged, with no result, undo entry or class change |
| `SearchDom.ReplacedIds` | extension/src/hooks/useSearch.js:82-85 | replacing a leaf by its fragment keeps the identity invariant |
| `SearchDom.KeptIds` | extension/src/hooks/useSearch.js:59-88 | keeping a leaf keeps the identity invariant |
| `SearchDom.StepIds` | extension/src/hooks/useSearch.js:59-88 | every step keeps the identity invariant |
| `SearchDom.StepDistinct` | extension/src/hooks/useSearch.js:85 | a step never duplicates a leaf on the page |
| `SearchDom.ScanIdInv` | extension/src/hooks/useSearch.js:59-88 | after a whole scan: fresh identities only from the allocator, old leaves only from the page, clones detached, and no duplicates when there were none |
| `SearchDom.ScanIds` | extension/src/hooks/useSearch.js:59-88 | a finished scan's page has identities below the allocator, and its old leaves come from the original page, with no duplicates |
| `SearchDom.ScanPageOk` | extension/src/hooks/useSearch.js:59-91 | a scan of a well-formed page leaves a well-formed page and undo log |
| `SearchDom.ScanClonesDetached` | extension/src/hooks/useSearch.js:84 | every `cloneNode()` in the undo log is fresh and is never on the page |
| `SearchDom.ScanPreservesText` | extension/src/hooks/useSearch.js:65-86 | highlighting never changes the page's text |
| `SearchDom.StepResults` | extension/src/hooks/useSearch.js:59-88 | every step keeps the results dense and equal to the new marks in page order |
| `SearchDom.StepResultsReplaced` | extension/src/hooks/useSearch.js:67-86 | the same for a step that replaces its leaf |
| `SearchDom.ReplacedResults` | extension/src/hooks/useSearch.js:76-85 | splicing in a fragment numbered on from the results keeps them dense and in page order |
| `SearchDom.ScanResultsInOrder` | extension/src/hooks/useSearch.js:56-92 | result `k` has `index == k`, and the results are the created marks in traversal order, left to right within a node |
| `SearchDom.ScanUndoPerNode` | extension/src/hooks/useSearch.js:82-85 | one undo entry per node the walker yields, in order; each entry names that node's parent and holds a detached copy of its value |
| `SearchDom.ScanKeepsRejected` | extension/src/hooks/useSearch.js:37-45 | a text node under SCRIPT, STYLE, NOSCRIPT, MARK or with no match stays on the page |
| `SearchDom.ScanRestRejected` | extension/src/hooks/useSearch.js:52-59 | once the walker has nothing left to yield, the rest of the page is copied through |
| `SearchDom.NextAccepted` | extension/src/hooks/useSearch.js:52-53 | the walker's next node from a position, the rejected stretch it skips and the rest of its list |
| `SearchDom.ScanPassOver` | extension/src/hooks/useSearch.js:35-46 | the scan passes a rejected stretch over by copying it |
| `SearchDom.ScanOutAvoids` | extension/src/hooks/useSearch.js:85 | no node the scan has emitted so far shares the identity of the next leaf |
| `SearchDom.FrontIdFresh` | extension/src/hooks/useSearch.js:85 | the emitted nodes avoid any old identity that was not seen yet |
| `SearchDom.ScanAdvance` | extension/src/hooks/useSearch.js:52-88 | one turn of the walker and `forEach` moves the spec from one yielded node to the next, with the page laid out as emitted, node, rest |
| `SearchDom.ReplaceAtFront` | extension/src/hooks/useSearch.js:85 | `replaceChild` on the leaf just after the emitted part replaces exactly that leaf |
| `SearchDom.ReplaceChildAt` | extension/src/hooks/useSearch.js:85 | `replaceChild` puts the fragment in the place of the first leaf with that identity |
| `SearchDom.RestoreAsWrittenSkipsClones` | extension/src/hooks/useSearch.js:11-15 | as written, restoring skips every entry, because a detached clone is never `contained` |
| `SearchDom.ClearAfterScanKeepsMarks` | extension/src/hooks/useSearch.js:11-15 | with the clones of line 84 in the log: after a scan, clearing as written leaves the highlighted page; with any result it does not give the page back |
| `SearchDom.IndexOfIdAppend` | extension/src/hooks/useSearch.js:85 | appending leaves of other identities does not move the first leaf with an identity |
| `SearchDom.UnspliceFrame` | extension/src/hooks/useSearch.js:9-15 | undoing a splice leaves untouched the leaves that are no piece of it |
| `SearchDom.UnspliceFrameAt` | extension/src/hooks/useSearch.js:9-15 | the same, once the splice's first piece is located |
| `SearchDom.RestoreSplicesFrame` | extension/src/hooks/useSearch.js:9-15 | undoing a log of splices leaves a tail of unrelated leaves untouched |
| `SearchDom.ReplacedRestore` | extension/src/hooks/useSearch.js:84-85 | a replacement step keeps "undoing the log gives back the leaves seen" |
| `SearchDom.UnspliceFresh` | extension/src/hooks/useSearch.js:85 | undoing a splice right after it was made puts the original leaf back |
| `SearchDom.SpliceLogAvoids` | extension/src/hooks/useSearch.js:84 | an old leaf is no piece of any recorded splice |
| `SearchDom.StepRestore` | extension/src/hooks/useSearch.js:59-88 | every step keeps the exact-undo invariant |
| `SearchDom.RestoreUndoesScan` | extension/src/hooks/useSearch.js:9-15 | the intended undo: restoring the scan's splices, last first, gives back the original page exactly |
| `SearchDom.ExactlyOneCurrent` | extension/src/hooks/useSearch.js:105-113 | after demoting every current marker and promoting one, that one alone is current, without the base class |
| `SearchDom.AddHighlightNoCurrent` | extension/src/hooks/useSearch.js:73 | giving new marks the base class makes no element current |
| `UseSearch.NextIndex` | extension/src/hooks/useSearch.js:120 | the next index stays in range: one more, or 0 after the last |
| `UseSearch.PrevIndex` | extension/src/hooks/useSearch.js:127-128 | the previous index stays in range: one less, or the last before 0 |
| `UseSearch.NextPrevInverse` | extension/src/hooks/useSearch.js:118-131 | previous undoes next, and next undoes previous |
| `UseSearch.NextTimes` | extension/src/hooks/useSearch.js:118-123 | repeated "next" stays in range |
| `UseSearch.NextTimesWraps` | extension/src/hooks/useSearch.js:120 | `k` presses of next, at most one round, move `k` places round the ring |
| `UseSearch.FullCycleReturns` | extension/src/hooks/useSearch.js:118-123 | N presses of next return to the start, and every result is reached from every other |
| `UseSearch.Distance` | extension/src/hooks/useSearch.js:118-123 | the number of presses from one result to another is below N |
| `UseSearch.SearchHook.constructor` | extension/src/hooks/useSearch.js:4-7 | the empty initial state, with the first debounced `highlightText("")` of lines 138-141 pending |
| `UseSearch.SearchHook.ClearHighlights` | extension/src/hooks/useSearch.js:10-23 | every entry is skipped without error and the page is unchanged; the log and results are empty and the cursor is 0; a second call changes nothing |
| `UseSearch.SearchHook.BuildFragment` | extension/src/hooks/useSearch.js:69-80 | the `forEach` over the parts builds exactly the spec's fragment, its results and its classes |
| `UseSearch.SearchHook.AddPart` | extension/src/hooks/useSearch.js:70-79 | one callback of that `forEach` is one spec step |
| `UseSearch.SearchHook.CollectTextNodes` | extension/src/hooks/useSearch.js:31-54 | the walker loop collects exactly the accepted leaves, in document order |
| `UseSearch.SearchHook.ProcessNode` | extension/src/hooks/useSearch.js:59-88 | processing one yielded node is one spec step on the page, results, log, classes and allocator |
| `UseSearch.SearchHook.ProcessNext` | extension/src/hooks/useSearch.js:59-88 | one turn of the `forEach` advances the spec to the next yielded node |
| `UseSearch.SearchHook.ReplaceAll` | extension/src/hooks/useSearch.js:56-91 | the whole `forEach` and the publication of results and log leave the state `ScanDoc` computes |
| `UseSearch.SearchHook.HighlightText` | extension/src/hooks/useSearch.js:26-99 | a blank term clears and stops with no new markers; any other term, spaces included, gives the `ScanDoc` state with result 0 alone current and the cursor at 0 |
| `UseSearch.SearchHook.HighlightMatches` | extension/src/hooks/useSearch.js:31-92 | from a cleared page, the scan's state is the one `ScanDoc` computes |
| `UseSearch.SearchHook.ScrollToResult` | extension/src/hooks/useSearch.js:101-116 | with no results nothing changes; otherwise every current marker becomes base, and an existing chosen result becomes current |
| `UseSearch.SearchHook.NextResult` | extension/src/hooks/useSearch.js:118-123 | a no-op without results; otherwise the cursor moves cyclically forward and only that result is current |
| `UseSearch.SearchHook.PrevResult` | extension/src/hooks/useSearch.js:125-131 | a no-op without results; otherwise the cursor moves cyclically back and only that result is current |
| `UseSearch.SearchHook.SetSearchTerm` | extension/src/hooks/useSearch.js:138-144 | a changed term replaces the pending debounced scan; the same term changes nothing |
| `UseSearch.SearchHook.TimerFires` | extension/src/hooks/useSearch.js:139-141 | nothing is pending afterwards; a pending term, blank or not, leaves the whole post-state `HighlightText` gives it (page, results, undo list, classes, id counter, cursor at 0); with nothing pending every field is kept |
| `UseSearch.SearchHook.ClearSearch` | extension/src/hooks/useSearch.js:133-136 | the result list, undo list and cursor are reset and the term becomes empty, scheduling a scan only when it changed; the page, its classes and the id counter are kept, so the old marks (the current one included) stay on the page as they were |
| `UseSearch.SearchHook.Unmount` | extension/src/hooks/useSearch.js:143-150 | the timer is cancelled and the result list, undo list and cursor are reset; the page, its classes, the id counter and the term are kept |
| `SearchOverlay.OverlayKeyDown` | extension/src/components/SearchOverlay.jsx:22-30 | Enter without Shift calls only next, Shift+Enter only previous, any other key nothing |
| `SearchOverlay.ResultsLabel` | extension/src/components/SearchOverlay.jsx:81-89 | "{i+1} of {N} results" with results, "No results found" without, and the fixed sentence appears exactly when there are none; `LabelDeterminesPosition` shows the counted form reads back |
| `SearchOverlay.RenderResultsInfo` | extension/src/components/SearchOverlay.jsx:78-113 | the info is shown only for a non-empty term, and the buttons only with results, in which case they are enabled |
| `SearchOverlay.LabelDeterminesPosition` | extension/src/components/SearchOverlay.jsx:81-86 | the label reads back: different positions or counts give different labels |
| `SearchOverlay.LabelFields` | extension/src/components/SearchOverlay.jsx:83-85 | two labels built from digit runs agree exactly when the runs do |
| `SearchOverlay.DigitRunUnique` | extension/src/components/SearchOverlay.jsx:83-85 | a leading maximal digit run is determined by the string |
| `SearchOverlay.ShownPositionInRange` | extension/src/components/SearchOverlay.jsx:83-85 | with a cursor in range, the shown position lies in 1..N |
| `YouTubeQAApp.ModesAfterKey` | extension/src/components/YouTubeQAApp.jsx:38-48 | Escape turns both overlays off; otherwise chat is kept and search turns on only when the shortcut fires |
| `YouTubeQAApp.ShortcutNeverFires` | extension/src/components/YouTubeQAApp.jsx:38 | as written, the Ctrl/Cmd+F test never holds and no key press turns search mode on |
| `YouTubeQAApp.CtrlFIgnoredAsWritten` | extension/src/components/YouTubeQAApp.jsx:37-41 | concretely, Ctrl+F with both overlays closed leaves them closed |
| `YouTubeQAApp.ShortcutIntendedOpensSearch` | extension/src/components/YouTubeQAApp.jsx:37-41 | with the intended test, Ctrl/Cmd+F opens search mode and keeps the chat flag |
| `YouTubeQAApp.WindowNav` | extension/src/components/YouTubeQAApp.jsx:51-59 | Enter and Shift+Enter navigate only in search mode with at least one result, dispatched as in the overlay |
| `YouTubeQAApp.ShowChatButtonIsCanInteract` | extension/src/components/YouTubeQAApp.jsx:252-253 | the floating button shows exactly when the chat is closed and the sidebar can interact |
| `YouTubeQAApp.DemoTopicOf` | extension/src/components/YouTubeQAApp.jsx:79-92 | on the lowercased question: "how" with "work" gives reply 1, else "feature" reply 2, else "search" reply 3, else the default |
| `YouTubeQAApp.DemoTopicIgnoresCase` | extension/src/components/YouTubeQAApp.jsx:79 | a question and its lowercase form get the same reply |
| `YouTubeQAApp.HowAndWorkAnywhere` | extension/src/components/YouTubeQAApp.jsx:81 | "how" and "work" anywhere in any case select the first reply |
| `YouTubeQAApp.App.constructor` | extension/src/components/YouTubeQAApp.jsx:11-24 | both overlays closed, no messages, not loading, a fresh empty search |
| `YouTubeQAApp.App.HandleKeyDown` | extension/src/components/YouTubeQAApp.jsx:36-60 | the flags follow the mode rule; Escape also clears the search with `ClearSearch`'s whole post-state (page, classes and id counter kept, the pending scan as `setSearchTerm("")` leaves it); navigation moves the cursor cyclically, makes the chosen match the only current one and keeps the page, results, undo list, term and pending scan; any other key leaves the search untouched |
| `YouTubeQAApp.App.ToggleChat` | extension/src/components/YouTubeQAApp.jsx:133-139 | chat flips and search mode ends off; the search is cleared, with `ClearSearch`'s whole post-state, only if search mode was on, and is untouched otherwise |
| `YouTubeQAApp.App.CloseOverlay` | extension/src/components/YouTubeQAApp.jsx:223-226 | search mode off and the search cleared with `ClearSearch`'s whole post-state: results, undo list, cursor and term reset, page, classes and id counter kept, the pending scan as `setSearchTerm("")` leaves it |
| `YouTubeQAApp.App.OpenSearchMode` | extension/src/components/YouTubeQAApp.jsx:243-246 | search opens and chat closes |
| `YouTubeQAApp.App.CloseSidebar` | extension/src/components/YouTubeQAApp.jsx:242 | the chat closes |
| `YouTubeQAApp.App.OpenDemoChat` | extension/src/components/YouTubeQAApp.jsx:205 | the chat opens |
| `YouTubeQAApp.App.Append` | extension/src/components/YouTubeQAApp.jsx:73 | a message is added at the end of the log |
| `YouTubeQAApp.App.HandleAskQuestion` | extension/src/components/YouTubeQAApp.jsx:66-131 | the log only grows; demo mode appends the question and starts loading; without a video URL, exactly the question and the "Please navigate…" reply are appended, loading untouched; otherwise the question and exactly one reply (the answer or the error text) are appended, loading ends false |
| `YouTubeQAApp.App.DemoTimerFires` | extension/src/components/YouTubeQAApp.jsx:77-96 | the oldest pending demo question gets its keyword-chosen reply appended and loading ends |
| `ChatSidebar.EnabledButtonAsks` | extension/src/components/ChatSidebar.jsx:270 | against the handler's test (line 48) and `canInteract` (line 32): an enabled send button always leads to a question; with a question accepted, the button is disabled exactly when interaction is impossible; blank input always disables it |
| `ChatSidebar.Sidebar.constructor` | extension/src/components/ChatSidebar.jsx:23 | the input starts empty |
| `ChatSidebar.Sidebar.SetInputValue` | extension/src/components/ChatSidebar.jsx:257 | the input holds what was typed |
| `ChatSidebar.Sidebar.HandleSubmit` | extension/src/components/ChatSidebar.jsx:46-52 | blank input or loading does nothing; otherwise the trimmed, non-blank input is passed on and the input is cleared |
| `ChatSidebar.FormatDurationFields` | extension/src/components/ChatSidebar.jsx:54-58 | the output is the whole minutes, ':', and two digits worth `s mod 60`, which is below 60 |
| `ChatSidebar.ClockFields` | extension/src/components/ChatSidebar.jsx:57 | "m:ss" has the minutes before the colon and two padded digits worth the seconds after it |
| `ChatSidebar.PaddedDigits` | extension/src/components/ChatSidebar.jsx:57 | padding one or two digits to two keeps their value |
| `ChatSidebar.FormatDurationRoundTrip` | extension/src/components/ChatSidebar.jsx:54-58 | reading the output back gives `mins*60 + secs`, which is the input |
| `ChatSidebar.ClockRoundTrip` | extension/src/components/ChatSidebar.jsx:57 | "m:ss" reads back as `m*60 + s` |
| `GetSubs.IsActualError` | backend/routes/get_subs.py:41-48 | the flag is set exactly for one of the four messages or a text starting with one of the two prefixes |
| `GetSubs.ErrorStatus` | backend/routes/get_subs.py:50-57 | 404 exactly when the lowercased text mentions "unavailable", "not found" or "not available", else 500 |
| `GetSubs.ErrorStatusIgnoresCase` | backend/routes/get_subs.py:52-56 | the status ignores case |
| `GetSubs.VideoUnavailableIs404` | backend/routes/get_subs.py:31-57 | "Video unavailable." is a 404 |
| `GetSubs.NotAvailableForLanguageIs404` | backend/routes/get_subs.py:32-57 | the language message is a 404 |
| `GetSubs.NotAvailableOrFailedIs404` | backend/routes/get_subs.py:34-57 | the download-failed message is a 404 |
| `GetSubs.NotRetrievedFromFileIs500` | backend/routes/get_subs.py:33-57 | "…could not be retrieved from file." matches none of the three phrases, so it is a 500 |
| `GetSubs.MissingCharExcludes` | backend/routes/get_subs.py:52-56 | text lacking one character of a phrase does not contain the phrase |
| `GetSubs.MissingPairExcludes` | backend/routes/get_subs.py:52-56 | text lacking one adjacent pair of a phrase does not contain the phrase |
| `GetSubs.GetSubtitlesHandler` | backend/routes/get_subs.py:12-71 | an empty URL is 400 before the fetcher is called; otherwise the answer is the route's outcome for the fetched and cleaned text |
| `GetSubs.SubsOutcomeSpec` | backend/routes/get_subs.py:17-71 | only 400, 404 or 500, with 400 exactly for an empty URL; empty text gives the fixed 404; a 500 carries the raw text of a known error; success exactly for non-error text that cleans to something, carrying it |
| `GetSubs.KnownErrorPassedOn` | backend/routes/get_subs.py:50-58 | a known error is passed on as the detail with its status, whatever the cleaner does |
| `GetSubs.KnownMessageStatuses` | backend/routes/get_subs.py:31-57 | three of the four messages answer 404 and the file message answers 500 |
| `GetSubs.InfoAgreesWithRoute` | backend/youtube_utils/get_info.py:47-70 | `get_video_info` classifies like the route; it keeps a transcript exactly where the route succeeds, except for text that cleans to nothing, kept as "" there and a 404 here |
| `Ask.DescForContext` | backend/routes/ask.py:14-16 | the description, or "No description available" when empty, then cut: a prefix of at most 500 characters, whole when shorter |
| `Ask.TagsForContext` | backend/routes/ask.py:17 | "None" without tags |
| `Ask.TagsShown` | backend/routes/ask.py:17 | each of the first ten tags appears in full; tags past the tenth never matter |
| `Ask.CategoriesForContext` | backend/routes/ask.py:18-20 | "None" without categories |
| `Ask.CategoriesShown` | backend/routes/ask.py:18-20 | every category appears in full |
| `Ask.TranscriptForContext` | backend/routes/ask.py:29 | "Not available" without a transcript, else a prefix of at most 200 characters, whole when shorter |
| `Ask.ContextSpec` | backend/routes/ask.py:22-30 | the context holds each of its seven lines in order |
| `Ask.AnswerDetail` | backend/routes/ask.py:38-42 | the line begins "The transcript is available with" exactly when there is a transcript, else it is the fixed sentence; `AnswerDetailLength` shows the length reads back |
| `Ask.AnswerDetailLength` | backend/routes/ask.py:39 | the length in the detail reads back as the transcript's length |
| `Ask.DisplayUploadDate` | backend/routes/ask.py:34-36 | never empty: the date, or "Unknown" |
| `Ask.Minutes` | backend/routes/ask.py:48 | floor division by 60: `m*60 <= duration < m*60 + 60`, negative durations included |
| `Ask.GroupNatReadBack` | backend/routes/ask.py:49 | the grouped digits of a natural, commas dropped, read back as the number |
| `Ask.GroupThousandsReadBack` | backend/routes/ask.py:49 | `{:,}` keeps the sign, and its digits read back as the magnitude |
| `Ask.GroupNatShape` | backend/routes/ask.py:49 | from 1000 up, the last group is ',' and three digits, after the grouping of the thousands |
| `Ask.GenerateAnswerSpec` | backend/routes/ask.py:11-55 | the answer opens with the title line and holds every line in order: detail, minutes, views, date and the context; the question does not change it |
| `UploadHandler.Sanitize` | backend/doc_analyser/upload_hander.py:22-23 | one character per character: each kept exactly when alphanumeric, ' ', '.' or '_', else '_' |
| `UploadHandler.SafeName` | backend/doc_analyser/upload_hander.py:22-24 | a prefix of the sanitised stem, all of it safe characters, without trailing whitespace; only spaces were removed |
| `UploadHandler.SafeNameIdempotent` | backend/doc_analyser/upload_hander.py:22-24 | sanitising a safe name again leaves it unchanged |
| `UploadHandler.SafeNameFixesSafe` | backend/doc_analyser/upload_hander.py:22-24 | safe names are exactly the fixed points |
| `UploadHandler.LastIndexOf` | backend/doc_analyser/upload_hander.py:19 | the last position of a character below a bound, or -1 when there is none |
| `UploadHandler.SplitExt` | backend/doc_analyser/upload_hander.py:19 | stem and extension concatenate back; the extension is empty or one dot and then no dot or '/' |
| `UploadHandler.SplitExtFindsExtension` | backend/doc_analyser/upload_hander.py:19 | an extension is split off exactly when the last component has a dot after a character that is not a dot |
| `UploadHandler.SplitExtExamples` | backend/doc_analyser/upload_hander.py:19 | "report.pdf" splits as "report" and ".pdf"; "a.tar.gz" as "a.tar" and ".gz" |
| `UploadHandler.SplitExtNoExtension` | backend/doc_analyser/upload_hander.py:18-19 | ".env" and the default "unknown_file" have no extension |
| `UploadHandler.PathJoin` | backend/doc_analyser/upload_hander.py:30 | an absolute name replaces the directory; the result always ends with the name, and for a relative name starts with the directory, with a '/' inserted when needed |
| `UploadHandler.JoinComponent` | backend/doc_analyser/upload_hander.py:30 | a non-empty name without '/' joined to a directory not ending in '/' is the directory, one '/', then the name, with no further '/' |
| `UploadHandler.ExtOrDefault` | backend/doc_analyser/upload_hander.py:28 | the extension when there is one, else ".dat"; in both cases it starts with '.' |
| `UploadHandler.SavePath` | backend/doc_analyser/upload_hander.py:16-30 | a caller-supplied file name is joined verbatim, with no sanitising; otherwise the name is generated from the upload's own name, or from "unknown_file" when it has none |
| `UploadHandler.GeneratedNameFields` | backend/doc_analyser/upload_hander.py:26-28 | the name is the safe stem, '_', the timestamp, '_', eight hex digits, then the extension or ".dat"; the timestamp field reads back and the id field is the first eight digits of the uuid |
| `UploadHandler.GeneratedNameStaysInDir` | backend/doc_analyser/upload_hander.py:22-30 | a generated name holds no '/', so the file lands directly in the temporary directory |
| `UploadHandler.GeneratedNameNoSlash` | backend/doc_analyser/upload_hander.py:22-28 | the generated name is non-empty and holds no '/' |

## Left out

- The real DOM is left out: node objects, TreeWalker, `normalize`, `scrollIntoView` and smooth scrolling. The page is a sequence of text leaves with ancestor chains. `normalize` only merges adjacent text and never changes the page's text (useSearch.js:17-19). Scrolling is display only.
- `clearHighlights` is modelled on the raw log. `parent.replaceWith(node)` is modelled, but its branch is never taken, because the guard never holds for a clone.
- The "intended" undo is `RestoreSplices` over a splice log. The ghost state of the specification keeps that log; the code does not.
- React is left out: state batching, closures and effect scheduling, the 300 ms `setTimeout` (useSearch.js:138-144) and framer-motion animations. The debounce becomes a pending-term field, and `TimerFires` runs the scan with the latest term.
- Unicode case folding is left out. `toLowerCase`, the regex `i` flag, Python `lower` and `isalnum`, `trim` and `rstrip` are all ASCII here. `IsSpace` is ASCII whitespace without the separators \x1c-\x1f that Python's `str.isspace` also counts.
- Strings.TrimEnd: is Python's `rstrip` only on text without the separators \x1c-\x1f, such as the output of `Sanitize` that `upload_hander.py` strips, because `IsSpace` leaves those four out.
- The regular-expression engine is left out. The model interprets only the literal fragment the escaped term lies in, plus one capturing group.
- The interleaving of `await` is left out. `handleAskQuestion` takes the result of `askQuestion` (the answer, or a thrown error) as a parameter, and the network call and its URL are not modelled.
- The window keydown listener and the overlay input's own keydown handler both see an Enter press in the browser. The model treats them as separate handlers; whether both fire for one event is not modelled.
- `formatViews` (ChatSidebar.jsx:60-64) is left out: it is floating-point division with `toFixed`.
- `formatDuration` is modelled for whole, non-negative seconds only; JavaScript numbers can be fractional or negative.
- The `ask` route handler (ask.py:59-106) is left out. It is a network wrapper, and as written it calls `request.get_json` on a FastAPI request and does not await `generate_answer`.
- `YTVideoInfo` is left out as a record. `None` and the empty string, both falsy in Python, are both written "" in the model.
- `get_subtitle_content` and `processed_transcript` (yt-dlp and the cleaner) are not part of this model. They are function parameters.
- The upload's timestamp and uuid are parameters: `int(time.time())` and `uuid4().hex`.
- File writing, file deletion and PyPDFLoader (upload_hander.py:31-53) are left out.
- `splitext` and `join` are modelled on POSIX paths, following Python's documented behaviour. Windows paths are not modelled.
- The rest of `get_video_info` (get_info.py:1-46 and after line 70) is not modelled. It is yt-dlp plumbing; only its classifier and transcript choice are modelled.

## Findings

| source | as written | input that shows it | evidently intended | confidence | as-written member | corrected member |
|---|---|---|---|---|---|---|
| extension/src/hooks/useSearch.js:12-13, 84 | the undo log stores `node.cloneNode()`, a detached copy. `parent.contains(clone)` is therefore never true, and if it were, `parent.replaceWith` would replace the whole parent element | search for "a" on a page with one text leaf "a", then clear | clearing puts every original text node back in place of its pieces and gives the page back exactly | high (not executed) | `SearchDom.ClearAfterScanKeepsMarks` | `SearchDom.RestoreUndoesScan` |
| extension/src/components/YouTubeQAApp.jsx:38 | the test is `e.key === "shift" && e.key === "f"`, which no single key satisfies | Ctrl+F with both overlays closed | Ctrl/Cmd+F opens search mode | high (not executed) | `YouTubeQAApp.ShortcutNeverFires` | `YouTubeQAApp.ShortcutIntendedOpensSearch` |

Both corrected definitions sit beside the as-written code: `SearchDom.RestoreSplices` and `YouTubeQAApp.ShortcutIntended`. The hook's `ClearHighlights` and the app's `HandleKeyDown` keep the behaviour as written, because they model the extension as it runs. `ModesAfterKey` takes the shortcut test as a parameter, so it serves both variants.
