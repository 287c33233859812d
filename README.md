# FlahyAI chat core, modelled in Dafny

This project models the core of the Flahy mobile app. It covers:

- **The assistant chat screen.**
  - Sending a question: the guard, the two messages added to the current thread, the history filter and the request payload.
  - Reading the reply: the server-sent-event stream with its line buffer, `parseSSELine` and `parseSSEResponse`.
  - The text finally stored for the reply: the streamed answer, `No response received.`, or an `Error:` text.
  - The list the screen shows: an optional greeting, then the stored messages, with the streamed text shown in place of the one being streamed.
  - `getMimeType` for report attachments.
- **The screen's markdown renderer.**
  - The line-by-line block loop of `MarkdownText`: fences, blank lines, headings, bullet and numbered items, quotes, rules, paragraphs.
  - The inline scanner `parseInline`: code, bold, italic, links.
- **The persisted stores.**
  - The chat store: threads, current thread, sync time.
  - The session store: token, user, `isAuthenticated`.
  - The error-banner store.
- **The file viewer's URL resolution and PDF/image decision.**
- **The data list's type filter.**

Modules:

| module | file | models |
|---|---|---|
| `Strings` | `strings.dfy` | the JavaScript string operations used: `trim`, `trimStart`, `split` on one character, `join`, `includes`, `toLowerCase`, `substring(0, n)`, `Number.toString()` |
| `Seqs` | `seqs.dfy` | `Array.prototype.filter` and subsequences |
| `Optional` | `optional.dfy` | `null`/`undefined` as `Option` |
| `StreamFrames` | `stream_frames.dfy` | `parseSSELine`, `parseSSEResponse`, the buffered read loop |
| `InlineMarkdown` | `inline_markdown.dfy` | `parseInline`; the regular expression becomes a scanner tried at each position |
| `BlockMarkdown` | `block_markdown.dfy` | `MarkdownText`, with its block patterns |
| `ChatStore` | `chat_store.dfy` | `useChatStore`, as the class `Store` and the functions it is specified by |
| `ChatTurn` | `chat_turn.dfy` | `sendMessage`, the message merge and `getMimeType`; the class `ChatScreen` holds the screen's state |
| `AuthStore` | `auth_store.dfy` | `useAuthStore`, as the class `Session` |
| `UiStore` | `ui_store.dfy` | `useUIStore`, as the class `ErrorBanner` |
| `FileViewer` | `file_viewer.dfy` | `getFullUrl`, `fileExt`, `isPdf`, `isImage` |
| `DataList` | `data_list.dfy` | the `filteredData` callback |

Modelling choices:

- **Stores and the screen are classes.**
  - The stores keep their state in fields, and their actions are methods over those fields.
  - Each method is specified by a pure function of the old state: `EditThreads`, `WithoutThread`, `UnsyncedOf`, `Asked`, `AfterTurn`, `BuildApiMessages`, `Committed`.
  - The properties are lemmas about those functions.
- **The loops keep their form.**
  - The stream reader, the markdown block loop, its inner fence loop and the inline `regex.exec` loop are methods with `while` loops.
  - Each is proved equal to a function that reads the input in one piece. For the stream reader, that function is `parseSSEResponse` of the whole body, however the body was cut into chunks.
- **Clock and ids are parameters.**
  - The generated thread id is an argument. It is never empty, because `Date.now().toString(36)` is not.
  - `sendMessage` reads `Date.now()` twice: once for the question's id, once for the placeholder's id (plus one). The two readings are two separate arguments.
- **The request is a value.**
  - A request either throws with a message or gets a status and a body.
  - The body is a stream of already-decoded text chunks, a whole text, or a read that rejects.
- **`JSON.parse` is an abstract decoder.** Its result is seen only through the `type` and `delta` members that `parseSSELine` reads.

Two behaviours of the code a reader may not expect:

- Heading text is shown as written. It is not inline-parsed.
- A heading, bullet or numbered line ending in `\r` or another line terminator is a paragraph, because `.` does not match a line terminator.

## Model

| member | source | states |
|---|---|---|
| `Strings.TrimEmptyIffAllSpace` | src/screens/FlahyAIScreen.tsx:155 | `trim()` is empty exactly when every character is JavaScript white space |
| `Strings.Trim` | src/screens/FlahyAIScreen.tsx:155 | `trim()`: white space dropped at both ends; no contract of its own, see `TrimEmptyIffAllSpace` and `TrimKeepsFirst` |
| `Strings.TrimStart` | src/screens/FlahyAIScreen.tsx:138 | `trimStart()`; no contract of its own, see `TrimStartDropsLeadingSpaces` |
| `Strings.Split` | src/screens/FlahyAIScreen.tsx:130 | `split(sep)` for one character: at least one piece; see `SplitJoin`, `SplitAppend`, `SplitAddLine` |
| `Strings.Lower` | src/screens/FlahyAIScreen.tsx:285 | `toLowerCase()` on ASCII: same length, each character lowercased in place |
| `Strings.LastSegment` | src/screens/FlahyAIScreen.tsx:285 | `split(sep).pop()`; no contract of its own, see `LastSegmentAfterSeparator` |
| `Strings.TrimStartDropsLeadingSpaces` | src/screens/FlahyAIScreen.tsx:138 | `trimStart()` removes exactly the leading white space |
| `Strings.TrimKeepsFirst` | src/screens/FlahyAIScreen.tsx:219 | trimming keeps a first character that is not white space |
| `Strings.SplitJoin` | src/screens/FlahyAIScreen.tsx:130 | joining the pieces of `split(sep)` with `sep` gives back the text |
| `Strings.SplitAppend` | src/screens/FlahyAIScreen.tsx:490-492 | splitting `x + y` gives the pieces of `x` except the last, then the pieces of that last piece followed by `y` |
| `Strings.SplitAddLine` | src/screens/FlahyAIScreen.tsx:264-266 | appending a separator and a line without separators adds exactly that line as a new last piece |
| `Strings.LastSegmentAfterSeparator` | src/screens/FlahyAIScreen.tsx:285 | `split(sep).pop()` is the text after the last separator |
| `Strings.NatToStringInjective` | src/screens/FlahyAIScreen.tsx:404-413 | different numbers print differently |
| `Strings.ContainsAt` | src/components/DataList.tsx:27-31 | `includes(sub)` holds exactly when `sub` occurs at some index |
| `StreamFrames.Kept` | src/screens/FlahyAIScreen.tsx:268 | a line contributes at most one delta to the content |
| `StreamFrames.ParseSseLine` | src/screens/FlahyAIScreen.tsx:246-259 | a delta is returned only for a trimmed line starting with `data: ` whose payload decodes to a `text-delta` frame with that string `delta` (the converse is `ParseSseLineFrame`) |
| `StreamFrames.ParseSseResponse` | src/screens/FlahyAIScreen.tsx:264-270 | defined as the join of the kept deltas of the `\n` pieces; no contract of its own, its properties are the `ParseSseResponse*` lemmas and `ReadStream` |
| `StreamFrames.DeltasNonEmpty` | src/screens/FlahyAIScreen.tsx:268 | after `filter(Boolean)` every delta kept is non-empty |
| `StreamFrames.DeltasAppend` | src/screens/FlahyAIScreen.tsx:264-270 | the deltas of two runs of lines are the deltas of each, in order |
| `StreamFrames.ParseSseLineNeedsPrefix` | src/screens/FlahyAIScreen.tsx:247-248 | a line whose trimmed text does not start with `data: ` yields nothing |
| `StreamFrames.ParseSseLineFrame` | src/screens/FlahyAIScreen.tsx:246-258 | a `data: ` frame with white space around it yields the decoded `delta` member when the payload decodes to a frame of type `text-delta`, and nothing otherwise |
| `StreamFrames.NonDataLineIgnored` | src/screens/FlahyAIScreen.tsx:248 | a line that is not a data frame yields nothing |
| `StreamFrames.PingAndMalformedFramesIgnored` | src/screens/FlahyAIScreen.tsx:250-257 | a frame of another type and a payload `JSON.parse` rejects both yield nothing |
| `StreamFrames.ParseSseResponseEmpty` | src/screens/FlahyAIScreen.tsx:264-270 | an empty body gives the empty text |
| `StreamFrames.ParseSseResponseAddLine` | src/screens/FlahyAIScreen.tsx:264-270 | one more line appends its delta, if any, at the end; deltas are never reordered |
| `StreamFrames.CompleteLinesPrefix` | src/screens/FlahyAIScreen.tsx:491-492 | what the complete lines give is a prefix of what the whole body gives |
| `StreamFrames.RunningTotalsArePrefixes` | src/screens/FlahyAIScreen.tsx:497-498 | every published value is a prefix of the final content and a proper prefix of every later one |
| `StreamFrames.EmptyLineContributesNothing` | src/screens/FlahyAIScreen.tsx:504 | an empty residual buffer adds nothing |
| `StreamFrames.ReadStream` | src/screens/FlahyAIScreen.tsx:483-509 | the streamed content is `parseSSEResponse` of the concatenated body, however it was chunked; the published values are the running totals of the complete lines' deltas, each a prefix of the result and strictly growing |
| `StreamFrames.ParseLines` | src/screens/FlahyAIScreen.tsx:494-500 | the inner `for` loop adds exactly the non-empty deltas of the lines and publishes each running total |
| `StreamFrames.StreamStep` | src/screens/FlahyAIScreen.tsx:490-492 | one chunk keeps the invariant: the completed lines plus the buffer are the pieces of the body read so far |
| `StreamFrames.StreamEnd` | src/screens/FlahyAIScreen.tsx:503-509 | at the end, the completed lines and the residual buffer give exactly `parseSSEResponse` of the body |
| `StreamFrames.FlushBuffer` | src/screens/FlahyAIScreen.tsx:503-508 | after the loop, a non-empty residual buffer is parsed as one more line and its kept delta (if any) is appended once; nothing else is added and the content only grows |
| `InlineMarkdown.FindFrom` | src/screens/FlahyAIScreen.tsx:62 | the first position at or after `from` holding the character, or none |
| `InlineMarkdown.Closing` | src/screens/FlahyAIScreen.tsx:62 | `[^c]+c`: the first closing character after a non-empty run without it |
| `InlineMarkdown.CodeAt` | src/screens/FlahyAIScreen.tsx:62-73 | a code match spans exactly the backtick-delimited text it stands for, with a non-empty inside |
| `InlineMarkdown.BoldAt` | src/screens/FlahyAIScreen.tsx:62-76 | a bold match spans exactly `**text**`, with a non-empty text free of `*` |
| `InlineMarkdown.ItalicAt` | src/screens/FlahyAIScreen.tsx:62-82 | an italic match spans exactly `*text*` or `_text_`, with a non-empty text free of its delimiter |
| `InlineMarkdown.LinkAt` | src/screens/FlahyAIScreen.tsx:62-85 | a link match spans exactly `[text](url)`, with both parts non-empty |
| `InlineMarkdown.MatchAt` | src/screens/FlahyAIScreen.tsx:61-86 | what the first alternative that matches at a position finds spans exactly the text of its node |
| `InlineMarkdown.CodeAtComplete` | src/screens/FlahyAIScreen.tsx:62 | every `` `[^`]+` `` span is matched as code with the text between the backticks |
| `InlineMarkdown.BoldAtComplete` | src/screens/FlahyAIScreen.tsx:62 | every `**[^*]+**` span is matched as bold with the text inside |
| `InlineMarkdown.ItalicAtComplete` | src/screens/FlahyAIScreen.tsx:62 | every `*[^*]+*` or `_[^_]+_` span is matched as italic with the text inside |
| `InlineMarkdown.LinkAtComplete` | src/screens/FlahyAIScreen.tsx:62 | every `[[^\]]+]([^)]+)` span is matched as a link with its text and url |
| `InlineMarkdown.AlternativesExclusive` | src/screens/FlahyAIScreen.tsx:61-62 | bold and `*` italic never both match at one position; the other alternatives differ in their first character |
| `InlineMarkdown.MatchAtComplete` | src/screens/FlahyAIScreen.tsx:61-86 | wherever a code, bold or italic span starts, the regular expression at that position yields that span's node |
| `InlineMarkdown.MatchAtLink` | src/screens/FlahyAIScreen.tsx:61-86 | wherever a link span starts, the regular expression at that position yields that link |
| `InlineMarkdown.MatchAtNone` | src/screens/FlahyAIScreen.tsx:61-86 | when nothing matches at a position, no alternative's pattern spans any text from it |
| `InlineMarkdown.ParseInline` | src/screens/FlahyAIScreen.tsx:59-96 | the `regex.exec` loop yields exactly `Inline(line)` |
| `InlineMarkdown.Inline` | src/screens/FlahyAIScreen.tsx:59-96 | the scan from position 0 as a function; no contract of its own, its properties are `InlineRoundTrip`, `InlineShape` and `InlineLeftmost` |
| `InlineMarkdown.ScanRenders` | src/screens/FlahyAIScreen.tsx:66-93 | the nodes from a position on render back to the rest of the line |
| `InlineMarkdown.InlineRoundTrip` | src/screens/FlahyAIScreen.tsx:59-96 | rendering every node with its delimiters and joining them gives back the line |
| `InlineMarkdown.ScanShape` | src/screens/FlahyAIScreen.tsx:66-93 | from any position, no two plain nodes are adjacent and every inner text is well formed |
| `InlineMarkdown.InlineShape` | src/screens/FlahyAIScreen.tsx:66-93 | no two plain nodes are adjacent, and every node's inner text is non-empty and free of its closing delimiter |
| `InlineMarkdown.ScanLeftmost` | src/screens/FlahyAIScreen.tsx:62-68 | the scan is leftmost from any position: leading plain text holds no matching position |
| `InlineMarkdown.InlineLeftmost` | src/screens/FlahyAIScreen.tsx:62-68 | leading plain text holds no position where a pattern matches, and a leading markup node is the match at position 0 |
| `InlineMarkdown.ScanWithoutMarkup` | src/screens/FlahyAIScreen.tsx:91-93 | past the last opening character the scan is one gap of plain text |
| `InlineMarkdown.InlineWithoutMarkup` | src/screens/FlahyAIScreen.tsx:91-93 | a line with none of `` ` `` `*` `_` `[` is one plain node, or none when empty |
| `InlineMarkdown.BoldBeforeItalic` | src/screens/FlahyAIScreen.tsx:61-62 | `**a**` is bold; `**a*` matches nothing at 0; `*a*` is italic |
| `InlineMarkdown.CodeBeforeBold` | src/screens/FlahyAIScreen.tsx:61-62 | markup between backticks stays code |
| `InlineMarkdown.LinkShape` | src/screens/FlahyAIScreen.tsx:62 | `[a](b)` is a link; a space before `(` or an empty url is none |
| `BlockMarkdown.LeadingRunIsRun` | src/screens/FlahyAIScreen.tsx:161 | the counted leading `#`s are all `#` |
| `BlockMarkdown.SpacedTailShape` | src/screens/FlahyAIScreen.tsx:161 | what `\s+(.+)$` captures is non-empty, has no line terminator and ends the text, after at least one white-space character |
| `BlockMarkdown.HeadingMatchShape` | src/screens/FlahyAIScreen.tsx:161-163 | a heading match has 1–3 leading `#`, white space, and a text free of line terminators that ends the line |
| `BlockMarkdown.BulletMatchShape` | src/screens/FlahyAIScreen.tsx:175-177 | a bullet match has indent `floor(ws / 2)`, a marker after the white space, and a text without line terminators that ends the line |
| `BlockMarkdown.NumberedMatchShape` | src/screens/FlahyAIScreen.tsx:191-196 | a numbered match has the digits followed by `.` as its label and a text without line terminators that ends the line |
| `BlockMarkdown.NumberedFromShape` | src/screens/FlahyAIScreen.tsx:191 | the same, for the digits found at a given offset |
| `BlockMarkdown.QuoteMatchShape` | src/screens/FlahyAIScreen.tsx:207 | a quote match starts with `>`, then white space, then the captured text, which ends the line |
| `BlockMarkdown.FenceEnd` | src/screens/FlahyAIScreen.tsx:141-144 | the first fence line at or after `j`, or the end of the lines |
| `BlockMarkdown.HeadingMatch` | src/screens/FlahyAIScreen.tsx:161 | `/^(#{1,3})\s+(.+)$/` as a function; no contract of its own, see `HeadingMatchShape` and `HeadingLine` |
| `BlockMarkdown.BulletMatch` | src/screens/FlahyAIScreen.tsx:175 | `/^(\s*)[-*+]\s+(.+)$/` as a function; no contract of its own, see `BulletMatchShape` and `BulletLine` |
| `BlockMarkdown.NumberedMatch` | src/screens/FlahyAIScreen.tsx:191 | `/^(\s*)(\d+)[.)]\s+(.+)$/` as a function; no contract of its own, see `NumberedMatchShape` and `NumberedLine` |
| `BlockMarkdown.QuoteMatch` | src/screens/FlahyAIScreen.tsx:207 | `/^>\s*(.*)$/` as a function; no contract of its own, see `QuoteMatchShape` and `QuoteLine` |
| `BlockMarkdown.IsRule` | src/screens/FlahyAIScreen.tsx:219 | `/^[-*_]{3,}$/` on the trimmed line; no contract of its own, see `DashesMakeRule` and `FirstCharRulesOutRule` |
| `BlockMarkdown.Classify` | src/screens/FlahyAIScreen.tsx:160-231 | the patterns tried in order heading, bullet, numbered, quote, rule, then paragraph; no contract of its own, see the `*Line` lemmas |
| `BlockMarkdown.SegmentsFrom` | src/screens/FlahyAIScreen.tsx:134-158 | fences and single lines from an index, blank lines dropped; no contract of its own, see `OneBlockPerLine` and `UnclosedFence` |
| `BlockMarkdown.Markdown` | src/screens/FlahyAIScreen.tsx:129-235 | the blocks of the content split on `\n`; no contract of its own, see `RenderMarkdown` |
| `BlockMarkdown.RenderMarkdown` | src/screens/FlahyAIScreen.tsx:129-235 | `MarkdownText` yields exactly `Markdown(content)` |
| `BlockMarkdown.RenderLines` | src/screens/FlahyAIScreen.tsx:134-232 | the block loop yields exactly the blocks of its segments |
| `BlockMarkdown.FenceBody` | src/screens/FlahyAIScreen.tsx:139-144 | the inner loop collects the lines up to the next fence line and stops there |
| `BlockMarkdown.FenceAdvance` | src/screens/FlahyAIScreen.tsx:138-151 | a fence line and its body make one code block, and rendering resumes after the closing line |
| `BlockMarkdown.BlankAdvance` | src/screens/FlahyAIScreen.tsx:155-158 | a blank line outside fences renders nothing |
| `BlockMarkdown.LineAdvance` | src/screens/FlahyAIScreen.tsx:160-231 | any other line renders as its class |
| `BlockMarkdown.OneBlockPerLine` | src/screens/FlahyAIScreen.tsx:134-232 | without fences, each non-blank line gives exactly one block, in order |
| `BlockMarkdown.UnclosedFence` | src/screens/FlahyAIScreen.tsx:141-148 | an unclosed fence takes every remaining line into one code block |
| `BlockMarkdown.HeadingLine` | src/screens/FlahyAIScreen.tsx:161-169 | 1–3 `#`, white space and a clean text classify as that heading, with the text as written |
| `BlockMarkdown.BulletLine` | src/screens/FlahyAIScreen.tsx:175-182 | a bullet line classifies with indent half its leading white space |
| `BlockMarkdown.NumberedLine` | src/screens/FlahyAIScreen.tsx:191-198 | a numbered line has label digits + `.`, whether it used `.` or `)` |
| `BlockMarkdown.QuoteLine` | src/screens/FlahyAIScreen.tsx:207-211 | `>`, white space and text classify as a quote of the text |
| `BlockMarkdown.MatchedItemEndsClean` | src/screens/FlahyAIScreen.tsx:161-191 | a heading, bullet or numbered line never ends in a line terminator |
| `BlockMarkdown.FirstCharRulesOutRule` | src/screens/FlahyAIScreen.tsx:219 | a line whose first character is neither white space nor `-*_` is not a rule |
| `BlockMarkdown.HeadingWithCarriageReturn` | src/screens/FlahyAIScreen.tsx:161 | `# Title\r` is a paragraph |
| `BlockMarkdown.DashesMakeRule` | src/screens/FlahyAIScreen.tsx:219 | `---` is a rule |
| `BlockMarkdown.SpacedDashesMakeBullet` | src/screens/FlahyAIScreen.tsx:175-188 | `- - -` is a bullet, tested before the rule |
| `ChatStore.UnsentAll` | src/store/chatStore.ts:103 | every message is kept in order, with `synced` false |
| `ChatStore.IdsOf` | src/store/chatStore.ts:144 | the ids, in order |
| `ChatStore.UpdateContent` | src/store/chatStore.ts:90-92 | only the content of messages with the id changes, and only when the update has content |
| `ChatStore.MarkIds` | src/store/chatStore.ts:128-130 | a message becomes synced exactly when it was, or its id is in the set; nothing else changes |
| `ChatStore.EditThreads` | src/store/chatStore.ts:73-77 | every thread with the current id gets the edit; ids, times and other threads are kept |
| `ChatStore.FindThread` | src/store/chatStore.ts:113 | a found thread is in the list with the id; none means no thread has it |
| `ChatStore.FindFirst` | src/store/chatStore.ts:113 | `find` returns the first thread with the id |
| `ChatStore.UnsyncedOfFirstThread` | src/store/chatStore.ts:111-115 | nothing without a current thread; otherwise a subsequence of the first matching thread's messages, all unsynced, and as many as it has unsynced messages, so exactly those messages in order, duplicates included |
| `ChatStore.EditCurrentMessages` | src/store/chatStore.ts:73-77 | editing the threads edits the message list `find` returns, and `find` still finds a thread |
| `ChatStore.AppendToCurrent` | src/store/chatStore.ts:67-79 | adding a message puts it at the end of the current thread's list |
| `ChatStore.AppendTwice` | src/store/chatStore.ts:67-79 | two adds append both messages, in order |
| `ChatStore.MarkIdsIdempotent` | src/store/chatStore.ts:117-135 | marking the same ids again changes nothing |
| `ChatStore.MarkingUnsyncedClearsAll` | src/store/chatStore.ts:139-144 | marking the ids of the unsynced messages leaves none unsynced |
| `ChatStore.SyncLeavesNothingUnsynced` | src/store/chatStore.ts:137-145 | after the sync step, `getUnsyncedMessages()` is empty |
| `ChatStore.DeleteKeepsOthers` | src/store/chatStore.ts:59-65 | deletion keeps the other threads in order, drops every thread with the id, and changes nothing when none has it |
| `ChatStore.DuplicateIdsKept` | src/store/chatStore.ts:67-79 | adding the same message twice keeps both copies |
| `ChatStore.Store.constructor` | src/store/chatStore.ts:45-47 | no threads, no current thread, never synced |
| `ChatStore.Store.CreateThread` | src/store/chatStore.ts:49-57 | the new empty thread goes first and becomes current; its id is returned |
| `ChatStore.Store.DeleteThread` | src/store/chatStore.ts:59-65 | threads with the id go; the current id is cleared exactly when it was the deleted one |
| `ChatStore.Store.AddMessage` | src/store/chatStore.ts:67-79 | without a current id nothing changes; otherwise the unsynced message is appended to the current threads |
| `ChatStore.Store.UpdateMessage` | src/store/chatStore.ts:81-97 | without a current id nothing changes; otherwise messages with the id in the current threads get the new content |
| `ChatStore.Store.SetMessages` | src/store/chatStore.ts:99-109 | without a current id nothing changes; otherwise the current threads' messages are replaced, all unsynced |
| `ChatStore.Store.MarkAsSynced` | src/store/chatStore.ts:117-135 | without a current id nothing changes; otherwise the ids are marked in the current threads and the sync time is set |
| `ChatStore.Store.SyncToServer` | src/store/chatStore.ts:137-145 | afterwards nothing is unsynced; with nothing to sync the state is unchanged |
| `ChatStore.Store.GetUnsyncedMessages` | src/store/chatStore.ts:111-115 | `[]` without a current id; otherwise a subsequence of the current thread's messages, all unsynced, as many as it has unsynced messages |
| `ChatStore.Store.EditCurrent` | src/store/chatStore.ts:67-135 | the shared step of the message actions: without a current id nothing changes; otherwise the edit is applied to the threads with the current id; the current id and sync time are kept |
| `AuthStore.Session.constructor` | src/store/authStore.ts:17-19 | signed out: no token, no user, not authenticated |
| `AuthStore.Session.SetToken` | src/store/authStore.ts:20 | the token is stored, authenticated exactly when it is non-empty, and the user is kept |
| `AuthStore.Session.SetUser` | src/store/authStore.ts:21 | the user is stored; token and flag are kept |
| `AuthStore.Session.Logout` | src/store/authStore.ts:22 | from any state, back to signed out |
| `UiStore.ErrorBanner.constructor` | src/store/uiStore.ts:12-14 | hidden, with empty title and message |
| `UiStore.ErrorBanner.ShowError` | src/store/uiStore.ts:15 | shown with exactly the given title and message |
| `UiStore.ErrorBanner.HideError` | src/store/uiStore.ts:16 | from any state, back to the initial one |
| `FileViewer.GetFullUrl` | src/screens/FileViewerScreen.tsx:14-19 | empty exactly for an empty uri; absolute uris are kept; a relative uri is appended to the base address, with a `/` inserted only when it does not start with one; every non-empty result is absolute |
| `FileViewer.GetFullUrlIdempotent` | src/screens/FileViewerScreen.tsx:14-19 | resolving a resolved address changes nothing |
| `FileViewer.FileExt` | src/screens/FileViewerScreen.tsx:25 | `name?.split('.').pop()?.toLowerCase()`; no contract of its own, see `ExtensionAfterLastDot` and `ExtensionOfDotlessName` |
| `FileViewer.IsPdf` | src/screens/FileViewerScreen.tsx:26 | the type lowercased contains `pdf`, or the extension is `pdf`; no contract of its own |
| `FileViewer.IsImage` | src/screens/FileViewerScreen.tsx:27 | not a PDF, and the type mentions `image` or the extension is one of the five image extensions; no contract of its own, see `NeverPdfAndImage` |
| `FileViewer.NeverPdfAndImage` | src/screens/FileViewerScreen.tsx:26-27 | no file is both a PDF and an image |
| `FileViewer.ExtensionAfterLastDot` | src/screens/FileViewerScreen.tsx:25 | the extension is the lowercased text after the last `.` |
| `FileViewer.ExtensionOfDotlessName` | src/screens/FileViewerScreen.tsx:25 | a name without `.` is its own extension |
| `FileViewer.UpperCasePdfName` | src/screens/FileViewerScreen.tsx:25-26 | `Lab.Results.PDF` with no type is a PDF |
| `FileViewer.PdfTypeBeatsName` | src/screens/FileViewerScreen.tsx:26-27 | a type containing `pdf` makes a PDF, and so never an image |
| `FileViewer.JpegNameIsImage` | src/screens/FileViewerScreen.tsx:27 | `xray.jpeg` with no type is an image |
| `DataList.AllKeepsData` | src/components/DataList.tsx:25-26 | `all` lists everything, in order |
| `DataList.Keeps` | src/components/DataList.tsx:25-31 | the `filter` callback: `all`, or a defined type containing the filter word; no contract of its own |
| `DataList.FilteredData` | src/components/DataList.tsx:25-33 | `data.filter` with `Keeps`; no contract of its own, see `FilteredKeepsExactly` and `FilterTwice` |
| `DataList.FilteredKeepsExactly` | src/components/DataList.tsx:25-33 | the list is a subsequence of the data, and an item is in it exactly when its type contains the filter word |
| `DataList.FilterTwice` | src/components/DataList.tsx:25-33 | filtering twice is filtering once |
| `DataList.JpgMissesJpeg` | src/components/DataList.tsx:29-30 | `jpg` does not list an `image/jpeg` file and `jpeg` does; an item without a type is not listed under `pdf`, whatever its name |
| `DataList.JpgNotInJpegType` | src/components/DataList.tsx:30 | `image/jpeg` does not contain `jpg` |
| `ChatTurn.GetMimeType` | src/screens/FlahyAIScreen.tsx:284-289 | one of the three MIME types; `ExtensionDecides` and `DotlessName` fix which one for every name |
| `ChatTurn.ExtensionDecides` | src/screens/FlahyAIScreen.tsx:285-288 | for every name `stem.ext` with a dotless last piece: `application/pdf` when it lowercases to `pdf`, `image/png` when it lowercases to `png`, and `image/jpeg` otherwise |
| `ChatTurn.DotlessName` | src/screens/FlahyAIScreen.tsx:285-288 | a name without `.` is judged as a whole: `pdf`, `png` in any case, or else `image/jpeg` |
| `ChatTurn.MimeTypeFromLastPiece` | src/screens/FlahyAIScreen.tsx:285 | only the text after the last `.` decides the type |
| `ChatTurn.UpperCasePdfName` | src/screens/FlahyAIScreen.tsx:285-286 | a `.PDF` name is `application/pdf` |
| `ChatTurn.DoubleExtension` | src/screens/FlahyAIScreen.tsx:285-287 | a `.pdf.png` name is `image/png` |
| `ChatTurn.HistoryKeepsExactly` | src/screens/FlahyAIScreen.tsx:430-436 | the history is a subsequence of the thread, and a message is in it exactly when it passes the filter |
| `ChatTurn.Resent` | src/screens/FlahyAIScreen.tsx:430-436 | the filter of the history: not the placeholder, non-empty, not starting with `Error:`, not `No response received.` nor `Thinking...`; no contract of its own |
| `ChatTurn.History` | src/screens/FlahyAIScreen.tsx:430-436 | `filter` with `Resent`; no contract of its own, see `HistoryKeepsExactly` |
| `ChatTurn.HistoryAfterAsking` | src/screens/FlahyAIScreen.tsx:425-436 | adding the question and the placeholder grows the history by the question alone |
| `ChatTurn.FirstUserIndex` | src/screens/FlahyAIScreen.tsx:439 | the index of the first user message, or `-1` when there is none |
| `ChatTurn.BuildApiMessages` | src/screens/FlahyAIScreen.tsx:442-455 | one message per history entry with its id, role and text part first; a second part, the report, exactly on the first user message when a report is held |
| `ChatTurn.OneAttachment` | src/screens/FlahyAIScreen.tsx:446 | at most one message carries the report |
| `ChatTurn.ErrorText` | src/screens/FlahyAIScreen.tsx:526 | `Error: ` followed by the message, or by `Something went wrong.` when the message is empty |
| `ChatTurn.OrFallback` | src/screens/FlahyAIScreen.tsx:512 | non-empty content is kept; empty content becomes `No response received.` |
| `ChatTurn.Committed` | src/screens/FlahyAIScreen.tsx:472-526 | never empty; a thrown error or unreadable body gives `ErrorText` of its message; a non-2xx status gives `ErrorText` of the server error; a readable 2xx body gives its parsed answer, or `No response received.` when that is empty |
| `ChatTurn.CommittedOutcome` | src/screens/FlahyAIScreen.tsx:472-526 | exactly one of: a delivered answer stored as it is; a failure stored as `Error: ` and its message; an empty successful answer stored as `No response received.`; the last two are never resent |
| `ChatTurn.ServerErrorText` | src/screens/FlahyAIScreen.tsx:472-476 | a non-2xx status stores `Error: Server Error (<status>): ` and the first 200 characters of the body |
| `ChatTurn.DisplayMessages` | src/screens/FlahyAIScreen.tsx:313-321 | the greeting if any, then every stored message in order; only the streamed one shows the streamed text |
| `ChatTurn.TurnAppendsExchange` | src/screens/FlahyAIScreen.tsx:409-512 | a turn on the current thread appends the question and the reply with the committed content; other threads are untouched |
| `ChatTurn.TurnIdsDiffer` | src/screens/FlahyAIScreen.tsx:404-413 | the two ids coincide exactly when the second `Date.now()` reading is one less than the first, so they differ whenever the clock does not go back |
| `ChatTurn.AskedMessages` | src/screens/FlahyAIScreen.tsx:409-428 | the current thread gains the question and the empty placeholder at its end |
| `ChatTurn.QuestionIsLastSent` | src/screens/FlahyAIScreen.tsx:425-436 | the history posted is the earlier history followed by the question |
| `ChatTurn.FillPlaceholder` | src/screens/FlahyAIScreen.tsx:512 | the final update changes the placeholder and nothing before it |
| `ChatTurn.ReceiveReply` | src/screens/FlahyAIScreen.tsx:472-526 | the text committed is `Committed(reply)`; any streamed text shown is a prefix of the answer |
| `ChatTurn.ChatScreen.constructor` | src/screens/FlahyAIScreen.tsx:301-307 | empty input, not loading, nothing streaming, no greeting, no report |
| `ChatTurn.ChatScreen.SendMessage` | src/screens/FlahyAIScreen.tsx:399-532 | a blank question or a turn already running changes nothing and posts nothing (`None`). Otherwise it posts (`Some`) the filtered history of the thread holding both new messages, which may be an empty list. The question id comes from the first clock reading and the placeholder id from the second plus one. It commits `Committed(reply)` to the placeholder, then resets input, loading and streaming state |
| `ChatTurn.ChatScreen.RunTurn` | src/screens/FlahyAIScreen.tsx:403-531 | the turn after the guard, with its two clock readings: the posted messages, the new threads and the reset screen state |

## Left out

- **The network and foreign calls.** `fetch`, headers, the bearer token, `SYSTEM_PROMPT` and `JSON.stringify` of the request are left out. The model stops at the list of messages posted.
- **Decoding.** `TextDecoder` is assumed to have produced the text chunks the reader sees. `JSON.parse` is an abstract decoder parameter.
- **Failures during the stream.** A read that fails mid-stream (`reader.read()` rejecting) is not modelled. A body that cannot be read at all is modelled, as `Unreadable`.
- **Persistence and React.**
  - `persist`/AsyncStorage rehydration is left out.
  - React state batching, re-renders and the `FlatList` scrolling are left out.
  - Concurrent `sendMessage` calls are left out. Each turn runs to completion, so an interleaving of two turns is not captured.
- **Screen start-up.** `loadLatestReport`/`fetchLatestReport`, which fetch the report and set the greeting, are left out. The report and the greeting are fields of `ChatScreen` that only those functions would set.
- **The rendered output.** Styling and element keys of `MarkdownText` are left out. `InlineText` rendering is left out too, apart from the `parseInline` it calls.
- **Ids and the clock.** `generateId` and `Date.now()` are parameters. `CreateThread` requires a non-empty id, which `Date.now().toString(36)` always gives.
- `ChatTurn.TurnIdsDiffer`: the question and placeholder ids differ only when the second `Date.now()` reading is not exactly one less than the first. The model does not assume a clock that never goes back; the lemma proves the ids differ for such a clock and coincide otherwise.
- **Text encoding.**
  - `toLowerCase` is modelled for ASCII letters only.
  - `substring(0, 200)` counts Dafny characters, not UTF-16 code units.
- `InlineMarkdown.ItalicAt`: the italic node also records whether `*` or `_` delimited it. The source's node does not, and the delimiter is needed to render the line back.
- `FileViewer.GetFullUrl`: an `undefined` uri is modelled as the empty string, which `!uri` treats the same way.
- `AuthStore.Session.SetUser`: the user record (`any`) is a type parameter, and its contents are never inspected.
- `ChatStore.Store.UpdateMessage`: `updates` is modelled as an optional content, the only field its type allows.
