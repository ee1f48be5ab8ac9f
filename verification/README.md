# Flips messaging logic in Dafny

This project models the sequential logic at the heart of the Flips iOS
messaging app and its predecessor MugChat. The original is written in Swift.
It covers six pieces:

- **StorageCache** (`storage_cache.dfy`, `storage_cache_runs.dfy`) is the
  on-disk asset cache. It is a state machine over four things:
  - the files in the cache directory;
  - the cache journal, an LRU-ordered sequence of file names;
  - the table of pending downloads, which maps a file name to its waiters;
  - the `cacheWasCleared` flag.

  Each block the source runs on one dispatch queue is one atomic step: `get`,
  both `put`s, `removeLRUEntries` and `clear`. The downloader's progress ticks
  and completions are external events. `StorageCacheRuns` applies histories
  of such events. It proves two things for histories without `clear`:
  - at most one download per file is in flight;
  - every waiter registered by `get` is resolved exactly once.

  It also exhibits concrete histories that show what `clear` breaks.
- **Downloader** (`downloader.dfy`) is the recursive retry loop
  `downloadTaskRetryingNumberOfTimes` and its caller `downloadTask`. Both are
  functions over a supplied sequence of attempt outcomes. Their results are
  the observable steps (attempts, deletions of the partial file, the move,
  the completion).
- **PhoneNumberHelper** (`phone_number_helper.dfy`) covers cleaning a typed
  phone number and the lenient and strict US-international formatters.
  `StringExtensions` (`string_extensions.dfy`) supplies the white-space
  removal that cleaning and `isCompoundText` rely on.
- **JoinStringsTextField** (`join_strings_text_field.dfy`) covers four
  things:
  - the word tokeniser `getTextWords(text:limit:)`, in which a joined range of
    the text always counts as one word;
  - the adjustment of joined ranges to an edit in `textViewDidChange`, with
    the newline replacement and the 60-word truncation, as written and in a
    corrected form (see "Findings");
  - `setWords`;
  - `isCompoundText`.
- **PhoneNumberMask** (`phone_number_mask.dfy`) is the `XXX-XXX-XXXX` input
  mask of MugChat's phone-number view. Every edit happens at the end of the
  text, one character at a time.
- **ChatViewFlips** (`chat_view_flips.dfy`) covers the three flip bookkeeping
  lists of the chat view and their setters and removal. The two getters are
  plain field projections (`GetAppendedFlips`, `GetManuallyJoinedFlips`).

`Optionals` (`Option`, in `optionals.dfy`) and `SeqUtil` hold shared helpers. `SeqUtil` models the
array operations the Swift code uses: `contains`,
`removeAtIndex(indexOf(x)!)` and counting.

Behaviours of the Swift code a reader may not expect, all modelled as
written:
- With every failure carrying an error, `numberOfRetries = n` gives
  max(n, 1) network attempts, not n + 1. The default of 3 means three
  attempts in all (`Downloader.AllFailuresExact`). The call that would be the
  last retry sees `latestError != nil && numberOfRetries <= 0` and fails at
  once.
- Every failed download reports the same error to each waiter. No
  distinction is made between retryable and fatal failures.
- A cache hit reports progress `1.0` before success.
- A completion's journal insert is queued separately from the waiters'
  callbacks. Nothing orders them, so the journal entry may come after the
  waiters hear of the success. The model folds the completion into one
  step.
- `clear` deletes only files that the journal lists. A file moved into place
  by a download that finishes after a `clear` is in no journal entry. It
  survives every later `clear` and every LRU eviction
  (`StorageCacheRuns.ClearedCompletionOrphansFile`).
- `clear` empties the pending table but does not stop the downloads in
  flight, and `get` resets the cleared flag. So `get`, `clear`, `get` on one
  file starts a second download while the first is still in flight. The
  waiter registered before the `clear` never hears back
  (`StorageCacheRuns.ClearThenGetDownloadsTwice`).

## Model

| member | source | states |
|---|---|---|
| StorageCache.LastPathComponentIsSlashFreeSuffix | flips/flips/StorageCache.swift:302-306 | the file name a URL is cached under is the longest slash-free suffix of the URL |
| StorageCacheRuns.LocalPathOnlyDependsOnLastComponent | flips/flips/StorageCache.swift:302-306 | two URLs share a local path exactly when they share their last path component |
| StorageCache.JournalInsert | flips/flips/StorageCache.swift:139-144 | a journal insert makes the name the most recently used entry; on a duplicate-free journal it keeps the journal duplicate-free and adds only that name |
| StorageCache.GetLRUEntries | flips/flips/StorageCache.swift:263-265 | the LRU entries are the oldest `count` journal entries, oldest first: none for a non-positive count, all of them when the count exceeds the journal |
| StorageCache.Resolve | flips/flips/StorageCache.swift:158-164 | the fan-out gives each waiter, in registration order, exactly one success (when the download succeeded) or one failure |
| StorageCache.Get | flips/flips/StorageCache.swift:101-197 | a hit answers DATA_IS_READY, leaves the pending table and downloads alone, reports full progress then success, and touches the journal; a miss with a pending entry appends exactly this caller and starts nothing; a miss without one makes the caller the sole waiter and starts exactly one download for that URL; `get` never answers INVALID_URL and always clears the flag |
| StorageCache.DownloadProgress | flips/flips/StorageCache.swift:166-192 | a progress tick changes no state; when cleared, or once the waiters are gone, it calls nobody; otherwise every currently registered waiter gets one progress call |
| StorageCache.DownloadComplete | flips/flips/StorageCache.swift:134-165 | a completion takes the download out of flight and the file appears only after a successful move; when cleared nothing else happens; otherwise the pending entry is removed, only a success journals the file and requests a cleanup, and every waiter registered at that moment is resolved once |
| StorageCache.PutFile | flips/flips/StorageCache.swift:210-232 | `put(localPath:)` on a cached file only resets the flag; otherwise it journals the name, requests a cleanup and the file appears if the move worked; pending downloads are untouched |
| StorageCache.PutData | flips/flips/StorageCache.swift:240-253 | `put(data:)` always returns the canonical local path; on a cached file it only resets the flag; otherwise it journals the name, requests a cleanup and the file appears if the write worked |
| StorageCache.RemoveLRUEntries | flips/flips/StorageCache.swift:263-279 | eviction deletes exactly the files of the entries `getLRUEntries` returns and drops exactly those entries from the old end of the journal, changing nothing else |
| StorageCache.Clear | flips/flips/StorageCache.swift:281-300 | `clear` deletes every journalled file, empties the journal and the pending table, sets the flag and leaves the downloads in flight running |
| StorageCacheRuns.InitCoalesced | flips/flips/StorageCache.swift:40-55 | a new cache satisfies the coalescing invariant: nothing pending, nothing in flight |
| StorageCacheRuns.ApplyKeepsCoalesced | flips/flips/StorageCache.swift:114-165 | every step but `clear` keeps the invariant that a file is pending exactly when one download for it is in flight and no file is downloaded twice at once |
| StorageCacheRuns.RunKeepsCoalesced | flips/flips/StorageCache.swift:101-197 | along any history without `clear`, at most one download per file is in flight at any time |
| StorageCacheRuns.GetHitConservesWaiters | flips/flips/StorageCache.swift:104-112 | a hit registers nobody and resolves exactly its own caller, once |
| StorageCacheRuns.GetMissConservesWaiters | flips/flips/StorageCache.swift:114-130 | a miss resolves nobody and adds exactly its caller to the waiters of its file |
| StorageCacheRuns.LiveCompletionHandsOver | flips/flips/StorageCache.swift:146-164 | outside the cleared state, a completion moves the waiters of its own file out of the pending table and into its callbacks, and leaves other files' waiters alone |
| StorageCacheRuns.ApplyConservesWaiters | flips/flips/StorageCache.swift:101-197 | in every step but `clear`, the waiters before plus the caller of a `get` equal, as a multiset, the waiters after plus the callers resolved by the step |
| StorageCacheRuns.RunConservesWaiters | flips/flips/StorageCache.swift:101-197 | along any history without `clear`, every `get` caller is at the end either still waiting or was resolved exactly once |
| StorageCacheRuns.DrainingResolvesAll | flips/flips/StorageCache.swift:146-151 | once every download in flight has completed, no waiter is left registered, so every caller has been resolved |
| StorageCacheRuns.ApplyKeepsJournalValid | flips/flips/StorageCache.swift:263-279 | no step ever lists a name twice in the journal |
| StorageCacheRuns.EvictionRemovesEntriesAndFiles | flips/flips/StorageCache.swift:263-279 | `removeLRUEntries(k)` removes the min(k, size) oldest names from both journal and directory and keeps every other journalled name |
| StorageCacheRuns.ClearEmpties | flips/flips/StorageCache.swift:281-300 | after `clear`, `has` is false for every previously journalled URL and the journal is empty |
| StorageCacheRuns.PutDataIdempotent | flips/flips/StorageCache.swift:240-253 | once a `put(data:)` has written the file, a second one returns the same path and changes nothing |
| StorageCacheRuns.ThreeGetsOneDownload | flips/flips/StorageCache.swift:114-165 | three `get`s of one file before completion start one download; all three get one success with the same local path; the journal then holds the file once |
| StorageCacheRuns.ClearedCompletionOrphansFile | flips/flips/StorageCache.swift:132-137 | a download completing after `clear` still leaves its file in the directory, with no journal entry, and the earlier waiter is never called back |
| StorageCacheRuns.ClearThenGetDownloadsTwice | flips/flips/StorageCache.swift:101-130 | `get`, `clear`, `get` on one file has two downloads of it in flight at once and forgets the first caller |
| Downloader.Retrying | flips/flips/Downloader.swift:59-95 | the retry loop makes at most `numberOfRetries + 1` attempts; after an error with no retries left it makes none and fails; success comes from the first successful attempt; failure only after every attempt made failed; one partial-file deletion per failed attempt; a progress block is installed exactly when a progress callback was given |
| Downloader.DownloadTask | flips/flips/Downloader.swift:33-57 | `downloadTask` reports the retry loop's verdict through exactly one completion, as its last step, and never exceeds the loop's attempt bound |
| Downloader.AllFailuresExact | flips/flips/Downloader.swift:59-84 | when every attempt fails with an error, the loop makes exactly max(numberOfRetries, 1) attempts and then reports failure |
| Downloader.AfterErrorExact | flips/flips/Downloader.swift:60-83 | after an error, `n` retries mean exactly `n` more failed attempts before failure |
| Downloader.FirstSuccessWins | flips/flips/Downloader.swift:69-80 | a success within the retry budget ends the loop with success after exactly that many attempts |
| Downloader.CompletionIgnoresMove | flips/flips/Downloader.swift:39-52 | `completion(true)` is reported whether or not moving the temporary file into place succeeds, right after the failed move |
| PhoneNumberHelper.RemoveStrings | flips/flips/PhoneNumberHelper.swift:21-22 | removing the separator strings leaves none of them and keeps a string that has none |
| PhoneNumberHelper.Clean | flips/flips/PhoneNumberHelper.swift:13-24 | a cleaned number holds no hyphen, parenthesis, period or white space, and a number without them is returned unchanged, so cleaning is idempotent |
| PhoneNumberHelper.RemoveStringsSingleton | flips/flips/PhoneNumberHelper.swift:21-22 | a single character is removed exactly when it is listed and is otherwise kept as it is |
| PhoneNumberHelper.CleanSingleton | flips/flips/PhoneNumberHelper.swift:13-24 | cleaning a single character drops it when it is a separator or white space and keeps it otherwise, so a separator is removed, never replaced |
| PhoneNumberHelper.CleanConcat | flips/flips/PhoneNumberHelper.swift:21-24 | cleaning removes characters one by one and keeps the rest in order: it distributes over concatenation, so with `CleanSingleton` the result is exactly the input without its separators |
| PhoneNumberHelper.FormatUSInternational | flips/flips/PhoneNumberHelper.swift:26-48 | the lenient result is the cleaned number, or `+1` before ten characters, or `+` before eleven, and holds no separator |
| PhoneNumberHelper.FormatUSInternationalStrict | flips/flips/PhoneNumberHelper.swift:50-67 | the strict formatter succeeds exactly on ten characters, eleven starting with `1`, or twelve starting with `+1`; every result is twelve characters, `+1` followed by the last ten cleaned characters |
| PhoneNumberHelper.StrictIsFixpoint | flips/flips/PhoneNumberHelper.swift:50-67 | every strict result is a fixpoint of strict formatting |
| PhoneNumberHelper.StrictAgreesWithLenient | flips/flips/PhoneNumberHelper.swift:26-67 | whenever strict formatting succeeds, lenient formatting returns the same string |
| PhoneNumberHelper.LenientIdempotent | flips/flips/PhoneNumberHelper.swift:26-48 | lenient formatting is idempotent |
| PhoneNumberHelper.LenientElevenUnchecked | flips/flips/PhoneNumberHelper.swift:39-41 | lenient formatting puts `+` before any eleven characters without checking the first; when it is not `1`, neither the input nor the output passes the strict formatter |
| PhoneNumberHelper.LenientKeepsOthers | flips/flips/PhoneNumberHelper.swift:42-47 | lenient formatting returns the cleaned number unchanged for every length other than 10 and 11 |
| StringExtensions.RemoveWhiteSpaces | flips/flips/PhoneNumberHelper.swift:23 | removing white space leaves none and only characters of the input, and keeps a string without white space |
| StringExtensions.RemoveWhiteSpacesUnchanged | flips/flips/JoinStringsTextField.swift:415-418 | removing white space leaves a string unchanged exactly when it holds none |
| PhoneNumberMask.ShouldChangeCharacters | mugchat/mugchat/PhoneNumberView.swift:152-178 | typing is allowed exactly while the text has at most 11 characters; it appends a hyphen exactly when the text has 3 or 7 characters and otherwise leaves the text alone; deleting is always allowed and drops the last character exactly when the text has 5 or 9 characters, otherwise leaving the text alone |
| PhoneNumberMask.MaskedShape | mugchat/mugchat/PhoneNumberView.swift:158-164 | the intended mask of up to ten digits has at most 12 characters, hyphens exactly at indices 3 and 7 (where present), and reads back the digits |
| PhoneNumberMask.TypeCharExtendsMask | mugchat/mugchat/PhoneNumberView.swift:158-167 | one keystroke on a masked field of fewer than ten digits gives the mask with that digit added; at ten digits it is refused and the text stays as it is |
| PhoneNumberMask.TypeDigitsIsMasked | mugchat/mugchat/PhoneNumberView.swift:152-178 | typing any digits into an empty field gives exactly the mask of the first ten; later ones are refused |
| PhoneNumberMask.TypingShape | mugchat/mugchat/PhoneNumberView.swift:152-178 | typing digits one at a time from empty never exceeds 12 characters and puts hyphens only at indices 3 and 7 |
| PhoneNumberMask.DeleteUndoesType | mugchat/mugchat/PhoneNumberView.swift:168-176 | deleting at the end of a masked field undoes the last keystroke, including any hyphen left dangling |
| JoinStringsTextField.IsPartOfJoinedTextRanges | flips/flips/JoinStringsTextField.swift:268-277 | a range is returned exactly when some joined range covers the index, and it is the first such range |
| JoinStringsTextField.Advance | flips/flips/JoinStringsTextField.swift:221-250 | one tokeniser iteration records the limit index, at the current position, exactly when none is recorded yet and a limit of at most the closed words is given; a joined range covering the index closes the current word, becomes one word equal to its substring and moves the scan to the range's end; otherwise the scan moves one character, the current word is closed exactly when it is non-empty and the character is a space or of the other class, and every character but the space joins the (possibly new) current word |
| JoinStringsTextField.Scan | flips/flips/JoinStringsTextField.swift:221-257 | the tokeniser keeps the words it had; the truncated text is a prefix of the text, cut at the recorded limit index if any and not cut at all without a limit |
| JoinStringsTextField.GetTextWords | flips/flips/JoinStringsTextField.swift:215-258 | the truncated text is a prefix of the text and is the whole text when there is no limit; the text is cut only when a limit is given and at least that many words are found, and is always cut when more than `limit + 1` are found |
| JoinStringsTextField.GetTextWordsShapes | flips/flips/JoinStringsTextField.swift:227-250 | every word is either the substring of a joined range or is non-empty, space-free and all in the special/non-special class of its first character |
| JoinStringsTextField.ScanWithoutRanges | flips/flips/JoinStringsTextField.swift:236-250 | without joined ranges, the words written one after another are exactly the text without its spaces |
| JoinStringsTextField.GetTextWordsCutsOutsideRanges | flips/flips/JoinStringsTextField.swift:221-257 | with disjoint joined ranges, the truncated text never ends strictly inside a joined range |
| JoinStringsTextField.GetTextWordsCutReadsBack | flips/flips/JoinStringsTextField.swift:221-257 | over disjoint joined ranges, a cut text can be tokenised again and reads back the first `limit` words found, then at most one more, which may be only the beginning of the next word |
| JoinStringsTextField.ScanWordsIgnoreLimit | flips/flips/JoinStringsTextField.swift:221-250 | the limit decides only where the text is cut, never which words are found |
| JoinStringsTextField.GetTextWordsOverrunsLimit | flips/flips/JoinStringsTextField.swift:221-257 | as written, with limit 1 the text `a!` keeps both its words uncut, `a!b` is cut to `a!`, which still holds two words, and `a!!` is cut to `a!`, which reads back `!` where `!!` was found |
| JoinStringsTextField.ScanWithinLimit | flips/flips/JoinStringsTextField.swift:221-257 | the loop with the limit checked after each iteration keeps the words it had and cuts the text, if at all, to a prefix no shorter than where it stands |
| JoinStringsTextField.ScanWithinLimitWords | flips/flips/JoinStringsTextField.swift:221-250 | moving the limit check does not change the words found |
| JoinStringsTextField.ScanWithinLimitReadsBack | flips/flips/JoinStringsTextField.swift:221-257 | with disjoint joined ranges, the corrected cut lies outside every joined range, is the whole text when at most `limit` words are found, and reads back as the first `limit` words |
| JoinStringsTextField.GetTextWordsWithinLimit | flips/flips/JoinStringsTextField.swift:215-258 | the corrected tokeniser finds the same words; with a limit and disjoint joined ranges the text is cut exactly when it holds more than `limit` words, never inside a joined range, and what is left reads back as the first `limit` words |
| JoinStringsTextField.Replace | flips/flips/JoinStringsTextField.swift:381-392 | an accepted change keeps the text before the edit, puts the replacement in its place and shifts the text after it by the change in length |
| JoinStringsTextField.AdjustRange | flips/flips/JoinStringsTextField.swift:349-363 | a non-empty joined range wholly before the edit is kept, one wholly after it is shifted by the change in length (unless a change that replaces nothing with nothing falls at its very start), every other is dropped; a kept range keeps its length |
| JoinStringsTextField.AdjustRanges | flips/flips/JoinStringsTextField.swift:345-366 | the new joined ranges are exactly the adjusted survivors, no more than before |
| JoinStringsTextField.AdjustRangeKeepsSubstring | flips/flips/JoinStringsTextField.swift:349-363 | a joined range that survives an edit covers the same characters in the edited text |
| JoinStringsTextField.AdjustRangesDisjoint | flips/flips/JoinStringsTextField.swift:345-366 | adjusting non-empty, pairwise disjoint joined ranges keeps them pairwise disjoint |
| JoinStringsTextField.AdjustRangesWellFormed | flips/flips/JoinStringsTextField.swift:345-366 | after an edit the adjusted joined ranges are non-empty, disjoint and inside the edited text |
| JoinStringsTextField.ReplaceNewlines | flips/flips/JoinStringsTextField.swift:341-343 | the text keeps its length, holds no line feed, and every other character stays put |
| JoinStringsTextField.Edit | flips/flips/JoinStringsTextField.swift:340-392 | a lone line feed is refused and changes nothing; any other change is applied with line feeds turned into spaces and the joined ranges adjusted; the alert is shown exactly when the tokeniser finds more than 60 words; without the alert the text is kept whole; with it the text is cut to a prefix, never inside a joined range, surely shortened once more than 61 words are found, that reads back the first 60 words found and at most one more; the field stays well formed |
| JoinStringsTextField.EditWithinLimit | flips/flips/JoinStringsTextField.swift:340-392 | the corrected edit: as `Edit`, but after the alert the text reads back as exactly the first 60 words |
| JoinStringsTextField.CompoundTextHasWhiteSpace | flips/flips/JoinStringsTextField.swift:415-418 | a word is compound exactly when it holds white space |
| JoinStringsTextField.SetWords | flips/flips/JoinStringsTextField.swift:394-413 | the text holds the words in order with one space between neighbours and nothing else, and the joined ranges are exactly the spans of the compound words |
| JoinStringsTextField.SetWordsWellFormed | flips/flips/JoinStringsTextField.swift:394-413 | the field `setWords` builds has non-empty, disjoint joined ranges, none of which runs past the end of the text |
| JoinStringsTextField.SetWordsRoundTrip | flips/flips/JoinStringsTextField.swift:394-418 | tokenising what `setWords` builds gives back the same words, untruncated, when each word is compound or a single-class word without spaces |
| SeqUtil.RemoveFirst | flips/flips/ChatView.swift:609-611 | removing a phrase drops its first occurrence and keeps every other element in order, or changes nothing when it is absent |
| SeqUtil.RemoveFirstMultiset | flips/flips/ChatView.swift:609-611 | removing a phrase takes exactly one copy of it out of the list's multiset of elements |
| ChatViewFlips.GetAppendedFlips | flips/flips/ChatView.swift:592-594 | the getter returns the stored `flipsAppended` unchanged; in a balanced state each of its phrases is in the combined list at least as often |
| ChatViewFlips.GetManuallyJoinedFlips | flips/flips/ChatView.swift:596-598 | the getter returns the stored `manuallyJoinedFlips` unchanged; in a balanced state each of its phrases is in the combined list at least as often |
| ChatViewFlips.SetManuallyJoined | flips/flips/ChatView.swift:600-602 | `setManuallyJoined` appends the phrase to `manuallyJoinedFlips` and changes no other list |
| ChatViewFlips.SetManualPlusAppended | flips/flips/ChatView.swift:604-606 | `setManualPlusAppended` appends the phrase to the combined list and changes no other list |
| ChatViewFlips.RemoveFlipFromArrays | flips/flips/ChatView.swift:608-619 | removal changes nothing when the phrase is not in the combined list; otherwise it removes the first occurrence from the combined list and from `flipsAppended` if there, else from `manuallyJoinedFlips`, keeping all other elements, so the total length drops by exactly 2 |
| ChatViewFlips.InitBalanced | flips/flips/ChatView.swift:70-72 | the lists start balanced: the combined list is the multiset union of the other two |
| ChatViewFlips.BalancedCanRemove | flips/flips/ChatView.swift:608-617 | in a balanced state the force-unwrapped `indexOf` of the removal always finds the phrase |
| ChatViewFlips.JoinKeepsBalanced | flips/flips/ChatView.swift:600-606 | recording a manual join with both setters keeps the lists balanced |
| ChatViewFlips.RemoveKeepsBalanced | flips/flips/ChatView.swift:608-619 | removal from a balanced state is always safe and keeps the lists balanced |

## Findings

| source | as written | input that shows it | evidently intended | confidence | as-written member | corrected member |
|---|---|---|---|---|---|---|
| flips/flips/JoinStringsTextField.swift:221-257 | `getTextWords(text:limit:)` checks `words.count >= limit` at the top of each iteration, before the iteration closes the word it is building, and cuts there | with limit 1, `a!` gives two words and is not cut, `a!b` is cut to `a!`, which still holds two words, and `a!!` is cut to `a!`, which reads back `!` where `!!` was found; likewise fifty-nine `a`s and then `a!`, separated by spaces, hold 61 words, so `textViewDidChange` shows the 60-word alert and keeps all 61 | the cut text holds exactly the first `limit` words, as the comment `" ".join(words[0..<NUM_WORDS_LIMIT])` beside the truncation and the alert's message say | medium; not executed | JoinStringsTextField.GetTextWordsOverrunsLimit | JoinStringsTextField.GetTextWordsWithinLimit |

`JoinStringsTextField.Edit` models `textViewDidChange` as written, with the
cut of `GetTextWords`; `JoinStringsTextField.EditWithinLimit` is the same
edit with the corrected cut of `GetTextWordsWithinLimit`. The two tokenisers
find the same words (`ScanWithinLimitWords`); they differ only in where the
text is cut.

## Left out

- Real concurrency. Each dispatch-queue block is one atomic step, and
  interleavings are histories of steps. `clear` touches the pending table off
  the download queue; thread safety is not modelled.
- Real I/O. Network transfers, file moves and writes are inputs: an outcome
  sequence for the downloader, and `moved`/`written` flags for the cache.
  Deleting a file that exists always succeeds (see the next line). Temporary file names from the clock are not modelled.
- StorageCache.RemoveLRUEntries, StorageCache.Clear: every deletion of an
  existing file succeeds. In the source a failed `removeItemAtPath` is only
  logged; the journal entry is dropped anyway and the file stays on disk
  with no journal entry, still a hit for `has` and `get`. So
  `EvictionRemovesEntriesAndFiles` and `ClearEmpties` hold only when the
  deletions succeed.
- The internals of CacheJournal, `getLRUSizesAndTimestamps` and
  `sizeInBytes`. CacheJournal is not part of this model. The journal is an
  LRU-ordered sequence of file names. Insertion and touching move a name to
  the end, and entries carry no sizes or timestamps.
- The sources of `removeWhiteSpaces` and `stringByRemovingStringsIn` are not
  part of this model. White space is taken to be ASCII space, tab, line feed,
  carriage return, vertical tab and form feed.
- `isSpecialCharacter` uses an explicit ASCII class `[A-Za-z0-9_']`. Other
  Unicode letters and digits count as special.
- NSString UTF-16 indexing versus Swift characters: one character per index.
- `lastPathComponent` is the text after the last slash. Percent-escapes,
  query strings and trailing slashes are not interpreted.
- Callbacks are identified by waiter ids. A nil callback is recorded as a
  call that does nothing.
- Floating-point progress fractions and the 60-second request timeout. Only
  whether a progress block is installed is recorded.
- The word-limit alert view, the colouring of joined text, `joinStrings`, the
  selection handling and the delegate notifications of the text field.
- ChatViewFlips.RemoveFlipFromArrays: requires that the phrase be in
  `flipsAppended` or `manuallyJoinedFlips` whenever it is in the combined
  list, because the source force-unwraps `indexOf` there and would crash.
  `BalancedCanRemove` shows the requirement always holds in a balanced state.
- JoinStringsTextField.Edit: requires well-formed joined ranges: non-empty,
  disjoint, and each one that starts inside the text ends inside it. A range
  may start at or past the end of the text, as a truncation can leave
  behind. In the source the next accepted edit then raises: the colouring
  pass `updateColorOnJoinedTexts` (flips/flips/JoinStringsTextField.swift:175-179)
  calls `substringWithRange` on every joined range without a guard. The
  colouring pass is left out, so the model does not represent that failure.
  The same holds for EditWithinLimit.
- JoinStringsTextField.Edit: the edit is a range of the current text and the
  replacement is applied as the text view applies it. Marked text and
  autocorrection are not modelled.
- JoinStringsTextField.SetWordsRoundTrip: stated only for words that are
  compound or non-empty, space-free and of one character class. Other words
  are split by the tokeniser.
- Downloader.FirstSuccessWins: stated for earlier failures that carry an
  error. After a failure without an error, the next call attempts again even
  with no retries left.
- StorageCacheRuns.RunKeepsCoalesced: holds only for histories without
  `clear`; `ClearThenGetDownloadsTwice` shows the invariant failing after
  one.
- StorageCacheRuns.RunConservesWaiters: holds only for histories without
  `clear`, which forgets registered waiters
  (`ClearedCompletionOrphansFile`).
- PhoneNumberMask.TypeDigitsIsMasked: every keystroke appends at the end
  of the text. Edits in the middle and pasted strings are not modelled.
