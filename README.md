# YouTube handle checker — a Dafny model of its core

The handle checker takes a list of YouTube handles typed or pasted by a user.
It checks each one locally against the handle rules, then asks a remote
service whether each valid handle is available or taken. Within a session,
results are cached by handle.

This project models three pieces of that core:

- **Handle validation** (`validation.dfy`, module `Validation`). Each input is
  trimmed, and the first broken rule is reported, in this order: empty, fewer
  than 3 characters, more than 30 characters (both counted as JavaScript counts
  `length`, in UTF-16 code units), not matching
  `^[a-zA-Z0-9][a-zA-Z0-9_-]*[a-zA-Z0-9]$|^[a-zA-Z0-9]$`, one of the reserved
  words `admin root system support help` in any letter case. A batch is split
  in one pass into the normalised (trimmed, lower-cased) accepted handles and
  the errors, both in input order.
- **The lookup cache and the batch client** (`youtube_checker.dfy`, module
  `YoutubeChecker`). The process-wide `Map` from handle to result is the
  class `HandleCache`, whose `entries` field the methods reassign.
  - The single-handle lookup serves a cached result. Otherwise it makes one
    call and caches the outcome, a failure included. In the code this function
    is module-private (`src/utils/youtubeChecker.ts:7`, not exported) and has no
    caller, so it is not a live path of the application.
  - The batch lookup sends only the uncached handles, in one call. It merges
    the echoed records, or marks every handle sent as failed. It then walks
    the input in order, producing one result and one progress tick per handle.
  - The remote service is not called. Its outcome is a `Response` value passed
    in, and the handles that would be sent are returned.
- **The input form's parsing** (`handle_input.dfy`, module `HandleInput`).
  - Lines are split on `\n` and trimmed. Blank lines are dropped, any
    remaining white space is removed, and the list is cut to fifty.
  - It also covers the submit guard, the paste auto-submit guard, and the
    "N left" / "Limit reached" counter.

Supporting modules:

- `Text` (`text.dfy`) holds the JavaScript string built-ins the code relies on:
  - `trim` and the `\s` class, with ECMAScript's exact white-space set;
  - `length`, counted in UTF-16 code units;
  - `split`, and `join` as its inverse;
  - `toLowerCase` over ASCII.
- `Seqs` (`seqs.dfy`) holds the `filter`-then-`map` pattern and its ordering
  lemma.
- `Wrappers` (`wrappers.dfy`) holds `Option`.

## Model

| member | source | states |
|---|---|---|
| Text.Trim | src/utils/validation.ts:4 | The result is never longer than the input and neither starts nor ends with white space. |
| Text.TrimBounds | src/utils/validation.ts:4 | The result is a contiguous run of the input with only white space before and after it (with `Trim`'s own ensures: exactly what `trim()` keeps). |
| Text.TrimmedAtDropFirst | src/utils/validation.ts:4 | Removing a leading white-space character moves the trimmed run one place along and keeps it bounded by white space. |
| Text.TrimmedAtDropLast | src/utils/validation.ts:4 | Once the first character is visible, removing trailing white space leaves the run starting at 0. |
| Text.TrimDecompose | src/components/HandleInput.tsx:23 | Every string is white space, then its trim, then white space. |
| Text.TrimEmptyIff | src/utils/validation.ts:4-8 | `trim()` gives the empty string exactly when the input is all white space, and a non-empty string exactly when some character is not white space. |
| Text.TrimUnchanged | src/utils/validation.ts:4 | A string that neither starts nor ends with white space is its own trim. |
| Text.RemoveWhitespace | src/components/HandleInput.tsx:25 | `replace(/\s+/g, '')` leaves no white-space character, never lengthens the string, and returns a string without white space unchanged. |
| Text.RemoveWhitespaceAppend | src/components/HandleInput.tsx:25 | Removal works piece by piece: on a concatenation it is the concatenation of the two results. With the clause above and the next row, this fixes the result as the non-white-space characters of the input, in order. |
| Text.RemoveWhitespaceOfAllWhitespace | src/components/HandleInput.tsx:25 | An all-white-space string is removed entirely. |
| Text.RemoveWhitespaceKeeps | src/components/HandleInput.tsx:25 | Every non-white-space character of the input appears in the result. |
| Text.RemoveWhitespaceExample | src/components/HandleInput.tsx:25 | `" a\tb "` becomes `"ab"`. |
| Text.Utf16Length | src/utils/validation.ts:11-15 | `length` counts UTF-16 code units. It lies between the character count and twice it, is 0 only for the empty string, and equals the character count when no character is above U+FFFF. |
| Text.Utf16LengthOne | src/utils/validation.ts:11-15 | A single character has length 1, or 2 when it lies above U+FFFF. |
| Text.Utf16LengthAppend | src/utils/validation.ts:11-15 | The length of a concatenation is the sum of the lengths. With the row above, this fixes every string's length as the sum over its characters. |
| Text.Utf16LengthExample | src/utils/validation.ts:11-15 | `"a"` followed by U+1F600 has length 3. |
| Text.RemoveWhitespaceOfTrim | src/components/HandleInput.tsx:23-25 | Removing the white space after trimming gives the same string as removing it without trimming. |
| Text.RemoveWhitespaceEmptyIff | src/components/HandleInput.tsx:24-25 | Removing white space yields the empty string exactly for an all-white-space string. |
| Text.ToLowerAscii | src/utils/validation.ts:32 | Same length; each ASCII capital is lowered by 32 code points, and every other character is kept. |
| Text.ToLowerAsciiIdempotent | src/utils/validation.ts:51 | Lower-casing twice is the same as lower-casing once. |
| Text.Split | src/components/HandleInput.tsx:22 | `split('\n')` yields at least one piece, and no piece contains the separator. |
| Text.JoinSplit | src/components/HandleInput.tsx:22 | Joining the pieces of `split` with the separator gives the original text back. |
| Text.SplitWithoutSeparator | src/components/HandleInput.tsx:43-50 | A text without a line break splits into itself alone. |
| Validation.ValidateHandle | src/utils/validation.ts:3-37 | An error, when there is one, carries the input exactly as given, untrimmed. |
| Validation.BlankRejected | src/utils/validation.ts:4-8 | The "Handle cannot be empty" error is returned if and only if the input is empty or all white space. |
| Validation.MatchesHandlePattern | src/utils/validation.ts:21-23 | The two alternatives of the regular expression together admit exactly the non-empty strings of letters, digits, `_` and `-` whose first and last characters are letters or digits. |
| Validation.PatternLength | src/utils/validation.ts:11-23 | A string the pattern admits is ASCII, so its UTF-16 length is its character count. |
| Validation.Normalize | src/utils/validation.ts:51 | `handle.trim().toLowerCase()` has the trimmed length and no upper-case ASCII letter. |
| Validation.LengthOutOfRangeRejected | src/utils/validation.ts:11-17 | A trimmed UTF-16 length below 3 or above 30 is rejected. The rule is empty for length 0, too short for lengths 1-2, and too long above 30. |
| Validation.RuleReportedIff | src/utils/validation.ts:11-28 | "Too short" is reported if and only if the trimmed UTF-16 length is 1 or 2. "Too long" is reported if and only if it is above 30. The pattern error is reported if and only if the length is 3-30 and the trimmed input does not match the pattern. |
| Validation.ReservedIff | src/utils/validation.ts:11-34 | The reserved error is reported if and only if the trimmed input has 3-30 characters, matches the pattern, and its lower-case form is a reserved word. |
| Validation.AstralCharExample | src/utils/validation.ts:11-28 | `"a"` followed by an emoji is two characters but three UTF-16 units. It passes the length rules and is rejected by the pattern. |
| Validation.SingleCharAlternativeUnreachable | src/utils/validation.ts:11-21 | The one-character alternative of the pattern never admits a handle, because the length check has already rejected it as too short. |
| Validation.AcceptedIff | src/utils/validation.ts:3-37 | Accepted if and only if the trimmed input has 3-30 characters (it is then ASCII, so characters and UTF-16 units agree), alphanumeric first and last characters, only letters, digits, `_` and `-` between them, and a lower-cased form that is not reserved. |
| Validation.LowerCharKeepsClass | src/utils/validation.ts:21-32 | Lower-casing a character does not change whether it is alphanumeric, a handle character or white space. |
| Validation.ReservedShape | src/utils/validation.ts:31 | Each reserved word is 4-7 lower-case ASCII letters. |
| Validation.ReservedCaseInsensitive | src/utils/validation.ts:30-34 | An input whose trimmed, lower-cased form is reserved is rejected as reserved, whatever its letter case and surrounding white space. |
| Validation.ReservedVariant | src/utils/validation.ts:31-33 | Every upper/lower-case spelling of "admin" is rejected as reserved. |
| Validation.ReservedExamples | src/utils/validation.ts:31-33 | "admin", "Admin" and "ADMIN" are each rejected as reserved. |
| Validation.LowerKeepsPattern | src/utils/validation.ts:51 | Lower-casing a string keeps it matching the multi-character handle pattern. |
| Validation.AcceptedTrimmed | src/utils/validation.ts:3-37 | An accepted input's trimmed form has 3-30 characters, matches the multi-character pattern and is not reserved once lower-cased. |
| Validation.AcceptedWhenTrimmed | src/utils/validation.ts:3-37 | A string that is its own trim and meets every rule is accepted. |
| Validation.LowerOfGoodIsGood | src/utils/validation.ts:3-51 | Lower-casing a trimmed string that meets every rule gives an accepted string that is its own trim and its own lower-case form. |
| Validation.NormalizeAccepted | src/utils/validation.ts:51 | The trimmed, lower-cased form of an accepted handle is accepted again and is a fixed point of normalisation (idempotence). Its length is the trimmed length. |
| Validation.AcceptedForm | src/utils/validation.ts:47-52 | A form is produced if and only if the input is accepted, and the form produced is the input trimmed and lower-cased. |
| Seqs.FilterMap | src/utils/validation.ts:46-53 | Filtering then mapping never lengthens the list. |
| Validation.ValidOf | src/utils/validation.ts:43-51 | `valid` is never longer than the input. |
| Validation.ErrorsOf | src/utils/validation.ts:44-49 | `errors` is never longer than the input. |
| Seqs.FilterMapOrdered | src/utils/validation.ts:46-53 | `filter` then `map` applies the map to exactly the kept elements, in order, duplicates kept. The kept indices are strictly increasing. |
| Seqs.FilterMapComplementSizes | src/utils/validation.ts:46-53 | Two complementary filters over the same list keep as many elements between them as the list has. |
| Validation.ValidOrdered | src/utils/validation.ts:46-53 | `valid` holds the normalised forms of exactly the accepted inputs, in input order, duplicates kept. The witness is a strictly increasing index list covering every accepted input and no other. |
| Validation.ErrorsOrdered | src/utils/validation.ts:46-53 | `errors` holds the errors of exactly the rejected inputs, in input order, each equal to that input's own validation error. |
| Validation.PartitionSizes | src/utils/validation.ts:46-53 | Every input lands in exactly one list: the two lengths add up to the input length. |
| Validation.ValidElementsRevalidate | src/utils/validation.ts:51 | Every element of `valid` passes validation again and is already normalised. |
| Validation.ValidateMultipleHandles | src/utils/validation.ts:39-56 | The loop builds exactly the `valid` and `errors` lists described above, and their lengths add up to the input length. |
| Validation.ValidOfThree | src/utils/validation.ts:46-53 | For three inputs, `valid` is each input's accepted form, in order. |
| Validation.ErrorsOfThree | src/utils/validation.ts:46-53 | For three inputs, `errors` is each input's error, in order. |
| Validation.ShortExample | src/utils/validation.ts:11-13 | "ab" is rejected as too short. |
| Validation.AcceptedExample | src/utils/validation.ts:3-37 | "validHandle" is accepted. |
| Validation.NormalizedExample | src/utils/validation.ts:51 | "validHandle" normalises to "validhandle". |
| Validation.AcceptedFormExamples | src/utils/validation.ts:46-53 | Of "ab", "validHandle" and "admin", only "validHandle" yields a form, namely "validhandle". |
| Validation.MixedBatchValid | src/utils/validation.ts:39-56 | `["ab", "validHandle", "admin"]` gives `valid == ["validhandle"]`. |
| Validation.MixedBatchErrors | src/utils/validation.ts:39-56 | The same batch gives two errors in input order: "ab" too short, then "admin" reserved. |
| YoutubeChecker.Uncached | src/utils/youtubeChecker.ts:58 | A handle is sent if and only if it is in the input and not cached. The request is never longer than the input. |
| YoutubeChecker.UncachedSingle | src/utils/youtubeChecker.ts:58 | A one-handle batch sends that handle exactly when it is not cached. |
| YoutubeChecker.UncachedAppend | src/utils/youtubeChecker.ts:58 | Filtering a concatenation concatenates the filtered parts. With the row above, this fixes the request as the uncached input handles, in input order, duplicates kept. |
| YoutubeChecker.UncachedOfEmpty | src/utils/youtubeChecker.ts:125-127 | After the cache is cleared, every input handle is sent again, in order. |
| YoutubeChecker.FailureMessage | src/utils/youtubeChecker.ts:84-96 | A body without an array gives "Failed to check handle". A reported error gives its message when it has a non-empty one, else that fallback. A thrown `Error` gives its message, even an empty one; anything else thrown gives the fallback. The message is empty only for a thrown `Error` with an empty message. |
| YoutubeChecker.MarkFailed | src/utils/youtubeChecker.ts:78-101 | After a failure, the keys are the old keys plus the handles sent. |
| YoutubeChecker.MarkFailedSnoc | src/utils/youtubeChecker.ts:80-88 | Marking one more handle sets exactly that handle's entry to the error result. |
| YoutubeChecker.MergeRecords | src/utils/youtubeChecker.ts:69-77 | Merging the echoed records keeps every key already cached. |
| YoutubeChecker.MergeRecordsKeys | src/utils/youtubeChecker.ts:69-77 | After a successful call, a key is present if and only if it was present before or some echoed record carries it. |
| YoutubeChecker.MergeRecordsUntouched | src/utils/youtubeChecker.ts:69-77 | A cached entry that no record echoes is unchanged. |
| YoutubeChecker.MergeRecordsLastWins | src/utils/youtubeChecker.ts:69-77 | An echoed handle holds the last record echoed for it. |
| YoutubeChecker.MergeRecordsKeyedByHandle | src/utils/youtubeChecker.ts:70-76 | Merging keeps every entry stored under its own handle. |
| YoutubeChecker.CollectOne | src/utils/youtubeChecker.ts:106-117 | In a cache keyed by handle, the collected result carries the handle looked up. A missing handle yields an error. |
| YoutubeChecker.Collect | src/utils/youtubeChecker.ts:105-120 | One result per input handle. |
| YoutubeChecker.ProgressTrace | src/utils/youtubeChecker.ts:118-119 | The progress callback receives `(1, n), (2, n), ..., (n, n)`. |
| YoutubeChecker.AfterBatch | src/utils/youtubeChecker.ts:58-102 | A batch never removes a cached key. With nothing to send the cache is unchanged. After a failed call every input handle is cached. |
| YoutubeChecker.AllCachedNoCall | src/utils/youtubeChecker.ts:58-60 | When every handle is cached, nothing is sent and the cache is unchanged. |
| YoutubeChecker.AfterBatchKeyedByHandle | src/utils/youtubeChecker.ts:60-102 | Every outcome of the batch call keeps each entry stored under its own handle. |
| YoutubeChecker.FailedBatchMarksUncached | src/utils/youtubeChecker.ts:78-101 | A failed call stores an error with the failure message for every uncached input handle. It leaves every previously cached entry alone and adds no other key. |
| YoutubeChecker.SuccessfulBatchWritesEchoed | src/utils/youtubeChecker.ts:67-77 | A successful call writes exactly the echoed handles, each holding its last echoed record. Any key no record carries keeps its presence and its value. |
| YoutubeChecker.CollectInInputOrder | src/utils/youtubeChecker.ts:105-120 | Results follow the input order, whatever order the service answered in. Each carries its handle: the cached result if there is one, else the synthesized "Handle check failed" error. |
| YoutubeChecker.RepeatAfterFailureIsCached | src/utils/youtubeChecker.ts:58-101 | After a failed batch, the same batch sends nothing and changes nothing. Failures stay cached for the session. |
| YoutubeChecker.RepeatAfterFullEchoIsCached | src/utils/youtubeChecker.ts:58-77 | After a successful batch that echoed every handle sent, the same batch sends nothing and changes nothing. |
| YoutubeChecker.FailedBatchResults | src/utils/youtubeChecker.ts:78-120 | A failed call does not fail the caller. A handle cached before gets its cached result; every other handle gets an error with the failure message. |
| YoutubeChecker.UnechoedHandleGetsSynthesizedError | src/utils/youtubeChecker.ts:109-116 | The "should not happen" branch can be reached. A handle that was sent but omitted from a successful response gets the "Handle check failed" error. |
| YoutubeChecker.SingleFailureMessage | src/utils/youtubeChecker.ts:25-43 | The single lookup's failure message is one of three. A reported error gives its message, or "" when it has none. A missing or empty record array gives "Invalid response from backend". A thrown error gives its message, or "Failed to check handle" when it is not an `Error`. |
| YoutubeChecker.HandleCache.constructor | src/utils/youtubeChecker.ts:5 | The cache starts empty. |
| YoutubeChecker.HandleCache.Clear | src/utils/youtubeChecker.ts:125-127 | The cache is empty afterwards. |
| YoutubeChecker.HandleCache.CheckYouTubeHandle | src/utils/youtubeChecker.ts:7-48 | A call is made if and only if the handle is not cached. A hit returns the cached result and leaves the cache unchanged. A miss caches the outcome under the handle. The result takes the first record's status, error and time, or is the error result for the failure. |
| YoutubeChecker.HandleCache.CheckMultipleHandles | src/utils/youtubeChecker.ts:50-123 | The request is exactly the uncached handles. The new cache is the batch outcome described above. There is one result per input handle, in order, carrying its handle, and one progress tick per handle. The cache stays keyed by handle. |
| YoutubeChecker.HandleCache.MergeResponse | src/utils/youtubeChecker.ts:69-77 | The loop writes the echoed records in order. |
| YoutubeChecker.HandleCache.MarkRequestFailed | src/utils/youtubeChecker.ts:80-100 | The loop stores the error result for every handle sent. |
| YoutubeChecker.HandleCache.CollectResults | src/utils/youtubeChecker.ts:104-120 | The loop collects one result per handle, in order, and emits the full progress trace. |
| HandleInput.CleanLines | src/components/HandleInput.tsx:23-25 | Never more entries than lines. Every entry is non-empty and free of white space. |
| HandleInput.CleanLinesAreVisibleLines | src/components/HandleInput.tsx:23-25 | Trim, drop blanks, then strip equals, as an independent definition, stripping the lines that have a visible character. |
| HandleInput.CountNonBlank | src/components/HandleInput.tsx:59 | The counter's non-blank line count is at most the number of lines. |
| HandleInput.CountNonBlankIsCleanLength | src/components/HandleInput.tsx:59 | The counter's non-blank line count equals the number of lines the parser keeps. |
| HandleInput.ParseHandles | src/components/HandleInput.tsx:21-26 | At most 50 entries. It is the order-preserving prefix of the cleaned lines, of length min(cleaned, 50). No entry is empty, contains white space, or contains a line break. |
| HandleInput.ParsedHandlesAreTrimmed | src/components/HandleInput.tsx:23-25 | Every parsed handle is its own trim. |
| HandleInput.JoinAllWhitespace | src/components/HandleInput.tsx:22 | A text joined with a white-space separator is all white space if and only if each piece is. |
| HandleInput.CleanLinesEmptyIff | src/components/HandleInput.tsx:23-25 | Nothing is kept if and only if every line is all white space. |
| HandleInput.ParseEmptyIff | src/components/HandleInput.tsx:21-26 | The parse is empty if and only if the whole text is white space. |
| HandleInput.SubmitHandles | src/components/HandleInput.tsx:17-34 | Submission is suppressed if and only if the text is all white space. Otherwise it passes the parsed 1-50 handles on. |
| HandleInput.SubmitGuardMatchesButton | src/components/HandleInput.tsx:28-30 | The submit guard agrees with the disabled condition of the buttons, `input.trim().length === 0` (line 97). |
| HandleInput.SingleLineParsesToAtMostOne | src/components/HandleInput.tsx:43-51 | A text without a line break parses to at most one handle. |
| HandleInput.PasteAutoSubmit | src/components/HandleInput.tsx:40-57 | A paste auto-submits if and only if it contains a line break and parses to more than one handle. It passes the parsed handles. |
| HandleInput.PasteNewlineTestRedundant | src/components/HandleInput.tsx:43-51 | The line-break test is implied: a paste auto-submits if and only if it parses to more than one handle. |
| HandleInput.RemainingHandles | src/components/HandleInput.tsx:59 | The counter never exceeds 50. It may be negative. |
| HandleInput.CounterLabel | src/components/HandleInput.tsx:84 | "Limit reached" is shown if and only if the count is at most 0. Otherwise the count is shown. |
| HandleInput.RemainingMatchesParse | src/components/HandleInput.tsx:59-84 | The counter is 50 minus the lines the parser keeps before the cut. "Limit reached" is shown if and only if a submit would send the full 50. |

## Left out

- The remote service call (`functions.invoke`) is not modelled. A `Response` parameter stands for its outcome, and each method returns what it would send. Asynchrony, the network and the service's own logic are outside the model.
- Clock reads (`new Date()`) become one `Timestamp` parameter per call. The model uses the same instant for every result a call creates, where the code reads the clock once per result. `new Date(backendResult.checkedAt)` is modelled as the record's own timestamp.
- Records from the service are assumed well-formed: a string handle, a known status, an optional string error. The code copies whatever fields arrive, without checking them.
- The progress callback is optional in the code. `ProgressTrace` lists the calls made when one is given.
- `toLowerCase` is modelled over ASCII only. This is exact where the code uses it, because only inputs that passed the ASCII-only pattern are lower-cased.
- The cache is keyed by whatever strings the caller passes. The model does not require them to be normalised.
- Failure messages can be empty. The code stores "" for a reported error without a message (single lookup) and for a thrown `Error` with an empty message. The model follows the code, and `FailureMessage` and `SingleFailureMessage` state exactly when the message is empty. How an empty message is displayed is UI and is not modelled: `src/components/ResultsDisplay.tsx:31` exports it as "Unable to verify due to network restrictions", and `src/components/ResultsDisplay.tsx:169` shows no error text for it.
- The rest of the input form, the results display, the CSV export, the progress percentage and the application shell are UI. They are not part of this model.
- The 100 ms delay before a paste is parsed is a timer, so it is not modelled. The paste is parsed from the pasted text alone, as in the code.
