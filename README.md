# Criteria editor, file intake and document list — a Dafny model

This project models the front end of a document-evaluation tool. It covers the three React
components that hold the application's state:

- **`CriteriaList`** (module `CriteriaEditor`). It is an input buffer with a live word count
  capped at `maxWords` (default 50), and an ordered list of criteria, each an id, a text and
  one of five grey badge variants.
  - An edit whose text has too many words is dropped as a whole.
  - A submit takes one of two modes:
    - When the buffer contains quoted runs (the regular expression `"([^"]+)"` with the
      global flag), every run becomes a criterion. Its text is the run with all quotes
      removed, then trimmed.
    - Otherwise the whole trimmed buffer becomes one criterion.
  - Variants continue the five-step cycle from the current list length.
  - Removal is by id. Enter submits and Escape clears the buffer.
  - Every change of the list is reported through `onCriteriaChange`.
- **`DragArea`** (module `FileIntake`). It is a drop zone and a file picker.
  - A batch of files is filtered by size: `size / 2^20 <= maxFileSize`, default 10 MB.
  - The accepted files are appended to the files shown when `multiple` is set, and replace
    them otherwise.
  - Only the accepted batch is handed to `onFilesSelected`.
  - Files are removed by index. A drag-over flag follows enter, leave and drop.
- **`Home`** (module `DocumentManager`). It is the page that owns the upload dialog and the
  document list.
  - A selected batch is mapped to documents, one per file in order, and appended.
  - After a selection the dialog closes.
  - Documents are removed by id. Download looks a document up and changes nothing.

Three supporting modules hold the ECMAScript primitives the components rely on:

- `JsString`: the `\s` class, `trim`, and `replace(/"/g, "")`.
- `JsArray`: `filter`, filter by index, and `find`.
- `WordCount` and `QuotedText`: `split(/\s+/)`, the word counter, and the global `match`
  scan.

Each of these is characterised by lemmas, some of them against an independent reference
definition (`RunCount` for the word counter, `IsQuotedRun` and `NoMatchBefore` for the
`match` scan, the splice `s[..i] + s[i + 1..]` for filter by index).

Each component is a `class`:

- Its React state is fields, every handler is a method, and every handler that changes state
  has a `modifies` clause.
- A ghost sequence records every list passed to a parent callback.
- Each method's new state is tied to a pure transition function on a state datatype
  (`Editor`, `Intake`, `Page`) or, for the one-flag handlers, given outright; the promised
  properties are lemmas about those functions.

Values the code draws from the environment are parameters:

- `ids(i)` is the id generated for the i-th new item of one call. Nothing makes ids unique,
  and the model claims nothing about uniqueness.
- `clock(i)` is the `new Date()` instant for the i-th document.

Three behaviours of the code are worth stating, because a reader might expect otherwise:

- Removing an id that no criterion has still calls `onCriteriaChange`, with the unchanged
  list (frontend/app/src/components/ui/criteriaList.tsx:81-85). `RemoveCriterion` records a
  notification in every case, and `RemoveAbsentId` shows the list is unchanged.
- `match` runs on the untrimmed buffer (frontend/app/src/components/ui/criteriaList.tsx:59),
  while the single-mode text is the trimmed buffer (line 70). `QuotedMatchesOfTrim` proves
  that scanning the trimmed buffer would find the same matches, because whitespace at either
  end can never be part of a match.
- A quoted run of nothing but whitespace, such as `"  "`, is a match. Its text
  (frontend/app/src/components/ui/criteriaList.tsx:64) is empty, so quoted mode can add a
  criterion with an empty text (`QuotedSpacesGiveEmptyText`).

## Model

| member | source | states |
|---|---|---|
| JsString.Trim | frontend/app/src/components/ui/criteriaList.tsx:43 | `trim()` returns text that neither starts nor ends with whitespace and is no longer than its input |
| JsString.TrimStartDropsSpaces | frontend/app/src/components/ui/criteriaList.tsx:43 | the leading part `trim` removes is all whitespace, and what is left is the rest of the string |
| JsString.TrimEndDropsSpaces | frontend/app/src/components/ui/criteriaList.tsx:43 | the trailing part `trim` removes is all whitespace, and what is left is the start of the string |
| JsString.TrimBlank | frontend/app/src/components/ui/criteriaList.tsx:57 | `!inputValue.trim()` holds exactly when the buffer is empty or all whitespace |
| JsString.TrimStartOfSpaces | frontend/app/src/components/ui/criteriaList.tsx:43 | all-whitespace text loses everything to the leading trim |
| JsString.TrimUnpadded | frontend/app/src/components/ui/criteriaList.tsx:70 | text with no whitespace at either end is its own trim |
| JsString.RemoveAll | frontend/app/src/components/ui/criteriaList.tsx:64 | `replace(/"/g, "")` never lengthens the text; RemoveAllDrops and RemoveAllConcat say what it keeps |
| JsString.RemoveAllDrops | frontend/app/src/components/ui/criteriaList.tsx:64 | `replace(/"/g, "")` leaves no quote, and leaves quote-free text as it is |
| JsString.RemoveAllConcat | frontend/app/src/components/ui/criteriaList.tsx:64 | removing quotes from a concatenation removes them from each part |
| JsArray.Filter | frontend/app/src/components/ui/criteriaList.tsx:82 | `filter` never lengthens the array; FilterMembers and FilterConcat say which elements it keeps and in what order |
| JsArray.FilterMembers | frontend/app/src/components/ui/criteriaList.tsx:82 | `filter` keeps an element exactly when it was in the input and satisfies the predicate |
| JsArray.FilterConcat | frontend/app/src/components/ui/criteriaList.tsx:82 | `filter` keeps the survivors in their original order: filtering a concatenation concatenates the filtered parts |
| JsArray.FilterKeepsAll | frontend/app/src/components/ui/criteriaList.tsx:82 | `filter` returns its input unchanged exactly when every element satisfies the predicate |
| JsArray.FilterIdempotent | frontend/app/src/components/ui/criteriaList.tsx:82 | filtering twice with the same predicate is filtering once |
| JsArray.RemoveAt | frontend/app/src/components/ui/dragArea.tsx:71 | filtering by `index !== i` shortens the array by one exactly when `i` is a position of it |
| JsArray.RemoveAtSplices | frontend/app/src/components/ui/dragArea.tsx:71 | filtering by `index !== i` removes exactly the element at `i`; an out-of-range `i` changes nothing |
| JsArray.RemoveAtKeeps | frontend/app/src/components/ui/dragArea.tsx:71 | removal by index introduces no element |
| JsArray.Find | frontend/app/src/app/page.tsx:56 | `find` yields nothing exactly when no element matches; otherwise it yields the first match |
| WordCount.SplitOnSpaces | frontend/app/src/components/ui/criteriaList.tsx:43 | `split(/\s+/)` yields at least one piece, and the first is empty exactly when the text is empty or starts with whitespace |
| WordCount.SplitCount | frontend/app/src/components/ui/criteriaList.tsx:43 | the non-empty pieces of `split(/\s+/)` correspond one-to-one with the runs of non-whitespace |
| WordCount.RunCountSkipsSpaces | frontend/app/src/components/ui/criteriaList.tsx:43 | leading whitespace does not change the number of runs |
| WordCount.RunCountOfSpaces | frontend/app/src/components/ui/criteriaList.tsx:43 | all-whitespace text has no runs |
| WordCount.RunCountTrailingSpaces | frontend/app/src/components/ui/criteriaList.tsx:43 | trailing whitespace does not change the number of runs |
| WordCount.RunCountTrimmed | frontend/app/src/components/ui/criteriaList.tsx:43 | trimming does not change the number of runs |
| WordCount.SplitWordsAreRuns | frontend/app/src/components/ui/criteriaList.tsx:43 | trimming, splitting on `/\s+/` and dropping empty pieces leaves as many pieces as the text has runs of non-whitespace |
| WordCount.CountWords | frontend/app/src/components/ui/criteriaList.tsx:42-44 | `countWords(t)` equals the number of maximal non-whitespace runs of `t`, the independent count RunCount |
| WordCount.RunCountZero | frontend/app/src/components/ui/criteriaList.tsx:42-44 | text has no runs exactly when it is all whitespace |
| WordCount.CountWordsZero | frontend/app/src/components/ui/criteriaList.tsx:42-44 | blank or whitespace-only text counts 0 words, and any other text counts at least one |
| WordCount.CountWordsExample | frontend/app/src/components/ui/criteriaList.tsx:42-44 | `"  a  b   c "` counts 3 words |
| WordCount.RunCountExample | frontend/app/src/components/ui/criteriaList.tsx:42-44 | `"  a  b   c "` has 3 runs |
| QuotedText.QuoteFreeRun | frontend/app/src/components/ui/criteriaList.tsx:59 | the scan for `[^"]+` stops at the end of the text or at a quote |
| QuotedText.QuoteFreeRunHasNoQuote | frontend/app/src/components/ui/criteriaList.tsx:59 | the run `[^"]+` scans holds no quote |
| QuotedText.QuoteFreeRunIs | frontend/app/src/components/ui/criteriaList.tsx:59 | the quote-free run ends exactly at the first quote |
| QuotedText.MatchAt | frontend/app/src/components/ui/criteriaList.tsx:59 | a match attempt at one position fails or matches at least three characters of the text |
| QuotedText.MatchAtSound | frontend/app/src/components/ui/criteriaList.tsx:59 | what the attempt at one position matches is a quote, a non-empty quote-free run and a closing quote |
| QuotedText.MatchAtComplete | frontend/app/src/components/ui/criteriaList.tsx:59 | any match of the pattern at a position is the one the attempt finds, with the same length |
| QuotedText.QuotedMatches | frontend/app/src/components/ui/criteriaList.tsx:59 | `match(/"([^"]+)"/g)` finds at most a third as many matches as the buffer has characters, since each match takes at least three characters of its own |
| QuotedText.QuotedMatchesAreRuns | frontend/app/src/components/ui/criteriaList.tsx:59 | every element of `match(/"([^"]+)"/g)` is a quoted run |
| QuotedText.MatchesPartition | frontend/app/src/components/ui/criteriaList.tsx:59 | the matches are disjoint pieces of the buffer in left-to-right order: put back between the unmatched pieces, they rebuild it |
| QuotedText.QuotedMatchWitness | frontend/app/src/components/ui/criteriaList.tsx:59-61 | when `match` returns a non-null result, the buffer contains a quoted run |
| QuotedText.QuotedRunFound | frontend/app/src/components/ui/criteriaList.tsx:59-61 | any quoted run in the buffer makes `match` return at least one match |
| QuotedText.QuotedMatchesIff | frontend/app/src/components/ui/criteriaList.tsx:59-61 | quoted mode is taken exactly when the buffer contains a quote, a non-empty quote-free run and a closing quote |
| QuotedText.FirstMatch | frontend/app/src/components/ui/criteriaList.tsx:59 | the first match found begins at the leftmost position where the pattern matches, and the scan of the buffer is the scan from there on |
| QuotedText.NoMatchesAnywhere | frontend/app/src/components/ui/criteriaList.tsx:59 | a null result means the pattern matches at no position of the buffer |
| QuotedText.QuotedMatchesLeftmost | frontend/app/src/components/ui/criteriaList.tsx:59 | the global scan misses no match: it is empty exactly when the pattern matches nowhere, and otherwise it is the leftmost match followed by the scan of the text after that match |
| QuotedText.NoQuoteNoMatch | frontend/app/src/components/ui/criteriaList.tsx:59-61 | a buffer without a double quote has no match, so it is submitted in single mode |
| QuotedText.QuotedMatchesTrimStart | frontend/app/src/components/ui/criteriaList.tsx:59 | leading whitespace is never part of a match |
| QuotedText.QuoteFreeRunAppend | frontend/app/src/components/ui/criteriaList.tsx:59 | quote-free text appended after a string lengthens its quote-free prefix only when that prefix was the whole string |
| QuotedText.QuoteFreeRunOfNoQuote | frontend/app/src/components/ui/criteriaList.tsx:59 | the quote-free prefix of quote-free text is all of it |
| QuotedText.MatchAtAppend | frontend/app/src/components/ui/criteriaList.tsx:59 | quote-free text appended after a string does not change what matches at its start |
| QuotedText.QuotedMatchesAppend | frontend/app/src/components/ui/criteriaList.tsx:59 | trailing quote-free text is never part of a match |
| QuotedText.SpacesHaveNoQuote | frontend/app/src/components/ui/criteriaList.tsx:59 | whitespace holds no double quote |
| QuotedText.QuotedMatchesOfTrim | frontend/app/src/components/ui/criteriaList.tsx:59 | scanning the trimmed buffer finds the same matches as scanning the buffer as the code does |
| QuotedText.MatchText | frontend/app/src/components/ui/criteriaList.tsx:64 | the text of a match is no longer than the match; MatchTextIsInner says what it is |
| QuotedText.MatchTextIsInner | frontend/app/src/components/ui/criteriaList.tsx:64 | the text of a match is the trimmed text between its quotes |
| QuotedText.QuotedSpacesGiveEmptyText | frontend/app/src/components/ui/criteriaList.tsx:64 | a quoted run of only whitespace yields an empty text |
| CriteriaEditor.VariantAt | frontend/app/src/components/ui/criteriaList.tsx:38-40 | `greyVariants[n % 5]` is the variant whose place in the cycle grey1…grey5 is `n mod 5` |
| CriteriaEditor.VariantCycle | frontend/app/src/components/ui/criteriaList.tsx:38-40 | two positions get the same variant exactly when they are congruent modulo 5 |
| CriteriaEditor.EntryTexts | frontend/app/src/components/ui/criteriaList.tsx:59-73 | a submit yields one text per quoted match, or exactly one text when there is no match |
| CriteriaEditor.NewCriteria | frontend/app/src/components/ui/criteriaList.tsx:62-72 | one new criterion per text |
| CriteriaEditor.NewCriterionAt | frontend/app/src/components/ui/criteriaList.tsx:62-72 | new criterion i has id `ids(i)`, text i and the variant of position `start + i` |
| CriteriaEditor.AppendedAt | frontend/app/src/components/ui/criteriaList.tsx:74 | after `[...criteria, ...newCriteria]` the old list is a prefix; new criterion i sits at `len + i` with id `ids(i)`, text i and variant `greyVariants[(len + i) % 5]` |
| CriteriaEditor.EntryTextsQuoted | frontend/app/src/components/ui/criteriaList.tsx:61-66 | in quoted mode the i-th text is the text of the i-th match |
| CriteriaEditor.AfterInput | frontend/app/src/components/ui/criteriaList.tsx:46-54 | an edit never touches the list and preserves `wordCount == countWords(buffer) <= maxWords`; one within the cap sets the buffer to the new text |
| CriteriaEditor.InputOverLimitIgnored | frontend/app/src/components/ui/criteriaList.tsx:50 | an edit with more words than `maxWords` leaves the buffer and the count unchanged |
| CriteriaEditor.Accepts | frontend/app/src/components/ui/criteriaList.tsx:57 | an accepted submit has a non-empty buffer and a count within the cap |
| CriteriaEditor.AcceptsIff | frontend/app/src/components/ui/criteriaList.tsx:57 | a submit is accepted exactly when the buffer holds a non-whitespace character and the count is within the cap |
| CriteriaEditor.AfterSubmit | frontend/app/src/components/ui/criteriaList.tsx:56-79 | a refused submit changes nothing; an accepted one clears the buffer and the count and appends at least one criterion after the unchanged old list |
| CriteriaEditor.SubmitKeepsConsistent | frontend/app/src/components/ui/criteriaList.tsx:57 | a submit keeps the word count consistent with the buffer and within the cap |
| CriteriaEditor.SubmitBlankIgnored | frontend/app/src/components/ui/criteriaList.tsx:57 | an empty or whitespace-only buffer is never submitted |
| CriteriaEditor.SubmitSingle | frontend/app/src/components/ui/criteriaList.tsx:67-74 | with no quoted match, a submit appends exactly one criterion, holding the trimmed buffer and variant `greyVariants[len % 5]` |
| CriteriaEditor.SubmitQuoted | frontend/app/src/components/ui/criteriaList.tsx:59-66 | with k quoted matches, a submit appends exactly k criteria in match order, each with its match's text and `greyVariants[(len + i) % 5]` |
| CriteriaEditor.SixthVariantWraps | frontend/app/src/components/ui/criteriaList.tsx:71 | the criterion added sixth gets the variant of the first |
| CriteriaEditor.AfterRemove | frontend/app/src/components/ui/criteriaList.tsx:81-82 | removal keeps exactly the criteria whose id differs, and leaves the buffer and the count alone |
| CriteriaEditor.RemoveAbsentId | frontend/app/src/components/ui/criteriaList.tsx:82 | removing an id no criterion has leaves the list equal to the old one |
| CriteriaEditor.RemoveKeepsOrder | frontend/app/src/components/ui/criteriaList.tsx:82 | removal keeps the survivors in their original order, and a second removal of the same id changes nothing |
| CriteriaEditor.AfterEscape | frontend/app/src/components/ui/criteriaList.tsx:92-95 | Escape empties the buffer, sets the count to 0, keeps the list, and leaves the count consistent with the buffer under any cap |
| CriteriaEditor.AfterKey | frontend/app/src/components/ui/criteriaList.tsx:87-96 | Enter behaves exactly as submit; Escape clears the buffer and the count without touching the list; other keys change nothing |
| CriteriaEditor.EscapeClears | frontend/app/src/components/ui/criteriaList.tsx:92-95 | after Escape the state is an empty buffer, a count of 0 and the old list |
| CriteriaEditor.SubmitPlainText | frontend/app/src/components/ui/criteriaList.tsx:67-74 | a quote-free buffer without surrounding whitespace becomes one criterion holding exactly the typed text |
| CriteriaEditor.SubmitTwoQuoted | frontend/app/src/components/ui/criteriaList.tsx:61-66 | two matches submitted to an empty list become two criteria with variants grey1 and grey2 |
| CriteriaEditor.ExampleQuoted | frontend/app/src/components/ui/criteriaList.tsx:59-66 | for any letters a, b, c (neither quote nor whitespace), `"a" "b" c` submitted to an empty list gives criteria `a` (grey1) and `b` (grey2), and drops `c` |
| CriteriaEditor.TwoQuotedMatches | frontend/app/src/components/ui/criteriaList.tsx:59 | for any letters a, b, c, the matches in `"a" "b" c` are `"a"` and `"b"` |
| CriteriaEditor.LeadingQuotedLetter | frontend/app/src/components/ui/criteriaList.tsx:59 | a quoted letter at the head of the text is the first match, and the scan goes on after its closing quote |
| CriteriaEditor.LeadingNonQuote | frontend/app/src/components/ui/criteriaList.tsx:59 | a head character that is not a quote starts no match |
| CriteriaEditor.SingleLetterText | frontend/app/src/components/ui/criteriaList.tsx:64 | a quoted single non-space letter yields that letter |
| CriteriaEditor.CriteriaList.constructor | frontend/app/src/components/ui/criteriaList.tsx:24-34 | the editor starts with an empty buffer, a count of 0, an empty list and no notification |
| CriteriaEditor.CriteriaList.InputChange | frontend/app/src/components/ui/criteriaList.tsx:46-54 | `handleInputChange` moves the state by AfterInput, keeps `wordCount == countWords(buffer) <= maxWords`, and notifies no one |
| CriteriaEditor.CriteriaList.AddCriterion | frontend/app/src/components/ui/criteriaList.tsx:56-79 | `handleAddCriterion` moves the state by AfterSubmit and keeps the count invariant; the callback receives the full new list exactly when the submit is accepted |
| CriteriaEditor.CriteriaList.RemoveCriterion | frontend/app/src/components/ui/criteriaList.tsx:81-85 | `handleRemoveCriterion` moves the state by AfterRemove, and the callback receives the resulting list whether or not the id was present |
| CriteriaEditor.CriteriaList.KeyPress | frontend/app/src/components/ui/criteriaList.tsx:87-96 | `handleKeyPress` moves the state by AfterKey; only an accepted Enter notifies |
| FileIntake.WithinLimit | frontend/app/src/components/ui/dragArea.tsx:62-63 | `size / (1024 * 1024) <= maxFileSize` holds exactly when `size <= maxFileSize * 1048576` |
| FileIntake.ValidFiles | frontend/app/src/components/ui/dragArea.tsx:61-64 | the accepted files are exactly the batch's files within the limit |
| FileIntake.ValidFilesInOrder | frontend/app/src/components/ui/dragArea.tsx:61-64 | the size filter keeps accepted files in the order they came |
| FileIntake.ValidFilesSingle | frontend/app/src/components/ui/dragArea.tsx:61-64 | a single file is kept exactly when it is within the limit |
| FileIntake.LimitIsInclusive | frontend/app/src/components/ui/dragArea.tsx:62-63 | a file of exactly `maxFileSize` MB is accepted; one byte more is refused |
| FileIntake.AfterSelection | frontend/app/src/components/ui/dragArea.tsx:66 | with `multiple`, the shown files become the previous list followed by the accepted files; without it, only the accepted files; the drag flag is unchanged |
| FileIntake.SelectionMembers | frontend/app/src/components/ui/dragArea.tsx:61-66 | a file is shown after a selection exactly when it was shown before and `multiple` holds, or it is in the batch and within the limit |
| FileIntake.SelectionKeepsLimit | frontend/app/src/components/ui/dragArea.tsx:59-66 | a selection keeps every shown file within the limit |
| FileIntake.AfterDrop | frontend/app/src/components/ui/dragArea.tsx:43-49 | a drop clears the drag flag and updates the shown files as a selection of the dropped files does |
| FileIntake.AfterFileInput | frontend/app/src/components/ui/dragArea.tsx:52-57 | a picker change whose `e.target.files` is null changes nothing, and no picker change touches the drag flag |
| FileIntake.EmptyPickerList | frontend/app/src/components/ui/dragArea.tsx:53-55 | an empty but present file list still runs the selection: without `multiple` it clears the files shown, with `multiple` it leaves them as they were |
| FileIntake.DefaultSelection | frontend/app/src/components/ui/dragArea.tsx:18-19 | with the default props (`multiple = true`, 10 MB) a selection appends exactly the batch's files of at most 10485760 bytes |
| FileIntake.DropMatchesInput | frontend/app/src/components/ui/dragArea.tsx:43-57 | a drop and a picker change with the same files produce the same shown files |
| FileIntake.AfterRemoveFile | frontend/app/src/components/ui/dragArea.tsx:70-72 | removing an index in range shortens the list by one, and an index out of range leaves its length alone |
| FileIntake.RemoveFileSplices | frontend/app/src/components/ui/dragArea.tsx:71 | `removeFile(i)` removes exactly the file at `i` and keeps the rest in order; an index out of range changes nothing |
| FileIntake.RemoveFileKeepsLimit | frontend/app/src/components/ui/dragArea.tsx:70-72 | removal keeps every shown file within the limit |
| FileIntake.DragArea.constructor | frontend/app/src/components/ui/dragArea.tsx:15-23 | the component starts with the flag down, no files shown and no batch reported |
| FileIntake.DragArea.DragEnter | frontend/app/src/components/ui/dragArea.tsx:26-30 | drag-enter raises the flag and changes nothing else |
| FileIntake.DragArea.DragLeave | frontend/app/src/components/ui/dragArea.tsx:32-36 | drag-leave lowers the flag and changes nothing else |
| FileIntake.DragArea.DragOver | frontend/app/src/components/ui/dragArea.tsx:38-41 | drag-over changes no state |
| FileIntake.DragArea.FileSelection | frontend/app/src/components/ui/dragArea.tsx:59-68 | `handleFileSelection` moves the state by AfterSelection, keeps every shown file within the limit, and hands `onFilesSelected` only this batch's accepted files |
| FileIntake.DragArea.Drop | frontend/app/src/components/ui/dragArea.tsx:43-50 | `handleDrop` moves the state by AfterDrop and reports the accepted files of the drop |
| FileIntake.DragArea.FileInput | frontend/app/src/components/ui/dragArea.tsx:52-57 | `handleFileInput` moves the state by AfterFileInput, and reports a batch exactly when `e.target.files` is not null, an empty list included |
| FileIntake.DragArea.RemoveFile | frontend/app/src/components/ui/dragArea.tsx:70-72 | `removeFile` moves the state by AfterRemoveFile and reports nothing |
| DocumentManager.NewDocuments | frontend/app/src/app/page.tsx:34-40 | one document per file; document i copies the name, size and type of file i, with id `ids(i)` and instant `clock(i)` |
| DocumentManager.NewDocumentsRoundTrip | frontend/app/src/app/page.tsx:34-40 | reading the files back from the new documents gives the batch, in its order |
| DocumentManager.AfterFilesSelected | frontend/app/src/app/page.tsx:30-47 | a selection closes the dialog and appends one document per file after the unchanged old list |
| DocumentManager.FilesSelectedAppends | frontend/app/src/app/page.tsx:34-43 | the document at position `len + i` is made from the i-th file of the batch |
| DocumentManager.EmptySelectionCloses | frontend/app/src/app/page.tsx:43-46 | an empty batch still closes the dialog and leaves the list as it was |
| DocumentManager.UploadsWithinLimit | frontend/app/src/app/page.tsx:88-93 | documents made from what the page's drop area accepts are at most 50 MB |
| DocumentManager.AfterRemoveDocument | frontend/app/src/app/page.tsx:49-51 | removal keeps exactly the documents whose id differs, and leaves the dialog alone |
| DocumentManager.RemoveAbsentDocument | frontend/app/src/app/page.tsx:50 | removing an id no document has leaves the list unchanged |
| DocumentManager.RemoveDocumentKeepsOrder | frontend/app/src/app/page.tsx:50 | removal keeps the remaining documents in order, and a second removal of the same id changes nothing |
| DocumentManager.Home.constructor | frontend/app/src/app/page.tsx:27-28 | the page starts with the dialog closed and no documents |
| DocumentManager.Home.SetDialogOpen | frontend/app/src/app/page.tsx:73 | the dialog's `onOpenChange` sets the flag and leaves the documents alone |
| DocumentManager.Home.FilesSelected | frontend/app/src/app/page.tsx:30-47 | `handleFilesSelected` moves the state by AfterFilesSelected |
| DocumentManager.Home.RemoveDocument | frontend/app/src/app/page.tsx:49-51 | `handleRemoveDocument` moves the state by AfterRemoveDocument |
| DocumentManager.Home.DownloadDocument | frontend/app/src/app/page.tsx:53-58 | `handleDownloadDocument` modifies nothing; it yields the name of the first document with the id, or nothing exactly when no document has it |

## Left out

- Id generation with `Math.random().toString(36).substr(2, 9)`: ids are the parameter `ids`. Their format is not modelled, and they are not claimed unique.
- `new Date()` for `uploadedAt`: taken from the parameter `clock` and kept as an opaque integer.
- `console.log` in `handleFilesSelected` and `handleDownloadDocument`: output is not modelled. `DownloadDocument` returns the name that would be logged.
- DocumentManager.Home.DownloadDocument: the document's `size`, `type` and `uploadedAt` are not returned, only its name, because only the name is used.
- The optional chaining on `onCriteriaChange` and `onFilesSelected`: the ghost record is kept whether or not a parent passed a callback.
- `preventDefault` and `stopPropagation` in the drag handlers and the Enter branch: they affect only the browser, not component state.
- `openFileDialog` (`fileInputRef.current?.click()`), the `accept` prop and the hidden `<input>`: these are DOM calls and browser filtering.
- `formatFileSize` in dragArea.tsx: floating-point formatting with `Math.log`, `Math.pow` and `toFixed`, used only for display.
- The JSX markup, CSS class choice, the badge variant mapping in criteriaList.tsx, and the `title`, `placeholder` and `className` props: rendering only.
- React's state machinery: each `setX` is a direct field assignment that takes effect before the next handler runs. Batching and re-rendering are not modelled.
- Props are fixed for a component's lifetime: `maxWords`, `multiple` and `maxFileSize` are `const` fields set by the constructor, and a parent re-rendering with new props is not modelled. `CriteriaList.Valid()` and `DragArea.Valid()` are invariants only under that assumption; a smaller cap could leave a count above `maxWords` or a shown file above `maxFileSize`. The pure functions take the cap per call, so `Accepts`, `AcceptsIff` and `AfterSubmit` still cover a count above the cap, the case in which the `wordCount > maxWords` half of the guard at criteriaList.tsx:57 refuses the submit.
- `maxFileSize` is a natural number: its default is 10 (dragArea.tsx:19) and the one call site passes 50 (page.tsx:92). A fractional or negative limit is not modelled.
- `maxWords` is a natural number, although the prop is typed `number` (criteriaList.tsx:19). A negative cap, under which the editor accepts no edit and no submit, is not modelled; a fractional cap behaves as its floor, since word counts are whole numbers.
- File sizes are natural numbers of bytes, and `size / 2^20` is taken as exact. It is exact in double precision for every size below 2^53 bytes.
- The `\s` class and `trim` use the ECMAScript whitespace set as fixed code points. Strings are sequences of code points, not UTF-16 units.
- `backend/main.py` and `backend/mistral_utils.py` are not part of this model: they are HTTP routes, file storage and calls to external language-model services.
- `frontend/app/src/components/ui/document-list.tsx` and `frontend/app/next.config.ts` are not part of this model: they hold rendering and static configuration only.
