# BookWorm listing screen — a Dafny model

BookWorm's main screen lists the textbooks being sold or sought at the
signed-in user's college. This project models the state logic of that screen
(`MainViewController`) with the UIKit and Firebase layers removed:

- the **school** read out of the user's e-mail when the screen loads;
- the **fetch** for the market side the divider shows (segment 0 "selling",
  segment 1 "buying"), split into the request (which, on the buying side,
  empties `books` at once) and the callback that receives the snapshot;
- the **snapshot conversion**: a list payload becomes the records not flagged
  `isDeleted`, each given an `index`; the selling loop bumps the counter for
  every visited record, the buying loop only after the loop, so buying books
  all carry index 0; any other payload sets `noEntries`;
- the **search filter**: non-empty text enters search mode and keeps the
  books whose lowercased title, author, ISBN or edition contains the
  lowercased text; empty or absent text leaves search mode;
- the **row count** (1 while `noEntries`, else the length of the active list),
  the book a row shows, and the **selection**, which is ignored while
  `noEntries` and otherwise opens `books[row]` — also in search mode — with
  the side label "selling" for segment 0 and "buying" for anything else.

Modules: `Wrappers` (Option), `Text` (ASCII lowercasing, substring search,
first index of a character), `Seqs` (order-preserving filter and
subsequences), `Listing` (records, books, payloads, sides), `School`,
`Search`, `Snapshot`, `Screen` (state and transitions), `Scenarios`
(concrete runs).

The model keeps these behaviours of the app as written:

- the school ends at the first `.` of the whole address, not the first `.`
  after the `@`, so `a.b@ucla.edu` has no school (the app traps);
- only `nil` and `""` leave search mode; blank text such as `" "` filters;
- an empty list payload clears `noEntries`, so outside search mode the
  table shows zero rows rather than the placeholder;
- a failed read leaves the state as the request left it, which on the buying
  side already has no books;
- the buying callback appends to `books` instead of replacing it;
- the filtered list is not recomputed on a side switch, so in search mode it
  can stop being a subsequence of `books`, and a visible row can then trap
  (`Scenarios.SideSwitchLeavesStaleFilter`);
- a traps-on-failure parse of the e-mail is modelled as `None`, and an
  out-of-range array access as the `CellTrap` / `SelectTrap` outcomes.

## Model

| member | source | states |
|---|---|---|
| Text.Lower | BookWorm/MainViewController.swift:67-68 | lowercasing keeps the length and maps each character to its lower-case form: a capital A-Z to the letter 32 code points on, anything else to itself |
| Text.ContainsIffOccurrence | BookWorm/MainViewController.swift:68 | the recursive substring test holds exactly when the needle occurs at some position of the haystack |
| Text.FoundIn | BookWorm/MainViewController.swift:68 | `range(of:)` finds the needle exactly when it is non-empty and occurs at some position of the haystack |
| Text.LowerPreservesContains | BookWorm/MainViewController.swift:68 | a verbatim occurrence is still an occurrence after lowercasing both strings |
| Text.FirstIndexOf | BookWorm/MainViewController.swift:37 | the result holds the character and no earlier position does; it is absent exactly when the character is absent |
| School.ParseSchool | BookWorm/MainViewController.swift:37 | the parse succeeds exactly when both `@` and `.` are present and every `.` has an `@` before it; the school contains no `.` |
| School.SchoolSplitsEmail | BookWorm/MainViewController.swift:37 | a parsed address is prefix + `@` + school + `.` + rest, with neither separator in the prefix |
| School.ParseRecoversSchool | BookWorm/MainViewController.swift:37 | parsing prefix + `@` + school + `.` + rest returns that school when the prefix has no separator and the school no `.` |
| School.AtDotGivesEmptySchool | BookWorm/MainViewController.swift:37 | a `.` right after the first `@` yields the empty school |
| School.EmptySchoolMeansAtDot | BookWorm/MainViewController.swift:37 | conversely, the school is empty only when a `.` comes right after the first `@` |
| School.AtInSchoolIffTwoAts | BookWorm/MainViewController.swift:37 | the school contains an `@` exactly when the address has at least two `@` before its first `.` |
| Seqs.Filter | BookWorm/MainViewController.swift:68 | the filter keeps exactly the elements satisfying the test and is never longer than its input |
| Seqs.FilterSelects | BookWorm/MainViewController.swift:68 | the filter's result is the input at strictly increasing positions, and a position is kept exactly when its element passes |
| Search.Matches | BookWorm/MainViewController.swift:68 | a book matches exactly when the non-empty lowercased text is found in the lowercased title, author, ISBN or edition |
| Search.FilterBooks | BookWorm/MainViewController.swift:68 | a book is in the filtered list exactly when it is in `books` and matches the lowercased text |
| Search.FilteredBooksAreTheMatches | BookWorm/MainViewController.swift:66-68 | the filtered books are the matching positions of `books`, in their original order |
| Search.FilteredBooksAreSubsequence | BookWorm/MainViewController.swift:68 | the filtered list is a subsequence of `books` |
| Search.VerbatimOccurrenceIsFound | BookWorm/MainViewController.swift:67-68 | a book whose title, author, ISBN or edition contains the text as typed matches the lowercased text |
| Snapshot.LivePositions | BookWorm/MainViewController.swift:143 | the live positions are ascending, in range, never deleted, and include every non-deleted record |
| Snapshot.ParseSelling | BookWorm/MainViewController.swift:132-147 | the selling loop yields each live record tagged with its payload position |
| Snapshot.ParseBuying | BookWorm/MainViewController.swift:160-175 | the buying loop yields each live record tagged with index 0 |
| Snapshot.SellingBooksAreLiveRecordsInOrder | BookWorm/MainViewController.swift:134-146 | each selling book is the live record at its own index; indices strictly increase, stay below the payload length, and cover every live record |
| Snapshot.BuyingBooksHaveIndexZero | BookWorm/MainViewController.swift:162-175 | the buying side keeps the same records in the same order as selling, each with index 0 |
| Snapshot.EveryBookIsALiveRecord | BookWorm/MainViewController.swift:143-145 | every book on either side is built from a non-deleted record of the payload |
| Screen.FetchSide | BookWorm/MainViewController.swift:129-157 | segments 0 and 1 fetch selling and buying; any other segment fetches nothing |
| Screen.AddBooksToArray | BookWorm/MainViewController.swift:126-186 | a read of `{school}/{side}` is issued for segments 0 and 1 only; only the buying side empties `books` at request time; nothing else changes |
| Screen.DividerChanged | BookWorm/MainViewController.swift:44-46 | a side switch reads `{school}/{side}` for segments 0 and 1 and nothing otherwise, empties `books` only for buying, and keeps the search state and filtered list |
| Screen.ViewDidLoad | BookWorm/MainViewController.swift:30-41 | loading succeeds exactly when the e-mail parses, starting from the declared field values with the parsed school, and reads `{school}/{side}` for segments 0 and 1 with that school |
| Screen.Complete | BookWorm/MainViewController.swift:130-184 | an error changes nothing; `noEntries` is set exactly for a non-list payload; on a list the selling callback replaces `books` with the converted live records and the buying one appends its converted live records to what is there; on any other payload selling empties `books` and buying leaves it |
| Screen.ActiveBooks | BookWorm/MainViewController.swift:96-100 | rows are read from the filtered list in search mode and from `books` otherwise; whenever the filtered list is a subsequence of `books`, so is the list rows are read from |
| Screen.RowCount | BookWorm/MainViewController.swift:48-56 | one row while there are no entries, else the filtered list's length in search mode and the length of `books` outside it |
| Screen.RowCountCountsShownRows | BookWorm/MainViewController.swift:48-56 | with no entries the single row is the placeholder; otherwise, when the filtered list is a subsequence of `books`, a row is below the count exactly when it shows a book |
| Screen.SearchTextChanged | BookWorm/MainViewController.swift:58-71 | search mode is on exactly for non-empty text; the filtered list then holds exactly the matching books; nothing else changes |
| Screen.RenderRow | BookWorm/MainViewController.swift:77-117 | the placeholder shows exactly when there are no entries; otherwise the row shows the active list's book at `row` with `books[row]` attached, and traps exactly when `row` is past either list |
| Screen.SegueSide | BookWorm/MainViewController.swift:191-195 | the label is "selling" exactly for segment 0, otherwise "buying" |
| Screen.Prepare | BookWorm/MainViewController.swift:188-198 | the detail screen gets `books[sender]`, never the filtered list's book, with the current segment's label; it traps exactly when the row is past `books` |
| Screen.Select | BookWorm/MainViewController.swift:119-124 | selection is ignored exactly when there are no entries and otherwise hands the row to the segue preparation |
| Screen.SearchLeavesConsistent | BookWorm/MainViewController.swift:58-71 | after any search the filtered list is a subsequence of `books` whenever search mode is on |
| Screen.VisibleRowsDoNotTrap | BookWorm/MainViewController.swift:48-56 | when the filtered list is a subsequence of `books`, no row below the row count traps when filled or selected |
| Screen.SearchShowsExactlyTheMatches | BookWorm/MainViewController.swift:64-70 | after non-empty text the visible rows are exactly the matching books in order, each matches, and there are never more rows than books |
| Screen.ClearingSearchShowsAllBooks | BookWorm/MainViewController.swift:59-63 | empty or absent text leaves search mode, keeps both lists, and shows every book of `books` again |
| Screen.SearchSelectionUsesUnfilteredBooks | BookWorm/MainViewController.swift:188-190 | in search mode a row shows `filteredBooks[row]` but selecting it opens `books[row]` |
| Screen.ListFetchReplacesBooks | BookWorm/MainViewController.swift:131-175 | after a side switch a list payload replaces `books` with its live records, clears `noEntries`, and outside search gives one row per live record |
| Screen.EmptyListShowsNoRows | BookWorm/MainViewController.swift:132-133 | an empty list clears `noEntries` and, outside search, gives zero rows |
| Screen.NonListShowsPlaceholder | BookWorm/MainViewController.swift:148-177 | a non-list payload leaves `books` empty on both sides and shows one placeholder row that ignores selection |
| Screen.FailedFetchKeepsRequestState | BookWorm/MainViewController.swift:154-184 | a failed read keeps `noEntries`, keeps `books` on the selling side and leaves it empty on the buying side |
| Screen.OverlappingBuyingReadsAccumulate | BookWorm/MainViewController.swift:157-175 | after the divider goes buying, selling, buying before any read returns, the two buying reads both append, so `books` holds the live records of both payloads |
| Screen.TwoBuyingReadsAppend | BookWorm/MainViewController.swift:159-175 | two buying payloads arriving on an emptied list leave the live records of the first followed by those of the second, one row each outside search |
| Scenarios.CalcMissesOther | BookWorm/MainViewController.swift:67-68 | the book `other`, whose four fields are single characters, does not match "calc" |
| Scenarios.CalcSearchState | BookWorm/MainViewController.swift:64-69 | searching "calc" over `[other, calculus]` enters search mode with only the Calculus book filtered in |
| Scenarios.CalculusScenario | BookWorm/MainViewController.swift:130-147 | one live and one deleted selling record give one book and one row, and "calc" finds it by title |
| Scenarios.SelectedBookCanDifferFromShown | BookWorm/MainViewController.swift:96-124 | with an earlier book filtered out, row 0 shows the match but selecting it opens the first unfiltered book |
| Scenarios.SideSwitchLeavesStaleFilter | BookWorm/MainViewController.swift:44-56 | after a side switch in search mode the stale filtered list drives the row count and the visible row traps |

## Left out

- Rendering effects: cell alpha, label text, background colour, `reloadData`, `resignFirstResponder` (also the whole of the search button handler) and the capitalized college name label; the model keeps only which book a row shows and carries.
- Firebase database and storage calls: a read is a `Request` value and its outcome a `Response` parameter; the callback's scheduling on the main queue is not modelled, so deliveries happen whenever the caller applies `Complete`.
- Cover images: the storage fetch keyed by `{isbn}-{uid}.png`, its 25,000,000-byte cap and the loading / no-photo placeholders are I/O with no state the screen keeps.
- Forced casts of record fields: records are already well typed, so a record missing a field or holding the wrong type is not modelled.
- The signed-in user's e-mail is an input string; a missing user or e-mail (a trap in the app) is not modelled.
- `price`: carried through unchanged, nothing depends on it; the error callback's log message is left out.
- `Book.swift` and `BookViewController` are not part of this model; a book is the record built at line 144 and the detail screen is what `Select` hands over.
- Text.Lower: models `lowercased()` on ASCII letters only, not Unicode case mapping, because the filter's properties do not depend on the case table.
- Text.Contains: compares characters literally, while `range(of:)` without options matches canonically equivalent sequences (a precomposed `é` and `e` followed by a combining accent), because the model has no Unicode normalization.
- Text.FirstIndexOf: works on Unicode scalars, not on the grapheme clusters Swift's `characters` view uses.
