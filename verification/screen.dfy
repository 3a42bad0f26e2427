/**
  The state of the listing screen and the transitions the user and the
  remote store drive: loading, switching market side, a fetch completing,
  typing in the search bar, counting and filling rows, and selecting a row.
  Where the app traps (a forced unwrap, an out-of-range index) the
  model returns an explicit trap outcome.
 */
module Screen {
  import opened Wrappers
  import opened Text
  import opened Seqs
  import opened Listing
  import opened School
  import opened Search
  import opened Snapshot

  /**
    The controller's fields; `segment` is the divider's selected segment
    index (0 selling, 1 buying, any other value no segment).
   */
  datatype ScreenState = ScreenState(
    school: string,
    segment: int,
    noEntries: bool,
    books: seq<Book>,
    filteredBooks: seq<Book>,
    inSearchMode: bool)

  /** A one-shot read of `{school}/{side}` in the remote store. */
  datatype Request = Request(school: string, side: Side)

  /** What the read delivers to its callback: a snapshot, or an error. */
  datatype Response = Delivered(payload: Payload) | Failed

  /** The state right after issuing a fetch, and the read it issued, if any. */
  datatype Fetch = Fetch(state: ScreenState, request: Option<Request>)

  /** A table cell: the no-listings placeholder, a book row, or a trap. */
  datatype Cell = Placeholder | Shown(shown: Book, attached: Book) | CellTrap

  /** Tapping a row: nothing, the detail screen for a book and side, or a trap. */
  datatype Selection = Ignored | Navigate(book: Book, side: string) | SelectTrap

  /** The side a fetch is issued for, by segment; other segments fetch nothing. */
  function FetchSide(segment: int): (side: Option<Side>)
    ensures side.Some? <==> segment == 0 || segment == 1
    ensures side == Some(Selling) <==> segment == 0
  {
    if segment == 0 then Some(Selling)
    else if segment == 1 then Some(Buying)
    else None
  }

  /**
    Issue the fetch for the current segment. The buying side empties `books`
    before the request; the selling side leaves it to the callback.
   */
  function AddBooksToArray(s: ScreenState): (f: Fetch)
    ensures f.request.Some? <==> s.segment == 0 || s.segment == 1
    ensures f.request.Some? ==> f.request.value == Request(s.school, FetchSide(s.segment).value)
    ensures f.state.books == (if s.segment == 1 then [] else s.books)
    ensures f.state == s.(books := f.state.books)
  {
    match FetchSide(s.segment)
    case None => Fetch(s, None)
    case Some(Selling) => Fetch(s, Some(Request(s.school, Selling)))
    case Some(Buying) => Fetch(s.(books := []), Some(Request(s.school, Buying)))
  }

  /** The divider moved to `segment`: fetch for the side it now shows. */
  function DividerChanged(s: ScreenState, segment: int): (f: Fetch)
    ensures f.request.Some? <==> segment == 0 || segment == 1
    ensures f.request.Some? ==> f.request.value == Request(s.school, FetchSide(segment).value)
    ensures f.state.books == (if segment == 1 then [] else s.books)
    ensures f.state == s.(segment := segment, books := f.state.books)
  {
    AddBooksToArray(s.(segment := segment))
  }

  /**
    Loading the screen: read the school out of the e-mail (`None` where the
    parse traps), then fetch for the divider's initial segment.
   */
  function ViewDidLoad(email: string, segment: int): (r: Option<Fetch>)
    ensures r.Some? <==> Parsable(email)
    ensures r.Some? ==>
              && r.value.state == ScreenState(ParseSchool(email).value, segment, false, [], [], false)
              && (r.value.request.Some? <==> segment == 0 || segment == 1)
              && (r.value.request.Some? ==>
                    r.value.request.value == Request(ParseSchool(email).value, FetchSide(segment).value))
  {
    match ParseSchool(email)
    case None => None
    case Some(school) => Some(AddBooksToArray(ScreenState(school, segment, false, [], [], false)))
  }

  /**
    The callback of a read for `side`. An error changes nothing. A list
    payload clears `noEntries` and adds the converted books: the selling
    callback replaces `books`, the buying one appends to whatever is there.
    Any other payload sets `noEntries`; only the selling callback empties
    `books` itself.
   */
  function Complete(s: ScreenState, side: Side, response: Response): (r: ScreenState)
    ensures r.school == s.school && r.segment == s.segment
    ensures r.filteredBooks == s.filteredBooks && r.inSearchMode == s.inSearchMode
    ensures response.Failed? ==> r == s
    ensures response.Delivered? ==> (r.noEntries <==> response.payload.NotList?)
    ensures response == Delivered(NotList) ==> r.books == (if side == Selling then [] else s.books)
    ensures side == Buying ==> s.books <= r.books
    ensures response.Delivered? && response.payload.List? ==>
              r.books == (if side == Selling then SellingBooks(response.payload.records)
                          else s.books + BuyingBooks(response.payload.records))
    ensures response.Delivered? && response.payload.List? ==>
              forall b :: b in (if side == Selling then r.books else r.books[|s.books|..]) ==>
                FromPayload(b, response.payload.records)
  {
    match response
    case Failed => s
    case Delivered(NotList) =>
      if side == Selling then s.(books := [], noEntries := true)
      else s.(noEntries := true)
    case Delivered(List(rs)) =>
      EveryBookIsALiveRecord(rs);
      if side == Selling then s.(books := SellingBooks(rs), noEntries := false)
      else
        var books := s.books + BuyingBooks(rs);
        assert books[|s.books|..] == BuyingBooks(rs);
        s.(books := books, noEntries := false)
  }

  /**
    The search bar's text changed. No text or the empty text leaves search
    mode; any other text enters it and filters `books` by the lowercased text.
   */
  function SearchTextChanged(s: ScreenState, text: Option<string>): (r: ScreenState)
    ensures r.inSearchMode <==> text.Some? && text.value != []
    ensures r == s.(inSearchMode := r.inSearchMode, filteredBooks := r.filteredBooks)
    ensures !r.inSearchMode ==> r.filteredBooks == s.filteredBooks
    ensures r.inSearchMode ==>
              forall b :: b in r.filteredBooks <==> b in s.books && Matches(b, Lower(text.value))
  {
    if text.None? || text.value == [] then s.(inSearchMode := false)
    else s.(inSearchMode := true, filteredBooks := FilterBooks(s.books, Lower(text.value)))
  }

  /** The list rows are read from: the filtered list in search mode. */
  function ActiveBooks(s: ScreenState): (r: seq<Book>)
    ensures Consistent(s) ==> Subsequence(r, s.books)
  {
    if s.inSearchMode then s.filteredBooks
    else
      SubsequenceOfItself(s.books);
      s.books
  }

  /** Rows in the table: the single placeholder, or one per active book. */
  function RowCount(s: ScreenState): (n: nat)
    ensures s.noEntries ==> n == 1
    ensures !s.noEntries && s.inSearchMode ==> n == |s.filteredBooks|
    ensures !s.noEntries && !s.inSearchMode ==> n == |s.books|
  {
    if s.noEntries then 1 else |ActiveBooks(s)|
  }

  /**
    Filling row `row`: the placeholder when there are no entries; otherwise
    the active list's book is shown while `books[row]` is attached to the cell.
   */
  function RenderRow(s: ScreenState, row: nat): (c: Cell)
    ensures c.Placeholder? <==> s.noEntries
    ensures c.CellTrap? <==> !s.noEntries && (row >= |ActiveBooks(s)| || row >= |s.books|)
    ensures c.Shown? ==> c.shown == ActiveBooks(s)[row] && c.attached == s.books[row]
    ensures c.Shown? && !s.inSearchMode ==> c.shown == c.attached
  {
    if s.noEntries then Placeholder
    else if row < |ActiveBooks(s)| && row < |s.books| then Shown(ActiveBooks(s)[row], s.books[row])
    else CellTrap
  }

  /** The detail screen's side label: segment 0 is selling, anything else buying. */
  function SegueSide(segment: int): (path: string)
    ensures path == "selling" <==> segment == 0
    ensures path == "selling" || path == "buying"
  {
    if segment == 0 then "selling" else "buying"
  }

  /**
    Preparing the detail screen for the row passed as `sender`: it gets
    `books[sender]`, whichever list the rows are read from, and the label of
    the divider's current segment.
   */
  function Prepare(s: ScreenState, sender: nat): (r: Selection)
    ensures !r.Ignored?
    ensures r.SelectTrap? <==> sender >= |s.books|
    ensures r.Navigate? ==> r.book == s.books[sender] && r.side == SegueSide(s.segment)
  {
    if sender < |s.books| then Navigate(s.books[sender], SegueSide(s.segment))
    else SelectTrap
  }

  /**
    Selecting row `row`: nothing when there are no entries; otherwise the
    segue is performed with the row as its sender.
   */
  function Select(s: ScreenState, row: nat): (r: Selection)
    ensures r.Ignored? <==> s.noEntries
    ensures !s.noEntries ==> r == Prepare(s, row)
  {
    if s.noEntries then Ignored else Prepare(s, row)
  }

  /** Search mode reads from a subsequence of `books`. */
  ghost predicate Consistent(s: ScreenState) {
    s.inSearchMode ==> Subsequence(s.filteredBooks, s.books)
  }

  /** A search always leaves the filtered list a subsequence of `books`. */
  lemma SearchLeavesConsistent(s: ScreenState, text: Option<string>)
    ensures Consistent(SearchTextChanged(s, text))
  {
    if text.Some? && text.value != [] {
      FilteredBooksAreSubsequence(s.books, Lower(text.value));
    }
  }

  /** In a consistent state no visible row traps, whether filled or selected. */
  lemma VisibleRowsDoNotTrap(s: ScreenState, row: nat)
    requires Consistent(s)
    requires row < RowCount(s)
    ensures !RenderRow(s, row).CellTrap?
    ensures !Select(s, row).SelectTrap?
  {
    if !s.noEntries && s.inSearchMode {
      SubsequenceLength(s.filteredBooks, s.books);
    }
  }

  /**
    The row count is the number of rows the table can fill: with no entries
    it is the one placeholder row; otherwise, when the filtered list is a
    subsequence of `books`, a row is below the count exactly when it shows
    a book.
   */
  lemma RowCountCountsShownRows(s: ScreenState)
    requires Consistent(s)
    ensures s.noEntries ==> RowCount(s) == 1 && RenderRow(s, 0) == Placeholder
    ensures !s.noEntries ==> forall row: nat :: row < RowCount(s) <==> RenderRow(s, row).Shown?
  {
    if s.inSearchMode {
      SubsequenceLength(s.filteredBooks, s.books);
    }
  }

  /**
    After a non-empty search every visible row shows a matching book, the
    visible books are exactly the matching ones in their original order, and
    there are never more rows than books.
   */
  lemma SearchShowsExactlyTheMatches(s: ScreenState, text: string) returns (pos: seq<nat>)
    requires !s.noEntries && text != []
    ensures var r := SearchTextChanged(s, Some(text));
      && RowCount(r) <= |s.books|
      && Embeds(ActiveBooks(r), s.books, pos)
      && (forall j :: 0 <= j < |s.books| ==> (j in pos <==> Matches(s.books[j], Lower(text))))
      && (forall row :: 0 <= row < RowCount(r) ==> Matches(ActiveBooks(r)[row], Lower(text)))
  {
    var r := SearchTextChanged(s, Some(text));
    pos := FilteredBooksAreTheMatches(s.books, Lower(text));
    SearchLeavesConsistent(s, Some(text));
    SubsequenceLength(r.filteredBooks, r.books);
    forall row | 0 <= row < RowCount(r)
      ensures Matches(ActiveBooks(r)[row], Lower(text))
    {
      assert ActiveBooks(r)[row] in r.filteredBooks;
    }
  }

  /**
    Clearing the search text leaves search mode and shows every book again,
    each row showing the book it carries; `books` and the stale filtered
    list are left as they were.
   */
  lemma ClearingSearchShowsAllBooks(s: ScreenState, text: Option<string>)
    requires !s.noEntries
    requires text.None? || text.value == []
    ensures var r := SearchTextChanged(s, text);
      && !r.inSearchMode
      && r.books == s.books && r.filteredBooks == s.filteredBooks
      && RowCount(r) == |s.books|
      && forall row :: 0 <= row < |s.books| ==> RenderRow(r, row) == Shown(s.books[row], s.books[row])
  {
  }

  /**
    In search mode a selected row opens `books[row]`, while the row shows
    `filteredBooks[row]`: the two differ whenever the filter dropped an
    earlier book.
   */
  lemma SearchSelectionUsesUnfilteredBooks(s: ScreenState, row: nat)
    requires !s.noEntries && s.inSearchMode
    requires row < |s.filteredBooks| && row < |s.books|
    ensures RenderRow(s, row) == Shown(s.filteredBooks[row], s.books[row])
    ensures Select(s, row) == Navigate(s.books[row], SegueSide(s.segment))
  {
  }

  /**
    A fetch whose payload is a list replaces the books with the payload's
    live records (the selling side tagged with payload positions, the buying
    side with 0), nothing from before survives, and `noEntries` is cleared.
   */
  lemma ListFetchReplacesBooks(s: ScreenState, segment: int, records: seq<Record>)
    requires segment == 0 || segment == 1
    ensures var f := DividerChanged(s, segment);
      && f.request.Some?
      && var r := Complete(f.state, f.request.value.side, Delivered(List(records)));
      && !r.noEntries
      && r.books == (if segment == 0 then SellingBooks(records) else BuyingBooks(records))
      && (forall b :: b in r.books ==> FromPayload(b, records))
      && (!r.inSearchMode ==> RowCount(r) == |LivePositions(records)|)
  {
    EveryBookIsALiveRecord(records);
  }

  /**
    An empty list is still a list: `noEntries` is cleared and, outside search
    mode, the table has no rows at all.
   */
  lemma EmptyListShowsNoRows(s: ScreenState, segment: int)
    requires segment == 0 || segment == 1
    requires !s.inSearchMode
    ensures var f := DividerChanged(s, segment);
      && f.request.Some?
      && var r := Complete(f.state, f.request.value.side, Delivered(List([])));
      && !r.noEntries && r.books == [] && RowCount(r) == 0
  {
    assert LivePositions([]) == [];
  }

  /**
    A payload that is not a list leaves `books` empty on both sides and shows
    the single placeholder row, which ignores selection.
   */
  lemma NonListShowsPlaceholder(s: ScreenState, segment: int)
    requires segment == 0 || segment == 1
    ensures var f := DividerChanged(s, segment);
      && f.request.Some?
      && var r := Complete(f.state, f.request.value.side, Delivered(NotList));
      && r.noEntries && r.books == []
      && RowCount(r) == 1
      && RenderRow(r, 0) == Placeholder
      && forall row: nat :: Select(r, row) == Ignored
  {
  }

  /**
    A failed read leaves the state of the request as it is; on the buying
    side that state already has no books.
   */
  lemma FailedFetchKeepsRequestState(s: ScreenState, segment: int)
    requires segment == 0 || segment == 1
    ensures var f := DividerChanged(s, segment);
      && f.request.Some?
      && var r := Complete(f.state, f.request.value.side, Failed);
      && r.noEntries == s.noEntries
      && r.books == (if segment == 0 then s.books else [])
  {
  }

  /**
    The buying callback appends rather than replaces. With the divider moved
    buying, selling, buying before the first read returns, both buying reads
    are outstanding after the last request emptied `books`; when they then
    arrive, the list holds both payloads' live records, one after the other.
    The selling read in between is still pending here.
   */
  lemma OverlappingBuyingReadsAccumulate(s: ScreenState, first: seq<Record>, second: seq<Record>)
    ensures var f1 := DividerChanged(s, 1);
      && var f2 := DividerChanged(f1.state, 0);
      && var f3 := DividerChanged(f2.state, 1);
      && f1.request == Some(Request(s.school, Buying))
      && f2.request == Some(Request(s.school, Selling))
      && f3.request == Some(Request(s.school, Buying))
      && var once := Complete(f3.state, Buying, Delivered(List(first)));
      && var twice := Complete(once, Buying, Delivered(List(second)));
      && twice.books == BuyingBooks(first) + BuyingBooks(second)
      && (!twice.inSearchMode ==> RowCount(twice) == |LivePositions(first)| + |LivePositions(second)|)
  {
    var f1 := DividerChanged(s, 1);
    var f2 := DividerChanged(f1.state, 0);
    var f3 := DividerChanged(f2.state, 1);
    TwoBuyingReadsAppend(f3.state, first, second);
  }

  /** Two buying callbacks landing on an emptied list leave both payloads in it. */
  lemma TwoBuyingReadsAppend(t: ScreenState, first: seq<Record>, second: seq<Record>)
    requires t.books == []
    ensures var once := Complete(t, Buying, Delivered(List(first)));
      && var twice := Complete(once, Buying, Delivered(List(second)));
      && twice.books == BuyingBooks(first) + BuyingBooks(second)
      && (!twice.inSearchMode ==> RowCount(twice) == |LivePositions(first)| + |LivePositions(second)|)
  {
    var once := Complete(t, Buying, Delivered(List(first)));
    assert once.books == BuyingBooks(first);
  }
}
