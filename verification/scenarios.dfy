/** Concrete runs of the listing screen. */
module Scenarios {
  import opened Wrappers
  import opened Text
  import opened Seqs
  import opened Listing
  import opened Search
  import opened Snapshot
  import opened Screen

  const calculus := Record("Stewart", "Calculus", "8th", "", "111", "u1", false)
  const physics := Record("Halliday", "Physics", "10th", "", "222", "u2", true)
  const other := Book("1", "A", "B", "2", "", "u3", 0)

  /** "calc" matches any book titled "Calculus". */
  lemma CalcFindsCalculus(b: Book)
    requires b.title == "Calculus"
    ensures Lower("calc") == "calc"
    ensures Matches(b, "calc")
  {
    assert Lower("Calculus")[..4] == "calc";
    assert IsPrefix("calc", Lower(b.title));
  }

  /**
    A selling payload with one live and one deleted record lists only the
    live one, as one row; searching "calc" then finds it by its title.
   */
  lemma CalculusScenario(s: ScreenState)
    requires !s.inSearchMode
    ensures var f := DividerChanged(s, 0);
      && f.request == Some(Request(s.school, Selling))
      && var r := Complete(f.state, Selling, Delivered(List([calculus, physics])));
      && r.books == [ToBook(calculus, 0)]
      && RowCount(r) == 1
      && SearchTextChanged(r, Some("calc")).filteredBooks == [ToBook(calculus, 0)]
  {
    var rs := [calculus, physics];
    assert LivePositions(rs[..1]) == [0];
    assert LivePositions(rs) == [0];
    var b := ToBook(calculus, 0);
    CalcFindsCalculus(b);
    assert FilterBooks([b], Lower("calc")) == [b];
  }

  /** None of the one-letter fields of `other` contains "calc". */
  lemma CalcMissesOther()
    ensures !Matches(other, "calc")
  {
    assert Lower(other.title) == "a" && Lower(other.author) == "b";
    assert Lower(other.isbn) == "1" && Lower(other.edition) == "2";
  }

  /** Searching "calc" keeps only the Calculus book of `[other, calculus]`. */
  lemma CalcSearchState()
    ensures var s := ScreenState("ucla", 0, false, [other, ToBook(calculus, 1)], [], false);
      SearchTextChanged(s, Some("calc")) == s.(filteredBooks := [ToBook(calculus, 1)], inSearchMode := true)
  {
    var b := ToBook(calculus, 1);
    CalcFindsCalculus(b);
    CalcMissesOther();
    assert FilterBooks([other, b], "calc") == [b];
  }

  /**
    In search mode, with an earlier book filtered out, row 0 shows the
    matching book but selecting it opens the first unfiltered book.
   */
  lemma SelectedBookCanDifferFromShown()
    ensures var s := ScreenState("ucla", 0, false, [other, ToBook(calculus, 1)], [], false);
      && var r := SearchTextChanged(s, Some("calc"));
      && RenderRow(r, 0).Shown?
      && RenderRow(r, 0).shown == ToBook(calculus, 1)
      && Select(r, 0) == Navigate(other, "selling")
  {
    CalcSearchState();
  }

  /**
    Switching side keeps the search state: the stale filtered list still
    drives the row count, so a visible row of an empty buying list traps
    both when filled and when selected.
   */
  lemma SideSwitchLeavesStaleFilter()
    ensures var s := ScreenState("ucla", 0, false, [other], [other], true);
      && var f := DividerChanged(s, 1);
      && var r := Complete(f.state, Buying, Delivered(List([])));
      && !Consistent(r)
      && RowCount(r) == 1
      && RenderRow(r, 0) == CellTrap
      && Select(r, 0) == SelectTrap
  {
    var s := ScreenState("ucla", 0, false, [other], [other], true);
    var r := Complete(DividerChanged(s, 1).state, Buying, Delivered(List([])));
    assert LivePositions([]) == [];
    assert r.books == [];
    if Subsequence(r.filteredBooks, r.books) {
      SubsequenceLength(r.filteredBooks, r.books);
    }
  }
}
