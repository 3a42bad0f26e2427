/**
  The search bar's filter: a book matches when its lowercased title, author,
  ISBN or edition contains the lowercased search text.
 */
module Search {
  import opened Text
  import opened Seqs
  import opened Listing

  /** The match test applied to each book, `lower` being the lowercased text. */
  predicate Matches(b: Book, lower: string)
    ensures Matches(b, lower) ==> lower != []
    ensures Matches(b, lower) <==>
              exists field :: field in [b.title, b.author, b.isbn, b.edition] && FoundIn(lower, Lower(field))
  {
    || FoundIn(lower, Lower(b.title))
    || FoundIn(lower, Lower(b.author))
    || FoundIn(lower, Lower(b.isbn))
    || FoundIn(lower, Lower(b.edition))
  }

  /** `books.filter(Matches)`: the matching books, in their original order. */
  function FilterBooks(books: seq<Book>, lower: string): (r: seq<Book>)
    ensures forall b :: b in r <==> b in books && Matches(b, lower)
  {
    Filter(b => Matches(b, lower), books)
  }

  /**
    The filter keeps exactly the matching positions of `books`, in increasing
    order: position `j` is kept if and only if the book there matches.
   */
  lemma FilteredBooksAreTheMatches(books: seq<Book>, lower: string) returns (pos: seq<nat>)
    ensures Embeds(FilterBooks(books, lower), books, pos)
    ensures forall j :: 0 <= j < |books| ==> (j in pos <==> Matches(books[j], lower))
  {
    pos := FilterSelects(b => Matches(b, lower), books);
  }

  /** The filtered list is a subsequence of the list it was computed from. */
  lemma FilteredBooksAreSubsequence(books: seq<Book>, lower: string)
    ensures Subsequence(FilterBooks(books, lower), books)
  {
    FilterIsSubsequence(b => Matches(b, lower), books);
  }

  /**
    An occurrence of the text as typed survives lowercasing: a book whose
    title, author, ISBN or edition contains the text verbatim matches the
    lowercased text.
   */
  lemma VerbatimOccurrenceIsFound(b: Book, text: string)
    requires text != []
    requires Contains(b.title, text) || Contains(b.author, text)
          || Contains(b.isbn, text) || Contains(b.edition, text)
    ensures Matches(b, Lower(text))
  {
    if Contains(b.title, text) {
      LowerPreservesContains(b.title, text);
    } else if Contains(b.author, text) {
      LowerPreservesContains(b.author, text);
    } else if Contains(b.isbn, text) {
      LowerPreservesContains(b.isbn, text);
    } else {
      LowerPreservesContains(b.edition, text);
    }
  }
}
