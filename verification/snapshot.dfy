/**
  Turning a list snapshot into books. Both market sides keep the records not
  flagged as deleted, in payload order; they differ in the `index` a book is
  given. On the selling side the counter goes up once per visited record,
  deleted ones included, so a book's index is its position in the payload.
  On the buying side the increment sits after the loop, so every book gets 0.
 */
module Snapshot {
  import opened Listing

  /** The positions of the records that are not flagged as deleted, ascending. */
  function LivePositions(records: seq<Record>): (pos: seq<nat>)
    ensures forall k :: 0 <= k < |pos| ==> pos[k] < |records| && !records[pos[k]].isDeleted
    ensures forall k, l :: 0 <= k < l < |pos| ==> pos[k] < pos[l]
    ensures forall j :: 0 <= j < |records| && !records[j].isDeleted ==> j in pos
    decreases |records|
  {
    if records == [] then []
    else
      var n := |records| - 1;
      LivePositions(records[..n]) + (if records[n].isDeleted then [] else [n])
  }

  /** Selling side: each live record, tagged with its position in the payload. */
  function SellingBooks(records: seq<Record>): seq<Book> {
    var pos := LivePositions(records);
    seq(|pos|, k requires 0 <= k < |pos| => ToBook(records[pos[k]], pos[k]))
  }

  /** Buying side: each live record, tagged with the counter's initial value 0. */
  function BuyingBooks(records: seq<Record>): seq<Book> {
    var pos := LivePositions(records);
    seq(|pos|, k requires 0 <= k < |pos| => ToBook(records[pos[k]], 0))
  }

  /** One more record extends the live positions by at most that record. */
  lemma LiveStep(records: seq<Record>, i: nat)
    requires i < |records|
    ensures LivePositions(records[..i + 1])
         == LivePositions(records[..i]) + (if records[i].isDeleted then [] else [i])
  {
    assert records[..i + 1][..i] == records[..i];
  }

  /** One more record extends the selling-side books by at most that record. */
  lemma SellingStep(records: seq<Record>, i: nat)
    requires i < |records|
    ensures SellingBooks(records[..i + 1])
         == SellingBooks(records[..i]) + (if records[i].isDeleted then [] else [ToBook(records[i], i)])
  {
    LiveStep(records, i);
    var before := LivePositions(records[..i]);
    var ext := SellingBooks(records[..i]) + (if records[i].isDeleted then [] else [ToBook(records[i], i)]);
    forall k | 0 <= k < |before|
      ensures SellingBooks(records[..i + 1])[k] == ext[k]
    {
      assert records[..i + 1][before[k]] == records[..i][before[k]];
    }
  }

  /** One more record extends the buying-side books by at most that record. */
  lemma BuyingStep(records: seq<Record>, i: nat)
    requires i < |records|
    ensures BuyingBooks(records[..i + 1])
         == BuyingBooks(records[..i]) + (if records[i].isDeleted then [] else [ToBook(records[i], 0)])
  {
    LiveStep(records, i);
    var before := LivePositions(records[..i]);
    var ext := BuyingBooks(records[..i]) + (if records[i].isDeleted then [] else [ToBook(records[i], 0)]);
    forall k | 0 <= k < |before|
      ensures BuyingBooks(records[..i + 1])[k] == ext[k]
    {
      assert records[..i + 1][before[k]] == records[..i][before[k]];
    }
  }

  /** The selling-side loop: append live records, bump the counter for every record. */
  method ParseSelling(records: seq<Record>) returns (books: seq<Book>)
    ensures books == SellingBooks(records)
  {
    books := [];
    var index := 0;
    var i := 0;
    while i < |records|
      invariant 0 <= i <= |records|
      invariant index == i
      invariant books == SellingBooks(records[..i])
    {
      var r := records[i];
      if !r.isDeleted {
        books := books + [ToBook(r, index)];
      }
      index := index + 1;
      SellingStep(records, i);
      i := i + 1;
    }
    assert records[..i] == records;
  }

  /** The buying-side loop: the counter is only bumped once the loop is over. */
  method ParseBuying(records: seq<Record>) returns (books: seq<Book>)
    ensures books == BuyingBooks(records)
  {
    books := [];
    var index := 0;
    var i := 0;
    while i < |records|
      invariant 0 <= i <= |records|
      invariant index == 0
      invariant books == BuyingBooks(records[..i])
    {
      var r := records[i];
      if !r.isDeleted {
        books := books + [ToBook(r, index)];
      }
      BuyingStep(records, i);
      i := i + 1;
    }
    index := index + 1;
    assert records[..i] == records;
  }

  /**
    The selling side keeps exactly the live records in payload order: each
    book is the record at its own index, that record is live, indices
    strictly increase and stay below the payload length, and every live
    record's position is some book's index.
   */
  lemma SellingBooksAreLiveRecordsInOrder(records: seq<Record>)
    ensures var books := SellingBooks(records);
      && (forall k :: 0 <= k < |books| ==>
            0 <= books[k].index < |records|
            && !records[books[k].index].isDeleted
            && books[k] == ToBook(records[books[k].index], books[k].index))
      && (forall k, l :: 0 <= k < l < |books| ==> books[k].index < books[l].index)
      && (forall j :: 0 <= j < |records| && !records[j].isDeleted ==>
            exists k :: 0 <= k < |books| && books[k].index == j)
  {
    var books := SellingBooks(records);
    var pos := LivePositions(records);
    forall j | 0 <= j < |records| && !records[j].isDeleted
      ensures exists k :: 0 <= k < |books| && books[k].index == j
    {
      var k :| 0 <= k < |pos| && pos[k] == j;
      assert books[k].index == j;
    }
  }

  /**
    The buying side keeps the same records in the same order as the selling
    side, but every one of its books has index 0.
   */
  lemma BuyingBooksHaveIndexZero(records: seq<Record>)
    ensures |BuyingBooks(records)| == |SellingBooks(records)|
    ensures forall k :: 0 <= k < |BuyingBooks(records)| ==>
              BuyingBooks(records)[k] == SellingBooks(records)[k].(index := 0)
    ensures forall b :: b in BuyingBooks(records) ==> b.index == 0
  {
  }

  /** A book built from the payload: some live record with the book's index. */
  ghost predicate FromPayload(b: Book, records: seq<Record>) {
    exists j :: 0 <= j < |records| && !records[j].isDeleted && b == ToBook(records[j], b.index)
  }

  /** Deleted records never become books, on either side. */
  lemma EveryBookIsALiveRecord(records: seq<Record>)
    ensures forall b :: b in SellingBooks(records) ==> FromPayload(b, records)
    ensures forall b :: b in BuyingBooks(records) ==> FromPayload(b, records)
  {
    var pos := LivePositions(records);
    forall b | b in SellingBooks(records)
      ensures FromPayload(b, records)
    {
      var k :| 0 <= k < |pos| && b == SellingBooks(records)[k];
      assert b == ToBook(records[pos[k]], b.index);
    }
    forall b | b in BuyingBooks(records)
      ensures FromPayload(b, records)
    {
      var k :| 0 <= k < |pos| && b == BuyingBooks(records)[k];
      assert b == ToBook(records[pos[k]], b.index);
    }
  }
}
