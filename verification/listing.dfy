/**
  The records the listing screen reads from a snapshot and the books it keeps
  in memory.
 */
module Listing {

  /**
    One element of a list snapshot, with its fields already of the expected
    types. The snapshot key for the author is `authors`.
   */
  datatype Record = Record(
    authors: string,
    title: string,
    edition: string,
    price: string,
    isbn: string,
    uid: string,
    isDeleted: bool)

  /** An in-memory listing; `index` is the counter value it was created with. */
  datatype Book = Book(
    isbn: string,
    title: string,
    author: string,
    edition: string,
    price: string,
    uid: string,
    index: int)

  /** The value of a snapshot: a list of records, or any other shape. */
  datatype Payload = NotList | List(records: seq<Record>)

  /** The two market sides a fetch can be issued for. */
  datatype Side = Selling | Buying

  /** The book built from a record with the current counter value. */
  function ToBook(r: Record, index: int): Book {
    Book(r.isbn, r.title, r.authors, r.edition, r.price, r.uid, index)
  }
}
