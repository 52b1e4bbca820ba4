/** The records the storage backends keep: the public `Book` and the document-store shape `CosmosDbBook`. */
module Models {
  import opened Wrappers

  /** C#'s `int`. No arithmetic is done on page counts, so wrap-around never arises. */
  newtype int32 = x: int | -0x8000_0000 <= x < 0x8000_0000

  /** A `DateTime`, compared only for equality; its tick count is opaque to the model. */
  datatype DateTime = DateTime(ticks: int)

  /** A catalogue entry; `isbn` is the natural (and, in the SQL table, primary) key. */
  datatype Book = Book(
    isbn: string,
    title: string,
    author: string,
    shortDescription: string,
    pageCount: int32,
    releaseDate: DateTime)

  /** The discriminator every document-store record carries: the record type's own name. */
  const CosmosDbBookTypeName: string := "CosmosDbBook"

  /** A book as the document store keeps it: `id` plays the role of the isbn, `typeName` is the discriminator. */
  datatype CosmosDbBook = CosmosDbBook(
    id: string,
    typeName: string,
    title: string,
    author: string,
    shortDescription: string,
    pageCount: int32,
    releaseDate: DateTime)

  /** Every entry of a catalogue is filed under its own isbn. */
  predicate KeyedByIsbn(books: map<string, Book>) {
    forall isbn :: isbn in books ==> books[isbn].isbn == isbn
  }

  /** What a lookup ends in: an answer (a book, or `None` for C#'s `null`), or an exception. */
  datatype Lookup = Answered(result: Option<Book>) | Threw

  /** What a mutating operation reports (`ValueTask<bool>`), together with the backend state after it. */
  datatype Outcome<S> = Outcome(ok: bool, state: S)
}
