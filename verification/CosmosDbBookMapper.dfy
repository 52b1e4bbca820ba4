/** The two-way mapping between the public `Book` and the document-store `CosmosDbBook`. */
module CosmosDbBookMapper {
  import opened Models

  /** A stored document as a public book: its `id` becomes the isbn, the discriminator is dropped. */
  function ToBook(doc: CosmosDbBook): Book {
    Book(doc.id, doc.title, doc.author, doc.shortDescription, doc.pageCount, doc.releaseDate)
  }

  /** A public book as a document: the isbn becomes the `id`, the discriminator is the one the constructor sets. */
  function ToCosmosDbBook(book: Book): CosmosDbBook {
    CosmosDbBook(book.isbn, CosmosDbBookTypeName, book.title, book.author,
                 book.shortDescription, book.pageCount, book.releaseDate)
  }

  /** The key crosses the mapping in both directions, and so does every payload field. */
  lemma FieldsCarried(book: Book, doc: CosmosDbBook)
    ensures ToCosmosDbBook(book).id == book.isbn && ToCosmosDbBook(book).typeName == CosmosDbBookTypeName
    ensures ToBook(doc).isbn == doc.id
    ensures var d := ToCosmosDbBook(book);
            d.title == book.title && d.author == book.author && d.shortDescription == book.shortDescription
            && d.pageCount == book.pageCount && d.releaseDate == book.releaseDate
    ensures var b := ToBook(doc);
            b.title == doc.title && b.author == doc.author && b.shortDescription == doc.shortDescription
            && b.pageCount == doc.pageCount && b.releaseDate == doc.releaseDate
  {
  }

  /** Storing a book and reading it back loses nothing. */
  lemma RoundTrip(book: Book)
    ensures ToBook(ToCosmosDbBook(book)) == book
  {
  }

  /** Reading a document and writing it back restores it, up to the discriminator, which is reset. */
  lemma ReverseRoundTrip(doc: CosmosDbBook)
    ensures ToCosmosDbBook(ToBook(doc)) == doc.(typeName := CosmosDbBookTypeName)
    ensures doc.typeName == CosmosDbBookTypeName ==> ToCosmosDbBook(ToBook(doc)) == doc
  {
  }

  /** Distinct books are stored as distinct documents. */
  lemma ToCosmosDbBookInjective(a: Book, b: Book)
    ensures ToCosmosDbBook(a) == ToCosmosDbBook(b) ==> a == b
  {
    RoundTrip(a);
    RoundTrip(b);
  }
}
