/** `IBookService`: the five operations every backend offers, dispatched on the backend the state belongs to.
    The contract is stated once, against the catalogue each state presents, and holds for all three backends. */
module BookService {
  import opened Wrappers
  import opened Models
  import opened BookSearch
  import opened BookServiceFactory
  import InMemoryBookService
  import SQLiteTable
  import SQLiteBookService
  import CosmosRepository
  import CosmosDbBookService

  datatype State =
    | InMemoryState(books: InMemoryBookService.Books)
    | SQLiteState(table: SQLiteTable.Table)
    | CosmosDbState(store: CosmosRepository.Store)

  function BackendOf(s: State): Backend {
    match s
    case InMemoryState(_) => InMemory
    case SQLiteState(_) => SQLite
    case CosmosDbState(_) => CosmosDb
  }

  /** The invariant each backend keeps: entries are filed under their own key. */
  predicate Valid(s: State) {
    match s
    case InMemoryState(books) => KeyedByIsbn(books)
    case SQLiteState(_) => true
    case CosmosDbState(store) => CosmosDbBookService.Valid(store)
  }

  /** The books a state presents at the contract boundary. */
  function Catalog(s: State): (books: map<string, Book>)
    ensures Valid(s) ==> KeyedByIsbn(books)
  {
    match s
    case InMemoryState(books) => books
    case SQLiteState(table) => table
    case CosmosDbState(store) => CosmosDbBookService.Catalog(store)
  }

  function Create(s: State, book: Book): (r: Outcome<State>)
    ensures BackendOf(r.state) == BackendOf(s)
    ensures r.ok <==> book.isbn !in Catalog(s)
    ensures Catalog(r.state) == if r.ok then Catalog(s)[book.isbn := book] else Catalog(s)
    ensures Valid(s) ==> Valid(r.state)
  {
    match s
    case InMemoryState(books) =>
      var o := InMemoryBookService.Create(books, book); Outcome(o.ok, InMemoryState(o.state))
    case SQLiteState(table) =>
      var o := SQLiteBookService.Create(table, book); Outcome(o.ok, SQLiteState(o.state))
    case CosmosDbState(store) =>
      var o := CosmosDbBookService.Create(store, book); Outcome(o.ok, CosmosDbState(o.state))
  }

  function Update(s: State, book: Book): (r: Outcome<State>)
    ensures BackendOf(r.state) == BackendOf(s)
    ensures r.ok <==> book.isbn in Catalog(s)
    ensures Catalog(r.state) == if r.ok then Catalog(s)[book.isbn := book] else Catalog(s)
    ensures Valid(s) ==> Valid(r.state)
  {
    match s
    case InMemoryState(books) =>
      var o := InMemoryBookService.Update(books, book); Outcome(o.ok, InMemoryState(o.state))
    case SQLiteState(table) =>
      var o := SQLiteBookService.Update(table, book); Outcome(o.ok, SQLiteState(o.state))
    case CosmosDbState(store) =>
      var o := CosmosDbBookService.Update(store, book); Outcome(o.ok, CosmosDbState(o.state))
  }

  /** Delete, with the document store's existence test corrected. */
  function Delete(s: State, isbn: string): (r: Outcome<State>)
    ensures BackendOf(r.state) == BackendOf(s)
    ensures r.ok <==> isbn in Catalog(s)
    ensures Catalog(r.state) == Catalog(s) - {isbn}
    ensures Valid(s) ==> Valid(r.state)
  {
    match s
    case InMemoryState(books) =>
      var o := InMemoryBookService.Delete(books, isbn); Outcome(o.ok, InMemoryState(o.state))
    case SQLiteState(table) =>
      var o := SQLiteBookService.Delete(table, isbn); Outcome(o.ok, SQLiteState(o.state))
    case CosmosDbState(store) =>
      var o := CosmosDbBookService.Delete(store, isbn); Outcome(o.ok, CosmosDbState(o.state))
  }

  function GetByIsbn(s: State, isbn: string): (r: Option<Book>)
    ensures r == if isbn in Catalog(s) then Some(Catalog(s)[isbn]) else None
    ensures Valid(s) && r.Some? ==> r.value.isbn == isbn
  {
    match s
    case InMemoryState(books) => InMemoryBookService.GetByIsbn(books, isbn)
    case SQLiteState(table) => SQLiteBookService.GetByIsbn(table, isbn)
    case CosmosDbState(store) => CosmosDbBookService.GetByIsbn(store, isbn)
  }

  /** Lookup as each backend is written: the document store faults on an unknown isbn, where the
      other two answer `null`. */
  function GetByIsbnAsWritten(s: State, isbn: string): (r: Lookup)
    ensures r == if BackendOf(s) == CosmosDb && isbn !in Catalog(s) then Threw else Answered(GetByIsbn(s, isbn))
  {
    match s
    case InMemoryState(books) => Answered(InMemoryBookService.GetByIsbn(books, isbn))
    case SQLiteState(table) => Answered(SQLiteBookService.GetByIsbn(table, isbn))
    case CosmosDbState(store) => CosmosDbBookService.GetByIsbnAsWritten(store, isbn)
  }

  method Search(s: State, term: Option<string>) returns (r: seq<Book>, ghost keys: seq<string>)
    ensures IsSearchResult(r, keys, Catalog(s), term)
    ensures (term.None? || term == Some("")) ==> |r| == |Catalog(s)|
  {
    match s
    case InMemoryState(books) =>
      r, keys := InMemoryBookService.Search(books, term);
    case SQLiteState(table) =>
      r, keys := SQLiteBookService.Search(table, term);
    case CosmosDbState(store) =>
      r, keys := CosmosDbBookService.Search(store, term);
  }

  /** Create of a new isbn followed by a lookup yields the book field for field, on every backend. */
  lemma CreateThenGet(s: State, book: Book)
    requires book.isbn !in Catalog(s)
    ensures Create(s, book).ok
    ensures GetByIsbn(Create(s, book).state, book.isbn) == Some(book)
    ensures GetByIsbnAsWritten(Create(s, book).state, book.isbn) == Answered(Some(book))
  {
  }

  /** A second create with the same isbn fails and keeps the first record, on every backend. */
  lemma CreateTwiceKeepsFirst(s: State, first: Book, second: Book)
    requires first.isbn == second.isbn && first.isbn !in Catalog(s)
    ensures var s1 := Create(s, first).state;
            var r2 := Create(s1, second);
            !r2.ok && Catalog(r2.state) == Catalog(s1) && GetByIsbn(r2.state, first.isbn) == Some(first)
  {
  }

  /** Update overwrites the whole record: a lookup afterwards yields exactly the new book. */
  lemma UpdateThenGet(s: State, book: Book)
    requires book.isbn in Catalog(s)
    ensures Update(s, book).ok
    ensures GetByIsbn(Update(s, book).state, book.isbn) == Some(book)
    ensures GetByIsbnAsWritten(Update(s, book).state, book.isbn) == Answered(Some(book))
  {
  }

  /** After the corrected delete the isbn is not found, whether or not it was there; the document
      store's lookup as written then faults on it. */
  lemma DeleteThenGet(s: State, isbn: string)
    ensures GetByIsbn(Delete(s, isbn).state, isbn) == None
    ensures GetByIsbnAsWritten(Delete(s, isbn).state, isbn) == if BackendOf(s) == CosmosDb then Threw else Answered(None)
  {
  }

  /** Two states present the same catalogue. */
  predicate SameCatalog(a: State, b: State) {
    Catalog(a) == Catalog(b)
  }

  /** Backends holding the same catalogue answer every operation alike and stay in step
      (with the document store's corrected delete and lookup). */
  lemma BackendsAgree(a: State, b: State, book: Book, isbn: string)
    requires SameCatalog(a, b)
    ensures Create(a, book).ok == Create(b, book).ok && SameCatalog(Create(a, book).state, Create(b, book).state)
    ensures Update(a, book).ok == Update(b, book).ok && SameCatalog(Update(a, book).state, Update(b, book).state)
    ensures Delete(a, isbn).ok == Delete(b, isbn).ok && SameCatalog(Delete(a, isbn).state, Delete(b, isbn).state)
    ensures GetByIsbn(a, isbn) == GetByIsbn(b, isbn)
  {
  }

  /** The document store's delete as written answers the opposite of the in-memory delete
      on the same catalogue. */
  lemma DeleteAsWrittenDisagrees(books: InMemoryBookService.Books, store: CosmosRepository.Store, isbn: string)
    requires CosmosDbBookService.Catalog(store) == books
    ensures InMemoryBookService.Delete(books, isbn).ok == !CosmosDbBookService.DeleteAsWritten(store, isbn).ok
  {
  }

  /** On an unknown isbn the in-memory lookup answers `null`, while the document store's lookup as
      written faults, even when both hold the same catalogue. */
  lemma GetByIsbnAsWrittenDisagrees(books: InMemoryBookService.Books, store: CosmosRepository.Store, isbn: string)
    requires CosmosDbBookService.Catalog(store) == books && isbn !in books
    ensures InMemoryBookService.GetByIsbn(books, isbn) == None
    ensures CosmosDbBookService.GetByIsbnAsWritten(store, isbn) == Threw
  {
  }
}
