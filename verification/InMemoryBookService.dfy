/** The in-memory backend: a dictionary from isbn to book. Its behaviour is the reference semantics
    the other backends are compared against. */
module InMemoryBookService {
  import opened Wrappers
  import opened Models
  import opened BookSearch
  import Listing

  type Books = map<string, Book>

  /** `TryAdd(book.Isbn, book)`: adds the book unless its isbn is already a key. */
  function Create(books: Books, book: Book): (r: Outcome<Books>)
    ensures r.ok <==> book.isbn !in books
    ensures !r.ok ==> r.state == books
    ensures r.ok ==> r.state.Keys == books.Keys + {book.isbn} && r.state[book.isbn] == book
    ensures forall isbn :: isbn in books ==> isbn in r.state && r.state[isbn] == books[isbn]
    ensures KeyedByIsbn(books) ==> KeyedByIsbn(r.state)
  {
    if book.isbn in books then Outcome(false, books) else Outcome(true, books[book.isbn := book])
  }

  /** Replaces the whole record filed under `book.isbn`, if there is one. */
  function Update(books: Books, book: Book): (r: Outcome<Books>)
    ensures r.ok <==> book.isbn in books
    ensures !r.ok ==> r.state == books
    ensures r.state.Keys == books.Keys
    ensures r.ok ==> r.state[book.isbn] == book
    ensures forall isbn :: isbn in books && isbn != book.isbn ==> r.state[isbn] == books[isbn]
    ensures KeyedByIsbn(books) ==> KeyedByIsbn(r.state)
  {
    if book.isbn !in books then Outcome(false, books) else Outcome(true, books[book.isbn := book])
  }

  /** `Remove(isbn)`: reports whether the key was there; afterwards it is not. */
  function Delete(books: Books, isbn: string): (r: Outcome<Books>)
    ensures r.ok <==> isbn in books
    ensures r.state.Keys == books.Keys - {isbn}
    ensures forall other :: other in r.state ==> r.state[other] == books[other]
    ensures KeyedByIsbn(books) ==> KeyedByIsbn(r.state)
  {
    if isbn in books then Outcome(true, books - {isbn}) else Outcome(false, books)
  }

  /** `TryGetValue`: the stored book, or `null`. */
  function GetByIsbn(books: Books, isbn: string): (r: Option<Book>)
    ensures r.None? <==> isbn !in books
    ensures r.Some? ==> r.value in books.Values
    ensures r.Some? && KeyedByIsbn(books) ==> r.value.isbn == isbn
  {
    if isbn in books then Some(books[isbn]) else None
  }

  /** A non-empty term keeps the books whose isbn, author or title contain it, ignoring case;
      an absent or empty term lists every book. The dictionary is only read. */
  method Search(books: Books, term: Option<string>) returns (r: seq<Book>, ghost keys: seq<string>)
    ensures IsSearchResult(r, keys, books, term)
    ensures (term.None? || term == Some("")) ==> |r| == |books| && forall isbn :: isbn in books ==> isbn in keys
    ensures KeyedByIsbn(books) ==> forall i, j :: 0 <= i < j < |r| ==> r[i] != r[j]
  {
    if term.Some? && |term.value| > 0 {
      r, keys := Listing.Where(books, (b: Book) => BookMatches(term, b));
    } else {
      forall b: Book ensures BookMatches(term, b) {
        EmptyTermMatchesAll(term, b);
      }
      r, keys := Listing.Where(books, (b: Book) => true);
    }
  }

  /** A second create with the same isbn fails and keeps the first record. */
  lemma CreateTwiceKeepsFirst(books: Books, first: Book, second: Book)
    requires first.isbn == second.isbn
    ensures var r1 := Create(books, first);
            var r2 := Create(r1.state, second);
            && !r2.ok
            && r2.state == r1.state
            && (r1.ok ==> GetByIsbn(r2.state, second.isbn) == Some(first))
  {
  }

  /** Create followed by a lookup of the same isbn returns the created book. */
  lemma CreateThenGet(books: Books, book: Book)
    requires book.isbn !in books
    ensures var r := Create(books, book); r.ok && GetByIsbn(r.state, book.isbn) == Some(book)
  {
  }
}
