/** The document-store backend: existence probe, then act, mapping between `Book` and `CosmosDbBook`
    on every write and read. */
module CosmosDbBookService {
  import opened Wrappers
  import opened Models
  import opened BookSearch
  import opened CosmosDbBookMapper
  import opened CosmosRepository
  import Listing

  /** Every document is filed under its own id and carries the book discriminator. */
  predicate Valid(store: Store) {
    forall id :: id in store ==> store[id].id == id && store[id].typeName == CosmosDbBookTypeName
  }

  /** The books the store presents at the service boundary. */
  function Catalog(store: Store): (books: map<string, Book>)
    ensures books.Keys == store.Keys
    ensures Valid(store) ==> KeyedByIsbn(books)
  {
    map id | id in store :: ToBook(store[id])
  }

  lemma CatalogOfPut(store: Store, book: Book)
    ensures Catalog(Put(store, ToCosmosDbBook(book))) == Catalog(store)[book.isbn := book]
  {
    RoundTrip(book);
  }

  lemma CatalogOfDelete(store: Store, id: string)
    ensures Catalog(CosmosRepository.Delete(store, id)) == Catalog(store) - {id}
  {
  }

  /** Refuses an isbn the store already holds; otherwise stores the mapped book under its isbn. */
  function Create(store: Store, book: Book): (r: Outcome<Store>)
    ensures r.ok <==> book.isbn !in store
    ensures !r.ok ==> r.state == store
    ensures r.ok ==> r.state == store[book.isbn := ToCosmosDbBook(book)]
    ensures Catalog(r.state) == if r.ok then Catalog(store)[book.isbn := book] else Catalog(store)
    ensures Valid(store) ==> Valid(r.state)
  {
    if Exists(store, book.isbn) then
      Outcome(false, store)
    else
      CatalogOfPut(store, book);
      Outcome(true, Put(store, ToCosmosDbBook(book)))
  }

  /** Refuses an isbn the store does not hold; otherwise replaces its document with the mapped book. */
  function Update(store: Store, book: Book): (r: Outcome<Store>)
    ensures r.ok <==> book.isbn in store
    ensures !r.ok ==> r.state == store
    ensures r.ok ==> r.state == store[book.isbn := ToCosmosDbBook(book)]
    ensures Catalog(r.state) == if r.ok then Catalog(store)[book.isbn := book] else Catalog(store)
    ensures Valid(store) ==> Valid(r.state)
  {
    if !Exists(store, book.isbn) then
      Outcome(false, store)
    else
      CatalogOfPut(store, book);
      Outcome(true, Put(store, ToCosmosDbBook(book)))
  }

  /** Delete as the source writes it: the existence test is inverted, so a stored isbn is reported as
      a failure and kept, and an unknown isbn is "deleted" and reported as a success. */
  function DeleteAsWritten(store: Store, isbn: string): (r: Outcome<Store>)
    ensures r.ok <==> isbn !in store
    ensures r.state == store
  {
    if Exists(store, isbn) then
      Outcome(false, store)
    else
      Outcome(true, CosmosRepository.Delete(store, isbn))
  }

  /** As written, a stored record can never be deleted. */
  lemma DeleteAsWrittenNeverDeletes(store: Store, isbn: string)
    requires isbn in store
    ensures !DeleteAsWritten(store, isbn).ok
    ensures isbn in DeleteAsWritten(store, isbn).state
  {
  }

  /** A concrete case: one stored book, deleted by its isbn, is still there and the call reports failure. */
  lemma DeleteAsWrittenCounterexample()
    ensures var book := Book("978-0312850098", "The Eye of the World", "Robert Jordan", "", 1337, DateTime(0));
            var store := map[book.isbn := ToCosmosDbBook(book)];
            var r := DeleteAsWritten(store, book.isbn);
            !r.ok && GetByIsbn(r.state, book.isbn) == Some(book)
  {
  }

  /** Delete with the existence test the service contract intends: succeeds exactly when the
      isbn was stored, and removes it. */
  function Delete(store: Store, isbn: string): (r: Outcome<Store>)
    ensures r.ok <==> isbn in store
    ensures r.state.Keys == store.Keys - {isbn}
    ensures forall id :: id in r.state ==> r.state[id] == store[id]
    ensures Catalog(r.state) == Catalog(store) - {isbn}
    ensures Valid(store) ==> Valid(r.state)
  {
    CatalogOfDelete(store, isbn);
    if !Exists(store, isbn) then
      Outcome(false, store)
    else
      Outcome(true, CosmosRepository.Delete(store, isbn))
  }

  /** Lookup as the source writes it: the repository result goes straight into `ToBook`, which reads
      the document's `Id` at once. For an id the repository does not hold, the repository either
      throws or hands back `null`, and `ToBook` then throws; so the call ends in an exception and
      never answers `null`. */
  function GetByIsbnAsWritten(store: Store, isbn: string): (r: Lookup)
    ensures r.Threw? <==> isbn !in store
    ensures r.Answered? ==> r.result == Some(Catalog(store)[isbn])
  {
    match Get(store, isbn)
    case Some(doc) => Answered(Some(ToBook(doc)))
    case None => Threw
  }

  /** A concrete case: looking up an isbn in an empty store faults instead of answering `null`. */
  lemma GetByIsbnAsWrittenCounterexample()
    ensures GetByIsbnAsWritten(map[], "978-0312850098") == Threw
  {
  }

  /** Delete then lookup, both as written: a stored book survives the delete and is found again;
      an unknown isbn stays unknown and its lookup faults. */
  lemma DeleteAsWrittenThenGet(store: Store, isbn: string)
    ensures GetByIsbnAsWritten(DeleteAsWritten(store, isbn).state, isbn)
            == if isbn in store then Answered(Some(ToBook(store[isbn]))) else Threw
  {
  }

  /** Lookup with the `null` answer the interface's `Book?` result intends for an unknown isbn;
      a stored document comes back through `ToBook`. */
  function GetByIsbn(store: Store, isbn: string): (r: Option<Book>)
    ensures r.None? <==> isbn !in store
    ensures r.Some? ==> r.value == Catalog(store)[isbn]
    ensures r.Some? && Valid(store) ==> r.value.isbn == isbn
  {
    match Get(store, isbn)
    case Some(doc) => Some(ToBook(doc))
    case None => None
  }

  /** For a stored isbn the lookup as written and the corrected lookup give the same answer. */
  lemma GetByIsbnAgreesWhenStored(store: Store, isbn: string)
    requires isbn in store
    ensures GetByIsbnAsWritten(store, isbn) == Answered(GetByIsbn(store, isbn))
  {
  }

  /** After a successful create, reading the isbn back yields the very book created. */
  lemma CreateThenGet(store: Store, book: Book)
    requires Create(store, book).ok
    ensures GetByIsbn(Create(store, book).state, book.isbn) == Some(book)
    ensures GetByIsbnAsWritten(Create(store, book).state, book.isbn) == Answered(Some(book))
  {
    RoundTrip(book);
  }

  /** `BookMatchingSearchTermSpecification`: the lower-cased id, author or title contains the key. */
  predicate DocumentMatches(key: string, doc: CosmosDbBook) {
    Matches(key, doc.id, doc.author, doc.title)
  }

  /** The document filter agrees with the in-memory filter on the mapped book. */
  lemma DocumentMatchesAgree(term: Option<string>, doc: CosmosDbBook)
    ensures DocumentMatches(SearchKey(term), doc) <==> BookMatches(term, ToBook(doc))
  {
  }

  /** `r` lists, once per id in `keys` and mapped through `ToBook`, exactly the documents the key matches. */
  ghost predicate IsDocumentSearchResult(r: seq<Book>, keys: seq<string>, store: Store, key: string) {
    Listing.ListsMapped(r, keys, store, (doc: CosmosDbBook) => DocumentMatches(key, doc), ToBook)
  }

  /** Documents listed once per key and mapped through `ToBook` are a search result over the catalogue;
      each listed book is catalogued and matches, and none is listed twice when ids are the keys. */
  lemma MappedListingIsSearchResult(r: seq<Book>, keys: seq<string>, store: Store, term: Option<string>)
    requires IsDocumentSearchResult(r, keys, store, SearchKey(term))
    ensures IsSearchResult(r, keys, Catalog(store), term)
    ensures forall i :: 0 <= i < |r| ==> r[i] in Catalog(store).Values && BookMatches(term, r[i])
    ensures Valid(store) ==> forall i, j :: 0 <= i < j < |r| ==> r[i] != r[j]
  {
    var books := Catalog(store);
    forall isbn | isbn in books && BookMatches(term, books[isbn])
      ensures isbn in keys
    {
      DocumentMatchesAgree(term, store[isbn]);
    }
    forall i | 0 <= i < |r|
      ensures r[i] in books.Values && BookMatches(term, r[i])
    {
      assert books[keys[i]] == r[i];
    }
  }

  /** `QueryAsync(spec).Items` for a non-empty key, `GetAsync(_ => true)` for an empty one. */
  method Query(store: Store, key: string) returns (docs: seq<CosmosDbBook>, ghost keys: seq<string>)
    ensures Listing.Lists(docs, keys, store, (doc: CosmosDbBook) => DocumentMatches(key, doc))
    ensures key == "" ==> |docs| == |store|
    ensures forall i :: 0 <= i < |docs| ==> docs[i] in store.Values && DocumentMatches(key, docs[i])
  {
    if |key| > 0 {
      docs, keys := Listing.Where(store, (doc: CosmosDbBook) => DocumentMatches(key, doc));
    } else {
      forall doc: CosmosDbBook ensures DocumentMatches(key, doc) {
        Text.ContainsEmpty(Text.Lower(doc.id));
      }
      docs, keys := Listing.Where(store, (doc: CosmosDbBook) => true);
    }
  }

  /** The documents the query yields, mapped through `ToBook` (`Select(ToBook)`). */
  method Search(store: Store, term: Option<string>) returns (r: seq<Book>, ghost keys: seq<string>)
    ensures IsDocumentSearchResult(r, keys, store, SearchKey(term))
    ensures SearchKey(term) == "" ==> |r| == |store| && forall id :: id in store ==> id in keys
    ensures IsSearchResult(r, keys, Catalog(store), term)
    ensures forall i :: 0 <= i < |r| ==> r[i] in Catalog(store).Values && BookMatches(term, r[i])
    ensures Valid(store) ==> forall i, j :: 0 <= i < j < |r| ==> r[i] != r[j]
  {
    var docs;
    docs, keys := Query(store, SearchKey(term));
    r := seq(|docs|, i requires 0 <= i < |docs| => ToBook(docs[i]));
    MappedListingIsSearchResult(r, keys, store, term);
  }

  /** `GetAllAsync` is `SearchAsync("")`: every document, once, as a book. */
  method GetAll(store: Store) returns (r: seq<Book>, ghost keys: seq<string>)
    ensures |r| == |store| && |keys| == |r| && Listing.Distinct(keys)
    ensures forall i :: 0 <= i < |keys| ==> keys[i] in store && r[i] == ToBook(store[keys[i]])
    ensures forall id :: id in store ==> id in keys
  {
    r, keys := Search(store, Some(""));
  }
}
