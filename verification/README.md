# LibraryDemo book storage, modelled in Dafny

The LibraryDemo web API keeps a catalogue of `Book` records keyed by ISBN behind the
`IBookService` interface. The interface has five operations: create, update, delete,
get-by-isbn and search. Three interchangeable backends implement it:

- an in-memory dictionary;
- an embedded SQLite table whose primary key is the isbn;
- a Cosmos DB document repository that stores `CosmosDbBook` documents keyed by `Id`.

`BookServiceFactory` picks one of the three from the configured `ServiceType`.

Each backend is modelled as pure functions over a finite map. A mutating operation returns
an `Outcome(ok, state)`: the boolean the C# method returns, together with the state after
the call. Search and lookup take the state by value and return no new state, so they cannot
modify it. All backends search with the same predicate, `BookSearch.Matches`. It lower-cases
the term (ASCII only) and asks whether the result is a substring of the lower-cased
isbn/id, author or title. An empty or absent term therefore matches every record. Search
results come back in no particular order. Each search returns a list of books plus a ghost
list of the keys they came from, and the contract says every matching entry appears exactly
once.

`BookService` dispatches the five operations over a tagged `State`, one variant per backend.
It states the `IBookService` contract once, against `Catalog(s)`, the books a state presents
at the interface. For the document store, the catalogue is the documents mapped through
`ToBook`. All three backends meet the contract once the document store's delete and lookup
are corrected, and `BookService` uses both corrections (see Findings). `BookService` also
keeps the lookup as written, `GetByIsbnAsWritten`, and the read-back lemmas state what it
answers.

Modules, one per source file or component: `Wrappers`, `Text`, `Models`,
`CosmosDbBookMapper`, `BookSearch`, `Listing`, `InMemoryBookService`, `SQLiteTable`,
`SQLiteBookService`, `CosmosRepository`, `CosmosDbBookService`, `BookServiceFactory`,
`BookService`.

In three places the code differs from what the shared interface implies. Each one is
modelled as written; for the first two a corrected version is modelled as well:

- Under the interface contract, a delete succeeds exactly when the record existed. The
  document store's delete inverts that test.
- The interface's lookup returns `Book?`: `null` for an unknown isbn, as the in-memory and SQL
  backends answer. The document store passes the repository result straight into `ToBook`,
  so for an unknown isbn its lookup ends in an exception and never answers `null`.
- The in-memory search checks the length of the raw term. The SQL and document searches
  lower-case the term first and then check its length. ASCII lower-casing keeps the length,
  so all three take the same branch.

## Model

| member | source | states |
|---|---|---|
| `Text.Lower` | Library.WebApi/Services/SQLiteBookService.cs:52-59 | `ToLower` keeps the length, turns each upper-case ASCII letter into its lower-case letter (32 code points up), and changes no other character |
| `Text.ContainsIff` | Library.WebApi/Services/CosmosDbBookService.cs:65-67 | `Contains(s, t)` holds exactly when `t` occurs in `s` at some position |
| `BookSearch.SearchKey` | Library.WebApi/Services/SQLiteBookService.cs:52 | `searchTerm?.ToLower() ?? ""` is empty exactly when the term is absent or empty, and otherwise as long as the term |
| `BookSearch.EmptyTermMatchesAll` | Library.WebApi/Services/SQLiteBookService.cs:52-61 | an absent or empty term matches every book |
| `BookSearch.BookMatchesIff` | Library.WebApi/Services/InMemoryBookService.cs:32-36 | a book matches exactly when the term is empty or the lower-cased term occurs in the lower-cased isbn, author or title |
| `BookSearch.EyeFindsTheEyeOfTheWorld` | Library.WebApi.Tests/LibraryEndpointsTests.cs:138-155 | the term `"eye"` matches a book titled `"The Eye of the World"` |
| `BookSearch.LoweredTermSameResults` | Library.WebApi/Services/SQLiteBookService.cs:52-59 | lower-casing the term before filtering changes no answer |
| `BookSearch.CaseInsensitive` | Library.WebApi/Services/InMemoryBookService.cs:34-36 | two terms that differ only in the case of their ASCII letters find the same books |
| `Text.SameIgnoringCaseIff` | Library.WebApi/Services/InMemoryBookService.cs:34-36 | two strings have the same lower-cased form exactly when they differ at most in the case of their ASCII letters |
| `Listing.Where` | Library.WebApi/Services/InMemoryBookService.cs:33-37 | `Values.Where(p).ToList()` lists each stored entry that `p` accepts exactly once and nothing else; when `p` accepts everything the list is as long as the map |
| `CosmosDbBookMapper.FieldsCarried` | Library.WebApi/Maps/CosmosDbBookMapper.cs:8-28 | `ToCosmosDbBook` sets `Id` to the isbn and the discriminator to `CosmosDbBook`; `ToBook` sets the isbn to `Id`; title, author, description, page count and release date are copied both ways |
| `CosmosDbBookMapper.RoundTrip` | Library.WebApi/Maps/CosmosDbBookMapper.cs:8-28 | `ToBook(ToCosmosDbBook(b)) == b` |
| `CosmosDbBookMapper.ReverseRoundTrip` | Library.WebApi/Maps/CosmosDbBookMapper.cs:8-28 | `ToCosmosDbBook(ToBook(d))` is `d` with the discriminator reset to the one the constructor sets, so it is `d` itself when `d` already carries it |
| `CosmosDbBookMapper.ToCosmosDbBookInjective` | Library.WebApi/Maps/CosmosDbBookMapper.cs:19-28 | distinct books map to distinct documents |
| `InMemoryBookService.Create` | Library.WebApi/Services/InMemoryBookService.cs:9 | succeeds iff the isbn is not a key; on success the map gains exactly `isbn ↦ book`; on failure it is unchanged; keeps entries filed under their own isbn |
| `InMemoryBookService.Update` | Library.WebApi/Services/InMemoryBookService.cs:10-21 | succeeds iff the isbn is a key; on failure the map is unchanged; on success the record at that key is the new book and every other key is untouched; keeps entries filed under their own isbn |
| `InMemoryBookService.Delete` | Library.WebApi/Services/InMemoryBookService.cs:22 | reports true iff the key existed; afterwards the key is absent and all other entries are unchanged; keeps entries filed under their own isbn |
| `InMemoryBookService.GetByIsbn` | Library.WebApi/Services/InMemoryBookService.cs:23-28 | null exactly for an absent isbn; otherwise a stored book, and under the keying invariant the one with that isbn |
| `InMemoryBookService.Search` | Library.WebApi/Services/InMemoryBookService.cs:29-38 | lists, once per entry, exactly the stored books matching the term; an absent or empty term lists all of them; no book is listed twice when entries are filed under their isbn |
| `InMemoryBookService.CreateTwiceKeepsFirst` | Library.WebApi.Tests/LibraryEndpointsTests.cs:54-69 | a second create with the same isbn fails, leaves the map as it was, and the first book is still returned |
| `InMemoryBookService.CreateThenGet` | Library.WebApi/Services/InMemoryBookService.cs:9-28 | creating a new isbn and looking it up returns the same book |
| `SQLiteTable.CountIsIndicator` | Library.WebApi/Services/SQLiteBookService.cs:24 | on a table keyed by isbn, the number of rows with a given isbn is 1 if it is stored and 0 otherwise |
| `SQLiteBookService.Create` | Library.WebApi/Services/SQLiteBookService.cs:21-29 | inserts and reports true iff no row has the isbn; on failure the table is unchanged; on success the table gains exactly that row |
| `SQLiteBookService.Update` | Library.WebApi/Services/SQLiteBookService.cs:31-35 | true iff one row is affected, i.e. the isbn is stored; the row is replaced wholesale and no other row changes |
| `SQLiteBookService.Delete` | Library.WebApi/Services/SQLiteBookService.cs:37-41 | true iff one row is removed, i.e. the isbn was stored; afterwards the key is absent and the other rows are unchanged |
| `SQLiteBookService.GetByIsbn` | Library.WebApi/Services/SQLiteBookService.cs:43-47 | a returned row is in the table and has that isbn; null exactly when no row has that isbn |
| `SQLiteBookService.Search` | Library.WebApi/Services/SQLiteBookService.cs:49-63 | lists, once per row, exactly the rows whose lower-cased isbn, author or title contains the lower-cased term; an absent or empty term lists every row |
| `CosmosDbBookService.Catalog` | Library.WebApi/Services/CosmosDbBookService.cs:38-39 | the books the store presents have the store's keys, and each is filed under its own isbn when documents are filed under their own id |
| `CosmosDbBookService.Create` | Library.WebApi/Services/CosmosDbBookService.cs:13-19 | false and unchanged when the isbn exists; otherwise stores `ToCosmosDbBook(book)` under the isbn and returns true; the presented catalogue gains exactly the book |
| `CosmosDbBookService.Update` | Library.WebApi/Services/CosmosDbBookService.cs:21-27 | false and unchanged when the isbn is absent; otherwise replaces the document with `ToCosmosDbBook(book)`; the presented catalogue has the new book at that isbn |
| `CosmosDbBookService.DeleteAsWritten` | Library.WebApi/Services/CosmosDbBookService.cs:29-36 | as written: reports true exactly when the isbn is absent, and the store never changes |
| `CosmosDbBookService.DeleteAsWrittenNeverDeletes` | Library.WebApi/Services/CosmosDbBookService.cs:31-32 | as written, deleting a stored isbn reports false and the record stays |
| `CosmosDbBookService.DeleteAsWrittenCounterexample` | Library.WebApi/Services/CosmosDbBookService.cs:29-36 | one stored book, deleted by its isbn, is still returned by a lookup and the call reports failure |
| `CosmosDbBookService.DeleteAsWrittenThenGet` | Library.WebApi/Services/CosmosDbBookService.cs:29-39 | with delete and lookup both as written, a stored book is still found after its delete, and an unknown isbn's lookup faults |
| `CosmosDbBookService.Delete` | Library.WebApi/Services/CosmosDbBookService.cs:29-36 | corrected: true iff the isbn was stored; afterwards it is absent and every other document is unchanged |
| `CosmosDbBookService.GetByIsbnAsWritten` | Library.WebApi/Services/CosmosDbBookService.cs:38-39 | as written: a stored document comes back through `ToBook`; an unknown isbn ends in an exception, never in `null` |
| `CosmosDbBookService.GetByIsbnAsWrittenCounterexample` | Library.WebApi/Services/CosmosDbBookService.cs:38-39 | looking up an isbn in an empty store faults |
| `CosmosDbBookService.GetByIsbn` | Library.WebApi/Services/CosmosDbBookService.cs:38-39 | corrected: `null` exactly for an unknown isbn; otherwise the stored document through `ToBook`, with the requested isbn when documents are filed under their own id |
| `CosmosDbBookService.GetByIsbnAgreesWhenStored` | Library.WebApi/Services/CosmosDbBookService.cs:38-39 | for a stored isbn the lookup as written and the corrected lookup give the same book |
| `CosmosDbBookService.CreateThenGet` | Library.WebApi/Services/CosmosDbBookService.cs:13-39 | after a successful create, a lookup of the isbn returns exactly the created book, through the corrected lookup and the lookup as written alike |
| `CosmosDbBookService.DocumentMatchesAgree` | Library.WebApi/Services/CosmosDbBookService.cs:60-69 | the query on id, author and title matches a document exactly when the in-memory filter matches the mapped book |
| `CosmosDbBookService.Query` | Library.WebApi/Services/CosmosDbBookService.cs:43-52 | a non-empty key queries with the specification and an empty key fetches everything: each document the key matches is listed exactly once, and nothing else is |
| `CosmosDbBookService.Search` | Library.WebApi/Services/CosmosDbBookService.cs:41-56 | lists, once per document and mapped through `ToBook`, exactly the documents the specification matches; an empty key lists all of them; every listed book is catalogued and passes the in-memory filter, and none is listed twice |
| `CosmosDbBookService.GetAll` | Library.WebApi/Services/CosmosDbBookService.cs:58 | lists every document exactly once, mapped through `ToBook` |
| `BookServiceFactory.ServiceType` | Library.WebApi/Services/BookServiceFactory.cs:16 | absent options or a null service type read as `"InMemory"`; otherwise the configured name |
| `BookServiceFactory.Select` | Library.WebApi/Services/BookServiceFactory.cs:16-21 | `"CosmosDb"` selects the document store, `"SQLite"` the SQL table, and every other string the in-memory backend (exact, case-sensitive match) |
| `BookServiceFactory.GetBookService` | Library.WebApi/Services/BookServiceFactory.cs:15-21 | each backend is selected exactly for its own configured name; absent options or a null name select memory |
| `BookServiceFactory.UnrecognisedNamesPickMemory` | Library.WebApi/Services/BookServiceFactory.cs:16-20 | `""`, `"sqlite"`, `"cosmosdb"`, absent options and a null name all select memory |
| `BookService.Catalog` | Library.WebApi/Services/IBookService.cs:5-13 | every backend state that keeps its invariant presents a catalogue in which each book is filed under its own isbn |
| `BookService.Create` | Library.WebApi/Services/IBookService.cs:7 | on every backend: succeeds iff the isbn is not catalogued; the catalogue gains exactly the book on success and is unchanged on failure; the backend and its invariant are kept |
| `BookService.Update` | Library.WebApi/Services/IBookService.cs:8 | on every backend: succeeds iff the isbn is catalogued; on success that isbn now holds the new book, on failure nothing changes |
| `BookService.Delete` | Library.WebApi/Services/IBookService.cs:10 | on every backend: succeeds iff the isbn was catalogued; afterwards it is gone and nothing else changes |
| `BookService.GetByIsbn` | Library.WebApi/Services/IBookService.cs:11 | on every backend, with the document store's corrected lookup: the catalogued book, or absent |
| `BookService.GetByIsbnAsWritten` | Library.WebApi/Services/IBookService.cs:11 | as written, each backend answers as the corrected lookup does, except that the document store faults on an isbn it does not hold |
| `BookService.Search` | Library.WebApi/Services/IBookService.cs:12 | on every backend: lists each catalogued book matching the term exactly once; an absent or empty term lists the whole catalogue |
| `BookService.CreateThenGet` | Library.WebApi.Tests/LibraryEndpointsTests.cs:73-88 | on every backend, creating a new isbn and reading it back yields the same book field for field, through the corrected lookup and the lookup as written alike |
| `BookService.CreateTwiceKeepsFirst` | Library.WebApi.Tests/LibraryEndpointsTests.cs:54-69 | on every backend, a duplicate create fails and the first record is kept |
| `BookService.UpdateThenGet` | Library.WebApi.Tests/LibraryEndpointsTests.cs:158-174 | on every backend, an update of a catalogued isbn succeeds and a lookup then yields exactly the new book, through the corrected lookup and the lookup as written alike |
| `BookService.DeleteThenGet` | Library.WebApi/Services/IBookService.cs:10-11 | on every backend, after the corrected delete the corrected lookup answers `null`; the in-memory and SQL lookups as written answer `null` too, and the document store's lookup as written faults |
| `BookService.BackendsAgree` | Library.WebApi/Services/IBookService.cs:5-13 | two backends presenting the same catalogue give the same answers to create, update, delete and lookup (the document store with its corrected delete and lookup), and still present the same catalogue afterwards |
| `BookService.GetByIsbnAsWrittenDisagrees` | Library.WebApi/Services/CosmosDbBookService.cs:38-39 | on the same catalogue and an unknown isbn, the in-memory lookup answers `null` while the document store's lookup as written faults |
| `BookService.DeleteAsWrittenDisagrees` | Library.WebApi/Services/CosmosDbBookService.cs:29-36 | on the same catalogue, the document store's delete as written reports the opposite of the in-memory delete |

## Left out

- HTTP routing, status codes, Swagger and the `book with { Isbn = isbn }` rewrite done by the update endpoint are framework plumbing around the service interface.
- The validation filter and the ISBN-13 and title rules: the validator class is not part of this model.
- Reflection-based service registration and dependency-injection wiring: runtime container plumbing.
- SQLite's lazy, once-only schema creation, the connection-string default path and all `async`/`ValueTask` machinery: I/O and one-time initialisation, not storage semantics.
- Storage and connectivity faults that surface as exceptions are not modelled. Apart from the document store's lookup as written (see Findings), every modelled call completes.
- `SQLiteTable.Insert` requires the key to be absent rather than modelling sqlite-net's primary-key violation exception. Its only caller checks the row count first.
- `CosmosRepository.Get` and `CosmosRepository.Delete`: what the real repository does for an unknown id is foreign code. Here `Get` yields `None`, standing for either a repository exception or a `null` result. Both make the lookup as written fault, because `ToBook` dereferences its argument. A delete of an unknown id leaves the store unchanged.
- `Book` is modelled as an immutable value. In the source it is a record whose `Isbn` has a public setter (Library.WebApi/Models/Book.cs:9), and the in-memory dictionary keeps the caller's object itself (Library.WebApi/Services/InMemoryBookService.cs:9,16). The in-memory keying invariant holds only while no caller changes a stored book's `Isbn`; the update endpoint copies the book with `with` rather than mutating it (Library.WebApi/Endpoints/LibraryEndpoints.cs:47).
- Every operation is modelled as one atomic step. The source takes no lock: the in-memory dictionary is a singleton shared by concurrent requests, the SQL create counts and then inserts (two racing creates can hit the primary-key exception), and the document store probes for existence and then writes. Interleavings of concurrent requests are not modelled.
- Partition keys and JSON attributes of the document store.
- The GUID default for a document's `Id` and the `DateTime.Today` defaults are nondeterministic. `ReleaseDate` is an opaque tick count compared only for equality.
- `Text.Lower` lower-cases ASCII letters only. Culture-sensitive comparison (`CurrentCultureIgnoreCase`) and the culture-aware `ToLower` are not modelled; they differ from ASCII lower-casing on non-ASCII characters and, under some current cultures (the Turkish dotted and dotless I), on ASCII letters too.
- The order of search results is unspecified in the source (dictionary and query order). The model fixes no order and states results per key.
- `DatabaseOptions.ConnectionString` and other backend connection parameters: configuration that does not affect which operations succeed.
- Failure-response records and the test fixture are passive data holders and test scaffolding.

## Findings

| source | as written | input that shows it | evidently intended | confidence | as-written member | corrected member |
|---|---|---|---|---|---|---|
| Library.WebApi/Services/CosmosDbBookService.cs:29-36 | returns false and keeps the document when the isbn exists; calls the repository delete and returns true when it does not | a store holding one book with isbn "978-0312850098", then delete "978-0312850098": false, and the book is still found | delete and return true exactly when the isbn is stored, false otherwise, as the in-memory and SQL backends do | not executed | `CosmosDbBookService.DeleteAsWritten` | `CosmosDbBookService.Delete` |
| Library.WebApi/Services/CosmosDbBookService.cs:38-39 | passes the repository result straight into `ToBook`, which reads the document's `Id` at once (Library.WebApi/Maps/CosmosDbBookMapper.cs:8-11): an unknown isbn ends in an exception, from the repository or as a null dereference | an empty store, then look up "978-0312850098": an exception instead of `null`, so the endpoint cannot answer 404 | answer `null` for an unknown isbn, as the interface's `Book?` result and the other backends do | not executed | `CosmosDbBookService.GetByIsbnAsWritten` | `CosmosDbBookService.GetByIsbn` |
