/** The embedded-SQL backend: existence check before insert, and rows-affected checks for update and delete. */
module SQLiteBookService {
  import opened Wrappers
  import opened Models
  import opened BookSearch
  import opened SQLiteTable
  import Listing

  /** Counts the rows with the book's isbn; inserts only when there are none. */
  function Create(t: Table, book: Book): (r: Outcome<Table>)
    ensures r.ok <==> book.isbn !in t
    ensures !r.ok ==> r.state == t
    ensures r.ok ==> r.state.Keys == t.Keys + {book.isbn} && r.state[book.isbn] == book
    ensures forall isbn :: isbn in t ==> isbn in r.state && r.state[isbn] == t[isbn]
  {
    CountIsIndicator(t, book.isbn);
    if CountWhereIsbn(t, book.isbn) == 0 then
      var w := Insert(t, book);
      Outcome(w.rowsAffected == 1, w.table)
    else
      Outcome(false, t)
  }

  /** Succeeds exactly when one row was updated; the row is replaced wholesale. */
  function Update(t: Table, book: Book): (r: Outcome<Table>)
    ensures r.ok <==> book.isbn in t
    ensures !r.ok ==> r.state == t
    ensures r.state.Keys == t.Keys
    ensures r.ok ==> r.state[book.isbn] == book
    ensures forall isbn :: isbn in t && isbn != book.isbn ==> r.state[isbn] == t[isbn]
  {
    var w := SQLiteTable.Update(t, book);
    Outcome(w.rowsAffected == 1, w.table)
  }

  /** Succeeds exactly when one row was deleted; afterwards no row has that key. */
  function Delete(t: Table, isbn: string): (r: Outcome<Table>)
    ensures r.ok <==> isbn in t
    ensures r.state.Keys == t.Keys - {isbn}
    ensures forall other :: other in r.state ==> r.state[other] == t[other]
  {
    var w := SQLiteTable.Delete(t, isbn);
    Outcome(w.rowsAffected == 1, w.table)
  }

  /** The row whose isbn equals the argument, or `null` when no row has it. */
  function GetByIsbn(t: Table, isbn: string): (r: Option<Book>)
    ensures r.Some? ==> r.value.isbn == isbn && r.value in t.Values
    ensures r.None? <==> forall key :: key in t ==> t[key].isbn != isbn
  {
    Find(t, isbn)
  }

  /** Lower-cases the term first; a non-empty key filters on the lower-cased isbn, author and title,
      an empty one lists the whole table. */
  method Search(t: Table, term: Option<string>) returns (r: seq<Book>, ghost keys: seq<string>)
    ensures IsSearchResult(r, keys, t, term)
    ensures (term.None? || term == Some("")) ==> |r| == |t| && forall isbn :: isbn in t ==> isbn in keys
    ensures forall i, j :: 0 <= i < j < |r| ==> r[i] != r[j]
  {
    var key := SearchKey(term);
    if |key| > 0 {
      r, keys := Listing.Where(t, (b: Book) => Matches(key, b.isbn, b.author, b.title));
    } else {
      forall b: Book ensures BookMatches(term, b) {
        EmptyTermMatchesAll(term, b);
      }
      r, keys := Listing.Where(t, (b: Book) => true);
    }
  }
}
