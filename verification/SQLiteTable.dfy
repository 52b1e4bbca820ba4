/** The `Book` table of the embedded SQL database, seen through the sqlite-net calls the service makes.
    Rows are filed under their primary key, the isbn. */
module SQLiteTable {
  import opened Wrappers
  import opened Models

  type Table = t: map<string, Book> | KeyedByIsbn(t) witness map[]

  /** The number of rows a write reports as affected, and the table after it. */
  datatype Write = Write(rowsAffected: nat, table: Table)

  /** The primary keys of the rows `Where(b => b.Isbn == isbn)` selects. */
  function RowsWithIsbn(t: Table, isbn: string): set<string> {
    set key | key in t && t[key].isbn == isbn
  }

  /** `Where(b => b.Isbn == isbn).CountAsync()`. */
  function CountWhereIsbn(t: Table, isbn: string): nat {
    |RowsWithIsbn(t, isbn)|
  }

  /** On a table keyed by isbn the count is one for a stored isbn and zero otherwise. */
  lemma CountIsIndicator(t: Table, isbn: string)
    ensures CountWhereIsbn(t, isbn) == if isbn in t then 1 else 0
  {
    if isbn in t {
      assert RowsWithIsbn(t, isbn) == {isbn};
    } else {
      assert RowsWithIsbn(t, isbn) == {};
    }
  }

  /** `InsertAsync(row)`; a row whose key is taken would violate the primary key, which the caller rules out. */
  function Insert(t: Table, row: Book): Write
    requires row.isbn !in t
  {
    Write(1, t[row.isbn := row])
  }

  /** `UpdateAsync(row)`: `UPDATE ... WHERE Isbn = row.Isbn`. */
  function Update(t: Table, row: Book): Write {
    if row.isbn in t then Write(1, t[row.isbn := row]) else Write(0, t)
  }

  /** `DeleteAsync<Book>(key)`: `DELETE ... WHERE Isbn = key`. */
  function Delete(t: Table, key: string): Write {
    if key in t then Write(1, t - {key}) else Write(0, t)
  }

  /** `FindAsync<Book>(b => b.Isbn == isbn)`: the row with that isbn, or `null`. */
  function Find(t: Table, isbn: string): Option<Book> {
    if isbn in t then Some(t[isbn]) else None
  }
}
