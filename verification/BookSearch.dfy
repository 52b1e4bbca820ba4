/** The one search predicate every backend filters with. */
module BookSearch {
  import opened Wrappers
  import opened Text
  import opened Models
  import Listing

  /** The search key: the lower-cased term, or "" when the term is absent (`searchTerm?.ToLower() ?? ""`). */
  function SearchKey(term: Option<string>): (key: string)
    ensures |key| == 0 <==> term.None? || |term.value| == 0
    ensures term.Some? ==> |key| == |term.value|
  {
    Lower(term.GetOr(""))
  }

  /** A record matches a lower-cased key when the key occurs in its lower-cased key field, author or title. */
  predicate Matches(key: string, id: string, author: string, title: string) {
    Contains(Lower(id), key) || Contains(Lower(author), key) || Contains(Lower(title), key)
  }

  predicate BookMatches(term: Option<string>, book: Book) {
    Matches(SearchKey(term), book.isbn, book.author, book.title)
  }

  /** An absent or empty term matches every book. */
  lemma EmptyTermMatchesAll(term: Option<string>, book: Book)
    requires term.None? || term == Some("")
    ensures BookMatches(term, book)
  {
    assert SearchKey(term) == "";
    ContainsEmpty(Lower(book.isbn));
  }

  /** A book matches a term exactly when the term is empty or the lower-cased term occurs in its lower-cased
      isbn, author or title. */
  lemma BookMatchesIff(term: Option<string>, book: Book)
    ensures BookMatches(term, book) <==>
      var key := SearchKey(term);
      || |key| == 0
      || (exists i :: OccursAt(Lower(book.isbn), key, i))
      || (exists i :: OccursAt(Lower(book.author), key, i))
      || (exists i :: OccursAt(Lower(book.title), key, i))
  {
    var key := SearchKey(term);
    ContainsIff(Lower(book.isbn), key);
    ContainsIff(Lower(book.author), key);
    ContainsIff(Lower(book.title), key);
    if |key| == 0 {
      assert OccursAt(Lower(book.isbn), key, 0);
    }
  }

  /** Lower-casing the term first changes no answer. */
  lemma LoweredTermSameResults(term: string, book: Book)
    ensures BookMatches(Some(term), book) <==> BookMatches(Some(Lower(term)), book)
  {
    LowerIdempotent(term);
  }

  /** Two terms that differ only in the case of their letters find the same books. */
  lemma CaseInsensitive(t1: string, t2: string, book: Book)
    requires SameIgnoringCase(t1, t2)
    ensures BookMatches(Some(t1), book) <==> BookMatches(Some(t2), book)
  {
    SameIgnoringCaseIff(t1, t2);
  }

  /** The term "eye" finds "The Eye of the World" through its title. */
  lemma EyeFindsTheEyeOfTheWorld(book: Book)
    requires book.title == "The Eye of the World"
    ensures BookMatches(Some("eye"), book)
  {
    var title := Lower(book.title);
    assert title[4..7] == "eye";
    assert OccursAt(title, "eye", 4);
    ContainsIff(title, "eye");
    assert Lower("eye") == "eye";
    assert SearchKey(Some("eye")) == "eye";
  }

  /** `r` lists the books of `books` that match `term`, once for each isbn `keys` names:
      every listed entry is stored and matches, and every stored match is listed exactly once. */
  ghost predicate IsSearchResult(r: seq<Book>, keys: seq<string>, books: map<string, Book>, term: Option<string>) {
    Listing.Lists(r, keys, books, (b: Book) => BookMatches(term, b))
  }
}
