/** `getBooksByTag`: the books one of whose slugified tags equals `tag`. The slug
    module is not part of this model: `slugifyAll` is a parameter. */
module BooksByTag {
  import opened Lists
  import opened Content

  function TagFilter(tag: string, slugifyAll: seq<string> -> seq<string>): Book -> bool
  {
    (b: Book) => tag in slugifyAll(b.tags)
  }

  /** Drafts are not filtered out, and `tag` itself is compared as given. */
  function GetBooksByTag(books: seq<Book>, tag: string, slugifyAll: seq<string> -> seq<string>): (r: seq<Book>)
    ensures forall i :: 0 <= i < |r| ==> tag in slugifyAll(r[i].tags)
    ensures |r| <= |books|
  {
    Filter(books, TagFilter(tag, slugifyAll))
  }

  /** The result keeps the input order, and a book is kept (with its multiplicity)
      exactly when `tag` is among its slugified tags. */
  lemma {:induction false} BooksByTagSpec(books: seq<Book>, tag: string, slugifyAll: seq<string> -> seq<string>)
    ensures IsSubsequence(GetBooksByTag(books, tag, slugifyAll), books)
    ensures multiset(GetBooksByTag(books, tag, slugifyAll)) <= multiset(books)
    ensures forall b :: b in books && tag in slugifyAll(b.tags)
              ==> multiset(GetBooksByTag(books, tag, slugifyAll))[b] == multiset(books)[b]
  {
    FilterIsSubsequence(books, TagFilter(tag, slugifyAll));
    FilterCounts(books, TagFilter(tag, slugifyAll));
  }
}
