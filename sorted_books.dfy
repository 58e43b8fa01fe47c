/** `getSortedBooks`: the books that pass the draft filter, in one of three orders.
    `src/utils/common.ts` does not export `filterBookByDraft`; the model takes it to be
    some predicate on books, the parameter `keepBook`. */
module SortedBooks {
  import opened Lists
  import opened Content
  import SortedPosts

  /** The default and fall-through sort option. */
  const DefaultSortBy: string := "date"

  /** `a.data.rating || 0`: an absent rating (and a zero one) counts as 0. */
  function Rating(b: Book): real
  {
    match b.rating
    case None => 0.0
    case Some(x) => x
  }

  /** `{ reading: 0, "to-read": 1, completed: 2 }`. */
  function StatusRank(s: Status): int
  {
    match s
    case Reading => 0
    case ToRead => 1
    case Completed => 2
  }

  /** The sort key behind each comparator, largest first: `ratingB - ratingA` sorts by
      rating, `order[a] - order[b]` by negated rank, and the date comparator by
      whole seconds. Any option other than "rating" or "status" falls to date. */
  function BookKey(sortBy: string): Book -> real
  {
    if sortBy == "rating" then (b: Book) => Rating(b)
    else if sortBy == "status" then (b: Book) => -(StatusRank(b.status) as real)
    else (b: Book) => SortedPosts.Seconds(b.pubDatetime) as real
  }

  function GetSortedBooks(books: seq<Book>, sortBy: string, keepBook: Book -> bool): (r: seq<Book>)
    ensures multiset(r) == multiset(Filter(books, keepBook))
    ensures forall i :: 0 <= i < |r| ==> keepBook(r[i])
    ensures SortedDesc(r, BookKey(sortBy))
    ensures |r| <= |books|
  {
    var kept := Filter(books, keepBook);
    var r := SortDesc(kept, BookKey(sortBy));
    assert forall i :: 0 <= i < |r| ==> keepBook(r[i]) by {
      forall i | 0 <= i < |r| ensures keepBook(r[i]) {
        assert r[i] in multiset(kept);
        var j :| 0 <= j < |kept| && kept[j] == r[i];
      }
    }
    r
  }

  lemma RatingOrder(books: seq<Book>, keepBook: Book -> bool)
    ensures var r := GetSortedBooks(books, "rating", keepBook);
      forall i, j :: 0 <= i < j < |r| ==> Rating(r[i]) >= Rating(r[j])
  {
    var r := GetSortedBooks(books, "rating", keepBook);
    assert SortedDesc(r, BookKey("rating"));
  }

  lemma StatusOrder(books: seq<Book>, keepBook: Book -> bool)
    ensures var r := GetSortedBooks(books, "status", keepBook);
      forall i, j :: 0 <= i < j < |r| ==> StatusRank(r[i].status) <= StatusRank(r[j].status)
  {
    var r := GetSortedBooks(books, "status", keepBook);
    assert SortedDesc(r, BookKey("status"));
  }

  /** "date" and every unrecognised option give newest-first by whole seconds. */
  lemma DateOrder(books: seq<Book>, sortBy: string, keepBook: Book -> bool)
    requires sortBy != "rating" && sortBy != "status"
    ensures var r := GetSortedBooks(books, sortBy, keepBook);
      forall i, j :: 0 <= i < j < |r| ==>
        SortedPosts.Seconds(r[i].pubDatetime) >= SortedPosts.Seconds(r[j].pubDatetime)
  {
    var r := GetSortedBooks(books, sortBy, keepBook);
    assert SortedDesc(r, BookKey(sortBy));
  }

  /** Among books of equal key (same rating, same status, same second) the stable sort
      keeps the collection's order. */
  lemma {:induction false} EqualKeysKeepOrder(books: seq<Book>, sortBy: string, keepBook: Book -> bool, k: real)
    ensures Filter(GetSortedBooks(books, sortBy, keepBook), HasKey(BookKey(sortBy), k))
         == Filter(Filter(books, keepBook), HasKey(BookKey(sortBy), k))
  {
    SortDescStable(Filter(books, keepBook), BookKey(sortBy), k);
  }

  /** The result has exactly the books that pass the filter, as often as the input has them. */
  lemma {:induction false} KeptBooksAllPresent(books: seq<Book>, sortBy: string, keepBook: Book -> bool)
    ensures forall b :: b in books && keepBook(b)
              ==> multiset(GetSortedBooks(books, sortBy, keepBook))[b] == multiset(books)[b]
    ensures |GetSortedBooks(books, sortBy, keepBook)| == |Filter(books, keepBook)|
  {
    FilterCounts(books, keepBook);
    var r := GetSortedBooks(books, sortBy, keepBook);
    assert |r| == |multiset(r)|;
  }
}
