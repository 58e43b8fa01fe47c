/** `getUniqueTags`: the slugs of all tags of the kept posts and books, each once,
    in ascending order. `slugifyStr` is not part of this model and `src/utils/common.ts`
    does not export `filterBookByDraft`: they are the parameters `slugify` and
    `keepBook`. `localeCompare` is modelled as the lexicographic order of code points. */
module UniqueTags {
  import opened Lists
  import opened Content
  import opened Common

  /** Lexicographic order on strings, a prefix first. */
  predicate LexLeq(a: string, b: string)
  {
    a == [] || (b != [] && (a[0] < b[0] || (a[0] == b[0] && LexLeq(a[1..], b[1..]))))
  }

  lemma {:induction false} LexTotal(a: string, b: string)
    ensures LexLeq(a, b) || LexLeq(b, a)
  {
    if a != [] && b != [] && a[0] == b[0] {
      LexTotal(a[1..], b[1..]);
    }
  }

  lemma {:induction false} LexAntisymmetric(a: string, b: string)
    requires LexLeq(a, b) && LexLeq(b, a)
    ensures a == b
  {
    if a != [] && b != [] {
      LexAntisymmetric(a[1..], b[1..]);
      assert a == [a[0]] + a[1..] && b == [b[0]] + b[1..];
    }
  }

  lemma {:induction false} LexTransitive(a: string, b: string, c: string)
    requires LexLeq(a, b) && LexLeq(b, c)
    ensures LexLeq(a, c)
  {
    if a != [] && b != [] && c != [] && a[0] == b[0] && b[0] == c[0] {
      LexTransitive(a[1..], b[1..], c[1..]);
    }
  }

  ghost predicate StrictlyAscending(s: seq<string>)
  {
    forall i, j :: 0 <= i < j < |s| ==> LexLeq(s[i], s[j]) && s[i] != s[j]
  }

  /** `flatMap(entry => entry.data.tags)`: every tag of every entry, in order. */
  function FlatTags<T>(entries: seq<T>, tags: T -> seq<string>): (r: seq<string>)
    ensures forall i, j :: 0 <= i < |entries| && 0 <= j < |tags(entries[i])| ==> tags(entries[i])[j] in r
    ensures forall t :: t in r ==> exists i :: 0 <= i < |entries| && t in tags(entries[i])
  {
    if entries == [] then []
    else
      var rest := FlatTags(entries[1..], tags);
      assert forall i :: 1 <= i < |entries| ==> entries[i] == entries[1..][i - 1];
      tags(entries[0]) + rest
  }

  function PostTagsOf(p: Post): seq<string>
  {
    p.tags
  }

  function BookTagsOf(b: Book): seq<string>
  {
    b.tags
  }

  /** `map(tag => slugifyStr(tag))`. */
  function SlugifyEach(tags: seq<string>, slugify: string -> string): (r: seq<string>)
    ensures |r| == |tags|
    ensures forall i :: 0 <= i < |tags| ==> r[i] == slugify(tags[i])
  {
    seq(|tags|, i requires 0 <= i < |tags| => slugify(tags[i]))
  }

  /** `filter((value, index, self) => self.indexOf(value) === index)`: an element is
      kept where it first occurs. */
  function FirstOccurrences(s: seq<string>): (r: seq<string>)
    ensures forall t :: t in r <==> t in s
    ensures forall i, j :: 0 <= i < j < |r| ==> r[i] != r[j]
  {
    if s == [] then []
    else
      var init := s[..|s| - 1];
      var rest := FirstOccurrences(init);
      assert s == init + [s[|s| - 1]];
      if s[|s| - 1] in init then rest else rest + [s[|s| - 1]]
  }

  /** Inserts `x` before the first element not below it. */
  function InsertAscending(x: string, s: seq<string>): (r: seq<string>)
    requires StrictlyAscending(s) && x !in s
    ensures StrictlyAscending(r)
    ensures forall t :: t in r <==> t == x || t in s
    ensures |r| == |s| + 1
  {
    if s == [] then [x]
    else if LexLeq(x, s[0]) then
      assert forall j :: 0 <= j < |s| ==> LexLeq(x, s[j]) by {
        forall j | 0 <= j < |s| ensures LexLeq(x, s[j]) {
          if j > 0 { LexTransitive(x, s[0], s[j]); }
        }
      }
      [x] + s
    else
      LexTotal(x, s[0]);
      var rest := InsertAscending(x, s[1..]);
      assert forall t :: t in rest ==> LexLeq(s[0], t) && s[0] != t by {
        forall t | t in rest ensures LexLeq(s[0], t) && s[0] != t {
          if t != x {
            var j :| 1 <= j < |s| && s[j] == t;
          }
        }
      }
      [s[0]] + rest
  }

  /** `sort((a, b) => a.localeCompare(b))` of a list without repetitions. */
  function SortAscending(s: seq<string>): (r: seq<string>)
    requires forall i, j :: 0 <= i < j < |s| ==> s[i] != s[j]
    ensures StrictlyAscending(r)
    ensures forall t :: t in r <==> t in s
    ensures |r| == |s|
  {
    if s == [] then []
    else
      assert s[0] !in s[1..];
      InsertAscending(s[0], SortAscending(s[1..]))
  }

  /** The slugs of every tag of the kept posts, then of the kept books. */
  function CandidateSlugs(posts: seq<Post>, books: seq<Book>, isDev: bool,
                          keepBook: Book -> bool, slugify: string -> string): seq<string>
  {
    SlugifyEach(FlatTags(Filter(posts, PostFilter(isDev)), PostTagsOf) + FlatTags(Filter(books, keepBook), BookTagsOf), slugify)
  }

  function GetUniqueTags(posts: seq<Post>, books: seq<Book>, isDev: bool,
                         keepBook: Book -> bool, slugify: string -> string): (r: seq<string>)
    ensures StrictlyAscending(r)
    ensures forall i, j :: 0 <= i < j < |r| ==> r[i] != r[j]
    ensures forall t :: t in r <==> t in CandidateSlugs(posts, books, isDev, keepBook, slugify)
  {
    SortAscending(FirstOccurrences(CandidateSlugs(posts, books, isDev, keepBook, slugify)))
  }

  /** `t` is a tag of a post or a book that passes its draft filter. */
  ghost predicate KeptTag(t: string, posts: seq<Post>, books: seq<Book>, isDev: bool, keepBook: Book -> bool)
  {
    (exists p :: p in posts && FilterPostByDraft(isDev, p) && t in p.tags) ||
    (exists b :: b in books && keepBook(b) && t in b.tags)
  }

  /** Every slug of a tag of a kept post is in the result. */
  lemma {:induction false} PostSlugsIncluded(posts: seq<Post>, books: seq<Book>, isDev: bool,
                                             keepBook: Book -> bool, slugify: string -> string)
    ensures forall p, t :: p in posts && FilterPostByDraft(isDev, p) && t in p.tags
              ==> slugify(t) in GetUniqueTags(posts, books, isDev, keepBook, slugify)
  {
    var keptPosts := Filter(posts, PostFilter(isDev));
    var all := FlatTags(keptPosts, PostTagsOf) + FlatTags(Filter(books, keepBook), BookTagsOf);
    var c := CandidateSlugs(posts, books, isDev, keepBook, slugify);
    FilterCounts(posts, PostFilter(isDev));
    forall p, t | p in posts && FilterPostByDraft(isDev, p) && t in p.tags
      ensures slugify(t) in c
    {
      assert PostFilter(isDev)(p);
      assert multiset(keptPosts)[p] == multiset(posts)[p] > 0;
      var i :| 0 <= i < |keptPosts| && keptPosts[i] == p;
      var j :| 0 <= j < |p.tags| && p.tags[j] == t;
      assert PostTagsOf(keptPosts[i])[j] in FlatTags(keptPosts, PostTagsOf);
      var k :| 0 <= k < |FlatTags(keptPosts, PostTagsOf)| && FlatTags(keptPosts, PostTagsOf)[k] == t;
      assert all[k] == t;
      assert c[k] == slugify(t);
    }
  }

  /** Every slug of a tag of a kept book is in the result. */
  lemma {:induction false} BookSlugsIncluded(posts: seq<Post>, books: seq<Book>, isDev: bool,
                                             keepBook: Book -> bool, slugify: string -> string)
    ensures forall b, t :: b in books && keepBook(b) && t in b.tags
              ==> slugify(t) in GetUniqueTags(posts, books, isDev, keepBook, slugify)
  {
    var keptBooks := Filter(books, keepBook);
    var pre := FlatTags(Filter(posts, PostFilter(isDev)), PostTagsOf);
    var all := pre + FlatTags(keptBooks, BookTagsOf);
    var c := CandidateSlugs(posts, books, isDev, keepBook, slugify);
    FilterCounts(books, keepBook);
    forall b, t | b in books && keepBook(b) && t in b.tags
      ensures slugify(t) in c
    {
      assert multiset(keptBooks)[b] == multiset(books)[b] > 0;
      var i :| 0 <= i < |keptBooks| && keptBooks[i] == b;
      var j :| 0 <= j < |b.tags| && b.tags[j] == t;
      assert BookTagsOf(keptBooks[i])[j] in FlatTags(keptBooks, BookTagsOf);
      var k :| 0 <= k < |FlatTags(keptBooks, BookTagsOf)| && FlatTags(keptBooks, BookTagsOf)[k] == t;
      assert all[|pre| + k] == t;
      assert c[|pre| + k] == slugify(t);
    }
  }

  /** Every element of the result is the slug of a tag of a kept post or book. */
  lemma {:induction false} ResultSlugsAreKept(posts: seq<Post>, books: seq<Book>, isDev: bool,
                                              keepBook: Book -> bool, slugify: string -> string)
    ensures forall s :: s in GetUniqueTags(posts, books, isDev, keepBook, slugify)
              ==> exists t :: slugify(t) == s && KeptTag(t, posts, books, isDev, keepBook)
  {
    var keptPosts := Filter(posts, PostFilter(isDev));
    var keptBooks := Filter(books, keepBook);
    var all := FlatTags(keptPosts, PostTagsOf) + FlatTags(keptBooks, BookTagsOf);
    var c := CandidateSlugs(posts, books, isDev, keepBook, slugify);
    FilterCounts(posts, PostFilter(isDev));
    FilterCounts(books, keepBook);
    forall s | s in GetUniqueTags(posts, books, isDev, keepBook, slugify)
      ensures exists t :: slugify(t) == s && KeptTag(t, posts, books, isDev, keepBook)
    {
      var k :| 0 <= k < |c| && c[k] == s;
      var t := all[k];
      if k < |FlatTags(keptPosts, PostTagsOf)| {
        assert t in FlatTags(keptPosts, PostTagsOf);
        var i :| 0 <= i < |keptPosts| && t in keptPosts[i].tags;
        assert keptPosts[i] in multiset(posts);
        assert PostFilter(isDev)(keptPosts[i]);
      } else {
        assert t in FlatTags(keptBooks, BookTagsOf);
        var i :| 0 <= i < |keptBooks| && t in keptBooks[i].tags;
        assert keptBooks[i] in multiset(books);
      }
      assert KeptTag(t, posts, books, isDev, keepBook);
    }
  }

  /** Omitted arguments default to empty lists, and no entries give no tags. */
  lemma NoEntriesNoTags(isDev: bool, keepBook: Book -> bool, slugify: string -> string)
    ensures GetUniqueTags([], [], isDev, keepBook, slugify) == []
  {
  }
}
