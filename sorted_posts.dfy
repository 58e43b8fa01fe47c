/** `getSortedPosts`: the posts that pass the draft filter, newest first. */
module SortedPosts {
  import opened Lists
  import opened Content
  import opened Common

  /** `Math.floor(pubDatetime.getTime() / 1000)`: Dafny's `/` on `int` with a positive
      divisor rounds towards minus infinity, as `Math.floor` does, also before 1970. */
  function Seconds(ms: int): (r: int)
    ensures r * 1000 <= ms < r * 1000 + 1000
  {
    ms / 1000
  }

  /** The comparator `(a, b) => seconds(b) - seconds(a)` sorts by this key, largest first. */
  function PostKey(p: Post): real
  {
    Seconds(p.pubDatetime) as real
  }

  function GetSortedPosts(posts: seq<Post>, isDev: bool): (r: seq<Post>)
    ensures multiset(r) == multiset(Filter(posts, PostFilter(isDev)))
    ensures forall i, j :: 0 <= i < j < |r| ==> Seconds(r[i].pubDatetime) >= Seconds(r[j].pubDatetime)
    ensures !isDev ==> forall i :: 0 <= i < |r| ==> r[i].draft != Some(true)
    ensures |r| <= |posts|
  {
    var kept := Filter(posts, PostFilter(isDev));
    var r := SortDesc(kept, PostKey);
    assert forall i :: 0 <= i < |r| ==> PostFilter(isDev)(r[i]) by {
      forall i | 0 <= i < |r| ensures PostFilter(isDev)(r[i]) {
        assert r[i] in multiset(kept);
        var j :| 0 <= j < |kept| && kept[j] == r[i];
      }
    }
    r
  }

  /** Posts published within the same second compare equal, so the stable sort keeps
      them in the order in which the collection listed them. */
  lemma {:induction false} SameSecondKeepsOrder(posts: seq<Post>, isDev: bool, sec: int)
    ensures Filter(GetSortedPosts(posts, isDev), HasKey(PostKey, sec as real))
         == Filter(Filter(posts, PostFilter(isDev)), HasKey(PostKey, sec as real))
  {
    SortDescStable(Filter(posts, PostFilter(isDev)), PostKey, sec as real);
  }

  /** Every post that survives the filter is in the result as often as in the input. */
  lemma {:induction false} KeptPostsAllPresent(posts: seq<Post>, isDev: bool)
    ensures forall p :: p in posts && FilterPostByDraft(isDev, p)
              ==> multiset(GetSortedPosts(posts, isDev))[p] == multiset(posts)[p]
    ensures |GetSortedPosts(posts, isDev)| == |Filter(posts, PostFilter(isDev))|
  {
    FilterCounts(posts, PostFilter(isDev));
    var r := GetSortedPosts(posts, isDev);
    assert |r| == |multiset(r)|;
  }
}
