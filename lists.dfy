/** Collection helpers shared by the post, book and tag utilities: JavaScript's
    `Array.prototype.filter` and its stable `Array.prototype.sort` driven by a
    numeric comparator of the form `key(b) - key(a)`. */
module Lists {

  datatype Option<T> = None | Some(value: T)

  /** `s.filter(keep)`: the elements that satisfy `keep`, in their original order. */
  function Filter<T>(s: seq<T>, keep: T -> bool): (r: seq<T>)
    ensures |r| <= |s|
    ensures forall i :: 0 <= i < |r| ==> keep(r[i])
  {
    if s == [] then []
    else if keep(s[0]) then [s[0]] + Filter(s[1..], keep)
    else Filter(s[1..], keep)
  }

  /** An element is kept as often as it occurs when it passes, and never otherwise. */
  lemma {:induction false} FilterCounts<T>(s: seq<T>, keep: T -> bool)
    ensures multiset(Filter(s, keep)) <= multiset(s)
    ensures forall x :: x in s && keep(x) ==> multiset(Filter(s, keep))[x] == multiset(s)[x]
    decreases |s|
  {
    if s != [] {
      var r := Filter(s[1..], keep);
      FilterCounts(s[1..], keep);
      assert s == [s[0]] + s[1..];
      assert multiset(s) == multiset{s[0]} + multiset(s[1..]);
      if keep(s[0]) {
        assert Filter(s, keep) == [s[0]] + r;
        assert multiset(Filter(s, keep)) == multiset{s[0]} + multiset(r);
      } else {
        assert Filter(s, keep) == r;
      }
      forall x | x in s && keep(x)
        ensures multiset(Filter(s, keep))[x] == multiset(s)[x]
      {
        if x != s[0] {
          assert x in s[1..];
        }
      }
    }
  }

  lemma FilterAppend<T>(a: seq<T>, b: seq<T>, keep: T -> bool)
    ensures Filter(a + b, keep) == Filter(a, keep) + Filter(b, keep)
    decreases |a|
  {
    if a != [] {
      assert (a + b)[1..] == a[1..] + b;
      FilterAppend(a[1..], b, keep);
    } else {
      assert a + b == b;
    }
  }

  /** `a` is obtained from `b` by deleting elements: order is preserved. */
  ghost predicate IsSubsequence<T>(a: seq<T>, b: seq<T>)
    decreases |b|
  {
    a == [] || (b != [] && ((a[0] == b[0] && IsSubsequence(a[1..], b[1..])) || IsSubsequence(a, b[1..])))
  }

  lemma {:induction false} FilterIsSubsequence<T>(s: seq<T>, keep: T -> bool)
    ensures IsSubsequence(Filter(s, keep), s)
    decreases |s|
  {
    if s != [] {
      FilterIsSubsequence(s[1..], keep);
      var rest := Filter(s[1..], keep);
      if !keep(s[0]) {
        assert Filter(s, keep) == rest;
      }
    }
  }

  /** Non-increasing by `key`: what a comparator `(a, b) => key(b) - key(a)` asks of `sort`. */
  ghost predicate SortedDesc<T>(s: seq<T>, key: T -> real)
  {
    forall i, j :: 0 <= i < j < |s| ==> key(s[i]) >= key(s[j])
  }

  /** Inserts `x` before the first element whose key is not larger than its own,
      so that `x` stays ahead of the elements with an equal key. */
  function InsertDesc<T>(x: T, s: seq<T>, key: T -> real): (r: seq<T>)
    ensures |r| == |s| + 1
    ensures r[0] == x || (s != [] && r[0] == s[0])
    ensures multiset(r) == multiset(s) + multiset{x}
    ensures SortedDesc(s, key) ==> SortedDesc(r, key)
  {
    if s == [] || key(x) >= key(s[0]) then [x] + s
    else
      var rest := InsertDesc(x, s[1..], key);
      assert s == [s[0]] + s[1..];
      [s[0]] + rest
  }

  /** The stable sort of `s`, largest key first (insertion sort). */
  function SortDesc<T>(s: seq<T>, key: T -> real): (r: seq<T>)
    ensures multiset(r) == multiset(s)
    ensures SortedDesc(r, key)
    ensures |r| == |s|
  {
    if s == [] then []
    else
      assert s == [s[0]] + s[1..];
      InsertDesc(s[0], SortDesc(s[1..], key), key)
  }

  /** The elements whose key is `k`. */
  function HasKey<T>(key: T -> real, k: real): T -> bool
  {
    y => key(y) == k
  }

  /** Stability: the elements of any one key keep their input order. */
  lemma {:induction false} SortDescStable<T>(s: seq<T>, key: T -> real, k: real)
    ensures Filter(SortDesc(s, key), HasKey(key, k)) == Filter(s, HasKey(key, k))
    decreases |s|
  {
    if s != [] {
      SortDescStable(s[1..], key, k);
      InsertDescFilter(s[0], SortDesc(s[1..], key), key, k);
      assert s == [s[0]] + s[1..];
    }
  }

  lemma {:induction false} InsertDescFilter<T>(x: T, s: seq<T>, key: T -> real, k: real)
    ensures Filter(InsertDesc(x, s, key), HasKey(key, k))
         == (if key(x) == k then [x] else []) + Filter(s, HasKey(key, k))
    decreases |s|
  {
    var p := HasKey(key, k);
    var r := InsertDesc(x, s, key);
    if s == [] || key(x) >= key(s[0]) {
      assert r == [x] + s;
      assert r[1..] == s;
    } else {
      InsertDescFilter(x, s[1..], key, k);
      assert r == [s[0]] + InsertDesc(x, s[1..], key);
      assert r[1..] == InsertDesc(x, s[1..], key);
      assert key(s[0]) != k || key(x) != k;
      assert Filter(s, p) == (if p(s[0]) then [s[0]] else []) + Filter(s[1..], p);
    }
  }
}
