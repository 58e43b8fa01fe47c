/** The two regular expressions that recognise credit comments, written out as the
    backtracking search the JavaScript engine performs for them:

      /<!--\s*credit:\s*(.+?)\s*-->/i   on markdown `html` nodes (its capture is the credit)
      /credit:\s*(.+)/i                 on hast `comment` nodes (only whether it matches counts)

    Each has a declarative partner (`HtmlMatch`, `CommentMatch`) that says what one
    match looks like, and lemmas tie the search to it. */
module CreditPatterns {
  import opened Lists
  import opened Text

  /** The `i` flag outside Unicode mode: no character outside ASCII folds onto an ASCII
      letter, so only `A`-`Z` fold. */
  function Lower(c: char): char
  {
    if 'A' <= c <= 'Z' then (c as int + 32) as char else c
  }

  /** The lower-case word `w` occurs at `i`, ignoring case. */
  predicate CaseInsensitiveAt(s: string, i: nat, w: string)
  {
    i + |w| <= |s| && forall j :: 0 <= j < |w| ==> Lower(s[i + j]) == w[j]
  }

  const Keyword: string := "credit:"

  predicate AllSpace(s: string, i: nat, j: nat)
    requires i <= j <= |s|
  {
    forall k :: i <= k < j ==> IsSpace(s[k])
  }

  /** `.` matches every character but a line terminator. */
  predicate NoTerminator(s: string, i: nat, j: nat)
    requires i <= j <= |s|
  {
    forall k :: i <= k < j ==> !IsLineTerminator(s[k])
  }

  // ---- /<!--\s*credit:\s*(.+?)\s*-->/i ----

  /** The start of a match at `p`: `<!--`, `n1` spaces, then the keyword. */
  ghost predicate HtmlHead(s: string, p: nat, n1: nat)
  {
    p + 4 + n1 + |Keyword| <= |s| && StartsAt(s, p, "<!--") && AllSpace(s, p + 4, p + 4 + n1)
    && CaseInsensitiveAt(s, p + 4 + n1, Keyword)
  }

  /** The rest of a match, from `b` just after the keyword: `k` spaces, a body of `len`
      characters on one line, `m` spaces, then `-->`. */
  ghost predicate HtmlTail(s: string, b: nat, k: nat, len: nat, m: nat)
  {
    b + k + len + m + 3 <= |s| && AllSpace(s, b, b + k) && len >= 1
    && NoTerminator(s, b + k, b + k + len) && AllSpace(s, b + k + len, b + k + len + m)
    && StartsAt(s, b + k + len + m, "-->")
  }

  /** One match at `p`. */
  ghost predicate HtmlMatch(s: string, p: nat, n1: nat, k: nat, len: nat, m: nat)
  {
    HtmlHead(s, p, n1) && HtmlTail(s, p + 4 + n1 + |Keyword|, k, len, m)
  }

  ghost predicate HtmlMatchesAt(s: string, p: nat)
  {
    exists n1: nat, k: nat, len: nat, m: nat :: HtmlMatch(s, p, n1, k, len, m)
  }

  /** `\s*-->` at `e`: `-->` does not start with whitespace, so the whole run is taken. */
  predicate CloseAt(s: string, e: nat)
    requires e <= |s|
  {
    StartsAt(s, e + SpaceRun(s, e), "-->")
  }

  /** After the spaces at `b`, `k` more of them, then a body of `len` that `\s*-->` follows. */
  ghost predicate BodyMatch(s: string, b: nat, k: nat, len: nat)
  {
    b + k + len <= |s| && AllSpace(s, b, b + k) && len >= 1
    && NoTerminator(s, b + k, b + k + len) && CloseAt(s, b + k + len)
  }

  /** `(.+?)` grown one character at a time from `s[c..e]`: the first end that `\s*-->` follows. */
  function LazyBody(s: string, c: nat, e: nat): (r: Option<nat>)
    requires c < e <= |s| && NoTerminator(s, c, e)
    ensures r.Some? ==> e <= r.value <= |s| && NoTerminator(s, c, r.value) && CloseAt(s, r.value)
    ensures r.Some? ==> forall x :: e <= x < r.value ==> !CloseAt(s, x)
    ensures r.None? ==> forall x :: e <= x <= |s| && NoTerminator(s, c, x) ==> !CloseAt(s, x)
    decreases |s| - e
  {
    if CloseAt(s, e) then Some(e)
    else if e < |s| && !IsLineTerminator(s[e]) then LazyBody(s, c, e + 1)
    else None
  }

  /** `(.+?)\s*-->` from `c`: the end of the shortest body, if any. */
  function BodyFrom(s: string, c: nat): (r: Option<nat>)
    requires c <= |s|
    ensures r.Some? ==> c < r.value <= |s| && NoTerminator(s, c, r.value) && CloseAt(s, r.value)
    ensures r.Some? ==> forall x :: c < x < r.value ==> !CloseAt(s, x)
    ensures r.None? ==> forall x :: c < x <= |s| && NoTerminator(s, c, x) ==> !CloseAt(s, x)
  {
    if c < |s| && !IsLineTerminator(s[c]) then LazyBody(s, c, c + 1) else None
  }

  /** `\s*(.+?)\s*-->` after the keyword, where `b + k` ends the run of spaces at `b`:
      the greedy `\s*` keeps all `k` spaces first and gives them back one at a time. */
  function CaptureFrom(s: string, b: nat, k: nat): (r: Option<string>)
    requires b + k <= |s|
    decreases k
  {
    match BodyFrom(s, b + k)
    case Some(e) => Some(s[b + k..e])
    case None => if k == 0 then None else CaptureFrom(s, b, k - 1)
  }

  /** Where the keyword must start for a match at `p`: the first `\s*` is taken whole,
      since the keyword does not start with whitespace. */
  function KeywordStart(s: string, p: nat): nat
  {
    p + 4 + SpaceRun(s, p + 4)
  }

  /** Where the spaces before the body start. */
  function KeywordEnd(s: string, p: nat): nat
  {
    KeywordStart(s, p) + |Keyword|
  }

  /** The opening and the keyword are at `p`. */
  predicate HeadAt(s: string, p: nat)
  {
    StartsAt(s, p, "<!--") && CaseInsensitiveAt(s, KeywordStart(s, p), Keyword)
  }

  /** The capture of a match starting at `p`, if one does. */
  function HtmlCaptureAt(s: string, p: nat): Option<string>
  {
    if !HeadAt(s, p) then None
    else CaptureFrom(s, KeywordEnd(s, p), SpaceRun(s, KeywordEnd(s, p)))
  }

  function HtmlCaptureFrom(s: string, p: nat): Option<string>
    requires p <= |s|
    decreases |s| - p
  {
    match HtmlCaptureAt(s, p)
    case Some(c) => Some(c)
    case None => if p == |s| then None else HtmlCaptureFrom(s, p + 1)
  }

  /** `s.match(/<!--\s*credit:\s*(.+?)\s*-->/i)`, and its first group when it matches. */
  function HtmlCreditCapture(s: string): Option<string>
  {
    HtmlCaptureFrom(s, 0)
  }

  // ---- The search agrees with the declarative matches ----

  /** The number of leading spaces is fixed by the text that follows them. */
  lemma SpaceRunIsForced(s: string, i: nat, n: nat)
    requires i + n <= |s| && AllSpace(s, i, i + n) && (i + n == |s| || !IsSpace(s[i + n]))
    ensures SpaceRun(s, i) == n
    decreases n
  {
    if n > 0 {
      SpaceRunIsForced(s, i + 1, n - 1);
    }
  }

  /** Any run of spaces at `i` lies inside the maximal one. */
  lemma SpaceRunCovers(s: string, i: nat, n: nat)
    requires i + n <= |s| && AllSpace(s, i, i + n)
    ensures n <= SpaceRun(s, i)
    decreases n
  {
    if n > 0 {
      SpaceRunCovers(s, i + 1, n - 1);
    }
  }

  lemma {:induction false} LazyBodyFinds(s: string, c: nat, e: nat, x: nat)
    requires c < e <= x <= |s| && NoTerminator(s, c, x) && CloseAt(s, x)
    ensures LazyBody(s, c, e).Some? && LazyBody(s, c, e).value <= x
    decreases x - e
  {
    if !CloseAt(s, e) {
      assert !IsLineTerminator(s[e]);
      LazyBodyFinds(s, c, e + 1, x);
    }
  }

  /** `CaptureFrom` finds something whenever some number of spaces up to `k` has a body. */
  lemma {:induction false} CaptureFromComplete(s: string, b: nat, k: nat, k': nat, len: nat)
    requires b + k <= |s| && k' <= k && BodyMatch(s, b, k', len)
    ensures CaptureFrom(s, b, k).Some?
    decreases k
  {
    if BodyFrom(s, b + k).None? && k' < k {
      CaptureFromComplete(s, b, k - 1, k', len);
    }
  }

  /** The attempt `CaptureFrom` settles on: the largest `k'` that has a body, and then
      its shortest body. */
  lemma {:induction false} CaptureFromPick(s: string, b: nat, k: nat) returns (k': nat, len: nat)
    requires b + k <= |s| && AllSpace(s, b, b + k) && CaptureFrom(s, b, k).Some?
    ensures k' <= k && BodyMatch(s, b, k', len) && CaptureFrom(s, b, k).value == s[b + k'..b + k' + len]
    ensures forall k2: nat, len2: nat :: k' < k2 <= k ==> !BodyMatch(s, b, k2, len2)
    ensures forall len2: nat :: len2 < len ==> !BodyMatch(s, b, k', len2)
    decreases k
  {
    if BodyFrom(s, b + k).Some? {
      k', len := k, BodyFrom(s, b + k).value - (b + k);
      assert CaptureFrom(s, b, k) == Some(s[b + k..b + k + len]);
      ShortestBody(s, b, k);
    } else {
      NoBody(s, b, k);
      assert CaptureFrom(s, b, k) == CaptureFrom(s, b, k - 1);
      k', len := CaptureFromPick(s, b, k - 1);
    }
  }

  lemma ShortestBody(s: string, b: nat, k: nat)
    requires b + k <= |s| && AllSpace(s, b, b + k) && BodyFrom(s, b + k).Some?
    ensures BodyMatch(s, b, k, BodyFrom(s, b + k).value - (b + k))
    ensures forall len2: nat :: len2 < BodyFrom(s, b + k).value - (b + k) ==> !BodyMatch(s, b, k, len2)
  {
    forall len2: nat | len2 < BodyFrom(s, b + k).value - (b + k) ensures !BodyMatch(s, b, k, len2) {
      if len2 >= 1 && b + k + len2 <= |s| {
        assert !CloseAt(s, b + k + len2);
      }
    }
  }

  lemma NoBody(s: string, b: nat, k: nat)
    requires b + k <= |s| && BodyFrom(s, b + k).None?
    ensures forall len2: nat :: !BodyMatch(s, b, k, len2)
  {
    forall len2: nat ensures !BodyMatch(s, b, k, len2) {
      if len2 >= 1 && b + k + len2 <= |s| && NoTerminator(s, b + k, b + k + len2) {
        assert !CloseAt(s, b + k + len2);
      }
    }
  }

  /** The search over the spaces after the keyword finds a body exactly when one exists,
      and picks the largest `k'` that has a body, then its shortest body. */
  lemma CaptureFromSound(s: string, b: nat, k: nat)
    requires b + k <= |s| && AllSpace(s, b, b + k)
    ensures CaptureFrom(s, b, k).Some? <==> exists k': nat, len: nat :: k' <= k && BodyMatch(s, b, k', len)
    ensures CaptureFrom(s, b, k).Some? ==>
      exists k': nat, len: nat :: k' <= k && BodyMatch(s, b, k', len) && CaptureFrom(s, b, k).value == s[b + k'..b + k' + len]
        && (forall k2: nat, len2: nat :: k' < k2 <= k ==> !BodyMatch(s, b, k2, len2))
        && (forall len2: nat :: len2 < len ==> !BodyMatch(s, b, k', len2))
  {
    if CaptureFrom(s, b, k).Some? {
      var k', len := CaptureFromPick(s, b, k);
    }
    if exists k': nat, len: nat :: k' <= k && BodyMatch(s, b, k', len) {
      var k': nat, len: nat :| k' <= k && BodyMatch(s, b, k', len);
      CaptureFromComplete(s, b, k, k', len);
    }
  }

  /** The head of a match is the one the search reads. */
  lemma HtmlHeadShape(s: string, p: nat, n1: nat)
    requires HtmlHead(s, p, n1)
    ensures n1 == SpaceRun(s, p + 4) && HeadAt(s, p) && KeywordEnd(s, p) == p + 4 + n1 + |Keyword|
  {
    var a := p + 4 + n1;
    assert Lower(s[a + 0]) == Keyword[0];
    SpaceRunIsForced(s, p + 4, n1);
  }

  lemma HtmlHeadOfHeadAt(s: string, p: nat)
    requires HeadAt(s, p)
    ensures HtmlHead(s, p, SpaceRun(s, p + 4))
  {
    SpaceRunMaximal(s, p + 4);
  }

  /** The tail of a match: its closing run is forced, and its leading spaces lie inside
      the maximal run. */
  lemma HtmlTailShape(s: string, b: nat, k: nat, len: nat, m: nat)
    requires HtmlTail(s, b, k, len, m)
    ensures m == SpaceRun(s, b + k + len) && BodyMatch(s, b, k, len) && k <= SpaceRun(s, b)
  {
    var e := b + k + len;
    assert s[e + m] == s[e + m..e + m + 3][0];
    SpaceRunIsForced(s, e, m);
    SpaceRunCovers(s, b, k);
  }

  lemma HtmlTailOfBody(s: string, b: nat, k: nat, len: nat)
    requires BodyMatch(s, b, k, len)
    ensures HtmlTail(s, b, k, len, SpaceRun(s, b + k + len))
  {
    var e := b + k + len;
    SpaceRunMaximal(s, e);
  }

  /** A match at `p` read through the search: its first run of spaces and its closing
      run are forced, so only `k` and the body length are free. */
  lemma HtmlMatchShape(s: string, p: nat, n1: nat, k: nat, len: nat, m: nat)
    requires HtmlMatch(s, p, n1, k, len, m)
    ensures n1 == SpaceRun(s, p + 4) && HeadAt(s, p)
    ensures k <= SpaceRun(s, KeywordEnd(s, p)) && BodyMatch(s, KeywordEnd(s, p), k, len)
    ensures m == SpaceRun(s, KeywordEnd(s, p) + k + len)
  {
    HtmlHeadShape(s, p, n1);
    HtmlTailShape(s, p + 4 + n1 + |Keyword|, k, len, m);
  }

  lemma BodyMatchGivesHtmlMatch(s: string, p: nat, k: nat, len: nat)
    requires HeadAt(s, p) && BodyMatch(s, KeywordEnd(s, p), k, len)
    ensures HtmlMatch(s, p, SpaceRun(s, p + 4), k, len, SpaceRun(s, KeywordEnd(s, p) + k + len))
  {
    HtmlHeadOfHeadAt(s, p);
    HtmlTailOfBody(s, KeywordEnd(s, p), k, len);
  }

  /** The text a match captures. */
  ghost function HtmlBody(s: string, p: nat, n1: nat, k: nat, len: nat): string
    requires p + 4 + n1 + |Keyword| + k + len <= |s|
  {
    s[p + 4 + n1 + |Keyword| + k..p + 4 + n1 + |Keyword| + k + len]
  }

  /** The match at `p` that a backtracking engine reaches first: no match at `p` keeps
      more spaces before the body, and none with as many spaces has a shorter body. */
  ghost predicate PreferredHtmlMatch(s: string, p: nat, n1: nat, k: nat, len: nat, m: nat)
  {
    HtmlMatch(s, p, n1, k, len, m)
    && (forall n1': nat, k2: nat, len2: nat, m': nat :: k < k2 ==> !HtmlMatch(s, p, n1', k2, len2, m'))
    && (forall n1': nat, len2: nat, m': nat :: len2 < len ==> !HtmlMatch(s, p, n1', k, len2, m'))
  }

  /** A match starts at `p` exactly when the search at `p` captures something, and the
      capture is the one the engine's order of attempts picks: the most leading spaces,
      then the shortest body. */
  lemma HtmlCaptureAtSpec(s: string, p: nat)
    ensures HtmlCaptureAt(s, p).Some? <==> HtmlMatchesAt(s, p)
    ensures HtmlCaptureAt(s, p).Some? ==>
      exists n1: nat, k: nat, len: nat, m: nat :: PreferredHtmlMatch(s, p, n1, k, len, m)
        && HtmlCaptureAt(s, p).value == HtmlBody(s, p, n1, k, len)
  {
    if HtmlMatchesAt(s, p) {
      var n1: nat, k: nat, len: nat, m: nat :| HtmlMatch(s, p, n1, k, len, m);
      HtmlCaptureAtComplete(s, p, n1, k, len, m);
    }
    if HtmlCaptureAt(s, p).Some? {
      HtmlCaptureAtSound(s, p);
    }
  }

  lemma HtmlCaptureAtComplete(s: string, p: nat, n1: nat, k: nat, len: nat, m: nat)
    requires HtmlMatch(s, p, n1, k, len, m)
    ensures HtmlCaptureAt(s, p).Some?
  {
    HtmlMatchShape(s, p, n1, k, len, m);
    CaptureFromComplete(s, KeywordEnd(s, p), SpaceRun(s, KeywordEnd(s, p)), k, len);
  }

  lemma HtmlCaptureAtSound(s: string, p: nat)
    requires HtmlCaptureAt(s, p).Some?
    ensures
      exists n1: nat, k: nat, len: nat, m: nat :: PreferredHtmlMatch(s, p, n1, k, len, m)
        && HtmlCaptureAt(s, p).value == HtmlBody(s, p, n1, k, len)
  {
    var k, len := HtmlCapturePick(s, p);
  }

  lemma HtmlCapturePick(s: string, p: nat) returns (k: nat, len: nat)
    requires HtmlCaptureAt(s, p).Some?
    ensures PreferredHtmlMatch(s, p, SpaceRun(s, p + 4), k, len, SpaceRun(s, KeywordEnd(s, p) + k + len))
    ensures KeywordEnd(s, p) + k + len <= |s|
      && HtmlCaptureAt(s, p).value == HtmlBody(s, p, SpaceRun(s, p + 4), k, len)
  {
    var b := KeywordEnd(s, p);
    assert HeadAt(s, p);
    SpaceRunMaximal(s, b);
    k, len := CaptureFromPick(s, b, SpaceRun(s, b));
    PreferredOfPick(s, p, k, len);
    SameSlice(s, b + k, p + 4 + SpaceRun(s, p + 4) + |Keyword| + k, len);
  }

  /** The attempt the search settles on is the preferred match. */
  lemma PreferredOfPick(s: string, p: nat, k: nat, len: nat)
    requires HeadAt(s, p) && BodyMatch(s, KeywordEnd(s, p), k, len)
    requires forall k2: nat, len2: nat :: k < k2 <= SpaceRun(s, KeywordEnd(s, p)) ==> !BodyMatch(s, KeywordEnd(s, p), k2, len2)
    requires forall len2: nat :: len2 < len ==> !BodyMatch(s, KeywordEnd(s, p), k, len2)
    ensures PreferredHtmlMatch(s, p, SpaceRun(s, p + 4), k, len, SpaceRun(s, KeywordEnd(s, p) + k + len))
  {
    BodyMatchGivesHtmlMatch(s, p, k, len);
    MoreSpacesNoMatch(s, p, k);
    ShorterBodyNoMatch(s, p, k, len);
  }

  lemma SameSlice(s: string, i: nat, j: nat, n: nat)
    requires i == j && i + n <= |s|
    ensures s[i..i + n] == s[j..j + n]
  {
  }

  lemma MoreSpacesNoMatch(s: string, p: nat, k: nat)
    requires forall k2: nat, len2: nat :: k < k2 <= SpaceRun(s, KeywordEnd(s, p)) ==> !BodyMatch(s, KeywordEnd(s, p), k2, len2)
    ensures forall n1': nat, k2: nat, len2: nat, m': nat :: k < k2 ==> !HtmlMatch(s, p, n1', k2, len2, m')
  {
    forall n1': nat, k2: nat, len2: nat, m': nat | k < k2 ensures !HtmlMatch(s, p, n1', k2, len2, m') {
      if HtmlMatch(s, p, n1', k2, len2, m') {
        HtmlMatchShape(s, p, n1', k2, len2, m');
      }
    }
  }

  lemma ShorterBodyNoMatch(s: string, p: nat, k: nat, len: nat)
    requires forall len2: nat :: len2 < len ==> !BodyMatch(s, KeywordEnd(s, p), k, len2)
    ensures forall n1': nat, len2: nat, m': nat :: len2 < len ==> !HtmlMatch(s, p, n1', k, len2, m')
  {
    forall n1': nat, len2: nat, m': nat | len2 < len ensures !HtmlMatch(s, p, n1', k, len2, m') {
      if HtmlMatch(s, p, n1', k, len2, m') {
        HtmlMatchShape(s, p, n1', k, len2, m');
      }
    }
  }

  lemma {:induction false} HtmlCaptureFromSpec(s: string, p: nat)
    requires p <= |s|
    ensures HtmlCaptureFrom(s, p).Some? <==> exists q: nat :: p <= q <= |s| && HtmlMatchesAt(s, q)
    ensures HtmlCaptureFrom(s, p).Some? ==>
      exists q: nat :: p <= q <= |s| && HtmlCaptureFrom(s, p) == HtmlCaptureAt(s, q)
        && (forall q': nat :: p <= q' < q ==> !HtmlMatchesAt(s, q'))
    decreases |s| - p
  {
    HtmlCaptureAtSpec(s, p);
    if HtmlCaptureAt(s, p).None? && p < |s| {
      HtmlCaptureFromSpec(s, p + 1);
      forall q: nat | p <= q <= |s| && HtmlMatchesAt(s, q) ensures p + 1 <= q {
      }
    }
  }

  /** A match is found where one exists. */
  lemma HtmlCreditMatchIff(s: string)
    ensures HtmlCreditCapture(s).Some? <==> exists p: nat :: HtmlMatchesAt(s, p)
  {
    HtmlCaptureFromSpec(s, 0);
    if exists p: nat :: HtmlMatchesAt(s, p) {
      var p: nat :| HtmlMatchesAt(s, p);
      var n1: nat, k: nat, len: nat, m: nat :| HtmlMatch(s, p, n1, k, len, m);
      assert p <= |s|;
    }
  }

  /** The capture comes from the leftmost match, as `String.prototype.match` does. */
  lemma HtmlCreditLeftmost(s: string)
    ensures HtmlCreditCapture(s).Some? ==>
      exists p: nat :: p <= |s| && HtmlCreditCapture(s) == HtmlCaptureAt(s, p)
        && HtmlMatchesAt(s, p) && forall q: nat :: q < p ==> !HtmlMatchesAt(s, q)
  {
    HtmlCaptureFromSpec(s, 0);
    if HtmlCreditCapture(s).Some? {
      var p: nat :| p <= |s| && HtmlCaptureFrom(s, 0) == HtmlCaptureAt(s, p)
        && (forall q': nat :: q' < p ==> !HtmlMatchesAt(s, q'));
      HtmlCaptureAtSpec(s, p);
    }
  }

  // ---- /credit:\s*(.+)/i ----

  /** One match at `q`: the keyword, `k` spaces, then a body of `len` characters on one line. */
  ghost predicate CommentMatch(s: string, q: nat, k: nat, len: nat)
  {
    var c := q + |Keyword| + k;
    c + len <= |s| && CaseInsensitiveAt(s, q, Keyword) && AllSpace(s, q + |Keyword|, c)
    && len >= 1 && NoTerminator(s, c, c + len)
  }

  /** A character that `.` accepts, `k` places after `b`. */
  predicate BodyStartAt(s: string, b: nat, k: nat)
  {
    b + k < |s| && !IsLineTerminator(s[b + k])
  }

  /** `\s*(.+)` at `b`, the run of spaces cut back from `k`: `.+` needs one character
      that is not a line terminator. */
  function SomeBodyFrom(s: string, b: nat, k: nat): (r: bool)
    requires b + k <= |s|
    decreases k
  {
    BodyStartAt(s, b, k) || (k > 0 && SomeBodyFrom(s, b, k - 1))
  }

  predicate CommentMatchAt(s: string, q: nat)
  {
    CaseInsensitiveAt(s, q, Keyword)
    && SomeBodyFrom(s, q + |Keyword|, SpaceRun(s, q + |Keyword|))
  }

  function CommentCreditFrom(s: string, q: nat): bool
    requires q <= |s|
    decreases |s| - q
  {
    CommentMatchAt(s, q) || (q < |s| && CommentCreditFrom(s, q + 1))
  }

  /** Whether `s.match(/credit:\s*(.+)/i)` is not null. */
  predicate IsCommentCredit(s: string)
  {
    CommentCreditFrom(s, 0)
  }

  lemma {:induction false} SomeBodyFromSpec(s: string, b: nat, k: nat)
    requires b + k <= |s| && AllSpace(s, b, b + k)
    ensures SomeBodyFrom(s, b, k) <==> exists k': nat :: k' <= k && BodyStartAt(s, b, k')
    decreases k
  {
    if k > 0 {
      SomeBodyFromSpec(s, b, k - 1);
    }
  }

  ghost predicate CommentMatchesAt(s: string, q: nat)
  {
    exists k: nat, len: nat :: CommentMatch(s, q, k, len)
  }

  lemma CommentMatchAtSpec(s: string, q: nat)
    ensures CommentMatchAt(s, q) <==> CommentMatchesAt(s, q)
  {
    if CaseInsensitiveAt(s, q, Keyword) {
      var b := q + |Keyword|;
      var K := SpaceRun(s, b);
      SpaceRunMaximal(s, b);
      SomeBodyFromSpec(s, b, K);
      if CommentMatchAt(s, q) {
        var k: nat :| k <= K && BodyStartAt(s, b, k);
        assert CommentMatch(s, q, k, 1);
      }
      if CommentMatchesAt(s, q) {
        var k: nat, len: nat :| CommentMatch(s, q, k, len);
        SpaceRunCovers(s, b, k);
        assert BodyStartAt(s, b, k);
      }
    }
  }

  /** The scan from `q` reaches every later position. */
  lemma {:induction false} CommentCreditFromFinds(s: string, q: nat, q': nat)
    requires q <= q' <= |s| && CommentMatchAt(s, q')
    ensures CommentCreditFrom(s, q)
    decreases q' - q
  {
    if q < q' {
      CommentCreditFromFinds(s, q + 1, q');
    }
  }

  /** The scan from `q` succeeds only at some position it reaches. */
  lemma {:induction false} CommentCreditFromWitness(s: string, q: nat) returns (q': nat)
    requires q <= |s| && CommentCreditFrom(s, q)
    ensures q <= q' <= |s| && CommentMatchAt(s, q')
    decreases |s| - q
  {
    if CommentMatchAt(s, q) {
      q' := q;
    } else {
      q' := CommentCreditFromWitness(s, q + 1);
    }
  }

  /** The comment pattern matches exactly when some match exists. */
  lemma CommentCreditIff(s: string)
    ensures IsCommentCredit(s) <==> exists q: nat, k: nat, len: nat :: CommentMatch(s, q, k, len)
  {
    if IsCommentCredit(s) {
      var q := CommentCreditFromWitness(s, 0);
      CommentMatchAtSpec(s, q);
    }
    if exists q: nat, k: nat, len: nat :: CommentMatch(s, q, k, len) {
      var q: nat, k: nat, len: nat :| CommentMatch(s, q, k, len);
      CommentMatchAtSpec(s, q);
      CommentCreditFromFinds(s, 0, q);
    }
  }
}
