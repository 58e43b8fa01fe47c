/** `getReadingTime`: strip markdown syntax with a fixed chain of global regular
    expression replacements, count the whitespace-separated words that remain, and
    turn the count into whole minutes, never fewer than one.

    Each regular expression of the chain is one `Rule`; `MatchAt` says, as the
    JavaScript regular expression engine does for that one pattern, whether a match
    starts at a position and where it ends, and `ReplaceFrom` is `String.prototype.replace`
    with the global flag: scan left to right, replace each match, and resume after it. */
module ReadingTime {
  import opened Lists
  import opened Text

  const DefaultWordsPerMinute: nat := 200

  /** The regular expressions of the chain. */
  datatype Rule =
    | Fence                                        // /```[\s\S]*?```/g
    | Pair(open: string, close: string, keep: bool) // /O([^c]*)C/g, c the first character of C
    | Link(open: string, keep: bool)               // /O([^\]]*)\]\([^\)]*\)/g
    | Heading                                      // /#{1,6}\s+/g
    | ListMarker                                   // /^[\s]*[-*+]\s+/gm
    | Quote                                        // /^>\s+/gm
    | HorizontalRule                               // /^---+$/gm
    | Spaces                                       // /\s+/g, replaced by " "

  ghost predicate ValidRule(rule: Rule)
  {
    (rule.Pair? ==> |rule.open| > 0 && |rule.close| > 0) && (rule.Link? ==> |rule.open| > 0)
  }

  /** A match: the text that replaces it and the position after it. */
  datatype Hit = Hit(replacement: string, end: nat)

  /** Every match is non-empty and ends inside the text. */
  ghost predicate GoodHit(h: Option<Hit>, s: string, i: nat)
    requires i <= |s|
  {
    h.Some? ==> i < h.value.end <= |s|
  }

  /** A replacement is made of the matched characters or of spaces. */
  ghost predicate FromMatch(h: Option<Hit>, s: string, i: nat)
    requires i <= |s| && GoodHit(h, s, i)
  {
    h.Some? ==> forall c :: c in h.value.replacement ==> c == ' ' || c in s[i..h.value.end]
  }

  /** A match found at the start of `s[n..]`, seen in `s`. */
  function Moved(h: Option<Hit>, n: nat): (r: Option<Hit>)
    ensures r.Some? <==> h.Some?
  {
    if h.Some? then Some(Hit(h.value.replacement, n + h.value.end)) else None
  }

  /** A rule that matches at `i` of `s` as it matches at the start of `s[i..]`. */
  function Anchored(h: Option<Hit>, s: string, i: nat): (r: Option<Hit>)
    requires i <= |s| && (h.Some? ==> 0 < h.value.end <= |s| - i)
    ensures GoodHit(r, s, i)
  {
    Moved(h, i)
  }

  /** /```[\s\S]*?```/: the lazy body ends at the first closing fence. */
  function FenceAt(s: string, i: nat): (h: Option<Hit>)
    requires i <= |s|
    ensures GoodHit(h, s, i)
  {
    Anchored(FenceHere(s[i..]), s, i)
  }

  /** A fence match at the start of `t`. */
  function FenceHere(t: string): (h: Option<Hit>)
    ensures h.Some? ==> 0 < h.value.end <= |t|
  {
    if !StartsAt(t, 0, "```") then None
    else match FindFrom(t, 3, "```")
      case Some(k) => Some(Hit("", k + 3))
      case None => None
  }

  /** /O([^c]*)C/ where C starts with c: the body stops at the first c, where C must follow. */
  function PairAt(s: string, i: nat, open: string, close: string, keep: bool): (h: Option<Hit>)
    requires i <= |s| && |open| > 0 && |close| > 0
    ensures GoodHit(h, s, i)
  {
    Anchored(PairHere(s[i..], open, close, keep), s, i)
  }

  /** A pair match at the start of `t`. */
  function PairHere(t: string, open: string, close: string, keep: bool): (h: Option<Hit>)
    requires |open| > 0 && |close| > 0
    ensures h.Some? ==> 0 < h.value.end <= |t|
  {
    if !StartsAt(t, 0, open) then None
    else match FindFrom(t, |open|, [close[0]])
      case Some(k) => PairCloseAt(t, |open|, k, close, keep)
      case None => None
  }

  /** The end of a pair match whose body is `t[from..k]`: `C` must start at `k`. */
  function PairCloseAt(t: string, from: nat, k: nat, close: string, keep: bool): (h: Option<Hit>)
    requires from <= k <= |t| && |close| > 0
    ensures h.Some? ==> k < h.value.end <= |t|
  {
    if !StartsAt(t, k, close) then None
    else Some(Hit(if keep then t[from..k] else "", k + |close|))
  }

  /** /O([^\]]*)\]\([^\)]*\)/: text up to the first `]`, which must be followed by `(`,
      then a target up to the first `)`. */
  function LinkAt(s: string, i: nat, open: string, keep: bool): (h: Option<Hit>)
    requires i <= |s| && |open| > 0
    ensures GoodHit(h, s, i)
  {
    Anchored(LinkHere(s[i..], open, keep), s, i)
  }

  /** A link match at the start of `t`. */
  function LinkHere(t: string, open: string, keep: bool): (h: Option<Hit>)
    requires |open| > 0
    ensures h.Some? ==> 0 < h.value.end <= |t|
  {
    if !StartsAt(t, 0, open) then None
    else match FindFrom(t, |open|, "]")
      case Some(k) => LinkTargetAt(t, |open|, k, keep)
      case None => None
  }

  /** The part of a link match after its text `t[from..k]`: `](`, then a target up
      to the first `)`. */
  function LinkTargetAt(t: string, from: nat, k: nat, keep: bool): (h: Option<Hit>)
    requires from <= k <= |t|
    ensures h.Some? ==> k < h.value.end <= |t|
  {
    if !StartsAt(t, k, "](") then None
    else match FindFrom(t, k + 2, ")")
      case Some(m) => Some(Hit(if keep then t[from..k] else "", m + 1))
      case None => None
  }

  /** /#{1,6}\s+/: a run of at most six `#` (a longer run fails here and matches
      from a later `#`), then all the whitespace that follows. */
  function HeadingAt(s: string, i: nat): (h: Option<Hit>)
    requires i <= |s|
    ensures GoodHit(h, s, i)
  {
    var r := CharRun(s, i, '#');
    if 1 <= r <= 6 && i + r < |s| && IsSpace(s[i + r]) then Some(Hit("", i + r + SpaceRun(s, i + r)))
    else None
  }

  /** /^[\s]*[-*+]\s+/m: at a line start, whitespace (which may span lines), a marker,
      then whitespace. */
  function ListMarkerAt(s: string, i: nat): (h: Option<Hit>)
    requires i <= |s|
    ensures GoodHit(h, s, i)
  {
    var j := i + SpaceRun(s, i);
    if LineStart(s, i) && j + 1 < |s| && s[j] in "-*+" && IsSpace(s[j + 1])
    then Some(Hit("", j + 1 + SpaceRun(s, j + 1)))
    else None
  }

  /** /^>\s+/m. */
  function QuoteAt(s: string, i: nat): (h: Option<Hit>)
    requires i <= |s|
    ensures GoodHit(h, s, i)
  {
    if LineStart(s, i) && i + 1 < |s| && s[i] == '>' && IsSpace(s[i + 1])
    then Some(Hit("", i + 1 + SpaceRun(s, i + 1)))
    else None
  }

  /** /^---+$/m: a whole line of three or more dashes. */
  function HorizontalRuleAt(s: string, i: nat): (h: Option<Hit>)
    requires i <= |s|
    ensures GoodHit(h, s, i)
  {
    var r := CharRun(s, i, '-');
    if LineStart(s, i) && r >= 3 && (i + r == |s| || IsLineTerminator(s[i + r]))
    then Some(Hit("", i + r))
    else None
  }

  /** /\s+/ replaced by one space. */
  function SpacesAt(s: string, i: nat): (h: Option<Hit>)
    requires i <= |s|
    ensures GoodHit(h, s, i)
  {
    if i < |s| && IsSpace(s[i]) then Some(Hit(" ", i + SpaceRun(s, i))) else None
  }

  /** Whether `rule` matches at position `i` of `s`, and with what. */
  function MatchAt(rule: Rule, s: string, i: nat): (h: Option<Hit>)
    requires i <= |s| && ValidRule(rule)
    ensures GoodHit(h, s, i)
  {
    match rule
    case Fence => FenceAt(s, i)
    case Pair(open, close, keep) => PairAt(s, i, open, close, keep)
    case Link(open, keep) => LinkAt(s, i, open, keep)
    case Heading => HeadingAt(s, i)
    case ListMarker => ListMarkerAt(s, i)
    case Quote => QuoteAt(s, i)
    case HorizontalRule => HorizontalRuleAt(s, i)
    case Spaces => SpacesAt(s, i)
  }

  /** A regular expression as the scan sees it: the match that starts at a position. */
  type Matcher = (string, nat) -> Option<Hit>

  /** Every match is non-empty and ends inside the text. */
  ghost predicate Sound(m: Matcher)
  {
    forall s: string, i: nat :: i <= |s| ==> GoodHit(m(s, i), s, i)
  }

  /** `s.replace(regex, replacement)` with the global flag, from position `i` on:
      replace the match at `i` and go on after it, or keep `s[i]` and go on at `i + 1`. */
  function Scan(m: Matcher, s: string, i: nat): string
    requires i <= |s| && Sound(m)
    decreases |s| - i
  {
    if i == |s| then []
    else match m(s, i)
      case Some(h) => h.replacement + Scan(m, s, h.end)
      case None => [s[i]] + Scan(m, s, i + 1)
  }

  function MatcherOf(rule: Rule): (m: Matcher)
    requires ValidRule(rule)
    ensures Sound(m)
  {
    (s: string, i: nat) => if i <= |s| then MatchAt(rule, s, i) else None
  }

  function ReplaceFrom(rule: Rule, s: string, i: nat): string
    requires i <= |s| && ValidRule(rule)
  {
    Scan(MatcherOf(rule), s, i)
  }

  function ReplaceAll(rule: Rule, s: string): string
    requires ValidRule(rule)
  {
    ReplaceFrom(rule, s, 0)
  }

  /** The chain, in the order the source applies it. */
  const Steps: seq<Rule> := [
    Fence,                   // code blocks
    Pair("`", "`", false),   // inline code
    Pair("<", ">", false),   // HTML tags
    Link("[", true),         // links keep their text
    Link("![", false),       // images
    Heading,                 // # headers
    Pair("**", "**", true),  // bold
    Pair("*", "*", true),    // italic
    Pair("__", "__", true),
    Pair("_", "_", true),
    ListMarker,              // - * + list markers
    Quote,                   // > blockquotes
    HorizontalRule,          // --- rules
    Spaces                   // runs of whitespace become one space
  ]

  function ApplySteps(rules: seq<Rule>, s: string): string
    requires forall k :: 0 <= k < |rules| ==> ValidRule(rules[k])
  {
    if rules == [] then s
    else ApplySteps(rules[1..], ReplaceAll(rules[0], s))
  }

  lemma StepsValid()
    ensures forall k :: 0 <= k < |Steps| ==> ValidRule(Steps[k])
  {
  }

  /** The text whose words are counted. */
  function PlainText(content: string): string
  {
    StepsValid();
    PlainTextWith(Steps, content)
  }

  function PlainTextWith(rules: seq<Rule>, content: string): string
    requires forall k :: 0 <= k < |rules| ==> ValidRule(rules[k])
  {
    Trim(ApplySteps(rules, content))
  }

  /** `s.split(/\s+/)`: the pieces between maximal runs of whitespace, including an
      empty first or last piece when `s` starts or ends with whitespace. */
  function SplitSpaces(s: string): (r: seq<string>)
    ensures |r| > 0
    ensures forall k :: 0 <= k < |r| ==> forall c :: c in r[k] ==> !IsSpace(c)
    decreases |s|
  {
    match FirstSpace(s, 0)
    case None => [s]
    case Some(i) => [s[..i]] + SplitSpaces(s[i + SpaceRun(s, i)..])
  }

  /** The first whitespace position at or after `j`. */
  function FirstSpace(s: string, j: nat): (r: Option<nat>)
    ensures r.Some? ==> j <= r.value < |s| && IsSpace(s[r.value])
    ensures r.Some? ==> forall k :: j <= k < r.value ==> !IsSpace(s[k])
    ensures r.None? ==> forall k :: j <= k < |s| ==> !IsSpace(s[k])
    decreases |s| - j
  {
    if j >= |s| then None
    else if IsSpace(s[j]) then Some(j)
    else FirstSpace(s, j + 1)
  }

  function NonEmpty(): string -> bool
  {
    w => |w| > 0
  }

  /** `text.split(/\s+/).filter(word => word.length > 0).length`. */
  function WordCount(text: string): nat
  {
    |Filter(SplitSpaces(text), NonEmpty())|
  }

  /** `Math.max(1, Math.ceil(words / wordsPerMinute))` for a whole, positive rate. */
  function Minutes(words: nat, wordsPerMinute: nat): (r: nat)
    requires wordsPerMinute > 0
    ensures r >= 1
    ensures words <= wordsPerMinute ==> r == 1
    ensures words > 0 ==> (r - 1) * wordsPerMinute < words <= r * wordsPerMinute
  {
    var q := (words + wordsPerMinute - 1) / wordsPerMinute;
    CeilingBounds(words, wordsPerMinute);
    if q < 1 then 1 else q
  }

  /** `(words + w - 1) / w` is the ceiling of `words / w`. */
  lemma CeilingBounds(words: nat, w: nat)
    requires w > 0
    ensures words > 0 ==> ((words + w - 1) / w - 1) * w < words <= (words + w - 1) / w * w
    ensures words <= w ==> (words + w - 1) / w <= 1
  {
    var n := words + w - 1;
    var q := n / w;
    assert n == q * w + n % w;
    assert (q - 1) * w == q * w - w;
    if words <= w && q > 1 {
      MultiplyMonotonic(2, q, w);
    }
  }

  function GetReadingTime(content: string, wordsPerMinute: nat): (r: nat)
    requires wordsPerMinute > 0
    ensures r >= 1
  {
    Minutes(WordCount(PlainText(content)), wordsPerMinute)
  }

  function GetReadingTimeDefault(content: string): (r: nat)
    ensures r >= 1
  {
    GetReadingTime(content, DefaultWordsPerMinute)
  }

  /** More words never give fewer minutes. */
  lemma MinutesMonotonic(a: nat, b: nat, wordsPerMinute: nat)
    requires wordsPerMinute > 0 && a <= b
    ensures Minutes(a, wordsPerMinute) <= Minutes(b, wordsPerMinute)
  {
    var ra, rb := Minutes(a, wordsPerMinute), Minutes(b, wordsPerMinute);
    if rb < ra {
      assert b > wordsPerMinute;
      assert (ra - 1) * wordsPerMinute >= rb * wordsPerMinute by {
        MultiplyMonotonic(rb, ra - 1, wordsPerMinute);
      }
    }
  }

  lemma MultiplyMonotonic(x: nat, y: nat, k: nat)
    requires x <= y
    ensures x * k <= y * k
  {
  }

  // ---- Word counting ----

  /** Word starts: non-space characters whose predecessor is a space (or which come
      first when `prevSpace` holds). */
  function Starts(s: string, prevSpace: bool): nat
  {
    if s == [] then 0
    else (if prevSpace && !IsSpace(s[0]) then 1 else 0) + Starts(s[1..], IsSpace(s[0]))
  }

  lemma {:induction false} StartsAppend(p: string, q: string, b: bool)
    ensures Starts(p + q, b) == Starts(p, b) + Starts(q, if p == [] then b else IsSpace(p[|p| - 1]))
    decreases |p|
  {
    if p == [] {
      assert p + q == q;
    } else {
      assert (p + q)[1..] == p[1..] + q;
      StartsAppend(p[1..], q, IsSpace(p[0]));
    }
  }

  lemma {:induction false} StartsNoSpace(s: string, b: bool)
    requires forall c :: c in s ==> !IsSpace(c)
    ensures Starts(s, b) == if s != [] && b then 1 else 0
    decreases |s|
  {
    if s != [] {
      assert s[0] in s;
      StartsNoSpace(s[1..], false);
    }
  }

  lemma {:induction false} StartsAllSpace(s: string, b: bool)
    requires forall c :: c in s ==> IsSpace(c)
    ensures Starts(s, b) == 0
    decreases |s|
  {
    if s != [] {
      assert s[0] in s;
      StartsAllSpace(s[1..], true);
    }
  }

  /** The split-and-filter count is the number of word starts: a reference definition
      that does not go through `split`. */
  lemma {:induction false} WordCountIsStarts(s: string)
    ensures WordCount(s) == Starts(s, true)
    decreases |s|
  {
    match FirstSpace(s, 0)
    case None =>
      assert forall c :: c in s ==> !IsSpace(c);
      StartsNoSpace(s, true);
      assert SplitSpaces(s) == [s];
    case Some(i) =>
      var t := s[i + SpaceRun(s, i)..];
      WordCountSplit(s, i);
      StartsSplit(s, i);
      WordCountIsStarts(t);
  }

  /** Splitting at the first run of spaces: the piece before it counts when non-empty. */
  lemma WordCountSplit(s: string, i: nat)
    requires FirstSpace(s, 0) == Some(i)
    ensures i + SpaceRun(s, i) <= |s|
    ensures WordCount(s) == (if i > 0 then 1 else 0) + WordCount(s[i + SpaceRun(s, i)..])
  {
    var t := s[i + SpaceRun(s, i)..];
    assert SplitSpaces(s) == [s[..i]] + SplitSpaces(t);
    FilterAppend([s[..i]], SplitSpaces(t), NonEmpty());
  }

  /** The same split for word starts. */
  lemma StartsSplit(s: string, i: nat)
    requires FirstSpace(s, 0) == Some(i)
    ensures i + SpaceRun(s, i) <= |s|
    ensures Starts(s, true) == (if i > 0 then 1 else 0) + Starts(s[i + SpaceRun(s, i)..], true)
  {
    var n := SpaceRun(s, i);
    SpaceRunMaximal(s, i);
    var t := s[i + n..];
    assert s == s[..i] + (s[i..i + n] + t);
    StartsAppend(s[..i], s[i..i + n] + t, true);
    assert forall c :: c in s[..i] ==> !IsSpace(c);
    StartsNoSpace(s[..i], true);
    StartsAppend(s[i..i + n], t, if i == 0 then true else IsSpace(s[i - 1]));
    assert forall c :: c in s[i..i + n] ==> IsSpace(c);
    StartsAllSpace(s[i..i + n], if i == 0 then true else IsSpace(s[i - 1]));
  }

  // ---- The chain invents no characters except spaces ----

  /** The characters of an anchored match come from the text it covers. */
  lemma AnchoredChars(h: Option<Hit>, s: string, i: nat)
    requires i <= |s| && (h.Some? ==> 0 < h.value.end <= |s| - i)
    requires h.Some? ==> forall c :: c in h.value.replacement ==> c in s[i..][..h.value.end]
    ensures FromMatch(Anchored(h, s, i), s, i)
  {
    if h.Some? {
      assert s[i..][..h.value.end] == s[i..i + h.value.end];
    }
  }

  lemma PairChars(s: string, i: nat, open: string, close: string, keep: bool)
    requires i <= |s| && |open| > 0 && |close| > 0
    ensures FromMatch(PairAt(s, i, open, close, keep), s, i)
  {
    var t := s[i..];
    var h := PairHere(t, open, close, keep);
    if h.Some? && keep {
      var k := FindFrom(t, |open|, [close[0]]).value;
      assert h == PairCloseAt(t, |open|, k, close, keep);
      assert forall c :: c in t[|open|..k] ==> c in t[..h.value.end];
    }
    AnchoredChars(h, s, i);
  }

  lemma LinkChars(s: string, i: nat, open: string, keep: bool)
    requires i <= |s| && |open| > 0
    ensures FromMatch(LinkAt(s, i, open, keep), s, i)
  {
    var t := s[i..];
    var h := LinkHere(t, open, keep);
    if h.Some? && keep {
      var k := FindFrom(t, |open|, "]").value;
      assert h == LinkTargetAt(t, |open|, k, keep);
      assert forall c :: c in t[|open|..k] ==> c in t[..h.value.end];
    }
    AnchoredChars(h, s, i);
  }

  lemma MatchAtChars(rule: Rule, s: string, i: nat)
    requires i <= |s| && ValidRule(rule)
    ensures FromMatch(MatchAt(rule, s, i), s, i)
  {
    match rule
    case Pair(open, close, keep) => PairChars(s, i, open, close, keep);
    case Link(open, keep) => LinkChars(s, i, open, keep);
    case _ =>
  }

  /** Every match of `m` is replaced by characters it covers, or by spaces. */
  ghost predicate Faithful(m: Matcher)
  {
    forall s: string, i: nat :: i <= |s| ==> GoodHit(m(s, i), s, i) && FromMatch(m(s, i), s, i)
  }

  lemma {:induction false} ScanChars(m: Matcher, s: string, i: nat)
    requires i <= |s| && Sound(m) && Faithful(m)
    ensures forall c :: c in Scan(m, s, i) ==> c == ' ' || c in s[i..]
    decreases |s| - i
  {
    if i < |s| {
      assert FromMatch(m(s, i), s, i);
      match m(s, i)
      case Some(h) =>
        ScanChars(m, s, h.end);
        assert forall c :: c in s[h.end..] ==> c in s[i..];
        assert forall c :: c in s[i..h.end] ==> c in s[i..];
      case None =>
        ScanChars(m, s, i + 1);
        assert forall c :: c in s[i + 1..] ==> c in s[i..];
    }
  }

  lemma ReplaceFromChars(rule: Rule, s: string, i: nat)
    requires i <= |s| && ValidRule(rule)
    ensures forall c :: c in ReplaceFrom(rule, s, i) ==> c == ' ' || c in s[i..]
  {
    var m := MatcherOf(rule);
    forall s': string, i': nat | i' <= |s'| ensures GoodHit(m(s', i'), s', i') && FromMatch(m(s', i'), s', i') {
      MatchAtChars(rule, s', i');
    }
    ScanChars(m, s, i);
  }

  lemma {:induction false} ApplyStepsChars(rules: seq<Rule>, s: string)
    requires forall k :: 0 <= k < |rules| ==> ValidRule(rules[k])
    ensures forall c :: c in ApplySteps(rules, s) ==> c == ' ' || c in s
    decreases |rules|
  {
    if rules != [] {
      ReplaceFromChars(rules[0], s, 0);
      assert s[0..] == s;
      ApplyStepsChars(rules[1..], ReplaceAll(rules[0], s));
    }
  }

  /** Blank content reads in one minute. */
  lemma BlankContentIsOneMinute(content: string, wordsPerMinute: nat)
    requires wordsPerMinute > 0
    requires forall c :: c in content ==> IsSpace(c)
    ensures GetReadingTime(content, wordsPerMinute) == 1
  {
    var text := PlainText(content);
    StepsValid();
    ApplyStepsChars(Steps, content);
    assert forall c :: c in ApplySteps(Steps, content) ==> IsSpace(c);
    assert text == [];
    assert SplitSpaces(text) == [""];
    assert Filter(SplitSpaces(text), NonEmpty()) == [];
  }

  // ---- Code blocks, inline code and tags contribute no words ----

  /** A rule whose matches do not look before their start position. */
  predicate Local(rule: Rule)
  {
    rule.Fence? || rule.Pair? || rule.Link?
  }

  /** A local rule matches in `q` after a prefix `p` as it matches in `q` alone. */
  lemma MatchAtShift(rule: Rule, p: string, q: string, j: nat)
    requires Local(rule) && ValidRule(rule) && j <= |q|
    ensures MatchAt(rule, p + q, |p| + j)
         == Moved(MatchAt(rule, q, j), |p|)
  {
    assert (p + q)[|p| + j..] == q[j..];
  }

  lemma ScanHit(m: Matcher, s: string, i: nat, h: Hit)
    requires Sound(m) && i < |s| && m(s, i) == Some(h)
    ensures h.end <= |s| && Scan(m, s, i) == h.replacement + Scan(m, s, h.end)
  {
  }

  lemma ScanMiss(m: Matcher, s: string, i: nat)
    requires Sound(m) && i < |s| && m(s, i).None?
    ensures Scan(m, s, i) == [s[i]] + Scan(m, s, i + 1)
  {
  }

  /** `m` matches in `q` after the prefix `p` as it matches in `q` alone. */
  ghost predicate Shifted(m: Matcher, p: string, q: string)
  {
    forall j: nat :: j <= |q| ==> m(p + q, |p| + j) == Moved(m(q, j), |p|)
  }

  /** After a prefix `p`, such a pattern rewrites the rest as it rewrites it alone;
      `i` is the position in `p + q` of position `j` of `q`. */
  lemma {:induction false} ScanShift(m: Matcher, p: string, q: string, i: nat, j: nat)
    requires Sound(m) && Shifted(m, p, q) && j <= |q| && i == |p| + j
    ensures Scan(m, p + q, i) == Scan(m, q, j)
    decreases |q| - j
  {
    if j < |q| {
      var k := Next(m, q, j);
      ScanShift(m, p, q, |p| + k, k);
      ScanShiftStep(m, p, q, i, j);
    }
  }

  /** Where the scan goes on after position `j`. */
  function Next(m: Matcher, s: string, j: nat): (k: nat)
    requires Sound(m) && j < |s|
    ensures j < k <= |s|
  {
    match m(s, j)
    case Some(h) => h.end
    case None => j + 1
  }

  lemma ScanShiftStep(m: Matcher, p: string, q: string, i: nat, j: nat)
    requires Sound(m) && Shifted(m, p, q) && j < |q| && i == |p| + j
    requires Scan(m, p + q, |p| + Next(m, q, j)) == Scan(m, q, Next(m, q, j))
    ensures Scan(m, p + q, i) == Scan(m, q, j)
  {
    var r := m(q, j);
    assert m(p + q, i) == Moved(r, |p|);
    if r.Some? {
      ScanHit(m, q, j, r.value);
      ScanHit(m, p + q, i, Hit(r.value.replacement, |p| + r.value.end));
    } else {
      ScanMiss(m, q, j);
      ScanMiss(m, p + q, i);
      assert (p + q)[i] == q[j];
    }
  }

  /** No match starts in `s[i..j]`. */
  ghost predicate NoMatchIn(m: Matcher, s: string, i: nat, j: nat)
    requires i <= j <= |s|
    decreases j - i
  {
    i == j || (m(s, i).None? && NoMatchIn(m, s, i + 1, j))
  }

  lemma {:induction false} NoMatchInAll(m: Matcher, s: string, i: nat, j: nat)
    requires i <= j <= |s|
    requires forall k :: i <= k < j ==> m(s, k).None?
    ensures NoMatchIn(m, s, i, j)
    decreases j - i
  {
    if i < j {
      NoMatchInAll(m, s, i + 1, j);
    }
  }

  /** Where no match starts, the characters are copied. */
  lemma {:induction false} ScanCopies(m: Matcher, s: string, i: nat, j: nat)
    requires Sound(m) && i <= j <= |s| && NoMatchIn(m, s, i, j)
    ensures Scan(m, s, i) == s[i..j] + Scan(m, s, j)
    decreases j - i
  {
    if i < j {
      ScanMiss(m, s, i);
      ScanCopies(m, s, i + 1, j);
      assert s[i..j] == [s[i]] + s[i + 1..j];
    }
  }

  lemma MatcherAt(rule: Rule, s: string, i: nat)
    requires ValidRule(rule) && i <= |s|
    ensures MatcherOf(rule)(s, i) == MatchAt(rule, s, i)
  {
  }

  lemma ReplaceFromHit(rule: Rule, s: string, i: nat, h: Hit)
    requires ValidRule(rule) && i < |s| && MatchAt(rule, s, i) == Some(h)
    ensures h.end <= |s| && ReplaceFrom(rule, s, i) == h.replacement + ReplaceFrom(rule, s, h.end)
  {
    ScanHit(MatcherOf(rule), s, i, h);
  }

  lemma ReplaceFromMiss(rule: Rule, s: string, i: nat)
    requires ValidRule(rule) && i < |s| && MatchAt(rule, s, i).None?
    ensures ReplaceFrom(rule, s, i) == [s[i]] + ReplaceFrom(rule, s, i + 1)
  {
    ScanMiss(MatcherOf(rule), s, i);
  }

  /** After a prefix `p`, a local rule rewrites the rest as it rewrites it alone. */
  lemma ReplaceFromShift(rule: Rule, p: string, q: string, i: nat, j: nat)
    requires Local(rule) && ValidRule(rule) && j <= |q| && i == |p| + j
    ensures ReplaceFrom(rule, p + q, i) == ReplaceFrom(rule, q, j)
  {
    MatcherShifted(rule, p, q);
    ScanShift(MatcherOf(rule), p, q, i, j);
  }

  lemma MatcherShifted(rule: Rule, p: string, q: string)
    requires Local(rule) && ValidRule(rule)
    ensures Shifted(MatcherOf(rule), p, q)
  {
    var m := MatcherOf(rule);
    forall k: nat | k <= |q| ensures m(p + q, |p| + k) == Moved(m(q, k), |p|) {
      MatcherShiftedAt(rule, p, q, k);
    }
  }

  lemma MatcherShiftedAt(rule: Rule, p: string, q: string, k: nat)
    requires Local(rule) && ValidRule(rule) && k <= |q|
    ensures MatcherOf(rule)(p + q, |p| + k) == Moved(MatcherOf(rule)(q, k), |p|)
  {
    MatchAtShift(rule, p, q, k);
  }

  /** Where no match of `rule` starts, the characters are copied. */
  lemma ReplaceFromCopies(rule: Rule, s: string, i: nat, n: nat)
    requires ValidRule(rule) && i + n <= |s|
    requires forall k :: i <= k < i + n ==> MatchAt(rule, s, k).None?
    ensures ReplaceFrom(rule, s, i) == s[i..i + n] + ReplaceFrom(rule, s, i + n)
  {
    var m := MatcherOf(rule);
    forall k | i <= k < i + n ensures m(s, k).None? {
      MatcherAt(rule, s, k);
    }
    NoMatchInAll(m, s, i, i + n);
    ScanCopies(m, s, i, i + n);
  }

  /** A character that every match of a local rule starts with. */
  function Opener(rule: Rule): char
    requires Local(rule) && ValidRule(rule)
  {
    if rule.Fence? then '`' else rule.open[0]
  }

  lemma NoOpenerNoMatch(rule: Rule, s: string, k: nat)
    requires Local(rule) && ValidRule(rule) && k < |s| && s[k] != Opener(rule)
    ensures MatchAt(rule, s, k).None?
  {
    var open := if rule.Fence? then "```" else if rule.Pair? then rule.open else rule.open;
    assert !StartsAt(s, k, open) by {
      if k + |open| <= |s| {
        assert s[k..k + |open|][0] == s[k];
      }
    }
  }

  /** A local rule leaves a prefix in which no match starts alone, and after it
      works on the rest as on a string of its own. */
  lemma PrefixUnmatched(rule: Rule, a: string, q: string)
    requires Local(rule) && ValidRule(rule)
    requires forall k :: 0 <= k < |a| ==> MatchAt(rule, a + q, k).None?
    ensures ReplaceAll(rule, a + q) == a + ReplaceAll(rule, q)
  {
    var s := a + q;
    ReplaceFromCopies(rule, s, 0, |a|);
    assert s[0..|a|] == a;
    ReplaceFromShift(rule, a, q, |a|, 0);
  }

  /** In particular a prefix without the rule's opening character. */
  lemma PrefixUntouched(rule: Rule, a: string, q: string)
    requires Local(rule) && ValidRule(rule) && Opener(rule) !in a
    ensures ReplaceAll(rule, a + q) == a + ReplaceAll(rule, q)
  {
    var s := a + q;
    forall k | 0 <= k < |a| ensures MatchAt(rule, s, k).None? {
      assert s[k] == a[k];
      NoOpenerNoMatch(rule, s, k);
    }
    PrefixUnmatched(rule, a, q);
  }

  lemma NothingToReplace(rule: Rule, s: string)
    requires Local(rule) && ValidRule(rule) && Opener(rule) !in s
    ensures ReplaceAll(rule, s) == s
  {
    PrefixUntouched(rule, s, []);
    assert s + [] == s;
  }

  /** Deleting one delimited span at the first opener is the same as not having it:
      the rule's replacement of it is empty. */
  lemma SpanRemoved(rule: Rule, a: string, span: string, c: string)
    requires Local(rule) && ValidRule(rule) && Opener(rule) !in a
    requires |span| > 0 && MatchAt(rule, span + c, 0) == Some(Hit("", |span|))
    ensures ReplaceAll(rule, a + span + c) == ReplaceAll(rule, a + c)
  {
    PrefixUntouched(rule, a, span + c);
    PrefixUntouched(rule, a, c);
    SpanRemovedAfter(rule, a, span, c);
  }

  /** The same, for any prefix that passes the rule through untouched with or without
      the span after it. */
  lemma SpanRemovedAfter(rule: Rule, a: string, span: string, c: string)
    requires Local(rule) && ValidRule(rule)
    requires ReplaceAll(rule, a + (span + c)) == a + ReplaceAll(rule, span + c)
    requires ReplaceAll(rule, a + c) == a + ReplaceAll(rule, c)
    requires |span| > 0 && MatchAt(rule, span + c, 0) == Some(Hit("", |span|))
    ensures ReplaceAll(rule, a + span + c) == ReplaceAll(rule, a + c)
  {
    assert a + span + c == a + (span + c);
    assert ReplaceAll(rule, span + c) == ReplaceFrom(rule, span + c, |span|);
    ReplaceFromShift(rule, span, c, |span|, 0);
  }

  /** The first occurrence of a one-character pattern after a stretch without it. */
  lemma FindAfterStretch(s: string, j: nat, n: nat, pat: string)
    requires |pat| > 0 && j + n + |pat| <= |s| && s[j + n..j + n + |pat|] == pat
    requires forall k :: j <= k < j + n ==> s[k] != pat[0]
    ensures FindFrom(s, j, pat) == Some(j + n)
  {
    FindFromFirst(s, j, pat);
    StartsAtSlice(s, j + n, pat);
  }

  /** The first occurrence of a pattern after a stretch where it does not occur. */
  lemma FindAfterGap(s: string, j: nat, n: nat, pat: string)
    requires |pat| > 0 && StartsAt(s, j + n, pat)
    requires forall k :: j <= k < j + n ==> !StartsAt(s, k, pat)
    ensures FindFrom(s, j, pat) == Some(j + n)
  {
    FindFromFirst(s, j, pat);
  }

  /** No three backquotes in a row, and no backquote at the end: such a text neither
      holds a fence nor starts one that runs on into what follows it. */
  predicate NoFenceIn(x: string)
  {
    (forall k :: 0 <= k < |x| - 2 ==> !(x[k] == '`' && x[k + 1] == '`' && x[k + 2] == '`'))
    && (x == [] || x[|x| - 1] != '`')
  }

  /** Where three backquotes do not start, neither does a fence. */
  lemma NoFenceAt(s: string, k: nat)
    requires k < |s|
    requires k + 3 <= |s| ==> !(s[k] == '`' && s[k + 1] == '`' && s[k + 2] == '`')
    ensures MatchAt(Fence, s, k).None?
  {
    StartsAtSuffix(s, k, "```");
    StartsAtSlice(s, k, "```");
    if k + 3 <= |s| {
      assert s[k..k + 3][0] == s[k] && s[k..k + 3][1] == s[k + 1] && s[k..k + 3][2] == s[k + 2];
    }
  }

  /** No fence starts inside a prefix that holds none. */
  lemma NoFenceInPrefix(a: string, q: string)
    requires NoFenceIn(a)
    ensures forall k :: 0 <= k < |a| ==> MatchAt(Fence, a + q, k).None?
  {
    var s := a + q;
    forall k | 0 <= k < |a| ensures MatchAt(Fence, s, k).None? {
      if k + 2 < |a| {
        assert s[k] == a[k] && s[k + 1] == a[k + 1] && s[k + 2] == a[k + 2];
      } else {
        assert s[|a| - 1] == a[|a| - 1];
      }
      NoFenceAt(s, k);
    }
  }

  /** The lazy fence ends at the closing fence when the body holds no fence. */
  lemma FenceMatch(body: string, c: string)
    requires NoFenceIn(body)
    ensures MatchAt(Fence, "```" + body + "```" + c, 0) == Some(Hit("", |body| + 6))
  {
    var s := "```" + body + "```" + c;
    assert s[0..3] == "```";
    StartsAtSlice(s, 0, "```");
    assert s[0..] == s;
    assert s[3 + |body|..6 + |body|] == "```";
    StartsAtSlice(s, 3 + |body|, "```");
    forall k | 3 <= k < 3 + |body| ensures !StartsAt(s, k, "```") {
      StartsAtSlice(s, k, "```");
      if k + 3 <= |s| {
        assert s[k..k + 3][0] == s[k] && s[k..k + 3][1] == s[k + 1] && s[k..k + 3][2] == s[k + 2];
        if k + 3 <= 3 + |body| {
          assert s[k] == body[k - 3] && s[k + 1] == body[k - 2] && s[k + 2] == body[k - 1];
        } else {
          assert s[2 + |body|] == body[|body| - 1];
        }
      }
    }
    FindAfterGap(s, 3, |body|, "```");
    assert FenceHere(s) == Some(Hit("", |body| + 6));
  }

  lemma SingleDelimiterMatch(open: char, close: char, body: string, c: string)
    requires close !in body
    ensures MatchAt(Pair([open], [close], false), [open] + body + [close] + c, 0) == Some(Hit("", |body| + 2))
  {
    var s := [open] + body + [close] + c;
    assert s[0..] == s;
    assert StartsAt(s, 0, [open]);
    assert s[1 + |body|..2 + |body|] == [close];
    forall k | 1 <= k < 1 + |body| ensures s[k] != [close][0] {
      assert s[k] == body[k - 1];
    }
    FindAfterStretch(s, 1, |body|, [close]);
    assert StartsAt(s, 1 + |body|, [close]);
  }

  lemma {:induction false} ApplyStepsAppend(a: seq<Rule>, b: seq<Rule>, s: string)
    requires forall k :: 0 <= k < |a| ==> ValidRule(a[k])
    requires forall k :: 0 <= k < |b| ==> ValidRule(b[k])
    ensures ApplySteps(a + b, s) == ApplySteps(b, ApplySteps(a, s))
    decreases |a|
  {
    if a == [] {
      assert a + b == b;
    } else {
      assert (a + b)[1..] == a[1..] + b;
      ApplyStepsAppend(a[1..], b, ReplaceAll(a[0], s));
    }
  }

  /** Two texts that agree after the first `n` steps of a chain have the same plain text. */
  lemma AgreeAfterSteps(rules: seq<Rule>, n: nat, s1: string, s2: string)
    requires forall k :: 0 <= k < |rules| ==> ValidRule(rules[k])
    requires n <= |rules| && ApplySteps(rules[..n], s1) == ApplySteps(rules[..n], s2)
    ensures PlainTextWith(rules, s1) == PlainTextWith(rules, s2)
  {
    assert rules == rules[..n] + rules[n..];
    ApplyStepsAppend(rules[..n], rules[n..], s1);
    ApplyStepsAppend(rules[..n], rules[n..], s2);
  }

  /** Local rules whose opening characters do not occur in a prefix pass it through. */
  lemma {:induction false} PrefixThroughSteps(rules: seq<Rule>, a: string, c: string)
    requires forall k :: 0 <= k < |rules| ==> Local(rules[k]) && ValidRule(rules[k]) && Opener(rules[k]) !in a
    ensures ApplySteps(rules, a + c) == a + ApplySteps(rules, c)
    decreases |rules|
  {
    if rules != [] {
      PrefixUntouched(rules[0], a, c);
      PrefixThroughSteps(rules[1..], a, ReplaceAll(rules[0], c));
    }
  }

  /** The step at index `n` comes after the `n` before it. */
  lemma NextStep(rules: seq<Rule>, n: nat, s: string)
    requires forall k :: 0 <= k < |rules| ==> ValidRule(rules[k])
    requires n < |rules|
    ensures ApplySteps(rules[..n + 1], s) == ReplaceAll(rules[n], ApplySteps(rules[..n], s))
  {
    assert rules[..n + 1] == rules[..n] + [rules[n]];
    ApplyStepsAppend(rules[..n], [rules[n]], s);
    assert [rules[n]][1..] == [];
  }

  /** Removing a span at step `n` whose text and prefix the earlier steps pass through. */
  lemma SpanRemovedAtStep(rules: seq<Rule>, n: nat, a: string, span: string, c: string)
    requires forall k :: 0 <= k < |rules| ==> ValidRule(rules[k])
    requires n < |rules| && Local(rules[n]) && Opener(rules[n]) !in a
    requires forall k :: 0 <= k < n ==> Local(rules[k]) && Opener(rules[k]) !in a + span
    requires |span| > 0
    requires forall t: string :: MatchAt(rules[n], span + t, 0) == Some(Hit("", |span|))
    ensures PlainTextWith(rules, a + span + c) == PlainTextWith(rules, a + c)
  {
    var before := rules[..n];
    var t := ApplySteps(before, c);
    assert a + span + c == (a + span) + c;
    PrefixThroughSteps(before, a + span, c);
    forall k | 0 <= k < n ensures Opener(rules[k]) !in a {
      assert forall x :: x in a ==> x in a + span;
    }
    PrefixThroughSteps(before, a, c);
    NextStep(rules, n, a + span + c);
    NextStep(rules, n, a + c);
    assert (a + span) + t == a + span + t;
    SpanRemoved(rules[n], a, span, t);
    AgreeAfterSteps(rules, n + 1, a + span + c, a + c);
  }

  /** A fenced code block adds no words: the plain text is that of the content without it.
      The block's body holds no fence of its own, and the text before it starts none. */
  lemma FencedBlockAddsNoWords(a: string, body: string, c: string, wordsPerMinute: nat)
    requires wordsPerMinute > 0 && NoFenceIn(a) && NoFenceIn(body)
    ensures PlainText(a + ("```" + body + "```") + c) == PlainText(a + c)
    ensures GetReadingTime(a + ("```" + body + "```") + c, wordsPerMinute) == GetReadingTime(a + c, wordsPerMinute)
  {
    StepsValid();
    var span := "```" + body + "```";
    var s1, s2 := a + span + c, a + c;
    NoFenceInPrefix(a, span + c);
    PrefixUnmatched(Fence, a, span + c);
    NoFenceInPrefix(a, c);
    PrefixUnmatched(Fence, a, c);
    FenceMatch(body, c);
    assert span + c == "```" + body + "```" + c;
    SpanRemovedAfter(Fence, a, span, c);
    NextStep(Steps, 0, s1);
    NextStep(Steps, 0, s2);
    AgreeAfterSteps(Steps, 1, s1, s2);
  }

  /** No fence starts at or before the closing backquote of inline code, when the text
      before it has no backquote and the closing one does not begin three in a row. */
  lemma NoFenceAroundInlineCode(a: string, body: string, c: string)
    requires '`' !in a && '`' !in body
    requires !StartsAt(c, 0, "``") && (body == [] ==> !StartsAt(c, 0, "`"))
    ensures forall k :: 0 <= k < |a| + |body| + 2 ==> MatchAt(Fence, (a + ("`" + body + "`")) + c, k).None?
  {
    var s := (a + ("`" + body + "`")) + c;
    var close := |a| + 1 + |body|;
    assert s[|a|] == '`' && s[close] == '`';
    assert |c| >= 1 ==> s[close + 1] == c[0];
    assert |c| >= 2 ==> s[close + 2] == c[1];
    forall k | 0 <= k < close + 1 ensures MatchAt(Fence, s, k).None? {
      if k < |a| {
        assert s[k] == a[k];
      } else if k == |a| {
        if body != [] {
          assert s[k + 1] == body[0];
        }
      } else if k < close {
        assert s[k] == body[k - |a| - 1];
      }
      NoFenceAt(s, k);
    }
  }

  /** Inline code adds no words, in a text with no backquote before it; what follows
      may hold further code. */
  lemma InlineCodeAddsNoWords(a: string, body: string, c: string, wordsPerMinute: nat)
    requires wordsPerMinute > 0 && '`' !in a && '`' !in body
    requires !StartsAt(c, 0, "``") && (body == [] ==> !StartsAt(c, 0, "`"))
    ensures PlainText(a + ("`" + body + "`") + c) == PlainText(a + c)
    ensures GetReadingTime(a + ("`" + body + "`") + c, wordsPerMinute) == GetReadingTime(a + c, wordsPerMinute)
  {
    StepsValid();
    var span := "`" + body + "`";
    var s1, s2 := a + span + c, a + c;
    NoFenceAroundInlineCode(a, body, c);
    PrefixUnmatched(Fence, a + span, c);
    PrefixUntouched(Fence, a, c);
    var f := ReplaceAll(Fence, c);
    SingleDelimiterMatch('`', '`', body, f);
    assert span + f == ['`'] + body + ['`'] + f;
    SpanRemoved(Steps[1], a, span, f);
    NextStep(Steps, 0, s1);
    NextStep(Steps, 0, s2);
    NextStep(Steps, 1, s1);
    NextStep(Steps, 1, s2);
    assert Steps[..1] == [Fence];
    AgreeAfterSteps(Steps, 2, s1, s2);
  }

  /** Plain stretches `plain` with the inline code spans `code` between them. */
  function WithInlineCode(plain: seq<string>, code: seq<string>): string
    requires |plain| == |code| + 1
    decreases |code|
  {
    if code == [] then plain[0]
    else plain[0] + ("`" + code[0] + "`") + WithInlineCode(plain[1..], code[1..])
  }

  /** The plain stretches alone. */
  function Concat(plain: seq<string>): string
  {
    if plain == [] then [] else plain[0] + Concat(plain[1..])
  }

  /** Such a text never starts with two backquotes. */
  lemma WithInlineCodeStart(plain: seq<string>, code: seq<string>)
    requires |plain| == |code| + 1
    requires forall k :: 0 <= k < |plain| ==> '`' !in plain[k]
    requires forall k :: 0 <= k < |code| ==> code[k] != [] && '`' !in code[k]
    ensures !StartsAt(WithInlineCode(plain, code), 0, "``")
  {
    var t := WithInlineCode(plain, code);
    StartsAtSlice(t, 0, "``");
    if |t| >= 2 {
      assert t[0..2][0] == t[0] && t[0..2][1] == t[1];
      if code == [] {
        assert t[0] == plain[0][0];
      } else {
        var span := "`" + code[0] + "`";
        assert t == plain[0] + span + WithInlineCode(plain[1..], code[1..]);
        if plain[0] == [] {
          assert t[1] == span[1] == code[0][0];
        } else {
          assert t[0] == plain[0][0];
        }
      }
    }
  }

  /** Every inline code span of a text whose backquotes all belong to non-empty inline
      code spans adds no words: the plain text is that of the stretches between them. */
  lemma {:induction false} InlineCodeSpansAddNoWords(p: string, plain: seq<string>, code: seq<string>)
    requires '`' !in p && |plain| == |code| + 1
    requires forall k :: 0 <= k < |plain| ==> '`' !in plain[k]
    requires forall k :: 0 <= k < |code| ==> code[k] != [] && '`' !in code[k]
    ensures PlainText(p + WithInlineCode(plain, code)) == PlainText(p + Concat(plain))
    decreases |code|
  {
    if code == [] {
      assert Concat(plain) == plain[0] + Concat(plain[1..]);
      assert plain[1..] == [];
      assert Concat(plain) == plain[0];
    } else {
      var a := p + plain[0];
      var rest := WithInlineCode(plain[1..], code[1..]);
      WithInlineCodeStart(plain[1..], code[1..]);
      InlineCodeAddsNoWords(a, code[0], rest, DefaultWordsPerMinute);
      assert p + WithInlineCode(plain, code) == a + ("`" + code[0] + "`") + rest;
      InlineCodeSpansAddNoWords(a, plain[1..], code[1..]);
      assert p + Concat(plain) == a + Concat(plain[1..]);
    }
  }

  /** An HTML tag adds no words when no backquote comes before its end. */
  lemma TagAddsNoWords(a: string, body: string, c: string, wordsPerMinute: nat)
    requires wordsPerMinute > 0 && '<' !in a && '>' !in body && '`' !in a && '`' !in body
    ensures PlainText(a + ("<" + body + ">") + c) == PlainText(a + c)
    ensures GetReadingTime(a + ("<" + body + ">") + c, wordsPerMinute) == GetReadingTime(a + c, wordsPerMinute)
  {
    StepsValid();
    var span := "<" + body + ">";
    forall t: string ensures MatchAt(Steps[2], span + t, 0) == Some(Hit("", |span|)) {
      SingleDelimiterMatch('<', '>', body, t);
      assert span + t == ['<'] + body + ['>'] + t;
    }
    SpanRemovedAtStep(Steps, 2, a, span, c);
  }

  // ---- Images ----

  /** The chain with the image step ahead of the link step. */
  const IntendedSteps: seq<Rule> := [
    Fence, Pair("`", "`", false), Pair("<", ">", false),
    Link("![", false),       // images before links
    Link("[", true),
    Heading, Pair("**", "**", true), Pair("*", "*", true), Pair("__", "__", true), Pair("_", "_", true),
    ListMarker, Quote, HorizontalRule, Spaces
  ]

  /** The corrected chain differs from the source's only in the order of the link and
      image steps. */
  lemma IntendedStepsValid()
    ensures forall k :: 0 <= k < |IntendedSteps| ==> ValidRule(IntendedSteps[k])
    ensures IntendedSteps == Steps[..3] + [Steps[4], Steps[3]] + Steps[5..]
  {
  }

  lemma ImageMatch(alt: string, url: string, t: string)
    requires ']' !in alt && ')' !in url
    ensures MatchAt(Link("![", false), "![" + alt + "](" + url + ")" + t, 0) == Some(Hit("", |alt| + |url| + 5))
  {
    var s := "![" + alt + "](" + url + ")" + t;
    assert s[0..2] == "![";
    assert s[2 + |alt|..3 + |alt|] == "]";
    assert s[2 + |alt|..4 + |alt|] == "](";
    forall k | 2 <= k < 2 + |alt| ensures s[k] != "]"[0] {
      assert s[k] == alt[k - 2];
    }
    FindAfterStretch(s, 2, |alt|, "]");
    assert s[4 + |alt| + |url|..5 + |alt| + |url|] == ")";
    forall k | 4 + |alt| <= k < 4 + |alt| + |url| ensures s[k] != ")"[0] {
      assert s[k] == url[k - 4 - |alt|];
    }
    FindAfterStretch(s, 4 + |alt|, |url|, ")");
  }

  /** With the image step first, an image adds no words. */
  lemma ImageAddsNoWordsIntended(a: string, alt: string, url: string, c: string)
    requires '`' !in a && '<' !in a && '!' !in a
    requires '`' !in alt && '<' !in alt && ']' !in alt
    requires '`' !in url && '<' !in url && ')' !in url
    ensures PlainTextWith(IntendedSteps, a + ("![" + alt + "](" + url + ")") + c)
         == PlainTextWith(IntendedSteps, a + c)
  {
    IntendedStepsValid();
    var span := "![" + alt + "](" + url + ")";
    assert IntendedSteps[..3] == [Fence, Pair("`", "`", false), Pair("<", ">", false)];
    assert IntendedSteps[3] == Link("![", false);
    forall t: string ensures MatchAt(IntendedSteps[3], span + t, 0) == Some(Hit("", |span|)) {
      ImageMatch(alt, url, t);
      assert span + t == "![" + alt + "](" + url + ")" + t;
    }
    forall x | x in span ensures x != '`' && x != '<' {
      assert x in "![" || x in alt || x in "](" || x in url || x in ")";
    }
    SpanRemovedAtStep(IntendedSteps, 3, a, span, c);
  }

  /** Characters that no step of the chain reacts to. */
  predicate Plain(c: char)
  {
    !IsSpace(c) && c !in "`<[#*_-+>"
  }

  /** The rules of the chain: every delimiter pattern has a character that is not plain
      at a known place. */
  ghost predicate ChainRule(rule: Rule)
  {
    ValidRule(rule)
    && (rule.Pair? ==> !Plain(rule.open[0]))
    && (rule.Link? ==> !Plain(rule.open[|rule.open| - 1]))
  }

  lemma ChainRules(rules: seq<Rule>)
    requires rules == Steps || rules == IntendedSteps
    ensures forall k :: 0 <= k < |rules| ==> ChainRule(rules[k])
  {
  }

  lemma NotStartingWith(w: string, i: nat, open: string, m: nat)
    requires m < |open| && !Plain(open[m]) && forall c :: c in w ==> Plain(c)
    ensures !StartsAt(w, i, open)
  {
    if StartsAt(w, i, open) {
      StartsAtChar(w, i, open, m);
    }
  }

  lemma PlainNoMatch(rule: Rule, w: string, i: nat)
    requires ChainRule(rule) && i < |w| && forall c :: c in w ==> Plain(c)
    ensures MatchAt(rule, w, i).None?
  {
    assert w[i] in w;
    var t := w[i..];
    assert forall c :: c in t ==> c in w;
    match rule
    case Fence => NotStartingWith(t, 0, "```", 0);
    case Pair(open, close, keep) => NotStartingWith(t, 0, open, 0);
    case Link(open, keep) => NotStartingWith(t, 0, open, |open| - 1);
    case ListMarker => assert SpaceRun(w, i) == 0;
    case _ =>
  }

  /** A word of plain characters passes every step of the chain unchanged. */
  lemma {:induction false} PlainUnchanged(rules: seq<Rule>, w: string)
    requires forall k :: 0 <= k < |rules| ==> ValidRule(rules[k]) && ChainRule(rules[k])
    requires forall c :: c in w ==> Plain(c)
    ensures ApplySteps(rules, w) == w
    decreases |rules|
  {
    if rules != [] {
      forall i | 0 <= i < |w| ensures MatchAt(rules[0], w, i).None? {
        PlainNoMatch(rules[0], w, i);
      }
      ReplaceFromCopies(rules[0], w, 0, |w|);
      assert w[0..|w|] == w;
      assert ReplaceFrom(rules[0], w, |w|) == [];
      assert ReplaceAll(rules[0], w) == w;
      PlainUnchanged(rules[1..], w);
    }
  }

  lemma LinkMatchOnAltText()
    ensures MatchAt(Link("[", true), "[alt](u)", 0) == Some(Hit("alt", 8))
  {
    var q := "[alt](u)";
    assert StartsAt(q, 0, "[") && StartsAt(q, 4, "](");
    assert FindFrom(q, 1, "]") == Some(4) by {
      FindAfterStretch(q, 1, 3, "]");
    }
    assert FindFrom(q, 6, ")") == Some(7) by {
      FindAfterStretch(q, 6, 1, ")");
    }
    assert q[1..4] == "alt";
    assert q[0..] == q;
    assert LinkHere(q, "[", true) == LinkTargetAt(q, 1, 4, true);
  }

  lemma LinkOnImage()
    ensures ReplaceAll(Link("[", true), "![alt](u)") == "!alt"
  {
    var s, q := "![alt](u)", "[alt](u)";
    assert s == "!" + q;
    PrefixUntouched(Link("[", true), "!", q);
    LinkMatchOnAltText();
    ReplaceFromHit(Link("[", true), q, 0, Hit("alt", 8));
    assert ReplaceFrom(Link("[", true), q, 8) == [];
  }

  /** The first three steps leave a text without backquotes and `<` alone. */
  lemma EarlyStepsKeep(s: string)
    requires '`' !in s && '<' !in s
    ensures ApplySteps(Steps[..3], s) == s
  {
    var rules := [Fence, Pair("`", "`", false), Pair("<", ">", false)];
    assert Steps[..3] == rules;
    NothingToReplace(Fence, s);
    NothingToReplace(Pair("`", "`", false), s);
    NothingToReplace(Pair("<", ">", false), s);
    assert ApplySteps(rules[2..], s) == ApplySteps([], s) by {
      assert rules[2..][1..] == [];
    }
    assert ApplySteps(rules[1..], s) == ApplySteps(rules[2..], s) by {
      assert rules[1..][1..] == rules[2..];
    }
  }

  /** A text the first three steps leave alone meets the link step first. */
  lemma LinkStepFirst(s: string)
    requires '`' !in s && '<' !in s
    ensures ApplySteps(Steps[..4], s) == ReplaceAll(Link("[", true), s)
  {
    StepsValid();
    EarlyStepsKeep(s);
    NextStep(Steps, 3, s);
  }

  lemma LinkStepKeepsAltText()
    ensures ApplySteps(Steps[..4], "![alt](u)") == "!alt"
  {
    LinkStepFirst("![alt](u)");
    LinkOnImage();
  }

  /** As written, the link step runs first and keeps the alternative text of an
      image, so `![alt](u)` is read as the one word `!alt`. */
  lemma AltTextIsPlain()
    ensures forall c :: c in "!alt" ==> Plain(c)
    ensures Trim("!alt") == "!alt"
  {
    var w := "!alt";
    assert w[0] == '!' && w[3] == 't';
    assert !IsSpace(w[0]) && !IsSpace(w[3]);
  }

  lemma ImageAltTextIsCounted()
    ensures PlainText("![alt](u)") == "!alt"
    ensures WordCount(PlainText("![alt](u)")) == 1
  {
    ChainRules(Steps);
    StepsValid();
    var w := "!alt";
    AltTextIsPlain();
    LinkStepKeepsAltText();
    PlainUnchanged(Steps[..4], w);
    AgreeAfterSteps(Steps, 4, "![alt](u)", w);
    PlainUnchanged(Steps, w);
    WordCountIsStarts(w);
    StartsNoSpace(w, true);
  }
}
