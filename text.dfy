/** Characters and positions as ECMAScript regular expressions and string methods
    see them: the `\s` class, line terminators, and `String.prototype.trim`. */
module Text {
  import opened Lists

  /** `\s`, which is also the set `String.prototype.trim` removes: the ECMAScript
      WhiteSpace and LineTerminator code points. */
  predicate IsSpace(c: char)
  {
    c == '\t' || c == '\n' || c == '\U{000B}' || c == '\U{000C}' || c == '\r' || c == ' '
    || c == '\U{00A0}' || c == '\U{1680}' || ('\U{2000}' <= c <= '\U{200A}')
    || c == '\U{2028}' || c == '\U{2029}' || c == '\U{202F}' || c == '\U{205F}'
    || c == '\U{3000}' || c == '\U{FEFF}'
  }

  /** The characters after which `^` matches in multiline mode. */
  predicate IsLineTerminator(c: char)
  {
    c == '\n' || c == '\r' || c == '\U{2028}' || c == '\U{2029}'
  }

  /** `^` with the `m` flag. */
  predicate LineStart(s: string, i: nat)
    requires i <= |s|
  {
    i == 0 || IsLineTerminator(s[i - 1])
  }

  /** `p` occurs in `s` at position `i`. */
  predicate StartsAt(s: string, i: nat, p: string)
    decreases |p|
  {
    i + |p| <= |s| && (|p| == 0 || (s[i] == p[0] && StartsAt(s, i + 1, p[1..])))
  }

  /** `StartsAt` compares `p` with the slice of `s` at `i`. */
  lemma {:induction false} StartsAtSlice(s: string, i: nat, p: string)
    ensures StartsAt(s, i, p) <==> i + |p| <= |s| && s[i..i + |p|] == p
    decreases |p|
  {
    if i + |p| <= |s| && |p| > 0 {
      StartsAtSlice(s, i + 1, p[1..]);
      assert s[i..i + |p|] == [s[i]] + s[i + 1..i + 1 + |p[1..]|];
      assert p == [p[0]] + p[1..];
    }
  }

  /** Where `p` occurs, its characters are those of `s`. */
  lemma {:induction false} StartsAtChar(s: string, i: nat, p: string, m: nat)
    requires StartsAt(s, i, p) && m < |p|
    ensures s[i + m] == p[m]
    decreases m
  {
    if m > 0 {
      StartsAtChar(s, i + 1, p[1..], m - 1);
    }
  }

  /** An occurrence at `i` of `s` is an occurrence at the start of `s[i..]`. */
  lemma {:induction false} StartsAtSuffix(s: string, i: nat, p: string)
    requires i <= |s|
    ensures StartsAt(s[i..], 0, p) <==> StartsAt(s, i, p)
  {
    StartsAtSlice(s, i, p);
    StartsAtSlice(s[i..], 0, p);
    if i + |p| <= |s| {
      assert s[i..][0..|p|] == s[i..i + |p|];
    }
  }

  /** The first position at or after `j` where `p` occurs. */
  function FindFrom(s: string, j: nat, p: string): (r: Option<nat>)
    requires |p| > 0
    ensures r.Some? ==> j <= r.value && r.value + |p| <= |s|
    decreases |s| - j
  {
    if j + |p| > |s| then None
    else if StartsAt(s, j, p) then Some(j)
    else FindFrom(s, j + 1, p)
  }

  /** `FindFrom` finds the first occurrence, and finds one whenever there is one. */
  lemma {:induction false} FindFromFirst(s: string, j: nat, p: string)
    requires |p| > 0
    ensures FindFrom(s, j, p).Some? ==> StartsAt(s, FindFrom(s, j, p).value, p)
    ensures FindFrom(s, j, p).Some? ==> forall k :: j <= k < FindFrom(s, j, p).value ==> !StartsAt(s, k, p)
    ensures FindFrom(s, j, p).None? ==> forall k :: j <= k ==> !StartsAt(s, k, p)
    decreases |s| - j
  {
    if j + |p| <= |s| && !StartsAt(s, j, p) {
      FindFromFirst(s, j + 1, p);
    }
  }

  /** The length of the run of `c` that starts at `i`. */
  function CharRun(s: string, i: nat, c: char): (n: nat)
    ensures i + n <= |s| || n == 0
    decreases |s| - i
  {
    if i < |s| && s[i] == c then 1 + CharRun(s, i + 1, c) else 0
  }

  /** The run is all `c`, and the character after it is not `c`. */
  lemma {:induction false} CharRunMaximal(s: string, i: nat, c: char)
    ensures forall k :: i <= k < i + CharRun(s, i, c) ==> s[k] == c
    ensures i + CharRun(s, i, c) >= |s| || s[i + CharRun(s, i, c)] != c
    decreases |s| - i
  {
    if i < |s| && s[i] == c {
      CharRunMaximal(s, i + 1, c);
    }
  }

  /** The length of the run of `\s` characters that starts at `i`. */
  function SpaceRun(s: string, i: nat): (n: nat)
    ensures i + n <= |s| || n == 0
    decreases |s| - i
  {
    if i < |s| && IsSpace(s[i]) then 1 + SpaceRun(s, i + 1) else 0
  }

  /** The run is all spaces, and the character after it is not one. */
  lemma {:induction false} SpaceRunMaximal(s: string, i: nat)
    ensures forall k :: i <= k < i + SpaceRun(s, i) ==> IsSpace(s[k])
    ensures i + SpaceRun(s, i) >= |s| || !IsSpace(s[i + SpaceRun(s, i)])
    decreases |s| - i
  {
    if i < |s| && IsSpace(s[i]) {
      SpaceRunMaximal(s, i + 1);
    }
  }

  /** `String.prototype.trim`. */
  function Trim(s: string): (r: string)
    ensures r == [] || (!IsSpace(r[0]) && !IsSpace(r[|r| - 1]))
    ensures forall c :: c in r ==> c in s
  {
    if s != [] && IsSpace(s[0]) then Trim(s[1..])
    else if s != [] && IsSpace(s[|s| - 1]) then Trim(s[..|s| - 1])
    else s
  }

  /** `Trim` removes exactly a leading and a trailing run of `\s` characters: its result
      is a slice `s[i..j]` with only whitespace outside it. */
  lemma {:induction false} TrimStrips(s: string) returns (i: nat, j: nat)
    ensures i <= j <= |s| && Trim(s) == s[i..j]
    ensures forall k :: 0 <= k < i ==> IsSpace(s[k])
    ensures forall k :: j <= k < |s| ==> IsSpace(s[k])
    decreases |s|
  {
    if s != [] && IsSpace(s[0]) {
      var i', j' := TrimStrips(s[1..]);
      i, j := i' + 1, j' + 1;
      assert s[1..][i'..j'] == s[i..j];
      forall k | 0 <= k < i ensures IsSpace(s[k]) {
        if k > 0 { assert s[k] == s[1..][k - 1]; }
      }
      forall k | j <= k < |s| ensures IsSpace(s[k]) {
        assert s[k] == s[1..][k - 1];
      }
    } else if s != [] && IsSpace(s[|s| - 1]) {
      var i', j' := TrimStrips(s[..|s| - 1]);
      i, j := i', j';
      assert s[..|s| - 1][i'..j'] == s[i..j];
      forall k | j <= k < |s| ensures IsSpace(s[k]) {
        if k < |s| - 1 { assert s[k] == s[..|s| - 1][k]; }
      }
    } else {
      i, j := 0, |s|;
    }
  }
}
