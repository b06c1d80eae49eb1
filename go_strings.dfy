/**
 * The two functions of Go's `strings` package that the quiz relies on,
 * `strings.TrimSpace` and `strings.EqualFold`, over strings seen as sequences
 * of Unicode scalar values (Go runes of valid UTF-8 text).
 */
module GoStrings {

  /** The characters of Go's `unicode.IsSpace`: the ASCII white space characters
      (tab, line feed, vertical tab, form feed, carriage return, space), U+0085,
      U+00A0 and the other characters Unicode gives the White_Space property. */
  const SpaceChars: set<char> := {
    '\t', '\n', '\U{B}', '\U{C}', '\r', ' ', '\U{85}', '\U{A0}', '\U{1680}',
    '\U{2000}', '\U{2001}', '\U{2002}', '\U{2003}', '\U{2004}', '\U{2005}',
    '\U{2006}', '\U{2007}', '\U{2008}', '\U{2009}', '\U{200A}',
    '\U{2028}', '\U{2029}', '\U{202F}', '\U{205F}', '\U{3000}'
  }

  /** `unicode.IsSpace`. */
  predicate IsSpace(c: char) {
    c in SpaceChars
  }

  /** In the Latin-1 range the white space characters of `unicode.IsSpace` are
      exactly tab, line feed, vertical tab, form feed, carriage return, space,
      U+0085 (NEL) and U+00A0 (NBSP). */
  lemma IsSpaceLatin1(c: char)
    requires c <= '\U{FF}'
    ensures IsSpace(c) <==> c in {'\t', '\n', '\U{B}', '\U{C}', '\r', ' ', '\U{85}', '\U{A0}'}
  {
  }

  predicate AllSpace(s: string) {
    forall i :: 0 <= i < |s| ==> IsSpace(s[i])
  }

  /** Neither the first nor the last character is white space. */
  predicate Trimmed(s: string) {
    s == [] || (!IsSpace(s[0]) && !IsSpace(s[|s| - 1]))
  }

  /** Every character of s at an index in [i, j) is white space. */
  predicate SpaceBetween(s: string, i: int, j: int) {
    forall k :: i <= k < j && 0 <= k < |s| ==> IsSpace(s[k])
  }

  /** The first index at or after i whose character is not white space, or |s|. */
  function SkipSpace(s: string, i: nat): (k: nat)
    requires i <= |s|
    ensures i <= k <= |s|
    ensures SpaceBetween(s, i, k)
    ensures k < |s| ==> !IsSpace(s[k])
    decreases |s| - i
  {
    if i < |s| && IsSpace(s[i]) then SkipSpace(s, i + 1) else i
  }

  /** Scanning back from j, but not below lo: the index just past the last
      character that is not white space, or lo. */
  function SkipSpaceBack(s: string, lo: nat, j: nat): (k: nat)
    requires lo <= j <= |s|
    ensures lo <= k <= j
    ensures SpaceBetween(s, k, j)
    ensures k > lo ==> !IsSpace(s[k - 1])
    decreases j
  {
    if j > lo && IsSpace(s[j - 1]) then SkipSpaceBack(s, lo, j - 1) else j
  }

  /** Where TrimSpace's result starts in s. */
  function TrimStart(s: string): nat {
    SkipSpace(s, 0)
  }

  /** Where TrimSpace's result ends in s. */
  function TrimEnd(s: string): (k: nat)
    ensures TrimStart(s) <= k <= |s|
  {
    SkipSpaceBack(s, TrimStart(s), |s|)
  }

  /** `strings.TrimSpace`: skip white space from the front, then from the back
      down to that start, and return what lies between. */
  function TrimSpace(s: string): (r: string)
    ensures Trimmed(r)
    ensures SpaceBetween(s, 0, TrimStart(s)) && SpaceBetween(s, TrimEnd(s), |s|)
  {
    s[TrimStart(s)..TrimEnd(s)]
  }

  /** TrimSpace(s) is the only slice of s that is trimmed and has nothing but
      white space before and after it. */
  lemma TrimSpaceUnique(s: string, lo: nat, hi: nat)
    requires lo <= hi <= |s|
    requires SpaceBetween(s, 0, lo) && SpaceBetween(s, hi, |s|)
    requires Trimmed(s[lo..hi])
    ensures TrimSpace(s) == s[lo..hi]
  {
    if lo < hi {
      assert s[lo..hi][0] == s[lo];
      assert s[lo..hi][hi - lo - 1] == s[hi - 1];
      assert TrimStart(s) == lo;
      assert TrimEnd(s) == hi;
    } else {
      assert TrimStart(s) == |s|;
    }
  }

  /** A trimmed string is left as it is. */
  lemma TrimSpaceOfTrimmed(s: string)
    requires Trimmed(s)
    ensures TrimSpace(s) == s
  {
    assert s[0..|s|] == s;
    TrimSpaceUnique(s, 0, |s|);
  }

  /** TrimSpace is idempotent. */
  lemma TrimSpaceIdempotent(s: string)
    ensures TrimSpace(TrimSpace(s)) == TrimSpace(s)
  {
    TrimSpaceOfTrimmed(TrimSpace(s));
  }

  /** TrimSpace yields the empty string exactly for strings made only of white space. */
  lemma TrimSpaceEmptyIff(s: string)
    ensures TrimSpace(s) == [] <==> AllSpace(s)
  {
    if AllSpace(s) {
      TrimSpaceUnique(s, 0, 0);
    }
  }

  /** White space around a string does not change what TrimSpace makes of it. */
  lemma TrimSpaceSurrounding(pre: string, a: string, post: string)
    requires AllSpace(pre) && AllSpace(post)
    ensures TrimSpace(pre + a + post) == TrimSpace(a)
  {
    var s := pre + a + post;
    var lo, hi := |pre| + TrimStart(a), |pre| + TrimEnd(a);
    assert forall k :: 0 <= k < |pre| ==> s[k] == pre[k];
    assert forall k :: |pre| <= k < |pre| + |a| ==> s[k] == a[k - |pre|];
    assert forall k :: |pre| + |a| <= k < |s| ==> s[k] == post[k - |pre| - |a|];
    assert s[lo..hi] == TrimSpace(a);
    assert SpaceBetween(s, 0, lo) by {
      assert SpaceBetween(a, 0, TrimStart(a));
    }
    assert SpaceBetween(s, hi, |s|) by {
      assert SpaceBetween(a, TrimEnd(a), |a|);
    }
    TrimSpaceUnique(s, lo, hi);
  }

  /** Simple case folding, restricted to ASCII: A-Z become a-z, every other character stays. */
  function FoldChar(c: char): char {
    if 'A' <= c <= 'Z' then (c as int + 32) as char else c
  }

  /** s has no upper-case ASCII letter. */
  predicate NoUpper(s: string) {
    forall i :: 0 <= i < |s| ==> !('A' <= s[i] <= 'Z')
  }

  /** `strings.EqualFold`: compared rune by rune, s and t have the same length
      and fold to the same character at every position. */
  predicate EqualFold(s: string, t: string)
    ensures s == t ==> EqualFold(s, t)
    ensures EqualFold(s, t) ==> |s| == |t|
    ensures NoUpper(s) && NoUpper(t) ==> (EqualFold(s, t) <==> s == t)
  {
    |s| == |t| && forall i :: 0 <= i < |s| ==> FoldChar(s[i]) == FoldChar(t[i])
  }

  /** EqualFold is an equivalence relation. */
  lemma EqualFoldEquivalence(s: string, t: string, u: string)
    ensures EqualFold(s, s)
    ensures EqualFold(s, t) <==> EqualFold(t, s)
    ensures EqualFold(s, t) && EqualFold(t, u) ==> EqualFold(s, u)
  {
  }
}
