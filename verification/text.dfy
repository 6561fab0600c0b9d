// Python's str.isspace() and str.strip() (no arguments), as used by the chunker.
module Text {

  /** Python's whitespace test for one character: the characters for which
      str.isspace() holds, which are also those str.strip() removes. */
  predicate IsSpace(c: char)
  {
    ('\t' <= c <= '\r')                     // \t \n \v \f \r
    || ('\U{1C}' <= c <= '\U{1F}')          // file, group, record and unit separators
    || c == ' ' || c == '\U{85}' || c == '\U{A0}' || c == '\U{1680}'
    || ('\U{2000}' <= c <= '\U{200A}')
    || c == '\U{2028}' || c == '\U{2029}' || c == '\U{202F}' || c == '\U{205F}'
    || c == '\U{3000}'
  }

  /** A string made only of whitespace (Python: `not s.strip()`). */
  predicate Blank(s: string)
  {
    forall k :: 0 <= k < |s| ==> IsSpace(s[k])
  }

  /** `s[lo..hi]` is made only of whitespace. */
  predicate BlankBetween(s: string, lo: int, hi: int)
    requires 0 <= lo <= hi <= |s|
  {
    forall k :: lo <= k < hi ==> IsSpace(s[k])
  }

  /** The first position at or after `i` that does not hold whitespace, or
      |s| when there is none. */
  function SkipForward(s: string, i: int): (n: int)
    requires 0 <= i <= |s|
    ensures i <= n <= |s|
    decreases |s| - i
  {
    if i == |s| || !IsSpace(s[i]) then i else SkipForward(s, i + 1)
  }

  /** What SkipForward skips is whitespace, and where it stops is not. */
  lemma {:induction false} SkipForwardSpec(s: string, i: int)
    requires 0 <= i <= |s|
    ensures BlankBetween(s, i, SkipForward(s, i))
    ensures SkipForward(s, i) < |s| ==> !IsSpace(s[SkipForward(s, i)])
    decreases |s| - i
  {
    if i < |s| && IsSpace(s[i]) {
      SkipForwardSpec(s, i + 1);
    }
  }

  /** The position just after the last non-whitespace character before `j`,
      or 0 when there is none. */
  function SkipBackward(s: string, j: int): (n: int)
    requires 0 <= j <= |s|
    ensures 0 <= n <= j
  {
    if j == 0 || !IsSpace(s[j - 1]) then j else SkipBackward(s, j - 1)
  }

  /** What SkipBackward skips is whitespace, and where it stops is not. */
  lemma {:induction false} SkipBackwardSpec(s: string, j: int)
    requires 0 <= j <= |s|
    ensures BlankBetween(s, SkipBackward(s, j), j)
    ensures SkipBackward(s, j) > 0 ==> !IsSpace(s[SkipBackward(s, j) - 1])
  {
    if j > 0 && IsSpace(s[j - 1]) {
      SkipBackwardSpec(s, j - 1);
    }
  }

  /** Number of leading whitespace characters. */
  function LeadingSpace(s: string): (n: int)
    ensures 0 <= n <= |s|
  {
    SkipForward(s, 0)
  }

  /** `s[a..b]` is what stripping `s` keeps: only whitespace lies outside it,
      and it neither starts nor ends with whitespace. */
  predicate IsStripOf(s: string, a: int, b: int)
  {
    0 <= a <= b <= |s| && BlankBetween(s, 0, a) && BlankBetween(s, b, |s|)
    && (a < b ==> !IsSpace(s[a]) && !IsSpace(s[b - 1]))
  }

  /** Python's `s.strip()`. */
  function Strip(s: string): (r: string)
    ensures |r| <= |s|
  {
    var i := LeadingSpace(s);
    if i == |s| then []
    else
      SkipForwardSpec(s, 0);
      SkipBackwardSpec(s, |s|);
      s[i..SkipBackward(s, |s|)]
  }

  /** What `s.strip()` keeps: a slice of `s` with only whitespace outside it,
      empty exactly when `s` is blank, and otherwise neither starting nor
      ending with whitespace. */
  lemma StripSpec(s: string)
    ensures Strip(s) == [] <==> Blank(s)
    ensures Strip(s) != [] ==> !IsSpace(Strip(s)[0]) && !IsSpace(Strip(s)[|Strip(s)| - 1])
    ensures exists a, b :: IsStripOf(s, a, b) && Strip(s) == s[a..b]
  {
    SkipForwardSpec(s, 0);
    SkipBackwardSpec(s, |s|);
    var i := LeadingSpace(s);
    if i == |s| {
      assert IsStripOf(s, |s|, |s|);
    } else {
      assert IsStripOf(s, i, SkipBackward(s, |s|));
    }
  }

  /** The strip is determined by its characterisation: whatever slice has
      only whitespace outside it and non-whitespace at both ends is it. */
  lemma StripUnique(s: string, a: int, b: int)
    requires IsStripOf(s, a, b)
    ensures Strip(s) == s[a..b]
  {
    SkipForwardSpec(s, 0);
    SkipBackwardSpec(s, |s|);
  }

  /** Stripping twice changes nothing. */
  lemma StripIdempotent(s: string)
    ensures Strip(Strip(s)) == Strip(s)
  {
    StripSpec(s);
    StripUnique(Strip(s), 0, |Strip(s)|);
  }

  /** A non-whitespace character survives stripping, at its position less
      the leading whitespace. */
  lemma StripKeeps(s: string, k: int)
    requires 0 <= k < |s| && !IsSpace(s[k])
    ensures LeadingSpace(s) <= k < LeadingSpace(s) + |Strip(s)|
    ensures Strip(s)[k - LeadingSpace(s)] == s[k]
  {
    SkipForwardSpec(s, 0);
    SkipBackwardSpec(s, |s|);
    var i := LeadingSpace(s);
    var j := SkipBackward(s, |s|);
    assert i <= k < j;
    assert Strip(s) == s[i..j];
  }

  /** Only whitespace is lost: every slice of a blank string is blank. */
  lemma BlankSlice(s: string, a: int, b: int)
    requires Blank(s) && 0 <= a <= b <= |s|
    ensures Blank(s[a..b])
  {
    assert forall k :: 0 <= k < b - a ==> s[a..b][k] == s[a + k];
  }
}
