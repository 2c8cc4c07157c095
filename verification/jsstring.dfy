/** The piece of ECMAScript string behaviour the start screen relies on:
    `String.prototype.trim`, which removes white space and line terminators
    from both ends of the player's name. */
module JsString {

  /** ECMAScript WhiteSpace and LineTerminator code points: the characters `trim` strips. */
  predicate IsTrimmable(c: char) {
    || c == '\t' || c == '\n' || c == '\U{000B}' || c == '\U{000C}' || c == '\r'
    || c == ' ' || c == '\U{00A0}' || c == '\U{1680}' || ('\U{2000}' <= c <= '\U{200A}')
    || c == '\U{2028}' || c == '\U{2029}' || c == '\U{202F}' || c == '\U{205F}'
    || c == '\U{3000}' || c == '\U{FEFF}'
  }

  /** True when every character of `s` is one `trim` removes (this includes the empty string). */
  predicate IsBlank(s: string) {
    forall k :: 0 <= k < |s| ==> IsTrimmable(s[k])
  }

  /** True when `s` neither starts nor ends with a character `trim` removes. */
  predicate IsTrimmed(s: string) {
    s == [] || (!IsTrimmable(s[0]) && !IsTrimmable(s[|s| - 1]))
  }

  /** The first index at or after `i` whose character `trim` keeps, or `|s|`. */
  function SkipForward(s: string, i: nat): (n: nat)
    requires i <= |s|
    ensures i <= n <= |s|
    ensures forall k :: i <= k < n ==> IsTrimmable(s[k])
    ensures n == |s| || !IsTrimmable(s[n])
    decreases |s| - i
  {
    if i < |s| && IsTrimmable(s[i]) then SkipForward(s, i + 1) else i
  }

  /** The index just past the last character in `s[lo..j]` that `trim` keeps, or `lo`. */
  function SkipBackward(s: string, lo: nat, j: nat): (n: nat)
    requires lo <= j <= |s|
    ensures lo <= n <= j
    ensures forall k :: n <= k < j ==> IsTrimmable(s[k])
    ensures n == lo || !IsTrimmable(s[n - 1])
    decreases j
  {
    if lo < j && IsTrimmable(s[j - 1]) then SkipBackward(s, lo, j - 1) else j
  }

  /** `s.trim()`: the part of `s` between its leading and its trailing run of
      trimmable characters. */
  function Trim(s: string): (r: string)
    ensures |r| <= |s|
    ensures IsTrimmed(r)
  {
    var a := SkipForward(s, 0);
    s[a..SkipBackward(s, a, |s|)]
  }

  /** Trim removes a blank prefix and a blank suffix and keeps the rest as it is. */
  lemma TrimStripsBlankEnds(s: string) returns (i: nat, j: nat)
    ensures i <= j <= |s| && Trim(s) == s[i..j]
    ensures IsBlank(s[..i]) && IsBlank(s[j..])
  {
    i := SkipForward(s, 0);
    j := SkipBackward(s, i, |s|);
    assert forall k :: 0 <= k < i ==> s[..i][k] == s[k];
    assert forall k :: 0 <= k < |s| - j ==> s[j..][k] == s[j + k];
  }

  /** The trimmed name is empty exactly when the input is blank. */
  lemma TrimEmptyIffBlank(s: string)
    ensures Trim(s) == [] <==> IsBlank(s)
  {
    var a := SkipForward(s, 0);
    var b := SkipBackward(s, a, |s|);
    if Trim(s) == [] {
      assert a == b;
      assert a == |s|;
    }
  }

  /** A string without trimmable ends is its own trim. */
  lemma TrimOfTrimmed(s: string)
    requires IsTrimmed(s)
    ensures Trim(s) == s
  {
    assert SkipForward(s, 0) == 0;
    assert SkipBackward(s, 0, |s|) == |s|;
    assert s[0..|s|] == s;
  }

  /** Trimming twice is trimming once. */
  lemma TrimIdempotent(s: string)
    ensures Trim(Trim(s)) == Trim(s)
  {
    TrimOfTrimmed(Trim(s));
  }
}
