/** Python's `str.strip()` with no argument: removes leading and trailing whitespace. */
module Strings {

  /** The characters for which Python's `str.isspace()` holds. */
  predicate IsSpace(c: char): (b: bool)
    ensures c as int < 0x80 ==> (b <==> c in "\t\n\U{B}\U{C}\r\U{1C}\U{1D}\U{1E}\U{1F} ")
    ensures b ==> 0x09 <= c as int <= 0x3000
  {
    var n := c as int;
    (0x09 <= n <= 0x0D) || (0x1C <= n <= 0x20) || n == 0x85 || n == 0xA0 ||
    n == 0x1680 || (0x2000 <= n <= 0x200A) || n == 0x2028 || n == 0x2029 ||
    n == 0x202F || n == 0x205F || n == 0x3000
  }

  /** Every character of `s` at an index in [lo, hi) is whitespace. */
  predicate SpaceBetween(s: string, lo: nat, hi: nat)
    requires lo <= hi <= |s|
  {
    forall i :: lo <= i < hi ==> IsSpace(s[i])
  }

  /** The index of the first non-space character of `s` at or after `i` (|s| if none). */
  function SkipSpace(s: string, i: nat): (k: nat)
    requires i <= |s|
    ensures i <= k <= |s|
    ensures SpaceBetween(s, i, k)
    ensures k < |s| ==> !IsSpace(s[k])
    decreases |s| - i
  {
    if i == |s| || !IsSpace(s[i]) then i else SkipSpace(s, i + 1)
  }

  /** The end of `s[lo..hi]` once its trailing whitespace is cut away. */
  function TrimEnd(s: string, lo: nat, hi: nat): (k: nat)
    requires lo <= hi <= |s|
    ensures lo <= k <= hi
    ensures SpaceBetween(s, k, hi)
    ensures lo < k ==> !IsSpace(s[k - 1])
  {
    if hi == lo || !IsSpace(s[hi - 1]) then hi else TrimEnd(s, lo, hi - 1)
  }

  /**
   * The text with surrounding whitespace removed: a slice of `s` that starts and ends
   * with a non-space character, with only whitespace cut away on either side; it is
   * empty exactly when `s` is all whitespace.
   */
  function Strip(s: string): (r: string)
    ensures SkipSpace(s, 0) + |r| <= |s|
    ensures r == [] <==> SpaceBetween(s, 0, |s|)
    ensures r != [] ==> !IsSpace(r[0]) && !IsSpace(r[|r| - 1])
    ensures r == s[SkipSpace(s, 0)..SkipSpace(s, 0) + |r|]
    ensures SpaceBetween(s, 0, SkipSpace(s, 0)) && SpaceBetween(s, SkipSpace(s, 0) + |r|, |s|)
  {
    var a := SkipSpace(s, 0);
    var b := TrimEnd(s, a, |s|);
    assert a < |s| ==> a < b;
    s[a..b]
  }

  /** Stripping twice is the same as stripping once. */
  lemma StripIdempotent(s: string)
    ensures Strip(Strip(s)) == Strip(s)
  {
    var r := Strip(s);
    if r != [] {
      assert SkipSpace(r, 0) == 0;
      assert TrimEnd(r, 0, |r|) == |r|;
    }
  }
}
