/**
 * Character and string helpers that stand for the Python string methods
 * the application uses: `str.isspace` (through `str.strip`) and `str.lower`.
 */
module Text {

  /**
   * The characters CPython's `str.isspace` accepts, which is the set that
   * `str.strip()` with no argument removes: U+0009..U+000D, U+001C..U+0020,
   * U+0085, U+00A0, U+1680, U+2000..U+200A, U+2028, U+2029, U+202F, U+205F
   * and U+3000.
   */
  predicate IsSpace(c: char)
    ensures c == ' ' || c == '\t' || c == '\n' || c == '\r' ==> IsSpace(c)
    ensures 'a' <= c <= 'z' || 'A' <= c <= 'Z' || '0' <= c <= '9' || c == '.' ==> !IsSpace(c)
  {
    var n := c as int;
    (0x09 <= n <= 0x0D) || (0x1C <= n <= 0x20) || n == 0x85 || n == 0xA0 ||
    n == 0x1680 || (0x2000 <= n <= 0x200A) || n == 0x2028 || n == 0x2029 ||
    n == 0x202F || n == 0x205F || n == 0x3000
  }

  /** Every character of `s` from position `lo` up to, not including, `hi` is white space. */
  predicate SpaceBetween(s: string, lo: nat, hi: nat)
    requires lo <= hi <= |s|
  {
    forall k :: lo <= k < hi ==> IsSpace(s[k])
  }

  /** `s` neither starts nor ends with white space. */
  predicate Trimmed(s: string) {
    s == [] || (!IsSpace(s[0]) && !IsSpace(s[|s| - 1]))
  }

  /** Lower-casing of one character, on the ASCII letters. */
  function LowerChar(c: char): char {
    if 'A' <= c <= 'Z' then (c as int + ('a' as int - 'A' as int)) as char else c
  }

  /** `str.lower`, character by character, on the ASCII letters. */
  function Lower(s: string): (r: string)
    ensures |r| == |s|
    ensures forall k :: 0 <= k < |r| ==> !('A' <= r[k] <= 'Z')
    ensures forall k :: 0 <= k < |s| && !('A' <= s[k] <= 'Z') ==> r[k] == s[k]
  {
    seq(|s|, k requires 0 <= k < |s| => LowerChar(s[k]))
  }

  /**
   * The forward scan of `str.strip()`: from position `i`, skips white space
   * and stops at the first other character or at the end.
   */
  function ScanForward(s: string, i: nat): (r: nat)
    requires i <= |s|
    ensures i <= r <= |s| && SpaceBetween(s, i, r)
    ensures r < |s| ==> !IsSpace(s[r])
    decreases |s| - i
  {
    if i < |s| && IsSpace(s[i]) then ScanForward(s, i + 1) else i
  }

  /**
   * The backward scan of `str.strip()`: from end position `j`, moves back
   * over white space, but not below `lo`.
   */
  function ScanBackward(s: string, lo: nat, j: nat): (r: nat)
    requires lo <= j <= |s|
    ensures lo <= r <= j && SpaceBetween(s, r, j)
    ensures r > lo ==> !IsSpace(s[r - 1])
    decreases j
  {
    if j > lo && IsSpace(s[j - 1]) then ScanBackward(s, lo, j - 1) else j
  }

  /** `str.strip()`: the text between the two scans. */
  function Strip(s: string): (r: string)
    ensures |r| <= |s| && Trimmed(r)
  {
    var i := ScanForward(s, 0);
    var j := ScanBackward(s, i, |s|);
    s[i..j]
  }

  /**
   * Strip removes nothing but white space: its argument is an all-space
   * prefix, the result, and an all-space suffix.
   */
  lemma StripRemovesOnlySpace(s: string)
    ensures exists i, j :: 0 <= i <= j <= |s| && SpaceBetween(s, 0, i) && SpaceBetween(s, j, |s|) &&
                           Strip(s) == s[i..j]
  {
    var i := ScanForward(s, 0);
    var j := ScanBackward(s, i, |s|);
    assert Strip(s) == s[i..j];
  }

  /**
   * Strip is exactly "cut off white space at both ends": for any split of
   * `s` into an all-space prefix, a middle that is empty or neither starts
   * nor ends with space, and an all-space suffix, Strip returns that middle.
   */
  lemma StripIsTrim(s: string, i: nat, j: nat)
    requires i <= j <= |s|
    requires SpaceBetween(s, 0, i) && SpaceBetween(s, j, |s|)
    requires i < j ==> !IsSpace(s[i]) && !IsSpace(s[j - 1])
    ensures Strip(s) == s[i..j]
  {
    var a := ScanForward(s, 0);
    var b := ScanBackward(s, a, |s|);
    if i < j {
      assert a == i;
      assert b == j;
    } else {
      assert SpaceBetween(s, 0, |s|);
      assert a == |s|;
    }
  }

  /** A string made only of white space strips to the empty string. */
  lemma AllSpaceStripsToEmpty(s: string)
    requires SpaceBetween(s, 0, |s|)
    ensures Strip(s) == []
  {
    StripIsTrim(s, |s|, |s|);
  }

  /** Stripping twice is stripping once. */
  lemma StripIdempotent(s: string)
    ensures Strip(Strip(s)) == Strip(s)
  {
    StripTrimmed(Strip(s));
  }

  /** A string that has no white space at either end is left as it is. */
  lemma StripTrimmed(s: string)
    requires Trimmed(s)
    ensures Strip(s) == s
  {
    StripIsTrim(s, 0, |s|);
  }
}
