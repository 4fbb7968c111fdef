/**
 * The Python string operations the upload service relies on: `str.strip()`,
 * `str.lower()` on ASCII letters, finding the last or first occurrence of a
 * character, and the ordering `<=` on strings used by `list.sort`.
 */
module Text {

  /** Python's `str.isspace()` for a single character (the characters `str.strip()` removes). */
  predicate IsSpace(c: char) {
    var o := c as int;
    (9 <= o <= 13) || (0x1c <= o <= 0x20) || o == 0x85 || o == 0xa0 || o == 0x1680
    || (0x2000 <= o <= 0x200a) || o == 0x2028 || o == 0x2029 || o == 0x202f
    || o == 0x205f || o == 0x3000
  }

  /** The first position at or after `i` that does not hold whitespace, or `|s|`. */
  function SkipSpaces(s: string, i: nat): (j: nat)
    requires i <= |s|
    ensures i <= j <= |s|
    ensures forall k :: i <= k < j ==> IsSpace(s[k])
    ensures j == |s| || !IsSpace(s[j])
    decreases |s| - i
  {
    if i == |s| || !IsSpace(s[i]) then i else SkipSpaces(s, i + 1)
  }

  /** The end of `s[lo..hi]` once its trailing whitespace is dropped. */
  function SkipSpacesBack(s: string, lo: nat, hi: nat): (j: nat)
    requires lo <= hi <= |s|
    ensures lo <= j <= hi
    ensures forall k :: j <= k < hi ==> IsSpace(s[k])
    ensures j == lo || !IsSpace(s[j - 1])
    decreases hi - lo
  {
    if hi == lo || !IsSpace(s[hi - 1]) then hi else SkipSpacesBack(s, lo, hi - 1)
  }

  /**
   * Python's `s.strip()`: the slice of `s` between its leading and its
   * trailing whitespace, which neither starts nor ends with whitespace.
   */
  function Strip(s: string): (r: string)
    ensures var i := SkipSpaces(s, 0); var j := SkipSpacesBack(s, i, |s|);
      r == s[i..j]
      && (forall k :: 0 <= k < i ==> IsSpace(s[k]))
      && (forall k :: j <= k < |s| ==> IsSpace(s[k]))
    ensures r != [] ==> !IsSpace(r[0]) && !IsSpace(r[|r| - 1])
    ensures r == [] <==> forall k :: 0 <= k < |s| ==> IsSpace(s[k])
  {
    var i := SkipSpaces(s, 0);
    var j := SkipSpacesBack(s, i, |s|);
    s[i..j]
  }

  function LowerChar(c: char): (d: char)
    ensures 'A' <= c <= 'Z' ==> d as int == c as int + 32
    ensures !('A' <= c <= 'Z') ==> d == c
  {
    if 'A' <= c <= 'Z' then (c as int + 32) as char else c
  }

  /** `s.lower()` restricted to ASCII capitals, position by position. */
  function Lower(s: string): (r: string)
    ensures |r| == |s|
    ensures forall k :: 0 <= k < |s| ==> r[k] == LowerChar(s[k])
  {
    seq(|s|, k requires 0 <= k < |s| => LowerChar(s[k]))
  }

  /** Position of the last `c` in `s[..hi]`, or -1 when there is none. */
  function LastIndexBefore(s: string, c: char, hi: nat): (k: int)
    requires hi <= |s|
    ensures -1 <= k < hi
    ensures k >= 0 ==> s[k] == c
    ensures forall j :: k < j < hi ==> s[j] != c
    decreases hi
  {
    if hi == 0 then -1
    else if s[hi - 1] == c then hi - 1
    else LastIndexBefore(s, c, hi - 1)
  }

  /** Position of the last `c` in `s` (`s.rfind(c)`), or -1 when there is none. */
  function LastIndexOf(s: string, c: char): (k: int)
    ensures -1 <= k < |s|
    ensures k >= 0 ==> s[k] == c
    ensures forall j :: k < j < |s| ==> s[j] != c
  {
    LastIndexBefore(s, c, |s|)
  }

  /** Position of the first `c` in `s[i..]`, or -1 when there is none. */
  function FirstIndexFrom(s: string, c: char, i: nat): (k: int)
    requires i <= |s|
    ensures k == -1 || i <= k < |s|
    ensures k >= 0 ==> s[k] == c
    ensures forall j :: i <= j < |s| && (k == -1 || j < k) ==> s[j] != c
    decreases |s| - i
  {
    if i == |s| then -1
    else if s[i] == c then i
    else FirstIndexFrom(s, c, i + 1)
  }

  /** Position of the first `c` in `s` (`s.find(c)`), or -1 when there is none. */
  function FirstIndexOf(s: string, c: char): (k: int)
    ensures -1 <= k < |s|
    ensures k >= 0 ==> s[k] == c
    ensures forall j :: 0 <= j < |s| && (k == -1 || j < k) ==> s[j] != c
  {
    FirstIndexFrom(s, c, 0)
  }

  /** Python's `a <= b` on strings: lexicographic by code point, a prefix before its extensions. */
  predicate LexLe(a: string, b: string) {
    |a| == 0 || (|b| > 0 && (a[0] < b[0] || (a[0] == b[0] && LexLe(a[1..], b[1..]))))
  }

  /** Any two strings are ordered one way or the other. */
  lemma {:induction false} LexLeTotal(a: string, b: string)
    ensures LexLe(a, b) || LexLe(b, a)
  {
    if |a| > 0 && |b| > 0 && a[0] == b[0] { LexLeTotal(a[1..], b[1..]); }
  }

  /** The order is transitive. */
  lemma {:induction false} LexLeTransitive(a: string, b: string, c: string)
    requires LexLe(a, b) && LexLe(b, c)
    ensures LexLe(a, c)
  {
    if |a| > 0 && a[0] == b[0] && b[0] == c[0] { LexLeTransitive(a[1..], b[1..], c[1..]); }
  }
}
