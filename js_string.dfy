/**
 * ECMAScript strings and the two operations the market code relies on.
 *
 * A JavaScript string is a sequence of UTF-16 code units, and every
 * position in `indexOf` and `slice` counts code units: a character outside
 * the Basic Multilingual Plane takes two of them (a surrogate pair).
 * `indexOf` gives the first occurrence or -1; `slice` takes relative
 * indices, negative ones counted from the end, both clamped to the string,
 * and is empty when the start is past the end.
 */
module JsString {

  type CodeUnit = x: int | 0 <= x < 0x1_0000

  /** The text of a JavaScript string. */
  type JsText = seq<CodeUnit>

  /** The UTF-16 encoding of one character. */
  function Utf16Char(c: char): (r: JsText)
    ensures c as int < 0x1_0000 ==> r == [c as int]
    ensures 0x1_0000 <= c as int ==> |r| == 2 && 0xD800 <= r[0] < 0xDC00 && 0xDC00 <= r[1] < 0xE000
  {
    if c as int < 0x1_0000 then [c as int]
    else
      var v := c as int - 0x1_0000;
      [0xD800 + v / 0x400, 0xDC00 + v % 0x400]
  }

  /** The JavaScript string holding the text `s`. */
  function Utf16(s: string): (r: JsText)
    ensures |s| <= |r| <= 2 * |s|
  {
    if s == [] then [] else Utf16Char(s[0]) + Utf16(s[1..])
  }

  /** Text of the Basic Multilingual Plane takes one code unit per character. */
  lemma {:induction false} Utf16Bmp(s: string)
    requires forall i :: 0 <= i < |s| ==> s[i] as int < 0x1_0000
    ensures |Utf16(s)| == |s| && forall i :: 0 <= i < |s| ==> Utf16(s)[i] == s[i] as int
  {
    if s != [] {
      Utf16Bmp(s[1..]);
      assert Utf16(s) == [s[0] as int] + Utf16(s[1..]);
    }
  }

  /** `pat` occurs in `s` starting at index `i`. */
  predicate OccursAt(s: JsText, pat: JsText, i: int)
  {
    0 <= i && i + |pat| <= |s| && s[i..i + |pat|] == pat
  }

  /** Whether `pat` occurs at `j` depends only on the text up to `j + |pat|`. */
  lemma OccursInPrefix(s: JsText, head: JsText, pat: JsText, j: int)
    requires |head| <= |s| && s[..|head|] == head
    requires 0 <= j && j + |pat| <= |head|
    ensures OccursAt(s, pat, j) <==> OccursAt(head, pat, j)
  {
    forall k | j <= k < j + |pat|
      ensures s[k] == head[k]
    {
      assert s[k] == s[..|head|][k];
    }
    assert s[j..j + |pat|] == head[j..j + |pat|];
  }

  function IndexOfFrom(s: JsText, pat: JsText, from: nat): (r: int)
    requires from <= |s|
    decreases |s| - from
    ensures r == -1 || (from <= r && OccursAt(s, pat, r))
    ensures r == -1 ==> forall j :: from <= j ==> !OccursAt(s, pat, j)
    ensures r != -1 ==> forall j :: from <= j < r ==> !OccursAt(s, pat, j)
  {
    if from + |pat| > |s| then -1
    else if s[from..from + |pat|] == pat then from
    else IndexOfFrom(s, pat, from + 1)
  }

  /** `s.indexOf(pat)`: the first index where `pat` occurs, or -1. */
  function IndexOf(s: JsText, pat: JsText): (r: int)
    ensures -1 <= r
    ensures r == -1 <==> forall j :: !OccursAt(s, pat, j)
    ensures r != -1 ==> OccursAt(s, pat, r) && forall j :: j < r ==> !OccursAt(s, pat, j)
  {
    IndexOfFrom(s, pat, 0)
  }

  /** The position a relative index denotes in a string of length `len`. */
  function RelativeIndex(k: int, len: nat): (r: nat)
    ensures r <= len
  {
    if k < 0 then (if len + k < 0 then 0 else len + k)
    else if k < len then k else len
  }

  /** `s.slice(start, end)`. */
  function Slice(s: JsText, start: int, end: int): (r: JsText)
    ensures var from, to := RelativeIndex(start, |s|), RelativeIndex(end, |s|);
            && |r| == (if from < to then to - from else 0)
            && forall i :: 0 <= i < |r| ==> r[i] == s[from + i]
  {
    var from := RelativeIndex(start, |s|);
    var to := RelativeIndex(end, |s|);
    if from < to then s[from..to] else []
  }

  /** `s.slice(start)`: the end defaults to the length of `s`. */
  function SliceFrom(s: JsText, start: int): (r: JsText)
    ensures r == s[RelativeIndex(start, |s|)..]
  {
    Slice(s, start, |s|)
  }
}
