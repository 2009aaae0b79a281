/**
 * The ExtendScript (ECMAScript 3rd edition) string built-ins the scripts call on file names:
 * `toLowerCase`, `lastIndexOf`, `slice`, `substr` and `replace` with a one-character global pattern.
 *
 * A string is a Dafny `string`, a sequence of Unicode scalar values; ECMAScript counts UTF-16
 * code units instead, which only differs for characters beyond U+FFFF.
 */
module JsStrings {

  /** The lower-case form of one character, for the ASCII letters A-Z; every other character is kept. */
  function LowerChar(c: char): (l: char)
  {
    if 'A' <= c <= 'Z' then (c as int + 32) as char else c
  }

  /** `s.toLowerCase()`, character by character. */
  function ToLowerCase(s: string): (r: string)
    ensures |r| == |s|
  {
    seq(|s|, i requires 0 <= i < |s| => LowerChar(s[i]))
  }

  /**
   * The lower-cased string has no ASCII upper-case letter; each of them becomes the letter 32 code
   * points later, and every other character is kept.
   */
  lemma ToLowerCaseLetters(s: string)
    ensures forall i :: 0 <= i < |s| ==> !('A' <= ToLowerCase(s)[i] <= 'Z')
    ensures forall i :: 0 <= i < |s| && !('A' <= s[i] <= 'Z') ==> ToLowerCase(s)[i] == s[i]
    ensures forall i :: 0 <= i < |s| && 'A' <= s[i] <= 'Z' ==> ToLowerCase(s)[i] as int == s[i] as int + 32
  {
  }

  /** `s.lastIndexOf(c)` for a one-character search string: the position of the last `c`, or -1. */
  function LastIndexOf(s: string, c: char): (k: int)
    ensures -1 <= k < |s|
    ensures k >= 0 ==> s[k] == c
    ensures forall i :: k < i < |s| ==> s[i] != c
  {
    if s == [] then -1
    else if s[|s| - 1] == c then |s| - 1
    else LastIndexOf(s[..|s| - 1], c)
  }

  /**
   * How `slice` turns an argument into a position: a negative `k` counts back from the end
   * (and stops at 0), a non-negative one stops at the length.
   */
  function RelativePosition(len: nat, k: int): (p: nat)
    ensures p <= len
  {
    if k < 0 then (if len + k < 0 then 0 else len + k)
    else if k < len then k else len
  }

  /** `s.slice(start, end)`: the characters from `start` up to (not including) `end`. */
  function Slice(s: string, start: int, end: int): (r: string)
    ensures RelativePosition(|s|, start) + |r| <= |s|
    ensures forall i :: 0 <= i < |r| ==> r[i] == s[RelativePosition(|s|, start) + i]
    ensures 0 <= start <= end <= |s| ==> r == s[start..end]
    ensures start == 0 && end < 0 && -end <= |s| ==> r == s[..|s| + end]
  {
    var from, to := RelativePosition(|s|, start), RelativePosition(|s|, end);
    if from < to then s[from..to] else []
  }

  /**
   * `s.substr(start)` with the length omitted (Annex B.2.3): a negative `start` counts back
   * from the end. The result is always a suffix of `s`.
   */
  function Substr(s: string, start: int): (r: string)
    ensures |r| <= |s| && r == s[|s| - |r|..]
    ensures 0 <= start ==> |r| == if start < |s| then |s| - start else 0
    ensures start < 0 ==> |r| == if -start < |s| then -start else |s|
  {
    var from := if start >= 0 then start else (if |s| + start < 0 then 0 else |s| + start);
    if from >= |s| then [] else s[from..]
  }

  /** `s.replace(/x/g, y)` for one-character `x` and `y`: every `x` becomes `y`. */
  function ReplaceAll(s: string, x: char, y: char): (r: string)
    ensures |r| == |s|
    ensures x != y ==> x !in r
  {
    seq(|s|, i requires 0 <= i < |s| => if s[i] == x then y else s[i])
  }

  /** Each `x` of `s` becomes `y` in the same position, and every other character is kept. */
  lemma ReplaceAllChars(s: string, x: char, y: char)
    ensures forall i :: 0 <= i < |s| && s[i] == x ==> ReplaceAll(s, x, y)[i] == y
    ensures forall i :: 0 <= i < |s| && s[i] != x ==> ReplaceAll(s, x, y)[i] == s[i]
  {
  }
}
