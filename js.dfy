/**
 The JavaScript built-ins that bin/index.js relies on, with ECMAScript's
 semantics restricted to what the script uses: `slice` on strings and on byte
 arrays, `toLowerCase`/`toUpperCase` (on the ASCII range), and
 `parseInt(c, 16)` applied to one character.
 */
module Js {

  datatype Option<T> = None | Some(value: T)

  /** Resolves an argument of `slice`: a negative index counts back from the
      end, and the result is clamped to the range 0 .. len. */
  function RelativeIndex(i: int, len: nat): (r: nat)
    ensures r <= len
    ensures 0 <= i <= len ==> r == i
    ensures i < 0 && 0 <= len + i ==> r == len + i
    ensures len + i < 0 ==> r == 0
    ensures len < i ==> r == len
  {
    if i < 0 then
      (if len + i < 0 then 0 else len + i)
    else if i < len then i else len
  }

  /** `s.slice(start)`, for strings and for arrays alike. */
  function SliceFrom<T>(s: seq<T>, start: int): seq<T>
  {
    s[RelativeIndex(start, |s|)..]
  }

  /** `s.slice(start, end)`, for strings and for arrays alike. */
  function Slice<T>(s: seq<T>, start: int, end: int): seq<T>
  {
    var from, to := RelativeIndex(start, |s|), RelativeIndex(end, |s|);
    if from < to then s[from..to] else []
  }

  predicate IsUpper(c: char) { 'A' <= c <= 'Z' }

  predicate IsLower(c: char) { 'a' <= c <= 'z' }

  predicate IsLetter(c: char) { IsUpper(c) || IsLower(c) }

  /** The ASCII part of `String.prototype.toLowerCase` on one character. */
  function LowerChar(c: char): (r: char)
    ensures !IsUpper(r)
    ensures IsLetter(c) <==> IsLetter(r)
  {
    if IsUpper(c) then (c as int + 32) as char else c
  }

  /** The ASCII part of `String.prototype.toUpperCase` on one character. */
  function UpperChar(c: char): (r: char)
    ensures !IsLower(r)
    ensures IsLetter(c) <==> IsLetter(r)
  {
    if IsLower(c) then (c as int - 32) as char else c
  }

  /** `s.toLowerCase()`: maps every character, so the length is kept. */
  function ToLower(s: string): string
  {
    seq(|s|, i requires 0 <= i < |s| => LowerChar(s[i]))
  }

  /** `parseInt(c, 16)` on a one-character string: the digit's value, or
      `None` where JavaScript gives `NaN`. */
  function ParseHexDigit(c: char): (r: Option<nat>)
    ensures r.Some? ==> r.value < 16
  {
    if '0' <= c <= '9' then Some(c as int - '0' as int)
    else if 'a' <= c <= 'f' then Some(c as int - 'a' as int + 10)
    else if 'A' <= c <= 'F' then Some(c as int - 'A' as int + 10)
    else None
  }

  /** Lower-casing twice is lower-casing once. */
  lemma ToLowerIdempotent(s: string)
    ensures ToLower(ToLower(s)) == ToLower(s)
  {
  }

  /** Lower-casing commutes with `slice(start)`. */
  lemma ToLowerSliceFrom(s: string, start: int)
    ensures |SliceFrom(s, start)| == |SliceFrom(ToLower(s), start)|
    ensures ToLower(SliceFrom(s, start)) == SliceFrom(ToLower(s), start)
  {
  }

  /** Lower-casing commutes with `slice(start, end)`. */
  lemma ToLowerSlice(s: string, start: int, end: int)
    ensures |Slice(s, start, end)| == |Slice(ToLower(s), start, end)|
    ensures ToLower(Slice(s, start, end)) == Slice(ToLower(s), start, end)
  {
  }
}
