/**
 `isMatchedAddress` (bin/index.js:60-68): compares the input with the first
 or the last `input.length` characters of the address after its `0x`,
 exactly or after lower-casing both sides.
 */
module Matcher {
  import opened Js

  /** The window `isMatchedAddress` cuts from the address. For a suffix, the
      start `address.length - input.length` is negative when the input is
      longer than the address, and `slice` then counts it from the end. */
  function Window(address: string, input: string, isSuffix: bool): string
  {
    var body := SliceFrom(address, 2);
    if isSuffix then SliceFrom(body, |body| - |input|) else Slice(body, 0, |input|)
  }

  function IsMatchedAddress(address: string, input: string, isChecksum: bool, isSuffix: bool): (r: bool)
    ensures input == "" ==> r
    ensures r ==> |input| <= |AfterPrefix(address)|
  {
    var subStr := Window(address, input, isSuffix);
    if isChecksum then input == subStr else ToLower(input) == ToLower(subStr)
  }

  /** The address after its two-character prefix. */
  function AfterPrefix(address: string): string
  {
    if |address| >= 2 then address[2..] else []
  }

  /** The empty input matches every address, in every mode. */
  lemma EmptyInputMatches(address: string, isChecksum: bool, isSuffix: bool)
    ensures IsMatchedAddress(address, "", isChecksum, isSuffix)
  {
  }

  /** When the input fits in the address body, it matches exactly when it
      equals the first (prefix mode) or the last (suffix mode) |input|
      characters of the body: character for character when `isChecksum` is
      set, up to case otherwise. */
  lemma MatchesWindow(address: string, input: string, isChecksum: bool, isSuffix: bool)
    requires |input| <= |AfterPrefix(address)|
    ensures var body := AfterPrefix(address);
            var window := if isSuffix then body[|body| - |input|..] else body[..|input|];
            (IsMatchedAddress(address, input, isChecksum, isSuffix) <==>
              if isChecksum then input == window else ToLower(input) == ToLower(window))
  {
  }

  /** Without `isChecksum`, a fitting input matches exactly when, lower-cased,
      it equals the window of the lower-cased address body. */
  lemma MatchesLowerWindow(address: string, input: string, isSuffix: bool)
    requires |input| <= |AfterPrefix(address)|
    ensures var lower := ToLower(AfterPrefix(address));
            var window := if isSuffix then lower[|lower| - |input|..] else lower[..|input|];
            (IsMatchedAddress(address, input, false, isSuffix) <==> ToLower(input) == window)
  {
  }

  /** An input longer than the address body never matches: the window is
      always shorter than the input. */
  lemma LongInputNeverMatches(address: string, input: string, isChecksum: bool, isSuffix: bool)
    requires |input| > |AfterPrefix(address)|
    ensures !IsMatchedAddress(address, input, isChecksum, isSuffix)
  {
  }

  /** In suffix mode an input longer than the body gives `slice` a negative
      start, which counts back from the end of the body: the window is the
      body from position 2 * |body| - |input| on (all of it when that is
      negative), and so is shorter than the input. */
  lemma SuffixWindowOfLongInput(address: string, input: string)
    requires |input| > |AfterPrefix(address)|
    ensures var body := AfterPrefix(address);
            var start := 2 * |body| - |input|;
            Window(address, input, true) == if start < 0 then body else body[start..]
  {
  }

  /** Without `isChecksum`, recasing the input or the address changes
      nothing. */
  lemma CaseInsensitiveIgnoresCasing(a: string, b: string, input: string, input': string, isSuffix: bool)
    requires ToLower(a) == ToLower(b)
    requires ToLower(input) == ToLower(input')
    ensures IsMatchedAddress(a, input, false, isSuffix) == IsMatchedAddress(b, input', false, isSuffix)
  {
    assert |input| == |ToLower(input)| == |input'|;
    ToLowerSliceFrom(a, 2);
    ToLowerSliceFrom(b, 2);
    var bodyA, bodyB := SliceFrom(a, 2), SliceFrom(b, 2);
    assert ToLower(bodyA) == ToLower(bodyB);
    assert |bodyA| == |bodyB|;
    if isSuffix {
      ToLowerSliceFrom(bodyA, |bodyA| - |input|);
      ToLowerSliceFrom(bodyB, |bodyB| - |input|);
    } else {
      ToLowerSlice(bodyA, 0, |input|);
      ToLowerSlice(bodyB, 0, |input|);
    }
  }
}
