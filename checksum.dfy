/**
 `toChecksumAddress` (bin/index.js:70-80): the EIP-55 mixed-case rendering
 of an address. The input is lower-cased, its first two characters (the `0x`)
 are dropped, the rest is hashed with Keccak-256, and character i is
 upper-cased exactly when hex digit i of that hash is 8 or more.
 */
module Checksum {
  import opened Js
  import opened Hex

  /** `keccak256.hex(s)`: the digest of the UTF-8 bytes of s, in hex. */
  function KeccakHex(keccak: Keccak256, s: string): (r: string)
    ensures |r| == 64
  {
    ToHex(keccak(Utf8(s)))
  }

  /** `parseInt(hash[i], 16) >= 8`. Past the end of `hash`, `hash[i]` is
      `undefined`, `parseInt` yields `NaN`, and the comparison is false. */
  predicate NibbleAtLeast8(hash: string, i: nat)
  {
    i < |hash| && match ParseHexDigit(hash[i])
                  case Some(v) => v >= 8
                  case None => false
  }

  /** `address.toLowerCase().slice(2)`: the part that gets cased. */
  function Body(address: string): string
  {
    SliceFrom(ToLower(address), 2)
  }

  /** Character i of the result: `address[i].toUpperCase()` or `address[i]`. */
  function CaseAt(body: string, hash: string, i: nat): char
    requires i < |body|
  {
    if NibbleAtLeast8(hash, i) then UpperChar(body[i]) else body[i]
  }

  /** The string `toChecksumAddress(address)` returns. */
  function ChecksumAddress(keccak: Keccak256, address: string): (r: string)
    ensures |r| == |Body(address)|
    ensures ToLower(r) == Body(address)
  {
    var body := Body(address);
    var hash := KeccakHex(keccak, body);
    seq(|body|, i requires 0 <= i < |body| => CaseAt(body, hash, i))
  }

  /** EIP-55 as the standard states it, on a lower-case hex address without
      its prefix: with D the Keccak-256 digest of the address text, the
      character at position i is upper-cased exactly when nibble i of D is at
      least 8 (positions beyond the 64 nibbles of D are never upper-cased). */
  function Eip55(keccak: Keccak256, hex: string): string
  {
    var d := keccak(Utf8(hex));
    seq(|hex|, i requires 0 <= i < |hex| =>
      if i < 2 * |d| && Nibble(d, i) >= 8 then UpperChar(hex[i]) else hex[i])
  }

  /** The loop of `toChecksumAddress`, appending one character per step. */
  method ToChecksumAddress(keccak: Keccak256, address: string) returns (ret: string)
    ensures ret == ChecksumAddress(keccak, address)
    ensures ret == Eip55(keccak, Body(address))
  {
    var body := Body(address);
    var hash := KeccakHex(keccak, body);
    ghost var d := keccak(Utf8(body));
    ret := "";
    for i := 0 to |body|
      invariant |ret| == i
      invariant forall j :: 0 <= j < i ==> ret[j] == CaseAt(body, hash, j)
      invariant forall j :: 0 <= j < i ==>
        ret[j] == if j < 2 * |d| && Nibble(d, j) >= 8 then UpperChar(body[j]) else body[j]
    {
      if i < 2 * |d| {
        ToHexAt(d, i);
      }
      ret := ret + [if NibbleAtLeast8(hash, i) then UpperChar(body[i]) else body[i]];
    }
  }

  /** The JavaScript computation (hex rendering of the digest, then
      `parseInt` of one digit, with `NaN` past its end) is EIP-55. */
  lemma ChecksumIsEip55(keccak: Keccak256, address: string)
    ensures ChecksumAddress(keccak, address) == Eip55(keccak, Body(address))
  {
    var body := Body(address);
    var d := keccak(Utf8(body));
    var hash := KeccakHex(keccak, body);
    forall i | 0 <= i < |body|
      ensures CaseAt(body, hash, i)
           == if i < 2 * |d| && Nibble(d, i) >= 8 then UpperChar(body[i]) else body[i]
    {
      if i < 2 * |d| {
        ToHexAt(d, i);
      }
    }
  }

  /** The result is two characters shorter than the input (empty for an
      input of fewer than two characters), and lower-casing it gives back the
      lower-cased input without its first two characters: casing changes no
      character other than by case. */
  lemma ChecksumRoundTrip(keccak: Keccak256, address: string)
    ensures |ChecksumAddress(keccak, address)| == if |address| >= 2 then |address| - 2 else 0
    ensures ToLower(ChecksumAddress(keccak, address)) == SliceFrom(ToLower(address), 2)
  {
  }

  /** Position by position: a letter is upper-case in the result exactly when
      nibble i of the digest of the body is at least 8; any other character
      (a digit) is copied unchanged. */
  lemma ChecksumLetterCase(keccak: Keccak256, address: string, i: nat)
    requires i < |ChecksumAddress(keccak, address)|
    ensures var body := Body(address);
            var d := keccak(Utf8(body));
            var r := ChecksumAddress(keccak, address);
            i < |body| &&
            (IsLetter(body[i]) ==> (IsUpper(r[i]) <==> i < 64 && Nibble(d, i) >= 8)) &&
            (!IsLetter(body[i]) ==> r[i] == body[i])
  {
    ChecksumIsEip55(keccak, address);
  }

  /** The casing of the input does not matter. */
  lemma ChecksumIgnoresInputCase(keccak: Keccak256, a: string, b: string)
    requires ToLower(a) == ToLower(b)
    ensures ChecksumAddress(keccak, a) == ChecksumAddress(keccak, b)
  {
  }

  /** Checksumming a checksummed address again (after putting back a
      two-character prefix) gives the same string. */
  lemma ChecksumIdempotent(keccak: Keccak256, address: string)
    ensures ChecksumAddress(keccak, "0x" + ChecksumAddress(keccak, address))
         == ChecksumAddress(keccak, address)
  {
    var r := ChecksumAddress(keccak, address);
    ChecksumRoundTrip(keccak, address);
    ToLowerIdempotent(address);
    assert ToLower("0x" + r) == "0x" + ToLower(r);
    assert Body("0x" + r) == Body(address);
  }
}
