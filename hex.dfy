/**
 Bytes and their renderings: `Buffer.toString('hex')` and the hex output of
 `keccak256.hex`, the nibbles of a byte string, and the UTF-8 encoding that
 `keccak256` applies to a string argument.
 */
module Hex {
  import opened Js

  type Byte = b: int | 0 <= b < 256

  /** Output of `randomBytes(32)`. */
  type PrivateKey = k: seq<Byte> | |k| == 32 witness seq(32, i => 0)

  /** Output of `secp256k1.publicKeyCreate(key, false)`: a format byte
      followed by the 64 coordinate bytes. */
  type UncompressedKey = k: seq<Byte> | |k| == 65 witness seq(65, i => 0)

  /** A Keccak-256 digest. */
  type Digest = d: seq<Byte> | |d| == 32 witness seq(32, i => 0)

  /** Keccak-256 over bytes; the hash itself is a parameter of the model. */
  type Keccak256 = seq<Byte> -> Digest

  const HexDigits: string := "0123456789abcdef"

  function HexDigit(n: nat): char
    requires n < 16
  {
    HexDigits[n]
  }

  /** Lower-case hex, two characters per byte, high nibble first. */
  function ToHex(b: seq<Byte>): (r: string)
    ensures |r| == 2 * |b|
  {
    if b == [] then [] else [HexDigit(b[0] / 16), HexDigit(b[0] % 16)] + ToHex(b[1..])
  }

  /** Nibble i of a byte string: the high half of byte i / 2 when i is even,
      the low half when it is odd. */
  function Nibble(b: seq<Byte>, i: nat): (n: nat)
    requires i < 2 * |b|
    ensures n < 16
  {
    if i % 2 == 0 then b[i / 2] / 16 else b[i / 2] % 16
  }

  lemma HexDigitParses(n: nat)
    requires n < 16
    ensures ParseHexDigit(HexDigit(n)) == Some(n)
    ensures !IsUpper(HexDigit(n))
  {
  }

  /** Reading character i of the hex rendering back with `parseInt(_, 16)`
      gives nibble i: the rendering is faithful position by position. */
  lemma {:induction false} ToHexAt(b: seq<Byte>, i: nat)
    requires i < 2 * |b|
    ensures ParseHexDigit(ToHex(b)[i]) == Some(Nibble(b, i))
    ensures !IsUpper(ToHex(b)[i])
  {
    if i < 2 {
      HexDigitParses(b[0] / 16);
      HexDigitParses(b[0] % 16);
    } else {
      ToHexAt(b[1..], i - 2);
      assert ToHex(b)[i] == ToHex(b[1..])[i - 2];
      assert b[1..][(i - 2) / 2] == b[i / 2];
    }
  }

  /** The rendering contains no upper-case letter, so lower-casing it is the
      identity. */
  lemma ToHexIsLower(b: seq<Byte>)
    ensures ToLower(ToHex(b)) == ToHex(b)
  {
  }

  /** Dropping k bytes drops 2 * k hex characters. */
  lemma {:induction false} ToHexDrop(b: seq<Byte>, k: nat)
    requires k <= |b|
    ensures ToHex(b[k..]) == ToHex(b)[2 * k..]
  {
    if k > 0 {
      ToHexDrop(b[1..], k - 1);
      assert b[1..][k - 1..] == b[k..];
    }
  }

  /** The UTF-8 encoding of one Unicode scalar value. */
  function Utf8Char(c: char): (r: seq<Byte>)
    ensures 1 <= |r| <= 4
    ensures c as int < 0x80 ==> r == [c as int]
  {
    var n := c as int;
    if n < 0x80 then [n]
    else if n < 0x800 then [0xC0 + n / 0x40, 0x80 + n % 0x40]
    else if n < 0x1_0000 then [0xE0 + n / 0x1000, 0x80 + n / 0x40 % 0x40, 0x80 + n % 0x40]
    else [0xF0 + n / 0x4_0000, 0x80 + n / 0x1000 % 0x40, 0x80 + n / 0x40 % 0x40, 0x80 + n % 0x40]
  }

  /** The bytes `keccak256` hashes when it is given a string. */
  function Utf8(s: string): (r: seq<Byte>)
    ensures |s| <= |r| <= 4 * |s|
  {
    if s == [] then [] else Utf8Char(s[0]) + Utf8(s[1..])
  }

  /** On ASCII text, UTF-8 is one byte per character, the character's code:
      what EIP-55 hashes. */
  lemma {:induction false} Utf8Ascii(s: string)
    requires forall i :: 0 <= i < |s| ==> s[i] as int < 0x80
    ensures Utf8(s) == seq(|s|, i requires 0 <= i < |s| => s[i] as int)
  {
    if s != [] {
      Utf8Ascii(s[1..]);
    }
  }
}
