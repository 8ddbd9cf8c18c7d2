/**
 `getRandomWallet` (bin/index.js:49-58): one random private key, its public
 key, and the checksummed address derived from them. The random source,
 the secp256k1 key derivation and Keccak-256 are parameters.
 */
module Derivation {
  import opened Js
  import opened Hex
  import opened Checksum

  /** The foreign primitives the script calls. `publicKeyCreate` returns
      `None` where the library throws (a scalar that is not a valid key). */
  datatype Primitives = Primitives(
    keccak256: Keccak256,
    publicKeyCreate: PrivateKey -> Option<UncompressedKey>)

  /** The object `getRandomWallet` returns: three strings. */
  datatype Wallet = Wallet(privKey: string, pubKey: string, address: string)

  /** `getRandomWallet()` for the private key `randomBytes(32)` produced;
      `None` where `publicKeyCreate` throws. */
  function GetRandomWallet(p: Primitives, privKey: PrivateKey): (r: Option<Wallet>)
    ensures r.Some? <==> p.publicKeyCreate(privKey).Some?
    ensures r.Some? ==>
              |r.value.privKey| == 64 && |r.value.pubKey| == 128 &&
              |r.value.address| >= 2 && r.value.address[..2] == "0x"
  {
    match p.publicKeyCreate(privKey)
    case None => None
    case Some(full) =>
      var pubKey := SliceFrom(full, -64);
      var address := SliceFrom(p.keccak256(pubKey), 11);
      Some(Wallet(ToHex(privKey), ToHex(pubKey), "0x" + ChecksumAddress(p.keccak256, ToHex(address))))
  }

  /** The 20 address bytes of the standard derivation: the last 20 bytes of
      the Keccak-256 digest of the 64 coordinate bytes of the public key. */
  function RawAddress(keccak: Keccak256, full: UncompressedKey): (a: seq<Byte>)
    ensures |a| == 20
  {
    keccak(full[1..])[12..]
  }

  /** `toChecksumAddress` of the hex of the digest from byte 11 on is the
      EIP-55 casing of the hex of the digest from byte 12 on. */
  lemma ChecksumOfDigest(keccak: Keccak256, digest: Digest)
    ensures ChecksumAddress(keccak, ToHex(SliceFrom(digest, 11))) == Eip55(keccak, ToHex(digest[12..]))
  {
    var tail := SliceFrom(digest, 11);
    ToHexDrop(tail, 1);
    assert tail[1..] == digest[12..];
    ToHexIsLower(tail);
    ChecksumIsEip55(keccak, ToHex(tail));
  }

  /** The two offsets cancel out. `slice(-64)` keeps the 64 coordinate bytes,
      `slice(11)` keeps 21 digest bytes (42 hex characters), and the
      `slice(2)` inside `toChecksumAddress` drops the hex of one more byte; so
      the address is `0x` followed by the EIP-55 casing of the hex of the
      last 20 digest bytes, and the key strings are the hex of the private
      key and of the 64-byte public key. */
  lemma DerivedWallet(p: Primitives, privKey: PrivateKey)
    requires p.publicKeyCreate(privKey).Some?
    ensures GetRandomWallet(p, privKey).Some?
    ensures var full := p.publicKeyCreate(privKey).value;
            var w := GetRandomWallet(p, privKey).value;
            && w.address == "0x" + Eip55(p.keccak256, ToHex(RawAddress(p.keccak256, full)))
            && w.pubKey == ToHex(full[1..])
            && w.privKey == ToHex(privKey)
  {
    var full := p.publicKeyCreate(privKey).value;
    assert SliceFrom(full, -64) == full[1..];
    ChecksumOfDigest(p.keccak256, p.keccak256(full[1..]));
  }

  /** The shape the rest of the script relies on: `0x` and 40 characters
      which, lower-cased, are the hex of the 20 address bytes; 64 hex
      characters of private key and 128 of public key. */
  lemma DerivedAddressShape(p: Primitives, privKey: PrivateKey)
    requires p.publicKeyCreate(privKey).Some?
    ensures var full := p.publicKeyCreate(privKey).value;
            var w := GetRandomWallet(p, privKey).value;
            && |w.address| == 42
            && w.address[..2] == "0x"
            && ToLower(w.address[2..]) == ToHex(RawAddress(p.keccak256, full))
            && |w.privKey| == 64 && |w.pubKey| == 128
  {
    var full := p.publicKeyCreate(privKey).value;
    var w := GetRandomWallet(p, privKey).value;
    var hex := ToHex(RawAddress(p.keccak256, full));
    DerivedWallet(p, privKey);
    ChecksumIsEip55(p.keccak256, "0x" + hex);
    ToHexIsLower(RawAddress(p.keccak256, full));
    assert ToLower("0x" + hex) == "0x" + hex;
    assert Body("0x" + hex) == hex;
    ChecksumRoundTrip(p.keccak256, "0x" + hex);
    assert w.address[2..] == Eip55(p.keccak256, hex);
  }
}
