# genwalleth, modelled in Dafny

genwalleth is a command-line tool that searches for a vanity Ethereum
address. It draws random private keys, derives each key's address, and stops
at the first address whose first or last characters match the user's hex
input. The match is either case-insensitive or case-sensitive against the
EIP-55 checksum casing. All of its logic lives in `bin/index.js`. This
project models that logic and proves properties of it:

- `js.dfy` (module `Js`): the JavaScript built-ins the script relies on.
  These are `slice` on strings and byte arrays (negative indices count from
  the end, and results are clamped), `toLowerCase`/`toUpperCase`, and
  `parseInt(c, 16)` on one character (`None` stands for `NaN`).
- `hex.dfy` (module `Hex`): bytes, the lower-case hex rendering of
  `Buffer.toString('hex')` and `keccak256.hex`, nibbles, and the UTF-8
  encoding that `keccak256` applies to a string. Keccak-256 is a parameter of
  type `seq<Byte> -> Digest`, where a digest is 32 bytes.
- `checksum.dfy` (module `Checksum`): `toChecksumAddress`.
  - `ChecksumAddress` is the function it computes. `ToChecksumAddress` is its
    loop, which appends one character per step.
  - `Eip55` is the checksum as the EIP-55 standard states it, on digest
    nibbles. The JavaScript route goes through the hex text of the digest
    and reads one digit back with `parseInt`; the lemmas prove it equal to
    `Eip55`. When the body is longer than 64 characters, `hash[i]` is
    `undefined` past the end and the character is left as it is; the model
    does the same.
- `derivation.dfy` (module `Derivation`): `getRandomWallet`.
  - The key steps are `slice(-64)` of the 65-byte public key, `slice(11)` of
    the digest, and the `slice(2)` inside `toChecksumAddress`. The model
    proves that together they give the standard derivation: `0x` followed by
    the checksummed hex of the last 20 digest bytes.
  - `secp256k1.publicKeyCreate` is a parameter that returns `None` where the
    library throws.
- `matcher.dfy` (module `Matcher`): `isMatchedAddress`, a comparison of the
  input with a window of the address body.
- `search.dfy` (module `Search`): `getMatchedWallet`.
  - The random generator is an oracle: the sequence of what the successive
    `getRandomWallet()` calls return, where `None` is a call that threw.
  - A ghost index of a draw at which the search is known to stop bounds the
    loop.

How the code behaves, which the model follows:

- `attempts` counts only the wallets drawn after the first one. A match on
  the first draw therefore reports 0 attempts, while an empty input (which
  always matches the first draw) reports 1. `GetMatchedWallet` states exactly
  this count. The client `Search.AttemptsOnFirstDraw` exhibits both cases.
- `secp256k1.publicKeyCreate` throws on an invalid scalar, and the code does
  not draw again. The exception leaves `getMatchedWallet`, and the top-level
  `catch` only logs it (bin/index.js:50-51, 116-117). The model ends the
  search with `KeyCreationFailed`.
- The digest is cut at byte 11 (line 52), and `toChecksumAddress` drops two
  more hex characters (line 71). Together they drop exactly 12 bytes
  (`DerivedWallet`), which gives the standard address.
- There is no worker, coordinator, progress aggregation or first-match
  arbitration in the code, so none is modelled.

## Model

| member | source | states |
|---|---|---|
| `Checksum.ChecksumAddress` | bin/index.js:70-80 | Computes the string `toChecksumAddress` returns: as long as the lower-cased input without its first two characters, and equal to it once lower-cased (its other properties are in the lemmas below). |
| `Checksum.ToChecksumAddress` | bin/index.js:70-80 | The loop's result is the checksum casing the function describes, and it is also the EIP-55 casing of the lower-cased input without its first two characters. |
| `Checksum.ChecksumIsEip55` | bin/index.js:71-78 | Rendering the digest as hex and reading digit i back with `parseInt` (`NaN` past the 64th digit) upper-cases exactly where EIP-55's digest nibble i is at least 8. |
| `Checksum.ChecksumRoundTrip` | bin/index.js:71-78 | The result is 2 characters shorter than the input (empty below 2). Lower-casing it gives the lower-cased input without its first two characters. |
| `Checksum.ChecksumLetterCase` | bin/index.js:72-77 | At each position, a letter is upper-case exactly when digest nibble i exists and is at least 8. Any other character is copied unchanged. |
| `Checksum.ChecksumIgnoresInputCase` | bin/index.js:71 | Two inputs that are equal up to case give the same output. |
| `Checksum.ChecksumIdempotent` | bin/index.js:70-80 | Checksumming `0x` + a checksummed address again yields the same string. |
| `Hex.ToHex` | bin/index.js:54-56 | The hex rendering has two characters per byte. |
| `Hex.Utf8` | bin/index.js:72 | Computes the bytes `keccak256.hex` hashes for a string argument: between one and four bytes per character. |
| `Hex.Utf8Ascii` | bin/index.js:72 | On ASCII text (every hex string), the hashed bytes are exactly the character codes, one per character. |
| `Hex.ToHexAt` | bin/index.js:72-76 | Character i of the hex rendering parses back (`parseInt(_, 16)`) to nibble i of the bytes and is not upper-case. |
| `Hex.ToHexIsLower` | bin/index.js:71-72 | The hex rendering is unchanged by `toLowerCase`. |
| `Hex.ToHexDrop` | bin/index.js:52-56 | Dropping k bytes before rendering equals dropping 2k hex characters after rendering. |
| `Derivation.GetRandomWallet` | bin/index.js:49-58 | Computes the wallet `getRandomWallet` returns for a drawn private key. There is a wallet exactly when `publicKeyCreate` does not throw; its key strings have 64 and 128 characters and its address starts with `0x` (its full content is in `DerivedWallet`). |
| `Derivation.ChecksumOfDigest` | bin/index.js:52-56 | `toChecksumAddress` applied to the hex of the digest from byte 11 on (with its `slice(2)` at line 71) is the EIP-55 casing of the hex of the digest from byte 12 on. |
| `Derivation.DerivedWallet` | bin/index.js:49-58 | A wallet exists whenever key creation succeeds. Its address is `0x` + EIP-55 of the hex of the last 20 bytes of Keccak-256 of the 64 coordinate bytes. `pubKey` is the hex of those 64 bytes and `privKey` the hex of the private key: `slice(11)` and `slice(2)` together drop exactly 12 bytes. |
| `Derivation.DerivedAddressShape` | bin/index.js:51-56 | The address has 42 characters and starts with `0x`. Its lower-cased body is the hex of the 20 address bytes. The key strings have 64 and 128 characters. |
| `Matcher.IsMatchedAddress` | bin/index.js:60-68 | Computes `isMatchedAddress`: the empty input always matches, and a match implies the input is no longer than the address body (the exact condition is in the lemmas below). |
| `Matcher.EmptyInputMatches` | bin/index.js:60-68 | The empty input matches every address, in both position modes and both case modes. |
| `Matcher.MatchesWindow` | bin/index.js:60-68 | An input no longer than the body matches exactly when it equals the body's first (prefix) or last (suffix) \|input\| characters. The comparison is exact with `isChecksum` and up to case without it. |
| `Matcher.MatchesLowerWindow` | bin/index.js:65-67 | Case-insensitively, a fitting input matches exactly when its lower-casing equals that window of the lower-cased body. |
| `Matcher.LongInputNeverMatches` | bin/index.js:61-67 | An input longer than the address body never matches, in any mode. |
| `Matcher.SuffixWindowOfLongInput` | bin/index.js:61-63 | In suffix mode a too-long input makes the `slice` start negative. The window is then the body from position 2·\|body\| − \|input\| (all of it if that is negative). |
| `Matcher.CaseInsensitiveIgnoresCasing` | bin/index.js:61-67 | Without `isChecksum`, recasing the input or the address never changes the answer. |
| `Search.SearchKey` | bin/index.js:83 | The input the loop compares: with `isChecksum` it is the input exactly as typed; without it, it is the lower-case string equal to the input up to case (same length). |
| `Search.SearchKeyKeepsMatch` | bin/index.js:83-86 | Lower-casing the input before the loop never changes `isMatchedAddress`'s answer, in any mode: the case-insensitive test at lines 65-67 lower-cases both sides itself. |
| `Search.GetMatchedWallet` | bin/index.js:82-101 | The search stops at the first draw that throws or matches the input (lower-cased when case-insensitive); every earlier draw is a non-matching wallet. It returns that draw's wallet, which matches. `attempts` is the number of draws after the first one, or 1 for an empty input, which stops at the first draw. A throwing draw ends the search with `KeyCreationFailed`. |
| `Search.DerivedWalletMatch` | bin/index.js:83-87 | The loop's test on a derived wallet compares the key with a window of the hex of the 20 address bytes. Case-insensitively that hex is lower-case; case-sensitively it is the EIP-55 casing of it. |

## Left out

- Argument parsing with `yargs` (bin/index.js:10-16): library plumbing with no logic of its own.
- Terminal and JSON output: `clearLine`, `printOutputProgress`, `printOutput`, the progress line inside the loop and `console.log` (bin/index.js:18-47, 89-91, 95, 103-118). The model drops the `returnJson` parameter of `getMatchedWallet`, which selects whether the progress line is drawn (line 89).
- Search.GetMatchedWallet: assumes standard output is a terminal. `clearLine` (bin/index.js:18-21) calls `process.stdout.clearLine` and `cursorTo`, which Node provides only on a TTY. With output piped or redirected, the progress redraw at line 90 (when `returnJson` is false) or the `clearLine(0)` at line 95 throws a TypeError, so `getMatchedWallet` ends with an exception that the `catch` at lines 116-117 logs, not with a wallet. The model does not represent that outcome.
- The `process.hrtime` timer and the elapsed seconds (bin/index.js:7-8): floating-point wall-clock arithmetic.
- The top-level `try`/`catch` (bin/index.js:103-118): it only logs an exception. The model returns the exception as `KeyCreationFailed`.
- The internals of `randomBytes`, `secp256k1.publicKeyCreate` and `keccak256`: they are foreign primitives. They are parameters with length constraints: a 32-byte private key, a 65-byte public key or a throw, and a 32-byte digest.
- Search.GetMatchedWallet: its oracle is the sequence of `getRandomWallet()` results, not the private keys. The derivation of each wallet is covered by `DerivedWallet` and `DerivedWalletMatch`, not inside the loop's contract.
- Search.GetMatchedWallet: termination is not proved for an arbitrary random source. The source's loop ends only with probability 1, so the model requires a draw at which the search stops.
- `toLowerCase`/`toUpperCase` outside ASCII: JavaScript also maps non-ASCII letters, and some of those mappings change the string's length. Only hex input is meaningful here, so the model maps the ASCII letters and leaves every other character unchanged.
- JavaScript strings are UTF-16. The model uses Unicode scalar values, so `keccak256`'s handling of lone surrogates is not represented.
