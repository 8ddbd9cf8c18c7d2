/**
 `getMatchedWallet` (bin/index.js:82-101): draws wallets until one matches
 the input, counting the draws made after the first one. The random
 generator is an oracle: the sequence of what the successive calls of
 `getRandomWallet()` produce, a wallet or `None` where the call throws
 (the exception then ends the search).
 */
module Search {
  import opened Js
  import opened Hex
  import opened Derivation
  import opened Matcher
  import opened Checksum

  /** What `getMatchedWallet` ends with: the matching wallet and its
      `attempts` field, or the exception thrown while drawing a wallet. */
  datatype Outcome = Found(wallet: Wallet, attempts: nat) | KeyCreationFailed

  /** `isChecksum ? input : input.toLowerCase()` */
  function SearchKey(input: string, isChecksum: bool): (key: string)
    ensures |key| == |input|
    ensures ToLower(key) == ToLower(input)
    ensures isChecksum ==> key == input
    ensures !isChecksum ==> ToLower(key) == key
  {
    if isChecksum then input else ToLower(input)
  }

  /** Lower-casing the input before the loop changes no answer of
      `isMatchedAddress`: without `isChecksum` it lower-cases both sides
      itself, and with `isChecksum` the key is the input. */
  lemma SearchKeyKeepsMatch(address: string, input: string, isChecksum: bool, isSuffix: bool)
    ensures IsMatchedAddress(address, SearchKey(input, isChecksum), isChecksum, isSuffix)
         == IsMatchedAddress(address, input, isChecksum, isSuffix)
  {
  }

  /** Whether the search stops at a draw: it threw, or its wallet matches. */
  predicate StopsAt(drawn: Option<Wallet>, key: string, isChecksum: bool, isSuffix: bool)
  {
    drawn.None? || IsMatchedAddress(drawn.value.address, key, isChecksum, isSuffix)
  }

  /** The match test on any address whose body is `shown`, the casing of
      the lower-case hex `hex`. */
  lemma MatchOnBody(address: string, hex: string, input: string, isChecksum: bool, isSuffix: bool)
    requires |AfterPrefix(address)| == |hex| && ToLower(AfterPrefix(address)) == hex
    requires |input| <= |hex|
    ensures var shown := if isChecksum then AfterPrefix(address) else hex;
            var window := if isSuffix then shown[|hex| - |input|..] else shown[..|input|];
            (IsMatchedAddress(address, SearchKey(input, isChecksum), isChecksum, isSuffix) <==>
              SearchKey(input, isChecksum) == window)
  {
  }

  /** What a search tests of a derived wallet, in terms of its 20 address
      bytes: with `isChecksum` the input is compared with a window of their
      EIP-55 casing, without it the lower-cased input is compared with a
      window of their lower-case hex. */
  lemma DerivedWalletMatch(p: Primitives, privKey: PrivateKey, input: string, isChecksum: bool, isSuffix: bool)
    requires p.publicKeyCreate(privKey).Some?
    requires |input| <= 40
    ensures GetRandomWallet(p, privKey).Some?
    ensures var hex := ToHex(RawAddress(p.keccak256, p.publicKeyCreate(privKey).value));
            var shown := if isChecksum then Eip55(p.keccak256, hex) else hex;
            var window := if isSuffix then shown[40 - |input|..] else shown[..|input|];
            (IsMatchedAddress(GetRandomWallet(p, privKey).value.address, SearchKey(input, isChecksum), isChecksum, isSuffix) <==>
              SearchKey(input, isChecksum) == window)
  {
    var hex := ToHex(RawAddress(p.keccak256, p.publicKeyCreate(privKey).value));
    DerivedWallet(p, privKey);
    DerivedAddressShape(p, privKey);
    var address := GetRandomWallet(p, privKey).value.address;
    assert AfterPrefix(address) == Eip55(p.keccak256, hex);
    MatchOnBody(address, hex, input, isChecksum, isSuffix);
  }

  /** `getMatchedWallet(input, isChecksum, isSuffix)` on the draws `draws`;
      `stop` is a draw the search is known to stop at, which bounds the loop.
      The search ends at the first draw k it stops at: every earlier draw is
      a wallet that does not match; the outcome is the exception if draw k
      threw, and otherwise draw k's wallet, which matches, with `attempts`
      equal to k (the draws after the first one), or 1 for an empty input. */
  method GetMatchedWallet(input: string, isChecksum: bool, isSuffix: bool,
                          draws: seq<Option<Wallet>>, ghost stop: nat)
    returns (outcome: Outcome, ghost k: nat)
    requires stop < |draws|
    requires StopsAt(draws[stop], SearchKey(input, isChecksum), isChecksum, isSuffix)
    ensures k <= stop
    ensures forall j :: 0 <= j < k ==> !StopsAt(draws[j], SearchKey(input, isChecksum), isChecksum, isSuffix)
    ensures outcome == match draws[k]
                       case None => KeyCreationFailed
                       case Some(w) => Found(w, if SearchKey(input, isChecksum) == "" then 1 else k)
    ensures outcome.Found? ==>
              IsMatchedAddress(outcome.wallet.address, SearchKey(input, isChecksum), isChecksum, isSuffix)
    ensures SearchKey(input, isChecksum) == "" ==> k == 0
  {
    var key := SearchKey(input, isChecksum);
    if draws[0].None? {
      return KeyCreationFailed, 0;
    }
    var wallet := draws[0].value;
    var attempts := if key != "" then 0 else 1;
    var i := 0;
    if key == "" {
      EmptyInputMatches(wallet.address, isChecksum, isSuffix);
    }
    while !IsMatchedAddress(wallet.address, key, isChecksum, isSuffix)
      invariant i <= stop
      invariant draws[i] == Some(wallet)
      invariant forall j :: 0 <= j < i ==> !StopsAt(draws[j], key, isChecksum, isSuffix)
      invariant key != "" ==> attempts == i
      invariant key == "" ==> i == 0 && attempts == 1
      decreases stop - i
    {
      i := i + 1;
      if draws[i].None? {
        return KeyCreationFailed, i;
      }
      wallet := draws[i].value;
      attempts := attempts + 1;
    }
    return Found(wallet, if key != "" then attempts else 1), i;
  }

  /** Two runs on concrete draws: a match on the first draw reports 0
      attempts, while the empty input, which always matches the first draw,
      reports 1. */
  method AttemptsOnFirstDraw()
  {
    var w := Wallet("", "", "0xdead00000000000000000000000000000000beef");
    var outcome, k := GetMatchedWallet("BEEF", false, true, [Some(w)], 0);
    assert outcome == Found(w, 0);
    outcome, k := GetMatchedWallet("", true, false, [Some(w)], 0);
    assert outcome == Found(w, 1);
  }
}
