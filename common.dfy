/**
 * The stateless Lamport primitives of Common.ts: signing a 256-bit digest,
 * verifying a signature, deriving a public key from a private key, hashing a
 * public key, and the `0x`-prefix normalisation of signature elements.
 */
module Common {
  import opened Results
  import opened Encoding

  /**
   * The text of a hex data string: an optional `0x` prefix followed by the
   * hex digits of `bytes`. Private-key halves and signature elements are
   * strings in the source, and only for them does the prefix matter.
   */
  datatype Hex = Hex(prefixed: bool, bytes: Bytes)

  /** One private-key position: the secret revealed for bit 0 and the one for bit 1. */
  datatype RandPair = RandPair(left: Hex, right: Hex) {
    function Pick(b: Bit): Hex { if b == 0 then left else right }
  }

  /** One public-key position: the hashes of the two secrets. */
  datatype PubPair = PubPair(left: Word, right: Word) {
    function Pick(b: Bit): Word { if b == 0 then left else right }
  }

  /** A hash output as text: ethers always returns it `0x`-prefixed. */
  function AsHex(w: Word): Hex
  {
    Hex(true, w)
  }

  /** `hash_b`: Keccak-256 of hex data; ethers rejects text without the `0x` prefix. */
  function HashB(h: Hash, x: Hex): (r: Result<Word>)
    ensures r.Ok? <==> x.prefixed
    ensures r.Ok? ==> r.value == h(x.bytes)
    ensures r.Err? ==> r.error == InvalidArrayifyValue
  {
    if x.prefixed then Ok(h(x.bytes)) else Err(InvalidArrayifyValue)
  }

  /** `s.startsWith('0x') ? s : '0x' + s` */
  function Normalize(s: Hex): (r: Hex)
    ensures r.prefixed && r.bytes == s.bytes
    ensures s.prefixed ==> r == s
  {
    if s.prefixed then s else Hex(true, s.bytes)
  }

  predicate AllPrefixed(pri: seq<RandPair>)
  {
    forall i :: 0 <= i < |pri| ==> pri[i].left.prefixed && pri[i].right.prefixed
  }

  /** `pubFromPri`: hash both halves of every pair, in order. */
  function PubFromPri(h: Hash, pri: seq<RandPair>): (r: Result<seq<PubPair>>)
    ensures r.Ok? <==> AllPrefixed(pri)
    ensures r.Err? ==> r.error == InvalidArrayifyValue
    ensures r.Ok? ==> |r.value| == |pri|
    ensures r.Ok? ==> forall i :: 0 <= i < |pri| ==>
      r.value[i] == PubPair(h(pri[i].left.bytes), h(pri[i].right.bytes))
  {
    if pri == [] then Ok([])
    else
      var left :- HashB(h, pri[0].left);
      var right :- HashB(h, pri[0].right);
      var rest :- PubFromPri(h, pri[1..]);
      Ok([PubPair(left, right)] + rest)
  }

  /** The public key's words in the order `bytes32[2][256]` packs them. */
  function PubWords(pub: seq<PubPair>): (ws: seq<Word>)
    ensures |ws| == 2 * |pub|
    ensures forall i :: 0 <= i < |pub| ==> ws[2 * i] == pub[i].left && ws[2 * i + 1] == pub[i].right
  {
    if pub == [] then [] else [pub[0].left, pub[0].right] + PubWords(pub[1..])
  }

  /** `BaseKeyTracker.pkhFromPublicKey`: Keccak-256 of `solidityPack(['bytes32[2][256]'], [pub])`. */
  function PkhFromPublicKey(h: Hash, pub: seq<PubPair>): (r: Result<Word>)
    ensures r.Ok? <==> |pub| == 256
    ensures r.Err? ==> r.error == InvalidArrayLength
    ensures r.Ok? ==> exists packed: Bytes ::
      && r.value == h(packed)
      && |packed| == 64 * 256
      && (forall i :: 0 <= i < 256 ==>
            packed[64 * i .. 64 * i + 32] == pub[i].left && packed[64 * i + 32 .. 64 * i + 64] == pub[i].right)
  {
    if |pub| != 256 then Err(InvalidArrayLength)
    else
      var packed := PackWords(PubWords(pub));
      assert forall i :: 0 <= i < 256 ==>
        packed[64 * i .. 64 * i + 32] == pub[i].left && packed[64 * i + 32 .. 64 * i + 64] == pub[i].right by {
        forall i | 0 <= i < 256
          ensures packed[64 * i .. 64 * i + 32] == pub[i].left && packed[64 * i + 32 .. 64 * i + 64] == pub[i].right
        {
          assert 32 * (2 * i) == 64 * i && 32 * (2 * i + 1) == 64 * i + 32;
        }
      }
      Ok(h(packed))
  }

  /** `is_private_key` */
  function IsPrivateKey(key: seq<RandPair>): (r: bool)
    ensures r <==> |key| == 256
  {
    |key| == 256
  }

  /** `sign_hash`: reveal, for every bit of the digest (MSB first), the secret that bit selects. */
  function SignHash(d: nat, pri: seq<RandPair>): (r: Result<seq<Hex>>)
    ensures |pri| != 256 ==> r == Err(InvalidPrivateKey)
    ensures |pri| == 256 && d >= Pow2(256) ==> r == Err(InvalidMessageHashLength)
    ensures r.Ok? <==> |pri| == 256 && d < Pow2(256)
    ensures r.Ok? ==> |r.value| == 256 && forall i :: 0 <= i < 256 ==> r.value[i] == pri[i].Pick(BitAt(d, i))
  {
    if !IsPrivateKey(pri) then Err(InvalidPrivateKey)
    else
      var bits := DigestBits(d);
      DigestBitsLength(d);
      if |bits| != 256 then Err(InvalidMessageHashLength)
      else
        DigestBitsAt(d);
        Ok(seq(256, i requires 0 <= i < 256 => pri[i].Pick(bits[i])))
  }

  /** `convertSignatureForSolidity` (and the same normalisation inside verify_signed_hash). */
  function ConvertSignatureForSolidity(sig: seq<Hex>): (r: seq<Hex>)
    ensures |r| == |sig|
    ensures forall i :: 0 <= i < |sig| ==> r[i].prefixed && r[i].bytes == sig[i].bytes
    ensures forall i :: 0 <= i < |sig| && sig[i].prefixed ==> r[i] == sig[i]
  {
    seq(|sig|, i requires 0 <= i < |sig| => Normalize(sig[i]))
  }

  lemma {:induction false} ConvertIdempotent(sig: seq<Hex>)
    ensures ConvertSignatureForSolidity(ConvertSignatureForSolidity(sig)) == ConvertSignatureForSolidity(sig)
  {
  }

  // ---------------------------------------------------------------------
  // Verification: what verify_signed_hash computes, stated without its loop
  // ---------------------------------------------------------------------

  /** Position `i` exists on all three sides and the revealed secret hashes to the selected public word. */
  predicate PositionVerifies(h: Hash, d: nat, sig: seq<Hex>, pub: seq<PubPair>, i: nat)
  {
    i < |DigestBits(d)| && i < |sig| && i < |pub| &&
    pub[i].Pick(DigestBits(d)[i]) == h(Normalize(sig[i]).bytes)
  }

  /**
   * The outcome of verify_signed_hash. A public key shorter than the bit
   * string makes the selection read a missing pair (a TypeError); otherwise
   * the first mismatching position gives `false`; a signature that runs out
   * before any mismatch makes ethers read a property of `undefined` (a
   * TypeError).
   */
  function VerifyOutcome(h: Hash, d: nat, sig: seq<Hex>, pub: seq<PubPair>): (r: Result<bool>)
    ensures r == Ok(true) <==>
      |sig| >= |DigestBits(d)| && |pub| >= |DigestBits(d)| &&
      forall k :: 0 <= k < |DigestBits(d)| ==> PositionVerifies(h, d, sig, pub, k)
    ensures r.Err? ==> r.error == UndefinedElement
  {
    var n := |DigestBits(d)|;
    if |pub| < n then Err(UndefinedElement)
    else if exists k :: 0 <= k < n && k < |sig| && !PositionVerifies(h, d, sig, pub, k) then Ok(false)
    else if |sig| < n then Err(UndefinedElement)
    else Ok(true)
  }

  /** `verify_signed_hash` */
  method VerifySignedHash(h: Hash, d: nat, sig: seq<Hex>, pub: seq<PubPair>) returns (r: Result<bool>)
    ensures r == VerifyOutcome(h, d, sig, pub)
  {
    var bits := DigestBits(d);
    if |pub| < |bits| {
      return Err(UndefinedElement);
    }
    var selection := seq(|bits|, i requires 0 <= i < |bits| => pub[i].Pick(bits[i]));
    var normalized := seq(|sig|, i requires 0 <= i < |sig| => Normalize(sig[i]));
    var i := 0;
    while i < |selection|
      invariant 0 <= i <= |selection| == |bits|
      invariant i <= |sig|
      invariant forall k :: 0 <= k < i ==> PositionVerifies(h, d, sig, pub, k)
    {
      if i >= |normalized| {
        return Err(UndefinedElement);
      }
      var hashed := HashB(h, normalized[i]).value;
      if selection[i] != hashed {
        assert !PositionVerifies(h, d, sig, pub, i);
        return Ok(false);
      }
      i := i + 1;
    }
    return Ok(true);
  }

  /** `checkSignature(pub)(hash)(signature)`: pass the signature through only if it verifies. */
  method CheckSignature(h: Hash, pub: seq<PubPair>, d: nat, sig: seq<Hex>) returns (r: Result<seq<Hex>>)
    ensures VerifyOutcome(h, d, sig, pub) == Ok(true) ==> r == Ok(sig)
    ensures VerifyOutcome(h, d, sig, pub) == Ok(false) ==> r == Err(InvalidSignature)
    ensures VerifyOutcome(h, d, sig, pub).Err? ==> r == Err(VerifyOutcome(h, d, sig, pub).error)
  {
    var isValid :- VerifySignedHash(h, d, sig, pub);
    if !isValid {
      return Err(InvalidSignature);
    }
    return Ok(sig);
  }

  // ---------------------------------------------------------------------
  // Properties
  // ---------------------------------------------------------------------

  /** Signing the all-zero digest reveals every left secret, in order. */
  lemma {:induction false} SignZeroDigest(pri: seq<RandPair>)
    requires |pri| == 256
    ensures SignHash(0, pri) == Ok(seq(256, i requires 0 <= i < 256 => pri[i].left))
  {
    var sig := SignHash(0, pri).value;
    forall i | 0 <= i < 256
      ensures sig[i] == pri[i].left
    {
      BitOfSmall(0, 255 - i);
    }
    assert sig == seq(256, i requires 0 <= i < 256 => pri[i].left);
  }

  /** A signature made with a well-formed private key verifies against that key's public half. */
  lemma {:induction false} SignThenVerify(h: Hash, d: nat, pri: seq<RandPair>)
    requires |pri| == 256 && AllPrefixed(pri) && d < Pow2(256)
    ensures SignHash(d, pri).Ok? && PubFromPri(h, pri).Ok?
    ensures VerifyOutcome(h, d, SignHash(d, pri).value, PubFromPri(h, pri).value) == Ok(true)
  {
    var sig := SignHash(d, pri).value;
    var pub := PubFromPri(h, pri).value;
    DigestBitsAt(d);
    forall k | 0 <= k < 256
      ensures PositionVerifies(h, d, sig, pub, k)
    {
      assert sig[k] == pri[k].Pick(DigestBits(d)[k]);
    }
  }

  /** verify_signed_hash never looks past the last bit position in the signature or the public key. */
  lemma {:induction false} VerifyIgnoresTrailing(h: Hash, d: nat, sig: seq<Hex>, pub: seq<PubPair>)
    requires |sig| >= |DigestBits(d)| && |pub| >= |DigestBits(d)|
    ensures VerifyOutcome(h, d, sig, pub) == VerifyOutcome(h, d, sig[..|DigestBits(d)|], pub[..|DigestBits(d)|])
  {
    var n := |DigestBits(d)|;
    forall k | 0 <= k < n
      ensures PositionVerifies(h, d, sig, pub, k) == PositionVerifies(h, d, sig[..n], pub[..n], k)
    {
    }
  }

  /** Normalising the prefixes does not change what verify_signed_hash decides. */
  lemma {:induction false} VerifyAfterConvert(h: Hash, d: nat, sig: seq<Hex>, pub: seq<PubPair>)
    ensures VerifyOutcome(h, d, ConvertSignatureForSolidity(sig), pub) == VerifyOutcome(h, d, sig, pub)
  {
    var c := ConvertSignatureForSolidity(sig);
    forall k | 0 <= k < |DigestBits(d)|
      ensures PositionVerifies(h, d, c, pub, k) == PositionVerifies(h, d, sig, pub, k)
    {
    }
  }

  /**
   * A signature verifies for at most one digest below 2^256 under a public
   * key whose two halves differ at every position.
   */
  lemma {:induction false} VerifyBindsDigest(h: Hash, d1: nat, d2: nat, sig: seq<Hex>, pub: seq<PubPair>)
    requires d1 < Pow2(256) && d2 < Pow2(256)
    requires forall i :: 0 <= i < |pub| ==> pub[i].left != pub[i].right
    requires VerifyOutcome(h, d1, sig, pub) == Ok(true) && VerifyOutcome(h, d2, sig, pub) == Ok(true)
    ensures d1 == d2
  {
    DigestBitsLength(d1);
    DigestBitsLength(d2);
    forall k | 0 <= k < 256
      ensures DigestBits(d1)[k] == DigestBits(d2)[k]
    {
      assert PositionVerifies(h, d1, sig, pub, k) && PositionVerifies(h, d2, sig, pub, k);
    }
    assert DigestBits(d1) == DigestBits(d2);
    DigestBitsInjective(d1, d2);
  }
}
