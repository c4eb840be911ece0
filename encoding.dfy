/**
 * Byte-level encodings the core relies on: 32-byte words, Solidity's packed
 * encoding (`solidityPack`) of `uint256`, `bytes32[]` and `bytes4`, big-endian
 * parsing of a hex digest into a number, and the digest's binary text as
 * `new BigNumber(hmsg, 16).toString(2).padStart(256, '0')` produces it.
 */
module Encoding {

  newtype byte = b: int | 0 <= b < 256

  type Bytes = seq<byte>

  /** A 32-byte value: what Keccak-256 returns and what `bytes32`/`uint256` pack to. */
  type Word = w: Bytes | |w| == 32 witness seq(32, _ => 0 as byte)

  /** A 4-byte function selector. */
  type Selector = s: Bytes | |s| == 4 witness [0, 0, 0, 0]

  /** The hash function (Keccak-256 in the source), left uninterpreted. */
  type Hash = Bytes -> Word

  type Bit = b: nat | b < 2

  function Pow2(n: nat): (p: nat)
    ensures p >= 1
  {
    if n == 0 then 1 else 2 * Pow2(n - 1)
  }

  lemma {:induction false} Pow2Add(a: nat, b: nat)
    ensures Pow2(a + b) == Pow2(a) * Pow2(b)
  {
    if b > 0 {
      Pow2Add(a, b - 1);
      calc {
        Pow2(a + b);
        2 * Pow2(a + b - 1);
        2 * (Pow2(a) * Pow2(b - 1));
        Pow2(a) * (2 * Pow2(b - 1));
      }
    }
  }

  lemma {:induction false} Pow2Monotone(a: nat, b: nat)
    requires a <= b
    ensures Pow2(a) <= Pow2(b)
  {
    if a < b {
      Pow2Monotone(a, b - 1);
    }
  }

  // ---------------------------------------------------------------------
  // Big-endian numbers
  // ---------------------------------------------------------------------

  /** The number a big-endian byte string denotes (how a hex digest is parsed). */
  function ToNat(b: Bytes): nat
  {
    if b == [] then 0 else ToNat(b[..|b| - 1]) * 256 + b[|b| - 1] as nat
  }

  lemma {:induction false} ToNatBound(b: Bytes)
    ensures ToNat(b) < Pow2(8 * |b|)
  {
    if b != [] {
      var n := |b|;
      ToNatBound(b[..n - 1]);
      Pow2Add(8 * (n - 1), 8);
      assert Pow2(8) == 256;
    }
  }

  /** The `len`-byte big-endian encoding of `n` (the low `len` bytes of it). */
  function ToBytes(n: nat, len: nat): (b: Bytes)
    ensures |b| == len
  {
    if len == 0 then [] else ToBytes(n / 256, len - 1) + [(n % 256) as byte]
  }

  lemma {:induction false} ToBytesRoundTrip(n: nat, len: nat)
    requires n < Pow2(8 * len)
    ensures ToNat(ToBytes(n, len)) == n
  {
    if len > 0 {
      Pow2Add(8 * (len - 1), 8);
      assert Pow2(8) == 256;
      assert n / 256 < Pow2(8 * (len - 1));
      ToBytesRoundTrip(n / 256, len - 1);
      var b := ToBytes(n, len);
      assert b[..len - 1] == ToBytes(n / 256, len - 1);
    }
  }

  /** `solidityPack(['uint256'], [n])` */
  function PackUint256(n: nat): Word
  {
    ToBytes(n, 32)
  }

  /** The packed `uint256` reads back as `n` whenever `n` fits in 256 bits. */
  lemma {:induction false} PackUint256RoundTrip(n: nat)
    requires n < Pow2(256)
    ensures ToNat(PackUint256(n)) == n
  {
    ToBytesRoundTrip(n, 32);
  }

  /** `solidityPack(['bytes32[]'], [ws])`: the words back to back, in order. */
  function PackWords(ws: seq<Word>): (b: Bytes)
    ensures |b| == 32 * |ws|
    ensures forall i :: 0 <= i < |ws| ==> b[32 * i .. 32 * i + 32] == ws[i]
  {
    if ws == [] then [] else ws[0] + PackWords(ws[1..])
  }

  // ---------------------------------------------------------------------
  // The digest as a bit string
  // ---------------------------------------------------------------------

  /** `toString(2)`: binary digits, most significant first, no leading zeros ("0" for zero). */
  function ToBinary(d: nat): (s: seq<Bit>)
    ensures |s| >= 1
  {
    if d < 2 then [d] else ToBinary(d / 2) + [d % 2]
  }

  function Zeros(n: nat): (z: seq<Bit>)
    ensures |z| == n
    ensures forall i :: 0 <= i < n ==> z[i] == 0
  {
    seq(n, _ => 0)
  }

  /** `padStart(width, '0')`: never truncates a longer string. */
  function PadStart(s: seq<Bit>, width: nat): seq<Bit>
  {
    if |s| >= width then s else Zeros(width - |s|) + s
  }

  /** The padded string is `s` preceded by just enough zeros to reach `width`. */
  lemma {:induction false} PadStartSpec(s: seq<Bit>, width: nat)
    ensures var r := PadStart(s, width);
      && |r| == (if |s| >= width then |s| else width)
      && r[|r| - |s|..] == s
      && forall i :: 0 <= i < |r| - |s| ==> r[i] == 0
  {
  }

  /** The digest's bit string as both sign_hash and verify_signed_hash build it. */
  function DigestBits(d: nat): seq<Bit>
  {
    PadStart(ToBinary(d), 256)
  }

  /** Reads a bit string back as a number, most significant bit first. */
  function FromBits(s: seq<Bit>): nat
  {
    if s == [] then 0 else FromBits(s[..|s| - 1]) * 2 + s[|s| - 1]
  }

  /** Binary digit `k` of `d`, counted from the least significant end. */
  function BitOf(d: nat, k: nat): Bit
  {
    if k == 0 then d % 2 else BitOf(d / 2, k - 1)
  }

  /** Bit `i` of a 256-bit digest, counted from the most significant end. */
  function BitAt(d: nat, i: nat): Bit
    requires i < 256
  {
    BitOf(d, 255 - i)
  }

  lemma {:induction false} ToBinaryLength(d: nat, k: nat)
    requires k >= 1
    ensures |ToBinary(d)| <= k <==> d < Pow2(k)
    decreases d
  {
    if d < 2 {
      Pow2Monotone(1, k);
    } else if k == 1 {
      assert Pow2(1) == 2;
    } else {
      ToBinaryLength(d / 2, k - 1);
    }
  }

  lemma {:induction false} DigestBitsLength(d: nat)
    ensures |DigestBits(d)| >= 256
    ensures |DigestBits(d)| == 256 <==> d < Pow2(256)
  {
    ToBinaryLength(d, 256);
  }

  lemma {:induction false} FromBitsLeadingZeros(k: nat, s: seq<Bit>)
    ensures FromBits(Zeros(k) + s) == FromBits(s)
    decreases |s|
  {
    if s == [] {
      assert Zeros(k) + s == Zeros(k);
      FromBitsZeros(k);
    } else {
      var s' := s[..|s| - 1];
      assert (Zeros(k) + s)[..|Zeros(k) + s| - 1] == Zeros(k) + s';
      FromBitsLeadingZeros(k, s');
    }
  }

  lemma {:induction false} FromBitsZeros(k: nat)
    ensures FromBits(Zeros(k)) == 0
  {
    if k > 0 {
      assert Zeros(k)[..k - 1] == Zeros(k - 1);
      FromBitsZeros(k - 1);
    }
  }

  lemma {:induction false} FromBitsToBinary(d: nat)
    ensures FromBits(ToBinary(d)) == d
    decreases d
  {
    if d >= 2 {
      var s := ToBinary(d);
      assert s[..|s| - 1] == ToBinary(d / 2);
      FromBitsToBinary(d / 2);
    }
  }

  /** The padded bit string denotes the digest it came from. */
  lemma {:induction false} DigestBitsRoundTrip(d: nat)
    ensures FromBits(DigestBits(d)) == d
  {
    FromBitsToBinary(d);
    if |ToBinary(d)| < 256 {
      FromBitsLeadingZeros(256 - |ToBinary(d)|, ToBinary(d));
    }
  }

  lemma {:induction false} DigestBitsInjective(d1: nat, d2: nat)
    requires DigestBits(d1) == DigestBits(d2)
    ensures d1 == d2
  {
    DigestBitsRoundTrip(d1);
    DigestBitsRoundTrip(d2);
  }

  lemma {:induction false} BitOfSmall(d: nat, k: nat)
    requires d < Pow2(k)
    ensures BitOf(d, k) == 0
  {
    if k > 0 {
      BitOfSmall(d / 2, k - 1);
    }
  }

  lemma {:induction false} ToBinaryAt(d: nat, j: nat)
    requires j < |ToBinary(d)|
    ensures ToBinary(d)[j] == BitOf(d, |ToBinary(d)| - 1 - j)
    decreases d
  {
    if d >= 2 {
      var t := ToBinary(d / 2);
      if j < |t| {
        ToBinaryAt(d / 2, j);
      }
    }
  }

  lemma {:induction false} DigestBitAt(d: nat, i: nat)
    requires d < Pow2(256) && i < 256
    ensures |DigestBits(d)| == 256 && DigestBits(d)[i] == BitAt(d, i)
  {
    DigestBitsLength(d);
    var b := ToBinary(d);
    var n := |b|;
    var pad := 256 - n;
    if i < pad {
      ToBinaryLength(d, n);
      Pow2Monotone(n, 255 - i);
      BitOfSmall(d, 255 - i);
      assert DigestBits(d)[i] == 0;
    } else {
      assert DigestBits(d)[i] == b[i - pad];
      ToBinaryAt(d, i - pad);
    }
  }

  /** For a digest below 2^256 the padded bit string is exactly its 256 bits, MSB first. */
  lemma {:induction false} DigestBitsAt(d: nat)
    requires d < Pow2(256)
    ensures |DigestBits(d)| == 256
    ensures forall i :: 0 <= i < 256 ==> DigestBits(d)[i] == BitAt(d, i)
  {
    DigestBitsLength(d);
    forall i | 0 <= i < 256
      ensures DigestBits(d)[i] == BitAt(d, i)
    {
      DigestBitAt(d, i);
    }
  }

  /** A parsed 32-byte digest always has a 256-bit padded bit string. */
  lemma {:induction false} DigestFits(w: Word)
    ensures ToNat(w) < Pow2(256)
    ensures |DigestBits(ToNat(w))| == 256
  {
    ToNatBound(w);
    DigestBitsLength(ToNat(w));
  }
}
