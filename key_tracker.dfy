/**
 * lib/KeyTrackerB.js: deriving a full Lamport key pair from one 32-byte
 * secret, compressing it to `{secret, pkh}` and re-expanding it with an
 * integrity check, and the FIFO pool of compressed keys that hands each key
 * out at most once.
 */
module KeyTrackerB {
  import opened Results
  import opened Encoding
  import opened Common

  /** The only form in which a key is stored. */
  datatype CompressedKeyPair = CompressedKeyPair(secret: Word, pkh: Word)

  /** A key pair together with the secret it is derived from and its public key hash. */
  datatype KeyPair = KeyPair(pri: seq<RandPair>, pub: seq<PubPair>, secret: Word, pkh: Word)

  /** `COMBINE(secret, index.toString())`: `solidityPack(['uint256', 'uint256'], [secret, index])`. */
  function Combine(secret: Word, index: nat): (b: Bytes)
    ensures |b| == 64 && b[..32] == secret && b[32..] == PackUint256(index)
  {
    secret + PackUint256(index)
  }

  /** Intermediate secret number `j`: `HASH(COMBINE(secret, j))`. */
  function IntermediateSecret(h: Hash, secret: Word, j: nat): (s: Hex)
    ensures s.prefixed && s.bytes == h(Combine(secret, j))
  {
    AsHex(h(Combine(secret, j)))
  }

  /** The elements at even positions: `filter((_, i) => i % 2 === 0)`. */
  function EvenIndexed<T>(s: seq<T>): (r: seq<T>)
    ensures |r| == (|s| + 1) / 2
    ensures forall i :: 0 <= i < |r| ==> r[i] == s[2 * i]
  {
    if |s| == 0 then [] else if |s| == 1 then [s[0]] else [s[0]] + EvenIndexed(s[2..])
  }

  /** The elements at odd positions: `filter((_, i) => i % 2 === 1)`. */
  function OddIndexed<T>(s: seq<T>): (r: seq<T>)
    ensures |r| == |s| / 2
    ensures forall i :: 0 <= i < |r| ==> r[i] == s[2 * i + 1]
  {
    if |s| < 2 then [] else [s[1]] + OddIndexed(s[2..])
  }

  /**
   * Steps 1 and 2 of both uncompressLamport and mk_compressed_key_pair: 512
   * intermediate secrets, split into even and odd halves and zipped into 256 pairs.
   */
  function DerivePrivateKey(h: Hash, secret: Word): (pri: seq<RandPair>)
    ensures |pri| == 256
    ensures forall i :: 0 <= i < 256 ==>
      pri[i] == RandPair(IntermediateSecret(h, secret, 2 * i), IntermediateSecret(h, secret, 2 * i + 1))
  {
    var intermediate := seq(512, j requires 0 <= j < 512 => IntermediateSecret(h, secret, j));
    var left := EvenIndexed(intermediate);
    var right := OddIndexed(intermediate);
    assert |left| == 256 && |right| == 256;
    seq(256, i requires 0 <= i < 256 => RandPair(left[i], right[i]))
  }

  /** `mk_compressed_key_pair`, with the random initial secret passed in as `seed`. */
  function MakeKeyPair(h: Hash, seed: Word): (k: KeyPair)
    ensures k.secret == seed
  {
    var pri := DerivePrivateKey(h, seed);
    var pub := PubFromPri(h, pri).value;
    var pkh := PkhFromPublicKey(h, pub).value;
    KeyPair(pri, pub, seed, pkh)
  }

  /**
   * What mk_compressed_key_pair derives from its secret: pair `i` of the
   * private key holds intermediate secrets `2i` and `2i + 1`, the public key
   * is `pubFromPri` of it (pair `i` hashes those two secrets once more), and
   * the public key hash is `pkhFromPublicKey` of the public key.
   */
  lemma {:induction false} MakeKeyPairSpec(h: Hash, seed: Word)
    ensures var k := MakeKeyPair(h, seed);
      && k.pri == DerivePrivateKey(h, seed)
      && |k.pri| == 256 && AllPrefixed(k.pri)
      && PubFromPri(h, k.pri) == Ok(k.pub)
      && |k.pub| == 256
      && (forall i :: 0 <= i < 256 ==>
            k.pub[i] == PubPair(h(h(Combine(seed, 2 * i))), h(h(Combine(seed, 2 * i + 1)))))
      && PkhFromPublicKey(h, k.pub) == Ok(k.pkh)
  {
  }

  /** `compressLamport` */
  function CompressLamport(k: KeyPair): (c: CompressedKeyPair)
    ensures c.secret == k.secret && c.pkh == k.pkh
  {
    CompressedKeyPair(k.secret, k.pkh)
  }

  /**
   * `uncompressLamport`: re-derive the private key from the secret, its
   * public key and the public key hash, and check that hash against the
   * stored one. The steps are those of mk_compressed_key_pair; the contract
   * states that both give the same key.
   */
  function UncompressLamport(h: Hash, c: CompressedKeyPair): (r: Result<KeyPair>)
    ensures r.Err? <==> MakeKeyPair(h, c.secret).pkh != c.pkh
    ensures r.Err? ==> r.error == PublicKeyHashMismatch
    ensures r.Ok? ==> r.value.secret == c.secret && r.value.pkh == c.pkh
    ensures r.Ok? ==> r.value == MakeKeyPair(h, c.secret)
  {
    var pri := DerivePrivateKey(h, c.secret);
    var pub := PubFromPri(h, pri).value;
    var pkh := PkhFromPublicKey(h, pub).value;
    if pkh != c.pkh then Err(PublicKeyHashMismatch)
    else Ok(KeyPair(pri, pub, c.secret, c.pkh))
  }

  /** `.map(uncompressLamport)`: the first failure is the result. */
  function UncompressAll(h: Hash, cs: seq<CompressedKeyPair>): (r: Result<seq<KeyPair>>)
    ensures r.Ok? <==> IntactPool(h, cs)
    ensures r.Err? ==> r.error == PublicKeyHashMismatch
    ensures r.Ok? ==> |r.value| == |cs| && forall i :: 0 <= i < |cs| ==> r.value[i] == UncompressLamport(h, cs[i]).value
  {
    if cs == [] then Ok([])
    else
      IntactCons(h, cs);
      var first :- UncompressLamport(h, cs[0]);
      var rest :- UncompressAll(h, cs[1..]);
      Ok([first] + rest)
  }

  function CompressAll(ks: seq<KeyPair>): (cs: seq<CompressedKeyPair>)
    ensures |cs| == |ks|
    ensures forall i :: 0 <= i < |ks| ==> cs[i].secret == ks[i].secret && cs[i].pkh == ks[i].pkh
  {
    seq(|ks|, i requires 0 <= i < |ks| => CompressLamport(ks[i]))
  }

  function MakeKeyPairs(h: Hash, seeds: seq<Word>): (ks: seq<KeyPair>)
    ensures |ks| == |seeds|
    ensures forall i :: 0 <= i < |seeds| ==> ks[i].secret == seeds[i]
  {
    seq(|seeds|, i requires 0 <= i < |seeds| => MakeKeyPair(h, seeds[i]))
  }

  /** The public key hashes of a list of keys, in order. */
  function Pkhs(cs: seq<CompressedKeyPair>): seq<Word>
  {
    seq(|cs|, i requires 0 <= i < |cs| => cs[i].pkh)
  }

  /** A key pair whose private half has 256 `0x`-prefixed pairs and whose public half belongs to it. */
  predicate SoundKey(h: Hash, k: KeyPair)
  {
    |k.pri| == 256 && AllPrefixed(k.pri) && PubFromPri(h, k.pri) == Ok(k.pub)
  }

  // ---------------------------------------------------------------------
  // Properties of compression
  // ---------------------------------------------------------------------

  /** Compressing a freshly made key and expanding it again never fails and gives the same key. */
  lemma {:induction false} CompressRoundTrip(h: Hash, seed: Word)
    ensures UncompressLamport(h, CompressLamport(MakeKeyPair(h, seed))) == Ok(MakeKeyPair(h, seed))
  {
  }

  /** Every key that expands without an integrity error is fit to sign with. */
  lemma {:induction false} UncompressedKeyIsSound(h: Hash, c: CompressedKeyPair)
    requires UncompressLamport(h, c).Ok?
    ensures SoundKey(h, UncompressLamport(h, c).value)
    ensures PkhFromPublicKey(h, UncompressLamport(h, c).value.pub) == Ok(c.pkh)
  {
    MakeKeyPairSpec(h, c.secret);
  }

  /** Intermediate secret `j` hashes the secret and `j`; distinct indices give distinct hash inputs. */
  lemma {:induction false} CombineInjective(secret: Word, i: nat, j: nat)
    requires i < 512 && j < 512 && i != j
    ensures Combine(secret, i) != Combine(secret, j)
  {
    Pow2Monotone(10, 256);
    assert Pow2(10) == 1024;
    ToBytesRoundTrip(i, 32);
    ToBytesRoundTrip(j, 32);
    assert Combine(secret, i)[32..] == PackUint256(i);
    assert Combine(secret, j)[32..] == PackUint256(j);
  }

  // ---------------------------------------------------------------------
  // The pool
  // ---------------------------------------------------------------------

  /**
   * `KeyTrackerB`: an ordered pool of compressed keys, appended at the tail
   * and consumed at the head. The ghost sets record every secret the tracker
   * has generated and every secret it has handed out, so that the one-time
   * discipline can be stated across calls.
   */
  class KeyTracker {
    const hash: Hash
    var keys: seq<CompressedKeyPair>
    ghost var issued: set<Word>
    ghost var consumed: set<Word>

    /** Every stored key passes its integrity check. */
    ghost predicate Intact()
      reads this
    {
      IntactPool(hash, keys)
    }

    /** No secret is stored twice, and no stored secret has been handed out before. */
    ghost predicate OneTime()
      reads this
    {
      OneTimePool(keys, issued, consumed)
    }

    constructor (hash: Hash)
      ensures this.hash == hash && keys == []
      ensures issued == {} && consumed == {}
      ensures Intact() && OneTime()
    {
      this.hash := hash;
      keys := [];
      issued := {};
      consumed := {};
    }

    /** `count` */
    function Count(): (n: nat)
      reads this
      ensures n == |keys|
    {
      |keys|
    }

    /** `exhausted` */
    function Exhausted(): (r: bool)
      reads this
      ensures r <==> keys == []
    {
      Count() == 0
    }

    /** `more(amount)` with `amount == |seeds|`: make one key per seed, store them compressed at the tail. */
    method More(seeds: seq<Word>) returns (made: seq<KeyPair>)
      modifies this
      ensures made == MakeKeyPairs(hash, seeds)
      ensures keys == old(keys) + CompressAll(made)
      ensures Count() == old(Count()) + |seeds|
      ensures issued == old(issued) + SeedSet(seeds) && consumed == old(consumed)
      ensures old(Intact()) ==> Intact()
      ensures old(OneTime()) && FreshSeeds(old(issued), seeds) ==> OneTime()
    {
      made := MakeKeyPairs(hash, seeds);
      var asCompressed := CompressAll(made);
      FreshKeysIntact(hash, seeds);
      if Intact() {
        IntactAppend(hash, keys, asCompressed);
      }
      if OneTime() && FreshSeeds(issued, seeds) {
        OneTimeAppend(hash, keys, issued, consumed, seeds);
      }
      keys := keys + asCompressed;
      issued := issued + SeedSet(seeds);
    }

    /** `getOne`: remove the head, then expand it; an integrity failure still consumes it. */
    method GetOne() returns (r: Result<KeyPair>)
      modifies this
      ensures old(keys) == [] ==> r == Err(NoKeysLeft) && keys == [] && consumed == old(consumed)
      ensures old(keys) != [] ==> keys == old(keys)[1..] && r == UncompressLamport(hash, old(keys)[0])
      ensures old(keys) != [] ==> consumed == old(consumed) + {old(keys)[0].secret}
      ensures issued == old(issued)
      ensures Count() == if old(keys) == [] then 0 else old(Count()) - 1
      ensures old(Intact()) ==> Intact() && (old(keys) != [] ==> r.Ok?)
      ensures old(OneTime()) ==> OneTime() && (old(keys) != [] ==> old(keys)[0].secret !in old(consumed))
    {
      if keys == [] {
        return Err(NoKeysLeft);
      }
      var returnValue := keys[0];
      TakeHeadFacts(hash, keys, issued, consumed);
      keys := keys[1..];
      consumed := consumed + {returnValue.secret};
      r := UncompressLamport(hash, returnValue);
    }

    /** `getN(amount)`: remove the first `min(amount, count)` keys, then expand them in order. */
    method GetN(amount: nat) returns (r: Result<seq<KeyPair>>)
      modifies this
      ensures var n := if amount < |old(keys)| then amount else |old(keys)|;
        && keys == old(keys)[n..]
        && r == UncompressAll(hash, old(keys)[..n])
        && consumed == old(consumed) + PoolSecrets(old(keys)[..n])
        && (old(OneTime()) ==> forall i :: 0 <= i < n ==> old(keys)[i].secret !in old(consumed))
      ensures issued == old(issued)
      ensures old(Intact()) ==> Intact() && r.Ok?
      ensures old(OneTime()) ==> OneTime()
    {
      var n := if amount < |keys| then amount else |keys|;
      var removed := keys[..n];
      TakeFacts(hash, keys, issued, consumed, n);
      keys := keys[n..];
      consumed := consumed + PoolSecrets(removed);
      r := UncompressAll(hash, removed);
    }
  }

  // ---------------------------------------------------------------------
  // Pool invariants
  // ---------------------------------------------------------------------

  /** Every key in `pool` passes its integrity check. */
  ghost predicate IntactPool(h: Hash, pool: seq<CompressedKeyPair>)
  {
    forall i :: 0 <= i < |pool| ==> UncompressLamport(h, pool[i]).Ok?
  }

  /** No secret occurs twice in `pool`. */
  ghost predicate DistinctPool(pool: seq<CompressedKeyPair>)
  {
    forall i, j :: 0 <= i < j < |pool| ==> pool[i].secret != pool[j].secret
  }

  lemma {:induction false} IntactCons(h: Hash, pool: seq<CompressedKeyPair>)
    requires pool != []
    ensures IntactPool(h, pool) <==> UncompressLamport(h, pool[0]).Ok? && IntactPool(h, pool[1..])
  {
    var tail := pool[1..];
    if IntactPool(h, pool) {
      forall i | 0 <= i < |tail|
        ensures UncompressLamport(h, tail[i]).Ok?
      {
        assert tail[i] == pool[i + 1];
      }
    }
    if UncompressLamport(h, pool[0]).Ok? && IntactPool(h, tail) {
      forall i | 0 <= i < |pool|
        ensures UncompressLamport(h, pool[i]).Ok?
      {
        if i > 0 {
          assert pool[i] == tail[i - 1];
        }
      }
    }
  }

  lemma {:induction false} IntactSlice(h: Hash, pool: seq<CompressedKeyPair>, a: nat, b: nat)
    requires IntactPool(h, pool) && a <= b <= |pool|
    ensures IntactPool(h, pool[a..b])
  {
    forall i | 0 <= i < b - a
      ensures UncompressLamport(h, pool[a..b][i]).Ok?
    {
      assert pool[a..b][i] == pool[a + i];
    }
  }

  /** What taking the first `n` keys does to both pool invariants. */
  lemma {:induction false} TakeFacts(h: Hash, pool: seq<CompressedKeyPair>, issued: set<Word>, consumed: set<Word>, n: nat)
    requires n <= |pool|
    ensures IntactPool(h, pool) ==> UncompressAll(h, pool[..n]).Ok? && IntactPool(h, pool[n..])
    ensures OneTimePool(pool, issued, consumed) ==>
      && OneTimePool(pool[n..], issued, consumed + PoolSecrets(pool[..n]))
      && forall i :: 0 <= i < n ==> pool[i].secret !in consumed
  {
    if IntactPool(h, pool) {
      IntactTake(h, pool, n);
    }
    if OneTimePool(pool, issued, consumed) {
      OneTimeTake(pool, issued, consumed, n);
    }
  }

  /** What taking the head of a pool keeps, for `getOne`. */
  lemma {:induction false} TakeHeadFacts(h: Hash, pool: seq<CompressedKeyPair>, issued: set<Word>, consumed: set<Word>)
    requires pool != []
    ensures IntactPool(h, pool) ==> UncompressLamport(h, pool[0]).Ok? && IntactPool(h, pool[1..])
    ensures OneTimePool(pool, issued, consumed) ==>
      OneTimePool(pool[1..], issued, consumed + {pool[0].secret}) && pool[0].secret !in consumed
  {
    if IntactPool(h, pool) {
      IntactCons(h, pool);
    }
    assert PoolSecrets(pool[..1]) == {pool[0].secret} by {
      assert pool[..1] == [pool[0]];
    }
    if OneTimePool(pool, issued, consumed) {
      OneTimeTake(pool, issued, consumed, 1);
    }
  }

  /** Taking the first `n` keys of an intact pool: they expand, and the rest stays intact. */
  lemma {:induction false} IntactTake(h: Hash, pool: seq<CompressedKeyPair>, n: nat)
    requires IntactPool(h, pool) && n <= |pool|
    ensures UncompressAll(h, pool[..n]).Ok? && IntactPool(h, pool[n..])
  {
    IntactSlice(h, pool, 0, n);
    assert pool[0..n] == pool[..n];
    IntactSlice(h, pool, n, |pool|);
    assert pool[n..|pool|] == pool[n..];
  }

  lemma {:induction false} IntactAppend(h: Hash, p: seq<CompressedKeyPair>, q: seq<CompressedKeyPair>)
    requires IntactPool(h, p) && IntactPool(h, q)
    ensures IntactPool(h, p + q)
  {
    forall i | 0 <= i < |p + q|
      ensures UncompressLamport(h, (p + q)[i]).Ok?
    {
      if i < |p| {
        assert (p + q)[i] == p[i];
      } else {
        assert (p + q)[i] == q[i - |p|];
      }
    }
  }

  /** Keys made by `more` always pass their integrity check. */
  lemma {:induction false} FreshKeysIntact(h: Hash, seeds: seq<Word>)
    ensures IntactPool(h, CompressAll(MakeKeyPairs(h, seeds)))
  {
    var cs := CompressAll(MakeKeyPairs(h, seeds));
    forall i | 0 <= i < |cs|
      ensures UncompressLamport(h, cs[i]).Ok?
    {
      CompressRoundTrip(h, seeds[i]);
    }
  }

  lemma {:induction false} DistinctCons(pool: seq<CompressedKeyPair>)
    requires pool != [] && DistinctPool(pool)
    ensures DistinctPool(pool[1..]) && pool[0] !in pool[1..]
  {
  }

  lemma {:induction false} DistinctSlice(pool: seq<CompressedKeyPair>, n: nat)
    requires DistinctPool(pool) && n <= |pool|
    ensures DistinctPool(pool[n..])
  {
    forall i, j | 0 <= i < j < |pool| - n
      ensures pool[n..][i].secret != pool[n..][j].secret
    {
      assert pool[n..][i] == pool[n + i] && pool[n..][j] == pool[n + j];
    }
  }

  lemma {:induction false} DistinctAppend(pool: seq<CompressedKeyPair>, seeds: seq<Word>, h: Hash)
    requires DistinctPool(pool)
    requires forall i, j :: 0 <= i < j < |seeds| ==> seeds[i] != seeds[j]
    requires forall i, j :: 0 <= i < |pool| && 0 <= j < |seeds| ==> pool[i].secret != seeds[j]
    ensures DistinctPool(pool + CompressAll(MakeKeyPairs(h, seeds)))
  {
    var cs := CompressAll(MakeKeyPairs(h, seeds));
    assert forall k :: 0 <= k < |cs| ==> cs[k].secret == seeds[k];
    DistinctConcat(pool, cs);
  }

  lemma {:induction false} DistinctConcat(p: seq<CompressedKeyPair>, q: seq<CompressedKeyPair>)
    requires DistinctPool(p) && DistinctPool(q)
    requires forall i, j :: 0 <= i < |p| && 0 <= j < |q| ==> p[i].secret != q[j].secret
    ensures DistinctPool(p + q)
  {
    var all := p + q;
    forall i, j | 0 <= i < j < |all|
      ensures all[i].secret != all[j].secret
    {
      if j < |p| {
        assert all[i] == p[i] && all[j] == p[j];
      } else if i < |p| {
        assert all[i] == p[i] && all[j] == q[j - |p|];
      } else {
        assert all[i] == q[i - |p|] && all[j] == q[j - |p|];
      }
    }
  }

  /** The seeds are pairwise distinct and none was generated before. */
  ghost predicate FreshSeeds(issued: set<Word>, seeds: seq<Word>)
  {
    && (forall i, j :: 0 <= i < j < |seeds| ==> seeds[i] != seeds[j])
    && (forall j :: 0 <= j < |seeds| ==> seeds[j] !in issued)
  }

  function SeedSet(seeds: seq<Word>): set<Word>
  {
    set s | s in seeds
  }

  /** The secrets of the entries of `pool`. */
  ghost function PoolSecrets(pool: seq<CompressedKeyPair>): set<Word>
  {
    set c | c in pool :: c.secret
  }

  /**
   * The one-time discipline of a pool: no secret stored twice, every stored
   * secret generated by the tracker, and none of them handed out already.
   */
  ghost predicate OneTimePool(pool: seq<CompressedKeyPair>, issued: set<Word>, consumed: set<Word>)
  {
    && DistinctPool(pool)
    && consumed <= issued
    && (forall i :: 0 <= i < |pool| ==> pool[i].secret in issued && pool[i].secret !in consumed)
  }

  /** Handing out the first `n` keys keeps the discipline, and none of them had been handed out before. */
  lemma {:induction false} OneTimeTake(pool: seq<CompressedKeyPair>, issued: set<Word>, consumed: set<Word>, n: nat)
    requires OneTimePool(pool, issued, consumed) && n <= |pool|
    ensures OneTimePool(pool[n..], issued, consumed + PoolSecrets(pool[..n]))
    ensures forall i :: 0 <= i < n ==> pool[i].secret !in consumed
  {
    DistinctSlice(pool, n);
    var rest := pool[n..];
    forall i | 0 <= i < |rest|
      ensures rest[i].secret in issued && rest[i].secret !in consumed + PoolSecrets(pool[..n])
    {
      assert rest[i] == pool[n + i];
    }
    assert PoolSecrets(pool[..n]) <= issued by {
      forall w | w in PoolSecrets(pool[..n])
        ensures w in issued
      {
        var c :| c in pool[..n] && c.secret == w;
        var k :| 0 <= k < n && pool[..n][k] == c;
        assert pool[k] == c;
      }
    }
  }

  /** Appending keys made from fresh seeds keeps the discipline. */
  lemma {:induction false} OneTimeAppend(h: Hash, pool: seq<CompressedKeyPair>, issued: set<Word>, consumed: set<Word>, seeds: seq<Word>)
    requires OneTimePool(pool, issued, consumed) && FreshSeeds(issued, seeds)
    ensures OneTimePool(pool + CompressAll(MakeKeyPairs(h, seeds)), issued + SeedSet(seeds), consumed)
  {
    var cs := CompressAll(MakeKeyPairs(h, seeds));
    assert forall k :: 0 <= k < |cs| ==> cs[k].secret == seeds[k];
    DistinctAppend(pool, seeds, h);
    var all := pool + cs;
    forall i | 0 <= i < |all|
      ensures all[i].secret in issued + SeedSet(seeds) && all[i].secret !in consumed
    {
      if i < |pool| {
        assert all[i] == pool[i];
      } else {
        assert all[i] == cs[i - |pool|];
        assert seeds[i - |pool|] in seeds;
      }
    }
  }
}
