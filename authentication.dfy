/**
 * LambBedrockAuthentication.ts: what the account operations do locally. Each
 * operation takes its signing key from the caller's key tracker (mutating it
 * in place), builds the digest the account contract expects, signs it,
 * self-checks the signature against the signing key's own public key and
 * prepares it for submission. What the ledger answers (the counterfactual
 * address, the creation logs, the key-addition fee, the balance and the live
 * key count) is passed in.
 */
module Authentication {
  import opened Results
  import opened Encoding
  import opened Common
  import opened KeyTrackerB

  // ---------------------------------------------------------------------
  // Results of the operations
  // ---------------------------------------------------------------------

  /** `[remainingLocal, remainingOnContract, remainingLocal === remainingOnContract]` */
  datatype Report = Report(remainingLocal: nat, remainingOnContract: nat, inSync: bool)

  /** What the signing step produces for a contract call: the digest signed, the signing public key and the signature. */
  datatype Submission = Submission(digest: Word, pub: seq<PubPair>, signature: seq<Hex>)

  /** `factory.createAccount(initialKeyHashes, callersToApprove)` */
  datatype CreationRequest = CreationRequest(pkhs: seq<Word>, callers: seq<string>)

  /** One event log of the creation receipt. */
  datatype Log = Log(topics: seq<string>)

  datatype EndorseOutcome = EndorseOutcome(message: Word, submission: Submission, report: Report)

  datatype AddOutcome = AddOutcome(fee: nat, pkhs: seq<Word>, submission: Submission, report: Report)

  datatype RemoveOutcome = RemoveOutcome(submission: Submission, report: Report)

  /** The second approved caller of every account (pauligroup.eth). */
  const PauliGroup: string := "0x4f171744973047296d90e7828676F4972faFB200"

  /** Key-count reconciliation: a comparison reported to the caller, never an error. */
  function Reconcile(remainingLocal: nat, remainingOnContract: nat): (rep: Report)
    ensures rep.remainingLocal == remainingLocal && rep.remainingOnContract == remainingOnContract
    ensures rep.inSync <==> remainingLocal == remainingOnContract
  {
    Report(remainingLocal, remainingOnContract, remainingLocal == remainingOnContract)
  }

  // ---------------------------------------------------------------------
  // Digests
  // ---------------------------------------------------------------------

  /** `keccak256(solidityPack(['string'], [message]))`, the message given as its UTF-8 bytes. */
  function MessageHash(h: Hash, message: Bytes): (r: Word)
    ensures r == h(message)
  {
    h(message)
  }

  /** `keccak256(solidityPack(['bytes32', 'bytes4'], [messageHash, selector]))` */
  function MessageDigest(h: Hash, message: Bytes, selector: Selector): Word
  {
    h(MessageHash(h, message) + selector)
  }

  /** The message digest hashes 36 bytes: the message hash, then the selector. */
  lemma {:induction false} MessageDigestPacks(h: Hash, message: Bytes, selector: Selector)
    ensures exists packed: Bytes ::
      && MessageDigest(h, message, selector) == h(packed)
      && |packed| == 36 && packed[..32] == h(message) && packed[32..] == selector
  {
    var packed := MessageHash(h, message) + selector;
    assert packed[..32] == h(message) && packed[32..] == selector;
  }

  /** `keccak256(solidityPack(['bytes32[]', 'bytes4'], [pkhs, selector]))` */
  function KeySetDigest(h: Hash, pkhs: seq<Word>, selector: Selector): Word
  {
    h(PackWords(pkhs) + selector)
  }

  /** The key-set digest hashes the hashes back to back, 32 bytes each, then the selector. */
  lemma {:induction false} KeySetDigestPacks(h: Hash, pkhs: seq<Word>, selector: Selector)
    ensures exists packed: Bytes ::
      && KeySetDigest(h, pkhs, selector) == h(packed)
      && |packed| == 32 * |pkhs| + 4
      && packed[32 * |pkhs|..] == selector
      && (forall i :: 0 <= i < |pkhs| ==> packed[32 * i .. 32 * i + 32] == pkhs[i])
  {
    var packed := PackWords(pkhs) + selector;
    assert packed[32 * |pkhs|..] == selector;
    assert forall i :: 0 <= i < |pkhs| ==> packed[32 * i .. 32 * i + 32] == PackWords(pkhs)[32 * i .. 32 * i + 32];
  }

  /**
   * The packed encoding a key-set digest hashes is unambiguous: it determines
   * both the hash list and the selector.
   */
  lemma {:induction false} KeySetEncodingInjective(p: seq<Word>, q: seq<Word>, s: Selector, t: Selector)
    requires PackWords(p) + s == PackWords(q) + t
    ensures p == q && s == t
  {
    var a := PackWords(p) + s;
    var b := PackWords(q) + t;
    assert |p| == |q| by {
      assert |a| == 32 * |p| + 4 && |b| == 32 * |q| + 4;
    }
    assert s == a[32 * |p|..] && t == b[32 * |q|..];
    forall i | 0 <= i < |p|
      ensures p[i] == q[i]
    {
      assert PackWords(p)[32 * i..32 * i + 32] == a[32 * i..32 * i + 32];
      assert PackWords(q)[32 * i..32 * i + 32] == b[32 * i..32 * i + 32];
    }
  }

  /**
   * The input a message digest hashes is unambiguous too: it fixes the
   * message hash and the selector.
   */
  lemma {:induction false} MessageEncodingInjective(h: Hash, m1: Bytes, m2: Bytes, s: Selector, t: Selector)
    requires MessageHash(h, m1) + s == MessageHash(h, m2) + t
    ensures h(m1) == h(m2) && s == t
  {
    var a := MessageHash(h, m1) + s;
    var b := MessageHash(h, m2) + t;
    assert a[..32] == h(m1) && a[32..] == s;
    assert b[..32] == h(m2) && b[32..] == t;
  }

  /**
   * What the selector is for: under different selectors (different contract
   * functions) no hashed message input equals a hashed key-set input, and no
   * two key-set inputs are equal. The signed digests then differ only if the
   * hash is collision-resistant, which this model does not assume.
   */
  lemma {:induction false} SelectorsSeparate(h: Hash, m: Bytes, p: seq<Word>, q: seq<Word>, s: Selector, t: Selector)
    requires s != t
    ensures MessageHash(h, m) + s != PackWords(p) + t
    ensures PackWords(p) + s != PackWords(q) + t
  {
    var a := MessageHash(h, m) + s;
    var b := PackWords(p) + t;
    if |a| == |b| {
      assert |p| == 1;
      assert a[32..] == s && b[32..] == t;
    }
    var c := PackWords(p) + s;
    var d := PackWords(q) + t;
    if |c| == |d| {
      assert |p| == |q|;
      assert c[32 * |p|..] == s && d[32 * |q|..] == t;
    }
  }

  // ---------------------------------------------------------------------
  // sign -> checkSignature -> convertSignatureForSolidity
  // ---------------------------------------------------------------------

  /**
   * The signing pipeline every operation runs on its digest: `sign_hash`
   * with the key's private half, `checkSignature` against the key's own
   * public half, then `convertSignatureForSolidity`. The first error stops it.
   */
  method SignForSubmission(h: Hash, digest: Word, key: KeyPair) returns (r: Result<seq<Hex>>)
    ensures var d := ToNat(digest);
      match SignHash(d, key.pri)
      case Err(e) => r == Err(e)
      case Ok(sig) =>
        match VerifyOutcome(h, d, sig, key.pub)
        case Ok(valid) => r == if valid then Ok(ConvertSignatureForSolidity(sig)) else Err(InvalidSignature)
        case Err(e) => r == Err(e)
    ensures r.Ok? ==> VerifyOutcome(h, ToNat(digest), r.value, key.pub) == Ok(true)
    ensures SoundKey(h, key) ==> r.Ok?
  {
    var d := ToNat(digest);
    DigestFits(digest);
    if SoundKey(h, key) {
      SignThenVerify(h, d, key.pri);
    }
    var sig :- SignHash(d, key.pri);
    var checked :- CheckSignature(h, key.pub, d, sig);
    VerifyAfterConvert(h, d, checked, key.pub);
    r := Ok(ConvertSignatureForSolidity(checked));
  }

  // ---------------------------------------------------------------------
  // createAccount
  // ---------------------------------------------------------------------

  /** `log.topics[0] === topic` */
  predicate HasTopic(log: Log, topic: string)
  {
    |log.topics| > 0 && log.topics[0] == topic
  }

  /** `logs.find(...)`, as the index of the first log whose first topic is `topic`. */
  function FindLog(logs: seq<Log>, topic: string): (r: Option<nat>)
    ensures r.Some? ==> r.value < |logs| && HasTopic(logs[r.value], topic)
    ensures r.Some? ==> forall j :: 0 <= j < r.value ==> !HasTopic(logs[j], topic)
    ensures r.None? <==> forall j :: 0 <= j < |logs| ==> !HasTopic(logs[j], topic)
  {
    if logs == [] then None
    else if HasTopic(logs[0], topic) then Some(0)
    else match FindLog(logs[1..], topic)
      case None => None
      case Some(i) => Some(i + 1)
  }

  /** JavaScript `s.slice(n)`: empty when `s` is shorter than `n`. */
  function Drop(s: string, n: nat): (r: string)
    ensures |s| <= n ==> r == []
    ensures n < |s| ==> r == s[n..]
  {
    if |s| <= n then [] else s[n..]
  }

  /** `creationEvent.topics[1].slice(26)` behind `0x`: the address in the last 20 bytes of the topic. */
  function DeployedAddress(logs: seq<Log>, topic: string): (r: Result<string>)
    ensures r.Err? <==> FindLog(logs, topic).None? || |logs[FindLog(logs, topic).value].topics| < 2
    ensures r.Err? ==> r.error == UndefinedElement
    ensures r.Ok? ==> r.value == "0x" + Drop(logs[FindLog(logs, topic).value].topics[1], 26)
  {
    match FindLog(logs, topic)
    case None => Err(UndefinedElement)
    case Some(i) =>
      if |logs[i].topics| < 2 then Err(UndefinedElement)
      else Ok("0x" + Drop(logs[i].topics[1], 26))
  }

  function LowerChar(c: char): char
  {
    if 'A' <= c <= 'Z' then (c as int - 'A' as int + 'a' as int) as char else c
  }

  /** `toLowerCase`, on the ASCII letters addresses are written with. */
  function ToLower(s: string): (r: string)
    ensures |r| == |s|
    ensures forall i :: 0 <= i < |s| ==> r[i] == LowerChar(s[i])
  {
    seq(|s|, i requires 0 <= i < |s| => LowerChar(s[i]))
  }

  /** Two addresses that differ only in letter case are the same address. */
  predicate SameAddress(a: string, b: string)
  {
    ToLower(a) == ToLower(b)
  }

  /** Comparing addresses ignores case in both directions and is an equivalence. */
  lemma {:induction false} SameAddressProperties(a: string, b: string, c: string)
    ensures SameAddress(a, a)
    ensures SameAddress(a, b) ==> SameAddress(b, a)
    ensures SameAddress(a, b) && SameAddress(b, c) ==> SameAddress(a, c)
    ensures SameAddress(a, ToLower(a))
  {
    var l := ToLower(a);
    assert ToLower(l) == l by {
      forall i | 0 <= i < |l|
        ensures ToLower(l)[i] == l[i]
      {
      }
    }
  }

  /** What a successful `createAccount` hands back: the account address and its key tracker. */
  datatype Created = Created(address: string, tracker: KeyTracker)

  /**
   * `createAccount(initialKeyCount)` with `initialKeyCount == |seeds|`: a
   * fresh tracker is filled with one key per seed, their hashes are sent to
   * the factory together with the approved callers, and the address read
   * from the creation log must equal the counterfactual one. When that
   * check throws, the caller gets no tracker, although the request was sent.
   */
  method CreateAccount(hash: Hash, seeds: seq<Word>, callerAddress: string, counterfactual: string,
                       logs: seq<Log>, accountCreatedTopic: string)
    returns (r: Result<Created>, request: CreationRequest)
    ensures request.pkhs == Pkhs(CompressAll(MakeKeyPairs(hash, seeds)))
    ensures request.callers == [callerAddress, PauliGroup]
    ensures DeployedAddress(logs, accountCreatedTopic).Err? ==> r == Err(UndefinedElement)
    ensures
      && DeployedAddress(logs, accountCreatedTopic).Ok?
      && !SameAddress(DeployedAddress(logs, accountCreatedTopic).value, counterfactual)
      ==> r == Err(AddressMismatch)
    ensures r.Ok? <==>
      DeployedAddress(logs, accountCreatedTopic).Ok? && SameAddress(DeployedAddress(logs, accountCreatedTopic).value, counterfactual)
    ensures r.Ok? ==>
      var tracker := r.value.tracker;
      && r.value.address == counterfactual
      && fresh(tracker) && tracker.hash == hash
      && tracker.keys == CompressAll(MakeKeyPairs(hash, seeds)) && tracker.Count() == |seeds|
      && request.pkhs == Pkhs(tracker.keys)
      && tracker.issued == SeedSet(seeds) && tracker.consumed == {}
      && tracker.Intact()
      && (FreshSeeds({}, seeds) ==> tracker.OneTime())
  {
    var tracker := new KeyTracker(hash);
    var initialKeys := tracker.More(seeds);
    assert tracker.issued == SeedSet(seeds) by {
      assert {} + SeedSet(seeds) == SeedSet(seeds);
    }
    var initialKeyHashes := KeyHashes(initialKeys);
    assert tracker.keys == CompressAll(initialKeys) by {
      assert [] + CompressAll(initialKeys) == CompressAll(initialKeys);
    }
    request := CreationRequest(initialKeyHashes, [callerAddress, PauliGroup]);
    var deployed := DeployedAddress(logs, accountCreatedTopic);
    r := if deployed.Err? then Err(deployed.error)
         else if SameAddress(deployed.value, counterfactual) then Ok(Created(counterfactual, tracker))
         else Err(AddressMismatch);
  }

  /** `initialKeys.map(key => key.pkh)`: the hashes the tracker stores for those keys once compressed. */
  function KeyHashes(ks: seq<KeyPair>): (r: seq<Word>)
    ensures r == Pkhs(CompressAll(ks))
  {
    seq(|ks|, i requires 0 <= i < |ks| => ks[i].pkh)
  }

  // ---------------------------------------------------------------------
  // signMessageAndPostSignature
  // ---------------------------------------------------------------------

  /**
   * `signMessageAndPostSignature(message, account, keys)`: take one key,
   * sign `keccak256(messageHash ++ selector)` with it and report the
   * remaining key counts.
   */
  method SignMessageAndPostSignature(keys: KeyTracker, message: Bytes, selector: Selector, remainingOnContract: nat)
    returns (r: Result<EndorseOutcome>)
    modifies keys
    ensures keys.keys == if old(keys.keys) == [] then [] else old(keys.keys)[1..]
    ensures old(keys.keys) == [] ==> r == Err(NoKeysLeft)
    ensures old(keys.keys) != [] ==>
      (r.Err? <==> UncompressLamport(keys.hash, old(keys.keys)[0]).Err?)
    ensures old(keys.keys) != [] && UncompressLamport(keys.hash, old(keys.keys)[0]).Err? ==> r == Err(PublicKeyHashMismatch)
    ensures r.Ok? ==>
      var key := UncompressLamport(keys.hash, old(keys.keys)[0]).value;
      var s := r.value.submission;
      && r.value.message == MessageHash(keys.hash, message)
      && s.digest == MessageDigest(keys.hash, message, selector)
      && s.pub == key.pub
      && SignHash(ToNat(s.digest), key.pri).Ok?
      && s.signature == ConvertSignatureForSolidity(SignHash(ToNat(s.digest), key.pri).value)
      && VerifyOutcome(keys.hash, ToNat(s.digest), s.signature, key.pub) == Ok(true)
      && r.value.report == Reconcile(|keys.keys|, remainingOnContract)
    ensures keys.consumed == if old(keys.keys) == [] then old(keys.consumed) else old(keys.consumed) + {old(keys.keys)[0].secret}
    ensures keys.issued == old(keys.issued)
    ensures old(keys.Intact()) ==> keys.Intact() && (old(keys.keys) != [] ==> r.Ok?)
    ensures old(keys.OneTime()) ==> keys.OneTime() && (old(keys.keys) != [] ==> old(keys.keys)[0].secret !in old(keys.consumed))
  {
    var signingKeys :- keys.GetOne();
    UncompressedKeyIsSound(keys.hash, old(keys.keys)[0]);
    var messageHash := MessageHash(keys.hash, message);
    var hashToSign := MessageDigest(keys.hash, message, selector);
    var signature := SignForSubmission(keys.hash, hashToSign, signingKeys);
    var submission := Submission(hashToSign, signingKeys.pub, signature.value);
    r := Ok(EndorseOutcome(messageHash, submission, Reconcile(keys.Count(), remainingOnContract)));
  }

  // ---------------------------------------------------------------------
  // addKeys
  // ---------------------------------------------------------------------

  /** `keysToAdd.map(key => pkhFromPublicKey(key.pub))` */
  function PublicKeyHashes(h: Hash, made: seq<KeyPair>): (r: Result<seq<Word>>)
    ensures r.Ok? <==> forall i :: 0 <= i < |made| ==> |made[i].pub| == 256
    ensures r.Err? ==> r.error == InvalidArrayLength
    ensures r.Ok? ==> |r.value| == |made|
    ensures r.Ok? ==> forall i :: 0 <= i < |made| ==> Ok(r.value[i]) == PkhFromPublicKey(h, made[i].pub)
  {
    if exists i :: 0 <= i < |made| && |made[i].pub| != 256 then Err(InvalidArrayLength)
    else Ok(seq(|made|, i requires 0 <= i < |made| => PkhFromPublicKey(h, made[i].pub).value))
  }

  /** The hashes submitted for fresh keys are exactly the hashes the tracker stores for them, in order. */
  lemma {:induction false} FreshKeyHashes(h: Hash, seeds: seq<Word>)
    ensures PublicKeyHashes(h, MakeKeyPairs(h, seeds)) == Ok(Pkhs(CompressAll(MakeKeyPairs(h, seeds))))
  {
    var made := MakeKeyPairs(h, seeds);
    forall i | 0 <= i < |made|
      ensures |made[i].pub| == 256 && PkhFromPublicKey(h, made[i].pub) == Ok(made[i].pkh)
    {
      MakeKeyPairSpec(h, seeds[i]);
    }
    var r := PublicKeyHashes(h, made).value;
    assert r == Pkhs(CompressAll(made));
  }

  /**
   * `addKeys(account, keys, amountToAdd)` with `amountToAdd == |seeds|`: take
   * the signing key, append the new keys, check the balance against the fee,
   * then sign `keccak256(pkhs ++ selector)` over the new keys' hashes.
   */
  method AddKeys(keys: KeyTracker, seeds: seq<Word>, fee: nat, balance: nat, selector: Selector,
                 remainingOnContract: nat)
    returns (r: Result<AddOutcome>)
    modifies keys
    ensures old(keys.keys) == [] ==> keys.keys == [] && r == Err(NoKeysLeft)
    ensures old(keys.keys) != [] && UncompressLamport(keys.hash, old(keys.keys)[0]).Err? ==>
      keys.keys == old(keys.keys)[1..] && r == Err(PublicKeyHashMismatch)
    ensures old(keys.keys) != [] && UncompressLamport(keys.hash, old(keys.keys)[0]).Ok? ==>
      && keys.keys == old(keys.keys)[1..] + CompressAll(MakeKeyPairs(keys.hash, seeds))
      && keys.Count() == old(keys.Count()) - 1 + |seeds|
      && keys.issued == old(keys.issued) + SeedSet(seeds)
      && (r.Err? <==> balance < fee)
      && (r.Err? ==> r.error == InsufficientBalance)
    ensures r.Ok? ==>
      var key := UncompressLamport(keys.hash, old(keys.keys)[0]).value;
      var s := r.value.submission;
      && r.value.fee == fee
      && r.value.pkhs == Pkhs(CompressAll(MakeKeyPairs(keys.hash, seeds)))
      && s.digest == KeySetDigest(keys.hash, r.value.pkhs, selector)
      && s.pub == key.pub
      && SignHash(ToNat(s.digest), key.pri).Ok?
      && s.signature == ConvertSignatureForSolidity(SignHash(ToNat(s.digest), key.pri).value)
      && VerifyOutcome(keys.hash, ToNat(s.digest), s.signature, key.pub) == Ok(true)
      && r.value.report == Reconcile(|keys.keys|, remainingOnContract)
    ensures keys.consumed == if old(keys.keys) == [] then old(keys.consumed) else old(keys.consumed) + {old(keys.keys)[0].secret}
    ensures old(keys.Intact()) ==> keys.Intact() && (old(keys.keys) != [] ==> (r.Ok? <==> fee <= balance))
    ensures keys.issued ==
      if old(keys.keys) != [] && UncompressLamport(keys.hash, old(keys.keys)[0]).Ok?
      then old(keys.issued) + SeedSet(seeds) else old(keys.issued)
    ensures
      && old(keys.OneTime())
      && (FreshSeeds(old(keys.issued), seeds) || old(keys.keys) == [] || UncompressLamport(keys.hash, old(keys.keys)[0]).Err?)
      ==> keys.OneTime() && (old(keys.keys) != [] ==> old(keys.keys)[0].secret !in old(keys.consumed))
  {
    ghost var pool := keys.keys;
    var signingKeys :- keys.GetOne();
    UncompressedKeyIsSound(keys.hash, pool[0]);
    var keysToAdd := keys.More(seeds);
    FreshKeyHashes(keys.hash, seeds);
    var publicKeyHashes := PublicKeyHashes(keys.hash, keysToAdd).value;
    if balance < fee {
      return Err(InsufficientBalance);
    }
    var hashToSign := KeySetDigest(keys.hash, publicKeyHashes, selector);
    var signature := SignForSubmission(keys.hash, hashToSign, signingKeys);
    var submission := Submission(hashToSign, signingKeys.pub, signature.value);
    r := Ok(AddOutcome(fee, publicKeyHashes, submission, Reconcile(keys.Count(), remainingOnContract)));
  }

  // ---------------------------------------------------------------------
  // removeKeys
  // ---------------------------------------------------------------------

  /** `b` is `a` with some entries dropped, the rest in their original order. */
  predicate IsSubsequence<T(==)>(a: seq<T>, b: seq<T>)
    decreases |a|
  {
    if b == [] then true
    else if a == [] then false
    else if a[0] == b[0] then IsSubsequence(a[1..], b[1..])
    else IsSubsequence(a[1..], b)
  }

  /**
   * `keys.keys.filter((_, i) => !targetIndices.includes(i))`, where the
   * target indices are those of the keys whose hash is listed.
   */
  function KeepUnlisted(pool: seq<CompressedKeyPair>, toRemove: seq<Word>): seq<CompressedKeyPair>
  {
    if pool == [] then []
    else
      var rest := KeepUnlisted(pool[1..], toRemove);
      if pool[0].pkh in toRemove then rest else [pool[0]] + rest
  }

  /** The filter keeps exactly the entries whose key hash is not listed. */
  lemma {:induction false} KeepUnlistedMembers(pool: seq<CompressedKeyPair>, toRemove: seq<Word>)
    ensures forall c :: c in KeepUnlisted(pool, toRemove) <==> c in pool && c.pkh !in toRemove
  {
    if pool != [] {
      assert pool == [pool[0]] + pool[1..];
      KeepUnlistedMembers(pool[1..], toRemove);
    }
  }

  /** Every unlisted entry is kept as often as it occurs; listed ones vanish. */
  lemma {:induction false} KeepUnlistedCounts(pool: seq<CompressedKeyPair>, toRemove: seq<Word>)
    ensures forall c ::
      multiset(KeepUnlisted(pool, toRemove))[c] == (if c.pkh in toRemove then 0 else multiset(pool)[c])
  {
    if pool != [] {
      assert pool == [pool[0]] + pool[1..];
      KeepUnlistedCounts(pool[1..], toRemove);
    }
  }

  /** The kept entries stay in their original order. */
  lemma {:induction false} KeepUnlistedOrder(pool: seq<CompressedKeyPair>, toRemove: seq<Word>)
    ensures IsSubsequence(pool, KeepUnlisted(pool, toRemove))
  {
    if pool != [] {
      KeepUnlistedOrder(pool[1..], toRemove);
      var rest := KeepUnlisted(pool[1..], toRemove);
      if pool[0].pkh !in toRemove {
        assert ([pool[0]] + rest)[1..] == rest;
      } else if rest != [] {
        // a listed head cannot match the first kept entry, which is unlisted
        KeepUnlistedMembers(pool[1..], toRemove);
        assert rest[0] in rest;
      }
    }
  }

  /** With nothing listed that the pool holds, the filter changes nothing. */
  lemma {:induction false} KeepUnlistedNothingListed(pool: seq<CompressedKeyPair>, toRemove: seq<Word>)
    requires forall i :: 0 <= i < |pool| ==> pool[i].pkh !in toRemove
    ensures KeepUnlisted(pool, toRemove) == pool
  {
    if pool != [] {
      assert forall i :: 0 <= i < |pool| - 1 ==> pool[1..][i] == pool[i + 1];
      KeepUnlistedNothingListed(pool[1..], toRemove);
      assert pool == [pool[0]] + pool[1..];
    }
  }

  /** Filtering keeps the pool free of repeated secrets. */
  lemma {:induction false} KeepUnlistedDistinct(pool: seq<CompressedKeyPair>, toRemove: seq<Word>)
    requires DistinctPool(pool)
    ensures DistinctPool(KeepUnlisted(pool, toRemove))
  {
    if pool != [] {
      DistinctCons(pool);
      KeepUnlistedDistinct(pool[1..], toRemove);
      var rest := KeepUnlisted(pool[1..], toRemove);
      KeepUnlistedMembers(pool[1..], toRemove);
      if pool[0].pkh !in toRemove {
        forall j | 0 <= j < |rest|
          ensures pool[0].secret != rest[j].secret
        {
          assert rest[j] in pool[1..];
          var k :| 0 <= k < |pool| - 1 && pool[1..][k] == rest[j];
          assert pool[k + 1] == rest[j];
        }
        DistinctConcat([pool[0]], rest);
      }
    }
  }

  /** Filtering keeps every remaining key intact. */
  lemma {:induction false} KeepUnlistedIntact(h: Hash, pool: seq<CompressedKeyPair>, toRemove: seq<Word>)
    requires IntactPool(h, pool)
    ensures IntactPool(h, KeepUnlisted(pool, toRemove))
  {
    var r := KeepUnlisted(pool, toRemove);
    KeepUnlistedMembers(pool, toRemove);
    forall i | 0 <= i < |r|
      ensures UncompressLamport(h, r[i]).Ok?
    {
      assert r[i] in pool;
    }
  }

  /** Filtering keeps the one-time discipline. */
  lemma {:induction false} KeepUnlistedOneTime(pool: seq<CompressedKeyPair>, issued: set<Word>, consumed: set<Word>,
                                               toRemove: seq<Word>)
    requires OneTimePool(pool, issued, consumed)
    ensures OneTimePool(KeepUnlisted(pool, toRemove), issued, consumed)
  {
    KeepUnlistedDistinct(pool, toRemove);
    var r := KeepUnlisted(pool, toRemove);
    KeepUnlistedMembers(pool, toRemove);
    forall i | 0 <= i < |r|
      ensures r[i].secret in issued && r[i].secret !in consumed
    {
      assert r[i] in pool;
    }
  }

  /**
   * The local half of removeKeys: every remaining entry is expanded (a
   * mismatch throws and leaves the pool as it was), then the entries whose
   * key hash is listed are dropped.
   */
  method PruneListed(keys: KeyTracker, toRemove: seq<Word>) returns (r: Result<()>)
    modifies keys
    ensures !IntactPool(keys.hash, old(keys.keys)) ==>
      keys.keys == old(keys.keys) && r == Err(PublicKeyHashMismatch)
    ensures IntactPool(keys.hash, old(keys.keys)) ==>
      keys.keys == KeepUnlisted(old(keys.keys), toRemove) && r.Ok?
    ensures keys.consumed == old(keys.consumed) && keys.issued == old(keys.issued)
    ensures old(keys.Intact()) ==> keys.Intact()
    ensures old(keys.OneTime()) ==> keys.OneTime()
  {
    var _ :- UncompressAll(keys.hash, keys.keys);
    if keys.Intact() {
      KeepUnlistedIntact(keys.hash, keys.keys, toRemove);
    }
    if keys.OneTime() {
      KeepUnlistedOneTime(keys.keys, keys.issued, keys.consumed, toRemove);
    }
    keys.keys := KeepUnlisted(keys.keys, toRemove);
    r := Ok(());
  }

  /**
   * `removeKeys(account, keys, toRemove)`: take the signing key, refuse to
   * remove it, expand every remaining key to read its hash, drop the listed
   * ones, then sign `keccak256(toRemove ++ selector)`.
   */
  method RemoveKeys(keys: KeyTracker, toRemove: seq<Word>, selector: Selector, remainingOnContract: nat)
    returns (r: Result<RemoveOutcome>)
    modifies keys
    ensures old(keys.keys) == [] ==> keys.keys == [] && r == Err(NoKeysLeft)
    ensures old(keys.keys) != [] && UncompressLamport(keys.hash, old(keys.keys)[0]).Err? ==>
      keys.keys == old(keys.keys)[1..] && r == Err(PublicKeyHashMismatch)
    ensures old(keys.keys) != [] && UncompressLamport(keys.hash, old(keys.keys)[0]).Ok? ==>
      if old(keys.keys)[0].pkh in toRemove then
        keys.keys == old(keys.keys)[1..] && r == Err(CannotRemoveSigningKey)
      else if !IntactPool(keys.hash, old(keys.keys)[1..]) then
        keys.keys == old(keys.keys)[1..] && r == Err(PublicKeyHashMismatch)
      else
        keys.keys == KeepUnlisted(old(keys.keys)[1..], toRemove) && r.Ok?
    ensures r.Ok? ==>
      var key := UncompressLamport(keys.hash, old(keys.keys)[0]).value;
      var s := r.value.submission;
      && s.digest == KeySetDigest(keys.hash, toRemove, selector)
      && s.pub == key.pub
      && SignHash(ToNat(s.digest), key.pri).Ok?
      && s.signature == ConvertSignatureForSolidity(SignHash(ToNat(s.digest), key.pri).value)
      && VerifyOutcome(keys.hash, ToNat(s.digest), s.signature, key.pub) == Ok(true)
      && r.value.report == Reconcile(|keys.keys|, remainingOnContract)
    ensures keys.consumed == if old(keys.keys) == [] then old(keys.consumed) else old(keys.consumed) + {old(keys.keys)[0].secret}
    ensures keys.issued == old(keys.issued)
    ensures old(keys.Intact()) ==> keys.Intact()
    ensures old(keys.OneTime()) ==> keys.OneTime() && (old(keys.keys) != [] ==> old(keys.keys)[0].secret !in old(keys.consumed))
  {
    ghost var pool := keys.keys;
    var signingKeys :- keys.GetOne();
    UncompressedKeyIsSound(keys.hash, pool[0]);
    var signingPKH := PkhFromPublicKey(keys.hash, signingKeys.pub).value;
    if signingPKH in toRemove {
      return Err(CannotRemoveSigningKey);
    }
    var _ :- PruneListed(keys, toRemove);
    var hashToSign := KeySetDigest(keys.hash, toRemove, selector);
    var signature := SignForSubmission(keys.hash, hashToSign, signingKeys);
    var submission := Submission(hashToSign, signingKeys.pub, signature.value);
    r := Ok(RemoveOutcome(submission, Reconcile(keys.Count(), remainingOnContract)));
  }
}
