# Lamport one-time signatures for Lamb Bedrock accounts — a Dafny model

The system lets an on-chain account be controlled with Lamport one-time
signatures. A client keeps a pool of one-time keys. Each key is stored
compressed, as one 32-byte secret plus the hash of its public key (the
"pkh"). Creating an account fills a new pool and submits the hashes of its
keys, without signing anything. Every operation on an existing account (sign
a message, add keys, remove keys) takes the next key from the pool, signs a
digest with it, and self-checks the signature before submitting it. The
contract verifies the signature and retires the key. The model covers three
layers:

- **Primitives** (`Common`, over `Encoding`):
  - signing a 256-bit digest walks its zero-padded binary string, most significant bit first, and reveals one secret per bit;
  - a public key is the hash of both halves of every private pair;
  - the public key hash is the hash of the packed `bytes32[2][256]` public key;
  - verification compares, position by position, the hash of each revealed secret with the selected public word;
  - signature elements without `0x` get it prepended.
- **Key derivation and the key tracker** (`KeyTrackerB`):
  - one secret expands to 512 intermediate secrets `hash(secret ‖ uint256(j))`, which are paired as even/odd neighbours;
  - compression keeps `{secret, pkh}`; expansion re-derives the key and checks the pkh;
  - the tracker is a class whose `keys` sequence `more` appends to and `getOne`/`getN` consume from the head.
- **Account operations** (`Authentication`): what `createAccount`,
  `signMessageAndPostSignature`, `addKeys` and `removeKeys` do to the
  caller's tracker, which digest each one signs, and in which order they raise
  their errors. Everything the ledger answers is an input:
  - the counterfactual address;
  - the creation logs;
  - the key-addition fee;
  - the balance;
  - the live key count.

Modelling choices:

- **Hash.** Keccak-256 is an uninterpreted function `Hash = Bytes -> Word`, passed as a parameter; the tracker keeps it in a `const`.
- **Packing.** `solidityPack` is concatenation of 32-byte words and 4-byte selectors.
- **Hex text.** It is `Hex(prefixed, bytes)` wherever the source looks at a `0x` prefix: private-key halves and signature elements. ethers' `keccak256` rejects unprefixed text, and that error is modelled.
- **Digest.** It is a natural number. Its bit string is `padStart(toString(2), 256)`, which never truncates, so a digest of 2^256 or more has a longer bit string.
- **Ledger, network and randomness** are parameters: the seeds of new keys are inputs.

Two behaviours of the code are worth stating outright, because the model follows them:

- **Wrong lengths in `verify_signed_hash`.** Its doc comment (Common.ts:77) promises a boolean. The code does not always return one:
  - a public key shorter than the bit string makes it read a missing pair, which throws a TypeError;
  - a signature that runs out before any mismatch makes ethers read a property of `undefined`, which throws a TypeError;
  - elements past the last bit position are never looked at, so a 257-element public key can verify.
- **Order of steps in `removeKeys`.** The head is consumed first and only then is it compared with the list (LambBedrockAuthentication.ts:161-165). So the signing key is gone when `Cannot remove signing key` is raised.

## Model

| member | source | states |
|---|---|---|
| Common.HashB | Common.ts:14 | the hash of the bytes for `0x`-prefixed text; ethers' arrayify error exactly when the prefix is missing |
| Common.Normalize | Common.ts:84-86 | the result is prefixed and carries the same bytes; prefixed text is returned unchanged |
| Common.PubFromPri | Common.ts:13-15 | the public key has one pair per private pair, `(hash(left), hash(right))` in order; it fails (ethers' arrayify error) exactly when some half lacks the `0x` prefix |
| Common.PubWords | Common.ts:31-33 | the `bytes32[2][256]` packing order: word `2i` is `pub[i][0]`, word `2i+1` is `pub[i][1]` |
| Common.PkhFromPublicKey | Common.ts:31-33 | succeeds exactly for 256 pairs (otherwise ethers' array-length error); the pkh is the hash of a 16384-byte string whose 64-byte block `i` is `pub[i][0] ‖ pub[i][1]` |
| Common.IsPrivateKey | Common.ts:45-49 | true exactly when the key has 256 pairs |
| Common.SignHash | Common.ts:45-69 | 'invalid private key' exactly when the key does not have 256 pairs; 'invalid message hash length' exactly when the digest needs more than 256 bits; otherwise 256 elements, element `i` being `pri[i][b_i]` for the MSB-first bit `b_i` |
| Common.SignZeroDigest | Common.ts:62-67 | the all-zero digest reveals the 256 left secrets in order |
| Common.VerifyOutcome | Common.ts:79-94 | `true` exactly when the signature and the public key reach every bit position and every position matches; every error is the TypeError |
| Common.VerifySignedHash | Common.ts:79-94 | the loop's answer: a TypeError when the public key is shorter than the bit string; `false` at the first mismatching position; a TypeError when the signature runs out first; `true` when every position matches |
| Common.SignThenVerify | Common.ts:58-94 | for a 256-pair `0x`-prefixed key and any digest below 2^256, signing succeeds and the signature verifies against `pubFromPri` of the key |
| Common.VerifyIgnoresTrailing | Common.ts:89-93 | elements of the signature and public key past the last bit position do not affect the outcome |
| Common.VerifyBindsDigest | Common.ts:79-94 | when the two halves of every public pair differ, a signature verifies for at most one digest below 2^256 (flipping a digest bit makes it fail) |
| Common.CheckSignature | Common.ts:111-116 | returns the signature unchanged when it verifies, 'Invalid signature' when verification says false, and the verifier's own error otherwise |
| Common.ConvertSignatureForSolidity | Common.ts:118-122 | preserves length and bytes, prefixes every element, leaves prefixed elements unchanged |
| Common.ConvertIdempotent | Common.ts:118-122 | converting twice is converting once |
| Common.VerifyAfterConvert | Common.ts:83-87 | converting a signature does not change what verification decides |
| Encoding.ToNatBound | Common.ts:62 | a big-endian byte string of length `n` denotes a number below 2^(8n) |
| Encoding.PackUint256RoundTrip | lib/KeyTrackerB.js:8 | the packed `uint256` reads back as the number whenever it is below 2^256 |
| Encoding.ToBinaryLength | Common.ts:62 | `toString(2)` of `d` has at most `k` digits exactly when `d < 2^k` |
| Encoding.ToBinaryAt | Common.ts:62 | digit `j` of `toString(2)` is binary digit `len - 1 - j` of the number (most significant first) |
| Encoding.FromBitsToBinary | Common.ts:62 | reading `toString(2)` back gives the number |
| Encoding.PadStartSpec | Common.ts:62 | `padStart(width, '0')` is the string preceded by just enough zeros to reach the width, and the string itself when it is already that long |
| Encoding.PackWords | lib/KeyTrackerB.js:8 | packing a word list is their concatenation: 32 bytes per word, block `i` is word `i` |
| Encoding.ToBytesRoundTrip | lib/KeyTrackerB.js:8 | the `uint256` encoding of a number below 2^(8·len) decodes back to it |
| Encoding.DigestBitsLength | Common.ts:62-64 | the padded bit string has at least 256 bits and exactly 256 when the digest is below 2^256 |
| Encoding.DigestBitsRoundTrip | Common.ts:62 | reading the padded bit string back gives the digest |
| Encoding.DigestBitsInjective | Common.ts:62 | different digests have different bit strings |
| Encoding.DigestBitsAt | Common.ts:62 | for a digest below 2^256, character `i` of the bit string is bit `255 - i` of the digest |
| Encoding.DigestFits | Common.ts:62-64 | a 32-byte hash output is such a digest |
| KeyTrackerB.Combine | lib/KeyTrackerB.js:8 | 64 bytes: the secret, then the index packed as `uint256` |
| KeyTrackerB.IntermediateSecret | lib/KeyTrackerB.js:20 | `0x`-prefixed text of the hash of `COMBINE(secret, j)` |
| KeyTrackerB.EvenIndexed | lib/KeyTrackerB.js:23 | keeps the elements at even positions, in order |
| KeyTrackerB.OddIndexed | lib/KeyTrackerB.js:24 | keeps the elements at odd positions, in order |
| KeyTrackerB.DerivePrivateKey | lib/KeyTrackerB.js:20-25 | 256 pairs, pair `i` being intermediate secrets `2i` and `2i+1`, secret `j` being `hash(secret ‖ uint256(j))` |
| KeyTrackerB.CombineInjective | lib/KeyTrackerB.js:8 | the 512 hash inputs of one secret are pairwise distinct |
| KeyTrackerB.MakeKeyPair | lib/KeyTrackerB.js:51-72 | the key keeps the seed as its secret |
| KeyTrackerB.MakeKeyPairSpec | lib/KeyTrackerB.js:51-72 | the derived private key, `pub = pubFromPri(pri)` (pair `i` hashes secrets `2i`, `2i+1` again), `pkh = pkhFromPublicKey(pub)` |
| KeyTrackerB.CompressLamport | lib/KeyTrackerB.js:44-49 | keeps exactly the secret and the pkh of the key |
| KeyTrackerB.UncompressLamport | lib/KeyTrackerB.js:18-36 | 'Public Key Hash Does Not Match Secret' exactly when the re-derived pkh differs from the stored one; otherwise the key derived from the secret, carrying the stored secret and pkh |
| KeyTrackerB.UncompressedKeyIsSound | lib/KeyTrackerB.js:27-35 | an expanded key has 256 prefixed pairs, `pub = pubFromPri(pri)` and `pkhFromPublicKey(pub)` equal to the stored pkh |
| KeyTrackerB.CompressRoundTrip | lib/KeyTrackerB.js:44-72 | expanding a compressed fresh key never fails and yields exactly that key |
| KeyTrackerB.UncompressAll | lib/KeyTrackerB.js:104 | expands a list in order; fails exactly when some entry fails its check |
| KeyTrackerB.MakeKeyPairs | lib/KeyTrackerB.js:92 | one key per seed, key `i` having secret `seeds[i]` |
| KeyTrackerB.CompressAll | lib/KeyTrackerB.js:93 | one compressed entry per key, with the same secret and pkh |
| KeyTrackerB.KeyTracker.constructor | lib/KeyTrackerB.js:81-84 | an empty pool; nothing generated or handed out yet |
| KeyTrackerB.KeyTracker.Count | lib/KeyTrackerB.js:85-87 | the number of stored entries |
| KeyTrackerB.KeyTracker.Exhausted | lib/KeyTrackerB.js:85-90 | true exactly when the pool is empty (`count` is the pool length) |
| KeyTrackerB.KeyTracker.More | lib/KeyTrackerB.js:91-96 | appends one compressed entry per seed at the tail, earlier entries unchanged; count grows by the number of seeds; returns the uncompressed keys whose compressions are the appended entries; records the seeds as generated; keeps the pool intact, and keeps the one-time discipline (no repeated secret, every stored secret generated and never handed out) when the seeds were never generated before |
| KeyTrackerB.KeyTracker.GetOne | lib/KeyTrackerB.js:97-102 | 'No keys left' on an empty pool; otherwise removes exactly the head (even when its check then fails) and returns its expansion; count drops by one; the head's secret is recorded as handed out; an intact pool stays intact and its head expands; under the one-time discipline the head was never handed out before, and the discipline still holds |
| KeyTrackerB.KeyTracker.GetN | lib/KeyTrackerB.js:103-105 | removes the first `min(amount, count)` entries and returns them expanded in order, never failing for a large amount; their secrets are recorded as handed out, none of them was handed out before, and the one-time discipline still holds |
| KeyTrackerB.TakeHeadFacts | lib/KeyTrackerB.js:97-102 | taking the head of an intact pool leaves an intact tail and an expandable head; under the one-time discipline the head was never handed out and the tail keeps the discipline once the head is recorded as consumed |
| KeyTrackerB.TakeFacts | lib/KeyTrackerB.js:103-105 | the same for the first `n` entries: they expand, the rest stays intact, none was handed out before, and the rest keeps the discipline |
| KeyTrackerB.OneTimeTake | lib/KeyTrackerB.js:103-105 | handing out a prefix keeps the one-time discipline for what stays |
| KeyTrackerB.OneTimeAppend | lib/KeyTrackerB.js:91-96 | appending keys made from seeds never generated before keeps the one-time discipline |
| KeyTrackerB.IntactTake | lib/KeyTrackerB.js:103-105 | the first `n` entries of an intact pool expand, and the rest stays intact |
| KeyTrackerB.IntactCons | lib/KeyTrackerB.js:97-102 | a pool is intact exactly when its head and its tail are |
| KeyTrackerB.FreshKeysIntact | lib/KeyTrackerB.js:91-96 | keys made by `more` always pass their check |
| KeyTrackerB.DistinctConcat | lib/KeyTrackerB.js:94 | appending entries with new secrets keeps secrets unique |
| Authentication.Reconcile | LambBedrockAuthentication.ts:100-107 | reports both counts and `inSync` exactly when they are equal; never an error |
| Authentication.SignForSubmission | LambBedrockAuthentication.ts:91-95 | sign, then check against the key's own public key, then convert; the first error stops it; a successful result verifies under that key; a sound key always succeeds |
| Authentication.MessageHash | LambBedrockAuthentication.ts:89 | the hash of the message bytes |
| Authentication.MessageDigestPacks | LambBedrockAuthentication.ts:91 | `MessageDigest`: the message digest hashes 36 bytes: the message hash, then the selector |
| Authentication.KeySetDigestPacks | LambBedrockAuthentication.ts:132-136 | `KeySetDigest` (also signed by removeKeys): the key-set digest hashes `32·n + 4` bytes: hash `i` in block `i`, then the selector |
| Authentication.KeySetEncodingInjective | LambBedrockAuthentication.ts:132-136 | the packed input of the key-set digest determines both the hash list and the selector |
| Authentication.MessageEncodingInjective | LambBedrockAuthentication.ts:89-91 | the packed input of the message digest determines both the message hash and the selector |
| Authentication.SelectorsSeparate | LambBedrockAuthentication.ts:90-91 | under different selectors no hashed message input equals a hashed key-set input, and no two hashed key-set inputs are equal; the signed digests then differ only for a collision-resistant hash, which the model does not assume |
| Authentication.FindLog | LambBedrockAuthentication.ts:54 | the index of the first log whose first topic is the event topic, or none when no log has it |
| Authentication.Drop | LambBedrockAuthentication.ts:55 | `slice(26)`: empty for short text, the suffix otherwise |
| Authentication.DeployedAddress | LambBedrockAuthentication.ts:54-55 | `0x` plus `topics[1].slice(26)` of the first creation log; a TypeError when there is no such log or it lacks `topics[1]` |
| Authentication.ToLower | LambBedrockAuthentication.ts:56 | lower-cases ASCII letters position by position |
| Authentication.SameAddressProperties | LambBedrockAuthentication.ts:56 | the case-insensitive comparison is reflexive, symmetric and transitive, and ignores case |
| Authentication.CreateAccount | LambBedrockAuthentication.ts:29-61 | the submitted pkh list is that of one fresh key per seed, in order; the approved callers are the caller and the fixed second address; a TypeError without a usable creation log; the address mismatch error exactly when the deployed and counterfactual addresses differ ignoring case; only on success does the caller get the counterfactual address and the fresh tracker, holding one intact entry per seed whose pkhs are the submitted list |
| Authentication.KeyHashes | LambBedrockAuthentication.ts:32 | the hashes read from the fresh keys are the hashes the tracker stores for them, in order |
| Authentication.SignMessageAndPostSignature | LambBedrockAuthentication.ts:82-110 | consumes exactly the head before anything else; 'No keys left' on an empty pool and 'Public Key Hash Does Not Match Secret' exactly when the head fails its check; the submission's signature is `sign_hash` of `hash(hash(message) ‖ selector)` under that key's private half, converted for Solidity, and it verifies against the key's public half; the report compares the new count with the contract's; the head's secret is recorded as handed out, and under the one-time discipline it had never been handed out before and the discipline still holds |
| Authentication.PublicKeyHashes | LambBedrockAuthentication.ts:121 | `pkhFromPublicKey` of every new key, in order; the array-length error when some key has not 256 pairs |
| Authentication.FreshKeyHashes | LambBedrockAuthentication.ts:120-121 | for fresh keys these are exactly the pkhs the tracker stores for them |
| Authentication.AddKeys | LambBedrockAuthentication.ts:113-157 | the pool becomes the old pool without its head followed by one new entry per seed (count − 1 + amount), and stays so when the balance is below the fee, which is then the only error; the submission's signature is `sign_hash` of `hash(pkhs ‖ selector)` over the new pkhs under the consumed key's private half, converted, and it verifies; the head's secret is recorded as handed out; the seeds are recorded as generated exactly when `more` ran, and the record is unchanged when the call fails before it; the one-time discipline still holds when the seeds were never generated before, and always on the two failures before `more` |
| Authentication.KeepUnlistedMembers | LambBedrockAuthentication.ts:169-172 | `KeepUnlisted`, the filter, keeps exactly the entries whose pkh is not listed |
| Authentication.KeepUnlistedCounts | LambBedrockAuthentication.ts:169-172 | every unlisted entry is kept as often as it occurs; listed ones are all dropped |
| Authentication.KeepUnlistedOrder | LambBedrockAuthentication.ts:172 | the kept entries stay in their original order |
| Authentication.KeepUnlistedNothingListed | LambBedrockAuthentication.ts:170-172 | nothing is dropped when no entry's pkh is listed |
| Authentication.KeepUnlistedDistinct | LambBedrockAuthentication.ts:172 | filtering keeps secrets unique |
| Authentication.KeepUnlistedIntact | LambBedrockAuthentication.ts:172 | filtering keeps the pool intact |
| Authentication.KeepUnlistedOneTime | LambBedrockAuthentication.ts:172 | filtering keeps the one-time discipline |
| Authentication.PruneListed | LambBedrockAuthentication.ts:167-173 | expands every stored entry first (an integrity error leaves the pool as it was), then keeps only the unlisted entries; the generated and handed-out records do not change; intactness and the one-time discipline are kept |
| Authentication.RemoveKeys | LambBedrockAuthentication.ts:160-201 | consumes the head first; 'Cannot remove signing key' when its pkh is listed, with only the head gone; an integrity error when another entry fails its check, with only the head gone; otherwise the pool becomes its unlisted entries in order, and the submission's signature is `sign_hash` of `hash(toRemove ‖ selector)` under the consumed key's private half, converted, and it verifies; the head's secret is recorded as handed out, and the one-time discipline still holds |

## Left out

- All network plumbing: RPC providers, wallets, contract calls, `tx.wait`, fee and balance queries, `liveKeyCount`, receipts. Their answers are method parameters and the transaction itself is not modelled. The transaction hash each operation returns is left out with it, and so are ledger failures after signing.
- `verifyMessage` only forwards to the contract's ERC-1271 `isValidSignature`; it is not modelled.
- `Main.ts` and `lib/Main.js` are a console demo; not modelled.
- `getSelector` is an ABI lookup; the selector is an opaque 4-byte input.
- The random initial secret of `mk_compressed_key_pair` is not modelled; the seed is a parameter.
- Keccak-256 is an uninterpreted function. `solidityPack` is modelled only as concatenation of 32-byte and 4-byte words.
- UTF-8 encoding of the message text is left out: the message is given as its bytes.
- Hex digit case and odd-length hex text are left out. Hash outputs are exact 32-byte words, standing for ethers' lowercase `0x` text. A `toRemove` entry in upper case, or not 32 bytes long, is not representable.
- `bignumber.js` parsing of the digest text is left out: the digest is a natural number.
- `ToLower` lower-cases only ASCII letters; JavaScript's `toLowerCase` is full Unicode. Addresses are ASCII.
- `toNumber()` of the contract's key count throws above 2^53 - 1; that is not modelled (counts are `nat`).
- The `Monad` wrapper is plain sequential composition, and `async`/`await` ordering is not modelled.
- `lib/Common.js` and `lib/LambBedrockAuthentication.js` are compiled copies of the TypeScript files. The model follows the `.ts` versions, which take `initialKeyCount` and `amountToAdd` where the `.js` copies fix 200.
- The `.d.ts` files declare types only; they are not modelled.
- The one-time discipline rests on fresh seeds. Randomness is outside the model, so `More`, `AddKeys` and `CreateAccount` guarantee it only when the seeds given were never generated by that tracker before. The records of generated and handed-out secrets are ghost state, not fields of the source's tracker.
- Default arguments are not modelled: `more(amount = 2)` (lib/KeyTrackerB.js:91), `createAccount(initialKeyCount = 200)` (LambBedrockAuthentication.ts:29) and `addKeys(amountToAdd = 200)` (LambBedrockAuthentication.ts:113). The amount is always the number of seeds passed, so a caller relying on a default, as `Main.ts` does, passes that many seeds.
- `UncompressLamport` and `MakeKeyPair` share `DerivePrivateKey` for the 512-secret derivation and pairing, which the source writes out twice (lib/KeyTrackerB.js:20-25 and 55-61). `CompressRoundTrip` therefore rests on that shared step, and on `UncompressLamport` re-running `PubFromPri` and `PkhFromPublicKey` exactly as `MakeKeyPair` does.
