# GCrypt: XEdDSA signatures, PQXDH session setup, and the bytes underneath

This project models the key-agreement core of GCrypt and proves, for all inputs and all
runs, what that core is for: a signature made with a private key verifies under its
Montgomery public key, two parties that run the handshake over their stores end with one
root key, keys survive the byte plumbing, and the self-wiping `key` class leaves nothing
behind. `dafny verify dfyconfig.toml` checks everything.

## How the project is laid out

| file | what it holds |
|---|---|
| `Bytes.dfy`, `Modular.dfy`, `Outcomes.dfy` | `Option` and exceptions as values; bytes, bit masks, little-endian numbers; congruences, extended Euclid, primes |
| `Group.dfy` | the prime-order group: axioms, recursive scalar multiplication and its laws |
| `Birational.dfy`, `CurveTransfer.dfy`, `Conversion.dfy` | `y = (u-1)/(u+1)` over any odd prime field, on curve points, on key bytes |
| `Edwards.dfy`, `Suites.dfy` | encodings, clamping; the library calls as a record of functions with laws |
| `Hashing.dfy`, `Xeddsa.dfy`, `XeddsaBuffers.dfy` | `hash_i`, signing and verifying: as functions, and step by step on buffers |
| `Util.dfy`, `KeyMemory.dfy` | `kconcat`, `kcpy`, `key_bytes`, `load_keyb(_s)`; the `key` class and its memory |
| `Stores.dfy`, `Pqxdh.dfy`, `Refills.dfy`, `LocalKeys.dfy`, `Devices.dfy` | the key store, session setup, key generation into the store |
| `Systems.dfy`, `Runs.dfy` | many parties, stores and handshakes as a transition system; what its events do, and that handshakes take place |
| `Deviations.dfy` | `verify32` and the store-backed `create_inbound_session` as written, and how far each does what it announces |
| `Witness.dfy` | records of functions that satisfy every assumed law, one for each failing case |

Code that fills buffers or changes objects is a method on arrays or on a class, proved
equal to a function; the properties are lemmas about those functions.

## What is assumed

libsodium and mlkem-native are a record `Suites.Suite` of functions. `Suites.Laws` is all
that is assumed of them: p = 2^255 - 19 and q are prime; the points form a group in which q
times every point is neutral and y determines a point up to sign; a valid point is the
encoding of a nonzero group element; X25519 multiplies by the clamped scalar and, on the
group, never returns the all-zero secret; encapsulating to a generated key succeeds, and
decapsulating the result gives its secret; HKDF-SHA256 does not fail for 32 bytes. The
fixed-base multiplication without clamping ignores bit 255, as libsodium does. SHA-512,
BLAKE2 (`keyid`), HKDF and ML-KEM are otherwise arbitrary. `Witness.ToyLaws` shows the laws
consistent, with a hash that decodes to any chosen number below q.

Random bytes, the answers of the store (accepted or refused) and the results of key
generation are parameters (`Draw`, `Draws`, `ek`, `coins`). An exception that leaves a
function is `Outcome.Throw`, `std::nullopt` is `None`.

## Where the code departs from what it announces

The functions below follow the announced reading. Where the difference shows in a result,
the code's own reading is kept beside it and the extent of agreement is proved.

- `verify32` announces `sB - hA` (src/algorithms.hpp:101) but drops the result of `bpscale`
  (line 103) and subtracts scalars (lines 105, 108). `Xeddsa.Verify` is the group equation,
  `Deviations.VerifyAsWritten` the text. `Deviations.AsWrittenExact` says what the text
  accepts; `Deviations.AsWrittenAgrees` says, under every lawful record, on which honest
  signatures the two agree; `Deviations.LargeRRejected` rejects every R half of q or more.
  `Witness.AsWrittenRejectsHonest` gives records in which this is every honest signature.
- `u_to_y` calls scalar arithmetic, modulo q, for a field conversion, modulo p
  (src/algorithms.cpp:95-103). The conversion is parametric in the modulus.
  `Conversion.ScalarConversionAgrees`: the two agree for exactly one key below p, u = 1.
- `sig_in_bounds` rejects R with its top bit set (src/algorithms.cpp:82), the sign bit that
  `sign32` leaves in place (src/algorithms.hpp:64). This is kept as written: `Xeddsa.Complete`
  says that a signature under a matching key verifies exactly when that bit is clear, and
  always when only R's y coordinate is bounded. `Witness.SignBitSet` gives lawful records in
  which it is always set.
- `bpscale` does not clamp and drops bit 255, scalar arithmetic keeps bit 255, X25519 clamps,
  and `crypto_box_keypair` hands out unclamped private bytes. `Xeddsa.SameKey` says for every
  private key whether signer and verifier name one Edwards key (`KeysAgree`), and
  `Xeddsa.CompleteExactly` when a signature verifies, again for every private key:
  exactly when the signer's and the verifier's product of challenge and secret scalar meet.
  Where the two name one key that means bit 255 is clear or the challenge is zero
  (`Xeddsa.CompleteAgreeing`). Below 2^255 the matching keys (`KeyMatches`) are the clamped
  ones and those that cancel (`Xeddsa.MatchesExactly`). Both failures happen:
  `Witness.KeyOneRejected` for the key 1, `Witness.KeyTopRejected` for 2^255 + 2^254. The
  handshake theorems hold for every identity key and carry the exact condition.
- The store-backed `create_inbound_session` treats successful loads as failures
  (src/pqxdh.cpp:235-236, 244, 256, 264), looks the quantum key up under `usedPreKeys[1]`
  (line 262) although the sender writes its id to `usedQuantumPreKeys` (src/pqxdh.hpp:107),
  and reads the private half at `MLKEM_SKB` instead of after the public half
  (line 264 against line 101). `Pqxdh.InboundFromStore` has all three repaired; an empty
  `usedQuantumPreKeys` gives no session. `Deviations.InboundAsWritten` is the text,
  and `Deviations.InboundOutcome` gives its result for every store by the sizes of the blobs
  it consults. Over stores filled by the owned `key_bytes` of the next item it rejects every
  handshake (`Deviations.NoRunAccepts`). Over stores filled by `key_bytes` as written, whose
  spans have size 0, it reads `usedPreKeys[1]` out of range on every handshake without a
  one-time prekey, and otherwise rejects or goes on with zero keys (`Deviations.HollowRuns`).
- `key_bytes` reserves without resizing and returns a span of a local
  (src/util.hpp:112-119), a span of size 0; `Util.KeyBytes` returns an owned concatenation,
  which every other module uses.
- `load_keyb` compares a sum that can wrap around in `size_t` (src/util.hpp:127).
  `Util.CheckExact` says when the comparison is wrong, `Util.CheckFails` that it can be; the
  loads are stated for every offset, with the copy past the buffer as an outcome of its own.
- `make_lkb` stores only the identity pair (src/pqxdh.cpp:46-48); `Devices.EnrollDevice`
  adds a step that stores the signed prekey and the last-resort quantum key in the same
  blob form. The last-resort key keeps identifier 0, which `make_id_pair` never sets
  (src/keygen.cpp:73-80).

## Model

| member | source | states |
|---|---|---|
| `Systems.EveryRunAgrees` | src/pqxdh.cpp:185-277 | for every exchange after any interleaving of enrolments, refills (also failing ones), outbound calls on published keys and store-backed inbound calls, and for every identity key: whenever the responder's store holds the keys in the slots the handshake names, the answer is a session with the initiator's root key, and each side holds the other's identity key; the store holds them, and every past answer was such a session, if none of those slots was given another key |
| `Systems.EveryRunExact` | src/pqxdh.cpp:185-277 | the exact condition, for every exchange after every run, overwritten slots included: the named slots hold some keys, and the answer is a session with the initiator's root key and both identity keys exactly when these keys have the public keys of those used and their quantum key decapsulates to the same secret, or the KDF collides; for an answer given earlier take the run up to it |
| `Runs.FirstHandshake` | src/pqxdh.cpp:7-277 | from nothing: for any two devices, any refill without failures, any choice of the keys drawn, with or without a one-time prekey and with either quantum key, if the signatures to check are accepted, then two enrolments, the refill, the call and the answer leave two parties, one exchange and one answer, and the two mirror each other if no key they use had its id reused |
| `Runs.HandshakeHappens` | src/pqxdh.cpp:133-277 | the same after every run, for any two of its parties: the call adds its exchange, the answer to it is added, and they mirror each other if none of the named slots was reused |
| `Runs.EnrollDoes` | src/pqxdh.cpp:44-58 | enrolment adds one party, the others untouched, with the keys drawn: its identity pair, signed prekey and last-resort key are in its store under their ids and nothing else is; without a generated last-resort key it changes nothing |
| `Runs.RefillDoes` | src/pqxdh.cpp:61-117 | a refill changes one party only, by the writes it makes, keeps what was published, and publishes every key drawn if nothing failed and none if something did |
| `Runs.OutboundDoes` | src/pqxdh.cpp:133-183 | a call between two parties on published keys adds the exchange with these parties, choice, ephemeral key, coins and result when the signatures are accepted, and changes nothing otherwise |
| `Runs.InboundDoes` | src/pqxdh.cpp:223-277 | an answer to exchange k is added, computed from the responder's store as it is, and nothing else changes |
| `Runs.RunSplit` | src/pqxdh.cpp:7-277 | a run is its events in order |
| `Systems.StepOk` | src/pqxdh.cpp:61-277 | the invariant behind it (stores replay their writes, published keys are in the store, exchanges come from published keys, answers mirror them) is kept by each of the four kinds of step |
| `Systems.OutboundOpens` | src/pqxdh.cpp:133-183 | in every reachable state an outbound call on published keys opens an exchange exactly when the signatures it must check are accepted (products meet, R sign bits clear); for a matching identity key exactly when the sign bits are clear |
| `Systems.HandshakeMirrors` | src/pqxdh.cpp:185-222 | whenever the outbound call gives a session, with the private halves of the used keys, with or without a one-time prekey and in both quantum variants, the responder derives the initiator's root key and learns its identity and ephemeral keys; both sessions start with zero chain and ratchet keys, counters at 0 and nothing skipped |
| `Systems.AnswerExact` | src/pqxdh.cpp:185-222 | the same with any prekeys whatever in their place: the answer mirrors the initiator exactly when they do for the handshake what the keys used do, or the KDF collides; a failed decapsulation never does |
| `Systems.OutboundMeaning` | src/pqxdh.cpp:147-182 | the initiator's session and handshake in terms of the private keys alone: the root key is HKDF-derived (zero salt, F in front, info PQX3DH) from the points named by IK and SPK, EK and IK, EK and SPK, EK and OPK when used, and the KEM secret, in this order; the handshake carries both public keys and the used ids; every other session field is zero, 0 or empty |
| `Systems.HonestBundleVerifies` | src/pqxdh.cpp:118-132 | a bundle of published keys verifies exactly when the signatures to check are accepted; for a matching identity key exactly when their sign bits are clear; it never throws |
| `Systems.StoreFinds` | src/pqxdh.cpp:231-273 | when the slots that the handshake names hold the keys it was made with, the store-backed lookup finds exactly their private halves |
| `Systems.RootKeyBinds` | src/pqxdh.cpp:185-222 | for every handshake, with public keys of any kind: the responder's session has the initiator's root key exactly when X25519 and decapsulation give it the initiator's values, or the KDF collides; public keys in the prime-order group are then the initiator's identity and ephemeral keys, with the same one-time prekey or none on both sides |
| `Pqxdh.OutboundCases` | src/pqxdh.cpp:133-183 | every outcome of the outbound call for every bundle, honest or not: an exception exactly when verification throws or, past it and with an ephemeral key, encapsulation or one of DH1 to DH3 fails; a session exactly when the bundle is valid, an ephemeral key was drawn, DH4 if called for succeeds and HKDF delivers, and then its root key is derived from the values in order, every other session field is given, and the handshake carries both public keys, the ciphertext and the used ids; no session otherwise |
| `Pqxdh.InboundCases` | src/pqxdh.cpp:185-222 | every outcome of the inbound call for any keys and any handshake: an exception exactly when decapsulation or one of DH1 to DH3 fails, no session when DH4 or HKDF fails, and otherwise a session derived from the values in order that holds the handshake's two public keys, zero chain and ratchet keys, counters at 0 and nothing skipped |
| `Pqxdh.LookupCases` | src/pqxdh.cpp:223-273 | every outcome of the store-backed call for every store and handshake: no session when an id list is empty or a named slot, the identity pair's included, is missing or too short; otherwise the session of the halves stored there, with DH4 exactly when a second id is named |
| `Pqxdh.BundleExact` | src/pqxdh.cpp:118-132 | a bundle is accepted exactly when it carries the expected identity key and every required signature satisfies the group equation within the numeric bounds; an exception leaves exactly when the identity keys match, the key is -1 and the signed prekey's signature is within its bounds; every other bundle is rejected |
| `Pqxdh.EqualRootsEqualSecrets` | src/pqxdh.cpp:155-211 | for any handshake and any keys, equal root keys mean equal DH values and KEM secret, with DH4 on both sides or on neither, unless the KDF collides on the two inputs; and conversely |
| `Pqxdh.MaterialInjective` | src/algorithms.hpp:149-166 | the KDF input F, DH1, DH2, DH3, optional DH4, SS determines each part and whether DH4 is there |
| `Pqxdh.FinalizeOutboundSession` | src/pqxdh.hpp:87-132 | the handshake names the bundle's keys (signed prekey id first, then the one-time prekey id if there is one, the quantum id in its own list) and carries the three given values; the session holds the remote identity key and the root key, all other keys zero, counters at zero and nothing skipped |
| `Devices.CreateInboundSessionFromStore` | src/pqxdh.cpp:223-277 | the lookup on buffers that the loads fill and wipe computes the pure lookup (repaired as above) |
| `Devices.EnrollDevice` | src/pqxdh.cpp:44-60 | it succeeds exactly when every generation and the identity store do; then the bundle holds the keys drawn, each in its place, and the store is exactly a new party's store; when it throws the store is as before |
| `Refills.Refill` | src/pqxdh.cpp:61-117 | for every count and every pattern of failures: what is returned, and exactly which blobs are in the store, also when it throws half-way |
| `Refills.RefillsLoad` | src/pqxdh.cpp:70-113 | after any sequence of refill calls, every published identifier is the hash of its published key and, if its slot was not given another key, loads this key's public and private half |
| `Refills.PayloadSigned` | src/pqxdh.cpp:106-113 | every published quantum key is the one generated and its signature is `sign32` of it with the drawn Z; it verifies under the identity key exactly when the products meet, which they do for a matching key, and its R sign bit is clear |
| `Refills.PayloadWritten` | src/pqxdh.cpp:79-104 | every entry of a returned payload has been stored under its published identifier, with its private half |
| `Refills.WritesExactly` | src/pqxdh.cpp:70-104 | for every pattern of failures, exactly which stores were made, in order: two per iteration, and in the one that throws the first if it was accepted |
| `Refills.WrittenHalves` | src/pqxdh.cpp:76-103 | a stored blob is the public half followed by the private half, under the hash of the public half |
| `Stores.LoadsBack` | src/store.hpp:118-158 | all stored keys load back under their ids exactly when no id was reused for a different key |
| `Stores.IntactLoads` | src/store.hpp:118-158 | for one key: it loads back when its own slot was never given another, whatever happened to other slots |
| `Stores.NeverWritten` | src/store.hpp:118-158 | a slot that was never written loads nothing |
| `LocalKeys.MakeLkb` | src/pqxdh.cpp:7-60 | result, failure cases and store effect of the first key generation: the returned identity pair is the one drawn and the one in the identity blob, the signed prekey's id is the hash of its public key, and the one-time maps hold under each id the first pair with this id and nothing else |
| `LocalKeys.OneTimeKeysFiled` | src/pqxdh.cpp:19-30 | every one-time pair is filed under the id of its own public key, the first pair per id is kept, and the map has as many entries as distinct ids, for any loop count |
| `LocalKeys.OneTimeQuantumKeysFiled` | src/pqxdh.cpp:32-42 | the same for the quantum pairs |
| `LocalKeys.FileXKeys` | src/pqxdh.cpp:19-30 | the insert loop builds that map |
| `LocalKeys.FileQKeys` | src/pqxdh.cpp:32-42 | the insert loop builds that map, or fails with the first failing key generation |
| `Xeddsa.Complete` | src/algorithms.hpp:52-112 | for every matching K, every message and every Z, verifying `sign32(K, M, Z)` under K's Montgomery key returns true exactly when R's sign bit is clear, and always when only R's y is bounded |
| `Xeddsa.CompleteExactly` | src/algorithms.hpp:52-112 | the same for every private key at all: a signature verifies exactly when the signer's product h(A)a and the product h(B)b for the clamped key pair B are the same scalar, and moreover R's sign bit is clear |
| `Xeddsa.CompleteAgreeing` | src/algorithms.cpp:43-68 | where signer and verifier name one key it verifies exactly when bit 255 of K is clear or the challenge is zero, and R's sign bit is clear |
| `Xeddsa.SignMeaning` | src/algorithms.hpp:58-75 | the two halves in numbers, for every private key: R encodes rB for r = hash_1(a, M, Z) mod q, and s is reduced and congruent to r + ha for h = hash(R, A, M) mod q |
| `Xeddsa.VerifyExact` | src/algorithms.hpp:81-112 | verification accepts exactly the signatures within the numeric bounds whose R encodes sB - hA for the even-x point named by the public key; it throws exactly at u = -1 |
| `Xeddsa.VerifyYOnlyExact` | src/algorithms.hpp:81-112 | the same with the bound on R's sign bit left out |
| `Xeddsa.AcceptedScalars` | src/algorithms.hpp:81-112 | for a fixed key, message and R the accepted s are one residue class modulo q below 2^253 |
| `Xeddsa.AtMostTwo` | src/algorithms.cpp:84-85 | so at most two s are accepted |
| `Xeddsa.SameKey` | src/algorithms.cpp:107-115 | for every private key K, the key the verifier derives from K's Montgomery key is the signer's public key exactly when K without bit 255 and the clamped scalar agree up to sign |
| `Xeddsa.MatchesExactly` | src/algorithms.cpp:43-53 | below 2^255 that means clamped, or cancelling with the clamped scalar modulo q |
| `Xeddsa.KeyPairMeaning` | src/algorithms.cpp:54-68 | for every private key the public key has sign bit 0 and the y of the base scalar's point; the private scalar times the base point encodes to it exactly when bit 255 of K is clear |
| `Xeddsa.PrivateBytes` | src/algorithms.cpp:62-66 | as bytes the private half is K itself when the base scalar's point has even x, and otherwise the reduced scalar that cancels K |
| `Xeddsa.NegatedKey` | src/algorithms.cpp:54-68 | K and -K mod q give one public key exactly when bit 255 of K is clear, or K and K without bit 255 cancel modulo q |
| `Xeddsa.BoundsExact` | src/algorithms.cpp:69-88 | the byte-wise comparison and masks are exactly LE(mkPub) < p, LE(R) < 2^255 and LE(s) < 2^253 |
| `Xeddsa.SignedEquation` | src/algorithms.hpp:68-75 | every s meets its bound, and a signature satisfies the group equation under the signer's own key exactly when that key is not neutral and bit 255 of K is clear or the challenge is zero |
| `XeddsaBuffers.Sign32` | src/algorithms.hpp:52-76 | the step-by-step signer on buffers computes `Sign` |
| `XeddsaBuffers.Verify32` | src/algorithms.hpp:81-112 | the step-by-step verifier on buffers computes `Verify` |
| `XeddsaBuffers.CalculateKeyPairBuffers` | src/algorithms.cpp:54-68 | with the sign bit cleared in place, the same key pair |
| `XeddsaBuffers.UToYBuffers` | src/algorithms.cpp:89-106 | subtract, add, invert in place, multiply: the field conversion, or the exception |
| `XeddsaBuffers.ConvertMontBuffers` | src/algorithms.cpp:107-115 | masking before and after, on copies, computes `ConvertMont` |
| `Edwards.YCoordInPlace` | src/algorithms.cpp:17-20 | in place: the sign bit is clear, and the number is the old one modulo 2^255 |
| `Edwards.SplitTopBit` | src/algorithms.cpp:13-26 | sign bit and y coordinate are the two parts of the 256-bit number |
| `Edwards.ClampBits` | src/algorithms.cpp:30-36 | the scalar X25519 uses has bit 254 set, bit 255 and the low three bits clear, and the bits between taken from the private key |
| `Edwards.ConvertMontEnc` | src/algorithms.cpp:107-115 | the Montgomery key of a nonzero point converts to that point's own y |
| `Conversion.UToYBijective` | src/algorithms.cpp:89-106 | over any odd prime field `u_to_y` fails exactly at -1, never yields 1, is undone by (1+y)/(1-y), and is injective |
| `Conversion.ConvertMontExact` | src/algorithms.cpp:89-115 | on every 32 bytes, over any prime field below 2^255: with u the number below bit 255, it throws exactly when u + 1 vanishes, and otherwise gives the reduced y with (u + 1) y = u - 1 and a clear sign bit |
| `Conversion.ConvertedOnCurve` | src/algorithms.cpp:89-115 | over any odd prime field: the converted key of a Montgomery point other than u = -1 has a clear sign bit and is the encoding of an Edwards point with even x; for p = 2^255 - 19 that is edwards25519 |
| `Conversion.ScalarConversionAgrees` | src/algorithms.cpp:95-103 | the scalar calls give the field's answer exactly for u = 1 |
| `Conversion.ScalarConvertMontAgrees` | src/algorithms.cpp:107-115 | so `convert_mont` as written gives the field's key exactly for u = 1 |
| `CurveTransfer.Transfer` | src/algorithms.cpp:89-106 | over any suitable prime, (su/v, u_to_y(u)) satisfies the Edwards equation for every Montgomery point with u != -1 |
| `Suites.DhAgree` | src/algorithms.cpp:30-36 | two private keys and their public keys agree on one secret |
| `Suites.DhBinds` | src/algorithms.cpp:30-36 | the only nonzero point that gives `b` the secret it shares with `a` is the one named by the public key of `a` |
| `Suites.DhSame` | src/algorithms.cpp:30-36 | two private keys share one secret with a third exactly when their public keys are equal |
| `Suites.DhDistinguishes` | src/algorithms.cpp:30-36 | in the prime-order group X25519 gives the secret of a public key exactly for that public key |
| `Group.MulEqual` | src/algorithms.cpp:43-53 | multiples of a nonzero point agree exactly when the scalars agree modulo q (from the group axioms) |
| `Hashing.Hash255Streamed` | src/hashing.hpp:35-54 | the streamed digest is the hash of prefix and message |
| `Hashing.PrefixValue` | src/hashing.hpp:38-42 | the 32 prefix bytes decode to 2^256 - 1 - i for every byte i |
| `Hashing.PrefixDisjoint` | src/hashing.hpp:38-42 | no canonical point encoding equals the prefix exactly for i <= 18 |
| `Hashing.HashInputsDisjoint` | src/algorithms.hpp:58-66 | so a nonce hash input never equals an R, A, M input |
| `Hashing.KdfBlockDisjoint` | src/algorithms.hpp:152-156 | the KDF's block F is no Edwards or Montgomery public key |
| `Util.KConcat` | src/util.hpp:73-84 | the offset loop writes exactly the concatenation, inside the output |
| `Util.NestedConcat` | src/util.hpp:61-71 | nesting the binary form gives the same bytes |
| `Util.KCpy` | src/util.hpp:40-47 | the slice at the offset |
| `Util.FlattenSlice` | src/util.hpp:40-84 | copying back at each prefix-sum offset returns exactly that argument |
| `Util.LoadKeyB` | src/util.hpp:124-133 | for every offset: loads exactly the range when it is in range; refuses and changes nothing when the comparison says so; runs out of bounds exactly when the wrapped comparison passes a range that does not fit |
| `Util.CheckExact` | src/util.hpp:127-128 | the comparison is right exactly when the sum does not wrap around, or wraps and still exceeds the size |
| `Util.CheckFails` | src/util.hpp:127-128 | it does go wrong: the offset that wraps the sum to 0 passes for every buffer, the empty one too |
| `Util.LoadKeyBS` | src/util.hpp:137-145 | the same three outcomes, and on success as many bytes at the start of the buffer are zeroed |
| `Util.SecondLoad` | src/util.hpp:137-145 | a second load returns the original bytes exactly when the part of its range wiped by the first was zero already |
| `Util.BlobRoundTrip` | src/pqxdh.cpp:81 | for any sizes both halves of a stored pair come back, although the first load wipes part of the buffer |
| `KeyMemory.RunSafe` | src/protocol.hpp:51-84 | in every run, storage that no live key owns is all zero |
| `KeyMemory.RunConserves` | src/protocol.hpp:51-84 | over every run, copies of a secret at the end = at the start + made by copies and writes - erased |
| `KeyMemory.StepConserves` | src/protocol.hpp:56-84 | the same law for one step, so only copies and writes raise the number |
| `KeyMemory.StepContents` | src/protocol.hpp:56-84 | which cell holds what after each operation: the target of a copy or move holds the source's bytes, a moved-from, killed or destroyed key is zero, all other cells are as before |
| `KeyMemory.MoveKeepsCopies` | src/protocol.hpp:58-72 | a move keeps the number of copies of the moved secret exactly when the target does not already hold it; a self-move changes nothing |
| `KeyMemory.NothingLeft` | src/protocol.hpp:61 | once all keys are destroyed no secret is left in memory |
| `KeyMemory.Arena.Exec` | src/protocol.hpp:56-84 | the object code of every operation, aliased operands included, does exactly the memory step |
| `KeyMemory.Arena.ExecAll` | src/protocol.hpp:50-102 | a run of the objects is a run of the memory |
| `KeyMemory.Key.AssignMove` | src/protocol.hpp:63-72 | takes the bytes over and wipes the source, except on itself |
| `KeyMemory.Key.AssignCopy` | src/protocol.hpp:73-81 | takes the bytes over, also from itself |
| `Deviations.AsWrittenExact` | src/algorithms.hpp:97-111 | what the verifier as written does, for every input: it accepts exactly when R is the reduced scalar s - h'A' within the bounds, with the key converted modulo q to A', throws exactly when the bounds hold and the key is -1 modulo q, and rejects otherwise |
| `Deviations.AsWrittenAgrees` | src/algorithms.hpp:81-112 | under every lawful record and every private key, an honest signature is accepted as written exactly when its R is that scalar for r + ha; for a matching key the text agrees with the group equation exactly then, or when both reject on the sign bit |
| `Deviations.LargeRRejected` | src/algorithms.hpp:97-111 | in particular every honest signature with R of q or more is rejected as written, while the group equation accepts it exactly as above |
| `Deviations.InboundOutcome` | src/pqxdh.cpp:228-273 | the lookup as written, for every store and handshake: rejected, read out of range, or a session on zero keys, according to which consulted blobs are there and too short |
| `Deviations.NoRunAccepts` | src/pqxdh.cpp:231-266 | over any party's store in any run, filled with owned blobs, the lookup as written rejects every handshake |
| `Deviations.HollowRuns` | src/util.hpp:110-120 | over the same runs with stores filled by `key_bytes` as written (blobs of size 0): a read out of range without a one-time prekey; with one, rejected unless some quantum key is stored under its id, and then zero keys |
| `Witness.AsWrittenRejectsHonest` | src/algorithms.hpp:97-111 | for every matching K lawful records, with every challenge a chosen even nonzero number, in which the group equation accepts every honest signature and the verifier as written none |
| `Witness.SignBitSet` | src/algorithms.cpp:82 | for odd numbers records in which every honest signature has its sign bit set, so none verifies, though each satisfies the group equation |
| `Witness.HandshakeTakesPlace` | src/pqxdh.cpp:7-277 | lawful records in which whole handshakes from nothing, between any device and one with a matching identity key, end in mirroring sessions, with and without a one-time prekey and with either quantum key |
| `Witness.KeyOneDisagrees` | src/algorithms.cpp:43-53 | for the private key 1 signer and verifier name different keys under every lawful record |
| `Witness.KeyOneRejected` | src/algorithms.hpp:52-112 | and its signatures never verify when every challenge is one nonzero number |
| `Witness.KeyTopRejected` | src/algorithms.hpp:52-112 | for the private key 2^255 + 2^254 they name one key, and the signatures still never verify under a nonzero challenge |
| `Witness.OutsideNotBound` | src/pqxdh.cpp:185-222 | outside the prime-order group the identity key is not bound: lawful records in which the same u coordinate written above p gives the same root key under another identity key |

## Left out

- Util.KeyBytes: does not model the dangling span, as said above.
- Systems.RootKeyBinds: X25519 also accepts keys outside the prime-order group (numbers of p or more, bit 255, points of small order added), about which nothing is assumed. For them it binds the values X25519 gives, not the key bytes; `Witness.OutsideNotBound` is such a case.
- Util.LoadKeyB: says nothing of the bytes that a copy past the buffer reads.
- Util.LoadKeyBS: likewise.
- Deviations.HollowRuns: takes a span of a destroyed local for an empty one; what its pointer reads is undefined in C++.
- Primality of 2^255 - 19 and of q, associativity of the Edwards addition, and the square-root facts used by `CurveTransfer.Transfer` are hypotheses.
- The insides of libsodium and mlkem-native, and ML-KEM's decapsulation failures: abstract functions with the laws above. Encapsulation that fails and throws (src/algorithms.cpp:122-131) is kept as `Throw` in `Pqxdh.CreateOutboundSession` and excluded by `Suites.Laws` for generated keys.
- The exception thrown when no store is registered (`GCRYPT_ASSERT_STORE`) and exceptions thrown by a store implementation: a store accepts or refuses.
- Double Ratchet messaging and AEAD: declared fields and an empty namespace, no code.
- `make_server_payload` as a whole: it indexes maps by position and does not type-check; only the way it signs the prekey is used.
- Deleting one-time keys, session blobs and disk storage: no code here decides them.
- The Java and Kotlin bridge (`ext/java`): field copies over foreign calls.
- Compiler removal of wipes and copies made in registers: outside the language's object model.
