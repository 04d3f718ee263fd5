/** One-time key generation that fills the store: `refill` of src/pqxdh.cpp. */
module Refills {
  import opened Bytes
  import opened Outcomes
  import opened Edwards
  import opened Suites
  import opened Xeddsa
  import opened Stores
  import opened Util
  import opened Pqxdh

  /** `crypto_box_keypair` for the private bytes drawn. */
  function PairOf(S: Suite, private: xckey): KeyPair {
    KeyPair(PublicOf(S, private), private)
  }

  // ----- refill

  /**
   What one loop iteration takes from outside: the random keys, and whether the store
   accepts each blob.
   */
  datatype Draw = Draw(private: xckey, stored: bool, seed: bytes, qStored: bool, z: key64)

  datatype Payload = Payload(oneTimePreKeys: seq<IdKey>, signedOneTimeQuantumPreKeys: seq<QSignedKey>)

  function XEntry(S: Suite, private: xckey): IdKey {
    IdKey(PublicOf(S, private), S.genericHash(PublicOf(S, private)))
  }

  function XWrite(S: Suite, private: xckey): Write {
    Write(XEntry(S, private).identifier, PREKEY, PublicOf(S, private) + private)
  }

  function QEntry(S: Suite, K: xckey, seed: bytes, z: key64): QSignedKey
    requires S.kemKeypair(seed).Some?
  {
    var pk := S.kemKeypair(seed).value.0;
    QSignedKey(pk, S.genericHash(pk), Sign(S, K, pk, z))
  }

  function QWrite(S: Suite, seed: bytes): Write
    requires S.kemKeypair(seed).Some?
  {
    var (pk, sk) := S.kemKeypair(seed).value;
    Write(S.genericHash(pk), QUANTUM, pk + sk)
  }

  predicate DrawSucceeds(S: Suite, d: Draw) {
    d.stored && S.kemKeypair(d.seed).Some? && d.qStored
  }

  /** The blobs an iteration leaves in the store, also when it throws half-way. */
  function DrawWrites(S: Suite, d: Draw): seq<Write> {
    if !d.stored then []
    else if S.kemKeypair(d.seed).None? || !d.qStored then [XWrite(S, d.private)]
    else [XWrite(S, d.private), QWrite(S, d.seed)]
  }

  predicate Succeeds(S: Suite, draws: seq<Draw>) {
    forall i :: 0 <= i < |draws| ==> DrawSucceeds(S, draws[i])
  }

  /** The writes of a whole refill, up to the iteration that throws. */
  function RefillWrites(S: Suite, draws: seq<Draw>): seq<Write> {
    if draws == [] then []
    else DrawWrites(S, draws[0]) + if DrawSucceeds(S, draws[0]) then RefillWrites(S, draws[1..]) else []
  }

  function PayloadOf(S: Suite, K: xckey, draws: seq<Draw>): (p: Payload)
    requires Succeeds(S, draws)
    ensures |p.oneTimePreKeys| == |p.signedOneTimeQuantumPreKeys| == |draws|
  {
    Payload(
      seq(|draws|, i requires 0 <= i < |draws| => XEntry(S, draws[i].private)),
      seq(|draws|, i requires 0 <= i < |draws| && Succeeds(S, draws) => QEntry(S, K, draws[i].seed, draws[i].z)))
  }

  lemma {:induction false} RefillWritesStep(S: Suite, draws: seq<Draw>, i: nat)
    requires i < |draws| && Succeeds(S, draws[..i])
    ensures RefillWrites(S, draws[..i + 1]) == RefillWrites(S, draws[..i]) + DrawWrites(S, draws[i])
  {
    var head := draws[..i + 1];
    if i == 0 {
      assert head == [draws[0]] && draws[..0] == [] && head[1..] == [];
    } else {
      var d, rest := draws[0], draws[1..];
      assert head == [d] + rest[..i] && draws[..i] == [d] + rest[..i - 1];
      SucceedsCons(S, d, rest[..i - 1]);
      RefillWritesStep(S, rest, i - 1);
      WritesCons(S, d, rest[..i]);
      WritesCons(S, d, rest[..i - 1]);
    }
  }

  lemma SucceedsCons(S: Suite, d: Draw, rest: seq<Draw>)
    ensures Succeeds(S, [d] + rest) <==> DrawSucceeds(S, d) && Succeeds(S, rest)
  {
    var all := [d] + rest;
    assert all[0] == d;
    forall j | 0 <= j < |rest|
      ensures rest[j] == all[j + 1]
    {
    }
  }

  lemma WritesCons(S: Suite, d: Draw, rest: seq<Draw>)
    requires DrawSucceeds(S, d)
    ensures RefillWrites(S, [d] + rest) == DrawWrites(S, d) + RefillWrites(S, rest)
  {
    assert ([d] + rest)[1..] == rest;
  }

  /** Nothing happens after the iteration that throws. */
  lemma {:induction false} RefillStops(S: Suite, draws: seq<Draw>, i: nat)
    requires i < |draws| && Succeeds(S, draws[..i]) && !DrawSucceeds(S, draws[i])
    ensures RefillWrites(S, draws) == RefillWrites(S, draws[..i + 1])
  {
    if i == 0 {
      assert draws[..1][0] == draws[0];
    } else {
      var d, rest := draws[0], draws[1..];
      assert draws[..i + 1] == [d] + rest[..i] && draws[..i] == [d] + rest[..i - 1] && draws == [d] + rest;
      SucceedsCons(S, d, rest[..i - 1]);
      RefillStops(S, rest, i - 1);
      WritesCons(S, d, rest[..i]);
      WritesCons(S, d, rest);
    }
  }

  /** The sizes of stored pairs: two 32-byte keys, or the two halves of an ML-KEM pair. */
  predicate Shaped(w: Write) {
    && (w.kind == PREKEY ==> |w.blob| == 64)
    && (w.kind == QUANTUM ==> |w.blob| == 4736)
  }

  lemma DrawShaped(S: Suite, d: Draw, w: Write)
    requires w in DrawWrites(S, d)
    ensures Shaped(w)
  {
    if w == XWrite(S, d.private) {
      assert w.kind == PREKEY && |w.blob| == 64;
    } else {
      var (pk, sk) := S.kemKeypair(d.seed).value;
      assert w.kind == QUANTUM && w.blob == pk + sk && |pk| == 1568 && |sk| == 3168;
    }
  }

  lemma {:induction false} RefillShaped(S: Suite, draws: seq<Draw>, w: Write)
    requires w in RefillWrites(S, draws)
    ensures Shaped(w)
  {
    if w in DrawWrites(S, draws[0]) {
      DrawShaped(S, draws[0], w);
    } else {
      RefillShaped(S, draws[1..], w);
    }
  }

  /** The body of the loop: `None` is the exception it throws. */
  method RefillOne(S: Suite, store: KeyStore, privIdentityKey: xckey, d: Draw)
    returns (r: Option<(IdKey, QSignedKey)>)
    modifies store
    ensures store.identity == old(store.identity)
    ensures store.prekeys == Apply(old(store.prekeys), DrawWrites(S, d))
    ensures r == if DrawSucceeds(S, d) then
                   Some((XEntry(S, d.private), QEntry(S, privIdentityKey, d.seed, d.z)))
                 else None
  {
    DrawWritesApply(S, store.prekeys, d);
    var pair := PairOf(S, d.private);
    var id := S.genericHash(pair.Public);
    var ok := store.StoreOneTimePrekey(id, PREKEY, pair.Public + pair.Private, d.stored);
    if !ok {
      return None;
    }
    var generated := S.kemKeypair(d.seed);
    if generated.None? {
      return None;
    }
    var (pk, sk) := generated.value;
    var qid := S.genericHash(pk);
    ok := store.StoreOneTimePrekey(qid, QUANTUM, pk + sk, d.qStored);
    if !ok {
      return None;
    }
    r := Some((IdKey(pair.Public, id), QSignedKey(pk, qid, Sign(S, privIdentityKey, pk, d.z))));
  }

  method Refill(S: Suite, store: KeyStore, privIdentityKey: xckey, draws: seq<Draw>)
    returns (r: Outcome<Payload>)
    modifies store
    ensures store.identity == old(store.identity)
    ensures store.prekeys == Apply(old(store.prekeys), RefillWrites(S, draws))
    ensures r == if Succeeds(S, draws) then Value(PayloadOf(S, privIdentityKey, draws)) else Throw
  {
    var xs: seq<IdKey> := [];
    var qs: seq<QSignedKey> := [];
    for i := 0 to |draws|
      invariant Succeeds(S, draws[..i])
      invariant store.identity == old(store.identity)
      invariant store.prekeys == Apply(old(store.prekeys), RefillWrites(S, draws[..i]))
      invariant Payload(xs, qs) == PayloadOf(S, privIdentityKey, draws[..i])
    {
      RefillWritesStep(S, draws, i);
      ApplyAppend(old(store.prekeys), RefillWrites(S, draws[..i]), DrawWrites(S, draws[i]));
      var entry := RefillOne(S, store, privIdentityKey, draws[i]);
      if entry.None? {
        RefillStops(S, draws, i);
        return Throw;
      }
      xs := xs + [entry.value.0];
      qs := qs + [entry.value.1];
      PayloadStep(S, privIdentityKey, draws, i);
    }
    assert draws[..|draws|] == draws;
    r := Value(Payload(xs, qs));
  }

  lemma PayloadStep(S: Suite, K: xckey, draws: seq<Draw>, i: nat)
    requires i < |draws| && Succeeds(S, draws[..i]) && DrawSucceeds(S, draws[i])
    ensures Succeeds(S, draws[..i + 1])
    ensures var p := PayloadOf(S, K, draws[..i]);
      PayloadOf(S, K, draws[..i + 1]) == Payload(
        p.oneTimePreKeys + [XEntry(S, draws[i].private)],
        p.signedOneTimeQuantumPreKeys + [QEntry(S, K, draws[i].seed, draws[i].z)])
  {
    assert draws[..i + 1] == draws[..i] + [draws[i]];
  }

  /** The two stores of one iteration, one after the other. */
  lemma DrawWritesApply(S: Suite, prekeys: Shelf, d: Draw)
    ensures var x := Apply(prekeys, [XWrite(S, d.private)]);
      Apply(prekeys, DrawWrites(S, d)) ==
        if !d.stored then prekeys
        else if S.kemKeypair(d.seed).None? || !d.qStored then x
        else Apply(x, [QWrite(S, d.seed)])
  {
    if DrawSucceeds(S, d) {
      var a, b := [XWrite(S, d.private)], [QWrite(S, d.seed)];
      assert DrawWrites(S, d) == a + b;
      ApplyAppend(prekeys, a, b);
    }
  }

  lemma {:induction false} DrawWritten(S: Suite, draws: seq<Draw>, i: nat)
    requires Succeeds(S, draws) && i < |draws|
    ensures XWrite(S, draws[i].private) in RefillWrites(S, draws)
    ensures QWrite(S, draws[i].seed) in RefillWrites(S, draws)
  {
    if i == 0 {
      var w := DrawWrites(S, draws[0]);
      assert w[0] == XWrite(S, draws[0].private) && w[1] == QWrite(S, draws[0].seed);
    } else {
      assert draws == [draws[0]] + draws[1..];
      SucceedsCons(S, draws[0], draws[1..]);
      DrawWritten(S, draws[1..], i - 1);
    }
  }

  /** Every entry of the payload was written to the store, with its private half. */
  lemma PayloadWritten(S: Suite, K: xckey, draws: seq<Draw>, i: nat)
    requires Succeeds(S, draws) && i < |draws|
    ensures XWrite(S, draws[i].private) in RefillWrites(S, draws)
    ensures QWrite(S, draws[i].seed) in RefillWrites(S, draws)
    ensures PayloadOf(S, K, draws).oneTimePreKeys[i].identifier == XWrite(S, draws[i].private).id
    ensures PayloadOf(S, K, draws).signedOneTimeQuantumPreKeys[i].identifier == QWrite(S, draws[i].seed).id
  {
    DrawWritten(S, draws, i);
  }

  /** What a pair leaves in the store: its two halves in order, under the id of its public key. */
  lemma WrittenHalves(S: Suite, private: xckey, seed: bytes)
    requires S.kemKeypair(seed).Some?
    ensures var w := XWrite(S, private);
      w.kind == PREKEY && |w.blob| == 64 && w.blob[..32] == PublicOf(S, private) && w.blob[32..] == private
      && w.id == S.genericHash(w.blob[..32])
    ensures var w := QWrite(S, seed);
      w.kind == QUANTUM && |w.blob| == 4736
      && w.blob[..1568] == S.kemKeypair(seed).value.0 && w.blob[1568..] == S.kemKeypair(seed).value.1
      && w.id == S.genericHash(w.blob[..1568])
  {
    var (pk, sk) := S.kemKeypair(seed).value;
    assert |pk| == 1568 && |sk| == 3168 && (pk + sk)[..1568] == pk && (pk + sk)[1568..] == sk;
    var k := PublicOf(S, private);
    assert (k + private)[..32] == k && (k + private)[32..] == private;
  }

  /** The iterations before the one that throws, each with its two stores. */
  lemma {:induction false} WritesAt(S: Suite, draws: seq<Draw>, i: nat)
    requires i < |draws| && Succeeds(S, draws[..i + 1])
    ensures var writes := RefillWrites(S, draws);
      && 2 * i + 1 < |writes|
      && writes[2 * i] == XWrite(S, draws[i].private) && writes[2 * i + 1] == QWrite(S, draws[i].seed)
  {
    var d, rest := draws[0], draws[1..];
    var tail := RefillWrites(S, rest);
    assert draws == [d] + rest && draws[..i + 1] == [d] + rest[..i];
    SucceedsCons(S, d, rest[..i]);
    WritesCons(S, d, rest);
    if i == 0 {
    } else {
      WritesAt(S, rest, i - 1);
      AfterPair(XWrite(S, d.private), QWrite(S, d.seed), tail, i);
    }
  }

  lemma AfterPair(a: Write, b: Write, tail: seq<Write>, i: nat)
    requires i > 0 && 2 * (i - 1) + 1 < |tail|
    ensures var all := [a, b] + tail;
      2 * i + 1 < |all| && all[2 * i] == tail[2 * (i - 1)] && all[2 * i + 1] == tail[2 * (i - 1) + 1]
  {
  }

  lemma {:induction false} WritesEnd(S: Suite, draws: seq<Draw>, n: nat)
    requires n <= |draws| && Succeeds(S, draws[..n]) && (n < |draws| ==> !DrawSucceeds(S, draws[n]))
    ensures var writes := RefillWrites(S, draws);
      && |writes| == 2 * n + (if n < |draws| && draws[n].stored then 1 else 0)
      && (n < |draws| && draws[n].stored ==> writes[2 * n] == XWrite(S, draws[n].private))
  {
    if draws == [] {
    } else if n == 0 {
      assert RefillWrites(S, draws) == DrawWrites(S, draws[0]);
    } else {
      var d, rest := draws[0], draws[1..];
      assert draws == [d] + rest && draws[..n] == [d] + rest[..n - 1];
      SucceedsCons(S, d, rest[..n - 1]);
      WritesCons(S, d, rest);
      WritesEnd(S, rest, n - 1);
    }
  }

  /**
   Every store that a refill makes, for every pattern of failures: two per iteration, and in
   the iteration that throws the first of the two when that one was accepted.
   */
  lemma WritesExactly(S: Suite, draws: seq<Draw>, n: nat)
    requires n <= |draws|
    requires forall i :: 0 <= i < n ==> draws[i].stored && S.kemKeypair(draws[i].seed).Some? && draws[i].qStored
    requires n < |draws| ==> !draws[n].stored || S.kemKeypair(draws[n].seed).None? || !draws[n].qStored
    ensures var writes := RefillWrites(S, draws);
      && |writes| == 2 * n + (if n < |draws| && draws[n].stored then 1 else 0)
      && (forall i :: 0 <= i < n ==>
            writes[2 * i] == XWrite(S, draws[i].private) && writes[2 * i + 1] == QWrite(S, draws[i].seed))
      && (n < |draws| && draws[n].stored ==> writes[2 * n] == XWrite(S, draws[n].private))
  {
    WritesEnd(S, draws, n);
    forall i | 0 <= i < n
      ensures RefillWrites(S, draws)[2 * i] == XWrite(S, draws[i].private)
      ensures RefillWrites(S, draws)[2 * i + 1] == QWrite(S, draws[i].seed)
    {
      WritesAt(S, draws, i);
    }
  }

  /**
   Each quantum entry's signature verifies exactly when the signer's and the verifier's
   products meet, which they do for a matching K, and its R half has a clear sign bit.
   */
  lemma PayloadSigned(S: Suite, K: xckey, draws: seq<Draw>, i: nat)
    requires Laws(S) && Succeeds(S, draws) && i < |draws|
    ensures var q := PayloadOf(S, K, draws).signedOneTimeQuantumPreKeys[i];
      var R := q.signature[..32];
      && q.key == S.kemKeypair(draws[i].seed).value.0
      && q.signature == Sign(S, K, q.key, draws[i].z)
      && Verify(S, PublicOf(S, K), q.key, q.signature) == Value(ProductsMeet(S, K, q.key, R) && !SignBit(R))
      && (KeyMatches(K) ==> ProductsMeet(S, K, q.key, R))
  {
    var pk := S.kemKeypair(draws[i].seed).value.0;
    CompleteExactly(S, K, pk, draws[i].z);
    if KeyMatches(K) {
      Complete(S, K, pk, draws[i].z);
    }
  }

  /** The writes of several refill calls, in order. */
  function AllWrites(S: Suite, calls: seq<seq<Draw>>): seq<Write> {
    if calls == [] then [] else RefillWrites(S, calls[0]) + AllWrites(S, calls[1..])
  }

  lemma {:induction false} AllWritesContains(S: Suite, calls: seq<seq<Draw>>, c: nat, w: Write)
    requires c < |calls| && w in RefillWrites(S, calls[c])
    ensures w in AllWrites(S, calls)
  {
    if c == 0 {
    } else {
      assert calls[1..][c - 1] == calls[c];
      AllWritesContains(S, calls[1..], c - 1, w);
    }
  }

  /**
   After any sequence of refill calls, every identifier published by a call that returned
   is that of the published key and loads this key's pair, unless some call reused the
   identifier for another key.
   */
  lemma RefillsLoad(S: Suite, prekeys: Shelf, K: xckey, calls: seq<seq<Draw>>, c: nat, i: nat)
    requires c < |calls| && Succeeds(S, calls[c]) && i < |calls[c]|
    ensures var p, d, writes := PayloadOf(S, K, calls[c]), calls[c][i], AllWrites(S, calls);
      var after := Apply(prekeys, writes);
      var (pk, sk) := S.kemKeypair(d.seed).value;
      && p.oneTimePreKeys[i].key == PublicOf(S, d.private)
      && p.oneTimePreKeys[i].identifier == S.genericHash(PublicOf(S, d.private))
      && p.signedOneTimeQuantumPreKeys[i].key == pk
      && p.signedOneTimeQuantumPreKeys[i].identifier == S.genericHash(pk)
      && (Intact(writes, XWrite(S, d.private)) ==>
            Load(after, p.oneTimePreKeys[i].identifier, PREKEY) == Some(PublicOf(S, d.private) + d.private))
      && (Intact(writes, QWrite(S, d.seed)) ==>
            Load(after, p.signedOneTimeQuantumPreKeys[i].identifier, QUANTUM) == Some(pk + sk))
  {
    var d := calls[c][i];
    var writes := AllWrites(S, calls);
    PayloadWritten(S, K, calls[c], i);
    AllWritesContains(S, calls, c, XWrite(S, d.private));
    AllWritesContains(S, calls, c, QWrite(S, d.seed));
    if Intact(writes, XWrite(S, d.private)) {
      IntactLoads(prekeys, writes, XWrite(S, d.private));
    }
    if Intact(writes, QWrite(S, d.seed)) {
      IntactLoads(prekeys, writes, QWrite(S, d.seed));
    }
  }

  lemma XBlob(S: Suite, private: xckey)
    ensures LoadPrivate(Some(XWrite(S, private).blob), 32, 32) == Some(private)
  {
    LoadPair(PublicOf(S, private), private);
  }

  lemma QBlob(S: Suite, seed: bytes)
    requires S.kemKeypair(seed).Some?
    ensures LoadPrivate(Some(QWrite(S, seed).blob), 3168, 1568) == Some(S.kemKeypair(seed).value.1)
  {
    var (pk, sk) := S.kemKeypair(seed).value;
    LoadPair(pk, sk);
  }
}
