/** The storage manager of src/store.hpp as an id-indexed map, and what a run of stores leaves. */
module Stores {
  import opened Bytes
  import opened Outcomes
  import opened Suites

  datatype KeyType = IDENTITY | EPHEMERAL | SIGNED | PREKEY | QUANTUM

  type Shelf = map<(uint32, KeyType), bytes>

  datatype StoreState = StoreState(identity: Option<bytes>, prekeys: Shelf)

  /** One successful `store_one_time_prekey`. */
  datatype Write = Write(id: uint32, kind: KeyType, blob: bytes)

  function Load(prekeys: Shelf, id: uint32, kind: KeyType): Option<bytes> {
    if (id, kind) in prekeys then Some(prekeys[(id, kind)]) else None
  }

  function Apply(prekeys: Shelf, writes: seq<Write>): Shelf
    decreases |writes|
  {
    if writes == [] then prekeys
    else Apply(prekeys[(writes[0].id, writes[0].kind) := writes[0].blob], writes[1..])
  }

  lemma {:induction false} ApplyAppend(prekeys: Shelf, a: seq<Write>, b: seq<Write>)
    ensures Apply(prekeys, a + b) == Apply(Apply(prekeys, a), b)
    decreases |a|
  {
    if a == [] {
      assert a + b == b;
    } else {
      assert (a + b)[1..] == a[1..] + b;
      ApplyAppend(prekeys[(a[0].id, a[0].kind) := a[0].blob], a[1..], b);
    }
  }

  predicate SameSlot(v: Write, w: Write) {
    v.id == w.id && v.kind == w.kind
  }

  /** Ids are distinct: no slot is written twice with different keys. */
  ghost predicate Consistent(writes: seq<Write>) {
    forall i, j :: 0 <= i < j < |writes| && SameSlot(writes[i], writes[j]) ==> writes[i].blob == writes[j].blob
  }

  /** A slot holds what was written to it last. */
  lemma {:induction false} LastWriteWins(prekeys: Shelf, writes: seq<Write>, i: nat)
    requires i < |writes|
    requires forall j :: i < j < |writes| ==> !SameSlot(writes[i], writes[j])
    ensures Load(Apply(prekeys, writes), writes[i].id, writes[i].kind) == Some(writes[i].blob)
  {
    var w := writes[i];
    assert writes == writes[..i + 1] + writes[i + 1..];
    ApplyAppend(prekeys, writes[..i + 1], writes[i + 1..]);
    assert writes[..i + 1] == writes[..i] + [w];
    ApplyAppend(prekeys, writes[..i], [w]);
    var m := Apply(prekeys, writes[..i]);
    assert Apply(m, [w]) == Apply(m[(w.id, w.kind) := w.blob], [w][1..]);
    var rest := writes[i + 1..];
    forall j | 0 <= j < |rest|
      ensures !SameSlot(w, rest[j])
    {
      assert rest[j] == writes[i + 1 + j];
    }
    Untouched(Apply(prekeys, writes[..i + 1]), rest, w);
  }

  lemma {:induction false} Untouched(prekeys: Shelf, writes: seq<Write>, w: Write)
    requires forall j :: 0 <= j < |writes| ==> !SameSlot(w, writes[j])
    ensures Load(Apply(prekeys, writes), w.id, w.kind) == Load(prekeys, w.id, w.kind)
    decreases |writes|
  {
    if writes == [] {
    } else {
      assert !SameSlot(w, writes[0]);
      Untouched(prekeys[(writes[0].id, writes[0].kind) := writes[0].blob], writes[1..], w);
    }
  }

  /** What was never written is not there. */
  lemma NeverWritten(writes: seq<Write>, id: uint32, kind: KeyType)
    requires forall j :: 0 <= j < |writes| ==> writes[j].id != id || writes[j].kind != kind
    ensures Load(Apply(map[], writes), id, kind) == None
  {
    Untouched(map[], writes, Write(id, kind, []));
  }

  /** The position of the last write to the slot of write `i`. */
  function LastIndex(writes: seq<Write>, i: nat): (k: nat)
    requires i < |writes|
    ensures i <= k < |writes| && SameSlot(writes[i], writes[k])
    ensures forall j :: k < j < |writes| ==> !SameSlot(writes[i], writes[j])
    decreases |writes|
  {
    var n := |writes| - 1;
    if SameSlot(writes[i], writes[n]) then n
    else LastIndex(writes[..n], i)
  }

  /** What a written slot holds in the end is the blob of the last write to it. */
  lemma LoadsLast(prekeys: Shelf, writes: seq<Write>, i: nat)
    requires i < |writes|
    ensures Load(Apply(prekeys, writes), writes[i].id, writes[i].kind) == Some(writes[LastIndex(writes, i)].blob)
  {
    var k := LastIndex(writes, i);
    forall j | k < j < |writes|
      ensures !SameSlot(writes[k], writes[j])
    {
      assert !SameSlot(writes[i], writes[j]);
    }
    LastWriteWins(prekeys, writes, k);
  }

  /** No other key was ever written to the slot of `w`. */
  ghost predicate Intact(writes: seq<Write>, w: Write) {
    forall i :: 0 <= i < |writes| && SameSlot(w, writes[i]) ==> writes[i].blob == w.blob
  }

  lemma IntactLoads(prekeys: Shelf, writes: seq<Write>, w: Write)
    requires w in writes && Intact(writes, w)
    ensures Load(Apply(prekeys, writes), w.id, w.kind) == Some(w.blob)
  {
    var i :| 0 <= i < |writes| && writes[i] == w;
    LoadsLast(prekeys, writes, i);
    assert SameSlot(w, writes[LastIndex(writes, i)]);
  }

  ghost predicate AllLoad(prekeys: Shelf, writes: seq<Write>) {
    forall i :: 0 <= i < |writes| ==> Load(prekeys, writes[i].id, writes[i].kind) == Some(writes[i].blob)
  }

  /** Every key written loads back under its id exactly when ids are distinct. */
  lemma LoadsBack(prekeys: Shelf, writes: seq<Write>)
    ensures AllLoad(Apply(prekeys, writes), writes) <==> Consistent(writes)
  {
    if Consistent(writes) {
      forall i | 0 <= i < |writes|
        ensures Load(Apply(prekeys, writes), writes[i].id, writes[i].kind) == Some(writes[i].blob)
      {
        ConsistentIntact(writes, i);
        IntactLoads(prekeys, writes, writes[i]);
      }
    } else if AllLoad(Apply(prekeys, writes), writes) {
      LoadsConsistent(Apply(prekeys, writes), writes);
    }
  }

  lemma ConsistentIntact(writes: seq<Write>, i: nat)
    requires Consistent(writes) && i < |writes|
    ensures Intact(writes, writes[i])
  {
    forall j | 0 <= j < |writes| && SameSlot(writes[i], writes[j])
      ensures writes[j].blob == writes[i].blob
    {
      assert j < i ==> SameSlot(writes[j], writes[i]);
    }
  }

  lemma LoadsConsistent(prekeys: Shelf, writes: seq<Write>)
    requires AllLoad(prekeys, writes)
    ensures Consistent(writes)
  {
  }

  /** The store object itself. `accepted` is the implementer's answer to the call. */
  class KeyStore {
    var identity: Option<bytes>
    var prekeys: Shelf

    constructor ()
      ensures View() == StoreState(None, map[])
    {
      identity, prekeys := None, map[];
    }

    ghost function View(): StoreState
      reads this
    {
      StoreState(identity, prekeys)
    }

    method StoreOneTimePrekey(id: uint32, kind: KeyType, blob: bytes, accepted: bool) returns (ok: bool)
      modifies this
      ensures ok == accepted && identity == old(identity)
      ensures prekeys == if ok then Apply(old(prekeys), [Write(id, kind, blob)]) else old(prekeys)
    {
      if accepted {
        prekeys := prekeys[(id, kind) := blob];
        assert [Write(id, kind, blob)][1..] == [];
        assert Apply(prekeys, []) == prekeys;
      }
      ok := accepted;
    }

    method LoadOneTimePrekey(id: uint32, kind: KeyType) returns (blob: Option<bytes>)
      ensures blob == Load(prekeys, id, kind)
    {
      blob := Load(prekeys, id, kind);
    }

    method StoreIdentityKeyPair(blob: bytes, accepted: bool) returns (ok: bool)
      modifies this
      ensures ok == accepted && prekeys == old(prekeys)
      ensures identity == if ok then Some(blob) else old(identity)
    {
      if accepted {
        identity := Some(blob);
      }
      ok := accepted;
    }
  }
}
