/** What each event of the transition system does, and that whole handshakes do take place. */
module Runs {
  import opened Bytes
  import opened Outcomes
  import opened Suites
  import opened Xeddsa
  import opened Stores
  import opened Pqxdh
  import opened Refills
  import opened Systems

  // ----- the four events

  /** What is drawn for a device when it enrols. */
  datatype Device = Device(K: xckey, spk: xckey, spkZ: key64, lastResort: LastResortKey)

  function Enrolment(d: Device): Event {
    Enroll(d.K, d.spk, d.spkZ, d.lastResort)
  }

  /** A device with the keys drawn, these and nothing else in its store, and none published yet. */
  ghost predicate Enrolled(S: Suite, p: Party, d: Device)
    requires S.kemKeypair(d.lastResort.seed).Some?
  {
    var (pk, sk) := S.kemKeypair(d.lastResort.seed).value;
    var id := S.genericHash(PublicOf(S, d.spk));
    && p.K == d.K && p.spk == d.spk && p.spkZ == d.spkZ && p.lastResort == d.lastResort
    && p.xs == [] && p.qs == []
    && p.store.identity == Some(PublicOf(S, d.K) + d.K)
    && p.store.prekeys == map[(id, PREKEY) := PublicOf(S, d.spk) + d.spk, (d.lastResort.id, QUANTUM) := pk + sk]
    && p.writes == [Write(id, PREKEY, PublicOf(S, d.spk) + d.spk), Write(d.lastResort.id, QUANTUM, pk + sk)]
  }

  /** Enrolment adds one party, with the keys drawn; without a last-resort key it does nothing. */
  lemma EnrollDoes(S: Suite, s: System, d: Device)
    ensures var t := Step(S, s, Enrolment(d));
      && t.exchanges == s.exchanges && t.answers == s.answers
      && (S.kemKeypair(d.lastResort.seed).None? ==> t.parties == s.parties)
      && (S.kemKeypair(d.lastResort.seed).Some? ==>
            && |t.parties| == |s.parties| + 1 && t.parties[..|s.parties|] == s.parties
            && Enrolled(S, t.parties[|s.parties|], d))
  {
    if S.kemKeypair(d.lastResort.seed).Some? {
      TwoWrites(XWrite(S, d.spk), LastResortWrite(S, d.lastResort));
    }
  }

  lemma TwoWrites(v: Write, w: Write)
    ensures Apply(map[], [v, w]) == map[(v.id, v.kind) := v.blob, (w.id, w.kind) := w.blob]
  {
    var m: Shelf := map[(v.id, v.kind) := v.blob];
    assert [v, w][1..] == [w] && [w][1..] == [];
    assert Apply(m, [w]) == Apply(m[(w.id, w.kind) := w.blob], []);
  }

  /** Every key generated, and both stores of every iteration accepted. */
  predicate AllStored(S: Suite, draws: seq<Draw>) {
    forall i :: 0 <= i < |draws| ==> draws[i].stored && S.kemKeypair(draws[i].seed).Some? && draws[i].qStored
  }

  /** The keys that `c` asks for are among those drawn. */
  ghost predicate Drawn(draws: seq<Draw>, c: Choice) {
    && (c.quantum.Some? ==>
          exists i :: 0 <= i < |draws| && draws[i].seed == c.quantum.value.seed && draws[i].z == c.quantum.value.z)
    && (c.oneTime.Some? ==> exists i :: 0 <= i < |draws| && draws[i].private == c.oneTime.value)
  }

  /** The same device with more in its store and, if nothing failed, more published. */
  ghost predicate Grown(S: Suite, p: Party, q: Party, draws: seq<Draw>) {
    && q.K == p.K && q.spk == p.spk && q.spkZ == p.spkZ && q.lastResort == p.lastResort
    && q.store.identity == p.store.identity
    && q.store.prekeys == Apply(p.store.prekeys, RefillWrites(S, draws))
    && q.writes == p.writes + RefillWrites(S, draws)
    && p.xs <= q.xs && p.qs <= q.qs
    && |q.xs| == |p.xs| + (if AllStored(S, draws) then |draws| else 0)
    && |q.qs| == |p.qs| + (if AllStored(S, draws) then |draws| else 0)
    && (AllStored(S, draws) ==> forall i :: 0 <= i < |draws| ==>
          && q.xs[|p.xs| + i] == draws[i].private
          && q.qs[|p.qs| + i].seed == draws[i].seed && q.qs[|p.qs| + i].z == draws[i].z)
  }

  /**
   A refill changes one party, by the writes it makes, and publishes every key drawn if
   nothing failed and none if something did. What was published stays published.
   */
  lemma RefillDoes(S: Suite, s: System, who: nat, draws: seq<Draw>)
    ensures var t := Step(S, s, Refill(who, draws));
      && (who >= |s.parties| ==> t == s)
      && (who < |s.parties| ==>
            && t.exchanges == s.exchanges && t.answers == s.answers && |t.parties| == |s.parties|
            && (forall i :: 0 <= i < |s.parties| && i != who ==> t.parties[i] == s.parties[i])
            && Grown(S, s.parties[who], t.parties[who], draws)
            && (forall c :: Published(S, s.parties[who], c) ==> Published(S, t.parties[who], c))
            && (forall c :: AllStored(S, draws) && Drawn(draws, c)
                            && S.kemKeypair(s.parties[who].lastResort.seed).Some? ==>
                  Published(S, t.parties[who], c)))
  {
    if who < |s.parties| {
      var p := s.parties[who];
      var q := Refilled(S, p, draws);
      assert AllStored(S, draws) <==> Succeeds(S, draws);
      assert Grown(S, p, q, draws);
      forall c | Published(S, p, c)
        ensures Published(S, q, c)
      {
      }
      forall c | AllStored(S, draws) && Drawn(draws, c) && S.kemKeypair(p.lastResort.seed).Some?
        ensures Published(S, q, c)
      {
        DrawnPublished(S, p, q, draws, c);
      }
    }
  }

  lemma DrawnPublished(S: Suite, p: Party, q: Party, draws: seq<Draw>, c: Choice)
    requires Grown(S, p, q, draws) && AllStored(S, draws) && Drawn(draws, c)
    requires S.kemKeypair(p.lastResort.seed).Some?
    ensures Published(S, q, c)
  {
    if c.quantum.Some? {
      var i :| 0 <= i < |draws| && draws[i].seed == c.quantum.value.seed && draws[i].z == c.quantum.value.z;
      assert q.qs[|p.qs| + i] == c.quantum.value;
    }
    if c.oneTime.Some? {
      var i :| 0 <= i < |draws| && draws[i].private == c.oneTime.value;
      assert q.xs[|p.xs| + i] == c.oneTime.value;
    }
  }

  /** The call that an outbound event makes. */
  function OutboundCall(S: Suite, s: System, from: nat, to: nat, c: Choice, ek: xckey, coins: bytes)
    : Outcome<Option<InitResult>>
    requires from < |s.parties| && to < |s.parties| && Published(S, s.parties[to], c)
  {
    var K := s.parties[from].K;
    CreateOutboundSession(S, KeyPair(PublicOf(S, K), K), PublicOf(S, s.parties[to].K), BundleFor(S, s.parties[to], c),
                          Some(ek), coins)
  }

  /**
   An outbound event between two parties, on published keys, adds the exchange of its call
   when the signatures to check are accepted, and does nothing otherwise.
   */
  lemma OutboundDoes(S: Suite, s: System, from: nat, to: nat, c: Choice, ek: xckey, coins: bytes)
    requires Laws(S)
    ensures var t := Step(S, s, Outbound(from, to, c, ek, coins));
      var possible := from < |s.parties| && to < |s.parties| && Published(S, s.parties[to], c);
      && (!possible ==> t == s)
      && (possible ==>
            && t.parties == s.parties && t.answers == s.answers
            && (!SignaturesAccepted(S, s.parties[to], c) ==> t.exchanges == s.exchanges)
            && (SignaturesAccepted(S, s.parties[to], c) ==>
                  && |t.exchanges| == |s.exchanges| + 1 && t.exchanges[..|s.exchanges|] == s.exchanges
                  && var x := t.exchanges[|s.exchanges|];
                     && x.from == from && x.to == to && x.choice == c && x.ek == ek && x.coins == coins
                     && OutboundCall(S, s, from, to, c, ek, coins) == Value(Some(x.result))))
  {
    if from < |s.parties| && to < |s.parties| && Published(S, s.parties[to], c) {
      OutboundSucceeds(S, s.parties[from].K, s.parties[to], c, ek, coins);
    }
  }

  /** An inbound event adds the responder's answer to the exchange, from its store as it is now. */
  lemma InboundDoes(S: Suite, s: System, k: nat)
    ensures var t := Step(S, s, Inbound(k));
      if k < |s.exchanges| && s.exchanges[k].to < |s.parties| then
        && t.parties == s.parties && t.exchanges == s.exchanges
        && |t.answers| == |s.answers| + 1 && t.answers[..|s.answers|] == s.answers
        && t.answers[|s.answers|].exchange == k
        && t.answers[|s.answers|].result
             == InboundFromStore(S, s.parties[s.exchanges[k].to].store, s.exchanges[k].result.handshake)
      else
        t == s
  {
  }

  /** A run is its events one after the other. */
  lemma {:induction false} RunSplit(S: Suite, s: System, a: seq<Event>, b: seq<Event>)
    ensures Run(S, s, a + b) == Run(S, Run(S, s, a), b)
    decreases |a|
  {
    if a == [] {
      assert a + b == b;
    } else {
      assert (a + b)[0] == a[0] && (a + b)[1..] == a[1..] + b;
      RunSplit(S, Step(S, s, a[0]), a[1..], b);
    }
  }

  lemma RunOne(S: Suite, s: System, events: seq<Event>, e: Event)
    ensures Run(S, s, []) == s
    ensures Run(S, s, events + [e]) == Step(S, Run(S, s, events), e)
  {
    RunSplit(S, s, events, [e]);
    assert [e][1..] == [];
    assert Run(S, Run(S, s, events), [e]) == Run(S, Step(S, Run(S, s, events), e), []);
  }

  // ----- handshakes take place

  /**
   After every run, two parties can go through with a handshake on published keys whose
   signatures are accepted: the call adds an exchange, the answer to it is added, and if
   none of the slots it names was given another key the two sessions mirror each other.
   */
  lemma HandshakeHappens(S: Suite, events: seq<Event>, from: nat, to: nat, c: Choice, ek: xckey, coins: bytes)
    requires Laws(S)
    requires var s := Run(S, EMPTY, events);
      && from < |s.parties| && to < |s.parties| && Published(S, s.parties[to], c)
      && SignaturesAccepted(S, s.parties[to], c)
    ensures var s := Run(S, EMPTY, events);
      var k := |s.exchanges|;
      var t := Run(S, EMPTY, events + [Outbound(from, to, c, ek, coins)] + [Inbound(k)]);
      && t.parties == s.parties && |t.exchanges| == k + 1 && |t.answers| == |s.answers| + 1
      && var x, answer := t.exchanges[k], t.answers[|s.answers|];
         && x.from == from && x.to == to && x.choice == c && x.ek == ek && x.coins == coins
         && answer.exchange == k
         && (SlotsIntact(S, s.parties[to], c) ==>
               Mirrors(S, s.parties[from].K, s.parties[to].K, ek, x.result, answer.result))
  {
    var s := Run(S, EMPTY, events);
    var calls := events + [Outbound(from, to, c, ek, coins)];
    RunOne(S, EMPTY, events, Outbound(from, to, c, ek, coins));
    OutboundDoes(S, s, from, to, c, ek, coins);
    RunOne(S, EMPTY, calls, Inbound(|s.exchanges|));
    InboundDoes(S, Run(S, EMPTY, calls), |s.exchanges|);
    EveryRunAgrees(S, calls + [Inbound(|s.exchanges|)], |s.exchanges|);
  }

  /** The two devices of a first handshake, and the keys the second one has refilled. */
  function Preparation(a: Device, b: Device, draws: seq<Draw>): seq<Event> {
    [Enrolment(a), Enrolment(b), Refill(1, draws)]
  }

  lemma Prepared(S: Suite, a: Device, b: Device, draws: seq<Draw>, c: Choice)
    requires S.kemKeypair(a.lastResort.seed).Some? && S.kemKeypair(b.lastResort.seed).Some?
    requires AllStored(S, draws) && Drawn(draws, c)
    ensures var s := Run(S, EMPTY, Preparation(a, b, draws));
      && |s.parties| == 2 && s.exchanges == [] && s.answers == []
      && s.parties[0].K == a.K && s.parties[1].K == b.K
      && s.parties[1].spk == b.spk && s.parties[1].spkZ == b.spkZ && s.parties[1].lastResort == b.lastResort
      && s.parties[1].writes == [XWrite(S, b.spk), LastResortWrite(S, b.lastResort)] + RefillWrites(S, draws)
      && Published(S, s.parties[1], c)
  {
    var one, two := [Enrolment(a)], [Enrolment(a), Enrolment(b)];
    assert [] + [Enrolment(a)] == one && one + [Enrolment(b)] == two;
    assert two + [Refill(1, draws)] == Preparation(a, b, draws);
    RunOne(S, EMPTY, [], Enrolment(a));
    RunOne(S, EMPTY, one, Enrolment(b));
    RunOne(S, EMPTY, two, Refill(1, draws));
    EnrollDoes(S, EMPTY, a);
    EnrollDoes(S, Run(S, EMPTY, one), b);
    var s := Run(S, EMPTY, two);
    assert s.parties[0] == s.parties[..1][0];
    RefillDoes(S, s, 1, draws);
  }

  /** None of the slots that a first handshake names is given another key. */
  ghost predicate Unreused(S: Suite, b: Device, draws: seq<Draw>, c: Choice)
    requires S.kemKeypair(b.lastResort.seed).Some?
    requires c.quantum.Some? ==> S.kemKeypair(c.quantum.value.seed).Some?
  {
    var last := LastResortWrite(S, b.lastResort);
    var writes := [XWrite(S, b.spk), last] + RefillWrites(S, draws);
    && Intact(writes, XWrite(S, b.spk))
    && Intact(writes, if c.quantum.Some? then QWrite(S, c.quantum.value.seed) else last)
    && (c.oneTime.Some? ==> Intact(writes, XWrite(S, c.oneTime.value)))
  }

  /**
   From nothing: for any two devices, any successful refill of the second and any choice of
   the keys drawn, with or without a one-time prekey and with either quantum key, if the
   signatures to check are accepted, then two enrolments, the refill, the call and the
   answer leave one exchange and one answer, and the two mirror each other unless another
   key came under the id of one they use.
   */
  lemma FirstHandshake(S: Suite, a: Device, b: Device, draws: seq<Draw>, c: Choice, ek: xckey, coins: bytes)
    requires Laws(S)
    requires S.kemKeypair(a.lastResort.seed).Some? && S.kemKeypair(b.lastResort.seed).Some?
    requires AllStored(S, draws) && Drawn(draws, c)
    requires Accepted(S, b.K, PublicOf(S, b.spk), b.spkZ)
    requires c.quantum.Some? ==>
      && S.kemKeypair(c.quantum.value.seed).Some?
      && Accepted(S, b.K, S.kemKeypair(c.quantum.value.seed).value.0, c.quantum.value.z)
    ensures
      var events := Preparation(a, b, draws) + [Outbound(0, 1, c, ek, coins)] + [Inbound(0)];
      var s := Run(S, EMPTY, events);
      && |s.parties| == 2 && s.parties[0].K == a.K && s.parties[1].K == b.K
      && |s.exchanges| == 1 && |s.answers| == 1
      && var x, answer := s.exchanges[0], s.answers[0];
         && x.from == 0 && x.to == 1 && x.choice == c && x.ek == ek && x.coins == coins && answer.exchange == 0
         && (Unreused(S, b, draws, c) ==> Mirrors(S, a.K, b.K, ek, x.result, answer.result))
  {
    Prepared(S, a, b, draws, c);
    HandshakeHappens(S, Preparation(a, b, draws), 0, 1, c, ek, coins);
  }
}
