/**
 Exactly-once delivery under bounded reordering: which arrival orders of the envelopes of one
 sender epoch, with duplicates, a receiver turns into each envelope once, in order of arrival.
 */
module ExactlyOnce {
  import opened Bytes
  import opened Aead
  import opened ReplayWindows
  import opened TransportHeader
  import opened TransportModel
  import opened TransportProperties
  import opened TransportRuns

  // ----- Packets -----

  /** `sent` lists the packets of one domain; `arrivals` are positions in that list, in arrival order. */
  ghost predicate OneDomain(sent: seq<Packet>, domain: Domain) {
    domain.sessionID != 0 && Distinct(sent) &&
    forall p :: p in sent ==> p.domain == domain && p.sequence >= 1
  }

  ghost predicate Arrivals(sent: seq<Packet>, arrivals: seq<nat>) {
    forall i :: 0 <= i < |arrivals| ==> arrivals[i] < |sent|
  }

  ghost function Pick(sent: seq<Packet>, chosen: seq<nat>): (packets: seq<Packet>)
    requires Arrivals(sent, chosen)
    ensures |packets| == |chosen|
    ensures forall i :: 0 <= i < |chosen| ==> packets[i] == sent[chosen[i]]
  {
    seq(|chosen|, i requires 0 <= i < |chosen| => sent[chosen[i]])
  }

  /** The arrivals a window of the given size lets through. */
  ghost function Passed(size: WindowSize, sent: seq<Packet>, arrivals: seq<nat>): (passed: seq<nat>)
    requires Arrivals(sent, arrivals)
    ensures Arrivals(sent, passed)
  {
    if arrivals == [] then []
    else
      var init, last := arrivals[..|arrivals| - 1], arrivals[|arrivals| - 1];
      var passed := Passed(size, sent, init);
      passed + if Accepts(After(size, Pick(sent, passed)), sent[last]) then [last] else []
  }

  /** The arrivals with every repetition removed, first arrivals in order. */
  function WithoutDuplicates(arrivals: seq<nat>): (firsts: seq<nat>)
    ensures forall a :: a in firsts <==> a in arrivals
  {
    if arrivals == [] then []
    else
      var init, last := arrivals[..|arrivals| - 1], arrivals[|arrivals| - 1];
      assert arrivals == init + [last];
      WithoutDuplicates(init) + if last in init then [] else [last]
  }

  /** Each first arrival lies less than the window size below everything that arrived before it. */
  ghost predicate BoundedReordering(size: WindowSize, sent: seq<Packet>, arrivals: seq<nat>)
    requires Arrivals(sent, arrivals)
  {
    forall i, j :: 0 <= j < i < |arrivals| && arrivals[i] !in arrivals[..i] ==>
      sent[arrivals[i]].sequence > sent[arrivals[j]].sequence - size
  }

  /** The next arrival passes iff it did not pass before and is within the window of what did. */
  lemma PassesIffFresh(size: WindowSize, sent: seq<Packet>, domain: Domain, passed: seq<nat>, a: nat)
    requires OneDomain(sent, domain) && Arrivals(sent, passed) && a < |sent|
    ensures Accepts(After(size, Pick(sent, passed)), sent[a]) <==>
            a !in passed && forall b :: b in passed ==> b < |sent| && sent[a].sequence > sent[b].sequence - size
  {
    var history := Pick(sent, passed);
    var committed := Committed(history, domain);
    WindowRefinesSet(size, history, sent[a]);
    assert sent[a] in sent;
    forall b | b in passed
      ensures sent[b].sequence in committed
    {
      var i :| 0 <= i < |passed| && passed[i] == b;
      assert history[i] == sent[b] && sent[b] in sent;
      assert history[i] in history;
    }
    forall c | c in committed
      ensures exists b :: b in passed && sent[b].sequence == c
    {
      var p :| p in history && p.domain == domain && p.sequence == c;
      var i :| 0 <= i < |history| && history[i] == p;
      assert passed[i] in passed && sent[passed[i]].sequence == c;
    }
    if sent[a].sequence in committed {
      var b :| b in passed && sent[b].sequence == sent[a].sequence;
      assert sent[b] in sent && sent[b] == sent[a];
      assert a == b;
    }
  }

  /** Whatever arrived once, passed or not, does not pass again. */
  lemma {:induction false} RepetitionsDoNotPass(size: WindowSize, sent: seq<Packet>, domain: Domain, arrivals: seq<nat>, a: nat)
    requires OneDomain(sent, domain) && Arrivals(sent, arrivals)
    requires a in arrivals && a < |sent|
    ensures !Accepts(After(size, Pick(sent, Passed(size, sent, arrivals))), sent[a])
  {
    var init, last := arrivals[..|arrivals| - 1], arrivals[|arrivals| - 1];
    assert arrivals == init + [last];
    hide Accepts, After;
    var before, after := Passed(size, sent, init), Passed(size, sent, arrivals);
    PassesIffFresh(size, sent, domain, before, a);
    PassesIffFresh(size, sent, domain, after, a);
    if a in init {
      RepetitionsDoNotPass(size, sent, domain, init, a);
    }
  }

  lemma {:induction false} PassedAreFirsts(size: WindowSize, sent: seq<Packet>, domain: Domain, arrivals: seq<nat>)
    requires OneDomain(sent, domain) && Arrivals(sent, arrivals)
    ensures |Passed(size, sent, arrivals)| <= |WithoutDuplicates(arrivals)|
    ensures forall a :: a in Passed(size, sent, arrivals) ==> a in arrivals
  {
    if arrivals != [] {
      hide Accepts, After;
      var init, last := arrivals[..|arrivals| - 1], arrivals[|arrivals| - 1];
      assert arrivals == init + [last];
      PassedAreFirsts(size, sent, domain, init);
      if last in init {
        RepetitionsDoNotPass(size, sent, domain, init, last);
      }
    }
  }

  lemma BoundedExtends(size: WindowSize, sent: seq<Packet>, init: seq<nat>, last: nat)
    requires Arrivals(sent, init) && last < |sent|
    ensures Arrivals(sent, init + [last])
    ensures BoundedReordering(size, sent, init + [last]) <==>
            BoundedReordering(size, sent, init) &&
            (last !in init ==> forall b :: b in init ==> b < |sent| && sent[last].sequence > sent[b].sequence - size)
  {
    var arrivals := init + [last];
    assert forall i :: 0 <= i < |init| ==> arrivals[i] == init[i] && arrivals[..i] == init[..i];
    assert arrivals[..|init|] == init;
    if BoundedReordering(size, sent, arrivals) {
      forall b | b in init && last !in init
        ensures b < |sent| && sent[last].sequence > sent[b].sequence - size
      {
        var j :| 0 <= j < |init| && init[j] == b;
        assert arrivals[j] == b && arrivals[|init|] == last;
      }
      forall i, j | 0 <= j < i < |init| && init[i] !in init[..i]
        ensures sent[init[i]].sequence > sent[init[j]].sequence - size
      {
        assert arrivals[i] !in arrivals[..i];
      }
    }
  }

  /** The window passes every first arrival and nothing else exactly when the reordering is bounded. */
  lemma {:induction false} PassedIffBounded(size: WindowSize, sent: seq<Packet>, domain: Domain, arrivals: seq<nat>)
    requires OneDomain(sent, domain) && Arrivals(sent, arrivals)
    ensures Passed(size, sent, arrivals) == WithoutDuplicates(arrivals) <==> BoundedReordering(size, sent, arrivals)
  {
    if arrivals == [] {
      NothingArrives(size, sent);
    } else {
      hide Accepts, After, BoundedReordering, Passed, WithoutDuplicates;
      var init, last := arrivals[..|arrivals| - 1], arrivals[|arrivals| - 1];
      assert arrivals == init + [last];
      var passed, firsts := Passed(size, sent, init), WithoutDuplicates(init);
      PassedIffBounded(size, sent, domain, init);
      PassedAreFirsts(size, sent, domain, init);
      BoundedExtends(size, sent, init, last);
      OneMoreArrival(size, sent, init, last);
      OneMoreFirst(init, last);
      PassesIffFresh(size, sent, domain, passed, last);
      if last in init {
        RepetitionsDoNotPass(size, sent, domain, init, last);
      } else {
        EqualExtensions(passed, firsts, last);
      }
    }
  }

  lemma OneMoreFirst(arrivals: seq<nat>, last: nat)
    ensures WithoutDuplicates(arrivals + [last]) ==
            if last in arrivals then WithoutDuplicates(arrivals) else WithoutDuplicates(arrivals) + [last]
  {
    assert (arrivals + [last])[..|arrivals|] == arrivals;
  }

  lemma EqualExtensions(a: seq<nat>, b: seq<nat>, x: nat)
    requires |a| <= |b|
    ensures a + [x] == b + [x] <==> a == b
    ensures a != b + [x]
  {
    if a + [x] == b + [x] {
      assert a == (a + [x])[..|a|] == (b + [x])[..|b|] == b;
    }
  }

  // ----- Envelopes -----

  /** A Protect call that produced an envelope, with the state and environment it ran in. */
  datatype Emission = Emission(st: State, env: Environment, protocol: byte, plaintext: Span)

  ghost predicate Genuine(e: Emission) {
    Reachable(e.st) && Protect(e.st, e.env, e.protocol, e.plaintext).result == Ok(true)
  }

  function Envelope(e: Emission): seq<byte> {
    Protect(e.st, e.env, e.protocol, e.plaintext).output
  }

  ghost predicate AllGenuine(emissions: seq<Emission>) {
    forall i :: 0 <= i < |emissions| ==> Genuine(emissions[i])
  }

  ghost function HeaderOf(e: Emission): Header
    requires Genuine(e)
  {
    EnvelopeIsWhole(e.st, e.env, e.protocol, e.plaintext);
    Decode(Envelope(e))
  }

  /** The envelopes a run of the sender emits, in order. */
  ghost function Emissions(st: State, ops: seq<Operation>): seq<Emission> {
    if ops == [] then []
    else
      var init, last := ops[..|ops| - 1], ops[|ops| - 1];
      Emissions(st, init) +
      if Emits(ReplyTo(Run(st, init), last)) then [Emission(Run(st, init), last.env, last.protocol, last.plaintext)] else []
  }

  lemma {:induction false} EmissionsAreEmitted(st: State, ops: seq<Operation>)
    requires Reachable(st)
    requires forall op :: op in ops ==> KeepsConfig(op)
    ensures Run(st, ops).config == st.config
    ensures |Emissions(st, ops)| == |Emitted(st, ops)|
    ensures forall i :: 0 <= i < |Emissions(st, ops)| ==>
      var e := Emissions(st, ops)[i];
      Genuine(e) && e.st.config == st.config && HeaderOf(e) == Emitted(st, ops)[i]
  {
    if ops != [] {
      hide Protect, Unprotect, Decode;
      var init, last := ops[..|ops| - 1], ops[|ops| - 1];
      var mid := Run(st, init);
      assert last in ops;
      EmissionsAreEmitted(st, init);
      RunKeepsReachable(st, init);
      if last.ProtectCall? {
        ProtectKeepsReceiver(mid, last.env, last.protocol, last.plaintext);
      } else if last.UnprotectCall? {
        UnprotectKeepsSender(mid, last.env, last.expected, last.input);
      }
    }
  }

  ghost function PacketsOf(emissions: seq<Emission>): (packets: seq<Packet>)
    requires AllGenuine(emissions)
    ensures |packets| == |emissions|
    ensures forall i :: 0 <= i < |emissions| ==> packets[i] == PacketOf(HeaderOf(emissions[i]))
  {
    seq(|emissions|, i requires 0 <= i < |emissions| => PacketOf(HeaderOf(emissions[i])))
  }

  /** The envelopes of one sender epoch share a replay domain and never repeat a packet. */
  lemma EpochIsOneDomain(st: State, ops: seq<Operation>) returns (domain: Domain)
    requires Reachable(st)
    requires forall op :: op in ops ==> KeepsConfig(op)
    ensures AllGenuine(Emissions(st, ops))
    ensures forall i :: 0 <= i < |Emissions(st, ops)| ==> HeaderOf(Emissions(st, ops)[i]).keyID == st.config.outboundKeyID
    ensures Emissions(st, ops) != [] ==> OneDomain(PacketsOf(Emissions(st, ops)), domain)
  {
    var emissions := Emissions(st, ops);
    domain := Domain(st.config.senderID, st.config.outboundKeyID, Run(st, ops).sessionID);
    EmissionsAreEmitted(st, ops);
    OutboundSequences(st, ops);
    hide Protect, Run, Emitted, Emissions;
    assert AllGenuine(emissions);
    forall i | 0 <= i < |emissions|
      ensures PacketOf(HeaderOf(emissions[i])) == Packet(domain, Emitted(st, ops)[i].sequence)
      ensures HeaderOf(emissions[i]).keyID == st.config.outboundKeyID
    {
      var e := emissions[i];
      var h, cipher := EnvelopeShape(e.st, e.env, e.protocol, e.plaintext);
    }
  }

  /** The receiver has the cipher and key of the emission, and room for its data. */
  ghost predicate CanReceive(r: State, env: Environment, e: Emission)
    requires Genuine(e)
  {
    var h := HeaderOf(e);
    var ref, cipher := KeyRef(h.keyID, h.algorithm), FindCipher(e.env.ciphers, h.algorithm);
    |e.plaintext.Data()| <= r.config.maximumPlaintextBytes &&
    FindCipher(env.ciphers, h.algorithm) == cipher && (cipher.Some? ==> Inverts(cipher.value)) &&
    ref in env.keys && ref in e.env.keys && env.keys[ref] == e.env.keys[ref]
  }

  ghost function PayloadSent(e: Emission): UnprotectedPayload
    requires Genuine(e)
  {
    PayloadOf(HeaderOf(e), e.plaintext.Data())
  }

  /** The carrier hands the receiver the envelopes in arrival order, each under its own protocol. */
  function Receipts(emissions: seq<Emission>, arrivals: seq<nat>, env: Environment): (ops: seq<Operation>)
    requires forall i :: 0 <= i < |arrivals| ==> arrivals[i] < |emissions|
    ensures |ops| == |arrivals|
    ensures forall i :: 0 <= i < |arrivals| ==>
      ops[i] == UnprotectCall(emissions[arrivals[i]].protocol, Span(Envelope(emissions[arrivals[i]])), env)
  {
    seq(|arrivals|, i requires 0 <= i < |arrivals| =>
      UnprotectCall(emissions[arrivals[i]].protocol, Span(Envelope(emissions[arrivals[i]])), env))
  }

  ghost function Payloads(emissions: seq<Emission>, chosen: seq<nat>): (payloads: seq<UnprotectedPayload>)
    requires AllGenuine(emissions)
    requires forall i :: 0 <= i < |chosen| ==> chosen[i] < |emissions|
    ensures |payloads| == |chosen|
    ensures forall i :: 0 <= i < |chosen| ==> payloads[i] == PayloadSent(emissions[chosen[i]])
  {
    seq(|chosen|, i requires 0 <= i < |chosen| => PayloadSent(emissions[chosen[i]]))
  }

  /** A genuine envelope is delivered as it was sent exactly when the window accepts its packet. */
  lemma ReceiptDelivers(r: State, env: Environment, e: Emission)
    requires Genuine(e) && HeaderOf(e).keyID != 0 && CanReceive(r, env, e)
    ensures var op := UnprotectCall(e.protocol, Span(Envelope(e)), env);
            var packet := PacketOf(HeaderOf(e));
            (Delivers(ReplyTo(r, op)) <==> Accepts(r.replay, packet)) &&
            (Accepts(r.replay, packet) ==> ReplyTo(r, op).payload == PayloadSent(e))
  {
    hide Protect, Unprotect, Decode;
    var h, cipher := EnvelopeShape(e.st, e.env, e.protocol, e.plaintext);
    var h', cipher' := TransportRoundTrip(e.st, e.env, e.protocol, e.plaintext, r, env, e.protocol);
  }

  /** The receiver has cipher, key and room for every one of the emissions, and their key IDs are legal. */
  ghost predicate CanReceiveAll(r: State, env: Environment, emissions: seq<Emission>)
    requires AllGenuine(emissions)
  {
    forall i :: 0 <= i < |emissions| ==> HeaderOf(emissions[i]).keyID != 0 && CanReceive(r, env, emissions[i])
  }

  lemma OneMoreArrival(size: WindowSize, sent: seq<Packet>, arrivals: seq<nat>, last: nat)
    requires Arrivals(sent, arrivals) && last < |sent|
    ensures Arrivals(sent, arrivals + [last])
    ensures var passed := Passed(size, sent, arrivals);
            Passed(size, sent, arrivals + [last]) ==
            if Accepts(After(size, Pick(sent, passed)), sent[last]) then passed + [last] else passed
  {
    hide Accepts, After;
    assert (arrivals + [last])[..|arrivals|] == arrivals;
  }

  /** One receipt in a state whose window holds what passed so far. */
  lemma ReceiptPasses(emissions: seq<Emission>, passed: seq<nat>, last: nat, r: State, mid: State, env: Environment)
    requires AllGenuine(emissions) && CanReceiveAll(r, env, emissions)
    requires Arrivals(PacketsOf(emissions), passed) && last < |emissions|
    requires mid.config == r.config && mid.replay == After(r.replay.size, Pick(PacketsOf(emissions), passed))
    ensures var op := UnprotectCall(emissions[last].protocol, Span(Envelope(emissions[last])), env);
            Step(mid, op).config == r.config &&
            (Delivers(ReplyTo(mid, op)) <==> Accepts(mid.replay, PacketsOf(emissions)[last])) &&
            (Delivers(ReplyTo(mid, op)) ==>
              Payloads(emissions, passed) + [ReplyTo(mid, op).payload] == Payloads(emissions, passed + [last]))
  {
    hide Unprotect, Protect, Envelope, Genuine, HeaderOf, Accepts, After, Delivers;
    var e := emissions[last];
    ReceiptDelivers(mid, env, e);
    UnprotectKeepsConfig(mid, env, e.protocol, Span(Envelope(e)));
    assert Payloads(emissions, passed + [last]) == Payloads(emissions, passed) + [PayloadSent(e)];
  }

  /** The receiver delivers exactly the arrivals its window passes. */
  lemma {:induction false} DeliveredIsPassed(emissions: seq<Emission>, arrivals: seq<nat>, r: State, env: Environment)
    requires AllGenuine(emissions) && CanReceiveAll(r, env, emissions)
    requires r.replay.states == []
    requires forall i :: 0 <= i < |arrivals| ==> arrivals[i] < |emissions|
    ensures var ops := Receipts(emissions, arrivals, env);
            Run(r, ops).config == r.config &&
            Delivered(r, ops) == Payloads(emissions, Passed(r.replay.size, PacketsOf(emissions), arrivals))
  {
    hide Protect, Envelope, Genuine, HeaderOf, CanReceiveAll;
    if arrivals == [] {
      assert Receipts(emissions, [], env) == [];
    } else {
      hide Run, Delivered, Passed, Step, ReplyTo, Accepts, After, Delivers;
      var init, last := arrivals[..|arrivals| - 1], arrivals[|arrivals| - 1];
      var before, e := Receipts(emissions, init, env), emissions[last];
      var op := UnprotectCall(e.protocol, Span(Envelope(e)), env);
      var packets := PacketsOf(emissions);
      var passed := Passed(r.replay.size, packets, init);
      assert arrivals == init + [last];
      assert Receipts(emissions, arrivals, env) == before + [op];
      DeliveredIsPassed(emissions, init, r, env);
      WindowAfterReceipts(emissions, init, passed, r, env);
      OneMoreCall(r, before, op);
      OneMoreArrival(r.replay.size, packets, init, last);
      ReceiptPasses(emissions, passed, last, r, Run(r, before), env);
    }
  }

  lemma WindowAfterReceipts(emissions: seq<Emission>, arrivals: seq<nat>, passed: seq<nat>, r: State, env: Environment)
    requires AllGenuine(emissions)
    requires r.replay.states == []
    requires forall i :: 0 <= i < |arrivals| ==> arrivals[i] < |emissions|
    requires Arrivals(PacketsOf(emissions), passed)
    requires Delivered(r, Receipts(emissions, arrivals, env)) == Payloads(emissions, passed)
    ensures Run(r, Receipts(emissions, arrivals, env)).replay == After(r.replay.size, Pick(PacketsOf(emissions), passed))
  {
    hide Genuine, HeaderOf, Envelope, Protect, Unprotect, After, Run, Delivered;
    WindowHoldsDelivered(r, Receipts(emissions, arrivals, env));
    assert Packets(Payloads(emissions, passed)) == Pick(PacketsOf(emissions), passed);
  }

  lemma UnprotectKeepsConfig(st: State, env: Environment, expected: byte, input: Span)
    ensures Unprotect(st, env, expected, input).state.config == st.config
  {
    hide Unprotect;
    UnprotectKeepsSender(st, env, expected, input);
  }

  /** Distinct choices of distinct packets are distinct payloads. */
  lemma {:induction false} PayloadsDetermineChoice(emissions: seq<Emission>, a: seq<nat>, b: seq<nat>)
    requires AllGenuine(emissions)
    requires Distinct(PacketsOf(emissions))
    requires Arrivals(PacketsOf(emissions), a) && Arrivals(PacketsOf(emissions), b)
    ensures Payloads(emissions, a) == Payloads(emissions, b) <==> a == b
  {
    if Payloads(emissions, a) == Payloads(emissions, b) {
      assert |a| == |b|;
      forall i | 0 <= i < |a|
        ensures a[i] == b[i]
      {
        assert Payloads(emissions, a)[i] == Payloads(emissions, b)[i];
        assert PacketsOf(emissions)[a[i]] == PacketsOf(emissions)[b[i]];
      }
    }
  }

  /**
   Exactly once under bounded reordering. The carrier delivers envelopes of one sender epoch to a
   receiver at the start of its own, in any order and any number of times. The payloads handed up
   are those sent, each once, in the order of first arrival, if and only if every first arrival
   lies less than the clamped window size below all that arrived before it.
   */
  lemma ExactlyOnceDelivery(st: State, ops: seq<Operation>, arrivals: seq<nat>, r: State, env: Environment)
    requires Reachable(st) && st.config.outboundKeyID != 0
    requires forall op :: op in ops ==> KeepsConfig(op)
    requires r.replay.states == []
    requires ReceivesFrom(r, env, Emissions(st, ops))
    requires forall i :: 0 <= i < |arrivals| ==> arrivals[i] < |Emissions(st, ops)|
    ensures AllGenuine(Emissions(st, ops))
    ensures DeliversEachOnce(Emissions(st, ops), arrivals, r, env) <==>
            BoundedReordering(r.replay.size, PacketsOf(Emissions(st, ops)), arrivals)
  {
    hide Genuine, HeaderOf, CanReceive, Emissions, Delivered, Passed, WithoutDuplicates, BoundedReordering;
    var emissions := Emissions(st, ops);
    var domain := EpochIsOneDomain(st, ops);
    DeliveredIsPassed(emissions, arrivals, r, env);
    if emissions == [] {
      assert arrivals == [];
      NothingArrives(r.replay.size, PacketsOf(emissions));
    } else {
      var packets := PacketsOf(emissions);
      PassedIffBounded(r.replay.size, packets, domain, arrivals);
      FirstsArrive(packets, arrivals);
      PayloadsDetermineChoice(emissions, Passed(r.replay.size, packets, arrivals), WithoutDuplicates(arrivals));
    }
  }

  ghost predicate ReceivesFrom(r: State, env: Environment, emissions: seq<Emission>) {
    forall i :: 0 <= i < |emissions| && Genuine(emissions[i]) ==> CanReceive(r, env, emissions[i])
  }

  /** What is handed up is the payload of every envelope that arrived, once, in order of first arrival. */
  ghost predicate DeliversEachOnce(emissions: seq<Emission>, arrivals: seq<nat>, r: State, env: Environment)
    requires AllGenuine(emissions)
    requires forall i :: 0 <= i < |arrivals| ==> arrivals[i] < |emissions|
  {
    var firsts := WithoutDuplicates(arrivals);
    Arrivals(PacketsOf(emissions), firsts) &&
    Delivered(r, Receipts(emissions, arrivals, env)) == Payloads(emissions, firsts)
  }

  lemma FirstsArrive(sent: seq<Packet>, arrivals: seq<nat>)
    requires Arrivals(sent, arrivals)
    ensures Arrivals(sent, WithoutDuplicates(arrivals))
  {
    var firsts := WithoutDuplicates(arrivals);
    assert forall i :: 0 <= i < |firsts| ==> firsts[i] in firsts;
  }

  lemma NothingArrives(size: WindowSize, sent: seq<Packet>)
    ensures WithoutDuplicates([]) == [] && Passed(size, sent, []) == [] && BoundedReordering(size, sent, [])
  {
  }
}
