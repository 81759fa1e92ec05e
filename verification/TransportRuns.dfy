/** Whole runs of one TransportSecurity: any calls, in any order, in any environment. */
module TransportRuns {
  import opened Bytes
  import opened Aead
  import opened Randomness
  import opened ReplayWindows
  import opened TransportHeader
  import opened TransportModel
  import opened TransportProperties

  datatype Operation =
    | ProtectCall(protocol: byte, plaintext: Span, env: Environment)
    | UnprotectCall(expected: byte, input: Span, env: Environment)
    | SetConfigCall(config: Config)
    | ResetReplayCall
    | RegisterCall(present: bool, materialized: bool)

  datatype Reply =
    | ProtectReply(result: SecurityResult, output: seq<byte>)
    | UnprotectReply(result: SecurityResult, payload: UnprotectedPayload)
    | Done

  function Step(st: State, op: Operation): State {
    match op
    case ProtectCall(protocol, plaintext, env) => Protect(st, env, protocol, plaintext).state
    case UnprotectCall(expected, input, env) => Unprotect(st, env, expected, input).state
    case SetConfigCall(config) => SetConfig(st, config)
    case ResetReplayCall => ResetReplayProtection(st)
    case RegisterCall(present, materialized) => RegisterObserver(st, present, materialized)
  }

  function ReplyTo(st: State, op: Operation): Reply {
    match op
    case ProtectCall(protocol, plaintext, env) =>
      var outcome := Protect(st, env, protocol, plaintext);
      ProtectReply(outcome.result, outcome.output)
    case UnprotectCall(expected, input, env) =>
      var outcome := Unprotect(st, env, expected, input);
      UnprotectReply(outcome.result, outcome.payload)
    case _ => Done
  }

  function Run(st: State, ops: seq<Operation>): State {
    if ops == [] then st else Step(Run(st, ops[..|ops| - 1]), ops[|ops| - 1])
  }

  function Replies(st: State, ops: seq<Operation>): seq<Reply> {
    if ops == [] then []
    else Replies(st, ops[..|ops| - 1]) + [ReplyTo(Run(st, ops[..|ops| - 1]), ops[|ops| - 1])]
  }

  // ----- Reachable states -----

  lemma InitialIsReachable(config: Config)
    ensures Reachable(Initial(config))
  {
  }

  /** The state with the report of a failing result. */
  function Reported(st: State, result: SecurityResult): State {
    if result.success then st else Notify(st, Failure(result))
  }

  /** From `st` the outcome consumed its next sequence or nothing, and reported a failure or nothing. */
  ghost predicate Advances(st: State, outcome: ProtectOutcome) {
    if outcome.sequence.Some? then
      1 <= st.nextSequence < UINT64_MAX && outcome.sequence == Some(st.nextSequence) &&
      outcome.state == Reported(st.(nextSequence := st.nextSequence + 1), outcome.result)
    else
      outcome.result != Ok(true) && outcome.state == Reported(st, outcome.result)
  }

  lemma SealAdvances(st: State, env: Environment, protocol: byte, data: seq<byte>, cipher: AeadCipher, key: seq<byte>)
    ensures Advances(st, SealNext(st, env, protocol, data, cipher, key))
  {
    hide Encode;
  }

  /** Protect may establish a session; apart from that it consumes at most one sequence and reports its failure. */
  lemma ProtectAdvances(st: State, env: Environment, protocol: byte, plaintext: Span)
    ensures var outcome := Protect(st, env, protocol, plaintext);
            var session := EnsureSession(st, env.script);
            (outcome.sequence.None? && Advances(st, outcome)) ||
            (Advances(session.state, outcome) && (outcome.sequence.Some? ==> session.ready))
  {
    hide SealNext, EnsureSession;
    var ref := KeyRef(st.config.outboundKeyID, st.config.outboundAlgorithm);
    var cipher := FindCipher(env.ciphers, st.config.outboundAlgorithm);
    if ref in env.keys && cipher.Some? {
      var session := EnsureSession(st, env.script);
      SealAdvances(session.state, env.(script := session.script), protocol, plaintext.Data(), cipher.value, env.keys[ref]);
    }
  }

  /** Unprotect commits the packet it delivers as protected, or reports its failure, or does nothing. */
  lemma UnprotectCommits(st: State, env: Environment, expected: byte, input: Span)
    ensures var outcome := Unprotect(st, env, expected, input);
            if outcome.result == Ok(true) then
              Accepts(st.replay, PacketOfPayload(outcome.payload)) &&
              outcome.state == st.(replay := Record(st.replay, PacketOfPayload(outcome.payload)))
            else outcome.state == Reported(st, outcome.result)
  {
    hide Decode, Accepts, Record;
  }

  lemma ProtectKeepsReachable(st: State, env: Environment, protocol: byte, plaintext: Span)
    requires Reachable(st)
    ensures Reachable(Protect(st, env, protocol, plaintext).state)
  {
    hide Protect, EnsureSession;
    SessionEnsured(st, env.script);
    ProtectAdvances(st, env, protocol, plaintext);
  }

  lemma UnprotectKeepsReachable(st: State, env: Environment, expected: byte, input: Span)
    requires Reachable(st)
    ensures Reachable(Unprotect(st, env, expected, input).state)
  {
    hide Unprotect;
    UnprotectCommits(st, env, expected, input);
  }

  lemma StepKeepsReachable(st: State, op: Operation)
    requires Reachable(st)
    ensures Reachable(Step(st, op))
  {
    hide Protect, Unprotect;
    if op.ProtectCall? {
      ProtectKeepsReachable(st, op.env, op.protocol, op.plaintext);
    } else if op.UnprotectCall? {
      UnprotectKeepsReachable(st, op.env, op.expected, op.input);
    }
  }

  /** `_sessionReady` iff `_sessionID != 0`, the clamped window and the positive sequence survive every run. */
  lemma {:induction false} RunKeepsReachable(st: State, ops: seq<Operation>)
    requires Reachable(st)
    ensures Reachable(Run(st, ops))
  {
    if ops != [] {
      RunKeepsReachable(st, ops[..|ops| - 1]);
      StepKeepsReachable(Run(st, ops[..|ops| - 1]), ops[|ops| - 1]);
    }
  }

  // ----- Inbound: at most once -----

  /** Operations that stay within one receiver epoch. */
  predicate StaysInEpoch(op: Operation) {
    !op.SetConfigCall? && !op.ResetReplayCall?
  }

  predicate Delivers(reply: Reply) {
    reply.UnprotectReply? && reply.result == Ok(true)
  }

  /** The payloads a run delivers as protected, in order. */
  function Delivered(st: State, ops: seq<Operation>): seq<UnprotectedPayload> {
    if ops == [] then []
    else
      var reply := ReplyTo(Run(st, ops[..|ops| - 1]), ops[|ops| - 1]);
      Delivered(st, ops[..|ops| - 1]) + if Delivers(reply) then [reply.payload] else []
  }

  function PacketOfPayload(p: UnprotectedPayload): Packet {
    Packet(Domain(p.senderID, p.keyID, p.sessionID), p.sequence)
  }

  function Packets(payloads: seq<UnprotectedPayload>): (packets: seq<Packet>)
    ensures |packets| == |payloads|
    ensures forall i :: 0 <= i < |packets| ==> packets[i] == PacketOfPayload(payloads[i])
  {
    seq(|payloads|, i requires 0 <= i < |payloads| => PacketOfPayload(payloads[i]))
  }

  lemma {:induction false} AfterAppend(size: WindowSize, history: seq<Packet>, p: Packet)
    ensures After(size, history + [p]) == Record(After(size, history), p)
  {
    assert (history + [p])[..|history|] == history;
  }

  /** Within an epoch a step commits the packet it delivers, and nothing else touches the window. */
  lemma StepCommitsDelivery(st: State, op: Operation)
    requires StaysInEpoch(op)
    ensures if Delivers(ReplyTo(st, op)) then
              var p := PacketOfPayload(ReplyTo(st, op).payload);
              Accepts(st.replay, p) && Step(st, op).replay == Record(st.replay, p)
            else Step(st, op).replay == st.replay
  {
    hide Protect, Unprotect;
    if op.UnprotectCall? {
      UnprotectCommits(st, op.env, op.expected, op.input);
    } else if op.ProtectCall? {
      ProtectKeepsReceiver(st, op.env, op.protocol, op.plaintext);
    }
  }

  lemma {:induction false} DrawKeepsReceiver(st: State, script: seq<Draw>, attempts: nat)
    ensures var drawn := DrawSession(st, script, attempts).state;
            drawn.config == st.config && drawn.replay == st.replay && drawn.nextSequence == st.nextSequence
  {
    if attempts > 0 {
      DrawKeepsReceiver(st, Rest(script), attempts - 1);
    }
  }

  lemma EnsureKeepsReceiver(st: State, script: seq<Draw>)
    ensures var ensured := EnsureSession(st, script).state;
            ensured.config == st.config && ensured.replay == st.replay && ensured.nextSequence == st.nextSequence &&
            (st.sessionReady ==> ensured == st)
  {
    DrawKeepsReceiver(st, script, 4);
  }

  /** Protect leaves configuration and window alone; it advances the sequence by the number it allocates. */
  lemma ProtectKeepsReceiver(st: State, env: Environment, protocol: byte, plaintext: Span)
    ensures var outcome := Protect(st, env, protocol, plaintext);
            outcome.state.config == st.config && outcome.state.replay == st.replay &&
            (outcome.sequence.None? ==> outcome.state.nextSequence == st.nextSequence) &&
            (outcome.sequence.Some? ==>
              outcome.sequence == Some(st.nextSequence) && 1 <= st.nextSequence < UINT64_MAX &&
              outcome.state.nextSequence == st.nextSequence + 1) &&
            (st.sessionReady ==> outcome.state.sessionReady && outcome.state.sessionID == st.sessionID)
  {
    hide Protect, EnsureSession;
    EnsureKeepsReceiver(st, env.script);
    ProtectAdvances(st, env, protocol, plaintext);
  }

  lemma OneMoreCall(st: State, ops: seq<Operation>, op: Operation)
    ensures Run(st, ops + [op]) == Step(Run(st, ops), op)
    ensures Delivered(st, ops + [op]) ==
            Delivered(st, ops) + if Delivers(ReplyTo(Run(st, ops), op)) then [ReplyTo(Run(st, ops), op).payload] else []
  {
    hide Step, ReplyTo;
    assert (ops + [op])[..|ops|] == ops;
  }

  /** The window of an epoch is the one its deliveries alone make. */
  lemma {:induction false} WindowHoldsDelivered(st: State, ops: seq<Operation>)
    requires st.replay.states == []
    requires forall op :: op in ops ==> StaysInEpoch(op)
    ensures Run(st, ops).replay == After(st.replay.size, Packets(Delivered(st, ops)))
  {
    if ops == [] {
      assert Packets([]) == [];
    } else {
      hide Step, ReplyTo, Delivers, After, Accepts, Record, Run, Delivered;
      var init, last := ops[..|ops| - 1], ops[|ops| - 1];
      var before, mid := Delivered(st, init), Run(st, init);
      assert ops == init + [last];
      WindowHoldsDelivered(st, init);
      OneMoreCall(st, init, last);
      StepCommitsDelivery(mid, last);
      if Delivers(ReplyTo(mid, last)) {
        PacketsAppend(before, ReplyTo(mid, last).payload);
        AfterAppend(st.replay.size, Packets(before), PacketOfPayload(ReplyTo(mid, last).payload));
      } else {
        assert before + [] == before;
      }
    }
  }

  lemma PacketsAppend(payloads: seq<UnprotectedPayload>, p: UnprotectedPayload)
    ensures Packets(payloads + [p]) == Packets(payloads) + [PacketOfPayload(p)]
  {
  }

  ghost predicate Distinct(packets: seq<Packet>) {
    forall i, j :: 0 <= i < j < |packets| ==> packets[i] != packets[j]
  }

  /**
   At most once, with no assumption on the cipher: whatever bytes arrive, no two protected
   payloads of one epoch agree in sender, key, session and sequence.
   */
  lemma {:induction false} AtMostOnce(st: State, ops: seq<Operation>)
    requires st.replay.states == []
    requires forall op :: op in ops ==> StaysInEpoch(op)
    ensures Distinct(Packets(Delivered(st, ops)))
    ensures forall p :: p in Packets(Delivered(st, ops)) ==> p.domain.sessionID != 0 && p.sequence >= 1
  {
    if ops != [] {
      hide Step, ReplyTo, Delivers, Accepts, After, Record, Run, Delivered;
      var init, last := ops[..|ops| - 1], ops[|ops| - 1];
      var before, mid := Delivered(st, init), Run(st, init);
      assert ops == init + [last];
      AtMostOnce(st, init);
      OneMoreCall(st, init, last);
      if Delivers(ReplyTo(mid, last)) {
        var p := PacketOfPayload(ReplyTo(mid, last).payload);
        StepCommitsDelivery(mid, last);
        WindowHoldsDelivered(st, init);
        PacketsAppend(before, ReplyTo(mid, last).payload);
        AcceptedIsNew(st.replay.size, Packets(before), p);
      }
    } else {
      assert Packets([]) == [];
    }
  }

  lemma AcceptedIsNew(size: WindowSize, history: seq<Packet>, p: Packet)
    requires Accepts(After(size, history), p)
    ensures p !in history && p.domain.sessionID != 0 && p.sequence >= 1
  {
    hide Accepts, After;
    WindowRefinesSet(size, history, p);
    assert p in history ==> p.sequence in Committed(history, p.domain);
  }

  lemma {:induction false} RestrictDistinct(packets: seq<Packet>, domain: Domain)
    requires Distinct(packets)
    ensures Distinct(Restrict(packets, domain))
  {
    if packets != [] {
      var rest := packets[1..];
      RestrictDistinct(rest, domain);
      if packets[0].domain == domain {
        RestrictKeeps(rest, domain, packets[0]);
        assert packets[0] !in rest;
        assert packets[0] !in Restrict(rest, domain);
      }
    }
  }

  /** Distinct packets of one domain with sequences in 1..bound are no more than the bound. */
  lemma {:induction false} DistinctFit(packets: seq<Packet>, domain: Domain, bound: nat)
    requires Distinct(packets)
    requires forall p :: p in packets ==> p.domain == domain && 1 <= p.sequence <= bound
    ensures |packets| <= bound
  {
    if packets != [] {
      assert packets[0] in packets;
      if exists k :: 0 <= k < |packets| && packets[k].sequence == bound {
        var k :| 0 <= k < |packets| && packets[k].sequence == bound;
        var others := packets[..k] + packets[k + 1..];
        forall p | p in others
          ensures p.domain == domain && 1 <= p.sequence <= bound - 1
        {
          assert p != packets[k];
        }
        DistinctFit(others, domain, bound - 1);
      } else {
        DistinctFit(packets, domain, bound - 1);
      }
    }
  }

  /** A domain never delivers more payloads than its highest delivered sequence. */
  lemma DeliveriesFitSequences(st: State, ops: seq<Operation>, domain: Domain, highest: nat)
    requires st.replay.states == []
    requires forall op :: op in ops ==> StaysInEpoch(op)
    requires forall p :: p in Packets(Delivered(st, ops)) && p.domain == domain ==> p.sequence <= highest
    ensures |Restrict(Packets(Delivered(st, ops)), domain)| <= highest
  {
    var packets := Packets(Delivered(st, ops));
    AtMostOnce(st, ops);
    RestrictDistinct(packets, domain);
    forall p | p in Restrict(packets, domain)
      ensures p.domain == domain && 1 <= p.sequence <= highest
    {
      RestrictKeeps(packets, domain, p);
    }
    DistinctFit(Restrict(packets, domain), domain, highest);
  }

  // ----- Inbound: failed calls leave no trace -----

  predicate Rejects(reply: Reply) {
    reply.UnprotectReply? && !reply.result.success
  }

  /** The run with every failed Unprotect deleted, and the replies to what remains. */
  function WithoutRejected(st: State, ops: seq<Operation>): seq<Operation> {
    if ops == [] then []
    else
      var init, last := ops[..|ops| - 1], ops[|ops| - 1];
      WithoutRejected(st, init) + if Rejects(ReplyTo(Run(st, init), last)) then [] else [last]
  }

  function RemainingReplies(st: State, ops: seq<Operation>): seq<Reply> {
    if ops == [] then []
    else
      var init, last := ops[..|ops| - 1], ops[|ops| - 1];
      var reply := ReplyTo(Run(st, init), last);
      RemainingReplies(st, init) + if Rejects(reply) then [] else [reply]
  }

  ghost predicate SameButLog(a: State, b: State) {
    a.(observed := None) == b.(observed := None)
  }

  lemma {:induction false} DrawIgnoresLog(a: State, b: State, script: seq<Draw>, attempts: nat)
    requires SameButLog(a, b)
    ensures var x, y := DrawSession(a, script, attempts), DrawSession(b, script, attempts);
            SameButLog(x.state, y.state) && x.ready == y.ready && x.script == y.script
  {
    if attempts > 0 {
      DrawIgnoresLog(a, b, Rest(script), attempts - 1);
    }
  }

  lemma EnsureIgnoresLog(a: State, b: State, script: seq<Draw>)
    requires SameButLog(a, b)
    ensures var x, y := EnsureSession(a, script), EnsureSession(b, script);
            SameButLog(x.state, y.state) && x.ready == y.ready && x.script == y.script
  {
    DrawIgnoresLog(a, b, script, 4);
  }

  lemma SealIgnoresLog(a: State, b: State, env: Environment, protocol: byte, data: seq<byte>, cipher: AeadCipher, key: seq<byte>)
    requires SameButLog(a, b)
    ensures var x, y := SealNext(a, env, protocol, data, cipher, key), SealNext(b, env, protocol, data, cipher, key);
            SameSending(x, y)
  {
    hide Encode;
  }

  ghost predicate SameSending(x: ProtectOutcome, y: ProtectOutcome) {
    SameButLog(x.state, y.state) && x.result == y.result && x.output == y.output
  }

  lemma FailureIgnoresLog(a: State, b: State)
    requires SameButLog(a, b)
    ensures forall error, script, sequence ::
      SameSending(ProtectFails(a, error, script, sequence), ProtectFails(b, error, script, sequence))
    ensures forall plaintext, script :: SameSending(PassThrough(a, plaintext, script), PassThrough(b, plaintext, script))
  {
  }

  lemma ProtectIgnoresLog(a: State, b: State, env: Environment, protocol: byte, plaintext: Span)
    requires SameButLog(a, b)
    ensures var x, y := Protect(a, env, protocol, plaintext), Protect(b, env, protocol, plaintext);
            SameSending(x, y)
  {
    hide SealNext, EnsureSession, ProtectFails, PassThrough;
    EnsureIgnoresLog(a, b, env.script);
    FailureIgnoresLog(a, b);
    var ref := KeyRef(a.config.outboundKeyID, a.config.outboundAlgorithm);
    var cipher := FindCipher(env.ciphers, a.config.outboundAlgorithm);
    if ref in env.keys && cipher.Some? {
      var x, y := EnsureSession(a, env.script), EnsureSession(b, env.script);
      FailureIgnoresLog(x.state, y.state);
      SealIgnoresLog(x.state, y.state, env.(script := x.script), protocol, plaintext.Data(), cipher.value, env.keys[ref]);
    }
  }

  lemma DeliverIgnoresLog(a: State, b: State, expected: byte, input: seq<byte>, h: Header, cipher: AeadCipher, key: seq<byte>)
    requires SameButLog(a, b) && |input| == ExpectedSize(h)
    ensures var x, y := Deliver(a, expected, input, h, cipher, key), Deliver(b, expected, input, h, cipher, key);
            SameButLog(x.state, y.state) && x.result == y.result && x.payload == y.payload
  {
    hide Record;
  }

  lemma RefusalIgnoresLog(a: State, b: State)
    requires SameButLog(a, b)
    ensures forall error ::
      var x, y := UnprotectFails(a, error), UnprotectFails(b, error);
      SameButLog(x.state, y.state) && x.result == y.result && x.payload == y.payload
  {
  }

  lemma UnprotectIgnoresLog(a: State, b: State, env: Environment, expected: byte, input: Span)
    requires SameButLog(a, b)
    ensures var x, y := Unprotect(a, env, expected, input), Unprotect(b, env, expected, input);
            SameButLog(x.state, y.state) && x.result == y.result && x.payload == y.payload
  {
    hide Deliver, Decode, Accepts, UnprotectFails;
    RefusalIgnoresLog(a, b);
    if |input.Data()| >= FIXED_HEADER_SIZE {
      var h := Decode(input.Data());
      var ref, cipher := KeyRef(h.keyID, h.algorithm), FindCipher(env.ciphers, h.algorithm);
      if |input.Data()| == ExpectedSize(h) && ref in env.keys && cipher.Some? {
        DeliverIgnoresLog(a, b, expected, input.Data(), h, cipher.value, env.keys[ref]);
      }
    }
  }

  lemma StepIgnoresLog(a: State, b: State, op: Operation)
    requires SameButLog(a, b)
    ensures SameButLog(Step(a, op), Step(b, op)) && ReplyTo(a, op) == ReplyTo(b, op)
  {
    hide Protect, Unprotect;
    if op.ProtectCall? {
      ProtectIgnoresLog(a, b, op.env, op.protocol, op.plaintext);
    } else if op.UnprotectCall? {
      UnprotectIgnoresLog(a, b, op.env, op.expected, op.input);
    }
  }

  /** Deleting every failed Unprotect from a run changes no other reply and, but for the reports, no state. */
  lemma {:induction false} RejectedCallsLeaveNoTrace(st: State, ops: seq<Operation>)
    ensures SameButLog(Run(st, WithoutRejected(st, ops)), Run(st, ops))
    ensures Replies(st, WithoutRejected(st, ops)) == RemainingReplies(st, ops)
  {
    if ops != [] {
      var init, last := ops[..|ops| - 1], ops[|ops| - 1];
      var kept := WithoutRejected(st, init);
      RejectedCallsLeaveNoTrace(st, init);
      if Rejects(ReplyTo(Run(st, init), last)) {
        FailedUnprotectIsInvisible(Run(st, init), last.env, last.expected, last.input);
        assert kept + [] == kept;
      } else {
        StepIgnoresLog(Run(st, kept), Run(st, init), last);
        assert (kept + [last])[..|kept|] == kept;
      }
    }
  }

  // ----- Outbound sequences -----

  predicate KeepsConfig(op: Operation) {
    !op.SetConfigCall?
  }

  predicate Emits(reply: Reply) {
    reply.ProtectReply? && reply.result == Ok(true)
  }

  lemma EnvelopeIsWhole(st: State, env: Environment, protocol: byte, plaintext: Span)
    requires Reachable(st) && Protect(st, env, protocol, plaintext).result == Ok(true)
    ensures |Protect(st, env, protocol, plaintext).output| >= FIXED_HEADER_SIZE
  {
    var h, cipher := EnvelopeShape(st, env, protocol, plaintext);
  }

  /** The headers of the envelopes a run emits, in order. */
  ghost function Emitted(st: State, ops: seq<Operation>): seq<Header>
    requires Reachable(st)
  {
    if ops == [] then []
    else
      var init, last := ops[..|ops| - 1], ops[|ops| - 1];
      RunKeepsReachable(st, init);
      Emitted(st, init) + EmittedBy(Run(st, init), last)
  }

  ghost function EmittedBy(st: State, op: Operation): seq<Header>
    requires Reachable(st)
  {
    if Emits(ReplyTo(st, op)) then
      EnvelopeIsWhole(st, op.env, op.protocol, op.plaintext);
      [Decode(ReplyTo(st, op).output)]
    else []
  }

  /** How many Protect calls of the run reached the allocation of a sequence, failed ones included. */
  function Allocations(st: State, ops: seq<Operation>): nat {
    if ops == [] then 0
    else
      var init, last := ops[..|ops| - 1], ops[|ops| - 1];
      Allocations(st, init) + if Allocates(Run(st, init), last) then 1 else 0
  }

  predicate Allocates(st: State, op: Operation) {
    op.ProtectCall? && Protect(st, op.env, op.protocol, op.plaintext).sequence.Some?
  }

  lemma StepAllocates(st: State, op: Operation)
    requires Reachable(st) && KeepsConfig(op)
    ensures Step(st, op).nextSequence == st.nextSequence + if Allocates(st, op) then 1 else 0
    ensures Allocates(st, op) ==> st.nextSequence < UINT64_MAX
    ensures st.sessionReady ==> Step(st, op).sessionReady && Step(st, op).sessionID == st.sessionID
    ensures var sent := EmittedBy(st, op);
            sent == [] || (|sent| == 1 && Allocates(st, op) && sent[0].sequence == st.nextSequence &&
                           sent[0].sessionID == Step(st, op).sessionID && Step(st, op).sessionReady)
  {
    hide Protect, Unprotect, Decode;
    StepKeepsReachable(st, op);
    if op.ProtectCall? {
      ProtectKeepsReceiver(st, op.env, op.protocol, op.plaintext);
      if Emits(ReplyTo(st, op)) {
        var h, cipher := EnvelopeShape(st, op.env, op.protocol, op.plaintext);
      }
    } else if op.UnprotectCall? {
      UnprotectKeepsSender(st, op.env, op.expected, op.input);
    }
  }

  lemma UnprotectKeepsSender(st: State, env: Environment, expected: byte, input: Span)
    ensures var st' := Unprotect(st, env, expected, input).state;
            st' == st.(replay := st'.replay, observed := st'.observed)
  {
    hide Unprotect;
    UnprotectCommits(st, env, expected, input);
  }

  /**
   Between SetConfig calls the sequence counter counts exactly the attempts that reached
   allocation and never wraps; the envelopes that go out carry strictly increasing sequences,
   none of them zero or the last value, under one and the same non-zero session.
   */
  lemma {:induction false} OutboundSequences(st: State, ops: seq<Operation>)
    requires Reachable(st)
    requires forall op :: op in ops ==> KeepsConfig(op)
    ensures Run(st, ops).nextSequence == st.nextSequence + Allocations(st, ops)
    ensures Run(st, ops).nextSequence <= UINT64_MAX
    ensures Rising(Emitted(st, ops), st.nextSequence, Run(st, ops).nextSequence, Run(st, ops).sessionID)
    ensures Emitted(st, ops) != [] || st.sessionReady ==> Run(st, ops).sessionReady && Run(st, ops).sessionID != 0
    ensures st.sessionReady ==> Run(st, ops).sessionID == st.sessionID
  {
    if ops != [] {
      hide Step, Allocates, EmittedBy;
      var init, last := ops[..|ops| - 1], ops[|ops| - 1];
      var mid := Run(st, init);
      OutboundSequences(st, init);
      RunKeepsReachable(st, init);
      StepAllocates(mid, last);
      StepKeepsReachable(mid, last);
      RisingAppend(Emitted(st, init), EmittedBy(mid, last), st.nextSequence, mid.nextSequence,
                   Step(mid, last).nextSequence, Step(mid, last).sessionID);
    }
  }

  /** Headers of one session whose sequences rise within low..high. */
  ghost predicate Rising(sent: seq<Header>, low: int, high: int, session: uint64) {
    (forall i :: 0 <= i < |sent| ==> low <= sent[i].sequence < high && sent[i].sessionID == session) &&
    forall i, j :: 0 <= i < j < |sent| ==> sent[i].sequence < sent[j].sequence
  }

  lemma RisingAppend(sent: seq<Header>, more: seq<Header>, low: int, mid: int, high: int, session: uint64)
    requires low <= mid <= high
    requires Rising(sent, low, mid, session)
    requires |more| <= 1 && forall h :: h in more ==> mid <= h.sequence < high && h.sessionID == session
    ensures Rising(sent + more, low, high, session)
  {
  }

  lemma EmissionNeedsRoom(st: State, ops: seq<Operation>)
    requires Reachable(st)
    requires forall op :: op in ops ==> KeepsConfig(op)
    ensures Emitted(st, ops) != [] ==> st.nextSequence < UINT64_MAX
  {
    OutboundSequences(st, ops);
    if Emitted(st, ops) != [] {
      assert st.nextSequence <= Emitted(st, ops)[0].sequence;
    }
  }

  /** Once the counter is exhausted nothing protected goes out until SetConfig. */
  lemma ExhaustedSendsNothing(st: State, ops: seq<Operation>)
    requires Reachable(st) && st.nextSequence == UINT64_MAX
    requires forall op :: op in ops ==> KeepsConfig(op)
    ensures Emitted(st, ops) == []
  {
    EmissionNeedsRoom(st, ops);
  }

  // ----- A session used twice -----

  lemma {:induction false} RunKeepsConfig(st: State, ops: seq<Operation>)
    requires forall op :: op in ops ==> KeepsConfig(op)
    ensures Run(st, ops).config == st.config
  {
    if ops != [] {
      hide Protect, Unprotect;
      var init, last := ops[..|ops| - 1], ops[|ops| - 1];
      var mid := Run(st, init);
      RunKeepsConfig(st, init);
      assert last in ops;
      if last.ProtectCall? {
        ProtectKeepsReceiver(mid, last.env, last.protocol, last.plaintext);
      } else if last.UnprotectCall? {
        UnprotectKeepsSender(mid, last.env, last.expected, last.input);
      }
    }
  }

  /** A run of a sender since it was given a configuration, ending in a Protect call that succeeds. */
  datatype Sending = Sending(before: State, ops: seq<Operation>, env: Environment, protocol: byte, plaintext: Span)

  function StateOf(s: Sending, config: Config): State {
    Run(SetConfig(s.before, config), s.ops)
  }

  function Output(s: Sending, config: Config): ProtectOutcome {
    Protect(StateOf(s, config), s.env, s.protocol, s.plaintext)
  }

  ghost predicate IsSending(s: Sending, config: Config) {
    Reachable(s.before) && (forall op :: op in s.ops ==> KeepsConfig(op)) && Output(s, config).result == Ok(true)
  }

  lemma PacketOfSending(s: Sending, config: Config)
    requires IsSending(s, config) && config.sessionID != 0
    ensures |Output(s, config).output| >= FIXED_HEADER_SIZE
    ensures var p := PacketOf(Decode(Output(s, config).output));
            p.domain == Domain(config.senderID, config.outboundKeyID, config.sessionID) &&
            p.sequence == 1 + Allocations(SetConfig(s.before, config), s.ops)
  {
    hide Protect, Unprotect, Decode, Run, Allocations;
    var start, st := SetConfig(s.before, config), StateOf(s, config);
    RunKeepsReachable(start, s.ops);
    RunKeepsConfig(start, s.ops);
    OutboundSequences(start, s.ops);
    var h, cipher := EnvelopeShape(st, s.env, s.protocol, s.plaintext);
    ProtectKeepsReceiver(st, s.env, s.protocol, s.plaintext);
  }

  /** A run within a receiver epoch keeps the configuration, too. */
  lemma EpochKeepsConfig(r: State, ops: seq<Operation>)
    requires forall op :: op in ops ==> StaysInEpoch(op)
    ensures Run(r, ops).config == r.config
  {
    RunKeepsConfig(r, ops);
  }

  /**
   What a receiver does with a genuine envelope after any run of its epoch: it takes it if and only
   if key ID, limit and protocol allow and the packet is fresh against what it delivered.
   */
  lemma GenuineAfterRun(st: State, env: Environment, protocol: byte, plaintext: Span,
                        r: State, ops: seq<Operation>, env': Environment, expected: byte)
    returns (h: Header, cipher: AeadCipher)
    requires Reachable(st)
    requires Protect(st, env, protocol, plaintext).result == Ok(true)
    requires r.replay.states == []
    requires forall op :: op in ops ==> StaysInEpoch(op)
    ensures Sent(st, env, protocol, plaintext, h, cipher)
    ensures |Protect(st, env, protocol, plaintext).output| >= FIXED_HEADER_SIZE
    ensures Decode(Protect(st, env, protocol, plaintext).output) == h
    ensures CanOpen(env', h, cipher, env.keys[KeyRef(h.keyID, h.algorithm)]) ==>
            var received := Unprotect(Run(r, ops), env', expected, Span(Protect(st, env, protocol, plaintext).output));
            received.result.success <==>
              h.keyID != 0 && |plaintext.Data()| <= r.config.maximumPlaintextBytes && expected == protocol &&
              Fresh(r.replay.size, Packets(Delivered(r, ops)), PacketOf(h))
  {
    hide Protect, Unprotect, Encode, Decode, Accepts, After, Record, Run, Delivered, Fresh;
    var shape, _ := EnvelopeShape(st, env, protocol, plaintext);
    h, cipher := TransportRoundTrip(st, env, protocol, plaintext, Run(r, ops), env', expected);
    WindowHoldsDelivered(r, ops);
    WindowRefinesSet(r.replay.size, Packets(Delivered(r, ops)), PacketOf(h));
    EpochKeepsConfig(r, ops);
  }

  /**
   An explicit session ID must not be used twice while a receiver remembers it. Whatever state the
   sender was in, everything it emits under the configuration lies in one domain, numbered from one
   by its allocations since SetConfig. So an emission after taking up the session again is accepted
   if and only if its number is fresh against what the receiver delivered of either use, and one
   with a number that was delivered is refused, whatever cipher and keys the receiver has.
   */
  lemma ReusedSessionIsRejected(again: Sending, config: Config,
                                r: State, ops: seq<Operation>, env: Environment, expected: byte)
    returns (packet: Packet, h: Header, cipher: AeadCipher)
    requires config.sessionID != 0 && IsSending(again, config)
    requires r.replay.states == []
    requires forall op :: op in ops ==> StaysInEpoch(op)
    ensures packet.domain == Domain(config.senderID, config.outboundKeyID, config.sessionID)
    ensures packet.sequence == 1 + Allocations(SetConfig(again.before, config), again.ops)
    ensures packet == PacketOf(h) && Sent(StateOf(again, config), again.env, again.protocol, again.plaintext, h, cipher)
    ensures CanOpen(env, h, cipher, again.env.keys[KeyRef(h.keyID, h.algorithm)]) ==>
              (Unprotect(Run(r, ops), env, expected, Span(Output(again, config).output)).result.success <==>
                config.outboundKeyID != 0 && |again.plaintext.Data()| <= r.config.maximumPlaintextBytes &&
                expected == again.protocol && Fresh(r.replay.size, Packets(Delivered(r, ops)), packet))
    ensures packet in Packets(Delivered(r, ops)) ==>
              !Unprotect(Run(r, ops), env, expected, Span(Output(again, config).output)).result.success
  {
    hide Protect, Unprotect, Decode, Encode, Run, Allocations, Delivered, Fresh;
    PacketOfSending(again, config);
    RunKeepsReachable(SetConfig(again.before, config), again.ops);
    h, cipher := GenuineAfterRun(StateOf(again, config), again.env, again.protocol, again.plaintext, r, ops, env, expected);
    packet := PacketOf(h);
    var shape, _ := EnvelopeShape(StateOf(again, config), again.env, again.protocol, again.plaintext);
    if packet in Packets(Delivered(r, ops)) {
      DeliveredIsRefused(r, ops, env, expected, Output(again, config).output);
    }
  }

  /** Bytes with the header of a delivered packet are refused for the rest of the epoch. */
  lemma DeliveredIsRefused(r: State, ops: seq<Operation>, env: Environment, expected: byte, input: seq<byte>)
    requires r.replay.states == []
    requires forall op :: op in ops ==> StaysInEpoch(op)
    requires |input| >= FIXED_HEADER_SIZE && LooksProtected(input)
    requires PacketOf(Decode(input)) in Packets(Delivered(r, ops))
    ensures !Unprotect(Run(r, ops), env, expected, Span(input)).result.success
  {
    hide Unprotect, Decode, Encode, LooksProtected, Run, Delivered, Accepts, After, Record;
    var last := Run(r, ops);
    ProtectedOrRefused(last, env, expected, input);
    if Unprotect(last, env, expected, Span(input)).result == Ok(true) {
      var h, nonce, ciphertext, tag, data := DeliveredWasDeliverable(last, env, expected, Span(input));
      assert input == Encode(h) + (nonce + ciphertext + tag);
      DecodeInvertsEncode(h, nonce + ciphertext + tag);
      WindowHoldsDelivered(r, ops);
      UnprotectCommits(last, env, expected, Span(input));
      AcceptedIsNew(r.replay.size, Packets(Delivered(r, ops)), PacketOf(h));
    }
  }

  /** What looks protected is never passed as plaintext. */
  lemma ProtectedOrRefused(st: State, env: Environment, expected: byte, input: seq<byte>)
    requires LooksProtected(input)
    ensures var result := Unprotect(st, env, expected, Span(input)).result;
            result.success ==> result == Ok(true)
  {
    hide Decode, Accepts, Record;
  }

  // ----- Notifications -----

  /** What an observer that knows the session learns from one notification. */
  function Heard(session: uint64, n: Notification): uint64 {
    match n
    case SessionReset(_) => 0
    case SessionEstablished(established) => established
    case _ => session
  }

  function Fold(session: uint64, log: seq<Notification>): uint64 {
    if log == [] then session else Heard(Fold(session, log[..|log| - 1]), log[|log| - 1])
  }

  /** How many failures, replay-protection resets and session resets a log announces. */
  datatype Tally = Tally(failures: nat, replayResets: nat, sessionResets: nat)

  const NOTHING := Tally(0, 0, 0)

  function Plus(a: Tally, b: Tally): Tally {
    Tally(a.failures + b.failures, a.replayResets + b.replayResets, a.sessionResets + b.sessionResets)
  }

  function CountOne(n: Notification): Tally {
    match n
    case Failure(_) => Tally(1, 0, 0)
    case ReplayProtectionReset => Tally(0, 1, 0)
    case SessionReset(_) => Tally(0, 0, 1)
    case _ => NOTHING
  }

  function Count(log: seq<Notification>): Tally {
    if log == [] then NOTHING else Plus(Count(log[..|log| - 1]), CountOne(log[|log| - 1]))
  }

  predicate Fails(reply: Reply) {
    !reply.Done? && !reply.result.success
  }

  /** The configuration takes a session away: there is one, and it is not the configured one. */
  predicate EndsSession(st: State, config: Config) {
    st.sessionID != 0 && st.sessionID != config.sessionID
  }

  /** What an operation should announce: its failure, the reset it is, the session it ends. */
  function Due(st: State, op: Operation): Tally {
    Tally(if Fails(ReplyTo(st, op)) then 1 else 0,
          if op.ResetReplayCall? then 1 else 0,
          if op.SetConfigCall? && EndsSession(st, op.config) then 1 else 0)
  }

  function AllDue(st: State, ops: seq<Operation>): Tally {
    if ops == [] then NOTHING
    else
      var init, last := ops[..|ops| - 1], ops[|ops| - 1];
      Plus(AllDue(st, init), Due(Run(st, init), last))
  }

  lemma PlusNothing(t: Tally)
    ensures Plus(NOTHING, t) == t == Plus(t, NOTHING)
  {
  }

  lemma OneMoreNotification(session: uint64, log: seq<Notification>, n: Notification)
    ensures Fold(session, log + [n]) == Heard(Fold(session, log), n)
    ensures Count(log + [n]) == Plus(Count(log), CountOne(n))
  {
    assert (log + [n])[..|log|] == log;
  }

  lemma EmptyLog(session: uint64)
    ensures Fold(session, []) == session && Count([]) == NOTHING
  {
  }

  lemma {:induction false} FoldConcat(session: uint64, a: seq<Notification>, b: seq<Notification>)
    ensures Fold(session, a + b) == Fold(Fold(session, a), b)
    ensures Count(a + b) == Plus(Count(a), Count(b))
  {
    hide Fold, Count, Heard, CountOne;
    if b == [] {
      assert a + b == a;
      EmptyLog(Fold(session, a));
    } else {
      var init, last := b[..|b| - 1], b[|b| - 1];
      FoldConcat(session, a, init);
      assert b == init + [last] && a + b == (a + init) + [last];
      OneMoreNotification(session, a + init, last);
      OneMoreNotification(Fold(session, a), init, last);
    }
  }

  /** From `st` to `st'` the log grew by `news`; folding them tells the new session, and they count up to `tally`. */
  ghost predicate Announced(st: State, st': State, news: seq<Notification>, tally: Tally) {
    st.observed.Some? && st'.observed == Some(st.observed.value + news) &&
    Fold(st.sessionID, news) == st'.sessionID && Count(news) == tally
  }

  lemma AnnouncedThen(st: State, mid: State, st': State, news: seq<Notification>, more: seq<Notification>, a: Tally, b: Tally)
    requires Announced(st, mid, news, a) && Announced(mid, st', more, b)
    ensures Announced(st, st', news + more, Plus(a, b))
  {
    hide Fold, Count, Plus;
    FoldConcat(st.sessionID, news, more);
    assert st.observed.value + news + more == st.observed.value + (news + more);
  }

  lemma AnnouncedNothing(st: State, st': State)
    requires st.observed.Some? && st'.observed == st.observed && st'.sessionID == st.sessionID
    ensures Announced(st, st', [], NOTHING)
  {
    hide Fold, Count;
    EmptyLog(st.sessionID);
    assert st.observed.value + [] == st.observed.value;
  }

  lemma AnnouncedOne(st: State, st': State, n: Notification)
    requires st.observed.Some? && st'.observed == Some(st.observed.value + [n]) && st'.sessionID == Heard(st.sessionID, n)
    ensures Announced(st, st', [n], CountOne(n))
  {
    hide Fold, Count, Heard, CountOne;
    OneNotification(st.sessionID, n);
  }

  lemma {:induction false} DrawAnnounces(st: State, script: seq<Draw>, attempts: nat) returns (news: seq<Notification>)
    requires st.observed.Some?
    ensures Announced(st, DrawSession(st, script, attempts).state, news, NOTHING)
  {
    var drawn := DrawSession(st, script, attempts);
    if attempts == 0 || !Next(script, 8).ok {
      AnnouncedNothing(st, drawn.state);
      news := [];
    } else if Candidate(Next(script, 8)) != 0 {
      AnnouncedOne(st, drawn.state, SessionEstablished(Candidate(Next(script, 8))));
      news := [SessionEstablished(Candidate(Next(script, 8)))];
    } else {
      news := DrawAnnounces(st, Rest(script), attempts - 1);
    }
  }

  lemma SessionAnnounces(st: State, script: seq<Draw>) returns (news: seq<Notification>)
    requires st.observed.Some?
    ensures Announced(st, EnsureSession(st, script).state, news, NOTHING)
  {
    if st.sessionReady {
      AnnouncedNothing(st, st);
      news := [];
    } else if st.config.sessionID != 0 {
      AnnouncedOne(st, EnsureSession(st, script).state, SessionEstablished(st.config.sessionID));
      news := [SessionEstablished(st.config.sessionID)];
    } else {
      news := DrawAnnounces(st, script, 4);
    }
  }

  function Report(result: SecurityResult): Tally {
    if result.success then NOTHING else Tally(1, 0, 0)
  }

  lemma ReportAnnounces(st: State, st': State, result: SecurityResult) returns (news: seq<Notification>)
    requires st.observed.Some? && st'.observed == Reported(st, result).observed && st'.sessionID == st.sessionID
    ensures Announced(st, st', news, Report(result))
  {
    if result.success {
      AnnouncedNothing(st, st');
      news := [];
    } else {
      AnnouncedOne(st, st', Failure(result));
      news := [Failure(result)];
    }
  }

  lemma ProtectAnnounces(st: State, env: Environment, protocol: byte, plaintext: Span) returns (news: seq<Notification>)
    requires st.observed.Some?
    ensures var outcome := Protect(st, env, protocol, plaintext);
            Announced(st, outcome.state, news, Report(outcome.result))
  {
    hide Protect, EnsureSession, Fold, Count;
    var outcome := Protect(st, env, protocol, plaintext);
    ProtectAdvances(st, env, protocol, plaintext);
    if outcome.sequence.None? && Advances(st, outcome) {
      news := ReportAnnounces(st, outcome.state, outcome.result);
    } else {
      var session := EnsureSession(st, env.script).state;
      var first := SessionAnnounces(st, env.script);
      var second := ReportAnnounces(session, outcome.state, outcome.result);
      AnnouncedThen(st, session, outcome.state, first, second, NOTHING, Report(outcome.result));
      news := first + second;
    }
  }

  lemma UnprotectAnnounces(st: State, env: Environment, expected: byte, input: Span) returns (news: seq<Notification>)
    requires st.observed.Some?
    ensures var outcome := Unprotect(st, env, expected, input);
            Announced(st, outcome.state, news, Report(outcome.result))
  {
    hide Unprotect;
    UnprotectCommits(st, env, expected, input);
    news := ReportAnnounces(st, Unprotect(st, env, expected, input).state, Unprotect(st, env, expected, input).result);
  }

  /** The notifications of a SetConfig, in order. */
  function SetConfigNews(st: State, config: Config): seq<Notification> {
    [ConfigurationChanged(st.config, config)] + EndNews(st, config) + BeginNews(st, config)
  }

  function EndNews(st: State, config: Config): seq<Notification> {
    if EndsSession(st, config) then [SessionReset(st.sessionID)] else []
  }

  function BeginNews(st: State, config: Config): seq<Notification> {
    if config.sessionID != 0 && config.sessionID != st.sessionID then [SessionEstablished(config.sessionID)] else []
  }

  lemma SetConfigLogs(st: State, config: Config)
    requires st.observed.Some?
    ensures SetConfig(st, config).observed == Some(st.observed.value + SetConfigNews(st, config))
  {
    var log, change := st.observed.value, [ConfigurationChanged(st.config, config)];
    assert log + SetConfigNews(st, config) == log + change + EndNews(st, config) + BeginNews(st, config);
    assert log + change + [] == log + change;
    assert log + change + EndNews(st, config) + [] == log + change + EndNews(st, config);
  }

  lemma OneNotification(session: uint64, n: Notification)
    ensures Fold(session, [n]) == Heard(session, n) && Count([n]) == CountOne(n)
  {
    hide Fold, Count, Heard, CountOne, Plus;
    EmptyLog(session);
    OneMoreNotification(session, [], n);
    PlusNothing(CountOne(n));
    assert [] + [n] == [n];
  }

  lemma EndNewsFolds(st: State, config: Config)
    ensures Fold(st.sessionID, EndNews(st, config)) == if EndsSession(st, config) then 0 else st.sessionID
    ensures Count(EndNews(st, config)) == Tally(0, 0, if EndsSession(st, config) then 1 else 0)
  {
    hide Fold, Count;
    EmptyLog(st.sessionID);
    OneNotification(st.sessionID, SessionReset(st.sessionID));
  }

  lemma BeginNewsFolds(st: State, config: Config)
    ensures Fold(if EndsSession(st, config) then 0 else st.sessionID, BeginNews(st, config)) == config.sessionID
    ensures Count(BeginNews(st, config)) == NOTHING
  {
    hide Fold, Count;
    var session := if EndsSession(st, config) then 0 else st.sessionID;
    EmptyLog(session);
    OneNotification(session, SessionEstablished(config.sessionID));
  }

  lemma ThreeParts(session: uint64, a: seq<Notification>, b: seq<Notification>, c: seq<Notification>)
    ensures Fold(session, a + b + c) == Fold(Fold(Fold(session, a), b), c)
    ensures Count(a + b + c) == Plus(Plus(Count(a), Count(b)), Count(c))
  {
    hide Fold, Count, Plus;
    FoldConcat(session, a, b);
    FoldConcat(session, a + b, c);
  }

  lemma SetConfigNewsFolds(st: State, config: Config)
    ensures Fold(st.sessionID, SetConfigNews(st, config)) == config.sessionID
    ensures Count(SetConfigNews(st, config)) == Tally(0, 0, if EndsSession(st, config) then 1 else 0)
  {
    hide Fold, Count, EndNews, BeginNews, EndsSession, Plus;
    var session, change, ended := st.sessionID, ConfigurationChanged(st.config, config), EndsSession(st, config);
    var tally := Tally(0, 0, if ended then 1 else 0);
    OneNotification(session, change);
    assert Fold(session, [change]) == session && Count([change]) == NOTHING;
    EndNewsFolds(st, config);
    BeginNewsFolds(st, config);
    ThreeParts(session, [change], EndNews(st, config), BeginNews(st, config));
    PlusNothing(tally);
  }

  /**
   What SetConfig announces, exactly: the change; the reset of the session there was, if and only
   if it is not kept; the configured session, if and only if it is new. It never announces the
   reset of replay protection that it performs.
   */
  lemma SetConfigAnnounces(st: State, config: Config) returns (news: seq<Notification>)
    requires st.observed.Some?
    ensures Announced(st, SetConfig(st, config), news, Tally(0, 0, if EndsSession(st, config) then 1 else 0))
    ensures forall s :: SessionReset(s) in news <==> s == st.sessionID && s != 0 && s != config.sessionID
    ensures forall s :: SessionEstablished(s) in news <==> s == config.sessionID && s != 0 && s != st.sessionID
    ensures ReplayProtectionReset !in news
    ensures news != [] && news[0] == ConfigurationChanged(st.config, config) &&
            forall b, a :: ConfigurationChanged(b, a) !in news[1..]
    ensures news == [ConfigurationChanged(st.config, config)] <==> config.sessionID == st.sessionID
  {
    hide Fold, Count;
    news := SetConfigNews(st, config);
    SetConfigLogs(st, config);
    SetConfigNewsFolds(st, config);
  }

  /**
   A reset of sequence and replay state is silent, the notice of the change apart, if and only if
   the configured session is the one in force.
   */
  lemma ResetIsSilentIff(st: State, config: Config)
    requires st.observed.Some?
    ensures var st' := SetConfig(st, config);
            st'.nextSequence == 1 && st'.replay.states == [] &&
            (st'.observed == Some(st.observed.value + [ConfigurationChanged(st.config, config)]) <==>
              config.sessionID == st.sessionID)
  {
    hide SetConfig, Fold, Count;
    var news := SetConfigAnnounces(st, config);
    SameExtension(st.observed.value, news, [ConfigurationChanged(st.config, config)]);
    ReconfiguredIsNew(st, config);
  }

  lemma SameExtension(log: seq<Notification>, a: seq<Notification>, b: seq<Notification>)
    ensures log + a == log + b <==> a == b
  {
    assert (log + a)[|log|..] == a && (log + b)[|log|..] == b;
  }

  lemma StepAnnounces(st: State, op: Operation) returns (news: seq<Notification>)
    requires st.observed.Some?
    ensures Announced(st, Step(st, op), news, Due(st, op))
  {
    hide Protect, Unprotect;
    match op
    case ProtectCall(protocol, plaintext, env) =>
      news := ProtectAnnounces(st, env, protocol, plaintext);
    case UnprotectCall(expected, input, env) =>
      news := UnprotectAnnounces(st, env, expected, input);
    case SetConfigCall(config) =>
      news := SetConfigAnnounces(st, config);
    case ResetReplayCall =>
      AnnouncedOne(st, Step(st, op), ReplayProtectionReset);
      news := [ReplayProtectionReset];
    case RegisterCall(_, _) =>
      AnnouncedNothing(st, st);
      news := [];
  }

  /**
   The notification log is faithful: an observer that starts from the session of the moment it
   registers and folds what it hears holds the session after every later run. It hears of every
   failing call exactly once, of replay-protection resets exactly as often as they were asked for
   by name, and of session resets exactly as often as SetConfig took a session away.
   */
  lemma {:induction false} NotificationsAreFaithful(st: State, ops: seq<Operation>) returns (news: seq<Notification>)
    requires st.observed.Some?
    ensures Announced(st, Run(st, ops), news, AllDue(st, ops))
  {
    if ops == [] {
      AnnouncedNothing(st, st);
      news := [];
    } else {
      hide Step, Due;
      var init, last := ops[..|ops| - 1], ops[|ops| - 1];
      var mid := Run(st, init);
      var first := NotificationsAreFaithful(st, init);
      var second := StepAnnounces(mid, last);
      AnnouncedThen(st, mid, Run(st, ops), first, second, AllDue(st, init), Due(mid, last));
      news := first + second;
    }
  }

  /** The calls of a run that reset replay protection by name. */
  function ReplayResets(ops: seq<Operation>): nat {
    if ops == [] then 0 else ReplayResets(ops[..|ops| - 1]) + if ops[|ops| - 1].ResetReplayCall? then 1 else 0
  }

  lemma {:induction false} ReplayResetsAreDue(st: State, ops: seq<Operation>)
    ensures AllDue(st, ops).replayResets == ReplayResets(ops)
  {
    if ops != [] {
      hide Run, ReplyTo;
      ReplayResetsAreDue(st, ops[..|ops| - 1]);
    }
  }

  // ----- Policy -----

  /** A reply that hands something over, in or out, without protection. */
  predicate IsUnprotected(reply: Reply) {
    !reply.Done? && reply.result.success && reply.result != Ok(true)
  }

  /** The configuration the callers gave last. */
  function LastConfig(config: Config, ops: seq<Operation>): Config {
    if ops == [] then config
    else if ops[|ops| - 1].SetConfigCall? then ops[|ops| - 1].config
    else LastConfig(config, ops[..|ops| - 1])
  }

  /**
   A reconfigured node is, its log apart, the node that is constructed with the new configuration,
   whatever it was before: all of the configuration takes effect and nothing else is left.
   */
  lemma ReconfiguredIsNew(st: State, config: Config)
    ensures var st' := SetConfig(st, config);
            st'.config == config && st'.(observed := None) == Initial(config)
    ensures Initial(config) == State(config, After(Clamp(config.replayWindowSize), []), config.sessionID, 1, config.sessionID != 0, None)
  {
  }

  /** At any time the configuration in force is the one given last, by construction or SetConfig. */
  lemma {:induction false} LastConfigIsInForce(st: State, ops: seq<Operation>)
    ensures Run(st, ops).config == LastConfig(st.config, ops)
  {
    if ops != [] {
      hide Protect, Unprotect;
      var init, last := ops[..|ops| - 1], ops[|ops| - 1];
      var mid := Run(st, init);
      LastConfigIsInForce(st, init);
      if last.ProtectCall? {
        ProtectKeepsReceiver(mid, last.env, last.protocol, last.plaintext);
      } else if last.UnprotectCall? {
        UnprotectKeepsSender(mid, last.env, last.expected, last.input);
      }
    }
  }

  lemma {:induction false} ReplyIsThatOfItsCall(st: State, ops: seq<Operation>, k: nat)
    requires k < |ops|
    ensures |Replies(st, ops)| == |ops|
    ensures Replies(st, ops)[k] == ReplyTo(Run(st, ops[..k]), ops[k])
  {
    hide ReplyTo, Run;
    var init := ops[..|ops| - 1];
    if k < |init| {
      ReplyIsThatOfItsCall(st, init, k);
      assert init[..k] == ops[..k];
    } else if |init| > 0 {
      ReplyIsThatOfItsCall(st, init, 0);
    }
  }

  /**
   Whatever a node was before, and whatever it is given later: a call made while the configuration
   given last requires protection never succeeds unprotected.
   */
  lemma RequiredWhileConfigured(st: State, ops: seq<Operation>, k: nat)
    requires k < |ops| && LastConfig(st.config, ops[..k]).policy == Required
    ensures k < |Replies(st, ops)| && !IsUnprotected(Replies(st, ops)[k])
  {
    hide Protect, Unprotect, Run, Replies;
    var mid := Run(st, ops[..k]);
    ReplyIsThatOfItsCall(st, ops, k);
    LastConfigIsInForce(st, ops[..k]);
    if ops[k].ProtectCall? {
      RequiredSendsProtected(mid, ops[k].env, ops[k].protocol, ops[k].plaintext);
    } else if ops[k].UnprotectCall? {
      RequiredAcceptsProtected(mid, ops[k].env, ops[k].expected, ops[k].input);
    }
  }

  /** While every configuration of a run requires protection, no reply of the run is an unprotected success. */
  lemma {:induction false} RequiredThroughout(st: State, ops: seq<Operation>)
    requires st.config.policy == Required
    requires forall op :: op in ops && op.SetConfigCall? ==> op.config.policy == Required
    ensures Run(st, ops).config.policy == Required
    ensures forall reply :: reply in Replies(st, ops) ==> !IsUnprotected(reply)
  {
    if ops != [] {
      var init, last := ops[..|ops| - 1], ops[|ops| - 1];
      hide Protect, Unprotect;
      RequiredThroughout(st, init);
      var mid := Run(st, init);
      if last.ProtectCall? {
        RequiredSendsProtected(mid, last.env, last.protocol, last.plaintext);
        ProtectKeepsReceiver(mid, last.env, last.protocol, last.plaintext);
      } else if last.UnprotectCall? {
        RequiredAcceptsProtected(mid, last.env, last.expected, last.input);
        UnprotectKeepsSender(mid, last.env, last.expected, last.input);
      }
    }
  }
}
