/**
 Nodes joined by a carrier that may drop, duplicate, reorder and inject bytes, sharing keys with
 one another and with protectors of data at rest.
 */
module Channel {
  import opened Bytes
  import opened Aead
  import opened ReplayWindows
  import opened TransportHeader
  import opened TransportModel
  import opened TransportProperties
  import opened TransportRuns
  import opened DataModel
  import opened DataProperties

  /** A payload with the envelope it travels in. */
  datatype Letter = Letter(payload: UnprotectedPayload, envelope: seq<byte>)

  /** A protected record: what was protected, under which header and context, and the bytes that came out. */
  datatype ProtectedRecord = ProtectedRecord(header: DataHeader, context: Span, plaintext: seq<byte>, envelope: seq<byte>)

  /** A node: its TransportSecurity, and what it handed up as protected in its current receiver epoch. */
  datatype Node = Node(security: State, epoch: seq<Letter>)

  /**
   `sent` lists the successful Protect calls, `records` the successful DataProtector::Protect
   calls and `log` every successful Seal, all of them oldest first.
   */
  datatype World = World(nodes: seq<Node>, sent: seq<Letter>, records: seq<ProtectedRecord>, log: seq<CipherCall>)

  datatype Event =
    | Send(node: nat, protocol: byte, plaintext: Span, env: Environment)
    | Receive(node: nat, protocol: byte, bytes: seq<byte>, env: Environment)
    | Reconfigure(node: nat, config: Config)
    | ResetReplay(node: nat)
    | ProtectRecord(dataConfig: DataConfig, plaintext: Span, context: Span, env: Environment)

  function Happen(w: World, e: Event): World {
    match e
    case Send(i, protocol, plaintext, env) =>
      if i < |w.nodes| then SendFrom(w, i, protocol, plaintext, env) else w
    case Receive(i, protocol, bytes, env) =>
      if i < |w.nodes| then w.(nodes := w.nodes[i := ReceiveAt(w.nodes[i], protocol, bytes, env)]) else w
    case Reconfigure(i, config) =>
      if i < |w.nodes| then w.(nodes := w.nodes[i := Node(SetConfig(w.nodes[i].security, config), [])]) else w
    case ResetReplay(i) =>
      if i < |w.nodes| then w.(nodes := w.nodes[i := Node(ResetReplayProtection(w.nodes[i].security), [])]) else w
    case ProtectRecord(config, plaintext, context, env) =>
      RecordIn(w, config, plaintext, context, env)
  }

  /** What the caller of a successful Protect meant to send. */
  function Intended(st: State, env: Environment, protocol: byte, plaintext: Span): UnprotectedPayload {
    UnprotectedPayload(protocol, st.config.outboundKeyID, st.config.senderID,
                       Protect(st, env, protocol, plaintext).state.sessionID, st.nextSequence,
                       st.config.outboundAlgorithm, true, plaintext.Data())
  }

  function SendFrom(w: World, i: nat, protocol: byte, plaintext: Span, env: Environment): World
    requires i < |w.nodes|
  {
    var st := w.nodes[i].security;
    var outcome := Protect(st, env, protocol, plaintext);
    var letter := Letter(Intended(st, env, protocol, plaintext), outcome.output);
    w.(nodes := w.nodes[i := w.nodes[i].(security := outcome.state)],
       sent := w.sent + if outcome.result == Ok(true) then [letter] else [],
       log := w.log + if outcome.sealed.Some? then [outcome.sealed.value] else [])
  }

  function ReceiveAt(node: Node, protocol: byte, bytes: seq<byte>, env: Environment): Node {
    var outcome := Unprotect(node.security, env, protocol, Span(bytes));
    Node(outcome.state, node.epoch + if outcome.result == Ok(true) then [Letter(outcome.payload, bytes)] else [])
  }

  function RecordIn(w: World, config: DataConfig, plaintext: Span, context: Span, env: Environment): World {
    var outcome := ProtectData(config, env, plaintext, context);
    var cipher := FindCipher(env.ciphers, config.algorithm);
    if outcome.sealed.None? || cipher.None? then w
    else
      var record := ProtectedRecord(HeaderFor(config, cipher.value, |plaintext.Data()|), context, plaintext.Data(), outcome.output);
      w.(records := w.records + [record], log := w.log + [outcome.sealed.value])
  }

  function History(w: World, events: seq<Event>): World {
    if events == [] then w else Happen(History(w, events[..|events| - 1]), events[|events| - 1])
  }

  ghost predicate Pristine(w: World) {
    (forall i :: 0 <= i < |w.nodes| ==> w.nodes[i] == Node(Initial(w.nodes[i].security.config), [])) &&
    w.sent == [] && w.records == [] && w.log == []
  }

  // ----- Assumptions -----

  /** One implementation for every algorithm, on every node and at all times; all satisfy Law A. */
  type Suite = map<AeadAlgorithm, AeadCipher>

  ghost predicate UsesSuite(env: Environment, suite: Suite) {
    forall c :: c in env.ciphers ==> c.algorithm in suite && suite[c.algorithm] == c
  }

  ghost predicate LawA(suite: Suite) {
    forall a :: a in suite ==> Inverts(suite[a])
  }

  ghost predicate EventUsesSuite(e: Event, suite: Suite) {
    match e
    case Send(_, _, _, env) => UsesSuite(env, suite)
    case Receive(_, _, _, env) => UsesSuite(env, suite)
    case ProtectRecord(_, _, _, env) => UsesSuite(env, suite)
    case _ => true
  }

  /** Law B, ideal authenticity: what opens was sealed before, under the same key, nonce and data. */
  ghost predicate Logged(w: World, call: CipherCall) {
    exists k :: 0 <= k < |w.log| && SameInputs(w.log[k], call)
  }

  ghost predicate LawB(w: World, e: Event) {
    e.Receive? && e.node < |w.nodes| ==>
      var outcome := Unprotect(w.nodes[e.node].security, e.env, e.protocol, Span(e.bytes));
      outcome.unsealed.Some? ==> Logged(w, outcome.unsealed.value)
  }

  ghost predicate LawBThroughout(w: World, events: seq<Event>) {
    forall k :: 0 <= k < |events| ==> LawB(History(w, events[..k]), events[k])
  }

  // ----- Invariant -----

  /** The cipher call behind a letter. */
  ghost predicate SealedLetter(call: CipherCall, letter: Letter) {
    |call.aad| == FIXED_HEADER_SIZE && LooksProtected(call.aad) &&
    letter.payload == PayloadOf(Decode(call.aad), call.plaintext) &&
    letter.envelope == call.aad + call.nonce + call.ciphertext + call.tag
  }

  /** The cipher call behind a record. */
  ghost predicate SealedRecord(call: CipherCall, record: ProtectedRecord) {
    !record.context.Dangling() &&
    call.aad == Aad(EncodeData(record.header), record.context) &&
    call.plaintext == record.plaintext &&
    record.envelope == EncodeData(record.header) + call.nonce + call.tag + call.ciphertext
  }

  ghost predicate HasOrigin(w: World, call: CipherCall) {
    (exists i :: 0 <= i < |w.sent| && SealedLetter(call, w.sent[i])) ||
    (exists i :: 0 <= i < |w.records| && SealedRecord(call, w.records[i]))
  }

  ghost predicate SealedBySuite(call: CipherCall, suite: Suite) {
    call.algorithm in suite &&
    suite[call.algorithm].seal(call.key, call.nonce, call.aad, call.plaintext) == Some(Sealed(call.ciphertext, call.tag))
  }

  ghost predicate LogIsSound(w: World, suite: Suite) {
    forall k :: 0 <= k < |w.log| ==> HasOrigin(w, w.log[k]) && SealedBySuite(w.log[k], suite)
  }

  function PacketsIn(letters: seq<Letter>): (packets: seq<Packet>)
    ensures |packets| == |letters|
    ensures forall i :: 0 <= i < |letters| ==> packets[i] == PacketOfPayload(letters[i].payload)
  {
    seq(|letters|, i requires 0 <= i < |letters| => PacketOfPayload(letters[i].payload))
  }

  ghost predicate NodeIsSound(node: Node, sent: seq<Letter>) {
    Reachable(node.security) &&
    node.security.replay == After(node.security.replay.size, PacketsIn(node.epoch)) &&
    Distinct(PacketsIn(node.epoch)) &&
    forall i :: 0 <= i < |node.epoch| ==> node.epoch[i] in sent
  }

  ghost predicate Sound(w: World, suite: Suite) {
    LogIsSound(w, suite) && forall i :: 0 <= i < |w.nodes| ==> NodeIsSound(w.nodes[i], w.sent)
  }

  // ----- Steps -----

  lemma LogGrows(w: World, w': World, suite: Suite, fresh': seq<CipherCall>)
    requires LogIsSound(w, suite)
    requires w.sent <= w'.sent && w.records <= w'.records && w'.log == w.log + fresh'
    requires forall call :: call in fresh' ==> HasOrigin(w', call) && SealedBySuite(call, suite)
    ensures LogIsSound(w', suite)
  {
    forall k | 0 <= k < |w'.log|
      ensures HasOrigin(w', w'.log[k]) && SealedBySuite(w'.log[k], suite)
    {
      if k < |w.log| {
        OriginRemains(w, w', w.log[k]);
      } else {
        assert w'.log[k] == fresh'[k - |w.log|];
      }
    }
  }

  lemma OriginRemains(w: World, w': World, call: CipherCall)
    requires HasOrigin(w, call) && w.sent <= w'.sent && w.records <= w'.records
    ensures HasOrigin(w', call)
  {
    hide SealedLetter, SealedRecord;
    if i :| 0 <= i < |w.sent| && SealedLetter(call, w.sent[i]) {
      assert w'.sent[i] == w.sent[i];
    } else {
      var i :| 0 <= i < |w.records| && SealedRecord(call, w.records[i]);
      assert w'.records[i] == w.records[i];
    }
  }

  /** A successful Protect leaves one letter, and in the log the one cipher call behind it. */
  lemma SendLeavesLetter(st: State, env: Environment, protocol: byte, plaintext: Span, suite: Suite)
    requires Reachable(st) && UsesSuite(env, suite)
    ensures var outcome := Protect(st, env, protocol, plaintext);
            (outcome.sealed.Some? <==> outcome.result == Ok(true)) &&
            (outcome.sealed.Some? ==>
              SealedLetter(outcome.sealed.value, Letter(Intended(st, env, protocol, plaintext), outcome.output)) &&
              SealedBySuite(outcome.sealed.value, suite))
  {
    hide Protect, Encode, Decode;
    SealedIffProtected(st, env, protocol, plaintext);
    if Protect(st, env, protocol, plaintext).result == Ok(true) {
      var h, cipher := EnvelopeShape(st, env, protocol, plaintext);
      assert Encode(h) + [] == Encode(h);
      DecodeInvertsEncode(h, []);
      MagicLooksProtected(h, []);
    }
  }

  lemma SealedIffProtected(st: State, env: Environment, protocol: byte, plaintext: Span)
    ensures var outcome := Protect(st, env, protocol, plaintext);
            outcome.sealed.Some? <==> outcome.result == Ok(true)
  {
    hide Encode, EnsureSession;
  }

  lemma SendKeepsSound(w: World, i: nat, protocol: byte, plaintext: Span, env: Environment, suite: Suite)
    requires Sound(w, suite) && UsesSuite(env, suite) && i < |w.nodes|
    ensures Sound(SendFrom(w, i, protocol, plaintext, env), suite)
  {
    hide Protect, SealedLetter, SealedRecord, SealedBySuite, UsesSuite, Reachable, After;
    var st := w.nodes[i].security;
    var w', outcome := SendFrom(w, i, protocol, plaintext, env), Protect(st, env, protocol, plaintext);
    SendLeavesLetter(st, env, protocol, plaintext, suite);
    ProtectKeepsReachable(st, env, protocol, plaintext);
    ProtectKeepsReceiver(st, env, protocol, plaintext);
    if outcome.sealed.Some? {
      assert w'.sent[|w.sent|] == Letter(Intended(st, env, protocol, plaintext), outcome.output);
      LogGrows(w, w', suite, [outcome.sealed.value]);
    } else {
      LogGrows(w, w', suite, []);
    }
  }

  lemma RecordKeepsSound(w: World, config: DataConfig, plaintext: Span, context: Span, env: Environment, suite: Suite)
    requires Sound(w, suite) && UsesSuite(env, suite)
    ensures Sound(RecordIn(w, config, plaintext, context, env), suite)
  {
    hide EncodeData, SealedLetter, Reachable, After;
    var w' := RecordIn(w, config, plaintext, context, env);
    if w' != w {
      assert ProtectData(config, env, plaintext, context).result.success;
      var cipher, call := DataSealed(config, env, plaintext, context);
      hide ProtectData;
      assert SealedRecord(call, w'.records[|w.records|]);
      LogGrows(w, w', suite, [call]);
    }
  }

  /** Under Law B a delivered envelope is, byte for byte, one that was sent, and its payload the one meant. */
  lemma DeliveredWasSent(w: World, st: State, env: Environment, protocol: byte, bytes: seq<byte>, suite: Suite)
    requires LogIsSound(w, suite) && LawA(suite) && UsesSuite(env, suite)
    requires Unprotect(st, env, protocol, Span(bytes)).result == Ok(true)
    requires Unprotect(st, env, protocol, Span(bytes)).unsealed.Some? ==>
             Logged(w, Unprotect(st, env, protocol, Span(bytes)).unsealed.value)
    ensures Letter(Unprotect(st, env, protocol, Span(bytes)).payload, bytes) in w.sent
  {
    hide Unprotect, Encode, Decode, EncodeData;
    var outcome := Unprotect(st, env, protocol, Span(bytes));
    var h, nonce, ciphertext, tag, data := DeliveredWasDeliverable(st, env, protocol, Span(bytes));
    var call := outcome.unsealed.value;
    var k :| 0 <= k < |w.log| && SameInputs(w.log[k], call);
    var sealing, cipher := w.log[k], FindCipher(env.ciphers, h.algorithm).value;
    assert cipher == suite[h.algorithm];
    assert Inverts(cipher) && sealing.plaintext == data;
    assert Encode(h) + [] == Encode(h);
    DecodeInvertsEncode(h, []);
    if i :| 0 <= i < |w.sent| && SealedLetter(sealing, w.sent[i]) {
      assert w.sent[i] == Letter(outcome.payload, bytes);
    } else {
      var i :| 0 <= i < |w.records| && SealedRecord(sealing, w.records[i]);
      FormatsAreSeparate(w.records[i].header, w.records[i].context, h);
    }
  }

  lemma ReceiveKeepsSound(w: World, i: nat, protocol: byte, bytes: seq<byte>, env: Environment, suite: Suite)
    requires Sound(w, suite) && LawA(suite) && UsesSuite(env, suite) && i < |w.nodes|
    requires LawB(w, Receive(i, protocol, bytes, env))
    ensures NodeIsSound(ReceiveAt(w.nodes[i], protocol, bytes, env), w.sent)
  {
    hide Unprotect, Reachable, Accepts, After, Record, LogIsSound;
    var node := w.nodes[i];
    var outcome := Unprotect(node.security, env, protocol, Span(bytes));
    UnprotectCommits(node.security, env, protocol, Span(bytes));
    UnprotectKeepsReachable(node.security, env, protocol, Span(bytes));
    if outcome.result == Ok(true) {
      var letter := Letter(outcome.payload, bytes);
      var packet := PacketOfPayload(outcome.payload);
      DeliveredWasSent(w, node.security, env, protocol, bytes, suite);
      AcceptedIsNew(node.security.replay.size, PacketsIn(node.epoch), packet);
      AfterAppend(node.security.replay.size, PacketsIn(node.epoch), packet);
      AfterRepresents(node.security.replay.size, PacketsIn(node.epoch) + [packet]);
      assert PacketsIn(node.epoch + [letter]) == PacketsIn(node.epoch) + [packet];
    } else {
      assert node.epoch + [] == node.epoch;
    }
  }

  lemma FreshEpochIsSound(st: State, sent: seq<Letter>)
    requires Reachable(st) && st.replay.states == []
    ensures NodeIsSound(Node(st, []), sent)
  {
    assert PacketsIn([]) == [];
  }

  lemma HappenKeepsSound(w: World, e: Event, suite: Suite)
    requires Sound(w, suite) && LawA(suite) && EventUsesSuite(e, suite) && LawB(w, e)
    ensures Sound(Happen(w, e), suite)
  {
    hide NodeIsSound, LogIsSound, SendFrom, ReceiveAt, RecordIn, UsesSuite, LawA, LawB;
    if e.ProtectRecord? {
      RecordKeepsSound(w, e.dataConfig, e.plaintext, e.context, e.env, suite);
    } else if e.node < |w.nodes| {
      if e.Send? {
        SendKeepsSound(w, e.node, e.protocol, e.plaintext, e.env, suite);
      } else {
        ReplacedNodeIsSound(w, e, suite);
        SameLog(w, Happen(w, e), suite);
      }
    }
  }

  lemma ReplacedNodeIsSound(w: World, e: Event, suite: Suite)
    requires Sound(w, suite) && LawA(suite) && EventUsesSuite(e, suite) && LawB(w, e)
    requires !e.ProtectRecord? && !e.Send? && e.node < |w.nodes|
    ensures NodeIsSound(Happen(w, e).nodes[e.node], w.sent)
  {
    hide LogIsSound, ReceiveAt, UsesSuite, LawA;
    var st := w.nodes[e.node].security;
    match e
    case Receive(i, protocol, bytes, env) =>
      ReceiveKeepsSound(w, i, protocol, bytes, env, suite);
    case Reconfigure(_, config) =>
      FreshEpochIsSound(SetConfig(st, config), w.sent);
    case ResetReplay(_) =>
      FreshEpochIsSound(ResetReplayProtection(st), w.sent);
  }

  lemma SameLog(w: World, w': World, suite: Suite)
    requires LogIsSound(w, suite) && w'.sent == w.sent && w'.records == w.records && w'.log == w.log
    ensures LogIsSound(w', suite)
  {
    assert w.log + [] == w.log;
    LogGrows(w, w', suite, []);
  }

  lemma PristineIsSound(w: World, suite: Suite)
    requires Pristine(w)
    ensures Sound(w, suite)
  {
    forall i | 0 <= i < |w.nodes|
      ensures NodeIsSound(w.nodes[i], w.sent)
    {
      InitialIsReachable(w.nodes[i].security.config);
      FreshEpochIsSound(w.nodes[i].security, w.sent);
    }
  }

  lemma {:induction false} HistoryIsSound(w: World, events: seq<Event>, suite: Suite)
    requires Pristine(w) && LawA(suite)
    requires forall k :: 0 <= k < |events| ==> EventUsesSuite(events[k], suite)
    requires LawBThroughout(w, events)
    ensures Sound(History(w, events), suite)
  {
    if events == [] {
      PristineIsSound(w, suite);
    } else {
      hide Sound, Happen, LawB, EventUsesSuite, Pristine;
      var init, last := events[..|events| - 1], events[|events| - 1];
      assert LawBThroughout(w, init) by {
        forall k | 0 <= k < |init|
          ensures LawB(History(w, init[..k]), init[k])
        {
          assert init[..k] == events[..k];
        }
      }
      HistoryIsSound(w, init, suite);
      HappenKeepsSound(History(w, init), last, suite);
    }
  }

  // ----- Results -----

  /** Event `q` of a history is a Protect call that succeeds. */
  ghost predicate Sends(w: World, events: seq<Event>, q: nat) {
    q < |events| && events[q].Send? &&
    var nodes := History(w, events[..q]).nodes;
    events[q].node < |nodes| &&
    Protect(nodes[events[q].node].security, events[q].env, events[q].protocol, events[q].plaintext).result == Ok(true)
  }

  /** What the caller meant to send, and the bytes the call returned. */
  ghost function LetterSent(w: World, events: seq<Event>, q: nat): Letter
    requires Sends(w, events, q)
  {
    var e, st := events[q], History(w, events[..q]).nodes[events[q].node].security;
    Letter(Intended(st, e.env, e.protocol, e.plaintext), Protect(st, e.env, e.protocol, e.plaintext).output)
  }

  /** Event `r` of a history hands up a protected payload. */
  ghost predicate HandsUp(w: World, events: seq<Event>, r: nat) {
    r < |events| && events[r].Receive? &&
    var nodes := History(w, events[..r]).nodes;
    events[r].node < |nodes| &&
    Unprotect(nodes[events[r].node].security, events[r].env, events[r].protocol, Span(events[r].bytes)).result == Ok(true)
  }

  /** The payload handed up, and the bytes it came in. */
  ghost function LetterHandedUp(w: World, events: seq<Event>, r: nat): Letter
    requires HandsUp(w, events, r)
  {
    var e, st := events[r], History(w, events[..r]).nodes[events[r].node].security;
    Letter(Unprotect(st, e.env, e.protocol, Span(e.bytes)).payload, e.bytes)
  }

  predicate EndsEpoch(e: Event, i: nat) {
    (e.Reconfigure? || e.ResetReplay?) && e.node == i
  }

  /** Events `r` and `r'` are receipts of one node within one receiver epoch. */
  predicate SameEpoch(events: seq<Event>, r: nat, r': nat) {
    r < r' < |events| && events[r].Receive? && events[r'].Receive? && events[r'].node == events[r].node &&
    forall k :: r < k < r' ==> !EndsEpoch(events[k], events[r].node)
  }

  /** Every letter sent in a history was sent by one of its events. */
  lemma {:induction false} LetterHasSend(w: World, events: seq<Event>, letter: Letter) returns (q: nat)
    requires w.sent == [] && letter in History(w, events).sent
    ensures Sends(w, events, q) && LetterSent(w, events, q) == letter
  {
    hide Protect, Unprotect, ProtectData, Intended;
    var n := |events| - 1;
    if letter in History(w, events[..n]).sent {
      q := LetterHasSend(w, events[..n], letter);
      assert events[..n][..q] == events[..q];
    } else {
      q := n;
    }
  }

  /** What a node handed up stays in its epoch until the epoch ends. */
  lemma {:induction false} EpochHolds(w: World, events: seq<Event>, r: nat)
    requires HandsUp(w, events, r)
    requires forall k :: r < k < |events| ==> !EndsEpoch(events[k], events[r].node)
    ensures events[r].node < |History(w, events).nodes|
    ensures LetterHandedUp(w, events, r) in History(w, events).nodes[events[r].node].epoch
  {
    hide Protect, Unprotect, ProtectData, Intended;
    var n := |events| - 1;
    if r < n {
      assert events[..n][..r] == events[..r];
      EpochHolds(w, events[..n], r);
      EventKeepsEpoch(History(w, events[..n]), events[n], events[r].node, LetterHandedUp(w, events, r));
    }
  }

  lemma EventKeepsEpoch(w: World, e: Event, i: nat, letter: Letter)
    requires i < |w.nodes| && letter in w.nodes[i].epoch && !EndsEpoch(e, i)
    ensures i < |Happen(w, e).nodes| && letter in Happen(w, e).nodes[i].epoch
  {
    hide Protect, Unprotect, ProtectData, Intended;
  }

  /** The assumptions under which a history is considered. */
  ghost predicate Admissible(w: World, events: seq<Event>, suite: Suite) {
    Pristine(w) && LawA(suite) && LawBThroughout(w, events) &&
    forall k :: 0 <= k < |events| ==> EventUsesSuite(events[k], suite)
  }

  lemma PrefixIsAdmissible(w: World, events: seq<Event>, suite: Suite, k: nat)
    requires Admissible(w, events, suite) && k <= |events|
    ensures Admissible(w, events[..k], suite)
  {
    hide Pristine, LawA, LawB, EventUsesSuite, History;
    forall j | 0 <= j < k
      ensures LawB(History(w, events[..k][..j]), events[..k][j])
    {
      assert events[..k][..j] == events[..j];
    }
  }

  lemma SoundBefore(w: World, events: seq<Event>, suite: Suite, k: nat)
    requires Admissible(w, events, suite) && k <= |events|
    ensures Sound(History(w, events[..k]), suite)
  {
    hide Sound, History, Pristine, LawA, EventUsesSuite, LawBThroughout;
    PrefixIsAdmissible(w, events, suite, k);
    HistoryIsSound(w, events[..k], suite);
  }

  /** A payload that is handed up was sent by an earlier event. */
  lemma HandedUpWasSent(w: World, events: seq<Event>, suite: Suite, r: nat) returns (q: nat)
    requires Admissible(w, events, suite) && HandsUp(w, events, r)
    ensures q < r && Sends(w, events, q) && LetterSent(w, events, q) == LetterHandedUp(w, events, r)
  {
    hide History, Unprotect, Protect, Intended, NodeIsSound, LogIsSound, LawA, UsesSuite;
    var before, e := History(w, events[..r]), events[r];
    SoundBefore(w, events, suite, r);
    assert LawB(before, e) && EventUsesSuite(e, suite);
    DeliveredWasSent(before, before.nodes[e.node].security, e.env, e.protocol, e.bytes, suite);
    q := LetterHasSend(w, events[..r], LetterHandedUp(w, events, r));
    assert events[..r][..q] == events[..q];
  }

  /** Within an epoch no two payloads handed up are the same letter. */
  lemma HandedUpOnce(w: World, events: seq<Event>, suite: Suite, r: nat, r': nat)
    requires Admissible(w, events, suite)
    requires HandsUp(w, events, r) && HandsUp(w, events, r') && SameEpoch(events, r, r')
    ensures LetterHandedUp(w, events, r) != LetterHandedUp(w, events, r')
  {
    hide History, Unprotect, Admissible, LogIsSound, Accepts, After, Record, Reachable;
    var i, before := events[r].node, History(w, events[..r']);
    SoundBefore(w, events, suite, r');
    assert events[..r'][..r] == events[..r];
    assert HandsUp(w, events[..r'], r);
    EpochHolds(w, events[..r'], r);
    var letter, node := LetterHandedUp(w, events, r), before.nodes[i];
    UnprotectCommits(node.security, events[r'].env, events[r'].protocol, Span(events[r'].bytes));
    AcceptedIsNew(node.security.replay.size, PacketsIn(node.epoch), PacketOfPayload(LetterHandedUp(w, events, r').payload));
    var k :| 0 <= k < |node.epoch| && node.epoch[k] == letter;
    assert PacketsIn(node.epoch)[k] == PacketOfPayload(letter.payload);
  }

  /**
   `origin` names for every event that hands up a protected payload an earlier event that sent it,
   the same in payload and bytes, and no two receipts of one epoch have the same origin.
   */
  ghost predicate OneToOne(w: World, events: seq<Event>, origin: seq<nat>) {
    |origin| == |events| &&
    (forall r :: 0 <= r < |events| && HandsUp(w, events, r) ==>
      origin[r] < r && Sends(w, events, origin[r]) && LetterSent(w, events, origin[r]) == LetterHandedUp(w, events, r)) &&
    forall r, r' :: 0 <= r < r' < |events| && HandsUp(w, events, r) && HandsUp(w, events, r') && SameEpoch(events, r, r') ==>
      origin[r] != origin[r']
  }

  /**
   The channel theorem. Whatever the carrier does with the bytes, and whatever other use the keys
   are put to by protectors of data at rest: the protected payloads any node hands up in one
   receiver epoch map one to one to earlier successful Protect calls with the same protocol,
   algorithm, key ID, sender, session, sequence and data, and came in the very bytes those calls
   returned.
   */
  lemma ChannelIsAuthentic(w: World, events: seq<Event>, suite: Suite) returns (origin: seq<nat>)
    requires Admissible(w, events, suite)
    ensures OneToOne(w, events, origin)
  {
    hide Admissible, HandsUp, Sends, LetterSent, LetterHandedUp, SameEpoch;
    origin := [];
    while |origin| < |events|
      invariant |origin| <= |events|
      invariant forall r :: 0 <= r < |origin| && HandsUp(w, events, r) ==>
        origin[r] < r && Sends(w, events, origin[r]) && LetterSent(w, events, origin[r]) == LetterHandedUp(w, events, r)
    {
      var q := 0;
      if HandsUp(w, events, |origin|) {
        q := HandedUpWasSent(w, events, suite, |origin|);
      }
      origin := origin + [q];
    }
    forall r, r' | 0 <= r < r' < |events| && HandsUp(w, events, r) && HandsUp(w, events, r') && SameEpoch(events, r, r')
      ensures origin[r] != origin[r']
    {
      HandedUpOnce(w, events, suite, r, r');
    }
  }

  /** Event `q` of a history protected a record: these bytes, from this plaintext under this context. */
  ghost predicate Protects(events: seq<Event>, q: nat, plaintext: seq<byte>, context: seq<byte>, envelope: seq<byte>) {
    q < |events| && events[q].ProtectRecord? &&
    var e := events[q];
    var outcome := ProtectData(e.dataConfig, e.env, e.plaintext, e.context);
    outcome.result == Ok(true) && outcome.output == envelope &&
    e.plaintext.Data() == plaintext && e.context.Data() == context
  }

  lemma RecordHasCall(w: World, e: Event)
    requires e.ProtectRecord? && Happen(w, e) != w
    ensures ProtectData(e.dataConfig, e.env, e.plaintext, e.context).result == Ok(true)
  {
    hide EncodeData;
  }

  /** Every record of a history was protected by one of its events. */
  lemma {:induction false} RecordHasEvent(w: World, events: seq<Event>, record: ProtectedRecord) returns (q: nat)
    requires w.records == [] && record in History(w, events).records
    ensures Protects(events, q, record.plaintext, record.context.Data(), record.envelope)
  {
    hide Protect, Unprotect, ProtectData, Intended;
    var n := |events| - 1;
    if record in History(w, events[..n]).records {
      q := RecordHasEvent(w, events[..n], record);
    } else {
      q := n;
      RecordHasCall(History(w, events[..n]), events[n]);
    }
  }

  /**
   A record that opens after a history was protected by one of its events: in these very bytes,
   under this very context, from the plaintext that comes out.
   */
  lemma RecordsAreAuthentic(w: World, events: seq<Event>, suite: Suite,
                            config: DataConfig, env: Environment, input: Span, context: Span) returns (q: nat)
    requires Admissible(w, events, suite) && UsesSuite(env, suite)
    requires UnprotectData(config, env, input, context).result.success
    requires UnprotectData(config, env, input, context).unsealed.Some? ==>
             Logged(History(w, events), UnprotectData(config, env, input, context).unsealed.value)
    ensures Protects(events, q, UnprotectData(config, env, input, context).plaintext, context.Data(), input.Data())
  {
    hide UnprotectData, History, Protects;
    HistoryIsSound(w, events, suite);
    var i := OpenedWasProtected(History(w, events), suite, config, env, input, context);
    q := RecordHasEvent(w, events, History(w, events).records[i]);
  }

  lemma OpenedWasProtected(w: World, suite: Suite, config: DataConfig, env: Environment, input: Span, context: Span)
    returns (i: nat)
    requires LogIsSound(w, suite) && LawA(suite) && UsesSuite(env, suite)
    requires UnprotectData(config, env, input, context).result.success
    requires UnprotectData(config, env, input, context).unsealed.Some? ==>
             Logged(w, UnprotectData(config, env, input, context).unsealed.value)
    ensures i < |w.records| && w.records[i].plaintext == UnprotectData(config, env, input, context).plaintext &&
            w.records[i].context.Data() == context.Data() && w.records[i].envelope == input.Data()
  {
    hide UnprotectData, EncodeData, DecodeData, Encode, Decode;
    var h, call := ReadShape(config, env, input, context);
    var k :| 0 <= k < |w.log| && SameInputs(w.log[k], call);
    var sealing, cipher := w.log[k], FindCipher(env.ciphers, h.algorithm).value;
    assert cipher == suite[h.algorithm];
    assert Inverts(cipher) && sealing.plaintext == call.plaintext;
    if j :| 0 <= j < |w.records| && SealedRecord(sealing, w.records[j]) {
      AadIsInjective(h, context, w.records[j].header, w.records[j].context);
      i := j;
    } else {
      var j :| 0 <= j < |w.sent| && SealedLetter(sealing, w.sent[j]);
      EncodeInvertsDecode(sealing.aad);
      MagicIsRead(sealing.aad);
      assert sealing.aad[..FIXED_HEADER_SIZE] == sealing.aad;
      FormatsAreSeparate(h, context, Decode(sealing.aad));
      assert false;
    }
  }
}
