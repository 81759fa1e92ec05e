/**
 Sender and receiver with concrete collaborators: the repository's test cipher and default limits,
 the static key provider, and an input for every promise of the documentation the code breaks.
 */
module EndToEnd {
  import opened Bytes
  import opened Aead
  import opened Randomness
  import opened ReplayWindows
  import opened TransportHeader
  import opened TransportModel
  import opened TransportProperties
  import opened TransportRuns
  import opened DataModel
  import KeyStore
  import TestCipher

  /** The default configuration, but for policy, algorithm, key, sender and session. */
  function DefaultConfig(policy: Policy, keyID: uint32, senderID: uint64, sessionID: uint64): Config {
    Config(policy, TEST_ONLY, keyID, senderID, sessionID, 16384, 64)
  }

  ghost function Collaborators(keyID: uint32, key: seq<byte>, nonce: seq<byte>): Environment {
    TestCipher.LawAIsSatisfiable();
    var cipher: AeadCipher := TestCipher.Implementation();
    Environment([cipher], map[KeyRef(keyID, TEST_ONLY) := key], [Draw(true, nonce)], true)
  }

  lemma FirstSealSucceeds(st: State, keyID: uint32, key: seq<byte>, nonce: seq<byte>, protocol: byte, data: seq<byte>)
    requires |key| == TestCipher.KEY_SIZE && |nonce| == TestCipher.NONCE_SIZE && |data| <= 16384
    requires st.nextSequence == 1
    ensures var env := Collaborators(keyID, key, nonce);
            SealNext(st, env, protocol, data, env.ciphers[0], key).result == Ok(true)
  {
    hide Encode, TestCipher.MakeTag, TestCipher.Stream;
  }

  /** A sender under Required with an explicit session, about to make its first envelope. */
  function FirstState(keyID: uint32, senderID: uint64, sessionID: uint64): State {
    Initial(DefaultConfig(Required, keyID, senderID, sessionID))
  }

  /** The first Protect call succeeds, and its header carries the configured identity and sequence one. */
  lemma FirstProtect(st: State, keyID: uint32, key: seq<byte>, nonce: seq<byte>, senderID: uint64, sessionID: uint64,
                     protocol: byte, data: seq<byte>)
    returns (h: Header, cipher: AeadCipher)
    requires |key| == TestCipher.KEY_SIZE && |nonce| == TestCipher.NONCE_SIZE
    requires sessionID != 0 && |data| <= 16384
    requires st == FirstState(keyID, senderID, sessionID).(observed := st.observed)
    ensures var env := Collaborators(keyID, key, nonce);
            var sent := Protect(st, env, protocol, Span(data));
            Reachable(st) && sent.result == Ok(true) && Sent(st, env, protocol, Span(data), h, cipher) &&
            CanOpen(env, h, cipher, key) && KeyRef(h.keyID, h.algorithm) in env.keys &&
            env.keys[KeyRef(h.keyID, h.algorithm)] == key &&
            sent.state == st.(nextSequence := 2) &&
            PayloadOf(h, data) == UnprotectedPayload(protocol, keyID, senderID, sessionID, 1, TEST_ONLY, true, data)
  {
    hide SealNext, Encode, Decode, SealedInto;
    var env := Collaborators(keyID, key, nonce);
    FirstSealSucceeds(st, keyID, key, nonce, protocol, data);
    TestCipher.LawAIsSatisfiable();
    h, cipher := ProtectSeals(st, env, protocol, Span(data));
    SealAdvances(st, env, protocol, data, env.ciphers[0], key);
  }

  /** An empty window accepts every legal packet, and not a second time. */
  lemma AcceptedOnce(size: WindowSize, p: Packet)
    requires p.domain.sessionID != 0 && p.sequence != 0
    ensures Accepts(Window(size, []), p) && !Accepts(Record(Window(size, []), p), p)
    ensures |Record(Window(size, []), p).states| == 1
  {
    AfterAppend(size, [], p);
    WindowRefinesSet(size, [], p);
    WindowRefinesSet(size, [] + [p], p);
    assert p in [p];
    assert p.sequence in Committed([p], p.domain);
  }

  /**
   Everything the transport theorems suppose can be had: for every key, nonce and session of legal
   size, every payload the default limit admits and every policy of the receiver, the first Protect
   call succeeds, the receiver gets the payload back with sequence one, and a second delivery of
   the same bytes is a replay.
   */
  lemma FirstEnvelopeArrivesOnce(policy: Policy, key: seq<byte>, nonce: seq<byte>, senderID: uint64, sessionID: uint64,
                                 receiverID: uint64, protocol: byte, data: seq<byte>)
    requires |key| == TestCipher.KEY_SIZE && |nonce| == TestCipher.NONCE_SIZE
    requires sessionID != 0 && |data| <= 16384
    ensures var env, receiver := Collaborators(1, key, nonce), Initial(DefaultConfig(policy, 1, receiverID, 0));
            var sent := Protect(FirstState(1, senderID, sessionID), env, protocol, Span(data));
            var once := Unprotect(receiver, env, protocol, Span(sent.output));
            var twice := Unprotect(once.state, env, protocol, Span(sent.output));
            sent.result == Ok(true) && once.result == Ok(true) &&
            once.payload == UnprotectedPayload(protocol, 1, senderID, sessionID, 1, TEST_ONLY, true, data) &&
            twice.result == Fail(ReplayDetected) && twice.payload == EMPTY_PAYLOAD
  {
    hide Protect, Unprotect, Accepts, Record, Collaborators;
    var env, receiver := Collaborators(1, key, nonce), Initial(DefaultConfig(policy, 1, receiverID, 0));
    var st := FirstState(1, senderID, sessionID);
    var h, cipher := FirstProtect(st, 1, key, nonce, senderID, sessionID, protocol, data);
    var sent := Protect(st, env, protocol, Span(data));
    ArrivesOnce(st, env, protocol, data, receiver, h, cipher, key);
    FailedUnprotectIsInvisible(Unprotect(receiver, env, protocol, Span(sent.output)).state, env, protocol, Span(sent.output));
  }

  /** A fresh receiver with room takes a genuine envelope once, and detects the second delivery. */
  lemma ArrivesOnce(st: State, env: Environment, protocol: byte, data: seq<byte>, receiver: State,
                    h: Header, cipher: AeadCipher, key: seq<byte>)
    requires Reachable(st) && Sent(st, env, protocol, Span(data), h, cipher) && CanOpen(env, h, cipher, key)
    requires KeyRef(h.keyID, h.algorithm) in env.keys && env.keys[KeyRef(h.keyID, h.algorithm)] == key
    requires receiver.replay.states == [] && |data| <= receiver.config.maximumPlaintextBytes && h.keyID != 0
    ensures var envelope := Span(Protect(st, env, protocol, Span(data)).output);
            var once := Unprotect(receiver, env, protocol, envelope);
            once.result == Ok(true) && once.payload == PayloadOf(h, data) &&
            once.state == receiver.(replay := Record(receiver.replay, PacketOf(h))) &&
            Unprotect(once.state, env, protocol, envelope).result == Fail(ReplayDetected)
  {
    hide Protect, Unprotect, Accepts, Record;
    var once := Unprotect(receiver, env, protocol, Span(Protect(st, env, protocol, Span(data)).output));
    var h', cipher' := TransportRoundTrip(st, env, protocol, Span(data), receiver, env, protocol);
    AcceptedOnce(receiver.replay.size, PacketOf(h));
    var h'', cipher'' := TransportRoundTrip(st, env, protocol, Span(data), once.state, env, protocol);
  }

  // ----- Keys from the static provider -----

  /**
   Transport round trip with keys from a static provider, whatever its threads did before: a
   receiver that can open the envelope delivers it if and only if limit, protocol and window allow.
   */
  lemma RoundTripWithStaticKeys(threads: nat, views: nat, steps: seq<KeyStore.Step>,
                                st: State, env: Environment, protocol: byte, plaintext: Span,
                                r: State, env': Environment, expected: byte)
    returns (h: Header, cipher: AeadCipher)
    requires KeyStore.Agrees(KeyStore.Interleave(KeyStore.Unused(threads, views), steps), env.keys)
    requires Reachable(st)
    requires Protect(st, env, protocol, plaintext).result == Ok(true)
    ensures Sent(st, env, protocol, plaintext, h, cipher)
    ensures CanOpen(env', h, cipher, env.keys[KeyRef(h.keyID, h.algorithm)]) ==>
            var received := Unprotect(r, env', expected, Span(Protect(st, env, protocol, plaintext).output));
            (received.result.success <==>
              |plaintext.Data()| <= r.config.maximumPlaintextBytes && expected == protocol && Accepts(r.replay, PacketOf(h))) &&
            (received.result.success ==>
              received.result == Ok(true) && received.payload == PayloadOf(h, plaintext.Data()))
  {
    hide Protect, Unprotect, Accepts, Record, KeyStore.Interleave, KeyStore.Lookup;
    h, cipher := TransportRoundTrip(st, env, protocol, plaintext, r, env', expected);
    var ref := KeyRef(h.keyID, h.algorithm);
    KeyStore.KeyIDsAreNeverZero(threads, views, steps, ref);
    assert KeyStore.Lookup(KeyStore.Interleave(KeyStore.Unused(threads, views), steps), ref) == Some(env.keys[ref]);
  }

  // ----- Inputs on which the code is not what its documentation says -----

  /** A receiver that is told plaintext receive opens an envelope. */
  lemma DisabledReceiverOpens()
    ensures var env, receiver := Collaborators(1, Zeros(16), Zeros(12)), Initial(DefaultConfig(Disabled, 1, 2, 0));
            var sent := Protect(FirstState(1, 1, 1), env, 7, Span([42]));
            var received := Unprotect(receiver, env, 7, Span(sent.output));
            received.result == Ok(true) && received.payload.isProtected && received.payload.data == [42]
  {
    hide Protect, Unprotect;
    FirstEnvelopeArrivesOnce(Disabled, Zeros(16), Zeros(12), 1, 1, 2, 7, [42]);
  }

  /** The plaintext "ESPS!" leaves a plaintext sender as it is, and no receiver hands it through. */
  lemma MagicPlaintextIsLost(policy: Policy, env: Environment, env': Environment)
    ensures var data := [0x45, 0x53, 0x50, 0x53, 0x21];
            var sent := Protect(Initial(DefaultConfig(Disabled, 1, 1, 1)), env, 7, Span(data));
            var received := Unprotect(Initial(DefaultConfig(policy, 1, 2, 0)), env', 7, Span(sent.output));
            sent.result == Ok(false) && sent.output == data &&
            received.result == Fail(MalformedEnvelope) && received.payload == EMPTY_PAYLOAD
  {
    MagicBytes([0x45, 0x53, 0x50, 0x53, 0x21]);
  }

  /** With a provider that resolves key ID zero, the sender protects what no receiver accepts. */
  lemma KeyZeroIsSentAndRefused(policy: Policy)
    ensures var env, receiver := Collaborators(0, Zeros(16), Zeros(12)), Initial(DefaultConfig(policy, 0, 2, 0));
            var sent := Protect(FirstState(0, 1, 1), env, 7, Span([42]));
            sent.result == Ok(true) && Unprotect(receiver, env, 7, Span(sent.output)).result == Fail(MalformedEnvelope)
  {
    hide Protect, Unprotect, Accepts, Record, Collaborators;
    var env, receiver := Collaborators(0, Zeros(16), Zeros(12)), Initial(DefaultConfig(policy, 0, 2, 0));
    var h, cipher := FirstProtect(FirstState(0, 1, 1), 0, Zeros(16), Zeros(12), 1, 1, 7, [42]);
    var h', cipher' := TransportRoundTrip(FirstState(0, 1, 1), env, 7, Span([42]), receiver, env, 7);
  }

  /** A cipher that satisfies Law A, with a nonce one byte longer than its size field can say. */
  function WideNonceCipher(): CipherImplementation {
    Cipher(TEST_ONLY, 1, 0x1_0000, 0, (k, n, a, p) => Some(Sealed(p, [])), (k, n, a, x, t) => Some(x))
  }

  ghost function WideCollaborators(): Environment {
    var cipher: AeadCipher := WideNonceCipher();
    Environment([cipher], map[KeyRef(1, TEST_ONLY) := [9]], [Draw(true, [])], true)
  }

  /** A record is protected with success, in bytes that no longer say how long their nonce is, and does not open. */
  lemma CutSizeIsSealedAndLost()
    ensures var config, env := DataConfig(TEST_ONLY, 1, 65536), WideCollaborators();
            var sealed := ProtectData(config, env, Span([42]), NullSpan(0));
            sealed.result == Ok(true) && Inverts(env.ciphers[0]) &&
            UnprotectData(config, env, Span(sealed.output), NullSpan(0)).result == Fail(MalformedEnvelope)
  {
    hide EncodeData, DecodeData, Fit;
    var config, env := DataConfig(TEST_ONLY, 1, 65536), WideCollaborators();
    var h := HeaderFor(config, env.ciphers[0], 1);
    var nonce := Next(env.script, 0x1_0000).bytes;
    DecodeDataInverts(h, nonce + [] + [42]);
    assert EncodeData(h) + nonce + [] + [42] == EncodeData(h) + (nonce + [] + [42]);
  }

  /**
   A node that has sent and delivered an envelope is given its own configuration again. Window and
   counter start over and the same envelope is delivered a second time; all an observer from the
   start hears is that the configuration changed.
   */
  lemma SameSessionResetIsSilent()
    ensures var env, st := Collaborators(1, Zeros(16), Zeros(12)), RegisterObserver(FirstState(1, 1, 1), true, true);
            var sent := Protect(st, env, 7, Span([42]));
            var once := Unprotect(sent.state, env, 7, Span(sent.output));
            var reset := SetConfig(once.state, st.config);
            var again := Unprotect(reset, env, 7, Span(sent.output));
            once.result == Ok(true) && once.state.nextSequence == 2 && |once.state.replay.states| == 1 &&
            reset.nextSequence == 1 && reset.replay.states == [] &&
            again.result == Ok(true) && again.payload == once.payload &&
            again.state.observed == Some([ConfigurationChanged(st.config, st.config)])
  {
    hide Protect, Unprotect, Accepts, Record, Collaborators;
    var env, st := Collaborators(1, Zeros(16), Zeros(12)), RegisterObserver(FirstState(1, 1, 1), true, true);
    var h, cipher := FirstProtect(st, 1, Zeros(16), Zeros(12), 1, 1, 7, [42]);
    var sent := Protect(st, env, 7, Span([42]));
    var once := Unprotect(sent.state, env, 7, Span(sent.output));
    ArrivesOnce(st, env, 7, [42], sent.state, h, cipher, Zeros(16));
    AcceptedOnce(64, PacketOf(h));
    ArrivesOnce(st, env, 7, [42], SetConfig(once.state, st.config), h, cipher, Zeros(16));
    var change := ConfigurationChanged(st.config, st.config);
    assert once.state.observed == Some([]) && [] + [change] == [change];
  }
}
