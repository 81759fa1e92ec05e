/** What single Protect and Unprotect calls promise each other. */
module TransportProperties {
  import opened Bytes
  import opened Aead
  import opened Randomness
  import opened ReplayWindows
  import opened TransportHeader
  import opened TransportModel

  /** What every reachable state satisfies. */
  ghost predicate Reachable(st: State) {
    (st.sessionReady <==> st.sessionID != 0) &&
    st.nextSequence >= 1 &&
    st.replay.size == Clamp(st.config.replayWindowSize) &&
    (st.config.sessionID != 0 ==> st.sessionID == st.config.sessionID)
  }

  lemma {:induction false} DrawnSession(st: State, script: seq<Draw>, attempts: nat)
    requires !st.sessionReady && st.sessionID == 0
    ensures var drawn := DrawSession(st, script, attempts);
            (drawn.ready ==> drawn.state.sessionID != 0 && drawn.state == Establish(st, drawn.state.sessionID)) &&
            (!drawn.ready ==> drawn.state == st)
  {
    if attempts > 0 && Next(script, 8).ok && Candidate(Next(script, 8)) == 0 {
      DrawnSession(st, Rest(script), attempts - 1);
    }
  }

  /** EnsureSessionID keeps a session that is there, and otherwise makes a non-zero one or changes nothing. */
  lemma SessionEnsured(st: State, script: seq<Draw>)
    requires Reachable(st)
    ensures var session := EnsureSession(st, script);
            (st.sessionReady ==> session.state == st && session.ready) &&
            (!st.sessionReady && session.ready ==>
              session.state == Establish(st, session.state.sessionID)) &&
            (session.ready ==> session.state.sessionID != 0) &&
            (!session.ready ==> session.state == st) &&
            Reachable(session.state) && session.state.nextSequence == st.nextSequence
  {
    if !st.sessionReady && st.config.sessionID == 0 {
      DrawnSession(st, script, 4);
    }
  }

  /** The call returned an envelope: `h` is the header it wrote and `cipher` the one it used. */
  ghost predicate Sent(st: State, env: Environment, protocol: byte, plaintext: Span, h: Header, cipher: AeadCipher) {
    var outcome := Protect(st, env, protocol, plaintext);
    var ref := KeyRef(st.config.outboundKeyID, st.config.outboundAlgorithm);
    outcome.result == Ok(true) &&
    FindCipher(env.ciphers, st.config.outboundAlgorithm) == Some(cipher) && ref in env.keys &&
    |env.keys[ref]| == cipher.keySize &&
    |plaintext.Data()| <= 0xFFFF_FFFF && cipher.nonceSize <= 0xFF && cipher.tagSize <= 0xFF &&
    h == Header(ENVELOPE_MAGIC, ENVELOPE_VERSION, st.config.outboundAlgorithm, 0, protocol,
                st.config.outboundKeyID, st.config.senderID, outcome.state.sessionID, st.nextSequence,
                cipher.nonceSize, cipher.tagSize, 0, |plaintext.Data()|) &&
    h.sessionID != 0 && 1 <= h.sequence < UINT64_MAX &&
    outcome.state.nextSequence == h.sequence + 1 && outcome.sequence == Some(h.sequence)
  }

  /** The four slices the receiver cuts out of an envelope, in wire order, are the whole of it. */
  lemma PartitionIsExact(input: seq<byte>, h: Header)
    requires |input| == ExpectedSize(h)
    ensures input == input[..FIXED_HEADER_SIZE] + NonceOf(input, h) + CiphertextOf(input, h) + TagOf(input, h)
    ensures |NonceOf(input, h)| == h.nonceLength && |CiphertextOf(input, h)| == h.ciphertextLength && |TagOf(input, h)| == h.tagLength
  {
  }

  /** The receiver's slices of header, nonce, ciphertext and tag written one after the other are those four. */
  lemma SlicesOfParts(h: Header, nonce: seq<byte>, ciphertext: seq<byte>, tag: seq<byte>)
    requires |nonce| == h.nonceLength && |ciphertext| == h.ciphertextLength && |tag| == h.tagLength
    ensures var envelope := Encode(h) + nonce + ciphertext + tag;
            |envelope| == ExpectedSize(h) && envelope[..FIXED_HEADER_SIZE] == Encode(h) &&
            Decode(envelope) == h && NonceOf(envelope, h) == nonce &&
            CiphertextOf(envelope, h) == ciphertext && TagOf(envelope, h) == tag
  {
    assert Encode(h) + nonce + ciphertext + tag == Encode(h) + (nonce + ciphertext + tag);
    DecodeInvertsEncode(h, nonce + ciphertext + tag);
  }

  lemma MagicLooksProtected(h: Header, rest: seq<byte>)
    ensures LooksProtected(Encode(h) + rest) <==> h.magic == ENVELOPE_MAGIC
  {
    DecodeInvertsEncode(h, rest);
  }

  /** The cipher call behind an envelope: what was sealed, and that its parts make up the output. */
  ghost predicate SealedInto(outcome: ProtectOutcome, h: Header, cipher: AeadCipher, key: seq<byte>, data: seq<byte>) {
    outcome.sealed.Some? &&
    var call := outcome.sealed.value;
    call.algorithm == h.algorithm && call.key == key && call.aad == Encode(h) && call.plaintext == data &&
    |call.nonce| == h.nonceLength && |call.ciphertext| == h.ciphertextLength && |call.tag| == h.tagLength &&
    cipher.seal(key, call.nonce, Encode(h), data) == Some(Sealed(call.ciphertext, call.tag)) &&
    outcome.output == Encode(h) + call.nonce + call.ciphertext + call.tag
  }

  lemma SealNextSeals(st: State, env: Environment, protocol: byte, data: seq<byte>, cipher: AeadCipher, key: seq<byte>)
    requires SealNext(st, env, protocol, data, cipher, key).result == Ok(true)
    ensures cipher.nonceSize <= 0xFF && cipher.tagSize <= 0xFF && |data| <= 0xFFFF_FFFF
    ensures var outcome := SealNext(st, env, protocol, data, cipher, key);
            SealedInto(outcome, OutboundHeader(st, protocol, cipher, |data|), cipher, key, data) &&
            1 <= st.nextSequence < UINT64_MAX && outcome.sequence == Some(st.nextSequence) &&
            outcome.state == st.(nextSequence := st.nextSequence + 1)
  {
    hide Encode;
  }

  lemma ProtectSeals(st: State, env: Environment, protocol: byte, plaintext: Span) returns (h: Header, cipher: AeadCipher)
    requires Reachable(st)
    requires Protect(st, env, protocol, plaintext).result == Ok(true)
    ensures Sent(st, env, protocol, plaintext, h, cipher)
    ensures SealedInto(Protect(st, env, protocol, plaintext), h, cipher,
                       env.keys[KeyRef(h.keyID, h.algorithm)], plaintext.Data())
  {
    hide SealNext, EnsureSession, SealedInto, Reachable;
    var session := EnsureSession(st, env.script);
    SessionEnsured(st, env.script);
    SessionKeepsConfig(st, env.script);
    cipher := FindCipher(env.ciphers, st.config.outboundAlgorithm).value;
    var key := env.keys[KeyRef(st.config.outboundKeyID, st.config.outboundAlgorithm)];
    SealNextSeals(session.state, env.(script := session.script), protocol, plaintext.Data(), cipher, key);
    h := OutboundHeader(session.state, protocol, cipher, |plaintext.Data()|);
  }

  lemma SessionKeepsConfig(st: State, script: seq<Draw>)
    ensures EnsureSession(st, script).state.config == st.config
  {
    DrawKeepsConfig(st, script, 4);
  }

  lemma {:induction false} DrawKeepsConfig(st: State, script: seq<Draw>, attempts: nat)
    ensures DrawSession(st, script, attempts).state.config == st.config
  {
    if attempts > 0 {
      DrawKeepsConfig(st, Rest(script), attempts - 1);
    }
  }

  /** The receiver reads the header back and cuts the very parts that were sealed out of the envelope. */
  ghost predicate CutsBack(outcome: ProtectOutcome, h: Header) {
    |outcome.output| == ExpectedSize(h) && Decode(outcome.output) == h && LooksProtected(outcome.output) &&
    outcome.sealed.Some? &&
    outcome.output[..FIXED_HEADER_SIZE] == outcome.sealed.value.aad &&
    NonceOf(outcome.output, h) == outcome.sealed.value.nonce &&
    CiphertextOf(outcome.output, h) == outcome.sealed.value.ciphertext &&
    TagOf(outcome.output, h) == outcome.sealed.value.tag
  }

  lemma SealedCutsBack(outcome: ProtectOutcome, h: Header, cipher: AeadCipher, key: seq<byte>, data: seq<byte>)
    requires SealedInto(outcome, h, cipher, key, data) && h.magic == ENVELOPE_MAGIC
    ensures CutsBack(outcome, h)
  {
    hide Encode, Decode, LooksProtected;
    var call := outcome.sealed.value;
    SlicesOfParts(h, call.nonce, call.ciphertext, call.tag);
    assert outcome.output == Encode(h) + (call.nonce + call.ciphertext + call.tag);
    MagicLooksProtected(h, call.nonce + call.ciphertext + call.tag);
  }

  /** A Protected result carries the documented header, and the sender's offsets are the receiver's slices. */
  lemma EnvelopeShape(st: State, env: Environment, protocol: byte, plaintext: Span) returns (h: Header, cipher: AeadCipher)
    requires Reachable(st)
    requires Protect(st, env, protocol, plaintext).result == Ok(true)
    ensures Sent(st, env, protocol, plaintext, h, cipher)
    ensures SealedInto(Protect(st, env, protocol, plaintext), h, cipher,
                       env.keys[KeyRef(h.keyID, h.algorithm)], plaintext.Data())
    ensures CutsBack(Protect(st, env, protocol, plaintext), h)
  {
    hide Protect, Encode, Decode;
    h, cipher := ProtectSeals(st, env, protocol, plaintext);
    SealedCutsBack(Protect(st, env, protocol, plaintext), h, cipher,
                   env.keys[KeyRef(h.keyID, h.algorithm)], plaintext.Data());
  }

  /** What the receiver needs to open an envelope of this sender: cipher, key, and cipher correctness. */
  ghost predicate CanOpen(env: Environment, h: Header, cipher: AeadCipher, key: seq<byte>) {
    var ref := KeyRef(h.keyID, h.algorithm);
    FindCipher(env.ciphers, h.algorithm) == Some(cipher) && ref in env.keys && env.keys[ref] == key && Inverts(cipher)
  }

  /** What can be held against a genuine envelope, in the order in which the receiver finds it. */
  function Verdict(r: State, expected: byte, h: Header): SecurityResult {
    if h.ciphertextLength > r.config.maximumPlaintextBytes then Fail(BufferLimitExceeded)
    else if h.keyID == 0 then Fail(MalformedEnvelope)
    else if !Accepts(r.replay, PacketOf(h)) then Fail(ReplayDetected)
    else if h.protocol != expected then Fail(ProtocolMismatch)
    else Ok(true)
  }

  /**
   Transport round trip, exactly when: a receiver with the sender's cipher and key delivers the
   envelope if and only if the key ID is not zero, the data fits its limit, the protocol is the
   one it expects and its window accepts the packet. What it delivers is the original data with
   every metadata field; what it refuses, it refuses for the first of these. The receiver's policy
   plays no part.
   */
  lemma TransportRoundTrip(st: State, env: Environment, protocol: byte, plaintext: Span,
                           r: State, env': Environment, expected: byte)
    returns (h: Header, cipher: AeadCipher)
    requires Reachable(st)
    requires Protect(st, env, protocol, plaintext).result == Ok(true)
    ensures Sent(st, env, protocol, plaintext, h, cipher)
    ensures CanOpen(env', h, cipher, env.keys[KeyRef(h.keyID, h.algorithm)]) ==>
            var received := Unprotect(r, env', expected, Span(Protect(st, env, protocol, plaintext).output));
            (received.result == Ok(true) <==>
              h.keyID != 0 && |plaintext.Data()| <= r.config.maximumPlaintextBytes &&
              expected == protocol && Accepts(r.replay, PacketOf(h))) &&
            (!received.result.success ==> received.result == Verdict(r, expected, h)) &&
            (received.result.success ==>
              received.result == Ok(true) && received.payload == PayloadOf(h, plaintext.Data()) &&
              received.state == r.(replay := Record(r.replay, PacketOf(h))))
  {
    hide Protect, Unprotect, Encode, Decode;
    h, cipher := EnvelopeShape(st, env, protocol, plaintext);
    var key := env.keys[KeyRef(h.keyID, h.algorithm)];
    if CanOpen(env', h, cipher, key) {
      var sent := Protect(st, env, protocol, plaintext);
      var call := sent.sealed.value;
      assert cipher.open(key, call.nonce, Encode(h), call.ciphertext, call.tag) == Some(plaintext.Data());
      EnvelopeOpens(r, env', expected, sent.output, h, cipher, key, plaintext.Data());
    }
  }

  lemma EnvelopeOpens(r: State, env: Environment, expected: byte, input: seq<byte>, h: Header,
                      cipher: AeadCipher, key: seq<byte>, data: seq<byte>)
    requires |input| == ExpectedSize(h) && Decode(input) == h && LooksProtected(input)
    requires h.magic == ENVELOPE_MAGIC && h.version == ENVELOPE_VERSION && h.sessionID != 0 && h.sequence != 0
    requires h.nonceLength == cipher.nonceSize && h.tagLength == cipher.tagSize && |key| == cipher.keySize
    requires FindCipher(env.ciphers, h.algorithm) == Some(cipher)
    requires KeyRef(h.keyID, h.algorithm) in env.keys && env.keys[KeyRef(h.keyID, h.algorithm)] == key
    requires cipher.open(key, NonceOf(input, h), input[..FIXED_HEADER_SIZE], CiphertextOf(input, h), TagOf(input, h)) == Some(data)
    ensures var received := Unprotect(r, env, expected, Span(input));
            (received.result == Ok(true) <==>
              h.keyID != 0 && h.ciphertextLength <= r.config.maximumPlaintextBytes &&
              expected == h.protocol && Accepts(r.replay, PacketOf(h))) &&
            received.result == Verdict(r, expected, h) &&
            (received.result.success ==>
              received.result == Ok(true) && received.payload == PayloadOf(h, data) &&
              received.state == r.(replay := Record(r.replay, PacketOf(h))))
  {
    hide Decode, Accepts, Record;
  }

  // ----- Acceptance, stated over the envelope grammar -----

  /** `input` is written as header, nonce, ciphertext and tag, and the receiver has every reason to take it. */
  ghost predicate Deliverable(st: State, env: Environment, expected: byte, input: seq<byte>,
                              h: Header, nonce: seq<byte>, ciphertext: seq<byte>, tag: seq<byte>, data: seq<byte>) {
    input == Encode(h) + nonce + ciphertext + tag &&
    h.magic == ENVELOPE_MAGIC && h.version == ENVELOPE_VERSION &&
    |nonce| == h.nonceLength && |ciphertext| == h.ciphertextLength && |tag| == h.tagLength &&
    h.keyID != 0 && h.sessionID != 0 && h.sequence != 0 && h.protocol == expected &&
    |data| <= st.config.maximumPlaintextBytes && Accepts(st.replay, PacketOf(h)) &&
    var cipher, ref := FindCipher(env.ciphers, h.algorithm), KeyRef(h.keyID, h.algorithm);
    cipher.Some? && |nonce| == cipher.value.nonceSize && |tag| == cipher.value.tagSize &&
    ref in env.keys && |env.keys[ref]| == cipher.value.keySize &&
    cipher.value.open(env.keys[ref], nonce, Encode(h), ciphertext, tag) == Some(data)
  }

  /** Every deliverable input is delivered, with the fields of its header. */
  lemma DeliverableIsDelivered(st: State, env: Environment, expected: byte, input: seq<byte>,
                               h: Header, nonce: seq<byte>, ciphertext: seq<byte>, tag: seq<byte>, data: seq<byte>)
    requires Deliverable(st, env, expected, input, h, nonce, ciphertext, tag, data)
    ensures var received := Unprotect(st, env, expected, Span(input));
            received.result == Ok(true) && received.payload == PayloadOf(h, data) &&
            received.state == st.(replay := Record(st.replay, PacketOf(h)))
  {
    hide Unprotect, Encode, Decode, LooksProtected;
    SlicesOfParts(h, nonce, ciphertext, tag);
    assert input == Encode(h) + (nonce + ciphertext + tag);
    MagicLooksProtected(h, nonce + ciphertext + tag);
    var cipher := FindCipher(env.ciphers, h.algorithm).value;
    EnvelopeOpens(st, env, expected, input, h, cipher, env.keys[KeyRef(h.keyID, h.algorithm)], data);
  }

  /** Whatever is delivered as protected was deliverable, and opened the cipher on exactly its parts. */
  lemma DeliveredWasDeliverable(st: State, env: Environment, expected: byte, input: Span)
    returns (h: Header, nonce: seq<byte>, ciphertext: seq<byte>, tag: seq<byte>, data: seq<byte>)
    requires Unprotect(st, env, expected, input).result == Ok(true)
    ensures Deliverable(st, env, expected, input.Data(), h, nonce, ciphertext, tag, data)
    ensures var received := Unprotect(st, env, expected, input);
            received.payload == PayloadOf(h, data) &&
            received.state == st.(replay := Record(st.replay, PacketOf(h))) &&
            received.unsealed == Some(CipherCall(h.algorithm, env.keys[KeyRef(h.keyID, h.algorithm)],
                                                 nonce, Encode(h), ciphertext, tag, data))
  {
    hide Encode, Decode, Accepts, Record;
    var bytes := input.Data();
    h := Decode(bytes);
    nonce, ciphertext, tag := NonceOf(bytes, h), CiphertextOf(bytes, h), TagOf(bytes, h);
    data := Unprotect(st, env, expected, input).payload.data;
    EncodeInvertsDecode(bytes);
    PartitionIsExact(bytes, h);
  }

  // ----- Failures -----

  /** If the call failed, it returned the default payload and left nothing behind but its report. */
  ghost predicate IsInvisible(st: State, received: UnprotectOutcome) {
    !received.result.success ==>
      received.payload == EMPTY_PAYLOAD && received.state == Notify(st, Failure(received.result)) &&
      received.state.(observed := st.observed) == st
  }

  lemma RefusalIsInvisible(st: State)
    ensures forall error :: IsInvisible(st, UnprotectFails(st, error)) && !UnprotectFails(st, error).result.success
  {
  }

  lemma DeliveryIsInvisible(st: State, expected: byte, input: seq<byte>, h: Header, cipher: AeadCipher, key: seq<byte>)
    requires |input| == ExpectedSize(h)
    ensures IsInvisible(st, Deliver(st, expected, input, h, cipher, key))
  {
    hide Record, NonceOf, CiphertextOf, TagOf;
  }

  lemma OpeningIsInvisible(st: State, env: Environment, expected: byte, input: seq<byte>, h: Header)
    requires |input| >= FIXED_HEADER_SIZE
    ensures IsInvisible(st, OpenEnvelope(st, env, expected, input, h))
  {
    hide Accepts, UnprotectFails, Deliver, IsInvisible;
    RefusalIsInvisible(st);
    var cipher, ref := FindCipher(env.ciphers, h.algorithm), KeyRef(h.keyID, h.algorithm);
    if |input| == ExpectedSize(h) && cipher.Some? && ref in env.keys {
      DeliveryIsInvisible(st, expected, input, h, cipher.value, env.keys[ref]);
    }
  }

  /** A failing Unprotect returns the default payload and leaves nothing behind but its report. */
  lemma FailedUnprotectIsInvisible(st: State, env: Environment, expected: byte, input: Span)
    ensures var received := Unprotect(st, env, expected, input);
            !received.result.success ==>
              received.payload == EMPTY_PAYLOAD && received.state == Notify(st, Failure(received.result)) &&
              received.state.(observed := st.observed) == st
  {
    hide Decode, UnprotectFails, OpenEnvelope, LooksProtected;
    RefusalIsInvisible(st);
    if |input.Data()| >= FIXED_HEADER_SIZE {
      OpeningIsInvisible(st, env, expected, input.Data(), Decode(input.Data()));
    }
  }

  /** The reasons for refusing an input, in order of precedence. */
  datatype Reason =
    | NullInput | PlaintextWhereRequired | Truncated | OtherVersion | TooLarge | WrongLength | ZeroIdentifier
    | UnknownAlgorithm | WrongCipherSizes | Replayed | NoKey | WrongKeySize | NotAuthentic | OtherProtocol

  function Rank(reason: Reason): nat {
    match reason
    case NullInput => 0
    case PlaintextWhereRequired => 1
    case Truncated => 2
    case OtherVersion => 3
    case TooLarge => 4
    case WrongLength => 5
    case ZeroIdentifier => 6
    case UnknownAlgorithm => 7
    case WrongCipherSizes => 8
    case Replayed => 9
    case NoKey => 10
    case WrongKeySize => 11
    case NotAuthentic => 12
    case OtherProtocol => 13
  }

  function ErrorFor(reason: Reason): SecurityError {
    match reason
    case NullInput => InvalidArgument
    case PlaintextWhereRequired => PlaintextRejected
    case OtherVersion => UnsupportedVersion
    case TooLarge => BufferLimitExceeded
    case UnknownAlgorithm => UnsupportedAlgorithm
    case Replayed => ReplayDetected
    case NoKey => MissingKey
    case WrongKeySize => InvalidKeyLength
    case NotAuthentic => AuthenticationFailed
    case OtherProtocol => ProtocolMismatch
    case Truncated | WrongLength | ZeroIdentifier | WrongCipherSizes => MalformedEnvelope
  }

  /** Whether a reason holds; those about header fields hold of envelopes with a whole header only. */
  ghost predicate Applies(reason: Reason, st: State, env: Environment, expected: byte, input: Span) {
    var bytes := input.Data();
    match reason
    case NullInput => input.NullSpan? && input.size > 0
    case PlaintextWhereRequired => st.config.policy == Required && !LooksProtected(bytes)
    case Truncated => LooksProtected(bytes) && |bytes| < FIXED_HEADER_SIZE
    case _ => LooksProtected(bytes) && |bytes| >= FIXED_HEADER_SIZE && AppliesTo(reason, st, env, expected, bytes, Decode(bytes))
  }

  ghost predicate AppliesTo(reason: Reason, st: State, env: Environment, expected: byte, bytes: seq<byte>, h: Header) {
    var cipher, ref := FindCipher(env.ciphers, h.algorithm), KeyRef(h.keyID, h.algorithm);
    match reason
    case OtherVersion => h.version != ENVELOPE_VERSION
    case TooLarge => h.ciphertextLength > st.config.maximumPlaintextBytes
    case WrongLength => |bytes| != ExpectedSize(h)
    case ZeroIdentifier => h.sessionID == 0 || h.sequence == 0 || h.keyID == 0
    case UnknownAlgorithm => cipher.None?
    case WrongCipherSizes => cipher.Some? && (h.nonceLength != cipher.value.nonceSize || h.tagLength != cipher.value.tagSize)
    case Replayed => !Accepts(st.replay, PacketOf(h))
    case NoKey => ref !in env.keys
    case WrongKeySize => cipher.Some? && ref in env.keys && |env.keys[ref]| != cipher.value.keySize
    case NotAuthentic =>
      |bytes| == ExpectedSize(h) && cipher.Some? && ref in env.keys &&
      !exists data :: IsAuthentic(cipher.value, env.keys[ref], bytes, h, data)
    case OtherProtocol => h.protocol != expected
    case _ => false
  }

  /** The envelope is `data` sealed with its own nonce and header. */
  ghost predicate IsAuthentic(cipher: AeadCipher, key: seq<byte>, bytes: seq<byte>, h: Header, data: seq<byte>)
    requires |bytes| == ExpectedSize(h)
  {
    exists nonce, ciphertext, tag ::
      |nonce| == h.nonceLength && |ciphertext| == h.ciphertextLength && |tag| == h.tagLength &&
      bytes == bytes[..FIXED_HEADER_SIZE] + nonce + ciphertext + tag &&
      cipher.open(key, nonce, bytes[..FIXED_HEADER_SIZE], ciphertext, tag) == Some(data)
  }

  /** Only the slices the receiver takes can be the parts of an envelope. */
  lemma PartsAreSlices(bytes: seq<byte>, h: Header, nonce: seq<byte>, ciphertext: seq<byte>, tag: seq<byte>)
    requires |bytes| == ExpectedSize(h)
    requires |nonce| == h.nonceLength && |ciphertext| == h.ciphertextLength && |tag| == h.tagLength
    requires bytes == bytes[..FIXED_HEADER_SIZE] + nonce + ciphertext + tag
    ensures nonce == NonceOf(bytes, h) && ciphertext == CiphertextOf(bytes, h) && tag == TagOf(bytes, h)
  {
    var front := bytes[..FIXED_HEADER_SIZE] + nonce;
    assert bytes == front + (ciphertext + tag) && bytes == (front + ciphertext) + tag;
  }

  lemma AuthenticSlices(cipher: AeadCipher, key: seq<byte>, bytes: seq<byte>, h: Header, data: seq<byte>)
    requires |bytes| == ExpectedSize(h)
    ensures IsAuthentic(cipher, key, bytes, h, data) <==>
            cipher.open(key, NonceOf(bytes, h), bytes[..FIXED_HEADER_SIZE], CiphertextOf(bytes, h), TagOf(bytes, h)) == Some(data)
  {
    hide NonceOf, CiphertextOf, TagOf;
    PartitionIsExact(bytes, h);
    if IsAuthentic(cipher, key, bytes, h, data) {
      var nonce, ciphertext, tag :|
        |nonce| == h.nonceLength && |ciphertext| == h.ciphertextLength && |tag| == h.tagLength &&
        bytes == bytes[..FIXED_HEADER_SIZE] + nonce + ciphertext + tag &&
        cipher.open(key, nonce, bytes[..FIXED_HEADER_SIZE], ciphertext, tag) == Some(data);
      PartsAreSlices(bytes, h, nonce, ciphertext, tag);
    }
  }

  /** The reason applies and none of higher precedence does. */
  ghost predicate Decides(reason: Reason, st: State, env: Environment, expected: byte, input: Span) {
    Applies(reason, st, env, expected, input) &&
    forall other :: Rank(other) < Rank(reason) ==> !Applies(other, st, env, expected, input)
  }

  /**
   Every input is refused for the first reason that applies to it, with that reason's error, and an
   input to which none applies is taken: the reasons are exact, exhaustive and in order.
   */
  lemma ErrorNamesItsCause(st: State, env: Environment, expected: byte, input: Span) returns (reason: Option<Reason>)
    ensures var received := Unprotect(st, env, expected, input);
            if received.result.success then
              reason.None? && received.result.error == NoError &&
              forall r :: !Applies(r, st, env, expected, input)
            else
              reason.Some? && Decides(reason.value, st, env, expected, input) &&
              received.result == Fail(ErrorFor(reason.value))
  {
    hide Unprotect, Decode, LooksProtected, Decides, Applies;
    var bytes := input.Data();
    if LooksProtected(bytes) && |bytes| >= FIXED_HEADER_SIZE {
      MagicIsRead(bytes);
      reason := EnvelopeCause(st, env, expected, bytes, Decode(bytes));
      WholeEnvelope(st, env, expected, input, reason);
    } else {
      reason := EarlyCause(st, env, expected, input);
    }
  }

  lemma EarlyCause(st: State, env: Environment, expected: byte, input: Span) returns (reason: Option<Reason>)
    requires !(LooksProtected(input.Data()) && |input.Data()| >= FIXED_HEADER_SIZE)
    ensures var received := Unprotect(st, env, expected, input);
            if received.result.success then
              reason.None? && received.result.error == NoError &&
              forall r :: !Applies(r, st, env, expected, input)
            else
              reason.Some? && Decides(reason.value, st, env, expected, input) &&
              received.result == Fail(ErrorFor(reason.value))
  {
    hide Decode, AppliesTo, LooksProtected;
    reason :=
      if input.Dangling() then Some(NullInput)
      else if LooksProtected(input.Data()) then Some(Truncated)
      else if st.config.policy == Required then Some(PlaintextWhereRequired)
      else None;
  }

  /** The first reason that concerns the header fields of an envelope, or none. */
  ghost function EnvelopeReason(st: State, env: Environment, expected: byte, bytes: seq<byte>, h: Header): Option<Reason> {
    var cipher, ref := FindCipher(env.ciphers, h.algorithm), KeyRef(h.keyID, h.algorithm);
    if h.version != ENVELOPE_VERSION then Some(OtherVersion)
    else if h.ciphertextLength > st.config.maximumPlaintextBytes then Some(TooLarge)
    else if |bytes| != ExpectedSize(h) then Some(WrongLength)
    else if h.sessionID == 0 || h.sequence == 0 || h.keyID == 0 then Some(ZeroIdentifier)
    else if cipher.None? then Some(UnknownAlgorithm)
    else if h.nonceLength != cipher.value.nonceSize || h.tagLength != cipher.value.tagSize then Some(WrongCipherSizes)
    else if !Accepts(st.replay, PacketOf(h)) then Some(Replayed)
    else if ref !in env.keys then Some(NoKey)
    else if |env.keys[ref]| != cipher.value.keySize then Some(WrongKeySize)
    else if !exists data :: IsAuthentic(cipher.value, env.keys[ref], bytes, h, data) then Some(NotAuthentic)
    else if h.protocol != expected then Some(OtherProtocol)
    else None
  }

  lemma EnvelopeReasonIsFirst(st: State, env: Environment, expected: byte, bytes: seq<byte>, h: Header)
    ensures var reason := EnvelopeReason(st, env, expected, bytes, h);
            if reason.None? then forall r :: !AppliesTo(r, st, env, expected, bytes, h)
            else AppliesTo(reason.value, st, env, expected, bytes, h) &&
                 forall r :: Rank(r) < Rank(reason.value) ==> !AppliesTo(r, st, env, expected, bytes, h)
  {
    hide Accepts, IsAuthentic, FindCipher, PacketOf;
  }

  lemma EnvelopeResult(st: State, env: Environment, expected: byte, bytes: seq<byte>, h: Header)
    requires |bytes| >= FIXED_HEADER_SIZE && h.magic == ENVELOPE_MAGIC
    ensures var received, reason := OpenEnvelope(st, env, expected, bytes, h), EnvelopeReason(st, env, expected, bytes, h);
            received.result == if reason.None? then Ok(true) else Fail(ErrorFor(reason.value))
  {
    hide Accepts, Record, IsAuthentic, NonceOf, CiphertextOf, TagOf;
    var cipher, ref := FindCipher(env.ciphers, h.algorithm), KeyRef(h.keyID, h.algorithm);
    if |bytes| == ExpectedSize(h) && cipher.Some? && ref in env.keys {
      AuthenticOpens(cipher.value, env.keys[ref], bytes, h);
    }
  }

  lemma EnvelopeCause(st: State, env: Environment, expected: byte, bytes: seq<byte>, h: Header) returns (reason: Option<Reason>)
    requires |bytes| >= FIXED_HEADER_SIZE && h.magic == ENVELOPE_MAGIC
    ensures var received := OpenEnvelope(st, env, expected, bytes, h);
            if received.result.success then
              reason.None? && received.result.error == NoError &&
              forall r :: !AppliesTo(r, st, env, expected, bytes, h)
            else
              reason.Some? && AppliesTo(reason.value, st, env, expected, bytes, h) &&
              (forall r :: Rank(r) < Rank(reason.value) ==> !AppliesTo(r, st, env, expected, bytes, h)) &&
              received.result == Fail(ErrorFor(reason.value))
  {
    hide OpenEnvelope, EnvelopeReason, AppliesTo, ErrorFor, Rank;
    reason := EnvelopeReason(st, env, expected, bytes, h);
    EnvelopeReasonIsFirst(st, env, expected, bytes, h);
    EnvelopeResult(st, env, expected, bytes, h);
  }

  lemma WholeEnvelope(st: State, env: Environment, expected: byte, input: Span, reason: Option<Reason>)
    requires LooksProtected(input.Data()) && |input.Data()| >= FIXED_HEADER_SIZE
    ensures Unprotect(st, env, expected, input) == OpenEnvelope(st, env, expected, input.Data(), Decode(input.Data()))
    ensures forall r :: Applies(r, st, env, expected, input) <==>
                        AppliesTo(r, st, env, expected, input.Data(), Decode(input.Data()))
    ensures Decode(input.Data()).magic == ENVELOPE_MAGIC
    ensures reason.Some? ==>
              (Decides(reason.value, st, env, expected, input) <==>
                AppliesTo(reason.value, st, env, expected, input.Data(), Decode(input.Data())) &&
                forall r :: Rank(r) < Rank(reason.value) ==> !AppliesTo(r, st, env, expected, input.Data(), Decode(input.Data())))
  {
    hide Decode, OpenEnvelope, LooksProtected;
    MagicIsRead(input.Data());
  }

  /** An envelope is authentic exactly when the cipher opens the slices the receiver takes. */
  lemma AuthenticOpens(cipher: AeadCipher, key: seq<byte>, bytes: seq<byte>, h: Header)
    requires |bytes| == ExpectedSize(h)
    ensures (exists data :: IsAuthentic(cipher, key, bytes, h, data)) <==>
            cipher.open(key, NonceOf(bytes, h), bytes[..FIXED_HEADER_SIZE], CiphertextOf(bytes, h), TagOf(bytes, h)).Some?
  {
    hide IsAuthentic, NonceOf, CiphertextOf, TagOf;
    var plaintext := cipher.open(key, NonceOf(bytes, h), bytes[..FIXED_HEADER_SIZE], CiphertextOf(bytes, h), TagOf(bytes, h));
    if plaintext.Some? {
      AuthenticSlices(cipher, key, bytes, h, plaintext.value);
    }
    if data :| IsAuthentic(cipher, key, bytes, h, data) {
      AuthenticSlices(cipher, key, bytes, h, data);
    }
  }

  /** What looks protected has the right magic: the magic half of the version check never fails. */
  lemma MagicIsRead(input: seq<byte>)
    requires LooksProtected(input) && |input| >= FIXED_HEADER_SIZE
    ensures Decode(input).magic == ENVELOPE_MAGIC
  {
  }

  // ----- Policy -----

  /** While the policy is Required, nothing leaves unprotected. */
  lemma RequiredSendsProtected(st: State, env: Environment, protocol: byte, plaintext: Span)
    requires st.config.policy == Required
    ensures var sent := Protect(st, env, protocol, plaintext);
            if sent.result.success then sent.result == Ok(true) else sent.output == []
  {
    hide Encode, EnsureSession;
  }

  /** While the policy is Required, nothing unprotected is accepted. */
  lemma RequiredAcceptsProtected(st: State, env: Environment, expected: byte, input: Span)
    requires st.config.policy == Required
    ensures var received := Unprotect(st, env, expected, input);
            received.result.success ==> received.result == Ok(true) && received.payload.isProtected
  {
    hide Decode, Accepts, Record;
  }

  /** The sender will not protect: it is told not to, or prefers to but lacks cipher or key. */
  predicate SendsPlaintext(st: State, env: Environment) {
    st.config.policy == Disabled ||
    (st.config.policy == Preferred &&
     (FindCipher(env.ciphers, st.config.outboundAlgorithm).None? ||
      KeyRef(st.config.outboundKeyID, st.config.outboundAlgorithm) !in env.keys))
  }

  /**
   Plaintext passes through a plaintext sender and a receiver that does not require protection
   unchanged if and only if it does not itself begin with the envelope magic.
   */
  lemma PlaintextRoundTrip(st: State, env: Environment, protocol: byte, data: seq<byte>,
                           r: State, env': Environment, expected: byte)
    requires SendsPlaintext(st, env) && |data| <= st.config.maximumPlaintextBytes
    requires r.config.policy != Required
    ensures var sent := Protect(st, env, protocol, Span(data));
            var received := Unprotect(r, env', expected, Span(sent.output));
            sent.result == Ok(false) && sent.state == st &&
            (received.result.success && received.payload.data == data <==> !LooksProtected(data)) &&
            (!LooksProtected(data) ==>
              received.result == Ok(false) && received.state == r &&
              received.payload == EMPTY_PAYLOAD.(protocol := expected, data := data))
  {
    if LooksProtected(data) && Unprotect(r, env', expected, Span(data)).result.success {
      var h, nonce, ciphertext, tag, inner := DeliveredWasDeliverable(r, env', expected, Span(data));
      assert |inner| < |data|;
    }
  }
}
