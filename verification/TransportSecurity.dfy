/** The values TransportSecurity works on, and what each of its operations does to them. */
module TransportModel {
  import opened Bytes
  import opened Aead
  import opened Randomness
  import opened ReplayWindows
  import opened TransportHeader

  datatype Policy = Disabled | Preferred | Required

  datatype SecurityError =
    | NoError | InvalidArgument | PlaintextRejected | MalformedEnvelope | UnsupportedVersion
    | UnsupportedAlgorithm | MissingKey | InvalidKeyLength | RandomFailure | EncryptionFailed
    | AuthenticationFailed | ProtocolMismatch | ReplayDetected | SequenceExhausted | BufferLimitExceeded

  datatype SecurityResult = SecurityResult(success: bool, isProtected: bool, error: SecurityError)

  function Ok(isProtected: bool): SecurityResult {
    SecurityResult(true, isProtected, NoError)
  }

  function Fail(error: SecurityError): SecurityResult {
    SecurityResult(false, false, error)
  }

  datatype Config = Config(
    policy: Policy, outboundAlgorithm: AeadAlgorithm, outboundKeyID: uint32, senderID: uint64,
    sessionID: uint64, maximumPlaintextBytes: uint64, replayWindowSize: uint64)

  datatype UnprotectedPayload = UnprotectedPayload(
    protocol: byte, keyID: uint32, senderID: uint64, sessionID: uint64, sequence: uint64,
    algorithm: AeadAlgorithm, isProtected: bool, data: seq<byte>)

  const EMPTY_PAYLOAD := UnprotectedPayload(0, 0, 0, 0, 0, 0, false, [])

  datatype KeyRef = KeyRef(keyID: uint32, algorithm: AeadAlgorithm)

  /** What an IKeyProvider answers: the bytes of every key it resolves. */
  type KeyTable = map<KeyRef, seq<byte>>

  datatype Notification =
    | ConfigurationChanged(before: Config, after: Config)
    | SessionReset(previous: uint64)
    | SessionEstablished(session: uint64)
    | ReplayProtectionReset
    | Failure(result: SecurityResult)

  /** The fields of a TransportSecurity; `observed` is the notification log, once an observer exists. */
  datatype State = State(
    config: Config, replay: Window, sessionID: uint64, nextSequence: uint64, sessionReady: bool,
    observed: Option<seq<Notification>>)

  /** The collaborators during one call, and whether the output buffer can be materialized. */
  datatype Environment = Environment(ciphers: seq<AeadCipher>, keys: KeyTable, script: seq<Draw>, canAllocate: bool)

  function Notify(st: State, n: Notification): State {
    if st.observed.Some? then st.(observed := Some(st.observed.value + [n])) else st
  }

  function Initial(config: Config): State {
    State(config, Window(Clamp(config.replayWindowSize), []), config.sessionID, 1, config.sessionID != 0, None)
  }

  // ----- EnsureSessionID -----

  datatype SessionOutcome = SessionOutcome(state: State, ready: bool, script: seq<Draw>)

  function Establish(st: State, session: uint64): State {
    Notify(st.(sessionID := session, sessionReady := true), SessionEstablished(session))
  }

  function Candidate(draw: Draw): uint64
    requires |draw.bytes| == 8
  {
    WordPowers();
    FromLittleEndian(draw.bytes)
  }

  function DrawSession(st: State, script: seq<Draw>, attempts: nat): SessionOutcome {
    if attempts == 0 then SessionOutcome(st, false, script)
    else
      var draw := Next(script, 8);
      if !draw.ok then SessionOutcome(st, false, Rest(script))
      else if Candidate(draw) != 0 then SessionOutcome(Establish(st, Candidate(draw)), true, Rest(script))
      else DrawSession(st, Rest(script), attempts - 1)
  }

  function EnsureSession(st: State, script: seq<Draw>): SessionOutcome {
    if st.sessionReady then SessionOutcome(st, true, script)
    else if st.config.sessionID != 0 then SessionOutcome(Establish(st, st.config.sessionID), true, script)
    else DrawSession(st, script, 4)
  }

  // ----- Protect -----

  /**
   What a Protect call returns and leaves behind. `sequence` is the number the call materialized and
   `sealed` the cipher call it made, if it got that far.
   */
  datatype ProtectOutcome = ProtectOutcome(
    state: State, result: SecurityResult, output: seq<byte>, script: seq<Draw>,
    sequence: Option<uint64>, sealed: Option<CipherCall>)

  function ProtectFails(st: State, error: SecurityError, script: seq<Draw>, sequence: Option<uint64>): ProtectOutcome {
    ProtectOutcome(Notify(st, Failure(Fail(error))), Fail(error), [], script, sequence, None)
  }

  function PassThrough(st: State, plaintext: Span, script: seq<Draw>): ProtectOutcome {
    ProtectOutcome(st, Ok(false), plaintext.Data(), script, None, None)
  }

  function Protect(st: State, env: Environment, protocol: byte, plaintext: Span): ProtectOutcome {
    if plaintext.Dangling() || plaintext.Size() > st.config.maximumPlaintextBytes then
      ProtectFails(st, InvalidArgument, env.script, None)
    else if st.config.policy == Disabled then
      PassThrough(st, plaintext, env.script)
    else
      var cipher := FindCipher(env.ciphers, st.config.outboundAlgorithm);
      var ref := KeyRef(st.config.outboundKeyID, st.config.outboundAlgorithm);
      if cipher.None? || ref !in env.keys then
        if st.config.policy == Preferred then PassThrough(st, plaintext, env.script)
        else ProtectFails(st, if cipher.None? then UnsupportedAlgorithm else MissingKey, env.script, None)
      else if |env.keys[ref]| != cipher.value.keySize then
        ProtectFails(st, InvalidKeyLength, env.script, None)
      else
        var session := EnsureSession(st, env.script);
        if !session.ready then ProtectFails(session.state, RandomFailure, session.script, None)
        else SealNext(session.state, env.(script := session.script), protocol, plaintext.Data(), cipher.value, env.keys[ref])
  }

  /** The header the sender writes for its next envelope. */
  function OutboundHeader(st: State, protocol: byte, cipher: AeadCipher, size: uint32): Header
    requires cipher.nonceSize <= 0xFF && cipher.tagSize <= 0xFF
  {
    Header(ENVELOPE_MAGIC, ENVELOPE_VERSION, cipher.algorithm, 0, protocol,
           st.config.outboundKeyID, st.config.senderID, st.sessionID, st.nextSequence,
           cipher.nonceSize, cipher.tagSize, 0, size)
  }

  /** Protect from the sequence check on: the session is ready and cipher and key are at hand. */
  function SealNext(st: State, env: Environment, protocol: byte, data: seq<byte>, cipher: AeadCipher, key: seq<byte>): ProtectOutcome {
    if st.nextSequence == 0 || st.nextSequence == UINT64_MAX then
      ProtectFails(st, SequenceExhausted, env.script, None)
    else if cipher.nonceSize > 0xFF || cipher.tagSize > 0xFF || |data| > 0xFFFF_FFFF then
      ProtectFails(st, BufferLimitExceeded, env.script, None)
    else
      var sequence := Some(st.nextSequence);
      var st' := st.(nextSequence := st.nextSequence + 1);
      if !env.canAllocate then
        ProtectFails(st', BufferLimitExceeded, env.script, sequence)
      else
        FillEnvelope(st', env.script, Encode(OutboundHeader(st, protocol, cipher, |data|)), data, cipher, key, sequence)
  }

  /** Protect from the nonce on: the sequence is consumed and the header written. */
  function FillEnvelope(
    st: State, script: seq<Draw>, header: seq<byte>, data: seq<byte>, cipher: AeadCipher, key: seq<byte>,
    sequence: Option<uint64>): ProtectOutcome
  {
    var draw := Next(script, cipher.nonceSize);
    if !draw.ok then
      ProtectFails(st, RandomFailure, Rest(script), sequence)
    else
      var sealed := cipher.seal(key, draw.bytes, header, data);
      if sealed.None? then
        ProtectFails(st, EncryptionFailed, Rest(script), sequence)
      else
        var Sealed(ciphertext, tag) := sealed.value;
        ProtectOutcome(st, Ok(true), header + draw.bytes + ciphertext + tag, Rest(script), sequence,
          Some(CipherCall(cipher.algorithm, key, draw.bytes, header, ciphertext, tag, data)))
  }

  // ----- Unprotect -----

  /** What an Unprotect call returns and leaves behind; `unsealed` is the cipher call that succeeded, if any. */
  datatype UnprotectOutcome = UnprotectOutcome(
    state: State, result: SecurityResult, payload: UnprotectedPayload, unsealed: Option<CipherCall>)

  function UnprotectFails(st: State, error: SecurityError): UnprotectOutcome {
    UnprotectOutcome(Notify(st, Failure(Fail(error))), Fail(error), EMPTY_PAYLOAD, None)
  }

  function PacketOf(h: Header): Packet {
    Packet(Domain(h.senderID, h.keyID, h.sessionID), h.sequence)
  }

  function ExpectedSize(h: Header): nat {
    FIXED_HEADER_SIZE + h.nonceLength + h.ciphertextLength + h.tagLength
  }

  function Unprotect(st: State, env: Environment, expectedProtocol: byte, input: Span): UnprotectOutcome {
    if input.Dangling() then
      UnprotectFails(st, InvalidArgument)
    else if !LooksProtected(input.Data()) then
      if st.config.policy == Required then UnprotectFails(st, PlaintextRejected)
      else UnprotectOutcome(st, Ok(false), EMPTY_PAYLOAD.(protocol := expectedProtocol, data := input.Data()), None)
    else if input.Size() < FIXED_HEADER_SIZE then
      UnprotectFails(st, MalformedEnvelope)
    else
      OpenEnvelope(st, env, expectedProtocol, input.Data(), Decode(input.Data()))
  }

  /** Unprotect from the version check on: the input carries a whole header. */
  function OpenEnvelope(st: State, env: Environment, expectedProtocol: byte, input: seq<byte>, h: Header): UnprotectOutcome
    requires |input| >= FIXED_HEADER_SIZE
  {
    if h.magic != ENVELOPE_MAGIC || h.version != ENVELOPE_VERSION then
      UnprotectFails(st, if h.version != ENVELOPE_VERSION then UnsupportedVersion else MalformedEnvelope)
    else if h.ciphertextLength > st.config.maximumPlaintextBytes then
      UnprotectFails(st, BufferLimitExceeded)
    else if ExpectedSize(h) != |input| || h.sessionID == 0 || h.sequence == 0 || h.keyID == 0 then
      UnprotectFails(st, MalformedEnvelope)
    else
      var cipher := FindCipher(env.ciphers, h.algorithm);
      var ref := KeyRef(h.keyID, h.algorithm);
      if cipher.None? then
        UnprotectFails(st, UnsupportedAlgorithm)
      else if h.nonceLength != cipher.value.nonceSize || h.tagLength != cipher.value.tagSize then
        UnprotectFails(st, MalformedEnvelope)
      else if !Accepts(st.replay, PacketOf(h)) then
        UnprotectFails(st, ReplayDetected)
      else if ref !in env.keys then
        UnprotectFails(st, MissingKey)
      else if |env.keys[ref]| != cipher.value.keySize then
        UnprotectFails(st, InvalidKeyLength)
      else
        Deliver(st, expectedProtocol, input, h, cipher.value, env.keys[ref])
  }

  function NonceOf(input: seq<byte>, h: Header): seq<byte>
    requires |input| == ExpectedSize(h)
  {
    input[FIXED_HEADER_SIZE..FIXED_HEADER_SIZE + h.nonceLength]
  }

  function CiphertextOf(input: seq<byte>, h: Header): seq<byte>
    requires |input| == ExpectedSize(h)
  {
    input[FIXED_HEADER_SIZE + h.nonceLength..FIXED_HEADER_SIZE + h.nonceLength + h.ciphertextLength]
  }

  function TagOf(input: seq<byte>, h: Header): seq<byte>
    requires |input| == ExpectedSize(h)
  {
    input[FIXED_HEADER_SIZE + h.nonceLength + h.ciphertextLength..]
  }

  function PayloadOf(h: Header, data: seq<byte>): UnprotectedPayload {
    UnprotectedPayload(h.protocol, h.keyID, h.senderID, h.sessionID, h.sequence, h.algorithm, true, data)
  }

  /** Unprotect from the cipher call on. */
  function Deliver(st: State, expectedProtocol: byte, input: seq<byte>, h: Header, cipher: AeadCipher, key: seq<byte>): UnprotectOutcome
    requires |input| == ExpectedSize(h)
  {
    var nonce, aad, ciphertext, tag :=
      NonceOf(input, h), input[..FIXED_HEADER_SIZE], CiphertextOf(input, h), TagOf(input, h);
    var unsealed := cipher.open(key, nonce, aad, ciphertext, tag);
    if unsealed.None? then
      UnprotectFails(st, AuthenticationFailed)
    else
      var call := CipherCall(cipher.algorithm, key, nonce, aad, ciphertext, tag, unsealed.value);
      if h.protocol != expectedProtocol then
        UnprotectFails(st, ProtocolMismatch).(unsealed := Some(call))
      else
        UnprotectOutcome(st.(replay := Record(st.replay, PacketOf(h))), Ok(true), PayloadOf(h, unsealed.value), Some(call))
  }

  // ----- Configuration -----

  function SetConfig(st: State, config: Config): State {
    var previous, session := st.sessionID, config.sessionID;
    var st' := st.(config := config, replay := Window(Clamp(config.replayWindowSize), []),
                   nextSequence := 1, sessionID := session, sessionReady := session != 0);
    var changed := Notify(st', ConfigurationChanged(st.config, config));
    var reset := if previous != 0 && previous != session then Notify(changed, SessionReset(previous)) else changed;
    if session != 0 && session != previous then Notify(reset, SessionEstablished(session)) else reset
  }

  function ResetReplayProtection(st: State): State {
    Notify(st.(replay := st.replay.(states := [])), ReplayProtectionReset)
  }

  /** RegisterObserver: with a real observer the log comes into being unless its allocation fails. */
  function RegisterObserver(st: State, present: bool, materialized: bool): State {
    if present && st.observed.None? && materialized then st.(observed := Some([])) else st
  }
}

/** The TransportSecurity object, step by step as the source runs it. */
module TransportSecurities {
  import opened Bytes
  import opened Buffers
  import opened Aead
  import opened Randomness
  import opened ReplayWindows
  import opened TransportHeader
  import Model = TransportModel
  import opened TransportModel

  /** An IKeyProvider: `table` is what it resolves at the moment. */
  class KeyProvider {
    var table: KeyTable

    constructor (keys: KeyTable)
      ensures table == keys
    {
      table := keys;
    }

    method GetKey(keyID: uint32, algorithm: AeadAlgorithm) returns (found: bool, key: seq<byte>)
      ensures found <==> KeyRef(keyID, algorithm) in table
      ensures found ==> key == table[KeyRef(keyID, algorithm)]
      ensures !found ==> key == []
    {
      found := KeyRef(keyID, algorithm) in table;
      key := if found then table[KeyRef(keyID, algorithm)] else [];
    }
  }

  class TransportSecurity {
    const ciphers: AeadCipherRegistry
    const keys: KeyProvider
    const random: RandomSource
    var config: Config
    var replay: ReplayWindow
    var sessionID: uint64
    var nextSequence: uint64
    var sessionReady: bool
    var observed: Option<seq<Notification>>

    ghost function Value(): State
      reads this, replay
    {
      State(config, replay.Value(), sessionID, nextSequence, sessionReady, observed)
    }

    ghost function Around(canAllocate: bool): Environment
      reads ciphers, keys, random
    {
      Environment(ciphers.ciphers, keys.table, random.script, canAllocate)
    }

    constructor (ciphers: AeadCipherRegistry, keys: KeyProvider, random: RandomSource, config: Config)
      ensures this.ciphers == ciphers && this.keys == keys && this.random == random
      ensures fresh(replay)
      ensures Value() == Initial(config)
    {
      this.ciphers, this.keys, this.random := ciphers, keys, random;
      this.config := config;
      replay := new ReplayWindow(config.replayWindowSize);
      sessionID, nextSequence, sessionReady := config.sessionID, 1, config.sessionID != 0;
      observed := None;
    }

    method NotifyObservers(n: Notification)
      modifies this`observed
      ensures Value() == Notify(old(Value()), n)
    {
      if observed.Some? {
        observed := Some(observed.value + [n]);
      }
    }

    method ReportFailure(result: SecurityResult) returns (reported: SecurityResult)
      modifies this`observed
      ensures reported == result
      ensures Value() == Notify(old(Value()), Failure(result))
    {
      NotifyObservers(Failure(result));
      return result;
    }

    /** EnsureObservable: makes the log on first use. */
    method EnsureObservable(materialized: bool) returns (available: bool)
      modifies this`observed
      ensures Value() == Model.RegisterObserver(old(Value()), true, materialized)
      ensures available <==> observed.Some?
    {
      if observed.Some? {
        return true;
      }
      if materialized {
        observed := Some([]);
      }
      return materialized;
    }

    /** `present` says that the observer is not null; the handle that comes back is not null iff `registered`. */
    method RegisterObserver(present: bool, materialized: bool) returns (registered: bool)
      modifies this`observed
      ensures Value() == Model.RegisterObserver(old(Value()), present, materialized)
      ensures registered <==> present && (old(observed).Some? || materialized)
    {
      if !present {
        return false;
      }
      registered := EnsureObservable(materialized);
    }

    method EnsureSessionID() returns (ready: bool)
      modifies this`sessionID, this`sessionReady, this`observed, random
      ensures SessionOutcome(Value(), ready, random.script) == EnsureSession(old(Value()), old(random.script))
    {
      if sessionReady {
        return true;
      }
      if config.sessionID != 0 {
        sessionID, sessionReady := config.sessionID, true;
        NotifyObservers(SessionEstablished(sessionID));
        return true;
      }
      var attempt := 0;
      while attempt < 4
        invariant attempt <= 4
        invariant Value() == old(Value())
        invariant DrawSession(Value(), random.script, 4 - attempt) == EnsureSession(old(Value()), old(random.script))
      {
        var ok, bytes := random.Fill(8);
        if !ok {
          return false;
        }
        WordPowers();
        var candidate := FromLittleEndian(bytes);
        if candidate != 0 {
          sessionID, sessionReady := candidate, true;
          NotifyObservers(SessionEstablished(sessionID));
          return true;
        }
        attempt := attempt + 1;
      }
      return false;
    }

    method SetConfig(config: Config)
      modifies this
      ensures fresh(replay)
      ensures Value() == Model.SetConfig(old(Value()), config)
    {
      var before, previous := this.config, sessionID;
      this.config := config;
      replay := new ReplayWindow(config.replayWindowSize);
      nextSequence := 1;
      sessionID := config.sessionID;
      sessionReady := sessionID != 0;
      NotifyObservers(ConfigurationChanged(before, config));
      if previous != 0 && previous != sessionID {
        NotifyObservers(SessionReset(previous));
      }
      if sessionReady && sessionID != previous {
        NotifyObservers(SessionEstablished(sessionID));
      }
    }

    method ResetReplayProtection()
      modifies this`observed, replay
      ensures Value() == Model.ResetReplayProtection(old(Value()))
    {
      replay.Reset();
      NotifyObservers(ReplayProtectionReset);
    }

    method Protect(protocol: byte, plaintext: Span, canAllocate: bool, output: SecurityBuffer) returns (result: SecurityResult)
      modifies this`sessionID, this`sessionReady, this`nextSequence, this`observed, random, output
      ensures var outcome := Model.Protect(old(Value()), old(Around(canAllocate)), protocol, plaintext);
              Value() == outcome.state && result == outcome.result &&
              output.bytes == outcome.output && random.script == outcome.script
    {
      output.Clear();
      if plaintext.Dangling() || plaintext.Size() > config.maximumPlaintextBytes {
        result := ReportFailure(Fail(InvalidArgument));
        return;
      }
      if config.policy == Disabled {
        output.Assign(plaintext.Data());
        return Ok(false);
      }
      var cipher := ciphers.Find(config.outboundAlgorithm);
      var haveKey, key := keys.GetKey(config.outboundKeyID, config.outboundAlgorithm);
      if cipher.None? || !haveKey {
        if config.policy == Preferred {
          output.Assign(plaintext.Data());
          return Ok(false);
        }
        result := ReportFailure(Fail(if cipher.None? then UnsupportedAlgorithm else MissingKey));
        return;
      }
      if |key| != cipher.value.keySize {
        result := ReportFailure(Fail(InvalidKeyLength));
        return;
      }
      var ready := EnsureSessionID();
      if !ready {
        result := ReportFailure(Fail(RandomFailure));
        return;
      }
      result := SealInto(protocol, plaintext.Data(), cipher.value, key, canAllocate, output);
    }

    /** The rest of Protect, once session, cipher and key are at hand. */
    method SealInto(protocol: byte, data: seq<byte>, cipher: AeadCipher, key: seq<byte>, canAllocate: bool, output: SecurityBuffer)
      returns (result: SecurityResult)
      requires output.bytes == []
      modifies this`nextSequence, this`observed, random, output
      ensures var outcome := SealNext(old(Value()), old(Around(canAllocate)), protocol, data, cipher, key);
              Value() == outcome.state && result == outcome.result &&
              output.bytes == outcome.output && random.script == outcome.script
    {
      if nextSequence == 0 || nextSequence == UINT64_MAX {
        result := ReportFailure(Fail(SequenceExhausted));
        return;
      }
      if cipher.nonceSize > 0xFF || cipher.tagSize > 0xFF || |data| > 0xFFFF_FFFF {
        result := ReportFailure(Fail(BufferLimitExceeded));
        return;
      }
      var sequence := nextSequence;
      nextSequence := nextSequence + 1;
      var ciphertextOffset := FIXED_HEADER_SIZE + cipher.nonceSize;
      var tagOffset := ciphertextOffset + |data|;
      var totalSize := tagOffset + cipher.tagSize;
      if !canAllocate {
        var released := output.SecureErase();
        result := ReportFailure(Fail(BufferLimitExceeded));
        return;
      }
      WriteHeader(output, Header(
        ENVELOPE_MAGIC, ENVELOPE_VERSION, cipher.algorithm, 0, protocol,
        config.outboundKeyID, config.senderID, sessionID, sequence,
        cipher.nonceSize, cipher.tagSize, 0, |data|));
      assert |output.bytes| == FIXED_HEADER_SIZE;  // so the size-mismatch branch of the source is dead
      assert output.bytes == Encode(OutboundHeader(old(Value()), protocol, cipher, |data|));
      assert Value() == old(Value()).(nextSequence := sequence + 1);
      var released;
      result, released := FillOutput(data, cipher, key, ciphertextOffset, tagOffset, totalSize, output, Some(sequence));
    }

    /** The rest of Protect, once the header is written; `released` is what memory given up on failure held last. */
    method FillOutput(
      data: seq<byte>, cipher: AeadCipher, key: seq<byte>, ciphertextOffset: nat, tagOffset: nat, totalSize: nat,
      output: SecurityBuffer, ghost sequence: Option<uint64>)
      returns (result: SecurityResult, released: seq<byte>)
      requires |output.bytes| == FIXED_HEADER_SIZE
      requires ciphertextOffset == FIXED_HEADER_SIZE + cipher.nonceSize
      requires tagOffset == ciphertextOffset + |data| && totalSize == tagOffset + cipher.tagSize
      modifies this`observed, random, output
      ensures var outcome := Model.FillEnvelope(old(Value()), old(random.script), old(output.bytes), data, cipher, key, sequence);
              Value() == outcome.state && result == outcome.result &&
              output.bytes == outcome.output && random.script == outcome.script
      ensures !result.success ==> released == Zeros(totalSize)
    {
      released := [];
      output.Resize(totalSize);
      var drawn, nonce := random.Fill(cipher.nonceSize);
      output.Fill(FIXED_HEADER_SIZE, nonce);
      if !drawn {
        released := output.SecureErase();
        result := ReportFailure(Fail(RandomFailure));
        return;
      }
      assert output.bytes[..FIXED_HEADER_SIZE] == old(output.bytes);
      var sealed := cipher.seal(key, nonce, output.bytes[..FIXED_HEADER_SIZE], data);
      if sealed.None? {
        released := output.SecureErase();
        result := ReportFailure(Fail(EncryptionFailed));
        return;
      }
      assert output.bytes[..ciphertextOffset] == old(output.bytes) + nonce;
      output.Fill(ciphertextOffset, sealed.value.ciphertext);
      output.Fill(tagOffset, sealed.value.tag);
      return Ok(true), released;
    }

    method Unprotect(expectedProtocol: byte, input: Span) returns (result: SecurityResult, payload: UnprotectedPayload)
      modifies this`observed, replay
      ensures var outcome := Model.Unprotect(old(Value()), old(Around(true)), expectedProtocol, input);
              Value() == outcome.state && result == outcome.result && payload == outcome.payload
    {
      payload := EMPTY_PAYLOAD;
      if input.Dangling() {
        result := ReportFailure(Fail(InvalidArgument));
        return;
      }
      if !LooksProtected(input.Data()) {
        if config.policy == Required {
          result := ReportFailure(Fail(PlaintextRejected));
          return;
        }
        payload := payload.(protocol := expectedProtocol, isProtected := false, data := input.Data());
        return Ok(false), payload;
      }
      if input.Size() < FIXED_HEADER_SIZE {
        result := ReportFailure(Fail(MalformedEnvelope));
        return;
      }
      var whole, h := ReadHeader(input.Data());
      assert whole;  // so the read-failure branch of the source is dead
      result, payload := OpenWhole(expectedProtocol, input.Data(), h);
    }

    /** The rest of Unprotect, once the header is read. */
    method OpenWhole(expectedProtocol: byte, input: seq<byte>, h: Header) returns (result: SecurityResult, payload: UnprotectedPayload)
      requires |input| >= FIXED_HEADER_SIZE
      modifies this`observed, replay
      ensures var outcome := OpenEnvelope(old(Value()), old(Around(true)), expectedProtocol, input, h);
              Value() == outcome.state && result == outcome.result && payload == outcome.payload
    {
      payload := EMPTY_PAYLOAD;
      if h.magic != ENVELOPE_MAGIC || h.version != ENVELOPE_VERSION {
        result := ReportFailure(Fail(if h.version != ENVELOPE_VERSION then UnsupportedVersion else MalformedEnvelope));
        return;
      }
      if h.ciphertextLength > config.maximumPlaintextBytes {
        result := ReportFailure(Fail(BufferLimitExceeded));
        return;
      }
      var expectedSize := FIXED_HEADER_SIZE + h.nonceLength + h.ciphertextLength + h.tagLength;
      if expectedSize != |input| || h.sessionID == 0 || h.sequence == 0 || h.keyID == 0 {
        result := ReportFailure(Fail(MalformedEnvelope));
        return;
      }
      var cipher := ciphers.Find(h.algorithm);
      if cipher.None? {
        result := ReportFailure(Fail(UnsupportedAlgorithm));
        return;
      }
      if h.nonceLength != cipher.value.nonceSize || h.tagLength != cipher.value.tagSize {
        result := ReportFailure(Fail(MalformedEnvelope));
        return;
      }
      var acceptable := replay.WouldAccept(h.senderID, h.keyID, h.sessionID, h.sequence);
      if !acceptable {
        result := ReportFailure(Fail(ReplayDetected));
        return;
      }
      var haveKey, key := keys.GetKey(h.keyID, h.algorithm);
      if !haveKey {
        result := ReportFailure(Fail(MissingKey));
        return;
      }
      if |key| != cipher.value.keySize {
        result := ReportFailure(Fail(InvalidKeyLength));
        return;
      }
      var released;
      result, payload, released := DeliverPayload(expectedProtocol, input, h, cipher.value, key);
    }

    /** The rest of Unprotect, once cipher and key are at hand; `released` is what memory given up on failure held last. */
    method DeliverPayload(expectedProtocol: byte, input: seq<byte>, h: Header, cipher: AeadCipher, key: seq<byte>)
      returns (result: SecurityResult, payload: UnprotectedPayload, released: seq<byte>)
      requires |input| == ExpectedSize(h)
      modifies this`observed, replay
      ensures var outcome := Deliver(old(Value()), expectedProtocol, input, h, cipher, key);
              Value() == outcome.state && result == outcome.result && payload == outcome.payload
      ensures !result.success ==> released == Zeros(h.ciphertextLength)
    {
      hide Record, Zeros;
      payload, released := EMPTY_PAYLOAD, [];
      var nonce := FIXED_HEADER_SIZE;
      var ciphertext := nonce + h.nonceLength;
      var tag := ciphertext + h.ciphertextLength;
      assert input[tag..tag + h.tagLength] == TagOf(input, h);
      var data := new SecurityBuffer();
      data.Resize(h.ciphertextLength);
      var plaintext := cipher.open(key, input[nonce..ciphertext], input[..FIXED_HEADER_SIZE],
                                   input[ciphertext..tag], input[tag..tag + h.tagLength]);
      if plaintext.None? {
        released := data.SecureErase();
        result := ReportFailure(Fail(AuthenticationFailed));
        return;
      }
      data.Fill(0, plaintext.value);
      assert data.bytes == plaintext.value;
      if h.protocol != expectedProtocol {
        released := data.SecureErase();
        result := ReportFailure(Fail(ProtocolMismatch));
        return;
      }
      replay.Commit(h.senderID, h.keyID, h.sessionID, h.sequence);
      payload := UnprotectedPayload(h.protocol, h.keyID, h.senderID, h.sessionID, h.sequence, h.algorithm, true, data.bytes);
      return Ok(true), payload, released;
    }
  }
}
