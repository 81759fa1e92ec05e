/**
 Protect, told from outside: for every state and environment, which reason refuses a call or what
 leaves it, byte for byte, which random draws went where, and what state is left.
 */
module TransportSending {
  import opened Bytes
  import opened Aead
  import opened Randomness
  import opened TransportHeader
  import opened TransportModel
  import opened TransportProperties

  // ----- Sessions -----

  predicate IsZeroDraw(draw: Draw) {
    draw.ok && draw.bytes == Zeros(|draw.bytes|)
  }

  /** Of at most `attempts` draws, number `k` succeeds with bytes that are not all zero, and those before are all zero. */
  predicate MakesSession(script: seq<Draw>, attempts: nat, k: nat) {
    k < attempts && (forall j :: 0 <= j < k ==> IsZeroDraw(Drawn(script, j, 8))) &&
    Drawn(script, k, 8).ok && !IsZeroDraw(Drawn(script, k, 8))
  }

  /** Among `attempts` draws none makes a session: after zeros, number `n - 1` fails, or all of them are zeros. */
  predicate GivesUp(script: seq<Draw>, attempts: nat, n: nat) {
    n <= attempts &&
    if n > 0 && !Drawn(script, n - 1, 8).ok then forall j :: 0 <= j < n - 1 ==> IsZeroDraw(Drawn(script, j, 8))
    else n == attempts && forall j :: 0 <= j < n ==> IsZeroDraw(Drawn(script, j, 8))
  }

  /** The session a protected send has, if it gets one, and the draws spent on it. */
  predicate SessionIs(st: State, script: seq<Draw>, session: Option<uint64>, draws: nat) {
    if st.sessionReady then session == Some(st.sessionID) && draws == 0
    else if st.config.sessionID != 0 then session == Some(st.config.sessionID) && draws == 0
    else if session.Some? then
      draws > 0 && MakesSession(script, 4, draws - 1) &&
      session.value == FromLittleEndian(Drawn(script, draws - 1, 8).bytes)
    else GivesUp(script, 4, draws)
  }

  lemma SessionIsUnique(st: State, script: seq<Draw>, session: Option<uint64>, draws: nat, session': Option<uint64>, draws': nat)
    requires SessionIs(st, script, session, draws) && SessionIs(st, script, session', draws')
    ensures session == session' && draws == draws'
  {
  }

  /** The state once the session is there: made and announced now, unless it was there before. */
  function Started(st: State, session: uint64): State {
    if st.sessionReady then st
    else State(st.config, st.replay, session, st.nextSequence, true, Announcing(st.observed, SessionEstablished(session)))
  }

  function Announcing(log: Option<seq<Notification>>, n: Notification): Option<seq<Notification>> {
    if log.None? then None else Some(log.value + [n])
  }

  lemma FirstDrawIsNext(script: seq<Draw>, size: nat)
    ensures Next(script, size) == Drawn(script, 0, size)
    ensures forall k: nat :: Drawn(Rest(script), k, size) == Drawn(script, k + 1, size)
    ensures forall n: nat :: Dropped(Rest(script), n) == Dropped(script, n + 1)
    ensures Dropped(script, 0) == script
  {
  }

  /** The loop of draws, over the script: it stops at the first non-zero value, at the first failure, or at the bound. */
  lemma {:induction false} DrawsExactly(st: State, script: seq<Draw>, attempts: nat) returns (session: Option<uint64>, draws: nat)
    requires !st.sessionReady
    ensures var drawn := DrawSession(st, script, attempts);
            drawn.ready == session.Some? && drawn.script == Dropped(script, draws) &&
            (session.Some? ==>
              draws > 0 && MakesSession(script, attempts, draws - 1) &&
              session.value == FromLittleEndian(Drawn(script, draws - 1, 8).bytes) && drawn.state == Started(st, session.value)) &&
            (session.None? ==> GivesUp(script, attempts, draws) && drawn.state == st)
  {
    FirstDrawIsNext(script, 8);
    var first := Drawn(script, 0, 8);
    ZeroBytes(first.bytes);
    if attempts == 0 {
      session, draws := None, 0;
    } else if !first.ok {
      session, draws := None, 1;
    } else if !IsZeroDraw(first) {
      session, draws := Some(Candidate(first)), 1;
    } else {
      session, draws := DrawsExactly(st, Rest(script), attempts - 1);
      ShiftedDraws(script, attempts - 1, draws);
      draws := draws + 1;
    }
  }

  /** After a draw of zeros, the rest of the script decides as it would by itself. */
  lemma ShiftedDraws(script: seq<Draw>, attempts: nat, n: nat)
    requires IsZeroDraw(Drawn(script, 0, 8))
    ensures MakesSession(Rest(script), attempts, n) ==> MakesSession(script, attempts + 1, n + 1)
    ensures n > 0 && MakesSession(Rest(script), attempts, n - 1) ==> MakesSession(script, attempts + 1, n)
    ensures GivesUp(Rest(script), attempts, n) ==> GivesUp(script, attempts + 1, n + 1)
  {
    FirstDrawIsNext(script, 8);
    forall j | 0 < j
      ensures Drawn(script, j, 8) == Drawn(Rest(script), j - 1, 8)
    {
    }
  }

  /**
   EnsureSessionID, exactly: a session that is ready is kept; else the configured one is taken, if
   it is not zero, and no draw spent; else it is the little-endian value of the first draw that is
   not zero, among four, with the draws up to it spent; and if one fails or all four are zero there
   is none and nothing changes but the draws spent.
   */
  lemma EnsureSessionExactly(st: State, script: seq<Draw>) returns (session: Option<uint64>, draws: nat)
    ensures SessionIs(st, script, session, draws)
    ensures var ensured := EnsureSession(st, script);
            ensured.ready == session.Some? && ensured.script == Dropped(script, draws) &&
            ensured.state == if session.Some? then Started(st, session.value) else st
  {
    FirstDrawIsNext(script, 8);
    if st.sessionReady {
      session, draws := Some(st.sessionID), 0;
    } else if st.config.sessionID != 0 {
      session, draws := Some(st.config.sessionID), 0;
    } else {
      session, draws := DrawsExactly(st, script, 4);
    }
  }

  // ----- Reasons -----

  /** The reasons for refusing to send, in order of precedence. */
  datatype SendReason =
    | BadArgument | CipherUnknown | KeyUnknown | KeySizeWrong | NoSession | Exhausted | FieldsTooWide
    | NoMemory | NoNonce | NotSealed

  function SendRank(reason: SendReason): nat {
    match reason
    case BadArgument => 0
    case CipherUnknown => 1
    case KeyUnknown => 2
    case KeySizeWrong => 3
    case NoSession => 4
    case Exhausted => 5
    case FieldsTooWide => 6
    case NoMemory => 7
    case NoNonce => 8
    case NotSealed => 9
  }

  function SendError(reason: SendReason): SecurityError {
    match reason
    case BadArgument => InvalidArgument
    case CipherUnknown => UnsupportedAlgorithm
    case KeyUnknown => MissingKey
    case KeySizeWrong => InvalidKeyLength
    case NoSession | NoNonce => RandomFailure
    case Exhausted => SequenceExhausted
    case FieldsTooWide | NoMemory => BufferLimitExceeded
    case NotSealed => EncryptionFailed
  }

  /** What the sender has for its envelope: cipher, key, the session it got and the draws spent on it. */
  datatype Means = Means(cipher: Option<AeadCipher>, key: Option<seq<byte>>, session: Option<uint64>, draws: nat)

  ghost predicate HasMeans(m: Means, st: State, env: Environment) {
    var ref := KeyRef(st.config.outboundKeyID, st.config.outboundAlgorithm);
    m.cipher == FindCipher(env.ciphers, st.config.outboundAlgorithm) &&
    m.key == (if ref in env.keys then Some(env.keys[ref]) else None) &&
    SessionIs(st, env.script, m.session, m.draws)
  }

  /** Every field of the header fits its width. */
  predicate FieldsFit(cipher: AeadCipher, data: seq<byte>) {
    cipher.nonceSize < 0x100 && cipher.tagSize < 0x100 && |data| < 0x1_0000_0000
  }

  /** The header of the next envelope, field by field as documented. */
  function NextHeader(st: State, session: uint64, protocol: byte, cipher: AeadCipher, data: seq<byte>): Header
    requires FieldsFit(cipher, data)
  {
    Header(0x5350_5345, 1, st.config.outboundAlgorithm, 0, protocol, st.config.outboundKeyID, st.config.senderID,
           session, st.nextSequence, cipher.nonceSize, cipher.tagSize, 0, |data|)
  }

  /** The nonce: the first draw after those spent on the session. */
  function NonceDraw(m: Means, script: seq<Draw>): Draw
    requires m.cipher.Some?
  {
    Drawn(script, m.draws, m.cipher.value.nonceSize)
  }

  /** What the cipher makes of the envelope, given that it gets that far. */
  function SealedEnvelope(m: Means, st: State, env: Environment, protocol: byte, data: seq<byte>): Option<Sealed>
    requires m.cipher.Some? && m.key.Some? && m.session.Some? && FieldsFit(m.cipher.value, data)
  {
    m.cipher.value.seal(m.key.value, NonceDraw(m, env.script).bytes,
                        Encode(NextHeader(st, m.session.value, protocol, m.cipher.value, data)), data)
  }

  /** Whether a reason holds; all but the first are about calls that are to protect. */
  ghost predicate SendApplies(reason: SendReason, m: Means, st: State, env: Environment, protocol: byte, plaintext: Span) {
    if reason == BadArgument then
      (plaintext.NullSpan? && plaintext.size > 0) || plaintext.Size() > st.config.maximumPlaintextBytes
    else !SendsPlaintext(st, env) && Prevents(reason, m, st, env, protocol, plaintext.Data())
  }

  ghost predicate Prevents(reason: SendReason, m: Means, st: State, env: Environment, protocol: byte, data: seq<byte>) {
    match reason
    case BadArgument => false
    case CipherUnknown => m.cipher.None?
    case KeyUnknown => m.key.None?
    case KeySizeWrong => m.cipher.Some? && m.key.Some? && |m.key.value| != m.cipher.value.keySize
    case NoSession => m.session.None?
    case Exhausted => st.nextSequence == 0 || st.nextSequence == UINT64_MAX
    case FieldsTooWide => m.cipher.Some? && !FieldsFit(m.cipher.value, data)
    case NoMemory => !env.canAllocate
    case NoNonce => m.cipher.Some? && !NonceDraw(m, env.script).ok
    case NotSealed =>
      m.cipher.Some? && m.key.Some? && m.session.Some? && FieldsFit(m.cipher.value, data) &&
      SealedEnvelope(m, st, env, protocol, data).None?
  }

  ghost predicate SendDecides(reason: SendReason, m: Means, st: State, env: Environment, protocol: byte, plaintext: Span) {
    SendApplies(reason, m, st, env, protocol, plaintext) &&
    forall other :: SendRank(other) < SendRank(reason) ==> !SendApplies(other, m, st, env, protocol, plaintext)
  }

  // ----- Outcomes -----

  /** The state a refusal leaves, its report apart: the session is made before the sequence is checked, and the sequence spent before memory is. */
  function StateAtRefusal(reason: SendReason, m: Means, st: State): State {
    if SendRank(reason) <= 4 || m.session.None? then st
    else if SendRank(reason) <= 6 || st.nextSequence == UINT64_MAX then Started(st, m.session.value)
    else Started(st, m.session.value).(nextSequence := st.nextSequence + 1)
  }

  function DrawsAtRefusal(reason: SendReason, m: Means): nat {
    if SendRank(reason) <= 3 then 0 else if SendRank(reason) <= 7 then m.draws else m.draws + 1
  }

  /** Refused: the reason's error, no output, and exactly that reported. */
  ghost predicate RefusedAs(outcome: ProtectOutcome, reason: SendReason, m: Means, st: State, env: Environment) {
    var left := StateAtRefusal(reason, m, st);
    outcome.result == SecurityResult(false, false, SendError(reason)) && outcome.output == [] && outcome.sealed == None &&
    outcome.state == left.(observed := Announcing(left.observed, Failure(outcome.result))) &&
    outcome.script == Dropped(env.script, DrawsAtRefusal(reason, m)) &&
    outcome.sequence == if SendRank(reason) >= 7 then Some(st.nextSequence) else None
  }

  /** Sent in the clear: the bytes as they are, and nothing else happens. */
  ghost predicate PassedAs(outcome: ProtectOutcome, st: State, env: Environment, plaintext: Span) {
    outcome.result == SecurityResult(true, false, NoError) && outcome.output == plaintext.Data() &&
    outcome.state == st && outcome.script == env.script && outcome.sequence == None && outcome.sealed == None
  }

  /** Sent protected: header, nonce, ciphertext and tag, the nonce drawn and the rest sealed from it. */
  ghost predicate SentAs(outcome: ProtectOutcome, m: Means, st: State, env: Environment, protocol: byte, data: seq<byte>)
    requires m.cipher.Some? && m.key.Some? && m.session.Some? && FieldsFit(m.cipher.value, data)
    requires st.nextSequence < UINT64_MAX
  {
    var h, nonce := NextHeader(st, m.session.value, protocol, m.cipher.value, data), NonceDraw(m, env.script).bytes;
    var sealed := SealedEnvelope(m, st, env, protocol, data);
    sealed.Some? && outcome.result == SecurityResult(true, true, NoError) &&
    outcome.output == Encode(h) + nonce + sealed.value.ciphertext + sealed.value.tag &&
    outcome.output[FIXED_HEADER_SIZE..FIXED_HEADER_SIZE + m.cipher.value.nonceSize] == nonce &&
    outcome.sealed == Some(CipherCall(st.config.outboundAlgorithm, m.key.value, nonce, Encode(h),
                                      sealed.value.ciphertext, sealed.value.tag, data)) &&
    outcome.state == Started(st, m.session.value).(nextSequence := st.nextSequence + 1) &&
    outcome.script == Dropped(env.script, m.draws + 1) && outcome.sequence == Some(st.nextSequence)
  }

  /** The reasons from the sequence on, in order. */
  ghost function LateReason(m: Means, st: State, env: Environment, protocol: byte, data: seq<byte>): Option<SendReason> {
    if Prevents(Exhausted, m, st, env, protocol, data) then Some(Exhausted)
    else if Prevents(FieldsTooWide, m, st, env, protocol, data) then Some(FieldsTooWide)
    else if Prevents(NoMemory, m, st, env, protocol, data) then Some(NoMemory)
    else if Prevents(NoNonce, m, st, env, protocol, data) then Some(NoNonce)
    else if Prevents(NotSealed, m, st, env, protocol, data) then Some(NotSealed)
    else None
  }

  lemma NonceInPlace(header: seq<byte>, nonce: seq<byte>, ciphertext: seq<byte>, tag: seq<byte>)
    ensures (header + nonce + ciphertext + tag)[|header|..|header| + |nonce|] == nonce
  {
  }

  lemma SealsExactly(m: Means, st: State, env: Environment, protocol: byte, data: seq<byte>)
    requires m.cipher.Some? && m.key.Some? && m.session.Some?
    requires m.cipher.value.algorithm == st.config.outboundAlgorithm
    requires st.sessionReady ==> m.session.value == st.sessionID
    ensures var outcome := SealNext(Started(st, m.session.value), env.(script := Dropped(env.script, m.draws)), protocol, data,
                                    m.cipher.value, m.key.value);
            var reason := LateReason(m, st, env, protocol, data);
            if reason.Some? then RefusedAs(outcome, reason.value, m, st, env)
            else FieldsFit(m.cipher.value, data) && st.nextSequence < UINT64_MAX && SentAs(outcome, m, st, env, protocol, data)
  {
    hide Encode, Dropped, Drawn, Next, Rest;
    NextIsDrawn(env.script, m.draws, m.cipher.value.nonceSize);
    if LateReason(m, st, env, protocol, data).None? {
      var h := NextHeader(st, m.session.value, protocol, m.cipher.value, data);
      assert h == OutboundHeader(Started(st, m.session.value), protocol, m.cipher.value, |data|);
      var sealed := SealedEnvelope(m, st, env, protocol, data).value;
      NonceInPlace(Encode(h), NonceDraw(m, env.script).bytes, sealed.ciphertext, sealed.tag);
    }
  }

  ghost function FirstSendReason(m: Means, st: State, env: Environment, protocol: byte, plaintext: Span): Option<SendReason> {
    if SendApplies(BadArgument, m, st, env, protocol, plaintext) then Some(BadArgument)
    else if SendsPlaintext(st, env) then None
    else if SendApplies(CipherUnknown, m, st, env, protocol, plaintext) then Some(CipherUnknown)
    else if SendApplies(KeyUnknown, m, st, env, protocol, plaintext) then Some(KeyUnknown)
    else if SendApplies(KeySizeWrong, m, st, env, protocol, plaintext) then Some(KeySizeWrong)
    else if SendApplies(NoSession, m, st, env, protocol, plaintext) then Some(NoSession)
    else LateReason(m, st, env, protocol, plaintext.Data())
  }

  lemma FirstSendReasonDecides(m: Means, st: State, env: Environment, protocol: byte, plaintext: Span)
    ensures var reason := FirstSendReason(m, st, env, protocol, plaintext);
            if reason.Some? then SendDecides(reason.value, m, st, env, protocol, plaintext)
            else forall r :: !SendApplies(r, m, st, env, protocol, plaintext)
  {
    hide SendsPlaintext, Prevents;
  }

  /**
   Protect, exactly. For every state and environment a call is refused if and only if a reason
   applies, for the one of highest precedence and with its error; else it passes the plaintext on
   if it is not to protect; else it returns the header with the next sequence and the session, the
   nonce that was drawn, and what the cipher makes of the data under both.
   */
  lemma ProtectExactly(st: State, env: Environment, protocol: byte, plaintext: Span)
    returns (m: Means, reason: Option<SendReason>)
    ensures HasMeans(m, st, env)
    ensures var outcome := Protect(st, env, protocol, plaintext);
            if reason.Some? then
              SendDecides(reason.value, m, st, env, protocol, plaintext) && RefusedAs(outcome, reason.value, m, st, env)
            else
              (forall r :: !SendApplies(r, m, st, env, protocol, plaintext)) &&
              if SendsPlaintext(st, env) then PassedAs(outcome, st, env, plaintext)
              else
                m.cipher.Some? && m.key.Some? && m.session.Some? && FieldsFit(m.cipher.value, plaintext.Data()) &&
                st.nextSequence < UINT64_MAX && SentAs(outcome, m, st, env, protocol, plaintext.Data())
  {
    hide Protect, EnsureSession, SendDecides, SendApplies, SessionIs, SentAs, RefusedAs, PassedAs, SendsPlaintext, Started;
    var session, draws := EnsureSessionExactly(st, env.script);
    var ref := KeyRef(st.config.outboundKeyID, st.config.outboundAlgorithm);
    m := Means(FindCipher(env.ciphers, st.config.outboundAlgorithm), if ref in env.keys then Some(env.keys[ref]) else None,
               session, draws);
    reason := FirstSendReason(m, st, env, protocol, plaintext);
    FirstSendReasonDecides(m, st, env, protocol, plaintext);
    if EarlyReason(reason) || SendsPlaintext(st, env) {
      EndsEarly(m, st, env, protocol, plaintext);
    } else {
      GoesOnToSeal(m, st, env, protocol, plaintext);
      SealsExactly(m, st, env, protocol, plaintext.Data());
    }
  }

  predicate EarlyReason(reason: Option<SendReason>) {
    reason.Some? && SendRank(reason.value) <= 4
  }

  /** What a call needs to know of EnsureSessionID. */
  ghost predicate Ensures(m: Means, st: State, env: Environment) {
    var ensured := EnsureSession(st, env.script);
    HasMeans(m, st, env) && ensured.ready == m.session.Some? && ensured.script == Dropped(env.script, m.draws) &&
    ensured.state == if m.session.Some? then Started(st, m.session.value) else st
  }

  /** Calls that are refused before there is a session, or do not protect. */
  lemma EndsEarly(m: Means, st: State, env: Environment, protocol: byte, plaintext: Span)
    requires Ensures(m, st, env)
    requires EarlyReason(FirstSendReason(m, st, env, protocol, plaintext)) || SendsPlaintext(st, env)
    ensures var outcome := Protect(st, env, protocol, plaintext);
            var reason := FirstSendReason(m, st, env, protocol, plaintext);
            if reason.Some? then RefusedAs(outcome, reason.value, m, st, env) else PassedAs(outcome, st, env, plaintext)
  {
    hide Protect, SendsPlaintext, RefusedAs, PassedAs, LateReason;
    LateReasonIsLate(m, st, env, protocol, plaintext.Data());
    if SendApplies(BadArgument, m, st, env, protocol, plaintext) || SendsPlaintext(st, env) {
      PassesOrRejects(m, st, env, protocol, plaintext);
    } else {
      EndsBeforeSession(m, st, env, protocol, plaintext);
    }
  }

  lemma PassesOrRejects(m: Means, st: State, env: Environment, protocol: byte, plaintext: Span)
    requires SendApplies(BadArgument, m, st, env, protocol, plaintext) || SendsPlaintext(st, env)
    ensures var outcome := Protect(st, env, protocol, plaintext);
            if SendApplies(BadArgument, m, st, env, protocol, plaintext) then RefusedAs(outcome, BadArgument, m, st, env)
            else PassedAs(outcome, st, env, plaintext)
  {
    hide SealNext, EnsureSession, Prevents;
    FirstDrawIsNext(env.script, 0);
  }

  lemma EndsBeforeSession(m: Means, st: State, env: Environment, protocol: byte, plaintext: Span)
    requires Ensures(m, st, env)
    requires !SendApplies(BadArgument, m, st, env, protocol, plaintext) && !SendsPlaintext(st, env)
    requires EarlyReason(FirstSendReason(m, st, env, protocol, plaintext))
    ensures RefusedAs(Protect(st, env, protocol, plaintext), FirstSendReason(m, st, env, protocol, plaintext).value, m, st, env)
  {
    hide SealNext, EnsureSession, SessionIs, LateReason, NonceDraw, SealedEnvelope, Started, FieldsFit;
    FirstDrawIsNext(env.script, 0);
    LateReasonIsLate(m, st, env, protocol, plaintext.Data());
  }

  lemma LateReasonIsLate(m: Means, st: State, env: Environment, protocol: byte, data: seq<byte>)
    ensures !EarlyReason(LateReason(m, st, env, protocol, data))
  {
    hide Prevents;
  }

  /** All other calls come to the sequence check, with cipher, key and session at hand. */
  lemma GoesOnToSeal(m: Means, st: State, env: Environment, protocol: byte, plaintext: Span)
    requires Ensures(m, st, env)
    requires !EarlyReason(FirstSendReason(m, st, env, protocol, plaintext)) && !SendsPlaintext(st, env)
    ensures m.cipher.Some? && m.key.Some? && m.session.Some?
    ensures m.cipher.value.algorithm == st.config.outboundAlgorithm
    ensures st.sessionReady ==> m.session.value == st.sessionID
    ensures FirstSendReason(m, st, env, protocol, plaintext) == LateReason(m, st, env, protocol, plaintext.Data())
    ensures Protect(st, env, protocol, plaintext) ==
            SealNext(Started(st, m.session.value), env.(script := Dropped(env.script, m.draws)), protocol, plaintext.Data(),
                     m.cipher.value, m.key.value)
  {
    hide SealNext, EnsureSession, SessionIs, LateReason, NonceDraw, SealedEnvelope, Started, FieldsFit;
    ReadySession(st, env.script, m.session, m.draws);
  }

  lemma ReadySession(st: State, script: seq<Draw>, session: Option<uint64>, draws: nat)
    requires SessionIs(st, script, session, draws)
    ensures st.sessionReady ==> session == Some(st.sessionID)
  {
  }
}
