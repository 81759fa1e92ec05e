/**
 Protecting and reading records, told from outside: which reason refuses a call, and what a call
 that is not refused returns, byte for byte.
 */
module DataReasons {
  import opened Bytes
  import opened Aead
  import opened Randomness
  import opened TransportModel
  import opened DataModel
  import opened DataProperties

  // ----- Protecting -----

  /** The reasons for refusing to protect a record, in order of precedence. */
  datatype ProtectReason =
    | BadArgument | TooLarge | CipherUnknown | KeyUnknown | KeySizeWrong | NoNonce | NotSealed

  function ProtectRank(reason: ProtectReason): nat {
    match reason
    case BadArgument => 0
    case TooLarge => 1
    case CipherUnknown => 2
    case KeyUnknown => 3
    case KeySizeWrong => 4
    case NoNonce => 5
    case NotSealed => 6
  }

  function ProtectError(reason: ProtectReason): SecurityError {
    match reason
    case BadArgument => InvalidArgument
    case TooLarge => BufferLimitExceeded
    case CipherUnknown => UnsupportedAlgorithm
    case KeyUnknown => MissingKey
    case KeySizeWrong => InvalidKeyLength
    case NoNonce => RandomFailure
    case NotSealed => EncryptionFailed
  }

  /** A null pointer with a non-zero size. */
  predicate IsBad(span: Span) {
    span.NullSpan? && span.size > 0
  }

  /** The header of a record, its sizes cut to their fields. */
  function RecordHeader(config: DataConfig, cipher: AeadCipher, data: seq<byte>): DataHeader {
    DataHeader(1, config.algorithm, config.keyID, cipher.nonceSize % 0x1_0000, cipher.tagSize % 0x1_0000, |data| % 0x1_0000_0000)
  }

  function NonceFor(cipher: AeadCipher, script: seq<Draw>): Draw {
    Drawn(script, 0, cipher.nonceSize)
  }

  /** What the cipher makes of a record under the drawn nonce, header and context authenticated together. */
  function SealedRecordOf(config: DataConfig, script: seq<Draw>, cipher: AeadCipher, key: seq<byte>, data: seq<byte>, context: Span): Option<Sealed> {
    cipher.seal(key, NonceFor(cipher, script).bytes, EncodeData(RecordHeader(config, cipher, data)) + context.Data(), data)
  }

  ghost predicate Refuses(reason: ProtectReason, config: DataConfig, env: Environment, plaintext: Span, context: Span) {
    var cipher, ref := FindCipher(env.ciphers, config.algorithm), KeyRef(config.keyID, config.algorithm);
    match reason
    case BadArgument => IsBad(plaintext) || IsBad(context) || config.keyID == 0
    case TooLarge => plaintext.Size() > config.maximumPlaintextBytes
    case CipherUnknown => cipher.None?
    case KeyUnknown => ref !in env.keys
    case KeySizeWrong => cipher.Some? && ref in env.keys && |env.keys[ref]| != cipher.value.keySize
    case NoNonce => cipher.Some? && !NonceFor(cipher.value, env.script).ok
    case NotSealed =>
      cipher.Some? && ref in env.keys &&
      SealedRecordOf(config, env.script, cipher.value, env.keys[ref], plaintext.Data(), context).None?
  }

  ghost predicate RefusalDecides(reason: ProtectReason, config: DataConfig, env: Environment, plaintext: Span, context: Span) {
    Refuses(reason, config, env, plaintext, context) &&
    forall other :: ProtectRank(other) < ProtectRank(reason) ==> !Refuses(other, config, env, plaintext, context)
  }

  /** Refused: the reason's error and no output; a draw is spent if it comes to that. */
  ghost predicate RecordRefused(outcome: DataOutcome, reason: ProtectReason, env: Environment) {
    outcome.result == SecurityResult(false, false, ProtectError(reason)) && outcome.output == [] && outcome.sealed == None &&
    outcome.script == Dropped(env.script, if ProtectRank(reason) < 5 then 0 else 1)
  }

  /** Protected: header, nonce, tag and ciphertext, the nonce drawn and the rest sealed from it. */
  ghost predicate RecordProtected(outcome: DataOutcome, config: DataConfig, env: Environment, cipher: AeadCipher, key: seq<byte>,
                                  data: seq<byte>, context: Span) {
    var header, nonce := EncodeData(RecordHeader(config, cipher, data)), NonceFor(cipher, env.script).bytes;
    var sealed := SealedRecordOf(config, env.script, cipher, key, data, context);
    sealed.Some? && outcome.result == SecurityResult(true, true, NoError) &&
    outcome.output == header + nonce + sealed.value.tag + sealed.value.ciphertext &&
    outcome.sealed == Some(CipherCall(config.algorithm, key, nonce, header + context.Data(),
                                      sealed.value.ciphertext, sealed.value.tag, data)) &&
    outcome.script == Dropped(env.script, 1)
  }

  ghost function FirstRefusal(config: DataConfig, env: Environment, plaintext: Span, context: Span): Option<ProtectReason> {
    if Refuses(BadArgument, config, env, plaintext, context) then Some(BadArgument)
    else if Refuses(TooLarge, config, env, plaintext, context) then Some(TooLarge)
    else if Refuses(CipherUnknown, config, env, plaintext, context) then Some(CipherUnknown)
    else if Refuses(KeyUnknown, config, env, plaintext, context) then Some(KeyUnknown)
    else if Refuses(KeySizeWrong, config, env, plaintext, context) then Some(KeySizeWrong)
    else if Refuses(NoNonce, config, env, plaintext, context) then Some(NoNonce)
    else if Refuses(NotSealed, config, env, plaintext, context) then Some(NotSealed)
    else None
  }

  lemma FirstRefusalDecides(config: DataConfig, env: Environment, plaintext: Span, context: Span)
    ensures var reason := FirstRefusal(config, env, plaintext, context);
            if reason.Some? then RefusalDecides(reason.value, config, env, plaintext, context)
            else forall r :: !Refuses(r, config, env, plaintext, context)
  {
    hide Refuses;
    if FirstRefusal(config, env, plaintext, context).None? {
      forall r
        ensures !Refuses(r, config, env, plaintext, context)
      {
        assert ProtectRank(r) <= 6;
      }
    }
  }

  lemma AadIsHeaderAndContext(header: seq<byte>, context: Span)
    requires !IsBad(context)
    ensures Aad(header, context) == header + context.Data()
  {
  }

  lemma SealOutcome(config: DataConfig, env: Environment, data: seq<byte>, context: Span, cipher: AeadCipher, key: seq<byte>)
    requires !IsBad(context) && cipher.algorithm == config.algorithm
    ensures var outcome := SealData(env.script, EncodeData(RecordHeader(config, cipher, data)), data, context, cipher, key);
            if !NonceFor(cipher, env.script).ok then RecordRefused(outcome, NoNonce, env)
            else if SealedRecordOf(config, env.script, cipher, key, data, context).None? then RecordRefused(outcome, NotSealed, env)
            else RecordProtected(outcome, config, env, cipher, key, data, context)
  {
    hide EncodeData, Drawn, Dropped, Next, Rest, Aad;
    StartOfScript(env.script);
    NextIsDrawn(env.script, 0, cipher.nonceSize);
    AadIsHeaderAndContext(EncodeData(RecordHeader(config, cipher, data)), context);
  }

  lemma RecordOutcome(config: DataConfig, env: Environment, plaintext: Span, context: Span)
    ensures var outcome, reason := ProtectData(config, env, plaintext, context), FirstRefusal(config, env, plaintext, context);
            var cipher, ref := FindCipher(env.ciphers, config.algorithm), KeyRef(config.keyID, config.algorithm);
            if reason.Some? then RecordRefused(outcome, reason.value, env)
            else cipher.Some? && ref in env.keys &&
                 RecordProtected(outcome, config, env, cipher.value, env.keys[ref], plaintext.Data(), context)
  {
    hide EncodeData, SealData, Dropped, RecordProtected, NonceFor, SealedRecordOf;
    var cipher, ref := FindCipher(env.ciphers, config.algorithm), KeyRef(config.keyID, config.algorithm);
    StartOfScript(env.script);
    if !IsBad(context) && cipher.Some? && ref in env.keys {
      SealOutcome(config, env, plaintext.Data(), context, cipher.value, env.keys[ref]);
    }
  }

  lemma StartOfScript(script: seq<Draw>)
    ensures Dropped(script, 0) == script
  {
  }

  /**
   Protecting a record, exactly. A call is refused if and only if a reason applies, for the one of
   highest precedence, with its error and no output; else it returns the header, the nonce that was
   drawn, and tag and ciphertext of the data sealed with them and the context.
   */
  lemma ProtectDataExactly(config: DataConfig, env: Environment, plaintext: Span, context: Span) returns (reason: Option<ProtectReason>)
    ensures var outcome := ProtectData(config, env, plaintext, context);
            var cipher, ref := FindCipher(env.ciphers, config.algorithm), KeyRef(config.keyID, config.algorithm);
            if reason.Some? then
              RefusalDecides(reason.value, config, env, plaintext, context) && RecordRefused(outcome, reason.value, env)
            else
              (forall r :: !Refuses(r, config, env, plaintext, context)) && cipher.Some? && ref in env.keys &&
              RecordProtected(outcome, config, env, cipher.value, env.keys[ref], plaintext.Data(), context)
  {
    hide ProtectData, Refuses, RefusalDecides, RecordRefused, RecordProtected;
    reason := FirstRefusal(config, env, plaintext, context);
    FirstRefusalDecides(config, env, plaintext, context);
    RecordOutcome(config, env, plaintext, context);
  }

  // ----- Reading -----

  /** The reasons for refusing to read a record, in order of precedence. */
  datatype ReadReason =
    | BadInput | NoMagic | ZeroKey | OtherVersion | OverLimit | NoCipher | OtherSizes | OtherLength
    | NoKey | OtherKeySize | NotAuthentic

  function ReadRank(reason: ReadReason): nat {
    match reason
    case BadInput => 0
    case NoMagic => 1
    case ZeroKey => 2
    case OtherVersion => 3
    case OverLimit => 4
    case NoCipher => 5
    case OtherSizes => 6
    case OtherLength => 7
    case NoKey => 8
    case OtherKeySize => 9
    case NotAuthentic => 10
  }

  function ReadError(reason: ReadReason): SecurityError {
    match reason
    case BadInput => InvalidArgument
    case OtherVersion => UnsupportedVersion
    case OverLimit => BufferLimitExceeded
    case NoCipher => UnsupportedAlgorithm
    case NoKey => MissingKey
    case OtherKeySize => InvalidKeyLength
    case NotAuthentic => AuthenticationFailed
    case NoMagic | ZeroKey | OtherSizes | OtherLength => MalformedEnvelope
  }

  /** Some reading of the bytes as header, nonce, tag and ciphertext of the declared sizes opens to `data` under the context. */
  ghost predicate IsRecordOf(cipher: AeadCipher, key: seq<byte>, bytes: seq<byte>, h: DataHeader, context: Span, data: seq<byte>)
    requires |bytes| >= DATA_HEADER_SIZE
  {
    exists nonce, tag, ciphertext ::
      |nonce| == h.nonceSize && |tag| == h.tagSize && |ciphertext| == h.plaintextSize &&
      bytes == bytes[..DATA_HEADER_SIZE] + nonce + tag + ciphertext &&
      cipher.open(key, nonce, bytes[..DATA_HEADER_SIZE] + context.Data(), ciphertext, tag) == Some(data)
  }

  /** Whether a reason holds; all but the first are about inputs with a whole header. */
  ghost predicate Blocks(reason: ReadReason, config: DataConfig, env: Environment, input: Span, context: Span) {
    if reason == BadInput then input.NullSpan? || |input.bytes| < 18 || IsBad(context)
    else input.Span? && |input.bytes| >= DATA_HEADER_SIZE &&
         BlocksAt(reason, config, env, input.bytes, context, DecodeData(input.bytes))
  }

  ghost predicate BlocksAt(reason: ReadReason, config: DataConfig, env: Environment, bytes: seq<byte>, context: Span, h: DataHeader)
    requires |bytes| >= DATA_HEADER_SIZE
  {
    var cipher, ref := FindCipher(env.ciphers, h.algorithm), KeyRef(h.keyID, h.algorithm);
    match reason
    case BadInput => false
    case NoMagic => bytes[..4] != [0x45, 0x53, 0x44, 0x50]
    case ZeroKey => h.keyID == 0
    case OtherVersion => h.version != 1
    case OverLimit => h.plaintextSize > config.maximumPlaintextBytes
    case NoCipher => cipher.None?
    case OtherSizes => cipher.Some? && (h.nonceSize != cipher.value.nonceSize || h.tagSize != cipher.value.tagSize)
    case OtherLength => |bytes| != 18 + h.nonceSize + h.tagSize + h.plaintextSize
    case NoKey => ref !in env.keys
    case OtherKeySize => cipher.Some? && ref in env.keys && |env.keys[ref]| != cipher.value.keySize
    case NotAuthentic =>
      cipher.Some? && ref in env.keys && !exists data :: IsRecordOf(cipher.value, env.keys[ref], bytes, h, context, data)
  }

  ghost predicate BlockDecides(reason: ReadReason, config: DataConfig, env: Environment, input: Span, context: Span) {
    Blocks(reason, config, env, input, context) &&
    forall other :: ReadRank(other) < ReadRank(reason) ==> !Blocks(other, config, env, input, context)
  }

  /** Refused: the reason's error, no plaintext, nothing opened. */
  ghost predicate ReadRefused(read: DataOpened, reason: ReadReason) {
    read == DataOpened(SecurityResult(false, false, ReadError(reason)), [], None)
  }

  /** Read: the plaintext is what the record, in its one reading, opens to. */
  ghost predicate ReadAs(read: DataOpened, env: Environment, bytes: seq<byte>, context: Span)
    requires |bytes| >= DATA_HEADER_SIZE
  {
    var h := DecodeData(bytes);
    var cipher, ref := FindCipher(env.ciphers, h.algorithm), KeyRef(h.keyID, h.algorithm);
    read.result == SecurityResult(true, true, NoError) && cipher.Some? && ref in env.keys &&
    forall data :: IsRecordOf(cipher.value, env.keys[ref], bytes, h, context, data) <==> data == read.plaintext
  }

  /** Only the slices the reader takes can be the parts of a record. */
  lemma RecordPartsAreSlices(bytes: seq<byte>, h: DataHeader, nonce: seq<byte>, tag: seq<byte>, ciphertext: seq<byte>)
    requires |bytes| == ExpectedDataSize(h)
    requires |nonce| == h.nonceSize && |tag| == h.tagSize && |ciphertext| == h.plaintextSize
    requires bytes == bytes[..DATA_HEADER_SIZE] + nonce + tag + ciphertext
    ensures nonce == DataNonce(bytes, h) && tag == DataTag(bytes, h) && ciphertext == DataCiphertext(bytes, h)
  {
    var front := bytes[..DATA_HEADER_SIZE] + nonce;
    assert bytes == front + (tag + ciphertext) && bytes == (front + tag) + ciphertext;
  }

  lemma RecordSlices(cipher: AeadCipher, key: seq<byte>, bytes: seq<byte>, h: DataHeader, context: Span, data: seq<byte>)
    requires |bytes| == ExpectedDataSize(h) && !IsBad(context)
    ensures IsRecordOf(cipher, key, bytes, h, context, data) <==>
            cipher.open(key, DataNonce(bytes, h), Aad(bytes[..DATA_HEADER_SIZE], context), DataCiphertext(bytes, h), DataTag(bytes, h)) == Some(data)
  {
    hide DataNonce, DataTag, DataCiphertext, Aad;
    DataPartitionIsExact(bytes, h);
    AadIsHeaderAndContext(bytes[..DATA_HEADER_SIZE], context);
    if IsRecordOf(cipher, key, bytes, h, context, data) {
      var nonce, tag, ciphertext :|
        |nonce| == h.nonceSize && |tag| == h.tagSize && |ciphertext| == h.plaintextSize &&
        bytes == bytes[..DATA_HEADER_SIZE] + nonce + tag + ciphertext &&
        cipher.open(key, nonce, bytes[..DATA_HEADER_SIZE] + context.Data(), ciphertext, tag) == Some(data);
      RecordPartsAreSlices(bytes, h, nonce, tag, ciphertext);
    }
  }

  /** A record is authentic exactly when the cipher opens the slices the reader takes, and then it opens to one plaintext. */
  lemma RecordOpens(cipher: AeadCipher, key: seq<byte>, bytes: seq<byte>, h: DataHeader, context: Span)
    requires |bytes| == ExpectedDataSize(h) && !IsBad(context)
    ensures var plaintext := cipher.open(key, DataNonce(bytes, h), Aad(bytes[..DATA_HEADER_SIZE], context),
                                         DataCiphertext(bytes, h), DataTag(bytes, h));
            ((exists data :: IsRecordOf(cipher, key, bytes, h, context, data)) <==> plaintext.Some?) &&
            (plaintext.Some? ==> forall data :: IsRecordOf(cipher, key, bytes, h, context, data) <==> data == plaintext.value)
  {
    hide IsRecordOf, DataNonce, DataTag, DataCiphertext, Aad;
    forall data
      ensures IsRecordOf(cipher, key, bytes, h, context, data) <==>
              cipher.open(key, DataNonce(bytes, h), Aad(bytes[..DATA_HEADER_SIZE], context), DataCiphertext(bytes, h), DataTag(bytes, h)) == Some(data)
    {
      RecordSlices(cipher, key, bytes, h, context, data);
    }
    var plaintext := cipher.open(key, DataNonce(bytes, h), Aad(bytes[..DATA_HEADER_SIZE], context),
                                 DataCiphertext(bytes, h), DataTag(bytes, h));
    if plaintext.Some? {
      assert IsRecordOf(cipher, key, bytes, h, context, plaintext.value);
    }
  }

  ghost function FirstBlock(config: DataConfig, env: Environment, input: Span, context: Span): Option<ReadReason> {
    if Blocks(BadInput, config, env, input, context) then Some(BadInput)
    else if Blocks(NoMagic, config, env, input, context) then Some(NoMagic)
    else if Blocks(ZeroKey, config, env, input, context) then Some(ZeroKey)
    else if Blocks(OtherVersion, config, env, input, context) then Some(OtherVersion)
    else if Blocks(OverLimit, config, env, input, context) then Some(OverLimit)
    else if Blocks(NoCipher, config, env, input, context) then Some(NoCipher)
    else if Blocks(OtherSizes, config, env, input, context) then Some(OtherSizes)
    else if Blocks(OtherLength, config, env, input, context) then Some(OtherLength)
    else if Blocks(NoKey, config, env, input, context) then Some(NoKey)
    else if Blocks(OtherKeySize, config, env, input, context) then Some(OtherKeySize)
    else if Blocks(NotAuthentic, config, env, input, context) then Some(NotAuthentic)
    else None
  }

  lemma FirstBlockDecides(config: DataConfig, env: Environment, input: Span, context: Span)
    ensures var reason := FirstBlock(config, env, input, context);
            if reason.Some? then BlockDecides(reason.value, config, env, input, context)
            else forall r :: !Blocks(r, config, env, input, context)
  {
    hide Blocks;
    if FirstBlock(config, env, input, context).None? {
      forall r
        ensures !Blocks(r, config, env, input, context)
      {
        assert ReadRank(r) <= 10;
      }
    }
  }

  /** The first of the reasons from the version on. */
  ghost function FirstBlockAt(config: DataConfig, env: Environment, bytes: seq<byte>, context: Span, h: DataHeader): Option<ReadReason>
    requires |bytes| >= DATA_HEADER_SIZE
  {
    if BlocksAt(OtherVersion, config, env, bytes, context, h) then Some(OtherVersion)
    else if BlocksAt(OverLimit, config, env, bytes, context, h) then Some(OverLimit)
    else if BlocksAt(NoCipher, config, env, bytes, context, h) then Some(NoCipher)
    else if BlocksAt(OtherSizes, config, env, bytes, context, h) then Some(OtherSizes)
    else if BlocksAt(OtherLength, config, env, bytes, context, h) then Some(OtherLength)
    else if BlocksAt(NoKey, config, env, bytes, context, h) then Some(NoKey)
    else if BlocksAt(OtherKeySize, config, env, bytes, context, h) then Some(OtherKeySize)
    else if BlocksAt(NotAuthentic, config, env, bytes, context, h) then Some(NotAuthentic)
    else None
  }

  /** What the cipher makes of the slices decides between a reading and none. */
  lemma ReadsOrNot(env: Environment, bytes: seq<byte>, context: Span, read: DataOpened)
    requires |bytes| >= DATA_HEADER_SIZE && !IsBad(context)
    requires |bytes| == ExpectedDataSize(DecodeData(bytes))
    requires FindCipher(env.ciphers, DecodeData(bytes).algorithm).Some?
    requires KeyRef(DecodeData(bytes).keyID, DecodeData(bytes).algorithm) in env.keys
    ensures var h := DecodeData(bytes);
            var cipher, key := FindCipher(env.ciphers, h.algorithm).value, env.keys[KeyRef(h.keyID, h.algorithm)];
            var plaintext := cipher.open(key, DataNonce(bytes, h), Aad(bytes[..DATA_HEADER_SIZE], context),
                                         DataCiphertext(bytes, h), DataTag(bytes, h));
            ((exists data :: IsRecordOf(cipher, key, bytes, h, context, data)) <==> plaintext.Some?) &&
            (plaintext.Some? && read.result == Ok(true) && read.plaintext == plaintext.value ==> ReadAs(read, env, bytes, context))
  {
    hide DecodeData, IsRecordOf, DataNonce, DataTag, DataCiphertext, Aad, FindCipher;
    var h := DecodeData(bytes);
    RecordOpens(FindCipher(env.ciphers, h.algorithm).value, env.keys[KeyRef(h.keyID, h.algorithm)], bytes, h, context);
  }

  /** The reasons one by one. */
  lemma EachBlock(config: DataConfig, env: Environment, bytes: seq<byte>, context: Span, h: DataHeader)
    requires |bytes| >= DATA_HEADER_SIZE
    ensures var cipher, ref := FindCipher(env.ciphers, h.algorithm), KeyRef(h.keyID, h.algorithm);
            (BlocksAt(NoMagic, config, env, bytes, context, h) <==> bytes[..4] != DATA_MAGIC) &&
            (BlocksAt(ZeroKey, config, env, bytes, context, h) <==> h.keyID == 0) &&
            (BlocksAt(OtherVersion, config, env, bytes, context, h) <==> h.version != FORMAT_VERSION) &&
            (BlocksAt(OverLimit, config, env, bytes, context, h) <==> h.plaintextSize > config.maximumPlaintextBytes) &&
            (BlocksAt(NoCipher, config, env, bytes, context, h) <==> cipher.None?) &&
            (BlocksAt(OtherLength, config, env, bytes, context, h) <==> |bytes| != ExpectedDataSize(h)) &&
            (BlocksAt(NoKey, config, env, bytes, context, h) <==> ref !in env.keys) &&
            (cipher.Some? ==>
              (BlocksAt(OtherSizes, config, env, bytes, context, h) <==>
                h.nonceSize != cipher.value.nonceSize || h.tagSize != cipher.value.tagSize)) &&
            (cipher.Some? && ref in env.keys ==>
              (BlocksAt(OtherKeySize, config, env, bytes, context, h) <==> |env.keys[ref]| != cipher.value.keySize) &&
              (BlocksAt(NotAuthentic, config, env, bytes, context, h) <==>
                !exists data :: IsRecordOf(cipher.value, env.keys[ref], bytes, h, context, data)))
  {
    hide IsRecordOf, FindCipher;
  }

  lemma OpenOutcome(config: DataConfig, env: Environment, bytes: seq<byte>, context: Span)
    requires |bytes| >= DATA_HEADER_SIZE && !IsBad(context)
    ensures var h := DecodeData(bytes);
            var read, reason := OpenData(config, env, bytes, context, h), FirstBlockAt(config, env, bytes, context, h);
            if reason.Some? then ReadRefused(read, reason.value) else ReadAs(read, env, bytes, context)
  {
    hide DecodeData, IsRecordOf, ReadAs, DataNonce, DataTag, DataCiphertext, Aad, FindCipher, BlocksAt;
    var h := DecodeData(bytes);
    EachBlock(config, env, bytes, context, h);
    var cipher, ref := FindCipher(env.ciphers, h.algorithm), KeyRef(h.keyID, h.algorithm);
    if |bytes| == ExpectedDataSize(h) && cipher.Some? && ref in env.keys {
      ReadsOrNot(env, bytes, context, OpenData(config, env, bytes, context, h));
    }
  }

  lemma ReadOutcome(config: DataConfig, env: Environment, input: Span, context: Span)
    ensures var read, reason := UnprotectData(config, env, input, context), FirstBlock(config, env, input, context);
            if reason.Some? then ReadRefused(read, reason.value)
            else input.Span? && |input.bytes| >= DATA_HEADER_SIZE && ReadAs(read, env, input.bytes, context)
  {
    hide OpenData, DecodeData, ReadAs;
    if input.Span? && |input.bytes| >= DATA_HEADER_SIZE && !IsBad(context) {
      OpenOutcome(config, env, input.bytes, context);
      FirstBlockIsAt(config, env, input, context);
    }
  }

  lemma FirstBlockIsAt(config: DataConfig, env: Environment, input: Span, context: Span)
    requires input.Span? && |input.bytes| >= DATA_HEADER_SIZE && !IsBad(context)
    ensures var h := DecodeData(input.bytes);
            FirstBlock(config, env, input, context) ==
              if input.bytes[..4] != DATA_MAGIC then Some(NoMagic)
              else if h.keyID == 0 then Some(ZeroKey)
              else FirstBlockAt(config, env, input.bytes, context, h)
  {
    hide DecodeData, BlocksAt;
    var h := DecodeData(input.bytes);
    EachBlock(config, env, input.bytes, context, h);
    forall r | r != BadInput
      ensures Blocks(r, config, env, input, context) <==> BlocksAt(r, config, env, input.bytes, context, h)
    {
    }
    hide Blocks;
  }

  /**
   Reading a record, exactly. A call is refused if and only if a reason applies, for the one of
   highest precedence, with its error and no plaintext; else it returns the one plaintext that the
   input, read in any way as header, nonce, tag and ciphertext, opens to under the context.
   */
  lemma UnprotectDataExactly(config: DataConfig, env: Environment, input: Span, context: Span) returns (reason: Option<ReadReason>)
    ensures var read := UnprotectData(config, env, input, context);
            if reason.Some? then
              BlockDecides(reason.value, config, env, input, context) && ReadRefused(read, reason.value)
            else
              (forall r :: !Blocks(r, config, env, input, context)) &&
              input.Span? && |input.bytes| >= DATA_HEADER_SIZE && ReadAs(read, env, input.bytes, context)
  {
    hide UnprotectData, Blocks, BlockDecides, ReadRefused, ReadAs;
    reason := FirstBlock(config, env, input, context);
    FirstBlockDecides(config, env, input, context);
    ReadOutcome(config, env, input, context);
  }
}
