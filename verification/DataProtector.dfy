/** The 18-byte ESDP header of protected data at rest, and what DataProtector does with it. */
module DataModel {
  import opened Bytes
  import opened Aead
  import opened Randomness
  import opened TransportModel

  const FORMAT_VERSION: byte := 1
  const DATA_HEADER_SIZE: nat := 18
  const DATA_MAGIC: seq<byte> := [0x45, 0x53, 0x44, 0x50]

  datatype DataHeader = DataHeader(
    version: byte, algorithm: AeadAlgorithm, keyID: uint32, nonceSize: uint16, tagSize: uint16, plaintextSize: uint32)

  datatype DataConfig = DataConfig(algorithm: AeadAlgorithm, keyID: uint32, maximumPlaintextBytes: uint64)

  function EncodeData(h: DataHeader): (s: seq<byte>)
    ensures |s| == DATA_HEADER_SIZE
  {
    DATA_MAGIC + [h.version, h.algorithm] + LittleEndian(h.keyID, 4)
    + LittleEndian(h.nonceSize, 2) + LittleEndian(h.tagSize, 2) + LittleEndian(h.plaintextSize, 4)
  }

  function DecodeData(s: seq<byte>): DataHeader
    requires |s| >= DATA_HEADER_SIZE
  {
    WordPowers();
    DataHeader(s[4], s[5], FromLittleEndian(s[6..10]), FromLittleEndian(s[10..12]),
               FromLittleEndian(s[12..14]), FromLittleEndian(s[14..18]))
  }

  lemma DataFieldsAt(h: DataHeader, rest: seq<byte>)
    ensures var s := EncodeData(h) + rest;
            s[..4] == DATA_MAGIC && s[4] == h.version && s[5] == h.algorithm &&
            s[6..10] == LittleEndian(h.keyID, 4) && s[10..12] == LittleEndian(h.nonceSize, 2) &&
            s[12..14] == LittleEndian(h.tagSize, 2) && s[14..18] == LittleEndian(h.plaintextSize, 4)
  {
  }

  lemma DecodeDataInverts(h: DataHeader, rest: seq<byte>)
    ensures DecodeData(EncodeData(h) + rest) == h
    ensures (EncodeData(h) + rest)[..4] == DATA_MAGIC
  {
    WordPowers();
    DataFieldsAt(h, rest);
    DecodeEncode(h.keyID, 4);
    DecodeEncode(h.nonceSize, 2);
    DecodeEncode(h.tagSize, 2);
    DecodeEncode(h.plaintextSize, 4);
  }

  lemma EncodeDataInverts(s: seq<byte>)
    requires |s| >= DATA_HEADER_SIZE && s[..4] == DATA_MAGIC
    ensures EncodeData(DecodeData(s)) == s[..DATA_HEADER_SIZE]
  {
    WordPowers();
    EncodeDecode(s[6..10]);
    EncodeDecode(s[10..12]);
    EncodeDecode(s[12..14]);
    EncodeDecode(s[14..18]);
  }

  /** The associated data: the header, followed by the caller's context if there is one. */
  function Aad(header: seq<byte>, context: Span): seq<byte> {
    if context.Size() == 0 then header else header + context.Data()
  }

  datatype DataOutcome = DataOutcome(
    result: SecurityResult, output: seq<byte>, script: seq<Draw>, sealed: Option<CipherCall>)

  /** The header written for `size` bytes of plaintext: every size is cut to the width of its field. */
  function HeaderFor(config: DataConfig, cipher: AeadCipher, size: nat): DataHeader {
    DataHeader(FORMAT_VERSION, config.algorithm, config.keyID,
               cipher.nonceSize % 0x1_0000, cipher.tagSize % 0x1_0000, size % 0x1_0000_0000)
  }

  function ProtectData(config: DataConfig, env: Environment, plaintext: Span, context: Span): DataOutcome {
    if plaintext.Dangling() || context.Dangling() || config.keyID == 0 then
      DataOutcome(Fail(InvalidArgument), [], env.script, None)
    else if plaintext.Size() > config.maximumPlaintextBytes then
      DataOutcome(Fail(BufferLimitExceeded), [], env.script, None)
    else
      var cipher, ref := FindCipher(env.ciphers, config.algorithm), KeyRef(config.keyID, config.algorithm);
      if cipher.None? then
        DataOutcome(Fail(UnsupportedAlgorithm), [], env.script, None)
      else if ref !in env.keys then
        DataOutcome(Fail(MissingKey), [], env.script, None)
      else if |env.keys[ref]| != cipher.value.keySize then
        DataOutcome(Fail(InvalidKeyLength), [], env.script, None)
      else
        SealData(env.script, EncodeData(HeaderFor(config, cipher.value, |plaintext.Data()|)),
                 plaintext.Data(), context, cipher.value, env.keys[ref])
  }

  /** ProtectData from the nonce on. */
  function SealData(script: seq<Draw>, header: seq<byte>, data: seq<byte>, context: Span, cipher: AeadCipher, key: seq<byte>): DataOutcome {
    var draw := Next(script, cipher.nonceSize);
    if !draw.ok then
      DataOutcome(Fail(RandomFailure), [], Rest(script), None)
    else
      var sealed := cipher.seal(key, draw.bytes, Aad(header, context), data);
      if sealed.None? then
        DataOutcome(Fail(EncryptionFailed), [], Rest(script), None)
      else
        var Sealed(ciphertext, tag) := sealed.value;
        DataOutcome(Ok(true), header + draw.bytes + tag + ciphertext, Rest(script),
          Some(CipherCall(cipher.algorithm, key, draw.bytes, Aad(header, context), ciphertext, tag, data)))
  }

  datatype DataOpened = DataOpened(result: SecurityResult, plaintext: seq<byte>, unsealed: Option<CipherCall>)

  function DataFails(error: SecurityError): DataOpened {
    DataOpened(Fail(error), [], None)
  }

  function ExpectedDataSize(h: DataHeader): nat {
    DATA_HEADER_SIZE + h.nonceSize + h.tagSize + h.plaintextSize
  }

  function UnprotectData(config: DataConfig, env: Environment, input: Span, context: Span): DataOpened {
    if input.NullSpan? || |input.bytes| < DATA_HEADER_SIZE || context.Dangling() then
      DataFails(InvalidArgument)
    else if input.bytes[..4] != DATA_MAGIC || DecodeData(input.bytes).keyID == 0 then
      DataFails(MalformedEnvelope)
    else
      OpenData(config, env, input.bytes, context, DecodeData(input.bytes))
  }

  /** UnprotectData from the version check on. */
  function OpenData(config: DataConfig, env: Environment, input: seq<byte>, context: Span, h: DataHeader): DataOpened
    requires |input| >= DATA_HEADER_SIZE
  {
    if h.version != FORMAT_VERSION then DataFails(UnsupportedVersion)
    else if h.plaintextSize > config.maximumPlaintextBytes then DataFails(BufferLimitExceeded)
    else
      var cipher, ref := FindCipher(env.ciphers, h.algorithm), KeyRef(h.keyID, h.algorithm);
      if cipher.None? then DataFails(UnsupportedAlgorithm)
      else if h.nonceSize != cipher.value.nonceSize || h.tagSize != cipher.value.tagSize then DataFails(MalformedEnvelope)
      else if ExpectedDataSize(h) != |input| then DataFails(MalformedEnvelope)
      else if ref !in env.keys then DataFails(MissingKey)
      else if |env.keys[ref]| != cipher.value.keySize then DataFails(InvalidKeyLength)
      else
        var nonce, aad, ciphertext, tag :=
          DataNonce(input, h), Aad(input[..DATA_HEADER_SIZE], context), DataCiphertext(input, h), DataTag(input, h);
        var plaintext := cipher.value.open(env.keys[ref], nonce, aad, ciphertext, tag);
        if plaintext.None? then DataFails(AuthenticationFailed)
        else DataOpened(Ok(true), plaintext.value,
               Some(CipherCall(h.algorithm, env.keys[ref], nonce, aad, ciphertext, tag, plaintext.value)))
  }

  function DataNonce(input: seq<byte>, h: DataHeader): seq<byte>
    requires |input| == ExpectedDataSize(h)
  {
    input[DATA_HEADER_SIZE..DATA_HEADER_SIZE + h.nonceSize]
  }

  function DataTag(input: seq<byte>, h: DataHeader): seq<byte>
    requires |input| == ExpectedDataSize(h)
  {
    input[DATA_HEADER_SIZE + h.nonceSize..DATA_HEADER_SIZE + h.nonceSize + h.tagSize]
  }

  function DataCiphertext(input: seq<byte>, h: DataHeader): seq<byte>
    requires |input| == ExpectedDataSize(h)
  {
    input[DATA_HEADER_SIZE + h.nonceSize + h.tagSize..]
  }
}

/** Round trips of protected data, across rotation, and the separation of associated data. */
module DataProperties {
  import opened Bytes
  import opened Aead
  import opened Randomness
  import opened TransportModel
  import opened DataModel
  import TransportHeader

  /** The protected-data slices, tag before ciphertext, are the whole buffer. */
  lemma DataPartitionIsExact(input: seq<byte>, h: DataHeader)
    requires |input| == ExpectedDataSize(h)
    ensures input == input[..DATA_HEADER_SIZE] + DataNonce(input, h) + DataTag(input, h) + DataCiphertext(input, h)
    ensures |DataNonce(input, h)| == h.nonceSize && |DataTag(input, h)| == h.tagSize && |DataCiphertext(input, h)| == h.plaintextSize
  {
  }

  lemma DataSlicesOfParts(h: DataHeader, nonce: seq<byte>, tag: seq<byte>, ciphertext: seq<byte>)
    ensures var input := EncodeData(h) + nonce + tag + ciphertext;
            |input| >= DATA_HEADER_SIZE && input[..4] == DATA_MAGIC && DecodeData(input) == h &&
            input[..DATA_HEADER_SIZE] == EncodeData(h) &&
            (|nonce| == h.nonceSize && |tag| == h.tagSize && |ciphertext| == h.plaintextSize ==>
              |input| == ExpectedDataSize(h) && DataNonce(input, h) == nonce &&
              DataTag(input, h) == tag && DataCiphertext(input, h) == ciphertext)
  {
    assert EncodeData(h) + nonce + tag + ciphertext == EncodeData(h) + (nonce + tag + ciphertext);
    DecodeDataInverts(h, nonce + tag + ciphertext);
  }

  /** No size is cut when written: the exact condition of the data round trip. */
  predicate SizesFit(cipher: AeadCipher, data: seq<byte>) {
    cipher.nonceSize < 0x1_0000 && cipher.tagSize < 0x1_0000 && |data| < 0x1_0000_0000
  }

  lemma DataSealed(config: DataConfig, env: Environment, plaintext: Span, context: Span) returns (cipher: AeadCipher, call: CipherCall)
    requires ProtectData(config, env, plaintext, context).result.success
    ensures FindCipher(env.ciphers, config.algorithm) == Some(cipher)
    ensures KeyRef(config.keyID, config.algorithm) in env.keys && call.key == env.keys[KeyRef(config.keyID, config.algorithm)]
    ensures |call.key| == cipher.keySize && |call.nonce| == cipher.nonceSize
    ensures call.algorithm == config.algorithm && call.plaintext == plaintext.Data() && config.keyID != 0 && !context.Dangling()
    ensures |call.tag| == cipher.tagSize && |call.ciphertext| == |plaintext.Data()|
    ensures var header := EncodeData(HeaderFor(config, cipher, |plaintext.Data()|));
            call.aad == Aad(header, context) &&
            cipher.seal(call.key, call.nonce, call.aad, call.plaintext) == Some(Sealed(call.ciphertext, call.tag)) &&
            ProtectData(config, env, plaintext, context).output == header + call.nonce + call.tag + call.ciphertext
    ensures ProtectData(config, env, plaintext, context).result == Ok(true)
    ensures ProtectData(config, env, plaintext, context).sealed == Some(call)
  {
    hide EncodeData;
    cipher := FindCipher(env.ciphers, config.algorithm).value;
    call := ProtectData(config, env, plaintext, context).sealed.value;
  }

  /** Parts written one after the other open exactly when the header declares their sizes and the limit admits them. */
  lemma PartsOpen(config: DataConfig, env: Environment, context: Span, h: DataHeader, cipher: AeadCipher,
                  nonce: seq<byte>, tag: seq<byte>, ciphertext: seq<byte>, data: seq<byte>)
    requires h.version == FORMAT_VERSION && h.keyID != 0 && !context.Dangling()
    requires |nonce| == cipher.nonceSize && |tag| == cipher.tagSize && |ciphertext| == |data|
    requires FindCipher(env.ciphers, h.algorithm) == Some(cipher)
    requires KeyRef(h.keyID, h.algorithm) in env.keys && |env.keys[KeyRef(h.keyID, h.algorithm)]| == cipher.keySize
    requires cipher.open(env.keys[KeyRef(h.keyID, h.algorithm)], nonce, Aad(EncodeData(h), context), ciphertext, tag) == Some(data)
    ensures var read := UnprotectData(config, env, Span(EncodeData(h) + nonce + tag + ciphertext), context);
            (read.result.success <==>
              h.nonceSize == cipher.nonceSize && h.tagSize == cipher.tagSize && h.plaintextSize == |data| &&
              |data| <= config.maximumPlaintextBytes) &&
            (read.result.success ==> read.result == Ok(true) && read.plaintext == data)
  {
    hide EncodeData, DecodeData;
    DataSlicesOfParts(h, nonce, tag, ciphertext);
  }

  /**
   Data round trip, exactly when: under the same context, by a protector with the same key and
   cipher for the record whatever its other configuration, a protected record opens to what was
   protected if and only if no size was cut and the plaintext limit admits it.
   */
  lemma DataRoundTrip(config: DataConfig, env: Environment, plaintext: Span, context: Span, config': DataConfig, env': Environment)
    requires ProtectData(config, env, plaintext, context).result.success
    requires FindCipher(env'.ciphers, config.algorithm) == FindCipher(env.ciphers, config.algorithm)
    requires forall c :: c in env.ciphers && c.algorithm == config.algorithm ==> Inverts(c)
    requires KeyRef(config.keyID, config.algorithm) in env.keys && KeyRef(config.keyID, config.algorithm) in env'.keys
    requires env'.keys[KeyRef(config.keyID, config.algorithm)] == env.keys[KeyRef(config.keyID, config.algorithm)]
    ensures FindCipher(env.ciphers, config.algorithm).Some?
    ensures var read := UnprotectData(config', env', Span(ProtectData(config, env, plaintext, context).output), context);
            (read.result.success <==>
              SizesFit(FindCipher(env.ciphers, config.algorithm).value, plaintext.Data()) &&
              |plaintext.Data()| <= config'.maximumPlaintextBytes) &&
            (read.result.success ==> read.result == Ok(true) && read.plaintext == plaintext.Data())
  {
    hide EncodeData, DecodeData, ProtectData, UnprotectData, FindCipher;
    var cipher, call := DataSealed(config, env, plaintext, context);
    var h := HeaderFor(config, cipher, |plaintext.Data()|);
    assert cipher.open(call.key, call.nonce, call.aad, call.ciphertext, call.tag) == Some(plaintext.Data());
    PartsOpen(config', env', context, h, cipher, call.nonce, call.tag, call.ciphertext, plaintext.Data());
  }

  // ----- Rotation -----

  datatype Rotation =
    | Reconfigure(config: DataConfig)
    | AddKey(ref: KeyRef, key: seq<byte>)
    | RemoveKey(ref: KeyRef)
    | ClearKeys
    | RegisterCipher(cipher: AeadCipher)
    | UnregisterCipher(algorithm: AeadAlgorithm)

  datatype Holdings = Holdings(config: DataConfig, ciphers: seq<AeadCipher>, keys: KeyTable)

  function Rotate(s: Holdings, op: Rotation): Holdings {
    match op
    case Reconfigure(config) => s.(config := config)
    case AddKey(ref, key) => s.(keys := s.keys[ref := key])
    case RemoveKey(ref) => s.(keys := s.keys - {ref})
    case ClearKeys => s.(keys := map[])
    case RegisterCipher(cipher) => s.(ciphers := Registered(s.ciphers, cipher))
    case UnregisterCipher(algorithm) => s.(ciphers := Unregistered(s.ciphers, algorithm))
  }

  function RotateAll(s: Holdings, ops: seq<Rotation>): Holdings {
    if ops == [] then s else Rotate(RotateAll(s, ops[..|ops| - 1]), ops[|ops| - 1])
  }

  /** The rotation leaves the key and the cipher of a record alone; registering a rival cipher is no threat. */
  predicate Spares(op: Rotation, ref: KeyRef) {
    match op
    case AddKey(other, _) => other != ref
    case RemoveKey(other) => other != ref
    case ClearKeys => false
    case UnregisterCipher(algorithm) => algorithm != ref.algorithm
    case _ => true
  }

  lemma {:induction false} SparedHoldings(s: Holdings, ops: seq<Rotation>, ref: KeyRef)
    requires UniqueAlgorithms(s.ciphers)
    requires ref in s.keys && FindCipher(s.ciphers, ref.algorithm).Some?
    requires forall op :: op in ops ==> Spares(op, ref)
    ensures var s' := RotateAll(s, ops);
            UniqueAlgorithms(s'.ciphers) && ref in s'.keys && s'.keys[ref] == s.keys[ref] &&
            FindCipher(s'.ciphers, ref.algorithm) == FindCipher(s.ciphers, ref.algorithm)
  {
    if ops != [] {
      var init, last := ops[..|ops| - 1], ops[|ops| - 1];
      SparedHoldings(s, init, ref);
      assert Spares(last, ref);
      var mid := RotateAll(s, init);
      if last.RegisterCipher? {
        RegisterInserts(mid.ciphers, last.cipher, ref.algorithm);
      } else if last.UnregisterCipher? {
        UnregisterRemoves(mid.ciphers, last.algorithm, ref.algorithm);
      }
    }
  }

  /** A record stays readable through every rotation that spares its key and cipher, exactly while the limit admits it. */
  lemma RoundTripAcrossRotation(s: Holdings, script: seq<Draw>, plaintext: Span, context: Span, ops: seq<Rotation>, later: seq<Draw>)
    requires UniqueAlgorithms(s.ciphers)
    requires forall c :: c in s.ciphers ==> Inverts(c)
    requires forall op :: op in ops ==> Spares(op, KeyRef(s.config.keyID, s.config.algorithm))
    ensures var sealed := ProtectData(s.config, Environment(s.ciphers, s.keys, script, true), plaintext, context);
            var s' := RotateAll(s, ops);
            var read := UnprotectData(s'.config, Environment(s'.ciphers, s'.keys, later, true), Span(sealed.output), context);
            sealed.result.success ==>
              FindCipher(s.ciphers, s.config.algorithm).Some? &&
              (read.result == Ok(true) && read.plaintext == plaintext.Data() <==>
                SizesFit(FindCipher(s.ciphers, s.config.algorithm).value, plaintext.Data()) &&
                |plaintext.Data()| <= s'.config.maximumPlaintextBytes)
  {
    hide UnprotectData, RotateAll;
    var env := Environment(s.ciphers, s.keys, script, true);
    var ref := KeyRef(s.config.keyID, s.config.algorithm);
    if ProtectData(s.config, env, plaintext, context).result.success {
      var cipher, call := DataSealed(s.config, env, plaintext, context);
      hide ProtectData;
      SparedHoldings(s, ops, ref);
      var s' := RotateAll(s, ops);
      DataRoundTrip(s.config, env, plaintext, context, s'.config, Environment(s'.ciphers, s'.keys, later, true));
    }
  }

  // ----- Associated data -----

  /** The context is bound: associated data are equal only for the same header bytes and the same context bytes. */
  lemma AadIsInjective(h: DataHeader, context: Span, h': DataHeader, context': Span)
    requires !context.Dangling() && !context'.Dangling()
    ensures Aad(EncodeData(h), context) == Aad(EncodeData(h'), context') <==> h == h' && context.Data() == context'.Data()
  {
    var a, a' := Aad(EncodeData(h), context), Aad(EncodeData(h'), context');
    assert a == EncodeData(h) + context.Data() && a' == EncodeData(h') + context'.Data();
    if a == a' {
      DecodeDataInverts(h, context.Data());
      DecodeDataInverts(h', context'.Data());
      assert context.Data() == a[DATA_HEADER_SIZE..] == a'[DATA_HEADER_SIZE..] == context'.Data();
    }
  }

  /** No associated data of a record is the header of a transport envelope, whatever the context. */
  lemma FormatsAreSeparate(h: DataHeader, context: Span, t: TransportHeader.Header)
    requires t.magic == TransportHeader.ENVELOPE_MAGIC
    ensures Aad(EncodeData(h), context) != TransportHeader.Encode(t)
  {
    hide TransportHeader.Encode, EncodeData;
    DecodeDataInverts(h, context.Data());
    DecodeDataInverts(h, []);
    assert EncodeData(h) + [] == EncodeData(h);
    assert Aad(EncodeData(h), context)[..4] == DATA_MAGIC;
    TransportHeader.DecodeInvertsEncode(t, []);
    assert TransportHeader.Encode(t) + [] == TransportHeader.Encode(t);
    TransportHeader.MagicBytes(TransportHeader.Encode(t));
    assert DATA_MAGIC[2] != 0x50;
  }

  /** What a successful read cut out of the envelope and opened. */
  lemma ReadShape(config: DataConfig, env: Environment, input: Span, context: Span) returns (h: DataHeader, call: CipherCall)
    requires UnprotectData(config, env, input, context).result.success
    ensures UnprotectData(config, env, input, context).unsealed == Some(call)
    ensures input.Data() == EncodeData(h) + call.nonce + call.tag + call.ciphertext
    ensures call.algorithm == h.algorithm && call.aad == Aad(EncodeData(h), context) && !context.Dangling()
    ensures call.plaintext == UnprotectData(config, env, input, context).plaintext
    ensures var cipher := FindCipher(env.ciphers, h.algorithm);
            cipher.Some? && cipher.value.open(call.key, call.nonce, call.aad, call.ciphertext, call.tag) == Some(call.plaintext)
  {
    hide EncodeData, DecodeData;
    h := DecodeData(input.bytes);
    call := UnprotectData(config, env, input, context).unsealed.value;
    EncodeDataInverts(input.bytes);
    DataPartitionIsExact(input.bytes, h);
  }
}

/** The DataProtector object. */
module DataProtectors {
  import opened Bytes
  import opened Buffers
  import opened Aead
  import opened Randomness
  import opened TransportModel
  import opened TransportSecurities
  import opened DataModel

  class DataProtector {
    const ciphers: AeadCipherRegistry
    const keys: KeyProvider
    const random: RandomSource
    var config: DataConfig

    ghost function Around(): Environment
      reads ciphers, keys, random
    {
      Environment(ciphers.ciphers, keys.table, random.script, true)
    }

    constructor (ciphers: AeadCipherRegistry, keys: KeyProvider, random: RandomSource, config: DataConfig)
      ensures this.ciphers == ciphers && this.keys == keys && this.random == random && this.config == config
    {
      this.ciphers, this.keys, this.random, this.config := ciphers, keys, random, config;
    }

    method SetConfig(config: DataConfig)
      modifies this
      ensures this.config == config
    {
      this.config := config;
    }

    /** Writes the 18 header bytes over the front of the buffer. */
    static method WriteHeader(out: SecurityBuffer, h: DataHeader)
      requires |out.bytes| >= DATA_HEADER_SIZE
      modifies out
      ensures out.bytes == EncodeData(h) + old(out.bytes)[DATA_HEADER_SIZE..]
    {
      out.Fill(0, DATA_MAGIC + [h.version, h.algorithm]);
      out.WriteWord(6, h.keyID, 4);
      assert out.bytes == DATA_MAGIC + [h.version, h.algorithm] + LittleEndian(h.keyID, 4) + old(out.bytes)[10..];
      out.WriteWord(10, h.nonceSize, 2);
      out.WriteWord(12, h.tagSize, 2);
      assert out.bytes == DATA_MAGIC + [h.version, h.algorithm] + LittleEndian(h.keyID, 4)
             + LittleEndian(h.nonceSize, 2) + LittleEndian(h.tagSize, 2) + old(out.bytes)[14..];
      out.WriteWord(14, h.plaintextSize, 4);
    }

    /** Reads the header; fails without the magic or with key ID zero. */
    static method ReadHeader(data: seq<byte>) returns (ok: bool, h: DataHeader)
      ensures ok <==> |data| >= DATA_HEADER_SIZE && data[..4] == DATA_MAGIC && DecodeData(data).keyID != 0
      ensures ok ==> h == DecodeData(data)
    {
      h := DataHeader(0, 0, 0, 0, 0, 0);
      if |data| < DATA_HEADER_SIZE || data[..4] != DATA_MAGIC {
        return false, h;
      }
      WordPowers();
      var _, _, keyID := ReadWord(data, 6, 4);
      var _, _, nonceSize := ReadWord(data, 10, 2);
      var _, _, tagSize := ReadWord(data, 12, 2);
      var _, _, plaintextSize := ReadWord(data, 14, 4);
      h := DataHeader(data[4], data[5], keyID, nonceSize, tagSize, plaintextSize);
      return h.keyID != 0, h;
    }

    method Protect(plaintext: Span, output: SecurityBuffer, context: Span) returns (result: SecurityResult)
      modifies random, output
      ensures var outcome := ProtectData(config, old(Around()), plaintext, context);
              result == outcome.result && output.bytes == outcome.output && random.script == outcome.script
    {
      output.Clear();
      if plaintext.Dangling() || context.Dangling() || config.keyID == 0 {
        return Fail(InvalidArgument);
      }
      if plaintext.Size() > config.maximumPlaintextBytes {
        return Fail(BufferLimitExceeded);
      }
      var cipher := ciphers.Find(config.algorithm);
      if cipher.None? {
        return Fail(UnsupportedAlgorithm);
      }
      var haveKey, key := keys.GetKey(config.keyID, config.algorithm);
      if !haveKey {
        return Fail(MissingKey);
      }
      if |key| != cipher.value.keySize {
        return Fail(InvalidKeyLength);
      }
      result := SealInto(plaintext.Data(), context, cipher.value, key, output);
    }

    /** The rest of Protect, once cipher and key are at hand. */
    method SealInto(data: seq<byte>, context: Span, cipher: AeadCipher, key: seq<byte>, output: SecurityBuffer) returns (result: SecurityResult)
      requires output.bytes == [] && !context.Dangling()
      modifies random, output
      ensures var outcome := SealData(old(random.script), EncodeData(HeaderFor(config, cipher, |data|)), data, context, cipher, key);
              result == outcome.result && output.bytes == outcome.output && random.script == outcome.script
    {
      var tagOffset := DATA_HEADER_SIZE + cipher.nonceSize;
      var ciphertextOffset := tagOffset + cipher.tagSize;
      output.Resize(ciphertextOffset + |data|);
      WriteHeader(output, DataHeader(
        FORMAT_VERSION, config.algorithm, config.keyID,
        cipher.nonceSize % 0x1_0000, cipher.tagSize % 0x1_0000, |data| % 0x1_0000_0000));
      result := FillOutput(data, context, cipher, key, tagOffset, ciphertextOffset, output);
    }

    /** The rest of Protect, once the header is written over the front of the sized buffer. */
    method FillOutput(
      data: seq<byte>, context: Span, cipher: AeadCipher, key: seq<byte>, tagOffset: nat, ciphertextOffset: nat,
      output: SecurityBuffer)
      returns (result: SecurityResult)
      requires tagOffset == DATA_HEADER_SIZE + cipher.nonceSize && ciphertextOffset == tagOffset + cipher.tagSize
      requires |output.bytes| == ciphertextOffset + |data| && !context.Dangling()
      modifies random, output
      ensures var outcome := SealData(old(random.script), old(output.bytes)[..DATA_HEADER_SIZE], data, context, cipher, key);
              result == outcome.result && output.bytes == outcome.output && random.script == outcome.script
    {
      var drawn, nonce := random.Fill(cipher.nonceSize);
      output.Fill(DATA_HEADER_SIZE, nonce);
      if !drawn {
        output.Clear();
        return Fail(RandomFailure);
      }
      assert output.bytes[..DATA_HEADER_SIZE] == old(output.bytes)[..DATA_HEADER_SIZE];
      assert output.bytes[..tagOffset] == old(output.bytes)[..DATA_HEADER_SIZE] + nonce;
      var aad := output.bytes[..DATA_HEADER_SIZE];
      if context.Size() != 0 {
        aad := aad + context.bytes;
      }
      var sealed := cipher.seal(key, nonce, aad, data);
      if sealed.None? {
        output.Clear();
        return Fail(EncryptionFailed);
      }
      output.Fill(tagOffset, sealed.value.tag);
      assert output.bytes[..ciphertextOffset] == old(output.bytes)[..DATA_HEADER_SIZE] + nonce + sealed.value.tag;
      output.Fill(ciphertextOffset, sealed.value.ciphertext);
      return Ok(true);
    }

    method Unprotect(input: Span, context: Span) returns (result: SecurityResult, plaintext: seq<byte>)
      ensures var outcome := UnprotectData(config, Around(), input, context);
              result == outcome.result && plaintext == outcome.plaintext
    {
      plaintext := [];
      if input.NullSpan? || |input.bytes| < DATA_HEADER_SIZE || context.Dangling() {
        return Fail(InvalidArgument), plaintext;
      }
      var ok, h := ReadHeader(input.bytes);
      if !ok {
        return Fail(MalformedEnvelope), plaintext;
      }
      result, plaintext := OpenWhole(input.bytes, context, h);
    }

    /** The rest of Unprotect, once the header is read. */
    method OpenWhole(input: seq<byte>, context: Span, h: DataHeader) returns (result: SecurityResult, plaintext: seq<byte>)
      requires |input| >= DATA_HEADER_SIZE && !context.Dangling()
      ensures var outcome := OpenData(config, Around(), input, context, h);
              result == outcome.result && plaintext == outcome.plaintext
    {
      plaintext := [];
      if h.version != FORMAT_VERSION {
        return Fail(UnsupportedVersion), plaintext;
      }
      if h.plaintextSize > config.maximumPlaintextBytes {
        return Fail(BufferLimitExceeded), plaintext;
      }
      var cipher := ciphers.Find(h.algorithm);
      if cipher.None? {
        return Fail(UnsupportedAlgorithm), plaintext;
      }
      if h.nonceSize != cipher.value.nonceSize || h.tagSize != cipher.value.tagSize {
        return Fail(MalformedEnvelope), plaintext;
      }
      var expected := DATA_HEADER_SIZE + h.nonceSize + h.tagSize + h.plaintextSize;
      if expected != |input| {
        return Fail(MalformedEnvelope), plaintext;
      }
      var haveKey, key := keys.GetKey(h.keyID, h.algorithm);
      if !haveKey {
        return Fail(MissingKey), plaintext;
      }
      if |key| != cipher.value.keySize {
        return Fail(InvalidKeyLength), plaintext;
      }
      var tag := DATA_HEADER_SIZE + h.nonceSize;
      var ciphertext := tag + h.tagSize;
      var aad := input[..DATA_HEADER_SIZE];
      if context.Size() != 0 {
        aad := aad + context.bytes;
      }
      var opening := cipher.value.open(key, input[DATA_HEADER_SIZE..tag], aad, input[ciphertext..], input[tag..ciphertext]);
      if opening.None? {
        return Fail(AuthenticationFailed), plaintext;
      }
      return Ok(true), opening.value;
    }
  }
}
