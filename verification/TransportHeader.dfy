/** The fixed 44-byte ESPS header of a transport envelope. */
module TransportHeader {
  import opened Bytes
  import opened Buffers

  const ENVELOPE_MAGIC: uint32 := 0x5350_5345
  const ENVELOPE_VERSION: byte := 1
  const FIXED_HEADER_SIZE: nat := 44

  datatype Header = Header(
    magic: uint32, version: byte, algorithm: byte, flags: byte, protocol: byte,
    keyID: uint32, senderID: uint64, sessionID: uint64, sequence: uint64,
    nonceLength: byte, tagLength: byte, reserved: uint16, ciphertextLength: uint32)

  function Encode(h: Header): (s: seq<byte>)
    ensures |s| == FIXED_HEADER_SIZE
  {
    EncodeIdentity(h) + EncodeFreshness(h)
  }

  function EncodeIdentity(h: Header): (s: seq<byte>)
    ensures |s| == 20
  {
    LittleEndian(h.magic, 4) + [h.version, h.algorithm, h.flags, h.protocol]
    + LittleEndian(h.keyID, 4) + LittleEndian(h.senderID, 8)
  }

  function EncodeFreshness(h: Header): (s: seq<byte>)
    ensures |s| == 24
  {
    LittleEndian(h.sessionID, 8) + LittleEndian(h.sequence, 8)
    + [h.nonceLength, h.tagLength] + LittleEndian(h.reserved, 2) + LittleEndian(h.ciphertextLength, 4)
  }

  function Decode(s: seq<byte>): Header
    requires |s| >= FIXED_HEADER_SIZE
  {
    WordPowers();
    Header(FromLittleEndian(s[0..4]), s[4], s[5], s[6], s[7],
           FromLittleEndian(s[8..12]), FromLittleEndian(s[12..20]),
           FromLittleEndian(s[20..28]), FromLittleEndian(s[28..36]),
           s[36], s[37], FromLittleEndian(s[38..40]), FromLittleEndian(s[40..44]))
  }

  /** Reading an envelope that starts with a written header gives every field back. */
  lemma DecodeInvertsEncode(h: Header, rest: seq<byte>)
    ensures Decode(Encode(h) + rest) == h
  {
    var s := Encode(h) + rest;
    WordPowers();
    FieldsAt(h, rest);
    DecodeEncode(h.magic, 4);
    DecodeEncode(h.keyID, 4);
    DecodeEncode(h.senderID, 8);
    DecodeEncode(h.sessionID, 8);
    DecodeEncode(h.sequence, 8);
    DecodeEncode(h.reserved, 2);
    DecodeEncode(h.ciphertextLength, 4);
  }

  lemma FieldsAt(h: Header, rest: seq<byte>)
    ensures var s := Encode(h) + rest;
            s[0..4] == LittleEndian(h.magic, 4) && s[4..8] == [h.version, h.algorithm, h.flags, h.protocol] &&
            s[8..12] == LittleEndian(h.keyID, 4) && s[12..20] == LittleEndian(h.senderID, 8) &&
            s[20..28] == LittleEndian(h.sessionID, 8) && s[28..36] == LittleEndian(h.sequence, 8) &&
            s[36] == h.nonceLength && s[37] == h.tagLength &&
            s[38..40] == LittleEndian(h.reserved, 2) && s[40..44] == LittleEndian(h.ciphertextLength, 4)
    ensures var s := Encode(h) + rest;
            s[4] == h.version && s[5] == h.algorithm && s[6] == h.flags && s[7] == h.protocol
  {
  }

  /** Writing all decoded fields, flags and reserved included, gives the 44 bytes read back. */
  lemma EncodeInvertsDecode(s: seq<byte>)
    requires |s| >= FIXED_HEADER_SIZE
    ensures Encode(Decode(s)) == s[..FIXED_HEADER_SIZE]
  {
    WordPowers();
    EncodeDecode(s[0..4]);
    EncodeDecode(s[8..12]);
    EncodeDecode(s[12..20]);
    EncodeDecode(s[20..28]);
    EncodeDecode(s[28..36]);
    EncodeDecode(s[38..40]);
    EncodeDecode(s[40..44]);
  }

  /** The bytes that are authenticated determine every field, and every field is authenticated. */
  lemma HeaderBytesAreInjective(s: seq<byte>, t: seq<byte>)
    requires |s| >= FIXED_HEADER_SIZE && |t| >= FIXED_HEADER_SIZE
    ensures s[..FIXED_HEADER_SIZE] == t[..FIXED_HEADER_SIZE] <==> Decode(s) == Decode(t)
  {
    EncodeInvertsDecode(s);
    EncodeInvertsDecode(t);
    if s[..FIXED_HEADER_SIZE] == t[..FIXED_HEADER_SIZE] {
      DecodeInvertsEncode(Decode(s), []);
      DecodeInvertsEncode(Decode(t), []);
    }
  }

  /** LooksProtected: the input starts with the envelope magic. */
  predicate LooksProtected(input: seq<byte>) {
    |input| >= 4 && FromLittleEndian(input[0..4]) == ENVELOPE_MAGIC
  }

  /** The magic is the ASCII text "ESPS". */
  lemma MagicBytes(input: seq<byte>)
    ensures LooksProtected(input) <==> |input| >= 4 && input[..4] == [0x45, 0x53, 0x50, 0x53]
  {
    var magic := [0x45, 0x53, 0x50, 0x53];
    assert LittleEndian(ENVELOPE_MAGIC, 4) == magic;
    WordPowers();
    DecodeEncode(ENVELOPE_MAGIC, 4);
    if LooksProtected(input) {
      EncodeDecode(input[0..4]);
    }
  }

  /** The Append calls of the sender, in order. */
  method WriteHeader(output: SecurityBuffer, h: Header)
    modifies output
    ensures output.bytes == old(output.bytes) + Encode(h)
  {
    WriteIdentity(output, h);
    WriteFreshness(output, h);
  }

  method WriteIdentity(output: SecurityBuffer, h: Header)
    modifies output
    ensures output.bytes == old(output.bytes) + EncodeIdentity(h)
  {
    hide LittleEndian;
    output.AppendWord(h.magic, 4);
    output.PushBack(h.version);
    output.PushBack(h.algorithm);
    output.PushBack(h.flags);
    output.PushBack(h.protocol);
    assert output.bytes == old(output.bytes)
           + (LittleEndian(h.magic, 4) + [h.version, h.algorithm, h.flags, h.protocol]);
    output.AppendWord(h.keyID, 4);
    output.AppendWord(h.senderID, 8);
  }

  method WriteFreshness(output: SecurityBuffer, h: Header)
    modifies output
    ensures output.bytes == old(output.bytes) + EncodeFreshness(h)
  {
    hide LittleEndian;
    output.AppendWord(h.sessionID, 8);
    output.AppendWord(h.sequence, 8);
    ghost var words := LittleEndian(h.sessionID, 8) + LittleEndian(h.sequence, 8);
    assert output.bytes == old(output.bytes) + words;
    output.PushBack(h.nonceLength);
    output.PushBack(h.tagLength);
    assert output.bytes == old(output.bytes) + (words + [h.nonceLength, h.tagLength]);
    output.AppendWord(h.reserved, 2);
    output.AppendWord(h.ciphertextLength, 4);
  }

  /** The Read calls of the receiver, in order; the first one past the end of the input fails. */
  method ReadHeader(input: seq<byte>) returns (ok: bool, h: Header)
    ensures ok <==> |input| >= FIXED_HEADER_SIZE
    ensures ok ==> h == Decode(input)
  {
    h := Header(0, 0, 0, 0, 0, 0, 0, 0, 0, 0, 0, 0, 0);
    var offset;
    ok, offset, h := ReadIdentity(input, h);
    if ok {
      ok, h := ReadFreshness(input, offset, h);
    }
  }

  method ReadIdentity(input: seq<byte>, blank: Header) returns (ok: bool, offset: nat, h: Header)
    ensures ok <==> |input| >= 20
    ensures ok ==> offset == 20
    ensures ok && |input| >= FIXED_HEADER_SIZE ==>
      var d := Decode(input);
      h == blank.(magic := d.magic, version := d.version, algorithm := d.algorithm, flags := d.flags,
                  protocol := d.protocol, keyID := d.keyID, senderID := d.senderID)
  {
    WordPowers();
    h := blank;
    var magic, version, algorithm, flags, protocol, keyID, senderID;
    ok, offset, magic := ReadWord(input, 0, 4);
    if !ok { return; }
    ok, offset, version := ReadWord(input, offset, 1);
    if !ok { return; }
    ok, offset, algorithm := ReadWord(input, offset, 1);
    if !ok { return; }
    ok, offset, flags := ReadWord(input, offset, 1);
    if !ok { return; }
    ok, offset, protocol := ReadWord(input, offset, 1);
    if !ok { return; }
    ok, offset, keyID := ReadWord(input, offset, 4);
    if !ok { return; }
    ok, offset, senderID := ReadWord(input, offset, 8);
    if !ok { return; }
    h := blank.(magic := magic, version := version, algorithm := algorithm, flags := flags,
                protocol := protocol, keyID := keyID, senderID := senderID);
  }

  method ReadFreshness(input: seq<byte>, start: nat, identity: Header) returns (ok: bool, h: Header)
    requires start == 20
    ensures ok <==> |input| >= FIXED_HEADER_SIZE
    ensures ok ==>
      var d := Decode(input);
      h == identity.(sessionID := d.sessionID, sequence := d.sequence, nonceLength := d.nonceLength,
                     tagLength := d.tagLength, reserved := d.reserved, ciphertextLength := d.ciphertextLength)
  {
    WordPowers();
    h := identity;
    var offset, sessionID, sequence, nonceLength, tagLength, reserved, ciphertextLength;
    ok, offset, sessionID := ReadWord(input, start, 8);
    if !ok { return; }
    ok, offset, sequence := ReadWord(input, offset, 8);
    if !ok { return; }
    ok, offset, nonceLength := ReadWord(input, offset, 1);
    if !ok { return; }
    ok, offset, tagLength := ReadWord(input, offset, 1);
    if !ok { return; }
    ok, offset, reserved := ReadWord(input, offset, 2);
    if !ok { return; }
    ok, offset, ciphertextLength := ReadWord(input, offset, 4);
    if !ok { return; }
    h := identity.(sessionID := sessionID, sequence := sequence, nonceLength := nonceLength,
                   tagLength := tagLength, reserved := reserved, ciphertextLength := ciphertextLength);
  }
}
