/** Growable byte storage, and the writers and readers that fill and scan it one byte at a time. */
module Buffers {
  import opened Bytes
  import opened Bitmap

  /** Byte `i` of a word: `static_cast<uint8_t>(v >> (i * 8))`. */
  function ByteAt(v: nat, i: nat): byte {
    (v / Power256(i)) % 256
  }

  class SecurityBuffer {
    var bytes: seq<byte>

    constructor ()
      ensures bytes == []
    {
      bytes := [];
    }

    method PushBack(b: byte)
      modifies this
      ensures bytes == old(bytes) + [b]
    {
      bytes := bytes + [b];
    }

    /** Append16, Append32 and Append64: the low `width` bytes of `v`, least significant first. */
    method AppendWord(v: nat, width: nat)
      modifies this
      ensures bytes == old(bytes) + LittleEndian(v, width)
    {
      var i := 0;
      while i < width
        invariant i <= width
        invariant bytes == old(bytes) + LittleEndian(v, width)[..i]
      {
        ByteOfWord(v, width, i);
        bytes := bytes + [ByteAt(v, i)];
        i := i + 1;
      }
    }

    /** WriteU16 and WriteU32: the same bytes, written over existing storage. */
    method WriteWord(at: nat, v: nat, width: nat)
      requires at + width <= |bytes|
      modifies this
      ensures bytes == old(bytes)[..at] + LittleEndian(v, width) + old(bytes)[at + width..]
    {
      var i := 0;
      while i < width
        invariant i <= width
        invariant bytes == old(bytes)[..at] + LittleEndian(v, width)[..i] + old(bytes)[at + i..]
      {
        ByteOfWord(v, width, i);
        bytes := bytes[at + i := ByteAt(v, i)];
        i := i + 1;
      }
    }

    method Resize(size: nat)
      modifies this
      ensures bytes == if size <= |old(bytes)| then old(bytes)[..size] else old(bytes) + Zeros(size - |old(bytes)|)
    {
      bytes := if size <= |bytes| then bytes[..size] else bytes + Zeros(size - |bytes|);
    }

    /** A callee filled `data.Length` bytes of the storage from `at` on. */
    method Fill(at: nat, data: seq<byte>)
      requires at + |data| <= |bytes|
      modifies this
      ensures bytes == old(bytes)[..at] + data + old(bytes)[at + |data|..]
    {
      bytes := bytes[..at] + data + bytes[at + |data|..];
    }

    method Assign(data: seq<byte>)
      modifies this
      ensures bytes == data
    {
      bytes := data;
    }

    method Clear()
      modifies this
      ensures bytes == []
    {
      bytes := [];
    }

    /** Overwrites the storage with zeros and then gives it up; `released` is what the memory held last. */
    method SecureErase() returns (released: seq<byte>)
      modifies this
      ensures bytes == []
      ensures released == Zeros(|old(bytes)|)
    {
      var i := 0;
      while i < |bytes|
        invariant i <= |bytes| == |old(bytes)|
        invariant forall j :: 0 <= j < i ==> bytes[j] == 0
      {
        bytes := bytes[i := 0];
        i := i + 1;
      }
      released := bytes;
      bytes := [];
    }
  }

  /** Read8, Read16, Read32 and Read64: fails at the end of the input, else reads and advances. */
  method ReadWord(input: seq<byte>, offset: nat, width: nat) returns (ok: bool, next: nat, v: nat)
    requires width <= 8
    ensures ok <==> offset + width <= |input|
    ensures ok ==> next == offset + width && v == FromLittleEndian(input[offset..offset + width])
    ensures ok ==> v < Power256(width)
    ensures !ok ==> next == offset && v == 0
  {
    if offset + width > |input| {
      return false, offset, 0;
    }
    var word := input[offset..offset + width];
    v := 0;
    var n := 0;
    while n < width
      invariant n <= width
      invariant v == FromLittleEndian(word[..n])
    {
      AppendedByte(word[..n], word[n]);
      assert word[..n] + [word[n]] == word[..n + 1];
      ByteAbove(v, word[n], n);
      v := Or(v, ShiftLeft(word[n], 8 * n));
      n := n + 1;
    }
    assert word[..width] == word;
    return true, offset + width, v;
  }
}
