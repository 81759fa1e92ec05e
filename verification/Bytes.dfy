/** Machine words, byte spans and the little-endian encoding both envelope formats use. */
module Bytes {

  datatype Option<+T> = None | Some(value: T)

  type byte = b: int | 0 <= b < 0x100
  type uint16 = w: int | 0 <= w < 0x1_0000
  type uint32 = w: int | 0 <= w < 0x1_0000_0000
  type uint64 = w: int | 0 <= w < 0x1_0000_0000_0000_0000

  const UINT64_MAX: uint64 := 0xFFFF_FFFF_FFFF_FFFF

  /** A (pointer, size) argument pair: the pointer may be null whatever the size says. */
  datatype Span = NullSpan(size: uint64) | Span(bytes: seq<byte>) {

    /** The pair no operation accepts: a null pointer with a non-zero size. */
    predicate Dangling() {
      NullSpan? && size != 0
    }

    function Size(): nat {
      if NullSpan? then size else |bytes|
    }

    function Data(): seq<byte> {
      if NullSpan? then [] else bytes
    }
  }

  function Zeros(n: nat): (zeros: seq<byte>)
    ensures |zeros| == n
    ensures forall i :: 0 <= i < n ==> zeros[i] == 0
  {
    seq(n, i => 0)
  }

  function Power256(n: nat): (p: nat)
    ensures p > 0
  {
    if n == 0 then 1 else 256 * Power256(n - 1)
  }

  lemma WordPowers()
    ensures Power256(1) == 0x100
    ensures Power256(2) == 0x1_0000
    ensures Power256(4) == 0x1_0000_0000
    ensures Power256(8) == 0x1_0000_0000_0000_0000
  {
    assert Power256(3) == 256 * Power256(2);
    assert Power256(5) == 256 * Power256(4);
    assert Power256(7) == 256 * Power256(6);
  }

  /** The low `n` bytes of `v`, least significant first. */
  function LittleEndian(v: nat, n: nat): (s: seq<byte>)
    ensures |s| == n
  {
    if n == 0 then [] else [v % 256] + LittleEndian(v / 256, n - 1)
  }

  function FromLittleEndian(s: seq<byte>): (v: nat)
    ensures v < Power256(|s|)
  {
    if s == [] then 0 else s[0] + 256 * FromLittleEndian(s[1..])
  }

  lemma {:induction false} DecodeEncode(v: nat, n: nat)
    requires v < Power256(n)
    ensures FromLittleEndian(LittleEndian(v, n)) == v
  {
    if n == 0 {
    } else {
      DecodeEncode(v / 256, n - 1);
      assert LittleEndian(v, n)[1..] == LittleEndian(v / 256, n - 1);
    }
  }

  lemma {:induction false} EncodeDecode(s: seq<byte>)
    ensures LittleEndian(FromLittleEndian(s), |s|) == s
  {
    if s == [] {
    } else {
      var rest := FromLittleEndian(s[1..]);
      EncodeDecode(s[1..]);
      assert (s[0] + 256 * rest) % 256 == s[0] && (s[0] + 256 * rest) / 256 == rest;
      assert [s[0]] + LittleEndian(rest, |s| - 1) == s;
    }
  }

  /** Only zero bytes are worth zero. */
  lemma {:induction false} ZeroBytes(s: seq<byte>)
    ensures FromLittleEndian(s) == 0 <==> s == Zeros(|s|)
  {
    if s != [] {
      ZeroBytes(s[1..]);
      assert s == [s[0]] + s[1..];
      assert Zeros(|s|)[1..] == Zeros(|s| - 1);
      if s[0] == 0 && s[1..] == Zeros(|s| - 1) {
        assert s == Zeros(|s|);
      }
    }
  }

  /** A further byte is worth its value shifted left past the bytes already read. */
  lemma {:induction false} AppendedByte(s: seq<byte>, b: byte)
    ensures FromLittleEndian(s + [b]) == FromLittleEndian(s) + Power256(|s|) * b
  {
    if s == [] {
    } else {
      AppendedByte(s[1..], b);
      assert (s + [b])[1..] == s[1..] + [b];
      assert 256 * (Power256(|s| - 1) * b) == Power256(|s|) * b;
    }
  }

  /** Byte `i` of the encoding is what shifting the word right by `8 * i` bits leaves in its low byte. */
  lemma {:induction false} ByteOfWord(v: nat, n: nat, i: nat)
    requires i < n
    ensures LittleEndian(v, n)[i] == (v / Power256(i)) % 256
  {
    if i == 0 {
    } else {
      ByteOfWord(v / 256, n - 1, i - 1);
      DivideTwice(v, 256, Power256(i - 1));
    }
  }

  lemma DivideTwice(v: nat, a: nat, b: nat)
    requires a > 0 && b > 0
    ensures a * b > 0
    ensures (v / a) / b == v / (a * b)
  {
    var q, r := (v / a) / b, (v / a) % b;
    var s := v % a;
    assert v == a * (v / a) + s && v / a == b * q + r;
    Regroup(a, b, q, r);
    SmallRemainder(a, b, r, s);
    QuotientIsUnique(v, a * b, q, a * r + s);
  }

  lemma Regroup(a: nat, b: nat, q: nat, r: nat)
    ensures a * (b * q + r) == (a * b) * q + a * r
  {
  }

  lemma SmallRemainder(a: nat, b: nat, r: nat, s: nat)
    requires r < b && s < a
    ensures 0 <= a * r + s < a * b
  {
    Distribute(a, r + 1, b - r - 1);
    Distribute(a, r, 1);
    NoLess(a, b - r - 1);
  }

  lemma Distribute(a: nat, x: nat, y: nat)
    ensures a * (x + y) == a * x + a * y
  {
  }

  lemma NoLess(a: nat, x: nat)
    ensures a * x >= 0
  {
  }

  lemma QuotientIsUnique(v: nat, d: nat, q: nat, r: nat)
    requires d > 0 && r < d && v == d * q + r
    ensures v / d == q
  {
    var k := q - v / d;
    assert d * k == v % d - r by {
      assert d * (q - v / d) == d * q - d * (v / d);
    }
    SmallMultiple(d, k);
  }

  lemma SmallMultiple(d: nat, k: int)
    ensures k != 0 ==> d * k >= d || d * k <= -(d as int)
  {
    if k >= 1 {
      assert d * (k - 1) >= 0;
    } else if k <= -1 {
      assert d * (-k - 1) >= 0;
    }
  }
}
