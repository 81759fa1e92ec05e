/** The XOR-and-hash cipher of the repository's tests: a cipher that satisfies Law A exists. */
module TestCipher {
  import opened Bytes
  import opened Bitmap
  import opened Aead

  const KEY_SIZE: nat := 16
  const NONCE_SIZE: nat := 12
  const TAG_SIZE: nat := 16

  /** `a ^ b` */
  function XorWords(a: nat, b: nat): nat {
    if a == 0 then b else if b == 0 then a
    else (if a % 2 != b % 2 then 1 else 0) + 2 * XorWords(a / 2, b / 2)
  }

  lemma {:induction false} XorFits(a: nat, b: nat, n: nat)
    requires a < Power2(n) && b < Power2(n)
    ensures XorWords(a, b) < Power2(n)
  {
    if a > 0 && b > 0 {
      XorFits(a / 2, b / 2, n - 1);
    }
  }

  function Xor(a: byte, b: byte): byte {
    XorFits(a, b, 8);
    XorWords(a, b)
  }

  lemma {:induction false} XorTwice(a: nat, k: nat)
    ensures XorWords(XorWords(a, k), k) == a
  {
    if a > 0 && k > 0 {
      XorTwice(a / 2, k / 2);
    } else if k > 0 {
      XorSelf(k);
    }
  }

  lemma {:induction false} XorSelf(k: nat)
    ensures XorWords(k, k) == 0
  {
    if k > 0 {
      XorSelf(k / 2);
    }
  }

  lemma {:induction false} XorCommutes(a: nat, n: nat, k: nat)
    ensures XorWords(XorWords(a, n), k) == XorWords(XorWords(a, k), n)
  {
    if a > 0 || n > 0 || k > 0 {
      XorHalves(a, n);
      XorHalves(a, k);
      XorHalves(XorWords(a, n), k);
      XorHalves(XorWords(a, k), n);
      XorCommutes(a / 2, n / 2, k / 2);
    }
  }

  lemma XorHalves(a: nat, b: nat)
    ensures XorWords(a, b) / 2 == XorWords(a / 2, b / 2)
    ensures XorWords(a, b) % 2 == if a % 2 != b % 2 then 1 else 0
  {
    if a > 0 && b > 0 {
      var low := if a % 2 != b % 2 then 1 else 0;
      LowAndHalf(low, XorWords(a / 2, b / 2));
    }
  }

  lemma LowAndHalf(low: nat, rest: nat)
    requires low <= 1
    ensures (low + 2 * rest) / 2 == rest && (low + 2 * rest) % 2 == low
  {
  }

  /** The key stream both directions apply: `x[i] ^ key[i % 16] ^ nonce[i % 12]`. */
  function Stream(data: seq<byte>, key: seq<byte>, nonce: seq<byte>): (out: seq<byte>)
    requires |key| == KEY_SIZE && |nonce| == NONCE_SIZE
    ensures |out| == |data|
  {
    seq(|data|, i requires 0 <= i < |data| => Xor(Xor(data[i], key[i % KEY_SIZE]), nonce[i % NONCE_SIZE]))
  }

  /** One FNV step on `uint32_t`: `h ^= x; h *= 16777619`. */
  function HashStep(h: uint32, x: uint32): uint32 {
    (XorWords(h, x) * 16777619) % 0x1_0000_0000
  }

  function Mix(h: uint32, data: seq<byte>): uint32
    decreases |data|
  {
    if data == [] then h else Mix(HashStep(h, data[0]), data[1..])
  }

  function TagBytes(h: uint32, i: nat): (tag: seq<byte>)
    requires i <= TAG_SIZE
    ensures |tag| == TAG_SIZE - i
    decreases TAG_SIZE - i
  {
    if i == TAG_SIZE then []
    else
      var h' := HashStep(h, i * 37 + 11);
      [(h' / Power256(i % 4)) % 256] + TagBytes(h', i + 1)
  }

  function MakeTag(key: seq<byte>, nonce: seq<byte>, aad: seq<byte>, ciphertext: seq<byte>): (tag: seq<byte>)
    ensures |tag| == TAG_SIZE
  {
    TagBytes(Mix(Mix(Mix(Mix(2166136261, key), nonce), aad), ciphertext), 0)
  }

  function Seal(key: seq<byte>, nonce: seq<byte>, aad: seq<byte>, plaintext: seq<byte>): Option<Sealed> {
    if |key| != KEY_SIZE || |nonce| != NONCE_SIZE then None
    else
      var ciphertext := Stream(plaintext, key, nonce);
      Some(Sealed(ciphertext, MakeTag(key, nonce, aad, ciphertext)))
  }

  function Open(key: seq<byte>, nonce: seq<byte>, aad: seq<byte>, ciphertext: seq<byte>, tag: seq<byte>): Option<seq<byte>> {
    if |key| != KEY_SIZE || |nonce| != NONCE_SIZE || |tag| != TAG_SIZE then None
    else if MakeTag(key, nonce, aad, ciphertext) != tag then None
    else Some(Stream(ciphertext, key, nonce))
  }

  lemma StreamInverts(data: seq<byte>, key: seq<byte>, nonce: seq<byte>)
    requires |key| == KEY_SIZE && |nonce| == NONCE_SIZE
    ensures Stream(Stream(data, key, nonce), key, nonce) == data
  {
    forall i | 0 <= i < |data|
      ensures Stream(Stream(data, key, nonce), key, nonce)[i] == data[i]
    {
      XorThrice(data[i], key[i % KEY_SIZE], nonce[i % NONCE_SIZE]);
    }
  }

  lemma XorThrice(a: byte, k: byte, n: byte)
    ensures Xor(Xor(Xor(Xor(a, k), n), k), n) == a
  {
    XorCommutes(Xor(a, k), n, k);
    XorTwice(a, k);
    XorTwice(a, n);
  }

  function Implementation(): CipherImplementation {
    Cipher(TEST_ONLY, KEY_SIZE, NONCE_SIZE, TAG_SIZE, Seal, Open)
  }

  /** It is a cipher in the sense of the model, and opening inverts sealing. */
  lemma LawAIsSatisfiable()
    ensures FillsItsBuffers(Implementation())
    ensures Inverts(Implementation())
  {
    var c := Implementation();
    forall k, n, a, p | c.seal(k, n, a, p).Some?
      ensures c.open(k, n, a, c.seal(k, n, a, p).value.ciphertext, c.seal(k, n, a, p).value.tag) == Some(p)
    {
      StreamInverts(p, k, n);
    }
  }
}
