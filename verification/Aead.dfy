/** Authenticated encryption as the envelopes see it, and the registry that resolves algorithms. */
module Aead {
  import opened Bytes

  /** AeadAlgorithm: the source casts any wire byte to its enumeration, so every byte is a value. */
  type AeadAlgorithm = byte
  const TEST_ONLY: AeadAlgorithm := 250

  datatype Sealed = Sealed(ciphertext: seq<byte>, tag: seq<byte>)

  /**
   An IAeadCipher. `seal` takes key, nonce, associated data and plaintext; `open` takes key, nonce,
   associated data, ciphertext and tag. None is a false return.
   */
  datatype CipherImplementation = Cipher(
    algorithm: AeadAlgorithm, keySize: nat, nonceSize: nat, tagSize: nat,
    seal: (seq<byte>, seq<byte>, seq<byte>, seq<byte>) -> Option<Sealed>,
    open: (seq<byte>, seq<byte>, seq<byte>, seq<byte>, seq<byte>) -> Option<seq<byte>>)

  /** The callers own the output buffers: they fix the sizes of ciphertext, tag and plaintext. */
  ghost predicate FillsItsBuffers(c: CipherImplementation) {
    (forall k, n, a, p :: c.seal(k, n, a, p).Some? ==>
      |c.seal(k, n, a, p).value.ciphertext| == |p| && |c.seal(k, n, a, p).value.tag| == c.tagSize) &&
    forall k, n, a, x, t :: c.open(k, n, a, x, t).Some? ==> |c.open(k, n, a, x, t).value| == |x|
  }

  type AeadCipher = c: CipherImplementation | FillsItsBuffers(c)
    ghost witness Cipher(0, 0, 0, 0, (k, n, a, p) => None, (k, n, a, x, t) => None)

  /** Law A, correctness: opening what was sealed under the same key, nonce and data gives it back. */
  ghost predicate Inverts(c: CipherImplementation) {
    forall k, n, a, p :: c.seal(k, n, a, p).Some? ==>
      c.open(k, n, a, c.seal(k, n, a, p).value.ciphertext, c.seal(k, n, a, p).value.tag) == Some(p)
  }

  /** One successful call of a cipher: everything that went in and everything that came out. */
  datatype CipherCall = CipherCall(
    algorithm: AeadAlgorithm, key: seq<byte>, nonce: seq<byte>, aad: seq<byte>,
    ciphertext: seq<byte>, tag: seq<byte>, plaintext: seq<byte>)

  /** The two calls agree on everything the opener supplies. */
  predicate SameInputs(a: CipherCall, b: CipherCall) {
    a.algorithm == b.algorithm && a.key == b.key && a.nonce == b.nonce && a.aad == b.aad &&
    a.ciphertext == b.ciphertext && a.tag == b.tag
  }

  /** The first cipher registered for `algorithm`. */
  function FindCipher(ciphers: seq<AeadCipher>, algorithm: AeadAlgorithm): (found: Option<AeadCipher>)
    ensures found.Some? ==> found.value in ciphers && found.value.algorithm == algorithm
    ensures found.None? <==> forall c :: c in ciphers ==> c.algorithm != algorithm
  {
    if ciphers == [] then None
    else if ciphers[0].algorithm == algorithm then Some(ciphers[0])
    else FindCipher(ciphers[1..], algorithm)
  }

  function CipherIndex(ciphers: seq<AeadCipher>, algorithm: AeadAlgorithm): (i: nat)
    ensures i <= |ciphers|
    ensures forall j :: 0 <= j < i ==> ciphers[j].algorithm != algorithm
    ensures i < |ciphers| ==> ciphers[i].algorithm == algorithm
  {
    if ciphers == [] || ciphers[0].algorithm == algorithm then 0
    else 1 + CipherIndex(ciphers[1..], algorithm)
  }

  lemma {:induction false} FoundAtIndex(ciphers: seq<AeadCipher>, algorithm: AeadAlgorithm)
    ensures var i := CipherIndex(ciphers, algorithm);
            FindCipher(ciphers, algorithm) == if i < |ciphers| then Some(ciphers[i]) else None
  {
    if ciphers != [] {
      FoundAtIndex(ciphers[1..], algorithm);
    }
  }

  ghost predicate UniqueAlgorithms(ciphers: seq<AeadCipher>) {
    forall i, j :: 0 <= i < j < |ciphers| ==> ciphers[i].algorithm != ciphers[j].algorithm
  }

  function Registered(ciphers: seq<AeadCipher>, c: AeadCipher): seq<AeadCipher> {
    if FindCipher(ciphers, c.algorithm).Some? then ciphers else ciphers + [c]
  }

  function Unregistered(ciphers: seq<AeadCipher>, algorithm: AeadAlgorithm): seq<AeadCipher> {
    var i := CipherIndex(ciphers, algorithm);
    if i == |ciphers| then ciphers else ciphers[..i] + ciphers[i + 1..]
  }

  /** Registration is a map insertion that never replaces: the other answers stay, and so does an old one. */
  lemma RegisterInserts(ciphers: seq<AeadCipher>, c: AeadCipher, algorithm: AeadAlgorithm)
    requires UniqueAlgorithms(ciphers)
    ensures UniqueAlgorithms(Registered(ciphers, c))
    ensures FindCipher(Registered(ciphers, c), algorithm) ==
            if FindCipher(ciphers, algorithm).Some? then FindCipher(ciphers, algorithm)
            else if algorithm == c.algorithm then Some(c) else None
  {
    FoundAtIndex(ciphers, algorithm);
    FoundAtIndex(ciphers, c.algorithm);
    FoundAtIndex(Registered(ciphers, c), algorithm);
    if FindCipher(ciphers, c.algorithm).None? {
      assert Registered(ciphers, c)[|ciphers|] == c;
      if CipherIndex(ciphers, algorithm) < |ciphers| {
        assert Registered(ciphers, c)[CipherIndex(ciphers, algorithm)] == ciphers[CipherIndex(ciphers, algorithm)];
      }
    }
  }

  lemma FoundWhereRegistered(ciphers: seq<AeadCipher>, k: nat)
    requires UniqueAlgorithms(ciphers) && k < |ciphers|
    ensures FindCipher(ciphers, ciphers[k].algorithm) == Some(ciphers[k])
  {
    FoundAtIndex(ciphers, ciphers[k].algorithm);
  }

  lemma UnregisterKeepsUnique(ciphers: seq<AeadCipher>, gone: AeadAlgorithm)
    requires UniqueAlgorithms(ciphers)
    ensures UniqueAlgorithms(Unregistered(ciphers, gone))
  {
  }

  /** Unregistration is a map removal. */
  lemma UnregisterRemoves(ciphers: seq<AeadCipher>, gone: AeadAlgorithm, algorithm: AeadAlgorithm)
    requires UniqueAlgorithms(ciphers)
    ensures UniqueAlgorithms(Unregistered(ciphers, gone))
    ensures FindCipher(Unregistered(ciphers, gone), algorithm) ==
            if algorithm == gone then None else FindCipher(ciphers, algorithm)
  {
    var i, ciphers' := CipherIndex(ciphers, gone), Unregistered(ciphers, gone);
    UnregisterKeepsUnique(ciphers, gone);
    FoundAtIndex(ciphers, algorithm);
    var j := CipherIndex(ciphers, algorithm);
    if algorithm != gone && j < |ciphers| {
      var k := if j < i then j else j - 1;
      assert ciphers'[k] == ciphers[j];
      FoundWhereRegistered(ciphers', k);
    }
  }

  class AeadCipherRegistry {
    var ciphers: seq<AeadCipher>

    constructor ()
      ensures ciphers == []
    {
      ciphers := [];
    }

    method Find(algorithm: AeadAlgorithm) returns (found: Option<AeadCipher>)
      ensures found == FindCipher(ciphers, algorithm)
    {
      var i := 0;
      while i < |ciphers|
        invariant i <= |ciphers|
        invariant FindCipher(ciphers, algorithm) == FindCipher(ciphers[i..], algorithm)
      {
        if ciphers[i].algorithm == algorithm {
          return Some(ciphers[i]);
        }
        assert ciphers[i..][1..] == ciphers[i + 1..];
        i := i + 1;
      }
      return None;
    }

    method Register(cipher: AeadCipher) returns (added: bool)
      modifies this
      ensures added == FindCipher(old(ciphers), cipher.algorithm).None?
      ensures ciphers == Registered(old(ciphers), cipher)
    {
      var found := Find(cipher.algorithm);
      if found.Some? {
        return false;
      }
      ciphers := ciphers + [cipher];
      return true;
    }

    method Unregister(algorithm: AeadAlgorithm) returns (removed: bool)
      modifies this
      ensures removed == FindCipher(old(ciphers), algorithm).Some?
      ensures ciphers == Unregistered(old(ciphers), algorithm)
    {
      FoundAtIndex(ciphers, algorithm);
      var i := 0;
      while i < |ciphers| && ciphers[i].algorithm != algorithm
        invariant i <= |ciphers|
        invariant CipherIndex(ciphers, algorithm) == i + CipherIndex(ciphers[i..], algorithm)
      {
        assert ciphers[i..][1..] == ciphers[i + 1..];
        i := i + 1;
      }
      if i == |ciphers| {
        return false;
      }
      ciphers := ciphers[..i] + ciphers[i + 1..];
      return true;
    }
  }
}

/** An IRandomSource: its outcomes are a script, so a claim about every script is a claim about every source. */
module Randomness {
  import opened Bytes

  /** One outcome of Fill: whether it succeeded and what it wrote, cut or zero-extended to the size asked for. */
  datatype Draw = Draw(ok: bool, bytes: seq<byte>)

  function Fit(bytes: seq<byte>, size: nat): (fitted: seq<byte>)
    ensures |fitted| == size
    ensures |bytes| == size ==> fitted == bytes
  {
    if |bytes| >= size then bytes[..size] else bytes + Zeros(size - |bytes|)
  }

  /** What the next Fill of `size` bytes does; an exhausted script fails. */
  function Next(script: seq<Draw>, size: nat): Draw {
    if script == [] then Draw(false, Zeros(size)) else Draw(script[0].ok, Fit(script[0].bytes, size))
  }

  function Rest(script: seq<Draw>): seq<Draw> {
    if script == [] then [] else script[1..]
  }

  /** Draw number `k` of a script, counted from zero, for `size` bytes; there is none past its end. */
  function Drawn(script: seq<Draw>, k: nat, size: nat): (draw: Draw)
    ensures |draw.bytes| == size
  {
    if k < |script| then Draw(script[k].ok, Fit(script[k].bytes, size)) else Draw(false, Zeros(size))
  }

  /** The script without its first `n` draws. */
  function Dropped(script: seq<Draw>, n: nat): seq<Draw> {
    if n <= |script| then script[n..] else []
  }

  lemma NextIsDrawn(script: seq<Draw>, n: nat, size: nat)
    ensures Next(Dropped(script, n), size) == Drawn(script, n, size)
    ensures Rest(Dropped(script, n)) == Dropped(script, n + 1)
  {
  }

  class RandomSource {
    var script: seq<Draw>

    constructor (outcomes: seq<Draw>)
      ensures script == outcomes
    {
      script := outcomes;
    }

    method Fill(size: nat) returns (ok: bool, bytes: seq<byte>)
      modifies this
      ensures Draw(ok, bytes) == Next(old(script), size)
      ensures script == Rest(old(script))
    {
      if script == [] {
        return false, Zeros(size);
      }
      ok, bytes := script[0].ok, Fit(script[0].bytes, size);
      script := script[1..];
    }
  }
}
