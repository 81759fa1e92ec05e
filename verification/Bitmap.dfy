/**
 The 64-bit acceptance bitmap of a replay window, read as a set of distances below the highest
 sequence. The operators are those of `uint64_t`, written out on integers; the lemmas say what
 the shift and OR expressions of the replay window do to the set.
 */
module Bitmap {
  import opened Bytes

  function Power2(n: nat): (p: nat)
    ensures p > 0
  {
    if n == 0 then 1 else 2 * Power2(n - 1)
  }

  /** Bit `d` of `b`. */
  predicate Bit(b: nat, d: nat) {
    if d == 0 then b % 2 == 1 else Bit(b / 2, d - 1)
  }

  /** `a | b` */
  function Or(a: nat, b: nat): nat {
    if a == 0 then b else if b == 0 then a
    else (if a % 2 == 1 || b % 2 == 1 then 1 else 0) + 2 * Or(a / 2, b / 2)
  }

  /** `a & b` */
  function And(a: nat, b: nat): nat {
    if a == 0 || b == 0 then 0
    else (if a % 2 == 1 && b % 2 == 1 then 1 else 0) + 2 * And(a / 2, b / 2)
  }

  /**
   `b << n` on `uint64_t`. Shifting by 64 or more is undefined in C++, so the precondition is
   an obligation on every caller.
   */
  function ShiftLeft(b: nat, n: nat): (r: uint64)
    requires n < 64
  {
    (b * Power2(n)) % 0x1_0000_0000_0000_0000
  }

  lemma {:induction false} BitOfZero(d: nat)
    ensures !Bit(0, d)
  {
    if d > 0 {
      BitOfZero(d - 1);
    }
  }

  lemma {:induction false} BitOfOr(a: nat, b: nat, d: nat)
    ensures Bit(Or(a, b), d) <==> Bit(a, d) || Bit(b, d)
  {
    BitOfZero(d);
    if d > 0 && a > 0 && b > 0 {
      BitOfOr(a / 2, b / 2, d - 1);
    }
  }

  lemma {:induction false} BitOfPower(n: nat, d: nat)
    ensures Bit(Power2(n), d) <==> d == n
  {
    if n == 0 {
      if d > 0 {
        BitOfZero(d - 1);
      }
    } else if d > 0 {
      BitOfPower(n - 1, d - 1);
    }
  }

  lemma {:induction false} BitOfProduct(b: nat, n: nat, d: nat)
    ensures Bit(b * Power2(n), d) <==> d >= n && Bit(b, d - n)
  {
    if n > 0 {
      assert b * Power2(n) == 2 * (b * Power2(n - 1));
      if d > 0 {
        BitOfProduct(b, n - 1, d - 1);
      }
    }
  }

  lemma {:induction false} BitOfLowPart(q: nat, r: nat, n: nat, d: nat)
    requires d < n
    ensures Power2(n) * q + r >= 0
    ensures Bit(Power2(n) * q + r, d) <==> Bit(r, d)
  {
    TwiceProduct(Power2(n - 1), q);
    Halves(Power2(n) * q + r, Power2(n - 1) * q, r);
    if d > 0 {
      BitOfLowPart(q, r / 2, n - 1, d - 1);
    }
  }

  lemma TwiceProduct(m: int, q: int)
    ensures (2 * m) * q == 2 * (m * q)
  {
  }

  lemma Halves(b: int, t: int, r: int)
    requires b == 2 * t + r
    ensures b % 2 == r % 2
    ensures b / 2 == t + r / 2
  {
  }

  lemma WordPower()
    ensures Power2(64) == 0x1_0000_0000_0000_0000
  {
    assert Power2(8) == 0x100;
    assert Power2(16) == 0x1_0000;
    assert Power2(24) == 0x100_0000;
    assert Power2(32) == 0x1_0000_0000;
    assert Power2(40) == 0x100_0000_0000;
    assert Power2(48) == 0x1_0000_0000_0000;
    assert Power2(56) == 0x100_0000_0000_0000;
  }

  lemma BitOfShift(b: nat, n: nat, d: nat)
    requires n < 64 && d < 64
    ensures Bit(ShiftLeft(b, n), d) <==> d >= n && Bit(b, d - n)
  {
    var product := b * Power2(n);
    var overflow := product / 0x1_0000_0000_0000_0000;
    WordPower();
    BitOfLowPart(overflow, ShiftLeft(b, n), 64, d);
    BitOfProduct(b, n, d);
  }

  lemma {:induction false} PowerFits(d: nat)
    requires d < 64
    ensures Power2(d) < 0x1_0000_0000_0000_0000
  {
    WordPower();
    PowerGrows(d, 64);
  }

  lemma {:induction false} PowerGrows(d: nat, n: nat)
    requires d < n
    ensures Power2(d) < Power2(n)
  {
    if d + 1 < n {
      PowerGrows(d, n - 1);
    }
  }

  lemma {:induction false} OrFits(a: nat, b: nat, n: nat)
    requires a < Power2(n) && b < Power2(n)
    ensures Or(a, b) < Power2(n)
  {
    if a > 0 && b > 0 {
      OrFits(a / 2, b / 2, n - 1);
    }
  }

  lemma {:induction false} AndPower(b: nat, d: nat)
    ensures And(b, Power2(d)) == 0 <==> !Bit(b, d)
  {
    BitOfZero(d);
    if d > 0 && b > 0 {
      AndPower(b / 2, d - 1);
    }
  }

  /** An OR into bits that are still zero is a sum. */
  lemma {:induction false} OrOfDisjoint(a: nat, b: nat, n: nat)
    requires a < Power2(n)
    ensures Or(a, b * Power2(n)) == a + b * Power2(n)
  {
    if n > 0 && a > 0 && b > 0 {
      assert b * Power2(n) == 2 * (b * Power2(n - 1));
      assert b * Power2(n - 1) > 0;
      OrOfDisjoint(a / 2, b, n - 1);
    }
  }

  lemma {:induction false} BytePowers(n: nat)
    ensures Power256(n) == Power2(8 * n)
  {
    if n > 0 {
      BytePowers(n - 1);
      var m := 8 * (n - 1);
      assert Power2(m + 2) == 4 * Power2(m);
      assert Power2(m + 4) == 4 * Power2(m + 2);
      assert Power2(m + 6) == 4 * Power2(m + 4);
      assert Power2(m + 8) == 4 * Power2(m + 6);
    }
  }

  /** A byte shifted into one of the eight places of a word does not overflow it. */
  lemma ByteFits(b: byte, n: nat)
    requires n < 8
    ensures b * Power256(n) < 0x1_0000_0000_0000_0000
  {
    hide Power256;
    PlacesFit(n);
    LessThanTimes(b, 0x100, Power256(n));
  }

  lemma LessThanTimes(a: nat, b: nat, m: nat)
    requires a < b && m > 0
    ensures a * m < b * m
  {
    Difference(a, b - a, m);
  }

  lemma Difference(a: nat, d: nat, m: nat)
    requires d > 0 && m > 0
    ensures (a + d) * m == a * m + d * m && d * m > 0
  {
  }

  lemma {:induction false} PlacesFit(n: nat)
    requires n < 8
    ensures 0x100 * Power256(n) <= 0x1_0000_0000_0000_0000
    decreases 8 - n
  {
    WordPowers();
    if n < 7 {
      PlacesFit(n + 1);
    }
  }

  lemma ShiftInWord(b: nat, n: nat)
    requires n < 64 && b * Power2(n) < 0x1_0000_0000_0000_0000
    ensures ShiftLeft(b, n) == b * Power2(n)
  {
  }

  /** `v | (b << 8 * n)` puts byte `b` above the `n` bytes of `v`. */
  lemma ByteAbove(v: nat, b: byte, n: nat)
    requires n < 8 && v < Power256(n)
    ensures Or(v, ShiftLeft(b, 8 * n)) == v + Power256(n) * b
  {
    hide Power2, Power256, Or, ShiftLeft;
    BytePowers(n);
    ByteFits(b, n);
    ShiftInWord(b, 8 * n);
    OrOfDisjoint(v, b, 8 * n);
  }

  /** The acceptance test `Bitmap & (1 << d)` of the replay window reads exactly bit `d`. */
  lemma MaskReadsBit(b: nat, d: nat)
    requires d < 64
    ensures And(b, ShiftLeft(1, d)) == 0 <==> !Bit(b, d)
  {
    PowerFits(d);
    AndPower(b, d);
  }

  /** The bitmap `1` marks distance zero alone. */
  lemma FreshBit(d: nat)
    ensures Bit(1, d) <==> d == 0
  {
    BitOfPower(0, d);
  }

  /** `Bitmap | (1 << e)` marks distance `e` and nothing else. */
  lemma MarkedBit(b: uint64, e: nat, d: nat)
    requires e < 64 && d < 64
    ensures Or(b, ShiftLeft(1, e)) <= UINT64_MAX
    ensures Bit(Or(b, ShiftLeft(1, e)), d) <==> d == e || Bit(b, d)
  {
    WordPower();
    OrFits(b, ShiftLeft(1, e), 64);
    BitOfOr(b, ShiftLeft(1, e), d);
    PowerFits(e);
    BitOfPower(e, d);
  }

  /** `(Bitmap << s) | 1` moves every mark `s` further away and marks distance zero. */
  lemma SlidBit(b: uint64, s: nat, d: nat)
    requires 0 < s < 64 && d < 64
    ensures Or(ShiftLeft(b, s), 1) <= UINT64_MAX
    ensures Bit(Or(ShiftLeft(b, s), 1), d) <==> d == 0 || (d >= s && Bit(b, d - s))
  {
    WordPower();
    OrFits(ShiftLeft(b, s), 1, 64);
    BitOfOr(ShiftLeft(b, s), 1, d);
    BitOfShift(b, s, d);
    FreshBit(d);
  }
}
