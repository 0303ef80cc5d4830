/** Unsigned machine words as numbers, with the bitwise operators defined bit by bit. */
module Words {

  type Byte = b: nat | b < 256

  function Pow2(n: nat): (r: nat)
    ensures r > 0
  {
    if n == 0 then 1 else 2 * Pow2(n - 1)
  }

  predicate Bit(w: nat, k: nat) {
    if k == 0 then w % 2 == 1 else Bit(w / 2, k - 1)
  }

  /** a | b on n-bit words. */
  function Or(n: nat, a: nat, b: nat): (r: nat)
    requires a < Pow2(n) && b < Pow2(n)
    ensures r < Pow2(n)
  {
    if n == 0 then 0 else 2 * Or(n - 1, a / 2, b / 2) + if a % 2 == 1 || b % 2 == 1 then 1 else 0
  }

  /** a & b on n-bit words. */
  function And(n: nat, a: nat, b: nat): (r: nat)
    requires a < Pow2(n) && b < Pow2(n)
    ensures r < Pow2(n)
  {
    if n == 0 then 0 else 2 * And(n - 1, a / 2, b / 2) + if a % 2 == 1 && b % 2 == 1 then 1 else 0
  }

  /** ~a on n-bit words. */
  function Not(n: nat, a: nat): (r: nat)
    requires a < Pow2(n)
    ensures r < Pow2(n)
  {
    Pow2(n) - 1 - a
  }

  lemma {:induction false} Pow2Monotone(k: nat, n: nat)
    requires k < n
    ensures Pow2(k) < Pow2(n)
    decreases n
  {
    if k < n - 1 {
      Pow2Monotone(k, n - 1);
    }
  }

  lemma {:induction false} Pow2Sum(a: nat, b: nat)
    ensures Pow2(a + b) == Pow2(a) * Pow2(b)
  {
    if a > 0 {
      Pow2Sum(a - 1, b);
      assert Pow2(a + b) == 2 * Pow2(a - 1 + b) == 2 * (Pow2(a - 1) * Pow2(b));
    }
  }

  lemma {:induction false} OrBits(n: nat, a: nat, b: nat, k: nat)
    requires a < Pow2(n) && b < Pow2(n)
    ensures Bit(Or(n, a, b), k) <==> Bit(a, k) || Bit(b, k)
    decreases n
  {
    if n > 0 && k > 0 {
      OrBits(n - 1, a / 2, b / 2, k - 1);
    } else if n == 0 {
      ZeroHasNoBits(k);
    }
  }

  lemma {:induction false} AndBits(n: nat, a: nat, b: nat, k: nat)
    requires a < Pow2(n) && b < Pow2(n)
    ensures Bit(And(n, a, b), k) <==> Bit(a, k) && Bit(b, k)
    decreases n
  {
    if n > 0 && k > 0 {
      AndBits(n - 1, a / 2, b / 2, k - 1);
    } else if n == 0 {
      ZeroHasNoBits(k);
    }
  }

  lemma {:induction false} NotBits(n: nat, a: nat, k: nat)
    requires a < Pow2(n) && k < n
    ensures Bit(Not(n, a), k) <==> !Bit(a, k)
    decreases n
  {
    assert Not(n, a) / 2 == Not(n - 1, a / 2);
    if k > 0 {
      NotBits(n - 1, a / 2, k - 1);
    }
  }

  lemma {:induction false} ZeroHasNoBits(k: nat)
    ensures !Bit(0, k)
  {
    if k > 0 {
      ZeroHasNoBits(k - 1);
    }
  }

  lemma {:induction false} BitsOfPow2(bit: nat, k: nat)
    ensures Bit(Pow2(bit), k) <==> k == bit
  {
    if bit == 0 && k > 0 {
      ZeroHasNoBits(k - 1);
    } else if bit > 0 && k > 0 {
      BitsOfPow2(bit - 1, k - 1);
    }
  }

  lemma {:induction false} NonZeroHasABit(n: nat, w: nat) returns (k: nat)
    requires 0 < w < Pow2(n)
    ensures k < n && Bit(w, k)
  {
    if w % 2 == 1 {
      k := 0;
    } else {
      var j := NonZeroHasABit(n - 1, w / 2);
      k := j + 1;
    }
  }

  /** Masking with a single bit leaves something non-zero exactly when that bit is set. */
  lemma MaskTestsBit(n: nat, w: nat, bit: nat)
    requires w < Pow2(n) && bit < n && Pow2(bit) < Pow2(n)
    ensures And(n, w, Pow2(bit)) != 0 <==> Bit(w, bit)
  {
    var masked := And(n, w, Pow2(bit));
    AndBits(n, w, Pow2(bit), bit);
    BitsOfPow2(bit, bit);
    if masked != 0 {
      var k := NonZeroHasABit(n, masked);
      AndBits(n, w, Pow2(bit), k);
      BitsOfPow2(bit, k);
    } else {
      ZeroHasNoBits(bit);
    }
  }

  /** w & (1 << bit) != 0 */
  predicate TestBit(n: nat, w: nat, bit: nat)
    requires w < Pow2(n) && bit < n
  {
    Pow2Monotone(bit, n);
    And(n, w, Pow2(bit)) != 0
  }

  /** w | (1 << bit) */
  function SetBit(n: nat, w: nat, bit: nat): (r: nat)
    requires w < Pow2(n) && bit < n
    ensures r < Pow2(n)
  {
    Pow2Monotone(bit, n);
    Or(n, w, Pow2(bit))
  }

  /** w & ~(1 << bit) */
  function ClearBit(n: nat, w: nat, bit: nat): (r: nat)
    requires w < Pow2(n) && bit < n
    ensures r < Pow2(n)
  {
    Pow2Monotone(bit, n);
    And(n, w, Not(n, Pow2(bit)))
  }

  /** Or-ing in a single bit sets that bit and no other. */
  lemma SetBitSetsOneBit(n: nat, w: nat, bit: nat, probe: nat)
    requires w < Pow2(n) && bit < n && probe < n
    ensures TestBit(n, SetBit(n, w, bit), probe) <==> probe == bit || TestBit(n, w, probe)
  {
    Pow2Monotone(bit, n);
    Pow2Monotone(probe, n);
    MaskTestsBit(n, w, probe);
    MaskTestsBit(n, SetBit(n, w, bit), probe);
    OrBits(n, w, Pow2(bit), probe);
    BitsOfPow2(bit, probe);
  }

  /** And-ing with the complement of a single bit clears that bit and no other. */
  lemma ClearBitClearsOneBit(n: nat, w: nat, bit: nat, probe: nat)
    requires w < Pow2(n) && bit < n && probe < n
    ensures TestBit(n, ClearBit(n, w, bit), probe) <==> probe != bit && TestBit(n, w, probe)
  {
    Pow2Monotone(bit, n);
    Pow2Monotone(probe, n);
    MaskTestsBit(n, w, probe);
    MaskTestsBit(n, ClearBit(n, w, bit), probe);
    AndBits(n, w, Not(n, Pow2(bit)), probe);
    NotBits(n, Pow2(bit), probe);
    BitsOfPow2(bit, probe);
  }
}
