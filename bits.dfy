/** Bitwise operations on unsigned machine words, modelled on natural numbers.

    The field code shifts, masks, ORs and XORs `uint32`/`uint64` words.  A
    right shift by `n` is division by `Pow2(n)` and a left shift is
    multiplication by it; the bitwise operators are defined here bit by bit
    (least significant bit first), and the lemmas below give the facts the
    field code relies on: masking with `2^n - 1` keeps the low `n` bits, OR
    of non-overlapping bit ranges is addition, and XOR cancels. */
module Bits {

  function Pow2(n: nat): (r: nat)
    ensures r >= 1
  {
    if n == 0 then 1 else 2 * Pow2(n - 1)
  }

  lemma {:induction false} Pow2Add(a: nat, b: nat)
    ensures Pow2(a + b) == Pow2(a) * Pow2(b)
  {
    if a > 0 {
      Pow2Add(a - 1, b);
    }
  }

  lemma {:induction false} Pow2Monotone(a: nat, b: nat)
    requires a <= b
    ensures Pow2(a) <= Pow2(b)
  {
    if a < b {
      Pow2Monotone(a, b - 1);
    }
  }

  /** Left shift: x << n. */
  function Shl(x: nat, n: nat): nat
  {
    x * Pow2(n)
  }

  /** Bitwise exclusive or. */
  function Xor(x: nat, y: nat): nat
    decreases x + y
  {
    if x == 0 && y == 0 then 0 else 2 * Xor(x / 2, y / 2) + (x + y) % 2
  }

  /** Bitwise and. */
  function And(x: nat, y: nat): nat
    decreases x + y
  {
    if x == 0 || y == 0 then 0
    else 2 * And(x / 2, y / 2) + (if x % 2 == 1 && y % 2 == 1 then 1 else 0)
  }

  /** Bitwise inclusive or. */
  function Or(x: nat, y: nat): nat
    decreases x + y
  {
    if x == 0 then y
    else if y == 0 then x
    else 2 * Or(x / 2, y / 2) + (if x % 2 == 1 || y % 2 == 1 then 1 else 0)
  }

  lemma {:induction false} XorZero(x: nat)
    ensures Xor(x, 0) == x && Xor(0, x) == x
    decreases x
  {
    if x != 0 {
      XorZero(x / 2);
    }
  }

  lemma {:induction false} XorSelf(x: nat)
    ensures Xor(x, x) == 0
    decreases x
  {
    if x != 0 {
      XorSelf(x / 2);
    }
  }

  lemma {:induction false} XorComm(x: nat, y: nat)
    ensures Xor(x, y) == Xor(y, x)
    decreases x + y
  {
    if x != 0 || y != 0 {
      XorComm(x / 2, y / 2);
    }
  }

  /** XOR with the same value twice gives the value back. */
  lemma {:induction false} XorCancel(x: nat, y: nat)
    ensures Xor(x, Xor(x, y)) == y
    decreases x + y
  {
    if x == 0 {
      XorZero(y);
      XorZero(Xor(0, y));
    } else {
      var h, z := Xor(x / 2, y / 2), Xor(x, y);
      assert z / 2 == h && z % 2 == (x + y) % 2 by {
        assert z == 2 * h + (x + y) % 2;
        ModUnique(z, 2, h, (x + y) % 2);
      }
      assert (x + z) % 2 == y % 2 by {
        var xb, yb := x % 2, y % 2;
        assert z % 2 == (xb + yb) % 2 by { ParityAdd(x, y); }
        assert (x + z) % 2 == (xb + z % 2) % 2 by { ParityAdd(x, z); }
        ParityCancel(xb, yb);
      }
      XorCancel(x / 2, y / 2);
      assert Xor(x, z) == 2 * Xor(x / 2, z / 2) + (x + z) % 2;
    }
  }

  /** The parity of a sum is the sum of the parities, mod 2. */
  lemma ParityAdd(a: nat, b: nat)
    ensures (a + b) % 2 == (a % 2 + b % 2) % 2
  {
    var qa, ra, qb, rb := a / 2, a % 2, b / 2, b % 2;
    ModUnique(a + b, 2, qa + qb + (ra + rb) / 2, (ra + rb) % 2);
  }

  lemma ParityCancel(xb: nat, yb: nat)
    requires xb < 2 && yb < 2
    ensures (xb + (xb + yb) % 2) % 2 == yb
  {
    if xb == 0 && yb == 0 {
    } else if xb == 0 {
      assert (0 + (0 + 1) % 2) % 2 == 1;
    } else if yb == 0 {
      assert (1 + (1 + 0) % 2) % 2 == 0;
    } else {
      assert (1 + (1 + 1) % 2) % 2 == 1;
    }
  }

  /** XOR of two n-bit words is an n-bit word. */
  lemma {:induction false} XorBound(x: nat, y: nat, n: nat)
    requires x < Pow2(n) && y < Pow2(n)
    ensures Xor(x, y) < Pow2(n)
  {
    if n == 0 {
      assert x == 0 && y == 0;
    } else if x != 0 || y != 0 {
      XorBound(x / 2, y / 2, n - 1);
    }
  }

  /** XOR with the single bit 2^n flips that bit: for an (n+1)-bit word it adds
      2^n when the bit is clear and subtracts it when it is set. */
  lemma {:induction false} XorTopBit(k: nat, n: nat)
    requires k < Pow2(n + 1)
    ensures Xor(k, Pow2(n)) == if k < Pow2(n) then k + Pow2(n) else k - Pow2(n)
  {
    if n == 0 {
      assert Pow2(1) == 2;
      assert Xor(k / 2, 0) == 0 by { XorZero(0); }
      assert Xor(k, 1) == 2 * Xor(k / 2, 0) + (k + 1) % 2;
    } else {
      var h, m := Pow2(n - 1), Pow2(n);
      var k2: nat, b: nat := k / 2, k % 2;
      assert m == 2 * h && Pow2(n + 1) == 2 * m;
      assert k == 2 * k2 + b && b < 2 && k2 < 2 * h;
      XorTopBit(k2, n - 1);
      XorHalves(k, m, k2, h, b);
      assert (k < m) == (k2 < h);
    }
  }

  /** XOR of a word with an even word, split into its halves. */
  lemma XorHalves(x: nat, y: nat, x2: nat, y2: nat, b: nat)
    requires x == 2 * x2 + b && b < 2 && y == 2 * y2 && y > 0
    ensures Xor(x, y) == 2 * Xor(x2, y2) + b
  {
    ModUnique(x, 2, x2, b);
    ModUnique(y, 2, y2, 0);
    ModUnique(x + y, 2, x2 + y2, b);
  }

  /** AND with the mask 2^n - 1 keeps the low n bits. */
  lemma {:induction false} AndLowMask(x: nat, n: nat)
    ensures And(x, Pow2(n) - 1) == x % Pow2(n)
  {
    if n == 0 {
    } else if x == 0 {
    } else {
      var m := Pow2(n) - 1;
      assert m / 2 == Pow2(n - 1) - 1 && m % 2 == 1;
      AndLowMask(x / 2, n - 1);
      assert x % Pow2(n) == 2 * ((x / 2) % Pow2(n - 1)) + x % 2 by {
        DivModSplit(x, Pow2(n - 1));
      }
    }
  }

  lemma DivModSplit(x: nat, m: nat)
    requires m >= 1
    ensures x % (2 * m) == 2 * ((x / 2) % m) + x % 2
  {
    var h, b := x / 2, x % 2;
    var q, r := h / m, h % m;
    var qm := q * m;
    assert h == qm + r;
    assert x == 2 * qm + (2 * r + b);
    assert 2 * qm == q * (2 * m);
    ModUnique(x, 2 * m, q, 2 * r + b);
  }

  /** The remainder is determined by any quotient-remainder decomposition. */
  lemma ModUnique(x: int, d: int, q: int, r: int)
    requires d > 0 && 0 <= r < d && x == q * d + r
    ensures x % d == r && x / d == q
  {
    var q0, r0 := x / d, x % d;
    assert (q - q0) * d == r0 - r;
    if q > q0 {
      assert (q - q0) * d >= d by { MulAtLeast(q - q0, d); }
    } else if q < q0 {
      assert (q0 - q) * d >= d by { MulAtLeast(q0 - q, d); }
    }
  }

  lemma MulAtLeast(k: int, d: int)
    requires k >= 1 && d > 0
    ensures k * d >= d
  {
  }

  /** AND never sets a bit its first operand does not have. */
  lemma {:induction false} AndBound(x: nat, y: nat)
    ensures And(x, y) <= x
    decreases x + y
  {
    if x != 0 && y != 0 {
      AndBound(x / 2, y / 2);
    }
  }

  /** OR of a word below 2^n with a word shifted left by n is their sum:
      the two have no bit in common. */
  lemma {:induction false} OrShifted(x: nat, y: nat, n: nat)
    requires x < Pow2(n)
    ensures Or(x, y * Pow2(n)) == x + y * Pow2(n)
  {
    if n == 0 {
      assert x == 0;
    } else if x == 0 || y == 0 {
    } else {
      var z := y * Pow2(n);
      assert z == 2 * (y * Pow2(n - 1));
      assert z / 2 == y * Pow2(n - 1) && z % 2 == 0;
      OrShifted(x / 2, y, n - 1);
    }
  }
}
