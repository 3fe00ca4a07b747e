/** The prime field GF(p), p = 2^448 - 2^224 - 1, and its 16-limb representation.

    A field element is 16 limbs of 28 bits held in 32-bit words; its value
    is Σ limb[i] * 2^(28*i) (x448_ref.go:36-48).  Limbs may carry a few
    extra high bits between reductions, so the value is only congruent to
    the element mod p.  This module holds the constants, the value function,
    the limb-bound predicates the operations rely on, and the arithmetic
    facts behind each operation: folding the top limb removes a multiple of
    p because 2^448 ≡ 2^224 + 1 (mod p), carrying preserves the value, and
    shifting a limb vector by one position multiplies its value by 2^28
    mod p. */
module Field {
  import opened Bits
  import opened Radix

  /** Bits of payload per limb (lBits). */
  const LimbBits: nat := 28
  /** Number of limbs (x448Limbs). */
  const Limbs: nat := 16
  /** Length of the byte encoding (x448Bytes); 56 * 8 == 16 * 28 == 448. */
  const Bytes: nat := 56
  /** Limb radix 2^28; `lMask` is R - 1. */
  const R: nat := 0x1000_0000
  /** 2^224, the weight of limb 8. */
  const Half: nat := 0x1_0000_0000_0000_0000_0000_0000_0000_0000_0000_0000_0000_0000_0000_0000
  /** The field prime 2^448 - 2^224 - 1. */
  const P: nat := 0xffff_ffff_ffff_ffff_ffff_ffff_ffff_ffff_ffff_ffff_ffff_ffff_ffff_fffe_ffff_ffff_ffff_ffff_ffff_ffff_ffff_ffff_ffff_ffff_ffff_ffff_ffff_ffff

  type u8 = x: int | 0 <= x < 0x100
  type u32 = x: int | 0 <= x < 0x1_0000_0000
  type u64 = x: int | 0 <= x < 0x1_0000_0000_0000_0000
  type i64 = x: int | -0x8000_0000_0000_0000 <= x < 0x8000_0000_0000_0000

  /** The constants `zero`, `one` and `p` of x448_ref.go:50-55. */
  const ZeroLimbs: seq<u32> := seq(16, i => 0)
  const OneLimbs: seq<u32> := seq(16, i => if i == 0 then 1 else 0)
  const PLimbs: seq<u32> := seq(16, i => PLimb(i))

  /** Limb i of `p`: 0xfffffff, except 0xffffffe in limb 8. */
  function PLimb(i: int): u32
  {
    if i == 8 then 0xfff_fffe else 0xfff_ffff
  }

  /** The integer a limb vector denotes: Σ s[i] * 2^(28*i). */
  function Value(s: seq<int>): int
  {
    Eval(s, 28)
  }

  /** Weakly reduced: limbs 0..14 below 2^28 and limb 15 at most a few bits over,
      as `reduce` and `mul` leave them. */
  predicate Weak(s: seq<int>)
  {
    |s| == Limbs && (forall i :: 0 <= i < 15 ==> 0 <= s[i] < R) && 0 <= s[15] < R + 0x100
  }

  /** Every limb below 2^29: enough headroom that `mul` never wraps a uint32
      or a uint64. */
  predicate FitsMul(s: seq<int>)
  {
    |s| == Limbs && forall i :: 0 <= i < Limbs ==> 0 <= s[i] < 0x2000_0000
  }

  /** Every limb below 2^32 - 32: the carries of `reduce` never wrap a uint32. */
  predicate Reducible(s: seq<int>)
  {
    |s| == Limbs && forall i :: 0 <= i < Limbs ==> 0 <= s[i] < 0xffff_ffe0
  }

  /** The limb-wise sums of `add` stay reducible. */
  predicate AddFits(y: seq<int>, z: seq<int>)
  {
    |y| == Limbs && |z| == Limbs &&
    forall i :: 0 <= i < Limbs ==> 0 <= y[i] + z[i] < 0xffff_ffe0
  }

  /** The limb-wise differences y - z + 2p of `sub` are non-negative and
      reducible. */
  predicate SubFits(y: seq<int>, z: seq<int>)
  {
    |y| == Limbs && |z| == Limbs &&
    forall i :: 0 <= i < Limbs ==> 0 <= y[i] - z[i] + 2 * PLimb(i) < 0xffff_ffe0
  }

  /** Weakly reduced elements, which every operation returns, meet the
      bounds every operation asks of its operands: `add` and `sub` of two of
      them, `mul` of either, and `reduce` of each. */
  lemma WeakOperands(y: seq<int>, z: seq<int>)
    requires Weak(y) && Weak(z)
    ensures AddFits(y, z) && SubFits(y, z) && FitsMul(y) && Reducible(y)
  {
  }

  /** The canonical limbs of s: the 28-bit digits of its value reduced into [0, p). */
  function Canonical(s: seq<int>): (r: seq<int>)
    ensures |r| == Limbs && DigitsBelow(r, 28)
  {
    Digits(Value(s) % P, Limbs, 28)
  }

  /** The limbs `deser` produces from a byte string: its little-endian value
      split into 28-bit digits, without reduction. */
  function LimbsOfBytes(b: seq<int>): seq<int>
    requires DigitsBelow(b, 8)
  {
    EvalBound(b, 8);
    Digits(Eval(b, 8), Limbs, 28)
  }

  /** The bytes `ser` writes for a limb vector: the little-endian encoding of
      its canonical value. */
  function BytesOfLimbs(s: seq<int>): seq<int>
  {
    Digits(Value(s) % P, Bytes, 8)
  }

  // ---------------------------------------------------------------------
  // Powers of two and the shape of p

  lemma Weights()
    ensures Pow2(28) == R && Pow2(224) == Half && Pow2(448) == Half * Half
    ensures P == Half * Half - Half - 1
  {
    assert Pow2(2) == 4;
    Pow2Add(2, 2);
    Pow2Add(4, 4);
    assert Pow2(8) == 0x100;
    Pow2Add(8, 8);
    Pow2Add(16, 8);
    Pow2Add(24, 4);
    assert Pow2(28) == R;
    Pow2Add(28, 28);
    assert Pow2(56) == 0x100_0000_0000_0000;
    Pow2Add(56, 56);
    assert Pow2(112) == 0x1_0000_0000_0000_0000_0000_0000_0000;
    Pow2Add(112, 112);
    assert Pow2(224) == Half;
    Pow2Add(224, 224);
  }

  /** Moving up one limb multiplies the weight by 2^28. */
  lemma LimbWeightStep(k: nat)
    ensures Pow2(28 * (k + 1)) == R * Pow2(28 * k)
  {
    Pow2Add(28 * k, 28);
    Weights();
  }

  /** A string of equal digits: all zero denotes 0, all 2^w - 1 denotes
      2^(w*n) - 1. */
  lemma {:induction false} EvalPrefixAllEqual(s: seq<int>, w: nat, d: int, n: nat)
    requires n <= |s| && (d == 0 || d == Pow2(w) - 1)
    requires forall i :: 0 <= i < n ==> s[i] == d
    ensures EvalPrefix(s, w, n) == if d == 0 then 0 else Pow2(w * n) - 1
  {
    if n == 0 {
      assert w * n == 0;
    } else {
      var k := n - 1;
      var a, b := Pow2(w * k), Pow2(w);
      EvalPrefixAllEqual(s, w, d, k);
      assert EvalPrefix(s, w, n) == EvalPrefix(s, w, k) + d * a;
      if d != 0 {
        WeightStep(w, k);
        MulSubDistrib(b, 1, a);
      }
    }
  }

  /** The constant `p` (x448_ref.go:52-55) denotes the field prime. */
  lemma PLimbsValue()
    ensures Value(PLimbs) == P
  {
    var masks := PLimbs[8 := R - 1];
    var top, mid := Pow2(28 * 16), Pow2(28 * 8);
    assert top == Half * Half && mid == Half by { Weights(); }
    assert Eval(masks, 28) == top - 1 by {
      Weights();
      EvalPrefixAllEqual(masks, 28, R - 1, 16);
    }
    assert PLimbs == masks[8 := R - 2];
    assert Value(PLimbs) == Eval(masks, 28) - mid by { EvalUpdate(masks, 28, 8, R - 2); }
    assert P == Half * Half - Half - 1 by { Weights(); }
  }

  /** The constants `zero` and `one` denote 0 and 1. */
  lemma SmallLimbsValue(w: u32)
    ensures Value(ZeroLimbs[0 := w]) == w
    ensures Value(ZeroLimbs) == 0 && Value(OneLimbs) == 1
  {
    EvalPrefixAllEqual(ZeroLimbs, 28, 0, 16);
    EvalUpdate(ZeroLimbs, 28, 0, w);
    assert OneLimbs == ZeroLimbs[0 := 1];
    EvalUpdate(ZeroLimbs, 28, 0, 1);
  }

  /** The limbs 2 * p.limb[i] that `sub` adds denote 2p. */
  lemma TwoPLimbsValue()
    ensures Value(seq(Limbs, i => 2 * PLimb(i))) == 2 * P
  {
    var two: seq<int> := seq(Limbs, i => 2 * PLimb(i));
    PLimbsValue();
    SmallLimbsValue(0);
    EvalAddSub(two, PLimbs, PLimbs, ZeroLimbs, 28);
  }

  /** The limbs of -p, one negated limb of p each: the borrow chain of `canon`. */
  lemma NegPLimbsValue()
    ensures Value(seq(Limbs, i => -(PLimb(i) as int))) == -(P as int)
  {
    var neg: seq<int> := seq(Limbs, i => -(PLimb(i) as int));
    PLimbsValue();
    SmallLimbsValue(0);
    EvalAddSub(neg, ZeroLimbs, ZeroLimbs, PLimbs, 28);
  }

  // ---------------------------------------------------------------------
  // Conditional swap

  /** AND with 0xffffffff keeps a uint32 word. */
  lemma AndWord(z: nat)
    requires z < 0x1_0000_0000
    ensures And(z, 0xffff_ffff) == z
  {
    var w := Pow2(32);
    assert w == 0x1_0000_0000 by { Weights(); Pow2Add(28, 4); }
    AndLowMask(z, 32);
    ModSmall(z, w);
  }

  /** The limb `condSwap` leaves in x: x with the bits of y where mask has
      ones, that is x ^ ((x ^ y) & mask). */
  function Select(x: nat, y: nat, mask: nat): nat
  {
    Xor(x, And(Xor(x, y), mask))
  }

  /** The two masks `condSwap` is called with: all zeros keeps x, all ones
      gives y.  Selecting between equal limbs keeps the limb, and a limb
      selected from two uint32 words is a uint32 word. */
  lemma SelectLimb(x: u32, y: u32, mask: u32)
    ensures Select(x, y, mask) < 0x1_0000_0000
    ensures mask == 0 ==> Select(x, y, mask) == x
    ensures mask == 0xffff_ffff ==> Select(x, y, mask) == y
    ensures Select(x, x, mask) == x
  {
    var z := Xor(x, y);
    assert Pow2(32) == 0x1_0000_0000 by { Weights(); Pow2Add(28, 4); }
    assert z < 0x1_0000_0000 by { XorBound(x, y, 32); }
    assert And(z, mask) < 0x1_0000_0000 by { AndBound(z, mask); }
    assert Select(x, y, mask) < 0x1_0000_0000 by { XorBound(x, And(z, mask), 32); }
    if mask == 0 {
      assert And(z, mask) == 0;
      XorZero(x);
    }
    if mask == 0xffff_ffff {
      AndWord(z);
      XorCancel(x, y);
    }
    assert And(Xor(x, x), mask) == 0 by { XorSelf(x); }
    XorZero(x);
  }

  // ---------------------------------------------------------------------
  // Reduction: carrying and folding the top limb

  /** One step of the circular carry chain of `reduce` (x448_ref.go:194-197)
      and `mul` (x448_ref.go:80-83): limb j takes the carry out of the limb
      below it (limb 15 when j is 0, since (j-1) mod 16 is taken on an
      unsigned j) and that limb keeps its low 28 bits.  Between neighbours the
      value is unchanged; the wrap-around from limb 15 into limb 0 lowers it
      by carry * (2^448 - 1) = carry * (p + 2^224). */
  lemma CarryStep(s: seq<int>, j: nat, prev: nat)
    requires |s| == Limbs && j < Limbs && prev == (if j == 0 then 15 else j - 1) && s[prev] >= 0
    ensures var c := s[prev] / R;
            Value(s[j := s[j] + c][prev := s[prev] % R]) ==
              Value(s) - (if j == 0 then c * (P + Half) else 0)
  {
    var c := s[prev] / R;
    var s1 := s[j := s[j] + c];
    var wj, wp := Pow2(28 * j), Pow2(28 * prev);
    assert Value(s1) == Value(s) + c * wj by { EvalUpdate(s, 28, j, s[j] + c); }
    assert s1[prev] == s[prev];
    CarryOut(s1, prev);
    CarryWeight(j, prev);
    if j == 0 {
      assert P + Half == Half * Half - 1 by { Weights(); }
    }
  }

  /** Keeping only the low 28 bits of limb k lowers the value by the carry
      times the weight of limb k + 1. */
  lemma CarryOut(s: seq<int>, k: nat)
    requires k < |s| && s[k] >= 0
    ensures Value(s[k := s[k] % R]) == Value(s) - (s[k] / R) * (R * Pow2(28 * k))
  {
    var c, m, w := s[k] / R, s[k] % R, Pow2(28 * k);
    EvalUpdate(s, 28, k, m);
    assert m - s[k] == -(c * R) by { DivMod(s[k], R); }
    assert (m - s[k]) * w == -(c * (R * w));
  }

  /** The carry out of limb `prev` lands in limb j; from limb 15 it wraps to
      limb 0, whose weight is 2^448 smaller. */
  lemma CarryWeight(j: nat, prev: nat)
    requires j < Limbs && prev == (if j == 0 then 15 else j - 1)
    ensures R * Pow2(28 * prev) == (if j == 0 then Half * Half else Pow2(28 * j))
  {
    LimbWeightStep(prev);
    if j == 0 {
      Weights();
    }
  }

  /** What the carry loop of `reduce` and `mul` (x448_ref.go:80-83, 193-197)
      keeps after j steps, starting from s on words below `word`: the limbs
      not yet reached are untouched, those already passed are below 2^28,
      limb j - 1 gained at most one carry, and limb 15, once reduced at step
      0, gains one more carry at step 15. */
  predicate CarryBounds(r: seq<int>, s: seq<int>, j: nat, word: nat)
  {
    |r| == Limbs && |s| == Limbs && j <= Limbs &&
    (forall k :: j <= k < 15 ==> r[k] == s[k]) &&
    (forall k :: 0 <= k < j - 1 ==> 0 <= r[k] < R) &&
    (1 <= j < Limbs ==> 0 <= r[j - 1] <= s[j - 1] + word / R) &&
    (j == 0 ==> r[15] == s[15]) &&
    (1 <= j < Limbs ==> 0 <= r[15] < R) &&
    (j == Limbs ==> 0 <= r[15] <= R - 1 + (s[14] + word / R) / R)
  }

  /** One step of the carry loop: limb (j - 1) mod 16 passes its carry c to
      limb j and keeps its low 28 bits.  The carry is below word / 2^28, the
      value is unchanged except at step 0, where the carry out of limb 15
      re-enters at limb 0 and the value drops by c * (p + 2^224). */
  lemma CarryBoundsStep(r: seq<int>, s: seq<int>, j: nat, word: nat)
    requires j < Limbs && CarryBounds(r, s, j, word)
    requires forall k :: 0 <= k < Limbs ==> 0 <= r[k] < word
    ensures var prev := (j + 15) % 16;
            var c := r[prev] / R;
            prev == (if j == 0 then 15 else j - 1) && 0 <= c <= word / R &&
            r[j] + c <= (if j == 15 then R - 1 + (s[14] + word / R) / R else s[j] + word / R) &&
            CarryBounds(r[j := r[j] + c][prev := r[prev] % R], s, j + 1, word) &&
            Value(r[j := r[j] + c][prev := r[prev] % R]) == Value(r) - (if j == 0 then c * (P + Half) else 0)
  {
    var prev := (j + 15) % 16;
    Mod16(j + 15);
    CarryStep(r, j, prev);
  }

  /** Step j of the carry loop keeps its invariant: the bounds move on to
      j + 1, and the value, which at step 0 still holds t * 2^224 from the
      fold of t = s[15] / 2^28 into limb 8, ends t * p below v. */
  lemma CarryNext(r: seq<int>, s: seq<int>, j: nat, word: nat, v: int, t: int, r': seq<int>)
    requires j < Limbs && CarryBounds(r, s, j, word)
    requires forall k :: 0 <= k < Limbs ==> 0 <= r[k] < word
    requires t == s[15] / R && Value(r) == v + (if j == 0 then t * Half else -t * P)
    requires r' == r[j := r[j] + r[(j + 15) % 16] / R][(j + 15) % 16 := r[(j + 15) % 16] % R]
    ensures CarryBounds(r', s, j + 1, word) && Value(r') == v - t * P
  {
    CarryBoundsStep(r, s, j, word);
  }

  /** `& lMask` keeps the low 28 bits of a limb or accumulator. */
  lemma MaskLimb(x: nat)
    ensures And(x, R - 1) == x % R && x % R < R
  {
    AndLowMask(x, 28);
    Weights();
  }

  /** Adding t to limb 8 adds t * 2^224 to the value. */
  lemma FoldMiddle(s: seq<int>, t: int)
    requires |s| == Limbs
    ensures Value(s[8 := s[8] + t]) == Value(s) + t * Half
  {
    EvalUpdate(s, 28, 8, s[8] + t);
    Weights();
  }

  /** A weakly reduced element denotes a number below 2p, so one conditional
      subtraction of p canonicalizes it. */
  lemma WeakBelowTwoP(s: seq<int>)
    requires Weak(s)
    ensures 0 <= Value(s) < 2 * P
  {
    var w15 := Pow2(28 * 15);
    var low := EvalPrefix(s, 28, 15);
    assert 0 <= low < w15 by {
      var z := s[15 := 0];
      assert DigitsBelow(z, 28) by { Weights(); }
      EvalPrefixSame(s, z, 28, 15);
      EvalPrefixBound(z, 28, 15);
    }
    assert Value(s) == low + s[15] * w15;
    assert R * w15 == Half * Half by { LimbWeightStep(15); Weights(); }
    assert Half <= w15 by { Pow2Monotone(224, 28 * 15); Weights(); }
    assert P == Half * Half - Half - 1 by { Weights(); }
    TopLimbBound(low, s[15], w15, Half);
  }

  /** low + t * w for a low part below w and a top limb t of a weakly
      reduced element, where R * w == h * h and h <= w. */
  lemma TopLimbBound(low: int, t: int, w: int, h: int)
    requires 0 <= low < w && 0 <= t < R + 0x100 && R * w == h * h && 1 <= h <= w
    ensures 0 <= low + t * w < 2 * (h * h - h - 1)
  {
    MulMonotone(t, R + 0xff, w);
    MulMonotone(0, t, w);
  }

  // ---------------------------------------------------------------------
  // Rotation: how `mul` folds its copy of a (x448_ref.go:70-75)

  /** Σ_{j<n} s[j] * 2^(28*((i+j) mod 16)): the value of s with every limb
      moved up i positions, wrapping round at 16. */
  function RotValue(s: seq<int>, i: nat, n: nat): int
    requires n <= |s|
  {
    if n == 0 then 0 else RotValue(s, i, n - 1) + s[n - 1] * Pow2(28 * ((i + n - 1) % 16))
  }

  /** With no rotation, RotValue is the value of the prefix. */
  lemma {:induction false} RotValueUnrotated(s: seq<int>, n: nat)
    requires n <= |s| && n <= Limbs
    ensures RotValue(s, 0, n) == EvalPrefix(s, 28, n)
  {
    if n > 0 {
      var k := n - 1;
      assert (0 + k) % 16 == k by { Mod16(k); }
      RotValueUnrotated(s, k);
      var w := Pow2(28 * k);
      assert RotValue(s, 0, n) == RotValue(s, 0, k) + s[k] * w;
      assert EvalPrefix(s, 28, n) == EvalPrefix(s, 28, k) + s[k] * w;
    }
  }

  /** RotValue of the first n limbs reads only those limbs. */
  lemma {:induction false} RotValuePrefix(s: seq<int>, t: seq<int>, i: nat, n: nat)
    requires n <= |s| && n <= |t|
    requires forall j :: 0 <= j < n ==> s[j] == t[j]
    ensures RotValue(s, i, n) == RotValue(t, i, n)
  {
    if n > 0 {
      RotValuePrefix(s, t, i, n - 1);
    }
  }

  /** Changing one limb changes RotValue by the change times that limb's
      rotated weight. */
  lemma {:induction false} RotValueUpdate(s: seq<int>, i: nat, n: nat, k: nat, x: int)
    requires k < n <= |s|
    ensures RotValue(s[k := x], i, n) == RotValue(s, i, n) + (x - s[k]) * Pow2(28 * ((i + k) % 16))
  {
    if k < n - 1 {
      RotValueUpdate(s, i, n - 1, k, x);
      var t := s[k := x];
      var v := Pow2(28 * ((i + n - 1) % 16));
      assert t[n - 1] == s[n - 1];
      assert RotValue(t, i, n) == RotValue(t, i, n - 1) + t[n - 1] * v;
    } else {
      RotValueUpdateTop(s, i, k, x);
    }
  }

  /** Changing the top limb of a prefix changes RotValue by the change times
      that limb's rotated weight. */
  lemma RotValueUpdateTop(s: seq<int>, i: nat, k: nat, x: int)
    requires k < |s|
    ensures RotValue(s[k := x], i, k + 1) == RotValue(s, i, k + 1) + (x - s[k]) * Pow2(28 * ((i + k) % 16))
  {
    var t := s[k := x];
    var w := Pow2(28 * ((i + k) % 16));
    RotValuePrefix(t, s, i, k);
    assert RotValue(t, i, k + 1) == RotValue(t, i, k) + x * w;
    assert RotValue(s, i, k + 1) == RotValue(s, i, k) + s[k] * w;
    MulSubDistrib(x, s[k], w);
  }

  /** Limb positions below 32 wrap round at 16 at most once. */
  lemma Mod16(x: nat)
    requires x < 32
    ensures x % 16 == if x < 16 then x else x - 16
  {
    if x < 16 {
      ModUnique(x, 16, 0, x);
    } else {
      ModUnique(x, 16, 1, x - 16);
    }
  }

  /** Multiplying one term by 2^28 moves it up one position; from position
      15 it wraps to position 0 and loses 2^448 - 1 of its weight. */
  lemma ShiftTerm(x: int, m: nat)
    requires m < Limbs
    ensures R * (x * Pow2(28 * m)) ==
            x * Pow2(28 * ((m + 1) % 16)) + (if m == 15 then x * (Half * Half - 1) else 0)
  {
    var wm := Pow2(28 * m);
    var wn := Pow2(28 * ((m + 1) % 16));
    if m == 15 {
      assert R * wm == Half * Half by { CarryWeight(0, 15); }
      assert wn == 1 by { Mod16(16); }
    } else {
      assert R * wm == wn by {
        Mod16(m + 1);
        CarryWeight(m + 1, m);
      }
    }
    assert R * (x * wm) == x * (R * wm);
  }

  /** Multiplying by 2^28 moves every limb up one more position; the limb that
      wraps from position 15 to position 0 loses 2^448 - 1 of its weight. */
  lemma {:induction false} RotValueShift(s: seq<int>, i: nat, n: nat)
    requires |s| == Limbs && i < Limbs && n <= Limbs
    ensures R * RotValue(s, i, n) ==
            RotValue(s, i + 1, n) + (if 15 - i < n then s[15 - i] * (Half * Half - 1) else 0)
  {
    if n > 0 {
      RotValueShift(s, i, n - 1);
      var m := (i + n - 1) % 16;
      ShiftTerm(s[n - 1], m);
      Mod16(i + n - 1);
      Mod16(i + n);
      Mod16(m + 1);
      var a, b := RotValue(s, i, n - 1), RotValue(s, i + 1, n - 1);
      var t, t' := s[n - 1] * Pow2(28 * m), s[n - 1] * Pow2(28 * ((m + 1) % 16));
      assert RotValue(s, i, n) == a + t;
      assert RotValue(s, i + 1, n) == b + t';
      assert R * (a + t) == R * a + R * t;
    }
  }

  /** The step `aa[(15-i) xor 8] += aa[15-i]` keeps the rotated copy of a
      equal to 2^28 times the previous one, minus a multiple of p: the limb
      that wraps round is also added at the position of weight 2^224, because
      2^448 ≡ 2^224 + 1 (mod p). */
  lemma RotateFold(aa: seq<int>, i: nat)
    requires |aa| == Limbs && i < Limbs
    ensures var k := (23 - i) % 16;
            RotValue(aa[k := aa[k] + aa[15 - i]], i + 1, Limbs) == R * RotValue(aa, i, Limbs) - aa[15 - i] * P
  {
    var k := (23 - i) % 16;
    var t := aa[15 - i];
    var before, after := RotValue(aa, i, Limbs), RotValue(aa, i + 1, Limbs);
    assert R * before == after + t * (Half * Half - 1) by { RotValueShift(aa, i, Limbs); }
    assert (i + 1 + k) % 16 == 8 by {
      Mod16(23 - i);
      Mod16(i + 1 + k);
    }
    var w := Pow2(28 * ((i + 1 + k) % 16));
    assert w == Half by { Weights(); }
    assert RotValue(aa[k := aa[k] + t], i + 1, Limbs) == after + t * w by {
      RotValueUpdate(aa, i + 1, Limbs, k, aa[k] + t);
    }
    assert P == Half * Half - Half - 1 by { Weights(); }
  }

  // ---------------------------------------------------------------------
  // Congruences and powers

  lemma ModAddMultiple(x: int, k: int, m: int)
    requires m > 0
    ensures (x + k * m) % m == x % m
  {
    var q, r := x / m, x % m;
    assert x + k * m == (q + k) * m + r;
    ModUnique(x + k * m, m, q + k, r);
  }

  lemma ModMulLeft(a: int, b: int, m: int)
    requires m > 0
    ensures (a * b) % m == ((a % m) * b) % m
  {
    var q, r := a / m, a % m;
    assert a == q * m + r;
    assert a * b == r * b + (q * b) * m;
    ModAddMultiple(r * b, q * b, m);
  }

  lemma ModMul(a: int, b: int, c: int, d: int, m: int)
    requires m > 0 && a % m == c % m && b % m == d % m
    ensures (a * b) % m == (c * d) % m
  {
    ModMulLeft(a, b, m);
    ModMulLeft(c, d, m);
    ModMulLeft(b, a % m, m);
    ModMulLeft(d, c % m, m);
    assert a % m * b == b * (a % m) && c % m * d == d * (c % m);
    assert (b % m) * (a % m) == (d % m) * (c % m);
  }

  function Pow(b: int, e: nat): int
  {
    if e == 0 then 1 else b * Pow(b, e - 1)
  }

  lemma {:induction false} PowAdd(b: int, m: nat, n: nat)
    ensures Pow(b, m) * Pow(b, n) == Pow(b, m + n)
  {
    if m > 0 {
      PowAdd(b, m - 1, n);
      assert Pow(b, m) * Pow(b, n) == b * (Pow(b, m - 1) * Pow(b, n));
    }
  }

  lemma {:induction false} PowMul(b: int, m: nat, n: nat)
    ensures Pow(Pow(b, m), n) == Pow(b, m * n)
  {
    if n > 0 {
      PowMul(b, m, n - 1);
      PowAdd(b, m, m * (n - 1));
      assert m + m * (n - 1) == m * n;
    }
  }

  /** Congruent bases give congruent powers. */
  lemma {:induction false} PowCongruent(a: int, b: int, n: nat)
    requires a % P == b % P
    ensures Pow(a, n) % P == Pow(b, n) % P
  {
    if n > 0 {
      PowCongruent(a, b, n - 1);
      ModMul(a, Pow(a, n - 1), b, Pow(b, n - 1), P);
    }
  }

  /** Every positive power of a multiple of p is a multiple of p. */
  lemma PowOfZero(a: int, n: nat)
    requires a % P == 0 && n > 0
    ensures Pow(a, n) % P == 0
  {
    ModMul(a, Pow(a, n - 1), 0, Pow(a, n - 1), P);
  }

  /** Multiplying congruent powers of x adds their exponents. */
  lemma MulPow(va: int, vb: int, x: int, ea: nat, eb: nat)
    requires va % P == Pow(x, ea) % P && vb % P == Pow(x, eb) % P
    ensures (va * vb) % P == Pow(x, ea + eb) % P
  {
    ModMul(va, vb, Pow(x, ea), Pow(x, eb), P);
    PowAdd(x, ea, eb);
  }

  /** The exponent 2^k - 1 (k one bits), built without multiplication. */
  function Ones(k: nat): nat
  {
    Pow2(k) - 1
  }


  /** Squaring x^(e * 2^i) gives x^(e * 2^(i+1)). */
  lemma SqrPow(v: int, x: int, e: nat, i: nat)
    requires v % P == Pow(x, Shl(e, i)) % P
    ensures (v * v) % P == Pow(x, Shl(e, i + 1)) % P
  {
    MulPow(v, v, x, Shl(e, i), Shl(e, i));
    assert Shl(e, i + 1) == Shl(e, i) + Shl(e, i);
  }

  /** The exponents of the addition chain: k ones followed by m more ones
      are k + m ones, 2^k - 1 + (2^m - 1) * 2^k = 2^(k+m) - 1. */
  lemma ChainExp(k: nat, m: nat)
    ensures Ones(k) + Shl(Ones(m), k) == Ones(k + m)
  {
    Pow2Add(k, m);
    var a: int, b: int := Pow2(k), Pow2(m);
    assert (b - 1) * a == a * b - a;
  }

  /** The arithmetic behind IsqrtExp: with h = 4a = 2^224 and b = 2a,
      (a - 1) + (b - 1) * b is (h^2 - h - 4) / 4. */
  lemma ChainArith(a: int, b: int, h: int, p: int)
    requires h == 4 * a && b == 2 * a && p == h * h - h - 1
    ensures (a - 1) + (b - 1) * b == (p - 3) / 4
  {
    assert h * h == 16 * (a * a);
    assert p - 3 == 4 * ((a - 1) + (b - 1) * b);
  }

  /** The last product of `isqrt` has exponent (p - 3) / 4 = 2^446 - 2^222 - 1. */
  lemma IsqrtExp()
    ensures Ones(222) + Shl(Ones(223), 223) == (P - 3) / 4
  {
    Pow2Add(222, 1);
    Pow2Add(222, 2);
    Weights();
    assert Pow2(1) == 2 && Pow2(2) == 4;
    ChainArith(Pow2(222), Pow2(223), Half, P);
  }

  // ---------------------------------------------------------------------
  // Canonical form and the byte encoding

  /** The canonical limbs denote the value reduced into [0, p). */
  lemma CanonicalValue(s: seq<int>)
    ensures 0 <= Value(s) % P < P && Value(Canonical(s)) == Value(s) % P
  {
    var v := Value(s) % P;
    EvalDigits(v, Limbs, 28);
    Weights();
    ModSmall(v, Pow2(28 * Limbs));
  }

  /** Limbs below 2^28 that denote a number below p are already canonical. */
  lemma CanonicalFixed(s: seq<int>)
    requires |s| == Limbs && DigitsBelow(s, 28) && Value(s) < P
    ensures Canonical(s) == s
  {
    EvalBound(s, 28);
    ModSmall(Value(s), P);
    DigitsOfEval(s, 28, Value(s));
  }

  /** Canonicalizing twice gives the same limbs as canonicalizing once. */
  lemma CanonicalIdempotent(s: seq<int>)
    ensures Canonical(Canonical(s)) == Canonical(s)
  {
    CanonicalValue(s);
    CanonicalFixed(Canonical(s));
  }

  /** Deserializing the bytes `ser` writes gives back the canonical limbs. */
  lemma SerDeserRoundTrip(s: seq<int>)
    ensures LimbsOfBytes(BytesOfLimbs(s)) == Canonical(s)
  {
    var v := Value(s) % P;
    EvalDigits(v, Bytes, 8);
    Weights();
    ModSmall(v, Pow2(8 * Bytes));
  }

  /** Serializing the limbs `deser` produces gives back any byte string that
      encodes a number below p. */
  lemma DeserSerRoundTrip(b: seq<int>)
    requires |b| == Bytes && DigitsBelow(b, 8) && Eval(b, 8) < P
    ensures BytesOfLimbs(LimbsOfBytes(b)) == b
  {
    EvalBound(b, 8);
    var e := Eval(b, 8);
    EvalDigits(e, Limbs, 28);
    Weights();
    ModSmall(e, Pow2(28 * Limbs));
    ModSmall(e, P);
    DigitsOfEval(b, 8, e);
  }

  /** An element whose value is a single byte v is encoded as v followed by
      55 zero bytes. */
  lemma EncodingOfSmall(s: seq<int>, v: nat)
    requires Value(s) == v < 0x100
    ensures BytesOfLimbs(s) == seq(Bytes, i => if i == 0 then v else 0)
  {
    var zeros: seq<int> := seq(Bytes, i => 0);
    var b := zeros[0 := v];
    assert b == seq(Bytes, i => if i == 0 then v else 0);
    assert Eval(b, 8) == v by {
      EvalPrefixAllEqual(zeros, 8, 0, 56);
      EvalUpdate(zeros, 8, 0, v);
      assert Pow2(8 * 0) == 1;
    }
    assert DigitsBelow(b, 8) by { assert Pow2(8) == 0x100; }
    assert v % P == v;
    DigitsOfEval(b, 8, v);
  }

  /** `one` is encoded as 01 00 .. 00. */
  lemma EncodingOfOne()
    ensures BytesOfLimbs(OneLimbs) == seq(Bytes, i => if i == 0 then 1 else 0)
  {
    SmallLimbsValue(0);
    EncodingOfSmall(OneLimbs, 1);
  }

  /** The digits of p are the limbs of the constant `p`. */
  lemma PLimbsDigits()
    ensures Digits(P, Limbs, 28) == PLimbs
  {
    PLimbsValue();
    assert DigitsBelow(PLimbs, 28) by { Weights(); }
    DigitsOfEval(PLimbs, 28, P);
  }

  /** The digits of 0 are the limbs of the constant `zero`. */
  lemma ZeroLimbsDigits()
    ensures Digits(0, Limbs, 28) == ZeroLimbs
  {
    EvalPrefixAllEqual(ZeroLimbs, 28, 0, 16);
    DigitsOfEval(ZeroLimbs, 28, 0);
  }

  /** Any 56-byte string that encodes p itself (a non-canonical encoding)
      deserializes to limbs that canonicalize to `zero`. */
  lemma ModulusDecodesToZero(b: seq<int>)
    requires |b| == Bytes && DigitsBelow(b, 8) && Eval(b, 8) == P
    ensures Canonical(LimbsOfBytes(b)) == ZeroLimbs
  {
    var l := LimbsOfBytes(b);
    assert l == PLimbs by { PLimbsDigits(); }
    var v := Value(l);
    assert v == P by { PLimbsValue(); }
    assert Canonical(l) == Digits(0, Limbs, 28);
    ZeroLimbsDigits();
  }

  // ---------------------------------------------------------------------
  // The carry chains of `canon` and the range check of `deser`

  /** `c & lMask` on an int64 c: its two's-complement bits are c mod 2^64,
      and their low 28 bits are c mod 2^28. */
  lemma MaskSigned(c: int)
    ensures And(c % 0x1_0000_0000_0000_0000, R - 1) == c % R
  {
    var m := c % 0x1_0000_0000_0000_0000;
    MaskLimb(m);
    var q := c / 0x1_0000_0000_0000_0000;
    assert c == m + (q * 0x10_0000_0000) * R;
    ModAddMultiple(m, q * 0x10_0000_0000, R);
  }

  /** `p.limb[i] & uint32(addback)` for a final borrow of -1 or 0: the whole
      limb of p, or nothing. */
  lemma MaskedPLimb(i: int, addback: int)
    requires addback == -1 || addback == 0
    ensures And(PLimb(i), addback % 0x1_0000_0000) == if addback == -1 then PLimb(i) else 0
  {
    if addback == -1 {
      AndWord(PLimb(i));
    }
  }

  /** The limbs the second chain of `canon` adds, p masked limb by limb
      with the final borrow, are worth p after a borrow and 0 otherwise. */
  lemma MaskedPValue(addback: int)
    requires addback == -1 || addback == 0
    ensures Value(seq(Limbs, i => And(PLimb(i), addback % 0x1_0000_0000))) == if addback == -1 then P else 0
  {
    var m: seq<int> := seq(Limbs, i => And(PLimb(i), addback % 0x1_0000_0000));
    forall i | 0 <= i < Limbs
      ensures m[i] == if addback == -1 then PLimbs[i] else ZeroLimbs[i]
    {
      MaskedPLimb(i, addback);
    }
    if addback == -1 {
      assert m == PLimbs;
      PLimbsValue();
    } else {
      assert m == ZeroLimbs;
      SmallLimbsValue(0);
    }
  }

  lemma RadixIsPow2()
    ensures Pow2(28) == R
  {
    Weights();
  }

  lemma ByteIsPow2()
    ensures Pow2(8) == 0x100
  {
    assert Pow2(2) == 4;
    Pow2Add(2, 2);
    Pow2Add(4, 4);
  }

  /** A word of at most 56 bits fits the uint64 buffer of `deser` and `ser`. */
  lemma BufferBound(n: nat)
    requires n <= 56
    ensures Pow2(n) < 0x1_0000_0000_0000_0000
  {
    Pow2Monotone(n, 56);
    Pow2Add(28, 28);
    RadixIsPow2();
  }

  lemma MulDistrib3(x: int, y: int, z: int, a: int)
    ensures (x + y + z) * a == x * a + y * a + z * a
  {
  }

  /** The state of a carry chain adding q to s after i limbs: the limbs
      below i are 28-bit digits, those from i on are still the limbs of s,
      and the digits written plus the carry at weight 2^(28 i) denote the
      sum of the first i digits of s and q. */
  predicate Chained(r: seq<int>, s: seq<int>, q: seq<int>, i: nat, carry: int)
  {
    |r| == Limbs && |s| == Limbs && |q| == Limbs && i <= Limbs &&
    (forall k :: 0 <= k < i ==> 0 <= r[k] < R) && r[i..] == s[i..] &&
    EvalPrefix(r, 28, i) + carry * Pow2(28 * i) == EvalPrefix(s, 28, i) + EvalPrefix(q, 28, i)
  }

  lemma ChainStart(s: seq<int>, q: seq<int>)
    requires |s| == Limbs && |q| == Limbs
    ensures Chained(s, s, q, 0, 0)
  {
  }

  /** One limb of the chain: limb i takes c mod 2^28 and c / 2^28 (rounded
      down, as an arithmetic shift does) moves on. */
  lemma ChainStep(r: seq<int>, s: seq<int>, q: seq<int>, i: nat, carry: int, c: int, r': seq<int>)
    requires Chained(r, s, q, i, carry) && i < Limbs
    requires c == carry + s[i] + q[i] && r' == r[i := c % R]
    ensures Chained(r', s, q, i + 1, c / R)
  {
    MulDistrib3(carry, s[i], q[i], Pow2(28 * i));
    RadixIsPow2();
    DigitOut(r, 28, i, c, r');
    assert r'[i + 1..] == r[i + 1..] == s[i + 1..];
  }

  /** At the end of the chain the limbs are digits and, with the carry out
      of the top at weight 2^448, denote the sum of s and q. */
  lemma ChainDone(r: seq<int>, s: seq<int>, q: seq<int>, carry: int)
    requires Chained(r, s, q, Limbs, carry)
    ensures DigitsBelow(r, 28) && Value(r) + carry * Pow2(28 * Limbs) == Value(s) + Value(q)
  {
    RadixIsPow2();
  }

  /** The two chains of `canon` produce the canonical limbs of a weakly
      reduced s: the first subtracts p and borrows -1 out of limb 15 exactly
      when s is below p; the second adds p back in that case. */
  lemma CanonChains(s: seq<int>, r1: seq<int>, c1: int, r2: seq<int>, c2: int)
    requires Weak(s) && |r1| == Limbs && |r2| == Limbs
    requires DigitsBelow(r1, 28) && DigitsBelow(r2, 28)
    requires (c1 == -1 || c1 == 0) && (c2 == 0 || c2 == 1)
    requires Value(r1) + c1 * Pow2(28 * Limbs) == Value(s) - P
    requires Value(r2) + c2 * Pow2(28 * Limbs) == Value(r1) + (if c1 == -1 then P else 0)
    ensures r2 == Canonical(s)
  {
    WeakBelowTwoP(s);
    EvalBound(r1, 28);
    EvalBound(r2, 28);
    PBelowTop();
    var v: int, v1: int, v2: int, top: int := Value(s), Value(r1), Value(r2), Pow2(28 * Limbs);
    assert c2 * top == if c2 == 1 then top else 0;
    if c1 == -1 {
      assert c1 * top == -top;
      assert v1 == v - P + top;
      assert v2 == v;
      ModSmall(v, P);
    } else {
      assert c1 * top == 0;
      assert v1 == v - P;
      assert v2 == v - P;
      ModAddMultiple(v - P, 1, P);
      ModSmall(v - P, P);
    }
    DigitsOfEval(r2, 28, v2);
  }

  /** p fits in the 16 limbs with room to spare. */
  lemma PBelowTop()
    ensures 0 < P < Pow2(28 * Limbs)
  {
    Weights();
  }

  /** One limb of the borrow chain at the end of `deser`: with limbs below
      2^28 the shift by 32 bits turns the running difference into -1 when it
      is negative and 0 otherwise, and -1 is left exactly when the prefix of
      s is below the same prefix of p. */
  lemma BorrowStep(s: seq<int>, j: nat, accum: int)
    requires |s| == Limbs && DigitsBelow(s, 28) && j < Limbs && (accum == -1 || accum == 0)
    requires accum == -1 <==> EvalPrefix(s, 28, j) < EvalPrefix(PLimbs, 28, j)
    ensures var a := (accum + s[j] - PLimb(j)) / 0x1_0000_0000;
            (a == -1 || a == 0) && (a == -1 <==> EvalPrefix(s, 28, j + 1) < EvalPrefix(PLimbs, 28, j + 1))
  {
    assert DigitsBelow(PLimbs, 28) by { PLimbsDigits(); }
    EvalPrefixBound(s, 28, j);
    EvalPrefixBound(PLimbs, 28, j);
    Weights();
    var d := accum + s[j] - PLimb(j);
    if d < 0 {
      ModUnique(d, 0x1_0000_0000, -1, d + 0x1_0000_0000);
    } else {
      ModUnique(d, 0x1_0000_0000, 0, d);
    }
    TopDigitLess(EvalPrefix(s, 28, j), s[j], EvalPrefix(PLimbs, 28, j), PLimb(j), Pow2(28 * j));
  }
}
