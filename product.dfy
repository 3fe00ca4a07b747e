/** The schoolbook product of x448_ref.go:64-87, as specification functions.

    `mul` walks the limbs of b; for limb i it adds b[i] * aa[j] into
    accumulator slot (i + j) mod 16 for every j, then folds aa: the limb
    aa[15 - i], which is about to wrap round to slot 0, is also added at
    position (15 - i) xor 8, the slot that will carry weight 2^224.  `RowAdd`
    is what one pass of the inner loop does to the accumulators; the lemmas
    give its value (b[i] times the rotated value of aa), the exact contents
    of each slot (each is touched once per pass), and the limb bounds that
    keep every uint32 and uint64 of `mul` from wrapping. */
module Product {
  import opened Bits
  import opened Radix
  import opened Field

  /** An upper bound on one partial product b[i] * aa[j]: b's limbs are below
      2^29 and aa's stay below 3 * 2^29. */
  const MaxProduct: nat := 0xBFF_FFFF_8000_0001

  /** The first j steps of the inner loop for row i: slot (i + j') mod 16
      gains bv * aa[j'] for every j' < j. */
  function RowAdd(acc: seq<int>, bv: int, aa: seq<int>, i: nat, j: nat): (r: seq<int>)
    requires |acc| == Limbs && |aa| == Limbs && j <= Limbs
    ensures |r| == Limbs
  {
    if j == 0 then acc
    else
      var r := RowAdd(acc, bv, aa, i, j - 1);
      var k := (i + j - 1) % 16;
      r[k := r[k] + bv * aa[j - 1]]
  }

  /** The position in row i of the partial product that lands in slot k. */
  function Offset(k: nat, i: nat): nat
  {
    (k + 16 - i) % 16
  }

  /** After j steps, slot k holds its old value plus the one product of row i
      that lands there, if that product has been added yet. */
  lemma {:induction false} RowAddAt(acc: seq<int>, bv: int, aa: seq<int>, i: nat, j: nat)
    requires |acc| == Limbs && |aa| == Limbs && j <= Limbs && i < Limbs
    ensures forall k :: 0 <= k < Limbs ==>
              RowAdd(acc, bv, aa, i, j)[k] ==
              acc[k] + (if Offset(k, i) < j then bv * aa[Offset(k, i)] else 0)
  {
    if j > 0 {
      RowAddAt(acc, bv, aa, i, j - 1);
      var slot := (i + j - 1) % 16;
      assert slot == (if i + j - 1 < 16 then i + j - 1 else i + j - 17) by { Mod16(i + j - 1); }
      forall k | 0 <= k < Limbs
        ensures (Offset(k, i) == j - 1) == (k == slot) && Offset(k, i) < 16
      {
        Mod16(k + 16 - i);
      }
    }
  }

  /** One pass adds bv times the rotated value of aa, partial sums included. */
  lemma {:induction false} RowAddValue(acc: seq<int>, bv: int, aa: seq<int>, i: nat, j: nat)
    requires |acc| == Limbs && |aa| == Limbs && j <= Limbs
    ensures Value(RowAdd(acc, bv, aa, i, j)) == Value(acc) + bv * RotValue(aa, i, j)
  {
    if j > 0 {
      RowAddValue(acc, bv, aa, i, j - 1);
      var r := RowAdd(acc, bv, aa, i, j - 1);
      var k := (i + j - 1) % 16;
      var w := Pow2(28 * k);
      assert Value(r[k := r[k] + bv * aa[j - 1]]) == Value(r) + (bv * aa[j - 1]) * w by {
        EvalUpdate(r, 28, k, r[k] + bv * aa[j - 1]);
      }
      assert RotValue(aa, i, j) == RotValue(aa, i, j - 1) + aa[j - 1] * w;
      ScaleSum(bv, RotValue(aa, i, j - 1), aa[j - 1], w);
    }
  }

  lemma ScaleSum(c: int, x: int, d: int, w: int)
    ensures c * (x + d * w) == c * x + (c * d) * w
  {
  }

  /** Slot (i + j) mod 16 is the one where the product at position j of row i
      lands. */
  lemma OffsetOfSlot(i: nat, j: nat)
    requires i < Limbs && j < Limbs
    ensures (i + j) % 16 < Limbs && Offset((i + j) % 16, i) == j
  {
    Mod16(i + j);
    Mod16((i + j) % 16 + 16 - i);
  }

  /** Row i adds b[i] times the rotated copy of a: if that copy is a * 2^(28i)
      and the accumulators hold a * (b's first i limbs), both up to multiples
      of p, the accumulators then hold a * (b's first i + 1 limbs). */
  lemma RowStep(vr: int, v0: int, rot: int, va: int, e: int, e1: int, m2: int, bv: int, w: int, m1: int)
    requires v0 == va * e - m2 * P && rot == va * w - m1 * P
    requires vr == v0 + bv * rot && e1 == e + bv * w
    ensures vr == va * e1 - (m2 + bv * m1) * P
  {
    assert bv * rot == va * (bv * w) - (bv * m1) * P;
    assert va * e1 == va * e + va * (bv * w);
  }

  /** The fold turns a rotated copy worth a * 2^(28i) into one worth
      a * 2^(28(i+1)), up to multiples of p. */
  lemma FoldStep(va: int, w: int, m1: int, t: int)
    ensures R * (va * w - m1 * P) - t * P == va * (R * w) - (R * m1 + t) * P
  {
  }

  /** A product of a limb below 2^29 and one below 3 * 2^29 is at most
      MaxProduct. */
  lemma ProductBound(x: int, y: int)
    requires 0 <= x < 0x2000_0000 && 0 <= y < 0x6000_0000
    ensures 0 <= x * y <= MaxProduct
  {
    var a, b := 0x1FFF_FFFF, 0x5FFF_FFFF;
    assert x * y <= a * y by { MulMonotone(x, a, y); }
    assert a * y <= a * b by { MulMonotone(y, b, a); }
    assert a * b == MaxProduct;
  }

  /** Every accumulator lies in [0, bound]. */
  predicate Bounded(acc: seq<int>, bound: int)
  {
    |acc| == Limbs && forall k :: 0 <= k < Limbs ==> 0 <= acc[k] <= bound
  }

  /** A full pass raises every slot by at most MaxProduct. */
  lemma RowAddBound(acc: seq<int>, bv: int, aa: seq<int>, i: nat, bound: int)
    requires |aa| == Limbs && i < Limbs && Bounded(acc, bound)
    requires 0 <= bv < 0x2000_0000 && forall k :: 0 <= k < Limbs ==> 0 <= aa[k] < 0x6000_0000
    ensures Bounded(RowAdd(acc, bv, aa, i, Limbs), bound + MaxProduct)
  {
    RowAddAt(acc, bv, aa, i, Limbs);
    forall k | 0 <= k < Limbs
      ensures 0 <= bv * aa[Offset(k, i)] <= MaxProduct
    {
      ProductBound(bv, aa[Offset(k, i)]);
    }
  }

  /** The limb of aa that row i folds, 15 - i, moves to position
      (15 - i) xor 8 == (23 - i) mod 16: its other half. */
  lemma FoldIndex(i: nat)
    requires i < Limbs
    ensures Xor(15 - i, 8) == (23 - i) % 16
  {
    assert Pow2(3) == 8 && Pow2(4) == 16;
    XorTopBit(15 - i, 3);
    Mod16(23 - i);
  }

  /** Bounds on aa before row i: a limb that has not been folded into yet is
      still one of a's (below 2^29); limbs 0..7 receive one of a's limbs
      (rows 0..7), limbs 8..15 one of the already enlarged limbs 0..7
      (rows 8..15). */
  predicate FoldBounds(aa: seq<int>, i: nat)
  {
    |aa| == Limbs &&
    (forall k :: 0 <= k < 8 ==> 0 <= aa[k] < (if k + i <= 7 then 0x2000_0000 else 0x4000_0000)) &&
    (forall k :: 8 <= k < Limbs ==> 0 <= aa[k] < (if k + i <= 23 then 0x2000_0000 else 0x6000_0000))
  }

  /** The fold of row i keeps the bounds, and every limb of aa stays below
      3 * 2^29, so the uint32 additions never wrap. */
  lemma FoldBoundsStep(aa: seq<int>, i: nat)
    requires i < Limbs && FoldBounds(aa, i)
    ensures var k := (23 - i) % 16;
            aa[k] + aa[15 - i] < 0x6000_0000 && FoldBounds(aa[k := aa[k] + aa[15 - i]], i + 1)
  {
    Mod16(23 - i);
  }

  /** Limbs within the fold bounds are below 3 * 2^29. */
  lemma FoldBoundsLimbs(aa: seq<int>, i: nat)
    requires FoldBounds(aa, i)
    ensures forall k :: 0 <= k < Limbs ==> 0 <= aa[k] < 0x6000_0000
  {
  }

  /** Limbs that fit `mul` satisfy the fold bounds before row 0. */
  lemma FoldBoundsInit(a: seq<int>)
    requires FitsMul(a)
    ensures FoldBounds(a, 0)
  {
  }

  /** The slot that step j of row i adds to has not been touched yet in this
      row, and the sum stays within 16 * MaxProduct, below 2^64. */
  lemma RowAddSlot(acc: seq<int>, bv: int, aa: seq<int>, i: nat, j: nat)
    requires |aa| == Limbs && i < Limbs && j < Limbs && Bounded(acc, i * MaxProduct)
    requires 0 <= bv < 0x2000_0000 && forall k :: 0 <= k < Limbs ==> 0 <= aa[k] < 0x6000_0000
    ensures var k := (i + j) % 16;
            k < Limbs && 0 <= RowAdd(acc, bv, aa, i, j)[k] + bv * aa[j] <= Limbs * MaxProduct
  {
    OffsetOfSlot(i, j);
    RowAddAt(acc, bv, aa, i, j);
    ProductBound(bv, aa[j]);
  }

  /** The state of `mul` before row i: aa is a's copy rotated by i limbs and
      folded (worth a * 2^(28i) up to m1 multiples of p), and the accumulators
      hold a times b's first i limbs (up to m2 multiples of p). */
  predicate RowsDone(aa: seq<int>, acc: seq<int>, b: seq<int>, va: int, i: nat, m1: int, m2: int)
  {
    |aa| == Limbs && |b| == Limbs && i <= Limbs && FitsMul(b) &&
    FoldBounds(aa, i) && Bounded(acc, i * MaxProduct) &&
    RotValue(aa, i, Limbs) == va * Pow2(28 * i) - m1 * P &&
    Value(acc) == va * EvalPrefix(b, 28, i) - m2 * P
  }

  /** Before row 0: aa is a, the accumulators are zero. */
  lemma RowsDoneInit(a: seq<int>, b: seq<int>)
    requires FitsMul(a) && FitsMul(b)
    ensures RowsDone(a, ZeroLimbs, b, Value(a), 0, 0, 0)
  {
    FoldBoundsInit(a);
    RotValueUnrotated(a, Limbs);
    assert Pow2(28 * 0) == 1;
    SmallLimbsValue(0);
  }

  /** One row and one fold of `mul` take the state before row i to the state
      before row i + 1; dst is the fold target (15 - i) xor 8. */
  lemma RowsDoneStep(aa: seq<int>, acc: seq<int>, b: seq<int>, va: int, i: nat, m1: int, m2: int, dst: nat,
                      aa': seq<int>, acc': seq<int>, m1': int, m2': int)
    requires i < Limbs && RowsDone(aa, acc, b, va, i, m1, m2) && dst == (23 - i) % 16
    requires aa' == aa[dst := aa[dst] + aa[15 - i]] && acc' == RowAdd(acc, b[i], aa, i, Limbs)
    requires m1' == R * m1 + aa[15 - i] && m2' == m2 + b[i] * m1
    ensures RowsDone(aa', acc', b, va, i + 1, m1', m2')
  {
    FoldBoundsLimbs(aa, i);
    FoldBoundsStep(aa, i);
    RowAddBound(acc, b[i], aa, i, i * MaxProduct);
    assert i * MaxProduct + MaxProduct == (i + 1) * MaxProduct;
    RowValueStep(acc, b, aa, va, i, m1, m2);
    FoldValueStep(aa, va, i, m1);
  }

  /** Row i keeps the accumulators worth a times b's first i + 1 limbs. */
  lemma RowValueStep(acc: seq<int>, b: seq<int>, aa: seq<int>, va: int, i: nat, m1: int, m2: int)
    requires |acc| == Limbs && |aa| == Limbs && |b| == Limbs && i < Limbs
    requires RotValue(aa, i, Limbs) == va * Pow2(28 * i) - m1 * P
    requires Value(acc) == va * EvalPrefix(b, 28, i) - m2 * P
    ensures Value(RowAdd(acc, b[i], aa, i, Limbs)) == va * EvalPrefix(b, 28, i + 1) - (m2 + b[i] * m1) * P
  {
    RowAddValue(acc, b[i], aa, i, Limbs);
    RowStep(Value(RowAdd(acc, b[i], aa, i, Limbs)), Value(acc), RotValue(aa, i, Limbs), va,
            EvalPrefix(b, 28, i), EvalPrefix(b, 28, i + 1), m2, b[i], Pow2(28 * i), m1);
  }

  /** The fold of row i keeps aa worth a * 2^(28(i+1)) up to multiples of p. */
  lemma FoldValueStep(aa: seq<int>, va: int, i: nat, m1: int)
    requires |aa| == Limbs && i < Limbs
    requires RotValue(aa, i, Limbs) == va * Pow2(28 * i) - m1 * P
    ensures var dst := (23 - i) % 16;
            RotValue(aa[dst := aa[dst] + aa[15 - i]], i + 1, Limbs) == va * Pow2(28 * (i + 1)) - (R * m1 + aa[15 - i]) * P
  {
    RotateFold(aa, i);
    FoldStep(va, Pow2(28 * i), m1, aa[15 - i]);
    LimbWeightStep(i);
  }

  /** After row 15 the accumulators hold a * b up to a multiple of p. */
  lemma RowsDoneFinal(aa: seq<int>, acc: seq<int>, b: seq<int>, va: int, m1: int, m2: int)
    requires RowsDone(aa, acc, b, va, Limbs, m1, m2)
    ensures Bounded(acc, Limbs * MaxProduct) && Value(acc) == va * Value(b) - m2 * P
  {
  }
}
