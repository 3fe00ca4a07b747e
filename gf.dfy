/** The field element type `gf` of x448_ref.go and its operations.

    A `gf` is a struct holding an array of 16 uint32 limbs, always handled
    by reference; here it is a class whose `limb` array the methods
    update in place.  Each method copies what it reads from its operands
    before writing (as Go's `range` over an array value does), so every
    method is correct when the receiver and an operand are the same
    element.  The limb types `u32`/`u64` make Dafny check that no uint32
    or uint64 operation wraps around; the preconditions say how large the
    limbs may be for that to hold. */
module X448 {
  import opened Bits
  import opened Radix
  import opened Field
  import opened Product

  class Gf {
    const limb: array<u32>

    predicate Valid()
    {
      limb.Length == Limbs
    }

    /** A new element with the given limbs (`gf{...}`, and `zero`, `one`, `p`
        with ZeroLimbs, OneLimbs, PLimbs). */
    constructor Of(s: seq<u32>)
      requires |s| == Limbs
      ensures Valid() && limb[..] == s && fresh(limb)
    {
      limb := new u32[Limbs](i requires 0 <= i < Limbs => s[i]);
    }

    /** x.cpy(y): x takes y's limbs. */
    method Cpy(y: Gf)
      requires Valid() && y.Valid()
      modifies limb
      ensures limb[..] == old(y.limb[..])
    {
      var ys := y.limb[..];
      var i := 0;
      while i < Limbs
        invariant 0 <= i <= Limbs
        invariant forall k :: 0 <= k < i ==> limb[k] == ys[k]
      {
        limb[i] := ys[i];
        i := i + 1;
      }
    }

    /** Weak reduction: the carry out of limb 15 is folded into limbs 8 and 0
        (2^448 ≡ 2^224 + 1 mod p), then every limb passes its carry to the
        next, limb 15 round to limb 0.  Exactly t * p leaves the value, where
        t is the part of limb 15 above 28 bits. */
    method Reduce()
      requires Valid() && Reducible(limb[..])
      modifies limb
      ensures Weak(limb[..])
      ensures Value(limb[..]) == Value(old(limb[..])) - (old(limb[15]) / R) * P
    {
      ghost var s0: seq<int> := limb[..];
      ghost var t := limb[15] / R;
      limb[8] := limb[8] + limb[15] / R;
      FoldMiddle(s0, t);
      assert limb[..] == s0[8 := s0[8] + t];
      ghost var s1: seq<int> := limb[..];
      var j := 0;
      while j < Limbs
        invariant 0 <= j <= Limbs
        invariant CarryBounds(limb[..], s1, j, 0x1_0000_0000)
        invariant Value(limb[..]) == Value(s0) + (if j == 0 then t * Half else -t * P)
      {
        // (j-1) % 16 on an unsigned j
        var prev := (j + 15) % 16;
        ghost var s: seq<int> := limb[..];
        CarryBoundsStep(s, s1, j, 0x1_0000_0000);
        var c := limb[prev] / R;
        var m := And(limb[prev], R - 1);
        MaskLimb(limb[prev]);
        limb[j] := limb[j] + c;
        limb[prev] := m;
        assert limb[..] == s[j := s[j] + c][prev := s[prev] % R];
        j := j + 1;
      }
    }

    /** x.add(y, z): limb-wise sum, then a weak reduction.  y's limbs are
        copied first and z's limb i is read before limb i is written, so x
        may be y or z. */
    method Add(y: Gf, z: Gf)
      requires Valid() && y.Valid() && z.Valid() && AddFits(y.limb[..], z.limb[..])
      modifies limb
      ensures Weak(limb[..])
      ensures Value(limb[..]) % P == (Value(old(y.limb[..])) + Value(old(z.limb[..]))) % P
    {
      var ys := y.limb[..];
      ghost var zs := z.limb[..];
      var i := 0;
      while i < Limbs
        invariant 0 <= i <= Limbs
        invariant forall k :: 0 <= k < i ==> limb[k] == ys[k] + zs[k]
        invariant forall k :: i <= k < Limbs ==> z.limb[k] == zs[k]
      {
        limb[i] := ys[i] + z.limb[i];
        i := i + 1;
      }
      ghost var s: seq<int> := limb[..];
      assert Value(s) == Value(ys) + Value(zs) by {
        SmallLimbsValue(0);
        EvalAddSub(s, ys, zs, ZeroLimbs, 28);
      }
      Reduce();
      ModAddMultiple(Value(s), -(s[15] / R), P);
    }

    /** x.sub(y, z): limb-wise y - z + 2p, then a weak reduction.  The uint32
        expression may wrap in the middle, but its result is the exact
        difference whenever that lies in [0, 2^32), which SubFits demands. */
    method Sub(y: Gf, z: Gf)
      requires Valid() && y.Valid() && z.Valid() && SubFits(y.limb[..], z.limb[..])
      modifies limb
      ensures Weak(limb[..])
      ensures Value(limb[..]) % P == (Value(old(y.limb[..])) - Value(old(z.limb[..]))) % P
    {
      var ys := y.limb[..];
      ghost var zs := z.limb[..];
      ghost var two: seq<int> := seq(Limbs, i => 2 * PLimb(i));
      var i := 0;
      while i < Limbs
        invariant 0 <= i <= Limbs
        invariant forall k :: 0 <= k < i ==> limb[k] == ys[k] + two[k] - zs[k]
        invariant forall k :: i <= k < Limbs ==> z.limb[k] == zs[k]
      {
        // p.limb[i]
        limb[i] := ys[i] - z.limb[i] + 2 * PLimb(i);
        i := i + 1;
      }
      ghost var s: seq<int> := limb[..];
      assert Value(s) == Value(ys) - Value(zs) + 2 * P by {
        TwoPLimbsValue();
        EvalAddSub(s, ys, two, zs, 28);
      }
      Reduce();
      ModAddMultiple(Value(ys) - Value(zs), 2 - s[15] / R, P);
    }

    /** x.condSwap(y, swap): every limb pair exchanges the bits that swap
        selects, so swap = 0xffffffff exchanges x and y and swap = 0 leaves
        both alone.  When x and y are the same element nothing changes. */
    method CondSwap(y: Gf, swap: u32)
      requires Valid() && y.Valid()
      modifies limb, y.limb
      ensures forall i :: 0 <= i < Limbs ==>
                limb[i] == Select(old(limb[i]), old(y.limb[i]), swap) &&
                y.limb[i] == Select(old(y.limb[i]), old(limb[i]), swap)
      ensures swap == 0xffff_ffff ==> limb[..] == old(y.limb[..]) && y.limb[..] == old(limb[..])
      ensures swap == 0 ==> limb[..] == old(limb[..]) && y.limb[..] == old(y.limb[..])
    {
      var xs := limb[..];
      ghost var ys := y.limb[..];
      var i := 0;
      while i < Limbs
        invariant 0 <= i <= Limbs
        invariant forall k :: 0 <= k < i ==>
                    limb[k] == Select(xs[k], ys[k], swap) && y.limb[k] == Select(ys[k], xs[k], swap)
        invariant forall k :: i <= k < Limbs ==> limb[k] == xs[k] && y.limb[k] == ys[k]
      {
        var xv := xs[i];
        SelectLimb(xv, y.limb[i], swap);
        SelectLimb(y.limb[i], xv, swap);
        XorComm(xv, y.limb[i]);
        var s := And(Xor(xv, y.limb[i]), swap);
        limb[i] := Xor(limb[i], s);
        y.limb[i] := Xor(y.limb[i], s);
        i := i + 1;
      }
      forall k | 0 <= k < Limbs
        ensures swap == 0xffff_ffff ==> limb[k] == ys[k] && y.limb[k] == xs[k]
        ensures swap == 0 ==> limb[k] == xs[k] && y.limb[k] == ys[k]
      {
        SelectLimb(xs[k], ys[k], swap);
        SelectLimb(ys[k], xs[k], swap);
      }
    }

    /** c.mul(a, b): schoolbook multiplication with the rotated, folded copy
        aa of a, then a carry chain on the 64-bit accumulators.  The result
        is congruent to a * b and weakly reduced.  a and b are read before c
        is written, so c may be a or b.  The local arrays `aa` and `accum`
        are Go array values, so they are sequences here. */
    method Mul(a: Gf, b: Gf)
      requires Valid() && a.Valid() && b.Valid()
      requires FitsMul(a.limb[..]) && FitsMul(b.limb[..])
      modifies limb
      ensures Weak(limb[..])
      ensures Value(limb[..]) % P == (Value(old(a.limb[..])) * Value(old(b.limb[..]))) % P
    {
      var accum: seq<u64>;
      ghost var m;
      accum, m := MulRows(a.limb[..], b.limb[..]);
      ghost var va, vb := Value(old(a.limb[..])), Value(old(b.limb[..]));
      ghost var t;
      accum, t := CarryAccumulators(accum);
      // c.limb[j] = uint32(accum[j])
      var j := 0;
      while j < Limbs
        invariant 0 <= j <= Limbs
        invariant forall k :: 0 <= k < j ==> limb[k] == accum[k]
      {
        limb[j] := accum[j] % 0x1_0000_0000;
        j := j + 1;
      }
      assert limb[..] == accum;
      ModAddMultiple(va * vb, -(m + t), P);
    }

    /** c.sqr(x): c = x * x through `mul`. */
    method Sqr(x: Gf)
      requires Valid() && x.Valid() && FitsMul(x.limb[..])
      modifies limb
      ensures Weak(limb[..])
      ensures Value(limb[..]) % P == (Value(old(x.limb[..])) * Value(old(x.limb[..]))) % P
    {
      Mul(x, x);
    }

    /** a.mlw(b, w): multiplication by a small integer through `mul` with
        the element whose limb 0 is uint32(w).  A w that is not positive
        makes the source panic, reported here as `panicked` with nothing
        changed. */
    method Mlw(b: Gf, w: int) returns (panicked: bool)
      requires Valid() && b.Valid() && FitsMul(b.limb[..])
      requires w < 0x2000_0000
      modifies limb
      ensures panicked <==> w <= 0
      ensures !panicked ==> Weak(limb[..]) && Value(limb[..]) % P == (Value(old(b.limb[..])) * w) % P
      ensures panicked ==> limb[..] == old(limb[..])
    {
      if w > 0 {
        var ww := new Gf.Of(ZeroLimbs[0 := w % 0x1_0000_0000]);
        SmallLimbsValue(w);
        Mul(b, ww);
        panicked := false;
      } else {
        panicked := true;
      }
    }

    /** y.isqrt(x): y = x^((p-3)/4) by the addition chain of the source,
        eleven STEP(dst, src, n) blocks and a last product.  For x a
        non-zero square this is 1/sqrt(x) up to sign. */
    method Isqrt(x: Gf)
      requires Valid() && x.Valid() && FitsMul(x.limb[..])
      modifies limb
      ensures Weak(limb[..])
      ensures Value(limb[..]) % P == Pow(Value(old(x.limb[..])), (P - 3) / 4) % P
    {
      ghost var v := Value(x.limb[..]);
      var a := new Gf.Of(ZeroLimbs);
      var b := new Gf.Of(ZeroLimbs);
      var c := new Gf.Of(ZeroLimbs);
      assert Worth(x, v, Ones(1));
      c.Sqr(x);
      assert Worth(c, v, Shl(Ones(1), 1)) by {
        MulPow(v, v, v, 1, 1);
      }
      IsqrtTo2(x, a, b, c, v);
      IsqrtTo3(x, a, b, c, v);
      IsqrtTo6(x, a, b, c, v);
      IsqrtTo9(x, a, b, c, v);
      IsqrtTo18(x, a, b, c, v);
      IsqrtTo19(x, a, b, c, v);
      IsqrtTo37(x, a, b, c, v);
      IsqrtTo74(x, a, b, c, v);
      IsqrtTo111(x, a, b, c, v);
      IsqrtTo222(x, a, b, c, v);
      IsqrtTo223(x, a, b, c, v);
      ghost var va, vc := Value(a.limb[..]), Value(c.limb[..]);
      Mul(a, c);
      IsqrtExp();
      IsqrtLast(Value(limb[..]), va, vc, v, Ones(222), Shl(Ones(223), 223));
    }

    /** y.inv(x): y = x^(p-2), the inverse of x for x not a multiple of p
        (Fermat's little theorem), and 0 for x = 0: x^2 is raised to
        (p - 3) / 4, squared, and multiplied by x. */
    method Inv(x: Gf)
      requires Valid() && x.Valid() && FitsMul(x.limb[..])
      modifies limb
      ensures Weak(limb[..])
      ensures Value(limb[..]) % P == Pow(Value(old(x.limb[..])), P - 2) % P
      ensures Value(old(x.limb[..])) % P == 0 ==> Value(limb[..]) % P == 0
    {
      ghost var v := Value(x.limb[..]);
      var z := new Gf.Of(ZeroLimbs);
      var w := new Gf.Of(ZeroLimbs);
      z.Sqr(x);
      ghost var e := (P - 3) / 4;
      assert Value(z.limb[..]) % P == Pow(v, 2 * Pow2(0)) % P by { MulPow(v, v, v, 1, 1); }
      w.Isqrt(z);
      assert Value(w.limb[..]) % P == Pow(v, 2 * e) % P by {
        PowCongruent(Value(z.limb[..]), Pow(v, 2), e);
        PowMul(v, 2, e);
      }
      z.Sqr(w);
      assert Value(z.limb[..]) % P == Pow(v, 2 * e * 2) % P by {
        MulPow(Value(w.limb[..]), Value(w.limb[..]), v, 2 * e, 2 * e);
      }
      ghost var vz := Value(z.limb[..]);
      w.Mul(x, z);
      assert Value(w.limb[..]) % P == Pow(v, P - 2) % P by {
        MulPow(v, vz, v, 1, 2 * e * 2);
      }
      Cpy(w);
      if v % P == 0 {
        PowOfZero(v, P - 2);
      }
    }

    /** a.canon(): a weak reduction, then p is subtracted with a borrow chain
        and added back under the mask the final borrow makes.  The limbs end
        as the canonical digits of the value mod p. */
    method Canon()
      requires Valid() && Reducible(limb[..])
      modifies limb
      ensures limb[..] == Canonical(old(limb[..]))
    {
      ghost var s0: seq<int> := limb[..];
      Reduce();
      ghost var s: seq<int> := limb[..];
      ModAddMultiple(Value(s), s0[15] / R, P);
      var addback := SubtractP();
      ghost var r1: seq<int> := limb[..];
      var carry := AddBack(addback);
      CanonChains(s, r1, addback, limb[..], carry);
    }

    /** s.deser(ser): the 56 bytes are read little-endian into 28-bit
        limbs.  The limbs end as the digits of the bytes' value, which is
        not reduced: the result is -1 when that value is below p and 0
        otherwise. */
    method Deser(ser: array<u8>) returns (accum: i64)
      requires Valid() && ser.Length == Bytes
      modifies limb
      ensures DigitsBelow(ser[..], 8) && limb[..] == LimbsOfBytes(ser[..])
      ensures accum == if Eval(ser[..], 8) < P then -1 else 0
    {
      Unpack(ser);
      assert DigitsBelow(ser[..], 8) by { ByteIsPow2(); }
      DigitsOfEval(limb[..], 28, Eval(ser[..], 8));
      accum := BelowP();
    }

    /** The byte loop of `deser`, one byte per call of UnpackByte. */
    method Unpack(ser: array<u8>)
      requires Valid() && ser.Length == Bytes
      modifies limb
      ensures DigitsBelow(limb[..], 28) && 0 <= Value(limb[..]) == Eval(ser[..], 8)
    {
      ghost var b: seq<int> := ser[..];
      var buf: u64 := 0;
      var bits: nat := 0;
      var k: nat := 0;
      StreamStart(limb[..], 28, b, 8);
      var i: nat := 0;
      while i < Bytes
        invariant i <= Bytes && bits < 28
        invariant Streaming(limb[..], 28, k, buf, bits, b, 8, i)
      {
        buf, bits, k := UnpackByte(buf, bits, k, ser[i], i == Bytes - 1, b, i);
        i := i + 1;
      }
      assert k == Limbs && bits == 0;
      StreamDone(limb[..], 28, buf, b, 8);
    }

    /** The body of the byte loop of `deser`: byte v is ORed into the 64-bit
        buffer above the pending bits; then, while at least 28 bits are
        pending (or v was the last byte) and limbs remain, the low 28 bits
        of the buffer become the next limb and are shifted out. */
    method UnpackByte(buf0: u64, bits0: nat, k0: nat, v: u8, last: bool, ghost b: seq<int>, ghost i: nat)
      returns (buf: u64, bits: nat, k: nat)
      requires Valid() && |b| == Bytes && i < Bytes && v == b[i] && (last <==> i == Bytes - 1) && bits0 < 28
      requires Streaming(limb[..], 28, k0, buf0, bits0, b, 8, i)
      modifies limb
      ensures bits < 28 && Streaming(limb[..], 28, k, buf, bits, b, 8, i + 1)
    {
      assert v < Pow2(8) by { ByteIsPow2(); }
      buf := ShiftIn(buf0, v, 8, bits0);
      StreamIn(limb[..], 28, k0, buf0, bits0, b, 8, i, v, buf);
      buf, bits, k := TakeLimbs(buf, bits0 + 8, k0, last, b, i + 1);
    }

    /** The inner loop of `deser`: limbs are taken off the buffer while at
        least 28 bits are pending, or all remaining ones after the last
        byte. */
    method TakeLimbs(buf0: u64, bits0: nat, k0: nat, last: bool, ghost b: seq<int>, ghost i: nat)
      returns (buf: u64, bits: nat, k: nat)
      requires Valid() && |b| == Bytes && 0 < i <= Bytes && (last <==> i == Bytes) && bits0 < 36
      requires Streaming(limb[..], 28, k0, buf0, bits0, b, 8, i)
      modifies limb
      ensures bits < 28 && Streaming(limb[..], 28, k, buf, bits, b, 8, i)
    {
      buf, bits, k := buf0, bits0, k0;
      while (bits >= 28 || last) && k < Limbs
        invariant bits < 36 && Streaming(limb[..], 28, k, buf, bits, b, 8, i)
        decreases Limbs - k
      {
        buf, bits, k := TakeLimb(buf, bits, k, b, i);
      }
    }

    /** `s.limb[k] = uint32(buf & lMask)`, then the buffer is shifted right
        by 28 bits: the low 28 pending bits become the next limb. */
    method TakeLimb(buf0: u64, bits0: nat, k0: nat, ghost b: seq<int>, ghost i: nat)
      returns (buf: u64, bits: nat, k: nat)
      requires Valid() && k0 < Limbs && 28 <= bits0
      requires Streaming(limb[..], 28, k0, buf0, bits0, b, 8, i)
      modifies limb
      ensures bits == bits0 - 28 && k == k0 + 1 && Streaming(limb[..], 28, k, buf, bits, b, 8, i)
    {
      ghost var t: seq<int> := limb[..];
      RadixIsPow2();
      MaskLimb(buf0);
      limb[k0] := And(buf0, R - 1);
      buf := buf0 / R;
      StreamOut(t, 28, k0, buf0, bits0, b, 8, i, limb[..], buf);
      bits := bits0 - 28;
      k := k0 + 1;
    }

    /** buf | uint64(v) << bits for a w-bit word v above a buffer of `bits`
        bits: the two have no bit in common, so the OR is their sum, and it
        fits the 64-bit buffer. */
    static function ShiftIn(buf: u64, v: nat, w: nat, bits: nat): (r: u64)
      requires bits + w <= 56 && buf < Pow2(bits) && v < Pow2(w)
      ensures r == buf + Shl(v, bits)
    {
      OrShifted(buf, v, bits);
      Pow2Add(bits, w);
      TopDigitBound(buf, v, Pow2(bits), Pow2(w));
      BufferBound(bits + w);
      Or(buf, Shl(v, bits))
    }

    /** ser: the limbs are made canonical, then written out as 56 bytes,
        least significant first.  The bytes are the little-endian encoding of
        the value mod p. */
    method Ser(ser: array<u8>)
      requires Valid() && Reducible(limb[..]) && ser.Length == Bytes
      modifies limb, ser
      ensures limb[..] == Canonical(old(limb[..]))
      ensures ser[..] == BytesOfLimbs(old(limb[..]))
    {
      ghost var s0: seq<int> := limb[..];
      Canon();
      Pack(ser);
      CanonicalValue(s0);
      DigitsOfEval(ser[..], 8, Value(s0) % P);
    }

    /** The limb loop of `ser`, one limb per call of PackLimb. */
    method Pack(ser: array<u8>)
      requires Valid() && DigitsBelow(limb[..], 28) && ser.Length == Bytes
      modifies ser
      ensures DigitsBelow(ser[..], 8) && 0 <= Eval(ser[..], 8) == Value(limb[..])
    {
      ghost var c: seq<int> := limb[..];
      var buf: u64 := 0;
      var bits: nat := 0;
      var k: nat := 0;
      StreamStart(ser[..], 8, c, 28);
      var i: nat := 0;
      while i < Limbs
        invariant i <= Limbs && bits < 8
        invariant Streaming(ser[..], 8, k, buf, bits, c, 28, i)
      {
        assert limb[i] < R by { RadixIsPow2(); }
        buf, bits, k := PackLimb(ser, buf, bits, k, limb[i], i == Limbs - 1, c, i);
        i := i + 1;
      }
      assert k == Bytes && bits == 0;
      StreamDone(ser[..], 8, buf, c, 28);
    }

    /** The body of the limb loop of `ser`: limb v is ORed into the 64-bit
        buffer above the pending bits; then, while at least 8 bits are
        pending (or v was the last limb) and bytes remain, the low byte of
        the buffer is written out and shifted off. */
    method PackLimb(ser: array<u8>, buf0: u64, bits0: nat, k0: nat, v: u32, last: bool, ghost c: seq<int>, ghost i: nat)
      returns (buf: u64, bits: nat, k: nat)
      requires ser.Length == Bytes && |c| == Limbs && i < Limbs && v == c[i] && v < R
      requires (last <==> i == Limbs - 1) && bits0 < 8
      requires Streaming(ser[..], 8, k0, buf0, bits0, c, 28, i)
      modifies ser
      ensures bits < 8 && Streaming(ser[..], 8, k, buf, bits, c, 28, i + 1)
    {
      assert v < Pow2(28) by { RadixIsPow2(); }
      buf := ShiftIn(buf0, v, 28, bits0);
      StreamIn(ser[..], 8, k0, buf0, bits0, c, 28, i, v, buf);
      buf, bits, k := PutBytes(ser, buf, bits0 + 28, k0, last, c, i + 1);
    }

    /** The inner loop of `ser`: bytes are written off the buffer while at
        least 8 bits are pending, or all remaining ones after the last
        limb. */
    static method PutBytes(ser: array<u8>, buf0: u64, bits0: nat, k0: nat, last: bool, ghost c: seq<int>, ghost i: nat)
      returns (buf: u64, bits: nat, k: nat)
      requires ser.Length == Bytes && |c| == Limbs && 0 < i <= Limbs && (last <==> i == Limbs) && bits0 < 36
      requires Streaming(ser[..], 8, k0, buf0, bits0, c, 28, i)
      modifies ser
      ensures bits < 8 && Streaming(ser[..], 8, k, buf, bits, c, 28, i)
    {
      buf, bits, k := buf0, bits0, k0;
      while (bits >= 8 || last) && k < Bytes
        invariant bits < 36 && Streaming(ser[..], 8, k, buf, bits, c, 28, i)
        decreases Bytes - k
      {
        buf, bits, k := PutByte(ser, buf, bits, k, c, i);
      }
    }

    /** `ser[k] = byte(buf)`, then the buffer is shifted right by 8 bits:
        the low 8 pending bits become the next byte. */
    static method PutByte(ser: array<u8>, buf0: u64, bits0: nat, k0: nat, ghost c: seq<int>, ghost i: nat)
      returns (buf: u64, bits: nat, k: nat)
      requires k0 < ser.Length && 8 <= bits0
      requires Streaming(ser[..], 8, k0, buf0, bits0, c, 28, i)
      modifies ser
      ensures bits == bits0 - 8 && k == k0 + 1 && Streaming(ser[..], 8, k, buf, bits, c, 28, i)
    {
      ghost var t: seq<int> := ser[..];
      ByteIsPow2();
      ser[k0] := buf0 % 0x100;
      buf := buf0 / 0x100;
      StreamOut(t, 8, k0, buf0, bits0, c, 28, i, ser[..], buf);
      bits := bits0 - 8;
      k := k0 + 1;
    }

    /** The closing loop of `deser`: a borrow chain subtracting p whose
        outcome is kept and the differences dropped.  The arithmetic shift by
        32 leaves -1 exactly when the limbs are worth less than p. */
    method BelowP() returns (accum: i64)
      requires Valid() && DigitsBelow(limb[..], 28)
      ensures accum == if Value(limb[..]) < P then -1 else 0
    {
      accum := 0;
      var j := 0;
      while j < Limbs
        invariant 0 <= j <= Limbs && (accum == -1 || accum == 0)
        invariant accum == -1 <==> EvalPrefix(limb[..], 28, j) < EvalPrefix(PLimbs, 28, j)
      {
        BorrowStep(limb[..], j, accum);
        accum := (accum + limb[j] - PLimb(j)) / 0x1_0000_0000;
        j := j + 1;
      }
      PLimbsValue();
    }

    /** The first loop of `canon`: limb by limb, p is subtracted in int64
        arithmetic, the low 28 bits stay and the rest (0 or -1, an arithmetic
        shift) is borrowed from the next limb.  The final borrow is -1 exactly
        when the value was below p. */
    method SubtractP() returns (carry: i64)
      requires Valid() && Weak(limb[..])
      modifies limb
      ensures carry == -1 || carry == 0
      ensures DigitsBelow(limb[..], 28)
      ensures Value(limb[..]) + carry * Pow2(28 * Limbs) == Value(old(limb[..])) - P
    {
      ghost var s: seq<int> := limb[..];
      ghost var negp: seq<int> := seq(Limbs, i => -(PLimb(i) as int));
      ChainStart(s, negp);
      carry := 0;
      var i: nat := 0;
      while i < Limbs
        invariant (carry == -1 || carry == 0) && Chained(limb[..], s, negp, i, carry)
      {
        carry := ChainLimb(i, carry, -(PLimb(i) as int), s, negp);
        i := i + 1;
      }
      ChainDone(limb[..], s, negp, carry);
      NegPLimbsValue();
    }

    /** The second loop of `canon`: p masked by the borrow (all of p when it
        is -1, nothing when it is 0) is added back with a carry chain. */
    method AddBack(addback: i64) returns (carry: i64)
      requires Valid() && DigitsBelow(limb[..], 28) && (addback == -1 || addback == 0)
      modifies limb
      ensures carry == 0 || carry == 1
      ensures DigitsBelow(limb[..], 28)
      ensures Value(limb[..]) + carry * Pow2(28 * Limbs) == Value(old(limb[..])) + (if addback == -1 then P else 0)
    {
      ghost var r1: seq<int> := limb[..];
      ghost var back: seq<int> := seq(Limbs, i => And(PLimb(i), addback % 0x1_0000_0000));
      assert forall k :: 0 <= k < Limbs ==> r1[k] < R by { RadixIsPow2(); }
      ChainStart(r1, back);
      carry := 0;
      var i: nat := 0;
      while i < Limbs
        invariant (carry == 0 || carry == 1) && Chained(limb[..], r1, back, i, carry)
      {
        AndBound(PLimb(i), addback % 0x1_0000_0000);
        carry := ChainLimb(i, carry, And(PLimb(i), addback % 0x1_0000_0000), r1, back);
        i := i + 1;
      }
      ChainDone(limb[..], r1, back, carry);
      MaskedPValue(addback);
    }

    /** One step of the carry chains of `canon`: carry + limb[i] + d is
        formed in a signed 64-bit word, its low 28 bits (masked off the
        two's-complement word) become limb i, and the arithmetic shift by 28
        is the carry into the next limb. */
    method ChainLimb(i: nat, c0: i64, d: int, ghost s: seq<int>, ghost q: seq<int>) returns (carry: i64)
      requires Valid() && i < Limbs && Chained(limb[..], s, q, i, c0) && d == q[i]
      requires -0x1_0000_0000 <= c0 < 0x1_0000_0000 && -0x1_0000_0000 <= d < 0x1_0000_0000
      modifies limb
      ensures carry == (c0 + s[i] + d) / R && Chained(limb[..], s, q, i + 1, carry)
    {
      ghost var r: seq<int> := limb[..];
      assert limb[i] == s[i];
      var c: i64 := c0 + limb[i] + d;
      MaskSigned(c);
      limb[i] := And(c % 0x1_0000_0000_0000_0000, R - 1);
      ChainStep(r, s, q, i, c0, c, limb[..]);
      carry := c / R;
    }
  }

  /** g holds limbs that `mul` accepts, worth x^e modulo p. */
  ghost predicate Worth(g: Gf, x: int, e: nat)
    reads g.limb
  {
    g.limb.Length == Limbs && FitsMul(g.limb[..]) && Value(g.limb[..]) % P == Pow(x, e) % P
  }

  /** x and the three temporaries of `isqrt` are four different arrays. */
  predicate Apart(x: Gf, a: Gf, b: Gf, c: Gf)
  {
    x.Valid() && a.Valid() && b.Valid() && c.Valid() &&
    x.limb != a.limb && x.limb != b.limb && x.limb != c.limb &&
    a.limb != b.limb && a.limb != c.limb && b.limb != c.limb
  }

  // The eleven steps of the addition chain in `isqrt`, one method each so
  // that every proof sees only the exponents of its own step.  Each keeps x
  // and the temporary it does not write.

  /** `isqrt`'s STEP(b,x,1) (x448_ref.go:101-106): the temporary it writes
      ends worth x^(2^2 - 1). */
  method IsqrtTo2(x: Gf, a: Gf, b: Gf, c: Gf, ghost v: int)
    requires Apart(x, a, b, c) && Worth(x, v, Ones(1))
    requires Worth(c, v, Shl(Ones(1), 1))
    modifies b.limb, c.limb
    ensures Worth(x, v, Ones(1)) && Worth(b, v, Ones(2)) && Worth(c, v, Shl(Ones(2), 1))
  {
    Step(b, x, c, 1, v, 1, 1);
  }

  /** `isqrt`'s STEP(b,x,3) (x448_ref.go:108-113): the temporary it writes
      ends worth x^(2^3 - 1). */
  method IsqrtTo3(x: Gf, a: Gf, b: Gf, c: Gf, ghost v: int)
    requires Apart(x, a, b, c) && Worth(x, v, Ones(1))
    requires Worth(c, v, Shl(Ones(2), 1))
    modifies b.limb, c.limb
    ensures Worth(x, v, Ones(1)) && Worth(b, v, Ones(3)) && Worth(c, v, Shl(Ones(3), 3))
  {
    Step(b, x, c, 3, v, 1, 2);
  }

  /** `isqrt`'s STEP(a,b,3) (x448_ref.go:115-120): the temporary it writes
      ends worth x^(2^6 - 1). */
  method IsqrtTo6(x: Gf, a: Gf, b: Gf, c: Gf, ghost v: int)
    requires Apart(x, a, b, c) && Worth(x, v, Ones(1))
    requires Worth(b, v, Ones(3)) && Worth(c, v, Shl(Ones(3), 3))
    modifies a.limb, c.limb
    ensures Worth(x, v, Ones(1)) && Worth(a, v, Ones(6)) && Worth(c, v, Shl(Ones(6), 3))
  {
    Step(a, b, c, 3, v, 3, 3);
  }

  /** `isqrt`'s STEP(a,b,9) (x448_ref.go:122-127): the temporary it writes
      ends worth x^(2^9 - 1). */
  method IsqrtTo9(x: Gf, a: Gf, b: Gf, c: Gf, ghost v: int)
    requires Apart(x, a, b, c) && Worth(x, v, Ones(1))
    requires Worth(b, v, Ones(3)) && Worth(c, v, Shl(Ones(6), 3))
    modifies a.limb, c.limb
    ensures Worth(x, v, Ones(1)) && Worth(a, v, Ones(9)) && Worth(c, v, Shl(Ones(9), 9))
  {
    Step(a, b, c, 9, v, 3, 6);
  }

  /** `isqrt`'s STEP(b,a,1) (x448_ref.go:129-134): the temporary it writes
      ends worth x^(2^18 - 1). */
  method IsqrtTo18(x: Gf, a: Gf, b: Gf, c: Gf, ghost v: int)
    requires Apart(x, a, b, c) && Worth(x, v, Ones(1))
    requires Worth(a, v, Ones(9)) && Worth(c, v, Shl(Ones(9), 9))
    modifies b.limb, c.limb
    ensures Worth(x, v, Ones(1)) && Worth(b, v, Ones(18)) && Worth(c, v, Shl(Ones(18), 1))
  {
    Step(b, a, c, 1, v, 9, 9);
  }

  /** `isqrt`'s STEP(a,x,18) (x448_ref.go:136-141): the temporary it writes
      ends worth x^(2^19 - 1). */
  method IsqrtTo19(x: Gf, a: Gf, b: Gf, c: Gf, ghost v: int)
    requires Apart(x, a, b, c) && Worth(x, v, Ones(1))
    requires Worth(c, v, Shl(Ones(18), 1))
    modifies a.limb, c.limb
    ensures Worth(x, v, Ones(1)) && Worth(a, v, Ones(19)) && Worth(c, v, Shl(Ones(19), 18))
  {
    Step(a, x, c, 18, v, 1, 18);
  }

  /** `isqrt`'s STEP(a,b,37) (x448_ref.go:143-148): the temporary it writes
      ends worth x^(2^37 - 1). */
  method IsqrtTo37(x: Gf, a: Gf, b: Gf, c: Gf, ghost v: int)
    requires Apart(x, a, b, c) && Worth(x, v, Ones(1))
    requires Worth(b, v, Ones(18)) && Worth(c, v, Shl(Ones(19), 18))
    modifies a.limb, c.limb
    ensures Worth(x, v, Ones(1)) && Worth(a, v, Ones(37)) && Worth(c, v, Shl(Ones(37), 37))
  {
    Step(a, b, c, 37, v, 18, 19);
  }

  /** `isqrt`'s STEP(b,a,37) (x448_ref.go:150-155): the temporary it writes
      ends worth x^(2^74 - 1). */
  method IsqrtTo74(x: Gf, a: Gf, b: Gf, c: Gf, ghost v: int)
    requires Apart(x, a, b, c) && Worth(x, v, Ones(1))
    requires Worth(a, v, Ones(37)) && Worth(c, v, Shl(Ones(37), 37))
    modifies b.limb, c.limb
    ensures Worth(x, v, Ones(1)) && Worth(b, v, Ones(74)) && Worth(c, v, Shl(Ones(74), 37))
  {
    Step(b, a, c, 37, v, 37, 37);
  }

  /** `isqrt`'s STEP(b,a,111) (x448_ref.go:157-162): the temporary it writes
      ends worth x^(2^111 - 1). */
  method IsqrtTo111(x: Gf, a: Gf, b: Gf, c: Gf, ghost v: int)
    requires Apart(x, a, b, c) && Worth(x, v, Ones(1))
    requires Worth(a, v, Ones(37)) && Worth(c, v, Shl(Ones(74), 37))
    modifies b.limb, c.limb
    ensures Worth(x, v, Ones(1)) && Worth(b, v, Ones(111)) && Worth(c, v, Shl(Ones(111), 111))
  {
    Step(b, a, c, 111, v, 37, 74);
  }

  /** `isqrt`'s STEP(a,b,1) (x448_ref.go:164-169): the temporary it writes
      ends worth x^(2^222 - 1). */
  method IsqrtTo222(x: Gf, a: Gf, b: Gf, c: Gf, ghost v: int)
    requires Apart(x, a, b, c) && Worth(x, v, Ones(1))
    requires Worth(b, v, Ones(111)) && Worth(c, v, Shl(Ones(111), 111))
    modifies a.limb, c.limb
    ensures Worth(x, v, Ones(1)) && Worth(a, v, Ones(222)) && Worth(c, v, Shl(Ones(222), 1))
  {
    Step(a, b, c, 1, v, 111, 111);
  }

  /** `isqrt`'s STEP(b,x,223) (x448_ref.go:171-176): the temporary it writes
      ends worth x^(2^223 - 1). */
  method IsqrtTo223(x: Gf, a: Gf, b: Gf, c: Gf, ghost v: int)
    requires Apart(x, a, b, c) && Worth(x, v, Ones(1))
    requires Worth(c, v, Shl(Ones(222), 1))
    modifies b.limb, c.limb
    ensures Worth(x, v, Ones(1)) && Worth(b, v, Ones(223)) && Worth(c, v, Shl(Ones(223), 223))
  {
    Step(b, x, c, 223, v, 1, 222);
  }

  /** The last product of `isqrt`: with exponents adding up to (p - 3) / 4,
      a * c is worth x^((p - 3) / 4). */
  lemma IsqrtLast(y: int, va: int, vc: int, x: int, ea: nat, ec: nat)
    requires va % P == Pow(x, ea) % P && vc % P == Pow(x, ec) % P
    requires y % P == (va * vc) % P && ea + ec == (P - 3) / 4
    ensures y % P == Pow(x, (P - 3) / 4) % P
  {
    MulPow(va, vc, x, ea, ec);
  }

  /** STEP(dst, src, n) of the addition chain in `isqrt` (x448_ref.go:100-176):
      dst = src * c, c = dst, then c is squared n times.  With src worth
      x^(2^k - 1) and c worth x^((2^m - 1) * 2^k), dst ends worth
      x^(2^(k+m) - 1) and c worth x^((2^(k+m) - 1) * 2^n) (Ones and Shl
      spell these exponents out). */
  method Step(dst: Gf, src: Gf, c: Gf, n: nat, ghost x: int, ghost k: nat, ghost m: nat)
    requires dst.Valid() && src.Valid() && c.Valid() && dst.limb != c.limb
    requires Worth(src, x, Ones(k)) && Worth(c, x, Shl(Ones(m), k))
    modifies dst.limb, c.limb
    ensures Worth(dst, x, Ones(k + m)) && Worth(c, x, Shl(Ones(k + m), n))
  {
    ghost var e := Ones(k + m);
    dst.Mul(src, c);
    assert Value(dst.limb[..]) % P == Pow(x, e) % P by {
      MulPow(Value(old(src.limb[..])), Value(old(c.limb[..])), x, Ones(k), Shl(Ones(m), k));
      ChainExp(k, m);
    }
    c.Cpy(dst);

    var i := 0;
    while i < n
      invariant 0 <= i <= n && FitsMul(c.limb[..]) && FitsMul(dst.limb[..])
      invariant Value(dst.limb[..]) % P == Pow(x, e) % P
      invariant Value(c.limb[..]) % P == Pow(x, Shl(e, i)) % P
    {
      ghost var vc := Value(c.limb[..]);
      c.Sqr(c);
      SqrPow(vc, x, e, i);
      i := i + 1;
    }
  }

  /** The rows of `mul` (x448_ref.go:66-76): aa is a copy of a; for each limb
      b[i], every product b[i] * aa[j] is added into accumulator (i + j) mod
      16, then aa is folded.  The accumulators end up worth a * b, up to a
      multiple of p, and each is at most 16 * MaxProduct, below 2^64. */
  method MulRows(a: seq<u32>, b: seq<u32>) returns (accum: seq<u64>, ghost m: int)
    requires FitsMul(a) && FitsMul(b)
    ensures Bounded(accum, Limbs * MaxProduct) && Value(accum) == Value(a) * Value(b) - m * P
  {
    var aa: seq<u32> := a;
    accum := seq(Limbs, _ => 0);
    ghost var va := Value(a);
    ghost var m1 := 0;
    m := 0;
    assert accum == ZeroLimbs;
    RowsDoneInit(aa, b);
    // for i, bv := range b.limb
    var i := 0;
    while i < Limbs
      invariant 0 <= i <= Limbs && |aa| == |accum| == Limbs
      invariant RowsDone(aa, accum, b, va, i, m1, m)
    {
      var bv := b[i];
      ghost var aa0, acc0, m10, m0 := aa, accum, m1, m;
      FoldBoundsLimbs(aa, i);
      accum := AddRow(accum, bv, aa, i);
      // aa.limb[(x448Limbs-1-i) ^ (x448Limbs/2)] += aa.limb[x448Limbs-1-i]
      var src := 15 - i;
      var dst := Xor(src, 8);
      FoldIndex(i);
      FoldBoundsStep(aa, i);
      m1, m := R * m1 + aa[src], m + bv * m1;
      aa := aa[dst := aa[dst] + aa[src]];
      RowsDoneStep(aa0, acc0, b, va, i, m10, m0, dst, aa, accum, m1, m);
      i := i + 1;
    }
    RowsDoneFinal(aa, accum, b, va, m1, m);
  }

  /** Row i of the schoolbook product (x448_ref.go:69-71): b's limb bv times
      every limb j of aa lands in accumulator (i + j) mod 16. */
  method AddRow(accum: seq<u64>, bv: u32, aa: seq<u32>, i: nat) returns (r: seq<u64>)
    requires |accum| == Limbs && |aa| == Limbs && i < Limbs && Bounded(accum, i * MaxProduct)
    requires bv < 0x2000_0000 && forall k :: 0 <= k < Limbs ==> aa[k] < 0x6000_0000
    ensures r == RowAdd(accum, bv, aa, i, Limbs)
  {
    r := accum;
    // for j, aav := range aa.limb
    var j := 0;
    while j < Limbs
      invariant 0 <= j <= Limbs && |r| == Limbs
      invariant r == RowAdd(accum, bv, aa, i, j)
    {
      var k := (i + j) % 16;
      RowAddSlot(accum, bv, aa, i, j);
      r := r[k := r[k] + bv * aa[j]];
      j := j + 1;
    }
  }

  /** The carry chain at the end of `mul` (x448_ref.go:77-83): accumulator
      14 carries into 15, the carry out of 15 is folded into 8, then every
      accumulator passes its carry to the next, 15 round to 0.  The result
      is weakly reduced and differs from the input by exactly t * p, t being
      the carry out of accumulator 15. */
  method CarryAccumulators(acc: seq<u64>) returns (r: seq<u64>, ghost t: int)
    requires Bounded(acc, Limbs * MaxProduct)
    ensures Weak(r) && Value(r) == Value(acc) - t * P
  {
    r := acc;
    ghost var s0: seq<int> := r;
    // accum[14] carries into accum[15]
    var c := r[14] / R;
    MaskLimb(r[14]);
    r := r[15 := r[15] + c][14 := And(r[14], R - 1)];
    assert Value(r) == Value(s0) by { CarryStep(s0, 15, 14); }
    // the carry out of accum[15] is folded into accum[8]; the loop adds it to accum[0]
    ghost var s1: seq<int> := r;
    t := r[15] / R;
    r := r[8 := r[8] + r[15] / R];
    FoldMiddle(s1, t);
    ghost var s2: seq<int> := r;
    var j := 0;
    while j < Limbs
      invariant 0 <= j <= Limbs && |r| == Limbs
      invariant CarryBounds(r, s2, j, 0x1_0000_0000_0000_0000) && t == s2[15] / R
      invariant Value(r) == Value(s1) + (if j == 0 then t * Half else -t * P)
    {
      // (j-1) % 16 on an unsigned j
      var prev := (j + 15) % 16;
      ghost var s: seq<int> := r;
      CarryBoundsStep(s, s2, j, 0x1_0000_0000_0000_0000);
      var c := r[prev] / R;
      var m := And(r[prev], R - 1);
      MaskLimb(r[prev]);
      r := r[j := r[j] + c];
      r := r[prev := m];
      CarryNext(s, s2, j, 0x1_0000_0000_0000_0000, Value(s1), t, r);
      j := j + 1;
    }
  }
}
