# GF(2^448 - 2^224 - 1) field arithmetic of the X448 reference code

This project models, in Dafny, the prime-field arithmetic of `x448_ref.go`:
the field of X448 (RFC 7748, section 5), with p = 2^448 - 2^224 - 1.

A field element `gf` is an array of 16 `uint32` limbs. Each limb nominally
holds 28 bits, and the element is worth Σ limb[i]·2^(28·i). Limbs may carry a
few extra high bits between reductions.

- `reduce` folds the overflow of the top limb back into limbs 0 and 8.
  This works because 2^448 ≡ 2^224 + 1 (mod p).
- `canon` produces the unique representative in [0, p).
- `add`, `sub`, `mul`, `sqr` and `mlw` are the ring operations.
- `condSwap` is the masked swap of the Montgomery ladder.
- `isqrt` and `inv` are fixed addition chains of squarings and products.
- `deser` and `ser` convert between 56 little-endian bytes and the 16 limbs, through a 64-bit bit buffer.

The model is split into five modules:

- `Bits` (bits.dfy): shifts, AND, OR and XOR on naturals. It proves the facts the code relies on: a mask keeps the low bits, an OR of disjoint bit ranges is a sum, and XOR cancels.
- `Radix` (radix.dfy): little-endian digit strings of any width. It covers their value `Eval`, their digits `Digits`, and the state `Streaming` of a conversion between two digit widths through a bit buffer. `deser` and `ser` are both such conversions.
- `Field` (field.dfy): the limb representation. It holds the value `Value`, the bounds on limbs (`Weak`, `Reducible`, `FitsMul`, …) and arithmetic mod p. It also holds the canonical form `Canonical`, the byte encodings `LimbsOfBytes`/`BytesOfLimbs`, and their round trips.
- `Product` (product.dfy): the schoolbook product of `mul` as specification functions. These are the rows, the rotation and fold of the copy of `a`, and the invariant between rows.
- `X448` (gf.dfy): the class `Gf`, whose `limb` array the methods update in place with the loops of the source. It also holds the steps of the `isqrt` chain and the loops of `mul`.

Machine integers are subset types of `int` (`u8`, `u32`, `u64`, `i64`). Every store into a limb, accumulator or buffer is thereby checked not to wrap. The bounds under which this holds are the methods' preconditions.

Each operation copies its first operand before writing its receiver, and reads each limb of the other operand before it writes that limb. So the contracts speak of `old(...)` operand values and hold when the receiver is one of the operands, as in `c.sqr(&c)`.

`x448Bytes` is not defined in `x448_ref.go`, and its definition is not part of this model. It is fixed to 56, the only value for which the packing loops are exact (56·8 = 16·28 = 448).

## Model

| member | source | states |
|---|---|---|
| Field.PLimbsValue | x448_ref.go:52-55 | the limbs of the constant `p` are worth 2^448 - 2^224 - 1 |
| Field.SmallLimbsValue | x448_ref.go:50-51 | a single low limb v (as in `zero`, `one` and the multiplier of `mlw`) is worth v |
| Field.PLimbsDigits | x448_ref.go:52-55 | the 28-bit digits of p are exactly the limbs of `p` |
| Field.ZeroLimbsDigits | x448_ref.go:50 | the 28-bit digits of 0 are exactly the limbs of `zero` |
| Field.Weights | x448_ref.go:36-41 | 2^28 is the limb radix, 2^448 = (2^224)^2 and p = 2^448 - 2^224 - 1 |
| X448.Gf.Of | x448_ref.go:50-55 | a new element holds exactly the given limbs (how `zero`, `one`, `p` and the temporaries are built) |
| X448.Gf.Cpy | x448_ref.go:57-62 | the receiver's limbs become the operand's limbs |
| X448.Gf.Reduce | x448_ref.go:191-198 | limbs 0..14 end below 2^28 and limb 15 below 2^28 + 2^8; the value drops by exactly t·p, where t is the old limb 15 shifted right by 28 |
| Field.CarryStep | x448_ref.go:194-197 | moving the carry of limb j-1 into limb j keeps the value; on the wrap from limb 15 into limb 0 the value drops by carry·(p + 2^224), since the carry moves from weight 2^448 to weight 1 |
| Field.CarryOut | x448_ref.go:196 | masking limb k to 28 bits lowers the value by its carry times 2^(28(k+1)) |
| Field.CarryWeight | x448_ref.go:195 | the weight the carry out of limb j-1 lands at: 2^(28j), and 2^448 for the wrap into limb 0 |
| Field.CarryBoundsStep | x448_ref.go:194-197 | the limb bounds of the carry loop hold after each step |
| Field.CarryNext | x448_ref.go:194-197 | one loop step keeps the bounds and the value, up to the multiple t·p folded in before the loop |
| Field.FoldMiddle | x448_ref.go:193 | adding t to limb 8 adds t·2^224 to the value |
| Field.MaskLimb | x448_ref.go:196 | `& lMask` keeps the low 28 bits |
| Field.WeakBelowTwoP | x448_ref.go:241-243 | a weakly reduced element is worth less than 2p, so one subtraction of p suffices in `canon` |
| X448.Gf.Add | x448_ref.go:200-206 | the result is weakly reduced and ≡ y + z (mod p), the receiver may be y or z |
| X448.Gf.Sub | x448_ref.go:208-214 | the result is weakly reduced and ≡ y - z (mod p); requires y - z + 2p limb by limb in [0, 2^32 - 32), which weakly reduced operands always meet (Field.WeakOperands) |
| Field.WeakOperands | x448_ref.go:191-214 | two weakly reduced elements, which every operation returns, meet the bounds of `add`, `sub`, `mul` and `reduce`, so the `2*p.limb[i]` offset of `sub` keeps every limb non-negative |
| Field.TwoPLimbsValue | x448_ref.go:211 | the limb-wise offsets `2*p.limb[i]` are worth 2p |
| X448.Gf.CondSwap | x448_ref.go:216-223 | mask 0xffffffff exchanges the two limb arrays; mask 0 leaves both unchanged; every limb is the masked selection of the two old limbs |
| Field.SelectLimb | x448_ref.go:219-221 | `x ^ ((x ^ y) & m)` is x for m = 0, y for m = 0xffffffff, and x when x = y |
| Bits.XorCancel | x448_ref.go:220-221 | XOR with the same value twice gives the value back |
| Bits.XorSelf | x448_ref.go:219 | a word XORed with itself is 0 |
| Bits.XorComm | x448_ref.go:219-221 | XOR is commutative |
| Bits.XorZero | x448_ref.go:219-221 | 0 is the unit of XOR |
| Bits.XorBound | x448_ref.go:219 | XOR of two n-bit words is an n-bit word |
| Bits.XorTopBit | x448_ref.go:74 | XOR with 2^n flips bit n of an (n+1)-bit word |
| Bits.AndLowMask | x448_ref.go:40 | AND with 2^n - 1 is the remainder mod 2^n |
| Bits.AndBound | x448_ref.go:258 | AND never exceeds its first operand |
| Bits.OrShifted | x448_ref.go:271 | OR of a word below 2^n with a word shifted left by n is their sum |
| Field.AndWord | x448_ref.go:258 | AND with 0xffffffff keeps a uint32 word |
| X448.Gf.Mul | x448_ref.go:64-87 | the result is weakly reduced and ≡ a·b (mod p); the receiver may alias a or b |
| X448.MulRows | x448_ref.go:66-76 | the 16 rows and folds leave every accumulator at most 16 products large, worth a·b minus a multiple of p |
| X448.AddRow | x448_ref.go:71-73 | the inner loop adds row i of the schoolbook product into the accumulators without wrap-around |
| X448.CarryAccumulators | x448_ref.go:77-86 | the final carry chain leaves weakly reduced limbs worth the accumulators minus t·p |
| Product.RowAddAt | x448_ref.go:71-73 | after j steps of row i, slot k holds its old value plus its one product of that row |
| Product.RowAddValue | x448_ref.go:71-73 | a row adds b[i] times the rotated value of the copy of a |
| Product.OffsetOfSlot | x448_ref.go:72 | step j of row i writes slot (i+j) mod 16 |
| Product.RowAddBound | x448_ref.go:72 | a row raises every accumulator by at most one product |
| Product.ProductBound | x448_ref.go:72 | one partial product fits its bound, so the uint64 sums do not wrap |
| Product.FoldIndex | x448_ref.go:74 | the fold target (15 - i) XOR 8 is limb (23 - i) mod 16 |
| Product.FoldBoundsStep | x448_ref.go:74 | the fold keeps the limb bounds of the copy of a |
| Product.FoldBoundsLimbs | x448_ref.go:74 | every limb of the folded copy stays below 3·2^29 |
| Product.FoldBoundsInit | x448_ref.go:66-67 | limbs that `mul` accepts meet the fold bounds before row 0 |
| Product.RowAddSlot | x448_ref.go:72 | the accumulator step j of row i adds to stays within 16 products, so the uint64 `+=` does not wrap |
| Product.RowsDoneInit | x448_ref.go:66-69 | before row 0 the copy is a and the accumulators are zero |
| Product.RowsDoneStep | x448_ref.go:70-75 | one row plus one fold keeps the invariant between rows |
| Product.RowValueStep | x448_ref.go:71-73 | after row i the accumulators are worth a times the first i + 1 limbs of b, up to multiples of p |
| Product.FoldValueStep | x448_ref.go:74 | the fold keeps the copy worth a·2^(28(i+1)) up to multiples of p, because 2^448 ≡ 2^224 + 1 |
| Product.RowsDoneFinal | x448_ref.go:75-76 | after row 15 the accumulators are worth a·b minus a multiple of p |
| Product.RowStep | x448_ref.go:71-73 | the value arithmetic of one row |
| Product.FoldStep | x448_ref.go:74 | the value arithmetic of one fold |
| Field.RotateFold | x448_ref.go:74 | after the fold, the copy rotated by i + 1 is worth 2^28 times the copy rotated by i, minus the folded limb times p |
| Field.RotValueShift | x448_ref.go:74 | 2^28 times the copy rotated by i equals the copy rotated by i + 1 plus (2^448 - 1) times the limb that wraps round |
| Field.RotValueUnrotated | x448_ref.go:67 | with no rotation the rotated value is the value |
| X448.Gf.Sqr | x448_ref.go:89-92 | the result is weakly reduced and ≡ x·x (mod p), even when the receiver is x |
| X448.Gf.Mlw | x448_ref.go:225-239 | w ≤ 0 panics (reported, nothing changed); w > 0 gives a weakly reduced result ≡ b·w (mod p) |
| X448.Gf.Isqrt | x448_ref.go:94-179 | the result is weakly reduced and ≡ x^((p-3)/4) (mod p) |
| X448.Step | x448_ref.go:100-106 | STEP(dst, src, n): from src ≡ x^(2^k - 1) and c ≡ x^((2^m - 1)·2^k), dst ≡ x^(2^(k+m) - 1) and c ≡ that squared n times |
| X448.IsqrtTo2 | x448_ref.go:101-106 | STEP(b,x,1): b ≡ x^(2^2 - 1) |
| X448.IsqrtTo3 | x448_ref.go:108-113 | STEP(b,x,3): b ≡ x^(2^3 - 1) |
| X448.IsqrtTo6 | x448_ref.go:115-120 | STEP(a,b,3): a ≡ x^(2^6 - 1) |
| X448.IsqrtTo9 | x448_ref.go:122-127 | STEP(a,b,9): a ≡ x^(2^9 - 1) |
| X448.IsqrtTo18 | x448_ref.go:129-134 | STEP(b,a,1): b ≡ x^(2^18 - 1) |
| X448.IsqrtTo19 | x448_ref.go:136-141 | STEP(a,x,18): a ≡ x^(2^19 - 1) |
| X448.IsqrtTo37 | x448_ref.go:143-148 | STEP(a,b,37): a ≡ x^(2^37 - 1) |
| X448.IsqrtTo74 | x448_ref.go:150-155 | STEP(b,a,37): b ≡ x^(2^74 - 1) |
| X448.IsqrtTo111 | x448_ref.go:157-162 | STEP(b,a,111): b ≡ x^(2^111 - 1) |
| X448.IsqrtTo222 | x448_ref.go:164-169 | STEP(a,b,1): a ≡ x^(2^222 - 1) |
| X448.IsqrtTo223 | x448_ref.go:171-176 | STEP(b,x,223): c ≡ x^((2^223 - 1)·2^223) |
| X448.IsqrtLast | x448_ref.go:178 | the last product a·c is ≡ x^((p-3)/4) |
| Field.IsqrtExp | x448_ref.go:171-178 | (2^222 - 1) + (2^223 - 1)·2^223 = (p - 3)/4 = 2^446 - 2^222 - 1 |
| Field.ChainExp | x448_ref.go:100-176 | k ones followed by m ones is k + m ones: 2^k - 1 + (2^m - 1)·2^k = 2^(k+m) - 1 |
| Field.ChainArith | x448_ref.go:178 | the integer identity behind IsqrtExp |
| Field.SqrPow | x448_ref.go:104-106 | squaring x^(e·2^i) gives x^(e·2^(i+1)) mod p |
| Field.MulPow | x448_ref.go:102 | multiplying powers of x adds their exponents mod p |
| Field.PowAdd | x448_ref.go:102 | x^m · x^n = x^(m+n) |
| Field.PowMul | x448_ref.go:185 | (x^m)^n = x^(m·n) |
| Field.PowCongruent | x448_ref.go:185 | congruent bases have congruent powers |
| Field.PowOfZero | x448_ref.go:181-189 | a positive power of a multiple of p is a multiple of p |
| X448.Gf.Inv | x448_ref.go:181-189 | the result is weakly reduced and ≡ x^(p-2) (mod p), and ≡ 0 when x ≡ 0 |
| X448.Gf.Canon | x448_ref.go:241-262 | the limbs become the canonical digits of the value mod p: each below 2^28, worth the old value mod p |
| X448.Gf.SubtractP | x448_ref.go:245-251 | the borrow chain leaves 28-bit digits and a final borrow of -1 or 0, with digits + borrow·2^448 = value - p |
| X448.Gf.AddBack | x448_ref.go:253-261 | the masked add-back leaves 28-bit digits and a carry of 0 or 1, with digits + carry·2^448 = value + (p if the borrow was -1, else 0) |
| X448.Gf.ChainLimb | x448_ref.go:248-250 | one limb of either chain: the limb takes the low 28 bits of the signed sum and the arithmetic shift by 28 carries on |
| Field.ChainStart | x448_ref.go:246 | a chain starts with no digits written and a zero carry |
| Field.ChainStep | x448_ref.go:248-250 | one limb of a carry chain keeps digits + carry·2^(28i) equal to the partial sum |
| Field.ChainDone | x448_ref.go:251 | at the end the limbs are digits and, with the carry at weight 2^448, equal the sum |
| Field.CanonChains | x448_ref.go:243-261 | after a weak reduction the two chains produce exactly the canonical limbs |
| Field.NegPLimbsValue | x448_ref.go:248 | the negated limbs of `p` are worth -p |
| Field.MaskedPValue | x448_ref.go:258 | p masked limb by limb with `uint32(addback)` is worth p when addback = -1 and 0 when addback = 0 |
| Field.MaskedPLimb | x448_ref.go:258 | `p.limb[i] & uint32(addback)` is the whole limb or nothing |
| Field.MaskSigned | x448_ref.go:249 | `carry & lMask` on a signed int64 is carry mod 2^28, also for a negative carry |
| Field.PBelowTop | x448_ref.go:52-55 | 0 < p < 2^448 |
| Field.CanonicalValue | x448_ref.go:241-262 | the canonical limbs are worth the value mod p, in [0, p) |
| Field.CanonicalFixed | x448_ref.go:241-262 | 28-bit limbs worth less than p are already canonical |
| Field.CanonicalIdempotent | x448_ref.go:241-262 | canonicalizing twice gives the same limbs as canonicalizing once |
| X448.Gf.Deser | x448_ref.go:264-284 | the limbs become the 28-bit digits of the little-endian value of the 56 bytes, with no reduction; the result is -1 when that value is below p and 0 otherwise |
| X448.Gf.Unpack | x448_ref.go:266-276 | the byte loop leaves 28-bit limbs worth the little-endian value of the bytes |
| X448.Gf.UnpackByte | x448_ref.go:270-275 | one byte ORed into the buffer and the limbs it completes keep the streaming invariant |
| X448.Gf.TakeLimbs | x448_ref.go:272-275 | the inner loop drains whole limbs, and on the last byte all remaining limbs |
| X448.Gf.TakeLimb | x448_ref.go:272-274 | the low 28 buffer bits become the next limb and are shifted out |
| X448.Gf.ShiftIn | x448_ref.go:271 | ORing uint64(v) << bits into a buffer of `bits` bits adds v·2^bits and stays a uint64 |
| X448.Gf.BelowP | x448_ref.go:277-283 | the borrow chain shifted by 32 gives -1 exactly when the limbs are worth less than p, else 0 |
| Field.BorrowStep | x448_ref.go:279-282 | after limb j the running borrow is -1 exactly when the first j + 1 limbs are worth less than those of p |
| X448.Gf.Ser | x448_ref.go:286-299 | the receiver becomes canonical and the bytes become the 56 little-endian bytes of its value mod p |
| X448.Gf.Pack | x448_ref.go:289-298 | the limb loop writes the little-endian bytes of the limbs' value |
| X448.Gf.PackLimb | x448_ref.go:292-297 | one limb ORed into the buffer and the bytes it completes keep the streaming invariant |
| X448.Gf.PutBytes | x448_ref.go:294-297 | the inner loop drains whole bytes, and on the last limb all remaining bytes |
| X448.Gf.PutByte | x448_ref.go:294-296 | the low buffer byte is written and shifted out |
| Radix.StreamStart | x448_ref.go:266-268 | an empty buffer with nothing read or written is a valid streaming state |
| Radix.StreamIn | x448_ref.go:271 | ORing the next input digit above the pending bits keeps written digits + buffer equal to what was read |
| Radix.StreamOut | x448_ref.go:272-273 | taking the low bits of the buffer as the next output digit keeps that equality |
| Radix.StreamDone | x448_ref.go:276 | with everything read and no pending bits, the output digits are worth the input |
| Radix.PendingShift | x448_ref.go:272 | the buffer shifted right stays within the pending bits |
| Radix.DigitOut | x448_ref.go:273 | writing buf mod 2^w as digit k and keeping buf / 2^w preserves the value |
| Radix.DigitsOfEval | x448_ref.go:264-299 | a string of w-bit digits is the digit expansion of its own value |
| Radix.EvalDigits | x448_ref.go:264-299 | the digits of a value below 2^(w·n) are worth that value |
| Radix.EvalBound | x448_ref.go:264-299 | w-bit digits are worth less than 2^(w·n) |
| Field.BufferBound | x448_ref.go:267 | at most 56 pending bits fit the uint64 buffer |
| Field.SerDeserRoundTrip | x448_ref.go:264-299 | deserializing what `ser` writes gives back the canonical limbs |
| Field.DeserSerRoundTrip | x448_ref.go:264-299 | serializing what `deser` reads gives back any byte string worth less than p |
| Field.EncodingOfSmall | x448_ref.go:286-299 | an element worth a byte v is encoded as v and 55 zero bytes (so `zero` as 56 zero bytes) |
| Field.EncodingOfOne | x448_ref.go:51 | `one` is encoded as 01 00 … 00 |
| Field.ModulusDecodesToZero | x448_ref.go:264-284 | the 56 bytes encoding p decode to limbs that canonicalize to `zero` |

## Left out

- Constant-time behaviour is not modelled. Dafny contracts cannot express that `condSwap`, `canon` and the chains have data-independent control flow and memory access. Only their results are modelled.
- uint32 and uint64 wrap-around is not modelled. The machine types are subset types, so every store is proved not to wrap. The bound each operation needs is its precondition (`Reducible`, `AddFits`, `SubFits`, `FitsMul`), where the source silently relies on it.
- X448.Gf.Mlw: requires w < 2^29. That is the limb bound under which `mul` is proved. The source accepts any `int` and truncates it with `uint32(w)`.
- X448.Gf.Mlw: the `panic` is modelled as a returned flag with no state change. The statements after it (x448_ref.go:235-237) cannot run and are not modelled.
- X448.Gf.Inv: x·inv(x) ≡ 1 for x ≢ 0 (mod p) is not stated. It needs Fermat's little theorem and the primality of p. The contract stops at the exponent p - 2, plus inv(0) ≡ 0.
- The point arithmetic and X448 ladder that call these operations are not part of this model.
