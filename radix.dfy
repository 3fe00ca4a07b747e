/** Positional notation in base 2^w.

    A field element's limbs (w = 28) and its byte encoding (w = 8) are both
    little-endian digit strings; `Eval` gives the number a digit string
    denotes and `Digits` the n-digit string of a number.  The digits of a
    number below 2^(w*n) are the only n-digit string that denotes it
    (`DigitsOfEval`), which is what makes the canonical form and the byte
    encoding unique.  Values are built up digit by digit over an index
    (`EvalPrefix`) rather than over slices, so that the loops of the field
    code can state what the part they have done so far denotes. */
module Radix {
  import opened Bits

  /** Σ_{i<n} s[i] * 2^(w*i): the number the n least significant digits of s
      denote. */
  function EvalPrefix(s: seq<int>, w: nat, n: nat): int
    requires n <= |s|
  {
    if n == 0 then 0 else EvalPrefix(s, w, n - 1) + s[n - 1] * Pow2(w * (n - 1))
  }

  /** The number Σ s[i] * 2^(w*i) denoted by the digit string s. */
  function Eval(s: seq<int>, w: nat): int
  {
    EvalPrefix(s, w, |s|)
  }

  /** Every digit of s lies in [0, 2^w). */
  predicate DigitsBelow(s: seq<int>, w: nat)
  {
    forall i :: 0 <= i < |s| ==> 0 <= s[i] < Pow2(w)
  }

  /** The n least significant base-2^w digits of v, least significant first. */
  function Digits(v: nat, n: nat, w: nat): (r: seq<int>)
    ensures |r| == n && DigitsBelow(r, w)
  {
    seq(n, i requires 0 <= i => (v / Pow2(w * i)) % Pow2(w))
  }

  /** Only the first n digits contribute to the n-digit prefix. */
  lemma {:induction false} EvalPrefixSame(s: seq<int>, t: seq<int>, w: nat, n: nat)
    requires n <= |s| && n <= |t|
    requires forall i :: 0 <= i < n ==> s[i] == t[i]
    ensures EvalPrefix(s, w, n) == EvalPrefix(t, w, n)
  {
    if n > 0 {
      EvalPrefixSame(s, t, w, n - 1);
    }
  }

  /** Raising one digit of a prefix by d raises the prefix by d times that
      digit's weight. */
  lemma {:induction false} EvalPrefixUpdate(s: seq<int>, w: nat, n: nat, k: nat, x: int)
    requires k < n <= |s|
    ensures EvalPrefix(s[k := x], w, n) == EvalPrefix(s, w, n) + (x - s[k]) * Pow2(w * k)
  {
    if k < n - 1 {
      EvalPrefixUpdate(s, w, n - 1, k, x);
      var t := s[k := x];
      var a := Pow2(w * (n - 1));
      assert t[n - 1] == s[n - 1];
      assert EvalPrefix(t, w, n) == EvalPrefix(t, w, n - 1) + t[n - 1] * a;
      assert EvalPrefix(s, w, n) == EvalPrefix(s, w, n - 1) + s[n - 1] * a;
    } else {
      EvalPrefixUpdateTop(s, w, k, x);
    }
  }

  /** Raising the top digit of a prefix by d raises it by d times that
      digit's weight. */
  lemma EvalPrefixUpdateTop(s: seq<int>, w: nat, k: nat, x: int)
    requires k < |s|
    ensures EvalPrefix(s[k := x], w, k + 1) == EvalPrefix(s, w, k + 1) + (x - s[k]) * Pow2(w * k)
  {
    var t := s[k := x];
    EvalPrefixSame(t, s, w, k);
    var a := Pow2(w * k);
    assert EvalPrefix(t, w, k + 1) == EvalPrefix(t, w, k) + x * a;
    assert EvalPrefix(s, w, k + 1) == EvalPrefix(s, w, k) + s[k] * a;
    MulSubDistrib(x, s[k], a);
  }

  /** Raising one digit by d raises the number by d times that digit's weight. */
  lemma EvalUpdate(s: seq<int>, w: nat, k: nat, x: int)
    requires k < |s|
    ensures Eval(s[k := x], w) == Eval(s, w) + (x - s[k]) * Pow2(w * k)
  {
    EvalPrefixUpdate(s, w, |s|, k, x);
  }

  /** One more digit multiplies the weight by 2^w. */
  lemma WeightStep(w: nat, k: nat)
    ensures Pow2(w * (k + 1)) == Pow2(w * k) * Pow2(w)
  {
    MulDistrib(k, 1, w);
    Pow2Add(w * k, w);
  }

  /** n digits below 2^w denote a number in [0, 2^(w*n)). */
  lemma {:induction false} EvalPrefixBound(s: seq<int>, w: nat, n: nat)
    requires n <= |s| && DigitsBelow(s, w)
    ensures 0 <= EvalPrefix(s, w, n) < Pow2(w * n)
  {
    if n == 0 {
      assert w * n == 0;
    } else {
      var k := n - 1;
      var a, b := Pow2(w * k), Pow2(w);
      EvalPrefixBound(s, w, k);
      WeightStep(w, k);
      TopDigitBound(EvalPrefix(s, w, k), s[k], a, b);
    }
  }

  /** A string of n digits below 2^w denotes a number in [0, 2^(w*n)). */
  lemma EvalBound(s: seq<int>, w: nat)
    requires DigitsBelow(s, w)
    ensures 0 <= Eval(s, w) < Pow2(w * |s|)
  {
    EvalPrefixBound(s, w, |s|);
  }

  /** A number below a, plus a digit below b times a, stays below a*b. */
  lemma TopDigitBound(low: int, d: int, a: int, b: int)
    requires 0 <= low < a && 0 <= d < b
    ensures 0 <= low + d * a < a * b
  {
    assert d * a <= (b - 1) * a by { MulMonotone(d, b - 1, a); }
    assert (b - 1) * a == a * b - a;
  }

  lemma MulMonotone(x: int, y: int, a: int)
    requires x <= y && a >= 0
    ensures x * a <= y * a
  {
  }

  lemma MulDistrib(x: int, y: int, a: int)
    ensures (x + y) * a == x * a + y * a
  {
  }

  lemma MulSubDistrib(x: int, y: int, a: int)
    ensures (x - y) * a == x * a - y * a
  {
  }

  lemma DivMod(x: int, d: int)
    requires d > 0
    ensures x == (x / d) * d + x % d
  {
  }

  /** Two prefixes of digits below 2^w that denote the same number agree
      digit by digit. */
  lemma {:induction false} EvalPrefixInjective(s: seq<int>, t: seq<int>, w: nat, n: nat)
    requires n <= |s| && n <= |t| && DigitsBelow(s, w) && DigitsBelow(t, w)
    requires EvalPrefix(s, w, n) == EvalPrefix(t, w, n)
    ensures forall i :: 0 <= i < n ==> s[i] == t[i]
  {
    if n > 0 {
      var k := n - 1;
      var a := Pow2(w * k);
      var ls, lt := EvalPrefix(s, w, k), EvalPrefix(t, w, k);
      EvalPrefixBound(s, w, k);
      EvalPrefixBound(t, w, k);
      var v := EvalPrefix(s, w, n);
      assert v == s[k] * a + ls;
      assert v == t[k] * a + lt;
      ModUnique(v, a, s[k], ls);
      ModUnique(v, a, t[k], lt);
      EvalPrefixInjective(s, t, w, k);
    }
  }

  /** Two digit strings of the same length denoting the same number are equal. */
  lemma EvalInjective(s: seq<int>, t: seq<int>, w: nat)
    requires |s| == |t| && DigitsBelow(s, w) && DigitsBelow(t, w)
    requires Eval(s, w) == Eval(t, w)
    ensures s == t
  {
    EvalPrefixInjective(s, t, w, |s|);
  }

  lemma ModSmall(x: int, d: int)
    requires 0 <= x < d
    ensures x % d == x
  {
  }

  /** v mod a*b splits into v mod a and the next digit (v / a) mod b. */
  lemma ModProduct(v: nat, a: nat, b: nat)
    requires a >= 1 && b >= 1
    ensures v % (a * b) == v % a + ((v / a) % b) * a
  {
    var q1, r1 := v / a, v % a;
    var q2, r2 := q1 / b, q1 % b;
    assert v == q1 * a + r1;
    assert q1 == q2 * b + r2;
    assert q1 * a == q2 * (a * b) + r2 * a;
    assert r2 * a <= (b - 1) * a by { MulMonotone(r2, b - 1, a); }
    assert (b - 1) * a == a * b - a;
    ModUnique(v, a * b, q2, r2 * a + r1);
  }

  /** The first n of the m digits of v denote v mod 2^(w*n). */
  lemma {:induction false} EvalPrefixDigits(v: nat, m: nat, w: nat, n: nat)
    requires n <= m
    ensures EvalPrefix(Digits(v, m, w), w, n) == v % Pow2(w * n)
  {
    var s := Digits(v, m, w);
    if n == 0 {
      assert w * n == 0;
    } else {
      var k := n - 1;
      var a, b := Pow2(w * k), Pow2(w);
      EvalPrefixDigits(v, m, w, k);
      assert s[k] == (v / a) % b;
      assert EvalPrefix(s, w, n) == EvalPrefix(s, w, k) + s[k] * a;
      WeightStep(w, k);
      ModProduct(v, a, b);
    }
  }

  /** The digit string of v denotes v reduced mod 2^(w*n). */
  lemma EvalDigits(v: nat, n: nat, w: nat)
    ensures Eval(Digits(v, n, w), w) == v % Pow2(w * n)
  {
    EvalPrefixDigits(v, n, w, n);
  }

  /** A digit string is the digit string of the number it denotes. */
  lemma DigitsOfEval(s: seq<int>, w: nat, v: nat)
    requires DigitsBelow(s, w) && v == Eval(s, w)
    ensures Digits(v, |s|, w) == s
  {
    EvalBound(s, w);
    EvalDigits(v, |s|, w);
    ModSmall(v, Pow2(w * |s|));
    EvalInjective(Digits(v, |s|, w), s, w);
  }

  /** Digit-wise x + y - z denotes Eval(x) + Eval(y) - Eval(z), prefix by
      prefix. */
  lemma {:induction false} EvalPrefixAddSub(s: seq<int>, x: seq<int>, y: seq<int>, z: seq<int>, w: nat, n: nat)
    requires n <= |s| && n <= |x| && n <= |y| && n <= |z|
    requires forall i :: 0 <= i < n ==> s[i] == x[i] + y[i] - z[i]
    ensures EvalPrefix(s, w, n) == EvalPrefix(x, w, n) + EvalPrefix(y, w, n) - EvalPrefix(z, w, n)
  {
    if n > 0 {
      var k := n - 1;
      EvalPrefixAddSub(s, x, y, z, w, k);
      var a := Pow2(w * k);
      assert s[k] * a == x[k] * a + y[k] * a - z[k] * a;
    }
  }

  /** Digit-wise x + y - z denotes Eval(x) + Eval(y) - Eval(z). */
  lemma EvalAddSub(s: seq<int>, x: seq<int>, y: seq<int>, z: seq<int>, w: nat)
    requires |s| == |x| == |y| == |z|
    requires forall i :: 0 <= i < |s| ==> s[i] == x[i] + y[i] - z[i]
    ensures Eval(s, w) == Eval(x, w) + Eval(y, w) - Eval(z, w)
  {
    EvalPrefixAddSub(s, x, y, z, w, |s|);
  }

  // ---------------------------------------------------------------------
  // Streams of digits: the byte and limb conversions move bits through a
  // pending word, writing one low digit at a time.

  /** Writing the low w bits of a pending word buf as digit k, and keeping
      buf / 2^w pending one digit higher, leaves the total unchanged. */
  lemma DigitOut(t: seq<int>, w: nat, k: nat, buf: int, t': seq<int>)
    requires k < |t| && t' == t[k := buf % Pow2(w)]
    ensures EvalPrefix(t', w, k + 1) + (buf / Pow2(w)) * Pow2(w * (k + 1))
            == EvalPrefix(t, w, k) + buf * Pow2(w * k)
  {
    var a, d := Pow2(w * k), Pow2(w);
    var q, r := buf / d, buf % d;
    EvalPrefixSame(t', t, w, k);
    assert EvalPrefix(t', w, k + 1) == EvalPrefix(t, w, k) + r * a;
    WeightStep(w, k);
    SplitScaled(buf, q, r, d, a);
  }

  lemma SplitScaled(buf: int, q: int, r: int, d: int, a: int)
    requires d > 0 && q == buf / d && r == buf % d
    ensures r * a + q * (a * d) == buf * a
  {
    assert buf == q * d + r;
    assert q * (a * d) == (q * d) * a;
    MulDistrib(q * d, r, a);
  }

  /** A pending word below 2^n shifted right by w bits is below 2^(n-w). */
  lemma PendingShift(buf: nat, n: nat, w: nat)
    requires w <= n && buf < Pow2(n)
    ensures 0 <= buf / Pow2(w) < Pow2(n - w)
  {
    Pow2Add(n - w, w);
    QuotientBound(buf, Pow2(w), Pow2(n - w));
  }

  lemma QuotientBound(x: int, d: int, m: int)
    requires 0 <= x < m * d && d > 0
    ensures 0 <= x / d < m
  {
    var q := x / d;
    assert q * d <= x < q * d + d;
    if q < 0 {
      MulMonotone(q, -1, d);
    }
    if q >= m {
      MulMonotone(m, q, d);
    }
  }

  /** The state of a conversion between digit widths through a bit buffer:
      the first i digits of s (width ws) have been read, the first k digits
      of t (width wt) written, and `buf` holds the `bits` bits not yet
      written.  Written digits plus the buffer denote what was read. */
  predicate Streaming(t: seq<int>, wt: nat, k: nat, buf: int, bits: nat, s: seq<int>, ws: nat, i: nat)
  {
    k <= |t| && i <= |s| && bits + wt * k == ws * i && 0 <= buf < Pow2(bits) &&
    (forall j :: 0 <= j < k ==> 0 <= t[j] < Pow2(wt)) &&
    EvalPrefix(t, wt, k) + buf * Pow2(wt * k) == EvalPrefix(s, ws, i)
  }

  lemma StreamStart(t: seq<int>, wt: nat, s: seq<int>, ws: nat)
    ensures Streaming(t, wt, 0, 0, 0, s, ws, 0)
  {
  }

  /** The next input digit is ORed into the buffer above the pending bits. */
  lemma StreamIn(t: seq<int>, wt: nat, k: nat, buf: nat, bits: nat, s: seq<int>, ws: nat, i: nat, x: nat, buf': int)
    requires Streaming(t, wt, k, buf, bits, s, ws, i) && i < |s| && x == s[i] && x < Pow2(ws)
    requires buf' == buf + Shl(x, bits)
    ensures Streaming(t, wt, k, buf', bits + ws, s, ws, i + 1)
  {
    Pow2Add(bits, ws);
    TopDigitBound(buf, x, Pow2(bits), Pow2(ws));
    PendingIn(buf, x, bits, wt * k);
  }

  /** The low wt pending bits become the next output digit. */
  lemma StreamOut(t: seq<int>, wt: nat, k: nat, buf: nat, bits: nat, s: seq<int>, ws: nat, i: nat, t': seq<int>, buf': int)
    requires Streaming(t, wt, k, buf, bits, s, ws, i) && k < |t| && wt <= bits
    requires t' == t[k := buf % Pow2(wt)] && buf' == buf / Pow2(wt)
    ensures Streaming(t', wt, k + 1, buf', bits - wt, s, ws, i)
  {
    PendingShift(buf, bits, wt);
    var q := buf / Pow2(wt);
    assert (bits - wt) + wt * (k + 1) == ws * i by { assert wt * (k + 1) == wt * k + wt; }
    assert forall j :: 0 <= j < k + 1 ==> 0 <= t'[j] < Pow2(wt);
    assert EvalPrefix(t', wt, k + 1) + q * Pow2(wt * (k + 1)) == EvalPrefix(s, ws, i) by {
      DigitOut(t, wt, k, buf, t');
    }
  }

  /** Once every digit is read and written, the two strings denote the same
      number. */
  lemma StreamDone(t: seq<int>, wt: nat, buf: int, s: seq<int>, ws: nat)
    requires Streaming(t, wt, |t|, buf, 0, s, ws, |s|)
    ensures DigitsBelow(t, wt) && 0 <= Eval(t, wt) == Eval(s, ws)
  {
    EvalBound(t, wt);
  }

  /** OR-ing x << n into a pending word that holds n bits adds x at weight
      2^(n+m) once the pending word itself sits at weight 2^m. */
  lemma PendingIn(buf: int, x: int, n: nat, m: nat)
    ensures (buf + x * Pow2(n)) * Pow2(m) == buf * Pow2(m) + x * Pow2(n + m)
  {
    Pow2Add(n, m);
    var a, b := Pow2(n), Pow2(m);
    MulDistrib(buf, x * a, b);
    assert (x * a) * b == x * (a * b);
  }

  /** Digit-wise comparison: with both lower parts below a, the number with
      top digit x is below the one with top digit y exactly when x < y, or
      x == y and the lower parts compare so. */
  lemma TopDigitLess(lx: int, x: int, ly: int, y: int, a: int)
    requires 0 <= lx < a && 0 <= ly < a
    ensures lx + x * a < ly + y * a <==> x < y || (x == y && lx < ly)
  {
    if x < y {
      MulMonotone(x + 1, y, a);
    } else if x > y {
      MulMonotone(y + 1, x, a);
    }
  }
}
