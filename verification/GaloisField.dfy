/**
 The field GF(256) behind the error correction code words: bytes, added by exclusive or and
 multiplied modulo x^8 + x^4 + x^3 + x^2 + 1.
 */
module GaloisField {
  import opened Bitwise

  type Byte = x: int | 0 <= x < 256

  function Add(a: Byte, b: Byte): Byte {
    XorOfBytes(a, b);
    Xor(a, b)
  }

  /** Multiplication by x: a shift, reduced by the field polynomial 0x11D when a bit falls out. */
  function Double(a: Byte): Byte {
    ReducedBound(a);
    if a < 128 then 2 * a else Xor(2 * a, 0x11D)
  }

  lemma XorOfBytes(a: Byte, b: Byte)
    ensures 0 <= Xor(a, b) < 256
    ensures Xor(a, b) >= 128 <==> (a >= 128) != (b >= 128)
  {
    assert Pow2(7) == 128;
    XorTopDigit(a, b, 7);
  }

  lemma ReducedBound(a: Byte)
    ensures a >= 128 ==> 0 <= Xor(2 * a, 0x11D) < 256
  {
    assert Pow2(8) == 256;
    XorTopDigit(2 * a, 0x11D, 8);
  }

  /** Shift-and-add multiplication. */
  function Mul(a: Byte, b: Byte): Byte {
    if a == 0 then 0 else Add(if a % 2 == 1 then b else 0, Mul(a / 2, Double(b)))
  }

  function Exp(x: Byte, n: nat): Byte {
    if n == 0 then 1 else Mul(x, Exp(x, n - 1))
  }

  /** alpha^n for the generator alpha = 2 */
  function Alpha(n: nat): Byte {
    if n == 0 then 1 else Double(Alpha(n - 1))
  }

  // ----- addition

  lemma AddLaws(a: Byte, b: Byte, c: Byte)
    ensures Add(Add(a, b), c) == Add(a, Add(b, c))
    ensures Add(a, b) == Add(b, a)
    ensures Add(a, a) == 0
    ensures Add(a, 0) == a == Add(0, a)
  {
    XorAssociates(a, b, c);
    XorCommutes(a, b);
    XorSelf(a);
  }

  lemma AddSwap(a: Byte, b: Byte, c: Byte, d: Byte)
    ensures Add(Add(a, b), Add(c, d)) == Add(Add(a, c), Add(b, d))
  {
    AddLaws(a, b, Add(c, d));
    AddLaws(b, c, d);
    AddLaws(c, b, d);
    AddLaws(a, c, Add(b, d));
  }

  lemma AddCancels(a: Byte, b: Byte)
    ensures Add(Add(a, b), b) == a
    ensures Add(a, b) == 0 <==> a == b
  {
    AddLaws(a, b, b);
    AddLaws(b, b, b);
    AddLaws(a, 0, 0);
    AddLaws(b, 0, 0);
  }

  // ----- multiplication by x is linear and injective

  lemma DoubleAdd(a: Byte, b: Byte)
    ensures Double(Add(a, b)) == Add(Double(a), Double(b))
  {
    XorOfBytes(a, b);
    XorDouble(a, b);
    var x, y, p := 2 * a, 2 * b, 0x11D;
    XorAssociates(x, y, p);
    XorCommutes(y, p);
    XorAssociates(x, p, y);
    XorAssociates(x, p, Xor(p, y));
    XorAssociates(p, p, y);
    XorSelf(p);
  }

  lemma DoubleInjective(a: Byte, b: Byte)
    requires Double(a) == Double(b)
    ensures a == b
  {
    DoubleAdd(a, b);
    AddCancels(Double(a), Double(b));
    AddCancels(a, b);
    XorStep(2 * Add(a, b), 0x11D);
  }

  // ----- the ring laws

  lemma {:induction false} MulAdd(a: Byte, b: Byte, c: Byte)
    ensures Mul(a, Add(b, c)) == Add(Mul(a, b), Mul(a, c))
  {
    if a > 0 {
      DoubleAdd(b, c);
      MulAdd(a / 2, Double(b), Double(c));
      var odd := a % 2 == 1;
      AddSwap(if odd then b else 0, if odd then c else 0, Mul(a / 2, Double(b)), Mul(a / 2, Double(c)));
    }
  }

  lemma {:induction false} MulDouble(a: Byte, b: Byte)
    ensures Mul(a, Double(b)) == Double(Mul(a, b))
  {
    if a > 0 {
      MulDouble(a / 2, Double(b));
      DoubleAdd(if a % 2 == 1 then b else 0, Mul(a / 2, Double(b)));
    }
  }

  lemma {:induction false} MulZero(a: Byte)
    ensures Mul(a, 0) == 0
  {
    if a > 0 { MulZero(a / 2); }
  }

  lemma {:induction false} MulSwap(a: Byte, b: Byte, c: Byte)
    ensures Mul(a, Mul(b, c)) == Mul(b, Mul(a, c))
  {
    MulZero(b);
    if a > 0 {
      MulSwap(a / 2, b, Double(c));
      MulDouble(b, c);
      MulAdd(b, if a % 2 == 1 then c else 0, Mul(a / 2, Double(c)));
    }
  }

  lemma {:induction false} MulShiftedOne(a: Byte, n: nat)
    requires ShiftLeft(a, n) < 256 && ShiftLeft(1, n) < 256
    ensures Mul(a, ShiftLeft(1, n)) == ShiftLeft(a, n)
    decreases a
  {
    ShiftLeftLaws(0, 0, n);
    if a > 0 {
      var h := a / 2;
      ShiftLeftLaws(h, h, n);
      ShiftLeftXor(a % 2, 2 * h, n);
      XorDigits(0, h, a % 2 == 1, false);
      if a > 1 {
        ShiftLeftLaws(2, a, n);
        ShiftLeftLaws(1, a, n);
        ShiftLeftLaws(2 * h, a, n);
        MulShiftedOne(h, n + 1);
      }
    }
  }

  lemma MulOne(a: Byte)
    ensures Mul(a, 1) == a == Mul(1, a)
  {
    MulShiftedOne(a, 0);
    MulZero(0);
  }

  lemma MulCommutes(a: Byte, b: Byte)
    ensures Mul(a, b) == Mul(b, a)
  {
    MulSwap(a, b, 1);
    MulOne(a);
    MulOne(b);
  }

  lemma MulAssociates(a: Byte, b: Byte, c: Byte)
    ensures Mul(Mul(a, b), c) == Mul(a, Mul(b, c))
  {
    MulCommutes(b, c);
    MulSwap(a, c, b);
    MulCommutes(Mul(a, b), c);
  }

  lemma MulDistributes(a: Byte, b: Byte, c: Byte)
    ensures Mul(Add(a, b), c) == Add(Mul(a, c), Mul(b, c))
  {
    MulCommutes(Add(a, b), c);
    MulCommutes(a, c);
    MulCommutes(b, c);
    MulAdd(c, a, b);
  }

  // ----- powers of alpha

  lemma {:induction false} MulAlpha(m: nat, b: Byte)
    ensures Mul(Alpha(m), b) == Iterate(b, m)
  {
    if m == 0 {
      MulOne(b);
    } else {
      MulAlpha(m - 1, b);
      MulCommutes(Alpha(m), b);
      MulDouble(b, Alpha(m - 1));
      MulCommutes(Alpha(m - 1), b);
    }
  }

  lemma {:induction false} AlphaAdd(m: nat, n: nat)
    ensures Mul(Alpha(m), Alpha(n)) == Alpha(m + n)
  {
    MulAlpha(m, Alpha(n));
    IterateAlpha(n, m);
  }

  /** n multiplications by x */
  function Iterate(v: Byte, n: nat): Byte {
    if n == 0 then v else Double(Iterate(v, n - 1))
  }

  lemma {:induction false} IterateAlpha(m: nat, n: nat)
    ensures Iterate(Alpha(m), n) == Alpha(m + n)
  {
    if n > 0 { IterateAlpha(m, n - 1); }
  }

  // ----- alpha has order 255: a shift register computes the powers that decide it

  function Value(b7: bool, b6: bool, b5: bool, b4: bool, b3: bool, b2: bool, b1: bool, b0: bool): Byte {
    128 * Digit(b7) + 64 * Digit(b6) + 32 * Digit(b5) + 16 * Digit(b4)
    + 8 * Digit(b3) + 4 * Digit(b2) + 2 * Digit(b1) + Digit(b0)
  }

  function Run(b7: bool, b6: bool, b5: bool, b4: bool, b3: bool, b2: bool, b1: bool, b0: bool, n: nat): Byte
    decreases n
  {
    if n == 0 then Value(b7, b6, b5, b4, b3, b2, b1, b0)
    else Run(b6, b5, b4, b3 != b7, b2 != b7, b1 != b7, b0, b7, n - 1)
  }

  lemma DoubleValue(b7: bool, b6: bool, b5: bool, b4: bool, b3: bool, b2: bool, b1: bool, b0: bool)
    ensures Double(Value(b7, b6, b5, b4, b3, b2, b1, b0))
            == Value(b6, b5, b4, b3 != b7, b2 != b7, b1 != b7, b0, b7)
  {
    if b7 {
      var h, r := ReduceHigh(b6, b5, b4, b3);
      ReduceLow(Value(b7, b6, b5, b4, b3, b2, b1, b0), h, r, b2, b1, b0);
    }
  }

  lemma ReduceHigh(b6: bool, b5: bool, b4: bool, b3: bool) returns (h: nat, r: nat)
    ensures h == 16 + 8 * Digit(b6) + 4 * Digit(b5) + 2 * Digit(b4) + Digit(b3)
    ensures r == 8 * Digit(b6) + 4 * Digit(b5) + 2 * Digit(b4) + Digit(!b3)
    ensures Xor(h, 17) == r
  {
    h, r := 1, 0;
    XorSelf(1);
    h, r := XorOnto(h, 1, r, b6, false);
    h, r := XorOnto(h, 2, r, b5, false);
    h, r := XorOnto(h, 4, r, b4, false);
    h, r := XorOnto(h, 8, r, b3, true);
  }

  lemma ReduceLow(a: Byte, h: nat, r: nat, b2: bool, b1: bool, b0: bool)
    requires Xor(h, 17) == r && 2 * a == 16 * h + 8 * Digit(b2) + 4 * Digit(b1) + 2 * Digit(b0) >= 256
    ensures Double(a) == 16 * r + 8 * Digit(!b2) + 4 * Digit(!b1) + 2 * Digit(b0) + 1
  {
    var h', r' := XorOnto(h, 17, r, b2, true);
    h', r' := XorOnto(h', 35, r', b1, true);
    h', r' := XorOnto(h', 71, r', b0, false);
    h', r' := XorOnto(h', 142, r', false, true);
  }

  lemma XorOnto(a: nat, b: nat, x: nat, p: bool, q: bool) returns (a': nat, x': nat)
    requires Xor(a, b) == x
    ensures a' == 2 * a + Digit(p) && x' == 2 * x + Digit(p != q)
    ensures Xor(a', 2 * b + Digit(q)) == x'
  {
    XorDigits(a, b, p, q);
    a', x' := 2 * a + Digit(p), 2 * x + Digit(p != q);
  }

  lemma {:induction false} RunIterates(v: Byte, b7: bool, b6: bool, b5: bool, b4: bool, b3: bool, b2: bool, b1: bool,
                                       b0: bool, n: nat)
    requires v == Value(b7, b6, b5, b4, b3, b2, b1, b0)
    ensures Run(b7, b6, b5, b4, b3, b2, b1, b0, n) == Iterate(v, n)
    decreases n
  {
    if n > 0 {
      DoubleValue(b7, b6, b5, b4, b3, b2, b1, b0);
      RunIterates(Double(v), b6, b5, b4, b3 != b7, b2 != b7, b1 != b7, b0, b7, n - 1);
      IterateDouble(v, n - 1);
    }
  }

  lemma {:induction false} IterateDouble(v: Byte, n: nat)
    ensures Iterate(Double(v), n) == Double(Iterate(v, n))
  {
    if n > 0 { IterateDouble(v, n - 1); }
  }

  lemma Jump(m: nat, b7: bool, b6: bool, b5: bool, b4: bool, b3: bool, b2: bool, b1: bool, b0: bool, n: nat)
    requires Alpha(m) == Value(b7, b6, b5, b4, b3, b2, b1, b0)
    ensures Alpha(m + n) == Run(b7, b6, b5, b4, b3, b2, b1, b0, n)
  {
    RunIterates(Alpha(m), b7, b6, b5, b4, b3, b2, b1, b0, n);
    IterateAlpha(m, n);
  }

  lemma PowersTo85(m: nat)
    requires Alpha(m) == 1
    ensures Alpha(m + 15) == 38 && Alpha(m + 51) == 10 && Alpha(m + 85) == 214
  {
    hide *;
    PowersTo15(m);
    PowersFrom15To51(m + 15);
    PowersFrom51To85(m + 51);
  }

  lemma PowersTo15(m: nat)
    requires Alpha(m) == 1
    ensures Alpha(m + 15) == 38
  {
    Jump(m, false, false, false, false, false, false, false, true, 12);
    Jump(m + 12, true, true, false, false, true, true, false, true, 3);
  }

  lemma PowersFrom15To51(m: nat)
    requires Alpha(m) == 38
    ensures Alpha(m + 36) == 10
  {
    Jump(m, false, false, true, false, false, true, true, false, 12);
    Jump(m + 12, false, false, false, false, true, true, false, false, 12);
    Jump(m + 24, false, false, true, true, false, true, false, true, 12);
  }

  lemma PowersFrom51To85(m: nat)
    requires Alpha(m) == 10
    ensures Alpha(m + 34) == 214
  {
    Jump(m, false, false, false, false, true, false, true, false, 12);
    Jump(m + 12, true, false, true, false, false, false, false, true, 12);
    Jump(m + 24, false, false, false, false, true, true, true, true, 10);
  }

  lemma PowersTo171(m: nat)
    requires Alpha(m + 85) == 214
    ensures Alpha(m + 171) == 179
  {
    Jump(m + 85, true, true, false, true, false, true, true, false, 12);
    Jump(m + 97, true, false, true, false, true, true, true, true, 12);
    Jump(m + 109, true, false, true, true, true, true, false, true, 12);
    Jump(m + 121, false, true, true, true, false, true, true, false, 12);
    Jump(m + 133, false, true, true, false, true, true, false, true, 12);
    Jump(m + 145, false, true, false, false, true, true, false, true, 12);
    Jump(m + 157, true, true, false, true, false, true, false, true, 12);
    Jump(m + 169, true, true, true, false, false, true, false, true, 2);
  }

  lemma PowersTo255(m: nat)
    requires Alpha(m + 171) == 179
    ensures Alpha(m + 255) == 1
  {
    Jump(m + 171, true, false, true, true, false, false, true, true, 12);
    Jump(m + 183, true, true, false, false, false, true, false, false, 12);
    Jump(m + 195, false, true, true, false, false, true, false, false, 12);
    Jump(m + 207, true, false, true, false, false, true, true, false, 12);
    Jump(m + 219, false, true, false, true, false, true, true, false, 12);
    Jump(m + 231, true, true, true, true, false, true, false, true, 12);
    Jump(m + 243, false, true, true, true, true, true, false, true, 12);
  }

  lemma Cycle(m: nat)
    requires Alpha(m) == 1
    ensures Alpha(m + 255) == 1
    ensures Alpha(m + 15) != 1 && Alpha(m + 51) != 1 && Alpha(m + 85) != 1
  {
    PowersTo85(m);
    PowersTo171(m);
    PowersTo255(m);
  }

  lemma AlphaPeriod(k: nat)
    ensures Alpha(k + 255) == Alpha(k)
  {
    PeriodFrom(0, k);
  }

  lemma PeriodFrom(m: nat, k: nat)
    requires Alpha(m) == 1
    ensures Alpha(k + (m + 255)) == Alpha(k)
  {
    Cycle(m);
    AlphaAdd(k, m + 255);
    MulOne(Alpha(k));
  }

  /** No positive power below 255 is 1. */
  lemma AlphaOrder(d: nat)
    requires 0 < d < 255
    ensures Alpha(d) != 1
  {
    if Alpha(d) == 1 {
      var m := LeastPeriod(d);
      Cycle(d);
      var a := PeriodDivides(d, m);
      var b := PeriodDivides(d + 255, m);
      var q := MultipleDifference(m, a, b);
      NoProperPeriod(d, m, q);
    }
  }

  lemma MultipleDifference(m: nat, a: nat, b: nat) returns (q: nat)
    requires m > 0 && m * b == m * a + 255
    ensures m * q == 255
  {
    assert m * (b - a) == m * b - m * a;
    q := b - a;
  }

  /** A period p dividing 255 would make alpha^15, alpha^51 or alpha^85 equal to 1. */
  lemma NoProperPeriod(m: nat, p: nat, q: nat)
    requires Alpha(m) == 1 && p * q == 255 && p < 255
    ensures Alpha(p) != 1
  {
    if Alpha(p) == 1 {
      var d := DivisorMultiple(p, q);
      AlphaMultiple(p, d / p);
      AlphaAdd(m, d);
      MulOne(1);
      Cycle(m);
    }
  }

  lemma {:induction false} AlphaMultiple(m: nat, k: nat)
    requires Alpha(m) == 1
    ensures Alpha(m * k) == 1
  {
    if k > 0 {
      AlphaMultiple(m, k - 1);
      AlphaAdd(m, m * (k - 1));
      assert m * k == m + m * (k - 1);
      MulOne(1);
    }
  }

  lemma LeastPeriod(n: nat) returns (m: nat)
    requires n > 0 && Alpha(n) == 1
    ensures 0 < m <= n && Alpha(m) == 1
    ensures forall d | 0 < d < m :: Alpha(d) != 1
  {
    m := 1;
    while Alpha(m) != 1
      invariant 0 < m <= n && forall d | 0 < d < m :: Alpha(d) != 1
      decreases n - m
    {
      m := m + 1;
    }
  }

  /** The least positive exponent with power 1 divides every such exponent. */
  lemma PeriodDivides(n: nat, m: nat) returns (q: nat)
    requires Alpha(n) == 1
    requires m > 0 && Alpha(m) == 1 && forall d | 0 < d < m :: Alpha(d) != 1
    ensures m * q == n
  {
    var r: nat;
    q, r := DivideWithRemainder(n, m);
    RemainderPeriod(n, m, q, r);
  }

  lemma RemainderPeriod(n: nat, m: nat, q: nat, r: nat)
    requires Alpha(n) == 1 && Alpha(m) == 1 && n == m * q + r
    ensures Alpha(r) == 1
  {
    hide Alpha, Mul;
    var p := m * q;
    AlphaMultiple(m, q);
    AlphaAdd(p, r);
    MulOne(Alpha(r));
  }

  /** A proper divisor of 255 = 3 * 5 * 17 divides 15, 51 or 85. */
  lemma DivisorMultiple(m: nat, q: nat) returns (d: nat)
    requires m * q == 255 && m < 255
    ensures d == 15 || d == 51 || d == 85
    ensures m * (d / m) == d
  {
    if q < 16 {
      assert q != 0 && q != 1;
      assert q == 3 || q == 5 || q == 15;
      d := if q == 3 then 85 else 51;
    } else {
      if m >= 16 { SixteenSquared(m, q); }
      assert m == 1 || m == 3 || m == 5 || m == 15;
      d := 15;
    }
  }

  lemma SixteenSquared(m: nat, q: nat)
    requires m >= 16 && q >= 16
    ensures m * q >= 256
  {
    assert m * q >= 16 * q;
  }

  // ----- every nonzero byte is one power of alpha

  lemma {:induction false} AlphaNonzero(k: nat)
    ensures Alpha(k) != 0
  {
    if k > 0 {
      AlphaNonzero(k - 1);
      if Alpha(k) == 0 { DoubleInjective(Alpha(k - 1), 0); }
    }
  }

  lemma {:induction false} IterateInjective(a: Byte, b: Byte, n: nat)
    requires Iterate(a, n) == Iterate(b, n)
    ensures a == b
  {
    if n > 0 {
      DoubleInjective(Iterate(a, n - 1), Iterate(b, n - 1));
      IterateInjective(a, b, n - 1);
    }
  }

  lemma AlphaInjective(i: nat, j: nat)
    requires i < j < 255
    ensures Alpha(i) != Alpha(j)
  {
    if Alpha(i) == Alpha(j) {
      IterateAlpha(0, i);
      IterateAlpha(j - i, i);
      IterateInjective(1, Alpha(j - i), i);
      AlphaOrder(j - i);
    }
  }

  lemma {:induction false} AlphaPeriods(r: nat, q: nat)
    ensures Alpha(r + 255 * q) == Alpha(r)
  {
    if q > 0 {
      AlphaPeriods(r, q - 1);
      AlphaPeriod(r + 255 * (q - 1));
    }
  }

  lemma AlphaMod(k: nat)
    ensures Alpha(k) == Alpha(k % 255)
  {
    AlphaPeriods(k % 255, k / 255);
  }

  ghost function Powers(n: nat): set<int> {
    set k | 0 <= k < n :: Alpha(k)
  }

  lemma {:induction false} PowersCount(n: nat)
    requires n <= 255
    ensures |Powers(n)| == n
  {
    if n > 0 {
      PowersCount(n - 1);
      assert Powers(n) == Powers(n - 1) + {Alpha(n - 1)};
      forall k | 0 <= k < n - 1
        ensures Alpha(k) != Alpha(n - 1)
      {
        AlphaInjective(k, n - 1);
      }
    }
  }

  ghost function Nonzero(n: nat): set<int> {
    if n == 0 then {} else Nonzero(n - 1) + {n}
  }

  lemma {:induction false} NonzeroCount(n: nat)
    ensures |Nonzero(n)| == n
    ensures forall a :: a in Nonzero(n) <==> 1 <= a <= n
  {
    if n > 0 { NonzeroCount(n - 1); }
  }

  lemma SubsetOfEqualSize(s: set<int>, t: set<int>)
    requires s <= t && |s| == |t|
    ensures s == t
  {
    assert |t - s| == |t| - |s|;
    assert t == s + (t - s);
  }

  /** Every nonzero byte is a power of alpha: 255 distinct powers among 255 nonzero bytes. */
  lemma AlphaSurjective(a: Byte)
    requires a != 0
    ensures exists k: nat :: k < 255 && Alpha(k) == a
  {
    var powers, bytes := Powers(255), Nonzero(255);
    PowersCount(255);
    NonzeroCount(255);
    forall k: nat | k < 255
      ensures Alpha(k) in bytes
    {
      AlphaNonzero(k);
    }
    SubsetOfEqualSize(powers, bytes);
    assert a in powers;
  }

  /** The discrete logarithm */
  ghost function Log(a: Byte): (k: nat)
    requires a != 0
    ensures k < 255 && Alpha(k) == a
  {
    AlphaSurjective(a);
    var k: nat :| k < 255 && Alpha(k) == a;
    k
  }

  lemma LogAlpha(k: nat)
    requires k < 255
    ensures Alpha(k) != 0 && Log(Alpha(k)) == k
  {
    AlphaNonzero(k);
    var j := Log(Alpha(k));
    if j < k { AlphaInjective(j, k); }
    if k < j { AlphaInjective(k, j); }
  }

  // ----- a field: no zero divisors, and division

  lemma NoZeroDivisors(a: Byte, b: Byte)
    ensures Mul(a, b) == 0 <==> a == 0 || b == 0
  {
    MulZero(a);
    if a != 0 {
      MulAlpha(Log(a), b);
      MulAlpha(Log(a), 0);
      MulZero(a);
      if Mul(a, b) == 0 { IterateInjective(b, 0, Log(a)); }
    }
  }

  ghost function Div(a: Byte, b: Byte): (c: Byte)
    requires b != 0
    ensures Mul(c, b) == a
  {
    var k := 255 - Log(b);
    MulAssociates(a, Alpha(k), b);
    AlphaAdd(k, Log(b));
    AlphaPeriod(0);
    MulOne(a);
    Mul(a, Alpha(k))
  }
}
