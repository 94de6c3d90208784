/**
 Polynomials over GF(256) as coefficient sequences, highest degree first, as the encoder stores
 them: evaluation, products, division with remainder, and how often a sparse polynomial vanishes.
 */
module Polynomials {
  import opened GaloisField

  type Poly = seq<Byte>

  function Zeros(n: nat): (z: Poly)
    ensures |z| == n && forall i | 0 <= i < n :: z[i] == 0
  {
    seq(n, _ => 0)
  }

  function Sum(p: Poly, q: Poly): (r: Poly)
    requires |p| == |q|
    ensures |r| == |p| && forall i | 0 <= i < |p| :: r[i] == Add(p[i], q[i])
  {
    seq(|p|, i requires 0 <= i < |p| => Add(p[i], q[i]))
  }

  function Scale(c: Byte, p: Poly): (r: Poly)
    ensures |r| == |p| && forall i | 0 <= i < |p| :: r[i] == Mul(c, p[i])
  {
    seq(|p|, i requires 0 <= i < |p| => Mul(c, p[i]))
  }

  /** Horner evaluation at x */
  function Eval(p: Poly, x: Byte): Byte {
    if |p| == 0 then 0 else Add(Mul(Eval(p[..|p| - 1], x), x), p[|p| - 1])
  }

  /** Without its leading zero coefficients */
  function Strip(p: Poly): (r: Poly)
    ensures |r| <= |p|
    ensures r == [] || r[0] != 0
    ensures p == Zeros(|p| - |r|) + r
  {
    if |p| > 0 && p[0] == 0 then
      var r := Strip(p[1..]);
      assert p == [0] + p[1..];
      r
    else p
  }

  /** (p' x + c) e = (p' e) x + c e, where c is the last coefficient */
  function Product(p: Poly, e: Poly): (r: Poly)
    requires |e| > 0
    ensures |r| == |p| + |e| - 1
  {
    if |p| == 0 then Zeros(|e| - 1)
    else
      var n := |p| - 1;
      Sum(Product(p[..n], e) + [0], Zeros(n) + Scale(p[n], e))
  }

  // ----- evaluation is linear

  lemma {:induction false} EvalZeros(n: nat, x: Byte)
    ensures Eval(Zeros(n), x) == 0
  {
    if n > 0 {
      assert Zeros(n)[..n - 1] == Zeros(n - 1);
      EvalZeros(n - 1, x);
      MulZero(0);
    }
  }

  lemma {:induction false} EvalSum(p: Poly, q: Poly, x: Byte)
    requires |p| == |q|
    ensures Eval(Sum(p, q), x) == Add(Eval(p, x), Eval(q, x))
  {
    var n := |p| - 1;
    if n >= 0 {
      assert Sum(p, q)[..n] == Sum(p[..n], q[..n]);
      EvalSum(p[..n], q[..n], x);
      var u, v := Eval(p[..n], x), Eval(q[..n], x);
      MulDistributes(u, v, x);
      AddSwap(Mul(u, x), Mul(v, x), p[n], q[n]);
    }
  }

  lemma {:induction false} EvalScale(c: Byte, p: Poly, x: Byte)
    ensures Eval(Scale(c, p), x) == Mul(c, Eval(p, x))
  {
    var n := |p| - 1;
    if n < 0 {
      MulZero(c);
    } else {
      assert Scale(c, p)[..n] == Scale(c, p[..n]);
      EvalScale(c, p[..n], x);
      var u := Eval(p[..n], x);
      MulAssociates(c, u, x);
      MulAdd(c, Mul(u, x), p[n]);
    }
  }

  lemma {:induction false} EvalConcat(p: Poly, q: Poly, x: Byte)
    ensures Eval(p + q, x) == Add(Mul(Eval(p, x), Exp(x, |q|)), Eval(q, x))
  {
    var n := |q| - 1;
    if n < 0 {
      assert p + q == p;
      MulOne(Eval(p, x));
    } else {
      assert (p + q)[..|p| + n] == p + q[..n];
      EvalConcat(p, q[..n], x);
      var u, v, w := Eval(p, x), Eval(q[..n], x), Exp(x, n);
      MulDistributes(Mul(u, w), v, x);
      MulAssociates(u, w, x);
      MulCommutes(w, x);
      AddLaws(Mul(u, Exp(x, n + 1)), Mul(v, x), q[n]);
    }
  }

  lemma EvalLeadingZeros(n: nat, p: Poly, x: Byte)
    ensures Eval(Zeros(n) + p, x) == Eval(p, x)
  {
    EvalConcat(Zeros(n), p, x);
    EvalZeros(n, x);
  }

  // ----- evaluation is multiplicative

  lemma {:induction false} EvalProduct(p: Poly, e: Poly, x: Byte)
    requires |e| > 0
    ensures Eval(Product(p, e), x) == Mul(Eval(p, x), Eval(e, x))
  {
    var n := |p| - 1;
    if n < 0 {
      EvalZeros(|e| - 1, x);
    } else {
      var high, c, y := p[..n], p[n], Eval(e, x);
      var shifted := Product(high, e) + [0];
      EvalSum(shifted, Zeros(n) + Scale(c, e), x);
      EvalLeadingZeros(n, Scale(c, e), x);
      EvalScale(c, e, x);
      assert shifted[..|shifted| - 1] == Product(high, e);
      EvalProduct(high, e, x);
      var u := Eval(high, x);
      MulAssociates(u, y, x);
      MulCommutes(y, x);
      MulAssociates(u, x, y);
      MulDistributes(Mul(u, x), c, y);
    }
  }

  // ----- products, leading coefficient first

  lemma SumRotate(p: Poly, q: Poly, r: Poly)
    requires |p| == |q| == |r|
    ensures Sum(Sum(p, q), r) == Sum(Sum(p, r), q)
  {
    forall k | 0 <= k < |p|
      ensures Sum(Sum(p, q), r)[k] == Sum(Sum(p, r), q)[k]
    {
      AddLaws(p[k], q[k], r[k]);
      AddLaws(q[k], r[k], p[k]);
      AddLaws(p[k], r[k], q[k]);
    }
  }

  lemma SumAppendZero(p: Poly, q: Poly)
    requires |p| == |q|
    ensures Sum(p, q) + [0] == Sum(p + [0], q + [0])
    ensures [0] + Sum(p, q) == Sum([0] + p, [0] + q)
  {
    var l, r := Sum(p, q) + [0], Sum(p + [0], q + [0]);
    assert forall k | 0 <= k < |l| :: l[k] == r[k];
  }

  lemma {:induction false} ProductCons(c: Byte, q: Poly, e: Poly)
    requires |e| > 0
    ensures Product([c] + q, e) == Sum([0] + Product(q, e), Scale(c, e) + Zeros(|q|))
  {
    var n := |q| - 1;
    if n < 0 {
      ProductSingle(c, e);
      assert q == [] && [0] + Product(q, e) == Zeros(|e|);
      assert [c] + q == [c];
      assert Scale(c, e) + Zeros(0) == Scale(c, e);
    } else {
      var high := q[..n];
      ProductCons(c, high, e);
      ProductSnoc([c] + high, q[n], e);
      ProductSnoc(high, q[n], e);
      assert high + [q[n]] == q;
      assert ([c] + high) + [q[n]] == [c] + q;
      ConsAlgebra(Product(high, e), Scale(c, e), Scale(q[n], e), n);
    }
  }

  lemma ConsAlgebra(p: Poly, s: Poly, d: Poly, n: nat)
    requires |s| == |d| > 0 && |p| == n + |s| - 1
    ensures Sum(Sum([0] + p, s + Zeros(n)) + [0], Zeros(n + 1) + d)
            == Sum([0] + Sum(p + [0], Zeros(n) + d), s + Zeros(n + 1))
  {
    var a, b, d' := [0] + p, s + Zeros(n), Zeros(n) + d;
    SumAppendZero(a, b);
    SumAppendZero(p + [0], d');
    assert [0] + (p + [0]) == a + [0];
    assert [0] + d' == Zeros(n + 1) + d;
    assert b + [0] == s + Zeros(n + 1);
    SumRotate(a + [0], b + [0], [0] + d');
  }

  lemma ProductSnoc(p: Poly, c: Byte, e: Poly)
    requires |e| > 0
    ensures Product(p + [c], e) == Sum(Product(p, e) + [0], Zeros(|p|) + Scale(c, e))
  {
    assert (p + [c])[..|p|] == p;
  }

  lemma ProductSingle(c: Byte, e: Poly)
    requires |e| > 0
    ensures Product([c], e) == Scale(c, e) == Sum(Zeros(|e|), Scale(c, e))
  {
    ProductSnoc([], c, e);
    assert [] + [c] == [c];
    assert Zeros(|e| - 1) + [0] == Zeros(|e|);
    assert Zeros(0) + Scale(c, e) == Scale(c, e);
    SumZeros(Scale(c, e));
  }

  lemma SumZeros(p: Poly)
    ensures Sum(Zeros(|p|), p) == p == Sum(p, Zeros(|p|))
  {
    forall k | 0 <= k < |p|
      ensures Sum(Zeros(|p|), p)[k] == p[k] == Sum(p, Zeros(|p|))[k]
    {
      AddLaws(p[k], 0, 0);
    }
  }

  // ----- division with remainder

  /** One step of long division: cancels the leading coefficient of p with a multiple of e. */
  ghost function DivisionStep(p: Poly, e: Poly): (r: Poly)
    requires |p| >= |e| > 0 && e[0] != 0
    ensures |r| < |p|
  {
    var c := Div(p[0], e[0]);
    var r := Sum(p, Scale(c, e) + Zeros(|p| - |e|));
    AddCancels(p[0], p[0]);
    Strip(r)
  }

  ghost function Remainder(p: Poly, e: Poly): (r: Poly)
    requires |e| > 0 && e[0] != 0
    ensures |r| < |e|
    decreases |p|
  {
    if |p| < |e| then p else Remainder(DivisionStep(p, e), e)
  }

  function PadLeft(p: Poly, n: nat): (r: Poly)
    requires |p| <= n
    ensures |r| == n
  {
    Zeros(n - |p|) + p
  }

  lemma {:induction false} ProductLeadingZeros(k: nat, q: Poly, e: Poly)
    requires |e| > 0
    ensures Product(Zeros(k) + q, e) == Zeros(k) + Product(q, e)
  {
    if k == 0 {
      assert Zeros(0) + q == q;
    } else {
      ProductLeadingZeros(k - 1, q, e);
      ProductZeroHead(Zeros(k - 1) + q, e);
      ZerosCons(k, q);
      ZerosCons(k, Product(q, e));
    }
  }

  lemma ZerosCons(k: nat, q: Poly)
    requires k > 0
    ensures Zeros(k) + q == [0] + (Zeros(k - 1) + q)
  {}

  lemma ProductZeroHead(q: Poly, e: Poly)
    requires |e| > 0
    ensures Product([0] + q, e) == [0] + Product(q, e)
  {
    ProductCons(0, q, e);
    ScaleZero(e, |q|);
    SumZeros([0] + Product(q, e));
  }

  lemma ScaleZero(e: Poly, n: nat)
    ensures Scale(0, e) + Zeros(n) == Zeros(|e| + n)
  {}

  lemma {:induction false} ProductZeros(n: nat, e: Poly)
    requires |e| > 0
    ensures Product(Zeros(n), e) == Zeros(n + |e| - 1)
  {
    assert Zeros(n) + [] == Zeros(n);
    ProductLeadingZeros(n, [], e);
  }

  /** p = q e + r with r shorter than e: mod really computes the remainder of a division. */
  lemma {:induction false} DivisionTheorem(p: Poly, e: Poly, n: nat) returns (q: Poly)
    requires |e| > 0 && e[0] != 0
    requires n >= |p| && n + 1 >= |e|
    ensures |q| == n + 1 - |e|
    ensures PadLeft(p, n) == Sum(Product(q, e), PadLeft(Remainder(p, e), n))
    decreases |p|
  {
    if |p| < |e| {
      q := Zeros(n + 1 - |e|);
      ProductZeros(|q|, e);
      SumZeros(PadLeft(p, n));
    } else {
      var c := Div(p[0], e[0]);
      var q' := DivisionTheorem(DivisionStep(p, e), e, |p| - 1);
      var r := Remainder(p, e);
      StepPads(p, e);
      DivisionCons(p, e, c, q', r, PadLeft(DivisionStep(p, e), |p| - 1), Product(q', e));
      q := PadQuotient(p, [c] + q', e, r, n);
    }
  }

  lemma PadQuotient(p: Poly, q0: Poly, e: Poly, r: Poly, n: nat) returns (q: Poly)
    requires |e| > 0 && |r| <= |p| <= n && |q0| + |e| == |p| + 1
    requires p == Sum(Product(q0, e), PadLeft(r, |p|))
    ensures |q| + |e| == n + 1 && PadLeft(p, n) == Sum(Product(q, e), PadLeft(r, n))
  {
    q := Zeros(n - |p|) + q0;
    ProductLeadingZeros(n - |p|, q0, e);
    PadSum(Product(q0, e), PadLeft(r, |p|), n);
    assert PadLeft(PadLeft(r, |p|), n) == PadLeft(r, n);
  }

  lemma PadSum(p: Poly, q: Poly, n: nat)
    requires |p| == |q| <= n
    ensures PadLeft(Sum(p, q), n) == Sum(PadLeft(p, n), PadLeft(q, n))
  {
    var l, r := PadLeft(Sum(p, q), n), Sum(PadLeft(p, n), PadLeft(q, n));
    forall k | 0 <= k < n
      ensures l[k] == r[k]
    {
      AddLaws(0, 0, 0);
    }
  }

  lemma DivisionCons(p: Poly, e: Poly, c: Byte, q: Poly, r: Poly, step: Poly, multiple: Poly)
    requires |e| > 0 && |r| < |e| && |p| == |q| + |e| == |step| + 1
    requires [0] + step == Sum(p, Scale(c, e) + Zeros(|q|))
    requires multiple == Product(q, e) && step == Sum(multiple, PadLeft(r, |p| - 1))
    ensures p == Sum(Product([c] + q, e), PadLeft(r, |p|))
  {
    ProductCons(c, q, e);
    UndoDivisionStep(p, e, c, |q|, r, step, multiple);
  }

  lemma UndoDivisionStep(p: Poly, e: Poly, c: Byte, n: nat, r: Poly, step: Poly, multiple: Poly)
    requires |r| < |e| && |p| == n + |e| == |step| + 1 && |multiple| == |step|
    requires [0] + step == Sum(p, Scale(c, e) + Zeros(n)) && step == Sum(multiple, PadLeft(r, |p| - 1))
    ensures p == Sum(Sum([0] + multiple, Scale(c, e) + Zeros(n)), PadLeft(r, |p|))
  {
    PadLeftCons(r, |p|);
    UndoStep(p, Scale(c, e) + Zeros(n), step, multiple, PadLeft(r, |p| - 1));
  }

  lemma UndoStep(p: Poly, s: Poly, step: Poly, a: Poly, r: Poly)
    requires |p| == |s| == |step| + 1 && |a| == |r| == |step|
    requires [0] + step == Sum(p, s) && step == Sum(a, r)
    ensures p == Sum(Sum([0] + a, s), [0] + r)
  {
    SumAppendZero(a, r);
    SumTranspose(p, s, [0] + a, [0] + r);
  }

  lemma StepPads(p: Poly, e: Poly)
    requires |p| >= |e| > 0 && e[0] != 0
    ensures [0] + PadLeft(DivisionStep(p, e), |p| - 1) == Sum(p, Scale(Div(p[0], e[0]), e) + Zeros(|p| - |e|))
  {
    PadLeftCons(DivisionStep(p, e), |p|);
  }

  lemma PadLeftCons(p: Poly, n: nat)
    requires |p| < n
    ensures [0] + PadLeft(p, n - 1) == PadLeft(p, n)
  {}

  lemma SumTranspose(p: Poly, s: Poly, a: Poly, r: Poly)
    requires |p| == |s| == |a| == |r| && Sum(p, s) == Sum(a, r)
    ensures p == Sum(Sum(a, s), r)
  {
    forall k | 0 <= k < |p|
      ensures p[k] == Sum(Sum(a, s), r)[k]
    {
      assert Sum(p, s)[k] == Sum(a, r)[k];
      AddCancels(p[k], s[k]);
      AddLaws(a[k], r[k], s[k]);
      AddLaws(r[k], s[k], a[k]);
      AddLaws(a[k], s[k], r[k]);
    }
  }

  /** A nonzero multiple of e has a nonzero coefficient in its first |q| places ... */
  lemma {:induction false} ProductVanishes(q: Poly, e: Poly)
    requires |e| > 0 && e[0] != 0
    requires forall k | 0 <= k < |q| :: Product(q, e)[k] == 0
    ensures q == Zeros(|q|)
  {
    if |q| > 0 {
      var c, q' := q[0], q[1..];
      assert q == [c] + q';
      ProductCons(c, q', e);
      var s := Scale(c, e) + Zeros(|q'|);
      AddLaws(s[0], 0, 0);
      NoZeroDivisors(c, e[0]);
      forall k | 0 <= k < |q'|
        ensures Product(q', e)[k] == 0
      {
        assert s[k + 1] == 0;
        AddLaws(Product(q', e)[k], 0, 0);
        assert Product(q, e)[k + 1] == 0;
      }
      ProductVanishes(q', e);
    }
  }

  lemma {:induction false} ProductSum(q: Poly, q': Poly, e: Poly)
    requires |e| > 0 && |q| == |q'|
    ensures Product(Sum(q, q'), e) == Sum(Product(q, e), Product(q', e))
  {
    var n := |q| - 1;
    if n < 0 {
      SumZeros(Zeros(|e| - 1));
    } else {
      var p, p' := q[..n], q'[..n];
      ProductSum(p, p', e);
      assert q == p + [q[n]] && q' == p' + [q'[n]];
      assert Sum(q, q') == Sum(p, p') + [Add(q[n], q'[n])];
      ProductSnoc(p, q[n], e);
      ProductSnoc(p', q'[n], e);
      ProductSnoc(Sum(p, p'), Add(q[n], q'[n]), e);
      SumAppendZero(Product(p, e), Product(p', e));
      SumOfScales(n, q[n], q'[n], e);
      SumSwap(Product(p, e) + [0], Zeros(n) + Scale(q[n], e), Product(p', e) + [0], Zeros(n) + Scale(q'[n], e));
    }
  }

  lemma SumOfScales(n: nat, c: Byte, c': Byte, e: Poly)
    ensures Zeros(n) + Scale(Add(c, c'), e) == Sum(Zeros(n) + Scale(c, e), Zeros(n) + Scale(c', e))
  {
    var l, r := Zeros(n) + Scale(Add(c, c'), e), Sum(Zeros(n) + Scale(c, e), Zeros(n) + Scale(c', e));
    forall k | 0 <= k < |l|
      ensures l[k] == r[k]
    {
      AddLaws(0, 0, 0);
      if k >= n { MulDistributes(c, c', e[k - n]); }
    }
  }

  lemma SumSwap(p: Poly, q: Poly, r: Poly, s: Poly)
    requires |p| == |q| == |r| == |s|
    ensures Sum(Sum(p, q), Sum(r, s)) == Sum(Sum(p, r), Sum(q, s))
  {
    forall k | 0 <= k < |p|
      ensures Sum(Sum(p, q), Sum(r, s))[k] == Sum(Sum(p, r), Sum(q, s))[k]
    {
      AddSwap(p[k], q[k], r[k], s[k]);
    }
  }

  /** ... so the remainder of a division is unique. */
  lemma RemainderUnique(e: Poly, n: nat, q: Poly, r: Poly, q': Poly, r': Poly)
    requires |e| > 0 && e[0] != 0 && |q| == |q'| == n + 1 - |e|
    requires |r| < |e| && |r'| < |e| && n + 1 >= |e|
    requires Sum(Product(q, e), PadLeft(r, n)) == Sum(Product(q', e), PadLeft(r', n))
    ensures q == q' && PadLeft(r, n) == PadLeft(r', n)
  {
    var d, a, b := Sum(q, q'), PadLeft(r, n), PadLeft(r', n);
    var u, v := Product(q, e), Product(q', e);
    ProductSum(q, q', e);
    forall k | 0 <= k < n
      ensures Add(u[k], v[k]) == Add(a[k], b[k])
    {
      assert Sum(u, a)[k] == Sum(v, b)[k];
      BalanceAt(u[k], a[k], v[k], b[k]);
    }
    AddLaws(0, 0, 0);
    assert forall k | 0 <= k < |d| :: Product(d, e)[k] == Sum(u, v)[k] == Add(a[k], b[k]);
    ProductVanishes(d, e);
    forall k | 0 <= k < |q|
      ensures q[k] == q'[k]
    {
      assert d[k] == 0;
      AddCancels(q[k], q'[k]);
    }
    assert q == q';
    forall k | 0 <= k < n
      ensures a[k] == b[k]
    {
      AddCancels(u[k], u[k]);
      AddCancels(a[k], b[k]);
    }
  }

  lemma BalanceAt(u: Byte, a: Byte, v: Byte, b: Byte)
    requires Add(u, a) == Add(v, b)
    ensures Add(u, v) == Add(a, b)
  {
    AddCancels(Add(u, a), Add(v, b));
    AddSwap(u, a, v, b);
    AddCancels(Add(u, v), Add(a, b));
  }

  // ----- a polynomial with few terms cannot vanish at many consecutive powers of alpha

  /** The number of nonzero coefficients */
  function Weight(p: Poly): (w: nat)
    ensures w <= |p|
  {
    if |p| == 0 then 0 else Weight(p[..|p| - 1]) + (if p[|p| - 1] != 0 then 1 else 0)
  }

  lemma {:induction false} WeightLess(p: Poly, t: Poly, d: nat)
    requires |p| == |t| && d < |p| && p[d] != 0 && t[d] == 0
    requires forall k | 0 <= k < |p| && p[k] == 0 :: t[k] == 0
    ensures Weight(t) < Weight(p)
  {
    var n := |p| - 1;
    if d == n { WeightAtMost(p[..n], t[..n]); } else { WeightLess(p[..n], t[..n], d); }
  }

  lemma {:induction false} WeightAtMost(p: Poly, t: Poly)
    requires |p| == |t|
    requires forall k | 0 <= k < |p| && p[k] == 0 :: t[k] == 0
    ensures Weight(t) <= Weight(p)
  {
    if |p| > 0 { WeightAtMost(p[..|p| - 1], t[..|p| - 1]); }
  }

  lemma {:induction false} WeightFull(p: Poly)
    requires Weight(p) == |p|
    ensures forall k | 0 <= k < |p| :: p[k] != 0
  {
    if |p| > 0 { WeightFull(p[..|p| - 1]); }
  }

  /** Each coefficient times alpha to its degree: evaluates like p at alpha times the argument. */
  function Twist(p: Poly): (r: Poly)
    ensures |r| == |p|
  {
    seq(|p|, i requires 0 <= i < |p| => Mul(p[i], Alpha(|p| - 1 - i)))
  }

  lemma {:induction false} EvalTwist(p: Poly, x: Byte)
    ensures Eval(Twist(p), x) == Eval(p, Double(x))
  {
    var n := |p| - 1;
    if n >= 0 {
      var high := p[..n];
      forall i | 0 <= i < n
        ensures Twist(p)[i] == Scale(2, Twist(high))[i]
      {
        MulDouble(p[i], Alpha(n - 1 - i));
        MulTwo(Twist(high)[i]);
      }
      assert Twist(p)[..n] == Scale(2, Twist(high));
      EvalScale(2, Twist(high), x);
      EvalTwist(high, x);
      var u := Eval(high, Double(x));
      MulTwo(u);
      MulDouble(x, u);
      MulCommutes(x, u);
      MulCommutes(Double(u), x);
      MulDouble(u, x);
      MulOne(p[n]);
    }
  }

  lemma MulTwo(a: Byte)
    ensures Mul(2, a) == Double(a)
  {
    MulDouble(a, 1);
    MulOne(a);
    MulCommutes(2, a);
  }

  /** The terms of p except the one at index d, each scaled by a nonzero factor */
  function DropTerm(p: Poly, d: nat): (r: Poly)
    requires d < |p|
    ensures |r| == |p|
  {
    Sum(Twist(p), Scale(Alpha(|p| - 1 - d), p))
  }

  lemma DropTermAt(p: Poly, d: nat, k: nat)
    requires d < |p| <= 255 && k < |p|
    ensures DropTerm(p, d)[k] == 0 <==> k == d || p[k] == 0
  {
    TwoTerms(p[k], |p| - 1 - k, |p| - 1 - d);
  }

  lemma TwoTerms(a: Byte, i: nat, j: nat)
    requires i < 255 && j < 255
    ensures Add(Mul(a, Alpha(i)), Mul(Alpha(j), a)) == 0 <==> i == j || a == 0
  {
    MulCommutes(Alpha(j), a);
    MulAdd(a, Alpha(i), Alpha(j));
    NoZeroDivisors(a, Add(Alpha(i), Alpha(j)));
    AddCancels(Alpha(i), Alpha(j));
    if i < j { AlphaInjective(i, j); }
    if j < i { AlphaInjective(j, i); }
  }

  lemma EvalDropTerm(p: Poly, d: nat, i: nat)
    requires d < |p|
    requires Eval(p, Alpha(i)) == 0 && Eval(p, Alpha(i + 1)) == 0
    ensures Eval(DropTerm(p, d), Alpha(i)) == 0
  {
    var c := Alpha(|p| - 1 - d);
    EvalSum(Twist(p), Scale(c, p), Alpha(i));
    EvalTwist(p, Alpha(i));
    EvalScale(c, p, Alpha(i));
    MulZero(c);
  }

  /**
   A polynomial of degree below 255 with at most n terms that vanishes at alpha^0 .. alpha^(n-1)
   is zero.
   */
  lemma {:induction false} SparseVanishing(p: Poly, n: nat)
    requires |p| <= 255 && Weight(p) <= n
    requires forall i: nat | i < n :: Eval(p, Alpha(i)) == 0
    ensures p == Zeros(|p|)
    decreases n
  {
    if d: nat :| d < |p| && p[d] != 0 {
      var t := DropTerm(p, d);
      forall k: nat | k < |p|
        ensures t[k] == 0 <==> k == d || p[k] == 0
      {
        DropTermAt(p, d, k);
      }
      WeightLess(p, t, d);
      forall i: nat | i < n - 1
        ensures Eval(t, Alpha(i)) == 0
      {
        EvalDropTerm(p, d, i);
      }
      SparseVanishing(t, n - 1);
      EvalMonomial(p, d);
    }
  }

  lemma EvalMonomial(p: Poly, d: nat)
    requires d < |p| && forall k | 0 <= k < |p| && k != d :: p[k] == 0
    ensures Eval(p, Alpha(0)) == p[d]
  {
    assert p == Zeros(d) + ([p[d]] + Zeros(|p| - 1 - d));
    var rest := Zeros(|p| - 1 - d);
    EvalLeadingZeros(d, [p[d]] + rest, 1);
    EvalConcat([p[d]], rest, 1);
    EvalZeros(|rest|, 1);
    ExpOne(|rest|);
    MulOne(p[d]);
    MulZero(0);
    assert [p[d]][..0] == [];
  }

  lemma {:induction false} ExpOne(n: nat)
    ensures Exp(1, n) == 1
  {
    if n > 0 {
      ExpOne(n - 1);
      MulOne(1);
    }
  }
}
