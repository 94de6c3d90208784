/**
 The Reed-Solomon code of the encoder: the generator polynomial, the error correction bytes of a
 block, and what they guarantee.
 */
module ReedSolomon {
  import opened GaloisField
  import opened Polynomials

  /** (x + 1) (x + alpha) ... (x + alpha^(n-1)) */
  function Generator(n: nat): (g: Poly)
    ensures |g| == n + 1
  {
    if n == 0 then [1] else Product(Generator(n - 1), [1, Alpha(n - 1)])
  }

  ghost predicate VanishesTo(p: Poly, n: nat) {
    forall i: nat | i < n :: Eval(p, Alpha(i)) == 0
  }

  lemma LinearFactor(c: Byte, x: Byte)
    ensures Eval([1, c], x) == Add(x, c)
  {
    assert [1, c][..1] == [1] && [1][..0] == [];
    MulZero(0);
    MulOne(x);
  }

  lemma {:induction false} GeneratorRoots(n: nat)
    ensures VanishesTo(Generator(n), n)
  {
    if n > 0 {
      GeneratorRoots(n - 1);
      var g, f := Generator(n - 1), [1, Alpha(n - 1)];
      forall i: nat | i < n
        ensures Eval(Generator(n), Alpha(i)) == 0
      {
        EvalProduct(g, f, Alpha(i));
        LinearFactor(Alpha(n - 1), Alpha(i));
        AddCancels(Alpha(i), Alpha(n - 1));
        NoZeroDivisors(Eval(g, Alpha(i)), Eval(f, Alpha(i)));
      }
    }
  }

  lemma {:induction false} GeneratorMonic(n: nat)
    ensures Generator(n)[0] == 1
  {
    if n > 0 {
      GeneratorMonic(n - 1);
      ProductLeading(Generator(n - 1), [1, Alpha(n - 1)]);
      MulOne(1);
    }
  }

  lemma ProductLeading(p: Poly, e: Poly)
    requires |p| > 0 && |e| > 0
    ensures Product(p, e)[0] == Mul(p[0], e[0])
  {
    ProductCons(p[0], p[1..], e);
    assert [p[0]] + p[1..] == p;
  }

  /**
   Every coefficient of the generator is nonzero up to degree 254, so multiply and mod never take
   the logarithm of 0.
   */
  lemma GeneratorNonzero(n: nat)
    requires n < 255
    ensures forall k | 0 <= k <= n :: Generator(n)[k] != 0
  {
    var g := Generator(n);
    GeneratorRoots(n);
    GeneratorMonic(n);
    if Weight(g) <= n {
      SparseVanishing(g, n);
    }
    WeightFull(g);
  }

  /** At degree 255 the bound is met: the generator is x^255 + 1, with zeros in between. */
  lemma Generator255(n: nat)
    requires n == 255
    ensures Generator(n) == [1] + Zeros(n - 1) + [1]
  {
    GeneratorRoots(n);
    GeneratorMonic(n);
    forall i: nat | i < n
      ensures Eval([1] + Zeros(n - 1) + [1], Alpha(i)) == 0
    {
      UnityRoots(i, n);
    }
    MonicUnique(Generator(n), [1] + Zeros(n - 1) + [1], n);
  }

  lemma MonicUnique(g: Poly, h: Poly, n: nat)
    requires |g| == |h| == n + 1 && n <= 255 && g[0] == h[0]
    requires VanishesTo(g, n) && VanishesTo(h, n)
    ensures g == h
  {
    var d := Sum(g, h);
    AddCancels(g[0], h[0]);
    forall i: nat | i < n
      ensures Eval(d[1..], Alpha(i)) == 0
    {
      EvalSum(g, h, Alpha(i));
      AddCancels(0, 0);
      assert d == Zeros(1) + d[1..];
      EvalLeadingZeros(1, d[1..], Alpha(i));
    }
    SparseVanishing(d[1..], n);
    forall k | 0 <= k <= n
      ensures g[k] == h[k]
    {
      assert k == 0 || d[1..][k - 1] == 0;
      AddCancels(g[k], h[k]);
    }
  }

  lemma UnityRoots(i: nat, n: nat)
    requires n == 255
    ensures Eval([1] + Zeros(n - 1) + [1], Alpha(i)) == 0
  {
    var x := Alpha(i);
    var p := [1] + Zeros(n - 1);
    assert (p + [1])[..n] == p;
    EvalConcat([1], Zeros(n - 1), x);
    EvalZeros(n - 1, x);
    assert [1][..0] == [];
    MulZero(0);
    MulOne(Exp(x, n - 1));
    ExpAlpha(i, n);
    MulCommutes(x, Exp(x, n - 1));
    AlphaPeriods(0, i);
    AddCancels(1, 1);
    AddLaws(Exp(x, n - 1), 0, 0);
  }

  lemma {:induction false} ExpAlpha(i: nat, n: nat)
    ensures Exp(Alpha(i), n) == Alpha(n * i)
  {
    if n > 0 {
      ExpAlpha(i, n - 1);
      AlphaAdd(i, (n - 1) * i);
      OneMore(i, n);
    }
  }

  lemma OneMore(i: nat, n: nat)
    requires n > 0
    ensures i + (n - 1) * i == n * i
  {}

  // ----- the error correction bytes of a block

  /** What createBytes appends to a data block: the padded remainder of data * x^ecCount. */
  ghost function EcBytes(data: Poly, ecCount: nat): (ec: Poly)
    ensures |ec| == ecCount
  {
    GeneratorMonic(ecCount);
    PadLeft(Remainder(Strip(data) + Zeros(ecCount), Generator(ecCount)), ecCount)
  }

  /** Data followed by its error correction bytes is a multiple of the generator. */
  lemma CodewordVanishes(data: Poly, ecCount: nat)
    ensures VanishesTo(data + EcBytes(data, ecCount), ecCount)
  {
    var p, g, n := Strip(data) + Zeros(ecCount), Generator(ecCount), |data| + ecCount;
    var ec := EcBytes(data, ecCount);
    GeneratorMonic(ecCount);
    GeneratorRoots(ecCount);
    var q := DivisionTheorem(p, g, n);
    PadConcat(Strip(data), Zeros(ecCount), |data|);
    PadTwice(Remainder(p, g), ecCount, n);
    CodewordSum(data, ec);
    MultiplePlusRemainder(data + Zeros(ecCount), q, g, Zeros(|data|) + ec, ecCount);
  }

  lemma PadConcat(p: Poly, z: Poly, n: nat)
    requires |p| <= n
    ensures PadLeft(p + z, n + |z|) == PadLeft(p, n) + z
  {}

  lemma PadTwice(r: Poly, m: nat, n: nat)
    requires |r| <= m <= n
    ensures PadLeft(r, n) == Zeros(n - m) + PadLeft(r, m)
  {}

  lemma MultiplePlusRemainder(raw: Poly, q: Poly, g: Poly, tail: Poly, n: nat)
    requires |g| > 0 && |q| + |g| == |raw| + 1 == |tail| + 1
    requires raw == Sum(Product(q, g), tail) && VanishesTo(g, n)
    ensures VanishesTo(Sum(raw, tail), n)
  {
    forall i: nat | i < n
      ensures Eval(Sum(raw, tail), Alpha(i)) == 0
    {
      var x := Alpha(i);
      EvalSum(Product(q, g), tail, x);
      EvalProduct(q, g, x);
      MulZero(Eval(q, x));
      EvalSum(raw, tail, x);
      AddCancels(Eval(tail, x), Eval(tail, x));
    }
  }

  lemma CodewordSum(data: Poly, ec: Poly)
    ensures data + ec == Sum(data + Zeros(|ec|), Zeros(|data|) + ec)
  {
    forall k | 0 <= k < |data| + |ec|
      ensures (data + ec)[k] == Sum(data + Zeros(|ec|), Zeros(|data|) + ec)[k]
    {
      AddLaws((data + ec)[k], 0, 0);
    }
  }

  // ----- minimum distance

  /** The number of positions in which two words differ */
  function Distance<T(==)>(u: seq<T>, v: seq<T>): nat
    requires |u| == |v|
  {
    if |u| == 0 then 0
    else Distance(u[..|u| - 1], v[..|v| - 1]) + (if u[|u| - 1] == v[|v| - 1] then 0 else 1)
  }

  lemma {:induction false} DistanceIsWeight(u: Poly, v: Poly)
    requires |u| == |v|
    ensures Distance(u, v) == Weight(Sum(u, v))
  {
    var n := |u| - 1;
    if n >= 0 {
      DistanceIsWeight(u[..n], v[..n]);
      assert Sum(u, v)[..n] == Sum(u[..n], v[..n]);
      AddCancels(u[n], v[n]);
    }
  }

  lemma {:induction false} TriangleInequality(u: Poly, v: Poly, w: Poly)
    requires |u| == |v| == |w|
    ensures Distance(u, w) <= Distance(u, v) + Distance(v, w)
    ensures Distance(u, v) == Distance(v, u)
  {
    var n := |u| - 1;
    if n >= 0 { TriangleInequality(u[..n], v[..n], w[..n]); }
  }

  /** Two words with the same syndromes are equal or differ in more than n positions. */
  lemma WordsFarApart(u: Poly, v: Poly, n: nat)
    requires |u| == |v| <= 255 && u != v
    requires VanishesTo(u, n) && VanishesTo(v, n)
    ensures Distance(u, v) >= n + 1
  {
    DistanceIsWeight(u, v);
    if Weight(Sum(u, v)) <= n {
      forall i: nat | i < n
        ensures Eval(Sum(u, v), Alpha(i)) == 0
      {
        EvalSum(u, v, Alpha(i));
        AddCancels(0, 0);
      }
      SparseVanishing(Sum(u, v), n);
      forall k | 0 <= k < |u|
        ensures u[k] == v[k]
      {
        assert Sum(u, v)[k] == 0;
        AddCancels(u[k], v[k]);
      }
    }
  }

  /** Minimum distance: the codewords of two different blocks differ in at least ecCount + 1 bytes. */
  lemma MinimumDistance(data: Poly, data': Poly, ecCount: nat)
    requires |data| == |data'| && |data| + ecCount <= 255 && data != data'
    ensures Distance(data + EcBytes(data, ecCount), data' + EcBytes(data', ecCount)) >= ecCount + 1
  {
    var u, v := data + EcBytes(data, ecCount), data' + EcBytes(data', ecCount);
    CodewordVanishes(data, ecCount);
    CodewordVanishes(data', ecCount);
    assert u[..|data|] == data && v[..|data|] == data';
    WordsFarApart(u, v, ecCount);
  }

  /** The error correction bytes are the only ones that make the word vanish at all the roots. */
  lemma EcBytesUnique(data: Poly, ec: Poly)
    requires |data| + |ec| <= 255
    ensures VanishesTo(data + ec, |ec|) <==> ec == EcBytes(data, |ec|)
  {
    var e := EcBytes(data, |ec|);
    CodewordVanishes(data, |ec|);
    if VanishesTo(data + ec, |ec|) && ec != e {
      assert (data + ec)[|data|..] == ec && (data + e)[|data|..] == e;
      WordsFarApart(data + ec, data + e, |ec|);
      DistanceOfTails(data, ec, e);
    }
  }

  lemma {:induction false} DistanceOfTails(data: Poly, u: Poly, v: Poly)
    requires |u| == |v|
    ensures Distance(data + u, data + v) <= |u|
    decreases |data| + |u|
  {
    var n := |u| - 1;
    if n >= 0 {
      assert (data + u)[..|data| + n] == data + u[..n] && (data + v)[..|data| + n] == data + v[..n];
      DistanceOfTails(data, u[..n], v[..n]);
    } else if |data| > 0 {
      assert data + u == data && data + v == data;
      DistanceSelf(data);
    }
  }

  lemma {:induction false} DistanceSelf<T>(u: seq<T>)
    ensures Distance(u, u) == 0
  {
    if |u| > 0 { DistanceSelf(u[..|u| - 1]); }
  }

  /** Up to ecCount / 2 damaged bytes leave at most one block the received word can come from. */
  lemma CorrectionUnique(word: Poly, data: Poly, data': Poly, ecCount: nat)
    requires |data| == |data'| && |word| == |data| + ecCount <= 255
    requires 2 * Distance(word, data + EcBytes(data, ecCount)) <= ecCount
    requires 2 * Distance(word, data' + EcBytes(data', ecCount)) <= ecCount
    ensures data == data'
  {
    var u, v := data + EcBytes(data, ecCount), data' + EcBytes(data', ecCount);
    TriangleInequality(u, word, v);
    if data != data' { MinimumDistance(data, data', ecCount); }
  }
}
