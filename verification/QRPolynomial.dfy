/**
 The polynomial operations of the encoder, in its own table-driven form. A polynomial object is
 immutable once built, so it is a coefficient sequence here; array holes count as zeros.
 */
module QRPolynomials {
  import opened GaloisField
  import opened Outcomes
  import opened Polynomials
  import opened QRMathTables
  import opened ReedSolomon

  /** The constructor: drops leading zeros, then appends shift zero coefficients. */
  method NewPolynomial(num: Poly, shift: nat) returns (p: Poly)
    ensures p == Strip(num) + Zeros(shift)
    ensures shift == 0 ==> p == Strip(num)
  {
    var offset := 0;
    while offset < |num| && num[offset] == 0
      invariant 0 <= offset <= |num| && Strip(num) == Strip(num[offset..])
    {
      StripZeroHead(num, offset);
      offset := offset + 1;
    }
    StripFrom(num, offset);
    p := CopyFrom(num, offset, shift);
  }

  method CopyFrom(num: Poly, offset: nat, shift: nat) returns (p: Poly)
    requires offset <= |num|
    ensures p == num[offset..] + Zeros(shift)
  {
    var n := |num| - offset;
    var cells := new Byte[n + shift](_ => 0);
    for i := 0 to n
      invariant forall k | 0 <= k < i :: cells[k] == num[k + offset]
      invariant forall k | i <= k < n + shift :: cells[k] == 0
    {
      cells[i] := num[i + offset];
    }
    p := cells[..];
  }

  lemma StripZeroHead(num: Poly, i: nat)
    requires i < |num| && num[i] == 0
    ensures Strip(num[i..]) == Strip(num[i + 1..])
  {
    assert num[i..][1..] == num[i + 1..];
  }

  lemma StripFrom(num: Poly, i: nat)
    requires i <= |num| && (i == |num| || num[i] != 0)
    ensures Strip(num[i..]) == num[i..]
  {}

  /** Multiplication as the tables do it: add the logarithms. */
  lemma MulByLogs(a: Byte, b: Byte)
    requires a != 0 && b != 0
    ensures Alpha((Log(a) + Log(b)) % 255) == Mul(a, b)
  {
    AlphaAdd(Log(a), Log(b));
    AlphaMod(Log(a) + Log(b));
  }

  lemma LogOfProduct(a: Byte, b: Byte)
    requires a != 0 && b != 0
    ensures Mul(a, b) != 0 && Log(Mul(a, b)) == (Log(a) + Log(b)) % 255
  {
    MulByLogs(a, b);
    LogAlpha((Log(a) + Log(b)) % 255);
  }

  /** Division as the tables do it: subtract the logarithms. */
  lemma DivByLogs(a: Byte, b: Byte, x: Byte)
    requires a != 0 && b != 0 && x != 0
    ensures Alpha((Log(x) + (Log(a) - Log(b))) % 255) == Mul(Div(a, b), x)
  {
    hide Alpha, Mul, Log;
    var c := Div(a, b);
    NoZeroDivisors(c, b);
    LogOfProduct(c, b);
    MulByLogs(c, x);
    SameResidue(Log(a), Log(b), Log(c), Log(x));
  }

  lemma SameResidue(a: nat, b: nat, c: nat, x: nat)
    requires a == (c + b) % 255
    ensures (x + (a - b)) % 255 == (c + x) % 255
  {}

  // ----- multiply

  ghost predicate HasZero(p: Poly) {
    exists k :: 0 <= k < |p| && p[k] == 0
  }

  /** c * e as it enters the product: after i more significant and before n less significant places */
  function Row(i: nat, c: Byte, e: Poly, n: nat): (r: Poly)
    ensures |r| == i + |e| + n
  {
    Zeros(i) + Scale(c, e) + Zeros(n)
  }

  lemma ProductRow(p: Poly, c: Byte, e: Poly, n: nat)
    requires |e| > 0
    ensures Sum(Product(p, e) + Zeros(n + 1), Row(|p|, c, e, n)) == Product(p + [c], e) + Zeros(n)
  {
    ProductSnoc(p, c, e);
    RowAlgebra(Product(p, e), Zeros(|p|) + Scale(c, e), n);
  }

  lemma RowAlgebra(p: Poly, s: Poly, n: nat)
    requires |p| + 1 == |s|
    ensures Sum(p + Zeros(n + 1), s + Zeros(n)) == Sum(p + [0], s) + Zeros(n)
  {
    var l, r := Sum(p + Zeros(n + 1), s + Zeros(n)), Sum(p + [0], s) + Zeros(n);
    AddLaws(0, 0, 0);
    assert forall k | 0 <= k < |l| :: l[k] == r[k];
  }

  /** The product of two coefficients, as the inner loop computes it */
  method ProductByLogs(math: QRMath, a: Byte, b: Byte) returns (r: Outcome<Byte>)
    requires math.Valid()
    ensures r == if a == 0 || b == 0 then Thrown else Returned(Mul(a, b))
  {
    hide QRMath.Valid, Alpha, Mul, Log;
    var l := math.Glog(a);
    if l.Thrown? { return Thrown; }
    var m := math.Glog(b);
    if m.Thrown? { return Thrown; }
    var term := math.Gexp(l.value + m.value);
    MulByLogs(a, b);
    return Returned(term);
  }

  lemma RowAdded(num: Poly, was: Poly, i: nat, c: Byte, e: Poly, n: nat)
    requires |num| == |was| == i + |e| + n
    requires forall k | 0 <= k < |e| :: num[i + k] == Add(was[i + k], Mul(c, e[k]))
    requires forall k | 0 <= k < |num| && !(i <= k < i + |e|) :: num[k] == was[k]
    ensures num == Sum(was, Row(i, c, e, n))
  {
    hide Add, Mul;
    var row := Row(i, c, e, n);
    forall k | 0 <= k < |num|
      ensures num[k] == Add(was[k], row[k])
    {
      if i <= k < i + |e| {
        assert row[k] == Mul(c, e[k - i]) && num[i + (k - i)] == num[k];
      } else {
        assert row[k] == 0;
        AddLaws(was[k], 0, 0);
      }
    }
  }

  /** The inner loop: adds a[i] * e into num from position i on. */
  method AddRow(math: QRMath, num: array<Byte>, a: Poly, e: Poly, i: nat) returns (thrown: bool)
    requires math.Valid() && num != math.expTable
    requires i < |a| && |e| > 0 && num.Length == |a| + |e| - 1
    modifies num
    ensures thrown <==> a[i] == 0 || HasZero(e)
    ensures !thrown ==> num[..] == Sum(old(num[..]), Row(i, a[i], e, |a| - 1 - i))
  {
    ghost var was := num[..];
    for j := 0 to |e|
      invariant math.Valid()
      invariant j > 0 ==> a[i] != 0
      invariant forall k | 0 <= k < j :: e[k] != 0 && num[i + k] == Add(was[i + k], Mul(a[i], e[k]))
      invariant forall k | 0 <= k < num.Length && !(i <= k < i + j) :: num[k] == was[k]
    {
      hide QRMath.Valid;
      var term := ProductByLogs(math, a[i], e[j]);
      if term.Thrown? {
        assert a[i] != 0 ==> e[j] == 0;
        return true;
      }
      num[i + j] := Add(num[i + j], term.value);
    }
    RowAdded(num[..], was, i, a[i], e, |a| - 1 - i);
    return false;
  }

  /** Both loops of multiply */
  method AddRows(math: QRMath, num: array<Byte>, a: Poly, e: Poly) returns (thrown: bool)
    requires math.Valid() && num != math.expTable
    requires |e| > 0 && num.Length == |a| + |e| - 1 && num[..] == Zeros(num.Length)
    modifies num
    ensures thrown <==> a != [] && (HasZero(a) || HasZero(e))
    ensures !thrown ==> num[..] == Product(a, e)
  {
    assert num[..] == Product(a[..0], e) + Zeros(|a|);
    for i := 0 to |a|
      invariant forall k | 0 <= k < i :: a[k] != 0
      invariant i > 0 ==> !HasZero(e)
      invariant num[..] == Product(a[..i], e) + Zeros(|a| - i)
    {
      thrown := AddRow(math, num, a, e, i);
      if thrown { return; }
      ProductRow(a[..i], a[i], e, |a| - 1 - i);
      assert a[..i + 1] == a[..i] + [a[i]];
    }
    assert a[..|a|] == a;
    return false;
  }

  /** this.multiply(e): throws when it has to take the logarithm of a zero coefficient. */
  method Multiply(math: QRMath, a: Poly, e: Poly) returns (r: Outcome<Poly>)
    requires math.Valid()
    ensures r.Thrown? <==> (a == [] && e == []) || (a != [] && e != [] && (HasZero(a) || HasZero(e)))
    ensures r.Returned? ==> r.value == if a == [] || e == [] then Zeros(|a| + |e| - 1) else Strip(Product(a, e))
  {
    if |a| + |e| < 1 { return Thrown; }
    var num := new Byte[|a| + |e| - 1](_ => 0);
    if |a| == 0 || |e| == 0 {
      // no cell is written, and the constructor does not strip the holes of an array
      return Returned(num[..]);
    }
    var thrown := AddRows(math, num, a, e);
    if thrown { return Thrown; }
    var p := NewPolynomial(num[..], 0);
    return Returned(p);
  }

  // ----- mod

  /** The multiple of a divisor's coefficient x, for a ratio of a to b in logarithms */
  method QuotientByLogs(math: QRMath, x: Byte, ratio: int, ghost a: Byte, ghost b: Byte) returns (r: Outcome<Byte>)
    requires math.Valid() && a != 0 && b != 0 && ratio == Log(a) - Log(b)
    ensures r == if x == 0 then Thrown else Returned(Mul(Div(a, b), x))
  {
    hide QRMath.Valid, Alpha, Mul, Log;
    var l := math.Glog(x);
    if l.Thrown? { return Thrown; }
    var term := math.Gexp(l.value + ratio);
    DivByLogs(a, b, x);
    return Returned(term);
  }

  /** One level of mod: cancels the leading coefficient of a with a multiple of e. */
  method CancelLeading(math: QRMath, a: Poly, e: Poly) returns (r: Outcome<Poly>)
    requires math.Valid() && |a| >= |e| > 0
    ensures r.Thrown? <==> a[0] == 0 || HasZero(e)
    ensures r.Returned? ==> e[0] != 0 && r.value == Sum(a, Scale(Div(a[0], e[0]), e) + Zeros(|a| - |e|))
  {
    var la := math.Glog(a[0]);
    if la.Thrown? { return Thrown; }
    var le := math.Glog(e[0]);
    if le.Thrown? {
      assert e[0] == 0;
      return Thrown;
    }
    var ratio := la.value - le.value;
    var num := new Byte[|a|];
    for i := 0 to |a|
      invariant math.Valid()
      invariant forall k | 0 <= k < i :: num[k] == a[k]
    {
      hide QRMath.Valid;
      num[i] := a[i];
    }
    ghost var c := Div(a[0], e[0]);
    for x := 0 to |e|
      invariant math.Valid()
      invariant forall k | 0 <= k < x :: e[k] != 0 && num[k] == Add(a[k], Mul(c, e[k]))
      invariant forall k | x <= k < |a| :: num[k] == a[k]
    {
      hide QRMath.Valid, Mul, Log, Add;
      var term := QuotientByLogs(math, e[x], ratio, a[0], e[0]);
      if term.Thrown? {
        assert e[x] == 0;
        return Thrown;
      }
      num[x] := Add(num[x], term.value);
    }
    AddMultiple(num[..], a, c, e);
    return Returned(num[..]);
  }

  lemma AddMultiple(num: Poly, a: Poly, c: Byte, e: Poly)
    requires |num| == |a| >= |e|
    requires forall k | 0 <= k < |e| :: num[k] == Add(a[k], Mul(c, e[k]))
    requires forall k | |e| <= k < |a| :: num[k] == a[k]
    ensures num == Sum(a, Scale(c, e) + Zeros(|a| - |e|))
  {
    forall k | 0 <= k < |a|
      ensures num[k] == Sum(a, Scale(c, e) + Zeros(|a| - |e|))[k]
    {
      AddLaws(a[k], 0, 0);
    }
  }

  /**
   this.mod(e): throws when it has to take the logarithm of a zero coefficient, and otherwise
   terminates with the remainder of the division. An empty divisor leaves nothing to subtract: the
   recursion overflows the stack, which throws as well.
   */
  method Mod(math: QRMath, a: Poly, e: Poly) returns (r: Outcome<Poly>)
    requires math.Valid()
    ensures r.Thrown? <==> e == [] || (|a| >= |e| && (a[0] == 0 || HasZero(e)))
    ensures r.Returned? ==> r.value == if |a| < |e| then a else Remainder(a, e)
    decreases |a|
  {
    if |e| == 0 { return Thrown; }
    if |a| - |e| < 0 { return Returned(a); }
    var num := CancelLeading(math, a, e);
    if num.Thrown? { return Thrown; }
    var step := NewPolynomial(num.value, 0);
    assert step == DivisionStep(a, e);
    r := Mod(math, step, e);
  }

  // ----- the generator polynomial

  /** getErrorCorrectPolynomial: builds the generator, and throws exactly from degree 256 on. */
  method GetErrorCorrectPolynomial(math: QRMath, errorCorrectLength: nat) returns (r: Outcome<Poly>)
    requires math.Valid()
    ensures r.Thrown? <==> errorCorrectLength >= 256
    ensures r.Returned? ==> r.value == Generator(errorCorrectLength)
  {
    var a := NewPolynomial([1], 0);
    for i := 0 to errorCorrectLength
      invariant i <= 255 && a == Generator(i)
    {
      var root := math.Gexp(i);
      AlphaMod(i);
      var factor := NewPolynomial([1, root], 0);
      GeneratorZeros(i);
      GeneratorStep(i);
      var next := Multiply(math, a, factor);
      if next.Thrown? { return Thrown; }
      a := next.value;
    }
    return Returned(a);
  }

  lemma GeneratorStep(i: nat)
    ensures Strip([1, Alpha(i)]) == [1, Alpha(i)] && !HasZero([1, Alpha(i)])
    ensures Strip(Product(Generator(i), [1, Alpha(i)])) == Generator(i + 1)
  {
    AlphaNonzero(i);
    GeneratorMonic(i + 1);
  }

  lemma GeneratorZeros(i: nat)
    requires i <= 255
    ensures HasZero(Generator(i)) <==> i == 255
  {
    if i == 255 {
      Generator255(i);
      assert Generator(i)[1] == 0;
    } else {
      GeneratorNonzero(i);
    }
  }
}
