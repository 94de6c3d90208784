/** Exclusive or and binary digits of natural numbers. */
module Bitwise {

  function Pow2(n: nat): (r: nat)
    ensures r >= 1
  {
    if n == 0 then 1 else 2 * Pow2(n - 1)
  }

  function Digit(b: bool): int {
    if b then 1 else 0
  }

  /** Bitwise exclusive or, one binary digit at a time. */
  function Xor(a: nat, b: nat): nat {
    if a == 0 then b
    else if b == 0 then a
    else 2 * Xor(a / 2, b / 2) + (a + b) % 2
  }

  lemma XorStep(a: nat, b: nat)
    ensures Xor(a, b) / 2 == Xor(a / 2, b / 2) && Xor(a, b) % 2 == (a + b) % 2
  {}

  lemma XorDigits(a: nat, b: nat, p: bool, q: bool)
    ensures Xor(2 * a + Digit(p), 2 * b + Digit(q)) == 2 * Xor(a, b) + Digit(p != q)
  {
    var x, y := 2 * a + Digit(p), 2 * b + Digit(q);
    assert x / 2 == a && y / 2 == b && (x + y) % 2 == Digit(p != q);
    XorStep(x, y);
  }

  lemma XorDouble(a: nat, b: nat)
    ensures Xor(2 * a, 2 * b) == 2 * Xor(a, b)
  {
    XorDigits(a, b, false, false);
  }

  function ShiftLeft(a: nat, n: nat): nat {
    if n == 0 then a else 2 * ShiftLeft(a, n - 1)
  }

  lemma {:induction false} ShiftLeftXor(a: nat, b: nat, n: nat)
    ensures ShiftLeft(Xor(a, b), n) == Xor(ShiftLeft(a, n), ShiftLeft(b, n))
  {
    if n > 0 {
      ShiftLeftXor(a, b, n - 1);
      XorDouble(ShiftLeft(a, n - 1), ShiftLeft(b, n - 1));
    }
  }

  lemma {:induction false} ShiftLeftLaws(a: nat, b: nat, n: nat)
    ensures ShiftLeft(2 * a, n) == 2 * ShiftLeft(a, n)
    ensures a <= b ==> ShiftLeft(a, n) <= ShiftLeft(b, n)
    ensures ShiftLeft(0, n) == 0
  {
    if n > 0 { ShiftLeftLaws(a, b, n - 1); }
  }

  lemma {:induction false} XorCommutes(a: nat, b: nat)
    ensures Xor(a, b) == Xor(b, a)
  {
    if a > 0 && b > 0 { XorCommutes(a / 2, b / 2); }
  }

  lemma {:induction false} XorSelf(a: nat)
    ensures Xor(a, a) == 0
  {
    if a > 0 { XorSelf(a / 2); }
  }

  lemma {:induction false} XorAssociates(a: nat, b: nat, c: nat)
    ensures Xor(Xor(a, b), c) == Xor(a, Xor(b, c))
  {
    if a > 0 && b > 0 && c > 0 {
      XorAssociates(a / 2, b / 2, c / 2);
      XorHalves(a, b, c);
    }
  }

  lemma XorHalves(a: nat, b: nat, c: nat)
    requires Xor(Xor(a / 2, b / 2), c / 2) == Xor(a / 2, Xor(b / 2, c / 2))
    ensures Xor(Xor(a, b), c) == Xor(a, Xor(b, c))
  {
    var ab, bc := Xor(a, b), Xor(b, c);
    XorStep(a, b);
    XorStep(b, c);
    XorStep(ab, c);
    XorStep(a, bc);
    Parity(a, b, c, ab, bc, Xor(ab, c), Xor(a, bc));
  }

  lemma Parity(a: nat, b: nat, c: nat, ab: nat, bc: nat, x: nat, y: nat)
    requires ab % 2 == (a + b) % 2 && bc % 2 == (b + c) % 2
    requires x % 2 == (ab + c) % 2 && y % 2 == (a + bc) % 2
    requires x / 2 == y / 2
    ensures x == y
  {}

  /** The digit of weight 2^n of an exclusive or, and a bound on the result. */
  lemma {:induction false} XorTopDigit(a: nat, b: nat, n: nat)
    requires a < 2 * Pow2(n) && b < 2 * Pow2(n)
    ensures Xor(a, b) < 2 * Pow2(n)
    ensures Xor(a, b) >= Pow2(n) <==> (a >= Pow2(n)) != (b >= Pow2(n))
  {
    if n > 0 {
      XorTopDigit(a / 2, b / 2, n - 1);
      XorStep(a, b);
    }
  }

  lemma DivideWithRemainder(n: nat, m: nat) returns (q: nat, r: nat)
    requires m > 0
    ensures n == m * q + r && r < m
  {
    q, r := n / m, n % m;
  }

  lemma {:induction false} Pow2Monotone(m: nat, n: nat)
    requires m <= n
    ensures Pow2(m) <= Pow2(n)
  {
    if m < n { Pow2Monotone(m, n - 1); }
  }

  lemma ModUnique(n: nat, m: nat, q: nat, r: nat)
    requires n == m * q + r && r < m
    ensures n % m == r && n / m == q
  {
    MulStep(m, q, n / m);
    MulStep(m, n / m, q);
  }

  lemma MulStep(m: nat, a: int, b: int)
    ensures a < b ==> m * a + m <= m * b
  {
    if a < b {
      var d: nat := b - a - 1;
      assert b == a + 1 + d;
      assert m * b == m * a + m + m * d;
    }
  }
}
