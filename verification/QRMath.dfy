/** The logarithm and power tables, and the polynomial arithmetic that runs on them. */
module QRMathTables {
  import opened Bitwise
  import opened GaloisField
  import opened Outcomes

  class QRMath {
    const expTable: array<Byte>
    const logTable: array<int>

    ghost predicate Valid()
      reads this, expTable, logTable
    {
      && expTable.Length == 256 && logTable.Length == 256
      && (forall i: nat | i < 256 :: expTable[i] == Alpha(i))
      && (forall i: nat | i < 255 :: logTable[Alpha(i)] == i)
    }

    constructor ()
      ensures Valid() && fresh(expTable) && fresh(logTable)
    {
      var exp := PowerTable();
      var log := LogarithmTable(exp);
      expTable, logTable := exp, log;
    }

    /** One shift per entry up to 128, then the recurrence of the field polynomial */
    static method PowerTable() returns (exp: array<Byte>)
      ensures fresh(exp) && exp.Length == 256
      ensures forall i: nat | i < 256 :: exp[i] == Alpha(i)
    {
      exp := new Byte[256];
      for i := 0 to 8
        invariant forall j: nat | j < i :: exp[j] == Alpha(j)
      {
        SmallPower(i);
        exp[i] := Pow2(i);
      }
      for i := 8 to 256
        invariant forall j: nat | j < i :: exp[j] == Alpha(j)
      {
        AlphaRecurrence(i - 8);
        exp[i] := Add(Add(Add(exp[i - 4], exp[i - 5]), exp[i - 6]), exp[i - 8]);
      }
    }

    static method LogarithmTable(exp: array<Byte>) returns (log: array<int>)
      requires exp.Length == 256 && forall i: nat | i < 256 :: exp[i] == Alpha(i)
      ensures fresh(log) && log.Length == 256
      ensures forall i: nat | i < 255 :: log[Alpha(i)] == i
    {
      log := new int[256];
      for i := 0 to 255
        invariant forall j: nat | j < i :: log[Alpha(j)] == j
      {
        forall j: nat | j < i
          ensures Alpha(j) != Alpha(i)
        {
          AlphaInjective(j, i);
        }
        log[exp[i]] := i;
      }
    }

    /** The discrete logarithm; there is none of 0. */
    method Glog(n: Byte) returns (r: Outcome<int>)
      requires Valid()
      ensures r == if n == 0 then Thrown else Returned(Log(n))
    {
      if n < 1 { return Thrown; }
      assert logTable[Alpha(Log(n))] == Log(n);
      return Returned(logTable[n]);
    }

    /** The power of alpha with any integer exponent, taken modulo 255 */
    method Gexp(exponent: int) returns (r: Byte)
      requires Valid()
      ensures r == Alpha(exponent % 255)
    {
      var n := exponent;
      while n < 0
        invariant n < 256 || n == exponent
        invariant n % 255 == exponent % 255
      {
        FullTurn(n);
        n := n + 255;
      }
      while n >= 256
        invariant n >= 0 && n % 255 == exponent % 255
      {
        FullTurn(n - 255);
        n := n - 255;
      }
      AlphaMod(n);
      return expTable[n];
    }
  }

  lemma FullTurn(n: int)
    ensures (n + 255) % 255 == n % 255
  {}

  lemma {:induction false} SmallPower(i: nat)
    requires i < 8
    ensures Pow2(i) < 256 && Alpha(i) == Pow2(i)
  {
    if i > 0 {
      SmallPower(i - 1);
      Pow2Monotone(i - 1, 6);
    }
  }

  /** The recurrence of the table: alpha^8 = alpha^4 + alpha^3 + alpha^2 + 1 */
  lemma AlphaRecurrence(k: nat)
    ensures Alpha(k + 8) == Add(Add(Add(Alpha(k + 4), Alpha(k + 3)), Alpha(k + 2)), Alpha(k))
  {
    RecurrenceFrom(0, k);
  }

  lemma RecurrenceFrom(m: nat, k: nat)
    requires Alpha(m) == 1 && m == 0
    ensures Alpha(k + m + 8) == Add(Add(Add(Alpha(k + m + 4), Alpha(k + m + 3)), Alpha(k + m + 2)), Alpha(k))
  {
    PowersTo8(m);
    hide *;
    AlphaAdd(m + 8, k);
    AlphaAdd(m + 4, k);
    AlphaAdd(m + 3, k);
    AlphaAdd(m + 2, k);
    RecurrenceTimes(Alpha(k));
  }

  /** 29 = 16 + 8 + 4 + 1, times any byte */
  lemma RecurrenceTimes(v: Byte)
    ensures Mul(29, v) == Add(Add(Add(Mul(16, v), Mul(8, v)), Mul(4, v)), v)
  {
    SumsOfPowers();
    hide *;
    MulOne(v);
    MulDistributes(28, 1, v);
    MulDistributes(24, 4, v);
    MulDistributes(16, 8, v);
  }

  lemma PowersTo8(m: nat)
    requires Alpha(m) == 1
    ensures Alpha(m + 2) == 4 && Alpha(m + 3) == 8 && Alpha(m + 4) == 16 && Alpha(m + 8) == 29
    ensures Add(16, 8) == 24 && Add(24, 4) == 28 && Add(28, 1) == 29
  {
    PowersTo4(m);
    PowerOf8(m);
    hide *;
    SumsOfPowers();
  }

  lemma PowersTo4(m: nat)
    requires Alpha(m) == 1
    ensures Alpha(m + 2) == 4 && Alpha(m + 3) == 8 && Alpha(m + 4) == 16
  {
    Jump(m, false, false, false, false, false, false, false, true, 2);
    Jump(m, false, false, false, false, false, false, false, true, 3);
    Jump(m, false, false, false, false, false, false, false, true, 4);
  }

  lemma PowerOf8(m: nat)
    requires Alpha(m) == 1
    ensures Alpha(m + 8) == 29
  {
    Jump(m, false, false, false, false, false, false, false, true, 8);
  }

  lemma SumsOfPowers()
    ensures Add(16, 8) == 24 && Add(24, 4) == 28 && Add(28, 1) == 29
  {}
}
