/** Numbers as bit sequences, most significant bit first, and bytes as groups of eight bits. */
module BitStreams {
  import opened Bitwise
  import opened GaloisField

  type Bits = seq<bool>

  /** (n >>> k) & 1 */
  function Bit(n: nat, k: nat): bool {
    if k == 0 then n % 2 == 1 else Bit(n / 2, k - 1)
  }

  function ToBits(n: nat, length: nat): (b: Bits)
    ensures |b| == length
  {
    seq(length, i requires 0 <= i < length => Bit(n, length - 1 - i))
  }

  function FromBits(b: Bits): nat {
    if |b| == 0 then 0 else 2 * FromBits(b[..|b| - 1]) + Digit(b[|b| - 1])
  }

  function False(n: nat): (b: Bits)
    ensures |b| == n && forall i | 0 <= i < n :: !b[i]
  {
    seq(n, _ => false)
  }

  function BytesToBits(bytes: seq<Byte>): (b: Bits)
    ensures |b| == 8 * |bytes|
  {
    seq(8 * |bytes|, i requires 0 <= i < 8 * |bytes| => Bit(bytes[i / 8], 7 - i % 8))
  }

  function BitsToBytes(b: Bits): (bytes: seq<Byte>)
    ensures |bytes| == |b| / 8
  {
    seq(|b| / 8, i requires 0 <= i < |b| / 8 => ByteFrom(b[8 * i..8 * i + 8]))
  }

  function ByteFrom(b: Bits): Byte
    requires |b| == 8
  {
    FromBitsBound(b);
    assert Pow2(8) == 256;
    FromBits(b)
  }

  lemma {:induction false} FromBitsBound(b: Bits)
    ensures FromBits(b) < Pow2(|b|)
  {
    if |b| > 0 { FromBitsBound(b[..|b| - 1]); }
  }

  /** Reading back the low bits of a number */
  lemma {:induction false} FromToBits(n: nat, length: nat)
    ensures FromBits(ToBits(n, length)) == n % Pow2(length)
  {
    if length > 0 {
      ToBitsSnoc(n, length - 1);
      FromToBits(n / 2, length - 1);
      HalveMod(n, Pow2(length - 1));
    }
  }

  lemma ToBitsSnoc(n: nat, length: nat)
    ensures ToBits(n, length + 1)[..length] == ToBits(n / 2, length)
    ensures ToBits(n, length + 1)[length] == (n % 2 == 1)
  {
    var bits := ToBits(n, length + 1);
    forall i | 0 <= i < length
      ensures bits[i] == ToBits(n / 2, length)[i]
    {
      assert Bit(n, length - i) == Bit(n / 2, length - i - 1);
    }
    assert Bit(n, 0) == (n % 2 == 1);
  }

  lemma HalveMod(n: nat, m: nat)
    requires m > 0
    ensures n % (2 * m) == 2 * (n / 2 % m) + n % 2
  {
    var q, r := DivideWithRemainder(n / 2, m);
    var s := 2 * r + n % 2;
    assert n == 2 * m * q + s;
    ModUnique(n, 2 * m, q, s);
    ModUnique(n / 2, m, q, r);
  }

  lemma {:induction false} BitOfZero(k: nat)
    ensures !Bit(0, k)
  {
    if k > 0 { BitOfZero(k - 1); }
  }

  /** Setting a clear bit changes that bit only. */
  lemma {:induction false} SetBit(n: nat, k: nat, j: nat)
    requires !Bit(n, k)
    ensures Bit(n + Pow2(k), j) == (j == k || Bit(n, j))
  {
    if k == 0 {
      if j > 0 { assert (n + 1) / 2 == n / 2; }
    } else {
      assert (n + Pow2(k)) / 2 == n / 2 + Pow2(k - 1);
      if j > 0 { SetBit(n / 2, k - 1, j - 1); }
    }
  }

  lemma {:induction false} SetBitBound(n: nat, k: nat, m: nat)
    requires !Bit(n, k) && k < m && n < Pow2(m)
    ensures n + Pow2(k) < Pow2(m)
  {
    var half := Pow2(m - 1);
    assert Pow2(m) == 2 * half && n == 2 * (n / 2) + n % 2;
    if k > 0 { SetBitBound(n / 2, k - 1, m - 1); }
  }

  lemma BytesRoundTrip(bytes: seq<Byte>)
    ensures BitsToBytes(BytesToBits(bytes)) == bytes
  {
    var b := BytesToBits(bytes);
    forall i | 0 <= i < |bytes|
      ensures BitsToBytes(b)[i] == bytes[i]
    {
      ByteAt(bytes, i);
      FromToBits(bytes[i], 8);
      assert Pow2(8) == 256;
    }
  }

  lemma ByteAt(bytes: seq<Byte>, i: nat)
    requires i < |bytes|
    ensures BytesToBits(bytes)[8 * i..8 * i + 8] == ToBits(bytes[i], 8)
  {
    forall j | 0 <= j < 8
      ensures BytesToBits(bytes)[8 * i + j] == ToBits(bytes[i], 8)[j]
    {
      assert (8 * i + j) / 8 == i && (8 * i + j) % 8 == j;
    }
  }

  lemma BytesToBitsConcat(a: seq<Byte>, b: seq<Byte>)
    ensures BytesToBits(a + b) == BytesToBits(a) + BytesToBits(b)
  {
    forall i | 0 <= i < 8 * (|a| + |b|)
      ensures BytesToBits(a + b)[i] == (BytesToBits(a) + BytesToBits(b))[i]
    {
      if i >= 8 * |a| {
        var j := i - 8 * |a|;
        assert i / 8 == |a| + j / 8 && i % 8 == j % 8;
      }
    }
  }

  lemma BytesToBitsOne(a: Byte)
    ensures BytesToBits([a]) == ToBits(a, 8)
  {}

  lemma BitsRoundTrip(b: Bits)
    requires |b| % 8 == 0
    ensures BytesToBits(BitsToBytes(b)) == b
  {
    forall i | 0 <= i < |b|
      ensures BytesToBits(BitsToBytes(b))[i] == b[i]
    {
      var q := i / 8;
      ToFromBits(b[8 * q..8 * q + 8], 7 - i % 8);
    }
  }

  /** The bits of a number read from bits */
  lemma {:induction false} ToFromBits(b: Bits, k: nat)
    requires k < |b|
    ensures Bit(FromBits(b), k) == b[|b| - 1 - k]
  {
    var n := |b| - 1;
    var m, d := FromBits(b[..n]), Digit(b[n]);
    assert (2 * m + d) / 2 == m && (2 * m + d) % 2 == d;
    if k > 0 { ToFromBits(b[..n], k - 1); }
  }

  /** put writes only the low bits of a number. */
  lemma LowBitsOnly(n: nat, length: nat)
    ensures ToBits(n, length) == ToBits(n % Pow2(length), length)
  {
    forall i | 0 <= i < length
      ensures ToBits(n, length)[i] == ToBits(n % Pow2(length), length)[i]
    {
      BitOfMod(n, length - 1 - i, length);
    }
  }

  lemma {:induction false} BitOfMod(n: nat, k: nat, length: nat)
    requires k < length
    ensures Bit(n, k) == Bit(n % Pow2(length), k)
  {
    var m := Pow2(length - 1);
    HalveMod(n, m);
    var h := n / 2 % m;
    assert (2 * h + n % 2) / 2 == h && (2 * h + n % 2) % 2 == n % 2;
    if k > 0 { BitOfMod(n / 2, k - 1, length - 1); }
  }
}
