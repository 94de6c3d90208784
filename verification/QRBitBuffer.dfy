/** The packed bit buffer: eight bits to a byte, the last byte filled from the top. */
module QRBitBuffers {
  import opened Bitwise
  import opened BitStreams
  import opened GaloisField

  class QRBitBuffer {
    var buffer: seq<Byte>
    var length: nat

    ghost predicate Valid()
      reads this
    {
      Packed(buffer, length)
    }

    /** The bits put so far */
    ghost function Contents(): (b: Bits)
      reads this
      requires Valid()
      ensures |b| == length
    {
      BytesToBits(buffer)[..length]
    }

    constructor ()
      ensures Valid() && Contents() == []
    {
      buffer, length := [], 0;
    }

    /** Beyond the last bit put every bit is clear. */
    method Get(index: nat) returns (bit: bool)
      requires Valid()
      ensures bit == (index < |Contents()| && Contents()[index])
    {
      var bufIndex := index / 8;
      assert bufIndex < |buffer| ==> BytesToBits(buffer)[index] == Bit(buffer[bufIndex], 7 - index % 8);
      bit := bufIndex < |buffer| && Bit(buffer[bufIndex], 7 - index % 8);
    }

    method PutBit(bit: bool)
      requires Valid()
      modifies this
      ensures Valid() && Contents() == old(Contents()) + [bit]
    {
      var bufIndex, k := length / 8, 7 - length % 8;
      BitWritten(buffer, length, bit);
      if |buffer| <= bufIndex {
        buffer := buffer + [0];
      }
      if bit {
        // or-ing in a mask whose bit is clear adds it
        buffer := buffer[bufIndex := buffer[bufIndex] + Pow2(k)];
      }
      length := length + 1;
    }

    method Put(num: nat, width: nat)
      requires Valid()
      modifies this
      ensures Valid() && Contents() == old(Contents()) + ToBits(num, width)
    {
      for i := 0 to width
        invariant Valid() && Contents() == old(Contents()) + ToBits(num, width)[..i]
      {
        PutBit(Bit(num, width - i - 1));
      }
    }

    method GetLengthInBits() returns (n: nat)
      requires Valid()
      ensures n == |Contents()|
    {
      n := length;
    }
  }

  /** length bits from the top of the first byte on, and zeros to the end of the last byte */
  ghost predicate Packed(bytes: seq<Byte>, length: nat) {
    && |bytes| == (length + 7) / 8
    && forall i | length <= i < 8 * |bytes| :: !BytesToBits(bytes)[i]
  }

  function Grown(bytes: seq<Byte>, length: nat): seq<Byte> {
    if |bytes| <= length / 8 then bytes + [0] else bytes
  }

  lemma BitWritten(bytes: seq<Byte>, length: nat, bit: bool)
    requires Packed(bytes, length)
    ensures var grown, q, k := Grown(bytes, length), length / 8, 7 - length % 8;
            && q < |grown| && grown[q] + Pow2(k) < 256
            && var after := if bit then grown[q := grown[q] + Pow2(k)] else grown;
               Packed(after, length + 1) && BytesToBits(after)[..length + 1] == BytesToBits(bytes)[..length] + [bit]
  {
    ByteGrown(bytes, length);
    SetOneBit(Grown(bytes, length), length);
  }

  lemma ByteGrown(bytes: seq<Byte>, length: nat)
    requires Packed(bytes, length)
    ensures var grown := Grown(bytes, length);
            && |grown| == length / 8 + 1 && BytesToBits(bytes)[..length] == BytesToBits(grown)[..length]
            && forall i | length <= i < 8 * |grown| :: !BytesToBits(grown)[i]
  {
    if |bytes| <= length / 8 {
      BytesToBitsConcat(bytes, [0]);
      forall i | 0 <= i < 8
        ensures !BytesToBits([0])[i]
      {
        BitOfZero(7 - i);
      }
    }
  }

  /** Setting the clear bit at position p */
  lemma SetOneBit(bytes: seq<Byte>, p: nat)
    requires p < 8 * |bytes| && !BytesToBits(bytes)[p]
    ensures bytes[p / 8] + Pow2(7 - p % 8) < 256
    ensures BytesToBits(bytes[p / 8 := bytes[p / 8] + Pow2(7 - p % 8)]) == BytesToBits(bytes)[p := true]
  {
    var q, k := p / 8, 7 - p % 8;
    assert BytesToBits(bytes)[p] == Bit(bytes[q], k);
    assert Pow2(8) == 256;
    SetBitBound(bytes[q], k, 8);
    SetOneBitOf(bytes, p, q, k);
  }

  lemma SetOneBitOf(bytes: seq<Byte>, p: nat, q: nat, k: nat)
    requires p == 8 * q + 7 - k && q < |bytes| && k < 8 && !Bit(bytes[q], k) && bytes[q] + Pow2(k) < 256
    ensures BytesToBits(bytes[q := bytes[q] + Pow2(k)]) == BytesToBits(bytes)[p := true]
  {
    var l, r := BytesToBits(bytes[q := bytes[q] + Pow2(k)]), BytesToBits(bytes)[p := true];
    forall i | 0 <= i < 8 * |bytes|
      ensures l[i] == r[i]
    {
      if i / 8 == q { SetBit(bytes[q], k, 7 - i % 8); }
    }
  }
}
