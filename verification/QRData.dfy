/** createData up to the padded bit buffer, and a reader that recovers the texts from its bits. */
module QRData {
  import opened Bitwise
  import opened BitStreams
  import opened GaloisField
  import opened Outcomes

  /** A UTF-16 code unit, as charCodeAt returns it */
  type CodeUnit = u: int | 0 <= u < 0x10000

  type Text = seq<CodeUnit>

  const MODE_8BIT_BYTE: nat := 4
  const PAD0: Byte := 0xEC
  const PAD1: Byte := 0x11

  /** getLengthInBits for 8-bit mode */
  function LengthInBits(typeNumber: int): Outcome<nat> {
    if 1 <= typeNumber < 10 then Returned(8)
    else if typeNumber < 27 then Returned(16)
    else if typeNumber < 41 then Returned(16)
    else Thrown
  }

  /** put(c, 8) keeps the low eight bits of a code unit. */
  function LowBytes(text: Text): (bytes: seq<Byte>)
    ensures |bytes| == |text|
  {
    seq(|text|, i requires 0 <= i < |text| => text[i] % 256)
  }

  function SegmentBits(text: Text, width: nat): Bits {
    ToBits(MODE_8BIT_BYTE, 4) + ToBits(|text|, width) + BytesToBits(LowBytes(text))
  }

  function DataBits(list: seq<Text>, width: nat): Bits {
    if |list| == 0 then [] else DataBits(list[..|list| - 1], width) + SegmentBits(list[|list| - 1], width)
  }

  // ----- filling up to the capacity

  function Terminated(b: Bits, capacity: nat): Bits {
    if |b| + 4 <= capacity then b + False(4) else b
  }

  /** The number of bits up to the next byte boundary */
  function Padding(n: nat): nat {
    (8 - n % 8) % 8
  }

  function Aligned(b: Bits): Bits {
    b + False(Padding(|b|))
  }

  function Pads(n: nat, even: bool): (b: Bits)
    ensures |b| == 8 * n
  {
    if n == 0 then [] else ToBits(if even then PAD0 else PAD1, 8) + Pads(n - 1, !even)
  }

  /** All the bits createData leaves in the buffer */
  function FilledBits(b: Bits, total: nat): (f: Bits)
    requires |b| <= 8 * total
    ensures |f| == 8 * total
  {
    var a := Aligned(Terminated(b, 8 * total));
    AlignedFits(b, total);
    a + Pads(total - |a| / 8, true)
  }

  lemma AlignedFits(b: Bits, total: nat)
    requires |b| <= 8 * total
    ensures var a := Aligned(Terminated(b, 8 * total)); |a| % 8 == 0 && |a| <= 8 * total
  {}

  /**
   The filled bits in the standard's terms: the data, fewer than twelve zeros up to a byte
   boundary (at least four unless the data ends within four bits of the capacity), then the
   two pad bytes in turn.
   */
  lemma ExactFill(b: Bits, total: nat) returns (start: nat)
    requires |b| <= 8 * total
    ensures b <= FilledBits(b, total)
    ensures start <= total && |b| <= 8 * start < |b| + 12
    ensures 8 * start >= |b| + 4 || start == total
    ensures forall i | |b| <= i < 8 * start :: !FilledBits(b, total)[i]
    ensures forall k | start <= k < total ::
              BitsToBytes(FilledBits(b, total))[k] == if (k - start) % 2 == 0 then 0xEC else 0x11
  {
    AlignedFits(b, total);
    var a := Aligned(Terminated(b, 8 * total));
    start := |a| / 8;
    var pads := Pads(total - start, true);
    forall k | start <= k < total
      ensures BitsToBytes(FilledBits(b, total))[k] == if (k - start) % 2 == 0 then PAD0 else PAD1
    {
      PadByteAfter(a, total - start, k);
    }
  }

  lemma PadByteAfter(a: Bits, n: nat, k: nat)
    requires |a| % 8 == 0 && |a| / 8 <= k < |a| / 8 + n
    ensures BitsToBytes(a + Pads(n, true))[k] == if (k - |a| / 8) % 2 == 0 then PAD0 else PAD1
  {
    var j := k - |a| / 8;
    SliceAfter(a, Pads(n, true), 8 * j, 8 * j + 8);
    PadByte(n, true, j);
  }

  lemma SliceAfter<T>(p: seq<T>, q: seq<T>, x: nat, y: nat)
    requires x <= y <= |q|
    ensures (p + q)[|p| + x..|p| + y] == q[x..y]
  {}

  lemma {:induction false} PadByte(n: nat, even: bool, j: nat)
    requires j < n
    ensures FromBits(Pads(n, even)[8 * j..8 * j + 8]) == if (j % 2 == 0) == even then PAD0 else PAD1
  {
    var pad, rest := if even then PAD0 else PAD1, Pads(n - 1, !even);
    if j == 0 {
      FirstByte(pad, rest);
    } else {
      PadByte(n - 1, !even, j - 1);
      SliceAfter(ToBits(pad, 8), rest, 8 * (j - 1), 8 * (j - 1) + 8);
    }
  }

  lemma FirstByte(pad: Byte, rest: Bits)
    ensures FromBits((ToBits(pad, 8) + rest)[0..8]) == pad
  {
    assert (ToBits(pad, 8) + rest)[0..8] == ToBits(pad, 8);
    FromToBits(pad, 8);
    assert Pow2(8) == 256;
  }

  // ----- reading the texts back

  /** Reads 8-bit segments until a zero mode or fewer than four bits are left. */
  function ReadSegments(b: Bits, width: nat): Outcome<seq<seq<Byte>>>
    decreases |b|
  {
    if |b| < 4 || FromBits(b[..4]) == 0 then Returned([])
    else if FromBits(b[..4]) != 4 || |b| < 4 + width then Thrown
    else
      var start := 4 + width;
      var length := FromBits(b[4..start]);
      if |b| < start + 8 * length then Thrown
      else
        var rest :- ReadSegments(b[start + 8 * length..], width);
        Returned([BitsToBytes(b[start..start + 8 * length])] + rest)
  }

  ghost predicate LengthsFit(list: seq<Text>, width: nat) {
    forall i | 0 <= i < |list| :: |list[i]| < Pow2(width)
  }

  /** What a reader sees after the data: four zeros, or fewer than four bits */
  ghost predicate EndOfData(tail: Bits) {
    |tail| < 4 || tail[..4] == False(4)
  }

  lemma FillIsEnd(b: Bits, total: nat)
    requires |b| <= 8 * total
    ensures b <= FilledBits(b, total) && EndOfData(FilledBits(b, total)[|b|..])
  {}

  lemma {:induction false} FromFalse(n: nat)
    ensures FromBits(False(n)) == 0
  {
    if n > 0 {
      assert False(n)[..n - 1] == False(n - 1);
      FromFalse(n - 1);
    }
  }

  /** DataBits, first segment first */
  lemma {:induction false} DataBitsCons(text: Text, list: seq<Text>, width: nat)
    ensures DataBits([text] + list, width) == SegmentBits(text, width) + DataBits(list, width)
  {
    var n := |list| - 1;
    if n < 0 {
      assert ([text] + list)[..0] == [];
      assert DataBits([], width) == [];
      assert [text] + list == [text];
    } else {
      assert ([text] + list)[..n + 1] == [text] + list[..n];
      DataBitsCons(text, list[..n], width);
    }
  }

  /** Reads one segment and goes on with the rest. */
  lemma ReadOne(text: Text, rest: Bits, width: nat)
    requires |text| < Pow2(width)
    ensures ReadSegments(SegmentBits(text, width) + rest, width)
            == var r := ReadSegments(rest, width);
               if r.Thrown? then Thrown else Returned([LowBytes(text)] + r.value)
  {
    ReadSegment(MODE_8BIT_BYTE, |text|, BytesToBits(LowBytes(text)), rest, width);
    BytesRoundTrip(LowBytes(text));
  }

  lemma ReadSegment(mode: nat, length: nat, body: Bits, rest: Bits, width: nat)
    requires mode == MODE_8BIT_BYTE && length < Pow2(width) && |body| == 8 * length
    ensures ReadSegments(ToBits(mode, 4) + ToBits(length, width) + body + rest, width)
            == var r := ReadSegments(rest, width);
               if r.Thrown? then Thrown else Returned([BitsToBytes(body)] + r.value)
  {
    Header(mode, length, width);
    SmallMod(length, Pow2(width));
    ReadParts(ToBits(mode, 4), ToBits(length, width), body, rest);
  }

  lemma SmallMod(n: nat, m: nat)
    requires n < m
    ensures n % m == n
  {}

  lemma ReadParts(p: Bits, q: Bits, body: Bits, rest: Bits)
    requires |p| == 4 && FromBits(p) == MODE_8BIT_BYTE && |body| == 8 * FromBits(q)
    ensures ReadSegments(p + q + body + rest, |q|)
            == var r := ReadSegments(rest, |q|);
               if r.Thrown? then Thrown else Returned([BitsToBytes(body)] + r.value)
  {
    Slices(p, q, body, rest);
    ReadStep(p + q + body + rest, FromBits(q), body, rest, |q|);
  }

  lemma Header(mode: nat, length: nat, width: nat)
    requires mode < 16
    ensures FromBits(ToBits(mode, 4)) == mode
    ensures FromBits(ToBits(length, width)) == length % Pow2(width)
  {
    FromToBits(mode, 4);
    assert Pow2(4) == 16;
    FromToBits(length, width);
  }

  lemma ReadStep(b: Bits, length: nat, body: Bits, rest: Bits, width: nat)
    requires var start := 4 + width;
             && |b| >= start + 8 * length && FromBits(b[..4]) == MODE_8BIT_BYTE && FromBits(b[4..start]) == length
             && b[start..start + 8 * length] == body && b[start + 8 * length..] == rest
    ensures ReadSegments(b, width)
            == var r := ReadSegments(rest, width);
               if r.Thrown? then Thrown else Returned([BitsToBytes(body)] + r.value)
  {}

  lemma Slices(p: Bits, q: Bits, r: Bits, s: Bits)
    ensures var b, i := p + q + r + s, |p| + |q|;
            b[..|p|] == p && b[|p|..i] == q && b[i..i + |r|] == r && b[i + |r|..] == s
  {}

  /** The low bytes of every text */
  function LowTexts(list: seq<Text>): seq<seq<Byte>> {
    if list == [] then [] else [LowBytes(list[0])] + LowTexts(list[1..])
  }

  /** The reader recovers every text, up to the bits put(c, 8) drops. */
  lemma {:induction false} ReadBack(list: seq<Text>, tail: Bits, width: nat)
    requires LengthsFit(list, width) && EndOfData(tail)
    ensures ReadSegments(DataBits(list, width) + tail, width) == Returned(LowTexts(list))
  {
    if |list| == 0 {
      ReadEnd(tail, width);
      assert DataBits(list, width) + tail == tail;
    } else {
      var text, rest := list[0], list[1..];
      assert list == [text] + rest;
      DataBitsCons(text, rest, width);
      ReadBack(rest, tail, width);
      ReadOne(text, DataBits(rest, width) + tail, width);
      Regroup(SegmentBits(text, width), DataBits(rest, width), tail);
    }
  }

  lemma Regroup(p: Bits, q: Bits, r: Bits)
    ensures p + (q + r) == (p + q) + r
  {}

  /**
   A single text comes back exactly when its length fits the length field and none of its code
   units was cut to eight bits.
   */
  lemma TextReadBack(text: Text, total: nat, width: nat)
    requires |SegmentBits(text, width)| <= 8 * total
    ensures ReadSegments(FilledBits(SegmentBits(text, width), total), width) == Returned([text])
            <==> |text| < Pow2(width) && forall i | 0 <= i < |text| :: text[i] < 256
  {
    var b := SegmentBits(text, width);
    FillIsEnd(b, total);
    var tail := FilledBits(b, total)[|b|..];
    assert FilledBits(b, total) == b + tail;
    if |text| < Pow2(width) {
      SingleSegment(text, tail, width);
      LowBytesEqual(text);
    } else {
      LengthCut(text, tail, width);
    }
  }

  lemma LowBytesEqual(text: Text)
    ensures LowBytes(text) == text <==> forall i | 0 <= i < |text| :: text[i] < 256
  {
    if LowBytes(text) == text {
      forall i | 0 <= i < |text|
        ensures text[i] < 256
      {
        assert LowBytes(text)[i] == text[i];
      }
    }
  }

  lemma SingleSegment(text: Text, tail: Bits, width: nat)
    requires |text| < Pow2(width) && EndOfData(tail)
    ensures ReadSegments(SegmentBits(text, width) + tail, width) == Returned([LowBytes(text)])
  {
    ReadOne(text, tail, width);
    ReadEnd(tail, width);
    assert [LowBytes(text)] + [] == [LowBytes(text)];
  }

  lemma ReadEnd(tail: Bits, width: nat)
    requires EndOfData(tail)
    ensures ReadSegments(tail, width) == Returned([])
  {
    FromFalse(4);
  }

  /** A text too long for the length field is read back shorter, if at all. */
  lemma LengthCut(text: Text, rest: Bits, width: nat)
    requires |text| >= Pow2(width)
    ensures ReadSegments(SegmentBits(text, width) + rest, width) != Returned([text])
  {
    CutSegment(MODE_8BIT_BYTE, |text|, BytesToBits(LowBytes(text)), rest, width);
  }

  lemma CutSegment(mode: nat, length: nat, body: Bits, rest: Bits, width: nat)
    requires mode == MODE_8BIT_BYTE && length >= Pow2(width)
    ensures var r := ReadSegments(ToBits(mode, 4) + ToBits(length, width) + body + rest, width);
            r.Thrown? || |r.value| == 0 || |r.value[0]| < length
  {
    var b, n := ToBits(mode, 4) + ToBits(length, width) + body + rest, length % Pow2(width);
    Header(mode, length, width);
    Slices(ToBits(mode, 4), ToBits(length, width), body, rest);
    var start := 4 + width;
    if |b| >= start + 8 * n {
      ReadStep(b, n, b[start..start + 8 * n], b[start + 8 * n..], width);
    }
  }
}
