/**
 The bits of section 7.4 of ISO/IEC 18004:2015 as numbers: what the encoded data says to a reader
 that knows the standard and nothing of this encoder.
 */
module EncodingLaws {
  import opened Bitwise
  import opened BitStreams
  import opened GaloisField
  import opened Interleaving
  import opened MaskLaws
  import opened Outcomes
  import opened QRBlocks
  import opened QRCodes
  import opened QRData
  import opened QRMatrix

  // ----- bits

  /** Bits come most significant first, in numbers and in bytes. */
  lemma BitsAreDigits(n: nat, length: nat, bytes: seq<Byte>, i: nat)
    ensures i < length ==> (ToBits(n, length)[i] <==> OddAfter(n, length - 1 - i))
    ensures i < 8 * |bytes| ==> (BytesToBits(bytes)[i] <==> OddAfter(bytes[i / 8], 7 - i % 8))
  {
    if i < length { BitIsQuotient(n, length - 1 - i); }
    if i < 8 * |bytes| { BitIsQuotient(bytes[i / 8], 7 - i % 8); }
  }

  /** The sum of the field is the exclusive or, bit by bit. */
  lemma {:induction false} AddIsExclusiveOr(a: nat, b: nat, k: nat)
    ensures Bit(Xor(a, b), k) <==> Bit(a, k) != Bit(b, k)
    decreases k
  {
    hide Xor;
    XorStep(a, b);
    if k > 0 { AddIsExclusiveOr(a / 2, b / 2, k - 1); }
  }

  // ----- one segment

  /** The length field has 8 bits up to version 9 and 16 from version 10 to 40. */
  lemma LengthWidths(typeNumber: int)
    ensures LengthInBits(typeNumber).Thrown? <==> typeNumber >= 41
    ensures LengthInBits(typeNumber) == Returned(8) <==> 1 <= typeNumber <= 9
    ensures LengthInBits(typeNumber) == Returned(16) <==> typeNumber < 1 || 10 <= typeNumber <= 40
  {}

  /** A segment: the byte mode 0100, the number of bytes, and the bytes. */
  lemma SegmentLayout(text: Text, width: nat)
    ensures var b := SegmentBits(text, width);
            && |b| == 4 + width + 8 * |text|
            && b[..4] == [false, true, false, false]
            && FromBits(b[4..4 + width]) == |text| % Pow2(width)
            && forall i | 0 <= i < |text| :: FromBits(b[4 + width + 8 * i..4 + width + 8 * i + 8]) == text[i] % 256
  {
    hide BytesToBits, ToBits, LowBytes;
    var mode, length, body := ToBits(4, 4), ToBits(|text|, width), BytesToBits(LowBytes(text));
    ByteMode();
    FirstParts(mode, length, body);
    FromToBits(|text|, width);
    forall i | 0 <= i < |text|
      ensures FromBits((mode + length + body)[4 + width + 8 * i..4 + width + 8 * i + 8]) == text[i] % 256
    {
      LastPart(mode + length, body, 8 * i, 8 * i + 8);
      LowByteBits(text, i);
    }
  }

  lemma FirstParts(p: Bits, q: Bits, r: Bits)
    ensures (p + q + r)[..|p|] == p && (p + q + r)[|p|..|p| + |q|] == q
  {}

  lemma LastPart(p: Bits, r: Bits, x: nat, y: nat)
    requires x <= y <= |r|
    ensures (p + r)[|p| + x..|p| + y] == r[x..y]
  {}

  lemma LowByteBits(text: Text, i: nat)
    requires i < |text|
    ensures FromBits(BytesToBits(LowBytes(text))[8 * i..8 * i + 8]) == text[i] % 256
  {
    BitStreams.ByteAt(LowBytes(text), i);
    FromToBits(text[i] % 256, 8);
    assert Pow2(8) == 256;
  }

  lemma ByteMode()
    ensures ToBits(4, 4) == [false, true, false, false]
  {
    assert Bit(4, 3) == Bit(2, 2) == Bit(1, 1) == Bit(0, 0);
    assert Bit(4, 2) == Bit(2, 1) == Bit(1, 0);
    assert Bit(4, 1) == Bit(2, 0);
  }

  // ----- all segments

  function BitCount(list: seq<Text>, width: nat): nat {
    if list == [] then 0 else BitCount(list[..|list| - 1], width) + 4 + width + 8 * |list[|list| - 1]|
  }

  function DataCapacity(rs: RSBlocks): nat {
    if rs == [] then 0 else DataCapacity(rs[..|rs| - 1]) + 8 * rs[|rs| - 1].dataCount
  }

  lemma {:induction false} DataLength(list: seq<Text>, width: nat)
    ensures |DataBits(list, width)| == BitCount(list, width)
  {
    if list != [] {
      DataLength(list[..|list| - 1], width);
      SegmentLayout(list[|list| - 1], width);
    }
  }

  lemma {:induction false} CapacityInBits(rs: RSBlocks)
    ensures 8 * TotalData(rs) == DataCapacity(rs)
  {
    if rs != [] { CapacityInBits(rs[..|rs| - 1]); }
  }

  /** Texts fit exactly when their bits are at most those of the data bytes of the blocks. */
  lemma FitsExactly(list: seq<Text>, typeNumber: int, rs: RSBlocks)
    requires 1 <= typeNumber <= 40
    ensures Fits(list, typeNumber, rs) <==> BitCount(list, if typeNumber <= 9 then 8 else 16) <= DataCapacity(rs)
  {
    DataLength(list, Width(typeNumber));
    CapacityInBits(rs);
  }

  /** The filled bits of any texts begin with the byte mode and the length of the first one. */
  lemma FilledStart(text: Text, list: seq<Text>, width: nat, total: nat)
    requires |DataBits([text] + list, width)| <= 8 * total
    ensures var f := FilledBits(DataBits([text] + list, width), total);
            && 4 + width <= |f| && f[..4] == [false, true, false, false]
            && FromBits(f[4..4 + width]) == |text| % Pow2(width)
  {
    hide FilledBits, SegmentBits, DataBits;
    var b := DataBits([text] + list, width);
    var f, s := FilledBits(b, total), SegmentBits(text, width);
    DataBitsCons(text, list, width);
    SegmentLayout(text, width);
    FillIsEnd(b, total);
    assert f[..|s|] == s;
    assert f[..4] == s[..4] && f[4..4 + width] == s[4..4 + width];
  }

  /** The first codeword of every symbol starts with 0100. */
  lemma FirstCodeword(text: Text, list: seq<Text>, typeNumber: int, rs: RSBlocks)
    requires WellFormed(rs) && Fits([text] + list, typeNumber, rs)
    ensures var codewords := SymbolCodewords([text] + list, typeNumber, rs);
            codewords != [] && codewords[0] / 16 == 4
  {
    hide FilledBits, SegmentBits, DataBits, Codewords;
    var bytes := DataBytes([text] + list, typeNumber, rs);
    FilledStart(text, list, Width(typeNumber), TotalData(rs));
    FilledBytes([text] + list, typeNumber, rs);
    assert bytes != [];
    assert BytesToBits(bytes)[..4] == [false, true, false, false];
    TopBits(bytes);
    FirstIsFirst(bytes, rs);
  }

  lemma TopBits(bytes: seq<Byte>)
    requires bytes != [] && BytesToBits(bytes)[..4] == [false, true, false, false]
    ensures bytes[0] / 16 == 4
  {
    var b := BytesToBits(bytes);
    hide BytesToBits, FromBits, ToBits;
    BitStreams.ByteAt(bytes, 0);
    FromToBits(bytes[0], 8);
    assert Pow2(8) == 256;
    var h, l := b[..4], b[4..8];
    assert b[0..8] == h + l;
    FromHalves(h, l);
    FromFour(h);
  }

  lemma FromFour(h: Bits)
    requires h == [false, true, false, false]
    ensures FromBits(h) == 4
  {
    assert h[..3] == [false, true, false] && h[..3][..2] == [false, true];
    assert [false, true][..1] == [false] && [false][..0] == [];
    assert FromBits([false]) == 0 && FromBits([false, true]) == 1 && FromBits([false, true, false]) == 2;
  }

  lemma FromHalves(h: Bits, l: Bits)
    requires |l| == 4
    ensures FromBits(h + l) / 16 == FromBits(h)
  {
    hide FromBits;
    FromLast(h, l[0]);
    FromLast(h + [l[0]], l[1]);
    FromLast(h + [l[0]] + [l[1]], l[2]);
    FromLast(h + [l[0]] + [l[1]] + [l[2]], l[3]);
    assert h + l == h + [l[0]] + [l[1]] + [l[2]] + [l[3]];
    var low := 8 * Digit(l[0]) + 4 * Digit(l[1]) + 2 * Digit(l[2]) + Digit(l[3]);
    assert FromBits(h + l) == 16 * FromBits(h) + low;
  }

  lemma FromLast(b: Bits, last: bool)
    ensures FromBits(b + [last]) == 2 * FromBits(b) + Digit(last)
  {
    assert (b + [last])[..|b|] == b;
  }

  /** The first codeword is the first data byte. */
  lemma FirstIsFirst(bytes: seq<Byte>, rs: RSBlocks)
    requires WellFormed(rs) && |bytes| == TotalData(rs) && bytes != []
    ensures Codewords(bytes, rs) != [] && Codewords(bytes, rs)[0] == bytes[0]
  {
    hide Columns, Codewords, MaxDataCount, MaxEcCount;
    assert rs != [];
    BlocksInvertible(bytes, rs, []);
    CodewordsTotal(bytes, rs);
    CountsAddUp(rs);
    var c := Codewords(bytes, rs);
    assert c + [] == c;
    var block := DataBlocks(bytes, rs)[0];
    assert DataBlock(bytes, rs, 0) == block;
    assert rs[..0] == [];
    assert Deinterleave(c, DataCounts(rs))[0][0] == block[0];
    assert DataCounts(rs)[..0] == [];
    assert Slot(DataCounts(rs), 0, 0) == 0;
  }

  // ----- the symbol

  /** A symbol of version 1 has 21 rows and columns, and each version has four more than the one before. */
  lemma SymbolSize(list: seq<Text>, table: seq<RSBlocks>, t: int, patterns: Grid, mask: MaskPattern)
    requires IsTable(table) && FitsVersion(list, table, t) && IsPattern(patterns, t)
    ensures 1 <= t <= 40 && Square(VersionSymbol(list, table, t, patterns, mask), 21 + 4 * (t - 1))
  {
    hide Fits, VersionSymbol;
  }

  // ----- the mask that is chosen

  /** No mask loses fewer points than the chosen one, and with equal points the first one is chosen. */
  lemma BestMaskMeans(list: seq<Text>, table: seq<RSBlocks>, t: int, patternsOf: MaskPattern -> Grid,
                      lostPoint: Grid -> real, p: MaskPattern, m: MaskPattern)
    requires IsTable(table) && FitsVersion(list, table, t) && forall x :: IsPattern(patternsOf(x), t)
    requires IsBestMask(list, table, t, patternsOf, lostPoint, p, 8)
    ensures var best := lostPoint(VersionSymbol(list, table, t, patternsOf(p), p));
            var lost := lostPoint(VersionSymbol(list, table, t, patternsOf(m), m));
            best <= lost && (lost == best ==> p <= m)
  {}
}
