/** The encoder object: version selection, data creation, mask selection and the finished symbol. */
module QRCodes {
  import opened Bitwise
  import opened BitStreams
  import opened GaloisField
  import opened Outcomes
  import opened Placement
  import opened QRBitBuffers
  import opened QRBlocks
  import opened QRData
  import opened QRMathTables
  import opened QRMatrix

  // ----- the specification: from texts to codewords and back

  function Width(typeNumber: int): nat {
    if LengthInBits(typeNumber).Returned? then LengthInBits(typeNumber).value else 0
  }

  predicate Fits(list: seq<Text>, typeNumber: int, rs: RSBlocks) {
    |DataBits(list, Width(typeNumber))| <= 8 * TotalData(rs)
  }

  /** The bytes of the filled bit buffer */
  function DataBytes(list: seq<Text>, typeNumber: int, rs: RSBlocks): (bytes: seq<Byte>)
    requires Fits(list, typeNumber, rs)
    ensures |bytes| == TotalData(rs)
  {
    BitsToBytes(FilledBits(DataBits(list, Width(typeNumber)), TotalData(rs)))
  }

  ghost function SymbolCodewords(list: seq<Text>, typeNumber: int, rs: RSBlocks): seq<Byte>
    requires Fits(list, typeNumber, rs) && WellFormed(rs)
  {
    Codewords(DataBytes(list, typeNumber, rs), rs)
  }

  /** A reader: walk, unmask, de-interleave, and parse the segments. */
  function ReadSymbol(final: Grid, g: Grid, n: nat, mask: MaskPattern, typeNumber: int,
                      rs: RSBlocks): Outcome<seq<seq<Byte>>>
    requires Walkable(n) && Square(g, n) && Square(final, n)
  {
    var codewords := BitsToBytes(ReadBits(final, g, n, mask, Steps(n)));
    ReadSegments(BytesToBits(DataOf(codewords, rs)), Width(typeNumber))
  }

  lemma FilledBytes(list: seq<Text>, typeNumber: int, rs: RSBlocks)
    requires Fits(list, typeNumber, rs)
    ensures BytesToBits(DataBytes(list, typeNumber, rs)) == FilledBits(DataBits(list, Width(typeNumber)), TotalData(rs))
  {
    BitsRoundTrip(FilledBits(DataBits(list, Width(typeNumber)), TotalData(rs)));
  }

  /** The reader gets back the filled bits, whatever the mask. */
  lemma SymbolReadBack(final: Grid, g: Grid, n: nat, mask: MaskPattern, list: seq<Text>, typeNumber: int, rs: RSBlocks)
    requires Walkable(n) && Square(g, n) && WellFormed(rs) && Fits(list, typeNumber, rs)
    requires IsPlaced(final, g, n, SymbolCodewords(list, typeNumber, rs), mask)
    requires FreeBefore(g, n, Steps(n)) >= 8 * TotalCodes(rs)
    ensures ReadSymbol(final, g, n, mask, typeNumber, rs)
            == ReadSegments(FilledBits(DataBits(list, Width(typeNumber)), TotalData(rs)), Width(typeNumber))
  {
    hide IsPlaced, FreeBefore, Steps, ReadBits, DataOf, FilledBits, DataBits, ReadSegments, Codewords, DataBytes;
    var bytes := DataBytes(list, typeNumber, rs);
    CodewordsTotal(bytes, rs);
    var rest := ReadData(final, g, n, Codewords(bytes, rs), mask);
    CodewordsInvertible(bytes, rs, rest);
    FilledBytes(list, typeNumber, rs);
  }

  /** The reader gets the texts back from the filled bits. */
  lemma FilledReadBack(list: seq<Text>, typeNumber: int, rs: RSBlocks)
    requires Fits(list, typeNumber, rs) && LengthsFit(list, Width(typeNumber))
    ensures ReadSegments(FilledBits(DataBits(list, Width(typeNumber)), TotalData(rs)), Width(typeNumber))
            == Returned(LowTexts(list))
  {
    hide FilledBits, DataBits, ReadSegments;
    var b := DataBits(list, Width(typeNumber));
    var f := FilledBits(b, TotalData(rs));
    FillIsEnd(b, TotalData(rs));
    assert f == b + f[|b|..];
    ReadBack(list, f[|b|..], Width(typeNumber));
  }

  /** The texts come back from the finished symbol, up to the bits beyond each code unit's eighth. */
  lemma RoundTrip(final: Grid, g: Grid, n: nat, mask: MaskPattern, list: seq<Text>, typeNumber: int, rs: RSBlocks)
    requires Walkable(n) && Square(g, n) && WellFormed(rs) && Fits(list, typeNumber, rs)
    requires LengthsFit(list, Width(typeNumber))
    requires IsPlaced(final, g, n, SymbolCodewords(list, typeNumber, rs), mask)
    requires FreeBefore(g, n, Steps(n)) >= 8 * TotalCodes(rs)
    ensures ReadSymbol(final, g, n, mask, typeNumber, rs) == Returned(LowTexts(list))
  {
    hide IsPlaced, FreeBefore, Steps, ReadSymbol, FilledBits, DataBits, ReadSegments, SymbolCodewords;
    SymbolReadBack(final, g, n, mask, list, typeNumber, rs);
    FilledReadBack(list, typeNumber, rs);
  }

  /**
   The share card encodes a single text. It reads back as itself exactly when its length fits the
   length field and all its code units are below 256.
   */
  lemma TextRoundTrip(final: Grid, g: Grid, n: nat, mask: MaskPattern, text: Text, typeNumber: int, rs: RSBlocks)
    requires Walkable(n) && Square(g, n) && WellFormed(rs) && Fits([text], typeNumber, rs)
    requires IsPlaced(final, g, n, SymbolCodewords([text], typeNumber, rs), mask)
    requires FreeBefore(g, n, Steps(n)) >= 8 * TotalCodes(rs)
    ensures ReadSymbol(final, g, n, mask, typeNumber, rs) == Returned([text])
            <==> |text| < Pow2(Width(typeNumber)) && forall i | 0 <= i < |text| :: text[i] < 256
  {
    hide IsPlaced, FreeBefore, Steps, ReadSymbol, FilledBits, ReadSegments, SymbolCodewords, SegmentBits;
    SymbolReadBack(final, g, n, mask, [text], typeNumber, rs);
    var width := Width(typeNumber);
    assert [text][..0] == [];
    assert DataBits([text], width) == SegmentBits(text, width);
    TextReadBack(text, TotalData(rs), width);
  }

  /**
   On every row of the table the length field is wide enough: a symbol below version 10 holds at
   most 232 data bytes, so a text that fits is shorter than 256.
   */
  lemma FittingTextsHaveFittingLengths(list: seq<Text>, typeNumber: int, rs: RSBlocks)
    requires LengthInBits(typeNumber).Returned? && Fits(list, typeNumber, rs)
    requires TotalData(rs) <= if 1 <= typeNumber < 10 then 256 else 65536
    ensures LengthsFit(list, Width(typeNumber))
  {
    var width := Width(typeNumber);
    PowersOfWidths();
    forall i | 0 <= i < |list|
      ensures |list[i]| < Pow2(width)
    {
      SegmentWithin(list, width, i);
    }
  }

  lemma PowersOfWidths()
    ensures Pow2(8) == 256 && Pow2(16) == 65536
  {
    assert Pow2(8) == 256;
    Pow2Twice(8);
  }

  lemma {:induction false} Pow2Twice(n: nat)
    ensures Pow2(2 * n) == Pow2(n) * Pow2(n)
  {
    if n > 0 {
      Pow2Twice(n - 1);
      var m := Pow2(n - 1);
      assert Pow2(n) * Pow2(n) == 4 * (m * m);
      assert Pow2(2 * n) == 2 * Pow2(2 * n - 1) == 4 * Pow2(2 * (n - 1));
    }
  }

  lemma {:induction false} SegmentWithin(list: seq<Text>, width: nat, i: nat)
    requires i < |list|
    ensures |DataBits(list, width)| >= 4 + width + 8 * |list[i]|
  {
    var n := |list| - 1;
    if i < n { SegmentWithin(list[..n], width, i); }
  }

  // ----- createData

  /** Puts the segments into the buffer: mode, length and code units of each text. */
  method PutSegments(buffer: QRBitBuffer, typeNumber: int, dataList: seq<Text>) returns (thrown: bool)
    requires buffer.Valid() && buffer.Contents() == []
    modifies buffer
    ensures thrown <==> dataList != [] && LengthInBits(typeNumber).Thrown?
    ensures buffer.Valid() && (!thrown ==> buffer.Contents() == DataBits(dataList, Width(typeNumber)))
  {
    ghost var width := Width(typeNumber);
    for i := 0 to |dataList|
      invariant i > 0 ==> LengthInBits(typeNumber).Returned?
      invariant buffer.Valid() && buffer.Contents() == DataBits(dataList[..i], width)
    {
      var text := dataList[i];
      ghost var before := buffer.Contents();
      buffer.Put(MODE_8BIT_BYTE, 4);
      var bits := LengthInBits(typeNumber);
      if bits.Thrown? { return true; }
      buffer.Put(|text|, bits.value);
      Write(buffer, text);
      assert dataList[..i + 1][..i] == dataList[..i];
      SegmentAppended(before, text, width);
    }
    assert dataList[..|dataList|] == dataList;
    return false;
  }

  lemma SegmentAppended(before: Bits, text: Text, width: nat)
    ensures before + ToBits(MODE_8BIT_BYTE, 4) + ToBits(|text|, width) + BytesToBits(LowBytes(text))
            == before + SegmentBits(text, width)
  {}

  /** QR8bitByte.write */
  method Write(buffer: QRBitBuffer, text: Text)
    requires buffer.Valid()
    modifies buffer
    ensures buffer.Valid() && buffer.Contents() == old(buffer.Contents()) + BytesToBits(LowBytes(text))
  {
    ghost var before := buffer.Contents();
    assert before + BytesToBits([]) == before;
    for i := 0 to |text|
      invariant buffer.Valid() && buffer.Contents() == before + BytesToBits(LowBytes(text[..i]))
    {
      buffer.Put(text[i], 8);
      LowByteAppended(text, i);
      assert before + (BytesToBits(LowBytes(text[..i])) + ToBits(text[i], 8))
          == before + BytesToBits(LowBytes(text[..i])) + ToBits(text[i], 8);
    }
    assert text[..|text|] == text;
  }

  lemma LowByteAppended(text: Text, i: nat)
    requires i < |text|
    ensures BytesToBits(LowBytes(text[..i + 1])) == BytesToBits(LowBytes(text[..i])) + ToBits(text[i], 8)
  {
    var low := text[i] % 256;
    assert LowBytes(text[..i + 1]) == LowBytes(text[..i]) + [low];
    BytesToBitsConcat(LowBytes(text[..i]), [low]);
    BytesToBitsOne(low);
    LowBitsOnly(text[i], 8);
    assert Pow2(8) == 256;
  }

  method CountData(rs: RSBlocks) returns (totalDataCount: nat)
    ensures totalDataCount == TotalData(rs)
  {
    totalDataCount := 0;
    for x := 0 to |rs|
      invariant totalDataCount == TotalData(rs[..x])
    {
      assert rs[..x + 1][..x] == rs[..x];
      totalDataCount := totalDataCount + rs[x].dataCount;
    }
    assert rs[..|rs|] == rs;
  }

  /** The end code and both paddings */
  method Fill(buffer: QRBitBuffer, totalDataCount: nat)
    requires buffer.Valid() && |buffer.Contents()| <= 8 * totalDataCount
    modifies buffer
    ensures buffer.Valid() && buffer.Contents() == FilledBits(old(buffer.Contents()), totalDataCount)
  {
    hide QRBitBuffer.Valid, QRBitBuffer.Contents;
    ghost var b, capacity := buffer.Contents(), 8 * totalDataCount;
    AlignedFits(b, totalDataCount);
    var n := buffer.GetLengthInBits();
    if n + 4 <= totalDataCount * 8 {
      buffer.Put(0, 4);
      ZeroBits(4);
    }
    Align(buffer);
    ghost var a := buffer.Contents();
    assert a == Aligned(Terminated(b, capacity));
    PadOut(buffer, totalDataCount);
  }

  lemma ZeroBits(n: nat)
    ensures ToBits(0, n) == False(n)
  {
    forall i | 0 <= i < n
      ensures ToBits(0, n)[i] == False(n)[i]
    {
      BitOfZero(n - 1 - i);
    }
  }

  method Align(buffer: QRBitBuffer)
    requires buffer.Valid()
    modifies buffer
    ensures buffer.Valid() && buffer.Contents() == Aligned(old(buffer.Contents()))
  {
    hide QRBitBuffer.Valid, QRBitBuffer.Contents, Padding;
    ghost var before := buffer.Contents();
    ghost var k := 0;
    assert before + False(0) == before;
    PaddingEnds(|before|, 0);
    while buffer.length % 8 != 0
      invariant buffer.Valid() && buffer.Contents() == before + False(k) && k <= Padding(|before|)
      invariant buffer.length % 8 == 0 <==> k == Padding(|before|)
      decreases Padding(|before|) - k
    {
      buffer.PutBit(false);
      k := k + 1;
      PaddingEnds(|before|, k);
      assert before + False(k) == before + False(k - 1) + [false];
    }
  }

  lemma PaddingEnds(n: nat, k: nat)
    requires k <= Padding(n)
    ensures (n + k) % 8 == 0 <==> k == Padding(n)
  {
    var q, r := n / 8, n % 8;
    assert n == 8 * q + r;
    if r > 0 {
      assert n + k == 8 * q + (r + k) && r + k <= 8;
    }
  }

  method PadOut(buffer: QRBitBuffer, totalDataCount: nat)
    requires buffer.Valid() && buffer.length % 8 == 0 && buffer.length <= 8 * totalDataCount
    modifies buffer
    ensures buffer.Valid()
    ensures buffer.Contents() == old(buffer.Contents()) + Pads(totalDataCount - old(buffer.length) / 8, true)
  {
    hide QRBitBuffer.Valid, QRBitBuffer.Contents;
    ghost var before, total := buffer.Contents(), totalDataCount - buffer.length / 8;
    ghost var left := total;
    assert before + Pads(0, true) == before;
    while true
      invariant buffer.Valid() && buffer.length == 8 * (totalDataCount - left)
      invariant left >= 0 && buffer.Contents() + Pads(left, true) == before + Pads(total, true)
      decreases left
    {
      if buffer.length >= totalDataCount * 8 { break; }
      PadNext(buffer.Contents(), left, true);
      buffer.Put(PAD0, 8);
      left := left - 1;
      if buffer.length >= totalDataCount * 8 { break; }
      PadNext(buffer.Contents(), left, false);
      buffer.Put(PAD1, 8);
      left := left - 1;
    }
    assert buffer.Contents() + [] == buffer.Contents();
  }

  lemma PadNext(b: Bits, n: nat, even: bool)
    requires n > 0
    ensures b + Pads(n, even) == b + ToBits(if even then PAD0 else PAD1, 8) + Pads(n - 1, !even)
  {}

  /** createData: throws exactly when the version has no length field or the data does not fit. */
  method CreateData(math: QRMath, typeNumber: int, rsBlocks: RSBlocks, dataList: seq<Text>)
    returns (r: Outcome<seq<Byte>>)
    requires math.Valid() && WellFormed(rsBlocks)
    ensures r.Thrown? <==> (dataList != [] && LengthInBits(typeNumber).Thrown?) || !Fits(dataList, typeNumber, rsBlocks)
    ensures r.Returned? ==> r.value == SymbolCodewords(dataList, typeNumber, rsBlocks)
  {
    hide QRMath.Valid, Codewords, FilledBits;
    var buffer := new QRBitBuffer();
    var thrown := PutSegments(buffer, typeNumber, dataList);
    if thrown { return Thrown; }
    var totalDataCount := CountData(rsBlocks);
    if buffer.length > totalDataCount * 8 { return Thrown; }
    Fill(buffer, totalDataCount);
    FilledBytes(dataList, typeNumber, rsBlocks);
    BufferBytes(buffer, DataBytes(dataList, typeNumber, rsBlocks));
    r := CreateBytes(math, buffer.buffer, rsBlocks);
  }

  lemma BufferBytes(buffer: QRBitBuffer, bytes: seq<Byte>)
    requires buffer.Valid() && buffer.Contents() == BytesToBits(bytes)
    ensures buffer.buffer == bytes
  {
    assert BytesToBits(buffer.buffer) == buffer.Contents();
    BytesRoundTrip(buffer.buffer);
    BytesRoundTrip(bytes);
  }

  // ----- the encoder object

  /** The block table of one error correction level: a row for each version from 1 to 40 */
  predicate IsTable(table: seq<RSBlocks>) {
    |table| == 40 && forall t | 0 <= t < 40 :: WellFormed(table[t])
  }

  predicate FitsVersion(list: seq<Text>, table: seq<RSBlocks>, t: int)
    requires IsTable(table)
  {
    1 <= t <= 40 && Fits(list, t, table[t - 1])
  }

  ghost function VersionCodewords(list: seq<Text>, table: seq<RSBlocks>, t: int): seq<Byte>
    requires IsTable(table) && FitsVersion(list, table, t)
  {
    SymbolCodewords(list, t, table[t - 1])
  }

  /** Whether patterns is what the pattern functions may leave in a symbol of version t */
  predicate IsPattern(patterns: Grid, t: int) {
    1 <= t <= 40 ==> Square(patterns, t * 4 + 17)
  }

  /** The finished symbol of version t for some codewords */
  function FinishedSymbol(codewords: seq<Byte>, t: int, patterns: Grid, mask: MaskPattern): (final: Grid)
    requires 1 <= t <= 40 && IsPattern(patterns, t)
    ensures IsPattern(final, t)
  {
    hide GetMask, Placed;
    Symbol(patterns, t * 4 + 17, codewords, mask)
  }

  ghost function VersionSymbol(list: seq<Text>, table: seq<RSBlocks>, t: int, patterns: Grid,
                               mask: MaskPattern): (final: Grid)
    requires IsTable(table) && FitsVersion(list, table, t) && IsPattern(patterns, t)
    ensures IsPattern(final, t)
  {
    hide Fits, IsPattern;
    FinishedSymbol(VersionCodewords(list, table, t), t, patterns, mask)
  }

  class QRCode {
    const math: QRMath
    const table: seq<RSBlocks>
    var typeNumber: int
    var dataList: seq<Text>
    var dataCache: Outcome<seq<Byte>>
    var modules: array2<Module>
    var moduleCount: nat

    /** A cached data sequence is the one createData would compute now. */
    ghost predicate Valid()
      reads this, math, math.expTable, math.logTable
    {
      && math.Valid() && IsTable(table)
      && (dataCache.Returned? ==>
            FitsVersion(dataList, table, typeNumber)
            && dataCache.value == VersionCodewords(dataList, table, typeNumber))
    }

    constructor (math: QRMath, table: seq<RSBlocks>, typeNumber: int)
      requires math.Valid() && IsTable(table)
      ensures Valid() && this.typeNumber == typeNumber && dataList == [] && this.table == table && this.math == math
    {
      this.math, this.table, this.typeNumber := math, table, typeNumber;
      dataList, dataCache, moduleCount := [], Thrown, 0;
      modules := new Module[0, 0];
    }

    method AddData(data: Text)
      requires Valid()
      modifies this`dataList, this`dataCache
      ensures Valid() && dataList == old(dataList) + [data]
    {
      dataList := dataList + [data];
      dataCache := Thrown;
    }

    /** make() with no version given picks the smallest one below 40 that fits, or else 40. */
    method ChooseTypeNumber()
      requires Valid() && typeNumber < 1
      modifies this`typeNumber
      ensures Valid() && 1 <= typeNumber <= 40
      ensures forall t | 1 <= t < typeNumber :: !FitsVersion(dataList, table, t)
      ensures typeNumber < 40 ==> FitsVersion(dataList, table, typeNumber)
    {
      hide QRMath.Valid;
      var t := 1;
      while t < 40
        invariant 1 <= t <= 40 && forall s | 1 <= s < t :: !FitsVersion(dataList, table, s)
      {
        var buffer := new QRBitBuffer();
        var totalDataCount := CountData(table[t - 1]);
        var thrown := PutSegments(buffer, t, dataList);
        if buffer.length <= totalDataCount * 8 { break; }
        t := t + 1;
      }
      typeNumber := t;
    }

    /** makeImpl, given the cells the pattern functions set */
    method MakeImpl(maskPattern: MaskPattern, patterns: Grid) returns (thrown: bool)
      requires Valid() && IsPattern(patterns, typeNumber)
      modifies this`moduleCount, this`modules, this`dataCache
      ensures Valid()
      ensures thrown <==> !FitsVersion(dataList, table, typeNumber)
      ensures !thrown ==> GridOf(modules) == VersionSymbol(dataList, table, typeNumber, patterns, maskPattern)
    {
      hide QRMath.Valid, Symbol, SymbolCodewords;
      if typeNumber < 1 || typeNumber > 40 { return true; }
      var n := typeNumber * 4 + 17;
      moduleCount := n;
      modules := CopyGrid(patterns, n);
      if dataCache.Thrown? {
        dataCache := CreateData(math, typeNumber, table[typeNumber - 1], dataList);
        if dataCache.Thrown? { return true; }
      }
      MapData(modules, moduleCount, dataCache.value, maskPattern);
      return false;
    }

    /** The mask whose trial symbol has the fewest lost points, the first one among equals */
    method GetBestMaskPattern(patternsOf: MaskPattern -> Grid, lostPoint: Grid -> real)
      returns (thrown: bool, pattern: MaskPattern)
      requires Valid() && forall m :: IsPattern(patternsOf(m), typeNumber)
      modifies this`moduleCount, this`modules, this`dataCache
      ensures Valid()
      ensures thrown <==> !FitsVersion(dataList, table, typeNumber)
      ensures !thrown ==> IsBestMask(dataList, table, typeNumber, patternsOf, lostPoint, pattern, 8)
    {
      hide QRMath.Valid, VersionSymbol, FitsVersion, VersionCodewords;
      var minLostPoint := 0.0;
      pattern := 0;
      for i := 0 to 8
        invariant Valid()
        invariant i > 0 ==> FitsVersion(dataList, table, typeNumber)
        invariant i > 0 ==> pattern < i && IsBestMask(dataList, table, typeNumber, patternsOf, lostPoint, pattern, i)
        invariant i > 0 ==>
                    minLostPoint == lostPoint(VersionSymbol(dataList, table, typeNumber, patternsOf(pattern), pattern))
      {
        thrown := MakeImpl(i, patternsOf(i));
        if thrown { return; }
        var lost := lostPoint(GridOf(modules));
        if i == 0 || minLostPoint > lost {
          minLostPoint := lost;
          pattern := i;
        }
      }
      thrown := false;
    }

    /**
     make(): afterwards the object holds the symbol of its data in its version, drawn with the best
     mask; it throws exactly when the data fits no version it may use.
     */
    method Make(trialPatterns: int -> MaskPattern -> Grid, finalPatterns: int -> MaskPattern -> Grid,
                lostPoint: Grid -> real)
      returns (thrown: bool, mask: MaskPattern)
      requires Valid()
      requires forall t, m :: IsPattern(trialPatterns(t)(m), t) && IsPattern(finalPatterns(t)(m), t)
      modifies this`typeNumber, this`moduleCount, this`modules, this`dataCache
      ensures Valid() && (old(typeNumber) >= 1 ==> typeNumber == old(typeNumber))
      ensures thrown <==> !FitsVersion(dataList, table, typeNumber)
      ensures old(typeNumber) < 1 ==> forall t | 1 <= t < typeNumber :: !FitsVersion(dataList, table, t)
      ensures old(typeNumber) < 1 && thrown ==> forall t | 1 <= t <= 40 :: !FitsVersion(dataList, table, t)
      ensures !thrown ==>
                GridOf(modules) == VersionSymbol(dataList, table, typeNumber, finalPatterns(typeNumber)(mask), mask)
      ensures !thrown ==> IsBestMask(dataList, table, typeNumber, trialPatterns(typeNumber), lostPoint, mask, 8)
    {
      hide QRMath.Valid, VersionSymbol, VersionCodewords, IsBestMask;
      if typeNumber < 1 { ChooseTypeNumber(); }
      var t := typeNumber;
      thrown, mask := GetBestMaskPattern(trialPatterns(t), lostPoint);
      if thrown { return; }
      thrown := MakeImpl(mask, finalPatterns(t)(mask));
    }
  }

  /** Pattern p loses the fewest points among the first k masks, and more than none before it. */
  ghost predicate IsBestMask(list: seq<Text>, table: seq<RSBlocks>, t: int, patternsOf: MaskPattern -> Grid,
                             lostPoint: Grid -> real, p: MaskPattern, k: nat)
    requires IsTable(table) && FitsVersion(list, table, t) && forall m :: IsPattern(patternsOf(m), t)
  {
    var best := lostPoint(VersionSymbol(list, table, t, patternsOf(p), p));
    forall m: MaskPattern | m < k ::
      var lost := lostPoint(VersionSymbol(list, table, t, patternsOf(m), m));
      best <= lost && (m < p ==> best < lost)
  }

  method CopyGrid(patterns: Grid, n: nat) returns (modules: array2<Module>)
    requires Square(patterns, n)
    ensures fresh(modules) && modules.Length0 == modules.Length1 == n && GridOf(modules) == patterns
  {
    modules := new Module[n, n]((r, c) requires 0 <= r < n && 0 <= c < n => patterns[r][c]);
    forall r | 0 <= r < n
      ensures GridOf(modules)[r] == patterns[r]
    {
      assert forall c | 0 <= c < n :: GridOf(modules)[r][c] == patterns[r][c];
    }
  }

  /**
   From addData to the reader: on any table whose rows respect the capacity of the length fields,
   the symbol make() leaves reads back as the texts added (their low bytes), whatever mask wins.
   */
  lemma MadeSymbolReadsBack(list: seq<Text>, table: seq<RSBlocks>, t: int, patterns: Grid, mask: MaskPattern)
    requires IsTable(table) && FitsVersion(list, table, t) && IsPattern(patterns, t)
    requires TotalData(table[t - 1]) <= if t < 10 then 256 else 65536
    requires HasRoom(patterns, t, table[t - 1])
    ensures ReadVersion(VersionSymbol(list, table, t, patterns, mask), patterns, mask, t, table[t - 1])
            == Returned(LowTexts(list))
  {
    hide FreeBefore, Steps, ReadSymbol, Fits, Symbol, SymbolCodewords;
    FittingTextsHaveFittingLengths(list, t, table[t - 1]);
    RoundTrip(VersionSymbol(list, table, t, patterns, mask), patterns, t * 4 + 17, mask, list, t, table[t - 1]);
  }

  /** The patterns leave at least as many cells free as the codewords have bits. */
  predicate HasRoom(patterns: Grid, t: int, rs: RSBlocks)
    requires 1 <= t <= 40 && IsPattern(patterns, t)
  {
    FreeBefore(patterns, t * 4 + 17, Steps(t * 4 + 17)) >= 8 * TotalCodes(rs)
  }

  function ReadVersion(final: Grid, patterns: Grid, mask: MaskPattern, t: int, rs: RSBlocks): Outcome<seq<seq<Byte>>>
    requires 1 <= t <= 40 && IsPattern(patterns, t) && IsPattern(final, t)
  {
    ReadSymbol(final, patterns, t * 4 + 17, mask, t, rs)
  }

  // ----- the hypotheses of the round trip can be met

  /** A grid with no patterns at all */
  function OpenGrid(n: nat): (g: Grid)
    ensures Square(g, n)
  {
    seq(n, row => seq(n, col => Unset))
  }

  lemma {:induction false} OpenGridIsFree(n: nat, t: nat)
    requires Walkable(n) && t <= Steps(n)
    ensures FreeBefore(OpenGrid(n), n, t) == t
  {
    hide CellAt, Steps;
    if t > 0 { OpenGridIsFree(n, t - 1); }
  }

  /** Every text of at most 17 bytes reads back from the codewords of the smallest symbol, for every mask. */
  lemma ShortTextReadsBack(text: Text, mask: MaskPattern) returns (final: Grid, g: Grid, rs: RSBlocks)
    requires |text| <= 17 && forall i | 0 <= i < |text| :: text[i] < 256
    ensures rs == [RSBlock(26, 19)] && Square(g, 21) && Square(final, 21) && Fits([text], 1, rs)
    ensures IsPlaced(final, g, 21, SymbolCodewords([text], 1, rs), mask)
    ensures ReadSymbol(final, g, 21, mask, 1, rs) == Returned([text])
  {
    hide ReadSymbol, SymbolCodewords, IsPlaced, FreeBefore, Placed, SegmentBits;
    g, rs := OpenGrid(21), [RSBlock(26, 19)];
    ShortTextFits(text, rs);
    final := Symbol(g, 21, SymbolCodewords([text], 1, rs), mask);
    OpenGridIsFree(21, Steps(21));
    TextRoundTrip(final, g, 21, mask, text, 1, rs);
  }

  lemma ShortTextFits(text: Text, rs: RSBlocks)
    requires |text| <= 17 && rs == [RSBlock(26, 19)]
    ensures WellFormed(rs) && TotalData(rs) == 19 && TotalCodes(rs) == 26 && Fits([text], 1, rs)
    ensures |text| < Pow2(Width(1))
  {
    PowersOfWidths();
    assert rs[..0] == [] && [text][..0] == [];
    assert DataBits([text], 8) == DataBits([], 8) + SegmentBits(text, 8);
  }
}
