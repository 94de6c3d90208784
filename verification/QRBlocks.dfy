/** createBytes: error correction per block and the final interleaved codewords. */
module QRBlocks {
  import opened GaloisField
  import opened Interleaving
  import opened Outcomes
  import opened Polynomials
  import opened QRMathTables
  import opened QRPolynomials
  import opened ReedSolomon

  datatype RSBlock = RSBlock(totalCount: nat, dataCount: nat) {
    function EcCount(): int {
      totalCount - dataCount
    }
  }

  type RSBlocks = seq<RSBlock>

  /** What holds of every row of the block table */
  predicate WellFormed(rs: RSBlocks) {
    forall r | 0 <= r < |rs| :: 0 < rs[r].dataCount < rs[r].totalCount <= 255
  }

  function DataCounts(rs: RSBlocks): (lens: seq<nat>)
    ensures |lens| == |rs|
  {
    seq(|rs|, r requires 0 <= r < |rs| => rs[r].dataCount)
  }

  function EcCounts(rs: RSBlocks): (lens: seq<nat>)
    requires WellFormed(rs)
    ensures |lens| == |rs|
  {
    seq(|rs|, r requires 0 <= r < |rs| => rs[r].EcCount())
  }

  function TotalData(rs: RSBlocks): nat {
    if |rs| == 0 then 0 else TotalData(rs[..|rs| - 1]) + rs[|rs| - 1].dataCount
  }

  function TotalCodes(rs: RSBlocks): nat {
    if |rs| == 0 then 0 else TotalCodes(rs[..|rs| - 1]) + rs[|rs| - 1].totalCount
  }

  lemma {:induction false} TotalDataPrefix(rs: RSBlocks, r: nat)
    requires r <= |rs|
    ensures TotalData(rs[..r]) <= TotalData(rs)
    ensures r < |rs| ==> TotalData(rs[..r + 1]) == TotalData(rs[..r]) + rs[r].dataCount
  {
    if r == |rs| {
      assert rs[..r] == rs;
    } else {
      TotalDataPrefix(rs[..|rs| - 1], r);
      assert rs[..|rs| - 1][..r] == rs[..r];
      assert rs[..r + 1][..r] == rs[..r];
    }
  }

  // ----- the specification

  /** Data block r of the buffer: the blocks lie one after the other. */
  function DataBlock(bytes: seq<Byte>, rs: RSBlocks, r: nat): (block: seq<Byte>)
    requires |bytes| >= TotalData(rs) && r < |rs|
    ensures |block| == rs[r].dataCount
  {
    TotalDataPrefix(rs, r);
    TotalDataPrefix(rs, r + 1);
    var offset := TotalData(rs[..r]);
    bytes[offset..offset + rs[r].dataCount]
  }

  function DataBlocks(bytes: seq<Byte>, rs: RSBlocks): (blocks: Blocks)
    requires |bytes| >= TotalData(rs)
    ensures |blocks| == |rs|
    ensures Lengths(blocks) == DataCounts(rs)
  {
    seq(|rs|, r requires 0 <= r < |rs| => DataBlock(bytes, rs, r))
  }

  ghost function EcBlocks(blocks: Blocks, rs: RSBlocks): (ecs: Blocks)
    requires |blocks| == |rs| && WellFormed(rs)
    ensures |ecs| == |rs|
    ensures Lengths(ecs) == EcCounts(rs)
  {
    seq(|rs|, r requires 0 <= r < |rs| => EcBytes(blocks[r], rs[r].EcCount()))
  }

  function MaxDataCount(rs: RSBlocks): nat {
    if |rs| == 0 then 0 else Larger(MaxDataCount(rs[..|rs| - 1]), rs[|rs| - 1].dataCount)
  }

  function MaxEcCount(rs: RSBlocks): nat {
    if |rs| == 0 then 0 else Larger(MaxEcCount(rs[..|rs| - 1]), rs[|rs| - 1].EcCount())
  }

  function Larger(m: nat, n: int): nat {
    if m > n then m else n
  }

  lemma {:induction false} MaxBounds(rs: RSBlocks)
    ensures forall r | 0 <= r < |rs| :: rs[r].dataCount <= MaxDataCount(rs) && rs[r].EcCount() <= MaxEcCount(rs)
  {
    if |rs| > 0 { MaxBounds(rs[..|rs| - 1]); }
  }

  /** All the data columns, then all the error correction columns */
  ghost function Codewords(bytes: seq<Byte>, rs: RSBlocks): seq<Byte>
    requires |bytes| >= TotalData(rs) && WellFormed(rs)
  {
    var blocks := DataBlocks(bytes, rs);
    Columns(blocks, MaxDataCount(rs)) + Columns(EcBlocks(blocks, rs), MaxEcCount(rs))
  }

  /** The blocks of a sequence of codewords, each with its error correction bytes */
  function Received(codewords: seq<Byte>, rs: RSBlocks): (words: Blocks)
    requires WellFormed(rs)
    ensures |words| == |rs|
  {
    var data := Deinterleave(codewords, DataCounts(rs));
    var ecs := Deinterleave(After(codewords, TotalData(rs)), EcCounts(rs));
    seq(|rs|, r requires 0 <= r < |rs| => data[r] + ecs[r])
  }

  function After(codewords: seq<Byte>, n: nat): seq<Byte> {
    if n <= |codewords| then codewords[n..] else []
  }

  /** The data bytes of a sequence of codewords */
  function DataOf(codewords: seq<Byte>, rs: RSBlocks): seq<Byte> {
    Joined(Deinterleave(codewords, DataCounts(rs)))
  }

  function Joined(blocks: Blocks): seq<Byte> {
    if |blocks| == 0 then [] else Joined(blocks[..|blocks| - 1]) + blocks[|blocks| - 1]
  }

  // ----- properties

  lemma {:induction false} BlocksPartition(bytes: seq<Byte>, rs: RSBlocks)
    requires |bytes| >= TotalData(rs)
    ensures Joined(DataBlocks(bytes, rs)) == bytes[..TotalData(rs)]
  {
    var n := |rs| - 1;
    if n >= 0 {
      BlocksPartition(bytes, rs[..n]);
      BlocksPrefix(bytes, rs);
    }
  }

  lemma BlocksPrefix(bytes: seq<Byte>, rs: RSBlocks)
    requires |rs| > 0 && |bytes| >= TotalData(rs)
    ensures DataBlocks(bytes, rs)[..|rs| - 1] == DataBlocks(bytes, rs[..|rs| - 1])
  {
    var n := |rs| - 1;
    var blocks, before := DataBlocks(bytes, rs), DataBlocks(bytes, rs[..n]);
    forall r | 0 <= r < n
      ensures blocks[r] == before[r]
    {
      DataBlockPrefix(bytes, rs, r);
    }
  }

  lemma DataBlockPrefix(bytes: seq<Byte>, rs: RSBlocks, r: nat)
    requires r < |rs| - 1 && |bytes| >= TotalData(rs) >= TotalData(rs[..|rs| - 1])
    ensures DataBlock(bytes, rs, r) == DataBlock(bytes, rs[..|rs| - 1], r)
  {
    hide TotalData, DataBlock;
    assert rs[..|rs| - 1][..r] == rs[..r];
    DataBlockAt(bytes, rs, r);
    DataBlockAt(bytes, rs[..|rs| - 1], r);
  }

  lemma {:induction false} CountsAddUp(rs: RSBlocks)
    requires WellFormed(rs)
    ensures Total(DataCounts(rs)) == TotalData(rs)
    ensures Total(DataCounts(rs)) + Total(EcCounts(rs)) == TotalCodes(rs)
  {
    var n := |rs| - 1;
    if n >= 0 {
      CountsAddUp(rs[..n]);
      assert DataCounts(rs)[..n] == DataCounts(rs[..n]);
      assert EcCounts(rs)[..n] == EcCounts(rs[..n]);
    }
  }

  /** Exactly as many codewords as the blocks have bytes */
  lemma CodewordsTotal(bytes: seq<Byte>, rs: RSBlocks)
    requires |bytes| >= TotalData(rs) && WellFormed(rs)
    ensures |Codewords(bytes, rs)| == TotalCodes(rs)
  {
    var blocks := DataBlocks(bytes, rs);
    var ecs := EcBlocks(blocks, rs);
    MaxBounds(rs);
    ColumnsTotal(blocks, MaxDataCount(rs));
    ColumnsTotal(ecs, MaxEcCount(rs));
    AllColumns(DataCounts(rs), MaxDataCount(rs));
    AllColumns(EcCounts(rs), MaxEcCount(rs));
    CountsAddUp(rs);
  }

  /** The length of the data part of the codewords */
  lemma DataColumns(bytes: seq<Byte>, rs: RSBlocks)
    requires |bytes| >= TotalData(rs) && WellFormed(rs)
    ensures |Columns(DataBlocks(bytes, rs), MaxDataCount(rs))| == TotalData(rs)
  {
    MaxBounds(rs);
    ColumnsTotal(DataBlocks(bytes, rs), MaxDataCount(rs));
    AllColumns(DataCounts(rs), MaxDataCount(rs));
    CountsAddUp(rs);
  }

  /** Every block comes back from the codewords with its error correction bytes, whatever follows them. */
  lemma BlocksInvertible(bytes: seq<Byte>, rs: RSBlocks, rest: seq<Byte>)
    requires |bytes| >= TotalData(rs) && WellFormed(rs)
    ensures var blocks := DataBlocks(bytes, rs);
            && Deinterleave(Codewords(bytes, rs) + rest, DataCounts(rs)) == blocks
            && Deinterleave(After(Codewords(bytes, rs) + rest, TotalData(rs)), EcCounts(rs)) == EcBlocks(blocks, rs)
            && Received(Codewords(bytes, rs) + rest, rs) == Words(bytes, rs)
  {
    hide Deinterleave, Columns, MaxDataCount, MaxEcCount, TotalData;
    var blocks := DataBlocks(bytes, rs);
    var ecs := EcBlocks(blocks, rs);
    var data, ec := Columns(blocks, MaxDataCount(rs)), Columns(ecs, MaxEcCount(rs));
    MaxBounds(rs);
    DataColumns(bytes, rs);
    DeinterleavesTo(blocks, DataCounts(rs), MaxDataCount(rs), ec, rest);
    DeinterleavesTo(ecs, EcCounts(rs), MaxEcCount(rs), rest, []);
    assert (data + ec + rest)[|data|..] == ec + rest + [];
  }

  /** The blocks of the buffer with their error correction bytes */
  ghost function Words(bytes: seq<Byte>, rs: RSBlocks): (words: Blocks)
    requires |bytes| >= TotalData(rs) && WellFormed(rs)
    ensures |words| == |rs|
  {
    var blocks := DataBlocks(bytes, rs);
    seq(|rs|, r requires 0 <= r < |rs| => blocks[r] + EcBlocks(blocks, rs)[r])
  }

  lemma WordAt(bytes: seq<Byte>, rs: RSBlocks, r: nat) returns (block: seq<Byte>)
    requires |bytes| >= TotalData(rs) && WellFormed(rs) && r < |rs|
    ensures block == DataBlocks(bytes, rs)[r] && |block| == rs[r].dataCount
    ensures Words(bytes, rs)[r] == block + EcBytes(block, rs[r].EcCount())
  {
    hide EcBytes, DataBlocks;
    var blocks := DataBlocks(bytes, rs);
    block := blocks[r];
    assert Lengths(blocks)[r] == DataCounts(rs)[r];
    assert EcBlocks(blocks, rs)[r] == EcBytes(blocks[r], rs[r].EcCount());
  }

  /** In particular, the data bytes come back. */
  lemma CodewordsInvertible(bytes: seq<Byte>, rs: RSBlocks, rest: seq<Byte>)
    requires |bytes| == TotalData(rs) && WellFormed(rs)
    ensures DataOf(Codewords(bytes, rs) + rest, rs) == bytes
  {
    BlocksInvertible(bytes, rs, rest);
    BlocksPartition(bytes, rs);
  }

  lemma DeinterleavesTo(blocks: Blocks, lens: seq<nat>, n: nat, tail: seq<Byte>, rest: seq<Byte>)
    requires Lengths(blocks) == lens && forall s | 0 <= s < |lens| :: lens[s] <= n
    ensures Deinterleave(Columns(blocks, n) + tail + rest, lens) == blocks
  {
    forall s | 0 <= s < |blocks|
      ensures |blocks[s]| <= n
    {
      assert Lengths(blocks)[s] == lens[s];
    }
    InterleavingInvertible(blocks, n, tail + rest);
    assert Columns(blocks, n) + tail + rest == Columns(blocks, n) + (tail + rest);
  }

  /** Every block with its error correction bytes vanishes at the roots of its generator. */
  lemma BlocksAreCodewords(bytes: seq<Byte>, rs: RSBlocks, r: nat)
    requires |bytes| >= TotalData(rs) && WellFormed(rs) && r < |rs|
    ensures VanishesTo(Words(bytes, rs)[r], rs[r].EcCount())
  {
    hide Words;
    var block := WordAt(bytes, rs, r);
    CodewordVanishes(block, rs[r].EcCount());
  }

  lemma WordLengths(bytes: seq<Byte>, codewords: seq<Byte>, rs: RSBlocks, r: nat)
    requires |bytes| >= TotalData(rs) && WellFormed(rs) && r < |rs|
    ensures |Words(bytes, rs)[r]| == |Received(codewords, rs)[r]| == rs[r].totalCount
  {
    hide Words;
    var block := WordAt(bytes, rs, r);
    ReceivedLength(codewords, rs, r);
  }

  lemma ReceivedLength(codewords: seq<Byte>, rs: RSBlocks, r: nat)
    requires WellFormed(rs) && r < |rs|
    ensures |Received(codewords, rs)[r]| == rs[r].totalCount
  {
    hide Slot, After;
    assert |Deinterleave(codewords, DataCounts(rs))[r]| == rs[r].dataCount;
    assert |Deinterleave(After(codewords, TotalData(rs)), EcCounts(rs))[r]| == rs[r].EcCount();
  }

  /** Every block of the received codewords has at most half as many damaged bytes as it has error correction bytes. */
  ghost predicate Correctable(codewords: seq<Byte>, bytes: seq<Byte>, rs: RSBlocks)
    requires |bytes| >= TotalData(rs) && WellFormed(rs)
  {
    forall r | 0 <= r < |rs| ::
      WordLengths(bytes, codewords, rs, r);
      2 * Distance(Received(codewords, rs)[r], Words(bytes, rs)[r]) <= rs[r].EcCount()
  }

  /**
   While no block has more than half as many damaged bytes as it has error correction bytes, only
   one message can have produced the codewords. The codewords of a message are among them.
   */
  lemma MessageUnique(codewords: seq<Byte>, bytes: seq<Byte>, bytes': seq<Byte>, rs: RSBlocks)
    requires |bytes| == |bytes'| == TotalData(rs) && WellFormed(rs)
    ensures Correctable(codewords, bytes, rs) && Correctable(codewords, bytes', rs) ==> bytes == bytes'
    ensures Correctable(Codewords(bytes, rs), bytes, rs)
  {
    hide TotalData, Received, Codewords;
    var blocks, blocks' := DataBlocks(bytes, rs), DataBlocks(bytes', rs);
    if Correctable(codewords, bytes, rs) && Correctable(codewords, bytes', rs) {
      forall r | 0 <= r < |rs|
        ensures blocks[r] == blocks'[r]
      {
        BlockUnique(codewords, bytes, bytes', rs, r);
      }
      assert blocks == blocks';
      BlocksPartition(bytes, rs);
      BlocksPartition(bytes', rs);
    }
    OwnCodewords(bytes, rs);
  }

  lemma OwnCodewords(bytes: seq<Byte>, rs: RSBlocks)
    requires |bytes| == TotalData(rs) && WellFormed(rs)
    ensures Correctable(Codewords(bytes, rs), bytes, rs)
  {
    hide TotalData, Received, Codewords, Words;
    BlocksInvertible(bytes, rs, []);
    assert Codewords(bytes, rs) + [] == Codewords(bytes, rs);
    forall r | 0 <= r < |rs|
      ensures Distance(Words(bytes, rs)[r], Words(bytes, rs)[r]) == 0
    {
      DistanceSelf(Words(bytes, rs)[r]);
    }
  }

  lemma BlockUnique(codewords: seq<Byte>, bytes: seq<Byte>, bytes': seq<Byte>, rs: RSBlocks, r: nat)
    requires |bytes| == |bytes'| == TotalData(rs) && WellFormed(rs) && r < |rs|
    requires Correctable(codewords, bytes, rs) && Correctable(codewords, bytes', rs)
    ensures DataBlocks(bytes, rs)[r] == DataBlocks(bytes', rs)[r]
  {
    hide Received, Words, DataBlocks, Distance, EcBytes;
    var block := WordAt(bytes, rs, r);
    var block' := WordAt(bytes', rs, r);
    WordLengths(bytes, codewords, rs, r);
    CorrectionUnique(Received(codewords, rs)[r], block, block', rs[r].EcCount());
  }

  // ----- createBytes

  /** The remainder with its missing leading zeros */
  method PadRemainder(modPoly: Poly, n: nat) returns (ecdata: seq<Byte>)
    requires |modPoly| <= n
    ensures ecdata == PadLeft(modPoly, n)
  {
    var cells := new Byte[n];
    for x := 0 to n
      invariant forall k | 0 <= k < x :: cells[k] == PadLeft(modPoly, n)[k]
    {
      var modIndex := x + |modPoly| - n;
      cells[x] := if modIndex >= 0 then modPoly[modIndex] else 0;
    }
    ecdata := cells[..];
  }

  /**
   The error correction bytes of one block: throws exactly when the generator does, or has zero
   coefficients and there is something to divide.
   */
  method BlockEc(math: QRMath, dcdata: seq<Byte>, ecCount: nat) returns (r: Outcome<seq<Byte>>)
    requires math.Valid()
    ensures r.Thrown? <==> ecCount > 255 || (ecCount == 255 && Strip(dcdata) != [])
    ensures r.Returned? ==> r.value == EcBytes(dcdata, ecCount)
  {
    hide QRMath.Valid, Remainder, Generator, HasZero;
    var generator := GetErrorCorrectPolynomial(math, ecCount);
    if generator.Thrown? { return Thrown; }
    var rsPoly := generator.value;
    GeneratorZeros(ecCount);
    GeneratorMonic(ecCount);
    var rawPoly := NewPolynomial(dcdata, |rsPoly| - 1);
    ShortRemainder(rawPoly, rsPoly);
    var remainder := Mod(math, rawPoly, rsPoly);
    if remainder.Thrown? { return Thrown; }
    var ecdata := PadRemainder(remainder.value, |rsPoly| - 1);
    return Returned(ecdata);
  }

  lemma ShortRemainder(p: Poly, e: Poly)
    requires |e| > 0 && e[0] != 0
    ensures |p| < |e| ==> Remainder(p, e) == p
  {}

  method CopyBlock(buffer: seq<Byte>, offset: nat, dcCount: nat) returns (block: seq<Byte>)
    requires offset + dcCount <= |buffer|
    ensures block == buffer[offset..offset + dcCount]
  {
    var cells := new Byte[dcCount];
    for i := 0 to dcCount
      invariant forall k | 0 <= k < i :: cells[k] == buffer[k + offset]
    {
      cells[i] := buffer[i + offset];
    }
    block := cells[..];
  }

  /** The body of the first loop of createBytes */
  method SplitBlock(math: QRMath, buffer: seq<Byte>, offset: nat, rsBlock: RSBlock)
    returns (thrown: bool, block: seq<Byte>, ec: seq<Byte>)
    requires math.Valid() && 0 < rsBlock.dataCount < rsBlock.totalCount <= 255
    requires offset + rsBlock.dataCount <= |buffer|
    ensures !thrown && block == buffer[offset..offset + rsBlock.dataCount]
    ensures ec == EcBytes(block, rsBlock.EcCount())
  {
    block := CopyBlock(buffer, offset, rsBlock.dataCount);
    var r := BlockEc(math, block, rsBlock.totalCount - rsBlock.dataCount);
    if r.Thrown? { return true, block, []; }
    return false, block, r.value;
  }

  /** The first loop of createBytes: data and error correction bytes of every block */
  method SplitBlocks(math: QRMath, buffer: seq<Byte>, rs: RSBlocks)
    returns (thrown: bool, dcdata: Blocks, ecdata: Blocks, maxDcCount: nat, maxEcCount: nat)
    requires math.Valid() && WellFormed(rs) && |buffer| >= TotalData(rs)
    ensures !thrown
    ensures dcdata == DataBlocks(buffer, rs) && ecdata == EcBlocks(dcdata, rs)
    ensures maxDcCount == MaxDataCount(rs) && maxEcCount == MaxEcCount(rs)
  {
    hide EcBytes, QRMath.Valid, DataBlock;
    var offset := 0;
    maxDcCount, maxEcCount, dcdata, ecdata := 0, 0, [], [];
    for r := 0 to |rs|
      invariant offset == TotalData(rs[..r])
      invariant maxDcCount == MaxDataCount(rs[..r]) && maxEcCount == MaxEcCount(rs[..r])
      invariant |dcdata| == |ecdata| == r
      invariant forall k | 0 <= k < r :: dcdata[k] == DataBlock(buffer, rs, k)
      invariant forall k | 0 <= k < r :: ecdata[k] == EcBytes(dcdata[k], rs[k].EcCount())
    {
      assert rs[..r + 1][..r] == rs[..r];
      DataBlockAt(buffer, rs, r);
      var dcCount := rs[r].dataCount;
      var ecCount := rs[r].totalCount - dcCount;
      maxDcCount := if maxDcCount > dcCount then maxDcCount else dcCount;
      maxEcCount := if maxEcCount > ecCount then maxEcCount else ecCount;
      var block, ec;
      thrown, block, ec := SplitBlock(math, buffer, offset, rs[r]);
      offset := offset + dcCount;
      dcdata, ecdata := dcdata + [block], ecdata + [ec];
    }
    assert rs[..|rs|] == rs;
    thrown := false;
  }

  lemma DataBlockAt(bytes: seq<Byte>, rs: RSBlocks, r: nat)
    requires |bytes| >= TotalData(rs) && r < |rs|
    ensures TotalData(rs[..r]) + rs[r].dataCount == TotalData(rs[..r + 1]) <= TotalData(rs)
    ensures DataBlock(bytes, rs, r) == bytes[TotalData(rs[..r])..TotalData(rs[..r]) + rs[r].dataCount]
  {
    TotalDataPrefix(rs, r);
    TotalDataPrefix(rs, r + 1);
  }

  /** The inner output loop: writes column z of blocks from index start on. */
  method EmitColumn(data: array<Byte>, start: nat, blocks: Blocks, z: nat) returns (index: nat)
    requires start + |Column(blocks, z)| <= data.Length
    modifies data
    ensures index == start + |Column(blocks, z)|
    ensures data[..index] == old(data[..start]) + Column(blocks, z)
  {
    index := start;
    ghost var before := data[..start];
    assert before + [] == before;
    for s := 0 to |blocks|
      invariant index == start + |Column(blocks[..s], z)| <= data.Length
      invariant data[..index] == before + Column(blocks[..s], z)
    {
      assert blocks[..s + 1][..s] == blocks[..s];
      if z < |blocks[s]| {
        RoomLeft(blocks, z, s);
        data[index] := blocks[s][z];
        index := index + 1;
      }
    }
    assert blocks[..|blocks|] == blocks;
  }

  /** One of the output loops: writes the columns of blocks from index start on. */
  method EmitColumns(data: array<Byte>, start: nat, blocks: Blocks, n: nat) returns (index: nat)
    requires start + |Columns(blocks, n)| <= data.Length
    modifies data
    ensures index == start + |Columns(blocks, n)|
    ensures data[..index] == old(data[..start]) + Columns(blocks, n)
  {
    hide Column, Columns;
    index := start;
    ghost var before := data[..start];
    NoColumns(blocks);
    assert before + [] == before;
    for z := 0 to n
      invariant index == start + |Columns(blocks, z)| <= data.Length
      invariant data[..index] == before + Columns(blocks, z)
    {
      ColumnsRoom(blocks, z + 1, n);
      OneMoreColumn(blocks, z, before);
      index := EmitColumn(data, index, blocks, z);
    }
  }

  lemma NoColumns(blocks: Blocks)
    ensures Columns(blocks, 0) == []
  {}

  lemma OneMoreColumn(blocks: Blocks, z: nat, before: seq<Byte>)
    ensures before + Columns(blocks, z + 1) == before + Columns(blocks, z) + Column(blocks, z)
    ensures |Columns(blocks, z + 1)| == |Columns(blocks, z)| + |Column(blocks, z)|
  {}

  lemma ColumnsRoom(blocks: Blocks, m: nat, n: nat)
    requires m <= n
    ensures |Columns(blocks, m)| <= |Columns(blocks, n)|
  {
    ColumnsTotal(blocks, m);
    ColumnsTotal(blocks, n);
    ColumnsMonotone(Lengths(blocks), m, n);
  }

  lemma RoomLeft(blocks: Blocks, z: nat, s: nat)
    requires s < |blocks| && z < |blocks[s]|
    ensures |Column(blocks[..s], z)| < |Column(blocks, z)|
  {
    ColumnLength(blocks, z);
    ColumnLength(blocks[..s], z);
    assert Lengths(blocks)[..s] == Lengths(blocks[..s]);
    RankMonotone(Lengths(blocks), s, |blocks|, z);
    assert Lengths(blocks)[..|blocks|] == Lengths(blocks);
  }

  method CountCodes(rs: RSBlocks) returns (totalCodeCount: nat)
    ensures totalCodeCount == TotalCodes(rs)
  {
    totalCodeCount := 0;
    for y := 0 to |rs|
      invariant totalCodeCount == TotalCodes(rs[..y])
    {
      assert rs[..y + 1][..y] == rs[..y];
      totalCodeCount := totalCodeCount + rs[y].totalCount;
    }
    assert rs[..|rs|] == rs;
  }

  /**
   createBytes: never throws on the rows of the table, and fills all the codewords of the symbol.
   */
  method CreateBytes(math: QRMath, buffer: seq<Byte>, rs: RSBlocks) returns (r: Outcome<seq<Byte>>)
    requires math.Valid() && WellFormed(rs) && |buffer| >= TotalData(rs)
    ensures r == Returned(Codewords(buffer, rs))
  {
    hide EcBytes, QRMath.Valid, Columns, DataBlocks, EcBlocks, MaxDataCount, MaxEcCount;
    var thrown, dcdata, ecdata, maxDcCount, maxEcCount := SplitBlocks(math, buffer, rs);
    if thrown { return Thrown; }
    var totalCodeCount := CountCodes(rs);
    CodewordsTotal(buffer, rs);
    var data := new Byte[totalCodeCount];
    ghost var dcs, ecs := Columns(dcdata, maxDcCount), Columns(ecdata, maxEcCount);
    assert data[..0] + dcs == dcs;
    var index := EmitColumns(data, 0, dcdata, maxDcCount);
    assert data[..index] == dcs;
    index := EmitColumns(data, index, ecdata, maxEcCount);
    assert data[..] == data[..index] == dcs + ecs;
    return Returned(data[..]);
  }
}
