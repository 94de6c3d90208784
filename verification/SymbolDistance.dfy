/** The error correction of the blocks, as far as the cells of the finished symbol: how many of them differ. */
module SymbolDistance {
  import opened Bitwise
  import opened BitStreams
  import opened GaloisField
  import opened Interleaving
  import opened Placement
  import opened QRBlocks
  import opened QRCodes
  import opened QRData
  import opened QRMatrix
  import opened ReedSolomon

  // ----- distances of sequences

  lemma {:induction false} DistanceConcat<T>(a: seq<T>, b: seq<T>, a': seq<T>, b': seq<T>)
    requires |a| == |a'| && |b| == |b'|
    ensures Distance(a + b, a' + b') == Distance(a, a') + Distance(b, b')
    decreases |b|
  {
    var n := |b| - 1;
    if n < 0 {
      assert a + b == a && a' + b' == a';
    } else {
      assert (a + b)[..|a| + n] == a + b[..n] && (a' + b')[..|a| + n] == a' + b'[..n];
      DistanceConcat(a, b[..n], a', b'[..n]);
    }
  }

  lemma {:induction false} DistanceZero<T>(u: seq<T>, v: seq<T>)
    requires |u| == |v| && Distance(u, v) == 0
    ensures u == v
  {
    var n := |u| - 1;
    if n >= 0 {
      DistanceZero(u[..n], v[..n]);
      assert u == u[..n] + [u[n]] && v == v[..n] + [v[n]];
    }
  }

  // ----- the interleaved codewords

  /** What one block contributes to a column */
  function Cell(block: seq<Byte>, z: nat): seq<Byte> {
    if z < |block| then [block[z]] else []
  }

  lemma ColumnInit(a: Blocks, z: nat)
    requires a != []
    ensures Column(a, z) == Column(a[..|a| - 1], z) + Cell(a[|a| - 1], z)
  {}

  function Prefix(s: seq<Byte>, n: nat): seq<Byte> {
    if n <= |s| then s[..n] else s
  }

  lemma PrefixDistance(u: seq<Byte>, v: seq<Byte>, z: nat)
    requires |u| == |v|
    ensures Distance(Prefix(u, z + 1), Prefix(v, z + 1))
            == Distance(Prefix(u, z), Prefix(v, z)) + Distance(Cell(u, z), Cell(v, z))
  {
    if z < |u| {
      assert u[..z + 1] == u[..z] + [u[z]] && v[..z + 1] == v[..z] + [v[z]];
      DistanceConcat(u[..z], [u[z]], v[..z], [v[z]]);
    } else {
      assert u[..|u|] == u && v[..|v|] == v;
    }
  }

  /** Two lists of blocks of the same lengths */
  predicate Alike(a: Blocks, b: Blocks) {
    |a| == |b| && forall r | 0 <= r < |a| :: |a[r]| == |b[r]|
  }

  lemma AlikeLengths(a: Blocks, b: Blocks)
    ensures Alike(a, b) <==> Lengths(a) == Lengths(b)
  {
    if Lengths(a) == Lengths(b) {
      assert |a| == |Lengths(a)| == |b|;
      forall r | 0 <= r < |a|
        ensures |a[r]| == |b[r]|
      {
        assert Lengths(a)[r] == Lengths(b)[r];
      }
    }
  }

  /** The number of bytes in which the first n bytes of the blocks differ, over all blocks */
  function PrefixDistances(a: Blocks, b: Blocks, n: nat): nat
    requires Alike(a, b)
  {
    if a == [] then 0
    else
      var s := |a| - 1;
      PrefixDistances(a[..s], b[..s], n) + Distance(Prefix(a[s], n), Prefix(b[s], n))
  }

  /** Column z holds the bytes by which the prefixes of length z + 1 are longer than those of length z. */
  lemma {:induction false} ColumnDistance(a: Blocks, b: Blocks, z: nat)
    requires Alike(a, b)
    ensures |Column(a, z)| == |Column(b, z)|
    ensures PrefixDistances(a, b, z + 1) == PrefixDistances(a, b, z) + Distance(Column(a, z), Column(b, z))
  {
    hide Distance, Prefix;
    if a == [] {
      NothingDiffers();
    } else {
      var s := |a| - 1;
      ColumnDistance(a[..s], b[..s], z);
      ColumnInit(a, z);
      ColumnInit(b, z);
      DistanceConcat(Column(a[..s], z), Cell(a[s], z), Column(b[..s], z), Cell(b[s], z));
      PrefixDistance(a[s], b[s], z);
    }
  }

  lemma NothingDiffers()
    ensures Distance<Byte>([], []) == 0
  {}

  lemma {:induction false} NoPrefixes(a: Blocks, b: Blocks)
    requires Alike(a, b)
    ensures PrefixDistances(a, b, 0) == 0
  {
    if a != [] {
      NoPrefixes(a[..|a| - 1], b[..|a| - 1]);
      NothingDiffers();
      assert Prefix(a[|a| - 1], 0) == Prefix(b[|a| - 1], 0) == [];
    }
  }

  /** Interleaved blocks differ in exactly as many bytes as the blocks do together. */
  lemma {:induction false} ColumnsDistance(a: Blocks, b: Blocks, n: nat)
    requires Alike(a, b)
    ensures |Columns(a, n)| == |Columns(b, n)|
    ensures Distance(Columns(a, n), Columns(b, n)) == PrefixDistances(a, b, n)
  {
    hide Column, Distance, PrefixDistances;
    if n > 0 {
      ColumnsDistance(a, b, n - 1);
      ColumnDistance(a, b, n - 1);
      DistanceConcat(Columns(a, n - 1), Column(a, n - 1), Columns(b, n - 1), Column(b, n - 1));
    } else {
      NoPrefixes(a, b);
      NothingDiffers();
    }
  }

  // ----- the blocks with their error correction bytes

  /** The number of bytes in which two lists of blocks differ, over all blocks */
  function BlockDistances(a: Blocks, b: Blocks): nat
    requires Alike(a, b)
  {
    if a == [] then 0
    else BlockDistances(a[..|a| - 1], b[..|a| - 1]) + Distance(a[|a| - 1], b[|a| - 1])
  }

  lemma {:induction false} WholePrefixes(a: Blocks, b: Blocks, n: nat)
    requires Alike(a, b) && forall r | 0 <= r < |a| :: |a[r]| <= n
    ensures PrefixDistances(a, b, n) == BlockDistances(a, b)
  {
    if a != [] {
      var s := |a| - 1;
      WholePrefixes(a[..s], b[..s], n);
      WholePrefix(a[s], n);
      WholePrefix(b[s], n);
    }
  }

  /** Blocks put together differ in the bytes of both parts. */
  lemma {:induction false} BlockDistancesAdd(a: Blocks, b: Blocks, ea: Blocks, eb: Blocks, wa: Blocks, wb: Blocks)
    requires Alike(a, b) && Alike(ea, eb) && |a| == |ea| == |wa| == |wb|
    requires forall r | 0 <= r < |a| :: wa[r] == a[r] + ea[r] && wb[r] == b[r] + eb[r]
    ensures Alike(wa, wb) && BlockDistances(wa, wb) == BlockDistances(a, b) + BlockDistances(ea, eb)
  {
    hide Distance;
    if a != [] {
      var s := |a| - 1;
      BlockDistancesAdd(a[..s], b[..s], ea[..s], eb[..s], wa[..s], wb[..s]);
      DistanceConcat(a[s], ea[s], b[s], eb[s]);
    }
  }

  /** The codewords of two messages differ in exactly as many bytes as their blocks. */
  lemma CodewordsDistance(bytes: seq<Byte>, bytes': seq<Byte>, rs: RSBlocks)
    requires |bytes| == |bytes'| == TotalData(rs) && WellFormed(rs)
    ensures |Codewords(bytes, rs)| == |Codewords(bytes', rs)| && Alike(Words(bytes, rs), Words(bytes', rs))
    ensures Distance(Codewords(bytes, rs), Codewords(bytes', rs)) == BlockDistances(Words(bytes, rs), Words(bytes', rs))
  {
    hide Columns, TotalData, EcBytes, Distance, MaxDataCount, MaxEcCount, DataBlocks, EcBlocks, Alike, BlockDistances;
    hide PrefixDistances, Words;
    var m, n := MaxDataCount(rs), MaxEcCount(rs);
    var a, b := DataBlocks(bytes, rs), DataBlocks(bytes', rs);
    var ea, eb := EcBlocks(a, rs), EcBlocks(b, rs);
    AlikeLengths(a, b);
    AlikeLengths(ea, eb);
    ColumnsDistance(a, b, m);
    ColumnsDistance(ea, eb, n);
    DistanceConcat(Columns(a, m), Columns(ea, n), Columns(b, m), Columns(eb, n));
    BlocksWithin(bytes, rs);
    WholePrefixes(a, b, m);
    WholePrefixes(ea, eb, n);
    WordsAre(bytes, rs);
    WordsAre(bytes', rs);
    BlockDistancesAdd(a, b, ea, eb, Words(bytes, rs), Words(bytes', rs));
  }

  lemma WordsAre(bytes: seq<Byte>, rs: RSBlocks)
    requires |bytes| >= TotalData(rs) && WellFormed(rs)
    ensures var blocks := DataBlocks(bytes, rs);
            forall r | 0 <= r < |rs| :: Words(bytes, rs)[r] == blocks[r] + EcBlocks(blocks, rs)[r]
  {
    hide DataBlocks, EcBlocks;
  }

  lemma BlocksWithin(bytes: seq<Byte>, rs: RSBlocks)
    requires |bytes| >= TotalData(rs) && WellFormed(rs)
    ensures var blocks := DataBlocks(bytes, rs);
            && (forall r | 0 <= r < |rs| :: |blocks[r]| <= MaxDataCount(rs))
            && (forall r | 0 <= r < |rs| :: |EcBlocks(blocks, rs)[r]| <= MaxEcCount(rs))
  {
    hide MaxDataCount, MaxEcCount, TotalData, EcBytes;
    var blocks := DataBlocks(bytes, rs);
    MaxBounds(rs);
    forall r | 0 <= r < |rs|
      ensures |blocks[r]| <= MaxDataCount(rs) && |EcBlocks(blocks, rs)[r]| <= MaxEcCount(rs)
    {
      assert Lengths(blocks)[r] == DataCounts(rs)[r];
      assert Lengths(EcBlocks(blocks, rs))[r] == EcCounts(rs)[r];
    }
  }

  lemma WholePrefix(u: seq<Byte>, n: nat)
    requires |u| <= n
    ensures Prefix(u, n) == u
  {
    assert u[..|u|] == u;
  }

  /** One byte more than the error correction bytes, for every block in which two messages differ */
  function Margin(bytes: seq<Byte>, bytes': seq<Byte>, rs: RSBlocks, n: nat): nat
    requires |bytes| == |bytes'| == TotalData(rs) && WellFormed(rs) && n <= |rs|
  {
    if n == 0 then 0
    else
      Margin(bytes, bytes', rs, n - 1)
      + if DataBlocks(bytes, rs)[n - 1] == DataBlocks(bytes', rs)[n - 1] then 0 else rs[n - 1].EcCount() + 1
  }

  /** Every differing block brings its own minimum distance. */
  lemma {:induction false} MarginReached(bytes: seq<Byte>, bytes': seq<Byte>, rs: RSBlocks, n: nat)
    requires |bytes| == |bytes'| == TotalData(rs) && WellFormed(rs) && n <= |rs|
    requires Alike(Words(bytes, rs), Words(bytes', rs))
    ensures Alike(Words(bytes, rs)[..n], Words(bytes', rs)[..n])
    ensures BlockDistances(Words(bytes, rs)[..n], Words(bytes', rs)[..n]) >= Margin(bytes, bytes', rs, n)
  {
    hide Words, EcBytes, Distance, DataBlocks, TotalData;
    var a, b := Words(bytes, rs), Words(bytes', rs);
    if n > 0 {
      MarginReached(bytes, bytes', rs, n - 1);
      assert a[..n][..n - 1] == a[..n - 1] && b[..n][..n - 1] == b[..n - 1];
      var block := WordAt(bytes, rs, n - 1);
      var block' := WordAt(bytes', rs, n - 1);
      if block != block' { MinimumDistance(block, block', rs[n - 1].EcCount()); }
    }
  }

  lemma {:induction false} MarginOfOne(bytes: seq<Byte>, bytes': seq<Byte>, rs: RSBlocks, n: nat, r: nat)
    requires |bytes| == |bytes'| == TotalData(rs) && WellFormed(rs) && r < n <= |rs|
    requires DataBlocks(bytes, rs)[r] != DataBlocks(bytes', rs)[r]
    ensures Margin(bytes, bytes', rs, n) >= rs[r].EcCount() + 1
  {
    hide DataBlocks, TotalData;
    if r < n - 1 { MarginOfOne(bytes, bytes', rs, n - 1, r); }
  }

  /** Different messages differ in some block. */
  lemma DifferentMargin(bytes: seq<Byte>, bytes': seq<Byte>, rs: RSBlocks) returns (r: nat)
    requires |bytes| == |bytes'| == TotalData(rs) && WellFormed(rs) && bytes != bytes'
    ensures r < |rs| && Margin(bytes, bytes', rs, |rs|) >= rs[r].EcCount() + 1
  {
    hide TotalData, DataBlocks;
    BlocksPartition(bytes, rs);
    BlocksPartition(bytes', rs);
    assert DataBlocks(bytes, rs) != DataBlocks(bytes', rs);
    r :| r < |rs| && DataBlocks(bytes, rs)[r] != DataBlocks(bytes', rs)[r];
    MarginOfOne(bytes, bytes', rs, |rs|, r);
  }

  /**
   The codewords of two messages differ in at least one byte more than the error correction bytes,
   for every block in which the messages differ.
   */
  lemma DifferentCodewords(bytes: seq<Byte>, bytes': seq<Byte>, rs: RSBlocks)
    requires |bytes| == |bytes'| == TotalData(rs) && WellFormed(rs)
    ensures |Codewords(bytes, rs)| == |Codewords(bytes', rs)|
    ensures Distance(Codewords(bytes, rs), Codewords(bytes', rs)) >= Margin(bytes, bytes', rs, |rs|)
  {
    hide Words, Codewords, TotalData, EcBytes, Distance, Alike, BlockDistances, DataBlocks;
    CodewordsDistance(bytes, bytes', rs);
    MarginReached(bytes, bytes', rs, |rs|);
    var a, b := Words(bytes, rs), Words(bytes', rs);
    assert a[..|rs|] == a && b[..|rs|] == b;
  }

  // ----- bits and cells

  lemma {:induction false} BitDistance(bytes: seq<Byte>, bytes': seq<Byte>)
    requires |bytes| == |bytes'|
    ensures Distance(BytesToBits(bytes), BytesToBits(bytes')) >= Distance(bytes, bytes')
  {
    hide BytesToBits, ToBits;
    var n := |bytes| - 1;
    if n >= 0 {
      BitDistance(bytes[..n], bytes'[..n]);
      LastByte(bytes);
      LastByte(bytes');
      var u, v := ToBits(bytes[n], 8), ToBits(bytes'[n], 8);
      DistanceConcat(BytesToBits(bytes[..n]), u, BytesToBits(bytes'[..n]), v);
      if Distance(u, v) == 0 {
        DistanceZero(u, v);
        FromToBits(bytes[n], 8);
        FromToBits(bytes'[n], 8);
        assert Pow2(8) == 256;
      }
    }
  }

  lemma LastByte(bytes: seq<Byte>)
    requires bytes != []
    ensures BytesToBits(bytes) == BytesToBits(bytes[..|bytes| - 1]) + ToBits(bytes[|bytes| - 1], 8)
  {
    var n := |bytes| - 1;
    assert bytes == bytes[..n] + [bytes[n]];
    BytesToBitsConcat(bytes[..n], [bytes[n]]);
    BytesToBitsOne(bytes[n]);
  }

  /** The number of cells in which two symbols differ, among the first t of the walk */
  function CellDistance(final: Grid, final': Grid, n: nat, t: nat): nat
    requires Walkable(n) && Square(final, n) && Square(final', n) && t <= Steps(n)
  {
    if t == 0 then 0
    else
      var (row, col) := CellAt(n, t - 1);
      CellDistance(final, final', n, t - 1) + (if final[row][col] == final'[row][col] then 0 else 1)
  }

  /** Symbols over the same patterns and mask differ in as many cells as the bits read from them. */
  lemma {:induction false} CellsAreBits(final: Grid, final': Grid, g: Grid, n: nat, data: seq<Byte>, data': seq<Byte>,
                                        mask: MaskPattern, t: nat)
    requires Walkable(n) && Square(g, n) && t <= Steps(n)
    requires IsPlaced(final, g, n, data, mask) && IsPlaced(final', g, n, data', mask)
    ensures CellDistance(final, final', n, t)
            == Distance(ReadBits(final, g, n, mask, t), ReadBits(final', g, n, mask, t))
  {
    hide CellAt, Placed, GetMask, Steps, IsPlaced, Distance;
    PlacedIsSquare(final, g, n, data, mask);
    PlacedIsSquare(final', g, n, data', mask);
    if t > 0 {
      var (row, col) := CellAt(n, t - 1);
      CellsAreBits(final, final', g, n, data, data', mask, t - 1);
      var b, b' := ReadBits(final, g, n, mask, t - 1), ReadBits(final', g, n, mask, t - 1);
      var x := (final[row][col] == Set(true)) != GetMask(mask, row, col);
      var x' := (final'[row][col] == Set(true)) != GetMask(mask, row, col);
      CellIsBit(final, g, n, data, mask, row, col);
      CellIsBit(final', g, n, data', mask, row, col);
      DistanceConcat(b, [x], b', [x']);
      OneBit(x, x');
      assert b + [] == b && b' + [] == b';
    } else {
      NoBits();
    }
  }

  lemma NoBits()
    ensures Distance<bool>([], []) == 0
  {}

  lemma OneBit(x: bool, y: bool)
    ensures Distance([x], [y]) == if x == y then 0 else 1
  {}

  /** A reserved cell is that of the patterns; any other is set, to light or dark. */
  lemma CellIsBit(final: Grid, g: Grid, n: nat, data: seq<Byte>, mask: MaskPattern, row: nat, col: nat)
    requires Walkable(n) && Square(g, n) && IsPlaced(final, g, n, data, mask) && row < n && col < n && col != 6
    ensures Square(final, n)
    ensures if g[row][col].Set? then final[row][col] == g[row][col] else final[row][col].Set?
  {
    assert final[row][col] == Placed(g, n, data, mask, row, col);
  }

  /** The bits read from a symbol start with the bits of its data. */
  lemma ReadStartsWith(final: Grid, g: Grid, n: nat, data: seq<Byte>, mask: MaskPattern) returns (rest: Bits)
    requires Walkable(n) && Square(g, n) && IsPlaced(final, g, n, data, mask)
    requires FreeBefore(g, n, Steps(n)) >= 8 * |data|
    ensures ReadBits(final, g, n, mask, Steps(n)) == BytesToBits(data) + rest
  {
    hide FreeBefore, Steps, ReadBits, Placed;
    var b, d := ReadBits(final, g, n, mask, Steps(n)), BytesToBits(data);
    rest := b[8 * |data|..];
    forall k | 0 <= k < 8 * |data|
      ensures b[k] == d[k]
    {
      ReadDataBit(final, g, n, data, mask, Steps(n), k);
    }
  }

  /** Two symbols over the same patterns and mask differ in at least as many cells as their codewords in bytes. */
  lemma CellsFarApart(final: Grid, final': Grid, g: Grid, n: nat, mask: MaskPattern, data: seq<Byte>, data': seq<Byte>)
    requires Walkable(n) && Square(g, n) && |data| == |data'| && FreeBefore(g, n, Steps(n)) >= 8 * |data|
    requires IsPlaced(final, g, n, data, mask) && IsPlaced(final', g, n, data', mask)
    ensures CellDistance(final, final', n, Steps(n)) >= Distance(data, data')
  {
    hide FreeBefore, Steps, ReadBits, IsPlaced, BytesToBits, Distance, CellDistance;
    BitDistance(data, data');
    var rest := ReadStartsWith(final, g, n, data, mask);
    var rest' := ReadStartsWith(final', g, n, data', mask);
    PlacedIsSquare(final, g, n, data, mask);
    PlacedIsSquare(final', g, n, data', mask);
    CellsAreBits(final, final', g, n, data, data', mask, Steps(n));
    DistanceConcat(BytesToBits(data), rest, BytesToBits(data'), rest');
  }

  /**
   Two symbols over the same patterns and mask differ in at least one cell more than the error
   correction bytes, for every block in which their data differ.
   */
  lemma SymbolsFarApart(final: Grid, final': Grid, g: Grid, n: nat, mask: MaskPattern, bytes: seq<Byte>,
                        bytes': seq<Byte>, rs: RSBlocks)
    requires Walkable(n) && Square(g, n) && WellFormed(rs)
    requires |bytes| == |bytes'| == TotalData(rs)
    requires IsPlaced(final, g, n, Codewords(bytes, rs), mask) && IsPlaced(final', g, n, Codewords(bytes', rs), mask)
    requires FreeBefore(g, n, Steps(n)) >= 8 * TotalCodes(rs)
    ensures CellDistance(final, final', n, Steps(n)) >= Margin(bytes, bytes', rs, |rs|)
  {
    hide FreeBefore, Steps, IsPlaced, Codewords, Distance, CellDistance, TotalData, TotalCodes, Margin;
    CodewordsTotal(bytes, rs);
    CodewordsTotal(bytes', rs);
    DifferentCodewords(bytes, bytes', rs);
    CellsFarApart(final, final', g, n, mask, Codewords(bytes, rs), Codewords(bytes', rs));
  }

  lemma PlacedIsSquare(final: Grid, g: Grid, n: nat, data: seq<Byte>, mask: MaskPattern)
    requires Walkable(n) && Square(g, n) && IsPlaced(final, g, n, data, mask)
    ensures Square(final, n)
  {}

  /** Different texts have different data bytes. */
  lemma TextsDiffer(list: seq<Text>, list': seq<Text>, typeNumber: int, rs: RSBlocks)
    requires Fits(list, typeNumber, rs) && Fits(list', typeNumber, rs)
    requires LengthsFit(list, Width(typeNumber)) && LengthsFit(list', Width(typeNumber))
    requires DataBytes(list, typeNumber, rs) == DataBytes(list', typeNumber, rs)
    ensures LowTexts(list) == LowTexts(list')
  {
    hide DataBytes, FilledBits, DataBits, ReadSegments;
    FilledBytes(list, typeNumber, rs);
    FilledBytes(list', typeNumber, rs);
    FilledReadBack(list, typeNumber, rs);
    FilledReadBack(list', typeNumber, rs);
  }

  /**
   The minimum distance, for texts and cells: the symbols of two lists of texts that differ (in
   their low bytes) differ in at least one cell more than the smallest number of error correction
   bytes of a block.
   */
  lemma TextsFarApart(final: Grid, final': Grid, g: Grid, n: nat, mask: MaskPattern, list: seq<Text>, list': seq<Text>,
                      typeNumber: int, rs: RSBlocks, least: nat)
    requires Walkable(n) && Square(g, n) && WellFormed(rs) && Fits(list, typeNumber, rs) && Fits(list', typeNumber, rs)
    requires LengthsFit(list, Width(typeNumber)) && LengthsFit(list', Width(typeNumber))
    requires IsPlaced(final, g, n, SymbolCodewords(list, typeNumber, rs), mask)
    requires IsPlaced(final', g, n, SymbolCodewords(list', typeNumber, rs), mask)
    requires FreeBefore(g, n, Steps(n)) >= 8 * TotalCodes(rs)
    requires forall r | 0 <= r < |rs| :: least <= rs[r].EcCount()
    requires LowTexts(list) != LowTexts(list')
    ensures CellDistance(final, final', n, Steps(n)) >= least + 1
  {
    hide IsPlaced, FreeBefore, Steps, CellDistance, Codewords, DataBytes;
    var bytes, bytes' := DataBytes(list, typeNumber, rs), DataBytes(list', typeNumber, rs);
    if bytes == bytes' { TextsDiffer(list, list', typeNumber, rs); }
    SymbolsFarApart(final, final', g, n, mask, bytes, bytes', rs);
    var r := DifferentMargin(bytes, bytes', rs);
  }
}
