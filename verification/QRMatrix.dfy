/** mapData: the codeword bits and their mask, placed in the cells left free by the patterns. */
module QRMatrix {
  import opened BitStreams
  import opened GaloisField
  import opened Placement

  datatype Module = Unset | Set(dark: bool)

  type Grid = seq<seq<Module>>

  type MaskPattern = m: int | 0 <= m < 8

  predicate Square(g: Grid, n: nat) {
    |g| == n && forall r | 0 <= r < n :: |g[r]| == n
  }

  predicate GetMask(maskPattern: MaskPattern, i: nat, j: nat) {
    match maskPattern
    case 0 => (i + j) % 2 == 0
    case 1 => i % 2 == 0
    case 2 => j % 3 == 0
    case 3 => (i + j) % 3 == 0
    case 4 => (i / 2 + j / 3) % 2 == 0
    case 5 => i * j % 2 + i * j % 3 == 0
    case 6 => (i * j % 2 + i * j % 3) % 2 == 0
    case _ => (i * j % 3 + (i + j) % 2) % 2 == 0
  }

  /** Bit k of the data, most significant first; light beyond its end */
  predicate DataBit(data: seq<Byte>, k: nat) {
    k / 8 < |data| && Bit(data[k / 8], 7 - k % 8)
  }

  predicate FreeAt(g: Grid, n: nat, t: nat)
    requires Walkable(n) && Square(g, n) && t < Steps(n)
  {
    var (row, col) := CellAt(n, t);
    g[row][col].Unset?
  }

  /** The number of free cells among the first t of the walk */
  function FreeBefore(g: Grid, n: nat, t: nat): nat
    requires Walkable(n) && Square(g, n) && t <= Steps(n)
  {
    if t == 0 then 0 else FreeBefore(g, n, t - 1) + (if FreeAt(g, n, t - 1) then 1 else 0)
  }

  /** What a cell holds in the end: the k-th free cell of the walk holds bit k, masked. */
  function Placed(g: Grid, n: nat, data: seq<Byte>, mask: MaskPattern, row: nat, col: nat): Module
    requires Walkable(n) && Square(g, n) && row < n && col < n
  {
    if g[row][col].Set? || col == 6 then g[row][col]
    else
      WalkReaches(n, row, col);
      Set(DataBit(data, FreeBefore(g, n, TimeOf(n, row, col))) != GetMask(mask, row, col))
  }

  ghost predicate IsPlaced(final: Grid, g: Grid, n: nat, data: seq<Byte>, mask: MaskPattern)
    requires Walkable(n) && Square(g, n)
  {
    Square(final, n)
    && forall row: nat, col: nat | row < n && col < n ::
         final[row][col] == Placed(g, n, data, mask, row, col)
  }

  /** The finished symbol */
  function Symbol(g: Grid, n: nat, data: seq<Byte>, mask: MaskPattern): (final: Grid)
    requires Walkable(n) && Square(g, n)
    ensures IsPlaced(final, g, n, data, mask)
  {
    seq(n, row requires 0 <= row < n => seq(n, col requires 0 <= col < n => Placed(g, n, data, mask, row, col)))
  }

  function GridOf(modules: array2<Module>): (g: Grid)
    reads modules
    ensures |g| == modules.Length0
    ensures forall r | 0 <= r < modules.Length0 :: |g[r]| == modules.Length1
    ensures forall r, c | 0 <= r < modules.Length0 && 0 <= c < modules.Length1 :: g[r][c] == modules[r, c]
  {
    seq(modules.Length0, r requires 0 <= r < modules.Length0 reads modules =>
      seq(modules.Length1, c requires 0 <= c < modules.Length1 reads modules => modules[r, c]))
  }

  // ----- the loops

  /** The cells visited before step t are final, the others untouched. */
  ghost predicate Progress(modules: array2<Module>, g: Grid, n: nat, data: seq<Byte>, mask: MaskPattern, t: nat)
    requires Walkable(n) && Square(g, n)
    reads modules
  {
    && modules.Length0 == modules.Length1 == n
    && forall row: nat, col: nat | row < n && col < n ::
         modules[row, col]
         == if col != 6 && TimeOf(n, row, col) < t then Placed(g, n, data, mask, row, col) else g[row][col]
  }

  /** The body of the innermost loop */
  method PlaceBit(modules: array2<Module>, ghost g: Grid, n: nat, data: seq<Byte>, mask: MaskPattern, row: nat,
                  col: nat, byteIndex: nat, bitIndex: nat, ghost t: nat)
    returns (byteIndex': nat, bitIndex': nat)
    requires Walkable(n) && Square(g, n) && t < Steps(n) && CellAt(n, t) == (row, col)
    requires Progress(modules, g, n, data, mask, t)
    requires bitIndex < 8 && FreeBefore(g, n, t) == 8 * byteIndex + 7 - bitIndex
    modifies modules
    ensures Progress(modules, g, n, data, mask, t + 1)
    ensures bitIndex' < 8 && FreeBefore(g, n, t + 1) == 8 * byteIndex' + 7 - bitIndex'
  {
    hide TimeOf, CellAt, Steps, GetMask;
    byteIndex', bitIndex' := byteIndex, bitIndex;
    WalkOnce(n, t);
    forall r: nat, c: nat | r < n && c < n && c != 6 && TimeOf(n, r, c) == t
      ensures (r, c) == (row, col)
    {
      WalkReaches(n, r, c);
    }
    if modules[row, col] == Unset {
      var dark := false;
      if byteIndex < |data| {
        dark := Bit(data[byteIndex], bitIndex);
      }
      var m := GetMask(mask, row, col);
      if m {
        dark := !dark;
      }
      modules[row, col] := Set(dark);
      if bitIndex == 0 {
        byteIndex', bitIndex' := byteIndex + 1, 7;
      } else {
        bitIndex' := bitIndex - 1;
      }
    }
  }

  /** col at the head of the outer loop, before it steps over column 6 */
  function LoopColumn(n: nat, p: nat): int {
    if n - 1 - 2 * p >= 6 then n - 1 - 2 * p else n - 2 - 2 * p
  }

  /** The inner loops: one sweep over the column pair col, col - 1 */
  method Sweep(modules: array2<Module>, ghost g: Grid, n: nat, data: seq<Byte>, mask: MaskPattern, col: nat,
               ghost p: nat, row: int, inc: int, byteIndex: nat, bitIndex: nat)
    returns (row': int, inc': int, byteIndex': nat, bitIndex': nat)
    requires Walkable(n) && Square(g, n) && p < n / 2 && col == RightColumn(n, p) && StepOf(n, p, 0, 0) <= Steps(n)
    requires inc == (if p % 2 == 0 then -1 else 1) && row == SweepRow(n, p, 0)
    requires Progress(modules, g, n, data, mask, StepOf(n, p, 0, 0))
    requires bitIndex < 8 && FreeBefore(g, n, StepOf(n, p, 0, 0)) == 8 * byteIndex + 7 - bitIndex
    modifies modules
    ensures inc' == -inc && row' == SweepRow(n, p + 1, 0) && StepOf(n, p + 1, 0, 0) <= Steps(n)
    ensures Progress(modules, g, n, data, mask, StepOf(n, p + 1, 0, 0))
    ensures bitIndex' < 8 && FreeBefore(g, n, StepOf(n, p + 1, 0, 0)) == 8 * byteIndex' + 7 - bitIndex'
  {
    hide CellAt, RightColumn, FreeBefore, Progress, StepOf, Steps;
    row', inc', byteIndex', bitIndex' := row, inc, byteIndex, bitIndex;
    ghost var i := 0;
    while true
      invariant i < n && row' == SweepRow(n, p, i) && inc' == inc
      invariant bitIndex' < 8 && StepOf(n, p, i, 0) <= Steps(n)
      invariant Progress(modules, g, n, data, mask, StepOf(n, p, i, 0))
      invariant FreeBefore(g, n, StepOf(n, p, i, 0)) == 8 * byteIndex' + 7 - bitIndex'
      decreases n - i
    {
      for c := 0 to 2
        invariant bitIndex' < 8 && StepOf(n, p, i, c) <= Steps(n)
        invariant Progress(modules, g, n, data, mask, StepOf(n, p, i, c))
        invariant FreeBefore(g, n, StepOf(n, p, i, c)) == 8 * byteIndex' + 7 - bitIndex'
      {
        CellAtStep(n, p, i, c);
        StepsFollow(n, p, i, c);
        byteIndex', bitIndex' := PlaceBit(modules, g, n, data, mask, row', col - c, byteIndex', bitIndex',
                                          StepOf(n, p, i, c));
      }
      StepsFollow(n, p, i, 0);
      row' := row' + inc';
      if row' < 0 || n <= row' {
        row' := row' - inc';
        inc' := -inc';
        break;
      }
      i := i + 1;
    }
  }

  /** mapData fills exactly the free cells outside column 6, in the order of the walk. */
  method MapData(modules: array2<Module>, moduleCount: nat, data: seq<Byte>, maskPattern: MaskPattern)
    requires Walkable(moduleCount) && modules.Length0 == modules.Length1 == moduleCount
    modifies modules
    ensures GridOf(modules) == Symbol(old(GridOf(modules)), moduleCount, data, maskPattern)
  {
    ghost var g := GridOf(modules);
    hide TimeOf, CellAt, Placed, Progress, FreeBefore, Symbol;
    WalkStarts(modules, g, moduleCount, data, maskPattern);
    var inc, row: int := -1, moduleCount - 1;
    var bitIndex, byteIndex := 7, 0;
    var col: int := moduleCount - 1;
    var n := moduleCount;
    ghost var p := 0;
    while col > 0
      invariant p <= n / 2 && col == LoopColumn(n, p)
      invariant inc == (if p % 2 == 0 then -1 else 1) && row == SweepRow(n, p, 0)
      invariant bitIndex < 8 && StepOf(n, p, 0, 0) <= Steps(n)
      invariant Progress(modules, g, n, data, maskPattern, StepOf(n, p, 0, 0))
      invariant FreeBefore(g, n, StepOf(n, p, 0, 0)) == 8 * byteIndex + 7 - bitIndex
    {
      if col == 6 { col := col - 1; }
      row, inc, byteIndex, bitIndex := Sweep(modules, g, n, data, maskPattern, col, p, row, inc, byteIndex, bitIndex);
      col := col - 2;
      p := p + 1;
    }
    AllVisited(modules, g, n, data, maskPattern, p);
  }

  lemma WalkStarts(modules: array2<Module>, g: Grid, n: nat, data: seq<Byte>, mask: MaskPattern)
    requires Walkable(n) && modules.Length0 == modules.Length1 == n && g == GridOf(modules)
    ensures Square(g, n) && Progress(modules, g, n, data, mask, 0) && FreeBefore(g, n, 0) == 0
  {
    hide TimeOf, Placed;
  }

  lemma AllVisited(modules: array2<Module>, g: Grid, n: nat, data: seq<Byte>, mask: MaskPattern, p: nat)
    requires Walkable(n) && Square(g, n) && p == n / 2 && Progress(modules, g, n, data, mask, StepOf(n, p, 0, 0))
    ensures GridOf(modules) == Symbol(g, n, data, mask)
  {
    var l, r := GridOf(modules), Symbol(g, n, data, mask);
    forall row: nat | row < n
      ensures l[row] == r[row]
    {
      forall col: nat | col < n
        ensures l[row][col] == r[row][col]
      {
        if col != 6 { WalkReaches(n, row, col); }
      }
    }
  }

  // ----- reading the symbol back

  /** The unmasked bits of the free cells among the first t of the walk */
  function ReadBits(final: Grid, g: Grid, n: nat, mask: MaskPattern, t: nat): (b: Bits)
    requires Walkable(n) && Square(g, n) && Square(final, n) && t <= Steps(n)
    ensures |b| == FreeBefore(g, n, t)
  {
    if t == 0 then []
    else
      var (row, col) := CellAt(n, t - 1);
      ReadBits(final, g, n, mask, t - 1)
      + (if g[row][col].Unset? then [(final[row][col] == Set(true)) != GetMask(mask, row, col)] else [])
  }

  /** The k-th bit read is the k-th bit of the data. */
  lemma {:induction false} ReadDataBit(final: Grid, g: Grid, n: nat, data: seq<Byte>, mask: MaskPattern, t: nat, k: nat)
    requires Walkable(n) && Square(g, n) && t <= Steps(n) && IsPlaced(final, g, n, data, mask)
    requires k < FreeBefore(g, n, t)
    ensures ReadBits(final, g, n, mask, t)[k] == DataBit(data, k)
  {
    hide GetMask, CellAt, TimeOf;
    WalkOnce(n, t - 1);
    if k < FreeBefore(g, n, t - 1) {
      ReadDataBit(final, g, n, data, mask, t - 1, k);
    } else {
      var (row, col) := CellAt(n, t - 1);
      assert final[row][col] == Placed(g, n, data, mask, row, col);
    }
  }

  /** With room for all the data, the bytes read start with the data. */
  lemma ReadData(final: Grid, g: Grid, n: nat, data: seq<Byte>, mask: MaskPattern) returns (rest: seq<Byte>)
    requires Walkable(n) && Square(g, n) && IsPlaced(final, g, n, data, mask)
    requires FreeBefore(g, n, Steps(n)) >= 8 * |data|
    ensures BitsToBytes(ReadBits(final, g, n, mask, Steps(n))) == data + rest
  {
    hide Placed, FreeBefore, ReadBits, Steps;
    var b := ReadBits(final, g, n, mask, Steps(n));
    forall k | 0 <= k < 8 * |data|
      ensures b[k] == BytesToBits(data)[k]
    {
      ReadDataBit(final, g, n, data, mask, Steps(n), k);
    }
    rest := BytesPrefix(b, data);
  }

  lemma BytesPrefix(b: Bits, data: seq<Byte>) returns (rest: seq<Byte>)
    requires |b| >= 8 * |data| && forall k | 0 <= k < 8 * |data| :: b[k] == BytesToBits(data)[k]
    ensures BitsToBytes(b) == data + rest
  {
    rest := BitsToBytes(b)[|data|..];
    BytesRoundTrip(data);
    forall i | 0 <= i < |data|
      ensures BitsToBytes(b)[i] == data[i]
    {
      assert b[8 * i..8 * i + 8] == BytesToBits(data)[8 * i..8 * i + 8];
      assert BitsToBytes(BytesToBits(data))[i] == data[i];
    }
  }

  /** No cell is left unset once the timing column is reserved, and the patterns stay. */
  lemma NothingLeftUnset(final: Grid, g: Grid, n: nat, data: seq<Byte>, mask: MaskPattern)
    requires Walkable(n) && Square(g, n) && IsPlaced(final, g, n, data, mask)
    requires forall row: nat | row < n :: g[row][6].Set?
    ensures forall row: nat, col: nat | row < n && col < n ::
              final[row][col].Set? && (g[row][col].Set? ==> final[row][col] == g[row][col])
  {
    forall row: nat, col: nat | row < n && col < n
      ensures final[row][col].Set? && (g[row][col].Set? ==> final[row][col] == g[row][col])
    {
      assert final[row][col] == Placed(g, n, data, mask, row, col);
    }
  }
}
