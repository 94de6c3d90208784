/**
 Codeword placement: the zig-zag walk over the symbol in column pairs, right to left, alternately
 upwards and downwards, that leaves out column 6.
 */
module Placement {
  import opened Bitwise

  /** Module counts the walk covers: 4 v + 17 for version v, all odd */
  predicate Walkable(n: int) {
    n % 2 == 1 && n >= 7
  }

  /** The right column of the p-th pair */
  function RightColumn(n: nat, p: nat): int {
    if n - 1 - 2 * p > 6 then n - 1 - 2 * p else n - 2 - 2 * p
  }

  /** The i-th row of the p-th sweep; applied to a row, its place in the sweep */
  function SweepRow(n: nat, p: nat, i: nat): (row: nat)
    requires i < n
    ensures row < n
  {
    if p % 2 == 0 then n - 1 - i else i
  }

  function StepOf(n: nat, p: nat, i: nat, c: nat): nat {
    2 * (p * n + i) + c
  }

  /** The steps of a sweep, and those of the next one, follow each other. */
  lemma StepsFollow(n: nat, p: nat, i: nat, c: nat)
    ensures StepOf(n, p, i, c) + 1 == StepOf(n, p, i, c + 1) && StepOf(n, p, i, 2) == StepOf(n, p, i + 1, 0)
    ensures StepOf(n, p, n, 0) == StepOf(n, p + 1, 0, 0)
  {}

  /** The number of cells outside column 6 */
  function Steps(n: nat): nat {
    StepOf(n, n / 2, 0, 0)
  }

  /** The cell at step t of the walk: pair t / 2n, row t / 2 % n of its sweep, right then left */
  function CellAt(n: nat, t: nat): (cell: (nat, nat))
    requires Walkable(n) && t < Steps(n)
    ensures cell.0 < n && cell.1 < n && cell.1 != 6
  {
    var p, i, c := t / 2 / n, t / 2 % n, t % 2;
    PairInRange(n, t);
    PairOfColumn(n, p, c);
    (SweepRow(n, p, i), RightColumn(n, p) - c)
  }

  lemma PairInRange(n: nat, t: nat)
    requires Walkable(n) && t < Steps(n)
    ensures 0 <= t / 2 / n < n / 2 && 0 <= t / 2 % n < n
    ensures t == StepOf(n, t / 2 / n, t / 2 % n, t % 2)
  {
    var u, pairs := t / 2, n / 2;
    var q, r := DivideWithRemainder(u, n);
    ModUnique(u, n, q, r);
    PairBefore(n, q, r, pairs, t);
    assert n * q == q * n;
  }

  lemma PairBefore(n: nat, q: nat, r: nat, pairs: nat, t: nat)
    requires n * q + r == t / 2 && t < 2 * (pairs * n)
    ensures q < pairs
  {
    var u := pairs * n;
    assert t / 2 < u;
    MulStep(n, pairs - 1, q);
  }

  function PairOf(n: nat, col: nat): nat
    requires Walkable(n) && col < n && col != 6
  {
    if col > 6 then (n - 1 - col) / 2 else (n - 2 - col) / 2
  }

  function SideOf(n: nat, col: nat): nat
    requires Walkable(n) && col < n && col != 6
  {
    if col > 6 then (n - 1 - col) % 2 else (n - 2 - col) % 2
  }

  /** The step at which the walk visits a cell */
  function TimeOf(n: nat, row: nat, col: nat): nat
    requires Walkable(n) && row < n && col < n && col != 6
  {
    var p := PairOf(n, col);
    StepOf(n, p, SweepRow(n, p, row), SideOf(n, col))
  }

  lemma StepInRange(n: nat, p: nat, i: nat, c: nat)
    requires Walkable(n) && p < n / 2 && i < n && c < 2
    ensures StepOf(n, p, i, c) < Steps(n)
  {
    MulStep(n, p, n / 2);
  }

  /** The walk visits its cells in the order of pairs, rows and sides. */
  lemma CellAtStep(n: nat, p: nat, i: nat, c: nat)
    requires Walkable(n) && p < n / 2 && i < n && c < 2
    ensures StepOf(n, p, i, c) < Steps(n)
    ensures CellAt(n, StepOf(n, p, i, c)) == (SweepRow(n, p, i), RightColumn(n, p) - c)
  {
    StepInRange(n, p, i, c);
    var t := StepOf(n, p, i, c);
    assert t / 2 == n * p + i && t % 2 == c;
    ModUnique(t / 2, n, p, i);
  }

  /** Every cell outside column 6 is visited at its time ... */
  lemma WalkReaches(n: nat, row: nat, col: nat)
    requires Walkable(n) && row < n && col < n && col != 6
    ensures TimeOf(n, row, col) < Steps(n)
    ensures CellAt(n, TimeOf(n, row, col)) == (row, col)
  {
    var p := PairOf(n, col);
    assert p < n / 2;
    CellAtStep(n, p, SweepRow(n, p, row), SideOf(n, col));
  }

  /** ... and at no other time: the walk is a bijection. */
  lemma WalkOnce(n: nat, t: nat)
    requires Walkable(n) && t < Steps(n)
    ensures var (row, col) := CellAt(n, t); TimeOf(n, row, col) == t
  {
    PairInRange(n, t);
    var p, i, c := t / 2 / n, t / 2 % n, t % 2;
    PairOfColumn(n, p, c);
  }

  lemma PairOfColumn(n: nat, p: nat, c: nat)
    requires Walkable(n) && p < n / 2 && c < 2
    ensures var col := RightColumn(n, p) - c;
            0 <= col < n && col != 6 && PairOf(n, col) == p && SideOf(n, col) == c
  {}

  // ----- the shape of the walk

  /**
   The walk of section 7.7.3 of ISO/IEC 18004:2015: the steps t and t + 1 visit two neighbours, right
   then left, in row i of sweep p counted from the bottom in even sweeps and from the top in odd ones;
   the sweeps take the columns in pairs from the right, without column 6.
   */
  lemma WalkShape(n: nat, p: nat, i: nat) returns (t: nat, row: nat, col: nat)
    requires Walkable(n) && p < n / 2 && i < n
    ensures t == 2 * (p * n + i) && t + 1 < Steps(n)
    ensures row == (if p % 2 == 0 then n - 1 - i else i)
    ensures 1 <= col < n && col == (if 2 * p < n - 7 then n - 1 - 2 * p else n - 2 - 2 * p)
    ensures CellAt(n, t) == (row, col) && CellAt(n, t + 1) == (row, col - 1)
  {
    hide CellAt, Steps;
    CellAtStep(n, p, i, 0);
    CellAtStep(n, p, i, 1);
    t, row, col := 2 * (p * n + i), SweepRow(n, p, i), RightColumn(n, p);
  }

  /** Within a sweep the walk goes on to the next row: upwards in even sweeps, downwards in odd ones. */
  lemma NextRow(n: nat, p: nat, i: nat) returns (t: nat, row: nat, col: nat)
    requires Walkable(n) && p < n / 2 && i + 1 < n
    ensures t + 2 < Steps(n) && CellAt(n, t) == (row, col)
    ensures t == 2 * (p * n + i) && CellAt(n, t + 2) == (if p % 2 == 0 then row - 1 else row + 1, col)
  {
    hide CellAt, Steps;
    t, row, col := WalkShape(n, p, i);
    var t', row', col' := WalkShape(n, p, i + 1);
    assert t' == t + 2;
  }

  /** At the edge it stays in its row, turns, and goes on in the pair of columns to the left. */
  lemma NextSweep(n: nat, p: nat) returns (t: nat, row: nat, col: nat)
    requires Walkable(n) && p + 1 < n / 2
    ensures t + 2 < Steps(n) && CellAt(n, t) == (row, col) && row == if p % 2 == 0 then 0 else n - 1
    ensures t == 2 * (p * n + n - 1) && CellAt(n, t + 2) == (row, if col == 8 then 5 else col - 2)
  {
    hide CellAt, Steps;
    t, row, col := WalkShape(n, p, n - 1);
    var t', row', col' := WalkShape(n, p + 1, 0);
    NextStart(n, p);
    assert t' == t + 2;
  }

  lemma NextStart(n: nat, p: nat)
    ensures (p + 1) * n == p * n + n
  {}

  /** It starts in the bottom right corner, and visits as many cells as there are outside column 6. */
  lemma WalkEnds(n: nat)
    requires Walkable(n)
    ensures Steps(n) == n * (n - 1) && 0 < Steps(n) && (n > 7 ==> CellAt(n, 0) == (n - 1, n - 1))
  {
    var t, row, col := WalkShape(n, 0, 0);
    WalkLength(n, n / 2);
  }

  lemma WalkLength(n: nat, half: nat)
    requires n == 2 * half + 1
    ensures 2 * (half * n) == n * (n - 1)
  {}
}
