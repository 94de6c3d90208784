/**
 What the eight masks look like (section 7.8.2 of ISO/IEC 18004:2015), as laws about neighbouring
 cells that determine each mask, and what a mask does to a cell of the symbol.
 */
module MaskLaws {
  import opened Bitwise
  import opened BitStreams
  import opened GaloisField
  import opened Placement
  import opened QRMatrix

  /** Exactly one of three */
  predicate OneOfThree(a: bool, b: bool, c: bool) {
    (a && !b && !c) || (!a && b && !c) || (!a && !b && c)
  }

  /** Every mask inverts the top left corner. */
  lemma CornerMasked(mask: MaskPattern)
    ensures GetMask(mask, 0, 0)
  {}

  /** Mask 0 is a checkerboard. */
  lemma Mask0(i: nat, j: nat)
    ensures GetMask(0, i + 1, j) != GetMask(0, i, j) && GetMask(0, i, j + 1) != GetMask(0, i, j)
  {}

  /** Mask 1 has alternating rows. */
  lemma Mask1(i: nat, j: nat, j': nat)
    ensures GetMask(1, i, j) == GetMask(1, i, j') && GetMask(1, i + 1, j) != GetMask(1, i, j)
  {}

  /** Mask 2 has every third column. */
  lemma Mask2(i: nat, i': nat, j: nat)
    ensures GetMask(2, i, j) == GetMask(2, i', j)
    ensures OneOfThree(GetMask(2, i, j), GetMask(2, i, j + 1), GetMask(2, i, j + 2))
  {}

  /** Mask 3 has every third diagonal, those that go down to the left. */
  lemma Mask3(i: nat, j: nat)
    ensures GetMask(3, i + 1, j) == GetMask(3, i, j + 1)
    ensures OneOfThree(GetMask(3, i, j), GetMask(3, i, j + 1), GetMask(3, i, j + 2))
  {}

  /** Mask 4 is a checkerboard of blocks two rows high and three columns wide. */
  lemma Mask4(a: nat, b: nat, y: nat, x: nat)
    requires y < 2 && x < 3
    ensures GetMask(4, 2 * a + y, 3 * b + x) == GetMask(4, 2 * a, 3 * b)
    ensures GetMask(4, 2 * (a + 1), 3 * b) != GetMask(4, 2 * a, 3 * b)
    ensures GetMask(4, 2 * a, 3 * (b + 1)) != GetMask(4, 2 * a, 3 * b)
  {
    Mask4At(2 * a + y, 3 * b + x, a, b);
    Mask4At(2 * a, 3 * b, a, b);
    Mask4At(2 * (a + 1), 3 * b, a + 1, b);
    Mask4At(2 * a, 3 * (b + 1), a, b + 1);
    hide GetMask;
  }

  lemma Mask4At(i: nat, j: nat, a: nat, b: nat)
    requires 2 * a <= i < 2 * a + 2 && 3 * b <= j < 3 * b + 3
    ensures GetMask(4, i, j) <==> (a + b) % 2 == 0
  {
    assert i / 2 == a && j / 3 == b;
  }

  /** Masks 5, 6 and 7 depend on the remainder of i * j by six, mask 7 also on the checkerboard. */
  lemma ProductMasks(mask: MaskPattern, i: nat, j: nat)
    requires mask >= 5
    ensures mask == 5 ==> (GetMask(mask, i, j) <==> i * j % 6 == 0)
    ensures mask == 6 ==> (GetMask(mask, i, j) <==> i * j % 6 < 3)
    ensures mask == 7 ==> (GetMask(mask, i, j) <==> ((i + j) % 2 == 0) != (i * j % 6 == 1 || i * j % 6 == 4))
  {
    Remainders(i * j);
  }

  lemma Remainders(p: nat)
    ensures p % 2 == p % 6 % 2 && p % 3 == p % 6 % 3
  {
    var q, r := p / 6, p % 6;
    assert p == 6 * q + r;
    ModUnique(p, 2, 3 * q + r / 2, r % 2);
    ModUnique(p, 3, 2 * q + r / 3, r % 3);
  }

  /** These masks repeat every six rows and columns. */
  lemma ProductMasksRepeat(mask: MaskPattern, i: nat, j: nat)
    requires mask >= 5
    ensures GetMask(mask, i + 6, j) == GetMask(mask, i, j) == GetMask(mask, i, j + 6)
  {
    hide GetMask;
    ProductMasks(mask, i, j);
    ProductMasks(mask, i + 6, j);
    ProductMasks(mask, i, j + 6);
    SixMore(i, j);
    SixMore(j, i);
    assert j * (i + 6) == (i + 6) * j && (j + 6) * i == i * (j + 6) && j * i == i * j;
    assert (i + 6 + j) % 2 == (i + j) % 2 == (i + (j + 6)) % 2;
  }

  lemma SixMore(i: nat, j: nat)
    ensures (i + 6) * j % 6 == i * j % 6
  {
    var p := i * j;
    assert (i + 6) * j == p + 6 * j;
    SameRemainder(p, j);
  }

  lemma SameRemainder(p: nat, k: nat)
    ensures (p + 6 * k) % 6 == p % 6
  {}

  // ----- what a cell means

  /** n / 2^k is odd. */
  predicate OddAfter(n: nat, k: nat) {
    n / Pow2(k) % 2 == 1
  }

  lemma {:induction false} BitIsQuotient(n: nat, k: nat)
    ensures Bit(n, k) <==> OddAfter(n, k)
  {
    if k > 0 {
      BitIsQuotient(n / 2, k - 1);
      HalfQuotient(n, Pow2(k - 1));
    }
  }

  lemma HalfQuotient(n: nat, m: nat)
    requires m > 0
    ensures n / 2 / m == n / (2 * m)
  {
    var q, r := n / 2, n % 2;
    var s, t := DivideWithRemainder(q, m);
    assert n == (2 * m) * s + (2 * t + r);
    ModUnique(q, m, s, t);
    ModUnique(n, 2 * m, s, 2 * t + r);
  }

  /**
   A free cell of the finished symbol, the k-th of the walk, is dark when bit k of the data is set,
   the most significant bit of a byte first, and the other way round where the mask holds: in even
   rows for mask 1, in every third column for mask 2.
   */
  lemma FreeCellMeans(final: Grid, g: Grid, n: nat, data: seq<Byte>, mask: MaskPattern, row: nat, col: nat)
    requires Walkable(n) && Square(g, n) && IsPlaced(final, g, n, data, mask)
    requires row < n && col < n && col != 6 && g[row][col].Unset?
    ensures TimeOf(n, row, col) <= Steps(n)
    ensures var k := FreeBefore(g, n, TimeOf(n, row, col));
            var dark := k < 8 * |data| && OddAfter(data[k / 8], 7 - k % 8);
            && final[row][col] == Set(dark != GetMask(mask, row, col))
            && (mask == 1 ==> final[row][col] == Set(dark != (row % 2 == 0)))
            && (mask == 2 ==> final[row][col] == Set(dark != (col % 3 == 0)))
  {
    hide TimeOf, FreeBefore;
    WalkReaches(n, row, col);
    var k := FreeBefore(g, n, TimeOf(n, row, col));
    if k < 8 * |data| { BitIsQuotient(data[k / 8], 7 - k % 8); }
    assert final[row][col] == Placed(g, n, data, mask, row, col);
  }
}
