/** The column-by-column order in which blocks of unequal length are emitted, and its inverse. */
module Interleaving {
  import opened GaloisField

  type Blocks = seq<seq<Byte>>

  /** Byte z of every block that has one */
  function Column(blocks: Blocks, z: nat): seq<Byte> {
    if |blocks| == 0 then []
    else
      var s := |blocks| - 1;
      Column(blocks[..s], z) + (if z < |blocks[s]| then [blocks[s][z]] else [])
  }

  function Columns(blocks: Blocks, n: nat): seq<Byte> {
    if n == 0 then [] else Columns(blocks, n - 1) + Column(blocks, n - 1)
  }

  function Lengths(blocks: Blocks): (lens: seq<nat>)
    ensures |lens| == |blocks|
  {
    seq(|blocks|, s requires 0 <= s < |blocks| => |blocks[s]|)
  }

  /** How many blocks reach past column z */
  function Rank(lens: seq<nat>, z: nat): nat {
    if |lens| == 0 then 0 else Rank(lens[..|lens| - 1], z) + (if z < lens[|lens| - 1] then 1 else 0)
  }

  function ColumnsLength(lens: seq<nat>, n: nat): nat {
    if n == 0 then 0 else ColumnsLength(lens, n - 1) + Rank(lens, n - 1)
  }

  function Total(lens: seq<nat>): nat {
    if |lens| == 0 then 0 else Total(lens[..|lens| - 1]) + lens[|lens| - 1]
  }

  /** Where byte z of block s is found */
  function Slot(lens: seq<nat>, z: nat, s: nat): nat
    requires s < |lens|
  {
    ColumnsLength(lens, z) + Rank(lens[..s], z)
  }

  function ByteAt(flat: seq<Byte>, i: nat): Byte {
    if i < |flat| then flat[i] else 0
  }

  function Deinterleave(flat: seq<Byte>, lens: seq<nat>): (blocks: Blocks)
    ensures |blocks| == |lens|
  {
    seq(|lens|, s requires 0 <= s < |lens| =>
      seq(lens[s], z requires 0 <= z < lens[s] => ByteAt(flat, Slot(lens, z, s))))
  }

  // ----- lengths

  lemma {:induction false} ColumnLength(blocks: Blocks, z: nat)
    ensures |Column(blocks, z)| == Rank(Lengths(blocks), z)
  {
    var s := |blocks| - 1;
    if s >= 0 {
      ColumnLength(blocks[..s], z);
      assert Lengths(blocks)[..s] == Lengths(blocks[..s]);
    }
  }

  lemma {:induction false} ColumnsTotal(blocks: Blocks, n: nat)
    ensures |Columns(blocks, n)| == ColumnsLength(Lengths(blocks), n)
  {
    if n > 0 {
      ColumnsTotal(blocks, n - 1);
      ColumnLength(blocks, n - 1);
    }
  }

  /** The bytes of every block that lie in the first n columns */
  function CutTotal(lens: seq<nat>, n: nat): nat {
    if |lens| == 0 then 0
    else
      var len := lens[|lens| - 1];
      CutTotal(lens[..|lens| - 1], n) + if len < n then len else n
  }

  lemma {:induction false} CutTotalStep(lens: seq<nat>, n: nat)
    ensures CutTotal(lens, n + 1) == CutTotal(lens, n) + Rank(lens, n)
    ensures CutTotal(lens, 0) == 0
  {
    if |lens| > 0 { CutTotalStep(lens[..|lens| - 1], n); }
  }

  lemma {:induction false} ColumnsAreCut(lens: seq<nat>, n: nat)
    ensures ColumnsLength(lens, n) == CutTotal(lens, n)
  {
    CutTotalStep(lens, 0);
    if n > 0 {
      ColumnsAreCut(lens, n - 1);
      CutTotalStep(lens, n - 1);
    }
  }

  lemma {:induction false} CutNothing(lens: seq<nat>, n: nat)
    requires forall s | 0 <= s < |lens| :: lens[s] <= n
    ensures CutTotal(lens, n) == Total(lens)
  {
    if |lens| > 0 { CutNothing(lens[..|lens| - 1], n); }
  }

  /** All the columns together hold every byte of every block. */
  lemma AllColumns(lens: seq<nat>, n: nat)
    requires forall s | 0 <= s < |lens| :: lens[s] <= n
    ensures ColumnsLength(lens, n) == Total(lens)
  {
    ColumnsAreCut(lens, n);
    CutNothing(lens, n);
  }

  // ----- slots

  lemma {:induction false} RankMonotone(lens: seq<nat>, s: nat, t: nat, z: nat)
    requires s <= t <= |lens|
    ensures Rank(lens[..s], z) <= Rank(lens[..t], z)
    ensures s < t && z < lens[s] ==> Rank(lens[..s], z) < Rank(lens[..t], z)
  {
    if s < t {
      RankMonotone(lens, s, t - 1, z);
      assert lens[..t][..t - 1] == lens[..t - 1];
    }
  }

  lemma {:induction false} ColumnsMonotone(lens: seq<nat>, m: nat, n: nat)
    requires m <= n
    ensures ColumnsLength(lens, m) <= ColumnsLength(lens, n)
  {
    if m < n { ColumnsMonotone(lens, m, n - 1); }
  }

  /** Slots grow column by column and, within a column, block by block: no slot is used twice. */
  lemma SlotsIncrease(lens: seq<nat>, z: nat, s: nat, z': nat, s': nat)
    requires s < |lens| && s' < |lens| && z < lens[s] && z' < lens[s']
    requires z < z' || (z == z' && s < s')
    ensures Slot(lens, z, s) < Slot(lens, z', s')
  {
    if z < z' {
      RankMonotone(lens, s, |lens|, z);
      assert lens[..|lens|] == lens;
      ColumnsMonotone(lens, z + 1, z');
    } else {
      RankMonotone(lens, s, s', z);
    }
  }

  lemma SlotInRange(lens: seq<nat>, z: nat, s: nat, n: nat)
    requires s < |lens| && z < lens[s] && z < n
    ensures Slot(lens, z, s) < ColumnsLength(lens, n)
  {
    RankMonotone(lens, s, |lens|, z);
    assert lens[..|lens|] == lens;
    ColumnsMonotone(lens, z + 1, n);
  }

  // ----- the de-interleaver undoes the interleaving

  lemma {:induction false} ColumnValue(blocks: Blocks, z: nat, s: nat)
    requires s < |blocks| && z < |blocks[s]|
    ensures var i := Rank(Lengths(blocks)[..s], z);
            i < |Column(blocks, z)| && Column(blocks, z)[i] == blocks[s][z]
  {
    var t := |blocks| - 1;
    ColumnLength(blocks[..t], z);
    assert Lengths(blocks)[..t] == Lengths(blocks[..t]);
    if s < t {
      ColumnValue(blocks[..t], z, s);
      assert Lengths(blocks)[..s] == Lengths(blocks[..t])[..s];
    }
  }

  lemma {:induction false} ColumnsValue(blocks: Blocks, n: nat, z: nat, s: nat)
    requires s < |blocks| && z < |blocks[s]| && z < n
    ensures var i := Slot(Lengths(blocks), z, s);
            i < |Columns(blocks, n)| && Columns(blocks, n)[i] == blocks[s][z]
  {
    var before, last := Columns(blocks, n - 1), Column(blocks, n - 1);
    if z < n - 1 {
      ColumnsValue(blocks, n - 1, z, s);
      IndexConcat(before, last, Slot(Lengths(blocks), z, s));
    } else {
      ColumnsTotal(blocks, z);
      ColumnValue(blocks, z, s);
      IndexConcat(before, last, Slot(Lengths(blocks), z, s));
    }
  }

  lemma IndexConcat(p: seq<Byte>, q: seq<Byte>, i: nat)
    requires i < |p| + |q|
    ensures (p + q)[i] == if i < |p| then p[i] else q[i - |p|]
  {}

  lemma InterleavingInvertible(blocks: Blocks, n: nat, rest: seq<Byte>)
    requires forall s | 0 <= s < |blocks| :: |blocks[s]| <= n
    ensures Deinterleave(Columns(blocks, n) + rest, Lengths(blocks)) == blocks
  {
    var lens, flat := Lengths(blocks), Columns(blocks, n) + rest;
    forall s | 0 <= s < |blocks|
      ensures Deinterleave(flat, lens)[s] == blocks[s]
    {
      forall z | 0 <= z < |blocks[s]|
        ensures Deinterleave(flat, lens)[s][z] == blocks[s][z]
      {
        ColumnsValue(blocks, n, z, s);
      }
    }
  }
}
