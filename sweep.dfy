/** The line-clear sweep (script.js `arenaSweep`): what the field looks like
    after full rows are removed and blank rows are pushed in on top, and how
    many points one pass awards. */
module Sweep {
  import opened Pieces
  import opened Field

  /** Every cell of the row is occupied. */
  ghost predicate Full(row: seq<int>) {
    forall c :: 0 <= c < |row| ==> row[c] != 0
  }

  /** Scans a row left to right and gives up at the first empty cell, as
      the inner loop of `arenaSweep` does. */
  method RowFull(row: seq<int>) returns (full: bool)
    ensures full <==> Full(row)
  {
    for c := 0 to |row|
      invariant forall c' :: 0 <= c' < c ==> row[c'] != 0
    {
      if row[c] == 0 {
        return false;
      }
    }
    return true;
  }

  /** The number of full rows in `rows`. */
  ghost function FullCount(rows: Matrix): (n: nat)
    ensures n <= |rows|
  {
    if rows == [] then 0 else (if Full(rows[0]) then 1 else 0) + FullCount(rows[1..])
  }

  /** The rows of `rows` that are not full, in their original order. */
  ghost function NonFull(rows: Matrix): (kept: Matrix)
    ensures |kept| + FullCount(rows) == |rows|
  {
    if rows == [] then [] else (if Full(rows[0]) then [] else [rows[0]]) + NonFull(rows[1..])
  }

  /** `n` blank rows of the field's width. */
  ghost function Blank(n: nat): (rows: Matrix)
    ensures |rows| == n
  {
    seq(n, _ => Zeros(Width))
  }

  /** Whether the sweep removes anything: the scan looks at rows 1 up to
      the bottom, and only once a row there has gone does the top row slide
      into the scanned range. */
  ghost predicate Clears(a: Matrix) {
    |a| > 0 && FullCount(a[1..]) > 0
  }

  /** The field after one pass of the sweep: unchanged if no row below the
      top is full; otherwise every full row (the top one included) is gone
      and as many blank rows sit on top of the survivors. */
  ghost function Swept(a: Matrix): Matrix {
    if Clears(a) then Blank(FullCount(a)) + NonFull(a) else a
  }

  /** The number of rows one pass removes. */
  ghost function Cleared(a: Matrix): nat {
    if Clears(a) then FullCount(a) else 0
  }

  function Pow2(n: nat): (p: nat)
    ensures p >= 1
  {
    if n == 0 then 1 else 2 * Pow2(n - 1)
  }

  /** 10 points for the first row removed in a pass, doubling for each
      further row: 10 + 20 + ... + 10 * 2^(n-1). */
  function SweepPoints(n: nat): (points: nat)
    ensures points == 10 * (Pow2(n) - 1)
  {
    if n == 0 then 0 else SweepPoints(n - 1) + 10 * Pow2(n - 1)
  }

  lemma NoFullKeepsAll(rows: Matrix)
    requires FullCount(rows) == 0
    ensures NonFull(rows) == rows
  {
  }

  lemma NonFullRowsNotFull(rows: Matrix)
    ensures forall k :: 0 <= k < |NonFull(rows)| ==> !Full(NonFull(rows)[k])
  {
  }

  lemma NonFullRowsFrom(rows: Matrix, w: int)
    requires forall k :: 0 <= k < |rows| ==> |rows[k]| == w
    ensures forall k :: 0 <= k < |NonFull(rows)| ==> |NonFull(rows)[k]| == w
  {
  }

  /** The sweep keeps 20 rows of width 12. */
  lemma SweptWellFormed(a: Matrix)
    requires WellFormed(a)
    ensures WellFormed(Swept(a))
  {
    if Clears(a) {
      NonFullRowsFrom(a, Width);
    }
  }

  /** After the sweep no row below the top one is full (the blank rows are
      not: the width is not zero). */
  lemma SweptLeavesNoFullRow(a: Matrix)
    requires WellFormed(a)
    ensures forall r :: 1 <= r < |Swept(a)| ==> !Full(Swept(a)[r])
  {
    var s := Swept(a);
    if Clears(a) {
      NonFullRowsNotFull(a);
      var n := FullCount(a);
      forall r | 1 <= r < |s| ensures !Full(s[r]) {
        if r < n {
          assert s[r][0] == 0;
        } else {
          assert s[r] == NonFull(a)[r - n];
        }
      }
    } else {
      forall r | 1 <= r < |a| ensures !Full(a[r]) {
        if Full(a[r]) {
          FullCountSeesRow(a[1..], r - 1);
        }
      }
    }
  }

  lemma {:induction false} FullCountSeesRow(rows: Matrix, k: nat)
    requires k < |rows| && Full(rows[k])
    ensures FullCount(rows) > 0
  {
    if k > 0 {
      FullCountSeesRow(rows[1..], k - 1);
    }
  }

  /** The removed rows come back as that many blank rows on top. */
  lemma SweptTopIsBlank(a: Matrix)
    ensures forall r :: 0 <= r < Cleared(a) ==> Swept(a)[r] == Zeros(Width)
  {
  }

  /** Where a kept row ends up among the survivors: pushed back by the
      number of full rows in front of it. */
  lemma {:induction false} NonFullAt(rows: Matrix, j: nat)
    requires j < |rows| && !Full(rows[j])
    ensures j - FullCount(rows[..j]) < |NonFull(rows)|
    ensures NonFull(rows)[j - FullCount(rows[..j])] == rows[j]
  {
    if j > 0 {
      NonFullAt(rows[1..], j - 1);
      assert rows[1..][..j - 1] == rows[..j][1..];
    }
  }

  lemma {:induction false} FullCountSplit(rows: Matrix, j: nat)
    requires j <= |rows|
    ensures FullCount(rows) == FullCount(rows[..j]) + FullCount(rows[j..])
  {
    if j > 0 {
      FullCountSplit(rows[1..], j - 1);
      assert rows[1..][..j - 1] == rows[..j][1..];
      assert rows[1..][j - 1..] == rows[j..];
    }
  }

  /** Surviving rows keep their relative order: a row that is not full
      moves down by exactly the number of rows removed beneath it. */
  lemma SweepShiftsRowsDown(a: Matrix, j: nat)
    requires j < |a| && !Full(a[j])
    ensures j + FullCount(a[j + 1..]) < |Swept(a)|
    ensures Swept(a)[j + FullCount(a[j + 1..])] == a[j]
  {
    FullCountSplit(a, j);
    assert a[j..] == [a[j]] + a[j + 1..];
    assert FullCount(a[j..]) == FullCount(a[j + 1..]);
    if Clears(a) {
      NonFullAt(a, j);
    } else if j > 0 {
      FullCountSplit(a[1..], j);
      assert a[1..][j..] == a[j + 1..];
    } else {
      assert a[j + 1..] == a[1..];
    }
  }

  /** Looking at one more row from the bottom, row k - 1 of `a`: it counts
      once more if full, and joins the survivors in front if not. */
  lemma SweepLooksAtRow(a: Matrix, k: nat)
    requires 0 < k <= |a|
    ensures FullCount(a[k - 1..]) == (if Full(a[k - 1]) then 1 else 0) + FullCount(a[k..])
    ensures NonFull(a[k - 1..]) == (if Full(a[k - 1]) then [] else [a[k - 1]]) + NonFull(a[k..])
  {
    assert a[k - 1..][1..] == a[k..];
  }

  /** The field part way through the pass, once every row from k down has
      been looked at: blank rows for those removed, the rows above k as they
      were, then the survivors from k down. */
  ghost function PartSwept(a: Matrix, k: nat): (b: Matrix)
    requires k <= |a|
    ensures |b| == |a|
  {
    Blank(FullCount(a[k..])) + a[..k] + NonFull(a[k..])
  }

  /** Before the pass looks at any row the field is as it was. */
  lemma PartSweptStart(a: Matrix)
    ensures PartSwept(a, |a|) == a
  {
    assert a[|a|..] == [];
    assert a[..|a|] == a;
  }

  /** Every row of a partly swept field keeps the field's width. */
  lemma PartSweptWellFormed(a: Matrix, k: nat)
    requires WellFormed(a) && k <= |a|
    ensures WellFormed(PartSwept(a, k))
  {
    NonFullRowsFrom(a[k..], Width);
  }

  /** The row the pass looks at next, index `FullCount(a[k..]) + k - 1`,
      is row k - 1 of the original field. */
  lemma PartSweptNextRow(a: Matrix, k: nat)
    requires 0 < k <= |a|
    ensures FullCount(a[k..]) + k - 1 < |a|
    ensures PartSwept(a, k)[FullCount(a[k..]) + k - 1] == a[k - 1]
  {
  }

  /** Around row k - 1 of the original field, at index
      `FullCount(a[k..]) + k - 1`, a partly swept field splits into the
      blank rows and the rows above k - 1 in front, and the survivors from k
      down behind. */
  lemma PartSweptAround(a: Matrix, k: nat)
    requires 0 < k <= |a|
    ensures var b, i := PartSwept(a, k), FullCount(a[k..]) + k - 1;
      && b[..i] == Blank(FullCount(a[k..])) + a[..k - 1]
      && b[i + 1..] == NonFull(a[k..])
  {
    var n := FullCount(a[k..]);
    var front, kept := Blank(n) + a[..k - 1], NonFull(a[k..]);
    assert a[..k] == a[..k - 1] + [a[k - 1]];
    assert PartSwept(a, k) == front + ([a[k - 1]] + kept);
  }

  /** Looking at a full row k - 1: cutting it out and putting a blank row
      on top gives the next partial state. */
  lemma PartSweptCut(a: Matrix, k: nat)
    requires WellFormed(a) && 0 < k <= |a| && Full(a[k - 1])
    ensures FullCount(a[k - 1..]) == FullCount(a[k..]) + 1
    ensures var b, i := PartSwept(a, k), FullCount(a[k..]) + k - 1;
      PartSwept(a, k - 1) == [Zeros(Width)] + b[..i] + b[i + 1..]
  {
    SweepLooksAtRow(a, k);
    PartSweptAround(a, k);
    var n := FullCount(a[k..]);
    assert Blank(n + 1) == [Zeros(Width)] + Blank(n);
  }

  /** Looking at a row k - 1 that is not full leaves the field as it is,
      which already is the next partial state. */
  lemma PartSweptKeep(a: Matrix, k: nat)
    requires 0 < k <= |a| && !Full(a[k - 1])
    ensures FullCount(a[k - 1..]) == FullCount(a[k..])
    ensures PartSwept(a, k - 1) == PartSwept(a, k)
  {
    SweepLooksAtRow(a, k);
    assert a[..k] == a[..k - 1] + [a[k - 1]];
  }

  /** Once row 1 has been looked at without removing anything the pass is
      over and the field is unchanged; once row 0 has been looked at the
      field is swept. */
  lemma PartSweptEnd(a: Matrix)
    requires |a| > 0
    ensures !Clears(a) ==> PartSwept(a, 1) == Swept(a)
    ensures Clears(a) ==> PartSwept(a, 0) == Swept(a)
  {
    if !Clears(a) {
      NoFullKeepsAll(a[1..]);
      assert a == a[..1] + a[1..];
    }
  }

  /** Once every row has been removed or kept, the rows above the last one
      looked at are blank. */
  lemma PartSweptBlankTop(a: Matrix, r: nat)
    requires r < FullCount(a)
    ensures PartSwept(a, 0)[r] == Zeros(Width)
  {
  }
}
