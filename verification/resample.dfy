/** The fine-grid resampling scan of diff2poly.C. Each fine row is scanned
    left to right with the last directly filled cell remembered (`last`,
    reset to 0 at the start of every row):
    - a fine bin outside the variable-bin surface, or in a cell whose content
      is 0, gets 0 and leaves `last` alone;
    - a fine bin in a live cell other than `last` gets that cell's content and
      that cell becomes `last`;
    - a fine bin in `last` again starts a run: the run's length is counted, and
      the bins from the cell's first bin on are refilled as an even ramp from
      the content of cell `last - 1` up to the content of `last`.

    The variable-bin lookup (`TH2Poly::FindBin` at each fine bin centre) is an
    input: one `Option<nat>` per fine bin, None for a centre outside the
    surface. Fine bins are numbered from 0 here (bin i + 1 in ROOT's
    numbering); cells are numbered from 1 as ROOT numbers them. */
module Resample {

  import opened Numerics

  /** Content of cell `k`: cells run from 1 to |content|; cell 0 and
      numbers past the last cell read 0. */
  function CellContent(content: seq<real>, k: int): real
  {
    if 1 <= k <= |content| then content[k - 1] else 0.0
  }

  /** Fine bin `j` lies in a cell with nonzero content. */
  predicate Live(lookup: seq<Option<nat>>, content: seq<real>, j: int)
  {
    0 <= j < |lookup| && lookup[j].Some? && CellContent(content, lookup[j].value) != 0.0
  }

  /** Fine bin `j` lies in the same live cell as bin `j - 1`. */
  predicate Continues(lookup: seq<Option<nat>>, content: seq<real>, j: int)
  {
    0 < j < |lookup| && Live(lookup, content, j - 1) && lookup[j] == lookup[j - 1]
  }

  /** Bins a..b are one maximal stretch of a single live cell. */
  predicate IsBlock(lookup: seq<Option<nat>>, content: seq<real>, a: int, b: int)
  {
    && 0 <= a <= b < |lookup|
    && Live(lookup, content, a)
    && !Continues(lookup, content, a)
    && !Continues(lookup, content, b + 1)
    && forall j :: a < j <= b ==> Continues(lookup, content, j)
  }

  /** Every live cell covers one unbroken stretch of the row. A rectangular
      cell crossed by a row of increasing bin centres always does. */
  predicate Contiguous(lookup: seq<Option<nat>>, content: seq<real>)
  {
    forall j1, j2 :: 0 <= j1 < j2 < |lookup| && Live(lookup, content, j1) && lookup[j2] == lookup[j1]
      ==> lookup[j2 - 1] == lookup[j1]
  }

  /** Largest content, or 0 if all are below 0. */
  function Peak(content: seq<real>): (r: real)
    ensures r >= 0.0
    ensures forall k :: 0 <= k < |content| ==> content[k] <= r
  {
    if |content| == 0 then 0.0
    else
      var p := Peak(content[1..]);
      assert forall k :: 1 <= k < |content| ==> content[k] == content[1..][k - 1];
      if content[0] > p then content[0] else p
  }

  /** Smallest content, or 0 if all are above 0. */
  function Trough(content: seq<real>): (r: real)
    ensures r <= 0.0
    ensures forall k :: 0 <= k < |content| ==> r <= content[k]
  {
    if |content| == 0 then 0.0
    else
      var t := Trough(content[1..]);
      assert forall k :: 1 <= k < |content| ==> content[k] == content[1..][k - 1];
      if content[0] < t then content[0] else t
  }

  /** The block law: bin j of block a..b of cell c is `j - a + 1` of
      `b - a + 1` equal steps from the content of cell c - 1 to that of c. */
  function BlockValue(content: seq<real>, c: nat, a: int, b: int, j: int): real
    requires a <= b
  {
    Ramp(CellContent(content, c - 1), CellContent(content, c), j - a + 1, b - a + 1)
  }

  /** What a resampled row satisfies. Every value lies between the smallest
      and largest cell content (0 included). When every live cell is one
      stretch of the row, a bin outside every live cell holds 0, and each
      maximal block of a live cell is the ramp of `BlockValue`: a block of one
      bin holds the cell's content, and the last bin of every block does. */
  ghost predicate ResampledRow(row: seq<real>, lookup: seq<Option<nat>>, content: seq<real>)
  {
    && |row| == |lookup|
    && (forall j :: 0 <= j < |row| ==> Trough(content) <= row[j] <= Peak(content))
    && (Contiguous(lookup, content) ==>
          && (forall j :: 0 <= j < |row| && !Live(lookup, content, j) ==> row[j] == 0.0)
          && (forall a, b, j :: IsBlock(lookup, content, a, b) && a <= j <= b ==>
                row[j] == BlockValue(content, lookup[a].value, a, b, j)))
  }

  ghost predicate ZerosDone(row: seq<real>, lookup: seq<Option<nat>>, content: seq<real>, i: int)
    requires |row| == |lookup|
  {
    forall j :: 0 <= j < i && j < |row| && !Live(lookup, content, j) ==> row[j] == 0.0
  }

  ghost predicate BlocksDone(row: seq<real>, lookup: seq<Option<nat>>, content: seq<real>, i: int)
    requires |row| == |lookup|
  {
    forall a, b, j :: IsBlock(lookup, content, a, b) && b < i && a <= j <= b ==>
      row[j] == BlockValue(content, lookup[a].value, a, b, j)
  }

  lemma CellContentBounded(content: seq<real>, k: int)
    ensures Trough(content) <= CellContent(content, k) <= Peak(content)
  {
  }

  /** Two maximal blocks that share a bin are the same block. */
  lemma BlocksDisjoint(lookup: seq<Option<nat>>, content: seq<real>, a: int, b: int, a': int, b': int, j: int)
    requires IsBlock(lookup, content, a, b) && IsBlock(lookup, content, a', b')
    requires a <= j <= b && a' <= j <= b'
    ensures a == a' && b == b'
  {
  }

  lemma BlockIsLive(lookup: seq<Option<nat>>, content: seq<real>, a: int, b: int)
    requires IsBlock(lookup, content, a, b)
    ensures forall j :: a <= j <= b ==> Live(lookup, content, j) && lookup[j] == lookup[a]
  {
    var j := a;
    while j < b
      invariant a <= j <= b
      invariant forall t :: a <= t <= j ==> Live(lookup, content, t) && lookup[t] == lookup[a]
    {
      assert Continues(lookup, content, j + 1);
      j := j + 1;
    }
  }

  /** Refills bins s..s+len-1 as diff2poly.C refills a run: the last bin gets
      `hi` first, then the others get `m` of `len` steps from `lo` to `hi`. */
  method FillRun(row: seq<real>, s: int, len: int, lo: real, hi: real) returns (r: seq<real>)
    requires 0 <= s && len >= 2 && s + len <= |row|
    ensures |r| == |row|
    ensures forall j :: 0 <= j < |row| && !(s <= j < s + len) ==> r[j] == row[j]
    ensures forall j :: s <= j < s + len ==> r[j] == Ramp(lo, hi, j - s + 1, len)
  {
    r := row[s + len - 1 := hi];
    var m := 1;
    while m < len
      invariant 1 <= m <= len
      invariant |r| == |row|
      invariant forall j :: 0 <= j < |row| && !(s <= j < s + m - 1) && j != s + len - 1 ==> r[j] == row[j]
      invariant r[s + len - 1] == hi
      invariant forall j :: s <= j < s + m - 1 ==> r[j] == Ramp(lo, hi, j - s + 1, len)
    {
      r := r[s + m - 1 := Ramp(lo, hi, m, len)];
      m := m + 1;
    }
  }

  /** A bin outside every live cell, set to 0, keeps the row's completed
      part in order. */
  lemma ZeroStep(row: seq<real>, lookup: seq<Option<nat>>, content: seq<real>, i: int)
    requires |row| == |lookup| && 0 <= i < |lookup| && !Live(lookup, content, i)
    requires ZerosDone(row, lookup, content, i) && BlocksDone(row, lookup, content, i)
    ensures ZerosDone(row[i := 0.0], lookup, content, i + 1)
    ensures BlocksDone(row[i := 0.0], lookup, content, i + 1)
  {
    var row' := row[i := 0.0];
    forall a, b, j | IsBlock(lookup, content, a, b) && b < i + 1 && a <= j <= b
      ensures row'[j] == BlockValue(content, lookup[a].value, a, b, j)
    {
      BlockIsLive(lookup, content, a, b);
      assert row'[j] == row[j];
    }
  }

  /** A bin of a live cell other than `last` is a block of its own so far:
      filling it with the cell's content completes that block if it ends there. */
  lemma DirectStep(row: seq<real>, lookup: seq<Option<nat>>, content: seq<real>, i: int, last: nat)
    requires |row| == |lookup| && 0 <= i < |lookup| && Live(lookup, content, i)
    requires lookup[i] != Some(last)
    requires i > 0 && Live(lookup, content, i - 1) ==> lookup[i - 1] == Some(last)
    requires ZerosDone(row, lookup, content, i) && BlocksDone(row, lookup, content, i)
    ensures !Continues(lookup, content, i)
    ensures ZerosDone(row[i := CellContent(content, lookup[i].value)], lookup, content, i + 1)
    ensures BlocksDone(row[i := CellContent(content, lookup[i].value)], lookup, content, i + 1)
  {
    var row' := row[i := CellContent(content, lookup[i].value)];
    forall a, b, j | IsBlock(lookup, content, a, b) && b < i + 1 && a <= j <= b
      ensures row'[j] == BlockValue(content, lookup[a].value, a, b, j)
    {
      assert a < b && b == i ==> Continues(lookup, content, i);
      if b < i {
        assert row'[j] == row[j];
      }
    }
  }

  /** Under contiguity, a run found at bin i after `last` was filled is the
      rest of the maximal block that starts at bin i - 1. */
  lemma RunCompletesBlock(lookup: seq<Option<nat>>, content: seq<real>, i: int, n: int, last: nat, j0: int)
    requires Contiguous(lookup, content)
    requires 0 <= j0 < i && Live(lookup, content, j0) && lookup[j0] == Some(last)
    requires n >= 1 && i + n <= |lookup|
    requires forall t :: i <= t < i + n ==> lookup[t] == Some(last)
    requires i + n == |lookup| || lookup[i + n] != Some(last)
    requires Continues(lookup, content, i) ==> !Continues(lookup, content, i - 1)
    ensures Continues(lookup, content, i)
    ensures IsBlock(lookup, content, i - 1, i + n - 1)
    ensures lookup[i - 1] == Some(last)
  {
    assert lookup[i] == lookup[j0];
    assert lookup[i - 1] == lookup[j0];
    forall j | i - 1 < j <= i + n - 1 ensures Continues(lookup, content, j) {
      assert lookup[j - 1] == Some(last);
    }
  }

  /** Refilling a run completes the block that starts one bin before it. */
  lemma RunStep(row: seq<real>, row': seq<real>, lookup: seq<Option<nat>>, content: seq<real>, i: int, n: int)
    requires |row| == |lookup| && |row'| == |lookup|
    requires 1 <= i && n >= 1 && i + n <= |lookup|
    requires IsBlock(lookup, content, i - 1, i + n - 1)
    requires ZerosDone(row, lookup, content, i) && BlocksDone(row, lookup, content, i)
    requires forall j :: 0 <= j < i - 1 ==> row'[j] == row[j]
    requires forall j :: i - 1 <= j < i + n ==>
      row'[j] == BlockValue(content, lookup[i - 1].value, i - 1, i + n - 1, j)
    ensures ZerosDone(row', lookup, content, i + n)
    ensures BlocksDone(row', lookup, content, i + n)
  {
    BlockIsLive(lookup, content, i - 1, i + n - 1);
    forall a, b, j | IsBlock(lookup, content, a, b) && b < i + n && a <= j <= b
      ensures row'[j] == BlockValue(content, lookup[a].value, a, b, j)
    {
      if b >= i - 1 {
        BlocksDisjoint(lookup, content, a, b, i - 1, i + n - 1, b);
      }
    }
  }

  /** What holds after the scan has passed bins 0..i-1 with `last` the cell
      filled last. */
  ghost predicate ScanInv(row: seq<real>, lookup: seq<Option<nat>>, content: seq<real>, i: int, last: nat)
  {
    && 0 <= i <= |lookup| && |row| == |lookup|
    && Bounded(row, content)
    && (i > 0 && Live(lookup, content, i - 1) ==> lookup[i - 1] == Some(last))
    && (last == 0 || SeenBefore(lookup, content, i, last))
    && (Contiguous(lookup, content) ==>
          && ZerosDone(row, lookup, content, i)
          && BlocksDone(row, lookup, content, i)
          && (Continues(lookup, content, i) ==> !Continues(lookup, content, i - 1)))
  }

  ghost predicate Bounded(row: seq<real>, content: seq<real>)
  {
    forall j :: 0 <= j < |row| ==> Trough(content) <= row[j] <= Peak(content)
  }

  /** Cell `last` is live and was met among bins 0..i-1. */
  ghost predicate SeenBefore(lookup: seq<Option<nat>>, content: seq<real>, i: int, last: nat)
  {
    exists j :: 0 <= j < i && Live(lookup, content, j) && lookup[j] == Some(last)
  }

  /** Bin i is outside the surface or in a cell of content 0: it gets 0. */
  method ZeroBin(row: seq<real>, lookup: seq<Option<nat>>, content: seq<real>, i: int, last: nat)
    returns (row': seq<real>)
    requires ScanInv(row, lookup, content, i, last) && i < |lookup| && !Live(lookup, content, i)
    ensures ScanInv(row', lookup, content, i + 1, last)
    ensures row'[i] == 0.0
  {
    if Contiguous(lookup, content) {
      ZeroStep(row, lookup, content, i);
      assert !Continues(lookup, content, i + 1);
    }
    row' := row[i := 0.0];
  }

  /** Bin i is in a live cell other than `last`: it gets that cell's content
      and the cell becomes `last`. */
  method DirectBin(row: seq<real>, lookup: seq<Option<nat>>, content: seq<real>, i: int, last: nat)
    returns (row': seq<real>)
    requires ScanInv(row, lookup, content, i, last) && i < |lookup| && Live(lookup, content, i)
    requires lookup[i] != Some(last)
    ensures ScanInv(row', lookup, content, i + 1, lookup[i].value)
    ensures row'[i] == CellContent(content, lookup[i].value)
  {
    var w := CellContent(content, lookup[i].value);
    CellContentBounded(content, lookup[i].value);
    if Contiguous(lookup, content) {
      DirectStep(row, lookup, content, i, last);
    }
    row' := row[i := w];
  }

  /** Bin i is in `last` again: count the run of bins in `last` from i on,
      and refill from bin i - 1 to the end of the run. Returns the bin after
      the run. */
  method RunBins(row: seq<real>, lookup: seq<Option<nat>>, content: seq<real>, i: int, last: nat)
    returns (row': seq<real>, next: int)
    requires ScanInv(row, lookup, content, i, last) && i < |lookup| && Live(lookup, content, i)
    requires lookup[i] == Some(last)
    ensures i < next <= |lookup|
    ensures forall t :: i <= t < next ==> lookup[t] == Some(last)
    ensures next == |lookup| || lookup[next] != Some(last)
    ensures |row'| == |row|
    ensures forall j :: 0 <= j < |row| && !(i - 1 <= j < next) ==> row'[j] == row[j]
    ensures forall j :: i - 1 <= j < next ==>
      row'[j] == Ramp(CellContent(content, last - 1), CellContent(content, last), j - (i - 1) + 1, next - i + 1)
    ensures ScanInv(row', lookup, content, next, last)
  {
    var w := CellContent(content, last);
    var n := 0;
    while i + n < |lookup| && lookup[i + n] == Some(last)
      invariant 0 <= n && i + n <= |lookup|
      invariant forall t :: i <= t < i + n ==> lookup[t] == Some(last)
      decreases |lookup| - (i + n)
    {
      n := n + 1;
    }
    var wLast := CellContent(content, last - 1);
    assert i >= 1;
    row' := FillRun(row, i - 1, n + 1, wLast, w);
    RunKeepsInv(row, row', lookup, content, i, n, last);
    next := i + n;
  }

  lemma RunKeepsInv(row: seq<real>, row': seq<real>, lookup: seq<Option<nat>>, content: seq<real>, i: int, n: int, last: nat)
    requires ScanInv(row, lookup, content, i, last) && i < |lookup| && Live(lookup, content, i)
    requires lookup[i] == Some(last)
    requires n >= 1 && i + n <= |lookup|
    requires forall t :: i <= t < i + n ==> lookup[t] == Some(last)
    requires i + n == |lookup| || lookup[i + n] != Some(last)
    requires |row'| == |row|
    requires forall j :: 0 <= j < |row| && !(i - 1 <= j < i + n) ==> row'[j] == row[j]
    requires forall j :: i - 1 <= j < i + n ==>
      row'[j] == Ramp(CellContent(content, last - 1), CellContent(content, last), j - (i - 1) + 1, n + 1)
    ensures ScanInv(row', lookup, content, i + n, last)
  {
    ghost var j0 :| 0 <= j0 < i && Live(lookup, content, j0) && lookup[j0] == Some(last);
    CellContentBounded(content, last);
    CellContentBounded(content, last - 1);
    if Contiguous(lookup, content) {
      RunCompletesBlock(lookup, content, i, n, last, j0);
      RunStep(row, row', lookup, content, i, n);
    }
  }

  /** One fine row, scanned as diff2poly.C scans it. */
  method ResampleRow(lookup: seq<Option<nat>>, content: seq<real>) returns (row: seq<real>)
    ensures ResampledRow(row, lookup, content)
  {
    row := seq(|lookup|, _ => 0.0);
    var last: nat := 0;
    var i := 0;
    while i < |lookup|
      invariant ScanInv(row, lookup, content, i, last)
      decreases |lookup| - i
    {
      var ibin := lookup[i];
      if ibin.None? || CellContent(content, ibin.value) == 0.0 {
        row := ZeroBin(row, lookup, content, i, last);
        i := i + 1;
      } else if ibin.value == last {
        row, i := RunBins(row, lookup, content, i, last);
      } else {
        row := DirectBin(row, lookup, content, i, last);
        last := ibin.value;
        i := i + 1;
      }
    }
  }

  /** First bin of the stretch of live bins that reaches bin `j`. */
  function BlockStart(lookup: seq<Option<nat>>, content: seq<real>, j: int): (a: int)
    requires 0 <= j < |lookup|
    ensures 0 <= a <= j
    ensures !Continues(lookup, content, a)
    ensures forall t :: a < t <= j ==> Continues(lookup, content, t)
    decreases j
  {
    if Continues(lookup, content, j) then BlockStart(lookup, content, j - 1) else j
  }

  /** Last bin of the stretch of live bins that starts at or before bin `j`. */
  function BlockEnd(lookup: seq<Option<nat>>, content: seq<real>, j: int): (b: int)
    requires 0 <= j < |lookup|
    ensures j <= b < |lookup|
    ensures !Continues(lookup, content, b + 1)
    ensures forall t :: j < t <= b ==> Continues(lookup, content, t)
    decreases |lookup| - j
  {
    if Continues(lookup, content, j + 1) then BlockEnd(lookup, content, j + 1) else j
  }

  /** Every live bin lies in a maximal block. */
  lemma BlockAround(lookup: seq<Option<nat>>, content: seq<real>, j: int)
    requires Live(lookup, content, j)
    ensures IsBlock(lookup, content, BlockStart(lookup, content, j), BlockEnd(lookup, content, j))
  {
    var a := BlockStart(lookup, content, j);
    if a < j {
      assert Continues(lookup, content, a + 1);
    }
  }

  /** The row the block law prescribes, bin by bin: 0 outside live cells,
      the ramp of its maximal block inside one. */
  function LawRow(lookup: seq<Option<nat>>, content: seq<real>): (r: seq<real>)
    ensures |r| == |lookup|
  {
    seq(|lookup|, j requires 0 <= j < |lookup| =>
      if Live(lookup, content, j)
      then BlockValue(content, lookup[j].value, BlockStart(lookup, content, j), BlockEnd(lookup, content, j), j)
      else 0.0)
  }

  /** When every live cell is one stretch of the row, `ResampledRow` leaves
      no freedom: the scan's row is exactly the law's row. */
  lemma ResampledRowIsLawRow(row: seq<real>, lookup: seq<Option<nat>>, content: seq<real>)
    requires Contiguous(lookup, content)
    requires ResampledRow(row, lookup, content)
    ensures row == LawRow(lookup, content)
  {
    var law := LawRow(lookup, content);
    forall j | 0 <= j < |row| ensures row[j] == law[j] {
      if Live(lookup, content, j) {
        var a, b := BlockStart(lookup, content, j), BlockEnd(lookup, content, j);
        BlockAround(lookup, content, j);
        BlockIsLive(lookup, content, a, b);
        assert row[j] == BlockValue(content, lookup[a].value, a, b, j);
      }
    }
  }

  /** A row whose first two bins share one cell, the third is in another
      and the fourth is outside has every cell in one stretch. */
  lemma PairThenSingleContiguous(lookup: seq<Option<nat>>, content: seq<real>)
    requires |lookup| == 4 && lookup[0] == lookup[1] && lookup[3].None?
    requires lookup[1] != lookup[2]
    ensures Contiguous(lookup, content)
  {
  }

  /** Two cells of content 10 and 20 crossed by two fine bins each (the
      first two bins in cell 1, the third in cell 2, the fourth outside):
      cell 1 ramps up from cell 0's content 0, so the row is not constant
      per cell. */
  lemma FirstRowExample(row: seq<real>)
    requires ResampledRow(row, [Some(1), Some(1), Some(2), None], [10.0, 20.0, 30.0, 40.0])
    ensures row == [5.0, 10.0, 20.0, 0.0]
  {
    var lookup: seq<Option<nat>> := [Some(1), Some(1), Some(2), None];
    var content := [10.0, 20.0, 30.0, 40.0];
    PairThenSingleContiguous(lookup, content);
    assert IsBlock(lookup, content, 0, 1);
    assert IsBlock(lookup, content, 2, 2);
    assert row[0] == BlockValue(content, 1, 0, 1, 0);
    assert row[1] == BlockValue(content, 1, 0, 1, 1);
    assert row[2] == BlockValue(content, 2, 2, 2, 2);
    assert !Live(lookup, content, 3);
  }

  /** The next poly row's cells 3 and 4 in the same layout: the ramp of cell
      3 starts from cell 2, the last cell of the row before. */
  lemma SecondRowExample(row: seq<real>)
    requires ResampledRow(row, [Some(3), Some(3), Some(4), None], [10.0, 20.0, 30.0, 40.0])
    ensures row == [25.0, 30.0, 40.0, 0.0]
  {
    var lookup: seq<Option<nat>> := [Some(3), Some(3), Some(4), None];
    var content := [10.0, 20.0, 30.0, 40.0];
    PairThenSingleContiguous(lookup, content);
    assert IsBlock(lookup, content, 0, 1);
    assert IsBlock(lookup, content, 2, 2);
    assert row[0] == BlockValue(content, 3, 0, 1, 0);
    assert row[1] == BlockValue(content, 3, 0, 1, 1);
    assert row[2] == BlockValue(content, 4, 2, 2, 2);
    assert !Live(lookup, content, 3);
  }

  /** The lookups of fine row `y`: `find(i, y)` is the cell holding the centre
      of fine bin (i, y), or None when that centre is outside the surface. */
  function RowLookup(find: (nat, nat) -> Option<nat>, nx: nat, y: nat): (r: seq<Option<nat>>)
    ensures |r| == nx
  {
    seq(nx, i requires 0 <= i < nx => find(i, y))
  }

  /** The whole fine grid, row by row; no state carries from one row to the
      next, since `last` restarts at 0 on every row. */
  method ResampleGrid(find: (nat, nat) -> Option<nat>, nx: nat, ny: nat, content: seq<real>)
    returns (grid: seq<seq<real>>)
    ensures |grid| == ny
    ensures forall y :: 0 <= y < ny ==> ResampledRow(grid[y], RowLookup(find, nx, y), content)
  {
    grid := [];
    var y := 0;
    while y < ny
      invariant 0 <= y <= ny && |grid| == y
      invariant forall r :: 0 <= r < y ==> ResampledRow(grid[r], RowLookup(find, nx, r), content)
    {
      var row := ResampleRow(RowLookup(find, nx, y), content);
      grid := grid + [row];
      y := y + 1;
    }
  }
}
