/** The variable-bin grid of diff2poly.C: ingestion of per-sample kinetic
    energies with the running upper edge `E_hi`, the single x-edge array in
    which every slice is closed by `E_hi` and reopened by `E_low`, the y-edges
    between slice cosines, and the emission of one rectangular cell per sample.

    The input is one flat list of kinetic energies, slice after slice; the
    code finds slice boundaries only by a drop in value. The reference
    definitions (`Segment`, `SliceEdges`, `RefCells`) take the slices
    explicitly, and the lemmas below say when the flat scan recovers them. */
module PolyGrid {

  import opened Numerics

  /** Electron rest mass (MeV) taken off the total energy. */
  const RestMass: real := 0.511
  /** Margin added above the largest kinetic energy seen so far. */
  const EHiMargin: real := 0.001
  /** Lower x-edge of every slice. */
  const ELow: real := 0.0
  /** The y-axis runs from +YLimit down to -YLimit. */
  const YLimit: real := 1.01

  // ---------------------------------------------------------------------
  // Ingestion: kinetic energies and E_hi

  /** Kinetic energy for a total energy, clamped at 0 because the first
      samples of a slice fall just below the rest mass. */
  function Kinetic(total: real): (e: real)
    ensures e >= 0.0
    ensures e >= total - RestMass
    ensures e == 0.0 || e == total - RestMass
  {
    if total - RestMass < 0.0 then 0.0 else total - RestMass
  }

  /** `E_hi` after scanning `es` from a running value `eHi`: whenever a sample
      exceeds the running value, the running value becomes sample + margin. */
  function TrackEHi(eHi: real, es: seq<real>): (r: real)
    ensures r >= eHi
    ensures forall k :: 0 <= k < |es| ==> es[k] <= r
    ensures r == eHi || exists k :: 0 <= k < |es| && r == es[k] + EHiMargin
    decreases |es|
  {
    if |es| == 0 then eHi
    else
      var next := if es[0] > eHi then es[0] + EHiMargin else eHi;
      var r := TrackEHi(next, es[1..]);
      assert r != next ==> exists k :: 0 <= k < |es[1..]| && r == es[1..][k] + EHiMargin;
      assert r != next ==> exists k :: 1 <= k < |es| && r == es[k] + EHiMargin;
      r
  }

  datatype Ingested = Ingested(kinetic: seq<real>, eHi: real)

  /** The kinetic energies of all samples, in file order, and `E_hi`. */
  function Ingest(totals: seq<real>): (r: Ingested)
    ensures |r.kinetic| == |totals|
    ensures forall k :: 0 <= k < |totals| ==> 0.0 <= r.kinetic[k] <= r.eHi
    ensures forall k :: 0 <= k < |totals| ==>
      r.kinetic[k] >= totals[k] - RestMass && (r.kinetic[k] == 0.0 || r.kinetic[k] == totals[k] - RestMass)
    ensures r.eHi >= 0.0
    ensures r.eHi == 0.0 || exists k :: 0 <= k < |totals| && r.eHi == r.kinetic[k] + EHiMargin
  {
    var kinetic := seq(|totals|, k requires 0 <= k < |totals| => Kinetic(totals[k]));
    Ingested(kinetic, TrackEHi(0.0, kinetic))
  }

  // ---------------------------------------------------------------------
  // x-edges

  /** The edge placed between two consecutive samples, written as diff2poly.C
      writes it. */
  function Mid(a: real, b: real): (m: real)
    ensures a <= b ==> a <= m <= b
    ensures b <= a ==> b <= m <= a
    ensures a < b ==> a < m < b
    ensures b < a ==> b < m < a
  {
    a + 0.5 * (b - a)
  }

  /** Edges the scan writes for the samples `rest`, given the previous sample
      `prev` and the last edge written `last`. A sample below `last` is read as
      the start of a new slice: it writes `eHi` then `ELow` and no midpoint. */
  function EdgeScan(prev: real, last: real, rest: seq<real>, eHi: real): (r: seq<real>)
    ensures |rest| <= |r| <= 2 * |rest|
    decreases |rest|
  {
    if |rest| == 0 then []
    else if rest[0] < last then [eHi, ELow] + EdgeScan(rest[0], ELow, rest[1..], eHi)
    else
      var m := Mid(prev, rest[0]);
      [m] + EdgeScan(rest[0], m, rest[1..], eHi)
  }

  /** The x-edges written before the preset final `E_hi`. */
  function WrittenEdges(es: seq<real>, eHi: real): seq<real>
    requires |es| >= 1
  {
    [ELow] + EdgeScan(es[0], ELow, es[1..], eHi)
  }

  /** The full x-edge array of `|es| + nSlices` entries, or None when the scan
      does not find exactly `nSlices` slices (the array would then be left
      partly unwritten or be overrun). */
  function XEdges(es: seq<real>, eHi: real, nSlices: nat): (r: Option<seq<real>>)
    ensures r.Some? ==> |es| >= 1 && |r.value| == |es| + nSlices
    ensures r.Some? ==> r.value[0] == ELow && r.value[|r.value| - 1] == eHi
    ensures |es| == 0 ==> r.None?
  {
    if |es| == 0 then None
    else
      var w := WrittenEdges(es, eHi);
      if |w| + 1 == |es| + nSlices then Some(w + [eHi]) else None
  }

  // Reference definitions: slices given explicitly.

  /** Midpoints between consecutive samples of one slice. */
  function Mids(s: seq<real>): (r: seq<real>)
    ensures |r| == if |s| == 0 then 0 else |s| - 1
    ensures forall j :: 0 <= j < |r| ==> r[j] == Mid(s[j], s[j + 1])
  {
    if |s| < 2 then [] else [Mid(s[0], s[1])] + Mids(s[1..])
  }

  /** The edges of one slice: `ELow`, the midpoints, `eHi`. */
  function Segment(s: seq<real>, eHi: real): seq<real>
  {
    [ELow] + Mids(s) + [eHi]
  }

  function SliceEdges(slices: seq<seq<real>>, eHi: real): seq<real>
  {
    if |slices| == 0 then [] else Segment(slices[0], eHi) + SliceEdges(slices[1..], eHi)
  }

  function Flatten(slices: seq<seq<real>>): seq<real>
  {
    if |slices| == 0 then [] else slices[0] + Flatten(slices[1..])
  }

  predicate NonDecreasing(s: seq<real>)
  {
    forall j :: 0 < j < |s| ==> s[j - 1] <= s[j]
  }

  predicate WithinRange(s: seq<real>, eHi: real)
  {
    forall j :: 0 <= j < |s| ==> ELow <= s[j] <= eHi
  }

  /** The last edge the scan has written once slice `s` is consumed, when the
      slice was opened with `last` as the last edge. */
  function LastEdgeAfter(s: seq<real>, last: real): real
  {
    if |s| < 2 then last else Mid(s[|s| - 2], s[|s| - 1])
  }

  /** Every slice is non-empty, sorted and inside [ELow, eHi]. */
  predicate OrderedSlices(slices: seq<seq<real>>, eHi: real)
  {
    forall k :: 0 <= k < |slices| ==>
      |slices[k]| >= 1 && NonDecreasing(slices[k]) && WithinRange(slices[k], eHi)
  }

  /** Ordered slices whose boundaries the drop test can see: each slice after
      the first opens below the last edge of the slice before it. */
  predicate Separable(slices: seq<seq<real>>, eHi: real)
  {
    && |slices| >= 1
    && OrderedSlices(slices, eHi)
    && forall k :: 0 < k < |slices| ==> slices[k][0] < LastEdgeAfter(slices[k - 1], ELow)
  }

  lemma {:induction false} SliceEdgesLength(slices: seq<seq<real>>, eHi: real)
    requires OrderedSlices(slices, eHi)
    ensures |SliceEdges(slices, eHi)| == |Flatten(slices)| + |slices|
  {
    if |slices| > 0 {
      assert OrderedSlices(slices[1..], eHi) by {
        forall k | 0 <= k < |slices[1..]| ensures |slices[1..][k]| >= 1 && NonDecreasing(slices[1..][k]) && WithinRange(slices[1..][k], eHi) {
          assert slices[1..][k] == slices[k + 1];
        }
      }
      SliceEdgesLength(slices[1..], eHi);
    }
  }

  lemma NonDecreasingTail(s: seq<real>)
    requires |s| >= 1 && NonDecreasing(s)
    ensures NonDecreasing(s[1..])
  {
    forall j | 0 < j < |s[1..]| ensures s[1..][j - 1] <= s[1..][j] {
      assert s[1..][j - 1] == s[j] && s[1..][j] == s[j + 1];
    }
  }

  /** Inside one sorted slice the scan writes exactly the midpoints and ends
      with the slice's last sample and last midpoint as its state. */
  lemma {:induction false} ScanWithinSlice(s: seq<real>, last: real, tail: seq<real>, eHi: real)
    requires |s| >= 1 && NonDecreasing(s)
    requires ELow <= last <= s[0]
    ensures EdgeScan(s[0], last, s[1..] + tail, eHi)
         == Mids(s) + EdgeScan(s[|s| - 1], LastEdgeAfter(s, last), tail, eHi)
    decreases |s|
  {
    if |s| == 1 {
      assert s[1..] + tail == tail;
    } else {
      var m := Mid(s[0], s[1]);
      assert s[0] <= s[1];
      var rest := s[1..] + tail;
      assert rest[0] == s[1] && rest[1..] == s[2..] + tail;
      assert EdgeScan(s[0], last, rest, eHi) == [m] + EdgeScan(s[1], m, s[2..] + tail, eHi);
      NonDecreasingTail(s);
      assert s[1..][0] == s[1] && s[1..][1..] == s[2..];
      ScanWithinSlice(s[1..], m, tail, eHi);
      assert Mids(s) == [m] + Mids(s[1..]);
      assert LastEdgeAfter(s, last) == LastEdgeAfter(s[1..], m);
    }
  }

  lemma SeparableTail(slices: seq<seq<real>>, eHi: real)
    requires Separable(slices, eHi) && |slices| >= 2
    ensures Separable(slices[1..], eHi)
  {
    var rest := slices[1..];
    forall k | 0 <= k < |rest| ensures |rest[k]| >= 1 && NonDecreasing(rest[k]) && WithinRange(rest[k], eHi) {
      assert rest[k] == slices[k + 1];
    }
    forall k | 0 < k < |rest| ensures rest[k][0] < LastEdgeAfter(rest[k - 1], ELow) {
      assert rest[k] == slices[k + 1] && rest[k - 1] == slices[k];
    }
  }

  /** A sample below the last written edge closes the slice with `eHi`,
      reopens with `ELow`, and is consumed without a midpoint. */
  lemma BoundaryStep(p: real, lastEdge: real, n: seq<real>, more: seq<real>, eHi: real)
    requires |n| >= 1 && n[0] < lastEdge
    ensures EdgeScan(p, lastEdge, n + more, eHi) == [eHi, ELow] + EdgeScan(n[0], ELow, n[1..] + more, eHi)
  {
    assert (n + more)[0] == n[0] && (n + more)[1..] == n[1..] + more;
  }

  lemma JoinSegments(ms: seq<real>, x: seq<real>, mn: seq<real>, later: seq<real>, eHi: real)
    requires x + [eHi] == mn + [eHi] + later
    ensures ms + ([eHi, ELow] + x) + [eHi] == ms + [eHi] + (([ELow] + mn + [eHi]) + later)
  {
    calc {
      ms + ([eHi, ELow] + x) + [eHi];
      ms + [eHi, ELow] + (x + [eHi]);
      ms + [eHi, ELow] + (mn + [eHi] + later);
      ms + [eHi] + (([ELow] + mn + [eHi]) + later);
    }
  }

  /** Over separable slices the scan, opened at the first sample, writes each
      slice's midpoints and the `eHi`, `ELow` pair between slices. */
  lemma {:induction false} ScanOverSlices(slices: seq<seq<real>>, eHi: real)
    requires Separable(slices, eHi)
    ensures EdgeScan(slices[0][0], ELow, slices[0][1..] + Flatten(slices[1..]), eHi) + [eHi]
         == Mids(slices[0]) + [eHi] + SliceEdges(slices[1..], eHi)
    decreases |slices|
  {
    var s := slices[0];
    var rest := Flatten(slices[1..]);
    assert |s| >= 1 && NonDecreasing(s) && WithinRange(s, eHi);
    ScanWithinSlice(s, ELow, rest, eHi);
    var lastEdge := LastEdgeAfter(s, ELow);
    if |slices| == 1 {
      assert rest == [] && SliceEdges(slices[1..], eHi) == [];
    } else {
      var n := slices[1];
      var later := slices[2..];
      assert n[0] < lastEdge;
      assert |n| >= 1;
      assert slices[1..][0] == n && slices[1..][1..] == later;
      assert rest == n + Flatten(later);
      BoundaryStep(s[|s| - 1], lastEdge, n, Flatten(later), eHi);
      SeparableTail(slices, eHi);
      ScanOverSlices(slices[1..], eHi);
      var x := EdgeScan(n[0], ELow, n[1..] + Flatten(later), eHi);
      assert SliceEdges(slices[1..], eHi) == Segment(n, eHi) + SliceEdges(later, eHi);
      JoinSegments(Mids(s), x, Mids(n), SliceEdges(later, eHi), eHi);
    }
  }

  /** When the slices are separable, the x-edges the code builds from the flat
      list are exactly each slice's `ELow`, midpoints and `eHi`, one slice
      after the other, and they fill the array of `|samples| + |slices|`. */
  lemma XEdgesOfSlices(slices: seq<seq<real>>, eHi: real)
    requires Separable(slices, eHi)
    ensures XEdges(Flatten(slices), eHi, |slices|) == Some(SliceEdges(slices, eHi))
  {
    var es := Flatten(slices);
    var s := slices[0];
    assert |s| >= 1 by { assert OrderedSlices(slices, eHi); }
    assert es == s + Flatten(slices[1..]);
    assert es[0] == s[0];
    assert es[1..] == s[1..] + Flatten(slices[1..]);
    ScanOverSlices(slices, eHi);
    var w := WrittenEdges(es, eHi);
    var scan := EdgeScan(s[0], ELow, s[1..] + Flatten(slices[1..]), eHi);
    assert w == [ELow] + scan;
    calc {
      w + [eHi];
      [ELow] + (scan + [eHi]);
      [ELow] + (Mids(s) + [eHi] + SliceEdges(slices[1..], eHi));
      Segment(s, eHi) + SliceEdges(slices[1..], eHi);
      SliceEdges(slices, eHi);
    }
    SliceEdgesLength(slices, eHi);
    assert |w| + 1 == |es| + |slices|;
  }

  /** A slice of a single sample that is not the last one hides the boundary
      after it: its last written edge is `ELow`, which no sample falls below. */
  lemma OneSampleSliceHidesBoundary()
    ensures SliceEdges([[1.0], [0.5, 2.0]], 3.0) == [0.0, 3.0, 0.0, 1.25, 3.0]
    ensures XEdges([1.0, 0.5, 2.0], 3.0, 2).None?
  {
    assert Flatten([[1.0], [0.5, 2.0]]) == [1.0, 0.5, 2.0];
    assert EdgeScan(0.5, 0.75, [2.0], 3.0) == [1.25];
    assert EdgeScan(1.0, 0.0, [0.5, 2.0], 3.0) == [0.75, 1.25];
  }

  // ---------------------------------------------------------------------
  // y-edges

  /** y-edges from +YLimit down to -YLimit with the midpoints of consecutive
      slice cosines in between. */
  function YEdges(cosines: seq<real>): (r: seq<real>)
    requires |cosines| >= 1
    ensures |r| == |cosines| + 1 && r[0] == YLimit && r[|cosines|] == -YLimit
    ensures forall j :: 0 < j < |cosines| ==>
      (cosines[j] <= r[j] <= cosines[j - 1]) || (cosines[j - 1] <= r[j] <= cosines[j])
  {
    [YLimit] + Mids(cosines) + [-YLimit]
  }

  predicate StrictlyDecreasing(s: seq<real>)
  {
    forall j :: 0 < j < |s| ==> s[j] < s[j - 1]
  }

  /** With strictly decreasing cosines inside [-1, 1] the y-edges strictly
      decrease, and each slice's cosine lies strictly inside its own row. */
  lemma YEdgesBracketSlices(cosines: seq<real>)
    requires |cosines| >= 1
    requires StrictlyDecreasing(cosines)
    requires forall j :: 0 <= j < |cosines| ==> -1.0 <= cosines[j] <= 1.0
    ensures |YEdges(cosines)| == |cosines| + 1
    ensures YEdges(cosines)[0] == YLimit && YEdges(cosines)[|cosines|] == -YLimit
    ensures StrictlyDecreasing(YEdges(cosines))
    ensures forall j :: 0 <= j < |cosines| ==> YEdges(cosines)[j + 1] < cosines[j] < YEdges(cosines)[j]
  {
    var ys := YEdges(cosines);
    var n := |cosines|;
    assert forall j :: 0 < j < n ==> ys[j] == Mid(cosines[j - 1], cosines[j]);
    forall j | 0 <= j < n ensures ys[j + 1] < cosines[j] < ys[j] {
      if j > 0 {
        assert cosines[j] < cosines[j - 1];
      }
      if j + 1 < n {
        assert cosines[j + 1] < cosines[j];
      }
    }
  }

  // ---------------------------------------------------------------------
  // Cells

  /** One rectangle: row `row` of the y-edges, x from `xLow` to `xHigh`. */
  datatype Cell = Cell(row: nat, xLow: real, xHigh: real)

  /** One cell per consecutive pair of x-edges on row `row`; when the edge
      after the pair drops below the pair's upper edge, the slice is done:
      the `eHi`-to-`ELow` pair is skipped and the row advances. */
  function EmitCells(xs: seq<real>, row: nat): (r: seq<Cell>)
    ensures |r| == 0 || |r| < |xs|
    ensures |xs| >= 2 ==> |r| > 0 && r[0] == Cell(row, xs[0], xs[1])
    ensures forall k :: 0 <= k < |r| ==> r[k].row >= row
    decreases |xs|
  {
    if |xs| < 2 then []
    else
      var t := if |xs| > 2 && xs[2] < xs[1] then EmitCells(xs[2..], row + 1) else EmitCells(xs[1..], row);
      var r := [Cell(row, xs[0], xs[1])] + t;
      assert forall k :: 1 <= k < |r| ==> r[k] == t[k - 1];
      r
  }

  /** Every emitted cell spans two consecutive edges. */
  lemma {:induction false} EmitCellsSpanEdges(xs: seq<real>, row: nat)
    ensures forall k :: 0 <= k < |EmitCells(xs, row)| ==>
      exists j :: 0 <= j < |xs| - 1 && EmitCells(xs, row)[k].xLow == xs[j] && EmitCells(xs, row)[k].xHigh == xs[j + 1]
    decreases |xs|
  {
    var r := EmitCells(xs, row);
    if |xs| >= 2 {
      var jump := |xs| > 2 && xs[2] < xs[1];
      var d := if jump then 2 else 1;
      var rest := xs[d..];
      var t := EmitCells(rest, if jump then row + 1 else row);
      EmitCellsSpanEdges(rest, if jump then row + 1 else row);
      assert r == [Cell(row, xs[0], xs[1])] + t;
      forall k | 0 <= k < |r|
        ensures exists j :: 0 <= j < |xs| - 1 && r[k].xLow == xs[j] && r[k].xHigh == xs[j + 1]
      {
        if k == 0 {
          assert r[0].xLow == xs[0] && r[0].xHigh == xs[1];
        } else {
          assert r[k] == t[k - 1];
          var j' :| 0 <= j' < |rest| - 1 && t[k - 1].xLow == rest[j'] && t[k - 1].xHigh == rest[j' + 1];
          assert rest[j'] == xs[j' + d] && rest[j' + 1] == xs[j' + d + 1];
        }
      }
    }
  }

  /** diff2poly.C's cell loop as written: `i` runs to the array length `len`,
      and each step reads `edges[i + 1]` and `edges[i + 2]`. `edges` holds the
      array followed by two values of whatever memory lies past it. */
  function EmitCellsAsWritten(edges: seq<real>, len: nat, i: nat, row: nat): (r: seq<Cell>)
    requires len + 2 <= |edges|
    ensures |r| <= if i < len then len - i else 0
    ensures forall k :: 0 <= k < |r| ==> r[k].row >= row
    decreases len - i
  {
    if i >= len then []
    else
      var t := if edges[i + 2] < edges[i + 1] then EmitCellsAsWritten(edges, len, i + 2, row + 1)
               else EmitCellsAsWritten(edges, len, i + 1, row);
      var r := [Cell(row, edges[i], edges[i + 1])] + t;
      assert forall k :: 1 <= k < |r| ==> r[k] == t[k - 1];
      r
  }

  /** The cell the loop as written adds after the last real one, on row
      `lastRow`: from the array's last edge to the first value past it,
      unless that value is below the last edge. */
  function Spill(edges: seq<real>, len: nat, lastRow: nat): seq<Cell>
    requires 1 <= len && len + 2 <= |edges|
  {
    if edges[len] < edges[len - 1] then [] else [Cell(lastRow, edges[len - 1], edges[len])]
  }

  /** When the array ends on its largest edge (E_hi), the loop as written
      emits the cells of `EmitCells` and then, unless the first value past the
      array is below E_hi, one cell more: from E_hi to that value, on the last
      row. */
  lemma {:induction false} AsWrittenAddsCell(edges: seq<real>, len: nat, i: nat, row: nat)
    requires 2 <= len && len + 2 <= |edges| && i <= len - 2
    requires edges[len - 2] <= edges[len - 1]
    ensures var c := EmitCells(edges[i..len], row);
      |c| > 0 && EmitCellsAsWritten(edges, len, i, row) == c + Spill(edges, len, c[|c| - 1].row)
    decreases len - i
  {
    if i < len - 2 {
      var d := if edges[i + 2] < edges[i + 1] then 2 else 1;
      var row' := if d == 2 then row + 1 else row;
      AsWrittenAddsCell(edges, len, i + d, row');
      StepKeepsSpill(edges, len, i, row, d, row');
    } else {
      LastPair(edges, len, row);
    }
  }

  /** If the spill law holds from the edge a step jumps to, it holds from
      the step's own edge. */
  lemma StepKeepsSpill(edges: seq<real>, len: nat, i: nat, row: nat, d: nat, row': nat)
    requires 2 <= len && len + 2 <= |edges| && i < len - 2
    requires edges[len - 2] <= edges[len - 1]
    requires d == (if edges[i + 2] < edges[i + 1] then 2 else 1)
    requires row' == (if d == 2 then row + 1 else row)
    requires i + d <= len - 2
    requires var t := EmitCells(edges[i + d..len], row');
      |t| > 0 && EmitCellsAsWritten(edges, len, i + d, row') == t + Spill(edges, len, t[|t| - 1].row)
    ensures var c := EmitCells(edges[i..len], row);
      |c| > 0 && EmitCellsAsWritten(edges, len, i, row) == c + Spill(edges, len, c[|c| - 1].row)
  {
    StepBoth(edges, len, i, row, d, row');
    var head := Cell(row, edges[i], edges[i + 1]);
    var t := EmitCells(edges[i + d..len], row');
    var c := [head] + t;
    var sp := Spill(edges, len, t[|t| - 1].row);
    assert c[|c| - 1] == t[|t| - 1];
    CellsAssociate([head], t, sp);
  }

  /** The last real cell: both loops emit it, and the loop as written may
      spill one more. */
  lemma LastPair(edges: seq<real>, len: nat, row: nat)
    requires 2 <= len && len + 2 <= |edges|
    ensures var c := EmitCells(edges[len - 2..len], row);
      |c| > 0 && EmitCellsAsWritten(edges, len, len - 2, row) == c + Spill(edges, len, c[|c| - 1].row)
  {
    var xs := edges[len - 2..len];
    var c := [Cell(row, edges[len - 2], edges[len - 1])];
    assert xs == [edges[len - 2], edges[len - 1]];
    assert xs[1..] == [edges[len - 1]];
    assert EmitCells(xs, row) == c;
    if edges[len] >= edges[len - 1] {
      assert EmitCellsAsWritten(edges, len, len - 1, row) == [Cell(row, edges[len - 1], edges[len])];
    }
  }

  /** One step of both loops before the last pair: the same cell, then the
      same jump of `d` edges to row `row'`. */
  lemma StepBoth(edges: seq<real>, len: nat, i: nat, row: nat, d: nat, row': nat)
    requires 2 <= len && len + 2 <= |edges| && i < len - 2
    requires edges[len - 2] <= edges[len - 1]
    requires d == (if edges[i + 2] < edges[i + 1] then 2 else 1)
    requires row' == (if d == 2 then row + 1 else row)
    ensures i + d <= len - 2
    ensures EmitCells(edges[i..len], row) == [Cell(row, edges[i], edges[i + 1])] + EmitCells(edges[i + d..len], row')
    ensures EmitCellsAsWritten(edges, len, i, row) == [Cell(row, edges[i], edges[i + 1])] + EmitCellsAsWritten(edges, len, i + d, row')
  {
    var xs := edges[i..len];
    assert xs[d..] == edges[i + d..len];
  }

  lemma CellsAssociate(a: seq<Cell>, b: seq<Cell>, c: seq<Cell>)
    ensures a + (b + c) == (a + b) + c
  {
  }

  /** A one-slice layout with edges 0, 1, 2 (E_hi = 2) and the value 5 past
      the array: the loop as written adds a third cell from 2 to 5. */
  lemma AsWrittenExtraCellExample()
    ensures EmitCells([0.0, 1.0, 2.0], 0) == [Cell(0, 0.0, 1.0), Cell(0, 1.0, 2.0)]
    ensures EmitCellsAsWritten([0.0, 1.0, 2.0, 5.0, 0.0], 3, 0, 0)
      == [Cell(0, 0.0, 1.0), Cell(0, 1.0, 2.0), Cell(0, 2.0, 5.0)]
  {
    AsWrittenAddsCell([0.0, 1.0, 2.0, 5.0, 0.0], 3, 0, 0);
    assert [0.0, 1.0, 2.0, 5.0, 0.0][0..3] == [0.0, 1.0, 2.0];
  }

  /** The cells spanned by consecutive edges of `q`, all on row `row`. */
  function Pairs(q: seq<real>, row: nat): (r: seq<Cell>)
    ensures |r| == if |q| == 0 then 0 else |q| - 1
    ensures forall j :: 0 <= j < |r| ==> r[j] == Cell(row, q[j], q[j + 1])
  {
    if |q| < 2 then [] else [Cell(row, q[0], q[1])] + Pairs(q[1..], row)
  }

  /** Reference cells: slice k gives one cell per sample on row `row + k`. */
  function RefCells(slices: seq<seq<real>>, eHi: real, row: nat): seq<Cell>
  {
    if |slices| == 0 then []
    else Pairs(Segment(slices[0], eHi), row) + RefCells(slices[1..], eHi, row + 1)
  }

  /** Slice index of every sample of the flat list, counted from `row`. */
  function SliceRows(slices: seq<seq<real>>, row: nat): (r: seq<nat>)
    ensures |r| == |Flatten(slices)|
  {
    if |slices| == 0 then []
    else seq(|slices[0]|, _ => row) + SliceRows(slices[1..], row + 1)
  }

  /** Over a sorted run of edges, emission makes one cell per pair and moves
      to the next row exactly where the following edge drops. */
  lemma {:induction false} EmitSortedRun(q: seq<real>, tail: seq<real>, row: nat)
    requires |q| >= 2 && NonDecreasing(q)
    requires |tail| == 0 || tail[0] < q[|q| - 1]
    ensures EmitCells(q + tail, row) == Pairs(q, row) + (if |tail| == 0 then [] else EmitCells(tail, row + 1))
    decreases |q|
  {
    var xs := q + tail;
    if |q| == 2 {
      if |tail| == 0 {
        assert xs[1..] == [q[1]];
      } else {
        assert xs[2] == tail[0] && xs[2..] == tail;
      }
    } else {
      assert xs[2] == q[2] && q[1] <= q[2];
      assert xs[1..] == q[1..] + tail;
      assert NonDecreasing(q[1..]) by {
        forall j | 0 < j < |q[1..]| ensures q[1..][j - 1] <= q[1..][j] {
          assert q[1..][j] == q[j + 1];
        }
      }
      EmitSortedRun(q[1..], tail, row);
    }
  }

  /** A slice's edges are sorted from `ELow` to `eHi`. */
  lemma SegmentSorted(s: seq<real>, eHi: real)
    requires |s| >= 1 && NonDecreasing(s) && WithinRange(s, eHi)
    ensures |Segment(s, eHi)| == |s| + 1
    ensures NonDecreasing(Segment(s, eHi))
    ensures forall j :: 0 <= j < |s| ==> Segment(s, eHi)[j] <= s[j] <= Segment(s, eHi)[j + 1]
  {
    var q := Segment(s, eHi);
    var n := |s|;
    assert forall j :: 0 < j < n ==> q[j] == Mid(s[j - 1], s[j]);
    assert q[0] == ELow && q[n] == eHi;
    forall j | 0 <= j < n ensures q[j] <= s[j] <= q[j + 1] {
      if j > 0 {
        assert s[j - 1] <= s[j];
      }
      if j + 1 < n {
        assert s[j] <= s[j + 1];
      }
    }
  }

  /** Emission over the edges of ordered slices gives the reference cells:
      each slice's cells on its own row, the row advancing exactly once per
      slice boundary. */
  lemma {:induction false} EmitCellsOfSlices(slices: seq<seq<real>>, eHi: real, row: nat)
    requires OrderedSlices(slices, eHi) && eHi > ELow
    ensures EmitCells(SliceEdges(slices, eHi), row) == RefCells(slices, eHi, row)
    decreases |slices|
  {
    if |slices| > 0 {
      var s := slices[0];
      assert |s| >= 1 && NonDecreasing(s) && WithinRange(s, eHi);
      SegmentSorted(s, eHi);
      var tail := SliceEdges(slices[1..], eHi);
      assert |tail| == 0 || tail[0] == ELow;
      EmitSortedRun(Segment(s, eHi), tail, row);
      if |slices| > 1 {
        assert OrderedSlices(slices[1..], eHi) by {
          forall k | 0 <= k < |slices[1..]| ensures |slices[1..][k]| >= 1 && NonDecreasing(slices[1..][k]) && WithinRange(slices[1..][k], eHi) {
            assert slices[1..][k] == slices[k + 1];
          }
        }
        EmitCellsOfSlices(slices[1..], eHi, row + 1);
      } else {
        assert tail == [];
      }
    }
  }

  /** The reference cells are one per sample, and the q-th cell lies on the
      q-th sample's slice row and contains that sample's energy. */
  lemma {:induction false} RefCellsHoldSamples(slices: seq<seq<real>>, eHi: real, row: nat)
    requires OrderedSlices(slices, eHi)
    ensures |RefCells(slices, eHi, row)| == |Flatten(slices)| == |SliceRows(slices, row)|
    ensures forall q :: 0 <= q < |Flatten(slices)| ==>
      && RefCells(slices, eHi, row)[q].row == SliceRows(slices, row)[q]
      && RefCells(slices, eHi, row)[q].xLow <= Flatten(slices)[q] <= RefCells(slices, eHi, row)[q].xHigh
    ensures forall q :: 0 <= q < |Flatten(slices)| ==> row <= SliceRows(slices, row)[q] < row + |slices|
    decreases |slices|
  {
    if |slices| > 0 {
      var s := slices[0];
      assert |s| >= 1 && NonDecreasing(s) && WithinRange(s, eHi);
      SegmentSorted(s, eHi);
      var here := Pairs(Segment(s, eHi), row);
      assert OrderedSlices(slices[1..], eHi) by {
        forall k | 0 <= k < |slices[1..]| ensures |slices[1..][k]| >= 1 && NonDecreasing(slices[1..][k]) && WithinRange(slices[1..][k], eHi) {
          assert slices[1..][k] == slices[k + 1];
        }
      }
      RefCellsHoldSamples(slices[1..], eHi, row + 1);
      var cells := RefCells(slices, eHi, row);
      var flat := Flatten(slices);
      var rows := SliceRows(slices, row);
      assert cells == here + RefCells(slices[1..], eHi, row + 1);
      assert flat == s + Flatten(slices[1..]);
      assert rows == seq(|s|, _ => row) + SliceRows(slices[1..], row + 1);
      forall q | 0 <= q < |flat|
        ensures cells[q].row == rows[q]
        ensures cells[q].xLow <= flat[q] <= cells[q].xHigh
        ensures row <= rows[q] < row + |slices|
      {
        if q < |s| {
          assert cells[q] == here[q] == Cell(row, Segment(s, eHi)[q], Segment(s, eHi)[q + 1]);
          assert flat[q] == s[q];
        } else {
          var q' := q - |s|;
          assert cells[q] == RefCells(slices[1..], eHi, row + 1)[q'];
          assert flat[q] == Flatten(slices[1..])[q'];
          assert rows[q] == SliceRows(slices[1..], row + 1)[q'];
        }
      }
    }
  }

  // ---------------------------------------------------------------------
  // The whole variable-bin surface

  /** The variable-bin layout: x-edges, y-edges and the cells in the order
      they are added (cell k + 1 in ROOT's numbering is `cells[k]`). */
  datatype Poly = Poly(xEdges: seq<real>, yEdges: seq<real>, cells: seq<Cell>)

  /** The layout built from the flat kinetic energies and the slice cosines;
      None when the x-edge array is not filled consistently. */
  function BuildPoly(es: seq<real>, eHi: real, cosines: seq<real>): (r: Option<Poly>)
    requires |cosines| >= 1
    ensures r.Some? ==> |r.value.xEdges| == |es| + |cosines| && |r.value.yEdges| == |cosines| + 1
    ensures r.Some? ==> r.value.xEdges[0] == ELow && r.value.xEdges[|es| + |cosines| - 1] == eHi
    ensures r.Some? ==> r.value.yEdges[0] == YLimit && r.value.yEdges[|cosines|] == -YLimit
  {
    match XEdges(es, eHi, |cosines|)
    case None => None
    case Some(xs) => Some(Poly(xs, YEdges(cosines), EmitCells(xs, 0)))
  }

  /** For separable slices with one cosine per slice, the layout has exactly
      one cell per sample; the q-th cell lies on the row of the q-th sample's
      slice, that row's y-band holds the slice cosine, and the cell's x-range
      holds the sample's energy. */
  lemma BuildPolyOneCellPerSample(slices: seq<seq<real>>, eHi: real, cosines: seq<real>)
    requires Separable(slices, eHi) && eHi > ELow
    requires |cosines| == |slices|
    requires StrictlyDecreasing(cosines)
    requires forall j :: 0 <= j < |cosines| ==> -1.0 <= cosines[j] <= 1.0
    ensures BuildPoly(Flatten(slices), eHi, cosines).Some?
    ensures var p := BuildPoly(Flatten(slices), eHi, cosines).value;
      && |p.cells| == |Flatten(slices)|
      && forall q :: 0 <= q < |p.cells| ==>
        && p.cells[q].row == SliceRows(slices, 0)[q] < |cosines|
        && p.yEdges[p.cells[q].row + 1] < cosines[p.cells[q].row] < p.yEdges[p.cells[q].row]
        && p.cells[q].xLow <= Flatten(slices)[q] <= p.cells[q].xHigh
  {
    XEdgesOfSlices(slices, eHi);
    EmitCellsOfSlices(slices, eHi, 0);
    RefCellsHoldSamples(slices, eHi, 0);
    YEdgesBracketSlices(cosines);
  }
}
