# Cross-section surfaces of the event generator, in Dafny

This project models the three ROOT scripts that turn tabulated neutrino–
deuteron double-differential cross sections into the surfaces the event
generator samples from. It proves what their loops compute.

- **diff2poly.C** reads one table for one neutrino energy E_v. The model covers:
  - the kinetic electron energies and the running upper edge `E_hi`;
  - the single x-edge array, in which each cos(theta) slice is closed by `E_hi` and reopened at 0;
  - the y-edges between the slice cosines;
  - one variable-size cell per sample;
  - the resampling of that variable-bin surface onto the fine regular grid. Runs of fine bins inside one cell are refilled as a ramp from the cell before it.
- **interpolate.C** checks its four arguments and walks the gaps between stored surfaces. It writes `NumInterps` new surfaces per gap. The model covers:
  - how each new surface reads the lower surface shifted down and the upper surface shifted up;
  - how the two reads are mixed;
  - the names the surfaces are stored under: "v" and the energy printed with one decimal, with '.' made '_'.
- **fluxWeight.C** builds the normalised SNS flux: negative values are clamped to 0, then the whole is scaled to unit area. It then sums, for every kept (E_e, cos theta) bin, content × flux × energy step / EnuMax over the sweep E_v = 1.5, 1.6, … below EnuMax.

Modules follow the scripts:
- `Numerics`: results, C's conversions, the ramp, sums.
- `Surfaces`: ROOT's uniform axes, global bin numbers and the archive file as a map.
- `Names`: the archive naming.
- `PolyGrid` and `Resample`: diff2poly.C.
- `Interpolate`: interpolate.C.
- `FluxWeight`: fluxWeight.C.

Doubles are exact reals. C's `(int)` cast is `Trunc`, and `round` is `RoundHalfAway`.

Three behaviours of the code worth knowing:
- **Run refill.** In a run of fine bins inside one cell, the last bin gets the cell's own content, not the previous cell's. The ramp starts at cell `last - 1` in the poly numbering, which for the first cell of a slice is the last cell of the slice before. So a block of fine bins is not piecewise constant even when each cell covers exactly two fine bins (`Resample.FirstRowExample`).
- **First sweep step.** The flux sum charges its first visit the whole energy 1.5 (`E_v - E_v_last` with `E_v_last = 0`), not a zero step.
- **Normalisation.** The sum divides by EnuMax, not by the integral of the flux.

## Model

| member | source | states |
|---|---|---|
| Numerics.Trunc | interpolate.C:127 | the `int` conversion truncates toward zero: for x ≥ 0 the result is the largest integer not above x, for x < 0 the smallest not below it |
| Numerics.RoundHalfAway | interpolate.C:55 | `round` gives an integer within one half of x, halves going away from zero |
| Numerics.Ramp | diff2poly.C:285 | step 0 of the ramp is its start, the last step its end, and every step in between lies between the two |
| Numerics.RampStep | interpolate.C:137 | consecutive ramp values differ by the same amount (hi - lo) / steps: the mix is linear in the step |
| Numerics.RampIsAffine | diff2poly.C:285 | diff2poly.C's `lo + m*(hi-lo)/steps` is the affine mix `lo + t*(hi-lo)` with t = m/steps in [0, 1] |
| Surfaces.FindBinInRange | fluxWeight.C:47 | ROOT's floor formula for a coordinate inside the axis gives the bin whose edges hold it |
| Surfaces.GlobalBinSharedAcrossSurfaces | fluxWeight.C:63-79 | a global bin number computed on the reference surface reads bin (i, n) of any surface with as many x-bins |
| Surfaces.Get | interpolate.C:69 | reading a name gives a surface exactly when the archive holds that name, and then the stored one |
| Surfaces.CenterFindsOwnBin | fluxWeight.C:95 | filling at a bin's centre fills that very bin, for every in-range bin |
| Surfaces.ContentNonNegative | interpolate.C:135-136 | a surface with no negative stored bin reads no negative value, by coordinates or by global bin |
| Names.FindChar | interpolate.C:67 | `find` gives the first position of the character, or none exactly when it is absent |
| Names.FindCharFirst | interpolate.C:67 | a position holding the character with none before it is what `find` returns |
| Names.HistName | interpolate.C:64-68 | a name exists exactly when the printed text has a '.', and it is "v" followed by the text with its first '.' replaced by '_' |
| Names.UnnameOfHistName | interpolate.C:99-103 | every printed text with a '.' and no '_' is recovered from its archive name |
| Names.HistNameInjective | interpolate.C:99-103 | two different printed energies never share an archive name |
| Names.HistNameExample | interpolate.C:64-68 | the text "12.5" is stored as "v12_5" |
| Names.UnnameExample | interpolate.C:64-68 | the name "v12_5" reads back as the text "12.5" |
| PolyGrid.Kinetic | diff2poly.C:128-129 | the kinetic energy is total minus the rest mass, clamped at 0 |
| PolyGrid.TrackEHi | diff2poly.C:131-135 | `E_hi` ends at or above every sample, and is the start value or some sample plus the margin |
| PolyGrid.Ingest | diff2poly.C:103-135 | one kinetic energy per sample, each in [0, E_hi]; E_hi is 0 or a sample plus the margin |
| PolyGrid.Mid | diff2poly.C:182 | the edge between two samples lies between them, strictly when they differ |
| PolyGrid.EdgeScan | diff2poly.C:167-185 | the scan writes between one and two edges per remaining sample |
| PolyGrid.XEdges | diff2poly.C:160-185 | a consistent edge array has one entry per sample plus one per slice, starts at 0 and ends at E_hi; no samples give none |
| PolyGrid.Mids | diff2poly.C:182 | one midpoint between each pair of consecutive samples of a slice |
| PolyGrid.SliceEdgesLength | diff2poly.C:160 | the reference edges of ordered slices fill exactly one entry per sample plus one per slice |
| PolyGrid.ScanWithinSlice | diff2poly.C:179-184 | inside one sorted slice the scan writes exactly that slice's midpoints |
| PolyGrid.BoundaryStep | diff2poly.C:172-178 | a sample below the last edge writes E_hi then 0 and no midpoint |
| PolyGrid.ScanOverSlices | diff2poly.C:167-185 | over separable slices the scan writes each slice's midpoints with an E_hi, 0 pair between slices |
| PolyGrid.XEdgesOfSlices | diff2poly.C:160-185 | for separable slices, the edge array built from the flat samples is each slice's 0, midpoints, E_hi in turn |
| PolyGrid.OneSampleSliceHidesBoundary | diff2poly.C:172 | a one-sample slice that is not last hides the boundary after it, so the flat scan fails where the reference succeeds |
| PolyGrid.YEdges | diff2poly.C:194-200 | one more y-edge than slices, from 1.01 down to -1.01, each inner edge between the two cosines it separates |
| PolyGrid.YEdgesBracketSlices | diff2poly.C:187-200 | for decreasing cosines in [-1, 1], the y-edges run from 1.01 down to -1.01, strictly decreasing, and each slice's cosine lies strictly inside its own row |
| PolyGrid.Pairs | diff2poly.C:206 | one cell per consecutive pair of edges, spanning that pair |
| PolyGrid.EmitCells | diff2poly.C:203-212 | fewer cells than edges, the first spanning the first two edges on the starting row, no cell on an earlier row |
| PolyGrid.EmitCellsSpanEdges | diff2poly.C:206 | every emitted cell spans two consecutive x-edges |
| PolyGrid.EmitCellsAsWritten | diff2poly.C:203-212 | the loop as written emits at most one cell per index it visits, on no earlier row |
| PolyGrid.AsWrittenAddsCell | diff2poly.C:160-212 | on an array ending at its largest edge, the loop as written emits the corrected cells and then one cell from E_hi to the value past the array unless that value is below E_hi |
| PolyGrid.AsWrittenExtraCellExample | diff2poly.C:203-212 | edges 0, 1, 2 with 5 past the array give three cells as written and two corrected |
| PolyGrid.EmitSortedRun | diff2poly.C:203-212 | over a sorted run, emission makes one cell per pair and moves to the next row exactly where the next edge drops |
| PolyGrid.SegmentSorted | diff2poly.C:164-185 | a slice's edges are sorted and each sample lies between its two neighbouring edges |
| PolyGrid.EmitCellsOfSlices | diff2poly.C:203-212 | emitting over the reference edges gives each slice's cells on its own row |
| PolyGrid.RefCellsHoldSamples | diff2poly.C:203-212 | one cell per sample; the q-th cell is on the q-th sample's slice row and its x-range holds that sample |
| PolyGrid.SliceRows | diff2poly.C:209 | one row number per sample of the flat list |
| PolyGrid.BuildPoly | diff2poly.C:148-212 | a built layout has one x-edge per sample plus one per slice, from 0 to E_hi, and one more y-edge than slices, from 1.01 to -1.01 |
| PolyGrid.BuildPolyOneCellPerSample | diff2poly.C:148-212 | for separable slices the layout exists and has one cell per sample, whose rectangle holds that sample's energy and slice cosine |
| Resample.Peak | diff2poly.C:254 | at least 0 and at least every cell content |
| Resample.Trough | diff2poly.C:254 | at most 0 and at most every cell content |
| Resample.CellContentBounded | diff2poly.C:254 | every cell read, including cell 0 and past the last, lies between the least and the largest content |
| Resample.BlocksDisjoint | diff2poly.C:267-291 | two maximal runs of one live cell that share a fine bin are the same run |
| Resample.BlockIsLive | diff2poly.C:267-275 | every bin of a maximal run lies in the same live cell |
| Resample.FillRun | diff2poly.C:277-287 | the run's bins get the ramp from the cell before up to the cell's content; every other bin is unchanged |
| Resample.ZeroStep | diff2poly.C:256-264 | a bin outside every live cell, set to 0, keeps the finished prefix of the row correct |
| Resample.DirectStep | diff2poly.C:295-299 | a bin in a new live cell starts a run, and filling it with the cell's content keeps the prefix correct |
| Resample.RunCompletesBlock | diff2poly.C:267-275 | when each live cell is one stretch of the row, the counted run plus the bin before it is a whole maximal run |
| Resample.RunStep | diff2poly.C:277-291 | refilling a whole maximal run with its ramp extends the correct prefix past it |
| Resample.ZeroBin | diff2poly.C:256-264 | a bin outside or in an empty cell gets 0 and the scan invariant moves one bin on |
| Resample.DirectBin | diff2poly.C:295-299 | a bin in a live cell other than the remembered one gets its content, and that cell becomes the remembered one |
| Resample.RunBins | diff2poly.C:267-291 | the run is every bin from i on in the remembered cell, and the scan resumes at the first bin after it; bins i-1 to the run's end get the ramp from the cell before up to the cell's content, every other bin is unchanged, and the scan invariant holds |
| Resample.RunKeepsInv | diff2poly.C:267-291 | a refilled run keeps every value between the least and largest content and, for contiguous rows, the prefix correct |
| Resample.ResampleRow | diff2poly.C:246-300 | the scanned row is bounded by the cell contents, and for contiguous rows is 0 outside live cells and the ramp on every maximal run |
| Resample.BlockStart | diff2poly.C:267-275 | the first bin of the live stretch that reaches a bin |
| Resample.BlockEnd | diff2poly.C:267-275 | the last bin of the live stretch that starts at or before a bin |
| Resample.BlockAround | diff2poly.C:267-291 | every live fine bin lies in a maximal run |
| Resample.ResampledRowIsLawRow | diff2poly.C:246-300 | for contiguous rows the scanned row is unique, and is the row of the block ramp law |
| Resample.PairThenSingleContiguous | diff2poly.C:250-253 | a two-bin cell, a one-bin cell and an outside bin make a contiguous row |
| Resample.FirstRowExample | diff2poly.C:277-286 | cells 10 and 20 crossed by two bins and one bin resample to 5, 10, 20, 0: the run ramps up from cell 0 |
| Resample.SecondRowExample | diff2poly.C:282 | the first cell of the next slice ramps from the last cell of the slice before (25, 30, 40, 0) |
| Resample.ResampleGrid | diff2poly.C:246-253 | every fine row y is resampled on its own, starting from no remembered cell, from its lookups `RowLookup(find, nx, y)` (one `find` per fine bin of the row, diff2poly.C:252-253) |
| Interpolate.ParseArgs | interpolate.C:36-52 | a wrong argument count and EnuMin > EnuMax are the only two failures; otherwise the values are kept, with NumInterps truncated |
| Interpolate.GapsReachMax | interpolate.C:55-58 | `GapCount` (interpolate.C:55, EnuMax - EnuMin over the spacing, rounded) is never negative and makes the last gap end within half a spacing of EnuMax |
| Interpolate.EnergiesSplitGap | interpolate.C:93-96 | the energies `Energy` gives a gap's surfaces (interpolate.C:96) split it into NumInterps + 1 equal steps from the lower to the upper stored energy |
| Interpolate.EnergiesInsideGap | interpolate.C:93-96 | with a positive spacing the new energies lie strictly inside their gap, increasing |
| Interpolate.ShiftedBin | interpolate.C:127-131 | truncating a bin number plus a shift in bins picks the bin that holds the shifted low edge |
| Interpolate.SourceBinsTrackEnergy | interpolate.C:126-132 | `LowerSourceBin` (interpolate.C:127) reads the lower surface at the bin holding the low edge moved down by the offset, and `UpperSourceBin` (interpolate.C:131) the upper one at it moved up by the rest of the gap |
| Interpolate.InterpSurface | interpolate.C:105-142 | the new surface has the lower surface's binning and every bin holds the mix of its two reads |
| Interpolate.ReadOwnBin | interpolate.C:124-135 | reading a surface at its own global bin (x, y) gives bin (x, y) |
| Interpolate.InterpBinAtLowerEnd | interpolate.C:127-137 | at step 0 the mixed bin `InterpBin` (interpolate.C:137) is the lower surface's own bin |
| Interpolate.InterpBinAtUpperEnd | interpolate.C:127-137 | at the last step the mixed bin `InterpBin` (interpolate.C:137) is the upper surface's own bin, when the binnings agree |
| Interpolate.InterpAtLowerEnd | interpolate.C:106-142 | step 0 of the family reproduces the lower surface |
| Interpolate.InterpAtUpperEnd | interpolate.C:106-142 | step NumInterps + 1 reproduces the upper surface when both share a binning |
| Interpolate.InterpStaysNonNegative | interpolate.C:137-138 | non-negative stored surfaces give non-negative mixes, so the warning needs a negative stored bin |
| Interpolate.NameOf | interpolate.C:99-103 | a name exists exactly when the printed energy has a '.', and is then the archive name of that text; otherwise the failure names the text |
| Interpolate.WriteInterps | interpolate.C:93-155 | writing a gap keeps the archive valid and never loses a name, also when it stops on a failure |
| Interpolate.WriteInterpsFails | interpolate.C:93-142 | writing fails exactly when there is a surface to write and a stored end or a name is missing |
| Interpolate.WriteInterpsKeepsOthers | interpolate.C:93-155 | a name the gap does not write keeps its surface, and no other name appears, whether or not the gap fails |
| Interpolate.WriteInterpsStores | interpolate.C:93-155 | once surfaces up to j are named and both ends exist, surface j is in the file under its name even if a later surface fails, unless a later surface has the same name |
| Interpolate.WriteInterpsErrors | interpolate.C:93-142 | every failure of a gap is a name without '.' or a missing stored surface |
| Interpolate.RunGap | interpolate.C:56-155 | one gap keeps the archive valid and its names even when it fails, fails only by naming or a missing surface, and changes nothing with no surfaces to write |
| Interpolate.RunGapStores | interpolate.C:58-142 | surface j of a gap is the mix of the two stored surfaces named for its ends, stored under entry j of `GapNames` (interpolate.C:93-103), the name of its energy |
| Interpolate.RunGaps | interpolate.C:55-58 | running gaps in turn keeps the archive valid and its names, and a failing gap stops the run with what was written so far; failures are only naming or a missing surface |
| Interpolate.Namer | interpolate.C:99-103 | names from printed text fail only for a text without '.' |
| Interpolate.Run | interpolate.C:36-58 | the argument failures are exactly the script's two and leave the archive as it was; a run keeps the archive valid and its names |
| Interpolate.RunGapsWithoutInterps | interpolate.C:93 | with NumInterps ≤ 0 the archive is unchanged, whether or not a name fails |
| Interpolate.RunGapsKeepsOthers | interpolate.C:56-155 | a name no new surface is written under keeps its surface through the whole run, also when the run stops on a failure |
| FluxWeight.ClampFlux | fluxWeight.C:147-153 | every flux value is kept when non-negative and replaced by 0 when negative |
| FluxWeight.Normalize | fluxWeight.C:155-161 | the result is absent exactly when the area is 0; otherwise it sums to 1 and times the area gives back each value; area 1 leaves it alone |
| FluxWeight.ScaledToUnitArea | fluxWeight.C:156-160 | scaling by 1 / area gives unit area and each value over the area |
| FluxWeight.SumZeroIffAllZero | fluxWeight.C:156 | a sum of non-negative values is 0 exactly when every value is 0 |
| FluxWeight.SnsFlux | fluxWeight.C:147-161 | the flux is absent exactly when no raw value is positive; otherwise the clamped area is positive, the flux has unit area, and every bin is its clamped raw value times 1 / area, so no bin is negative and bins whose raw value was not positive are 0 |
| FluxWeight.ClampedAreaZero | fluxWeight.C:147-156 | the clamped flux has zero area exactly when no raw value is positive |
| FluxWeight.NormalizeScales | fluxWeight.C:155-161 | normalising multiplies every value by the same factor, 1 / area |
| FluxWeight.NormalizedNonNegative | fluxWeight.C:151-161 | normalising non-negative values keeps them non-negative and keeps zeros |
| FluxWeight.EnuMax | fluxWeight.C:36-38 | the largest neutrino energy is the flux axis's upper end |
| FluxWeight.OutputXAxis | fluxWeight.C:41-51 | the kept x-bins are the reference's bins up to the one holding EnuMax - 1.44, with the reference's edges |
| FluxWeight.PrefixAxis | fluxWeight.C:48-51 | a prefix of a valid axis is valid with the same bin width |
| FluxWeight.SweepWidthIsGap | fluxWeight.C:83-91 | the step `SweepWidth` charges visit k (fluxWeight.C:84-91) is the distance from the previous visit's energy `SweepEnergy` (1.5 + k·0.1), or from 0 for the first |
| FluxWeight.SweepLength | fluxWeight.C:61-92 | every visit counted is below EnuMax and the next one is not |
| FluxWeight.SweepEnergyAtLeastStart | fluxWeight.C:61-91 | the sweep visits no energy below 1.5 |
| FluxWeight.SweepFamily | fluxWeight.C:70-76 | the family exists exactly when every visit's name exists and is in the archive, and is those surfaces in order |
| FluxWeight.SweepFlux | fluxWeight.C:80-81 | each visit reads the content of the flux bin whose edges hold its energy, and 0 when its energy is outside the flux histogram |
| FluxWeight.BinOfEnergy | fluxWeight.C:80 | a bin whose edges hold an energy is the bin ROOT's `FindBin` returns for it |
| FluxWeight.WeightBin | fluxWeight.C:60-92 | fluxWeight.C's loop ends with `WeightedSum`: the sum over visits of `Shares`, each visit's `Term` (fluxWeight.C:87), content at the bin × the flux it reads × its step / EnuMax |
| FluxWeight.Weighted | fluxWeight.C:56-98 | the weighted surface has the kept x-axis and the reference's y-axis, one row per y-bin of kept x-bins, is valid when an x-bin is kept, and bin (i, n) holds the weighted sum at the reference's global bin (i, n); `Grid` and `SumsAt` (fluxWeight.C:56-58) lay it out |
| FluxWeight.FluxWeighted | fluxWeight.C:36-98 | a missing reference fails; otherwise the result exists exactly when every sweep surface does, and is the weighted surface over them |
| FluxWeight.SweepName | fluxWeight.C:71-75 | a sweep name exists exactly when the printed energy has a '.', and then reads back as that text when it has no '_' |
| FluxWeight.SweepFluxLinear | fluxWeight.C:80-81 | scaling the flux scales what every visit reads |
| FluxWeight.WeightedSumLinear | fluxWeight.C:87 | scaling what the visits read scales the weighted sum of every bin |
| FluxWeight.SweepFluxAdds | fluxWeight.C:80-81 | adding two fluxes adds what every visit reads |
| FluxWeight.WeightedSumAdds | fluxWeight.C:87 | the weighted sum is additive in what the visits read |
| FluxWeight.SumsAdd | fluxWeight.C:56-92 | `SumsAt`, the weighted sum as a function of the global bin, is additive in the flux read |
| FluxWeight.GridAdds | fluxWeight.C:56-58 | `Grid`, the kept bins laid out at the reference's global bins, of a sum of bin functions is the sum of their grids |
| FluxWeight.WeightedAdditive | fluxWeight.C:56-98 | adding two fluxes adds the weighted surfaces bin by bin, on the same axes |
| FluxWeight.WeightedSumNonNegative | fluxWeight.C:87 | non-negative surfaces and flux give a non-negative weighted bin |
| FluxWeight.IntegralAdds | fluxWeight.C:101 | adding two surfaces on the same axes adds their `Integral`s (fluxWeight.C:101, the `RowSums` total times both bin widths) |
| FluxWeight.IntegralAdditiveInFlux | fluxWeight.C:101 | adding two fluxes adds the total weighted cross sections |
| FluxWeight.TermReadsSameBin | fluxWeight.C:63-87 | each visit's `Term` (fluxWeight.C:87) reads a sweep surface with the reference's x-binning at its own bin (i, n) |

## Left out

- Reading the cross-section tables is not modelled: `sscanf`, `pow`, the Jacobian `2πE/p`, and the scattering angle's `cos`. The sample energies and the slice cosines are inputs.
- ROOT file I/O is not modelled: opening, `Get`, `Write`, `Close`, titles. The archive file is a map from name to surface. interpolate.C stops on a null surface pointer or on a name without '.' by crashing; the model stops with a failure and keeps every surface written before it (`Interpolate.Outcome`).
- `%.1f` printing is an input function (`fmt`). Names are built from its text.
- Floating point rounding, NaN and infinity are not modelled. Doubles and floats are exact reals.
- Sweep energies are not accumulated in floating point. The sweep's `E_v += 0.1` and its step `E_v - E_v_last` are exact `1.5 + k·0.1` and 0.1. The names the sweep looks up are therefore the intended ones.
- The variable-bin lookup (`TH2Poly::FindBin` at fine bin centres) is an input: one cell or none per fine bin.
- A run that reaches the end of a fine row is modelled as stopping there. diff2poly.C keeps calling `FindBin` past `xmax` (170, line 230). When the last cell of a slice reaches past `xmax` (`E_hi` is the largest sample plus 0.001), its `SetBinContent` calls at lines 279 and 286 use x-bin numbers above `nbinsx`, which ROOT puts into the x-overflow bin.
- The run count `NmultiBins` of such a run also counts the bins past `nbinsx`, so the ramp at line 285 divides by a larger `NmultiBins+1` than the model's. The in-range bins of that run therefore get different ramp values in diff2poly.C, not only the overflow bin, and the cell's own content lands past the row instead of in its last in-range bin.
- Resample.ResampleRow: its ramp law is stated under the condition that every live cell covers one unbroken stretch of the row (`Contiguous`). That condition always holds for rectangular cells crossed left to right. Without it, only the bounds are stated.
- PolyGrid.XEdges: when the drop test does not find exactly as many slices as there are cosines, the array is reported as None. diff2poly.C instead leaves entries unwritten or writes past the array.
- PolyGrid.EmitCells: stops after the cell that ends at the last edge. diff2poly.C's loop reads `edgesX[NBins+NBinsY]`, past the array, on every input, and can add one more cell from `E_hi` to that value (see Findings). What lies past the array is not modelled, so `PolyGrid.EmitCellsAsWritten` takes it as an input.
- Interpolate.Run: a zero EnuSpacing is excluded once the argument checks pass. The gap count divides by it.
- The y-axis bounds of interpolate.C are converted through `int` (line 110-111). Only the x-axis is rebuilt; the new surface takes the lower surface's y-axis.
- The `%i` conversion of NumInterps is not modelled: hex and octal forms are not read. The argument is a number truncated to an integer.
- The "negative bin value" warning is console output, so it is not modelled. `InterpStaysNonNegative` states when it cannot fire.
- Underflow and overflow bins of every surface hold 0 in the model. diff2poly.C can write a non-zero value into the x-overflow bin, as in the line above. interpolate.C (lines 127-135) and fluxWeight.C (line 79) read through a clamped `GetBin` and so can read that value; the model reads 0 there.
- ROOT's replacement of a non-positive bin count is not modelled. Axes with 0 bins are not valid here.
- The SNS flux formula, its cutoff search and its bin count are not modelled. The raw per-bin flux and its axis are inputs to `SnsFlux`.
- The flux histogram and the sweep surfaces are read from the archive by the caller. `FluxWeighted` takes the flux as an argument.
- The total flux-weighted cross section is only printed. `Integral` models ROOT's width-weighted integral, and its additivity is proved.
- When no x-bin is kept, `FluxWeighted` gives an empty surface and reads no sweep surface. ROOT would build the histogram with its default binning instead.
- FluxWeight.WeightedSumLinear: scaling the flux is proved to scale every weighted bin. Scaling the whole surface and its integral by c is not stated; additivity in the flux is stated for the whole surface and the integral instead.

## Findings

| source | as written | input that shows it | evidently intended | confidence | as-written member | corrected member |
|---|---|---|---|---|---|---|
| diff2poly.C:203-212 | the cell loop runs `i` up to `NBins+NBinsY-1` and reads `edgesX[i+1]` and `edgesX[i+2]` with no bound; after the last real cell it reads `edgesX[NBins+NBinsY]`, past the array, and unless that value is below `E_hi` it adds a cell from `E_hi` to it on the last row | any table; for a single slice with edges 0, 1, 2 and the value 5 past the array the loop adds a third cell from 2 to 5 (`PolyGrid.AsWrittenExtraCellExample`; in general `PolyGrid.AsWrittenAddsCell`) | stop after the cell that ends at `E_hi`, one cell per sample (`PolyGrid.RefCellsHoldSamples`) | not executed; depends on memory past the array | PolyGrid.EmitCellsAsWritten | PolyGrid.EmitCells |
