/** interpolate.C: between stored surfaces at neutrino energies EnuMin,
    EnuMin + EnuSpacing, ..., it writes NumInterps new surfaces per gap. The
    surface at offset `off` into a gap reads each E_e bin from the lower
    surface shifted down by `off` and from the upper surface shifted up by
    `EnuSpacing - off`, and mixes the two linearly. Surfaces live in an
    archive keyed by name (the ROOT file becomes a map; writing a name again
    replaces what a later read sees). */
module Interpolate {

  import opened Numerics
  import opened Surfaces
  import opened Names

  datatype Failure =
    | InvalidArguments
    | InvalidEnergies
    | NoDecimalPoint(printed: string)
    | MissingSurface(name: string)

  /** EnuMin, EnuMax, EnuSpacing and NumInterps. */
  datatype Config = Config(enuMin: real, enuMax: real, spacing: real, numInterps: int)

  /** The four command-line values, already read as numbers; NumInterps is
      read as an integer, which drops any fraction. */
  function ParseArgs(args: seq<real>): (r: Result<Config, Failure>)
    ensures r == Err(InvalidArguments) <==> |args| != 4
    ensures r == Err(InvalidEnergies) <==> |args| == 4 && args[0] > args[1]
    ensures r.Ok? <==> |args| == 4 && args[0] <= args[1]
    ensures r.Ok? ==> r.value.enuMin <= r.value.enuMax
    ensures r.Ok? ==> r.value == Config(args[0], args[1], args[2], Trunc(args[3]))
  {
    if |args| != 4 then Err(InvalidArguments)
    else if args[0] > args[1] then Err(InvalidEnergies)
    else Ok(Config(args[0], args[1], args[2], Trunc(args[3])))
  }

  /** Number of gaps: (EnuMax - EnuMin) / EnuSpacing rounded to nearest. */
  function GapCount(cfg: Config): int
    requires cfg.spacing != 0.0
  {
    RoundHalfAway((cfg.enuMax - cfg.enuMin) / cfg.spacing)
  }

  /** Energy of the stored surface that opens gap `c`. */
  function GapStart(cfg: Config, c: int): real
  {
    cfg.enuMin + c as real * cfg.spacing
  }

  /** The gaps end within half a spacing of EnuMax. */
  lemma GapsReachMax(cfg: Config)
    requires cfg.spacing > 0.0 && cfg.enuMin <= cfg.enuMax
    ensures GapCount(cfg) >= 0
    ensures cfg.enuMax - cfg.spacing / 2.0 < GapStart(cfg, GapCount(cfg)) <= cfg.enuMax + cfg.spacing / 2.0
  {
    var q := (cfg.enuMax - cfg.enuMin) / cfg.spacing;
    var n := GapCount(cfg);
    assert q * cfg.spacing == cfg.enuMax - cfg.enuMin;
    MulMonotone(q - 0.5, n as real, cfg.spacing);
    MulMonotone(n as real, q + 0.5, cfg.spacing);
  }

  /** Energy of the `i`-th surface of gap `c`: `i` of `NumInterps + 1`
      equal steps into the gap. */
  function Energy(cfg: Config, c: int, i: int): real
    requires cfg.numInterps >= 0
  {
    GapStart(cfg, c) + i as real * (cfg.spacing / (cfg.numInterps + 1) as real)
  }

  /** The surfaces of a gap divide it into NumInterps + 1 equal steps:
      step 0 is the gap's lower surface and step NumInterps + 1 its upper. */
  lemma EnergiesSplitGap(cfg: Config, c: int, i: int)
    requires cfg.numInterps >= 0
    ensures Energy(cfg, c, 0) == GapStart(cfg, c)
    ensures Energy(cfg, c, cfg.numInterps + 1) == GapStart(cfg, c + 1)
    ensures Energy(cfg, c, i + 1) - Energy(cfg, c, i) == cfg.spacing / (cfg.numInterps + 1) as real
  {
    var d := (cfg.numInterps + 1) as real;
    assert d * (cfg.spacing / d) == cfg.spacing;
    assert (c + 1) as real * cfg.spacing == c as real * cfg.spacing + cfg.spacing;
    assert (i + 1) as real * (cfg.spacing / d) == i as real * (cfg.spacing / d) + cfg.spacing / d;
  }

  /** With a positive spacing the interpolated energies lie strictly inside
      their gap, in increasing order. */
  lemma EnergiesInsideGap(cfg: Config, c: int, i: int)
    requires cfg.numInterps >= 0 && cfg.spacing > 0.0
    requires 1 <= i <= cfg.numInterps
    ensures GapStart(cfg, c) < Energy(cfg, c, i) < GapStart(cfg, c + 1)
    ensures Energy(cfg, c, i) < Energy(cfg, c, i + 1)
  {
    var d := (cfg.numInterps + 1) as real;
    var step := cfg.spacing / d;
    assert step > 0.0;
    MulMonotone(0.0, i as real, step);
    MulMonotone(i as real, d, step);
    assert d * step == cfg.spacing;
    EnergiesSplitGap(cfg, c, i);
  }

  /** How far surface `i` sits above the gap's lower surface. */
  function Offset(cfg: Config, i: int): real
    requires cfg.numInterps >= 0
  {
    i as real * cfg.spacing / (cfg.numInterps + 1) as real
  }

  /** The E_e bin of the lower surface read for output bin `xbin`. */
  function LowerSourceBin(xbin: int, off: real, binsize: real): int
    requires binsize != 0.0
  {
    Trunc(xbin as real - off / binsize)
  }

  /** The E_e bin of the upper surface read for output bin `xbin`. */
  function UpperSourceBin(xbin: int, spacing: real, off: real, binsize: real): int
    requires binsize != 0.0
  {
    Trunc(xbin as real + spacing / binsize - off / binsize)
  }

  /** Truncating `xbin + u`, where `u` bins make up `shift`, picks the bin
      holding the low edge of bin `xbin` moved by `shift`, as long as that
      stays at or above the axis's lower end. */
  lemma ShiftedBin(a: Axis, xbin: int, shift: real, u: real)
    requires a.Valid()
    requires u * a.Width() == shift
    requires xbin as real + u >= 1.0
    ensures var k := Trunc(xbin as real + u);
      a.LowEdge(k) <= a.LowEdge(xbin) + shift < a.LowEdge(k + 1)
  {
    var w := a.Width();
    var t := xbin as real + u;
    var k := Trunc(t);
    assert k as real <= t < k as real + 1.0;
    assert (t - 1.0) * w == (xbin - 1) as real * w + shift;
    MulMonotone((k - 1) as real, t - 1.0, w);
    MulMonotone(t - 1.0, k as real, w);
    assert a.LowEdge(k) == a.lo + (k - 1) as real * w;
    assert a.LowEdge(k + 1) == a.lo + k as real * w;
    assert a.LowEdge(xbin) + shift == a.lo + (t - 1.0) * w;
  }

  /** The lower surface is read at the output bin's low edge moved down by
      the offset, the upper surface at that edge moved up by what remains of
      the gap: both reads sit at the same distance below E_v. */
  lemma SourceBinsTrackEnergy(a: Axis, xbin: int, spacing: real, off: real)
    requires a.Valid()
    requires xbin as real - off / a.Width() >= 1.0
    requires xbin as real + spacing / a.Width() - off / a.Width() >= 1.0
    ensures var k := LowerSourceBin(xbin, off, a.Width());
      a.LowEdge(k) <= a.LowEdge(xbin) - off < a.LowEdge(k + 1)
    ensures var k := UpperSourceBin(xbin, spacing, off, a.Width());
      a.LowEdge(k) <= a.LowEdge(xbin) + (spacing - off) < a.LowEdge(k + 1)
  {
    var w := a.Width();
    var d := off / w;
    var e := spacing / w;
    assert d * w == off;
    assert e * w == spacing;
    assert (-d) * w == -off;
    assert xbin as real - d == xbin as real + (-d);
    ShiftedBin(a, xbin, -off, -d);
    assert (e - d) * w == spacing - off;
    assert xbin as real + e - d == xbin as real + (e - d);
    ShiftedBin(a, xbin, spacing - off, e - d);
  }

  /** Content of output bin (xbin, ybin) of surface `i` of a gap. Both reads
      go through the global bin number, with coordinates past either end
      falling into the (empty) underflow or overflow bins. */
  function InterpBin(h1: Surface, h2: Surface, cfg: Config, i: int, xbin: int, ybin: int): real
    requires h1.Valid() && cfg.numInterps >= 0
  {
    var binsize := h1.x.Width();
    var off := Offset(cfg, i);
    var v1 := h1.ContentAt(h1.GetBin(LowerSourceBin(xbin, off, binsize), ybin));
    var v2 := h2.ContentAt(h2.GetBin(UpperSourceBin(xbin, cfg.spacing, off, binsize), ybin));
    Ramp(v1, v2, i, cfg.numInterps + 1)
  }

  /** Surface `i` of a gap: the lower surface's binning, every bin filled
      with `InterpBin`. */
  function InterpSurface(h1: Surface, h2: Surface, cfg: Config, i: int): (out: Surface)
    requires h1.Valid() && cfg.numInterps >= 0
    ensures out.Valid()
    ensures out.x == h1.x && out.y == h1.y
    ensures forall yb, xb :: 1 <= yb <= h1.y.n && 1 <= xb <= h1.x.n ==>
      out.Content(xb, yb) == InterpBin(h1, h2, cfg, i, xb, yb)
  {
    Surface(h1.x, h1.y,
      seq(h1.y.n, r requires 0 <= r < h1.y.n =>
        seq(h1.x.n, q requires 0 <= q < h1.x.n => InterpBin(h1, h2, cfg, i, q + 1, r + 1))))
  }

  /** Reading a surface's own bin through its global bin number. */
  lemma ReadOwnBin(h: Surface, xb: int, yb: int)
    requires h.Valid() && 1 <= xb <= h.x.n && 1 <= yb <= h.y.n
    ensures h.ContentAt(h.GetBin(xb, yb)) == h.bins[yb - 1][xb - 1]
  {
    GlobalBinSharedAcrossSurfaces(h, h, xb, yb);
  }

  lemma InterpBinAtLowerEnd(h1: Surface, h2: Surface, cfg: Config, xb: int, yb: int)
    requires h1.Valid() && cfg.numInterps >= 0
    requires 1 <= xb <= h1.x.n && 1 <= yb <= h1.y.n
    ensures InterpBin(h1, h2, cfg, 0, xb, yb) == h1.bins[yb - 1][xb - 1]
  {
    assert Offset(cfg, 0) == 0.0;
    assert LowerSourceBin(xb, 0.0, h1.x.Width()) == xb;
    ReadOwnBin(h1, xb, yb);
  }

  lemma InterpBinAtUpperEnd(h1: Surface, h2: Surface, cfg: Config, xb: int, yb: int)
    requires h1.Valid() && h2.Valid() && cfg.numInterps >= 0
    requires h2.x == h1.x && h2.y == h1.y
    requires 1 <= xb <= h1.x.n && 1 <= yb <= h1.y.n
    ensures InterpBin(h1, h2, cfg, cfg.numInterps + 1, xb, yb) == h2.bins[yb - 1][xb - 1]
  {
    var k := cfg.numInterps + 1;
    assert Offset(cfg, k) == cfg.spacing;
    var w := h1.x.Width();
    assert cfg.spacing / w - cfg.spacing / w == 0.0;
    assert UpperSourceBin(xb, cfg.spacing, cfg.spacing, w) == xb;
    ReadOwnBin(h2, xb, yb);
  }

  /** Step 0 of the family reproduces the lower surface. */
  lemma InterpAtLowerEnd(h1: Surface, h2: Surface, cfg: Config)
    requires h1.Valid() && cfg.numInterps >= 0
    ensures InterpSurface(h1, h2, cfg, 0) == h1
  {
    var out := InterpSurface(h1, h2, cfg, 0);
    forall r | 0 <= r < h1.y.n ensures out.bins[r] == h1.bins[r] {
      forall q | 0 <= q < h1.x.n ensures out.bins[r][q] == h1.bins[r][q] {
        InterpBinAtLowerEnd(h1, h2, cfg, q + 1, r + 1);
        assert out.Content(q + 1, r + 1) == out.bins[r][q];
      }
    }
  }

  /** Step NumInterps + 1 reproduces the upper surface when the two surfaces
      share their binning. */
  lemma InterpAtUpperEnd(h1: Surface, h2: Surface, cfg: Config)
    requires h1.Valid() && h2.Valid() && cfg.numInterps >= 0
    requires h2.x == h1.x && h2.y == h1.y
    ensures InterpSurface(h1, h2, cfg, cfg.numInterps + 1) == h2
  {
    var out := InterpSurface(h1, h2, cfg, cfg.numInterps + 1);
    forall r | 0 <= r < h1.y.n ensures out.bins[r] == h2.bins[r] {
      forall q | 0 <= q < h1.x.n ensures out.bins[r][q] == h2.bins[r][q] {
        InterpBinAtUpperEnd(h1, h2, cfg, q + 1, r + 1);
        assert out.Content(q + 1, r + 1) == out.bins[r][q];
      }
    }
  }

  /** Every interpolated bin lies between the two bins it was mixed from, so
      the "negative bin value" warning can only fire when a stored surface
      already holds a negative bin; the value is stored unchanged either way. */
  lemma InterpStaysNonNegative(h1: Surface, h2: Surface, cfg: Config, i: int)
    requires h1.Valid() && cfg.numInterps >= 0 && 0 <= i <= cfg.numInterps + 1
    requires NonNegative(h1) && NonNegative(h2)
    ensures NonNegative(InterpSurface(h1, h2, cfg, i))
  {
    var out := InterpSurface(h1, h2, cfg, i);
    forall r, q | 0 <= r < |out.bins| && 0 <= q < |out.bins[r]| ensures out.bins[r][q] >= 0.0 {
      var binsize := h1.x.Width();
      var off := Offset(cfg, i);
      var g1 := h1.GetBin(LowerSourceBin(q + 1, off, binsize), r + 1);
      var g2 := h2.GetBin(UpperSourceBin(q + 1, cfg.spacing, off, binsize), r + 1);
      ContentNonNegative(h1, g1 % (h1.x.n + 2), g1 / (h1.x.n + 2));
      ContentNonNegative(h2, g2 % (h2.x.n + 2), g2 / (h2.x.n + 2));
    }
  }

  function NameOf(printed: string): (r: Result<string, Failure>)
    ensures r.Ok? <==> '.' in printed
    ensures r.Ok? ==> r.value == HistName(printed).value
    ensures r.Err? ==> r.error == NoDecimalPoint(printed)
  {
    match HistName(printed)
    case None => Err(NoDecimalPoint(printed))
    case Some(n) => Ok(n)
  }

  /** The two stored surfaces of a gap as read at its start. */
  datatype Ends = Ends(name1: string, h1: Option<Surface>, name2: string, h2: Option<Surface>)

  /** Archive names of surfaces 1..NumInterps of gap `c`, in order, or the
      failure of naming one whose printed energy has no '.'. */
  function GapNames(cfg: Config, c: int, nameOf: real -> Result<string, Failure>): (names: seq<Result<string, Failure>>)
    requires cfg.numInterps >= 0
    ensures |names| == cfg.numInterps
  {
    seq(cfg.numInterps, t requires 0 <= t < cfg.numInterps => nameOf(Energy(cfg, c, t + 1)))
  }

  /** What a run leaves in the archive file, and the failure that stopped it,
      if any. interpolate.C writes every surface to the file and closes it
      before building the next, so a failure keeps everything written before
      it. */
  datatype Outcome = Outcome(archive: Archive, failure: Option<Failure>)

  /** Surfaces i..NumInterps of a gap, each named and written in turn:
      `names[j - 1]` is the name of surface `j`. A surface is named before
      the stored ends are used, and the lower end is used before the upper. */
  function WriteInterps(archive: Archive, ends: Ends, cfg: Config, names: seq<Result<string, Failure>>, i: int)
    : (r: Outcome)
    requires cfg.numInterps >= 0 && |names| == cfg.numInterps && 1 <= i <= cfg.numInterps + 1
    requires ValidArchive(archive)
    requires ends.h1.Some? ==> ends.h1.value.Valid()
    ensures ValidArchive(r.archive)
    ensures archive.Keys <= r.archive.Keys
    decreases cfg.numInterps + 1 - i
  {
    if i > cfg.numInterps then Outcome(archive, None)
    else if names[i - 1].Err? then Outcome(archive, Some(names[i - 1].error))
    else if ends.h1.None? then Outcome(archive, Some(MissingSurface(ends.name1)))
    else if ends.h2.None? then Outcome(archive, Some(MissingSurface(ends.name2)))
    else
      var out := InterpSurface(ends.h1.value, ends.h2.value, cfg, i);
      WriteInterps(archive[names[i - 1].value := out], ends, cfg, names, i + 1)
  }

  /** Writing a gap's surfaces fails exactly when there is one to write and
      either a name is missing or a stored surface is. */
  lemma {:induction false} WriteInterpsFails(archive: Archive, ends: Ends, cfg: Config, names: seq<Result<string, Failure>>, i: int)
    requires cfg.numInterps >= 0 && |names| == cfg.numInterps && 1 <= i <= cfg.numInterps + 1
    requires ValidArchive(archive)
    requires ends.h1.Some? ==> ends.h1.value.Valid()
    ensures WriteInterps(archive, ends, cfg, names, i).failure.None? <==>
      i > cfg.numInterps ||
      (ends.h1.Some? && ends.h2.Some? && forall t :: i - 1 <= t < cfg.numInterps ==> names[t].Ok?)
    decreases cfg.numInterps + 1 - i
  {
    if i <= cfg.numInterps && names[i - 1].Ok? && ends.h1.Some? && ends.h2.Some? {
      var next := archive[names[i - 1].value := InterpSurface(ends.h1.value, ends.h2.value, cfg, i)];
      assert WriteInterps(archive, ends, cfg, names, i) == WriteInterps(next, ends, cfg, names, i + 1);
      WriteInterpsFails(next, ends, cfg, names, i + 1);
    }
  }

  /** A name no surface of the gap is written under keeps its surface, and
      no name appears that was not written, whether or not the gap fails. */
  lemma {:induction false} WriteInterpsKeepsOthers(archive: Archive, ends: Ends, cfg: Config, names: seq<Result<string, Failure>>, i: int, key: string)
    requires cfg.numInterps >= 0 && |names| == cfg.numInterps && 1 <= i <= cfg.numInterps + 1
    requires ValidArchive(archive)
    requires ends.h1.Some? ==> ends.h1.value.Valid()
    requires forall t :: i - 1 <= t < cfg.numInterps ==> names[t] != Ok(key)
    ensures key in archive ==> WriteInterps(archive, ends, cfg, names, i).archive[key] == archive[key]
    ensures key !in archive ==> key !in WriteInterps(archive, ends, cfg, names, i).archive
    decreases cfg.numInterps + 1 - i
  {
    if i <= cfg.numInterps && names[i - 1].Ok? && ends.h1.Some? && ends.h2.Some? {
      var next := archive[names[i - 1].value := InterpSurface(ends.h1.value, ends.h2.value, cfg, i)];
      WriteInterpsKeepsOthers(next, ends, cfg, names, i + 1, key);
    }
  }

  /** Once surfaces i..j have been named and both stored ends exist,
      surface `j` is in the file under its name `key`, even if a later
      surface of the gap fails, unless a later surface of the gap is written
      under the same name. */
  lemma {:induction false} WriteInterpsStores(archive: Archive, ends: Ends, cfg: Config, names: seq<Result<string, Failure>>, i: int, j: int, key: string)
    requires cfg.numInterps >= 0 && |names| == cfg.numInterps && 1 <= i <= j <= cfg.numInterps
    requires ValidArchive(archive)
    requires ends.h1.Some? && ends.h1.value.Valid() && ends.h2.Some?
    requires forall t :: i - 1 <= t < j ==> names[t].Ok?
    requires names[j - 1] == Ok(key)
    requires forall t :: j <= t < cfg.numInterps ==> names[t] != Ok(key)
    ensures key in WriteInterps(archive, ends, cfg, names, i).archive
    ensures WriteInterps(archive, ends, cfg, names, i).archive[key] == InterpSurface(ends.h1.value, ends.h2.value, cfg, j)
    decreases cfg.numInterps + 1 - i
  {
    var out := InterpSurface(ends.h1.value, ends.h2.value, cfg, i);
    var next := archive[names[i - 1].value := out];
    assert WriteInterps(archive, ends, cfg, names, i) == WriteInterps(next, ends, cfg, names, i + 1);
    if i < j {
      WriteInterpsStores(next, ends, cfg, names, i + 1, j, key);
    } else {
      assert key in next && next[key] == out;
      WriteInterpsKeepsOthers(next, ends, cfg, names, i + 1, key);
    }
  }

  /** Gap `c`: name its two stored surfaces and read them (a missing one is
      only a failure once it is used), then write its NumInterps surfaces. */
  function RunGap(archive: Archive, cfg: Config, nameOf: real -> Result<string, Failure>, c: int): (r: Outcome)
    requires ValidArchive(archive)
    ensures ValidArchive(r.archive) && archive.Keys <= r.archive.Keys
    ensures r.failure.Some? && NamingFailsQuietly(nameOf) ==> r.failure.value.NoDecimalPoint? || r.failure.value.MissingSurface?
    ensures cfg.numInterps <= 0 ==> r.archive == archive
  {
    var n := GapStart(cfg, c);
    var lower := nameOf(n);
    var upper := nameOf(n + cfg.spacing);
    if lower.Err? then Outcome(archive, Some(lower.error))
    else if upper.Err? then Outcome(archive, Some(upper.error))
    else if cfg.numInterps <= 0 then Outcome(archive, None)
    else
      var ends := Ends(lower.value, Get(archive, lower.value), upper.value, Get(archive, upper.value));
      var names := GapNames(cfg, c, nameOf);
      assert NamingFailsQuietly(nameOf) ==> forall t :: 0 <= t < |names| && names[t].Err? ==> names[t].error.NoDecimalPoint?;
      WriteInterpsErrors(archive, ends, cfg, names, 1, NamingFailsQuietly(nameOf));
      WriteInterps(archive, ends, cfg, names, 1)
  }

  /** Every failure of writing a gap is a naming failure or a missing
      stored surface. */
  lemma {:induction false} WriteInterpsErrors(archive: Archive, ends: Ends, cfg: Config, names: seq<Result<string, Failure>>, i: int, quiet: bool)
    requires cfg.numInterps >= 0 && |names| == cfg.numInterps && 1 <= i <= cfg.numInterps + 1
    requires ValidArchive(archive)
    requires ends.h1.Some? ==> ends.h1.value.Valid()
    requires quiet ==> forall t :: 0 <= t < |names| && names[t].Err? ==> names[t].error.NoDecimalPoint?
    ensures var r := WriteInterps(archive, ends, cfg, names, i);
      r.failure.Some? && quiet ==> r.failure.value.NoDecimalPoint? || r.failure.value.MissingSurface?
    decreases cfg.numInterps + 1 - i
  {
    if i <= cfg.numInterps && names[i - 1].Ok? && ends.h1.Some? && ends.h2.Some? {
      var next := archive[names[i - 1].value := InterpSurface(ends.h1.value, ends.h2.value, cfg, i)];
      WriteInterpsErrors(next, ends, cfg, names, i + 1, quiet);
    }
  }

  /** Surface `j` of a gap that completes is the mix of the archive's
      surfaces named for the gap's two ends, and it is stored under its own
      name unless a later surface of the gap shares that name. */
  lemma RunGapStores(archive: Archive, cfg: Config, nameOf: real -> Result<string, Failure>, c: int, j: int, key: string)
    requires ValidArchive(archive)
    requires RunGap(archive, cfg, nameOf, c).failure.None?
    requires 1 <= j <= cfg.numInterps
    requires nameOf(Energy(cfg, c, j)) == Ok(key)
    requires forall t :: j <= t < cfg.numInterps ==> GapNames(cfg, c, nameOf)[t] != Ok(key)
    ensures nameOf(GapStart(cfg, c)).Ok? && nameOf(GapStart(cfg, c) + cfg.spacing).Ok?
    ensures var name1 := nameOf(GapStart(cfg, c)).value;
      var name2 := nameOf(GapStart(cfg, c) + cfg.spacing).value;
      && name1 in archive && name2 in archive
      && key in RunGap(archive, cfg, nameOf, c).archive
      && RunGap(archive, cfg, nameOf, c).archive[key] == InterpSurface(archive[name1], archive[name2], cfg, j)
  {
    var n := GapStart(cfg, c);
    var name1 := nameOf(n).value;
    var name2 := nameOf(n + cfg.spacing).value;
    var ends := Ends(name1, Get(archive, name1), name2, Get(archive, name2));
    var names := GapNames(cfg, c, nameOf);
    assert RunGap(archive, cfg, nameOf, c) == WriteInterps(archive, ends, cfg, names, 1);
    WriteInterpsFails(archive, ends, cfg, names, 1);
    WriteInterpsStores(archive, ends, cfg, names, 1, j, key);
  }

  /** Gaps c..count-1 in turn, each reading the archive its predecessors
      left behind; the first failing gap stops the run with what has been
      written so far. */
  function RunGaps(archive: Archive, cfg: Config, nameOf: real -> Result<string, Failure>, c: int, count: int): (r: Outcome)
    requires ValidArchive(archive)
    ensures ValidArchive(r.archive) && archive.Keys <= r.archive.Keys
    ensures r.failure.Some? && NamingFailsQuietly(nameOf) ==> r.failure.value.NoDecimalPoint? || r.failure.value.MissingSurface?
    decreases count - c
  {
    if c >= count then Outcome(archive, None)
    else
      var gap := RunGap(archive, cfg, nameOf, c);
      if gap.failure.Some? then gap
      else RunGaps(gap.archive, cfg, nameOf, c + 1, count)
  }

  /** Every naming failure is a printed energy without a '.'. */
  ghost predicate NamingFailsQuietly(nameOf: real -> Result<string, Failure>)
  {
    forall e :: nameOf(e).Err? ==> nameOf(e).error.NoDecimalPoint?
  }

  /** Names from printed energies: "v" + the text with its '.' made '_'. */
  function Namer(fmt: real -> string): (nameOf: real -> Result<string, Failure>)
    ensures NamingFailsQuietly(nameOf)
    ensures forall e :: nameOf(e) == NameOf(fmt(e))
  {
    var nameOf := e => NameOf(fmt(e));
    assert forall e :: nameOf(e) == NameOf(fmt(e));
    nameOf
  }

  /** The whole program: check the arguments, then run every gap, naming
      each surface from its printed energy. A zero EnuSpacing leaves the gap
      count of interpolate.C undefined, so it is excluded once the arguments
      pass their checks. */
  function Run(args: seq<real>, archive: Archive, fmt: real -> string): (r: Outcome)
    requires ValidArchive(archive)
    requires |args| == 4 && args[0] <= args[1] ==> args[2] != 0.0
    ensures r.failure == Some(InvalidArguments) <==> |args| != 4
    ensures r.failure == Some(InvalidEnergies) <==> |args| == 4 && args[0] > args[1]
    ensures ParseArgs(args).Err? ==> r.archive == archive
    ensures ValidArchive(r.archive) && archive.Keys <= r.archive.Keys
  {
    match ParseArgs(args)
    case Err(e) => Outcome(archive, Some(e))
    case Ok(cfg) => RunGaps(archive, cfg, Namer(fmt), 0, GapCount(cfg))
  }

  /** With no surfaces to write per gap the archive is left as it was. */
  lemma {:induction false} RunGapsWithoutInterps(archive: Archive, cfg: Config, nameOf: real -> Result<string, Failure>, c: int, count: int)
    requires ValidArchive(archive) && cfg.numInterps <= 0
    ensures RunGaps(archive, cfg, nameOf, c, count).archive == archive
    decreases count - c
  {
    if c < count {
      var gap := RunGap(archive, cfg, nameOf, c);
      if gap.failure.None? {
        RunGapsWithoutInterps(gap.archive, cfg, nameOf, c + 1, count);
      }
    }
  }

  /** A name that no interpolated surface of any gap is written under keeps
      its surface through the whole run, whether or not the run fails. */
  lemma {:induction false} RunGapsKeepsOthers(archive: Archive, cfg: Config, nameOf: real -> Result<string, Failure>, c: int, count: int, key: string)
    requires ValidArchive(archive) && key in archive
    requires cfg.numInterps >= 0
    requires forall g, t :: c <= g < count && 0 <= t < cfg.numInterps ==> GapNames(cfg, g, nameOf)[t] != Ok(key)
    ensures RunGaps(archive, cfg, nameOf, c, count).archive[key] == archive[key]
    decreases count - c
  {
    if c < count {
      var gap := RunGap(archive, cfg, nameOf, c);
      var n := GapStart(cfg, c);
      if nameOf(n).Err? || nameOf(n + cfg.spacing).Err? || cfg.numInterps == 0 {
        assert gap.archive == archive;
      } else {
        var name1 := nameOf(n).value;
        var name2 := nameOf(n + cfg.spacing).value;
        var ends := Ends(name1, Get(archive, name1), name2, Get(archive, name2));
        assert gap == WriteInterps(archive, ends, cfg, GapNames(cfg, c, nameOf), 1);
        WriteInterpsKeepsOthers(archive, ends, cfg, GapNames(cfg, c, nameOf), 1, key);
      }
      assert gap.archive[key] == archive[key];
      if gap.failure.None? {
        RunGapsKeepsOthers(gap.archive, cfg, nameOf, c + 1, count, key);
      }
    }
  }
}
