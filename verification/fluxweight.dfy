/** The flux-weighted surface. The normalised SNS flux (clamped at 0, scaled
    to unit area) weights every neutrino-energy surface of the archive; for
    each kept bin (E_e, cos) the weighted contents are summed over a sweep of
    neutrino energies 1.5, 1.6, ... below the flux's upper end, each term
    carrying the energy step before it and a division by that upper end. */
module FluxWeight {

  import opened Numerics
  import opened Surfaces
  import opened Names

  /** Deuteron binding energy in MeV: the largest electron energy is the
      largest neutrino energy less this. */
  const DeuteronBinding := 1.44

  /** First energy of the sweep and the step between energies, in MeV. */
  const SweepStart := 1.5
  const SweepStep := 0.1

  datatype Failure =
    | NoDecimalPoint(energy: real)
    | MissingSurface(name: string)

  // ---------------------------------------------------------------------
  // The SNS flux: clamp negative values to 0, then scale to unit area.

  /** Per-bin flux with negative values replaced by 0. */
  function ClampFlux(raw: seq<real>): (c: seq<real>)
    ensures |c| == |raw|
    ensures forall k :: 0 <= k < |raw| ==> c[k] >= 0.0
    ensures forall k :: 0 <= k < |raw| && raw[k] >= 0.0 ==> c[k] == raw[k]
    ensures forall k :: 0 <= k < |raw| && raw[k] < 0.0 ==> c[k] == 0.0
  {
    seq(|raw|, k requires 0 <= k < |raw| => if raw[k] < 0.0 then 0.0 else raw[k])
  }

  /** Scaling to unit area. An area of exactly 1 leaves the contents alone;
      any other area divides every content by it. An area of 0 would fill
      the histogram with NaN, which is None here. */
  function Normalize(c: seq<real>): (r: Option<seq<real>>)
    ensures r.None? <==> Sum(c) == 0.0
    ensures r.Some? ==> |r.value| == |c| && Sum(r.value) == 1.0
    ensures r.Some? ==> forall k :: 0 <= k < |c| ==> r.value[k] * Sum(c) == c[k]
    ensures Sum(c) == 1.0 ==> r == Some(c)
  {
    var area := Sum(c);
    if area == 1.0 then Some(c)
    else if area == 0.0 then None
    else
      ScaledToUnitArea(c, area);
      Some(Scale(c, 1.0 / area))
  }

  /** Dividing every entry by the sum gives entries that sum to 1 and that
      give back the originals when multiplied by the sum. */
  lemma ScaledToUnitArea(c: seq<real>, area: real)
    requires area == Sum(c) && area != 0.0
    ensures Sum(Scale(c, 1.0 / area)) == 1.0
    ensures forall k :: 0 <= k < |c| ==> Scale(c, 1.0 / area)[k] * area == c[k]
  {
    var r := Scale(c, 1.0 / area);
    SumScale(c, 1.0 / area);
    InverseTimes(area, area);
    forall k | 0 <= k < |c|
      ensures r[k] * area == c[k]
    {
      InverseTimes(c[k], area);
    }
  }

  lemma InverseTimes(x: real, a: real)
    requires a != 0.0
    ensures 1.0 / a * x * a == x
  {
  }

  /** A sum of non-negative values is 0 exactly when every value is 0. */
  lemma {:induction false} SumZeroIffAllZero(s: seq<real>)
    requires forall k :: 0 <= k < |s| ==> s[k] >= 0.0
    ensures Sum(s) == 0.0 <==> forall k :: 0 <= k < |s| ==> s[k] == 0.0
  {
    if |s| > 0 {
      SumZeroIffAllZero(s[1..]);
      SumNonNegative(s[1..]);
      assert forall k :: 1 <= k < |s| ==> s[k] == s[1..][k - 1];
    }
  }

  /** The SNS flux histogram over `axis`, from the raw per-bin flux: each bin
      holds its clamped value (the fill at a bin's centre lands in that bin),
      then the whole is scaled to unit area. None when no raw value is
      positive, where the scaling would divide by 0. */
  function SnsFlux(axis: Axis, raw: seq<real>): (r: Option<Hist1>)
    requires axis.Valid() && |raw| == axis.n
    ensures r.None? <==> forall k :: 0 <= k < |raw| ==> raw[k] <= 0.0
    ensures r.Some? ==> r.value.Valid() && r.value.axis == axis
    ensures r.Some? ==> Sum(r.value.contents) == 1.0
    ensures r.Some? ==> forall k :: 0 <= k < |raw| ==> r.value.contents[k] >= 0.0
    ensures r.Some? ==> forall k :: 0 <= k < |raw| && raw[k] <= 0.0 ==> r.value.contents[k] == 0.0
    ensures r.Some? ==> Sum(ClampFlux(raw)) > 0.0
    ensures r.Some? ==> ScaledSeq(ClampFlux(raw), r.value.contents, 1.0 / Sum(ClampFlux(raw)))
  {
    var c := ClampFlux(raw);
    ClampedAreaZero(raw);
    SumNonNegative(c);
    match Normalize(c)
    case None => None
    case Some(n) =>
      NormalizedNonNegative(c, n);
      NormalizeScales(c);
      Some(Hist1(axis, n))
  }

  /** Normalising multiplies every entry by the same factor, one over the
      area. */
  lemma NormalizeScales(c: seq<real>)
    requires Normalize(c).Some?
    ensures ScaledSeq(c, Normalize(c).value, 1.0 / Sum(c))
  {
    var area := Sum(c);
    if area == 1.0 {
      assert 1.0 / area == 1.0;
      assert forall k :: 0 <= k < |c| ==> c[k] == 1.0 * c[k];
    }
  }

  /** The clamped flux has zero area exactly when no raw value is positive. */
  lemma ClampedAreaZero(raw: seq<real>)
    ensures Sum(ClampFlux(raw)) == 0.0 <==> forall k :: 0 <= k < |raw| ==> raw[k] <= 0.0
  {
    var c := ClampFlux(raw);
    SumZeroIffAllZero(c);
    SumNonNegative(c);
    assert forall k :: 0 <= k < |raw| ==> (c[k] == 0.0 <==> raw[k] <= 0.0);
  }

  lemma NormalizedNonNegative(c: seq<real>, n: seq<real>)
    requires forall k :: 0 <= k < |c| ==> c[k] >= 0.0
    requires Normalize(c) == Some(n)
    ensures forall k :: 0 <= k < |c| ==> n[k] >= 0.0
    ensures forall k :: 0 <= k < |c| && c[k] == 0.0 ==> n[k] == 0.0
  {
    SumNonNegative(c);
    var area := Sum(c);
    forall k | 0 <= k < |c|
      ensures n[k] >= 0.0
      ensures c[k] == 0.0 ==> n[k] == 0.0
    {
      assert n[k] * area == c[k];
      FactorSign(n[k], area);
    }
  }

  lemma FactorSign(x: real, a: real)
    requires a > 0.0 && x * a >= 0.0
    ensures x >= 0.0
    ensures x * a == 0.0 ==> x == 0.0
  {
  }

  // ---------------------------------------------------------------------
  // Ranges: the largest neutrino energy and the kept electron-energy bins.

  /** The flux's largest neutrino energy: upper edge of its last bin. */
  function EnuMax(flux: Hist1): (e: real)
    requires flux.axis.Valid()
    ensures e == flux.axis.hi
  {
    var a := flux.axis;
    assert a.Width() * a.n as real == a.hi - a.lo;
    a.LowEdge(a.n) + a.Width()
  }

  /** The output x-axis: the reference surface's bins 1..k, where k is the bin
      holding the largest electron energy EnuMax - 1.44. */
  function OutputXAxis(ref: Axis, enuMax: real): (out: Axis)
    requires ref.Valid()
    ensures out.n == ref.FindBin(enuMax - DeuteronBinding) && out.lo == ref.lo
    ensures out.n > 0 ==> out.Valid() && out.Width() == ref.Width()
    ensures out.n > 0 ==> forall k :: out.LowEdge(k) == ref.LowEdge(k)
    ensures 1 <= out.n <= ref.n ==> out.lo <= enuMax - DeuteronBinding < out.hi
  {
    var k := ref.FindBin(enuMax - DeuteronBinding);
    var out := Axis(k, ref.lo, ref.LowEdge(k) + ref.Width());
    PrefixAxis(ref, k);
    out
  }

  /** Bins 1..k of a valid axis, as an axis of their own, keep its width. */
  lemma PrefixAxis(ref: Axis, k: nat)
    requires ref.Valid()
    ensures var out := Axis(k, ref.lo, ref.LowEdge(k) + ref.Width());
            k > 0 ==> out.Valid() && out.Width() == ref.Width()
  {
    if k > 0 {
      var w := ref.Width();
      var out := Axis(k, ref.lo, ref.LowEdge(k) + w);
      assert out.hi - out.lo == k as real * w;
      assert out.Width() == w;
    }
  }

  // ---------------------------------------------------------------------
  // The neutrino-energy sweep.

  /** Energy of the k-th visit of the sweep. */
  function SweepEnergy(start: real, step: real, k: int): real
  {
    start + k as real * step
  }

  /** Energy step charged to the k-th visit: the first visit is charged its
      whole energy, every later one the step. */
  function SweepWidth(start: real, step: real, k: nat): real
  {
    if k == 0 then start else step
  }

  /** The charged step is the distance from the previous visit, or from 0
      for the first: fluxWeight.C's E_v - E_v_last. */
  lemma SweepWidthIsGap(start: real, step: real, k: nat)
    ensures SweepWidth(start, step, k)
      == SweepEnergy(start, step, k) - (if k == 0 then 0.0 else SweepEnergy(start, step, k - 1))
  {
    if k > 0 {
      SweepNext(start, step, k - 1);
    }
  }

  /** Number of sweep visits below `top`: every earlier visit is below it and
      the next one is not. */
  function SweepLength(start: real, step: real, top: real): (n: nat)
    requires step > 0.0
    ensures forall k :: 0 <= k < n ==> SweepEnergy(start, step, k) < top
    ensures SweepEnergy(start, step, n) >= top
  {
    if start >= top then 0
    else
      var x := (top - start) / step;
      var n := -((-x).Floor);
      SweepLengthBounds(start, step, top, x, n);
      n
  }

  lemma SweepLengthBounds(start: real, step: real, top: real, x: real, n: int)
    requires step > 0.0 && start < top
    requires x == (top - start) / step && n == -((-x).Floor)
    ensures n >= 1
    ensures forall k :: 0 <= k < n ==> SweepEnergy(start, step, k) < top
    ensures SweepEnergy(start, step, n) >= top
  {
    assert x * step == top - start;
    var f := (-x).Floor;
    assert f as real <= -x < f as real + 1.0;
    assert (n - 1) as real < x <= n as real;
    MulMonotone(x, n as real, step);
    assert SweepEnergy(start, step, n) == start + n as real * step;
    MulMonotone((n - 1) as real, x, step);
    forall k | 0 <= k < n
      ensures SweepEnergy(start, step, k) < top
    {
      MulMonotone(k as real, (n - 1) as real, step);
      assert k as real * step < x * step;
    }
  }

  lemma SweepNext(start: real, step: real, k: int)
    ensures SweepEnergy(start, step, k + 1) == SweepEnergy(start, step, k) + step
  {
    assert (k + 1) as real * step == k as real * step + step;
  }

  /** The sweep visits only energies at least `start`. */
  lemma SweepEnergyAtLeastStart(start: real, step: real, k: nat)
    requires step > 0.0
    ensures SweepEnergy(start, step, k) >= start
  {
    MulMonotone(0.0, k as real, step);
  }

  // ---------------------------------------------------------------------
  // The weighted content of one output bin.

  /** The surfaces the sweep visits, from visit k to visit n - 1, looked up by
      the name of their energy. */
  function SweepFamily(archive: Archive, nameOf: real -> Option<string>,
                       start: real, step: real, k: nat, n: nat): (r: Result<seq<Surface>, Failure>)
    requires k <= n
    ensures r.Ok? <==> forall t :: k <= t < n ==>
      nameOf(SweepEnergy(start, step, t)).Some? && nameOf(SweepEnergy(start, step, t)).value in archive
    ensures r.Ok? ==> |r.value| == n - k
    ensures r.Ok? ==> forall t :: k <= t < n ==>
      r.value[t - k] == archive[nameOf(SweepEnergy(start, step, t)).value]
    decreases n - k
  {
    if k == n then Ok([])
    else
      match nameOf(SweepEnergy(start, step, k))
      case None => Err(NoDecimalPoint(SweepEnergy(start, step, k)))
      case Some(name) =>
        if name !in archive then Err(MissingSurface(name))
        else
          var rest :- SweepFamily(archive, nameOf, start, step, k + 1, n);
          Ok([archive[name]] + rest)
  }

  /** The flux each visit reads: the content of the flux bin holding that
      visit's energy, and 0 for an energy outside the flux histogram. */
  function SweepFlux(flux: Hist1, start: real, step: real, n: nat): (fv: seq<real>)
    requires flux.axis.Valid()
    ensures |fv| == n
    ensures forall k, b {:trigger fv[k], flux.Content(b)} ::
      (0 <= k < n && 1 <= b <= flux.axis.n
       && flux.axis.LowEdge(b) <= SweepEnergy(start, step, k) < flux.axis.LowEdge(b + 1)) ==> fv[k] == flux.Content(b)
    ensures forall k :: 0 <= k < n && !(flux.axis.lo <= SweepEnergy(start, step, k) < flux.axis.hi) ==> fv[k] == 0.0
  {
    var fv := seq(n, k requires 0 <= k < n => flux.Content(flux.axis.FindBin(SweepEnergy(start, step, k))));
    assert forall k, b {:trigger fv[k], flux.Content(b)} ::
      (0 <= k < n && 1 <= b <= flux.axis.n
       && flux.axis.LowEdge(b) <= SweepEnergy(start, step, k) < flux.axis.LowEdge(b + 1)) ==> fv[k] == flux.Content(b) by {
      forall k, b | 0 <= k < n && 1 <= b <= flux.axis.n
        && flux.axis.LowEdge(b) <= SweepEnergy(start, step, k) < flux.axis.LowEdge(b + 1)
        ensures fv[k] == flux.Content(b)
      {
        var e := SweepEnergy(start, step, k);
        BinOfEnergy(flux.axis, e, b);
      }
    }
    fv
  }

  /** Visit k reads the flux at the bin FindBin gives for its energy. */
  lemma SweepFluxAt(flux: Hist1, start: real, step: real, n: nat, k: nat)
    requires flux.axis.Valid() && k < n
    ensures SweepFlux(flux, start, step, n)[k] == flux.Content(flux.axis.FindBin(SweepEnergy(start, step, k)))
  {
  }

  /** A bin whose edges hold x is the one FindBin returns. */
  lemma BinOfEnergy(a: Axis, x: real, b: int)
    requires a.Valid() && 1 <= b <= a.n && a.LowEdge(b) <= x < a.LowEdge(b + 1)
    ensures a.FindBin(x) == b
  {
    LowEdgeOrder(a, 1, b);
    LowEdgeOrder(a, b + 1, a.n + 1);
    assert a.LowEdge(1) == a.lo;
    assert a.LowEdge(a.n + 1) == a.hi;
    var f := a.FindBin(x);
    if f < b {
      LowEdgeOrder(a, f + 1, b);
    } else if f > b {
      LowEdgeOrder(a, b + 1, f);
    }
  }

  /** One visit's share: the surface's content at global bin g, times the flux
      `f` read at the visit's energy, times the energy step, over EnuMax. */
  function Term(s: Surface, f: real, width: real, enuMax: real, g: nat): real
    requires enuMax > 0.0
  {
    s.ContentAt(g) * f * width / enuMax
  }

  /** Every share divides by EnuMax; with at least one visit it is positive. */
  predicate CanDivide(family: seq<Surface>, enuMax: real)
  {
    |family| == 0 || enuMax > 0.0
  }

  /** `family` holds one surface per visit of the sweep below `enuMax`. */
  ghost predicate SweepOk(family: seq<Surface>, start: real, step: real, enuMax: real)
  {
    && step > 0.0 && start > 0.0
    && (forall k :: 0 <= k < |family| ==> SweepEnergy(start, step, k) < enuMax)
    && SweepEnergy(start, step, |family|) >= enuMax
  }

  /** The share of every visit, in sweep order; `fv` is the flux each visit
      reads. */
  function Shares(family: seq<Surface>, fv: seq<real>, start: real, step: real,
                  enuMax: real, g: nat): (r: seq<real>)
    requires |fv| == |family| && CanDivide(family, enuMax)
    ensures |r| == |family|
  {
    seq(|family|, k requires 0 <= k < |family| =>
      Term(family[k], fv[k], SweepWidth(start, step, k), enuMax, g))
  }

  /** The weighted content of global bin g: the sum of all visits' shares. */
  function WeightedSum(family: seq<Surface>, fv: seq<real>, start: real, step: real,
                       enuMax: real, g: nat): real
    requires |fv| == |family| && CanDivide(family, enuMax)
  {
    Sum(Shares(family, fv, start, step, enuMax, g))
  }

  /** fluxWeight.C's loop for one output bin: E_v from `start` in steps of
      `step` while below EnuMax, each visit adding its share. */
  method WeightBin(family: seq<Surface>, flux: Hist1, start: real, step: real,
                   enuMax: real, g: nat) returns (w: real)
    requires flux.axis.Valid() && SweepOk(family, start, step, enuMax) && CanDivide(family, enuMax)
    ensures w == WeightedSum(family, SweepFlux(flux, start, step, |family|), start, step, enuMax, g)
  {
    ghost var fv := SweepFlux(flux, start, step, |family|);
    ghost var shares := Shares(family, fv, start, step, enuMax, g);
    var e := start;
    var last := 0.0;
    var k := 0;
    w := 0.0;
    while e < enuMax
      invariant 0 <= k <= |family|
      invariant e == SweepEnergy(start, step, k)
      invariant last == if k == 0 then 0.0 else SweepEnergy(start, step, k - 1)
      invariant w == Sum(shares[..k])
      decreases |family| - k
    {
      SweepEnergyAtLeastStart(start, step, k);
      var binsize := e - last;
      SweepWidthIsGap(start, step, k);
      w := w + Term(family[k], flux.Content(flux.axis.FindBin(e)), binsize, enuMax, g);
      SumAppend(shares[..k], [shares[k]]);
      assert shares[..k + 1] == shares[..k] + [shares[k]];
      last := e;
      SweepNext(start, step, k);
      e := e + step;
      k := k + 1;
    }
    assert shares[..k] == shares;
  }

  // ---------------------------------------------------------------------
  // The flux-weighted surface.

  /** The weighted sum of every global bin, as one function of the bin. */
  function SumsAt(family: seq<Surface>, fv: seq<real>, start: real, step: real, enuMax: real): (at: nat -> real)
    requires |fv| == |family| && CanDivide(family, enuMax)
  {
    (g: nat) => WeightedSum(family, fv, start, step, enuMax, g)
  }

  /** Surface contents with one row per y-bin of the reference and `nx`
      columns: bin (i, n) holds `at` of the reference's global bin (i, n). */
  function Grid(ref: Surface, nx: nat, at: nat -> real): (b: seq<seq<real>>)
  {
    seq(ref.y.n, r requires 0 <= r < ref.y.n =>
      seq(nx, q requires 0 <= q < nx => at(ref.GetBin(q + 1, r + 1))))
  }

  /** The weighted surface over the kept x-bins and every y-bin of the
      reference: bin (i, n) holds the weighted sum for the reference's global
      bin (i, n), each visit reading the flux at its own energy. */
  function Weighted(ref: Surface, family: seq<Surface>, flux: Hist1, enuMax: real,
                    start: real, step: real): (out: Surface)
    requires ref.x.Valid() && flux.axis.Valid() && CanDivide(family, enuMax)
    ensures out.x == OutputXAxis(ref.x, enuMax) && out.y == ref.y
    ensures |out.bins| == out.y.n && forall r :: 0 <= r < |out.bins| ==> |out.bins[r]| == out.x.n
    ensures out.x.n > 0 && ref.y.Valid() ==> out.Valid()
    ensures forall i, n :: 1 <= i <= out.x.n && 1 <= n <= out.y.n ==>
      out.Content(i, n) == WeightedSum(family, SweepFlux(flux, start, step, |family|), start, step, enuMax, ref.GetBin(i, n))
  {
    var outX := OutputXAxis(ref.x, enuMax);
    Surface(outX, ref.y, Grid(ref, outX.n, SumsAt(family, SweepFlux(flux, start, step, |family|), start, step, enuMax)))
  }

  /** The whole program: read the reference surface `refName`, the family of
      sweep surfaces, and build the weighted surface. With no kept x-bin no
      sweep surface is read. */
  function FluxWeighted(archive: Archive, flux: Hist1, refName: string,
                        nameOf: real -> Option<string>): (r: Result<Surface, Failure>)
    requires ValidArchive(archive) && flux.axis.Valid()
    ensures refName !in archive ==> r == Err(MissingSurface(refName))
    ensures r.Ok? ==> refName in archive && r.value.y == archive[refName].y
    ensures r.Ok? ==> r.value.x == OutputXAxis(archive[refName].x, EnuMax(flux))
    ensures r.Ok? && r.value.x.n > 0 ==> r.value.Valid()
    ensures refName in archive && OutputXAxis(archive[refName].x, EnuMax(flux)).n > 0 ==>
      var family := SweepFamily(archive, nameOf, SweepStart, SweepStep, 0, SweepLength(SweepStart, SweepStep, EnuMax(flux)));
      && (r.Ok? <==> family.Ok?)
      && (family.Ok? ==> CanDivide(family.value, EnuMax(flux)))
      && (family.Ok? ==> r.value == Weighted(archive[refName], family.value, flux, EnuMax(flux), SweepStart, SweepStep))
  {
    if refName !in archive then Err(MissingSurface(refName))
    else
      var ref := archive[refName];
      var enuMax := EnuMax(flux);
      var outX := OutputXAxis(ref.x, enuMax);
      if outX.n == 0 then
        Ok(Surface(outX, ref.y, seq(ref.y.n, r => [])))
      else
        var n := SweepLength(SweepStart, SweepStep, enuMax);
        var family :- SweepFamily(archive, nameOf, SweepStart, SweepStep, 0, n);
        assert n > 0 ==> SweepEnergy(SweepStart, SweepStep, 0) < enuMax;
        Ok(Weighted(ref, family, flux, enuMax, SweepStart, SweepStep))
  }

  /** Names of the sweep surfaces: the energy printed by `fmt`, made into an
      archive name. */
  function SweepName(fmt: real -> string): (nameOf: real -> Option<string>)
    ensures forall e :: nameOf(e).None? <==> '.' !in fmt(e)
    ensures forall e :: '.' in fmt(e) && '_' !in fmt(e) ==>
      nameOf(e).Some? && Unname(nameOf(e).value) == Some(fmt(e))
  {
    var nameOf := e => HistName(fmt(e));
    assert forall e :: '.' in fmt(e) && '_' !in fmt(e) ==>
      nameOf(e).Some? && Unname(nameOf(e).value) == Some(fmt(e)) by {
      forall e | '.' in fmt(e) && '_' !in fmt(e)
        ensures nameOf(e).Some? && Unname(nameOf(e).value) == Some(fmt(e))
      {
        UnnameOfHistName(fmt(e));
      }
    }
    nameOf
  }

  // ---------------------------------------------------------------------
  // Properties of the weighting.

  /** Same axis, every content scaled by c. */
  ghost predicate ScaledFlux(flux: Hist1, flux': Hist1, c: real)
  {
    flux'.axis == flux.axis && ScaledSeq(flux.contents, flux'.contents, c)
  }

  /** Scaling the flux scales what every visit reads. */
  lemma SweepFluxLinear(flux: Hist1, flux': Hist1, c: real, start: real, step: real, n: nat)
    requires flux.axis.Valid() && ScaledFlux(flux, flux', c)
    ensures var fv := SweepFlux(flux, start, step, n);
            var fv' := SweepFlux(flux', start, step, n);
            |fv'| == |fv| && forall k :: 0 <= k < |fv| ==> fv'[k] == c * fv[k]
  {
    var fv := SweepFlux(flux, start, step, n);
    var fv' := SweepFlux(flux', start, step, n);
    forall k | 0 <= k < |fv|
      ensures fv'[k] == c * fv[k]
    {
      var b := flux.axis.FindBin(SweepEnergy(start, step, k));
      SweepFluxAt(flux, start, step, n, k);
      SweepFluxAt(flux', start, step, n, k);
      assert flux'.Content(b) == c * flux.Content(b);
    }
  }

  /** The weighted sum is linear in what the visits read. */
  lemma WeightedSumLinear(family: seq<Surface>, fv: seq<real>, fv': seq<real>, c: real,
                          start: real, step: real, enuMax: real, g: nat)
    requires |fv| == |family| && CanDivide(family, enuMax)
    requires |fv'| == |fv| && forall k :: 0 <= k < |fv| ==> fv'[k] == c * fv[k]
    ensures WeightedSum(family, fv', start, step, enuMax, g) == c * WeightedSum(family, fv, start, step, enuMax, g)
  {
    var shares := Shares(family, fv, start, step, enuMax, g);
    var shares' := Shares(family, fv', start, step, enuMax, g);
    forall k | 0 <= k < |family|
      ensures shares'[k] == c * shares[k]
    {
      ProductScales(family[k].ContentAt(g), fv[k], c, SweepWidth(start, step, k), enuMax);
    }
    SumOfScaled(shares, shares', c);
  }

  lemma ProductScales(v: real, f: real, c: real, w: real, m: real)
    requires m != 0.0
    ensures v * (c * f) * w / m == c * (v * f * w / m)
  {
  }

  /** `flux` is `flux1 + flux2` bin by bin, all on one axis. */
  ghost predicate AddedFlux(flux1: Hist1, flux2: Hist1, flux: Hist1)
  {
    && flux1.axis == flux.axis && flux2.axis == flux.axis
    && AddedSeq(flux1.contents, flux2.contents, flux.contents)
  }

  /** Adding two fluxes adds what every visit reads. */
  lemma SweepFluxAdds(flux1: Hist1, flux2: Hist1, flux: Hist1, start: real, step: real, n: nat)
    requires flux.axis.Valid() && AddedFlux(flux1, flux2, flux)
    ensures AddedSeq(SweepFlux(flux1, start, step, n), SweepFlux(flux2, start, step, n), SweepFlux(flux, start, step, n))
  {
    var fv1 := SweepFlux(flux1, start, step, n);
    var fv2 := SweepFlux(flux2, start, step, n);
    var fv := SweepFlux(flux, start, step, n);
    forall k | 0 <= k < n
      ensures fv[k] == fv1[k] + fv2[k]
    {
      var b := flux.axis.FindBin(SweepEnergy(start, step, k));
      SweepFluxAt(flux, start, step, n, k);
      SweepFluxAt(flux1, start, step, n, k);
      SweepFluxAt(flux2, start, step, n, k);
      assert flux.Content(b) == flux1.Content(b) + flux2.Content(b);
    }
  }

  /** The weighted sum is additive in what the visits read. */
  lemma WeightedSumAdds(family: seq<Surface>, fv1: seq<real>, fv2: seq<real>, fv: seq<real>,
                        start: real, step: real, enuMax: real, g: nat)
    requires |fv| == |family| && CanDivide(family, enuMax) && AddedSeq(fv1, fv2, fv)
    ensures WeightedSum(family, fv, start, step, enuMax, g)
      == WeightedSum(family, fv1, start, step, enuMax, g) + WeightedSum(family, fv2, start, step, enuMax, g)
  {
    var shares := Shares(family, fv, start, step, enuMax, g);
    var shares1 := Shares(family, fv1, start, step, enuMax, g);
    var shares2 := Shares(family, fv2, start, step, enuMax, g);
    forall k | 0 <= k < |family|
      ensures shares[k] == shares1[k] + shares2[k]
    {
      ProductAdds(family[k].ContentAt(g), fv1[k], fv2[k], SweepWidth(start, step, k), enuMax);
    }
    SumOfAdded(shares1, shares2, shares);
  }

  lemma ProductAdds(v: real, f1: real, f2: real, w: real, m: real)
    requires m != 0.0
    ensures v * (f1 + f2) * w / m == v * f1 * w / m + v * f2 * w / m
  {
  }

  /** The weighted sum of every global bin is additive in what the visits read. */
  lemma SumsAdd(family: seq<Surface>, fv1: seq<real>, fv2: seq<real>, fv: seq<real>,
                start: real, step: real, enuMax: real)
    requires |fv| == |family| && CanDivide(family, enuMax) && AddedSeq(fv1, fv2, fv)
    ensures forall g: nat :: SumsAt(family, fv, start, step, enuMax)(g)
              == SumsAt(family, fv1, start, step, enuMax)(g) + SumsAt(family, fv2, start, step, enuMax)(g)
  {
    forall g: nat
      ensures SumsAt(family, fv, start, step, enuMax)(g)
        == SumsAt(family, fv1, start, step, enuMax)(g) + SumsAt(family, fv2, start, step, enuMax)(g)
    {
      WeightedSumAdds(family, fv1, fv2, fv, start, step, enuMax, g);
    }
  }

  /** `b` is `b1 + b2` cell by cell, row by row. */
  ghost predicate AddedGrid(b1: seq<seq<real>>, b2: seq<seq<real>>, b: seq<seq<real>>)
  {
    |b1| == |b| && |b2| == |b| && forall r :: 0 <= r < |b| ==> AddedSeq(b1[r], b2[r], b[r])
  }

  /** The grid of a sum of functions is the sum of their grids. */
  lemma GridAdds(ref: Surface, nx: nat, at1: nat -> real, at2: nat -> real, at: nat -> real)
    requires forall g: nat :: at(g) == at1(g) + at2(g)
    ensures AddedGrid(Grid(ref, nx, at1), Grid(ref, nx, at2), Grid(ref, nx, at))
  {
    var b1 := Grid(ref, nx, at1);
    var b2 := Grid(ref, nx, at2);
    var b := Grid(ref, nx, at);
    forall r | 0 <= r < |b|
      ensures AddedSeq(b1[r], b2[r], b[r])
    {
      forall q | 0 <= q < nx
        ensures b[r][q] == b1[r][q] + b2[r][q]
      {
        var g := ref.GetBin(q + 1, r + 1);
        assert b[r][q] == at(g) && b1[r][q] == at1(g) && b2[r][q] == at2(g);
      }
    }
  }

  /** Adding two fluxes adds the weighted surfaces bin by bin. */
  lemma WeightedAdditive(ref: Surface, family: seq<Surface>, flux1: Hist1, flux2: Hist1, flux: Hist1,
                         enuMax: real, start: real, step: real)
    requires ref.x.Valid() && flux.axis.Valid() && CanDivide(family, enuMax)
    requires AddedFlux(flux1, flux2, flux)
    ensures var out := Weighted(ref, family, flux, enuMax, start, step);
            var out1 := Weighted(ref, family, flux1, enuMax, start, step);
            var out2 := Weighted(ref, family, flux2, enuMax, start, step);
            && out1.x == out.x && out2.x == out.x && out1.y == out.y && out2.y == out.y
            && AddedGrid(out1.bins, out2.bins, out.bins)
  {
    SweepFluxAdds(flux1, flux2, flux, start, step, |family|);
    var nx := OutputXAxis(ref.x, enuMax).n;
    var fv1 := SweepFlux(flux1, start, step, |family|);
    var fv2 := SweepFlux(flux2, start, step, |family|);
    var fv := SweepFlux(flux, start, step, |family|);
    SumsAdd(family, fv1, fv2, fv, start, step, enuMax);
    GridAdds(ref, nx, SumsAt(family, fv1, start, step, enuMax), SumsAt(family, fv2, start, step, enuMax),
      SumsAt(family, fv, start, step, enuMax));
  }

  /** Non-negative surfaces and flux give a non-negative weighted sum. */
  lemma WeightedSumNonNegative(family: seq<Surface>, flux: Hist1, start: real,
                               step: real, enuMax: real, g: nat)
    requires flux.axis.Valid() && CanDivide(family, enuMax) && start >= 0.0 && step >= 0.0
    requires forall t :: 0 <= t < |family| ==> NonNegative(family[t])
    requires forall t :: 0 <= t < |flux.contents| ==> flux.contents[t] >= 0.0
    ensures WeightedSum(family, SweepFlux(flux, start, step, |family|), start, step, enuMax, g) >= 0.0
  {
    var fv := SweepFlux(flux, start, step, |family|);
    var shares := Shares(family, fv, start, step, enuMax, g);
    forall k | 0 <= k < |family|
      ensures shares[k] >= 0.0
    {
      assert fv[k] >= 0.0;
      TermNonNegative(family[k], fv[k], SweepWidth(start, step, k), enuMax, g);
    }
    SumNonNegative(shares);
  }

  lemma TermNonNegative(s: Surface, f: real, width: real, enuMax: real, g: nat)
    requires enuMax > 0.0 && width >= 0.0 && f >= 0.0
    requires NonNegative(s)
    ensures Term(s, f, width, enuMax, g) >= 0.0
  {
    ContentNonNegative(s, g % (s.x.n + 2), g / (s.x.n + 2));
    ProductNonNegative(s.ContentAt(g), f, width, enuMax);
  }

  lemma ProductNonNegative(v: real, f: real, w: real, m: real)
    requires v >= 0.0 && f >= 0.0 && w >= 0.0 && m > 0.0
    ensures v * f * w / m >= 0.0
  {
    assert v * f >= 0.0;
    assert v * f * w >= 0.0;
  }

  /** The sum of each row of a grid. */
  function RowSums(bins: seq<seq<real>>): (r: seq<real>)
  {
    seq(|bins|, i requires 0 <= i < |bins| => Sum(bins[i]))
  }

  /** The sum of every bin times both bin widths: ROOT's Integral("width"). */
  function Integral(s: Surface): real
    requires s.x.Valid() && s.y.Valid()
  {
    Sum(RowSums(s.bins)) * s.x.Width() * s.y.Width()
  }

  /** Adding the contents of two surfaces on the same axes adds their
      width-weighted integrals. */
  lemma IntegralAdds(s1: Surface, s2: Surface, s: Surface)
    requires s.x.Valid() && s.y.Valid()
    requires s1.x == s.x && s2.x == s.x && s1.y == s.y && s2.y == s.y
    requires AddedGrid(s1.bins, s2.bins, s.bins)
    ensures Integral(s) == Integral(s1) + Integral(s2)
  {
    GridTotalAdds(s1.bins, s2.bins, s.bins);
    AddedProduct(Sum(RowSums(s1.bins)), Sum(RowSums(s2.bins)), Sum(RowSums(s.bins)), s.x.Width(), s.y.Width());
  }

  /** Adding two grids cell by cell adds the totals of their row sums. */
  lemma GridTotalAdds(b1: seq<seq<real>>, b2: seq<seq<real>>, b: seq<seq<real>>)
    requires AddedGrid(b1, b2, b)
    ensures Sum(RowSums(b)) == Sum(RowSums(b1)) + Sum(RowSums(b2))
  {
    var rows1 := RowSums(b1);
    var rows2 := RowSums(b2);
    var rows := RowSums(b);
    forall r | 0 <= r < |b|
      ensures rows[r] == rows1[r] + rows2[r]
    {
      SumOfAdded(b1[r], b2[r], b[r]);
    }
    SumOfAdded(rows1, rows2, rows);
  }

  lemma AddedProduct(a1: real, a2: real, a: real, u: real, v: real)
    requires a == a1 + a2
    ensures a * u * v == a1 * u * v + a2 * u * v
  {
  }

  /** Adding two fluxes adds the total weighted cross sections. */
  lemma IntegralAdditiveInFlux(ref: Surface, family: seq<Surface>, flux1: Hist1, flux2: Hist1, flux: Hist1,
                               enuMax: real, start: real, step: real)
    requires ref.x.Valid() && ref.y.Valid() && flux.axis.Valid() && CanDivide(family, enuMax)
    requires AddedFlux(flux1, flux2, flux)
    requires OutputXAxis(ref.x, enuMax).n > 0
    ensures Integral(Weighted(ref, family, flux, enuMax, start, step))
      == Integral(Weighted(ref, family, flux1, enuMax, start, step))
        + Integral(Weighted(ref, family, flux2, enuMax, start, step))
  {
    WeightedAdditive(ref, family, flux1, flux2, flux, enuMax, start, step);
    IntegralAdds(Weighted(ref, family, flux1, enuMax, start, step), Weighted(ref, family, flux2, enuMax, start, step),
      Weighted(ref, family, flux, enuMax, start, step));
  }

  /** Each sweep surface is read at the reference's global bin (i, n); when it
      has as many x-bins as the reference that is its own bin (i, n). */
  lemma TermReadsSameBin(ref: Surface, s: Surface, f: real, width: real,
                         enuMax: real, i: int, n: int)
    requires enuMax > 0.0
    requires s.x.n == ref.x.n && 1 <= i <= ref.x.n && 1 <= n <= ref.y.n
    ensures Term(s, f, width, enuMax, ref.GetBin(i, n)) == s.Content(i, n) * f * width / enuMax
  {
    GlobalBinSharedAcrossSurfaces(ref, s, i, n);
  }
}
