/** Regular-grid histograms as the scripts use them: a uniform axis with ROOT's
    bin numbering (0 is underflow, 1..n the bins, n+1 overflow), a 2D surface
    whose in-range bins hold one value each, and a 1D histogram for the flux.
    Underflow and overflow bins of a surface hold 0 in this model. */
module Surfaces {

  import opened Numerics

  /** A uniform axis of `n` bins over [lo, hi). */
  datatype Axis = Axis(n: nat, lo: real, hi: real) {

    predicate Valid() { n > 0 && lo < hi }

    function Width(): real
      requires Valid()
    {
      (hi - lo) / n as real
    }

    /** Lower edge of bin `k`; `LowEdge(n + 1)` is the upper end of the axis. */
    function LowEdge(k: int): real
      requires Valid()
    {
      lo + (k - 1) as real * Width()
    }

    function Center(k: int): real
      requires Valid()
    {
      lo + (k as real - 0.5) * Width()
    }

    /** The bin holding `x`: 0 below the axis, n + 1 at or above its upper end. */
    function FindBin(x: real): (k: int)
      requires Valid()
      ensures 0 <= k <= n + 1
      ensures k == 0 <==> x < lo
      ensures k == n + 1 <==> hi <= x
      ensures 1 <= k <= n ==> LowEdge(k) <= x < LowEdge(k + 1)
    {
      if x < lo then 0
      else if hi <= x then n + 1
      else
        var k := 1 + (n as real * (x - lo) / (hi - lo)).Floor;
        FindBinInRange(this, x, k);
        k
    }
  }

  lemma FindBinInRange(a: Axis, x: real, k: int)
    requires a.Valid() && a.lo <= x < a.hi
    requires k == 1 + (a.n as real * (x - a.lo) / (a.hi - a.lo)).Floor
    ensures 1 <= k <= a.n
    ensures a.LowEdge(k) <= x < a.LowEdge(k + 1)
  {
    var span := a.hi - a.lo;
    var w := a.Width();
    var t := (x - a.lo) / span;
    DivBelowOne(x - a.lo, span);
    var u := a.n as real * (x - a.lo) / span;
    assert u == a.n as real * t;
    MulMonotone(t, 1.0, a.n as real);
    assert w * a.n as real == span;
    assert u * w == x - a.lo;
    var f := u.Floor;
    assert k == f + 1;
    assert f < a.n;
    MulMonotone(f as real, u, w);
    assert u < f as real + 1.0;
    MulMonotone(u, f as real + 1.0, w);
    assert x - a.lo < (f as real + 1.0) * w;
    assert a.LowEdge(k) == a.lo + f as real * w;
    assert a.LowEdge(k + 1) == a.lo + (f as real + 1.0) * w;
  }

  /** A 2D histogram: `bins[y - 1][x - 1]` is the content of bin (x, y). */
  datatype Surface = Surface(x: Axis, y: Axis, bins: seq<seq<real>>) {

    predicate Valid() {
      && x.Valid() && y.Valid()
      && |bins| == y.n
      && forall j :: 0 <= j < |bins| ==> |bins[j]| == x.n
    }

    /** Content of bin (xb, yb); 0 for underflow, overflow and anything
        outside the stored grid. */
    function Content(xb: int, yb: int): real
    {
      if 1 <= yb <= y.n && yb <= |bins| && 1 <= xb <= x.n && xb <= |bins[yb - 1]|
      then bins[yb - 1][xb - 1]
      else 0.0
    }

    /** ROOT's global bin number: each coordinate clamped into the
        underflow..overflow range, then `xb + (nx + 2) * yb`. */
    function GetBin(xb: int, yb: int): (g: nat)
      ensures g % (x.n + 2) == Clamp(xb, x.n + 1)
      ensures g / (x.n + 2) == Clamp(yb, y.n + 1)
    {
      var cx := Clamp(xb, x.n + 1);
      var cy := Clamp(yb, y.n + 1);
      DivModOfGlobal(cx, cy, x.n + 2);
      cx + (x.n + 2) * cy
    }

    /** Content addressed by a global bin number, decoded with this surface's
        own x-axis size. */
    function ContentAt(g: nat): real
    {
      Content(g % (x.n + 2), g / (x.n + 2))
    }
  }

  function Clamp(k: int, top: nat): (c: nat)
    ensures c <= top
    ensures 0 <= k <= top ==> c == k
  {
    if k < 0 then 0 else if k > top then top else k
  }

  lemma DivModOfGlobal(cx: nat, cy: nat, stride: nat)
    requires cx < stride
    ensures (cx + stride * cy) % stride == cx
    ensures (cx + stride * cy) / stride == cy
  {
    DivModUnique(cx + stride * cy, stride, cy, cx);
  }

  /** Two surfaces with the same number of x-bins decode a global bin number
      to the same (x, y) bin, so reading it from either names the same bin. */
  lemma GlobalBinSharedAcrossSurfaces(ref: Surface, other: Surface, xb: int, yb: int)
    requires ref.x.n == other.x.n
    requires 1 <= xb <= ref.x.n && 1 <= yb <= ref.y.n
    ensures other.ContentAt(ref.GetBin(xb, yb)) == other.Content(xb, yb)
  {
  }

  /** A 1D histogram (the flux): `contents[k - 1]` is the content of bin k. */
  datatype Hist1 = Hist1(axis: Axis, contents: seq<real>) {

    predicate Valid() { axis.Valid() && |contents| == axis.n }

    function Content(k: int): real
    {
      if 1 <= k <= axis.n && k <= |contents| then contents[k - 1] else 0.0
    }
  }

  /** The archive file: surfaces by name. Writing a name again replaces
      what later reads see. */
  type Archive = map<string, Surface>

  ghost predicate ValidArchive(archive: Archive)
  {
    forall name :: name in archive ==> archive[name].Valid()
  }

  /** Reading a name that is not there gives no surface. */
  function Get(archive: Archive, name: string): (r: Option<Surface>)
    ensures r.Some? <==> name in archive
    ensures r.Some? ==> r.value == archive[name]
  {
    if name in archive then Some(archive[name]) else None
  }

  /** The centre of an in-range bin is found in that bin, so filling at a
      bin's centre fills that bin. */
  lemma CenterFindsOwnBin(a: Axis, k: int)
    requires a.Valid() && 1 <= k <= a.n
    ensures a.FindBin(a.Center(k)) == k
  {
    var w := a.Width();
    var c := a.Center(k);
    assert a.LowEdge(k) < c < a.LowEdge(k + 1) by {
      assert a.LowEdge(k) == a.lo + (k as real - 1.0) * w;
      assert c == a.lo + (k as real - 1.0) * w + 0.5 * w;
      assert a.LowEdge(k + 1) == a.lo + (k as real - 1.0) * w + w;
    }
    assert a.lo <= a.LowEdge(k) by {
      MulMonotone(0.0, (k - 1) as real, w);
    }
    assert a.LowEdge(k + 1) <= a.hi by {
      MulMonotone(k as real, a.n as real, w);
      assert a.n as real * w == a.hi - a.lo;
    }
    var b := a.FindBin(c);
    LowEdgeOrder(a, b + 1, k);
    LowEdgeOrder(a, k + 1, b);
  }

  lemma LowEdgeOrder(a: Axis, i: int, j: int)
    requires a.Valid()
    ensures i <= j ==> a.LowEdge(i) <= a.LowEdge(j)
  {
    if i <= j {
      MulMonotone((i - 1) as real, (j - 1) as real, a.Width());
    }
  }

  /** Every stored bin of the surface is at least 0. */
  ghost predicate NonNegative(s: Surface)
  {
    forall r, q :: 0 <= r < |s.bins| && 0 <= q < |s.bins[r]| ==> s.bins[r][q] >= 0.0
  }

  lemma ContentNonNegative(s: Surface, xb: int, yb: int)
    requires NonNegative(s)
    ensures s.Content(xb, yb) >= 0.0
    ensures s.ContentAt(s.GetBin(xb, yb)) >= 0.0
  {
    var g := s.GetBin(xb, yb);
    assert s.ContentAt(g) == s.Content(g % (s.x.n + 2), g / (s.x.n + 2));
  }
}
