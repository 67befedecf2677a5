/** The depth-buffered rasteriser: the tail of `drawCube` that writes one
    projected point into the character buffer and the parallel z-buffer,
    the loop over a point cloud, and the per-frame reset of both buffers. */
module Raster {
  import opened Screen

  /** The abstract value of the two buffers: `glyphs` is the character
      buffer, `depths` the z-buffer, cell for cell. */
  datatype Frame = Frame(glyphs: seq<char>, depths: seq<real>)

  predicate WellFormed(f: Frame) {
    |f.glyphs| == Cells && |f.depths| == Cells
  }

  /** The state both buffers are reset to before a frame is drawn. */
  function Cleared(): (f: Frame)
    ensures WellFormed(f)
    ensures forall k :: 0 <= k < Cells ==> f.glyphs[k] == Background && f.depths[k] == Sentinel
  {
    Frame(seq(Cells, _ => Background), seq(Cells, _ => Sentinel))
  }

  /** One point of `drawCube`: skipped when off-grid, otherwise written to
      its cell exactly when it is strictly nearer than the stored depth. */
  function Plot(f: Frame, p: ScreenPoint): (r: Frame)
    requires WellFormed(f)
    ensures WellFormed(r)
    ensures !InBounds(p.col, p.row) ==> r == f
    ensures InBounds(p.col, p.row) ==>
      var k := Index(p.col, p.row);
      && 0 <= k < Cells
      && (p.depth < f.depths[k] ==> r.depths[k] == p.depth && r.glyphs[k] == Glyph(p.face))
      && (p.depth >= f.depths[k] ==> r == f)
    ensures forall k :: 0 <= k < Cells && !Hits(p, k) ==>
      r.glyphs[k] == f.glyphs[k] && r.depths[k] == f.depths[k]
    ensures forall k :: 0 <= k < Cells ==>
      && r.depths[k] <= f.depths[k]
      && (r.glyphs[k] != f.glyphs[k] ==> r.depths[k] < f.depths[k])
      && (r.glyphs[k] == f.glyphs[k] || r.glyphs[k] == Glyph(p.face))
  {
    if InBounds(p.col, p.row) then
      var k := Index(p.col, p.row);
      IndexInRange(p.col, p.row);
      if p.depth < f.depths[k] then
        Frame(f.glyphs[k := Glyph(p.face)], f.depths[k := p.depth])
      else
        f
    else
      f
  }

  /** The buffers after the points of `pts` are plotted in order. */
  function Render(f: Frame, pts: seq<ScreenPoint>): (r: Frame)
    requires WellFormed(f)
    ensures WellFormed(r)
    ensures forall k :: 0 <= k < Cells ==>
      && r.depths[k] <= f.depths[k]
      && (r.glyphs[k] != f.glyphs[k] ==> r.depths[k] < f.depths[k])
    ensures (forall k :: 0 <= k < Cells ==> InPalette(f.glyphs[k])) ==>
      forall k :: 0 <= k < Cells ==> InPalette(r.glyphs[k])
    decreases |pts|
  {
    if |pts| == 0 then f else Plot(Render(f, pts[..|pts| - 1]), pts[|pts| - 1])
  }

  /** Point `j` of `pts` is the first of the points landing on cell `k`
      whose depth is `d`; every earlier point landing there is farther. */
  ghost predicate FirstAt(pts: seq<ScreenPoint>, k: int, j: int, d: real) {
    && 0 <= j < |pts|
    && Hits(pts[j], k)
    && pts[j].depth == d
    && forall i :: 0 <= i < j && Hits(pts[i], k) ==> d < pts[i].depth
  }

  /** Independent description of cell `k` after drawing `pts` over a cell
      holding glyph `g0` at depth `d0`: the depth `d` is the minimum of `d0`
      and the depths of the points landing there, and the glyph `g` is the
      one of the first point attaining a minimum below `d0`, or `g0` when no
      point beat `d0`. */
  ghost predicate Resolves(pts: seq<ScreenPoint>, k: int, d0: real, g0: char, d: real, g: char) {
    && d <= d0
    && (forall i :: 0 <= i < |pts| && Hits(pts[i], k) ==> d <= pts[i].depth)
    && (d == d0 ==> g == g0)
    && (d < d0 ==> exists j :: FirstAt(pts, k, j, d) && g == Glyph(pts[j].face))
  }

  /** `Resolves` determines the cell: at most one depth and glyph satisfy it. */
  lemma ResolvesUnique(pts: seq<ScreenPoint>, k: int, d0: real, g0: char,
                       d1: real, g1: char, d2: real, g2: char)
    requires Resolves(pts, k, d0, g0, d1, g1) && Resolves(pts, k, d0, g0, d2, g2)
    ensures d1 == d2 && g1 == g2
  {
  }

  /** Every cell after `Render` is the one `Resolves` describes. */
  lemma {:induction false} RenderResolves(f: Frame, pts: seq<ScreenPoint>, k: int)
    requires WellFormed(f) && 0 <= k < Cells
    ensures Resolves(pts, k, f.depths[k], f.glyphs[k],
                     Render(f, pts).depths[k], Render(f, pts).glyphs[k])
    decreases |pts|
  {
    if |pts| > 0 {
      var init := pts[..|pts| - 1];
      var p := pts[|pts| - 1];
      var prev := Render(f, init);
      RenderResolves(f, init, k);
      var d, g := prev.depths[k], prev.glyphs[k];
      var r := Plot(prev, p);
      assert r == Render(f, pts);
      forall i | 0 <= i < |init| ensures pts[i] == init[i] { }
      if Hits(p, k) && p.depth < d {
        assert FirstAt(pts, k, |pts| - 1, p.depth);
      } else {
        assert r.depths[k] == d && r.glyphs[k] == g;
        if d < f.depths[k] {
          var j :| FirstAt(init, k, j, d) && g == Glyph(init[j].face);
          assert FirstAt(pts, k, j, d);
        }
      }
    }
  }

  /** A frame drawn from the cleared buffers: each cell's depth is the
      minimum of the sentinel and the depths of its points, and its glyph is
      that of the first point attaining it, or the background. */
  lemma RenderFromCleared(pts: seq<ScreenPoint>, k: int)
    requires 0 <= k < Cells
    ensures Resolves(pts, k, Sentinel, Background,
                     Render(Cleared(), pts).depths[k], Render(Cleared(), pts).glyphs[k])
  {
    RenderResolves(Cleared(), pts, k);
  }

  /** Drawing one cloud after another is drawing their concatenation. */
  lemma {:induction false} RenderConcat(f: Frame, a: seq<ScreenPoint>, b: seq<ScreenPoint>)
    requires WellFormed(f)
    ensures Render(Render(f, a), b) == Render(f, a + b)
    decreases |b|
  {
    if |b| == 0 {
      assert a + b == a;
    } else {
      RenderConcat(f, a, b[..|b| - 1]);
      assert (a + b)[..|a + b| - 1] == a + b[..|b| - 1];
    }
  }

  /** The reset of both buffers at the start of a frame (two `std::fill`s). */
  method Reset(buffer: array<char>, zbuffer: array<real>)
    requires buffer.Length == Cells && zbuffer.Length == Cells
    modifies buffer, zbuffer
    ensures Frame(buffer[..], zbuffer[..]) == Cleared()
  {
    var i := 0;
    while i < Cells
      invariant 0 <= i <= Cells
      invariant forall k :: 0 <= k < i ==> buffer[k] == Background
    {
      buffer[i] := Background;
      i := i + 1;
    }
    i := 0;
    while i < Cells
      invariant 0 <= i <= Cells
      invariant forall k :: 0 <= k < i ==> zbuffer[k] == Sentinel
      invariant forall k :: 0 <= k < Cells ==> buffer[k] == Background
    {
      zbuffer[i] := Sentinel;
      i := i + 1;
    }
    assert buffer[..] == Cleared().glyphs;
    assert zbuffer[..] == Cleared().depths;
  }

  /** The rasterising loop of `drawCube` over already projected points. */
  method DrawPoints(buffer: array<char>, zbuffer: array<real>, pts: seq<ScreenPoint>)
    requires buffer.Length == Cells && zbuffer.Length == Cells
    modifies buffer, zbuffer
    ensures Frame(buffer[..], zbuffer[..]) == Render(Frame(old(buffer[..]), old(zbuffer[..])), pts)
    ensures forall k :: 0 <= k < Cells ==> zbuffer[k] <= old(zbuffer[k])
  {
    ghost var start := Frame(buffer[..], zbuffer[..]);
    var i := 0;
    while i < |pts|
      invariant 0 <= i <= |pts|
      invariant Frame(buffer[..], zbuffer[..]) == Render(start, pts[..i])
    {
      var p := pts[i];
      assert pts[..i + 1][..i] == pts[..i];
      ghost var before := Frame(buffer[..], zbuffer[..]);
      if 0 <= p.col < Width && 0 <= p.row < Height {
        var index := p.col + p.row * Width;
        IndexInRange(p.col, p.row);
        if p.depth < zbuffer[index] {
          zbuffer[index] := p.depth;
          buffer[index] := Glyph(p.face);
        }
      }
      assert Frame(buffer[..], zbuffer[..]) == Plot(before, p);
      i := i + 1;
    }
    assert pts[..i] == pts;
  }
}
