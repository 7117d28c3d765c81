/** What a drawn pixel is: the texel, its palette entry or the mean of its neighbours,
    stored in the depth of the framebuffer, over the pixel below where it is clear. */
module DrawnPixels {
  import opened Wrappers
  import opened PixelFormat
  import opened Composition
  import Sampling

  /** The RGB565 colour as the framebuffer stores it. */
  ghost predicate Stores565(pixel: Word, depth: Depth, rgb: Word) {
    pixel == match depth
             case Rgb565 => rgb
             case Argb8888 => Rgb565ToArgb(rgb)
  }

  ghost predicate StoresArgb(pixel: Word, depth: Depth, argb: Word) {
    pixel == match depth
             case Rgb565 => ArgbTo565(argb)
             case Argb8888 => argb
  }

  /** The pixel shows the texel: as it is, through the palette, or not at all where a
      transparent layer's entry has alpha zero. */
  ghost predicate ShowsTexel(pixel: Word, depth: Depth, c: Content, texel: nat, below: Word)
    requires c.WellFormed() && (c.indexed ==> texel < 256)
  {
    && (!c.indexed ==> Stores565(pixel, depth, texel))
    && (c.indexed && !c.transparent ==> Stores565(pixel, depth, c.pal565[texel]))
    && (c.indexed && c.transparent ==>
          if c.palArgb[texel] / 0x100_0000 % 0x100 == 0 then pixel == below
          else StoresArgb(pixel, depth, c.palArgb[texel]))
  }

  /** There is something of the layer at the pixel, all of it inside the framebuffer. */
  predicate Inside(l: LayerRecord, x: int, y: int) {
    && l.dst.x <= x < l.dst.x + l.dst.w && l.dst.y <= y < l.dst.y + l.dst.h
    && 0 < l.src.w && 0 < l.src.h && 0 <= l.src.x && 0 <= l.src.y
    && l.src.x + l.src.w <= l.content.width && l.src.y + l.src.h <= l.content.height
  }

  predicate Scaled(l: LayerRecord) {
    l.src.w != l.dst.w || l.src.h != l.dst.h
  }

  /** A layer that has nothing at a pixel leaves it alone. */
  lemma NothingDrawn(depth: Depth, interpolation: bool, l: Layer, x: int, y: int, below: Word)
    requires || x < l.dst.x || x >= l.dst.x + l.dst.w || y < l.dst.y || y >= l.dst.y + l.dst.h
             || l.src.w <= 0 || l.src.h <= 0 || l.content.width == 0 || l.content.height == 0
    ensures DrawPixel(depth, interpolation, l, x, y, below) == below
  {
  }

  // ------------------------------------------------------------- unfiltered

  /** How far into the source rectangle a pixel is, in 16.16 fixed point. */
  function Into(at: int, dst: int, from: int, length: int): int
    requires 0 < dst
  {
    (at - from) * (length * 0x1_0000 / dst)
  }

  /** Without filtering the pixel shows the texel at the scaled place. */
  lemma NearestTexelDrawn(depth: Depth, interpolation: bool, l: Layer, x: int, y: int, below: Word)
    requires Inside(l, x, y)
    requires !interpolation || !Scaled(l) || (l.content.transparent && !l.content.indexed)
    ensures var sx := l.src.x + Into(x, l.dst.w, l.dst.x, l.src.w) / 0x1_0000;
            var sy := l.src.y + Into(y, l.dst.h, l.dst.y, l.src.h) / 0x1_0000;
            && 0 <= sx < l.content.width && 0 <= sy < l.content.height
            && ShowsTexel(DrawPixel(depth, interpolation, l, x, y, below), depth, l.content,
                          l.content.rows[sy][sx], below)
  {
    ClampNeverFires(l, x, y);
    hide Rgb565ToArgb, ArgbTo565, NearestX, NearestY;
  }

  /** An unscaled layer shows its texels one for one. */
  lemma UnscaledTexelDrawn(depth: Depth, interpolation: bool, l: Layer, x: int, y: int, below: Word)
    requires Inside(l, x, y) && !Scaled(l)
    ensures ShowsTexel(DrawPixel(depth, interpolation, l, x, y, below), depth, l.content,
                       l.content.rows[l.src.y + (y - l.dst.y)][l.src.x + (x - l.dst.x)], below)
  {
    NearestTexelDrawn(depth, interpolation, l, x, y, below);
    Sampling.IndexUnscaled(l.src.w, x - l.dst.x);
    Sampling.IndexUnscaled(l.src.h, y - l.dst.y);
    hide ShowsTexel, DrawPixel;
  }

  // --------------------------------------------------------------- filtered

  /** The fraction is the top eight of the sixteen bits after the point. */
  lemma FractionIsTopBits(coordinate: int)
    ensures Fraction(coordinate) == coordinate % 0x1_0000 / 0x100
  {
    var whole, part := coordinate / 0x1_0000, coordinate % 0x1_0000;
    assert coordinate / 256 == whole * 256 + part / 256;
  }

  /** The pixel shows the mean of four texels with the given weights. */
  ghost predicate ShowsMean(pixel: Word, depth: Depth, c: Content, t00: nat, t10: nat, t01: nat, t11: nat,
                            fx: nat, fy: nat, below: Word)
    requires c.WellFormed() && fx < 256 && fy < 256
    requires c.indexed ==> t00 < 256 && t10 < 256 && t01 < 256 && t11 < 256
  {
    && (!c.indexed ==> Stores565(pixel, depth, Bilinear565(t00, t10, t01, t11, fx, fy)))
    && (c.indexed && !c.transparent ==>
          Stores565(pixel, depth, Bilinear565(c.pal565[t00], c.pal565[t10], c.pal565[t01], c.pal565[t11], fx, fy)))
    && (c.indexed && c.transparent ==>
          pixel == Blend(depth, below,
                         BilinearArgb(c.palArgb[t00], c.palArgb[t10], c.palArgb[t01], c.palArgb[t11], fx, fy)))
  }

  /** The place, in 16.16 fixed point, is in the source rectangle, and that in the framebuffer. */
  predicate PlaceInside(l: Layer, cx: int, cy: int) {
    && 0 <= cx / 0x1_0000 < l.src.w && l.src.x + l.src.w <= l.content.width
    && 0 <= cy / 0x1_0000 < l.src.h && l.src.y + l.src.h <= l.content.height
  }

  /** The pixel shows the mean of the texel at a place, its right and lower neighbours and
      the one between them, as far as the source rectangle goes. */
  ghost predicate ShowsMeanAt(pixel: Word, depth: Depth, l: Layer, cx: int, cy: int, below: Word)
    requires PlaceInside(l, cx, cy)
  {
    var sx, sy := l.src.x + cx / 0x1_0000, l.src.y + cy / 0x1_0000;
    var right := if sx + 1 < l.src.x + l.src.w then sx + 1 else sx;
    var lower := if sy + 1 < l.src.y + l.src.h then sy + 1 else sy;
    var rows := l.content.rows;
    ShowsMean(pixel, depth, l.content, rows[sy][sx], rows[sy][right], rows[lower][sx], rows[lower][right],
              cx % 0x1_0000 / 0x100, cy % 0x1_0000 / 0x100, below)
  }

  /** With filtering the pixel shows the mean at the scaled place. */
  lemma MeanDrawn(depth: Depth, l: Layer, x: int, y: int, below: Word)
    requires Inside(l, x, y) && Scaled(l) && (!l.content.transparent || l.content.indexed)
    ensures var cx, cy := Into(x, l.dst.w, l.dst.x, l.src.w), Into(y, l.dst.h, l.dst.y, l.src.h);
            PlaceInside(l, cx, cy) && ShowsMeanAt(DrawPixel(depth, true, l, x, y, below), depth, l, cx, cy, below)
  {
    var cx, cy := Into(x, l.dst.w, l.dst.x, l.src.w), Into(y, l.dst.h, l.dst.y, l.src.h);
    hide ShowsMeanAt, FilteredAt, DrawPixel, Into, Sampling.Offset, Sampling.Step;
    IntoInside(x, l.dst.w, l.dst.x, l.src.w);
    IntoInside(y, l.dst.h, l.dst.y, l.src.h);
    DrawnAt(depth, l, x, y, below);
    MeanAtPlace(depth, l, cx, cy, below);
  }

  lemma IntoInside(at: int, dst: int, from: int, length: int)
    requires from <= at < from + dst && 0 < length
    ensures 0 <= Into(at, dst, from, length) / 0x1_0000 < length
    ensures Into(at, dst, from, length) == Sampling.Offset(at - from, Sampling.Step(length, dst))
  {
    Sampling.IndexInside(length, dst, at - from);
  }

  lemma DrawnAt(depth: Depth, l: Layer, x: int, y: int, below: Word)
    requires Inside(l, x, y) && Scaled(l) && (!l.content.transparent || l.content.indexed)
    ensures DrawPixel(depth, true, l, x, y, below)
         == FilteredAt(depth, l, Into(x, l.dst.w, l.dst.x, l.src.w), Into(y, l.dst.h, l.dst.y, l.src.h), below)
  {
    hide FilteredAt, FilteredPixel, PlotTexel, NearestX, NearestY, Into, Sampling.Offset, Sampling.Step;
    IntoInside(x, l.dst.w, l.dst.x, l.src.w);
    IntoInside(y, l.dst.h, l.dst.y, l.src.h);
    PixelAt(depth, l, x, y, below);
  }

  lemma PixelAt(depth: Depth, l: Layer, x: int, y: int, below: Word)
    requires l.Covers(x, y)
    ensures FilteredPixel(depth, l, x, y, below)
         == FilteredAt(depth, l, Sampling.Offset(x - l.dst.x, Sampling.Step(l.src.w, l.dst.w)),
                       Sampling.Offset(y - l.dst.y, Sampling.Step(l.src.h, l.dst.h)), below)
  {
    hide FilteredAt, Sampling.Offset, Sampling.Step;
  }

  lemma MeanAtPlace(depth: Depth, l: Layer, cx: int, cy: int, below: Word)
    requires PlaceInside(l, cx, cy)
    ensures ShowsMeanAt(FilteredAt(depth, l, cx, cy, below), depth, l, cx, cy, below)
  {
    hide PlotFiltered, ShowsMean, Fraction, FilteredX, FilteredY, MaxSourceX, MaxSourceY, Min;
    FractionIsTopBits(cx);
    FractionIsTopBits(cy);
    PlaceOf(l, cx, cy);
    PlotShowsMean(depth, l, FilteredX(l, cx), Min(FilteredX(l, cx) + 1, MaxSourceX(l)),
                  FilteredY(l, cy), Min(FilteredY(l, cy) + 1, MaxSourceY(l)), Fraction(cx), Fraction(cy), below);
  }

  /** None of the clamps of the filtering loop changes such a place. */
  lemma PlaceOf(l: Layer, cx: int, cy: int)
    requires PlaceInside(l, cx, cy)
    ensures var sx, sy := l.src.x + cx / 0x1_0000, l.src.y + cy / 0x1_0000;
      && FilteredX(l, cx) == sx && FilteredY(l, cy) == sy
      && Min(sx + 1, MaxSourceX(l)) == (if sx + 1 < l.src.x + l.src.w then sx + 1 else sx)
      && Min(sy + 1, MaxSourceY(l)) == (if sy + 1 < l.src.y + l.src.h then sy + 1 else sy)
  {
  }

  lemma PlotShowsMean(depth: Depth, l: Layer, sx: int, right: int, sy: int, lower: int, fx: nat, fy: nat, below: Word)
    requires 0 <= sx < l.content.width && 0 <= right < l.content.width
    requires 0 <= sy < l.content.height && 0 <= lower < l.content.height && fx < 256 && fy < 256
    ensures var rows := l.content.rows;
      ShowsMean(PlotFiltered(depth, l, sx, right, sy, lower, fx, fy, below), depth, l.content,
                rows[sy][sx], rows[sy][right], rows[lower][sx], rows[lower][right], fx, fy, below)
  {
    hide Bilinear565, BilinearArgb, Blend, Rgb565ToArgb;
  }

  /** At a texel the mean is that texel. */
  lemma MeanAtTexel(c00: Word, c10: Word, c01: Word, c11: Word)
    ensures c00 < 0x1_0000 ==> Bilinear565(c00, c10, c01, c11, 0, 0) == c00
    ensures c00 < 0x1_0000_0000 ==> BilinearArgb(c00, c10, c01, c11, 0, 0) == c00
  {
    hide BilinearChannel;
    BilinearOnGrid(Red565(c00), Red565(c10), Red565(c01), Red565(c11), 0);
    BilinearOnGrid(Green565(c00), Green565(c10), Green565(c01), Green565(c11), 0);
    BilinearOnGrid(Blue565(c00), Blue565(c10), Blue565(c01), Blue565(c11), 0);
    BilinearOnGrid(Alpha(c00), Alpha(c10), Alpha(c01), Alpha(c11), 0);
    BilinearOnGrid(Red(c00), Red(c10), Red(c01), Red(c11), 0);
    BilinearOnGrid(Green(c00), Green(c10), Green(c01), Green(c11), 0);
    BilinearOnGrid(Blue(c00), Blue(c10), Blue(c01), Blue(c11), 0);
    if c00 < 0x1_0000 {
      Unpack565(c00);
    }
    if c00 < 0x1_0000_0000 {
      UnpackArgb(c00);
    }
    hide Red565, Green565, Blue565, Alpha, Red, Green, Blue;
  }

  lemma UnpackArgb(argb: Word)
    requires argb < 0x1_0000_0000
    ensures PackArgb(Alpha(argb), Red(argb), Green(argb), Blue(argb)) == argb
  {
    ByteTwice(argb);
    ByteTwice(argb / 0x100);
    var high := argb / 0x100_0000;
    assert argb / 0x1_0000 == high * 0x100 + Red(argb);
  }

  lemma ByteTwice(n: nat)
    ensures n / 0x100 / 0x100 == n / 0x1_0000
    ensures n / 0x100 == n / 0x1_0000 * 0x100 + n / 0x100 % 0x100
  {
  }

  /** On a row of texels only that row matters, and on a column only that column. */
  lemma MeanAlongEdge(c00: Word, c10: Word, c01: Word, c11: Word, other: Word, another: Word, f: nat)
    requires f < 256
    ensures Bilinear565(c00, c10, c01, c11, f, 0) == Bilinear565(c00, c10, other, another, f, 0)
    ensures Bilinear565(c00, c10, c01, c11, 0, f) == Bilinear565(c00, other, c01, another, 0, f)
    ensures BilinearArgb(c00, c10, c01, c11, f, 0) == BilinearArgb(c00, c10, other, another, f, 0)
    ensures BilinearArgb(c00, c10, c01, c11, 0, f) == BilinearArgb(c00, other, c01, another, 0, f)
  {
    forall a: nat, b: nat, c: nat, d: nat
      ensures BilinearChannel(a, b, c, d, f, 0) == Lerp(a, b, f) && BilinearChannel(a, b, c, d, 0, f) == Lerp(a, c, f)
    {
      BilinearOnGrid(a, b, c, d, f);
    }
    hide BilinearChannel, Lerp, Red565, Green565, Blue565, Alpha, Red, Green, Blue, PackArgb, Pack565;
  }

  // ------------------------------------------------------------ all layers

  /** The layers after `k` have nothing at the pixel: layer `k` is drawn last. */
  lemma {:induction false} DrawnLast(depth: Depth, interpolation: bool, layers: seq<Layer>, k: nat, x: int, y: int)
    requires k < |layers| && forall j | k < j < |layers| :: !layers[j].Covers(x, y)
    ensures RenderPixel(depth, interpolation, layers, x, y)
         == DrawPixel(depth, interpolation, layers[k], x, y, RenderPixel(depth, interpolation, layers[..k], x, y))
  {
    var n := |layers| - 1;
    if k < n {
      DrawnLast(depth, interpolation, layers[..n], k, x, y);
      assert layers[..n][..k] == layers[..k];
    }
  }

  /** What the highest layer at a pixel shows is what the picture shows: its texel, over
      the picture of the layers below it. */
  lemma HighestLayerShows(depth: Depth, interpolation: bool, layers: seq<Layer>, table: seq<Option<Layer>>,
                          l: Layer, x: int, y: int)
    requires ZOrder(layers, table) && l in Showing(table) && Inside(l, x, y) && !Scaled(l)
    requires forall o | o in Showing(table) && o.Covers(x, y) && o != l :: o.z < l.z
    ensures exists k :: 0 <= k < |layers| && layers[k] == l &&
              ShowsTexel(RenderPixel(depth, interpolation, layers, x, y), depth, l.content,
                         l.content.rows[l.src.y + (y - l.dst.y)][l.src.x + (x - l.dst.x)],
                         RenderPixel(depth, interpolation, layers[..k], x, y))
  {
    hide ShowsTexel, Showing;
    assert l in Elements(layers);
    var k :| 0 <= k < |layers| && layers[k] == l;
    forall j | k < j < |layers|
      ensures !layers[j].Covers(x, y)
    {
      assert layers[j] in Elements(layers) && l.z < layers[j].z;
    }
    DrawnLast(depth, interpolation, layers, k, x, y);
    UnscaledTexelDrawn(depth, interpolation, l, x, y, RenderPixel(depth, interpolation, layers[..k], x, y));
  }

  /** A pixel at which nothing shows is black. */
  lemma {:induction false} NothingShows(depth: Depth, interpolation: bool, layers: seq<Layer>, x: int, y: int)
    requires forall l | l in layers :: !l.Covers(x, y)
    ensures RenderPixel(depth, interpolation, layers, x, y) == 0
  {
    if layers != [] {
      NothingShows(depth, interpolation, layers[..|layers| - 1], x, y);
    }
  }

  // ------------------------------------------------------ there is a z-order

  function Place(l: Layer, layers: seq<Layer>): seq<Layer> {
    if layers == [] then [l]
    else if l.z < layers[0].z then [l] + layers
    else [layers[0]] + Place(l, layers[1..])
  }

  lemma {:induction false} PlaceKeepsOrder(l: Layer, layers: seq<Layer>)
    requires StrictlyByZ(layers) && forall o | o in layers :: o.z != l.z
    ensures StrictlyByZ(Place(l, layers))
    ensures forall o :: o in Place(l, layers) <==> o == l || o in layers
  {
    if layers != [] && l.z > layers[0].z {
      PlaceKeepsOrder(l, layers[1..]);
      assert forall o :: o in layers <==> o == layers[0] || o in layers[1..];
      var placed := Place(l, layers[1..]);
      forall j | 0 <= j < |placed|
        ensures layers[0].z < placed[j].z
      {
        assert placed[j] in placed;
      }
    }
  }

  /** Layers with distinct z have a z-order, so the picture of a table is never vacuous. */
  lemma {:induction false} ZOrderExists(table: seq<Option<Layer>>)
    requires DistinctZ(table)
    ensures exists layers :: ZOrder(layers, table)
  {
    if table == [] {
      assert ZOrder([], table);
    } else {
      var n := |table| - 1;
      ZOrderExists(table[..n]);
      var before :| ZOrder(before, table[..n]);
      if table[n].Some? && table[n].value.showing {
        var l := table[n].value;
        assert Showing(table) == Showing(table[..n]) + {l};
        forall o: Layer | o in before
          ensures o.z != l.z
        {
          assert o in Elements(before);
        }
        PlaceKeepsOrder(l, before);
        assert ZOrder(Place(l, before), table);
      } else {
        assert Showing(table) == Showing(table[..n]);
        assert ZOrder(before, table);
      }
    }
  }
}
