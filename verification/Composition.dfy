/** What a software composition is supposed to show: the colour of one screen
    pixel as a function of the layers, with no reference to dirty rectangles,
    snapshots or buffers. */
module Composition {
  import opened Wrappers
  import opened PixelFormat
  import Sampling

  /** A texel matrix of the given size; palette indices are bytes. */
  predicate TexelRows(rows: seq<seq<nat>>, width: nat, height: nat, indexed: bool) {
    && |rows| == height
    && (forall y | 0 <= y < height :: |rows[y]| == width)
    && (indexed ==> forall y, x | 0 <= y < height && 0 <= x < width :: rows[y][x] < 256)
  }

  datatype Rect = Rect(x: int, y: int, w: int, h: int)
  {
    predicate Contains(px: int, py: int) {
      x <= px < x + w && y <= py < y + h
    }
  }

  /** What a layer draws from.  `rows` holds palette indices when `indexed`, and
      RGB565 words otherwise. */
  datatype Content = Content(transparent: bool, indexed: bool,
                             pal565: seq<Word>, palArgb: seq<Word>,
                             width: nat, height: nat, rows: seq<seq<nat>>)
  {
    predicate WellFormed() {
      && |pal565| == 256 && |palArgb| == 256
      && TexelRows(rows, width, height, indexed)
    }
  }

  /** One framebuffer layer: the part `src` of its content is shown at `dst`. */
  datatype LayerRecord = LayerRecord(z: int, showing: bool, generation: nat,
                                     content: Content, src: Rect, dst: Rect)
  {
    predicate WellFormed() {
      content.WellFormed() && 0 <= src.x && 0 <= src.y
    }

    /** The destination rectangle contains the pixel and there is something to draw. */
    predicate Covers(x: int, y: int) {
      dst.Contains(x, y) && 0 < src.w && 0 < src.h && 0 < content.width && 0 < content.height
    }

    predicate Interpolated(interpolation: bool) {
      && interpolation && (src.w != dst.w || src.h != dst.h)
      && (!content.transparent || content.indexed)
    }
  }

  const BLANK := Content(false, true, seq(256, _ => 0), seq(256, _ => 0), 0, 0, [])

  type Layer = l: LayerRecord | l.WellFormed()
    witness LayerRecord(0, false, 0, BLANK, Rect(0, 0, 0, 0), Rect(0, 0, 0, 0))

  function Clamp(v: int, lo: int, hi: int): int {
    var atLeast := if v < lo then lo else v;
    if atLeast > hi then hi else atLeast
  }

  /** Colour lookup for a layer whose texel is drawn without filtering. */
  function PlotTexel(depth: Depth, l: Layer, sx: int, sy: int, below: Word): Word
    requires 0 <= sx < l.content.width && 0 <= sy < l.content.height
  {
    var texel := l.content.rows[sy][sx];
    if !l.content.indexed then StoreRgb565(depth, texel)
    else if !l.content.transparent then StoreRgb565(depth, l.content.pal565[texel])
    else if Alpha(l.content.palArgb[texel]) == 0 then below
    else StoreArgb(depth, l.content.palArgb[texel])
  }

  /** Filtered colour from the four texels at columns sx0, sx1 and rows sy0, sy1. */
  function PlotFiltered(depth: Depth, l: Layer, sx0: int, sx1: int, sy0: int, sy1: int,
                        fx: nat, fy: nat, below: Word): Word
    requires 0 <= sx0 < l.content.width && 0 <= sx1 < l.content.width
    requires 0 <= sy0 < l.content.height && 0 <= sy1 < l.content.height
    requires fx < 256 && fy < 256
  {
    var t00, t10 := l.content.rows[sy0][sx0], l.content.rows[sy0][sx1];
    var t01, t11 := l.content.rows[sy1][sx0], l.content.rows[sy1][sx1];
    if !l.content.indexed then
      StoreRgb565(depth, Bilinear565(t00, t10, t01, t11, fx, fy))
    else if l.content.transparent then
      Blend(depth, below,
            BilinearArgb(l.content.palArgb[t00], l.content.palArgb[t10],
                         l.content.palArgb[t01], l.content.palArgb[t11], fx, fy))
    else
      StoreRgb565(depth,
                  Bilinear565(l.content.pal565[t00], l.content.pal565[t10],
                              l.content.pal565[t01], l.content.pal565[t11], fx, fy))
  }

  /** The column sampled without filtering, and the row: clamped to the framebuffer. */
  function NearestX(l: LayerRecord, x: int): int
    requires 0 < l.src.w && 0 < l.dst.w && l.dst.x <= x
  {
    Clamp(l.src.x + Sampling.Index(x - l.dst.x, Sampling.Step(l.src.w, l.dst.w)), 0, l.content.width - 1)
  }

  function NearestY(l: LayerRecord, y: int): int
    requires 0 < l.src.h && 0 < l.dst.h && l.dst.y <= y
  {
    Clamp(l.src.y + Sampling.Index(y - l.dst.y, Sampling.Step(l.src.h, l.dst.h)), 0, l.content.height - 1)
  }

  function MaxSourceX(l: LayerRecord): int {
    if l.src.x + l.src.w - 1 < l.content.width - 1 then l.src.x + l.src.w - 1 else l.content.width - 1
  }

  function MaxSourceY(l: LayerRecord): int {
    if l.src.y + l.src.h - 1 < l.content.height - 1 then l.src.y + l.src.h - 1 else l.content.height - 1
  }

  /** The left of the two columns that are filtered, given the coordinate in the source
      rectangle, and the upper of the two rows: clamped to the source rectangle. */
  function FilteredX(l: LayerRecord, xAcc: int): int {
    Clamp(l.src.x + xAcc / Sampling.ONE, l.src.x, MaxSourceX(l))
  }

  function FilteredY(l: LayerRecord, yAcc: int): int {
    Clamp(l.src.y + yAcc / Sampling.ONE, l.src.y, MaxSourceY(l))
  }

  /** Eight fraction bits of a 16.16 coordinate. */
  function Fraction(coordinate: int): (f: nat)
    ensures f < 256
  {
    coordinate / 256 % 256
  }

  /** The filtered colour at a 16.16 place in the source rectangle. */
  function FilteredAt(depth: Depth, l: Layer, xAcc: int, yAcc: int, below: Word): Word
    requires 0 < l.src.w && 0 < l.src.h && 0 < l.content.width && 0 < l.content.height
  {
    var sx, sy := FilteredX(l, xAcc), FilteredY(l, yAcc);
    var sx1, sy1 := Min(sx + 1, MaxSourceX(l)), Min(sy + 1, MaxSourceY(l));
    PlotFiltered(depth, l, sx, sx1, sy, sy1, Fraction(xAcc), Fraction(yAcc), below)
  }

  function FilteredPixel(depth: Depth, l: Layer, x: int, y: int, below: Word): Word
    requires l.Covers(x, y)
  {
    FilteredAt(depth, l, Sampling.Offset(x - l.dst.x, Sampling.Step(l.src.w, l.dst.w)),
               Sampling.Offset(y - l.dst.y, Sampling.Step(l.src.h, l.dst.h)), below)
  }

  /** The colour of pixel (x, y) after drawing layer `l` over `below`. */
  function DrawPixel(depth: Depth, interpolation: bool, l: Layer, x: int, y: int, below: Word): Word {
    if !l.Covers(x, y) then below
    else if l.Interpolated(interpolation) then FilteredPixel(depth, l, x, y, below)
    else PlotTexel(depth, l, NearestX(l, x), NearestY(l, y), below)
  }

  /** Clearing a pixel to black and drawing the layers in list order. */
  function RenderPixel(depth: Depth, interpolation: bool, layers: seq<Layer>, x: int, y: int): Word {
    if layers == [] then 0
    else
      var n := |layers| - 1;
      DrawPixel(depth, interpolation, layers[n], x, y,
                RenderPixel(depth, interpolation, layers[..n], x, y))
  }

  /** When the source rectangle lies in the framebuffer the clamps never fire:
      the sampled texel is the closed-form one and lies in that rectangle. */
  lemma ClampNeverFires(l: Layer, x: int, y: int)
    requires l.Covers(x, y)
    requires l.src.x + l.src.w <= l.content.width && l.src.y + l.src.h <= l.content.height
    ensures NearestX(l, x) == l.src.x + Sampling.Index(x - l.dst.x, Sampling.Step(l.src.w, l.dst.w))
    ensures NearestY(l, y) == l.src.y + Sampling.Index(y - l.dst.y, Sampling.Step(l.src.h, l.dst.h))
    ensures l.src.x <= NearestX(l, x) < l.src.x + l.src.w
    ensures l.src.y <= NearestY(l, y) < l.src.y + l.src.h
  {
    Sampling.IndexInside(l.src.w, l.dst.w, x - l.dst.x);
    Sampling.IndexInside(l.src.h, l.dst.h, y - l.dst.y);
  }

  /** Both columns that are filtered for a pixel lie in the framebuffer. */
  predicate ColumnsInside(l: LayerRecord, x: int)
    requires 0 < l.src.w && 0 < l.dst.w
  {
    var sx := FilteredX(l, Sampling.Offset(x - l.dst.x, Sampling.Step(l.src.w, l.dst.w)));
    0 <= sx < l.content.width && 0 <= Min(sx + 1, MaxSourceX(l)) < l.content.width
  }

  predicate RowsInside(l: LayerRecord, y: int)
    requires 0 < l.src.h && 0 < l.dst.h
  {
    var sy := FilteredY(l, Sampling.Offset(y - l.dst.y, Sampling.Step(l.src.h, l.dst.h)));
    0 <= sy < l.content.height && 0 <= Min(sy + 1, MaxSourceY(l)) < l.content.height
  }

  /** Filtering stays in the framebuffer on every pixel of the destination if and only if
      the source rectangle does not begin before it; where it ends does not matter. */
  lemma FilteringStaysInsideIff(l: LayerRecord)
    requires 0 < l.src.w && 0 < l.dst.w && 0 < l.content.width
    requires 0 < l.src.h && 0 < l.dst.h && 0 < l.content.height
    ensures (forall x | l.dst.x <= x < l.dst.x + l.dst.w :: ColumnsInside(l, x)) <==> 0 <= l.src.x
    ensures (forall y | l.dst.y <= y < l.dst.y + l.dst.h :: RowsInside(l, y)) <==> 0 <= l.src.y
  {
    if forall x | l.dst.x <= x < l.dst.x + l.dst.w :: ColumnsInside(l, x) {
      assert ColumnsInside(l, l.dst.x);
    }
    if forall y | l.dst.y <= y < l.dst.y + l.dst.h :: RowsInside(l, y) {
      assert RowsInside(l, l.dst.y);
    }
  }

  /** The unfiltered loop has no such condition; one column to the left is enough for the
      filtering loop to read outside its rows. */
  lemma OneColumnOutside(l: LayerRecord)
    requires l.content.width == l.content.height == 1 && !l.content.transparent
    requires l.src == Rect(-1, 0, 2, 1) && l.dst == Rect(0, 0, 4, 1)
    ensures l.Interpolated(true) && NearestX(l, 0) == 0 && FilteredX(l, Sampling.Offset(0, Sampling.Step(2, 4))) == -1
    ensures !ColumnsInside(l, 0)
  {
  }

  /** An unscaled layer is copied texel for texel. */
  lemma UnscaledIsCopy(l: Layer, x: int, y: int)
    requires l.Covers(x, y)
    requires l.src.w == l.dst.w && l.src.h == l.dst.h
    requires l.src.x + l.src.w <= l.content.width && l.src.y + l.src.h <= l.content.height
    ensures NearestX(l, x) == l.src.x + (x - l.dst.x)
    ensures NearestY(l, y) == l.src.y + (y - l.dst.y)
  {
    ClampNeverFires(l, x, y);
    Sampling.IndexUnscaled(l.src.w, x - l.dst.x);
    Sampling.IndexUnscaled(l.src.h, y - l.dst.y);
  }

  // ---------------------------------------------------------------- z-order

  ghost predicate StrictlyByZ(layers: seq<Layer>) {
    forall i, j | 0 <= i < j < |layers| :: layers[i].z < layers[j].z
  }

  /** The layers of the table that are showing. */
  ghost function Showing(table: seq<Option<Layer>>): set<Layer> {
    set i | 0 <= i < |table| && table[i].Some? && table[i].value.showing :: table[i].value
  }

  ghost predicate DistinctZ(table: seq<Option<Layer>>) {
    forall i, j | 0 <= i < j < |table| && table[i].Some? && table[j].Some? &&
                  table[i].value.showing && table[j].value.showing ::
      table[i].value.z != table[j].value.z
  }

  ghost function Elements(layers: seq<Layer>): set<Layer> {
    set l | l in layers
  }

  /** `layers` lists exactly the showing layers of the table, lowest z first. */
  ghost predicate ZOrder(layers: seq<Layer>, table: seq<Option<Layer>>) {
    StrictlyByZ(layers) && Elements(layers) == Showing(table)
  }

  /** The picture: every pixel is the from-scratch rendering of the showing layers. */
  ghost predicate ShowsFullRedraw(pixel: Word, depth: Depth, interpolation: bool,
                                  table: seq<Option<Layer>>, x: int, y: int) {
    forall layers :: ZOrder(layers, table) ==>
      pixel == RenderPixel(depth, interpolation, layers, x, y)
  }

  /** A set of layers has at most one listing in strict z-order. */
  lemma {:induction false} ZOrderUnique(a: seq<Layer>, b: seq<Layer>)
    requires StrictlyByZ(a) && StrictlyByZ(b)
    requires Elements(a) == Elements(b)
    ensures a == b
  {
    EmptyElements(a);
    EmptyElements(b);
    if a != [] {
      var a', b' := a[..|a| - 1], b[..|b| - 1];
      LastIsTop(a, b);
      ButLast(a);
      ButLast(b);
      ZOrderUnique(a', b');
      assert a == a' + [a[|a| - 1]];
      assert b == b' + [b[|b| - 1]];
    }
  }

  lemma EmptyElements(a: seq<Layer>)
    ensures a == [] <==> Elements(a) == {}
  {
    if a != [] {
      assert a[0] in Elements(a);
    }
  }

  lemma LastIsTop(a: seq<Layer>, b: seq<Layer>)
    requires a != [] && b != []
    requires StrictlyByZ(a) && StrictlyByZ(b) && Elements(a) == Elements(b)
    ensures a[|a| - 1] == b[|b| - 1]
  {
    var ta, tb := a[|a| - 1], b[|b| - 1];
    assert ta in Elements(b) && tb in Elements(a);
    var i :| 0 <= i < |b| && b[i] == ta;
    var j :| 0 <= j < |a| && a[j] == tb;
    assert ta.z <= tb.z <= ta.z;
  }

  lemma ButLast(a: seq<Layer>)
    requires a != [] && StrictlyByZ(a)
    ensures StrictlyByZ(a[..|a| - 1])
    ensures Elements(a[..|a| - 1]) == Elements(a) - {a[|a| - 1]}
  {
    var n := |a| - 1;
    forall l | l in Elements(a) - {a[n]}
      ensures l in Elements(a[..n])
    {
      var i :| 0 <= i < |a| && a[i] == l;
      assert a[..n][i] == l;
    }
  }

  // ------------------------------------------------ layers away from a pixel

  function CoveringPart(layers: seq<Layer>, x: int, y: int): seq<Layer> {
    if layers == [] then []
    else
      var n := |layers| - 1;
      CoveringPart(layers[..n], x, y) + if layers[n].Covers(x, y) then [layers[n]] else []
  }

  /** Layers that do not cover a pixel play no part in its colour. */
  lemma {:induction false} OnlyCoveringMatters(depth: Depth, interpolation: bool, layers: seq<Layer>, x: int, y: int)
    ensures RenderPixel(depth, interpolation, layers, x, y)
         == RenderPixel(depth, interpolation, CoveringPart(layers, x, y), x, y)
  {
    if layers != [] {
      var n := |layers| - 1;
      OnlyCoveringMatters(depth, interpolation, layers[..n], x, y);
      if layers[n].Covers(x, y) {
        var part := CoveringPart(layers[..n], x, y);
        assert (part + [layers[n]])[..|part|] == part;
      } else {
        assert CoveringPart(layers, x, y) == CoveringPart(layers[..n], x, y);
      }
    }
  }

  lemma {:induction false} CoveringPartOrdered(layers: seq<Layer>, x: int, y: int)
    requires StrictlyByZ(layers)
    ensures StrictlyByZ(CoveringPart(layers, x, y))
    ensures Elements(CoveringPart(layers, x, y)) == set l | l in Elements(layers) && l.Covers(x, y)
  {
    if layers != [] {
      var n := |layers| - 1;
      ButLast(layers);
      CoveringPartOrdered(layers[..n], x, y);
      var part := CoveringPart(layers[..n], x, y);
      forall i | 0 <= i < |part|
        ensures part[i].z < layers[n].z
      {
        assert part[i] in Elements(part);
        assert part[i] in Elements(layers[..n]);
      }
      var all := CoveringPart(layers, x, y);
      assert Elements(all) == Elements(part) + if layers[n].Covers(x, y) then {layers[n]} else {} by {
        if layers[n].Covers(x, y) {
          assert all == part + [layers[n]];
        } else {
          assert all == part;
        }
      }
    }
  }

  /** Two layer tables agree at a pixel when every slot either holds the same
      layer in both, or shows nothing over that pixel in either. */
  ghost predicate SlotAgrees(a: Option<Layer>, b: Option<Layer>, x: int, y: int) {
    || a == b
    || (&& (a.Some? && a.value.showing ==> !a.value.Covers(x, y))
        && (b.Some? && b.value.showing ==> !b.value.Covers(x, y)))
  }

  lemma ShowingCoverage(table: seq<Option<Layer>>, table': seq<Option<Layer>>, x: int, y: int, l: Layer)
    requires |table| == |table'|
    requires forall i | 0 <= i < |table| :: SlotAgrees(table[i], table'[i], x, y)
    requires l in Showing(table) && l.Covers(x, y)
    ensures l in Showing(table')
  {
    var i :| 0 <= i < |table| && table[i] == Some(l);
    assert SlotAgrees(table[i], table'[i], x, y);
  }

  /** Incremental composition is sound at every pixel the edit did not touch:
      from-scratch rendering gives the same colour before and after. */
  lemma UntouchedPixelUnchanged(depth: Depth, interpolation: bool,
                                table: seq<Option<Layer>>, table': seq<Option<Layer>>,
                                layers: seq<Layer>, layers': seq<Layer>, x: int, y: int)
    requires |table| == |table'|
    requires forall i | 0 <= i < |table| :: SlotAgrees(table[i], table'[i], x, y)
    requires ZOrder(layers, table) && ZOrder(layers', table')
    ensures RenderPixel(depth, interpolation, layers, x, y)
         == RenderPixel(depth, interpolation, layers', x, y)
  {
    var part, part' := CoveringPart(layers, x, y), CoveringPart(layers', x, y);
    OnlyCoveringMatters(depth, interpolation, layers, x, y);
    OnlyCoveringMatters(depth, interpolation, layers', x, y);
    CoveringPartOrdered(layers, x, y);
    CoveringPartOrdered(layers', x, y);
    forall l: Layer | l.Covers(x, y)
      ensures l in Showing(table) <==> l in Showing(table')
    {
      if l in Showing(table) {
        ShowingCoverage(table, table', x, y, l);
      }
      if l in Showing(table') {
        ShowingCoverage(table', table, x, y, l);
      }
    }
    ZOrderUnique(part, part');
  }
}
