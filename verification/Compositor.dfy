/** The incremental software compositor: one composition surface, per-layer
    snapshots, a dirty rectangle per present and two scanout buffers that catch
    up through pending rectangles. */
module Compositor {
  import opened Wrappers
  import opened PixelFormat
  import opened Composition
  import opened DrawnPixels
  import opened FrameBufferLayers
  import opened DirtyRegion
  import Sampling

  const FB_NUM_LAYERS: nat := 4
  const KMS_BUFFER_COUNT: nat := 2

  datatype Snapshot = Snapshot(layer: FrameBufferLayer?, generation: nat, z: int, dst: Rect, showing: bool)

  datatype Event =
    | RegisterLayer(slot: nat, content: Content)
    | EditLayer(slot: nat, edit: Edit)
    | SetInterpolation(enable: bool)
    | Capture(picture: seq<seq<Word>>)
    | Present(hardware: Hardware)

  /** How the display hardware answers a present request. */
  datatype Hardware =
    | Fenced                                     // the previous present could not be fenced
    | PostProcessed(overwritten: seq<seq<Word>>) // presented by V3D, which draws into the back buffer
    | DirectScanout                              // the layers were scanned out without composition
    | Software(presented: bool)                  // the composition is used; scanout succeeds or fails

  function Entry(l: FrameBufferLayer?): Option<Layer>
    requires l != null ==> l.Valid()
    reads l
  {
    if l == null then None else Some(l.Record())
  }

  /** The registered layers are well formed and registered once. */
  ghost predicate LayersOk(layers: seq<FrameBufferLayer?>)
    reads layers
  {
    && |layers| == FB_NUM_LAYERS
    && (forall l | l in layers && l != null :: l.Valid())
    && (forall i, j | 0 <= i < j < |layers| :: layers[i] != null ==> layers[i] != layers[j])
  }

  ghost function TableOf(layers: seq<FrameBufferLayer?>): (table: seq<Option<Layer>>)
    requires LayersOk(layers)
    reads layers
    ensures |table| == FB_NUM_LAYERS
    ensures forall i | 0 <= i < FB_NUM_LAYERS :: table[i] == Entry(layers[i])
  {
    [Entry(layers[0]), Entry(layers[1]), Entry(layers[2]), Entry(layers[3])]
  }

  /** A snapshot describes the layer composed in its slot, and an unchanged
      generation on a showing layer means unchanged content. */
  ghost predicate SnapshotHolds(s: Snapshot, entry: Option<Layer>, l: FrameBufferLayer?)
    reads l
  {
    if s.layer == null then entry == None && !s.showing
    else
      && entry.Some? && l != null
      && var v := entry.value;
         && s == Snapshot(s.layer, v.generation, v.z, v.dst, v.showing)
         && (l == s.layer ==>
               && v.generation <= l.generation
               && (v.generation == l.generation && l.showing ==> l.content == v.content && l.src == v.src))
  }

  ghost predicate SnapshotsHold(snapshots: seq<Snapshot>, composed: seq<Option<Layer>>, layers: seq<FrameBufferLayer?>)
    reads layers
  {
    && |snapshots| == |composed| == |layers| == FB_NUM_LAYERS
    && forall i | 0 <= i < FB_NUM_LAYERS :: SnapshotHolds(snapshots[i], composed[i], layers[i])
  }

  function SnapshotOf(l: FrameBufferLayer?): Snapshot
    reads l
  {
    if l == null then Snapshot(null, 0, 0, Rect(0, 0, 0, 0), false)
    else Snapshot(l, l.generation, l.z, l.dst, l.showing)
  }

  function AllSnapshots(layers: seq<FrameBufferLayer?>): (snapshots: seq<Snapshot>)
    requires |layers| == FB_NUM_LAYERS
    reads layers
    ensures |snapshots| == FB_NUM_LAYERS
  {
    [SnapshotOf(layers[0]), SnapshotOf(layers[1]), SnapshotOf(layers[2]), SnapshotOf(layers[3])]
  }

  ghost predicate Sized(a: array2<Word>, width: nat, height: nat) {
    a.Length0 == height && a.Length1 == width
  }

  /** The surface is the from-scratch rendering of the layers in list order. */
  ghost predicate Renders(a: array2<Word>, width: nat, height: nat, depth: Depth, interpolation: bool, order: seq<Layer>)
    requires Sized(a, width, height)
    reads a
  {
    forall x, y | InScreen(x, y, width, height) ::
      a[y, x] == RenderPixel(depth, interpolation, order, x, y)
  }

  /** The two surfaces agree on the screen outside the rectangle. */
  ghost predicate AgreeOutside(a: array2<Word>, b: array2<Word>, width: nat, height: nat, rect: DirtyRect)
    requires Sized(a, width, height) && Sized(b, width, height)
    reads a, b
  {
    forall x, y | InScreen(x, y, width, height) && !rect.Contains(x, y) :: a[y, x] == b[y, x]
  }

  /** Outside the rectangle every slot shows what it showed when composed. */
  ghost predicate Settled(composed: seq<Option<Layer>>, table: seq<Option<Layer>>, i: nat,
                          width: nat, height: nat, dirty: DirtyRect)
    requires i < |composed| && i < |table|
  {
    forall x, y | InScreen(x, y, width, height) && !dirty.Contains(x, y) ::
      SlotAgrees(composed[i], table[i], x, y)
  }

  lemma SettledMonotone(composed: seq<Option<Layer>>, table: seq<Option<Layer>>, n: nat,
                        width: nat, height: nat, dirty: DirtyRect, wider: DirtyRect)
    requires n <= |composed| && n <= |table|
    requires forall x, y | InScreen(x, y, width, height) && !wider.Contains(x, y) :: !dirty.Contains(x, y)
    ensures forall k | 0 <= k < n && Settled(composed, table, k, width, height, dirty) ::
              Settled(composed, table, k, width, height, wider)
  {
  }

  // ------------------------------------------------------ pixels from offsets

  /** The texel the unfiltered loop reads at a pixel is the one the picture asks for. */
  lemma NearestFrom(depth: Depth, interpolation: bool, l: Layer, x: int, y: int, below: Word)
    requires l.Covers(x, y) && !l.Interpolated(interpolation)
    ensures var xAcc := Sampling.Offset(x - l.dst.x, Sampling.Step(l.src.w, l.dst.w));
      var yAcc := Sampling.Offset(y - l.dst.y, Sampling.Step(l.src.h, l.dst.h));
      var sx := Clamp(l.src.x + xAcc / Sampling.ONE, 0, l.content.width - 1);
      var sy := Clamp(l.src.y + yAcc / Sampling.ONE, 0, l.content.height - 1);
      && 0 <= sx < l.content.width && 0 <= sy < l.content.height
      && PlotTexel(depth, l, sx, sy, below) == DrawPixel(depth, interpolation, l, x, y, below)
  {
    hide PlotTexel, Sampling.Step;
  }

  /** So are the four texels and fractions of the filtering loop. */
  lemma FilteredFrom(depth: Depth, interpolation: bool, l: Layer, x: int, y: int, below: Word)
    requires l.Covers(x, y) && l.Interpolated(interpolation)
    ensures var xAcc := Sampling.Offset(x - l.dst.x, Sampling.Step(l.src.w, l.dst.w));
      var yAcc := Sampling.Offset(y - l.dst.y, Sampling.Step(l.src.h, l.dst.h));
      var sx := Clamp(l.src.x + xAcc / Sampling.ONE, l.src.x, MaxSourceX(l));
      var sy := Clamp(l.src.y + yAcc / Sampling.ONE, l.src.y, MaxSourceY(l));
      var sx1, sy1 := Min(sx + 1, MaxSourceX(l)), Min(sy + 1, MaxSourceY(l));
      && 0 <= sx < l.content.width && 0 <= sx1 < l.content.width
      && 0 <= sy < l.content.height && 0 <= sy1 < l.content.height
      && PlotFiltered(depth, l, sx, sx1, sy, sy1, Fraction(xAcc), Fraction(yAcc), below)
           == DrawPixel(depth, interpolation, l, x, y, below)
  {
    hide PlotFiltered, Sampling.Step;
  }

  class SoftwareCompositor {
    const width: nat
    const height: nat
    const depth: Depth
    const kmsActive: bool
    const compose: array2<Word>
    const screen: array2<Word>
    const kms: seq<array2<Word>>

    var layers: seq<FrameBufferLayer?>
    var interpolation: bool
    var front: nat

    var snapshots: seq<Snapshot>
    var pending: seq<DirtyRect>
    var compositionValid: bool
    var compositionInterpolation: bool

    // The layer table, and its z-order, as they were when the composition surface was last drawn.
    ghost var composed: seq<Option<Layer>>
    ghost var order: seq<Layer>

    // ------------------------------------------------------------ invariant

    ghost predicate Shape()
      reads this
    {
      && Sized(compose, width, height) && Sized(screen, width, height) && compose != screen
      && |kms| == KMS_BUFFER_COUNT && kms[0] != kms[1]
      && (forall b | 0 <= b < |kms| :: Sized(kms[b], width, height) && kms[b] != compose && kms[b] != screen)
      && |layers| == |snapshots| == FB_NUM_LAYERS
      && |pending| == KMS_BUFFER_COUNT && (forall d | d in pending :: d.WithinScreen(width, height))
      && front < KMS_BUFFER_COUNT
    }

    /** The composition surface is the picture of the layers last composed. */
    ghost predicate SurfaceCurrent()
      requires Shape()
      reads this, compose
    {
      ZOrder(order, composed) && Renders(compose, width, height, depth, compositionInterpolation, order)
    }

    ghost predicate BuffersOwe()
      requires Shape()
      reads this, compose, kms
    {
      forall b | 0 <= b < KMS_BUFFER_COUNT :: AgreeOutside(kms[b], compose, width, height, pending[b])
    }

    /** Each scanout buffer agrees with the composition outside its pending rectangle. */
    ghost predicate BuffersAgree()
      requires Shape()
      reads this, compose, screen, kms
    {
      if kmsActive then BuffersOwe() else AgreeOutside(screen, compose, width, height, Clean)
    }

    /** What is known of a valid composition is true. */
    ghost predicate Sound()
      requires Shape() && LayersOk(layers)
      reads this, compose, screen, kms, layers
    {
      compositionValid ==>
        SurfaceCurrent() && BuffersAgree() && SnapshotsHold(snapshots, composed, layers)
    }

    ghost predicate Valid()
      reads this, compose, screen, kms, layers
    {
      Shape() && LayersOk(layers) && Sound()
    }

    ghost function Table(): seq<Option<Layer>>
      requires LayersOk(layers)
      reads this, layers
    {
      TableOf(layers)
    }

    /** Every pixel of the surface is the from-scratch rendering of the current layers. */
    ghost predicate ComposedFromScratch()
      requires Shape() && LayersOk(layers)
      reads this, compose, layers
    {
      forall x, y | InScreen(x, y, width, height) ::
        ShowsFullRedraw(compose[y, x], depth, interpolation, Table(), x, y)
    }

    constructor (width: nat, height: nat, depth: Depth, kmsActive: bool)
      ensures Valid() && !compositionValid
      ensures this.width == width && this.height == height && this.kmsActive == kmsActive
      ensures layers == [null, null, null, null]
      ensures fresh(compose) && fresh(screen) && fresh(kms)
    {
      this.width, this.height, this.depth, this.kmsActive := width, height, depth, kmsActive;
      compose := new Word[height, width]((i, j) => 0);
      screen := new Word[height, width]((i, j) => 0);
      var first := new Word[height, width]((i, j) => 0);
      var second := new Word[height, width]((i, j) => 0);
      kms := [first, second];
      layers := [null, null, null, null];
      interpolation, front := false, 0;
      var nothing := Snapshot(null, 0, 0, Rect(0, 0, 0, 0), false);
      snapshots := [nothing, nothing, nothing, nothing];
      pending := [Clean, Clean];
      compositionValid, compositionInterpolation := false, false;
      composed, order := [], [];
    }

    // -------------------------------------------------------------- drawing

    predicate InRegion(x: int, y: int, startX: int, endX: int, startY: int, endY: int) {
      startX <= x < endX && startY <= y < endY
    }

    /** The rows from `startY` on, and the pixels of row `y` up to `x`, show the layer. */
    twostate predicate DrawnUpTo(l: Layer, startX: int, endX: int, startY: int, y: int, x: int)
      requires Sized(compose, width, height)
      requires interpolation == old(interpolation)
      reads this, compose
    {
      forall px, py | InScreen(px, py, width, height) ::
        compose[py, px] == if InRegion(px, py, startX, endX, startY, y) || (py == y && startX <= px < x)
                           then DrawPixel(depth, interpolation, l, px, py, old(compose[py, px]))
                           else old(compose[py, px])
    }

    /** Draws one layer unfiltered in the given part of its destination. */
    method DrawLayerNearest(l: Layer, startX: int, endX: int, startY: int, endY: int, xStep: int, yStep: int)
      requires Sized(compose, width, height)
      requires 0 <= startX < endX <= width && 0 <= startY < endY <= height
      requires forall x, y | InRegion(x, y, startX, endX, startY, endY) :: l.Covers(x, y)
      requires l.Covers(startX, startY)
      requires !l.Interpolated(interpolation)
      requires xStep == Sampling.Step(l.src.w, l.dst.w) && yStep == Sampling.Step(l.src.h, l.dst.h)
      modifies compose
      ensures DrawnUpTo(l, startX, endX, startY, endY, startX)
    {
      hide DrawPixel, PlotTexel, Sampling.Offset, Clamp, LayerRecord.Interpolated, Sampling.Step;
      for y := startY to endY
        invariant DrawnUpTo(l, startX, endX, startY, y, startX)
      {
        var yAcc := Sampling.Offset(y - l.dst.y, yStep);
        var srcY := Clamp(l.src.y + yAcc / Sampling.ONE, 0, l.content.height - 1);
        var xAcc := Sampling.Offset(startX - l.dst.x, xStep);
        for x := startX to endX
          invariant xAcc == Sampling.Accumulated(startX - l.dst.x, x - startX, xStep)
          invariant DrawnUpTo(l, startX, endX, startY, y, x)
        {
          assert l.Covers(x, y);
          Sampling.AccumulatedClosedForm(startX - l.dst.x, x - startX, xStep);
          NearestFrom(depth, interpolation, l, x, y, compose[y, x]);
          var srcX := Clamp(l.src.x + xAcc / Sampling.ONE, 0, l.content.width - 1);
          xAcc := xAcc + xStep;
          compose[y, x] := PlotTexel(depth, l, srcX, srcY, compose[y, x]);
        }
      }
    }

    /** Draws one layer with bilinear filtering in the given part of its destination. */
    method DrawLayerBilinear(l: Layer, startX: int, endX: int, startY: int, endY: int, xStep: int, yStep: int)
      requires Sized(compose, width, height)
      requires 0 <= startX < endX <= width && 0 <= startY < endY <= height
      requires forall x, y | InRegion(x, y, startX, endX, startY, endY) :: l.Covers(x, y)
      requires l.Covers(startX, startY)
      requires l.Interpolated(interpolation)
      requires xStep == Sampling.Step(l.src.w, l.dst.w) && yStep == Sampling.Step(l.src.h, l.dst.h)
      modifies compose
      ensures DrawnUpTo(l, startX, endX, startY, endY, startX)
    {
      hide DrawPixel, PlotFiltered, Sampling.Offset, Clamp, Fraction, MaxSourceX, MaxSourceY, LayerRecord.Interpolated, Sampling.Step;
      var maxX, maxY := MaxSourceX(l), MaxSourceY(l);
      for y := startY to endY
        invariant DrawnUpTo(l, startX, endX, startY, y, startX)
      {
        var yAcc := Sampling.Offset(y - l.dst.y, yStep);
        var srcY0 := Clamp(l.src.y + yAcc / Sampling.ONE, l.src.y, maxY);
        var srcY1 := Min(srcY0 + 1, maxY);
        var xAcc := Sampling.Offset(startX - l.dst.x, xStep);
        for x := startX to endX
          invariant xAcc == Sampling.Accumulated(startX - l.dst.x, x - startX, xStep)
          invariant DrawnUpTo(l, startX, endX, startY, y, x)
        {
          assert l.Covers(x, y);
          Sampling.AccumulatedClosedForm(startX - l.dst.x, x - startX, xStep);
          FilteredFrom(depth, interpolation, l, x, y, compose[y, x]);
          var srcX0 := Clamp(l.src.x + xAcc / Sampling.ONE, l.src.x, maxX);
          var srcX1 := Min(srcX0 + 1, maxX);
          var pixel := PlotFiltered(depth, l, srcX0, srcX1, srcY0, srcY1,
                                    Fraction(xAcc), Fraction(yAcc), compose[y, x]);
          xAcc := xAcc + xStep;
          compose[y, x] := pixel;
        }
      }
    }

    /** Sets every pixel of the dirty rectangle to black. */
    method ClearDirty(dirty: DirtyRect)
      requires Sized(compose, width, height) && dirty.Dirty? && dirty.WithinScreen(width, height)
      modifies compose
      ensures forall x, y | InScreen(x, y, width, height) ::
                compose[y, x] == if dirty.Contains(x, y) then 0 else old(compose[y, x])
    {
      for y := dirty.top to dirty.bottom
        invariant forall px, py | InScreen(px, py, width, height) ::
                    compose[py, px] == if dirty.Contains(px, py) && py < y then 0 else old(compose[py, px])
      {
        for x := dirty.left to dirty.right
          invariant forall px, py | InScreen(px, py, width, height) ::
                      compose[py, px] == if dirty.Contains(px, py) && (py < y || (py == y && px < x))
                                         then 0 else old(compose[py, px])
        {
          compose[y, x] := 0;
        }
      }
    }

    /** Draws one layer inside the dirty rectangle. */
    method DrawLayer(dirty: DirtyRect, l: Layer)
      requires Sized(compose, width, height) && dirty.Dirty? && dirty.WithinScreen(width, height)
      modifies compose
      ensures forall x, y | InScreen(x, y, width, height) ::
                compose[y, x] == if dirty.Contains(x, y)
                                 then DrawPixel(depth, interpolation, l, x, y, old(compose[y, x]))
                                 else old(compose[y, x])
    {
      var startX, endX := Max(dirty.left, l.dst.x), Min(dirty.right, l.dst.x + l.dst.w);
      var startY, endY := Max(dirty.top, l.dst.y), Min(dirty.bottom, l.dst.y + l.dst.h);
      if startX >= endX || startY >= endY || l.src.w <= 0 || l.src.h <= 0 ||
         l.content.width <= 0 || l.content.height <= 0 {
        return;
      }
      hide PlotTexel, FilteredPixel;
      var xStep, yStep := Sampling.Step(l.src.w, l.dst.w), Sampling.Step(l.src.h, l.dst.h);
      if l.Interpolated(interpolation) {
        DrawLayerBilinear(l, startX, endX, startY, endY, xStep, yStep);
      } else {
        DrawLayerNearest(l, startX, endX, startY, endY, xStep, yStep);
      }
    }

    /** Clears the dirty rectangle and redraws the given layers in it; the rest of
        the surface is left alone. */
    method ComposeDirty(dirty: DirtyRect, active: seq<Layer>)
      requires Sized(compose, width, height) && dirty.Dirty? && dirty.WithinScreen(width, height)
      modifies compose
      ensures forall x, y | InScreen(x, y, width, height) ::
                compose[y, x] == if dirty.Contains(x, y)
                                 then RenderPixel(depth, interpolation, active, x, y)
                                 else old(compose[y, x])
    {
      hide DrawPixel;
      ClearDirty(dirty);
      for i := 0 to |active|
        invariant forall x, y | InScreen(x, y, width, height) ::
                    compose[y, x] == if dirty.Contains(x, y)
                                     then RenderPixel(depth, interpolation, active[..i], x, y)
                                     else old(compose[y, x])
      {
        DrawLayer(dirty, active[i]);
        assert active[..i + 1][..i] == active[..i];
      }
      assert active[..|active|] == active;
    }

    // -------------------------------------------------------------- sorting

    method Exchange(active: array<FrameBufferLayer?>, count: nat, i: nat, j: nat)
      requires i < j < count <= active.Length
      modifies active
      ensures active[i] == old(active[j]) && active[j] == old(active[i])
      ensures forall p | 0 <= p < active.Length && p != i && p != j :: active[p] == old(active[p])
      ensures multiset(active[..count]) == multiset(old(active[..count]))
    {
      ghost var before := active[..count];
      active[i], active[j] := active[j], active[i];
      assert active[..count] == before[i := before[j]][j := before[i]];
    }

    /** Orders the first `count` layers by z with the exchange sort of the display code. */
    method SortLayers(active: array<FrameBufferLayer?>, count: nat)
      requires count <= active.Length
      requires forall i | 0 <= i < count :: active[i] != null
      modifies active
      ensures forall i | 0 <= i < count :: active[i] != null
      ensures multiset(active[..count]) == multiset(old(active[..count]))
      ensures forall i, j | 0 <= i < j < count :: active[i].z <= active[j].z
    {
      for i := 0 to count
        invariant forall p | 0 <= p < count :: active[p] != null
        invariant multiset(active[..count]) == multiset(old(active[..count]))
        invariant forall p, q | 0 <= p < i && p < q < count :: active[p].z <= active[q].z
      {
        for j := i + 1 to count
          invariant forall p | 0 <= p < count :: active[p] != null
          invariant multiset(active[..count]) == multiset(old(active[..count]))
          invariant forall p, q | 0 <= p < i && p < q < count :: active[p].z <= active[q].z
          invariant forall q | i < q < j :: active[i].z <= active[q].z
        {
          if active[j].z < active[i].z {
            Exchange(active, count, i, j);
          }
        }
      }
    }

    /** The showing layers, lowest z first. */
    method ActiveLayers() returns (list: seq<Layer>)
      requires Shape() && LayersOk(layers) && DistinctZ(Table())
      ensures ZOrder(list, Table())
    {
      hide TableOf;
      var active, count := CollectActive();
      ghost var unsorted := active[..count];
      SortLayers(active, count);
      SameElements(unsorted, active[..count]);
      list := [];
      for i := 0 to count
        invariant |list| == i
        invariant forall p | 0 <= p < i :: list[p] == active[p].Record()
      {
        assert active[i] in active[..count];
        list := list + [active[i].Record()];
      }
      ActiveIsZOrder(active[..count], list);
    }

    /** The showing layers, in slot order. */
    method CollectActive() returns (active: array<FrameBufferLayer?>, count: nat)
      requires LayersOk(layers)
      ensures fresh(active) && count <= active.Length
      ensures forall p | 0 <= p < count :: active[p] != null
      ensures forall l :: l in active[..count] <==> l != null && l in layers && l.showing
      ensures forall p, q | 0 <= p < q < count :: active[p] != active[q]
    {
      active := new FrameBufferLayer?[FB_NUM_LAYERS](i => null);
      count := 0;
      for i := 0 to FB_NUM_LAYERS
        invariant count <= i
        invariant forall p | 0 <= p < count :: active[p] != null && active[p] in layers[..i] && active[p].showing
        invariant forall l | l in layers[..i] && l != null && l.showing :: l in active[..count]
        invariant forall p, q | 0 <= p < q < count :: active[p] != active[q]
      {
        assert layers[..i + 1] == layers[..i] + [layers[i]];
        if layers[i] != null && layers[i].showing {
          ghost var before := active[..count];
          active[count] := layers[i];
          count := count + 1;
          assert active[..count] == before + [layers[i]];
        }
      }
      assert layers[..FB_NUM_LAYERS] == layers;
    }

    lemma ActiveIsZOrder(active: seq<FrameBufferLayer?>, list: seq<Layer>)
      requires Shape() && LayersOk(layers) && DistinctZ(Table())
      requires |list| == |active|
      requires forall l :: l in active <==> l != null && l in layers && l.showing
      requires forall i | 0 <= i < |active| :: active[i] != null && list[i] == active[i].Record()
      requires forall i, j | 0 <= i < j < |active| :: active[i] != active[j] && active[i].z <= active[j].z
      ensures ZOrder(list, Table())
    {
      hide TableOf;
      forall i, j | 0 <= i < j < |list|
        ensures list[i].z < list[j].z
      {
        var p :| 0 <= p < |layers| && layers[p] == active[i];
        var q :| 0 <= q < |layers| && layers[q] == active[j];
        assert Table()[p] == Some(list[i]) && Table()[q] == Some(list[j]);
      }
      forall l | l in Elements(list)
        ensures l in Showing(Table())
      {
        var i :| 0 <= i < |list| && list[i] == l;
        var p :| 0 <= p < |layers| && layers[p] == active[i];
        assert Table()[p] == Some(l);
      }
      forall l | l in Showing(Table())
        ensures l in Elements(list)
      {
        var p :| 0 <= p < |layers| && Table()[p] == Some(l) && l.showing;
        var i :| 0 <= i < |active| && active[i] == layers[p];
        assert list[i] == l;
      }
    }

    // --------------------------------------------------------- dirty region

    predicate Changed(i: nat)
      requires |layers| == |snapshots| == FB_NUM_LAYERS && i < FB_NUM_LAYERS
      reads this, layers
    {
      var l, previous := layers[i], snapshots[i];
      || previous.layer != l
      || previous.showing != (l != null && l.showing)
      || (l != null && (previous.generation != l.generation || previous.z != l.z || previous.dst != l.dst))
    }

    /** The rectangle widened to the visible part of a layer's place. */
    function Include(dirty: DirtyRect, place: Rect): (r: DirtyRect)
      requires dirty.WithinScreen(width, height)
      ensures r.WithinScreen(width, height)
      ensures forall x, y | InScreen(x, y, width, height) && !r.Contains(x, y) ::
                !dirty.Contains(x, y) && !place.Contains(x, y)
    {
      AddDirtyRect(dirty, place.x, place.y, place.w, place.h, width, height)
    }

    /** Widens the rectangle by the old and the new place of a changed slot. */
    function AddSlot(dirty: DirtyRect, i: nat): (wider: DirtyRect)
      requires Shape() && LayersOk(layers) && i < FB_NUM_LAYERS
      requires dirty.WithinScreen(width, height)
      reads this, layers
      ensures wider.WithinScreen(width, height)
      ensures forall x, y | InScreen(x, y, width, height) && !wider.Contains(x, y) :: !dirty.Contains(x, y)
      ensures SnapshotsHold(snapshots, composed, layers) ==> Settled(composed, Table(), i, width, height, wider)
    {
      hide Include;
      var previous, l := snapshots[i], layers[i];
      assert SnapshotsHold(snapshots, composed, layers) ==> SnapshotHolds(previous, composed[i], l);
      var wider := if previous.showing then Include(dirty, previous.dst) else dirty;
      if l != null && l.showing then Include(wider, l.dst) else wider
    }

    predicate FullRedrawDue()
      reads this
    {
      !compositionValid || compositionInterpolation != interpolation
    }

    /** Nothing that the compositor compares has changed since the last composition. */
    predicate NothingChanged()
      requires |layers| == |snapshots| == FB_NUM_LAYERS
      reads this, layers
    {
      !FullRedrawDue() && forall i | 0 <= i < FB_NUM_LAYERS :: !Changed(i)
    }

    lemma MatchingSnapshots()
      requires |layers| == FB_NUM_LAYERS && snapshots == AllSnapshots(layers) && !FullRedrawDue()
      ensures NothingChanged()
    {
    }

    /** Redrawing the rectangle is enough: elsewhere every slot shows what was composed. */
    ghost predicate Suffices(dirty: DirtyRect)
      requires Shape() && LayersOk(layers)
      reads this, layers
    {
      if FullRedrawDue() then forall x, y | InScreen(x, y, width, height) :: dirty.Contains(x, y)
      else |composed| == FB_NUM_LAYERS
           && forall i | 0 <= i < FB_NUM_LAYERS :: Settled(composed, Table(), i, width, height, dirty)
    }

    /** The box around everything that changed since the last composition. */
    method ComputeDirty() returns (dirty: DirtyRect)
      requires Shape() && LayersOk(layers)
      ensures dirty.WithinScreen(width, height)
      ensures NothingChanged() ==> dirty == Clean
      ensures Sound() ==> Suffices(dirty)
    {
      dirty := Clean;
      if !compositionValid || compositionInterpolation != interpolation {
        dirty := AddDirtyRect(dirty, 0, 0, width, height, width, height);
        return;
      }
      hide AddSlot, Entry, TableOf;
      ghost var known := SnapshotsHold(snapshots, composed, layers);
      for i := 0 to FB_NUM_LAYERS
        invariant dirty.WithinScreen(width, height)
        invariant known ==> forall k | 0 <= k < i :: Settled(composed, Table(), k, width, height, dirty)
        invariant (forall k | 0 <= k < i :: !Changed(k)) ==> dirty == Clean
      {
        if Changed(i) {
          var wider := AddSlot(dirty, i);
          if known {
            SettledMonotone(composed, Table(), i, width, height, dirty, wider);
          }
          dirty := wider;
        } else if known {
          UnchangedSlotAgrees(i);
        }
      }
    }

    /** A slot whose snapshot matches shows now what it showed when composed. */
    lemma UnchangedSlotAgrees(i: nat)
      requires Shape() && LayersOk(layers) && SnapshotsHold(snapshots, composed, layers)
      requires i < FB_NUM_LAYERS && !Changed(i)
      ensures forall x, y :: SlotAgrees(composed[i], Table()[i], x, y)
    {
      hide TableOf;
      assert SnapshotHolds(snapshots[i], composed[i], layers[i]);
      if layers[i] != null && layers[i].showing {
        assert composed[i].value == layers[i].Record();
      }
    }

    /** A pending rectangle widened by the dirty one. */
    function Owe(debt: DirtyRect, dirty: DirtyRect): (r: DirtyRect)
      requires debt.WithinScreen(width, height) && dirty.Dirty? && dirty.WithinScreen(width, height)
      ensures r.WithinScreen(width, height)
      ensures forall x, y | !r.Contains(x, y) :: !debt.Contains(x, y) && !dirty.Contains(x, y)
      ensures debt.Clean? ==> r == dirty
      ensures debt.Dirty? ==> r == Dirty(Min(debt.left, dirty.left), Min(debt.top, dirty.top),
                                         Max(debt.right, dirty.right), Max(debt.bottom, dirty.bottom))
    {
      AddDirtyRect(debt, dirty.left, dirty.top, dirty.right - dirty.left, dirty.bottom - dirty.top, width, height)
    }

    /** Redraws the dirty rectangle so that the whole surface shows `active`. */
    method Recompose(dirty: DirtyRect, active: seq<Layer>)
      requires Shape() && LayersOk(layers) && ZOrder(active, Table())
      requires dirty.WithinScreen(width, height)
      modifies compose
      ensures old(Sound()) && Suffices(dirty) ==> Renders(compose, width, height, depth, interpolation, active)
      ensures forall x, y | InScreen(x, y, width, height) && !dirty.Contains(x, y) ::
                compose[y, x] == old(compose[y, x])
    {
      hide TableOf, DrawPixel, RenderPixel, SlotAgrees;
      ghost var table := Table();
      ghost var known := Sound() && Suffices(dirty);
      if dirty.Dirty? {
        ComposeDirty(dirty, active);
      }
      forall x, y | known && InScreen(x, y, width, height) && !dirty.Contains(x, y)
        ensures compose[y, x] == RenderPixel(depth, interpolation, active, x, y)
      {
        forall i | 0 <= i < FB_NUM_LAYERS
          ensures SlotAgrees(composed[i], table[i], x, y)
        {
          assert Settled(composed, table, i, width, height, dirty);
        }
        UntouchedPixelUnchanged(depth, interpolation, composed, table, order, active, x, y);
      }
    }

    /** Adds the dirty rectangle to the debt of both scanout buffers. */
    method OweBuffers(dirty: DirtyRect)
      requires Shape() && dirty.WithinScreen(width, height)
      modifies `pending
      ensures Shape()
      ensures forall b, x, y | 0 <= b < KMS_BUFFER_COUNT && !pending[b].Contains(x, y) ::
                !old(pending)[b].Contains(x, y) && !dirty.Contains(x, y)
    {
      hide Owe;
      if dirty.Dirty? {
        pending := [Owe(pending[0], dirty), Owe(pending[1], dirty)];
      }
    }

    lemma FreshSnapshotsHold()
      requires LayersOk(layers)
      ensures SnapshotsHold(AllSnapshots(layers), Table(), layers)
    {
      hide TableOf;
      forall i | 0 <= i < FB_NUM_LAYERS
        ensures SnapshotHolds(SnapshotOf(layers[i]), Entry(layers[i]), layers[i])
      {
      }
    }

    /** Records the layers the surface now shows. */
    method TakeSnapshots(active: seq<Layer>)
      requires LayersOk(layers)
      modifies `snapshots, `composed, `order, `compositionValid, `compositionInterpolation
      ensures composed == Table() && order == active && snapshots == AllSnapshots(layers)
      ensures SnapshotsHold(snapshots, composed, layers)
      ensures compositionValid && compositionInterpolation == interpolation
    {
      FreshSnapshotsHold();
      hide TableOf, SnapshotsHold, SnapshotOf;
      snapshots, composed, order := AllSnapshots(layers), Table(), active;
      compositionValid, compositionInterpolation := true, interpolation;
    }

    /** Brings the surface up to date with the layers, touching only the dirty
        rectangle, which both scanout buffers then owe. */
    method UpdateSurface() returns (dirty: DirtyRect)
      requires Shape() && LayersOk(layers) && DistinctZ(Table())
      modifies compose, `pending, `snapshots, `composed, `order, `compositionValid, `compositionInterpolation
      ensures Shape() && compositionValid && compositionInterpolation == interpolation
      ensures dirty.WithinScreen(width, height)
      ensures composed == Table() && ZOrder(order, composed)
      ensures SnapshotsHold(snapshots, composed, layers)
      ensures old(Sound()) ==>
                && Renders(compose, width, height, depth, interpolation, order)
                && (kmsActive ==> BuffersOwe())
                && (!kmsActive ==> AgreeOutside(screen, compose, width, height, dirty))
      ensures snapshots == AllSnapshots(layers)
      ensures old(NothingChanged()) ==>
                dirty == Clean && forall x, y | InScreen(x, y, width, height) :: compose[y, x] == old(compose[y, x])
    {
      hide Renders, ZOrder, DistinctZ, Settled, TableOf, SnapshotsHold, Changed, AllSnapshots;
      var active := ActiveLayers();
      dirty := ComputeDirty();
      Recompose(dirty, active);
      OweBuffers(dirty);
      TakeSnapshots(active);
    }

    /** Copies the rectangle from the composition surface to another surface. */
    method CopyRect(target: array2<Word>, rect: DirtyRect)
      requires Sized(compose, width, height) && Sized(target, width, height) && target != compose
      requires rect.Dirty? && rect.WithinScreen(width, height)
      modifies target
      ensures forall x, y | InScreen(x, y, width, height) ::
                target[y, x] == if rect.Contains(x, y) then compose[y, x] else old(target[y, x])
    {
      for y := rect.top to rect.bottom
        invariant forall px, py | InScreen(px, py, width, height) ::
                    target[py, px] == if rect.Contains(px, py) && py < y then compose[py, px] else old(target[py, px])
      {
        for x := rect.left to rect.right
          invariant forall px, py | InScreen(px, py, width, height) ::
                      target[py, px] == if rect.Contains(px, py) && (py < y || (py == y && px < x))
                                        then compose[py, px] else old(target[py, px])
        {
          target[y, x] := compose[y, x];
        }
      }
    }

    /** Replaces a whole surface by a picture that did not come from the compositor. */
    method Overwrite(target: array2<Word>, picture: seq<seq<Word>>)
      requires Sized(target, width, height)
      modifies target
    {
      for y := 0 to height {
        for x := 0 to width {
          if y < |picture| && x < |picture[y]| {
            target[y, x] := picture[y][x];
          }
        }
      }
    }

    /** Discards the composition: the next software present redraws everything. */
    method InvalidateSoftwareComposition()
      modifies `compositionValid
      ensures !compositionValid
    {
      compositionValid := false;
    }

    // -------------------------------------------------------------- present

    /** A software present of a sound composition delivers the full redraw; one that
        finds nothing changed leaves the surface as it is, sound or not. */
    method PresentLayerList(hardware: Hardware)
      requires Shape() && LayersOk(layers) && DistinctZ(Table())
      requires hardware.PostProcessed? || hardware.DirectScanout? ==> kmsActive
      modifies this`front, `pending, `snapshots, `composed, `order, `compositionValid, `compositionInterpolation
      modifies compose, screen, kms
      ensures Shape() && LayersOk(layers) && (old(Sound()) ==> Valid())
      ensures hardware.Software? ==>
                && compositionValid && compositionInterpolation == interpolation && snapshots == AllSnapshots(layers)
                && (old(Sound()) ==>
                      && ComposedFromScratch()
                      && AgreeOutside(if kmsActive then kms[1 - old(front)] else screen, compose, width, height, Clean))
                && (old(NothingChanged()) ==>
                      forall x, y | InScreen(x, y, width, height) :: compose[y, x] == old(compose[y, x]))
                && front == if kmsActive && hardware.presented then 1 - old(front) else old(front)
      ensures hardware.Fenced? ==> front == old(front) && compositionValid == old(compositionValid)
      ensures hardware.PostProcessed? || hardware.DirectScanout? ==> !compositionValid
    {
      var back := 1 - front;
      match hardware {
        case Fenced =>
        case PostProcessed(overwritten) =>
          Overwrite(kms[back], overwritten);
          front := back;
          InvalidateSoftwareComposition();
        case DirectScanout =>
          front := back;
          InvalidateSoftwareComposition();
        case Software(presented) =>
          SoftwarePresent(back, presented);
      }
    }

    /** Pays the back buffer's debt to the composition surface. */
    method SettlePending(back: nat)
      requires Shape() && back < KMS_BUFFER_COUNT
      modifies `pending, kms[back]
      ensures Shape() && pending[back] == Clean
      ensures old(BuffersOwe()) ==> BuffersOwe()
    {
      var debt := pending[back];
      if debt.Dirty? {
        CopyRect(kms[back], debt);
        pending := pending[back := Clean];
      }
    }

    method SoftwarePresent(back: nat, presented: bool)
      requires Shape() && LayersOk(layers) && DistinctZ(Table()) && back == 1 - front
      modifies this`front, `pending, `snapshots, `composed, `order, `compositionValid, `compositionInterpolation
      modifies compose, screen, kms
      ensures Shape() && compositionValid && SnapshotsHold(snapshots, composed, layers)
      ensures snapshots == AllSnapshots(layers) && compositionInterpolation == interpolation
      ensures old(Sound()) ==>
                && Valid() && ComposedFromScratch()
                && AgreeOutside(if kmsActive then kms[back] else screen, compose, width, height, Clean)
      ensures old(NothingChanged()) ==>
                forall x, y | InScreen(x, y, width, height) :: compose[y, x] == old(compose[y, x])
      ensures front == if kmsActive && presented then back else old(front)
    {
      hide Renders, ZOrder, DistinctZ, TableOf, SnapshotHolds, SnapshotsHold, NothingChanged, AllSnapshots, FullRedrawDue;
      ghost var sound := Sound();
      var dirty := UpdateSurface();
      if kmsActive {
        SettlePending(back);
        if presented {
          front := back;
        }
      } else if dirty.Dirty? {
        CopyRect(screen, dirty);
      }
      if sound {
        SurfaceShowsLayers();
      }
    }

    // ---------------------------------------------------------------- edits

    /** Registers a newly allocated layer in an empty slot. */
    method Register(i: nat, l: FrameBufferLayer)
      requires Valid() && i < FB_NUM_LAYERS && layers[i] == null
      requires l.Valid() && l !in layers
      modifies `layers
      ensures Valid() && layers == old(layers)[i := l]
    {
      layers := layers[i := l];
      assert compositionValid ==> forall k | 0 <= k < FB_NUM_LAYERS :: SnapshotHolds(snapshots[k], composed[k], old(layers)[k]);
    }

    /** Edits a registered layer.  Every edit keeps the compositor's knowledge sound. */
    method ApplyEdit(i: nat, e: Edit)
      requires Valid() && i < FB_NUM_LAYERS && layers[i] != null
      modifies layers[i]
      ensures Valid()
      ensures var r := old(layers[i].Record()); r.WellFormed() && layers[i].Record() == Edited(r, e)
    {
      hide Renders, ZOrder, Edited;
      assert forall k | 0 <= k < FB_NUM_LAYERS && k != i :: layers[k] != layers[i];
      assert layers[i] in layers;
      ghost var before := layers[i].Record();
      layers[i].Apply(e);
      EditIsNoticed(before, e);
      forall k | 0 <= k < FB_NUM_LAYERS && compositionValid
        ensures SnapshotHolds(snapshots[k], composed[k], layers[k])
      {
        assert old(SnapshotHolds(snapshots[k], composed[k], layers[k]));
        if k == i && snapshots[k].layer == layers[k] {
          assert composed[k].value.generation <= before.generation;
        }
      }
    }

    /** Transparency is changed without a mark.  The compositor stays sound if and only
        if it has no valid composition to be wrong about, the layer is hidden, its
        transparency does not really change, or it has been marked dirty since its
        snapshot was taken; see StaleAfterSetTransparency. */
    method SetTransparency(i: nat, transparency: bool)
      requires Valid() && i < FB_NUM_LAYERS && layers[i] != null
      modifies layers[i]
      ensures Shape() && LayersOk(layers) && AllSnapshots(layers) == old(AllSnapshots(layers))
      ensures layers[i].Record() == old(layers[i].Record()).(content := old(layers[i].content).(transparent := transparency))
      ensures Valid() <==>
                || !compositionValid || !layers[i].showing
                || transparency == old(layers[i].content.transparent)
                || snapshots[i].layer != layers[i] || snapshots[i].generation != layers[i].generation
    {
      hide Renders, ZOrder;
      assert forall k | 0 <= k < FB_NUM_LAYERS && k != i :: layers[k] != layers[i];
      assert layers[i] in layers;
      layers[i].SetTransparency(transparency);
      assert compositionValid ==> forall k | 0 <= k < FB_NUM_LAYERS && k != i :: SnapshotHolds(snapshots[k], composed[k], layers[k]);
    }

    predicate DistinctShowingZ()
      requires |layers| == FB_NUM_LAYERS
      reads this, layers
    {
      forall i, j | 0 <= i < j < FB_NUM_LAYERS ::
        layers[i] != null && layers[j] != null && layers[i].showing && layers[j].showing ==> layers[i].z != layers[j].z
    }

    /** A capture draws its own picture on the composition surface. */
    method CaptureRgb888(picture: seq<seq<Word>>)
      requires Valid()
      modifies compose, `compositionValid
      ensures Valid() && !compositionValid
    {
      Overwrite(compose, picture);
      InvalidateSoftwareComposition();
    }

    /** What a software present promises: the surface is the full redraw of the
        current layers, and so is the surface handed to the display, whether or not
        the display took it. */
    ghost predicate Delivered(e: Event)
      requires Valid()
      reads this, compose, screen, kms, layers
    {
      e.Present? && e.hardware.Software? && DistinctZ(Table()) ==>
        && ComposedFromScratch()
        && (kmsActive ==> AgreeOutside(kms[if e.hardware.presented then front else 1 - front], compose, width, height, Clean))
        && (!kmsActive ==> AgreeOutside(screen, compose, width, height, Clean))
    }

    /** Every layer was registered before or is new. */
    twostate predicate OldOrNew()
      reads this
    {
      forall i | 0 <= i < |layers| && layers[i] != null :: layers[i] in old(layers) || fresh(layers[i])
    }

    method Handle(e: Event)
      requires Valid()
      modifies this`layers, `interpolation, `front, `pending, `snapshots
      modifies `composed, `order, `compositionValid, `compositionInterpolation
      modifies compose, screen, kms, layers
      ensures Valid() && Delivered(e) && OldOrNew()
    {
      match e {
        case EditLayer(i, edit) =>
          if i < FB_NUM_LAYERS && layers[i] != null {
            ApplyEdit(i, edit);
          }
        case RegisterLayer(i, content) =>
          if i < FB_NUM_LAYERS && layers[i] == null && content.WellFormed() {
            var l := new FrameBufferLayer(i, content);
            Register(i, l);
          }
        case SetInterpolation(enable) =>
          interpolation := enable;
        case Capture(picture) =>
          CaptureRgb888(picture);
        case Present(hardware) =>
          if DistinctShowingZ() && (kmsActive || hardware.Fenced? || hardware.Software?) {
            HandlePresent(hardware);
          }
      }
    }

    method HandlePresent(hardware: Hardware)
      requires Valid() && DistinctShowingZ()
      requires kmsActive || hardware.Fenced? || hardware.Software?
      modifies this`front, `pending, `snapshots, `composed, `order, `compositionValid, `compositionInterpolation
      modifies compose, screen, kms
      ensures Valid() && Delivered(Present(hardware))
    {
      hide Renders, ZOrder, RenderPixel, TableOf, DistinctZ, AgreeOutside, ShowsFullRedraw, NothingChanged, AllSnapshots;
      DistinctShowing();
      hide DistinctShowingZ, ComposedFromScratch;
      PresentLayerList(hardware);
    }

    lemma DistinctShowing()
      requires Valid()
      ensures DistinctShowingZ() <==> DistinctZ(Table())
    {
    }

    /** Any run of registrations, edits, interpolation switches, captures and presents, with the
        z-orders of showing layers distinct at each present: if it ends with a
        software present, that present delivers the full redraw. */
    method Run(events: seq<Event>)
      requires Valid()
      modifies this`layers, `interpolation, `front, `pending, `snapshots
      modifies `composed, `order, `compositionValid, `compositionInterpolation
      modifies compose, screen, kms, layers
      ensures Valid() && OldOrNew()
      ensures events != [] ==> Delivered(events[|events| - 1])
    {
      hide Valid, Delivered;
      for n := 0 to |events|
        invariant Valid() && forall i | 0 <= i < |layers| && layers[i] != null :: layers[i] in old(layers) || fresh(layers[i])
        invariant n > 0 ==> Delivered(events[n - 1])
      {
        Handle(events[n]);
      }
    }

    /** What is seen after a software present: where an unscaled layer is the highest, the
        surface shows its texel, over what the layers below it show. */
    lemma HighestLayerOnScreen(l: FrameBufferLayer, x: int, y: int)
      requires Shape() && LayersOk(layers) && DistinctZ(Table()) && ComposedFromScratch()
      requires InScreen(x, y, width, height) && l in layers && l.showing
      requires Inside(l.Record(), x, y) && !Scaled(l.Record())
      requires forall o | o in layers && o != null && o != l && o.showing && o.Record().Covers(x, y) :: o.z < l.z
      ensures exists order, k :: ZOrder(order, Table()) && 0 <= k < |order| && order[k] == l.Record() &&
                ShowsTexel(compose[y, x], depth, l.content,
                           l.content.rows[l.src.y + (y - l.dst.y)][l.src.x + (x - l.dst.x)],
                           RenderPixel(depth, interpolation, order[..k], x, y))
    {
      hide RenderPixel, ShowsTexel, ZOrder, DistinctZ;
      ZOrderExists(Table());
      var order :| ZOrder(order, Table());
      assert ShowsFullRedraw(compose[y, x], depth, interpolation, Table(), x, y);
      var i :| 0 <= i < |layers| && layers[i] == l;
      assert Table()[i] == Some(l.Record());
      HighestLayerShows(depth, interpolation, order, Table(), l.Record(), x, y);
    }

    lemma SurfaceShowsLayers()
      requires Shape() && LayersOk(layers)
      requires ZOrder(order, Table()) && Renders(compose, width, height, depth, interpolation, order)
      ensures ComposedFromScratch()
    {
      forall x, y, list | InScreen(x, y, width, height) && ZOrder(list, Table())
        ensures compose[y, x] == RenderPixel(depth, interpolation, list, x, y)
      {
        ZOrderUnique(list, order);
      }
    }
  }

  /** Two listings with the same elements, one without repetitions: neither repeats. */
  lemma SameElements(a: seq<FrameBufferLayer?>, b: seq<FrameBufferLayer?>)
    requires multiset(a) == multiset(b)
    requires forall i, j | 0 <= i < j < |a| :: a[i] != a[j]
    ensures forall l :: l in a <==> l in b
    ensures forall i, j | 0 <= i < j < |b| :: b[i] != b[j]
  {
    forall l
      ensures l in a <==> l in b
    {
      assert l in a <==> l in multiset(a);
      assert l in b <==> l in multiset(b);
    }
    forall i, j | 0 <= i < j < |b|
      ensures b[i] != b[j]
    {
      if b[i] == b[j] {
        TwiceInMultiset(b, i, j);
        AtMostOnce(a, b[i]);
      }
    }
  }

  lemma TwiceInMultiset(s: seq<FrameBufferLayer?>, i: int, j: int)
    requires 0 <= i < j < |s| && s[i] == s[j]
    ensures multiset(s)[s[i]] >= 2
  {
    assert s == s[..j] + s[j..];
    assert s[i] in s[..j] && s[j] in s[j..];
    assert multiset(s) == multiset(s[..j]) + multiset(s[j..]);
  }

  lemma {:induction false} AtMostOnce(s: seq<FrameBufferLayer?>, l: FrameBufferLayer?)
    requires forall i, j | 0 <= i < j < |s| :: s[i] != s[j]
    ensures multiset(s)[l] <= 1
  {
    if s != [] {
      AtMostOnce(s[1..], l);
      assert s == [s[0]] + s[1..];
      assert l in s[1..] <==> l in multiset(s[1..]);
    }
  }

  // --------------------------------------------------- a stale composition

  /** A layer of one pixel, opaque colour 1, which its ARGB palette makes invisible. */
  ghost predicate OnePixel(c: Content, transparent: bool) {
    && c.WellFormed() && c.transparent == transparent && c.indexed
    && c.width == c.height == 1 && c.rows == [[0]] && c.pal565[0] == 1 && c.palArgb[0] == 0
  }

  ghost predicate OnePixelLayer(r: LayerRecord, transparent: bool) {
    OnePixel(r.content, transparent) && r.showing && r.src == r.dst == Rect(0, 0, 1, 1)
  }

  lemma OnePixelPicture(r: Layer, depth: Depth, interpolation: bool, transparent: bool)
    requires OnePixelLayer(r, transparent)
    ensures RenderPixel(depth, interpolation, [r], 0, 0) == if transparent then 0 else StoreRgb565(depth, 1)
    ensures StoreRgb565(depth, 1) != 0
    ensures ZOrder([r], [Some(r), None, None, None]) && DistinctZ([Some(r), None, None, None])
  {
    assert r.Covers(0, 0) && [r][..0] == [];
    assert Showing([Some(r), None, None, None]) == {r} == Elements([r]) by {
      assert [Some(r), None, None, None][0] == Some(r) && [r][0] == r;
    }
  }

  lemma OnePixelHidden(r: LayerRecord, after: LayerRecord)
    requires OnePixelLayer(r, false) && after == r.(content := r.content.(transparent := true))
    ensures OnePixelLayer(after, true)
  {
  }

  /** A compositor of one pixel with that layer alone. */
  ghost predicate OnePixelScreen(c: SoftwareCompositor, l: FrameBufferLayer, transparent: bool)
    reads c, l
  {
    && c.Shape() && c.width == c.height == 1 && !c.kmsActive && c.layers == [l, null, null, null]
    && l.Valid() && OnePixelLayer(l.Record(), transparent)
  }

  function OnePixelColour(depth: Depth, transparent: bool): Word {
    if transparent then 0 else StoreRgb565(depth, 1)
  }

  /** What the full redraw of that one pixel is. */
  lemma OnePixelRedraw(c: SoftwareCompositor, l: FrameBufferLayer, transparent: bool)
    requires OnePixelScreen(c, l, transparent)
    ensures LayersOk(c.layers) && DistinctZ(c.Table())
    ensures c.ComposedFromScratch() ==> c.compose[0, 0] == OnePixelColour(c.depth, transparent)
    ensures OnePixelColour(c.depth, true) != OnePixelColour(c.depth, false)
  {
    OnePixelPicture(l.Record(), c.depth, c.interpolation, transparent);
    assert c.Table() == [Some(l.Record()), None, None, None];
    hide RenderPixel, ZOrder, DistinctZ, TableOf;
    if c.ComposedFromScratch() {
      assert ShowsFullRedraw(c.compose[0, 0], c.depth, c.interpolation, c.Table(), 0, 0);
    }
  }

  method OnePixelShowing() returns (l: FrameBufferLayer)
    ensures fresh(l) && l.Valid() && OnePixelLayer(l.Record(), false)
  {
    var content := Content(false, true, seq(256, _ => 1), seq(256, _ => 0), 1, 1, [[0]]);
    l := new FrameBufferLayer(0, content);
    l.SetSrcRect(0, 0, 1, 1);
    var shown := l.Show(Rect(0, 0, 1, 1));
  }

  method OnePixelRegistered(depth: Depth) returns (c: SoftwareCompositor, l: FrameBufferLayer)
    ensures fresh(c) && fresh(l) && fresh(c.compose) && fresh(c.screen) && fresh(c.kms)
    ensures c.Valid() && OnePixelScreen(c, l, false)
  {
    hide OnePixelLayer;
    c := new SoftwareCompositor(1, 1, depth, false);
    l := OnePixelShowing();
    c.Register(0, l);
  }

  /** A present draws the pixel if the composition is sound, and nothing if nothing changed. */
  method PresentOnePixel(c: SoftwareCompositor, l: FrameBufferLayer, ghost transparent: bool)
    requires OnePixelScreen(c, l, transparent)
    modifies c`front, c`pending, c`snapshots, c`composed, c`order, c`compositionValid, c`compositionInterpolation
    modifies c.compose, c.screen, c.kms
    ensures OnePixelScreen(c, l, transparent) && c.compositionValid && !c.FullRedrawDue()
    ensures c.snapshots == AllSnapshots(c.layers)
    ensures old(c.Valid()) ==> c.Valid() && c.compose[0, 0] == OnePixelColour(c.depth, transparent)
    ensures old(c.NothingChanged()) ==> c.compose[0, 0] == old(c.compose[0, 0])
  {
    OnePixelRedraw(c, l, transparent);
    hide RenderPixel, ZOrder, DistinctZ, Renders, AllSnapshots, TableOf, OnePixelLayer, OnePixelColour;
    hide SoftwareCompositor.NothingChanged, SoftwareCompositor.Sound, LayersOk;
    c.PresentLayerList(Software(true));
    OnePixelRedraw(c, l, transparent);
  }

  /** A present, a change of transparency, and a second present that leaves the surface
      unlike the full redraw. */
  method StaleAfterSetTransparency(depth: Depth) returns (c: SoftwareCompositor)
    ensures c.Shape() && LayersOk(c.layers) && c.compositionValid && !c.ComposedFromScratch()
  {
    var l: FrameBufferLayer;
    c, l := OnePixelRegistered(depth);
    PresentOnePixel(c, l, false);
    OnePixelRedraw(c, l, false);
    hide RenderPixel, ZOrder, DistinctZ, Renders, AllSnapshots, SoftwareCompositor.NothingChanged, TableOf;
    ghost var before := l.Record();
    c.SetTransparency(0, true);
    OnePixelHidden(before, l.Record());
    hide OnePixelLayer, OnePixelColour;
    c.MatchingSnapshots();
    PresentOnePixel(c, l, true);
    OnePixelRedraw(c, l, true);
  }
}
