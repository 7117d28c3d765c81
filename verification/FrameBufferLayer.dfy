/** One framebuffer layer and the edits the emulator and the menu apply to it. */
module FrameBufferLayers {
  import opened Wrappers
  import opened PixelFormat
  import opened Composition

  /** The edits that reach a registered layer; showing and hiding also present. */
  datatype Edit =
    | WriteTexels(texels: seq<seq<nat>>)
    | SetPalette565(index: nat, rgb: Word)
    | SetPaletteArgb(index: nat, argb: Word)
    | SetSrcRect(x: nat, y: nat, w: int, h: int)
    | SetLayer(z: int)
    | Allocate(indexed: bool, width: nat, height: nat, texels: seq<seq<nat>>)
    | Free
    | MarkDirty
    | Reveal(place: Rect)
    | Conceal

  /** The record after an edit; malformed texel data and palette indices are ignored. */
  function Edited(r: LayerRecord, e: Edit): LayerRecord
    requires r.WellFormed()
  {
    var c := r.content;
    var marked := r.(generation := r.generation + 1);
    match e
    case WriteTexels(texels) =>
      if TexelRows(texels, c.width, c.height, c.indexed) then marked.(content := c.(rows := texels)) else r
    case SetPalette565(index, rgb) =>
      if index < 256 then marked.(content := c.(pal565 := c.pal565[index := rgb])) else r
    case SetPaletteArgb(index, argb) =>
      if index < 256 then marked.(content := c.(palArgb := c.palArgb[index := argb])) else r
    case SetSrcRect(x, y, w, h) => marked.(src := Rect(x, y, w, h))
    case SetLayer(z) => r.(z := z)
    case Allocate(indexed, w, h, texels) =>
      if TexelRows(texels, w, h, indexed) then
        marked.(content := c.(indexed := indexed, width := w, height := h, rows := texels),
                src := Rect(0, 0, w, h), dst := Rect(0, 0, w, h))
      else r
    case Free => r.(showing := false, content := c.(width := 0, height := 0, rows := []))
    case MarkDirty => marked
    case Reveal(place) =>
      if r.showing then r else r.(dst := place, showing := true, generation := r.generation + 2)
    case Conceal => if r.showing then marked.(showing := false) else r
  }

  /** Every edit raises the generation, or leaves the layer hidden, or touches only
      what the compositor compares by value. */
  lemma EditIsNoticed(r: LayerRecord, e: Edit)
    requires r.WellFormed()
    ensures var r' := Edited(r, e);
            && r'.WellFormed() && r.generation <= r'.generation
            && (r'.generation == r.generation && r'.showing ==> r.showing && r'.content == r.content && r'.src == r.src)
  {
  }

  /** The content is the same but for the given parts. */
  predicate SameContent(a: Content, b: Content, rows: bool, pal565: bool, palArgb: bool) {
    && a.transparent == b.transparent && a.indexed == b.indexed && a.width == b.width && a.height == b.height
    && (rows || a.rows == b.rows) && (pal565 || a.pal565 == b.pal565) && (palArgb || a.palArgb == b.palArgb)
  }

  predicate SamePlace(a: LayerRecord, b: LayerRecord) {
    a.z == b.z && a.src == b.src && a.dst == b.dst && a.showing == b.showing
  }

  /** Each edit changes what it names to what it gives, and nothing else. */
  lemma EditTakesEffect(r: LayerRecord, e: Edit)
    requires r.WellFormed()
    ensures var after := Edited(r, e); var c, c' := r.content, after.content;
      match e
      case WriteTexels(texels) =>
        && SamePlace(r, after) && SameContent(c, c', true, false, false)
        && (TexelRows(texels, c.width, c.height, c.indexed) ==> c'.rows == texels)
      case SetPalette565(index, rgb) =>
        && SamePlace(r, after) && SameContent(c, c', false, true, false) && |c'.pal565| == 256
        && forall k | 0 <= k < 256 :: c'.pal565[k] == if k == index then rgb else c.pal565[k]
      case SetPaletteArgb(index, argb) =>
        && SamePlace(r, after) && SameContent(c, c', false, false, true) && |c'.palArgb| == 256
        && forall k | 0 <= k < 256 :: c'.palArgb[k] == if k == index then argb else c.palArgb[k]
      case SetSrcRect(x, y, w, h) =>
        && c' == c && after.src.x == x && after.src.y == y && after.src.w == w && after.src.h == h
        && after.dst == r.dst && after.z == r.z && after.showing == r.showing
      case SetLayer(z) => c' == c && after.z == z && after.src == r.src && after.dst == r.dst && after.showing == r.showing
      case Allocate(indexed, w, h, texels) =>
        TexelRows(texels, w, h, indexed) ==>
          && c'.indexed == indexed && c'.width == w && c'.height == h && c'.rows == texels
          && c'.transparent == c.transparent && c'.pal565 == c.pal565 && c'.palArgb == c.palArgb
          && after.src == after.dst == Rect(0, 0, w, h) && after.z == r.z && after.showing == r.showing
      case Free => !after.showing && c'.width == c'.height == 0
      case MarkDirty => SamePlace(r, after) && c' == c && after.generation > r.generation
      case Reveal(place) =>
        c' == c && after.showing && after.src == r.src && after.z == r.z && after.dst == if r.showing then r.dst else place
      case Conceal => c' == c && !after.showing && after.src == r.src && after.dst == r.dst && after.z == r.z
  {
  }

  class FrameBufferLayer {
    var z: int
    var showing: bool
    var generation: nat
    var content: Content
    var src: Rect
    var dst: Rect

    function Record(): LayerRecord
      reads this
    {
      LayerRecord(z, showing, generation, content, src, dst)
    }

    ghost predicate Valid()
      reads this
    {
      Record().WellFormed()
    }

    constructor (z: int, content: Content)
      requires content.WellFormed()
      ensures Valid()
      ensures Record() == LayerRecord(z, false, 1, content, Rect(0, 0, 0, 0), Rect(0, 0, 0, 0))
    {
      this.z, this.showing, this.generation, this.content := z, false, 1, content;
      src, dst := Rect(0, 0, 0, 0), Rect(0, 0, 0, 0);
    }

    method MarkDirty()
      modifies `generation
      ensures generation == old(generation) + 1
    {
      generation := generation + 1;
    }

    method Allocate(indexed: bool, width: nat, height: nat, texels: seq<seq<nat>>)
      requires Valid() && TexelRows(texels, width, height, indexed)
      modifies this
      ensures Valid()
      ensures Record() == LayerRecord(old(z), old(showing), old(generation) + 1,
                                      old(content).(indexed := indexed, width := width, height := height, rows := texels),
                                      Rect(0, 0, width, height), Rect(0, 0, width, height))
    {
      content := content.(indexed := indexed, width := width, height := height, rows := texels);
      src, dst := Rect(0, 0, width, height), Rect(0, 0, width, height);
      MarkDirty();
    }

    /** Releases the pixel memory.  The layer stops showing; it is not marked dirty. */
    method Free()
      requires Valid()
      modifies this
      ensures Valid()
      ensures Record() == old(Record()).(showing := false,
                                         content := old(content).(width := 0, height := 0, rows := []))
    {
      showing := false;
      content := content.(width := 0, height := 0, rows := []);
    }

    /** The emulator draws into the pixel memory and reports the frame ready. */
    method WriteTexels(texels: seq<seq<nat>>)
      requires Valid() && TexelRows(texels, content.width, content.height, content.indexed)
      modifies this
      ensures Valid()
      ensures Record() == old(Record()).(content := old(content).(rows := texels), generation := old(generation) + 1)
    {
      content := content.(rows := texels);
      MarkDirty();
    }

    method SetPalette565(index: nat, rgb: Word)
      requires Valid() && index < 256
      modifies this
      ensures Valid()
      ensures Record() == old(Record()).(content := old(content).(pal565 := old(content).pal565[index := rgb]),
                                         generation := old(generation) + 1)
    {
      content := content.(pal565 := content.pal565[index := rgb]);
      MarkDirty();
    }

    method SetPaletteArgb(index: nat, argb: Word)
      requires Valid() && index < 256
      modifies this
      ensures Valid()
      ensures Record() == old(Record()).(content := old(content).(palArgb := old(content).palArgb[index := argb]),
                                         generation := old(generation) + 1)
    {
      content := content.(palArgb := content.palArgb[index := argb]);
      MarkDirty();
    }

    /** Any rectangle is taken as it is; one that begins before the framebuffer must not
        be filtered, see FilteringStaysInsideIff. */
    method SetSrcRect(x: int, y: int, w: int, h: int)
      requires Valid()
      modifies this
      ensures Valid() <==> 0 <= x && 0 <= y
      ensures Record() == old(Record()).(src := Rect(x, y, w, h), generation := old(generation) + 1)
    {
      src := Rect(x, y, w, h);
      MarkDirty();
    }

    /** Changes the z-order; no mark is made, the compositor compares z itself. */
    method SetLayer(newZ: int)
      modifies `z
      ensures z == newZ
    {
      z := newZ;
    }

    /** Changes how the content is drawn; no mark is made. */
    method SetTransparency(transparency: bool)
      modifies `content
      ensures content == old(content).(transparent := transparency)
    {
      content := content.(transparent := transparency);
    }

    /** Places and reveals a hidden layer; a layer already showing is left alone. */
    method Show(place: Rect) returns (changed: bool)
      requires Valid()
      modifies this
      ensures Valid()
      ensures changed == !old(showing)
      ensures Record() == if old(showing) then old(Record())
                          else old(Record()).(dst := place, showing := true, generation := old(generation) + 1)
    {
      changed := !showing;
      if changed {
        dst := place;
        showing := true;
        MarkDirty();
      }
    }

    method Hide() returns (changed: bool)
      requires Valid()
      modifies this
      ensures Valid()
      ensures changed == old(showing)
      ensures Record() == old(Record()).(showing := false)
    {
      changed := showing;
      showing := false;
    }

    /** Applies one edit. */
    method Apply(e: Edit)
      requires Valid()
      modifies this
      ensures Valid()
      ensures Record() == Edited(old(Record()), e)
    {
      hide TexelRows;
      match e {
        case WriteTexels(texels) =>
          if TexelRows(texels, content.width, content.height, content.indexed) {
            WriteTexels(texels);
          }
        case SetPalette565(index, rgb) =>
          if index < 256 {
            SetPalette565(index, rgb);
          }
        case SetPaletteArgb(index, argb) =>
          if index < 256 {
            SetPaletteArgb(index, argb);
          }
        case SetSrcRect(x, y, w, h) =>
          SetSrcRect(x, y, w, h);
        case SetLayer(z) =>
          SetLayer(z);
        case Allocate(indexed, w, h, texels) =>
          if TexelRows(texels, w, h, indexed) {
            Allocate(indexed, w, h, texels);
          }
        case Free =>
          Free();
        case MarkDirty =>
          MarkDirty();
        case Reveal(place) =>
          var changed := Show(place);
          if changed {
            MarkDirty();
          }
        case Conceal =>
          var changed := Hide();
          if changed {
            MarkDirty();
          }
      }
    }
  }
}
