/** Pixel words and the channel arithmetic of the software compositor.  Packed
    words are naturals; shifts and masks are written as division and remainder. */
module PixelFormat {

  type Word = nat

  /** Bytes per framebuffer pixel: 2 selects RGB565, 4 selects ARGB8888. */
  datatype Depth = Rgb565 | Argb8888

  function Red565(rgb: Word): nat { rgb / 0x800 % 0x20 }

  function Green565(rgb: Word): nat { rgb / 0x20 % 0x40 }

  function Blue565(rgb: Word): nat { rgb % 0x20 }

  function Alpha(argb: Word): nat { argb / 0x100_0000 % 0x100 }

  function Red(argb: Word): nat { argb / 0x1_0000 % 0x100 }

  function Green(argb: Word): nat { argb / 0x100 % 0x100 }

  function Blue(argb: Word): nat { argb % 0x100 }

  function PackArgb(a: nat, r: nat, g: nat, b: nat): Word {
    a * 0x100_0000 + r * 0x1_0000 + g * 0x100 + b
  }

  function Pack565(r: nat, g: nat, b: nat): Word {
    r * 0x800 + g * 0x20 + b
  }

  function ArgbTo565(argb: Word): Word {
    Pack565(Red(argb) / 8, Green(argb) / 4, Blue(argb) / 8)
  }

  function Widen5(c: nat): nat { c * 8 + c / 4 }

  function Widen6(c: nat): nat { c * 4 + c / 16 }

  function Rgb565ToArgb(rgb: Word): Word {
    PackArgb(0xFF, Widen5(Red565(rgb)), Widen6(Green565(rgb)), Widen5(Blue565(rgb)))
  }

  /** Linear interpolation with an 8-bit fraction, rounded to nearest. */
  function Lerp(a: nat, b: nat, frac: nat): (c: nat)
    requires frac < 256
  {
    MulNonNegative(a, 256 - frac);
    MulNonNegative(b, frac);
    (a * (256 - frac) + b * frac + 128) / 256
  }

  lemma MulNonNegative(a: nat, b: nat)
    ensures 0 <= a * b
  {
  }

  lemma MulBetween(k: nat, lo: nat, a: nat, hi: nat)
    requires lo <= a <= hi
    ensures lo * k <= a * k <= hi * k
  {
  }

  lemma DivBetween(sum: nat, lo: nat, hi: nat)
    requires lo * 256 <= sum <= hi * 256
    ensures lo <= (sum + 128) / 256 <= hi
  {
  }

  /** Interpolation stays between its end points, so a packed channel can never
      spill into its neighbour. */
  lemma LerpBetween(a: nat, b: nat, frac: nat, lo: nat, hi: nat)
    requires frac < 256
    requires lo <= a <= hi && lo <= b <= hi
    ensures lo <= Lerp(a, b, frac) <= hi
  {
    MulBetween(256 - frac, lo, a, hi);
    MulBetween(frac, lo, b, hi);
    assert lo * (256 - frac) + lo * frac == lo * 256;
    assert hi * (256 - frac) + hi * frac == hi * 256;
    var sum := a * (256 - frac) + b * frac;
    assert lo * 256 <= sum <= hi * 256;
    DivBetween(sum, lo, hi);
  }

  function BilinearChannel(c00: nat, c10: nat, c01: nat, c11: nat, fx: nat, fy: nat): nat
    requires fx < 256 && fy < 256
  {
    Lerp(Lerp(c00, c10, fx), Lerp(c01, c11, fx), fy)
  }

  lemma BilinearChannelBelow(c00: nat, c10: nat, c01: nat, c11: nat, fx: nat, fy: nat, hi: nat)
    requires fx < 256 && fy < 256
    requires c00 <= hi && c10 <= hi && c01 <= hi && c11 <= hi
    ensures BilinearChannel(c00, c10, c01, c11, fx, fy) <= hi
  {
    LerpBetween(c00, c10, fx, 0, hi);
    LerpBetween(c01, c11, fx, 0, hi);
    LerpBetween(Lerp(c00, c10, fx), Lerp(c01, c11, fx), fy, 0, hi);
  }

  function Bilinear565(c00: Word, c10: Word, c01: Word, c11: Word, fx: nat, fy: nat): Word
    requires fx < 256 && fy < 256
  {
    Pack565(BilinearChannel(Red565(c00), Red565(c10), Red565(c01), Red565(c11), fx, fy),
            BilinearChannel(Green565(c00), Green565(c10), Green565(c01), Green565(c11), fx, fy),
            BilinearChannel(Blue565(c00), Blue565(c10), Blue565(c01), Blue565(c11), fx, fy))
  }

  function BilinearArgb(c00: Word, c10: Word, c01: Word, c11: Word, fx: nat, fy: nat): Word
    requires fx < 256 && fy < 256
  {
    PackArgb(BilinearChannel(Alpha(c00), Alpha(c10), Alpha(c01), Alpha(c11), fx, fy),
             BilinearChannel(Red(c00), Red(c10), Red(c01), Red(c11), fx, fy),
             BilinearChannel(Green(c00), Green(c10), Green(c01), Green(c11), fx, fy),
             BilinearChannel(Blue(c00), Blue(c10), Blue(c01), Blue(c11), fx, fy))
  }

  /** A filtered RGB565 pixel is a 16-bit word whose channels are exactly the
      filtered channels: the shifted parts never overlap. */
  lemma Bilinear565Channels(c00: Word, c10: Word, c01: Word, c11: Word, fx: nat, fy: nat)
    requires fx < 256 && fy < 256
    ensures var p := Bilinear565(c00, c10, c01, c11, fx, fy);
            && p < 0x1_0000
            && Red565(p) == BilinearChannel(Red565(c00), Red565(c10), Red565(c01), Red565(c11), fx, fy)
            && Green565(p) == BilinearChannel(Green565(c00), Green565(c10), Green565(c01), Green565(c11), fx, fy)
            && Blue565(p) == BilinearChannel(Blue565(c00), Blue565(c10), Blue565(c01), Blue565(c11), fx, fy)
  {
    BilinearChannelBelow(Red565(c00), Red565(c10), Red565(c01), Red565(c11), fx, fy, 0x1F);
    BilinearChannelBelow(Green565(c00), Green565(c10), Green565(c01), Green565(c11), fx, fy, 0x3F);
    BilinearChannelBelow(Blue565(c00), Blue565(c10), Blue565(c01), Blue565(c11), fx, fy, 0x1F);
    Pack565Inverse(BilinearChannel(Red565(c00), Red565(c10), Red565(c01), Red565(c11), fx, fy),
                   BilinearChannel(Green565(c00), Green565(c10), Green565(c01), Green565(c11), fx, fy),
                   BilinearChannel(Blue565(c00), Blue565(c10), Blue565(c01), Blue565(c11), fx, fy));
  }

  lemma Pack565Inverse(r: nat, g: nat, b: nat)
    requires r < 0x20 && g < 0x40 && b < 0x20
    ensures Pack565(r, g, b) < 0x1_0000
    ensures Red565(Pack565(r, g, b)) == r
    ensures Green565(Pack565(r, g, b)) == g
    ensures Blue565(Pack565(r, g, b)) == b
  {
    assert Pack565(r, g, b) == r * 0x800 + (g * 0x20 + b);
    assert Pack565(r, g, b) / 0x20 == r * 0x40 + g;
  }

  /** A framebuffer word survives the RGB565 to ARGB8888 and back conversion, so
      reading a 16-bit pixel for blending loses nothing. */
  lemma Rgb565RoundTrip(rgb: Word)
    requires rgb < 0x1_0000
    ensures ArgbTo565(Rgb565ToArgb(rgb)) == rgb
  {
    hide Red565, Green565, Blue565, Red, Green, Blue, PackArgb, Widen5, Widen6;
    var r, g, b := Red565(rgb), Green565(rgb), Blue565(rgb);
    Unpack565(rgb);
    WidenNarrow(r, g, b);
    PackArgbInverse(0xFF, Widen5(r), Widen6(g), Widen5(b));
  }

  lemma Unpack565(rgb: Word)
    requires rgb < 0x1_0000
    ensures Red565(rgb) < 0x20 && Green565(rgb) < 0x40 && Blue565(rgb) < 0x20
    ensures rgb == Pack565(Red565(rgb), Green565(rgb), Blue565(rgb))
  {
    assert rgb / 0x20 / 0x40 == rgb / 0x800;
    assert rgb / 0x800 < 0x20;
  }

  lemma WidenNarrow(r: nat, g: nat, b: nat)
    requires r < 0x20 && g < 0x40 && b < 0x20
    ensures Widen5(r) < 0x100 && Widen6(g) < 0x100 && Widen5(b) < 0x100
    ensures Widen5(r) / 8 == r && Widen6(g) / 4 == g && Widen5(b) / 8 == b
  {
  }

  lemma PackArgbInverse(a: nat, r: nat, g: nat, b: nat)
    requires r < 0x100 && g < 0x100 && b < 0x100
    ensures Red(PackArgb(a, r, g, b)) == r
    ensures Green(PackArgb(a, r, g, b)) == g
    ensures Blue(PackArgb(a, r, g, b)) == b
  {
    var p := PackArgb(a, r, g, b);
    assert p / 0x100 == a * 0x1_0000 + r * 0x100 + g;
    assert p / 0x1_0000 == a * 0x100 + r;
  }

  function StoreRgb565(depth: Depth, rgb: Word): Word {
    if depth.Rgb565? then rgb else Rgb565ToArgb(rgb)
  }

  function StoreArgb(depth: Depth, argb: Word): Word {
    if depth.Rgb565? then ArgbTo565(argb) else argb
  }

  function LoadArgb(depth: Depth, word: Word): Word {
    if depth.Rgb565? then Rgb565ToArgb(word) else word
  }

  function BlendChannel(src: nat, dst: nat, alpha: nat): nat
    requires alpha < 256
  {
    MulBetween(alpha, 0, src, src);
    MulBetween(255 - alpha, 0, dst, dst);
    (src * alpha + dst * (255 - alpha) + 127) / 255
  }

  /** Blending stays between the two colours, whatever the alpha, and reaches them at its ends. */
  lemma BlendBetween(src: nat, dst: nat, alpha: nat, lo: nat, hi: nat)
    requires alpha < 256 && lo <= src <= hi && lo <= dst <= hi
    ensures lo <= BlendChannel(src, dst, alpha) <= hi
    ensures alpha == 0 ==> BlendChannel(src, dst, alpha) == dst
    ensures alpha == 255 ==> BlendChannel(src, dst, alpha) == src
  {
    MulBetween(alpha, lo, src, hi);
    MulBetween(255 - alpha, lo, dst, hi);
    assert lo * alpha + lo * (255 - alpha) == lo * 255;
    assert hi * alpha + hi * (255 - alpha) == hi * 255;
    var sum := src * alpha + dst * (255 - alpha);
    assert lo * 255 <= sum <= hi * 255;
    assert lo <= (sum + 127) / 255 <= hi;
  }

  /** Alpha blending over the word already in the framebuffer. */
  function Blend(depth: Depth, old_: Word, argb: Word): Word {
    var alpha := Alpha(argb);
    if alpha == 0 then old_
    else if alpha == 255 then StoreArgb(depth, argb)
    else
      var dst := LoadArgb(depth, old_);
      StoreArgb(depth, PackArgb(0xFF,
                                BlendChannel(Red(argb), Red(dst), alpha),
                                BlendChannel(Green(argb), Green(dst), alpha),
                                BlendChannel(Blue(argb), Blue(dst), alpha)))
  }

  // ------------------------------------------------- what it is in numbers

  /** Widening copies each field to its channel and repeats the field's top bits below it. */
  lemma WideningByField(r: nat, g: nat, b: nat)
    requires r < 0x20 && g < 0x40 && b < 0x20
    ensures Rgb565ToArgb(r * 0x800 + g * 0x20 + b)
         == 0xFF00_0000 + (r * 8 + r / 4) * 0x1_0000 + (g * 4 + g / 16) * 0x100 + (b * 8 + b / 4)
  {
    hide Red565, Green565, Blue565, PackArgb, Widen5, Widen6;
    Pack565Inverse(r, g, b);
    WidenedWord(r, g, b);
  }

  lemma WidenedWord(r: nat, g: nat, b: nat)
    ensures PackArgb(0xFF, Widen5(r), Widen6(g), Widen5(b))
         == 0xFF00_0000 + (r * 8 + r / 4) * 0x1_0000 + (g * 4 + g / 16) * 0x100 + (b * 8 + b / 4)
  {
  }

  /** Narrowing drops the low bits of each channel, and the alpha. */
  lemma NarrowingByField(a: nat, r: nat, g: nat, b: nat)
    requires r < 0x100 && g < 0x100 && b < 0x100
    ensures ArgbTo565(a * 0x100_0000 + r * 0x1_0000 + g * 0x100 + b) == r / 8 * 0x800 + g / 4 * 0x20 + b / 8
  {
    hide Red, Green, Blue;
    PackArgbInverse(a, r, g, b);
  }

  /** An interpolated channel is the weighted mean of the two, rounded to nearest. */
  lemma LerpIsNearest(a: nat, b: nat, frac: nat)
    requires frac < 256
    ensures 256 * Lerp(a, b, frac) <= a * (256 - frac) + b * frac + 128 < 256 * Lerp(a, b, frac) + 256
  {
  }

  lemma LerpAtStart(a: nat, b: nat)
    ensures Lerp(a, b, 0) == a
  {
  }

  /** A blended channel is the mean weighted by the alpha, rounded to nearest. */
  lemma BlendIsNearest(src: nat, dst: nat, alpha: nat)
    requires alpha < 256
    ensures 255 * BlendChannel(src, dst, alpha) <= src * alpha + dst * (255 - alpha) + 127
                                                < 255 * BlendChannel(src, dst, alpha) + 255
  {
  }

  lemma WeightedWithin(low: int, sum: int, weight: nat)
    requires -128 <= low - sum <= 128 && weight <= 256
    ensures -128 * weight <= low * weight - sum * weight <= 128 * weight
  {
    assert low * weight - sum * weight == (low - sum) * weight;
    if low >= sum {
      MulBetween(weight, 0, low - sum, 128);
    } else {
      MulBetween(weight, 0, sum - low, 128);
      assert (sum - low) * weight == -((low - sum) * weight);
    }
  }

  /** A filtered channel is within one level of the mean of its four texels, weighted by
      the distances to them. */
  lemma BilinearIsWeighted(c00: nat, c10: nat, c01: nat, c11: nat, fx: nat, fy: nat)
    requires fx < 256 && fy < 256
    ensures var mean := (c00 * (256 - fx) + c10 * fx) * (256 - fy) + (c01 * (256 - fx) + c11 * fx) * fy;
      mean - 0x1_0000 <= 0x1_0000 * BilinearChannel(c00, c10, c01, c11, fx, fy) <= mean + 0x1_0000
  {
    hide Lerp;
    var upper, lower := Lerp(c00, c10, fx), Lerp(c01, c11, fx);
    LerpIsNearest(c00, c10, fx);
    LerpIsNearest(c01, c11, fx);
    LerpIsNearest(upper, lower, fy);
    MulBetween(256 - fx, 0, c00, c00);
    MulBetween(256 - fx, 0, c01, c01);
    MulBetween(fx, 0, c10, c10);
    MulBetween(fx, 0, c11, c11);
    MeanOfMeans(c00 * (256 - fx) + c10 * fx, c01 * (256 - fx) + c11 * fx, upper, lower, Lerp(upper, lower, fy), fy);
  }

  /** On a row or column of texels it is interpolated along it, and on a texel it is that
      texel's. */
  lemma BilinearOnGrid(c00: nat, c10: nat, c01: nat, c11: nat, f: nat)
    requires f < 256
    ensures BilinearChannel(c00, c10, c01, c11, f, 0) == Lerp(c00, c10, f)
    ensures BilinearChannel(c00, c10, c01, c11, 0, f) == Lerp(c00, c01, f)
    ensures BilinearChannel(c00, c10, c01, c11, 0, 0) == c00
  {
    hide Lerp;
    LerpAtStart(c00, c10);
    LerpAtStart(c01, c11);
    LerpAtStart(c00, c01);
    LerpAtStart(Lerp(c00, c10, f), Lerp(c01, c11, f));
  }

  /** Rounding twice is at most one level off. */
  lemma MeanOfMeans(above: nat, below: nat, upper: nat, lower: nat, c: nat, fy: nat)
    requires fy < 256
    requires 256 * upper <= above + 128 < 256 * upper + 256 && 256 * lower <= below + 128 < 256 * lower + 256
    requires 256 * c <= upper * (256 - fy) + lower * fy + 128 < 256 * c + 256
    ensures var mean := above * (256 - fy) + below * fy; mean - 0x1_0000 <= 0x1_0000 * c <= mean + 0x1_0000
  {
    WeightedWithin(256 * upper, above, 256 - fy);
    WeightedWithin(256 * lower, below, fy);
    assert 256 * upper * (256 - fy) + 256 * lower * fy == 256 * (upper * (256 - fy) + lower * fy);
  }

  /** A filtered ARGB pixel has exactly the filtered channels, each in its own byte. */
  lemma BilinearArgbChannels(c00: Word, c10: Word, c01: Word, c11: Word, fx: nat, fy: nat)
    requires fx < 256 && fy < 256
    ensures var p := BilinearArgb(c00, c10, c01, c11, fx, fy);
            && p < 0x1_0000_0000
            && Alpha(p) == BilinearChannel(Alpha(c00), Alpha(c10), Alpha(c01), Alpha(c11), fx, fy)
            && Red(p) == BilinearChannel(Red(c00), Red(c10), Red(c01), Red(c11), fx, fy)
            && Green(p) == BilinearChannel(Green(c00), Green(c10), Green(c01), Green(c11), fx, fy)
            && Blue(p) == BilinearChannel(Blue(c00), Blue(c10), Blue(c01), Blue(c11), fx, fy)
  {
    hide BilinearChannel;
    BilinearChannelBelow(Alpha(c00), Alpha(c10), Alpha(c01), Alpha(c11), fx, fy, 0xFF);
    BilinearChannelBelow(Red(c00), Red(c10), Red(c01), Red(c11), fx, fy, 0xFF);
    BilinearChannelBelow(Green(c00), Green(c10), Green(c01), Green(c11), fx, fy, 0xFF);
    BilinearChannelBelow(Blue(c00), Blue(c10), Blue(c01), Blue(c11), fx, fy, 0xFF);
    var a, r := BilinearChannel(Alpha(c00), Alpha(c10), Alpha(c01), Alpha(c11), fx, fy),
                BilinearChannel(Red(c00), Red(c10), Red(c01), Red(c11), fx, fy);
    var g, b := BilinearChannel(Green(c00), Green(c10), Green(c01), Green(c11), fx, fy),
                BilinearChannel(Blue(c00), Blue(c10), Blue(c01), Blue(c11), fx, fy);
    ArgbByField(a, r, g, b);
    hide Alpha, Red, Green, Blue;
  }

  /** Where the four channels of a word are. */
  lemma ArgbByField(a: nat, r: nat, g: nat, b: nat)
    requires a < 0x100 && r < 0x100 && g < 0x100 && b < 0x100
    ensures var p := a * 0x100_0000 + r * 0x1_0000 + g * 0x100 + b;
      p < 0x1_0000_0000 && Alpha(p) == a && Red(p) == r && Green(p) == g && Blue(p) == b
  {
    PackArgbInverse(a, r, g, b);
    var p := a * 0x100_0000 + (r * 0x1_0000 + g * 0x100 + b);
    assert p / 0x100_0000 == a;
  }

  /** Blending in 32 bits: alpha 0 leaves the pixel, alpha 255 replaces it, and otherwise
      each channel is blended with the one below it and the result is opaque. */
  lemma BlendByChannel(below: Word, argb: Word)
    ensures Alpha(argb) == 0 ==> Blend(Argb8888, below, argb) == below
    ensures Alpha(argb) == 255 ==> Blend(Argb8888, below, argb) == argb
    ensures 0 < Alpha(argb) < 255 ==>
              var p := Blend(Argb8888, below, argb);
              && Alpha(p) == 0xFF
              && Red(p) == BlendChannel(Red(argb), Red(below), Alpha(argb))
              && Green(p) == BlendChannel(Green(argb), Green(below), Alpha(argb))
              && Blue(p) == BlendChannel(Blue(argb), Blue(below), Alpha(argb))
  {
    hide BlendChannel;
    var alpha := Alpha(argb);
    BlendBetween(Red(argb), Red(below), alpha, 0, 0xFF);
    BlendBetween(Green(argb), Green(below), alpha, 0, 0xFF);
    BlendBetween(Blue(argb), Blue(below), alpha, 0, 0xFF);
    ArgbByField(0xFF, BlendChannel(Red(argb), Red(below), alpha), BlendChannel(Green(argb), Green(below), alpha),
                BlendChannel(Blue(argb), Blue(below), alpha));
    hide Alpha, Red, Green, Blue;
  }

  /** Blending in 16 bits is blending the widened pixel, narrowed again. */
  lemma BlendNarrowed(below: Word, argb: Word)
    ensures Blend(Rgb565, below, argb) == if Alpha(argb) == 0 then below
                                          else ArgbTo565(Blend(Argb8888, Rgb565ToArgb(below), argb))
  {
  }
}
