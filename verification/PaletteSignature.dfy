/** The 32-bit signature by which a palette change is noticed, and what it can miss. */
module PaletteSignature {

  type Colour = bv32

  type Palette = p: seq<Colour> | |p| == 256 witness seq(256, _ => 0)

  const OFFSET_BASIS: bv32 := 2166136261

  /** The multiplier is odd, so it has an inverse modulo 2^32. */
  function Scaled(x: bv32): (r: bv32)
    ensures Unscaled(r) == x
  {
    assert (x * 16777619) * 899433627 == x;
    x * 16777619
  }

  function Unscaled(x: bv32): bv32 {
    x * 899433627
  }

  function Mixed(signature: bv32, colour: Colour): bv32 {
    Scaled(signature ^ colour)
  }

  /** The signature of the colours so far. */
  function Signature(colours: seq<Colour>): bv32 {
    if colours == [] then OFFSET_BASIS
    else var n := |colours| - 1; Mixed(Signature(colours[..n]), colours[n])
  }

  /** The first two signatures. */
  lemma FirstSignatures()
    ensures Signature([]) == 0x811C_9DC5 && Signature([0]) == 0x050C_5D1F
  {
    assert [0 as Colour][..0] == [];
  }

  method PaletteSignatureArgb(palette: Palette) returns (signature: bv32)
    ensures signature == Signature(palette)
  {
    signature := OFFSET_BASIS;
    for i := 0 to 256
      invariant signature == Signature(palette[..i])
    {
      assert palette[..i + 1][..i] == palette[..i];
      signature := Mixed(signature, palette[i]);
    }
    assert palette[..256] == palette;
  }

  /** The colour that, mixed into `b`, gives what `x` gives mixed into `a`. */
  function Matching(x: Colour, a: bv32, b: bv32): Colour {
    x ^ a ^ b
  }

  lemma OnlyMatching(a: bv32, b: bv32, x: Colour, y: Colour)
    requires a ^ x == b ^ y
    ensures y == Matching(x, a, b)
  {
  }

  lemma MatchingMatches(a: bv32, b: bv32, x: Colour)
    ensures a ^ x == b ^ Matching(x, a, b)
  {
  }

  lemma MixedAlike(a: bv32, b: bv32, x: Colour, y: Colour)
    ensures Mixed(a, x) == Mixed(b, y) <==> y == Matching(x, a, b)
  {
    hide Scaled, Unscaled, Matching;
    if Mixed(a, x) == Mixed(b, y) {
      OnlyMatching(a, b, x, y);
    }
    MatchingMatches(a, b, x);
  }

  lemma SameMatching(x: Colour, a: bv32, b: bv32)
    ensures Matching(x, a, b) == x <==> a == b
  {
    hide Matching;
    if a == b {
      OnlyMatching(a, b, x, x);
    }
    if Matching(x, a, b) == x {
      MatchingMatches(a, b, x);
      SameStart(a, b, x);
    }
  }

  lemma SameStart(a: bv32, b: bv32, x: Colour)
    requires a ^ x == b ^ x
    ensures a == b
  {
  }

  /** Two lists that end alike have the same signature if and only if their beginnings do. */
  lemma {:induction false} CommonEnd(a: seq<Colour>, b: seq<Colour>, end: seq<Colour>)
    ensures Signature(a + end) == Signature(b + end) <==> Signature(a) == Signature(b)
  {
    hide Mixed, Matching;
    if end == [] {
      assert a + end == a && b + end == b;
    } else {
      var n := |end| - 1;
      var x := end[n];
      assert (a + end)[..|a| + n] == a + end[..n] && (b + end)[..|b| + n] == b + end[..n];
      CommonEnd(a, b, end[..n]);
      MixedAlike(Signature(a + end[..n]), Signature(b + end[..n]), x, x);
      SameMatching(x, Signature(a + end[..n]), Signature(b + end[..n]));
    }
  }

  /** A change of a single colour always changes the signature. */
  lemma SingleChangeIsNoticed(p: Palette, i: nat, colour: Colour)
    requires i < 256
    ensures Signature(p[i := colour]) == Signature(p) <==> colour == p[i]
  {
    hide Mixed, Matching;
    var q := p[i := colour];
    assert p == p[..i + 1] + p[i + 1..] && q == q[..i + 1] + p[i + 1..];
    CommonEnd(p[..i + 1], q[..i + 1], p[i + 1..]);
    assert p[..i + 1][..i] == p[..i] == q[..i + 1][..i];
    MixedAlike(Signature(p[..i]), Signature(p[..i]), p[i], colour);
    SameMatching(p[i], Signature(p[..i]), Signature(p[..i]));
  }

  /** The colour that undoes, at place `j`, what the colours before it did to the signature. */
  function Undoing(p: Palette, q: Palette, j: nat): Colour
    requires j < 256
  {
    Matching(p[j], Signature(p[..j]), Signature(q[..j]))
  }

  /** A change of two colours can go unnoticed, whichever the palette, the two places and
      the first of the new colours: exactly one choice of the second has that effect. */
  lemma TwoChangesCanCancel(p: Palette, i: nat, j: nat, colour: Colour, other: Colour)
    requires i < j < 256
    ensures Signature(p[i := colour][j := other]) == Signature(p) <==> other == Undoing(p, p[i := colour], j)
  {
    ChangeUpTo(p, p[i := colour], j, other);
  }

  lemma ChangeUpTo(p: Palette, q: Palette, j: nat, other: Colour)
    requires j < 256 && q[j..] == p[j..]
    ensures Signature(q[j := other]) == Signature(p) <==> other == Undoing(p, q, j)
  {
    hide Mixed, Matching;
    var r := q[j := other];
    assert p == p[..j + 1] + p[j + 1..];
    assert r == r[..j + 1] + p[j + 1..];
    CommonEnd(p[..j + 1], r[..j + 1], p[j + 1..]);
    assert p[..j + 1][..j] == p[..j] && r[..j + 1][..j] == q[..j];
    MixedAlike(Signature(p[..j]), Signature(q[..j]), p[j], other);
  }
}
