/** Single bits of a byte, as masks. */
module Bits {

  function Mask(i: nat): bv8
    requires i < 8
  {
    if i == 0 then 1 else if i == 1 then 2 else if i == 2 then 4 else if i == 3 then 8
    else if i == 4 then 16 else if i == 5 then 32 else if i == 6 then 64 else 128
  }

  predicate Bit(m: bv8, i: nat)
    requires i < 8
  {
    m & Mask(i) != 0
  }

  /** Bit `i` has weight two to the `i`. */
  lemma BitWeight(m: bv8, i: nat)
    requires i < 8
    ensures Mask(i) == (1 as bv8) << i
    ensures Bit(m, i) <==> (m >> i) & 1 == 1
  {
  }

  lemma SetBit(m: bv8, i: nat, k: nat)
    requires i < 8 && k < 8
    ensures Bit(m | Mask(i), k) <==> Bit(m, k) || k == i
  {
  }

  lemma ClearBit(m: bv8, i: nat, k: nat)
    requires i < 8 && k < 8
    ensures Bit(m & !Mask(i), k) <==> Bit(m, k) && k != i
  {
  }

  function WithBit(m: bv8, bit: nat, on: bool): (r: bv8)
    requires bit < 8
    ensures forall b: nat | b < 8 :: Bit(r, b) == if b == bit then on else Bit(m, b)
  {
    assert forall b: nat | b < 8 :: Bit(m | Mask(bit), b) <==> Bit(m, b) || b == bit by {
      forall b: nat | b < 8
        ensures Bit(m | Mask(bit), b) <==> Bit(m, b) || b == bit
      {
        SetBit(m, bit, b);
      }
    }
    assert forall b: nat | b < 8 :: Bit(m & !Mask(bit), b) <==> Bit(m, b) && b != bit by {
      forall b: nat | b < 8
        ensures Bit(m & !Mask(bit), b) <==> Bit(m, b) && b != bit
      {
        ClearBit(m, bit, b);
      }
    }
    if on then m | Mask(bit) else m & !Mask(bit)
  }

  lemma NoBits(m: bv8)
    ensures m == 0 <==> forall i: nat | i < 8 :: !Bit(m, i)
  {
    if m != 0 {
      assert Bit(m, 0) || Bit(m, 1) || Bit(m, 2) || Bit(m, 3) || Bit(m, 4) || Bit(m, 5) || Bit(m, 6) || Bit(m, 7);
    }
  }

  lemma BitOfAnd(x: bv8, y: bv8, i: nat)
    requires i < 8
    ensures Bit(x & y, i) <==> Bit(x, i) && Bit(y, i)
  {
  }

  lemma BitOfAndNot(x: bv8, y: bv8, i: nat)
    requires i < 8
    ensures Bit(x & !y, i) <==> Bit(x, i) && !Bit(y, i)
  {
  }

  lemma BitOfXor(x: bv8, y: bv8, i: nat)
    requires i < 8
    ensures Bit(x ^ y, i) <==> Bit(x, i) != Bit(y, i)
  {
    assert x ^ y == (x & !y) | (y & !x);
    BitOfAndNot(x, y, i);
    BitOfAndNot(y, x, i);
    BitOfOr(x & !y, y & !x, i);
    hide Bit;
  }

  lemma BitOfOr(x: bv8, y: bv8, i: nat)
    requires i < 8
    ensures Bit(x | y, i) <==> Bit(x, i) || Bit(y, i)
  {
  }

  function Both(x: bv8, y: bv8): (r: bv8)
    ensures forall i: nat | i < 8 :: Bit(r, i) <==> Bit(x, i) && Bit(y, i)
  {
    assert forall i: nat | i < 8 :: Bit(x & y, i) <==> Bit(x, i) && Bit(y, i) by {
      forall i: nat | i < 8 ensures Bit(x & y, i) <==> Bit(x, i) && Bit(y, i) { BitOfAnd(x, y, i); }
    }
    x & y
  }

  function Without(x: bv8, y: bv8): (r: bv8)
    ensures forall i: nat | i < 8 :: Bit(r, i) <==> Bit(x, i) && !Bit(y, i)
  {
    assert forall i: nat | i < 8 :: Bit(x & !y, i) <==> Bit(x, i) && !Bit(y, i) by {
      forall i: nat | i < 8 ensures Bit(x & !y, i) <==> Bit(x, i) && !Bit(y, i) { BitOfAndNot(x, y, i); }
    }
    x & !y
  }

  function Differing(x: bv8, y: bv8): (r: bv8)
    ensures forall i: nat | i < 8 :: Bit(r, i) <==> Bit(x, i) != Bit(y, i)
  {
    assert forall i: nat | i < 8 :: Bit(x ^ y, i) <==> Bit(x, i) != Bit(y, i) by {
      forall i: nat | i < 8 ensures Bit(x ^ y, i) <==> Bit(x, i) != Bit(y, i) { BitOfXor(x, y, i); }
    }
    x ^ y
  }
}
