/** The 16.16 fixed-point arithmetic with which a layer's destination span is
    mapped onto its source rectangle. */
module Sampling {

  const ONE: int := 0x1_0000

  /** Source advance per destination pixel; both lengths are positive. */
  function Step(src: int, dst: int): int
    requires 0 < src && 0 < dst
  {
    src * ONE / dst
  }

  /** The 16.16 source coordinate `i` places into the destination span. */
  function Offset(i: int, step: int): int {
    i * step
  }

  /** Source index sampled by the destination pixel `i` places into the span. */
  function Index(i: int, step: int): int
    requires 0 <= i
  {
    Offset(i, step) / ONE
  }

  lemma StepBounds(src: int, dst: int)
    requires 0 < src && 0 < dst
    ensures 0 <= Step(src, dst)
    ensures Step(src, dst) * dst <= src * ONE < (Step(src, dst) + 1) * dst
  {
    var n := src * ONE;
    assert n == (n / dst) * dst + n % dst;
    assert n / dst >= 0;
  }

  lemma MulMono(a: int, b: int, c: int)
    requires a <= b && 0 <= c
    ensures a * c <= b * c
  {
  }

  /** Every pixel of the destination span samples inside the source span. */
  lemma IndexInside(src: int, dst: int, i: int)
    requires 0 < src && 0 < dst
    requires 0 <= i < dst
    ensures 0 <= Index(i, Step(src, dst)) < src
  {
    var step := Step(src, dst);
    StepBounds(src, dst);
    MulMono(0, i, step);
    if step == 0 {
      assert i * step == 0;
    } else {
      assert i * step + step == (i + 1) * step;
      MulMono(i + 1, dst, step);
      assert dst * step == step * dst;
      assert i * step < src * ONE;
    }
  }

  /** The truncated step never overshoots: the sampled index lies at or before
      the exact ratio `i * src / dst`. */
  lemma IndexNeverOvershoots(src: int, dst: int, i: int)
    requires 0 < src && 0 < dst
    requires 0 <= i < dst
    ensures Index(i, Step(src, dst)) * dst <= i * src
  {
    var step := Step(src, dst);
    var k := Index(i, step);
    StepBounds(src, dst);
    MulMono(step * dst, src * ONE, i);
    assert k * ONE <= i * step;
    MulMono(k * ONE, i * step, dst);
    calc {
      (k * dst) * ONE;
    ==
      (k * ONE) * dst;
    <=
      (i * step) * dst;
    ==
      (step * dst) * i;
    <=
      (src * ONE) * i;
    ==
      (i * src) * ONE;
    }
  }

  lemma IndexMonotone(i: int, j: int, step: int)
    requires 0 <= i <= j && 0 <= step
    ensures Index(i, step) <= Index(j, step)
  {
    MulMono(i, j, step);
  }

  /** When source and destination have the same length sampling is a plain offset. */
  lemma IndexUnscaled(length: int, i: int)
    requires 0 < length && 0 <= i
    ensures Step(length, length) == ONE && Index(i, Step(length, length)) == i
  {
    StepBounds(length, length);
    var step := Step(length, length);
    if step < ONE {
      MulMono(step + 1, ONE, length);
      assert false;
    }
    if step > ONE {
      MulMono(ONE + 1, step, length);
      assert false;
    }
  }

  /** The running coordinate of a draw loop after `n` pixels: the accumulator
      starts at `first * step` for the clip start and gains `step` per pixel. */
  function Accumulated(first: int, n: nat, step: int): int {
    if n == 0 then Offset(first, step) else Accumulated(first, n - 1, step) + step
  }

  /** Clipping does not shift the image: whatever the clip start, the running
      coordinate at a pixel equals the closed form for that pixel. */
  lemma {:induction false} AccumulatedClosedForm(first: int, n: nat, step: int)
    ensures Accumulated(first, n, step) == Offset(first + n, step)
  {
    if n > 0 {
      AccumulatedClosedForm(first, n - 1, step);
    }
  }
}
