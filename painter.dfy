// The per-pixel painter that `main` passes to add_rectangle for every cell:
// a black frame, and inside it the cell's mean colour shifted by a vertical
// gradient and by feedback-filtered noise, clamped to [0, 1].
module Painter {
  import opened Pixels
  import opened Partition

  const LEADING_INSET: nat := 3
  const TRAILING_INSET: nat := 4
  /** `uint` is 64 bits wide; its subtraction wraps modulo 2^64. */
  const UINT_MODULUS: nat := 0x1_0000_0000_0000_0000

  /** Unsigned subtraction a - b with wrap-around. */
  function UintSub(a: nat, b: nat): (d: nat)
    requires b < UINT_MODULUS
    ensures b <= a ==> d == a - b
    ensures a < b ==> d == UINT_MODULUS + a - b
  {
    if b <= a then a - b else UINT_MODULUS + a - b
  }

  /** The border test of the painter, with its unsigned `end - 4`. The first
      three columns and rows of a cell are always border; so are its last four
      columns and rows when `end - 4` does not wrap. */
  predicate OnBorder(start: (nat, nat), end: (nat, nat), x: nat, y: nat): (b: bool)
    ensures x < start.0 + LEADING_INSET || y < start.1 + LEADING_INSET ==> b
    ensures TRAILING_INSET <= end.0 <= x + TRAILING_INSET ==> b
    ensures TRAILING_INSET <= end.1 <= y + TRAILING_INSET ==> b
  {
    || x < start.0 + LEADING_INSET || x >= UintSub(end.0, TRAILING_INSET)
    || y < start.1 + LEADING_INSET || y >= UintSub(end.1, TRAILING_INSET)
  }

  /** Inside the cell the wrap-around of `end - 4` is immaterial: a pixel is a
      border pixel exactly when it lies outside the inset rectangle
      [start + 3, end - 4) computed over the integers. */
  lemma BorderInsideCell(start: (nat, nat), end: (nat, nat), x: nat, y: nat)
    requires InRect(start, end, x, y)
    ensures OnBorder(start, end, x, y) <==>
      !(start.0 + 3 <= x < end.0 as int - 4 && start.1 + 3 <= y < end.1 as int - 4)
  {
  }

  function Max(a: real, b: real): real { if a >= b then a else b }
  function Min(a: real, b: real): real { if a <= b then a else b }

  /** `v.max(0.).min(1.)`. */
  function Clamp(v: real): (r: real)
    ensures InUnit(r)
    ensures InUnit(v) ==> r == v
    ensures v < 0.0 ==> r == 0.0
    ensures v > 1.0 ==> r == 1.0
  {
    Min(Max(v, 0.0), 1.0)
  }

  /** The vertical gradient: minus a quarter of the row's relative offset in
      the cell. Only interior pixels use it, and their cell has positive height. */
  function OffY(start: (nat, nat), end: (nat, nat), y: nat): (g: real)
    ensures start.1 <= y < end.1 ==> -0.25 < g <= 0.0
  {
    if end.1 <= start.1 then 0.0
    else
      var t := (y as int - start.1) as real / (end.1 - start.1) as real;
      assert start.1 <= y < end.1 ==> 0.0 <= t < 1.0;
      -(t / 4.0)
  }

  /** One noise update: shift the sample to [-0.5, 0.5), scale it by 1/10,
      add it to the accumulator, then decay the sum by a fifth. The
      accumulator never leaves [-0.2, 0.2] once inside it. */
  function NoiseStep(lastR: real, sample: UnitSample): (r: real)
    ensures -0.2 <= lastR <= 0.2 ==> -0.2 <= r <= 0.2
  {
    var ra := (sample - 0.5) / 10.0;
    var acc := lastR + ra;
    acc + (-acc / 5.0)
  }

  /** An interior colour: the same shift added to r, g and b, clamped, alpha 1. */
  function InteriorColor(mean: Color, shift: real): (c: Color)
    ensures UnitColor(c) && c.a == 1.0
    ensures c.r == Clamp(mean.r + shift) && c.g == Clamp(mean.g + shift) && c.b == Clamp(mean.b + shift)
  {
    Color(Clamp(mean.r + shift), Clamp(mean.g + shift), Clamp(mean.b + shift), 1.0)
  }

  /** What the painter keeps between calls: the feedback variable `last_r`
      and the position of the next draw of the random source. */
  datatype PainterState = PainterState(lastR: real, cursor: nat)

  /** Every colour a cell is painted with is opaque with channels in [0, 1]. */
  predicate Repainted(c: Color) { UnitColor(c) && c.a == 1.0 }

  /** One call of the painter closure at (x, y): a border pixel is black and
      consumes no draw; an interior pixel draws one sample, updates the
      feedback variable and is the mean shifted by it and by the gradient. */
  function Paint(start: (nat, nat), end: (nat, nat), mean: Color, noise: nat -> UnitSample,
                 s: PainterState, x: nat, y: nat): (r: (Color, PainterState))
    ensures Repainted(r.0)
    ensures OnBorder(start, end, x, y) ==> r.0 == Black && r.1 == s
    ensures !OnBorder(start, end, x, y) ==>
              && r.1 == PainterState(NoiseStep(s.lastR, noise(s.cursor)), s.cursor + 1)
              && r.0 == InteriorColor(mean, r.1.lastR + OffY(start, end, y))
  {
    if OnBorder(start, end, x, y) then (Black, s)
    else
      var lastR := NoiseStep(s.lastR, noise(s.cursor));
      (InteriorColor(mean, lastR + OffY(start, end, y)), PainterState(lastR, s.cursor + 1))
  }

  /** The painter as the stateful operation handed to add_rectangle. */
  function PaintOp(start: (nat, nat), end: (nat, nat), mean: Color, noise: nat -> UnitSample)
    : (op: (PainterState, nat, nat) -> (Color, PainterState))
    ensures forall s, x, y :: Repainted(op(s, x, y).0)
    ensures forall s, x, y :: OnBorder(start, end, x, y) ==> op(s, x, y) == (Black, s)
    ensures forall s, x, y :: !OnBorder(start, end, x, y) ==> op(s, x, y).1.cursor == s.cursor + 1
  {
    (s: PainterState, x: nat, y: nat) => Paint(start, end, mean, noise, s, x, y)
  }

  /** Starting from `last_r = 0`, the feedback variable stays within
      [-0.2, 0.2] at every pixel of the traversal, whatever the draws. */
  lemma FeedbackBounded(start: (nat, nat), end: (nat, nat), mean: Color, noise: nat -> UnitSample,
                        cursor: nat, x: nat, y: nat)
    requires InRect(start, end, x, y)
    ensures var s := StateBefore(PaintOp(start, end, mean, noise), PainterState(0.0, cursor), start, end, x, y);
            -0.2 <= s.lastR <= 0.2
  {
    var P := (s: PainterState) => -0.2 <= s.lastR <= 0.2;
    StateBeforePreserves(PaintOp(start, end, mean, noise), PainterState(0.0, cursor), start, end, x, y, P);
  }
}
