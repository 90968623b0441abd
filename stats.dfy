// Region statistics: the per-channel mean colour of a rectangle of the buffer
// (get_mean_color_rect).
module Stats {
  import opened Wrappers
  import opened Pixels

  const Zero := Color(0.0, 0.0, 0.0, 0.0)

  function Add(c: Color, d: Color): Color {
    Color(c.r + d.r, c.g + d.g, c.b + d.b, c.a + d.a)
  }

  function Times(c: Color, k: real): Color {
    Color(c.r * k, c.g * k, c.b * k, c.a * k)
  }

  function DivColor(c: Color, n: real): Color
    requires n != 0.0
  {
    Color(c.r / n, c.g / n, c.b / n, c.a / n)
  }

  /** start <= end on both axes, and end within a width x height buffer. */
  predicate Fits(width: nat, height: nat, start: (nat, nat), end: (nat, nat)) {
    start.0 <= end.0 <= width && start.1 <= end.1 <= height
  }

  /** Number of pixels of the rectangle [start, end). */
  function Area(start: (nat, nat), end: (nat, nat)): (a: nat)
    requires start.0 <= end.0 && start.1 <= end.1
    ensures a == 0 <==> IsEmpty(start, end)
  {
    var w, h := end.0 - start.0, end.1 - start.1;
    if 0 < w && 0 < h then MulMonotone(1, w, h); w * h else w * h
  }

  /** Channel-wise sum of the pixels of column x, rows y0 .. y1-1. */
  function ColumnSum(data: seq<Color>, width: nat, height: nat, x: nat, y0: nat, y1: nat): Color
    requires |data| == width * height && x < width && y0 <= y1 <= height
    decreases y1 - y0
  {
    if y1 == y0 then Zero
    else Add(ColumnSum(data, width, height, x, y0, y1 - 1), PixelAt(data, width, height, x, y1 - 1))
  }

  /** Channel-wise sum of the pixels of columns x0 .. x1-1, rows y0 .. y1-1. */
  function RectSum(data: seq<Color>, width: nat, height: nat, x0: nat, x1: nat, y0: nat, y1: nat): Color
    requires |data| == width * height && x0 <= x1 <= width && y0 <= y1 <= height
    decreases x1 - x0
  {
    if x1 == x0 then Zero
    else Add(RectSum(data, width, height, x0, x1 - 1, y0, y1), ColumnSum(data, width, height, x1 - 1, y0, y1))
  }

  /** get_mean_color_rect: accumulate the rectangle column by column, then
      divide every channel by its area. A zero-area rectangle has no mean
      (the source divides zero by zero). The buffer is only read. */
  method MeanColorRect(img: Image, start: (nat, nat), end: (nat, nat)) returns (m: Option<Color>)
    requires img.Valid() && Fits(img.width, img.height, start, end)
    ensures m.None? <==> Area(start, end) == 0
    ensures m.Some? ==>
      m.value == DivColor(RectSum(img.data, img.width, img.height, start.0, end.0, start.1, end.1),
                          Area(start, end) as real)
  {
    var accum := Zero;
    var x := start.0;
    while x < end.0
      invariant start.0 <= x <= end.0
      invariant accum == RectSum(img.data, img.width, img.height, start.0, x, start.1, end.1)
    {
      var y := start.1;
      ghost var before := accum;
      while y < end.1
        invariant start.1 <= y <= end.1
        invariant accum == Add(before, ColumnSum(img.data, img.width, img.height, x, start.1, y))
      {
        GetInBounds(img, x, y);
        var c := img.Get(x, y).value;
        accum := Color(accum.r + c.r, accum.g + c.g, accum.b + c.b, accum.a + c.a);
        y := y + 1;
      }
      x := x + 1;
    }
    var numPixel := Area(start, end);
    if numPixel == 0 {
      return None;
    }
    var div := numPixel as real;
    return Some(Color(accum.r / div, accum.g / div, accum.b / div, accum.a / div));
  }

  /** A column sum reads only the pixels of its own rows. */
  lemma {:induction false} ColumnSumFrame(d1: seq<Color>, d2: seq<Color>, width: nat, height: nat,
                                          x: nat, y0: nat, y1: nat)
    requires |d1| == width * height && |d2| == width * height && x < width && y0 <= y1 <= height
    requires forall y :: y0 <= y < y1 ==> PixelAt(d1, width, height, x, y) == PixelAt(d2, width, height, x, y)
    ensures ColumnSum(d1, width, height, x, y0, y1) == ColumnSum(d2, width, height, x, y0, y1)
    decreases y1 - y0
  {
    if y1 > y0 {
      ColumnSumFrame(d1, d2, width, height, x, y0, y1 - 1);
    }
  }

  /** A rectangle sum reads only the pixels of its own rectangle. */
  lemma {:induction false} RectSumFrame(d1: seq<Color>, d2: seq<Color>, width: nat, height: nat,
                                        x0: nat, x1: nat, y0: nat, y1: nat)
    requires |d1| == width * height && |d2| == width * height && x0 <= x1 <= width && y0 <= y1 <= height
    requires forall x, y :: x0 <= x < x1 && y0 <= y < y1 ==> PixelAt(d1, width, height, x, y) == PixelAt(d2, width, height, x, y)
    ensures RectSum(d1, width, height, x0, x1, y0, y1) == RectSum(d2, width, height, x0, x1, y0, y1)
    decreases x1 - x0
  {
    if x1 > x0 {
      RectSumFrame(d1, d2, width, height, x0, x1 - 1, y0, y1);
      ColumnSumFrame(d1, d2, width, height, x1 - 1, y0, y1);
    }
  }

  lemma TimesStep(c: Color, n: real)
    ensures Add(Times(c, n), c) == Times(c, n + 1.0)
  {
    assert c.r * n + c.r == c.r * (n + 1.0);
    assert c.g * n + c.g == c.g * (n + 1.0);
    assert c.b * n + c.b == c.b * (n + 1.0);
    assert c.a * n + c.a == c.a * (n + 1.0);
  }

  lemma TimesSum(c: Color, n: real, m: real)
    ensures Add(Times(c, n), Times(c, m)) == Times(c, n + m)
  {
    assert c.r * n + c.r * m == c.r * (n + m);
    assert c.g * n + c.g * m == c.g * (n + m);
    assert c.b * n + c.b * m == c.b * (n + m);
    assert c.a * n + c.a * m == c.a * (n + m);
  }

  lemma TimesDiv(c: Color, n: real)
    requires n != 0.0
    ensures DivColor(Times(c, n), n) == c
  {
    assert c.r * n / n == c.r;
    assert c.g * n / n == c.g;
    assert c.b * n / n == c.b;
    assert c.a * n / n == c.a;
  }

  /** A column of constant colour sums to that colour times its height. */
  lemma {:induction false} ConstantColumnSum(data: seq<Color>, width: nat, height: nat, x: nat, y0: nat, y1: nat, c: Color)
    requires |data| == width * height && x < width && y0 <= y1 <= height
    requires forall y :: y0 <= y < y1 ==> PixelAt(data, width, height, x, y) == c
    ensures ColumnSum(data, width, height, x, y0, y1) == Times(c, (y1 - y0) as real)
    decreases y1 - y0
  {
    if y1 > y0 {
      ConstantColumnSum(data, width, height, x, y0, y1 - 1, c);
      TimesStep(c, (y1 - 1 - y0) as real);
    }
  }

  /** One more column of height h adds h to the area. */
  lemma AreaStep(m: nat, n: nat, h: nat)
    requires m == n + 1
    ensures (m * h) as real == (n * h) as real + h as real
  {
    assert m * h == n * h + h;
  }

  /** A rectangle of constant colour sums to that colour times its area. */
  lemma {:induction false} ConstantRectSum(data: seq<Color>, width: nat, height: nat,
                                           x0: nat, x1: nat, y0: nat, y1: nat, c: Color)
    requires |data| == width * height && x0 <= x1 <= width && y0 <= y1 <= height
    requires forall x, y :: x0 <= x < x1 && y0 <= y < y1 ==> PixelAt(data, width, height, x, y) == c
    ensures RectSum(data, width, height, x0, x1, y0, y1) == Times(c, ((x1 - x0) * (y1 - y0)) as real)
    decreases x1 - x0
  {
    if x1 > x0 {
      ConstantRectSum(data, width, height, x0, x1 - 1, y0, y1, c);
      ConstantColumnSum(data, width, height, x1 - 1, y0, y1, c);
      AreaStep(x1 - x0, x1 - 1 - x0, y1 - y0);
      TimesSum(c, ((x1 - 1 - x0) * (y1 - y0)) as real, (y1 - y0) as real);
    } else {
      assert (x1 - x0) * (y1 - y0) == 0;
    }
  }

  /** The mean of a rectangle of positive area filled with one colour is that colour. */
  lemma ConstantRegionMean(data: seq<Color>, width: nat, height: nat,
                           start: (nat, nat), end: (nat, nat), c: Color)
    requires |data| == width * height && Fits(width, height, start, end) && Area(start, end) > 0
    requires forall x, y :: InRect(start, end, x, y) ==> PixelAt(data, width, height, x, y) == c
    ensures DivColor(RectSum(data, width, height, start.0, end.0, start.1, end.1), Area(start, end) as real) == c
  {
    ConstantRectSum(data, width, height, start.0, end.0, start.1, end.1, c);
    TimesDiv(c, Area(start, end) as real);
  }
}
