// The pixel buffer of the image transform: colours, row-major addressing,
// and the Image record whose pixel vector is rewritten in place.
module Pixels {
  import opened Wrappers

  /** One pixel: red, green, blue and alpha, each nominally in [0, 1]. */
  datatype Color = Color(r: real, g: real, b: real, a: real)

  /** The colour layout the PNG library reports; only RGBA8 is decoded. */
  datatype ColorType = RGBA8 | OtherColorType(code: nat)

  const Black := Color(0.0, 0.0, 0.0, 1.0)

  predicate InUnit(v: real) { 0.0 <= v <= 1.0 }

  predicate UnitColor(c: Color) { InUnit(c.r) && InUnit(c.g) && InUnit(c.b) && InUnit(c.a) }

  /** Half-open rectangle membership: start inclusive, end exclusive. */
  predicate InRect(start: (nat, nat), end: (nat, nat), x: nat, y: nat) {
    start.0 <= x < end.0 && start.1 <= y < end.1
  }

  predicate IsEmpty(start: (nat, nat), end: (nat, nat)) {
    end.0 <= start.0 || end.1 <= start.1
  }

  /** Flat position of pixel (x, y) in a row-major buffer `width` pixels wide. */
  function Index(width: nat, x: nat, y: nat): (i: nat)
    ensures y * width <= i
    ensures x < width ==> i < y * width + width
  {
    y * width + x
  }

  lemma MulMonotone(a: nat, b: nat, c: nat)
    requires a <= b
    ensures a * c <= b * c
  {
    assert b * c == a * c + (b - a) * c;
  }

  lemma DivModOf(q: nat, r: nat, w: nat)
    requires r < w
    ensures (q * w + r) / w == q && (q * w + r) % w == r
  {
    var n := q * w + r;
    var q', r' := n / w, n % w;
    assert n == q' * w + r';
    if q' < q {
      MulMonotone(q' + 1, q, w);
      assert false;
    } else if q' > q {
      MulMonotone(q + 1, q', w);
      assert false;
    }
  }

  /** An in-range coordinate pair lands inside the buffer. */
  lemma IndexBelow(width: nat, height: nat, x: nat, y: nat)
    requires x < width && y < height
    ensures Index(width, x, y) < width * height
  {
    MulMonotone(y + 1, height, width);
  }

  /** An in-range coordinate pair lands inside the buffer, at a position
      from which the pair is recovered by division and remainder. */
  lemma IndexInBounds(width: nat, height: nat, x: nat, y: nat)
    requires x < width && y < height
    ensures Index(width, x, y) < width * height
    ensures Index(width, x, y) / width == y && Index(width, x, y) % width == x
  {
    IndexBelow(width, height, x, y);
    DivModOf(y, x, width);
  }

  /** Every position of a width x height buffer is the flat position of one
      in-range coordinate pair. */
  lemma FlatIndex(width: nat, height: nat, j: nat)
    requires j < width * height
    ensures 0 < width && j % width < width && j / width < height
    ensures Index(width, j % width, j / width) == j
  {
    var q, r := j / width, j % width;
    if height <= q {
      MulMonotone(height, q, width);
    }
  }

  /** Distinct in-range coordinate pairs address distinct pixels. */
  lemma IndexInjective(width: nat, height: nat, x1: nat, y1: nat, x2: nat, y2: nat)
    requires x1 < width && y1 < height && x2 < width && y2 < height
    requires Index(width, x1, y1) == Index(width, x2, y2)
    ensures x1 == x2 && y1 == y2
  {
    IndexInBounds(width, height, x1, y1);
    IndexInBounds(width, height, x2, y2);
  }

  /** The pixel at (x, y) of a buffer holding exactly width * height pixels. */
  function PixelAt(data: seq<Color>, width: nat, height: nat, x: nat, y: nat): Color
    requires |data| == width * height && x < width && y < height
  {
    IndexBelow(width, height, x, y);
    data[Index(width, x, y)]
  }

  /** Overwriting one position changes the pixel at that coordinate pair and no other. */
  lemma UpdateFrame(data: seq<Color>, width: nat, height: nat, x0: nat, y0: nat, c: Color)
    requires |data| == width * height && x0 < width && y0 < height
    ensures Index(width, x0, y0) < |data|
    ensures PixelAt(data[Index(width, x0, y0) := c], width, height, x0, y0) == c
    ensures forall x: nat, y: nat :: x < width && y < height && (x != x0 || y != y0) ==>
      PixelAt(data[Index(width, x0, y0) := c], width, height, x, y) == PixelAt(data, width, height, x, y)
  {
    IndexBelow(width, height, x0, y0);
    forall x: nat, y: nat | x < width && y < height && (x != x0 || y != y0)
      ensures PixelAt(data[Index(width, x0, y0) := c], width, height, x, y) == PixelAt(data, width, height, x, y)
    {
      IndexBelow(width, height, x, y);
      if Index(width, x, y) == Index(width, x0, y0) {
        IndexInjective(width, height, x, y, x0, y0);
      }
    }
  }

  function RowEnd(start: (nat, nat), end: (nat, nat)): nat {
    if end.1 < start.1 then start.1 else end.1
  }

  /** The state of a stateful per-pixel operation just before it is called at
      (x, y), when it is run over the rectangle column by column (outer loop
      over x, inner loop over y) starting from `init`. Row `RowEnd` of a
      column stands for "after the whole column". */
  function StateBefore<S>(op: (S, nat, nat) -> (Color, S), init: S,
                          start: (nat, nat), end: (nat, nat), x: nat, y: nat): S
    requires start.0 <= x && start.1 <= y <= RowEnd(start, end)
    decreases x - start.0, y - start.1
  {
    if y > start.1 then op(StateBefore(op, init, start, end, x, y - 1), x, y - 1).1
    else if x > start.0 then StateBefore(op, init, start, end, x - 1, RowEnd(start, end))
    else init
  }

  /** Any property of the state that the operation preserves holds before
      every call of the column-by-column traversal. */
  lemma {:induction false} StateBeforePreserves<S>(op: (S, nat, nat) -> (Color, S), init: S,
                                                   start: (nat, nat), end: (nat, nat),
                                                   x: nat, y: nat, P: S -> bool)
    requires start.0 <= x && start.1 <= y <= RowEnd(start, end)
    requires P(init)
    requires forall s: S, px: nat, py: nat :: P(s) ==> P(op(s, px, py).1)
    ensures P(StateBefore(op, init, start, end, x, y))
    decreases x - start.0, y - start.1
  {
    if y > start.1 {
      StateBeforePreserves(op, init, start, end, x, y - 1, P);
    } else if x > start.0 {
      StateBeforePreserves(op, init, start, end, x - 1, RowEnd(start, end), P);
    }
  }

  /** The decoded image: its size, its colour layout and a row-major vector of pixels. */
  class Image {
    var width: nat
    var height: nat
    var colorType: ColorType
    var data: seq<Color>

    /** The pixel vector holds exactly one colour per coordinate pair. */
    predicate Valid()
      reads this
    {
      |data| == width * height
    }

    constructor (width: nat, height: nat, colorType: ColorType, data: seq<Color>)
      ensures this.width == width && this.height == height
      ensures this.colorType == colorType && this.data == data
    {
      this.width := width;
      this.height := height;
      this.colorType := colorType;
      this.data := data;
    }

    /** Read the pixel at (x, y): only the flat position is bounds-checked. */
    function Get(x: nat, y: nat): (r: Option<Color>)
      reads this
      ensures r.Some? <==> Index(width, x, y) < |data|
      ensures r.Some? ==> r.value == data[Index(width, x, y)]
    {
      if Index(width, x, y) < |data| then Some(data[Index(width, x, y)]) else None
    }

    /** Write colour `c` at (x, y) through the flat position; `ok` is false
        when the position is outside the vector, which the source reports by panicking. */
    method Put(x: nat, y: nat, c: Color) returns (ok: bool)
      modifies this`data
      ensures ok <==> Index(width, x, y) < |old(data)|
      ensures data == if ok then old(data)[Index(width, x, y) := c] else old(data)
    {
      ok := Index(width, x, y) < |data|;
      if ok {
        data := data[Index(width, x, y) := c];
      }
    }

    /** Run `op` on every pixel of the half-open rectangle [start, end), column
        by column, writing each result in place and threading the operation's
        own state from `init`; `final` is the state after the last call. */
    method AddRectangle<S>(start: (nat, nat), end: (nat, nat),
                           op: (S, nat, nat) -> (Color, S), init: S) returns (final: S)
      requires Valid()
      requires IsEmpty(start, end) || (end.0 <= width && end.1 <= height)
      modifies this`data
      ensures Valid()
      ensures final == StateBefore(op, init, start, end, if end.0 < start.0 then start.0 else end.0, start.1)
      ensures IsEmpty(start, end) ==> data == old(data) && final == init
      ensures forall x: nat, y: nat :: x < width && y < height ==>
        PixelAt(data, width, height, x, y)
          == if InRect(start, end, x, y) then op(StateBefore(op, init, start, end, x, y), x, y).0
             else old(PixelAt(data, width, height, x, y))
    {
      ghost var orig := data;
      final := init;
      var x := start.0;
      while x < end.0
        invariant start.0 <= x <= if end.0 < start.0 then start.0 else end.0
        invariant Valid()
        invariant final == StateBefore(op, init, start, end, x, start.1)
        invariant IsEmpty(start, end) ==> data == orig && final == init
        invariant Filled(data, orig, width, height, start, end, op, init, x, start.1)
      {
        var y := start.1;
        while y < end.1
          invariant start.1 <= y <= RowEnd(start, end)
          invariant Valid()
          invariant final == StateBefore(op, init, start, end, x, y)
          invariant IsEmpty(start, end) ==> data == orig && final == init
          invariant Filled(data, orig, width, height, start, end, op, init, x, y)
        {
          var step := op(final, x, y);
          FilledStep(data, orig, width, height, start, end, op, init, x, y);
          var ok := Put(x, y, step.0);
          final := step.1;
          y := y + 1;
        }
        FilledNextColumn(data, orig, width, height, start, end, op, init, x);
        x := x + 1;
      }
      FilledAll(data, orig, width, height, start, end, op, init, x);
    }
  }

  /** Pixel (px, py) comes before (x, y) in the column-by-column traversal of the rectangle. */
  predicate Visited(start: (nat, nat), end: (nat, nat), x: nat, y: nat, px: nat, py: nat) {
    (start.0 <= px < x && start.1 <= py < end.1) || (px == x && start.1 <= py < y)
  }

  /** The fill invariant: the pixels visited before (x, y) hold the results
      of `op`, all others their original colour. */
  ghost predicate Filled<S>(data: seq<Color>, orig: seq<Color>, width: nat, height: nat,
                            start: (nat, nat), end: (nat, nat), op: (S, nat, nat) -> (Color, S), init: S,
                            x: nat, y: nat)
    requires |data| == width * height && |orig| == width * height
  {
    forall px: nat, py: nat :: px < width && py < height ==>
      PixelAt(data, width, height, px, py)
        == if Visited(start, end, x, y, px, py) && start.0 <= px && start.1 <= py <= RowEnd(start, end)
           then op(StateBefore(op, init, start, end, px, py), px, py).0
           else PixelAt(orig, width, height, px, py)
  }

  lemma FilledStep<S>(data: seq<Color>, orig: seq<Color>, width: nat, height: nat,
                      start: (nat, nat), end: (nat, nat), op: (S, nat, nat) -> (Color, S), init: S,
                      x: nat, y: nat)
    requires |data| == width * height && |orig| == width * height
    requires InRect(start, end, x, y) && x < width && y < height
    requires Filled(data, orig, width, height, start, end, op, init, x, y)
    ensures Index(width, x, y) < |data|
    ensures Filled(data[Index(width, x, y) := op(StateBefore(op, init, start, end, x, y), x, y).0],
                   orig, width, height, start, end, op, init, x, y + 1)
  {
    UpdateFrame(data, width, height, x, y, op(StateBefore(op, init, start, end, x, y), x, y).0);
  }

  lemma FilledNextColumn<S>(data: seq<Color>, orig: seq<Color>, width: nat, height: nat,
                            start: (nat, nat), end: (nat, nat), op: (S, nat, nat) -> (Color, S), init: S,
                            x: nat)
    requires |data| == width * height && |orig| == width * height
    requires Filled(data, orig, width, height, start, end, op, init, x, RowEnd(start, end))
    ensures Filled(data, orig, width, height, start, end, op, init, x + 1, start.1)
  {
  }

  lemma FilledAll<S>(data: seq<Color>, orig: seq<Color>, width: nat, height: nat,
                     start: (nat, nat), end: (nat, nat), op: (S, nat, nat) -> (Color, S), init: S,
                     x: nat)
    requires |data| == width * height && |orig| == width * height
    requires x == if end.0 < start.0 then start.0 else end.0
    requires Filled(data, orig, width, height, start, end, op, init, x, start.1)
    ensures forall px: nat, py: nat :: px < width && py < height ==>
      PixelAt(data, width, height, px, py)
        == if InRect(start, end, px, py) then op(StateBefore(op, init, start, end, px, py), px, py).0
           else PixelAt(orig, width, height, px, py)
  {
    forall px: nat, py: nat | px < width && py < height
      ensures PixelAt(data, width, height, px, py)
        == if InRect(start, end, px, py) then op(StateBefore(op, init, start, end, px, py), px, py).0
           else PixelAt(orig, width, height, px, py)
    {
      assert Visited(start, end, x, start.1, px, py) <==> InRect(start, end, px, py);
    }
  }

  /** For a valid buffer every in-range coordinate pair reads its own pixel. */
  lemma GetInBounds(img: Image, x: nat, y: nat)
    requires img.Valid() && x < img.width && y < img.height
    ensures img.Get(x, y) == Some(PixelAt(img.data, img.width, img.height, x, y))
  {
    IndexBelow(img.width, img.height, x, y);
  }

  /** The column is not checked on its own: column `width` of row y reads
      column 0 of row y + 1 instead of failing. */
  lemma GetAliasesNextRow(img: Image, y: nat)
    requires img.Valid() && 0 < img.width && y + 1 < img.height
    ensures img.Get(img.width, y).Some?
    ensures img.Get(img.width, y) == img.Get(0, y + 1)
  {
    GetInBounds(img, 0, y + 1);
  }
}
