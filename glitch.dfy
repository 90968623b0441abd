// The body of `main` between decoding and encoding: for every 50-pixel strip,
// a random partition of the rows into cells, and every cell repainted from
// its mean colour.
module Glitch {
  import opened Wrappers
  import opened Pixels
  import opened Codec
  import opened Stats
  import opened Partition
  import opened Painter

  /** The one sequential random source: the i-th draw, read either as an
      unsigned integer or as an f32 sample in [0, 1). */
  datatype Random = Random(uints: nat -> nat, floats: nat -> UnitSample)

  /** The colour a cell is painted from: the mean of its pixels in `orig`, or
      black for a cell without pixels (whose colour is never used). */
  function CellMean(orig: seq<Color>, width: nat, height: nat, start: (nat, nat), end: (nat, nat)): (m: Color)
    requires |orig| == width * height && Fits(width, height, start, end)
    ensures Area(start, end) > 0 ==>
      m == DivColor(RectSum(orig, width, height, start.0, end.0, start.1, end.1), Area(start, end) as real)
  {
    if Area(start, end) == 0 then Black
    else DivColor(RectSum(orig, width, height, start.0, end.0, start.1, end.1), Area(start, end) as real)
  }

  /** The cell [start, end) of `data` is painted as `main` paints it from the
      image `orig`: border pixels black, every other pixel the cell's mean in
      `orig` with one shift in (-0.45, 0.2] added to r, g and b (the feedback
      noise plus the gradient), clamped, alpha 1. */
  ghost predicate CellPainted(orig: seq<Color>, data: seq<Color>, width: nat, height: nat,
                              start: (nat, nat), end: (nat, nat))
  {
    && |orig| == width * height && |data| == width * height && Fits(width, height, start, end)
    && forall px: nat, py: nat :: InRect(start, end, px, py) ==>
         if OnBorder(start, end, px, py) then PixelAt(data, width, height, px, py) == Black
         else exists shift: real :: -0.45 < shift <= 0.2
                && PixelAt(data, width, height, px, py) == InteriorColor(CellMean(orig, width, height, start, end), shift)
  }

  /** Cells 0 .. n-1 of strip x, cut at the points p, are painted. */
  ghost predicate CellsPainted(orig: seq<Color>, data: seq<Color>, width: nat, height: nat,
                               x: nat, p: seq<nat>, n: nat)
  {
    forall j :: 0 <= j < n && j + 1 < |p| ==>
      CellPainted(orig, data, width, height, CellStart(x, p, j), CellEnd(x, p, j))
  }

  /** Every cell of strip i, cut at the points parts[i], is painted. */
  ghost predicate StripsPainted(orig: seq<Color>, data: seq<Color>, width: nat, height: nat,
                                parts: seq<seq<nat>>)
  {
    forall i :: 0 <= i < |parts| ==> CellsPainted(orig, data, width, height, i, parts[i], |parts[i]|)
  }

  /** Once every cell of one more strip is painted, that strip joins the
      painted ones. */
  lemma StripsPaintedAppend(orig: seq<Color>, data: seq<Color>, width: nat, height: nat,
                            parts: seq<seq<nat>>, p: seq<nat>, n: nat)
    requires StripsPainted(orig, data, width, height, parts)
    requires CellsPainted(orig, data, width, height, |parts|, p, n) && |p| <= n + 1
    ensures StripsPainted(orig, data, width, height, parts + [p])
  {
    forall i | 0 <= i < |parts| + 1
      ensures CellsPainted(orig, data, width, height, i, (parts + [p])[i], |(parts + [p])[i]|)
    {
      if i < |parts| {
        assert (parts + [p])[i] == parts[i];
      } else {
        assert (parts + [p])[i] == p;
      }
    }
  }

  /** Running the painter over a cell whose pixels still hold their colours
      in `orig` paints the cell. */
  lemma PaintCell(orig: seq<Color>, before: seq<Color>, after: seq<Color>, width: nat, height: nat,
                  start: (nat, nat), end: (nat, nat), mean: Color, noise: nat -> UnitSample, cursor: nat)
    requires |orig| == width * height && |before| == width * height && |after| == width * height
    requires Fits(width, height, start, end) && mean == CellMean(orig, width, height, start, end)
    requires forall px: nat, py: nat :: px < width && py < height ==>
      PixelAt(after, width, height, px, py)
        == if InRect(start, end, px, py)
           then PaintOp(start, end, mean, noise)(
                  StateBefore(PaintOp(start, end, mean, noise), PainterState(0.0, cursor), start, end, px, py), px, py).0
           else PixelAt(before, width, height, px, py)
    ensures CellPainted(orig, after, width, height, start, end)
  {
    var op := PaintOp(start, end, mean, noise);
    forall px: nat, py: nat | InRect(start, end, px, py)
      ensures if OnBorder(start, end, px, py) then PixelAt(after, width, height, px, py) == Black
              else exists shift: real :: -0.45 < shift <= 0.2
                     && PixelAt(after, width, height, px, py) == InteriorColor(mean, shift)
    {
      var s := StateBefore(op, PainterState(0.0, cursor), start, end, px, py);
      FeedbackBounded(start, end, mean, noise, cursor, px, py);
      var r := Paint(start, end, mean, noise, s, px, py);
      assert op(s, px, py) == r;
      if !OnBorder(start, end, px, py) {
        var shift := r.1.lastR + OffY(start, end, py);
        assert PixelAt(after, width, height, px, py) == InteriorColor(mean, shift);
      }
    }
  }

  /** A painted cell stays painted while only pixels outside it change. */
  lemma CellPaintedFrame(orig: seq<Color>, d1: seq<Color>, d2: seq<Color>, width: nat, height: nat,
                         start: (nat, nat), end: (nat, nat))
    requires CellPainted(orig, d1, width, height, start, end) && |d2| == width * height
    requires forall px: nat, py: nat :: InRect(start, end, px, py) && px < width && py < height ==>
      PixelAt(d2, width, height, px, py) == PixelAt(d1, width, height, px, py)
    ensures CellPainted(orig, d2, width, height, start, end)
  {
    var mean := CellMean(orig, width, height, start, end);
    forall px: nat, py: nat | InRect(start, end, px, py)
      ensures if OnBorder(start, end, px, py) then PixelAt(d2, width, height, px, py) == Black
              else exists shift: real :: -0.45 < shift <= 0.2
                     && PixelAt(d2, width, height, px, py) == InteriorColor(mean, shift)
    {
      if !OnBorder(start, end, px, py) {
        var shift: real :| -0.45 < shift <= 0.2 && PixelAt(d1, width, height, px, py) == InteriorColor(mean, shift);
        assert PixelAt(d2, width, height, px, py) == InteriorColor(mean, shift);
      }
    }
  }

  /** Painting the cell [start, end) keeps the earlier cells of its strip,
      which all lie above row start.1, painted. */
  lemma CellsPaintedOutside(orig: seq<Color>, d1: seq<Color>, d2: seq<Color>, width: nat, height: nat,
                            x: nat, p: seq<nat>, n: nat, start: (nat, nat), end: (nat, nat))
    requires CellsPainted(orig, d1, width, height, x, p, n) && |d1| == width * height && |d2| == width * height
    requires Sorted(p) && n < |p| && p[n] <= start.1
    requires forall px: nat, py: nat :: px < width && py < height && !InRect(start, end, px, py) ==>
      PixelAt(d2, width, height, px, py) == PixelAt(d1, width, height, px, py)
    ensures CellsPainted(orig, d2, width, height, x, p, n)
  {
    forall j | 0 <= j < n && j + 1 < |p|
      ensures CellPainted(orig, d2, width, height, CellStart(x, p, j), CellEnd(x, p, j))
    {
      assert p[j + 1] <= p[n];
      CellPaintedFrame(orig, d1, d2, width, height, CellStart(x, p, j), CellEnd(x, p, j));
    }
  }

  /** Painting a cell at or right of column start.0 keeps the cells of the
      strips left of it painted. */
  lemma StripsPaintedOutside(orig: seq<Color>, d1: seq<Color>, d2: seq<Color>, width: nat, height: nat,
                             parts: seq<seq<nat>>, start: (nat, nat), end: (nat, nat))
    requires StripsPainted(orig, d1, width, height, parts) && |d1| == width * height && |d2| == width * height
    requires |parts| * PIXELS_PER_SLICE <= start.0
    requires forall px: nat, py: nat :: px < width && py < height && !InRect(start, end, px, py) ==>
      PixelAt(d2, width, height, px, py) == PixelAt(d1, width, height, px, py)
    ensures StripsPainted(orig, d2, width, height, parts)
  {
    forall i, j | 0 <= i < |parts| && 0 <= j < |parts[i]| && j + 1 < |parts[i]|
      ensures CellPainted(orig, d2, width, height, CellStart(i, parts[i], j), CellEnd(i, parts[i], j))
    {
      MulMonotone(i + 1, |parts|, PIXELS_PER_SLICE);
      assert CellsPainted(orig, d1, width, height, i, parts[i], |parts[i]|);
      CellPaintedFrame(orig, d1, d2, width, height, CellStart(i, parts[i], j), CellEnd(i, parts[i], j));
    }
  }

  /** Pixel by pixel: a pixel of painted strip i lies in the cell of its row,
      that cell is painted, and the pixel is black when it is on the cell's
      border. */
  lemma PaintedPixel(orig: seq<Color>, data: seq<Color>, width: nat, height: nat,
                     parts: seq<seq<nat>>, i: nat, px: nat, py: nat)
    requires |data| == width * height
    requires StripsPainted(orig, data, width, height, parts)
    requires i < |parts| && IsPartition(parts[i], height)
    requires (i + 1) * PIXELS_PER_SLICE <= width
    requires i * PIXELS_PER_SLICE <= px < (i + 1) * PIXELS_PER_SLICE && py < height
    ensures var start := CellStart(i, parts[i], CellOf(parts[i], py));
            var end := CellEnd(i, parts[i], CellOf(parts[i], py));
            && InRect(start, end, px, py)
            && CellPainted(orig, data, width, height, start, end)
            && (OnBorder(start, end, px, py) ==> PixelAt(data, width, height, px, py) == Black)
  {
    var y := CellOf(parts[i], py);
    assert CellsPainted(orig, data, width, height, i, parts[i], |parts[i]|);
    assert CellPainted(orig, data, width, height, CellStart(i, parts[i], y), CellEnd(i, parts[i], y));
  }

  /** Repaint cell y of strip x, cut at the points `randoms`, drawing the
      painter's noise from position `first` of `rng`; `next` is the position
      after the last draw. The cell's pixels must still hold their colours in
      `orig`. The earlier cells of the strip and the strips left of it stay
      painted; the pixels below the cell and right of the strip stay
      untouched. */
  method PaintNextCell(img: Image, ghost orig: seq<Color>, rng: Random, ghost parts: seq<seq<nat>>,
                       x: nat, randoms: seq<nat>, y: nat, first: nat) returns (next: nat)
    requires img.Valid() && |orig| == img.width * img.height
    requires x < NumSlice(img.width) && |parts| == x
    requires IsPartition(randoms, img.height) && y + 1 < |randoms|
    requires StripsPainted(orig, img.data, img.width, img.height, parts)
    requires CellsPainted(orig, img.data, img.width, img.height, x, randoms, y)
    requires forall px: nat, py: nat :: px < img.width && py < img.height ==>
      if px < x * PIXELS_PER_SLICE || (px < (x + 1) * PIXELS_PER_SLICE && py < randoms[y])
      then Repainted(PixelAt(img.data, img.width, img.height, px, py))
      else PixelAt(img.data, img.width, img.height, px, py) == PixelAt(orig, img.width, img.height, px, py)
    modifies img`data
    ensures img.Valid()
    ensures StripsPainted(orig, img.data, img.width, img.height, parts)
    ensures CellsPainted(orig, img.data, img.width, img.height, x, randoms, y + 1)
    ensures forall px: nat, py: nat :: px < img.width && py < img.height ==>
      if px < x * PIXELS_PER_SLICE || (px < (x + 1) * PIXELS_PER_SLICE && py < randoms[y + 1])
      then Repainted(PixelAt(img.data, img.width, img.height, px, py))
      else PixelAt(img.data, img.width, img.height, px, py) == PixelAt(orig, img.width, img.height, px, py)
  {
    var start := CellStart(x, randoms, y);
    var end := CellEnd(x, randoms, y);
    CellInBounds(img.width, img.height, randoms, x, y);
    var color := MeanColorRect(img, start, end);
    // The cell's pixels are not yet repainted, so its mean is its mean in
    // the original image. A zero-area cell has no mean (the source's is
    // 0/0), but it has no pixels either, so black is never used.
    RectSumFrame(img.data, orig, img.width, img.height, start.0, end.0, start.1, end.1);
    var mean := if color.Some? then color.value else Black;
    ghost var before := img.data;
    var painted := img.AddRectangle(start, end, PaintOp(start, end, mean, rng.floats),
                                    PainterState(0.0, first));
    PaintCell(orig, before, img.data, img.width, img.height, start, end, mean, rng.floats, first);
    CellsPaintedOutside(orig, before, img.data, img.width, img.height, x, randoms, y, start, end);
    StripsPaintedOutside(orig, before, img.data, img.width, img.height, parts, start, end);
    next := painted.cursor;
    MulMonotone(x + 1, NumSlice(img.width), PIXELS_PER_SLICE);
  }

  /** Repaint the cells of strip x, cut at the points `randoms`, drawing the
      painter's noise from position `first` of `rng`; `next` is the position
      after the last draw. The strip's pixels must still hold their colours in
      `orig`; the strips left of it stay painted, the pixels right of it
      untouched. */
  method PaintStrip(img: Image, ghost orig: seq<Color>, rng: Random, ghost parts: seq<seq<nat>>,
                    x: nat, randoms: seq<nat>, first: nat) returns (next: nat)
    requires img.Valid() && |orig| == img.width * img.height
    requires x < NumSlice(img.width) && |parts| == x
    requires IsPartition(randoms, img.height)
    requires StripsPainted(orig, img.data, img.width, img.height, parts)
    requires forall px: nat, py: nat :: px < img.width && py < img.height ==>
      if px < x * PIXELS_PER_SLICE then Repainted(PixelAt(img.data, img.width, img.height, px, py))
      else PixelAt(img.data, img.width, img.height, px, py) == PixelAt(orig, img.width, img.height, px, py)
    modifies img`data
    ensures img.Valid()
    ensures StripsPainted(orig, img.data, img.width, img.height, parts + [randoms])
    ensures forall px: nat, py: nat :: px < img.width && py < img.height ==>
      if px < (x + 1) * PIXELS_PER_SLICE then Repainted(PixelAt(img.data, img.width, img.height, px, py))
      else PixelAt(img.data, img.width, img.height, px, py) == PixelAt(orig, img.width, img.height, px, py)
  {
    next := first;
    var y := 0;
    while y < |randoms| - 1
      invariant y <= |randoms| - 1
      invariant img.Valid()
      invariant StripsPainted(orig, img.data, img.width, img.height, parts)
      invariant CellsPainted(orig, img.data, img.width, img.height, x, randoms, y)
      invariant forall px: nat, py: nat :: px < img.width && py < img.height ==>
        if px < x * PIXELS_PER_SLICE || (px < (x + 1) * PIXELS_PER_SLICE && py < randoms[y])
        then Repainted(PixelAt(img.data, img.width, img.height, px, py))
        else PixelAt(img.data, img.width, img.height, px, py) == PixelAt(orig, img.width, img.height, px, py)
    {
      next := PaintNextCell(img, orig, rng, parts, x, randoms, y, next);
      y := y + 1;
    }
    StripsPaintedAppend(orig, img.data, img.width, img.height, parts, randoms, y);
  }

  /** Repaint every full strip of the image, consuming draws of `rng` from
      position `first`; `next` is the position after the last draw, and
      parts[i] the points at which strip i was cut. Every cell of every strip
      is painted from its mean in the original image, so every pixel of the
      strips ends opaque with channels in [0, 1]; the columns of the dropped
      trailing strip are untouched. */
  method SliceImage(img: Image, rng: Random, first: nat) returns (next: nat, ghost parts: seq<seq<nat>>)
    requires img.Valid()
    modifies img`data
    ensures img.Valid()
    ensures |parts| == NumSlice(img.width)
    ensures forall i :: 0 <= i < |parts| ==> IsPartition(parts[i], img.height) && 6 <= |parts[i]| <= 10
    ensures StripsPainted(old(img.data), img.data, img.width, img.height, parts)
    ensures forall x: nat, y: nat :: x < img.width && y < img.height ==>
      if x < NumSlice(img.width) * PIXELS_PER_SLICE
      then Repainted(PixelAt(img.data, img.width, img.height, x, y))
      else PixelAt(img.data, img.width, img.height, x, y) == old(PixelAt(img.data, img.width, img.height, x, y))
  {
    ghost var orig := img.data;
    next := first;
    parts := [];
    var numSlice := NumSlice(img.width);
    var x := 0;
    while x < numSlice
      invariant x <= numSlice
      invariant img.Valid()
      invariant |parts| == x
      invariant forall i :: 0 <= i < x ==> IsPartition(parts[i], img.height) && 6 <= |parts[i]| <= 10
      invariant StripsPainted(orig, img.data, img.width, img.height, parts)
      invariant forall px: nat, py: nat :: px < img.width && py < img.height ==>
        if px < x * PIXELS_PER_SLICE then Repainted(PixelAt(img.data, img.width, img.height, px, py))
        else PixelAt(img.data, img.width, img.height, px, py) == PixelAt(orig, img.width, img.height, px, py)
    {
      // Four to eight random rows, then the top and bottom of the strip.
      var numSplit := NumSplit(rng.uints(next));
      next := next + 1;
      var base := next;
      var samples := seq(numSplit, i requires 0 <= i < numSplit => rng.floats(base + i));
      next := next + numSplit;
      var randoms := SplitPoints(samples, img.height);
      next := PaintStrip(img, orig, rng, parts, x, randoms, next);
      parts := parts + [randoms];
      x := x + 1;
    }
  }

  /** The pixel transformation of `main`: decode the PNG image, repaint its
      strips from the draws of `rng`, and convert it back. Decoding fails as
      new_from_libpng does; a decoded image always converts back, keeps its
      size and layout, has opaque pixels in its strips, and keeps the bytes of
      the pixels right of the last full strip. */
  method GlitchImage(png: PngImage, rng: Random) returns (r: Result<PngImage, ImageError>)
    ensures png.colorType != RGBA8 ==> r == Err(UnsupportedFormat)
    ensures png.colorType == RGBA8 && |png.pixels| < 4 * (png.width * png.height) ==> r == Err(IndexOutOfRange)
    ensures png.colorType == RGBA8 && 4 * (png.width * png.height) <= |png.pixels| ==>
              && r.Ok?
              && r.value.width == png.width && r.value.height == png.height && r.value.colorType == RGBA8
              && |r.value.pixels| == 4 * (png.width * png.height)
              && forall x: nat, y: nat :: x < png.width && y < png.height ==>
                   if x < NumSlice(png.width) * PIXELS_PER_SLICE
                   then PixelBytes(r.value.pixels, png.width, png.height, x, y)[3] == 255
                   else PixelBytes(r.value.pixels, png.width, png.height, x, y)
                          == PixelBytes(png.pixels, png.width, png.height, x, y)
  {
    assert 4 * png.width * png.height == 4 * (png.width * png.height);
    var decoded := NewFromLibpng(png);
    if decoded.Err? {
      return Err(decoded.error);
    }
    r := RepaintAndEncode(decoded.value, png.pixels, rng);
  }

  /** The repaint and the conversion back, on an image decoded from the bytes p. */
  method RepaintAndEncode(img: Image, ghost p: seq<Byte>, rng: Random) returns (r: Result<PngImage, ImageError>)
    requires img.Valid() && img.width < U32_LIMIT && img.height < U32_LIMIT
    requires 4 * (img.width * img.height) <= |p| && img.data == DecodeSpec(p, img.width * img.height)
    modifies img`data
    ensures && r.Ok?
            && r.value.width == img.width && r.value.height == img.height && r.value.colorType == img.colorType
            && |r.value.pixels| == 4 * (img.width * img.height)
            && forall x: nat, y: nat :: x < img.width && y < img.height ==>
                 if x < NumSlice(img.width) * PIXELS_PER_SLICE
                 then PixelBytes(r.value.pixels, img.width, img.height, x, y)[3] == 255
                 else PixelBytes(r.value.pixels, img.width, img.height, x, y)
                        == PixelBytes(p, img.width, img.height, x, y)
  {
    ghost var orig := img.data;
    var next, parts := SliceImage(img, rng, 0);
    SlicedImageEncodable(img.data, orig, img.width, img.height, NumSlice(img.width) * PIXELS_PER_SLICE);
    SlicedImageBytes(img.data, orig, p, img.width, img.height, NumSlice(img.width) * PIXELS_PER_SLICE);
    r := ToLibpng(img);
    assert r.value.pixels == EncodeSpec(img.data);
  }

  /** After the strips are repainted every pixel has a byte value: the
      repainted ones are opaque with channels in [0, 1], the others still
      hold their decoded colours, which are in [0, 1] as well. */
  lemma SlicedImageEncodable(data: seq<Color>, decoded: seq<Color>, width: nat, height: nat, edge: nat)
    requires |data| == width * height && |decoded| == width * height
    requires forall j :: 0 <= j < |decoded| ==> UnitColor(decoded[j])
    requires forall x: nat, y: nat :: x < width && y < height ==>
      if x < edge
      then Repainted(PixelAt(data, width, height, x, y))
      else PixelAt(data, width, height, x, y) == PixelAt(decoded, width, height, x, y)
    ensures AllEncodable(data)
  {
    forall x: nat, y: nat | x < width && y < height
      ensures ColorEncodable(PixelAt(data, width, height, x, y))
    {
      IndexBelow(width, height, x, y);
      UnitColorEncodable(PixelAt(data, width, height, x, y));
    }
    EncodableFromPixels(data, width, height);
  }

  /** In the encoding of the repainted image a repainted pixel has alpha
      byte 255 and every other pixel its original four bytes. */
  lemma SlicedImageBytes(data: seq<Color>, decoded: seq<Color>, p: seq<Byte>, width: nat, height: nat, edge: nat)
    requires |data| == width * height && AllEncodable(data)
    requires 4 * (width * height) <= |p| && decoded == DecodeSpec(p, width * height)
    requires forall x: nat, y: nat :: x < width && y < height ==>
      if x < edge
      then Repainted(PixelAt(data, width, height, x, y))
      else PixelAt(data, width, height, x, y) == PixelAt(decoded, width, height, x, y)
    ensures |EncodeSpec(data)| == 4 * (width * height)
    ensures forall x: nat, y: nat :: x < width && y < height ==>
      if x < edge
      then PixelBytes(EncodeSpec(data), width, height, x, y)[3] == 255
      else PixelBytes(EncodeSpec(data), width, height, x, y) == PixelBytes(p, width, height, x, y)
  {
    assert |EncodeSpec(data)| == 4 * |data|;
    forall x: nat, y: nat | x < width && y < height
      ensures if x < edge
              then PixelBytes(EncodeSpec(data), width, height, x, y)[3] == 255
              else PixelBytes(EncodeSpec(data), width, height, x, y) == PixelBytes(p, width, height, x, y)
    {
      SlicedPixelBytes(data, decoded, p, width, height, edge, x, y);
    }
  }

  /** The encoded bytes of one pixel: alpha 255 when it was repainted, its
      original four bytes when it still holds its decoded colour. */
  lemma SlicedPixelBytes(data: seq<Color>, decoded: seq<Color>, p: seq<Byte>, width: nat, height: nat,
                         edge: nat, x: nat, y: nat)
    requires |data| == width * height && AllEncodable(data)
    requires 4 * (width * height) <= |p| && decoded == DecodeSpec(p, width * height)
    requires x < width && y < height
    requires if x < edge
             then Repainted(PixelAt(data, width, height, x, y))
             else PixelAt(data, width, height, x, y) == PixelAt(decoded, width, height, x, y)
    ensures |EncodeSpec(data)| == 4 * (width * height)
    ensures if x < edge
            then PixelBytes(EncodeSpec(data), width, height, x, y)[3] == 255
            else PixelBytes(EncodeSpec(data), width, height, x, y) == PixelBytes(p, width, height, x, y)
  {
    IndexBelow(width, height, x, y);
    var j := Index(width, x, y);
    var e := EncodeSpec(data);
    EncodedPixel(data, j);
    assert PixelBytes(e, width, height, x, y) == e[4 * j..4 * j + 4] == ColorBytes(data[j]);
    assert data[j] == PixelAt(data, width, height, x, y);
    if x < edge {
      UnitEncodable(1.0);
    } else {
      assert data[j] == decoded[j] == PixelFromBytes(p, j);
      DecodedPixelBytes(p, j);
      assert PixelBytes(p, width, height, x, y) == p[4 * j..4 * j + 4];
    }
  }
}
