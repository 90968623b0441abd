# Glitch slicer: a verified model

The program loads an RGBA8 PNG into a floating-point pixel buffer. It cuts the
buffer into vertical strips 50 pixels wide, and cuts each strip at random rows
into cells. Each cell is then repainted: a black frame, and inside it the
cell's mean colour shifted by a top-to-bottom gradient and by feedback-filtered
noise, clamped to [0, 1]. Finally the buffer is converted back to a PNG image.

The model is written in Dafny:

- `Pixels`: colours, row-major addressing and the `Image` class. The class's
  `data` field is rewritten in place by `Put` (`get_mut` followed by a store)
  and by `AddRectangle`.
- `Codec`: conversion between the PNG library's byte image and the buffer
  (`new_from_libpng`, `to_libpng`).
- `Stats`: the mean colour of a rectangle (`get_mean_color_rect`).
- `Partition`: the strip count, the split points and their sort, and the cells
  of a strip.
- `Painter`: the per-pixel closure that `main` passes to `add_rectangle`.
- `Glitch`: the strip/cell loop of `main` (`SliceImage`), and the whole of
  `main` from the decoded PNG image to the re-encoded one (`GlitchImage`).

The closure given to `add_rectangle` mutates captured state (`last_r`, and the
random generator). It is modelled as a function `(S, x, y) -> (Color, S)` that
threads its state explicitly. `StateBefore` gives that state just before the
call at (x, y), for the traversal order of the source: outer loop over x,
inner loop over y. The random generator is one sequential source, modelled as
a value `Random` plus a cursor, the index of the next draw.

## Model

| member | source | states |
|---|---|---|
| Pixels.Image.constructor | src/main.rs:36-41 | the new image holds exactly the given width, height, colour layout and pixel vector |
| Pixels.Image.Get | src/main.rs:64-67 | a pixel is returned exactly when the flat position `y*width+x` lies inside the vector, and it is the element at that position |
| Pixels.Image.Put | src/main.rs:69-72 | the store succeeds exactly when the flat position lies inside the vector; then only that element is replaced, otherwise nothing changes |
| Pixels.Index | src/main.rs:66 | defines the flat position `y*width+x`; for x below the width it lies in row y's span [y·width, y·width + width) |
| Pixels.IndexBelow | src/main.rs:66 | an in-range (x, y) maps inside a width×height vector |
| Pixels.FlatIndex | src/main.rs:66 | every position of a width×height vector is the flat position of one in-range (x, y) |
| Pixels.IndexInBounds | src/main.rs:66 | an in-range (x, y) maps inside a width×height vector, and x and y are recovered from the position by remainder and division |
| Pixels.IndexInjective | src/main.rs:66 | distinct in-range coordinate pairs address distinct elements |
| Pixels.UpdateFrame | src/main.rs:80 | writing one pixel changes the colour at that coordinate pair and at no other |
| Pixels.GetInBounds | src/main.rs:65-67 | on a valid image every in-range (x, y) reads its own pixel |
| Pixels.GetAliasesNextRow | src/main.rs:66 | column `width` of row y is not rejected: it reads column 0 of row y+1 |
| Pixels.Image.AddRectangle | src/main.rs:74-83 | every pixel of [start, end) becomes the closure's result for that pixel, computed from the state left by the earlier calls in column-by-column order; every other pixel keeps its colour; an empty rectangle changes nothing; the returned state is the state after the last call |
| Pixels.StateBeforePreserves | src/main.rs:78-80 | any property of the closure's state that each call preserves holds before every call of the traversal |
| Codec.PixelCountAsWritten | src/main.rs:24 | the pixel count as written: the 32-bit product of the dimensions, equal to width×height exactly when that product fits in 32 bits |
| Codec.PixelCountWraps | src/main.rs:24 | a 65536×65536 image is given zero pixels |
| Codec.PixelCount | src/main.rs:24 | the corrected pixel count is exactly width×height, and it fits in 64 bits |
| Codec.Normalize | src/main.rs:29-32 | a byte divided by 255 lies in [0, 1] |
| Codec.PixelFromBytes | src/main.rs:29-32 | the colour unpacked from four bytes has every channel in [0, 1] |
| Codec.DecodeSpec | src/main.rs:28-34 | decoding n pixels yields n colours, colour i built from bytes 4i .. 4i+3 |
| Codec.DecodePixels | src/main.rs:27-34 | the push loop produces exactly the n decoded pixels in order |
| Codec.NewFromLibpng | src/main.rs:20-42 | anything but RGBA8 fails; with the corrected pixel count, a byte vector shorter than 4×width×height fails on a missing byte; otherwise the result is a new valid image with the PNG's dimensions and layout, whose pixels are the decoded bytes |
| Codec.ToByte | src/main.rs:50-53 | a channel c whose scaled value 255·c lies in (−1, 256) converts to 255·c truncated toward zero: b ≤ 255·c < b+1 when 255·c ≥ 0, and 0 when 255·c is negative |
| Codec.UnitEncodable | src/main.rs:50-53 | every channel in [0, 1] converts, 0 to byte 0 and 1 to byte 255 |
| Codec.NearUnitChannels | src/main.rs:50-53 | channels just outside [0, 1] still convert (1.002 to 255, −0.001 to 0); 256/255 and −1/255 do not |
| Codec.ColorBytes | src/main.rs:50-53 | defines the four pushes of one pixel: byte k is channel k (r, g, b, a) converted; an opaque colour has alpha byte 255, and black is 0, 0, 0, 255 |
| Codec.ByteRoundTrip | src/main.rs:50-53 | a byte normalised into [0, 1] converts back to the same byte |
| Codec.UnitColorEncodable | src/main.rs:50-53 | a colour with every channel in [0, 1] converts in every channel |
| Codec.EncodableFromPixels | src/main.rs:48-54 | a buffer converts when the pixel at every coordinate pair does |
| Codec.EncodeSpec | src/main.rs:47-54 | the byte vector has four bytes per pixel, byte 4j+k being channel k of pixel j as a byte |
| Codec.EncodedPixel | src/main.rs:48-54 | pixel j occupies bytes 4j .. 4j+3 of the encoding, in r, g, b, a order |
| Codec.DecodedPixelBytes | src/main.rs:29-32 | a decoded pixel converts back to the four bytes it was unpacked from |
| Codec.DecodeEncodeRoundTrip | src/main.rs:20-62 | decoded pixels all convert, and encoding n decoded pixels gives back the first 4n bytes |
| Codec.EncodePixels | src/main.rs:47-54 | packing succeeds exactly when every channel converts, and then yields the encoded bytes; otherwise it fails with a channel-out-of-range error |
| Codec.ToLibpng | src/main.rs:45-62 | conversion succeeds exactly when every channel converts and both dimensions fit in 32 bits; it names the failing condition; on success the image keeps width, height and layout and holds 4×width×height encoded bytes |
| Codec.RoundTrip | src/main.rs:20-62 | decoding a well-formed RGBA8 image and converting it back returns the same image |
| Stats.MeanColorRect | src/main.rs:86-105 | a mean exists exactly when the rectangle has positive area, and it is the channel-wise sum of the rectangle's pixels divided by the area |
| Stats.Area | src/main.rs:98 | defines `num_pixel`, the width times the height of the rectangle; it is zero exactly when the rectangle is empty |
| Stats.ColumnSumFrame | src/main.rs:90-96 | a column sum depends only on the pixels of its own rows |
| Stats.RectSumFrame | src/main.rs:88-97 | a rectangle sum depends only on the pixels of its own rectangle |
| Stats.ConstantColumnSum | src/main.rs:90-96 | a column of one colour sums to that colour times its height |
| Stats.ConstantRectSum | src/main.rs:88-97 | a rectangle of one colour sums to that colour times its area |
| Stats.ConstantRegionMean | src/main.rs:86-105 | the mean of a non-empty rectangle of one colour is that colour |
| Partition.NumSlice | src/main.rs:114-115 | the number of strips is the largest n with 50n ≤ width |
| Partition.NumSplit | src/main.rs:120 | each strip gets between four and eight split samples |
| Partition.Truncate | src/main.rs:124 | a non-negative value truncates to the integer n with n ≤ v < n+1 |
| Partition.Fraction | src/main.rs:121-123 | the samples followed by the pushed 0 and 1 all lie in [0, 1] |
| Partition.ScaledPoint | src/main.rs:124 | a scaled point never exceeds the height, and a scaled sample lies strictly below a positive height |
| Partition.ScaledPoints | src/main.rs:121-124 | there are k+2 points; the two pushed entries scale to 0 and to the height; every point lies in [0, height] |
| Partition.Insert | src/main.rs:126 | insertion adds exactly one element, so the multiset grows by that element |
| Partition.InsertSorted | src/main.rs:126 | inserting into a sorted sequence keeps it sorted |
| Partition.Sort | src/main.rs:126 | the result is sorted and a permutation of the input |
| Partition.SortedPointsPartition | src/main.rs:121-126 | a sorted permutation of points in [0, height] that include 0 and the height starts at 0, ends at the height and is non-decreasing |
| Partition.SplitPoints | src/main.rs:119-126 | the sorted points of a strip have k+2 entries, form a partition of [0, height), and are a permutation of the scaled points |
| Partition.CellStart | src/main.rs:129 | defines the cell's top-left corner: the first column of strip x (a multiple of 50, with quotient x) and row p[y] |
| Partition.CellEnd | src/main.rs:130 | defines the cell's exclusive bottom-right corner: 50 columns right of its start, on the row where the next cell starts |
| Partition.CellOf | src/main.rs:128-130 | every row between the first and last point lies in the cell this returns |
| Partition.CellUnique | src/main.rs:128-130 | of a partition, a row of [0, height) lies in at most one cell |
| Partition.CellInBounds | src/main.rs:128-130 | every cell of a strip is an ordered rectangle inside the buffer |
| Partition.CellsTileStrip | src/main.rs:117-130 | a pixel lies in the strip's columns and in rows [0, height) exactly when it lies in some cell of the strip, and then in only one |
| Painter.UintSub | src/main.rs:140-141 | unsigned subtraction is the integer difference when it is non-negative, and wraps modulo 2^64 otherwise |
| Painter.OnBorder | src/main.rs:140-141 | defines the border test with the unsigned `end - 4`; the first three columns and rows of a cell are always border, and so are its last four columns and rows when `end - 4` does not wrap |
| Painter.BorderInsideCell | src/main.rs:139-142 | inside the cell, a pixel is a border pixel exactly when it lies outside [start+3, end−4) on either axis |
| Painter.Clamp | src/main.rs:154-156 | the clamped value lies in [0, 1]; values in [0, 1] are kept, values below become 0, values above become 1 |
| Painter.OffY | src/main.rs:144-147 | the gradient of a row of the cell lies in (−0.25, 0] |
| Painter.NoiseStep | src/main.rs:148-152 | one noise update keeps the feedback variable within [−0.2, 0.2] |
| Painter.InteriorColor | src/main.rs:154-157 | an interior colour is opaque, in range, and shifts r, g and b by the same amount before clamping |
| Painter.Paint | src/main.rs:138-159 | every painted colour is opaque and in range; a border pixel is black and draws no random number; an interior pixel draws one number, updates the feedback variable, and is the mean shifted by that variable and the gradient |
| Painter.PaintOp | src/main.rs:138-159 | defines the closure passed to add_rectangle: every colour it returns is opaque and in range; at a border pixel it returns black and leaves its state unchanged; at an interior pixel it consumes exactly one draw |
| Painter.FeedbackBounded | src/main.rs:136-152 | starting from 0, the feedback variable stays within [−0.2, 0.2] at every pixel of the cell, whatever the random draws |
| Glitch.CellMean | src/main.rs:132 | for a cell with pixels, the colour it is painted from is the channel-wise sum of its original pixels divided by its area |
| Glitch.PaintCell | src/main.rs:132-159 | painting a cell whose pixels still hold their original colours leaves its border pixels black, and every other pixel the cell's original mean shifted on r, g and b by one amount in (−0.45, 0.2], clamped, alpha 1 |
| Glitch.CellPaintedFrame | src/main.rs:128-159 | a painted cell stays painted while only pixels outside it change |
| Glitch.CellsPaintedOutside | src/main.rs:128-159 | painting a cell keeps the earlier cells of its strip, which lie above it, painted |
| Glitch.StripsPaintedOutside | src/main.rs:117-160 | painting a cell keeps the cells of the strips left of it painted |
| Glitch.PaintedPixel | src/main.rs:128-159 | a pixel of a painted strip lies in the cell of its row, that cell is painted, and on the cell's border the pixel is black |
| Glitch.StripsPaintedAppend | src/main.rs:117-160 | once every cell of the next strip is painted, that strip joins the painted strips |
| Glitch.PaintNextCell | src/main.rs:129-159 | one pass of the cell loop: the cell gets painted from its mean in the original image; the earlier cells of the strip and the strips to its left stay painted; the pixels below it in the strip and right of the strip are untouched |
| Glitch.PaintStrip | src/main.rs:128-160 | every cell of the strip gets painted from its mean in the original image; the strips to its left stay painted; the pixels to its right are untouched |
| Glitch.SliceImage | src/main.rs:114-161 | each full strip is cut at a partition of [0, height) with six to ten points, and every cell of every strip is painted from its mean in the original image (border black, interior the shifted mean); every pixel of the strips ends opaque with channels in [0, 1], and the columns of the trailing partial strip are unchanged |
| Glitch.GlitchImage | src/main.rs:107-166 | decoding fails as new_from_libpng does; a decoded image always converts back, keeping its size and layout, with alpha byte 255 for every pixel of the strips and the original four bytes for every pixel right of them |
| Glitch.RepaintAndEncode | src/main.rs:112-164 | repainting a decoded image and converting it back succeeds, with alpha byte 255 in the strips and the original bytes right of them |
| Glitch.SlicedImageEncodable | src/main.rs:112-164 | after the repaint every pixel converts: the repainted ones are in [0, 1], the others still hold decoded colours |
| Glitch.SlicedImageBytes | src/main.rs:112-164 | in the encoding of the repainted image a repainted pixel has alpha byte 255 and any other pixel its original four bytes |
| Glitch.SlicedPixelBytes | src/main.rs:112-164 | the same, for one pixel |

Behaviour of the source that the model keeps:

- `get` checks only the flat position, not the column (`Pixels.GetAliasesNextRow`).
- The split points may repeat after truncation, so a partition is
  non-decreasing and may have empty cells.
- The encoder does not clamp. A channel whose scaled value lies in (−1, 256)
  is truncated toward zero, so 1.002 becomes 255 and −0.001 becomes 0. Any
  other channel is an error.
- The split count is fixed at four to eight and the strip width at 50.

## Left out

- PNG file loading and storing (`load_png`, `store_png`), the `Show`
  implementation and `println!`: I/O, outside the model.
- The random generator is an input, `Glitch.Random`; which numbers it produces is not modelled.
- Floating point: `f32` is modelled by exact reals, so rounding, NaN and infinities are not modelled.
- Stats.MeanColorRect: a zero-area rectangle yields no mean instead of the source's 0/0 NaN. `main` then paints with black, but the cell has no pixels, so nothing is painted.
- Stats.MeanColorRect: requires the rectangle to be ordered and inside the buffer. `main` calls it only on such cells (`Partition.CellInBounds`).
- Pixels.Image.AddRectangle: requires a non-empty rectangle to lie inside the buffer. Outside it the source either panics or writes a pixel of the next row; `main` never passes such a rectangle.
- Codec.ToLibpng: requires a valid image (one pixel per coordinate pair). The model's decoder, with the corrected pixel count, produces only such images, and the model's methods keep the invariant. The source's decoder, with the wrapping count, can produce an image with fewer pixels (see Findings), on which to_libpng reads past the vector and panics.
- Codec.NewFromLibpng: uses the corrected pixel count `Codec.PixelCount`. As written, a product of 2^32 or more wraps, so the source decodes too few pixels (none for 65536×65536) and returns an image whose vector is shorter than width×height, with no error.
- Codec.NewFromLibpng: the source panics (`fail!`, out-of-range `get`) where the model returns an error value.
- Codec.EncodePixels: a failed `to_u8().unwrap()` panics in the source; here it is the error `ChannelOutOfRange`, taken when a scaled channel lies outside (−1, 256).
- Partition.Sort: the library sort is modelled as an insertion sort on a sequence; only its result (sorted and a permutation) matters.
- Painter.OffY: guards against an empty cell, which an interior pixel never lies in.
- Pixels.Image.Get: the flat position y·width+x is computed over unbounded integers. The source computes it in 64-bit `uint`, which wraps, so coordinates whose position overflows can land inside the vector; the model reports them as out of range.
- Pixels.Image.Put: the same unbounded flat position as `Get`; a write whose 64-bit position wraps into the vector is not modelled.
- Painter.OnBorder: `start + 3` is computed over unbounded integers; it cannot overflow for coordinates of images that fit in memory.

## Findings

| source | as written | input that shows it | evidently intended | confidence | as-written member | corrected member |
|---|---|---|---|---|---|---|
| src/main.rs:24 | the pixel count is the product of the two `u32` dimensions, computed in `u32`, so it wraps modulo 2^32 | a 65536×65536 RGBA8 image is given 0 pixels, so the decoded buffer is empty while width×height is 2^32 | the product taken after widening to `uint`, giving width×height | not executed | Codec.PixelCountAsWritten, Codec.PixelCountWraps | Codec.PixelCount, used by Codec.NewFromLibpng |
