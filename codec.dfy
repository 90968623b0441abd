// Conversion between the PNG library's byte image and the pixel buffer
// (Image::new_from_libpng and Image::to_libpng).
module Codec {
  import opened Wrappers
  import opened Pixels

  type Byte = b: int | 0 <= b < 256

  const U32_LIMIT: nat := 0x1_0000_0000
  const U64_LIMIT: nat := 0x1_0000_0000_0000_0000

  type U32 = n: nat | n < U32_LIMIT

  /** The PNG library's decoded image: 32-bit dimensions, a colour layout and
      the raw bytes, four per pixel for RGBA8. */
  datatype PngImage = PngImage(width: U32, height: U32, colorType: ColorType, pixels: seq<Byte>)

  datatype ImageError =
    | UnsupportedFormat    // the layout is not RGBA8
    | IndexOutOfRange      // a byte index past the end of the pixel vector
    | ChannelOutOfRange    // a scaled channel outside (-1, 256) has no byte value
    | DimensionTooLarge    // a dimension does not fit in 32 bits

  /** The pixel count as new_from_libpng computes it: the product of the two
      32-bit dimensions is taken in 32-bit arithmetic, so it wraps modulo 2^32. */
  function PixelCountAsWritten(width: U32, height: U32): (n: U32)
    ensures n == width * height <==> width * height < U32_LIMIT
  {
    (width * height) % U32_LIMIT
  }

  /** A 65536 x 65536 image is given a pixel count of zero. */
  lemma PixelCountWraps()
    ensures PixelCountAsWritten(65536, 65536) == 0
    ensures 65536 * 65536 == U32_LIMIT
  {
  }

  /** The pixel count with the product taken in 64-bit arithmetic, where two
      32-bit factors cannot overflow. */
  function PixelCount(width: U32, height: U32): (n: nat)
    ensures n < U64_LIMIT
    ensures n == width * height
  {
    var m: nat := U32_LIMIT - 1;
    MulMonotone(width, m, height);
    MulMonotone(height, m, m);
    MulMonotone(0, width, height);
    assert m * height == height * m;
    assert m * m < U64_LIMIT;
    width * height
  }

  /** A byte scaled into [0, 1]. */
  function Normalize(b: Byte): (v: real)
    ensures InUnit(v)
  {
    b as real / 255.0
  }

  /** Pixel i of an RGBA8 byte vector: bytes 4i, 4i+1, 4i+2, 4i+3 as r, g, b, a. */
  function PixelFromBytes(p: seq<Byte>, i: nat): (c: Color)
    requires 4 * i + 3 < |p|
    ensures UnitColor(c)
  {
    Color(Normalize(p[4 * i]), Normalize(p[4 * i + 1]), Normalize(p[4 * i + 2]), Normalize(p[4 * i + 3]))
  }

  /** The first n pixels of an RGBA8 byte vector, in order. */
  function DecodeSpec(p: seq<Byte>, n: nat): (s: seq<Color>)
    requires 4 * n <= |p|
    ensures |s| == n
    ensures forall i :: 0 <= i < n ==> s[i] == PixelFromBytes(p, i)
  {
    if n == 0 then [] else DecodeSpec(p, n - 1) + [PixelFromBytes(p, n - 1)]
  }

  /** The unpacking loop of new_from_libpng: one pixel pushed per iteration. */
  method DecodePixels(p: seq<Byte>, n: nat) returns (data: seq<Color>)
    requires 4 * n <= |p|
    ensures data == DecodeSpec(p, n)
  {
    data := [];
    var i := 0;
    while i < n
      invariant i <= n
      invariant data == DecodeSpec(p, i)
    {
      data := data + [PixelFromBytes(p, i)];
      i := i + 1;
    }
  }

  /** Image::new_from_libpng: anything but RGBA8 is refused; a byte vector
      too short for the pixel count stops at the first missing byte;
      otherwise every pixel is unpacked from its four bytes. */
  method NewFromLibpng(png: PngImage) returns (r: Result<Image, ImageError>)
    ensures png.colorType != RGBA8 ==> r == Err(UnsupportedFormat)
    ensures png.colorType == RGBA8 && |png.pixels| < 4 * png.width * png.height ==> r == Err(IndexOutOfRange)
    ensures png.colorType == RGBA8 && 4 * png.width * png.height <= |png.pixels| ==> r.Ok?
    ensures r.Ok? ==>
              && fresh(r.value) && r.value.Valid()
              && r.value.width == png.width && r.value.height == png.height
              && r.value.colorType == png.colorType
              && r.value.data == DecodeSpec(png.pixels, png.width * png.height)
  {
    if png.colorType != RGBA8 {
      return Err(UnsupportedFormat);
    }
    var numPixel := PixelCount(png.width, png.height);
    if |png.pixels| < 4 * numPixel {
      return Err(IndexOutOfRange);
    }
    var data := DecodePixels(png.pixels, numPixel);
    var img := new Image(png.width, png.height, png.colorType, data);
    return Ok(img);
  }

  /** A channel whose scaled value 255c lies in (-1, 256): truncated toward
      zero it is a value of u8, so `to_u8` accepts it. */
  predicate Encodable(c: real) { -1.0 < 255.0 * c < 256.0 }

  /** `(255. * c).to_u8()`: the channel scaled by 255 and truncated toward zero. */
  function ToByte(c: real): (b: Byte)
    requires Encodable(c)
    ensures 0.0 <= 255.0 * c ==> b as real <= 255.0 * c < b as real + 1.0
    ensures 255.0 * c < 0.0 ==> b == 0
  {
    if 255.0 * c < 0.0 then 0 else (255.0 * c).Floor
  }

  /** Every channel in [0, 1] has a byte value; 0 and 1 become 0 and 255. */
  lemma UnitEncodable(c: real)
    requires InUnit(c)
    ensures Encodable(c)
    ensures c == 0.0 ==> ToByte(c) == 0
    ensures c == 1.0 ==> ToByte(c) == 255
  {
  }

  /** Channels just outside [0, 1] still have byte values: the truncation
      takes 1.002 to 255 and -0.001 to 0. From 256/255 up and from -1/255
      down there is none. */
  lemma NearUnitChannels()
    ensures AllEncodable([Color(1.002, -0.001, 0.5, 1.0)])
    ensures EncodeSpec([Color(1.002, -0.001, 0.5, 1.0)]) == [255, 0, 127, 255]
    ensures !Encodable(256.0 / 255.0) && !Encodable(-1.0 / 255.0)
  {
    assert ColorBytes(Color(1.002, -0.001, 0.5, 1.0)) == [255, 0, 127, 255];
  }

  /** A byte survives normalisation and the conversion back unchanged. */
  lemma ByteRoundTrip(b: Byte)
    ensures Encodable(Normalize(b))
    ensures ToByte(Normalize(b)) == b
  {
    assert 255.0 * Normalize(b) == b as real;
  }

  predicate ColorEncodable(c: Color) {
    Encodable(c.r) && Encodable(c.g) && Encodable(c.b) && Encodable(c.a)
  }

  /** The four bytes of one pixel, in r, g, b, a order: an opaque colour has
      alpha byte 255, and black is the bytes 0, 0, 0, 255. */
  function ColorBytes(c: Color): (q: seq<Byte>)
    requires ColorEncodable(c)
    ensures |q| == 4 && forall k :: 0 <= k < 4 ==> q[k] == ToByte(Channel(c, k))
    ensures c.a == 1.0 ==> q[3] == 255
    ensures c == Black ==> q == [0, 0, 0, 255]
  {
    [ToByte(c.r), ToByte(c.g), ToByte(c.b), ToByte(c.a)]
  }

  /** Channel k (0 = r, 1 = g, 2 = b, 3 = a) of a colour. */
  function Channel(c: Color, k: nat): real
    requires k < 4
  {
    match k
    case 0 => c.r
    case 1 => c.g
    case 2 => c.b
    case 3 => c.a
  }

  predicate AllEncodable(data: seq<Color>) {
    forall j :: 0 <= j < |data| ==> ColorEncodable(data[j])
  }

  /** A colour with every channel in [0, 1] has a byte value in every channel. */
  lemma UnitColorEncodable(c: Color)
    requires UnitColor(c)
    ensures ColorEncodable(c)
  {
    UnitEncodable(c.r);
    UnitEncodable(c.g);
    UnitEncodable(c.b);
    UnitEncodable(c.a);
  }

  /** A buffer is encodable when the pixel at every coordinate pair is. */
  lemma EncodableFromPixels(data: seq<Color>, width: nat, height: nat)
    requires |data| == width * height
    requires forall x: nat, y: nat :: x < width && y < height ==> ColorEncodable(PixelAt(data, width, height, x, y))
    ensures AllEncodable(data)
  {
    forall j | 0 <= j < |data|
      ensures ColorEncodable(data[j])
    {
      FlatIndex(width, height, j);
      assert data[j] == PixelAt(data, width, height, j % width, j / width);
    }
  }

  /** The four bytes of pixel (x, y) in a row-major RGBA8 byte vector. */
  function PixelBytes(bs: seq<Byte>, width: nat, height: nat, x: nat, y: nat): (q: seq<Byte>)
    requires 4 * (width * height) <= |bs| && x < width && y < height
    ensures |q| == 4
  {
    IndexBelow(width, height, x, y);
    bs[4 * Index(width, x, y)..4 * Index(width, x, y) + 4]
  }

  /** The byte vector of a sequence of encodable pixels: pixel j occupies bytes 4j .. 4j+3. */
  function EncodeSpec(data: seq<Color>): (bs: seq<Byte>)
    requires AllEncodable(data)
    ensures |bs| == 4 * |data|
    ensures forall j, k :: 0 <= j < |data| && 0 <= k < 4 ==> bs[4 * j + k] == ToByte(Channel(data[j], k))
  {
    if data == [] then []
    else
      var init := data[..|data| - 1];
      assert forall j :: 0 <= j < |init| ==> init[j] == data[j];
      EncodeSpec(init) + ColorBytes(data[|data| - 1])
  }

  /** Pixel j of an encodable buffer occupies bytes 4j .. 4j+3 of its encoding. */
  lemma EncodedPixel(data: seq<Color>, j: nat)
    requires AllEncodable(data) && j < |data|
    ensures 4 * j + 4 <= |EncodeSpec(data)|
    ensures EncodeSpec(data)[4 * j..4 * j + 4] == ColorBytes(data[j])
  {
    var e := EncodeSpec(data);
    assert e[4 * j] == ToByte(Channel(data[j], 0));
    assert e[4 * j + 1] == ToByte(Channel(data[j], 1));
    assert e[4 * j + 2] == ToByte(Channel(data[j], 2));
    assert e[4 * j + 3] == ToByte(Channel(data[j], 3));
  }

  /** A decoded pixel converts back to the four bytes it was unpacked from. */
  lemma DecodedPixelBytes(p: seq<Byte>, i: nat)
    requires 4 * i + 3 < |p|
    ensures ColorEncodable(PixelFromBytes(p, i))
    ensures ColorBytes(PixelFromBytes(p, i)) == p[4 * i..4 * i + 4]
  {
    ByteRoundTrip(p[4 * i]);
    ByteRoundTrip(p[4 * i + 1]);
    ByteRoundTrip(p[4 * i + 2]);
    ByteRoundTrip(p[4 * i + 3]);
  }

  /** Decoding n pixels and encoding them again gives back the first 4n bytes. */
  lemma DecodeEncodeRoundTrip(p: seq<Byte>, n: nat)
    requires 4 * n <= |p|
    ensures AllEncodable(DecodeSpec(p, n))
    ensures EncodeSpec(DecodeSpec(p, n)) == p[..4 * n]
  {
    var d := DecodeSpec(p, n);
    var e := EncodeSpec(d);
    forall m | 0 <= m < 4 * n
      ensures e[m] == p[m]
    {
      var j, k := m / 4, m % 4;
      assert m == 4 * j + k;
      assert e[m] == ToByte(Channel(d[j], k));
      assert Channel(d[j], k) == Normalize(p[m]);
      ByteRoundTrip(p[m]);
    }
  }

  /** The packing loop of to_libpng: four bytes pushed per pixel; a pixel with
      a channel that has no byte value stops it. */
  method EncodePixels(data: seq<Color>) returns (r: Result<seq<Byte>, ImageError>)
    ensures r.Ok? <==> AllEncodable(data)
    ensures r.Ok? ==> r.value == EncodeSpec(data)
    ensures r.Err? ==> r.error == ChannelOutOfRange
  {
    var pixels: seq<Byte> := [];
    var j := 0;
    while j < |data|
      invariant j <= |data|
      invariant AllEncodable(data[..j])
      invariant pixels == EncodeSpec(data[..j])
    {
      var c := data[j];
      if !ColorEncodable(c) {
        return Err(ChannelOutOfRange);
      }
      assert data[..j + 1][..j] == data[..j];
      pixels := pixels + ColorBytes(c);
      j := j + 1;
    }
    assert data[..j] == data;
    return Ok(pixels);
  }

  /** Image::to_libpng: the pixels packed into 4 * width * height bytes, the
      dimensions and colour layout carried over. */
  method ToLibpng(img: Image) returns (r: Result<PngImage, ImageError>)
    requires img.Valid()
    ensures r.Ok? <==> AllEncodable(img.data) && img.width < U32_LIMIT && img.height < U32_LIMIT
    ensures r.Err? ==> r.error == if AllEncodable(img.data) then DimensionTooLarge else ChannelOutOfRange
    ensures r.Ok? ==>
              && r.value.width == img.width && r.value.height == img.height
              && r.value.colorType == img.colorType
              && |r.value.pixels| == 4 * img.width * img.height
              && r.value.pixels == EncodeSpec(img.data)
  {
    var pixels := EncodePixels(img.data);
    if pixels.Err? {
      return Err(pixels.error);
    }
    if img.width >= U32_LIMIT || img.height >= U32_LIMIT {
      return Err(DimensionTooLarge);
    }
    return Ok(PngImage(img.width, img.height, img.colorType, pixels.value));
  }

  /** Decoding an RGBA8 image whose byte vector has exactly four bytes per
      pixel and encoding the result gives back the same image. */
  method RoundTrip(png: PngImage) returns (back: Result<PngImage, ImageError>)
    requires png.colorType == RGBA8 && |png.pixels| == 4 * png.width * png.height
    ensures back == Ok(png)
  {
    assert 4 * png.width * png.height == 4 * (png.width * png.height);
    var img := NewFromLibpng(png);
    DecodeEncodeRoundTrip(png.pixels, png.width * png.height);
    assert png.pixels[..4 * (png.width * png.height)] == png.pixels;
    back := ToLibpng(img.value);
  }
}
