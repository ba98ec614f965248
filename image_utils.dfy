/**
 * The server's pixel conversion (ImageUtils): RGBA8888 and RGB565 screen
 * captures are expanded in place into a three-byte-per-pixel buffer before JPEG
 * encoding.  Input buffers are read as little-endian 32- or 16-bit words, as
 * the source's reinterpret_cast does on the device.
 */
module ImageUtils {
  import opened Wrappers
  import opened Slicing
  import opened FixedWidth

  type uint8 = bv8
  type uint16 = bv16
  type uint32 = bv32

  const RGB565_PIXEL_BYTES: int := 2
  const RGB888_PIXEL_BYTES: int := 3
  const RGBA8888_PIXEL_BYTES: int := 4

  // ---------------------------------------------------------------------------
  // One pixel

  /**
   * The three output bytes of one RGBA8888 word, at offsets B_INDEX (0),
   * G_INDEX (1) and R_INDEX (2): bits 0-7, 8-15 and 16-23; the alpha bits
   * 24-31 are dropped.  Each narrowing to a byte loses nothing.
   */
  function RgbaPixel(w: uint32): (p: seq<uint8>)
    ensures |p| == 3
  {
    [(w & 0x0000_00FF) as uint8, ((w & 0x0000_FF00) >> 8) as uint8, ((w & 0x00FF_0000) >> 16) as uint8]
  }

  /** The three bytes of an RGB565 word: bits 11-15, 5-10 and 0-4, each shifted to the top of its byte. */
  function Rgb565Pixel(w: uint16): (p: seq<uint8>)
    ensures |p| == 3
  {
    [(((w & 0xF800) >> 11) << 3) as uint8, (((w & 0x07E0) >> 5) << 2) as uint8, ((w & 0x001F) << 3) as uint8]
  }

  /** The word stored little-endian in four bytes. */
  function Word32(b0: uint8, b1: uint8, b2: uint8, b3: uint8): uint32
  {
    (b0 as uint32) | ((b1 as uint32) << 8) | ((b2 as uint32) << 16) | ((b3 as uint32) << 24)
  }

  /** An RGBA8888 pixel keeps its first three bytes in memory order and loses the fourth, whatever it holds. */
  lemma {:induction false} RgbaPixelDropsAlpha(b0: uint8, b1: uint8, b2: uint8, b3: uint8)
    ensures RgbaPixel(Word32(b0, b1, b2, b3)) == [b0, b1, b2]
  {
  }

  /** Packing the three bytes back, with any alpha, gives the word again: nothing but alpha is lost. */
  lemma {:induction false} RgbaPixelRoundTrip(w: uint32)
    ensures Word32(RgbaPixel(w)[0], RgbaPixel(w)[1], RgbaPixel(w)[2], (w >> 24) as uint8) == w
  {
  }

  /** The 16-bit word rebuilt from the top bits of three bytes. */
  function Pack565(p0: uint8, p1: uint8, p2: uint8): uint16
  {
    (((p0 >> 3) as uint16) << 11) | (((p1 >> 2) as uint16) << 5) | ((p2 >> 3) as uint16)
  }

  /**
   * The expansion is lossless, and its results are exactly the triples whose
   * low 3, 2 and 3 bits are zero.
   */
  lemma {:induction false} Rgb565RoundTrip(w: uint16)
    ensures var p := Rgb565Pixel(w); Pack565(p[0], p[1], p[2]) == w
    ensures var p := Rgb565Pixel(w); p[0] & 7 == 0 && p[1] & 3 == 0 && p[2] & 7 == 0
  {
  }

  lemma {:induction false} Rgb565Onto(p0: uint8, p1: uint8, p2: uint8)
    requires p0 & 7 == 0 && p1 & 3 == 0 && p2 & 7 == 0
    ensures Rgb565Pixel(Pack565(p0, p1, p2)) == [p0, p1, p2]
  {
  }

  /** Black stays black, and white expands to the brightest bytes each format can encode. */
  lemma {:induction false} Extremes()
    ensures RgbaPixel(0xFFFF_FFFF) == [0xFF, 0xFF, 0xFF] && RgbaPixel(0) == [0, 0, 0]
    ensures Rgb565Pixel(0xFFFF) == [0xF8, 0xFC, 0xF8] && Rgb565Pixel(0) == [0, 0, 0]
  {
  }

  // ---------------------------------------------------------------------------
  // Whole buffers

  /** The converted buffer: the pixels' three bytes each, in order. */
  function Expand<W>(ws: seq<W>, pixel: W -> seq<uint8>): seq<uint8>
  {
    if ws == [] then [] else Expand(ws[..|ws| - 1], pixel) + pixel(ws[|ws| - 1])
  }

  function RgbaToRgb(ws: seq<uint32>): seq<uint8>
  {
    Expand(ws, RgbaPixel)
  }

  function Rgb565ToRgb(ws: seq<uint16>): seq<uint8>
  {
    Expand(ws, Rgb565Pixel)
  }

  /** Three bytes per pixel, byte 3i+k coming from pixel i alone. */
  lemma {:induction false} ExpandAt<W>(ws: seq<W>, pixel: W -> seq<uint8>, i: int, k: int)
    requires forall w :: |pixel(w)| == 3
    requires 0 <= i < |ws| && 0 <= k < 3
    ensures |Expand(ws, pixel)| == 3 * |ws|
    ensures Expand(ws, pixel)[3 * i + k] == pixel(ws[i])[k]
    decreases |ws|
  {
    ExpandLength(ws, pixel);
    if i < |ws| - 1 {
      ExpandAt(ws[..|ws| - 1], pixel, i, k);
    }
  }

  lemma {:induction false} ExpandLength<W>(ws: seq<W>, pixel: W -> seq<uint8>)
    requires forall w :: |pixel(w)| == 3
    ensures |Expand(ws, pixel)| == 3 * |ws|
    decreases |ws|
  {
    if ws != [] {
      ExpandLength(ws[..|ws| - 1], pixel);
    }
  }

  /** Converting two runs of pixels one after the other is converting them together. */
  lemma {:induction false} ExpandAppend<W>(a: seq<W>, b: seq<W>, pixel: W -> seq<uint8>)
    ensures Expand(a + b, pixel) == Expand(a, pixel) + Expand(b, pixel)
    decreases |b|
  {
    if b == [] {
      assert a + b == a;
    } else {
      assert (a + b)[..|a + b| - 1] == a + b[..|b| - 1];
      ExpandAppend(a, b[..|b| - 1], pixel);
    }
  }

  /** The words of a byte buffer read little-endian, four bytes at a time; leftover bytes are ignored. */
  function Words32(bytes: seq<uint8>): (ws: seq<uint32>)
    ensures |ws| == |bytes| / 4
  {
    if |bytes| < 4 then [] else [Word32(bytes[0], bytes[1], bytes[2], bytes[3])] + Words32(bytes[4..])
  }

  function Words16(bytes: seq<uint8>): (ws: seq<uint16>)
    ensures |ws| == |bytes| / 2
  {
    if |bytes| < 2 then [] else [(bytes[0] as uint16) | ((bytes[1] as uint16) << 8)] + Words16(bytes[2..])
  }

  lemma {:induction false} Words32At(bytes: seq<uint8>, i: int)
    requires 0 <= i < |bytes| / 4
    ensures Words32(bytes)[i] == Word32(bytes[4 * i], bytes[4 * i + 1], bytes[4 * i + 2], bytes[4 * i + 3])
    decreases i
  {
    if i > 0 {
      Words32At(bytes[4..], i - 1);
    }
  }

  /** Converting an RGBA8888 buffer drops every fourth byte: pixel i's bytes are those at 4i, 4i+1 and 4i+2. */
  lemma {:induction false} RgbaBufferDropsAlpha(bytes: seq<uint8>, i: int, k: int)
    requires 0 <= i < |bytes| / 4 && 0 <= k < 3
    ensures |RgbaToRgb(Words32(bytes))| == 3 * (|bytes| / 4)
    ensures RgbaToRgb(Words32(bytes))[3 * i + k] == bytes[4 * i + k]
  {
    ExpandLength(Words32(bytes), RgbaPixel);
    Words32At(bytes, i);
    ExpandAt(Words32(bytes), RgbaPixel, i, k);
    RgbaPixelDropsAlpha(bytes[4 * i], bytes[4 * i + 1], bytes[4 * i + 2], bytes[4 * i + 3]);
  }

  // ---------------------------------------------------------------------------
  // The converters

  /**
   * RGBA8888ToRGB888: fails and writes nothing when a buffer is missing or
   * size is not positive; otherwise fills bytes 0..3*size-1 with the converted
   * pixels and leaves the rest alone.  The caller must supply size words and
   * room for 3*size bytes.
   */
  method RGBA8888ToRGB888(rgba8888Buf: Option<seq<uint32>>, rgb888Buf: array?<uint8>, size: int) returns (ok: bool)
    requires rgba8888Buf.Some? && size > 0 ==> size <= |rgba8888Buf.value|
    requires rgb888Buf != null && size > 0 ==> 3 * size <= rgb888Buf.Length
    modifies rgb888Buf
    ensures ok <==> rgba8888Buf.Some? && rgb888Buf != null && size > 0
    ensures !ok && rgb888Buf != null ==> rgb888Buf[..] == old(rgb888Buf[..])
    ensures ok ==> rgb888Buf[..3 * size] == RgbaToRgb(rgba8888Buf.value[..size])
    ensures ok ==> rgb888Buf[3 * size..] == old(rgb888Buf[3 * size..])
  {
    if rgba8888Buf.None? || rgb888Buf == null || size <= 0 {
      return false;
    }
    var rgba8888 := rgba8888Buf.value;
    for i := 0 to size
      invariant rgb888Buf[..3 * i] == RgbaToRgb(rgba8888[..i])
      invariant forall j :: 3 * i <= j < rgb888Buf.Length ==> rgb888Buf[j] == old(rgb888Buf[j])
    {
      var basePixel := i * RGB888_PIXEL_BYTES;
      rgb888Buf[basePixel + 2] := ((rgba8888[i] & 0x00FF_0000) >> 16) as uint8;
      rgb888Buf[basePixel + 1] := ((rgba8888[i] & 0x0000_FF00) >> 8) as uint8;
      rgb888Buf[basePixel + 0] := (rgba8888[i] & 0x0000_00FF) as uint8;
      assert rgba8888[..i + 1] == rgba8888[..i] + [rgba8888[i]];
      assert rgb888Buf[..3 * (i + 1)] == rgb888Buf[..3 * i] + RgbaPixel(rgba8888[i]);
    }
    assert rgb888Buf[3 * size..] == old(rgb888Buf[3 * size..]);
    return true;
  }

  /** RGB565ToRGB888: the same contract over 16-bit words. */
  method RGB565ToRGB888(rgb565Buf: Option<seq<uint16>>, rgb888Buf: array?<uint8>, size: int) returns (ok: bool)
    requires rgb565Buf.Some? && size > 0 ==> size <= |rgb565Buf.value|
    requires rgb888Buf != null && size > 0 ==> 3 * size <= rgb888Buf.Length
    modifies rgb888Buf
    ensures ok <==> rgb565Buf.Some? && rgb888Buf != null && size > 0
    ensures !ok && rgb888Buf != null ==> rgb888Buf[..] == old(rgb888Buf[..])
    ensures ok ==> rgb888Buf[..3 * size] == Rgb565ToRgb(rgb565Buf.value[..size])
    ensures ok ==> rgb888Buf[3 * size..] == old(rgb888Buf[3 * size..])
  {
    if rgb565Buf.None? || rgb888Buf == null || size <= 0 {
      return false;
    }
    var rgb565 := rgb565Buf.value;
    for i := 0 to size
      invariant rgb888Buf[..3 * i] == Rgb565ToRgb(rgb565[..i])
      invariant forall j :: 3 * i <= j < rgb888Buf.Length ==> rgb888Buf[j] == old(rgb888Buf[j])
    {
      var basePixel := i * RGB888_PIXEL_BYTES;
      rgb888Buf[basePixel + 2] := ((rgb565[i] & 0x001F) << 3) as uint8;
      rgb888Buf[basePixel + 1] := (((rgb565[i] & 0x07E0) >> 5) << 2) as uint8;
      rgb888Buf[basePixel + 0] := (((rgb565[i] & 0xF800) >> 11) << 3) as uint8;
      assert rgb565[..i + 1] == rgb565[..i] + [rgb565[i]];
      assert rgb888Buf[..3 * (i + 1)] == rgb888Buf[..3 * i] + Rgb565Pixel(rgb565[i]);
    }
    assert rgb888Buf[3 * size..] == old(rgb888Buf[3 * size..]);
    return true;
  }

  // ---------------------------------------------------------------------------
  // PixelMapToJpeg

  datatype PixelFormat = RGBA_8888 | RGB_565 | RGB_888 | OtherFormat(code: int)

  /**
   * The RGB888 buffer size for a stride x height map of the given pixel width:
   * stride * height * 3 / pixelBytes in uint32_t arithmetic, stored in an int32_t.
   */
  function Rgb888Size(stride: nat, height: nat, pixelBytes: int): int
    requires stride < TWO_32 && height < TWO_32 && pixelBytes > 0
  {
    Int32(Uint32(Uint32(stride * height) * RGB888_PIXEL_BYTES) / pixelBytes)
  }

  /**
   * The pixel count handed to the converter (size / 3) never asks for more
   * output than the buffer holds, nor more input than the map's stride * height
   * bytes; without wrap-around it is every whole pixel of the map.
   */
  lemma {:induction false} ConvertedPixelsFit(stride: nat, height: nat, pixelBytes: int)
    requires stride < TWO_32 && height < TWO_32 && (pixelBytes == 2 || pixelBytes == 4)
    ensures var size := Rgb888Size(stride, height, pixelBytes);
      && 0 <= size && 3 * (size / 3) <= size
      && pixelBytes * (size / 3) <= stride * height
    ensures stride * height * 3 < TWO_32 ==>
      Rgb888Size(stride, height, pixelBytes) / 3 == stride * height / pixelBytes
  {
    var x := Uint32(stride * height);
    var v := Uint32(x * 3);
    assert Rgb888Size(stride, height, pixelBytes) == Int32(v / pixelBytes);
    assert x <= stride * height;
    SizeFits(x, v, pixelBytes);
    if stride * height * 3 < TWO_32 {
      assert x == stride * height && v == 3 * x;
      SizeExact(x, pixelBytes);
    }
  }

  /** The wrapped product v (at most 3x) gives a size that fits an int32 and whose whole pixels fit in x bytes. */
  lemma {:induction false} SizeFits(x: nat, v: nat, pixelBytes: int)
    requires v < TWO_32 && v <= 3 * x && (pixelBytes == 2 || pixelBytes == 4)
    ensures 0 <= v / pixelBytes < TWO_31 && Int32(v / pixelBytes) == v / pixelBytes
    ensures pixelBytes * (v / pixelBytes / 3) <= x
  {
    var size := v / pixelBytes;
    assert pixelBytes * size <= v;
    assert pixelBytes * (size / 3) * 3 <= pixelBytes * size;
  }

  /** Without wrap-around, (3x / pixelBytes) / 3 is x / pixelBytes. */
  lemma {:induction false} SizeExact(x: nat, pixelBytes: int)
    requires pixelBytes == 2 || pixelBytes == 4
    ensures (3 * x / pixelBytes) / 3 == x / pixelBytes
  {
    var q, r := x / pixelBytes, x % pixelBytes;
    assert x == pixelBytes * q + r && 0 <= r < pixelBytes;
    assert 3 * x == pixelBytes * (3 * q) + 3 * r;
    assert 3 * x / pixelBytes == 3 * q + (3 * r) / pixelBytes;
    assert (3 * r) / pixelBytes < 3;
  }

  /**
   * PixelMapToJpeg: an RGBA8888 or RGB565 map is converted into a fresh RGB888
   * buffer and handed to the encoder when the conversion succeeds; an RGB888
   * map goes to the encoder as it is, which refuses missing pixel data before
   * compressing; any other format fails.  The compression itself is not
   * modelled: encoderSucceeds is its outcome.
   */
  method PixelMapToJpeg(format: PixelFormat, stride: nat, height: nat, data: Option<seq<uint8>>, encoderSucceeds: bool)
    returns (ret: bool, encoderCalled: bool, converted: Option<seq<uint8>>)
    requires stride < TWO_32 && height < TWO_32
    requires data.Some? ==> |data.value| == stride * height
    ensures format.OtherFormat? ==> !ret && !encoderCalled && converted == None
    ensures format == RGB_888 ==> ret == (data.Some? && encoderSucceeds) && encoderCalled && converted == None
    ensures format == RGBA_8888 ==>
      var n := Rgb888Size(stride, height, RGBA8888_PIXEL_BYTES) / 3;
      && (encoderCalled <==> data.Some? && n > 0)
      && ret == (encoderCalled && encoderSucceeds)
      && (encoderCalled ==> converted.Some? && |converted.value| == Rgb888Size(stride, height, RGBA8888_PIXEL_BYTES)
                            && converted.value[..3 * n] == RgbaToRgb(Words32(data.value)[..n]))
    ensures format == RGB_565 ==>
      var n := Rgb888Size(stride, height, RGB565_PIXEL_BYTES) / 3;
      && (encoderCalled <==> data.Some? && n > 0)
      && ret == (encoderCalled && encoderSucceeds)
      && (encoderCalled ==> converted.Some? && |converted.value| == Rgb888Size(stride, height, RGB565_PIXEL_BYTES)
                            && converted.value[..3 * n] == Rgb565ToRgb(Words16(data.value)[..n]))
  {
    ret, encoderCalled, converted := false, false, None;
    if format == RGBA_8888 {
      var rgb888Size := Rgb888Size(stride, height, RGBA8888_PIXEL_BYTES);
      ConvertedPixelsFit(stride, height, RGBA8888_PIXEL_BYTES);
      var rgb888 := new uint8[rgb888Size];
      var words := if data.Some? then Some(Words32(data.value)) else None;
      ret := RGBA8888ToRGB888(words, rgb888, rgb888Size / RGB888_PIXEL_BYTES);
      if ret {
        encoderCalled, converted := true, Some(rgb888[..]);
        ret := encoderSucceeds;
      }
    } else if format == RGB_565 {
      var rgb888Size := Rgb888Size(stride, height, RGB565_PIXEL_BYTES);
      ConvertedPixelsFit(stride, height, RGB565_PIXEL_BYTES);
      var rgb888 := new uint8[rgb888Size];
      var words := if data.Some? then Some(Words16(data.value)) else None;
      ret := RGB565ToRGB888(words, rgb888, rgb888Size / RGB888_PIXEL_BYTES);
      if ret {
        encoderCalled, converted := true, Some(rgb888[..]);
        ret := encoderSucceeds;
      }
    } else if format == RGB_888 {
      encoderCalled := true;
      ret := data.Some? && encoderSucceeds;
    }
  }
}
