/**
 * The decoded-image side of the codec adapter: the image value behind a
 * `*mut DynamicImage`, its metrics record, and the contract of the external
 * codec library, which the model takes as a parameter.
 */
module Images {
  import opened Wrappers
  import opened Bytes
  import opened Colors
  import opened Formats
  import opened Streams

  /** A `DynamicImage`: its layout, dimensions and samples in native byte order. */
  datatype Image = Image(color: ColorType, width: u32, height: u32, bytes: seq<u8>)

  /** A boxed `DynamicImage`; the adapter never changes one after creating it. */
  class ImageBox {
    const image: Image

    constructor (i: Image)
      ensures image == i
    {
      image := i;
    }
  }

  /**
   * The byte layout the codec library keeps for an image of a known layout:
   * one pixel of `BytesPerPixel` bytes per position. An assumed fact about
   * that library, like the layout table.
   */
  ghost predicate WellFormed(img: Image)
  {
    !img.color.Other? ==> |img.bytes| == img.width * img.height * BytesPerPixel(img.color)
  }

  /** `ImageMetrics`. */
  datatype ImageMetrics = ImageMetrics(
    bufsize: nat, width: u32, height: u32, color: u8,
    channels: u8, bytesPerPixel: u8, hasAlpha: bool, hasColor: bool)

  /** `ImageMetricsMaybe`: the record, or the `none: 0` sentinel. */
  datatype MetricsMaybe = NoMetrics | Metrics(metrics: ImageMetrics)

  /** The byte view `as_bytes` gives of an image. */
  function AsBytes(img: Image): seq<u8>
  {
    img.bytes
  }

  /**
   * The record `libimage_metrics` builds for a live image: all of it when the
   * layout has a code, the sentinel otherwise.
   */
  function MetricsOf(img: Image): (m: MetricsMaybe)
    ensures m.NoMetrics? <==> ColorCode(img.color).None?
    ensures m.Metrics? ==>
      !img.color.Other? &&
      m.metrics.bufsize == |AsBytes(img)| &&
      m.metrics.width == img.width && m.metrics.height == img.height &&
      1 <= m.metrics.color <= 10 && CodeToColor(m.metrics.color) == Some(img.color) &&
      m.metrics.channels == Channels(img.color) &&
      m.metrics.bytesPerPixel == BytesPerPixel(img.color) &&
      m.metrics.hasAlpha == HasAlpha(img.color) &&
      m.metrics.hasColor == HasColor(img.color)
  {
    match ColorCode(img.color)
    case None => NoMetrics
    case Some(code) =>
      Metrics(ImageMetrics(
        |img.bytes|, img.width, img.height, code,
        Channels(img.color), BytesPerPixel(img.color), HasAlpha(img.color), HasColor(img.color)))
  }

  /**
   * The bytes a C caller reads through the `none` member of the untagged
   * `ImageMetricsMaybe` union on a 64-bit target. The sentinel writes 0 to
   * that byte; a record's `bufsize` overlaps it, so the byte is its lowest
   * (little-endian) or highest (big-endian) byte.
   */
  function NoneByte(m: MetricsMaybe, littleEndian: bool): (b: u8)
    ensures m.NoMetrics? ==> b == 0
  {
    match m
    case NoMetrics => 0
    case Metrics(r) =>
      if littleEndian then r.bufsize % 0x100 else (r.bufsize / 0x100_0000_0000_0000) % 0x100
  }

  /**
   * On a little-endian target a C caller that tests `none == 0` takes a real
   * record for the sentinel exactly when its `bufsize` is a multiple of 256.
   */
  lemma NoneByteZeroLittleEndian(m: MetricsMaybe)
    ensures NoneByte(m, true) == 0 <==> m.NoMetrics? || m.metrics.bufsize % 0x100 == 0
  {
  }

  /** An 8 x 8 RGBA8 image, with a byte view of 256 bytes, reads as the sentinel. */
  lemma SmallImageReadsAsNone(bytes: seq<u8>)
    requires Rgba8Len(8, 8) <= |bytes|
    ensures MetricsOf(NewRgba8(bytes, 8, 8)).Metrics?
    ensures NoneByte(MetricsOf(NewRgba8(bytes, 8, 8)), true) == NoneByte(NoMetrics, true)
  {
    NewRgba8Metrics(bytes, 8, 8);
  }

  /** What decoding leaves behind: the source's new state and the image or the error. */
  datatype Decoded = Decoded(rest: ReadWrap, image: Result<Image, Text>)

  /** What encoding leaves behind: the sink's new state and the outcome. */
  datatype Encoded = Encoded(rest: WriteWrap, outcome: Outcome<Text>)

  /**
   * The external codec library, as far as the adapter relies on it: decoding
   * a source with a given or a guessed (`None`) format, encoding an image to
   * a sink, and converting a non-RGBA8 image to 8-bit RGBA.
   */
  datatype Codec = Codec(
    decode: (ReadWrap, Option<ImageFormat>) -> Decoded,
    encode: (Image, WriteWrap, ImageFormat) -> Encoded,
    convert: Image -> seq<u8>)

  /**
   * What a decoder can do to a source it only reads and seeks through
   * `&mut ReadWrap`: the variant stays, and a cursor's bytes stay.
   */
  ghost predicate SameSource(before: ReadWrap, after: ReadWrap)
  {
    after.File? == before.File? && after.Buf? == before.Buf? &&
    (!before.File? ==> after.cursor.data == before.cursor.data)
  }

  /**
   * What an encoder can do to a sink it only writes and seeks through
   * `&mut WriteWrap`: the variant stays, and a fixed buffer keeps its length.
   */
  ghost predicate SameSink(before: WriteWrap, after: WriteWrap)
  {
    after.File? == before.File? && after.Buf? == before.Buf? &&
    (before.Buf? ==> |after.cursor.data| == |before.cursor.data|)
  }

  /**
   * The assumed contract of the codec library: conversion to RGBA8 gives four
   * bytes per pixel, every decoded image is well formed, and decoding and
   * encoding change their stream only as its trait methods can.
   */
  ghost predicate Lawful(codec: Codec)
  {
    (forall img: Image :: |codec.convert(img)| == Rgba8Len(img.width, img.height)) &&
    (forall r: ReadWrap, hint: Option<ImageFormat> ::
      codec.decode(r, hint).image.Ok? ==> WellFormed(codec.decode(r, hint).image.value)) &&
    (forall r: ReadWrap, hint: Option<ImageFormat> :: SameSource(r, codec.decode(r, hint).rest)) &&
    (forall img: Image, w: WriteWrap, f: ImageFormat :: SameSink(w, codec.encode(img, w, f).rest))
  }

  /**
   * Encoding into a growable sink leaves a sink that `libimage_w_into_r` can
   * turn into a reader.
   */
  lemma EncodedIntoGrowableConverts(codec: Codec, img: Image, c: Cursor, f: ImageFormat)
    requires Lawful(codec)
    ensures codec.encode(img, Expanding(c), f).rest.Expanding?
  {
    assert SameSink(Expanding(c), codec.encode(img, Expanding(c), f).rest);
  }

  /** `to_rgba8`: an RGBA8 image is already in that layout; others are converted. */
  function Rgba8Bytes(codec: Codec, img: Image): (rgba: seq<u8>)
    ensures img.color == Rgba8 ==> rgba == img.bytes
    ensures Lawful(codec) && WellFormed(img) ==> |rgba| == Rgba8Len(img.width, img.height)
  {
    if img.color == Rgba8 then img.bytes else codec.convert(img)
  }

  /** `width as usize * height as usize * 4`. */
  function Rgba8Len(width: u32, height: u32): nat
  {
    width * height * 4
  }

  /** The image `libimage_new_rgba8888` builds: RGBA8, filled from the first bytes. */
  function NewRgba8(bytes: seq<u8>, width: u32, height: u32): (img: Image)
    requires Rgba8Len(width, height) <= |bytes|
    ensures img.color == Rgba8 && img.width == width && img.height == height
    ensures WellFormed(img) && img.bytes == bytes[..|img.bytes|]
  {
    Image(Rgba8, width, height, bytes[..Rgba8Len(width, height)])
  }

  /** The metrics of a built RGBA8 image: four channels of one byte, alpha and colour. */
  lemma NewRgba8Metrics(bytes: seq<u8>, width: u32, height: u32)
    requires Rgba8Len(width, height) <= |bytes|
    ensures MetricsOf(NewRgba8(bytes, width, height))
         == Metrics(ImageMetrics(width * height * 4, width, height, 4, 4, 4, true, true))
  {
  }

  /** Building an RGBA8 image and converting it back gives the input bytes. */
  lemma NewRgba8RoundTrip(codec: Codec, bytes: seq<u8>, width: u32, height: u32)
    requires Rgba8Len(width, height) <= |bytes|
    ensures Rgba8Bytes(codec, NewRgba8(bytes, width, height)) == bytes[..width * height * 4]
  {
  }

  /** The byte view's length is what the metrics report, whenever there are metrics. */
  lemma BufsizeIsByteViewLength(img: Image)
    requires ColorCode(img.color).Some?
    ensures MetricsOf(img).Metrics? && MetricsOf(img).metrics.bufsize == |AsBytes(img)|
  {
  }

  /** For a well-formed image the reported size is width x height x bytes per pixel. */
  lemma BufsizeOfWellFormed(img: Image)
    requires ColorCode(img.color).Some? && WellFormed(img)
    ensures var m := MetricsOf(img).metrics;
      m.bufsize == m.width * m.height * m.bytesPerPixel
  {
  }
}
