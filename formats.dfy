/** The stable numeric tags of the image formats the codec understands. */
module Formats {
  import opened Wrappers
  import opened Bytes

  /** `image::ImageFormat`, restricted to the fifteen formats with a tag. */
  datatype ImageFormat =
    | Png | Jpeg | Gif | WebP | Pnm | Tiff | Tga | Dds
    | Bmp | Ico | Hdr | OpenExr | Farbfeld | Avif | Qoi

  /** The `IMAGEFORMAT_*` constant of a format. */
  function FormatTag(f: ImageFormat): (tag: u8)
    ensures 1 <= tag <= 15
  {
    match f
    case Png => 1
    case Jpeg => 2
    case Gif => 3
    case WebP => 4
    case Pnm => 5
    case Tiff => 6
    case Tga => 7
    case Dds => 8
    case Bmp => 9
    case Ico => 10
    case Hdr => 11
    case OpenExr => 12
    case Farbfeld => 13
    case Avif => 14
    case Qoi => 15
  }

  /** `u8_to_format`: the format a tag names, or none for an unknown tag. */
  function U8ToFormat(tag: u8): (r: Option<ImageFormat>)
    ensures r.Some? <==> 1 <= tag <= 15
    ensures r.Some? ==> FormatTag(r.value) == tag
  {
    match tag
    case 1 => Some(Png)
    case 2 => Some(Jpeg)
    case 3 => Some(Gif)
    case 4 => Some(WebP)
    case 5 => Some(Pnm)
    case 6 => Some(Tiff)
    case 7 => Some(Tga)
    case 8 => Some(Dds)
    case 9 => Some(Bmp)
    case 10 => Some(Ico)
    case 11 => Some(Hdr)
    case 12 => Some(OpenExr)
    case 13 => Some(Farbfeld)
    case 14 => Some(Avif)
    case 15 => Some(Qoi)
    case _ => None
  }

  /** Every format is reached from its own tag. */
  lemma FormatTagRoundTrip(f: ImageFormat)
    ensures U8ToFormat(FormatTag(f)) == Some(f)
  {
  }

  /** Distinct known tags name distinct formats. */
  lemma U8ToFormatInjective(a: u8, b: u8)
    requires U8ToFormat(a).Some? && U8ToFormat(a) == U8ToFormat(b)
    ensures a == b
  {
  }
}
