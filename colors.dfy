/**
 * The pixel layouts of a decoded image, their stable `COLORTYPE_*` codes and
 * the per-layout facts the codec library publishes about them.
 */
module Colors {
  import opened Wrappers
  import opened Bytes

  /**
   * `image::ColorType`. The enum is non-exhaustive: `Other` stands for any
   * layout the library may add that has no code here.
   */
  datatype ColorType =
    | L8 | La8 | Rgb8 | Rgba8 | L16 | La16 | Rgb16 | Rgba16 | Rgb32F | Rgba32F
    | Other(id: nat)

  /** The colour-type to code match of `libimage_metrics`. */
  function ColorCode(c: ColorType): (r: Option<u8>)
    ensures r.None? <==> c.Other?
    ensures r.Some? ==> 1 <= r.value <= 10 && CodeToColor(r.value) == Some(c)
  {
    match c
    case L8 => Some(1)
    case La8 => Some(2)
    case Rgb8 => Some(3)
    case Rgba8 => Some(4)
    case L16 => Some(5)
    case La16 => Some(6)
    case Rgb16 => Some(7)
    case Rgba16 => Some(8)
    case Rgb32F => Some(9)
    case Rgba32F => Some(10)
    case Other(_) => None
  }

  /** The layout a `COLORTYPE_*` code stands for (the header's constants). */
  function CodeToColor(code: u8): (r: Option<ColorType>)
    ensures r.Some? <==> 1 <= code <= 10
    ensures r.Some? ==> !r.value.Other?
  {
    match code
    case 1 => Some(L8)
    case 2 => Some(La8)
    case 3 => Some(Rgb8)
    case 4 => Some(Rgba8)
    case 5 => Some(L16)
    case 6 => Some(La16)
    case 7 => Some(Rgb16)
    case 8 => Some(Rgba16)
    case 9 => Some(Rgb32F)
    case 10 => Some(Rgba32F)
    case _ => None
  }

  /** Two layouts with the same code are the same layout. */
  lemma ColorCodeInjective(a: ColorType, b: ColorType)
    requires ColorCode(a).Some? && ColorCode(a) == ColorCode(b)
    ensures a == b
  {
    assert CodeToColor(ColorCode(a).value) == Some(a);
  }

  /** Every code 1..10 is the code of some layout. */
  lemma ColorCodeOnto(code: u8)
    requires 1 <= code <= 10
    ensures CodeToColor(code).Some? && ColorCode(CodeToColor(code).value) == Some(code)
  {
  }

  // The four tables below are the codec library's `ColorType` methods
  // (`channel_count`, `bytes_per_pixel`, `has_alpha`, `has_color`), restated
  // here as assumed facts about that library.

  function Channels(c: ColorType): u8
    requires !c.Other?
  {
    match c
    case L8 => 1  case La8 => 2  case Rgb8 => 3  case Rgba8 => 4
    case L16 => 1  case La16 => 2  case Rgb16 => 3  case Rgba16 => 4
    case Rgb32F => 3  case Rgba32F => 4
  }

  /** Bytes one channel sample occupies. */
  function SampleBytes(c: ColorType): u8
    requires !c.Other?
  {
    match c
    case L8 => 1  case La8 => 1  case Rgb8 => 1  case Rgba8 => 1
    case L16 => 2  case La16 => 2  case Rgb16 => 2  case Rgba16 => 2
    case Rgb32F => 4  case Rgba32F => 4
  }

  function BytesPerPixel(c: ColorType): u8
    requires !c.Other?
  {
    match c
    case L8 => 1  case La8 => 2  case Rgb8 => 3  case Rgba8 => 4
    case L16 => 2  case La16 => 4  case Rgb16 => 6  case Rgba16 => 8
    case Rgb32F => 12  case Rgba32F => 16
  }

  predicate HasAlpha(c: ColorType)
    requires !c.Other?
  {
    c in {La8, Rgba8, La16, Rgba16, Rgba32F}
  }

  predicate HasColor(c: ColorType)
    requires !c.Other?
  {
    c in {Rgb8, Rgba8, Rgb16, Rgba16, Rgb32F, Rgba32F}
  }

  /**
   * The table is internally consistent: a pixel is its channels times the
   * sample width, alpha is the even channel counts, colour the counts of three
   * or more.
   */
  lemma LayoutTableConsistent(c: ColorType)
    requires !c.Other?
    ensures BytesPerPixel(c) == Channels(c) * SampleBytes(c)
    ensures HasAlpha(c) <==> Channels(c) % 2 == 0
    ensures HasColor(c) <==> Channels(c) >= 3
  {
  }
}
