/**
 * The C-callable entry points. The process-wide state they share is a
 * `Library`: the error channel and the sets of live readers, writers and
 * images (a `Box::leak` adds to a set, a `Box::from_raw` that is dropped
 * removes from it). A null pointer is a null reference; the calling thread
 * is an explicit parameter.
 */
module Boundary {
  import opened Wrappers
  import opened Bytes
  import opened Formats
  import opened Colors
  import opened Errors
  import opened Streams
  import opened Compose
  import opened Images

  const ReadIsNull: Text := Ascii("'read' is null")
  const WriteIsNull: Text := Ascii("'write' is null")
  const ImageIsNull: Text := Ascii("'image' is null")
  const UnsupportedColor: Text := Ascii("Unsupported color format")
  const CannotConvertFiles: Text := Ascii("Cannot cheaply convert files")

  const UnknownFormatPrefix: Text := Ascii("Unknown image format: ")

  /**
   * `format!("Unknown image format: {format}")`: the fixed prefix, then the
   * tag's decimal digits, which read back as the tag.
   */
  function UnknownFormat(tag: u8): (m: Text)
    ensures |UnknownFormatPrefix| < |m| && m[..|UnknownFormatPrefix|] == UnknownFormatPrefix
    ensures var digits := m[|UnknownFormatPrefix|..];
      (forall i :: 0 <= i < |digits| ==> '0' as int <= digits[i] <= '9' as int) &&
      DigitsValue(digits) == tag
  {
    var m := UnknownFormatPrefix + Decimal(tag);
    assert NulFree(m);
    assert m[|UnknownFormatPrefix|..] == Decimal(tag);
    DecimalRoundTrip(tag);
    m
  }

  class Library {
    const errors: ErrorChannel
    var readers: set<Reader>
    var writers: set<Writer>
    var images: set<ImageBox>

    /** Every live image has the layout the codec library keeps. */
    ghost predicate Valid()
      reads this
    {
      forall im :: im in images ==> WellFormed(im.image)
    }

    /** The state of a process that has made no call yet. */
    constructor ()
      ensures fresh(errors) && errors.table == None
      ensures readers == {} && writers == {} && images == {}
      ensures Valid()
    {
      errors := new ErrorChannel();
      readers, writers, images := {}, {}, {};
    }

    // ---- Constructors and destructors of sources and sinks ----

    /** `libimage_open_file_r`, with the operating system's answer to `File::open`. */
    method OpenFileR(t: ThreadId, os: Result<InputFile, Text>) returns (r: Reader?)
      modifies this, errors
      ensures writers == old(writers) && images == old(images)
      ensures os.Ok? ==> (r != null && fresh(r) && r.wrap == ReadWrap.File(os.value) &&
        readers == old(readers) + {r} && errors.table == old(errors.table))
      ensures os.Err? ==> (r == null && readers == old(readers) &&
        errors.table == Store(old(errors.table), t, os.error))
    {
      match os
      case Ok(f) =>
        r := new Reader(ReadWrap.File(f));
        readers := readers + {r};
      case Err(why) =>
        errors.Set(t, why);
        r := null;
    }

    /** `libimage_open_file_w`, with the operating system's answer to the open. */
    method OpenFileW(t: ThreadId, os: Result<OutputFile, Text>) returns (w: Writer?)
      modifies this, errors
      ensures readers == old(readers) && images == old(images)
      ensures os.Ok? ==> (w != null && fresh(w) && w.wrap == WriteWrap.File(os.value) &&
        writers == old(writers) + {w} && errors.table == old(errors.table))
      ensures os.Err? ==> (w == null && writers == old(writers) &&
        errors.table == Store(old(errors.table), t, os.error))
    {
      match os
      case Ok(f) =>
        w := new Writer(WriteWrap.File(f));
        writers := writers + {w};
      case Err(why) =>
        errors.Set(t, why);
        w := null;
    }

    /** `libimage_fd_r`: never fails and records nothing. */
    method FdR(file: InputFile) returns (r: Reader)
      modifies this
      ensures fresh(r) && r.wrap == ReadWrap.File(file)
      ensures readers == old(readers) + {r} && writers == old(writers) && images == old(images)
    {
      r := new Reader(ReadWrap.File(file));
      readers := readers + {r};
    }

    /** `libimage_fd_w`: never fails and records nothing. */
    method FdW(file: OutputFile) returns (w: Writer)
      modifies this
      ensures fresh(w) && w.wrap == WriteWrap.File(file)
      ensures writers == old(writers) + {w} && readers == old(readers) && images == old(images)
    {
      w := new Writer(WriteWrap.File(file));
      writers := writers + {w};
    }

    /** `libimage_open_buf_r`: a cursor at 0 over the caller's `len` bytes; never fails. */
    method OpenBufR(buffer: array<u8>, len: nat) returns (r: Reader)
      requires len <= buffer.Length
      modifies this
      ensures fresh(r) && r.wrap == ReadWrap.Buf(Cursor(buffer[..len], 0))
      ensures readers == old(readers) + {r} && writers == old(writers) && images == old(images)
    {
      r := new Reader(ReadWrap.Buf(Cursor(buffer[..len], 0)));
      readers := readers + {r};
    }

    /** `libimage_open_buf_w`: a cursor at 0 over the caller's `len` bytes; never fails. */
    method OpenBufW(buffer: array<u8>, len: nat) returns (w: Writer)
      requires len <= buffer.Length
      modifies this
      ensures fresh(w) && w.wrap == WriteWrap.Buf(Cursor(buffer[..len], 0))
      ensures writers == old(writers) + {w} && readers == old(readers) && images == old(images)
    {
      w := new Writer(WriteWrap.Buf(Cursor(buffer[..len], 0)));
      writers := writers + {w};
    }

    /** `libimage_open_expanding_w`: an empty growable buffer at position 0. */
    method OpenExpandingW() returns (w: Writer)
      modifies this
      ensures fresh(w) && w.wrap == Expanding(Cursor([], 0))
      ensures writers == old(writers) + {w} && readers == old(readers) && images == old(images)
    {
      w := new Writer(Expanding(Cursor([], 0)));
      writers := writers + {w};
    }

    /** `libimage_destroy_r`: the caller hands back a live reader. */
    method DestroyR(r: Reader)
      requires r in readers
      modifies this
      ensures readers == old(readers) - {r} && writers == old(writers) && images == old(images)
    {
      readers := readers - {r};
    }

    /** `libimage_destroy_w`: the caller hands back a live writer. */
    method DestroyW(w: Writer)
      requires w in writers
      modifies this
      ensures writers == old(writers) - {w} && readers == old(readers) && images == old(images)
    {
      writers := writers - {w};
    }

    /** `libimage_destroy_image`: the caller hands back a live image. */
    method DestroyImage(im: ImageBox)
      requires im in images && Valid()
      modifies this
      ensures Valid()
      ensures images == old(images) - {im} && readers == old(readers) && writers == old(writers)
    {
      images := images - {im};
    }

    // ---- Decoding ----

    /** The effect of handing reader `r` to the codec's decoder with `hint`. */
    twostate predicate DecodedInto(t: ThreadId, r: Reader, hint: Option<ImageFormat>, codec: Codec, new img: ImageBox?)
      reads this, errors, r
    {
      var d := codec.decode(old(r.wrap), hint);
      r.wrap == d.rest &&
      match d.image
      case Ok(i) =>
        img != null && fresh(img) && img.image == i && images == old(images) + {img} &&
        errors.table == old(errors.table)
      case Err(e) =>
        img == null && images == old(images) && errors.table == Store(old(errors.table), t, e)
    }

    method Decode(t: ThreadId, r: Reader, hint: Option<ImageFormat>, codec: Codec) returns (img: ImageBox?)
      requires Valid() && Lawful(codec)
      modifies this, errors, r
      ensures Valid()
      ensures readers == old(readers) && writers == old(writers)
      ensures SameSource(old(r.wrap), r.wrap)
      ensures DecodedInto(t, r, hint, codec, img)
    {
      var d := codec.decode(r.wrap, hint);
      r.wrap := d.rest;
      match d.image
      case Ok(i) =>
        img := new ImageBox(i);
        images := images + {img};
      case Err(why) =>
        errors.Set(t, why);
        img := null;
    }

    /** `libimage_read_guess`: the null guard, then decoding with a guessed format. */
    method ReadGuess(t: ThreadId, r: Reader?, codec: Codec) returns (img: ImageBox?)
      requires r != null ==> r in readers
      requires Valid() && Lawful(codec)
      modifies this, errors, r
      ensures Valid()
      ensures r != null ==> SameSource(old(r.wrap), r.wrap)
      ensures readers == old(readers) && writers == old(writers)
      ensures r == null ==> (img == null && images == old(images) &&
        errors.table == Store(old(errors.table), t, ReadIsNull))
      ensures r != null ==> DecodedInto(t, r, None, codec, img)
    {
      if r == null {
        errors.Set(t, ReadIsNull);
        return null;
      }
      img := Decode(t, r, None, codec);
    }

    /**
     * `libimage_read`: the null guard, then the format guard, and only then
     * the codec.
     */
    method Read(t: ThreadId, r: Reader?, format: u8, codec: Codec) returns (img: ImageBox?)
      requires r != null ==> r in readers
      requires Valid() && Lawful(codec)
      modifies this, errors, r
      ensures Valid()
      ensures r != null ==> SameSource(old(r.wrap), r.wrap)
      ensures readers == old(readers) && writers == old(writers)
      ensures r == null ==> (img == null && images == old(images) &&
        errors.table == Store(old(errors.table), t, ReadIsNull))
      ensures r != null && U8ToFormat(format).None? ==> (img == null && images == old(images) &&
        r.wrap == old(r.wrap) && errors.table == Store(old(errors.table), t, UnknownFormat(format)))
      ensures r != null && U8ToFormat(format).Some? ==> DecodedInto(t, r, U8ToFormat(format), codec, img)
    {
      if r == null {
        errors.Set(t, ReadIsNull);
        return null;
      }
      var f := U8ToFormat(format);
      if f.None? {
        errors.Set(t, UnknownFormat(format));
        return null;
      }
      img := Decode(t, r, f, codec);
    }

    // ---- Inspecting images ----

    /** `libimage_metrics`. */
    method Metrics(t: ThreadId, im: ImageBox?) returns (m: MetricsMaybe)
      requires im != null ==> im in images
      modifies errors
      ensures im == null ==> m == NoMetrics && errors.table == Store(old(errors.table), t, ImageIsNull)
      ensures im != null ==> (m == MetricsOf(im.image) &&
        errors.table == if m.NoMetrics? then Store(old(errors.table), t, UnsupportedColor) else old(errors.table))
    {
      if im == null {
        errors.Set(t, ImageIsNull);
        return NoMetrics;
      }
      m := MetricsOf(im.image);
      if m.NoMetrics? {
        errors.Set(t, UnsupportedColor);
      }
    }

    /** `libimage_as_bytes`: the byte view, or null. */
    method AsBytesOf(t: ThreadId, im: ImageBox?) returns (p: Option<seq<u8>>)
      requires im != null ==> im in images
      modifies errors
      ensures im == null ==> p == None && errors.table == Store(old(errors.table), t, ImageIsNull)
      ensures im != null ==> p == Some(AsBytes(im.image)) && errors.table == old(errors.table)
    {
      if im == null {
        errors.Set(t, ImageIsNull);
        return None;
      }
      p := Some(im.image.bytes);
    }

    /**
     * `libimage_into_rgba8888`: copy the RGBA8 conversion, exactly
     * `width * height * 4` bytes, to the front of the caller's buffer, which
     * must hold at least that many.
     */
    method IntoRgba8888(t: ThreadId, im: ImageBox?, dest: array<u8>, codec: Codec) returns (ok: bool)
      requires Valid() && Lawful(codec)
      requires im != null ==> im in images && Rgba8Len(im.image.width, im.image.height) <= dest.Length
      modifies errors, dest
      ensures im == null ==> (!ok && dest[..] == old(dest[..]) &&
        errors.table == Store(old(errors.table), t, ImageIsNull))
      ensures im != null ==> (ok && errors.table == old(errors.table) &&
        var rgba := Rgba8Bytes(codec, im.image);
        |rgba| == Rgba8Len(im.image.width, im.image.height) &&
        dest[..] == rgba + old(dest[..])[|rgba|..])
    {
      if im == null {
        errors.Set(t, ImageIsNull);
        return false;
      }
      var rgba := Rgba8Bytes(codec, im.image);
      forall i | 0 <= i < |rgba| {
        dest[i] := rgba[i];
      }
      ok := true;
    }

    /** `libimage_new_rgba8888`: no failure path. */
    method NewRgba8888(bytes: array<u8>, width: u32, height: u32) returns (im: ImageBox)
      requires Rgba8Len(width, height) <= bytes.Length
      requires Valid()
      modifies this
      ensures Valid()
      ensures fresh(im) && im.image == NewRgba8(bytes[..], width, height)
      ensures images == old(images) + {im} && readers == old(readers) && writers == old(writers)
    {
      var n := width * height * 4;
      im := new ImageBox(Image(Rgba8, width, height, bytes[..n]));
      images := images + {im};
    }

    // ---- Encoding ----

    /** `libimage_write`: image guard, writer guard, format guard, then the codec. */
    method Write(t: ThreadId, im: ImageBox?, w: Writer?, format: u8, codec: Codec) returns (ok: bool)
      requires im != null ==> im in images
      requires w != null ==> w in writers
      requires Lawful(codec)
      modifies errors, w
      ensures w != null ==> SameSink(old(w.wrap), w.wrap)
      ensures im == null ==> (!ok && errors.table == Store(old(errors.table), t, ImageIsNull) &&
        (w != null ==> w.wrap == old(w.wrap)))
      ensures im != null && w == null ==> !ok && errors.table == Store(old(errors.table), t, WriteIsNull)
      ensures im != null && w != null && U8ToFormat(format).None? ==> (!ok && w.wrap == old(w.wrap) &&
        errors.table == Store(old(errors.table), t, UnknownFormat(format)))
      ensures im != null && w != null && U8ToFormat(format).Some? ==>
        var e := codec.encode(im.image, old(w.wrap), U8ToFormat(format).value);
        w.wrap == e.rest && ok == e.outcome.Pass? &&
        errors.table == if e.outcome.Fail? then Store(old(errors.table), t, e.outcome.error) else old(errors.table)
    {
      if im == null {
        errors.Set(t, ImageIsNull);
        return false;
      }
      if w == null {
        errors.Set(t, WriteIsNull);
        return false;
      }
      var f := U8ToFormat(format);
      if f.None? {
        errors.Set(t, UnknownFormat(format));
        return false;
      }
      var e := codec.encode(im.image, w.wrap, f.value);
      w.wrap := e.rest;
      match e.outcome
      case Fail(why) =>
        errors.Set(t, why);
        return false;
      case Pass =>
        return true;
    }

    // ---- Stream composition ----

    /**
     * `libimage_w_into_r`: a live writer is consumed whatever happens; a
     * memory-backed one becomes a reader over the same bytes at position 0.
     */
    method WIntoR(t: ThreadId, w: Writer?) returns (r: Reader?)
      requires w != null ==> w in writers
      modifies this, errors
      ensures images == old(images)
      ensures w == null ==> (r == null && readers == old(readers) && writers == old(writers) &&
        errors.table == Store(old(errors.table), t, WriteIsNull))
      ensures w != null ==> (writers == old(writers) - {w} &&
        match IntoReader(w.wrap)
        case None =>
          r == null && readers == old(readers) && errors.table == Store(old(errors.table), t, CannotConvertFiles)
        case Some(rw) =>
          r != null && fresh(r) && r.wrap == rw && readers == old(readers) + {r} &&
          errors.table == old(errors.table))
    {
      if w == null {
        errors.Set(t, WriteIsNull);
        return null;
      }
      writers := writers - {w};
      match IntoReader(w.wrap)
      case None =>
        errors.Set(t, CannotConvertFiles);
        r := null;
      case Some(rw) =>
        r := new Reader(rw);
        readers := readers + {r};
    }

    /**
     * `libimage_pipe`: writer guard, reader guard, then the copy loop through
     * one zero-initialised `ChunkSize`-byte buffer.
     */
    method Pipe(t: ThreadId, w: Writer?, r: Reader?) returns (ok: bool)
      requires w != null ==> w in writers
      requires r != null ==> r in readers
      modifies errors, w, r
      ensures w == null ==> (!ok && errors.table == Store(old(errors.table), t, WriteIsNull) &&
        (r != null ==> r.wrap == old(r.wrap)))
      ensures w != null && r == null ==> (!ok && w.wrap == old(w.wrap) &&
        errors.table == Store(old(errors.table), t, ReadIsNull))
      ensures w != null && r != null ==>
        var p := PipeSpec(old(w.wrap), old(r.wrap), Zeros(ChunkSize));
        w.wrap == p.sink && r.wrap == p.source && ok == p.outcome.Pass? &&
        errors.table == if p.outcome.Fail? then Store(old(errors.table), t, p.outcome.error) else old(errors.table)
    {
      if w == null {
        errors.Set(t, WriteIsNull);
        return false;
      }
      if r == null {
        errors.Set(t, ReadIsNull);
        return false;
      }
      var buf := new u8[ChunkSize](_ => 0);
      assert buf[..] == Zeros(ChunkSize);
      while true
        invariant buf.Length == ChunkSize && fresh(buf)
        invariant PipeSpec(w.wrap, r.wrap, buf[..]) == PipeSpec(old(w.wrap), old(r.wrap), Zeros(ChunkSize))
        invariant errors.table == old(errors.table)
        decreases ReadBudget(r.wrap)
      {
        ghost var before := r.wrap;
        ReadProgress(before, ChunkSize);
        var res := r.Read(buf, ChunkSize);
        match res
        case Err(why) =>
          errors.Set(t, why);
          return false;
        case Ok(len) =>
          if len == 0 {
            return true;
          }
        var wrote := w.WriteAll(buf[..]);
        if wrote.Fail? {
          errors.Set(t, wrote.error);
          return false;
        }
      }
    }

    /** `libimage_poll`: exactly one read into the first `len` bytes of `buf`. */
    method Poll(t: ThreadId, r: Reader?, buf: array<u8>, len: nat) returns (n: nat)
      requires r != null ==> r in readers && len <= buf.Length
      modifies errors, r, buf
      ensures r == null ==> (n == 0 && buf[..] == old(buf[..]) &&
        errors.table == Store(old(errors.table), t, ReadIsNull))
      ensures r != null ==>
        var step := ReadSpec(old(r.wrap), len);
        r.wrap == step.state &&
        match step.result
        case Ok(bytes) =>
          n == |bytes| && buf[..] == bytes + old(buf[..])[|bytes|..] && errors.table == old(errors.table)
        case Err(e) =>
          n == 0 && buf[..] == old(buf[..]) && errors.table == Store(old(errors.table), t, e)
    {
      if r == null {
        errors.Set(t, ReadIsNull);
        return 0;
      }
      var res := r.Read(buf, len);
      match res
      case Ok(x) =>
        n := x;
      case Err(why) =>
        errors.Set(t, why);
        n := 0;
    }
  }
}
