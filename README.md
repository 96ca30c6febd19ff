# imagecdylib boundary layer, modelled in Dafny

imagecdylib is a shared library with a C calling convention in front of the
Rust `image` crate. C callers get opaque handles to three kinds of object:

- byte sources (`ReadWrap`): a file, a fixed caller buffer, or an owned vector;
- byte sinks (`WriteWrap`): a file, a fixed caller buffer, or a growable buffer;
- decoded images (`DynamicImage`).

With those handles a caller can open and destroy sources and sinks, decode
into an image and encode an image back out, and inspect an image's metrics and
bytes. Two calls compose streams: one turns a sink into a source, one pipes a
source into a sink. Every call that fails leaves a message in a per-thread
error channel. The caller fetches it with `libimage_get_err` and clears it
with `libimage_reset_err`.

## Structure

The modules follow the parts of `src/lib.rs`:

- `Wrappers`: `Option`, `Result`, `Outcome` and `Min`.
- `Bytes`: machine integer ranges and NUL-free message bytes (`Text`). Also
  the `u8`/`i8` reinterpretation the error channel stores, and decimal
  formatting of a format tag.
- `Formats`: the `IMAGEFORMAT_*` tags and `u8_to_format`.
- `Colors`: the `COLORTYPE_*` codes, the colour-type match in
  `libimage_metrics`, and the codec library's per-layout facts, given as an
  assumed table.
- `Errors`: the global `ERROR` table as a value (`Store`, `Remove`, `Lookup`)
  and as the class `ErrorChannel`, whose methods are `set_err`,
  `libimage_get_err` and `libimage_reset_err`.
- `Streams`: `std::io::Cursor` semantics for read, slice write, vector write
  and seek. Files are oracles scripted with their answers. The `ReadWrap` and
  `WriteWrap` dispatch is modelled, and so is the default `write_all`. The
  heap boxes are the classes `Reader` and `Writer`.
- `Compose`: what `libimage_w_into_r` makes of a sink, and the loop of
  `libimage_pipe` as a specification function (`PipeSpec`) with its
  properties.
- `Images`: the image value behind a handle, `ImageMetrics`, and the codec.
  The codec is a parameter: decoder, encoder and RGBA8 converter as functions.
- `Boundary`: the class `Library`. It holds the error channel and the live
  sets of readers, writers and images, and one method for each entry point
  other than `libimage_get_err` and `libimage_reset_err`, which are
  `ErrorChannel.Get` and `ErrorChannel.Reset` on its `errors` field.
  `Library.Decode` is a helper shared by the two decoding entry points.
  The calling thread is an explicit parameter. A null pointer is a `null`
  reference.

The source's doc comments claim some things the code does not do. The model
follows the code:

- The doc comments of `libimage_open_buf_r`/`libimage_open_buf_w` say these
  calls return null on error. In the code, they and the descriptor and
  expanding-buffer constructors never fail and never record an error.
- `libimage_pipe` writes the whole 8192-byte buffer on every non-empty read,
  not only the bytes just read. The buffer is never cleared, so a short read
  re-emits bytes left over from the previous round, or zeros in the first
  round.
- `libimage_w_into_r` on a fixed-buffer sink gives a reader over the whole
  slice, not only the part written so far.
- The error channel stores the message bytes without a trailing NUL.
  `libimage_get_err` takes the address of the first byte, so it requires a
  non-empty message. The header declares the result as a plain
  `const char *`, so a C caller that reads it as a NUL-terminated string
  reads past the end of the stored bytes. This is a defect in the source:
  the model's `Get` returns the entry with its length, because the bytes
  after the entry are not part of any modelled state.
- `ImageMetricsMaybe` is an untagged union. Its `none: 0` sentinel writes
  only the byte that overlaps the first byte of `bufsize`. A C caller that
  tests `none == 0` therefore also takes a real record for the sentinel
  when that byte of `bufsize` is 0, for instance an 8 x 8 RGBA8 image on a
  little-endian target (`SmallImageReadsAsNone`).

## Model

| member | source | states |
|---|---|---|
| Formats.U8ToFormat | src/lib.rs:47-66 | gives a format exactly for tags 1..15, and the format's tag is the input tag |
| Formats.FormatTag | src/lib.rs:31-45 | every format's tag lies in 1..15 |
| Formats.FormatTagRoundTrip | src/lib.rs:31-66 | `u8_to_format` of a format's tag gives that format back |
| Formats.U8ToFormatInjective | src/lib.rs:47-66 | distinct accepted tags give distinct formats |
| Colors.ColorCode | src/lib.rs:408-423 | no code exactly for a layout outside the ten; otherwise a code in 1..10 that maps back to the layout |
| Colors.CodeToColor | src/lib.rs:20-29 | a layout exactly for codes 1..10, never the unmapped case |
| Colors.ColorCodeInjective | src/lib.rs:408-418 | two layouts with the same code are equal |
| Colors.ColorCodeOnto | src/lib.rs:408-418 | every code 1..10 is some layout's code |
| Colors.LayoutTableConsistent | src/lib.rs:425-428 | in the assumed table, bytes per pixel = channels × sample size; alpha ⇔ even channel count; colour ⇔ at least three channels |
| Bytes.Ascii | src/lib.rs:310 | a message literal's bytes: same length, ASCII characters kept, no NUL |
| Bytes.ToI8 | src/lib.rs:137 | the `u8`-to-`i8` transmute keeps zero and non-zero apart and is undone by `FromI8` |
| Bytes.CStringBytes | src/lib.rs:137 | the stored entry has exactly the message's length (no trailing NUL); each element is a non-zero `i8` reinterpreting the message byte |
| Bytes.Decimal | src/lib.rs:344 | `{format}` is a non-empty run of decimal digits with no leading zero and no NUL |
| Bytes.DecimalRoundTrip | src/lib.rs:344 | the digits written for a tag read back as that tag |
| Errors.Store | src/lib.rs:126-141 | afterwards the table exists; thread t's entry is the new message bytes; every other thread's entry is unchanged |
| Errors.Remove | src/lib.rs:167-175 | an absent table stays absent; t has no entry; every other thread's entry is unchanged |
| Errors.StoreOverwrites | src/lib.rs:135-140 | a second message replaces the first outright (overwrite, never append) |
| Errors.RemoveAfterStore | src/lib.rs:126-175 | after set then reset on t, `get_err` on t finds nothing |
| Errors.OtherThreadsInvisible | src/lib.rs:18 | any sequence of sets and resets by other threads leaves what thread t finds unchanged |
| Errors.ErrorChannel.Set | src/lib.rs:126-141 | the table becomes `Store` of the old table |
| Errors.Lookup | src/lib.rs:152-160 | nothing exactly when the table is absent or has no entry for t; otherwise t's entry |
| Errors.ErrorChannel.Get | src/lib.rs:151-161 | the result is `Lookup` of the table: a message exactly when the table exists and holds t; it is t's entry, and it is non-empty (required by the `&x[0]`) |
| Errors.ErrorChannel.Reset | src/lib.rs:167-175 | the table becomes `Remove` of the old table |
| Streams.ReadSpec | src/lib.rs:74-82 | a read never delivers more than the buffer length; the variant is kept; cursor reads never fail and never change the bytes |
| Streams.WriteSpec | src/lib.rs:99-107 | a write never reports more than it was given; the variant is kept |
| Streams.WriteAllSpec | src/lib.rs:593 | `write_all` (a zero-length write is the WriteZero error) keeps the variant |
| Streams.FlushSpec | src/lib.rs:108-114 | flushing never changes the state and always succeeds |
| Streams.CursorRead | src/lib.rs:78-79 | a cursor read delivers the first min(n, remaining) unread bytes, keeps the data and advances the position by the count |
| Streams.SliceWrite | src/lib.rs:103 | a fixed-buffer write takes min(n, room after the clamped position) bytes, keeps the length, replaces exactly that range and advances by the count |
| Streams.VecWrite | src/lib.rs:104 | a growable write takes all bytes, places them at the position, and the length becomes the larger of the old length and pos + n |
| Streams.CursorSeek | src/lib.rs:87-88 | a seek keeps the data; success moves to the reported position; failure leaves the cursor unchanged with the negative-or-overflowing message; `Start(n)` always succeeds with n |
| Streams.SeekReadSpec | src/lib.rs:83-91 | the variant is kept; a file answers through its oracle and stays put; a cursor keeps its data and moves to the reported position |
| Streams.SeekWriteSpec | src/lib.rs:116-124 | the variant is kept; a file answers through its oracle and stays put; a cursor keeps its data and moves to the reported position |
| Streams.VecWritePastEndPads | src/lib.rs:104 | a growable write past the end first fills the gap with zero bytes, then appends |
| Streams.CursorReadTakesAvailable | src/lib.rs:78-79 | a cursor read returns the next min(n, len − pos) bytes and advances pos by that many |
| Streams.CursorReadConcat | src/lib.rs:78-79 | a read of n then m delivers, and leaves, exactly what one read of n + m does |
| Streams.SeekStartMoves | src/lib.rs:549 | `seek(Start(n))` always succeeds and sets the position to n |
| Streams.SeekBeforeStartFails | src/lib.rs:84-90 | a seek to a negative position fails with the cursor unchanged |
| Streams.SliceWriteKeepsCapacity | src/lib.rs:103 | a fixed-buffer write never changes the buffer's length |
| Streams.WriteAllIntoSlice | src/lib.rs:103 | `write_all` into a fixed buffer succeeds iff the bytes fit after the position; it fails only with WriteZero; the buffer ends up holding the part that fits, the rest untouched |
| Streams.WriteAllFromStartFits | src/lib.rs:103 | bytes that fit, written from position 0, replace the buffer's prefix |
| Streams.WriteAllIntoVec | src/lib.rs:104 | `write_all` into a growable buffer always succeeds, in a single write |
| Streams.VecWriteAtEndAppends | src/lib.rs:104 | a growable write at the end appends |
| Streams.VecWriteOverwrites | src/lib.rs:104 | a growable write inside the data overwrites from pos, keeps the prefix and any longer tail, and extends as needed |
| Streams.ReadProgress | src/lib.rs:580-587 | a read never increases what the source can still deliver; a non-empty or failed read strictly decreases it |
| Streams.Reader.Read | src/lib.rs:74-82 | the new state is the read's state; on success the delivered bytes land at the front of the buffer and the rest is unchanged; on error the buffer is untouched |
| Streams.Reader.Seek | src/lib.rs:83-91 | the seek's new state and result, by variant |
| Streams.Writer.Write | src/lib.rs:99-107 | the write's new state and result, by variant |
| Streams.Writer.WriteAll | src/lib.rs:593 | the loop reaches the same state and outcome as `WriteAllSpec` |
| Streams.Writer.Flush | src/lib.rs:108-114 | state unchanged, success |
| Streams.Writer.Seek | src/lib.rs:116-124 | the seek's new state and result, by variant |
| Compose.IntoReader | src/lib.rs:543-559 | none exactly for a file sink; a fixed buffer gives a reader over the whole slice at position 0; a growable buffer gives a vector reader over its bytes at position 0 |
| Compose.ExpandingRoundTrip | src/lib.rs:555-557 | bytes written into a fresh growable sink are what the converted reader delivers, followed by end of stream |
| Compose.FixedBufferReadsWholeSlice | src/lib.rs:548-553 | after writing d from the start of a fixed buffer, the converted reader delivers d followed by the slice's older contents |
| Compose.PipeSpec | src/lib.rs:578-597 | the pipe loop keeps each stream's variant |
| Compose.PipeEmptySource | src/lib.rs:589-591 | an empty first read gives success with the sink unchanged |
| Compose.PipeReadFailure | src/lib.rs:581-587 | a failing first read gives that error with the sink unchanged |
| Compose.PipeFailsMidStream | src/lib.rs:581-587 | a read that fails after a successful round gives that error, and the sink keeps the padded bytes of that round |
| Compose.PipeIntoRefusingFile | src/lib.rs:593-596 | after a non-empty read, a file sink whose write fails ends the pipe with that error and the file takes nothing |
| Compose.PipeShortInputPads | src/lib.rs:578-597 | a short input d piped into a fresh growable sink leaves d followed by zeros up to 8192 bytes |
| Compose.PipeIntoSmallBufferFails | src/lib.rs:593-596 | into a fixed buffer under 8192 bytes, any non-empty read fails with WriteZero after filling the buffer with the chunk's head |
| Compose.PipeRoundCursorIntoVec | src/lib.rs:580-597 | one round from a cursor into a growable sink at its end: reads min(8192, remaining), appends the whole reused buffer |
| Compose.GrownByOneMoreChunk | src/lib.rs:593 | appending one whole buffer that starts with the chunk read keeps the growth invariant |
| Compose.PipeCursorIntoVec | src/lib.rs:578-597 | piping a cursor into a growable sink at its end succeeds; the sink gets the old contents, then every unread byte in order, then fewer than 8192 stale bytes, and grows by a multiple of 8192 |
| Images.MetricsOf | src/lib.rs:404-430 | no record exactly for an unmapped layout, never a partial one; otherwise bufsize is the byte view's length and width, height, code, channels, bytes per pixel, alpha and colour all come from the image |
| Images.EncodedIntoGrowableConverts | src/lib.rs:503 | under the codec contract, encoding into a growable sink leaves a growable sink, which `libimage_w_into_r` can convert |
| Images.NoneByte | src/lib.rs:385-389 | what the union's `none` byte holds: 0 for the sentinel, otherwise the overlapping byte of `bufsize` |
| Images.NoneByteZeroLittleEndian | src/lib.rs:385-389 | on little-endian, `none == 0` holds exactly for the sentinel and for every record whose bufsize is a multiple of 256 |
| Images.SmallImageReadsAsNone | src/lib.rs:401 | the real record of an 8 x 8 RGBA8 image shows the same `none` byte as the sentinel |
| Images.BufsizeOfWellFormed | src/lib.rs:424-428 | for a well-formed image the reported bufsize is width x height x bytes per pixel |
| Images.Rgba8Bytes | src/lib.rs:470 | an RGBA8 image converts to its own bytes; under the codec contract a well-formed image converts to exactly w·h·4 bytes |
| Images.NewRgba8 | src/lib.rs:521-528 | the built image is RGBA8 of the given size, well formed (w·h·4 bytes), and its bytes are the input's prefix |
| Images.NewRgba8Metrics | src/lib.rs:521-529 | a built image reports RGBA8 metrics: code 4, 4 channels, 4 bytes per pixel, alpha and colour, bufsize w·h·4 |
| Images.NewRgba8RoundTrip | src/lib.rs:521-528 | converting a built image to RGBA8 gives exactly the first w·h·4 input bytes |
| Images.BufsizeIsByteViewLength | src/lib.rs:424 | when metrics exist, bufsize is the length of what `libimage_as_bytes` exposes |
| Boundary.Library.OpenFileR | src/lib.rs:184-194 | on success a fresh live file reader and no error; on failure null and the OS message recorded |
| Boundary.Library.OpenFileW | src/lib.rs:203-218 | on success a fresh live file writer and no error; on failure null and the OS message recorded |
| Boundary.Library.FdR | src/lib.rs:225-227 | always a fresh live file reader; nothing recorded |
| Boundary.Library.FdW | src/lib.rs:234-236 | always a fresh live file writer; nothing recorded |
| Boundary.Library.OpenBufR | src/lib.rs:246-251 | always a fresh live reader over the caller's len bytes at position 0; nothing recorded |
| Boundary.Library.OpenBufW | src/lib.rs:261-266 | always a fresh live writer over the caller's len bytes at position 0; nothing recorded |
| Boundary.Library.OpenExpandingW | src/lib.rs:270-274 | always a fresh live growable writer, empty at position 0 |
| Boundary.Library.DestroyR | src/lib.rs:283-285 | the reader leaves the live set; nothing else changes |
| Boundary.Library.DestroyW | src/lib.rs:294-296 | the writer leaves the live set; nothing else changes |
| Boundary.Library.DestroyImage | src/lib.rs:364-366 | the image leaves the live set; nothing else changes |
| Boundary.UnknownFormat | src/lib.rs:344 | the message is the fixed prefix followed by decimal digits that read back as the rejected tag |
| Boundary.Library.Decode | src/lib.rs:313-325 | the decoder's result: a fresh live image and no error, or null and the decoder's message; the reader keeps its variant and a cursor's bytes |
| Boundary.Library.ReadGuess | src/lib.rs:308-326 | null reader: "'read' is null", null, no decoding; otherwise decoding with a guessed format, the reader keeping its variant and a cursor's bytes |
| Boundary.Library.Read | src/lib.rs:337-355 | null reader first, then a tag outside 1..15 gives "Unknown image format: {tag}" with the source untouched; only then the decoder with that format; a non-null reader keeps its variant and a cursor's bytes |
| Boundary.Library.Metrics | src/lib.rs:398-431 | null image: "'image' is null" and the sentinel; otherwise `MetricsOf`, recording "Unsupported color format" exactly when it is the sentinel |
| Boundary.Library.AsBytesOf | src/lib.rs:442-449 | null image: "'image' is null" and null; otherwise the byte view and no error |
| Boundary.Library.IntoRgba8888 | src/lib.rs:455-474 | with a destination of at least w·h·4 bytes: null image gives false, "'image' is null", destination untouched; otherwise true, exactly w·h·4 RGBA8 bytes copied to the front of the destination, the rest untouched |
| Boundary.Library.NewRgba8888 | src/lib.rs:516-530 | no failure path: always a fresh live RGBA8 image of the given size holding the first w·h·4 input bytes |
| Boundary.Library.Write | src/lib.rs:483-509 | checks image, then writer, then tag, each with its message and false, before the encoder; then the encoder's new sink state, with true exactly on success and the encoder's message recorded on failure; a non-null writer keeps its variant and a fixed buffer's length |
| Boundary.Library.WIntoR | src/lib.rs:537-560 | null: "'write' is null", null, nothing consumed; otherwise the writer always leaves the live set; a file gives "Cannot cheaply convert files" and null; a buffer gives a fresh live reader equal to `IntoReader` |
| Boundary.Library.Pipe | src/lib.rs:567-598 | checks writer, then reader; then the loop reaches the state and outcome of `PipeSpec` from a zeroed 8192-byte buffer, recording the error exactly on failure |
| Boundary.Library.Poll | src/lib.rs:605-618 | null reader: 0 and "'read' is null"; otherwise exactly one read of len bytes: its count and bytes at the front of the buffer, or 0 with the error recorded and the buffer untouched |

## Left out

- Operating-system file I/O is modelled by oracles. `File::open`, `File::options`, `from_raw_fd` and path decoding are not modelled. An opened file is a parameter, an `InputFile` or `OutputFile`, scripted with the answers its reads and writes will get. Its seek is a function from the request to an answer and does not move the script.
- An `InputFile` script is finite. After it ends, every read reports end of file, so sources that never end are not modelled.
- `ErrorKind::Interrupted` retries inside `write_all` are not modelled. A file write error is always returned.
- The `ERROR` mutex and lock poisoning (src/lib.rs:127-129) are not modelled. Neither are real threads: the thread id is a plain parameter, and calls are taken to be sequential.
- Errors.ErrorChannel.Set: only NUL-free messages are modelled (`Text`). The panic of `CString::new(..).unwrap()` on a message containing NUL is not.
- Raw-pointer validity, lifetime transmutes and use-after-free are preconditions: a non-null handle must be live, and a caller buffer must be long enough.
- Readers and writers over caller buffers hold a snapshot of the buffer's bytes. The model does not capture that the C caller's memory stays aliased with the cursor: writes through a `Buf` sink are not visible in the caller's array.
- Decoding, format guessing, encoding (`write_to`) and RGBA8 conversion belong to the `image` crate and are the parameters of a `Codec`. Its behaviour is not modelled; the next line lists what the model assumes of it.
- Boundary.Library.ReadGuess: a failed format guess and a failed decode both appear as the decoder's error. The model does not tell the two paths apart.
- The reads a decoder makes through its `BufReader` are not modelled. That includes how far the source has been read afterwards: the decoder reports the source's new state itself.
- The codec contract is assumed, not proved (`Images.Lawful`, `Images.WellFormed`, `Images.SameSource`, `Images.SameSink`). It says four things. A decoded image of a known layout holds width x height x bytes-per-pixel bytes. RGBA8 conversion always yields width x height x 4 bytes. Decoding keeps the source's variant and a cursor's bytes. Encoding keeps the sink's variant and a fixed buffer's length. An RGBA8 image is taken to convert to its own bytes. `Boundary.Library.Valid` carries the first fact for every live image. `Boundary.Library.IntoRgba8888` relies on both for its w·h·4 count.
- Boundary.Library.Metrics: the result is a tagged value, so the model's sentinel can always be told apart from a record. A C caller sees only the untagged union and cannot do this (`Images.NoneByte`, `Images.NoneByteZeroLittleEndian`). The model does not capture which reading a caller makes.
- Colors.Channels, Colors.BytesPerPixel, Colors.HasAlpha and Colors.HasColor are an assumed table of the `image` crate's `ColorType` methods. They are not verified behaviour.
- Float pixel conversion (Rgb32F, Rgba32F) is not modelled.
- Boundary.Library.NewRgba8888: the size is `w·h·4` as an unbounded integer. The model leaves out the panic the codec library raises when creating the image if that size overflows `usize`.
- Memory exhaustion and vector growth failure are not modelled. Neither are `u64` position overflow on cursor writes or `usize` limits on buffer lengths.
- Messages are modelled as ASCII byte strings. An operating-system or codec message arrives as `Text` and is not formatted by the model.
- build/include/imagecdylib.h has no behaviour of its own. It only declares the entry points, the structs and the constants of src/lib.rs:20-45.
