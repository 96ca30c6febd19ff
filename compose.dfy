/**
 * The stream composition primitives: turning a sink into a source, and the
 * fixed-buffer copy loop that pipes a source into a sink.
 */
module Compose {
  import opened Wrappers
  import opened Bytes
  import opened Streams

  /** The length of the buffer `libimage_pipe` allocates and reuses. */
  const ChunkSize: nat := 8192

  /**
   * The reader `libimage_w_into_r` makes of a live writer, if it can: a
   * cursor over the same bytes (for a fixed buffer, the whole slice), rewound
   * with `seek(Start(0))`. Files cannot be converted.
   */
  function IntoReader(w: WriteWrap): (r: Option<ReadWrap>)
    ensures r.None? <==> w.File?
    ensures w.Buf? ==> r == Some(ReadWrap.Buf(Cursor(w.cursor.data, 0)))
    ensures w.Expanding? ==> r == Some(Vec(Cursor(w.cursor.data, 0)))
  {
    match w
    case File(_) => None
    case Buf(c) => Some(ReadWrap.Buf(CursorSeek(c, Start(0)).0))
    case Expanding(c) => Some(Vec(CursorSeek(c, Start(0)).0))
  }

  /**
   * Bytes written into a fresh growable sink are exactly what the converted
   * reader delivers: one read of at least their length returns all of them,
   * and the next read reports end of stream.
   */
  lemma {:induction false} ExpandingRoundTrip(d: seq<u8>, n: nat)
    requires |d| <= n
    ensures var s := WriteAllSpec(Expanding(Cursor([], 0)), d);
      s.outcome == Pass && IntoReader(s.state).Some? &&
      var first := ReadSpec(IntoReader(s.state).value, n);
      first.result == Ok(d) && ReadSpec(first.state, n).result == Ok([])
  {
    WriteAllIntoVec(Cursor([], 0), d);
    if d != [] {
      VecWriteAtEndAppends(Cursor([], 0), d);
    }
    assert d[..|d|] == d;
  }

  /**
   * Converting a fixed-buffer sink yields a reader over the whole slice, not
   * only the written prefix: after writing `d` from the start, reading the
   * slice's length delivers `d` followed by the slice's earlier contents.
   */
  lemma {:induction false} FixedBufferReadsWholeSlice(slice: seq<u8>, d: seq<u8>)
    requires |d| <= |slice|
    ensures var s := WriteAllSpec(WriteWrap.Buf(Cursor(slice, 0)), d);
      s.outcome == Pass && IntoReader(s.state).Some? &&
      ReadSpec(IntoReader(s.state).value, |slice|).result == Ok(d + slice[|d|..])
  {
    var after := d + slice[|d|..];
    WriteAllFromStartFits(slice, d);
    var c := Cursor(after, 0);
    CursorReadTakesAvailable(c, |slice|);
    assert after[0..|after|] == after;
  }

  datatype PipeStep = PipeStep(sink: WriteWrap, source: ReadWrap, outcome: Outcome<Text>)

  /**
   * The loop of `libimage_pipe` from a given buffer content: read up to
   * `ChunkSize` bytes into the reused buffer; stop with success on an empty
   * read and with the error on a failed one; otherwise `write_all` the WHOLE
   * buffer (the fresh bytes followed by whatever the previous read left
   * behind) and go on unless that failed.
   */
  function PipeSpec(w: WriteWrap, r: ReadWrap, buf: seq<u8>): (s: PipeStep)
    requires |buf| == ChunkSize
    ensures s.sink.File? == w.File? && s.sink.Buf? == w.Buf?
    ensures s.source.File? == r.File? && s.source.Buf? == r.Buf?
    decreases ReadBudget(r)
  {
    var rd := ReadSpec(r, ChunkSize);
    match rd.result
    case Err(e) => PipeStep(w, rd.state, Fail(e))
    case Ok(bytes) =>
      if |bytes| == 0 then PipeStep(w, rd.state, Pass)
      else
        ReadProgress(r, ChunkSize);
        var buf' := bytes + buf[|bytes|..];
        var wa := WriteAllSpec(w, buf');
        if wa.outcome.Fail? then PipeStep(wa.state, rd.state, wa.outcome)
        else PipeSpec(wa.state, rd.state, buf')
  }

  /** A source that is empty from the start: success, and the sink is untouched. */
  lemma {:induction false} PipeEmptySource(w: WriteWrap, r: ReadWrap, buf: seq<u8>)
    requires |buf| == ChunkSize
    requires ReadSpec(r, ChunkSize).result == Ok([])
    ensures PipeSpec(w, r, buf) == PipeStep(w, ReadSpec(r, ChunkSize).state, Pass)
  {
  }

  /** A failing first read: the read's error, and the sink is untouched. */
  lemma {:induction false} PipeReadFailure(w: WriteWrap, r: ReadWrap, buf: seq<u8>)
    requires |buf| == ChunkSize
    requires ReadSpec(r, ChunkSize).result.Err?
    ensures PipeSpec(w, r, buf) == PipeStep(w, ReadSpec(r, ChunkSize).state, Fail(ReadSpec(r, ChunkSize).result.error))
  {
  }

  /**
   * A read that fails after a successful round: the read's error, and the sink
   * keeps what the earlier round wrote.
   */
  lemma {:induction false} PipeFailsMidStream(a: seq<u8>, m: Text, seek: SeekFrom -> Result<u64, Text>)
    requires 0 < |a| <= ChunkSize
    ensures var s := PipeSpec(Expanding(Cursor([], 0)), ReadWrap.File(InputFile([Chunk(a), Failure(m)], seek)), Zeros(ChunkSize));
      s.outcome == Fail(m) && s.sink == Expanding(Cursor(a + Zeros(ChunkSize - |a|), ChunkSize))
  {
    var script := [Chunk(a), Failure(m)];
    assert script[1..] == [Failure(m)] && [Failure(m)][1..] == [];
    var buf' := a + Zeros(ChunkSize)[|a|..];
    assert buf' == a + Zeros(ChunkSize - |a|);
    WriteAllIntoVec(Cursor([], 0), buf');
    VecWriteAtEndAppends(Cursor([], 0), buf');
  }

  /**
   * A short input is padded to a whole buffer: piping `d` (at most one
   * buffer's worth, not empty) into a fresh growable sink leaves `d`
   * followed by zero bytes up to `ChunkSize`.
   */
  lemma {:induction false} PipeShortInputPads(d: seq<u8>)
    requires 0 < |d| <= ChunkSize
    ensures var s := PipeSpec(Expanding(Cursor([], 0)), Vec(Cursor(d, 0)), Zeros(ChunkSize));
      s.outcome == Pass && s.sink == Expanding(Cursor(d + Zeros(ChunkSize - |d|), ChunkSize))
  {
    var buf' := d + Zeros(ChunkSize)[|d|..];
    assert buf' == d + Zeros(ChunkSize - |d|);
    assert d[0..|d|] == d;
    WriteAllIntoVec(Cursor([], 0), buf');
    VecWriteAtEndAppends(Cursor([], 0), buf');
    assert ReadSpec(Vec(Cursor(d, |d|)), ChunkSize).result == Ok([]);
  }

  /**
   * Piping into a fixed buffer smaller than `ChunkSize` fails as soon as the
   * source delivers any byte, even one that would fit: the buffer is filled
   * with the head of the chunk and the next write takes nothing.
   */
  lemma {:induction false} PipeIntoSmallBufferFails(slice: seq<u8>, r: ReadWrap, buf: seq<u8>)
    requires |buf| == ChunkSize && |slice| < ChunkSize
    requires ReadSpec(r, ChunkSize).result.Ok? && |ReadSpec(r, ChunkSize).result.value| > 0
    ensures var bytes := ReadSpec(r, ChunkSize).result.value;
      var s := PipeSpec(WriteWrap.Buf(Cursor(slice, 0)), r, buf);
      s.outcome == Fail(WriteZeroMessage) &&
      s.sink == WriteWrap.Buf(Cursor((bytes + buf[|bytes|..])[..|slice|], |slice|))
  {
    var bytes := ReadSpec(r, ChunkSize).result.value;
    var buf' := bytes + buf[|bytes|..];
    WriteAllIntoSlice(Cursor(slice, 0), buf');
    assert slice[..0] + buf'[..|slice|] + slice[|slice|..] == buf'[..|slice|];
  }

  /**
   * A sink whose write fails: after a non-empty read the pipe stops with the
   * write's error, and the file has taken nothing.
   */
  lemma {:induction false} PipeIntoRefusingFile(out: OutputFile, m: Text, r: ReadWrap, buf: seq<u8>)
    requires |buf| == ChunkSize && out.plan == [Refuse(m)]
    requires ReadSpec(r, ChunkSize).result.Ok? && |ReadSpec(r, ChunkSize).result.value| > 0
    ensures var s := PipeSpec(WriteWrap.File(out), r, buf);
      s.outcome == Fail(m) && s.sink == WriteWrap.File(out.(plan := [])) &&
      s.source == ReadSpec(r, ChunkSize).state
  {
  }

  /** One round of the pipe loop from a cursor into a growable sink at its end. */
  lemma {:induction false} PipeRoundCursorIntoVec(src: seq<u8>, p: nat, out: seq<u8>, buf: seq<u8>)
    requires p <= |src| && |buf| == ChunkSize
    ensures var k := Min(ChunkSize, |src| - p);
      var buf' := src[p..p + k] + buf[k..];
      PipeSpec(Expanding(Cursor(out, |out|)), Vec(Cursor(src, p)), buf) ==
        if k == 0 then PipeStep(Expanding(Cursor(out, |out|)), Vec(Cursor(src, p)), Pass)
        else PipeSpec(Expanding(Cursor(out + buf', |out| + ChunkSize)), Vec(Cursor(src, p + k)), buf')
  {
    var k := Min(ChunkSize, |src| - p);
    CursorReadTakesAvailable(Cursor(src, p), ChunkSize);
    assert ReadSpec(Vec(Cursor(src, p)), ChunkSize) == ReadStep(Vec(Cursor(src, p + k)), Ok(src[p..p + k]));
    if k > 0 {
      var buf' := src[p..p + k] + buf[k..];
      WriteAllIntoVec(Cursor(out, |out|), buf');
      VecWriteAtEndAppends(Cursor(out, |out|), buf');
    }
  }

  /**
   * `data` is `out` followed by `unread` and then fewer than `ChunkSize`
   * further bytes, having grown from `out` by whole buffers.
   */
  ghost predicate GrownByChunks(out: seq<u8>, unread: seq<u8>, data: seq<u8>)
  {
    |out| + |unread| <= |data| < |out| + |unread| + ChunkSize &&
    (|data| - |out|) % ChunkSize == 0 &&
    data[..|out|] == out && data[|out|..|out| + |unread|] == unread
  }

  /** A round that appends a whole buffer starting with `chunk` keeps `GrownByChunks`. */
  lemma {:induction false} GrownByOneMoreChunk(out: seq<u8>, chunk: seq<u8>, buf': seq<u8>, rest: seq<u8>, data: seq<u8>)
    requires |buf'| == ChunkSize && 0 < |chunk| <= ChunkSize && buf'[..|chunk|] == chunk
    requires |chunk| < ChunkSize ==> rest == []
    requires GrownByChunks(out + buf', rest, data)
    ensures GrownByChunks(out, chunk + rest, data)
  {
    var out' := out + buf';
    assert data[..|out|] == out by {
      assert data[..|out'|] == out';
      assert data[..|out|] == out'[..|out|];
    }
    assert data[|out|..|out'|] == buf' by {
      assert data[..|out'|] == out';
    }
    if |chunk| == ChunkSize {
      assert buf' == chunk;
      assert data[|out|..|out| + |chunk + rest|] == data[|out|..|out'|] + data[|out'|..|out'| + |rest|];
    } else {
      assert chunk + rest == chunk;
      assert data[|out|..|out| + |chunk|] == buf'[..|chunk|];
    }
  }

  /**
   * Piping a cursor into a growable sink positioned at its end never fails;
   * the sink gains every unread byte, in order, followed by fewer than
   * `ChunkSize` stale buffer bytes, so that it grows by whole buffers.
   */
  lemma {:induction false} PipeCursorIntoVec(src: seq<u8>, p: nat, out: seq<u8>, buf: seq<u8>)
    requires p <= |src| && |buf| == ChunkSize
    ensures var s := PipeSpec(Expanding(Cursor(out, |out|)), Vec(Cursor(src, p)), buf);
      s.outcome == Pass && s.sink.Expanding? && s.sink.cursor.pos == |s.sink.cursor.data| &&
      GrownByChunks(out, src[p..], s.sink.cursor.data)
    decreases |src| - p
  {
    var k := Min(ChunkSize, |src| - p);
    PipeRoundCursorIntoVec(src, p, out, buf);
    if k > 0 {
      var buf' := src[p..p + k] + buf[k..];
      PipeCursorIntoVec(src, p + k, out + buf', buf');
      var s := PipeSpec(Expanding(Cursor(out + buf', |out| + ChunkSize)), Vec(Cursor(src, p + k)), buf');
      assert src[p..] == src[p..p + k] + src[p + k..];
      GrownByOneMoreChunk(out, src[p..p + k], buf', src[p + k..], s.sink.cursor.data);
    } else {
      assert out[..|out|] == out;
    }
  }
}
