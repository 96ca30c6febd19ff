/**
 * The byte sources and sinks behind the boundary's `ReadWrap` and
 * `WriteWrap`: a file, a caller-owned fixed buffer, or an owned growable
 * buffer. Memory-backed variants are `std::io::Cursor`s; the file variants
 * are oracles that answer as the operating system would.
 */
module Streams {
  import opened Wrappers
  import opened Bytes

  /** `std::io::Cursor`: the bytes and a position, which may lie past the end. */
  datatype Cursor = Cursor(data: seq<u8>, pos: nat)

  /** `std::io::SeekFrom`. */
  datatype SeekFrom = Start(offset: u64) | End(delta: i64) | Current(delta: i64)

  /** The `io::Error` texts that the cursor and `write_all` paths produce. */
  const SeekErrorMessage: Text := Ascii("invalid seek to a negative or overflowing position")
  const WriteZeroMessage: Text := Ascii("failed to write whole buffer")

  function Zeros(n: nat): (z: seq<u8>)
    ensures |z| == n && forall i :: 0 <= i < n ==> z[i] == 0
  {
    seq(n, _ => 0)
  }

  /** The part of a cursor not yet read: from the position, clamped to the end. */
  function Unread(c: Cursor): seq<u8>
  {
    c.data[Min(c.pos, |c.data|)..]
  }

  /** `Cursor::read` into an `n`-byte buffer: copy what fits, advance. */
  function CursorRead(c: Cursor, n: nat): (r: (Cursor, seq<u8>))
    ensures |r.1| == Min(n, |Unread(c)|) && r.1 == Unread(c)[..|r.1|]
    ensures r.0.data == c.data && r.0.pos == c.pos + |r.1|
  {
    var k := Min(n, |Unread(c)|);
    (Cursor(c.data, c.pos + k), Unread(c)[..k])
  }

  /**
   * `Cursor<&mut [u8]>::write`: the slice never grows; copy as many bytes as
   * fit between the (clamped) position and the end, and report that count.
   */
  function SliceWrite(c: Cursor, buf: seq<u8>): (r: (Cursor, nat))
    ensures r.1 == Min(|buf|, |c.data| - Min(c.pos, |c.data|)) && r.0.pos == c.pos + r.1
    ensures |r.0.data| == |c.data|
    ensures var p := Min(c.pos, |c.data|);
      r.0.data[..p] == c.data[..p] && r.0.data[p..p + r.1] == buf[..r.1] &&
      r.0.data[p + r.1..] == c.data[p + r.1..]
  {
    var p := Min(c.pos, |c.data|);
    var k := Min(|buf|, |c.data| - p);
    (Cursor(c.data[..p] + buf[..k] + c.data[p + k..], c.pos + k), k)
  }

  /**
   * `Cursor<Vec<u8>>::write`: zero-fill up to the position if it lies past
   * the end, overwrite from the position, extend with the rest; all of `buf`
   * is taken.
   */
  function VecWrite(c: Cursor, buf: seq<u8>): (r: (Cursor, nat))
    ensures r.1 == |buf| && r.0.pos == c.pos + |buf|
    ensures |r.0.data| == if c.pos + |buf| < |c.data| then |c.data| else c.pos + |buf|
    ensures r.0.data[c.pos..c.pos + |buf|] == buf
  {
    var padded := if c.pos > |c.data| then c.data + Zeros(c.pos - |c.data|) else c.data;
    var tail := if c.pos + |buf| < |padded| then padded[c.pos + |buf|..] else [];
    (Cursor(padded[..c.pos] + buf + tail, c.pos + |buf|), |buf|)
  }

  /** `Cursor::seek`: move to the target, which must fit in a `u64`. */
  function CursorSeek(c: Cursor, from: SeekFrom): (r: (Cursor, Result<u64, Text>))
    ensures r.0.data == c.data
    ensures r.1.Ok? ==> r.0.pos == r.1.value
    ensures r.1.Err? ==> r.0 == c && r.1.error == SeekErrorMessage
    ensures from.Start? ==> r.1 == Ok(from.offset)
  {
    var target := match from
      case Start(n) => n
      case End(d) => |c.data| + d
      case Current(d) => c.pos + d;
    if 0 <= target < 0x1_0000_0000_0000_0000 then (Cursor(c.data, target), Ok(target))
    else (c, Err(SeekErrorMessage))
  }

  /** What one `read` of a file delivers. */
  datatype ReadEvent = Chunk(bytes: seq<u8>) | Failure(message: Text)

  /**
   * A file open for reading, described by the answers its reads will get, in
   * order (a chunk longer than the buffer is delivered over several reads);
   * once the script is exhausted every read reports end of file. `seek` is the
   * operating system's answer to a seek.
   */
  datatype InputFile = InputFile(script: seq<ReadEvent>, seek: SeekFrom -> Result<u64, Text>)

  function FileRead(f: InputFile, n: nat): (InputFile, Result<seq<u8>, Text>)
  {
    if f.script == [] then (f, Ok([]))
    else match f.script[0]
      case Chunk(b) =>
        if |b| <= n then (f.(script := f.script[1..]), Ok(b))
        else (f.(script := [Chunk(b[n..])] + f.script[1..]), Ok(b[..n]))
      case Failure(m) => (f.(script := f.script[1..]), Err(m))
  }

  /** What one `write` to a file does: take at most `limit` bytes, or fail. */
  datatype WriteEvent = Accept(limit: nat) | Refuse(message: Text)

  /**
   * A file open for writing: the bytes it has taken so far and the answers its
   * next writes will get; once the plan is exhausted it takes everything.
   */
  datatype OutputFile = OutputFile(written: seq<u8>, plan: seq<WriteEvent>, seek: SeekFrom -> Result<u64, Text>)

  function FileWrite(f: OutputFile, buf: seq<u8>): (OutputFile, Result<nat, Text>)
  {
    if f.plan == [] then (f.(written := f.written + buf), Ok(|buf|))
    else match f.plan[0]
      case Accept(limit) =>
        var k := Min(limit, |buf|);
        (f.(written := f.written + buf[..k], plan := f.plan[1..]), Ok(k))
      case Refuse(m) => (f.(plan := f.plan[1..]), Err(m))
  }

  /** `ReadWrap`. */
  datatype ReadWrap = File(file: InputFile) | Buf(cursor: Cursor) | Vec(cursor: Cursor)

  datatype ReadStep = ReadStep(state: ReadWrap, result: Result<seq<u8>, Text>)

  /** `<ReadWrap as Read>::read` with an `n`-byte buffer: dispatch on the variant. */
  function ReadSpec(r: ReadWrap, n: nat): (s: ReadStep)
    ensures s.result.Ok? ==> |s.result.value| <= n
    ensures s.state.File? == r.File? && s.state.Buf? == r.Buf?
    ensures !r.File? ==> s.result.Ok? && s.state.cursor.data == r.cursor.data
  {
    match r
    case File(f) => var (f', res) := FileRead(f, n); ReadStep(ReadWrap.File(f'), res)
    case Buf(c) => var (c', b) := CursorRead(c, n); ReadStep(ReadWrap.Buf(c'), Ok(b))
    case Vec(c) => var (c', b) := CursorRead(c, n); ReadStep(Vec(c'), Ok(b))
  }

  /** `<ReadWrap as Seek>::seek`. */
  function SeekReadSpec(r: ReadWrap, from: SeekFrom): (s: (ReadWrap, Result<u64, Text>))
    ensures s.0.File? == r.File? && s.0.Buf? == r.Buf?
    ensures r.File? ==> s == (r, r.file.seek(from))
    ensures !r.File? ==> s.0.cursor.data == r.cursor.data && (s.1.Ok? ==> s.0.cursor.pos == s.1.value)
  {
    match r
    case File(f) => (r, f.seek(from))
    case Buf(c) => var (c', res) := CursorSeek(c, from); (ReadWrap.Buf(c'), res)
    case Vec(c) => var (c', res) := CursorSeek(c, from); (Vec(c'), res)
  }

  /** `WriteWrap`. */
  datatype WriteWrap = File(file: OutputFile) | Buf(cursor: Cursor) | Expanding(cursor: Cursor)

  datatype WriteStep = WriteStep(state: WriteWrap, result: Result<nat, Text>)

  /** `<WriteWrap as Write>::write`: dispatch on the variant. */
  function WriteSpec(w: WriteWrap, buf: seq<u8>): (s: WriteStep)
    ensures s.result.Ok? ==> s.result.value <= |buf|
    ensures s.state.File? == w.File? && s.state.Buf? == w.Buf?
  {
    match w
    case File(f) => var (f', res) := FileWrite(f, buf); WriteStep(WriteWrap.File(f'), res)
    case Buf(c) => var (c', k) := SliceWrite(c, buf); WriteStep(WriteWrap.Buf(c'), Ok(k))
    case Expanding(c) => var (c', k) := VecWrite(c, buf); WriteStep(Expanding(c'), Ok(k))
  }

  datatype WriteAllStep = WriteAllStep(state: WriteWrap, outcome: Outcome<Text>)

  /**
   * The default `Write::write_all`: write until nothing is left; a write that
   * takes no bytes is the `WriteZero` error, any other error is returned.
   */
  function WriteAllSpec(w: WriteWrap, buf: seq<u8>): (s: WriteAllStep)
    ensures s.state.File? == w.File? && s.state.Buf? == w.Buf?
    decreases |buf|
  {
    if buf == [] then WriteAllStep(w, Pass)
    else
      var step := WriteSpec(w, buf);
      match step.result
      case Err(e) => WriteAllStep(step.state, Fail(e))
      case Ok(k) =>
        if k == 0 then WriteAllStep(step.state, Fail(WriteZeroMessage))
        else WriteAllSpec(step.state, buf[k..])
  }

  /** `<WriteWrap as Write>::flush`. File and cursor flushes do nothing. */
  function FlushSpec(w: WriteWrap): (r: (WriteWrap, Outcome<Text>))
    ensures r.0 == w && r.1 == Pass
  {
    match w
    case File(_) => (w, Pass)
    case Buf(_) => (w, Pass)
    case Expanding(_) => (w, Pass)
  }

  /** `<WriteWrap as Seek>::seek`. */
  function SeekWriteSpec(w: WriteWrap, from: SeekFrom): (s: (WriteWrap, Result<u64, Text>))
    ensures s.0.File? == w.File? && s.0.Buf? == w.Buf?
    ensures w.File? ==> s == (w, w.file.seek(from))
    ensures !w.File? ==> s.0.cursor.data == w.cursor.data && (s.1.Ok? ==> s.0.cursor.pos == s.1.value)
  {
    match w
    case File(f) => (w, f.seek(from))
    case Buf(c) => var (c', res) := CursorSeek(c, from); (WriteWrap.Buf(c'), res)
    case Expanding(c) => var (c', res) := CursorSeek(c, from); (Expanding(c'), res)
  }

  // ---- Properties of the cursor semantics ----

  /** A cursor read returns the next `min(n, remaining)` bytes and advances by that many. */
  lemma {:induction false} CursorReadTakesAvailable(c: Cursor, n: nat)
    requires c.pos <= |c.data|
    ensures var (c', b) := CursorRead(c, n);
      |b| == Min(n, |c.data| - c.pos) && b == c.data[c.pos..c.pos + |b|] &&
      c'.data == c.data && c'.pos == c.pos + |b|
  {
  }

  /** Two consecutive reads deliver exactly what one read of the combined size would. */
  lemma {:induction false} CursorReadConcat(c: Cursor, n: nat, m: nat)
    ensures var (c1, b1) := CursorRead(c, n);
      var (c2, b2) := CursorRead(c1, m);
      var (c3, b3) := CursorRead(c, n + m);
      c2 == c3 && b1 + b2 == b3
  {
    var (c1, b1) := CursorRead(c, n);
    var p := Min(c.pos, |c.data|);
    if c.pos <= |c.data| {
      assert Unread(c1) == Unread(c)[|b1|..];
    } else {
      assert b1 == [];
    }
  }

  /** Seeking to `Start(n)` always succeeds and moves to `n`. */
  lemma {:induction false} SeekStartMoves(c: Cursor, n: u64)
    ensures CursorSeek(c, Start(n)) == (Cursor(c.data, n), Ok(n))
  {
  }

  /** A seek before the start fails and leaves the cursor where it was. */
  lemma {:induction false} SeekBeforeStartFails(c: Cursor, d: i64)
    requires c.pos + d < 0
    ensures CursorSeek(c, Current(d)) == (c, Err(SeekErrorMessage))
  {
  }

  /** A fixed-buffer write never changes the buffer's length. */
  lemma {:induction false} SliceWriteKeepsCapacity(c: Cursor, buf: seq<u8>)
    ensures |SliceWrite(c, buf).0.data| == |c.data|
  {
  }

  /**
   * `write_all` into a fixed buffer succeeds exactly when the bytes fit
   * between the position and the end; either way the buffer ends up holding
   * as much of them as fits, and the rest of it is untouched.
   */
  lemma {:induction false} WriteAllIntoSlice(c: Cursor, buf: seq<u8>)
    ensures var p := Min(c.pos, |c.data|);
      var k := Min(|buf|, |c.data| - p);
      var s := WriteAllSpec(WriteWrap.Buf(c), buf);
      (s.outcome == Pass <==> |buf| <= |c.data| - p) &&
      (s.outcome.Fail? ==> s.outcome.error == WriteZeroMessage) &&
      s.state == WriteWrap.Buf(Cursor(c.data[..p] + buf[..k] + c.data[p + k..], c.pos + k))
  {
    var p := Min(c.pos, |c.data|);
    var k := Min(|buf|, |c.data| - p);
    if buf != [] {
      var step := WriteSpec(WriteWrap.Buf(c), buf);
      assert step.result == Ok(k);
      if k > 0 {
        var c1 := step.state.cursor;
        if k < |buf| {
          // The buffer is now full, so the next write takes nothing.
          assert c.pos <= |c.data| && c1.pos == |c.data| && |c1.data| == |c.data|;
          var step2 := WriteSpec(step.state, buf[k..]);
          assert step2.result == Ok(0);
          assert c1.data[..|c1.data|] + buf[k..][..0] + c1.data[|c1.data|..] == c1.data;
        } else {
          assert buf[k..] == [];
        }
      }
    }
  }

  /** Bytes that fit, written from the start of a fixed buffer, replace its prefix. */
  lemma {:induction false} WriteAllFromStartFits(slice: seq<u8>, d: seq<u8>)
    requires |d| <= |slice|
    ensures WriteAllSpec(WriteWrap.Buf(Cursor(slice, 0)), d)
         == WriteAllStep(WriteWrap.Buf(Cursor(d + slice[|d|..], |d|)), Pass)
  {
    var w0 := WriteWrap.Buf(Cursor(slice, 0));
    var c1 := Cursor(d + slice[|d|..], |d|);
    if d == [] {
      assert c1 == Cursor(slice, 0);
    } else {
      assert WriteSpec(w0, d) == WriteStep(WriteWrap.Buf(c1), Ok(|d|)) by {
        assert slice[..0] + d[..|d|] + slice[|d|..] == d + slice[|d|..];
      }
      assert d[|d|..] == [];
      assert WriteAllSpec(w0, d) == WriteAllSpec(WriteWrap.Buf(c1), []);
    }
  }

  /** `write_all` into a growable buffer always succeeds with a single write. */
  lemma {:induction false} WriteAllIntoVec(c: Cursor, buf: seq<u8>)
    ensures var s := WriteAllSpec(Expanding(c), buf);
      s.outcome == Pass && s.state == (if buf == [] then Expanding(c) else Expanding(VecWrite(c, buf).0))
  {
    if buf != [] {
      assert buf[|buf|..] == [];
    }
  }

  /** Writing at the end of a growable buffer appends. */
  lemma {:induction false} VecWriteAtEndAppends(c: Cursor, buf: seq<u8>)
    requires c.pos == |c.data|
    ensures VecWrite(c, buf).0 == Cursor(c.data + buf, |c.data| + |buf|)
  {
    assert c.data[..c.pos] == c.data;
  }

  /** Writing inside a growable buffer overwrites in place, then extends. */
  lemma {:induction false} VecWriteOverwrites(c: Cursor, buf: seq<u8>)
    requires c.pos <= |c.data|
    ensures var c' := VecWrite(c, buf).0;
      |c'.data| == if c.pos + |buf| < |c.data| then |c.data| else c.pos + |buf|
    ensures var c' := VecWrite(c, buf).0;
      c'.data[..c.pos] == c.data[..c.pos] &&
      c'.data[c.pos..c.pos + |buf|] == buf &&
      c'.data[c.pos + |buf|..] == (if c.pos + |buf| < |c.data| then c.data[c.pos + |buf|..] else [])
  {
    var c' := VecWrite(c, buf).0;
    var tail := if c.pos + |buf| < |c.data| then c.data[c.pos + |buf|..] else [];
    assert c'.data == c.data[..c.pos] + buf + tail;
    assert c'.data[..c.pos] == c.data[..c.pos];
    assert c'.data[c.pos..c.pos + |buf|] == buf;
    assert c'.data[c.pos + |buf|..] == tail;
  }

  /** Writing past the end of a growable buffer first fills the gap with zeros. */
  lemma {:induction false} VecWritePastEndPads(c: Cursor, buf: seq<u8>)
    requires c.pos > |c.data|
    ensures VecWrite(c, buf).0.data == c.data + Zeros(c.pos - |c.data|) + buf
  {
    var padded := c.data + Zeros(c.pos - |c.data|);
    assert padded[..c.pos] == padded;
  }

  // ---- Termination measure of repeated reads ----

  function EventSize(e: ReadEvent): nat
  {
    match e
    case Chunk(b) => |b|
    case Failure(_) => 0
  }

  function ScriptSize(s: seq<ReadEvent>): nat
  {
    if s == [] then 0 else 1 + EventSize(s[0]) + ScriptSize(s[1..])
  }

  /** How much a source can still deliver: bounded by its bytes and events. */
  function ReadBudget(r: ReadWrap): nat
  {
    match r
    case File(f) => ScriptSize(f.script)
    case Buf(c) => |Unread(c)|
    case Vec(c) => |Unread(c)|
  }

  /** A read that delivers bytes, or fails, uses up part of the budget. */
  lemma {:induction false} ReadProgress(r: ReadWrap, n: nat)
    ensures var s := ReadSpec(r, n);
      ReadBudget(s.state) <= ReadBudget(r) &&
      ((s.result.Err? || |s.result.value| > 0) ==> ReadBudget(s.state) < ReadBudget(r))
  {
    match r
    case File(f) =>
      if f.script != [] && f.script[0].Chunk? && |f.script[0].bytes| > n {
        var b := f.script[0].bytes;
        var rest := [Chunk(b[n..])] + f.script[1..];
        assert rest[0] == Chunk(b[n..]) && rest[1..] == f.script[1..];
      }
    case Buf(c) =>
    case Vec(c) =>
  }

  // ---- The heap objects behind `*mut ReadWrap` and `*mut WriteWrap` ----

  /** A boxed `ReadWrap`. */
  class Reader {
    var wrap: ReadWrap

    constructor (w: ReadWrap)
      ensures wrap == w
    {
      wrap := w;
    }

    /** `read(&mut buf[..len])`: the bytes delivered land at the front of `buf`. */
    method Read(buf: array<u8>, len: nat) returns (res: Result<nat, Text>)
      requires len <= buf.Length
      modifies this, buf
      ensures wrap == ReadSpec(old(wrap), len).state
      ensures match ReadSpec(old(wrap), len).result
        case Ok(bytes) => res == Ok(|bytes|) && buf[..] == bytes + old(buf[..])[|bytes|..]
        case Err(e) => res == Err(e) && buf[..] == old(buf[..])
    {
      var step := ReadSpec(wrap, len);
      wrap := step.state;
      match step.result
      case Ok(bytes) =>
        forall i | 0 <= i < |bytes| {
          buf[i] := bytes[i];
        }
        res := Ok(|bytes|);
      case Err(e) =>
        res := Err(e);
    }

    method Seek(from: SeekFrom) returns (res: Result<u64, Text>)
      modifies this
      ensures (wrap, res) == SeekReadSpec(old(wrap), from)
    {
      var (w', r) := SeekReadSpec(wrap, from);
      wrap, res := w', r;
    }
  }

  /** A boxed `WriteWrap`. */
  class Writer {
    var wrap: WriteWrap

    constructor (w: WriteWrap)
      ensures wrap == w
    {
      wrap := w;
    }

    method Write(buf: seq<u8>) returns (res: Result<nat, Text>)
      modifies this
      ensures wrap == WriteSpec(old(wrap), buf).state && res == WriteSpec(old(wrap), buf).result
    {
      var step := WriteSpec(wrap, buf);
      wrap, res := step.state, step.result;
    }

    /** The default `write_all` loop over `write`. */
    method WriteAll(buf: seq<u8>) returns (res: Outcome<Text>)
      modifies this
      ensures wrap == WriteAllSpec(old(wrap), buf).state && res == WriteAllSpec(old(wrap), buf).outcome
    {
      var rest := buf;
      while rest != []
        invariant WriteAllSpec(wrap, rest) == WriteAllSpec(old(wrap), buf)
        decreases |rest|
      {
        var r := Write(rest);
        match r
        case Err(e) =>
          return Fail(e);
        case Ok(k) =>
          if k == 0 {
            return Fail(WriteZeroMessage);
          }
          rest := rest[k..];
      }
      return Pass;
    }

    method Flush() returns (res: Outcome<Text>)
      modifies this
      ensures (wrap, res) == FlushSpec(old(wrap))
    {
      var (w', r) := FlushSpec(wrap);
      wrap, res := w', r;
    }

    method Seek(from: SeekFrom) returns (res: Result<u64, Text>)
      modifies this
      ensures (wrap, res) == SeekWriteSpec(old(wrap), from)
    {
      var (w', r) := SeekWriteSpec(wrap, from);
      wrap, res := w', r;
    }
  }
}
