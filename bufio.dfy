/** The observable behaviour of Go's bufio.Writer when its sink is a
    FileWriter: a buffer of at most `size` bytes in front of the writer's
    handle, and an error that, once a write to the handle has failed, sticks
    until Reset. Every write to the sink is (*os.File).Write on the handle. */
module Bufio {
  import opened Io
  import opened FileSystem

  datatype BufWriter = BufWriter(buf: Bytes, err: Option<Error>, size: nat)

  ghost predicate Valid(b: BufWriter)
  {
    0 < b.size && |b.buf| <= b.size
  }

  /** A fresh writer: `bufio.NewWriterSize`, and the state Reset leaves. */
  function Empty(size: nat): (r: BufWriter)
    ensures |r.buf| == 0 && r.err.None? && r.size == size
    ensures 0 < size ==> Valid(r)
  {
    BufWriter([], None, size)
  }

  datatype Flushed = Flushed(b: BufWriter, fs: Fs, err: Option<Error>)

  /** Flush: hand the whole buffer to the sink in one write. What the sink
      took leaves the buffer; if it did not take everything, the rest stays
      buffered and the error (ErrShortWrite when the sink gave none) sticks.
      A writer with a sticky error does nothing and reports it again. */
  function Flush(b: BufWriter, f: Option<Handle>, fs: Fs): (r: Flushed)
    requires Valid(b) && HandleValid(f, fs)
    ensures Valid(r.b) && r.b.size == b.size && HandleValid(f, r.fs) && OnlyAppends(fs, r.fs, f)
    ensures Sink(f, r.fs) + r.b.buf == Sink(f, fs) + b.buf
    ensures r.err == r.b.err
    ensures r.err.None? ==> r.b.buf == []
    ensures b.err.Some? ==> r == Flushed(b, fs, b.err)
    ensures b.err.None? && IsOpen(f) && |b.buf| <= fs.free ==> r.err.None?
    ensures b.err.None? && IsOpen(f) ==> |Sink(f, r.fs)| == |Sink(f, fs)| + Min(|b.buf|, fs.free)
    ensures b.err.None? && r.err.Some? ==> r.err == Some(SinkError(f))
    ensures !IsOpen(f) ==> r.fs == fs
  {
    if b.err.Some? then Flushed(b, fs, b.err)
    else if |b.buf| == 0 then Flushed(b, fs, None)
    else
      var w := WriteFile(f, fs, b.buf);
      var err := if w.n < |b.buf| && w.err.None? then Some(ErrShortWrite) else w.err;
      if err.Some? then
        assert b.buf == b.buf[..w.n] + b.buf[w.n..];
        Flushed(b.(buf := b.buf[w.n..], err := err), w.fs, err)
      else
        assert b.buf[..w.n] == b.buf;
        Flushed(b.(buf := []), w.fs, None)
  }

  datatype BufWritten = BufWritten(b: BufWriter, fs: Fs, n: nat, err: Option<Error>)

  /** What a call of Write promises: the count is the number of bytes of p
      the writer took, and those bytes are now in the file or in the buffer,
      after what was there, in order; the error is the one that now sticks. */
  ghost predicate Wrote(b: BufWriter, f: Option<Handle>, fs: Fs, p: Bytes, r: BufWritten)
  {
    && Valid(r.b) && r.b.size == b.size && HandleValid(f, r.fs) && OnlyAppends(fs, r.fs, f)
    && r.n <= |p| && Sink(f, r.fs) + r.b.buf == Sink(f, fs) + b.buf + p[..r.n]
    && r.err == r.b.err
    && (r.err.None? ==> r.n == |p|)
    && (r.err.Some? && p != [] ==> r.n < |p|)
  }

  /** Moving n bytes from the buffer's caller into the file or the buffer
      costs the device exactly the bytes that reached the file. */
  lemma RoomAfterMove(b: BufWriter, f: Option<Handle>, fs: Fs, p: Bytes, n: nat, b1: BufWriter, fs1: Fs)
    requires n <= |p| && OnlyAppends(fs, fs1, f)
    requires Sink(f, fs1) + b1.buf == Sink(f, fs) + b.buf + p[..n]
    ensures fs1.free + |b.buf| + n == fs.free + |b1.buf|
  {
    assert |Sink(f, fs1) + b1.buf| == |Sink(f, fs) + b.buf + p[..n]|;
  }

  /** A first pass that moved p[..n] into the file or the buffer and then
      stopped on a sticky error is a write of p that took n bytes. */
  lemma WroteOnePass(b: BufWriter, f: Option<Handle>, fs: Fs, p: Bytes, n: nat, b1: BufWriter, fs1: Fs)
    requires n < |p| && b1.err.Some?
    requires Valid(b1) && b1.size == b.size && HandleValid(f, fs1) && OnlyAppends(fs, fs1, f)
    requires Sink(f, fs1) + b1.buf == Sink(f, fs) + b.buf + p[..n]
    ensures Wrote(b, f, fs, p, BufWritten(b1, fs1, n, b1.err))
  {
  }

  /** A first pass that moved p[..n] into the file or the buffer, followed
      by a write of the rest of p, is a write of p. */
  lemma WroteInTwoSteps(b: BufWriter, f: Option<Handle>, fs: Fs, p: Bytes, n: nat, b1: BufWriter, fs1: Fs, rest: BufWritten)
    requires HandleValid(f, fs) && n < |p|
    requires b1.size == b.size && OnlyAppends(fs, fs1, f)
    requires Sink(f, fs1) + b1.buf == Sink(f, fs) + b.buf + p[..n]
    requires Wrote(b1, f, fs1, p[n..], rest)
    ensures Wrote(b, f, fs, p, BufWritten(rest.b, rest.fs, n + rest.n, rest.err))
  {
    var q := p[n..][..rest.n];
    assert p[..n + rest.n] == p[..n] + q;
    calc {
      Sink(f, rest.fs) + rest.b.buf;
      Sink(f, fs1) + b1.buf + q;
      Sink(f, fs) + b.buf + p[..n] + q;
      Sink(f, fs) + b.buf + p[..n + rest.n];
    }
    OnlyAppendsTransitive(fs, fs1, rest.fs, f);
  }

  /** Write, following the library's loop: while p does not fit in the room
      left and no error sticks, either write p straight to the sink (when the
      buffer is empty) or top the buffer up from p and flush it; then copy
      what is left of p into the buffer. */
  function Write(b: BufWriter, f: Option<Handle>, fs: Fs, p: Bytes): (r: BufWritten)
    requires Valid(b) && HandleValid(f, fs)
    ensures Wrote(b, f, fs, p, r)
    ensures b.err.Some? ==> r == BufWritten(b, fs, 0, b.err)
    ensures b.err.None? && |p| <= b.size - |b.buf| ==> r == BufWritten(b.(buf := b.buf + p), fs, |p|, None)
    ensures b.err.None? && IsOpen(f) && |b.buf| + |p| <= fs.free ==> r.err.None?
    ensures b.err.None? && r.err.Some? ==> r.err == Some(SinkError(f))
    ensures b.err.None? && r.err.None? && |p| > b.size - |b.buf| ==>
      if |b.buf| == b.size && |p| <= b.size then r.b.buf == p else |r.b.buf| < |p|
    decreases |p|, |b.buf|, 1
  {
    if |p| > b.size - |b.buf| && b.err.None? then
      if |b.buf| == 0 then WriteThrough(b, f, fs, p) else WriteTopUp(b, f, fs, p)
    else if b.err.Some? then
      BufWritten(b, fs, 0, b.err)
    else
      assert p[..|p|] == p;
      BufWritten(b.(buf := b.buf + p), fs, |p|, None)
  }

  /** A pass of the loop with an empty buffer: p goes straight to the sink. */
  function WriteThrough(b: BufWriter, f: Option<Handle>, fs: Fs, p: Bytes): (r: BufWritten)
    requires Valid(b) && HandleValid(f, fs) && b.err.None? && b.buf == [] && |p| > b.size
    ensures Wrote(b, f, fs, p, r)
    ensures IsOpen(f) && |p| <= fs.free ==> r.err.None?
    ensures r.err.Some? ==> r.err == Some(SinkError(f))
    ensures r.err.None? ==> r.b.buf == []
    decreases |p|, |b.buf|, 0
  {
    var w := WriteFile(f, fs, p);
    if w.err.Some? then
      BufWritten(b.(err := w.err), w.fs, w.n, w.err)
    else
      var rest := Write(b, f, w.fs, p[w.n..]);
      assert p[..w.n + rest.n] == p[..w.n] + p[w.n..][..rest.n];
      OnlyAppendsTransitive(fs, w.fs, rest.fs, f);
      BufWritten(rest.b, rest.fs, w.n + rest.n, rest.err)
  }

  /** A pass of the loop with bytes already buffered: fill the buffer from
      p, flush it, and go on with the rest of p. */
  function WriteTopUp(b: BufWriter, f: Option<Handle>, fs: Fs, p: Bytes): (r: BufWritten)
    requires Valid(b) && HandleValid(f, fs) && b.err.None? && b.buf != [] && |p| > b.size - |b.buf|
    ensures Wrote(b, f, fs, p, r)
    ensures IsOpen(f) && |b.buf| + |p| <= fs.free ==> r.err.None?
    ensures r.err.Some? ==> r.err == Some(SinkError(f))
    ensures r.err.None? ==> if |b.buf| == b.size && |p| <= b.size then r.b.buf == p else |r.b.buf| < |p|
    decreases |p|, |b.buf|, 0
  {
    var n := b.size - |b.buf|;
    var fl := Flush(b.(buf := b.buf + p[..n]), f, fs);
    assert Sink(f, fl.fs) + fl.b.buf == Sink(f, fs) + b.buf + p[..n];
    if fl.err.Some? then
      WroteOnePass(b, f, fs, p, n, fl.b, fl.fs);
      BufWritten(fl.b, fl.fs, n, fl.err)
    else
      var rest := Write(fl.b, f, fl.fs, p[n..]);
      WroteInTwoSteps(b, f, fs, p, n, fl.b, fl.fs, rest);
      RoomAfterMove(b, f, fs, p, n, fl.b, fl.fs);
      assert p[n..] == p || n > 0;
      assert rest.err.None? ==> if n == 0 && |p| <= b.size then rest.b.buf == p else |rest.b.buf| < |p|;
      BufWritten(rest.b, rest.fs, n + rest.n, rest.err)
  }

  /** Reset: drop whatever is buffered and the sticky error. */
  function Reset(b: BufWriter): (r: BufWriter)
    ensures r.buf == [] && r.err.None? && r.size == b.size
  {
    Empty(b.size)
  }
}
