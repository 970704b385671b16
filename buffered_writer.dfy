/** BufferedFileWriter: a FileWriter behind a bufio.Writer, where a reopen
    first flushes what is buffered into the old file, then reopens the inner
    writer, then resets the buffer onto it. */
module BufferedWriters {
  import opened Io
  import opened FileSystem
  import FileWriters
  import Bufio

  /** The capacity of the buffer in front of every buffered writer. */
  const BufferSize: nat := 256 * 1024

  /** BufferedFileWriter.Write on buffer b in front of handle f: a buffered
      write, then one more flush when fewer bytes stay buffered than p has,
      so that a payload that forced a flush part way is not left half out.
      The returned count and error are those of the buffered write; the
      error of the extra flush is kept only as the buffer's sticky error. */
  function WriteStep(b: Bufio.BufWriter, f: Option<Handle>, fs: Fs, p: Bytes): (r: Bufio.BufWritten)
    requires Bufio.Valid(b) && HandleValid(f, fs)
    ensures Bufio.Valid(r.b) && r.b.size == b.size && HandleValid(f, r.fs) && OnlyAppends(fs, r.fs, f)
    ensures r.n <= |p| && Sink(f, r.fs) + r.b.buf == Sink(f, fs) + b.buf + p[..r.n]
    ensures r.err.None? ==> r.n == |p|
    ensures r.b.err.None? ==> r.err.None? && (|r.b.buf| >= |p| || r.b.buf == [])
    ensures r.b.err.None? && |p| > b.size ==> r.b.buf == [] && Sink(f, r.fs) == Sink(f, fs) + b.buf + p
    ensures b.err.None? && IsOpen(f) && |b.buf| + |p| <= fs.free ==> r.b.err.None?
    ensures b.err.None? && |p| <= b.size - |b.buf| ==> r == Bufio.BufWritten(b.(buf := b.buf + p), fs, |p|, None)
    ensures b.err.Some? ==> r == Bufio.BufWritten(b, fs, 0, b.err)
    ensures r.err.Some? && p != [] ==> r.n < |p|
    ensures b.err.None? && r.err.Some? ==> r.err == Some(SinkError(f))
    ensures b.err.None? && r.b.err.None? && |b.buf| == b.size && 0 < |p| <= b.size ==> r.b.buf == p
    ensures b.err.None? && r.b.err.None? && |b.buf| < b.size && |p| > b.size - |b.buf| ==> r.b.buf == []
  {
    var w := Bufio.Write(b, f, fs, p);
    if |w.b.buf| < |p| then
      var fl := Bufio.Flush(w.b, f, w.fs);
      OnlyAppendsTransitive(fs, w.fs, fl.fs, f);
      assert p[..|p|] == p;
      Bufio.BufWritten(fl.b, fl.fs, w.n, w.err)
    else
      w
  }

  datatype BufReopened = BufReopened(b: Bufio.BufWriter, f: Option<Handle>, fs: Fs, err: Option<Error>)

  /** BufferedFileWriter.Reopen: flush (its error is dropped), reopen the
      inner writer on `name`, reset the buffer. The flush goes to the old
      handle, so whatever the buffer held that the old file could take is in
      the old file, even when `name` now names a different one; what it
      could not take is discarded by the reset. */
  function ReopenStep(name: Path, b: Bufio.BufWriter, f: Option<Handle>, fs: Fs, openFault: Option<Error>, closeFault: Option<Error>): (r: BufReopened)
    requires Bufio.Valid(b) && Valid(fs) && HandleValid(f, fs)
    ensures r.b == Bufio.Empty(b.size)
    ensures r.err == openFault
    ensures Valid(r.fs) && HandleValid(r.f, r.fs)
    ensures r.f.None? <==> openFault.Some?
    ensures r.f.Some? ==> IsOpen(r.f) && name in r.fs.names && r.fs.names[name] == r.f.value.ino
    ensures Sink(f, fs) <= Sink(f, r.fs) <= Sink(f, fs) + b.buf
    ensures b.err.None? && IsOpen(f) && |b.buf| <= fs.free ==> Sink(f, r.fs) == Sink(f, fs) + b.buf
    ensures b.err.None? && IsOpen(f) ==> |Sink(f, r.fs)| == |Sink(f, fs)| + Min(|b.buf|, fs.free)
    ensures b.err.Some? || !IsOpen(f) ==> Sink(f, r.fs) == Sink(f, fs)
    ensures r.fs.open == FileWriters.Released(f, fs.open) + (if r.f.Some? then multiset{r.f.value.ino} else multiset{})
    ensures openFault.Some? ==> r.fs.names == fs.names
    ensures r.f.Some? ==> r.fs.names == fs.names[name := r.f.value.ino]
    ensures r.f.Some? && name in fs.names ==> r.f.value.ino == fs.names[name]
    ensures r.f.Some? && name !in fs.names ==> r.f.value.ino !in fs.data && Sink(r.f, r.fs) == []
    ensures r.fs.data.Keys >= fs.data.Keys
    ensures forall i | i in fs.data && (f.None? || i != f.value.ino) :: r.fs.data[i] == fs.data[i]
    ensures r.fs.free + |Sink(f, r.fs)| == fs.free + |Sink(f, fs)|
  {
    var fl := Bufio.Flush(b, f, fs);
    OnlyAppendsKeepsValid(fs, fl.fs, f);
    var ro := FileWriters.ReopenStep(name, f, fl.fs, openFault, closeFault);
    assert f.Some? ==> f.value.ino in fl.fs.data && ro.fs.data[f.value.ino] == fl.fs.data[f.value.ino];
    assert Sink(f, ro.fs) == Sink(f, fl.fs);
    BufReopened(Bufio.Reset(fl.b), ro.f, ro.fs, ro.err)
  }

  datatype BufClosed = BufClosed(b: Bufio.BufWriter, f: Option<Handle>, fs: Fs, err: Option<Error>)

  /** BufferedFileWriter.Close: flush, close the inner writer's handle, and
      report success whatever the flush and the close said. */
  function CloseStep(b: Bufio.BufWriter, f: Option<Handle>, fs: Fs, closeFault: Option<Error>): (r: BufClosed)
    requires Bufio.Valid(b) && Valid(fs) && HandleValid(f, fs)
    ensures r.err.None?
    ensures Bufio.Valid(r.b) && r.b.size == b.size && Valid(r.fs) && HandleValid(r.f, r.fs)
    ensures !IsOpen(r.f) && (r.f.Some? <==> f.Some?) && (f.Some? ==> r.f.value.ino == f.value.ino)
    ensures Sink(f, r.fs) + r.b.buf == Sink(f, fs) + b.buf
    ensures b.err.None? && IsOpen(f) && |b.buf| <= fs.free ==> r.b.buf == [] && Sink(f, r.fs) == Sink(f, fs) + b.buf
    ensures b.err.None? && IsOpen(f) ==> |Sink(f, r.fs)| == |Sink(f, fs)| + Min(|b.buf|, fs.free)
    ensures b.err.Some? ==> r.b == b && Sink(f, r.fs) == Sink(f, fs)
    ensures IsOpen(f) ==> r.fs.open == fs.open - multiset{f.value.ino}
    ensures !IsOpen(f) ==> r.fs == fs
    ensures r.fs.names == fs.names && r.fs.data.Keys == fs.data.Keys && r.fs.nextInode == fs.nextInode
    ensures forall i | i in fs.data && (f.None? || i != f.value.ino) :: r.fs.data[i] == fs.data[i]
    ensures r.fs.free + |Sink(f, r.fs)| == fs.free + |Sink(f, fs)|
  {
    var fl := Bufio.Flush(b, f, fs);
    OnlyAppendsKeepsValid(fs, fl.fs, f);
    var c := CloseFile(f, fl.fs, closeFault);
    BufClosed(fl.b, c.f, c.fs, None)
  }

  /** The file a writer has open under `name` is renamed away, and the
      writer reopens: the buffer goes to the renamed file, and `name` now
      names a new, empty file that the writer has open. */
  lemma ReopenAfterRename(name: Path, rotated: Path, b: Bufio.BufWriter, h: Handle, fs: Fs, closeFault: Option<Error>)
    requires Bufio.Valid(b) && b.err.None?
    requires Valid(fs) && HandleValid(Some(h), fs) && !h.closed
    requires name in fs.names && fs.names[name] == h.ino && rotated != name
    requires |b.buf| <= fs.free
    ensures
      var ro := ReopenStep(name, b, Some(h), Rename(fs, name, rotated), None, closeFault);
      && ro.err.None? && IsOpen(ro.f) && ro.f.value.ino != h.ino
      && ro.b == Bufio.Empty(b.size) && Valid(ro.fs) && HandleValid(ro.f, ro.fs)
      && ro.fs.names == fs.names[rotated := h.ino][name := ro.f.value.ino]
      && ro.fs.data[h.ino] == fs.data[h.ino] + b.buf
      && Sink(ro.f, ro.fs) == []
      && ro.fs.free == fs.free - |b.buf|
  {
    var moved := Rename(fs, name, rotated);
    assert Sink(Some(h), moved) == Sink(Some(h), fs);
    assert name !in moved.names;
    var ro := ReopenStep(name, b, Some(h), moved, None, closeFault);
    var ino := ro.f.value.ino;
    assert ino !in moved.data && h.ino in moved.data;
    RenameThenCreate(fs, name, rotated, ino);
    assert Sink(Some(h), ro.fs) == fs.data[h.ino] + b.buf;
  }

  /** After a failed inner reopen the writer holds an empty buffer and no
      file. A payload that fits is then accepted in full and only buffered,
      and the next Reopen resets the buffer: those bytes reach no file, and
      every existing file keeps its bytes, whatever the reopen and its close
      report. */
  lemma FailedReopenDropsBufferedWrites(name: Path, b: Bufio.BufWriter, fs: Fs, p: Bytes,
                                        openFault: Option<Error>, closeFault: Option<Error>)
    requires Bufio.Valid(b) && b == Bufio.Empty(b.size) && Valid(fs)
    requires 0 < |p| <= b.size
    ensures
      var w := WriteStep(b, None, fs, p);
      var ro := ReopenStep(name, w.b, None, w.fs, openFault, closeFault);
      && w.n == |p| && w.err.None? && w.b.buf == p && w.fs == fs
      && ro.b == Bufio.Empty(b.size) && ro.err == openFault
      && ro.fs.data.Keys >= fs.data.Keys
      && (forall i | i in fs.data :: ro.fs.data[i] == fs.data[i])
      && (ro.f.Some? ==> Sink(ro.f, ro.fs) == if name in fs.names then fs.data[fs.names[name]] else [])
  {
    var w := WriteStep(b, None, fs, p);
    assert w.b.buf == p;
  }

  /** First half of a rotation: write p, the file is renamed away, reopen.
      Everything written so far lands in the old file before the swap. */
  lemma WriteRenameReopen(name: Path, rotated: Path, b: Bufio.BufWriter, h: Handle, fs: Fs, p: Bytes, closeFault: Option<Error>)
    requires Bufio.Valid(b) && b.err.None?
    requires Valid(fs) && HandleValid(Some(h), fs) && !h.closed
    requires name in fs.names && fs.names[name] == h.ino && rotated != name
    requires |b.buf| + |p| <= fs.free
    ensures
      var w1 := WriteStep(b, Some(h), fs, p);
      var ro := ReopenStep(name, w1.b, Some(h), Rename(w1.fs, name, rotated), None, closeFault);
      && w1.n == |p| && w1.err.None?
      && ro.err.None? && IsOpen(ro.f) && ro.f.value.ino != h.ino
      && ro.b == Bufio.Empty(b.size) && Valid(ro.fs) && HandleValid(ro.f, ro.fs)
      && ro.fs.names == fs.names[rotated := h.ino][name := ro.f.value.ino]
      && ro.fs.data[h.ino] == fs.data[h.ino] + b.buf + p
      && Sink(ro.f, ro.fs) == []
      && ro.fs.free == fs.free - |b.buf| - |p|
  {
    var w1 := WriteStep(b, Some(h), fs, p);
    OnlyAppendsKeepsValid(fs, w1.fs, Some(h));
    assert w1.fs.data[h.ino] + w1.b.buf == fs.data[h.ino] + b.buf + p;
    ReopenAfterRename(name, rotated, w1.b, h, w1.fs, closeFault);
  }

  /** Second half of a rotation: on a fresh, empty file with room, write q
      and close. The file then holds exactly q and no other file changed. */
  lemma WriteAndCloseFreshFile(b: Bufio.BufWriter, f: Option<Handle>, fs: Fs, q: Bytes, closeFault: Option<Error>)
    requires b == Bufio.Empty(b.size) && Bufio.Valid(b)
    requires Valid(fs) && HandleValid(f, fs) && IsOpen(f) && Sink(f, fs) == []
    requires |q| <= fs.free
    ensures
      var w2 := WriteStep(b, f, fs, q);
      var c := CloseStep(w2.b, f, w2.fs, closeFault);
      && w2.n == |q| && w2.err.None?
      && c.err.None? && c.b.buf == []
      && c.fs.names == fs.names
      && Sink(f, c.fs) == q
      && (forall i | i in fs.data && i != f.value.ino :: i in c.fs.data && c.fs.data[i] == fs.data[i])
  {
    var w2 := WriteStep(b, f, fs, q);
    OnlyAppendsKeepsValid(fs, w2.fs, f);
    var c := CloseStep(w2.b, f, w2.fs, closeFault);
    assert |w2.b.buf| <= w2.fs.free;
  }

  /** Log rotation through a buffered writer with room on the device. The
      writer has `name` open with buffer b; it writes p; an external tool
      renames `name` to `rotated`; the writer reopens, writes q and closes.
      Every call succeeds, whatever closing the rotated file reported
      (rotateFault); the rotated file ends with exactly the bytes that were
      buffered and p, and `name` names a new file holding exactly q. */
  lemma RotationSplitsBufferedWrites(name: Path, rotated: Path, b: Bufio.BufWriter, h: Handle, fs: Fs, p: Bytes, q: Bytes,
                                      rotateFault: Option<Error>, closeFault: Option<Error>)
    requires Bufio.Valid(b) && b.err.None?
    requires Valid(fs) && HandleValid(Some(h), fs) && !h.closed
    requires name in fs.names && fs.names[name] == h.ino && rotated != name
    requires |b.buf| + |p| + |q| <= fs.free
    ensures
      var w1 := WriteStep(b, Some(h), fs, p);
      var ro := ReopenStep(name, w1.b, Some(h), Rename(w1.fs, name, rotated), None, rotateFault);
      var w2 := WriteStep(ro.b, ro.f, ro.fs, q);
      var c := CloseStep(w2.b, ro.f, w2.fs, closeFault);
      && w1.n == |p| && w1.err.None?
      && ro.err.None? && ro.f.Some? && ro.f.value.ino != h.ino
      && w2.n == |q| && w2.err.None?
      && c.err.None? && c.b.buf == []
      && rotated in c.fs.names && c.fs.names[rotated] == h.ino
      && c.fs.data[h.ino] == fs.data[h.ino] + b.buf + p
      && name in c.fs.names && c.fs.data[c.fs.names[name]] == q
  {
    WriteRenameReopen(name, rotated, b, h, fs, p, rotateFault);
    var w1 := WriteStep(b, Some(h), fs, p);
    var ro := ReopenStep(name, w1.b, Some(h), Rename(w1.fs, name, rotated), None, rotateFault);
    WriteAndCloseFreshFile(ro.b, ro.f, ro.fs, q, closeFault);
  }

  class BufferedFileWriter {
    const inner: FileWriters.FileWriter   // OrigWriter
    var bufw: Bufio.BufWriter             // BufWriter, whose sink is inner

    ghost predicate Valid()
      reads this, inner, inner.disk
    {
      inner.Valid() && Bufio.Valid(bufw)
    }

    /** NewBufferedFileWriter: an empty buffer of BufferSize bytes in front
        of w. */
    constructor (w: FileWriters.FileWriter)
      requires w.Valid()
      ensures Valid() && inner == w && bufw == Bufio.Empty(BufferSize)
    {
      inner := w;
      bufw := Bufio.Empty(BufferSize);
    }

    method Write(p: Bytes) returns (n: nat, err: Option<Error>)
      requires Valid()
      modifies this, inner.disk
      ensures Valid()
      ensures Bufio.BufWritten(bufw, inner.disk.fs, n, err) == WriteStep(old(bufw), inner.f, old(inner.disk.fs), p)
    {
      var w := Bufio.Write(bufw, inner.f, inner.disk.fs, p);
      bufw, inner.disk.fs := w.b, w.fs;
      if |bufw.buf| < |p| {
        var fl := Bufio.Flush(bufw, inner.f, inner.disk.fs);
        bufw, inner.disk.fs := fl.b, fl.fs;
      }
      n, err := w.n, w.err;
    }

    method Reopen(openFault: Option<Error>, closeFault: Option<Error>) returns (err: Option<Error>)
      requires Valid()
      modifies this, inner, inner.disk
      ensures Valid()
      ensures BufReopened(bufw, inner.f, inner.disk.fs, err)
           == ReopenStep(inner.name, old(bufw), old(inner.f), old(inner.disk.fs), openFault, closeFault)
    {
      var fl := Bufio.Flush(bufw, inner.f, inner.disk.fs);
      bufw, inner.disk.fs := fl.b, fl.fs;
      err := inner.Reopen(openFault, closeFault);
      bufw := Bufio.Reset(bufw);
    }

    method Close(closeFault: Option<Error>) returns (err: Option<Error>)
      requires Valid()
      modifies this, inner, inner.disk
      ensures Valid()
      ensures BufClosed(bufw, inner.f, inner.disk.fs, err)
           == CloseStep(old(bufw), old(inner.f), old(inner.disk.fs), closeFault)
    {
      var fl := Bufio.Flush(bufw, inner.f, inner.disk.fs);
      bufw, inner.disk.fs := fl.b, fl.fs;
      var c := CloseFile(inner.f, inner.disk.fs, closeFault);
      inner.f, inner.disk.fs := c.f, c.fs;
      err := None;
    }
  }
}
