/** FileWriter: a file opened for appending at a fixed path, which can be
    reopened so that writing continues in whatever file the path names now. */
module FileWriters {
  import opened Io
  import opened FileSystem

  datatype Reopened = Reopened(f: Option<Handle>, fs: Fs, err: Option<Error>)

  /** The descriptors left open once the handle f has been given up. */
  function Released(f: Option<Handle>, open: multiset<Inode>): multiset<Inode>
  {
    if IsOpen(f) then open - multiset{f.value.ino} else open
  }

  /** FileWriter.reopen, on the writer's handle f: close any current handle
      (its error is dropped), then open `name` for appending, creating it if
      it does not exist. The open may fail, as the oracle openFault says;
      whatever the close reported (closeFault) has no bearing on the result. */
  function ReopenStep(name: Path, f: Option<Handle>, fs: Fs, openFault: Option<Error>, closeFault: Option<Error>): (r: Reopened)
    requires Valid(fs) && HandleValid(f, fs)
    ensures Valid(r.fs) && HandleValid(r.f, r.fs)
    ensures r.err == openFault
    ensures r.f.None? <==> openFault.Some?
    ensures r.f.Some? ==> IsOpen(r.f) && name in r.fs.names && r.fs.names[name] == r.f.value.ino
    ensures r.fs.open == Released(f, fs.open) + (if r.f.Some? then multiset{r.f.value.ino} else multiset{})
    ensures r.fs.free == fs.free && r.fs.data.Keys >= fs.data.Keys
    ensures forall i | i in fs.data :: r.fs.data[i] == fs.data[i]
    ensures openFault.Some? ==> r.fs.names == fs.names && r.fs.data == fs.data
    ensures r.f.Some? ==> r.fs.names == fs.names[name := r.f.value.ino]
    ensures r.f.Some? && name in fs.names ==> r.f.value.ino == fs.names[name]
    ensures r.f.Some? && name !in fs.names ==> r.f.value.ino !in fs.data && r.fs.data[r.f.value.ino] == []
  {
    var c := if f.Some? then CloseFile(f, fs, closeFault).fs else fs;
    match OpenFile(c, name, openFault)
    case OpenFailed(e) => Reopened(None, c, Some(e))
    case Opened(fs', ino) => Reopened(Some(Handle(ino, false)), fs', None)
  }

  /** After a reopen that failed the writer has no file: every write fails
      with ErrInvalid and changes nothing, and so does every further failed
      reopen, until one succeeds; whatever the closes report plays no part. */
  lemma FailedReopenBlocksWrites(name: Path, f: Option<Handle>, fs: Fs, e: Error, p: Bytes, retry: Option<Error>, closeFault: Option<Error>)
    requires Valid(fs) && HandleValid(f, fs)
    ensures var r := ReopenStep(name, f, fs, Some(e), closeFault);
      && r.f.None? && r.err == Some(e)
      && WriteFile(r.f, r.fs, p) == Written(r.fs, 0, Some(ErrInvalid))
      && CloseFile(r.f, r.fs, closeFault) == Closed(None, r.fs, Some(ErrInvalid))
      && (ReopenStep(name, r.f, r.fs, retry, closeFault).f.Some? <==> retry.None?)
  {
    var r := ReopenStep(name, f, fs, Some(e), closeFault);
    assert r.f.None?;
  }

  /** After Close the handle is spent: writes fail with ErrClosed, a second
      Close fails with ErrClosed, and a reopen does not release the descriptor
      a second time: it only adds the new one, when its open succeeds. */
  lemma ClosedWriterRejectsWrites(name: Path, f: Option<Handle>, fs: Fs, fault: Option<Error>, p: Bytes, openFault: Option<Error>)
    requires Valid(fs) && HandleValid(f, fs) && IsOpen(f)
    ensures var c := CloseFile(f, fs, fault);
      && c.err == fault
      && c.fs.open == fs.open - multiset{f.value.ino}
      && WriteFile(c.f, c.fs, p) == Written(c.fs, 0, Some(ErrClosed))
      && CloseFile(c.f, c.fs, None).err == Some(ErrClosed)
      && var r := ReopenStep(name, c.f, c.fs, openFault, fault);
         r.fs.open == c.fs.open + (if openFault.None? then multiset{r.f.value.ino} else multiset{})
  {
    var c := CloseFile(f, fs, fault);
    assert !IsOpen(c.f) && c.f.Some?;
  }

  /** Log rotation. The writer has `name` open; bytes p are written; an
      external tool renames `name` to `rotated`; the writer reopens and
      writes q. The rotated file holds exactly what it held before plus p,
      and `name` now names a new file holding exactly q. */
  lemma RotationSplitsWrites(name: Path, rotated: Path, h: Handle, fs: Fs, p: Bytes, q: Bytes, closeFault: Option<Error>)
    requires Valid(fs) && HandleValid(Some(h), fs) && !h.closed
    requires name in fs.names && fs.names[name] == h.ino && rotated != name
    requires |p| + |q| <= fs.free
    ensures
      var w1 := WriteFile(Some(h), fs, p);
      var moved := Rename(w1.fs, name, rotated);
      var r := ReopenStep(name, Some(h), moved, None, closeFault);
      var w2 := WriteFile(r.f, r.fs, q);
      && w1 == Written(w1.fs, |p|, None)
      && r.err.None? && r.f.Some? && r.f.value.ino != h.ino
      && w2 == Written(w2.fs, |q|, None)
      && rotated in w2.fs.names && w2.fs.names[rotated] == h.ino
      && w2.fs.data[h.ino] == fs.data[h.ino] + p
      && name in w2.fs.names && w2.fs.data[w2.fs.names[name]] == q
      && w2.fs.open == fs.open - multiset{h.ino} + multiset{r.f.value.ino}
  {
    var w1 := WriteFile(Some(h), fs, p);
    assert p[..|p|] == p;
    var moved := Rename(w1.fs, name, rotated);
    assert name !in moved.names;
    var r := ReopenStep(name, Some(h), moved, None, closeFault);
    assert r.f.value.ino !in moved.data;
    var w2 := WriteFile(r.f, r.fs, q);
    assert q[..|q|] == q;
    assert Sink(r.f, w2.fs) == q;
  }

  class FileWriter {
    const disk: Disk
    const name: Path
    var f: Option<Handle>

    ghost predicate Valid()
      reads this, disk
    {
      FileSystem.Valid(disk.fs) && HandleValid(f, disk.fs)
    }

    /** The zero writer `FileWriter{f: nil, Name: name}`. */
    constructor (disk: Disk, name: Path)
      requires FileSystem.Valid(disk.fs)
      ensures Valid() && this.disk == disk && this.name == name && f.None?
    {
      this.disk := disk;
      this.name := name;
      f := None;
    }

    /** Reopen (and its lock-free twin reopen): close the current handle if
        there is one, ignoring the error, then open `name` afresh. */
    method Reopen(openFault: Option<Error>, closeFault: Option<Error>) returns (err: Option<Error>)
      requires Valid()
      modifies this, disk
      ensures Valid()
      ensures Reopened(f, disk.fs, err) == ReopenStep(name, old(f), old(disk.fs), openFault, closeFault)
    {
      if f.Some? {
        var c := CloseFile(f, disk.fs, closeFault);
        disk.fs := c.fs;
        f := None;
      }
      var o := OpenFile(disk.fs, name, openFault);
      if o.OpenFailed? {
        f := None;
        return Some(o.err);
      }
      disk.fs := o.fs;
      f := Some(Handle(o.ino, false));
      return None;
    }

    /** Write: hand p to the current handle. */
    method Write(p: Bytes) returns (n: nat, err: Option<Error>)
      requires Valid()
      modifies disk
      ensures Valid()
      ensures Written(disk.fs, n, err) == WriteFile(f, old(disk.fs), p)
    {
      var w := WriteFile(f, disk.fs, p);
      disk.fs := w.fs;
      n, err := w.n, w.err;
    }

    /** Close: close the current handle and return its error. The handle
        stays in place, closed. */
    method Close(closeFault: Option<Error>) returns (err: Option<Error>)
      requires Valid()
      modifies this, disk
      ensures Valid()
      ensures Closed(f, disk.fs, err) == CloseFile(old(f), old(disk.fs), closeFault)
    {
      var c := CloseFile(f, disk.fs, closeFault);
      f, disk.fs := c.f, c.fs;
      err := c.err;
    }
  }

  /** NewFileWriter: a writer for `name` whose file is already open, or no
      writer and the error when the first open fails. */
  method NewFileWriter(disk: Disk, name: Path, openFault: Option<Error>) returns (w: FileWriter?, err: Option<Error>)
    requires FileSystem.Valid(disk.fs)
    modifies disk
    ensures err == openFault
    ensures w == null <==> err.Some?
    ensures w == null ==> disk.fs == old(disk.fs)
    ensures w != null ==>
      && fresh(w) && w.Valid() && w.disk == disk && w.name == name && IsOpen(w.f)
      && Reopened(w.f, disk.fs, None) == ReopenStep(name, None, old(disk.fs), openFault, None)
  {
    var writer := new FileWriter(disk, name);
    err := writer.Reopen(openFault, None);
    if err.Some? {
      return null, err;
    }
    return writer, None;
  }
}
