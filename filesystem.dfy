/** The part of the operating system the writers rely on: which path names
    which file, the bytes of each file, the open file descriptions, and the
    free space left on the device. Files are identified by inode, so a file
    that is renamed away or unlinked keeps its bytes and can still be written
    through a descriptor that was open on it. */
module FileSystem {
  import opened Io

  type Path = string
  type Inode = nat

  datatype Fs = Fs(
    names: map<Path, Inode>,      // directory entries
    data: map<Inode, Bytes>,      // contents of every file ever created
    open: multiset<Inode>,        // one occurrence per open file description
    nextInode: Inode,             // the inode the next created file gets
    free: nat)                    // bytes the device can still take

  ghost predicate Valid(fs: Fs)
  {
    && (forall p | p in fs.names :: fs.names[p] in fs.data)
    && (forall i | i in fs.open :: i in fs.data)
    && (forall i | i in fs.data :: i < fs.nextInode)
  }

  /** A *os.File as held by a writer: the file it was opened on, and whether
      Close has been called on it. A nil *os.File is `None`. */
  datatype Handle = Handle(ino: Inode, closed: bool)

  ghost predicate HandleValid(f: Option<Handle>, fs: Fs)
  {
    f.Some? ==> f.value.ino in fs.data && (!f.value.closed ==> f.value.ino in fs.open)
  }

  predicate IsOpen(f: Option<Handle>)
  {
    f.Some? && !f.value.closed
  }

  /** The bytes of the file a handle designates (empty for a nil handle). */
  function Sink(f: Option<Handle>, fs: Fs): Bytes
  {
    if f.Some? && f.value.ino in fs.data then fs.data[f.value.ino] else []
  }

  /** fs' differs from fs only by bytes appended to the file of f, paid for
      out of the free space; every other file, name and descriptor is as it was. */
  ghost predicate OnlyAppends(fs: Fs, fs': Fs, f: Option<Handle>)
  {
    && fs'.names == fs.names
    && fs'.open == fs.open
    && fs'.nextInode == fs.nextInode
    && fs'.data.Keys == fs.data.Keys
    && (forall i | i in fs.data && (f.None? || i != f.value.ino) :: fs'.data[i] == fs.data[i])
    && Sink(f, fs) <= Sink(f, fs')
    && fs'.free + |Sink(f, fs')| == fs.free + |Sink(f, fs)|
  }

  lemma OnlyAppendsTransitive(fs0: Fs, fs1: Fs, fs2: Fs, f: Option<Handle>)
    requires OnlyAppends(fs0, fs1, f) && OnlyAppends(fs1, fs2, f)
    ensures OnlyAppends(fs0, fs2, f)
  {
  }

  lemma OnlyAppendsKeepsValid(fs: Fs, fs': Fs, f: Option<Handle>)
    requires Valid(fs) && OnlyAppends(fs, fs', f)
    ensures Valid(fs')
  {
  }

  datatype OpenResult = Opened(fs: Fs, ino: Inode) | OpenFailed(err: Error)

  /** os.OpenFile(path, O_WRONLY|O_APPEND|O_CREATE, 0666). The failures the
      operating system may report (permissions, a missing directory, ...)
      come from the oracle `fault`. An existing file is opened as it is (no
      truncation); a missing one is created empty under a new inode. */
  function OpenFile(fs: Fs, path: Path, fault: Option<Error>): (r: OpenResult)
    requires Valid(fs)
    ensures r.OpenFailed? <==> fault.Some?
    ensures r.OpenFailed? ==> r.err == fault.value
    ensures r.Opened? ==>
      && Valid(r.fs)
      && r.fs.names == fs.names[path := r.ino]
      && r.fs.open == fs.open + multiset{r.ino}
      && r.fs.free == fs.free
      && (path in fs.names ==> r.ino == fs.names[path] && r.fs.data == fs.data)
      && (path !in fs.names ==> r.ino !in fs.data && r.fs.data == fs.data[r.ino := []])
  {
    match fault
    case Some(e) => OpenFailed(e)
    case None =>
      if path in fs.names then
        var ino := fs.names[path];
        Opened(fs.(open := fs.open + multiset{ino}), ino)
      else
        var ino := fs.nextInode;
        Opened(Fs(fs.names[path := ino], fs.data[ino := []], fs.open + multiset{ino}, ino + 1, fs.free), ino)
  }

  datatype Written = Written(fs: Fs, n: nat, err: Option<Error>)

  /** The error (*os.File).Write reports on f when it does not take all of
      p: ErrInvalid for a nil file, ErrClosed for a closed one, and ENOSPC for
      an open one whose device is full. */
  function SinkError(f: Option<Handle>): Error
  {
    if f.None? then ErrInvalid else if f.value.closed then ErrClosed else ErrNoSpace
  }

  /** (*os.File).Write. A nil file fails with ErrInvalid and a closed one
      with ErrClosed, before any byte is moved. An open file takes as much of
      p as the device has room for, at its end (O_APPEND), and reports
      ENOSPC when that is not all of p. */
  function WriteFile(f: Option<Handle>, fs: Fs, p: Bytes): (r: Written)
    requires HandleValid(f, fs)
    ensures r.n <= |p| && HandleValid(f, r.fs) && OnlyAppends(fs, r.fs, f)
    ensures Sink(f, r.fs) == Sink(f, fs) + p[..r.n]
    ensures r.err.None? ==> r.n == |p|
    ensures r.n < |p| ==> r.err.Some?
    ensures r.err.Some? ==> r.err == Some(SinkError(f))
    ensures f.None? ==> r == Written(fs, 0, Some(ErrInvalid))
    ensures f.Some? && f.value.closed ==> r == Written(fs, 0, Some(ErrClosed))
    ensures IsOpen(f) ==> r.n == Min(|p|, fs.free) && (r.err.Some? ==> r.err == Some(ErrNoSpace))
  {
    match f
    case None => Written(fs, 0, Some(ErrInvalid))
    case Some(h) =>
      if h.closed then Written(fs, 0, Some(ErrClosed))
      else
        var n := Min(|p|, fs.free);
        var fs' := fs.(data := fs.data[h.ino := fs.data[h.ino] + p[..n]], free := fs.free - n);
        Written(fs', n, if n == |p| then None else Some(ErrNoSpace))
  }

  datatype Closed = Closed(f: Option<Handle>, fs: Fs, err: Option<Error>)

  /** (*os.File).Close. A nil file reports ErrInvalid and a closed one
      ErrClosed, and nothing changes. An open file releases its descriptor
      and is marked closed even when the operating system reports `fault`,
      which is then returned. */
  function CloseFile(f: Option<Handle>, fs: Fs, fault: Option<Error>): (r: Closed)
    requires HandleValid(f, fs)
    ensures HandleValid(r.f, r.fs) && (Valid(fs) ==> Valid(r.fs))
    ensures r.fs == fs.(open := r.fs.open) && r.fs.open <= fs.open
    ensures !IsOpen(r.f) && (f.Some? <==> r.f.Some?)
    ensures f.None? ==> r == Closed(None, fs, Some(ErrInvalid))
    ensures f.Some? && f.value.closed ==> r == Closed(f, fs, Some(ErrClosed))
    ensures IsOpen(f) ==>
      && r.f == Some(f.value.(closed := true))
      && r.fs.open == fs.open - multiset{f.value.ino}
      && r.err == fault
  {
    match f
    case None => Closed(None, fs, Some(ErrInvalid))
    case Some(h) =>
      if h.closed then Closed(f, fs, Some(ErrClosed))
      else Closed(Some(h.(closed := true)), fs.(open := fs.open - multiset{h.ino}), fault)
  }

  /** rename(2), as done by an external rotation tool: `from` now names
      nothing and `to` names the file `from` named. */
  function Rename(fs: Fs, from: Path, to: Path): (r: Fs)
    requires Valid(fs) && from in fs.names
    ensures Valid(r)
  {
    fs.(names := (fs.names - {from})[to := fs.names[from]])
  }

  /** Once `from` names a new file x after the rename, the directory is the
      old one with `to` naming the renamed file and `from` naming x. */
  lemma RenameThenCreate(fs: Fs, from: Path, to: Path, x: Inode)
    requires Valid(fs) && from in fs.names
    ensures Rename(fs, from, to).names[from := x] == fs.names[to := fs.names[from]][from := x]
  {
  }

  /** The operating system, shared by every FileWriter that uses it. */
  class Disk {
    var fs: Fs

    constructor (fs: Fs)
      ensures this.fs == fs
    {
      this.fs := fs;
    }
  }
}
