# goreopen, modelled in Dafny

goreopen provides output streams for long-running processes that write log
files rotated by an outside tool. A stream can be *reopened*: it closes its
file and opens whatever file its path names now. This model covers the one
source file, `ioreopen.go`, without its mutexes:

- `FileWriter`. It holds a fixed path and an optional `*os.File`. `Write` and
  `Close` go to the file. `reopen`/`Reopen` close the file, ignoring the
  close error, and then open the path in append/create mode.
- `BufferedFileWriter`. It is a `bufio.Writer` of 256 KiB in front of a
  `FileWriter`. `Write` adds one extra flush. `Reopen` flushes, reopens the
  inner writer, then resets the buffer. `Close` flushes and closes the file.
- `multiReopenWriter` (`MultiWriter`). It is a fixed list of reopenable
  writers. It writes to them, or reopens them, in list order and stops at
  the first failure.
- `nopReopenWriter` (`NopWriter`). It makes a plain writer reopenable with a
  `Reopen` that does nothing.

The operating system is a value `FileSystem.Fs`. It maps path names to
inodes and inodes to their bytes. It also keeps a multiset of open file
descriptions and the free space on the device. A class `Disk` holds the one
`Fs` that all writers share. Because files are named by inode, a file that is
renamed away keeps its bytes. A handle that was opened on it still writes
into it. This is what makes rotation visible in the model.

Every step of the system is a function of the old state, as follows:
- `os.OpenFile`, `(*os.File).Write` and `(*os.File).Close` are modelled as
  `OpenFile`, `WriteFile` and `CloseFile`.
- `bufio.Writer` is modelled as `Bufio.Flush`, `Bufio.Write` and
  `Bufio.Reset`.
- `FileWriter.reopen` and the three `BufferedFileWriter` operations are
  modelled as `ReopenStep`, `WriteStep` and `CloseStep`.

The classes `FileWriter` and `BufferedFileWriter` update their fields and the
disk the way the Go code does. Each of their methods is proved to take the
state to what its step function gives. `MultiReopenWriter` loops over its
members as the Go code does, and is proved to make exactly the calls its
specification functions give, in list order. The lemmas reason about
sequences of calls through those functions.

Some failures come from outside and are parameters of the model (oracles):
- `openFault`: whether an open fails, and with which error;
- `closeFault`: whether a close fails.
A write fails when the device runs out of space. It then takes what fits and
reports ENOSPC. Members of a fan-out are abstract objects. Every call made
to one is appended to a ghost log, so the order of the calls is part of the
contracts. Their answers are given as a sequence, one per member.

## Model

| member | source | states |
|---|---|---|
| FileSystem.OpenFile | ioreopen.go:50 | Opening with O_WRONLY, O_APPEND and O_CREATE fails exactly when the oracle says so, and then changes nothing. On success the path names the opened file and one more descriptor is open. An existing file keeps its bytes, because the open does not truncate. A missing file is created empty under a new inode. |
| FileSystem.WriteFile | ioreopen.go:71 | A nil file fails with ErrInvalid and a closed file fails with ErrClosed; neither moves a byte. An open file appends the first n bytes of p, where n is the smaller of len(p) and the free space. No other file changes. The call has no error only when n == len(p), and its error is the one for the handle: ErrInvalid, ErrClosed or ENOSPC. |
| FileSystem.CloseFile | ioreopen.go:39 | A nil file gives ErrInvalid and a second close gives ErrClosed; neither changes anything. Closing an open file releases its descriptor and marks it closed, even when the operating system reports an error. That error is returned. |
| FileWriters.ReopenStep | ioreopen.go:45-58 | The result is exactly the open error, and the close error never matters. The handle is absent exactly when the open failed, and then no name and no file changes. When present, the handle is open on the file the path now names: the file it already named, or a new empty one. No other directory entry changes. The old descriptor is released and, on success, one new one is open. The bytes of files that already existed are unchanged. |
| FileWriters.FailedReopenBlocksWrites | ioreopen.go:50-54 | After a failed reopen the handle is absent. Every write and close then fails with ErrInvalid and changes nothing, until a reopen succeeds. What any of the closes reports plays no part. |
| FileWriters.ClosedWriterRejectsWrites | ioreopen.go:37-58 | Close returns the close error and releases the descriptor. Afterwards writes and a second Close fail with ErrClosed. A later reopen, whatever its open reports, does not release the descriptor again: it only adds the new one when the open succeeds. |
| FileWriters.RotationSplitsWrites | ioreopen.go:45-74 | Write p, rename the path away, reopen, write q. Whatever closing the old file reports, the renamed file holds its old bytes and then p. The path names a new file that holds exactly q. The writer ends with only that file open. |
| FileWriters.FileWriter.constructor | ioreopen.go:79-82 | A new writer has the given name and no handle. |
| FileWriters.FileWriter.Reopen | ioreopen.go:44-66 | The handle, the disk and the result are those of ReopenStep. The methods never change Name. |
| FileWriters.FileWriter.Write | ioreopen.go:68-74 | The count, the error and the disk are those of writing p through the current handle. |
| FileWriters.FileWriter.Close | ioreopen.go:36-42 | It closes the current handle and returns that close's error. The handle stays in place, closed. |
| FileWriters.NewFileWriter | ioreopen.go:76-88 | If the first open fails, there is no writer, the error is returned and the disk is unchanged. Otherwise a new writer is returned with the given name and an open handle on the file the name designates. |
| Bufio.Flush | ioreopen.go:100 | Flush writes the buffer to the handle once. The file followed by the buffer holds the same bytes as before. Without an error the buffer is empty. An error sticks and is reported again by later calls. On an open handle without a sticky error, the file gains as many bytes as the device has room for, up to the whole buffer, and with room the flush succeeds. A new error is the one the handle's write reported. On a nil or closed handle no file changes. |
| Bufio.Write | ioreopen.go:122 | The count is the number of bytes of p that were taken. The file followed by the buffer is the old file, then the old buffer, then those bytes, in order. There is no error exactly when all of p was taken (for non-empty p). A p that fits is only buffered. It succeeds when the device has room. A new error is the one the handle's write reported. When p did not fit and nothing failed, a full buffer with a p no larger than the buffer ends holding exactly p; in every other case fewer than len(p) bytes stay buffered. |
| Bufio.WriteThrough | ioreopen.go:122 | One pass of the write loop with an empty buffer. The file followed by the buffer is the old contents and then the bytes taken, in order, and with room on the device nothing fails. An error is the one the handle's write reported. Without an error nothing stays buffered. |
| Bufio.WriteTopUp | ioreopen.go:122 | One pass of the write loop with bytes already buffered: the buffer is filled from p and flushed, then the rest of p is written. The same content equation holds, and with room on the device nothing fails. An error is the one the handle's write reported. Without an error, a full buffer with a p no larger than the buffer ends holding exactly p; otherwise fewer than len(p) bytes stay buffered. |
| Bufio.Empty | ioreopen.go:151 | The writer that NewWriterSize makes: no bytes buffered, no error, the given capacity, and well formed when that capacity is positive. |
| Bufio.Reset | ioreopen.go:105 | The buffer is empty and the sticky error is cleared. |
| BufferedWriters.WriteStep | ioreopen.go:120-133 | The file followed by the buffer is the old contents followed by the n bytes of p that were accepted. If no error sticks afterwards, all of p was accepted and the buffer holds at least len(p) bytes or none. A payload larger than the buffer is entirely in the file. With room on the device, nothing fails. A sticky error is returned with a count of 0 and nothing changes; any other error means part of a non-empty p was refused, and is the one the inner file's write reported. Without a sticky error afterwards, a full buffer and a non-empty p no larger than it leave exactly p buffered, with no extra flush. If the buffer was not full and p did not fit, nothing stays buffered. |
| BufferedWriters.ReopenStep | ioreopen.go:97-109 | The result is the inner reopen's error; errors from the flush and the close are discarded. Afterwards the buffer is empty with no sticky error. The new handle is open on the file the path named before, or on a new empty file when the path named none; no other directory entry changes, and no directory entry changes when the open failed. The flush went to the old handle first, so the old file ends with a prefix of the buffer. Without a sticky error, the old file gains as many bytes as the device has room for, up to the whole buffer. With a sticky error, or with a nil or closed handle, the old file is left as it was. Every other existing file keeps its bytes, and the free space shrinks by exactly what the old file gained. |
| BufferedWriters.CloseStep | ioreopen.go:111-117 | The result is always nil. The buffer is flushed to the file, then the handle is closed and its descriptor released. With room on the device, the file ends with the whole buffer; without a sticky error it gains as many bytes as the device has room for, up to the whole buffer. With a sticky error the buffer and the file are left as they were. No directory entry changes, no file is created or removed, and every other file keeps its bytes. |
| BufferedWriters.FailedReopenDropsBufferedWrites | ioreopen.go:97-133 | After a failed inner reopen, a payload that fits the buffer is accepted in full with no error and only buffered. The next Reopen resets the buffer, so those bytes reach no file. Every existing file keeps its bytes, whatever that reopen and its close report. |
| BufferedWriters.ReopenAfterRename | ioreopen.go:98-109 | After the open file is renamed away, Reopen still flushes the buffer into the renamed file, whatever closing it then reports. The path then names a new, empty file that the writer has open. |
| BufferedWriters.WriteRenameReopen | ioreopen.go:98-133 | If p is written before the rename and the reopen, all of p ends up in the renamed file. |
| BufferedWriters.WriteAndCloseFreshFile | ioreopen.go:111-133 | On a fresh, empty file, writing q then closing leaves exactly q in it and changes no other file. |
| BufferedWriters.RotationSplitsBufferedWrites | ioreopen.go:98-133 | Write p, rename away, Reopen, write q, Close. Every call succeeds, whatever either close reports. The renamed file ends with what was buffered and then p. The path names a new file holding exactly q. |
| BufferedWriters.BufferedFileWriter.constructor | ioreopen.go:148-155 | The wrapped writer is w and its buffer is empty, with capacity 256 KiB. |
| BufferedWriters.BufferedFileWriter.Write | ioreopen.go:120-133 | The buffer, the disk, the count and the error are those of WriteStep. |
| BufferedWriters.BufferedFileWriter.Reopen | ioreopen.go:98-109 | The buffer, the inner handle, the disk and the result are those of ReopenStep: flush, then reopen, then reset. |
| BufferedWriters.BufferedFileWriter.Close | ioreopen.go:111-117 | The buffer, the inner handle, the disk and the result are those of CloseStep. |
| MultiWriters.Member.Write | ioreopen.go:17-20 | A member's Write answers what its oracle says, and the log gains exactly this Write of p. |
| MultiWriters.Member.Reopen | ioreopen.go:11-14 | A member's Reopen answers what its oracle says, and the log gains exactly this Reopen. |
| MultiWriters.WritesToInOrder | ioreopen.go:171-173 | The i-th call of a fan-out Write is the Write to the i-th member. |
| MultiWriters.ReopensToInOrder | ioreopen.go:161-163 | The i-th call of a fan-out Reopen is the Reopen of the i-th member. |
| MultiWriters.WritesToEachPlace | ioreopen.go:171-173 | Writing to a list hands p to each member once per place it holds in the list, and reopens none. |
| MultiWriters.ReopensToEachPlace | ioreopen.go:161-163 | Reopening a list reopens each member once per place it holds in the list, and writes to none. |
| MultiWriters.FirstFailure | ioreopen.go:162-180 | The result is the position of the first element that fails. Every element before it succeeds. |
| MultiWriters.FirstFailureAt | ioreopen.go:162-180 | Only one position has all earlier elements succeeding and itself failing (or is the end). |
| MultiWriters.FanOutWrite | ioreopen.go:171-182 | Without an error the count is len(p). There is an error exactly when the last member called did not take all of p, and the count is then that member's. |
| MultiWriters.WriteCalls | ioreopen.go:171-180 | Every member called before the last took all of p; when not every member was called, the last one called did not. |
| MultiWriters.FanOutWriteSucceedsIff | ioreopen.go:171-182 | A fan-out write returns no error exactly when every member took all of p, and it then returns len(p). |
| MultiWriters.FanOutWriteReportsFirstFailure | ioreopen.go:173-179 | When member k is the first to fail, the result is its (n, err), or (n, ErrShortWrite) when err is nil. Exactly members 0 to k are called. |
| MultiWriters.FanOutReopen | ioreopen.go:161-169 | There is an error exactly when the last member called failed, and it is that member's error. |
| MultiWriters.ReopenCalls | ioreopen.go:161-167 | Every member called before the last reopened without error; when not every member was called, the last one called failed. |
| MultiWriters.FanOutReopenReportsFirstError | ioreopen.go:161-169 | A fan-out reopen returns nil exactly when every member's reopen did. Otherwise it returns the first error, and no member after that one is called. |
| MultiWriters.MultiReopenWriter.constructor | ioreopen.go:187-191 | The member list is the argument list. It is a copied value held in a constant, so it is fixed. |
| MultiWriters.MultiReopenWriter.Write | ioreopen.go:171-182 | The result is FanOutWrite of the members' answers. The log gains exactly one Write of p to each member up to the first that failed, in list order, and nothing else. |
| MultiWriters.MultiReopenWriter.Reopen | ioreopen.go:161-169 | The result is FanOutReopen of the members' answers. The log gains exactly one Reopen of each member up to the first that failed, in list order, and nothing else. |
| NopWriters.NopReopenWriter.Reopen | ioreopen.go:197-199 | It always returns nil and reads no state, so the wrapped writer is neither reopened nor closed. |
| NopWriters.NopReopenWriter.Write | ioreopen.go:193-195 | The payload and the answer pass unchanged to and from the wrapped writer: the log gains exactly a Write of p to it. |
| NopWriters.NopWriter | ioreopen.go:203-205 | It wraps the given writer itself, and the result's Reopen succeeds. |
| NopWriters.FanOutOfNopWritersReopens | ioreopen.go:161-169 | A fan-out made only of no-op adapters reopens every member and never fails. |

## Left out

- The mutexes (`sync.Mutex` in both writer types). Each method is modelled as
  one atomic step, which is what the locks ensure. Concurrent interleavings
  are not modelled.
- `flushDaemon`, the goroutine that `NewBufferedFileWriter` starts, and
  `flushInterval`. These are a timer-driven background task. `(*os.File).Sync`,
  which only that task calls, is a durability call and is not modelled either.
- Permission bits (0666) and the open flags themselves. Only their effect is
  modelled: append at the end, create if missing, never truncate.
- Write failures other than a full device. The failure is modelled as ENOSPC
  after a partial write. A transient I/O error that later writes recover
  from is not modelled.
- `bufio.Writer` is library code. It is modelled through its observable
  behaviour: the buffer, the sticky error, the direct write of a large
  payload into an empty buffer, and Reset. The buffer is a sequence of at
  most `size` bytes, not a fixed array.
- Bufio.Reset: Reset also re-targets the buffer to `OrigWriter`. The sink of
  a buffered writer is always its own inner writer, so that part has no
  effect in the model.
- The members of a fan-out are abstract writers. They are not FileWriters or
  BufferedFileWriters, their answers are given in advance, and the only
  effect of a call to one is the entry it adds to the log.
- A caller that reassigns the exported fields `FileWriter.Name` or
  `BufferedFileWriter.OrigWriter` is not modelled. The model holds them as
  constants, so it covers only programs that never assign them after
  construction.
- The package variables `Stdout` and `Stderr` (`ioreopen.go:208-211`). They
  are process globals. As written they wrap `os.Stdin`, not the output
  streams.
- The interfaces `Reopener`, `Writer` and `WriteCloser`. They only declare
  methods; the model uses concrete classes for them.

Behaviour of the code worth noting:
- `BufferedFileWriter.Close` always returns nil, even when the flush or the
  close failed.
- `reopen` calls Close again on a handle that is already closed, and ignores
  the resulting ErrClosed.
- Background flush errors are dropped, not reported.
- After the inner reopen has failed, `BufferedFileWriter.Write` of a payload
  that fits the buffer returns len(p) and nil. The bytes stay in the buffer,
  and the next `Reopen` resets the buffer and discards them.
