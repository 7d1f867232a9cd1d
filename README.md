# file_diff in Dafny

A model of `file_diff`, a small Rust utility for unit tests. It answers one
question: do two files hold byte-identical contents? It has two entry points:

- `diff_files(f1, f2)` takes two open files. It reads them in lockstep, one
  chunk of up to 1024 bytes from each per iteration, into two reused buffers.
  It returns false on a read error, on unequal read counts, or on unequal
  chunks. It returns true when both reads return zero bytes.
- `diff(path1, path2)` opens both paths. It returns false if either open
  fails, and otherwise returns the answer of `diff_files`.

The model has three modules:

- `Io` (`io.dfy`) stands in for `File::open` and `Read::read`. A `Stream` is
  the abstract value of an open handle: the file's bytes, a read cursor, and a
  queue `pending` of read events. Each event is `Fail` (an I/O error) or
  `Limit(max)` (at most `max` bytes delivered, `max > 0`). Each read uses up one
  event. Once the queue is empty, every read fills the buffer as far as the file
  allows. A read returns zero bytes only at end of file, as Rust's `Read`
  promises for a non-empty buffer. Every finite run of the real program matches
  some queue of a finite file, so a fact proved for all queues holds for every
  read behaviour of a run that ends. File contents are finite here, so every
  run of the model ends; see "## Left out" for endless streams.
  `File` is the handle as an object whose `Read` method fills an
  `array<Byte>` in place and advances the cursor.
- `FileDiff` (`file_diff.dfy`) holds the core. `Iterate` is one loop iteration
  and `Compare` is the whole loop, both as functions of the two handles' values.
  `DiffFiles` is the loop itself, over two `File` objects and two
  `BufferSize`-byte arrays. It is proved to return `Compare`'s answer and to
  leave the handles as `Compare` says. `Diff` is `diff` over the two open
  results. `DiffPaths` is `diff` as a program that opens, then runs `DiffFiles`.
- `FileDiffProperties` (`properties.dfy`) proves what the source promises and
  how far that promise holds.

The comment on `diff_files` says it returns true "if the two files are
identical". That splits in two:

- Soundness: "true" means identical, and both files were read to the end. This
  holds for every read behaviour, including short reads. It is part of
  `Compare`'s contract.
- Completeness: identical means "true". This holds when every read fills its
  buffer as far as the file allows (`FullReadsDecideEquality`). It also holds
  when the two handles deliver the same counts read for read
  (`LockstepReadsAreComplete`). It does not hold in general:
  `ShortReadCounterexample` shows two handles on the same two bytes that compare
  unequal because one of them delivered a short first read.

## Model

| member | source | states |
|---|---|---|
| `Io.Stream.ReadCount` | src/lib.rs:54-58 | a read returns at most the buffer's size and at most what is left; it returns zero only at end of file or for an empty buffer; it cannot fail when no failure is pending; a full-chunk read returns min(capacity, remaining) |
| `Io.Stream.AfterRead` | src/lib.rs:54-58 | a read of `n` bytes moves the cursor forward by exactly `n`, leaves the contents alone, and leaves the unread bytes after those `n` |
| `Io.File.Read` | src/lib.rs:54-58 | `read` into a buffer returns the count or the error that `ReadCount` gives; the first `count` buffer bytes are the next bytes of the file; the rest of the buffer is untouched; the cursor advances by the count |
| `Io.File.constructor` | src/lib.rs:76-77 | a newly opened handle is positioned at the start of the file |
| `Io.Open` | src/lib.rs:76-77 | opening succeeds exactly when the path names a readable file, and gives a handle whose unread bytes are that file's contents |
| `FileDiff.Iterate` | src/lib.rs:54-67 | an iteration that goes round again has consumed the same positive number of bytes, at most the buffer size, from each stream, and those bytes agree; an iteration that answers true found both streams at end of file; cursors never move backwards |
| `FileDiff.Compare` | src/lib.rs:52-71 | soundness for every read behaviour: true implies the unread contents were identical and both streams are left at end of file; both cursors only move forward |
| `FileDiff.DiffFiles` | src/lib.rs:47-72 | the loop over two reused 1024-byte buffers returns `Compare`'s answer and leaves both handles in `Compare`'s final state |
| `FileDiff.Diff` | src/lib.rs:75-82 | true implies both paths opened and the files hold identical contents |
| `FileDiff.DiffPaths` | src/lib.rs:75-82 | opening both paths and running `DiffFiles` gives `Diff` of the two open results |
| `FileDiffProperties.ReadErrorMeansDifferent` | src/lib.rs:54-57 | a read error on either stream makes the answer false |
| `FileDiffProperties.CountMismatchMeansDifferent` | src/lib.rs:59-61 | unequal read counts in one iteration make the answer false |
| `FileDiffProperties.ChunkMismatchMeansDifferent` | src/lib.rs:65-67 | filled prefixes that differ make the answer false |
| `FileDiffProperties.EmptyStreamsAreEqual` | src/lib.rs:62-64 | when both next reads return zero bytes (only possible at end of file), the answer is true, whatever later reads would do |
| `FileDiffProperties.LengthSensitive` | src/lib.rs:59-61 | streams with different numbers of unread bytes never compare equal |
| `FileDiffProperties.FullReadsDecideEquality` | src/lib.rs:46-71 | under full-chunk reads, the answer is true exactly when the unread contents are identical |
| `FileDiffProperties.LockstepReadsAreComplete` | src/lib.rs:46-71 | identical contents whose reads deliver the same counts with no error compare equal |
| `FileDiffProperties.Symmetric` | src/lib.rs:52-71 | swapping the two streams does not change the answer |
| `FileDiffProperties.ChunkSizeIndependent` | src/lib.rs:49-50 | under full-chunk reads, any two positive buffer sizes give the same answer |
| `FileDiffProperties.ShortReadCounterexample` | src/lib.rs:46-71 | equal contents can compare unequal when one handle returns a short read |
| `FileDiffProperties.DiffMissingPath` | src/lib.rs:79-81 | `diff` is false when either path cannot be opened |
| `FileDiffProperties.DiffDifferentFiles` | src/lib.rs:101-105 | `diff` on two files with different contents is false, whatever the reads deliver |
| `FileDiffProperties.DiffSameFile` | src/lib.rs:92-96 | `diff(p, p)` is true for a readable file whose two handles read alike and without error |
| `FileDiffProperties.DiffFullReads` | src/lib.rs:98-99 | under full-chunk reads, `diff` on two readable files is true exactly when their contents are identical |
| `FileDiffProperties.DiffSymmetric` | src/lib.rs:75-82 | `diff(a, b) == diff(b, a)` |

## Left out

- The real filesystem. `FileSystem` maps each path that `File::open` can open to its contents. Any path that cannot be opened (missing, no permission) is simply absent. On Unix `File::open` of a directory succeeds and its first read fails; that is a path in `FileSystem` whose handle has `Fail` queued first. The answer is false either way.
- Kinds of I/O error. Every open error is `OpenError` and every read error is `ReadError`, because the source maps each one to false.
- What the operating system does on a read. It is a parameter of each handle, the queue of `ReadEvent`s. A failed read is modelled as moving no bytes and leaving the buffer unchanged. The buffer is local to `diff_files`, so its contents are not observable. The cursor is: `diff_files` only borrows the handles, so its caller can see their positions afterwards. Rust does not promise where the cursor is after a failed read. The positions that `DiffFiles` and `Compare` give after a failed read are the model's choice, and callers must not rely on them.
- Closing the handles. Rust's drop releases them, and nothing in the source depends on it.
- Opening order in `diff`. The source opens the second path even when the first fails. This has no effect on the answer, so `DiffPaths` opens only when both paths exist.
- The doc-test examples and the test fixtures (`./src/lib.rs`, `./Cargo.toml`, `./testdata/*`). Their contents are not part of this model. The tests are restated as the general lemmas `DiffSameFile`, `DiffFullReads` and `DiffDifferentFiles`.
- Concurrency. The source has none.
- Endless streams. A file's contents are a finite sequence, so the model's loop always ends (`Compare` and `DiffFiles` decrease the unread length). The source's `loop` has no such bound. On two endless streams that agree it never returns. For example, `diff("/dev/zero", "/dev/zero")` reads full 1024-byte chunks of zeros forever.
