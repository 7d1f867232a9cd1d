/*
 * src/lib.rs: `diff_files` compares two open files by reading them in
 * lockstep, one 1024-byte chunk from each per iteration, and `diff` opens two
 * paths and hands the handles to `diff_files`. Every error, of open or of
 * read, collapses into `false`.
 *
 * `Iterate` and `Compare` are the loop body and the loop as functions of the
 * two handles' abstract values; `DiffFiles` is the loop itself, over the two
 * `File` objects and two reused buffers, proved to compute `Compare`.
 */
module FileDiff {
  import opened Io

  /** Capacity of each of the two read buffers. */
  const BufferSize: nat := 1024

  /** The answer of a comparison and the two handles as it leaves them. */
  datatype Outcome = Outcome(same: bool, left: Stream, right: Stream)

  /** One iteration of the loop: it either returns, or goes round again after `len` bytes from each stream. */
  datatype Step =
    | Stop(outcome: Outcome)
    | Continue(len: nat, left: Stream, right: Stream)

  /** `t` is `s` later on: same file, cursor not moved backwards. */
  predicate Advanced(s: Stream, t: Stream) {
    t.Valid() && t.data == s.data && s.pos <= t.pos
  }

  /**
   * One iteration of the loop of `diff_files` with buffers of `cap` bytes.
   * An iteration that goes on has consumed the same positive number of bytes
   * from both streams, and those bytes agree; one that answers "same" has
   * found both streams at end of file.
   */
  function Iterate(s1: Stream, s2: Stream, cap: nat): (step: Step)
    requires s1.Valid() && s2.Valid() && 0 < cap
    ensures step.Continue? ==>
      && 0 < step.len <= cap
      && step.len <= s1.Remaining() && step.len <= s2.Remaining()
      && step.left == s1.AfterRead(step.len) && step.right == s2.AfterRead(step.len)
      && s1.Rest()[..step.len] == s2.Rest()[..step.len]
    ensures step.Stop? ==> Advanced(s1, step.outcome.left) && Advanced(s2, step.outcome.right)
    ensures step.Stop? && step.outcome.same ==>
      && s1.Remaining() == 0 && s2.Remaining() == 0
      && step.outcome.left.Remaining() == 0 && step.outcome.right.Remaining() == 0
  {
    match s1.ReadCount(cap)
    case ReadError => Stop(Outcome(false, s1.AfterRead(0), s2))
    case Read(n1) =>
      match s2.ReadCount(cap)
      case ReadError => Stop(Outcome(false, s1.AfterRead(n1), s2.AfterRead(0)))
      case Read(n2) =>
        var t1, t2 := s1.AfterRead(n1), s2.AfterRead(n2);
        if n1 != n2 then Stop(Outcome(false, t1, t2))
        else if n1 == 0 then Stop(Outcome(true, t1, t2))
        else if s1.Rest()[..n1] != s2.Rest()[..n2] then Stop(Outcome(false, t1, t2))
        else Continue(n1, t1, t2)
  }

  /**
   * The whole loop of `diff_files` with buffers of `cap` bytes. Whatever the
   * reads deliver, "same" means the unread contents of the two streams were
   * identical and both have been read to the end.
   */
  function Compare(s1: Stream, s2: Stream, cap: nat): (o: Outcome)
    requires s1.Valid() && s2.Valid() && 0 < cap
    ensures Advanced(s1, o.left) && Advanced(s2, o.right)
    ensures o.same ==> s1.Rest() == s2.Rest() && o.left.Remaining() == 0 && o.right.Remaining() == 0
    decreases s1.Remaining()
  {
    match Iterate(s1, s2, cap)
    case Stop(o) => o
    case Continue(n, t1, t2) =>
      var o := Compare(t1, t2, cap);
      RestSplit(s1, n);
      RestSplit(s2, n);
      o
  }

  /**
   * `diff_files(f1, f2)`: reads both files in lockstep through two reused
   * buffers of `BufferSize` bytes until a read fails, the counts differ, both
   * are at end of file, or the chunks differ.
   */
  method DiffFiles(f1: File, f2: File) returns (same: bool)
    requires f1 != f2
    requires f1.Valid() && f2.Valid()
    modifies f1, f2
    ensures f1.Valid() && f2.Valid()
    ensures var o := Compare(old(f1.State()), old(f2.State()), BufferSize);
      same == o.same && f1.State() == o.left && f2.State() == o.right
  {
    var buff1 := new Byte[BufferSize];
    var buff2 := new Byte[BufferSize];
    while true
      invariant f1.Valid() && f2.Valid()
      invariant buff1.Length == BufferSize && buff2.Length == BufferSize
      invariant Compare(f1.State(), f2.State(), BufferSize)
             == Compare(old(f1.State()), old(f2.State()), BufferSize)
      decreases f1.State().Remaining()
    {
      ghost var s1, s2 := f1.State(), f2.State();
      var r1 := f1.Read(buff1);
      match r1
      case ReadError =>
        return false;
      case Read(n1) =>
        var r2 := f2.Read(buff2);
        match r2
        case ReadError =>
          return false;
        case Read(n2) =>
          if n1 != n2 {
            return false;
          }
          if n1 == 0 {
            return true;
          }
          if buff1[..n1] != buff2[..n2] {
            return false;
          }
          assert Iterate(s1, s2, BufferSize) == Continue(n1, f1.State(), f2.State());
    }
  }

  /**
   * `diff(f1, f2)` given the results of opening the two paths: false when
   * either open failed, otherwise the answer of `diff_files` on the handles.
   */
  function Diff(h1: OpenResult, h2: OpenResult): (same: bool)
    requires h1.Opened? ==> h1.file.Valid()
    requires h2.Opened? ==> h2.file.Valid()
    ensures same ==> h1.Opened? && h2.Opened? && h1.file.Rest() == h2.file.Rest()
  {
    match h1
    case OpenError => false
    case Opened(file1) =>
      match h2
      case OpenError => false
      case Opened(file2) => Compare(file1, file2, BufferSize).same
  }

  /**
   * `diff(path1, path2)` as a program: opens both paths in `fs`, with the
   * given read behaviour for each handle, and runs `DiffFiles` on them.
   */
  method DiffPaths(fs: FileSystem, path1: string, path2: string,
                   pending1: seq<ReadEvent>, pending2: seq<ReadEvent>) returns (same: bool)
    ensures same == Diff(Open(fs, path1, pending1), Open(fs, path2, pending2))
  {
    if path1 in fs && path2 in fs {
      var file1 := new File(fs[path1], pending1);
      var file2 := new File(fs[path2], pending2);
      same := DiffFiles(file1, file2);
    } else {
      same := false;
    }
  }
}
