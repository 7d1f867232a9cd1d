/*
 * What src/lib.rs promises of `diff_files` and `diff` ("returns true if the
 * two files are identical"), and how far it holds.
 *
 * Soundness holds for every read behaviour and is part of `Compare`'s
 * contract. Completeness holds when every read fills its buffer as far as the
 * file allows (`ReadsFull`), or when the two handles deliver the same counts
 * read for read; `ShortReadCounterexample` shows that it fails otherwise.
 */
module FileDiffProperties {
  import opened Io
  import opened FileDiff

  /**
   * A failed next read on either side makes the answer false. The streams may
   * be the states any earlier pass of the loop left behind, so this covers
   * every iteration.
   */
  lemma ReadErrorMeansDifferent(s1: Stream, s2: Stream, cap: nat)
    requires s1.Valid() && s2.Valid() && 0 < cap
    requires s1.ReadCount(cap).ReadError? || s2.ReadCount(cap).ReadError?
    ensures !Compare(s1, s2, cap).same
  {
  }

  /**
   * Next reads that return different counts make the answer false; as above,
   * the streams may be the states any earlier pass left behind.
   */
  lemma CountMismatchMeansDifferent(s1: Stream, s2: Stream, cap: nat)
    requires s1.Valid() && s2.Valid() && 0 < cap
    requires s1.ReadCount(cap).Read? && s2.ReadCount(cap).Read?
    requires s1.ReadCount(cap).len != s2.ReadCount(cap).len
    ensures !Compare(s1, s2, cap).same
  {
  }

  /**
   * Next reads of equal count whose filled prefixes differ make the answer
   * false; as above, the streams may be the states any earlier pass left behind.
   */
  lemma ChunkMismatchMeansDifferent(s1: Stream, s2: Stream, cap: nat, n: nat)
    requires s1.Valid() && s2.Valid() && 0 < cap
    requires s1.ReadCount(cap) == Read(n) && s2.ReadCount(cap) == Read(n)
    requires s1.Rest()[..n] != s2.Rest()[..n]
    ensures !Compare(s1, s2, cap).same
  {
  }

  /**
   * When both next reads return zero bytes, which a read does only at end of
   * file, the answer is true, whatever later reads would have done.
   */
  lemma EmptyStreamsAreEqual(s1: Stream, s2: Stream, cap: nat)
    requires s1.Valid() && s2.Valid() && 0 < cap
    requires s1.ReadCount(cap) == Read(0) && s2.ReadCount(cap) == Read(0)
    ensures Compare(s1, s2, cap).same
  {
  }

  /** Streams with different numbers of unread bytes never compare equal, whatever their common prefix. */
  lemma LengthSensitive(s1: Stream, s2: Stream, cap: nat)
    requires s1.Valid() && s2.Valid() && 0 < cap
    requires s1.Remaining() != s2.Remaining()
    ensures !Compare(s1, s2, cap).same
  {
  }

  /**
   * Completeness under full-chunk reads: when every read fills its buffer as
   * far as the file allows, the answer is "same" exactly when the unread
   * contents are identical.
   */
  lemma {:induction false} FullReadsDecideEquality(s1: Stream, s2: Stream, cap: nat)
    requires s1.Valid() && s2.Valid() && 0 < cap
    requires s1.ReadsFull(cap) && s2.ReadsFull(cap)
    ensures Compare(s1, s2, cap).same <==> s1.Rest() == s2.Rest()
    decreases s1.Remaining()
  {
    if s1.Rest() == s2.Rest() {
      var n := Min(cap, s1.Remaining());
      if n != 0 {
        assert s1.Rest()[..n] == s2.Rest()[..n];
        var t1, t2 := s1.AfterRead(n), s2.AfterRead(n);
        assert Iterate(s1, s2, cap) == Continue(n, t1, t2);
        ReadsFullAfterRead(s1, n, cap);
        ReadsFullAfterRead(s2, n, cap);
        FullReadsDecideEquality(t1, t2, cap);
      }
    }
  }

  /**
   * Two handles on identical contents whose reads behave identically (the
   * same counts, read for read, and no errors) compare equal.
   */
  lemma {:induction false} LockstepReadsAreComplete(s1: Stream, s2: Stream, cap: nat)
    requires s1.Valid() && s2.Valid() && 0 < cap
    requires s1.Rest() == s2.Rest() && s1.pending == s2.pending && s1.NeverFails()
    ensures Compare(s1, s2, cap).same
    decreases s1.Remaining()
  {
    var r := s1.ReadCount(cap);
    assert s2.ReadCount(cap) == r;
    if r.len != 0 {
      assert s1.Rest()[..r.len] == s2.Rest()[..r.len];
      var t1, t2 := s1.AfterRead(r.len), s2.AfterRead(r.len);
      assert Iterate(s1, s2, cap) == Continue(r.len, t1, t2);
      LockstepReadsAreComplete(t1, t2, cap);
    }
  }

  /** The answer does not depend on which stream is read first. */
  lemma {:induction false} Symmetric(s1: Stream, s2: Stream, cap: nat)
    requires s1.Valid() && s2.Valid() && 0 < cap
    ensures Compare(s1, s2, cap).same == Compare(s2, s1, cap).same
    decreases s1.Remaining()
  {
    match Iterate(s1, s2, cap)
    case Stop(o) =>
      if o.same {
        assert s1.ReadCount(cap) == Read(0) && s2.ReadCount(cap) == Read(0);
        assert Iterate(s2, s1, cap).Stop?;
      } else if Compare(s2, s1, cap).same {
        assert Iterate(s2, s1, cap).Stop?;
      }
    case Continue(n, t1, t2) =>
      assert Iterate(s2, s1, cap) == Continue(n, t2, t1);
      Symmetric(t1, t2, cap);
  }

  /**
   * Chunk-size independence: under full-chunk reads two buffer capacities
   * give the same answer, so the constant `BufferSize` is not observable.
   */
  lemma ChunkSizeIndependent(s1: Stream, s2: Stream, a: nat, b: nat)
    requires s1.Valid() && s2.Valid() && 0 < a && 0 < b
    requires s1.ReadsFull(a) && s2.ReadsFull(a) && s1.ReadsFull(b) && s2.ReadsFull(b)
    ensures Compare(s1, s2, a).same == Compare(s1, s2, b).same
  {
    FullReadsDecideEquality(s1, s2, a);
    FullReadsDecideEquality(s1, s2, b);
  }

  /**
   * Without full-chunk reads completeness fails: two handles on the same two
   * bytes, the first of which delivers one byte on its first read, compare
   * unequal.
   */
  lemma ShortReadCounterexample()
    ensures var s1, s2 := Stream([0, 0], 0, [Limit(1)]), Stream([0, 0], 0, []);
      s1.Rest() == s2.Rest() && !Compare(s1, s2, BufferSize).same
  {
    var s1, s2 := Stream([0, 0], 0, [Limit(1)]), Stream([0, 0], 0, []);
    assert s1.ReadCount(BufferSize) == Read(1);
    assert s2.ReadCount(BufferSize) == Read(2);
  }

  /** `diff` on a path that cannot be opened is false. */
  lemma DiffMissingPath(fs: FileSystem, path1: string, path2: string,
                        pending1: seq<ReadEvent>, pending2: seq<ReadEvent>)
    requires path1 !in fs || path2 !in fs
    ensures !Diff(Open(fs, path1, pending1), Open(fs, path2, pending2))
  {
  }

  /** `diff` on two files of different contents is false, whatever the reads deliver. */
  lemma DiffDifferentFiles(fs: FileSystem, path1: string, path2: string,
                           pending1: seq<ReadEvent>, pending2: seq<ReadEvent>)
    requires path1 in fs && path2 in fs && fs[path1] != fs[path2]
    ensures !Diff(Open(fs, path1, pending1), Open(fs, path2, pending2))
  {
  }

  /** `diff(p, p)` is true for a readable file whose two handles read alike and without error. */
  lemma DiffSameFile(fs: FileSystem, path: string, pending: seq<ReadEvent>)
    requires path in fs && Fail !in pending
    ensures Diff(Open(fs, path, pending), Open(fs, path, pending))
  {
    var h := Open(fs, path, pending);
    LockstepReadsAreComplete(h.file, h.file, BufferSize);
  }

  /** `diff` on two readable files read in full chunks is true exactly when their contents are identical. */
  lemma DiffFullReads(fs: FileSystem, path1: string, path2: string,
                      pending1: seq<ReadEvent>, pending2: seq<ReadEvent>)
    requires path1 in fs && path2 in fs
    requires FillsBuffers(pending1, BufferSize) && FillsBuffers(pending2, BufferSize)
    ensures Diff(Open(fs, path1, pending1), Open(fs, path2, pending2)) <==> fs[path1] == fs[path2]
  {
    FullReadsDecideEquality(Open(fs, path1, pending1).file, Open(fs, path2, pending2).file, BufferSize);
  }

  /** `diff(a, b) == diff(b, a)`, each path keeping its own read behaviour. */
  lemma DiffSymmetric(fs: FileSystem, path1: string, path2: string,
                      pending1: seq<ReadEvent>, pending2: seq<ReadEvent>)
    ensures Diff(Open(fs, path1, pending1), Open(fs, path2, pending2))
         == Diff(Open(fs, path2, pending2), Open(fs, path1, pending1))
  {
    if path1 in fs && path2 in fs {
      Symmetric(Open(fs, path1, pending1).file, Open(fs, path2, pending2).file, BufferSize);
    }
  }
}
