/*
 * The part of Rust's standard library that src/lib.rs relies on: `File::open`
 * and `Read::read` on a `File`. Neither is modelled as the operating system
 * implements it. A file is its contents and a read cursor; what each `read`
 * call delivers (an error, fewer bytes than asked for, or a full chunk) is a
 * parameter of the handle, a queue of read events fixed when the handle is
 * opened.
 */
module Io {

  /** Rust's `u8`. */
  newtype Byte = x: int | 0 <= x < 256

  type Positive = n: nat | 0 < n witness 1

  function Min(a: nat, b: nat): nat {
    if a <= b then a else b
  }

  /** What the operating system does on one `read` call. */
  datatype ReadEvent =
    | Fail               // the call returns an I/O error and moves nothing
    | Limit(max: Positive) // the call delivers at most `max` bytes

  /** Every read done with this queue into a buffer of `cap` bytes fills it as far as the file allows. */
  predicate FillsBuffers(pending: seq<ReadEvent>, cap: nat) {
    forall e <- pending :: e.Limit? && cap <= e.max
  }

  /** `io::Result<usize>` with every error kind collapsed into one. */
  datatype ReadResult = Read(len: nat) | ReadError

  /**
   * The abstract value of an open file handle: the file's bytes, the read
   * cursor, and the outcomes of the next `read` calls. Once `pending` is used
   * up, every read fills as much of the buffer as the file still holds.
   */
  datatype Stream = Stream(data: seq<Byte>, pos: nat, pending: seq<ReadEvent>) {

    predicate Valid() {
      pos <= |data|
    }

    function Remaining(): nat
      requires Valid()
    {
      |data| - pos
    }

    /** The bytes not read yet. */
    function Rest(): (r: seq<Byte>)
      requires Valid()
      ensures |r| == Remaining()
    {
      data[pos..]
    }

    predicate ReadsFull(cap: nat) {
      FillsBuffers(pending, cap)
    }

    predicate NeverFails() {
      Fail !in pending
    }

    /**
     * What one `read` into a buffer of `cap` bytes returns. As Rust's `Read`
     * promises: at most `cap` bytes, never more than the file still holds, and
     * zero only at end of file or for an empty buffer.
     */
    function ReadCount(cap: nat): (r: ReadResult)
      requires Valid()
      ensures r.Read? ==> r.len <= cap && r.len <= Remaining()
      ensures r.Read? ==> (r.len == 0 <==> cap == 0 || Remaining() == 0)
      ensures NeverFails() ==> r.Read?
      ensures ReadsFull(cap) ==> r == Read(Min(cap, Remaining()))
    {
      var available := Min(cap, Remaining());
      if pending == [] then Read(available)
      else match pending[0]
        case Fail => ReadError
        case Limit(max) => Read(Min(max, available))
    }

    /** The handle after a read call that delivered `n` bytes (`n == 0` after an error). */
    function AfterRead(n: nat): (t: Stream)
      requires Valid() && n <= Remaining()
      ensures t.Valid() && t.data == data && t.pos == pos + n
      ensures t.Rest() == Rest()[n..]
      ensures NeverFails() ==> t.NeverFails()
    {
      Stream(data, pos + n, if pending == [] then [] else pending[1..])
    }
  }

  /** The unread bytes are the next `n` followed by what is unread after reading them. */
  lemma RestSplit(s: Stream, n: nat)
    requires s.Valid() && n <= s.Remaining()
    ensures s.Rest() == s.Rest()[..n] + s.AfterRead(n).Rest()
  {
  }

  /** A handle whose reads fill the buffer keeps doing so after a read. */
  lemma ReadsFullAfterRead(s: Stream, n: nat, cap: nat)
    requires s.Valid() && n <= s.Remaining() && s.ReadsFull(cap)
    ensures s.AfterRead(n).ReadsFull(cap)
  {
  }

  /**
   * An open `std::fs::File`. The contents never change; each `Read` advances
   * the cursor and uses up one pending read event.
   */
  class File {
    const data: seq<Byte>
    var pos: nat
    var pending: seq<ReadEvent>

    function State(): Stream
      reads this
    {
      Stream(data, pos, pending)
    }

    ghost predicate Valid()
      reads this
    {
      State().Valid()
    }

    /** A freshly opened handle, positioned at the start of the file. */
    constructor (data: seq<Byte>, pending: seq<ReadEvent>)
      ensures Valid() && State() == Stream(data, 0, pending)
    {
      this.data := data;
      this.pos := 0;
      this.pending := pending;
    }

    /**
     * `Read::read(&mut self, buf)`: returns the number of bytes placed at the
     * front of `buf`, or an error. Bytes of `buf` past those are untouched.
     */
    method Read(buf: array<Byte>) returns (r: ReadResult)
      requires Valid()
      modifies this, buf
      ensures Valid()
      ensures r == old(State()).ReadCount(buf.Length)
      ensures State() == old(State()).AfterRead(if r.Read? then r.len else 0)
      ensures r.Read? ==> buf[..r.len] == old(State()).Rest()[..r.len]
      ensures r.Read? ==> buf[r.len..] == old(buf[r.len..])
      ensures r.ReadError? ==> buf[..] == old(buf[..])
    {
      r := State().ReadCount(buf.Length);
      var n := if r.Read? then r.len else 0;
      forall i | 0 <= i < n {
        buf[i] := data[pos + i];
      }
      pos := pos + n;
      pending := if pending == [] then [] else pending[1..];
    }
  }

  /** The files that `File::open` can open for reading, by path. */
  type FileSystem = map<string, seq<Byte>>

  /** `io::Result<File>` with every error kind collapsed into one. */
  datatype OpenResult = Opened(file: Stream) | OpenError

  /**
   * `File::open(path)`: fails when the path names no readable file; otherwise
   * a handle at the start of the file whose reads behave as `pending` says.
   */
  function Open(fs: FileSystem, path: string, pending: seq<ReadEvent>): (r: OpenResult)
    ensures r.Opened? <==> path in fs
    ensures r.Opened? ==> r.file.Valid() && r.file.Rest() == fs[path] && r.file.pending == pending
  {
    if path in fs then Opened(Stream(fs[path], 0, pending)) else OpenError
  }
}
