/** read_at and write_at of the example backend: loops that carry short transfers on until the
    buffer is used up. A schedule says what each call of the file does. */
module Transfers {
  import opened Wire
  import opened Cursors
  import opened Files

  /** The file moves as many bytes as it likes, or fails. */
  datatype Outcome = Moves(n: nat) | Fails(ec: Error)

  type Schedule = nat -> Outcome

  /** No file grows beyond this. */
  const MAX_SIZE: nat := TWO_64 - 1

  ghost predicate Positive(sched: Schedule) {
    forall i: nat :: sched(i).Moves? && sched(i).n > 0
  }

  /** Bytes a read of `room` bytes delivers: none only at the end of the file. */
  function ReadSome(f: bytes, offset: nat, room: nat, wish: nat): (s: bytes)
    requires room > 0
    ensures |s| <= room && s == ReadAt(f, offset, |s|)
    ensures s == [] <==> offset >= |f|
  {
    ReadAt(f, offset, Min(Max(wish, 1), room))
  }

  /** Bytes a write moves: as many as it likes, and no further than a file can reach. */
  function WriteSome(offset: u64, room: nat, wish: nat): (n: nat)
    ensures n <= room && n <= wish && offset + n <= MAX_SIZE
    ensures n == 0 <==> room == 0 || wish == 0 || offset == MAX_SIZE
  {
    Min(Min(wish, room), MAX_SIZE - offset)
  }

  /** What find makes of a handle that is not open. */
  const NOT_OPEN: Error := System({BadFileDescriptor})

  class RandomAccessFile {
    var content: bytes

    constructor (content: bytes)
      ensures this.content == content
    {
      this.content := content;
    }

    /** read_some_at into dest[at..]. */
    method ReadSomeAt(offset: u64, dest: array<byte>, at: nat, outcome: Outcome) returns (ec: Error, n: nat)
      requires at < dest.Length && (outcome.Fails? ==> outcome.ec.Failed())
      modifies dest
      ensures match outcome
        case Fails(e) => ec == e && n == 0 && dest[..] == old(dest[..])
        case Moves(wish) =>
          && ec == NoError && n == |ReadSome(content, offset, dest.Length - at, wish)|
          && dest[..] == old(dest[..at]) + ReadSome(content, offset, dest.Length - at, wish) + old(dest[at + n..])
    {
      ec, n := NoError, 0;
      if outcome.Fails? {
        return outcome.ec, 0;
      }
      var data := ReadSome(content, offset, dest.Length - at, outcome.n);
      while n < |data|
        invariant n <= |data|
        invariant dest[..at] == old(dest[..at])
        invariant dest[at..at + n] == data[..n]
        invariant dest[at + n..] == old(dest[at + n..])
      {
        ghost var before := dest[at + n..];
        dest[at + n] := data[n];
        n := n + 1;
        assert dest[at + n..] == before[1..];
      }
      assert dest[..] == dest[..at] + dest[at..at + n] + dest[at + n..];
    }

    method WriteSomeAt(offset: u64, data: bytes, outcome: Outcome) returns (ec: Error, n: nat)
      requires data != [] && (outcome.Fails? ==> outcome.ec.Failed())
      modifies this
      ensures match outcome
        case Fails(e) => ec == e && n == 0 && content == old(content)
        case Moves(wish) =>
          && ec == NoError && n == WriteSome(offset, |data|, wish)
          && content == WriteAt(old(content), offset, data[..n])
    {
      if outcome.Fails? {
        return outcome.ec, 0;
      }
      n := WriteSome(offset, |data|, outcome.n);
      content := WriteAt(content, offset, data[..n]);
      ec := NoError;
    }
  }

  /** sftp_server::read_at. A handle that is not open is an error and nothing is read. */
  method ReadHandle(files: map<bytes, RandomAccessFile>, handle: bytes, offset: u64, dest: array<byte>, sched: Schedule)
    returns (ec: Error, total: nat)
    requires handle in files ==> |files[handle].content| <= MAX_SIZE
    requires forall i: nat :: sched(i).Fails? ==> sched(i).ec.Failed()
    modifies dest
    ensures handle !in files ==> ec == NOT_OPEN && total == 0 && dest[..] == old(dest[..])
    ensures total <= dest.Length && dest[total..] == old(dest[total..])
    ensures handle in files ==> dest[..total] == ReadAt(files[handle].content, offset, total)
    ensures handle in files && ec == NoError ==> dest[..total] == ReadAt(files[handle].content, offset, dest.Length)
    ensures handle in files && ec != NoError ==> exists i: nat :: sched(i) == Fails(ec)
    ensures handle in files && Positive(sched) ==> ec == NoError
  {
    if handle !in files {
      return NOT_OPEN, 0;
    }
    ec, total := ReadAll(files[handle], offset, dest, sched);
  }

  /** The loop of read_at on an open file. Whatever the schedule, `total` bytes of the file from
      the offset on stand at the front of the buffer and the rest of it is untouched; without a
      failure they are all there is, as one full transfer would give them. */
  method ReadAll(f: RandomAccessFile, offset: u64, dest: array<byte>, sched: Schedule)
    returns (ec: Error, total: nat)
    requires |f.content| <= MAX_SIZE
    requires forall i: nat :: sched(i).Fails? ==> sched(i).ec.Failed()
    modifies dest
    ensures total <= dest.Length && dest[..total] == ReadAt(f.content, offset, total)
    ensures dest[total..] == old(dest[total..])
    ensures ec == NoError ==> dest[..total] == ReadAt(f.content, offset, dest.Length)
    ensures ec != NoError ==> exists i: nat :: sched(i) == Fails(ec)
    ensures Positive(sched) ==> ec == NoError && dest[..total] == ReadAt(f.content, offset, dest.Length)
  {
    total := 0;
    ec := NoError;
    var i: nat := 0;
    while dest.Length - total > 0
      invariant total <= dest.Length
      invariant dest[..total] == ReadAt(f.content, offset, total)
      invariant dest[total..] == old(dest[total..])
      decreases dest.Length - total
    {
      ghost var before := dest[..];
      assert (offset + total) % TWO_64 == offset + total;  // nothing was read behind the end
      var e, n := f.ReadSomeAt((offset + total) % TWO_64, dest, total, sched(i));
      if e.Failed() {
        assert sched(i) == Fails(e);
        return e, total;
      }
      var got := ReadSome(f.content, offset + total, dest.Length - total, sched(i).n);
      assert dest[..total + n] == before[..total] + got;
      assert dest[total + n..] == before[total..][n..];
      if n == 0 {
        ReadSplit(f.content, offset, total, dest.Length - total);
        break;
      }
      ReadSplit(f.content, offset, total, n);
      total := total + n;
      i := i + 1;
    }
  }

  /** sftp_server::write_at. A handle that is not open is an error; no other file changes. */
  method WriteHandle(files: map<bytes, RandomAccessFile>, handle: bytes, offset: u64, data: bytes, sched: Schedule)
    returns (ec: Error, total: nat)
    requires forall i: nat :: sched(i).Fails? ==> sched(i).ec.Failed()
    modifies if handle in files then {files[handle]} else {}
    ensures handle !in files ==> ec == NOT_OPEN && total == 0
    ensures handle in files ==>
      && total <= |data|
      && files[handle].content == WriteAt(old(files[handle].content), offset, data[..total])
      && (ec == NoError ==> total == |data|)
      && (Positive(sched) && offset + |data| <= MAX_SIZE ==> ec == NoError)
  {
    if handle !in files {
      return NOT_OPEN, 0;
    }
    ec, total := WriteAll(files[handle], offset, data, sched);
  }

  /** The loop of write_at on an open file. Whatever the schedule, the file is as one write of
      the first `total` bytes leaves it; without a failure or a write of no bytes that is all,
      exactly when the file can hold it. */
  method WriteAll(f: RandomAccessFile, offset: u64, data: bytes, sched: Schedule)
    returns (ec: Error, total: nat)
    requires forall i: nat :: sched(i).Fails? ==> sched(i).ec.Failed()
    modifies f
    ensures total <= |data| && f.content == WriteAt(old(f.content), offset, data[..total])
    ensures ec == NoError ==> total == |data| && f.content == WriteAt(old(f.content), offset, data)
    ensures ec == NoError ==> offset + |data| <= MAX_SIZE
    ensures Positive(sched) && offset + |data| <= MAX_SIZE ==> ec == NoError
    ensures ec != NoError ==>
      || (exists i: nat :: sched(i) == Fails(ec) || (sched(i) == Moves(0) && ec == System({IoError})))
      || (ec == System({IoError}) && offset + total == MAX_SIZE)
  {
    total := 0;
    ec := NoError;
    var i: nat := 0;
    hide WriteAt, WriteSome;
    NothingWritten(f.content, offset, data);
    ghost var start := f.content;
    while |data| - total > 0
      invariant ec == NoError && total <= |data| && f.content == WriteAt(start, offset, data[..total])
      invariant offset + total <= MAX_SIZE
      decreases |data| - total
    {
      var n: nat;
      var outcome := sched(i);
      ec, n := WriteOnce(f, start, offset, data, total, outcome);
      if ec != NoError {
        assert sched(i) == outcome;
        return;
      }
      total := total + n;
      i := i + 1;
    }
    assert data[..total] == data;
  }

  /** One round of the loop: more of the data in place, or the error that ends it. The offset is
      a 64-bit sum, which never wraps because no file reaches that far. */
  method WriteOnce(f: RandomAccessFile, ghost start: bytes, offset: u64, data: bytes, total: nat, outcome: Outcome)
    returns (ec: Error, n: nat)
    requires total < |data| && f.content == WriteAt(start, offset, data[..total])
    requires offset + total <= MAX_SIZE
    requires outcome.Fails? ==> outcome.ec.Failed()
    modifies f
    ensures total + n <= |data| && f.content == WriteAt(start, offset, data[..total + n])
    ensures offset + total + n <= MAX_SIZE
    ensures ec == NoError ==> n > 0
    ensures ec != NoError ==>
      && n == 0
      && (|| outcome == Fails(ec)
          || (ec == System({IoError}) && (outcome == Moves(0) || offset + total == MAX_SIZE)))
  {
    hide WriteAt, WriteSome;
    assert (offset + total) % TWO_64 == offset + total;
    ec, n := f.WriteSomeAt((offset + total) % TWO_64, data[total..], outcome);
    if ec.Failed() {
      return;
    }
    OneMore(start, offset, data, total, n);
    if n == 0 {
      ec := System({IoError});
    }
  }

  lemma NothingWritten(f: bytes, offset: nat, data: bytes)
    ensures WriteAt(f, offset, data[..0]) == f
  {
  }

  lemma OneMore(f: bytes, offset: nat, data: bytes, total: nat, n: nat)
    requires total + n <= |data|
    ensures WriteAt(WriteAt(f, offset, data[..total]), offset + total, data[total..][..n])
         == WriteAt(f, offset, data[..total + n])
  {
    hide WriteAt;
    WriteSplit(f, offset, data[..total], data[total..][..n]);
    assert data[..total] + data[total..][..n] == data[..total + n];
  }
}
