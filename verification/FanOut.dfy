/** file::read_some_at and file::write_some_at on several buffers: one request per buffer, all in
    flight together, the results added up. */
module FanOut {
  import opened Wire
  import opened Cursors
  import opened Requests
  import opened Files
  import Dispatch
  import Replies
  import Completions

  datatype Piece = Piece(offset: u64, data: bytes)

  /** The requests of write_some_at: the offset advances in 64 bits. */
  function Pieces(offset: nat, buffers: seq<bytes>): (ps: seq<Piece>)
    ensures |ps| == |buffers|
    decreases |buffers|
  {
    if buffers == [] then []
    else [Piece(offset % TWO_64, buffers[0])] + Pieces(offset + |buffers[0]|, buffers[1..])
  }

  /** n: the bytes of the requests that reported no error. The error itself is not returned. */
  function Sum(buffers: seq<bytes>, results: seq<Error>): (n: nat)
    requires |buffers| == |results|
  {
    if buffers == [] then 0
    else (if results[0].Failed() then 0 else |buffers[0]|) + Sum(buffers[1..], results[1..])
  }

  method WriteRequests(offset: u64, buffers: seq<bytes>) returns (tasks: seq<Piece>)
    ensures tasks == Pieces(offset, buffers)
  {
    tasks := [];
    var at: u64 := offset;
    ghost var exact: nat := offset;
    var i := 0;
    while i < |buffers|
      invariant i <= |buffers| && at == exact % TWO_64
      invariant tasks + Pieces(exact, buffers[i..]) == Pieces(offset, buffers)
    {
      ghost var rest := Pieces(exact + |buffers[i]|, buffers[i + 1..]);
      assert buffers[i..][1..] == buffers[i + 1..];
      assert tasks + ([Piece(at, buffers[i])] + rest) == (tasks + [Piece(at, buffers[i])]) + rest;
      tasks := tasks + [Piece(at, buffers[i])];
      Wrap64(exact, |buffers[i]|);
      at := (at as int + |buffers[i]|) % TWO_64;
      exact := exact + |buffers[i]|;
      i := i + 1;
    }
    assert tasks + [] == tasks;
  }

  lemma Wrap64(a: nat, b: nat)
    ensures (a % TWO_64 + b) % TWO_64 == (a + b) % TWO_64
  {
    assert a == a / TWO_64 * TWO_64 + a % TWO_64;
    assert (a + b) % TWO_64 == (a % TWO_64 + b) % TWO_64;
  }

  method AddResults(buffers: seq<bytes>, results: seq<Error>) returns (n: nat)
    requires |buffers| == |results|
    ensures n == Sum(buffers, results)
  {
    n := 0;
    var i := 0;
    while i < |buffers|
      invariant i <= |buffers| && n + Sum(buffers[i..], results[i..]) == Sum(buffers, results)
    {
      assert buffers[i..][1..] == buffers[i + 1..] && results[i..][1..] == results[i + 1..];
      if !results[i].Failed() {
        n := n + |buffers[i]|;
      }
      i := i + 1;
    }
  }

  /** The count is the whole length exactly when every failed request was an empty one. */
  lemma {:induction false} CountIsTotal(buffers: seq<bytes>, results: seq<Error>)
    requires |buffers| == |results|
    ensures Sum(buffers, results) <= |Concat(buffers)|
    ensures Sum(buffers, results) == |Concat(buffers)|
       <==> forall i | 0 <= i < |buffers| :: results[i].Failed() ==> buffers[i] == []
  {
    if buffers != [] {
      var bs, rs := buffers[1..], results[1..];
      CountIsTotal(bs, rs);
      assert forall i | 0 <= i < |bs| :: bs[i] == buffers[i + 1] && rs[i] == results[i + 1];
      if forall i | 0 <= i < |bs| :: rs[i].Failed() ==> bs[i] == [] {
        if !(results[0].Failed() && buffers[0] != []) {
          forall i | 0 <= i < |buffers|
            ensures results[i].Failed() ==> buffers[i] == []
          {
            if i > 0 {
              assert rs[i - 1] == results[i] && bs[i - 1] == buffers[i];
            }
          }
        }
      } else {
        var i :| 0 <= i < |bs| && rs[i].Failed() && bs[i] != [];
        assert results[i + 1].Failed() && buffers[i + 1] != [];
      }
    }
  }

  /** A request that fails shows in the count alone. */
  lemma ErrorDropped()
    ensures Sum([[7], [8]], [NoError, BAD]) == 1
  {
    assert [[7], [8]][1..] == [[8]] && [NoError, BAD][1..] == [BAD];
    assert Sum([[8]], [BAD]) == Sum([], []);
  }

  // ----- writing

  ghost predicate InRange(order: seq<nat>, n: nat) {
    forall j | 0 <= j < |order| :: order[j] < n
  }

  /** The server applies the pieces in some order, perhaps one of them again. */
  function ApplyInOrder(f: bytes, ps: seq<Piece>, order: seq<nat>): (g: bytes)
    requires InRange(order, |ps|)
  {
    if order == [] then f
    else
      var init, k := order[..|order| - 1], order[|order| - 1];
      WriteAt(ApplyInOrder(f, ps, init), ps[k].offset, ps[k].data)
  }

  predicate Covers(p: Piece, i: nat) {
    p.offset <= i < p.offset + |p.data|
  }

  ghost predicate Covered(ps: seq<Piece>, order: seq<nat>, i: nat) {
    exists j :: 0 <= j < |order| && order[j] < |ps| && Covers(ps[order[j]], i)
  }

  /** No request that carries data starts behind the largest 64-bit offset. */
  predicate NoWrap(offset: nat, buffers: seq<bytes>)
    decreases |buffers|
  {
    buffers == [] ||
    ((buffers[0] == [] || offset < TWO_64) && NoWrap(offset + |buffers[0]|, buffers[1..]))
  }

  /** Where each piece lies in the concatenation. */
  lemma {:induction false} Layout(offset: nat, buffers: seq<bytes>, k: nat)
    requires k < |buffers| && NoWrap(offset, buffers)
    ensures Within(Pieces(offset, buffers)[k], offset, Concat(buffers))
    decreases k
  {
    var first, rest := buffers[0], Concat(buffers[1..]);
    if k > 0 {
      Layout(offset + |first|, buffers[1..], k - 1);
      hide Within;
      WithinLater(Pieces(offset + |first|, buffers[1..])[k - 1], offset, first, rest);
    } else {
      hide Concat;
    }
  }

  lemma WithinLater(p: Piece, offset: nat, first: bytes, rest: bytes)
    requires Within(p, offset + |first|, rest)
    ensures Within(p, offset, first + rest)
  {
  }

  ghost predicate Within(p: Piece, offset: nat, all: bytes) {
    p.data != [] ==>
      && offset <= p.offset && p.offset + |p.data| <= offset + |all|
      && forall j | 0 <= j < |p.data| :: p.data[j] == all[p.offset - offset + j]
  }

  /** Every byte of the concatenation belongs to some piece. */
  lemma {:induction false} Located(offset: nat, buffers: seq<bytes>, i: nat) returns (k: nat)
    requires NoWrap(offset, buffers) && offset <= i < offset + |Concat(buffers)|
    ensures k < |buffers| && Covers(Pieces(offset, buffers)[k], i)
    decreases |buffers|
  {
    if i < offset + |buffers[0]| {
      k := 0;
    } else {
      k := Located(offset + |buffers[0]|, buffers[1..], i);
      k := k + 1;
    }
  }

  function Under(f: bytes, offset: nat, all: bytes, covered: bool, i: nat): (b: byte) {
    if covered && offset <= i then ByteAt(all, i - offset) else ByteAt(f, i)
  }

  /** `g` is f with the bytes of the pieces in `order` in place, and no longer than they reach. */
  ghost predicate Overlaid(f: bytes, g: bytes, offset: nat, all: bytes, ps: seq<Piece>, order: seq<nat>) {
    && |f| <= |g|
    && (|g| == |f| || (all != [] && |g| <= offset + |all|))
    && (forall i: nat {:trigger Covered(ps, order, i)} :: Covered(ps, order, i) ==> offset <= i < |g|)
    && (forall i: nat {:trigger ByteAt(g, i)} :: ByteAt(g, i) == Under(f, offset, all, Covered(ps, order, i), i))
  }

  lemma {:induction false} AnyOrder(f: bytes, offset: nat, buffers: seq<bytes>, order: seq<nat>)
    requires NoWrap(offset, buffers) && InRange(order, |buffers|)
    ensures var ps := Pieces(offset, buffers);
      Overlaid(f, ApplyInOrder(f, ps, order), offset, Concat(buffers), ps, order)
  {
    var ps, all := Pieces(offset, buffers), Concat(buffers);
    if order != [] {
      var init, k := order[..|order| - 1], order[|order| - 1];
      AnyOrder(f, offset, buffers, init);
      Layout(offset, buffers, k);
      hide Pieces, Concat;
      assert init + [k] == order;
      OverlayOne(f, ApplyInOrder(f, ps, init), offset, all, ps, init, k);
    }
  }

  lemma CoveredSnoc(ps: seq<Piece>, init: seq<nat>, k: nat, i: nat)
    requires k < |ps|
    ensures Covered(ps, init + [k], i) <==> Covered(ps, init, i) || Covers(ps[k], i)
  {
    var order := init + [k];
    if Covered(ps, init, i) {
      var j :| 0 <= j < |init| && init[j] < |ps| && Covers(ps[init[j]], i);
      assert order[j] == init[j];
    }
    if Covers(ps[k], i) {
      assert order[|init|] == k;
    }
  }

  lemma OverlayOne(f: bytes, g: bytes, offset: nat, all: bytes, ps: seq<Piece>, init: seq<nat>, k: nat)
    requires k < |ps| && Within(ps[k], offset, all) && Overlaid(f, g, offset, all, ps, init)
    ensures Overlaid(f, WriteAt(g, ps[k].offset, ps[k].data), offset, all, ps, init + [k])
  {
    var h, order := WriteAt(g, ps[k].offset, ps[k].data), init + [k];
    hide WriteAt, Covered;
    forall i: nat
      ensures Covered(ps, order, i) ==> offset <= i < |h|
      ensures ByteAt(h, i) == Under(f, offset, all, Covered(ps, order, i), i)
    {
      CoveredSnoc(ps, init, k, i);
      assert ByteAt(g, i) == Under(f, offset, all, Covered(ps, init, i), i);
      if Covers(ps[k], i) {
        assert ps[k].data[i - ps[k].offset] == all[i - offset];
      }
    }
  }

  lemma CommuteUnwrapped(f: bytes, offset: nat, buffers: seq<bytes>, order: seq<nat>)
    requires NoWrap(offset, buffers)
    requires InRange(order, |buffers|) && forall k | 0 <= k < |buffers| :: k in order
    ensures ApplyInOrder(f, Pieces(offset, buffers), order) == WriteAt(f, offset, Concat(buffers))
  {
    var ps, all := Pieces(offset, buffers), Concat(buffers);
    var g, h := ApplyInOrder(f, ps, order), WriteAt(f, offset, all);
    AnyOrder(f, offset, buffers, order);
    hide WriteAt, ApplyInOrder;
    forall i: nat
      ensures Covered(ps, order, i) <==> offset <= i < offset + |all|
    {
      if Covered(ps, order, i) {
        var j :| 0 <= j < |order| && order[j] < |ps| && Covers(ps[order[j]], i);
        Layout(offset, buffers, order[j]);
      }
      if offset <= i < offset + |all| {
        var k := Located(offset, buffers, i);
        assert k in order;
        var j :| 0 <= j < |order| && order[j] == k;
      }
    }
    hide Covered, Pieces, Concat;
    assert all != [] ==> Covered(ps, order, offset + |all| - 1);
    assert forall i: nat :: ByteAt(g, i) == ByteAt(h, i) by {
      forall i: nat
        ensures ByteAt(g, i) == ByteAt(h, i)
      {
        assert ByteAt(g, i) == Under(f, offset, all, Covered(ps, order, i), i);
      }
    }
    SameContent(g, h);
  }

  /** No piece ends behind the concatenation, and a wrapped one ends before it does. */
  lemma {:induction false} PieceEnds(offset: nat, buffers: seq<bytes>, k: nat)
    requires k < |buffers|
    ensures var p := Pieces(offset, buffers)[k];
      && p.offset + |p.data| <= offset + |Concat(buffers)|
      && (offset >= TWO_64 ==> p.offset + |p.data| < offset + |Concat(buffers)|)
    decreases k
  {
    if k > 0 {
      PieceEnds(offset + |buffers[0]|, buffers[1..], k - 1);
    }
  }

  lemma {:induction false} WrappedEnds(offset: nat, buffers: seq<bytes>, k: nat)
    requires !NoWrap(offset, buffers) && k < |buffers|
    ensures Concat(buffers) != [] && TWO_64 < offset + |Concat(buffers)|
    ensures var p := Pieces(offset, buffers)[k]; p.offset + |p.data| < offset + |Concat(buffers)|
    decreases |buffers|
  {
    var first, rest := buffers[0], buffers[1..];
    PieceEnds(offset, buffers, k);
    if first == [] || offset < TWO_64 {
      WrappedEnds(offset + |first|, rest, if k > 0 then k - 1 else 0);
    }
  }

  lemma {:induction false} Reach(f: bytes, ps: seq<Piece>, order: seq<nat>, bound: nat)
    requires InRange(order, |ps|) && |f| < bound
    requires forall k | 0 <= k < |ps| :: ps[k].offset + |ps[k].data| < bound
    ensures |ApplyInOrder(f, ps, order)| < bound
  {
    if order != [] {
      Reach(f, ps, order[..|order| - 1], bound);
      hide WriteAt;
    }
  }

  /** Whatever the order in which the server applies the pieces, gaps and repetitions included:
      the file ends up as one write of the concatenated buffers would leave it, if and only if no
      piece wraps. */
  lemma WritesCommute(f: bytes, offset: u64, buffers: seq<bytes>, order: seq<nat>)
    requires InRange(order, |buffers|) && forall k | 0 <= k < |buffers| :: k in order
    requires |f| <= TWO_64
    ensures ApplyInOrder(f, Pieces(offset, buffers), order) == WriteAt(f, offset, Concat(buffers))
       <==> NoWrap(offset, buffers)
  {
    hide WriteAt, ApplyInOrder, Concat, Pieces;
    if NoWrap(offset, buffers) {
      CommuteUnwrapped(f, offset, buffers, order);
    } else {
      var ps, bound := Pieces(offset, buffers), offset + |Concat(buffers)|;
      WrappedEnds(offset, buffers, 0);
      forall k | 0 <= k < |buffers|
        ensures ps[k].offset + |ps[k].data| < bound
      {
        WrappedEnds(offset, buffers, k);
      }
      Reach(f, ps, order, bound);
    }
  }

  lemma LastPieces(a: byte, b: byte)
    ensures Pieces(TWO_64 - 1, [[a], [b]]) == [Piece(TWO_64 - 1, [a]), Piece(0, [b])]
    ensures Concat([[a], [b]]) == [a, b] && !NoWrap(TWO_64 - 1, [[a], [b]])
  {
    assert [[a], [b]][1..] == [[b]] && [[b]][1..] == [];
    assert Concat([[b]]) == [b] + Concat([]);
    assert Pieces(TWO_64, [[b]]) == [Piece(0, [b])] + Pieces(TWO_64 + 1, []);
  }

  lemma ApplySnoc(f: bytes, ps: seq<Piece>, init: seq<nat>, k: nat)
    requires InRange(init + [k], |ps|) && InRange(init, |ps|) && k < |ps|
    ensures ApplyInOrder(f, ps, init + [k]) == WriteAt(ApplyInOrder(f, ps, init), ps[k].offset, ps[k].data)
  {
    hide WriteAt;
    assert (init + [k])[..|init|] == init;
  }

  lemma FrontByte(f: bytes, b: byte)
    ensures ByteAt(WriteAt(f, 0, [b]), 0) == b
  {
  }

  /** The second byte of a write at the last offset goes to the front of the file. */
  lemma WriteWraps(f: bytes, a: byte, b: byte)
    requires |f| <= TWO_64
    ensures var ps := Pieces(TWO_64 - 1, [[a], [b]]);
      && ApplyInOrder(f, ps, [0, 1]) != WriteAt(f, TWO_64 - 1, [a, b])
      && ByteAt(ApplyInOrder(f, ps, [0, 1]), 0) == b
  {
    hide WriteAt, Pieces, Concat, NoWrap, ByteAt, ApplyInOrder;
    LastPieces(a, b);
    var order: seq<nat> := [0] + [1];
    assert order[0] == 0 && order[1] == 1;
    WritesCommute(f, TWO_64 - 1, [[a], [b]], order);
    var ps := Pieces(TWO_64 - 1, [[a], [b]]);
    ApplySnoc(f, ps, [0], 1);
    FrontByte(ApplyInOrder(f, ps, [0]), b);
    assert [0, 1] == order;
  }

  // ----- reading

  /** One request of read_some_at, as answered with the file's bytes: the length is narrowed by
      the client and refused by the server beyond its limit. */
  function ReadPiece(f: bytes, offset: nat, size: nat): (s: bytes)
    ensures |s| <= size
  {
    if Narrow(size) > LIMIT then [] else ReadAt(f, offset, Narrow(size))
  }

  /** That is what the exchange amounts to, from the client's request to the bytes its response
      record copies, when the server's DATA packet arrives. */
  lemma PieceThroughWire(f: bytes, handle: bytes, offset: u64, size: nat)
    requires |handle| + 21 < TWO_32
    ensures match Dispatch.Received(Read(handle, offset, size)).0
      case Invoke(SReadAt(h, off, len)) =>
        var data := ReadAt(f, off, len);
        && h == handle && |data| <= len
        && Completions.CompleteData(NoError, Replies.DATA, Replies.ReplyPayload(Replies.RData(data)), size)
           == (NoError, ReadPiece(f, offset, size))
      case Reject(ec) => ec == BAD && ReadPiece(f, offset, size) == []
      case _ => false
  {
    hide Dispatch.Received, Completions.CompleteData, Replies.ReplyPayload, Narrow, Payload, ReadAt;
    var r := Read(handle, offset, size);
    LengthIsBody(r);
    Dispatch.ReadReceived(r);
    if Narrow(size) <= LIMIT {
      var data := ReadAt(f, offset, Narrow(size));
      NarrowShrinks(size);
      DataFits(data);
      Completions.DataRoundTrip(data, size);
      assert data[..|data|] == data;
    }
  }

  lemma NarrowShrinks(n: nat)
    ensures Narrow(n) <= n
  {
  }

  lemma DataFits(data: bytes)
    requires |data| <= LIMIT
    ensures Replies.Fits(Replies.RData(data))
  {
  }

  /** What the requests of read_some_at bring back: the offset advances in 64 bits. */
  function ReadPieces(f: bytes, offset: nat, sizes: seq<nat>): (ps: seq<bytes>)
    ensures |ps| == |sizes|
    decreases |sizes|
  {
    if sizes == [] then []
    else [ReadPiece(f, offset % TWO_64, sizes[0])] + ReadPieces(f, offset + sizes[0], sizes[1..])
  }

  /** What belongs into the buffers: each the file's bytes where the previous one ends. */
  function Consecutive(f: bytes, offset: nat, sizes: seq<nat>): (ps: seq<bytes>)
    ensures |ps| == |sizes|
    decreases |sizes|
  {
    if sizes == [] then []
    else [ReadAt(f, offset, sizes[0])] + Consecutive(f, offset + sizes[0], sizes[1..])
  }

  function SumOf(sizes: seq<nat>): (n: nat) {
    if sizes == [] then 0 else sizes[0] + SumOf(sizes[1..])
  }

  /** The buffer receives what belongs into it: within the server's limit, or starting behind the
      end of the file, or cut to a length that still reaches the end; and if its offset has
      wrapped, nothing at all. */
  predicate Clear(f: bytes, offset: nat, size: nat) {
    if offset < TWO_64 then
      || size <= LIMIT
      || |f| <= offset
      || (Narrow(size) <= LIMIT && |f| - offset <= Narrow(size))
    else Narrow(size) > LIMIT || Narrow(size) == 0 || |f| <= offset % TWO_64
  }

  predicate Unhindered(f: bytes, offset: nat, sizes: seq<nat>)
    decreases |sizes|
  {
    sizes == [] || (Clear(f, offset, sizes[0]) && Unhindered(f, offset + sizes[0], sizes[1..]))
  }

  /** n: the bytes placed in all buffers together. */
  method AddRead(pieces: seq<bytes>) returns (n: nat)
    ensures n == |Concat(pieces)|
  {
    n := 0;
    var i := 0;
    while i < |pieces|
      invariant i <= |pieces| && n + |Concat(pieces[i..])| == |Concat(pieces)|
    {
      assert pieces[i..][1..] == pieces[i + 1..];
      n := n + |pieces[i]|;
      i := i + 1;
    }
  }

  lemma PieceComplete(f: bytes, offset: nat, size: nat)
    requires |f| <= TWO_64
    ensures ReadPiece(f, offset % TWO_64, size) == ReadAt(f, offset, size) <==> Clear(f, offset, size)
    ensures offset < TWO_64 ==>
      && |ReadPiece(f, offset % TWO_64, size)| <= |ReadAt(f, offset, size)|
      && (|ReadPiece(f, offset % TWO_64, size)| == |ReadAt(f, offset, size)| <==> Clear(f, offset, size))
    ensures size == 0 ==> Clear(f, offset, size)
  {
    if size <= LIMIT {
      assert Narrow(size) == size;
    } else {
      assert Narrow(size) <= LIMIT ==> Narrow(size) < size;
    }
  }

  /** A buffer above the server's limit receives nothing of a file of one byte. */
  lemma ReadRefused(b: byte)
    ensures ReadPieces([b], 0, [LIMIT + 1]) == [[]] && ReadAt([b], 0, LIMIT + 1) == [b]
  {
    var rest := [LIMIT + 1][1..];
    assert rest == [];
    assert ReadPieces([b], LIMIT + 1, rest) == [];
    assert Narrow(LIMIT + 1) > LIMIT;
  }

  lemma {:induction false} ConsecutiveConcat(f: bytes, offset: nat, sizes: seq<nat>)
    ensures Concat(Consecutive(f, offset, sizes)) == ReadAt(f, offset, SumOf(sizes))
    decreases |sizes|
  {
    if sizes != [] {
      var a, rest := sizes[0], sizes[1..];
      ConsecutiveConcat(f, offset + a, rest);
      ReadSplit(f, offset, a, SumOf(rest));
      var first, more := ReadAt(f, offset, a), Consecutive(f, offset + a, rest);
      assert ([first] + more)[1..] == more;
      hide ReadAt;
    }
  }

  /** Each buffer holds exactly the file's bytes where the previous one ends, wherever the end of
      the file falls, if and only if no buffer is hindered. */
  lemma {:induction false} EachInPlace(f: bytes, offset: nat, sizes: seq<nat>)
    requires |f| <= TWO_64
    ensures ReadPieces(f, offset, sizes) == Consecutive(f, offset, sizes) <==> Unhindered(f, offset, sizes)
    decreases |sizes|
  {
    if sizes != [] {
      var a, rest := sizes[0], sizes[1..];
      EachInPlace(f, offset + a, rest);
      PieceComplete(f, offset, a);
      hide ReadPiece, ReadAt, Clear;
      var ps, qs := ReadPieces(f, offset, sizes), Consecutive(f, offset, sizes);
      assert ps[1..] == ReadPieces(f, offset + a, rest) && qs[1..] == Consecutive(f, offset + a, rest);
      assert ps == [ps[0]] + ps[1..] && qs == [qs[0]] + qs[1..];
    }
  }

  /** While no offset wraps, a hindered buffer shows in the count. */
  lemma {:induction false} CountTells(f: bytes, offset: nat, sizes: seq<nat>)
    requires |f| <= TWO_64 && offset + SumOf(sizes) <= TWO_64
    ensures |Concat(ReadPieces(f, offset, sizes))| <= |ReadAt(f, offset, SumOf(sizes))|
    ensures |Concat(ReadPieces(f, offset, sizes))| == |ReadAt(f, offset, SumOf(sizes))|
       <==> Unhindered(f, offset, sizes)
    decreases |sizes|
  {
    if sizes != [] {
      var a, rest := sizes[0], sizes[1..];
      CountTells(f, offset + a, rest);
      ReadSplit(f, offset, a, SumOf(rest));
      PieceComplete(f, offset, a);
      var first, more := ReadPiece(f, offset % TWO_64, a), ReadPieces(f, offset + a, rest);
      assert ([first] + more)[1..] == more;
      hide ReadPiece, Clear, ReadAt;
    }
  }

  /** Wherever the end of the file falls, inside, between or before the buffers: each holds its
      own bytes if and only if none is hindered; then together they hold consecutive bytes. As
      long as no offset wraps, the count is the number of bytes between the offset and the end,
      at most the total size, under the same condition exactly. */
  lemma ReadsConsecutive(f: bytes, offset: u64, sizes: seq<nat>)
    requires |f| <= TWO_64
    ensures var ps, total := ReadPieces(f, offset, sizes), SumOf(sizes);
      && (ps == Consecutive(f, offset, sizes) <==> Unhindered(f, offset, sizes))
      && (Unhindered(f, offset, sizes) ==> Concat(ps) == ReadAt(f, offset, total))
      && (offset + total <= TWO_64 ==>
            (|Concat(ps)| == Max(0, Min(total, |f| - offset)) <==> Unhindered(f, offset, sizes)))
  {
    EachInPlace(f, offset, sizes);
    ConsecutiveConcat(f, offset, sizes);
    if offset + SumOf(sizes) <= TWO_64 {
      CountTells(f, offset, sizes);
    }
    hide ReadPieces, Consecutive, Unhindered, SumOf, Concat;
  }
}
