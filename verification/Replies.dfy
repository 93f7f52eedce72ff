/** Replies: what serve_worker sends for a backend result. Section 7 of
    draft-ietf-secsh-filexfer-02. */
module Replies {
  import opened Wire
  import opened Cursors
  import opened Writers
  import opened Attrs
  import opened Packets
  import opened Requests

  const STATUS: byte := 101
  const HANDLE: byte := 102
  const DATA: byte := 103
  const NAME: byte := 104
  const ATTRS: byte := 105
  const EXTENDED_REPLY: byte := 201

  datatype Entry = Entry(attr: Attributes, name: bytes, longName: bytes)

  // ----- build_status

  predicate Is(e: Error, c: Condition) {
    match e
    case Eof => c == CondEof
    case System(conditions) => c in conditions
    case _ => false
  }

  /** The selection chain of build_status. */
  function StatusOf(e: Error): (status: u32) {
    if e.Sftp? then e.value
    else if e.NoError? then 0
    else if Is(e, CondEof) then 1
    else if Is(e, CondNotFound) then 10
    else if Is(e, NotConnected) then 6
    else if Is(e, NoSuchFile) then 2
    else if Is(e, PermissionDenied) then 3
    else if Is(e, BadMessage) then 5
    else if Is(e, ConnectionAborted) || Is(e, ConnectionReset) then 7
    else if Is(e, OperationNotSupported) || Is(e, FunctionNotSupported) then 8
    else if Is(e, BadFileDescriptor) then 9
    else if Is(e, FileExists) then 11
    else if Is(e, ReadOnlyFileSystem) then 12
    else if Is(e, NoSuchDevice) || Is(e, NoSuchDeviceOrAddress) then 13
    else 4
  }

  /** What a backend call produced; the message is the text of the reported code. */
  datatype Result =
    | RStatus(ec: Error, message: bytes)
    | RHandle(handle: bytes)
    | RAttrs(attr: Attributes)
    | RName(name: bytes)
    | RNames(entries: seq<Entry>)
    | RData(data: bytes)

  function EntryBytes(e: Entry): (s: bytes)
    ensures |s| == EntryLength(e)
  {
    Str(e.name) + (Str(e.longName) + AttrsBytes(e.attr))
  }

  function EntryLength(e: Entry): (n: nat) {
    4 + |e.name| + 4 + |e.longName| + AttrsLength(e.attr)
  }

  function EntriesBytes(es: seq<Entry>): (s: bytes)
    ensures |s| == EntriesLength(es)
  {
    if es == [] then [] else EntryBytes(es[0]) + EntriesBytes(es[1..])
  }

  function EntriesLength(es: seq<Entry>): (n: nat) {
    if es == [] then 0 else EntryLength(es[0]) + EntriesLength(es[1..])
  }

  function ReplyType(r: Result): (tp: byte) {
    match r
    case RStatus(_, _) => STATUS
    case RHandle(_) => HANDLE
    case RAttrs(_) => ATTRS
    case RName(_) => NAME
    case RNames(_) => NAME
    case RData(_) => DATA
  }

  function ReplyPayload(r: Result): (s: bytes) {
    match r
    case RStatus(e, msg) => U32(StatusOf(e)) + (Str(msg) + Str([]))
    case RHandle(h) => Str(h)
    case RAttrs(a) => AttrsBytes(a)
    case RName(n) => U32(1) + (Str(n) + (Str([]) + U32(0)))
    case RNames(es) => U32(Narrow(|es|)) + EntriesBytes(es)
    case RData(d) => Str(d)
  }

  function ReplyPacket(r: Result, id: u32): (s: bytes) {
    Packet(ReplyType(r), id, ReplyPayload(r))
  }

  predicate Fits(r: Result) {
    9 + |ReplyPayload(r)| < TWO_32
  }

  /** What reaches the stream. Every branch sends its whole buffer, except READ, which sends the
      buffer behind the cursor it has advanced over the header. */
  function Sent(r: Result, id: u32): (s: bytes) {
    if r.RData? then ReplyPacket(r, id)[13..] else ReplyPacket(r, id)
  }

  /** The successful reply to READ consists of the file's bytes alone; every other reply is a
      packet of its own type with the request's id. */
  lemma SentIsPacket(r: Result, id: u32)
    ensures Sent(r, id) == ReplyPacket(r, id) <==> !r.RData?
    ensures r.RData? ==> Sent(r, id) == r.data
  {
    if r.RData? {
      var p := ReplyPacket(r, id);
      PacketIsHeaderAndPayload(DATA, id, Str(r.data));
      assert |p| == 13 + |r.data| && p[13..] == r.data by {
        hide Packet;
        var h := U32(Narrow(5 + |Str(r.data)|)) + ([DATA] + U32(id));
        assert p == (h + U32(Narrow(|r.data|))) + r.data;
      }
    }
  }

  // ----- encoders

  /** A writer whose room is the block's length in 32 bits succeeds only if nothing wrapped. */
  lemma NarrowRoom(o: Out, s: bytes)
    requires |s| > 0 && Agree(o, Out([], Narrow(|s|), NoError).Put(s))
    ensures if |s| < TWO_32 then o == Out(s, 0, NoError) else o.ec.Failed()
  {
  }

  method BuildStatus(id: u32, reported: Error, msg: bytes) returns (out: array<byte>, ec: Error)
    ensures var r := RStatus(reported, msg);
      if Fits(r) then ec == NoError && out[..] == ReplyPacket(r, id) else ec.Failed()
  {
    ghost var r := RStatus(reported, msg);
    StatusSize(reported, msg);
    hide StatusOf, Str, U32, Narrow, Out.Put, Out.PutStr;
    var bodyLen := Narrow(1 + 4 + 4 + 4 + Narrow(|msg|) + 4);
    var total := bodyLen as int + 4;
    out := new byte[Narrow(total)];
    var buf := new MutableBuffer(out, NoError);
    ghost var o := buf.View();
    PutHeader(buf, bodyLen, STATUS, id);
    ghost var o1 := buf.View();
    buf.PutU32(StatusOf(reported));
    ghost var o2 := buf.View();
    PutTwoStr(buf, msg, []);
    ec := buf.ec;
    FilledReply(o, o1, buf.View(), r, id) by {
      AgreeRefl(o2, o1.Put(U32(StatusOf(reported))));
      Chain(o1, U32(StatusOf(reported)), o2, Str(msg) + Str([]), buf.View());
    }
    hide *;
    assert out[..out.Length] == out[..];
  }

  lemma StatusSize(reported: Error, msg: bytes)
    ensures Narrow(17 + Narrow(|msg|)) == Narrow(5 + |ReplyPayload(RStatus(reported, msg))|)
  {
    hide StatusOf;
    NarrowSum(17, |msg|);
  }

  lemma NameSize(name: bytes)
    ensures Narrow(21 + Narrow(|name|)) == Narrow(5 + |ReplyPayload(RName(name))|)
  {
    NarrowSum(21, |name|);
  }

  lemma NarrowSum(a: nat, n: nat)
    ensures Narrow(a + Narrow(n)) == Narrow(a + n)
  {
    assert n == n / TWO_32 * TWO_32 + n % TWO_32;
    assert (a + n) % TWO_32 == (a + n % TWO_32) % TWO_32;
  }

  /** Header and payload into a buffer whose size was computed in 32 bits. */
  lemma FilledReply(o: Out, o1: Out, o2: Out, r: Result, id: u32)
    requires o == Out([], Narrow(4 + Narrow(5 + |ReplyPayload(r)|)), NoError)
    requires Agree(o1, o.Put(U32(Narrow(5 + |ReplyPayload(r)|)) + ([ReplyType(r)] + U32(id))))
    requires Agree(o2, o1.Put(ReplyPayload(r)))
    ensures if Fits(r) then o2 == Out(ReplyPacket(r, id), 0, NoError) else o2.ec.Failed()
  {
    var payload, tp := ReplyPayload(r), ReplyType(r);
    hide ReplyPayload, ReplyType;
    PacketIsHeaderAndPayload(tp, id, payload);
    NarrowSum(4, 5 + |payload|);
    var h := U32(Narrow(5 + |payload|)) + ([tp] + U32(id));
    hide Narrow, U32, Packet;
    Chain(o, h, o1, payload, o2);
    NarrowRoom(o2, Packet(tp, id, payload));
  }

  /** HANDLE: the allocation is computed in 64 bits and never falls short; only the size field
      narrows. */
  method BuildHandle(id: u32, h: bytes) returns (out: array<byte>)
    ensures out[..] == ReplyPacket(RHandle(h), id)
  {
    var resSize := 1 + 4 + (4 + |h|);
    out := new byte[resSize + 4];
    var buf := new MutableBuffer(out, NoError);
    ghost var o := buf.View();
    PutHeader(buf, Narrow(resSize), HANDLE, id);
    ghost var o1 := buf.View();
    buf.PutStr(h);
    PutStrIsPut(o1, h);
    FilledPacket(o, o1, buf.View(), HANDLE, id, Str(h));
    hide *;
    assert out[..out.Length] == out[..];
  }

  method BuildAttrs(id: u32, a: Attributes) returns (out: array<byte>)
    ensures out[..] == ReplyPacket(RAttrs(a), id)
  {
    var resSize := 1 + 4 + AttrsLength(a);
    out := new byte[resSize + 4];
    var buf := new MutableBuffer(out, NoError);
    ghost var o := buf.View();
    PutHeader(buf, Narrow(resSize), ATTRS, id);
    ghost var o1 := buf.View();
    WriteAttrs(buf, a);
    FilledPacket(o, o1, buf.View(), ATTRS, id, AttrsBytes(a)) by {
      hide AttrsBytes, U32;
    }
    hide *;
    assert out[..out.Length] == out[..];
  }

  /** One name, an empty long name, no attributes: REALPATH, READLINK and expand-path. */
  method BuildName(id: u32, name: bytes) returns (out: array<byte>, ec: Error)
    ensures var r := RName(name);
      if Fits(r) then ec == NoError && out[..] == ReplyPacket(r, id) else ec.Failed()
  {
    NameSize(name);
    hide Str, U32, Narrow, Out.Put, Out.PutStr;
    var resSize := Narrow(1 + 4 + 4 + 4 + Narrow(|name|) + 4 + 4);
    var total := resSize as int + 4;
    out := new byte[Narrow(total)];
    var buf := new MutableBuffer(out, NoError);
    ghost var o := buf.View();
    PutHeader(buf, resSize, NAME, id);
    ghost var o1 := buf.View();
    PutOneName(buf, name);
    ec := buf.ec;
    FilledReply(o, o1, buf.View(), RName(name), id);
    hide *;
    assert out[..out.Length] == out[..];
  }

  method PutOneName(buf: MutableBuffer, name: bytes)
    requires buf.Valid()
    modifies buf, buf.data
    ensures buf.Valid() && Agree(buf.View(), old(buf.View()).Put(ReplyPayload(RName(name))))
  {
    hide Str, U32, Narrow, Out.Put, Out.PutStr;
    ghost var o1 := buf.View();
    buf.PutU32(1);
    ghost var o2 := buf.View();
    buf.PutStr(name);
    ghost var o3 := buf.View();
    buf.PutStr([]);
    ghost var o4 := buf.View();
    buf.PutU32(0);
    PutStrIsPut(o2, name);
    PutStrIsPut(o3, []);
    AgreeRefl(buf.View(), o4.Put(U32(0)));
    AgreeRefl(o2, o1.Put(U32(1)));
    Chain(o3, Str([]), o4, U32(0), buf.View());
    Chain(o2, Str(name), o3, Str([]) + U32(0), buf.View());
    Chain(o1, U32(1), o2, Str(name) + (Str([]) + U32(0)), buf.View());
  }

  /** READDIR: the size is summed up in 32 bits, then every entry is put. The sticky error is
      clear exactly when the reply fits. */
  method BuildNames(id: u32, entries: seq<Entry>) returns (out: array<byte>, ec: Error)
    ensures var r := RNames(entries);
      if Fits(r) then ec == NoError && out[..] == ReplyPacket(r, id) else ec.Failed()
  {
    hide EntriesBytes, U32, Narrow, Out.Put;
    var resSize := NamesSize(entries);
    var total := resSize as int + 4;
    out := new byte[Narrow(total)];
    var buf := new MutableBuffer(out, NoError);
    ghost var o := buf.View();
    PutHeader(buf, resSize, NAME, id);
    ghost var o1 := buf.View();
    buf.PutU32(Narrow(|entries|));
    ghost var o2 := buf.View();
    PutEntries(buf, entries);
    ec := buf.ec;
    FilledReply(o, o1, buf.View(), RNames(entries), id) by {
      AgreeRefl(o2, o1.Put(U32(Narrow(|entries|))));
      Chain(o1, U32(Narrow(|entries|)), o2, EntriesBytes(entries), buf.View());
    }
    hide *;
    assert out[..out.Length] == out[..];
  }

  method NamesSize(entries: seq<Entry>) returns (resSize: u32)
    ensures resSize == Narrow(5 + |ReplyPayload(RNames(entries))|)
  {
    NamesTotal(entries);
    hide EntryLength, Narrow, AttrsLength, ReplyPayload;
    resSize := 9;
    var i := 0;
    while i < |entries|
      invariant i <= |entries|
      invariant Narrow(resSize + EntriesLength(entries[i..])) == Narrow(9 + EntriesLength(entries))
    {
      var e := entries[i];
      ghost var rest := EntriesLength(entries[i + 1..]);
      NarrowEntry(resSize, e, rest);
      assert entries[i..][1..] == entries[i + 1..];
      var add := 4 + Narrow(|e.name|) + 4 + Narrow(|e.longName|) + Narrow(AttrsLength(e.attr));
      resSize := Narrow(resSize + add);
      i := i + 1;
    }
    NarrowSum(0, 9 + EntriesLength(entries));
    NarrowSum(0, resSize);
    NarrowSmall(resSize);
  }

  lemma NarrowSmall(n: u32)
    ensures Narrow(n) == n
  {
  }

  lemma NamesTotal(entries: seq<Entry>)
    ensures 5 + |ReplyPayload(RNames(entries))| == 9 + EntriesLength(entries)
  {
  }

  lemma NarrowEntry(base: nat, e: Entry, rest: nat)
    ensures var add := 4 + Narrow(|e.name|) + 4 + Narrow(|e.longName|) + Narrow(AttrsLength(e.attr));
      Narrow(Narrow(base + add) + rest) == Narrow(base + EntryLength(e) + rest)
  {
    var a, b, c := |e.name|, |e.longName|, AttrsLength(e.attr);
    hide AttrsLength, Narrow;
    NarrowSum(rest, base + (8 + Narrow(a) + Narrow(b) + Narrow(c)));
    NarrowSum(rest + base + 8 + Narrow(b) + Narrow(c), a);
    NarrowSum(rest + base + 8 + a + Narrow(c), b);
    NarrowSum(rest + base + 8 + a + b, c);
  }

  method PutEntries(buf: MutableBuffer, entries: seq<Entry>)
    requires buf.Valid()
    modifies buf, buf.data
    ensures buf.Valid() && Agree(buf.View(), old(buf.View()).Put(EntriesBytes(entries)))
  {
    hide EntryBytes, Out.Put;
    ghost var o := buf.View();
    ghost var done: bytes := [];
    PutNothing(o);
    var i := 0;
    while i < |entries|
      invariant i <= |entries| && buf.Valid()
      invariant done + EntriesBytes(entries[i..]) == EntriesBytes(entries)
      invariant Agree(buf.View(), o.Put(done))
    {
      ghost var x := buf.View();
      ghost var e, rest := EntryBytes(entries[i]), EntriesBytes(entries[i + 1..]);
      PutEntry(buf, entries[i]);
      assert entries[i..][1..] == entries[i + 1..];
      Chain(o, done, x, e, buf.View());
      assert (done + e) + rest == done + (e + rest);
      done := done + e;
      i := i + 1;
    }
    assert done == EntriesBytes(entries);
  }

  lemma PutNothing(o: Out)
    ensures o.Put([]) == o
  {
    assert o.written + [] == o.written;
  }

  method PutEntry(buf: MutableBuffer, e: Entry)
    requires buf.Valid()
    modifies buf, buf.data
    ensures buf.Valid() && Agree(buf.View(), old(buf.View()).Put(EntryBytes(e)))
  {
    ghost var o := buf.View();
    buf.PutStr(e.name);
    ghost var o1 := buf.View();
    buf.PutStr(e.longName);
    ghost var o2 := buf.View();
    WriteAttrs(buf, e.attr);
    hide AttrsBytes, Str, Out.Put, Out.PutStr;
    PutStrIsPut(o, e.name);
    PutStrIsPut(o1, e.longName);
    Chain(o1, Str(e.longName), o2, AttrsBytes(e.attr), buf.View());
    Chain(o, Str(e.name), o1, Str(e.longName) + AttrsBytes(e.attr), buf.View());
  }

  /** READ: a buffer for `len` bytes, filled by the backend behind the header and cut down to
      what was read. */
  method FillData(len: u32, data: bytes) returns (buffer: array<byte>)
    requires len <= LIMIT && |data| <= len
    ensures fresh(buffer) && buffer.Length == 13 + |data| && buffer[13..] == data
  {
    var resSize: nat := 1 + 4 + (4 + len);
    buffer := new byte[resSize + 4](i requires 0 <= i < resSize + 4 =>
      if 13 <= i < 13 + |data| then data[i - 13] else 0);
    if |data| < len {
      resSize := resSize - (len - |data|);
      var kept := buffer[..resSize + 4];
      buffer := new byte[resSize + 4](i requires 0 <= i < resSize + 4 => kept[i]);
    }
    assert forall i | 0 <= i < |data| :: buffer[13 + i] == data[i];
  }

  /** The header goes in front of the data. The buffer then holds the whole DATA packet; what is
      sent is the part behind the cursor. */
  method BuildData(id: u32, len: u32, data: bytes) returns (buffer: array<byte>, response: bytes)
    requires len <= LIMIT && |data| <= len
    ensures buffer[..] == ReplyPacket(RData(data), id)
    ensures response == Sent(RData(data), id)
  {
    buffer := FillData(len, data);
    var resSize: u32 := 1 + 4 + (4 + |data|);
    ghost var h := U32(resSize) + ([DATA] + U32(id));
    DataPacket(id, data);
    hide U32, ReplyPacket, Packet;
    var mb := new MutableBuffer(buffer, NoError);
    PutHeader(mb, resSize, DATA, id);
    assert mb.View() == Out(h, |data| + 4, NoError);
    mb.PutU32(|data|);
    assert mb.View() == Out(h + U32(|data|), |data|, NoError);
    assert buffer[13..] == data;
    hide Out.Put;
    assert buffer[..] == buffer[..13] + buffer[13..];
    assert mb.pos == 13;
    response := buffer[mb.pos..];
    assert response == buffer[..][13..];
  }

  lemma DataPacket(id: u32, data: bytes)
    requires |data| <= LIMIT
    ensures ReplyPacket(RData(data), id) == ((U32(9 + |data|) + ([DATA] + U32(id))) + U32(|data|)) + data
  {
    PacketIsHeaderAndPayload(DATA, id, Str(data));
    NarrowSmall(9 + |data|);
    NarrowSmall(|data|);
    hide Packet, U32, Narrow;
    AssocData(U32(9 + |data|) + ([DATA] + U32(id)), U32(|data|), data);
  }

  lemma AssocData(h: bytes, n: bytes, data: bytes)
    ensures h + (n + data) == (h + n) + data
  {
  }
}
