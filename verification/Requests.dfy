/** Requests: one encoder per client operation (sections 6.1 to 6.11 of
    draft-ietf-secsh-filexfer-02 and two OpenSSH extensions), each proved to fill its allocation
    with the packet of its operation. */
module Requests {
  import opened Wire
  import opened Cursors
  import opened Writers
  import opened Attrs
  import opened Packets

  const LIMIT: nat := 0x4000_0000  // 1024*1024*1024, the server's bound on READ and WRITE
  const DEFAULT_MODE: u32 := 0x1ED  // 0755
  const SSH_FX_OP_UNSUPPORTED: u32 := 8

  /** "hardlink@openssh.com", "expand-path@openssh.com", "home-directory" */
  const HARDLINK: bytes :=
    [0x68, 0x61, 0x72, 0x64, 0x6C, 0x69, 0x6E, 0x6B,
     0x40, 0x6F, 0x70, 0x65, 0x6E, 0x73, 0x73, 0x68, 0x2E, 0x63, 0x6F, 0x6D]
  const EXPAND_PATH: bytes :=
    [0x65, 0x78, 0x70, 0x61, 0x6E, 0x64, 0x2D, 0x70, 0x61, 0x74, 0x68,
     0x40, 0x6F, 0x70, 0x65, 0x6E, 0x73, 0x73, 0x68, 0x2E, 0x63, 0x6F, 0x6D]
  const HOME_DIRECTORY: bytes :=
    [0x68, 0x6F, 0x6D, 0x65, 0x2D, 0x64, 0x69, 0x72, 0x65, 0x63, 0x74, 0x6F, 0x72, 0x79]

  /** The operations of session, file and dir. `size` is the size of the caller's buffer. */
  datatype Request =
    | Unlink(path: bytes)
    | Mkdir(path: bytes, mode: u32)
    | Rmdir(path: bytes)
    | Rename(oldpath: bytes, newpath: bytes)
    | Chmod(path: bytes, mode: u32)
    | Chown(path: bytes, owner: u32, group: u32)
    | Symlink(target: bytes, dest: bytes)
    | Hardlink(oldpath: bytes, newpath: bytes)
    | Setstat(path: bytes, attr: Attributes)
    | Opendir(path: bytes)
    | Open(path: bytes, pflags: u32, mode: u32)
    | Readdir(handle: bytes)
    | Close(handle: bytes)
    | Read(handle: bytes, offset: u64, size: nat)
    | Write(handle: bytes, offset: u64, data: bytes)
    | Stat(path: bytes)
    | Lstat(path: bytes)
    | Readlink(path: bytes)
    | CanonicalizePath(path: bytes)
    | ExpandPath(path: bytes)
    | HomeDirectory(username: bytes)

  function OpCode(r: Request): (tp: byte) {
    match r
    case Open(_, _, _) => 3
    case Close(_) => 4
    case Read(_, _, _) => 5
    case Write(_, _, _) => 6
    case Lstat(_) => 7
    case Setstat(_, _) => 9
    case Chmod(_, _) => 9
    case Chown(_, _, _) => 9
    case Opendir(_) => 11
    case Readdir(_) => 12
    case Unlink(_) => 13
    case Mkdir(_, _) => 14
    case Rmdir(_) => 15
    case CanonicalizePath(_) => 16
    case Stat(_) => 17
    case Rename(_, _) => 18
    case Readlink(_) => 19
    case Symlink(_, _) => 20
    case Hardlink(_, _) => 200
    case ExpandPath(_) => 200
    case HomeDirectory(_) => 200
  }

  const PERMISSIONS_ONLY: Attributes := NO_ATTRS.(flags := ATTR_PERMISSIONS)
  const UIDGID_ONLY: Attributes := NO_ATTRS.(flags := ATTR_UIDGID)

  /** What follows the request id on the wire. */
  function Payload(r: Request): (s: bytes) {
    match r
    case Unlink(p) => Str(p)
    case Rmdir(p) => Str(p)
    case Opendir(p) => Str(p)
    case Readdir(h) => Str(h)
    case Close(h) => Str(h)
    case Stat(p) => Str(p)
    case Lstat(p) => Str(p)
    case Readlink(p) => Str(p)
    case CanonicalizePath(p) => Str(p)
    case Mkdir(p, mode) => Str(p) + (U32(ATTR_PERMISSIONS) + U32(mode))
    case Chmod(p, mode) => Str(p) + (U32(ATTR_PERMISSIONS) + U32(mode))
    case Chown(p, owner, group) => Str(p) + (U32(ATTR_UIDGID) + (U32(owner) + U32(group)))
    case Setstat(p, attr) => Str(p) + AttrsBytes(attr)
    case Open(p, pflags, mode) => Str(p) + (U32(pflags) + (U32(ATTR_PERMISSIONS) + U32(mode)))
    case Rename(o, n) => Str(o) + Str(n)
    case Symlink(t, d) => Str(t) + Str(d)
    case Read(h, offset, size) => Str(h) + (U64(offset) + U32(Narrow(size)))
    case Write(h, offset, data) => Str(h) + (U64(offset) + Str(data))
    case Hardlink(o, n) => Str(HARDLINK) + (Str(o) + Str(n))
    case ExpandPath(p) => Str(EXPAND_PATH) + Str(p)
    case HomeDirectory(u) => Str(HOME_DIRECTORY) + Str(u)
  }

  /** The `length` each operation computes before it allocates, term by term. */
  function Length(r: Request): (n: nat) {
    match r
    case Unlink(p) => 1 + 4 + (4 + |p|)
    case Rmdir(p) => 1 + 4 + (4 + |p|)
    case Opendir(p) => 1 + 4 + (4 + |p|)
    case Readdir(h) => 1 + 4 + (4 + |h|)
    case Close(h) => 1 + 4 + (4 + |h|)
    case Stat(p) => 1 + 4 + (4 + |p|)
    case Lstat(p) => 1 + 4 + (4 + |p|)
    case Readlink(p) => 1 + 4 + (4 + |p|)
    case CanonicalizePath(p) => 1 + 4 + (4 + |p|)
    case Mkdir(p, _) => 1 + 4 + (4 + |p|) + (4 + 4)
    case Chmod(p, _) => 1 + 4 + (4 + |p|) + (4 + 4)
    case Chown(p, _, _) => 1 + 4 + (4 + |p|) + (4 + 4 + 4)
    case Setstat(p, attr) => 1 + 4 + (4 + |p|) + AttrsLength(attr)
    case Open(p, _, _) => 1 + 4 + (4 + |p|) + 4 + (4 + 4)
    case Rename(o, n) => 1 + 4 + (4 + |o|) + (4 + |n|)
    case Symlink(t, d) => 1 + 4 + (4 + |t|) + (4 + |d|)
    case Read(h, _, _) => 1 + 4 + (4 + |h|) + 8 + 4
    case Write(h, _, data) => 1 + 4 + (4 + |h|) + 8 + (4 + |data|)
    case Hardlink(o, n) => 1 + 4 + (4 + |HARDLINK|) + (4 + |o|) + (4 + |n|)
    case ExpandPath(p) => 1 + 4 + (4 + |EXPAND_PATH|) + (4 + |p|)
    case HomeDirectory(u) => 1 + 4 + (4 + |HOME_DIRECTORY|) + (4 + |u|)
  }

  // ----- encoding

  method PutHeader(buf: MutableBuffer, size: u32, tp: byte, id: u32)
    requires buf.Valid()
    modifies buf, buf.data
    ensures buf.Valid() && Agree(buf.View(), old(buf.View()).Put(U32(size) + ([tp] + U32(id))))
    ensures buf.pos >= old(buf.pos) && forall i | buf.pos <= i < buf.data.Length :: buf.data[i] == old(buf.data[i])
  {
    hide *;
    ghost var o := buf.View();
    buf.PutU32(size);
    ghost var o1 := buf.View();
    buf.PutU8(tp);
    ghost var o2 := buf.View();
    buf.PutU32(id);
    PutPut(o1, [tp], U32(id));
    AgreeRefl(o1, o.Put(U32(size)));
    Chain(o, U32(size), o1, [tp] + U32(id), buf.View());
  }

  lemma AgreeRefl(x: Out, y: Out)
    requires x == y
    ensures Agree(x, y)
  {
  }

  lemma LengthIsBody(r: Request)
    ensures Length(r) == 5 + |Payload(r)|
  {
    hide U32, U64, Narrow, AttrsBytes;
  }

  /** Every encoder fills its allocation exactly: the sticky error stays clear, the cursor ends
      empty (`room` is what is left), and the bytes are the packet. */
  method Encode(r: Request, id: u32) returns (out: array<byte>, ec: Error, room: nat)
    ensures fresh(out) && out[..] == Packet(OpCode(r), id, Payload(r))
    ensures ec == NoError && room == 0
  {
    out := new byte[4 + Length(r)];
    var buf := new MutableBuffer(out, NoError);
    ghost var o := buf.View();
    PutHeader(buf, Narrow(Length(r)), OpCode(r), id);
    ghost var o1 := buf.View();
    PutPayload(buf, r);
    FilledPacket(o, o1, buf.View(), OpCode(r), id, Payload(r)) by {
      hide Payload, OpCode;
      LengthIsBody(r);
    }
    hide *;
    assert out[..out.Length] == out[..];
    ec, room := buf.ec, out.Length - buf.pos;
  }

  /** Header, then payload, into a buffer of exactly the right size. */
  lemma FilledPacket(o: Out, o1: Out, o2: Out, tp: byte, id: u32, payload: bytes)
    requires o == Out([], 9 + |payload|, NoError)
    requires Agree(o1, o.Put(U32(Narrow(5 + |payload|)) + ([tp] + U32(id))))
    requires Agree(o2, o1.Put(payload))
    ensures o2 == Out(Packet(tp, id, payload), 0, NoError)
  {
    var h := U32(Narrow(5 + |payload|)) + ([tp] + U32(id));
    PacketIsHeaderAndPayload(tp, id, payload);
    hide Narrow, U32, Packet;
    Chain(o, h, o1, payload, o2);
  }

  predicate OneString(r: Request) {
    r.Unlink? || r.Rmdir? || r.Opendir? || r.Readdir? || r.Close? || r.Stat? || r.Lstat? || r.Readlink?
    || r.CanonicalizePath?
  }

  /** The path or handle of an operation that sends nothing else. */
  function SoleString(r: Request): (s: bytes)
    requires OneString(r)
    ensures Payload(r) == Str(s)
  {
    if r.Readdir? || r.Close? then r.handle else r.path
  }

  /** The puts of each operation after the three common ones. */
  method PutPayload(buf: MutableBuffer, r: Request)
    requires buf.Valid()
    modifies buf, buf.data
    ensures buf.Valid() && Agree(buf.View(), old(buf.View()).Put(Payload(r)))
  {
    hide U32, U64, Narrow, AttrsBytes, Out.Put, Out.PutStr, Str;
    ghost var o := buf.View();
    match r {
      case Rename(a, b) => PutTwoStr(buf, a, b);
      case Symlink(a, b) => PutTwoStr(buf, a, b);
      case Mkdir(p, mode) => PutPathAndMode(buf, p, mode);
      case Chmod(p, mode) => PutPathAndMode(buf, p, mode);
      case Chown(p, owner, group) => PutOwner(buf, p, owner, group);
      case Setstat(p, attr) =>
        buf.PutStr(p);
        ghost var o1 := buf.View();
        PutStrIsPut(o, p);
        WriteAttrs(buf, attr);
        Chain(o, Str(p), o1, AttrsBytes(attr), buf.View());
      case Open(p, pflags, mode) => PutOpen(buf, p, pflags, mode);
      case Read(h, offset, size) => PutRead(buf, h, offset, size);
      case Write(h, offset, data) => PutWrite(buf, h, offset, data);
      case Hardlink(a, b) =>
        buf.PutStr(HARDLINK);
        ghost var o1 := buf.View();
        PutStrIsPut(o, HARDLINK);
        PutTwoStr(buf, a, b);
        Chain(o, Str(HARDLINK), o1, Str(a) + Str(b), buf.View());
      case ExpandPath(p) => PutTwoStr(buf, EXPAND_PATH, p);
      case HomeDirectory(u) => PutTwoStr(buf, HOME_DIRECTORY, u);
      case _ =>
        var only := SoleString(r);
        hide Payload;
        buf.PutStr(only);
        PutStrIsPut(o, only);
    }
  }

  method PutOwner(buf: MutableBuffer, p: bytes, owner: u32, group: u32)
    requires buf.Valid()
    modifies buf, buf.data
    ensures buf.Valid()
    ensures Agree(buf.View(), old(buf.View()).Put(Str(p) + (U32(ATTR_UIDGID) + (U32(owner) + U32(group)))))
  {
    hide U32, U64, Narrow, Out.Put, Out.PutStr, Str;
    ghost var o := buf.View();
    buf.PutStr(p);
    ghost var o1 := buf.View();
    PutStrIsPut(o, p);
    buf.PutU32(ATTR_UIDGID);
    ghost var o2 := buf.View();
    AgreeRefl(o2, o1.Put(U32(ATTR_UIDGID)));
    buf.PutU32(owner);
    buf.PutU32(group);
    PutPut(o2, U32(owner), U32(group));
    Chain(o1, U32(ATTR_UIDGID), o2, U32(owner) + U32(group), buf.View());
    Chain(o, Str(p), o1, U32(ATTR_UIDGID) + (U32(owner) + U32(group)), buf.View());
  }

  method PutOpen(buf: MutableBuffer, p: bytes, pflags: u32, mode: u32)
    requires buf.Valid()
    modifies buf, buf.data
    ensures buf.Valid()
    ensures Agree(buf.View(), old(buf.View()).Put(Str(p) + (U32(pflags) + (U32(ATTR_PERMISSIONS) + U32(mode)))))
  {
    hide U32, U64, Narrow, Out.Put, Out.PutStr, Str;
    ghost var o := buf.View();
    buf.PutStr(p);
    ghost var o1 := buf.View();
    PutStrIsPut(o, p);
    buf.PutU32(pflags);
    ghost var o2 := buf.View();
    AgreeRefl(o2, o1.Put(U32(pflags)));
    buf.PutU32(ATTR_PERMISSIONS);
    buf.PutU32(mode);
    PutPut(o2, U32(ATTR_PERMISSIONS), U32(mode));
    Chain(o1, U32(pflags), o2, U32(ATTR_PERMISSIONS) + U32(mode), buf.View());
    Chain(o, Str(p), o1, U32(pflags) + (U32(ATTR_PERMISSIONS) + U32(mode)), buf.View());
  }

  method PutRead(buf: MutableBuffer, h: bytes, offset: u64, size: nat)
    requires buf.Valid()
    modifies buf, buf.data
    ensures buf.Valid() && Agree(buf.View(), old(buf.View()).Put(Str(h) + (U64(offset) + U32(Narrow(size)))))
  {
    hide U32, U64, Narrow, Out.Put, Out.PutStr, Str;
    ghost var o := buf.View();
    buf.PutStr(h);
    ghost var o1 := buf.View();
    PutStrIsPut(o, h);
    buf.PutU64(offset);
    buf.PutU32(Narrow(size));
    PutPut(o1, U64(offset), U32(Narrow(size)));
    Chain(o, Str(h), o1, U64(offset) + U32(Narrow(size)), buf.View());
  }

  method PutWrite(buf: MutableBuffer, h: bytes, offset: u64, data: bytes)
    requires buf.Valid()
    modifies buf, buf.data
    ensures buf.Valid() && Agree(buf.View(), old(buf.View()).Put(Str(h) + (U64(offset) + Str(data))))
  {
    hide U32, U64, Narrow, Out.Put, Out.PutStr, Str;
    ghost var o := buf.View();
    buf.PutStr(h);
    ghost var o1 := buf.View();
    PutStrIsPut(o, h);
    buf.PutU64(offset);
    ghost var o2 := buf.View();
    AgreeRefl(o2, o1.Put(U64(offset)));
    buf.PutStr(data);
    PutStrIsPut(o2, data);
    Chain(o1, U64(offset), o2, Str(data), buf.View());
    Chain(o, Str(h), o1, U64(offset) + Str(data), buf.View());
  }

  method PutTwoStr(buf: MutableBuffer, a: bytes, b: bytes)
    requires buf.Valid()
    modifies buf, buf.data
    ensures buf.Valid() && Agree(buf.View(), old(buf.View()).Put(Str(a) + Str(b)))
  {
    ghost var o := buf.View();
    buf.PutStr(a);
    ghost var o1 := buf.View();
    buf.PutStr(b);
    hide *;
    PutStrIsPut(o, a);
    PutStrIsPut(o1, b);
    Chain(o, Str(a), o1, Str(b), buf.View());
  }

  method PutPathAndMode(buf: MutableBuffer, p: bytes, mode: u32)
    requires buf.Valid()
    modifies buf, buf.data
    ensures buf.Valid() && Agree(buf.View(), old(buf.View()).Put(Str(p) + (U32(ATTR_PERMISSIONS) + U32(mode))))
  {
    ghost var o := buf.View();
    buf.PutStr(p);
    ghost var o1 := buf.View();
    buf.PutU32(ATTR_PERMISSIONS);
    buf.PutU32(mode);
    hide *;
    PutStrIsPut(o, p);
    PutPut(o1, U32(ATTR_PERMISSIONS), U32(mode));
    Chain(o, Str(p), o1, U32(ATTR_PERMISSIONS) + U32(mode), buf.View());
  }
}
