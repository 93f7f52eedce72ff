/** The request side of serve_worker: which backend call a frame turns into. */
module Dispatch {
  import opened Wire
  import opened Cursors
  import opened Writers
  import opened Attrs
  import opened Packets
  import opened Requests

  /** The virtual functions of sftp::server that serve_worker calls. */
  datatype Call =
    | SOpen(path: bytes, pflags: u32, mode: u32)
    | SClose(handle: bytes)
    | SReadAt(handle: bytes, offset: u64, len: nat)
    | SWriteAt(handle: bytes, offset: u64, data: bytes)
    | SLstat(path: bytes)
    | SFstat(handle: bytes)
    | SSetstat(path: bytes, attr: Attributes)
    | SFsetstat(handle: bytes, attr: Attributes)
    | SOpendir(path: bytes)
    | SReaddir(handle: bytes)
    | SUnlink(path: bytes)
    | SMkdir(path: bytes, mode: u32)
    | SRmdir(path: bytes)
    | SCanonicalizePath(path: bytes)
    | SStat(path: bytes)
    | SRename(oldpath: bytes, newpath: bytes)
    | SReadlink(path: bytes)
    | SSymlink(target: bytes, dest: bytes)
    | SHardlink(oldpath: bytes, newpath: bytes)
    | SExpandPath(path: bytes)

  /** Call the backend; answer with this error instead; or end the worker. */
  datatype Decision = Invoke(call: Call) | Reject(ec: Error) | Quit

  function Guard(ec: Error, call: Call): (d: Decision) {
    if ec.Failed() then Reject(ec) else Invoke(call)
  }

  /** The switch over the opcode. `cb` stands behind the request id; the error it carries is
      the branch's own r.ec, clear on entry. Returned with the cursor the branch leaves. */
  function Decide(tp: byte, cb: Cursor): (r: (Decision, Cursor)) {
    if tp == 3 then
      var (fn, c1) := cb.TakeStr();
      var (pflags, c2) := c1.TakeU32();
      var (attr, c3) := TakeAttrs(c2);
      (Guard(c3.ec, SOpen(fn, pflags, attr.permissions)), c3)
    else if tp == 5 then
      var (h, c1) := cb.TakeStr();
      var (offset, c2) := c1.TakeU64();
      var (len, c3) := c2.TakeU32();
      (Guard(if len > LIMIT then BAD else c3.ec, SReadAt(h, offset, len)), c3)
    else if tp == 6 then
      var (h, c1) := cb.TakeStr();
      var (offset, c2) := c1.TakeU64();
      var (data, c3) := c2.TakeStr();
      (Guard(if |data| > LIMIT then BAD else c3.ec, SWriteAt(h, offset, data)), c3)
    else if tp == 9 || tp == 10 || tp == 14 then
      var (p, c1) := cb.TakeStr();
      var (attr, c2) := TakeAttrs(c1);
      (Guard(c2.ec,
             if tp == 9 then SSetstat(p, attr)
             else if tp == 10 then SFsetstat(p, attr)
             else SMkdir(p, if Has(attr.flags, ATTR_PERMISSIONS) then attr.permissions else DEFAULT_MODE)),
       c2)
    else if tp == 18 || tp == 20 then
      DecideTwo(tp == 18, cb)
    else if tp == 200 then
      var (name, c1) := cb.TakeStr();
      if c1.ec.Failed() then (Reject(c1.ec), c1)
      else if name == HARDLINK then
        var (o, c2) := c1.TakeStr();
        var (n, c3) := c2.TakeStr();
        (Guard(c3.ec, SHardlink(o, n)), c3)
      else if name == EXPAND_PATH then
        var (p, c2) := c1.TakeStr();
        (Guard(c2.ec, SExpandPath(p)), c2)
      else (Reject(Sftp(SSH_FX_OP_UNSUPPORTED)), c1)
    else
      var (s, c1) := cb.TakeStr();
      match OneOperand(tp, s)
      case Invoke(call) => (Guard(c1.ec, call), c1)
      case other => (other, cb)
  }

  function DecideTwo(rename: bool, cb: Cursor): (r: (Decision, Cursor)) {
    var (a, c1) := cb.TakeStr();
    var (b, c2) := c1.TakeStr();
    (Guard(c2.ec, if rename then SRename(a, b) else SSymlink(a, b)), c2)
  }

  /** The branches that take one string, and the default branch. */
  function OneOperand(tp: byte, s: bytes): (d: Decision) {
    match tp
    case 4 => Invoke(SClose(s))
    case 7 => Invoke(SLstat(s))
    case 8 => Invoke(SFstat(s))
    case 11 => Invoke(SOpendir(s))
    case 12 => Invoke(SReaddir(s))
    case 13 => Invoke(SUnlink(s))
    case 15 => Invoke(SRmdir(s))
    case 16 => Invoke(SCanonicalizePath(s))
    case 17 => Invoke(SStat(s))
    case 19 => Invoke(SReadlink(s))
    case _ => Quit
  }

  /** The same switch, advancing the cursor in place. */
  method Decode(tp: byte, cb: ConstBuffer) returns (d: Decision)
    modifies cb
    ensures (d, cb.View()) == Decide(tp, old(cb.View()))
  {
    hide Cursor.TakeStr, Cursor.TakeU32, Cursor.TakeU64, TakeAttrs, Guard, OneOperand;
    if tp == 3 {
      var fn := cb.TakeStr();
      var pflags := cb.TakeU32();
      var attr := ReadAttrs(cb);
      d := Guard(cb.ec, SOpen(fn, pflags, attr.permissions));
    } else if tp == 5 {
      var h := cb.TakeStr();
      var offset := cb.TakeU64();
      var len := cb.TakeU32();
      d := Guard(if len > LIMIT then BAD else cb.ec, SReadAt(h, offset, len));
    } else if tp == 6 {
      var h := cb.TakeStr();
      var offset := cb.TakeU64();
      var data := cb.TakeStr();
      d := Guard(if |data| > LIMIT then BAD else cb.ec, SWriteAt(h, offset, data));
    } else if tp == 9 || tp == 10 || tp == 14 {
      var p := cb.TakeStr();
      var attr := ReadAttrs(cb);
      if tp == 9 {
        d := Guard(cb.ec, SSetstat(p, attr));
      } else if tp == 10 {
        d := Guard(cb.ec, SFsetstat(p, attr));
      } else {
        var mode := if Has(attr.flags, ATTR_PERMISSIONS) then attr.permissions else DEFAULT_MODE;
        d := Guard(cb.ec, SMkdir(p, mode));
      }
    } else if tp == 18 {
      var oldpath := cb.TakeStr();
      var newpath := cb.TakeStr();
      d := Guard(cb.ec, SRename(oldpath, newpath));
    } else if tp == 20 {
      var target := cb.TakeStr();
      var dest := cb.TakeStr();
      d := Guard(cb.ec, SSymlink(target, dest));
    } else if tp == 200 {
      var name := cb.TakeStr();
      if cb.ec.Failed() {
        d := Reject(cb.ec);
      } else if name == HARDLINK {
        var oldpath := cb.TakeStr();
        var newpath := cb.TakeStr();
        d := Guard(cb.ec, SHardlink(oldpath, newpath));
      } else if name == EXPAND_PATH {
        var path := cb.TakeStr();
        d := Guard(cb.ec, SExpandPath(path));
      } else {
        d := Reject(Sftp(SSH_FX_OP_UNSUPPORTED));
      }
    } else if OneOperand(tp, []).Quit? {
      KnownOpcode(tp, cb.View().TakeStr().0);
      d := Quit;
    } else {
      var s := cb.TakeStr();
      KnownOpcode(tp, s);
      d := Guard(cb.ec, OneOperand(tp, s).call);
    }
  }

  lemma KnownOpcode(tp: byte, s: bytes)
    ensures OneOperand(tp, s).Quit? <==> OneOperand(tp, []).Quit?
    ensures !OneOperand(tp, s).Reject?
  {
  }

  // ----- the client's intention

  /** The backend call an operation of the client stands for. */
  function Intended(r: Request): (c: Call)
    requires !r.HomeDirectory?
  {
    match r
    case Open(p, pflags, mode) => SOpen(p, pflags, mode)
    case Close(h) => SClose(h)
    case Read(h, offset, size) => SReadAt(h, offset, size)
    case Write(h, offset, data) => SWriteAt(h, offset, data)
    case Lstat(p) => SLstat(p)
    case Setstat(p, attr) => SSetstat(p, attr)
    case Chmod(p, mode) => SSetstat(p, PERMISSIONS_ONLY.(permissions := mode))
    case Chown(p, owner, group) => SSetstat(p, UIDGID_ONLY.(uid := owner, gid := group))
    case Opendir(p) => SOpendir(p)
    case Readdir(h) => SReaddir(h)
    case Unlink(p) => SUnlink(p)
    case Mkdir(p, mode) => SMkdir(p, mode)
    case Rmdir(p) => SRmdir(p)
    case CanonicalizePath(p) => SCanonicalizePath(p)
    case Stat(p) => SStat(p)
    case Rename(o, n) => SRename(o, n)
    case Readlink(p) => SReadlink(p)
    case Symlink(t, d) => SSymlink(t, d)
    case Hardlink(o, n) => SHardlink(o, n)
    case ExpandPath(p) => SExpandPath(p)
  }

  /** What a caller can check beforehand: transfers within the server's limit, attributes
      without an extended list and without values whose flag is clear. */
  predicate Deliverable(r: Request) {
    match r
    case Read(_, _, size) => size <= LIMIT
    case Write(_, _, data) => |data| <= LIMIT
    case Setstat(_, attr) => !Has(attr.flags, ATTR_EXTENDED) && Mask(attr) == attr
    case HomeDirectory(_) => false
    case _ => true
  }

  function Received(r: Request): (x: (Decision, Cursor)) {
    Decide(OpCode(r), Cursor(Payload(r), NoError))
  }

  /** For every operation whose packet fits a 32-bit size: the server calls the backend with
      exactly the client's arguments and consumes the whole packet, if and only if the
      operation is deliverable. */
  lemma RequestRoundTrip(r: Request)
    requires Length(r) < TWO_32
    ensures (!r.HomeDirectory? && Received(r) == (Invoke(Intended(r)), Cursor([], NoError)))
       <==> Deliverable(r)
  {
    LengthIsBody(r);
    var c := Cursor(Payload(r), NoError);
    hide Received, Intended, Payload, Length, Has, Mask;
    match r {
      case Open(p, pflags, mode) => OpenRoundTrip(r, c);
      case Read(h, offset, size) => ReadRoundTrip(r, c);
      case Write(h, offset, data) => WriteRoundTrip(r, c);
      case Mkdir(p, mode) => AttrRoundTrip(r, c, PERMISSIONS_ONLY.(permissions := mode));
      case Chmod(p, mode) => AttrRoundTrip(r, c, PERMISSIONS_ONLY.(permissions := mode));
      case Chown(p, owner, group) => AttrRoundTrip(r, c, UIDGID_ONLY.(uid := owner, gid := group));
      case Setstat(p, attr) => AttrRoundTrip(r, c, attr);
      case Rename(_, _) => TwoRoundTrip(r, c);
      case Symlink(_, _) => TwoRoundTrip(r, c);
      case Hardlink(_, _) => ExtendedRoundTrip(r, c);
      case ExpandPath(_) => ExtendedRoundTrip(r, c);
      case HomeDirectory(_) =>
      case _ => OneRoundTrip(r, c);
    }
  }

  lemma TwoRoundTrip(r: Request, c: Cursor)
    requires (r.Rename? || r.Symlink?) && c == Cursor(Payload(r), NoError) && 5 + |Payload(r)| < TWO_32
    ensures Received(r) == (Invoke(Intended(r)), Cursor([], NoError))
  {
    var a := if r.Rename? then r.oldpath else r.target;
    var b := if r.Rename? then r.newpath else r.dest;
    var tp := OpCode(r);
    assert tp == (if r.Rename? then 18 else 20) && Payload(r) == Str(a) + Str(b);
    DecideIsTwo(tp, c);
    hide Decide, Cursor.TakeStr, Str, OpCode, Payload;
    TakeTwoOf(c, a, b);
  }

  lemma DecideIsTwo(tp: byte, cb: Cursor)
    requires tp == 18 || tp == 20
    ensures Decide(tp, cb) == DecideTwo(tp == 18, cb)
  {
    hide DecideTwo;
  }

  lemma ExtendedRoundTrip(r: Request, c: Cursor)
    requires (r.Hardlink? || r.ExpandPath?) && c == Cursor(Payload(r), NoError) && 5 + |Payload(r)| < TWO_32
    ensures Received(r) == (Invoke(Intended(r)), Cursor([], NoError))
  {
    hide Cursor.TakeStr;
    if r.Hardlink? {
      var t := Str(r.oldpath) + Str(r.newpath);
      ReadName(c, HARDLINK, t);
      TakeTwoOf(c.(rest := t), r.oldpath, r.newpath);
    } else {
      ReadName(c, EXPAND_PATH, Str(r.path));
      TakeLastOf(c.(rest := Str(r.path)), r.path);
    }
  }

  lemma TakeLastOf(c: Cursor, s: bytes)
    requires c.rest == Str(s) && !c.ec.Failed() && |s| < TWO_32
    ensures c.TakeStr() == (s, c.(rest := []))
  {
    assert c.rest == Str(s) + [];
    TakeStrOf(c, s, []);
  }

  lemma TakeTwoOf(c: Cursor, a: bytes, b: bytes)
    requires c.rest == Str(a) + Str(b) && !c.ec.Failed() && |a| < TWO_32 && |b| < TWO_32
    ensures c.TakeStr() == (a, c.(rest := Str(b)))
    ensures c.TakeStr().1.TakeStr() == (b, c.(rest := []))
  {
    TakeStrOf(c, a, Str(b));
    TakeLastOf(c.(rest := Str(b)), b);
  }

  lemma ReadName(c: Cursor, name: bytes, tail: bytes)
    requires c.rest == Str(name) + tail && !c.ec.Failed() && |name| < TWO_32
    ensures c.TakeStr() == (name, c.(rest := tail))
  {
    TakeStrOf(c, name, tail);
  }

  lemma OneRoundTrip(r: Request, c: Cursor)
    requires c == Cursor(Payload(r), NoError) && 5 + |Payload(r)| < TWO_32
    requires OneString(r)
    ensures Received(r) == (Invoke(Intended(r)), Cursor([], NoError))
  {
    var s, tp := SoleString(r), OpCode(r);
    OneShape(r);
    KnownOpcode(tp, s);
    DecideIsOne(tp, c);
    hide Decide, Cursor.TakeStr, Str, OpCode, Payload, OneOperand, Intended, SoleString;
    TakeLastOf(c, s);
  }

  lemma OneShape(r: Request)
    requires OneString(r)
    ensures OneOperand(OpCode(r), SoleString(r)) == Invoke(Intended(r))
    ensures OpCode(r) !in {3, 5, 6, 9, 10, 14, 18, 20, 200}
  {
    hide Str, Payload;
  }

  lemma DecideIsOne(tp: byte, cb: Cursor)
    requires tp !in {3, 5, 6, 9, 10, 14, 18, 20, 200} && !OneOperand(tp, []).Quit?
    ensures var (s, c1) := cb.TakeStr();
      OneOperand(tp, s).Invoke? && Decide(tp, cb) == (Guard(c1.ec, OneOperand(tp, s).call), c1)
  {
    hide Cursor.TakeStr, Guard, OneOperand;
    KnownOpcode(tp, cb.TakeStr().0);
  }

  lemma LastU32Of(c: Cursor, n: u32)
    requires c.rest == U32(n) && !c.ec.Failed()
    ensures c.TakeU32() == (n, c.(rest := []))
  {
    assert c.rest == U32(n) + [];
    TakeU32Of(c, n, []);
  }

  /** READ for any buffer: the length arrives in 32 bits and is refused beyond the limit. */
  lemma ReadReceived(r: Request)
    requires r.Read? && 5 + |Payload(r)| < TWO_32
    ensures Received(r)
         == (if Narrow(r.size) > LIMIT then Reject(BAD) else Invoke(SReadAt(r.handle, r.offset, Narrow(r.size))),
             Cursor([], NoError))
  {
    hide Cursor.TakeStr, Cursor.TakeU64, Cursor.TakeU32, Str, U64, U32, Narrow;
    var c := Cursor(Payload(r), NoError);
    var t := U64(r.offset) + U32(Narrow(r.size));
    ReadName(c, r.handle, t);
    TakeU64Of(c.(rest := t), r.offset, U32(Narrow(r.size)));
    LastU32Of(c.(rest := U32(Narrow(r.size))), Narrow(r.size));
  }

  lemma ReadRoundTrip(r: Request, c: Cursor)
    requires r.Read? && c == Cursor(Payload(r), NoError) && 5 + |Payload(r)| < TWO_32
    ensures Received(r) == (Invoke(Intended(r)), Cursor([], NoError)) <==> r.size <= LIMIT
  {
    hide Received, Narrow, Payload;
    ReadReceived(r);
    NarrowKeeps(r.size);
  }

  lemma NarrowKeeps(n: nat)
    ensures Narrow(n) == n <==> n < TWO_32
  {
  }

  lemma WriteRoundTrip(r: Request, c: Cursor)
    requires r.Write? && c == Cursor(Payload(r), NoError) && 5 + |Payload(r)| < TWO_32
    ensures Received(r) == (Invoke(Intended(r)), Cursor([], NoError)) <==> |r.data| <= LIMIT
  {
    var t := U64(r.offset) + Str(r.data);
    ReadName(c, r.handle, t);
    TakeU64Of(c.(rest := t), r.offset, Str(r.data));
    TakeLastOf(c.(rest := Str(r.data)), r.data);
    hide Cursor.TakeStr, Cursor.TakeU64, Cursor.TakeU32, Str, U64, U32;
  }

  lemma PermissionsOnly(mode: u32)
    ensures var a := PERMISSIONS_ONLY.(permissions := mode);
      AttrsBytes(a) == U32(ATTR_PERMISSIONS) + U32(mode) && Mask(a) == a && !Has(a.flags, ATTR_EXTENDED)
  {
  }

  lemma UidGidOnly(owner: u32, group: u32)
    ensures var a := UIDGID_ONLY.(uid := owner, gid := group);
      AttrsBytes(a) == U32(ATTR_UIDGID) + (U32(owner) + U32(group)) && Mask(a) == a && !Has(a.flags, ATTR_EXTENDED)
  {
  }

  /** A block at the very end of the packet is read back, masked, unless the EXTENDED bit asks
      for a list that is not there. */
  lemma LastAttrsOf(c: Cursor, a: Attributes)
    requires c.rest == AttrsBytes(a) && c.ec == NoError
    ensures !Has(a.flags, ATTR_EXTENDED) ==> TakeAttrs(c) == (Mask(a), Cursor([], NoError))
    ensures Has(a.flags, ATTR_EXTENDED) ==> TakeAttrs(c).1.ec == BAD
  {
    assert c.rest == AttrsBytes(a) + [];
    TakeFixedOf(c, a, []);
    hide TakeFixed;
  }

  lemma OpenRoundTrip(r: Request, c: Cursor)
    requires r.Open? && c == Cursor(Payload(r), NoError) && 5 + |Payload(r)| < TWO_32
    ensures Received(r) == (Invoke(Intended(r)), Cursor([], NoError))
  {
    var a := PERMISSIONS_ONLY.(permissions := r.mode);
    PermissionsOnly(r.mode);
    hide AttrsBytes, Mask;
    var t := U32(r.pflags) + AttrsBytes(a);
    ReadName(c, r.path, t);
    TakeU32Of(c.(rest := t), r.pflags, AttrsBytes(a));
    LastAttrsOf(c.(rest := AttrsBytes(a)), a);
    hide Cursor.TakeStr, Cursor.TakeU32, TakeAttrs, Str, U32;
  }

  lemma SetstatRefused(path: bytes, a: Attributes)
    requires |path| + 13 < TWO_32 && Has(a.flags, ATTR_EXTENDED)
    ensures Received(Setstat(path, a)).0 == Reject(BAD)
  {
    hide AttrsBytes, Cursor.TakeStr, TakeAttrs, Str, Mask, Has;
    var c := Cursor(Payload(Setstat(path, a)), NoError);
    ReadName(c, path, AttrsBytes(a));
    LastAttrsOf(c.(rest := AttrsBytes(a)), a);
  }

  /** The extended flag alone makes the server refuse the request. */
  lemma ExtendedRefused(path: bytes)
    requires |path| + 13 < TWO_32
    ensures Received(Setstat(path, NO_ATTRS.(flags := ATTR_EXTENDED))).0 == Reject(BAD)
  {
    var a := NO_ATTRS.(flags := ATTR_EXTENDED);
    assert Has(a.flags, ATTR_EXTENDED);
    hide Has;
    SetstatRefused(path, a);
  }

  /** mkdir, chmod, chown and setstat: a path and an attribute block. */
  lemma AttrRoundTrip(r: Request, c: Cursor, a: Attributes)
    requires c == Cursor(Payload(r), NoError) && 5 + |Payload(r)| < TWO_32
    requires match r
      case Mkdir(_, mode) => a == PERMISSIONS_ONLY.(permissions := mode)
      case Chmod(_, mode) => a == PERMISSIONS_ONLY.(permissions := mode)
      case Chown(_, owner, group) => a == UIDGID_ONLY.(uid := owner, gid := group)
      case Setstat(_, attr) => a == attr
      case _ => false
    ensures Received(r) == (Invoke(Intended(r)), Cursor([], NoError))
       <==> !Has(a.flags, ATTR_EXTENDED) && Mask(a) == a
    ensures !r.Setstat? ==> !Has(a.flags, ATTR_EXTENDED) && Mask(a) == a
  {
    hide AttrsBytes, Mask, Has, Cursor.TakeStr, TakeAttrs, Str, U32;
    match r {
      case Mkdir(_, mode) => PermissionsOnly(mode);
      case Chmod(_, mode) => PermissionsOnly(mode);
      case Chown(_, owner, group) => UidGidOnly(owner, group);
      case Setstat(_, _) =>
    }
    assert Payload(r) == Str(r.path) + AttrsBytes(a);
    ReadName(c, r.path, AttrsBytes(a));
    LastAttrsOf(c.(rest := AttrsBytes(a)), a);
  }

  // ----- frames of arbitrary bytes

  /** What a worker does with a packet: type and id, then the switch. An error in the header ends
      the worker once the branch is through. The result is the id for the reply, the decision, and
      the cursor the branch leaves. */
  function ParsePacket(body: bytes): (r: (u32, Decision, Cursor)) {
    var (tp, c1) := Cursor(body, NoError).TakeU8();
    var (id, c2) := c1.TakeU32();
    var (d, c3) := Decide(tp, c2.(ec := NoError));
    (id, if c2.ec.Failed() && !d.Invoke? then Quit else d, c3)
  }

  function HandleFrame(body: bytes): (d: Decision) {
    ParsePacket(body).1
  }

  function RequestId(body: bytes): (id: u32) {
    ParsePacket(body).0
  }

  /** The header is read back, and the switch starts behind it. */
  lemma ParseBody(tp: byte, id: u32, payload: bytes)
    ensures var (d, c) := Decide(tp, Cursor(payload, NoError));
      ParsePacket(Body(tp, id, payload)) == (id, d, c)
  {
    hide Decide, Body, Cursor.TakeU8, Cursor.TakeU32;
    TakeHeader(Body(tp, id, payload));
    BodyParts(tp, id, payload);
  }

  /** The id for the reply is the word behind the type; a packet that reaches the backend, or is
      refused, has one. */
  lemma RequestIdIs(body: bytes)
    requires !HandleFrame(body).Quit?
    ensures |body| >= 5 && RequestId(body) == IdIn(body)
  {
    if |body| < 5 {
      ShortFrameQuits(body);
    }
    TakeHeader(body);
    hide Decide, Cursor.TakeU8, Cursor.TakeU32;
  }

  /** From the bytes of the whole packet body: the server reads the client's id and calls the
      backend with exactly the client's arguments, and nothing is left over, if and only if the
      operation is deliverable. */
  lemma PacketRoundTrip(r: Request, id: u32)
    requires Length(r) < TWO_32
    ensures (!r.HomeDirectory?
             && ParsePacket(Body(OpCode(r), id, Payload(r))) == (id, Invoke(Intended(r)), Cursor([], NoError)))
       <==> Deliverable(r)
  {
    RequestRoundTrip(r);
    ParseBody(OpCode(r), id, Payload(r));
    hide Decide, ParsePacket, Body, Payload, Intended, Deliverable, Length, OpCode;
  }

  /** Whatever the opcode, a truncated header never reaches the backend and always ends the
      worker. */
  lemma ShortFrameQuits(body: bytes)
    requires |body| < 5
    ensures HandleFrame(body) == Quit
  {
    hide ReadU32;
    var (tp, c1) := Cursor(body, NoError).TakeU8();
    var (id, c2) := c1.TakeU32();
    assert c2.ec == BAD && |c2.rest| < 4;
    NothingFits(tp, c2.(ec := NoError));
    hide Decide;
  }

  lemma NothingFits(tp: byte, cb: Cursor)
    requires cb.ec == NoError && |cb.rest| < 4
    ensures !Decide(tp, cb).0.Invoke?
  {
    var c1 := cb.TakeStr().1;
    assert c1.ec == BAD;
    TakeAttrsTook(c1);
    TakeAttrsTook(c1.TakeU32().1);
    hide TakeAttrs;
  }
}
