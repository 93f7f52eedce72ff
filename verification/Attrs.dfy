/** File attributes and their ATTRS encoding, section 5 of draft-ietf-secsh-filexfer-02. */
module Attrs {
  import opened Wire
  import opened Cursors
  import opened Writers

  const ATTR_SIZE: u32 := 1
  const ATTR_UIDGID: u32 := 2
  const ATTR_PERMISSIONS: u32 := 4
  const ATTR_ACMODTIME: u32 := 8
  const ATTR_EXTENDED: u32 := 0x8000_0000

  /** `flags & bit` for a single bit. */
  predicate Has(flags: u32, bit: u32)
    requires bit > 0
  {
    flags / bit % 2 == 1
  }

  /** The members of struct attributes that the version 3 wire carries. */
  datatype Attributes = Attributes(flags: u32, size: u64, uid: u32, gid: u32,
                                   permissions: u32, atime: u32, mtime: u32)

  const NO_ATTRS: Attributes := Attributes(0, 0, 0, 0, 0, 0, 0)

  function AttrsLength(a: Attributes): (n: nat) {
    4 + (if Has(a.flags, ATTR_SIZE) then 8 else 0)
      + (if Has(a.flags, ATTR_UIDGID) then 8 else 0)
      + (if Has(a.flags, ATTR_PERMISSIONS) then 4 else 0)
      + (if Has(a.flags, ATTR_ACMODTIME) then 8 else 0)
  }

  function Opt(present: bool, s: bytes): (r: bytes) {
    if present then s else []
  }

  /** The attribute block put in front of `tail`. */
  function AttrsBefore(a: Attributes, tail: bytes): (r: bytes) {
    U32(a.flags) +
    (Opt(Has(a.flags, ATTR_SIZE), U64(a.size)) +
     (Opt(Has(a.flags, ATTR_UIDGID), U32(a.uid) + U32(a.gid)) +
      (Opt(Has(a.flags, ATTR_PERMISSIONS), U32(a.permissions)) +
       (Opt(Has(a.flags, ATTR_ACMODTIME), U32(a.atime) + U32(a.mtime)) + tail))))
  }

  function AttrsBytes(a: Attributes): (r: bytes)
    ensures |r| == AttrsLength(a)
  {
    AttrsBefore(a, [])
  }

  lemma AttrsBeforeIsConcat(a: Attributes, tail: bytes)
    ensures AttrsBefore(a, tail) == AttrsBytes(a) + tail
  {
    var x := Opt(Has(a.flags, ATTR_SIZE), U64(a.size));
    var y := Opt(Has(a.flags, ATTR_UIDGID), U32(a.uid) + U32(a.gid));
    var z := Opt(Has(a.flags, ATTR_PERMISSIONS), U32(a.permissions));
    var w := Opt(Has(a.flags, ATTR_ACMODTIME), U32(a.atime) + U32(a.mtime));
    Assoc5(U32(a.flags), x, y, z, w, tail);
  }

  lemma Assoc5(f: bytes, x: bytes, y: bytes, z: bytes, w: bytes, tail: bytes)
    ensures f + (x + (y + (z + (w + tail)))) == (f + (x + (y + (z + (w + []))))) + tail
  {
    assert w + [] == w;
  }

  /** What the receiver can know: members whose flag is clear read as zero. */
  function Mask(a: Attributes): (r: Attributes) {
    Attributes(a.flags,
               if Has(a.flags, ATTR_SIZE) then a.size else 0,
               if Has(a.flags, ATTR_UIDGID) then a.uid else 0,
               if Has(a.flags, ATTR_UIDGID) then a.gid else 0,
               if Has(a.flags, ATTR_PERMISSIONS) then a.permissions else 0,
               if Has(a.flags, ATTR_ACMODTIME) then a.atime else 0,
               if Has(a.flags, ATTR_ACMODTIME) then a.mtime else 0)
  }

  // ----- take_attrs

  function MaybeU32(c: Cursor, present: bool): (r: (u32, Cursor)) {
    if present then c.TakeU32() else (0, c)
  }

  function MaybeU64(c: Cursor, present: bool): (r: (u64, Cursor)) {
    if present then c.TakeU64() else (0, c)
  }

  /** The loop over extended pairs, which stops at the first error. */
  function SkipPairs(c: Cursor, count: nat): (r: Cursor)
    decreases count
  {
    if c.ec.Failed() || count == 0 then c
    else SkipPairs(SkipPair(c), count - 1)
  }

  function SkipPair(c: Cursor): (r: Cursor) {
    c.TakeStr().1.TakeStr().1
  }

  function SkipExtended(c: Cursor, flags: u32): (r: Cursor) {
    if Has(flags, ATTR_EXTENDED) then
      var (count, d) := c.TakeU32();
      SkipPairs(d, count)
    else c
  }

  function TakeFixed(c: Cursor): (r: (Attributes, Cursor)) {
    var (flags, c0) := c.TakeU32();
    var (size, c1) := MaybeU64(c0, Has(flags, ATTR_SIZE));
    var (uid, c2) := MaybeU32(c1, Has(flags, ATTR_UIDGID));
    var (gid, c3) := MaybeU32(c2, Has(flags, ATTR_UIDGID));
    var (permissions, c4) := MaybeU32(c3, Has(flags, ATTR_PERMISSIONS));
    var (atime, c5) := MaybeU32(c4, Has(flags, ATTR_ACMODTIME));
    var (mtime, c6) := MaybeU32(c5, Has(flags, ATTR_ACMODTIME));
    (Attributes(flags, size, uid, gid, permissions, atime, mtime), c6)
  }

  function TakeAttrs(c: Cursor): (r: (Attributes, Cursor)) {
    var (a, d) := TakeFixed(c);
    (a, SkipExtended(d, a.flags))
  }

  /** The body of take_attrs, in place, with its data-driven loop. */
  method ReadAttrs(buf: ConstBuffer) returns (a: Attributes)
    modifies buf
    ensures (a, buf.View()) == TakeAttrs(old(buf.View()))
  {
    var size, uid, gid, permissions, atime, mtime := 0, 0, 0, 0, 0, 0;
    var flags := buf.TakeU32();
    if Has(flags, ATTR_SIZE) {
      size := buf.TakeU64();
    }
    if Has(flags, ATTR_UIDGID) {
      uid := buf.TakeU32();
      gid := buf.TakeU32();
    }
    if Has(flags, ATTR_PERMISSIONS) {
      permissions := buf.TakeU32();
    }
    if Has(flags, ATTR_ACMODTIME) {
      atime := buf.TakeU32();
      mtime := buf.TakeU32();
    }
    a := Attributes(flags, size, uid, gid, permissions, atime, mtime);
    ReadExtended(buf, flags);
  }

  /** The tail of take_attrs: a count and that many ignored string pairs. */
  method ReadExtended(buf: ConstBuffer, flags: u32)
    modifies buf
    ensures buf.View() == SkipExtended(old(buf.View()), flags)
  {
    if Has(flags, ATTR_EXTENDED) {
      var count := buf.TakeU32();
      ReadPairs(buf, count);
    }
  }

  method ReadPairs(buf: ConstBuffer, count: u32)
    modifies buf
    ensures buf.View() == SkipPairs(old(buf.View()), count)
  {
    hide SkipPair;
    var i := 0;
    while !buf.ec.Failed() && i < count
      invariant i <= count
      invariant SkipPairs(buf.View(), count - i) == SkipPairs(old(buf.View()), count)
    {
      ReadPair(buf);
      i := i + 1;
    }
  }

  method ReadPair(buf: ConstBuffer)
    modifies buf
    ensures buf.View() == SkipPair(old(buf.View()))
  {
    var extendedType := buf.TakeStr();
    var extendedData := buf.TakeStr();
  }

  // ----- properties of reading

  lemma SkipPairTook(c: Cursor)
    ensures TookFrom(c, SkipPair(c), 8)
  {
    var d := c.TakeStr().1;
    TakeStrTook(c);
    TakeStrTook(d);
    hide Cursor.TakeStr;
    TookTrans(c, d, d.TakeStr().1, 4, 4);
  }

  /** The pair loop moves forward only, freezes on error, and every completed round eats at
      least eight bytes: the rounds are paid for by the data, not by the claimed count. */
  lemma {:induction false} SkipPairsTook(c: Cursor, count: nat)
    ensures TookFrom(c, SkipPairs(c, count), 8 * count)
    decreases count
  {
    hide SkipPair;
    if !c.ec.Failed() && count > 0 {
      SkipPairTook(c);
      SkipPairsTook(SkipPair(c), count - 1);
      TookTrans(c, SkipPair(c), SkipPairs(SkipPair(c), count - 1), 8, 8 * (count - 1));
    }
  }

  /** Iterations of the loop, a failing last one included. */
  function PairRounds(c: Cursor, count: nat): (n: nat)
    decreases count
  {
    if c.ec.Failed() || count == 0 then 0
    else 1 + PairRounds(SkipPair(c), count - 1)
  }

  lemma {:induction false} PairRoundsBounded(c: Cursor, count: nat)
    ensures 8 * PairRounds(c, count) <= |c.rest| + 8
    decreases count
  {
    hide SkipPair;
    if !c.ec.Failed() && count > 0 {
      SkipPairTook(c);
      PairRoundsBounded(SkipPair(c), count - 1);
    }
  }

  lemma MaybeU32Took(c: Cursor, present: bool)
    ensures TookFrom(c, MaybeU32(c, present).1, if present then 4 else 0)
  {
  }

  /** On any bytes at all: take_attrs only moves forward, freezes on error, and a success
      consumed at least the encoded length of what it returned, plus the count of an
      extended list when that flag is set. */
  lemma TakeAttrsTook(c: Cursor)
    ensures var (a, d) := TakeAttrs(c);
      TookFrom(c, d, AttrsLength(a) + if Has(a.flags, ATTR_EXTENDED) then 4 else 0)
  {
    TakeFixedTook(c);
    var (a, d) := TakeFixed(c);
    if Has(a.flags, ATTR_EXTENDED) {
      var (count, e) := d.TakeU32();
      assert TookFrom(d, e, 4);
      SkipPairsTook(e, count);
      TookTrans(d, e, SkipPairs(e, count), 4, 8 * count);
      TookTrans(c, d, SkipPairs(e, count), AttrsLength(a), 4 + 8 * count);
    }
  }

  lemma TakeFixedTook(c: Cursor)
    ensures TookFrom(c, TakeFixed(c).1, AttrsLength(TakeFixed(c).0))
  {
    var (flags, c0) := c.TakeU32();
    var (size, c1) := MaybeU64(c0, Has(flags, ATTR_SIZE));
    assert TookFrom(c0, c1, if Has(flags, ATTR_SIZE) then 8 else 0);
    var ids, perm, time := Has(flags, ATTR_UIDGID), Has(flags, ATTR_PERMISSIONS), Has(flags, ATTR_ACMODTIME);
    var c3 := TwoU32(c1, ids);
    var (permissions, c4) := MaybeU32(c3, perm);
    MaybeU32Took(c3, perm);
    var c6 := TwoU32(c4, time);
    assert TookFrom(c, c0, 4);
    var n := 4 + if Has(flags, ATTR_SIZE) then 8 else 0;
    TookTrans(c, c0, c1, 4, if Has(flags, ATTR_SIZE) then 8 else 0);
    TookTrans(c, c1, c3, n, if ids then 8 else 0);
    TookTrans(c, c3, c4, n + (if ids then 8 else 0), if perm then 4 else 0);
    TookTrans(c, c4, c6, n + (if ids then 8 else 0) + (if perm then 4 else 0), if time then 8 else 0);
  }

  lemma TwoU32(c: Cursor, present: bool) returns (e: Cursor)
    ensures e == MaybeU32(MaybeU32(c, present).1, present).1
    ensures TookFrom(c, e, if present then 8 else 0)
  {
    var d := MaybeU32(c, present).1;
    e := MaybeU32(d, present).1;
    MaybeU32Took(c, present);
    MaybeU32Took(d, present);
    TookTrans(c, d, e, if present then 4 else 0, if present then 4 else 0);
  }

  // ----- round trip

  lemma MaybeU32Of(c: Cursor, present: bool, n: u32, tail: bytes)
    requires c.rest == Opt(present, U32(n)) + tail && !c.ec.Failed()
    ensures MaybeU32(c, present) == (if present then n else 0, c.(rest := tail))
  {
    if present {
      TakeU32Of(c, n, tail);
    } else {
      assert c.rest == tail;
    }
  }

  lemma MaybePairOf(c: Cursor, present: bool, m: u32, n: u32, tail: bytes)
    requires c.rest == Opt(present, U32(m) + U32(n)) + tail && !c.ec.Failed()
    ensures MaybeU32(c, present) == (if present then m else 0, c.(rest := Opt(present, U32(n)) + tail))
    ensures MaybeU32(MaybeU32(c, present).1, present) == (if present then n else 0, c.(rest := tail))
  {
    var mid := Opt(present, U32(n)) + tail;
    assert c.rest == Opt(present, U32(m)) + mid;
    MaybeU32Of(c, present, m, mid);
    MaybeU32Of(c.(rest := mid), present, n, tail);
  }

  lemma TakeFixedOf(c: Cursor, a: Attributes, tail: bytes)
    requires c.rest == AttrsBytes(a) + tail && !c.ec.Failed()
    ensures TakeFixed(c) == (Mask(a), c.(rest := tail))
  {
    hide U32, U64, Cursor.TakeU32, Cursor.TakeU64, MaybeU32, AttrsBytes;
    AttrsBeforeIsConcat(a, tail);
    var ids, perm, time := Has(a.flags, ATTR_UIDGID), Has(a.flags, ATTR_PERMISSIONS), Has(a.flags, ATTR_ACMODTIME);
    var t4 := Opt(time, U32(a.atime) + U32(a.mtime)) + tail;
    var t3 := Opt(perm, U32(a.permissions)) + t4;
    var t1 := Opt(ids, U32(a.uid) + U32(a.gid)) + t3;
    var t0 := Opt(Has(a.flags, ATTR_SIZE), U64(a.size)) + t1;
    TakeU32Of(c, a.flags, t0);
    if Has(a.flags, ATTR_SIZE) {
      TakeU64Of(c.(rest := t0), a.size, t1);
    } else {
      assert t0 == t1;
    }
    MaybePairOf(c.(rest := t1), ids, a.uid, a.gid, t3);
    MaybeU32Of(c.(rest := t3), perm, a.permissions, t4);
    MaybePairOf(c.(rest := t4), time, a.atime, a.mtime, tail);
  }

  lemma TakeAttrsOf(c: Cursor, a: Attributes, tail: bytes)
    requires c.rest == AttrsBytes(a) + tail && !c.ec.Failed()
    requires !Has(a.flags, ATTR_EXTENDED)
    ensures TakeAttrs(c) == (Mask(a), c.(rest := tail))
  {
    TakeFixedOf(c, a, tail);
  }

  ghost predicate RoundTrips(a: Attributes) {
    forall tail: bytes ::
      TakeAttrs(Cursor(AttrsBytes(a) + tail, NoError)) == (Mask(a), Cursor(tail, NoError))
  }

  /** put_attrs writes the EXTENDED bit but never an extended list, so the block it writes is
      read back inside a larger message exactly when that bit is clear. */
  lemma AttrsRoundTrip(a: Attributes)
    ensures RoundTrips(a) <==> !Has(a.flags, ATTR_EXTENDED)
  {
    if Has(a.flags, ATTR_EXTENDED) {
      var c := Cursor(AttrsBytes(a) + [], NoError);
      TakeFixedOf(c, a, []);
      assert TakeAttrs(c).1.ec == BAD;
    } else {
      forall tail: bytes
        ensures TakeAttrs(Cursor(AttrsBytes(a) + tail, NoError)) == (Mask(a), Cursor(tail, NoError))
      {
        TakeAttrsOf(Cursor(AttrsBytes(a) + tail, NoError), a, tail);
      }
    }
  }

  // ----- put_attrs

  method WriteAttrs(buf: MutableBuffer, a: Attributes)
    requires buf.Valid()
    modifies buf, buf.data
    ensures buf.Valid() && Agree(buf.View(), old(buf.View()).Put(AttrsBytes(a)))
  {
    ghost var o0 := buf.View();
    buf.PutU32(a.flags);
    ghost var o1 := buf.View();
    if Has(a.flags, ATTR_SIZE) {
      buf.PutU64(a.size);
    }
    ghost var o2 := buf.View();
    if Has(a.flags, ATTR_UIDGID) {
      buf.PutU32(a.uid);
      buf.PutU32(a.gid);
    }
    ghost var o3 := buf.View();
    if Has(a.flags, ATTR_PERMISSIONS) {
      buf.PutU32(a.permissions);
    }
    ghost var o4 := buf.View();
    if Has(a.flags, ATTR_ACMODTIME) {
      buf.PutU32(a.atime);
      buf.PutU32(a.mtime);
    }
    PutBlocks(a, o0, o1, o2, o3, o4, buf.View());
  }

  lemma PutOpt(x: Out, present: bool, s: bytes, y: Out)
    requires if present then Agree(y, x.Put(s)) else y == x
    ensures Agree(y, x.Put(Opt(present, s)))
  {
    assert x.written + [] == x.written;
  }

  /** Writing a block and then another agrees with writing both, the tail first. */
  lemma Chain(x: Out, s: bytes, y: Out, t: bytes, z: Out)
    requires Agree(y, x.Put(s)) && Agree(z, y.Put(t))
    ensures Agree(z, x.Put(s + t))
  {
    AgreePut(y, x.Put(s), t);
    PutPut(x, s, t);
  }

  lemma PutBlocks(a: Attributes, o0: Out, o1: Out, o2: Out, o3: Out, o4: Out, o5: Out)
    requires o1 == o0.Put(U32(a.flags))
    requires o2 == if Has(a.flags, ATTR_SIZE) then o1.Put(U64(a.size)) else o1
    requires o3 == if Has(a.flags, ATTR_UIDGID) then o2.Put(U32(a.uid)).Put(U32(a.gid)) else o2
    requires o4 == if Has(a.flags, ATTR_PERMISSIONS) then o3.Put(U32(a.permissions)) else o3
    requires o5 == if Has(a.flags, ATTR_ACMODTIME) then o4.Put(U32(a.atime)).Put(U32(a.mtime)) else o4
    ensures Agree(o5, o0.Put(AttrsBytes(a)))
  {
    var x := Opt(Has(a.flags, ATTR_SIZE), U64(a.size));
    var y := Opt(Has(a.flags, ATTR_UIDGID), U32(a.uid) + U32(a.gid));
    var z := Opt(Has(a.flags, ATTR_PERMISSIONS), U32(a.permissions));
    var w := Opt(Has(a.flags, ATTR_ACMODTIME), U32(a.atime) + U32(a.mtime));
    PutOpt(o1, Has(a.flags, ATTR_SIZE), U64(a.size), o2);
    PutPut(o2, U32(a.uid), U32(a.gid));
    PutOpt(o2, Has(a.flags, ATTR_UIDGID), U32(a.uid) + U32(a.gid), o3);
    PutOpt(o3, Has(a.flags, ATTR_PERMISSIONS), U32(a.permissions), o4);
    PutPut(o4, U32(a.atime), U32(a.mtime));
    PutOpt(o4, Has(a.flags, ATTR_ACMODTIME), U32(a.atime) + U32(a.mtime), o5);
    assert w + [] == w;
    Chain(o3, z, o4, w, o5);
    Chain(o2, y, o3, z + w, o5);
    Chain(o1, x, o2, y + (z + w), o5);
    Chain(o0, U32(a.flags), o1, x + (y + (z + w)), o5);
  }
}
