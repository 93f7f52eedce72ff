/** The client's response records: what each `complete` makes of a frame, and the round trip
    from the backend's result to the caller. */
module Completions {
  import opened Wire
  import opened Cursors
  import opened Attrs
  import opened Replies

  function WrongType(ec: Error, expected: bool): (r: Error) {
    if !ec.Failed() && !expected then BAD else ec
  }

  /** ssh_fxp_status_response: a status word and, if anything follows, two strings. */
  function CompleteStatus(ec: Error, tp: byte, payload: bytes): (r: Error) {
    var (error, c) := Cursor(payload, WrongType(ec, tp == STATUS)).TakeU32();
    var d := if |c.rest| > 0 then c.TakeStr().1.TakeStr().1 else c;
    if !d.ec.Failed() && error != SSH_FX_OK then Sftp(error) else d.ec
  }

  /** The STATUS case of the records that expect something else. */
  function StatusInstead(payload: bytes): (r: Error) {
    var (error, c) := Cursor(payload, NoError).TakeU32();
    if !c.ec.Failed() && error != SSH_FX_OK then Sftp(error) else c.ec
  }

  function CompleteHandle(ec: Error, tp: byte, payload: bytes): (r: (Error, bytes)) {
    if !ec.Failed() && tp == STATUS then (StatusInstead(payload), [])
    else
      var e := WrongType(ec, tp == HANDLE);
      if e.Failed() then (e, []) else var (h, c) := Cursor(payload, e).TakeStr(); (c.ec, h)
  }

  function CompleteAttrs(ec: Error, tp: byte, payload: bytes): (r: (Error, Attributes)) {
    if !ec.Failed() && tp == STATUS then (StatusInstead(payload), NO_ATTRS)
    else
      var e := WrongType(ec, tp == ATTRS);
      if e.Failed() then (e, NO_ATTRS) else var (a, c) := TakeAttrs(Cursor(payload, e)); (c.ec, a)
  }

  /** The error, and the bytes copied to the front of a destination of `room` bytes. */
  function CompleteData(ec: Error, tp: byte, payload: bytes, room: nat): (r: (Error, bytes)) {
    if !ec.Failed() && tp == STATUS then
      var (error, c) := Cursor(payload, NoError).TakeU32();
      (if c.ec.Failed() then c.ec
       else if error == 1 then Eof
       else if error != SSH_FX_OK then Sftp(error) else NoError, [])
    else
      var e := WrongType(ec, tp == DATA);
      if e.Failed() then (e, [])
      else
        var (d, c) := Cursor(payload, e).TakeStr();
        (c.ec, if |d| < room then d else d[..room])
  }

  function CompleteName(ec: Error, tp: byte, payload: bytes): (r: (Error, bytes)) {
    if !ec.Failed() && tp == STATUS then (StatusInstead(payload), [])
    else
      var e := WrongType(ec, tp == NAME || tp == EXTENDED_REPLY);
      if e.Failed() then (e, [])
      else if tp == NAME then
        var (count, c) := Cursor(payload, e).TakeU32();
        var (n, d) := (if !c.ec.Failed() && count == 0 then c.(ec := BAD) else c).TakeStr();
        (d.ec, n)
      else
        var (n, c) := Cursor(payload, e).TakeStr();
        (c.ec, n)
  }

  function TakeEntry(c: Cursor): (r: (Entry, Cursor)) {
    var (fn, c1) := c.TakeStr();
    var (ln, c2) := c1.TakeStr();
    var (at, c3) := TakeAttrs(c2);
    (Entry(at, fn, ln), c3)
  }

  /** The loop of ssh_fxp_dir_entry_response: entries read before an error are kept. */
  function TakeEntries(c: Cursor, count: nat): (r: (seq<Entry>, Cursor))
    decreases count
  {
    if c.ec.Failed() || count == 0 then ([], c)
    else
      var (e, d) := TakeEntry(c);
      if d.ec.Failed() then ([], d)
      else
        var (es, f) := TakeEntries(d, count - 1);
        ([e] + es, f)
  }

  function CompleteEntries(ec: Error, tp: byte, payload: bytes): (r: (Error, seq<Entry>)) {
    if !ec.Failed() && tp == STATUS then (StatusInstead(payload), [])
    else
      var e := WrongType(ec, tp == NAME);
      if e.Failed() then (e, [])
      else
        var (count, c) := Cursor(payload, e).TakeU32();
        var d := if !c.ec.Failed() && count == 0 then c.(ec := BAD) else c;
        var (es, f) := TakeEntries(d, count);
        (f.ec, es)
  }

  /** The same, with the cursor and the caller's list updated in place. */
  method ReadEntries(ec: Error, tp: byte, payload: bytes, before: seq<Entry>)
    returns (result: Error, entries: seq<Entry>)
    ensures (result, entries) == (CompleteEntries(ec, tp, payload).0, before + CompleteEntries(ec, tp, payload).1)
  {
    hide TakeEntry, TakeEntries, Cursor.TakeU32;
    entries := before;
    assert before + [] == before;
    result := ec;
    if !result.Failed() && tp == STATUS {
      result := StatusInstead(payload);
      return;
    }
    if !result.Failed() && tp != NAME {
      result := BAD;
    }
    if !result.Failed() {
      var buf := new ConstBuffer(payload, result);
      var count := buf.TakeU32();
      if !buf.ec.Failed() && count == 0 {
        buf.ec := BAD;
      }
      var more := EntryLoop(buf, count);
      entries := entries + more;
      result := buf.ec;
    }
  }

  method EntryLoop(buf: ConstBuffer, total: u32) returns (entries: seq<Entry>)
    modifies buf
    ensures (entries, buf.View()) == TakeEntries(old(buf.View()), total)
  {
    hide TakeEntry;
    entries := [];
    var count: nat := total;
    assert [] + TakeEntries(buf.View(), total).0 == TakeEntries(buf.View(), total).0;
    while !buf.ec.Failed() && count > 0
      invariant 0 <= count <= total
      invariant var (es, f) := TakeEntries(buf.View(), count);
        TakeEntries(old(buf.View()), total) == (entries + es, f)
    {
      ghost var c := buf.View();
      var e := ReadEntry(buf);
      if buf.ec.Failed() {
        break;
      }
      assert entries + ([e] + TakeEntries(buf.View(), count - 1).0)
          == (entries + [e]) + TakeEntries(buf.View(), count - 1).0;
      entries := entries + [e];
      count := count - 1;
    }
    assert entries + [] == entries;
  }

  method ReadEntry(buf: ConstBuffer) returns (e: Entry)
    modifies buf
    ensures (e, buf.View()) == TakeEntry(old(buf.View()))
  {
    hide Cursor.TakeStr, TakeAttrs;
    var fn := buf.TakeStr();
    var ln := buf.TakeStr();
    var at := ReadAttrs(buf);
    e := Entry(at, fn, ln);
  }

  // ----- arbitrary payloads

  function Extended(es: seq<Entry>): (n: nat) {
    if es == [] then 0 else (if Has(es[0].attr.flags, ATTR_EXTENDED) then 1 else 0) + Extended(es[1..])
  }

  lemma TakeEntryTook(c: Cursor)
    ensures var (e, d) := TakeEntry(c);
      TookFrom(c, d, EntryLength(e) + if Has(e.attr.flags, ATTR_EXTENDED) then 4 else 0)
  {
    var (fn, c1) := c.TakeStr();
    var (ln, c2) := c1.TakeStr();
    TakeStrTook(c);
    TakeStrTook(c1);
    TakeAttrsTook(c2);
    hide Cursor.TakeStr, TakeAttrs, Has, AttrsLength;
  }

  /** On any payload and for any claimed count: the bytes consumed pay for every entry kept, and
      for a count word behind each attribute block that announces an extended list. */
  lemma {:induction false} TakeEntriesPays(c: Cursor, count: nat)
    ensures var (es, d) := TakeEntries(c, count);
      EntriesLength(es) + 4 * Extended(es) + |d.rest| <= |c.rest| && |es| <= count
    ensures TakeEntries(c, count).0 != [] ==> !c.ec.Failed()
    decreases count
  {
    hide TakeEntry, EntryLength, Has;
    if !c.ec.Failed() && count > 0 {
      TakeEntryTook(c);
      var (e, d) := TakeEntry(c);
      if !d.ec.Failed() {
        TakeEntriesPays(d, count - 1);
        assert ([e] + TakeEntries(d, count - 1).0)[1..] == TakeEntries(d, count - 1).0;
      }
    }
  }

  /** At least twelve bytes for each entry, whatever the count claims. */
  lemma {:induction false} EntriesAreLong(es: seq<Entry>)
    ensures 12 * |es| <= EntriesLength(es)
  {
    if es != [] {
      EntriesAreLong(es[1..]);
    }
  }

  lemma EntriesBounded(ec: Error, tp: byte, payload: bytes)
    ensures 12 * |CompleteEntries(ec, tp, payload).1| <= |payload|
  {
    var e := WrongType(ec, tp == NAME);
    var (count, c) := Cursor(payload, e).TakeU32();
    var d := if !c.ec.Failed() && count == 0 then c.(ec := BAD) else c;
    TakeEntriesPays(d, count);
    EntriesAreLong(TakeEntries(d, count).0);
    hide TakeEntries, EntriesLength;
  }

  // ----- round trips

  function Visible(e: Error): (r: Error) {
    if e.Failed() then Sftp(StatusOf(e)) else NoError
  }

  /** The status word is zero exactly for success, so no failure is ever reported as success. */
  lemma StatusZero(e: Error)
    ensures StatusOf(e) == SSH_FX_OK <==> !e.Failed()
  {
  }

  /** End of file, which ends directory reads, is reported for nothing else. */
  lemma StatusEof(e: Error)
    ensures StatusOf(e) == 1 <==> e == Sftp(1) || Is(e, CondEof)
  {
  }

  lemma StatusRoundTrip(e: Error, msg: bytes)
    requires Fits(RStatus(e, msg))
    ensures CompleteStatus(NoError, STATUS, ReplyPayload(RStatus(e, msg))) == Visible(e)
    ensures StatusInstead(ReplyPayload(RStatus(e, msg))) == Visible(e)
  {
    StatusZero(e);
    var c := Cursor(ReplyPayload(RStatus(e, msg)), NoError);
    var t := Str(msg) + Str([]);
    TakeU32Of(c, StatusOf(e), t);
    TakeStrOf(c.(rest := t), msg, Str([]));
    assert Str([]) == Str([]) + [];
    TakeStrOf(c.(rest := Str([])), [], []);
    hide StatusOf, Str, U32, Cursor.TakeStr, Cursor.TakeU32;
  }

  /** The same record, for each kind of response, reports success iff the backend did. */
  lemma FailureRoundTrip(e: Error, msg: bytes, room: nat)
    requires Fits(RStatus(e, msg))
    ensures var p := ReplyPayload(RStatus(e, msg));
      && CompleteHandle(NoError, STATUS, p) == (Visible(e), [])
      && CompleteAttrs(NoError, STATUS, p) == (Visible(e), NO_ATTRS)
      && CompleteName(NoError, STATUS, p) == (Visible(e), [])
      && CompleteEntries(NoError, STATUS, p) == (Visible(e), [])
      && CompleteData(NoError, STATUS, p, room)
         == (if StatusOf(e) == 1 then Eof else Visible(e), [])
  {
    StatusRoundTrip(e, msg);
    StatusZero(e);
    var t := Str(msg) + Str([]);
    TakeU32Of(Cursor(ReplyPayload(RStatus(e, msg)), NoError), StatusOf(e), t);
    hide StatusOf, Str, U32, Cursor.TakeStr, Cursor.TakeU32, StatusInstead, ReplyPayload;
  }

  lemma HandleRoundTrip(h: bytes)
    requires Fits(RHandle(h))
    ensures CompleteHandle(NoError, HANDLE, ReplyPayload(RHandle(h))) == (NoError, h)
  {
    assert Str(h) == Str(h) + [];
    TakeStrOf(Cursor(Str(h), NoError), h, []);
    hide Str, Cursor.TakeStr;
  }

  /** The bytes that fit the caller's buffer, out of the whole packet that READ builds. */
  lemma DataRoundTrip(d: bytes, room: nat)
    requires Fits(RData(d))
    ensures CompleteData(NoError, DATA, ReplyPayload(RData(d)), room)
         == (NoError, if |d| < room then d else d[..room])
  {
    assert Str(d) == Str(d) + [];
    TakeStrOf(Cursor(Str(d), NoError), d, []);
    hide Str, Cursor.TakeStr;
  }

  lemma AttrsReplyRoundTrip(a: Attributes)
    ensures CompleteAttrs(NoError, ATTRS, ReplyPayload(RAttrs(a))) == (NoError, Mask(a))
       <==> !Has(a.flags, ATTR_EXTENDED)
  {
    assert AttrsBytes(a) == AttrsBytes(a) + [];
    var c := Cursor(AttrsBytes(a), NoError);
    TakeFixedOf(c, a, []);
    hide TakeFixed, AttrsBytes, Mask;
    if Has(a.flags, ATTR_EXTENDED) {
      assert TakeAttrs(c).1.ec == BAD;
    }
  }

  lemma NameRoundTrip(n: bytes)
    requires Fits(RName(n))
    ensures CompleteName(NoError, NAME, ReplyPayload(RName(n))) == (NoError, n)
  {
    var c := Cursor(ReplyPayload(RName(n)), NoError);
    var t := Str([]) + U32(0);
    TakeU32Of(c, 1, Str(n) + t);
    TakeStrOf(c.(rest := Str(n) + t), n, t);
    hide Str, U32, Cursor.TakeU32, Cursor.TakeStr;
  }

  function MaskAll(es: seq<Entry>): (r: seq<Entry>)
    ensures |r| == |es|
  {
    if es == [] then [] else [es[0].(attr := Mask(es[0].attr))] + MaskAll(es[1..])
  }

  predicate Plain(es: seq<Entry>) {
    forall e <- es :: !Has(e.attr.flags, ATTR_EXTENDED)
  }

  lemma {:induction false} MaskKeepsLength(es: seq<Entry>)
    ensures EntriesLength(MaskAll(es)) == EntriesLength(es)
    ensures Extended(MaskAll(es)) == 0 <==> Plain(es)
  {
    if es != [] {
      MaskKeepsLength(es[1..]);
      var m := es[0].(attr := Mask(es[0].attr));
      assert m.attr.flags == es[0].attr.flags && EntryLength(m) == EntryLength(es[0]);
      hide Has, EntryLength, Mask;
      assert ([m] + MaskAll(es[1..]))[1..] == MaskAll(es[1..]);
      assert es == [es[0]] + es[1..];
    }
  }

  lemma TakeEntryOf(c: Cursor, e: Entry, tail: bytes)
    requires c.rest == EntryBytes(e) + tail && c.ec == NoError
    requires |e.name| < TWO_32 && |e.longName| < TWO_32 && !Has(e.attr.flags, ATTR_EXTENDED)
    ensures TakeEntry(c) == (e.(attr := Mask(e.attr)), c.(rest := tail))
  {
    hide Str, AttrsBytes, Cursor.TakeStr, TakeAttrs;
    var t2 := AttrsBytes(e.attr) + tail;
    var t1 := Str(e.longName) + t2;
    assert c.rest == Str(e.name) + t1;
    TakeStrOf(c, e.name, t1);
    TakeStrOf(c.(rest := t1), e.longName, t2);
    TakeAttrsOf(c.(rest := t2), e.attr, tail);
  }

  lemma {:induction false} TakeEntriesOf(c: Cursor, es: seq<Entry>, tail: bytes)
    requires c.rest == EntriesBytes(es) + tail && c.ec == NoError
    requires EntriesLength(es) < TWO_32 && Plain(es)
    ensures TakeEntries(c, |es|) == (MaskAll(es), c.(rest := tail))
    decreases |es|
  {
    hide TakeEntry, EntryBytes, Has, Mask;
    if es == [] {
      assert c.rest == tail;
    } else {
      var t := EntriesBytes(es[1..]) + tail;
      assert c.rest == EntryBytes(es[0]) + t;
      assert forall e <- es[1..] :: e in es;
      TakeEntryOf(c, es[0], t);
      TakeEntriesOf(c.(rest := t), es[1..], tail);
    }
  }

  /** READDIR: every non-empty list that fits one packet is read back entry by entry, in order,
      exactly when no entry announces an extended list. */
  lemma NamesRoundTrip(es: seq<Entry>)
    requires es != [] && Fits(RNames(es))
    ensures CompleteEntries(NoError, NAME, ReplyPayload(RNames(es))) == (NoError, MaskAll(es))
       <==> Plain(es)
  {
    EntriesAreLong(es);
    MaskKeepsLength(es);
    var c := Cursor(EntriesBytes(es), NoError);
    NarrowSmall(|es|);
    TakeU32Of(Cursor(ReplyPayload(RNames(es)), NoError), |es|, EntriesBytes(es));
    if Plain(es) {
      assert c.rest == EntriesBytes(es) + [];
      TakeEntriesOf(c, es, []);
    }
    TakeEntriesPays(c, |es|);
    hide EntriesBytes, EntriesLength, TakeEntries, U32, Cursor.TakeU32, Plain, Extended;
  }

  /** A NAME reply without entries would be refused as a bad message. */
  lemma EmptyNamesRefused(es: seq<Entry>)
    requires es == []
    ensures CompleteEntries(NoError, NAME, ReplyPayload(RNames(es))) == (BAD, [])
  {
    var p := ReplyPayload(RNames(es));
    NoEntries(es);
    hide *;
    TakeU32Of(Cursor(p, NoError), Narrow(|es|), []);
    ZeroCount(p);
  }

  lemma NoEntries(es: seq<Entry>)
    requires es == []
    ensures ReplyPayload(RNames(es)) == U32(Narrow(|es|)) + [] && Narrow(|es|) == 0
    ensures !NoError.Failed()
  {
    hide U32;
  }

  lemma ZeroCount(p: bytes)
    requires Cursor(p, NoError).TakeU32().0 == 0 && Cursor(p, NoError).TakeU32().1 == Cursor([], NoError)
    ensures CompleteEntries(NoError, NAME, p) == (BAD, [])
  {
    hide Cursor.TakeU32;
    NothingTaken(Cursor([], BAD));
    hide TakeEntries;
  }

  lemma NothingTaken(c: Cursor)
    ensures TakeEntries(c, 0) == ([], c)
  {
  }
}
