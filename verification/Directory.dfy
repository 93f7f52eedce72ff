/** Reading a directory end to end: dir::read on the client, READDIR on the wire, and the batches
    of the example backend. */
module Directory {
  import opened Wire
  import opened Cursors
  import opened Attrs
  import opened Requests
  import opened Dispatch
  import opened Replies
  import opened Completions

  const MAX_BATCH: nat := 64
  const SSH_FX_EOF: u32 := 1
  const NO_ENTRY: Entry := Entry(NO_ATTRS, [], [])

  /** A position of the directory iterator: the entry there, and whether the increment behind it
      fails. A failed increment leaves the iterator at the end. */
  datatype Slot = Slot(entry: Entry, breaks: bool)

  /** What each open directory handle has still to visit. */
  type Dirs = map<bytes, seq<Slot>>

  function Names(slots: seq<Slot>): (es: seq<Entry>) {
    seq(|slots|, i requires 0 <= i < |slots| => slots[i].entry)
  }

  /** The entries an iterator delivers: up to and including the one whose increment fails. */
  function Yield(slots: seq<Slot>): (es: seq<Entry>)
    ensures |es| <= |slots|
  {
    if slots == [] then []
    else [slots[0].entry] + if slots[0].breaks then [] else Yield(slots[1..])
  }

  /** The whole directory is delivered exactly when no increment but the last one fails. */
  lemma {:induction false} YieldsAll(slots: seq<Slot>)
    ensures Yield(slots) == Names(slots) <==> forall i | 0 <= i < |slots| - 1 :: !slots[i].breaks
    ensures Yield(slots) == Names(slots)[..|Yield(slots)|]
  {
    if slots != [] {
      var rest := slots[1..];
      YieldsAll(rest);
      assert Names(slots) == [slots[0].entry] + Names(rest);
      assert Names(slots)[1..] == Names(rest);
      if !slots[0].breaks {
        assert Yield(slots)[1..] == Yield(rest);
        assert forall i | 0 <= i < |rest| :: rest[i] == slots[i + 1];
        assert forall i | 0 < i < |slots| :: slots[i] == rest[i - 1];
      }
    }
  }

  /** An increment that fails ends the listing, and no error is reported for it. */
  lemma ListingCut(first: Entry, second: Entry, dirs: Dirs, handle: bytes, text: Error -> bytes)
    requires dirs == map[handle := [Slot(first, true), Slot(second, false)]]
    ensures ReadDir(dirs, handle, text) == (RNames([first]), map[handle := []])
  {
    var slots := dirs[handle];
    assert slots == [Slot(first, true), Slot(second, false)];
    assert Yield(slots) == [first] && Batch([first]) == [first];
    assert After(slots, 1) == [] && dirs[handle := []] == map[handle := []];
  }

  /** The iterator behind its first `n` entries. */
  function After(slots: seq<Slot>, n: nat): (rest: seq<Slot>)
    requires n <= |slots|
  {
    if 0 < n && slots[n - 1].breaks then [] else slots[n..]
  }

  lemma YieldCons(slots: seq<Slot>)
    requires slots != [] && !slots[0].breaks
    ensures Yield(slots) == [slots[0].entry] + Yield(slots[1..])
  {
  }

  lemma {:induction false} YieldAfter(slots: seq<Slot>, n: nat)
    requires n <= |Yield(slots)|
    ensures Yield(After(slots, n)) == Yield(slots)[n..]
  {
    if n > 0 && !slots[0].breaks {
      YieldCons(slots);
      hide Yield;
      YieldAfter(slots[1..], n - 1);
      assert n > 1 ==> slots[1..][n - 2] == slots[n - 1];
      assert slots[1..][n - 1..] == slots[n..];
      assert Yield(slots)[n..] == Yield(slots[1..])[n - 1..];
    }
  }

  function Batch(rest: seq<Entry>): (es: seq<Entry>) {
    if |rest| < MAX_BATCH then rest else rest[..MAX_BATCH]
  }

  /** sftp_server::readdir. `text` is the message of the error code. */
  function ReadDir(dirs: Dirs, handle: bytes, text: Error -> bytes): (r: (Result, Dirs)) {
    if handle !in dirs then
      var e := System({BadFileDescriptor});
      (RStatus(e, text(e)), dirs)
    else if dirs[handle] == [] then (RStatus(Eof, text(Eof)), dirs)
    else
      var es := Batch(Yield(dirs[handle]));
      (RNames(es), dirs[handle := After(dirs[handle], |es|)])
  }

  /** A NAME reply without entries is never sent. */
  lemma NeverEmpty(dirs: Dirs, handle: bytes, text: Error -> bytes)
    ensures ReadDir(dirs, handle, text).0 != RNames([])
  {
  }

  class Backend {
    var dirs: Dirs

    constructor (dirs: Dirs)
      ensures this.dirs == dirs
    {
      this.dirs := dirs;
    }

    /** The loop over the directory iterator. */
    method Readdir(handle: bytes, text: Error -> bytes) returns (r: Result)
      modifies this
      ensures (r, dirs) == ReadDir(old(dirs), handle, text)
    {
      if handle !in dirs {
        var e := System({BadFileDescriptor});
        return RStatus(e, text(e));
      }
      var dit := dirs[handle];
      var entries: seq<Entry> := [];
      ghost var all := dirs[handle];
      while dit != [] && |entries| < MAX_BATCH
        invariant |entries| <= |all| && |entries| <= MAX_BATCH
        invariant dit == After(all, |entries|) && entries + Yield(dit) == Yield(all)
        decreases |dit|
      {
        ghost var at := dit;
        assert at == all[|entries|..];
        entries := entries + [dit[0].entry];
        if dit[0].breaks {
          dit := [];
          assert entries + [] == Yield(all);
          break;
        }
        dit := dit[1..];
        assert entries + Yield(dit) == entries[..|entries| - 1] + Yield(at);
      }
      if entries == [] {
        assert dirs == dirs[handle := dit];
        return RStatus(Eof, text(Eof));
      }
      assert entries == Batch(Yield(all));
      dirs := dirs[handle := dit];
      r := RNames(entries);
    }
  }

  // ----- one READDIR exchange

  /** Client request, server decision, backend, reply, client response record. */
  function Exchange(dirs: Dirs, handle: bytes, text: Error -> bytes): (r: (Error, seq<Entry>, Dirs)) {
    match Received(Readdir(handle)).0
    case Invoke(SReaddir(h)) =>
      var (result, dirs') := ReadDir(dirs, h, text);
      var (ec, es) := CompleteEntries(NoError, ReplyType(result), ReplyPayload(result));
      (ec, es, dirs')
    case _ => (BAD, [], dirs)
  }

  /** Every stretch the backend may send fits a packet, and so do the two statuses. */
  ghost predicate Sendable(listing: seq<Entry>, text: Error -> bytes) {
    && Plain(listing) && MaskAll(listing) == listing
    && (forall i, j | 0 <= i <= j <= |listing| && j - i <= MAX_BATCH :: Fits(RNames(listing[i..j])))
    && Fits(RStatus(Eof, text(Eof)))
  }

  /** What the example backend lists: lstat's attributes, or none when lstat failed, and names far
      below the size that would let 64 of them overflow a packet. */
  predicate Listed(e: Entry) {
    && (e.attr == NO_ATTRS || e.attr.flags == 15)
    && MAX_BATCH * EntryLength(e) + 13 < TWO_32
  }

  lemma {:induction false} ExampleAttrs(listing: seq<Entry>)
    requires forall e <- listing :: Listed(e)
    ensures Plain(listing) && MaskAll(listing) == listing
  {
    hide EntryLength;
    if listing != [] {
      var e := listing[0];
      assert Listed(e);
      assert Mask(e.attr) == e.attr;
      ExampleAttrs(listing[1..]);
      assert [e] + listing[1..] == listing;
      forall x <- listing
        ensures !Has(x.attr.flags, ATTR_EXTENDED)
      {
      }
    }
  }

  lemma {:induction false} SliceLength(es: seq<Entry>)
    requires forall e <- es :: MAX_BATCH * EntryLength(e) + 13 < TWO_32
    ensures MAX_BATCH * EntriesLength(es) <= |es| * (TWO_32 - 14)
  {
    hide EntryLength;
    if es != [] {
      SliceLength(es[1..]);
    }
  }

  lemma BatchFits(es: seq<Entry>)
    requires |es| <= MAX_BATCH && forall e <- es :: Listed(e)
    ensures Fits(RNames(es))
  {
    hide EntryLength, ReplyPayload;
    assert forall e <- es :: MAX_BATCH * EntryLength(e) + 13 < TWO_32 by {
      assert forall e <- es :: Listed(e);
    }
    SliceLength(es);
    NamesTotal(es);
    hide EntriesLength;
  }

  /** So everything the example backend lists can be sent. */
  lemma ExampleSendable(listing: seq<Entry>, text: Error -> bytes)
    requires forall e <- listing :: Listed(e)
    requires |text(Eof)| + 21 < TWO_32
    ensures Sendable(listing, text)
  {
    hide Listed, Plain, MaskAll, U32, Fits;
    ExampleAttrs(listing);
    EofFits(text);
    forall i, j | 0 <= i <= j <= |listing| && j - i <= MAX_BATCH
      ensures Fits(RNames(listing[i..j]))
    {
      assert forall e <- listing[i..j] :: e in listing;
      BatchFits(listing[i..j]);
    }
  }

  lemma EofFits(text: Error -> bytes)
    requires |text(Eof)| + 21 < TWO_32
    ensures Fits(RStatus(Eof, text(Eof)))
  {
  }

  lemma {:induction false} MaskAllAt(es: seq<Entry>, i: nat)
    requires i < |es|
    ensures MaskAll(es)[i] == es[i].(attr := Mask(es[i].attr))
  {
    hide Mask;
    if i > 0 {
      MaskAllAt(es[1..], i - 1);
    }
  }

  lemma MaskAllSlice(es: seq<Entry>, i: nat, j: nat)
    requires i <= j <= |es| && MaskAll(es) == es
    ensures MaskAll(es[i..j]) == es[i..j]
  {
    forall k | 0 <= k < j - i
      ensures MaskAll(es[i..j])[k] == es[i..j][k]
    {
      MaskAllAt(es[i..j], k);
      MaskAllAt(es, i + k);
    }
  }

  lemma ExchangeDelivers(dirs: Dirs, handle: bytes, text: Error -> bytes, listing: seq<Entry>, i: nat)
    requires Sendable(listing, text) && i <= |listing| && |handle| + 9 < TWO_32
    requires handle in dirs && Yield(dirs[handle]) == listing[i..]
    ensures var es := Batch(listing[i..]);
      Exchange(dirs, handle, text)
      == if i < |listing| then (NoError, es, dirs[handle := After(dirs[handle], |es|)])
         else (Sftp(SSH_FX_EOF), [], dirs)
  {
    hide Received, CompleteEntries, ReplyPayload, Plain, MaskAll, Fits;
    ReaddirArrives(handle);
    if i < |listing| {
      BatchDelivers(listing, i, text);
    } else {
      assert listing[i..] == [];
      FailureRoundTrip(Eof, text(Eof), 0);
      assert Visible(Eof) == Sftp(SSH_FX_EOF);
    }
  }

  lemma ReaddirArrives(handle: bytes)
    requires |handle| + 9 < TWO_32
    ensures Received(Readdir(handle)).0 == Invoke(SReaddir(handle))
  {
    RequestRoundTrip(Readdir(handle));
    hide Received;
  }

  lemma BatchDelivers(listing: seq<Entry>, i: nat, text: Error -> bytes)
    requires Sendable(listing, text) && i < |listing|
    ensures var es := Batch(listing[i..]);
      && es != [] && i + |es| <= |listing|
      && CompleteEntries(NoError, NAME, ReplyPayload(RNames(es))) == (NoError, es)
  {
    hide CompleteEntries, ReplyPayload, Plain, MaskAll, Fits;
    var es := Batch(listing[i..]);
    assert es == listing[i..i + |es|];
    MaskAllSlice(listing, i, i + |es|);
    PlainSlice(listing, i, i + |es|);
    NamesRoundTrip(es);
  }

  lemma PlainSlice(es: seq<Entry>, i: nat, j: nat)
    requires i <= j <= |es| && Plain(es)
    ensures Plain(es[i..j])
  {
    hide Has;
    assert forall e <- es[i..j] :: e in es;
  }

  // ----- dir::read

  datatype Reading = Reading(buffer: seq<Entry>, dirs: Dirs)

  /** read_op: fetch when nothing is buffered, then hand out the front of the buffer. (The flag
      eof_ is never set, so it is not modelled.) */
  function ReadStep(s: Reading, handle: bytes, text: Error -> bytes): (r: (Error, Entry, Reading)) {
    var (ec, t) :=
      if s.buffer == [] then
        var (e, es, dirs) := Exchange(s.dirs, handle, text);
        (e, Reading(es, dirs))
      else (NoError, s);
    if t.buffer == [] then (ec, NO_ENTRY, t) else (ec, t.buffer[0], t.(buffer := t.buffer[1..]))
  }

  class Dir {
    const handle: bytes
    var buffer: seq<Entry>

    constructor (handle: bytes)
      ensures this.handle == handle && buffer == []
    {
      this.handle := handle;
      buffer := [];
    }

    method Read(backend: Backend, text: Error -> bytes) returns (ec: Error, e: Entry)
      modifies this`buffer, backend
      ensures (ec, e, Reading(buffer, backend.dirs)) == ReadStep(Reading(old(buffer), old(backend.dirs)), handle, text)
    {
      hide Received, CompleteEntries, ReplyPayload, ReadDir;
      ec, e := NoError, NO_ENTRY;
      if buffer == [] {
        ec := DoRead(backend, text);
      }
      if buffer != [] {
        e := buffer[0];
        buffer := buffer[1..];
      }
    }

    method DoRead(backend: Backend, text: Error -> bytes) returns (ec: Error)
      requires buffer == []
      modifies this`buffer, backend
      ensures (ec, buffer, backend.dirs) == Exchange(old(backend.dirs), handle, text)
    {
      hide Received, CompleteEntries, ReplyPayload, ReadDir;
      var request := Received(Readdir(handle)).0;
      if !(request.Invoke? && request.call.SReaddir?) {
        return BAD;
      }
      var result := backend.Readdir(request.call.handle, text);
      ec, buffer := ReadEntries(NoError, ReplyType(result), ReplyPayload(result), buffer);
      assert [] + CompleteEntries(NoError, ReplyType(result), ReplyPayload(result)).1
          == CompleteEntries(NoError, ReplyType(result), ReplyPayload(result)).1;
    }
  }

  /** The results of n calls in a row. */
  function Reads(s: Reading, handle: bytes, text: Error -> bytes, n: nat): (r: seq<(Error, Entry)>)
    ensures |r| == n
    decreases n
  {
    if n == 0 then []
    else
      var (ec, e, t) := ReadStep(s, handle, text);
      [(ec, e)] + Reads(t, handle, text, n - 1)
  }

  /** However long the directory and however often read is called: the entries come in order and
      once each, then end of file on every further call. */
  lemma ReadsDirectory(listing: seq<Entry>, dirs: Dirs, handle: bytes, text: Error -> bytes, n: nat, k: nat)
    requires Sendable(listing, text) && |handle| + 9 < TWO_32
    requires handle in dirs && Yield(dirs[handle]) == listing && k < n
    ensures Reads(Reading([], dirs), handle, text, n)[k]
         == if k < |listing| then (NoError, listing[k]) else (Sftp(SSH_FX_EOF), NO_ENTRY)
  {
    hide Sendable;
    assert listing[0..] == listing;
    ReadsFrom(listing, Reading([], dirs), handle, text, 0, n, k);
  }

  /** The example backend: whatever it lists arrives, and it is the whole directory exactly when no
      increment but the last one fails. */
  lemma ReadsExample(slots: seq<Slot>, dirs: Dirs, handle: bytes, text: Error -> bytes, n: nat)
    requires handle in dirs && dirs[handle] == slots && |handle| + 9 < TWO_32
    requires forall s <- slots :: Listed(s.entry)
    requires |text(Eof)| + 21 < TWO_32
    ensures var results, m := Reads(Reading([], dirs), handle, text, n), |Yield(slots)|;
      && (forall k | 0 <= k < n ::
            results[k] == if k < m then (NoError, slots[k].entry) else (Sftp(SSH_FX_EOF), NO_ENTRY))
      && (m == |slots| <==> forall i | 0 <= i < |slots| - 1 :: !slots[i].breaks)
  {
    hide Listed, Sendable, Reads, Yield;
    YieldsAll(slots);
    var listing := Yield(slots);
    assert forall e <- listing :: Listed(e) by {
      forall e <- listing
        ensures Listed(e)
      {
        assert e in Names(slots);
      }
    }
    ExampleSendable(listing, text);
    forall k | 0 <= k < n {
      ReadsDirectory(listing, dirs, handle, text, n, k);
    }
    assert |listing| == |slots| ==> listing == Names(slots);
  }

  lemma ReadsUnfolds(s: Reading, handle: bytes, text: Error -> bytes, n: nat)
    requires n > 0
    ensures var (ec, e, t) := ReadStep(s, handle, text);
      Reads(s, handle, text, n) == [(ec, e)] + Reads(t, handle, text, n - 1)
  {
    hide ReadStep;
  }

  /** `i` entries handed out, the buffer holding the next ones, the backend the rest. */
  ghost predicate Between(listing: seq<Entry>, s: Reading, handle: bytes, i: nat) {
    && handle in s.dirs && i <= |listing|
    && s.buffer + Yield(s.dirs[handle]) == listing[i..]
  }

  /** Nothing is buffered: the batch that is fetched holds the next entry, if there is one. */
  lemma FetchedRead(listing: seq<Entry>, s: Reading, handle: bytes, text: Error -> bytes, i: nat)
    requires Sendable(listing, text) && |handle| + 9 < TWO_32 && Between(listing, s, handle, i) && s.buffer == []
    ensures var (ec, es, dirs) := Exchange(s.dirs, handle, text);
      && Between(listing, Reading(es, dirs), handle, i)
      && if i < |listing| then ec == NoError && es != [] else ec == Sftp(SSH_FX_EOF) && es == []
  {
    hide Sendable, Exchange, Yield, After;
    var rest := Yield(s.dirs[handle]);
    assert s.buffer + rest == rest;
    ExchangeDelivers(s.dirs, handle, text, listing, i);
    if i < |listing| {
      var es := Batch(listing[i..]);
      YieldAfter(s.dirs[handle], |es|);
      assert es + rest[|es|..] == rest;
    }
  }

  lemma OneRead(listing: seq<Entry>, s: Reading, handle: bytes, text: Error -> bytes, i: nat)
    requires Sendable(listing, text) && |handle| + 9 < TWO_32 && Between(listing, s, handle, i)
    ensures var (ec, e, t) := ReadStep(s, handle, text);
      if i < |listing| then ec == NoError && e == listing[i] && Between(listing, t, handle, i + 1)
      else ec == Sftp(SSH_FX_EOF) && e == NO_ENTRY && Between(listing, t, handle, i)
  {
    hide Sendable, Exchange, Yield;
    if s.buffer == [] {
      FetchedRead(listing, s, handle, text, i);
      var (ec, es, dirs) := Exchange(s.dirs, handle, text);
      if i < |listing| {
        FrontOf(listing, Reading(es, dirs), handle, i);
      }
    } else {
      FrontOf(listing, s, handle, i);
    }
  }

  lemma FrontOf(listing: seq<Entry>, s: Reading, handle: bytes, i: nat)
    requires Between(listing, s, handle, i) && s.buffer != []
    ensures i < |listing| && s.buffer[0] == listing[i]
    ensures Between(listing, s.(buffer := s.buffer[1..]), handle, i + 1)
  {
    hide Yield;
    var rest := Yield(s.dirs[handle]);
    assert |s.buffer + rest| > 0;
    assert listing[i..][0] == s.buffer[0];
    assert s.buffer[1..] + rest == (s.buffer + rest)[1..];
    assert listing[i..][1..] == listing[i + 1..];
  }

  lemma {:induction false} ReadsFrom(listing: seq<Entry>, s: Reading, handle: bytes, text: Error -> bytes,
                                     i: nat, n: nat, k: nat)
    requires Sendable(listing, text) && |handle| + 9 < TWO_32 && Between(listing, s, handle, i) && k < n
    ensures Reads(s, handle, text, n)[k]
         == if i + k < |listing| then (NoError, listing[i + k]) else (Sftp(SSH_FX_EOF), NO_ENTRY)
    decreases n
  {
    hide Sendable, ReadStep, Between, Exchange;
    OneRead(listing, s, handle, text, i);
    var (ec, e, t) := ReadStep(s, handle, text);
    ReadsUnfolds(s, handle, text, n);
    hide Reads;
    if k > 0 {
      ReadsFrom(listing, t, handle, text, if i < |listing| then i + 1 else i, n - 1, k - 1);
    }
  }
}
