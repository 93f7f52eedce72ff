/** The version handshake, section 4 of draft-ietf-secsh-filexfer-02: init on the client and
    init_server on the server. */
module Handshake {
  import opened Wire
  import opened Cursors
  import opened Writers
  import opened Framing
  import Attrs
  import Requests
  import Replies

  const SSH_FXP_INIT: byte := 1
  const SSH_FXP_VERSION: byte := 2
  const LIBSFTP_VERSION: u32 := 3

  datatype Extension = Extension(name: bytes, data: bytes)

  /** The extensions in the order in which the server's map happens to iterate. */
  function Pairs(exts: seq<Extension>): (s: bytes) {
    if exts == [] then []
    else (Str(exts[0].name) + Str(exts[0].data)) + Pairs(exts[1..])
  }

  function VersionBody(exts: seq<Extension>): (s: bytes) {
    [SSH_FXP_VERSION] + (U32(LIBSFTP_VERSION) + Pairs(exts))
  }

  ghost predicate DistinctNames(exts: seq<Extension>) {
    forall i, j | 0 <= i < j < |exts| :: exts[i].name != exts[j].name
  }

  /** unordered_map::emplace: a name already present keeps its value. */
  function Emplace(m: map<bytes, bytes>, e: Extension): (r: map<bytes, bytes>) {
    if e.name in m then m else m[e.name := e.data]
  }

  function ToMap(exts: seq<Extension>, m: map<bytes, bytes>): (r: map<bytes, bytes>) {
    if exts == [] then m else ToMap(exts[1..], Emplace(m, exts[0]))
  }

  function Names(exts: seq<Extension>): (r: set<bytes>) {
    set e <- exts :: e.name
  }

  lemma NamesCons(exts: seq<Extension>)
    requires exts != []
    ensures Names(exts) == {exts[0].name} + Names(exts[1..])
  {
    assert forall e <- exts :: e == exts[0] || e in exts[1..];
    assert forall e <- exts[1..] :: e in exts;
  }

  /** With distinct names the map holds exactly the listed pairs, so the order is immaterial. */
  lemma {:induction false} ToMapHolds(exts: seq<Extension>, m: map<bytes, bytes>)
    requires DistinctNames(exts) && forall e <- exts :: e.name !in m
    ensures forall e <- exts :: e.name in ToMap(exts, m) && ToMap(exts, m)[e.name] == e.data
    ensures forall k <- m :: k in ToMap(exts, m) && ToMap(exts, m)[k] == m[k]
    ensures ToMap(exts, m).Keys == m.Keys + Names(exts)
    decreases |exts|
  {
    if exts != [] {
      var m' := Emplace(m, exts[0]);
      forall e <- exts[1..]
        ensures e.name !in m'
      {
        var i :| 0 <= i < |exts[1..]| && exts[1..][i] == e;
        assert exts[i + 1] == e;
      }
      assert forall e <- exts[1..] :: e in exts;
      ToMapHolds(exts[1..], m');
      assert forall e <- exts :: e == exts[0] || e in exts[1..];
      assert ToMap(exts, m) == ToMap(exts[1..], m');
      hide DistinctNames, ToMap, Names;
      NamesCons(exts);
    }
  }

  // ----- the client's side

  /** The loop of init: pairs until the packet is used up or broken. */
  function TakePairs(c: Cursor, m: map<bytes, bytes>): (r: (map<bytes, bytes>, Cursor))
    decreases |c.rest|, if c.ec.Failed() then 0 else 1
  {
    if |c.rest| == 0 || c.ec.Failed() then (m, c)
    else
      TakeStrTook(c);
      TakeStrTook(c.TakeStr().1);
      var (name, c1) := c.TakeStr();
      var (data, c2) := c1.TakeStr();
      TakePairs(c2, Emplace(m, Extension(name, data)))
  }

  datatype Session = Session(ec: Error, buffer: bytes, extensions: map<bytes, bytes>, version: u32)

  const NO_SESSION: Session := Session(Fatal, [], map[], 0)

  /** What init makes of the bytes it has read, once a packet is matched. */
  function Init(data: bytes): (s: Session)
    requires MatchPacket(data).Some?
  {
    var n := MatchPacket(data).value;
    var (tp, c1) := Cursor(if n < 4 then [] else data[4..n], NoError).TakeU8();
    if tp != SSH_FXP_VERSION then NO_SESSION
    else
      var (version, c2) := c1.TakeU32();
      var (extensions, c3) := TakePairs(c2, map[]);
      Session(c3.ec, data[n..], extensions, version)
  }

  method ReadPairs(cb: ConstBuffer) returns (extensions: map<bytes, bytes>)
    modifies cb
    ensures (extensions, cb.View()) == TakePairs(old(cb.View()), map[])
  {
    hide Cursor.TakeStr;
    extensions := map[];
    while |cb.rest| > 0 && !cb.ec.Failed()
      invariant TakePairs(cb.View(), extensions) == TakePairs(old(cb.View()), map[])
      decreases |cb.rest|, if cb.ec.Failed() then 0 else 1
    {
      TakeStrTook(cb.View());
      TakeStrTook(cb.View().TakeStr().1);
      var name := cb.TakeStr();
      var data := cb.TakeStr();
      extensions := Emplace(extensions, Extension(name, data));
    }
  }

  lemma {:induction false} TakePairsOf(c: Cursor, exts: seq<Extension>, m: map<bytes, bytes>)
    requires c == Cursor(Pairs(exts), NoError) && |Pairs(exts)| < TWO_32
    ensures TakePairs(c, m) == (ToMap(exts, m), Cursor([], NoError))
    decreases |exts|
  {
    hide Cursor.TakeStr, Str, Emplace;
    if exts != [] {
      var e, tail := exts[0], Pairs(exts[1..]);
      assert c.rest == Str(e.name) + (Str(e.data) + tail);
      TakeStrOf(c, e.name, Str(e.data) + tail);
      TakeStrOf(c.(rest := Str(e.data) + tail), e.data, tail);
      assert Extension(e.name, e.data) == e;
      TakePairsOf(Cursor(tail, NoError), exts[1..], Emplace(m, e));
    }
  }

  /** `exts` is an order in which the map may be iterated: each of its pairs once. */
  ghost predicate Lists(exts: seq<Extension>, m: map<bytes, bytes>) {
    && DistinctNames(exts) && Names(exts) == m.Keys
    && forall e <- exts :: e.name in m && m[e.name] == e.data
  }

  lemma ListedMap(exts: seq<Extension>, m: map<bytes, bytes>)
    requires Lists(exts, m)
    ensures ToMap(exts, map[]) == m
  {
    ToMapHolds(exts, map[]);
    hide ToMap, DistinctNames;
    var r := ToMap(exts, map[]);
    forall k <- m
      ensures k in r && r[k] == m[k]
    {
      assert k in Names(exts);
    }
  }

  /** The VERSION packet of the server's map, in whatever order it is iterated, gives the client
      the same map and version; the bytes behind it are where the session's buffer starts. */
  lemma VersionRoundTrip(exts: seq<Extension>, m: map<bytes, bytes>, extra: bytes)
    requires WellSized(VersionBody(exts)) && Lists(exts, m)
    ensures var data := Frame(VersionBody(exts)) + extra;
      && MatchPacket(data) == Some(4 + |VersionBody(exts)|)
      && Init(data) == Session(NoError, extra, m, LIBSFTP_VERSION)
  {
    ListedMap(exts, m);
    hide Lists;
    var body := VersionBody(exts);
    var data := Frame(body) + extra;
    MatchFrame(body, extra);
    var c1 := Cursor(U32(LIBSFTP_VERSION) + Pairs(exts), NoError);
    assert Cursor(body, NoError).TakeU8() == (SSH_FXP_VERSION, c1);
    TakeU32Of(c1, LIBSFTP_VERSION, Pairs(exts));
    TakePairsOf(Cursor(Pairs(exts), NoError), exts, map[]);
    hide MatchPacket, Frame, TakePairs, U32, ToMap, Pairs, Cursor.TakeU32;
  }

  // ----- the server's side

  /** The error init_server reports for the first packet. */
  function AcceptInit(body: bytes): (ec: Error) {
    var (tp, c1) := Cursor(body, NoError).TakeU8();
    var (version, c2) := c1.TakeU32();
    if !c2.ec.Failed() && tp != SSH_FXP_INIT then Fatal else c2.ec
  }

  /** The client's INIT: three 32-bit words, of which the type is left in host order. */
  function InitMessage(littleEndian: bool): (s: bytes) {
    U32(8) + ((if littleEndian then [SSH_FXP_INIT, 0, 0, 0] else [0, 0, 0, SSH_FXP_INIT]) + U32(LIBSFTP_VERSION))
  }

  /** The message is one whole packet on every host, but the server accepts it only if the
      client runs on a little-endian one. */
  lemma InitAccepted(littleEndian: bool, more: bytes)
    ensures MatchPacket(InitMessage(littleEndian) + more) == Some(12)
    ensures AcceptInit(InitMessage(littleEndian)[4..]) == NoError <==> littleEndian
  {
    var body := (if littleEndian then [SSH_FXP_INIT, 0, 0, 0] else [0, 0, 0, SSH_FXP_INIT]) + U32(LIBSFTP_VERSION);
    assert |body| == 8;
    assert InitMessage(littleEndian) == Frame(body);
    MatchFrame(body, more);
    assert InitMessage(littleEndian)[4..] == body;
    hide U32, MatchPacket, Frame, ReadU32;
  }

  /** The VERSION reply: the size is summed over the map, then header and pairs are put. */
  method BuildVersion(exts: seq<Extension>) returns (out: array<byte>, ec: Error)
    ensures if |VersionBody(exts)| + 4 < TWO_32 then ec == NoError && out[..] == Frame(VersionBody(exts))
            else ec.Failed()
  {
    hide Pairs, U32, Str, Narrow, Out.Put, Out.PutStr;
    ghost var body := VersionBody(exts);
    var extBytes := PairsSize(exts);
    var bodyLen := Narrow(1 + 4 + Narrow(extBytes));
    assert bodyLen == Narrow(|body|) by {
      Replies.NarrowSum(5, extBytes);
    }
    var total := bodyLen as int + 4;
    out := new byte[Narrow(total)];
    Replies.NarrowSum(4, |body|);
    var buf := new MutableBuffer(out, NoError);
    ghost var o := buf.View();
    buf.PutU32(bodyLen);
    ghost var o1 := buf.View();
    buf.PutU8(SSH_FXP_VERSION);
    ghost var o2 := buf.View();
    buf.PutU32(LIBSFTP_VERSION);
    ghost var o3 := buf.View();
    PutPairs(buf, exts);
    ec := buf.ec;
    VersionFilled(o, o1, o2, o3, buf.View(), exts);
    hide *;
    assert out[..out.Length] == out[..];
  }

  lemma VersionFilled(o: Out, o1: Out, o2: Out, o3: Out, o4: Out, exts: seq<Extension>)
    requires o == Out([], Narrow(4 + |VersionBody(exts)|), NoError)
    requires o1 == o.Put(U32(Narrow(|VersionBody(exts)|)))
    requires o2 == o1.Put([SSH_FXP_VERSION]) && o3 == o2.Put(U32(LIBSFTP_VERSION))
    requires Agree(o4, o3.Put(Pairs(exts)))
    ensures if |VersionBody(exts)| + 4 < TWO_32 then o4 == Out(Frame(VersionBody(exts)), 0, NoError) else o4.ec.Failed()
  {
    hide Pairs, U32, Narrow, Out.Put;
    Requests.AgreeRefl(o3, o2.Put(U32(LIBSFTP_VERSION)));
    Requests.AgreeRefl(o2, o1.Put([SSH_FXP_VERSION]));
    Requests.AgreeRefl(o1, o.Put(U32(Narrow(|VersionBody(exts)|))));
    Attrs.Chain(o2, U32(LIBSFTP_VERSION), o3, Pairs(exts), o4);
    Attrs.Chain(o1, [SSH_FXP_VERSION], o2, U32(LIBSFTP_VERSION) + Pairs(exts), o4);
    Attrs.Chain(o, U32(Narrow(|VersionBody(exts)|)), o1, VersionBody(exts), o4);
    Replies.NarrowRoom(o4, Frame(VersionBody(exts)));
  }

  method PairsSize(exts: seq<Extension>) returns (n: nat)
    ensures n == |Pairs(exts)|
  {
    n := 0;
    var i := 0;
    while i < |exts|
      invariant i <= |exts|
      invariant n + |Pairs(exts[i..])| == |Pairs(exts)|
    {
      assert exts[i..][1..] == exts[i + 1..];
      n := n + 4 + |exts[i].name| + 4 + |exts[i].data|;
      i := i + 1;
    }
  }

  method PutPairs(buf: MutableBuffer, exts: seq<Extension>)
    requires buf.Valid()
    modifies buf, buf.data
    ensures buf.Valid() && Agree(buf.View(), old(buf.View()).Put(Pairs(exts)))
  {
    hide Str, Out.Put;
    ghost var o := buf.View();
    ghost var done: bytes := [];
    Replies.PutNothing(o);
    var i := 0;
    while i < |exts|
      invariant i <= |exts| && buf.Valid()
      invariant done + Pairs(exts[i..]) == Pairs(exts)
      invariant Agree(buf.View(), o.Put(done))
    {
      ghost var x := buf.View();
      ghost var e, rest := Str(exts[i].name) + Str(exts[i].data), Pairs(exts[i + 1..]);
      Requests.PutTwoStr(buf, exts[i].name, exts[i].data);
      assert exts[i..][1..] == exts[i + 1..];
      Attrs.Chain(o, done, x, e, buf.View());
      assert (done + e) + rest == done + (e + rest);
      done := done + e;
      i := i + 1;
    }
    assert done == Pairs(exts);
  }
}
