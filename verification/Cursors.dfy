/** Reading: the take_* cursors of src/sftp.cpp. The value-level functions specify them;
    the class ConstBuffer is the cursor that the source advances in place, together with
    the error code that every take_* call consults and sets. */
module Cursors {
  import opened Wire

  const SSH_FX_OK: u32 := 0
  const SSH_FX_BAD_MESSAGE: u32 := 5

  /** Conditions that build_status compares a reported error against. */
  datatype Condition =
    | CondEof | CondNotFound | NotConnected | NoSuchFile | PermissionDenied | BadMessage
    | ConnectionAborted | ConnectionReset | OperationNotSupported | FunctionNotSupported
    | BadFileDescriptor | FileExists | ReadOnlyFileSystem | NoSuchDevice | NoSuchDeviceOrAddress
    | IoError

  /** A std::error_code: falsy, a value of sftp_category, libssh's SSH_FATAL,
      capy's end of file, or any other code with the conditions it is equivalent to. */
  datatype Error =
    | NoError
    | Sftp(value: u32)
    | Fatal
    | Eof
    | System(conditions: set<Condition>)
  {
    /** `if (ec)`: a code of value zero is falsy in every category. */
    predicate Failed() {
      !NoError? && !(Sftp? && value == 0)
    }
  }

  const BAD: Error := Sftp(SSH_FX_BAD_MESSAGE)

  datatype Cursor = Cursor(rest: bytes, ec: Error) {
    /** The common head of every take_*: demand n bytes unless an error is already set. */
    function Demand(n: nat): (r: Cursor) {
      if !ec.Failed() && |rest| < n then this.(ec := BAD) else this
    }

    function TakeU8(): (r: (byte, Cursor)) {
      var d := Demand(1);
      if d.ec.Failed() then (0, d) else (d.rest[0], d.(rest := d.rest[1..]))
    }

    function TakeU32(): (r: (u32, Cursor)) {
      var d := Demand(4);
      if d.ec.Failed() then (0, d) else (ReadU32(d.rest), d.(rest := d.rest[4..]))
    }

    function TakeU64(): (r: (u64, Cursor)) {
      var d := Demand(8);
      if d.ec.Failed() then (0, d) else (ReadU64(d.rest), d.(rest := d.rest[8..]))
    }

    function TakeStr(): (r: (bytes, Cursor)) {
      var (sz, c) := TakeU32();
      var d := c.Demand(sz);
      if d.ec.Failed() then ([], d) else (d.rest[..sz], d.(rest := d.rest[sz..]))
    }
  }

  /** What "d was reached from c by taking" means: the cursor never moves back, at least
      `least` bytes were consumed when d carries no error, and an error already present in c
      froze both the bytes and the code. */
  ghost predicate TookFrom(c: Cursor, d: Cursor, least: nat) {
    && |d.rest| <= |c.rest|
    && (c.ec.Failed() ==> d == c)
    && (!d.ec.Failed() ==> !c.ec.Failed() && |d.rest| + least <= |c.rest|)
  }

  lemma TakeStrTook(c: Cursor)
    ensures TookFrom(c, c.TakeStr().1, 4)
    ensures c.TakeStr().1.ec.Failed() ==> c.TakeStr().0 == []
    ensures !c.TakeStr().1.ec.Failed() ==> |c.TakeStr().1.rest| + 4 + |c.TakeStr().0| == |c.rest|
  {
  }

  lemma TookTrans(c: Cursor, d: Cursor, e: Cursor, m: nat, n: nat)
    requires TookFrom(c, d, m) && TookFrom(d, e, n)
    ensures TookFrom(c, e, m + n)
  {
  }

  lemma TakeU32Of(c: Cursor, n: u32, tail: bytes)
    requires c.rest == U32(n) + tail && !c.ec.Failed()
    ensures c.TakeU32() == (n, c.(rest := tail))
  {
    ReadU32OfU32(n, tail);
  }

  lemma TakeU64Of(c: Cursor, n: u64, tail: bytes)
    requires c.rest == U64(n) + tail && !c.ec.Failed()
    ensures c.TakeU64() == (n, c.(rest := tail))
  {
    ReadU64OfU64(n, tail);
  }

  /** A string comes back exactly when its length survived the narrowing. */
  lemma TakeStrOf(c: Cursor, s: bytes, tail: bytes)
    requires c.rest == Str(s) + tail && !c.ec.Failed()
    ensures c.TakeStr() == (s, c.(rest := tail)) <==> |s| < TWO_32
  {
    assert c.rest == U32(Narrow(|s|)) + (s + tail);
    TakeU32Of(c, Narrow(|s|), s + tail);
    TakeStrBody(c, s, tail);
  }

  lemma TakeStrBody(c: Cursor, s: bytes, tail: bytes)
    requires c.TakeU32() == (Narrow(|s|), c.(rest := s + tail)) && !c.ec.Failed()
    ensures c.TakeStr() == (s, c.(rest := tail)) <==> |s| < TWO_32
  {
    if |s| < TWO_32 {
      assert Narrow(|s|) == |s|;
      assert (s + tail)[..|s|] == s && (s + tail)[|s|..] == tail;
    } else {
      assert |c.TakeStr().0| < TWO_32;
    }
  }

  /** The cursor object: a const_buffer and an error_code, both passed by reference. */
  class ConstBuffer {
    var rest: bytes
    var ec: Error

    ghost function View(): (c: Cursor)
      reads this
    {
      Cursor(rest, ec)
    }

    constructor (data: bytes, ec: Error)
      ensures View() == Cursor(data, ec)
    {
      rest := data;
      this.ec := ec;
    }

    method TakeU8() returns (v: byte)
      modifies this
      ensures (v, View()) == old(View()).TakeU8()
    {
      v := 0;
      if !ec.Failed() && |rest| < 1 {
        ec := BAD;
      }
      if ec.Failed() {
        return;
      }
      v := rest[0];
      rest := rest[1..];
    }

    method TakeU32() returns (v: u32)
      modifies this
      ensures (v, View()) == old(View()).TakeU32()
    {
      v := 0;
      if !ec.Failed() && |rest| < 4 {
        ec := BAD;
      }
      if ec.Failed() {
        return;
      }
      v := ReadU32(rest);
      rest := rest[4..];
    }

    method TakeU64() returns (v: u64)
      modifies this
      ensures (v, View()) == old(View()).TakeU64()
    {
      v := 0;
      if !ec.Failed() && |rest| < 8 {
        ec := BAD;
      }
      if ec.Failed() {
        return;
      }
      v := ReadU64(rest);
      rest := rest[8..];
    }

    method TakeStr() returns (s: bytes)
      modifies this
      ensures (s, View()) == old(View()).TakeStr()
    {
      s := [];
      var sz := TakeU32();
      if !ec.Failed() && |rest| < sz {
        ec := BAD;
      }
      if ec.Failed() {
        return;
      }
      s := rest[..sz];
      rest := rest[sz..];
    }
  }
}
