/** Writing: the put_* cursors of src/sftp.cpp. Out is the value a writer denotes, the class
    MutableBuffer the buffer that the source fills in place. */
module Writers {
  import opened Wire
  import opened Cursors

  /** The bytes put so far, the room left behind them, and the sticky error. */
  datatype Out = Out(written: bytes, room: nat, ec: Error) {
    function Put(s: bytes): (r: Out) {
      if ec.Failed() then this
      else if room < |s| then this.(ec := BAD)
      else Out(written + s, room - |s|, ec)
    }

    /** put_str: the length goes in before the room for the characters is checked. */
    function PutStr(s: bytes): (r: Out) {
      Put(U32(Narrow(|s|))).Put(s)
    }
  }

  /** Equal, or both failed: what a failed writer holds is never used. */
  ghost predicate Agree(x: Out, y: Out) {
    || (x.ec.Failed() && y.ec.Failed())
    || x == y
  }

  lemma PutPut(o: Out, a: bytes, b: bytes)
    ensures Agree(o.Put(a).Put(b), o.Put(a + b))
  {
    assert (o.written + a) + b == o.written + (a + b);
  }

  lemma AgreePut(x: Out, y: Out, s: bytes)
    requires Agree(x, y)
    ensures Agree(x.Put(s), y.Put(s))
  {
  }

  lemma PutStrIsPut(o: Out, s: bytes)
    ensures Agree(o.PutStr(s), o.Put(Str(s)))
  {
    PutPut(o, U32(Narrow(|s|)), s);
  }

  class MutableBuffer {
    const data: array<byte>
    var pos: nat
    var ec: Error

    ghost predicate Valid()
      reads this
    {
      pos <= data.Length
    }

    ghost function View(): (o: Out)
      requires Valid()
      reads this, data
    {
      Out(data[..pos], data.Length - pos, ec)
    }

    constructor (buf: array<byte>, ec: Error)
      ensures Valid() && data == buf && View() == Out([], buf.Length, ec)
    {
      data := buf;
      pos := 0;
      this.ec := ec;
    }

    method PutU8(v: byte)
      requires Valid()
      modifies this, data
      ensures Valid() && View() == old(View()).Put([v])
      ensures pos >= old(pos) && forall i | pos <= i < data.Length :: data[i] == old(data[i])
    {
      if !ec.Failed() && data.Length - pos < 1 {
        ec := BAD;
      }
      if ec.Failed() {
        return;
      }
      data[pos] := v;
      pos := pos + 1;
      assert data[..pos] == old(data[..pos]) + [v];
    }

    method PutU32(v: u32)
      requires Valid()
      modifies this, data
      ensures Valid() && View() == old(View()).Put(U32(v))
      ensures pos >= old(pos) && forall i | pos <= i < data.Length :: data[i] == old(data[i])
    {
      if !ec.Failed() && data.Length - pos < 4 {
        ec := BAD;
      }
      if ec.Failed() {
        return;
      }
      Copy(U32(v));
    }

    method PutU64(v: u64)
      requires Valid()
      modifies this, data
      ensures Valid() && View() == old(View()).Put(U64(v))
      ensures pos >= old(pos) && forall i | pos <= i < data.Length :: data[i] == old(data[i])
    {
      if !ec.Failed() && data.Length - pos < 8 {
        ec := BAD;
      }
      if ec.Failed() {
        return;
      }
      Copy(U64(v));
    }

    method PutStr(s: bytes)
      requires Valid()
      modifies this, data
      ensures Valid() && View() == old(View()).PutStr(s)
      ensures pos >= old(pos) && forall i | pos <= i < data.Length :: data[i] == old(data[i])
    {
      PutU32(Narrow(|s|));
      if !ec.Failed() && data.Length - pos < |s| {
        ec := BAD;
      }
      if ec.Failed() {
        return;
      }
      Copy(s);
    }

    /** memcpy followed by the advance of the cursor. */
    method Copy(s: bytes)
      requires Valid() && |s| <= data.Length - pos
      modifies this`pos, data
      ensures Valid() && pos == old(pos) + |s| && data[..pos] == old(data[..pos]) + s
      ensures forall i | pos <= i < data.Length :: data[i] == old(data[i])
    {
      var i := 0;
      while i < |s|
        invariant i <= |s| && pos == old(pos)
        invariant data[..pos] == old(data[..pos])
        invariant data[pos..pos + i] == s[..i]
        invariant forall j | pos + i <= j < data.Length :: data[j] == old(data[j])
      {
        data[pos + i] := s[i];
        i := i + 1;
      }
      assert data[..pos + |s|] == data[..pos] + data[pos..pos + |s|];
      pos := pos + |s|;
    }
  }
}
