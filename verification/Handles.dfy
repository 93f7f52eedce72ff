/** The handle table of the example server: open, opendir and close. */
module Handles {
  import opened Wire
  import opened Cursors

  const LETTER_D: byte := 100

  /** std::to_string */
  function Decimal(n: nat): (s: bytes)
    ensures s != [] && forall i | 0 <= i < |s| :: 48 <= s[i] < 58
  {
    if n < 10 then [48 + n] else Decimal(n / 10) + [48 + n % 10]
  }

  lemma {:induction false} DecimalInjective(m: nat, n: nat)
    requires Decimal(m) == Decimal(n)
    ensures m == n
  {
    var s := Decimal(m);
    if m >= 10 && n >= 10 {
      assert s[|s| - 1] == 48 + m % 10 == 48 + n % 10;
      assert s[..|s| - 1] == Decimal(m / 10) == Decimal(n / 10);
      DecimalInjective(m / 10, n / 10);
    }
  }

  /** The file or the directory iterator the path leads to, or the error of opening it. */
  datatype Attempt<T> = Opened(value: T) | Refused(ec: Error)

  /** `given` lists every handle ever returned. */
  class HandleTable<F, D> {
    var handleGen: nat
    var openFiles: map<bytes, F>
    var dirs: map<bytes, D>
    ghost var given: seq<bytes>

    /** The i-th handle comes from counter value i + 1, with or without the letter. */
    ghost predicate Valid()
      reads this
    {
      && |given| == handleGen
      && (forall i | 0 <= i < |given| :: given[i] == Decimal(i + 1) || given[i] == [LETTER_D] + Decimal(i + 1))
      && (forall h <- openFiles :: h in given && h[..1] != [LETTER_D])
      && (forall h <- dirs :: h in given && h[..1] == [LETTER_D])
    }

    constructor ()
      ensures Valid() && openFiles == map[] && dirs == map[] && given == []
    {
      handleGen, openFiles, dirs, given := 0, map[], map[], [];
    }

    /** A fresh counter value never yields a handle that was given out before. */
    lemma Fresh()
      requires Valid()
      ensures Decimal(handleGen + 1) !in given && [LETTER_D] + Decimal(handleGen + 1) !in given
    {
      forall i | 0 <= i < |given|
        ensures given[i] != Decimal(handleGen + 1) && given[i] != [LETTER_D] + Decimal(handleGen + 1)
      {
        var d, e := Decimal(i + 1), Decimal(handleGen + 1);
        if d == e {
          DecimalInjective(i + 1, handleGen + 1);
        }
        assert ([LETTER_D] + d)[1..] == d && ([LETTER_D] + e)[1..] == e;
        assert d[0] != LETTER_D && e[0] != LETTER_D;
      }
    }

    /** open: when the file itself opens, emplace really inserts, because the handle is new; when
        it does not, its error is returned and nothing changes. */
    method Open(file: Attempt<F>) returns (ec: Error, handle: bytes)
      requires Valid() && (file.Refused? ==> file.ec.Failed())
      modifies this
      ensures Valid() && dirs == old(dirs)
      ensures match file
        case Opened(f) =>
          && ec == NoError && handle !in old(given) && given == old(given) + [handle]
          && openFiles == old(openFiles)[handle := f]
          && handle !in old(openFiles) && handle !in old(dirs)
        case Refused(e) =>
          ec == e && handle == [] && given == old(given) && openFiles == old(openFiles)
    {
      if file.Refused? {
        return file.ec, [];
      }
      Fresh();
      hide Decimal;
      handleGen := handleGen + 1;
      ec, handle := NoError, Decimal(handleGen);
      assert handle[0] != LETTER_D;
      if handle !in openFiles {
        openFiles := openFiles[handle := file.value];
      }
      given := given + [handle];
    }

    method Opendir(dir: Attempt<D>) returns (ec: Error, handle: bytes)
      requires Valid() && (dir.Refused? ==> dir.ec.Failed())
      modifies this
      ensures Valid() && openFiles == old(openFiles)
      ensures match dir
        case Opened(d) =>
          && ec == NoError && handle !in old(given) && given == old(given) + [handle]
          && dirs == old(dirs)[handle := d]
          && handle !in old(openFiles) && handle !in old(dirs)
        case Refused(e) =>
          ec == e && handle == [] && given == old(given) && dirs == old(dirs)
    {
      if dir.Refused? {
        return dir.ec, [];
      }
      Fresh();
      hide Decimal;
      handleGen := handleGen + 1;
      ec, handle := NoError, [LETTER_D] + Decimal(handleGen);
      if handle !in dirs {
        dirs := dirs[handle := dir.value];
      }
      given := given + [handle];
    }

    /** close: exactly the named handle goes, whichever table it is in; a handle that is not
        open is an error and changes nothing. */
    method Close(handle: bytes) returns (ec: Error)
      requires Valid()
      modifies this
      ensures Valid() && given == old(given)
      ensures openFiles == old(openFiles) - {handle} && dirs == old(dirs) - {handle}
      ensures ec == NoError <==> handle in old(openFiles) || handle in old(dirs)
      ensures ec != NoError ==> ec == System({BadFileDescriptor})
    {
      hide Decimal;
      if handle !in openFiles {
        assert openFiles == openFiles - {handle};
        if handle !in dirs {
          assert dirs == dirs - {handle};
          return System({BadFileDescriptor});
        }
        dirs := dirs - {handle};
      } else {
        assert dirs == dirs - {handle};
        openFiles := openFiles - {handle};
      }
      ec := NoError;
    }
  }
}
