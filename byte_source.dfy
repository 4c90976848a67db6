/** A byte source as an object: its raw read fills part of a caller's buffer
    in place, and the exact read with end-of-stream discrimination loops over
    that raw read. */
module Sources {
  import opened IoErrors
  import opened RawReads
  import opened EofReads

  /** `buf` with `got` written over it from index `lo` on. */
  function Put(buf: seq<Byte>, lo: nat, got: seq<Byte>): (r: seq<Byte>)
    requires lo + |got| <= |buf|
    ensures |r| == |buf|
    ensures forall i :: 0 <= i < |r| ==> r[i] == if lo <= i < lo + |got| then got[i - lo] else buf[i]
  {
    buf[..lo] + got + buf[lo + |got|..]
  }

  /** Writing `more` right after `got` extends what was written. */
  lemma PutExtend(buf: seq<Byte>, got: seq<Byte>, more: seq<Byte>)
    requires |got| + |more| <= |buf|
    ensures Put(Put(buf, 0, got), |got|, more) == Put(buf, 0, got + more)
  {
    assert Put(Put(buf, 0, got), |got|, more) == Put(buf, 0, got + more) by {
      var p := Put(Put(buf, 0, got), |got|, more);
      var q := Put(buf, 0, got + more);
      assert forall i :: 0 <= i < |p| ==> p[i] == q[i];
    }
  }

  /** Writing nothing changes nothing. */
  lemma PutNothing(buf: seq<Byte>, lo: nat)
    requires lo <= |buf|
    ensures Put(buf, lo, []) == buf
  {
    assert Put(buf, lo, []) == buf by {
      assert forall i :: 0 <= i < |buf| ==> Put(buf, lo, [])[i] == buf[i];
    }
  }

  /** Writing over the whole buffer leaves exactly what was written. */
  lemma PutWhole(buf: seq<Byte>, got: seq<Byte>)
    requires |got| == |buf|
    ensures Put(buf, 0, got) == got
  {
    assert Put(buf, 0, got) == got by {
      assert forall i :: 0 <= i < |got| ==> Put(buf, 0, got)[i] == got[i];
    }
  }

  /** Where an exact read of `len` bytes stands after `ofs` of them were
      read: `D`, `S` and `B` are the source's data and script and the buffer
      when it began, `t` the outcome `ReadLoop` gives it, `data`, `script` and
      `buf` their values now. The bytes read so far have left the source and
      sit at the front of the buffer, and continuing the loop from here ends
      as `t`. */
  ghost predicate Reading(D: seq<Byte>, S: seq<Response>, B: seq<Byte>, len: nat, t: Loop,
                          ofs: nat, nLeft: nat, data: seq<Byte>, script: seq<Response>, buf: seq<Byte>)
  {
    EndsAs(|D|, S, 0, len, t) &&
    ofs + nLeft == len <= |B| && ofs <= |D| &&
    data == D[ofs..] && buf == Put(B, 0, D[..ofs]) &&
    EndsAs(|data|, script, ofs, nLeft, t)
  }

  /** An exact read of `len` bytes from `D`, `S` into a buffer `B` ended as
      `EofRead` says: with result `r`, leaving `data` and `script` in the
      source and the bytes it took at the front of `buf`, `got` of them. */
  ghost predicate ReadEnded(D: seq<Byte>, S: seq<Response>, B: seq<Byte>, len: nat,
                            r: Result<bool>, got: nat, data: seq<Byte>, script: seq<Response>, buf: seq<Byte>)
  {
    var e := EofRead(D, S, len);
    r == e.result && data == e.data && script == e.script &&
    |e.got| == got <= len <= |B| && buf == Put(B, 0, e.got)
  }

  /** Before the first raw read nothing has been read. */
  lemma ReadBegins(D: seq<Byte>, S: seq<Response>, B: seq<Byte>, len: nat)
    requires len <= |B|
    ensures Reading(D, S, B, len, ReadLoop(|D|, S, 0, len), 0, len, D, S, B)
  {
    PutNothing(B, 0);
  }

  /** One pass of the read loop, in terms of the values before and after the
      raw read. An interruption leaves the loop where it was; a positive
      count moves it on, both in the source and in the buffer; any other
      outcome ends the exact read as `EofRead` says. */
  lemma ReadStep(D: seq<Byte>, S: seq<Response>, B: seq<Byte>, len: nat, t: Loop, ofs: nat, nLeft: nat,
                 data0: seq<Byte>, script0: seq<Response>, buf0: seq<Byte>,
                 n: Result<nat>, data1: seq<Byte>, script1: seq<Response>, buf1: seq<Byte>)
    requires nLeft > 0 && Reading(D, S, B, len, t, ofs, nLeft, data0, script0, buf0)
    requires var raw := RawRead(|data0|, script0, len - ofs);
      n == raw.result && script1 == raw.script
    requires ofs + Count(n) <= len && data1 == data0[Count(n)..]
    requires buf1 == Put(buf0, ofs, data0[..Count(n)])
    ensures n == Err(Io(Interrupted)) ==>
      Reading(D, S, B, len, t, ofs, nLeft, data1, script1, buf1)
    ensures n.Ok? && n.value > 0 ==>
      Reading(D, S, B, len, t, ofs + n.value, nLeft - n.value, data1, script1, buf1)
    ensures n.Err? && n.error.kind != Interrupted ==>
      ReadEnded(D, S, B, len, Err(n.error), ofs, data1, script1, buf1)
    ensures n == Ok(0) ==>
      ReadEnded(D, S, B, len, if ofs == 0 then Ok(false) else Err(Io(UnexpectedEof)), ofs, data1, script1, buf1)
  {
    if n.Ok? && n.value > 0 {
      SliceSplit(D, ofs, n.value);
      PutExtend(B, D[..ofs], data0[..n.value]);
      ReadLoopAdvances(|data0|, script0, ofs, nLeft, n.value);
    } else {
      PutNothing(buf0, ofs);
      if n == Err(Io(Interrupted)) {
        ReadLoopRetries(|data0|, script0, ofs, nLeft);
      }
    }
  }

  /** Once nothing is left to read, the exact read ends with `Ok(true)`. */
  lemma ReadFinishes(D: seq<Byte>, S: seq<Response>, B: seq<Byte>, len: nat, t: Loop, ofs: nat,
                     data: seq<Byte>, script: seq<Response>, buf: seq<Byte>)
    requires Reading(D, S, B, len, t, ofs, 0, data, script, buf)
    ensures ReadEnded(D, S, B, len, Ok(true), ofs, data, script, buf)
  {
    EofReadOfLoop(D, S, len, ReadLoop(|data|, script, ofs, 0));
  }

  /** A source holding `data`, whose next raw reads respond as `script` says. */
  class ByteSource {
    var data: seq<Byte>
    var script: seq<Response>

    constructor (data: seq<Byte>, script: seq<Response>)
      ensures this.data == data && this.script == script
    {
      this.data := data;
      this.script := script;
    }

    /** One raw read into the slice `buf[lo..hi]`: the outcome is `RawRead`'s,
        and the bytes produced are the source's next bytes, taken from it and
        placed at the front of the slice; the rest of the buffer is left as
        it was. */
    method Read(buf: array<Byte>, lo: nat, hi: nat) returns (r: Result<nat>)
      requires lo <= hi <= buf.Length
      modifies this, buf
      ensures var raw := RawRead(|old(data)|, old(script), hi - lo);
        r == raw.result && script == raw.script
      ensures lo + Count(r) <= hi && data == old(data)[Count(r)..]
      ensures buf[..] == Put(old(buf[..]), lo, old(data)[..Count(r)])
    {
      var raw := RawRead(|data|, script, hi - lo);
      if raw.result.Ok? {
        var m := raw.result.value;
        forall i | lo <= i < lo + m {
          buf[i] := data[i - lo];
        }
        assert buf[..] == Put(old(buf[..]), lo, data[..m]);
        data := data[m..];
      }
      r := raw.result;
      script := raw.script;
    }

    /** Reads exactly `len` bytes into `buf[..len]`. Returns `Ok(true)` once
        they are all read, `Ok(false)` when the first raw read that is not
        interrupted produces nothing, `UnexpectedEof` when the source ends
        part-way, and any other failure of a raw read as it is; interrupted
        raw reads are retried. The outcome, the bytes placed in the buffer
        and the source's new state are those of `EofRead`. */
    method EofReadExact(buf: array<Byte>, len: nat) returns (r: Result<bool>)
      requires len <= buf.Length
      modifies this, buf
      ensures var e := EofRead(old(data), old(script), len);
        r == e.result && data == e.data && script == e.script &&
        |e.got| <= len && buf[..] == Put(old(buf[..]), 0, e.got)
    {
      ghost var D, S, B := data, script, buf[..];
      var nLeft: nat := len;
      var ofs: nat := 0;
      ghost var target := ReadLoop(|D|, S, 0, len);
      ReadBegins(D, S, B, len);
      while nLeft > 0
        invariant Reading(D, S, B, len, target, ofs, nLeft, data, script, buf[..])
        decreases |script|, nLeft
      {
        ghost var data0, script0, buf0 := data, script, buf[..];
        var n := Read(buf, ofs, len);
        ReadStep(D, S, B, len, target, ofs, nLeft, data0, script0, buf0, n, data, script, buf[..]);
        match n {
          case Err(err) =>
            if err.kind == Interrupted {
              continue;
            }
            r := Err(err);
            return;
          case Ok(nRead) =>
            if nRead == 0 {
              r := if ofs == 0 then Ok(false) else Err(Io(UnexpectedEof));
              return;
            }
            ofs := ofs + nRead;
            nLeft := nLeft - nRead;
        }
      }
      ReadFinishes(D, S, B, len, target, ofs, data, script, buf[..]);
      r := Ok(true);
    }
  }
}
