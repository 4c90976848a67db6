/** A reader that counts the bytes it yields and can skip padding up to an
    alignment boundary, plus the typed decoders used through it. */
module Aligning {
  import opened IoErrors
  import opened RawReads
  import opened EofReads
  import opened BigEndian
  import opened Sources

  /** How a decoder reports the exact read beneath it: its error unchanged,
      `None` for a clean stop, and a value when the buffer was filled. */
  predicate Forwards<T>(r: Result<Option<T>>, res: Result<bool>)
  {
    (res.Err? ==> r == Err(res.error)) &&
    (res == Ok(false) ==> r == Ok(None)) &&
    (res == Ok(true) ==> r.Ok? && r.value.Some?)
  }

  /** The number of bytes that brings `offset` up to the next multiple of
      `alignment`: none when it is a multiple already, and otherwise the
      smallest positive count that reaches one. */
  function Padding(offset: nat, alignment: nat): (p: nat)
    requires 0 < alignment
    ensures p < alignment && (offset + p) % alignment == 0
    ensures p == 0 <==> offset % alignment == 0
  {
    var excess := offset % alignment;
    if excess == 0 then 0
    else
      RemainderUnique(offset + (alignment - excess), alignment, offset / alignment + 1, 0);
      alignment - excess
  }

  /** The state `align_to` leaves behind: its result, the new offset and the
      wrapped source's data and script. */
  datatype Aligned = Aligned(result: Result<bool>, offset: nat, data: seq<Byte>, script: seq<Response>)

  /** Aligning a reader at `offset` over a source holding `data`: with no
      padding needed, `Ok(true)` and nothing changes; otherwise the padding is
      read exactly from the source, that read's outcome is the result, and
      on either `Ok` the padding is added to the offset. */
  function Align(offset: nat, alignment: nat, data: seq<Byte>, script: seq<Response>): (a: Aligned)
    requires 0 < alignment
    ensures a.result.Err? ==> a.offset == offset
    ensures a.result.Ok? ==> a.offset == offset + Padding(offset, alignment)
  {
    var amount := Padding(offset, alignment);
    if amount == 0 then Aligned(Ok(true), offset, data, script)
    else
      var e := EofRead(data, script, amount);
      Aligned(e.result, if e.result.Ok? then offset + amount else offset, e.data, e.script)
  }

  /** After either `Ok` the offset is a multiple of the alignment. */
  lemma AlignAligns(offset: nat, alignment: nat, data: seq<Byte>, script: seq<Response>)
    requires 0 < alignment
    ensures var a := Align(offset, alignment, data, script);
      a.result.Ok? ==> a.offset % alignment == 0 && a.offset - offset < alignment
  {
  }

  /** An aligned reader reports `Ok(true)` and reads nothing. */
  lemma AlignAlreadyAligned(offset: nat, alignment: nat, data: seq<Byte>, script: seq<Response>)
    requires 0 < alignment && offset % alignment == 0
    ensures Align(offset, alignment, data, script) == Aligned(Ok(true), offset, data, script)
  {
  }

  /** `Ok(true)` means the padding was there and was consumed, and the
      offset grew by exactly the bytes consumed. */
  lemma AlignConsumesPadding(offset: nat, alignment: nat, data: seq<Byte>, script: seq<Response>)
    requires 0 < alignment
    ensures var a := Align(offset, alignment, data, script);
      var p := Padding(offset, alignment);
      a.result == Ok(true) ==> p <= |data| && a.data == data[p..] && a.offset == offset + p
  {
    var p := Padding(offset, alignment);
    if p > 0 {
      EofReadOutcomes(data, script, p);
    }
  }

  /** `Ok(false)` happens only when padding was needed and the source was
      already exhausted, and the padding is then added to the offset even
      though no byte was read. */
  lemma AlignCleanStop(offset: nat, alignment: nat, data: seq<Byte>, script: seq<Response>)
    requires 0 < alignment
    ensures var a := Align(offset, alignment, data, script);
      a.result == Ok(false) ==>
        offset % alignment != 0 && data == [] && a.data == [] && a.offset > offset
  {
    var p := Padding(offset, alignment);
    if p > 0 {
      EofReadOutcomes(data, script, p);
    }
  }

  /** On an error the offset is unchanged, although the bytes read before
      the failure have been consumed from the source. */
  lemma AlignErrorKeepsOffset(offset: nat, alignment: nat, data: seq<Byte>, script: seq<Response>)
    requires 0 < alignment
    ensures var a := Align(offset, alignment, data, script);
      a.result.Err? ==> a.offset == offset && |a.data| <= |data| && a.data == data[|data| - |a.data|..]
  {
  }

  /** The outcome of aligning, when the source fails only with
      interruptions: `Ok(true)` with the padding consumed and counted when
      the source holds it; `Ok(false)` when the source is already empty, with
      the padding still added to the offset; and otherwise `UnexpectedEof`,
      with the source drained and the offset unchanged. */
  lemma AlignClassifies(offset: nat, alignment: nat, data: seq<Byte>, script: seq<Response>)
    requires 0 < alignment && OnlyInterruptions(script)
    ensures var a := Align(offset, alignment, data, script);
      var p := Padding(offset, alignment);
      if p <= |data| then a.result == Ok(true) && a.offset == offset + p && a.data == data[p..]
      else if data == [] then a.result == Ok(false) && a.offset == offset + p && a.data == []
      else a.result == Err(Io(UnexpectedEof)) && a.offset == offset && a.data == []
  {
    var p := Padding(offset, alignment);
    if p > 0 {
      ReadLoopClassifies(|data|, script, 0, p);
    }
  }

  /** The remainder of `y` by `d` is the `r` of any `y == k * d + r` with
      `0 <= r < d`. */
  lemma RemainderUnique(y: int, d: int, k: int, r: int)
    requires 0 < d && 0 <= r < d && y == k * d + r
    ensures y % d == r
  {
    var q := y / d;
    var s := y % d;
    assert y == q * d + s;
    assert (k - q) * d == s - r;
    if k > q {
      MultipleAtLeast(k - q, d);
    } else if q > k {
      MultipleAtLeast(q - k, d);
    }
  }

  /** A positive multiple of a positive `d` is at least `d`. */
  lemma MultipleAtLeast(m: int, d: int)
    requires m >= 1 && d > 0
    ensures m * d >= d
  {
  }

  /** Wraps a source and counts in `offset` the bytes it has yielded since it
      was created (not the position of the source if it was read before). */
  class AligningReader {
    const inner: ByteSource
    var offset: nat

    /** Wraps `inner`, with nothing yielded yet. */
    constructor (inner: ByteSource)
      ensures this.inner == inner && offset == 0
    {
      this.inner := inner;
      offset := 0;
    }

    /** Gives back the wrapped source, in whatever state it is now. */
    method IntoInner() returns (src: ByteSource)
      ensures src == inner
    {
      src := inner;
    }

    /** The number of bytes yielded since creation; changes nothing. */
    method Offset() returns (o: nat)
      ensures o == offset
    {
      o := offset;
    }

    /** A raw read passed through to the wrapped source; a successful read of
        `n` bytes adds `n` to `offset` (zero bytes leave it unchanged), a
        failed one leaves it unchanged. */
    method Read(buf: array<Byte>, lo: nat, hi: nat) returns (r: Result<nat>)
      requires lo <= hi <= buf.Length
      modifies this, inner, buf
      ensures var raw := RawRead(|old(inner.data)|, old(inner.script), hi - lo);
        r == raw.result && inner.script == raw.script
      ensures lo + Count(r) <= hi && inner.data == old(inner.data)[Count(r)..]
      ensures buf[..] == Put(old(buf[..]), lo, old(inner.data)[..Count(r)])
      ensures offset == old(offset) + Count(r)
    {
      r := inner.Read(buf, lo, hi);
      if r.Ok? {
        offset := offset + r.value;
      }
    }

    /** The exact read with end-of-stream discrimination, looping over this
        reader's own `Read`: the outcome, the buffer and the source's state
        are those of `EofRead`, and every byte consumed (also those read
        before an `UnexpectedEof`) is added to `offset`. */
    method EofReadExact(buf: array<Byte>, len: nat) returns (r: Result<bool>)
      requires len <= buf.Length
      modifies this, inner, buf
      ensures var e := EofRead(old(inner.data), old(inner.script), len);
        r == e.result && inner.data == e.data && inner.script == e.script &&
        |e.got| <= len && buf[..] == Put(old(buf[..]), 0, e.got) &&
        offset == old(offset) + |e.got|
    {
      ghost var D, S, B := inner.data, inner.script, buf[..];
      var nLeft: nat := len;
      var ofs: nat := 0;
      ghost var target := ReadLoop(|D|, S, 0, len);
      ReadBegins(D, S, B, len);
      while nLeft > 0
        invariant Reading(D, S, B, len, target, ofs, nLeft, inner.data, inner.script, buf[..])
        invariant offset == old(offset) + ofs
        decreases |inner.script|, nLeft
      {
        ghost var data0, script0, buf0 := inner.data, inner.script, buf[..];
        var n := Read(buf, ofs, len);
        ReadStep(D, S, B, len, target, ofs, nLeft, data0, script0, buf0, n, inner.data, inner.script, buf[..]);
        match n {
          case Err(err) =>
            if err.kind == Interrupted {
              continue;
            }
            r := Err(err);
            return;
          case Ok(nRead) =>
            if nRead == 0 {
              r := if ofs == 0 then Ok(false) else Err(Io(UnexpectedEof));
              return;
            }
            ofs := ofs + nRead;
            nLeft := nLeft - nRead;
        }
      }
      ReadFinishes(D, S, B, len, target, ofs, inner.data, inner.script, buf[..]);
      r := Ok(true);
    }

    /** Reads and discards bytes up to the next multiple of `alignment`,
        straight from the wrapped source, with the outcome and new state
        that `Align` describes. */
    method AlignTo(alignment: nat) returns (r: Result<bool>)
      requires 0 < alignment <= 64
      modifies this, inner
      ensures var a := Align(old(offset), alignment, old(inner.data), old(inner.script));
        r == a.result && offset == a.offset && inner.data == a.data && inner.script == a.script
    {
      var buf := new Byte[64];
      var excess := offset % alignment;
      if excess == 0 {
        r := Ok(true);
      } else {
        var amount := alignment - excess;
        r := inner.EofReadExact(buf, amount);
        if r.Ok? {
          offset := offset + amount;
        }
      }
    }

    /** Reads a big-endian 64-bit signed integer: `None` on a clean stop,
        errors forwarded, otherwise the two's-complement value of the next
        8 bytes of the source. */
    method EofReadBeI64() returns (r: Result<Option<I64>>)
      modifies this, inner
      ensures var e := EofRead(old(inner.data), old(inner.script), 8);
        inner.data == e.data && inner.script == e.script &&
        offset == old(offset) + |e.got| && Forwards(r, e.result)
      ensures r.Ok? && r.value.Some? ==>
        8 <= |old(inner.data)| && r.value.value == ReadI64(old(inner.data)[..8])
    {
      var buf := new Byte[8];
      ghost var data0, before := inner.data, buf[..];
      EofReadOutcomes(inner.data, inner.script, 8);
      var filled := EofReadExact(buf, 8);
      if filled == Ok(true) {
        PutWhole(before, data0[..8]);
      }
      match filled {
        case Err(err) => r := Err(err);
        case Ok(full) =>
          r := if full then Ok(Some(ReadI64(buf[..]))) else Ok(None);
      }
    }

    /** Reads a big-endian 32-bit float, as its bit pattern: `None` on a
        clean stop, errors forwarded, otherwise the next 4 bytes of the
        source. */
    method EofReadBeF32() returns (r: Result<Option<F32Bits>>)
      modifies this, inner
      ensures var e := EofRead(old(inner.data), old(inner.script), 4);
        inner.data == e.data && inner.script == e.script &&
        offset == old(offset) + |e.got| && Forwards(r, e.result)
      ensures r.Ok? && r.value.Some? ==>
        4 <= |old(inner.data)| && r.value.value == ReadF32(old(inner.data)[..4])
    {
      var buf := new Byte[4];
      ghost var data0, before := inner.data, buf[..];
      EofReadOutcomes(inner.data, inner.script, 4);
      var filled := EofReadExact(buf, 4);
      if filled == Ok(true) {
        PutWhole(before, data0[..4]);
      }
      match filled {
        case Err(err) => r := Err(err);
        case Ok(full) =>
          r := if full then Ok(Some(ReadF32(buf[..]))) else Ok(None);
      }
    }

    /** Reads a complex number of two big-endian 32-bit floats: `None` on a
        clean stop, errors forwarded, otherwise the real part from the next
        4 bytes of the source and the imaginary part from the 4 after. */
    method EofReadBeC64() returns (r: Result<Option<Complex32>>)
      modifies this, inner
      ensures var e := EofRead(old(inner.data), old(inner.script), 8);
        inner.data == e.data && inner.script == e.script &&
        offset == old(offset) + |e.got| && Forwards(r, e.result)
      ensures r.Ok? && r.value.Some? ==>
        8 <= |old(inner.data)| &&
        r.value.value.re == ReadF32(old(inner.data)[..4]) &&
        r.value.value.im == ReadF32(old(inner.data)[4..8])
    {
      var buf := new Byte[8];
      ghost var data0, before := inner.data, buf[..];
      EofReadOutcomes(inner.data, inner.script, 8);
      var filled := EofReadExact(buf, 8);
      if filled == Ok(true) {
        PutWhole(before, data0[..8]);
        assert buf[..][..4] == data0[..4] && buf[..][4..] == data0[4..8];
      }
      match filled {
        case Err(err) => r := Err(err);
        case Ok(full) =>
          r := if full then Ok(Some(ReadC64(buf[..]))) else Ok(None);
      }
    }
  }
}
