/** Two clients of the aligning reader, over a source that first delivers a
    4-byte big-endian field and then some padding. What each call returns
    follows from the contracts alone. */
module Scenarios {
  import opened IoErrors
  import opened RawReads
  import opened EofReads
  import opened BigEndian
  import opened Sources
  import opened Aligning

  /** What exact reads of `n` bytes do to a source of `data` with no
      scripted responses. */
  lemma PlainRead(data: seq<Byte>, n: nat)
    ensures var e := EofRead(data, [], n);
      e.script == [] &&
      (n <= |data| ==> e.result == Ok(true) && e.got == data[..n] && e.data == data[n..]) &&
      (0 < n && data == [] ==> e.result == Ok(false) && e.data == []) &&
      (0 < |data| < n ==> e.result == Err(Io(UnexpectedEof)) && e.data == [])
  {
    assert OnlyInterruptions([]);
    ReadLoopClassifies(|data|, [], 0, n);
    ReadLoopScriptSuffix(|data|, [], 0, n);
  }

  /** After a 4-byte field, four padding bytes align the stream to 8: the
      padding read succeeds (and reports `Ok(true)`), the offset becomes 8,
      and the next 8-byte read is a clean stop. */
  method CompletePadding(field: seq<Byte>, padding: seq<Byte>)
    returns (first: Result<Option<F32Bits>>, pad: Result<bool>, offset: nat, next: Result<Option<I64>>)
    requires |field| == 4 && |padding| == 4
    ensures first == Ok(Some(ReadF32(field))) && pad == Ok(true) && offset == 8 && next == Ok(None)
  {
    var source := new ByteSource(field + padding, []);
    var reader := new AligningReader(source);
    PlainRead(field + padding, 4);
    assert (field + padding)[..4] == field && (field + padding)[4..] == padding;
    first := reader.EofReadBeF32();
    assert first == Ok(Some(ReadF32(field))) && reader.offset == 4;
    assert source.data == padding && source.script == [];
    PlainRead(padding, 4);
    pad := reader.AlignTo(8);
    assert pad == Ok(true) && reader.offset == 8;
    assert source.data == [] && source.script == [];
    offset := reader.Offset();
    PlainRead([], 8);
    next := reader.EofReadBeI64();
  }

  /** With only one to three padding bytes, aligning to 8 from offset 4 falls
      short: it fails with `UnexpectedEof`, the bytes are consumed but not
      counted, and the next read is a clean stop. */
  method TruncatedPadding(field: seq<Byte>, padding: seq<Byte>)
    returns (first: Result<Option<F32Bits>>, pad: Result<bool>, offset: nat, next: Result<Option<I64>>)
    requires |field| == 4 && 0 < |padding| < 4
    ensures first == Ok(Some(ReadF32(field))) && pad == Err(Io(UnexpectedEof)) && offset == 4 && next == Ok(None)
  {
    var source := new ByteSource(field + padding, []);
    var reader := new AligningReader(source);
    PlainRead(field + padding, 4);
    assert (field + padding)[..4] == field && (field + padding)[4..] == padding;
    first := reader.EofReadBeF32();
    assert first == Ok(Some(ReadF32(field))) && reader.offset == 4;
    assert source.data == padding && source.script == [];
    PlainRead(padding, 4);
    pad := reader.AlignTo(8);
    assert pad == Err(Io(UnexpectedEof)) && reader.offset == 4;
    assert source.data == [] && source.script == [];
    offset := reader.Offset();
    PlainRead([], 8);
    next := reader.EofReadBeI64();
  }
}
