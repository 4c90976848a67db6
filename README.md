# Aligned, EOF-aware reading (rubbl `core/src/io.rs`)

A Dafny model of the reading layer that rubbl's container-format parsers
stand on:

- **exact reads with end-of-stream discrimination** (`eof_read_exact`): read
  exactly N bytes through a raw `read` primitive. The outcome is one of
  three: the buffer was filled (`Ok(true)`), the stream was cleanly
  exhausted before the first byte (`Ok(false)`), or it ended part-way
  (`UnexpectedEof`). Interrupted raw reads are retried and any other failure
  is passed on;
- **typed big-endian decoders** over it (`eof_read_be_i64`, `_f32`, `_c64`):
  `None` on a clean stop, the decoded value otherwise;
- **the aligning reader** (`AligningReader`): wraps a byte source and counts
  the bytes it yields in `offset`; `align_to` discards padding up to the
  next multiple of an alignment;
- **`require_found`**: turns a "may be missing" result into a "must be
  there" one.

The byte source is a `ByteSource` object that holds the bytes it still has
(`data`) and a finite script of responses for its next raw reads. A
response either delivers at most k ≥ 1 bytes or fails with an error kind.
Once the script is used up, every raw read delivers as many bytes as fit.
`RawRead` states the contract every raw read keeps:

- it never delivers more bytes than fit or than are left;
- it delivers zero only for an empty buffer or an exhausted source;
- it fails only when the script says so.

`ReadLoop` follows the retry loop of `eof_read_exact` pass by pass, and
`EofRead` states the outcome. The two imperative versions of that loop are
proved against `EofRead`:

- `ByteSource.EofReadExact` fills an array in place;
- `AligningReader.EofReadExact` is the same loop over the reader's own
  `Read`, as Rust's blanket implementation gives it.

`AlignTo` is proved against the function `Align`. The decoders are proved
against `EofRead` and the big-endian decoding functions.

In three places the code does not do what a reader would expect, and the
model follows the code:

- On success, `align_to` returns the inner exact read's own result
  (`core/src/io.rs:82`). Padding that was consumed therefore gives
  `Ok(true)`, the same value as "already aligned". The doc comment at
  `core/src/io.rs:61-62` says otherwise.
- A source that is exhausted exactly where the padding should start gives
  `Ok(false)`, not `UnexpectedEof`. The offset still grows by the padding
  amount, because the check at `core/src/io.rs:78` only asks `is_ok()`.
- The padding is read through the wrapped source (`core/src/io.rs:76`), not
  through `AligningReader::read`. Padding bytes are counted only when the
  padding read succeeds. Bytes consumed before an `UnexpectedEof` are never
  counted.

After a 4-byte field followed by only 3 padding bytes, `align_to(8)` at
offset 4 needs 4 bytes and fails with `UnexpectedEof`.
`Scenarios.TruncatedPadding` proves this for 1 to 3 padding bytes.

## Model

| member | source | states |
|---|---|---|
| RawReads.RawRead | core/src/io.rs:206 | a raw read delivers at most the buffer's room and the bytes left; zero exactly for an empty buffer or an exhausted source; it fails only when the next scripted response is that failure; it consumes one scripted response |
| EofReads.ReadLoop | core/src/io.rs:205-227 | the read loop never takes more than is wanted or than the source holds; it ends in `Ok(true)` exactly when the buffer is full; `Ok(false)` only when nothing was read in this call, something was wanted and the source was empty |
| EofReads.LoopPass | core/src/io.rs:206-226 | one pass of the loop body keeps those same bounds and the same meaning of `Ok(true)` and `Ok(false)` |
| EofReads.EofRead | core/src/io.rs:201-230 | an exact read of n bytes places exactly the source's first bytes in the buffer and consumes exactly those, whatever the outcome; an empty buffer is filled at once with no read |
| EofReads.ReadLoopClassifies | core/src/io.rs:202-229 | with no hard failures in the script, the three-way outcome: filled when enough bytes are left; otherwise a clean stop when nothing was read and the source is empty; otherwise `UnexpectedEof` after taking everything left |
| EofReads.ReadLoopScriptSuffix | core/src/io.rs:205-215 | the loop only consumes responses from the front of the script |
| EofReads.ReadLoopIgnoresInterruptions | core/src/io.rs:208-211 | removing every interruption from the script changes neither the loop's outcome nor the number of bytes read |
| EofReads.ReadLoopFailsFast | core/src/io.rs:212-214 | after any number of interruptions, the first other failure ends the loop with that error and reads nothing more |
| EofReads.EofReadOutcomes | core/src/io.rs:202-229 | `Ok(true)` if and only if the buffer holds the next n bytes of the source and they were consumed; `Ok(false)` only for n > 0 and an empty source, with nothing read; on an error fewer than n bytes were read |
| EofReads.EofReadTruncation | core/src/io.rs:217-222 | when the script has no failures other than interruptions, a source holding 1 to n-1 bytes gives `UnexpectedEof`, all of its bytes in the buffer, and is left exhausted |
| EofReads.EofReadThenCleanStop | core/src/io.rs:217-219 | when the script has no failures other than interruptions, reading exactly what the source holds succeeds, and the next exact read of any positive length is a clean stop |
| EofReads.EofReadIgnoresInterruptions | core/src/io.rs:208-211 | the outcome, the bytes read and the data left do not depend on the interruptions in the script |
| EofReads.EofReadFailsFast | core/src/io.rs:212-214 | when only interruptions come before it, the first failure other than an interruption is returned as is, with no data consumed |
| Sources.ByteSource.Read | core/src/io.rs:206 | the raw read into `buf[lo..hi]` has `RawRead`'s outcome; the bytes produced are the source's next bytes, placed at `lo`; they leave the source; the rest of the buffer is untouched |
| Sources.ByteSource.EofReadExact | core/src/io.rs:201-230 | the in-place loop returns `EofRead`'s result and leaves the source as `EofRead` says; the bytes it read sit at the front of the buffer, and the rest of the buffer is unchanged |
| Sources.ReadBegins | core/src/io.rs:202-203 | before the first raw read, nothing is read, the source and buffer are untouched, and the loop will end as `ReadLoop` says |
| Sources.ReadStep | core/src/io.rs:205-226 | each pass keeps the loop invariant: an interruption changes nothing, a positive count moves the source and the buffer on together; any other outcome ends the read as `EofRead` says, with the bytes read so far in the buffer |
| Sources.ReadFinishes | core/src/io.rs:227-229 | when nothing is left to read, the exact read ends as `EofRead` with `Ok(true)` |
| Aligning.Padding | core/src/io.rs:70-75 | the padding is below the alignment and brings the offset to a multiple of it; it is zero exactly when the offset is already a multiple |
| Aligning.Align | core/src/io.rs:63-84 | alignment keeps the offset on an error; on either `Ok` it adds exactly the padding |
| Aligning.AlignAligns | core/src/io.rs:75-80 | after either `Ok` the offset is a multiple of the alignment and grew by less than the alignment |
| Aligning.AlignAlreadyAligned | core/src/io.rs:70-73 | an aligned offset gives `Ok(true)` with no read, leaving source and offset unchanged |
| Aligning.AlignConsumesPadding | core/src/io.rs:75-82 | `Ok(true)` means the padding bytes were in the source and were consumed, and the offset grew by exactly that many |
| Aligning.AlignCleanStop | core/src/io.rs:76-82 | `Ok(false)` happens only when padding was needed and the source was already empty, and the offset still grows |
| Aligning.AlignErrorKeepsOffset | core/src/io.rs:76-82 | on an error the offset is unchanged, while a prefix of the source may have been consumed |
| Aligning.AlignClassifies | core/src/io.rs:70-82 | when the source fails only with interruptions, the outcome in both directions: the padding is there ⇒ `Ok(true)`, consumed and counted; the source is empty ⇒ `Ok(false)` and the offset still grows by the padding; otherwise `UnexpectedEof`, source drained, offset unchanged |
| Aligning.AligningReader.constructor | core/src/io.rs:35-40 | the new reader wraps the given source with offset 0 |
| Aligning.AligningReader.IntoInner | core/src/io.rs:43-45 | gives back the wrapped source itself |
| Aligning.AligningReader.Offset | core/src/io.rs:53-55 | returns the offset and changes nothing |
| Aligning.AligningReader.Read | core/src/io.rs:87-96 | a pass-through raw read: the wrapped source's outcome, buffer and state; a read of n bytes adds exactly n to the offset (zero adds nothing); an error leaves it unchanged |
| Aligning.AligningReader.EofReadExact | core/src/io.rs:200-230 | the exact read over the reader's own `Read` gives `EofRead`'s outcome, buffer and source state; every byte consumed, including those before an `UnexpectedEof`, is added to the offset |
| Aligning.AligningReader.AlignTo | core/src/io.rs:63-84 | result, offset and source state are those of `Align` for the offset and source before the call |
| Aligning.AligningReader.EofReadBeI64 | core/src/io.rs:158-166 | `None` exactly for a clean stop; errors forwarded; otherwise the two's-complement value of the source's next 8 bytes; offset and source advance by the bytes read |
| Aligning.AligningReader.EofReadBeF32 | core/src/io.rs:171-179 | `None` exactly for a clean stop; errors forwarded; otherwise the bit pattern of the source's next 4 bytes; offset and source advance by the bytes read |
| Aligning.AligningReader.EofReadBeC64 | core/src/io.rs:185-196 | `None` exactly for a clean stop; errors forwarded; otherwise the real part comes from the next 4 bytes and the imaginary part from the 4 after them |
| BigEndian.ReadI64 | core/src/io.rs:162 | the two's-complement value of 8 big-endian bytes: congruent to their unsigned value modulo 2^64 and negative exactly when the first byte's top bit is set |
| BigEndian.ReadF32 | core/src/io.rs:175 | the bit pattern of 4 big-endian bytes: the first byte gives its top 8 bits, the last byte its low 8 bits |
| BigEndian.ReadC64 | core/src/io.rs:189-192 | a complex pair from 8 bytes: the real part's top byte is byte 0, the imaginary part's top byte is byte 4 |
| BigEndian.I64RoundTrip | core/src/io.rs:162 | decoding the 8-byte big-endian encoding of any `i64` gives it back |
| BigEndian.I64Bytes | core/src/io.rs:162 | every 8 bytes are the encoding of the `i64` they decode to |
| BigEndian.F32RoundTrip | core/src/io.rs:175 | decoding and encoding 4-byte float bit patterns are inverse both ways |
| BigEndian.C64RoundTrip | core/src/io.rs:189-192 | the real part comes first: decoding and encoding a complex pair are inverse both ways |
| BigEndian.ComplexExample | core/src/io.rs:189-192 | the bytes 3F 80 00 00 C0 00 00 00 decode to the pair (1.0, -2.0) as bit patterns |
| OpenResults.RequireFound | core/src/io.rs:129-140 | an error passes through unchanged; `Ok(Some(x))` becomes `Ok(x)`; `Ok(None)` becomes a `NotFound` error; the result is `Ok` exactly for a present value |
| OpenResults.Optional | core/src/io.rs:103-112 | the "may be missing" convention: `Ok(None)` exactly for a `NotFound` error |
| OpenResults.RequireFoundOfOptional | core/src/io.rs:103-112 | requiring a result that was reported as "may be missing" gives the original outcome back |
| OpenResults.OptionalOfRequireFound | core/src/io.rs:129-140 | going the other way loses only one distinction: an absent value and a `NotFound` error become the same |
| Scenarios.PlainRead | core/src/io.rs:201-230 | over a source with an empty script: enough bytes fill the buffer; an empty source is a clean stop; too few bytes are an `UnexpectedEof` that drains the source |
| Scenarios.CompletePadding | core/src/io.rs:63-84 | a 4-byte field and then 4 padding bytes: the field decodes; aligning to 8 gives `Ok(true)` and offset 8; the next read is a clean stop |
| Scenarios.TruncatedPadding | core/src/io.rs:63-84 | a 4-byte field and then 1 to 3 padding bytes: the field decodes; aligning to 8 fails with `UnexpectedEof` and the offset stays 4; the next read is a clean stop |

## Left out

- Real operating-system reads are not modelled. The byte source is a value with a finite script of responses, and no blocking, timing or signal delivery is modelled.
- The script of responses is finite, so an endless run of `Interrupted` responses is not modelled. On such a run the loop at `core/src/io.rs:205-211` retries forever; the finite script is what makes the loop's termination measure `|script|` work.
- A raw read returns 0 only once the source's data is exhausted. Rust's `Read` also allows a reader to return 0 and yield more bytes later, and that case is not modelled. The "`Ok(false)` means the source is empty" half of `EofReadOutcomes` and of `AlignCleanStop` depends on this.
- `Read` is generic in the source (`R: Read`). The model has two concrete instances: `ByteSource`, which `align_to` reads its padding from, and `AligningReader` itself, which the decoders read through.
- `into_inner` moves the source out and consumes the wrapper. Dafny has no move semantics, so `IntoInner` only returns the source reference, and the wrapper stays usable.
- Rust moves the source into the wrapper. In the model the caller keeps its reference to the `ByteSource`, so the source stays reachable, and could be read past the wrapper, while it is wrapped.
- The decoders are modelled on `AligningReader` only. On a plain source they would be the same loop over `ByteSource.Read`.
- IEEE-754 meaning of the floats is not modelled: `eof_read_be_f32` and `eof_read_be_c64` yield 32-bit bit patterns.
- Error messages ("unexpected EOF", "not found") and the error-chain types of the crate's `errors` module are not modelled. Errors are only their I/O kind.
- Aligning.AligningReader.AlignTo: the panic for an alignment above 64, and Rust's division-by-zero panic for alignment 0, are modelled as the precondition `0 < alignment <= 64`.
- `align_to` discards the contents of its 64-byte scratch buffer, and the model does not state them.
- Aligning.AligningReader.Read: `offset` is an unbounded `nat`, so a `u64` overflow of the offset is not modelled.
- `casatables/src/lib.rs` is not part of this model: it is a wrapper over foreign C++ calls.
