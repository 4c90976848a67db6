/** The byte source underneath the readers, seen through its single primitive:
    "fill up to this many bytes of a buffer and say how many were produced".

    A source is modelled by the bytes it still holds and a finite script of the
    responses its next raw reads give. Each raw read consumes one script entry;
    once the script is used up, every read produces as many bytes as fit. */
module RawReads {
  import opened IoErrors

  /** A byte, as its value. */
  type Byte = b: int | 0 <= b < 256

  /** A positive byte count. */
  type Pos = k: nat | 1 <= k witness 1

  /** The response of one raw read: either deliver at most `limit` bytes (fewer
      if the buffer or the remaining data is smaller), or fail with an error
      of the given kind. `Fail(Interrupted)` is the transient, retryable
      interruption. */
  datatype Response = Chunk(limit: Pos) | Fail(kind: IoKind)

  /** The outcome of one raw read and the script left after it. */
  datatype Raw = Raw(result: Result<nat>, script: seq<Response>)

  /** The number of bytes a raw read produced: none when it failed. */
  function Count(r: Result<nat>): (c: nat)
  {
    if r.Ok? then r.value else 0
  }

  function Min(a: nat, b: nat): (m: nat) { if a <= b then a else b }

  /** One raw read into a buffer with room for `space` bytes, from a source
      with `avail` bytes left; a read that produces `m` bytes produces the
      next `m` bytes of the source and consumes them. Its contract is that
      of a reader: never more bytes than fit or than are left, zero bytes
      only for an empty buffer or an exhausted source, and a failure only
      when the script says so. */
  function RawRead(avail: nat, script: seq<Response>, space: nat): (r: Raw)
    ensures r.result.Ok? ==> r.result.value <= space && r.result.value <= avail
    ensures r.result.Ok? ==> (r.result.value == 0 <==> space == 0 || avail == 0)
    ensures r.result.Err? ==> script != [] && script[0] == Fail(r.result.error.kind)
    ensures r.script == if script == [] then [] else script[1..]
  {
    if script == [] then
      Raw(Ok(Min(space, avail)), [])
    else
      match script[0]
      case Chunk(k) => Raw(Ok(Min(Min(k, space), avail)), script[1..])
      case Fail(kind) => Raw(Err(Io(kind)), script[1..])
  }

  /** Whether a script fails only with retryable interruptions. */
  ghost predicate OnlyInterruptions(script: seq<Response>)
  {
    forall i :: 0 <= i < |script| && script[i].Fail? ==> script[i].kind == Interrupted
  }

  /** The script with every interruption removed. */
  function WithoutInterruptions(script: seq<Response>): (r: seq<Response>)
    ensures |r| <= |script|
    ensures Fail(Interrupted) !in r
  {
    if script == [] then []
    else if script[0] == Fail(Interrupted) then WithoutInterruptions(script[1..])
    else [script[0]] + WithoutInterruptions(script[1..])
  }
}
