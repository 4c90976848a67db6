/** Exact reads that tell a clean end of stream from a truncated one.

    `ReadLoop` follows the reader's retry loop step by step, keeping only
    what its decisions depend on: how many bytes the source has left, the
    script of raw-read responses, how many bytes are in the buffer (`ofs`)
    and how many are still wanted (`left`). Since every raw read produces the
    source's next bytes, a loop that ends with `count` bytes in the buffer has
    placed exactly the first `count` bytes of the source there and consumed
    them; `EofRead` states the outcome in those terms. */
module EofReads {
  import opened IoErrors
  import opened RawReads

  /** Where the read loop ends: its result, the number of bytes in the
      buffer, and the script left. */
  datatype Loop = Loop(result: Result<bool>, count: nat, script: seq<Response>)

  /** The read loop over a source with `avail` bytes left, with `ofs` bytes
      already in the buffer and `left` still to read: done when nothing is
      left, and otherwise one more pass. The loop never takes more bytes than
      are wanted or than the source holds; it reports `Ok(true)` exactly when
      it filled the buffer, and `Ok(false)` only when nothing was read and
      the source was already exhausted. */
  function ReadLoop(avail: nat, script: seq<Response>, ofs: nat, left: nat): (l: Loop)
    ensures ofs <= l.count && l.count - ofs <= left && l.count - ofs <= avail
    ensures l.result == Ok(true) <==> l.count == ofs + left
    ensures l.result == Ok(false) ==> ofs == 0 && l.count == 0 && avail == 0 && left > 0
    decreases |script|, left, 1
  {
    if left == 0 then Loop(Ok(true), ofs, script)
    else LoopPass(avail, script, ofs, left)
  }

  /** One pass of the loop body, one raw read for the `left` bytes still
      wanted: an interruption is retried; any other failure ends the loop; a
      raw read producing nothing is a clean stop when nothing has been read
      yet in this call, and a truncation otherwise; a positive count moves
      the loop on. */
  function LoopPass(avail: nat, script: seq<Response>, ofs: nat, left: nat): (l: Loop)
    requires left > 0
    ensures ofs <= l.count && l.count - ofs <= left && l.count - ofs <= avail
    ensures l.result == Ok(true) <==> l.count == ofs + left
    ensures l.result == Ok(false) ==> ofs == 0 && l.count == 0 && avail == 0
    decreases |script|, left, 0
  {
    var raw := RawRead(avail, script, left);
    match raw.result
    case Err(e) =>
      if e.kind == Interrupted then ReadLoop(avail, raw.script, ofs, left)
      else Loop(Err(e), ofs, raw.script)
    case Ok(m) =>
      if m == 0 then
        Loop(if ofs == 0 then Ok(false) else Err(Io(UnexpectedEof)), ofs, raw.script)
      else
        ReadLoop(avail - m, raw.script, ofs + m, left - m)
  }

  /** The loop, resumed from a source with `avail` bytes left and `script`
      to come, with `ofs` bytes read and `left` still wanted, ends as `l`. */
  ghost predicate EndsAs(avail: nat, script: seq<Response>, ofs: nat, left: nat, l: Loop)
  {
    ReadLoop(avail, script, ofs, left) == l
  }

  /** The outcome of an exact read: `Ok(true)` when the buffer was filled,
      `Ok(false)` for a clean stop, an error otherwise; `got` holds the bytes
      written to the front of the buffer, `data` and `script` the source's
      state afterwards. */
  datatype Exact = Exact(result: Result<bool>, got: seq<Byte>, data: seq<Byte>, script: seq<Response>)

  /** Reading exactly `n` bytes from a source holding `data`: whatever the
      outcome, the bytes in the buffer are the first bytes of the source and
      exactly those were consumed. An empty buffer is filled at once. */
  function EofRead(data: seq<Byte>, script: seq<Response>, n: nat): (e: Exact)
    ensures n == 0 ==> e == Exact(Ok(true), [], data, script)
    ensures |e.got| <= |data| && |e.got| <= n && e.got == data[..|e.got|] && e.data == data[|e.got|..]
  {
    var l := ReadLoop(|data|, script, 0, n);
    Exact(l.result, data[..l.count], data[l.count..], l.script)
  }

  /** Helper step for the imperative loops: a raw read that produced
      `m > 0` bytes moves the loop on by `m`. */
  lemma ReadLoopAdvances(avail: nat, script: seq<Response>, ofs: nat, left: nat, m: nat)
    requires left > 0 && RawRead(avail, script, left).result == Ok(m) && m > 0
    ensures ReadLoop(avail, script, ofs, left) ==
      ReadLoop(avail - m, RawRead(avail, script, left).script, ofs + m, left - m)
  {
  }

  /** Helper step for the imperative loops: an interrupted raw read leaves
      the loop where it was. */
  lemma ReadLoopRetries(avail: nat, script: seq<Response>, ofs: nat, left: nat)
    requires left > 0 && RawRead(avail, script, left).result == Err(Io(Interrupted))
    ensures ReadLoop(avail, script, ofs, left) ==
      ReadLoop(avail, RawRead(avail, script, left).script, ofs, left)
  {
  }

  /** The exact read, once the loop is known to end as `l`. */
  lemma EofReadOfLoop(data: seq<Byte>, script: seq<Response>, n: nat, l: Loop)
    requires ReadLoop(|data|, script, 0, n) == l
    ensures EofRead(data, script, n) == Exact(l.result, data[..l.count], data[l.count..], l.script)
  {
  }

  /** Cutting a sequence at `i` and then `k` further on. */
  lemma SliceSplit<T>(s: seq<T>, i: nat, k: nat)
    requires i + k <= |s|
    ensures s[i..][k..] == s[i + k..]
    ensures s[..i] + s[i..][..k] == s[..i + k]
  {
  }

  /** Dropping responses from the front keeps a script free of hard failures. */
  lemma OnlyInterruptionsTail(script: seq<Response>)
    requires OnlyInterruptions(script)
    ensures forall k :: 0 <= k <= |script| ==> OnlyInterruptions(script[k..])
  {
    forall k, i | 0 <= k <= |script| && 0 <= i < |script[k..]| && script[k..][i].Fail?
      ensures script[k..][i].kind == Interrupted
    {
      assert script[k..][i] == script[k + i];
    }
  }

  /** The three-way classification, when the source fails only with
      interruptions: the buffer is filled when the source holds enough
      bytes; otherwise the read is a clean stop when the source is exhausted
      and nothing was read yet, and a truncation (`UnexpectedEof`) that
      takes everything that was left when it is not. */
  lemma {:induction false} ReadLoopClassifies(avail: nat, script: seq<Response>, ofs: nat, left: nat)
    requires OnlyInterruptions(script)
    ensures var l := ReadLoop(avail, script, ofs, left);
      if left <= avail then l.result == Ok(true) && l.count == ofs + left
      else if ofs == 0 && avail == 0 then l.result == Ok(false) && l.count == 0
      else l.result == Err(Io(UnexpectedEof)) && l.count == ofs + avail
    decreases |script|, left
  {
    if left > 0 {
      var raw := RawRead(avail, script, left);
      OnlyInterruptionsTail(script);
      match raw.result
      case Err(e) =>
        ReadLoopClassifies(avail, raw.script, ofs, left);
      case Ok(m) =>
        if m > 0 {
          ReadLoopClassifies(avail - m, raw.script, ofs + m, left - m);
        }
    }
  }

  /** The loop only consumes responses from the front of the script. */
  lemma {:induction false} ReadLoopScriptSuffix(avail: nat, script: seq<Response>, ofs: nat, left: nat)
    ensures var l := ReadLoop(avail, script, ofs, left);
      |l.script| <= |script| && l.script == script[|script| - |l.script|..]
    decreases |script|, left
  {
    if left > 0 {
      var raw := RawRead(avail, script, left);
      var l := ReadLoop(avail, script, ofs, left);
      match raw.result
      case Err(e) =>
        if e.kind == Interrupted {
          ReadLoopScriptSuffix(avail, raw.script, ofs, left);
          assert script[1..][|script| - 1 - |l.script|..] == script[|script| - |l.script|..];
        }
      case Ok(m) =>
        if m > 0 {
          ReadLoopScriptSuffix(avail - m, raw.script, ofs + m, left - m);
          if script != [] {
            assert script[1..][|script| - 1 - |l.script|..] == script[|script| - |l.script|..];
          }
        }
    }
  }

  /** Interruptions are invisible: dropping them from the script changes
      neither the outcome nor the number of bytes read. */
  lemma {:induction false} ReadLoopIgnoresInterruptions(avail: nat, script: seq<Response>, ofs: nat, left: nat)
    ensures var l := ReadLoop(avail, script, ofs, left);
      var l' := ReadLoop(avail, WithoutInterruptions(script), ofs, left);
      l.result == l'.result && l.count == l'.count
    decreases |script|, left
  {
    if left > 0 && script != [] {
      var rest := WithoutInterruptions(script[1..]);
      if script[0] == Fail(Interrupted) {
        ReadLoopIgnoresInterruptions(avail, script[1..], ofs, left);
      } else {
        var w := WithoutInterruptions(script);
        assert w == [script[0]] + rest;
        assert w[0] == script[0] && w[1..] == rest;
        var raw := RawRead(avail, script, left);
        assert RawRead(avail, w, left) == Raw(raw.result, rest);
        if raw.result.Ok? && raw.result.value > 0 {
          var m := raw.result.value;
          ReadLoopIgnoresInterruptions(avail - m, script[1..], ofs + m, left - m);
        }
      }
    }
  }

  /** A failure other than an interruption is returned at once: after any
      number of interruptions, the first hard failure ends the loop with
      that error and nothing more in the buffer. */
  lemma {:induction false} ReadLoopFailsFast(avail: nat, script: seq<Response>, ofs: nat, left: nat, j: nat)
    requires left > 0 && j < |script|
    requires forall i :: 0 <= i < j ==> script[i] == Fail(Interrupted)
    requires script[j].Fail? && script[j].kind != Interrupted
    ensures ReadLoop(avail, script, ofs, left) == Loop(Err(Io(script[j].kind)), ofs, script[j + 1..])
    decreases j
  {
    if j > 0 {
      assert script[0] == Fail(Interrupted);
      ReadLoopFailsFast(avail, script[1..], ofs, left, j - 1);
      assert script[1..][j..] == script[j + 1..];
    }
  }

  /** What an exact read of `n` bytes guarantees, whatever the source does:
      `Ok(true)` exactly when the buffer holds the next `n` bytes of the
      source and they have been consumed; `Ok(false)` only when `n > 0`, the
      source was empty and nothing was read or consumed; on an error, fewer
      than `n` bytes were read and exactly those were consumed. */
  lemma EofReadOutcomes(data: seq<Byte>, script: seq<Response>, n: nat)
    ensures var e := EofRead(data, script, n);
      (e.result == Ok(true) <==> n <= |data| && e.got == data[..n] && e.data == data[n..]) &&
      (e.result == Ok(false) ==> n > 0 && data == [] && e.got == [] && e.data == []) &&
      (e.result.Err? ==> |e.got| < n)
  {
    var e := EofRead(data, script, n);
    if n <= |data| && e.got == data[..n] {
      assert |e.got| == n;
    }
  }

  /** A source holding between 1 and `n - 1` bytes, and failing only with
      interruptions, yields `UnexpectedEof` for an exact read of `n` bytes,
      never a success and never a clean stop, and is left exhausted. */
  lemma EofReadTruncation(data: seq<Byte>, script: seq<Response>, n: nat)
    requires OnlyInterruptions(script)
    requires 0 < |data| < n
    ensures var e := EofRead(data, script, n);
      e.result == Err(Io(UnexpectedEof)) && e.got == data && e.data == []
  {
    ReadLoopClassifies(|data|, script, 0, n);
  }

  /** Reading exactly as many bytes as the source holds succeeds, and the
      next exact read of any positive length is a clean stop, when the source
      fails only with interruptions. */
  lemma EofReadThenCleanStop(data: seq<Byte>, script: seq<Response>, m: nat)
    requires OnlyInterruptions(script)
    requires m > 0
    ensures var e := EofRead(data, script, |data|);
      e.result == Ok(true) && e.got == data &&
      EofRead(e.data, e.script, m).result == Ok(false)
  {
    var e := EofRead(data, script, |data|);
    ReadLoopClassifies(|data|, script, 0, |data|);
    ReadLoopScriptSuffix(|data|, script, 0, |data|);
    OnlyInterruptionsTail(script);
    assert OnlyInterruptions(e.script);
    ReadLoopClassifies(0, e.script, 0, m);
  }

  /** Interruptions are invisible to an exact read: the outcome, the bytes
      read and the data left are those of the same read with every
      interruption removed from the script. */
  lemma EofReadIgnoresInterruptions(data: seq<Byte>, script: seq<Response>, n: nat)
    ensures var e := EofRead(data, script, n);
      var e' := EofRead(data, WithoutInterruptions(script), n);
      e.result == e'.result && e.got == e'.got && e.data == e'.data
  {
    ReadLoopIgnoresInterruptions(|data|, script, 0, n);
  }

  /** When only interruptions come before it, the first failure other than
      an interruption ends an exact read of a positive length with that
      failure, consuming no data. */
  lemma EofReadFailsFast(data: seq<Byte>, script: seq<Response>, n: nat, j: nat)
    requires n > 0 && j < |script|
    requires forall i :: 0 <= i < j ==> script[i] == Fail(Interrupted)
    requires script[j].Fail? && script[j].kind != Interrupted
    ensures EofRead(data, script, n) == Exact(Err(Io(script[j].kind)), [], data, script[j + 1..])
  {
    ReadLoopFailsFast(|data|, script, 0, n, j);
  }
}
