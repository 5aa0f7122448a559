/**
 Bounded capture of two output streams (crates/analysis-mutate/src/command.rs,
 `CapturedOutput`, `drain_output`, `tail_bytes`, `bounded_lossy`, `finish_command`).
 */
module Capture {
  import opened Utf8

  // ----- reference -----

  /** The last `limit` bytes. */
  function Tail(bytes: Bytes, limit: nat): Bytes {
    if |bytes| <= limit then bytes else bytes[|bytes| - limit..]
  }

  lemma TailAppend(a: Bytes, b: Bytes, limit: nat)
    ensures Tail(Tail(a, limit) + b, limit) == Tail(a + b, limit)
  {
  }

  lemma TailBoth(a: Bytes, b: Bytes, limit: nat)
    ensures Tail(Tail(a, limit) + Tail(b, limit), limit) == Tail(a + b, limit)
  {
  }

  /** Appending fewer bytes than the limit drops the excess from the front of what was held. */
  lemma TailKeeping(held: Bytes, incoming: Bytes, limit: nat, excess: nat)
    requires |held| <= limit && |incoming| < limit
    requires excess == if |held| + |incoming| > limit then |held| + |incoming| - limit else 0
    ensures (if excess > 0 then held[excess..] else held) + incoming == Tail(held + incoming, limit)
  {
  }

  lemma TailNothing(bytes: Bytes)
    ensures Tail(bytes, 0) == []
  {
  }

  lemma TailReplacing(held: Bytes, incoming: Bytes, limit: nat)
    requires limit <= |incoming|
    ensures incoming[|incoming| - limit..] == Tail(held + incoming, limit)
  {
  }

  class CapturedOutput {
    var bytes: Bytes
    var truncated: bool

    constructor ()
      ensures bytes == [] && !truncated
    {
      bytes, truncated := [], false;
    }

    method ExtendTail(incoming: Bytes, limit: nat)
      requires |bytes| <= limit
      modifies this
      ensures bytes == Tail(old(bytes) + incoming, limit)
      ensures truncated <==> old(truncated) || |old(bytes)| + |incoming| > limit
    {
      if limit == 0 {
        TailNothing(bytes + incoming);
        truncated := truncated || incoming != [];
        return;
      }
      if |incoming| >= limit {
        ReplaceWithTail(incoming, limit);
        return;
      }
      TailKeeping(bytes, incoming, limit, if |bytes| + |incoming| > limit then |bytes| + |incoming| - limit else 0);
      var total := |bytes| + |incoming|;
      var excess := if total > limit then total - limit else 0;
      if excess > 0 {
        bytes := bytes[excess..];
        truncated := true;
      }
      bytes := bytes + incoming;
    }

    method ReplaceWithTail(incoming: Bytes, limit: nat)
      requires |bytes| <= limit <= |incoming|
      modifies this
      ensures bytes == Tail(old(bytes) + incoming, limit)
      ensures truncated <==> old(truncated) || |old(bytes)| + |incoming| > limit
    {
      truncated := truncated || bytes != [] || |incoming| > limit;
      TailReplacing(bytes, incoming, limit);
      bytes := incoming[|incoming| - limit..];
    }
  }

  /** The state of one stream after the bytes `received`. */
  ghost predicate Captured(bytes: Bytes, truncated: bool, received: Bytes, limit: nat) {
    bytes == Tail(received, limit) && (truncated <==> |received| > limit)
  }

  lemma CapturedMore(bytes: Bytes, truncated: bool, received: Bytes, chunk: Bytes, limit: nat)
    requires Captured(bytes, truncated, received, limit)
    ensures Captured(Tail(bytes + chunk, limit), truncated || |bytes| + |chunk| > limit, received + chunk, limit)
  {
    TailAppend(received, chunk, limit);
  }

  // ----- both reader threads, in any interleaving -----

  datatype Event = Stdout(chunk: Bytes) | Stderr(chunk: Bytes)

  /** The bytes of one stream, in order. */
  ghost function Received(events: seq<Event>, stdout: bool): Bytes {
    if events == [] then
      []
    else
      var last := events[|events| - 1];
      Received(events[..|events| - 1], stdout) + if last.Stdout? == stdout then last.chunk else []
  }

  method Drain(events: seq<Event>, limit: nat) returns (stdout: CapturedOutput, stderr: CapturedOutput)
    ensures fresh(stdout) && fresh(stderr) && stdout != stderr
    ensures Captured(stdout.bytes, stdout.truncated, Received(events, true), limit)
    ensures Captured(stderr.bytes, stderr.truncated, Received(events, false), limit)
  {
    stdout := new CapturedOutput();
    stderr := new CapturedOutput();
    for i := 0 to |events|
      invariant Captured(stdout.bytes, stdout.truncated, Received(events[..i], true), limit)
      invariant Captured(stderr.bytes, stderr.truncated, Received(events[..i], false), limit)
    {
      assert events[..i + 1][..i] == events[..i];
      match events[i]
      case Stdout(chunk) =>
        CapturedMore(stdout.bytes, stdout.truncated, Received(events[..i], true), chunk, limit);
        assert Received(events[..i + 1], false) == Received(events[..i], false) + [];
        stdout.ExtendTail(chunk, limit);
      case Stderr(chunk) =>
        CapturedMore(stderr.bytes, stderr.truncated, Received(events[..i], false), chunk, limit);
        assert Received(events[..i + 1], true) == Received(events[..i], true) + [];
        stderr.ExtendTail(chunk, limit);
    }
    assert events[..|events|] == events;
  }

  /** A stream that a descendant still holds open counts as truncated. */
  method FinishOutput(captured: CapturedOutput, completed: bool) returns (bytes: Bytes, truncated: bool)
    ensures bytes == captured.bytes && (truncated <==> captured.truncated || !completed)
  {
    bytes, truncated := captured.bytes, captured.truncated || !completed;
  }

  // ----- combining the streams -----

  method TailBytes(bytes: Bytes, limit: nat) returns (tail: Bytes, truncated: bool)
    ensures tail == Tail(bytes, limit) && (truncated <==> |bytes| > limit)
  {
    if |bytes| <= limit {
      return bytes, false;
    }
    return bytes[|bytes| - limit..], true;
  }

  ghost function FirstBoundary(s: Bytes, i: nat): (j: nat)
    requires i <= |s|
    ensures i <= j <= |s| && IsBoundary(s, j)
    ensures forall k :: i <= k < j ==> !IsBoundary(s, k)
    decreases |s| - i
  {
    if IsBoundary(s, i) then i else FirstBoundary(s, i + 1)
  }

  /** The longest suffix of the decoded text that has at most `limit` bytes and starts at a character boundary. */
  ghost function Rendered(bytes: Bytes, limit: nat): Bytes {
    var text := Lossy(bytes);
    if limit == 0 then [] else if |text| <= limit then text else text[FirstBoundary(text, |text| - limit)..]
  }

  /** Rendering gives valid text within the limit, at most three bytes short of it when text was dropped. */
  lemma RenderedBounds(bytes: Bytes, limit: nat)
    ensures IsUtf8(Rendered(bytes, limit)) && |Rendered(bytes, limit)| <= limit
    ensures |Lossy(bytes)| > limit > 0 ==> |Rendered(bytes, limit)| > limit - 4
    ensures IsUtf8(bytes) && |bytes| <= limit ==> Rendered(bytes, limit) == bytes
  {
    LossyValid(bytes);
    LossyFixed(bytes);
    var text := Lossy(bytes);
    if |text| > limit > 0 {
      var first := |text| - limit;
      BoundaryNear(text, first);
      BoundarySuffix(text, FirstBoundary(text, first));
    }
  }

  method BoundedLossy(bytes: Bytes, limit: nat) returns (text: Bytes, truncated: bool)
    ensures text == Rendered(bytes, limit) && (truncated <==> |Lossy(bytes)| > limit)
  {
    if limit == 0 {
      LossyEmpty(bytes);
      return [], bytes != [];
    }
    var rendered := Lossy(bytes);
    if |rendered| <= limit {
      return rendered, false;
    }
    var start := |rendered| - limit;
    while !IsBoundary(rendered, start)
      invariant start <= |rendered|
      invariant FirstBoundary(rendered, start) == FirstBoundary(rendered, |rendered| - limit)
      decreases |rendered| - start
    {
      start := start + 1;
    }
    return rendered[start..], true;
  }

  /**
   The output of a command, for any interleaving and chunking of its streams, is the rendering of the last `limit`
   bytes of standard output followed by standard error. It is flagged exactly when bytes or characters were
   dropped or a stream was cut off.
   */
  method FinishCommand(events: seq<Event>, limit: nat, stdoutCompleted: bool, stderrCompleted: bool)
    returns (output: Bytes, truncated: bool)
    ensures var all := Received(events, true) + Received(events, false);
            && output == Rendered(Tail(all, limit), limit)
            && (truncated <==> |all| > limit || |Lossy(Tail(all, limit))| > limit || !stdoutCompleted || !stderrCompleted)
  {
    var stdout, stderr := Drain(events, limit);
    var outBytes, outTruncated := FinishOutput(stdout, stdoutCompleted);
    var errBytes, errTruncated := FinishOutput(stderr, stderrCompleted);
    var combined, combinedTruncated := TailBytes(outBytes + errBytes, limit);
    TailBoth(Received(events, true), Received(events, false), limit);
    var encodingTruncated;
    output, encodingTruncated := BoundedLossy(combined, limit);
    truncated := outTruncated || errTruncated || combinedTruncated || encodingTruncated;
  }
}
