/** The serial wire format: a one-byte length header followed by the
    payload, and the polling loop that reassembles one frame from the
    byte stream of an open serial device.

    The device is an oracle: the loop's successive iterations see the
    successive elements of a finite sequence of `Poll`s. Each one records
    what `bytes_to_read` answered, what the `read` that followed (if any)
    put in the buffer, and the clock, in milliseconds, at that iteration. */
module Framing {
  import opened Ints
  import opened Wrappers
  import Constants

  /** The wire bytes of one frame: the payload length truncated to its low
      8 bits (`as u8`), then the payload itself. */
  function Encode(data: seq<byte>): (wire: seq<byte>)
    ensures |wire| == |data| + 1
    ensures wire[0] == |data| % 0x100
    ensures |data| <= Constants.MaximumDataLen ==> wire[0] == |data|
    ensures wire[1..] == data
  {
    [|data| % 0x100] + data
  }

  function Zeros(n: nat): (z: seq<byte>)
    ensures |z| == n
    ensures forall i | 0 <= i < n :: z[i] == 0
  {
    seq(n, _ => 0)
  }

  /** What a read of `n` bytes leaves in a zero-initialised buffer of that
      size when the device hands over `delivered`: the return count of
      `read` is ignored, so a short read leaves trailing zeros. */
  function Fill(n: nat, delivered: seq<byte>): (buf: seq<byte>)
    ensures |buf| == n
  {
    if n <= |delivered| then delivered[..n] else delivered + Zeros(n - |delivered|)
  }

  /** Byte `i` of the buffer is the `i`-th delivered byte, or zero past
      what was delivered. */
  lemma FillContents(n: nat, delivered: seq<byte>, i: nat)
    requires i < n
    ensures Fill(n, delivered)[i] == if i < |delivered| then delivered[i] else 0
  {
    if |delivered| < n && |delivered| <= i {
      assert Fill(n, delivered)[i] == Zeros(n - |delivered|)[i - |delivered|];
    }
  }

  datatype ReadReply = Read(bytes: seq<byte>) | ReadFailed(error: string)

  /** One iteration of the polling loop as seen from the device: either
      `bytes_to_read` failed, or it answered `available`; when that is
      positive the loop reads and `read` answers; `at` is the clock. */
  datatype Poll =
    | CountFailed(error: string)
    | Polled(available: nat, read: ReadReply, at: nat)

  /** The iteration ends the call with an I/O error. */
  predicate Fails(p: Poll) {
    p.CountFailed? || (0 < p.available && p.read.ReadFailed?)
  }

  /** No bytes were available at this iteration. */
  predicate IdlePoll(p: Poll) {
    p.Polled? && p.available == 0
  }

  /** Bytes were available and the read succeeded. */
  predicate DataPoll(p: Poll) {
    p.Polled? && 0 < p.available && p.read.Read?
  }

  /** The byte a header read obtains. */
  function HeaderByte(p: Poll): byte
    requires DataPoll(p)
  {
    Fill(1, p.read.bytes)[0]
  }

  /** The bytes a payload read appends: exactly `available` of them. */
  function Chunk(p: Poll): (c: seq<byte>)
    requires DataPoll(p)
    ensures 0 < |c| == p.available
  {
    Fill(p.available, p.read.bytes)
  }

  /** The state of one receive call: accumulated payload, declared length
      (0 while no non-zero header has been read) and the time of the last
      payload read (initially the time the call started). */
  datatype RxState = RxState(buffer: seq<byte>, expected: byte, lastRx: nat)

  function Start(t0: nat): RxState {
    RxState([], 0, t0)
  }

  /** How a receive call ends: it returns `result`, leaving the polls
      `rest` unseen; or the observations ran out while it was still
      polling (the real call would still be blocked). */
  datatype RxOutcome =
    | Finished(result: Result<Option<seq<byte>>>, rest: seq<Poll>)
    | Polling(state: RxState)
  {
    predicate HasFrame() {
      Finished? && result.Ok? && result.value.Some?
    }

    function Frame(): seq<byte>
      requires HasFrame()
    {
      result.value.value
    }
  }

  /** The check after the loop: the buffer is a frame only when it is
      non-empty and exactly as long as declared. */
  function Verdict(s: RxState): (r: Result<Option<seq<byte>>>)
    ensures r.Ok?
    ensures r.value.Some? <==> 0 < |s.buffer| == s.expected
    ensures r.value.Some? ==> r.value.value == s.buffer
  {
    if 0 < |s.buffer| && |s.buffer| == s.expected then Ok(Some(s.buffer)) else Ok(None)
  }

  /** What one iteration of the loop does: go on from a new state, or
      leave the loop with the call's result. */
  datatype Step = Continue(next: RxState) | Stop(result: Result<Option<seq<byte>>>)

  /** The message of the error a failing poll ends the call with. */
  function FailureMessage(p: Poll): string
    requires Fails(p)
  {
    if p.CountFailed? then "Fail on bytes_to_read: " + p.error else "Fail on read: " + p.read.error
  }

  /** One iteration of the loop of `do_receive` on poll `p` from state `s`:
      it ends the call with an error exactly when the poll failed. */
  function StepOf(p: Poll, s: RxState): (r: Step)
    ensures r.Stop? && r.result.Err? <==> Fails(p)
  {
    match p
    case CountFailed(e) => Stop(Err("Fail on bytes_to_read: " + e))
    case Polled(n, read, at) =>
      if 0 < n then
        match read
        case ReadFailed(e) => Stop(Err("Fail on read: " + e))
        case Read(bytes) =>
          if s.expected == 0 then
            Continue(s.(expected := Fill(1, bytes)[0]))
          else
            var buffer := s.buffer + Fill(n, bytes);
            if s.expected <= |buffer| then Stop(Verdict(s.(buffer := buffer)))
            else Continue(RxState(buffer, s.expected, at))
      else if s.expected == 0 || at - s.lastRx > Constants.SerialRxTimeoutMs then
        Stop(Verdict(s))
      else
        Continue(s)
  }

  /** The reassembly loop of `do_receive`, run from state `s` over `polls`. */
  function Reassemble(polls: seq<Poll>, s: RxState): (r: RxOutcome)
    ensures r.Finished? ==> |r.rest| < |polls|
    decreases |polls|
  {
    if polls == [] then Polling(s)
    else
      match StepOf(polls[0], s)
      case Stop(result) => Finished(result, polls[1..])
      case Continue(next) => Reassemble(polls[1..], next)
  }

  /** A failing `bytes_to_read` or `read` ends the call at once with an
      error naming the call that failed. */
  lemma StepErrors(p: Poll, s: RxState)
    ensures p.CountFailed? ==> StepOf(p, s) == Stop(Err("Fail on bytes_to_read: " + p.error))
    ensures p.Polled? && 0 < p.available && p.read.ReadFailed? ==>
              StepOf(p, s) == Stop(Err("Fail on read: " + p.read.error))
    ensures Fails(p) ==> StepOf(p, s) == Stop(Err(FailureMessage(p)))
  {
  }

  /** A step ends the call with an error exactly on a failing poll; it
      returns a frame only of the declared length extending the buffer,
      and otherwise only extends the buffer, keeping a declared length. */
  lemma StepFacts(p: Poll, s: RxState)
    ensures StepOf(p, s).Stop? && StepOf(p, s).result.Err? <==> Fails(p)
    ensures StepOf(p, s).Stop? && StepOf(p, s).result.Ok? && StepOf(p, s).result.value.Some? ==>
              var frame := StepOf(p, s).result.value.value;
              0 < |frame| == s.expected && s.buffer <= frame
    ensures StepOf(p, s).Continue? ==> s.buffer <= StepOf(p, s).next.buffer
    ensures StepOf(p, s).Continue? && 0 < s.expected ==> StepOf(p, s).next.expected == s.expected
  {
  }

  /** A finished call leaves a proper suffix of the polls unseen; an error
      comes from the last poll it consumed, which failed; a frame extends
      the starting buffer, has the declared length when one was declared,
      and is never empty nor longer than 255 bytes. */
  lemma {:induction false} ReassembleFacts(polls: seq<Poll>, s: RxState)
    ensures var r := Reassemble(polls, s);
      && (r.Finished? ==> |r.rest| < |polls| && r.rest == polls[|polls| - |r.rest|..])
      && (r.Finished? && r.result.Err? ==> Fails(polls[|polls| - |r.rest| - 1]))
      && (r.HasFrame() ==> s.buffer <= r.Frame() && 0 < |r.Frame()| <= Constants.MaximumDataLen)
      && (r.HasFrame() && 0 < s.expected ==> |r.Frame()| == s.expected)
    decreases |polls|
  {
    if polls != [] {
      StepFacts(polls[0], s);
      match StepOf(polls[0], s)
      case Stop(_) =>
      case Continue(next) =>
        ReassembleFacts(polls[1..], next);
        var r := Reassemble(polls, s);
        if r.Finished? {
          assert polls[1..][|polls| - 1 - |r.rest|..] == polls[|polls| - |r.rest|..];
        }
    }
  }

  /** A step that does not stop hands its state on to the rest of the polls. */
  lemma Unroll(polls: seq<Poll>, s: RxState)
    requires polls != [] && StepOf(polls[0], s).Continue?
    ensures Reassemble(polls, s) == Reassemble(polls[1..], StepOf(polls[0], s).next)
  {
  }

  /** A step that stops ends the call with its result, leaving the rest. */
  lemma Stops(polls: seq<Poll>, s: RxState)
    requires polls != [] && StepOf(polls[0], s).Stop?
    ensures Reassemble(polls, s) == Finished(StepOf(polls[0], s).result, polls[1..])
  {
  }

  /** Waiting for the header: only a successful read goes on, and it sets
      the declared length to the byte read. */
  lemma HeaderStep(p: Poll, t0: nat)
    ensures StepOf(p, Start(t0)).Continue? <==> DataPoll(p)
    ensures DataPoll(p) ==> StepOf(p, Start(t0)).next == RxState([], HeaderByte(p), t0)
    ensures !DataPoll(p) && StepOf(p, Start(t0)).result.Ok? ==> StepOf(p, Start(t0)).result.value.None?
  {
  }

  /** In the payload phase a step appends the poll's bytes to the buffer;
      a step that returns a frame returns exactly that buffer. */
  lemma {:induction false} PayloadStep(p: Poll, s: RxState)
    requires 0 < s.expected && |s.buffer| < s.expected
    ensures StepOf(p, s).Continue? ==>
              && StepOf(p, s).next.buffer == s.buffer + Contribution(p)
              && StepOf(p, s).next.expected == s.expected
              && |StepOf(p, s).next.buffer| < s.expected
    ensures StepOf(p, s).Stop? && StepOf(p, s).result.Ok? && StepOf(p, s).result.value.Some? ==>
              DataPoll(p) && StepOf(p, s).result.value.value == s.buffer + Chunk(p)
  {
    if IdlePoll(p) {
      assert Contribution(p) == [];
      assert s.buffer + [] == s.buffer;
    }
  }

  /** A timely poll that leaves the payload incomplete goes on. */
  lemma {:induction false} GoesOn(p: Poll, s: RxState)
    requires 0 < s.expected && |s.buffer| + |Contribution(p)| < s.expected
    requires (IdlePoll(p) && p.at - s.lastRx <= Constants.SerialRxTimeoutMs) || DataPoll(p)
    ensures StepOf(p, s) == Continue(RxState(s.buffer + Contribution(p), s.expected,
                                             if DataPoll(p) then p.at else s.lastRx))
  {
    if IdlePoll(p) {
      assert Contribution(p) == [];
      assert s.buffer + [] == s.buffer;
    }
  }

  /** A read that reaches or passes the declared length ends the call:
      with the frame when it reaches it exactly, with no message otherwise. */
  lemma {:induction false} Completes(p: Poll, s: RxState)
    requires 0 < s.expected && DataPoll(p) && s.expected <= |s.buffer| + |Chunk(p)|
    ensures StepOf(p, s) == Stop(Verdict(RxState(s.buffer + Chunk(p), s.expected, s.lastRx)))
  {
  }

  /** The polls arrive without failure, and no idle one comes later than
      the timeout after the last payload read (or `last`, before any). */
  predicate Timely(polls: seq<Poll>, last: nat)
    decreases |polls|
  {
    || polls == []
    || (IdlePoll(polls[0]) && polls[0].at - last <= Constants.SerialRxTimeoutMs && Timely(polls[1..], last))
    || (DataPoll(polls[0]) && Timely(polls[1..], polls[0].at))
  }

  /** The payload bytes one poll brings: its chunk, or nothing. */
  function Contribution(p: Poll): seq<byte> {
    if DataPoll(p) then Chunk(p) else []
  }

  /** The payload bytes read by the data polls, in order. */
  function Gathered(polls: seq<Poll>): seq<byte>
    decreases |polls|
  {
    if polls == [] then [] else Contribution(polls[0]) + Gathered(polls[1..])
  }

  /** The time of the last payload read among `polls`, `last` if none. */
  function LastRx(polls: seq<Poll>, last: nat): nat
    decreases |polls|
  {
    if polls == [] then last
    else LastRx(polls[1..], if DataPoll(polls[0]) then polls[0].at else last)
  }

  /** A timely run of polls that does not complete the payload leaves the
      loop running, with those bytes appended to the buffer. */
  lemma {:induction false} Continues(polls: seq<Poll>, tail: seq<Poll>, s: RxState)
    requires 0 < s.expected && |s.buffer| + |Gathered(polls)| < s.expected
    requires Timely(polls, s.lastRx)
    ensures Reassemble(polls + tail, s)
         == Reassemble(tail, RxState(s.buffer + Gathered(polls), s.expected, LastRx(polls, s.lastRx)))
    decreases |polls|
  {
    if polls == [] {
      assert polls + tail == tail;
      assert s.buffer + Gathered(polls) == s.buffer;
    } else {
      var p := polls[0];
      var all := polls + tail;
      var s' := RxState(s.buffer + Contribution(p), s.expected, if DataPoll(p) then p.at else s.lastRx);
      assert Gathered(polls) == Contribution(p) + Gathered(polls[1..]);
      assert Timely(polls[1..], s'.lastRx);
      assert Reassemble(all, s) == Reassemble(polls[1..] + tail, s') by {
        assert all[0] == p;
        assert all[1..] == polls[1..] + tail;
        GoesOn(p, s);
        Unroll(all, s);
      }
      Continues(polls[1..], tail, s');
      assert LastRx(polls, s.lastRx) == LastRx(polls[1..], s'.lastRx);
      assert s'.buffer + Gathered(polls[1..]) == s.buffer + Gathered(polls);
    }
  }

  /** Chunking does not matter: timely chunks whose total completes the
      declared length are reassembled into their concatenation. */
  lemma PayloadAssembly(init: seq<Poll>, last: Poll, rest: seq<Poll>, s: RxState)
    requires 0 < s.expected
    requires Timely(init, s.lastRx) && DataPoll(last)
    requires |s.buffer| + |Gathered(init)| + |Chunk(last)| == s.expected
    ensures Reassemble(init + [last] + rest, s)
         == Finished(Ok(Some(s.buffer + Gathered(init) + Chunk(last))), rest)
  {
    assert init + [last] + rest == init + ([last] + rest);
    Continues(init, [last] + rest, s);
    assert ([last] + rest)[1..] == rest;
  }

  /** Round trip: when the loop reads the header and then, in timely
      chunks, exactly the bytes of `Encode(payload)`, it returns `payload`. */
  lemma RoundTrip(payload: seq<byte>, t0: nat, header: Poll, init: seq<Poll>, last: Poll, rest: seq<Poll>)
    requires 0 < |payload| <= Constants.MaximumDataLen
    requires DataPoll(header) && Timely(init, t0) && DataPoll(last)
    requires [HeaderByte(header)] + Gathered(init) + Chunk(last) == Encode(payload)
    ensures Reassemble([header] + init + [last] + rest, Start(t0)) == Finished(Ok(Some(payload)), rest)
  {
    EncodeParts(payload, HeaderByte(header), Gathered(init), Chunk(last));
    Regroup(header, init, last, rest);
    HeaderThenPayload(header, init + [last] + rest, t0);
    PayloadFromScratch(init, last, rest, payload, t0);
  }

  /** A frame of at most 255 bytes splits into its length and its payload. */
  lemma EncodeParts(payload: seq<byte>, h: byte, front: seq<byte>, back: seq<byte>)
    requires |payload| <= Constants.MaximumDataLen && [h] + front + back == Encode(payload)
    ensures h == |payload| && front + back == payload
  {
    assert ([h] + front + back)[1..] == front + back;
  }

  /** Re-bracketing of the round trip's trace, header apart. */
  lemma Regroup(header: Poll, init: seq<Poll>, last: Poll, rest: seq<Poll>)
    ensures [header] + init + [last] + rest == [header] + (init + [last] + rest)
  {
  }

  /** The payload phase of a round trip, from an empty buffer. */
  lemma PayloadFromScratch(init: seq<Poll>, last: Poll, rest: seq<Poll>, payload: seq<byte>, t0: nat)
    requires 0 < |payload| <= Constants.MaximumDataLen
    requires Timely(init, t0) && DataPoll(last) && Gathered(init) + Chunk(last) == payload
    ensures Reassemble(init + [last] + rest, RxState([], |payload|, t0)) == Finished(Ok(Some(payload)), rest)
  {
    var s := RxState([], |payload|, t0);
    assert s.buffer + Gathered(init) + Chunk(last) == payload by {
      assert [] + Gathered(init) == Gathered(init);
    }
    PayloadAssembly(init, last, rest, s);
  }

  /** Reading a header moves the loop to the payload phase with the byte
      read as the declared length. */
  lemma HeaderThenPayload(header: Poll, after: seq<Poll>, t0: nat)
    requires DataPoll(header)
    ensures Reassemble([header] + after, Start(t0)) == Reassemble(after, RxState([], HeaderByte(header), t0))
  {
    var polls := [header] + after;
    assert polls[0] == header && polls[1..] == after;
    HeaderStep(header, t0);
    Unroll(polls, Start(t0));
  }

  /** In the payload phase, a returned frame is the buffer so far followed
      by the payload bytes read by the polls the call consumed. */
  lemma {:induction false} PayloadFromWire(polls: seq<Poll>, s: RxState)
    requires 0 < s.expected && |s.buffer| < s.expected
    ensures var r := Reassemble(polls, s);
      r.HasFrame() ==> |r.rest| < |polls| && r.Frame() == s.buffer + Gathered(polls[..|polls| - |r.rest|])
    decreases |polls|
  {
    var r := Reassemble(polls, s);
    if polls != [] && r.HasFrame() {
      var p := polls[0];
      var m := |polls| - |r.rest|;
      GatheredCons(polls, m);
      PayloadStep(p, s);
      if StepOf(p, s).Stop? {
        Stops(polls, s);
        assert polls[1..][..m - 1] == [];
        assert s.buffer + (Chunk(p) + []) == s.buffer + Chunk(p);
      } else {
        var next := StepOf(p, s).next;
        Unroll(polls, s);
        PayloadFromWire(polls[1..], next);
        assert next.buffer + Gathered(polls[1..][..m - 1]) == s.buffer + Gathered(polls[..m]);
      }
    }
  }

  /** The bytes of a non-empty prefix: the first poll's, then the rest's. */
  lemma GatheredCons(polls: seq<Poll>, m: nat)
    requires 1 <= m <= |polls|
    ensures Gathered(polls[..m]) == Contribution(polls[0]) + Gathered(polls[1..][..m - 1])
  {
    assert polls[..m][0] == polls[0];
    assert polls[..m][1..] == polls[1..][..m - 1];
  }

  /** The header read at index `k` declared `|frame|`, every header read
      before it declared 0 (and was skipped), and the payload reads after
      it, up to the first poll of `rest`, brought exactly `frame`: the
      bytes the loop read are `Zeros(k) + Encode(frame)`. */
  predicate FramedAt(polls: seq<Poll>, k: nat, rest: seq<Poll>, frame: seq<byte>) {
    var consumed := |polls| - |rest|;
    && k < consumed
    && (forall j | 0 <= j < k :: DataPoll(polls[j]) && HeaderByte(polls[j]) == 0)
    && DataPoll(polls[k]) && HeaderByte(polls[k]) == |frame|
    && Gathered(polls[k + 1..consumed]) == frame
  }

  /** A frame found after the first poll, when that poll read an empty
      header, is found one index later in the whole trace. */
  lemma FramedAfterSkip(polls: seq<Poll>, k: nat, rest: seq<Poll>, frame: seq<byte>)
    requires polls != [] && DataPoll(polls[0]) && HeaderByte(polls[0]) == 0
    requires |rest| < |polls| && FramedAt(polls[1..], k, rest, frame)
    ensures FramedAt(polls, k + 1, rest, frame)
  {
    var n := |polls| - |rest|;
    assert polls[1..][k + 1..n - 1] == polls[k + 2..n];
    assert forall j | 0 <= j < k :: polls[1..][j] == polls[j + 1];
  }

  /** A non-empty header read by the first poll frames what follows it. */
  lemma FramedFirst(polls: seq<Poll>, rest: seq<Poll>, frame: seq<byte>)
    requires |rest| < |polls| && DataPoll(polls[0]) && HeaderByte(polls[0]) == |frame|
    requires Gathered(polls[1..][..|polls| - 1 - |rest|]) == frame
    ensures FramedAt(polls, 0, rest, frame)
  {
    assert polls[1..][..|polls| - 1 - |rest|] == polls[1..|polls| - |rest|];
  }

  /** Converse of the round trip: whatever frame a receive call returns was
      on the wire, length header first, after nothing but empty headers. */
  lemma {:induction false} ReceivedFrameWasOnWire(polls: seq<Poll>, t0: nat)
    ensures var r := Reassemble(polls, Start(t0));
      r.HasFrame() ==> exists k :: FramedAt(polls, k, r.rest, r.Frame())
    decreases |polls|
  {
    var s := Start(t0);
    var r := Reassemble(polls, s);
    ReassembleFacts(polls, s);
    if polls != [] && r.HasFrame() {
      var p := polls[0];
      HeaderStep(p, t0);
      Unroll(polls, s);
      var h := HeaderByte(p);
      var s' := RxState([], h, t0);
      assert r == Reassemble(polls[1..], s');
      if h == 0 {
        assert s' == s;
        ReceivedFrameWasOnWire(polls[1..], t0);
        var k: nat :| FramedAt(polls[1..], k, r.rest, r.Frame());
        FramedAfterSkip(polls, k, r.rest, r.Frame());
      } else {
        PayloadFromWire(polls[1..], s');
        ReassembleFacts(polls[1..], s');
        assert [] + Gathered(polls[1..][..|polls| - 1 - |r.rest|]) == r.Frame();
        FramedFirst(polls, r.rest, r.Frame());
      }
    }
  }

  /** With nothing available and no header read, the call returns no
      message at once. */
  lemma IdleLineYieldsNothing(polls: seq<Poll>, t0: nat)
    requires 0 < |polls| && IdlePoll(polls[0])
    ensures Reassemble(polls, Start(t0)) == Finished(Ok(None), polls[1..])
  {
  }

  /** A zero header leaves the loop waiting for a header, as if it had not
      been read: an empty frame is never returned. */
  lemma ZeroHeaderSkipped(polls: seq<Poll>, t0: nat)
    requires 0 < |polls| && DataPoll(polls[0]) && HeaderByte(polls[0]) == 0
    ensures Reassemble(polls, Start(t0)) == Reassemble(polls[1..], Start(t0))
  {
  }

  /** Overshoot: a read that takes the buffer past the declared length
      ends the call with no message; the frame is neither truncated nor
      resynchronised. */
  lemma OvershootDiscards(init: seq<Poll>, big: Poll, rest: seq<Poll>, s: RxState)
    requires 0 < s.expected && |s.buffer| + |Gathered(init)| < s.expected
    requires Timely(init, s.lastRx) && DataPoll(big)
    requires s.expected < |s.buffer| + |Gathered(init)| + big.available
    ensures Reassemble(init + [big] + rest, s) == Finished(Ok(None), rest)
  {
    var s' := RxState(s.buffer + Gathered(init), s.expected, LastRx(init, s.lastRx));
    assert init + [big] + rest == init + ([big] + rest);
    Continues(init, [big] + rest, s);
    assert ([big] + rest)[0] == big && ([big] + rest)[1..] == rest;
    Completes(big, s');
    Stops([big] + rest, s');
  }

  /** Timeout: after a partial payload, an idle poll more than the timeout
      after the last payload read ends the call with no message (not an
      error); the partial buffer is dropped. */
  lemma StallDiscards(init: seq<Poll>, late: Poll, rest: seq<Poll>, s: RxState)
    requires 0 < s.expected && |s.buffer| + |Gathered(init)| < s.expected
    requires Timely(init, s.lastRx) && IdlePoll(late)
    requires late.at - LastRx(init, s.lastRx) > Constants.SerialRxTimeoutMs
    ensures Reassemble(init + [late] + rest, s) == Finished(Ok(None), rest)
  {
    var s' := RxState(s.buffer + Gathered(init), s.expected, LastRx(init, s.lastRx));
    assert init + [late] + rest == init + ([late] + rest);
    Continues(init, [late] + rest, s);
    assert ([late] + rest)[0] == late && ([late] + rest)[1..] == rest;
    assert StepOf(late, s') == Stop(Verdict(s'));
    Stops([late] + rest, s');
  }

  /** Whatever the state, a failing poll ends the call at once with its
      error, leaving the later polls unseen. */
  lemma FirstPollFails(polls: seq<Poll>, s: RxState)
    requires polls != [] && Fails(polls[0])
    ensures Reassemble(polls, s) == Finished(Err(FailureMessage(polls[0])), polls[1..])
  {
    StepErrors(polls[0], s);
    Stops(polls, s);
  }

  /** While waiting for the header, a failure after any number of skipped
      zero headers ends the call with the failing call's error. */
  lemma {:induction false} HeaderPhaseFailure(skipped: seq<Poll>, bad: Poll, rest: seq<Poll>, t0: nat)
    requires forall j | 0 <= j < |skipped| :: DataPoll(skipped[j]) && HeaderByte(skipped[j]) == 0
    requires Fails(bad)
    ensures Reassemble(skipped + [bad] + rest, Start(t0)) == Finished(Err(FailureMessage(bad)), rest)
    decreases |skipped|
  {
    var polls := skipped + [bad] + rest;
    if skipped == [] {
      assert polls == [bad] + rest;
      assert polls[1..] == rest;
      FirstPollFails(polls, Start(t0));
    } else {
      assert polls[0] == skipped[0];
      assert polls[1..] == skipped[1..] + [bad] + rest;
      ZeroHeaderSkipped(polls, t0);
      HeaderPhaseFailure(skipped[1..], bad, rest, t0);
    }
  }

  /** A failure in the payload phase, after any timely polls that leave
      the payload incomplete, ends the call with the failing call's error:
      the partial payload is dropped and the later polls are left unseen. */
  lemma PayloadPhaseFailure(init: seq<Poll>, bad: Poll, rest: seq<Poll>, s: RxState)
    requires 0 < s.expected && |s.buffer| + |Gathered(init)| < s.expected
    requires Timely(init, s.lastRx) && Fails(bad)
    ensures Reassemble(init + [bad] + rest, s) == Finished(Err(FailureMessage(bad)), rest)
  {
    var s' := RxState(s.buffer + Gathered(init), s.expected, LastRx(init, s.lastRx));
    assert init + [bad] + rest == init + ([bad] + rest);
    Continues(init, [bad] + rest, s);
    assert ([bad] + rest)[0] == bad && ([bad] + rest)[1..] == rest;
    FirstPollFails([bad] + rest, s');
  }

  /** A whole call that reads a header, then timely polls short of the
      payload, then meets a failing poll, returns that poll's error. */
  lemma FailureAfterHeader(header: Poll, init: seq<Poll>, bad: Poll, rest: seq<Poll>, t0: nat)
    requires DataPoll(header) && 0 < HeaderByte(header) && |Gathered(init)| < HeaderByte(header)
    requires Timely(init, t0) && Fails(bad)
    ensures Reassemble([header] + init + [bad] + rest, Start(t0)) == Finished(Err(FailureMessage(bad)), rest)
  {
    Regroup(header, init, bad, rest);
    HeaderThenPayload(header, init + [bad] + rest, t0);
    PayloadPhaseFailure(init, bad, rest, RxState([], HeaderByte(header), t0));
  }

  /** The timer runs from the start of the call until a payload byte is
      read: reading the header does not reset it. */
  lemma HeaderDoesNotResetTimer(header: Poll, late: Poll, rest: seq<Poll>, t0: nat)
    requires DataPoll(header) && 0 < HeaderByte(header)
    requires IdlePoll(late) && late.at - t0 > Constants.SerialRxTimeoutMs
    ensures Reassemble([header, late] + rest, Start(t0)) == Finished(Ok(None), rest)
  {
    assert ([header, late] + rest)[1..] == [late] + rest;
    assert ([late] + rest)[1..] == rest;
  }

  /** A payload of 256 bytes is announced with header 0: the truncating
      cast makes such frames unreceivable. */
  lemma OversizedHeaderTruncates(data: seq<byte>)
    requires |data| == Constants.MaximumDataLen + 1
    ensures Encode(data)[0] == 0
  {
  }

  /** Payload `[0x41, 0x42]` is sent as `[0x02, 0x41, 0x42]`; with those
      three bytes available at once, the header read takes one and the
      next read takes the other two, giving back the payload. */
  lemma BurstScenario(t0: nat)
    ensures Encode([0x41, 0x42]) == [0x02, 0x41, 0x42]
    ensures Reassemble([Polled(3, Read([0x02]), t0), Polled(2, Read([0x41, 0x42]), t0)], Start(t0))
         == Finished(Ok(Some([0x41, 0x42])), [])
  {
    var polls := [Polled(3, Read([0x02]), t0), Polled(2, Read([0x41, 0x42]), t0)];
    assert Fill(1, [0x02]) == [0x02];
    assert Fill(2, [0x41, 0x42]) == [0x41, 0x42];
    assert Reassemble(polls, Start(t0)) == Reassemble(polls[1..], RxState([], 2, t0));
    assert [] + Fill(2, [0x41, 0x42]) == [0x41, 0x42];
    assert Verdict(RxState([0x41, 0x42], 2, t0)) == Ok(Some([0x41, 0x42]));
    assert Reassemble(polls[1..], RxState([], 2, t0)) == Finished(Ok(Some([0x41, 0x42])), []);
  }

  /** Header `0x02`, then 11 ms with nothing available: no message, and the
      late byte `0x41` is left for the next call. */
  lemma GapScenario(t0: nat)
    ensures Reassemble([Polled(1, Read([0x02]), t0), Polled(0, Read([]), t0 + 11), Polled(1, Read([0x41]), t0 + 11)], Start(t0))
         == Finished(Ok(None), [Polled(1, Read([0x41]), t0 + 11)])
  {
  }
}
