/** The bounded transfer loops `NetReadFromSocket` and `NetSendToSocket`. Each keeps a
    running byte count and a deadline `end`; every call that makes progress moves the
    deadline to `now + timeout`, a call that would block gives up only once the clock has
    passed the deadline, and any other failure ends the call at once.

    The OS is an oracle: `steps[i]` is what the i-th `recv` (or `send`) returned together
    with the `GetTickCount` reading taken in that iteration, and `start` the reading taken
    before the loop. The loop has no bound of its own, so a run is followed only as far as
    the steps go: when they run out the model returns `None` ("still looping"). */
module Transfer {
  import opened Winsock

  datatype RecvStep = RecvStep(call: RecvCall, tick: nat)
  datatype SendStep = SendStep(call: SendCall, tick: nat)

  /** The largest count a transfer of `size` bytes can reach: `size`, or 0 when `size`
      is not positive (the loop then does not run). */
  function Cap(size: int): nat
  {
    if size < 0 then 0 else size
  }

  // ---------------------------------------------------------------------------------
  // Reading
  // ---------------------------------------------------------------------------------

  /** How a read ends, with the bytes placed in the buffer by then. */
  datatype ReadExit =
    | PeerClosed(got: seq<char>)    // a recv returned 0
    | ReadFailed(got: seq<char>)    // a recv failed with an error other than would-block
    | IdleTimeout(got: seq<char>)   // would-block after the deadline
    | Filled(got: seq<char>)        // the loop condition became false
    | ReadPending(got: seq<char>)   // the steps ran out while the loop was still running

  /** The `int` that `NetReadFromSocket` returns for each way of ending. */
  function ReadReturn(e: ReadExit): (r: Option<int>)
    ensures r.None? <==> e.ReadPending?
    ensures r == Some(SOCKET_ERROR) <==> e.ReadFailed?
    ensures e.PeerClosed? ==> r == Some(0)
    ensures e.IdleTimeout? || e.Filled? ==> r == Some(|e.got|)
  {
    match e
    case PeerClosed(_) => Some(0)
    case ReadFailed(_) => Some(SOCKET_ERROR)
    case IdleTimeout(got) => Some(|got|)
    case Filled(got) => Some(|got|)
    case ReadPending(_) => None
  }

  /** The read loop from iteration `i` on, with `got` already in the buffer and deadline
      `end`: the specification `NetReadFromSocket` is proved against. */
  function ReadLoop(size: int, timeout: int, steps: seq<RecvStep>, i: nat, got: seq<char>, end: int): (e: ReadExit)
    requires i <= |steps| && |got| <= Cap(size)
    ensures got <= e.got && |e.got| <= Cap(size)
    ensures e.Filled? ==> |e.got| == Cap(size)
    ensures e.IdleTimeout? ==> |e.got| < size
    decreases |steps| - i
  {
    if |got| >= size then Filled(got)
    else if i == |steps| then ReadPending(got)
    else
      var step := steps[i];
      match step.call
      case Delivered(queued) =>
        var n := Min(|queued|, size - |got|);
        if n == 0 then PeerClosed(got)
        else ReadLoop(size, timeout, steps, i + 1, got + queued[..n], step.tick + timeout)
      case RecvFailed(code) =>
        if code != WSAEWOULDBLOCK then ReadFailed(got)
        else if step.tick > end then IdleTimeout(got)
        else ReadLoop(size, timeout, steps, i + 1, got, end)
  }

  /** The whole read, from the first iteration. */
  function Read(size: int, timeout: int, start: nat, steps: seq<RecvStep>): ReadExit
  {
    ReadLoop(size, timeout, steps, 0, [], start + timeout)
  }

  /** One `recv(socket, buffer + offset, len, 0)`: takes up to `len` of the queued bytes
      into the buffer at `offset` and returns how many, or `SOCKET_ERROR` and the last
      error. Nothing else in the buffer changes. */
  method Recv(buffer: array<char>, offset: nat, len: nat, call: RecvCall) returns (read: int, lastError: int)
    requires offset + len <= buffer.Length
    modifies buffer
    ensures call.Delivered? ==> read == Min(|call.queued|, len)
    ensures call.Delivered? ==> buffer[..] == old(buffer[..offset]) + call.queued[..read] + old(buffer[offset + read..])
    ensures call.RecvFailed? ==> read == SOCKET_ERROR && lastError == call.code && buffer[..] == old(buffer[..])
  {
    match call
    case Delivered(queued) =>
      read := Min(|queued|, len);
      lastError := 0;
      forall k | 0 <= k < read {
        buffer[offset + k] := queued[k];
      }
      assert buffer[..] == old(buffer[..offset]) + queued[..read] + old(buffer[offset + read..]);
    case RecvFailed(code) =>
      read, lastError := SOCKET_ERROR, code;
  }

  /** `NetReadFromSocket`: read until `size` bytes are in `buffer`, the peer closes, a
      hard error occurs, or no byte arrives for longer than `timeout` ticks. */
  method NetReadFromSocket(buffer: array<char>, size: int, timeout: int, start: nat, steps: seq<RecvStep>)
    returns (r: Option<int>)
    requires size <= buffer.Length
    modifies buffer
    ensures var e := Read(size, timeout, start, steps);
            && r == ReadReturn(e)
            && buffer[..|e.got|] == e.got
            && buffer[|e.got|..] == old(buffer[|e.got|..])
  {
    var totalReadBytes := 0;
    var end := start + timeout;
    var i := 0;
    ghost var got: seq<char> := [];
    while totalReadBytes < size
      invariant 0 <= i <= |steps|
      invariant totalReadBytes == |got| <= Cap(size)
      invariant buffer[..|got|] == got && buffer[|got|..] == old(buffer[|got|..])
      invariant ReadLoop(size, timeout, steps, i, got, end) == Read(size, timeout, start, steps)
      decreases |steps| - i
    {
      if i == |steps| {
        // no further outcome of recv is known: the call has not returned yet
        return None;
      }
      var read, lastError := Recv(buffer, totalReadBytes, size - totalReadBytes, steps[i].call);
      if read == 0 {
        // connection closed by the peer
        return Some(0);
      } else if read == SOCKET_ERROR {
        if lastError == WSAEWOULDBLOCK {
          if steps[i].tick > end {
            return Some(totalReadBytes);
          }
        } else {
          return Some(SOCKET_ERROR);
        }
      } else {
        got := got + steps[i].call.queued[..read];
        totalReadBytes := totalReadBytes + read;
        end := steps[i].tick + timeout;
      }
      i := i + 1;
    }
    return Some(totalReadBytes);
  }

  /** Every byte queued by the successful `recv` outcomes of `steps`, in order. */
  function Queued(steps: seq<RecvStep>): seq<char>
  {
    if steps == [] then []
    else (if steps[0].call.Delivered? then steps[0].call.queued else []) + Queued(steps[1..])
  }

  /** Every step delivers at least one byte: the peer never stalls and never closes. */
  ghost predicate Streaming(steps: seq<RecvStep>)
  {
    forall j :: 0 <= j < |steps| ==> steps[j].call.Delivered? && steps[j].call.queued != []
  }

  lemma {:induction false} ReadStreamingFrom(size: int, timeout: int, steps: seq<RecvStep>, i: nat, got: seq<char>, end: int)
    requires i <= |steps| && Streaming(steps)
    requires |got| + |Queued(steps[i..])| == size
    ensures ReadLoop(size, timeout, steps, i, got, end) == Filled(got + Queued(steps[i..]))
    decreases |steps| - i
  {
    if i == |steps| {
      assert steps[i..] == [];
    } else {
      var q := steps[i].call.queued;
      assert steps[i..][1..] == steps[i + 1..];
      assert Queued(steps[i..]) == q + Queued(steps[i + 1..]);
      assert q[..|q|] == q;
      ReadStreamingFrom(size, timeout, steps, i + 1, got + q, steps[i].tick + timeout);
      assert got + q + Queued(steps[i + 1..]) == got + Queued(steps[i..]);
    }
  }

  /** A peer that sends exactly `size` bytes, cut into chunks in any way, fills the
      buffer with exactly those bytes and the read returns `size`, whatever the clock. */
  lemma ReadFillsRegardlessOfFragmentation(size: int, timeout: int, start: nat, steps: seq<RecvStep>)
    requires Streaming(steps) && |Queued(steps)| == size
    ensures Read(size, timeout, start, steps) == Filled(Queued(steps))
    ensures ReadReturn(Read(size, timeout, start, steps)) == Some(size)
  {
    assert steps[0..] == steps;
    ReadStreamingFrom(size, timeout, steps, 0, [], start + timeout);
  }

  /** The clock reading at the last `recv` before step `j` that delivered bytes (or
      `start` when none has): the moment the read last made progress. */
  function ReadLastProgress(start: nat, steps: seq<RecvStep>, j: nat): nat
    requires j <= |steps|
  {
    if j == 0 then start
    else if steps[j - 1].call.Delivered? && steps[j - 1].call.queued != [] then steps[j - 1].tick
    else ReadLastProgress(start, steps, j - 1)
  }

  lemma {:induction false} ReadIdleGapFrom(size: int, timeout: int, start: nat, steps: seq<RecvStep>,
                                           i: nat, got: seq<char>, end: int)
    requires i <= |steps| && |got| <= Cap(size)
    requires end == ReadLastProgress(start, steps, i) + timeout
    requires ReadLoop(size, timeout, steps, i, got, end).IdleTimeout?
    ensures exists j :: i <= j < |steps| && steps[j].call == RecvFailed(WSAEWOULDBLOCK)
                        && steps[j].tick > ReadLastProgress(start, steps, j) + timeout
    decreases |steps| - i
  {
    var step := steps[i];
    match step.call
    case Delivered(queued) =>
      var n := Min(|queued|, size - |got|);
      ReadIdleGapFrom(size, timeout, start, steps, i + 1, got + queued[..n], step.tick + timeout);
    case RecvFailed(code) =>
      if step.tick > end {
        assert steps[i].call == RecvFailed(WSAEWOULDBLOCK);
      } else {
        ReadIdleGapFrom(size, timeout, start, steps, i + 1, got, end);
      }
  }

  /** The deadline slides: a read returns a short count only at a would-block `recv`
      taken more than `timeout` ticks after the last byte arrived (or after the start). */
  lemma ReadTimesOutOnlyAfterIdleGap(size: int, timeout: int, start: nat, steps: seq<RecvStep>)
    requires Read(size, timeout, start, steps).IdleTimeout?
    ensures exists j :: 0 <= j < |steps| && steps[j].call == RecvFailed(WSAEWOULDBLOCK)
                        && steps[j].tick > ReadLastProgress(start, steps, j) + timeout
  {
    ReadIdleGapFrom(size, timeout, start, steps, 0, [], start + timeout);
  }

  /** A peer that is never silent for more than `timeout` ticks never makes the read time
      out, however long the whole transfer takes. */
  lemma ReadSteadyPeerNeverTimesOut(size: int, timeout: int, start: nat, steps: seq<RecvStep>)
    requires forall j :: 0 <= j < |steps| ==> steps[j].tick <= ReadLastProgress(start, steps, j) + timeout
    ensures !Read(size, timeout, start, steps).IdleTimeout?
  {
    if Read(size, timeout, start, steps).IdleTimeout? {
      ReadTimesOutOnlyAfterIdleGap(size, timeout, start, steps);
    }
  }

  /** Step `j` keeps the read alive: it delivers bytes, or it would block while the
      deadline set by the last progress has not yet passed. */
  ghost predicate ReadOnTime(timeout: int, start: nat, steps: seq<RecvStep>, j: nat)
    requires j < |steps|
  {
    || (steps[j].call.Delivered? && steps[j].call.queued != [])
    || (steps[j].call == RecvFailed(WSAEWOULDBLOCK) && steps[j].tick <= ReadLastProgress(start, steps, j) + timeout)
  }

  /** While every step keeps the read alive and fewer than `size` bytes have arrived,
      the loop runs on unchanged in outcome: from step `i` it ends as it does from step
      `p`, holding every byte delivered in between, with the deadline of the last progress. */
  lemma {:induction false} ReadReaches(size: int, timeout: int, start: nat, steps: seq<RecvStep>,
                                       i: nat, p: nat, got: seq<char>, end: int)
    requires i <= p <= |steps| && end == ReadLastProgress(start, steps, i) + timeout
    requires forall j :: i <= j < p ==> ReadOnTime(timeout, start, steps, j)
    requires |got| + |Queued(steps[i..p])| < size
    ensures |got + Queued(steps[i..p])| < size
    ensures ReadLoop(size, timeout, steps, i, got, end)
            == ReadLoop(size, timeout, steps, p, got + Queued(steps[i..p]), ReadLastProgress(start, steps, p) + timeout)
    decreases p - i
  {
    if i == p {
      assert steps[i..p] == [];
      assert got + [] == got;
    } else {
      assert steps[i..p][1..] == steps[i + 1..p];
      assert steps[i..p][0] == steps[i];
      assert ReadOnTime(timeout, start, steps, i);
      match steps[i].call
      case Delivered(q) =>
        assert Queued(steps[i..p]) == q + Queued(steps[i + 1..p]);
        assert q[..|q|] == q;
        ReadReaches(size, timeout, start, steps, i + 1, p, got + q, steps[i].tick + timeout);
        assert got + q + Queued(steps[i + 1..p]) == got + Queued(steps[i..p]);
      case RecvFailed(_) =>
        assert Queued(steps[i..p]) == Queued(steps[i + 1..p]);
        ReadReaches(size, timeout, start, steps, i + 1, p, got, end);
    }
  }

  /** The whole read reaches step `p` holding exactly the bytes delivered before it. */
  lemma ReadReachesStep(size: int, timeout: int, start: nat, steps: seq<RecvStep>, p: nat)
    requires p <= |steps| && forall j :: 0 <= j < p ==> ReadOnTime(timeout, start, steps, j)
    requires |Queued(steps[..p])| < size
    ensures Read(size, timeout, start, steps)
            == ReadLoop(size, timeout, steps, p, Queued(steps[..p]), ReadLastProgress(start, steps, p) + timeout)
  {
    assert steps[0..p] == steps[..p];
    ReadReaches(size, timeout, start, steps, 0, p, [], start + timeout);
    assert [] + Queued(steps[..p]) == Queued(steps[..p]);
  }

  /** The converse of `ReadTimesOutOnlyAfterIdleGap`: when fewer than `size` bytes have
      arrived by a would-block `recv` taken more than `timeout` ticks after the last
      progress, and every earlier step kept the read alive, the read returns exactly the
      bytes received so far. */
  lemma ReadTimesOutAfterIdleGap(size: int, timeout: int, start: nat, steps: seq<RecvStep>, p: nat)
    requires p < |steps| && forall j :: 0 <= j < p ==> ReadOnTime(timeout, start, steps, j)
    requires |Queued(steps[..p])| < size
    requires steps[p].call == RecvFailed(WSAEWOULDBLOCK) && steps[p].tick > ReadLastProgress(start, steps, p) + timeout
    ensures Read(size, timeout, start, steps) == IdleTimeout(Queued(steps[..p]))
    ensures ReadReturn(Read(size, timeout, start, steps)) == Some(|Queued(steps[..p])|)
  {
    ReadReachesStep(size, timeout, start, steps, p);
  }

  /** A `recv` that returns 0 ends the read with 0, however many bytes arrived before it:
      those bytes stay in the buffer but the count is lost. */
  lemma ReadClosedAt(size: int, timeout: int, start: nat, steps: seq<RecvStep>, p: nat)
    requires p < |steps| && forall j :: 0 <= j < p ==> ReadOnTime(timeout, start, steps, j)
    requires |Queued(steps[..p])| < size
    requires steps[p].call == Delivered([])
    ensures Read(size, timeout, start, steps) == PeerClosed(Queued(steps[..p]))
    ensures ReadReturn(Read(size, timeout, start, steps)) == Some(0)
  {
    ReadReachesStep(size, timeout, start, steps, p);
  }

  /** A `recv` failing with any error other than would-block ends the read with
      `SOCKET_ERROR`, however many bytes arrived before it and whatever the clock. */
  lemma ReadHardErrorAt(size: int, timeout: int, start: nat, steps: seq<RecvStep>, p: nat)
    requires p < |steps| && forall j :: 0 <= j < p ==> ReadOnTime(timeout, start, steps, j)
    requires |Queued(steps[..p])| < size
    requires steps[p].call.RecvFailed? && steps[p].call.code != WSAEWOULDBLOCK
    ensures Read(size, timeout, start, steps) == ReadFailed(Queued(steps[..p]))
    ensures ReadReturn(Read(size, timeout, start, steps)) == Some(SOCKET_ERROR)
  {
    ReadReachesStep(size, timeout, start, steps, p);
  }

  lemma {:induction false} ReadSteadyFrom(size: int, timeout: int, start: nat, steps: seq<RecvStep>,
                                          i: nat, got: seq<char>, end: int)
    requires i <= |steps| && |got| <= Cap(size) && end == ReadLastProgress(start, steps, i) + timeout
    requires forall j :: i <= j < |steps| ==> ReadOnTime(timeout, start, steps, j)
    requires |got| + |Queued(steps[i..])| >= size
    ensures |got + Queued(steps[i..])| >= Cap(size)
    ensures ReadLoop(size, timeout, steps, i, got, end) == Filled((got + Queued(steps[i..]))[..Cap(size)])
    decreases |steps| - i
  {
    var all := got + Queued(steps[i..]);
    if |got| >= size {
      assert all[..Cap(size)] == got;
    } else if i == |steps| {
      assert false;
    } else {
      assert steps[i..][1..] == steps[i + 1..];
      assert steps[i..][0] == steps[i];
      assert ReadOnTime(timeout, start, steps, i);
      match steps[i].call
      case Delivered(q) =>
        var n := Min(|q|, size - |got|);
        assert Queued(steps[i..]) == q + Queued(steps[i + 1..]);
        ReadSteadyFrom(size, timeout, start, steps, i + 1, got + q[..n], steps[i].tick + timeout);
        var rest := got + q[..n] + Queued(steps[i + 1..]);
        assert all == got + q + Queued(steps[i + 1..]);
        forall k | 0 <= k < size
          ensures rest[k] == all[k]
        {
          if k >= |got| + n {
            assert n == |q|;
          }
        }
        assert rest[..size] == all[..size];
      case RecvFailed(_) =>
        assert Queued(steps[i..]) == Queued(steps[i + 1..]);
        ReadSteadyFrom(size, timeout, start, steps, i + 1, got, end);
    }
  }

  /** A peer that never closes, never fails, never leaves the read idle past its deadline
      and delivers at least `size` bytes in all completes the read: the buffer holds the
      first `size` bytes it sent and the read returns `size`. */
  lemma ReadSteadyPeerCompletes(size: int, timeout: int, start: nat, steps: seq<RecvStep>)
    requires forall j :: 0 <= j < |steps| ==> ReadOnTime(timeout, start, steps, j)
    requires |Queued(steps)| >= size
    ensures |Queued(steps)| >= Cap(size)
    ensures Read(size, timeout, start, steps) == Filled(Queued(steps)[..Cap(size)])
    ensures ReadReturn(Read(size, timeout, start, steps)) == Some(Cap(size))
  {
    assert steps[0..] == steps;
    assert [] + Queued(steps) == Queued(steps);
    ReadSteadyFrom(size, timeout, start, steps, 0, [], start + timeout);
  }

  /** The 5-byte "hello" exchange: one recv delivers everything. */
  lemma ReadHello()
    ensures Read(5, 1000, 0, [RecvStep(Delivered("hello"), 3)]) == Filled("hello")
  {
  }

  /** A peer that closes without sending makes the read return 0. So does one that closes
      after sending 2 of 5 bytes, although those bytes are in the buffer. */
  lemma ReadPeerClosedReturnsZero()
    ensures Read(5, 1000, 0, [RecvStep(Delivered([]), 1)]) == PeerClosed([])
    ensures Read(5, 1000, 0, [RecvStep(Delivered("he"), 1), RecvStep(Delivered([]), 2)]) == PeerClosed("he")
    ensures ReadReturn(PeerClosed("he")) == Some(0)
  {
  }

  /** A peer that sends 2 of 5 bytes and then stays silent past the deadline gives the
      short count 2; one that sends 3 bytes 8 ticks apart with a 10-tick timeout finishes,
      although 26 ticks pass in all. */
  lemma ReadIdleVersusSlowPeer()
    ensures Read(5, 10, 0, [RecvStep(Delivered("he"), 4), RecvStep(RecvFailed(WSAEWOULDBLOCK), 9),
                            RecvStep(RecvFailed(WSAEWOULDBLOCK), 15)]) == IdleTimeout("he")
    ensures Read(3, 10, 0, [RecvStep(Delivered("a"), 8), RecvStep(RecvFailed(WSAEWOULDBLOCK), 15),
                            RecvStep(Delivered("b"), 16), RecvStep(RecvFailed(WSAEWOULDBLOCK), 25),
                            RecvStep(Delivered("c"), 26)]) == Filled("abc")
  {
    var idle := [RecvStep(Delivered("he"), 4), RecvStep(RecvFailed(WSAEWOULDBLOCK), 9),
                 RecvStep(RecvFailed(WSAEWOULDBLOCK), 15)];
    assert "he"[..2] == "he";
    assert ReadLoop(5, 10, idle, 2, "he", 14) == IdleTimeout("he");
    assert ReadLoop(5, 10, idle, 1, "he", 14) == IdleTimeout("he");
    assert [] + "he"[..2] == "he";
    assert ReadLoop(5, 10, idle, 0, [], 10) == IdleTimeout("he");
    var slow := [RecvStep(Delivered("a"), 8), RecvStep(RecvFailed(WSAEWOULDBLOCK), 15),
                 RecvStep(Delivered("b"), 16), RecvStep(RecvFailed(WSAEWOULDBLOCK), 25),
                 RecvStep(Delivered("c"), 26)];
    assert "a"[..1] == "a" && "b"[..1] == "b" && "c"[..1] == "c";
    assert "a" + "b" == "ab" && "ab" + "c" == "abc";
    assert ReadLoop(3, 10, slow, 4, "ab", 26) == Filled("abc");
    assert ReadLoop(3, 10, slow, 3, "ab", 26) == Filled("abc");
    assert ReadLoop(3, 10, slow, 2, "a", 18) == Filled("abc");
    assert ReadLoop(3, 10, slow, 1, "a", 18) == Filled("abc");
    assert [] + "a"[..1] == "a";
    assert ReadLoop(3, 10, slow, 0, [], 10) == Filled("abc");
  }

  /** A read that times out before any byte arrives returns 0, the same value as a peer
      closing the connection. */
  lemma ReadIdleBeforeAnyByteReturnsZero()
    ensures Read(5, 10, 0, [RecvStep(RecvFailed(WSAEWOULDBLOCK), 11)]) == IdleTimeout([])
    ensures ReadReturn(IdleTimeout([])) == Some(0)
  {
  }

  // ---------------------------------------------------------------------------------
  // Sending
  // ---------------------------------------------------------------------------------

  /** How a send ends, with the number of bytes handed to the OS by then. */
  datatype SendExit =
    | SendError(sent: nat)         // a send failed with an error other than would-block
    | SendIdleTimeout(sent: nat)   // would-block after the deadline
    | AllSent(sent: nat)           // the loop condition became false
    | SendPending(sent: nat)       // the steps ran out while the loop was still running

  /** The `int` that `NetSendToSocket` returns for each way of ending. */
  function SendReturn(e: SendExit): (r: Option<int>)
    ensures r.None? <==> e.SendPending?
    ensures r == Some(SOCKET_ERROR) <==> e.SendError?
    ensures e.SendIdleTimeout? || e.AllSent? ==> r == Some(e.sent)
  {
    match e
    case SendError(_) => Some(SOCKET_ERROR)
    case SendIdleTimeout(n) => Some(n)
    case AllSent(n) => Some(n)
    case SendPending(_) => None
  }

  /** The send loop from iteration `i` on, with `sent` bytes already handed over and
      deadline `end`: the specification `NetSendToSocket` is proved against. */
  function SendLoop(size: int, timeout: int, steps: seq<SendStep>, i: nat, sent: nat, end: int): (e: SendExit)
    requires i <= |steps| && sent <= Cap(size)
    ensures sent <= e.sent <= Cap(size)
    ensures e.AllSent? ==> e.sent == Cap(size)
    ensures e.SendIdleTimeout? ==> e.sent < size
    decreases |steps| - i
  {
    if sent >= size then AllSent(sent)
    else if i == |steps| then SendPending(sent)
    else
      var step := steps[i];
      match step.call
      case Accepted(room) =>
        SendLoop(size, timeout, steps, i + 1, sent + Min(room, size - sent), step.tick + timeout)
      case SendFailed(code) =>
        if code != WSAEWOULDBLOCK then SendError(sent)
        else if step.tick > end then SendIdleTimeout(sent)
        else SendLoop(size, timeout, steps, i + 1, sent, end)
  }

  /** The whole send, from the first iteration. */
  function Send(size: int, timeout: int, start: nat, steps: seq<SendStep>): SendExit
  {
    SendLoop(size, timeout, steps, 0, 0, start + timeout)
  }

  /** `NetSendToSocket`: send `buffer[..size]` until all of it is handed to the OS, a hard
      error occurs, or the socket has had no room for longer than `timeout` ticks. `wire`
      is what the successful `send` calls took from the buffer, in order. */
  method NetSendToSocket(buffer: array<char>, size: int, timeout: int, start: nat, steps: seq<SendStep>)
    returns (r: Option<int>, wire: seq<char>)
    requires size <= buffer.Length
    ensures var e := Send(size, timeout, start, steps);
            && r == SendReturn(e)
            && wire == buffer[..e.sent]
  {
    var totalSentBytes := 0;
    var end := start + timeout;
    var i := 0;
    wire := [];
    while totalSentBytes < size
      invariant 0 <= i <= |steps|
      invariant 0 <= totalSentBytes <= Cap(size)
      invariant wire == buffer[..totalSentBytes]
      invariant SendLoop(size, timeout, steps, i, totalSentBytes, end) == Send(size, timeout, start, steps)
      decreases |steps| - i
    {
      if i == |steps| {
        // no further outcome of send is known: the call has not returned yet
        return None, wire;
      }
      var sent: int, lastError: int := 0, 0;
      match steps[i].call {
        case Accepted(room) => sent := Min(room, size - totalSentBytes);
        case SendFailed(code) => sent, lastError := SOCKET_ERROR, code;
      }
      if sent == SOCKET_ERROR {
        if lastError == WSAEWOULDBLOCK {
          if steps[i].tick > end {
            return Some(totalSentBytes), wire;
          }
        } else {
          return Some(SOCKET_ERROR), wire;
        }
      } else {
        wire := wire + buffer[totalSentBytes..totalSentBytes + sent];
        totalSentBytes := totalSentBytes + sent;
        end := steps[i].tick + timeout;
      }
      i := i + 1;
    }
    return Some(totalSentBytes), wire;
  }

  /** Every step finds room for at least one byte. */
  ghost predicate AlwaysRoom(steps: seq<SendStep>)
  {
    forall j :: 0 <= j < |steps| ==> steps[j].call.Accepted? && steps[j].call.room > 0
  }

  lemma {:induction false} SendWithRoomFrom(size: int, timeout: int, steps: seq<SendStep>, i: nat, sent: nat, end: int)
    requires i <= |steps| && sent <= Cap(size) && AlwaysRoom(steps)
    requires size - sent <= |steps| - i
    ensures SendLoop(size, timeout, steps, i, sent, end) == AllSent(Cap(size))
    decreases |steps| - i
  {
    if sent < size {
      var room := steps[i].call.room;
      SendWithRoomFrom(size, timeout, steps, i + 1, sent + Min(room, size - sent), steps[i].tick + timeout);
    }
  }

  /** A socket that takes at least one byte per call sends all `size` bytes within `size`
      calls, whatever the clock. */
  lemma SendCompletesWhenSocketKeepsUp(size: int, timeout: int, start: nat, steps: seq<SendStep>)
    requires AlwaysRoom(steps) && size <= |steps|
    ensures Send(size, timeout, start, steps) == AllSent(Cap(size))
    ensures SendReturn(Send(size, timeout, start, steps)) == Some(Cap(size))
  {
    SendWithRoomFrom(size, timeout, steps, 0, 0, start + timeout);
  }

  /** The clock reading at the last `send` before step `j` that did not fail (or `start`
      when none has): a `send` that returns 0 counts as progress too. */
  function SendLastProgress(start: nat, steps: seq<SendStep>, j: nat): nat
    requires j <= |steps|
  {
    if j == 0 then start
    else if steps[j - 1].call.Accepted? then steps[j - 1].tick
    else SendLastProgress(start, steps, j - 1)
  }

  lemma {:induction false} SendIdleGapFrom(size: int, timeout: int, start: nat, steps: seq<SendStep>,
                                           i: nat, sent: nat, end: int)
    requires i <= |steps| && sent <= Cap(size)
    requires end == SendLastProgress(start, steps, i) + timeout
    requires SendLoop(size, timeout, steps, i, sent, end).SendIdleTimeout?
    ensures exists j :: i <= j < |steps| && steps[j].call == SendFailed(WSAEWOULDBLOCK)
                        && steps[j].tick > SendLastProgress(start, steps, j) + timeout
    decreases |steps| - i
  {
    var step := steps[i];
    match step.call
    case Accepted(room) =>
      SendIdleGapFrom(size, timeout, start, steps, i + 1, sent + Min(room, size - sent), step.tick + timeout);
    case SendFailed(code) =>
      if step.tick > end {
        assert steps[i].call == SendFailed(WSAEWOULDBLOCK);
      } else {
        SendIdleGapFrom(size, timeout, start, steps, i + 1, sent, end);
      }
  }

  /** The deadline slides on send too: a short count comes only from a would-block
      `send` taken more than `timeout` ticks after the last call that did not fail. */
  lemma SendTimesOutOnlyAfterIdleGap(size: int, timeout: int, start: nat, steps: seq<SendStep>)
    requires Send(size, timeout, start, steps).SendIdleTimeout?
    ensures exists j :: 0 <= j < |steps| && steps[j].call == SendFailed(WSAEWOULDBLOCK)
                        && steps[j].tick > SendLastProgress(start, steps, j) + timeout
  {
    SendIdleGapFrom(size, timeout, start, steps, 0, 0, start + timeout);
  }

  /** The bytes one `send` outcome had room for: none when it failed. */
  function Room(step: SendStep): nat
  {
    if step.call.Accepted? then step.call.room else 0
  }

  /** Every byte the first `n` `send` outcomes had room for. */
  function Offered(steps: seq<SendStep>, n: nat): nat
    requires n <= |steps|
  {
    if n == 0 then 0 else Offered(steps, n - 1) + Room(steps[n - 1])
  }

  /** Step `j` keeps the send alive: `send` takes its call (possibly 0 bytes), or it would
      block while the deadline set by the last such call has not yet passed. */
  ghost predicate SendOnTime(timeout: int, start: nat, steps: seq<SendStep>, j: nat)
    requires j < |steps|
  {
    || steps[j].call.Accepted?
    || (steps[j].call == SendFailed(WSAEWOULDBLOCK) && steps[j].tick <= SendLastProgress(start, steps, j) + timeout)
  }

  /** While every call keeps the send alive and the socket has had room for fewer than
      `size` bytes, the loop from call `i` ends as it does from call `p`, with every byte
      taken in between counted and the deadline of the last call that did not fail.
      `base` is what was sent before the first call. */
  lemma {:induction false} SendReaches(size: int, timeout: int, start: nat, steps: seq<SendStep>,
                                       i: nat, p: nat, base: nat, end: int)
    requires i <= p <= |steps| && end == SendLastProgress(start, steps, i) + timeout
    requires forall j :: i <= j < p ==> SendOnTime(timeout, start, steps, j)
    requires base + Offered(steps, p) < size
    ensures Offered(steps, i) <= Offered(steps, p)
    ensures SendLoop(size, timeout, steps, i, base + Offered(steps, i), end)
            == SendLoop(size, timeout, steps, p, base + Offered(steps, p), SendLastProgress(start, steps, p) + timeout)
    decreases p - i
  {
    if i < p {
      SendReaches(size, timeout, start, steps, i + 1, p, base, SendLastProgress(start, steps, i + 1) + timeout);
      assert Offered(steps, i + 1) == Offered(steps, i) + Room(steps[i]);
      assert SendOnTime(timeout, start, steps, i);
    }
  }

  /** The whole send reaches call `p` having handed over every byte the calls before it
      had room for. */
  lemma SendReachesStep(size: int, timeout: int, start: nat, steps: seq<SendStep>, p: nat)
    requires p <= |steps| && forall j :: 0 <= j < p ==> SendOnTime(timeout, start, steps, j)
    requires Offered(steps, p) < size
    ensures Send(size, timeout, start, steps)
            == SendLoop(size, timeout, steps, p, Offered(steps, p), SendLastProgress(start, steps, p) + timeout)
  {
    SendReaches(size, timeout, start, steps, 0, p, 0, start + timeout);
  }

  /** The converse of `SendTimesOutOnlyAfterIdleGap`: when the socket has taken fewer
      than `size` bytes by a would-block `send` issued more than `timeout` ticks after the
      last call that did not fail, and every earlier step kept the send alive, the send
      returns exactly the count taken so far. */
  lemma SendTimesOutAfterIdleGap(size: int, timeout: int, start: nat, steps: seq<SendStep>, p: nat)
    requires p < |steps| && forall j :: 0 <= j < p ==> SendOnTime(timeout, start, steps, j)
    requires Offered(steps, p) < size
    requires steps[p].call == SendFailed(WSAEWOULDBLOCK) && steps[p].tick > SendLastProgress(start, steps, p) + timeout
    ensures Send(size, timeout, start, steps) == SendIdleTimeout(Offered(steps, p))
    ensures SendReturn(Send(size, timeout, start, steps)) == Some(Offered(steps, p))
  {
    SendReachesStep(size, timeout, start, steps, p);
  }

  /** A `send` failing with any error other than would-block ends the send with
      `SOCKET_ERROR`, however many bytes went out before it and whatever the clock. */
  lemma SendHardErrorAt(size: int, timeout: int, start: nat, steps: seq<SendStep>, p: nat)
    requires p < |steps| && forall j :: 0 <= j < p ==> SendOnTime(timeout, start, steps, j)
    requires Offered(steps, p) < size
    requires steps[p].call.SendFailed? && steps[p].call.code != WSAEWOULDBLOCK
    ensures Send(size, timeout, start, steps) == SendError(Offered(steps, p))
    ensures SendReturn(Send(size, timeout, start, steps)) == Some(SOCKET_ERROR)
  {
    SendReachesStep(size, timeout, start, steps, p);
  }

  lemma {:induction false} SendSteadyFrom(size: int, timeout: int, start: nat, steps: seq<SendStep>,
                                          i: nat, sent: nat, end: int)
    requires i <= |steps| && sent <= Cap(size) && end == SendLastProgress(start, steps, i) + timeout
    requires forall j :: i <= j < |steps| ==> SendOnTime(timeout, start, steps, j)
    requires sent + Offered(steps, |steps|) - Offered(steps, i) >= size
    ensures SendLoop(size, timeout, steps, i, sent, end) == AllSent(Cap(size))
    decreases |steps| - i
  {
    if sent >= size {
    } else if i == |steps| {
      assert false;
    } else {
      assert Offered(steps, i + 1) == Offered(steps, i) + Room(steps[i]);
      assert SendOnTime(timeout, start, steps, i);
      match steps[i].call
      case Accepted(room) =>
        if sent + room < size {
          SendSteadyFrom(size, timeout, start, steps, i + 1, sent + room, steps[i].tick + timeout);
        }
      case SendFailed(_) =>
        SendSteadyFrom(size, timeout, start, steps, i + 1, sent, end);
    }
  }

  /** A socket that never fails hard, never stays full past the deadline and has room
      for `size` bytes in all takes the whole buffer, even when some calls take nothing. */
  lemma SendSteadySocketCompletes(size: int, timeout: int, start: nat, steps: seq<SendStep>)
    requires forall j :: 0 <= j < |steps| ==> SendOnTime(timeout, start, steps, j)
    requires Offered(steps, |steps|) >= size
    ensures Send(size, timeout, start, steps) == AllSent(Cap(size))
    ensures SendReturn(Send(size, timeout, start, steps)) == Some(Cap(size))
  {
    SendSteadyFrom(size, timeout, start, steps, 0, 0, start + timeout);
  }

  /** A `send` that returns 0 moves no byte but still resets the deadline: the second run
      finishes only because the zero-byte send at tick 50 renewed it. */
  lemma SendZeroCountsAsProgress()
    ensures Send(1, 10, 0, [SendStep(SendFailed(WSAEWOULDBLOCK), 5), SendStep(SendFailed(WSAEWOULDBLOCK), 55)])
            == SendIdleTimeout(0)
    ensures Send(1, 10, 0, [SendStep(Accepted(0), 50), SendStep(SendFailed(WSAEWOULDBLOCK), 55),
                            SendStep(Accepted(4), 56)]) == AllSent(1)
  {
    var stalled := [SendStep(SendFailed(WSAEWOULDBLOCK), 5), SendStep(SendFailed(WSAEWOULDBLOCK), 55)];
    assert SendLoop(1, 10, stalled, 1, 0, 10) == SendIdleTimeout(0);
    var renewed := [SendStep(Accepted(0), 50), SendStep(SendFailed(WSAEWOULDBLOCK), 55),
                    SendStep(Accepted(4), 56)];
    assert SendLoop(1, 10, renewed, 2, 0, 60) == AllSent(1);
    assert SendLoop(1, 10, renewed, 1, 0, 60) == AllSent(1);
  }
}
