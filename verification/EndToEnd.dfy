/**
 A sending and a receiving connection joined by a byte stream. The environment decides when each side acts and how many
 bytes every call moves; only a length prefix has to arrive in one recv.
 */
module EndToEnd {
  import opened Bytes
  import opened ValueDecoding
  import opened Requests
  import opened Arguments
  import opened S = Sender
  import R = Receiver
  import opened Framing

  datatype System = System(sender: Sending, receiver: R.Receiving, wire: seq<byte>)

  datatype Move =
    | SenderMoves(e: S.Event)
    | Arrival(n: nat)               // Receive gets the next n bytes of the wire
    | ReceiverMoves(other: R.Event)  // anything else the receiving side does

  predicate Allowed(y: System, m: Move) {
    match m
    case SenderMoves(e) =>
      S.Enabled(y.sender, e) && (e.Enqueue? ==> MessageFits(e.msg) && MessageSize(e.msg) <= y.receiver.maxLength)
    case Arrival(n) =>
      && R.Sane(y.receiver) && 0 < n <= |y.wire| && n <= R.Wanted(y.receiver) && (y.receiver.inPrefix ==> n == 4)
    case ReceiverMoves(e) => !e.Recv?
  }

  function Next(y: System, m: Move): System
    requires Allowed(y, m)
  {
    match m
    case SenderMoves(e) =>
      var s := S.Step(y.sender, e);
      y.(sender := s, wire := if |y.sender.sent| <= |s.sent| then y.wire + s.sent[|y.sender.sent|..] else y.wire)
    case Arrival(n) => y.(receiver := R.ReceiveStep(y.receiver, y.wire[..n]).0, wire := y.wire[n..])
    case ReceiverMoves(e) => y.(receiver := R.Step(y.receiver, e))
  }

  predicate CanMove(y: System, ms: seq<Move>)
    decreases |ms|
  {
    ms == [] || (Allowed(y, ms[0]) && CanMove(Next(y, ms[0]), ms[1..]))
  }

  function Later(y: System, ms: seq<Move>): System
    requires CanMove(y, ms)
    decreases |ms|
  {
    if ms == [] then y else Later(Next(y, ms[0]), ms[1..])
  }

  function Start(sender: Sending, receiver: R.Receiving): System {
    System(sender, receiver, [])
  }

  // The stream of frames, seen by the receiver

  predicate Sized(ms: seq<Message>, max: nat) {
    AllSendable(ms) && forall i | 0 <= i < |ms| :: MessageFits(ms[i]) && MessageSize(ms[i]) <= max
  }

  lemma {:induction false} EncodeMessagesSplit(ms: seq<Message>, k: nat)
    requires AllSendable(ms) && k <= |ms|
    ensures EncodeMessages(ms) == EncodeMessages(ms[..k]) + EncodeMessages(ms[k..])
  {
    hide FrameOf, Sendable;
    if k == 0 {
      assert ms[..0] == [] && ms[0..] == ms;
      assert [] + EncodeMessages(ms) == EncodeMessages(ms);
    } else {
      var f, later := FrameOf(ms[0]), ms[1..];
      EncodeMessagesSplit(later, k - 1);
      assert ms[..k][1..] == later[..k - 1] && later[k - 1..] == ms[k..];
      assert EncodeMessages(ms[..k]) == f + EncodeMessages(later[..k - 1]);
      assert f + (EncodeMessages(later[..k - 1]) + EncodeMessages(ms[k..])) ==
             EncodeMessages(ms[..k]) + EncodeMessages(ms[k..]);
    }
  }

  /** What is still to come after k frames. */
  lemma Remaining(ms: seq<Message>, k: nat)
    requires AllSendable(ms) && k <= |ms|
    ensures k == |ms| ==> EncodeMessages(ms[k..]) == []
    ensures k < |ms| ==> EncodeMessages(ms[k..]) == FrameOf(ms[k]) + EncodeMessages(ms[k + 1..])
  {
    hide FrameOf, Sendable;
    if k < |ms| {
      assert ms[k..][0] == ms[k] && ms[k..][1..] == ms[k + 1..];
    }
  }

  /** A frame starts with its own length. */
  lemma FramePrefix(m: Message)
    requires MessageFits(m)
    ensures |FrameOf(m)| == MessageSize(m) >= 10 && FromLE(FrameOf(m)[..4]) == MessageSize(m)
  {
    EncodeMessageSize(m);
    FieldReadsBack(MessageSize(m));
  }

  /** What a receiver that has seen `stream` makes of it: k complete frames and a part of the next. */
  ghost predicate Cut(ms: seq<Message>, stream: seq<byte>, frames: seq<seq<byte>>, rest: seq<byte>)
    requires AllSendable(ms)
  {
    && |frames| <= |ms| && (forall i | 0 <= i < |frames| :: frames[i] == FrameOf(ms[i]))
    && stream == EncodeMessages(ms[..|frames|]) + rest
    && if |frames| < |ms| then rest <= FrameOf(ms[|frames|]) && |rest| < |FrameOf(ms[|frames|])| else rest == []
  }

  lemma {:induction false} PrefixSplits(ms: seq<Message>, stream: seq<byte>, max: nat)
    requires Sized(ms, max) && stream <= EncodeMessages(ms)
    ensures Cut(ms, stream, SplitFrames(stream, max).0, SplitFrames(stream, max).1)
    decreases |ms|
  {
    hide FrameOf, Sendable, FromLE, MessageSize;
    if ms != [] {
      var f := FrameOf(ms[0]);
      FramePrefix(ms[0]);
      if |stream| < |f| {
        assert stream <= f;
        assert |stream| >= 4 ==> stream[..4] == f[..4];
        assert EncodeMessages(ms[..0]) + stream == stream;
      } else {
        var tail := stream[|f|..];
        assert stream == f + tail && tail <= EncodeMessages(ms[1..]);
        PrefixSplits(ms[1..], tail, max);
        SplitStep(f, tail, max);
        ConsCut(ms, tail, SplitFrames(tail, max).0, SplitFrames(tail, max).1);
      }
    }
  }

  lemma ConsCut(ms: seq<Message>, tail: seq<byte>, frames: seq<seq<byte>>, rest: seq<byte>)
    requires AllSendable(ms) && ms != [] && Cut(ms[1..], tail, frames, rest)
    ensures Cut(ms, FrameOf(ms[0]) + tail, [FrameOf(ms[0])] + frames, rest)
  {
    hide FrameOf, Sendable;
    var k, f := |frames|, FrameOf(ms[0]);
    assert ms[..k + 1][1..] == ms[1..][..k];
    assert EncodeMessages(ms[..k + 1]) == f + EncodeMessages(ms[1..][..k]);
    assert f + (EncodeMessages(ms[1..][..k]) + rest) == f + EncodeMessages(ms[1..][..k]) + rest;
  }

  /** The bytes that come next continue the frame that has begun. */
  lemma NextBytes(ms: seq<Message>, stream: seq<byte>, frames: seq<seq<byte>>, rest: seq<byte>, chunk: seq<byte>)
    requires AllSendable(ms) && Cut(ms, stream, frames, rest)
    requires stream + chunk <= EncodeMessages(ms) && chunk != []
    ensures |frames| < |ms|
    ensures |rest + chunk| <= |FrameOf(ms[|frames|])| ==> rest + chunk <= FrameOf(ms[|frames|])
  {
    hide FrameOf, Sendable;
    var k := |frames|;
    var before, after := EncodeMessages(ms[..k]), EncodeMessages(ms[k..]);
    EncodeMessagesSplit(ms, k);
    assert stream + chunk == before + (rest + chunk);
    DropPrefix(before, rest + chunk, after);
    Remaining(ms, k);
    if |rest + chunk| <= |FrameOf(ms[k])| {
      assert after[..|rest + chunk|] == FrameOf(ms[k])[..|rest + chunk|];
    }
  }

  lemma DropPrefix(a: seq<byte>, b: seq<byte>, c: seq<byte>)
    requires a + b <= a + c
    ensures b <= c
  {
    assert (a + c)[..|a + b|] == a + c[..|b|];
    assert b == (a + b)[|a|..] == c[..|b|];
  }

  // What every move keeps

  ghost predicate Inv(y: System) {
    && S.Inv(y.sender) && Framed(y.receiver) && NoPart(y.receiver) && R.Partitioned(y.receiver)
    && y.receiver.consumed + y.wire == y.sender.sent
    && Sized(Messages(y.sender.accepted), y.receiver.maxLength)
  }

  lemma ReceivedIsCut(y: System)
    requires Inv(y)
    ensures Cut(Messages(y.sender.accepted), y.receiver.consumed, y.receiver.frames, y.receiver.filled)
  {
    hide FrameOf, EncodeMessages, SplitFrames, S.Inv;
    var ms := Messages(y.sender.accepted);
    assert y.receiver.consumed <= EncodeMessages(ms) by {
      SentIsPrefix(y.sender);
    }
    PrefixSplits(ms, y.receiver.consumed, y.receiver.maxLength);
    FramedIsSplit(y.receiver);
    PendingIsFilled(y.receiver);
  }

  lemma SentIsPrefix(s: Sending)
    requires S.Inv(s)
    ensures AllSendable(Messages(s.accepted)) && s.sent <= EncodeMessages(Messages(s.accepted))
  {
    hide EncodeMessages;
  }

  /** Receive never fails on what the sender sent. */
  lemma ArrivalIsFine(y: System, n: nat)
    requires Inv(y) && Allowed(y, Arrival(n))
    ensures R.ReceiveStep(y.receiver, y.wire[..n]).1 == R.Alive
  {
    hide FrameOf, EncodeMessages, Sendable, S.Inv, DecodeMessage, FromLE, LE, MessageSize;
    var r, chunk := y.receiver, y.wire[..n];
    var ms := Messages(y.sender.accepted);
    SentIsPrefix(y.sender);
    assert r.consumed + chunk <= y.sender.sent;
    ReceivedIsCut(y);
    NextBytes(ms, r.consumed, r.frames, r.filled, chunk);
    var m := ms[|r.frames|];
    FramePrefix(m);
    if r.inPrefix {
      PrefixIsFine(r, chunk, m);
    } else {
      BodyIsFine(r, chunk, m);
    }
  }

  lemma PrefixIsFine(r: R.Receiving, chunk: seq<byte>, m: Message)
    requires R.Sane(r) && r.inPrefix && r.filled == [] && r.offset == 0 && |chunk| == 4
    requires MessageFits(m) && MessageSize(m) <= r.maxLength
    requires r.filled + chunk <= FrameOf(m)
    ensures R.ReceiveStep(r, chunk).1 == R.Alive
  {
    hide FrameOf, Sendable, FromLE, LE, MessageSize;
    FramePrefix(m);
    assert chunk == FrameOf(m)[..4] by {
      assert r.filled + chunk == chunk;
    }
    assert chunk + LE(r.length, 4)[4..] == chunk;
  }

  lemma BodyIsFine(r: R.Receiving, chunk: seq<byte>, m: Message)
    requires R.Sane(r) && !r.inPrefix && 0 < |chunk| <= R.Wanted(r) && 4 <= |r.filled|
    requires FromLE(r.filled[..4]) == r.length && MessageFits(m)
    requires r.filled <= FrameOf(m)
    requires |r.filled + chunk| <= |FrameOf(m)| ==> r.filled + chunk <= FrameOf(m)
    ensures R.ReceiveStep(r, chunk).1 == R.Alive
  {
    hide FrameOf, Sendable, FromLE, DecodeMessage, MessageSize;
    FramePrefix(m);
    assert r.filled[..4] == FrameOf(m)[..4];
    if |r.filled + chunk| == r.length {
      assert r.filled + chunk == FrameOf(m);
      FrameDecodes(m);
    }
  }

  lemma FrameDecodes(m: Message)
    requires MessageFits(m)
    ensures |FrameOf(m)| < TWO_32 && DecodeMessage(FrameOf(m)) == Done(m, MessageSize(m))
  {
    MessageRoundTrip(m);
  }

  lemma SenderKeepsInv(y: System, e: S.Event)
    requires Inv(y) && Allowed(y, SenderMoves(e))
    ensures Inv(Next(y, SenderMoves(e)))
  {
    hide FrameOf, EncodeMessages, Sendable, CopyMessage, R.Partitioned, Framed, MessageSize;
    var s, t := y.sender, S.Step(y.sender, e);
    StepKeepsInv(s, e);
    StepSends(s, e);
    var more := t.sent[|s.sent|..];
    assert y.receiver.consumed + (y.wire + more) == y.receiver.consumed + y.wire + more == t.sent;
    assert Sized(Messages(t.accepted), y.receiver.maxLength) by {
      AcceptedSized(s, e, y.receiver.maxLength);
    }
  }

  lemma StepSends(s: Sending, e: S.Event)
    requires S.Inv(s) && S.Enabled(s, e)
    ensures s.sent <= S.Step(s, e).sent
  {
    hide FrameOf, EncodeMessages, Sendable, CopyMessage, SendStep;
    match e
    case Send(n) => SendMoves(s, n);
    case _ =>
  }

  lemma AcceptedSized(s: Sending, e: S.Event, max: nat)
    requires S.Inv(s) && S.Enabled(s, e) && Sized(Messages(s.accepted), max)
    requires e.Enqueue? ==> MessageFits(e.msg) && MessageSize(e.msg) <= max
    ensures Sized(Messages(S.Step(s, e).accepted), max)
  {
    hide FrameOf, EncodeMessages, Sendable, MessageSize, Pushed, Messages, SendStep;
    match e
    case Enqueue(msg, copy, changeId) =>
      var m := Pushed(s, msg, copy, changeId);
      PushedFits(s, msg, copy, changeId);
      MessagesAppend(s.accepted, Entry(m, changeId));
      assert Messages(S.Step(s, e).accepted) == Messages(s.accepted) + [m];
    case Send(n) => SendMoves(s, n);
    case _ => assert S.Step(s, e).accepted == s.accepted;
  }

  lemma PushedFits(s: Sending, msg: Message, copy: bool, changeId: bool)
    requires MessageFits(msg) && s.nextId < TWO_32
    ensures MessageFits(Pushed(s, msg, copy, changeId))
    ensures MessageSize(Pushed(s, msg, copy, changeId)) <= MessageSize(msg)
  {
    CopyMessageFits(msg);
  }

  lemma MoveKeepsInv(y: System, m: Move)
    requires Inv(y) && Allowed(y, m)
    ensures Inv(Next(y, m))
    ensures Next(y, m).receiver.maxLength == y.receiver.maxLength
  {
    hide S.Inv, R.Partitioned, Framed, Sized, R.ReceiveStep, S.Step;
    match m
    case SenderMoves(e) => SenderKeepsInv(y, e);
    case Arrival(n) => ArrivalKeepsInv(y, n);
    case ReceiverMoves(e) => ReceiverKeepsInv(y, e);
  }

  lemma ArrivalKeepsInv(y: System, n: nat)
    requires Inv(y) && Allowed(y, Arrival(n))
    ensures Inv(Next(y, Arrival(n))) && Next(y, Arrival(n)).receiver.maxLength == y.receiver.maxLength
  {
    hide S.Inv, R.Partitioned, Sized, Framed, R.Sane, R.Wanted, R.Step, R.Enabled, R.ReceiveStep;
    var r, chunk := y.receiver, y.wire[..n];
    ArrivalIsFine(y, n);
    R.RecvIsStep(r, chunk);
    R.StepPartitions(r, R.Recv(chunk));
    WholeStep(r, R.Recv(chunk));
    R.RecvConsumes(r, chunk);
    assert r.consumed + chunk + y.wire[n..] == r.consumed + y.wire;
  }

  lemma ReceiverKeepsInv(y: System, e: R.Event)
    requires Inv(y) && Allowed(y, ReceiverMoves(e))
    ensures Inv(Next(y, ReceiverMoves(e))) && Next(y, ReceiverMoves(e)).receiver.maxLength == y.receiver.maxLength
  {
    hide S.Inv, R.Partitioned, Sized;
    R.StepPartitions(y.receiver, e);
    WholeStep(y.receiver, e);
  }

  lemma {:induction false} MovesKeepInv(y: System, ms: seq<Move>)
    requires Inv(y) && CanMove(y, ms)
    ensures Inv(Later(y, ms))
    decreases |ms|
  {
    hide Inv, Next, Allowed;
    if ms != [] {
      MoveKeepsInv(y, ms[0]);
      MovesKeepInv(Next(y, ms[0]), ms[1..]);
    }
  }

  // Delivery

  lemma {:induction false} DecodedFrames(ms: seq<Message>, frames: seq<seq<byte>>)
    requires |frames| == |ms| && forall i | 0 <= i < |ms| :: MessageFits(ms[i]) && frames[i] == FrameOf(ms[i])
    ensures R.Decoded(frames) == ms
  {
    hide FrameOf, Sendable, DecodeMessage;
    if ms != [] {
      FrameDecodes(ms[0]);
      DecodedFrames(ms[1..], frames[1..]);
    }
  }

  /** The requests that are not keep-alives. */
  function WithoutKeepAlives(ms: seq<Message>): seq<Message> {
    if ms == [] then []
    else (if ms[0].name == R.KEEP_ALIVE then [] else [ms[0]]) + WithoutKeepAlives(ms[1..])
  }

  lemma {:induction false} WithoutKeepAlivesAppend(ms: seq<Message>, m: Message)
    ensures WithoutKeepAlives([]) == []
    ensures WithoutKeepAlives(ms + [m]) == WithoutKeepAlives(ms) + if m.name == [0x5F] then [] else [m]
  {
    var all, last := ms + [m], if m.name == [0x5F] then [] else [m];
    if ms == [] {
      assert all == [m] && [m][1..] == [];
    } else {
      WithoutKeepAlivesAppend(ms[1..], m);
      assert all[0] == ms[0] && all[1..] == ms[1..] + [m];
      var first := if ms[0].name == R.KEEP_ALIVE then [] else [ms[0]];
      assert first + (WithoutKeepAlives(ms[1..]) + last) == first + WithoutKeepAlives(ms[1..]) + last;
    }
  }

  /** The requests that reached a handler or the queue. */
  function HandedOver(log: seq<R.Delivery>): seq<Message> {
    if log == [] then []
    else (if log[0].route == R.Route.KeepAlive then [] else [log[0].msg]) + HandedOver(log[1..])
  }

  lemma {:induction false} HandedOverIsAllButKeepAlives(log: seq<R.Delivery>)
    requires forall i | 0 <= i < |log| :: R.Routed(log[i])
    ensures HandedOver(log) == WithoutKeepAlives(R.LogMessages(log))
  {
    if log != [] {
      HandedOverIsAllButKeepAlives(log[1..]);
      assert R.LogMessages(log)[1..] == R.LogMessages(log[1..]);
    }
  }

  /** Once nothing is unsent and nothing is on the wire. */
  predicate AllMoved(y: System) {
    AllSendable(y.sender.queue) && y.sender.offset <= BufferLength(y.sender) && Unsent(y.sender) == [] && y.wire == []
  }

  lemma Delivered(y: System)
    requires Inv(y)
    ensures R.LogMessages(y.receiver.log) <= Messages(y.sender.accepted)
    ensures AllMoved(y) ==> R.LogMessages(y.receiver.log) == Messages(y.sender.accepted) && y.receiver.inPrefix
  {
    hide FrameOf, MessageFits, EncodeMessages, R.Decoded, S.Inv;
    var r, ms := y.receiver, Messages(y.sender.accepted);
    var k := |r.frames|;
    ReceivedIsCut(y);
    DecodedFrames(ms[..k], r.frames);
    if AllMoved(y) {
      AllArrived(y);
    }
  }

  lemma AllArrived(y: System)
    requires Inv(y) && AllMoved(y)
    ensures |y.receiver.frames| == |y.sender.accepted| && y.receiver.inPrefix
  {
    hide FrameOf, Sendable;
    var r, ms := y.receiver, Messages(y.sender.accepted);
    var k := |r.frames|;
    ReceivedIsCut(y);
    assert r.consumed == EncodeMessages(ms) by {
      assert y.sender.sent + [] == y.sender.sent && r.consumed + [] == r.consumed;
    }
    EncodeMessagesSplit(ms, k);
    assert EncodeMessages(ms[k..]) == r.filled;
    Remaining(ms, k);
    assert k == |ms|;
  }

  /** The pushes of a run, with the arguments that Push was called with. */
  function PushesOf(ms: seq<Move>): (ps: seq<S.Event>)
    ensures forall i | 0 <= i < |ps| :: ps[i].Enqueue?
  {
    if ms == [] then []
    else (if ms[0].SenderMoves? && ms[0].e.Enqueue? then [ms[0].e] else []) + PushesOf(ms[1..])
  }

  lemma {:induction false} MovesAccept(y: System, ms: seq<Move>)
    requires CanMove(y, ms)
    ensures var z := Later(y, ms);
            && AsPushed(z.sender.accepted, |y.sender.accepted|, PushesOf(ms))
            && z.sender.accepted[..|y.sender.accepted|] == y.sender.accepted
    decreases |ms|
  {
    hide S.Step, S.Enabled, Carries, R.ReceiveStep, R.Step;
    if ms != [] {
      var u := Next(y, ms[0]);
      MovesAccept(u, ms[1..]);
      if ms[0].SenderMoves? && ms[0].e.Enqueue? {
        EnqueueStepAccepts(y.sender, ms[0].e);
        var all := Later(u, ms[1..]).sender.accepted;
        PrependPush(y.sender.accepted, u.sender.accepted, all, ms[0].e, PushesOf(ms[1..]));
      } else {
        if ms[0].SenderMoves? {
          OnlyEnqueueAccepts(y.sender, ms[0].e);
        }
        assert PushesOf(ms) == PushesOf(ms[1..]);
      }
    }
  }

  /** What a move that is a Pull returns. */
  function PulledBy(y: System, m: Move): seq<Message> {
    if m == ReceiverMoves(R.Pull) && R.PullStep(y.receiver).1.Some? then [R.PullStep(y.receiver).1.value] else []
  }

  /** What the Pulls of a run returned. */
  function PulledIn(y: System, ms: seq<Move>): seq<Message>
    requires CanMove(y, ms)
    decreases |ms|
  {
    if ms == [] then [] else PulledBy(y, ms[0]) + PulledIn(Next(y, ms[0]), ms[1..])
  }

  lemma MovePulls(y: System, m: Move)
    requires Allowed(y, m)
    ensures Next(y, m).receiver.pulled == y.receiver.pulled + PulledBy(y, m)
  {
    hide R.ReceiveStep, R.PullStep, S.Step;
    assert y.receiver.pulled + [] == y.receiver.pulled;
    match m
    case SenderMoves(_) =>
    case Arrival(n) => R.RecvKeepsPulled(y.receiver, y.wire[..n]);
    case ReceiverMoves(e) =>
      if e.Pull? {
        R.PullIsStep(y.receiver);
        R.PullTakesFirst(y.receiver);
      } else {
        R.OnlyPullPulls(y.receiver, e);
      }
  }

  lemma {:induction false} MovesPull(y: System, ms: seq<Move>)
    requires CanMove(y, ms)
    ensures Later(y, ms).receiver.pulled == y.receiver.pulled + PulledIn(y, ms)
    decreases |ms|
  {
    hide Next, Allowed, PulledBy;
    if ms == [] {
      assert y.receiver.pulled + [] == y.receiver.pulled;
    } else {
      var u := Next(y, ms[0]);
      MovesPull(u, ms[1..]);
      MovePulls(y, ms[0]);
      var first := PulledBy(y, ms[0]);
      assert y.receiver.pulled + first + PulledIn(u, ms[1..]) == y.receiver.pulled + (first + PulledIn(u, ms[1..]));
    }
  }

  /**
   End-to-end delivery. Over every run of the two sides, the i-th request that the receiver decoded is the i-th
   request pushed: its name, its arguments (or what copying makes of them) and its id (or the one that Push chose).
   Once all bytes have moved, every push has been decoded. Everything but the keep-alives was handed to a handler or
   to the queue, and what the Pulls of the run returned, followed by what is still queued, is what was queued, in
   order.
   */
  lemma Delivery(sender: Sending, receiver: R.Receiving, ms: seq<Move>)
    requires S.Inv(sender) && sender.sent == [] && sender.accepted == []
    requires receiver == R.Listening(receiver.maxLength, receiver.blockSize) && receiver.maxLength < TWO_32
    requires CanMove(Start(sender, receiver), ms)
    ensures var y := Later(Start(sender, receiver), ms);
            var pushed, arrived := Messages(y.sender.accepted), R.LogMessages(y.receiver.log);
            && arrived <= pushed && (AllMoved(y) ==> arrived == pushed)
            && |pushed| == |PushesOf(ms)| && (forall i | 0 <= i < |arrived| :: Carries(arrived[i], PushesOf(ms)[i]))
            && HandedOver(y.receiver.log) == WithoutKeepAlives(arrived)
            && PulledIn(Start(sender, receiver), ms) + y.receiver.queue == R.QueuedOf(y.receiver.log)
  {
    hide FrameOf, Sendable, Later, CanMove, Carries, PulledIn;
    var start := Start(sender, receiver);
    assert Inv(start);
    MovesKeepInv(start, ms);
    MovesAccept(start, ms);
    MovesPull(start, ms);
    var y := Later(start, ms);
    Delivered(y);
    assert [] + PulledIn(start, ms) == PulledIn(start, ms);
    HandedOverIsAllButKeepAlives(y.receiver.log);
  }

  // Graceful disconnection, end to end

  /** No socket call of the sender fails while there is something to send. */
  predicate HealthyMoves(y: System, ms: seq<Move>)
    requires CanMove(y, ms)
    decreases |ms|
  {
    ms == [] || (HealthyMove(y, ms[0]) && HealthyMoves(Next(y, ms[0]), ms[1..]))
  }

  predicate HealthyMove(y: System, m: Move)
    requires Allowed(y, m)
  {
    m.SenderMoves? && m.e.Send? ==> SendStep(y.sender, m.e.n).1 != Broken
  }

  lemma {:induction false} MovesInTime(y: System, ms: seq<Move>)
    requires NoneTooLate(y.sender) && CanMove(y, ms) && HealthyMoves(y, ms)
    ensures NoneTooLate(Later(y, ms).sender)
    decreases |ms|
  {
    hide NoneTooLate, S.Step, S.Enabled, SendStep, R.Step, R.ReceiveStep;
    if ms != [] {
      match ms[0] {
        case SenderMoves(e) => NoneLateStep(y.sender, e);
        case _ =>
      }
      MovesInTime(Next(y, ms[0]), ms[1..]);
    }
  }

  /**
   Graceful disconnection over both sides: unless a push is too late in the sense of GracefulLoss, once Send has told
   the sender's thread to stop and the wire is empty, the receiver has decoded every request that was ever accepted.
   */
  lemma GracefulDelivery(y: System, d: System, ms: seq<Move>)
    requires Inv(y) && y.sender.connected && y.sender.running && d == Disconnected(y)
    requires y.sender.gated == 0 || (y.sender.gated == 1 && !HasSomethingToSend(y.sender))
    requires CanMove(d, ms) && HealthyMoves(d, ms)
    ensures var z := Later(d, ms);
            !z.sender.running && z.wire == [] ==>
              R.LogMessages(z.receiver.log) == Messages(z.sender.accepted) && z.receiver.inPrefix
  {
    hide FrameOf, Sendable, Later, CanMove, HealthyMoves, EncodeMessages, S.Inv, Framed, Next;
    DisconnectInTime(y.sender);
    MoveKeepsInv(y, SenderMoves(S.Disconnect(false)));
    NextDisconnected(y);
    MovesInTime(d, ms);
    MovesKeepInv(d, ms);
    Delivered(Later(d, ms));
    assert S.Inv(Later(d, ms).sender);
    OffsetInside(Later(d, ms).sender);
  }

  /** The system once the sender's Disconnect(false) has run. */
  function Disconnected(y: System): System {
    y.(sender := DisconnectStep(y.sender, false))
  }

  lemma NextDisconnected(y: System)
    requires S.Inv(y.sender)
    ensures Next(y, SenderMoves(S.Disconnect(false))) == Disconnected(y)
  {
    var sent := y.sender.sent;
    assert sent[|sent|..] == [] && y.wire + [] == y.wire;
  }

  // Delivery can always be completed

  lemma PrependMove(y: System, m: Move, ms: seq<Move>)
    requires Allowed(y, m) && CanMove(Next(y, m), ms)
    ensures CanMove(y, [m] + ms) && Later(y, [m] + ms) == Later(Next(y, m), ms)
  {
    hide Allowed, Next;
    assert ([m] + ms)[1..] == ms;
  }

  lemma {:induction false} AppendMoves(y: System, ms: seq<Move>, more: seq<Move>)
    requires CanMove(y, ms) && CanMove(Later(y, ms), more)
    ensures CanMove(y, ms + more) && Later(y, ms + more) == Later(Later(y, ms), more)
    decreases |ms|
  {
    hide Allowed, Next;
    if ms == [] {
      assert ms + more == more;
    } else {
      AppendMoves(Next(y, ms[0]), ms[1..], more);
      assert ms + more == [ms[0]] + (ms[1..] + more);
      PrependMove(y, ms[0], ms[1..] + more);
    }
  }

  /** Sending byte by byte puts everything on the wire. */
  lemma {:induction false} EverythingCanBeSent(y: System) returns (ms: seq<Move>)
    requires Inv(y) && y.sender.running
    ensures CanMove(y, ms) && Inv(Later(y, ms)) && Later(y, ms).receiver == y.receiver
    ensures Unsent(Later(y, ms).sender) == [] && Later(y, ms).sender.accepted == y.sender.accepted
    decreases |Unsent(y.sender)|
  {
    hide FrameOf, Sendable, EncodeMessages, Messages, R.Partitioned, Framed, Sized, SendStep;
    LoadKeepsInv(y.sender);
    ms := [];
    if Unsent(y.sender) != [] {
      var m := SenderMoves(Send(1));
      SendMoves(y.sender, 1);
      SenderKeepsInv(y, Send(1));
      var rest := [];
      if Next(y, m).sender.running {
        rest := EverythingCanBeSent(Next(y, m));
      }
      PrependMove(y, m, rest);
      ms := [m] + rest;
    }
  }

  /** With everything sent, what is buffered and what is on the wire are the frames not yet complete. */
  lemma WireIsRest(y: System)
    requires Inv(y) && Unsent(y.sender) == []
    ensures var ms, k := Messages(y.sender.accepted), |y.receiver.frames|;
            AllSendable(ms) && k <= |ms| && y.receiver.filled + y.wire == EncodeMessages(ms[k..])
  {
    hide FrameOf, Sendable, SplitFrames, R.Partitioned, FromLE, MessageSize, EncodeMessages;
    var r, ms := y.receiver, Messages(y.sender.accepted);
    var k := |r.frames|;
    ReceivedIsCut(y);
    EncodeMessagesSplit(ms, k);
    assert y.sender.sent == EncodeMessages(ms) by {
      assert y.sender.sent + [] == y.sender.sent;
    }
    Cancel(EncodeMessages(ms[..k]), r.filled, y.wire, EncodeMessages(ms[k..]));
  }

  lemma Cancel(a: seq<byte>, b: seq<byte>, c: seq<byte>, d: seq<byte>)
    requires a + b + c == a + d
    ensures b + c == d
  {
    assert (a + b + c)[|a|..] == b + c;
    assert (a + d)[|a|..] == d;
  }

  /** The frame that comes next is on its way as a whole. */
  lemma FrameOnTheWay(y: System)
    requires Inv(y) && Unsent(y.sender) == [] && y.wire != []
    ensures var ms, k := Messages(y.sender.accepted), |y.receiver.frames|;
            && k < |ms| && AllSendable(ms) && y.receiver.filled <= FrameOf(ms[k])
            && |y.receiver.filled| < MessageSize(ms[k]) && 10 <= MessageSize(ms[k]) <= |y.receiver.filled + y.wire|
            && FromLE(FrameOf(ms[k])[..4]) == MessageSize(ms[k])
  {
    hide FrameOf, Sendable, SplitFrames, EncodeMessages, R.Partitioned, Framed, FromLE, MessageSize, S.Inv;
    var ms, k := Messages(y.sender.accepted), |y.receiver.frames|;
    ReceivedIsCut(y);
    WireIsRest(y);
    Remaining(ms, k);
    FramePrefix(ms[k]);
  }

  /** So the bytes that the next recv needs are there. */
  lemma NextArrival(y: System) returns (n: nat)
    requires Inv(y) && Unsent(y.sender) == [] && y.wire != [] && y.receiver.blockSize >= 1
    ensures Allowed(y, Arrival(n))
  {
    hide FrameOf, Sendable, SplitFrames, EncodeMessages, R.Partitioned, FromLE, MessageSize, S.Inv, Unsent, Concat;
    FrameOnTheWay(y);
    var r, frame := y.receiver, FrameOf(Messages(y.sender.accepted)[|y.receiver.frames|]);
    if !r.inPrefix {
      assert r.filled[..4] == frame[..4];
    }
    n := if r.inPrefix then 4 else 1;
  }

  /** Everything on the wire can be received. */
  lemma {:induction false} EverythingCanArrive(y: System) returns (ms: seq<Move>)
    requires Inv(y) && Unsent(y.sender) == [] && y.receiver.blockSize >= 1
    ensures CanMove(y, ms) && AllMoved(Later(y, ms)) && Later(y, ms).sender == y.sender
    decreases |y.wire|
  {
    hide FrameOf, Sendable, EncodeMessages, Messages, R.Partitioned, Framed, Sized, R.ReceiveStep;
    ms := [];
    if y.wire != [] {
      var n := NextArrival(y);
      ArrivalKeepsInv(y, n);
      R.RecvConsumes(y.receiver, y.wire[..n]);
      var rest := EverythingCanArrive(Next(y, Arrival(n)));
      PrependMove(y, Arrival(n), rest);
      ms := [Arrival(n)] + rest;
    }
  }

  /** From every state in which the sender's thread still runs, some schedule delivers every accepted request. */
  lemma DeliveryCompletes(y: System)
    requires Inv(y) && y.sender.running && y.receiver.blockSize >= 1
    ensures exists ms :: CanMove(y, ms) && AllMoved(Later(y, ms))
                         && R.LogMessages(Later(y, ms).receiver.log) == Messages(y.sender.accepted)
  {
    hide Inv, AllMoved, CanMove, Later;
    var first := EverythingCanBeSent(y);
    var second := EverythingCanArrive(Later(y, first));
    AppendMoves(y, first, second);
    MovesKeepInv(y, first + second);
    Delivered(Later(y, first + second));
  }

  // Ids on the wire

  lemma {:induction false} MovesCount(y: System, ms: seq<Move>, start: nat)
    requires Counting(y.sender, start) && CanMove(y, ms)
    ensures Counting(Later(y, ms).sender, start)
    decreases |ms|
  {
    hide Counting, S.Step;
    if ms != [] {
      match ms[0] {
        case SenderMoves(e) => StepCounts(y.sender, e, start);
        case _ =>
      }
      MovesCount(Next(y, ms[0]), ms[1..], start);
    }
  }

  lemma {:induction false} OwnIdsPrefix(entries: seq<Entry>, n: nat)
    requires n <= |entries|
    ensures OwnIds(entries[..n]) <= OwnIds(entries)
  {
    if n > 0 {
      OwnIdsPrefix(entries[1..], n - 1);
      assert entries[..n][1..] == entries[1..][..n - 1];
    }
  }

  /**
   The ids that Push chose arrive in the order it chose them, strictly increasing until the counter wraps: choosing an
   id and entering the queue are one step, and no later step reorders.
   */
  lemma IdsArriveInOrder(sender: Sending, receiver: R.Receiving, ms: seq<Move>)
    requires S.Inv(sender) && sender.sent == [] && sender.accepted == []
    requires receiver == R.Listening(receiver.maxLength, receiver.blockSize) && receiver.maxLength < TWO_32
    requires CanMove(Start(sender, receiver), ms)
    ensures var y := Later(Start(sender, receiver), ms);
            var n := |R.LogMessages(y.receiver.log)|;
            && n <= |y.sender.accepted| && R.LogMessages(y.receiver.log) == Messages(y.sender.accepted[..n])
            && var ids := OwnIds(y.sender.accepted[..n]);
               forall i, j | 0 <= i < j < |ids| && sender.nextId + 2 * j < TWO_32 :: ids[i] < ids[j]
  {
    hide FrameOf, Sendable, Later, CanMove, Unsent, S.Inv, OwnIds, EncodeMessages;
    Delivery(sender, receiver, ms);
    assert Counting(sender, sender.nextId) by { StartsCounting(sender); }
    MovesCount(Start(sender, receiver), ms, sender.nextId);
    var y := Later(Start(sender, receiver), ms);
    var n := |R.LogMessages(y.receiver.log)|;
    OwnIdsPrefix(y.sender.accepted, n);
    var ids := OwnIds(y.sender.accepted[..n]);
    assert ids <= OwnIds(y.sender.accepted);
    forall i, j | 0 <= i < j < |ids| && sender.nextId + 2 * j < TWO_32 ensures ids[i] < ids[j] {
      OffsetInside(sender);
      IdsDiffer(sender.nextId, i, j);
    }
  }

  lemma StartsCounting(sender: Sending)
    requires S.Inv(sender) && sender.accepted == []
    ensures Counting(sender, sender.nextId)
  {
  }
}
