/**
 The receiving half of a connection as a state machine: reassembly of frames from the byte stream, and what happens to
 the requests they hold. The environment chooses how many bytes each recv call returns.
 */
module Receiver {
  import opened Bytes
  import opened Wrappers
  import opened Requests

  /** A handler function, known by its address. */
  type Handler = nat

  datatype Route = KeepAlive | Named(handler: Handler) | Default(handler: Handler) | Queued

  /** A decoded request, where it went, and the handlers that were set at that moment. */
  datatype Delivery =
    Delivery(msg: Message, route: Route, handlers: map<seq<byte>, Handler>, fallback: Option<Handler>)

  datatype Receiving = Receiving(
    inPrefix: bool,                     // is_recv_length
    length: nat,                        // recv_buffer_length
    offset: nat,                        // recv_buffer_offset
    filled: seq<byte>,                  // the bytes of recv_buffer before the offset, while in the body
    maxLength: nat,                     // recv_buffer_max_length
    blockSize: nat,                     // recv_block_size
    handlers: map<seq<byte>, Handler>,  // handlers_named
    fallback: Option<Handler>,          // handler_default
    queue: seq<Message>,                // recv_queue
    consumed: seq<byte>,                // history: every byte received
    frames: seq<seq<byte>>,             // history: every complete frame
    log: seq<Delivery>,                 // history: every decoded request and where it went
    pulled: seq<Message>)               // history: what Pull returned

  datatype ReceiveResult = Alive | Dead | Escaped  // true, false, or an access outside a buffer

  datatype Event =
    | Recv(chunk: seq<byte>)  // Receive, the socket's recv returning these bytes; none means closed or failed
    | Pull
    | SetHandlerNamed(name: seq<byte>, handler: Option<Handler>)
    | SetHandlerDefault(handler: Option<Handler>)
    | SetRecvBlockSize(size: nat)

  const RECV_BUFFER_MAX_LENGTH := 16 * 1024
  const KEEP_ALIVE: seq<byte> := [0x5F]

  function Listening(maxLength: nat, blockSize: nat): Receiving {
    Receiving(true, 0, 0, [], maxLength, blockSize, map[], None, [], [], [], [], [])
  }

  /** SetMaxRequestSize. */
  function MaxRequestSize(size: nat): nat {
    if size < 10 then 10 else size
  }

  // Delivery

  /** PassThroughHandlers: GetHandlerNamed first, then the default handler, else the request is for the queue. */
  function HandlerRoute(s: Receiving, name: seq<byte>): Route {
    if name in s.handlers then Named(s.handlers[name])
    else match s.fallback
         case Some(h) => Default(h)
         case None => Queued
  }

  /** Where a decoded request goes. */
  function RouteOf(s: Receiving, name: seq<byte>): Route {
    if name == KEEP_ALIVE then KeepAlive else HandlerRoute(s, name)
  }

  function Logged(s: Receiving, m: Message, route: Route): Delivery {
    Delivery(m, route, s.handlers, s.fallback)
  }

  function Deliver(s: Receiving, m: Message): Receiving {
    var route := RouteOf(s, m.name);
    s.(log := s.log + [Logged(s, m, route)], queue := if route == Queued then s.queue + [m] else s.queue)
  }

  // Reassembly

  /** The four bytes of recv_buffer_length after recv wrote a chunk to its first bytes. */
  function Overlay(length: nat, chunk: seq<byte>): (n: nat)
    requires |chunk| <= 4
  {
    FromLE(chunk + LE(length, 4)[|chunk|..])
  }

  /** How many bytes the next recv may return. */
  function Wanted(s: Receiving): nat {
    if s.inPrefix then if s.offset < 4 then 4 - s.offset else 0
    else
      var left := if s.offset < s.length then s.length - s.offset else 0;
      if left < s.blockSize then left else s.blockSize
  }

  /** DeleteRecvBuffer. */
  function Reset(s: Receiving): Receiving {
    s.(inPrefix := true, length := 0, offset := 0, filled := [])
  }

  function ReceiveStep(s: Receiving, chunk: seq<byte>): (Receiving, ReceiveResult)
    requires |chunk| <= Wanted(s) && s.length < TWO_32 && |s.filled| <= s.length
    requires !s.inPrefix ==> s.offset == |s.filled|
  {
    if chunk == [] then (s, Dead)
    else
      var c := s.(consumed := s.consumed + chunk);
      if s.inPrefix then PrefixStep(c, chunk) else BodyStep(c, chunk)
  }

  function PrefixStep(s: Receiving, chunk: seq<byte>): (Receiving, ReceiveResult)
    requires |chunk| <= 4
  {
    var t := s.(length := Overlay(s.length, chunk), offset := s.offset + |chunk|);
    if t.offset != 4 then (t, Alive)
    else if t.length > t.maxLength then (t, Dead)
    else if t.length < 4 then (t, Escaped)  // the four length bytes do not fit into the new buffer
    else (t.(filled := LE(t.length, 4), inPrefix := false), Alive)
  }

  function BodyStep(s: Receiving, chunk: seq<byte>): (Receiving, ReceiveResult)
    requires |s.filled| + |chunk| <= s.length < TWO_32
  {
    var t := Filled(s, chunk);
    if |t.filled| < t.length then (t, Alive) else CompleteStep(t)
  }

  function Filled(s: Receiving, chunk: seq<byte>): Receiving {
    s.(filled := s.filled + chunk, offset := s.offset + |chunk|)
  }

  function CompleteStep(t: Receiving): (Receiving, ReceiveResult)
    requires |t.filled| < TWO_32
  {
    var f := Reset(t.(frames := t.frames + [t.filled]));
    match DecodeMessage(t.filled)
    case Rejected => (f, Alive)
    case Done(m, _) => (Deliver(f, m), Alive)
    case Overrun => (t, Escaped)
  }

  function PullStep(s: Receiving): (Receiving, Option<Message>) {
    if s.queue == [] then (s, None)
    else (s.(queue := s.queue[1..], pulled := s.pulled + [s.queue[0]]), Some(s.queue[0]))
  }

  predicate Enabled(s: Receiving, e: Event) {
    match e
    case Recv(chunk) => Sane(s) && |chunk| <= Wanted(s) && ReceiveStep(s, chunk).1 == Alive
    case _ => true
  }

  function Step(s: Receiving, e: Event): Receiving
    requires Enabled(s, e)
  {
    match e
    case Recv(chunk) => ReceiveStep(s, chunk).0
    case Pull => PullStep(s).0
    case SetHandlerNamed(name, None) => s.(handlers := s.handlers - {name})
    case SetHandlerNamed(name, Some(h)) => s.(handlers := s.handlers[name := h])
    case SetHandlerDefault(h) => s.(fallback := h)
    case SetRecvBlockSize(size) => s.(blockSize := if size < 1 then 1 else size)
  }

  predicate CanRun(s: Receiving, es: seq<Event>)
    decreases |es|
  {
    es == [] || (Enabled(s, es[0]) && CanRun(Step(s, es[0]), es[1..]))
  }

  function After(s: Receiving, es: seq<Event>): Receiving
    requires CanRun(s, es)
    decreases |es|
  {
    if es == [] then s else After(Step(s, es[0]), es[1..])
  }

  /** The buffer fields fit together: the offset never passes the length. */
  predicate Sane(s: Receiving) {
    && s.length < TWO_32 && s.maxLength < TWO_32
    && if s.inPrefix then s.offset < 4 && s.filled == [] else s.offset == |s.filled| <= s.length
  }

  lemma SaneFields(s: Receiving)
    requires Sane(s)
    ensures s.length < TWO_32 && |s.filled| <= s.length
    ensures if s.inPrefix then s.offset < 4 && s.filled == [] else s.offset == |s.filled|
  {
  }

  lemma SettersKeepSane(s: Receiving, e: Event)
    requires Sane(s) && !e.Recv? && !e.Pull?
    ensures Sane(Step(s, e))
  {
  }

  lemma LimitKeepsInvariants(s: Receiving, max: nat)
    requires Sane(s) && Partitioned(s) && max < TWO_32
    ensures Sane(s.(maxLength := max)) && Partitioned(s.(maxLength := max))
  {
  }

  lemma PullKeepsSane(s: Receiving)
    requires Sane(s)
    ensures Sane(PullStep(s).0)
  {
  }

  lemma ListeningIsSane(maxLength: nat, blockSize: nat)
    requires maxLength < TWO_32
    ensures Sane(Listening(maxLength, blockSize)) && Partitioned(Listening(maxLength, blockSize))
  {
  }

  lemma OverlayBound(length: nat, chunk: seq<byte>)
    requires |chunk| <= 4
    ensures Overlay(length, chunk) < TWO_32
  {
    FieldBounds(chunk + LE(length, 4)[|chunk|..]);
  }

  lemma SaneStep(s: Receiving, chunk: seq<byte>)
    requires Sane(s) && |chunk| <= Wanted(s)
    ensures ReceiveStep(s, chunk).1 == Alive ==> Sane(ReceiveStep(s, chunk).0)
    ensures ReceiveStep(s, chunk).0.maxLength == s.maxLength
  {
    hide DecodeMessage, LE, FromLE, Overlay;
    if s.inPrefix {
      OverlayBound(s.length, chunk);
    }
  }

  lemma SaneAfterStep(s: Receiving, e: Event)
    requires Sane(s) && Enabled(s, e)
    ensures Sane(Step(s, e)) && Step(s, e).maxLength == s.maxLength
  {
    hide ReceiveStep, Sane;
    match e
    case Recv(chunk) => SaneStep(s, chunk);
    case Pull => PullKeepsSane(s);
    case _ => SettersKeepSane(s, e);
  }

  /**
   Over every run, length prefixes in pieces included, the receive offset never passes the length; so every recv asks
   for no more bytes than there is room for: for the rest of the prefix, or for the rest of the body up to the block
   size.
   */
  lemma {:induction false} SaneRun(s: Receiving, es: seq<Event>)
    requires Sane(s) && CanRun(s, es)
    ensures var t := After(s, es);
            && Sane(t) && t.maxLength == s.maxLength
            && t.offset + Wanted(t) <= (if t.inPrefix then 4 else t.length)
            && (t.inPrefix ==> t.offset + Wanted(t) == 4)
            && (!t.inPrefix ==> Wanted(t) <= t.blockSize)
            && (!t.inPrefix && Wanted(t) < t.blockSize ==> t.offset + Wanted(t) == t.length)
    decreases |es|
  {
    if es != [] {
      hide Sane, Step;
      SaneAfterStep(s, es[0]);
      SaneRun(Step(s, es[0]), es[1..]);
    }
  }

  lemma RecvConsumes(s: Receiving, chunk: seq<byte>)
    requires Sane(s) && 0 < |chunk| <= Wanted(s)
    ensures ReceiveStep(s, chunk).0.consumed == s.consumed + chunk
    ensures ReceiveStep(s, chunk).0.blockSize == s.blockSize
  {
    hide DecodeMessage, LE, Overlay;
  }

  // The delivery partition

  /** The requests in the frames, those that cannot be decoded left out. */
  function Decoded(frames: seq<seq<byte>>): seq<Message> {
    if frames == [] then []
    else
      (if |frames[0]| < TWO_32 && DecodeMessage(frames[0]).Done? then [DecodeMessage(frames[0]).value] else [])
      + Decoded(frames[1..])
  }

  lemma {:induction false} DecodedAppend(frames: seq<seq<byte>>, f: seq<byte>)
    ensures Decoded(frames + [f]) == Decoded(frames) + Decoded([f])
  {
    hide DecodeMessage;
    var all, last := frames + [f], Decoded([f]);
    if frames == [] {
      assert all == [f] && [] + last == last;
    } else {
      DecodedAppend(frames[1..], f);
      assert all[0] == frames[0] && all[1..] == frames[1..] + [f];
      var first := if |frames[0]| < TWO_32 && DecodeMessage(frames[0]).Done?
                   then [DecodeMessage(frames[0]).value] else [];
      assert first + (Decoded(frames[1..]) + last) == first + Decoded(frames[1..]) + last;
    }
  }

  function LogMessages(log: seq<Delivery>): (ms: seq<Message>)
    ensures |ms| == |log| && forall i | 0 <= i < |log| :: ms[i] == log[i].msg
  {
    if log == [] then [] else [log[0].msg] + LogMessages(log[1..])
  }

  /** The logged requests that went to the queue. */
  function QueuedOf(log: seq<Delivery>): seq<Message> {
    if log == [] then []
    else (if log[0].route == Queued then [log[0].msg] else []) + QueuedOf(log[1..])
  }

  lemma LogAppend(log: seq<Delivery>, d: Delivery)
    ensures LogMessages(log + [d]) == LogMessages(log) + [d.msg]
    ensures QueuedOf(log + [d]) == QueuedOf(log) + if d.route == Queued then [d.msg] else []
  {
    QueuedAppend(log, d);
    assert LogMessages(log + [d]) == LogMessages(log) + [d.msg];
  }

  lemma {:induction false} QueuedAppend(log: seq<Delivery>, d: Delivery)
    ensures QueuedOf(log + [d]) == QueuedOf(log) + if d.route == Queued then [d.msg] else []
  {
    var all, last := log + [d], if d.route == Queued then [d.msg] else [];
    if log == [] {
      assert all == [d] && [d][1..] == [];
    } else {
      QueuedAppend(log[1..], d);
      assert all[0] == log[0] && all[1..] == log[1..] + [d];
      var first := if log[0].route == Queued then [log[0].msg] else [];
      assert first + (QueuedOf(log[1..]) + last) == first + QueuedOf(log[1..]) + last;
    }
  }

  /**
   Every decoded request has exactly one log entry, in order; it was routed by the handlers then set; and what Pull
   returned, followed by what is queued, is what was queued in order of arrival.
   */
  ghost predicate Partitioned(s: Receiving) {
    && LogMessages(s.log) == Decoded(s.frames)
    && s.pulled + s.queue == QueuedOf(s.log)
    && forall i | 0 <= i < |s.log| :: Routed(s.log[i])
  }

  /** A keep-alive is dropped; else a handler set for the name comes first, then the default one, then the queue. */
  ghost predicate Routed(d: Delivery) {
    var keepAlive, named := d.msg.name == [0x5F], d.msg.name in d.handlers;
    && (d.route.KeepAlive? <==> keepAlive)
    && (d.route.Named? <==> !keepAlive && named) && (d.route.Named? ==> d.route.handler == d.handlers[d.msg.name])
    && (d.route.Default? <==> !keepAlive && !named && d.fallback.Some?)
    && (d.route.Default? ==> d.route.handler == d.fallback.value)
    && (d.route.Queued? <==> !keepAlive && !named && d.fallback.None?)
  }

  lemma RouteIsRouted(s: Receiving, m: Message)
    ensures Routed(Logged(s, m, RouteOf(s, m.name)))
  {
  }

  /** Only a recv adds to the log, one entry at most, and that entry names the handlers in force. */
  lemma StepLogs(s: Receiving, e: Event)
    requires Enabled(s, e)
    ensures var t := Step(s, e);
            && |s.log| <= |t.log| <= |s.log| + 1 && t.log[..|s.log|] == s.log
            && (|t.log| > |s.log| ==>
                  e.Recv? && t.log[|s.log|].handlers == s.handlers && t.log[|s.log|].fallback == s.fallback)
  {
    hide DecodeMessage, Overlay, LE, RouteOf;
  }

  /**
   What setting a handler does: a null handler removes the entry, another one replaces it; other names keep theirs.
   */
  lemma NamedHandlerSet(s: Receiving, name: seq<byte>, h: Option<Handler>, other: seq<byte>)
    ensures var t := Step(s, SetHandlerNamed(name, h));
            && (name in t.handlers <==> h.Some?) && (h.Some? ==> t.handlers[name] == h.value)
            && (other != name ==> (other in t.handlers <==> other in s.handlers)
                                  && (other in s.handlers ==> t.handlers[other] == s.handlers[other]))
            && t == s.(handlers := t.handlers)
  {
  }

  lemma DeliverPartitions(s: Receiving, f: seq<byte>, m: Message)
    requires Partitioned(s) && |f| < TWO_32 && DecodeMessage(f).Done? && DecodeMessage(f).value == m
    ensures Partitioned(Deliver(s.(frames := s.frames + [f]), m))
  {
    hide DecodeMessage, Decoded, LogMessages, QueuedOf, Routed, RouteOf;
    var c := s.(frames := s.frames + [f]);
    var d := Logged(c, m, RouteOf(c, m.name));
    RouteIsRouted(c, m);
    DecodedAppend(s.frames, f);
    assert Decoded([f]) == [m] by { DecodedOne(f); }
    LogAppend(s.log, d);
    assert s.pulled + (s.queue + [m]) == s.pulled + s.queue + [m];
  }

  lemma DecodedOne(f: seq<byte>)
    requires |f| < TWO_32
    ensures Decoded([f]) == if DecodeMessage(f).Done? then [DecodeMessage(f).value] else []
  {
    assert [f][1..] == [];
  }

  lemma StepPartitions(s: Receiving, e: Event)
    requires Partitioned(s) && Enabled(s, e)
    ensures Partitioned(Step(s, e))
  {
    hide DecodeMessage, Decoded, LogMessages, QueuedOf, Overlay, LE, Routed;
    match e
    case Recv(chunk) =>
      if !s.inPrefix && |s.filled + chunk| == s.length {
        var f := s.filled + chunk;
        DecodedAppend(s.frames, f);
        DecodedOne(f);
        assert Decoded(s.frames) + [] == Decoded(s.frames);
        if DecodeMessage(f).Done? {
          DeliverPartitions(s, f, DecodeMessage(f).value);
        }
      }
    case Pull =>
      if s.queue != [] {
        assert s.pulled + s.queue == s.pulled + [s.queue[0]] + s.queue[1..];
      }
    case _ =>
  }

  /** What the Pulls of a run returned. */
  function PullResults(s: Receiving, es: seq<Event>): seq<Message>
    requires CanRun(s, es)
    decreases |es|
  {
    if es == [] then []
    else
      (if es[0].Pull? && PullStep(s).1.Some? then [PullStep(s).1.value] else []) + PullResults(Step(s, es[0]), es[1..])
  }

  /** One Pull: the oldest queued request leaves the queue and is returned, or there is none. */
  lemma PullTakesFirst(s: Receiving)
    ensures var (t, r) := PullStep(s);
            && t == s.(queue := t.queue, pulled := t.pulled)
            && (r.Some? ==> s.queue == [r.value] + t.queue && t.pulled == s.pulled + [r.value])
            && (r.None? <==> s.queue == []) && (r.None? ==> t == s)
  {
  }

  lemma RecvKeepsPulled(s: Receiving, chunk: seq<byte>)
    requires Sane(s) && |chunk| <= Wanted(s)
    ensures ReceiveStep(s, chunk).0.pulled == s.pulled
  {
    hide DecodeMessage, Overlay, LE, RouteOf;
  }

  lemma OnlyPullPulls(s: Receiving, e: Event)
    requires Enabled(s, e) && !e.Pull?
    ensures Step(s, e).pulled == s.pulled
  {
    hide ReceiveStep;
    if e.Recv? {
      RecvKeepsPulled(s, e.chunk);
    }
  }

  /**
   Over every run, what the Pulls returned followed by what is still queued is what was queued, in order of arrival.
   */
  lemma PullsInOrder(s: Receiving, es: seq<Event>)
    requires Partitioned(s) && CanRun(s, es)
    ensures s.pulled + PullResults(s, es) + After(s, es).queue == QueuedOf(After(s, es).log)
  {
    hide Step, Enabled, Partitioned, PullStep;
    DeliveryPartition(s, es);
    PulledOverRun(s, es);
    PartitionedQueue(After(s, es));
  }

  lemma PartitionedQueue(s: Receiving)
    ensures Partitioned(s) ==> s.pulled + s.queue == QueuedOf(s.log)
  {
  }

  lemma {:induction false} PulledOverRun(s: Receiving, es: seq<Event>)
    requires CanRun(s, es)
    ensures After(s, es).pulled == s.pulled + PullResults(s, es)
    decreases |es|
  {
    hide Step, Enabled, PullStep;
    if es == [] {
      assert s.pulled + [] == s.pulled;
    } else {
      var t := Step(s, es[0]);
      PulledOverRun(t, es[1..]);
      if es[0].Pull? {
        PullIsStep(s);
        PullTakesFirst(s);
      } else {
        OnlyPullPulls(s, es[0]);
      }
      var first := if es[0].Pull? && PullStep(s).1.Some? then [PullStep(s).1.value] else [];
      assert t.pulled == s.pulled + first;
      assert s.pulled + first + PullResults(t, es[1..]) == s.pulled + (first + PullResults(t, es[1..]));
    }
  }

  lemma RecvIsStep(s: Receiving, chunk: seq<byte>)
    requires Sane(s) && |chunk| <= Wanted(s) && ReceiveStep(s, chunk).1 == Alive
    ensures Enabled(s, Recv(chunk)) && Step(s, Recv(chunk)) == ReceiveStep(s, chunk).0
  {
  }

  lemma PullIsStep(s: Receiving)
    ensures Enabled(s, Pull) && Step(s, Pull) == PullStep(s).0
  {
  }

  /**
   What becomes of a frame whose last bytes have come, decodable or not: the connection stays alive unless decoding
   leaves the buffer, the receive buffer is gone, and a frame that cannot be decoded leaves no other trace than its
   bytes.
   */
  lemma FrameCompletes(s: Receiving, chunk: seq<byte>)
    requires Sane(s) && !s.inPrefix && chunk != [] && |chunk| <= Wanted(s) && |s.filled + chunk| == s.length
    ensures var (t, result) := ReceiveStep(s, chunk);
            var decoded := DecodeMessage(s.filled + chunk);
            && result == (if decoded.Overrun? then Escaped else Alive)
            && (result == Alive ==>
                  && t.inPrefix && t.length == t.offset == 0 && t.frames == s.frames + [s.filled + chunk]
                  && (decoded.Rejected? ==> t.log == s.log && t.queue == s.queue)
                  && (decoded.Done? ==> LogMessages(t.log) == LogMessages(s.log) + [decoded.value]))
  {
    hide DecodeMessage, RouteOf;
    var decoded := DecodeMessage(s.filled + chunk);
    if decoded.Done? {
      LogAppend(s.log, Logged(s, decoded.value, RouteOf(s, decoded.value.name)));
    }
  }

  /** The delivery partition over every run, the handlers changing at any time. */
  lemma {:induction false} DeliveryPartition(s: Receiving, es: seq<Event>)
    requires Partitioned(s) && CanRun(s, es)
    ensures Partitioned(After(s, es))
    decreases |es|
  {
    if es != [] {
      StepPartitions(s, es[0]);
      DeliveryPartition(Step(s, es[0]), es[1..]);
    }
  }
}
