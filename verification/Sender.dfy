/**
 The sending half of a connection as a state machine.

 Callers on any thread push requests; the background thread moves bytes from the queue through the send buffer to the
 socket, the environment choosing how many bytes each send call takes. Push is two steps, because the check of the
 disconnecting flag and the insertion into the queue are under different locks.
 */
module Sender {
  import opened Bytes
  import opened Wrappers
  import opened Requests
  import opened Arguments

  /** A request in the queue, and whether Push gave it an id of its own. */
  datatype Entry = Entry(msg: Message, ownId: bool)

  datatype Sending = Sending(
    connected: bool,              // socket_type is defined
    disconnecting: bool,          // is_disconnecting
    stopAsked: bool,              // to_stop_event was written
    running: bool,                // Send has not told the background thread to stop
    gated: nat,                   // pushes past the disconnecting check, not yet in the queue
    queue: seq<Message>,          // send_queue
    buffer: Option<seq<byte>>,    // send_buffer and send_buffer_length
    offset: nat,                  // send_buffer_offset
    blockSize: nat,               // send_block_size
    nextId: nat,                  // free_request_id
    even: bool,                   // is_even_request_parts
    sent: seq<byte>,              // history: the bytes handed to the socket
    accepted: seq<Entry>)         // history: the requests put into the queue

  datatype SendResult = Going | Finished | Broken

  datatype Event =
    | Gate                                                // Push finds the connection open, or is turned away
    | Enqueue(msg: Message, copy: bool, changeId: bool)   // Push goes on
    | Send(n: int)                                        // Send, the socket's send returning n
    | Disconnect(forced: bool)
    | SetSendBlockSize(size: nat)

  /** InitializeByFD on an object that has no leftovers. */
  function Connected(even: bool, blockSize: nat): Sending {
    Sending(true, false, false, true, 0, [], None, 0, blockSize, if even then 2 else 1, even, [], [])
  }

  function SetEvenRequestIdsPart(s: Sending, state: bool): Sending {
    var mismatch := (state && s.nextId % 2 == 1) || (!state && s.nextId % 2 == 0);
    s.(even := state, nextId := if mismatch then (s.nextId + 1) % TWO_32 else s.nextId)
  }

  // Steps

  function GateStep(s: Sending): Sending {
    if !s.connected || s.disconnecting then s else s.(gated := s.gated + 1)
  }

  /** The request that goes into the queue. */
  function Pushed(s: Sending, msg: Message, copy: bool, changeId: bool): Message {
    var m := if copy then CopyMessage(msg) else msg;
    if changeId then m.(id := s.nextId) else m
  }

  function EnqueueStep(s: Sending, msg: Message, copy: bool, changeId: bool): Sending
    requires s.gated > 0
  {
    Inserted(s, Pushed(s, msg, copy, changeId), changeId)
  }

  function Inserted(s: Sending, m: Message, tookId: bool): Sending
    requires s.gated > 0
  {
    s.(gated := s.gated - 1,
       queue := s.queue + [m],
       nextId := if tookId then (s.nextId + 2) % TWO_32 else s.nextId,
       accepted := s.accepted + [Entry(m, tookId)])
  }

  /** Push when nothing comes between its two steps. */
  function PushStep(s: Sending, msg: Message, copy: bool, changeId: bool): Sending {
    if !s.connected || s.disconnecting then s else EnqueueStep(GateStep(s), msg, copy, changeId)
  }

  predicate HasSomethingToSend(s: Sending) {
    s.queue != [] || BufferLength(s) != s.offset
  }

  function BufferLength(s: Sending): nat {
    if s.buffer.Some? then |s.buffer.value| else 0
  }

  /** PopSendQueue. */
  function Pop(s: Sending): Sending
    requires AllSendable(s.queue)
  {
    if s.queue == [] then s
    else s.(queue := s.queue[1..], buffer := Some(FrameOf(s.queue[0])), offset := 0)
  }

  function Load(s: Sending): Sending
    requires AllSendable(s.queue)
  {
    if s.buffer.None? && s.queue != [] then Pop(s) else s
  }

  /** Bytes offered to the socket by the next Send. */
  function Offered(s: Sending): nat
    requires AllSendable(s.queue) && Load(s).offset <= BufferLength(Load(s))
  {
    var left := BufferLength(Load(s)) - Load(s).offset;
    if left < s.blockSize then left else s.blockSize
  }

  /** Send when the socket's send returns n; n is ignored when there is nothing to send. */
  function SendStep(s: Sending, n: int): (r: (Sending, SendResult))
    requires AllSendable(s.queue) && Load(s).offset <= BufferLength(Load(s)) && n <= Offered(s)
  {
    SendLoaded(Load(s), n)
  }

  function SendLoaded(l: Sending, n: int): (r: (Sending, SendResult))
    requires l.offset <= BufferLength(l) && n <= BufferLength(l) - l.offset
  {
    if l.buffer.None? then (l, Going)
    else if n <= 0 then (l.(running := false), Broken)
    else
      var moved := Moved(l, n);
      if moved.offset < BufferLength(l) then (moved, Going)
      else if l.disconnecting && l.queue == [] then (Cleared(moved).(running := false), Finished)
      else (Cleared(moved), Going)
  }

  function Moved(l: Sending, n: nat): Sending
    requires l.buffer.Some? && l.offset + n <= |l.buffer.value|
  {
    l.(offset := l.offset + n, sent := l.sent + l.buffer.value[l.offset..l.offset + n])
  }

  /** DeleteSendBuffer. */
  function Cleared(l: Sending): Sending {
    l.(buffer := None, offset := 0)
  }

  /** Disconnect. The dummy request it pushes comes after the flag is set, so Push turns it away. */
  function DisconnectStep(s: Sending, forced: bool): Sending {
    if !s.connected then s
    else if forced then s.(stopAsked := true)
    else if s.disconnecting then s
    else GateStep(s.(disconnecting := true))
  }

  predicate Enabled(s: Sending, e: Event) {
    match e
    case Enqueue(m, _, _) => s.gated > 0 && Sendable(m)
    case Send(n) =>
      s.running && AllSendable(s.queue) && Load(s).offset <= BufferLength(Load(s)) && -1 <= n <= Offered(s)
    case _ => true
  }

  function Step(s: Sending, e: Event): Sending
    requires Enabled(s, e)
  {
    match e
    case Gate => GateStep(s)
    case Enqueue(m, copy, changeId) => EnqueueStep(s, m, copy, changeId)
    case Send(n) => SendStep(s, n).0
    case Disconnect(forced) => DisconnectStep(s, forced)
    case SetSendBlockSize(size) => s.(blockSize := if size < 1 then 1 else size)
  }

  predicate CanRun(s: Sending, es: seq<Event>)
    decreases |es|
  {
    es == [] || (Enabled(s, es[0]) && CanRun(Step(s, es[0]), es[1..]))
  }

  function After(s: Sending, es: seq<Event>): Sending
    requires CanRun(s, es)
    decreases |es|
  {
    if es == [] then s else After(Step(s, es[0]), es[1..])
  }

  lemma RunOne(s: Sending, e: Event)
    requires Enabled(s, e)
    ensures CanRun(s, [e]) && After(s, [e]) == Step(s, e)
  {
    hide Enabled, Step;
    assert [e][1..] == [];
  }

  lemma RunFirst(s: Sending, e: Event, es: seq<Event>)
    requires Enabled(s, e) && CanRun(Step(s, e), es)
    ensures CanRun(s, [e] + es) && After(s, [e] + es) == After(Step(s, e), es)
  {
    hide Enabled, Step;
    assert ([e] + es)[1..] == es;
  }

  // Sequences of requests

  predicate AllSendable(ms: seq<Message>) {
    forall i | 0 <= i < |ms| :: Sendable(ms[i])
  }

  /** The bytes of one request that fits. */
  function FrameOf(m: Message): (b: seq<byte>)
    requires Sendable(m)
  {
    EncodeMessage(m)
  }

  /** The frames of the requests, one behind the other. */
  function EncodeMessages(ms: seq<Message>): seq<byte>
    requires AllSendable(ms)
  {
    if ms == [] then [] else FrameOf(ms[0]) + EncodeMessages(ms[1..])
  }

  function Messages(entries: seq<Entry>): (ms: seq<Message>)
    ensures |ms| == |entries| && forall i | 0 <= i < |ms| :: ms[i] == entries[i].msg
  {
    if entries == [] then [] else [entries[0].msg] + Messages(entries[1..])
  }

  lemma {:induction false} EncodeMessagesAppend(ms: seq<Message>, m: Message)
    requires AllSendable(ms) && Sendable(m)
    ensures AllSendable(ms + [m]) && EncodeMessages(ms + [m]) == EncodeMessages(ms) + FrameOf(m)
  {
    if ms == [] {
      assert ms + [m] == [m];
    } else {
      EncodeMessagesAppend(ms[1..], m);
      assert (ms + [m])[1..] == ms[1..] + [m];
    }
  }

  lemma MessagesAppend(entries: seq<Entry>, e: Entry)
    ensures Messages(entries + [e]) == Messages(entries) + [e.msg]
  {
  }

  // Conservation

  /** What the connection still owes the socket. */
  function Unsent(s: Sending): seq<byte>
    requires AllSendable(s.queue) && s.offset <= BufferLength(s)
  {
    Tail(s) + EncodeMessages(s.queue)
  }

  function Tail(s: Sending): seq<byte>
    requires s.offset <= BufferLength(s)
  {
    if s.buffer.Some? then s.buffer.value[s.offset..] else []
  }

  /** What every step keeps: nothing pushed is lost, duplicated, reordered or altered on its way to the socket. */
  ghost predicate Inv(s: Sending) {
    && s.nextId < TWO_32 && s.nextId % 2 == (if s.even then 0 else 1) && s.blockSize >= 1
    && AllSendable(s.queue) && AllSendable(Messages(s.accepted))
    && (if s.buffer.Some? then s.offset < |s.buffer.value| else s.offset == 0)
    && s.sent + Unsent(s) == EncodeMessages(Messages(s.accepted))
  }

  lemma ConnectedInv(even: bool, blockSize: nat)
    requires blockSize >= 1
    ensures Inv(Connected(even, blockSize))
    ensures forall state :: Inv(SetEvenRequestIdsPart(Connected(even, blockSize), state))
  {
  }

  lemma PushedSendable(s: Sending, msg: Message, copy: bool, changeId: bool)
    requires Sendable(msg) && s.nextId < TWO_32
    ensures Sendable(Pushed(s, msg, copy, changeId))
  {
    CopyMessageSendable(msg);
  }

  lemma EnqueueKeepsInv(s: Sending, msg: Message, copy: bool, changeId: bool)
    requires Inv(s) && s.gated > 0 && Sendable(msg)
    ensures Inv(EnqueueStep(s, msg, copy, changeId))
    ensures Sendable(Pushed(s, msg, copy, changeId))
    ensures Unsent(EnqueueStep(s, msg, copy, changeId)) == Unsent(s) + FrameOf(Pushed(s, msg, copy, changeId))
  {
    hide EncodeMessages, FrameOf, CopyMessage, Sendable;
    var t, m := EnqueueStep(s, msg, copy, changeId), Pushed(s, msg, copy, changeId);
    PushedSendable(s, msg, copy, changeId);
    EncodeMessagesAppend(s.queue, m);
    EncodeMessagesAppend(Messages(s.accepted), m);
    MessagesAppend(s.accepted, Entry(m, changeId));
    assert Unsent(t) == Unsent(s) + FrameOf(m);
    assert s.sent + (Unsent(s) + FrameOf(m)) == s.sent + Unsent(s) + FrameOf(m);
  }

  /** Taking the next request out of the queue changes nothing about what is unsent. */
  lemma LoadKeepsInv(s: Sending)
    requires Inv(s)
    ensures AllSendable(s.queue) && Inv(Load(s)) && Unsent(Load(s)) == Unsent(s)
    ensures Load(s).buffer.None? <==> Unsent(s) == []
    ensures HasSomethingToSend(s) <==> Unsent(s) != []
  {
    hide FrameOf, Sendable;
    if s.queue != [] {
      assert Sendable(s.queue[0]);
      FrameNonempty(s.queue[0]);
    }
    if s.buffer.None? && s.queue != [] {
      var b := FrameOf(s.queue[0]);
      assert b[0..] == b;
      assert [] + (b + EncodeMessages(s.queue[1..])) == b + EncodeMessages(s.queue[1..]);
    }
  }

  lemma FrameNonempty(m: Message)
    requires Sendable(m)
    ensures |FrameOf(m)| == MessageSize(m) >= 10
  {
    EncodeMessageSize(m);
  }

  lemma FrontFrame(s: Sending)
    requires Inv(s) && s.queue != []
    ensures Sendable(s.queue[0]) && FrameOf(s.queue[0]) == EncodeMessage(s.queue[0])
    ensures |FrameOf(s.queue[0])| == MessageSize(s.queue[0]) < TWO_32
  {
    assert Sendable(s.queue[0]);
    FrameNonempty(s.queue[0]);
  }

  /** One transfer of n bytes out of a loaded buffer, which is then cleared if it is empty. */
  lemma MoveKeeps(l: Sending, n: nat)
    requires Inv(l) && l.buffer.Some? && 0 < n <= |l.buffer.value| - l.offset
    ensures n <= |Unsent(l)|
    ensures var m := Moved(l, n);
            var t := if m.offset < |l.buffer.value| then m else Cleared(m);
            Inv(t) && Unsent(t) == Unsent(l)[n..] && t.sent == l.sent + Unsent(l)[..n]
            && (HasSomethingToSend(t) <==> Unsent(t) != [])
  {
    hide FrameOf, Sendable, EncodeMessages, Messages;
    var m := Moved(l, n);
    var t := if m.offset < |l.buffer.value| then m else Cleared(m);
    Splits(l.buffer.value, l.offset, n, EncodeMessages(l.queue), l.sent);
    var u := Unsent(l);
    assert Unsent(t) == u[n..];
    assert t.sent == l.sent + u[..n];
    assert t.sent + Unsent(t) == l.sent + u;
    assert HasSomethingToSend(t) <==> Unsent(t) != [] by {
      LoadKeepsInv(t);
    }
  }

  lemma Splits(b: seq<byte>, offset: nat, n: nat, queued: seq<byte>, sent: seq<byte>)
    requires offset + n <= |b|
    ensures var u := b[offset..] + queued;
            && u[..n] == b[offset..offset + n] && u[n..] == b[offset + n..] + queued
            && (offset + n == |b| ==> u[n..] == [] + queued)
            && sent + u[..n] + u[n..] == sent + u
  {
  }

  /**
   A Send whose socket call takes n bytes moves exactly the next n unsent bytes, and it asks the background thread to
   stop exactly when the connection is disconnecting and nothing unsent is left.
   */
  lemma SendMoves(s: Sending, n: int)
    requires Inv(s) && Enabled(s, Send(n))
    ensures var (t, r) := SendStep(s, n);
            && Inv(t) && t.accepted == s.accepted && t.disconnecting == s.disconnecting && t.gated == s.gated
            && (n <= 0 || Unsent(s) == [] ==> Unsent(t) == Unsent(s) && t.sent == s.sent && r != Finished)
            && (n > 0 && Unsent(s) != [] ==>
                  && n <= |Unsent(s)| && Unsent(t) == Unsent(s)[n..] && t.sent == s.sent + Unsent(s)[..n]
                  && (r == Finished <==> s.disconnecting && Unsent(t) == []) && r != Broken)
            && (Unsent(s) == [] ==> r == Going) && (r == Broken <==> n <= 0 && Unsent(s) != [])
            && t.running == (r == Going)
  {
    hide FrameOf, Sendable, EncodeMessages, Messages, Inv, Unsent, SendLoaded;
    LoadKeepsInv(s);
    LoadedMoves(Load(s), n);
  }

  /** The part of Send behind the queue lock. */
  lemma LoadedMoves(l: Sending, n: int)
    requires Inv(l) && (l.buffer.None? <==> Unsent(l) == []) && n <= BufferLength(l) - l.offset
    ensures var (t, r) := SendLoaded(l, n);
            && Inv(t) && t.accepted == l.accepted && t.disconnecting == l.disconnecting && t.gated == l.gated
            && (n <= 0 || Unsent(l) == [] ==> Unsent(t) == Unsent(l) && t.sent == l.sent && r != Finished)
            && (n > 0 && Unsent(l) != [] ==>
                  && n <= |Unsent(l)| && Unsent(t) == Unsent(l)[n..] && t.sent == l.sent + Unsent(l)[..n]
                  && (r == Finished <==> l.disconnecting && Unsent(t) == []) && r != Broken)
            && (Unsent(l) == [] ==> r == Going) && (r == Broken <==> n <= 0 && Unsent(l) != [])
            && (l.running || r != Going ==> t.running == (r == Going))
  {
    hide FrameOf, Sendable, EncodeMessages, Messages, Unsent;
    if l.buffer.Some? && n > 0 {
      MoveKeeps(l, n);
      StoppedIsInv(if Moved(l, n).offset < BufferLength(l) then Moved(l, n) else Cleared(Moved(l, n)));
    } else {
      StoppedIsInv(l);
    }
  }

  lemma StoppedIsInv(s: Sending)
    requires Inv(s)
    ensures var t := s.(running := false); Inv(t) && Unsent(t) == Unsent(s)
  {
    hide FrameOf, Sendable, EncodeMessages, Messages;
  }

  /** What a Send may pass to the socket: the block size limits it, and it is all that is loaded if that is less. */
  lemma OfferedBytes(s: Sending)
    requires Inv(s)
    ensures Load(s).offset <= BufferLength(Load(s)) && Offered(s) <= |Unsent(s)|
    ensures Offered(s) <= s.blockSize && (Unsent(s) != [] ==> Offered(s) > 0)
    ensures Offered(s) < s.blockSize ==> Load(s).offset + Offered(s) == BufferLength(Load(s))
  {
    hide FrameOf, Sendable, EncodeMessages, Messages;
    LoadKeepsInv(s);
  }

  /** The two halves of Send keep the invariant. */
  lemma SendKeepsInv(s: Sending, n: int)
    requires Inv(s) && Enabled(s, Send(n))
    ensures Inv(Load(s)) && Inv(SendStep(s, n).0)
  {
    SendMoves(s, n);
    LoadKeepsInv(s);
  }

  lemma StepKeepsInv(s: Sending, e: Event)
    requires Inv(s) && Enabled(s, e)
    ensures Inv(Step(s, e))
  {
    hide FrameOf, Sendable, EncodeMessages, Messages;
    match e
    case Enqueue(m, copy, changeId) => EnqueueKeepsInv(s, m, copy, changeId);
    case Send(n) => SendMoves(s, n);
    case _ =>
  }

  lemma OffsetInside(s: Sending)
    requires Inv(s)
    ensures s.offset <= BufferLength(s) && AllSendable(s.queue) && s.nextId < TWO_32
  {
  }

  lemma SetEvenKeepsInv(s: Sending, state: bool)
    requires Inv(s)
    ensures Inv(SetEvenRequestIdsPart(s, state))
  {
    hide FrameOf, Sendable, EncodeMessages, Messages;
    var t := SetEvenRequestIdsPart(s, state);
    assert Unsent(t) == Unsent(s);
  }

  /**
   Send-side conservation over every run: the bytes sent, the rest of the send buffer and the queued requests are
   together exactly the accepted requests in order, and HasSomethingToSend says whether anything of that is unsent.
   */
  lemma {:induction false} Conservation(s: Sending, es: seq<Event>)
    requires Inv(s) && CanRun(s, es)
    ensures var t := After(s, es);
            && Inv(t) && t.sent + Unsent(t) == EncodeMessages(Messages(t.accepted))
            && (HasSomethingToSend(t) <==> Unsent(t) != [])
    decreases |es|
  {
    if es == [] {
      LoadKeepsInv(s);
    } else {
      StepKeepsInv(s, es[0]);
      Conservation(Step(s, es[0]), es[1..]);
    }
  }

  // What is accepted is what was pushed

  /** The pushes of a run that reach the queue, with the arguments that Push was called with. */
  function Pushes(es: seq<Event>): (ps: seq<Event>)
    ensures forall i | 0 <= i < |ps| :: ps[i].Enqueue?
  {
    if es == [] then [] else (if es[0].Enqueue? then [es[0]] else []) + Pushes(es[1..])
  }

  /**
   The request m is what the push says: the name is kept, the id is kept unless Push chooses one, the arguments are kept
   or, if the request is copied, each name is there once with a copy of its last value.
   */
  ghost predicate Carries(m: Message, push: Event)
    requires push.Enqueue?
  {
    && m.name == push.msg.name
    && (push.changeId || m.id == push.msg.id)
    && if push.copy then CopyOf(m.args, push.msg.args) else m.args == push.msg.args
  }

  lemma PushedCarries(s: Sending, msg: Message, copy: bool, changeId: bool)
    ensures Carries(Pushed(s, msg, copy, changeId), Enqueue(msg, copy, changeId))
    ensures changeId ==> Pushed(s, msg, copy, changeId).id == s.nextId
  {
    hide CopyOf, CopyMessage;
    CopyMessageIsCopy(msg);
  }

  lemma EnqueueInserts(s: Sending, msg: Message, copy: bool, changeId: bool)
    requires s.gated > 0
    ensures EnqueueStep(s, msg, copy, changeId) == Inserted(s, Pushed(s, msg, copy, changeId), changeId)
  {
  }

  /** What one push leaves behind: one more request at the end of the queue and of the history, the rest as it was. */
  lemma EnqueueAppends(s: Sending, msg: Message, copy: bool, changeId: bool)
    requires s.gated > 0
    ensures var t := EnqueueStep(s, msg, copy, changeId);
            && |t.queue| == |s.queue| + 1 && t.queue[..|s.queue|] == s.queue
            && Carries(t.queue[|s.queue|], Enqueue(msg, copy, changeId))
            && t.accepted == s.accepted + [Entry(t.queue[|s.queue|], changeId)]
            && (changeId ==> t.queue[|s.queue|].id == s.nextId)
            && t.nextId == if changeId then (s.nextId + 2) % 0x1_0000_0000 else s.nextId
  {
    hide Carries, Pushed;
    PushedCarries(s, msg, copy, changeId);
  }

  lemma OnlyEnqueueAccepts(s: Sending, e: Event)
    requires Enabled(s, e) && !e.Enqueue?
    ensures Step(s, e).accepted == s.accepted && Step(s, e).nextId == s.nextId
  {
    hide AllSendable, SendStep, Load, Offered;
    if e.Send? {
      SendIsStep(s, e.n);
      SendKeeps(s, e.n);
    }
  }

  lemma SendIsStep(s: Sending, n: int)
    requires Enabled(s, Send(n))
    ensures Step(s, Send(n)) == SendStep(s, n).0
  {
    hide SendStep, Load;
  }

  lemma SendKeeps(s: Sending, n: int)
    requires Enabled(s, Send(n))
    ensures var t := SendStep(s, n).0;
            t.accepted == s.accepted && t.nextId == s.nextId && t.connected == s.connected
  {
    hide AllSendable, Load;
    LoadKeeps(s);
  }

  lemma LoadKeeps(s: Sending)
    requires AllSendable(s.queue)
    ensures var l := Load(s); l.accepted == s.accepted && l.nextId == s.nextId && l.connected == s.connected
  {
    hide FrameOf;
  }

  /** Entry i of the history, from index `from` on, is what push i of the run says. */
  ghost predicate AsPushed(accepted: seq<Entry>, from: nat, pushes: seq<Event>)
    requires forall i | 0 <= i < |pushes| :: pushes[i].Enqueue?
  {
    && |accepted| == from + |pushes|
    && forall i | 0 <= i < |pushes| ::
         Carries(accepted[from + i].msg, pushes[i]) && accepted[from + i].ownId == pushes[i].changeId
  }

  /** Over every run, the requests accepted are exactly those pushed, in order. */
  lemma {:induction false} AcceptedAsPushed(s: Sending, es: seq<Event>)
    requires CanRun(s, es)
    ensures var t := After(s, es);
            AsPushed(t.accepted, |s.accepted|, Pushes(es)) && t.accepted[..|s.accepted|] == s.accepted
    decreases |es|
  {
    hide Step, Enabled, Carries;
    if es != [] {
      var e := es[0];
      var u := Step(s, e);
      AcceptedAsPushed(u, es[1..]);
      if e.Enqueue? {
        EnqueueStepAccepts(s, e);
        PrependPush(s.accepted, u.accepted, After(u, es[1..]).accepted, e, Pushes(es[1..]));
      } else {
        OnlyEnqueueAccepts(s, e);
        assert Pushes(es) == Pushes(es[1..]);
      }
    }
  }

  lemma EnqueueStepAccepts(s: Sending, e: Event)
    requires Enabled(s, e) && e.Enqueue?
    ensures var u := Step(s, e);
            && |u.accepted| == |s.accepted| + 1 && u.accepted[..|s.accepted|] == s.accepted
            && Carries(u.accepted[|s.accepted|].msg, e) && u.accepted[|s.accepted|].ownId == e.changeId
  {
    hide Carries, Sendable;
    EnqueueAppends(s, e.msg, e.copy, e.changeId);
  }

  lemma PrependPush(before: seq<Entry>, mid: seq<Entry>, all: seq<Entry>, e: Event, later: seq<Event>)
    requires e.Enqueue? && forall i | 0 <= i < |later| :: later[i].Enqueue?
    requires |mid| == |before| + 1 && mid[..|before|] == before
    requires Carries(mid[|before|].msg, e) && mid[|before|].ownId == e.changeId
    requires AsPushed(all, |mid|, later) && all[..|mid|] == mid
    ensures AsPushed(all, |before|, [e] + later) && all[..|before|] == before
  {
    hide Carries;
    assert all[|before|] == mid[|before|];
    assert all[..|before|] == mid[..|before|];
    forall i | 0 <= i < |later| + 1
      ensures Carries(all[|before| + i].msg, ([e] + later)[i]) && all[|before| + i].ownId == ([e] + later)[i].changeId
    {
      if i > 0 {
        assert ([e] + later)[i] == later[i - 1] && all[|before| + i] == all[|mid| + (i - 1)];
      }
    }
  }

  // Send is one step

  /** What other threads may do while Send is between its locks. */
  predicate FromOthers(e: Event) {
    e.Gate? || e.Enqueue? || e.Disconnect?
  }

  lemma InsertCommutes(s: Sending, m: Message, tookId: bool)
    requires AllSendable(s.queue) && Sendable(m) && s.gated > 0 && Load(s).buffer.Some?
    ensures AllSendable(s.queue + [m]) && Inserted(Load(s), m, tookId) == Load(Inserted(s, m, tookId))
  {
    hide FrameOf, Sendable;
    if s.buffer.None? {
      assert (s.queue + [m])[1..] == s.queue[1..] + [m];
    }
  }

  /** Taking the next request out of the queue commutes with every such step. */
  lemma LoadCommutes(s: Sending, e: Event)
    requires Inv(s) && Load(s).buffer.Some? && FromOthers(e) && Enabled(Load(s), e)
    ensures Enabled(s, e) && Inv(Step(s, e)) && Step(Load(s), e) == Load(Step(s, e))
  {
    hide FrameOf, Sendable, Inv, CopyMessage;
    OffsetInside(s);
    StepKeepsInv(s, e);
    OffsetInside(Step(s, e));
    match e
    case Enqueue(msg, copy, changeId) =>
      PushedSendable(s, msg, copy, changeId);
      InsertCommutes(s, Pushed(s, msg, copy, changeId), changeId);
    case Gate => FlagsCommute(s);
    case Disconnect(forced) => FlagsCommute(s);
  }

  lemma FlagsCommute(s: Sending)
    requires AllSendable(s.queue)
    ensures GateStep(Load(s)) == Load(GateStep(s))
    ensures forall forced :: DisconnectStep(Load(s), forced) == Load(DisconnectStep(s, forced))
  {
    hide FrameOf, AllSendable;
  }

  lemma {:induction false} LoadCommutesWithRun(s: Sending, es: seq<Event>)
    requires Inv(s) && Load(s).buffer.Some? && CanRun(Load(s), es) && forall i | 0 <= i < |es| :: FromOthers(es[i])
    ensures CanRun(s, es) && Inv(After(s, es)) && After(Load(s), es) == Load(After(s, es))
    ensures After(s, es).running == s.running && SameBuffer(After(Load(s), es), Load(s))
    decreases |es|
  {
    hide Inv, Step, Load, Enabled, FromOthers;
    OffsetInside(s);
    if es != [] {
      LoadCommutes(s, es[0]);
      OthersLeaveBuffer(Load(s), es[0]);
      OthersLeaveBuffer(s, es[0]);
      LoadCommutesWithRun(Step(s, es[0]), es[1..]);
    }
  }

  predicate SameBuffer(s: Sending, t: Sending) {
    s.buffer == t.buffer && s.offset == t.offset && s.blockSize == t.blockSize && s.running == t.running
  }

  lemma OthersLeaveBuffer(s: Sending, e: Event)
    requires FromOthers(e) && Enabled(s, e)
    ensures SameBuffer(Step(s, e), s)
  {
    hide Pushed;
  }

  lemma {:induction false} OthersRun(s: Sending, es: seq<Event>)
    requires CanRun(s, es) && forall i | 0 <= i < |es| :: FromOthers(es[i])
    ensures SameBuffer(After(s, es), s)
    decreases |es|
  {
    hide Step, Enabled, FromOthers;
    if es != [] {
      OthersLeaveBuffer(s, es[0]);
      OthersRun(Step(s, es[0]), es[1..]);
    }
  }

  /**
   Send takes the queue lock twice and calls send() outside it. Whatever other threads do in between (steps `es`), the
   outcome is that of Send as one step: after all of them if Send has something to send, before all of them if not.
   */
  lemma SendIsOneStep(s: Sending, n: int, es: seq<Event>)
    requires Inv(s) && Enabled(s, Send(n)) && CanRun(Load(s), es)
    requires forall i | 0 <= i < |es| :: FromOthers(es[i])
    ensures SameBuffer(After(Load(s), es), Load(s))
    ensures Load(s).buffer.Some? ==>
              && CanRun(s, es) && Enabled(After(s, es), Send(n))
              && SendLoaded(After(Load(s), es), n) == SendStep(After(s, es), n)
    ensures Load(s).buffer.None? ==>
              && CanRun(SendStep(s, n).0, es)
              && SendLoaded(After(Load(s), es), n) == (After(SendStep(s, n).0, es), SendStep(s, n).1)
  {
    hide Sendable, CanRun, After, FromOthers;
    OffsetInside(s);
    OthersRun(Load(s), es);
    if Load(s).buffer.Some? {
      LoadCommutesWithRun(s, es);
      LoadKeepsInv(After(s, es));
    }
  }

  // Graceful disconnection

  /** No socket call in the run fails while there is something to send. */
  predicate Healthy(s: Sending, es: seq<Event>)
    requires CanRun(s, es)
    decreases |es|
  {
    es == [] || ((es[0].Send? ==> SendStep(s, es[0].n).1 != Broken) && Healthy(Step(s, es[0]), es[1..]))
  }

  /** How many Sends of the run move bytes. */
  function Transfers(s: Sending, es: seq<Event>): (n: nat)
    requires CanRun(s, es)
    decreases |es|
  {
    if es == [] then 0
    else (if es[0].Send? && HasSomethingToSend(s) then 1 else 0) + Transfers(Step(s, es[0]), es[1..])
  }

  /** Disconnecting, with no push between its two steps, and stopped only if everything is sent. */
  ghost predicate Draining(s: Sending) {
    Inv(s) && s.disconnecting && s.gated == 0 && (s.running || Unsent(s) == [])
  }

  lemma DrainStep(s: Sending, e: Event)
    requires Draining(s) && Enabled(s, e) && (e.Send? ==> SendStep(s, e.n).1 != Broken)
    ensures var t := Step(s, e);
            && Draining(t) && t.accepted == s.accepted
            && |Unsent(t)| + (if e.Send? && HasSomethingToSend(s) then 1 else 0) <= |Unsent(s)|
            && (Unsent(s) == [] ==> t.running == s.running && t.sent == s.sent)
            && (s.running && Unsent(s) != [] ==> (t.running <==> Unsent(t) != []))
            && (HasSomethingToSend(s) <==> Unsent(s) != [])
  {
    hide FrameOf, Sendable, EncodeMessages, Messages;
    LoadKeepsInv(s);
    match e
    case Send(n) => SendMoves(s, n);
    case _ => StepKeepsInv(s, e);
  }

  /**
   A run after a graceful disconnection, no push being halfway at that moment. No later push is accepted. Every Send
   that has something to send shortens what is unsent. If there was a backlog, the background thread has been told to
   stop exactly when everything accepted was sent; if there was none, it is never told.
   */
  lemma {:induction false} GracefulDrain(s: Sending, es: seq<Event>)
    requires Draining(s) && CanRun(s, es) && Healthy(s, es)
    ensures var t := After(s, es);
            && Draining(t) && t.accepted == s.accepted
            && |Unsent(t)| + Transfers(s, es) <= |Unsent(s)|
            && (s.running && Unsent(s) != [] ==> (t.running <==> Unsent(t) != []))
            && (Unsent(s) == [] ==> t.running == s.running && t.sent == s.sent)
            && (!t.running ==> t.sent == EncodeMessages(Messages(s.accepted)))
    decreases |es|
  {
    hide FrameOf, Sendable, EncodeMessages, Messages;
    if es == [] {
      assert s.sent + [] == s.sent;
    } else {
      DrainStep(s, es[0]);
      GracefulDrain(Step(s, es[0]), es[1..]);
    }
  }

  /**
   What Disconnect does: nothing on a closed connection, else it writes the stop event or sets the flag, and no more.
   */
  lemma DisconnectEffect(s: Sending, forced: bool)
    ensures DisconnectStep(s, forced) ==
            if !s.connected then s else if forced then s.(stopAsked := true) else s.(disconnecting := true)
  {
  }

  /** Disconnect(false) starts a drain: its own dummy request is turned away by Push. */
  lemma DisconnectStartsDrain(s: Sending)
    requires Inv(s) && s.connected && s.running && s.gated == 0
    ensures var t := DisconnectStep(s, false);
            Draining(t) && t.running && t.accepted == s.accepted && Unsent(t) == Unsent(s)
  {
  }

  /** Sending byte by byte empties any backlog; pushes that are halfway stay halfway. */
  lemma {:induction false} DrainCompletes(s: Sending) returns (es: seq<Event>)
    requires Inv(s) && s.disconnecting && s.running && Unsent(s) != []
    ensures CanRun(s, es) && Healthy(s, es)
    ensures var t := After(s, es);
            && Inv(t) && !t.running && Unsent(t) == [] && t.sent == s.sent + Unsent(s)
            && t.disconnecting && t.gated == s.gated && t.accepted == s.accepted
    decreases |Unsent(s)|
  {
    hide FrameOf, Sendable, EncodeMessages, Messages;
    LoadKeepsInv(s);
    SendMoves(s, 1);
    var t, u := Step(s, Send(1)), Unsent(s);
    assert s.sent + u[..1] + u[1..] == s.sent + u;
    es := [];
    if t.running {
      es := DrainCompletes(t);
    } else {
      assert s.sent + u[..1] + [] == s.sent + u[..1];
    }
    Prepend(s, Send(1), es);
    es := [Send(1)] + es;
  }

  lemma Prepend(s: Sending, e: Event, es: seq<Event>)
    requires Enabled(s, e) && CanRun(Step(s, e), es) && Healthy(Step(s, e), es)
    requires e.Send? ==> SendStep(s, e.n).1 != Broken
    ensures CanRun(s, [e] + es) && Healthy(s, [e] + es) && After(s, [e] + es) == After(Step(s, e), es)
  {
    hide Step, SendStep, Enabled;
    assert ([e] + es)[1..] == es;
  }

  lemma {:induction false} Append(s: Sending, es: seq<Event>, more: seq<Event>)
    requires CanRun(s, es) && Healthy(s, es) && CanRun(After(s, es), more) && Healthy(After(s, es), more)
    ensures CanRun(s, es + more) && Healthy(s, es + more) && After(s, es + more) == After(After(s, es), more)
    decreases |es|
  {
    hide Step, SendStep, Enabled;
    if es == [] {
      assert es + more == more;
    } else {
      Append(Step(s, es[0]), es[1..], more);
      assert es + more == [es[0]] + (es[1..] + more);
      Prepend(s, es[0], es[1..] + more);
    }
  }

  /** A request named "a", without arguments. */
  function Small(id: nat): Message {
    Message(id, [0x61], [])
  }

  lemma SmallSendable(id: nat)
    requires id < TWO_32
    ensures MessageFits(Small(id)) && |FrameOf(Small(id))| == 11
  {
    FrameNonempty(Small(id));
  }

  const LATE: Event := Enqueue(Small(0), false, false)

  /** A push that is halfway can always go on, and then there is something to send. */
  lemma PushGoesOn(s: Sending)
    requires Inv(s) && s.gated > 0
    ensures Enabled(s, LATE) && CanRun(s, [LATE]) && Healthy(s, [LATE]) && After(s, [LATE]) == Step(s, LATE)
    ensures var t := Step(s, LATE);
            && Inv(t) && Unsent(t) != [] && HasSomethingToSend(t)
            && t.disconnecting == s.disconnecting && t.running == s.running && t.gated == s.gated - 1
  {
    hide EncodeMessage, EncodeMessages, Sendable, FrameOf, Messages;
    SmallSendable(0);
    EnqueueKeepsInv(s, Small(0), false, false);
    assert [LATE][1..] == [];
  }

  /**
   After Disconnect(false), Send tells the background thread to stop in some run exactly when there is something to send
   at the moment of the call, or a push is between its two steps.
   */
  lemma GracefulStopNeedsBacklog(s: Sending)
    requires Inv(s) && s.connected && s.running
    ensures var d := DisconnectStep(s, false);
            (exists es :: CanRun(d, es) && Healthy(d, es) && !After(d, es).running)
            <==> HasSomethingToSend(s) || s.gated > 0
  {
    hide FrameOf, Sendable, EncodeMessages, Messages;
    var d := DisconnectStep(s, false);
    LoadKeepsInv(s);
    if HasSomethingToSend(s) {
      var es := DrainCompletes(d);
    } else if s.gated > 0 {
      PushGoesOn(d);
      var es := DrainCompletes(Step(d, LATE));
      Prepend(d, LATE, es);
    } else {
      DisconnectStartsDrain(s);
      forall es | CanRun(d, es) && Healthy(d, es) ensures After(d, es).running {
        GracefulDrain(d, es);
      }
    }
  }

  /** Disconnecting, and no push can come too late: at most one is halfway, and the thread cannot stop without it. */
  ghost predicate NoneTooLate(s: Sending) {
    Draining(s) || (Inv(s) && s.disconnecting && s.gated == 1 && s.running && Unsent(s) == [])
  }

  lemma NoneLateStep(s: Sending, e: Event)
    requires NoneTooLate(s) && Enabled(s, e) && (e.Send? ==> SendStep(s, e.n).1 != Broken)
    ensures NoneTooLate(Step(s, e))
  {
    hide FrameOf, Sendable, EncodeMessages, Messages, Pushed;
    StepKeepsInv(s, e);
    if s.gated == 0 {
      DrainStep(s, e);
    } else if e.Send? {
      SendMoves(s, e.n);
    }
  }

  lemma {:induction false} NoneIsLate(s: Sending, es: seq<Event>)
    requires NoneTooLate(s) && CanRun(s, es) && Healthy(s, es)
    ensures NoneTooLate(After(s, es))
    decreases |es|
  {
    hide NoneTooLate, Step, Enabled, SendStep;
    if es != [] {
      NoneLateStep(s, es[0]);
      NoneIsLate(Step(s, es[0]), es[1..]);
    }
  }

  /** Disconnect(false) outside the two cases of GracefulLoss. */
  lemma DisconnectInTime(s: Sending)
    requires Inv(s) && s.connected && s.running
    requires s.gated == 0 || (s.gated == 1 && !HasSomethingToSend(s))
    ensures NoneTooLate(DisconnectStep(s, false)) && DisconnectStep(s, false).sent == s.sent
  {
    hide FrameOf, Sendable, EncodeMessages, Messages;
    LoadKeepsInv(s);
    assert Unsent(DisconnectStep(s, false)) == Unsent(s);
  }

  /**
   A graceful disconnection can lose an accepted request exactly when two pushes are between their two steps at the
   moment of the call, or one is and there is something to send: then Send may find everything sent before the last
   push goes on.
   */
  lemma GracefulLoss(s: Sending)
    requires Inv(s) && s.connected && s.running
    ensures var d := DisconnectStep(s, false);
            (exists es :: CanRun(d, es) && Healthy(d, es) && !After(d, es).running && HasSomethingToSend(After(d, es)))
            <==> s.gated >= 2 || (s.gated == 1 && HasSomethingToSend(s))
  {
    hide FrameOf, Sendable, EncodeMessages, Messages;
    var d := DisconnectStep(s, false);
    LoadKeepsInv(s);
    if s.gated > 0 && HasSomethingToSend(s) {
      var es := LastPushIsLate(d);
    } else if s.gated >= 2 {
      PushGoesOn(d);
      var es := LastPushIsLate(Step(d, LATE));
      Prepend(d, LATE, es);
    } else {
      DisconnectInTime(s);
      forall es | CanRun(d, es) && Healthy(d, es) && !After(d, es).running ensures !HasSomethingToSend(After(d, es)) {
        NoneIsLate(d, es);
        LoadKeepsInv(After(d, es));
      }
    }
  }

  lemma LastPushIsLate(s: Sending) returns (es: seq<Event>)
    requires Inv(s) && s.disconnecting && s.running && s.gated > 0 && Unsent(s) != []
    ensures CanRun(s, es) && Healthy(s, es) && !After(s, es).running && HasSomethingToSend(After(s, es))
  {
    hide FrameOf, Sendable, EncodeMessages, Messages, Enabled, Step, SendStep;
    es := DrainCompletes(s);
    PushGoesOn(After(s, es));
    Append(s, es, [LATE]);
    es := es + [LATE];
  }

  /** Once the thread has been told to stop, nothing more is sent, so what is unsent then is lost. */
  lemma {:induction false} StoppedForGood(s: Sending, es: seq<Event>)
    requires !s.running && CanRun(s, es)
    ensures After(s, es).sent == s.sent && !After(s, es).running
    decreases |es|
  {
    hide Pushed, AllSendable;
    if es != [] {
      StoppedForGood(Step(s, es[0]), es[1..]);
    }
  }

  /** The states that a list of events goes through. */
  ghost predicate Passes(states: seq<Sending>, es: seq<Event>) {
    |states| == |es| + 1 && forall i | 0 <= i < |es| :: Takes(states[i], es[i], states[i + 1])
  }

  ghost predicate Takes(s: Sending, e: Event, t: Sending) {
    Enabled(s, e) && Step(s, e) == t && (e.Send? ==> SendStep(s, e.n).1 != Broken)
  }

  lemma {:induction false} PassesIsRun(states: seq<Sending>, es: seq<Event>)
    requires Passes(states, es)
    ensures CanRun(states[0], es) && Healthy(states[0], es) && After(states[0], es) == states[|es|]
    decreases |es|
  {
    hide SendStep, Enabled, Step;
    if es != [] {
      assert Takes(states[0], es[0], states[1]);
      forall i | 0 <= i < |es| - 1 ensures Takes(states[1..][i], es[1..][i], states[1..][i + 1]) {
        assert Takes(states[i + 1], es[i + 1], states[i + 2]);
      }
      PassesIsRun(states[1..], es[1..]);
    }
  }

  const HALFWAY: seq<Event> :=
    [Gate, Enqueue(Small(0), false, true), Gate, Disconnect(false), Send(11), Enqueue(Small(0), false, true)]

  function HalfwayState(i: nat): Sending
    requires Sendable(Small(2))
  {
    var s, e1, e2 := Connected(true, 1024), Entry(Small(2), true), Entry(Small(4), true);
    var pushed := s.(queue := [Small(2)], nextId := 4, accepted := [e1]);
    var stopped := pushed.(queue := [], gated := 1, disconnecting := true, running := false, sent := FrameOf(Small(2)));
    match i
    case 0 => s
    case 1 => s.(gated := 1)
    case 2 => pushed
    case 3 => pushed.(gated := 1)
    case 4 => pushed.(gated := 1, disconnecting := true)
    case 5 => stopped
    case _ => stopped.(gated := 0, queue := [Small(4)], nextId := 6, accepted := [e1, e2])
  }

  lemma HalfwayPushes()
    requires Sendable(Small(0)) && Sendable(Small(2))
    ensures Takes(HalfwayState(1), Enqueue(Small(0), false, true), HalfwayState(2))
    ensures Takes(HalfwayState(5), Enqueue(Small(0), false, true), HalfwayState(6))
  {
    hide EncodeMessage, Sendable, FrameOf;
    assert Small(0).(id := 2) == Small(2) && Small(0).(id := 4) == Small(4);
  }

  lemma HalfwaySends()
    requires Sendable(Small(2))
    ensures Takes(HalfwayState(4), Send(11), HalfwayState(5))
  {
    hide EncodeMessage, Sendable;
    SmallSendable(2);
    var s, b := HalfwayState(4), FrameOf(Small(2));
    assert Load(s) == s.(queue := [], buffer := Some(b));
    assert b[0..11] == b && [] + b == b;
  }

  lemma HalfwayPasses() returns (states: seq<Sending>)
    ensures Passes(states, HALFWAY) && states[0] == Connected(true, 1024)
    ensures var t := states[6]; !t.running && |t.accepted| == 2 && t.queue == [Small(4)] && |t.sent| == 11
  {
    SmallSendable(0);
    SmallSendable(2);
    states := seq(7, (i: nat) => HalfwayState(i));
    HalfwayPushes();
    HalfwaySends();
    hide EncodeMessage, Sendable, FrameOf;
    assert Takes(states[0], HALFWAY[0], states[1]);
    assert Takes(states[1], HALFWAY[1], states[2]);
    assert Takes(states[2], HALFWAY[2], states[3]);
    assert Takes(states[3], HALFWAY[3], states[4]);
    assert Takes(states[4], HALFWAY[4], states[5]);
    assert Takes(states[5], HALFWAY[5], states[6]);
  }

  /** An instance of GracefulLoss that starts with a new connection. */
  lemma HalfwayPushIsLost()
    ensures CanRun(Connected(true, 1024), HALFWAY) && Healthy(Connected(true, 1024), HALFWAY)
    ensures var t := After(Connected(true, 1024), HALFWAY);
            !t.running && |t.accepted| == 2 && t.queue == [Small(4)] && |t.sent| == 11
  {
    hide CanRun, Healthy, After, Step, Enabled, SendStep, Sendable;
    var states := HalfwayPasses();
    PassesIsRun(states, HALFWAY);
  }

  // Request ids

  /** The ids that Push chose, in the order the requests entered the queue. */
  function OwnIds(entries: seq<Entry>): seq<nat> {
    if entries == [] then []
    else (if entries[0].ownId then [entries[0].msg.id] else []) + OwnIds(entries[1..])
  }

  lemma {:induction false} OwnIdsAppend(entries: seq<Entry>, e: Entry)
    ensures OwnIds(entries + [e]) == OwnIds(entries) + if e.ownId then [e.msg.id] else []
  {
    if entries == [] {
      assert entries + [e] == [e];
    } else {
      OwnIdsAppend(entries[1..], e);
      assert (entries + [e])[1..] == entries[1..] + [e];
    }
  }

  /** The k-th id after `start`, as a uint32. */
  function IdAfter(start: nat, k: nat): nat {
    (start + 2 * k) % TWO_32
  }

  /** Every id chosen since `start` is the next one of its parity. */
  ghost predicate Counting(s: Sending, start: nat) {
    && s.nextId == IdAfter(start, |OwnIds(s.accepted)|)
    && forall k | 0 <= k < |OwnIds(s.accepted)| :: OwnIds(s.accepted)[k] == IdAfter(start, k)
  }

  lemma IdAdvances(start: nat, k: nat)
    ensures (IdAfter(start, k) + 2) % TWO_32 == IdAfter(start, k + 1)
  {
  }

  lemma EnqueueCounts(s: Sending, msg: Message, copy: bool, changeId: bool, start: nat)
    requires Counting(s, start) && s.gated > 0
    ensures Counting(EnqueueStep(s, msg, copy, changeId), start)
  {
    hide OwnIds, CopyMessage;
    var m := Pushed(s, msg, copy, changeId);
    OwnIdsAppend(s.accepted, Entry(m, changeId));
    IdAdvances(start, |OwnIds(s.accepted)|);
  }

  lemma StepCounts(s: Sending, e: Event, start: nat)
    requires Counting(s, start) && Enabled(s, e)
    ensures Counting(Step(s, e), start)
  {
    hide OwnIds, IdAfter, SendStep, Pushed, Sendable;
    if e.Enqueue? {
      EnqueueCounts(s, e.msg, e.copy, e.changeId, start);
    } else {
      OnlyEnqueueAccepts(s, e);
    }
  }

  lemma {:induction false} RunCounts(s: Sending, es: seq<Event>, start: nat)
    requires Counting(s, start) && CanRun(s, es)
    ensures Counting(After(s, es), start)
    decreases |es|
  {
    if es != [] {
      StepCounts(s, es[0], start);
      RunCounts(Step(s, es[0]), es[1..], start);
    }
  }

  lemma IdsDiffer(start: nat, i: nat, j: nat)
    requires i < j < i + 0x8000_0000
    ensures IdAfter(start, i) != IdAfter(start, j)
    ensures start < TWO_32 && start + 2 * j < TWO_32 ==> IdAfter(start, i) < IdAfter(start, j)
  {
    var a, d := start + 2 * i, 2 * (j - i);
    assert (a + d) % TWO_32 == if a % TWO_32 + d < TWO_32 then a % TWO_32 + d else a % TWO_32 + d - TWO_32;
  }

  /**
   Over every run of a connection whose parity was set before the first push, the ids that Push chose are every second
   number from the first one of that parity, as uint32; so all have that parity, also across wrap-around, any two less
   than 2^31 pushes apart differ, and they increase until the counter wraps.
   */
  lemma RequestIds(even: bool, state: bool, blockSize: nat, es: seq<Event>)
    requires CanRun(SetEvenRequestIdsPart(Connected(even, blockSize), state), es)
    ensures var s := SetEvenRequestIdsPart(Connected(even, blockSize), state);
            var ids := OwnIds(After(s, es).accepted);
            && s.nextId == (if state then 2 else if even then 3 else 1)
            && (forall k | 0 <= k < |ids| :: ids[k] == (s.nextId + 2 * k) % 0x1_0000_0000)
            && (forall k | 0 <= k < |ids| :: ids[k] < TWO_32 && ids[k] % 2 == if state then 0 else 1)
            && (forall i, j | 0 <= i < j < |ids| && j - i < 0x8000_0000 :: ids[i] != ids[j])
            && (forall i, j | 0 <= i < j < |ids| && s.nextId + 2 * j < TWO_32 :: ids[i] < ids[j])
  {
    var s := SetEvenRequestIdsPart(Connected(even, blockSize), state);
    assert Counting(s, s.nextId);
    RunCounts(s, es, s.nextId);
    var ids := OwnIds(After(s, es).accepted);
    hide After, CanRun, OwnIds;
    forall i, j | 0 <= i < j < |ids| && j - i < 0x8000_0000
      ensures ids[i] != ids[j] && (s.nextId + 2 * j < TWO_32 ==> ids[i] < ids[j])
    {
      IdsDiffer(s.nextId, i, j);
    }
  }
}
