/**
 The Connection class. Each method is one call of the program; what the socket does is an argument: the number of bytes
 that send took, or the bytes that recv returned. The ghost fields record the history that the state machines of Sender
 and Receiver speak of, and each method makes exactly the step that its state machine makes.
 */
module ConnectionObject {
  import opened Bytes
  import opened Wrappers
  import opened ValueHeap
  import opened Requests
  import opened Arguments
  import opened RequestObject
  import S = Sender
  import R = Receiver

  class Connection {
    var connected: bool
    var isDisconnecting: bool
    var toStop: bool
    var freeRequestId: nat
    var isEvenRequestParts: bool

    var sendBlockSize: nat
    var sendBuffer: array?<byte>
    var sendBufferLength: nat
    var sendBufferOffset: nat
    var sendQueue: seq<Message>

    var recvBlockSize: nat
    var recvBufferMaxLength: nat
    var recvBuffer: array?<byte>
    var recvBufferLength: nat
    var recvBufferOffset: nat
    var recvQueue: seq<Message>
    var isRecvLength: bool

    var handlerDefault: Option<R.Handler>
    var handlersNamed: map<seq<byte>, R.Handler>

    ghost var running: bool
    ghost var gated: nat
    ghost var sent: seq<byte>
    ghost var accepted: seq<S.Entry>
    ghost var consumed: seq<byte>
    ghost var frames: seq<seq<byte>>
    ghost var log: seq<R.Delivery>
    ghost var pulled: seq<Message>

    ghost function Sending(): S.Sending
      reads `connected, `isDisconnecting, `toStop, `running, `gated, `sendQueue, `sendBuffer, `sendBufferOffset
      reads `sendBlockSize, `freeRequestId, `isEvenRequestParts, `sent, `accepted, sendBuffer
    {
      S.Sending(connected, isDisconnecting, toStop, running, gated, sendQueue,
                if sendBuffer == null then None else Some(sendBuffer[..]), sendBufferOffset,
                sendBlockSize, freeRequestId, isEvenRequestParts, sent, accepted)
    }

    ghost function Receiving(): R.Receiving
      reads `isRecvLength, `recvBuffer, `recvBufferLength, `recvBufferOffset, `recvBufferMaxLength, `recvBlockSize
      reads `handlersNamed, `handlerDefault, `recvQueue, `consumed, `frames, `log, `pulled, recvBuffer
    {
      R.Receiving(isRecvLength, recvBufferLength, recvBufferOffset,
                  if recvBuffer == null || recvBufferOffset > recvBuffer.Length then []
                  else recvBuffer[..recvBufferOffset],
                  recvBufferMaxLength, recvBlockSize, handlersNamed, handlerDefault, recvQueue,
                  consumed, frames, log, pulled)
    }

    /** The fields of the sending half fit together. */
    ghost predicate CanSend()
      reads `connected, `isDisconnecting, `toStop, `running, `gated, `sendQueue, `sendBuffer, `sendBufferOffset
      reads `sendBlockSize, `freeRequestId, `isEvenRequestParts, `sent, `accepted, `sendBufferLength, sendBuffer
    {
      (if sendBuffer == null then sendBufferLength == 0 else sendBufferLength == sendBuffer.Length) && S.Inv(Sending())
    }

    /** The fields of the receiving half fit together. */
    ghost predicate CanReceive()
      reads `isRecvLength, `recvBuffer, `recvBufferLength, `recvBufferOffset, `recvBufferMaxLength, `recvBlockSize
      reads `handlersNamed, `handlerDefault, `recvQueue, `consumed, `frames, `log, `pulled, recvBuffer
    {
      && (if isRecvLength then recvBuffer == null else recvBuffer != null && recvBuffer.Length == recvBufferLength)
      && R.Sane(Receiving()) && R.Partitioned(Receiving())
    }

    ghost predicate Valid()
      reads this, sendBuffer, recvBuffer
    {
      CanSend() && CanReceive() && (sendBuffer != null ==> sendBuffer != recvBuffer)
    }

    /** InitializeByFD on a new object. Both kinds of endpoint then call SetEvenRequestIdsPart(true). */
    constructor ()
      ensures Valid() && Sending() == S.Connected(false, 1024)
      ensures Receiving() == R.Listening(R.RECV_BUFFER_MAX_LENGTH, 1024)
      ensures connected && !isDisconnecting && !toStop && freeRequestId == 1
      ensures sendQueue == recvQueue == [] && sendBuffer == recvBuffer == null && isRecvLength
      ensures sendBlockSize == recvBlockSize == 1024 && recvBufferMaxLength == 16384
      ensures handlersNamed == map[] && handlerDefault == None
    {
      connected, isDisconnecting, toStop := true, false, false;
      freeRequestId, isEvenRequestParts := 1, false;
      sendBlockSize, sendBuffer, sendBufferLength, sendBufferOffset, sendQueue := 1024, null, 0, 0, [];
      recvBlockSize, recvBuffer, recvBufferLength, recvBufferOffset, recvQueue := 1024, null, 0, 0, [];
      recvBufferMaxLength, isRecvLength := R.RECV_BUFFER_MAX_LENGTH, true;
      handlerDefault, handlersNamed := None, map[];
      running, gated, sent, accepted := true, 0, [], [];
      consumed, frames, log, pulled := [], [], [], [];
      new;
      assert Sending() == S.Connected(false, 1024);
      assert Receiving() == R.Listening(R.RECV_BUFFER_MAX_LENGTH, 1024);
      S.ConnectedInv(false, 1024);
      R.ListeningIsSane(R.RECV_BUFFER_MAX_LENGTH, 1024);
    }

    method SetEvenRequestIdsPart(state: bool)
      requires CanSend()
      modifies this`freeRequestId, this`isEvenRequestParts
      ensures CanSend() && Sending() == S.SetEvenRequestIdsPart(old(Sending()), state)
      ensures isEvenRequestParts == state
      ensures freeRequestId == if old(freeRequestId) % 2 == (if state then 0 else 1) then old(freeRequestId)
                               else (old(freeRequestId) + 1) % 0x1_0000_0000
    {
      hide S.Inv, S.Unsent, S.EncodeMessages, S.FrameOf, S.Messages, Sendable, CopyMessage;
      S.SetEvenKeepsInv(Sending(), state);
      isEvenRequestParts := state;
      if (state && freeRequestId % 2 == 1) || (!state && freeRequestId % 2 == 0) {
        freeRequestId := (freeRequestId + 1) % TWO_32;
      }
    }

    // Sending

    method HasSomethingToSend() returns (b: bool)
      requires CanSend()
      ensures b == S.HasSomethingToSend(Sending())
      ensures S.AllSendable(sendQueue) && Sending().offset <= S.BufferLength(Sending())
      ensures b <==> S.Unsent(Sending()) != []
    {
      hide S.Inv, S.Unsent, S.EncodeMessages, S.FrameOf, S.Messages, Sendable, CopyMessage;
      S.LoadKeepsInv(Sending());
      S.OffsetInside(Sending());
      b := |sendQueue| != 0 || sendBufferLength != sendBufferOffset;
    }

    /** The first half of Push, under the disconnecting lock: false when the request is turned away. */
    method PushGate() returns (open: bool)
      requires CanSend()
      modifies this`gated
      ensures CanSend() && Sending() == S.GateStep(old(Sending()))
      ensures open == (connected && !isDisconnecting)
    {
      hide S.Inv, S.Unsent, S.EncodeMessages, S.FrameOf, S.Messages, Sendable, CopyMessage;
      S.StepKeepsInv(Sending(), S.Gate);
      open := connected && !isDisconnecting;
      gated := if open then gated + 1 else gated;
    }

    /** The second half of Push, under the queue lock. A request that is not copied gets its new id in place. */
    method PushEnqueue(req: Request, mustCopy: bool, changeRequestId: bool)
      requires CanSend() && gated > 0 && Sendable(req.Contents())
      modifies this`gated, this`sendQueue, this`freeRequestId, this`accepted, req`id
      ensures CanSend()
      ensures Sending() == S.EnqueueStep(old(Sending()), old(req.Contents()), mustCopy, changeRequestId)
      ensures req.id == if changeRequestId && !mustCopy then old(freeRequestId) else old(req.id)
      ensures |sendQueue| == |old(sendQueue)| + 1 && sendQueue[..|old(sendQueue)|] == old(sendQueue)
      ensures var last := sendQueue[|old(sendQueue)|];
              && S.Carries(last, S.Enqueue(old(req.Contents()), mustCopy, changeRequestId))
              && (changeRequestId ==> last.id == old(freeRequestId))
    {
      hide S.Inv, S.Unsent, S.EncodeMessages, S.FrameOf, S.Messages, Sendable;
      hide S.Carries, S.EnqueueStep, S.Pushed, S.Inserted;
      ghost var s, msg := Sending(), req.Contents();
      S.EnqueueKeepsInv(s, msg, mustCopy, changeRequestId);
      S.EnqueueAppends(s, msg, mustCopy, changeRequestId);
      S.EnqueueInserts(s, msg, mustCopy, changeRequestId);
      S.OffsetInside(s);
      var r := Numbered(req, mustCopy, changeRequestId);
      Insert(r.Contents(), changeRequestId);
    }

    /** The request that goes into the queue: the copy if one is wanted, with the new id if one is wanted. */
    method Numbered(req: Request, mustCopy: bool, changeRequestId: bool) returns (r: Request)
      modifies req`id
      ensures r.Contents() == S.Pushed(Sending(), old(req.Contents()), mustCopy, changeRequestId)
      ensures req.id == if changeRequestId && !mustCopy then freeRequestId else old(req.id)
    {
      hide CopyMessage;
      r := Prepared(req, mustCopy);
      if changeRequestId {
        r.id := freeRequestId;
      }
    }

    /** send_queue.push, after free_request_id was advanced if the request took it. */
    method Insert(m: Message, tookId: bool)
      requires CanSend() && gated > 0 && S.Inv(S.Inserted(Sending(), m, tookId))
      modifies this`gated, this`sendQueue, this`freeRequestId, this`accepted
      ensures CanSend() && Sending() == S.Inserted(old(Sending()), m, tookId)
    {
      hide S.Inv, S.Unsent, S.EncodeMessages, S.FrameOf, S.Messages, Sendable, CopyMessage;
      if tookId {
        freeRequestId := (freeRequestId + 2) % TWO_32;
      }
      sendQueue := sendQueue + [m];
      gated, accepted := gated - 1, accepted + [S.Entry(m, tookId)];
    }

    method Prepared(req: Request, mustCopy: bool) returns (r: Request)
      ensures r.Contents() == if mustCopy then CopyMessage(req.Contents()) else req.Contents()
      ensures if mustCopy then fresh(r) else r == req
    {
      r := req;
      if mustCopy {
        r := new Request([]);
        r.CopyFrom(req);
      }
    }

    method Push(req: Request, mustCopy: bool, changeRequestId: bool)
      requires CanSend() && Sendable(req.Contents())
      modifies this`gated, this`sendQueue, this`freeRequestId, this`accepted, req`id
      ensures CanSend()
      ensures Sending() == S.PushStep(old(Sending()), old(req.Contents()), mustCopy, changeRequestId)
      ensures !connected || isDisconnecting ==> Sending() == old(Sending())
      ensures connected && !isDisconnecting ==>
                && |sendQueue| == |old(sendQueue)| + 1 && sendQueue[..|old(sendQueue)|] == old(sendQueue)
                && var last := sendQueue[|old(sendQueue)|];
                   && S.Carries(last, S.Enqueue(old(req.Contents()), mustCopy, changeRequestId))
                   && (changeRequestId ==> last.id == old(freeRequestId))
    {
      hide S.Inv, S.Unsent, S.EncodeMessages, S.FrameOf, S.Messages, Sendable, CopyMessage;
      var open := PushGate();
      if open {
        PushEnqueue(req, mustCopy, changeRequestId);
      }
    }

    method DeleteSendBuffer()
      modifies this`sendBuffer, this`sendBufferLength, this`sendBufferOffset
      ensures sendBuffer == null && sendBufferLength == 0 && sendBufferOffset == 0
    {
      sendBuffer, sendBufferLength, sendBufferOffset := null, 0, 0;
    }

    /** The queue holds requests as values; this is the object that the program finds there. */
    method Dequeued(m: Message) returns (req: Request)
      ensures fresh(req) && req.Contents() == m
    {
      req := new Request(m.name);
      req.id, req.arguments := m.id, m.args;
    }

    method PopSendQueue() returns (popped: bool)
      requires CanSend() && sendBuffer == null
      modifies this`sendQueue, this`sendBuffer, this`sendBufferLength, this`sendBufferOffset
      ensures CanSend() && Sending() == S.Pop(old(Sending())) && popped == (old(sendQueue) != [])
      ensures popped ==> fresh(sendBuffer)
    {
      hide Sendable, EncodeMessage, S.EncodeMessages, S.Messages, S.FrameOf, S.Inv;
      S.LoadKeepsInv(Sending());
      S.OffsetInside(Sending());
      if |sendQueue| == 0 { return false; }
      S.FrontFrame(Sending());
      var req := Dequeued(sendQueue[0]);
      sendQueue := sendQueue[1..];
      FillSendBuffer(req);
      popped := true;
    }

    /** The rest of PopSendQueue: the send buffer holds the serialized request. */
    method FillSendBuffer(req: Request)
      requires Sendable(req.Contents())
      modifies this`sendBuffer, this`sendBufferLength, this`sendBufferOffset
      ensures sendBuffer != null && fresh(sendBuffer) && sendBuffer[..] == EncodeMessage(req.Contents())
      ensures sendBufferLength == sendBuffer.Length && sendBufferOffset == 0
    {
      hide EncodeMessage;
      EncodeMessageSize(req.Contents());
      sendBuffer := req.Serialize();
      sendBufferLength := req.GetSize();
      sendBufferOffset := 0;
    }

    /** Send, the socket's send returning sendRes. False tells the background thread to stop. */
    method Send(sendRes: int) returns (ok: bool)
      requires CanSend() && S.Enabled(Sending(), S.Send(sendRes))
      modifies this`sendQueue, this`sendBuffer, this`sendBufferLength, this`sendBufferOffset, this`running, this`sent
      ensures CanSend()
      ensures Sending() == S.SendStep(old(Sending()), sendRes).0
      ensures ok == (S.SendStep(old(Sending()), sendRes).1 == S.Going)
      ensures sendBuffer == null || sendBuffer == old(sendBuffer) || fresh(sendBuffer)
    {
      hide S.Inv, S.Unsent, S.EncodeMessages, S.FrameOf, S.Messages, Sendable, CopyMessage;
      S.SendKeepsInv(Sending(), sendRes);
      if sendBuffer == null && |sendQueue| > 0 {
        var popped := PopSendQueue();
      }
      assert Sending() == S.Load(old(Sending()));
      ok := Transfer(sendRes);
    }

    /** The part of Send behind the queue lock. */
    method Transfer(sendRes: int) returns (ok: bool)
      requires CanSend() && (sendBuffer == null ==> sendQueue == [])
      requires sendBuffer != null ==> sendRes <= sendBufferLength - sendBufferOffset
      requires sendBuffer == null ==> sendRes <= 0
      requires S.Inv(S.SendLoaded(Sending(), sendRes).0)
      modifies this`sendBuffer, this`sendBufferLength, this`sendBufferOffset, this`running, this`sent
      ensures CanSend() && (sendBuffer == null || sendBuffer == old(sendBuffer))
      ensures Sending() == S.SendLoaded(old(Sending()), sendRes).0
      ensures ok == (S.SendLoaded(old(Sending()), sendRes).1 == S.Going)
    {
      hide S.Inv, S.Unsent, S.EncodeMessages, S.FrameOf, S.Messages, Sendable, CopyMessage;
      S.OffsetInside(Sending());
      ok := true;
      if sendBuffer != null {
        if sendRes <= 0 {
          running := false;
          ok := false;
        } else {
          ok := Advance(sendRes);
        }
      }
    }

    method Advance(sendRes: nat) returns (ok: bool)
      requires CanSend() && sendBuffer != null && 0 < sendRes <= sendBufferLength - sendBufferOffset
      requires S.Inv(S.SendLoaded(Sending(), sendRes).0)
      modifies this`sendBuffer, this`sendBufferLength, this`sendBufferOffset, this`running, this`sent
      ensures CanSend() && (sendBuffer == null || sendBuffer == old(sendBuffer))
      ensures Sending() == S.SendLoaded(old(Sending()), sendRes).0
      ensures ok == (S.SendLoaded(old(Sending()), sendRes).1 == S.Going)
    {
      hide S.Inv, S.Unsent, S.EncodeMessages, S.FrameOf, S.Messages, Sendable, CopyMessage;
      S.OffsetInside(Sending());
      ok := true;
      CountSent(sendRes);
      if sendBufferOffset == sendBufferLength {
        DeleteSendBuffer();
        if isDisconnecting && |sendQueue| == 0 && sendBufferLength == sendBufferOffset {
          running := false;
          ok := false;
        }
      }
    }

    /** The bytes that the socket took, and the new offset. */
    method CountSent(sendRes: nat)
      requires sendBuffer != null && sendBufferOffset + sendRes <= sendBuffer.Length
      modifies this`sendBufferOffset, this`sent
      ensures Sending() == S.Moved(old(Sending()), sendRes)
    {
      sent := sent + sendBuffer[sendBufferOffset..sendBufferOffset + sendRes];
      sendBufferOffset := sendBufferOffset + sendRes;
    }

    method Disconnect(forced: bool)
      requires CanSend()
      modifies this`toStop, this`isDisconnecting, this`gated, this`sendQueue, this`freeRequestId, this`accepted
      ensures CanSend() && Sending() == S.DisconnectStep(old(Sending()), forced)
      ensures toStop == (old(toStop) || (connected && forced))
      ensures isDisconnecting == (old(isDisconnecting) || (connected && !forced))
      ensures sendQueue == old(sendQueue) && accepted == old(accepted) && freeRequestId == old(freeRequestId)
    {
      hide S.Inv, S.Unsent, S.EncodeMessages, S.FrameOf, S.Messages, Sendable, CopyMessage;
      S.StepKeepsInv(Sending(), S.Disconnect(forced));
      if !connected { return; }
      if forced {
        toStop := true;
      } else if !isDisconnecting {
        isDisconnecting := true;
        var dummy := new Request(R.KEEP_ALIVE);
        KeepAliveIsSendable();
        Push(dummy, false, false);
      }
    }

    method SetSendBlockSize(size: nat)
      requires CanSend()
      modifies this`sendBlockSize
      ensures CanSend() && Sending() == S.Step(old(Sending()), S.SetSendBlockSize(size))
      ensures sendBlockSize == if size == 0 then 1 else size
    {
      hide S.Inv, S.Unsent, S.EncodeMessages, S.FrameOf, S.Messages, Sendable, CopyMessage;
      S.StepKeepsInv(Sending(), S.SetSendBlockSize(size));
      sendBlockSize := if size < 1 then 1 else size;
    }

    // Receiving

    method DeleteRecvBuffer()
      modifies `recvBuffer, `recvBufferLength, `recvBufferOffset, `isRecvLength
      ensures recvBuffer == null && recvBufferLength == 0 && recvBufferOffset == 0 && isRecvLength
    {
      recvBuffer, recvBufferLength, recvBufferOffset, isRecvLength := null, 0, 0, true;
    }

    /** PassThroughHandlers: the named handler, else the default one; false when there is neither. */
    method PassThroughHandlers(req: Request) returns (handled: bool)
      modifies `log
      ensures handled <==> req.name in handlersNamed || handlerDefault.Some?
      ensures !handled ==> log == old(log)
      ensures handled ==>
                && log == old(log) + [R.Logged(Receiving(), req.Contents(), R.HandlerRoute(Receiving(), req.name))]
                && var last := log[|old(log)|];
                   && last.msg == req.Contents()
                   && last.handlers == handlersNamed && last.fallback == handlerDefault
                   && (req.name in handlersNamed ==> last.route == R.Named(handlersNamed[req.name]))
                   && (req.name !in handlersNamed ==> last.route == R.Default(handlerDefault.value))
    {
      handled := true;
      if req.name in handlersNamed {
        log := log + [R.Delivery(req.Contents(), R.Named(handlersNamed[req.name]), handlersNamed, handlerDefault)];
      } else if handlerDefault.Some? {
        log := log + [R.Delivery(req.Contents(), R.Default(handlerDefault.value), handlersNamed, handlerDefault)];
      } else {
        handled := false;
      }
    }

    /** Receive, the socket's recv returning chunk. False ends the connection; escaped is an access outside a buffer. */
    method Receive(chunk: seq<byte>) returns (ok: bool, escaped: bool)
      requires CanReceive() && |chunk| <= R.Wanted(Receiving())
      modifies `recvBuffer, `recvBufferLength, `recvBufferOffset, `isRecvLength, `recvQueue
      modifies `consumed, `frames, `log, recvBuffer
      ensures Receiving() == R.ReceiveStep(old(Receiving()), chunk).0
      ensures ok == (R.ReceiveStep(old(Receiving()), chunk).1 == R.Alive)
      ensures escaped == (R.ReceiveStep(old(Receiving()), chunk).1 == R.Escaped)
      ensures ok ==> CanReceive()
      ensures chunk == [] ==> !ok && !escaped && Receiving() == old(Receiving())
      ensures recvBuffer == null || recvBuffer == old(recvBuffer) || fresh(recvBuffer)
    {
      hide R.Partitioned, R.Sane, R.Overlay, DecodeMessage;
      R.SaneFields(Receiving());
      ok, escaped := false, false;
      if chunk == [] { return; }
      ghost var s := Receiving();
      consumed := consumed + chunk;
      if isRecvLength {
        ok, escaped := ReceivePrefix(chunk);
      } else {
        ok, escaped := ReceiveBody(chunk);
      }
      if ok {
        R.SaneStep(s, chunk);
        R.StepPartitions(s, R.Recv(chunk));
        R.SaneFields(Receiving());
      }
    }

    method ReceivePrefix(chunk: seq<byte>) returns (ok: bool, escaped: bool)
      requires isRecvLength && recvBuffer == null && recvBufferOffset + |chunk| <= 4
      modifies `recvBuffer, `recvBufferLength, `recvBufferOffset, `isRecvLength
      ensures Receiving() == R.PrefixStep(old(Receiving()), chunk).0
      ensures ok == (R.PrefixStep(old(Receiving()), chunk).1 == R.Alive)
      ensures escaped == (R.PrefixStep(old(Receiving()), chunk).1 == R.Escaped)
      ensures ok ==> if isRecvLength then recvBuffer == null
                     else recvBuffer != null && fresh(recvBuffer) && recvBuffer.Length == recvBufferLength
      ensures !ok ==> recvBuffer == null
    {
      hide R.Overlay, LE;
      ok, escaped := true, false;
      recvBufferLength := R.Overlay(recvBufferLength, chunk);
      recvBufferOffset := recvBufferOffset + |chunk|;
      if recvBufferOffset == 4 {
        if recvBufferLength > recvBufferMaxLength { return false, false; }
        if recvBufferLength < 4 { return false, true; }
        var buffer := new byte[recvBufferLength];
        CopyInto(buffer, 0, LE(recvBufferLength, 4));
        recvBuffer, isRecvLength := buffer, false;
      }
    }

    method ReceiveBody(chunk: seq<byte>) returns (ok: bool, escaped: bool)
      requires !isRecvLength && recvBuffer != null && recvBuffer.Length == recvBufferLength < TWO_32
      requires recvBufferOffset + |chunk| <= recvBufferLength
      modifies `recvBuffer, `recvBufferLength, `recvBufferOffset, `isRecvLength, `recvQueue, `frames, `log, recvBuffer
      ensures Receiving() == R.BodyStep(old(Receiving()), chunk).0
      ensures ok == (R.BodyStep(old(Receiving()), chunk).1 == R.Alive)
      ensures escaped == (R.BodyStep(old(Receiving()), chunk).1 == R.Escaped)
      ensures if isRecvLength then recvBuffer == null
              else recvBuffer == old(recvBuffer) && recvBufferLength == old(recvBufferLength)
    {
      hide DecodeMessage;
      ok, escaped := true, false;
      CopyInto(recvBuffer, recvBufferOffset, chunk);
      recvBufferOffset := recvBufferOffset + |chunk|;
      assert Receiving() == R.Filled(old(Receiving()), chunk);
      if recvBufferOffset == recvBufferLength {
        assert recvBuffer[..] == recvBuffer[..recvBufferOffset];
        ok, escaped := Complete();
      }
    }

    /** A complete frame: decode it, hand it over, delete the buffer. */
    method Complete() returns (ok: bool, escaped: bool)
      requires !isRecvLength && recvBuffer != null && recvBufferOffset == recvBufferLength == recvBuffer.Length < TWO_32
      modifies `recvBuffer, `recvBufferLength, `recvBufferOffset, `isRecvLength, `recvQueue, `frames, `log
      ensures Receiving() == R.CompleteStep(old(Receiving())).0
      ensures ok == (R.CompleteStep(old(Receiving())).1 == R.Alive)
      ensures escaped == (R.CompleteStep(old(Receiving())).1 == R.Escaped)
      ensures if ok then isRecvLength && recvBuffer == null
              else !isRecvLength && recvBuffer == old(recvBuffer) && recvBufferLength == old(recvBufferLength)
    {
      hide DecodeMessage;
      var bytes := recvBuffer[..];
      assert Receiving().filled == bytes;
      var req := new Request([]);
      var used, overrun := req.Deserialize(bytes);
      if overrun { return false, true; }
      ok, escaped := true, false;
      frames := frames + [bytes];
      if used > 0 {
        HandOver(req);
      }
      DeleteRecvBuffer();
    }

    /** Keep-alives are dropped; other requests go to a handler or into the queue. */
    method HandOver(req: Request)
      modifies `recvQueue, `log
      ensures Receiving() == R.Deliver(old(Receiving()), req.Contents())
      ensures recvQueue == if req.name == [0x5F] || req.name in handlersNamed || handlerDefault.Some?
                           then old(recvQueue) else old(recvQueue) + [req.Contents()]
    {
      if req.name == R.KEEP_ALIVE {
        log := log + [R.Delivery(req.Contents(), R.KeepAlive, handlersNamed, handlerDefault)];
      } else {
        var handled := PassThroughHandlers(req);
        if !handled {
          recvQueue := recvQueue + [req.Contents()];
          log := log + [R.Delivery(req.Contents(), R.Queued, handlersNamed, handlerDefault)];
        }
      }
    }

    /** Pull(0): the oldest queued request, or null. */
    method Pull() returns (req: Option<Message>)
      requires CanReceive()
      modifies `recvQueue, `pulled
      ensures CanReceive() && (Receiving(), req) == R.PullStep(old(Receiving()))
      ensures req.Some? ==> old(recvQueue) == [req.value] + recvQueue && pulled == old(pulled) + [req.value]
      ensures req.None? <==> old(recvQueue) == []
      ensures req.None? ==> recvQueue == [] && pulled == old(pulled)
    {
      hide R.Partitioned, R.Sane;
      R.StepPartitions(Receiving(), R.Pull);
      R.PullKeepsSane(Receiving());
      if |recvQueue| == 0 { return None; }
      req := Some(recvQueue[0]);
      pulled, recvQueue := pulled + [recvQueue[0]], recvQueue[1..];
    }

    method SetMaxRequestSize(size: nat)
      requires CanReceive() && size < TWO_32
      modifies `recvBufferMaxLength
      ensures CanReceive() && Receiving() == old(Receiving()).(maxLength := R.MaxRequestSize(size))
      ensures recvBufferMaxLength >= 10 && recvBufferMaxLength >= size && recvBufferMaxLength in {10, size}
    {
      hide R.Partitioned, R.Sane;
      R.LimitKeepsInvariants(Receiving(), R.MaxRequestSize(size));
      recvBufferMaxLength := if size < 10 then 10 else size;
    }

    method SetRecvBlockSize(size: nat)
      requires CanReceive()
      modifies `recvBlockSize
      ensures CanReceive() && Receiving() == R.Step(old(Receiving()), R.SetRecvBlockSize(size))
      ensures recvBlockSize == if size == 0 then 1 else size
    {
      hide R.Partitioned, R.Sane;
      R.StepPartitions(Receiving(), R.SetRecvBlockSize(size));
      R.SettersKeepSane(Receiving(), R.SetRecvBlockSize(size));
      recvBlockSize := if size < 1 then 1 else size;
    }

    method SetHandlerDefault(h: Option<R.Handler>)
      requires CanReceive()
      modifies `handlerDefault
      ensures CanReceive() && Receiving() == R.Step(old(Receiving()), R.SetHandlerDefault(h))
      ensures handlerDefault == h
    {
      hide R.Partitioned, R.Sane;
      R.StepPartitions(Receiving(), R.SetHandlerDefault(h));
      R.SettersKeepSane(Receiving(), R.SetHandlerDefault(h));
      handlerDefault := h;
    }

    /** A null handler deletes the entry. */
    method SetHandlerNamed(name: seq<byte>, h: Option<R.Handler>)
      requires CanReceive()
      modifies `handlersNamed
      ensures CanReceive() && Receiving() == R.Step(old(Receiving()), R.SetHandlerNamed(name, h))
      ensures (name in handlersNamed <==> h.Some?) && (h.Some? ==> handlersNamed[name] == h.value)
      ensures forall other | other != name ::
                && (other in handlersNamed <==> other in old(handlersNamed))
                && (other in handlersNamed ==> handlersNamed[other] == old(handlersNamed)[other])
    {
      hide R.Partitioned, R.Sane;
      R.StepPartitions(Receiving(), R.SetHandlerNamed(name, h));
      R.SettersKeepSane(Receiving(), R.SetHandlerNamed(name, h));
      match h
      case None => if name in handlersNamed { handlersNamed := handlersNamed - {name}; }
      case Some(handler) => handlersNamed := handlersNamed[name := handler];
    }

    /**
     One round of ConnThreadFunc; `ev` says which of the polled events fired. Input was polled for by the
     disconnecting flag at the top of the loop. The lock is released during poll, so Disconnect may have come since,
     and then the thread still receives. False: the thread leaves its loop.
     */
    method ThreadPass(ev: Fired, chunk: seq<byte>, sendRes: int) returns (goOn: bool)
      requires Valid()
      requires ev.input ==> |chunk| <= R.Wanted(Receiving())
      requires ev.output ==> S.HasSomethingToSend(Sending()) && S.Enabled(Sending(), S.Send(sendRes))
      modifies this, recvBuffer
      ensures Receiving() == PassReceives(old(Receiving()), ev, chunk).0
      ensures (Sending(), goOn) ==
              PassSends(old(Sending()), ev, PassReceives(old(Receiving()), ev, chunk).1, sendRes)
      ensures CanSend() && (goOn ==> Valid())
      ensures goOn <==>
              && !ev.stop && !ev.theirTimer
              && StillReceives(old(Receiving()), ev, chunk) && StillSends(old(Sending()), ev, sendRes)
      ensures ev.stop || !ev.input ==> Receiving() == old(Receiving())
      ensures ev.stop ==> Sending() == old(Sending()).(stopAsked := false)
    {
      hide S.Inv, R.Partitioned, R.Sane, S.Enabled, PassReceives, PassSends, S.HasSomethingToSend;
      hide R.ReceiveStep, R.Wanted, S.SendStep, StillReceives, StillSends;
      PassGoesOn(Receiving(), Sending(), ev, chunk, sendRes);
      StoppedPass(Sending(), ev, sendRes);
      var alive := ReceivingPass(ev, chunk);
      if ev.stop {
        TakeStop(Sending());
        toStop := false;
        return false;
      }
      if !alive { return false; }
      goOn := SendingPass(ev, sendRes);
    }

    /** The part of a round that is about the socket's input. */
    method ReceivingPass(ev: Fired, chunk: seq<byte>) returns (alive: bool)
      requires Valid() && (ev.input ==> |chunk| <= R.Wanted(Receiving()))
      modifies `recvBuffer, `recvBufferLength, `recvBufferOffset, `isRecvLength, `recvQueue
      modifies `consumed, `frames, `log, recvBuffer
      ensures Sending() == old(Sending()) && CanSend() && (alive ==> Valid())
      ensures (Receiving(), alive) == PassReceives(old(Receiving()), ev, chunk)
      ensures ev.stop ==> alive
    {
      hide S.Inv, R.Partitioned, R.Sane, R.ReceiveStep;
      alive := true;
      if !ev.stop && ev.input {
        var escaped;
        alive, escaped := Receive(chunk);
      }
    }

    /** The part of a round that is about sending, and the timers. */
    method SendingPass(ev: Fired, sendRes: int) returns (goOn: bool)
      requires Valid() && !ev.stop && (ev.output ==> S.Enabled(Sending(), S.Send(sendRes)))
      modifies `sendQueue, `sendBuffer, `sendBufferLength, `sendBufferOffset, `running, `sent
      modifies `gated, `freeRequestId, `accepted
      ensures Valid() && Receiving() == old(Receiving())
      ensures (Sending(), goOn) == PassSends(old(Sending()), ev, true, sendRes)
    {
      hide S.Inv, R.Partitioned, R.Sane, S.SendStep, S.PushStep, S.Enabled, Sendable;
      if ev.output {
        var ok := SendOutput(sendRes);
        if !ok { return false; }
      }
      if ev.ourTimer {
        PushKeepAlive();
      }
      goOn := !ev.theirTimer;
    }

    method SendOutput(sendRes: int) returns (ok: bool)
      requires Valid() && S.Enabled(Sending(), S.Send(sendRes))
      modifies `sendQueue, `sendBuffer, `sendBufferLength, `sendBufferOffset, `running, `sent
      ensures Valid() && Receiving() == old(Receiving())
      ensures Sending() == S.SendStep(old(Sending()), sendRes).0
      ensures ok == (S.SendStep(old(Sending()), sendRes).1 == S.Going)
    {
      hide S.Inv, R.Partitioned, R.Sane, S.SendStep, S.Enabled;
      ok := Send(sendRes);
    }

    method PushKeepAlive()
      requires Valid()
      modifies `gated, `sendQueue, `freeRequestId, `accepted
      ensures Valid() && Receiving() == old(Receiving())
      ensures Sending() == S.PushStep(old(Sending()), KeepAlive(), false, false)
    {
      hide S.Inv, R.Partitioned, R.Sane, S.PushStep, Sendable;
      var keepAlive := new Request(R.KEEP_ALIVE);
      KeepAliveIsSendable();
      Push(keepAlive, false, false);
    }
  }

  /** Request("_"). */
  function KeepAlive(): Message {
    Message(0, R.KEEP_ALIVE, [])
  }

  lemma KeepAliveIsSendable()
    ensures Sendable(KeepAlive())
  {
  }

  /** Which of the polled events fired: stop, socket input, socket output, our timer, their timer. */
  datatype Fired = Fired(stop: bool, input: bool, output: bool, ourTimer: bool, theirTimer: bool)

  /** What a pass does to the receiving half, and whether the pass goes on to send. */
  function PassReceives(r: R.Receiving, ev: Fired, chunk: seq<byte>): (R.Receiving, bool)
    requires R.Sane(r) && (ev.input ==> |chunk| <= R.Wanted(r))
  {
    if ev.stop || !ev.input then (r, true)
    else
      var (t, result) := R.ReceiveStep(r, chunk);
      (t, result == R.Alive)
  }

  /** What a pass does to the sending half, and whether the loop goes on. */
  function PassSends(s: S.Sending, ev: Fired, alive: bool, n: int): (S.Sending, bool)
    requires ev.output ==> S.Enabled(s, S.Send(n))
  {
    if ev.stop then (s.(stopAsked := false), false)
    else if !alive then (s, false)
    else
      var (t, result) := if ev.output then S.SendStep(s, n) else (s, S.Going);
      if result != S.Going then (t, false)
      else (if ev.ourTimer then S.PushStep(t, KeepAlive(), false, false) else t, !ev.theirTimer)
  }

  /** If there was input, Receive returned true. */
  predicate StillReceives(r: R.Receiving, ev: Fired, chunk: seq<byte>)
    requires R.Sane(r) && (ev.input ==> |chunk| <= R.Wanted(r))
  {
    ev.input ==> R.ReceiveStep(r, chunk).1 == R.Alive
  }

  /** If there was room for output, Send returned true. */
  predicate StillSends(s: S.Sending, ev: Fired, n: int)
    requires ev.output ==> S.Enabled(s, S.Send(n))
  {
    ev.output ==> S.SendStep(s, n).1 == S.Going
  }

  lemma StoppedPass(s: S.Sending, ev: Fired, n: int)
    requires ev.output ==> S.Enabled(s, S.Send(n))
    ensures ev.stop ==> PassSends(s, ev, true, n) == (s.(stopAsked := false), false)
    ensures !ev.stop ==> PassSends(s, ev, false, n) == (s, false)
  {
  }

  lemma TakeStop(s: S.Sending)
    requires S.Inv(s)
    ensures S.Inv(s.(stopAsked := false))
  {
    hide S.EncodeMessages, S.FrameOf, S.Messages, Sendable;
    assert S.Unsent(s.(stopAsked := false)) == S.Unsent(s);
  }

  /**
   When the loop ends: on the stop event, when Receive or Send says so, or on their timer. What fired before that is
   done first: after a stop event neither half moves, after a failed Receive nothing is sent, and a keep-alive is
   pushed only if our timer fired, nothing failed before, and the connection takes pushes.
   */
  lemma PassEnds(r: R.Receiving, s: S.Sending, ev: Fired, chunk: seq<byte>, n: int)
    requires R.Sane(r) && (ev.input ==> |chunk| <= R.Wanted(r))
    requires S.Inv(s) && (ev.output ==> S.Enabled(s, S.Send(n)))
    ensures var (r', alive) := PassReceives(r, ev, chunk);
            var (s', goOn) := PassSends(s, ev, alive, n);
            var received, sent := StillReceives(r, ev, chunk), StillSends(s, ev, n);
            && (goOn <==> !ev.stop && received && sent && !ev.theirTimer)
            && (ev.stop ==> s' == s.(stopAsked := false)) && (ev.stop || !ev.input ==> r' == r)
            && (!ev.stop && ev.input ==> r' == R.ReceiveStep(r, chunk).0)
            && (!ev.stop && !received ==> s' == s)
            && s'.accepted == s.accepted + (if !ev.stop && received && sent && ev.ourTimer
                                               && s.connected && !s.disconnecting
                                            then [S.Entry(Message(0, [0x5F], []), false)] else [])
            && (!ev.output || !received || ev.stop ==> s'.sent == s.sent && s'.running == s.running)
            && (!ev.stop && received && ev.output ==> s'.sent == S.SendStep(s, n).0.sent)
  {
    hide S.SendStep, R.ReceiveStep, S.Inv, S.Enabled;
    assert s.accepted + [] == s.accepted;
    if ev.output {
      S.SendMoves(s, n);
      S.SendKeeps(s, n);
    }
  }

  /** The part of PassEnds about the loop. */
  lemma PassGoesOn(r: R.Receiving, s: S.Sending, ev: Fired, chunk: seq<byte>, n: int)
    requires R.Sane(r) && (ev.input ==> |chunk| <= R.Wanted(r))
    requires S.Inv(s) && (ev.output ==> S.Enabled(s, S.Send(n)))
    ensures PassSends(s, ev, PassReceives(r, ev, chunk).1, n).1 <==>
            && !ev.stop && !ev.theirTimer
            && StillReceives(r, ev, chunk) && StillSends(s, ev, n)
    ensures ev.stop || !ev.input ==> PassReceives(r, ev, chunk).0 == r
    ensures ev.stop ==> PassSends(s, ev, PassReceives(r, ev, chunk).1, n).0 == s.(stopAsked := false)
  {
    PassEnds(r, s, ev, chunk, n);
  }

  /** The steps of the state machine that a pass makes. */
  function PassEvents(s: S.Sending, ev: Fired, alive: bool, n: int): seq<S.Event>
    requires ev.output ==> S.Enabled(s, S.Send(n))
  {
    if ev.stop || !alive then []
    else
      var (t, result) := if ev.output then S.SendStep(s, n) else (s, S.Going);
      (if ev.output then [S.Send(n)] else []) +
      if result != S.Going || !ev.ourTimer then []
      else if t.connected && !t.disconnecting then [S.Gate, S.Enqueue(KeepAlive(), false, false)]
      else [S.Gate]
  }

  lemma PushIsRun(s: S.Sending)
    ensures var es := if s.connected && !s.disconnecting then [S.Gate, S.Enqueue(KeepAlive(), false, false)]
                      else [S.Gate];
            S.CanRun(s, es) && S.After(s, es) == S.PushStep(s, KeepAlive(), false, false)
  {
    hide Sendable, S.Inserted, S.CanRun, S.After;
    KeepAliveIsSendable();
    var push := S.Enqueue(KeepAlive(), false, false);
    if s.connected && !s.disconnecting {
      var t := S.Step(s, S.Gate);
      RunOnePush(t, push);
      S.RunFirst(s, S.Gate, [push]);
      assert [S.Gate] + [push] == [S.Gate, push];
    } else {
      S.RunOne(s, S.Gate);
    }
  }

  lemma RunOnePush(t: S.Sending, push: S.Event)
    requires push == S.Enqueue(KeepAlive(), false, false) && t.gated > 0
    ensures S.CanRun(t, [push]) && S.After(t, [push]) == S.EnqueueStep(t, KeepAlive(), false, false)
  {
    KeepAliveIsSendable();
    S.RunOne(t, push);
  }

  /**
   Every pass that does not take a stop event is a run of the sending state machine, so what holds over its runs holds
   for the loop.
   */
  lemma PassIsRun(s: S.Sending, ev: Fired, alive: bool, n: int)
    requires !ev.stop && (ev.output ==> S.Enabled(s, S.Send(n)))
    ensures S.CanRun(s, PassEvents(s, ev, alive, n))
    ensures S.After(s, PassEvents(s, ev, alive, n)) == PassSends(s, ev, alive, n).0
  {
    hide S.SendStep, S.PushStep, S.CanRun, S.After;
    NothingRuns(s);
    if alive {
      var (t, result) := if ev.output then S.SendStep(s, n) else (s, S.Going);
      PushIsRun(t);
      NothingRuns(t);
      var later := if result != S.Going || !ev.ourTimer then []
                   else if t.connected && !t.disconnecting then [S.Gate, S.Enqueue(KeepAlive(), false, false)]
                   else [S.Gate];
      if ev.output {
        S.RunFirst(s, S.Send(n), later);
      } else {
        assert [] + later == later;
      }
    }
  }

  lemma NothingRuns(s: S.Sending)
    ensures S.CanRun(s, []) && S.After(s, []) == s
  {
  }
}
