# Dowow network: wire codec, connection and server table

This project models the core of the Dowow network library and proves properties of it.

**Wire format.** A value is a type byte, a four-byte length and a payload; arrays hold values, so values nest. A datum is
a name and a value, a request an id, a name and a list of datums. `Values`, `ValueDecoding`, `Requests` and `Arguments`
give the bytes, the parsers and the argument map as functions. `ValueHeap` (the Value class hierarchy as objects that are
linked, copied and overwritten in place), `DatumObjects` and `RequestObject` are the classes; each method is proved to do
what the function says.

**Connection.** `Sender` and `Receiver` are the two halves of a connection as state machines, `ConnectionObject` is the
class whose methods make their steps, `Framing` compares reassembly with cutting the whole stream, and `EndToEnd` joins
two connections by a byte stream. The environment chooses how many bytes each socket call moves and which events fire.

**Server.** `ServerTable` is the list of accepted connections and one round of the server thread.

**Text.** The newline replacement used when a string value is printed.

## How the model treats memory and integers

- The host is little-endian, as Value.cpp:40-42 assumes.
- A parser gets the whole buffer, an offset and the length it was told. Where the code reads without a length check, a read
  past the end of the buffer is the outcome `Overrun` (in a connection: `Escaped`), and nothing is said about what follows.
  Sums and differences of uint32 that can wrap are written modulo 2^32.
- `delete` is not modelled: a deleted object is one that no shape mentions any more. Where the code reads an object after
  deleting it, the method requires that this does not happen.
- Sizes on the sending side are unbounded naturals. A pushed request must have a size that a uint32 holds (`Sendable`); to
  be delivered intact its names must also fit the two-byte length fields (`MessageFits`).

## Where the code and its documentation disagree

The model follows the code.

- Request.hpp:58-59 says that setting a null value deletes the argument; Request.cpp:37 and Datum.cpp:49-51 store an
  undefined value instead.
- Request.hpp:167-169 promises 0 on failure; a datum that cannot be parsed only ends the loop (Request.cpp:121-124).
- Connection.cpp:687-690 pushes a dummy request so that the thread calls Send and stops; Push turns it away, because the
  disconnecting flag is already set. `GracefulStopNeedsBacklog` says exactly when Send can still tell the thread to stop.
  The thread also leaves its loop when the peer's timer expires or recv fails (Connection.cpp:119-122 and 88-92).
- Push checks the disconnecting flag and enters the queue under two different locks (Connection.cpp:537-552), so a request
  that was accepted can miss the last Send. `GracefulLoss` says exactly when; `GracefulDelivery` says that otherwise
  everything accepted arrives.
- Connection.cpp:242-246 receives a length prefix always at the first byte of the field. `PrefixReadRight` and
  `LengthReadRight` say exactly when a prefix that arrives in pieces is read right. The framing results are about runs in
  which every prefix is read right, the end-to-end results about runs in which it arrives in one piece.
- Connection.cpp:537-582 does not wait for a response, whatever the timeout.

## Model

| member | source | states |
|---|---|---|
| Bytes.ReadsBack | values/Value64U.cpp:11-31 | for every width: an integer written little-endian is read back unchanged when it fits |
| Bytes.WritesBack | Connection.cpp:258-274 | writing a length that was read gives the bytes it was read from |
| Bytes.ByteAt | Request.cpp:70-76 | byte i of a written integer is its digit i to the base 256, least significant first |
| Bytes.FieldValue | Value.cpp:22-24 | two- and four-byte fields read as numbers |
| Values.IntKind.FromBits | values/Value32S.cpp:11-35 | two's complement for all eight classes: the result is in range and has exactly the given bits |
| Values.IntegerWire | values/Value32S.cpp:23-37 | serialized integers take 13, 9, 7 or 6 bytes by type byte |
| Values.IntegerRanges | values/Value32S.hpp:7-9 | what each of the eight classes can hold, in numbers |
| Values.CreateValue | values/CreateValue.hpp:9-26 | a new object has the requested type if that is known, else type 0 |
| Values.NewValueIsEmpty | values/CreateValue.hpp:9-26 | a new integer is 0, a new string, array or undefined value is empty |
| Values.WireHeader | Value.cpp:33-50 | the envelope byte by byte: type numbers, payload length, payload |
| Values.WirePayload | values/ValueArr.cpp:48-70 | the payloads of all types: raw bytes, two's complement, counted text, counted elements |
| Values.EncodeSize | Value.cpp:33-54 | GetSize is the number of bytes Serialize writes, for every tree |
| Values.CopyIsExact | values/ValueUndefined.cpp:37-42 | a copy equals its source exactly when no undefined value in it holds bytes |
| Values.CopyIsUnique | values/ValueUndefined.cpp:37-42 | a copy is the source with every undefined value emptied and nothing else changed, and nothing else is |
| Values.CopyFits | values/ValueArr.cpp:139-145 | a copy is no larger than its source and stays in range |
| ValueDecoding.DecodeValue | Value.cpp:16-31 | on arbitrary bytes an accepted value used at least 5 bytes, all inside the buffer |
| ValueDecoding.DecodeElems | values/ValueArr.cpp:22-48 | on arbitrary bytes the loop terminates, yields the declared count, and advances at least 5 bytes per element |
| ValueDecoding.RejectedExactly | Value.cpp:16-31 | Deserialize returns 0 exactly when the slice is too short, the type differs, or the declared length does not fit |
| ValueDecoding.AcceptedScalar | values/Value32S.cpp:11-21 | on arbitrary bytes an accepted integer, string or undefined value re-serializes to the bytes used, or the payload was unacceptable and only the envelope counts |
| ValueDecoding.AcceptedArray | values/ValueArr.cpp:10-46 | an array whose elements cannot be parsed is accepted as empty |
| ValueDecoding.TooFewElements | values/ValueArr.cpp:22-46 | a payload with fewer elements than declared is refused, or read past its end at the end of the buffer |
| ValueDecoding.ElemsTile | values/ValueArr.cpp:22-48 | accepted elements tile the payload: each is parsed where the one before ended |
| ValueDecoding.NestedSlicesShrink | values/ValueArr.cpp:22-45 | on arbitrary bytes every nested Deserialize call, the failing one included, gets a slice at least 9 bytes shorter than the array's own, when the header's sum does not wrap; and it wraps exactly when the payload does not lie inside the slice |
| ValueDecoding.ReachedAreCuts | values/ValueArr.cpp:22-45 | for an accepted array the nested calls are made exactly at the starts of its elements |
| ValueDecoding.ValueExtends | Value.cpp:16-31 | a parse that stays in the buffer does not depend on what lies behind it |
| ValueDecoding.ValueRoundTrip | values/ValueArr.cpp:10-79 | every in-range tree, anywhere in a buffer, is parsed back and consumes exactly its GetSize |
| ValueDecoding.ElemsRoundTrip | values/ValueArr.cpp:10-70 | a list of encoded values is parsed back by the element loop |
| ValueDecoding.ValueRoundTripExact | values/ValueUndefined.cpp:10-21 | round trip with trailing bytes, with the exact case in which a reused undefined object breaks it |
| ValueDecoding.SamePlaceSameValue | Value.cpp:16-54 | equal bytes mean equal first value and equal rest |
| ValueDecoding.PrefixFree | Value.cpp:16-54 | an encoding is a prefix of another exactly when the values are equal |
| ValueDecoding.UniqueSplit | values/ValueArr.cpp:48-79 | a concatenation of encoded values determines the list |
| ValueHeap.ValueObject.constructor | values/CreateValue.hpp:9-26 | a new object holds the initial value of its type and has no elements |
| ValueHeap.ValueObject.GetSize | Value.cpp:52-54 | the size of the stored value as a uint32 |
| ValueHeap.ValueObject.SumSizes | values/ValueArr.cpp:72-79 | the running uint32 sum is the true sum modulo 2^32 |
| ValueHeap.ValueObject.Serialize | Value.cpp:33-50 | a fresh buffer that holds exactly the encoding of the stored value |
| ValueHeap.ValueObject.WriteElements | values/ValueArr.cpp:48-70 | the write offsets fill the buffer exactly with count and elements |
| ValueHeap.ValueObject.Deserialize | Value.cpp:16-31 | the object becomes what DecodeValue says, or stays as it was; a string whose payload is refused is left empty, which is not the length that the code leaves |
| ValueHeap.ValueObject.DeserializeInternal | values/ValueStr.cpp:22-46 | the payload parsers of all types: what the object holds after success, and after failure except for a string's leftover length |
| ValueHeap.ValueObject.ReadElements | values/ValueArr.cpp:10-48 | the array holds exactly the parsed elements as new objects, or is empty after a failure |
| ValueHeap.ValueObject.CopyFrom | values/ValueArr.cpp:139-145 | a structurally equal copy made of new objects, the original unchanged, undefined payloads cut to the old length; it reads past the original exactly when an undefined target holds more bytes than the original |
| ValueHeap.ValueObject.New | values/ValueArr.cpp:125-131 | the array has the given number of empty undefined elements |
| ValueHeap.ValueObject.Get | values/ValueArr.cpp:94-98 | the element, or null out of bounds |
| ValueHeap.ValueObject.Set | values/ValueArr.cpp:100-111 | one element replaced by a fresh copy, false and nothing changed out of bounds or for null; an arbitrary other value `root` is still a tree |
| ValueHeap.ValueObject.Push | values/ValueArr.cpp:113-119 | a fresh copy appended, also of the array itself or of a value that encloses it; an arbitrary other value `root` in memory is still a tree |
| ValueHeap.Duplicate | values/ValueArr.cpp:113-116 | CreateValue and CopyFrom build a tree of new objects equal to the copy of the source and sharing nothing with it |
| ValueHeap.RewireHolds | values/ValueArr.cpp:100-119 | when one object gets new elements, every enclosing value is still acyclic and unshared |
| ValueHeap.CopyIsIndependent | values/ValueArr.cpp:113-119 | whatever later happens to the objects of the source, the copy keeps its value; Push, Set and Duplicate promise the disjointness it asks for |
| Requests.DecodeArgs | Request.cpp:116-129 | on arbitrary bytes the loop terminates and the offset stays between start and data_size |
| Requests.DatumLayout | Datum.cpp:96-118 | where both lengths, the name and the value stand in a serialized datum |
| Requests.MessageLayout | Request.cpp:67-88 | where length, id, name and datums stand in a serialized request |
| Requests.DatumRoundTrip | Datum.cpp:54-122 | a datum followed by anything is parsed back, returns its own size, and its value slice ends where the datum ends |
| Requests.MessageWithTail | Request.cpp:90-130 | a request followed by other bytes: the loop goes on behind the request's own length |
| Requests.MessageRoundTripExact | Request.cpp:67-136 | GetSize is the serialized length, and the round trip holds exactly when all names fit two bytes, duplicate names included |
| Requests.MessagesPrefixFree | Request.cpp:67-130 | a serialized request is a prefix of another exactly when they are equal |
| Requests.DatumRejected | Datum.cpp:54-94 | when a datum is rejected by its header, leaves the buffer, or is decided by its value |
| Requests.MessageRejected | Request.cpp:90-114 | a request is rejected exactly for its fixed part, its declared size or its name length; id and name are those of the header |
| Requests.ArgsTile | Request.cpp:116-129 | on arbitrary bytes the accepted datums tile the range, and the loop stops only at the end or at a datum that returns 0 |
| Requests.MessageTiles | Request.cpp:90-130 | the same for a whole request, from 10 + name_length to the returned offset |
| Arguments.SetArgUpdates | Request.cpp:28-61 | Set updates an insertion-ordered map: one argument changes, the others are as they were and in place, a new name goes last |
| Arguments.SetAllLookup | Request.cpp:138-146 | after copying, each name has a copy of its last datum's value |
| Arguments.SetAllOrder | Request.cpp:138-146 | after copying, each name stands once, in order of first appearance |
| Arguments.CopyMessageIsCopy | Request.cpp:138-146 | id, name, order of names and values of a copied request |
| Arguments.CopyMessageExact | Request.cpp:138-146 | a copy equals the original exactly when names are distinct and no undefined value holds bytes |
| Arguments.CopySerializesAlike | Request.cpp:138-146 | a copy serializes to the same bytes under exactly that condition |
| Arguments.CopyMessageFits | Request.cpp:138-146 | a copy of a request that fits the format fits it and is no larger |
| DatumObjects.DatumObject.SetValue | Datum.cpp:34-52 | the datum owns new objects or exactly those handed over, holding the stored value |
| DatumObjects.DatumObject.Deserialize | Datum.cpp:54-94 | the object becomes what DecodeDatum says, or stays as it was |
| DatumObjects.DatumObject.Serialize | Datum.cpp:96-118 | a fresh buffer that holds exactly the encoding |
| DatumObjects.DatumObject.GetSize | Datum.cpp:120-122 | the size as a uint32 |
| RequestObject.Request.Get | Request.cpp:52-61 | the value of the first argument with the name, or null |
| RequestObject.Request.Set | Request.cpp:28-45 | the argument map is updated, id and name stay |
| RequestObject.Request.CopyFrom | Request.cpp:138-146 | id and name are taken over and the datums set one by one on top of what is there |
| RequestObject.Request.GetSize | Request.cpp:132-136 | the uint32 sum of all sizes |
| RequestObject.Request.Serialize | Request.cpp:67-88 | a fresh buffer that holds exactly the encoding |
| RequestObject.Request.Deserialize | Request.cpp:90-130 | the object becomes the parsed request, or stays as it was when rejected |
| Sender.StepKeepsInv | Connection.cpp:345-424 | every step of the sending side keeps conservation, parity and the buffer bounds |
| Sender.SendMoves | Connection.cpp:345-401 | Send moves exactly the next n unsent bytes, asks to stop exactly when disconnecting and nothing is left, and fails exactly when send() does with something to send |
| Sender.OfferedBytes | Connection.cpp:354-365 | a Send offers the rest of the buffer, up to the block size |
| Sender.AcceptedAsPushed | Connection.cpp:537-582 | over every run, accepted request i is what push i was called with: name, id unless a new one is chosen, arguments or their copy |
| Sender.EnqueueAppends | Connection.cpp:551-582 | a push adds one request at the end of the queue, with the next id if it asked for one |
| Sender.DisconnectEffect | Connection.cpp:670-691 | Disconnect writes the stop event or sets the flag and changes nothing else |
| Sender.Conservation | Connection.cpp:31-36 | over every run: sent bytes, buffer tail and queue together are the accepted requests, and HasSomethingToSend is exact |
| Sender.GracefulDrain | Connection.cpp:345-401 | after Disconnect(false): nothing more accepted, each Send shortens the rest, stop exactly when all is sent |
| Sender.DisconnectStartsDrain | Connection.cpp:670-691 | the dummy request is turned away, so disconnecting adds nothing to what is unsent |
| Sender.DrainCompletes | Connection.cpp:345-401 | any backlog can be sent completely, and then the thread is told to stop, pushes between their two locks or not |
| Sender.GracefulStopNeedsBacklog | Connection.cpp:678-691 | after Disconnect(false), Send can tell the thread to stop exactly when there was something to send or a push was between its two locks |
| Sender.GracefulLoss | Connection.cpp:537-579 | after Disconnect(false) an accepted request can be lost exactly when two pushes were between their locks, or one was and there was something to send |
| Sender.StoppedForGood | Connection.cpp:95-100 | once Send has told the thread to stop nothing more is sent, so what is unsent then stays unsent |
| Sender.SendIsOneStep | Connection.cpp:345-401 | what other threads do between the two locks of Send, around its call of send(), has the same outcome as doing it before or after Send |
| Sender.RequestIds | Connection.cpp:499-582 | the chosen ids are every second uint32 from the first of the parity; they differ over any 2^31 pushes and increase until the wrap |
| Receiver.DeliveryPartition | Connection.cpp:302-329 | over every run each decoded request has exactly one log entry, routed by the handlers then in force: dropped if a keep-alive, named handler first, then the default one, else queued; pulled plus queued is what was queued |
| Receiver.StepLogs | Connection.cpp:302-329 | only a recv adds a log entry, at most one, and the handlers it names are those set at that moment |
| Receiver.PullsInOrder | Connection.cpp:592-614 | over every run, what Pull returned followed by the queue is what was queued, in order |
| Receiver.FrameCompletes | Connection.cpp:289-334 | a complete frame that cannot be decoded leaves no trace and the connection stays alive |
| Receiver.SaneStep | Connection.cpp:237-334 | a Receive that does not fail keeps the receive offset within the length |
| Receiver.SaneRun | Connection.cpp:237-334 | over every run, split prefixes included, each recv asks for the rest of the prefix, or for the rest of the body up to the block size |
| Framing.ReassemblyRefinesSplit | Connection.cpp:237-334 | any chunking whose prefixes are read right gives the frames of the stream cut at its length prefixes, the connection holding the rest |
| Framing.ChunkingIsInvisible | Connection.cpp:283-334 | two runs over the same bytes decode the same requests, whatever the pieces |
| Framing.WholePrefixesReadRight | Connection.cpp:239-259 | in every run in which prefixes arrive whole they are all read right |
| Framing.PrefixReadRight | Connection.cpp:239-259 | for every splitting of a prefix, exactly when its length is read right |
| Framing.SplitPrefixMisread | Connection.cpp:239-259 | a length that is not a multiple of 256 is read right exactly if its prefix is in one piece |
| Framing.FedReads | Connection.cpp:239-280 | Receive called once per piece leaves the length that the overwrites leave in memory, and goes by that length |
| Framing.LengthReadRight | Connection.cpp:239-280 | for every prefix and splitting, exactly when Receive reads the length right, and whether the connection then lives, ends or writes outside its buffer |
| EndToEnd.ArrivalIsFine | Connection.cpp:237-343 | Receive never fails on what a sender within the size limit sent |
| EndToEnd.MovesKeepInv | Connection.cpp:237-424 | the joint invariant of both sides and the wire holds over every run |
| EndToEnd.Delivery | Connection.cpp:237-343 | request i decoded is push i of the run: name, arguments or their copy, id unless chosen; all pushes once all bytes moved; all but keep-alives are handed over, and what the Pulls returned plus the queue is what was queued |
| EndToEnd.GracefulDelivery | Connection.cpp:345-401 | outside the cases of GracefulLoss: once Send has told the thread to stop and the wire is empty, the peer has decoded every accepted request |
| EndToEnd.DeliveryCompletes | Connection.cpp:237-401 | from every state whose sending thread still runs, some schedule delivers every accepted request |
| EndToEnd.IdsArriveInOrder | Connection.cpp:562-576 | chosen ids arrive strictly increasing until the counter wraps |
| ConnectionObject.Connection.constructor | Connection.cpp:426-497 | a connected object with empty buffers and queues and the first odd id |
| ConnectionObject.Connection.SetEvenRequestIdsPart | Connection.cpp:499-512 | the parity is set and the counter moved to the next number of it, everything else kept |
| ConnectionObject.Connection.HasSomethingToSend | Connection.cpp:31-36 | true exactly when something is unsent |
| ConnectionObject.Connection.PushGate | Connection.cpp:537-549 | a push passes exactly when connected and not disconnecting |
| ConnectionObject.Connection.PushEnqueue | Connection.cpp:551-582 | one step of the sender: the queue grows at its end by the request as called, copied or renumbered as asked |
| ConnectionObject.Connection.Push | Connection.cpp:537-582 | without interference, the request as called goes to the end of the queue, or on a closing connection nothing changes |
| ConnectionObject.Connection.PopSendQueue | Connection.cpp:403-424 | the oldest request becomes the send buffer |
| ConnectionObject.Connection.Send | Connection.cpp:345-401 | one step of the sender, the result telling whether to go on |
| ConnectionObject.Connection.Disconnect | Connection.cpp:670-698 | one disconnect step of the sender: the stop event or the flag, and no change to the queue |
| ConnectionObject.Connection.PassThroughHandlers | Connection.cpp:190-212 | a handler set for the name gets it, else the default one, else it is not handled; for every name |
| ConnectionObject.Connection.Receive | Connection.cpp:237-343 | one step of the receiver, on arrays filled in place |
| ConnectionObject.Connection.Pull | Connection.cpp:592-614 | the oldest queued request is taken out and returned, or null exactly if there is none |
| ConnectionObject.Connection.SetMaxRequestSize | Connection.cpp:773-778 | the limit is at least 10, everything else kept |
| ConnectionObject.Connection.SetHandlerNamed | Connection.cpp:730-742 | a null handler removes the entry, another one replaces it |
| ConnectionObject.Connection.ThreadPass | Connection.cpp:73-129 | one round of the event loop is a receiver step followed by a sender run; it goes on exactly without a stop event, a failed Receive or Send, and their timer |
| ConnectionObject.PassEnds | Connection.cpp:79-122 | when the loop ends and what is done before: nothing after a stop event, no Send after a failed Receive, a keep-alive only on our timer |
| ConnectionObject.PassIsRun | Connection.cpp:73-129 | every pass without a stop event is a run of the sender's state machine |
| ServerTable.KeepMembers | Server.cpp:93-106 | a round keeps exactly the connections whose slot did not fire |
| ServerTable.KeepAscending | Server.cpp:104-106 | removal keeps the order of the rest |
| ServerTable.RoundLeaves | Server.cpp:80-119 | a round leaves exactly the connections whose slot did not fire, in order, and the next id behind them exactly if a client was accepted |
| ServerTable.RoundKeepsInv | Server.cpp:45-134 | a round keeps ascending ids below the counter and the limit, exactly unless it uses up the counter |
| ServerTable.TableInvariant | Server.cpp:41-134 | the same over every run that leaves the counter room |
| ServerTable.RemoveIsKeep | Server.cpp:93-106 | removing by pointer is keeping by slot |
| ServerTable.Server.HandleEvents | Server.cpp:80-134 | one round on the list and the poll array: an old connection stays exactly if its slot did not fire, an accepted one goes last with the next id, and the thread goes on exactly if a client waited or a slot fired |
| ServerTable.Server.RemoveClosed | Server.cpp:93-106 | exactly the connections of the fired slots 2 + i are removed, in order |
| ServerTable.Server.GetConnection | Server.cpp:345-356 | the one connection with the id, or null exactly if there is none |
| ServerTable.Server.GetTagged | Server.cpp:332-343 | the first connection with the tag, or null exactly if there is none |
| Text.ReplaceNewlines | values/ValueStr.cpp:80-88 | the loop terminates and replaces every newline of the original once, although the inserted text begins with one |
| Text.UnindentIndented | values/ValueStr.cpp:80-88 | removing the indent behind every newline gives the original text back |
| Text.IndentedLength | values/ValueStr.cpp:80-88 | the text grows by the indent once per newline and no newline is added or lost |

## Left out

- ValueHeap.ValueObject.Deserialize: as DeserializeInternal below.
- ValueHeap.ValueObject.DeserializeInternal: a string whose length field does not match is left empty; the code keeps the
  declared length without bytes (values/ValueStr.cpp:29-36).
- ValueHeap.ValueObject.ReadElements: `array.reserve` with a huge declared count may run out of memory; not modelled.
- ValueHeap.ValueObject.Set: requires that val shares nothing with the element it replaces, which the code deletes first.
- ValueHeap.ValueObject.CopyFrom: requires the same type on both sides, which the code's static_cast takes for granted, and
  that target and original share nothing; what happens after reading past the original is not modelled.
- DatumObjects.DatumObject.SetValue: requires that v shares nothing with the old value, which the code deletes first.
- RequestObject.Request.Set: a request keeps its datums as values; the sharing of value objects between a datum and its
  caller is modelled in DatumObjects and ValueHeap only.
- RequestObject.Request.Serialize: for each datum it uses the function that DatumObject.Serialize is proved to compute, not
  a datum object.
- RequestObject.Request.Deserialize: likewise, the function that DatumObject.Deserialize is proved to compute.
- ConnectionObject.Connection.constructor: InitializeByFD on an object that was connected before keeps what is left in its
  send queue and buffers (Connection.cpp:426-497); only a new object is modelled.
- ConnectionObject.Connection.PushEnqueue: a request of 2^32 bytes or more, whose GetSize wraps, is not modelled.
- ConnectionObject.Connection.Push: the same limit.
- ConnectionObject.Connection.Receive: declared lengths below 4 write outside the new buffer; the model stops there.
- ConnectionObject.Connection.Pull: a blocking Pull is a wait followed by this pop; the wait is not modelled.
- ConnectionObject.Connection.PassThroughHandlers: handlers are addresses; what they do is not modelled.
- ServerTable.Server.AcceptNew: the cast of the list's size to int32 is not modelled.
- Sockets, poll, eventfd, timerfd and threads: the environment chooses readiness and byte counts.
- Wall-clock timers: expiries are events that may fire in any pass.
- The locks: Push is two steps, one for each of its locks. Send takes the queue lock twice and calls send() outside it
  (Connection.cpp:347-352, 362, 383-391); it is one step, and SendIsOneStep shows that pushes and disconnections in between
  commute with it. A change of the send block size in between does not change the outcome of a send() already sized.
- The teardown at the end of ConnThreadFunc and of ServerThreadFunc (Connection.cpp:132-187, Server.cpp:136-166).
- Reference counting and `not_needed_event`: a decrease signals at any count, so "open while referenced" does not hold.
- Client connection setup, bind and listen, session data, SafeConnection: thin wrappers.
- ToString methods other than the newline loop, plain getters and setters.
