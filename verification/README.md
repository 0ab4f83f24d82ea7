# A verified model of the Socket.IO / Engine.IO implementation

This Dafny project models the core of `engineio` (Engine.IO protocol v4) and
`socketio` (the Socket.IO protocol on top of it), and proves what the two crates
are for: what one side emits is what the other side's handler gets, through both
codecs, every framing, concurrent senders and reassembly; and the tables behind it
(acknowledgements, rooms, clients, polling queue, heartbeat) keep their promises over
every run.

Check it with `dafny verify dfyconfig.toml` (Dafny 4.11).

## How it is organised

| file | what it models |
|---|---|
| `Wrappers`, `Bytes`, `Decimal`, `Utf8` | options and results, byte strings, decimal numbers as Rust prints and parses them, UTF-8 |
| `Base64` | base64 of section 4 of RFC 4648, decoded as the `base64` crate 0.13 does |
| `Json`, `JsonProofs` | JSON values, printing and parsing (RFC 8259) as `serde_json` does them, and their round trip |
| `EnginePacket` | Engine.IO packets and payloads |
| `Transports` | POST bodies and WebSocket frames |
| `Polling`, `PollingQueue` | the body of a long poll; the queue behind it with emits and requests interleaved |
| `SocketPacket` | Socket.IO packets as text |
| `Events`, `Messages` | event names; payloads, placeholders, attachments, dispatch |
| `Reassembly` | Socket.IO packets from a stream of Engine.IO packets |
| `EngineSocket` | the Engine.IO socket and `RawSocket::send` as classes |
| `ServerEnd` | what a server does with the packets of a new connection |
| `EndToEnd` | one message from the emit to the handler |
| `TransportLock` | any number of senders under the transport lock |
| `ConcurrentDelivery` | any number of senders, from the emits to the handlers |
| `AckTable` | acknowledgement ids and the two phases of handling a reply |
| `AckRoundTrip` | registering a callback, the event, the peer's reply and the callback, composed |
| `SessionIds`, `ServerTables` | session ids; rooms, clients and broadcasts of the server |
| `Heartbeat` | the server's ping loop |

Code that works step by step is a class or a method with a loop, proved against a
specification function; the theorems are about those functions and about runs of
state machines built from them. Each lossless stage has its exact domain: the round
trip is proved to hold *if and only if* a condition on the input holds, and the
code's odd cases are kept:

- `EndToEnd.EmitEndToEnd`: an emitted event arrives, alone and unchanged, if and only if
  the channel carries every attachment (POST requests: always; WebSocket: not empty and
  without the byte 0x1e), the payload has at least one part, at most 255 binary parts
  (the count is cast to `u8`) and, if it has any, no JSON part with a `_placeholder`
  field, and the event is not a custom one with a reserved name.
- `EndToEnd.PollEndToEnd`: over a long poll it arrives if and only if, in addition, there is
  no binary part, because `build_polling_payload` encodes such an entry a second time.
- `SocketPacket.CodecRoundTrip`: the packet text drops an id without data, reads `[]` as no
  data, and lets a number after the id run into it.
- `AckTable.RemovalExact`: the removal loop of `handle_ack` uses positions from before the
  first removal, so it is right if and only if there is at most one match. With several
  tasks handling replies, `AckTable.PendingRemovalRight` says exactly when a pending
  removal is right, and `AckTable.TwoPollersRemoveWrong` is a run in which it is not. That
  run is hypothetical: the code starts one polling task for each acknowledgement table.
- `EndToEnd.ConnectionEndToEnd`: at a server the connect handler is called without a payload,
  because the opening packet is taken off the connection before packets are dispatched.
- `ConcurrentDelivery.UpgradedRun`: what is still queued for long polls when the transport is
  replaced reaches the client only if it is handed out.

Where the comments in the code and the code disagree the model follows the code:
the comments on the payload codec call the separator `\x30`, the constant is `\x1e`.

## Model

| member | source | states |
|---|---|---|
| Base64.DecodeEncoded | engineio/src/packet.rs:137-157 | decoding undoes encoding for every byte string |
| Base64.EncodedAlphabet | engineio/src/packet.rs:147-158 | encoded text is ASCII without the packet separator and without a dash |
| Base64.SextetsAreBits | engineio/src/packet.rs:147-158 | the symbols stand for the bits of the bytes, most significant first, in groups of six, the last one filled up with zeros |
| Base64.Alphabet | engineio/src/packet.rs:147-158 | the symbols are the letters, digits, plus and slash of the standard alphabet, in this order |
| Base64.PaddingFormat | engineio/src/packet.rs:147-158 | the text is filled up to a multiple of four with equals signs |
| JsonProofs.RoundTrip | socketio/src/packet.rs:125-130 | parsing undoes printing exactly for values nested less deeply than the parser's limit; numbers are the integers |
| JsonProofs.FirstCharacter | socketio/src/packet.rs:206-225 | the first printed character determines the kind of value; only a non-negative number starts with a digit, none with a slash |
| JsonProofs.PrintedPrintable | socketio/src/packet.rs:125-130 | printed JSON holds no raw control character, so no separator |
| JsonProofs.PrintPlaceholder | socketio/src/socket.rs:59-74 | a placeholder in text is {"_placeholder":true,"num":0} |
| JsonProofs.PrintLayout | socketio/src/packet.rs:125-130 | arrays and objects in text have commas between the elements and a colon after each key, and no space |
| Decimal.ParsePrinted | socketio/src/packet.rs:188-190 | parsing a printed number gives it back exactly if it fits the integer type |
| Events.EventRoundTrip | socketio/src/event.rs:11-38 | an event is recognised by its name again exactly unless it is custom with a reserved name in any capitalisation |
| Events.CaseIgnored | socketio/src/event.rs:11-21 | names that differ only in ASCII case stand for the same built-in event, or both for custom ones |
| Events.BuiltInNames | socketio/src/event.rs:11-38 | the names of the four built-in events, in both directions |
| EnginePacket.PacketRoundTrip | engineio/src/packet.rs:111-158 | a single packet survives encoding and decoding exactly unless it is a text message without data |
| EnginePacket.PartCount | engineio/src/packet.rs:175-189 | a payload has one part more than separators |
| EnginePacket.DecodeJoined | engineio/src/packet.rs:175-189 | joined parts decode to given packets exactly when none holds a separator and each decodes to its packet |
| EnginePacket.PayloadRoundTrip | engineio/src/packet.rs:171-209 | a non-empty packet list survives encoding and decoding exactly when no text data holds the separator and no text message is empty |
| EnginePacket.NormalForm | engineio/src/packet.rs:111-209 | whatever bytes are accepted, in whatever spelling, re-encoding the packets is possible and decodes to the same packets, one more than the separators |
| EnginePacket.WireFormat | engineio/src/packet.rs:29-51 | the first byte of every type of packet, and base64 exactly for binary messages |
| EnginePacket.PayloadFormat | engineio/src/packet.rs:197-209 | packets of a payload are separated by the byte 0x1e |
| EnginePacket.PacketErrors | engineio/src/packet.rs:111-144 | exactly which bytes are no packet, and with which error |
| EnginePacket.RawNumbers | engineio/src/packet.rs:53-68 | a raw type number is read like the digit printed for it |
| EnginePacket.DecodePayload | engineio/src/packet.rs:175-189 | the one-pass loop gives exactly the packets of the parts between separators, or the first error |
| EnginePacket.EncodePayload | engineio/src/packet.rs:197-209 | the append-and-trim loop gives the parts joined by separators, and underflows exactly on the empty payload |
| Transports.FillPollingBody | engineio/src/transports/polling.rs:100-124 | the buffer filled for a request is the data, or b and its base64 |
| Transports.WebsocketReceiver.PollNext | engineio/src/transports/websocket.rs:114-137 | skips control frames and returns the text of the first frame with data, or the byte 4 and its binary data, or the error of the connection, leaving the frames after it |
| Transports.WebsocketReceiver.Packets | engineio/src/socket/socket.rs:255-281 | the packets of the byte strings of a connection, each read as a payload, up to its end or the first error |
| Transports.PacketsComeOut | engineio/src/transports/websocket.rs:100-137 | carriable packets sent as frames, with any control frames in between, come out of the packet stream one each and in order, attachments as messages with the same data, and an error at its place |
| Transports.CarriedExactly | engineio/src/transports/websocket.rs:100-137 | a packet sent by a POST request or WebSocket frame is read as it should arrive exactly if it is carriable: framable on arrival and, as WebSocket text, UTF-8 |
| Transports.WebsocketBinary | engineio/src/transports/websocket.rs:123-130 | a binary frame is read as one message with its data exactly if the data is not empty and holds no separator |
| Transports.LossyBinary | engineio/src/transports/websocket.rs:123-130 | any other binary frame is not read at all, or the first packet read has other data |
| Polling.BuildPollingPayload | engineio/src/packet.rs:241-259 | the loop over the queue gives all contributions with separators between them, nothing if that is empty or an entry is |
| Polling.BodyFormat | engineio/src/packet.rs:241-259 | what each entry adds to the body: base64 of an entry that starts with b, other text as it is, nothing for bad text, with 0x1e in between |
| Polling.LongPollRoundTrip | engineio/src/packet.rs:241-259 | the client reads back the packets queued exactly if all are text packets, framable and UTF-8 |
| Polling.BinaryEntryUnreadable | engineio/src/packet.rs:243-246 | one binary message anywhere in the queue makes the whole body unreadable |
| Polling.Queue.Emit | engineio/src/transports/polling.rs:149-162 | appends the body of the packet to the queue |
| Polling.Queue.PollingGet | engineio/src/server/http.rs:87-108 | takes everything queued, once and in order, leaves the queue empty, and returns the body built from it; no body from a queue that has ended empty |
| PollingQueue.StepConserves | engineio/src/server/http.rs:87-108 | every step of an emit or of a request keeps handed out + in flight + queued equal to the packets emitted |
| PollingQueue.PollingConservation | engineio/src/server/http.rs:87-108 | over every interleaving the client has read exactly the first n packets emitted, once and in order, if and only if those can be polled, and the others are still in flight or queued, within the capacity |
| PollingQueue.GetAlone | engineio/src/server/http.rs:96-104 | an uninterrupted request takes exactly what is queued |
| PollingQueue.EmitQueues | engineio/src/transports/polling.rs:149-162 | an emit waits exactly when the queue is full, and otherwise queues the packet's bytes last |
| SocketPacket.EncodePacket | socketio/src/packet.rs:100-132 | the appending encoder gives type, count, namespace, id and data in that order, each only when present |
| SocketPacket.DecodePacket | socketio/src/packet.rs:151-233 | the peeking decoder computes the staged parse, with its early returns and errors |
| SocketPacket.TextLayout | socketio/src/packet.rs:100-132 | digit of the type, count and dash if binary, namespace and comma if not the default, id, data |
| SocketPacket.TextErrors | socketio/src/packet.rs:151-201 | which texts are no packet up to the namespace, and with which error |
| SocketPacket.BodyErrors | socketio/src/packet.rs:203-231 | after the namespace: nothing but digits leaves the id unset, anything after them must be JSON, an id above 64 bits is unset, and an empty array is no data |
| SocketPacket.CountLimit | socketio/src/packet.rs:166-180 | a count above 255 is read as zero |
| SocketPacket.CodecRoundTrip | socketio/src/packet.rs:96-233 | decoding an encoded packet gives it back without attachments exactly if its namespace is valid, an id comes with data, the data is found again, and a count comes with a binary type |
| SocketPacket.EncodingInjective | socketio/src/packet.rs:96-133 | on that domain equal texts mean equal packets up to attachments |
| SocketPacket.EmptyDataDropped | socketio/src/packet.rs:227-230 | an empty array is read back as no data, the rest of the packet unchanged |
| SocketPacket.DecodedShape | socketio/src/packet.rs:151-233 | whatever is decoded has a valid namespace, no attachments, no empty array, and a count only with a binary type |
| SocketPacket.TextSeparatorFree | socketio/src/packet.rs:100-132 | a packet's text holds the Engine.IO separator only if its namespace does |
| Messages.PayloadEncoder.ProcessBinary | socketio/src/socket.rs:759-763 | the next placeholder number is the index of the attachment pushed |
| Messages.PayloadEncoder.ProcessPayload | socketio/src/socket.rs:744-757 | pushes the numbered elements and the binary parts of the payload onto the two vectors |
| Messages.BuildPacketForPayload | socketio/src/socket.rs:703-742 | the packet built has the type for its attachments, the count modulo 256, and event name and elements as data |
| Messages.PlaceholdersInOrder | socketio/src/socket.rs:744-763 | the i-th part, if binary, becomes the placeholder numbered by the binary parts before it, and that is its index among the attachments |
| Messages.BinaryPacket | socketio/src/socket.rs:703-763 | the packet for a single binary part: one attachment, the data itself, and the placeholder number 0 |
| Messages.JsonPacket | socketio/src/socket.rs:703-757 | the packet for a JSON value: no attachments, and the value after the event's name |
| Messages.DecodeBinary | socketio/src/socket.rs:398-437 | the loop gives the payload of the elements after the event, or fails at a bad placeholder |
| Messages.PartsRoundTrip | socketio/src/socket.rs:398-437 | decoding the elements against the attachments gives the parts back exactly if no JSON part looks like a placeholder |
| Messages.MissingAttachments | socketio/src/socket.rs:418-426 | with attachments missing the whole payload is rejected |
| Messages.WrongAttachment | socketio/src/socket.rs:398-437 | with one attachment changed the payload decoded is another one or none |
| Messages.ElementDecoded | socketio/src/socket.rs:416-430 | an element without placeholder field is itself, one with it the attachment with its number, and anything else is rejected |
| Messages.BadElement | socketio/src/socket.rs:416-430 | one bad placeholder anywhere loses the whole payload |
| Messages.SamePayload | socketio/src/socket.rs:431-436 | a payload is delivered as it is, a list of one part as that part |
| Messages.EventCall | socketio/src/socket.rs:439-501 | the call for an event packet of any peer, by the length of its array |
| Messages.AckCall | socketio/src/socket.rs:467-501 | the reply for an acknowledgement packet of any peer, by the length of its array |
| Messages.BinaryEventCall | socketio/src/socket.rs:362-396 | the call for a binary event of any peer, by the kind of its data |
| Messages.OtherCalls | socketio/src/socket.rs:516-563 | the calls for the other packets, and which packets lead to none |
| Messages.EventDelivered | socketio/src/socket.rs:362-501 | dispatching a received event packet calls the same event with the same payload and id exactly if the payload is deliverable and the event keeps its name |
| Messages.AckDelivered | socketio/src/socket.rs:324-360 | the same for the callback of an acknowledgement |
| Messages.DecodersAgree | socketio/src/socket.rs:398-501 | both payload decoders give the same payload on placeholder-free arrays exactly if there is an element besides the event |
| Reassembly.HandleEnginePacket | socketio/src/socket.rs:783-813 | reads the header and as many messages as it counts; the outcome, and what is left, is that of the receiver's state machine, with a panic exactly if the stream has ended inside the group |
| Reassembly.ReceiveAll | socketio/src/socket.rs:770-780 | the whole stream yields the packets of the state machine, passing over packets that are no messages, and panics exactly if it ends inside a group |
| Reassembly.RunConcat | socketio/src/socket.rs:770-813 | receiving two stretches one after the other is receiving them as one |
| Reassembly.GroupReceived | socketio/src/socket.rs:783-813 | a header with its attachments yields exactly that packet; any proper part of it yields nothing and no error |
| Reassembly.SegmentsReceived | socketio/src/socket.rs:770-813 | any sequence of groups and control packets yields exactly the packets sent, in order, also when a part of one more follows |
| Reassembly.ControlInGroup | socketio/src/socket.rs:801-806 | a packet that is no message in the middle of a group is an error that names its type, and ends the stream |
| EngineSocket.Socket.Emit | engineio/src/socket/socket.rs:175-199 | sends one packet's data if connected and the transport takes it, which is one lock section, otherwise only reports an error |
| EngineSocket.Socket.EmitMulti | engineio/src/socket/socket.rs:146-172 | sends the data of all packets in order with nothing in between, which is the lock section of that group, or up to the first packet the transport does not take |
| EngineSocket.Socket.Send | socketio/src/socket.rs:639-670 | puts the header and all attachments of a packet on the wire as the lock section of one group; refuses without an event if not connected |
| EngineSocket.SendingIsSection | engineio/src/socket/socket.rs:146-199 | handing a group to the transport does to it what the lock section of one sender does, and logs the group |
| EngineSocket.Socket.Connect | engineio/src/socket/socket.rs:73-90 | connects, reports it if there is an event channel, and sends a first pong only at the client's end |
| EngineSocket.Socket.HandleIncomingPacket | engineio/src/socket/socket.rs:97-122 | every packet counts as a sign of life at its time; a ping is answered with its data, a close disconnects once, and its events are reported with an event channel |
| EngineSocket.Socket.HandleStream | engineio/src/socket/socket.rs:284-299 | handling a run of packets reports the events of the run, and leaves the socket connected exactly if no close was among them |
| EngineSocket.RunReports | engineio/src/socket/socket.rs:97-122 | over any run each packet is reported, in order; right after each message, and only there, its data; and the closing once, right after a close packet, exactly if a connected socket meets one |
| EngineSocket.ClosesAtFirst | engineio/src/socket/socket.rs:235-244 | the closing is reported at the first close packet |
| EngineSocket.Socket.GetLastPong | engineio/src/socket/socket.rs:93-95 | after any calls it is the last sign of life the ping loop reckons with |
| EngineSocket.Socket.Disconnect | engineio/src/socket/socket.rs:128-143 | reports and sends a close only if connected, and is disconnected afterwards unless the transport fails |
| EndToEnd.BuiltEncodable | socketio/src/socket.rs:703-742 | every packet built for an event or a non-empty acknowledgement lies in the domain of the codec |
| EndToEnd.EmitEndToEnd | socketio/src/socket.rs:364-813 | over POST requests or a WebSocket an event leads to exactly one call with the same event, id and payload if and only if its attachments are carried, its payload is deliverable and its name survives |
| EndToEnd.AckEndToEnd | socketio/src/socket.rs:326-813 | an acknowledgement reaches its callback with the same payload if and only if it is carried and deliverable |
| EndToEnd.EmittedPayload | socketio/src/socket.rs:364-813 | the handler gets exactly the payload emitted, a list of one part as that part |
| EndToEnd.AcknowledgedPayload | socketio/src/socket.rs:326-813 | the callback gets exactly the payload acknowledged, a list of one part as that part |
| EndToEnd.PollEndToEnd | engineio/src/packet.rs:241-259 | over a long poll an event, or an acknowledgement with a payload, arrives if and only if its payload is deliverable without a binary part and the name survives |
| EndToEnd.PlainReceived | socketio/src/socket.rs:639-670 | a packet without attachments in the codec's domain is received exactly as sent |
| EndToEnd.ConnectionEndToEnd | socketio/src/server/server.rs:246-291 | the opening packet is taken off at the server and calls the connect handler without payload if the namespace has handlers; the handshake's object and the disconnect call the client's connect and close handlers |
| ServerEnd.Server.DoHandleConnect | socketio/src/server/server.rs:246-257 | skips packets up to the first opening one, which is not dispatched, and then handles the rest as the client of its namespace, if that has handlers |
| ServerEnd.Server.Poll | socketio/src/server/server.rs:328-345 | dispatches every packet of the connection, once and in order |
| ServerEnd.OpeningTaken | socketio/src/server/server.rs:246-291 | nothing is handled before the opening packet, then the connect handler is called without a payload, and every packet after it is dispatched |
| TransportLock.StepKeepsAtomic | engineio/src/socket/socket.rs:146-253 | every step of every task keeps each wire a concatenation of the finished groups and the lock holder's beginning |
| TransportLock.LogIsJobs | engineio/src/socket/socket.rs:146-253 | the finished groups and the lock holder's are exactly those the run took the lock for, in that order, on the transport current then |
| TransportLock.GroupAtomicity | engineio/src/socket/socket.rs:146-253 | in every interleaving each transport holds, whole and in order, the groups the run took the lock for while it was current, and then a proper beginning of at most the last one; none spans two transports |
| TransportLock.SectionSends | engineio/src/socket/socket.rs:146-172 | a sender alone appends exactly its group to the current transport |
| TransportLock.UpgradeSection | engineio/src/socket/socket.rs:246-253 | an upgrade on its own makes its transport the current one and changes nothing else |
| TransportLock.LockExcludes | engineio/src/socket/socket.rs:157-195 | while a task holds the lock no other takes it, sends, replaces the transport or releases it |
| TransportLock.WireIsReceived | socketio/src/socket.rs:655-813 | the receiver of a wire to which proper groups are sent meets no error and gets the packets of the complete groups in the order in which the run took the lock |
| ConcurrentDelivery.EverythingDelivered | socketio/src/socket.rs:516-813 | in every interleaving of opening, emits, acknowledgements, pings, disconnects and upgrades, the bytes of each transport are handled at the other end as exactly the messages of its complete groups, in the order of the lock: at a client's socket of any namespace and at a server |
| ConcurrentDelivery.EverythingPolled | engineio/src/server/http.rs:87-108 | in every interleaving of senders, and of their sending with poll requests, the client handles exactly the messages whose packets were handed out, handshake included, once and in the order of the lock |
| ConcurrentDelivery.UpgradedRun | engineio/src/server/server.rs:137-168 | on a server that starts with long polls and upgrades while tasks are sending, what the client handles from both transports together are the messages in the order of the lock, each once, and all complete ones if everything queued was handed out |
| ConcurrentDelivery.ConnectionCarried | socketio/src/socket.rs:105-108 | opening, handshake and disconnect packets are among the messages every transport carries |
| ConcurrentDelivery.MessageDispatched | socketio/src/socket.rs:516-563 | a packet read from a message is dispatched as the same event, acknowledgement or protocol packet, and only in its own namespace |
| ConcurrentDelivery.ExpectedPayload | socketio/src/socket.rs:364-501 | what is expected are the event and the payload sent themselves, a list of one part as that part, in their own namespace only |
| AckTable.AckIdGenerator.Generate | socketio/src/packet.rs:241-246 | gives the next id of the run of a generator whose counter wraps around |
| AckTable.IdsDistinctUntilWrap | socketio/src/packet.rs:241-246 | the ids of the first n calls of the generator are distinct exactly until the counter wraps |
| AckTable.Acks.Register | socketio/src/socket.rs:288-306 | appends an entry with the next id |
| AckTable.Acks.Scan | socketio/src/socket.rs:329-354 | collects exactly the matching positions and runs exactly the callbacks in time |
| AckTable.Acks.RemoveAll | socketio/src/socket.rs:355-357 | removes the positions one after the other, failing if one is out of bounds |
| AckTable.Acks.HandleAck | socketio/src/socket.rs:326-360 | with distinct ids removes the entry of the id and no other, never panics and runs its callback exactly if the reply comes before start plus timeout |
| AckTable.RemovalExact | socketio/src/socket.rs:328-357 | the removal loop removes exactly the matching entries if and only if there is at most one |
| AckTable.OutOfBounds | socketio/src/socket.rs:355-357 | the loop panics as soon as a position is out of bounds of what the removals before it have left |
| AckTable.ReplyRunsCallback | socketio/src/socket.rs:330-349 | a reply to an outstanding id runs its callback with the reply's payload, once, exactly if it comes before start plus timeout |
| AckTable.StepKeepsInv | socketio/src/socket.rs:288-360 | every step of emitters and one polling task keeps ids in one place each, removals ready, calls single and in time, ids on the wire registered |
| AckTable.AckTableSafe | socketio/src/socket.rs:288-360 | over all runs until the wrap: outstanding ids are distinct and issued, nothing panics, callbacks run at most once, not before the start and before start plus timeout, and an id on the wire without a handled reply is in the table |
| AckTable.EmitRuns | socketio/src/socket.rs:285-308 | one emit on its own, from any state: the callback is in the table under the next id, and then that id is on the wire |
| AckTable.TwoPhases | socketio/src/socket.rs:326-360 | with any emitters between scan and removal exactly the entry found is removed, or nothing if none was |
| AckTable.PendingRemovalRight | socketio/src/socket.rs:326-360 | after any run, and whatever other tasks do between a scan and its removal, the entry found is the one removed if and only if nothing was removed at its position or in front of it |
| AckTable.WithoutMeans | socketio/src/socket.rs:355-357 | what is left without an id are exactly the entries with other ids |
| AckTable.TwoPollersRemoveWrong | socketio/src/socket.rs:328-357 | a whole run, hypothetical since the code polls each table from one task, in which two tasks handling replies remove an entry nobody replied to |
| AckRoundTrip.WaitsRun | socketio/src/socket.rs:288-360 | whatever tasks do, an entry stays in the table, and is not about to be removed, until a reply to its id is handled |
| AckRoundTrip.AckRoundTrip | socketio/src/socket.rs:270-360 | a callback registered under an id, the event with that id at the peer, and the peer's reply to it: in any run the handler gets the event's payload and the id, and then exactly this callback runs with exactly the reply's payload, if the reply comes before start plus timeout, its entry and no other goes, and no callback has run twice |
| SessionIds.DecodeGenerated | socketio/src/server/server.rs:314-325 | a generated id decodes to the engine id it was made for exactly if that has no dash |
| SessionIds.EngineSidDecoded | engineio/src/server/server.rs:221-225 | so every id of the engine's generator survives |
| SessionIds.SidTexts | socketio/src/server/server.rs:315-318 | the ids are the base64 of the counter in decimal, and of the engine's id, a dash and the counter |
| SessionIds.NoSid | socketio/src/server/server.rs:320-325 | an id that is not base64 of text, such as one with a dash in it, has no engine id inside |
| SessionIds.EngineSidInjective | engineio/src/server/server.rs:221-225 | engine ids are equal exactly if their counters are |
| SessionIds.SocketSidInjective | socketio/src/server/server.rs:315-318 | socket ids are equal exactly if both the engine ids and the counters are |
| SessionIds.EngineRunDistinct | engineio/src/server/server.rs:221-225 | all engine ids of a run are distinct exactly until the counter wraps |
| SessionIds.SocketRunDistinct | socketio/src/server/server.rs:315-318 | socket ids of a run coincide exactly for the same engine id a whole counter range apart, never before the wrap |
| SessionIds.EngineSidGenerator.Generate | engineio/src/server/server.rs:221-225 | gives the next id of the run |
| SessionIds.SocketSidGenerator.Generate | socketio/src/server/server.rs:315-318 | gives the next id of the run, decodable exactly without a dash |
| ServerTables.Server.Join | socketio/src/server/server.rs:166-193 | adds the id to each named room, creating rooms and namespace as needed |
| ServerTables.Server.Leave | socketio/src/server/server.rs:195-203 | takes the id out of each named room that exists |
| ServerTables.Server.DropClient | socketio/src/server/server.rs:293-306 | closes the engine socket, forgets its clients and filters every room of every namespace |
| ServerTables.Server.SidsToEmit | socketio/src/server/server.rs:120-139 | collects the recipients of the named rooms |
| ServerTables.Server.EmitTo | socketio/src/server/server.rs:46-70 | starts at most one emit per id, and exactly for the recipients that are clients of the namespace |
| ServerTables.Server.GetClient | socketio/src/server/server.rs:161-164 | follows the id through decoding and the three maps |
| ServerTables.Server.ClientInfo | socketio/src/server/server.rs:220-227 | gives some id and namespace of the engine socket's clients, or nothing exactly if it has none |
| ServerTables.Server.InsertClients | socketio/src/server/server.rs:259-291 | starts connect callback, polling and, for a new client, handshake, and files the client under engine id, id and namespace, all only if the namespace has handlers |
| ServerTables.LookupIsScan | socketio/src/server/server.rs:161-164 | on an indexed table the lookup finds exactly what a search over all entries would |
| ServerTables.StepKeepsClients | socketio/src/server/server.rs:205-306 | every server event keeps each entry filed under the engine id its id decodes to |
| ServerTables.ReachableLookup | socketio/src/server/server.rs:161-306 | after every run the lookup agrees with the search and the client found has the id, namespace and engine id asked for |
| ServerTables.ClientHistory | socketio/src/server/server.rs:259-306 | the clients after a run are exactly those that connected and were not dropped since |
| ServerTables.ConnectRuns | socketio/src/server/server.rs:229-291 | from any state a connection leads to a client of the namespace it asks for, exactly if that has handlers |
| ServerTables.ReopenRuns | socketio/src/server/server.rs:205-218 | an engine socket opened again with a client already files it again, and nothing changes |
| ServerTables.JoinMeans | socketio/src/server/server.rs:166-193 | joining makes exactly the named rooms known and adds exactly this membership to them |
| ServerTables.LeaveMeans | socketio/src/server/server.rs:195-203 | leaving removes exactly this membership and keeps all rooms known |
| ServerTables.DropMeans | socketio/src/server/server.rs:299-305 | dropping removes exactly the memberships whose id decodes to the engine id |
| ServerTables.Dropped | socketio/src/server/server.rs:293-306 | right after a drop both tables are free of the engine id, all else is as before, and a second drop changes nothing |
| ServerTables.RoomHistory | socketio/src/server/server.rs:166-306 | after every run an id is in a room exactly if it joined and has not left or been dropped since, and a room is known exactly if it was ever joined |
| ServerTables.RecipientsAre | socketio/src/server/server.rs:120-139 | recipients are the members of the named known rooms and the unknown names themselves, none in an unknown namespace |
| ServerTables.RecipientsUnordered | socketio/src/server/server.rs:120-139 | order and repetition of the room list do not matter |
| ServerTables.BroadcastRecipients | socketio/src/server/server.rs:120-203 | the recipients after every run in terms of joins, leaves and drops alone |
| ServerTables.BroadcastReaches | socketio/src/server/server.rs:46-139 | the clients an emit goes to after every run in terms of connects, joins, leaves and drops alone |
| Heartbeat.PingLoop | engineio/src/server/server.rs:179-199 | ends at the first tick at which the ping fails, the socket is gone or the peer is dead, one ping sent per tick until then |
| Heartbeat.ExitIsDeath | engineio/src/server/server.rs:179-199 | while pings are taken and the socket is there, the loop ends exactly when the peer is found dead |
| Heartbeat.ClosedIffTickInGap | engineio/src/server/server.rs:182-195 | a peer is closed exactly if a tick is timeout plus interval or more after one sign of life and before the next |
| Heartbeat.LivePeerKept | engineio/src/server/server.rs:182-195 | a peer whose packets are always less than timeout plus interval apart is never closed |
| Heartbeat.DeadPeerClosed | engineio/src/server/server.rs:170-199 | a peer silent from t on is closed at a tick from t plus timeout plus interval, and before one interval more |
| Heartbeat.LoopClosesDeadPeer | engineio/src/server/server.rs:170-199 | so the loop, at ticks start plus multiples of the interval, ends for such a peer in that interval |
| Heartbeat.LoopKeepsLivePeer | engineio/src/server/server.rs:170-199 | and never ends for a peer that is never silent for so long |

## Left out

- JsonProofs.RoundTrip: numbers are the integers; fractions and exponents are not part of this model, since the parser's default configuration does not promise to give every floating-point number back.
- JSON parsing, base64 and UTF-8 are modelled after the libraries' documented behaviour (nesting limit 128; optional padding, no stray bits), not after their code.
- Lower-casing of event names is modelled for ASCII letters only, which is all that the four reserved names depend on.
- TCP, HTTP, TLS, WebSocket handshakes, URLs, headers, response chunking and request parsing.
- The probe exchange of a WebSocket upgrade; an upgrade is one step under the transport lock.
- EngineSocket.Socket.Upgrade: replaces the transport to send over; the receive stream that the code replaces with it is not a field of the class.
- TransportLock.GroupAtomicity: every send succeeds; a failing transport is part of the socket class, where a group is then cut short, but not of the interleavings.
- `handle_connect`'s timeout and client reconnection; the drop that a timeout causes is the ordinary drop step.
- The order of open and close events against table inserts: each server event is one atomic step.
- Scheduling, fairness and liveness: a callback runs while the acknowledgement table is locked, and no progress is claimed there.
- Error texts, logging, builders, header maps, and the text of a connect error.
- Namespaces holding the separator byte or a comma, which the code does not reject and cannot carry.
- AckTable.AckTableSafe: says nothing after the id counter has wrapped around, when ids can repeat.
- ServerTables.Server.EmitTo: gives the clients the emits are started for; the emits themselves are those of the other modules.
- Heartbeat.PingLoop: runs for a given number of ticks in idealised time.
- AckTable.TwoPhases: the tasks acting in between are emitters; other tasks handling replies are the subject of AckTable.PendingRemovalRight.
- AckRoundTrip.AckRoundTrip: each of the two messages is sent on its own over POST requests or a WebSocket; other messages in between are the subject of ConcurrentDelivery.
- ConcurrentDelivery.UpgradedRun: the two transports' streams are reassembled separately, which is the same because no group spans both.
- ServerEnd.Server.DoHandleConnect: the timeout on it and a connection opened again for a known engine id are not part of it.
