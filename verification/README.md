# cppplumberd in Dafny

cppplumberd is a CQRS messaging library: a client sends commands to a server in protobuf frames, the
server answers each one, and events go out to local subscriptions and over published channels. This
project models the path that a command or an event takes and proves what arrives at its end.

- `wire.dfy`, `utf8.dfy`, `codec.dfy`: varints, string checking, and the table-driven protobuf codec.
- `writer.dfy`, `cqrs.dfy`: serialization into byte arrays, and the four generated messages as classes.
- `registry.dfy`, `dispatcher.dfy`: the serializer's two maps, the handler table, and server set-up.
- `frame.dfy`: the frame buffer, two 32-bit size words in front of header and payload.
- `server.dfy`, `client.dfy`: the request/response protocol, step by step and as a whole.
- `events.dfy`, `store.dfy`, `runs.dfy`, `subscriber.dfy`: publishing, the event store, all its runs,
  and the streams at the receiving end.
- `plumber.dfy`: remote subscription. `monitor.dfy`, `replay.dfy`: the example server's properties,
  and its event log as a mirror of its state. `remote.dfy`: all of it together, from a client's setter
  to a subscriber's view. `example.dfy`: the example's own set-up as an instance.

Objects that the source updates in place are classes here, and each of their methods is tied to a
function on values; the main results are lemmas about these functions over all inputs or all runs.
A handler is any deterministic function of the calls before it, and the calls made are logged, so
"exactly once" is a statement about the log. A thrown exception is a result value. Message types are
pairs of a name and a field table; payloads are encoded and parsed by the same codec as the headers.
`hide` statements keep definitions that a proof does not need out of the verifier's way, and automatic
induction is off throughout: an inductive lemma calls itself.

Where the code and its documentation or evident intent differ, the code is followed:

- A payload whose fields all hold their defaults encodes to nothing, and the reader refuses it
  (include/cppplumberd/proto_frame_buffer.hpp:155-158). Such a command stops the server.
- `TypedFaultException` does not override `Get` (include/cppplumberd/fault_exception.hpp:20, 31-64), so
  typed faults never arrive as faults, and a typed reply is sent without `response_type`, although
  cqrs.proto describes that field.
- The typed `RegisterHandler` has no instance: `_outBuffer->Write(rsp, &response)` selects the overload
  that takes its payload by value, with a pointer for the payload, and that does not compile
  (include/cppplumberd/proto_req_rsp_srv_handler.hpp:102, proto_frame_buffer.hpp:35, 54). What the model
  says about typed handlers and typed replies describes the evident intent, the overload for pointers.
- A fault's text is read through `what()`, a C string, so it ends at its first zero byte.
- A handler's exception other than a fault, or a response that cannot be written (a text that is too
  long, say), stops the server, and the client waits for a reply that does not come.
- The length check adds the sizes in 32 bits, so sizes that add up to 2^32 or more can pass it while
  a part lies outside the received bytes (include/cppplumberd/proto_frame_buffer.hpp:142-149).
- Adding a property under the name of a monitored one leaves the new one without a slot, and no command
  ever gives it one, because the monitor goes by names (examples/app/server.cpp:115-120, 205-212).
- A property may have a name that is not UTF-8. Its changes are published, and no subscriber can read them.

## Model

| member | source | states |
|---|---|---|
| `Client.RemoteCallRefinesDirectCall` | include/cppplumberd/proto_req_rsp_client_handler.hpp:173-208 | a deliverable command runs its handler exactly once with the recipient and command that were sent, and the caller sees what a direct call would show if and only if the outcome is a normal return, an untyped fault outside [200, 300) whose message is UTF-8 without zero bytes and fits, or a reply that encodes to nothing; any other exception is lost, the server stops and no reply comes |
| `Client.DeliveryExactly` | include/cppplumberd/proto_req_rsp_client_handler.hpp:183-208 | for a connected command that fits: the handler runs once on exactly what was sent if the strings are UTF-8 and the encoding is not empty; otherwise no handler runs and the call goes unanswered |
| `Client.CommandsRunOnceInOrder` | include/cppplumberd/proto_req_rsp_srv_handler.hpp:27-57 | over a whole run of deliverable commands the handler calls are the commands sent, in order, each once; all of them while the server is up, an initial segment if an outcome stopped it |
| `Client.RemoteRunRefinesDirectRun` | include/cppplumberd/proto_req_rsp_client_handler.hpp:173-208 | over a whole run of deliverable commands, up to any point the callers have seen just what direct calls would have shown them if and only if every handler outcome up to there was faithful |
| `Client.ReplyIsFaithfulExactly` | include/cppplumberd/proto_req_rsp_srv_handler.hpp:36-56 | for every handler outcome, the client's reading of the server's response equals what a direct call shows exactly for the outcomes the wire can carry; a thrown exception other than a fault is not one of them |
| `Client.UntypedFaultEnds` | include/cppplumberd/proto_req_rsp_client_handler.hpp:47-107 | an untyped fault with any UTF-8 text without zero bytes that fits is raised with its text and code if the code is below 200 or at least 300, and otherwise taken for a normal return, in calls without and with a result |
| `Client.ReturnEnds` | include/cppplumberd/proto_req_rsp_client_handler.hpp:70-127 | a returning handler ends a call without a result normally, and one with a result with the default of its type |
| `Client.VoidCallEndsExactly` | include/cppplumberd/proto_req_rsp_client_handler.hpp:47-78 | how a call without a result ends, each way exactly: no reply just when the server gave none, normally just on a status in [200, 300) without payload, a plain or typed fault on any other status by the factory for the detail type, and another exception for an unsent command, an unreadable response or an unexpected payload |
| `Client.TypedCallEndsExactly` | include/cppplumberd/proto_req_rsp_client_handler.hpp:80-129 | a call with a result returns v exactly if the response has a status in [200, 300) and v is its payload, of the type asked for, or the default of that type when there is none; a payload of another type throws, and everything that is not a success ends as without a result |
| `Client.UnsendableFails` | include/cppplumberd/proto_req_rsp_client_handler.hpp:183-208 | a command of an unregistered type, or too large for its frame, throws at the caller of either kind and never reaches the server, whatever state that is in |
| `Client.RequestFrameBytes` | include/cppplumberd/proto_req_rsp_client_handler.hpp:195-202 | the request in bytes: tag 8 and the type's id, tag 18 and the recipient, and the command behind its size words |
| `Client.StoppedMeansNoReply` | include/cppplumberd/proto_req_rsp_srv_handler.hpp:52-56 | a command sent to a server that has stopped, or that stops it, gets no reply in calls of either kind, and a stopped server's log stays as it is |
| `Client.UnhandledIsUnanswered` | include/cppplumberd/message_dispatcher.hpp:52-66 | a command whose id has no handler on the server, or another type there than the handler's, runs nothing and gets no reply |
| `Client.SetUpConnects` | include/cppplumberd/proto_req_rsp_srv_handler.hpp:106-133 | with one type per id on the server, one id for the type and the client's registration under it, client and server are connected, so the call theorems apply |
| `Client.TypedFaultNeverArrives` | include/cppplumberd/fault_exception.hpp:31-64 | a fault with a detail type id is never raised as any kind of fault at the client: its frame names a payload that is not there, since Get is not overridden |
| `Client.TypedReplyOnlyIfDefault` | include/cppplumberd/proto_req_rsp_srv_handler.hpp:89-105 | of the evident intent of typed handlers: a typed call returns the handler's reply exactly when the reply is the default message of the requested type, because the reply travels without its type |
| `Client.FaultDetailsAreRaised` | include/cppplumberd/proto_req_rsp_client_handler.hpp:51-69 | a response with a status outside [200, 300) that carries details of a registered type raises the typed fault with its message, code and details if the factory is for that type, another exception if it is for another type, and a plain fault if there is none |
| `Client.VoidAndTypedAgreeOnFailure` | include/cppplumberd/proto_req_rsp_client_handler.hpp:47-129 | for every response frame the two ways of processing, each with its own look-up and throw, agree unless the status is in [200, 300); there the one ends normally just without a payload, and the other with the payload of its type or the default |
| `Server.ServesExactly` | include/cppplumberd/proto_req_rsp_srv_handler.hpp:27-57 | over all requests: exactly one handler runs, with the recipient and payload in the frame, if the header names a registered and handled id and the payload has the handler's type, and the answer is that to its outcome; every other request stops the server and reaches no handler |
| `Server.KthReplyAnswersKthRequest` | include/cppplumberd/nng/nng_req_rsp_server_socket.hpp:32-54 | in every session the k-th reply is the reply to the k-th request in the handler state left by the earlier ones, the sessions' replies only grow, and the first request without a reply ends it |
| `Server.StoppedForGood` | include/cppplumberd/proto_req_rsp_srv_handler.hpp:52-56 | after a request that stops the server, later requests get no reply and reach no handler |
| `Server.ProtoReqRspSrvHandler.HandleRequest` | include/cppplumberd/proto_req_rsp_srv_handler.hpp:27-57 | the response left in the reused output buffer and the handler log are functions of the request's bytes, the tables and the earlier log; stale bytes in either buffer never matter |
| `Server.ProtoReqRspSrvHandler.Respond` | include/cppplumberd/proto_req_rsp_srv_handler.hpp:43-51 | writing a response into the reset, uncleared output buffer leaves exactly its frame in front, or stops the server when it does not fit |
| `Server.ProtoReqRspSrvHandler.Turn` | include/cppplumberd/nng/nng_req_rsp_server_socket.hpp:34-42 | receive, handle, send: the reply is that of the request alone, and the loop ends exactly when there is none |
| `Server.ProtoReqRspSrvHandler.ReceiveLoop` | include/cppplumberd/nng/nng_req_rsp_server_socket.hpp:32-54 | the replies, the handler log and whether the server is up are those of the whole session specification |
| `Server.ProtoReqRspSrvHandler.RegisterHandler` | include/cppplumberd/proto_req_rsp_srv_handler.hpp:106-133 | message and handler are registered together, and no handler is stored when the message cannot be registered |
| `Server.ProtoReqRspSrvHandler.RegisterTypedHandler` | include/cppplumberd/proto_req_rsp_srv_handler.hpp:89-105 | the evident intent: request and response type are registered in this order, and the handler is stored only if neither is refused; a refused response leaves the request registered |
| `Server.ProtoReqRspSrvHandler.RegisterError` | include/cppplumberd/proto_req_rsp_srv_handler.hpp:135-138 | only the serializer learns the error type |
| `Server.ProtoReqRspSrvHandler.OnStart` | include/cppplumberd/proto_req_rsp_srv_handler.hpp:60-71 | a running server keeps its buffers; otherwise two distinct fresh 64 KiB buffers are in place, with nothing assumed about their bytes |
| `Server.ProtoReqRspSrvHandler.Start` | include/cppplumberd/proto_req_rsp_srv_handler.hpp:142-151 | a first start makes the server ready and sets its loop going; a second one keeps its buffers and does not revive a loop that has ended |
| `Server.VoidReplyBytes` | include/cppplumberd/proto_req_rsp_srv_handler.hpp:113-116 | a returning void handler is answered with exactly eleven bytes, status 200 and no payload |
| `Server.TypedReplyBytes` | include/cppplumberd/proto_req_rsp_srv_handler.hpp:99-103 | a typed reply in bytes, of the evident intent: the success header and the message, if it fits |
| `Server.FaultReplyBytes` | include/cppplumberd/proto_req_rsp_srv_handler.hpp:43-51 | a fault in bytes: tags 8, 18 and 24 with code, text up to its first zero byte and detail type, and no payload, if it fits; otherwise the server stops |
| `Server.OtherExceptionStops` | include/cppplumberd/proto_req_rsp_srv_handler.hpp:52-56 | any other exception stops the server |
| `Server.CStr` | include/cppplumberd/fault_exception.hpp:14-16 | the fault text read as a C string: the longest prefix without a zero byte |
| `Client.ProtoReqRspClientHandler.OnSend` | include/cppplumberd/proto_req_rsp_client_handler.hpp:183-208 | the exchange with a server object, its log and whether it is still up are those of the call specification; a server that an earlier request stopped answers nobody and runs no handler; on an answer the output buffer holds exactly the response frame |
| `Client.ProtoReqRspClientHandler.Send` | include/cppplumberd/proto_req_rsp_client_handler.hpp:173-181 | the caller's outcome, the server's handler log and whether it is still up are those of the call specification for commands without a result, also after the server stopped |
| `Client.ProtoReqRspClientHandler.SendEach` | include/cppplumberd/proto_req_rsp_client_handler.hpp:173-208 | a client object that sends any sequence of commands to a server object leaves exactly the log, the liveness and the outcomes of the whole-run specification, so the theorems about runs hold of the objects |
| `Client.ProtoReqRspClientHandler.Transmit` | include/cppplumberd/nng/nng_req_rsp_server_socket.hpp:32-54 | the transport serves a frame while the receive loop is at work, and afterwards nothing |
| `Client.ProtoReqRspClientHandler.SendForReply` | include/cppplumberd/proto_req_rsp_client_handler.hpp:211-218 | the same for commands with a result type |
| `Client.ProtoReqRspClientHandler.ProcessResponse` | include/cppplumberd/proto_req_rsp_client_handler.hpp:47-78 | the outcome depends only on the received bytes, the client's ids and its exception factories |
| `Client.ProtoReqRspClientHandler.ProcessTypedResponse` | include/cppplumberd/proto_req_rsp_client_handler.hpp:80-129 | the same for a typed result |
| `Client.ProtoReqRspClientHandler.RegisterError` | include/cppplumberd/proto_req_rsp_client_handler.hpp:157-172 | no exception factory is stored for an error type that cannot be registered |
| `Codec.ParseUndoesEncode` | include/cppplumberd/proto/cqrs.pb.cc:325-416 | over every record of every field table, parsing a serialization gives the record back exactly when all its strings can be read, and fails otherwise |
| `Codec.ParseOfConcatIsMerge` | include/cppplumberd/proto/cqrs.pb.cc:449-464 | parsing any two serialized messages one after the other is MergeImpl of the second into the first, and fails exactly when a string of either cannot be read |
| `Codec.UnknownFieldLeavesNoTrace` | include/cppplumberd/proto/cqrs.pb.cc:325-350 | an unknown field of any wire type, however spelled and whatever its content, is passed over whole and leaves no trace in the message |
| `Codec.UnknownFieldIsSkipped` | include/cppplumberd/proto/cqrs.pb.cc:325-350 | a field that the table does not have, or has under another wire type, is skipped with its exact size, eight or four bytes for the fixed ones |
| `Codec.KnownFieldIsRead` | include/cppplumberd/proto/cqrs.pb.cc:325-350 | a known field however spelled takes on the low bits of its number, or its content; text that is not UTF-8 is refused |
| `Codec.OnlyFieldsAreRead` | include/cppplumberd/proto/cqrs.pb.cc:325-350 | nothing is accepted but a tag of at most five bytes with a nonzero number, a length within the limit, and content of one of the four wire types |
| `Codec.FieldsAreParsedExactly` | include/cppplumberd/proto/cqrs.pb.cc:325-350 | a sequence of well spelled fields is parsed exactly if each text field of the table in it is UTF-8 |
| `Codec.OnlyFieldsAreParsed` | include/cppplumberd/proto/cqrs.pb.cc:325-350 | whatever parses is such a sequence of fields |
| `Codec.ParseOfLarger` | include/cppplumberd/proto/cqrs.pb.cc:325-350 | forward compatibility: a reader with a smaller table gets the projection of every record that a writer with a larger one wrote, exactly unless a string that it reads is unreadable or one that it skips is too long |
| `Codec.ConcatIsMergeExactly` | include/cppplumberd/proto/cqrs.pb.cc:738-756 | for input from any writer, concatenation parses to the merge exactly when no field spelled out as its default by the second part is set by the first |
| `Codec.SpelledOutDefaultOverwrites` | include/cppplumberd/proto/cqrs.pb.cc:440-443 | the input on which concatenation and merge differ: an explicit zero resets the field, which the serializers never write |
| `Codec.LastOneWins` | include/cppplumberd/proto/cqrs.pb.cc:593-640 | what a message is parsed onto decides neither whether parsing succeeds nor any field the input holds; the other fields stay as they were |
| `Codec.ParseConcat` | include/cppplumberd/proto/cqrs.pb.cc:593-640 | parsing is an action of concatenation: s followed by t is parsed as t on top of what s gave |
| `Codec.EmptyEncodingIsDefault` | include/cppplumberd/proto/cqrs.pb.cc:394-407 | a message serializes to nothing exactly when every field holds its default |
| `Codec.ReadFieldUndoes` | include/cppplumberd/proto/cqrs.pb.cc:342-349 | one tagged field is read back as itself, whatever follows it, unless its string is unreadable |
| `Codec.ParseAsUndoesBytes` | include/cppplumberd/message_serializer.hpp:100-112 | ParseFromArray into a new message of the same type yields the message exactly when it is sendable |
| `Codec.BytesIsInjective` | include/cppplumberd/proto/cqrs.pb.cc:379-416 | no two sendable messages of a type share an encoding |
| `Wire.ReadVarintUndoesVarint` | include/cppplumberd/proto/cqrs.pb.cc:394-399 | a varint is read back with its exact size, whatever follows |
| `Wire.VarintIsShortest` | include/cppplumberd/proto/cqrs.pb.cc:394-399 | a written varint carries its number in groups of seven bits, least significant first, with the top bit set in all bytes but the last, and spells out no leading zero group |
| `Wire.ReadVarintOfAny` | include/cppplumberd/proto/cqrs.pb.cc:394-399 | a reader takes any varint within its limit, shortest or not, for the number it carries, and refuses a longer one |
| `Wire.ReadVarintTakesOnlyVarints` | include/cppplumberd/proto/cqrs.pb.cc:394-399 | and it takes nothing else |
| `Wire.VarintFits` | include/cppplumberd/proto/cqrs.pb.cc:422-447 | a varint takes at most k bytes exactly when its value is below 128 to the k |
| `Wire.UnLe32UndoesLe32` | include/cppplumberd/proto_frame_buffer.hpp:46-48 | a size word is read back as the number that was stored |
| `Utf8.ValidUtf8IsEncodedText` | include/cppplumberd/proto/cqrs.pb.cc:403-405 | the string check accepts exactly the UTF-8 encodings of sequences of Unicode scalar values |
| `Cqrs.EventHeaderIsSmall` | include/cppplumberd/proto/cqrs.pb.cc:1189-1214 | an event header takes at most 17 bytes |
| `Cqrs.CommandHeaderLayout` | include/cppplumberd/proto/cqrs.pb.cc:379-416 | every command header on the wire: tag 8 and a varint unless the type is zero, then tag 18, a length and the bytes unless the recipient is empty |
| `Cqrs.CommandResponseLayout` | include/cppplumberd/proto/cqrs.pb.cc:656-700 | every response on the wire: tags 8, 18 and 24, in this order, each left out for a default |
| `Cqrs.SignedFieldOnWire` | include/cppplumberd/proto/cqrs.pb.cc:394-399 | a negative int32 is written as the 64-bit number with its low bits |
| `Cqrs.CreateStreamLayout` | include/cppplumberd/proto/cqrs.pb.cc:924-954 | every CreateStream on the wire: tag 10, a length and the name, or nothing |
| `Cqrs.EventHeaderLayout` | include/cppplumberd/proto/cqrs.pb.cc:1147-1183 | every event header on the wire: tags 8 and 16, each left out for zero |
| `Cqrs.CommandHeader.InternalSerialize` | include/cppplumberd/proto/cqrs.pb.cc:379-416 | writes exactly the table-driven encoding into the array at the target position and nothing outside it |
| `Cqrs.CommandHeader.ByteSizeLong` | include/cppplumberd/proto/cqrs.pb.cc:422-447 | the size computed field by field is the number of bytes that serialization emits |
| `Cqrs.CommandHeader.MergeImpl` | include/cppplumberd/proto/cqrs.pb.cc:449-464 | the new state is the field-wise merge that parsing a concatenation performs |
| `Cqrs.CommandHeader.CopyFrom` | include/cppplumberd/proto/cqrs.pb.cc:466-471 | the target becomes equal to the source, also when copied onto itself |
| `Cqrs.CommandHeader.Clear` | include/cppplumberd/proto/cqrs.pb.cc:367-377 | every field holds its default |
| `Cqrs.CommandResponse.InternalSerialize` | include/cppplumberd/proto/cqrs.pb.cc:656-700 | writes exactly the table-driven encoding into the array at the target position and nothing outside it |
| `Cqrs.CommandResponse.ByteSizeLong` | include/cppplumberd/proto/cqrs.pb.cc:706-736 | the size computed field by field is the number of bytes that serialization emits |
| `Cqrs.CommandResponse.MergeImpl` | include/cppplumberd/proto/cqrs.pb.cc:738-756 | the new state is the field-wise merge that parsing a concatenation performs |
| `Cqrs.CommandResponse.CopyFrom` | include/cppplumberd/proto/cqrs.pb.cc:758-763 | the target becomes equal to the source, also when copied onto itself |
| `Cqrs.CommandResponse.Clear` | include/cppplumberd/proto/cqrs.pb.cc:642-654 | every field holds its default |
| `Cqrs.CreateStream.InternalSerialize` | include/cppplumberd/proto/cqrs.pb.cc:924-954 | writes exactly the table-driven encoding into the array at the target position and nothing outside it |
| `Cqrs.CreateStream.ByteSizeLong` | include/cppplumberd/proto/cqrs.pb.cc:960-979 | the size computed field by field is the number of bytes that serialization emits |
| `Cqrs.CreateStream.MergeImpl` | include/cppplumberd/proto/cqrs.pb.cc:981-993 | the new state is the field-wise merge that parsing a concatenation performs |
| `Cqrs.CreateStream.CopyFrom` | include/cppplumberd/proto/cqrs.pb.cc:995-1000 | the target becomes equal to the source, also when copied onto itself |
| `Cqrs.CreateStream.Clear` | include/cppplumberd/proto/cqrs.pb.cc:913-922 | every field holds its default |
| `Cqrs.EventHeader.InternalSerialize` | include/cppplumberd/proto/cqrs.pb.cc:1147-1183 | writes exactly the table-driven encoding into the array at the target position and nothing outside it |
| `Cqrs.EventHeader.ByteSizeLong` | include/cppplumberd/proto/cqrs.pb.cc:1189-1214 | the size computed field by field is the number of bytes that serialization emits |
| `Cqrs.EventHeader.MergeImpl` | include/cppplumberd/proto/cqrs.pb.cc:1216-1231 | the new state is the field-wise merge that parsing a concatenation performs |
| `Cqrs.EventHeader.CopyFrom` | include/cppplumberd/proto/cqrs.pb.cc:1233-1238 | the target becomes equal to the source, also when copied onto itself |
| `Cqrs.EventHeader.Clear` | include/cppplumberd/proto/cqrs.pb.cc:1134-1145 | every field holds its default |
| `Writer.SerializeToArray` | include/cppplumberd/proto_frame_buffer.hpp:41-44 | succeeds exactly when the encoding fits the given size, changes only the encoding's bytes, and changes nothing on failure |
| `Writer.SerializeFields` | include/cppplumberd/proto/cqrs.pb.cc:379-416 | emitting the fields in table order writes the encoding in place |
| `Writer.WriteVarintToArray` | include/cppplumberd/proto/cqrs.pb.cc:396-398 | the varint loop writes exactly the varint's bytes at its position |
| `Frame.FrameRoundTripExactly` | include/cppplumberd/proto_frame_buffer.hpp:127-161 | with a registered, uncollided payload type, reading a written frame gives header and payload back if and only if their strings are readable and the payload encoding is empty just when no type is selected; bytes behind the frame do not matter |
| `Frame.ReadOfFrame` | include/cppplumberd/proto_frame_buffer.hpp:127-161 | the result of reading any written frame, for every payload type, registration and trailing bytes, error cases included |
| `Frame.ReadsExactlyFrames` | include/cppplumberd/proto_frame_buffer.hpp:127-161 | for any received bytes: a header and a payload come out exactly if the bytes begin with two size words, a part that parses to the header, and a part that is empty if the header selects no type and otherwise parses to a message of the registered type |
| `Frame.DefaultPayloadIsRefused` | include/cppplumberd/proto_frame_buffer.hpp:155-158 | an all-default payload of a selected type encodes to nothing and is refused on reading |
| `Frame.ReadStaysInsideReceived` | include/cppplumberd/proto_frame_buffer.hpp:130-156 | while the sizes add up below 2^32 the 32-bit length check is exact, the parsers stay inside the received bytes and later bytes never change the result |
| `Frame.LengthCheckMissesExactly` | include/cppplumberd/proto_frame_buffer.hpp:142-145 | the length check is not a bounds check: with eight bytes received it passes a frame whose parts reach beyond the received bytes exactly when the sizes add up to 2^32 or more and their 32-bit remainder does not exceed what was received |
| `Frame.EightBytesReachOutside` | include/cppplumberd/proto_frame_buffer.hpp:142-151 | an input on which it fails: eight bytes that announce two parts of a positive int size each pass the check, and the header parser is pointed outside the buffer, whatever the registry |
| `Frame.ReadIgnoresStaleBytes` | include/cppplumberd/proto_frame_buffer.hpp:127-161 | what a completed read returns is decided by the received bytes alone, and so is every error as long as the sizes add up below 2^32 |
| `Frame.FramedEverywhere` | include/cppplumberd/proto_frame_buffer.hpp:37-63 | wherever a write starts, the size words go to the first eight bytes, header and payload behind the start, and no other byte changes |
| `Frame.FramedAtZero` | include/cppplumberd/proto_frame_buffer.hpp:37-63 | from a reset buffer a write leaves one frame in front and every byte behind it unchanged |
| `Frame.ProtoFrameBufferView.Write` | include/cppplumberd/proto_frame_buffer.hpp:34-71 | succeeds exactly when 8 bytes, header and payload fit, then counts and writes one frame with the size words at the front; a failure leaves the count unchanged; the final too-large branch is dead |
| `Frame.ProtoFrameBufferView.WritePtr` | include/cppplumberd/proto_frame_buffer.hpp:77-121 | the same with a message pointer that may be null, which writes a zero payload size and skips the rest |
| `Frame.ProtoFrameBufferView.WriteHeader` | include/cppplumberd/proto_frame_buffer.hpp:72-76 | the same for a header alone |
| `Frame.ProtoFrameBufferView.Read` | include/cppplumberd/proto_frame_buffer.hpp:127-161 | the step-by-step read agrees with the read specification on every buffer, error for error |
| `Frame.ProtoFrameBufferView.Clear` | include/cppplumberd/proto_frame_buffer.hpp:178-181 | zeroes every byte of the buffer |
| `Registry.MapsAfterRegistrations` | include/cppplumberd/message_serializer.hpp:77-92 | after any sequence of registrations a type is known exactly if the sequence names it, forever under its first id, and an id belongs exactly to the latest type first registered under it |
| `Registry.AlwaysConsistent` | include/cppplumberd/message_serializer.hpp:178-179 | after any sequence of registrations every id's type carries that id, and the ids in use are exactly those of the types |
| `Registry.RegisterKeepsConsistent` | include/cppplumberd/message_serializer.hpp:77-92 | one registration keeps the two maps consistent and changes no known type's id |
| `Registry.DeserializesExactly` | include/cppplumberd/message_serializer.hpp:100-112 | for any bytes: a message comes out exactly if the id is registered, the message has its type and the bytes parse to it |
| `Registry.RegistrationSucceedsExactly` | include/cppplumberd/message_serializer.hpp:77-92 | after any sequence of registrations the next one succeeds exactly if it is the first of its type or repeats the first one's id |
| `Registry.DeserializeUndoesSerializeExactly` | include/cppplumberd/message_serializer.hpp:100-134 | a registered message comes back from its id and encoding exactly when its strings are readable and its type is the latest first registered under that id |
| `Registry.CollidingIdShadowsEarlierType` | include/cppplumberd/message_serializer.hpp:86-91 | two types under one id: the earlier one keeps its id but can no longer be read back |
| `Registry.MessageSerializer.RegisterMessage` | include/cppplumberd/message_serializer.hpp:77-92 | a known type keeps its id and refuses another; a new type takes the id even from another type |
| `Dispatcher.InjectiveIdsNeverMismatch` | include/cppplumberd/message_dispatcher.hpp:39-47 | with one type per id, after any mix of registrations whatever the serializer decodes for a handled id reaches its handler: the mismatch branch is dead |
| `Dispatcher.HandlerTypeAgreesExactly` | include/cppplumberd/message_dispatcher.hpp:27-50 | a handler's type is the serializer's type for its id exactly when no other type was first registered under that id later |
| `Dispatcher.SharedIdMismatches` | include/cppplumberd/message_dispatcher.hpp:39-47 | a concrete two-type collision on which every message of the later type runs into the mismatch branch |
| `Dispatcher.DispatchRunsExactly` | include/cppplumberd/message_dispatcher.hpp:52-66 | a handler runs exactly if there is one for the id and a message of its type, then once, with this recipient and message; otherwise nothing is called or logged |
| `Dispatcher.HandlerStays` | include/cppplumberd/proto_req_rsp_srv_handler.hpp:106-133 | once registered, with one type per id, a handler expects its type under its id ever after |
| `Dispatcher.SetUpTracksSerializer` | include/cppplumberd/proto_req_rsp_srv_handler.hpp:106-133 | every stored handler's type is known to the serializer under the handler's id |
| `Dispatcher.MessageDispatcher.Handle` | include/cppplumberd/message_dispatcher.hpp:52-66 | looks up, checks for null, downcasts and calls; exactly the calls made are logged |
| `Dispatcher.MessageDispatcher.RegisterHandler` | include/cppplumberd/message_dispatcher.hpp:27-50 | all three maps are overwritten at their keys, and no call is made |
| `Events.SmallEventsAlwaysFit` | include/cppplumberd/proto_publish_handler.hpp:43-50 | every registered event of at most 65511 bytes can be framed at any timestamp |
| `Events.LargerEventsMayNotFit` | include/cppplumberd/proto_publish_handler.hpp:43-50 | the bound is tight: 65512 bytes do not fit at the largest timestamp and id |
| `Events.EventFrameBytes` | include/cppplumberd/proto_publish_handler.hpp:40-53 | an event's frame in bytes: tag 8 and the time, tag 16 and the type's id, and the event; none for an unregistered or oversized event |
| `Events.ProtoPublishHandler.Publish` | include/cppplumberd/proto_publish_handler.hpp:40-53 | sends exactly the event's frame, or throws and sends nothing when the event is unregistered or too large |
| `Events.EventHandlerBase.Map` | include/plumberd.hpp:70-94 | maps an id to its event type and forwards nothing |
| `Events.EventHandlerBase.Handle` | include/plumberd.hpp:77-106 | throws exactly if the id is mapped and the event is missing, of another type than mapped, or of a type without handler interface; an unmapped id changes nothing; otherwise the event is forwarded once |
| `Events.ForwardedExactly` | include/plumberd.hpp:70-106 | over any run of mapping and handling, exactly the events of the type that their id was mapped to last, with a handler interface for it, are forwarded, in order |
| `StoreRuns.EachSubscriptionIsReached` | include/cppplumberd/event_store.hpp:69-99 | in every run, failing publishes included, each subscription has received exactly the registered events published to its stream while it was subscribed on which no earlier subscription to the stream threw, once each and in order |
| `StoreRuns.DeliverReachesExactly` | include/cppplumberd/event_store.hpp:72-85 | a delivery loop gets to exactly the subscriptions in its range before which no dispatcher throws |
| `StoreRuns.EachSubscriptionHearsItsStream` | include/cppplumberd/event_store.hpp:45-99 | after any interleaving of subscribing, unsubscribing and successful publishing, each subscription has received exactly the events published to its stream while it was subscribed, once each and in order; runs in which a publish fails are the subject of EachSubscriptionIsReached |
| `StoreRuns.LocalsAreListeners` | include/cppplumberd/event_store.hpp:45-63 | the subscriptions in a stream's range are exactly those made for it and not unsubscribed since |
| `StoreRuns.DeliverReachesEachOnce` | include/cppplumberd/event_store.hpp:72-85 | a delivery loop that is not cut short reaches each subscription in its range once and no other |
| `StoreRuns.EachChannelCarriesItsStream` | include/cppplumberd/event_store.hpp:87-96 | in every run each channel has sent exactly one frame for every event published to its stream since the channel was created, in order; a publish that fails sends nothing |
| `StoreRuns.ChannelsAreCounted` | include/cppplumberd/event_store.hpp:65-68 | in every run, failing publishes included, a stream has the channels created for it and no others |
| `StoreRuns.EnsuringGivesOneChannel` | include/cppplumberd/event_store.hpp:139-150 | in every run in which no CreateStream names it, a stream has one channel in the store if it was ever ensured, and none otherwise |
| `StoreRuns.ChannelsOnlyGrow` | include/cppplumberd/event_store.hpp:65-68 | whatever follows, failing publishes included, no channel goes away or loses a frame it has sent, and each creation adds at least one |
| `StoreRuns.LaterCreationsAddExactlyOne` | include/cppplumberd/event_store.hpp:151-158 | once a stream has a channel in the store, its channels grow by exactly one for each later creation, in every run |
| `EventStores.EventStore.Subscribe` | include/cppplumberd/event_store.hpp:58-63 | appends a fresh subscription to the stream's range and changes nothing else |
| `EventStores.EventStore.Unsubscribe` | include/cppplumberd/event_store.hpp:45-54 | erases the first entry of just this subscription, if it is there |
| `EventStores.EventStore.CreateStream` | include/cppplumberd/event_store.hpp:151-158 | adds one channel to the stream, every time |
| `EventStores.EventStore.EnsureStreamCreated` | include/cppplumberd/event_store.hpp:139-150 | adds a channel only to a stream that has none |
| `EventStores.EventStore.Publish` | include/cppplumberd/event_store.hpp:69-99 | local subscriptions first, then channels; an unregistered type, a throwing dispatcher and an oversized frame each end it with exactly the deliveries made so far |
| `EventStores.EventStore.PublishLocally` | include/cppplumberd/event_store.hpp:72-85 | the first loop delivers up to the first dispatcher that throws |
| `EventStores.EventStore.PublishOnChannels` | include/cppplumberd/event_store.hpp:87-96 | the second loop puts the frame on every channel of the stream |
| `StoreRuns.PublishSucceedsExactly` | include/cppplumberd/event_store.hpp:69-99 | a publish succeeds exactly when there is nobody to tell, or the type is registered, no local dispatcher throws and the frame fits if there is a channel; a failing publish reaches no channel |
| `EventStores.StepKeepsValid` | include/cppplumberd/event_store.hpp:42-68 | every operation keeps the ranges free of duplicates and each subscription in its own stream's range |
| `Subscriber.StreamDispatchesWhatItAdmits` | include/cppplumberd/proto_subscribe_handler.hpp:65-87 | a stream's dispatched log is the in-order decoding of the frames received while it ran; bad frames and throwing handlers change nothing about the others |
| `Subscriber.FrameIsDispatchedExactly` | include/cppplumberd/proto_subscribe_handler.hpp:65-87 | for any frame: it is dispatched as one delivery with its time, id and payload if it can be read, and as nothing otherwise |
| `Subscriber.FrameArrives` | include/cppplumberd/proto_subscribe_handler.hpp:69-79 | unless the reader ties the id to another type, a published frame is dispatched as the very event, id and time that were published if the reader knows the id and the event can be decoded, and as nothing otherwise |
| `Subscriber.AmbiguousIdMisleads` | include/cppplumberd/proto_subscribe_handler.hpp:69-79 | a reader that does tie the id to another type with a like table dispatches the record under that other type |
| `Subscriber.LossyChannelKeepsOrder` | include/cppplumberd/proto_subscribe_handler.hpp:65-87 | over a lossy first-in first-out channel the dispatched events are a subsequence of the receivable ones among those published, whatever unknown or undecodable events lie between them, and exactly these if nothing is lost; the reader may know any part of the ids but must not tie one to another type |
| `Subscriber.SubscriberHearsTheStream` | include/cppplumberd/event_store.hpp:87-96 | after any run of the server's store, what a subscriber dispatches from a channel is a subsequence of the events it can receive among those published since the channel was created, and all of these if no frame was lost; its ids must not tie one of the published types' ids to another type |
| `Subscriber.ClientProtoSubscriptionStream.OnMessageReceived` | include/cppplumberd/proto_subscribe_handler.hpp:65-87 | appends the frame's delivery if running and decodable, and nothing otherwise, whether or not the dispatcher throws |
| `Subscriber.ProtoSubscribeHandler.OnMessageReceived` | include/cppplumberd/proto_subscribe_handler.hpp:140-167 | a frame reaches a handler exactly when it decodes, its id is handled and its event has the handler's type |
| `Subscriber.ProtoSubscribeHandler.RegisterHandler` | include/cppplumberd/proto_subscribe_handler.hpp:109-121 | a handler is stored only if its event type could be registered |
| `Plumber.RemoteSubscribeCreatesStream` | include/plumberd.hpp:117-174 | subscribing remotely to a nonempty UTF-8 name that fits leaves the server with a channel for it, whatever else its handlers and the application do to the store; every channel stays with its frames in every later state, each later CreateStream adds exactly one, and if none ever names the stream it has exactly one; any other name stops the server unanswered |
| `Plumber.SubscriptionManagerImp.Subscribe` | include/plumberd.hpp:162-174 | a running subscription stream is made and remembered exactly when the remote CreateStream returned normally, which it never does on a server that has stopped |
| `Plumber.SubscriptionManagerImp.Unsubscribe` | include/plumberd.hpp:149-160 | stops the stream and takes out its first entry, leaving the others in order |
| `Replay.ReplayReconstructsState` | examples/app/server.cpp:58-70 | after any commands whose publishes succeed, the library's CreateStream among them, replaying the events of a reactive stream's channel over a snapshot, last write wins, gives every property monitored at the snapshot whose names can be string fields its current value and leaves the others at the snapshot's, and each event of a monitored property differs from the value before; the subscriber must know the change event under the server's nonzero id |
| `RemoteApp.RemoteRunIsMirrored` | examples/app/server.cpp:333-375 | the whole way: a remote client's deliverable commands run through frames, dispatcher and handlers on the hosted application, and as long as no publish fails the replayed view of a subscriber that knows the change event under the server's nonzero id agrees with the server's state on every property monitored at the snapshot whose names can be read back; the server is up exactly if every command succeeded |
| `RemoteApp.RemoteSetReachesSubscriber` | examples/app/server.cpp:163-245 | when a remote setter returns normally to its client, the value sent is the property's value on the server and in the replayed view of every subscriber that got the channel's frames and knows the change event under the server's nonzero id |
| `RemoteApp.SetUpHosts` | include/cppplumberd/proto_req_rsp_srv_handler.hpp:106-133 | any set-up whose handlers all work on one application makes a server that hosts it |
| `Example.ExampleHosts` | examples/app/server.cpp:333-366 | the example's own set-up, from the library's CreateStream handler to the change event, makes a server that hosts the example's application |
| `Example.ExampleConnects` | examples/app/server.cpp:358-363 | a client that registers one of the example's four command types under the example's id is connected to that server |
| `RemoteApp.UpWhileDone` | include/cppplumberd/proto_req_rsp_srv_handler.hpp:34-57 | the last caller is told that its command is done exactly if the server is still up, which it is exactly if the application carried out every command |
| `RemoteApp.AppIsAServer` | examples/app/server.cpp:333-375 | after every run of its commands the application's event store is the outcome of the store operations in its history, and its CreateStream handler obeys the rule that remote subscribing relies on |
| `RemoteApp.SubscribedStreamOfApp` | include/plumberd.hpp:117-174 | on the example application a subscribed stream has a channel from then on and gains exactly one for each later reactive subscription of its name |
| `Replay.ChangeIsReceivableExactly` | examples/app/server.cpp:226-245 | a change that can be framed reaches such a subscriber exactly if the property's names can be read back, and is dispatched as nothing otherwise |
| `Replay.LostForGood` | examples/app/server.cpp:205-224 | over every run of commands a monitored property that was replaced by a new one of its name stays listed without a slot, and no command that sets it publishes anything |
| `Replay.CommandOnChannel` | examples/app/server.cpp:205-245 | one command gains a reactive stream's channel one frame if it changes a monitored property, and none otherwise |
| `Replay.ChangeIsCarried` | examples/app/server.cpp:226-239 | a change event carries exactly the property and the value it was built from |
| `Monitor.CommandEffect` | examples/app/server.cpp:205-311 | one command of the example or the library's CreateStream: a property keeps at most one slot however often it is selected, only an accepted setter changes a monitored value, and each change is one frame on each channel of each distinct reactive stream |
| `Monitor.CommandFailsExactly` | examples/app/server.cpp:163-245 | a setter is refused exactly if its property is unknown or read-only, its value type is not 2 or its data is shorter than four bytes; a command fails in publishing exactly when it changes a monitored property and some reactive stream cannot be published to at its start |
| `Monitor.ValuesAfterExactly` | examples/app/server.cpp:58-70 | the values after every command and in every outcome: an accepted setter's value is in place even if its publishing fails, and nothing else changes a value |
| `Monitor.TargetExactly` | examples/app/server.cpp:166-187 | over all setter commands: property and value are named exactly by a known property, value type 2 and at least four bytes of data, and the value is the int in the first four, least significant byte first |
| `Monitor.PublishAllReachesExactly` | examples/app/server.cpp:241-244 | in every outcome, exactly the streams before which and on which no publish fails gain the frame on each of their channels |
| `Monitor.LessIsLexicographic` | examples/app/server.cpp:253 | stream names are ordered by their first differing byte, a proper prefix first |
| `Monitor.ChangedLayout` | examples/app/server.cpp:226-239 | a change event in bytes: the names under tags 10 and 18, value type 2 and the four bytes of the value |
| `Monitor.SetterLayout` | examples/app/server.cpp:163-190 | a setter command in bytes, tags 10, 18, 24 and 34 |
| `Monitor.InsertKeepsAscending` | examples/app/server.cpp:247-253 | the set of reactive streams stays in the order of its names, each once, and gains just the new name |
| `Monitor.LostStaysLost` | examples/app/server.cpp:205-224 | no single command connects a lost property again, and setting it publishes nothing |
| `Monitor.NoOpSetIsSilent` | examples/app/server.cpp:63-69 | setting a property to its own value changes and publishes nothing |
| `Monitor.SetterNamesItsValue` | examples/app/server.cpp:176-190 | a setter command built from an int names just that property and value; other declared types are refused |
| `Monitor.PublishAllEffect` | examples/app/server.cpp:241-244 | a completed round of publishing puts one frame on every channel of every listed stream and nothing elsewhere |
| `Monitor.CreateReactiveEffect` | examples/app/server.cpp:273-311 | creates one more channel, lists the stream once, and monitors just the known selected properties |
| `Monitor.SetValueEffect` | examples/app/server.cpp:58-70 | an accepted set overwrites one value, and publishes once to each reactive stream exactly when a monitored value changed |
| `Monitor.PropertyServer.SetValue` | examples/app/server.cpp:58-70 | a read-only property refuses; otherwise the value is overwritten first and then every slot is fired, up to the first failing publish |
| `Monitor.PropertyServer.OnPropertyChanged` | examples/app/server.cpp:226-245 | publishes the change to each reactive stream, in the order of their names, up to the first failure |
| `Monitor.PropertyServer.HandleSetter` | examples/app/server.cpp:163-191 | an unknown property, another value type and short data are refused before anything changes |
| `Monitor.PropertyServer.MonitorProperty` | examples/app/server.cpp:205-224 | connects one slot, unless the property is monitored already |
| `Monitor.PropertyServer.AddProperty` | examples/app/server.cpp:115-120 | a new property starts at zero without a slot, also in place of an earlier one; the state stays valid exactly if no property of that name was monitored |
| `Monitor.MonitorAllEffect` | examples/app/server.cpp:282-310 | after any list of selectors the known ones are monitored, each with one slot, and nothing else has changed |
| `Monitor.PropertyServer.HandleCreateReactive` | examples/app/server.cpp:273-311 | creates the stream, lists it once and monitors each known selector in turn |

## Left out

- Repeated and nested fields, maps, floats, booleans and zigzag integers in payload messages: a field table holds 32- and 64-bit unsigned numbers, int32 or enum, strings and bytes. CreateReactiveSubscription's selectors are therefore taken as already decoded, and RemoteApp takes the reading of such commands as a function.
- Deprecated groups in unknown fields are refused instead of skipped, and unknown fields are dropped instead of kept for re-serialization.
- Protobuf runtime internals: arenas, reflection, swap, cached sizes, fast-path dispatch. The two-gigabyte limit of SerializeToArray and the length-prefix limit of the parser are kept.
- The sockets: a synchronous exchange for commands and a lossy first-in first-out channel for events stand for them, with the receive loop's order. URLs, timeouts, threads, and a second listen on one URL failing are not modelled; creating a channel always succeeds.
- Frame.ProtoFrameBufferView.Read: only at offset 0, the only offset used; a buffer is at most INT_MAX bytes, and AckWritten is called with no more bytes than the buffer has. Reading outside the buffer is one error result, with no account of what the memory there holds, and sizes of 2^31 or more are not turned into the negative ints that ParseFromArray would get (include/cppplumberd/proto_frame_buffer.hpp:149).
- Frame.ProtoFrameBufferView.Write: the model covers any starting count of written bytes, but round trips are stated for a reset buffer, since the size words always go to the front.
- Frame.ReadIgnoresStaleBytes: when the sizes add up to 2^32 or more, the model ends the read with an error where the code parses memory outside the received bytes (Frame.LengthCheckMissesExactly). What it finds there, and whether it survives, is not modelled, so the server's and the subscriber's contracts describe such a frame as one that cannot be read.
- Subscriber.FrameArrives: the time in a delivery is the header's count of milliseconds. Its conversion to a time_point (include/cppplumberd/proto_subscribe_handler.hpp:75-76) is exact only while the count fits the clock's 64-bit tick, up to 9,223,372,036,854 milliseconds with a nanosecond clock.
- Client.TypedReplyOnlyIfDefault: the handler template behind it does not compile as written; the member states what its evident intent comes to. The same goes for Server.ProtoReqRspSrvHandler.RegisterTypedHandler.
- Server.ProtoReqRspSrvHandler.Start: a start after a stop, which fails on a socket that is bound already.
- A message pointer that Read leaves untouched is None. The source hands on an uninitialized pointer when a frame selects no payload and has none; with nonzero message ids no handler is looked up for it, but the subscription stream still deletes it.
- Heap deallocation of payloads and console output. Server.ProtoReqRspSrvHandler.HandleRequest looks the command's name up again after its handler has run; that look-up cannot fail while the registry stays as it is, and is dropped.
- Handlers see the recipient and the command; the header's command type, which RegisterHandlerWithMetadata also passes on, is the id under which they are registered.
- Clock readings are inputs; one reading serves all the deliveries and channels of one Publish, and one command.
- EventStores.EventStore.Publish: the range of a stream is visited in insertion order; dispatchers do not subscribe or unsubscribe while being called, and no subscription is destroyed without being unsubscribed. The registry does not change during a run.
- Subscriptions, channels and property objects are entries of their owner's maps, numbered or keyed, not separate heap objects, so aliasing between them is not captured. The channels of the store hold frames directly, as ProtoPublishHandler.Publish would send them.
- Elements of the example are names in a property's key; replacing a whole element is not modelled.
- The dispatcher's overloads by message type, whose static assertion no message type meets, and its two type maps beyond their updates: nothing reads them.
- StopWatch, Utils, the socket factory, the example client and the string-based Initialize, which would only add easy members.
