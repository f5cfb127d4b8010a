# PL/JVM: a verified model of the call path

PL/JVM runs PostgreSQL functions in a separate JVM. The backend, in C, serialises
a call and pushes it through a hand-written growable socket buffer; the JVM, in
Java, decodes it with a second, independently written codec, runs the function
and answers; the backend decodes the answer and turns it back into datums. This
project models that path and proves that it does what it is for.

`dafny verify dfyconfig.toml` checks the whole project.

| file | subject |
|---|---|
| `Primitives`, `Shapes` | C integer ranges and their little-endian images; row-major order |
| `Transport`, `TransportRuns` | the two socket buffers of a connection; any run of operations on them |
| `Wire`, `RoundTrip`, `Locality` | the wire format as functions; decoding inverts encoding; decoding is local |
| `ChannelSend`, `ChannelReceive`, `Conversation` | the send and receive functions over the buffers; whole conversations |
| `Catalog`, `Descriptions`, `FunctionCache` | function descriptions filled from the catalog, what they say of it, their validity test, and the five-slot cache |
| `TypeIO`, `TypeIn`, `StoredArrays` | datums to wire values and back; arrays from bitmap to wire |
| `Ownership`, `OwnershipRuns`, `OwnershipMessages` | the blocks receiving allocates and freeing releases |
| `JavaRequests`, `JavaReader`, `RequestAgreement` | the JVM's request decoder: as functions, as it runs, and its agreement with the backend's encoder |
| `JavaResponses`, `JavaWriter`, `ResponseAgreement` | the JVM's response encoder: as functions, as it runs, and its agreement with the backend's decoder |
| `Calls` | what a request says of the catalog and the arguments, as built and as the JVM sees it |
| `RemoteCall`, `Invocation` | a whole call, over both languages and both buffers; a function called end to end |

Main results:

- `Invocation.Invoke`: a function called end to end, through cache, catalog, both
  codecs and both socket buffers; `RemoteCall.Call`: the call itself.
- `Calls.CallReachesJvm`: the request the JVM sees says what the catalog and the
  arguments say, every name, type and value in its place.
- `Conversation.Converse`, `RoundTrip.MessageBack`, `Locality.MessageStable`: what
  is sent arrives, exactly, in order, for every message kind and every chunking.
- `TransportRuns.RunOps`: FIFO order, exact failure codes, memory bounds and no int
  overflow over any run.
- `RequestAgreement.RequestAgrees`, `ResponseAgreement.ResponseAgrees`: the two
  codecs agree, with the exact set of calls the JVM can read.
- `Descriptions.BuiltDescribes`: a function is described by exactly the one
  description the catalog has of it.
- `FunctionCache.Serve`, `FunctionCache.RecentIsLru`, `Catalog.ReuseIsFresh`,
  `Descriptions.ValidIffUnchanged`: the cache is a least-recently-used list that
  answers whenever it can, reuses exactly what has not been written since, and is
  current exactly where the code is.
- `TypeIO.OutMatchesType`, `TypeIn.RowSurvives`, `StoredArrays.SendArgument`: datums
  keep step with their types and come back.
- `OwnershipMessages.ReceiveAndFreeResult`, `OwnershipMessages.ReceiveAndFreeCall`,
  `Ownership.ValueReleased`: freeing balances receiving.

How the model is built:

- Code that changes state is a class or a method with its loops. Each is proved
  against a function (`Wire.EncMsg`, `Wire.DecMsg`, `JavaRequests.DecodeAll`, ...),
  and the properties are proved about those functions.
- The socket is nondeterministic: a send or recv moves any number of bytes from
  one to the length offered, or fails. `Conversation` and `RemoteCall` hold for
  all such choices. A recv that fails although bytes are waiting is counted in
  `faults`; the delivery theorems speak of runs in which none was.
- `PlcConn.Valid()` carries the whole invariant of a connection: FIFO order, both
  memory bounds, and the least room ever offered to a recv.
- Integers that go over the wire have their C ranges. `Parse.Bad` stands for
  input that is refused or that leaves C without a defined meaning.

What the proofs found:

- The comment at `src/common/comm_connectivity.c:269` promises -2 when the socket
  has no data. The code returns only -1 (line 298), and so does the model.
- A data size of at most INT_MAX - 8192 does not keep the resize from overflowing
  an int: the consumed space before `pStart` counts too. `ResizeOverflow` gives
  the exact condition, `SmallDataSizeCanOverflow` a state that overflows.
- The cache's validity test does not look at the row the calling query expects.
  For a function returning record a reused description can be stale;
  `ReuseIsFresh` says exactly when it is not, in terms of the two calls
  (`CallsAgree`).
- `src/plc_typeio.c:602` takes the infunc of attribute `j`, where attribute `i` is
  meant. The live attributes of all rows come back if and only if no dropped
  attribute precedes a live one (`RowSurvives`). Dropped slots are never written
  (`DroppedSlotIsJunk`).
- The JVM announces a string by its number of UTF-16 units and then sends its
  UTF-8 bytes, and U+0000 ends the string on the backend. `StringFraming` says
  exactly which strings keep the frame, and which arrive as themselves.
- After a request with arguments the JVM's decoder never reads again
  (`SpentReadsNothing`), and a request split between a length and its body is
  misread (`LengthIsForgotten`).
- A UDT result carries no subtype count and is always misread
  (`UdtTypeIsMisread`).

## Model

| member | source | states |
|---|---|---|
| `Invocation.Invoke` | `src/pljvm.c:98-221` | a function called end to end: whether its description is cached or built anew, and however the socket cuts the bytes, the JVM side is handed exactly one request, for the function as the catalog has it now and on these arguments, flagged as changed exactly when the description is new; and unless a recv fails with bytes waiting the backend receives exactly the result |
| `Invocation.Describe` | `src/message_fns.c:55-170` | for a function without record the description used is the one of the catalog as it is now; a cached record is used exactly when neither the function nor a relation its types hang on has been written since it was built |
| `Invocation.CallDescribed` | `src/pljvm.c:166-221` | the call of a described function, from request to result |
| `Invocation.StillNoRecord` | `src/plc_typeio.c:184-216` | a description that is still valid depends on its calling query only if the function names record now |
| `RemoteCall.Call` | `src/common/comm_channel.c:90-158` | one call end to end over a real connection: the send never raises and returns 0 exactly when no socket write failed; then the JVM side sees exactly the call, and unless a recv fails with bytes waiting the backend receives exactly one row of one column holding the result, with no byte left, for any sizes of socket writes and reads |
| `RemoteCall.Answer` | `plj-java/src/main/java/org/postgresql/plj/JVMCallHandler.java:51-88` | a buffered call becomes exactly the one request, and the returned value becomes response bytes the backend decodes as that value under the name of the request |
| `RemoteCall.Understand` | `plj-java/src/main/java/org/postgresql/plj/PLJVMServerDecoder.java:27-98` | the running decoder, given the bytes of a call, hands on exactly the equal request |
| `RemoteCall.Respond` | `plj-java/src/main/java/org/postgresql/plj/JVMCallHandler.java:128-139` | the running encoder writes bytes that decode as the result under the given name |
| `RemoteCall.ReplyAgrees` | `plj-java/src/main/java/org/postgresql/plj/JVMCallHandler.java:128-139` | the response the handler builds for a returnable value decodes as that value |
| `RemoteCall.JavaCallIsSupported` | `src/common/comm_channel.c:232-278` | a call the JVM side can read never makes the sender raise an error |
| `Conversation.Converse` | `src/common/comm_channel.c:90-158` | any list of sendable messages: once the sends return 0 the same messages arrive in the same order and no byte is left, for every pattern of short writes and chunked reads; code 0 exactly when no socket write failed |
| `Conversation.SendAll` | `src/common/comm_channel.c:90-117` | sending a list appends exactly the concatenated encodings, and everything has left the buffer on code 0 |
| `Conversation.ReceiveAll` | `src/common/comm_channel.c:119-158` | receiving n messages is decoding the stream n times, whatever the chunking |
| `Conversation.DeliverableIsSupported` | `src/common/comm_channel.c:232-278` | a message that can be delivered never makes a sender raise an error |
| `Transport.PlcConn.constructor` | `src/common/comm_connectivity.c:321-342` | a new connection satisfies the invariant with empty streams |
| `Transport.Buffer.MaybeReset` | `src/common/comm_connectivity.c:117-137` | live content is unchanged, pStart ends in the first half, and the compacting memcpy never overlaps |
| `Transport.Buffer.MaybeResize` | `src/common/comm_connectivity.c:147-200` | live content is unchanged, the insert fits below the reserve of 200 bytes on all three paths, the size stays a positive multiple of 8192, the shrink path strictly shrinks, the new size is pinned to one block, and whether an int overflowed on the way is recorded |
| `Transport.Buffer.Reallocate` | `src/common/comm_connectivity.c:186-199` | the content moves unchanged to the front of a new buffer; the copy never overlaps |
| `Transport.Buffer.Put` | `src/common/comm_connectivity.c:232-240` | an append puts exactly the bytes after the live content; the assertion after the copy holds |
| `Transport.Buffer.Pull` | `src/common/comm_connectivity.c:293-303` | one recv moves bytes from the socket to the end of the content and loses none; the assertion after it holds |
| `Transport.Memcpy` | `src/common/comm_connectivity.c:130-134` | the C memcpy, undefined on overlap: every caller is shown to pass disjoint ranges |
| `Transport.SendSide.Send` | `src/common/comm_connectivity.c:56-65` | the socket accepts 1..len bytes, in order, or fails and takes none |
| `Transport.RecvSide.Recv` | `src/common/comm_connectivity.c:33-51` | the socket delivers 1..len of the unread bytes, in order, or fails and delivers none; no room looks like a failure |
| `Transport.PlcConn.Drain` | `src/common/comm_connectivity.c:87-97` | the flush loop sends the content in order and on a failure keeps what was not sent |
| `Transport.PlcConn.MaybeFlush` | `src/common/comm_connectivity.c:73-108` | a flush never loses or reorders a byte, a forced one that succeeds leaves pStart = pEnd = 0 with everything sent, and afterwards at most 8192 bytes wait |
| `Transport.PlcConn.MakeRoom` | `src/common/comm_connectivity.c:213-231` | reset, flush and resize together make room for the append or fail with the content intact, and the resize overflows no int while no append was larger than 1073733531 bytes |
| `Transport.PlcConn.ResizeForAppend` | `src/common/comm_connectivity.c:227-231` | with at most 8192 bytes waiting the resize makes room for the append, keeps the content, stays within the memory bound and overflows no int |
| `Transport.PlcConn.Append` | `src/common/comm_connectivity.c:209-240` | sent bytes plus buffered bytes is the concatenation of the successful appends; a failed append adds nothing |
| `Transport.PlcConn.Flush` | `src/common/comm_connectivity.c:314-316` | code 0 means that every appended byte has been sent and the buffer is empty |
| `Transport.PlcConn.MakeReadRoom` | `src/common/comm_connectivity.c:276-287` | after reset and resize the missing bytes fit below the reserve, so recv is always offered more than 200 bytes, and the resize overflows no int while no read was larger than 715825085 bytes |
| `Transport.PlcConn.Receive` | `src/common/comm_connectivity.c:271-307` | has n bytes buffered or returns -1; in every case the byte stream is unchanged |
| `Transport.PlcConn.PullUntil` | `src/common/comm_connectivity.c:291-304` | the recv loop ends with n bytes buffered or with a failure, and the byte stream is unchanged |
| `Transport.PlcConn.Read` | `src/common/comm_connectivity.c:248-263` | takes exactly the next n bytes of the stream or, on failure, leaves the stream as it was |
| `Transport.PlcConn.Arrive` | `src/common/comm_connectivity.c:33-51` | bytes accepted by the peer extend the stream at its end |
| `TransportRuns.RunOps` | `src/common/comm_connectivity.c:73-316` | any run of appends, flushes, reads, receives and arrivals: output is a FIFO of the accepted appends, input hands out the stream in order; all appends and flushes return 0 exactly when no socket write failed, and unless a recv failed with bytes waiting each read and receive returns 0 exactly when enough bytes were there; output size <= N + 16584, input size <= max(8192, 2N + 8391), recv offered more than 200 bytes, and no resize overflows an int for N up to 1073733531 (appends) and 715825085 (reads) |
| `TransportRuns.Step` | `src/common/comm_connectivity.c:209-316` | one operation keeps the invariant, moves exactly its own bytes, and fails only for a failed socket write, a short stream or a failed recv |
| `Transport.ResizeOverflow` | `src/common/comm_connectivity.c:147-200` | with a data size of at most INT_MAX - 8192 no int expression overflows if and only if the buffer shrinks or pEnd plus the insert is at most INT_MAX |
| `Transport.AppendFits` | `src/common/comm_connectivity.c:213-231` | the resize of an append, which comes after a flush, overflows no int for appends up to 1073733531 bytes |
| `Transport.ReadFits` | `src/common/comm_connectivity.c:276-287` | the resize of a read, which comes when fewer bytes wait than are asked for, overflows no int for reads up to 715825085 bytes |
| `TransportRuns.SmallDataSizeCanOverflow` | `src/common/comm_connectivity.c:147-200` | a small data size alone does not exclude overflow: a concrete state in which pEnd + bufAppend overflows |
| `TransportRuns.OverflowIsReached` | `src/common/comm_connectivity.c:147-200` | three operations on a new connection lead to that state: the sizes they produce are forced |
| `Primitives.SignedInvertsLe` | `src/common/comm_channel.c:175-188` | a signed integer survives its little-endian image |
| `Primitives.FromLeInvertsLe` | `src/common/comm_channel.c:185-188` | so does an unsigned one |
| `Primitives.LeDigit` | `src/common/comm_channel.c:175-188` | byte i of an image is the number divided by 256 to the i, modulo 256: the least significant byte comes first |
| `RoundTrip.CStringBack` | `src/common/comm_channel.c:205-221` | receiving a sent C string, null or not, gives it back and exactly the suffix |
| `RoundTrip.ByteaBack` | `src/common/comm_channel.c:223-230` | the same for bytea |
| `RoundTrip.TypeBack` | `src/common/comm_channel.c:306-322` | a type tree of any depth comes back exactly, followed by exactly the suffix |
| `RoundTrip.ElementSwitchAgrees` | `src/common/comm_channel.c:510-548` | the array receiver's own element switch agrees with the generic object receiver wherever it can be reached |
| `RoundTrip.RawBack` | `src/common/comm_channel.c:232-278` | a value comes back exactly, followed by exactly the suffix, if and only if no array with elements has arrays for elements or element data larger than an int, and nothing is unsupported; otherwise it is refused |
| `RoundTrip.ArrayBack` | `src/common/comm_channel.c:497-552` | an array comes back with dimensions, nulls and elements exactly when it is flat |
| `RoundTrip.ElemsBack` | `src/common/comm_channel.c:280-304` | the elements of an array come back in order with their nulls |
| `RoundTrip.FieldsBack` | `src/common/comm_channel.c:324-335` | the fields of a row come back in order, each read by its own type |
| `RoundTrip.ArgumentBack` | `src/common/comm_channel.c:599-607` | name, type and value of an argument come back |
| `RoundTrip.ArgumentsBack` | `src/common/comm_channel.c:640-643` | any number of arguments, including none |
| `RoundTrip.ColumnsBack` | `src/common/comm_channel.c:661-666` | column types and names come back paired |
| `RoundTrip.RowsBack` | `src/common/comm_channel.c:668-673` | any number of rows and columns, cell by cell |
| `RoundTrip.CallBack` | `src/common/comm_channel.c:621-648` | a call request decodes to itself exactly when its arguments are flat |
| `RoundTrip.ResultBack` | `src/common/comm_channel.c:650-691` | a result decodes to itself, or to exactly the exception its callback raised |
| `RoundTrip.PingBack` | `src/common/comm_channel.c:609-619` | a ping decodes to itself |
| `RoundTrip.LogBack` | `src/common/comm_channel.c:693-704` | a log message decodes to itself |
| `RoundTrip.ExceptionBack` | `src/common/comm_channel.c:706-713` | an exception decodes to itself |
| `RoundTrip.SqlBack` | `src/common/comm_channel.c:715-727` | an SQL statement decodes to itself |
| `RoundTrip.MessageBack` | `src/common/comm_channel.c:90-158` | every message kind: arrives as itself or as its exception exactly when deliverable, and is refused otherwise |
| `RoundTrip.MessagesBack` | `src/common/comm_channel.c:90-158` | a list of messages comes back in order with no byte over |
| `Locality.TypeStable` | `src/common/comm_channel.c:554-579` | decoding a type reads the same on a longer stream |
| `Locality.RawStable` | `src/common/comm_channel.c:437-495` | decoding a value reads the same on a longer stream |
| `Locality.ArrayStable` | `src/common/comm_channel.c:497-552` | so does decoding an array |
| `Locality.CallStable` | `src/common/comm_channel.c:863-893` | so does decoding a call |
| `Locality.ResultStable` | `src/common/comm_channel.c:744-803` | so does decoding a result |
| `Locality.MessageStable` | `src/common/comm_channel.c:119-158` | a received message is the same message with the same bytes consumed when the stream is extended, and a refused stream stays refused |
| `Locality.TruncationIsShort` | `src/common/comm_channel.c:119-158` | a stream cut anywhere inside a message runs short; it is never refused nor taken for another message |
| `Locality.SentPrefixIsShort` | `src/common/comm_channel.c:119-158` | no strict prefix of a sent message is ever taken for a message |
| `ChannelSend.SendChar` | `src/common/comm_channel.c:170-173` | appends the byte, code 0 exactly when no socket write failed |
| `ChannelSend.SendInt16` | `src/common/comm_channel.c:175-178` | appends the two-byte image |
| `ChannelSend.SendInt32` | `src/common/comm_channel.c:180-183` | appends the four-byte image |
| `ChannelSend.SendUInt32` | `src/common/comm_channel.c:185-188` | appends the four-byte image |
| `ChannelSend.SendCString` | `src/common/comm_channel.c:205-221` | appends length and bytes, or length -1 for NULL |
| `ChannelSend.SendBytea` | `src/common/comm_channel.c:223-230` | appends length and bytes |
| `ChannelSend.SendType` | `src/common/comm_channel.c:306-322` | appends exactly the encoding of the type tree |
| `ChannelSend.SendSubTypes` | `src/common/comm_channel.c:316-317` | code 0 means the subtypes were appended in order and complete; after a failure the loop stops |
| `ChannelSend.SendRawObject` | `src/common/comm_channel.c:232-278` | appends exactly the encoding of the value; raises exactly when a part is of an unsupported type |
| `ChannelSend.SendRawArrayIter` | `src/common/comm_channel.c:280-304` | appends dimensions and every element |
| `ChannelSend.SendDims` | `src/common/comm_channel.c:285-287` | code 0 means the dimensions were appended in order |
| `ChannelSend.SendElements` | `src/common/comm_channel.c:289-300` | code 0 means every element was appended in order; after a failure the loop stops; an unsupported element raises |
| `ChannelSend.SendUdt` | `src/common/comm_channel.c:324-335` | code 0 means the fields were appended in order, each by its own type |
| `ChannelSend.SendArgument` | `src/common/comm_channel.c:599-607` | appends name, type and value |
| `ChannelSend.SendArguments` | `src/common/comm_channel.c:642-643` | the argument loop, which goes on appending after a failure |
| `ChannelSend.SendCall` | `src/common/comm_channel.c:621-648` | appends exactly the encoding of the call and flushes it; 0 exactly when nothing failed |
| `ChannelSend.SendColumns` | `src/common/comm_channel.c:661-666` | code 0 means every column type was appended with its own name |
| `ChannelSend.SendRow` | `src/common/comm_channel.c:670-673` | code 0 means the cells were appended in order, each by its column type |
| `ChannelSend.SendRows` | `src/common/comm_channel.c:669-673` | code 0 means the rows were appended in order |
| `ChannelSend.SendException` | `src/common/comm_channel.c:706-713` | appends and flushes the exception |
| `ChannelSend.SendResult` | `src/common/comm_channel.c:650-691` | appends and flushes the result, with the exception its callback raised or the byte N |
| `ChannelSend.SendPing` | `src/common/comm_channel.c:609-619` | appends and flushes the ping |
| `ChannelSend.SendLog` | `src/common/comm_channel.c:693-704` | appends and flushes the log message |
| `ChannelSend.SendSql` | `src/common/comm_channel.c:715-727` | appends and flushes a statement; another SQL type raises |
| `ChannelSend.Send` | `src/common/comm_channel.c:90-117` | the dispatch: exactly the encoding of the message, everything sent on code 0; an unknown kind raises |
| `ChannelReceive.ReceiveBytes` | `src/common/comm_channel.c:389-393` | the next n bytes of the stream, or the stream untouched |
| `ChannelReceive.ReceiveInt32` | `src/common/comm_channel.c:359-363` | the number the next four bytes stand for |
| `ChannelReceive.ReceiveUInt32` | `src/common/comm_channel.c:365-369` | the unsigned number the next four bytes stand for |
| `ChannelReceive.ReceiveInt16` | `src/common/comm_channel.c:353-357` | the number the next two bytes stand for |
| `ChannelReceive.ReceiveCString` | `src/common/comm_channel.c:395-415` | what the string decoder makes of the stream: all announced bytes consumed, and the C string up to the first zero |
| `ChannelReceive.ReceiveBytea` | `src/common/comm_channel.c:417-435` | what the bytea decoder makes of the stream |
| `ChannelReceive.ReceiveType` | `src/common/comm_channel.c:554-579` | what the type decoder makes of the stream, at any depth |
| `ChannelReceive.ReceiveSubTypes` | `src/common/comm_channel.c:566-570` | code 0 exactly when n types decode one after another, and then those types in order |
| `ChannelReceive.ReceiveRawObject` | `src/common/comm_channel.c:437-495` | what the value decoder makes of the stream |
| `ChannelReceive.ReceiveArray` | `src/common/comm_channel.c:497-552` | what the array decoder makes of the stream, with the int overflow of the element data made explicit |
| `ChannelReceive.ReceiveDims` | `src/common/comm_channel.c:506-513` | the dimensions, with the element count accumulated beside them and int overflow made explicit |
| `ChannelReceive.ReceiveElements` | `src/common/comm_channel.c:520-549` | code 0 exactly when n elements decode one after another, and then those elements in order |
| `ChannelReceive.ReceiveElement` | `src/common/comm_channel.c:521-548` | the element switch reads what the element decoder makes of the stream, nulls included |
| `ChannelReceive.ReceiveUdt` | `src/common/comm_channel.c:581-595` | code 0 exactly when a field of every subtype decodes, and then those fields in order |
| `ChannelReceive.ReceiveArgument` | `src/common/comm_channel.c:832-840` | name, type and value of an argument |
| `ChannelReceive.ReceiveCall` | `src/common/comm_channel.c:863-893` | what the call decoder makes of the stream |
| `ChannelReceive.ReceiveColumns` | `src/common/comm_channel.c:775-779` | column types and names come paired and in order |
| `ChannelReceive.ReceiveRows` | `src/common/comm_channel.c:782-792` | rows come in order, each cell by its column type |
| `ChannelReceive.ReceiveResult` | `src/common/comm_channel.c:744-803` | a result, or the exception that replaces it |
| `ChannelReceive.ReceiveError` | `src/common/comm_channel.c:731-742` | code 0 exactly when message and stack trace decode, and then those |
| `ChannelReceive.ReceiveLog` | `src/common/comm_channel.c:805-818` | code 0 exactly when level and text decode, and then those |
| `ChannelReceive.ReceivePing` | `src/common/comm_channel.c:842-861` | a ping, refused when its text differs |
| `ChannelReceive.ReceiveSql` | `src/common/comm_channel.c:895-912` | an SQL statement, refused for another SQL type |
| `ChannelReceive.ReceiveMessageType` | `src/common/comm_channel.c:337-345` | the next byte, or the stream untouched |
| `ChannelReceive.ReceiveMessage` | `src/common/comm_channel.c:119-158` | code 0 exactly when the decoder yields a message, and then that message and that remainder; -3 only when not even a type byte could be read |
| `TypeIO.BitTest` | `src/plc_typeio.c:398-432` | the iterator's mask test finds a null exactly when bit i mod 8 of bitmap byte i / 8 is clear |
| `TypeIO.ArrayIterator.constructor` | `src/plc_typeio.c:356-385` | the iterator starts at the first element |
| `TypeIO.ArrayIterator.Next` | `src/plc_typeio.c:398-432` | the i-th call yields null exactly when the bitmap says so, and the next packed value otherwise; bitmap, mask and data pointer advance together |
| `TypeIO.Drain` | `src/plc_typeio.c:398-432` | running the iterator to its end yields every element, in order, for any null bitmap |
| `TypeIO.FilledWell` | `src/plc_typeio.c:69-245` | every type tree filled from the catalog has the shape the conversions rely on, and rows nest one level deep; what it says of the catalog is Descriptions.FilledDescribes |
| `Descriptions.FilledDescribes` | `src/plc_typeio.c:69-245` | a type is filled if and only if the catalog has a description of it, and with exactly that one: an array with one subtype, for its element type; a row with one subtype for each attribute, in order, under its name and with its dropped flag, and where live described by its own type; any other type with its tag, named oid by oid; and an error exactly when there is no description |
| `Descriptions.RowDescribes` | `src/plc_typeio.c:170-243` | the same for composite types and record, with the stamp and name of their relation |
| `Descriptions.AttributesDescribe` | `src/plc_typeio.c:232-239` | attributes are filled in order, each under its name |
| `Descriptions.ArrayDescribes` | `src/plc_typeio.c:161-168` | an array is described by its element type |
| `Descriptions.BaseTags` | `src/plc_typeio.c:102-158` | the tag of every base type, oid by oid; all others are text |
| `Descriptions.NamesDescribe` | `src/message_fns.c:101-144` | the argument names are the declared ones, an empty one counting as none, and none can be had exactly when their number differs from that of the arguments |
| `Descriptions.BuiltDescribes` | `src/message_fns.c:80-162` | a function is described if and only if the catalog has a description of it, and by exactly that one: stamp, name, source, set flag, argument names, and the types of arguments and result |
| `TypeIO.OutMatchesType` | `src/plc_typeio.c:442-475` | the value built while skipping dropped attributes matches, field for field and at every depth, the wire type built by the other function that skips them, and lies in the codec domain |
| `TypeIO.CopyIsGood` | `src/plc_typeio.c:251-278` | the copied wire type is one the channel can carry |
| `TypeIO.CopyIsCopied` | `src/plc_typeio.c:251-278` | the wire type has the tag and name of the type, and in the place of the k-th attribute that is not dropped the copy of that attribute, at every depth |
| `TypeIO.OutIsHolding` | `src/plc_typeio.c:442-475` | the wire value holds the value: elements in order, and in the place of the k-th attribute that is not dropped the value of that attribute, at every depth |
| `TypeIn.InInvertsOut` | `src/plc_typeio.c:533-618` | with no dropped attribute the way back undoes the way out, whatever unwritten memory holds: what comes back differs from the datum in nothing but lower bounds, and every lower bound of every array in it is 1 |
| `TypeIn.InIsBasedAtOne` | `src/plc_typeio.c:533-581` | every array, at any depth, that the infuncs make has one lower bound for each dimension, and it is 1 |
| `TypeIn.RebasedIsSame` | `src/plc_typeio.c:547-549` | resetting the lower bounds to 1 changes nothing else |
| `TypeIn.RowSurvives` | `src/plc_typeio.c:583-618` | the values made of all rows of a type have their live attributes back, lower bounds of 1 apart, whatever unwritten memory holds, if and only if no dropped attribute precedes a live one |
| `TypeIn.RowIsLost` | `src/plc_typeio.c:602` | any value in the first live attribute behind a dropped one is handed to the infunc of the dropped one, and the row is lost |
| `TypeIn.WholeRowSurvives` | `src/plc_typeio.c:583-618` | a row comes back with all its slots, lower bounds of 1 apart, whatever unwritten memory holds, if and only if its type has no dropped attribute |
| `TypeIn.DroppedSlotIsJunk` | `src/plc_typeio.c:583-618` | the slot of a dropped attribute is never written |
| `TypeIn.DroppedInFrontBreaks` | `src/plc_typeio.c:602` | with a dropped attribute in front the wrong infunc is called: a concrete row of one integer that cannot come back |
| `TypeIn.ArgumentPath` | `src/plc_typeio.c:356-432` | datum to wire value to bytes to wire value to datum, for every type: what arrives differs from the datum in nothing but lower bounds, and every lower bound is 1 |
| `StoredArrays.SendElements` | `src/common/comm_channel.c:289-299` | the element loop drawing from the iterator over bitmap and packed values: code 0 exactly when no socket write failed, and then every element was appended in order |
| `StoredArrays.SendArray` | `src/common/comm_channel.c:280-304` | a stored array goes out as its wire value, whatever its null bitmap |
| `StoredArrays.SendArgument` | `src/common/comm_channel.c:599-607` | what is sent for a stored array is the encoding of its argument, and in front of any bytes it decodes to a value that becomes an array differing from it in nothing but lower bounds, which are all 1, whatever unwritten memory holds |
| `TypeIn.CopyTypeInfo` | `src/plc_typeio.c:251-278` | the two loops over attributes count and copy the same ones: the copy has the tag and name of the type, and those of each attribute that is not dropped in its place, at every depth |
| `TypeIn.CountLive` | `src/plc_typeio.c:262-266` | the counting loop yields the number of attributes that are copied, as a C short |
| `TypeIn.IterateArray` | `src/common/comm_channel.c:280-304` | what the array sender draws from the iterator is the converted elements in order |
| `TypeIn.PlcDatumAsUdt` | `src/plc_typeio.c:442-475` | the loop fills one field for each attribute that is not dropped |
| `TypeIn.PlcDatumFromArray` | `src/plc_typeio.c:533-581` | the loop converts slot by slot, nulls where the flags say so |
| `TypeIn.PlcDatumFromUdt` | `src/plc_typeio.c:583-618` | the loop over attributes and fields, with the index the code uses |
| `TypeIn.FillCallreqArguments` | `src/message_fns.c:266-285` | one argument for each declared one, in order, each with the type copied for it |
| `TypeIn.CallIsDeliverable` | `src/message_fns.c:187-201` | every call built from the catalog for arguments of the declared types is in the domain of the round trip |
| `Calls.CreatedIsCall` | `src/message_fns.c:187-201` | from catalog row and datums to request: name, source, oid, flag and set flag are those of the function; the result type is what the catalog says of prorettype; argument i has the declared name, the declared type and the value of the i-th datum |
| `Calls.ViewShowsType` | `plj-java/src/main/java/org/postgresql/plj/Type.java:65-106` | the type the JVM side sees has every tag and name in its place, at every depth |
| `Calls.ReadsWhatItHolds` | `plj-java/src/main/java/org/postgresql/plj/arg/ArrayArgument.java:16-67` | the JVM side reads the wire value if and only if it can represent the datum: no null array, one to three dimensions, shorts or ints in three, no null of a primitive type |
| `Calls.ViewShows` | `plj-java/src/main/java/org/postgresql/plj/arg/Argument.java:41-79` | the object the JVM side sees shows the datum: elements at every index, attributes in their place and under their names, at every depth |
| `Calls.ViewIsRequest` | `src/message_fns.c:187-201` | the same of the request the JVM side hands on: name, definition, oid, flags, result type, and argument by argument name, tag and value |
| `Calls.CallIsJava` | `src/message_fns.c:187-201` | a call built from the catalog can be read on the JVM side if and only if every argument has a representation there |
| `Calls.CallReachesJvm` | `plj-java/src/main/java/org/postgresql/plj/PLJVMServerDecoder.java:27-98` | from catalog and datums through the wire to the JVM: the request handed on calls the function as the catalog has it, on these arguments; or, exactly when some argument has no representation there, the decoder throws and hands on nothing |
| `Calls.RowsBearNames` | `plj-java/src/main/java/org/postgresql/plj/arg/UDTArgument.java:22-26` | in the request a row argument has one field for each attribute of its type that is not dropped, in order and under the name the catalog gives it |
| `Catalog.PlcTypeValid` | `src/message_fns.c:203-236` | the recursive loop over subtypes computes the validity test, None when a lookup raises; what the test answers is Descriptions.TypeVerdict |
| `Catalog.PlcProcedureValid` | `src/message_fns.c:241-264` | the test of stamp, result type and argument types |
| `Descriptions.ValidIffUnchanged` | `src/message_fns.c:203-264` | the validity test in terms of the catalog alone: true if and only if neither the function nor any relation its argument and result types hang on, array elements included, has been written since the description was built; an error exactly when the first of those relations that changed is gone |
| `Descriptions.TypeVerdict` | `src/message_fns.c:203-236` | the verdict on one type: true if and only if the relation it hangs on bears its old stamp, an error if and only if it is gone |
| `Descriptions.PassesAtOnce` | `src/message_fns.c:203-264` | as long as nothing is written, a description that could be built passes the test |
| `Descriptions.DependsIfItNamesRecord` | `src/plc_typeio.c:184-216` | a description depends on the calling query exactly when the function takes or returns record, or an array of it |
| `Catalog.TypeAgrees` | `src/message_fns.c:203-236` | a type that passes the test is the type that would be filled now if and only if it does not contain record or the two calling queries expect the same row |
| `Catalog.ReuseIsFresh` | `src/message_fns.c:80-167` | a cached description that passes the test equals a freshly built one if and only if it does not depend on the calling query or the two queries expect the same row: same type modifier, attributes, and relation with its stamp |
| `Catalog.RecordFollowsCall` | `src/plc_typeio.c:171-243` | two descriptions of record are equal exactly when the two row descriptions have the same type modifier, attributes, and relation with its stamp |
| `Catalog.AttributesDiffer` | `src/plc_typeio.c:232-239` | two attribute lists are described alike exactly when they agree in names, dropped flags and, where not dropped, types |
| `Catalog.ErrorIsDue` | `src/message_fns.c:203-264` | the validity test raises an error only when the function could not be described anew either |
| `Catalog.RecordReuseCanBeStale` | `src/plc_typeio.c:210-226` | for a function returning record two queries can expect different rows while the test passes |
| `FunctionCache.Cache.constructor` | `src/function_cache.c:12-13` | a new cache is empty and owns nothing |
| `FunctionCache.Cache.Up` | `src/function_cache.c:16-26` | moves one slot to the front and shifts the ones before it |
| `FunctionCache.Cache.Get` | `src/function_cache.c:28-47` | a hit returns the record of that function and moves it to slot 0, a miss changes nothing |
| `FunctionCache.Cache.PromoteEntry` | `src/function_cache.c:28-47` | promoting keeps the records and is the recency update on the list of functions |
| `FunctionCache.Cache.PutNew` | `src/function_cache.c:53-63` | the record pushed out of the last slot, and only that one, is freed |
| `FunctionCache.Cache.MoveRight` | `src/function_cache.c:59-62` | the shift that makes room in slot 0 |
| `FunctionCache.Cache.Replace` | `src/function_cache.c:64-67` | the previous record of the function, which the lookup has brought to slot 0, is freed and replaced |
| `FunctionCache.Cache.Put` | `src/function_cache.c:49-68` | records put minus records freed is always the records in the slots, none is freed twice and no cached record is freed |
| `FunctionCache.Cache.FreeProcInfo` | `src/message_fns.c:172-185` | only a record that is owned and not freed can be freed |
| `FunctionCache.Cache.GetProcInfo` | `src/message_fns.c:55-170` | an answer is owed whenever the function can be described; a cached record is reused, and then hasChanged is 0, exactly when neither the function nor a relation its types hang on has been written since the record was built; the recency list is updated; and the answer is current exactly when the reused record does not depend on a different call |
| `FunctionCache.Cache.Rebuild` | `src/message_fns.c:80-164` | a fresh record equal to what the catalog describes replaces the cached one |
| `FunctionCache.ServeOne` | `src/message_fns.c:55-170` | one request of a run: what it is answered with, the request the answer was built for, and a reuse exactly when a cached record of the function passes the validity test |
| `FunctionCache.HitIsReusable` | `src/function_cache.c:28-47` | in an error-free run a usable cached record exists exactly when the function is among the most recently requested ones and its last answer passes the test |
| `FunctionCache.ReusableIffCurrent` | `src/message_fns.c:238-264` | the last answer passes the test exactly when nothing it hangs on has been written since it was built |
| `FunctionCache.Serve` | `src/message_fns.c:55-170` | any interleaving of catalog changes and requests: every function that can be described is answered; each answer was built for an earlier or this request and its flag says which; it is current exactly when it does not depend on the calling query or the two queries expect the same row; without errors the flag is 0 exactly when the function is among the most recently requested ones and neither it nor a relation its types hang on has been written since its last answer was built; and the cache is the recency list of the requests |
| `FunctionCache.TouchKeepsLru` | `src/function_cache.c:16-68` | one request keeps the characterisation of the cache |
| `FunctionCache.RecentIsLru` | `src/function_cache.c:16-68` | after any history the cache holds exactly the most recently requested distinct functions, in recency order |
| `FunctionCache.RecentSize` | `src/function_cache.c:16-68` | it holds min(5, number of distinct functions requested) of them |
| `Ownership.Heap.Free` | `src/common/comm_messages.c:35-46` | only a live block can be released |
| `Ownership.ValueReleased` | `src/common/comm_messages.c:155-208` | the free routines release exactly the blocks of a value, each once, if and only if no row lies directly in a row and no pointer of a field is NULL; otherwise rows leak or a NULL is freed |
| `Ownership.ArrayReleased` | `src/common/comm_messages.c:155-183` | the same for arrays, whose slots may be rows |
| `Ownership.RowReleased` | `src/common/comm_messages.c:194-208` | the same for rows |
| `Ownership.FieldsReleased` | `src/common/comm_messages.c:194-208` | the same for the fields of a row |
| `OwnershipRuns.FreeType` | `src/common/comm_messages.c:35-46` | releases name, subtypes and subtype block, each once |
| `OwnershipRuns.FreeArray` | `src/common/comm_messages.c:155-183` | releases slots, data, nulls, dimensions, meta and array |
| `OwnershipRuns.FreeRow` | `src/common/comm_messages.c:194-208` | releases the fields, their block and the row |
| `OwnershipRuns.FreeValue` | `src/common/comm_messages.c:60-76` | releases an argument or a cell |
| `OwnershipRuns.AllocType` | `src/common/comm_channel.c:554-579` | receiving a type allocates exactly a block for each name and for each list of subtypes, at every depth, and leaves them in that shape |
| `OwnershipRuns.AllocRaw` | `src/common/comm_channel.c:437-495` | receiving a value allocates exactly the blocks of its parts: none for a null, one for a scalar, a text or a byte array, and those of arrays and rows, in the shape of the value |
| `OwnershipRuns.AllocArray` | `src/common/comm_channel.c:497-552` | receiving an array allocates exactly its header, the data and null flags if it has elements, and the blocks of the elements that are not scalars |
| `OwnershipRuns.AllocHeader` | `src/common/comm_messages.c:143-153` | an array header takes two blocks, and one for the dimensions exactly when there are any |
| `OwnershipRuns.AllocSlots` | `src/common/comm_channel.c:520-549` | receiving the elements allocates exactly the blocks of those that are not scalars, slot for slot |
| `OwnershipRuns.AllocFields` | `src/common/comm_channel.c:588-591` | receiving the fields allocates exactly the blocks of each, field for field |
| `OwnershipRuns.AllocUdt` | `src/common/comm_channel.c:581-595` | receiving a row allocates exactly two blocks and those of its fields, in the shape of the row |
| `OwnershipMessages.FreeCallreq` | `src/common/comm_messages.c:48-84` | releases every block of a call request, once |
| `OwnershipMessages.AllocCall` | `src/common/comm_channel.c:863-893` | receiving a call allocates exactly the request, its strings, its types, the argument array and the blocks of each argument, in the shape of the message |
| `OwnershipMessages.ReceiveAndFreeCall` | `src/common/comm_messages.c:48-84` | every block the call takes is allocated, as many as counted from the message, and freeing leaves the live blocks as they were |
| `OwnershipMessages.FreeResult` | `src/common/comm_messages.c:86-129` | releases every block of a result, once |
| `OwnershipMessages.AllocResult` | `src/common/comm_channel.c:744-803` | receiving a result allocates exactly its frame, its columns and its rows, in the shape of the message |
| `OwnershipMessages.AllocColumns` | `src/common/comm_channel.c:773-779` | a block for each column name there is, and those of each column type |
| `OwnershipMessages.AllocRows` | `src/common/comm_channel.c:782-792` | a block for each row that has cells, and those of each cell |
| `OwnershipMessages.FreeError` | `src/common/comm_messages.c:131-141` | releases an exception |
| `OwnershipMessages.AllocError` | `src/common/comm_channel.c:731-742` | receiving an exception allocates exactly the message and a block for each string there is |
| `OwnershipMessages.ReceiveAndFreeResult` | `src/common/comm_messages.c:86-129` | every block the result takes is allocated, as many as counted from the message, and freeing leaves the live blocks as they were, also when an exception replaces the result |
| `RequestAgreement.StringAgrees` | `plj-java/src/main/java/org/postgresql/plj/util/Util.java:13-25` | a string written by the backend is read as itself; NULL and empty become one |
| `RequestAgreement.TypeAgrees` | `plj-java/src/main/java/org/postgresql/plj/Type.java:65-107` | a type tree is read as itself if its data types are known at every depth; otherwise reading throws |
| `RequestAgreement.TypedAgrees` | `plj-java/src/main/java/org/postgresql/plj/arg/Argument.java:41-79` | a value is read as itself, and nothing after it is touched, if and only if the JVM side can represent it; otherwise reading throws |
| `RequestAgreement.ArrayAgrees` | `plj-java/src/main/java/org/postgresql/plj/arg/ArrayArgument.java:16-67` | an array is read as itself exactly for one to three non-negative dimensions and elements that can be stored |
| `RequestAgreement.NestedAgrees` | `plj-java/src/main/java/org/postgresql/plj/arg/ArrayArgument.java:32-59` | the nested loops rebuild the array from the flat element list |
| `RequestAgreement.RepeatedAgrees` | `plj-java/src/main/java/org/postgresql/plj/arg/ArrayArgument.java:32-59` | one loop over rows takes the elements of each row in turn |
| `RequestAgreement.NestIsRowMajor` | `plj-java/src/main/java/org/postgresql/plj/arg/ArrayArgument.java:32-59` | the element at an index of the rebuilt array is the one at its row-major offset in the flat list |
| `RequestAgreement.FieldsAgree` | `plj-java/src/main/java/org/postgresql/plj/arg/UDTArgument.java:16-32` | the fields of a row are read in order, each by its own type and under its name |
| `RequestAgreement.ArgumentAgrees` | `plj-java/src/main/java/org/postgresql/plj/arg/Argument.java:23-40` | name, type and value of an argument agree |
| `RequestAgreement.ArgumentsAgree` | `plj-java/src/main/java/org/postgresql/plj/PLJVMServerDecoder.java:78-94` | the arguments of a call are collected in order and the request is handed on after the last |
| `RequestAgreement.SpentReadsNothing` | `plj-java/src/main/java/org/postgresql/plj/PLJVMServerDecoder.java:78-94` | once a request with arguments has been handed on, no later byte is ever read |
| `RequestAgreement.HeadAgrees` | `plj-java/src/main/java/org/postgresql/plj/PLJVMServerDecoder.java:32-59` | the states from WAITING to HAS_CHANGED read name, definition, oid and flag of the call |
| `RequestAgreement.TailAgrees` | `plj-java/src/main/java/org/postgresql/plj/PLJVMServerDecoder.java:60-67` | the states RETURN_TYPE and SET_RETURNING read type and flag of the call |
| `RequestAgreement.CountAgrees` | `plj-java/src/main/java/org/postgresql/plj/PLJVMServerDecoder.java:68-94` | from the argument count on: the request with exactly its arguments, or an exception and no request |
| `RequestAgreement.RequestAgrees` | `plj-java/src/main/java/org/postgresql/plj/PLJVMServerDecoder.java:27-98` | a buffered call makes the decoder hand on exactly one request, the equal one, if and only if the JVM side can read it; a call without arguments leaves it waiting for the next, one with arguments leaves it stuck |
| `RequestAgreement.RequestsAgree` | `plj-java/src/main/java/org/postgresql/plj/PLJVMServerDecoder.java:27-98` | a stream of calls without arguments becomes the same requests in order with no byte over |
| `RequestAgreement.LengthIsForgotten` | `plj-java/src/main/java/org/postgresql/plj/util/Util.java:13-25` | a buffer that ends between the length and the body of a name leaves the decoder as if the length had never come |
| `Shapes.OffsetInRange` | `plj-java/src/main/java/org/postgresql/plj/arg/ArrayArgument.java:32-59` | a row-major offset lies inside the flat list |
| `JavaReader.UtilReadString` | `plj-java/src/main/java/org/postgresql/plj/util/Util.java:13-25` | does what its function says, including the length consumed when the body is missing |
| `JavaReader.TypeGetInstance` | `plj-java/src/main/java/org/postgresql/plj/Type.java:65-107` | the recursive reader ends with the type, null or exception its function says, and leaves the reader index there |
| `JavaReader.TypeSubTypes` | `plj-java/src/main/java/org/postgresql/plj/Type.java:99-104` | n types in order, or the null or exception of the first that fails, with the reader index there |
| `JavaReader.ScalarGetInstance` | `plj-java/src/main/java/org/postgresql/plj/arg/BoolArgument.java:14-26` | reads a value behind its null flag; a null result stands for missing bytes |
| `JavaReader.StringGetInstance` | `plj-java/src/main/java/org/postgresql/plj/arg/StringArgument.java:16-32` | reads a string behind its null flag |
| `JavaReader.ByteArrayGetInstance` | `plj-java/src/main/java/org/postgresql/plj/arg/ByteArrayArgument.java:13-31` | reads a byte array behind its null flag, its length unguarded |
| `JavaReader.ReadArgumentOfType` | `plj-java/src/main/java/org/postgresql/plj/arg/Argument.java:41-79` | dispatches on the type and dereferences the result |
| `JavaReader.UdtGetInstance` | `plj-java/src/main/java/org/postgresql/plj/arg/UDTArgument.java:16-32` | fills the argument array field by field |
| `JavaReader.ArrayGetInstance` | `plj-java/src/main/java/org/postgresql/plj/arg/ArrayArgument.java:16-67` | reads dimensions and elements; any other number of dimensions ends in an exception |
| `JavaReader.ReadDimensions` | `plj-java/src/main/java/org/postgresql/plj/arg/ArrayArgument.java:25-30` | the dimensions in order, or an exception when bytes are missing |
| `JavaReader.ReadVector` | `plj-java/src/main/java/org/postgresql/plj/arg/ArrayArgument.java:33-37` | one dimension: sets the elements in place, in order |
| `JavaReader.ReadMatrix` | `plj-java/src/main/java/org/postgresql/plj/arg/ArrayArgument.java:38-46` | two dimensions: the rows in order |
| `JavaReader.ReadCube` | `plj-java/src/main/java/org/postgresql/plj/arg/ArrayArgument.java:47-59` | three dimensions: the planes in order |
| `JavaReader.ArgumentReadArgument` | `plj-java/src/main/java/org/postgresql/plj/arg/Argument.java:23-40` | an argument, or null when name or type are cut short |
| `JavaReader.Decoder.constructor` | `plj-java/src/main/java/org/postgresql/plj/PLJVMServerDecoder.java:21-23` | the decoder starts in WAITING |
| `JavaReader.Decoder.Decode` | `plj-java/src/main/java/org/postgresql/plj/PLJVMServerDecoder.java:27-98` | one call of decode changes state, request and reader index exactly as the transition function says |
| `JavaReader.Decoder.DecodeArgument` | `plj-java/src/main/java/org/postgresql/plj/PLJVMServerDecoder.java:78-94` | an argument cut short is left in the buffer, a complete one is added |
| `JavaReader.Decoder.Run` | `plj-java/src/main/java/org/postgresql/plj/PLJVMServerDecoder.java:27-98` | decoding a buffer to its end yields exactly the requests of the run |
| `ResponseAgreement.BytesPerUnit` | `plj-java/src/main/java/org/postgresql/plj/PLJVMServerEncoder.java:167-174` | a string never has fewer bytes than units, and as many exactly when every unit is ASCII or an unpaired surrogate |
| `ResponseAgreement.StringFraming` | `plj-java/src/main/java/org/postgresql/plj/PLJVMServerEncoder.java:167-174` | the backend takes as many bytes as the string has units, up to the first zero: the frame is kept if and only if every unit became one byte, and the string arrives as itself if and only if besides it holds no U+0000 |
| `ResponseAgreement.AsciiIsItself` | `plj-java/src/main/java/org/postgresql/plj/PLJVMServerEncoder.java:167-174` | an ASCII string is one byte for each unit, with the same values |
| `ResponseAgreement.ZeroBytes` | `plj-java/src/main/java/org/postgresql/plj/PLJVMServerEncoder.java:167-174` | a zero byte comes from U+0000 only |
| `ResponseAgreement.Utf8Back` | `plj-java/src/main/java/org/postgresql/plj/PLJVMServerEncoder.java:167-174` | the bytes written of a string decode as UTF-8 to that string, with a question mark for each unpaired surrogate |
| `ResponseAgreement.TypeSent` | `plj-java/src/main/java/org/postgresql/plj/PLJVMServerEncoder.java:181-193` | a type with at most one level of subtypes is written as the backend would write it |
| `ResponseAgreement.UdtTypeIsMisread` | `plj-java/src/main/java/org/postgresql/plj/PLJVMServerEncoder.java:181-193` | a row type without subtypes is always misread: the backend takes at least two bytes of what follows for the missing count |
| `ResponseAgreement.FlatSent` | `plj-java/src/main/java/org/postgresql/plj/PLJVMServerEncoder.java:152-160` | the flat writer sends the leaves in order, each as an element |
| `ResponseAgreement.LeavesOfRect` | `plj-java/src/main/java/org/postgresql/plj/PLJVMServerEncoder.java:152-160` | a rectangular array has as many leaves as the product of its dimensions |
| `ResponseAgreement.LeavesAreRowMajor` | `plj-java/src/main/java/org/postgresql/plj/PLJVMServerEncoder.java:152-160` | the leaf at a row-major offset is the element at that index |
| `ResponseAgreement.DimensionsOfRect` | `plj-java/src/main/java/org/postgresql/plj/PLJVMServerEncoder.java:112-127` | the dimensions found down the first elements are those of the rectangular array |
| `ResponseAgreement.ArraySent` | `plj-java/src/main/java/org/postgresql/plj/PLJVMServerEncoder.java:134-144` | an array is written as the backend would write it |
| `ResponseAgreement.CellSent` | `plj-java/src/main/java/org/postgresql/plj/PLJVMServerEncoder.java:69-110` | a cell is written as the backend would write its value |
| `ResponseAgreement.ColumnsSent` | `plj-java/src/main/java/org/postgresql/plj/PLJVMServerEncoder.java:52-57` | every column goes out as the backend would write it: its type, then its own name |
| `ResponseAgreement.RowsSent` | `plj-java/src/main/java/org/postgresql/plj/PLJVMServerEncoder.java:60-65` | rows and cells go out in the order and form the backend would use |
| `ResponseAgreement.ResponseSent` | `plj-java/src/main/java/org/postgresql/plj/PLJVMServerEncoder.java:46-67` | the bytes of a response are the bytes the backend would have written for the same message |
| `ResponseAgreement.ResponseAgrees` | `plj-java/src/main/java/org/postgresql/plj/PLJVMServerEncoder.java:17-67` | the backend decodes a result, log or exception response whose strings arrive as themselves as the message it stands for, and not a byte more |
| `ResponseAgreement.ReturnAgrees` | `plj-java/src/main/java/org/postgresql/plj/JVMCallHandler.java:128-139` | a returned null, number, string that arrives as itself, byte array or rectangular primitive array arrives as one row of one column of that type and value |
| `ResponseAgreement.ReturnedTypeIs` | `plj-java/src/main/java/org/postgresql/plj/Type.java:108-146` | the column has the tag and name of the class of the result, and for an array one subtype with those of its elements |
| `JavaWriter.WriteString` | `plj-java/src/main/java/org/postgresql/plj/PLJVMServerEncoder.java:167-174` | writes length in units and bytes, or -1 |
| `JavaWriter.WriteType` | `plj-java/src/main/java/org/postgresql/plj/PLJVMServerEncoder.java:181-193` | tag, name and, only when there are subtypes, their count and one level of them |
| `JavaWriter.GetDimensions` | `plj-java/src/main/java/org/postgresql/plj/PLJVMServerEncoder.java:112-127` | the loop down the first elements finds the dimensions, a byte array counting as one, or throws on an empty or null array |
| `JavaWriter.WriteObject` | `plj-java/src/main/java/org/postgresql/plj/PLJVMServerEncoder.java:69-110` | the value behind its null flag; a wrong class throws |
| `JavaWriter.WriteArray` | `plj-java/src/main/java/org/postgresql/plj/PLJVMServerEncoder.java:134-144` | the dimensions found, then every leaf in order; a null or empty array on the way throws |
| `JavaWriter.WriteArrayFlat` | `plj-java/src/main/java/org/postgresql/plj/PLJVMServerEncoder.java:152-160` | every leaf in order behind its flag; a null inside the array throws |
| `JavaWriter.WriteOthers` | `plj-java/src/main/java/org/postgresql/plj/PLJVMServerEncoder.java:152-160` | the boxed bytes of a byte array under another element type, or the exception their cast throws |
| `JavaWriter.WriteColumns` | `plj-java/src/main/java/org/postgresql/plj/PLJVMServerEncoder.java:52-57` | every column type with its own name; a null name throws |
| `JavaWriter.WriteRow` | `plj-java/src/main/java/org/postgresql/plj/PLJVMServerEncoder.java:61-64` | the cells in order, each by its column type, or an exception of the first that throws |
| `JavaWriter.WriteRows` | `plj-java/src/main/java/org/postgresql/plj/PLJVMServerEncoder.java:60-65` | the rows in order |
| `JavaWriter.SendCallResponse` | `plj-java/src/main/java/org/postgresql/plj/PLJVMServerEncoder.java:46-67` | exactly the bytes of the call response after those already written, or an exception |
| `JavaWriter.Encode` | `plj-java/src/main/java/org/postgresql/plj/PLJVMServerEncoder.java:17-44` | the response by its kind, or an exception and no response |

## Left out

- Socket creation, connect, poll, timeouts, EINTR and disconnect (`src/common/comm_connectivity.c`): input and output; the model keeps "moves 1..len bytes or fails".
- Memory exhaustion: allocations are taken to succeed, as the code takes them to. In the backend an allocation above 1 GB - 1 is refused whatever memory is free, so there the bounds up to INT_MAX (`ShortString`, `DataFits`, `MAX_APPEND`, `MAX_READ`) are reached by that refusal first; they are the limits of the standalone build.
- TypeIn.RowSurvives: what heap_form_tuple does with the unwritten value and null flag of a dropped slot is not followed; for a type passed by reference it may follow a pointer nobody wrote.
- The call handler, `src/common/comm_server.c`, and SQL execution in `src/sqlhandler.c`: SPI, memory contexts and error jumps.
- PostgreSQL internals: array and tuple storage beyond the null bitmap and the order of the packed values (alignment, headers), text, bytea and numeric input and output functions.
- Numeric columns: the backend carries them as float8, with the loss of precision that brings; floats are byte patterns here.
- Signed 32-bit overflow where it is not stated: it is modelled for buffer resizing, string, array and subtype counts, but `4 * ndims` at `ArrayArgument.java:25`, for one, is exact here.
- Big-endian hosts: the backend copies integers out of memory, the JVM reads and writes little-endian.
- Negative string and byte array lengths below -1, and negative column or argument counts, on the backend: no defined meaning in C, hence `Bad`.
- Variables a failed read leaves unset are arbitrary in the model; what the code goes on to do with them after a failure is not followed beyond the return code and the byte stream.
- Java charsets other than UTF-8, and the decoding of request strings to UTF-16: request strings are carried as their bytes.
- Java reflection: finding and running the method (`JVMCallHandler.java:73-84`); its result is a parameter of `RemoteCall.Call`.
- Java arrays of boxed types and of strings as results: the handler finds no type for them (`JavaResponses.TypeOf`) and answers with an exception; arrays of byte arrays are not represented.
- The position of the reader index after an exception in the JVM's decoder: the connection is closed.
- Log levels, debug printing, getters and setters.
- RequestAgreement.RequestAgrees: fragmented requests are outside it, because the decoder mishandles them (`LengthIsForgotten`).
- RequestAgreement.RequestsAgree: only calls without arguments, because after one with arguments the decoder reads nothing (`RequestAgrees`).
- ResponseAgreement.ArraySent: arrays whose leaf count differs from the product of their dimensions are outside it; rectangular arrays never are (`LeavesOfRect`).
- OwnershipMessages.ReceiveAndFreeCall: needs a name and a source, which the code frees without looking, and no row directly inside a row (`ValueReleased`).
- FunctionCache.Cache.FreeProcInfo: tracks the record only, not its argument names and type trees; the name, source and result type it owns are leaked by the code.
- ChannelSend.SendRawArrayIter: takes the elements as a sequence; `StoredArrays.SendElements` draws them from the iterator. Freeing each element after it is sent is not followed.
- JavaReader.UtilReadString: yields the bytes of the string, not the characters they decode to.
- JavaReader.StringGetInstance: yields the bytes of the string, not the characters they decode to.
- TypeIn.CallIsDeliverable: PostgreSQL's own limits are assumed: names under 64 bytes, 1600 attributes, arrays of at most a gigabyte of datums, and no zero byte in names, sources and texts.
- Catalog.ReuseIsFresh: rows of pg_type are taken not to change while a description is cached, as the validity test does not look at them.
- Invocation.Invoke: functions that take or return record are outside it; for them `Catalog.ReuseIsFresh` says when a reused description is current. The answer is one result: log and SQL messages before it, and the rows of a set-returning function, are not followed.
