# Verified model of chlibs

chlibs is a set of C libraries: a typed binary codec, message channels and an RPC client and server (`chrpc`), the data
structures under them (`chutil`), and a JSON printer and parser (`chjson`). This project models the parts with the most
state, arithmetic and interleaving, in Dafny, and proves what they promise. `dafny verify dfyconfig.toml` checks everything.

## What is modelled

**The codec** (`SerialType`, `SerialValue`, `SerialLaws`, `SerialTheorems`, `SerialStatuses`, `SerialNumbers`,
`SerialGrammar`, `SerialStrays`, `SerialBuffer`, `SerialReader`, over `Bytes` and `Memory`). Types and values have a
wire form given by functions; the C routines that write into a buffer and read from one are methods proved against it,
together with the number of heap blocks they leave allocated. Numbers are raw bytes, as the code copies them;
`SerialNumbers` says which integers they are. A string is kept as the *block* of bytes it is stored in, because the
decoder copies whatever arrives and does not look for a terminator, while the encoder and the comparison stop at the
first NUL. That is why a decoded value is not always written back as the bytes it came from; the model says exactly
when it is. Deleting a value looks for the NUL as well, in a block that may have none; `Memory` counts the reads that
leave their block, and the model says exactly which inputs cause them.

**Channels** (`Queue`, `Framing`, `Channel`, `ChannelFd`, `ChannelLocal`). The file-descriptor channel is a resumable
decoder fed with arbitrary chunks. `Framing` is a one-byte-at-a-time automaton; the chunk routine is proved to leave
the state and the queue that running the automaton over the whole stream leaves, however it was cut.

**RPC** (`WorkerPool`, `Pipe`, `RpcMessages`, `RpcTheorems`, `RpcStrangers`, `RpcServer`, `RpcClient`, `RpcSystem`,
`RpcLiveness`, `RpcUnfailing`). The worker pool is a transition system whose actions are the critical sections of the
server. `Expected` says, without messages, what a caller is owed; `Handle` and `ClientDecode` say what the two sides
make of real bytes. `RpcSystem` puts clients, channels and the pool together, step by step, in every interleaving,
over mailboxes and over framed wires that are read in any chunks (`Pipe`). `RpcLiveness` and `RpcUnfailing` say that
the system gets somewhere: open calls can be answered, and only failures, impatient clients and endpoints end
connections. Endpoint functions are uninterpreted.

**Data structures** (`HashMap`, `CowString`, `Heap`). Each is a class whose methods are proved against a value: a
finite map, the text every handle reads as, a multiset of cells in heap order.

**JSON** (`Json`, `JsonLexis`, `JsonStrings`, `JsonEquality`, `JsonTheorems`, `JsonCount`, `JsonRoundTrip`,
`JsonOwnership`, `JsonLayout`, `JsonParser`, `JsonPrinter`). The printer and the recursive-descent parser are methods
proved against functions, and the functions are proved to undo each other exactly where they do. The parser's methods
also say what they leave allocated. Printing a number and reading one are parameters.

## Where the code differs from what it says, or surprises

- The header of the codec says that the length before a string is `strlen`; the code writes `strlen` plus one
  (chrpc/src/serial_value.c:141). The model follows the code.
- Decoding and encoding again is not always the identity: a string with bytes behind its NUL comes back shorter
  (`SerialTheorems.ReencodeCanDiffer`). It is the identity exactly when every string block ends at its first NUL
  (`SerialTheorems.ReencodeExact`).
- Deleting a decoded string looks for its NUL before it frees the block (chrpc/src/serial_value.c:140-141, 155-166),
  although the decoder has not made sure that there is one, and an empty string is stored as NULL. So a failing decode
  can read outside a block while it cleans up (`SerialStrays.FailureCanStray`, eight bytes), and the server can after
  it has answered (`RpcTheorems.RequestCanStray`, fourteen bytes). Exactly which inputs do is in the contracts of
  `SerialReader.ReadAndDelete`, `RpcServer.HandleMessage` and `RpcClient.RpcClient.DecodeResponse`; nothing that this
  library encodes does, whole or cut short.
- A frame whose length is over the limit is dropped without consuming the byte that follows its header, so that byte
  may start the next frame; a wrong last byte is consumed.
- The JSON parser has no case for an escaped quote (chjson/src/parser.c:141-206), which the printer writes: a printed
  string with a quote in it is a syntax error. Control characters without an escape are dropped by the printer. Keys
  are printed without any escape (chjson/src/json_helpers.c:110-112), so a key with a quote can come back as other
  members. The exact conditions are in `JsonStrings.StringRoundTrip`, `JsonStrings.KeyRoundTrip` and
  `JsonRoundTrip.RoundTrip`.
- An object that repeats a key overwrites its old value without deleting it, and forgets the new key
  (chjson/src/parser.c:422-436). `JsonOwnership.Conservation` says how much is lost of any text, and that nothing is
  lost exactly when no object of the text, as far as it is read, has a key twice; `JsonOwnership.RepeatedKeyIsLost`
  gives a family that loses.

## Model

| member | source | states |
|---|---|---|
| Bytes.ReadBackU32 | chrpc/src/serial_value.c:749-757 | a stored 32-bit length is read back as its value modulo 2^32, whatever follows it |
| Bytes.WriteBackU32 | chrpc/src/serial_value.c:930-936 | storing a length that was read gives the four bytes it was read from |
| Memory.CopyInto | chrpc/src/serial_value.c:763-766 | the bytes lie at the position asked for, and every other byte of the buffer is as before |
| Memory.Mem.Malloc | chsys/src/mem.c:9-21 | an allocation of zero bytes counts as no block, any other as one |
| Memory.Mem.Free | chsys/src/mem.c:41-48 | freeing NULL changes no count, freeing a block takes one off |
| Memory.Mem.StrLen | chrpc/src/serial_value.c:140-141 | looking for a NUL leaves the block exactly when it has none, and that is counted |
| SerialType.TypeRoundTrip | chrpc/src/serial_type.c:145-281 | decoding the encoding of any well-formed type, with anything behind it, gives that type and uses exactly the encoding |
| SerialType.DecTypeSound | chrpc/src/serial_type.c:203-281 | whatever decodes is well formed, and encodes to exactly the bytes used |
| SerialType.TypeTruncated | chrpc/src/serial_type.c:203-281 | every proper prefix of a type's encoding is an unexpected end, never another status |
| SerialType.TypeEquals | chrpc/src/serial_type.c:306-337 | answers whether the two types are the same |
| SerialType.TypeToBuffer | chrpc/src/serial_type.c:145-201 | succeeds exactly when the encoding fits, writes exactly it, and touches nothing before or behind |
| SerialType.FieldTypesToBuffer | chrpc/src/serial_type.c:185-200 | the loop over field types: exact fit, exact bytes, nothing else touched |
| SerialType.DeleteType | chrpc/src/serial_type.c:126-143 | gives back exactly the blocks a type owns; the primitive types own none |
| SerialType.TypeFromBuffer | chrpc/src/serial_type.c:203-281 | decodes as specified; after a failure nothing more is allocated than before, after a success exactly the type's blocks |
| SerialType.FieldTypesFromBuffer | chrpc/src/serial_type.c:251-274 | the loop over fields: on a failing field the ones before it and the array are released |
| SerialLaws.FlatRoundTrip | chrpc/src/serial_value.c:907-1192 | decoding a value written with whole blocks gives it back with any suffix |
| SerialLaws.DecSound | chrpc/src/serial_value.c:907-1192 | whatever decodes has the layout its type says, and its blocks are exactly the bytes used |
| SerialLaws.FlatTruncated | chrpc/src/serial_value.c:907-1192 | every proper prefix of a value's bytes is an unexpected end |
| SerialTheorems.ValueRoundTrip | chrpc/src/serial_value.c:857-872 | the round trip of a typed value with any suffix; strings come back ending at their NUL |
| SerialTheorems.WholeRoundTrip | chrpc/src/serial_value.c:1194-1217 | the round trip for values as a decoder leaves them, blocks whole |
| SerialTheorems.DecodedIsWhatWasThere | chrpc/src/serial_value.c:1194-1217 | a decoded value is well formed and its whole-block form is exactly the bytes consumed |
| SerialTheorems.SuffixIrrelevant | chrpc/src/rpc_client.c:194-194 | decoding with stale bytes behind a message gives what decoding the message alone gives |
| SerialTheorems.TruncationDetected | chrpc/src/serial_value.c:907-1217 | any message that decodes, cut anywhere, is an unexpected end |
| SerialTheorems.EncodingTruncated | chrpc/src/serial_value.c:857-872 | the same for any prefix of the encoding of any valid value, type part included |
| SerialTheorems.ReencodeExact | chrpc/src/serial_value.c:925-956 | encoding a decoded value reproduces the bytes consumed exactly when every string block ends at its first NUL |
| SerialTheorems.ReencodeCanDiffer | chrpc/src/serial_value.c:925-956 | eight bytes that decode and are encoded again as seven |
| SerialTheorems.ReencodeStringFree | chrpc/src/serial_value.c:907-1192 | for types without strings the encoding is canonical |
| SerialTheorems.EncodingPrefixFree | chrpc/src/serial_value.c:668-742 | no encoding is a prefix of another value's; equal bytes and equal values are the same thing |
| SerialTheorems.SizeBounds | chrpc/src/serial_value.c:771-855 | every value takes at least one byte and holds no array longer than the bytes it takes |
| SerialTheorems.DecoderTotal | chrpc/src/serial_value.c:1194-1217 | decoding any bytes ends in a well-formed value within the input or in one of four statuses |
| SerialStatuses.EndExactly | chrpc/src/serial_type.c:203-281 | a type's decoding fails with an unexpected end exactly when some longer input decodes |
| SerialStatuses.NextByte | chrpc/src/serial_type.c:203-281 | behind anything that can still become a type either the twelve identifiers can follow, or the counts 1 to 64 |
| SerialStatuses.StatusExactly | chrpc/src/serial_type.c:203-281 | any other failure is told by the first byte that nothing can go on with: an empty struct, a syntax error, or too large a struct |
| SerialStatuses.ValueEndExactly | chrpc/src/serial_value.c:907-1217 | a failing decode of a whole value is an unexpected end exactly when some longer input decodes |
| SerialNumbers.Widths | chrpc/src/serial_value.c:31-48 | each integer type takes as many bytes as its C type has values to tell apart; the floating-point types take four and eight |
| SerialNumbers.IntRoundTrip | chrpc/src/serial_value.c:907-922 | every integer of a type's range, sent as its little-endian bytes, is decoded as that integer from exactly one byte more than its width, whatever follows |
| SerialNumbers.DecodedInRange | chrpc/src/serial_value.c:907-922 | whatever number decodes is an integer of its type's range whose bytes are those it came from |
| SerialNumbers.IntsRoundTrip | chrpc/src/serial_value.c:71-110 | an array of integers travels as a block of such cells behind its length, and each cell is the integer it was |
| SerialNumbers.U32IsLittle | chrpc/include/chrpc/serial_type.h:23-23 | the 32-bit lengths are little-endian |
| SerialStrays.EncodedInside | chrpc/src/serial_value.c:155-220 | decoding and deleting an encoding, with anything behind it, reads no string outside its block |
| SerialStrays.CutInside | chrpc/src/serial_value.c:1020-1164 | nor does the clean-up after an encoding that is cut short anywhere |
| SerialStrays.StringFreeInside | chrpc/src/serial_value.c:155-171 | nor does any input of a type without strings |
| SerialStrays.FailureCanStray | chrpc/src/serial_value.c:1044-1051 | eight bytes whose failing decode looks for a NUL in an empty block |
| SerialGrammar.GrammarAgrees | chrpc/include/chrpc/serial_value.h:216-221 | the encoder, fast path included, writes what the recursive grammar says of the value's meaning |
| SerialGrammar.ChopSerial | chrpc/src/serial_value.c:13-24 | one copy of a dense block is the cell-by-cell serialisation of its cells |
| SerialGrammar.SameIffSameMeaning | chrpc/src/serial_value.c:668-742 | two values of one type are equal exactly when they mean the same, memory layout aside |
| SerialBuffer.StrSize | chrpc/src/serial_value.c:140-141 | finds the end of a C string: the bytes counted are the string with its NUL |
| SerialBuffer.BlockToBuffer | chrpc/src/serial_value.c:746-769 | writes a block, with its length or without, if it fits exactly or better; nothing else is touched |
| SerialBuffer.InnerToBuffer | chrpc/src/serial_value.c:771-855 | succeeds exactly when the encoding fits, reports its size, writes it, and changes no byte outside it |
| SerialBuffer.EntriesToBuffer | chrpc/src/serial_value.c:789-854 | the loop over struct fields and composite cells: exact fit, exact bytes |
| SerialBuffer.StrsToBuffer | chrpc/src/serial_value.c:821-840 | the loop over a string array: each string with its own length, cut at its NUL |
| SerialBuffer.ValueToBuffer | chrpc/src/serial_value.c:857-872 | type and value behind one another, or too small a buffer reported |
| SerialBuffer.ValueToBufferWithLength | chrpc/src/serial_value.c:874-904 | the encoding behind its length; NULL is length zero and no bytes |
| SerialReader.DeleteInner | chrpc/src/serial_value.c:155-220 | looks through each string outside an array of strings, and leaves as many blocks as have no NUL; if none, gives back exactly the blocks the value owns |
| SerialReader.DeleteValue | chrpc/src/serial_value.c:231-235 | the same for the value with its type and its pair |
| SerialReader.BlockFromBuffer | chrpc/src/serial_value.c:925-956 | reads a length and that many cells; allocates only when all are there |
| SerialReader.InnerFromBuffer | chrpc/src/serial_value.c:1166-1192 | decodes as specified; looks through exactly the strings that a failure undoes, and if they all have a NUL a failure leaves the allocation count as it was |
| SerialReader.EntriesFromBuffer | chrpc/src/serial_value.c:1020-1164 | the loops of structs and composite arrays; what was built before a failure is deleted, with the same reads and the same balance |
| SerialReader.StrsFromBuffer | chrpc/src/serial_value.c:1065-1115 | the loop of string arrays, with the same clean-up |
| SerialReader.ValueFromBuffer | chrpc/src/serial_value.c:1194-1217 | decodes as specified; if what a failure undoes has its NULs, a failure leaves nothing behind, and a success exactly what deletion gives back |
| SerialReader.ReadAndDelete | chrpc/src/rpc_server.c:404-416 | decoding and deleting stays inside its blocks exactly when each string looked through has a NUL, and then leaves nothing allocated |
| SerialReader.InnerEquals | chrpc/src/serial_value.c:668-726 | answers whether two values agree with strings cut at their NUL |
| SerialReader.ValueEquals | chrpc/src/serial_value.c:728-742 | true exactly when the two values have the same bytes on the wire, NULL having none |
| Queue.Queue.Push | chutil/src/queue.c:29-41 | appends to the contents, or refuses and changes nothing when full |
| Queue.Queue.Poll | chutil/src/queue.c:43-62 | takes the first of the contents, around the end of the ring |
| Framing.RunConcat | chrpc/src/channel_fd.c:307-312 | running two pieces of a stream is running them joined |
| Framing.ChunkIndependence | chrpc/src/channel_fd.c:307-312 | every way of cutting a stream into chunks leaves the same decoder state and the same queue |
| Framing.FrameRun | chrpc/src/channel_fd.c:172-290 | a frame delivers its payload, whatever bytes it holds, if its last byte is right, and nothing otherwise |
| Framing.OverflowPolicy | chrpc/src/channel_fd.c:271-287 | delivering any run of messages keeps the first that fit, or the last ones when writing over |
| Framing.StreamDelivers | chrpc/src/channel_fd.c:142-290 | a stream of frames, with junk, damaged and too long frames between, in any chunking, delivers exactly the whole non-empty messages in order |
| ChannelFd.ChannelFd.Send | chrpc/src/channel_fd.c:128-169 | writes one frame or nothing; of a short write the bytes taken are on the wire, and the descriptor is closed for good |
| ChannelFd.ChannelFd.FindStart | chrpc/src/channel_fd.c:177-192 | skips to the start magic; the rest of the chunk, run from the new state, gives what the whole would have |
| ChannelFd.ChannelFd.Fill | chrpc/src/channel_fd.c:200-240 | copies as many bytes of header or payload as the chunk has, to the same effect as byte by byte |
| ChannelFd.ChannelFd.LastByte | chrpc/src/channel_fd.c:246-287 | consumes the last byte, right or wrong, and delivers only a right non-empty message |
| ChannelFd.ChannelFd.Enqueue | chrpc/src/channel_fd.c:271-287 | delivers by the channel's overflow policy |
| ChannelFd.ChannelFd.ProcessSingleMsg | chrpc/src/channel_fd.c:172-290 | one pass over a chunk, up to the end of a message, refines the one-byte automaton |
| ChannelFd.ChannelFd.ProcessChunk | chrpc/src/channel_fd.c:307-312 | terminates, and runs the automaton over the whole chunk |
| ChannelFd.ChannelFd.Refresh | chrpc/src/channel_fd.c:292-340 | all that was read ends up as if run byte by byte; the descriptor stays open only if reading would block |
| ChannelFd.ChannelFd.Receive | chrpc/src/channel_fd.c:359-386 | gives the oldest message; too small a buffer loses nothing |
| ChannelLocal.ChannelLocal.Send | chrpc/src/channel_local.c:63-101 | accepts, refuses or writes over as the mailbox says |
| ChannelLocal.ChannelLocal.Receive | chrpc/src/channel_local.c:128-160 | gives the oldest message or says why not, as the mailbox says |
| ChannelLocal.FifoConservation | chrpc/src/channel_local.c:63-160 | over every run, what left the mailbox followed by what is queued is what was accepted, in order; without writing over nothing is lost |
| ChannelLocal.SendsKeep | chrpc/src/channel_local.c:63-101 | after any run of sends the mailbox holds the first messages that fit or, writing over, the last; accepted are the first that fit, or all |
| ChannelLocal.ReceivesTake | chrpc/src/channel_local.c:128-160 | receiving with room for any message takes the oldest ones in order |
| WorkerPool.NextInv | chrpc/src/rpc_server.c:421-511 | every critical section keeps the global count of places, channels and callbacks |
| WorkerPool.RoomToPutBack | chrpc/src/rpc_server.c:499-501 | a worker that holds a channel always finds room in the queue, so the ignored result of the push is a success |
| WorkerPool.PoolConservation | chrpc/src/rpc_server.c:431-502 | in every reachable state the channel count is queued plus held plus closing plus drained, within capacity; no channel is in two places; no id is reused; no worker has left unless exit was requested |
| WorkerPool.GiveAccepts | chrpc/src/rpc_server.c:595-635 | a channel is accepted exactly when fewer than the capacity are not yet closed and an id is left, and then it is behind all others |
| WorkerPool.Served | chrpc/src/rpc_server.c:429-502 | unless exit is requested, any worker whatsoever takes the first queued channel within four steps of its own |
| WorkerPool.ExactlyOnce | chrpc/src/rpc_server.c:561-592 | after all joins every live channel is queued; each accepted channel is deleted once, and the callback has run once for each one a worker closed and for no drained one |
| WorkerPool.BoundedBypass | chrpc/src/rpc_server.c:446-448 | a channel behind k others is taken by exactly the (k+1)th later successful poll |
| WorkerPool.ShutdownTerminates | chrpc/src/rpc_server.c:561-582 | after the exit flag every run is bounded, and until all is drained some step is possible |
| RpcTheorems.RequestDecodes | chrpc/src/rpc_client.c:94-132 | a request is a valid encoding that decodes to the name and the arguments' encodings |
| RpcTheorems.RequestForm | chrpc/src/rpc_client.c:94-132 | the bytes written on the fly are the codec's encoding of the request struct |
| RpcTheorems.ResponseForm | chrpc/src/rpc_server.c:246-270 | the bytes written on the fly are the codec's encoding of the response struct |
| RpcTheorems.ResponseDecodes | chrpc/src/rpc_client.c:194-206 | a response decodes to its status and payload with stale bytes behind it |
| RpcTheorems.ParseArgsResult | chrpc/src/rpc_server.c:333-356 | decoding the arguments yields all of them, or the status of the first that does not fit |
| RpcTheorems.CallRoundTrip | chrpc/src/rpc_server.c:221-419 | one call and its reply come to exactly what the caller is owed; the reply fits; an endpoint runs only if name, arity and types fit; after a reply the channel is dropped exactly when the endpoint asked for that |
| RpcTheorems.RequestReadInside | chrpc/src/rpc_server.c:305-419 | a request that a client of this library sends makes the server read no string outside its block |
| RpcTheorems.ReplyReadInside | chrpc/src/rpc_client.c:190-239 | the reply to it, with stale bytes behind it, makes the client read none outside either |
| RpcTheorems.RequestCanStray | chrpc/src/rpc_server.c:414-416 | fourteen bytes that are answered as they should be, and then deleted by looking for a NUL in an empty block |
| RpcServer.SendErrorResponse | chrpc/src/rpc_server.c:179-203 | sends exactly the encoding of the status with an empty payload |
| RpcServer.SendResponse | chrpc/src/rpc_server.c:221-303 | runs the endpoint, checks what it returned, and sends its result or why not; what it returned is deleted |
| RpcServer.ParseArguments | chrpc/src/rpc_server.c:328-356 | stops at the first argument that fails; the values decoded on the way, and the strings looked through, are exactly those said |
| RpcServer.HandleDecoded | chrpc/src/rpc_server.c:305-377 | looks through exactly the name and the arguments' strings said; as far as they have a NUL, answers as specified on every path and leaves nothing allocated |
| RpcServer.HandleMessage | chrpc/src/rpc_server.c:404-419 | reads inside its blocks exactly when each string looked through has a NUL, and then leaves nothing allocated; the reply is as `Handle` says if those before it have; a request of this library ends in the status that disconnects exactly when its endpoint asked for that |
| RpcServer.DisconnectExactly | chrpc/src/rpc_server.c:297-302 | the status says to disconnect, and the worker drops the channel, exactly when the endpoint asked, the reply could not be sent, or none was owed |
| RpcServer.PollChannel | chrpc/src/rpc_server.c:380-419 | the status of one look at a channel: broken, empty, or what handling its message comes to |
| RpcServer.WorkOn | chrpc/src/rpc_server.c:464-486 | after one look the channel is dropped if it was broken, idle too long, or its message's handling says so |
| RpcStrangers.OnlyRequests | chrpc/src/rpc_server.c:404-419 | only a message that begins with the request type and decodes runs an endpoint, drops its channel or is answered with anything but a refusal; which refusal the others get |
| RpcStrangers.OtherType | chrpc/src/rpc_server.c:308-311 | any value of another type, with anything behind it, is a bad request |
| RpcStrangers.CutRequest | chrpc/src/rpc_server.c:404-410 | a request cut short anywhere is an unexpected end |
| RpcStrangers.ArgsOrFirstMisfit | chrpc/src/rpc_server.c:328-356 | with any bytes for arguments, all are decoded if all fit, and otherwise the first that does not says why |
| RpcStrangers.AnyRequest | chrpc/src/rpc_server.c:305-377 | a request put together by hand runs the endpoint of its name exactly if each argument decodes as its type, and on what they decode to |
| RpcStrangers.ReplyUnderstood | chrpc/src/rpc_client.c:194-239 | a buffer that begins with a response comes to what that says, whatever is behind it |
| RpcStrangers.NotAReply | chrpc/src/rpc_client.c:194-206 | any other buffer is a bad response |
| RpcStrangers.ReturnedExactly | chrpc/src/rpc_client.c:194-239 | a call returns exactly from buffers that begin with a success whose payload is nothing or a value |
| RpcClient.WaitFindsFirst | chrpc/src/rpc_client.c:154-175 | the wait takes the first answer before the timeout, and gives up only after all of it |
| RpcClient.RpcClient.BuildHead | chrpc/src/rpc_client.c:91-122 | writes type, name and argument count if they fit |
| RpcClient.RpcClient.AppendArgs | chrpc/src/rpc_client.c:124-132 | appends the arguments' encodings, each behind its length, if they all fit |
| RpcClient.RpcClient.BuildRequest | chrpc/src/rpc_client.c:94-132 | the buffer holds exactly the request, or it does not fit |
| RpcClient.RpcClient.SendRequest | chrpc/src/rpc_client.c:79-240 | what goes out, when the channel is given up, which status or outcome comes back, exactly when a reply makes it read outside a block, and that otherwise only the returned value stays allocated |
| RpcClient.RpcClient.DecodeResponse | chrpc/src/rpc_client.c:190-239 | the outcome is that of the whole buffer; reads stay inside exactly when the strings looked through have a NUL, and then only the value wanted stays allocated |
| Pipe.RunTrace | chrpc/src/channel_fd.c:172-290 | with room for them all, any bytes queue exactly the messages they complete |
| Pipe.PutLaws | chrpc/src/channel_fd.c:128-169 | sending puts one message behind those on their way; a short write adds none and lets no later one follow |
| Pipe.ArriveLaws | chrpc/src/channel_fd.c:292-340 | however many bytes reach the decoder, the same messages are on their way |
| Pipe.RestLaws | chrpc/src/channel_fd.c:375-381 | the reader takes the first message on its way |
| RpcSystem.NextInv | chrpc/src/rpc_server.c:381-511 | every step of any client, worker or wire keeps the invariant of the whole system |
| RpcSystem.EndToEnd | chrpc/src/rpc_client.c:79-240 | in every interleaving, over channels of any sizes, local or framed and read in any chunks, each answered call got the outcome it was owed, from an endpoint run made for it: never a stale reply nor another call's |
| RpcSystem.AtMostOnce | chrpc/src/rpc_server.c:380-419 | no call runs an endpoint twice; a channel never has two messages in flight; no message a worker takes makes it read outside a block |
| RpcSystem.PoolRun | chrpc/src/rpc_server.c:421-511 | every run of the whole system is a run of its worker pool |
| RpcLiveness.SoundNext | chrpc/src/rpc_server.c:284-302 | every step keeps the writing ends of the server's live channels open, and of those whose clients have not given up |
| RpcLiveness.Answerable | chrpc/src/rpc_server.c:421-511 | in every reachable state, unless exit is requested, a call whose request or reply is in the system can be answered: some run without failures gives its caller what it is owed, from the endpoint run made for it |
| RpcLiveness.CallAnswered | chrpc/src/rpc_client.c:79-240 | a free client whose channel the server still has can call, and some run without failures ends with the outcome it is owed |
| RpcLiveness.LostOnlyIf | chrpc/src/rpc_client.c:137-188 | a call that was sent ends without an answer only where its client gives up waiting or its request is cut short |
| RpcUnfailing.GiveStep | chrpc/src/rpc_server.c:595-635 | a channel of a size the server takes is accepted while there is room, and its client's request is on its way |
| RpcUnfailing.NoneForgotten | chrpc/src/rpc_server.c:464-502 | after any run without failures each waiting client can still be answered or one of its calls closed its channel, by asking to disconnect or returning a misfit; nothing else closes one |
| Heap.RootIsLeast | chutil/src/heap.c:51-57 | no cell of a heap has a lower priority than the root |
| Heap.Heap.BubbleUp | chutil/src/heap.c:69-94 | moves the hole to where the cell can go; put there, the cells are in heap order and are the old ones and the new |
| Heap.Heap.Push | chutil/src/heap.c:167-184 | keeps heap order and adds exactly the one cell, growing the table when full |
| Heap.Heap.Peek | chutil/src/heap.c:51-57 | gives a value of least priority |
| Heap.Heap.LesserChild | chutil/src/heap.c:126-145 | picks the lesser child below the priority, or none when neither is |
| Heap.Heap.SiftDown | chutil/src/heap.c:121-158 | moves the hole down until the last cell fits; order and cells are kept |
| Heap.Heap.Pop | chutil/src/heap.c:96-165 | takes out one cell of least priority, keeps order and all others |
| Heap.Heap.Join | chutil/src/heap.c:208-223 | the next cell joins the heap in front of it |
| Heap.Heap.ReHeap | chutil/src/heap.c:197-227 | from any order a heap of the same values, each with its new priority |
| Heap.NewPriorities | chutil/src/heap.c:197-206 | cells with recomputed priorities, in any order, hold the old values, each with its own new priority |
| Heap.PopsAscend | chutil/src/heap.c:96-165 | popping again and again gives priorities in order, and all cells when popped empty |
| Heap.Heap.PopAll | chutil/test/heap.c:12-25 | popping a heap empty gives exactly its values, in order of priority |
| HashMap.HashMap.constructor | chutil/src/map.c:50-76 | a new map is empty |
| HashMap.HashMap.FindInChain | chutil/src/map.c:133-147 | finds the entry of a key in its chain, or shows that the map has no such key |
| HashMap.HashMap.Get | chutil/src/map.c:169-184 | the value of the key in the map, or nothing |
| HashMap.HashMap.Put | chutil/src/map.c:133-167 | updates the map at one key; the table stays at most half full |
| HashMap.HashMap.Remove | chutil/src/map.c:186-219 | takes one key out of the map and says whether it was there |
| HashMap.HashMap.CheckResize | chutil/src/map.c:14-48 | one doubling is enough to be at most half full again, and keeps the map |
| HashMap.HashMap.Rehash | chutil/src/map.c:19-38 | a table of twice the size that holds the same map |
| HashMap.MoveChain | chutil/src/map.c:26-37 | moving one chain moves exactly its pairs |
| HashMap.Added | chutil/src/map.c:148-162 | putting a new entry in front of its chain is adding it to the map |
| HashMap.FlattenEnumerates | chutil/src/map.c:94-131 | the entries in iteration order are every pair of the map exactly once |
| HashMap.HashMap.ResetIterator | chutil/src/map.c:94-105 | all entries are still to come |
| HashMap.HashMap.Next | chutil/src/map.c:107-131 | yields the first entry still to come, and nothing when there is none |
| HashMap.HashMap.Equals | chutil/src/map.c:221-246 | answers whether both maps have the same keys with equal values, though only one side is enumerated |
| HashMap.AllAgree | chutil/src/map.c:222-245 | maps of one size agree when every entry of one is matched in the other |
| CowString.Buffer.Shared | chutil/src/string.c:8-31 | a buffer that holds the text and its NUL with the capacity asked for |
| CowString.Strings.CountIsHandles | chutil/src/string.c:73-86 | a buffer's count is the number of handles on it, and is never zero while it is allocated |
| CowString.Strings.FromCStr | chutil/src/string.c:41-53 | a new handle alone on a copy of the text |
| CowString.Strings.FromLiteral | chutil/src/string.c:55-71 | a new handle on the literal itself |
| CowString.Strings.Copy | chutil/src/string.c:132-145 | a second handle on the same buffer; nothing any handle reads changes |
| CowString.Strings.Release | chutil/src/string.c:73-86 | takes one handle off; the buffer is freed exactly with its last one |
| CowString.Strings.Delete | chutil/src/string.c:88-91 | the buffer stays allocated exactly if another handle is on it; no other handle reads anything else |
| CowString.Strings.PrepareModify | chutil/src/string.c:147-203 | afterwards the handle is alone on a writable buffer large enough, and every handle reads as before |
| CowString.Strings.AppendChar | chutil/src/string.c:205-216 | one character longer; no other handle changes |
| CowString.Strings.AppendCStr | chutil/src/string.c:218-226 | longer by the text; no other handle changes |
| CowString.Strings.SetChar | chutil/src/string.c:228-232 | one character changed in this handle and in no other |
| JsonStrings.StringComesBack | chjson/src/parser.c:209-246 | a printed string is a syntax error if it has a quote, and otherwise comes back without what the printer drops |
| JsonStrings.StringRoundTrip | chjson/src/json_helpers.c:23-74 | a string comes back as it was exactly when it has no NUL, no quote and no control character without an escape |
| JsonStrings.ReadingShrinks | chjson/src/parser.c:133-246 | no string read is longer than its text, nor as long unless it is that text with nothing escaped |
| JsonStrings.KeyRoundTrip | chjson/src/json_helpers.c:110-112 | a key comes back as it was exactly when it has no quote, no backslash and no control character |
| JsonLexis.TrimSkips | chjson/src/parser.c:104-129 | spaces, tabs, line feeds and carriage returns in front are skipped, all of them and nothing else |
| JsonLexis.WhiteSpaceIgnored | chjson/src/parser.c:337-489 | white space plays no part around a document, behind an opening bracket, or before what follows an item or a pair |
| JsonLexis.WhiteSpaceAfterComma | chjson/src/parser.c:380-384 | nor behind a comma |
| JsonLexis.WhiteSpaceInPair | chjson/src/parser.c:401-417 | nor before a pair's colon or behind it |
| JsonLexis.NumberIsRead | chjson/src/parser.c:287-335 | every JSON number of at most 26 characters, by the grammar of section 6 of RFC 8259, is handed whole to `strtod`, and the result is the value |
| JsonLexis.LetterEscapes | chjson/src/parser.c:141-168 | a letter behind a backslash is read as the character it stands for, or is a syntax error |
| JsonLexis.UnicodeEscapes | chjson/src/parser.c:171-202 | four hex digits are read as the shortest UTF-8 form of their code point |
| JsonLexis.BadUnicode | chjson/src/parser.c:171-202 | fewer than four hex digits are a syntax error |
| JsonLexis.Names | chjson/src/parser.c:509-526 | null, true and false are read as what they name |
| JsonLayout.SpacedLines | chjson/src/json_helpers.c:77-181 | the spaced form line by line: brackets on lines of their own, two spaces a level, commas behind all but the last |
| JsonTheorems.ComesBack | chjson/src/json_helpers.c:77-181 | what any printable value comes back as, spaced or compact, at any depth, before anything that does not continue a number |
| JsonCount.ValueHits | chjson/src/parser.c:492-541 | a value that is read holds no more long unclean strings, keys included, than its text has places to read one at |
| JsonCount.PrintHits | chjson/src/json_helpers.c:77-181 | a printed text has no more such places than the value has string values that are one, as long as no unclean key is longer |
| JsonRoundTrip.EqualCount | chjson/src/json_helpers.c:202-226 | equal values hold as many of them, whatever the order of their pairs |
| JsonRoundTrip.UncleanKeysNeverComeBack | chjson/src/json_helpers.c:110-112 | the text of a value with an unclean key is never read as that value, nor as one equal to it |
| JsonRoundTrip.KeptMeans | chjson/src/json_helpers.c:23-74 | what the printer keeps of a value means the same exactly when its strings are clean up to their NUL |
| JsonRoundTrip.RoundTrip | chjson/src/parser.c:492-546 | spaced or compact: the same value comes back exactly when all keys and string values are clean, and one that is equal to it exactly when the keys are, and the string values up to their NUL |
| JsonRoundTrip.KeyWithQuoteSplits | chjson/src/json_helpers.c:110-112 | a family of one-member objects that come back with two members |
| JsonEquality.EqualIffSameMeaning | chjson/src/json_helpers.c:202-226 | two values are equal exactly when they mean the same, the order of an object's pairs aside |
| JsonEquality.PutUpdates | chjson/src/parser.c:435-435 | putting a pair updates the object's map at one key and keeps its keys distinct |
| JsonEquality.ValueDistinct | chjson/src/parser.c:401-541 | no value read from any input has an object with the same key twice |
| JsonOwnership.PutConserves | chutil/src/map.c:133-147 | putting a pair drops exactly the old value and the new key of a key that is there, and nothing else |
| JsonOwnership.Conservation | chjson/src/parser.c:401-541 | what is read of any text and what is lost own together what the text says with every pair of every object; nothing is lost exactly when no object of it, as far as it goes, has a key twice |
| JsonOwnership.PrintedLosesNothing | chjson/src/json_helpers.c:77-181 | nothing is lost of the text of a printable value, whether it can be read or not |
| JsonOwnership.RepeatedKeyIsLost | chjson/src/parser.c:422-436 | an object written with one key twice loses the first value and the second key |
| JsonParser.InStream.Next | chutil/src/stream.c:72-84 | takes the first character left, if there is one |
| JsonParser.TrimWs | chjson/src/parser.c:104-129 | skips exactly the white space in front |
| JsonParser.ControlSuffix | chjson/src/parser.c:133-207 | reads one escape or finds that there is none |
| JsonParser.UnicodeSuffix | chjson/src/parser.c:171-202 | reads four hex digits and gives their UTF-8 bytes |
| JsonParser.ParseString | chjson/src/parser.c:209-259 | reads a quoted string as specified, from any input |
| JsonParser.CollectNumber | chjson/src/parser.c:287-317 | takes the longest run of number characters that fits the buffer |
| JsonParser.DeleteJson | chjson/src/json.c:112-163 | gives back exactly what the value owns |
| JsonParser.ParseNumber | chjson/src/parser.c:271-335 | a number if all characters taken are one; allocates only then |
| JsonParser.ParseStringValue | chjson/src/parser.c:248-269 | a string value; its builder is deleted when it fails |
| JsonParser.ParseItems | chjson/src/parser.c:337-386 | the items up to the end of the list or the first that fails; what is allocated is what they own and what was lost |
| JsonParser.ParseList | chjson/src/parser.c:388-399 | reads a list as specified, from any input, and terminates; a failure leaves only what was lost |
| JsonParser.ParseKvp | chjson/src/parser.c:401-437 | reads a key, a colon and a value; the key is deleted when they fail |
| JsonParser.ParsePairs | chjson/src/parser.c:439-478 | the pairs put into the map, a repeated key overwriting; what is allocated is what the map owns and what was lost |
| JsonParser.ParseObject | chjson/src/parser.c:480-490 | reads an object as specified; a failure leaves only what was lost |
| JsonParser.ParseValue | chjson/src/parser.c:492-541 | reads any value, by its first character; allocates what the value owns and what was lost |
| JsonParser.ParseDocument | chjson/src/parser.c:543-546 | reads a value behind white space; nothing but the value stays allocated exactly when no object of the text has a key twice |
| JsonPrinter.EscapeStringToStream | chjson/src/json_helpers.c:23-74 | appends the string with its escapes, up to its NUL |
| JsonPrinter.ToStream | chjson/src/json_helpers.c:77-181 | appends exactly the printed form and changes nothing written before |
| JsonPrinter.ListToStream | chjson/src/json_helpers.c:130-158 | a list, its commas, line breaks and tabs |
| JsonPrinter.ObjectToStream | chjson/src/json_helpers.c:85-128 | an object in the order in which its map yields the pairs |

## Left out

- Memory.Mem.StrLen: a read outside a block is counted, not carried out. What the original does after one has no meaning, so contracts promise nothing about such runs but that they have one.
- SerialBuffer.InnerToBuffer: which union member holds the block follows the type in the original and the constructor of the value here; lengths of 2^32 and more, which the header excludes, are excluded here too.
- SerialReader.InnerEquals: requires strings with a NUL, as `strcmp` does; a decoded string without one is outside it.
- ChannelFd.ChannelFd.Refresh: `read` is a list of non-empty chunks and a reason to stop; `write` answers any number of bytes. Descriptors, `errno` and locks are not modelled; the largest message is below 2^32, as the stored length requires.
- ChannelLocal.ChannelLocal.Send: one operation at a time, as the lock makes it; the lock itself is not modelled.
- WorkerPool.ExactlyOnce: no channel is given to the server once its deletion has begun, which the original does not guard against.
- RpcServer.SendErrorResponse: the error value that the original builds and deletes around the call is not counted as allocated and freed.
- RpcServer.HandleDecoded: the endpoint set is a finite map; its hash map is modelled on its own in `HashMap`.
- RpcClient.RpcClient.SendRequest: the time waited is unbounded here; the original adds it up in a `useconds_t`, which could wrap around for timeouts near its limit.
- RpcServer.SendResponse: endpoint functions are given strings as they were decoded; what they read of those themselves is theirs.
- RpcSystem.EndToEnd: channels do not write over, a client uses its channel from one thread, and a wire loses and changes no bytes.
- HashMap.HashMap.Put: chains are sequences, so relinking of nodes is not modelled; an iterator is a position, and is not used after the map has changed.
- HashMap.HashMap.Equals: keys are compared with equality and hashed consistently; sizes of keys and values in bytes are not modelled.
- CowString.Strings.AppendCStr: the appended text is a value, so appending a string's own buffer to it is not covered.
- CowString.Strings.FromLiteral: literal and shared strings are one class with a flag, where the original has a tagged union of two structs.
- Heap.Heap.Push: iterating a heap is not modelled; priorities are unbounded.
- JsonRoundTrip.RoundTrip: numbers are assumed to be printed as JSON numbers of at most 26 characters, and to be read as they are printed.
- JsonParser.ParseDocument: input streams never fail, as both that the library has never do, so the input error status does not arise. A value counts as one with its list or map, and a string as one with its buffer.
- JsonPrinter.ToStream: output goes to a string, which never fails; the original ignores a failure inside a nested value.
- JsonEquality.EqualIffSameMeaning: keys are compared whole; the original compares a 32-bit hash of the whole key and then the keys up to a NUL, so that keys with a NUL inside and the same hash are one to it and two here, also when they are put. Numbers are compared as bit patterns, so that zero and minus zero differ and a NaN equals itself.
- The meaning of floating-point numbers: they travel as raw bytes, and printing and reading JSON numbers are parameters.
- Time, sleeping, threads and locks: a worker's steps are atomic at the lock boundaries and may happen in any order.
- The remaining channels: `channel_local2.c` and `channel.c` only delegate, and a duplex pipe is two mailboxes.
- `s_substring`: it copies from the start of the string whatever start it is given (chutil/src/string.c:122-123).
- The linked list: its indexed access returns the first cell for every index (chutil/src/list.c:216).
- Varargs constructors, debug printers, logging, sockets and the chat example.
