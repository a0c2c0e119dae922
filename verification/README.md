# Verified models of the message client, the cluster client and the sorting code

This project models six parts of the repository in Dafny and proves what they are for.

* **AMQP 0-9-1 framing** (`Wire`, `Frames`, `Connections`, `Publishing`, `Delivery`, `EndToEnd`).
  The receiving side is a byte-level state machine that may be fed a stream in any pieces; the
  sending side prints frames into a buffer and pushes them through a socket that may take them in
  pieces; a message body is cut into frames and put together again. `Frames` holds the reference
  reading of a stream (`Parse`) and printing of frames (`Encode`); the classes `Connection`,
  `Sender` and `Inbox` are the imperative code, proved against them, and what each byte of a frame
  means is stated once more, by positions and numbers (`IsFrame`, `IsPrinted`). `EndToEnd` composes
  everything: cut, print, split anywhere, parse, reassemble gives the message back.
* **Memory of a connection** (`Pools`, `PoolTables`, `PropertyClone`, `ReleaseRuns`). The bump
  allocator with page reuse, the table of one pool per channel, the rules by which a pool may be
  recycled, and the deep copy of message properties. `ReleaseRuns` is a state machine over whole
  runs of a connection's memory, in which a pool is represented by what `Pools.Pool` promises.
* **SHA-1** (`Fips180`, `KnownDigest`, `Sha1`). `Fips180` is FIPS PUB 180-1 in its plain form with
  an 80-word schedule; `KnownDigest` proves that it gives "abc" the documented digest; `Sha1` is the
  streaming code with a 16-word circular block, 80 unrolled macro calls and a bit counter of two
  32-bit halves, proved equal to it.
* **Redis Cluster client** (`Crc16`, `KeySlots`, `ClusterCache`, `RetryProtocol`, `Splitting`). The
  table-driven CRC against polynomial long division over GF(2); hash tags; the slot and connection
  cache; the retry loop against a server that may answer anything; `split`.
* **Certificate host names** (`HostCheck`): the wildcard rule of section 6.4.3 of RFC 6125.
* **Sorts and counting** (`Permutations`, `HSort`, `QuickSort`, `HeapSort`, `ArithmeticSlices`).

`Options` and `Arithmetic` hold two result types and division facts. Classes keep the fields of the
structures they model and loops keep the variables of the loops they model; ghost fields record
history (bytes hashed so far, memory handed out, blocks, connections and records obtained and given
back) and nothing else depends on them. A method that would be too large as one is cut along the
branches of its original.

## Where the code does not do what it is meant to

Each of these is a theorem that says exactly when the code is right.

* The first frame of a connection loses its byte 7: eight bytes are collected, seven are passed on,
  and the eighth cell is zero memory (`Frames.FirstFrameLosesByteSeven`). Any printable first frame
  arrives as it was sent exactly when it has a payload that starts with a zero byte
  (`Frames.FirstFrameArrivesIff`); for a method frame this means a class number below 256, which all
  classes of the standard have (`Frames.FirstMethodArrivesIff`). A heartbeat as first frame is
  rejected (`Frames.FirstEmptyFrameRejected`), and a body frame may arrive with its first byte
  cleared (`Frames.FirstBodyFrame`). Other round trips start behind the first frame.
* Waiting for a frame of one channel drops the frames queued in front of it. All other channels keep
  their frames exactly when the queue holds no frame of the channel or is headed by one
  (`Delivery.WaitKeepsOthersIff`); `Delivery.FrameIsLost` is a run of two waits that loses a frame.
* The last frame of a message is sent with the "more follows" flag exactly when the body is a
  multiple of the usable payload size (`Publishing.LastFrameAnnouncesMore`).
* SHA1Update tests `j + len` in 32-bit arithmetic, which is right exactly when the sum does not wrap
  (`Sha1.LengthTestWraps`); 2^32 - 64 bytes a call are always safe.
* A reply of an unexpected type that carries no text is judged, and reported, by the text of an
  earlier turn. Whether it is retried is what its own text asks for exactly when it has one or the
  earlier text would be retried too (`RetryProtocol.JudgedByOwnTextIff`), and the text and code that
  are thrown have conditions of the same kind (`RetryProtocol.ThrownAsOwnIff`).
  `RetryProtocol.EarlierTextIsThrown` and `RetryProtocol.EarlierTextEndsLoop` are two inputs.
* A layout that lists a slot twice leaks the record made first. Over any life of a client, every
  record made has been deleted exactly when no layout it loaded covers a slot twice
  (`ClusterCache.Lifetime`); `ClusterCache.LeakOne` is a client that leaks.

## Model

| member | source | states |
|---|---|---|
| Wire.DecodeEncode32 | cpp/rabbitmq/rabbitmq-c-0.8.0/librabbitmq/amqp_private.h:216-234 | a 32-bit field written big-endian anywhere in a buffer is read back |
| Wire.EncodedNumber16 | cpp/rabbitmq/rabbitmq-c-0.8.0/librabbitmq/amqp_private.h:216-223 | the two bytes written stand, in network order, for the value |
| Wire.EncodedNumber32 | cpp/rabbitmq/rabbitmq-c-0.8.0/librabbitmq/amqp_private.h:216-223 | the same of the four bytes of a 32-bit field |
| Wire.EncodedNumber64 | cpp/rabbitmq/rabbitmq-c-0.8.0/librabbitmq/amqp_private.h:216-223 | the same of the eight bytes of a 64-bit field |
| Wire.DecodedNumber16 | cpp/rabbitmq/rabbitmq-c-0.8.0/librabbitmq/amqp_private.h:225-233 | a 16-bit field is read as the number its bytes stand for in network order |
| Wire.DecodedNumber32 | cpp/rabbitmq/rabbitmq-c-0.8.0/librabbitmq/amqp_private.h:225-233 | the same of a 32-bit field |
| Wire.DecodedNumber64 | cpp/rabbitmq/rabbitmq-c-0.8.0/librabbitmq/amqp_private.h:225-233 | the same of a 64-bit field |
| Wire.NumberIsUnique | cpp/rabbitmq/rabbitmq-c-0.8.0/librabbitmq/amqp_private.h:216-234 | two ways to write a number in equally many bytes are one |
| Frames.PrintedLayout | cpp/rabbitmq/rabbitmq-c-0.8.0/librabbitmq/amqp_connection.c:464-536 | byte for byte: type 1, 2, 3 or 8, channel, length, class, weight 0 and body size or method number in network order, arguments, properties or fragment, and the octet 206 |
| Frames.PrintedIff | cpp/rabbitmq/rabbitmq-c-0.8.0/librabbitmq/amqp_connection.c:464-536 | a frame has exactly one such layout, and the printer succeeds with it whenever it exists |
| Frames.UnprintedIff | cpp/rabbitmq/rabbitmq-c-0.8.0/librabbitmq/amqp_connection.c:464-536 | printing fails exactly with the error of the encoder, and for a protocol header |
| Frames.DoneIff | cpp/rabbitmq/rabbitmq-c-0.8.0/librabbitmq/amqp_connection.c:296-391 | a frame is accepted exactly when all its announced bytes are there, are within the limit, end in the octet 206 and have the layout of that frame; a type other than 1, 2, 3 and 8 is skipped |
| Frames.RejectIff | cpp/rabbitmq/rabbitmq-c-0.8.0/librabbitmq/amqp_connection.c:296-400 | a stream is rejected exactly for a length beyond the limit, a last byte other than 206 or a payload that cannot be decoded, each with its status; more is awaited exactly while bytes are missing |
| Frames.GreetingIff | cpp/rabbitmq/rabbitmq-c-0.8.0/librabbitmq/amqp_connection.c:273-294 | a protocol header is read exactly from the bytes 65 77 81 80 and four numbers; fewer than eight bytes decide nothing |
| Frames.ExamineExtends | cpp/rabbitmq/rabbitmq-c-0.8.0/librabbitmq/amqp_connection.c:296-400 | a verdict on a prefix stands whatever bytes follow |
| Frames.ParseSplit | cpp/rabbitmq/rabbitmq-c-0.8.0/librabbitmq/amqp.h:1184-1188 | parsing a stream is parsing its first part and going on with what that leaves |
| Frames.RunIsParse | cpp/rabbitmq/rabbitmq-c-0.8.0/librabbitmq/amqp.h:1184-1188 | reading chunk by chunk gives the frames, the error and, absent an error, the state of reading the concatenation |
| Frames.ChunkingIndependence | cpp/rabbitmq/rabbitmq-c-0.8.0/librabbitmq/amqp_connection.c:244-404 | any two ways of splitting a stream give the same frames, error and final state |
| Frames.FrameRoundTrip | cpp/rabbitmq/rabbitmq-c-0.8.0/librabbitmq/amqp_connection.c:464-536 | a printed frame followed by any bytes is read back as that frame, taking exactly its bytes |
| Frames.StreamRoundTrip | cpp/rabbitmq/rabbitmq-c-0.8.0/librabbitmq/amqp_connection.c:464-536 | a printed list of frames is read back as that list, with nothing left over |
| Frames.FirstFrameLosesByteSeven | cpp/rabbitmq/rabbitmq-c-0.8.0/librabbitmq/amqp_connection.c:94-318 | on a new connection a stream not starting with "AMQP" is read as if its byte 7 were zero |
| Frames.FirstEmptyFrameRejected | cpp/rabbitmq/rabbitmq-c-0.8.0/librabbitmq/amqp_connection.c:273-342 | a first frame with an empty payload is rejected, though the same heartbeat is accepted later |
| Frames.FirstBodyFrame | cpp/rabbitmq/rabbitmq-c-0.8.0/librabbitmq/amqp_connection.c:273-391 | a first body frame arrives with its first payload byte zeroed |
| Frames.FirstFrameArrivesIff | cpp/rabbitmq/rabbitmq-c-0.8.0/librabbitmq/amqp_connection.c:94-318 | any printable first frame is received as it was sent exactly when it has a payload that starts with a zero byte |
| Frames.FirstMethodArrivesIff | cpp/rabbitmq/rabbitmq-c-0.8.0/librabbitmq/amqp_connection.c:94-363 | a method as first frame is received as it was sent exactly when its class number is below 256 |
| Connections.Connection.constructor | cpp/rabbitmq/rabbitmq-c-0.8.0/librabbitmq/amqp_connection.c:73-104 | a new connection is in a valid state and has read nothing |
| Connections.Connection.Tune | cpp/rabbitmq/rabbitmq-c-0.8.0/librabbitmq/amqp_connection.c:139-176 | the frame limit changes only between two frames; otherwise the program is aborted |
| Connections.Connection.ReturnToIdle | cpp/rabbitmq/rabbitmq-c-0.8.0/librabbitmq/amqp_connection.c:217-224 | restores the valid state between two frames |
| Connections.Connection.ConsumeData | cpp/rabbitmq/rabbitmq-c-0.8.0/librabbitmq/amqp_connection.c:226-241 | appends the bytes that are available and fit, and says how many |
| Connections.Connection.StartFrame | cpp/rabbitmq/rabbitmq-c-0.8.0/librabbitmq/amqp_connection.c:314-321 | the frame buffer has the announced size and begins with the bytes collected |
| Connections.Connection.EnterBody | cpp/rabbitmq/rabbitmq-c-0.8.0/librabbitmq/amqp_connection.c:296-331 | a complete header becomes a frame buffer of the announced size or a rejection of the stream |
| Connections.Connection.DecodeBody | cpp/rabbitmq/rabbitmq-c-0.8.0/librabbitmq/amqp_connection.c:334-404 | a complete frame buffer is accepted or rejected exactly as `Frames.DoneIff` and `Frames.RejectIff` say of the stream |
| Connections.Connection.DispatchInitial | cpp/rabbitmq/rabbitmq-c-0.8.0/librabbitmq/amqp_connection.c:274-294 | the first eight bytes are a protocol header or the start of a frame |
| Connections.Connection.Collect | cpp/rabbitmq/rabbitmq-c-0.8.0/librabbitmq/amqp_connection.c:259-269 | data is collected until the target is met; short of it, the parser state is that of all bytes seen |
| Connections.Connection.HandleInput | cpp/rabbitmq/rabbitmq-c-0.8.0/librabbitmq/amqp_connection.c:244-404 | keeps the parser invariant, gives the verdict of the reference reading (`Frames.DoneIff`, `Frames.RejectIff`) on all bytes seen, consumes at least one byte of any data unless it fails, and never goes past one frame |
| Connections.Connection.Feed | cpp/rabbitmq/rabbitmq-c-0.8.0/librabbitmq/amqp.h:1184-1188 | the documented caller loop delivers exactly the frames and the error of the reference reading |
| Connections.Connection.FeedAll | cpp/rabbitmq/rabbitmq-c-0.8.0/librabbitmq/amqp.h:1184-1188 | over any list of chunks only their concatenation matters, under an unchanged frame limit |
| Connections.Connection.ValidIsQuiescent | cpp/rabbitmq/rabbitmq-c-0.8.0/librabbitmq/amqp_connection.c:244-404 | between two calls the bytes held are never enough for a frame or an error |
| Publishing.FragmentsPartition | cpp/rabbitmq/rabbitmq-c-0.8.0/librabbitmq/amqp_api.c:232-257 | the fragments concatenate to the body, are non-empty and within the limit, and only the last is shorter, exactly when the body is no multiple |
| Publishing.LastFrameAnnouncesMore | cpp/rabbitmq/rabbitmq-c-0.8.0/librabbitmq/amqp_api.c:211-257 | every frame but the last claims that more follows, and the last one does exactly when the body is a multiple of the usable size |
| Publishing.Sender.FrameToBytes | cpp/rabbitmq/rabbitmq-c-0.8.0/librabbitmq/amqp_connection.c:464-536 | prints the frame, in the one layout it has, at the start of the outbound buffer and stays within it, or reports the error of the encoder |
| Publishing.Sender.TryRecv | cpp/rabbitmq/rabbitmq-c-0.8.0/librabbitmq/amqp_connection.c:566-575 | a time-out becomes a missed heartbeat, any other error is passed on |
| Publishing.Sender.CheckHeartbeat | cpp/rabbitmq/rabbitmq-c-0.8.0/librabbitmq/amqp_api.c:198-208 | when the deadline of the server has passed, what is received then decides, and otherwise only an error of the clock stops the call |
| Publishing.Sender.TrySend | cpp/rabbitmq/rabbitmq-c-0.8.0/librabbitmq/amqp_socket.c:376-402 | what the socket has taken is a prefix of the data, all of it when the full length is returned; the error is that of the answer it met, and otherwise none of the answers used was an error |
| Publishing.Sender.SendBytes | cpp/rabbitmq/rabbitmq-c-0.8.0/librabbitmq/amqp_connection.c:554-580 | over any partial sends the wire grows by a prefix of the data, and by all of it exactly on success; something is received after each time-out; the error is that of the first bad answer |
| Publishing.Sender.SendFrame | cpp/rabbitmq/rabbitmq-c-0.8.0/librabbitmq/amqp_connection.c:543-585 | on success exactly the printed frame is on the wire; on an encoder error nothing is; any other error is that of the first bad answer |
| Publishing.Sender.SendBody | cpp/rabbitmq/rabbitmq-c-0.8.0/librabbitmq/amqp_api.c:232-257 | for every frame limit above 8 the loop ends and puts exactly the fragments on the wire, once each and in order |
| Publishing.Sender.BasicPublish | cpp/rabbitmq/rabbitmq-c-0.8.0/librabbitmq/amqp_api.c:173-260 | on success the wire has grown by exactly the printed method, header and body frames, otherwise by a prefix of them; the error is that of the encoder or of the first bad answer; success is certain when everything can be printed, no bad answer is ahead and the socket takes something as often as there are bytes |
| Publishing.MessageLayout | cpp/rabbitmq/rabbitmq-c-0.8.0/librabbitmq/amqp_api.c:213-257 | those bytes are, each with its layout, a frame of method 60.40, a header frame of class 60 with the size of the body, and a body frame for each fragment in order |
| Publishing.CleanRunsOut | cpp/rabbitmq/rabbitmq-c-0.8.0/librabbitmq/amqp_socket.c:376-402 | with no bad answer ahead the only failure is to run out of answers |
| Delivery.WaitTakesNext | cpp/rabbitmq/rabbitmq-c-0.8.0/librabbitmq/amqp_socket.c:928-967 | a wait gives the channel its next frame, and the channel then sees the rest |
| Delivery.SeenIff | cpp/rabbitmq/rabbitmq-c-0.8.0/librabbitmq/amqp_socket.c:928-967 | a channel is going to see exactly its own frames, queued or to come, heartbeats to come excepted |
| Delivery.WaitKeepsOthersIff | cpp/rabbitmq/rabbitmq-c-0.8.0/librabbitmq/amqp_socket.c:928-967 | a wait leaves all other channels their frames exactly when the queue holds no frame of the channel or is headed by one |
| Delivery.FrameIsLost | cpp/rabbitmq/rabbitmq-c-0.8.0/librabbitmq/amqp_socket.c:928-967 | frames of three channels, a wait for the third and one for the second: the first channel sees nothing any more |
| Delivery.LoseFrame | cpp/rabbitmq/rabbitmq-c-0.8.0/librabbitmq/amqp_socket.c:928-967 | the same on an inbox: both waits leave neither a queued frame nor one to come |
| Delivery.Inbox.WaitFrameInner | cpp/rabbitmq/rabbitmq-c-0.8.0/librabbitmq/amqp_socket.c:794-864 | the next frame that is no heartbeat; heartbeats in front of it are gone, everything behind it is left |
| Delivery.Inbox.PutBackFrame | cpp/rabbitmq/rabbitmq-c-0.8.0/librabbitmq/amqp_socket.c:906-926 | the frame is the next to be taken |
| Delivery.Inbox.TakeQueued | cpp/rabbitmq/rabbitmq-c-0.8.0/librabbitmq/amqp_socket.c:936-948 | finds the first queued frame of the channel and cuts the queue behind it |
| Delivery.Inbox.WaitFrameOnChannel | cpp/rabbitmq/rabbitmq-c-0.8.0/librabbitmq/amqp_socket.c:928-967 | frame, queue and connection are exactly what Wait says: from the queue, or the frames read on the way are queued and what is behind the frame is left |
| Delivery.Inbox.WaitFrameNoblock | cpp/rabbitmq/rabbitmq-c-0.8.0/librabbitmq/amqp_socket.c:975-990 | the next frame of any channel, queued ones first |
| Delivery.CollectedIsShortestRun | cpp/rabbitmq/rabbitmq-c-0.8.0/librabbitmq/amqp_consumer.c:268-305 | a collected body is the concatenation of the shortest run of body frames that hits the announced size |
| Delivery.ShortestRunIsCollected | cpp/rabbitmq/rabbitmq-c-0.8.0/librabbitmq/amqp_consumer.c:268-305 | whenever there is such a run, it is collected and nothing behind it |
| Delivery.ReadIffShortestRun | cpp/rabbitmq/rabbitmq-c-0.8.0/librabbitmq/amqp_consumer.c:202-313 | a message is read exactly when a header is followed by a shortest run of body frames that hits its size; it is then that run and no later frame is taken |
| Delivery.CollectFailsIff | cpp/rabbitmq/rabbitmq-c-0.8.0/librabbitmq/amqp_consumer.c:268-305 | exactly when, why and after how many frames a body cannot be collected: the frames end, a frame is no body frame (a server exception for methods 20.40 and 10.50, bad data otherwise) or goes past the announced size |
| Delivery.ReadFailsIff | cpp/rabbitmq/rabbitmq-c-0.8.0/librabbitmq/amqp_consumer.c:202-313 | the same of a whole message; a frame that is no header is left where it is unless it is method 20.40 or 10.50 |
| Delivery.Inbox.ReadFragment | cpp/rabbitmq/rabbitmq-c-0.8.0/librabbitmq/amqp_consumer.c:271-302 | one body frame is written behind what is there and never past the end of the buffer |
| Delivery.Inbox.ReadBody | cpp/rabbitmq/rabbitmq-c-0.8.0/librabbitmq/amqp_consumer.c:252-305 | the buffer ends up with the collected body, or the error of the first frame that does not fit is returned |
| Delivery.Inbox.ReadMessage | cpp/rabbitmq/rabbitmq-c-0.8.0/librabbitmq/amqp_consumer.c:202-313 | returns and consumes what ReadFrom says of the frames of the channel (`Delivery.ReadIffShortestRun`, `Delivery.ReadFailsIff`); a frame that is neither header nor close is put back |
| Delivery.Inbox.ConsumeMessage | cpp/rabbitmq/rabbitmq-c-0.8.0/librabbitmq/amqp_consumer.c:142-200 | method 60.60 and the message behind it, taking no further frame of its channel; any other frame is put back and nothing is lost |
| EndToEnd.ReassembleFragments | cpp/rabbitmq/rabbitmq-c-0.8.0/librabbitmq/amqp_consumer.c:242-305 | the frames of a published message are read as that message whatever frames follow |
| EndToEnd.TrafficArrives | cpp/rabbitmq/rabbitmq-c-0.8.0/librabbitmq/amqp_connection.c:244-404 | printed traffic of any channels, delivered in any chunks, is received frame for frame |
| EndToEnd.PublishedMessageArrives | cpp/rabbitmq/rabbitmq-c-0.8.0/librabbitmq/amqp_api.c:221-257 | cut, printed, interleaved with other channels, split anywhere, parsed and reassembled, a message has its body and properties and no frame behind it is consumed |
| EndToEnd.EverySplitIsCut | cpp/rabbitmq/rabbitmq-c-0.8.0/librabbitmq/amqp.h:1184-1188 | every way to split data into chunks is a cut by lengths |
| EndToEnd.PublishAndFeed | cpp/rabbitmq/rabbitmq-c-0.8.0/librabbitmq/amqp_connection.c:244-404 | on the classes: whenever publishing succeeds, and it does whenever nothing bad is ahead of the sender, feeding its bytes to a connection in any chunks delivers exactly the frames of the message and leaves it between two frames |
| EndToEnd.PublishAndRead | cpp/rabbitmq/rabbitmq-c-0.8.0/librabbitmq/amqp_api.c:173-260 | on the classes: whenever publishing succeeds, and it does whenever nothing bad is ahead of the sender, feeding its bytes in any chunks and reading from the inbox gives the message back |
| Pools.Pool.constructor | cpp/rabbitmq/rabbitmq-c-0.8.0/librabbitmq/amqp_mem.c:59-72 | an empty pool; page size 0 stands for 4096 |
| Pools.Pool.EmptyBlocklist | cpp/rabbitmq/rabbitmq-c-0.8.0/librabbitmq/amqp_mem.c:74-86 | every block of the list is given back, and none that was given back before |
| Pools.Pool.Recycle | cpp/rabbitmq/rabbitmq-c-0.8.0/librabbitmq/amqp_mem.c:88-94 | ends the life of all memory handed out, keeps all pages and gives back exactly the large blocks |
| Pools.Pool.Empty | cpp/rabbitmq/rabbitmq-c-0.8.0/librabbitmq/amqp_mem.c:96-100 | afterwards every block ever obtained has been given back exactly once |
| Pools.Pool.AllocLarge | cpp/rabbitmq/rabbitmq-c-0.8.0/librabbitmq/amqp_mem.c:133-143 | a request larger than a page gets a block of its own |
| Pools.Pool.AllocHere | cpp/rabbitmq/rabbitmq-c-0.8.0/librabbitmq/amqp_mem.c:145-153 | the next bytes of the page in use overlap nothing handed out |
| Pools.Pool.AllocNext | cpp/rabbitmq/rabbitmq-c-0.8.0/librabbitmq/amqp_mem.c:155-171 | a page recorded earlier is reused before a new one is obtained |
| Pools.Pool.Alloc | cpp/rabbitmq/rabbitmq-c-0.8.0/librabbitmq/amqp_mem.c:125-172 | a request goes behind the mark of the page in use exactly when it fits there, to the start of the next page exactly when it fits a page but not there, and to a block of its own when it is larger than a page; it overlaps nothing live; the pool invariant (all live memory disjoint, aligned to 8, inside recorded blocks) is kept; nothing is given back |
| Pools.LiveIsObtained | cpp/rabbitmq/rabbitmq-c-0.8.0/librabbitmq/amqp_mem.c:125-172 | live memory lies inside a block that was obtained and not given back |
| Pools.AfterAllGrows | cpp/rabbitmq/rabbitmq-c-0.8.0/librabbitmq/amqp_mem.c:125-172 | a prefix of a list of requests needs no more pages than the list |
| Pools.SameRequestsSamePlaces | cpp/rabbitmq/rabbitmq-c-0.8.0/librabbitmq/amqp_mem.c:125-172 | two histories of a pool that begin with the same requests agree on the memory of all that fit a page |
| Pools.Pool.ServeAll | cpp/rabbitmq/rabbitmq-c-0.8.0/librabbitmq/amqp_mem.c:125-172 | pages are obtained only as far as the list of requests needs them |
| Pools.Pool.RecycleAndReplay | cpp/rabbitmq/rabbitmq-c-0.8.0/librabbitmq/amqp_mem.c:88-172 | in any state: recycling and replaying any beginning of the requests served since the last recycling obtains no page, and what fits a page gets the same memory again |
| Pools.Lifetime | cpp/rabbitmq/rabbitmq-c-0.8.0/librabbitmq/amqp_mem.c:59-172 | over any life of a pool every request gets enough memory of an obtained block, and every block obtained is given back exactly once |
| PoolTables.PoolTable.GetPool | cpp/rabbitmq/rabbitmq-c-0.8.0/librabbitmq/amqp_mem.c:239-253 | finds the pool of the channel, or that there is none |
| PoolTables.PoolTable.GetOrCreatePool | cpp/rabbitmq/rabbitmq-c-0.8.0/librabbitmq/amqp_mem.c:212-237 | one pool per channel, shared with no other channel and never replaced; a new one is empty and has the frame limit as page size, 4096 for a limit of 0 |
| PoolTables.PoolTable.MaybeRelease | cpp/rabbitmq/rabbitmq-c-0.8.0/librabbitmq/amqp_connection.c:438-462 | the pool of a channel is recycled exactly when the connection is idle and no queued frame is on the channel, and is untouched otherwise |
| PoolTables.PoolTable.ReleaseBuffers | cpp/rabbitmq/rabbitmq-c-0.8.0/librabbitmq/amqp_connection.c:417-429 | the walk over all buckets recycles exactly the pools of channels without a queued frame and leaves the others as they were |
| PropertyClone.CloneBytes | cpp/rabbitmq/rabbitmq-c-0.8.0/librabbitmq/amqp_consumer.c:45-54 | a copy with the same content in the given pool, which disturbs nothing the pool handed out before |
| PropertyClone.CloneProperties | cpp/rabbitmq/rabbitmq-c-0.8.0/librabbitmq/amqp_consumer.c:37-117 | same flags and contents, all in the message's own pool, the original untouched |
| ReleaseRuns.StepKeeps | cpp/rabbitmq/rabbitmq-c-0.8.0/librabbitmq/amqp_connection.c:412-462 | every step of a connection's memory keeps the invariant |
| ReleaseRuns.NothingReachableIsRecycled | cpp/rabbitmq/rabbitmq-c-0.8.0/librabbitmq/amqp_connection.c:412-462 | at every point of every run, queued and half-received frames lie in live memory and hold the bytes received |
| ReleaseRuns.GrantsAvoidReachable | cpp/rabbitmq/rabbitmq-c-0.8.0/librabbitmq/amqp_mem.c:125-172 | memory handed out at any point of a run overlaps no frame that is still reachable |
| ReleaseRuns.MessagesNeverChange | cpp/rabbitmq/rabbitmq-c-0.8.0/librabbitmq/amqp_consumer.c:242-305 | a message returned to the application, gathered from any frames, keeps its whole content through the rest of the run, whatever is released |
| ReleaseRuns.AllocIsGrant | cpp/rabbitmq/rabbitmq-c-0.8.0/librabbitmq/amqp_mem.c:125-172 | what a pool answers is a grant the runs count with, and the runs then show the pool as it is |
| ReleaseRuns.RecycleIsRelease | cpp/rabbitmq/rabbitmq-c-0.8.0/librabbitmq/amqp_mem.c:88-94 | recycling a pool is the release of its channel that gives back its large blocks |
| Sha1.ChoiceForm | cpp/redis_cluster/sha1.cpp:45-46 | the rewritten choice function is the one of FIPS PUB 180-1, section 5 |
| Sha1.MajorityForm | cpp/redis_cluster/sha1.cpp:48 | the rewritten majority function is the one of FIPS PUB 180-1, section 5 |
| Sha1.SwapIsBigEndian | cpp/redis_cluster/sha1.cpp:33-35 | the rotated and masked little-endian load is the big-endian word |
| Sha1.Blk0 | cpp/redis_cluster/sha1.cpp:33-35 | delivers W(i) of the plain schedule for the first 16 rounds |
| Sha1.Blk | cpp/redis_cluster/sha1.cpp:41-42 | delivers W(i) from the circular block, which afterwards holds the last 16 words of the plain schedule |
| Sha1.R0 | cpp/redis_cluster/sha1.cpp:45 | one round in permuted registers, rounds 0 to 15 |
| Sha1.R1 | cpp/redis_cluster/sha1.cpp:46 | one round in permuted registers, rounds 16 to 19 |
| Sha1.R2 | cpp/redis_cluster/sha1.cpp:47 | one round in permuted registers, rounds 20 to 39 |
| Sha1.R3 | cpp/redis_cluster/sha1.cpp:48 | one round in permuted registers, rounds 40 to 59 |
| Sha1.R4 | cpp/redis_cluster/sha1.cpp:49 | one round in permuted registers, rounds 60 to 79 |
| Sha1.AllRounds | cpp/redis_cluster/sha1.cpp:78-98 | the 80 unrolled macro calls are the 80 rounds of the standard |
| Sha1.Transform | cpp/redis_cluster/sha1.cpp:54-110 | for every state and block the state becomes what section 7 of FIPS PUB 180-1 computes |
| Sha1.Context.constructor | cpp/redis_cluster/sha1.cpp:115-124 | nothing hashed yet |
| Sha1.CountAdds | cpp/redis_cluster/sha1.cpp:133-136 | adding in two halves with a carry counts the bits modulo 2^64 |
| Sha1.LengthTestWraps | cpp/redis_cluster/sha1.cpp:137-138 | the 32-bit length test is right exactly when j + len does not wrap |
| Sha1.Context.Update | cpp/redis_cluster/sha1.cpp:129-148 | the state is that of the longer message: counter, buffered rest and chained value |
| Sha1.Context.PadMessage | cpp/redis_cluster/sha1.cpp:176-187 | appends exactly the padding of section 4 of FIPS PUB 180-1, so the loop stops at 448 modulo 512 bits |
| Sha1.Context.Final | cpp/redis_cluster/sha1.cpp:153-195 | returns the FIPS PUB 180-1 digest of all bytes hashed |
| Sha1.HashPieces | cpp/redis_cluster/sha1.cpp:115-195 | hashing in any pieces of at most 2^32 - 64 bytes gives the digest of the concatenation |
| Fips180.LengthFieldIs | cpp/redis_cluster/sha1.cpp:176-180 | the eight length bytes are the digits of the bit count to the base 256, most significant first |
| KnownDigest.DigestOfAbc | cpp/redis_cluster/sha1.cpp:10-12 | the digest of "abc" is A9993E36 4706816A BA3E2571 7850C26C 9CD0D89D |
| Crc16.RegisterIsRemainder | cpp/redis_cluster/crc16.cpp:32-45 | a 16-bit shift register with polynomial 0x1021 holds the remainder of polynomial division |
| Crc16.EntryIsRemainder | cpp/redis_cluster/crc16.cpp:47-80 | all 256 table entries are the register after feeding the index byte bit by bit |
| Crc16.ByteAtOnce | cpp/redis_cluster/crc16.cpp:86 | one table step is eight bit steps, for every register and byte |
| Crc16.CrcContinues | cpp/redis_cluster/crc16.cpp:82-88 | going on from an intermediate value is hashing the concatenation |
| Crc16.Compute | cpp/redis_cluster/crc16.cpp:82-88 | the table-driven loop returns the bit-by-bit CRC of the text |
| Crc16.CrcIsRemainder | cpp/redis_cluster/crc16.cpp:32-88 | that CRC is the remainder of the text times x^16 |
| Crc16.CheckValue | cpp/redis_cluster/crc16.cpp:44 | the CRC of "123456789" is 31C3 |
| KeySlots.HashedPartIff | cpp/redis_cluster/r3c.cpp:125-151 | what is hashed is the hash tag of a key that has one and the whole of any other key |
| KeySlots.FindHashedPart | cpp/redis_cluster/r3c.cpp:132-150 | the two search loops find the part of the key that is hashed |
| KeySlots.KeyHashSlot | cpp/redis_cluster/r3c.cpp:132-151 | the lowest 14 bits of the remainder of the hashed part, as a number below 16384 |
| KeySlots.LowBitsAre | cpp/redis_cluster/r3c.cpp:127-128 | the lowest 14 bits are kept and the two above them cleared |
| KeySlots.ExampleSlots | cpp/redis_cluster/r3c.cpp:125-151 | the keys "foo" and "a{foo}b" have slot 12182 |
| KeySlots.SameTagSameSlot | cpp/redis_cluster/r3c.cpp:125-151 | keys with the same non-empty first tag share a slot |
| ClusterCache.OwnerIsLastListed | cpp/redis_cluster/r3c.cpp:2281-2309 | a slot is owned by the last listed node with a range over it, and by none if there is no such range |
| ClusterCache.OwnerByBounds | cpp/redis_cluster/r3c.cpp:2281-2309 | the same by the numbers: first <= slot <= last for a range of that node and for no range of a node listed later |
| ClusterCache.Client.Clear | cpp/redis_cluster/r3c.cpp:2519-2531 | all connections ever handed out have been freed, none twice, no slot has a record, and no record is leaked that was not before |
| ClusterCache.Client.ClearContexts | cpp/redis_cluster/r3c.cpp:2533-2541 | every connection of the node map is freed, and only connections not freed before |
| ClusterCache.Client.ClearSlots | cpp/redis_cluster/r3c.cpp:2543-2551 | every record in use is deleted, none twice |
| ClusterCache.CoveredTwiceNext | cpp/redis_cluster/r3c.cpp:2290-2306 | one more range covers a slot twice exactly when it meets a slot covered before |
| ClusterCache.Client.FillSlot | cpp/redis_cluster/r3c.cpp:2298-2304 | a slot gets a new record, and the one it had is leaked |
| ClusterCache.Client.FillRange | cpp/redis_cluster/r3c.cpp:2296-2305 | exactly the slots of the range get new records, and nothing is leaked exactly when all of them were empty |
| ClusterCache.Client.FillNode | cpp/redis_cluster/r3c.cpp:2290-2306 | after a listed node the slots follow the listing so far, and records have been leaked exactly when it covers a slot twice |
| ClusterCache.Client.Init | cpp/redis_cluster/r3c.cpp:2281-2309 | every slot has its owner of the layout and no connection, records are leaked exactly when the layout covers a slot twice; if the layout cannot be had, the client is empty |
| ClusterCache.Client.Create | cpp/redis_cluster/r3c.cpp:482-499 | a client in cluster mode exactly for more than one node, or none when its first layout cannot be had |
| ClusterCache.Client.FindOrConnect | cpp/redis_cluster/r3c.cpp:2376-2407 | a slot without a connection takes that of its node, and only a node without one is connected to; there is a connection then exactly when the node had one or can be reached |
| ClusterCache.Client.GetRedisContext | cpp/redis_cluster/r3c.cpp:2311-2421 | the cached connection is the one the simple lookup over the node map gives; a known connection is never replaced; there is one exactly when it was known or the slot has a node that can be reached |
| ClusterCache.Client.OneConnectionPerNode | cpp/redis_cluster/r3c.cpp:2311-2421 | no two live connections go to the same node |
| ClusterCache.Lifetime | cpp/redis_cluster/r3c.cpp:482-504 | over any life of a client: lookups go to the owner of the slot in the layout in force and reuse its connection; a lookup gets a connection exactly when there is an owner and it can be reached or was reached since the last refresh; every connection is freed exactly once; every record is deleted exactly once if and only if no layout covered a slot twice |
| ClusterCache.LeakOne | cpp/redis_cluster/r3c.cpp:2281-2309 | a layout of one node and two ranges that share a slot leaks a record |
| RetryProtocol.Inspect | cpp/redis_cluster/r3c.cpp:1837-1886 | whether a reply is the answer, and otherwise whether it ends the loop and with which error |
| RetryProtocol.TakeTurn | cpp/redis_cluster/r3c.cpp:1770-1887 | what one turn does up to its decision: what it sends and frees, the code and text it leaves, and whether it asks for a retry (`RetryProtocol.ContinuesIff`) |
| RetryProtocol.RedisCommand | cpp/redis_cluster/r3c.cpp:1761-1904 | for every behaviour of the server the loop makes a run: turns that ask for a retry, then one that does not or whose layout cannot be read, or none left |
| RetryProtocol.ContinuesIff | cpp/redis_cluster/r3c.cpp:1775-1882 | a turn asks for a retry exactly when there was no connection, a connection error with code 1, no reply without a time-out, or an unexpected reply under a text that starts with none of WRONGTYPE, ERR and NOSCRIPT |
| RetryProtocol.RunDoes | cpp/redis_cluster/r3c.cpp:1770-1887 | a run sends in exactly those of its turns that had a connection, and reads the layout anew in exactly those that asked for a retry |
| RetryProtocol.GoesOnIff | cpp/redis_cluster/r3c.cpp:1770-1887 | as long as turns are left, the next one follows exactly those that asked for a retry and whose layout could be read; the run ends with the exception of reading the layout exactly when that throws |
| RetryProtocol.TextInForce | cpp/redis_cluster/r3c.cpp:1775-1863 | the text in force is that of the last turn that came with one |
| RetryProtocol.RunIsDisciplined | cpp/redis_cluster/r3c.cpp:1770-1887 | a send is followed by another one only when it brought no reply without having timed out, or an unexpected reply under a text that starts with none of WRONGTYPE, ERR and NOSCRIPT; the layout is read anew before every resend |
| RetryProtocol.RunIsAccounted | cpp/redis_cluster/r3c.cpp:1770-1904 | sends at most as often as configured, and frees each reply exactly once unless it is the one returned |
| RetryProtocol.RunReturns | cpp/redis_cluster/r3c.cpp:1843-1904 | returns nothing exactly when no attempt is allowed, and otherwise exactly the reply of the last turn if it is NIL, of the expected type or, with -1, no error |
| RetryProtocol.RunThrows | cpp/redis_cluster/r3c.cpp:1775-1900 | throws the text in force, with code -2 without a usable connection, 1 after an I/O error, -3 without a reply, -8 under a NOSCRIPT text, and otherwise the type of the reply |
| RetryProtocol.JudgedByOwnTextIff | cpp/redis_cluster/r3c.cpp:1858-1882 | a reply of an unexpected type is retried as its own text asks exactly when it has one or the text of the turns before would be retried too |
| RetryProtocol.ThrownAsOwnIff | cpp/redis_cluster/r3c.cpp:1858-1900 | the text and the code thrown are those of the reply itself exactly when it has a text or there was none before, and exactly when it has a text or the one before is no NOSCRIPT error |
| RetryProtocol.EarlierTextIsThrown | cpp/redis_cluster/r3c.cpp:1858-1900 | a reply without a text after a MOVED error: the MOVED text is thrown |
| RetryProtocol.EarlierTextEndsLoop | cpp/redis_cluster/r3c.cpp:1858-1882 | a reply without a text after a connection error whose text begins like a final one: the loop ends |
| Splitting.Split | cpp/redis_cluster/r3c.cpp:213-257 | the tokens joined by the separator are the source, and every cut is at the first possible place |
| Splitting.CutIsUnique | cpp/redis_cluster/r3c.cpp:213-257 | there is only one such list of tokens |
| HostCheck.RawEqual | cpp/rabbitmq/rabbitmq-c-0.8.0/librabbitmq/amqp_hostcheck.c:104-120 | equality up to the case of ASCII letters |
| HostCheck.ToUpperIff | cpp/rabbitmq/rabbitmq-c-0.8.0/librabbitmq/amqp_hostcheck.c:35-120 | two characters have the same capital exactly when they are equal or one is a letter a to z and the other its capital |
| HostCheck.RawNEqual | cpp/rabbitmq/rabbitmq-c-0.8.0/librabbitmq/amqp_hostcheck.c:122-137 | the same of the first `max` characters, or of all when there are fewer |
| HostCheck.HostMatch | cpp/rabbitmq/rabbitmq-c-0.8.0/librabbitmq/amqp_hostcheck.c:148-188 | the wildcard comparison where the wildcard is enabled, plain equality elsewhere |
| HostCheck.MatchIff | cpp/rabbitmq/rabbitmq-c-0.8.0/librabbitmq/amqp_hostcheck.c:153-187 | the pointer arithmetic accepts exactly prefix, non-empty middle and suffix in the left-most label and an equal rest |
| HostCheck.Check | cpp/rabbitmq/rabbitmq-c-0.8.0/librabbitmq/amqp_hostcheck.c:190-201 | matches exactly non-empty names that are equal up to case or covered by a wildcard of section 6.4.3 of RFC 6125 |
| HostCheck.WildcardStaysInLabel | cpp/rabbitmq/rabbitmq-c-0.8.0/librabbitmq/amqp_hostcheck.c:139-188 | a wildcard never matches across a dot |
| HSort.LargerChild | cpp/sort/hsort.cpp:33-69 | the child to change places with, none if no child is larger |
| HSort.SiftStep | cpp/sort/hsort.cpp:33-56 | moving the largest child up moves the only gap of the heap down |
| HSort.HeapAdjust | cpp/sort/hsort.cpp:26-72 | extends the heap arr[k/2] >= arr[k] by one cell, permuting no others |
| HSort.TopIsLargest | cpp/sort/hsort.cpp:8-24 | in a heap with parent k/2 the first cell holds the largest value |
| HSort.TopMoved | cpp/sort/hsort.cpp:15-23 | moving the top behind the heap keeps the sorted part sorted and above the heap |
| HSort.Sort | cpp/sort/hsort.cpp:8-24 | a non-decreasing permutation of the first n cells, the rest untouched |
| QuickSort.Partition | cpp/sort/quicksort.cpp:15-52 | splits the part at the final place of its first element; the pointers never cross |
| QuickSort.HalvesSorted | cpp/sort/quicksort.cpp:54-62 | sorting both sides of a split sorts the whole |
| QuickSort.Sort | cpp/sort/quicksort.cpp:54-62 | a non-decreasing permutation of the part, the rest untouched |
| QuickSort.Quicksort | cpp/sort/quicksort.cpp:64-67 | a non-decreasing permutation of the first len cells |
| HeapSort.SiftStep | cpp/sort/heapsort.cpp:16-44 | moving the smallest child up moves the only gap of the heap down |
| HeapSort.Heapify | cpp/sort/heapsort.cpp:16-44 | repairs the heap below a cell, by recursion on a cell further down |
| HeapSort.BuildHeap | cpp/sort/heapsort.cpp:6-14 | a heap with its smallest value on top, permuting the cells |
| HeapSort.TopIsSmallest | cpp/sort/heapsort.cpp:6-62 | in a heap the first cell holds the smallest value |
| HeapSort.TopMoved | cpp/sort/heapsort.cpp:51-61 | moving the top behind the heap keeps the sorted part sorted and below the heap |
| HeapSort.Heapsort | cpp/sort/heapsort.cpp:46-62 | a non-increasing permutation of the first length cells |
| ArithmeticSlices.RunGrows | cpp/problem/413.cpp:36-39 | a run that goes on ends one slice for every cell but its last two, and no other slice ends there |
| ArithmeticSlices.GapChanges | cpp/problem/413.cpp:16-35 | no slice ends where the difference changes |
| ArithmeticSlices.SliceIff | cpp/problem/413.cpp:7-50 | a slice is an arithmetic progression of at least three elements |
| ArithmeticSlices.NumberOfArithmeticSlices | cpp/problem/413.cpp:7-50 | the number of index pairs at least two apart between which all consecutive differences are equal; the loop ends though one branch does not advance |

## Left out

- Sockets, polling, clocks: what a socket takes or delivers, and when it stops, is a list of events or frames given to the model; a send that outlives its list is cut off with an error.
- Heartbeat timers and the frames queued while publishing (`amqp_try_recv`): a list of reports given to the sender (all well, too late, or an error); behind its end all is well.
- Method, property and table codecs (`amqp_framing.c`, `amqp_table.c`): arbitrary functions that respect the room they are given and, for round trips, read back what they wrote.
- Payloads too short for their own fixed fields (METHOD below 4 bytes, HEADER below 12) and frame lengths of 2^32 - 8 and above: the C code reads outside the payload or wraps; the model reports `OutsideModel`.
- Publishing.Sender.BasicPublish: asks for a frame limit of at least 20, below which the room for the property encoder wraps around in the C code; the body loop alone is proved for every limit above 8.
- Connections.Connection.Tune: the channel limit and the heartbeat settings, and the outbound buffer, which `Publishing.Sender` creates with a fixed limit.
- Delivery.Inbox.WaitFrameInner: timeouts and heartbeats sent while waiting are part of the given end of the stream; the release of channel 0 on a heartbeat is a Release event of `ReleaseRuns`.
- Delivery.Inbox.PutBackFrame: the queue is a sequence; its links and their pool memory are in `ReleaseRuns`.
- Delivery.Inbox.ReadBody: the check that a body size fits `size_t`.
- Failing allocations, here and in the pools: allocation succeeds.
- Pools.Pool.Alloc: amounts are unbounded, so rounding up does not wrap.
- PropertyClone.CloneProperties: the headers table of a message (`amqp_table_clone`) is not among the copied byte strings; the byte strings are a list instead of named members.
- ReleaseRuns.StepKeeps: blocks are numbered and pools appear by their contract (see ReleaseRuns.AllocIsGrant and ReleaseRuns.RecycleIsRelease); a greeting and the parts a message gathers are allowed more often than in the C code; frames the application still holds on a channel are given up when it releases the channel, as the interface asks of it.
- Sha1.Context.Update: messages of 2^64 bits and more are covered with their length modulo 2^64, as the counter has it; calls whose `j + len` wraps are excluded (see Sha1.LengthTestWraps), as they write past the context in C. Only the little-endian load is modelled.
- Crc16.EntryIsRemainder: the table is sixteen functions of sixteen entries instead of an array.
- ClusterCache.Client.FillNode: slot ranges lie in 0..16383; the C++ code does not check them and writes outside its vector otherwise.
- ClusterCache.Client.Init: the text of the cluster layout and the short-lived connection that fetches it (`list_nodes`) are an input, present or not.
- RetryProtocol.RedisCommand: the turns of the loop meet a given list of events; connections and layout appear as events, not as a `ClusterCache.Client`; the node of an error and the log are left out.
- Splitting.Split: the option to skip repeated separators, which only makes sense for separators of one character.
- HostCheck.RawEqual: the 26 cases of `amqp_raw_toupper` are one range of characters.
- Sorting and counting use unbounded integers as elements and counts; index arithmetic does not overflow.
- TLS, hiredis, the single Redis commands, Lua scripts, command-line tools, servers and examples: input and output or thin wrappers.
- `cpp/redis_cluster2`, `tinyurl.cpp`, `ipv4.cpp`, `min_span.cpp` and the remaining exercises: copies, code that does not do what it is meant to, or easy members.
