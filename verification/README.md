# Novagate: a verified model

A Dafny model of two parts of Novagate, a TCP gateway written in Go, with proofs about them:

- **the connection engine**: length-field frames over an arbitrarily split byte stream, frame and message codecs, gzip flags, a per-connection byte quota and token bucket, command dispatch, response encoding, and the client program at the other end;
- **the access-control stores**: the in-memory store on nested maps and the Redis store on a flat keyspace with two indexes, both against one flat "last write wins" ledger;
- and the **command registry**, which keeps a map from methods to commands and one from commands to methods.

Check everything with `dafny verify dfyconfig.toml`.

## Layout

| file | content |
|---|---|
| `Wrappers`, `Sequences`, `Bytes`, `Clock` | option and result types, laws of concatenation and enumerations, big-endian integers, time |
| `Frames`, `Messages`, `Bodies` | the codecs and the flag handling around an abstract compressor |
| `ConnLimits`, `Throughput` | quota and token bucket in int64 arithmetic; the rate limit of a whole connection |
| `Engine` | what a connection does with its bytes, as functions on values |
| `Connection`, `Client` | the same on mutable objects: buffer, wire, router, connection handler, client |
| `Streams` | independence of how reads split the stream; the exact effect of the buffer quota |
| `Dispatch` | what becomes of a frame, told from its bytes and the command table, over every run |
| `Conversation` | order of dispatch, the server's output under every ending, and a request and its answer end to end |
| `Registry` | the command registry |
| `Ledger`, `Outcomes` | what a store promises; its answers after any run told from the arguments of the calls |
| `Trees`, `MemoryStore`, `MemoryRefinement` | the in-memory store and its refinement of the ledger |
| `RedisServer`, `RedisKeys`, `RedisStore` | Redis commands, key builders, store calls as command lists |
| `RedisIndex`, `RedisRefinement` | the effect of commands on both indexes, and the refinement of the ledger |
| `RedisDrift` | exactly which calls make the two indexes differ |
| `RedisTenants` | exactly which tenant IDs keep the refinement true |
| `CrossStore` | the two stores compared |

## How to read the statements

- `Engine.Serve` is the connection loop over the chunks the reads return until EOF; `Engine.Process` is one pass over a buffer. Handlers are functions of all messages dispatched before on the connection and the current one. `Env.clock(k)` is the clock reading of the k-th call of `Allow`, and `plan` fixes the outcome of every write, short and failing writes included.
- Times are integers in nanoseconds since the Unix epoch; `Seconds` is Go's `Unix()`, rounded down.
- `Ledger.ClocksUpTo(calls, limit)` bounds the clocks that grants read while a run lasts. Queries answer like the ledger when they ask about a time at or after `limit`. The clocks need not be ordered.
- `validFrom` is checked against `validTo` and then forgotten, as in the code; no statement says that a grant starts at `validFrom`.
- `RedisIndex.Apart(tenants)` says that no two tenant IDs in use are confusable. This is exactly the condition under which keys of different tenants never coincide (`RedisKeys.CollisionsExactly`) and under which every query is answered like the ledger (`RedisTenants.RefinesExactly`), and IDs without colons, such as UUIDs, meet it (`RedisKeys.ColonFreeApart`). Document and user IDs are arbitrary.
- The Redis store runs each call to completion, command by command. `Reaches` leaves the order in which `RevokeAllUser` visits documents open, as Go leaves the iteration order of a map.
- `ConnLimits.Schedule` asks of each call of `Allow` that the time since the last refill, and its product with the rate, fit an int64. The refill restarts that time, so a run may last arbitrarily long, and its clock may step back. `ConnLimits.Ordered` drops the condition on the product for clocks that do not step back.
- `Registry.Conflicting(t, calls)` says that two well-formed registrations, one of them possibly already in the tables, give one command to different names.

Findings where a plausible property fails, with the exact condition:

- A method name registered with a blank next to its last dot is bound but cannot be looked up, because registration trims only the ends of the name and lookup also trims both parts. The names some lookup reaches are exactly those without such a blank (`Registry.ReachedExactly`), and under strict mapping a registered method is found under its own name exactly in that case, unless the registry is blocked (`Registry.RegisteredNameFound`).
- A registration that conflicts panics while it holds the write lock (protocol/mapper.go:41-44). If the panic is recovered, no later lookup of a well-formed name returns: this happens exactly when two registrations of the run give one command to different names (`Registry.LookupsReturnExactly`, with `Registry.BlockedExample`).
- The token bucket's product of elapsed nanoseconds and rate leaves the int64 range after an idle time of 2^63/rate nanoseconds, and from then on the credit is wrong (`ConnLimits.CreditExact`). The verdict is wrong exactly when the bucket is empty and the product is misjudged: it is worth a token and wraps around to a negative number or to less than one token, or it is not and wraps around to one or more (`ConnLimits.VerdictExact`). With the default rate the first happens right after the range is left (`ConnLimits.OverflowStarves`), the second after a clock stepped back as far (`ConnLimits.BackwardFills`).
- The rate limit holds if no product overflows (`ConnLimits.WindowLimit`), and also if some do and the clock never steps back (`ConnLimits.WindowLimitAnyway`). If products overflow and the clock steps back by as little as 1 ns, almost twice the burst can pass within that nanosecond (`ConnLimits.LimitExceeded`): whatever the clock does, the limit is kept exactly at the rate of 1, which never overflows (`ConnLimits.AnyClockExactly`, for rates below 1e9 and bursts from 2 to 9e9).
- The write loop can put all bytes of a response on the wire and still report a failure (`Engine.SentYetFailed`): success is reported exactly when the writes before the first failing one take all of the data (`Engine.WriteSucceedsExactly`).
- The two Redis indexes drift apart. They differ at a triple exactly if its last grant, an expiring one, was taken off one side and not off the other, and the calls tell which (`RedisDrift.DriftExactly`). RevokeAllUser leaves an ended grant on the document side exactly if the user side had lost it before (`RedisDrift.RevokeAllComplete`); `RedisDrift.DocSideLeftover` gives such calls.
- The two maps of the registry are not inverse to each other once a name was given a second command: the first command stays taken (`Registry.RenumberedExample`). They are inverse exactly if no name was given two commands before the first conflict (`Registry.InverseExactly`).
- Tenant IDs with colons can mix up two tenants: any two confusable ones admit calls after which a query is answered unlike the ledger (`RedisTenants.ConfusableMisled`).

The frame codec accepts bodies up to 1 MiB (protocol/frame.go:18), but a connection holds at most 262144 bytes: frames up to 258049 bytes always get through, larger ones can be refused, and those over 262144 bytes are never dispatched.

## Model

| member | source | states |
|---|---|---|
| Bytes.DecodeInteger | protocol/frame.go:75-82 | big-endian decoding undoes encoding for every number that fits the width |
| Bytes.EncodeInteger | protocol/frame.go:38-50 | encoding undoes decoding for every byte string |
| Bytes.PutBigEndian | protocol/frame.go:75-82 | writes exactly the big-endian bytes in place and leaves the rest of the buffer alone |
| Frames.Encode | protocol/frame.go:68-85 | the buffer filled in place is the frame's encoding; panics exactly on bodies over 1 MiB |
| Frames.DecodeEncoding | protocol/frame.go:33-85 | decoding an encoding followed by anything returns the frame (version 0 as 1) and consumes exactly the encoding; other versions are refused |
| Frames.EncodeDecoded | protocol/frame.go:33-66 | whatever decodes re-encodes to exactly the consumed bytes, at least 8 and at most all of the buffer |
| Frames.DecodeStable | protocol/frame.go:33-66 | a frame or an error is unchanged by bytes that follow |
| Frames.StrictPrefixIncomplete | protocol/frame.go:34-57 | every strict prefix of a valid encoding is incomplete |
| Frames.InvalidExactly | protocol/frame.go:38-52 | an error is reported exactly when a header is complete and no continuation is a frame |
| Frames.IncompleteExactly | protocol/frame.go:33-57 | more bytes are awaited exactly while the header is not complete or the bytes are a strict prefix of some frame |
| Frames.CompleteExactly | protocol/frame.go:33-66 | a frame is decoded exactly if the bytes start with its encoding |
| Frames.DecodeBytes | protocol/frame.go:10-66 | decoding byte by byte, with the magic CA FE, version 1 and the limit of 1048576 in numbers |
| Frames.ParseEncodings | protocol/frame.go:33-85 | a concatenation of encodings parses back to the same list, whatever follows |
| Frames.ParseLossless | protocol/frame.go:33-85 | the frames parsed from a buffer and its leftover re-encode to the whole buffer |
| Frames.ParseAppend | protocol/frame.go:33-66 | parsing more bytes only adds frames at the end |
| Messages.EncodeMessage | protocol/message.go:18-24 | the buffer filled in place is command, request ID and payload in order |
| Messages.DecodeMessageBytes | protocol/message.go:18-36 | decoding undoes encoding for every message |
| Messages.EncodeDecodedMessage | protocol/message.go:26-36 | decoding succeeds exactly from 10 bytes on, and then encoding undoes it |
| Messages.MessageLayout | protocol/message.go:18-24 | the bytes of a message in numbers |
| Bodies.FlagBits | protocol/frame.go:21-25 | the arithmetic flag tests of the model are the bit tests of the source |
| Bodies.BodyRoundTrip | protocol/compress.go:12-83 | encoding fails exactly for encrypted frames; a body comes back exactly if it was not compressed or is at most 1 MiB |
| ConnLimits.ConnContext.constructor | conn_ctx.go:17-26 | quota 262144, 100 tokens, rate 100, burst 200 |
| ConnLimits.ConnContext.Reserve | conn_ctx.go:28-31 | charges the bytes, also when refusing, and accepts up to the quota |
| ConnLimits.ConnContext.Allow | conn_ctx.go:37-57 | new bucket and verdict as functions of the old bucket and the clock |
| ConnLimits.CreditExact | conn_ctx.go:39-41 | the credit is rate times elapsed seconds, truncated toward zero, exactly while elapsed time and product fit an int64 |
| ConnLimits.VerdictExact | conn_ctx.go:37-57 | for every clock reading, also one before the last refill: the verdict is that of exact arithmetic unless the bucket is empty and wrapping around hides or invents a token; then, and only then, it is wrong |
| ConnLimits.OverflowStarves | conn_ctx.go:39-54 | an input on which the overflow refuses an idle connection |
| ConnLimits.BackwardFills | conn_ctx.go:39-54 | an input on which a clock that steps back fills an empty bucket |
| ConnLimits.CallStep | conn_ctx.go:37-57 | tokens stay between 0 and burst - 1; balance, cap and discarded fraction of one call |
| ConnLimits.WindowLimit | conn_ctx.go:37-57 | after any run whose calls are each in int64 range of the refill before them, the calls admitted from start to end number at most burst + floor((end - start) * rate / 1e9); the run may be arbitrarily long and its clock may step back |
| ConnLimits.WindowLimitAnyway | conn_ctx.go:37-57 | the same limit with a clock that does not step back, whatever products overflow |
| ConnLimits.LimitExceeded | conn_ctx.go:37-57 | for every rate from 2 to below 1e9, a bucket and calls within 1 ns that exceed the limit when products overflow and the clock steps back |
| ConnLimits.AnyClockExactly | conn_ctx.go:37-57 | for rates below 1e9 and bursts from 2 to 9e9: some clock makes the bucket exceed the limit exactly if the rate is not 1 |
| ConnLimits.CreditLoss | conn_ctx.go:41-49 | the credit of a run of such calls never exceeds what the time to its last refill earned, and is more than half of it once there was a refill |
| ConnLimits.SpacedNeverRefused | conn_ctx.go:39-56 | calls whose gaps are at least 1e9/rate ns are all admitted exactly if the tokens pay for those that come less than 1e9/rate ns after the last refill |
| ConnLimits.FullBucket | conn_ctx.go:43-56 | a bucket filled by idle time admits exactly burst calls at once |
| Throughput.DispatchRate | conn_handler.go:76-107 | whatever arrives, a connection whose clock reads times from start to end dispatches at most burst + floor((end - start) * rate / 1e9) frames, under either condition on the clock |
| Engine.WriteAll | conn_handler.go:146-164 | what is sent is a prefix of the data, and all of it if success is reported; without a failing write success is reported |
| Engine.WriteSucceedsExactly | conn_handler.go:146-164 | success is reported exactly when the writes before the first failing one take all of the data; otherwise exactly what they and the failing write take is sent |
| Engine.SentYetFailed | conn_handler.go:156-163 | an input on which all of the data is sent and a failure is reported |
| Connection.ByteBuffer.Append | conn_handler.go:66 | the contents grow by exactly the chunk |
| Connection.ByteBuffer.Compact | conn_handler.go:96-97 | the contents after moving in place are exactly the suffix |
| Connection.Wire.WriteAll | conn_handler.go:146-164 | the write loop sends what the specification sends and stops at the first failure |
| Connection.ConnHandler.HandleFrame | conn_handler.go:102-125 | limiter, body, message, dispatch and answer in this order, with the state each error leaves; what that is, Dispatch tells |
| Connection.ConnHandler.Answer | conn_handler.go:127-144 | fills the request ID, keeps only the compression flag, encodes and writes |
| Connection.ConnHandler.ReadIntoBuffer | conn_handler.go:54-74 | stores the chunk, or refuses it exactly if buffer and chunk exceed 262144 bytes; the quota equals the buffer length |
| Connection.ConnHandler.ProcessBufferedFrames | conn_handler.go:76-100 | handles all complete frames in order; the buffer is then exactly the unparsed suffix and the quota its length |
| Connection.ConnHandler.HandleConn | conn_handler.go:20-46 | the read loop on mutable state computes `Engine.Serve`; without an error the quota equals the buffer length |
| Streams.ProcessAppend | conn_handler.go:76-100 | processing a buffer and later its leftover plus more is processing everything at once |
| Streams.ServeIsProcess | conn_handler.go:32-45 | unless the quota refuses a read, the loop ends exactly as one pass over the whole stream |
| Streams.ChunkingIndependent | conn_handler.go:32-100 | the same bytes under two splits and two clocks give the same dispatches, output, error and leftover unless quota or limiter refuses |
| Streams.QuotaNeverTrips | conn_handler.go:61-66 | streams of frames of at most 258049 bytes never trip the quota under any reads of at most 4096 bytes |
| Streams.QuotaTrips | conn_handler.go:61-66 | every larger frame followed by 4095 bytes is refused under some reads |
| Streams.SafeFrameExact | conn_ctx.go:28-31 | a frame size limit is safe under all reads if and only if it is at most 258049 |
| Streams.Limits | conn_ctx.go:17-26 | the limits in numbers |
| Streams.ServeFits | conn_handler.go:54-100 | the buffer never exceeds 262144 bytes and no larger frame is ever dispatched |
| Streams.OversizedBlocks | protocol/frame.go:50-57 | a frame the codec accepts but the buffer cannot hold blocks the connection: nothing is dispatched or written |
| Conversation.DispatchOrder | conn_handler.go:76-92 | for every run and every ending, the dispatched frames are the first frames of the stream, in order, once each |
| Dispatch.FrameRefused | conn_handler.go:102-121 | a frame is not dispatched, ends the connection and writes nothing exactly if it is not admitted, carries no message or its command is not registered |
| Dispatch.RefusalKind | conn_handler.go:102-121 | which error a refused frame gets, in the order of the checks |
| Dispatch.FrameDispatched | router.go:32-40 | any other frame is dispatched once to the handler of its command, which sees the messages before it |
| Dispatch.QuietOutcome | conn_handler.go:119-125 | a failure ends the connection; no message or a one-way request writes nothing |
| Dispatch.AnswerOutcome | conn_handler.go:127-144 | an answer is sent with its ID and flags, or is too large to be encoded |
| Dispatch.ServeGenuine | conn_handler.go:102-121 | over every run, each dispatched command is registered, its reply is its handler's, and its request was unencrypted and carried the message in at most 1 MiB |
| Dispatch.ProcessError | conn_handler.go:76-92 | a format error ends the connection, and is reported only if the bytes have it |
| Conversation.ResponseReadable | conn_handler.go:127-143 | a response is compressed iff its request was and has no other flag; it decodes to the answer with the request's ID if it had none, or is refused exactly if compressed and over 1 MiB inflated |
| Conversation.ServerOutput | conn_handler.go:102-144 | without an error, the dispatched frames are those of the stream and the output parses to one response per two-way frame with an answer, in order |
| Conversation.OutputOrder | conn_handler.go:32-164 | for every ending, the output is the responses to the completed exchanges in stream order and a part of the response it stopped at; it stops within an exchange exactly if the handler failed, the response was too large or the write failed |
| Conversation.OutputParses | conn_handler.go:76-164 | for every ending, the peer parses exactly the completed responses, and the one it stopped at only if all of its bytes were written |
| Client.SendRequest | cmd/client/main.go:97-110 | writes the request frame in one write, or fails before writing anything |
| Conversation.RequestFrameExactly | cmd/client/main.go:97-107 | a request is refused exactly for the encryption bit or a body over 1 MiB; else its frame has the flags given and carries it |
| Client.ReadResponse | cmd/client/main.go:112-138 | the read loop computes the reply found in the stream, which the next rows tell |
| Conversation.ReplyExactly | cmd/client/main.go:112-138 | the client gets a message exactly if what arrived, in whatever reads, starts with a frame that carries it |
| Conversation.ReplyOutcomes | cmd/client/main.go:112-138 | without a frame at the start: a read error exactly if the header is not complete or the bytes are a strict prefix of a frame, else a frame error |
| Conversation.ReadErrors | cmd/client/main.go:123-131 | why a frame gives the client no message |
| Conversation.NoReply | cmd/client/main.go:133-136 | no bytes at all give a read error |
| Conversation.AnyReads | cmd/client/main.go:117-137 | however a response is split and whatever follows, the client reads that response |
| Conversation.RequestServed | main.go:281-293 | a request to a bridged handler is served without an error exactly under the listed conditions, and then one response is written |
| Conversation.AnswerReceived | main.go:279-293 | under any reads on both sides the client gets the registered command, its request ID and the returned payload, or exactly if that is compressed and inflates to over 1 MiB an error |
| Registry.Mapper.RegisterFullMethodCommand | protocol/mapper.go:32-48 | new tables and outcome; a panic leaves both tables unchanged, and the conflict panic leaves the lock held |
| Registry.Mapper.MapMethodToCommand | protocol/mapper.go:50-74 | registered command, strict-mode error or hash of the split name; a well-formed name waits forever if the lock is held |
| Registry.RunConsistent | protocol/mapper.go:41-47 | over every run the two tables agree, names are well-formed, and no bound command changes its method |
| Registry.MethodsInjective | protocol/mapper.go:41-46 | no two methods share a command |
| Registry.BoundExactly | protocol/mapper.go:41-47 | a command is bound to a name exactly by a well-formed registration before the first conflict |
| Registry.InverseExactly | protocol/mapper.go:41-47 | the two tables are inverse to each other exactly if no name was given two commands before the first conflict |
| Registry.RenumberedExample | protocol/mapper.go:41-47 | a name given two commands keeps both taken |
| Registry.LookupKeyNormal | protocol/mapper.go:50-87 | the key a lookup uses is its own lookup key |
| Registry.TrimExactly | protocol/mapper.go:33 | trimming takes off the blanks at both ends and nothing else |
| Registry.SplitExactly | protocol/mapper.go:76-87 | a name is well-formed exactly if it has nonblank parts around its last dot, and is split into them, trimmed |
| Registry.LookupExactly | protocol/mapper.go:50-74 | every lookup after any run from the calls: waiting after a clash, else the last registration's command, else an error if the mode was last set to strict and the hash of the parts if not |
| Registry.FreshLookup | protocol/mapper.go:65-73 | a fresh registry answers with the hash of the parts |
| Registry.RegistrationExactly | protocol/mapper.go:32-48 | the outcome of every registration after any run from the calls |
| Registry.LastRegistrationWins | protocol/mapper.go:41-64 | every spelling of a name maps to its last registration, exactly unless a registration after it conflicts; then the lookup never returns |
| Registry.LockedExactly | protocol/mapper.go:41-47 | a run leaves the lock held exactly when one of its registrations clashes with the tables or with an earlier one |
| Registry.LookupsReturnExactly | protocol/mapper.go:41-62 | after any run of a fresh registry, lookups of well-formed names return exactly if no two registrations gave one command to different names |
| Registry.BlockedExample | protocol/mapper.go:41-62 | two registrations after which a registered method is never looked up again |
| Registry.OwnKey | protocol/mapper.go:50-87 | a name is looked up under its own trimmed spelling exactly if no blank is next to its last dot |
| Registry.RegisteredNameFound | protocol/mapper.go:32-67 | in strict mode a registered name is found again exactly if it has no blank next to its last dot and no later registration conflicts |
| Registry.ReachedExactly | protocol/mapper.go:50-59 | some lookup reaches a trimmed name exactly if no blank is next to its last dot |
| Registry.BlankedNameLost | protocol/mapper.go:33-67 | every name with a blank after its last dot is registered and then not found in strict mode |
| Registry.StrictOnlyRegistered | protocol/mapper.go:65-67 | in strict mode a successful lookup comes from a registration of that name with that command |
| Ledger.LastWriteWins | services/acl/internal/acl/store_interface.go:17-33 | the ledger holds what the last accepted call about a triple decided |
| Ledger.GrantSource | services/acl/internal/acl/store_interface.go:17-33 | every grant in the ledger comes from the last call that decided it |
| Outcomes.GrantOutcome | services/acl/internal/acl/inmemory_store.go:277-287 | a grant is in force afterwards exactly if its IDs are there and it does not, with both times given, end before it starts; else nothing changes |
| Outcomes.RevokeOutcome | services/acl/internal/acl/store_interface.go:17-33 | a revocation with its IDs takes away exactly that grant |
| Outcomes.RevokeAllOutcome | services/acl/internal/acl/store_interface.go:17-33 | RevokeAllUser with its IDs leaves exactly the grants of other users and tenants |
| Outcomes.VisibilityOutcome | services/acl/internal/acl/inmemory_store.go:39-57 | exactly public and restricted are accepted, and change only the document named |
| Outcomes.HeldExactly | services/acl/internal/acl/store_interface.go:17-33 | a grant holds exactly if some call granted it, none took it away or granted anew since, and it has not ended |
| Outcomes.RestrictedExactly | services/acl/internal/acl/store_interface.go:17-33 | a document is restricted exactly if the last accepted visibility says so |
| Outcomes.CheckBatchExactly | services/acl/internal/acl/store_interface.go:17-33 | the ledger's answer after any run: exactly the documents that pass, as often as asked for, in order |
| Outcomes.ListGrantsExactly | services/acl/internal/acl/store_interface.go:17-33 | the ledger's list after any run: exactly the documents held |
| Outcomes.ZeroTime | services/acl/internal/acl/inmemory_store.go:134-136 | the zero time is 719162 days before the epoch |
| MemoryStore.InMemoryStore.SetVisibility | services/acl/internal/acl/inmemory_store.go:39-57 | stores the visibility after the argument checks |
| MemoryStore.InMemoryStore.Grant | services/acl/internal/acl/inmemory_store.go:59-92 | refuses missing IDs and intervals that end before they start, unchanged; else purges the document's expired grants and moves the grant to the right map; maps stay disjoint and pruned |
| MemoryStore.InMemoryStore.ValidateGrantArgs | services/acl/internal/acl/inmemory_store.go:277-287 | missing IDs first, then an interval that ends before it starts |
| MemoryStore.InMemoryStore.PurgeExpired | services/acl/internal/acl/inmemory_store.go:67-83 | removes exactly the document's grants that ended before the clock |
| MemoryStore.InMemoryStore.GrantPermanent | services/acl/internal/acl/inmemory_store.go:289-314 | adds the permanent edge and removes the expiring one |
| MemoryStore.InMemoryStore.GrantExpiring | services/acl/internal/acl/inmemory_store.go:316-341 | sets the expiring edge and removes the permanent one |
| MemoryStore.InMemoryStore.Revoke | services/acl/internal/acl/inmemory_store.go:94-125 | removes the edge from both maps |
| MemoryStore.InMemoryStore.RevokeAllUser | services/acl/internal/acl/inmemory_store.go:215-252 | removes exactly the user's edges in the tenant from both maps |
| MemoryStore.InMemoryStore.CheckBatch | services/acl/internal/acl/inmemory_store.go:127-157 | keeps the documents allowed at the time given, or at the current time if it is zero, in order with repetitions |
| MemoryStore.InMemoryStore.ListGrants | services/acl/internal/acl/inmemory_store.go:159-213 | lists exactly the documents with a grant live at the time given, or at the current time if it is zero, each once |
| MemoryStore.InMemoryStore.Stats | services/acl/internal/acl/inmemory_store.go:254-275 | the sums over the nested maps are the numbers of stored facts |
| Trees.DeleteEdge | services/acl/internal/acl/inmemory_store.go:102-112 | deletes one edge and leaves no empty inner map |
| Trees.AddEdge | services/acl/internal/acl/inmemory_store.go:290-300 | adds one edge, creating inner maps as needed |
| Trees.DeleteUser | services/acl/internal/acl/inmemory_store.go:223-236 | deletes a user from every document of a tenant and leaves no empty inner map |
| Trees.CountEdges | services/acl/internal/acl/inmemory_store.go:264-273 | the sum of the inner sizes is the number of distinct triples |
| MemoryRefinement.RunRefines | services/acl/internal/acl/inmemory_store.go:39-125 | after every run the store stands for the ledger up to grants that had ended by the latest clock |
| MemoryRefinement.CheckBatchRefines | services/acl/internal/acl/inmemory_store.go:127-157 | after every run, a query at or after the clocks gets exactly the ledger's answer |
| MemoryRefinement.ListGrantsRefines | services/acl/internal/acl/inmemory_store.go:159-213 | the same for the list of grants |
| MemoryRefinement.AnswersExactly | services/acl/internal/acl/inmemory_store.go:39-157 | the store's answer after any run from the arguments of its calls: exactly the documents that pass, as often as asked for, in order |
| MemoryRefinement.ListExactly | services/acl/internal/acl/inmemory_store.go:39-213 | the store's list after any run from the arguments of its calls |
| MemoryRefinement.HoldsExactly | services/acl/internal/acl/inmemory_store.go:67-83 | for every time, also past ones, the store misses a ledger grant exactly if a call after the granting one, a grant on the document with a clock past its end, purged it |
| MemoryRefinement.RevokeAllCounts | services/acl/internal/acl/inmemory_store.go:215-275 | RevokeAllUser lowers the edge counts by exactly the user's stored triples in the tenant |
| RedisKeys.RenderInjective | services/acl/internal/acl/redis_store.go:306-324 | the five key builders are injective and pairwise disjoint for tenants that are not confusable |
| RedisKeys.CollisionsExactly | services/acl/internal/acl/redis_store.go:306-324 | two tenants have a key in common exactly if they are confusable |
| RedisKeys.ColonFreeApart | services/acl/internal/acl/redis_store.go:306-324 | tenants without colons are never confusable |
| RedisKeys.DocKeyLayout | services/acl/internal/acl/redis_store.go:306-324 | the keys of a document spelled out |
| RedisKeys.UserKeyLayout | services/acl/internal/acl/redis_store.go:306-324 | the keys of a user spelled out |
| RedisServer.Redis.Pipeline | services/acl/internal/acl/redis_store.go:99 | a pipeline executes its commands one after the other |
| RedisStore.RedisStore.SetVisibility | services/acl/internal/acl/redis_store.go:47-61 | sends one command, which deletes the key for public and stores the text for restricted; none if rejected |
| RedisStore.RedisStore.Grant | services/acl/internal/acl/redis_store.go:63-116 | refuses missing IDs and intervals that end before they start and sends nothing; else sends exactly the commands of a grant in the order of the two pipelines, with the resulting keyspace |
| RedisStore.RedisStore.Revoke | services/acl/internal/acl/redis_store.go:118-132 | sends exactly the four removals in order, none if rejected, with the resulting keyspace |
| RedisStore.RedisStore.RevokeAllUser | services/acl/internal/acl/redis_store.go:234-271 | sends exactly the removals for some order of the documents on the user side, then the deletion of the two user keys; nothing if rejected |
| RedisStore.RedisStore.CheckBatch | services/acl/internal/acl/redis_store.go:134-190 | the two loops over documents and replies keep the documents allowed at the time given, or at the current time if it is zero, in order with repetitions |
| RedisStore.RedisStore.ListGrants | services/acl/internal/acl/redis_store.go:192-232 | lists exactly the documents held on the user side at the time given, or at the current time if it is zero, each once |
| RedisIndex.ExecEntry | services/acl/internal/acl/redis_store.go:81-98 | the effect of one command on both indexes at any triple |
| RedisIndex.GrantEntries | services/acl/internal/acl/redis_store.go:81-112 | the effect of a whole grant on both indexes, cleanup included |
| RedisIndex.RevokeAllEntries | services/acl/internal/acl/redis_store.go:263-269 | the effect of RevokeAllUser on both indexes for any order of documents |
| RedisRefinement.ReachableRefines | services/acl/internal/acl/redis_store.go:47-271 | every reachable keyspace stands for the ledger, and its two indexes agree except for entries expired by the latest clock |
| RedisRefinement.CheckBatchRefines | services/acl/internal/acl/redis_store.go:134-190 | after every run, a query at or after the clocks gets exactly the ledger's answer by whole seconds |
| RedisRefinement.ListGrantsRefines | services/acl/internal/acl/redis_store.go:192-232 | the same for the list of grants |
| RedisRefinement.AnswersExactly | services/acl/internal/acl/redis_store.go:47-190 | the store's answer after any run from the arguments of its calls: exactly the documents that pass by whole seconds, as often as asked for, in order |
| RedisRefinement.ListExactly | services/acl/internal/acl/redis_store.go:47-232 | the store's list after any run from the arguments of its calls |
| RedisRefinement.HoldsExactly | services/acl/internal/acl/redis_store.go:90-91 | for every time, also past ones, the store misses a ledger grant exactly if a call after the granting one, an expiring grant to the user with a clock past its end, purged it |
| RedisRefinement.SomeReachable | services/acl/internal/acl/redis_store.go:47-271 | every sequence of calls leads to a reachable keyspace |
| RedisRefinement.ReachableEntry | services/acl/internal/acl/redis_store.go:234-271 | the calls alone determine both indexes at every triple, whatever order RevokeAllUser visited documents in |
| RedisRefinement.NoGap | services/acl/internal/acl/redis_store.go:81-113 | after any number of commands of one grant, access is held if held before and after, only if held before or after, and no other triple's access differs |
| RedisDrift.EntryExactly | services/acl/internal/acl/redis_store.go:63-271 | both sides of every entry from the calls since the last grant or revocation of its triple |
| RedisDrift.DriftExactly | services/acl/internal/acl/redis_store.go:88-98 | in every reachable keyspace the two sides of a triple differ exactly if its last, expiring grant was taken off one side only, and which side still has it |
| RedisDrift.RevokeAllComplete | services/acl/internal/acl/redis_store.go:234-271 | no permanent and no live entry of the user is left on either side; an ended one is left on the document side exactly if the user side had lost it before; others are untouched |
| RedisDrift.DocSideLeftover | services/acl/internal/acl/redis_store.go:90-91 | calls and a keyspace they reach in which an expired entry is left on the document side only |
| RedisTenants.ConfusableMisled | services/acl/internal/acl/redis_store.go:306-324 | any two confusable tenants admit calls and a query answered unlike the ledger |
| RedisTenants.RefinesExactly | services/acl/internal/acl/redis_store.go:134-324 | a set of tenants has every query answered like the ledger exactly if no two of its nonempty IDs are confusable |
| CrossStore.PrecisionDifference | services/acl/internal/acl/redis_store.go:290-304 | exact and whole-second answers differ exactly on grants that end within the current second |
| CrossStore.StoresAgree | services/acl/internal/acl/redis_store.go:161-171 | after the same calls the Redis answer is the in-memory answer without exactly those documents |

## Left out

- A nil router, sockets, deadlines, idle timeouts, the accept loop with its backoff, and context cancellation: reads are a sequence of chunks followed by EOF, writes a sequence of outcomes. Reads that return bytes together with an error are not modelled.
- The release of the quota when a connection ends: the deferred call releases the length the buffer had at the start, which is zero (conn_handler.go:30), so nothing is claimed about the quota after the loop.
- Payloads alias the receive buffer in the source (protocol/frame.go:62). The model passes bytes by value, so a handler that keeps a payload beyond its call is outside it.
- The content of gzip archives: a pair of functions such that inflating undoes compressing. Archives that fail only after the first 1 MiB report the same kind of error in the model and a different text in the source.
- Client.SendRequest: the single write follows Go's contract that a short write returns an error; the model also allows short writes without one, and then claims only what was sent.
- Connection.ConnHandler.HandleConn: handlers that depend on other connections or on anything besides the messages of their own connection, a handler registered as nil, and registrations made while a connection is served.
- The FNV-1a fallback of the registry is an arbitrary function of the split name, and names are sequences of Unicode characters. A conflict panic that nothing recovers ends the program; the model is about the other case, and a call that would wait for the lock forever returns `Blocked` or `Awaiting` in it.
- Redis transport errors, script loading, and float64 scores: commands are total and scores are integers, which Unix seconds fit exactly. `DEL` on two keys is two commands here.
- RedisRefinement.NoGap: one writer and readers that see a snapshot between two commands. Two racing writers on the same triple can lose a grant, because pipelines are not transactions.
- Contention for the locks of the in-memory store, the router and the registry: every call that returns is atomic.
- Sampling estimates, HTTP handlers, UUID and RFC 3339 parsing, configuration, the administration service, the Kitex codec, the command validation tool, scripts and the web page.
