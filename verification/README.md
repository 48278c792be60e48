# A verified model of the NexTalk relay

The relay is a mesh of mailbox shards behind a router, with transports that carry opaque frames to it. This project
models the parts of it where mistakes lose mail or break a format, and proves what those parts are for. The model is
written in Dafny 4.11; `dafny verify dfyconfig.toml` checks all of it.

| modules | what they model |
|---|---|
| `Bytes`, `KeyValue`, `Framing` | bytes and fixed-width integers; the expiring key-value store; length-prefixed frames |
| `Leb128`, `WasmSyntax`, `WasmRoundTrip` | the encoders of the WebAssembly assembler, and decoders that invert them |
| `WasmMachine`, `WasmQueue`, `WasmModule`, `WasmAssembler`, `WasmBytes` | a stack machine for the instructions used; the emitted bodies; the module and its bytes, as a whole and row by row |
| `WasmExports`, `WasmRun`, `WasmHost` | calls by export name with the declared types; whole runs of such calls, of any host and of one that keeps to the layout |
| `Crc32`, `ZipFormat`, `ZipRoundTrip`, `ZipFields` | the table-driven CRC-32, the reproducible archive writer and its reader, and every field of an archive at its offset |
| `Shard`, `ShardNode`, `ShardGuards`, `ShardRuns`, `ShardLimits`, `ShardReplicas` | the mailbox shard as a state machine, as handlers that change records in place, request by request, and over whole runs |
| `Router`, `Mesh`, `MeshGuards`, `MeshRuns`, `Combined`, `ProofOfWork` | placement, lookup by era, mesh growth, the combined worker's differences, proof of work |
| `Base64`, `Bridge`, `EndToEnd` | the courier bridge, and frames from one bridge through a shard to another |

Code that the program runs as expressions is modelled as functions. Loops, in-place buffers and handlers that change
stored state are methods and classes, each tied to a specification function by its postcondition; the lemmas are about
those functions. WebAssembly follows the Core Specification 2.0 (sections 4.4.7, 5.2.2 and 5.5.2), base64 section 4 of
RFC 4648, and the archive the PKWARE APPNOTE (sections 4.3.7, 4.3.12, 4.3.16 and 4.4.7).

## What the proofs found

Some properties one would expect are not quite what the code does. The code is modelled as it is; each lemma named
here states when the property does hold.

- `ntx_send` writes the length prefix before it copies the frame, so a frame whose source overlaps the end of the queue
  is queued with the prefix in it. Polled and queued bytes are the accepted frames exactly when the prefix changed none of
  them (`WasmRun.QueueConserves`, `WasmRun.IntactExactly`); `WasmRun.AliasedSend` is a run where it does.
- The host's frame decoder stops at an empty frame, while `ntx_send` accepts one, and drops what is behind it in the same
  blob. Every non-empty accepted frame comes back exactly when copies were intact and none of those frames was accepted
  behind an empty one since the last poll (`WasmRun.QueueConserves`, `Framing.BeforeEmptyExact`).
  `WasmRun.HiddenFrameLost` is a run in which one does not; the empty frame itself never does
  (`WasmRun.EmptyFrameLost`).
- The size check of `ntx_send` adds in 32 bits, so it lets a frame length just under 2^32 pass; the copy then traps and
  the queue survives. With a nearly full queue the prefix spills into the output region first, which is unchanged exactly
  when the spilled bytes were there already (`WasmRun.SizeCheckExact`, `WasmRun.TrapKeepsQueue`); `WasmRun.TrapSpills` is
  a run in which they were not.
- The bump heap rewinds, so a key that the host puts after a frame can land on it; it never does exactly under a bound
  on the two sizes (`WasmHost.TwoPutsNeverOverlap`).
- A sender's timestamp and signature authenticate at most once if and only if the configured skew is at most thirty
  seconds, the default (`ShardLimits.WindowCondition`, `AuthenticatesOnce`, `AuthenticatesTwice`).
- Replication does not check the queue limit. A request takes a queue over its limit exactly when it is a replication
  that is taken at the limit (`ShardRuns.ExceedsExactly`); `ShardRuns.ReplicationExceeds` is a run that does.
- Registering a shard does not record the old shard count, although resolution relies on recorded counts. A mailbox that
  only its creation ring holds stays findable exactly when some known era still maps into that ring
  (`Router.FoundExactly`); recording the old count suffices (`Router.EraFallback`). By `MeshRuns.RegistrationLosesMailbox`
  a registration that passes loses one.
- The combined worker appends its own URL last, so a registration can move it: exactly a passing registration of a new
  URL while the node's own is neither in the base nor registered (`Combined.SelfStaysInPlace`). A mailbox on the node can
  then become unfindable (`Combined.SelfDisplaced`).
- The comments of the router say that a shard's key changes only with the old key's signature. An accepted
  registration of a known URL changes it too. `MeshRuns.KeyChangesAreClaimed` says exactly which requests change a key.
- A frame that a fallback shard acknowledged reaches the reader only through replication: it passes through the attached
  shard exactly when that shard accepted it or took its replication (`EndToEnd.AcknowledgedIsCollected`).
- A poll loses mail exactly when a shard burned a batch and its answer did not arrive (`Bridge.PollDelivers`).

## Model

| member | source | states |
|---|---|---|
| Leb128.EncodeUnsigned | transports/tools/wasmasm.mjs:5 | the shifting loop stops for every natural number and yields its unsigned LEB128 form |
| Leb128.UlebRoundTrip | transports/tools/wasmasm.mjs:5 | a LEB128 reader gets back every natural number and leaves what follows untouched |
| Leb128.UlebPrefixFree | transports/tools/wasmasm.mjs:5 | no encoding is a prefix of another |
| Leb128.UlebMinimal | transports/tools/wasmasm.mjs:5 | no byte string that reads as the same number is shorter |
| Leb128.UlebLength | transports/tools/wasmasm.mjs:5 | k bytes suffice exactly for the numbers below 2^(7k) |
| Leb128.EncodeSigned | transports/tools/wasmasm.mjs:6 | the signed loop stops for every integer, of either sign, and yields its signed LEB128 form |
| Leb128.SlebRoundTrip | transports/tools/wasmasm.mjs:6 | a signed reader gets back every integer and leaves what follows untouched |
| Leb128.SlebPrefixFree | transports/tools/wasmasm.mjs:6 | no signed encoding is a prefix of another |
| Leb128.SlebMinimal | transports/tools/wasmasm.mjs:6 | no byte string that reads as the same integer is shorter |
| Leb128.SlebLength | transports/tools/wasmasm.mjs:6 | k bytes suffice exactly for the integers of 7k bits in two's complement |
| WasmRoundTrip.SimpleRoundTrip | transports/tools/wasmasm.mjs:13-22 | each instruction's bytes decode to that instruction, whatever follows |
| WasmRoundTrip.CodeRoundTrip | transports/tools/wasmasm.mjs:13-23 | an instruction sequence with nested blocks decodes to itself up to its end opcode |
| WasmRoundTrip.VecRoundTrip | transports/tools/wasmasm.mjs:8 | a vector of items that can be read back can be read back |
| WasmRoundTrip.SizedRoundTrip | transports/tools/wasmasm.mjs:7 | a length-prefixed byte string can be read back |
| WasmRoundTrip.SecRoundTrip | transports/tools/wasmasm.mjs:9 | a section's declared size is that of its content, and its items can be read back |
| WasmRoundTrip.BodyInverts | transports/tools/wasmasm.mjs:23 | a function body's declared size is that of its content; locals and code can be read back |
| WasmRoundTrip.ModuleRoundTrip | transports/tools/wasmasm.mjs:81-91 | any module within the field sizes decodes from its bytes to itself: types, functions, memory, globals, exports, bodies, data |
| WasmModule.QueueModuleOk | transports/tools/wasmasm.mjs:27-72 | every constant, index and size of the queue module fits its field, for every capability string up to 32 bytes |
| WasmModule.QueueModuleParses | transports/tools/wasmasm.mjs:74-92 | the bytes for any capability string up to 32 bytes parse to exactly the module whose named functions `WasmExports.NamedEntries` lists |
| WasmModule.QueueModuleInstantiates | transports/tools/wasmasm.mjs:85-89 | instantiating it gives stopped, empty, a heap at 0x1000, and the capability string at 0x100 of otherwise zero memory |
| WasmAssembler.RowsDiffer | transports/tools/wasmasm.mjs:75-76 | replacing the body of ntx_caps turns the function table of one string into that of any other |
| WasmAssembler.BytesAreModule | transports/tools/wasmasm.mjs:77-90 | the array literal is the encoding of the intended module |
| WasmAssembler.Assembler.constructor | transports/tools/wasmasm.mjs:11-56 | the table starts out as that of the string "message" |
| WasmAssembler.Assembler.BuildQueueModule | transports/tools/wasmasm.mjs:74-92 | over 32 bytes it refuses and changes nothing; otherwise the bytes are those of the module for this string, whatever was built before |
| WasmBytes.AllocBytes | transports/tools/wasmasm.mjs:34-38 | the emitted bytes of ntx_alloc, opcode by opcode |
| WasmBytes.StorePrefixBytes | transports/tools/wasmasm.mjs:42-46 | the emitted bytes that store a big-endian length prefix |
| WasmBytes.EnqueueBytes | transports/tools/wasmasm.mjs:42-49 | the emitted bytes behind the checks of ntx_send |
| WasmBytes.SendBytes | transports/tools/wasmasm.mjs:39-49 | the emitted bytes of ntx_send: declared size, locals, both checks with their codes, and the rest |
| WasmBytes.PollBytes | transports/tools/wasmasm.mjs:68-71 | the emitted bytes of ntx_poll |
| WasmBytes.SectionBytes | transports/tools/wasmasm.mjs:81-89 | the memory has two pages, the heap starts at 0x1000, and the last export is the memory, in bytes |
| WasmExports.NamedEntries | transports/tools/wasmasm.mjs:25-72 | looked up by name among the exports, each of the ten functions has the declared parameters and result and the body of that name |
| WasmExports.ExportsDistinct | transports/tools/wasmasm.mjs:86 | the eleven exports have different names, and the eleventh is the memory |
| WasmQueue.ExecAppend | transports/tools/wasmasm.mjs:23 | running a concatenation of code is running one part and then the other, unless the first returned or trapped |
| WasmQueue.MaskAligns | transports/tools/wasmasm.mjs:37 | masking with -8 rounds down to a multiple of eight |
| WasmQueue.BitOrDisjoint | transports/tools/wasmasm.mjs:70 | or-ing a shifted word with a low word adds them |
| WasmQueue.AllocCall | transports/tools/wasmasm.mjs:34-38 | the bytecode of ntx_alloc, for every argument and store: the pointer it returns and the only global it changes |
| WasmQueue.SendCall | transports/tools/wasmasm.mjs:39-49 | the bytecode of ntx_send, for every argument: its refusals, its trap, and the frame it appends |
| WasmQueue.PollCall | transports/tools/wasmasm.mjs:68-71 | the bytecode of ntx_poll: the queue copied out, its address and length packed, the queue emptied |
| WasmRun.AllocStaysInHeap | transports/tools/wasmasm.mjs:34-38 | a block of up to 0x3000 bytes lies in the heap, and one of up to 0x2f00 keeps the bump pointer within the heap limit |
| WasmRun.LongBlockReachesQueue | transports/tools/wasmasm.mjs:34-38 | a longer block, of any length, reaches past the heap into the queue region or beyond |
| WasmRun.StepRefines | transports/tools/wasmasm.mjs:25-72 | one call by name of any of the ten exports, with any arguments, traps included, is allowed by its declared type, does to memory and globals what a bounded FIFO does, and answers as it does; init, attach and detach answer 0; a host write that leaves the queue alone keeps data, queue and output apart |
| WasmRun.IntactExactly | transports/tools/wasmasm.mjs:39-49 | the frame that is copied is the one the caller named if and only if the length prefix did not change its source |
| WasmRun.ApartIsIntact | transports/tools/wasmasm.mjs:39-49 | a source that does not overlap the four prefix bytes is never changed |
| WasmRun.RunExplained | transports/tools/wasmasm.mjs:25-72 | every run of calls with any arguments, whose host writes leave the queue alone, is explained by a run of the FIFO |
| WasmRun.DecodeAllExact | transports/tools/verify-wasm.mjs:28-29 | decoding blob by blob gets every frame exactly when none is empty |
| WasmRun.DecodeAllGets | transports/tools/verify-wasm.mjs:28-29 | decoding blob by blob gets every non-empty frame exactly when none stands behind an empty one in its blob |
| WasmRun.QueueConserves | transports/tools/wasmasm.mjs:34-71 | over any run of calls by name from a fresh instance, polled bytes followed by queued bytes frame the accepted frames in order if and only if every copy was intact; and the host decoder yields exactly the non-empty accepted frames, in order, if and only if in addition none of them was accepted behind an empty one since the last poll |
| WasmRun.EmittedBytesLoad | transports/tools/wasmasm.mjs:74-92 | the emitted bytes decode to a module that instantiates to the fresh store |
| WasmRun.EmittedBytesConserve | transports/tools/wasmasm.mjs:74-92 | the same conservation for runs of calls by name against the module decoded from the emitted bytes |
| WasmRun.BlobSurvives | transports/tools/wasmasm.mjs:68-71 | over any such run the last polled blob is still in the output region, unless a host write or a spilling trap reached it |
| WasmRun.AliasedSend | transports/tools/wasmasm.mjs:42-47 | a run in which a frame sent from the end of the queue is queued as its own length prefix |
| WasmRun.EmptyFrameLost | transports/tools/verify-wasm.mjs:29 | a run in which an empty frame is accepted and not decoded |
| WasmRun.HiddenFrameLost | transports/tools/verify-wasm.mjs:29 | a run in which a non-empty frame behind an empty one is accepted and polled, and not decoded |
| WasmRun.SizeCheckExact | transports/tools/wasmasm.mjs:41 | the 32-bit size check agrees with the true sum except for sums that just pass 2^32 |
| WasmRun.TrapKeepsQueue | transports/tools/wasmasm.mjs:40-49 | when a send traps, for every argument; that a trap or refusal keeps globals and queued bytes; and exactly when a trap keeps the output region |
| WasmRun.TrapSpills | transports/tools/wasmasm.mjs:41-47 | a run of two sends in which a trap overwrites the first bytes of the output region |
| WasmHost.StepKeepsStore | transports/tools/wasmasm.mjs:34-71 | no call, with any arguments, lets the queue length leave its region, and only allocation moves the bump pointer |
| WasmHost.BumpStaysInHeap | transports/tools/wasmasm.mjs:34-38 | in every state that a run with blocks of at most 0x2f00 bytes reaches, the bump pointer is a multiple of eight in [0x1000, 0x3f00] and the queue length at most 0x4000 |
| WasmHost.PoliteRunConserves | transports/tools/wasmasm.mjs:34-71 | when allocations fit below the queue, writes lie in the heap and frames come from it, no call of the run fails, polled and queued bytes frame the accepted frames, and in every reachable state the last polled blob is intact until the next poll |
| WasmHost.TwoPutsNeverOverlap | transports/tools/verify-wasm.mjs:23-25 | a second block never lands on the first, wherever the heap stands, if and only if the sizes satisfy a bound |
| WasmHost.BothPuts | transports/tools/verify-wasm.mjs:41 | inside that bound a frame put before a key is where its pointer says when it is sent |
| WasmHost.DeliveredFramesComeBack | transports/tools/verify-wasm.mjs:41-43 | over any run of put-put-send deliveries inside the bound, polls, starts and stops, nothing fails and the frames decoded from the polls, followed by those queued, are the frames delivered, in order |
| Framing.HostFrames | transports/tools/verify-wasm.mjs:29 | the host's loop returns the decoded frames and reports a defect when there is one |
| Framing.DecodeExact | transports/tools/verify-wasm.mjs:29 | decoding a framing gives the frames before the first empty one, and success exactly when there is none |
| Framing.NoEmptyNoLoss | transports/tools/verify-wasm.mjs:29 | no frame is cut off if and only if none is empty |
| Framing.BeforeEmptyExact | transports/tools/verify-wasm.mjs:29 | the decoder gets all non-empty frames of a framing if and only if the empty ones come last |
| Framing.DecodeSound | transports/tools/verify-wasm.mjs:29 | of any blob at all, the decoder yields frames of permitted lengths whose framing the blob begins with, and reports no defect exactly when that is the whole blob |
| Framing.AcceptedExactly | transports/tools/verify-wasm.mjs:29 | a blob is accepted if and only if it is the framing of some frames of 1 to 40960 bytes, and then those come out |
| Framing.PrefixIs | transports/tools/wasmasm.mjs:42-46 | a length prefix is the length in network order |
| Crc32.StepLinear | transports/tools/ntx.mjs:30 | one shift of the register is linear over exclusive or |
| Crc32.StepsLinear | transports/tools/ntx.mjs:30 | so is any number of shifts |
| Crc32.LookupIsSerial | transports/tools/ntx.mjs:30-31 | one table lookup does what eight bit-serial steps do with a byte |
| Crc32.BuildTable | transports/tools/ntx.mjs:30 | the loop fills the table with the eight-step image of every byte |
| Crc32.TableCrc | transports/tools/ntx.mjs:30-31 | the byte-at-a-time loop computes the bit-serial reflected CRC-32 with polynomial 0xEDB88320 of every byte string |
| ZipFields.CrcCheckValue | transports/tools/ntx.mjs:30-31 | the checksum of "123456789" is 0xCBF43926 and that of nothing is 0 |
| ZipFormat.WriteLocalHeader | transports/tools/ntx.mjs:40-43 | the field writes leave exactly the local header in the buffer, whose fields `ZipFields.EveryMemberIsDescribed` lists |
| ZipFormat.WriteCentralHeader | transports/tools/ntx.mjs:45-49 | the field writes leave exactly the central header in the buffer, whose fields `ZipFields.EveryMemberIsDescribed` lists |
| ZipFormat.WriteEndRecord | transports/tools/ntx.mjs:52-54 | the field writes leave exactly the end record in the buffer |
| ZipFormat.Zip | transports/tools/ntx.mjs:34-56 | the writer's loop yields the archive of the sorted members, or fails when a field overflows |
| ZipFormat.Unzip | transports/test/wasm-package.test.mjs:18-32 | the reader's scan and loop compute what its central directory says |
| ZipRoundTrip.LocalsAt | transports/tools/ntx.mjs:44-50 | the recorded offset of every member is where its local header starts |
| ZipRoundTrip.RecordRead | transports/test/wasm-package.test.mjs:24-29 | one central record leads to its local header, and name and contents come out |
| ZipRoundTrip.EndFound | transports/test/wasm-package.test.mjs:19-22 | the end record is found at the first probe, 22 bytes from the end, with the count and the directory's start |
| ZipRoundTrip.ArchiveRoundTrip | transports/tools/ntx.mjs:34-56 | reading an archive gives back its members |
| ZipRoundTrip.SortAscends | transports/tools/ntx.mjs:37 | distinct names are written in strictly ascending order |
| ZipRoundTrip.OrderIrrelevant | transports/tools/ntx.mjs:34-37 | the archive does not depend on the order of its input |
| ZipRoundTrip.ZipRoundTrips | transports/tools/ntx.mjs:34-56 | write then read returns exactly the name-to-bytes map, for all distinct names within the field limits |
| ZipFields.EveryMemberIsDescribed | transports/tools/ntx.mjs:38-50 | at the offsets of the format, the local and the central record of every member carry the bit-serial CRC of its contents, the stored and the original length, the method (8 exactly when deflating is strictly shorter), versions, flags, date, name and mode, and the central record leads to the local one |
| ZipFields.EndIsDescribed | transports/tools/ntx.mjs:52-54 | the last 22 bytes are the end record: both counts, the size and the start of the directory, one disk, no comment |
| ZipFields.FitsExactly | transports/tools/ntx.mjs:40-54 | the writer refuses exactly a name, length, offset, count, directory or total that its field cannot hold |
| ZipFields.FindEndIsLast | transports/test/wasm-package.test.mjs:19-21 | the scan from the end finds the last place with the signature, or there is none |
| ZipFields.AnyRecordRead | transports/test/wasm-package.test.mjs:24-30 | of any writer's record, with extra fields and a comment, the reader takes the name from the central record and the contents from behind the local extra field, and goes on behind the comment |
| ZipFields.AnyArchiveRead | transports/test/wasm-package.test.mjs:18-32 | of any writer's archive whose last end record names a directory of such records, the reader returns the members under their names |
| ZipFields.LessExactly | transports/tools/ntx.mjs:37 | one name is before another if and only if it is a proper prefix or smaller at the first difference |
| ShardNode.Node.Limit | shard/worker.js:318-324 | the limiter in place is the specified one, which `ShardGuards.LimitExactly` describes |
| ShardNode.Node.VerifySender | shard/worker.js:146-177 | sender authentication in place is the specified one, which `ShardGuards.AuthExactly` describes |
| ShardNode.Node.OnCreate | shard/worker.js:355-435 | the create handler's in-place changes give the specified reply and store |
| ShardNode.Node.OnSend | shard/worker.js:455-538 | the send handler's in-place changes give the specified reply and store, which `ShardGuards.SendExactly` describes |
| ShardNode.Node.OnReplicate | shard/worker.js:696-754 | the replicate handler's in-place changes give the specified reply and store |
| ShardNode.Node.OnRead | shard/worker.js:764-820 | the read handler's in-place changes give the specified reply and store |
| ShardNode.Node.OnExists | shard/worker.js:442-453 | the existence probe gives the specified reply |
| ShardNode.Node.Request | shard/worker.js:355-820 | one request on the store with expired records gone is one step of the state machine |
| ShardGuards.LimitExactly | shard/worker.js:318-324 | admitted exactly below the limit of the current minute; an admission adds one to that counter, for 65 seconds, and nothing else changes |
| ShardGuards.AuthExactly | shard/worker.js:159-176 | sender authentication succeeds if and only if the timestamp is within the skew, the triple is not in the cache, and the key accepts the signature; then the triple is remembered for a minute or the skew, whichever is longer |
| ShardGuards.SendExactly | shard/worker.js:455-538 | which status a send gets for which reason, and that it is accepted exactly when none applies: in size, signed by its sender for this mailbox, time and message, in time and not replayed, below three limits, well shaped, to a mailbox with room; and the record it leaves |
| ShardGuards.CreateExactly | shard/worker.js:355-435 | a creation succeeds exactly with a signed capability in time, below the limit; what a new record holds, and what an existing one keeps |
| ShardGuards.ReplicateExactly | shard/worker.js:696-754 | which status a replication gets for which reason; a queued id changes nothing, any other entry goes to the end, if need be of a record with no secret |
| ShardGuards.ReadExactly | shard/worker.js:764-820 | which status a read gets for which reason; it hands out the backlog unless that is stale, and leaves it or nothing |
| ShardGuards.ExistsExactly | shard/worker.js:442-453 | the probe answers whether the record is there, below 300 a minute, and changes none |
| ShardGuards.EveryEntryIsAuthentic | shard/worker.js:455-754 | over any run every accepted entry was brought by a send that its sender signed for this mailbox and this message, in time, or by a replication that a known shard signed |
| ShardGuards.HeldIsAuthentic | shard/worker.js:455-803 | so in a shard that started empty, whatever a mailbox holds, hands out or drops is authentic in that sense |
| ShardRuns.StepStores | shard/worker.js:355-820 | a request stores at most one record, under its own id, and only what its reply reports |
| ShardRuns.RunConserves | shard/worker.js:403-803 | over any run every accepted entry is in exactly one place: returned by one consuming read, dropped stale, expired, or still queued, all in acceptance order |
| ShardRuns.RunSound | shard/worker.js:343-346 | in every reachable state the enqueue time is null exactly when the queue is empty and precedes every queued acceptance, and the queue exceeds its limit by at most the replicated entries |
| ShardRuns.ReadsAreFresh | shard/worker.js:791-801 | an answered read or peek hands out the whole queue, none of it accepted TTL_SECONDS or more ago, unless the backlog has reached that age; then, and for an empty queue, it hands out nothing |
| ShardRuns.QueueBounded | shard/worker.js:506-516 | without replication no reachable queue exceeds MAX_MESSAGES |
| ShardRuns.ExceedsExactly | shard/worker.js:696-752 | one request leaves more than the limit queued if and only if it is a replication, signed, known, timely and new, that a mailbox exactly at the limit takes |
| ShardRuns.ReplicationExceeds | shard/worker.js:742-752 | a run of two replications that leaves two messages in a mailbox limited to one |
| ShardRuns.ReadNeedsSecret | shard/worker.js:764-803 | only the secret behind the stored hash reads; a refused read changes no mailbox, a peek leaves what it shows, a read empties it |
| ShardRuns.RecreateKeepsMail | shard/worker.js:406-417 | creating a mailbox again changes the secret and keeps the queue and its enqueue time |
| ShardLimits.AuthenticatesOnce | shard/worker.js:159-176 | while twice the skew fits the cache lifetime no sender triple authenticates twice in any run |
| ShardLimits.WindowCondition | shard/worker.js:175 | that is so exactly for skews up to 30000 ms |
| ShardLimits.AuthenticatesTwice | shard/worker.js:159-176 | for every longer skew a triple authenticates again at the end of its timestamp window |
| ShardLimits.SentOnce | shard/worker.js:479-518 | so with a skew of at most 30000 ms no sender triple has two sends accepted in any run, on any mailboxes |
| ShardLimits.HandleGrew | shard/worker.js:318-324 | every handler raises a counter only below its limit and in its own window, and every success raises each counter it is charged to |
| ShardLimits.AdmittedPerWindow | shard/worker.js:318-324 | at most the limit is admitted to any bucket in any window, over any run |
| ShardLimits.AdmittedPerInterval | shard/worker.js:318-324 | at most twice the limit is admitted to any bucket in any half-open interval of one window length, whatever later checks say |
| ShardLimits.ServedPerInterval | shard/worker.js:318-324 | the same bound for the requests that succeed |
| ShardLimits.DepthExact | shard/worker.js:295-305 | the depth check that stops early accepts exactly the values nested no deeper than the limit, over the fields an object keeps |
| ShardGuards.FieldIsLast | shard/worker.js:298 | the value of a field is that of the last property of its name |
| ShardGuards.PathAtMost | shard/worker.js:295-305 | no way down into a value is longer than its nesting |
| ShardGuards.DeepestPath | shard/worker.js:295-305 | some way down is as long |
| ShardGuards.EnvelopeExactly | shard/worker.js:307-316 | a message passes the shape check if and only if it is not JSON, or is an array or object with no way down of more than eight steps whose type, if that is a string, is offer, answer, message or finish |
| ShardReplicas.StepIsApply | shard/worker.js:732-752 | deliveries and creations act on one record as the events of the convergence proof |
| ShardReplicas.ApplyAllIs | shard/worker.js:732-752 | after any events the queue holds what was there and what was delivered, without duplicates |
| ShardReplicas.ReplicasConverge | shard/worker.js:403-752 | replicas that see the same entries in any order and number, interleaved with creations, hold the same entries behind the same secret |
| ShardReplicas.ReadableAfterCreate | shard/worker.js:732-803 | an entry that was replicated before the creation is read with the secret the creation brought |
| ShardReplicas.RunIsApplyAll | shard/worker.js:403-752 | over any run that takes nothing out of a mailbox, among any other requests, its record is what the accepted deliveries and creations make of it |
| ShardReplicas.RunsConverge | shard/worker.js:403-752 | two shards over two such runs, with the same entries delivered in any order and number and creations carrying one secret, end with the same entries, none twice, behind the same secret |
| ShardReplicas.DeliveredIsReadable | shard/worker.js:732-803 | whatever such a run delivered, before or after the creation, is what a read with the created secret hands out, once each, unless it is rate-limited |
| ProofOfWork.LeadingZeroBits | router/router.js:193-202 | the nested loops count the zero bits in front of the highest set bit, all of them for an all-zero digest |
| ProofOfWork.LeadingZerosExact | router/router.js:193-202 | at least k leading zero bits means, and is meant by, a big-endian value below 2^(8n-k) |
| ProofOfWork.SolveWithin | shard/worker.js:226-235 | the least solution below the attempt budget, or none exists below it |
| ProofOfWork.Solve | scripts/solve.py:59-95 | the unbounded search returns the least solution whenever there is one |
| Router.ReplicaSetForEra | router/router.js:205-210 | the loop yields the ring's replica set |
| Router.ReplicationFactor | router/router.js:215-218 | as many replicas as are wanted, at least one and at most all |
| Router.RingDistinct | router/router.js:205-218 | the replica set is exactly as many different shards as are wanted, at least one and at most all, primary first |
| Router.RingFollowsList | router/router.js:205-210 | a replica set of at most n shards is the primary and its successors in list order, going round once |
| Router.RingOnExtension | router/router.js:205-210 | an era's replica set is the same on every extension of the list |
| Router.ErasAre | router/router.js:164-168 | the eras are exactly the current and recorded counts that fit, each once, largest first |
| Router.Register | router/router.js:448-501 | registration succeeds exactly when the current primary creates the mailbox, and names the ring |
| Router.Resolve | router/router.js:551-596 | the probing loop computes the specified resolution |
| Router.ResolutionIs | router/router.js:551-596 | without a note the answer is the primary of the largest known era that answers the probe; there is a note exactly when none does; the replicas are that era's ring |
| Router.EraFallback | router/router.js:551-596 | a mailbox created on a list is found on every extension of it whose known counts include the old one |
| Router.FoundExactly | router/router.js:551-596 | with only its creation ring holding it, it is found if and only if some known era maps into that ring |
| Router.UnrecordedCountLoses | router/router.js:551-596 | a mailbox created among two shards is not found among three when the old count is not recorded |
| Mesh.Admin.GetShardUrls | router/router.js:252-269 | the loop yields the base followed by the registered URLs not yet there |
| Mesh.Admin.PowChallenge | router/router.js:605-625 | issuing in place stores exactly the specified challenge |
| Mesh.Admin.RegisterShard | router/router.js:644-715 | the registration handler gives the specified reply and state, with the nonce spent even when a later check fails |
| Mesh.Admin.RotateShardKey | router/router.js:798-870 | the rotation handler gives the specified reply and state |
| MeshGuards.IssueExactly | router/router.js:605-625 | a challenge request is refused or answered with the stored challenge: configured difficulty, open for 120 seconds |
| MeshGuards.RegisterStatus | router/router.js:644-715 | which status a registration gets for which reason, on the state before it, and the count and version of the reply |
| MeshGuards.RegisterStores | router/router.js:692-707 | an accepted registration spends its challenge; a known URL keeps its place and registration time, a new one goes to the end |
| MeshGuards.RotateExactly | router/router.js:798-870 | which status a rotation gets for which reason; an accepted one changes exactly the record of its URL, which remembers the old key |
| MeshRuns.StepGrows | router/router.js:668-707 | an accepted change raises the version by one and leaves the URLs equal or extended by one new URL at the end; anything else leaves both alone |
| MeshRuns.AcceptedExactly | router/router.js:644-862 | which registrations and rotations are accepted, in terms of the state before them |
| MeshRuns.KeyChangesAreClaimed | router/router.js:694-862 | what every request makes of every record: its key changes if and only if the request is a passing registration of its URL with another key, or a passing rotation of it, which names its current key and which both keys signed |
| MeshRuns.MergedGrows | router/router.js:265-268 | the merged list is extended at its end when registered URLs are |
| MeshRuns.MergedHolds | router/router.js:265-268 | it starts with the base and holds exactly base and registered URLs, without duplicates if the base has none |
| MeshRuns.RunVersion | router/router.js:706-707 | over any run the version counts the accepted changes |
| MeshRuns.RunGrows | router/router.js:689-705 | over any run registered URLs stay unique and within the cap, and grow only at the end |
| MeshRuns.RunExtendsMesh | router/router.js:252-269 | over any run the list the ring uses is only extended |
| MeshRuns.MailboxFoundAfterGrowth | router/router.js:551-596 | a mailbox created before a run of growth is found after it when the list grew no longer or its old count is recorded |
| MeshRuns.RegistrationLosesMailbox | router/router.js:689-707 | a mesh of two shards in which a passing registration of a third makes a mailbox unfindable |
| MeshRuns.RedeemSpends | router/router.js:667-680 | an accepted registration had a stored, unexpired challenge, met its difficulty, and spent it |
| MeshRuns.SpentExactly | router/router.js:667-680 | a challenge is spent by exactly the timely registrations with enough work, even if a later check refuses them |
| MeshRuns.StoredChallenges | router/router.js:605-625 | every challenge in the store after a run was there before or was issued in it, with the configured difficulty and an expiry exactly 120 seconds after its issue |
| MeshRuns.WorkWasDone | router/router.js:605-680 | from a store without challenges, every registration that a run accepts answers a challenge issued before it, within 120 seconds, with at least the configured number of leading zero bits |
| MeshRuns.RedeemedOnce | router/router.js:667-680 | with fresh nonces each accepted registration of a run redeems an issued challenge of its own; from a store without challenges each answers one that the run issued before it, within two minutes and with work of the configured difficulty on its nonce, URL and solution |
| MeshRuns.ChallengeRegisters | router/router.js:605-707 | a challenge answered in time with a solver's solution, signed, with room in the mesh, registers the shard under its key |
| Combined.SelfStaysInPlace | combined/worker.js:146-163 | the combined list keeps its order across a request if and only if the node's URL is unset or settled, or the request is no passing registration of a new URL other than its own |
| Combined.SettledSelfExtends | combined/worker.js:146-163 | once the node's URL is in the base or registered, the list is only extended, over any run |
| Combined.SelfDisplaced | combined/worker.js:146-163 | a concrete mesh in which a registration makes a mailbox unfindable |
| Combined.LocalCreateAgrees | combined/worker.js:295-338 | creating on the node itself does what its create handler would do without the limiter |
| Combined.LocalExistsAgrees | combined/worker.js:422-426 | the local probe answers what the existence handler would without the limiter |
| Base64.Base64RoundTrip | transports/nextalk-relay/bridge/relay.go:160 | every frame of every length comes back from its encoding, through the decoder that skips line breaks |
| Base64.EncodedLength | transports/nextalk-relay/bridge/relay.go:160 | four characters for every three bytes begun |
| Base64.AlphabetIs | transports/nextalk-relay/bridge/relay.go:160 | the digits are those of the standard alphabet, in its order |
| Base64.LongVector | transports/nextalk-relay/bridge/relay.go:160 | "foobar" is encoded as "Zm9vYmFy" |
| Base64.BreakIgnored | transports/nextalk-relay/bridge/relay.go:227 | a line break anywhere does not change what a text decodes to |
| Base64.DecodesExactly | transports/nextalk-relay/bridge/relay.go:227 | a text decodes if and only if, line breaks aside, it is whole groups of digits with at most two padding characters, and then to the bytes its bits spell |
| Bridge.ReadFrames | transports/nextalk-relay/bridge/relay.go:224-232 | every message becomes its decoded frame, or its own bytes when it is not base64 |
| Bridge.OpenExactly | transports/nextalk-relay/bridge/relay.go:227-231 | a message of padded base64 becomes the bytes its digits spell, any other its own bytes |
| Bridge.MarshalPollResult | transports/nextalk-relay/bridge/rpc.go:253-265 | the loop builds the length-prefixed framing and the count |
| Bridge.FirstErrorIs | transports/nextalk-relay/bridge/main.go:513-519 | the error kept is that of the first read that failed |
| Bridge.UnframeExact | transports/nextalk-relay/bridge/rpc.go:253-260 | a reader of length prefixes recovers the frames from a blob, empty ones included |
| Bridge.PollReplyIs | transports/nextalk-relay/bridge/main.go:488-530 | an error exactly when some read failed and nothing was drained, and then the first one; otherwise blob and count decode to the drained frames |
| Bridge.PollDelivers | transports/nextalk-relay/bridge/main.go:488-530 | the reply carries all that left the shards, in order, if and only if no burned batch lost its answer |
| Bridge.CandidateShardUrls | transports/nextalk-relay/bridge/relay.go:238-249 | primary first, then each other named replica once, in the order of first mention |
| Bridge.TryShards | transports/nextalk-relay/bridge/main.go:423-431 | the same message for the same mailbox goes to one URL after the other until one accepts; acknowledged exactly then; the shards hold one copy for the acknowledgement and one for each lost answer |
| Bridge.HonestExactly | transports/nextalk-relay/bridge/main.go:423-431 | the number of lost answers is zero if and only if every failed post left nothing behind, which is when copies match the acknowledgement |
| Bridge.Courier.Learn | transports/nextalk-relay/bridge/main.go:231-236 | a recorded binding is found under the alias of its own mailbox id |
| Bridge.Courier.ExpandAlias | transports/nextalk-relay/bridge/main.go:239-247 | an alias expands only to a mailbox that it is the alias of |
| Bridge.Courier.EffectiveRouter | transports/nextalk-relay/bridge/main.go:367-384 | the configured router, or else one that an attachment names, or else one that an alias names, or else none |
| Bridge.Courier.OnAttach | transports/nextalk-relay/bridge/main.go:434-466 | exactly when an attachment is accepted, and the bindings and router it leaves |
| Bridge.Courier.OnDetach | transports/nextalk-relay/bridge/main.go:468-477 | only the named attachment goes |
| Bridge.Courier.OnSend | transports/nextalk-relay/bridge/main.go:389-432 | a frame is posted if and only if the bridge runs, the frame has 1 to 40960 bytes, and the address is known: the alias of an explicit one, or a 32-byte recipient that the chosen router resolves; every post is the frame in base64, to the named shard for the alias's own mailbox, or to the candidates of the resolution in order; acknowledged exactly when the last post was accepted; copies match the acknowledgement; and the alias map it leaves |
| Bridge.Courier.OnPoll | transports/nextalk-relay/bridge/main.go:480-531 | every wanted attachment is read once, from its shard, for its mailbox, with its secret, and the reply is that of the answers |
| EndToEnd.WrappedShape | transports/nextalk-relay/bridge/relay.go:159-163 | a courier frame becomes at most 32768 ASCII characters that begin with A or B, so never JSON |
| EndToEnd.FrameNeverRefusedForItself | shard/worker.js:465-497 | the send handler never refuses a wrapped courier frame on size or shape |
| EndToEnd.SendFrame | transports/nextalk-relay/bridge/main.go:389-432 | the bridge against the shards: a frame is posted exactly under the conditions of `OnSend`, and acknowledged exactly when the last shard asked accepts and answers, so a known explicit address whose shard accepts and answers is acknowledged; then the frame is the last entry of the addressed mailbox there, and opens to the frame; no shard before it acknowledged |
| EndToEnd.PollMailbox | transports/nextalk-relay/bridge/main.go:480-530 | a poll of one attached mailbox asks its shard once, to consume; what the shard handed out is gone there and is the reply if the answer arrived, an unknown mailbox is empty, anything else is an error |
| EndToEnd.AcceptedCarries | shard/worker.js:514-518 | an accepted request that carries a wrapped frame queues an entry that opens to the frame |
| EndToEnd.CollectedIs | transports/nextalk-relay/bridge/main.go:488-530 | one poll for one read yields exactly the frames that the read took out, if the answer arrived |
| EndToEnd.FramesArrive | transports/nextalk-relay/bridge/main.go:98-530 | over any run on a shard in which mail for a mailbox is wrapped frames, collected frames followed by queued ones are the frames posted and accepted, byte for byte and in order, if and only if none went stale, lapsed, or was read without an answer; and the missing ones are exactly those |
| EndToEnd.MeshIsLocal | transports/nextalk-relay/bridge/main.go:423-431 | what happens at one shard of a mesh is the run of the requests that it gets |
| EndToEnd.AcceptedIsTaken | shard/worker.js:514-752 | a shard's accepted entries are exactly those its own sends made or whose replication it took in the run |
| EndToEnd.AcknowledgedIsCollected | transports/nextalk-relay/bridge/main.go:423-530 | an entry passes through the attached shard if and only if that shard accepted it or took its replication; with nothing lost there, exactly then its frame is in its place among the frames collected and queued |

## Left out

- Ed25519, SHA-256, HMAC and randomness: signatures are predicates or verdicts of the request, hashes are functions
  with no stated law, and fresh ids and nonces are parameters (`MeshRuns.Fresh` states what is used of them).
- Deflate, inflate, UTF-8 and `JSON.parse`: functions, with `ZipRoundTrip.Lawful` and `EndToEnd.SaneLib` stating the
  laws the proofs use. That a JSON number is within 2^53 is taken for granted: counters, versions and times are whole
  numbers.
- The replay cache is keyed by the sender triple itself; the program hashes it, so hash collisions are not modelled.
- Request parsing, regular-expression checks and lower-casing: a request arrives with its fields well formed and hex in
  lower case. HTTP, timeouts, CORS and response envelopes are not modelled.
- The key-value store: each request is one atomic step, and an entry is visible up to and including its expiry. Races
  between requests and eventual consistency are not modelled, nor is the fallback for a stored record that is not JSON.
- Router: prior counts and the replication factor are whole numbers (the program drops other counts). The hash point of
  a key is a parameter. The operator's base list stays fixed during a run. The limiter of the admin endpoints is a
  verdict of the request; the shard's limiter, which is the same code, is modelled.
- Zip: a member named `__proto__` would not become an entry of the reader's object; the reader is modelled with a map.
- The extra-field and comment lengths of a central record are read but never written.
- WebAssembly runs: a host may write anywhere but on the capability string and the bytes that are queued.
- WebAssembly: only the instructions, types and sections that the queue module uses; validation and imports are not
  modelled.
- Bridge: the nanopack field encoding, alias persistence, key files and locking, and the trimming of slashes from URLs. A map's iteration order is arbitrary.
  `bridge.onRegister` and `bridge.onResolve` appear only as `Bridge.Courier.Learn`.
- The combined worker's copies of shard and router code are modelled once, from the separate workers.
- Signed envelopes, status and health pages, self-registration requests, admin endpoints, deployment scripts, the
  generator and the manifest check: plumbing, or facts of a single branch.
