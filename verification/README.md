# Verified models of the Tarantool telephony connectors

This project models, in Dafny, the parts of the repository whose correctness is not visible from reading one
function, and proves what they promise over all inputs and all runs. `dafny verify dfyconfig.toml` checks
everything. Specification functions work on values (byte strings, maps, records); next to them stand the
imperative forms the C and Lua code has (buffers filled through an offset, cursors over data, objects whose
fields change), each proved against its specification.

| files | what they model |
|---|---|
| `Msgpack`, `MsgpackCode` | the MessagePack encoders, decoders and the recursive skipper `mp_next` |
| `Iproto`, `IprotoCode` | IProto frames and requests, and a server that reads requests with an independent parser |
| `CacheDriver`, `CacheCode` | the OpenSIPS cache driver: get, get_buf, set, remove against an in-order server |
| `RtpeDriver`, `RtpeRestore`, `RtpeRun`, `RtpeCode` | the RTPEngine driver: fire-and-forget saves and deletes, restores, reconnects |
| `RtpeService` | the stored procedures behind it |
| `Witnesses` | concrete servers that meet what the driver theorems ask of a server |
| `RtpeSaved` | what a save comes to in names and numbers |
| `WireForms`, `ReplySample` | every form and request of the wire, and replies, byte for byte |
| `Breaker`, `BreakerTrips` | the circuit breaker in the OpenSIPS, RTPEngine and Kamailio clients |
| `Billing`, `BillingRun`, `BillingCode` | prepaid authorization, finalization and provisioning |
| `Pool`, `PoolScan` | the Asterisk connection pool as a protocol of threads and mutexes |
| `Sessions` | the SIP session table of the two routing daemons, for any table size |
| `Sweeper` | the TTL sweeper among other fibers |
| `ReplyHeader`, `Framers`, `FramerReads`, `FramersCode` | the reply counters of the benchmark client and its read loop |
| `Sha1`, `Sha1Sample`, `Base64`, `Scramble` | streaming SHA-1, the base64 decoder and the CHAP-SHA1 answer |
| `Url`, `Text`, `Writev` | the connection URL, decimal text and searching, the partial-write loop |

Bytes are integers from 0 to 255 (bit vectors in `Sha1`). A decoder's `None` stands for a read outside the
buffer: the C decoders do not check bounds, so the cursor methods ask for inputs on which that does not happen,
and the theorems about honest replies show that it does not.

## Where the code needs a condition

Several properties are false without a condition. Each has a lemma that shows the failure and a lemma that
states the condition, as an equivalence where one exists:

- The lengths in an encoding guarantee that `mp_next` is exact if and only if no map has 2^31 or more pairs and no
  string or blob 2^32 - 4 or more bytes, because the item count of a map and the step over a string are computed
  in 32 bits (`Msgpack.ShapeDecides`, `Msgpack.LongBlobMissed`; with particular contents an over-long string can be
  made up for, `Msgpack.SkippedByAccident`); it does not know floats and ext (`Msgpack.NextMissesFloats`).
- Six requests are packed into fixed buffers without a check, and stay inside them if and only if their fields take
  at most so many bytes: set 227 of 256, get 1003 and remove 1009 of 1024 (`CacheCode.SetFitsExactly`,
  `CacheCode.LookupFitsExactly`), save 1962 of 2048, delete 994 of 1024 and restore 481 of 512
  (`RtpeCode.SaveFitsExactly`, `RtpeCode.StringCallFitsExactly`). Longer ones overflow the buffer.
- A saved call comes back from a restore as it was saved if and only if its fields are within the driver's restore
  buffers (`RtpeRestore.ComesBackExactly`). A call id of 128 bytes or more is stored and never delivered, and other
  fields that are too long come back empty or as the default (`RtpeRestore.OverlongLost`, `Witnesses.OverlongSaved`).
- A restore callback that stops before the last row, with two or more entries behind the result array, leaves the
  cursor among the rows, and a call id can then send the loop outside the reply (`RtpeRestore.StopReadsOutside`).
  For all counts of rows and entries, every answer is delivered exactly outside this case (`Witnesses.StopDecides`).
- A call id stored again below an empty slot has two copies, and a delete then uncovers the older address
  (`Sessions.StoreDoubles`, `Sessions.StoreThenDelete`, `Sessions.StaleSession`, and `Sessions.StaleSample` with
  two concrete call ids).
- Every pool with a profile and two threads can deadlock for good when a thread asks for a second connection while
  it holds one (`Pool.NestedDeadlocks`, `Pool.BlockedForever`), as `realtime_tarantool` does
  (asterisk_tarantool/res/res_config_tarantool.c:64-76).
- A call record is keyed by call id and second. It survives a run if and only if no event finalizes the same call
  within the same second (`BillingRun.RecordKeptExactly`); a repeat replaces it by a record of an unknown caller
  (`BillingRun.RecordIsLast`, `BillingRun.RepeatOverwrites`).
- Closing an RTPEngine client by hand during its cooldown forgets the deadline
  (`Breaker.CloseBreaksCooldown`).
- Refused connects in a row trip a breaker (`BreakerTrips.RefusalsTrip`), but a server that accepts every connection
  and answers no request does not, unless one error is allowed (`BreakerTrips.AcceptingNeverTrips`).
- The binary reply counter gives up its buffer when the stream is out of step; what it finds is independent of how
  the stream was cut if and only if the stream is in step before its last byte (`Framers.CutFreeExactly`,
  `Framers.DesyncDependsOnCut`).
- The IProto reply counter counts a byte it passes over again with every read, and completes a header entry that runs
  out of its frame from the bytes behind it. What it finds is independent of the cutting and of those bytes if and
  only if every byte before the last is in a frame and every frame settles its header
  (`FramerReads.TntCutFreeExactly`, `ReplyHeader.SettledExactly`, `FramerReads.OverrunSample`).
- The Redis reply counter looks for the number of a blank bulk header in the bytes behind it; its counts are decided by
  the bytes read if and only if there is no such header (`FramerReads.RespCutFreeExactly`, `FramerReads.BlankSample`).
- A SHA-1 update whose piece and buffered bytes together reach 2^32 bytes takes the short branch and copies past
  its buffer; below that it is right (`Sha1Code.RoomDecides`, `Sha1Code.Context.Update`).
- A URL is read back if and only if its components hold no separator that ends them early (`Url.RoundTrip`), and
  through the 512-byte buffer of the printer also only if nothing but defaults is cut away (`Url.CutRoundTrip`).
- `tnt_writev_all` reports an error for a nonempty list of empty buffers (`Writev.Transfer`).

## Assumptions about the world

- Servers answer in order, apply what the request bytes say, and acknowledge under the sync id of the request;
  the encodings of replies, extra header entries and entry orders are arbitrary.
- Sockets, the clock and connection attempts are parameters: every outcome and every schedule is allowed.
- Draining a socket stops on a frame boundary (rtpengine_tarantool/src/tarantool.c:222-233).
- Money is an exact real number, and rates are positive.
- Other fibers run only at the explicit `fiber.yield()` of the sweep, with clocks not behind the sweep's.
- No subscriber is called `unknown`, the caller recorded for a call without a dialog.
- Mutexes of the pool are plain; with one connection per thread no mutex is ever taken twice by its holder
  (`Pool.NeverRelocks`), so there it makes no difference.

## Model

| member | source | states |
|---|---|---|
| Msgpack.NextExact | opensips_tarantool/cachedb_tarantool/msgpuck.h:262-351 | for every valid encoding (any width, any nesting) without a step too wide for 32 bits, and any bytes behind it, `mp_next` stops exactly behind the encoding; too wide are a map of 2^31 or more pairs (the doubled item count wraps) and a string or blob of 2^32 - 4 or more bytes (`4 + len` wraps) |
| Msgpack.ShapeDecides | opensips_tarantool/cachedb_tarantool/msgpuck.h:262-351 | the exact condition: the shape and the lengths of an encoding guarantee an exact skip, whatever its strings hold and whatever follows, if and only if there is no such step |
| Msgpack.NextExactPlain | opensips_tarantool/cachedb_tarantool/msgpuck.h:262-351 | on trees whose over-long strings hold one-byte encodings (so on all trees without such strings, and with ASCII text) the skip is exact if and only if there is no such step |
| Msgpack.LongBlobMissed | opensips_tarantool/cachedb_tarantool/msgpuck.h:310-317 | a string or blob on its own is skipped exactly if and only if it is shorter than 2^32 - 4 bytes, whatever it holds |
| Msgpack.SkippedByAccident | opensips_tarantool/cachedb_tarantool/msgpuck.h:310-317 | the condition on what over-long strings hold cannot be dropped from the equivalence: a tree with an over-long string is skipped exactly by accident |
| Msgpack.NextExactShort | opensips_tarantool/cachedb_tarantool/msgpuck.h:262-351 | every valid encoding of fewer than 2^32 bytes is skipped exactly |
| Msgpack.SkipAll | opensips_tarantool/cachedb_tarantool/msgpuck.h:262-351 | skipping k of a list of such encodings leaves whole encodings: exactly the rest when none of the first k has a step too wide, strictly more otherwise |
| Msgpack.NextMissesFloats | opensips_tarantool/cachedb_tarantool/msgpuck.h:262-351 | float and ext tags are stepped over without their payload, so the skipper is right on them only when the payload is empty |
| Msgpack.ParseBytes | opensips_tarantool/cachedb_tarantool/msgpuck.h:173-351 | the reference reader of the formats reads every valid encoding back whole, whatever follows |
| Msgpack.BytesOfParse | opensips_tarantool/cachedb_tarantool/msgpuck.h:173-351 | conversely, whatever the reference reader accepts is the encoding it returns |
| Msgpack.DecodeUintExact | opensips_tarantool/cachedb_tarantool/msgpuck.h:173-196 | every encoding of an unsigned number, of any width, decodes to that number and leaves the suffix |
| Msgpack.DecodeStrExact | opensips_tarantool/cachedb_tarantool/msgpuck.h:198-222 | every encoding of a string decodes to its bytes and leaves the suffix |
| Msgpack.DecodeArrExact | opensips_tarantool/cachedb_tarantool/msgpuck.h:224-241 | every array head decodes to the number of items and leaves the items |
| Msgpack.DecodeMapExact | opensips_tarantool/cachedb_tarantool/msgpuck.h:243-260 | every map head decodes to the number of pairs and leaves the entries |
| Msgpack.EncExact | opensips_tarantool/cachedb_tarantool/msgpuck.h:61-171 | what the encoders produce is a valid encoding and means the value that was encoded; it has no step too wide for `mp_next` exactly when no string in the value has 2^32 - 4 or more bytes and no map 2^31 or more pairs |
| Msgpack.UintWireShortest | opensips_tarantool/cachedb_tarantool/msgpuck.h:61-85 | no other encoding of an unsigned number is shorter than the one `mp_encode_uint` picks |
| Msgpack.MinWidth | opensips_tarantool/cachedb_tarantool/msgpuck.h:87-171 | the head width the encoders choose is valid for the length and the least valid one |
| WireForms.HeadForms | opensips_tarantool/cachedb_tarantool/msgpuck.h:87-171 | every form of a string, blob, array and map head, byte for byte |
| WireForms.NumberForms | opensips_tarantool/cachedb_tarantool/msgpuck.h:61-85 | the bytes `mp_encode_uint` writes for every number, range by range |
| WireForms.TextForms | opensips_tarantool/cachedb_tarantool/msgpuck.h:87-110 | the bytes `mp_encode_str` writes for every string, range by range |
| WireForms.ScalarForms | opensips_tarantool/cachedb_tarantool/msgpuck.h:262-309 | which tags stand for scalars, and how many bytes follow each, as an equivalence |
| WireForms.ScalarMeanings | opensips_tarantool/cachedb_tarantool/msgpuck.h:173-196 | what the scalars of up to two bytes and the four-byte unsigned one mean |
| MsgpackCode.EncodeUint | opensips_tarantool/cachedb_tarantool/msgpuck.h:61-85 | writes exactly the shortest encoding at the offset, moves the offset by its length and touches nothing else |
| MsgpackCode.EncodeHead | opensips_tarantool/cachedb_tarantool/msgpuck.h:87-171 | writes the length part of a string, blob, array or map, and nothing else |
| MsgpackCode.EncodeStr | opensips_tarantool/cachedb_tarantool/msgpuck.h:87-110 | writes head and bytes of a string, and nothing else |
| MsgpackCode.EncodeBin | opensips_tarantool/cachedb_tarantool/msgpuck.h:112-133 | writes head and bytes of a blob, and nothing else |
| MsgpackCode.DecodeUintAt | opensips_tarantool/cachedb_tarantool/msgpuck.h:173-196 | the cursor version returns the decoded number and the cursor behind it, for all inputs on which the reads stay inside the data |
| MsgpackCode.DecodeHeadAt | opensips_tarantool/cachedb_tarantool/msgpuck.h:224-260 | the same for array and map heads and the length part of strings |
| MsgpackCode.DecodeStrAt | opensips_tarantool/cachedb_tarantool/msgpuck.h:198-222 | the same for strings |
| MsgpackCode.SkipAt | opensips_tarantool/cachedb_tarantool/msgpuck.h:262-351 | the recursive cursor loop, with its 32-bit sums, terminates and ends where the skip specification says |
| Iproto.ReadFrameExact | opensips_tarantool/cachedb_tarantool/cachedb_tarantool_dbase.c:262-296 | a framed payload is read back, with whatever follows left alone, exactly when it is nonempty and within the reader's limit |
| WireForms.FrameForm | opensips_tarantool/cachedb_tarantool/cachedb_tarantool_dbase.c:584-592 | a frame byte for byte: the tag 0xce, four length bytes, the payload |
| ReplySample.FrameLimits | opensips_tarantool/cachedb_tarantool/cachedb_tarantool_dbase.c:262-296 | in numbers: the cache driver reads exactly the nonempty frames of up to 16777216 bytes, a restore those of up to 1048576 |
| Iproto.ReadMessageExact | opensips_tarantool/cachedb_tarantool/cachedb_tarantool_dbase.c:594-640 | every request a client frames is read back by a server as its kind, its sync id and its body map |
| IprotoCode.PackHeader | opensips_tarantool/cachedb_tarantool/cachedb_tarantool_dbase.c:596-602 | writes the request header map with type and sync id behind the five bytes kept for the length |
| IprotoCode.FinalizePacket | opensips_tarantool/cachedb_tarantool/cachedb_tarantool_dbase.c:584-592 | with the length prefix in place the buffer holds the frame of the payload |
| CacheDriver.RunIsMap | opensips_tarantool/cachedb_tarantool/cachedb_tarantool_dbase.c:968-1200 | in every run of set, remove and get, spread over any connections of a pool with a counter each, against an in-order server that applies what the request bytes say: each call returns what a plain map returns, the last value set for the key, nothing after a remove, whatever widths, extra entries and entry order the replies use |
| CacheDriver.StepRefines | opensips_tarantool/cachedb_tarantool/cachedb_tarantool_dbase.c:968-1200 | one call keeps the server's table equal to the map and answers as the map does |
| CacheDriver.StepRows | opensips_tarantool/cachedb_tarantool/cachedb_tarantool_dbase.c:1106-1180 | what one call does to the rows: a set leaves its seven fields under its key, of which the sixth is now plus expires, or now plus 3600 when expires is not positive; a remove leaves no row; every other row and space stays |
| CacheDriver.LastSetStays | opensips_tarantool/cachedb_tarantool/cachedb_tarantool_dbase.c:1106-1131 | after any run the row under a key is the one its last set wrote, to the second it expires |
| CacheDriver.StepEnabled | opensips_tarantool/cachedb_tarantool/cachedb_tarantool_dbase.c:968-1200 | no call gets stuck: the server understands every request that fits, and every honest reply to it is decoded |
| CacheDriver.ServeExact | opensips_tarantool/cachedb_tarantool/cachedb_tarantool_dbase.c:968-1180 | the server reads back from the driver's bytes exactly the operation that was asked for, under the sync id of the call |
| CacheDriver.DecodeGetExact | opensips_tarantool/cachedb_tarantool/cachedb_tarantool_dbase.c:1014-1063 | decoding an honest reply gives the payload of its row, or nothing when there is no row, whatever encoding it uses |
| CacheDriver.DecodeGetAnyWidth | opensips_tarantool/cachedb_tarantool/cachedb_tarantool_dbase.c:1027-1059 | rows of any width at the end of a reply: the seventh field of seven or more, the second of two to six, no value for fewer |
| ReplySample.GetReplies | opensips_tarantool/cachedb_tarantool/cachedb_tarantool_dbase.c:1007-1063 | replies byte for byte: a row of seven fields under 0x30 is found with its payload, an empty array there is a missing key |
| ReplySample.StatusRead | opensips_tarantool/cachedb_tarantool/cachedb_tarantool_dbase.c:313-347 | replies byte for byte: the status under 0x00 and the sync id under 0x01 give 0, -1 or -2 |
| CacheDriver.StatusLoopExact | opensips_tarantool/cachedb_tarantool/cachedb_tarantool_dbase.c:327-346 | a reply header passes exactly when every status is OK and every sync id is the one asked for; -2 means a wrong sync id, -1 an error status |
| CacheDriver.StaleReplyRefused | opensips_tarantool/cachedb_tarantool/cachedb_tarantool_dbase.c:1007-1012 | a reply that names another request is never taken for an answer |
| CacheCode.PackGet | opensips_tarantool/cachedb_tarantool/cachedb_tarantool_dbase.c:989-994 | the 1024-byte buffer holds the select request for the key |
| CacheCode.PackRemove | opensips_tarantool/cachedb_tarantool/cachedb_tarantool_dbase.c:1175-1180 | the buffer holds the delete request for the key |
| CacheCode.LookupFitsExactly | opensips_tarantool/cachedb_tarantool/cachedb_tarantool_dbase.c:972-1180 | a get or remove packet stays inside its 1024-byte buffer, which the C code does not check, if and only if the key and the two numbers take at most 1003 or 1009 bytes |
| CacheCode.PackSet | opensips_tarantool/cachedb_tarantool/cachedb_tarantool_dbase.c:1106-1131 | the 256-byte buffer holds the replace request; `WireForms.SetPacket` spells its bytes |
| WireForms.SetPacket | opensips_tarantool/cachedb_tarantool/cachedb_tarantool_dbase.c:1106-1131 | the bytes of a set for all fields: header, space, and the seven fields with now + expires, or now + 3600, as the sixth |
| WireForms.GetPacket | opensips_tarantool/cachedb_tarantool/cachedb_tarantool_dbase.c:594-615 | the bytes of a get for all keys: a select in index 0 of at most one row from offset 0 with equal keys only |
| WireForms.RemovePacket | opensips_tarantool/cachedb_tarantool/cachedb_tarantool_dbase.c:617-636 | the bytes of a remove for all keys |
| CacheCode.SetFitsExactly | opensips_tarantool/cachedb_tarantool/cachedb_tarantool_dbase.c:1088-1131 | the packet stays inside the 256-byte buffer, which the C code does not check, if and only if key, value and numbers take at most 227 bytes; never with more than 220 bytes of key and value |
| CacheCode.CheckIprotoStatus | opensips_tarantool/cachedb_tarantool/cachedb_tarantool_dbase.c:313-347 | the cursor loop computes the specified status |
| CacheCode.DecodeGetAt | opensips_tarantool/cachedb_tarantool/cachedb_tarantool_dbase.c:1014-1063 | the nested cursor loops compute the specified answer |
| CacheCode.ReadFrameAt | opensips_tarantool/cachedb_tarantool/cachedb_tarantool_dbase.c:262-296 | the frame reader computes the specified frame or error |
| CacheCode.CacheConnection.Call | opensips_tarantool/cachedb_tarantool/cachedb_tarantool_dbase.c:985-1012 | a call bumps the counter, sends the request with the new sync id, and its outcome is what the reply under that id says |
| CacheCode.CallIsStep | opensips_tarantool/cachedb_tarantool/cachedb_tarantool_dbase.c:985-1063 | a call whose request is served and honestly answered is a step of the run theorem, with the outcome the call returns |
| CacheCode.CacheConnection.GetBuf | opensips_tarantool/cachedb_tarantool/cachedb_tarantool_dbase.c:1066-1082 | the same bytes as get, or -3 with the exact needed length and an untouched buffer, -2 when missing, -1 on errors |
| Witnesses.CallHappens | opensips_tarantool/cachedb_tarantool/cachedb_tarantool_dbase.c:968-1200 | the run theorem is not empty: in every state the driver and server can be in, every call that fits has an honest reply and happens |
| Witnesses.SaveThenRestore | rtpengine_tarantool/src/tarantool.c:665-979 | every call can be saved by a fresh client and restored before it expires, with the acknowledgement of the save unread, and what the buffers take of it comes back, if a call id is read at all |
| Witnesses.OverlongSaved | rtpengine_tarantool/src/tarantool.c:665-979 | a call id of 128 bytes or more is stored, is live, and the restore that follows delivers nothing |
| RtpeService.Service.CallUpsert | tarantool_backend/app/rtpe_service.lua:20-44 | the row is inserted or replaced as specified, keeping the creation time of a known call; it expires ttl seconds from now, or 3600, and belongs to the node named, or to default-node |
| RtpeService.Service.CallDelete | tarantool_backend/app/rtpe_service.lua:49-65 | the row is removed, and the answer says whether there was one |
| RtpeService.Service.CallRestore | tarantool_backend/app/rtpe_service.lua:95-125 | returns exactly the unexpired calls of the node (of all nodes for the empty name), each once, with its node and payload |
| RtpeService.Service.SelectOptimalNode | tarantool_backend/app/rtpe_service.lua:151-176 | returns an active, recently heard node with the fewest calls, and none only when there is no such node |
| RtpeService.Service.NodeHeartbeat | tarantool_backend/app/rtpe_service.lua:132-146 | the node's row is replaced, and the node can be chosen from then on |
| RtpeRun.RestoreBringsBack | rtpengine_tarantool/src/tarantool.c:763-979 | in every run of connects, saves of any fields, deletes, reconnects, drains and other drivers' work, a restore delivers exactly those live calls of the node for which a call id is read, each once and as far as the buffers take its fields, however many acknowledgements were left unread; whatever its neighbours are, a call within the limits comes back with the call id, node, addresses, ports and suite its saver passed |
| RtpeSaved.SavedComesBack | rtpengine_tarantool/src/tarantool.c:665-979 | after any run, a call saved and not touched since comes back from a restore within its lifetime with call id, node, addresses, ports and suite as its saver passed them, each in its place, with 0.0.0.0 and NONE for what was missing |
| RtpeSaved.LiveUntil | rtpengine_tarantool/src/tarantool.c:677 | the lifetime in numbers: such a call is restored, to its own node or to all, if and only if the clock is before the save plus its own seconds, else the client's, else 3600; the server's row expires then |
| RtpeSaved.SaveLeavesRow | tarantool_backend/app/rtpe_service.lua:20-44 | the row a save leaves: the client's node, the first creation time, now plus that lifetime, and the five attributes under their names; every other row stays |
| RtpeRestore.ComesBackExactly | rtpengine_tarantool/src/tarantool.c:879-964 | the exact condition: a call is delivered with everything its saver passed if and only if its call id has 1 to 127 bytes, node and addresses at most 63, the suite at most 31, none holds a NUL, and the ports are C ints |
| RtpeRestore.OverlongLost | rtpengine_tarantool/src/tarantool.c:879-964 | outside of it: when no call id is read, and which fields come back empty or as the default |
| RtpeRun.SyncIdsIncrease | rtpengine_tarantool/src/tarantool.c:676-787 | in every run, with saves of any fields and explicit connects in any state, the sync ids of CALL requests strictly increase, although authentication also takes ids from the counter |
| RtpeRun.StepKeeps | rtpengine_tarantool/src/tarantool.c:665-979 | every event, a connect in any state among them, keeps: ids increasing and below the counter, unread acknowledgements older than the counter, the server's table equal to the calls saved and not deleted |
| RtpeRestore.RestoreExact | rtpengine_tarantool/src/tarantool.c:814-975 | the reading loop skips every acknowledgement in front and delivers exactly the calls of its own answer for which a call id is read, up to where the callback stops; a stop before the last row is harmless with at most one entry behind the result array |
| RtpeRestore.StopReadsOutside | rtpengine_tarantool/src/tarantool.c:862-970 | the condition is needed: a stop in front of a row whose call id reads as a long string head, with two or more entries behind the result array, makes the loop read outside the reply |
| Witnesses.EarlyStopFails | rtpengine_tarantool/src/tarantool.c:862-970 | such replies exist for all calls within the limits: in front of any call, a call with such an id, two further entries, and a callback that takes one call |
| Witnesses.StopDecides | rtpengine_tarantool/src/tarantool.c:862-970 | the exact condition: for all counts of rows and further entries that fit a reply, every answer of these counts is delivered, whatever it holds, if and only if the callback does not stop before the last row or at most one entry follows |
| RtpeRestore.BodyExact | rtpengine_tarantool/src/tarantool.c:858-970 | a body with any further entries before and behind the result array delivers the rows for which a call id is read, up to where the callback stops |
| RtpeRestore.RowExact | rtpengine_tarantool/src/tarantool.c:887-964 | a returned row, of a call with any fields, decodes to what the buffers take of the call that was saved, whatever order its keys come in |
| ReplySample.RestoreReply | rtpengine_tarantool/src/tarantool.c:814-975 | an answer byte for byte, with the names of the fields spelled out, is delivered as the call it holds |
| RtpeRestore.PayloadAnyOrder | rtpengine_tarantool/src/tarantool.c:907-941 | the five media fields come out as saved, up to what the buffers take, whatever order the payload map's entries come in |
| RtpeRestore.RowsLoopExact | rtpengine_tarantool/src/tarantool.c:877-965 | rows for which a call id is read are delivered in the server's order, up to the one the callback stops at, and the cursor ends behind the last row read |
| RtpeRestore.SyncLoopExact | rtpengine_tarantool/src/tarantool.c:846-856 | the sync id read from a header is the one it carries, wherever it stands |
| RtpeRestore.SaveExact | tarantool_backend/app/rtpe_service.lua:20-44 | the server reads the save bytes as one upsert of exactly that call |
| RtpeRestore.DeleteExact | tarantool_backend/app/rtpe_service.lua:49-65 | the server reads the delete bytes as one delete of exactly that call |
| RtpeCode.PackCallUpsert | rtpengine_tarantool/src/tarantool.c:548-600 | the buffer holds the upsert request of the call |
| RtpeCode.PackStringCall | rtpengine_tarantool/src/tarantool.c:612-645 | the buffer holds a call with one string argument (a delete, or a restore request) |
| WireForms.UpsertForm | rtpengine_tarantool/src/tarantool.c:548-600 | the bytes of a save for all fields, names and defaults spelled out, the lifetime last |
| WireForms.StringCalls | rtpengine_tarantool/src/tarantool.c:612-645 | the bytes of a delete and of a restore request for all arguments |
| RtpeCode.SaveFitsExactly | rtpengine_tarantool/src/tarantool.c:548-700 | a save stays inside its 2048-byte buffer, which the C code does not check, if and only if its fields take at most 1962 bytes |
| RtpeCode.StringCallFitsExactly | rtpengine_tarantool/src/tarantool.c:612-800 | a delete stays inside its 1024 bytes and a restore request inside its 512 if and only if the argument and the sync id take at most 994 and 481 bytes |
| RtpeCode.ReadRepliesAt | rtpengine_tarantool/src/tarantool.c:814-975 | the reading loop over the socket's bytes computes the specified result |
| RtpeCode.OneRowAt | rtpengine_tarantool/src/tarantool.c:878-948 | the cursor loops over one row compute the specified fields |
| RtpeCode.RtpeClient.Connect | rtpengine_tarantool/src/tarantool.c:435-536 | breaker fields (see `BreakerTrips.AttemptCounts`) and sync counter change as specified; 0 is returned exactly when the connection is ready |
| RtpeCode.RtpeClient.SaveCall | rtpengine_tarantool/src/tarantool.c:665-707 | the packet carries the id taken first, before any reconnect; fields change as specified |
| RtpeCode.RtpeClient.DeleteCall | rtpengine_tarantool/src/tarantool.c:717-752 | the same for a delete |
| RtpeCode.RtpeClient.RestoreCalls | rtpengine_tarantool/src/tarantool.c:763-979 | the id is taken after any reconnect; the result is what the replies on the stream say, and nothing is asked of the stream unless the request went out |
| RtpeCode.RtpeClient.Close | rtpengine_tarantool/src/tarantool.c:985-995 | closes the socket and forgets the phase, nothing else |
| RtpeCode.RtpeClient.SaveIsStep | rtpengine_tarantool/src/tarantool.c:665-707 | what a save does to counter and socket is a save step of the run theorems, acknowledged under its id |
| RtpeCode.RtpeClient.DeleteIsStep | rtpengine_tarantool/src/tarantool.c:717-752 | the same for a delete |
| RtpeCode.RtpeClient.ConnectIsStep | rtpengine_tarantool/src/tarantool.c:435-536 | the same for a connect in any state |
| RtpeCode.RtpeClient.RestoreIsStep | rtpengine_tarantool/src/tarantool.c:763-979 | the same for a restore with the acknowledgements and the answer on the socket, and what it returns is the outcome of the run |
| Breaker.DriversAreSafe | rtpengine_tarantool/src/tarantool.c:435-536 | for all three drivers, any sequence of calls (explicit connects of an RTPEngine client in any state among them) and a monotone clock: a socket is open exactly when authenticated, the error count stays below the allowance unless disabled, no socket is opened between a trip and its deadline, and the first attempt after it starts counting from zero |
| BreakerTrips.RefusalsTrip | opensips_tarantool/cachedb_tarantool/cachedb_tarantool_dbase.c:519-528 | the breaker trips, in every driver: from a closed connection, refused connects in a row each try a socket and raise the count by one; the one that makes the allowance, and none before it, disables the client until its clock plus the cooldown, and no call before that tries a socket |
| BreakerTrips.AttemptCounts | opensips_tarantool/cachedb_tarantool/cachedb_tarantool_dbase.c:441-558 | per driver, without a connection and outside a cooldown: which failed attempts are counted (the refused connection alone, all, or all from the connection on), one more on top of the count or of zero after a cooldown, disabled exactly from the allowance on with the deadline in numbers; uncounted ones leave the count; a connection that comes up counts from zero |
| BreakerTrips.ReuseCounts | rtpengine_tarantool/src/tarantool.c:686-752 | per driver, over a connection: a failed request is one more error at its own clock, a failed restore only closes, a success keeps the connection |
| BreakerTrips.SuccessResets | opensips_tarantool/cachedb_tarantool/cachedb_tarantool_dbase.c:549-552 | in every run of every driver nothing is held against an open connection: every success leaves a count of zero |
| BreakerTrips.AcceptingNeverTrips | opensips_tarantool/cachedb_tarantool/cachedb_tarantool_dbase.c:549-552 | a server that accepts every connection and fails every request never trips a breaker that allows more than one error and starts with at most one, because each connect counts from zero |
| BreakerTrips.RefusedSample | opensips_tarantool/cachedb_tarantool/cachedb_tarantool_dbase.c:519-528 | in numbers: with three errors and ten seconds, connects refused at 100, 101 and 102 disable each client until 112, and at 103 none opens a socket |
| Breaker.RunIsSafe | opensips_tarantool/cachedb_tarantool/cachedb_tarantool_dbase.c:298-311 | the same for every run of calls that each keep the breaker's rules |
| Breaker.OpensipsLegal | opensips_tarantool/cachedb_tarantool/cachedb_tarantool_dbase.c:441-558 | every OpenSIPS call keeps the breaker's rules |
| Breaker.RtpeLegal | rtpengine_tarantool/src/tarantool.c:686-706 | every RTPEngine save, delete, restore and explicit connect keeps the breaker's rules |
| Breaker.KamailioLegal | kamailio_tarantool/ndb_tarantool/tarantool_client.c:465-581 | every Kamailio call keeps the breaker's rules |
| Breaker.CloseBreaksCooldown | rtpengine_tarantool/src/tarantool.c:985-995 | an explicit close keeps the invariant exactly when the client is not cooling down; during a cooldown it makes the next call open a socket at once |
| Breaker.SingleConn.ConnectSingle | opensips_tarantool/cachedb_tarantool/cachedb_tarantool_dbase.c:441-558 | the fields change as the OpenSIPS transition says, which `BreakerTrips.AttemptCounts` states in numbers |
| Breaker.SingleConn.ConnError | opensips_tarantool/cachedb_tarantool/cachedb_tarantool_dbase.c:298-311 | the fields change as the OpenSIPS failure transition says, which `BreakerTrips.ReuseCounts` states in numbers |
| Breaker.KamailioServer.ConnClose | kamailio_tarantool/ndb_tarantool/tarantool_client.c:465-478 | closes and marks disconnected, nothing else |
| Breaker.KamailioServer.ConnFail | kamailio_tarantool/ndb_tarantool/tarantool_client.c:480-492 | the fields change as the Kamailio failure transition says |
| Breaker.KamailioServer.ConnConnect | kamailio_tarantool/ndb_tarantool/tarantool_client.c:497-581 | the fields change as the Kamailio connect transition says |
| BillingRun.LossBound | tarantool_backend/app/billing_service.lua:70-170 | over any run without top-ups of the subscriber and with each call ended within its granted time, billed minus debited is 0 or strictly between 0 and limit times (starting balance plus highest rate) |
| BillingRun.ChargedOnce | tarantool_backend/app/billing_service.lua:111-170 | in every run, however tariffs change, calls are re-authorized and finalizations repeat: no opening is charged twice, and each charge goes to the caller and at the terms of the first authorization |
| BillingRun.ChargedByTheMinute | tarantool_backend/app/billing_service.lua:145-187 | in every run, whatever the tariffs have become, the end of a live call after n started minutes is charged the fee and n times the rate frozen at its opening; the record written says so, the balance loses it down to 0, and the charge stays |
| BillingRun.OpeningsFrozen | tarantool_backend/app/billing_service.lua:111-121 | what an authorization froze is never rewritten later in the run |
| BillingRun.OnlyOwnCharge | tarantool_backend/app/billing_service.lua:145-190 | finalizing a call touches no subscriber but its caller; finalizing it again touches nobody |
| BillingRun.NeverOverLimit | tarantool_backend/app/billing_service.lua:88-121 | in every run of authorizations, finalizations, provisioning and sweeps a caller's open dialogs never exceed the limit, as long as limits are not lowered |
| BillingRun.AuthFresh | tarantool_backend/app/billing_service.lua:79-121 | a dialog is registered only for a subscriber below the limit and with funds for the fee and ten seconds |
| BillingRun.StartAccounts | tarantool_backend/app/billing_service.lua:206-221 | a freshly provisioned service starts in the state the run theorems ask for |
| BillingRun.RecordKept | tarantool_backend/app/billing_service.lua:172-187 | a call record stays as it is in every run that does not finalize the same call within the same second |
| BillingRun.RecordKeptExactly | tarantool_backend/app/billing_service.lua:172-187 | the exact condition: the records just written under a key, and all records under it, survive a run if and only if no event of the run finalizes that call within that second |
| BillingRun.RecordIsLast | tarantool_backend/app/billing_service.lua:145-190 | after any run the record under a key is the one its last finalization wrote: of the caller if the call was live then, else of nobody |
| BillingRun.RepeatOverwrites | tarantool_backend/app/billing_service.lua:145-190 | in one step: a second finalization within the same second puts a record of nobody in place of what was billed to whom, without charging anybody |
| Billing.BillBelow | tarantool_backend/app/billing_service.lua:96-159 | a call that ends within the granted time is billed less than the balance it was authorized on plus one minute |
| Billing.BillInMinutes | tarantool_backend/app/billing_service.lua:155-159 | what a call costs, in numbers: the fee and n times the rate for more than 60 (n - 1) and at most 60 n seconds, so the fee for none |
| Billing.FinalizeCosts | tarantool_backend/app/billing_service.lua:145-193 | the whole effect of a finalization in numbers, for known and unknown calls: amount, record under call id and second, balance down to 0, dialog gone, everything else as it was |
| Billing.VerdictExactly | tarantool_backend/app/billing_service.lua:79-104 | the exact verdict: which of the four reasons is given when, and allowed if and only if the caller is known, active, below the limit and can pay the fee and ten seconds |
| Billing.GrantedGreatest | tarantool_backend/app/billing_service.lua:106-109 | the granted time is the greatest number of seconds up to 86400 whose price and fee are within the balance, and at least 10 |
| Billing.Registers | tarantool_backend/app/billing_service.lua:106-133 | what an authorization answers and registers: the granted time, the matched tariff, a dialog that expires five minutes later; a repeated call id keeps all but its deadline; a refusal changes nothing |
| Billing.ProvisionedCalls | tarantool_backend/app/billing_service.lua:206-249 | a subscriber added with a balance and a limit and topped up may call a number with its own tariff exactly when the limit is not reached and the money buys ten seconds |
| Billing.NoFundsNoCall | tarantool_backend/app/billing_service.lua:96-104 | nothing can be authorized on an empty account |
| Billing.MatchIsLongest | tarantool_backend/app/billing_service.lua:26-46 | the matched tariff is that of the longest provisioned prefix, else the row `default`, else 0.05 a minute without a fee |
| Billing.ScanCountsAll | tarantool_backend/app/billing_service.lua:49-66 | the indexed count is the number of the caller's dialogs, and the fallback substring scan never counts fewer |
| Billing.CountsExactly | tarantool_backend/app/billing_service.lua:49-66 | which dialogs count against the limit: with the index those of the caller, without it those whose caller field holds the name anywhere |
| BillingCode.BillingService.MatchTariff | tarantool_backend/app/billing_service.lua:26-46 | the loop from the longest prefix down finds the specified tariff |
| BillingCode.BillingService.CountActiveCalls | tarantool_backend/app/billing_service.lua:49-66 | both loops count the specified dialogs |
| BillingCode.BillingService.AuthorizeCall | tarantool_backend/app/billing_service.lua:70-133 | the spaces and the verdict are those of the authorization step, which `Billing.VerdictExactly` and `Billing.Registers` state in numbers |
| BillingCode.BillingService.FinalizeCdr | tarantool_backend/app/billing_service.lua:137-203 | the spaces and the billed amount are those of the finalization step, which `Billing.FinalizeCosts` states in numbers |
| BillingCode.BillingService.AddSubscriber | tarantool_backend/app/billing_service.lua:206-221 | the subscriber's row is replaced, nothing else changes |
| BillingCode.BillingService.UpdateBalance | tarantool_backend/app/billing_service.lua:223-236 | adds to the balance of a known subscriber, else reports failure and changes nothing |
| BillingCode.BillingService.SetTariff | tarantool_backend/app/billing_service.lua:238-249 | the tariff row is replaced, nothing else changes |
| Pool.Exclusive | asterisk_tarantool/res/res_tarantool.c:160-204 | in every run, even with nested acquisitions, of plain mutexes: no socket mutex is held by two threads, and every socket handed out is locked by the thread that got it |
| Pool.Progress | asterisk_tarantool/res/res_tarantool.c:160-204 | from every state reachable with one connection per thread, some step is possible while anybody is inside, although the fallback blocks on socket 0 with the profile locked; and without new requests only a bounded number of steps is left, whatever the schedule |
| Pool.EachServed | asterisk_tarantool/res/res_tarantool.c:160-204 | and when it can go no further, every given caller has been served: nobody is inside and nobody holds a connection |
| PoolScan.FirstFreeIsGiven | asterisk_tarantool/res/res_tarantool.c:160-188 | in every state in which the caller's profile is not locked: the caller's own steps give it, without waiting, the first socket of the profile that is free and is connected or can be, connected and locked by it, and leave everything else as it was |
| PoolScan.FallsBack | asterisk_tarantool/res/res_tarantool.c:176-192 | if there is none, they bring it to wait for socket 0 with the profile locked and nothing else changed |
| PoolScan.FirstIsGiven | asterisk_tarantool/res/res_tarantool.c:190-196 | where it can move exactly once socket 0 is free, and is then given it, connected or not |
| Pool.NotStuck | asterisk_tarantool/res/res_tarantool.c:165-197 | whoever waits, somebody in the chain of lock holders can move |
| Pool.EveryCallEnds | asterisk_tarantool/res/res_tarantool.c:176-204 | every lock, probe, connect and release step brings its thread nearer to the end of its call |
| Pool.StepKeeps | asterisk_tarantool/res/res_tarantool.c:160-204 | every step keeps the tables of the three kinds of mutexes in agreement with where the threads stand |
| Pool.NeverRelocks | asterisk_tarantool/res/res_tarantool.c:165-191 | a thread with one connection never locks or tries a mutex it holds |
| Pool.NestedDeadlocks | asterisk_tarantool/res/res_tarantool.c:190-196 | the condition is needed: in every pool with a profile and two threads, a thread that acquires again while it holds a connection can come to wait for the profile whose holder waits for that connection |
| Pool.BlockedForever | asterisk_tarantool/res/res_tarantool.c:165-196 | from there on only new callers can arrive, in every run: nobody is ever given a connection or releases one |
| Pool.HandedConnected | asterisk_tarantool/res/res_tarantool.c:178-196 | in every run a socket other than the first is handed out only when it is connected; only the fallback hands out socket 0 unconnected |
| Pool.FindIsFirst | asterisk_tarantool/res/res_tarantool.c:148-158 | the profile found is the first of that name, or the first at all without a name |
| Sessions.FindAfterStore | docker/kamailio_entrypoint.c:117-150 | a lookup right after a store returns the stored address exactly when the call id fits a slot (1 to 127 characters) and the window had room |
| Sessions.StoredExactly | docker/kamailio_entrypoint.c:117-150 | in numbers: found exactly if the call id has 1 to 127 characters and one of the 1024 slots from its hash on is empty or holds it |
| Sessions.OthersUntouched | docker/kamailio_entrypoint.c:117-165 | operations on one call id never change what a lookup of another returns |
| Sessions.RunIsMap | docker/kamailio_entrypoint.c:117-165 | in every run in which windows have room and no live call id is stored again below an empty slot, lookups answer as a map does |
| Sessions.GoneAfterDelete | docker/kamailio_entrypoint.c:152-165 | after a delete the call id is gone exactly when it sat in one slot only |
| Sessions.StoreDoubles | docker/kamailio_entrypoint.c:117-132 | a store puts a second copy of a live call id exactly when an empty slot comes before the first one |
| Sessions.StoreThenDelete | docker/kamailio_entrypoint.c:117-165 | storing and deleting a call id removes it, or brings the older address back, the latter exactly in that case |
| Sessions.StaleSession | docker/kamailio_entrypoint.c:117-165 | from an empty table, six operations on two colliding call ids end with a deleted call id still being found |
| Sessions.StaleSample | docker/kamailio_entrypoint.c:86-165 | concretely, for the call ids of bytes 1, 34 and 2, 1, which share a hash in a table of any size, where a map would answer that there is none |
| Sessions.HashIsPoly | docker/kamailio_entrypoint.c:86-92 | wrapping the hash to 32 bits in every step is the same as wrapping the polynomial once |
| Sessions.HashSteps | docker/kamailio_entrypoint.c:86-92 | in numbers: the hash starts at 5381, and each character multiplies it by 33 and is added |
| SessionsCode.SessionTable.HashCallId | docker/kamailio_entrypoint.c:86-92 | the loop computes that hash modulo the table size |
| SessionsCode.SessionTable.StoreSession | docker/kamailio_entrypoint.c:117-132 | the array changes as the store says, in one slot at most |
| SessionsCode.SessionTable.FindSession | docker/opensips_entrypoint.c:73-85 | the probe loop returns the specified address |
| SessionsCode.SessionTable.DeleteSession | docker/opensips_entrypoint.c:87-98 | the array changes as the delete says, in one slot at most |
| Sweeper.Space.Drain | tarantool_backend/app/ttl_worker.lua:29-53 | whatever other fibers do at the hand-overs, the sweep terminates; its state is that of a log of batches, each of up to 500 rows expired at its turn; the count is the number of rows deleted, each an expired row of the start; every other row is, field by field, as the others' work alone would leave it; and no expired row is left unless it was stopped |
| Sweeper.Space.Batch | tarantool_backend/app/ttl_worker.lua:37-41 | at most 500 distinct expired keys, as many as there are, latest deadline first |
| Sweeper.AllMeetRely | tarantool_backend/app/rtpe_service.lua:25-41 | what other fibers do never makes or changes a row that is expired at the sweep's clock |
| Sweeper.AuthorizedIsTimely | tarantool_backend/app/billing_service.lua:106-121 | a dialog registered by an authorization expires in the future |
| Sweeper.Round | tarantool_backend/app/ttl_worker.lua:36-50 | one batch and one hand-over keep the sweep's state and leave fewer expired rows |
| Framers.EachCountedOnce | benchmarks/pcbench.c:446-463 | for any counter that sees whole frames, every stream of them and every way of cutting it into reads: each reply and each error is counted once and nothing is left over |
| Framers.AnyCut | benchmarks/pcbench.c:446-463 | for every stream that is in step before its last byte, the counts summed over the reads are those of one read and the leftover is the same |
| FramerReads.RepliesCounted | benchmarks/pcbench.c:271-400 | for each of the four counters, every stream of well-formed replies, every way of cutting it into reads and whatever stands behind the buffered bytes at each read: each reply and each error is counted once and nothing is left over |
| Framers.CutFreeExactly | benchmarks/pcbench.c:341-368 | what the binary counter finds is independent of the cutting if and only if, before the last byte, every frame start seen with 16 bytes has the magic byte |
| FramerReads.TntCutFreeExactly | benchmarks/pcbench.c:277-317 | what the IProto counter finds depends neither on the cutting nor on what is behind the buffer if and only if, before the last byte, every byte seen with four more behind it lies in a frame, and every complete frame settles its header |
| ReplyHeader.SettledExactly | benchmarks/pcbench.c:289-311 | a reply counts for the same errors whatever is behind its frame if and only if its header is settled: what runs out of the frame is a value nobody looks at, or a number with a nonzero byte inside |
| ReplyHeader.RunsOut | benchmarks/pcbench.c:289-311 | two replies whose header runs out of the frame: one takes its status from the next frame, the other keeps the error it already counted |
| FramerReads.OverrunSample | benchmarks/pcbench.c:289-311 | in numbers: two frames are one error in one read and none in two |
| FramerReads.RespCutFreeExactly | benchmarks/pcbench.c:370-400 | after every read the Redis counts are decided by the bytes read so far if and only if no bulk header is blank |
| FramerReads.BlankSample | benchmarks/pcbench.c:382-388 | in numbers: seven bytes with a blank bulk header leave one byte in one read and two in two |
| FramerReads.OthersNeverBreak | benchmarks/pcbench.c:271-400 | the line counter on any stream, and the Redis counter on every stream without a blank bulk header, find what one read would find; the IProto counter finds the same replies and the same rest in any stream |
| ReplyHeader.StatusCounted | benchmarks/pcbench.c:289-311 | an IProto reply with a short map of numbers as header is settled and counts for as many errors as it has statuses other than OK, whatever widths, order and further entries it uses |
| ReplyHeader.ErrorReplies | benchmarks/pcbench.c:289-311 | replies byte for byte: a status other than 0 and an error text under 0x31 are one error each |
| FramerReads.ReadToTheEnd | benchmarks/pcbench.c:446-463 | with replies that fit the buffer and a kernel that always has something, the reads of the worker reach the end of the stream |
| Framers.CountSplit | benchmarks/pcbench.c:452-462 | counting a buffer and then its leftover with more bytes is counting everything at once |
| Framers.DesyncDependsOnCut | benchmarks/pcbench.c:352-356 | in numbers: 32 bytes without the magic byte are one error in one read and two in two |
| Framers.BinFramed | benchmarks/pcbench.c:338-368 | every binary frame is counted as one frame: a reply exactly for type 2, an error exactly for its flag bit |
| Framers.SimpleFramed | benchmarks/pcbench.c:391-396 | every simple line reply is one reply, an error exactly when it starts with `-` |
| Framers.BulkFramed | benchmarks/pcbench.c:382-387 | every bulk string, whatever its data, is one reply of exactly its length |
| Framers.PerfFramed | benchmarks/pcbench.c:322-336 | every line is one reply, an error exactly when it holds the word in quotes |
| Framers.TntFramed | benchmarks/pcbench.c:271-318 | every IProto frame is one reply of exactly its length, with the errors it shows whatever is behind it |
| FramersCode.CountPerf | benchmarks/pcbench.c:322-336 | the cursor loop computes counts, errors and used bytes of the specification |
| FramersCode.CountBin | benchmarks/pcbench.c:341-368 | the same for binary frames |
| FramersCode.CountResp | benchmarks/pcbench.c:370-400 | the same for the Redis protocol, with the bytes behind the buffer that `strtol` may read |
| FramersCode.CountTnt | benchmarks/pcbench.c:271-318 | the same for IProto frames, with the bytes behind the buffer; bytes passed over are errors in each read, although they are not used up until a frame is complete |
| FramersCode.HeaderErrors | benchmarks/pcbench.c:289-311 | the loop over the header entries counts the errors of a reply, reading behind the frame where an entry runs out of it |
| FramersCode.MemFind | benchmarks/pcbench.c:258-269 | finds an occurrence if and only if there is one |
| FramersCode.Worker | benchmarks/pcbench.c:446-463 | each read brings what the kernel has, the 1 MB buffer takes and the stream still holds, until a read brings nothing; counts and leftover are those of exactly these reads, with what then stands behind the buffered bytes; and when a stream of well-formed replies of any of the four protocols is read to its end, each reply and each error has been counted once |
| Sha1Code.HashPieces | opensips_tarantool/cachedb_tarantool/cachedb_tarantool_dbase.c:103-150 | fed in any pieces, each below 2^32 bytes together with the buffered bytes, the context computes the SHA-1 of the concatenation: exactly the blocks of the padding of section 4 of RFC 3174 |
| Sha1Code.Context.Update | opensips_tarantool/cachedb_tarantool/cachedb_tarantool_dbase.c:103-123 | with its 32-bit sums, whole blocks go into the state and the rest waits in the buffer, for any piece that stays below 2^32 bytes together with the buffered bytes |
| Sha1Code.RoomDecides | opensips_tarantool/cachedb_tarantool/cachedb_tarantool_dbase.c:112-122 | the condition is exact: where the piece is taken for one that fits, copying it stays inside the buffer if and only if the sum of fill and length does not wrap |
| Sha1Code.Context.Final | opensips_tarantool/cachedb_tarantool/cachedb_tarantool_dbase.c:125-142 | pads with the 1 bit, the least number of zeros and the 64-bit length, and returns the digest of everything fed; the padding loop terminates |
| Sha1Code.HashOnce | opensips_tarantool/cachedb_tarantool/cachedb_tarantool_dbase.c:144-150 | the SHA-1 of the data, for every 32-bit length |
| Sha1.CountAdds | opensips_tarantool/cachedb_tarantool/cachedb_tarantool_dbase.c:107-110 | the two count words hold the number of bits modulo 2^64 across the 32-bit carry |
| Sha1.Position | opensips_tarantool/cachedb_tarantool/cachedb_tarantool_dbase.c:107 | the low count word alone gives the position in the buffer |
| Sha1.LengthBytes | opensips_tarantool/cachedb_tarantool/cachedb_tarantool_dbase.c:130-132 | the eight bytes taken from the two words are the 64-bit length, most significant first |
| Sha1.Transform | opensips_tarantool/cachedb_tarantool/cachedb_tarantool_dbase.c:52-90 | the schedule and round loops compute the block function of section 6.1 of RFC 3174, whose test value is `Sha1Sample.Abc` |
| Sha1Sample.Abc | opensips_tarantool/cachedb_tarantool/cachedb_tarantool_dbase.c:52-150 | the test value of section 7.3 of RFC 3174: the digest of abc is a9993e36 4706816a ba3e2571 7850c26c 9cd0d89d, through all words and rounds |
| Sha1Sample.Chooses | opensips_tarantool/cachedb_tarantool/cachedb_tarantool_dbase.c:68-71 | bit by bit, rounds 0 to 19 choose between c and d by b |
| Sha1Sample.TakesParity | opensips_tarantool/cachedb_tarantool/cachedb_tarantool_dbase.c:72-75 | rounds 20 to 39 and 60 to 79 take the parity of the three |
| Sha1Sample.TakesMajority | opensips_tarantool/cachedb_tarantool/cachedb_tarantool_dbase.c:76-79 | bit by bit, rounds 40 to 59 take the majority of the three |
| Sha1Sample.Roots | opensips_tarantool/cachedb_tarantool/cachedb_tarantool_dbase.c:68-83 | the four constants are the square roots of 2, 3, 5 and 10 in units of 2^-30, rounded down |
| Sha1Sample.Start | opensips_tarantool/cachedb_tarantool/cachedb_tarantool_dbase.c:92-101 | the bytes of the starting state count up, down and so on through the sixteen digits |
| Base64.DecodesEncoded | opensips_tarantool/cachedb_tarantool/cachedb_tarantool_dbase.c:173-192 | decoding the encoding of section 4 of RFC 4648 gives the bytes back, even with characters outside the alphabet in between |
| Base64.NoiseIgnored | opensips_tarantool/cachedb_tarantool/cachedb_tarantool_dbase.c:179-182 | a character outside the alphabet changes nothing, wherever it is put |
| Base64.TableExact | opensips_tarantool/cachedb_tarantool/cachedb_tarantool_dbase.c:154-171 | the table knows exactly the characters of the alphabet, each with its number |
| Base64.Alphabet | opensips_tarantool/cachedb_tarantool/cachedb_tarantool_dbase.c:154-171 | the alphabet runs through upper case, lower case and digits in order, then plus and slash |
| Base64.Vectors | opensips_tarantool/cachedb_tarantool/cachedb_tarantool_dbase.c:173-192 | test vectors of section 10 of RFC 4648 for the encoding that is decoded |
| Base64.DecodeInto | opensips_tarantool/cachedb_tarantool/cachedb_tarantool_dbase.c:173-192 | the loop writes the decoded bytes cut to the destination size, and nothing else |
| Scramble.AnswerAccepted | opensips_tarantool/cachedb_tarantool/cachedb_tarantool_dbase.c:374-382 | for every password and salt the scramble XOR h3 gives SHA1(password) back, so a server that stores only h2 accepts it |
| Scramble.GreetingAccepted | opensips_tarantool/cachedb_tarantool/cachedb_tarantool_dbase.c:370-382 | through the greeting: the answer to the decoded base64 salt is accepted for the salt the server drew |
| Scramble.Prepare | opensips_tarantool/cachedb_tarantool/cachedb_tarantool_dbase.c:367-382 | computes that answer, and refuses a salt that decodes to fewer than 20 bytes |
| Url.RoundTrip | opensips_tarantool/cachedb_tarantool/cachedb_tarantool_dbase.c:700-791 | parsing a printed URL that is not cut, with any int as port, returns its components if and only if they hold no separator that would end them early; passwords may hold `:` and spaces may hold `/` |
| Url.CutRoundTrip | docker/opensips_entrypoint.c:111-114 | through the 512-byte buffer: the components come back if and only if they are clean and either nothing is cut away or the parser fills in exactly what is (the default space, with the default port or a port of 0, or with the default user as host) |
| Url.PrintedBack | docker/opensips_entrypoint.c:112 | every clean target is read back from its printed form, before the cut to 511 bytes |
| Url.ParsedIsClean | opensips_tarantool/cachedb_tarantool/cachedb_tarantool_dbase.c:717-777 | whatever is parsed, the components found hold none of the separators that end them |
| Url.RefusedExactly | opensips_tarantool/cachedb_tarantool/cachedb_tarantool_dbase.c:708-737 | a URL is refused exactly when it is empty, has another scheme, or names a cluster without `://` |
| Url.DefaultsFilled | opensips_tarantool/cachedb_tarantool/cachedb_tarantool_dbase.c:718-775 | every component may be left out and gets its default (name `default`, user `guest`, no password, also behind a user without a colon, port 3301, space `rtpe_calls`), and every one that is there is taken as it is |
| Text.ReadsBack | benchmarks/pcbench.c:383 | `strtol` reads back what `%d` printed, saturating at the largest long, whatever comes behind |
| Text.Decimal | benchmarks/pcbench.c:383 | four digits are printed decimal, most significant first |
| Text.Signs | benchmarks/pcbench.c:383 | `strtol` passes over a space and reads a sign, and `%d` writes one |
| Text.AtoiReadsBack | opensips_tarantool/cachedb_tarantool/cachedb_tarantool_dbase.c:772 | `atoi` reads back every printed int |
| Writev.WritevAll | opensips_tarantool/cachedb_tarantool/cachedb_tarantool_dbase.c:211-233 | for any list and any schedule of short writes and retries: the bytes handed over are a prefix of the whole, and all of it when 0 is returned; the outcome is exactly that of the transfer |
| Writev.Advance | opensips_tarantool/cachedb_tarantool/cachedb_tarantool_dbase.c:222-230 | the list afterwards holds exactly the bytes not yet taken, and is used up exactly when all were |
| Writev.Transfer | opensips_tarantool/cachedb_tarantool/cachedb_tarantool_dbase.c:213-232 | a transfer ends well only when there was at least one byte and all of them were taken: a list of empty buffers is never reported as sent |
| Writev.SentExactly | opensips_tarantool/cachedb_tarantool/cachedb_tarantool_dbase.c:213-232 | a transfer succeeds if and only if the calls take the whole before any of them fails or takes nothing |

## Left out

- CacheDriver.RunIsMap: `space_id` is a fixed nonzero value; `resolve_space_id`, which falls back to 512, is not modelled.
- CacheDriver.DecodeGetAnyWidth: what a row of another width leaves unread is taken for the next entry of the reply; what is then made of further entries is not modelled.
- ReplySample.GetReplies: strings of up to 31 bytes and small numbers; all other encodings are in `CacheDriver.DecodeGetExact`.
- ReplySample.RestoreReply: the same, one call; all others are in `RtpeRestore.RestoreExact`.
- CacheCode.PackGet: asks that the packet fits the 1024-byte buffer, which the C code does not check; `CacheCode.LookupFitsExactly` says when it does.
- CacheCode.PackRemove: the same.
- CacheCode.PackSet: asks that the packet fits the 256-byte buffer, which the C code does not check; `CacheCode.SetFitsExactly` says when it does.
- CacheCode.CacheConnection.Call: the choice of a pooled connection (any, in `CacheDriver`), and the drain, the reconnect and the breaker update around a call (in `Breaker`) are modelled apart; it asks that the reads of the reply stay inside it, which the C decoders do not check.
- RtpeRun.RestoreBringsBack: sync ids are unbounded (no 64-bit wrap); the server returns the payload map in its short form, as the driver requires.
- RtpeRestore.RestoreExact: the callback is modelled by how many calls it accepts before it stops.
- RtpeCode.PackCallUpsert: asks that the packet fits the buffer, which the C code does not check; `RtpeCode.SaveFitsExactly` says when it does.
- RtpeCode.PackStringCall: the same, with `RtpeCode.StringCallFitsExactly`.
- RtpeCode.RtpeClient.SaveCall: the same, for its 2048 bytes.
- RtpeCode.RtpeClient.DeleteCall: the same, for its 1024 bytes.
- RtpeCode.RtpeClient.RestoreCalls: the same, for its 512 bytes.
- Witnesses.StopDecides: counts whose smallest answer comes within a few bytes per row of the 1 MB limit are not covered.
- BillingRun.LossBound: money is exact; floating-point rounding is not modelled.
- BillingCode.BillingService.AuthorizeCall: the answers for a backend whose spaces do not exist yet and the start time kept with a dialog are not modelled.
- BillingCode.BillingService.FinalizeCdr: the start time and the media metrics of a call record and the removal of the media session are not modelled.
- BillingCode.BillingService.AddSubscriber: the currency, the tariff id and the update time of the row are not modelled.
- BillingCode.BillingService.UpdateBalance: the update time of the row and the balance returned with the success are not modelled.
- Pool.Progress: while new requests keep coming it says that the pool as a whole moves on, not that a particular waiting thread is served; without them `Pool.EachServed` does.
- Pool.Exclusive: mutexes are plain, so what a recursive mutex would let a thread with nested acquisitions do is not modelled; reloading the configuration and the status command, which also take the list lock, are not modelled.
- SessionsCode.SessionTable.StoreSession: the null checks on the call id are not modelled.
- Sweeper.Space.Drain: yields inside the index walk or the deletes are not modelled, nor the early exit for a space without an expiry index, nor the sleeping outer loop and its statistics.
- FramersCode.CountTnt: asks for at least 17 bytes of memory behind the buffer, which is as far as it reads.
- FramersCode.CountResp: `strtol` is taken to stop where the memory given to it ends.
- FramersCode.Worker: the requests sent between batches of replies are not modelled; the reads of all batches form one stream.
- FramersCode.CountBin: buffers are at most the worker's 1 MB, so the 32-bit sum of header and payload length does not wrap.
- Sha1Code.Context.Final: wiping the context afterwards is not modelled.
- Scramble.Prepare: a client without user or password, which skips authentication, is not modelled; the layout of the authentication request and the check of its reply are not modelled; authentication is an abstract outcome of a connection attempt.
- Url.RoundTrip: the cut to 511 bytes is left to `Url.CutRoundTrip`.
- Writev.WritevAll: waiting for ever is modelled as running out of the calls considered.
- Negative MessagePack integers are values of their own, which the encoders never produce; `mp_decode_uint` returns 0 for one and moves one byte, as `Msgpack.DecodeUint` does.
- Socket creation, options, name resolution and timeouts.
- The msgpack-c calls of the Kamailio client, its KEMI layer and module registration.
- The Asterisk realtime, function and CDR modules, and the second copy of the codec they use.
- RtpeService.Service.CallUpsert: calls with arguments of the wrong type, which the procedures refuse, are not modelled.
- RtpeService.Service.SelectOptimalNode: which of several equally loaded nodes is taken follows the key order in the source and is left open here.
- Live statistics of the billing service, schema declarations, dashboards, reports, tests and container files.
