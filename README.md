# Remote Lua bridge of the Dread exlaunch module

This project models the two core source files of the exlaunch module that the Metroid Dread randomizer injects into the game.

- `source/program/remote_api.cpp` is a one-client TCP server. It runs on its own thread. Every 2 ms it receives at most one packet into a fixed 4096-byte buffer. The game thread then runs that packet as a Lua chunk. The responses queue on a vector and are sent on the next tick. A client that sends no keep-alive for 5000 ticks is dropped.
- `source/program/main.cpp` builds the two kinds of packet the game sends back:
  - the response to a remote Lua execution (`multiworld_update`);
  - a log line (`gamelog_send`).
  It also keeps the table that redirects asset paths into `rom:/` (`populateStringReplacementList`, `replaceString`). Finally, it picks the function offsets for the running game version (`getVersionOffsets`).

Layout:

- `basics.dfy` (module `Basics`) holds the machine vocabulary:
  - bytes, `size_t` and 32-bit `int` with explicit wrap-around;
  - little-endian encoding and decoding;
  - `Store`/`Overrun`, a write into a fixed allocation. Bytes that fall inside the allocation land there. Bytes past its end are dropped and counted.
- `remote_api_header.dfy` (module `RemoteApiHeader`) holds the packet types, the interest masks and `BufferSize`.
- `protocol.dfy` (module `Protocol`) is the engine as a pure state machine. `ServerState` holds the file-scope globals of `remote_api.cpp`. There is one function per routine, and the lemmas state what the protocol does.
- `remote_api.dfy` (module `RemoteApi`) is the engine as the source has it: class `Server` with the globals as fields and `RecvBuffer` as an `array`.
  - Each method updates the fields in place.
  - Each method with a counterpart in `Protocol` is proved to move `State()` exactly as that function does. For example, `ServeConnection` is a `while` loop proved against `Protocol.Serve`.
  - `ClientSends` (bytes arriving) and `ClearRecvBuffer` (the `memset`) have no counterpart and state their effect directly. `ParseRemoteLuaExec` states only the flag it sets, the one field it may change.
- `packets.dfy` (module `Packets`) holds:
  - the two builder lambdas of `main.cpp` as functions;
  - a reference reading of each layout the server writes (`DecodeExec`, `DecodeLog`), against which the round trips are stated;
  - layout and round-trip lemmas.
- `replacements.dfy` (module `StringReplacement`) holds the replacement table:
  - class `StringTable` over an `array` of entries;
  - the last-match specification `Lookup`.
- `versions.dfy` (module `Versions`) holds the version table.
- `session.dfy` (module `Session`) holds the game-side entry points. It also has whole-exchange lemmas: a remote-exec packet is received, processed and queued as a response that decodes back to the result.

External effects are parameters:

- The socket is the `inbound` field. It holds the bytes the client has sent that have not been received yet. A receive of `n` bytes takes up to `n` of them, and returns -1 when there are none.
- `Send` is a function from a queued packet to the count it returns.
- Success of `calloc` is a boolean.
- The Lua interpreter is an oracle. For a chunk it returns:
  - the status of `luaL_loadbuffer`;
  - the status of the protected call;
  - the bytes of the `tostring` result.
- `crc64` is a function parameter.
- The parsed `replacements.json` is an input.
- The contents of an uninitialised `malloc` slot are an input.

The two threads are modelled as method calls on one `Server`, made one after another. Between two ticks of the network thread the game thread may make any number of `ProcessCommand` and `SendLog` calls (`Protocol.Slot`).

Behaviour of the code worth knowing:

- No "malformed packet" diagnostic is ever sent. Unknown type bytes are dropped.
- Only a keep-alive resets the timer.
- The response length field is 3 bytes.
- A log packet carries 4 effective length bytes.
- Packets whose send fails are not kept for a retry.

The header `remote_api.hpp` disagrees with the implementation in two places:

- It names the second subscription flag `locationCollected`; the implementation writes `multiworldUpdates`.
- It declares `SendMessage`; the implementation defines `SendLog`.

The model uses the implementation's names.

Several behaviours of the code as written are stated as lemmas on the as-written model rather than corrected:

- `SendLogic` always empties the queue. Its loop nulls copies of the entries, so a failed packet is lost instead of retried.
- The receive length is not checked:
  - A length n over 4091 writes past `RecvBuffer` once more than 4091 payload bytes have arrived.
  - A negative length n receives everything that has arrived, because the count passed to `recv` is taken as unsigned. The stored length becomes 1 + 4 + n. That is 0 to 4 for n from −5 to −1, and it wraps around as a `size_t` only for n ≤ −6.
- The load-error response reports 39 plus the message length as its size, more than the 39 bytes allocated.
- The failed-call response's `snprintf` writes its NUL one byte past the allocation when the error text holds no NUL (main.cpp:189).
- The log builder's 8-byte length copy runs past the allocation when the text is shorter than 4 bytes.
- The Lua chunk includes the 4 length bytes as well as the script.

## Model

`Protocol.Next`, `Protocol.RemainingBytes`, `Protocol.ExecHeader`, `Protocol.Step`, `Protocol.Later`, `Protocol.ServeStep`, `StringReplacement.ItemEntry` and `Packets.ExecProcessor` are sub-steps without a row of their own. What they do is stated by the rows of the members built on them: `Protocol.ProcessCommand` for `Next`, `Protocol.ExecLengthField` for `RemainingBytes` and `ExecHeader`, `Protocol.Serve` and `RemoteApi.Server.RunSlot` for `Step`, `Later` and `ServeStep`, the item-redirect lemmas for `ItemEntry`, and `Packets.ExecReply` for `ExecProcessor`.

| member | source | states |
|---|---|---|
| Basics.ToInt32 | source/program/remote_api.cpp:236-238 | an integer reinterpreted as a 32-bit `int`: within range, congruent modulo 2^32, unchanged when it already fits |
| Basics.SizeT | source/program/remote_api.cpp:112 | a signed value stored into a `size_t`: congruent modulo 2^64, unchanged when non-negative and in range |
| Basics.Store | source/program/main.cpp:181 | a `memcpy` into an allocation: the bytes inside the copied range are the source's, every other byte is unchanged, the size is kept |
| Basics.Overrun | source/program/main.cpp:189 | a write runs past the allocation exactly when offset plus length exceeds its size |
| Basics.CString | source/program/main.cpp:189 | what `%s` prints is the prefix before the first NUL: a prefix of the bytes, NUL-free, stopped by a NUL when shorter |
| Basics.CStringWhole | source/program/main.cpp:189 | the printed text is the whole result exactly when the result holds no NUL |
| Basics.LeToLe | source/program/remote_api.cpp:236 | reading back `w` little-endian bytes of `n` gives `n` modulo 256^w |
| Basics.ToLeLe | source/program/remote_api.cpp:236 | every byte string is the encoding of its little-endian value, which is below 256^w |
| Protocol.Initial | source/program/remote_api.cpp:41-64 | the static initial state is well formed |
| Protocol.AddPacketToSendBuffer | source/program/remote_api.cpp:96-104 | exactly one (size, buffer) entry is appended, earlier entries are unchanged and nothing else changes |
| Protocol.ReceiveLogicValid | source/program/remote_api.cpp:106-117 | receiving keeps RecvBuffer at 4096 bytes and every queued packet owning a buffer |
| Protocol.ProcessCommandValid | source/program/remote_api.cpp:177-192 | processing a command keeps the state well formed |
| Protocol.ReceiveWhileReady | source/program/remote_api.cpp:106-108 | while the game thread holds the buffer, a receive changes nothing: RecvBuffer is neither cleared nor overwritten, nothing is consumed |
| Protocol.ProcessCommandIdle | source/program/remote_api.cpp:177-178 | with no pending command, processing changes nothing |
| Protocol.ProcessCommandEffect | source/program/remote_api.cpp:178-191 | a pending command is always consumed; a NULL reply queues nothing and keeps the sequence number; otherwise exactly one packet stamped `[3, old sequence number]` is queued and the number advances modulo 256 |
| Protocol.SendLogEffect | source/program/remote_api.cpp:194-204 | a log packet is queued only while the client socket is positive and the builder succeeds, stamped with type 2; no sequence number is used and nothing else changes |
| Protocol.ReceiveKeepAlive | source/program/remote_api.cpp:241-243 | a keep-alive byte resets the timer to 5000 and queues nothing; the rest of the stream stays unread |
| Protocol.KeepAliveTick | source/program/remote_api.cpp:145-152 | the timer is decremented before receiving, so a tick that reads a keep-alive ends at 5000 and never tears down |
| Protocol.ReceiveOtherType | source/program/remote_api.cpp:226-244 | any other type byte is dropped: only the type byte is consumed and only RecvBuffer and its length change |
| Protocol.ReceiveHandshake | source/program/remote_api.cpp:206-233 | logging is bit 0 and the second flag bit 1 of the interest byte; the length is 2; exactly one `[1, old sequence number]` packet of size 2 is queued and the number advances modulo 256; a failed allocation changes only the flags |
| Protocol.TypeByte | source/program/remote_api.cpp:109-115 | the type byte lands in the cleared buffer with length 1, and dispatch starts from there |
| Protocol.ReceiveExecStart | source/program/remote_api.cpp:106-117 | a remote-exec type byte leads to the remote-exec case on the cleared buffer holding the type |
| Protocol.ExecLengthField | source/program/remote_api.cpp:235-236 | the length field lands in bytes 1..4 and its little-endian value is the declared length |
| Protocol.ExecPacketBufferLayout | source/program/remote_api.cpp:234-238 | a received remote-exec packet leaves type byte, length field, payload, then zeros in RecvBuffer |
| Protocol.RemoteExecComplete | source/program/remote_api.cpp:234-240 | the remote-exec case on a complete fitting packet stores it, sets the length to 5 + n, signals the game thread and consumes exactly the packet |
| Protocol.ReceiveRemoteExec | source/program/remote_api.cpp:234-240 | a complete remote-exec packet of n ≤ 4091 bytes: payload at offset 5, length 5 + n, flag set, nothing queued, nothing else changed |
| Protocol.RemoteExecPartial | source/program/remote_api.cpp:234-239 | with fewer bytes arrived than declared, the declared length is still stored and the missing bytes read as zero |
| Protocol.ReceiveRemoteExecShort | source/program/remote_api.cpp:234-240 | a short remote-exec packet is still handed to the game thread with length 5 + n and zero-filled payload |
| Protocol.RemoteExecOverrun | source/program/remote_api.cpp:237 | a complete packet writes 5 + n − 4096 bytes past RecvBuffer exactly when n > 4091, and none otherwise |
| Protocol.RemoteExecNegativeLength | source/program/remote_api.cpp:236-238 | a length field of all ones is −1: everything that has arrived is received, the flag is set and the stored length is 1 + 4 − 1 = 4 |
| Protocol.EraseNonNullEmpties | source/program/remote_api.cpp:130-131 | erasing the entries whose buffer is non-NULL from a queue where every entry owns its buffer leaves it empty |
| Protocol.DeliveredRetainedSplit | source/program/remote_api.cpp:121-129 | the delivered packets (send returned > 0) and the ones the comment says stay for a retry together are exactly the queue, as multisets |
| Protocol.MarkFreedErase | source/program/remote_api.cpp:121-131 | had the loop nulled the vector's own entries, keeping the non-NULL ones would leave exactly the failed packets, while the predicate actually used keeps as many entries as were freed |
| Protocol.SendLogicDropsFailedPackets | source/program/remote_api.cpp:119-133 | when some send fails, the queue after `SendLogic` is empty and differs from the failed packets the comment promises to keep |
| Protocol.AcceptResets | source/program/remote_api.cpp:141-144 | each accept resets the sequence number to 0, both subscriptions to false, the timer to 5000 and stores the socket |
| Protocol.ReceiveWithoutKeepAlive | source/program/remote_api.cpp:106-117 | a receive from a stream with no keep-alive byte leaves the timer unchanged and leaves no keep-alive byte unread |
| Protocol.NoKeepAliveTick | source/program/remote_api.cpp:145-163 | on a stream without a keep-alive byte (or while the game thread holds the buffer) a tick lowers the timer by one, tears down exactly when it was 1, and leaves no keep-alive byte unread |
| Protocol.NoKeepAliveTimeout | source/program/remote_api.cpp:145-164 | whatever else the client sends and whatever the game thread does between ticks, without a keep-alive byte teardown happens on exactly the `keepAlive`-th tick, with the queue emptied and the socket set to -1; before that the timer has dropped by the tick count |
| Protocol.DroppedAt5000WithoutKeepAlive | source/program/remote_api.cpp:138-164 | after an accept, a client that sends no keep-alive byte is dropped on exactly the 5000th tick, whatever the game thread does meanwhile |
| Protocol.HandshakeCaseEffect | source/program/remote_api.cpp:206-233 | from a buffer holding the handshake type byte: the subscriptions are the interest byte's bits, the length becomes 2, one byte is consumed, one `[1, old sequence number]` packet is queued when the allocation succeeds |
| Protocol.ExecAllOnes | source/program/remote_api.cpp:234-240 | an all-ones length field makes the case read everything that has arrived, set the flag and add 3 to the length |
| Protocol.Recv | source/program/remote_api.cpp:231-237 | a receive consumes a prefix of at most `n` arrived bytes and changes only RecvBuffer (same size) and the unread stream |
| Protocol.ParseHandshake | source/program/remote_api.cpp:206-219 | one `[1, sequence number]` packet of size 2 is appended when the allocation succeeds and nothing otherwise; buffer, length, timer, flag and socket are unchanged |
| Protocol.ParseRemoteLuaExec | source/program/remote_api.cpp:221-224 | sets the flag for the game thread and changes neither the queue, the sequence number, the buffer, the stream nor the timer |
| Protocol.HandshakeCase | source/program/remote_api.cpp:229-233 | the length grows by 1 (wrapping as `size_t`), at most one byte is consumed, the timer and the flag are unchanged |
| Protocol.RemoteLuaExecCase | source/program/remote_api.cpp:234-240 | the flag is set, only a prefix of the stream is consumed, queue, sequence number and timer are unchanged |
| Protocol.ParseClientPacket | source/program/remote_api.cpp:226-245 | the timer is reset exactly on a keep-alive type, the flag is set exactly on a remote-exec type, only a prefix of the stream is consumed |
| Protocol.TypeByteReceived | source/program/remote_api.cpp:109-112 | the first arrived byte lands in RecvBuffer[0] and is consumed; timer and flag are unchanged |
| Protocol.ReceiveLogic | source/program/remote_api.cpp:106-117 | nothing changes while the flag is set; otherwise the timer is reset exactly when the first arrived byte is a keep-alive, and only a prefix of the stream is consumed |
| Protocol.EraseNonNull | source/program/remote_api.cpp:130-131 | the erase leaves only entries whose buffer is NULL and never grows the queue |
| Protocol.SendLogic | source/program/remote_api.cpp:119-133 | only the queue changes, and no remaining entry owns a buffer |
| Protocol.ProcessCommand | source/program/remote_api.cpp:177-192 | the flag is cleared, at most one packet is appended to the queue, buffer, stream, timer, socket and subscriptions are unchanged |
| Protocol.SendLog | source/program/remote_api.cpp:194-204 | only the queue changes, by at most one appended packet, and nothing at all while the socket is not positive |
| Protocol.Accept | source/program/remote_api.cpp:141-144 | a new connection starts with nothing unread; buffer, length, flag and queue are carried over |
| Protocol.Teardown | source/program/remote_api.cpp:153-161 | the queue is emptied and the socket set to -1; nothing else changes |
| Protocol.Tick | source/program/remote_api.cpp:145-163 | the timer is decremented, or reset by a keep-alive read in this tick; teardown happens exactly when it reaches 0 and leaves an empty queue and socket -1; a set flag stays set; only a prefix of the stream is consumed |
| Protocol.GameCallStep | source/program/remote_api.cpp:177-204 | a `ProcessCommand` or `SendLog` call leaves the timer, the unread stream and the socket alone and appends at most one packet to the queue |
| Protocol.GameTurn | source/program/remote_api.cpp:177-204 | the game thread's calls between two ticks leave the timer, the unread stream and the socket alone and append at most one packet per call |
| Protocol.Serve | source/program/remote_api.cpp:145-164 | the loop runs one tick per slot (game calls, then the arrival, then the tick) and stops early only at a teardown, which leaves an empty queue and socket -1 |
| RemoteApi.Server.constructor | source/program/remote_api.cpp:41-64 | the object starts in the static initial state |
| RemoteApi.Server.AddPacketToSendBuffer | source/program/remote_api.cpp:96-104 | the queue field moves as `Protocol.AddPacketToSendBuffer` |
| RemoteApi.Server.ClearRecvBuffer | source/program/remote_api.cpp:109 | RecvBuffer holds 4096 zeros |
| RemoteApi.Server.Recv | source/program/remote_api.cpp:111 | consumes up to n arrived bytes into RecvBuffer at the offset, as `Protocol.Recv`; returns -1 when nothing has arrived, else the count |
| RemoteApi.Server.ParseHandshake | source/program/remote_api.cpp:206-219 | the state moves as `Protocol.ParseHandshake` |
| RemoteApi.Server.ParseRemoteLuaExec | source/program/remote_api.cpp:221-224 | sets the flag for the game thread |
| RemoteApi.Server.HandshakeCase | source/program/remote_api.cpp:229-233 | the state moves as `Protocol.HandshakeCase` |
| RemoteApi.Server.RemoteLuaExecCase | source/program/remote_api.cpp:234-240 | the state moves as `Protocol.RemoteLuaExecCase` |
| RemoteApi.Server.ReceiveChunk | source/program/remote_api.cpp:237-239 | receiving `remainingBytes` at offset 5, adding `4 + remainingBytes` to the length and setting the flag move the state as the corresponding `Protocol` steps |
| RemoteApi.Server.ParseClientPacket | source/program/remote_api.cpp:226-245 | the state moves as `Protocol.ParseClientPacket` |
| RemoteApi.Server.ReceiveLogic | source/program/remote_api.cpp:106-117 | the state moves as `Protocol.ReceiveLogic` |
| RemoteApi.Server.SendLogic | source/program/remote_api.cpp:119-133 | the state moves as `Protocol.SendLogic` (the queue empties); the packets freed are exactly those whose send returned > 0 |
| RemoteApi.Server.Tick | source/program/remote_api.cpp:145-163 | one iteration of the inner loop moves the state as `Protocol.Tick` and reports the teardown |
| RemoteApi.Server.Accept | source/program/remote_api.cpp:141-144 | the start of a connection moves the state as `Protocol.Accept` |
| RemoteApi.Server.GameTurn | source/program/remote_api.cpp:177-204 | the game thread's calls, made one after another, move the state as `Protocol.GameTurn` |
| RemoteApi.Server.RunSlot | source/program/remote_api.cpp:145-163 | the game calls, the client's bytes and one tick move the state as `Protocol.Step` |
| RemoteApi.Server.ServeConnection | source/program/remote_api.cpp:138-164 | one accept and its tick loop, with the game thread's calls between ticks, move the state as `Protocol.Serve` after `Protocol.Accept` |
| RemoteApi.Server.ProcessCommand | source/program/remote_api.cpp:177-192 | the state moves as `Protocol.ProcessCommand` |
| RemoteApi.Server.SendLog | source/program/remote_api.cpp:194-204 | the state moves as `Protocol.SendLog` |
| Packets.Snprintf | source/program/main.cpp:189 | `snprintf` writes the text cut to `cap - 1` bytes followed by a NUL |
| Packets.Decimal | source/program/main.cpp:202 | `%d` prints at least one byte and starts with a minus sign exactly when the value is negative |
| Packets.SuccessResponse | source/program/main.cpp:174-181 | the success branch allocates `resultSize + 6` bytes and reports exactly that size |
| Packets.CallErrorResponse | source/program/main.cpp:182-192 | the failed-call branch allocates `resultSize + 6` bytes and reports a size between 6 and the allocation |
| Packets.LoadErrorResponse | source/program/main.cpp:193-205 | the load-failure branch allocates 39 bytes and reports a size larger than the allocation |
| Packets.DecimalLength | source/program/main.cpp:195-196 | a C `int` prints in at most 11 bytes, in exactly 11 only when it is at most −10^9 |
| Packets.LoadErrorMessage | source/program/main.cpp:194-202 | the formatted load-error text is the prefix followed by the decimal status |
| Packets.LoadErrorMessageLength | source/program/main.cpp:194-197 | the reserved room is 33 bytes; the message is 23 to 33 bytes, and 33 exactly when the status is at most −10^9 |
| Packets.LuaChunk | source/program/main.cpp:164 | the chunk is `RecvBuffer[1 .. RecvBufferLength)` whenever that range lies in the buffer |
| Packets.StampResponse | source/program/main.cpp:206-210 | the header stores keep the buffer's size |
| Packets.StampLayout | source/program/main.cpp:206-210 | byte 0 is 3, byte 1 is untouched, byte 2 the success flag, bytes 3..5 the low 24 bits of `resultSize`, the rest unchanged |
| Packets.ZeroedPayload | source/program/main.cpp:177-181 | the result copied to offset 6 of a large enough zeroed buffer lands whole, leaves byte 1 zero and stays in bounds |
| Packets.ExecResponse | source/program/main.cpp:152-213 | the builder returns NULL exactly when `calloc` fails |
| Packets.ExecReply | source/program/main.cpp:152-213 | the processor handed to `ProcessCommand` returns NULL exactly when `calloc` fails |
| Packets.ExecResponseHeader | source/program/main.cpp:206-211 | every response: type 3, byte 1 zero for the sequence number, success 1 exactly when load and call both returned 0, the low 24 bits of `resultSize` (0 after a load failure) in bytes 3..5 |
| Packets.ExecSuccess | source/program/main.cpp:174-181 | on success the size is `resultSize + 6`, the whole allocation; the result follows the header; nothing is written out of bounds |
| Packets.ExecCallError | source/program/main.cpp:182-192 | on a failed call the size is `6 + printSize`, the printed text follows the header, and the `snprintf` NUL lands one byte past the allocation exactly when the text has no NUL |
| Packets.ExecLoadError | source/program/main.cpp:193-205 | on a load failure 39 bytes are allocated but the size reported is 39 + printSize, always larger; the length field is 0; the message is cut at 33 bytes; the NUL overruns only for a status ≤ −10^9 |
| Packets.EncodeExec | source/program/main.cpp:206-211 | a response is 6 header bytes plus the result |
| Packets.DecodeEncodeExec | source/program/main.cpp:206-211 | the reference reading decodes an encoded response back to its message while the result fits 24 bits |
| Packets.EncodeDecodeExec | source/program/main.cpp:206-211 | a packet the reference reading accepts is the encoding of what it decodes to |
| Packets.StampedEncodes | source/program/main.cpp:206-211 | a response buffer whose flag, length field and payload match a message is that message's encoding once the sequence number is stamped in |
| Packets.ExecRoundTrip | source/program/main.cpp:166-211 | with the sequence number stamped in, a success response, or a failed-call response whose text has no NUL, is exactly the encoding of (sequence number, success, result), its size is its length, and it decodes back |
| Packets.LogPacket | source/program/main.cpp:222-242 | the log builder returns NULL exactly when `calloc` fails |
| Packets.LogReply | source/program/main.cpp:222-242 | the processor handed to `SendLog` returns NULL exactly when `calloc` fails |
| Packets.EncodeLog | source/program/main.cpp:231-238 | a log packet is 5 header bytes plus the text |
| Packets.DecodeEncodeLog | source/program/main.cpp:231-238 | the reference reading decodes an encoded log packet back to its text |
| Packets.EncodeDecodeLog | source/program/main.cpp:231-238 | a log packet the reference reading accepts is the encoding of its text |
| Packets.LogPacketLayout | source/program/main.cpp:227-238 | the log buffer is type 2, the low four length bytes, then the text (over the length's upper bytes); the size is the whole allocation; the 8-byte copy overruns by `4 - resultSize` exactly when the text is shorter than 4 bytes |
| Packets.LogRoundTrip | source/program/main.cpp:227-240 | the reference reading gives back exactly the logged text |
| StringReplacement.LookupNoMatch | source/program/main.cpp:25-37 | with no entry of the path's crc, the path is unchanged |
| StringReplacement.LookupLastMatch | source/program/main.cpp:31-36 | the last entry with the path's crc decides the replacement |
| StringReplacement.Populated | source/program/main.cpp:85-113 | the list has one entry per array item |
| StringReplacement.StringItemRedirects | source/program/main.cpp:97-105 | a string item `s` redirects `s` to `"rom:/" + s` unless a later entry shares its crc |
| StringReplacement.ObjectItemRedirects | source/program/main.cpp:106-111 | an object item redirects its name to its child's string (NULL when not a string) unless a later entry shares its crc |
| StringReplacement.StringTable.constructor | source/program/main.cpp:15-16 | the list starts empty |
| StringReplacement.StringTable.ReplaceString | source/program/main.cpp:25-37 | the loop's result is the last-match lookup of the path's crc over the whole list |
| StringReplacement.StringTable.Populate | source/program/main.cpp:71-117 | an unparsable file leaves the list alone; otherwise a new list whose entries are the items' entries in order, with other kinds of item leaving the slot uninitialised |
| Versions.GetVersionOffsets | source/program/main.cpp:284-303 | the 2.1.0 table exactly when the display version is "2.1.0", the 1.0.0–2.0.0 table otherwise; the crc64 offset is 0x1570 in both |
| Session.MultiworldUpdate | source/program/main.cpp:151-218 | `multiworld_update` moves the engine as `Protocol.ProcessCommand` with the response builder |
| Session.GamelogSend | source/program/main.cpp:221-244 | `gamelog_send` moves the engine as `Protocol.SendLog` with the log builder |
| Session.ChunkIncludesLengthField | source/program/main.cpp:164 | after a remote-exec packet is received, the chunk given to Lua is the 4 length bytes followed by the script |
| Session.PacketChunk | source/program/main.cpp:164 | the chunk taken from a received packet's buffer is its length field followed by its payload |
| Session.ExecPacketProcessed | source/program/main.cpp:152-213 | the game thread answers a received packet whose chunk succeeds with one queued packet encoding (sequence number, success, result), its length as size; the number advances and the flag clears |
| Session.RemoteExecRoundTrip | source/program/main.cpp:152-213 | a received remote-exec packet whose chunk succeeds comes back as exactly one queued packet encoding (old sequence number, success, result) with its length as size; the sequence number advances, the flag clears, the packet decodes back to the result |
| Session.LogRoundTrip | source/program/main.cpp:221-244 | a log line sent while a client is connected comes back as exactly one queued packet `[2] ++ length ++ text` with its length as size; no sequence number is used; the packet decodes back to the text |

## Left out

- Socket setup is not modelled: `PrepareThread`, the socket pool, bind and listen (remote_api.cpp:69-94). The listening socket `g_TcpSocket` is not modelled at all. `ServeConnection` takes as `handle` the client socket that `Accept` returns (remote_api.cpp:143).
- Threads, the mutex and the atomic flag are not modelled. The network thread and the game thread are sequential method calls on one object. The game thread's calls fall between ticks, before the client's bytes of that interval arrive. A call that overlaps a tick is not modelled.
- `Recv` returning 0 on a graceful close is not distinguished from -1. Both mean "nothing arrived".
- A `Recv` that returns fewer bytes is modelled. A socket error is not.
- The sleep between ticks is not modelled.
- `SocketSpawn` loops forever. The model serves one connection over a finite sequence of slots (`ServeConnection`), one tick per slot. Each slot has its own allocation outcome.
- The Lua C API is an oracle from a chunk to (load status, call status, result bytes). This covers `luaL_loadbuffer`, `exefs_lua_pcall`, `tostring` and which stack slot `lua_tolstring` reads. The stack operations, `multiworld_schedule_update`, `multiworld_init` and the `LuaRegisterGlobals` hook are left out.
- `snprintf` is modelled only for the two formats used (`%s` and `%d`).
- `crc64` is a function parameter. Its definition lives in the game binary.
- cJSON and `openAndReadFile` are not modelled. The parsed "replacements" array is an input: `None` when the file does not parse, otherwise the items. A missing key is the empty array.
- `cJSON_GetItemName` and the child's string value are taken as given in each object item.
- Heap ownership is not modelled:
  - `malloc`/`calloc`/`free` and the leaks (the file buffer on a parse failure, the JSON tree, the old list);
  - the NULL return of `malloc` in `populateStringReplacementList`.
  Buffers are sequences. The only modelled failure is a `calloc` failure in the builders and the handshake.
- Bytes written past an allocation or past RecvBuffer are counted (`Overrun`, `Protocol.ReceiveOverrun`), not stored. What they overwrite is not modelled.
- Packets.LuaChunk: when `RecvBufferLength` lies outside the buffer, `luaL_loadbuffer` would read past RecvBuffer. The model hands Lua only the buffer's own bytes then.
- Hook installation is not modelled: `HOOK_DEFINE_TRAMPOLINE`, `exl_main` and the `ForceRomfs` NULL-path check. `replaceString` is modelled on a non-NULL path.
- `source/program/thread.hpp`, `source/program/static_thread.hpp` and `source/program/event_helper.hpp` are not part of this model. They are OS wrappers.
- `source/nn/socket.hpp` and `source/nn/oe/application_proxy.hpp` are not part of this model. They hold declarations only.
- `misc/scripts/run-lua.py` is not part of this model. It is a client script, and its decoding does not match the server's layout.
- `src/open_dread_rando_exlaunch/__init__.py` is not part of this model. It only copies a directory.
- Protocol.ReceiveRemoteExec, `Protocol.ReceiveRemoteExecShort` and `Session.ChunkIncludesLengthField` take a length field with n ≤ 4091. Longer packets are covered only by `Protocol.RemoteExecOverrun`. Negative lengths are covered only by the all-ones case of `Protocol.RemoteExecNegativeLength`.
- Packets.ExecRoundTrip and `Session.RemoteExecRoundTrip` cover only results that fit the 24-bit length field. A failed call whose text holds a NUL does not round-trip; `Packets.ExecCallError` states what it produces.
- Protocol.NoKeepAliveTimeout and `Protocol.DroppedAt5000WithoutKeepAlive` require that byte 4 appears nowhere in what the client sends, not only at packet starts. A short read can leave any byte to be read later as a type byte. Streams where 4 appears only inside payloads are not covered by these lemmas; `Protocol.Tick` still states what every tick does.
