# UV-K5 remote keys, screen viewer and C runtime stubs — a Dafny model

This project models four small parts of the UV-K1/K5 v3 custom firmware
repository and proves properties of them:

1. **The screen viewer's frame decoder** (`K5Viewer`, k5viewer.dfy).
   - The host viewer receives `AA 55 | type | size (16-bit big-endian) | payload` frames from the radio.
   - It keeps a 1024-byte copy of the 128x64 monochrome display.
   - `K5Viewer.Receiver` is the receiver object. It holds a receive buffer (`seq<byte>`), the bitmap (`array<byte>`) and the notices it emits.
   - Its methods follow `_consume_buffer` and `_apply_diff` loop by loop. Each is proved against the pure specification functions `FindHeader`, `Patch`, `Diff`, `Deliver`, `Consume` and `Feed`.
   - Lemmas then establish:
     - resynchronisation;
     - waiting for incomplete frames;
     - frame removal and the diff semantics;
     - that a frame split across any number of reads is decoded exactly once;
     - that draining is idempotent.
2. **The firmware's remote-key queue** (`RemoteKeyApi`, `RemoteKey`: remote_key_api.dfy, remote_key.dfy).
   - Key events from the UART go into a 16-slot circular FIFO. Each is checked against the key state the queue will reach once drained.
   - `RemoteKey.RemoteKeyQueue` holds the ring array and the statics.
   - Its invariant combines two things:
     - the ring indices agree, with the tail equal to the head plus the depth modulo 16;
     - the relational invariant: the predicted key equals the injected key with every queued event applied in FIFO order.
   - Enqueue, drain, depth and the merge with the hardware keyboard are proved against it.
3. **The host tool's button command** (`KeyTable`, `Button`: key_table.dfy, button.dfy).
   - It covers the key-name table and the name and action parsing.
   - It covers the byte layout of the SessionInit and ButtonEvent messages.
   - It covers the order of the exchange: session init, its reply, the button event, its ack.
   - It covers the classification of the ack.
   - Lemmas tie the host's codes to the firmware's. Under the firmware's key numbering (PTT is 16 and KEY_INVALID is above 18), every key the tool can name passes the queue's IsAllowedKey check; whether an event is then accepted also depends on the key state the queue predicts. The status names agree with the firmware's enum.
4. **The newlib stubs of the firmware** (`Syscalls`, syscalls.dfy).
   - `_sbrk` is a bump allocator over a static break address. Lemmas cover single calls and runs of calls; granted regions are adjacent and ordered.
   - The constant-return stubs are modelled as functions, and `_fstat` and `_kill` as methods.

`Bytes` (bytes.dfy) holds the shared octet type, `Option` and little-endian fields.

Environment inputs are parameters:
- the clock reading of `send_button` is `clockMs`;
- the messages that arrive on the port before a timeout form the sequence `Port.incoming`;
- the linker symbols `end` and `_estack` are the integers `endAddr` and `stackLimit` of `Syscalls.Runtime`;
- the two `KEY_Code_t` values the queue depends on (`KEY_INVALID`, `KEY_PTT`) form a `RemoteKey.KeyCodes` value.

Every queue proof holds for any codes with `ptt < invalid`.

## Model

| member | source | states |
|---|---|---|
| K5Viewer.FindHeader | tools/qtviewer/k5qtviewer.py:135 | -1 exactly when `AA 55` occurs nowhere in the buffer; otherwise the index of the first header |
| K5Viewer.Patch | tools/qtviewer/k5qtviewer.py:173 | block `b` is bytes `[8b, 8b+8)`; they take the 8 data bytes and every other byte is unchanged; the bitmap stays 1024 bytes |
| K5Viewer.Diff | tools/qtviewer/k5qtviewer.py:166-174 | the chunk loop of `_apply_diff` keeps the bitmap 1024 bytes long; what it writes is stated by the Diff lemmas below |
| K5Viewer.DiffUntouched | tools/qtviewer/k5qtviewer.py:166-174 | a bitmap byte outside every block that an applied chunk names keeps its old value |
| K5Viewer.DiffOverwrites | tools/qtviewer/k5qtviewer.py:166-174 | a byte inside a block that an applied chunk names does not depend on the old bitmap |
| K5Viewer.DiffSplit | tools/qtviewer/k5qtviewer.py:166-174 | applying whole, in-range chunks and then the rest equals applying the whole payload |
| K5Viewer.DiffStopsAtBadBlock | tools/qtviewer/k5qtviewer.py:169-172 | the first chunk naming a block >= 128 ends the diff; it and every later byte are ignored |
| K5Viewer.DiffFirstChunk | tools/qtviewer/k5qtviewer.py:168-174 | a leading in-range chunk patches its block, and the loop goes on with the rest of the payload |
| K5Viewer.DiffTwoChunks | tools/qtviewer/k5qtviewer.py:168-174 | two in-range chunks are two patches, applied in payload order |
| K5Viewer.DiffTwoBlocks | tools/qtviewer/k5qtviewer.py:166-174 | a diff for blocks 3 and 127 rewrites bytes [24, 32) and [1016, 1024) and keeps every other byte |
| K5Viewer.Deliver | tools/qtviewer/k5qtviewer.py:155-164 | the dispatch of one complete frame keeps the bitmap 1024 bytes long |
| K5Viewer.DeliverByType | tools/qtviewer/k5qtviewer.py:155-164 | type 1 with 1024 bytes: the bitmap becomes the payload. Type 2 with a multiple of 9 bytes: the bitmap becomes Diff of the old bitmap and the payload, bytes no applied chunk covers keep their value, and the notice carries size/9 chunks. Anything else: the bitmap is unchanged and the frame is reported as ignored |
| K5Viewer.Consume | tools/qtviewer/k5qtviewer.py:130-164 | draining the buffer keeps the bitmap 1024 bytes long |
| K5Viewer.Framed | tools/qtviewer/k5qtviewer.py:146-164 | the part of the loop after the buffer is aligned to a header keeps the bitmap 1024 bytes long |
| K5Viewer.Size | tools/qtviewer/k5qtviewer.py:147 | the size is below 2^16, with byte 3 as its high byte and byte 4 as its low byte (big-endian) |
| K5Viewer.Encode | tools/qtviewer/k5qtviewer.py:146-148 | a frame on the wire is 5 bytes longer than its payload, and bytes 3-4 read back as the payload size |
| K5Viewer.WaitsForMoreData | tools/qtviewer/k5qtviewer.py:132-150 | with fewer than 5 bytes, or a header followed by less than a whole frame, the call changes nothing |
| K5Viewer.KeepsLastByteWithoutHeader | tools/qtviewer/k5qtviewer.py:135-140 | with 5 or more bytes and no header, only the final byte is kept, and nothing else happens |
| K5Viewer.SkipsJunk | tools/qtviewer/k5qtviewer.py:141-144 | bytes that precede the first header are discarded, and what follows is parsed as if they had never arrived; when fewer than 5 bytes are left after them, the call stops with just those bytes buffered |
| K5Viewer.DrainsFrame | tools/qtviewer/k5qtviewer.py:146-153 | an encoded frame at the front is dispatched, and draining continues on exactly the bytes after it |
| K5Viewer.ConsumeIsIdempotent | tools/qtviewer/k5qtviewer.py:130-164 | what a call leaves never holds another complete frame: a second call changes nothing |
| K5Viewer.Feed | tools/qtviewer/k5qtviewer.py:116-126 | receiving reads one after another keeps the bitmap 1024 bytes long |
| K5Viewer.PrefixWaits | tools/qtviewer/k5qtviewer.py:132-150 | a proper prefix of a frame is held in the buffer without effect |
| K5Viewer.SplitFrameDecodedOnce | tools/qtviewer/k5qtviewer.py:116-164 | however one frame is split across reads, it is dispatched exactly once and the buffer ends empty |
| K5Viewer.ScreenshotInAnyPieces | tools/qtviewer/k5qtviewer.py:116-157 | a whole screenshot fed from an empty buffer in any pieces leaves the payload as the bitmap and one full-frame notice |
| K5Viewer.Receiver.constructor | tools/qtviewer/k5qtviewer.py:92-93 | the buffer starts empty, and the bitmap starts as 1024 zero bytes |
| K5Viewer.Receiver.Ingest | tools/qtviewer/k5qtviewer.py:120-126 | appending a read and draining leaves the decoder in the state Feed gives for that read |
| K5Viewer.Receiver.ConsumeBuffer | tools/qtviewer/k5qtviewer.py:130-164 | buffer, bitmap and emitted notices become exactly what Consume gives for the old buffer and bitmap |
| K5Viewer.Receiver.Round | tools/qtviewer/k5qtviewer.py:131-164 | one loop iteration: either it removes a frame, so the buffer shrinks by at least 5 bytes and the rest of the drain is unchanged, or it ends the call in Consume's final state |
| K5Viewer.Receiver.Resync | tools/qtviewer/k5qtviewer.py:132-144 | the buffer never grows. When it is ready, the buffer starts at a header with 5 or more bytes and Consume equals Framed on it; otherwise Consume ends right there |
| K5Viewer.Receiver.TakeFrame | tools/qtviewer/k5qtviewer.py:146-153 | a whole buffered frame, at least 5 bytes, is removed and dispatched as Framed says; an incomplete one leaves buffer and bitmap unchanged |
| K5Viewer.Receiver.Dispatch | tools/qtviewer/k5qtviewer.py:155-164 | the bitmap and the new notice are Deliver's result for the frame |
| K5Viewer.Receiver.ApplyDiff | tools/qtviewer/k5qtviewer.py:166-174 | the in-place loop leaves the bitmap equal to Diff of the old bitmap |
| RemoteKeyApi.AckStatus.Code | App/app/remote_key.h:8-13 | the four status codes are below 4 and decode back to their status, so they are distinct |
| RemoteKeyApi.Decode | App/app/remote_key.h:8-13 | a byte names a status exactly when it is below 4 |
| RemoteKey.IsAllowedKey | App/app/remote_key.c:25-35 | an allowed key is neither PTT nor the KEY_INVALID sentinel |
| RemoteKey.AllowedKeysCount | App/app/remote_key.c:25-35 | a key passes IsAllowedKey exactly when it is in the allowed set; every key at or above KEY_INVALID is rejected, PTT is rejected, and exactly KEY_INVALID - 1 keys, every real key but PTT, are allowed |
| RemoteKey.Effect | App/app/remote_key.c:65-68 | the key state after an event on an allowed key is a valid key state; a key is held afterwards only after a press of that key |
| RemoteKey.Admissible | App/app/remote_key.c:39-54 | an event that passes the checks names an allowed key and leaves a valid key state; it is a press exactly when no key is predicted to be held |
| RemoteKey.PressThenRelease | App/app/remote_key.c:45-54 | from no key held, a press then a release of the same allowed key are both accepted and return to no key; while it is held, no second press and no release of another key is accepted |
| RemoteKey.ApplyIsLastEffect | App/app/remote_key.c:65-68 | the key state after a run of events is set by the last event alone: its key on a press, none on a release |
| RemoteKey.ApplyAppend | App/app/remote_key.c:65-68 | one more event at the end leaves that event's effect as the state |
| RemoteKey.AlternatingAppend | App/app/remote_key.c:45-54 | an event accepted against the predicted state extends an alternating run |
| RemoteKey.AlternationShape | App/app/remote_key.c:37-71 | in every run the queue accepts, presses and releases alternate and a release names the key of the press before it; no event is PTT or an invalid key, and the state reached is valid |
| RemoteKey.NextIsIncrementMod | App/app/remote_key.c:62 | the next ring slot is the increment modulo 16 that the firmware writes |
| RemoteKey.SlotIsSumMod | App/app/remote_key.c:84 | n slots on from h is (h + n) mod 16 |
| RemoteKey.RingPush | App/app/remote_key.c:59-63 | storing at the slot just past the queued events, then growing the ring by one, appends the event to the ring's contents |
| RemoteKey.DrainOne | App/app/remote_key.c:77-82 | applying the oldest event leaves a run that is still alternating and reaches the same predicted state |
| RemoteKey.PushKeepsInvariant | App/app/remote_key.c:59-68 | an accepted event appended to a ring with room keeps the ring and prediction invariant, with the prediction moved to the event's effect |
| RemoteKey.DropKeepsInvariant | App/app/remote_key.c:77-85 | draining the oldest event keeps the invariant, with that event's effect as the injected key |
| RemoteKey.RemoteKeyQueue.constructor | App/app/remote_key.c:14-23 | the zeroed statics form an empty ring with no key injected or predicted |
| RemoteKey.RemoteKeyQueue.Enqueue | App/app/remote_key.c:37-71 | INVALID exactly when the event is not admissible, checked before capacity. BUSY exactly when it is admissible and 16 events are queued. ACCEPTED otherwise: the event is stored at the old tail and appended to the contents, the tail advances mod 16, the depth grows by one, and the prediction follows the event. On a rejection nothing changes |
| RemoteKey.RemoteKeyQueue.Push | App/app/remote_key.c:59-70 | the event goes into the tail slot and becomes the last of the contents; the tail advances mod 16, the depth grows by one, and the prediction becomes the event's effect |
| RemoteKey.RemoteKeyQueue.ProcessQueue | App/app/remote_key.c:73-87 | the queue is emptied, the head moves to (old head + old depth) mod 16, and the injected key becomes the old prediction, which is the effect of the last drained event, or stays as it was if nothing was queued |
| RemoteKey.RemoteKeyQueue.Step | App/app/remote_key.c:77-85 | the oldest event leaves the contents and becomes the injected key state; the head moves one slot |
| RemoteKey.RemoteKeyQueue.GetQueueDepth | App/app/remote_key.c:89-92 | the depth is the number of queued events and at most 16 |
| RemoteKey.RemoteKeyQueue.MergeWithHardware | App/app/remote_key.c:94-101 | a pressed hardware key wins; otherwise the injected key, which is never PTT, is used |
| KeyTable.KeyMapSize | tools/serialtool/_button.py:17-36 | the key table has 18 names |
| KeyTable.KeyMapCodes | tools/serialtool/_button.py:17-36 | the key table uses exactly the codes 0-15, 17 and 18; 16 is absent |
| KeyTable.KeyMapEntriesBounded | tools/serialtool/_button.py:17-36 | every code of the table is at most 18 and is not 16 |
| KeyTable.KeyMapInjective | tools/serialtool/_button.py:17-36 | no two key names share a code |
| KeyTable.KeyNamesUpperCase | tools/serialtool/_button.py:17-36 | every key name is written without lower-case letters |
| Button.HostKeysAllowed | tools/serialtool/_button.py:17-36 | when PTT is 16 and KEY_INVALID is above 18, every key the tool can name passes the firmware's IsAllowedKey |
| Button.LookupKey | tools/serialtool/_button.py:91-93 | a name is found exactly when its upper-cased form is in the table; the code found is the table's code for that upper-cased name, at most 18 and not 16 |
| Button.UpperOfUpperCase | tools/serialtool/_button.py:91 | upper-casing leaves a name without lower-case letters alone, and undoes lower-casing it |
| Button.LookupFindsEveryKey | tools/serialtool/_button.py:91-92 | every name of the table is found both as written and lower-cased, giving its code |
| Button.ParseAction | tools/serialtool/_button.py:95-101 | lower-cased "press" gives the firmware's press code and "release" its release code; anything else is no action |
| Button.Msg.Make | tools/serialtool/_button.py:65 | a message of a given type with room for the 4 header bytes and the payload |
| Button.Msg.SetWordLE | tools/serialtool/_button.py:66 | the 4 bytes at the offset become the value modulo 2^32, little-endian; all other bytes are unchanged |
| Button.Msg.SetHwLE | tools/serialtool/_button.py:73 | the 2 bytes at the offset become the value modulo 2^16, little-endian; all other bytes are unchanged |
| Button.Msg.GetHwLE | tools/serialtool/_button.py:116 | the value read is below 2^16, and it is the value whose little-endian bytes lie at the offset |
| Bytes.HalfWordAt | tools/serialtool/_button.py:116 | the 16-bit field read at an offset is below 2^16, its little-endian encoding is the two bytes there, and it is what `FromLittleEndian` decodes from them; `Msg.GetHwLE` is defined through it, and `ClassifyAck` reads the ack sequence (bytes 4-5) with it |
| Bytes.LittleEndian16 | tools/serialtool/_button.py:73 | a 16-bit little-endian field reads back as the value modulo 2^16 |
| Bytes.LittleEndian32 | tools/serialtool/_button.py:72 | a 32-bit little-endian field reads back as the value modulo 2^32 |
| Button.MakeSessionInit | tools/serialtool/_button.py:64-67 | type 0x0514, payload length 4, the timestamp little-endian at offset 4 |
| Button.MakeButtonMsg | tools/serialtool/_button.py:70-77 | type 0x0610 and payload length 10. Offset 4: the timestamp as LE32. Offset 8: the sequence number as LE16. Offsets 10 and 11: the low bytes of key and action. Offset 12: the hold time as LE16 |
| Button.ButtonFieldsReadBack | tools/serialtool/_button.py:70-77 | the ButtonEvent fields read back as the timestamp mod 2^32, the sequence number mod 2^16, the key and action low bytes, and the hold time mod 2^16 |
| Button.FirstOfType | tools/serialtool/_button.py:80-87 | the position of the first message of the wanted type, or none if no message has that type |
| Button.WaitForMsg | tools/serialtool/_button.py:80-87 | the result is none or a message of the requested type. It is the first such message, and everything up to it is consumed; with none found, every message is consumed |
| Button.Port.Send | tools/serialtool/_button.py:58-61 | the message is appended to what has been written, and nothing is read |
| Button.NameOf | tools/serialtool/_button.py:126-131 | statuses 1, 2 and 3 are busy, invalid and stale, exactly the firmware's BUSY, INVALID and STALE codes; every other code is unknown and carries the code itself |
| Button.ClassifyAck | tools/serialtool/_button.py:116-131 | an ack shorter than 8 bytes raises. A little-endian seq at offset 4 other than seq mod 2^16 fails as a mismatch, whatever the status. Success happens exactly when the seq matches and status 0 is at offset 6, and it reports the depth at offset 7. A matching seq with a non-zero status is a rejection carrying that status's name and the depth at offset 7 |
| Button.ButtonRound | tools/serialtool/_button.py:111-131 | one ButtonEvent is written with the given fields. Without an ack the call fails and every message is consumed; otherwise the first ack decides the result |
| Button.Exchange | tools/serialtool/_button.py:104-131 | SessionInit goes out first. Without a SessionInfo reply the call fails and no button event is sent. Otherwise one ButtonEvent with the same timestamp follows, and the first ack after the reply decides the result |
| Button.SendButton | tools/serialtool/_button.py:90-131 | an unknown key or action fails before anything is written; otherwise the exchange runs with the clock modulo 2^32 as timestamp, and success means exactly two messages were written |
| Syscalls.FirstCallStartsAtEnd | Core/Src/syscalls.c:14-17 | on the first call the break starts at `end`, and a granted request returns `end` |
| Syscalls.SbrkStep | Core/Src/syscalls.c:8-29 | a call fails with -1 and ENOMEM exactly when the starting break plus incr passes the stack limit, keeping the break at the start; otherwise it returns the start and moves the break by incr; the break never passes a limit the start is within |
| Syscalls.SbrkGrantsUpToTheLimit | Core/Src/syscalls.c:19-28 | a request passing the stack limit fails with -1 and ENOMEM and leaves the break; any other request returns the previous break and advances it by incr |
| Syscalls.SbrkStaysBelowLimit | Core/Src/syscalls.c:21-27 | the break never passes the stack limit if it and `end` start at or below it |
| Syscalls.SbrkZeroIsQuery | Core/Src/syscalls.c:19-28 | a zero increment returns the current break and leaves it unchanged |
| Syscalls.Outcomes | Core/Src/syscalls.c:8-29 | successive calls give one outcome per call, the first being a single step from the initial break |
| Syscalls.GrantedRegionsAreAdjacent | Core/Src/syscalls.c:8-29 | in a run of granted positive requests, call i returns the start plus the earlier increments, and the regions follow one another without overlap |
| Syscalls.Runtime.constructor | Core/Src/syscalls.c:10 | at reset the static break is null and errno is 0 |
| Syscalls.Runtime.Sbrk | Core/Src/syscalls.c:8-29 | the break, the returned value and errno change as one step of the allocator says, and the break stays at or below the stack limit |
| Syscalls.Runtime.Kill | Core/Src/syscalls.c:74-80 | returns -1, sets errno to EINVAL, and leaves the break alone |
| Syscalls.Fstat | Core/Src/syscalls.c:37-42 | the file is reported as a character device, with result 0 |
| Syscalls.Close | Core/Src/syscalls.c:31-35 | always -1 |
| Syscalls.Isatty | Core/Src/syscalls.c:44-48 | always 1 |
| Syscalls.Lseek | Core/Src/syscalls.c:50-56 | always 0 |
| Syscalls.Read | Core/Src/syscalls.c:58-64 | always 0 |
| Syscalls.Getpid | Core/Src/syscalls.c:82-85 | always 1 |
| Syscalls.StubsIgnoreArguments | Core/Src/syscalls.c:31-64 | the constant stubs return the same for any arguments |

## Left out

- The Qt user interface of the viewer is not modelled. This covers the screen widget's painting, scaling and themes, the main window and its hex logs, argument parsing, port listing and the timers. It is rendering and UI plumbing with no data logic.
- The viewer's serial transport is not modelled: opening and closing the port, `in_waiting`, the keepalive writer and the error handling around reads. It is I/O. `K5Viewer.Receiver.Ingest` models only what a non-empty read does to the decoder.
- The viewer's Qt signals become a list of notices. Each notice holds the bitmap copy or the frame type and size. The status strings' wording is not modelled.
- The host tool's `msg` module is not part of this model. It holds the message header, `make_packet` framing and `fetch`. A message is its type and its byte buffer; header bytes 0..3 and the wire packet of `send_msg` are not specified.
- `MsgReceiver` and the timeout loop of `wait_for_msg` (wall clock, sleeps) are abstracted. The messages that arrive before the timeout become the sequence `Port.incoming`. A timeout is the sequence running out.
- `now_ts` reads the wall clock, which becomes the parameter `clockMs`. Its reduction modulo 2^32 is modelled.
- Button.LookupKey: upper-cases ASCII letters only. Python's `str.upper` also maps some other characters, such as dotless `ı` to `I` and long `ſ` to `S`. So a name such as "exıt" is accepted by the tool but rejected by the model.
- Button.ParseAction: lower-cases ASCII letters only, for the same reason.
- Button.ClassifyAck: covers the Python IndexError an ack shorter than 8 bytes raises, as the outcome `Raised`. Exception propagation itself is not modelled.
- Button.SendButton: every message object is taken to be truthy. This covers the tests `if not session_reply`, `if not ack` and `if msg and ...` in wait_for_msg. That depends on the unseen `msg.Msg` class.
- Button.SendButton: the `port.incoming` that remains after a call over-approximates what a later call can fetch. send_button makes a new `MsgReceiver` on every call (tools/serialtool/_button.py:103), so bytes that `_rx` read into that receiver's buffer (lines 52-55) but that were never fetched are dropped when the call returns. The model keeps every message behind the ack in `incoming`. The same holds for the post-call `port.incoming` clauses of `Button.Exchange` and `Button.ButtonRound`.
- Button.Exchange: its post-call `port.incoming` clause carries the same over-approximation as `Button.SendButton`.
- Button.ButtonRound: its post-call `port.incoming` clause carries the same over-approximation as `Button.SendButton`.
- Button.WaitForMsg: takes the messages `fetch` yields as given. Corrupt or partial packets are the `msg` module's concern.
- `KEY_Code_t` comes from a keyboard header that is not part of this model. Keys are natural numbers, and the queue is parametric in the values of `KEY_INVALID` and `KEY_PTT`, with `KEY_PTT < KEY_INVALID`. The firmware's uint8_t depth and indices cannot wrap, because the depth never exceeds 16.
- `STALE` (code 3) is declared in remote_key.h, but no modelled code returns it. Enqueue's contract shows it answers only ACCEPTED, BUSY or INVALID.
- `_exit` is not modelled. It is an intentional infinite loop that never returns.
- Syscalls.Runtime.Sbrk: addresses are unbounded integers. The 32-bit address arithmetic of `heap_end + incr` is not modelled for sums that wrap around the address space. A null break is the address 0.
- Interrupts and concurrency are not modelled. Examples are the UART handler calling Enqueue while the main loop calls ProcessQueue. Each operation is modelled as running to completion.
- The I²C and SysTick drivers are not modelled. They are hardware timing and GPIO toggling.
