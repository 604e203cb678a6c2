# Verification of the presence and air-quality node

A Dafny model of the data path of the nRF5340 node: radar bytes are reassembled into frames, frames and
sensor words are folded into 30-second windows, windows become records in a flash ring that must survive
power cuts, and records leave in CRC-checked frames cut to notification size. `dafny verify dfyconfig.toml`
checks the whole project.

| file | models |
|---|---|
| `Bytes.dfy` | bytes, fixed-width integers, little-endian layout |
| `Gf2.dfy` | bit strings as polynomials over GF(2), the CRC shift register for any width |
| `Crc.dfy` | `sntl_crc16` and the register shared with the SEN5x CRC-8 |
| `Frame.dfy` | the SNTL v3 frame, its reader, the dump command and range |
| `Burst.dfy` | which bursts the trailing CRC of a frame detects |
| `Store.dfy` | the flash ring as a class over an NVS map; boot and format change |
| `StoreRuns.dfy` | every run of the ring: single writes, write errors, cuts, reboots, a concurrent reader |
| `Dump.dfy` | `dump_run` as a chunked emitter |
| `Sync.dfy` | what a dump, and a client over many dumps, receives |
| `Reassembler.dfy` | `tlv_push`/`tlv_reset` against a whole-stream parser |
| `Tlv.dfy` | the TLV walk, target lists and presence zones |
| `Radar.dfy` | occupancy windows and the dwell clock against the event trace |
| `Cli.dfy` | the sliding buffer of `cli_wait` |
| `Sen5x.dfy` | CRC-checked words and the air window |
| `WindowFlush.dfy` | the flags of a record |

How the source's environment appears: NVS is a map whose single writes are atomic and whose reads return the
last completed write; a power cut may fall between any two writes. A failing write changes nothing. The mutex of
`store.c` is a condition on the reader's step. `bt_gatt_notify` is a sink that accepts some number of
notifications and then fails. Uptime, I2C transfers and UART bytes are inputs. Structs are datatypes, file-level
statics are classes, and C arithmetic is bounded integers with every truncation that matters written out;
`^` is the function `Gf2.XorWord`, proved to be xor bit by bit.

Where code and comments disagree, the code is modelled:

- `src/tlv.c:46-48` says the one-step fallback is there because the magic has repeats. It is correct because the
  magic has none: `Reassembler.FallbackExact` gives the exact condition on a pattern.
- `prj.conf:38` says MTUs below 247 work, just slower. `Dump.DumpRun` proves every notification fits the MTU exactly
  when a record does (an MTU of 27), or there is no record to send and the header does (19);
  `Dump.SmallMtuOverrun` states the failure from the default MTU of 23 on.
- `src/store.c:30` promises that seq survives a format change. `Store.MigrationCut` says for which power cuts
  inside one it does. Runs start after a change cut anywhere; `Store.FloorAboveNext` and `StoreRuns.FloorHides` say
  exactly what a cut between the last two writes hides, and for how long.
- The comment on `src/store.h:6` promises that a seq is never reused. `StoreRuns.NoReuse` proves it of every seq
  returned while no meta write has failed. With failed meta writes, `StoreRuns.ReturnedKept` says exactly which
  returned seqs keep their record, `StoreRuns.Reuse` builds the run that breaks the others, and
  `StoreRuns.MetaErrorReuses` gets there from an idle state by a single failed meta write.
- `src/frame.h:86` names the CRC that guards a frame. It is computed most significant bit first and sent low byte
  first, so a burst that runs into it is guarded less well than one in the body: `Burst.BurstRejected` holds for 12
  bits anywhere, `Burst.BodyBurstRejected` for 16 in the body, and `Burst.BurstAccepted` gives a burst of 13 bits
  that every frame lets through.
- The comment at `src/radar.c:335` says a token across a slide is not lost. `strstr` stops at a NUL, so on input with NUL bytes that
  depends on where they are: `Cli.AgreesExactly` says exactly when the loop answers like a search of the whole
  input, `Cli.NulFree` that it does without NUL bytes, `Cli.NulHidesPrompt` gives inputs on which it does not.

## Model

| member | source | states |
|---|---|---|
| `Bytes.Rd32Le32` | src/tlv.c:8-12 | reading a little-endian word back gives the word laid down, at any offset |
| `Gf2.BitsOfXor` | src/frame.c:10-13 | the word operator used for `^` is xor on every bit and stays in the word |
| `Gf2.ResidueTop` | src/frame.c:10-14 | xoring up to a registerful of bits in at the top and shifting equals consuming them one by one |
| `Gf2.ResidueLinear` | src/frame.c:5-17 | the register of a sum of messages and seeds is the sum of the registers |
| `Gf2.ResidueBijective` | src/frame.c:5-17 | for every message the register is a bijection of its start value, with an explicit inverse |
| `Gf2.BurstDetected` | src/frame.c:5-17 | messages differing only within as many consecutive bits as the register is wide end in different registers |
| `Gf2.ResidueIsRemainder` | src/frame.c:5-17 | the register is the remainder of polynomial division, and the only one |
| `Crc.Compute` | src/frame.c:5-17 | the nested loop on words returns the CRC of the addressed bytes |
| `Crc.CrcIsResidue` | src/frame.c:10-14 | the byte loop computes the residue of the message's bits, most significant first |
| `Crc.Chain` | src/frame.h:86-91 | a message may be fed in pieces |
| `Crc.Linear` | src/frame.c:5-17 | the CRC is linear under xor of seed and data |
| `Crc.SeedBijective` | src/frame.c:5-17 | for each message and CRC exactly one seed leads there |
| `Crc.CrcIsRemainder` | src/frame.h:86-91 | a word is the CRC iff it is the remainder of seed and message modulo x^16+x^12+x^5+1 (or the CRC-8 generator) |
| `Crc.BurstChangesCrc` | src/frame.c:5-17 | equal-length messages differing only within 16 (8) consecutive bits never share a CRC |
| `Frame.EncodeRecord` | src/frame.c:34-60 | writes exactly the 24 documented bytes at the offset and nothing else |
| `Frame.DecodeEncode` | src/frame.h:70-84 | a reader using the documented offsets recovers every field of every record |
| `Frame.EncodeDecode` | src/frame.c:34-60 | every 24 bytes are the encoding of exactly one record |
| `Frame.EncodeHeader` | src/frame.c:19-32 | writes the 16 header bytes, id zero padded, and nothing else |
| `Frame.PutId` | src/frame.c:27-31 | the id field is the string up to its NUL, at most 8 characters, zero padded |
| `Frame.HeaderParts` | src/frame.c:19-32 | a header carries the magic, version 3 and record size 24, and count and id are recovered from it |
| `Frame.ParseWhole` | src/frame.h:17-20 | the reader recovers the device id and all records, in order, from a whole frame |
| `Burst.WireBits` | src/ble.c:184-185 | the trailer puts the low half of the register first |
| `Burst.TrailerIsRemainder` | src/frame.h:86-91 | a frame's trailer is the remainder of the message behind sixteen ones modulo x^16+x^12+x^5+1, and nothing else is |
| `Burst.BodyBurstRejected` | src/frame.h:86-91 | a header or record hit by a burst of at most 16 bits is never accepted by the reader |
| `Burst.ResidueTaps` | src/frame.c:5-17 | what the register makes of an error is the low part of a multiple of x^16+x^12+x^5+1, coefficient by coefficient |
| `Burst.SplitBurst` | src/ble.c:177-185 | a burst of at most 12 bits across body and trailer cannot keep the trailer right |
| `Burst.TrailedDistance` | src/ble.c:177-185 | two messages with right trailers that agree outside 12 consecutive bits are the same |
| `Burst.BurstRejected` | src/frame.h:86-91 | a frame hit by a burst of at most 12 bits anywhere, trailer included, is never accepted |
| `Burst.BurstAccepted` | src/ble.c:184-185 | twelve is exact: in every frame a 13-bit burst across the trailer is accepted |
| `Frame.CmdRoundTrip` | src/frame.c:67-75 | exactly the 5-byte dump commands parse, each to the seq it encodes |
| `Frame.DumpRangeSelects` | src/frame.c:77-93 | which seqs a dump covers, for all inputs |
| `Frame.DumpRangeComplete` | src/frame.h:106-114 | all held seqs from the requested one on are covered iff at most 65535 of them are |
| `Store.Store.Init` | src/store.c:50-110 | flash and RAM after boot; the exact entries left by a format change stopped at any operation |
| `Store.Store.OldestSeq` | src/store.c:117-123 | the least seq neither below the floor nor more than 2880 behind the counter |
| `Store.Store.Append` | src/store.c:125-146 | the record as given, under the next seq, stamped with the boot offset plus whole seconds of uptime; the flash entries and RAM after two writes that each succeed or fail |
| `Store.StampSets` | src/store.c:45-48 | the clock of an append is the boot offset plus the whole seconds of uptime, and stamping changes nothing else |
| `Store.Store.GetRecord` | src/store.c:148-165 | a record is returned iff it is the entry of the slot, carries the asked seq, and that seq is claimed |
| `Store.AppendSlides` | src/store.c:125-165 | in any state an append makes its seq readable unless below the floor, drops the seq a ring older, and changes no other answer |
| `Store.MigrationKeepsSeq` | src/store.c:79-103 | a completed format change keeps seq and clock, hides every old record, and is idempotent |
| `Store.MigrationCut` | src/store.c:83-102 | a cut inside it keeps the seq iff before the erase, after the last write, or with seq 0 |
| `Store.BootAfterCut` | src/store.c:75-106 | counter, clock, floor and slots at the boot after a format change cut anywhere |
| `Store.FloorAboveNext` | src/store.c:97-102 | after a cut before the meta write, an append can be read back iff its seq is not below the lost counter |
| `StoreRuns.FloorHides` | src/store.c:97-102 | in no run is a seq below the floor of a cut format change ever readable or returned |
| `StoreRuns.AppendIsSteps` | src/store.c:129-145 | the interruptible steps of an append compose to the method |
| `StoreRuns.ReadIsSteps` | src/store.c:152-164 | the interruptible steps of a read compose to the method |
| `StoreRuns.InvStart` | src/store.c:79-108 | the boot after a format change, completed or cut anywhere, establishes the invariant |
| `StoreRuns.InvStep` | src/store.c:125-165 | every step of either thread, every write error, cut and reboot keeps the invariant |
| `StoreRuns.InvRun` | src/store.c:125-165 | the invariant holds in every state of every run, wherever the format change was cut |
| `StoreRuns.StepPowerCycle` | src/store.c:67-108 | a cut in any state truncates the log to the persisted counter and keeps the invariant |
| `StoreRuns.FetchVerdict` | src/store.c:156-164 | under the mutex a slot yields the logged record, or a miss at the ring's edge only |
| `StoreRuns.GetRefinesLog` | src/store.c:148-165 | store_get refines an append-only log, and succeeds for exactly the claimed seqs but one hidden by an uncommitted record |
| `StoreRuns.TimeOrder` | src/store.c:45-48 | timestamps of readable records never decrease in seq, across reboots |
| `StoreRuns.RunKeeps` | src/store.c:125-146 | in every run, errors included, the persisted next_seq never decreases and no committed record is lost or replaced |
| `StoreRuns.NoReuse` | src/store.h:4-6 | a returned seq that is committed, as all are while no meta write failed, keeps its record through every run, errors included |
| `StoreRuns.ReturnedKept` | src/store.c:140-145 | a returned seq that still has its record keeps it in every run iff it is below the persisted counter |
| `StoreRuns.Reuse` | src/store.c:140-145 | if it is not, a cut and further appends give it to a different record, which is returned |
| `StoreRuns.AppendThenRead` | src/store.c:125-165 | from every idle state not below the floor an append, its meta write good or not, is read back as given, with its seq and clock |
| `StoreRuns.MetaErrorReuses` | src/store.c:140-145 | from every such state one failed meta write and a cut give a returned seq to another record |
| `StoreRuns.DumpSelectsHeld` | src/ble.c:136 | in every reachable state a dump selects exactly the held seqs from the requested one on, unclamped |
| `StoreRuns.WindowForward` | src/store.c:112-123 | between two visits the window only moves forward |
| `Dump.DumpRun` | src/ble.c:128-191 | whatever the store answers, the notifications concatenate to the whole frame, or to a prefix if the link fails; they fit the MTU iff it is 27 or more, or 19 with no record; none but the last has room for another record |
| `Dump.FrameCarries` | src/ble.c:149-164 | at 16 + 24 i the frame carries the record answered, or the seq with both fault bits and every air value unknown, byte for byte |
| `Dump.EmitRecord` | src/ble.c:149-175 | the loop body keeps sent plus buffered bytes equal to header and first k records, and the CRC theirs |
| `Dump.EmitRecords` | src/ble.c:149-175 | the loop emits header and all records, or a prefix |
| `Dump.MakeRoom` | src/ble.c:166-171 | flushes exactly when the next unit does not fit, losing no byte |
| `Dump.AddRecord` | src/ble.c:172-174 | one record enters the buffer and the running CRC |
| `Dump.Finish` | src/ble.c:177-189 | the CRC trails the frame, alone if it does not fit |
| `Dump.SizesFinish` | src/ble.c:138-142 | the notification sizes of a completed dump against the MTU, in both directions |
| `Dump.SmallMtuOverrun` | prj.conf:38 | at every MTU from 23 to 26 a dump with a record overruns it |
| `Sync.AnswerSound` | src/store.c:152-164 | an answer settled in any reachable state is the logged record, or a miss at the ring's edge |
| `Sync.BootForward` | src/store.c:112-123 | within one boot counter and log only grow, by at most one append a step |
| `Sync.WindowRead` | src/ble.c:136 | the window a dump selects from exceeds the ring by at most what is appended while it is read |
| `Sync.DumpParses` | src/ble.c:122-127 | a completed dump is accepted by the reader, with the answered records |
| `Sync.DumpDelivers` | src/ble.c:128-190 | for a dump in any run of one boot, appends and errors interleaved, the reader accepts what was sent, with one record per selected seq: the logged one, or at the ring's edge one that flags both faults and knows no air value |
| `Sync.AskedSplits` | src/frame.h:106-114 | over any visits, below the client's next question everything was received or dropped, above nothing was |
| `Sync.NoneTwice` | src/frame.h:106-114 | over any visits no seq is received twice |
| `Sync.NoneMissed` | src/frame.h:106-114 | by the last visit only seqs that had left the ring are missed, or that visit had more than 65535 to send |
| `Reassembler.AdvanceLongest` | src/tlv.c:37-49 | one byte keeps the match counter the longest suffix that is a prefix of the pattern, or completes it |
| `Reassembler.FallbackExact` | src/tlv.c:46-48 | the one-step fallback is right on every stream iff the pattern has no inner border |
| `Reassembler.MagicHasNoInnerBorder` | src/tlv.c:5-6 | the magic meets that condition |
| `Reassembler.CounterIsLongestSuffix` | src/tlv.c:36-51 | while no magic has gone by, the counter is that longest suffix |
| `Reassembler.StepGood` | src/tlv.c:53-72 | partial frames start with the magic, fit and are shorter than they claim; delivered ones have the length they claim |
| `Reassembler.FeedCat` | src/radar.c:574-580 | the outcome does not depend on how the stream is chunked |
| `Reassembler.FeedIsParse` | src/tlv.c:33-73 | on every byte stream the machine delivers what a search-and-skip parser finds |
| `Reassembler.CollectFeeds` | src/tlv.c:53-72 | from any partial frame the machine takes, skips or waits as the parser does |
| `Reassembler.FramesDelivered` | src/tlv.h:43-51 | well-formed frames between magic-free gaps are delivered exactly and in order, whatever they contain |
| `Reassembler.BogusSkips` | src/tlv.c:60-63 | an impossible length costs exactly the 40 header bytes |
| `Reassembler.Reassembler.Push` | src/tlv.c:33-73 | the in-place buffer code is the state machine, and a delivered frame is in the buffer |
| `Reassembler.Reassembler.Reset` | src/tlv.c:26-31 | back to hunting |
| `Reassembler.Reassembler.FeedChunk` | src/radar.c:574-580 | the receive loop hands on exactly the frames of the stream, all well formed |
| `Tlv.Find` | src/tlv.c:87-107 | on a delivered frame the wrapping arithmetic never wraps and the first entry of the walk is found, inside the frame |
| `Tlv.FirstOfIsFirst` | src/tlv.c:99-102 | first means no earlier entry of the type |
| `Tlv.BuiltWellFormed` | src/tlv.h:9-10 | a frame built from TLVs is one the reassembler delivers |
| `Tlv.FindBuilt` | src/tlv.c:87-107 | on it the search returns the first matching payload, or nothing iff there is none |
| `Tlv.Targets` | src/tlv.c:113-139 | the targets written are those decoded from the payload, at most max |
| `Tlv.SizeUnambiguous` | src/tlv.c:121-127 | a 2D list is taken for a 3D one iff 28 divides its count, never within a frame |
| `Tlv.TargetsRoundTrip` | src/tlv.c:113-139 | decoding undoes encoding for every 3D list and every 2D list not so mistaken, up to max |
| `Tlv.Presence` | src/tlv.c:141-158 | the zone states written are those of the payload, none past its end |
| `Tlv.ZonesRoundTrip` | src/tlv.h:11-12 | unpacking undoes packing of up to 255 zone states |
| `Tlv.Judge` | src/radar.c:429-447 | on every delivered frame at most 20 people, and at most 1 without a target list |
| `Tlv.JudgeTargets` | src/radar.c:429-432 | a frame with a target list, 2D or 3D, counts its targets, up to 20 |
| `Tlv.JudgeOddList` | src/radar.c:429-432 | a target list of neither size counts nobody, and the tracker still spoke |
| `Tlv.JudgeZones` | src/radar.c:433-447 | without one, the floor is one iff some of the first eight zones is occupied |
| `Tlv.JudgeNothing` | src/radar.c:429-447 | with neither, nobody |
| `Radar.Accumulator.Count` | src/radar.c:429-447 | the buffer code reads exactly that verdict off a delivered frame |
| `Radar.Accumulator.AnyZone` | src/radar.c:438-445 | one iff some decoded zone is occupied |
| `Radar.Accumulator.OnFrame` | src/radar.c:449-467 | the accumulators after a frame |
| `Radar.Accumulator.WindowTake` | src/radar.c:185-224 | the window reported and what survives it |
| `Radar.WindowOfTrace` | src/radar.c:449-458 | the accumulators summarise exactly the frames since the last take |
| `Radar.TakenWindow` | src/radar.c:191-198 | alive, tracker, occ_s and headcount of every window, from its frames |
| `Radar.ClockOfTrace` | src/radar.c:459-466 | the clock holds the start of the occupancy no empty frame or dead window has ended, and is 0 iff there is none |
| `Radar.TakenDwell` | src/radar.c:200-221 | dwell_s is the saturated seconds since then, across takes, and 0 after a dead window |
| `Cli.Wait` | src/radar.c:301-343 | for every input, where it stops and what it reports, in terms of the 79-byte windows it searches; without NUL bytes, a search of the whole input |
| `Cli.Take` | src/radar.c:325-341 | each byte keeps the buffer the current window of the input, searched for both tokens |
| `Cli.StartNext` | src/radar.c:334-341 | the window slides on exactly when 95 bytes are in the buffer, keeping 16 |
| `Cli.SeenIffShown` | src/radar.c:328-341 | some search finds a token iff an occurrence has no NUL in front of it in the last window that holds it |
| `Cli.AgreesExactly` | src/radar.c:328-341 | for every input, when the loop answers as a search of the whole input does |
| `Cli.NulFree` | src/radar.c:334-341 | without NUL bytes it always does |
| `Cli.Slide` | src/radar.c:334-340 | sliding keeps the last 16 bytes |
| `Cli.NulHidesPrompt` | src/radar.c:331 | given a leading NUL, a prompt and more, the loop reads to the end instead of stopping behind the prompt |
| `Sen5x.ComputeCrc8` | src/sen5x.c:40-52 | the loop computes the CRC-8 of two bytes |
| `Sen5x.ReadWords` | src/sen5x.c:84-90 | accepts exactly the protected word lists, and returns the words protected, high byte first |
| `Sen5x.ProtectInjective` | src/sen5x.c:84-90 | accepted bytes stand for one word list only |
| `Sen5x.SelfCheck` | src/sen5x.c:85 | a check byte is right iff feeding it clears the register |
| `Sen5x.CheckByteIsRemainder` | src/sen5x.c:39-52 | a group is accepted iff its third byte is the remainder of the other two behind eight ones modulo x^8+x^5+x^4+1 |
| `Sen5x.GroupBurst` | src/sen5x.c:84-87 | any corruption within 8 consecutive bits of a group is rejected |
| `Sen5x.Sensor.Poll` | src/sen5x.c:148-192 | the window after a poll, from the bytes on the bus: which word goes where, and temperature halved toward zero |
| `Sen5x.Half` | src/sen5x.c:182 | half of the signed word, never further from zero |
| `Sen5x.Sensor.ReadBus` | src/sen5x.c:70-92 | the words a transfer brought, if it worked and every check byte is right |
| `Sen5x.Sensor.WindowTake` | src/sen5x.c:194-210 | the window handed over, dead iff it was or a status that was read has bit 4 or 5 set, and the fresh one |
| `Sen5x.WindowOfSamples` | src/sen5x.c:165-187 | PM is the peak of the known samples, the rest the last known word, signed, temperature halved, over every sequence of polls |
| `Sen5x.UnknownExactly` | src/sen5x.h:14-21 | when each signed field reads unknown |
| `Sen5x.FoldIdempotent` | src/sen5x.c:155-160 | re-reading the latest sample changes nothing |
| `WindowFlush.FlagsTell` | src/main.c:124-135 | over every trace and all samples, every bit of the flags: NO_TRACKER, SENSOR_FAULT, AQ_FAULT, RTC_UNSET and no other |
| `WindowFlush.FieldsTell` | src/main.c:114-138 | every other field of the record, from the frames since the last take and the samples of the window |
| `WindowFlush.FlushWindow` | src/main.c:104-144 | both windows taken, one record made of them and stored, and read back unless below the floor |

## Left out

- Wrap-around of seq and device seconds at 2^32: runs stop short of it. 2880 does not divide 2^32.
- NVS internals, garbage collection and wear, and flash errors other than a write that fails whole.
- Stores that keep running after `store_init` failed, which `src/main.c` allows.
- `Init`: what a failed mount or page lookup returns before any flash is read.
- The Bluetooth stack, GATT table, advertising window and connection callbacks; `notify_chunk` retries are one accepted or refused notification.
- UART interrupt, its ring buffer and overruns, GPIO, I2C transfers, resets, radar configuration lines, the stall restart, all printing.
- `tlv_header_get` and the TLV type listing in `on_frame`: diagnostics that affect no record.
- Floating-point meaning of coordinates: carried as 32-bit patterns.
- `Targets` and `Presence`: the read-only payload is a byte sequence, not a pointer into the frame buffer.
- `Find`: required of frames up to 2048 bytes whose length fits the buffer, which is what the reassembler delivers.
- `TakenWindow`: windows of 65536 frames or more, where the frame counter wraps.
