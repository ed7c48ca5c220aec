# koboin touch decoder, modelled in Dafny

This project models the touch-input decoder of go-kobo-input
(`koboin/koboin.go`). The decoder reads fixed 16-byte little-endian
`input_event` records from a Kobo touch-panel device node and groups them
into packets, each ending at `SYN_REPORT`. It recovers from `SYN_DROPPED`
buffer overruns and folds every packet into one call-local observation
(`x`, `y`, pressed, released). Its entry point, `GetInput`, returns the touch
rotated into screen coordinates. Two budgets bound that loop: one for failed
packet reads and one for packets that leave the touch cycle incomplete.

The modules follow the source:

- `Wire` (`wire.dfy`): the record, its event-type and event-code constants, and the byte codec.
- `TouchState` (`touch.dfy`): the observation, the per-event switch, the packet fold and the rotation.
- `Packets` (`packets.dfy`): what one read delivers, and `getEvPacket` as a specification function.
- `Retry` (`retry.dfy`): the `GetInput` loop as specification functions, with its budgets.
- `Koboin` (`device.dfy`): the `TouchDevice` class. Its methods `ReadEvent`, `GetEvPacket`,
  `DecodeEvents` and `GetInput` keep the source's loops and are proved equal to those functions.
- `Scenarios` (`scenarios.dfy`): whole touch cycles on concrete events.

The device node is a finite sequence of read outcomes (a 16-byte chunk or a
transport fault) with a cursor that each read advances. `Reads(stream)` is
what each read delivers: a decoded record, or `None` for a failed read.

The model follows the code as written:

- `BTN_TOUCH` with any value other than 1 counts as a release (not only 0).
- `ABS_MT_PRESSURE` and `ABS_MT_TOUCH_WIDTH_MAJOR` release on any value `<= 0`.
- The get-attempts limit is checked only after a packet is assembled.
- The decode counter is never reset within a call, so up to six packets are decoded.
- The get-failure path returns the current raw `x, y`; the decode-failure path returns `-1, -1`.
- The rotation keeps the literal `+1` and does no clamping.

## Model

| member | source | states |
|---|---|---|
| Wire.FromLittleEndian | koboin/koboin.go:71 | the unsigned little-endian value of `n` bytes is below 256^n |
| Wire.FromToLittleEndian | koboin/koboin.go:71 | decoding the `n`-byte little-endian encoding of `v` gives back `v` |
| Wire.ToFromLittleEndian | koboin/koboin.go:71 | encoding the decoded value of a byte string at its own length gives back the same bytes |
| Wire.IsSynReport | koboin/koboin.go:84-90 | defines the packet terminator: type `EV_SYN` and code `SYN_REPORT`, both tested (code 0 alone would also match `ABS_X`); `AbsXIsNotATerminator` relies on the type test |
| Wire.IsSynDropped | koboin/koboin.go:77 | defines the overrun marker: type `EV_SYN` and code `SYN_DROPPED`; `BadNeverAssembles` and `PacketBadIff` are stated with it |
| Wire.ReadRecord | koboin/koboin.go:70-74 | one read yields a record exactly when a whole 16-byte record arrives; anything else is a read error |
| Wire.DecodeEvent | koboin/koboin.go:32-38 | TimeSec is bytes 0-3, TimeUsec 4-7, EvType 8-9, EvCode 10-11 and EvValue 12-15, each least significant byte first; EvValue is two's complement |
| Wire.DecodeEncode | koboin/koboin.go:32-38 | decoding the bytes written for a record gives back that record |
| Wire.EncodeDecode | koboin/koboin.go:32-38 | every 16-byte string is the encoding of the record it decodes to |
| TouchState.Complete | koboin/koboin.go:159 | defines the completion test `x >= 0 && y >= 0 && touchPressed && touchReleased`; `Attempt`, `DriveStopsAtFirstComplete`, `CompletesAt` and `GivesUpAt` are stated with it |
| TouchState.Step | koboin/koboin.go:119-157 | one event sets `x` exactly when it is `ABS_X`/`ABS_MT_POSITION_X`, sets `y` exactly when it is `ABS_Y`/`ABS_MT_POSITION_Y`, and only ever sets the flags, on the press and release conventions of all three controller kinds |
| TouchState.DecodePacket | koboin/koboin.go:119-157 | folding a packet into the observation never clears a flag already set |
| TouchState.DecodeAll | koboin/koboin.go:105-157 | defines the observation carried across loop iterations: the packets decoded so far, folded in reading order; `DriveFolds` proves the loop computes it |
| TouchState.DecodeFlags | koboin/koboin.go:119-157 | after a packet, pressed (released) holds exactly when it held before or some event of the packet signals a press (release) |
| TouchState.DecodeLastX | koboin/koboin.go:132-137 | the last `ABS_X`/`ABS_MT_POSITION_X` event of a packet decides `x` |
| TouchState.DecodeLastY | koboin/koboin.go:134-139 | the last `ABS_Y`/`ABS_MT_POSITION_Y` event of a packet decides `y` |
| TouchState.DecodeKeepsCoordinates | koboin/koboin.go:130-139 | a packet with no coordinate event leaves `x` and `y` as they were |
| TouchState.DecodeIgnores | koboin/koboin.go:120-156 | events outside the mapping table (sync events, other keys, other axes) leave the observation unchanged |
| TouchState.DecodeConcat | koboin/koboin.go:119 | decoding two pieces one after the other equals decoding them joined |
| TouchState.DecodeAllFlat | koboin/koboin.go:105-157 | packets decoded one after another in one call give what one fold over all their events gives |
| TouchState.DecodeAllSnoc | koboin/koboin.go:105-157 | decoding one more packet continues from the observation the earlier packets left |
| TouchState.Rotate | koboin/koboin.go:181-182 | the point `(viewWidth - y + 1, x)` loses nothing: `Unrotate` gives back the device point `(x, y)` |
| TouchState.RotateInverse | koboin/koboin.go:181-182 | the rotation `rx = viewWidth - y + 1, ry = x` is a bijection, undone by its inverse in both orders |
| TouchState.RotateRange | koboin/koboin.go:181-182 | for `x >= 0` and `0 <= y < viewWidth`: `ry >= 0`, `2 <= rx <= viewWidth + 1`, and `y == 0` gives `viewWidth + 1` |
| Packets.ReadOf | koboin/koboin.go:71-74 | defines what one `binary.Read` delivers: the decoded record of a whole 16-byte chunk, or a failed read for a fault or a short chunk (by `ReadRecord`) |
| Packets.Reads | koboin/koboin.go:69-74 | defines what successive reads of the device deliver, outcome by outcome; `TouchDevice.GetEvPacket` is proved against assembly over it |
| Packets.Assemble | koboin/koboin.go:63-96 | packet assembly consumes at least one outcome unless the stream has run out, and never reads past its end |
| Packets.NextPacket | koboin/koboin.go:63-96 | one `getEvPacket` call reads at least one outcome unless the stream has run out, and never past its end; a packet it returns holds exactly one event per read it made; a bad packet comes back empty |
| Packets.BadNeverAssembles | koboin/koboin.go:77-88 | once a `SYN_DROPPED` has been seen, the attempt never returns a packet |
| Packets.AssembledSound | koboin/koboin.go:70-93 | a returned packet comes from good reads up to the first `SYN_REPORT`, with no `SYN_DROPPED`, and is exactly the events read |
| Packets.BadPacketSound | koboin/koboin.go:77-87 | "bad event packet" comes only at the first `SYN_REPORT` of a sample that held a `SYN_DROPPED`, with an empty packet |
| Packets.ReadFailedSound | koboin/koboin.go:71-74 | a read error comes only at the first failed read before any `SYN_REPORT` |
| Packets.StreamEndSound | koboin/koboin.go:69-95 | the stream runs out only when no remaining outcome is a failure or a `SYN_REPORT` |
| Packets.SampleComplete | koboin/koboin.go:77-93 | a sample of good reads up to its first `SYN_REPORT` is consumed whole; it is a packet when it held no `SYN_DROPPED` and a bad packet otherwise |
| Packets.FailComplete | koboin/koboin.go:71-74 | good reads without a `SYN_REPORT`, then a failed read, end in that read error at that read |
| Packets.EndComplete | koboin/koboin.go:69-95 | when no remaining outcome ends the sample, the stream runs out |
| Packets.PacketAssembledIff | koboin/koboin.go:70-93 | `getEvPacket` succeeds ending at read `j` if and only if reads `i..j` are good, end at the first `SYN_REPORT` and hold no `SYN_DROPPED`; the packet is exactly those events |
| Packets.PacketBadIff | koboin/koboin.go:77-87 | `getEvPacket` fails with "bad event packet" ending at `j` if and only if reads `i..j` are a sample that held a `SYN_DROPPED`; the packet is then empty |
| Packets.PacketReadFailedIff | koboin/koboin.go:71-74 | `getEvPacket` returns the read error at `j` if and only if `j-1` is the first failed read and no `SYN_REPORT` came before it |
| Packets.PacketWellFormed | koboin/koboin.go:75-93 | a successful packet is non-empty, ends in `SYN_REPORT`, and holds no other `SYN_REPORT` and no `SYN_DROPPED` |
| Packets.Attempts | koboin/koboin.go:105-111 | the successive `getEvPacket` results from a cursor start with the next attempt and end where the stream runs out |
| Packets.AttemptsEndOnlyLast | koboin/koboin.go:105-111 | only the last attempt finds the stream run out |
| Packets.AssembleShift | koboin/koboin.go:63-96 | packet assembly depends only on the outcomes from the cursor on |
| Retry.Attempt | koboin/koboin.go:106-169 | one pass of the loop body: a failed attempt only adds one to the failure counter; a whole packet after more than four failures ends the call with the raw `x, y`, and only then; otherwise a decoded packet that completes the observation always succeeds with its rotated point, whatever the decode counter; an incomplete one goes round again with the failure counter reset and the decode counter at most 5, or, with the decode counter at 5 or more, ends the call with `-1, -1` and the decoded observation |
| Retry.Drive | koboin/koboin.go:98-170 | the loop's result by error kind: success has a complete observation and the rotated point; the incomplete-cycle error returns `-1, -1`; the failure-limit error returns the raw `x, y` |
| Retry.RunIsDrive | koboin/koboin.go:105-170 | the loop run read by read from a cursor is the loop over the attempts from that cursor |
| Retry.Run | koboin/koboin.go:98-170 | the loop from a cursor never reads past the stream and reports success only with a complete observation and its rotated point, `-1, -1` on the incomplete-cycle error and the raw `x, y` on the failure-limit error |
| Retry.GetInputSpec | koboin/koboin.go:98-183 | a call succeeds only with a complete observation, rotated, so `ry >= 0` and `rx <= viewWidth + 1`; it fails on the failure limit only after at least six attempts, since the counter starts at zero |
| Retry.DriveFolds | koboin/koboin.go:105-157 | the final observation is every packet decoded in the call, folded in reading order; on the failure-limit path the last packet is not decoded |
| Retry.DriveStopsAtFirstComplete | koboin/koboin.go:159-161 | the loop stops at the first complete observation: no whole packet before the call's last attempt left the fold complete, and a success ends on a whole packet |
| Retry.DecodeBudget | koboin/koboin.go:163-169 | at most six packets are decoded in one call; the incomplete-cycle error comes after exactly six |
| Retry.GetBudget | koboin/koboin.go:106-117 | the failure-limit error comes on a whole packet whose preceding attempts, back to the counter's start, all failed |
| Retry.GetBudgetFromStart | koboin/koboin.go:103-117 | in a fresh call, the failure-limit error needs five failed attempts in a row followed by a whole packet |
| Retry.FailuresThenPacket | koboin/koboin.go:106-115 | conversely, enough failures in a row followed by a whole packet end the call with the current raw `x, y`, whatever the packet holds |
| Retry.IncompleteCycles | koboin/koboin.go:159-169 | conversely, six whole packets that leave the observation incomplete end the call with `-1, -1` on the sixth |
| Retry.GivesUpAt | koboin/koboin.go:105-169 | conversely to `DecodeBudget`, with failures interleaved: whole packets up to attempt `n` that use up the decode budget and never complete the observation, with no whole packet after more than four failures in a row, end the call at `n` with `-1, -1`, the folded observation and the cursor after `n` |
| Retry.GetInputGivesUpAt | koboin/koboin.go:98-169 | the same from the stream: such a call returns `-1, -1` with the incomplete-cycle error |
| Retry.CompletesAt | koboin/koboin.go:105-170 | conversely, when the fold first becomes complete on the whole packet at attempt `n`, with failures anywhere before it but never more than four in a row before a whole packet, and within the decode budget, the call succeeds at `n` with that fold rotated |
| Retry.GetInputCompletesAt | koboin/koboin.go:98-183 | the same from the stream: such a call returns that observation rotated, without error |
| Retry.RunShift | koboin/koboin.go:98-170 | a run depends only on the outcomes from its cursor, apart from where the cursor ends |
| Retry.CallsIndependent | koboin/koboin.go:98-104 | no state survives between calls: a call's result depends only on the outcomes from its cursor on |
| Koboin.TouchDevice.New | koboin/koboin.go:46-57 | the view size is stored and nothing is read yet |
| Koboin.TouchDevice.ReadEvent | koboin/koboin.go:70-74 | one read consumes one outcome and returns its decoded record, or fails |
| Koboin.TouchDevice.GetEvPacket | koboin/koboin.go:63-96 | the packet, the outcome and the cursor are those of `NextPacket` from the old cursor |
| Koboin.TouchDevice.DecodeEvents | koboin/koboin.go:119-157 | the decode loop over one packet yields the packet fold of the observation |
| Koboin.TouchDevice.GetInput | koboin/koboin.go:98-183 | `rx, ry, err` and the cursor afterwards are those of `GetInputSpec` from the old cursor |
| Scenarios.Delivered | koboin/koboin.go:71 | the kernel's bytes for a record read back as that record |
| Scenarios.DeliversEncoded | koboin/koboin.go:71 | a device delivering the encodings of a list of records reads back exactly that list |
| Scenarios.RotateExample | koboin/koboin.go:181-182 | device point (100, 50) on a 1080-wide view maps to (1031, 100) |
| Scenarios.AbsXIsNotATerminator | koboin/koboin.go:75-93 | `EV_ABS/ABS_X` shares code 0 with `SYN_REPORT` but does not end a packet: `ABS_X` then `SYN_REPORT` assemble into one two-event packet, both records consumed, which sets `x` |
| Scenarios.DroppedThenReport | koboin/koboin.go:77-87 | `SYN_DROPPED` then `SYN_REPORT` gives one bad packet with both records consumed |
| Scenarios.CleanSample | koboin/koboin.go:88-93 | a delivered clean packet comes back whole |
| Scenarios.TwoPacketCycle | koboin/koboin.go:105-183 | a cycle incomplete after its first packet and complete after its second returns the rotated point of the final observation |
| Scenarios.SingleTouchCycle | koboin/koboin.go:119-183 | `ABS_X=200, ABS_Y=300, BTN_TOUCH=1` then `BTN_TOUCH=0` returns `(viewWidth - 300 + 1, 200)` |
| Scenarios.MultiTouchCycle | koboin/koboin.go:136-183 | the same cycle on multi-touch positions and `ABS_MT_PRESSURE` (40, then 0) returns the same point |

## Left out

- Opening the device node with `os.OpenFile`, `New` returning nil when that fails, and `Close`: file I/O. The device is a given sequence of read outcomes.
- The `fmt.Println` diagnostics: output only.
- Blocking reads and timing: a read returns at once with the next outcome.
- The end of the outcome sequence is a model-only case. `getEvPacket` then reports `StreamEnd` and `GetInput` reports `StreamEnded` with the current raw `x, y`. The device node never runs out. When reads fail forever, the Go loop never returns, and this model has no such path.
- A chunk of other than 16 bytes is a failed read. `binary.Read`'s distinction between EOF and a short read is not modelled.
- The timestamps are decoded but never inspected, as in the source.
- `synMTreport` is declared but has no special handling: it is appended like any ordinary event, which the model does too.
- `viewHeight` is stored and never used, as in the source.
- The error values are an enumeration, not Go `error` strings.
- Koboin.TouchDevice.GetInput: does not model wrap-around of Go's `int` in `viewWidth - y + 1`. The 16-byte record with 32-bit times is the 32-bit `input_event`, so on that target `int` is 32 bits, and the sum wraps when `viewWidth - y` nears 2^31. Integers here are unbounded.
- Retry.Attempt: the failure counter is a `nat`, so it does not model `getEvAttempts++` (koboin/koboin.go:109) wrapping to a negative value after 2^31 failures in a row, after which the `> 4` check would stop firing.
- The demo programs under `example/` and `koboin-osk-sample/` are not part of this model.
