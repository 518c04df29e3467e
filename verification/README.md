# A verified model of DroidMirror's protocol code

DroidMirror shows an Android screen in a desktop window. A server on the phone sends video
over an ADB stream and takes touches, keys and settings back. This project models, in Dafny,
the parts of that code that have to agree with someone else: with the other end of a wire, with
a standard, with the picture on the screen or with the calendar.

| part | files |
|---|---|
| bytes, integers, UTF-8, rounding | `Bytes`, `Utf8`, `Rounding`, `Wrappers` |
| the mirror wire protocol and its drain loop | `Proto`, `ProtoWire`, `Framing` |
| the client: bytes in, events out, keyframe skip | `ClientCore`, `Client` |
| touch to pixel, and the drawn quad | `Letterbox` |
| the server's control channel and touch slots | `ControlCore`, `Control`, `TouchCore`, `Touch` |
| H.264 byte streams and the MP4 recorder | `NalCore`, `NalExact`, `Nal`, `Mp4Core`, `Mp4` |
| dates | `Civil` |
| the Android public key blob | `AuthCore`, `Auth` |
| ADB packets, USB transfers | `PacketCore`, `Packet`, `UsbCore`, `Usb`, `PacketIo` |
| the ADB multiplexer with whole packets | `AdbHost`, `AdbCalls`, `AdbQueue`, `AdbRemote`, `AdbLink`, `AdbProgress`, `AdbOrphanRun`, `AdbNet`, `AdbReader` |
| the same over the bytes written | `AdbWire`, `AdbOnce`, `AdbRoom`, `AdbMisread`, `AdbMisreadRun` |
| connecting, pushing a file | `AdbConnectCore`, `AdbConnect`, `AdbPushCore`, `AdbPush` |
| the mirror protocol on top of the multiplexer | `MirrorOverAdb` |

`dafny verify dfyconfig.toml` checks all of it.

## How it is built

Code that computes a value is a function. Code that changes things step by step is a class or a
method with loops, proved equal to a function of the same meaning in the `...Core` file beside it;
the theorems are about that function. What such a function must compute is said apart from it: by the
bytes the documentation lists, by position, field by field, or by a peer that reads what is written.
Error returns are values of `Result`; the effects of the
phone, the USB stack and the file writer are logs and lists of answers given in advance.

The multiplexer is a transition system. `AdbHost` is one stream on the host: a task that opens,
writes and closes, a task that reads, and the reader task, interleaved in any order, each step being
what happens under one lock or one sent packet. Its results hold whatever the device sends. `AdbLink`
adds a device that follows the ADB protocol (each OPEN and each WRTE is answered with one OKAY, a
stream is closed at most once and then ignored) and the packets under way in both directions.
`AdbNet` has any number of streams over one connection and shows that each of them sees a run of its
own. `AdbWire` takes the packets apart: a header and a payload are two writes, any task may write in
between, and the device reads packets off the bytes. Runs that keep the two together refine `AdbNet`,
so everything proved there holds of them; `AdbMisread` is about the other runs. `MirrorOverAdb` feeds
what a stream carries to the client, to the control demultiplexer and to the reader of pushed files.

## Where the code and its documentation differ, and what the proofs found

- README.md:154 and README.md:202 say that a touch in the black bars is dropped. The code moves it to
  the nearest point of the picture (crates/client/src/lib.rs:382), and so does the model.
- Length-prefixed video whose first unit has one byte, or 256 to 511 bytes, begins like a byte stream
  and is passed on unconverted; only if all units have one byte is that right
  (`NalCore.ToAnnexBExactly` for the bytes, `NalExact.NalsSurviveExactly` for the units they split
  into, `NalCore.ShortFirstUnitIsMisread` for an example). With units of 16 MiB a misread stream can
  fall into step again by accident (`NalExact.UnluckyComesOutRight`).
- Four bytes at the very end of length-prefixed video are dropped, whatever length they spell; any other
  number of stray bytes makes the conversion pass the whole data on as one unit (`NalCore.TrailingBytes`).
- `ControlDemux` empties its buffer on an error but goes on, so after an error the way bytes were cut
  decides which calls are made (`ControlCore.ChunkIndependentExactly`, `ControlCore.CuttingMattersAfterError`).
- The two NAL scanners disagree on data without a start code: one takes it for a unit, the other finds
  nothing (`NalCore.ScannersAgree`, `NalCore.ScannersDisagree`).
- `write_packet` writes a header and its payload in two calls and lets other tasks write in between. A
  header that slips in is read as the payload: `AdbMisreadRun.DeliveryFails` is a run in which the
  reader task's OKAY does so and the device receives what was never given to `write`. If nothing comes
  in between, every packet arrives (`AdbWire.WholePacketsArrive`); if something does that differs from
  the payload, the packets sent are never all read again (`AdbMisread.InterruptedNeverArrives`), and it
  differs unless the payload begins with C, O or W. So for all other payloads keeping packets together
  is exactly what it takes (`AdbMisread.ReadsAsSentWhenTogether`).
- A payload the device has sent is answered with an OKAY before it is queued, so when 128 payloads wait
  to be read the next is acknowledged and lost (`AdbQueue.AnsweredAndLost` is a run that does it,
  `AdbQueue.NoneTurnedAwayExactly` and `AdbRoom.NoneLostExactly` say when it does not happen).
- A `read` that begins after `close_stream` reports Closed although payloads are queued, and they are
  never read (`AdbQueue.ClosedAndStranded` is a run that does it, `AdbQueue.ClosedWithPayloadsQueued` says
  exactly when, `AdbQueue.StrandedStays` that they stay unread).
- The reader does not take a stream out of the table when the device closes it, so a `write` begun after
  that registers a waiter that nobody answers: only its timeout ends it (`AdbOrphanRun.WriteIsOrphaned`
  is a run to it, `AdbProgress.OrphanedExactly` says when, `AdbProgress.OrphanedStays` that it lasts).
- A remote id that is known can still be replaced, by the end of `open_stream`: when the device answers
  one OPEN twice, first with the id 0 (`AdbHost.ZeroIdReplacesRemote`), or sends an OKAY before the OPEN
  (`AdbRemote.EarlyOkayIsReplaced`), and in no other way (`AdbRemote.ReplacedExactly`,
  `AdbRemote.ReplacedByFirstZero`); never when it answers once (`AdbLink.RemoteNeverChanges`).
- Letterbox and quad agree down to one pixel of height left for the video, and not below
  (`Letterbox.QuadMatchesTouch`).

## Model

| member | source | states |
|---|---|---|
| `Proto.FrameRoundTrip` | crates/proto/src/lib.rs:147-377 | an encoded frame, followed by any bytes, parses back to the message and its length if and only if the message is not a `Reserved` carrying a tag the parser interprets (nor one of 4 GiB) |
| `Proto.PayloadRoundTrip` | crates/proto/src/lib.rs:152-489 | every interpreted message that encodes decodes to itself, field by field |
| `Proto.ReservedDecodes` | crates/proto/src/lib.rs:379-489 | a payload is handed through as `Reserved` if and only if its tag is none of the nine interpreted ones |
| `Proto.FrameTruncated` | crates/proto/src/lib.rs:361-377 | every proper prefix of a frame is waited for: neither a message nor an error |
| `Proto.FrameStable` | crates/proto/src/lib.rs:361-377 | an answer of the frame parser, message or error, does not change when the buffer grows |
| `Proto.ParsedFrameReencodes` | crates/proto/src/lib.rs:147-377 | whatever the parser accepts encodes again to a frame of the same length, and to the same bytes if and only if the ignored video flag bits and pause bits were zero |
| `Proto.PayloadReencodes` | crates/proto/src/lib.rs:379-489 | the same for one payload, for every tag |
| `Proto.HandshakeRoundTrip` | crates/proto/src/lib.rs:276-345 | an encoded handshake, followed by any bytes, parses back if and only if its version is the current one |
| `Proto.HandshakeTruncated` | crates/proto/src/lib.rs:299-345 | every proper prefix of a handshake is waited for |
| `Proto.HandshakeStable` | crates/proto/src/lib.rs:299-345 | an answer of the handshake parser does not change when the buffer grows |
| `Proto.ParsedHandshakeReencodes` | crates/proto/src/lib.rs:276-345 | an accepted handshake encodes to the very bytes consumed |
| `ProtoWire.FramesAreAsDocumented` | crates/proto/src/lib.rs:147-359 | every frame starts with the number of bytes behind its length field, and each message has the type byte and the fields, at the places and in the order, that the table of README.md lists, all numbers little-endian |
| `ProtoWire.EncodesWhenItFits` | crates/proto/src/lib.rs:147-359 | a message encodes if and only if its frame has at most 8 MiB and its text or csd at most 65535 bytes |
| `ProtoWire.RefusedWithLength` | crates/proto/src/lib.rs:147-359 | what does not fit is refused with its length on 32 bits |
| `ProtoWire.DecodesExactlyEncodings` | crates/proto/src/lib.rs:379-489 | a payload is taken for a message if and only if it is that message's encoding, give or take video flags other than bit 0 and which nonzero byte says pause |
| `ProtoWire.RefusalSaysWhy` | crates/proto/src/lib.rs:379-489 | any other payload is refused for its codec, its UTF-8 or its shape |
| `ProtoWire.FrameVerdict` | crates/proto/src/lib.rs:361-377 | a frame is refused if and only if its length is 0 or above 8 MiB, waited for until it is whole, and then its payload decides |
| `ProtoWire.HandshakeIsAsDocumented` | crates/proto/src/lib.rs:276-297 | a handshake encodes if and only if its csd has at most 65535 bytes and its name at most 256; it begins with "DMIR", and each field is where README.md puts it |
| `ProtoWire.HandshakeVerdict` | crates/proto/src/lib.rs:299-345 | for every buffer: waited for, or refused for magic, version, codec, name length or name, each as soon as it is there |
| `Bytes.LittleEndian` | crates/proto/src/lib.rs:147-297 | the fixed-width numbers are little-endian and two's complement |
| `Utf8.TextIsValid` | crates/proto/src/lib.rs:445 | the encoding of every string of Unicode scalar values is accepted as text |
| `Utf8.ValidIsText` | crates/proto/src/lib.rs:445 | and no other bytes are |
| `Rounding.EncodePressure` | crates/proto/src/lib.rs:260-262 | pressure is scaled to 0..65535 within half a step and saturates at both ends |
| `Rounding.EncodeScroll` | crates/proto/src/lib.rs:268-270 | scroll amounts are 16.16 fixed point within half a step, and saturate at both ends of 32 bits |
| `Framing.ParseAllExtends` | crates/client/src/lib.rs:163-175 | the drain loop over a buffer and more bytes finds what it found before, then goes on from the leftover; a first error is final |
| `Framing.RestIsQuiet` | crates/client/src/lib.rs:163-175 | what the drain loop leaves holds no whole frame and no error |
| `Framing.ParseAllInvertsEncodeAll` | crates/client/src/lib.rs:163-175 | the concatenation of any encodable messages is parsed into exactly those, leaving nothing |
| `ClientCore.ChunkIndependent` | crates/client/src/lib.rs:144-183 | from every state and for any bytes, two calls of `on_bytes` give the same state and events as one with the bytes joined, fatal errors included |
| `ClientCore.AnyChunking` | crates/client/src/lib.rs:144-183 | the same for any number of pieces |
| `ClientCore.EndToEnd` | crates/client/src/lib.rs:144-248 | for every handshake, every list of encodable messages and every split of their bytes, the events are the name, the first configuration and each message's meaning in order, field by field; without a configuration among the messages, size, codec and csd are those of the handshake, else those of the last one, an empty csd keeping the old one; name, caps and a rotation of 0 stay |
| `ClientCore.FirstFaultEnds` | crates/client/src/lib.rs:144-183 | for every handshake, messages, malformed frame and split: the events are those of the messages and one error saying what is wrong with the frame; whatever comes later makes no event |
| `ClientCore.BadHandshakeEnds` | crates/client/src/lib.rs:151-183 | a malformed handshake is reported once, and nothing after it |
| `ClientCore.NothingBeforeHandshake` | crates/client/src/lib.rs:144-162 | until the handshake is whole there is no event, no setting, and no touch or scroll to send |
| `ClientCore.ApplyAllInterprets` | crates/client/src/lib.rs:202-248 | a client that does not skip reports every message's meaning, in order |
| `ClientCore.ApplyAllSettles` | crates/client/src/lib.rs:202-248 | size, codec and csd after any messages are those of the last configuration; the rest is untouched |
| `ClientCore.SkipDropsExactlyTheDeltas` | crates/client/src/lib.rs:140-248 | for every interleaving of `on_bytes` and `request_keyframe_skip`, the events are those of a client that never skips, minus exactly the delta frames after a request and before the next keyframe |
| `ClientCore.LockstepBytes` | crates/client/src/lib.rs:144-248 | one call keeps the skipping client and the reference client in step: same state up to the flag, same events up to what is skipped |
| `ClientCore.TouchIsOneFrame` | crates/client/src/lib.rs:250-278 | a touch becomes one frame that parses to a pixel of the current picture, or no bytes if there is no view or picture |
| `ClientCore.ScrollIsOneFrame` | crates/client/src/lib.rs:300-326 | the same for a scroll and its two amounts |
| `ClientObject.Client.OnBytes` | crates/client/src/lib.rs:144-177 | the object's new state and events are those of the specification the theorems are about |
| `ClientObject.Client.DrainFrames` | crates/client/src/lib.rs:163-176 | the frame loop parses and applies everything the buffer holds |
| `ClientObject.Client.Fail` | crates/client/src/lib.rs:179-183 | latches the error, empties the buffer, reports once |
| `ClientObject.Client.ApplyHandshake` | crates/client/src/lib.rs:185-200 | takes over every field and reports name and configuration |
| `ClientObject.Client.ApplyMessage` | crates/client/src/lib.rs:202-248 | the effect of one message on fields and events |
| `Letterbox.FrameBox` | crates/client/src/lib.rs:368-378 | the picture's box: aspect ratio kept, centred, within the view and touching it on one axis, which determines it |
| `Letterbox.PicturedIs` | crates/client/src/lib.rs:362-378 | exactly one box lets the picture, turned by any number of quarters, sit in the view centred and touching it with one frame pixel across drawn as long as one down: the box the mapping uses |
| `Letterbox.MapToDevice` | crates/client/src/lib.rs:349-391 | no pixel if and only if view or frame is empty; otherwise always a pixel of the frame |
| `Letterbox.RotationsCompose` | crates/client/src/lib.rs:393-400 | rotating by a and then b quarters is rotating by a + b; q then 4 - q is the identity |
| `Letterbox.RotationUndoesTurning` | crates/client/src/lib.rs:393-400 | the rotation applied to a touch undoes turning the picture clockwise, for any number of quarters |
| `Letterbox.MapInvertsDrawing` | crates/client/src/lib.rs:349-400 | wherever the picture is drawn undistorted, centred, within the view and touching it, touching the place of a frame position reports the pixel drawn there or, in its second half, the next, for all rotations |
| `Letterbox.FrameCoordinatesReturn` | crates/client/src/lib.rs:349-400 | every frame coordinate, drawn there and touched, comes back as itself |
| `Letterbox.BoxIsCovered` | crates/client/src/lib.rs:349-400 | every point of the picture shows some frame position |
| `Letterbox.TouchReportsDrawnPixel` | crates/client/src/lib.rs:349-400 | touching any point of that picture reports the pixel drawn there, give or take the rounding |
| `Letterbox.BarsClampToPicture` | crates/client/src/lib.rs:382-383 | a point in the black bars is mapped as the nearest point of that picture |
| `Letterbox.FillIsFrameBox` | crates/native/src/render.rs:395-402 | the part of the video region `quad` fills has the size of the box touches use |
| `Letterbox.QuadMatchesTouch` | crates/native/src/render.rs:394-419 | in window pixels, corner by corner with its texture coordinate, the drawn quad is the box touches are mapped with, if and only if the toolbar leaves at least one pixel of height |
| `Letterbox.TouchHitsTexture` | crates/native/src/render.rs:394-419 | without a rotation, touching any point of the drawn quad maps to the frame pixel of the texture coordinate interpolated there, as long as the toolbar leaves a pixel of height |
| `Letterbox.QuadWithoutTexture` | crates/native/src/render.rs:397 | before there is a texture the quad is that of a square one |
| `ControlCore.ChunkIndependentUntilError` | crates/server/src/control.rs:33-53 | pushing chunks up to the first malformed frame makes the calls one push of all bytes makes |
| `ControlCore.ResumesAfterError` | crates/server/src/control.rs:33-53 | after an error the server starts afresh with the next chunk |
| `ControlCore.ChunkIndependentExactly` | crates/server/src/control.rs:33-53 | every way of cutting the bytes makes the same calls if and only if no suffix makes a call by itself that begins where, or behind where, the bytes so far have failed |
| `ControlCore.FaultIsReported` | crates/server/src/control.rs:33-53 | a malformed frame behind any messages is reported as what it is, after their calls, and empties the buffer |
| `ControlCore.CuttingMattersAfterError` | crates/server/src/control.rs:33-53 | a byte string that makes no call in one chunk and one call in two |
| `ControlCore.PushTwice` | crates/server/src/control.rs:33-53 | a push of two pieces is two pushes, unless the first fails |
| `ControlCore.HostToServer` | crates/server/src/control.rs:33-81 | for every list of control messages the client encodes and every chunking, one call for each is made in order, equal to the message field by field (a navigation key with meta 0, a scroll in notches), and the buffer ends empty |
| `ControlCore.ServerDoes` | crates/server/src/control.rs:33-81 | the same for any messages: those for the client make no call |
| `ControlCore.TouchReachesInjector` | crates/server/src/control.rs:56-64 | a touch of the view, its bytes cut up in any way, becomes one call with that action and finger, at the pixel `map_to_device` gives and with the encoded pressure, or none without view or frame |
| `ControlCore.ScrollReachesInjector` | crates/server/src/control.rs:71-75 | a scroll becomes one call at that pixel with its two amounts in notches, horizontal first |
| `ControlCore.SentIsEncoded` | crates/client/src/lib.rs:280-343 | what the client's encoders return is the encoding of the messages, less texts that do not fit |
| `ControlCore.NotchesKeepSign` | crates/server/src/control.rs:83-96 | a scroll moves the wheel not at all only if it is zero, always in its own direction, and symmetrically |
| `ControlCore.NotchesAreNear` | crates/server/src/control.rs:83-96 | for every 32-bit amount: small ones are rounded up to one notch at most, others are within half a notch, and from 256 notches on within a further 128/65536, the error of the cast |
| `ControlCore.NotchesAre` | crates/server/src/control.rs:83-96 | notches are the cast amount rounded with halves away from zero, and one where that would be none |
| `ControlCore.CastIsNearest` | crates/proto/src/lib.rs:272-274 | no single-precision number is nearer to the amount than its cast |
| `ControlCore.CastIsSingle` | crates/proto/src/lib.rs:272-274 | the cast is a single-precision number |
| `ControlCore.CastTiesToEven` | crates/proto/src/lib.rs:272-274 | of two equally near ones it is the even one |
| `ControlCore.CastKeepsSign` | crates/proto/src/lib.rs:272-274 | the cast of the amount to single precision keeps sign and zero, and is exact below 2^24 |
| `ControlObject.ControlDemux.Push` | crates/server/src/control.rs:33-53 | the object's buffer, calls and error are those of the specification |
| `ControlObject.ApplyMessage` | crates/server/src/control.rs:56-81 | the calls one message makes |
| `TouchCore.CallMatches` | crates/server/src/inject.rs:49-75 | after any one call the consumer's tracked contacts are the intended ones, reported once if the action is known and not at all otherwise |
| `TouchCore.RunMatches` | crates/server/src/inject.rs:49-75 | the same over any run from any agreeing state |
| `TouchCore.EveryRunIsReported` | crates/server/src/inject.rs:38-75 | from a new device, a protocol-B consumer with Linux's event numbers reports after each call that counts the ten fingers, slot k holding id k below 9 and slot 9 all others, each as its own last call left it, and BTN_TOUCH while one is down |
| `TouchCore.HighIdsAreOneFinger` | crates/server/src/inject.rs:50 | over any run, ids above 9 are one finger, that of id 9 |
| `TouchObject.TouchSlots.Apply` | crates/server/src/inject.rs:49-75 | the array of slots and the emitted events are those of the specification |
| `NalCore.Scan` | crates/native/src/capture.rs:281-302 | start codes are found in order, do not overlap, and are three or four bytes |
| `NalCore.ScanFindsAll` | crates/native/src/capture.rs:281-302 | for any bytes the scan finds exactly the start codes, with a zero in front as part of it; three bytes 0 0 1 at the very end count only behind another zero |
| `NalCore.NalsInvertAnnexB` | crates/native/src/capture.rs:261-302 | splitting a byte stream of units free of 00 00 01 gives back the units |
| `NalCore.ToAnnexBIdempotent` | crates/proto/src/lib.rs:506-536 | converting twice is converting once, for any bytes; the result begins with a start code |
| `NalCore.ReadAvccInvertsAvcc` | crates/proto/src/lib.rs:514-524 | the conversion loop reads back length-prefixed units, whatever follows that begins no further one, and stops there |
| `NalCore.AvccConverts` | crates/proto/src/lib.rs:506-544 | length-prefixed units with any such bytes behind them: unchanged if the first length reads as a start code; else the byte stream of the units if there are none or four, and else passed on whole |
| `NalCore.ToAnnexBExactly` | crates/proto/src/lib.rs:506-544 | the conversion yields the byte stream of the units if and only if the first length is not 256..511, and 1 only if all are |
| `NalCore.NalsSurviveConversion` | crates/proto/src/lib.rs:506-544 | splitting the converted stream gives the units that were length-prefixed, for all recognised lists of clean units |
| `NalExact.NalsSurviveExactly` | crates/proto/src/lib.rs:506-544 | for every list of clean units below 16 MiB, twice what the wire carries, splitting the converted stream gives the units if and only if the first length is not 256..511, and 1 only if all are |
| `NalExact.EarlyNever` | crates/native/src/capture.rs:261-302 | a stream split one or two bytes before a unit of below 16 MiB never comes back into step: its units are not those of the length-prefixed data |
| `NalExact.LateNever` | crates/native/src/capture.rs:261-302 | nor does one split one or two bytes behind the beginning of a long unit |
| `NalExact.UnluckyComesOutRight` | crates/native/src/capture.rs:261-302 | with a unit of 16 MiB a list that is misread can come out right all the same: a concrete list of three clean units |
| `NalCore.ShortFirstUnitIsMisread` | crates/proto/src/lib.rs:507-509 | a first unit of one byte followed by one of two comes out as a single unit |
| `NalCore.TrailingBytes` | crates/proto/src/lib.rs:512-532 | bytes behind the last unit that begin no further one: the units are converted if and only if there are none or four, whatever length those spell; otherwise the whole data is passed on behind a start code |
| `NalCore.EveryStreamIsSuch` | crates/proto/src/lib.rs:514-524 | every byte string is some units with their lengths, as the loop reads them, and then bytes that begin no further one |
| `NalCore.SampleSurvivesConversion` | crates/native/src/capture.rs:243-255 | the recorded sample of a converted stream is the length-prefixed list without types 6 to 9 |
| `NalCore.SampleHolds` | crates/native/src/capture.rs:243-255 | for any bytes, reading a sample back gives the units of the stream in order, exactly those whose first byte modulo 32 is not 6, 7, 8 or 9 |
| `NalCore.SampleIsEmpty` | crates/native/src/capture.rs:243-255 | a sample is empty if and only if there is no such unit |
| `NalCore.FirstOfTypeIs` | crates/native/src/capture.rs:229-240 | the parameter set taken is the first unit of its type, and none is taken only if there is none |
| `NalCore.CsdIsAnnexB` | crates/server/src/annexb.rs:5-15 | codec-config parts, raw or with a start code, become the byte stream of their units |
| `NalCore.ParameterSetsArrive` | crates/native/src/capture.rs:229-240 | `sps_pps` of `csd_annex_b` of an SPS and a PPS, in either order and form, returns those two |
| `NalCore.SmallParameterSetsCarry` | crates/server/src/annexb.rs:5-15 | raw parameter sets below 64 KiB are never taken for length-prefixed data |
| `NalCore.ScannersMeetTheSameStarts` | crates/native/src/decode.rs:168-182 | the scanner that tries every position finds the types behind the start codes of the one that jumps |
| `NalCore.ScannersAgree` | crates/native/src/decode.rs:159-182 | for every type but 0 the two scanners agree if and only if the data has a start code, is empty, or is not itself of that type |
| `NalCore.ScannersDisagree` | crates/native/src/decode.rs:159-182 | on a raw parameter set, 67 42, they disagree |
| `NalLoops.StartCodes` | crates/native/src/capture.rs:281-302 | the scan loop computes the specified starts |
| `NalLoops.Nals` | crates/native/src/capture.rs:261-274 | the splitting loop computes the specified units |
| `NalLoops.AvccSample` | crates/native/src/capture.rs:243-255 | the sample loop computes the specified sample |
| `NalLoops.SpsPps` | crates/native/src/capture.rs:229-240 | the first SPS and the first PPS, if both are there |
| `NalLoops.ToAnnexB` | crates/proto/src/lib.rs:506-532 | the conversion loop computes the specified stream |
| `NalLoops.CsdAnnexB` | crates/server/src/annexb.rs:5-15 | the concatenation loop computes the specified blob |
| `Mp4Core.FinishedRecording` | crates/native/src/capture.rs:176-226 | after any pushes and `finish` the samples are the nonempty ones from the first IDR that has one, each once and in order; `finish` fails if and only if there is none |
| `Mp4Core.OpensExactly` | crates/native/src/capture.rs:176-190 | a recording can begin with a frame if and only if it is marked as a keyframe or has a unit of type 5, and has a unit of a type other than 6 to 9; so with every frame that has a unit of type 5 |
| `Mp4Core.RecordingAt` | crates/native/src/capture.rs:176-226 | start time, sync flag (marked as a keyframe, or a unit of type 5), sample bytes, and the duration: to the next frame in milliseconds between 1 and 10000, 33 for the last |
| `Mp4Core.FirstSampleIsSync` | crates/native/src/capture.rs:176-226 | the first sample is a sync sample |
| `Mp4Core.DurationsCoverTheSpan` | crates/native/src/capture.rs:192-226 | with gaps of 1 ms to 10 s, the durations before the last make up the time span, less under a millisecond a gap |
| `Mp4Core.RunKnows` | crates/native/src/capture.rs:176-200 | after any pushes the recorder waits, holds back the last kept frame and has written the others |
| `Mp4Core.OpeningIsFirst` | crates/native/src/capture.rs:176-191 | a recording begins at the first frame that is an IDR picture with something to store |
| `Mp4Object.Mp4Rec.Push` | crates/native/src/capture.rs:176-200 | the fields and written samples are those of the specification |
| `Mp4Object.Mp4Rec.Finish` | crates/native/src/capture.rs:202-213 | writes the sample held back; an error if and only if nothing was ever written |
| `Mp4Object.Mp4Rec.WriteSample` | crates/native/src/capture.rs:215-226 | one sample, times in milliseconds, the duration between 1 ms and 10 s |
| `Mp4Object.Record` | crates/native/src/capture.rs:176-226 | any run of the object writes the recording of the theorem |
| `Civil.CivilFollowsCalendar` | crates/native/src/capture.rs:323-336 | each day's result is a date of the calendar and the next day's is the date after it, leap years included, for every day number |
| `Civil.CivilStarts` | crates/native/src/capture.rs:323-336 | day 0 is 1970-01-01 |
| `Civil.CountInvertsCivil` | crates/native/src/capture.rs:323-336 | counting the days to the result gives the day number back |
| `Civil.CivilInvertsCount` | crates/native/src/capture.rs:323-336 | every date of the calendar is the result for its day count |
| `Civil.CivilFromDaysExactly` | crates/native/src/capture.rs:323-336 | what is returned is that date if and only if the year fits the 32 bits it is cast to |
| `Civil.YearIsRight` | crates/native/src/capture.rs:328-331 | the year-of-era formula puts every day of an era into the right year |
| `AuthCore.StepSquaresError` | crates/transport/src/adb/auth.rs:169-178 | one turn squares the error, whatever wraps |
| `AuthCore.NewtonPrecision` | crates/transport/src/adb/auth.rs:169-178 | after k turns the product is 1 modulo 2^(2^k) |
| `AuthCore.FiveTurnsInvert` | crates/transport/src/adb/auth.rs:169-178 | five turns invert every odd number modulo 2^32, and nothing inverts an even one |
| `AuthCore.FourTurnsDoNot` | crates/transport/src/adb/auth.rs:173-176 | four turns would not do |
| `AuthCore.BlobIsRight` | crates/transport/src/adb/auth.rs:130-167 | the blob exists if and only if the modulus is odd and at most 2048 bits; it parses to modulus and exponent, with n0inv * n = -1 modulo 2^32 and rr = 2^4096 modulo n |
| `AuthCore.MontgomeryStep` | crates/transport/src/adb/auth.rs:141-150 | adding the multiple of the modulus that n0inv prescribes clears the low word of any number |
| `AuthCore.MinimalFits` | crates/transport/src/adb/auth.rs:132-141 | the byte string of a number fits k bytes if and only if the number is below 256^k, and padded it is its k bytes |
| `AuthObject.ModInverse` | crates/transport/src/adb/auth.rs:169-178 | none for even numbers, the inverse for odd ones |
| `AuthObject.EncodeAndroidPubkey` | crates/transport/src/adb/auth.rs:130-167 | the buffers and fields appended are the specified blob |
| `PacketCore.HeaderRoundTrip` | crates/transport/src/adb/protocol.rs:53-94 | a header, followed by anything, reads back if and only if its magic is the complement of its command |
| `PacketCore.ComplementIsXor` | crates/transport/src/adb/protocol.rs:53-62 | the complement that makes the magic is the exclusive or with 32 ones, bit by bit |
| `PacketCore.ReadHeaderReencodes` | crates/transport/src/adb/protocol.rs:64-94 | an accepted header encodes to the bytes it was read from |
| `PacketCore.ChecksumIsSum` | crates/transport/src/adb/protocol.rs:99-101 | the checksum is the byte sum modulo 2^32 |
| `PacketCore.ChecksumDoesNotWrap` | crates/transport/src/adb/protocol.rs:99-101 | it never wraps for payloads up to a length if and only if that is at most 0x01010101, more than four times the payload limit |
| `PacketCore.PacketIsAsDocumented` | crates/transport/src/adb/client.rs:339-356 | where command, ids, length, checksum, magic and payload of a sent packet are, and what they hold |
| `PacketCore.CommandIsItsName` | crates/transport/src/adb/protocol.rs:15-26 | a command is sent as the four letters of its name |
| `PacketCore.HeaderVerdict` | crates/transport/src/adb/protocol.rs:75-94 | a header is refused for an unknown command, or else for its magic |
| `PacketCore.PayloadVerdict` | crates/transport/src/adb/client.rs:358-376 | with a right header, a packet is refused above 4 MiB, waited for until it is whole, and then accepted if and only if it is empty, its checksum is 0, or that is the sum of its bytes |
| `PacketCore.PacketRoundTrip` | crates/transport/src/adb/client.rs:339-376 | a packet written and read back arrives unchanged, leaving what follows it, if and only if its payload is at most 4 MiB |
| `PacketCore.PacketsRoundTrip` | crates/transport/src/adb/client.rs:339-376 | a stream of such packets reads as those packets and nothing more |
| `PacketLoops.ToBytes` | crates/transport/src/adb/protocol.rs:64-73 | the 24 bytes written in place are the header |
| `PacketLoops.ChecksumOf` | crates/transport/src/adb/protocol.rs:99-101 | the fold computes the checksum |
| `UsbCore.RequestsAreWholePackets` | crates/transport/src/adb/usb.rs:150-152 | every request is the least positive multiple of the packet size that covers what is left, or 16 KiB of it |
| `UsbCore.OutgoingIsTheData` | crates/transport/src/adb/usb.rs:175-197 | the transfers of a write make up its bytes |
| `UsbCore.LastTransferIsShort` | crates/transport/src/adb/usb.rs:186-191 | the last transfer shows its end, by not being whole packets or by being the empty one, if and only if the write is whole packets or its last piece is not; so always if 16 KiB is whole packets |
| `UsbCore.EndDoesNotShow` | crates/transport/src/adb/usb.rs:186-191 | with packets of 3 bytes the end of a write of 16387 does not show |
| `UsbObject.UsbIo.ReadExact` | crates/transport/src/adb/usb.rs:145-173 | whatever the transfers are, the buffer is filled with the next bytes of the stream if and only if there are enough before the first fault; delivered and remaining bytes make up those received |
| `UsbObject.UsbIo.WriteAll` | crates/transport/src/adb/usb.rs:175-199 | on success every transfer was sent, but perhaps the closing empty one; on failure a first part |
| `PacketIo.WritePacket` | crates/transport/src/adb/client.rs:339-356 | on success the bytes sent grow by the packet's |
| `PacketIo.ReadPacket` | crates/transport/src/adb/client.rs:358-376 | the packet, the refusal or the wait that the byte stream determines, leaving the rest of the stream |
| `PacketIo.ReadAll` | crates/transport/src/adb/client.rs:291-293 | however sent packets are cut into transfers, successive reads return exactly those packets |
| `AdbHost.InboundTheorem` | crates/transport/src/adb/client.rs:291-336 | on every run, whatever the device sends: what was read and then what is queued are the WRTE payloads that found room, in order, and all of them if none was turned away; each WRTE got one OKAY with the ids swapped; a `read` that reports Closed either found an empty queue whose sender is gone, or began when the stream was not in the table |
| `AdbHost.TurnedAwayOnlyWhenFull` | crates/transport/src/adb/client.rs:307-320 | while a stream is in use and the device has not closed it, a payload is dropped, after its OKAY, if and only if 128 others wait |
| `AdbQueue.NoneTurnedAwayExactly` | crates/transport/src/adb/client.rs:307-320 | on every run, whatever the device sends, that has the stream in use and not closed by the device whenever a payload comes: none is turned away if and only if each time fewer than 128 wait |
| `AdbQueue.AnsweredAndLost` | crates/transport/src/adb/client.rs:307-320 | a run of 129 payloads: each gets its OKAY, and the last is neither read nor queued |
| `AdbQueue.ClosedWithPayloadsQueued` | crates/transport/src/adb/client.rs:119-129 | with payloads queued, a step reports Closed if and only if it is a `read` that begins after the stream has left the table |
| `AdbQueue.StrandedStays` | crates/transport/src/adb/client.rs:119-129 | what is queued then is never read |
| `AdbQueue.ClosedAndStranded` | crates/transport/src/adb/client.rs:119-129 | a run that ends so: a payload arrives, the host closes the stream, a `read` reports Closed with the payload queued |
| `AdbHost.HostStep` | crates/transport/src/adb/client.rs:82-336 | every step of the owning, reading and reader tasks keeps the host invariant, among it that a waiting task has a waiter registered or an answer, never neither |
| `AdbHost.ZeroIdReplacesRemote` | crates/transport/src/adb/client.rs:101-104 | a run in which a device answers one OPEN twice, first with the id 0: the known id is replaced |
| `AdbRemote.ReplacedExactly` | crates/transport/src/adb/client.rs:82-117 | on every run, whatever the device sends: a known remote id is replaced if and only if `open_stream` ends with an OKAY and the first id the reader handed to its waiter is not the first nonzero id taken since the stream is in the table |
| `AdbRemote.ReplacedByFirstZero` | crates/transport/src/adb/client.rs:82-117 | on every run in which no OKAY comes before the OPEN is sent: it is replaced if and only if `open_stream` ends with an OKAY and the first OKAY carried the id 0 |
| `AdbRemote.EarlyOkayIsReplaced` | crates/transport/src/adb/client.rs:82-117 | the other way to do it: a run in which an OKAY comes before the OPEN is sent, and the answer carries another id |
| `AdbHost.WriteChunksAre` | crates/transport/src/adb/client.rs:141-146 | the chunks of a `write` make up its data, all but the last as long as the device accepts and the last no longer |
| `AdbHost.OpenPayloadEnds` | crates/transport/src/adb/client.rs:96-99 | the destination is sent with a NUL at its end, its own if it has one |
| `AdbCalls.PacketsAreOfStream` | crates/transport/src/adb/client.rs:82-178 | on every run, whatever the device sends: each packet of a stream carries the stream's own id first; an OPEN has the second id 0 and a destination ending in NUL, a WRTE a second id that is not 0, CLSE and OKAY no payload, and there are no other packets |
| `AdbCalls.WriteIsTakenExactly` | crates/transport/src/adb/client.rs:131-143 | on every run: an open stream takes the data of a `write` if and only if it knows a nonzero remote id, else the call fails; the stream table is never the reason |
| `AdbCalls.ReadReturnsExactly` | crates/transport/src/adb/client.rs:118-129 | on every run: a waiting `read` returns the first payload admitted and not yet read, if there is one; while the stream is in use and the device has not closed it, it returns only then |
| `AdbCalls.ReadsAreAccounted` | crates/transport/src/adb/client.rs:118-129 | on every run: each `read` begun has returned one payload or reported Closed, but for the one that waits; those refused for the table are those begun while the stream was not in use |
| `AdbCalls.WaitsForAnswersOnly` | crates/transport/src/adb/client.rs:82-178 | on every run: a call under way can go on if and only if it is not waiting for an answer that is missing |
| `AdbCalls.EndsOkExactly` | crates/transport/src/adb/client.rs:100-117 | on every run: an `open_stream` or `write` that ends returns Ok if and only if its last answer was an OKAY, and fails only after the device sent a CLSE |
| `AdbLink.LinkStep` | crates/transport/src/adb/client.rs:82-336 | every step of host and device, each packet taken as sent whole, keeps the stop-and-wait, conservation, addressing and closing invariants |
| `AdbLink.DeliveryTheorem` | crates/transport/src/adb/client.rs:131-162 | with packets sent whole, on every run the device has received a prefix of what was given to `write`, in chunks of at most `max_payload`, and all of it when an operation has returned Ok |
| `AdbLink.OneUnacknowledged` | crates/transport/src/adb/client.rs:147-155 | while a stream is open at most one WRTE is unacknowledged, and one exactly while its waiter is registered |
| `AdbProgress.HelpIsNear` | crates/transport/src/adb/client.rs:111-160 | whenever an operation waits, whether or not the device has closed: its answer is there and it can go on, or some step that brings the answer nearer is possible, or it is orphaned; exactly one of the three |
| `AdbProgress.AnswerComesNearer` | crates/transport/src/adb/client.rs:111-160 | a step that helps lowers a well-founded measure of how far away the answer is, and no step of host or device raises it, not even the closing of the stream |
| `AdbProgress.OrphanedExactly` | crates/transport/src/adb/client.rs:147-155 | on every run, a waiting task is orphaned if and only if the reader has taken the CLSE of the device and the task has no answer |
| `AdbProgress.OrphanedStays` | crates/transport/src/adb/client.rs:321-330 | no step of host or device ends an orphaned wait |
| `AdbOrphanRun.WriteIsOrphaned` | crates/transport/src/adb/client.rs:131-162 | a run to such a wait: open, the device closes, its CLSE is taken, then a `write` begins |
| `AdbLink.RemoteNeverChanges` | crates/transport/src/adb/client.rs:101-104 | with a device that answers once, a known remote id never changes |
| `AdbNet.StepProjects` | crates/transport/src/adb/client.rs:291-336 | with packets sent whole, what one stream sees of a step of the whole connection is a step of its own, or nothing |
| `AdbNet.StreamsDoNotInterfere` | crates/transport/src/adb/client.rs:82-336 | with packets sent whole, every stream of every run of a connection keeps both promises, whatever the others do |
| `AdbNet.LocalIdsDiffer` | crates/transport/src/adb/client.rs:83 | local ids count up from 1, and are distinct if and only if there are at most 2^32 of them |
| `AdbNet.NextIdIsFree` | crates/transport/src/adb/client.rs:83-92 | until the counter comes round, the next id belongs to no stream |
| `AdbReader.ReaderGoesOn` | crates/transport/src/adb/client.rs:291-336 | on every run of a connection: the reader can always finish the packet it has, else take the next one under way, and never both |
| `AdbReader.NobodyIsHeldUp` | crates/transport/src/adb/client.rs:82-178 | what a stream's own task, or the device for it, could do if the stream were alone it can do among any others, and no more |
| `AdbWire.WrittenIs` | crates/transport/src/adb/client.rs:339-356 | every step writes what it says: a whole packet without payload, a header, or a payload |
| `AdbWire.StepRefines` | crates/transport/src/adb/client.rs:339-376 | as long as nothing comes between a header and its payload, a step of the connection as bytes is a step of the connection with whole packets, or none |
| `AdbWire.WholePacketsArrive` | crates/transport/src/adb/client.rs:339-376 | on every run, of any number of streams and over the bytes written, that writes nothing between a header and its payload: the device reads exactly the packets sent, in order, and every stream keeps its promises in both directions |
| `AdbOnce.OneHeaderEach` | crates/transport/src/adb/client.rs:339-356 | on every run over the bytes written, whatever interleaves: the headers written for a stream are those of the packets it has sent, each once, and at most one more, whose packet is still the one its task is about to send |
| `AdbMisread.ReadsAsSentExactly` | crates/transport/src/adb/client.rs:339-376 | on every run, interrupted or not: the packets the device has read are those sent if and only if the bytes written begin with them, each in one piece |
| `AdbMisread.InterruptedNeverArrives` | crates/transport/src/adb/client.rs:339-356 | when a write comes between a header and a payload that does not begin like it, then however the run goes on the device never reads the packets sent |
| `AdbMisread.OtherPayloadsDisagree` | crates/transport/src/adb/client.rs:339-356 | every write that can come in between begins with C, O or W, so that is so for every payload that begins with another byte |
| `AdbMisread.ReadsAsSentWhenTogether` | crates/transport/src/adb/client.rs:339-376 | on every run whose OPENs fit a packet and whose payloads begin with no C, O or W, once the device has read as many packets as were sent: they are the packets sent if and only if nothing was ever written between a header and its payload |
| `AdbMisreadRun.DeliveryFails` | crates/transport/src/adb/client.rs:131-162 | a run of open, write and one incoming WRTE, whose OKAY slips in: the device has received the byte 4F where 00 was given |
| `AdbRoom.NoneLostExactly` | crates/transport/src/adb/client.rs:307-320 | on every run of the connection, whatever is written in between: none of the payloads of a stream that is open whenever one comes is turned away if and only if its queue has room each time |
| `AdbRoom.TogetherIsOpen` | crates/transport/src/adb/client.rs:307-330 | on every run that keeps packets together, a stream the host has not closed is open whenever a payload comes |
| `AdbRoom.InboundAnyway` | crates/transport/src/adb/client.rs:291-336 | on every run of the connection, interrupted or not, every stream keeps its promise for what the device sends |
| `AdbPushCore.PushRoundTrip` | crates/transport/src/adb/client.rs:194-213 | what `push` writes reads, under the sync grammar, as one SEND of the path and mode, DATA records of at most 64 KiB that make up the data, and one DONE, if and only if the length of "path,mode" fits 32 bits |
| `AdbPushCore.SpecSplits` | crates/transport/src/adb/client.rs:196 | the device divides path and mode where the host joined them, whatever commas the path has |
| `AdbPush.SyncStream.Push` | crates/transport/src/adb/client.rs:194-213 | on success all messages are written in order; on failure a first part |
| `MirrorOverAdb.PushOverAdb` | crates/transport/src/adb/client.rs:194-213 | at any moment of any run of the connection that keeps packets together, what the device has received of a push is a first part of it; once the last `write` returned Ok it reads as the file, path, mode, data and time |
| `AdbConnectCore.HandshakeOutcome` | crates/transport/src/adb/client.rs:249-289 | each AUTH token gets one answer, the first a signature (type 2) and the others the public key (type 3); the first packet that is no token decides |
| `AdbConnectCore.ConnectsExactlyOnCnxn` | crates/transport/src/adb/client.rs:249-289 | connected if and only if that packet is a CNXN and any first token could be signed; the payload limit is the device's, but no less than 4096 and no more than 1 MiB |
| `AdbConnectCore.TrimmedIs` | crates/transport/src/adb/client.rs:264-266 | the banner is the payload without the zero bytes at its ends, and no more is cut |
| `AdbConnect.Handshake` | crates/transport/src/adb/client.rs:249-289 | the loop sends CNXN with version 0x01000001, 1 MiB and the banner, and then sends and returns what is specified |
| `AdbConnect.BannerIs` | crates/transport/src/adb/protocol.rs:9 | the banner has 68 bytes: "host::features=", seven names that its commas divide, and its only NUL at the end |
| `MirrorOverAdb.ControlOverAdb` | crates/server/src/control.rs:33-81 | at any moment of any run of the connection that keeps packets together, the server has made the first of the calls asked for, field by field and without error, and all of them once the last `write` returned Ok |
| `MirrorOverAdb.EventsOverAdb` | crates/client/src/lib.rs:144-248 | at any moment of any run of the connection, whatever is written in between, what was read before the first payload turned away makes the client report the first of the events the server's messages mean, and all of them once all was read; for an open stream with room each time, that is everything read |

## Left out

- Timeouts of `open_stream`, `write` and `handshake`: a `write` that times out leaves its waiter behind; runs with such timeouts are not modelled. The timeout of `close_stream` is.
- Failing packet I/O inside the multiplexer, and everything after the reader task has ended.
- Two tasks writing to one stream, or two reading from one: each stream has one of each.
- Taking a local id and entering its slot into the table are one step; local ids are followed up to 2^32 opens, after which they repeat.
- AdbLink.DeliveryTheorem: takes each packet as sent whole; `AdbWire.WholePacketsArrive` says of which runs of the two writes that is right, `AdbMisread` what happens otherwise. The device sends one OKAY for each OPEN and WRTE, as the protocol demands.
- AdbLink.LinkStep: the same, each packet sent in one step.
- AdbNet.StepProjects: the same; `AdbWire.StepRefines` relates the steps of the two writes to these.
- AdbNet.StreamsDoNotInterfere: the same; `AdbWire.WholePacketsArrive` is the statement about the bytes written.
- AdbWire.WholePacketsArrive: asks also that an OPEN fits a packet (4 MiB) and that the device's payload limit, which `handshake` puts between 4096 and 1 MiB, does. The device refuses what `read_packet` refuses, among it a wrong nonzero checksum. Bytes from the device to the host come in whole packets, which `PacketIo.ReadAll` is about.
- AdbProgress.HelpIsNear: says that a step that helps is possible, not that the scheduler or the device takes it; packets are sent whole, as in `AdbLink`.
- AdbProgress.AnswerComesNearer: packets are sent whole, as in `AdbLink`.
- MirrorOverAdb.ControlOverAdb: speaks of runs that keep packets together; on the others the server can receive what was not sent (`AdbMisreadRun.DeliveryFails`).
- MirrorOverAdb.PushOverAdb: the same.
- NalExact.NalsSurviveExactly: asks that the units are free of start codes and below 16 MiB (the wire allows 8); from there on only one direction holds (`NalCore.NalsSurviveConversion`), as `NalExact.UnluckyComesOutRight` shows.
- NalExact.EarlyNever: the same bound on the units.
- NalExact.LateNever: the same.
- Mp4Core.DurationsCoverTheSpan: outside gaps of 1 ms to 10 s durations are clamped; `Mp4Core.RecordingAt` gives them exactly.
- Rounding of single-precision arithmetic and NaN in the letterbox, the quad, pressure and scroll amounts: real numbers, except the cast in `notches`.
- The test for an empty box in `map_to_device`, the test of a csd length above 64 KiB that 16 bits cannot hold, and the `rr` overflow test: they cannot fire in the model.
- Texts of errors and log lines: errors are values.
- `push`: the device's reply, the closing QUIT and their errors; `shell`; the 1024-byte path limit of some devices.
- `handshake`: decoding the banner as UTF-8; only its NULs are trimmed.
- `key`, `nav`, `text`, `set_encoding`, `pause` of the client beyond their encoding; `decode_pressure`, `decode_scroll`, `scroll_float`.
- The 32-bit sample counter of the MP4 recorder, the MP4 file, its deletion after a failed recording, PNG and GIF capture, `utc_stamp`.
- RSA, SHA-1, PEM, base64 and the key file; big integers are mathematical.
- `list_adb`, `is_adb`, opening and clearing endpoints; a refused empty transfer is only logged.
- The decoder, the session's decode queue, the GPU, the window, toolbar, command line and the wasm wrapper.
- Keyboard tables, scroll and key events of the injector, `fit_max_size` and the server's arguments: easy members.
