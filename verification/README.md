# OpenDisplay receiver: byte pipeline and state machines

A display receiver gets length-framed JSON and H.264 over one TCP connection.
This project models the path those bytes take and the state machines around
it, and proves what they keep:

- **Wire.** Arbitrary chunks go through the length deframer (`Framing`, `FrameBuffer`,
  over whole runs `FrameRuns`), the control/video demux (`Demux`), the flat-JSON scanner
  (`FlatJson`, `Control`, `ControlObjects`, `ControlBuilders`, `Telemetry`) with its numbers
  (`Numerals`, and `Doubles` for their rounding) and the Annex-B splitter (`AnnexB`), and leave
  as callbacks (`Session`, `WireDelivery`); `Payloads` tells what becomes of each payload by
  its header bytes. The sending halves are `ControlSender` for control messages and
  `SimSender`, `SimReader` for the simulator.
- **H.264 headers.** Emulation prevention (`Rbsp`), Exp-Golomb codes over a bit
  cursor (`ExpGolomb`, `Bits`), the SPS parser (`Sps`) against a printer written
  from H.264 section 7.3.2.1.1 (`SpsSyntax`), and its indifference to appended
  bytes (`SpsPrefix`). `SliceHeader` is the slice-type reader as coded.
- **State machines.** The session clock (`SessionClock`), the video queue
  (`VideoQueue`), decoder control over an adversarial transform (`Decoder`,
  `DecoderSafety`, `DecoderRecovery`, `DecoderShows`, `DecoderTimes`, `DecoderDrains`), the
  whole way of a picture from sender to decoder (`Pipeline`), the adaptive hello
  (`AdaptiveHello`, `Config`) and session ownership across threads (`Ownership`).
- **Discovery.** The mDNS packet and an RFC 1035 reader for it (`Mdns`).

Objects of the source are classes; every method is proved equal to a function
of its inputs and old state, and the theorems are about runs of those functions.
`recv`, `send`, clocks, the Media Foundation transform, the window size and the
allocator are inputs, so each theorem holds for whatever they do. `Bytes` and
`Text` hold shared definitions, with 32-bit wrap-around written out as `Wrap32`.

`dafny verify dfyconfig.toml` checks the whole project.

## What the code does differently from its documentation

- **Compaction.** `Feed` moves the unread tail to the front of the buffer and
  then builds views at the old offsets (protocol/framing.cpp:53-59), although
  its contract says the views are valid until the next call
  (protocol/framing.h:57-59). The model follows the code: `FrameBuffer.Delivered` is
  what a caller reads. `FrameBuffer.DeliveryExactIff` gives the exact condition for one
  call and `FrameRuns.RunExactIff` for a run; `FrameBuffer.CompactionDamageExample` is a
  stream that is read wrongly. The wire theorem has a form for the stream itself
  (`WireDelivery.EveryCutting`) and one for the loop as written (`WireDelivery.LoopDeliversItems`).
- **Corrupt streams.** protocol/framing.cpp:42-43 says that frames extracted before an
  oversize length are still delivered; the session drops those of the same read
  (net/session.cpp:144-149). `WireDelivery.CorruptDeliversIff` says exactly when all are
  delivered, and `WireDelivery.CorruptCutting` shows one stream cut in two ways.
- **Length 0** is fatal according to protocol/framing.h:61 and accepted by the code; the
  code is followed.
- **Slice type.** `SliceType` reads the NAL header byte as slice data, contrary
  to section 7.3.3 of H.264. It therefore never reports 7 behind any header byte but 0x01
  (`SliceHeader.NeverSevenIff`). The keyframe test is the documented "SPS and IDR slice"
  (protocol/annexb.h:48) for every content behind given headers if and only if the answer is
  settled or no slice has that header (`AnnexB.DocumentedKeyframeIff`);
  `AnnexB.KeyframeWithoutIdr` gives payloads it answers wrongly, `AnnexB.KeyframeExample` one
  of twelve bytes.
- **Order.** net/session.h:26 says units stay in wire order; the code hoists the last SPS
  and the last PPS. `AnnexB.WireOrderKeptIff` says when that changes nothing, and
  `AnnexB.HoistedExample` is a payload that leaves in another order.
- **Session reuse.** `endedSession` is a raw address that is not cleared when another
  session is current. `Ownership.ReuseReapsLiveSession` is a run that reaps a
  reading session; until the main loop closes it a second one can deliver
  (`Ownership.ReuseMakesTwoLive`), and only until then (`Ownership.TwoLiveOnlyWhileReaping`).
  `Ownership.AlwaysSoundIff` is the exact condition over runs.
- **Minimizing** an adaptive window changes the wanted size without a pending
  hello: `AdaptiveHello.MinimizingUnsettles`.
- **Two hellos at once.** The accepting thread sends its hello and then notes its size
  (app/main.cpp:603-608) while the main loop may send another one (app/main.cpp:731-736).
  `AdaptiveHello.RaceMisleads` is a family of runs that leave the sender with the wrong
  size and nothing pending. `AdaptiveHello.AlwaysSaidIff` and `AdaptiveHello.AlwaysSettledIff`
  are the exact conditions over all interleavings.
- **Simulator overrun check.** The simulator's reader breaks off on some streams
  of legal frames: `SimReader.LargestFrameOverruns`, and exactly when by `SimReader.RunBreaksIff`.
- **Queue capacity** is 2 (app/video_queue.h:20), not 4 as in README.md:159; the theorems
  hold for every positive capacity.

## Model

| member | source | states |
|---|---|---|
| Framing.HeaderRead | protocol/framing.h:33-45 | reading a big-endian length returns the 32-bit number written, whatever bytes follow |
| Framing.HeaderWritten | protocol/framing.h:33-45 | writing the number read from four bytes gives those four bytes back |
| Framing.WriteInt32BE | protocol/framing.h:40-45 | the first four bytes become the base-256 digits of the number, most significant first; the rest stays |
| Framing.EncodeFrame | protocol/framing.cpp:8-13 | the frame is the 32-bit length prefix followed by the payload |
| Framing.SplitInvertsWire | protocol/framing.cpp:36-51 | payloads of at most 16 MiB, framed and followed by anything, split back into those payloads and then whatever the rest splits into |
| Framing.WireInvertsSplit | protocol/framing.cpp:36-51 | the frames found and the leftover tile any stream, and the leftover holds no further frame |
| Framing.SplitExtends | protocol/framing.cpp:25-62 | what was split off stays split off when bytes arrive later, and a rejected stream stays rejected with the same frames |
| Framing.ChunkingIrrelevant | protocol/framing.cpp:25-62 | frames, leftover and validity of any byte stream do not depend on how it was cut into reads |
| Framing.FramedStreamRoundTrip | protocol/framing.cpp:8-62 | any cutting of framed payloads of at most 16 MiB comes back as exactly those payloads with nothing buffered |
| Framing.FailurePoint | protocol/framing.cpp:40-46 | a bad stream fails exactly when the last byte of its oversize prefix has arrived |
| Framing.RejectionIsFinal | protocol/framing.cpp:40-46 | after an oversize prefix every later chunk is rejected and yields nothing |
| Framing.LeftoverBound | protocol/framing.cpp:47-48 | after a valid call fewer than 16 MiB + 4 bytes remain buffered |
| Framing.RejectedIff | protocol/framing.cpp:38-46 | a stream is rejected at its first frame exactly when its four length bytes spell more than 16777216 |
| FrameBuffer.FarPayloadExact | protocol/framing.cpp:53-60 | a payload that starts at or after the tail length is read exactly although the tail was moved first |
| FrameBuffer.DeliveryExactIff | protocol/framing.cpp:53-60 | callers see the right payloads for every content of a layout if and only if no non-empty payload starts below the tail length |
| FrameBuffer.ExposedIsDamaged | protocol/framing.cpp:53-60 | when a payload starts below the tail length some stream of that layout is read wrongly |
| FrameBuffer.ShortTailExact | protocol/framing.cpp:53-60 | a tail of at most four bytes never damages a payload |
| FrameBuffer.CompactionDamageExample | protocol/framing.cpp:53-60 | a concrete stream whose first payload is read with a byte of the tail |
| FrameBuffer.FrameDecoder.Feed | protocol/framing.cpp:25-62 | for any bytes, the call finds exactly the stream's frames and validity, keeps exactly its leftover, leaves the cursor at 0, and the buffer holds the compacted stream under a capacity that at most doubles or just fits |
| FrameBuffer.FrameDecoder.Extract | protocol/framing.cpp:36-51 | the extraction loop finds the payload positions and validity of the pure split and stops at its leftover |
| FrameBuffer.FrameDecoder.Append | protocol/framing.cpp:30-34 | buffered bytes are kept and the new ones follow them, growing the buffer when needed |
| FrameBuffer.FrameDecoder.Compact | protocol/framing.cpp:53-56 | the unread tail moves to the front and no other byte changes |
| FrameBuffer.FrameDecoder.Reset | protocol/framing.cpp:20-23 | nothing is buffered afterwards |
| FrameBuffer.FrameDecoder.BufferedBytes | protocol/framing.h:67 | the number of bytes kept for the next call |
| FrameBuffer.CapacityBound | protocol/framing.cpp:30-34 | on a valid stream cut into chunks of at most C bytes the capacity stays below 2 (16 MiB + 3 + C) |
| FlatJson.ValueFound | protocol/control.cpp:17-26 | in a flat object with distinct keys, quote-free strings and no string value equal to the key, with any whitespace between tokens, the search ends at that key's value |
| Control.FindValueStart | protocol/control.cpp:17-26 | the scan returns the position after the first colon behind the quoted key and after whitespace, or -1 |
| Control.StringReadBack | protocol/control.cpp:28-35 | every string field of a flat object is read back by its key, whatever whitespace separates any two tokens |
| Control.NumberReadBack | protocol/control.cpp:37-46 | every integer field is read back by its key as the double nearest to it, and exactly up to 2^53 in magnitude |
| Numerals.NumeralBehind | protocol/control.cpp:43-44 | the number reader looks no further than the end of the numeral, whatever follows it |
| Numerals.LiteralsAbsent | protocol/control.cpp:43-45 | true, false and null are not numbers |
| Numerals.NamesRead | protocol/control.cpp:43-44 | texts that begin with inf or nan, in any case, are infinity and not a number |
| Numerals.FractionRead | protocol/control.cpp:43-44 | digits around a point are read as the double nearest to that decimal |
| Numerals.ExponentRead | protocol/control.cpp:43-44 | digits and an exponent are read as the double nearest to their product with that power of ten |
| Doubles.NearestMonotone | protocol/control.cpp:43-45 | a larger number is never read as a smaller double |
| Doubles.WholeExact | protocol/control.cpp:43-45 | integers up to 2^53 in magnitude are read exactly |
| Doubles.ReadInRange | protocol/control.cpp:43-45 | numbers from 0.01 to 2^53 are in range, and the double read differs by at most one part in 2^53 |
| Doubles.TieToEven | protocol/control.cpp:43-45 | halfway between two doubles the even one is read |
| Doubles.OutOfRange | protocol/control.cpp:43-45 | numbers of 2^1024 and more count as missing |
| Numerals.FormatRead | protocol/control.cpp:55-67 | a printed double is read back exactly when it is whole and below 10^15, and otherwise as the double nearest to its hundredths |
| Numerals.PrintedClose | protocol/control.cpp:55-67 | what is read back differs from a printed double by at most half a hundredth and one rounding |
| Numerals.WholeText | protocol/control.cpp:55-62 | whole numbers below 10^15 are printed without a point |
| Numerals.PointText | protocol/control.cpp:63-66 | other numbers are printed with two decimals |
| ControlObjects.FieldRead | protocol/control.cpp:28-53 | in any flat object of strings, numbers and literals each lookup finds that object's own field of the right kind, and nothing for a literal or a key it does not have |
| ControlObjects.MissingKey | protocol/control.cpp:17-20 | the search fails for every key the object does not have, unless some string value is that text |
| ControlObjects.PongRead | protocol/control.cpp:128-133 | a pong in any field order and spacing carries its own t and mt |
| ControlObjects.PingRead | protocol/control.cpp:134-141 | a ping in any field order and spacing carries its own drops, pending and capFps |
| ControlObjects.WelcomeRead | protocol/control.cpp:142-145 | a welcome carries its own pv and min, each 1 when missing |
| ControlObjects.UpdateRequiredRead | protocol/control.cpp:146-150 | an update request carries its own target, store and message, each empty when missing |
| ControlObjects.StreamConfigRead | protocol/control.cpp:151-156 | a stream configuration carries its own codec, size and rate, or their defaults |
| ControlObjects.OtherKindsRead | protocol/control.cpp:157-163 | cursor messages carry nothing and every other kind is unknown |
| ControlObjects.NoTypeRead | protocol/control.cpp:121-125 | an object without a text as its type is no message |
| ControlObjects.NoObjectRead | protocol/control.cpp:120-121 | neither is a text that is not in braces |
| ControlObjects.WholeIff | protocol/control.cpp:48-53 | a number counts as an integer exactly when it is finite and below 10^9 in magnitude, with its fraction cut off |
| Control.TypeFirst | protocol/control.cpp:118-127 | a message that starts with its type is parsed to that type, whatever follows |
| ControlBuilders.BuiltObject | protocol/control.cpp:56-114 | what a builder writes is the flat object of its type and its fields |
| ControlBuilders.PongReadBack | protocol/control.cpp:94-97 | the pong parses back to both its clock readings, each as the nearest double |
| ControlBuilders.HelloRead | protocol/control.cpp:72-88 | the hello's sizes, scale, rate, device and identifiers are each read back, the scale as printed and the absent ones as absent |
| ControlBuilders.PingRead | protocol/control.cpp:90-92 | the ping's time is read back exactly up to 2^53 and as the nearest double beyond |
| ControlBuilders.TouchRead | protocol/control.cpp:99-102 | the touch message's phase is read back, and both coordinates as printed |
| ControlBuilders.ScrollRead | protocol/control.cpp:104-107 | both deltas of the scroll message are read back as printed |
| Control.BuildKeyframeRequest | protocol/control.h:53 | the keyframe request parses back to type kf |
| Control.BuildClosing | protocol/control.h:54 | the closing message parses back to type closing |
| Control.BuildSleeping | protocol/control.h:55 | the sleeping message parses back to type sleeping |
| ControlBuilders.StatsRead | protocol/control.cpp:109-114 | the transport and all five figures of the statistics are read back |
| Telemetry.ScanNumber | protocol/annexb.cpp:13-33 | the scanner loop computes the signed 64-bit number behind the key, or -1 when it is absent or does not fit |
| Telemetry.ParseTelemetry | protocol/annexb.cpp:63-70 | capture and send time are the cap and snd numbers, both -1 without a prefix |
| Telemetry.NumberReadBack | protocol/annexb.cpp:13-33 | every 64-bit integer field of a flat object is read back by its key |
| Telemetry.NumberTooLarge | protocol/annexb.cpp:13-33 | an integer outside 64 bits counts as -1 |
| ControlObjects.TelemetryMissing | protocol/annexb.cpp:13-33 | a key the object does not have counts as -1 |
| Telemetry.TelemetryReadBack | protocol/annexb.cpp:63-70 | any pair of 64-bit times written as the telemetry object is read back |
| Demux.VideoIsNeverControl | protocol/demux.cpp:5-11 | a payload that parses to a non-empty picture is never taken for control JSON |
| SliceHeader.SliceType | protocol/annexb.cpp:37-59 | the two-code reader, with its limit of 24 zeros and its reads past the end as -1, follows its specification |
| SliceHeader.SecondCodeRead | protocol/annexb.cpp:37-59 | the result is the second of the codes the unit's bytes begin with, when that is 0 to 9 |
| SliceHeader.TooManyZeros | protocol/annexb.cpp:37-59 | a 25th zero is undecodable |
| SliceHeader.OtherHeaderNeverSeven | protocol/annexb.cpp:37-59 | for a type 1 unit behind any header byte but 0x01 the result is never 7, whatever the contents |
| SliceHeader.NeverSevenIff | protocol/annexb.cpp:37-59 | a type 1 header byte excludes 7 for all contents if and only if it is not 0x01 |
| SliceHeader.NonReferenceSliceCanBeSeven | protocol/annexb.cpp:37-59 | a concrete non-reference unit is read as slice type 7 |
| AnnexB.FindStarts | protocol/annexb.cpp:79-88 | the jumping scan lists the positions of the specification |
| AnnexB.StartsSound | protocol/annexb.cpp:79-88 | every listed position lies behind a start code, in increasing order without overlap |
| AnnexB.StartsComplete | protocol/annexb.cpp:79-88 | no start code is missed although the scan jumps over each match |
| AnnexB.PiecesTile | protocol/annexb.cpp:98-101 | the pieces between start codes, serialised again, are the payload |
| AnnexB.PiecesClean | protocol/annexb.cpp:98-101 | no piece holds a start code |
| AnnexB.PiecesInvertSerialize | protocol/annexb.cpp:79-101 | splitting inverts serialising for every list of pieces without start codes, behind any clean prefix |
| AnnexB.SplitJoin | protocol/annexb.cpp:79-101 | a payload is a clean prefix followed by clean units in exactly one way |
| AnnexB.PieceBounds | protocol/annexb.cpp:98-101 | piece k lies between start codes k - 1 and k, or at the ends of the payload |
| AnnexB.ParseAnnexB | protocol/annexb.cpp:72-111 | for every payload the loop yields the prefix, its times, the last SPS, the last PPS and all other non-SEI units in order |
| Payloads.ParsedByType | protocol/annexb.cpp:90-109 | by header bytes: units behind a prefix are parsed to the last of type 7, the last of type 8 and all others but type 6, in order, with the prefix's cap and snd |
| Payloads.FlaggedByType | protocol/annexb.cpp:113-121 | without a header 0x01 the keyframe flag is set exactly when some unit has type 7 and some has type 5 |
| Payloads.PictureHandedOn | net/session.cpp:161-195 | such a payload causes one video callback whose bytes, parameter sets, times, clock and keyframe flag are spelled out from the units |
| Payloads.EmptyPictureDropped | net/session.cpp:162-167 | a payload with neither an SPS nor a slice causes no callback |
| Payloads.ControlHandedOn | net/session.cpp:151-160 | below 32768 bytes, braced and without NUL, a payload causes its control callback when it parses and nothing otherwise |
| Payloads.OthersAreVideo | protocol/demux.cpp:5-11 | any other payload never causes a control callback |
| Payloads.EachAtItsClock | net/session.cpp:150-195 | of the items handed on in one read the i-th causes one event, with the i-th reading of the clock |
| AnnexB.IsKeyframe | protocol/annexb.cpp:113-121 | the loop answers whether there is an SPS and some key slice |
| AnnexB.KeyframeIsSpsAndIdr | protocol/annexb.cpp:113-121 | without a slice behind header 0x01 a keyframe is exactly an SPS together with an IDR slice |
| AnnexB.DocumentedKeyframeIff | protocol/annexb.h:48 | the flag is the documented test for every content behind a picture's headers if and only if there is no SPS, or an IDR slice, or no slice behind header 0x01 |
| AnnexB.HeaderOneMisleads | protocol/annexb.cpp:113-121 | behind header 0x01 some content makes a picture with an SPS and no IDR slice a keyframe |
| AnnexB.KeyframeWithoutIdr | protocol/annexb.cpp:113-121 | any SPS followed by one three-byte slice is parsed to a keyframe without an IDR slice |
| AnnexB.KeyframeExample | protocol/annexb.cpp:113-121 | twelve concrete bytes are such a payload |
| AnnexB.NormalForm | net/session.cpp:174-190 | parsing the re-serialised bytes of any payload gives the same SPS, PPS, slices and keyframe flag |
| AnnexB.WireOrderKeptIff | net/session.cpp:174-190 | the re-serialised bytes are the payload without telemetry, SEI and empty units if and only if at most one SPS and then at most one PPS come first |
| AnnexB.HoistedExample | net/session.cpp:174-190 | ten concrete bytes, a slice before an SPS, leave with the SPS first |
| Rbsp.StripEmulationPrevention | protocol/sps.cpp:19-33 | the loop drops the header byte and every 3 behind two or more kept zeros |
| Rbsp.StripEscape | protocol/sps.cpp:19-33 | stripping inverts the escaping of section 7.4.1 of H.264 for every RBSP |
| Rbsp.NaluClean | protocol/annexb.cpp:79-88 | an escaped NAL unit holds no start code, whatever its header and contents |
| Rbsp.EscapeSplitStrip | protocol/annexb.cpp:79-109 | any list of headers and RBSPs, escaped and serialised behind a clean prefix, is split into exactly those units and stripped to exactly those RBSPs |
| Rbsp.StripExtends | protocol/sps.cpp:19-33 | more input never changes what was already stripped |
| ExpGolomb.BitReader.Bit | protocol/sps.cpp:58-64 | the byte and shift arithmetic yields the next bit of the sequence and fails only at the end |
| ExpGolomb.BitReader.ReadU | protocol/sps.cpp:39-43 | the loop reads an n-bit number or fails exactly when bits run out |
| ExpGolomb.BitReader.ReadUe | protocol/sps.cpp:44-51 | the loop reads the ue code of the specification, with its limit of 32 zeros and 32-bit wrap-around |
| ExpGolomb.BitReader.ReadSe | protocol/sps.cpp:52-55 | the signed code is mapped with truncating division |
| ExpGolomb.UeRoundTrip | protocol/sps.cpp:44-51 | the code of every value with at most 30 leading zeros is read back, wherever it stands |
| ExpGolomb.LongRoundTrip | protocol/sps.cpp:44-51 | the code of every value with at most 32 leading zeros is read back, wrapped to 32 bits |
| ExpGolomb.TooManyZeros | protocol/sps.cpp:44-51 | a 33rd zero is a failure |
| ExpGolomb.SeRoundTrip | protocol/sps.cpp:52-55 | the signed code of every value up to 2^30 - 1 in magnitude is read back |
| ExpGolomb.URoundTrip | protocol/sps.cpp:39-43 | a fixed-length number of up to eight bits is read back |
| Sps.SkipScalingList | protocol/sps.cpp:69-76 | the loop consumes exactly the deltas the specification reads, stopping once the next scale is 0 |
| Sps.ReadChroma | protocol/sps.cpp:90-102 | the chroma section is read as specified, with 8 or 12 optional scaling lists |
| Sps.SkipOffsets | protocol/sps.cpp:113 | the loop over a count from the stream ends, with the unread bits as its measure |
| Sps.SkipPicOrder | protocol/sps.cpp:105-117 | each of the three picture order count types consumes its own elements |
| Sps.ReadPicture | protocol/sps.cpp:119-133 | the size, field and crop elements are read as specified |
| Sps.ParseSpsDimensions | protocol/sps.cpp:80-150 | the whole parser returns the size the specification gives, or nothing for short, truncated or empty pictures |
| SpsSyntax.AcceptedSize | protocol/sps.cpp:80-150 | what is accepted has at least four bytes and announces positive sizes |
| SpsSyntax.SizeIsCropped | protocol/sps.cpp:135-145 | within 32 bits the code's crop arithmetic is the cropped size of section 7.4.2.1.1 of H.264 |
| SpsSyntax.ProfilesAgree | protocol/sps.cpp:9-15 | the parser expects chroma fields in exactly the profiles of section 7.3.2.1.1 of H.264 that write them |
| SpsSyntax.SpsRoundTrip | protocol/sps.cpp:80-150 | every well-formed SPS of any profile, with any scaling lists, picture order type, crop and field flags, printed, escaped and put behind any header, is parsed to exactly its cropped size, whatever bits follow |
| SpsPrefix.AppendedBytesIgnored | protocol/sps.cpp:80-150 | any bytes behind an accepted SPS leave the result unchanged |
| SpsPrefix.OffsetWorkBounded | protocol/sps.cpp:113 | whatever count the stream claims, the offset loop reads at most once per unread bit and once more |
| Session.Session.ReadLoop | net/session.cpp:102-214 | for every history of recv results and clock readings, one per frame included, the loop causes exactly the specified pings, callbacks and close |
| Session.Session.TakeData | net/session.cpp:137-195 | one read is noted, fed to the decoder and handed on frame by frame, unless the stream turned corrupt |
| Session.Session.HandFrames | net/session.cpp:150-195 | the payloads visible through the decoder's views are dispatched in order |
| Session.Session.HandPayload | net/session.cpp:151-194 | a payload becomes a control callback, a video callback or nothing |
| Session.MakeSample | net/session.cpp:168-190 | the sample's bytes are the serialised SPS, PPS and slices, and its fields come from the parsed picture |
| WireDelivery.BuiltDeliverable | net/session.cpp:151-154 | every parseable message text below 32768 bytes and without NUL is taken for control and parsed as itself |
| WireDelivery.EveryCutting | protocol/framing.cpp:25-62 | any interleaving of parseable control payloads and pictures with a slice or SPS, framed and cut anyhow, splits into payloads whose dispatch is exactly their callbacks in send order |
| WireDelivery.LoopDelivers | net/session.cpp:102-214 | for every history, however it ends, the loop hands on every payload its decoder shows before the ending turn, in order, and nothing else |
| WireDelivery.ReadsBeforeEnd | net/session.cpp:102-214 | when turn k ends the loop, what it took in are the data of the turns before k |
| FrameRuns.CleanReadsExact | protocol/framing.cpp:53-60 | if no read exposes a payload the decoder shows exactly the stream's payloads |
| FrameRuns.RunExactIff | protocol/framing.cpp:53-60 | over a run of reads the decoder shows the stream's payloads for every content of that layout if and only if no read exposes a payload |
| WireDelivery.LoopDeliversItems | net/session.cpp:102-214 | over any history whose reads are a first part of the items' wire and expose no payload, the callbacks are the first of the items' callbacks in send order, and all of them once everything was read |
| WireDelivery.EndedLoopDelivered | net/session.cpp:102-214 | a session that ends after all items were read, by a close, the end of the stream or a timeout, has delivered them all |
| WireDelivery.CorruptDeliversIff | net/session.cpp:144-149 | a session that ends at an oversize length has delivered every frame before it if and only if the failing read itself brought none that causes a callback |
| WireDelivery.CorruptCutting | net/session.cpp:144-149 | before an oversize length, frames of an earlier read are delivered and the same frames in the failing read are not |
| SessionClock.TimeoutCloses | net/session.cpp:124-132 | a loop that times out reports an unclean close last |
| SessionClock.LiveSessionKept | net/session.cpp:124-139 | a session whose observed data gaps stay within 5000 ms never times out |
| SessionClock.SilentSessionEnds | net/session.cpp:124-132 | a session that receives nothing more ends within 5000 ms plus one wake-up of its last data |
| SessionClock.EndIsFinal | net/session.cpp:102-214 | after the turn that ends the loop nothing happens, and the close is its last event |
| SessionClock.CloseReason | net/session.cpp:102-214 | the close is clean exactly when the session was closed here or the stream ended within 5000 ms of its last data |
| SessionClock.GoesOnIff | net/session.cpp:102-214 | a turn ends the loop exactly for one of five reasons |
| SessionClock.PingsPaced | net/session.cpp:133-136 | consecutive pings are between 2000 ms and 2000 ms plus one wake-up apart, from the start of the session |
| ControlSender.Sender.SendControl | net/session.cpp:64-83 | the partial-send loop puts exactly the sent part of one frame on the wire and reports success only for the whole |
| ControlSender.CutFrame | net/session.cpp:70-81 | a frame that was cut off carries no payload |
| ControlSender.SentIff | net/session.cpp:64-83 | a call succeeds exactly when the session is open and the sends take in the payload and its four bytes of length; otherwise the session is closed |
| ControlSender.PeerGetsReported | net/session.cpp:64-83 | over all calls of all threads the peer finds exactly the payloads whose calls returned true, in order |
| VideoQueue.VideoQueue.Push | app/video_queue.h:26-37 | the frame joins the queue, the oldest leaves when it is full, and the result tells whether one was dropped |
| VideoQueue.VideoQueue.PopWait | app/video_queue.h:40-50 | a wait returns and removes the oldest frame, or nothing when there is none |
| VideoQueue.VideoQueue.Shutdown | app/video_queue.h:52-58 | only the shutdown flag changes |
| VideoQueue.ContentsAreNewest | app/video_queue.h:26-58 | in every interleaving the contents are a contiguous suffix of all pushes and never more than the capacity |
| VideoQueue.NothingLost | app/video_queue.h:26-58 | in every interleaving pushed = taken + dropped + queued |
| VideoQueue.CompleteIff | app/video_queue.h:26-58 | in every interleaving the frames taken and those still queued are all that were pushed, in order, if and only if none was dropped |
| VideoQueue.TakenInOrder | app/video_queue.h:26-58 | in every interleaving frames come out strictly in push order, and each was among the capacity newest when it was taken |
| VideoQueue.ShutdownDrains | app/video_queue.h:40-58 | after shutdown the remaining frames come out in order, then nothing |
| Pipeline.RunParsed | net/session.cpp:168-195 | every sample a session hands to its video callback was made of a parsed picture |
| Pipeline.DecodeThreadLegal | app/main.cpp:510-516 | whatever the sessions' read threads push and the queue drops, every prefix of the decoder's run is legal |
| Pipeline.PicturesReachDecoder | app/main.cpp:510-516 | when no read exposes a payload and the queue drops nothing, the decoder is offered the first of the sent pictures in send order, and all of them once everything was read, pushed and taken |
| Pipeline.KeyframePayloadBuilds | video/h264_decoder.cpp:306-352 | a payload with an SPS and an IDR slice makes a decoder without a transform build one for its last parameter sets and feed it the sample |
| Decoder.H264Decoder.ResetMft | video/h264_decoder.cpp:38-44 | the transform, the visible size and the timestamp queue are gone; parameter sets and request clock stay |
| Decoder.H264Decoder.RequestKeyframe | video/h264_decoder.cpp:46-54 | a request goes out and is remembered only 500 ms after the last |
| Decoder.H264Decoder.PublishNv12 | video/h264_decoder.cpp:145-207 | a frame takes the oldest timestamp, a drifted queue is dropped, and only a complete buffer is published, cropped to the visible size |
| Decoder.H264Decoder.DrainOutput | video/h264_decoder.cpp:254-304 | whenever some answer ends the loop, it stops at the first such one, and publishes what the transform gave until it needed input, failed or changed to an unusable format |
| DecoderDrains.DrainStops | video/h264_decoder.cpp:254-304 | with finitely many format changes and no more pictures than units accepted and unanswered, some answer ends the loop within that many changes and units |
| DecoderDrains.SubmitBalance | video/h264_decoder.cpp:306-352 | one Submit calls ProcessOutput at most once for each format change and unanswered unit and three times more, less the units it leaves unanswered |
| DecoderDrains.RunCallsBounded | video/h264_decoder.cpp:209-304 | over every run of such a transform the calls of ProcessOutput are at most the format changes and three for each Submit |
| Decoder.H264Decoder.FeedAccessUnit | video/h264_decoder.cpp:209-252 | an accepted unit joins the timestamp queue and is drained, also after a refused first attempt |
| Decoder.H264Decoder.Submit | video/h264_decoder.cpp:306-352 | for every answer of the transform the object's state and events are those of the specified step |
| DecoderRecovery.ReadyIff | video/h264_decoder.cpp:306-352 | after a Submit there is a transform exactly when one was fed and neither allocation, the last ProcessInput nor a drain failed |
| DecoderRecovery.SubmitSums | video/h264_decoder.cpp:306-352 | from the transform's answers: exactly when a Submit builds, resets, feeds, has the unit accepted and asks for a keyframe, the last whenever no working transform is left and 500 ms have passed |
| DecoderRecovery.SetsRemembered | video/h264_decoder.cpp:313-337 | the remembered parameter sets are those of the last keyframe a transform was built for |
| DecoderRecovery.FailureRecovers | video/h264_decoder.cpp:347-351 | in every run a Submit that feeds and meets any failure leaves no transform, and the next unit fed is a keyframe behind a newly built one |
| DecoderShows.SubmitShows | video/h264_decoder.cpp:145-207 | a Submit that feeds shows every complete picture the transform gave before its drains ended, in order, and no other |
| DecoderShows.SubmitCropped | video/h264_decoder.cpp:340-346 | each axis of a shown frame less its crop is the last size its transform's keyframes announced, when that is positive and fits, and the coded size otherwise |
| DecoderShows.StampTaken | video/h264_decoder.cpp:160-173 | a picture takes the oldest times, and never more than 64 stay queued behind it |
| DecoderSafety.EveryRunLegal | video/h264_decoder.cpp:306-352 | in every run each transform is fed a keyframe first, keyframes only reach a transform built for their SPS and PPS, and after a failed feed nothing is fed before a rebuild at a keyframe |
| DecoderSafety.SessionSamplesOk | net/session.cpp:168-173 | every keyframe sample the session makes carries an SPS |
| DecoderSafety.RequestsApart | video/h264_decoder.cpp:46-54 | over every run keyframe requests are at least 500 ms apart |
| DecoderTimes.FramesCarryTheirTimes | video/h264_decoder.cpp:160-173 | at every moment of a run in which the transform so far gave at most one usable in-order output per unit and held at most 64, the i-th frame since a reset carries the times of the i-th accepted unit, also inside a feed that fails later and across refused inputs |
| DecoderTimes.QueueAlwaysNewest | video/h264_decoder.cpp:160-173 | whatever the transform does, the timestamp queue holds the newest accepted units in order |
| Config.ParseConfig | app/config.cpp:34-80 | the line loop applies each line's effect in its section and warns of each faulty one |
| Config.LastValidWins | app/config.h:26-27 | each field has the last valid value the file gives it, and its default if there is none |
| Config.FaultReported | app/config.h:26-27 | there are as many warnings as faulty lines, each with its own line number, in order |
| Config.SwitchWords | app/config.cpp:26-30 | true and 1 switch on, false and 0 switch off |
| Config.SwitchFault | app/config.cpp:26-30 | any other word for a switch is an invalid value |
| Config.RangeFault | app/config.cpp:56-71 | an integer out of its setting's range, or odd as a size, is an invalid value |
| Config.NumberFault | app/config.cpp:19-24 | so is what is no integer |
| Config.NoInteger | app/config.cpp:19-24 | a text with anything but digits behind an optional sign is no integer |
| Config.UnknownFault | app/config.cpp:72-75 | any other section and key is an unknown setting |
| Config.CommentLine | app/config.cpp:42-43 | lines that start with ; or # have no effect |
| Config.BlankLine | app/config.cpp:42-43 | nor do empty lines |
| Config.SectionEntered | app/config.cpp:44-47 | a bracketed name enters its section whatever whitespace surrounds it |
| Config.NoEqualsFault | app/config.cpp:48-52 | any other line without an equals sign is faulty as such |
| Config.EmptyFile | app/config.h:9-15 | an empty file gives the documented defaults |
| Config.LastLineRead | app/config.cpp:39 | the last line needs no newline |
| Config.AdaptiveSize | app/config.cpp:82-90 | from 320x240 on each axis is the largest even number up to the window's and 8192, and below the configured size is kept |
| Config.SettingLine | app/config.cpp:42-54 | a key and value are read from their line whatever whitespace surrounds them |
| Config.ConfigReadBack | app/config.cpp:34-80 | a file that sets everything to usable values gives exactly that configuration without a warning |
| Config.NumberRead | app/config.cpp:19-24 | every 32-bit integer in decimal is read back |
| Config.LinesWritten | app/config.cpp:39 | lines written with newlines are the lines read |
| Config.AnySizeEncodable | app/config.cpp:34-90 | for any configuration text and any window, configured and adaptive size are even and within 320-8192 by 240-8192 |
| AdaptiveHello.App.HelloSize | app/main.cpp:698-709 | the size is the configured one, or in adaptive mode the one derived from the client area |
| AdaptiveHello.App.OnSize | app/main.cpp:243-252 | only a visible, non-empty window in adaptive mode starts the debounce |
| AdaptiveHello.App.InstallSession | app/main.cpp:597-601 | the new session is there and has been told nothing yet |
| AdaptiveHello.App.MeasureHello | app/main.cpp:603-604 | the accepting thread takes the size wanted at this moment |
| AdaptiveHello.App.SendHello | app/main.cpp:605-606 | that size is said |
| AdaptiveHello.App.StoreHello | app/main.cpp:607-608 | that size is remembered, whatever was remembered meanwhile |
| AdaptiveHello.App.OnAccept | app/main.cpp:597-608 | with nothing between its steps a new session is told the wanted size, which is remembered |
| AdaptiveHello.App.MaybeSendResizeHello | app/main.cpp:711-738 | the tick's early returns, its hello and its new clocks follow the specified step |
| AdaptiveHello.WantedSize | app/main.cpp:698-709 | without adaptive mode or for a small window the configured size is wanted, otherwise the largest even one in the window |
| AdaptiveHello.ResizeNoted | app/main.cpp:243-252 | a resize starts the debounce exactly for a visible, non-empty window in adaptive mode |
| AdaptiveHello.TickSaysIff | app/main.cpp:711-738 | a tick says a hello exactly when a resize is 500 ms old, the wanted size is not the one said last, 20000 ms have passed and there is a session |
| AdaptiveHello.TickLeaves | app/main.cpp:711-738 | it is done with the resize when the size was said already or 20000 ms have passed, session or not |
| AdaptiveHello.HellosPaced | app/main.cpp:711-738 | over every run adaptive hellos are at least 20000 ms apart and at least 500 ms after every resize before them |
| AdaptiveHello.StaysSettled | app/main.cpp:711-738 | over every interleaving with noted resizes and no racing tick, a session with no pending resize has been told the wanted size |
| AdaptiveHello.SettledIff | app/main.cpp:243-252 | one step loses that exactly when the window changes the wanted size unnoted, or a tick is done with a resize while the accepting thread still holds the size from before it |
| AdaptiveHello.AlwaysSettledIff | app/main.cpp:597-738 | over every interleaving it holds throughout if and only if no step is such a change or tick |
| AdaptiveHello.MinimizingUnsettles | app/main.cpp:243-252 | a concrete run in which minimizing leaves told and wanted size different |
| AdaptiveHello.SaidIff | app/main.cpp:603-608 | a step keeps the remembered size the newest hello's unless a tick says another size between the accepting thread's hello and its note |
| AdaptiveHello.AlwaysSaidIff | app/main.cpp:603-738 | over every interleaving it holds throughout if and only if no tick does that |
| AdaptiveHello.LastHelloSaid | app/main.cpp:603-608 | without such a tick the remembered size is the one the newest hello carried |
| AdaptiveHello.RaceMisleads | app/main.cpp:603-738 | for any two window sizes with different displays, a run after which the sender has the wrong one, nothing is pending and the note agrees with the window |
| AdaptiveHello.AnnouncedInTime | app/main.cpp:711-738 | after the last resize at T the wanted size is announced by max(T + 500, last + 20000) plus one tick |
| AdaptiveHello.EverySizeEncodable | app/main.cpp:698-709 | every size ever announced is even and within 320-8192 by 240-8192, for any configuration text |
| Ownership.App.TakeCurrent | app/main.cpp:541-545 | the accepting thread remembers the current session |
| Ownership.App.CloseReplaced | app/main.cpp:546-550 | the remembered session is closed |
| Ownership.App.Install | app/main.cpp:595-600 | a new session becomes current; the ended one stays recorded |
| Ownership.App.Start | app/main.cpp:601 | the new session's read loop begins |
| Ownership.App.FinishAccept | app/main.cpp:602-610 | the accepting thread lets go of the new session, and closes it if nobody else holds it |
| Ownership.App.OnClosed | app/main.cpp:584-594 | a read loop that ended records its session only if it is still current |
| Ownership.App.ReapEndedSession | app/main.cpp:612-620 | the current session moves to the main loop's reference exactly when it sits at the recorded address |
| Ownership.App.DropReaped | app/main.cpp:621 | that reference is dropped, which closes the session unless another thread holds it |
| Ownership.StepSound | app/main.cpp:539-622 | every step of every thread keeps: only the current session can still deliver, and it is recorded exactly when its loop is done, unless an install lands on the recorded address |
| Ownership.OneLiveSession | app/main.cpp:539-622 | in every interleaving at most one session is both unclosed and still reading |
| Ownership.ReapRemovesTheDone | app/main.cpp:612-622 | in every interleaving the next reap, once the main loop is through with the one before, removes the current session if and only if its read loop is done |
| Ownership.InstallSoundIff | app/main.cpp:595-600 | installing keeps the session state sound if and only if the address is not the recorded one |
| Ownership.AlwaysSoundIff | app/main.cpp:539-622 | a run keeps the session state sound throughout if and only if no install lands on the recorded address |
| Ownership.ReuseReapsLiveSession | app/main.cpp:597-622 | a possible run in which a freed address is used again and the next reap removes a reading session |
| Ownership.ReuseMakesTwoLive | app/main.cpp:539-622 | that run goes on to two sessions that are both unclosed and reading, until the main loop closes the one it reaped |
| Ownership.TwoLiveOnlyWhileReaping | app/main.cpp:539-622 | in every interleaving, wherever the allocator puts sessions, two can deliver only while one of them is reaped and not yet closed |
| SimSender.SplitNalus | tools/sim_sender.py:75-91 | the ranges are the non-empty pieces of the file, in order |
| SimSender.BuildAccessUnits | tools/sim_sender.py:101-113 | the grouping loop follows its specification |
| SimSender.SendVideo | tools/sim_sender.py:135-142 | the payload is the telemetry followed by the file from the first start code to the last byte of the unit |
| SimSender.UnitsPartition | tools/sim_sender.py:101-113 | each access unit ends in its only slice, and the units followed by the sliceless rest are the file's NAL units |
| SimSender.BlobUnits | tools/sim_sender.py:135-142 | the bytes sent for consecutive NAL units are those units serialised, give or take empty ones |
| SimSender.UnitReceived | tools/sim_sender.py:135-142 | behind any clean telemetry the receiver parses a unit to exactly its slices and times, and never to an empty picture |
| SimSender.FileReceived | tools/sim_sender.py:75-142 | sending every unit yields, concatenated, exactly the file's NAL units that are neither SEI, SPS nor PPS, up to those behind the last slice |
| SimSender.TelemetryClean | tools/sim_sender.py:141 | the telemetry a sender writes holds no start code and reads back |
| SimSender.UnitDeliverable | tools/sim_sender.py:135-142 | every unit of legal size behind clean telemetry is an item of the wire theorems whose callback is the picture the receiver parses |
| SimSender.FileDelivered | tools/sim_sender.py:75-142 | the units of a file sent in order and cut anyhow cause, when no read exposes a payload, exactly one video callback each, in file order |
| SimReader.FrameReader.PollFrame | tools/sim_sender.py:51-72 | the polling loop follows its specification for every sequence of recv results |
| SimReader.PollAgrees | tools/sim_sender.py:51-72 | a poll takes exactly the first frame of the stream, or finds none yet, or breaks off for one of three reasons |
| SimReader.OneRecv | tools/sim_sender.py:51-72 | without a complete frame a timeout gives none yet, a closed peer or an overrun breaks off, and data are looked at again |
| SimReader.FrameFirst | tools/sim_sender.py:55-64 | a complete frame is returned before anything is received |
| SimReader.PollsSplitStream | tools/sim_sender.py:51-72 | however it polls and the bytes arrive, the reader returns the frames the receiver's decoder splits off |
| SimReader.OverrunIff | tools/sim_sender.py:70-72 | on a buffer without a complete frame new data breaks the reader off if and only if the buffer then exceeds 16 MiB + 8 bytes |
| SimReader.RunBreaksIff | tools/sim_sender.py:51-72 | a run of polls over a valid stream breaks off if and only if some recv it made, with what the last complete frame left behind, exceeds 16 MiB + 8 bytes |
| SimReader.LargestFrameOverruns | tools/sim_sender.py:70-72 | it breaks off whenever the last byte of a 16 MiB frame arrives together with a next frame |
| Mdns.EncodeName | net/mdns_advertise.cpp:51-63 | the loop writes each dotted part behind its length byte, then the root |
| Mdns.Packet.PutU16 | net/mdns_advertise.cpp:44-47 | two bytes are appended, high byte first |
| Mdns.Packet.AppendRecord | net/mdns_advertise.cpp:73-84 | name, type, class, lifetime, length and data are appended |
| Mdns.NameReadBackIff | net/mdns_advertise.cpp:51-63 | an RFC 1035 reader gets a name's labels back, whatever follows, if and only if each has 1 to 63 bytes and the whole at most 255 |
| Mdns.LabelsOfDotted | net/mdns_advertise.cpp:51-63 | the labels of a name are the dot-free parts it was joined from |
| Mdns.RecordReadBack | net/mdns_advertise.cpp:73-84 | a record is read back with its name, type, class, lifetime and data, whatever follows |
| Mdns.BuildAnnouncement | net/mdns_advertise.cpp:170-213 | the packet is the header followed by the PTR, SRV, TXT and A records |
| Mdns.TxtReadBackIff | net/mdns_advertise.cpp:194-202 | two TXT strings are read back if and only if each has at most 255 bytes |
| Mdns.InstanceReadableIff | net/mdns_advertise.cpp:180-183 | a dot-free instance name is read back from the PTR record if and only if it has 1 to 63 bytes |
| Mdns.AnnouncementReadBack | net/mdns_advertise.cpp:170-213 | for a dot-free instance name of 1 to 63 bytes and TXT strings of at most 255, a reader finds exactly four records, uses every byte, and their data are the instance, 0, 0, the port and the host, the id and version, and the address |
| Mdns.AnnouncementSays | net/mdns_advertise.cpp:170-213 | the four records spelled out: names, types, flush bits, lifetimes and data, the address byte by byte |
| Mdns.HostWithoutSpaces | net/mdns_advertise.cpp:160-168 | the host is the instance with each space left out, or opendisplay when nothing else is there |

## Left out

- Winsock, Media Foundation, Direct3D, window and COM calls: `recv`, `send`, clocks, the transform and the window are step inputs.
- render/renderer.cpp and the mapping of mouse positions to touch coordinates: foreign calls and floating-point letterboxing.
- Control.FindNumber: the sign of zero and the digits of a NaN are not kept; numbers given to the builders are finite.
- Numerals.FormatNumber: printf rounds a decimal tie to even, as C does by default.
- WireDelivery.LoopDeliversItems: asks that no read leaves a tail reaching back into a payload, because the code damages such payloads; `FrameRuns.RunExactIff` shows the condition to be exact.
- SpsSyntax.SpsRoundTrip: values are limited to what 32-bit arithmetic holds and codes of at most 30 leading zeros, because values above that wrap around (`ExpGolomb.LongRoundTrip`); VUI data is arbitrary bits, not syntax.
- Rbsp.EscapeSplitStrip: the escaper puts a 3 behind a closing zero pair as section 7.4.1 requires for cabac_zero_words; an RBSP that ends in its stop bit gets none, and a single trailing zero byte, which no RBSP has, is left as it is.
- DecoderTimes.FramesCarryTheirTimes: holds as long as the transform gives one usable output per unit at most; without that only `DecoderTimes.QueueAlwaysNewest` does.
- Decoder.H264Decoder.DrainOutput: asks that some answer ends the loop, because the source loops for ever otherwise; a feed lists its drains' answers up to the last one looked at; stream-size logging is not modelled.
- Ownership.OneLiveSession: assumes that no session is created at the recorded address; without that `Ownership.TwoLiveOnlyWhileReaping` holds.
- AdaptiveHello.StaysSettled: asks for noted resizes and no racing tick; `AdaptiveHello.AlwaysSettledIff` shows the condition to be exact.
- Ownership leaves out the temporary reference a callback holds, so it says nothing about a destructor running on the read thread, and the shutdown path of the application.
- AdaptiveHello.App.OnAccept: width and height are remembered in one step; a failing read of the client area is not modelled.
- ControlSender: a send that returns more than it was given is clamped, as the operating system never does that.
- Claims the code does not keep are not stated: hello strictly first under concurrent senders, a decoder reset on a new connection, no callback of a replaced session after its close.
- SimSender: the session loop, its pacing and its keyframe jumps are left out; they choose which access units are sent, not how.
- Mdns: choosing the instance name and address, sockets, re-announcing and goodbye are input and output only.
- 64-bit counters are unbounded numbers.
- Logging, command line, crash handler, install identifier and tools/fake_receiver.cpp add no further behaviour.
