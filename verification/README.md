# Media agents: a model of the codecs, reassembly and tables

A Dafny model of the parts of the repository where correctness depends on several functions at once: the media code of
`examples/publisher-hls-agent` and the job queue and media pipeline of `pkg/agent`. Loops and objects of the Go code are
loops and classes here, each proved equal to a specification function or given its whole new state; what the system is
for is then proved about those functions and states. `dafny verify dfyconfig.toml` checks everything.

| component | files |
|---|---|
| AV1 frame encryption | `Leb128`, `Av1Layout`, `Av1Cipher`, `Av1RoundTrip`, `Av1Protection`, `Av1Chunks` |
| AV1 depacketizer | `Av1Depacketizer`, `Av1Reassembly`, `Av1Output` |
| H.264 frame encryption, RTP packetization and reassembly | `AnnexB`, `Rbsp`, `H264Cipher`, `H264Rtp`, `FrameAssembly`, `H264Transport`, `FuaDepacketizer` |
| Recorder: gating of video and audio, audio reorder buffer | `RecorderKeyframes`, `Recorder`, `PreAudio`, `AudioReorder`, `AudioInOrder`, `AudioSession` |
| MPEG-TS timestamp normalization | `TsTimestamps`, `TsPackets`, `TsNormalize`, `TsInvariance` |
| Merging of face groups | `GroupDsu`, `FaceGroups` |
| Job queue, stage list, routing table | `JobQueue`, `Stages`, `Routing`, `Lists` |
| Fragmented MP4 splitting | `Fmp4` |
| Shared vocabulary, abstract AES-GCM | `Common`, `Aead` |

## Main results

- **AV1.** Each of the four layout parsers reads only bytes that encryption leaves clear, so the receiver recomputes the
  sender's layout on the ciphertext. A frame the size-field parser reads comes back if and only if all its OBUs carry
  size fields, it does not end like an injected frame, and no OBU of the ciphertext reads as the appended metadata;
  keyframes stay recognizable. What is sealed is said byte for byte, in all four layouts: the payloads, but for the
  first byte of a frame or frame header, and nothing else; on the wire these bytes, in order, are the ciphertext.
- **AV1 depacketizer.** However OBUs are cut into packets, the output is the OBUs with size fields, exactly unless an
  OBU that already had one was fragmented; and a reader of the output finds one OBU for each, with its type, extension
  and payload, if and only if no reserved bit is set and no size field is longer than five bytes. When the beginning of
  an OBU is lost, exactly that OBU is missing.
- **H.264.** Normalizing a sample keeps exactly its units of types other than 9 and 12, whatever start codes they stand
  behind. A sealed frame opens if and only if the sender's clear prefix is the receiver's guess or one of its fallbacks,
  and for every frame with a slice it is. From the sample of the encoder to the delivered frame, whole, fragmented or
  aggregated and in any packet order: it arrives as it was if and only if the sequence number does not wrap within it,
  no start code forms across the seam between clear and sealed bytes, and it does not end like an injected frame.
- **FU-A under loss.** In any run a NAL unit is completed exactly by a contiguous span of fragments, and is what it
  spells.
- **Recorder.** Over every interleaving of the video loop's steps (take a packet, look at the flags, act, clear the
  pending flag), the audio loop's and activations: the first video packet after an activation shows an IDR slice, an SPS
  or a PPS, what follows is a gap-free suffix of what was received, and the audio events are exactly the packets the
  reorder buffer pushes. This lasts if and only if no activation falls between the look at the flags and the push of a
  packet of a running recording, or between the push of a recording's first keyframe and the clearing of the flag. Audio
  precedes the keyframe of the current activation if and only if that keyframe is still awaited when the audio is
  pushed.
- **Audio reorder.** At most 512 packets wait when a turn begins. Over any run, every packet is pushed at its own place
  in the stream, and hence in order, if and only if what was collected at the start is due from there and nothing
  arrives after its number was passed or a cycle early. A shuffled gapless stream, begun while recording was not allowed
  yet or later, comes out complete and in order if and only if its first packet is among those that arrive before
  collecting ends.
- **Timestamps.** Normalization changes timestamp fields only, shifts every PTS and DTS modulo 2^33, keeps the duration
  of files of whole packets, and a second run changes nothing if and only if the first one reached its reference file.
- **Face groups.** The merged groups are the connected components of the above-threshold relation, nothing is lost or
  doubled, and a find takes at most log2(n) steps.
- **Tables.** The heap with back-indices refines a sorted list; the stage list stays the stable sort of the survivors;
  the routing table mirrors the receivers' track sets.
- **fMP4.** A segment is cut where the first media header stands if and only if no box size before it is below eight,
  for well-formed boxes exactly between them, and what is written, without the styp box put in front, is the segment;
  and a second pass changes nothing if and only if the first left no styp box cut short.

## Hypotheses

- AES-GCM under one key is a pair of functions: opening what was sealed gives it back and the tag is 16 bytes
  (`Correct`). Only the H.264 results also need that nothing else opens after one frame was sealed (`OpensOnly`),
  because the receiver tries the still escaped bytes first. Both hypotheses are met by a cipher given in `Aead`. IVs are
  arbitrary.
- `FrameAssembler` waits for the marker: its results ask that the marker packet comes last, and that a frame has no more
  than 2^16 packets. What it makes of numbers that wrap is stated.
- A packet of audio is known by its place in the sender's stream, of which the code sees the low 16 bits.
- Jobs leave in order of arrival if no two waiting jobs tie in priority and time; enqueueing later than everything
  waiting keeps it so. With ties only the weaker statement holds that nothing comes before the job taken.
- A packet that announces a PCR has an adaptation field of at least seven bytes, as ISO/IEC 13818-1 asks; what happens
  with six is stated exactly.
- An activation is one atomic step, and so is each step of the video and the audio loop named above: every look at the
  flags ends one.
- MP4 results about boxes ask for sizes of at least eight, 32 bits wide.
- The LEB128 reader and OBU header of the AV1 library, `sort.Slice`, `container/heap` and the similarity score are taken
  as documented; `container/heap` is modelled step by step. Whether a push, a callback or a connection succeeds is a
  parameter, and so is the clock.

## Where the code falls short

Each of these is stated as a lemma or a method beside the theorem it limits.

- A frame whose ciphertext happens to read as the appended metadata OBU is lost (`Av1RoundTrip.LookalikeIsLost`), and so
  is one whose last OBU has no size field: the sender encrypts it, the splitter rejects it (`Av1RoundTrip.RoundTrip`).
- An OBU with a size field is rejected when it is fragmented, because line 125 compares the length of its last fragment
  (`Av1Reassembly.CutSizedIsRejected`).
- A zero byte at the end of the clear prefix and a sealed payload that begins with 00 01 form a start code, and the
  frame does not come back (`H264Transport.SeamIff`, `H264Transport.SeamIsLost`). Emulation prevention starts after the
  seam.
- A frame during which the sequence number wraps is assembled with the units behind the wrap first, and without the unit
  the wrap falls into (`FrameAssembly.AnyOrderAssembles`); it does not open (`H264Transport.WrappedIsLost`).
- PCR arithmetic uses modulus 2^42 while the field wraps at 300 * 2^33: a PCR smaller than the offset comes out wrong
  (`TsPackets.PcrCorrectIffNotSmaller`).
- The PCR check asks for six bytes of adaptation field where seven are needed; with exactly six, rewriting the PCR
  destroys the start code of the PES header, and PTS and DTS with it, unless the PCR's last byte comes out as zero
  (`TsInvariance.PtsKeptIff`, `TsInvariance.DtsKeptIff`). In every other packet PTS and DTS are right.
- A file that does not end on the packet grid is scanned backwards off the grid, and normalizing it can change its
  measured duration (`TsInvariance.OffGridDurationIff`, `TsInvariance.OffGridChangesDuration`).
- When normalization fails on a file behind the reference file, the files after it stay as they were, and every later
  run reports success without touching them (`TsInvariance.NextRunChangesNothing`). When it fails at the reference file
  or in front of it, every later run shifts the files in front of the failure once more (`TsInvariance.ShiftsAgain`,
  `TsInvariance.ShiftedTwice`).
- If recording is activated again after the audio loop passed its check, audio precedes the new keyframe: the loop does
  not look at the pending flag again before it pushes (`Recorder.Recorder.ReadAudio`,
  `Recorder.AudioCrossesActivation`).
- If it is activated again after the video loop looked at the flags of a running recording, the new recording starts
  with whatever packet is at hand; if it is after the push of the first keyframe, the clearing of the pending flag takes
  the new activation's flag with it, and neither video nor audio waits for a keyframe (`Recorder.Recorder.FinishVideo`,
  `Recorder.Recorder.EndVideo`, `Recorder.VideoCrossesActivation`, `Recorder.FlagIsLost`).
- Of two restarts of the publisher within the preroll only the longer pause is cut at (`PreAudio.KeptIsUnbrokenIff`,
  `PreAudio.TwoRestartsStay`).
- An audio packet that arrives after its number was passed stays in the buffer until its number comes round again; it
  then keeps out the packet that belongs there and is pushed in its place (`AudioReorder.LateKeepsNewerOut`).
- With no number in the half circle ahead buffered, the jump on overflow goes back (`AudioReorder.JumpIsForwardIff`,
  `AudioReorder.JumpsBack`).
- The loop that primes the pipeline from the video pre-buffer never finds anything to push
  (`Recorder.Recorder.EndVideo`).
- The smallest buffered sequence number depends on the iteration order of a Go map once the keys span half the circle
  (`AudioReorder.SpreadKeysDisagree`).
- In the overflow handling of the audio buffer the branch for an unset expected number is never reached
  (`AudioReorder.Reorder.JumpForward`).
- Four bytes at the end of an fMP4 file are taken for the end of the data, and a box size below eight in front of the
  media puts the boundary too early (`Fmp4.StrayBytes`, `Fmp4.BoundaryIsMediaIff`), after which a second pass can fail
  (`Fmp4.SecondPassChangesNothingIff`, `Fmp4.SecondPassFails`). A segment without media is written as the initialization
  file and returned as media (`Fmp4.SplitConservesIff`).
- An injected frame is delivered with empty data where the comment announces that it is dropped
  (`FrameAssembly.Assembler.AddPacket`).

## Model

| member | source | states |
|---|---|---|
| Av1RoundTrip.RoundTrip | examples/publisher-hls-agent/av1_e2ee.go:101-298 | For every frame the size-field parser reads, encryption succeeds, and the receiver gets exactly the frame back if and only if every OBU has a size field, the encrypted frame does not end in the SIF trailer, and no OBU of the ciphertext reads as a metadata OBU |
| Av1RoundTrip.RoundTripWithoutMetadata | examples/publisher-hls-agent/av1_e2ee.go:101-298 | What the sender can check beforehand: without metadata OBUs of 32 bytes, exactly the frames whose OBUs all carry size fields come back, unless they end in the SIF trailer |
| Av1RoundTrip.NoLookalike | examples/publisher-hls-agent/av1_e2ee.go:315-393 | Only an OBU of type 5 with a 32-byte payload can be taken for the appended metadata |
| Av1RoundTrip.LookalikeIsLost | examples/publisher-hls-agent/av1_e2ee.go:315-379 | A concrete family of frames that is lost: frames whose ciphertext reads as the appended metadata |
| Av1RoundTrip.SplitEncrypted | examples/publisher-hls-agent/av1_e2ee.go:315-379 | Splitting an encrypted frame yields one chunk with the whole frame, or, with a lookalike among its OBUs, chunks that hold less than the frame |
| Av1RoundTrip.UnsizedIsRejected | examples/publisher-hls-agent/av1_e2ee.go:315-379 | The splitter rejects a frame among whose OBUs is one without a size field, which the sender encrypts |
| Av1RoundTrip.SenderLayout | examples/publisher-hls-agent/av1_e2ee.go:443-564 | For a frame the size-field parser reads, that parser's layout is the first candidate, in order and in bounds |
| Av1RoundTrip.ClearBytesStay | examples/publisher-hls-agent/av1_e2ee.go:50-99 | Whatever replaces the protected bytes, the OBUs are found at the same places and the keyframe test answers the same |
| Av1RoundTrip.KeyframeVisible | examples/publisher-hls-agent/av1_e2ee.go:50-99 | The keyframe test answers the same on the encrypted frame as on the plain one, also where the last OBU has no size field and takes the metadata for its payload |
| Av1RoundTrip.IsKeyframe | examples/publisher-hls-agent/av1_e2ee.go:50-99 | The loop finds a keyframe exactly if some frame or frame-header OBU up to the first malformed or unsized one has show_existing_frame 0 and frame_type 0 |
| Av1Protection.ObuIsSealed | examples/publisher-hls-agent/av1_e2ee.go:504-564 | Of every OBU that is read from a readable stream, the last one without a size field too, the layout covers the payload but for the first byte of a type 3 or 6, and no other byte |
| Av1Protection.EveryByteIsRead | examples/publisher-hls-agent/av1_e2ee.go:504-564 | And every byte of such a stream belongs to an OBU that is read |
| Av1Protection.LayoutCoversSealed | examples/publisher-hls-agent/av1_e2ee.go:504-772 | For all four parsers, byte by byte: what the layout covers is what the headers and lengths in front of it say, written without ranges: payloads of OBUs and of Annex B and RTP elements but for the first byte of a type 3 or 6, the inner size field of an element left clear, a continued RTP element sealed whole |
| Av1Protection.VisitedCovers | examples/publisher-hls-agent/av1_e2ee.go:504-748 | The same element by element, from any point of the walk |
| Av1Protection.ParsesIff | examples/publisher-hls-agent/av1_e2ee.go:504-772 | Each of the four parsers accepts the data exactly if every element it comes to can be read: header bits, lengths and inner size fields that fit, written out |
| Av1Protection.RangesAreNotEmpty | examples/publisher-hls-agent/av1_e2ee.go:504-748 | No range of a layout is empty |
| Av1Protection.EncryptedFrame | examples/publisher-hls-agent/av1_e2ee.go:222-298 | What is sent: every byte that is not sealed stands where it stood, the sealed bytes in order are the ciphertext of the sealed bytes in order, and the bytes 2a 20 4c 4b 01, the key index, the IV and the tag come last |
| Av1Protection.KeyframeIff | examples/publisher-hls-agent/av1_e2ee.go:50-99 | A keyframe is detected exactly if one of the OBUs that are read has type 3 or 6 and a first payload byte whose last three bits are zero |
| Av1Chunks.AcceptedIsWoven | examples/publisher-hls-agent/av1_e2ee.go:315-379 | A sample the splitter accepts is its chunks and their metadata OBUs in turn, to the last byte |
| Av1Chunks.SplitConserves | examples/publisher-hls-agent/av1_e2ee.go:315-379 | The same at every point of the splitting loop, with the rest that is still open |
| Av1Chunks.NonEmptyMerges | examples/publisher-hls-agent/av1_e2ee.go:395-421 | Dropping the chunks without a payload before merging drops no byte |
| Av1Chunks.FramesInARow | examples/publisher-hls-agent/av1_e2ee.go:101-147 | The chunks of any number of sealed frames, not all with the same IV, decrypt to these frames one after the other |
| Av1Chunks.PiecesComeBack | examples/publisher-hls-agent/av1_e2ee.go:101-147 | The chunks of one sealed frame cut into any pieces, its metadata behind each, decrypt to the whole frame |
| Av1Layout.ParseInOrder | examples/publisher-hls-agent/av1_e2ee.go:504-772 | Every layout any of the four parsers returns is in bounds, ascending and disjoint |
| Av1Layout.ParseLocal | examples/publisher-hls-agent/av1_e2ee.go:504-772 | Each parser returns the same layout on any data that differs only inside the protected ranges |
| Av1Layout.ObuAtLocal | examples/publisher-hls-agent/av1_e2ee.go:504-564 | Reading one OBU depends on its header and size bytes only |
| Av1Layout.HeaderReadIff | examples/publisher-hls-agent/av1_e2ee.go:813-821 | A header byte is read exactly if it is a type of four bits, an extension flag and a size flag, with the other two bits zero |
| Av1Layout.WrittenObuIsRead | examples/publisher-hls-agent/av1_e2ee.go:504-564 | An OBU written with its extension byte and its size is read back with its type and payload, whatever stands around it; without a size, if it comes last |
| Av1Layout.SizeFieldLayout | examples/publisher-hls-agent/av1_e2ee.go:504-564 | The loop over a size-field stream computes the parser's ranges and their total, or its error |
| Av1Layout.AnnexBLayout | examples/publisher-hls-agent/av1_e2ee.go:566-636 | The same for the length-delimited format, where an inner size field is skipped but not trusted |
| Av1Layout.RtpLayout | examples/publisher-hls-agent/av1_e2ee.go:638-748 | The same for an RTP payload: reserved bits, W count, Z continuation, and the last element without a length |
| Av1Layout.RtxLayout | examples/publisher-hls-agent/av1_e2ee.go:750-772 | The same for an RTX payload: the RTP layout of the payload behind two bytes, shifted by two |
| Av1Cipher.ComputeCandidates | examples/publisher-hls-agent/av1_e2ee.go:451-502 | The loop collects the distinct valid layouts in the order the first byte suggests; none is the error |
| Av1Cipher.CandidatesAreAccepted | examples/publisher-hls-agent/av1_e2ee.go:451-502 | For all data: the candidates are exactly the layouts that some of the four parsers makes of it |
| Av1Cipher.FirstCandidate | examples/publisher-hls-agent/av1_e2ee.go:451-502 | The first candidate, for all data: data that cannot begin with an OBU is tried as RTP, RTX, size-field stream and Annex B, any other as size-field stream, Annex B, RTP and RTX, and the first layout made counts |
| Av1Cipher.CollectedInOrder | examples/publisher-hls-agent/av1_e2ee.go:451-502 | Every candidate layout of any frame is ascending, disjoint and in bounds, and its length is the sum of its ranges |
| Av1Cipher.ExtractRanges | examples/publisher-hls-agent/av1_e2ee.go:855-864 | The loop concatenates the bytes of the valid ranges |
| Av1Cipher.WriteRanges | examples/publisher-hls-agent/av1_e2ee.go:866-880 | In place: on success the array is the old one with the ranges overwritten in order; a source of the wrong length changes nothing |
| Av1Cipher.WriteThenExtract | examples/publisher-hls-agent/av1_e2ee.go:855-880 | Writing into ranges in order succeeds, touches nothing else, and what was written is read back |
| Av1Cipher.SameEverywhere | examples/publisher-hls-agent/av1_e2ee.go:855-880 | Frames that agree outside the ranges and in what is extracted from them are equal |
| Av1Cipher.WriteRestores | examples/publisher-hls-agent/av1_e2ee.go:855-880 | Writing back what was extracted is the identity, even after something else was written in between |
| Av1Cipher.BuildMetadataObu | examples/publisher-hls-agent/av1_e2ee.go:274-298 | The metadata OBU of a 12-byte IV and a 16-byte tag; any other length is an error |
| Av1Cipher.EncryptObuStream | examples/publisher-hls-agent/av1_e2ee.go:222-272 | The sender: first candidate layout, sealing, overwriting in a copy, appending the metadata OBU |
| Av1Cipher.SplitEncryptedChunks | examples/publisher-hls-agent/av1_e2ee.go:315-379 | The splitting loop: chunks closed by metadata OBUs; an unsized or malformed OBU, no chunk or an open rest is an error |
| Av1Cipher.DecryptPayloadWithMeta | examples/publisher-hls-agent/av1_e2ee.go:149-220 | The loop over the candidates returns the first that opens |
| Av1Cipher.DecryptObuStream | examples/publisher-hls-agent/av1_e2ee.go:101-147 | The receiver: SIF trailer, one chunk, merged chunks of one metadata, or chunk after chunk |
| Leb128.RoundTrip | examples/publisher-hls-agent/av1_e2ee.go:823-853 | Decoding what the encoder wrote gives the 32-bit value and its length back, wherever it stands |
| Leb128.ReadFromLocal | examples/publisher-hls-agent/av1_e2ee.go:823-842 | The decoder reads only the bytes it reports |
| Leb128.ReadLeb128 | examples/publisher-hls-agent/av1_e2ee.go:823-842 | The loop decodes at most five bytes, wrapping at 32 bits |
| Leb128.WriteLeb128 | examples/publisher-hls-agent/av1_e2ee.go:844-853 | The loop writes seven bits a byte, the lowest first |
| Av1Depacketizer.Depacketizer.UnmarshalPayload | examples/publisher-hls-agent/av1_depacketizer_preserve.go:31-154 | One call: its result and the fragment kept are the specified functions of the payload and the fragment kept before |
| Av1Depacketizer.Depacketizer.Elements | examples/publisher-hls-agent/av1_depacketizer_preserve.go:55-154 | The element loop with its continue and break paths |
| Av1Reassembly.DepacketizesAnyCut | examples/publisher-hls-agent/av1_depacketizer_preserve.go:31-154 | For well-formed OBUs cut into any legal packets (any W, Z and Y): all calls succeed if and only if no OBU with a size field of its own was fragmented, and then the output is every OBU with its size field |
| Av1Reassembly.CutsDoNotMatter | examples/publisher-hls-agent/av1_depacketizer_preserve.go:31-154 | Two ways of cutting the same unsized OBUs give the same output |
| Av1Reassembly.CutSizedIsRejected | examples/publisher-hls-agent/av1_depacketizer_preserve.go:118-131 | Every way of cutting an OBU with a size field in two is rejected |
| Av1Reassembly.RunReassembles | examples/publisher-hls-agent/av1_depacketizer_preserve.go:31-154 | A run over any legal chain of packets emits exactly the reassembled OBUs, in order |
| Av1Reassembly.ReassemblyConserves | examples/publisher-hls-agent/av1_depacketizer_preserve.go:31-154 | The reassembled OBUs concatenate to the elements of all packets: no byte is lost, repeated or moved |
| Av1Reassembly.LoopJoins | examples/publisher-hls-agent/av1_depacketizer_preserve.go:55-154 | One packet: the loop emits the OBUs that end in it and keeps what Y leaves open |
| Av1Reassembly.RunHears | examples/publisher-hls-agent/av1_depacketizer_preserve.go:31-154 | Whatever legal packets come, after any loss and in any order: without Z what was kept is dropped, with Z and nothing kept the first element is passed over, and the rest is joined and emitted |
| Av1Reassembly.RunAfterLoss | examples/publisher-hls-agent/av1_depacketizer_preserve.go:55-105 | A receiver that missed the beginning of an OBU emits exactly the OBUs after it |
| Av1Reassembly.WhatIsKept | examples/publisher-hls-agent/av1_depacketizer_preserve.go:31-53 | A payload of one byte fails and changes nothing; N set or Z clear drops what was kept |
| Av1Output.OutputIsRead | examples/publisher-hls-agent/av1_depacketizer_preserve.go:31-154 | However OBUs were cut into packets: if no call fails, reading the output OBU by OBU finds one OBU for each of them, in order, with a size field, the type, the extension byte and exactly the payload, and ends with the output, if and only if no OBU has its reserved bit set or a size field of more than five bytes |
| Av1Output.EmittedIsRead | examples/publisher-hls-agent/av1_depacketizer_preserve.go:118-139 | The same for one OBU, whatever stands around it in the output |
| Av1Output.EmitsIff | examples/publisher-hls-agent/av1_depacketizer_preserve.go:109-139 | An OBU is passed on exactly if its header is whole and its top bit zero, and its own size field, if it has one, ends with its last element |
| H264Transport.AnyOrderDelivers | examples/publisher-hls-agent/frame_assembler.go:68-123 | End to end: a sample is normalized, sealed, cut into NAL units and sent whole, as FU-A fragments or aggregated; arriving in any order among other frames' packets with the marker last, it is delivered as it was, with the right keyframe flag, if and only if the sequence number does not wrap within its packets, no start code formed across the seam, and the sealed frame does not end in the SIF trailer |
| H264Transport.WrappedIsLost | examples/publisher-hls-agent/frame_assembler.go:84-123 | A sealed frame whose units changed places at a wrap, or lost one, does not open, with a start code across the seam or without |
| H264Transport.WrongUnitsFail | examples/publisher-hls-agent/frame_assembler.go:276-374 | No list of units opens that does not begin with the units in front of the slice and go on |
| H264Transport.SealedFrameComesBack | examples/publisher-hls-agent/frame_assembler.go:136-374 | A sealed frame that is cut into NAL units and framed again comes back if and only if no start code formed across the seam and it does not end in the SIF trailer |
| H264Transport.NormalizedIsCut | examples/publisher-hls-agent/publisher.go:155-161 | Every normalized sample whose first slice has at least three bytes is units free of start codes and then that slice, as the results above need it |
| H264Transport.SurvivesFraming | examples/publisher-hls-agent/publisher.go:542-669 | Cutting an encrypted frame into NAL units and framing them again gives it back if and only if no start code forms across the seam between the clear prefix and the sealed bytes |
| H264Transport.SealedSample | examples/publisher-hls-agent/publisher.go:542-589 | What is sent for a framed sample: its units up to the first of types 1 to 5, that unit's start code and first two bytes in the clear, then bytes that unescape to the ciphertext of everything behind, the IV, 12 and 0 |
| H264Transport.SeamSplits | examples/publisher-hls-agent/publisher.go:628-669 | A start code across the seam splits the slice in two, and framing the parts adds a byte |
| H264Transport.SeamIff | examples/publisher-hls-agent/publisher.go:542-589 | A start code forms across the seam exactly if the clear prefix ends in a zero byte and the ciphertext begins with 00 01 |
| H264Transport.ReassembledAcrossSeam | examples/publisher-hls-agent/frame_assembler.go:136-188 | Reassembled, the sealed bytes are then preceded by one more zero |
| H264Transport.ShiftedFails | examples/publisher-hls-agent/frame_assembler.go:441-516 | With that zero neither the raw attempt nor the one after unescaping opens |
| H264Transport.SeamIsLost | examples/publisher-hls-agent/publisher.go:542-589 | So every such frame is lost: the receiver does not get it back |
| H264Transport.SplitIsNotDelivered | examples/publisher-hls-agent/frame_assembler.go:68-188 | And it is not delivered either when the part split off the slice is sent in any packets whatever, which the receiver may read as anything |
| H264Transport.AssembledIsFramed | examples/publisher-hls-agent/frame_assembler.go:136-266 | Whatever packets hold, what is put together from them is empty or begins with a start code |
| H264Transport.LostExample | examples/publisher-hls-agent/publisher.go:542-589 | Such a frame and such a cipher, ideal in the sense assumed |
| H264Transport.SealedIsSendable | examples/publisher-hls-agent/publisher.go:542-589 | Without it the NAL units of an encrypted frame can each be sent |
| H264Cipher.DecryptsExactly | examples/publisher-hls-agent/frame_assembler.go:276-374 | For every frame longer than its clear prefix: the receiver gets it back with the right keyframe flag if and only if the bytes do not end in the SIF trailer and the sender's prefix is the receiver's guess or one of the ten fallbacks |
| H264Cipher.IdrIff | examples/publisher-hls-agent/frame_assembler.go:377-388 | The keyframe flag is that of a frame with a unit whose first byte modulo 32 is 5 |
| H264Cipher.PrefixWithoutSlice | examples/publisher-hls-agent/publisher.go:596-626 | Without a unit of types 1 to 5 the clear prefix of a framed sample ends two bytes into its first unit |
| H264Cipher.PrefixWithoutUnits | examples/publisher-hls-agent/publisher.go:596-626 | Without a NAL unit it has the length the caller asks for, or ten if that is not above zero, as far as the sample goes |
| H264Cipher.ShortStaysIff | examples/publisher-hls-agent/publisher.go:542-589 | A sample is sent as it is exactly if it is no longer than its clear prefix |
| H264Cipher.FramesWithSlicesComeBack | examples/publisher-hls-agent/frame_assembler.go:276-374 | Every frame with a slice, longer than its clear prefix, comes back unless it ends in the SIF trailer |
| H264Cipher.SamePrefix | examples/publisher-hls-agent/publisher.go:596-626 | The clear-prefix length the receiver computes on the encrypted frame is the sender's |
| H264Cipher.SameFirstSlice | examples/publisher-hls-agent/frame_assembler.go:396-438 | Whatever follows the first slice's header byte, the first slice is found at the same place |
| H264Cipher.OpensWithItsPrefix | examples/publisher-hls-agent/frame_assembler.go:441-516 | With its own prefix the sealed frame opens, at the first attempt or at the one after unescaping |
| H264Cipher.RawAttemptFails | examples/publisher-hls-agent/frame_assembler.go:441-516 | Escaped bytes that differ from the sealed ones never open as they are |
| H264Cipher.OtherPrefixFails | examples/publisher-hls-agent/frame_assembler.go:441-516 | With any other prefix length nothing opens, escaped or not |
| H264Cipher.EncryptSample | examples/publisher-hls-agent/publisher.go:542-589 | The sender: clear prefix, then ciphertext, IV and trailer with emulation prevention; a sample no longer than its prefix stays |
| H264Cipher.ComputeUnencryptedBytes | examples/publisher-hls-agent/publisher.go:596-626 | The prefix ends two bytes into the first slice, or else the first NAL unit, or else at the default |
| H264Cipher.DecryptWithAad | examples/publisher-hls-agent/frame_assembler.go:441-465 | The bytes as received, then unescaped if that shortens them |
| H264Cipher.DecryptVideoFrame | examples/publisher-hls-agent/frame_assembler.go:276-374 | The receiver: SIF trailer, computed prefix, then the fallbacks in order |
| H264Cipher.DetectKeyframe | examples/publisher-hls-agent/frame_assembler.go:377-388 | True exactly if a NAL unit of type 5 is among the units |
| Rbsp.RoundTrip | examples/publisher-hls-agent/h264_e2ee_assembler.go:555-578 | Removing emulation prevention undoes adding it, for every byte string |
| Rbsp.EscapedIsClean | examples/publisher-hls-agent/publisher.go:699-724 | Escaped bytes hold no 00 00 00, 00 00 01 or 00 00 02 |
| Rbsp.ChangeIsNoticed | examples/publisher-hls-agent/frame_assembler.go:441-525 | Whenever escaping changes the bytes, an escape is found and unescaping shortens: the receiver's retry is taken |
| Rbsp.UnescapeRemoves | examples/publisher-hls-agent/h264_e2ee_assembler.go:555-578 | Of any bytes whatever unescaping removes exactly each 3 behind two zeros, not counting zeros in front of the last one removed, that a byte up to 3 follows |
| Rbsp.AddRbspEscaping | examples/publisher-hls-agent/publisher.go:699-724 | The loop computes the escaped bytes |
| Rbsp.RemoveRbspEscaping | examples/publisher-hls-agent/h264_e2ee_assembler.go:555-578 | The loop computes the unescaped bytes; only 00 00 03 before a byte up to 3 is an escape |
| Rbsp.HasRbspEscapeBytes | examples/publisher-hls-agent/frame_assembler.go:518-525 | True exactly if 00 00 03 occurs |
| AnnexB.NormalizeKeepsUnits | examples/publisher-hls-agent/publisher.go:671-693 | Re-scanning a normalized frame finds the units the loop kept |
| AnnexB.NormalizedUnits | examples/publisher-hls-agent/publisher.go:671-693 | The units of a normalized sample are exactly those units of the sample, in order, whose first byte modulo 32 is neither 9 nor 12 |
| AnnexB.NormalizesAnyCodes | examples/publisher-hls-agent/publisher.go:628-693 | Units behind start codes of three or four bytes, in any mixture, are found as they are, and come out framed with four-byte start codes, without types 9 and 12 |
| AnnexB.CleanFrameStays | examples/publisher-hls-agent/publisher.go:671-693 | A framed list of start-code-free units of other types normalizes to itself |
| AnnexB.NormalizeIdempotent | examples/publisher-hls-agent/publisher.go:671-693 | Normalizing twice is normalizing once, for every input |
| AnnexB.UnitsOfFrame | examples/publisher-hls-agent/publisher.go:628-669 | NAL units that are free of start codes survive framing and scanning |
| AnnexB.UnitShape | examples/publisher-hls-agent/publisher.go:648-660 | Each unit the scanner cuts ends at the first start code after its own |
| AnnexB.FindNalUnits | examples/publisher-hls-agent/publisher.go:628-669 | The two nested scanning loops find the specified units, and terminate |
| AnnexB.NormalizeStartCodes | examples/publisher-hls-agent/publisher.go:671-693 | The loop frames every kept unit with a 4-byte start code |
| H264Rtp.AssembleRebuilds | examples/publisher-hls-agent/frame_assembler.go:136-266 | The packets of a frame, its units whole, fragmented or aggregated as chosen, in sequence order rebuild exactly the frame with 4-byte start codes |
| H264Rtp.RotatedAssembles | examples/publisher-hls-agent/frame_assembler.go:136-266 | A frame's packets cut in two and put together the other way round give the units behind the cut, then those before it, without the unit the cut falls into |
| H264Rtp.TailIgnored | examples/publisher-hls-agent/frame_assembler.go:220-266 | Fragments whose start is missing are passed over |
| H264Rtp.HeadIgnored | examples/publisher-hls-agent/frame_assembler.go:220-266 | Fragments whose end is missing rebuild nothing |
| H264Rtp.CutUnits | examples/publisher-hls-agent/frame_assembler.go:136-266 | A cut between groups loses no unit; one within a group loses units |
| H264Rtp.CutLoses | examples/publisher-hls-agent/frame_assembler.go:136-266 | That is exactly the one fragmented unit it falls into |
| H264Rtp.FragmentsAreNumbered | examples/publisher-hls-agent/recorder.go:858-936 | Fragments are at most 1200 bytes, number consecutively modulo 2^16, share the timestamp, and only the last may carry the marker |
| H264Rtp.FragmentBytes | examples/publisher-hls-agent/recorder.go:858-936 | A fragment bit by bit: type 28 with the unit's NRI, the start bit on the first only, the end bit on the last only, the unit's type, and its share of the bytes; it is full unless it is the last |
| H264Rtp.PacketizeIsNumbered | examples/publisher-hls-agent/recorder.go:858-936 | A packetized frame is one run of consecutive packets, of which exactly the last carries the marker |
| H264Rtp.StapRoundTrip | examples/publisher-hls-agent/recorder.go:1628-1653 | What injectParameterSets packs, parseSTAPA unpacks, empty units aside |
| H264Rtp.FragmentNal | examples/publisher-hls-agent/recorder.go:858-936 | The fragmenting loop: no packet up to 1200 bytes, else the specified fragments; the next sequence number |
| H264Rtp.BuildParameterSets | examples/publisher-hls-agent/recorder.go:1628-1653 | The loop builds the aggregation payload; a unit above 65535 bytes or none at all is an error |
| H264Rtp.ParseStapA | examples/publisher-hls-agent/frame_assembler.go:192-215 | The loop yields the aggregated units; a length that overruns is an error |
| FrameAssembly.AnyOrderRebuilds | examples/publisher-hls-agent/frame_assembler.go:68-188 | However the packets of a frame arrive, among packets of other frames, with the marker last: for a frame of start-code-free units whose first does not come again, it is rebuilt exactly if and only if the sequence number does not wrap |
| FrameAssembly.RebuildsIff | examples/publisher-hls-agent/frame_assembler.go:68-188 | The same without that condition on the first unit: it is rebuilt if and only if a wrap falls between groups, if there is one, and the units before and behind it can be exchanged without a difference |
| FrameAssembly.AnyOrderAssembles | examples/publisher-hls-agent/frame_assembler.go:68-188 | What is put together in every case: the units behind the wrap, then those before it, without the unit the wrap falls into |
| FrameAssembly.SortedIsRotated | examples/publisher-hls-agent/frame_assembler.go:84-91 | Sorting a run of packets gives it back rotated to where the sequence number wraps |
| FrameAssembly.SortedIsSent | examples/publisher-hls-agent/frame_assembler.go:84-91 | Sorting what has arrived gives back what was sent, rotated to where the sequence number wraps, if it does |
| FrameAssembly.SortingIsUnique | examples/publisher-hls-agent/frame_assembler.go:84-91 | With distinct sequence numbers there is one sorted order, so an unstable sort is enough |
| FrameAssembly.WrapSwapsUnits | examples/publisher-hls-agent/frame_assembler.go:84-91 | Two whole units with the wrap between them come out in the wrong order |
| FrameAssembly.Assembler.constructor | examples/publisher-hls-agent/frame_assembler.go:49-57 | Nothing is waiting |
| FrameAssembly.Assembler.AddPacket | examples/publisher-hls-agent/frame_assembler.go:68-123 | What waits for a timestamp is what arrived since its last marker; a marker packet delivers all of it, sorted |
| FrameAssembly.Assembler.AssembleAnnexB | examples/publisher-hls-agent/frame_assembler.go:136-188 | The loop over the packets with the FU-A state between them |
| FuaDepacketizer.CompletedExactlyBySpans | examples/publisher-hls-agent/e2ee_h264.go:65-153 | In any run with any loss and reordering, a NAL unit is completed by FU-A exactly when the packets end in a whole span (one timestamp, consecutive numbers modulo 2^16, S first, E last), and then it is the rebuilt header and the fragment bodies |
| FuaDepacketizer.ProcessExplains | examples/publisher-hls-agent/e2ee_h264.go:65-153 | The invariant of every run: the state says which span is open and what it spells so far, and a packet completes a unit exactly if it ends a whole span |
| FuaDepacketizer.TrackExplains | examples/publisher-hls-agent/e2ee_h264.go:65-106 | A packet that does not continue the open span discards it |
| FuaDepacketizer.WholeNalCompletes | examples/publisher-hls-agent/e2ee_h264.go:109-153 | A fragmented NAL unit that arrives without loss comes out whole, whatever was heard before |
| FuaDepacketizer.ReturnedByType | examples/publisher-hls-agent/e2ee_h264.go:65-106 | What is no fragment: types 1 to 23 are decrypted, 24 is returned as it is, anything else fails |
| FuaDepacketizer.FragmentedIsDecrypted | examples/publisher-hls-agent/e2ee_h264.go:65-153 | The fragments of a unit, whatever was heard before them: nothing is returned for each but the last, and for the last the decrypted unit |
| FuaDepacketizer.Depacketizer.constructor | examples/publisher-hls-agent/e2ee_h264.go:54-58 | The initial state |
| FuaDepacketizer.Depacketizer.ProcessRtp | examples/publisher-hls-agent/e2ee_h264.go:65-106 | The whole new state and the result of one call |
| FuaDepacketizer.Depacketizer.ProcessFua | examples/publisher-hls-agent/e2ee_h264.go:109-153 | The same for one fragment |
| FuaDepacketizer.Depacketizer.ResetAssembly | examples/publisher-hls-agent/e2ee_h264.go:233-236 | The assembly is forgotten |
| Recorder.FirstVideoIsKeyframe | examples/publisher-hls-agent/recorder.go:2169-2296 | The first video packet pushed after an activation is a unit of type 5, 7 or 8, an aggregation that holds one, or the first fragment of a type 5 |
| Recorder.InjectionComesFirst | examples/publisher-hls-agent/recorder.go:2198-2219 | Parameter sets are injected only ahead of that packet |
| Recorder.SetsComeFirst | examples/publisher-hls-agent/recorder.go:2198-2248 | A run from activation to recording in which the parameter sets of the description are logged in front of the keyframe |
| Recorder.SetsInIff | examples/publisher-hls-agent/recorder.go:1055-1100 | Which of the two parameter sets a description holds: whether a unit of type 7, or of type 8, is among its units |
| Recorder.EndsIff | examples/publisher-hls-agent/recorder.go:2198-2302 | The video loop ends exactly when the packet that was to be pushed was not |
| Recorder.WaitingIff | examples/publisher-hls-agent/recorder.go:2171-2198 | A packet that was read is kept, the newest 300 of them, exactly if it is the keyframe of the handshake or comes after the handshake and recording is inactive or waits for a keyframe that it is not |
| Recorder.RecordedIsGapFree | examples/publisher-hls-agent/recorder.go:1936-2302 | What was pushed since an activation is every non-empty packet from a keyframe on, in order, up to the last pushed |
| Recorder.RecordedIsASuffix | examples/publisher-hls-agent/recorder.go:1936-2302 | While recording it is every non-empty packet received from that keyframe on, but for one still to be dealt with: a suffix without a gap |
| Recorder.AudioFollowsVideo | examples/publisher-hls-agent/recorder.go:2649-2769 | Audio is pushed only after a video packet of the epoch in which the audio loop was allowed to push |
| Recorder.NoAudioBeforeKeyframe | examples/publisher-hls-agent/recorder.go:2649-2769 | No audio precedes the first keyframe of the epoch in which the audio loop was allowed to push it; in particular none comes between the first activation and the first keyframe |
| Recorder.AudioCrossesActivation | examples/publisher-hls-agent/recorder.go:2649-2769 | Where the stronger claim fails: a second activation between the audio loop's check and its push lets audio precede the keyframe |
| Recorder.VideoCrossesActivation | examples/publisher-hls-agent/recorder.go:2198-2300 | An activation between the look at the flags and the push: the recording starts with a packet that is no keyframe |
| Recorder.FlagIsLost | examples/publisher-hls-agent/recorder.go:2244-2278 | An activation between the push of the keyframe and the clearing of the flag: no keyframe is waited for any more |
| Recorder.Recorder.constructor | examples/publisher-hls-agent/recorder.go:177-371 | The initial state |
| Recorder.Recorder.ActivateRecording | examples/publisher-hls-agent/recorder.go:757-784 | Recording starts over at the next keyframe and the video pre-buffer is emptied, in one step; the rules hold on after it, at whatever point of the video loop it comes |
| Recorder.Recorder.CheckAudio | examples/publisher-hls-agent/recorder.go:2649-2650 | Audio is allowed exactly while recording is active and no keyframe is pending |
| Recorder.Recorder.ReadAudio | examples/publisher-hls-agent/recorder.go:2649-2769 | The rest of an audio turn pushes if and only if its check allowed it, whatever happened since; and what it pushes precedes the keyframe of the current activation if and only if that keyframe is still awaited at the push |
| Recorder.Recorder.EnqueuePreVideo | examples/publisher-hls-agent/recorder.go:1163-1178 | The newest 300 packets are kept |
| Recorder.Recorder.TakeVideo | examples/publisher-hls-agent/recorder.go:1936-1957 | A buffered packet once recording is active, or else a read |
| Recorder.Recorder.CheckVideo | examples/publisher-hls-agent/recorder.go:1956-2198 | The packet read or held is received, the parameter sets in it counted, the keyframe test made and the flags looked at, which settles what is to become of it; an empty packet ends the turn |
| Recorder.Recorder.FinishVideo | examples/publisher-hls-agent/recorder.go:2171-2302 | What then becomes of it, whatever other steps came between: everything added to the log, whether the loop ends, every flag, the packets kept, the parameter sets seen and whether they were injected; and the rules go on to hold if and only if not both a recording was activated again in between and a packet of the running one was pushed |
| Recorder.Recorder.GreetPacket | examples/publisher-hls-agent/recorder.go:2171-2189 | Before the handshake only a keyframe counts; its callback may activate recording |
| Recorder.Recorder.KeepPacket | examples/publisher-hls-agent/recorder.go:2191-2196 | A packet is kept for later, the newest 300 of them, unless it comes from the buffer |
| Recorder.Recorder.BeginRecording | examples/publisher-hls-agent/recorder.go:2198-2248 | The first keyframe of a recording: parameter sets exactly if not both were seen, none were injected before and the description holds some that can be packed; the pipeline; the keyframe; an activation since the flags were looked at does no harm |
| Recorder.Recorder.PushPacket | examples/publisher-hls-agent/recorder.go:2198-2301 | A packet of a running recording is pushed; after an activation in between it opens the new recording, and the log stays in order if and only if it is a keyframe or the push fails |
| Recorder.Recorder.EndVideo | examples/publisher-hls-agent/recorder.go:2250-2278 | The pre-buffer is empty at this point, so the priming loop pushes nothing, and the pending flag is cleared; the rules go on to hold if and only if recording was not activated again since the keyframe was pushed |
| Recorder.Recorder.InjectParameterSets | examples/publisher-hls-agent/recorder.go:2200-2219 | Injected at most once, and what is seen then counts as seen |
| Recorder.Recorder.PushVideo | examples/publisher-hls-agent/recorder.go:2292-2296 | A failed push ends the loop |
| AudioSession.Session.constructor | examples/publisher-hls-agent/recorder.go:177-371 | Nothing is recorded |
| AudioSession.Session.ActivateRecording | examples/publisher-hls-agent/recorder.go:757-784 | The whole step: both flags, both pre-buffers; the reorder buffer itself stays |
| AudioSession.Session.CheckAudio | examples/publisher-hls-agent/recorder.go:2649-2700 | The head of an audio turn: collecting begins, or everything is forgotten but the packets kept |
| AudioSession.Session.ReadAudio | examples/publisher-hls-agent/recorder.go:2657-2682 | The rest of an audio turn: the audio events logged are exactly the packets the reorder buffer pushed in it; a packet read while not allowed is kept |
| AudioSession.Session.FinishVideo | examples/publisher-hls-agent/recorder.go:2171-2302 | What becomes of a video packet, with the audio kept so far dropped where its callback activates recording; the audio events of the log stay the packets pushed, one for one |
| AudioSession.Session.EndVideo | examples/publisher-hls-agent/recorder.go:2271-2278 | At the end of a recording's first keyframe the audio kept is trimmed and sorted, and only then audio may start |
| PreAudio.FindTrim | examples/publisher-hls-agent/recorder.go:1338-1385 | The two loops find where what is kept begins: at the first packet within the preroll, or behind the longest pause, if that is a restart of the publisher |
| PreAudio.KeptIsUnbrokenIff | examples/publisher-hls-agent/recorder.go:1359-1385 | What is kept then has no pause of a restart in it if and only if none comes behind the longest one |
| PreAudio.KeptIsRecent | examples/publisher-hls-agent/recorder.go:1338-1385 | While the clock does not go back, nothing older than 300 ms is kept |
| PreAudio.RecentIsKept | examples/publisher-hls-agent/recorder.go:1338-1385 | And without a pause of 50 ms or more in it everything that is no older is kept |
| PreAudio.KeptBehindPause | examples/publisher-hls-agent/recorder.go:1359-1385 | With such a pause, longer than any other, what is kept begins behind it |
| PreAudio.TwoRestartsStay | examples/publisher-hls-agent/recorder.go:1359-1385 | Two restarts of which the first pause is the longer: the packets between them stay |
| RecorderKeyframes.IsH264Keyframe | examples/publisher-hls-agent/recorder.go:946-988 | The keyframe test over single, aggregation and FU-A payloads |
| RecorderKeyframes.DetectParameterSets | examples/publisher-hls-agent/recorder.go:1055-1100 | Which parameter sets a payload carries; an empty aggregated unit ends the search |
| RecorderKeyframes.StapKeyIff | examples/publisher-hls-agent/recorder.go:946-988 | An aggregation packet that parses is a keyframe exactly when one of the units it parses into has type 5, 7 or 8 |
| RecorderKeyframes.KeyframeIff | examples/publisher-hls-agent/recorder.go:946-988 | For every payload: a keyframe is a unit of type 5, 7 or 8, an aggregation with such a unit, up to where its sizes overrun, or a fragment with the start bit of a type 5 |
| RecorderKeyframes.WholeIsKeyframeIff | examples/publisher-hls-agent/recorder.go:946-1100 | A unit sent whole is a keyframe exactly if its type is 5, 7 or 8, and shows a parameter set exactly if it is 7 or 8 |
| RecorderKeyframes.AggregatedSets | examples/publisher-hls-agent/recorder.go:1055-1100 | An aggregation without empty units shows a parameter set exactly if one of its units has type 7, or 8 |
| RecorderKeyframes.FragmentSets | examples/publisher-hls-agent/recorder.go:1055-1100 | A fragment shows one exactly if it has the start bit and type 7, or 8 |
| RecorderKeyframes.InjectedIsKeyframeIff | examples/publisher-hls-agent/recorder.go:1628-1653 | Injected parameter sets are recognized as a keyframe exactly when one of them has type 5, 7 or 8 |
| RecorderKeyframes.FragmentIsKeyframeIff | examples/publisher-hls-agent/recorder.go:858-936 | Of the fragments of a unit exactly the first is a keyframe, and only if the unit has type 5; and only the first shows a parameter set |
| RecorderKeyframes.SetsAreKeyframes | examples/publisher-hls-agent/recorder.go:946-1100 | A payload with a parameter set counts as a keyframe, unless it is the first fragment of one |
| AudioInOrder.Replay | examples/publisher-hls-agent/recorder.go:2642-2770 | The loop over a gapless stream, of which up to 500 packets come before recording is allowed, each packet within 511 places of its own and none later than the wait for it: it pushes nothing if and only if collecting never ends, that is, no twenty packets come and none after the window; and otherwise, with `m` the first arrival at which collecting ends, it ends with every packet pushed in order if and only if the first packet of the stream was among the first `m` arrivals |
| AudioInOrder.LoopReaches | examples/publisher-hls-agent/recorder.go:2642-2770 | The invariant of the loop at every turn: waiting, collecting with the window set and not over, or flushing since the arrival at which collecting ended |
| AudioInOrder.EndsWithTurn | examples/publisher-hls-agent/recorder.go:2730-2740 | Collecting ends in a turn if and only if twenty packets have come or the window is over |
| AudioInOrder.FirstIsCollected | examples/publisher-hls-agent/recorder.go:2730-2740 | The first packet is among those collected whenever more are collected than the stream is shuffled by |
| AudioInOrder.ComesOutInOrder | examples/publisher-hls-agent/recorder.go:2642-2770 | At the end of such a run every packet has been pushed in order and the buffer is empty |
| AudioInOrder.RunNext | examples/publisher-hls-agent/recorder.go:2726-2769 | The invariant of such a run: what was pushed is the run from the first packet up to the first missing one |
| AudioInOrder.FlushInOrder | examples/publisher-hls-agent/recorder.go:2611-2640 | Flushing pushes a run in order and stops at the first packet that has not arrived |
| AudioInOrder.FirstIsLeast | examples/publisher-hls-agent/recorder.go:2564-2574 | The first packet's number is the least of those collected if and only if it is among them, also across the 16-bit wrap |
| AudioInOrder.NeverOverflows | examples/publisher-hls-agent/recorder.go:2742-2765 | The buffer never exceeds 512 on such a stream, so nothing is skipped |
| AudioReorder.MinIsOrderIndependentIff | examples/publisher-hls-agent/recorder.go:2560-2574 | The minimum does not depend on the order of the map if and only if some key has all the others within the half circle after it |
| AudioReorder.LeastIsHalfCircle | examples/publisher-hls-agent/recorder.go:2560-2562 | The least key is the one from which all keys lie within half the circle |
| AudioReorder.SpreadKeysDisagree | examples/publisher-hls-agent/recorder.go:2564-2574 | Three keys for which it does depend on that order |
| AudioReorder.FlushIncreasing | examples/publisher-hls-agent/recorder.go:2611-2640 | Each push gets an unwrapped counter that agrees with its 16-bit number, larger than the ones before and below the next expected one; flushing terminates lexicographically in buffer size and pending timeout |
| AudioReorder.FlushMoves | examples/publisher-hls-agent/recorder.go:2611-2640 | How far: one for each packet taken, and one more exactly if the expected packet was missing and its wait had run out |
| AudioReorder.InPlaceIff | examples/publisher-hls-agent/recorder.go:2684-2769 | Over any run, with loss, duplicates, reordering and timeouts, from any point after collecting: everything is pushed, or waits to be pushed, at its own place in the stream if and only if it was so before and no packet arrives after its number was passed, or a cycle early |
| AudioReorder.WholeRunInPlaceIff | examples/publisher-hls-agent/recorder.go:2684-2769 | And from the turn that ends collecting, with all the numbers collected in the half circle after one of them: if and only if moreover every packet collected is at most a cycle ahead of where that number is expected |
| AudioReorder.EndInPlaceIff | examples/publisher-hls-agent/recorder.go:2730-2769 | That turn puts everything in its place exactly in that case |
| AudioReorder.TurnInPlaceIff | examples/publisher-hls-agent/recorder.go:2684-2769 | The same for one turn |
| AudioReorder.FlushKeepsPlaces | examples/publisher-hls-agent/recorder.go:2611-2640 | Flushing neither brings a packet to its place nor takes it away |
| AudioReorder.JumpKeepsPlaces | examples/publisher-hls-agent/recorder.go:2742-2765 | Neither does a jump on overflow |
| AudioReorder.InPlaceIsInOrder | examples/publisher-hls-agent/recorder.go:2611-2640 | What is pushed at its own place is pushed in the order of the stream, without repetition |
| AudioReorder.LateKeepsNewerOut | examples/publisher-hls-agent/recorder.go:2726-2728 | A late packet that stays in the buffer keeps out the next one with its number and is pushed in its place |
| AudioReorder.LateExample | examples/publisher-hls-agent/recorder.go:2726-2728 | Two such packets |
| AudioReorder.JumpIsForwardIff | examples/publisher-hls-agent/recorder.go:2746-2756 | The jump on overflow goes forward in 16-bit order if and only if some buffered number lies in the half circle ahead |
| AudioReorder.JumpsAbove | examples/publisher-hls-agent/recorder.go:2742-2765 | It is made exactly with more than 512 packets buffered, leads to the first number ahead that is buffered, and clears the wait |
| AudioReorder.JumpsBack | examples/publisher-hls-agent/recorder.go:2742-2756 | 513 packets with which it goes back |
| AudioReorder.FlushShrinks | examples/publisher-hls-agent/recorder.go:2611-2640 | If the expected packet is there, the buffer shrinks |
| AudioReorder.Reorder.constructor | examples/publisher-hls-agent/recorder.go:2551-2558 | Nothing is buffered |
| AudioReorder.Reorder.EnqueuePreAudio | examples/publisher-hls-agent/recorder.go:1263-1282 | The newest 500 packets are kept |
| AudioReorder.Reorder.Wait | examples/publisher-hls-agent/recorder.go:2649-2682 | While recording is not allowed everything is forgotten but the packets kept for later |
| AudioReorder.Reorder.Forget | examples/publisher-hls-agent/recorder.go:2650-2655 | The reset at the head of such a turn |
| AudioReorder.Reorder.ClearKept | examples/publisher-hls-agent/recorder.go:1323-1330 | The packets kept are dropped |
| AudioReorder.Reorder.TrimKept | examples/publisher-hls-agent/recorder.go:1336-1411 | The packets kept are trimmed and sorted; nothing else changes |
| AudioReorder.AnyOrderCollects | examples/publisher-hls-agent/recorder.go:2684-2700 | With distinct numbers the order in which packets were kept does not matter to what is collected of them |
| AudioReorder.Reorder.Begin | examples/publisher-hls-agent/recorder.go:2684-2700 | Collecting starts with the packets kept; the first of several with one number stays |
| AudioReorder.Reorder.MinSeqInBuffer | examples/publisher-hls-agent/recorder.go:2564-2574 | The scan's answer for some order of the keys |
| AudioReorder.Reorder.Closest | examples/publisher-hls-agent/recorder.go:2746-2754 | The buffered number closest after the expected one |
| AudioReorder.Reorder.TryFlush | examples/publisher-hls-agent/recorder.go:2611-2640 | The loop computes the specified flush: buffer, expected number, pending timeout and pushes |
| AudioReorder.Reorder.Receive | examples/publisher-hls-agent/recorder.go:2684-2769 | One turn: the whole new state; at the head of every turn at most 512 packets are buffered |
| AudioReorder.Reorder.Take | examples/publisher-hls-agent/recorder.go:2726-2769 | The rest of a turn, once a packet has been read |
| AudioReorder.Reorder.EndCollecting | examples/publisher-hls-agent/recorder.go:2730-2740 | Collecting ends at twenty packets or when its window is over |
| AudioReorder.Reorder.JumpForward | examples/publisher-hls-agent/recorder.go:2742-2765 | With more than 512 packets the expected number jumps to the closest one that is there; the branch for an unset expected number is never reached |
| TsInvariance.DurationUnchanged | examples/publisher-hls-agent/hls_fix.go:169-210 | Normalizing a segment of whole packets leaves its duration, even when a timestamp wraps |
| TsInvariance.DurationIs | examples/publisher-hls-agent/hls_fix.go:169-214 | For whole packets the duration is the last PTS minus the first, modulo 2^33 ticks |
| TsInvariance.DurationUnchangedIff | examples/publisher-hls-agent/hls_fix.go:169-210 | For any file: the forward scan reads the packets, shifted, so the duration stays if and only if that scan finds no PTS or the backward scan over the normalized file gives what it gave before, shifted |
| TsInvariance.OffGridDurationIff | examples/publisher-hls-agent/hls_fix.go:169-210 | For a file whose backward scan, off the packet grid, looks at no timestamp byte: the duration stays if and only if one of the scans finds no PTS or the timestamps are shifted by nothing |
| TsInvariance.OffGridChangesDuration | examples/publisher-hls-agent/hls_fix.go:186-192 | A file with one byte after its last packet, for which normalizing changes the duration |
| TsInvariance.NextRunChangesNothing | examples/publisher-hls-agent/ts_normalize.go:82-103 | A second run succeeds and changes nothing if and only if the first one analysed its reference file and got as far as rewriting it, whether or not it failed behind it |
| TsInvariance.FailureStops | examples/publisher-hls-agent/ts_normalize.go:91-100 | A run rewrites the files in front of the first failure; the failing file and those behind it stay as they were |
| TsInvariance.ShiftsAgain | examples/publisher-hls-agent/ts_normalize.go:82-103 | After a failure at the reference file or in front of it, the next run finds the same offsets, rewrites the files in front of the failure again and fails at the same file |
| TsInvariance.ShiftedTwice | examples/publisher-hls-agent/ts_normalize.go:82-103 | So every PTS of such a file is shifted twice |
| TsInvariance.SecondRunChangesNothing | examples/publisher-hls-agent/ts_normalize.go:82-103 | A successful run is idempotent |
| TsInvariance.NormalizedStartsAtZero | examples/publisher-hls-agent/ts_normalize.go:198-388 | The offsets of a normalized reference file are zero |
| TsInvariance.AnalysisFindsZero | examples/publisher-hls-agent/ts_normalize.go:198-280 | The scan over a file shifted by the offsets found in it finds zeros, packet after packet |
| TsInvariance.NormalizedPacket | examples/publisher-hls-agent/ts_normalize.go:309-388 | Nothing but timestamp fields changes, and every PTS and DTS is shifted by the same offset modulo 2^33 |
| TsInvariance.BetweenShifted | examples/publisher-hls-agent/hls_fix.go:200-210 | The two branches of the duration are one interval length modulo 2^33, and shifting both ends keeps it |
| TsInvariance.CrowdedLosesPts | examples/publisher-hls-agent/ts_normalize.go:344-352 | With an adaptation field of exactly 6 bytes the PCR's last byte lands on the start code, and unless it is zero the PTS is lost |
| TsInvariance.PtsKeptIff | examples/publisher-hls-agent/ts_normalize.go:309-388 | A PTS is kept, shifted, if and only if the PCR fits its adaptation field or its rewritten last byte is zero |
| TsInvariance.DtsKeptIff | examples/publisher-hls-agent/ts_normalize.go:309-388 | And so it is with a DTS |
| TsInvariance.CrowdedExample | examples/publisher-hls-agent/ts_normalize.go:344-352 | Such a packet |
| TsInvariance.CalculateSegmentDuration | examples/publisher-hls-agent/hls_fix.go:169-210 | The forward and backward loops find the first and the last PTS; the duration in 90 kHz ticks |
| TsInvariance.SelectReference | examples/publisher-hls-agent/ts_normalize.go:161-168 | The first file named output.ts, or the first file |
| TsInvariance.NormalizeHlsTimestamps | examples/publisher-hls-agent/ts_normalize.go:82-103 | The files on disk after a run, also after one that fails half way |
| TsNormalize.AnalyzeTsOffsets | examples/publisher-hls-agent/ts_normalize.go:198-280 | The loop finds the first timestamp and the first PCR, and stops once it has both |
| TsNormalize.AnalyzeIs | examples/publisher-hls-agent/ts_normalize.go:198-280 | The offsets are the first PTS of the file, or DTS where a packet has no PTS, and its first PCR, or 300 times that timestamp |
| TsNormalize.AnalyzeFindsIff | examples/publisher-hls-agent/ts_normalize.go:198-280 | In a synchronized file they are found exactly if there is a timestamp |
| TsNormalize.NormalizeFailsIff | examples/publisher-hls-agent/ts_normalize.go:309-388 | A file is left unwritten with an error exactly if an offset is not zero and some packet does not begin with 0x47 |
| TsNormalize.NormalizeTsFile | examples/publisher-hls-agent/ts_normalize.go:309-388 | The packet loop rewrites the buffer in place; an unsynchronized packet leaves the file unwritten, zero offsets too |
| TsNormalize.RewritePacket | examples/publisher-hls-agent/ts_normalize.go:324-385 | In place: only the 188 bytes of one packet change, to the rewritten packet |
| TsNormalize.PacketOfRewritten | examples/publisher-hls-agent/ts_normalize.go:309-388 | Each packet of the rewritten file is the rewritten packet |
| TsPackets.PcrCorrectIffNotSmaller | examples/publisher-hls-agent/ts_normalize.go:344-352 | For PCR values the field can hold, the rewritten PCR is the true difference modulo 300 * 2^33 if and only if it is not smaller than the offset |
| TsPackets.PcrRewritten | examples/publisher-hls-agent/ts_normalize.go:344-352 | What the PCR becomes in every case: the difference modulo 2^42, cut by the field |
| TsPackets.PtsShifted | examples/publisher-hls-agent/ts_normalize.go:368-383 | Every PTS becomes itself minus the offset modulo 2^33 |
| TsPackets.DtsShifted | examples/publisher-hls-agent/ts_normalize.go:368-383 | Every DTS too |
| TsPackets.RewriteStays | examples/publisher-hls-agent/ts_normalize.go:309-388 | Rewriting touches nothing but PCR, PTS and DTS fields and leaves them where they were |
| TsPackets.FieldsStay | examples/publisher-hls-agent/ts_normalize.go:309-388 | What the parser looks at lies outside those fields |
| TsPackets.ReadersAgree | examples/publisher-hls-agent/hls_fix.go:256-312 | The second, independent parser sees the same PTS in every synchronized packet |
| TsPackets.TimestampsAre | examples/publisher-hls-agent/ts_normalize.go:354-383 | Where PTS and DTS stand: behind the adaptation field, a start code and the flag bits of the PES header, in 5 bytes each that must fit the packet |
| TsPackets.PcrIs | examples/publisher-hls-agent/ts_normalize.go:334-352 | And the PCR: in bytes 6 to 11, if the adaptation field has at least 6 bytes and its PCR flag |
| TsTimestamps.PtsRoundTrip | examples/publisher-hls-agent/ts_normalize.go:417-458 | Decoding an encoded timestamp gives the value modulo 2^33 and the prefix bits |
| TsTimestamps.PcrRoundTrip | examples/publisher-hls-agent/ts_normalize.go:487-531 | Decoding an encoded PCR gives the value modulo 2^42 and then modulo 300 * 2^33 |
| TsTimestamps.PtsLayout | examples/publisher-hls-agent/ts_normalize.go:451-458 | An encoded timestamp: the prefix bits and groups of 3, 15 and 15 bits, a marker bit of 1 behind each |
| TsTimestamps.PtsIsRead | examples/publisher-hls-agent/ts_normalize.go:417-426 | Decoding any five bytes joins these groups, whatever the marker bits are |
| TsTimestamps.PcrLayout | examples/publisher-hls-agent/ts_normalize.go:520-531 | An encoded PCR: 33 bits of base, six reserved bits of 1, nine bits of extension |
| TsTimestamps.PcrIsRead | examples/publisher-hls-agent/ts_normalize.go:487-495 | Decoding any six bytes is 300 times the base and the extension, whatever the reserved bits are |
| TsTimestamps.SubModIsModular | examples/publisher-hls-agent/ts_normalize.go:560-573 | The three branches are subtraction modulo the modulus |
| TsTimestamps.ShiftPtsMeaning | examples/publisher-hls-agent/ts_normalize.go:368-383 | A rewritten field decodes to the difference modulo 2^33 |
| TsTimestamps.ShiftPtsPrefix | examples/publisher-hls-agent/ts_normalize.go:368-383 | The prefix bits stay |
| TsTimestamps.ShiftPcrMeaning | examples/publisher-hls-agent/ts_normalize.go:344-352 | The same for a PCR field |
| FaceGroups.MergeFaceGroups | examples/publisher-hls-agent/faces_gocv.go:191-228 | The groups returned hold, identifier by identifier, what their members held, in member order; the old groups are emptied; identifiers are 0 to k-1. Without a recognizer, with fewer than two groups or a threshold not above zero nothing changes |
| FaceGroups.SameOwnerIffConnected | examples/publisher-hls-agent/faces_gocv.go:191-228 | Two groups go to the same merged group if and only if a chain of above-threshold pairs joins them |
| FaceGroups.TogetherIffSimilar | examples/publisher-hls-agent/faces_gocv.go:191-228 | Two groups are merged into one if and only if a path of pairs, each with a similarity of at least the threshold, leads from one to the other |
| FaceGroups.SameClassIffConnected | examples/publisher-hls-agent/faces_gocv.go:191-228 | Two indices share a representative if and only if a chain joins them |
| FaceGroups.LeadersInFirstMemberOrder | examples/publisher-hls-agent/faces_gocv.go:208-228 | New identifiers follow the order of first members |
| FaceGroups.MemberOrder | examples/publisher-hls-agent/faces_gocv.go:218-225 | A merged group holds what its members held in their order |
| FaceGroups.FirstReference | examples/publisher-hls-agent/faces_gocv.go:218-225 | Its primary reference is that of its first member that has one |
| FaceGroups.ExemplarsConserved | examples/publisher-hls-agent/faces_gocv.go:208-228 | The multiset of exemplars is conserved |
| FaceGroups.FilesConserved | examples/publisher-hls-agent/faces_gocv.go:208-228 | The multiset of files is conserved |
| FaceGroups.Conserved | examples/publisher-hls-agent/faces_gocv.go:208-228 | Whatever list a group holds that is appended on merging is conserved as a multiset |
| FaceGroups.JoinAddsEdge | examples/publisher-hls-agent/faces_gocv.go:157-173 | Joining two classes accounts for exactly one more edge |
| FaceGroups.UnionPair | examples/publisher-hls-agent/faces_gocv.go:157-173 | The same for a call of union |
| FaceGroups.UnionSimilar | examples/publisher-hls-agent/faces_gocv.go:199-206 | After the double loop the classes are the connected components of the above-threshold relation |
| FaceGroups.MoveInto | examples/publisher-hls-agent/faces_gocv.go:218-225 | Lists are appended, the first non-empty reference wins, the source is emptied |
| FaceGroups.Gather | examples/publisher-hls-agent/faces_gocv.go:208-228 | The second loop, with its map from representative to merged group |
| GroupDsu.DepthIsLogarithmic | examples/publisher-hls-agent/faces_gocv.go:150-155 | A find follows at most log2(n) parents |
| GroupDsu.Compress | examples/publisher-hls-agent/faces_gocv.go:150-155 | Path compression keeps the forest, its partition and its balance |
| GroupDsu.Link | examples/publisher-hls-agent/faces_gocv.go:157-173 | Hanging the root of lower rank under the other keeps ranks increasing and 2^rank at most the class size |
| GroupDsu.Dsu.constructor | examples/publisher-hls-agent/faces_gocv.go:141-148 | Every node is its own class |
| GroupDsu.Dsu.Find | examples/publisher-hls-agent/faces_gocv.go:150-155 | The representative, in at most log2(n) steps, the node pointing at it afterwards; the partition stays |
| GroupDsu.Dsu.Union | examples/publisher-hls-agent/faces_gocv.go:157-173 | Exactly the two classes are joined, under the representative that rank chooses |
| GroupDsu.Dsu.Hang | examples/publisher-hls-agent/faces_gocv.go:163-172 | A tie raises the new root's rank |
| JobQueue.Queue.constructor | pkg/agent/job_queue.go:101-109 | Empty and open |
| JobQueue.Queue.Enqueue | pkg/agent/job_queue.go:121-151 | Refused when closed or full; otherwise the job goes behind everything that is not after it. Enqueued later than everything waiting it ties with nothing |
| JobQueue.Queue.Dequeue | pkg/agent/job_queue.go:159-169 | A waiting job is taken out and nothing else changes; without ties it is the head of the sorted list |
| JobQueue.Queue.Peek | pkg/agent/job_queue.go:213-222 | A waiting job that nothing comes before; without ties the head |
| JobQueue.Queue.RemoveJob | pkg/agent/job_queue.go:283-294 | Found if and only if a waiting job has the identifier; the first such job in the order of the heap leaves, and nothing else |
| JobQueue.Queue.Clear | pkg/agent/job_queue.go:237-241 | Nothing is waiting |
| JobQueue.Queue.Close | pkg/agent/job_queue.go:249-254 | Closed, with what is waiting unchanged |
| JobQueue.Queue.Size | pkg/agent/job_queue.go:227-231 | The length of the sorted list |
| JobQueue.Queue.Swap | pkg/agent/job_queue.go:308-312 | Two items and their indices change places |
| JobQueue.Queue.Push | pkg/agent/job_queue.go:314-319 | The heap grows by the item and stays a heap with correct indices |
| JobQueue.Queue.Pop | pkg/agent/job_queue.go:321-329 | The last item leaves the slice with index -1 |
| JobQueue.Drain | pkg/agent/job_queue.go:159-169 | Taking job after job from a queue without ties yields the whole sorted list |
| JobQueue.FirstInFirstOut | pkg/agent/job_queue.go:299-306 | In a list without ties: higher priority first, and one priority in order of arrival |
| JobQueue.OrderIsDetermined | pkg/agent/job_queue.go:299-306 | What is waiting leaves in one order, however it was built up |
| JobQueue.RootIsBest | pkg/agent/job_queue.go:299-306 | Nothing in a heap comes before its root |
| JobQueue.LatestTiesWithNone | pkg/agent/job_queue.go:121-151 | Enqueueing later than everything waiting creates no tie |
| JobQueue.StepUp | pkg/agent/job_queue.go:299-312 | One step towards the root keeps the heap in order but around the new position |
| JobQueue.StepDown | pkg/agent/job_queue.go:299-312 | One step towards the leaves, to the better child, too |
| Stages.Apply | pkg/agent/media_pipeline.go:407-450 | After any sequence of additions and removals the stage list is the stable sort by priority of the survivors in insertion order |
| Stages.SurvivorsLast | pkg/agent/media_pipeline.go:407-437 | The survivors of any changes are the stages added that were not removed by name later, in order |
| Stages.StableSortIsUnique | pkg/agent/media_pipeline.go:440-450 | A list has only one stable sort |
| Stages.SwapKeepsOrder | pkg/agent/media_pipeline.go:440-450 | Swapping neighbours of different priority moves no stage past another of its own priority |
| Stages.RemovalKeepsStableSort | pkg/agent/media_pipeline.go:426-437 | Removing by name commutes with stable sorting |
| Stages.Pipeline.constructor | pkg/agent/media_pipeline.go:326-334 | No stages |
| Stages.Pipeline.AddStage | pkg/agent/media_pipeline.go:407-419 | The stage is added last and the list sorted again |
| Stages.Pipeline.RemoveStage | pkg/agent/media_pipeline.go:426-437 | Every stage with the name is gone, the others keep their order |
| Stages.Pipeline.SortStages | pkg/agent/media_pipeline.go:440-450 | The nested loops compute the stable sort |
| Stages.Pipeline.BubbleUp | pkg/agent/media_pipeline.go:443-449 | One pass carries the largest of the rest to its end |
| Routing.Router.constructor | pkg/agent/media_pipeline.go:1202-1227 | No connections |
| Routing.Router.CreateReceiver | pkg/agent/media_pipeline.go:1285-1384 | Refused for a known identifier; otherwise a connection without tracks is filed and counted |
| Routing.Router.AddTrackToReceiver | pkg/agent/media_pipeline.go:1390-1453 | Refused for an unknown receiver or a track it holds; otherwise it is listed for the track |
| Routing.Router.RemoveReceiver | pkg/agent/media_pipeline.go:1456-1500 | The receiver leaves every list, lists left empty disappear, the count goes down |
| Routing.Router.RemoveFromTable | pkg/agent/media_pipeline.go:1474-1487 | The loop over the table, in whatever order the map yields its tracks |
| Routing.Router.FilterOut | pkg/agent/media_pipeline.go:1474-1487 | The receivers other than one, in order |
| Routing.Router.RoutePacket | pkg/agent/media_pipeline.go:1503-1533 | A packet is offered exactly once to each receiver that holds its track and to no other; a full queue drops it, and drops are counted |
| Routing.OfferedIff | pkg/agent/media_pipeline.go:1503-1533 | A channel takes a packet exactly if it is offered and fewer than 100 are in it; otherwise it stays as it is |
| Routing.CrowdedCounts | pkg/agent/media_pipeline.go:1503-1533 | The packets dropped are as many as the receivers offered the packet whose channels hold 100 |
| Routing.UnsubscribeUndoes | pkg/agent/media_pipeline.go:1390-1500 | Removing a receiver undoes its subscription |
| Routing.UnsubscribedLists | pkg/agent/media_pipeline.go:1456-1500 | Removing a receiver leaves the lists of all others alone |
| Routing.MirrorsSubscribed | pkg/agent/media_pipeline.go:1390-1453 | A receiver is listed for a track if and only if it is connected and holds it, lists have no duplicates and are never empty: kept by a subscription |
| Routing.MirrorsUnsubscribed | pkg/agent/media_pipeline.go:1456-1500 | Kept by a removal |
| Fmp4.BoundaryIsInitSize | examples/publisher-hls-agent/fmp4_processor.go:52-89 | For every sequence of well-formed boxes the boundary is the sum of the sizes before the first moof or styp |
| Fmp4.SplitsBetweenBoxes | examples/publisher-hls-agent/fmp4_processor.go:127-162 | With media among the boxes a segment is cut exactly between them, and the initialization file is written only for segment 0 |
| Fmp4.SplitConservesIff | examples/publisher-hls-agent/fmp4_processor.go:127-162 | Initialization file and media data together are the segment if and only if the segment has media data |
| Fmp4.SecondPassChangesNothing | examples/publisher-hls-agent/fmp4_processor.go:127-221 | For every sequence of well-formed boxes, with media or without: processing what a first pass and ensureStypPrefix left changes neither the data nor the initialization file |
| Fmp4.SecondPassChangesNothingIff | examples/publisher-hls-agent/fmp4_processor.go:127-221 | For every segment a first pass accepts: so it is if and only if that pass left at least eight bytes and no styp box that is cut short |
| Fmp4.SecondPassFails | examples/publisher-hls-agent/fmp4_processor.go:127-162 | Forty bytes with a header of size 0, for which the second pass fails |
| Fmp4.MediaIsKept | examples/publisher-hls-agent/fmp4_processor.go:127-162 | Data that starts with a media box is kept as it is |
| Fmp4.StypKeepsMedia | examples/publisher-hls-agent/fmp4_processor.go:180-221 | ensureStypPrefix is idempotent and its result starts with a media box if the data does |
| Fmp4.StypInFront | examples/publisher-hls-agent/fmp4_processor.go:180-221 | The result is the data with nothing in front exactly if it is shorter than 8 bytes or has styp at 4 to 8; otherwise with one box of 28 bytes in front: kind styp, major brand cmf2, version 0, compatible brands iso6, cmfc and the brand, iso6 unless that has four bytes |
| Fmp4.WrittenBoxes | examples/publisher-hls-agent/fmp4_processor.go:127-221 | End to end for well-formed boxes with media: the initialization file and what was written, without the box added, are the segment, cut in front of the first moof or styp |
| Fmp4.StrayBytes | examples/publisher-hls-agent/fmp4_processor.go:28-89 | Behind boxes without media four stray bytes go unnoticed; one to three, or five to seven, are an error |
| Fmp4.BoundaryIsMediaIff | examples/publisher-hls-agent/fmp4_processor.go:52-89 | The boundary is where the reader meets the first media header if and only if no size before it is below 8; otherwise it is before it |
| Fmp4.WalkFindsMediaIff | examples/publisher-hls-agent/fmp4_processor.go:52-89 | The same from any point of the walk, with the sum of sizes behind the reader or not |
| Fmp4.ShortSizeMisplacesBoundary | examples/publisher-hls-agent/fmp4_processor.go:52-89 | The plainest case: a size of 0 in the first header |
| Fmp4.FindInitSegmentBoundary | examples/publisher-hls-agent/fmp4_processor.go:52-89 | The loop, with the reader's position and the sum of sizes kept apart as the source keeps them |
| Fmp4.Disk.constructor | examples/publisher-hls-agent/fmp4_processor.go:127-162 | The initialization file as it is found |
| Fmp4.Disk.ProcessFmp4Segment | examples/publisher-hls-agent/fmp4_processor.go:127-162 | What is returned and what the initialization file holds afterwards |

## Left out

- GStreamer, Pion, LiveKit and cgo code: foreign; a push is an entry in a log, or a boolean that says whether it succeeds.
- AES, key derivation and random IVs: replaced by the abstract pair of functions described above.
- S3, ffmpeg, OpenCV detection, HTTP and the file system beyond file contents: input and output.
- Playlist text, durations as floating point, averages and load prediction: durations are integer ticks.
- Counters, logging, checkpoints, circuit breakers and recovery attempts: they add only easy invariants.
- `DequeueWithContext`, waiting channels and `GetJobsByPriority`: they need Go's channels or only read.
- `H264E2EEAssembler` but for `removeRBSPEscaping`: its `handleFUA` is a laxer form of the depacketizer modelled in `FuaDepacketizer`, and the fallbacks of its `decryptFrame` guess.
- `forwardPackets` and `handleConnectionStateChange`: goroutines around foreign objects. Local tracks are a set of names.
- Recording of encrypted and of AV1 video: the same gating on whole frames, without a pre-buffer.
- Aliasing of Go slices, as when the depacketizer keeps a fragment that is a slice of the caller's payload: byte strings are values.
- Recorder.Recorder.ReadAudio: how many packets an audio turn pushes is a parameter there; `AudioSession.Session.ReadAudio` says which they are.
- Recorder.Recorder.ActivateRecording: the audio pre-buffer is not part of that class; `AudioSession.Session.ActivateRecording` is the whole step.
- `time.Time` and the RTP timestamps of audio: arrival times are a parameter of `AudioSession.Session.EndVideo`, and of the sorting in `trimPreAudioBuffer`, whose comparison wraps around, only that it keeps the packets.
- H264Transport.SplitIsNotDelivered: asks that the sequence number does not wrap; with a wrap `H264Transport.AnyOrderDelivers` covers the parts that are NAL units of their own.
- FrameAssembly.AnyOrderAssembles: a marker packet that overtakes others of its frame is not followed further than `FrameAssembly.Assembler.AddPacket` does.
- AudioInOrder.Replay: the stream's first place is below 2^16, its packets decrypt, and of those that come before recording is allowed none is trimmed.
- TsInvariance.DurationUnchangedIff: reads the normalized file; a condition on the file itself is stated for whole packets and for a scan that looks at no timestamp.
