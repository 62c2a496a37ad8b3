# Proofs about the SPDM measurement tooling

The repository captures, rebuilds, tampers with and appraises SPDM traffic: chunked messages
and certificate chains in captures, MCTP packets on a link, a one-bit tamper proxy between two
emulators, a CBOR/COSE/CoRIM codec, DER readers, and a measurement fixture that is written in
Python and loaded in C. Much of it reads one format in two or three places that are meant to
agree. This project models that logic in Dafny 4.11 and proves what the tools promise: what is
rebuilt was sent, what is sent is rebuilt, readers of one format agree or differ exactly as
stated, encodings are unambiguous, and a run of the proxy changes at most the one bit it reports.

`dafny verify dfyconfig.toml` checks everything.

## How the model is laid out

- `Bytes`: bytes as integers 0..255, fixed-width integers, slices, sums.
- `Capture`, `Dechunk`, `DechunkSound`, `DechunkComplete`, `DechunkFails`, `DechunkReports`,
  `Certificates`, `CertificateRoundTrip`, `CertificateReports`, `ChunkCount`: from captured packets
  to entries, the chunk reassembler and all it reports, the certificate walk on top of it and all it
  reports, and the closed-form count of chunk round trips.
- `Mctp`, `MctpRuns`, `MctpReports`: MCTP packets (DSP0236, section 8), grouping by key,
  packetising, loss, and everything grouping reports of any traffic.
- `Measurements`, `Proxy`, `ProxySafety`, `ProxyReport`, `RecordReaders`, `RecordBytes`,
  `TamperNames`: the in-flight parser and the tamper, framing over TCP, the proxy, whole runs of it
  and how they end, the second reader of the same record, the bytes both accept, and which byte a
  tamper changes as that reader sees it.
- `Cbor`, `CborRoundTrip`, `CborShortest`, `CborSorted`, `CborGrammar`, `Utf8`: the CBOR codec
  (RFC 8949, sections 3 and 4.2.1), between its two halves and against the standard's own bytes.
  `DerInteger`, `Cose`, `CoseBytes`: signatures in both forms, COSE_Sign1 (RFC 8152), and the bytes
  that are signed and sent.
- `Corim`, `CorimTables`, `CorimRoundTrip`, `CorimDocuments`, `CorimStable`, `CorimReference`,
  `CorimBytes`, `CorimRepeats`, `CorimKeyed`: names and labels of reference documents, the documents
  a measurement record gives, and the CBOR they are written as. `Policy`: the appraisal policy.
- `DerWalk`, `CertificateFlip`, `FlipExactly`, `CertificateBytes`: the three splitters of a
  certificate bundle (X.690, sections 8.1.3 and 10.1), the byte of a certificate's signature that
  may be flipped, and certificates as the bytes they are made of.
- `Fixture`, `MeasurementSource`, `FixtureRoundTrip`: the fixture's writer and reader, the C
  loader with its static state, and the two against each other.

Code that changes state step by step is a method or a class proved equal to a specification
function (`Dechunk` and `Reassembled`, `WalkRecord` and `WalkSpec`, `TamperProxy.Run` and
`RunAll`, `Source.Load` and `AfterLoad`); the theorems are about those functions. A Python dict
is its pairs in insertion order with distinct keys, an exception is a result value, text is its
UTF-8 bytes. SHA-256 does not occur; openssl is an arbitrary signer and an arbitrary verifier.

## What the proofs found

- `chunk_roundtrips`: the branch for a message that fits in one first chunk cannot be taken,
  because such a message is not larger than DataTransferSize (`ChunkCount.ClosedForm` gives at
  least two).
- `_measurement_record`: its last test, for a walk that stops short, cannot fail.
- `dechunk` raises IndexError when neighbouring chunks complete a sequence of fewer than two
  bytes, and `certificates` raises it on a CERTIFICATE of two bytes, which only chunks can carry:
  a 17-byte CHUNK_RESPONSE is enough (`DechunkFails.DechunkExactly`,
  `DechunkFails.ReportFailsExactly`, `DechunkFails.TwoCapturesThatFail`).
- A record that repeats an index is reported as its last block with that index, once for every
  repetition: `block_order` keeps the repetitions and the dict of blocks does not. Evidence and
  reference are then wrong exactly when two such blocks say different things
  (`CorimRepeats.ReportedAreOwnExactly`, `CorimRepeats.ARepeatedIndexHidesABlock`).
- The policy counts on two values for one index being an error of its engine. The documents made of
  a record never hold two, because the repetition was settled before
  (`Policy.ClaimsNeverClash`), so a record of two different digests under index 1 passes against
  the reference of a device that has the second in both places (`Policy.ARepeatedIndexPasses`).
- Losing packets from one MCTP message goes unseen exactly when all of it is lost, or the loss is
  inside it and a multiple of four packets long (`MctpRuns.LossGoesUnseenExactly`,
  `MctpRuns.FourLostUnseen`).
- The two readers of the fixture do not accept the same files, although they are described as
  having to: the loader also refuses illegal and repeated indices and values inside the table
  (`MeasurementSource.AcceptsExactly`, and a file each in `IllegalIndexDiffers`,
  `RepeatedIndexDiffers` and `ValueInTableDiffers`). The header says that the accessors never change the
  status; the first one does, once, by loading the file the environment names
  (`MeasurementSource.AskKeepsStatusExactly`, `AQuestionChangesTheStatus`).
- A reference triple's measurement that has its own key (`comid_mkey`, label 0) is read back as
  an environment (`CorimKeyed.KeyedMeasurementIsMisread`), so no document with one survives
  (`CorimKeyed.KeyedDocumentsAreLost`). Encoding what was read gives the same bytes all the same, so
  the check by encoding again does not notice (`CorimKeyed.AKeyIsLostUnseen`): that check tells
  exactly what `CorimStable.ReencodingGivesTheBytesExactly` says, and nothing about names. Which
  documents survive is stated exactly by `CorimDocuments.DocumentsSurviveExactly`; the documents
  this repository builds all do.
- `raw_to_der` writes the length of each INTEGER as one octet. That is DER below 128 bytes and not
  from 128 on (`CertificateBytes.ConverterWritesPairExactly`); no curve in use comes near.
- Flipping the middle byte of a signature without ECDSA structure can turn it into one with that
  structure (`CertificateFlip.OpaqueCanBecomeEcdsa`), exactly when one low bit of one header octet
  is all it lacks (`FlipExactly.OpaqueFlipExactly`).

## Model

| member | source | states |
|---|---|---|
| Capture.Messages | bench/pcapstat.py:225-269 | every packet gives one entry, numbered from 1: the bytes after the framing if it is framed, long enough and of type SPDM, a size alone if it is of the secured type, and nothing otherwise |
| Capture.CapturesAreFresh | bench/pcapstat.py:225-269 | the entries of any capture meet what the reassemblers rely on: consecutive numbers and nothing rebuilt yet |
| Capture.FramingAccounts | bench/pcapstat.py:342-346 | the published identity between captured bytes, SPDM bytes, framing and unparsed packets never fails |
| Capture.EveryByteIsAccountedFor | bench/pcapstat.py:318-346 | from file to logical view: logical bytes are captured bytes less framing, unparsed packets and CHUNK_RESPONSEs, plus the bytes recovered |
| Dechunk.Dechunk | bench/pcapstat.py:621-798 | the loop equals the step-by-step reassembly machine, including its notes, its counters and the IndexError; what that machine reports is stated from the capture alone by DechunkReports.ReportIsExact |
| DechunkReports.ReportIsExact | bench/pcapstat.py:621-798 | on any capture that dechunk finishes the report is exactly this: one sequence for every readable chunk numbered 0, in order, with the chunks that follow it and the reason for which it ends (short chunk, new sequence, other handle, jumped number, wrong total, never finished) read from the chunk that ended it; a note for each that did not complete; a note for each other chunk that came to nothing; the counts of CHUNK_SEND and its acknowledgement |
| DechunkReports.EveryBeginningIsReported | bench/pcapstat.py:666-756 | every readable chunk numbered 0 is the first packet of exactly one reported sequence |
| DechunkReports.QuietExactlyWhenComplete | bench/pcapstat.py:621-798 | nothing is noted exactly when every CHUNK_RESPONSE of the capture lies in a complete sequence |
| DechunkReports.ALostTailIsReported | bench/pcapstat.py:793-796 | a capture of one first chunk whose rest was lost: one sequence that never finished, and its note |
| DechunkSound.EveryRebuiltMessageWasSent | bench/pcapstat.py:621-798 | on any capture, a message not on the wire is the content of chunks 0..n-1 in capture order, one handle, LastChunk on the last only, total equal to chunk 0's LargeMessageSize |
| DechunkSound.NoChunkUsedTwice | bench/pcapstat.py:621-798 | no packet belongs to two sequences of the report, complete or not |
| DechunkSound.BytesBalance | bench/pcapstat.py:621-798 | other entries pass through in order; logical bytes are wire bytes minus CHUNK_RESPONSE bytes plus bytes_recovered; the counters are the messages rebuilt |
| DechunkFails.DechunkExactly | bench/pcapstat.py:621-798 | dechunk raises IndexError exactly when neighbouring CHUNK_RESPONSEs of 12 bytes or more are a complete sequence carrying fewer than two bytes; otherwise what it rebuilds is what the complete sequences of neighbours carry, in order |
| DechunkFails.CompletedAreTheSlices | bench/pcapstat.py:621-798 | those are the contents of every contiguous run of chunks that is a complete sequence, and nothing else |
| DechunkFails.DeclaredTotalsSuffice | bench/pcapstat.py:711-756 | no readable first chunk declaring fewer than two bytes is enough for it to finish |
| DechunkFails.ReportFailsExactly | bench/pcapstat.py:225-935 | on any capture one of the two reassemblers raises exactly when such a run carries fewer than two bytes or a CERTIFICATE of two; no packet is itself such a message, and whatever stops the walk was rebuilt from chunks |
| DechunkFails.TwoCapturesThatFail | bench/pcapstat.py:621-935 | one packet on which dechunk raises, and one on which the walk does |
| DechunkComplete.DechunkInvertsChunking | bench/pcapstat.py:621-798 | for any set of codes and any mixture of whole and chunked deliveries of them among other traffic, exactly the messages sent come back, in order, and nothing is noted |
| DechunkComplete.Chunked | bench/pcapstat.py:1088-1109 | the sender's loop yields the cut of the message, and fails exactly when a sequence number or a size does not fit its field; with a chunk size of zero it gives nothing for an empty message and runs out of sequence numbers on any other |
| DechunkComplete.SentChunksComplete | bench/pcapstat.py:1088-1109 | what a sender cuts is a complete sequence as long as 16 bits can number it |
| Certificates.Walk | bench/pcapstat.py:850-935 | the loop equals the step-by-step walk, both layouts, all refusals and the IndexError; what it reports is stated by CertificateReports |
| Certificates.WalkCutsAtZeroRemainder | bench/pcapstat.py:850-935 | the slots are the runs of readable responses between zero remainders, each settled once |
| Certificates.RunsCut | bench/pcapstat.py:850-935 | those runs are the readable responses in order, none empty, with a zero remainder at the end of each but perhaps the last and nowhere else |
| Certificates.WalkFailsExactly | bench/pcapstat.py:869-935 | the walk raises exactly on captures that hold a CERTIFICATE of two bytes |
| Certificates.ReportedChainsAgree | bench/pcapstat.py:938-981 | slot by slot, a chain closes exactly when its run of responses ended with a zero remainder and bytes collected, portion sum, announced total and the chain's own length agree |
| CertificateRoundTrip.ReadsResponse | bench/pcapstat.py:869-935 | a response in either layout is read back as its portion, remainder and bytes |
| CertificateRoundTrip.ChainsSurviveBothLayers | bench/pcapstat.py:850-981 | any chains, cut anyhow, in any layouts, whole or chunked, beside messages of other codes sent whole or chunked and any other traffic, are all reported closed, byte for byte, with nothing noted; a chain of length, root hash and certificates is reported with that root hash and that many bytes of certificates, and with neither if no hash width was negotiated or the chain is too short |
| CertificateRoundTrip.ChainDivides | bench/pcapstat.py:978-980 | a chain built of its length, a root hash of the negotiated width and certificates is divided back into them |
| CertificateReports.ReadingExactly | bench/pcapstat.py:869-909 | a response is read exactly when it begins with one of the two layouts, told apart by bit 7 of Param1, and is otherwise refused for the first of three reasons or stops the walk |
| CertificateReports.LaidOutIsRead | bench/pcapstat.py:869-909 | what is laid out is what is read: slot, layout, portion, remainder and bytes |
| CertificateReports.SlotsAreExplained | bench/pcapstat.py:850-981 | on any capture every slot is explained by its own run of responses: why it does not close, by the first thing that is wrong; its length field and whether the 16-bit reading of it agrees; root hash and size of the certificates exactly for chains that close and are long enough |
| CertificateReports.TheRestIsReported | bench/pcapstat.py:850-935 | one note for every refused CERTIFICATE, in order, and one round trip for every GET_CERTIFICATE |
| ChunkCount.ClosedForm | bench/exp04_fragmentation.py:124-137 | nothing for a message up to DataTransferSize, no answer when that leaves a first chunk no room, and otherwise one ceiling that is at least two |
| ChunkCount.RoundtripsMonotone | bench/exp04_fragmentation.py:124-137 | the count never falls as the message grows nor rises as the transfer size does |
| ChunkCount.FilledUsesThatMany | bench/exp04_fragmentation.py:124-137 | a sender that fills every response emits exactly that many, all but the last full |
| ChunkCount.NoSequenceUsesFewer | bench/exp04_fragmentation.py:124-137 | no complete sequence of responses within the transfer size uses fewer |
| ChunkCount.RoundtripsAreOptimal | bench/exp04_fragmentation.py:124-137 | the closed form is the attained optimum, and dechunk inverts the sequence that attains it |
| Mctp.PacketRoundTrip | bench/exp04_fragmentation.py:478-493 | parsing undoes the DSP0236 packet layout |
| Mctp.ParsedPacketRoundTrip | bench/exp04_fragmentation.py:478-493 | every packet of four bytes or more is the layout of what was parsed from it |
| Mctp.GroupMessages | bench/exp04_fragmentation.py:496-572 | the loops equal the step-by-step grouping: messages and problems in order |
| Mctp.GroupingIsPerKey | bench/exp04_fragmentation.py:517-572 | what grouping makes of a key is what it makes of that key's packets alone |
| Mctp.InterleavingIsInvisible | bench/exp04_fragmentation.py:517-572 | a key's messages and problems equal those of its projected sub-capture |
| MctpReports.ReportIsExact | bench/exp04_fragmentation.py:496-572 | for any traffic of a key: the messages are those that end, each of exactly the packets between a start and an end, with the capture positions of the first and the last, and then the one left open; the problems are those of the single packets in order, and then that one |
| MctpRuns.QuietExactlyWhenWhole | bench/exp04_fragmentation.py:517-572 | a key is free of problems exactly when its packets are a series of whole messages |
| MctpRuns.SeriesReportedInCapture | bench/exp04_fragmentation.py:517-572 | such a series is reported message by message with exact sizes |
| MctpRuns.PacketiseIsWhole | bench/exp04_fragmentation.py:102-106 | a packetised message is whole, with mctp_packets packets and all its bytes |
| MctpRuns.RivalAgreesExactly | bench/exp04_fragmentation.py:109-121 | the formula kept as wrong never counts fewer, and agrees exactly while the packets have room for its extra bytes |
| MctpRuns.InterleavedStreamsComeBack | bench/exp04_fragmentation.py:496-572 | any interleaving of packetised streams gives back every message under its key with exact counts, and no problem |
| MctpRuns.QuietCaptureConserves | bench/exp04_fragmentation.py:517-572 | with no problem reported, all messages are complete and account for every packet and payload byte |
| MctpRuns.LossGoesUnseenExactly | bench/exp04_fragmentation.py:530-556 | packets lost from one message, with any whole messages of the same key before and after it, go unreported exactly when all of it is lost, or the run is strictly inside it and a multiple of four long |
| MctpRuns.FourLostUnseen | bench/exp04_fragmentation.py:530-556 | six packets sent, four of them lost, and nothing reported |
| Measurements.WalkRecord | harness/tamper_proxy.py:342-410 | the loop equals the recursive walk of the record, with its three refusals |
| Measurements.RecordTiles | harness/tamper_proxy.py:342-410 | an accepted record is tiled by exactly NumberOfBlocks blocks that lie inside it |
| RecordBytes.WalksExactly | harness/tamper_proxy.py:342-410 | the walk takes exactly the records that are that many blocks of any kind, and says of each what it is and where it stands; otherwise it says what follows the blocks that are all there: too little for a header, for a body, or more than nothing after the last |
| Measurements.ApplyTamper | harness/tamper_proxy.py:520-572 | in place: a refusal changes nothing, otherwise exactly the named byte has its lowest bit flipped and is reported in three coordinate systems; that it is the byte asked for is stated by TamperNames |
| Measurements.TargetInside | harness/tamper_proxy.py:520-553 | the named byte is in the value of the first block with the index, or in the signature |
| Measurements.TamperKeepsReading | harness/tamper_proxy.py:413-572 | after a tamper the message closes again with the same layout, and a second tamper restores it |
| Measurements.TamperLeavesTheRest | harness/tamper_proxy.py:520-572 | every other block and the other region are byte for byte unchanged |
| TamperNames.RecordTamperIsRead | harness/tamper_proxy.py:520-572 | if the other reader closes the record, the byte named is byte `offset` of the value of the first entry with the index, and afterwards the record reads as it did but for the low bit of that byte; an absent index, another format and an offset outside the value are refused, in this order, and nothing else |
| TamperNames.AnyRecordTamper | harness/tamper_proxy.py:520-553 | the same byte in any record the parser accepts |
| TamperNames.SignatureTamperIsRead | harness/tamper_proxy.py:520-553 | with the signature the last bytes of the message exactly the byte at the offset changes, counted from its end if negative; an offset outside is refused |
| TamperNames.ReportIsTrue | harness/tamper_proxy.py:505-572 | the three offsets reported are those of the byte in the message, in the socket payload and in a captured packet |
| Proxy.EncodeUndoesRead | harness/tamper_proxy.py:195-265 | re-encoding a frame that was read gives the bytes it was read from |
| Proxy.ReadUndoesEncode | harness/tamper_proxy.py:195-265 | reading an encoded frame, whatever follows it, gives the frame |
| Bytes.ByteOrder | harness/tamper_proxy.py:211-213 | byte i of a little-endian number, and byte i from the end of a big-endian one, counts 256^i |
| Proxy.SpdmExactly | harness/tamper_proxy.py:195-230 | a message is found exactly in a frame of the normal command that carries type 5 and at least four bytes |
| Proxy.Socket.RecvExact | harness/tamper_proxy.py:232-252 | the bytes asked for, or what there was before the stream ended, whatever the segmentation |
| Proxy.Socket.ReadFrame | harness/tamper_proxy.py:255-265 | the next frame of the byte stream, or None exactly when the stream ends first |
| Proxy.Conversation.ObserveAlgorithms | harness/tamper_proxy.py:291-314 | of a well-formed response its version and selections are known afterwards, and the signature size of a known algorithm; there is no note exactly for a well-formed response with a known algorithm |
| Proxy.Conversation.ObserveGetMeasurements | harness/tamper_proxy.py:317-336 | of a request laid out with or without a signature and with a context of 0 or 8 bytes exactly these two are known afterwards, and a context span is known exactly after such a request |
| Proxy.AlgorithmsAreLearned | harness/tamper_proxy.py:291-314 | all that a well-formed ALGORITHMS response changes, field by field, PqcAsymSel only from version 1.4 on |
| Proxy.AlgorithmsKnownExactly | harness/tamper_proxy.py:291-314 | whatever the bytes, either the response is well-formed with a known algorithm, or there is one note and the signature size stays as it was |
| Proxy.SignatureSizes | harness/tamper_proxy.py:127-140 | every size in the table is that of the algorithm it is for: a modulus, two coordinates, or a point and a scalar |
| Proxy.RequestIsLearned | harness/tamper_proxy.py:317-336 | all that a well-formed request changes |
| Proxy.ContextKnownExactly | harness/tamper_proxy.py:317-336 | whatever the bytes, either they are such a request or the context span is forgotten with a note |
| Proxy.TamperProxy.OnRequesterFrame | harness/tamper_proxy.py:598-607 | requester frames are forwarded as they came |
| Proxy.TamperProxy.OnResponderFrame | harness/tamper_proxy.py:609-675 | the new state and the forwarded frame are those of the specified responder step |
| Proxy.TamperProxy.ServeOne | harness/tamper_proxy.py:678-724 | what reaches each side depends on the two byte streams and the order of service alone |
| Proxy.TamperProxy.Run | harness/tamper_proxy.py:726-744 | connections one after another, with what was learned and the spent flip outliving each |
| Proxy.TamperProxy.Finish | harness/tamper_proxy.py:746-757 | the exit code and the last refusal are those specified |
| ProxySafety.ServeIsSafe | harness/tamper_proxy.py:609-724 | one connection forwards every frame whose turn comes, whole and in order, all bytes as they came except the low bit of the first byte a served frame names, and that exactly when no flip was spent before and some served frame names one |
| ProxySafety.WholeRunIsSafe | harness/tamper_proxy.py:578-744 | over any run every frame whose turn comes is forwarded; a flip is reported exactly when some served MEASUREMENTS frame that closed under what was then known has the byte named, and then it is in the first such frame of the first such connection and is the only change in all directions and connections; never in passthrough |
| ProxySafety.SegmentationIsInvisible | harness/tamper_proxy.py:232-265 | how TCP cut the streams changes nothing in a whole run |
| ProxyReport.RunCounts | harness/tamper_proxy.py:598-724 | the two counters reported at the end are the frames forwarded each way, over all connections |
| ProxyReport.RequesterTeaches | harness/tamper_proxy.py:598-607 | a GET_MEASUREMENTS request is learned from and no other frame of the requester is |
| ProxyReport.ResponderTeaches | harness/tamper_proxy.py:609-675 | an ALGORITHMS response is learned from and no other; whatever is no MEASUREMENTS response passes as it came |
| ProxyReport.ExitExactly | harness/tamper_proxy.py:578-757 | a run succeeds exactly in passthrough or when some served frame names the byte asked for; if it fails it reports a refusal |
| RecordReaders.MeasurementRecord | harness/fields.py:680-774 | the loop equals the recursive walk, all six refusals, and the last secure version number |
| RecordReaders.ClosingRecordIsWalked | harness/fields.py:680-774 | whatever it closes the in-flight walker accepts with the same tiling, indices, sizes and value spans |
| RecordReaders.WalkedRecordCloses | harness/tamper_proxy.py:342-410 | a record the in-flight walker accepts is closed by the other exactly when it is not empty and every block is filled by its DMTF header |
| RecordBytes.ClosesExactly | harness/fields.py:680-774 | the offline reader closes exactly the records DSP0274 can write with as many blocks as were declared, and reports those blocks |
| RecordBytes.WrittenRecordIsRead | harness/fields.py:680-774 | a written record is read as its blocks with the last secure version number among them; only another declared count keeps it from closing |
| RecordBytes.ParsesExactly | harness/tamper_proxy.py:413-500 | the in-flight parser accepts exactly the responses that can be written with the sizes it learned and a record its walk accepts, and places every field where it was written |
| RecordBytes.PlacesExactly | harness/fields.py:564-602 | the offline reader places exactly the responses that answer their request: laid out so, echoing its context, with a signature of the negotiated size exactly if one was asked for; every field where it was written |
| RecordReaders.MessageReadersAgree | harness/fields.py:564-602 | for one request and response, with what the proxy learned from that very request, the in-flight parser accepts and the context is echoed exactly when the offline one accepts and the record tiles; then every field is at the same offset |
| Cbor.Head | rats/cose.py:121-134 | a head exists exactly for arguments of 64 bits |
| Cbor.Load | rats/cose.py:186-223 | decoding terminates on every input and always moves forward inside the buffer, whatever count is declared |
| Cbor.LoadItem | rats/cose.py:186-223 | the recursion with its loops computes the specified decoding, which CborGrammar.LoadReadsExactly ties to the bytes of RFC 8949 |
| CborRoundTrip.LoadInvertsEnc | rats/cose.py:137-223 | decoding inverts encoding at any offset of any buffer |
| CborRoundTrip.LoadsInvertsDumps | rats/cose.py:137-230 | loads undoes dumps; with a suffix exactly when trailing bytes are allowed |
| CborRoundTrip.EncodingsArePrefixFree | rats/cose.py:137-164 | no encoding is the beginning of another value's |
| CborGrammar.ReadsHeadsExactly | rats/cose.py:167-183 | a head is read exactly as RFC 8949, section 3, has it: the major type in the upper three bits, the argument in the lower five or in the 1, 2, 4 or 8 bytes after |
| CborGrammar.DumpsStands | rats/cose.py:137-164 | what is written is an encoding of the value by major types 0 to 7 as the standard numbers them |
| CborGrammar.LoadReadsExactly | rats/cose.py:186-223 | the decoder accepts exactly the encodings of values it has, by heads of any width, and gives their value |
| Utf8.ValidExactly | rats/cose.py:192-197 | text is taken exactly when it is the UTF-8 encoding of some characters |
| CoseBytes.StandardVectors | rats/cose.py:137-164 | examples out of RFC 8949, appendix A |
| CborShortest.ReencodingNeverLengthens | rats/cose.py:137-230 | whatever loads accepts, dumps re-encodes in no more bytes, to the same value, and in as many only by giving the same bytes |
| CborShortest.CanonicalExactlyWhenStable | rats/cose.py:137-230 | a byte string is some value's encoding exactly when it re-encodes to itself |
| CborSorted.SortAscends | rats/cose.py:161-162 | the sort puts pairs with distinct keys in ascending order and keeps them all |
| CborSorted.LessExactly | rats/cose.py:158-163 | the order is that of the first byte in which two encoded keys differ, or of their lengths |
| CborSorted.SortedEncodingIsCanonical | rats/cose.py:158-163 | with sorted keys two values have one encoding exactly when they differ only in map order at any depth, and it decodes |
| DerInteger.DerToRaw | rats/cose.py:272-286 | the loop computes the specified reading of two INTEGERs, with every error it can meet |
| DerInteger.ContentsAreMinimal | rats/cose.py:253-257 | what is written is the minimal non-negative INTEGER of the same value |
| DerInteger.DerToRawInverts | rats/cose.py:264-286 | converting to DER and back loses nothing whenever the DER can be written |
| DerInteger.WritableExactly | rats/cose.py:253-269 | it can be written exactly for an even length whose two INTEGERs, headers included, come to at most 255 bytes |
| DerInteger.HalvesOf124Fit | rats/cose.py:253-269 | it can be written for halves of up to 124 bytes |
| CertificateBytes.ConverterWritesPairExactly | rats/cose.py:253-269 | what is written is the DER pair of the two integers exactly when each takes fewer than 128 bytes |
| DerInteger.RawToDerInverts | rats/cose.py:264-286 | canonical DER converted to raw has the fixed width and converts back to the identical bytes |
| DerInteger.ConvertersAgree | harness/challenge_verify.py:344-357 | the second converter gives the same result on every even length; only the first refuses odd ones |
| Cose.SigStructureInjective | rats/cose.py:323-324 | what is signed determines the protected bytes and the payload; the bytes themselves are stated by CoseBytes.SigStructureBytes |
| CoseBytes.SigStructureReads | rats/cose.py:323-324 | what is signed reads as four items: the text "Signature1", the protected bytes, an empty byte string and the payload, in this order |
| CoseBytes.SigStructureBytes | rats/cose.py:323-324 | and those are its bytes, with every head written out |
| CoseBytes.SigStructureVector | rats/cose.py:591-594 | the bytes signed for the header that names ES256 and a payload of one byte |
| CoseBytes.SentMessageReads | rats/cose.py:333-347 | what is sent reads as tag 18 of four items: the header with `1: -7` put in, nothing unprotected, the payload, and 64 bytes of signature made over the Sig_structure |
| CoseBytes.ParsesExactly | rats/cose.py:350-379 | what is understood is exactly such items, wrapped in tags 500 and 502 or bare, whatever is unprotected |
| Cose.VerifyInvertsSign | rats/cose.py:333-410 | verifying a signed message returns its payload and its header with the algorithm, wrapped or not |
| Cose.VerifiedWasSigned | rats/cose.py:350-410 | if the verifier accepts only Sig_structures of signed pairs, acceptance means that the transmitted protected bytes and the returned payload are one of them, and the returned header is the one those bytes hold and names ES256 |
| Cose.VerifiedWasAsked | rats/cose.py:333-410 | then payload and header are ones sign1 was given together, with the algorithm put in |
| CorimTables.SpellingsInvert | rats/appraise.py:117-138 | the label a string has in a table is that of the one name it spells |
| CorimTables.OwnLabel | rats/appraise.py:331-341 | a name of the key's own table gets that table's label, and the label leads back to it |
| CorimRoundTrip.TranslationIsExact | rats/appraise.py:331-420 | any document that can be encoded comes back as itself with list labels turned to names exactly when every name in it leads back to itself |
| CorimDocuments.DocumentsSurviveExactly | rats/appraise.py:353-440 | the same for whole documents through bytes and their two containers |
| CorimStable.ItemsComeBackExactly | rats/appraise.py:331-420 | any value that decodes encodes to itself exactly when it has no byte string, tag or boolean label and no list item that spells or, for a boolean, equals a label; names always lead back to their labels |
| CorimStable.ReencodingGivesTheBytesExactly | rats/appraise.py:353-440 | for every input that decodes, encoding the result gives the same bytes exactly when they are the encoding of what they hold, the tags are marked as the encoder marks them, and the rest is as above |
| CorimStable.EncodedDocumentsAreStableExactly | rats/appraise.py:353-440 | the same for every document that was encoded, whether its names came back or not |
| CorimKeyed.KeyedIsUnfaithful | rats/appraise.py:331-420 | an object under reference triples that has comid_mkey, whatever else it holds and however deep it stands, does not lead back to itself |
| CorimKeyed.KeyedDocumentsAreLost | rats/appraise.py:353-440 | no document with one comes back through bytes |
| CorimKeyed.KeyedMeasurementIsMisread | rats/appraise.py:398-399 | what a measurement with any key and any values is read as: an environment of a class and an instance |
| CorimKeyed.AKeyIsLostUnseen | rats/appraise.py:353-440 | a whole document with such a key: it is written, read as another document, and that is written as the same bytes |
| CorimReference.EvidenceFromWalk | rats/appraise.py:244-267 | the loop reports every block as the last one with its index, its claim as evidence or the index as dropped, in order, and the two add up to the blocks |
| CorimReference.ClaimExactly | rats/appraise.py:244-267 | a digest is what bit 7 of its type marks as one; of raw values only a secure version number of eight bytes is claimed |
| CorimReference.HexIsHexadecimal | rats/appraise.py:252 | a digest is given in hexadecimal, two digits a byte, the higher first |
| CorimReference.ReferenceFromWalk | rats/appraise.py:277-321 | the loop builds the document of the record's claims |
| CorimReference.ReferenceBecomes | rats/appraise.py:277-321 | the built document meets everything the translation asks and becomes the same with the hash and the roles named |
| CorimReference.EveryReferenceSurvives | rats/appraise.py:277-440 | for every record whose walk closes: it encodes, decodes to the named document in its containers, and that encodes to identical bytes |
| CorimBytes.ReferenceIsWritten | rats/appraise.py:277-375 | whatever was claimed, the document is written as CoRIM numbers it: tags 500, 501 and 506 and every label of every map |
| CorimReference.SameEvidenceSameReference | rats/appraise.py:244-321 | two records give the same evidence exactly when they give the same reference document |
| CorimRepeats.LastBlocksAreHeard | rats/appraise.py:244-267 | a claim is reported exactly when the last block of some index makes it, and an index is dropped exactly when its last block makes none |
| CorimRepeats.ReportedAreOwnExactly | rats/appraise.py:244-267 | the claims reported are the blocks' own exactly when any two blocks with one index make the same claim |
| CorimRepeats.DocumentsTellExactly | rats/appraise.py:244-321 | so too for the evidence and for the reference document |
| CorimRepeats.ARepeatedIndexHidesABlock | harness/fields.py:738-766 | a record that closes and loses a digest from both |
| Policy.EvidenceReads | rats/policy.rego:100-111 | a piece of evidence gives the policy the index, the named algorithm and the digest of the claim it was made of, or its index and version |
| Policy.TripleReads | rats/policy.rego:113-124 | so does a reference triple |
| Policy.AppraisesExactly | rats/policy.rego:79-269 | of any two lists of claims: nothing is decided exactly when one clashes with itself; otherwise the verdict is "pass" exactly when the hash is a known one, both say the same digests index by index and there is one, and the evidence has versions for the same indices as the reference, none lower, and there is one |
| Policy.ClaimsNeverClash | rats/policy.rego:92-98 | the claims of a record never clash, so its appraisal is always decided |
| Policy.AppraisalOfRecords | rats/appraise.py:244-569 | from two records to the verdict, through the reference encoded and decoded |
| Policy.OwnReferencePassesExactly | rats/policy.rego:151-269 | a record passes against the reference made of itself exactly when it says a digest and a version under a known hash |
| Policy.PassingChains | rats/policy.rego:151-269 | passing is transitive |
| Policy.ARepeatedIndexPasses | rats/policy.rego:92-98 | a record of two digests under index 1 that passes |
| DerWalk.ChainSequences | certs/check_chain.py:194-207 | the strict splitter's loop computes the specified spans |
| DerWalk.FieldsSequences | harness/fields.py:799-839 | the second strict splitter's loop computes its specified spans |
| DerWalk.LenientCertificates | harness/challenge_verify.py:182-200 | the lenient splitter's loop computes its specified slices, with its break and its IndexError |
| DerWalk.ReadersAgree | certs/check_chain.py:194-207 | both strict splitters accept the same bundles with the same spans; on those the lenient one returns the same slices |
| DerWalk.BytesNeeded | certs/check_chain.py:91 | the bit-length test is the number of bytes a minimal length needs |
| DerWalk.StrictAcceptsExactly | certs/check_chain.py:73-207 | accepted are exactly the nonempty concatenations of minimally encoded SEQUENCEs, and the spans tile the input |
| DerWalk.BundleSplitsBack | certs/check_chain.py:194-207 | a concatenation of SEQUENCEs splits back into them, in all readers |
| DerWalk.LenientExactly | harness/challenge_verify.py:182-200 | of any bytes the lenient splitter returns the SEQUENCEs they begin with, up to the first thing it does not take; a lone tag at the end is its IndexError |
| CertificateFlip.DerChildren | certs/check_chain.py:96-104 | the generator, run to its end, gives the specified children |
| CertificateFlip.ChildrenSame | certs/check_chain.py:73-104 | a byte inside the body of one child is not part of how the container reads |
| CertificateFlip.EcdsaFlipKeepsCertificate | certs/check_chain.py:236-294 | the byte named is a byte of s exactly when s has any, and flipping it leaves every field reading the same and everything before the signature unchanged |
| CertificateFlip.FlipIsInTheCertificate | certs/check_chain.py:236-294 | in a certificate that is all there the byte named exists and is in the signature |
| CertificateBytes.SpanExactly | certs/check_chain.py:236-266 | of the certificates that are all there, accepted are exactly those DER writes as three values, the first a SEQUENCE and the last a BIT STRING without unused bits |
| CertificateBytes.SpanReads | certs/check_chain.py:236-266 | and it reads where the first value and the signature were put |
| CertificateBytes.StructureExactly | certs/check_chain.py:271-279 | a structure is read exactly in a signature that is written as a SEQUENCE of two INTEGERs and any values after it |
| CertificateBytes.EcdsaFlipIsInS | certs/check_chain.py:280-288 | the flipped certificate is the certificate of the same parts with the byte of s at half its length flipped |
| CertificateBytes.OpaqueFlipIsInTheMiddle | certs/check_chain.py:289-293 | without structure it is the byte at half the length of the signature |
| CertificateFlip.OpaqueFlipKeepsFields | certs/check_chain.py:288-294 | without structure every outer field stays, whatever the flipped byte; only what is read inside the signature can change |
| FlipExactly.InsideExactly | certs/check_chain.py:73-104 | a signature reads as ECDSA exactly when headers of a SEQUENCE of two INTEGERs, and of whatever follows it, stand in it and fill it |
| FlipExactly.OpaqueFlipExactly | certs/check_chain.py:288-294 | the flip changes the reading exactly when the signature is such a structure but for the low bit of the one header octet the flip falls on |
| FlipExactly.NoSequenceNoChange | certs/check_chain.py:288-294 | a signature whose first byte is not the tag of a SEQUENCE reads the same after the flip |
| CertificateFlip.OpaqueCanBecomeEcdsa | certs/check_chain.py:288-294 | a certificate whose flip does make one |
| Fixture.Build | device/gen_measurements.py:92-113 | the writer's loop computes the specified file or refusal |
| Fixture.Parse | device/gen_measurements.py:116-161 | the reader's loop computes the specified reading or refusal |
| Fixture.ParseExactly | device/gen_measurements.py:116-161 | what the reader accepts, and what it then says, from the bytes alone |
| Fixture.ReaderReasonExactly | device/gen_measurements.py:116-161 | why the reader refuses: the first check of the header that fails, and then what is wrong with the first descriptor it does not take |
| Fixture.EveryByteIsNamed | device/gen_measurements.py:164-184 | of every file the reader takes every byte is the byte it is called: of the magic, the version, the count, the version number, a field of a descriptor, or a value |
| Fixture.Covering | device/gen_measurements.py:180-184 | the block found covers the offset, and none found means none covers it |
| MeasurementSource.RangeIsExact | device/measurement_source.c:74-81 | in uint32 arithmetic the check is the true one, and the sum it avoids is wrong exactly when it wraps to something small |
| MeasurementSource.AcceptsExactly | device/measurement_source.c:146-263 | the loader accepts exactly the files within the cap that the Python reader accepts, whose indices are legal and distinct and whose values lie past the table; its slots are then the reader's blocks |
| MeasurementSource.ReasonExactly | device/measurement_source.c:160-245 | the status of a refusal: the first check of the header that fails, and then the first descriptor at fault and what is wrong with it |
| MeasurementSource.IllegalIndexDiffers | device/measurement_source.c:219-221 | a file of 24 bytes with index 0 that the Python reader reads and the loader refuses |
| MeasurementSource.RepeatedIndexDiffers | device/measurement_source.c:222-224 | one with an index used twice |
| MeasurementSource.ValueInTableDiffers | device/measurement_source.c:236-238 | one with a value inside the header |
| MeasurementSource.SlotLeadsToValue | device/measurement_source.c:291-316 | the bytes a slot of an accepted file leads to are the value the Python reader reads |
| MeasurementSource.ScanCounts | device/measurement_source.c:206-245 | whatever the verdict, the block count is the number of slots present |
| MeasurementSource.Source.Fail | device/measurement_source.c:85-105 | nothing is held and the reason is kept, although slots and bytes stay |
| MeasurementSource.Source.Reset | device/measurement_source.c:135-144 | the state is that of a program just started |
| MeasurementSource.Source.Load | device/measurement_source.c:146-263 | the state after a load is decided by the file alone: held exactly if accepted, with the reason otherwise |
| MeasurementSource.Source.Ensure | device/measurement_source.c:272-278 | the environment's file is loaded once, on the first question |
| MeasurementSource.Source.GetBlock | device/measurement_source.c:291-316 | true exactly when the held file has a value of exactly that length under the index, and then the buffer is that value; otherwise the buffer is untouched |
| MeasurementSource.Source.GetSvn | device/measurement_source.c:318-327 | the held file's version as the Python reader reads it, or nothing |
| MeasurementSource.Source.IsLoaded | device/measurement_source.c:282-289 | the count is the reader's number of blocks and the number of slots present |
| MeasurementSource.OnlyTheLastAttemptCounts | device/measurement_source.c:135-327 | after any history of loads, resets and questions the state is what the last attempt alone would have left |
| MeasurementSource.HeldExactly | device/measurement_source.c:135-327 | bytes are exposed exactly when the last attempt read them and accepted them |
| MeasurementSource.AskKeepsStatusExactly | device/measurement_source.h:136-139 | after any history a question leaves the status as it was exactly when a load was attempted before or the environment names no file |
| MeasurementSource.AQuestionChangesTheStatus | device/measurement_source.h:136-139 | a first question that does change it |
| FixtureRoundTrip.SortedIsSorted | device/gen_measurements.py:94 | the writer's order is the dict's items by ascending index |
| FixtureRoundTrip.BuildsExactly | device/gen_measurements.py:92-113 | the writer succeeds exactly for legal indices, values of at most 65535 bytes and a 64-bit version, and then the file is header, table and payload |
| FixtureRoundTrip.RefusesExactly | device/gen_measurements.py:92-113 | it fails on what cannot be packed, and otherwise names the least index whose item is illegal, and whether the index or the value is |
| FixtureRoundTrip.BuiltImagesParse | device/gen_measurements.py:92-161 | its own reader gives back the version and every block in order |
| FixtureRoundTrip.BuiltImagesLoad | device/measurement_source.c:146-263 | the loader accepts a built file exactly within the cap, and otherwise says it is too large |
| FixtureRoundTrip.BuiltImagesServeTheDict | device/measurement_source.c:291-316 | under every index the readers find the dict's value and nothing else |
| FixtureRoundTrip.PayloadBytesAreLocated | device/gen_measurements.py:164-184 | past the table of a built file every byte is located in a value |
| FixtureRoundTrip.FlipIsARebuild | device/gen_measurements.py:262-280 | flipping a byte located in a value gives the very file built from the dict with that byte of that value flipped |

## Left out

- Sockets and `select`: a stream is any segmentation of its bytes, the order of service any schedule, its end the idle timeout; a reset reads as the end of the stream and other socket errors do not occur.
- File reads, subprocesses, command lines, JSON text and printed prose; a path is what it leads to, an environment variable a parameter.
- SHA-256 digests in reports (`record_sha256`, `value_sha256`) and the human-readable `why` and `what` strings; refusals are told apart by which check fired.
- Dechunk.Dechunk: CHUNK_SEND is counted and passed through, as in the source, which does not reassemble it; direction, version and name strings of rebuilt entries are not kept.
- Certificates.Walk: the hash width, which the source reads from the ALGORITHMS response, is a parameter.
- Cbor.LoadItem: Python's recursion limit is not modelled; floats and tuples, which `dumps` refuses or treats as lists, are not values of the model.
- Cose.VerifyInvertsSign: openssl is any signer that answers canonical DER for the curve and any verifier that accepts it; key files and the certificate of the signer are not modelled.
- CorimDocuments.DocumentsSurviveExactly: a CBOR byte string that is not UTF-8 keeps its bytes in the JSON where the source puts replacement characters; documents encoded here hold no byte strings.
- CorimReference.EvidenceFromWalk: a dropped block is its index; its type name and size in the coverage report are not kept.
- RecordReaders.MeasurementRecord: the fields that repeat others (hex, type names, digests) are not kept, and blocks are kept as a list from which the dict is read.
- Fixture.Build: a dict key that is not an integer does not occur.
- MeasurementSource.Source.Load: the text written to standard error is not modelled.
- CHALLENGE_AUTH, DIGESTS and the chain layout in harness/fields.py, X.509 extensions and object identifiers in certs/check_chain.py: further readers of the same shapes.
- Policy.AppraisesExactly: the policy is read for evidence and references made of records; documents with other shapes, values of other types, the detail of a verdict and the equality policy kept beside it are not modelled, nor is its engine.
- Report rendering, drawing, and the drill exercises under c-drills.
