# Verified model of quic.cr

quic.cr is a QUIC and HTTP/3 stack in Crystal. This project models the parts of it whose
correctness cannot be seen from one function at a time, and proves what they promise over
every input, every interleaving and every run:

- **QPACK** (`PrefixInteger`, `DynamicTable`, `RequiredInsertCount`, `QpackEncoder`,
  `QpackDecoder`, `QpackRoundTrip`, `QpackReferences`, `QpackModulus`, `EncoderStreamCuts`,
  `DecoderStream`): the two-pass encoder, the replay of its instruction stream, the
  field-section decoder, for blocks of this encoder and of any other, and the acknowledgments,
  down to the bytes.
- **The QUIC connection** (`KeyUpdate`, `CryptoStream`, `AckRanges`, `PacketNumber`,
  `Coalescing`, `SendPath`, `SendStreams`, `SendChoice`): 1-RTT key update between two endpoints over a network that loses,
  repeats and reorders; CRYPTO cutting and reassembly; ACK ranges; packet numbers; coalesced
  datagrams; flow control and the queue of lost frames.
- **The connection actor** (`WakeUp`, `StreamForwarding`, `ActorStreams`, `Pacing`): the
  response queue and its wake-up channel, the byte path from a stream to a request handler,
  the actor's stream tables, the pacing token bucket.
- **Datagram batching** (`BatchIo`) and the **request stream** acceptor (`RequestStream`).

Objects that the code updates in place are classes here; each of their methods is proved
equal to a step of a value-level state machine, and the run theorems are about that machine.
Bytes are integers below 256, and checked 64-bit and 32-bit arithmetic that raises is an
explicit error result. Exceptions are results (`Raised`, `None`, `Raise`, `Fault`).

## Where the code does less than it promises

Each of these is proved, with its exact condition or a concrete input.

- `RequiredInsertCounts.Modulus256RightIff128`, `QpackModulus.BlockRightIff`: the encoder wraps its
  insert count at 256 whatever the capacity (`src/h3/qpack.cr:168`), and
  `src/h3/connection.cr:294-301` accepts any capacity. The count is right for every insert count
  if and only if capacity / 32 is 128. At any capacity, with equal tables, a map comes back if
  and only if the decoder reads the right count, or a smaller one while no line refers to the
  dynamic table; otherwise the section fails, blocks, or yields wrong headers silently
  (`QpackModulus.WrongHeaderAccepted`).
- `AckRanges.BuildAck`, `AckRanges.RepeatStopsTheSpace`: received packet numbers are never
  deduplicated, and building an ACK raises if and only if one is repeated. Nothing removes the
  repeat, so one replayed packet stops the acknowledgments of its space for ever.
- `PacketNumbers.RecoveredIff`: the code never steps a candidate below zero, so near the start
  of a connection it also recovers some numbers above the window; everywhere else it recovers
  exactly those within half a window.
- `KeyUpdates.PeerUpdateFollowedIff`, `KeyUpdates.TwoInitiatorsDiverge`: an endpoint's own key
  update leaves its idea of the peer's phase alone, so a later update by the peer is followed
  if and only if the two still have the same parity.
- `SendPath.SendWithinBudgetIff`, `SendPath.PacketOverBudget`: `src/quic/connection.cr:1181-1184`
  budgets all stream frames of a packet together, but the lost frame that goes along is not
  counted. Whatever the streams hold, a packet stays within its budget if and only if the lost
  frame leaves room for all the new data that window and budget allow; 1170 new and 1170 re-sent
  bytes fit into one packet with a budget of 1170.
- `DecoderStreams.ExactIff`, `DecoderStreams.StaleExactly`: an empty field section is acknowledged
  if an earlier section, on any stream and possibly still blocked, left a positive count behind.
  The peer and this endpoint stay in step at every point of a run if and only if no empty section
  is decoded while such a count is remembered. Otherwise the peer closes the connection
  (`DecoderStreams.PeerCloses`) or takes the acknowledgment for a later section of that stream,
  and may count entries that have not arrived (`DecoderStreams.PeerOvercounts`).
- `DecoderStreams.UpToDateIff`, `DecoderStreams.OneUnannounced`: entries inserted by a batch before
  one of its instructions raises stay unannounced, and that is the only way to fall behind.
- `EncoderStreamCuts.InsertionCut`: no state is kept between calls, so a read that ends inside an
  instruction either raises, exactly if the cut falls inside an integer, or inserts an entry
  with a shortened name or value. `src/h3/server.cr:322-326` reads 4096 bytes at a time.
- `StreamForwarding.HandlerWaitsForEver`, `StreamForwarding.DroppedWithoutEofIff`: a stream that is
  reset before its end was forwarded is dropped without an end-of-file chunk, and from then on
  its handler never sees one.
- `BatchIo.OnWireExact`, `BatchIo.RunConserves`: a `sendmmsg` that takes only part of a batch
  loses the rest, and a segment size of zero cannot carry a batch of empty datagrams.
- `ActorStreams.DispatchedTwiceIff`, `ActorStreams.LateFrameDispatchesAgain`: an id is dispatched
  twice exactly if its stream appears again after its clean-up, and a late STREAM frame
  (`src/quic/connection.cr:669-673`) makes it appear again.
- `Coalescing.KeylessCutIff`: a packet whose keys are missing takes the rest of its datagram with
  it (`src/quic/connection.cr:488`), so packets behind it are lost.
- `SendStreams.BlockedTruthfulIff`: a stream is reported as blocked whenever it is not sent to its
  end, also when only the packet was too small.
- `SendChoice.ParametersReplace`: transport parameters that take effect after a MAX_DATA frame
  replace its limit, and lower it exactly if they are smaller.
- `PrefixInteger.HighBitsLost`: integers beyond 64 bits are not all refused; bits shifted out are
  dropped silently.
- `RequestStreams.RequestCut`: a stream that ends inside a DATA frame is not told apart from a
  complete one; the handler runs with the DATA frames that are whole.
- `RequestStreams.UnknownFrameIgnoredIff`: `src/h3/frame.cr:226` says that unknown frames are
  silently ignored, but before the headers one loses the request and after them one ends the
  body. The condition is given for every position of the frame.

## Model

| member | source | states |
|---|---|---|
| `PrefixInteger.TailRoundTrip` | src/h3/qpack/integer.cr:25-51 | the continuation bytes of a value decode back to it at any shift, followed by anything |
| `PrefixInteger.EncodeDecode` | src/h3/qpack/integer.cr:7-52 | a 64-bit value written with any prefix length and flags decodes to itself, with exactly its own bytes consumed |
| `PrefixInteger.Write` | src/h3/qpack/integer.cr:38-52 | the encoding loop writes the specified bytes |
| `PrefixInteger.ReadAt` | src/h3/qpack/integer.cr:7-34 | the decoding loop agrees with the specified reader on every input, truncated and overlong ones included |
| `PrefixInteger.MaskIsAllOnes` | src/h3/qpack/integer.cr:8-18 | the mask of every prefix length |
| `PrefixInteger.PublishedExamples` | src/h3/qpack/integer.cr:38-52 | the examples of appendix C.1 of RFC 7541 |
| `PrefixInteger.TooLargeRaises` | src/h3/qpack/integer.cr:28 | a value pushed beyond 64 bits by its prefix raises |
| `PrefixInteger.HighBitsLost` | src/h3/qpack/integer.cr:28-29 | an integer of 2^64 + 31 is read as 31 |
| `DynamicTables.EvictIsMinimal` | src/h3/qpack/dynamic_table.cr:28-34 | eviction keeps the longest suffix that fits: what is left fits and nothing longer would |
| `DynamicTables.AddExtends` | src/h3/qpack/dynamic_table.cr:17-26 | an insertion renumbers no entry, counts one, and leaves the table within capacity |
| `DynamicTables.AddKeepsNewest` | src/h3/qpack/dynamic_table.cr:17-34 | a new entry is found under the old insert count if and only if name, value and 32 bytes fit; otherwise the table is emptied |
| `DynamicTables.SetCapacityExtends` | src/h3/qpack/dynamic_table.cr:12-15 | a capacity change drops only oldest entries and renumbers nothing |
| `DynamicTables.DynamicTable.SetCapacity` | src/h3/qpack/dynamic_table.cr:12-15 | the object follows the value-level table and keeps its redundant counters consistent |
| `DynamicTables.DynamicTable.Add` | src/h3/qpack/dynamic_table.cr:17-26 | same, for an insertion |
| `DynamicTables.DynamicTable.EvictIfNeeded` | src/h3/qpack/dynamic_table.cr:28-34 | the eviction loop drops exactly the minimal prefix |
| `DynamicTables.DynamicTable.GetByAbsolute` | src/h3/qpack/dynamic_table.cr:37-44 | lookup by insertion number, nothing for dropped or future entries |
| `DynamicTables.DynamicTable.GetByRelative` | src/h3/qpack/dynamic_table.cr:48-52 | lookup counted backwards from a base, nothing at or past it |
| `DynamicTables.DynamicTable.GetByPostBase` | src/h3/qpack/dynamic_table.cr:56-59 | lookup counted forwards from a base |
| `RequiredInsertCounts.ReconstructRecovers` | src/h3/qpack.cr:262-273 | any count less than MaxEntries behind or up to MaxEntries ahead is recovered, for every MaxEntries, without under- or overflow |
| `RequiredInsertCounts.CountTooHighRaises` | src/h3/qpack.cr:265-272 | a count above the window raises before the first wrap |
| `RequiredInsertCounts.MaxEntriesIs` | src/h3/qpack.cr:265 | MaxEntries for every capacity, none included |
| `RequiredInsertCounts.Modulus256Exact` | src/h3/qpack.cr:163-170 | exactly which insert counts survive the hard-coded modulus at a given capacity |
| `RequiredInsertCounts.Modulus256RightIff128` | src/h3/qpack.cr:163-170 | all of them do if and only if MaxEntries is 128 |
| `QpackModulus.Pass1KeepsDistinct` | src/h3/qpack.cr:108-131 | the encoder's table never holds an entry twice |
| `QpackModulus.BlockMisread` | src/h3/qpack.cr:163-170 | what becomes of any block at any capacity: failed, blocked, or its lines resolved against the count that was read |
| `QpackModulus.BlockRightIff` | src/h3/qpack.cr:163-170 | with equal tables of any capacity a map comes back if and only if the count is read right, or smaller with no dynamic reference |
| `QpackModulus.EncodedRightIff` | src/h3/qpack.cr:106-176 | the same after any encoder call |
| `QpackModulus.WrongHeaderAccepted` | src/h3/qpack.cr:262-294 | at capacity 3200 after 256 insertions a header comes back as the entry 56 before it |
| `QpackModulus.TinyCapacityFails` | src/h3/qpack.cr:265-269 | with a capacity below 32 every block after the first insertion fails |
| `QpackEncoding.FindExact` | src/h3/qpack.cr:178-190 | the first position of a name and value, or proof that there is none |
| `QpackEncoding.FindName` | src/h3/qpack.cr:193-223 | the first position of a name, or proof that there is none |
| `QpackEncoding.Encoder.SetCapacity` | src/h3/qpack.cr:95-98 | table and instruction stream after a capacity change |
| `QpackEncoding.Encoder.Insert` | src/h3/qpack.cr:108-131 | one turn of pass 1: the instruction that is written and the insertion it stands for |
| `QpackEncoding.Encoder.InsertNovel` | src/h3/qpack.cr:107-131 | pass 1 over a whole map, evictions by later insertions included |
| `QpackEncoding.Encoder.WriteLine` | src/h3/qpack.cr:139-161 | one field line against the table pass 1 left behind |
| `QpackEncoding.Encoder.WriteLines` | src/h3/qpack.cr:136-161 | all field lines in order |
| `QpackEncoding.Encoder.WritePrefix` | src/h3/qpack.cr:163-170 | the wrapped Required Insert Count and the zero Delta Base |
| `QpackEncoding.Encoder.EncodeHeaders` | src/h3/qpack.cr:106-176 | table, instruction stream and block after one call |
| `QpackDecoding.Decoder.ReadString` | src/h3/qpack.cr:26-39 | string decoding with its clamp to the data there is |
| `QpackDecoding.Decoder.ApplyInstruction` | src/h3/qpack.cr:47-84 | one encoder-stream instruction; one that raises leaves the table as it was |
| `QpackDecoding.Decoder.ProcessEncoderStream` | src/h3/qpack.cr:45-86 | the replay loop, with the table it leaves even when it raises |
| `QpackDecoding.Decoder.ReadLine` | src/h3/qpack.cr:299-342 | the five field-line forms, unresolvable references included |
| `QpackDecoding.Decoder.DecodeFields` | src/h3/qpack.cr:296-365 | the field-line loop with its validation |
| `QpackDecoding.Decoder.DecodeHeaders` | src/h3/qpack.cr:253-366 | every outcome of decoding a section: headers, blocked, invalid, failed; the table is untouched |
| `QpackRoundTrip.StringRoundTrip` | src/h3/qpack.cr:225-228 | a written string reads back, consuming exactly itself |
| `QpackRoundTrip.HuffmanRead` | src/h3/qpack.cr:26-39 | a string with the Huffman bit is what the Huffman decoder makes of exactly its bytes, or raises |
| `QpackRoundTrip.InsertReplayed` | src/h3/qpack.cr:113-130 | replaying the instruction for an insertion performs exactly that insertion |
| `QpackRoundTrip.BatchReplayed` | src/h3/qpack.cr:45-86 | replaying the instructions of pass 1 gives the encoder's table, whatever was evicted on the way |
| `QpackRoundTrip.CapacityReplayed` | src/h3/qpack.cr:93-98 | same for a capacity change |
| `QpackRoundTrip.ReplayExtends` | src/h3/qpack.cr:45-86 | no bytes on the encoder stream can renumber or rewrite an entry |
| `QpackRoundTrip.LineDecoded` | src/h3/qpack.cr:305-342 | a written line decodes to its header, or to nothing if its entry has since been dropped |
| `QpackRoundTrip.LinesDecoded` | src/h3/qpack.cr:299-364 | same for all lines, for any decoder table that extends the encoder's |
| `QpackRoundTrip.ValidateExact` | src/h3/qpack.cr:349-363 | lines are accepted if and only if pseudo-headers come first and none is repeated; the map is then their successive assignment |
| `QpackRoundTrip.BehindBlocks` | src/h3/qpack.cr:276-279 | a decoder that lacks insertions reports blocked, with the exact count needed |
| `QpackRoundTrip.BlockDecoded` | src/h3/qpack.cr:253-366 | a decoder level or ahead decides by validating the surviving lines, for any header list |
| `QpackRoundTrip.AheadNeverWrong` | src/h3/qpack.cr:258-342 | a decoder ahead returns the original headers minus those whose entries were dropped; all of them if and only if none was |
| `QpackRoundTrip.LevelRoundTrip` | src/h3/qpack.cr:106-176 | level tables return the map unchanged if and only if its names are non-empty and well ordered |
| `QpackRoundTrip.ExchangeFaithful` | src/h3/qpack.cr:106-176 | one encode or resize, its instructions delivered before its block |
| `QpackRoundTrip.SessionFaithful` | src/h3/qpack.cr:89-366 | over any session both tables stay equal and every block decodes to the map that was encoded |
| `QpackRoundTrip.ConnectionFaithful` | src/h3/qpack.cr:89-366 | the same from the empty tables of a new connection |
| `QpackRoundTrip.LaterDecoderNeverWrong` | src/h3/qpack.cr:258-342 | however many further bytes the decoder replayed first, it returns no wrong header |
| `QpackRoundTrip.InsertsExactlyNew` | src/h3/qpack.cr:108-130 | a header is inserted if and only if it is in neither table and there is a dynamic table |
| `QpackRoundTrip.Pass1InsertsAll` | src/h3/qpack.cr:107-131 | while there is room every header that is not static is in the table after pass 1, and nothing is dropped |
| `QpackRoundTrip.NoTableNoInstructions` | src/h3/qpack.cr:111 | without a dynamic table pass 1 does nothing |
| `QpackRoundTrip.LineForms` | src/h3/qpack.cr:139-161 | which of the four line forms each header gets |
| `QpackRoundTrip.LastLineWins` | src/h3/qpack.cr:363 | of several lines with one name the last counts |
| `QpackRoundTrip.PutAllDistinct` | src/h3/qpack.cr:363 | the map has each name once |
| `QpackReferences.RefDecoded` | src/h3/qpack.cr:305-342 | every line form, strings plain or Huffman-coded, with either never-indexed bit, decodes to what it refers to on either side of any Base, or raises on a bad Huffman code |
| `QpackReferences.WideIndexRaises` | src/h3/qpack.cr:305-342 | an index of 2^31 or more raises in every indexed form |
| `QpackReferences.AllRefsDecoded` | src/h3/qpack.cr:299-364 | all lines of a section: validated up to the first that cannot be read, which fails the section |
| `QpackReferences.BaseDecoded` | src/h3/qpack.cr:281-294 | any Base is recovered from its sign and delta |
| `QpackReferences.CountDecoded` | src/h3/qpack.cr:258-274 | the Required Insert Count of a conforming encoder is recovered at every capacity |
| `QpackReferences.SectionDecoded` | src/h3/qpack.cr:253-366 | any section of any encoder: blocked if and only if it needs more insertions, else invalid, decoded or failed by what its lines stand for |
| `QpackReferences.BaseDoesNotMatter` | src/h3/qpack.cr:286-294 | two sections that differ only in the Base decode alike |
| `QpackReferences.OddBases` | src/h3/qpack.cr:281-294 | a Base below zero or beyond 64 bits fails the section; a section without one has no fields |
| `QpackReferences.OrderRead` | src/h3/qpack.cr:45-86 | every instruction of any encoder, strings plain or Huffman-coded, does what it says or raises on a bad Huffman code |
| `QpackReferences.OrdersRead` | src/h3/qpack.cr:45-86 | a whole encoder stream of any encoder, up to the first bad Huffman code |
| `QpackReferences.WideOrderRaises` | src/h3/qpack.cr:54-81 | an index of 2^31 or more raises |
| `EncoderStreamCuts.RaisesIff` | src/h3/qpack.cr:45-86 | a batch raises if and only if it is completed instructions and then bytes on which one raises |
| `EncoderStreamCuts.FailsAfterExactly` | src/h3/qpack.cr:45-86 | the table is then what the completed part makes on its own |
| `EncoderStreamCuts.IntegerCutRaises` | src/h3/qpack/integer.cr:25-31 | an integer cut anywhere raises |
| `EncoderStreamCuts.StringCut` | src/h3/qpack.cr:26-39 | a string cut inside its length raises; cut later it is silently shortened |
| `EncoderStreamCuts.InsertionCut` | src/h3/qpack.cr:54-73 | for every insertion and every cut: raises if and only if inside an integer, else which shortened entry is inserted, and that it is wrong unless only the zero length of an empty value is missing |
| `EncoderStreamCuts.ShortNameInserted` | src/h3/qpack.cr:69-73 | four bytes of an insertion insert a three-byte name with an empty value |
| `EncoderStreamCuts.CapacityCut` | src/h3/qpack.cr:49-52 | a capacity change cut anywhere raises |
| `DecoderStreams.RememberedIsCarried` | src/h3/qpack.cr:258-274 | the count remembered for a section is the one its sender wrote |
| `DecoderStreams.HearAllPushed` | src/h3/connection.cr:240-246 | a section the peer sends later waits behind the others and changes nothing read before |
| `DecoderStreams.AttemptExactIff` | src/h3/connection.cr:200-226 | one attempt keeps peer and endpoint in step if and only if it is not a stale acknowledgment |
| `DecoderStreams.StepExactIff` | src/h3/connection.cr:103-111 | same for any step, and the peer's count stays complete if no batch raises |
| `DecoderStreams.KnownReceivedCount` | src/h3/connection.cr:200-253 | over any interleaving on any number of streams, unless an acknowledgment is stale: each acknowledgment meets an unacknowledged section of its own stream, the peer waits for exactly what is not decoded, never counts an entry that did not arrive, and counts all if no batch raised |
| `DecoderStreams.ExactIff` | src/h3/connection.cr:200-253 | all this holds at every point of a run if and only if no empty section is decoded while an earlier count is remembered |
| `DecoderStreams.StaleExactly` | src/h3/connection.cr:221-223 | what a stale acknowledgment does: the peer closes if and only if nothing is queued on the stream, else it counts the next section, wrongly if and only if that needs more than has arrived |
| `DecoderStreams.BlockedThenEmpty` | src/h3/qpack.cr:256-279 | any blocked section makes an empty one on another stream stale |
| `DecoderStreams.PeerCloses` | src/h3/frame.cr:179-187 | four events on a new connection after which the peer closes |
| `DecoderStreams.PeerOvercounts` | src/h3/connection.cr:221-223 | six events after which the peer counts five entries of one |
| `DecoderStreams.ShortByTheInserted` | src/h3/connection.cr:103-111 | a batch that raises leaves the peer short by exactly what its completed instructions inserted |
| `DecoderStreams.EncodedThenRaises` | src/h3/connection.cr:103-111 | the same for any instructions an encoder wrote, followed by one that raises |
| `DecoderStreams.OneUnannounced` | src/h3/connection.cr:103-111 | a five-byte batch that leaves one entry unannounced |
| `DecoderStreams.UpToDateIff` | src/h3/connection.cr:103-111 | a batch keeps the peer up to date if and only if it is not completed instructions that insert followed by bytes on which one raises |
| `DecoderStreams.H3Connection.ProcessEncoderStream` | src/h3/connection.cr:103-111 | table and Insert Count Increment after a batch |
| `DecoderStreams.H3Connection.ReadSection` | src/h3/connection.cr:200-246 | outcome, remembered count and Section Acknowledgment for one section |
| `KeyUpdates.KeySchedule.TriggerKeyUpdate` | src/quic/connection.cr:1415-1454 | all key fields after a self-initiated update |
| `KeyUpdates.KeySchedule.HandlePeerKeyUpdate` | src/quic/connection.cr:1460-1507 | trial order and commit when the peer's phase differs |
| `KeyUpdates.KeySchedule.OpenWith` | src/quic/connection.cr:570-583 | one decryption attempt with one packet number |
| `KeyUpdates.KeySchedule.ReceiveShortHeader` | src/quic/connection.cr:568-604 | both attempts, reconstructed number first |
| `KeyUpdates.OpenExact` | src/quic/connection.cr:570-604 | exactly which packets open and exactly when keys move |
| `KeyUpdates.InitiatorOpens` | src/quic/connection.cr:570-604 | at the initiator the current and previous generation open and no receipt moves keys |
| `KeyUpdates.ResponderOpens` | src/quic/connection.cr:1460-1507 | at the responder previous, current and next open and only the next moves keys |
| `KeyUpdates.RunKeepsInv` | src/quic/connection.cr:1415-1507 | the joint invariant of both endpoints and both directions in flight holds in every run |
| `KeyUpdates.KeyUpdateSafety` | src/quic/connection.cr:570-604 | generations differ by at most one; a packet in flight opens if and only if it is at most one generation old; a failure changes no keys |
| `KeyUpdates.NoSecretsNoUpdates` | src/quic/connection.cr:1463 | without application secrets no keys move and only known generations open |
| `KeyUpdates.PeerUpdateFollowedIff` | src/quic/connection.cr:570-572 | when an update by the peer is followed at all |
| `KeyUpdates.TwoInitiatorsDiverge` | src/quic/connection.cr:1415-1454 | two endpoints that both update lock each other out |
| `CryptoStreams.CryptoSender.Poll` | src/quic/connection.cr:901-934 | TLS output is appended to what is pending |
| `CryptoStreams.CryptoSender.Cut` | src/quic/connection.cr:936-963 | the next chunk of at most 1000 bytes at the running offset |
| `CryptoStreams.CutExact` | src/quic/connection.cr:936-963 | each cut takes the next 1000 bytes or all there is |
| `CryptoStreams.AllIsCut` | src/quic/connection.cr:936-963 | repeated cuts send everything, in frames of at most 1000 bytes at offsets a thousand apart |
| `CryptoStreams.CryptoReceiver.Gather` | src/quic/connection.cr:802-819 | every gathered byte comes from a fragment at its own position; consumed fragments lie below the new offset; it ends only when nothing covers that offset |
| `CryptoStreams.CryptoReceiver.HandleCryptoFrame` | src/quic/connection.cr:791-857 | the same for one frame, with TLS input and offset advanced together |
| `CryptoStreams.RunKeepsInv` | src/quic/connection.cr:791-963 | the link invariant in every run with reordering, loss and duplication |
| `CryptoStreams.CryptoDelivery` | src/quic/connection.cr:791-963 | TLS has been given exactly a prefix of the produced bytes, and all cut ones once every frame has arrived |
| `CryptoStreams.AllArrivedMeansAll` | src/quic/connection.cr:798-819 | no byte is stuck once every frame has arrived |
| `AckRanges.PeerReadsTheSame` | src/quic/recovery.cr:87-98 | on well-formed frames the peer's clamped walk agrees with section 19.3.1 of RFC 9000 |
| `AckRanges.RunDown` | src/quic/connection.cr:1092-1096 | the maximal run of consecutive numbers below a position, and when counting it underflows |
| `AckRanges.Walk` | src/quic/connection.cr:1088-1113 | on a sorted list: a frame if and only if strictly increasing, well-formed and covering exactly the list |
| `AckRanges.BuildAck` | src/quic/connection.cr:1086-1113 | for any list: a frame if and only if no number repeats, covering exactly the list |
| `AckRanges.SortDistinct` | src/quic/connection.cr:1087 | sorting gives a strictly increasing list if and only if no number repeats |
| `AckRanges.EveryNumberAckedOnce` | src/quic/connection.cr:1086-1116 | over any history without repeats the emitted frames are disjoint and with the pending list hold exactly what was received |
| `AckRanges.RepeatStopsTheSpace` | src/quic/connection.cr:1086-1116 | once an ACK is due with a repeated number pending, every later send raises and no ACK is emitted, in every run |
| `AckRanges.ReplayStopsTheSpace` | src/quic/connection.cr:606-618 | one eliciting packet received twice brings this about |
| `AckRanges.PacketNumberSpace.Receive` | src/quic/connection.cr:606-618 | a received number becomes pending, and an ACK due if eliciting |
| `AckRanges.PacketNumberSpace.Send` | src/quic/connection.cr:1086-1116 | returns a frame if and only if an ACK is due, something is pending and no number repeats; it covers exactly the pending numbers, which are cleared; a repeat raises and keeps everything |
| `PacketNumbers.RecoversInWindow` | src/quic/connection.cr:627-640 | a number within half a window of the expected one is recovered, and is the only one there with those low bits |
| `PacketNumbers.RecoveredIff` | src/quic/connection.cr:627-640 | exactly which numbers are recovered |
| `PacketNumbers.KeepsLowBits` | src/quic/connection.cr:632-639 | whatever arrives, the result has the truncated value as its low bits |
| `PacketNumbers.RecoversOnTheWire` | src/quic/connection.cr:549-568 | the four widths used on the wire |
| `Coalescing.VarIntRoundTrip` | src/quic/varint.cr:4-81 | every value below 2^62 reads back, consuming exactly its own bytes |
| `Coalescing.VarIntLengths` | src/quic/varint.cr:4-36 | the shortest of the four lengths, and its tag |
| `Coalescing.LongCutExactly` | src/quic/connection.cr:483-535 | a sent long-header packet followed by anything is cut off at its own end, in either version |
| `Coalescing.Recv` | src/quic/connection.cr:331-337 | on every datagram the loop terminates, gives the specified cut, and its packets are a prefix of the data |
| `Coalescing.CoalescingRoundTrip` | src/quic/connection.cr:331-337 | packets joined with a short header only last are cut apart at the same boundaries, also when an early packet installs the keys of a later one |
| `Coalescing.SendCoalesced` | src/quic/connection.cr:1272-1285 | at most three non-empty packets, a short header only last, and why it stopped |
| `Coalescing.DatagramCutBack` | src/quic/connection.cr:1272-1285 | what the sending loop wrote is cut back into exactly those packets |
| `Coalescing.LongHeaderLayout` | src/quic/packet.cr:30-64 | form, type and version on the wire, in both versions |
| `Coalescing.KeylessSkipsRest` | src/quic/connection.cr:488 | a packet without keys is skipped without an exception, together with the rest of the datagram |
| `Coalescing.KeylessCutIff` | src/quic/connection.cr:488 | a datagram that starts with such a packet is cut at its boundaries if and only if nothing follows |
| `Coalescing.ForgedRaises` | src/quic/connection.cr:517 | a packet that does not authenticate raises |
| `Coalescing.ShortPacketOutcome` | src/quic/connection.cr:536-621 | every outcome of a short-header packet |
| `Coalescing.HeaderCutShort` | src/quic/connection.cr:361-480 | every place where a long header may end too early |
| `Coalescing.ProtectedBounds` | src/quic/connection.cr:483-535 | the exact bounds on the protected part: 20 bytes to sample, and the announced length |
| `Coalescing.ClientSkips` | src/quic/connection.cr:361-480 | at a client, version negotiation and Retry take the whole datagram |
| `Coalescing.VersionRemembered` | src/quic/connection.cr:361-480 | an unknown version is read as the last known one |
| `SendPath.PollWithinLimits` | src/quic/stream.cr:151-186 | a poll yields the next bytes of the stream within all three limits |
| `SendPath.PackWithinLimits` | src/quic/connection.cr:1180-1204 | however many streams compete, a packet's new data fits the connection window and the packet budget |
| `SendPath.PackAdvances` | src/quic/connection.cr:1187-1204 | packing moves each stream forward only, never past its own limit |
| `SendPath.FillPacket` | src/quic/connection.cr:1187-1204 | the packing loop computes `Pack`, whose frames `SendStreams.PackedFrames` spells out, and charges exactly its bytes |
| `SendPath.Connection.QueueLostFrames` | src/quic/connection.cr:295-303 | exactly the STREAM, CRYPTO, MAX_DATA, MAX_STREAM_DATA and DATAGRAM frames of the packets are queued, in order, under their space id |
| `SendPath.Connection.QueueFramesOf` | src/quic/connection.cr:297-301 | the same for one packet |
| `SendPath.QueuedAsOften` | src/quic/connection.cr:298 | a frame is queued as often as it was lost if it is of one of those five kinds, and never otherwise |
| `SendPath.Connection.PackStreams` | src/quic/connection.cr:1180-1204 | new data is charged as it is packed |
| `SendPath.Connection.FillStreams` | src/quic/connection.cr:1118-1205 | the packet gets new stream data exactly in a 1-RTT or 0-RTT packet without TLS data, congestion control permitting |
| `SendPath.Connection.TakeLost` | src/quic/connection.cr:1212-1217 | at most the first lost frame leaves, and only under its own space id |
| `SendPath.Connection.BuildPacket` | src/quic/connection.cr:1118-1251 | state, packet and departures of building one packet; none is sent without a frame |
| `SendPath.Connection.Send` | src/quic/connection.cr:875-1251 | the same for a whole call, with the choice of space and the purge of frames without keys |
| `SendPath.SendKeepsCredit` | src/quic/connection.cr:1180-1204 | one call keeps the credit invariant, and its packet carries at most path MTU minus 30 clamped to 256..1200 bytes of new data |
| `SendPath.PacketWithinBudgetIff` | src/quic/connection.cr:1181-1217 | new and re-sent stream bytes of a packet stay within that budget for all stream contents if and only if the lost frame leaves room for all the new data allowed |
| `SendPath.SendWithinBudgetIff` | src/quic/connection.cr:875-1217 | the same for a whole call, after its purge and choice of space |
| `SendPath.PacketOverBudget` | src/quic/connection.cr:1212-1217 | a packet with twice its budget |
| `SendPath.NeverOverConnectionLimit` | src/quic/connection.cr:1180-1204 | in every run new stream bytes on the wire never exceed the largest limit advertised |
| `SendPath.LostFramesConserved` | src/quic/connection.cr:982-989 | in every run, space by space and in order: the frames of those five kinds in lost packets = re-sent under the own space id, or keys gone, or still queued |
| `SendPath.ConnectionRun` | src/quic/connection.cr:1212-1217 | both results from a fresh connection |
| `SendStreams.PollExact` | src/quic/stream.cr:151-186 | a poll takes as much as the four limits allow, the FIN exactly with the last byte, and blames the tighter window |
| `SendStreams.BlockedTruthfulIff` | src/quic/stream.cr:163-172 | the window it blames is used up if and only if it was not larger than the room in the packet |
| `SendStreams.PackPolls` | src/quic/connection.cr:1187-1197 | each stream is polled with what the ones before it left of budget and window, ten bytes charged per frame |
| `SendStreams.PackedFrames` | src/quic/connection.cr:1190-1204 | the STREAM frames of a packet: at most one per stream, its id, the position it had, the bytes from there on, the FIN |
| `SendStreams.FinIff` | src/quic/stream.cr:179-183 | the FIN exactly when a closing stream is sent to its end and has not had one |
| `SendStreams.PacksSealable` | src/quic/connection.cr:964-991 | where stream data is taken there are keys to send it |
| `SendStreams.StreamsSpelled` | src/quic/connection.cr:1180-1204 | in every run the new frames of each stream lie end to end from zero and spell what was written up to its send position, the FIN once and last |
| `SendStreams.ConnectionSpelled` | src/quic/connection.cr:1180-1204 | the same from a fresh connection |
| `SendChoice.UrgentFirst` | src/quic/connection.cr:936-969 | pending TLS data, then a due handshake ACK, gets a packet of its space |
| `SendChoice.CloseUnderLatestKeys` | src/quic/connection.cr:971-978 | a close goes out under the latest keys |
| `SendChoice.EarlyDataFirst` | src/quic/connection.cr:979-981 | 0-RTT exactly while its keys are there and the handshake is not complete |
| `SendChoice.LostDecides` | src/quic/connection.cr:982-989 | otherwise the first lost frame with keys decides the space |
| `SendChoice.PurgeExactly` | src/quic/connection.cr:964-989 | exactly which calls drop lost frames without keys, and which frames |
| `SendChoice.LostHeadGoesOut` | src/quic/connection.cr:1212-1217 | such a call re-sends that frame in a packet of its space and drops those without keys |
| `SendChoice.QueueDrains` | src/quic/connection.cr:982-1217 | as many such calls as lost frames re-send all of them in order |
| `SendChoice.NewDataOnlyWhere` | src/quic/connection.cr:1118-1205 | where new stream data may go |
| `SendChoice.BudgetIsClamped` | src/quic/connection.cr:1185 | the packet budget for every MTU |
| `SendChoice.ParametersReplace` | src/quic/connection.cr:1330-1346 | transport parameters replace a limit, also a larger one |
| `WakeUps.ResponseRing.Pop` | src/h3/response_ring.cr:27-29 | takes the oldest, or nothing |
| `WakeUps.DrainResponses` | src/h3/connection_actor.cr:190-201 | an undisturbed drain takes everything in order |
| `WakeUps.NoResponseLost` | src/h3/connection_actor.cr:80-122 | in every interleaving with any number of producers a waiting response implies a wake token, a producer about to signal, or an actor committed to a drain; responses leave exactly once, in push order |
| `WakeUps.DrainTakesAll` | src/h3/connection_actor.cr:190-201 | a drain step sequence empties the ring |
| `WakeUps.WaitingMeansReady` | src/h3/connection_actor.cr:112-115 | whenever the actor selects with something waiting and no producer half-way, the wake branch is ready and delivers all |
| `StreamForwarding.ForwardStream` | src/h3/connection_actor.cr:217-229 | chunks, end-of-file chunk and stream position after one stream's turn |
| `StreamForwarding.ReadAll` | src/h3/connection_actor.cr:218-222 | the read loop cuts the unread bytes into buffer-sized chunks |
| `StreamForwarding.ChunksFlatten` | src/h3/connection_actor.cr:218-222 | the chunks are the bytes in pieces of 65536, and none is empty, so none is mistaken for end-of-file |
| `StreamForwarding.ActorStreamSocket.ReadInto` | src/h3/actor_stream_socket.cr:21-39 | bytes, leftover, end-of-file flag and channel after a read |
| `StreamForwarding.ActorStreamSocket.CloseLocal` | src/h3/actor_stream_socket.cr:53-57 | however often it is called, one response is pushed |
| `StreamForwarding.HandlerReadsTheStream` | src/h3/actor_stream_socket.cr:21-39 | for every batching and every positive read sizes the handler reads a prefix of the stream, all of it before end-of-file, and end-of-file for ever after |
| `StreamForwarding.EndReached` | src/h3/connection_actor.cr:217-229 | a stream the peer has finished reaches its handler to the end: one pass and enough reads give all bytes and the end of file |
| `StreamForwarding.DroppedIff` | src/quic/stream.cr:200-203 | when a stream is dropped |
| `StreamForwarding.ResetForwardsNothing` | src/quic/stream.cr:52-53 | of a stream that is reset nothing more is forwarded |
| `StreamForwarding.DroppedWithoutEofIff` | src/h3/connection_actor.cr:224-238 | a pass drops a stream without an end-of-file chunk if and only if it was reset first |
| `StreamForwarding.HandlerWaitsForEver` | src/h3/connection_actor.cr:213-240 | in every continuation after that no end of file is sent or seen, and a handler that finds nothing waits for ever |
| `StreamForwarding.ResetBeforeEof` | src/quic/stream.cr:43-53 | a run from the start that reaches such a handler |
| `ActorStreams.OneDispatchPerLife` | src/h3/connection_actor.cr:242-267 | between two dispatches of a stream id lies its clean-up |
| `ActorStreams.DispatchedTwiceIff` | src/h3/connection_actor.cr:242-267 | an id is dispatched twice if and only if it is dispatched after a clean-up of it |
| `ActorStreams.LateFrameDispatchesAgain` | src/quic/connection.cr:669-673 | a late frame for a stream that is fully done dispatches its id again |
| `ActorStreams.LateFrameRun` | src/quic/connection.cr:669-673 | such a run from empty tables |
| `ActorStreams.ForwardWellSent` | src/h3/connection_actor.cr:217-229 | a channel carries data chunks, then one end-of-file chunk, then nothing |
| `ActorStreams.ForwardInConsistent` | src/h3/connection_actor.cr:213-240 | forwarding and clean-up keep the tables consistent; a stream is dropped only after its one end-of-file chunk or when reset |
| `ActorStreams.DispatchConsistent` | src/h3/connection_actor.cr:242-267 | so does dispatching |
| `ActorStreams.ClientIdsAreEven` | src/h3/connection_actor.cr:246-258 | the streams that get a handler are those with even ids |
| `ActorStreams.PassDropsDone` | src/h3/connection_actor.cr:234-238 | after a pass exactly the fully done streams have lost their channel |
| `ActorStreams.ConnectionActor.DispatchOne` | src/h3/connection_actor.cr:243-265 | a client stream without a handler gets exactly one |
| `ActorStreams.ConnectionActor.DispatchNewStreams` | src/h3/connection_actor.cr:242-267 | every client-initiated stream has a handler, existing channels are untouched, handled set and channel keys agree |
| `ActorStreams.ConnectionActor.ForwardOne` | src/h3/connection_actor.cr:215-238 | one stream's turn in the tables |
| `ActorStreams.ConnectionActor.RecordOutcome` | src/h3/connection_actor.cr:224-238 | the tables after a turn, and for a dropped stream all that was ever sent to its handler |
| `ActorStreams.ConnectionActor.ForwardStreamData` | src/h3/connection_actor.cr:213-240 | every stream is forwarded once, from its state at the start of the pass |
| `ActorStreams.ConnectionActor.RecvPacket` | src/h3/connection_actor.cr:140-171 | after each packet every client-initiated stream is dispatched, and exactly those that had no handler are dispatched anew |
| `ActorStreams.ConnectionActor.AfterBatch` | src/h3/connection_actor.cr:97-103 | no channel outlives its stream and every live stream keeps its own |
| `ActorStreams.ConnectionActor.ServeBatch` | src/h3/connection_actor.cr:83-103 | the packet branch keeps all of this for any batch |
| `Pacing.SendsIff` | src/h3/connection_actor.cr:297-303 | the loop sends the one number of datagrams the tokens allow |
| `Pacing.Pacer.FlushOutgoing` | src/h3/connection_actor.cr:283-304 | bytes sent and balance after a flush |
| `Pacing.Pacer.Drain` | src/h3/connection_actor.cr:297-303 | the sending loop |
| `Pacing.FlushSpends` | src/h3/connection_actor.cr:293-303 | a flush overdraws by less than one datagram, and only if it ends in debt |
| `Pacing.PacingBound` | src/h3/connection_actor.cr:283-304 | any run from any balance sends at most the first burst cap, what later flushes earned, and one datagram per flush that ended in debt |
| `Pacing.PacingBoundPerFlush` | src/h3/connection_actor.cr:283-304 | hence at most one datagram per flush above the allowance |
| `Pacing.RefillExact` | src/h3/connection_actor.cr:285-293 | a flush earns rate times elapsed time, with the floor of 312,500,000 bytes per second and the cap of 0.05 seconds |
| `Pacing.FirstDatagramGoes` | src/h3/connection_actor.cr:297-303 | after some time, from a balance that is not negative, the first datagram is sent |
| `Pacing.NothingWithheld` | src/h3/connection_actor.cr:283-304 | over any run what was earned below the cap is sent or still in the bucket |
| `Pacing.PacingLowerBound` | src/h3/connection_actor.cr:283-304 | so unless the last flush left nothing ready, at least that much is sent |
| `Bytes.SplitCovers` | src/quic/batch_receiver.cr:144-150 | splitting loses nothing: full segments and a shorter last one |
| `BatchIo.PackThenSplit` | src/quic/batch_sender.cr:178-181 | packing segments and splitting again is the identity |
| `BatchIo.SlotPackets` | src/quic/batch_receiver.cr:142-156 | with GRO a slot comes apart into what was joined, without it is one packet |
| `BatchIo.EachSegment` | src/quic/batch_receiver.cr:136-157 | packets of a receive slot, with and without GRO |
| `BatchIo.CutSlot` | src/quic/batch_receiver.cr:145-150 | the offset loop computes the split |
| `BatchIo.OnWireExact` | src/quic/batch_sender.cr:139-291 | whichever path runs, the wire gets datagrams of the batch in order, and all of them if and only if the kernel takes the whole |
| `BatchIo.StepConserves` | src/quic/batch_sender.cr:120-147 | one add or flush, oversize datagrams included |
| `BatchIo.RunConserves` | src/quic/batch_sender.cr:120-147 | over any run wire plus pending is a subsequence of what was added, and equal to it if and only if nothing was refused |
| `BatchIo.StepWaits` | src/quic/batch_sender.cr:120-147 | up to 63 datagrams of at most 1500 bytes wait; the 64th, a larger one or a flush sends them |
| `BatchIo.RunBounded` | src/quic/batch_sender.cr:120-147 | these bounds hold in every run |
| `BatchIo.FallbackOrder` | src/quic/batch_sender.cr:139-291 | which path runs, what it puts on the wire, and when GSO and timestamps are switched off |
| `BatchIo.BatchSender.GsoEligible` | src/quic/batch_sender.cr:158-171 | true if and only if at least two datagrams share size and destination |
| `BatchIo.BatchSender.PackSegments` | src/quic/batch_sender.cr:178-181 | the coalescing buffer holds the payloads back to back, within bounds |
| `BatchIo.BatchSender.FlushGso` | src/quic/batch_sender.cr:173-207 | one segmented send, or GSO off and the batch sent otherwise |
| `BatchIo.BatchSender.FlushSendmmsg` | src/quic/batch_sender.cr:222-292 | batched send, retry without timestamps, then one by one |
| `BatchIo.BatchSender.FlushBatch` | src/quic/batch_sender.cr:139-147 | choice of path, and an empty batch afterwards |
| `BatchIo.BatchSender.Enqueue` | src/quic/batch_sender.cr:130-134 | a datagram goes into the next slot, within bounds |
| `BatchIo.BatchSender.AddDatagram` | src/quic/batch_sender.cr:120-136 | large datagrams go out at once after what is pending; the others wait until the batch is full |
| `RequestStreams.HandleRequest` | src/h3/server.cr:208-309 | the acceptor's cursor over bytes does what the frames alone decide |
| `RequestStreams.CollectBody` | src/h3/server.cr:246-269 | the body loop |
| `RequestStreams.HandlerRunsIff` | src/h3/server.cr:220-278 | the handler runs at most once, exactly when it should, with exactly those headers and that body; exactly when metrics are served instead; exactly when the connection is closed and with which code |
| `RequestStreams.LinesAcceptedIff` | src/h3/qpack.cr:296-365 | field lines are accepted if and only if they parse and are well ordered |
| `RequestStreams.SectionAcceptedIff` | src/h3/qpack.cr:253-366 | a section is accepted if and only if the lines in its own bytes parse and are well ordered; the map is then their assignment |
| `RequestStreams.PutAllHas` | src/h3/qpack.cr:363 | the map has a name if and only if some line carries it |
| `RequestStreams.FirstItemIff` | src/h3/connection.cr:200-218 | the first frame gives headers if and only if it is a HEADERS frame whose lines, against the first table that does not block it, are accepted |
| `RequestStreams.HandlerOnBytesIff` | src/h3/server.cr:208-269 | for any bytes on the stream a handler runs if and only if the field lines of the first frame are well ordered and complete and the frame after the DATA is not forbidden; once, with the map of those lines and that DATA |
| `RequestStreams.FrameReadBack` | src/h3/frame.cr:169-231 | a written frame reads back as its type and payload |
| `RequestStreams.AwaitReturnsHeaders` | src/h3/connection.cr:204-218 | however often a section blocks first, it decodes to its headers once the table catches up |
| `RequestStreams.MessageReadBack` | src/h3/connection.cr:136-150 | a written message is read back as exactly its header map and its DATA, whatever follows |
| `RequestStreams.RequestDelivered` | src/h3/server.cr:246-269 | a message that ends its stream reaches the handler once, with exactly its headers and body |
| `RequestStreams.FrameCut` | src/h3/frame.cr:169-231 | a frame cut anywhere cannot be read |
| `RequestStreams.RequestCut` | src/h3/server.cr:246-269 | for every place where a message may be cut: nothing happens inside the HEADERS frame, and after it the handler runs with the whole DATA frames |
| `RequestStreams.RequestInterrupted` | src/h3/server.cr:250-263 | for a message followed by a frame of any other type, the type decides: SETTINGS and PUSH_PROMISE close with their codes, all others end the body |
| `RequestStreams.UnknownFrameIgnoredIff` | src/h3/server.cr:220-269 | for an unknown frame at any position: exactly when leaving it out makes no difference |
| `RequestStreams.UnknownFrameLosesRequest` | src/h3/server.cr:232 | an unknown frame before the headers loses the request |
| `RequestStreams.UnknownFrameCutsBody` | src/h3/server.cr:261-263 | an unknown frame between two DATA frames cuts the second off |
| `RequestStreams.BadSectionOutcome` | src/h3/server.cr:210-218 | a first section that breaks the order of pseudo-headers closes the connection, one that cannot be decoded is dropped |
| `RequestStreams.PseudoNames` | src/h3/qpack.cr:352 | the names in question, and that a leading colon makes a pseudo-header |
| `RequestStreams.CompleteIff` | src/h3/server.cr:234-244 | what a request must and must not have |
| `RequestStreams.MetricsIff` | src/h3/server.cr:271-278 | when metrics are served instead of a handler |
| `RequestStreams.FirstFrameCodes` | src/h3/server.cr:220-244 | the error code for each first frame |
| `RequestStreams.TooLargeRefused` | src/h3/frame.cr:165-172 | a frame of more than 16 MiB is refused |
| `RequestStreams.LargestAccepted` | src/h3/frame.cr:165-172 | one of exactly 16 MiB is not |
| `RequestStreams.SettingsWritten` | src/h3/frame.cr:188-202 | a SETTINGS payload parses exactly up to whole pairs |

## Left out

- TLS, HKDF, header protection and AEAD internals: an AEAD of a generation opens exactly the packets sealed under it with the packet number it is tried with.
- The Retry path, version negotiation and stateless reset: they replace a packet number space or end the connection.
- Huffman coding and the contents of the static table: both are arbitrary parameters of the QPACK model.
- The wake-up of blocked field sections and its timeout: a blocked section is a list of attempts against later tables.
- The bytes after a cut inside an encoder-stream instruction: the next call reads them as a new instruction, whatever they are.
- `Int32` overflow of a dynamic table entry's size, and strings of 2^31 bytes or more.
- Stream cancellations on the decoder stream, which the code never sends. Only streams read through a `QUIC::StreamSocket` are acknowledged at all; the server and client pass other streams, which the model covers as streams without an id.
- Key updates started by both endpoints, beyond the two results about them.
- Loss detection, RTT, congestion control, path validation and MTU discovery: the send path takes their decisions as free inputs at every call.
- Out-of-order buffering inside a receiving QUIC stream: its in-order bytes are the input of the forwarding model.
- Channel capacities and blocking channel sends of the actor; the final end-of-file chunk it offers when it stops.
- Control messages, transmit timestamps and socket options of the batch sender; an address is its textual form and port.
- Rounding of the pacing arithmetic, which is over exact reals, and an exception in the middle of a flush.
- Handler exceptions, response writing, the URL router and server push.
- A packet that turns out larger than the output buffer, which `send` drops after taking its frames.
- SendPath.LostFramesConserved: assumes an output buffer large enough for each packet.
