# monobus in Dafny

monobusd receives Open Sound Control messages over the network, lets clients of 32
priorities draw on one display of 112 by 16 pixels, and sends the picture over a serial
bus, beat by beat. This project models the code between the socket and the serial port
and proves what it promises:

| file | models |
|---|---|
| `RingLayout.dfy`, `RingProtocol.dfy`, `Varchunk.dfy` | the lock-free ring of variable-size chunks (`varchunk/varchunk.h`): memory layout, the interleaved steps of both threads, and the functions themselves |
| `Slip.dfy`, `SlipStream.dfy`, `SlipSession.dfy`, `SlipHealing.dfy`, `Receiving.dfy` | SLIP framing in place (`osc.lv2/osc.lv2/stream.h`, the double-ended variant of RFC 1055), the loop that splits received bytes into packets and puts them into the ring, and whole connections |
| `Osc.dfy`, `OscWriter.dfy`, `OscCanonical.dfy`, `OscReader.dfy`, `OscBundle.dfy` | the OSC 1.0 printer and parser (`writer.h`, `reader.h`), with sizes that are filled in afterwards and bundles nested to any depth |
| `Priority.dfy`, `Accesses.dfy`, `Compositor.dfy`, `Canvas.dfy` | from arguments to commands, from commands to pixels, and which bytes of a blob are read (`monobus.c`) |
| `MonoBus.dfy`, `Wire.dfy` | byte stuffing, checksum and rotation of the picture (`monobus.c`, `monobusd.c`); the stuffing is that of section 4.2 of RFC 1662 |
| `Scheduler.dfy` | the linked list of messages that wait for their time (`monobusd.c`) |
| `Daemon.dfy`, `Beat.dfy`, `Concurrent.dfy`, `Serve.dfy`, `LaterMessages.dfy` | how packets get into the ring, one round of the daemon's loop from the ring to the bus, the same while the other thread goes on, and a whole connection from its bytes to the picture, with messages for now and for later |
| `Vectors.dfy` | the formats byte by byte: an example of the OSC 1.0 specification, the messages of `monobus_test.c`, and every type of argument |
| `Bits.dfy`, `Bytes.dfy` | C's bitwise operators, machine words and byte orders |

Code that works on memory is a class or a method over arrays and linked nodes, proved
against a function of the old contents; what the code is for is then proved about those
functions. The ring is modelled twice: as a system of steps, one for each access to
shared memory, in which either thread may be arbitrarily far behind with what it knows of
the other's index; and as a class whose methods are proved to be uninterrupted runs of
these steps.

What those functions mean is stated without naming them, in bytes, bits and indexes: which
bit of which blob a pixel of the display shows (`DisplayedPixel`) and where it is on the bus
(`BlobOnTheBus`), what a checksum is (`CrcOfOne`, `ChecksumIsParity`), which path draws at
which priority (`PathsDraw`), from which second on a message is due (`DueByTag`), what the
arguments of a message set (`OneBlob`, `NoBlob`), and what words, frames and messages are in
bytes (`Be32Bytes`, `EscapesInBytes`, `FrameInBytes`, `SpecificationExample`).

Conventions. A pointer is an index; NULL is `None`. Bytes and words are ranges of the
integers, with wrap-around and truncation written out where the code has them: the padding
mask of the ring is a 32 bit word, item and blob sizes are signed, `char` is signed,
bitmap strides and lengths are unsigned products. `hide` keeps definitions out of proofs
that do not need them.

## What the proofs found out about the code

- `varchunk_write_request_max` reports, and `varchunk_write_advance` asserts, a bound that
  includes the eight byte header. `written <= rsvd` therefore lets a full ring look empty
  (`FullTakenForEmpty`); with the tail that the request has loaded, a commit fits exactly if
  `8 + PAD(written) <= rsvd` (`CommitFitsExactly`), which `written <= minimum` implies
  (`MinimumIsEnough`). If that tail is out of date, a larger commit may happen to fit, but
  only the consumer could know (`StaleTailIsCautious`). The model's producer keeps that bound,
  commits at most once for a request, and the consumer releases only what it was handed:
  these are the rules of the protocol that the code leaves to its callers.
- `VARCHUNK_PAD` masks with a 32 bit word, so it rounds up only below 2^32 - 7
  (`PadRoundsUp`). The bound is good for rings of up to 2^31 bytes (`RingProtocol.StepInv`),
  and not for the next size (`RingTooLarge`).
- An empty ring takes any burst of packets whose elements, and one more header, need up to
  half of it (`EmptyIsRoomy`, `RoomyServes`).
- The SLIP decoder shifts bytes in its buffer even if it finds no whole frame, and that
  buffer is where the next `recv` continues. A connection delivers its OSC packets exactly if
  no call ends inside a frame, unless just behind the opening END, and no request for room is
  refused (`SessionDelivers`). For packets that start with END or ESC it is enough that every
  call leaves its part of a frame as it was and no request is refused (`IntactSession`), but
  the former is not necessary: decoding a damaged part again may repair it (`SelfHealing`). Resynchronisation loses at most one packet
  (`Resynchronisation`).
- A packet for which there is no room stays in the buffer in decoded form. Whatever bytes
  come next, it is delivered, and the rest as if nothing had happened, exactly if the packet
  is a prefix of its own frame (`RetryAfterRefusal`): one that consists of an END is, but no
  packet that starts with anything else (`RefusedForGood`), so OSC packets are lost for good, and no continuation of the connection delivers all of its
  packets (`DisturbedSession`).
- The caller of the encoder compares the size of the packet with that of the buffer
  (osc.lv2/osc.lv2/stream.h:958). Packets of that size, or one byte less, pass and do not fit
  (`SizeAloneIsNotEnough`); `n + 2` and the number of special bytes is what has to be compared
  (`EncodedFits`), or `2 * n + 2` if only the size is known (`SizeThatAlwaysFits`).
- Blob padding, and what is behind a short MIDI event, keeps what the buffer held before
  (`AddBlob`). A message determines its bytes exactly if all its blobs fill their padding and
  all its MIDI events have four bytes (`MessageIsCanonical`). It is read back equal whatever
  the padding, except that MIDI events come back unchanged exactly if they have four bytes
  (`RoundTripIsExact`).
- The comparison of the blob's length in `_priority` multiplies unsigned words and stores the
  result in an `int32_t`. It covers every access to every accepted blob exactly if both ends
  of each of the up to 16 rows on the display are below the compared length
  (`LengthTestCovers`); unless the bitmap starts far above the display, exactly if the last
  access is (`LengthTestCoversLast`, `RowsOfDisplay`). It is so for all bitmaps whose size does
  not overflow (`LengthTestSuffices`), for some whose size does (`OverflowWithoutHarm`), and not
  for others, of which a byte behind the blob is read (`ReadOutside`).
- Offsets for which `112 - offx` or `16 - offy` is above `2^31 - 1` overflow the bounds of the
  drawing loops (`BoundOverflows`). What is drawn
  is stated for commands without such an overflow and without an access outside of the blob
  (`Proper`), that is, wherever C defines it.
- The documentation (README.md:107-112) promises PBM bitmaps. The code packs rows to the
  right, so that is true exactly if the width is a multiple of eight (`PbmAgrees`).
- The macro `MAX` of `monobus.c:119` is a minimum; the model calls it `Min`.
- `(timetag && 32)` at `monobusd.c:203` is zero or one, so nanoseconds are always zero
  (`NanosecondsAreLost`), and as the insertion compares seconds and nanoseconds with `&&`,
  the list is in the order of arrival (`Scheduler.Fifo`). A pass leaves no due message behind
  exactly if messages arrive in the order of their times (`PassesAreCompleteIffInTimeOrder`).

## Model

| member | source | states |
|---|---|---|
| RingLayout.PadRoundsUp | varchunk/varchunk.h:75 | padding rounds up to a multiple of eight, exactly as long as 32 bits suffice |
| RingLayout.ReserveIsSafe | varchunk/varchunk.h:175-254 | a request that succeeds against any earlier tail reserves free, contiguous space inside the buffer with room for two headers and the padded minimum; one that fails reserves nothing |
| RingLayout.ReservedIsFree | varchunk/varchunk.h:211-251 | every byte of a reservation, and of the gap before it, is in the buffer and outside the unread bytes |
| RingLayout.ConsumerMoves | varchunk/varchunk.h:296-302 | the consumer moving forward frees exactly what it read, and no reservation becomes invalid |
| RingLayout.EarlierTailStays | varchunk/varchunk.h:181-190 | a tail that was loaded stays a safe underestimate while the consumer moves on |
| RingLayout.MinimumIsEnough | varchunk/varchunk.h:262-267 | writing at most the requested size keeps within the reservation, header and padding included |
| RingLayout.CommitFitsExactly | varchunk/varchunk.h:262-293 | among the commits that the assertion accepts, those fit, as far as the loaded tail tells, whose header and padded size are within the reservation, and only those; and they fit with the real tail too |
| RingLayout.StaleTailIsCautious | varchunk/varchunk.h:181-190 | with a stale tail a larger commit may happen to fit, which only the consumer could know |
| RingLayout.FullTakenForEmpty | varchunk/varchunk.h:265-267 | a commit accepted by the assertion after which a full ring has head equal to tail |
| RingLayout.RingTooLarge | varchunk/varchunk.h:75 | on a ring of 2^32 bytes a commit within both bounds does not fit, because of the 32 bit mask |
| RingLayout.CommitAdvances | varchunk/varchunk.h:167-173 | a commit within the bound moves head by gap, header and padded size, and never onto tail |
| RingLayout.EmptyRingServesHalf | varchunk/varchunk.h:184-253 | on an empty ring, wherever head is, every request of up to half of the buffer succeeds |
| RingLayout.HalfIsTight | varchunk/varchunk.h:184-253 | with head in the middle of an empty ring nothing larger than half succeeds |
| RingLayout.NoNeedlessGap | varchunk/varchunk.h:198-240 | no gap is made as long as the end of the buffer has room for the request, and it reaches the end of the buffer |
| RingLayout.EmptyIsRoomy | varchunk/varchunk.h:184-253 | an empty ring has room for a burst of packets whose elements, and one more header, take up to half of the buffer |
| RingLayout.RoomyServes | varchunk/varchunk.h:184-293 | each request of such a burst succeeds, with or without a gap, and leaves room for the rest of it |
| RingLayout.ContiguousStartsWithChunk | varchunk/varchunk.h:342-351 | unread bytes that do not wrap around start with a chunk, so the gap need not be looked for |
| RingLayout.GapIsFollowedByChunk | varchunk/varchunk.h:323-335 | a gap ends exactly at the end of the buffer, and a chunk at index 0 follows it |
| RingLayout.AtMostOneGap | varchunk/varchunk.h:262-294 | the unread elements contain at most one gap, and none unless they wrap around |
| RingLayout.ChainFrame | varchunk/varchunk.h:262-294 | stores outside the unread bytes leave the unread elements and their payloads alone |
| RingLayout.ChainConcat | varchunk/varchunk.h:262-294 | elements behind elements are a chain of all their chunks, in order |
| RingLayout.ChainUnique | varchunk/varchunk.h:304-363 | the memory determines the unread chunks |
| RingProtocol.StepInv | varchunk/varchunk.h:167-376 | each step of either side, with indexes loaded arbitrarily long ago, keeps the layout, the two logs and both sides' promises |
| RingProtocol.FillInv | varchunk/varchunk.h:218-219 | payload bytes stored into a reservation are invisible to the consumer |
| RingProtocol.CommitInv | varchunk/varchunk.h:269-288 | storing headers, of the chunk or of the gap before it, keeps the invariant |
| RingProtocol.FinishHeadersInv | varchunk/varchunk.h:276-280 | storing the chunk header behind a gap keeps the invariant |
| RingProtocol.PublishHeadInv | varchunk/varchunk.h:290-293 | publishing head adds exactly the prepared chunk to the unread ones |
| RingProtocol.DecideInv | varchunk/varchunk.h:184-253 | deciding on a reservation with a stale tail keeps the invariant |
| RingProtocol.InspectInv | varchunk/varchunk.h:312-357 | whatever the consumer finds behind a stale head, it ends up at a whole chunk, or at the chunk behind a gap |
| RingProtocol.TakeFrontInv | varchunk/varchunk.h:329-334 | behind a skipped gap the consumer holds the chunk at index 0 |
| RingProtocol.ReleaseInv | varchunk/varchunk.h:365-376 | releasing a chunk removes exactly the oldest one |
| RingProtocol.HeldBytes | varchunk/varchunk.h:304-363 | the bytes handed to the reader are the oldest committed chunk that was not received, with its size |
| RingProtocol.InitialInv | varchunk/varchunk.h:117-132 | a new ring, with any memory content, satisfies the invariant |
| RingProtocol.RunInv | varchunk/varchunk.h:167-376 | so every state that any interleaving reaches has that layout |
| RingProtocol.Fifo | varchunk/varchunk.h:167-376 | in every interleaving from a new ring, the received chunks are a prefix of the committed ones, same order, sizes and bytes, and a held chunk is the next one |
| RingProtocol.ReservationIsExclusive | varchunk/varchunk.h:175-254 | a granted reservation is inside the buffer, large enough, and disjoint from unread bytes and from what the reader holds |
| RingProtocol.HeldChunkIsStable | varchunk/varchunk.h:304-376 | over any producer steps, a chunk handed to the reader keeps its bytes until it is released |
| RingProtocol.ReservationIsStable | varchunk/varchunk.h:175-254 | over any consumer steps, a reservation keeps its place, size and content, and stays free |
| RingProtocol.UnreadIffUsed | varchunk/varchunk.h:312-316 | there is a chunk to receive exactly if head differs from tail |
| RingProtocol.InspectFindsChunk | varchunk/varchunk.h:318-362 | a request answers NULL exactly if the loaded head is the tail |
| RingProtocol.Drain | varchunk/varchunk.h:304-376 | from every reachable state, the consumer alone can receive everything that was committed |
| Varchunk.BodySize | varchunk/varchunk.h:108-115 | the smallest power of two that is not below the minimum |
| Varchunk.MaskWraps | varchunk/varchunk.h:171 | masking wraps an index around once |
| Varchunk.WriteRequestRun | varchunk/varchunk.h:175-254 | an uninterrupted request is a run of the two steps |
| Varchunk.CommitRun | varchunk/varchunk.h:262-294 | an uncontested commit is a run of the header and head steps, and appends the written bytes to the unread chunks |
| Varchunk.ReadRequestRun | varchunk/varchunk.h:304-363 | an uninterrupted request is a run of the load, gap and chunk steps |
| Varchunk.ReadRequestFinds | varchunk/varchunk.h:304-363 | it finds the oldest chunk, and nothing only if there is none |
| Varchunk.ReleaseRun | varchunk/varchunk.h:365-376 | a release is one step |
| Varchunk.Varchunk.constructor | varchunk/varchunk.h:117-154 | a new ring is empty, of sufficient size, and an initial state of the protocol |
| Varchunk.Varchunk.WritableSpace | varchunk/varchunk.h:186-193 | how many bytes are free behind head, one always being kept spare |
| Varchunk.Varchunk.SetReservation | varchunk/varchunk.h:194-253 | rsvd, gapd and the answer of a request, in all three cases and both refusals |
| Varchunk.Varchunk.WriteRequestMax | varchunk/varchunk.h:175-254 | the fields and the pointer after a request; unread chunks are unchanged |
| Varchunk.Varchunk.Fill | varchunk/varchunk.h:218-219 | what a caller stores into its reservation changes those bytes only |
| Varchunk.Varchunk.StoreHeaders | varchunk/varchunk.h:269-288 | the headers of the chunk, and of the gap before it |
| Varchunk.Varchunk.WriteAdvance | varchunk/varchunk.h:262-294 | the bytes of the reservation become the last unread chunk |
| Varchunk.Varchunk.FindFirst | varchunk/varchunk.h:308-362 | where the first chunk is, and the tail behind a gap |
| Varchunk.Varchunk.ReadRequest | varchunk/varchunk.h:304-363 | the oldest unread chunk with its bytes, NULL exactly if there is none |
| Varchunk.Varchunk.ReadAdvance | varchunk/varchunk.h:365-376 | removes exactly the oldest unread chunk |
| Daemon.PassOn | osc.lv2/osc.lv2/stream.h:1060-1073 | request, copy, advance: granted exactly if the ring has room for the size of the packet; then the packet becomes the last chunk, and nothing changes otherwise |
| Daemon.RequestIsEnough | varchunk/varchunk.h:262-267 | a caller that writes as much as it requested never exceeds the safe bound |
| Slip.EncodedSize | osc.lv2/osc.lv2/stream.h:692-698 | a frame has two bytes more than its packet, and one more for each special byte |
| Slip.EscapesInBytes | osc.lv2/osc.lv2/stream.h:679-732 | END and ESC become the two pairs of RFC 1055, other bytes stay, and a frame has an END on either side |
| Slip.EncodedFits | osc.lv2/osc.lv2/stream.h:692-698 | the guard that a buffer of a given size needs |
| Slip.SizeAloneIsNotEnough | osc.lv2/osc.lv2/stream.h:956-961 | packets that the comparison of sizes lets through, and whose frames do not fit |
| Slip.SizeThatAlwaysFits | osc.lv2/osc.lv2/stream.h:956-961 | by its size alone a packet is known to fit exactly if twice the size and two more bytes do |
| Slip.EncodeInline | osc.lv2/osc.lv2/stream.h:684-732 | the buffer then holds the escape of its old content between two END bytes, the size counts exactly that, and bytes behind it are untouched |
| Slip.ShiftBetweenEnds | osc.lv2/osc.lv2/stream.h:700-708 | the packet as it is, between two END bytes |
| Slip.CountEncoded | osc.lv2/osc.lv2/stream.h:692-698 | the size that the first loop counts |
| Slip.EscapeBackwards | osc.lv2/osc.lv2/stream.h:711-731 | the backward loop never overtakes the bytes that it has still to read |
| Slip.EscapeStep | osc.lv2/osc.lv2/stream.h:713-728 | one round keeps: unread bytes untouched in front, the escape of the others behind |
| Slip.PutEscaped | osc.lv2/osc.lv2/stream.h:715-727 | the escape of one byte, stored backwards |
| Slip.DecodeInline | osc.lv2/osc.lv2/stream.h:734-779 | parsed count, packet size, and the whole buffer afterwards, also if no packet was found |
| Slip.DecodeStep | osc.lv2/osc.lv2/stream.h:749-773 | one round keeps: decoded bytes in front, unread bytes untouched behind |
| Slip.DecodeFront | osc.lv2/osc.lv2/stream.h:751-772 | one byte, or one pair, decoded into its place |
| Slip.UnknownPairs | osc.lv2/osc.lv2/stream.h:749-762 | pairs that no encoder writes are dropped, and an ESC at the end of the bytes waits |
| SlipStream.DecodeEncode | osc.lv2/osc.lv2/stream.h:684-779 | decoding a frame with anything behind it gives the packet, takes exactly the frame and leaves the rest alone |
| SlipStream.DecodePartial | osc.lv2/osc.lv2/stream.h:734-779 | a proper prefix of a frame is never taken for a packet |
| SlipStream.ScanEscape | osc.lv2/osc.lv2/stream.h:749-773 | the escape of a packet contains no END, and decodes to the packet |
| SlipStream.DispatchFrames | osc.lv2/osc.lv2/stream.h:1051-1086 | granted frames are delivered in order, and the loop goes on behind them |
| SlipStream.WholeAndPartial | osc.lv2/osc.lv2/stream.h:1051-1096 | whole frames and a part of another one: all whole ones arrive, and as many bytes are kept as the part has |
| SlipStream.Refused | osc.lv2/osc.lv2/stream.h:1056-1073 | a refused packet stops the loop, and stays in the buffer decoded |
| SlipStream.Settles | osc.lv2/osc.lv2/stream.h:1051-1086 | bytes that end in an END which is not escaped are dispatched completely |
| SlipStream.RetryAfterRefusal | osc.lv2/osc.lv2/stream.h:1056-1086 | whatever bytes come next, later calls deliver a refused packet, and what follows as if nothing had happened, if and only if the packet is a prefix of its own frame |
| SlipStream.RefusedForGood | osc.lv2/osc.lv2/stream.h:1056-1086 | no packet that starts with another byte than END is such a prefix; a packet of one END is |
| SlipStream.DispatchConcat | osc.lv2/osc.lv2/stream.h:1051-1086 | bytes that are dispatched completely do not influence those behind them |
| SlipStream.FrameSettles | osc.lv2/osc.lv2/stream.h:734-779 | whatever came before it, a whole frame brings the decoder back to a frame boundary |
| SlipStream.NothingLost | osc.lv2/osc.lv2/stream.h:1051-1086 | behind completely dispatched bytes, all packets arrive |
| SlipStream.Resynchronisation | osc.lv2/osc.lv2/stream.h:734-779 | behind arbitrary junk at most the first packet is lost or merged, and all others arrive in order |
| SlipStream.ScanNeedsEscape | osc.lv2/osc.lv2/stream.h:749-773 | no input decodes to more than it takes to encode, and only the encoding itself is that short |
| SlipStream.DeliveryNeedsFrame | osc.lv2/osc.lv2/stream.h:1051-1086 | a packet is only delivered from bytes that are at least its frame |
| SlipStream.SplitDelivery | osc.lv2/osc.lv2/stream.h:1088-1096 | a frame in two calls arrives exactly if decoding its first part left the buffer as it was |
| SlipStream.SplitDeliveryOfPackets | osc.lv2/osc.lv2/stream.h:1088-1096 | for packets that do not start with END, exactly which cuts are harmless |
| SlipSession.GrantedCall | osc.lv2/osc.lv2/stream.h:1051-1096 | one call on the first bytes of a connection, all requests granted: the whole frames arrive, and the part of the next one is kept as the decoder leaves it |
| SlipSession.RefusedCall | osc.lv2/osc.lv2/stream.h:1056-1096 | one call with a refused request: the packets before it arrive, and what is kept starts with the refused one, decoded |
| SlipSession.SessionCosts | osc.lv2/osc.lv2/stream.h:1024-1096 | over any number of calls and answers, the frames of what is delivered and the kept bytes never exceed what was received |
| SlipSession.HeadlessSession | osc.lv2/osc.lv2/stream.h:734-779 | whatever follows a buffer that has lost its opening END, less is delivered than its bytes could have framed |
| SlipSession.DisturbedSession | osc.lv2/osc.lv2/stream.h:1024-1096 | after one bad cut or one refusal no continuation delivers all packets |
| SlipSession.IntactSession | osc.lv2/osc.lv2/stream.h:1024-1096 | for packets of any content: all arrive if every call leaves its part of a frame as it was and no request is refused |
| SlipSession.SafeCutsAreIntact | osc.lv2/osc.lv2/stream.h:734-779 | for packets that start with neither END nor ESC, such calls are those that end between frames or just behind an opening END |
| SlipSession.SessionDelivers | osc.lv2/osc.lv2/stream.h:1024-1096 | for packets that start with neither END nor ESC: a connection in any number of pieces delivers exactly its packets if and only if every piece ends between frames or just behind an opening END, and no request is refused |
| SlipHealing.SelfHealing | osc.lv2/osc.lv2/stream.h:734-779 | for other packets that is not necessary: one that arrives although its first call damaged its frame |
| Receiving.Receiver.Receive | osc.lv2/osc.lv2/stream.h:1024-1100 | one call delivers into the ring, in order, what the functional specification gives for kept and new bytes together, and keeps its rest at the front; it stops only if the ring has no room, and not within the budget of a burst |
| Receiving.Receiver.Split | osc.lv2/osc.lv2/stream.h:1051-1086 | the loop: decode, request, pass on, advance, until nothing is parsed or there is no room |
| Receiving.Receiver.PassFirst | osc.lv2/osc.lv2/stream.h:1053-1085 | one round of it, with the buffer and the ring afterwards |
| Receiving.Receiver.DecodeFirst | osc.lv2/osc.lv2/stream.h:1053-1062 | its first half: the packet, if there is one, and the buffer afterwards |
| Receiving.ReceivePieces | osc.lv2/osc.lv2/stream.h:1024-1096 | call after call, as long as the next piece fits the buffer: delivered packets, kept bytes and the content of the ring |
| Osc.MessagesHaveTheirSize | osc.lv2/osc.lv2/writer.h:408-418 | the content determines the length of a message, a multiple of four |
| Osc.IsArgsAppend | osc.lv2/osc.lv2/writer.h:321-393 | arguments encoded one behind the other are the encoding of the list |
| Bytes.Be32Bytes | osc.lv2/osc.lv2/writer.h:87-98 | the four bytes of a word, the most significant one first |
| Bytes.Be64Bytes | osc.lv2/osc.lv2/writer.h:100-111 | the eight bytes of a word, the most significant one first |
| Bytes.FromBe32Is | osc.lv2/osc.lv2/reader.h:103-114 | the word that four bytes stand for |
| Vectors.Letters | osc.lv2/osc.lv2/osc.h:75-94 | the letters of the types |
| Vectors.Number32InBytes | osc.lv2/osc.lv2/writer.h:113-123 | an int32 or a float in bytes |
| Vectors.Number64InBytes | osc.lv2/osc.lv2/writer.h:147-163 | an int64, a double or a time tag in bytes |
| Vectors.CharInBytes | osc.lv2/osc.lv2/writer.h:235-239 | a character in bytes, with its sign |
| Vectors.TextInBytes | osc.lv2/osc.lv2/writer.h:125-145 | strings in bytes, with their padding |
| Vectors.BytesInBytes | osc.lv2/osc.lv2/writer.h:165-233 | blobs with their size and padding, MIDI events and colours in bytes |
| Vectors.SpecificationExample | osc.lv2/osc.lv2/reader.h:435-469 | the second example of the OSC 1.0 specification, byte by byte, and what is read from it |
| OscWriter.WithinMeans | osc.lv2/osc.lv2/writer.h:81-85 | what it means that nothing outside of a range is written |
| OscWriter.EncodableMeans | osc.lv2/osc.lv2/writer.h:196-199 | which arguments are refused whatever the room |
| OscWriter.Writer.HtoBe32 | osc.lv2/osc.lv2/writer.h:87-98 | four bytes in network order, or nothing |
| OscWriter.Writer.HtoBe64 | osc.lv2/osc.lv2/writer.h:100-111 | eight bytes in network order, or nothing |
| OscWriter.Writer.AddString | osc.lv2/osc.lv2/writer.h:125-139 | the string with one to four zero bytes, or nothing |
| OscWriter.Writer.AddBlob | osc.lv2/osc.lv2/writer.h:165-193 | size and content; the padding keeps its old bytes |
| OscWriter.Writer.AddMidi | osc.lv2/osc.lv2/writer.h:195-218 | up to four bytes; longer events are refused |
| OscWriter.Writer.AddRgba | osc.lv2/osc.lv2/writer.h:220-233 | the four components in order |
| OscWriter.Writer.AddFormat | osc.lv2/osc.lv2/writer.h:304-319 | the comma and the letters as a string |
| OscWriter.Writer.AddArg | osc.lv2/osc.lv2/writer.h:328-389 | each letter has its encoding; it fails exactly for lack of room or a long MIDI event |
| OscWriter.Writer.ArgVarlist | osc.lv2/osc.lv2/writer.h:321-393 | all arguments in order, or failure exactly if they do not fit |
| OscWriter.Writer.MessageVarlist | osc.lv2/osc.lv2/writer.h:408-418 | succeeds exactly if the message is shorter than the room left, writes exactly its encoding, and never outside of it, failing or not |
| OscReader.ArgRoundTrip | osc.lv2/osc.lv2/reader.h:329-433 | what was encoded is read back, and the pointer ends behind it |
| OscReader.ArgsRoundTrip | osc.lv2/osc.lv2/reader.h:435-469 | the same for every list of arguments and its type tag string |
| OscReader.BeginRoundTrip | osc.lv2/osc.lv2/reader.h:435-455 | an encoded message begins with its path, and its first argument decodes |
| OscReader.MessageRoundTrip | osc.lv2/osc.lv2/reader.h:435-469 | reading an encoded message gives its path and arguments and ends at the end of the packet |
| OscReader.RoundTripIsExact | osc.lv2/osc.lv2/reader.h:209-219 | arguments come back unchanged exactly if all MIDI events have four bytes |
| OscCanonical.ArgIsCanonical | osc.lv2/osc.lv2/writer.h:165-218 | an argument has one encoding exactly if a blob fills its padding and a MIDI event has four bytes |
| OscCanonical.FillsShow | osc.lv2/osc.lv2/writer.h:165-218 | other arguments show what the buffer held before |
| OscCanonical.MessageIsCanonical | osc.lv2/osc.lv2/writer.h:408-418 | a message determines its bytes exactly if that is so for all its arguments |
| OscReader.Reader.GetString | osc.lv2/osc.lv2/reader.h:189-201 | the string up to its zero byte, and the pointer behind the padding, or nothing |
| OscReader.Reader.GetBlobBody | osc.lv2/osc.lv2/reader.h:221-235 | the blob with its size, or nothing; a blob that does not fit has its size consumed |
| OscReader.Reader.ArgRaw | osc.lv2/osc.lv2/reader.h:329-433 | the argument that the letter asks for, and its size |
| OscReader.Reader.ArgBegin | osc.lv2/osc.lv2/reader.h:435-455 | path, letters and the first argument, or NULL |
| OscReader.Reader.Foreach | osc.lv2/osc.lv2/reader.h:463-486 | the loop visits exactly the arguments of the specification, decoding one before it looks for the end |
| OscReader.Reader.ReadMessageAt | osc.lv2/osc.lv2/reader.h:435-469 | path and arguments of a message, or NULL, also if the first argument does not decode |
| OscBundle.PushBundle | osc.lv2/osc.lv2/writer.h:241-253 | the bundle header and its time tag |
| OscBundle.PopBundle | osc.lv2/osc.lv2/writer.h:255-267 | an empty bundle is taken back |
| OscBundle.PushItem | osc.lv2/osc.lv2/writer.h:269-279 | room for the size of an item |
| OscBundle.PopItem | osc.lv2/osc.lv2/writer.h:281-296 | the size is the length of what was written since, in the place left for it |
| OscBundle.WritableMeans | osc.lv2/osc.lv2/writer.h:255-267 | which trees are refused whatever the room: those with an empty bundle or a long MIDI event |
| OscBundle.WriteItem | osc.lv2/osc.lv2/writer.h:457-459 | an item is its packet behind its size |
| OscBundle.WriteItems | osc.lv2/osc.lv2/writer.h:452-463 | all items in order, or failure exactly if they do not fit |
| OscBundle.WritePacket | osc.lv2/osc.lv2/writer.h:433-466 | a tree of any depth is written with every size right, exactly if it has no empty bundle and is shorter than the room left |
| OscBundle.HandleBundle | monobusd.c:140-147 | the loop over the items visits what the specification gives |
| OscBundle.HandlePacket | monobusd.c:180-215 | the recursion over nested bundles visits what the specification gives, and terminates |
| OscBundle.MessageIsVisited | osc.lv2/osc.lv2/reader.h:566-576 | an encoded message is taken for a message and for nothing else |
| OscBundle.ItemsRoundTrip | osc.lv2/osc.lv2/reader.h:264-311 | walking the items of an encoded bundle finds each of them |
| OscBundle.BundleRoundTrip | monobusd.c:140-215 | dispatching an encoded tree visits exactly its messages, in order, each with the time tag of its innermost bundle |
| OscBundle.LeavesInOrder | monobusd.c:140-147 | the messages of a tree are in the order of the tree, each with the time tag of its innermost bundle |
| Vectors.BundledMessage | osc.lv2/osc.lv2/writer.h:241-296 | a bundle of one message, byte by byte, and what is visited in it |
| Priority.LengthTestSuffices | monobus.c:224-232 | if the size of the bitmap does not overflow, a blob of the compared length has all its pixels |
| Priority.TotalLengthIs | monobus.c:226 | without overflow the compared length is the bytes of a row times the height |
| Accesses.ReadsAreVisible | monobus.c:127-138 | the loops read exactly the pixels of the bitmap that are on the display |
| Accesses.LengthTestCovers | monobus.c:106-152 | for all offsets and sizes without overflow of the loop bounds, the comparison of lengths covers every access to every accepted blob if and only if both ends of every row on the display are below the compared length |
| Accesses.LengthTestCoversLast | monobus.c:106-152 | if the rows on the display are within 2^32 bytes, if and only if the last access is |
| Accesses.RowsOfDisplay | monobus.c:109-112 | that is so for every bitmap that does not start above the display |
| Accesses.ReadOutside | monobus.c:226-230 | an accepted empty blob of which a byte is read |
| Accesses.OverflowWithoutHarm | monobus.c:226-230 | a bitmap whose size overflows and whose accesses are covered all the same |
| Accesses.BoundOverflows | monobus.c:127-130 | offsets for which a loop bound overflows |
| Priority.HandleArgs | monobus.c:180-246 | the commands of the arguments are drawn in order, a clear if there was no bitmap, whenever C defines what these commands do |
| Priority.OneBlob | monobus.c:188-240 | up to four integers before a blob are offsets and sizes with the whole display as default, other arguments are ignored, and a blob that is long enough is set there |
| Priority.NoBlob | monobus.c:242-245 | without a blob that area is cleared |
| Priority.BlobAlone | monobus.c:191-194 | a blob of 224 bytes alone sets the whole display, a shorter one clears it |
| Priority.DocumentedSet | README.md:107-115 | four integers and a blob set the bitmap there, or clear that area if the blob is too short |
| Priority.DocumentedClear | README.md:117-123 | no arguments: the priority shows nowhere afterwards |
| Vectors.ClearingMessage | monobus_test.c:29-52 | the clearing message of the program's own assertions, byte by byte, clears the whole display at priority 0 |
| Vectors.SettingMessage | monobus_test.c:54-138 | the setting message, with any 224 bytes, sets the whole display at priority 1 |
| Priority.CommandsSurviveTheWire | monobus.c:196-240 | arguments as read back cause the same commands as those that were written |
| Priority.MessageToCommands | monobus.c:180-246 | any encoding of a message causes the commands of its arguments |
| Compositor.StrideRoundsUp | monobus.c:100-104 | bytes of a row, rounded up unless the sum wraps around |
| Compositor.BlobByteInRange | monobus.c:106-117 | every byte of a bitmap is in its row and below stride times height |
| Compositor.AccessInRange | monobus.c:106-117 | the unsigned arithmetic does not wrap around for bitmaps of up to 2^32 bytes |
| Compositor.RowsAreRightAligned | monobus.c:106-117 | pixel x of a row is its bit number 8 * stride - width + x, most significant first |
| Compositor.PbmAgrees | monobus.c:106-117 | that is the PBM layout exactly if the width is a multiple of eight |
| Compositor.PaintBits | monobus.c:134-149 | a command changes the bits of its own priority at the pixels that it covers, and no others |
| Bits.BitsOfByte | monobus.c:113-116 | bit k of a byte is its k-th digit in base two |
| Compositor.SetShowsBlob | monobus.c:106-149 | a set gives a pixel of the display the colour of a bit of its blob: which byte and which bit, for every proper set |
| Compositor.PaintCommutes | monobus.c:121-176 | commands of different priorities commute |
| Canvas.LayersAreLatest | monobus.c:121-176 | over any run, the bits of a pixel are what the latest command of each priority there made them, stale bits notwithstanding |
| Canvas.ResolveIsShown | monobusd.c:415-432 | the highest layer in the mask is the highest priority whose latest command was a set |
| Canvas.HighestSetWins | monobusd.c:415-432 | the colour of that priority is displayed; DisplayedPixel says which bit of its blob that is |
| Canvas.OffWithoutSets | monobusd.c:420-431 | without any such priority the pixel is off |
| Canvas.LatestIsLast | monobus.c:121-152 | what counts for a priority is its last command that touches the pixel |
| Canvas.ClearedIsNone | monobus.c:154-176 | a priority shows nothing where each of its sets was cleared later |
| Canvas.DisplayedPixel | monobusd.c:415-432 | the displayed colour is a bit of the blob of the topmost set, in terms of the commands, their rectangles and blobs alone |
| Canvas.DarkPixel | monobusd.c:415-432 | where every set was cleared by its own priority the pixel is off |
| Canvas.InterleavingIsIrrelevant | monobus.c:121-176 | only the order of commands within each priority matters for the picture |
| Canvas.Canvas.constructor | monobusd.c:760 | all pixels are off at first |
| Canvas.Canvas.Draw | monobus.c:121-176 | set and clear paint exactly the rectangle clipped to the display, for offsets of either sign |
| Canvas.Canvas.DrawRow | monobus.c:136-150 | the inner loop paints the clipped part of one row |
| Canvas.Canvas.Displayed | monobusd.c:415-432 | the displayed colour after the whole history of commands |
| Canvas.ResolvePixel | monobusd.c:415-432 | the loop from the highest layer down |
| MonoBus.ComputeCrc8 | monobus.c:23-34 | the complement of seed complement and all bytes, exclusive or |
| MonoBus.CrcChains | monobus_test.c:192-212 | the checksum of one part is the seed for the next |
| MonoBus.CrcOfOne | monobus.c:23-34 | no bytes leave the seed, and one byte is exclusive-ored with it |
| MonoBus.ChecksumIsParity | monobus.c:70-72 | a bit of the checksum is set exactly if an even number of the bytes have it |
| MonoBus.ChecksumProperty | monobus.c:70-72 | stuffed bytes and checksum have exclusive or 0xFF |
| MonoBus.PutStuffed | monobus.c:49-67 | one byte, stuffed if it is reserved |
| MonoBus.PutAllStuffed | monobus.c:47-68 | the payload, stuffed |
| MonoBus.Message | monobus.c:36-98 | exactly the frame is stored, and its length returned |
| MonoBus.FrameRoundTrip | monobus.c:36-98 | unstuffing a frame gives command, payload and checksum |
| MonoBus.FrameInBytes | monobus.c:43-97 | delimiters, command, stuffed payload, and the stuffed checksum of what is on the bus between |
| MonoBus.OutputFrame | monobusd.c:597-599 | the OUTPUT message, byte by byte |
| MonoBus.FramingDelimits | monobus.c:43-97 | no FRAMING byte inside a frame; its length is between n + 4 and 2 * n + 5 |
| MonoBus.OutdatFits | monobusd.c:497-591 | the longest message fits its buffer of 512 bytes |
| MonoBus.FramesSplit | monobus.c:36-98 | frames sent one behind the other split back into those frames |
| MonoBus.FramesDecodeUniquely | monobus.c:36-98 | the bytes on the bus determine the messages |
| Wire.SlotsAreDisjoint | monobusd.c:579-582 | no two pixels share a bit of the bitmap |
| Wire.SlotsCoverBitmap | monobusd.c:571-587 | every bit of the bitmap belongs to a pixel |
| Wire.OnePixel | monobusd.c:577-585 | setting a bit shows its pixel and changes no other |
| Wire.Rotate | monobusd.c:570-587 | the bitmap is the transposed picture of the whole history of commands |
| Wire.SendPicture | monobusd.c:570-591 | the frame of the rotated picture, within the buffer |
| Wire.SendRound | monobusd.c:560-602 | the three messages of a beat: the bytes on the bus, with the rotated picture in the second |
| Wire.PictureOnTheBus | monobusd.c:570-591 | unstuffing that frame gives, at byte 3 + 2 * y + 1 - x / 8 and bit x % 8, the displayed colour of the pixel in row x and column y |
| Wire.PlacesOfPixels | monobusd.c:573-586 | the byte and the bit of every pixel in the bitmap |
| Wire.BlobOnTheBus | monobusd.c:570-591 | a pixel is the same bit in the unstuffed message as in the blob of the topmost set there, both places in numbers |
| Wire.RoundOnTheBusDecoded | monobusd.c:560-599 | the three messages of a beat as a reader of the bus gets them |
| Scheduler.NanosecondsAreLost | monobusd.c:202-203 | the fraction of a time tag never matters |
| Scheduler.TimeOfTag | monobusd.c:202 | the seconds of a time tag count from 1900, those of the clock from 1970 |
| Scheduler.DueMeans | monobusd.c:546-552 | due means that the time is not later than now |
| Scheduler.DueByTag | monobusd.c:202-203 | a message is due from the second of its time tag on |
| Scheduler.InsertionPoint | monobusd.c:158-166 | a message stands in front of the first one that is later in both seconds and nanoseconds |
| Scheduler.LinkedIsList | monobusd.c:149-178 | following the links visits every node once and ends |
| Scheduler.SchedAppend | monobusd.c:149-178 | the list stays acyclic, and the element stands in front of the first one that is later in both seconds and nanoseconds |
| Scheduler.LinkIn | monobusd.c:168-177 | the new node between its neighbours |
| Scheduler.Schedule.Append | monobusd.c:198-207 | the waiting messages with the new one inserted |
| Scheduler.Schedule.DispatchDue | monobusd.c:543-558 | exactly the due messages at the front of the list leave it, in order |
| Scheduler.Conservation | monobusd.c:149-178 | over any run, dispatched and waiting messages are exactly the inserted ones, each as often |
| Scheduler.Fifo | monobusd.c:149-207 | messages leave in the order of arrival |
| Scheduler.PassesAreCompleteIffInTimeOrder | monobusd.c:544-558 | no pass leaves a due message behind if and only if the list is in the order of times |
| Scheduler.BlockedMessage | monobusd.c:549-552 | a due message behind an earlier one that is not due has to wait |
| Scheduler.NextBeat | monobusd.c:604-610 | the next time is one step later, with nanoseconds in range |
| Beat.TargetIsNamed | monobus.c:248-287 | a literal path addresses a priority exactly if it is /monobus/ and that number |
| Beat.PathsDraw | monobus.c:185 | a path draws at the priority that it names in decimal, and no other path draws |
| Beat.PathOfEleven | monobus.c:248-281 | /monobus/11 draws at priority 11 |
| Beat.Match | osc.lv2/osc.lv2/reader.h:578-609 | the walk over the two levels of the tree draws for the priority of the path (PathsDraw) and for no other |
| Beat.MatchPriority | osc.lv2/osc.lv2/reader.h:588-608 | the loop over the 32 names |
| Beat.HandleMessage | monobusd.c:131-138 | a message that was encoded from typed arguments has the effect of those arguments |
| Beat.EffectIsOfMessage | monobusd.c:131-138 | reading it back changes nothing about its effect |
| Beat.HandleEvent | monobusd.c:190-213 | an immediate message draws now, any other one joins the list |
| Beat.HandleMeans | monobusd.c:192-207 | the time tag 1 draws, any other one waits for its seconds |
| Beat.HandleOne | monobusd.c:180-215 | handling one message is handling that message |
| Beat.EventsOfOne | monobusd.c:536-541 | the messages of one packet are those visited in it |
| Beat.HandleEvents | monobusd.c:140-147 | the messages of a packet, in order |
| Beat.HandleNext | monobusd.c:536-541 | one packet of the ring is handled where it lies, and released |
| Beat.HandleRing | monobusd.c:533-541 | all of them in order, until the ring is empty; Concurrent has the same while the other thread goes on |
| Beat.HandleDue | monobusd.c:543-558 | due messages draw in order and leave the list |
| Beat.SoundIsVisited | monobusd.c:554 | a message taken from the list is drawn, not put off again |
| Beat.HandleMessages | monobusd.c:533-558 | the ring is emptied and due messages draw |
| Beat.Beat | monobusd.c:533-610 | after a beat the ring is empty, all that it held and all that was due is drawn or waits, the bus carries the picture of it, and the next beat is one step later |
| Concurrent.HandledIsReceived | monobusd.c:533-541 | in every interleaving of both threads, what has been handled is what has been received, in order |
| Concurrent.LastLook | varchunk/varchunk.h:304-363 | a look at head that finds nothing, whatever the producer does meanwhile: everything that was committed at that time has been received |
| Concurrent.InterleavedBeat | monobusd.c:533-541 | while the other thread goes on committing, the loop over the ring handles exactly the chunks that were committed when it looked at head for the last time, and leaves later ones for the next beat |
| Beat.LeavesHandled | monobusd.c:180-215 | immediate messages draw in order, the others line up behind those that wait already |
| Beat.LeafByLeaf | monobusd.c:192-207 | which messages draw and which are deferred |
| Beat.EventsCarryLeaves | monobusd.c:533-541 | the ring's packets yield exactly the messages of the encoded trees |
| Beat.PacketsHandled | monobusd.c:180-215 | encoded trees of any depth are accepted, and do what their messages say, in order |
| Serve.EncodedIsPlain | osc.lv2/osc.lv2/reader.h:566-576 | encoded OSC packets start with neither END nor ESC, and the daemon accepts them |
| Serve.TakeIn | osc.lv2/osc.lv2/stream.h:1024-1096 | one call: all packets whose frames end in the piece are in the ring afterwards, behind those that were there, and what is kept |
| Serve.OneRound | monobusd.c:525-610 | one call of the stream and one beat |
| Serve.ServeAll | monobusd.c:525-610 | rounds over a whole connection: nothing is lost, and the bus carries the picture of all that was drawn |
| Serve.ReadyAtFirst | osc.lv2/osc.lv2/stream.h:1024-1096 | a new connection that is cut safely can be served |
| Serve.ImmediateRound | monobusd.c:533-558 | a beat draws the commands of all immediate messages of its packets, in order |
| Serve.ImmediateRounds | monobusd.c:525-610 | the commands drawn over a whole connection are those of the messages that were sent, whatever the pieces and the times |
| LaterMessages.EffectsOfWaiting | monobusd.c:196-207 | what waits for a message draws what it says |
| LaterMessages.OneRoundOf | monobusd.c:533-558 | one round: what it draws, what becomes due, and what waits afterwards |
| LaterMessages.EffectsOfOne | monobusd.c:554 | a due message has its own effect |
| LaterMessages.DueAtOnce | monobusd.c:533-558 | messages whose time has come when they arrive are drawn in the same beat, behind the immediate ones |
| LaterMessages.DeferredRounds | monobusd.c:525-610 | over a whole connection: those that became due and those that wait are, in order, those that waited before and those that were sent for later; the drawing is a merge of the immediate ones and those that became due, each in order |
| LaterMessages.FromClients | monobusd.c:525-610 | so of the messages sent for later the first so many are drawn and the others wait, each exactly once and in order |

## Left out

- SlipSession.DisturbedSession: for the same packets as SessionDelivers.
- SlipSession.HeadlessSession: for what is kept that starts with neither END nor ESC; what starts with END may be a frame.
- SlipSession.SessionDelivers: for packets that start with neither END nor ESC; those of OSC start with a slash or a number sign (Serve.EncodedIsPlain). For other packets IntactSession gives a sufficient condition, and SelfHealing shows that it is not necessary; what exactly repairs a damaged frame is not characterised.
- Sockets, URL parsing, poll, the UDP and serial drivers, and the length-prefixed variant of TCP: the bytes of each `recv` are an input.
- Sending (osc.lv2/osc.lv2/stream.h:949-1020): only the encoder and the size comparison before it are modelled.
- Slip.EncodeInline: the buffer must be large enough for the frame, which is the guard that the caller does not have (SizeAloneIsNotEnough).
- C11 memory orders: index loads and stores are atomic and in order; the relaxed mode of the ring is not modelled.
- Memory allocation, `mlock`, signals, threads starting and stopping, ncurses, libftdi, getopt, and the clients' own programs.
- Varchunk.BodySize: beyond 2^63 the code does not terminate.
- Varchunk.Varchunk.constructor: rings of more than 2^31 bytes, on which the bounds do not hold (RingTooLarge).
- Varchunk.Varchunk.WriteAdvance: commits that the code's assertion accepts beyond the bound that counts the header (FullTakenForEmpty).
- Beat.Match: paths that contain `*`, `?`, `[`, `{` or `(` are excluded by Literal, as `fnmatch` is foreign code; so the sharing of one argument record between several matching priorities is not modelled either.
- Beat.HandleMessage: messages are encodings of typed arguments; one that does not decode makes the code follow a NULL pointer.
- Beat.HandleEvent: the same.
- Beat.HandleEvents: the same.
- Beat.HandleNext: the same, for the packets in the ring.
- Beat.MatchPriority: commands that are not Proper, as for Priority.HandleArgs.
- Beat.HandleRing: nobody commits while the method runs. The loop among the steps of the other thread is the subject of Concurrent.InterleavedBeat, where each access to shared memory is a step.
- Beat.HandleDue: takes the due messages off the list first and handles them in the same order afterwards.
- Beat.HandleMessages: the same as for HandleRing.
- Beat.Beat: the same as for HandleRing; and sleeping until the time of the beat, the simulated display, and ending on a failed transmission.
- Serve.OneRound: a call of the stream and a beat do not overlap.
- Serve.ServeAll: the same; pieces are cut safely, and no round brings more than the ring takes; otherwise packets are lost (SessionDelivers), and what arrives instead may be no message.
- forge.h, the atom parts of writer.h and util.h, and the typed argument lists of reader.h (lv2_osc_reader_arg_varlist).
- Floats and doubles: they are opaque words.
- Scheduler.Schedule.DispatchDue: compares times over the reals, without rounding, and hands the messages back.
- Scheduler.Schedule.Append: failing allocation, after which the code logs and drops the message.
- OscReader.Reader.GetString: a string that never ends; the code reads beyond its memory.
- OscReader.Reader.GetBlobBody: negative sizes, for which the code moves its pointer backwards.
- OscBundle.HandleBundle: negative item sizes, and items shorter than eight bytes that could be the start of the bundle mark, for which the code reads beyond the item.
- OscBundle.HandlePacket: the same; and it lists the messages of a packet before any of them is handled, while the code handles each as it finds it. The handlers do not touch what is still to be walked.
- Priority.HandleArgs: commands for which a loop bound overflows or a byte outside of the blob is read (not Proper); C does not define what they do.
- MonoBus.Message: the destination must be large enough for the frame, as the code ignores the length that it is given.
- The STATUS and LED_SETUP messages before the first beat, and those after the last one.
