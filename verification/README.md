# Verified model of the packet path of showeq-daemon (Quarm)

The daemon sniffs the UDP traffic of an EverQuest Mac session and rebuilds application messages from it. This
project models that path in Dafny, together with four smaller pieces of the daemon, and proves what they guarantee.
`dafny verify dfyconfig.toml` checks everything.

**The live path.** `WireFormat` is the bit-flagged packet header: how it is read and how a sender writes it. `Fragments`
and `Decoder` are `EQMacDecoder`: the 16-bit retransmit filter, the fragment table with its counters and flags, the
deobfuscation of three opcodes (`Ciphers`, and `CipherWords` for its arithmetic), and the callback, which is modelled as
the sequence of messages returned. `PacketBytes` says byte by byte what the decoder makes of any datagram. `Demux` is
`EQPacketStream::handlePacket`, one decoder per port pair. In `Network` a sender numbers its packets consecutively, the
network loses, repeats and reorders them, every copy arrives in an envelope of its own (datagram number, acknowledgement
fields, unused header bits, checksum), some numbered packets carry no message, and packets without a number come in
between. The main result is `Delivery.AssembledIff`: from those bytes the decoder assembles the messages all of whose
packets arrived above everything before them, whole, once each, and in sending order, and *nothing else if and only if*
no message that lost its first fragment makes up what the last opener of its group is missing. `Delivery.EndToEnd` and
`Guarantees` follow that through deobfuscation to the callback, `PlainText` back to the server's plain texts, and
`GroupNumbers` says exactly for which senders the condition always holds. The comment at `src/eqmac_decoder.cpp:297`
calls appending in arrival order acceptable because the server keeps order; the proof shows that, short of such a
splice, the ARQ filter makes it correct. `History` says what the fragment table holds after any bytes at all.

**The older sequencer.** `Sequencer` is the reorder buffer over 16-bit numbers (`setCache`, `processCache`, the
sequenced cases of `processPacket`); `SequenceOrder` is the same over unbounded numbers, `SequenceRefinement` proves
that the first refines the second across any number of wraps, and `SequenceGuarantees` and `SequenceTiming` state what a
sender may rely on, down to a condition on the order of arrival alone. `AppCombined` and `Oversized` are the two
framings above it. Nothing in the current source calls `processCache`, so the driver is supplied: one `processPacket`,
then one `processCache`.

**Smaller pieces.** `Bits` is `BitStream`; `CaptureQueue` is the linked queue between the capture thread and the reader;
`SoeMap` stitches map line records into polylines; `FixedPoint` is the map's screen transform; `Filters` is the cache of
filter flags on stored messages.

Code that changes state is modelled by classes and loops, each proved against a function of the old state; the theorems
are about those functions. Inflating, pattern matching, the map palette and the outcome of a packet's checksum are
parameters. Bytes are `bv8` and cipher words `bv64`; other machine integers are bounded integers with wrap-around
written out.

Where the code falls short of what one might expect, the model follows the code:

- A fragment group number that is used again can splice two messages: if the last fragments of one message and the
  first of the next under the same number are lost, a message is emitted that nobody sent (`GroupNumbers.StaleGroupMixes`).
  `Delivery.NoSplice` says exactly when that does not happen; no run within the window breaks it if and only if no two
  messages of two fragments or more share a number, for a sender that splits only into two or more
  (`GroupNumbers.SafeIffDistinctGroups`). `GroupNumbers.SafeIff` is exact for every sender: reuse is also safe when so
  many one-fragment messages of the group lie between that losing them all takes the filter out of its window.
- A number at distance d from the highest one is dropped exactly when d modulo 65536 is 0 or at least 32768, so a jump
  ahead of 40000 is dropped and one of 65537 passes (`SerialNumbers.TestAgreesIff`).
- The fast screen transform multiplies in 32 bits. It is right for every 16-bit coordinate if and only if the inverse
  ratio is at most 4 (65536 in fixed point); beyond that some coordinates land 2^18 pixels off
  (`FixedPoint.FastTransformIff`).
- A first oversized chunk that is shorter than its total field or longer than the buffer is copied without a check; the
  model's outcome for it is `Unchecked`, and nothing is claimed after it.
- A message under one of the three obfuscated opcodes whose plain text is empty is never emitted (`PlainText.EmitOfSeal`).
- `processCache` does not return when the cache is empty and the give-up limit is 0 (`Sequencer.ScanMeets`).
- `getPacket` keeps only the low 16 bits of a length, so it returns a packet whole exactly when it is shorter than 65536 bytes.

## Model

| member | source | states |
|---|---|---|
| SerialNumbers.DeltaIsTrueDifference | src/eqmac_decoder.cpp:219-231 | within -32768..32767 of the high-water mark the 16-bit signed difference is the true difference of the unbounded numbers, across any number of wraps |
| SerialNumbers.TestAgreesIff | src/eqmac_decoder.cpp:223-228 | for numbers any distance apart, exactly when the signed test agrees with the true order |
| SerialNumbers.OppositeIsOld | src/eqmac_decoder.cpp:223-225 | the distance 32768, undefined in section 3.2 of RFC 1982, counts as old both ways |
| WireFormat.ParseOfPrint | src/eqmac_decoder.cpp:159-273 | reading a written packet gives back ARQ, fragment info, opcode and payload for every combination of optional fields and acknowledgement size |
| WireFormat.PrintOfParse | src/eqmac_decoder.h:9-25 | conversely, any bytes that read as a packet with application data are that packet written in some envelope |
| PacketBytes.ParseOfBytes | src/eqmac_decoder.cpp:159-273 | byte by byte, in masks and offsets: exactly the buffers of 10 bytes or more whose fields fit up to the ARQ are read, the ARQ is the two bytes behind the acknowledgements, and which of them carry application data |
| PacketBytes.DataOfBytes | src/eqmac_decoder.cpp:233-273 | where the fragment info, the opcode and the payload lie |
| PacketBytes.NewNumberMovesMark | src/eqmac_decoder.cpp:219-231 | a numbered packet that is new moves the high-water mark to its number, whatever follows: closing bits, a truncated field, or nothing |
| PacketBytes.OldNumberIsDropped | src/eqmac_decoder.cpp:223-228 | one that is not new leaves everything as it was and brings nothing |
| PacketBytes.NoNumberNoMark | src/eqmac_decoder.cpp:181-219 | a packet without a number never moves the mark; what is no packet leaves no trace |
| PacketBytes.HoldsNothingIff | src/eqmac_decoder.cpp:233-262 | which bytes are a numbered packet without a message |
| PacketBytes.WaysToHoldNothing | src/eqmac_decoder.cpp:233-262 | closing packets, packets cut short behind the number and packets that end with their header are such |
| PacketBytes.ClosingShutsOutOlder | src/eqmac_decoder.cpp:219-257 | a late data packet behind a numbered closing packet is dropped |
| Decoder.LocateArq | src/eqmac_decoder.cpp:181-199 | the optional fields are skipped one by one and the first that does not fit ends the packet; no read leaves the buffer |
| Decoder.ReadAfterArq | src/eqmac_decoder.cpp:233-273 | the field-by-field reading with its early returns is the layout-based one |
| Decoder.EQMacDecoder.Process | src/eqmac_decoder.cpp:159-313 | one datagram moves the decoder's state and emits messages as the transition function says, and keeps counters, flags and buffers consistent |
| Decoder.EQMacDecoder.AddFragment | src/eqmac_decoder.cpp:275-308 | flags, counter and growing buffer do what accepting a part into a list of parts does, and a message comes out when every index is there |
| Decoder.EQMacDecoder.Reset | src/eqmac_decoder.cpp:119-122 | reset restores the initial state |
| Decoder.EmitWithDecode | src/eqmac_decoder.cpp:128-156 | which messages one assembled message gives rise to |
| Decoder.AddPart | src/eqmac_decoder.cpp:295-303 | setting a flag, counting and appending represent adding the part, and the count reaches the total exactly when all indices are there |
| Fragments.CountsWhenComplete | src/eqmac_decoder.cpp:303 | for distinct indices below the total, count equals total if and only if every index has arrived |
| Fragments.AcceptKeepsOk | src/eqmac_decoder.cpp:275-308 | every open group was opened by fragment 0, holds no index twice, none out of range, and is incomplete |
| History.TableFromHistory | src/eqmac_decoder.cpp:275-308 | after any fragments, a group number holds the first copies since its last fragment 0, unless one was out of range or all are there |
| History.EmittedWhenDue | src/eqmac_decoder.cpp:303-306 | a message is emitted exactly on arrival of the last missing index, with the payloads in order of acceptance |
| History.AnyRun | src/eqmac_decoder.cpp:159-313 | after any sequence of datagrams, hostile ones included, the table is what the history says, no stored group is complete, and the next fragment brings out a message exactly when one is due |
| History.OpenGroupCounts | src/eqmac_decoder.h:61-68 | for a stored group the flag vector has the announced size, the counter is the number of flags set, flag 0 is set and one is missing |
| Ciphers.DecryptOfEncrypt | src/eqmac_decoder.cpp:40-91 | decrypting undoes encrypting for every buffer length and both ciphers; the bytes past the last whole word never change |
| Ciphers.EncryptOfDecrypt | src/eqmac_decoder.cpp:40-91 | encrypting undoes decrypting |
| Ciphers.UnchainOfChain | src/eqmac_decoder.cpp:47-57 | the chain keyed by the plain words inverts, whatever the starting key |
| Ciphers.MixOfUnmix | src/eqmac_decoder.cpp:75-81 | one word's rotations and constant invert in the other direction |
| Ciphers.DecryptInPlace | src/eqmac_decoder.cpp:43-91 | the loop that overwrites the buffer word by word and the final swap compute that decryption |
| CipherWords.ZoneSpawnIs | src/eqmac_decoder.cpp:43-65 | for every buffer, plain word i is the cipher word plus the sum of the plain words before it less i constants, rotated, reduced and rotated by the source's numbers; then the first and the middle word are exchanged and the tail is as it was |
| CipherWords.ProfileIs | src/eqmac_decoder.cpp:68-91 | the same for player profiles, with their start value, constant and rotations |
| Decoder.RunIsAssembleAll | src/eqmac_decoder.cpp:128-156 | deobfuscating message by message as they are assembled is deobfuscating the whole assembled list |
| Network.FilterIsTrueOrder | src/eqmac_decoder.cpp:219-231 | a packet of the stream passes the filter exactly when its true number is a new maximum |
| Delivery.AssembledIff | src/eqmac_decoder.cpp:211-313 | through loss, duplication and reordering within the window, the messages all of whose packets were accepted are assembled in order, each when its last packet is, and nothing else is if and only if nothing is spliced; the state is always that of the accepted packets fed in sending order |
| Delivery.TableIs | src/eqmac_decoder.cpp:275-308 | after every arrival each group holds what the accepted fragments since it was last opened make of it, spliced or not |
| Delivery.StrayDue | src/eqmac_decoder.cpp:283-303 | a fragment of a message that lost its first one brings a message out exactly when it completes what the last opener of the group left incomplete |
| Delivery.HeadedDue | src/eqmac_decoder.cpp:275-308 | any other fragment brings a message out exactly when it is the last one missing, and then with all payloads in order |
| Delivery.NoSpliceStep | src/eqmac_decoder.cpp:275-308 | accepting a packet leaves a run free of splices exactly when that packet does not complete one |
| Delivery.EndToEnd | src/eqmac_decoder.cpp:128-313 | without a splice the callback sees those messages deobfuscated, in sending order, with un-numbered ones in between as they come |
| Guarantees.AcceptedIff | src/eqmac_decoder.cpp:219-231 | a number is accepted exactly when a copy arrives before everything numbered higher |
| Guarantees.EmittedIsSubsequence | src/eqmac_decoder.cpp:211-313 | of the stream, what comes out are the messages at strictly increasing places, so each at most once, and exactly those whose packets were all accepted |
| Guarantees.NothingLost | src/eqmac_decoder.cpp:211-218 | if first copies arrive in order, retransmits anywhere change nothing and every message is emitted once, in order |
| GroupNumbers.WholeOpenersNoSplice | src/eqmac_decoder.cpp:275-292 | a message without its first fragment does no harm when the last opener of its group is whole |
| GroupNumbers.AcceptedIffReachable | src/eqmac_decoder.cpp:219-231 | a set of the stream's numbers is what some run within the window accepts if and only if no two consecutive members are 32768 or more apart |
| GroupNumbers.SafeIff | src/eqmac_decoder.cpp:219-303 | for every sender: no run within the window splices if and only if, for any message and the next of its group, what would have to be lost leaves such a gap |
| GroupNumbers.SafeIffDistinctGroups | src/eqmac_decoder.cpp:275-292 | for a sender that splits only into two fragments or more: no run within the window splices if and only if no two of them share a group number |
| GroupNumbers.FreshGroupsEndToEnd | src/eqmac_decoder.cpp:275-308 | with distinct group numbers the end-to-end result holds whatever is lost |
| GroupNumbers.StaleGroupMixes | src/eqmac_decoder.cpp:277-301 | two arrivals that make the decoder emit a message nobody sent |
| PlainText.EmitOfSeal | src/eqmac_decoder.cpp:128-156 | for every opcode the callback sees the server's plain text, except an empty one under the three obfuscated opcodes; only those three need inflate to undo deflate |
| PlainText.EmitOfNothing | src/eqmac_decoder.cpp:131 | a message without a body is handed over as it is under every opcode |
| PlainText.EmitOfGarbage | src/eqmac_decoder.cpp:143-153 | a body under one of the three opcodes that does not inflate is swallowed |
| PlainText.PlainTextEndToEnd | src/eqmac_decoder.cpp:128-313 | deflated, encrypted, cut, numbered, lost and repeated, the callback sees exactly the plain texts of the messages all of whose packets were accepted, in sending order, with those that came without a number in between |
| Guarantees.FlowEndToEnd | src/packetstream.cpp:545-575 | the end-to-end result for one flow among many through the stream |
| Demux.TupleKeyInjective | src/packetstream.cpp:552-555 | the key determines both ports |
| Demux.FlowsAreIndependent | src/packetstream.cpp:545-575 | however flows interleave, what is dispatched for one is what a decoder of its own emits on its own admitted datagrams |
| Demux.UnlatchedTakesAll | src/packetstream.cpp:527-575 | with no latched port or no latched address, what is dispatched for a port pair is what one decoder makes of all its datagrams |
| Demux.ServerStreamTakesClients | src/packetstream.cpp:527-531 | latched, a stream of server packets takes exactly the datagrams sent to the latched port and address |
| Demux.ClientStreamTakesClients | src/packetstream.cpp:527-531 | and a stream of client packets those sent from them |
| Demux.OthersAreTurnedAway | src/packetstream.cpp:527-543 | any other datagram leaves every decoder as it was and dispatches nothing |
| Demux.TheRestIsTakenIn | src/packetstream.cpp:545-575 | the others move the decoder under source port times 65536 plus destination port by one step |
| Demux.EQPacketStream.HandlePacket | src/packetstream.cpp:510-575 | one datagram is turned away by the latch or moves only its own flow's decoder, created on first use |
| Demux.EQPacketStream.Rejects | src/packetstream.cpp:527-531 | the four-part guard turns away exactly the datagrams of other sessions while the latch is closed |
| Demux.EQPacketStream.FillSlot | src/packetstream.cpp:557-559 | a flow's decoder is created on its first datagram, shared with no other flow |
| Demux.EQPacketStream.Feed | src/packetstream.cpp:570-574 | feeding one decoder leaves every other one as it was |
| Demux.EQPacketStream.Reset | src/packetstream.cpp:187-198 | reset unlatches the stream and drops every decoder |
| Sequencer.FutureInWindow | src/packetstream.cpp:827-829 | for every expected number, 1 to 1023 ahead is future and 0 to 1024 behind is not, on both sides of the wrap |
| Sequencer.ReceiveIs | src/packetstream.cpp:760-850 | by its true distance from the expected number a packet is passed on, kept unless a copy is there and its own checksum is bad, or dropped |
| Sequencer.PacketStream.ArriveAll | src/packetstream.cpp:760-850 | a new stream without a session key takes up the sequence at its first packet if that is a plain one; with a key, or while none is plain, it expects number 0 |
| Sequencer.ScanMeets | src/packetstream.cpp:303-314 | the give-up loop meets a cached number exactly when the cache is not empty |
| Sequencer.ScanIsNearest | src/packetstream.cpp:303-314 | it stops at the nearest cached number ahead |
| Sequencer.DrainExhausts | src/packetstream.cpp:326-405 | whatever the cache held, afterwards the expected number is not a key of it |
| Sequencer.PacketStream.SetCache | src/packetstream.cpp:228-271 | a second copy replaces the first only with a good checksum |
| Sequencer.PacketStream.ProcessPacket | src/packetstream.cpp:760-850 | a sequenced packet is passed on, kept or dropped; a mid-session join takes its number |
| Sequencer.PacketStream.SkipMissing | src/packetstream.cpp:303-314 | the give-up loop ends, at the nearest cached number going round |
| Sequencer.PacketStream.ProcessRun | src/packetstream.cpp:324-405 | the iterator loop, with its restart at the front when the number wraps to 0, drains the run of consecutive packets |
| Sequencer.PacketStream.ProcessCache | src/packetstream.cpp:275-411 | give up if the cache is full enough, then drain; afterwards the expected number is not cached |
| Sequencer.PacketStream.Arrive | src/packetstream.cpp:275-411 | one packet in, then everything it releases |
| SequenceOrder.HandleKeeps | src/packetstream.cpp:275-411 | the expected number never overtakes a kept packet, and all kept ones stay within the window |
| SequenceOrder.EveryNumberHasItsTurn | src/packetstream.cpp:294-405 | over a whole run the numbers passed on or given up are exactly consecutive: none twice, none out of order, none missing |
| SequenceOrder.PacketsAreConserved | src/packetstream.cpp:228-411 | packets arrived = still kept + passed on, stale, superseded, refused or dropped for a bad checksum |
| SequenceGuarantees.GoodCopyStays | src/packetstream.cpp:246-259 | a good copy that arrives before its turn is over is passed on or a good copy is still kept |
| SequenceGuarantees.GoodCopyIsPassed | src/packetstream.cpp:294-405 | once its turn is over it has been passed on, never given up |
| SequenceGuarantees.ExpectedIsPassed | src/packetstream.cpp:760-820 | a packet that arrives when it is expected is passed on at once, whatever its checksum |
| SequenceGuarantees.PassedIsGoodOrInTurn | src/packetstream.cpp:324-405 | only packets that arrived are passed on, and one with a bad checksum only if it came just when it was expected |
| SequenceGuarantees.SkippedMeansFull | src/packetstream.cpp:294-315 | a number is given up only when the cache holds at least the limit and not that number |
| SequenceGuarantees.CacheStaysBelowLimit | src/packetstream.cpp:285-315 | giving up does happen: between arrivals the cache always holds fewer packets than the limit |
| SequenceTiming.TimelyIsReached | src/packetstream.cpp:294-405 | with a timely good copy of every number below a bound, the expected number gets to the bound |
| SequenceTiming.TimelyComesFirst | src/packetstream.cpp:760-850 | the first packets passed on are then the sender's packets below the bound, in order, once each |
| SequenceTiming.TimelyRunIsExact | src/packetstream.cpp:760-850 | and if nothing from the bound on arrived, they are all that is passed on and the bound is expected next |
| SequenceTiming.EarlyIsTimely | src/packetstream.cpp:285-315 | a number of which a good copy arrives before as many higher numbers as the give-up limit has a timely copy |
| SequenceTiming.CloseIsNear | src/packetstream.cpp:760-850 | arrivals close to one another stay within the window of whatever number is expected |
| SequenceTiming.EarlyRunIsExact | src/packetstream.cpp:228-411 | with both conditions, which speak of the order of arrival alone, the 16-bit sequencer passes on exactly the sender's packets, in order, once each |
| SequenceRefinement.HandleRefines | src/packetstream.cpp:228-411 | one step of the 16-bit sequencer is one step of the unbounded one |
| SequenceRefinement.SequencerRefines | src/packetstream.cpp:228-411 | over any run within the window, across wraps, both pass on the same packets |
| AppCombined.DecodeOfEncode | src/packetstream.cpp:674-758 | unrolling gives back any list of items, with short or long lengths and escaped opcodes |
| AppCombined.EncodeOfDecode | src/packetstream.cpp:674-758 | whatever unrolls is the encoding of its items: nothing skipped or read twice |
| AppCombined.FramingIs | src/packetstream.cpp:688-740 | which bytes give the length and the opcode, and with what weight |
| AppCombined.Unroll | src/packetstream.cpp:684-757 | the cursor loop dispatches exactly those items and ends at the payload end; when an item does not fit, it has dispatched those of the longest front part that unrolls |
| AppCombined.UnrollOne | src/packetstream.cpp:688-756 | one turn consumes one whole item, or finds that none fits |
| Oversized.FragmentSequence.AddFragment | src/packetfragment.cpp:83-145 | a chunk is copied behind what is there, the buffer growing only for a larger total; an overflowing later chunk is fatal, and a first chunk that does not fit is the unchecked copy |
| Oversized.FragmentSequence.Take | src/packetstream.cpp:870-910 | the oversized branch hands over the content exactly when it is complete and starts afresh in the same buffer |
| Oversized.FragmentSequence.TakeAll | src/packetstream.cpp:760-936 | sequenced packets one after another through one buffer, up to one that cannot be taken |
| Oversized.FragmentSequence.TakeSeries | src/packetfragment.cpp:71-145 | whatever the buffer held before, any series of messages cut in any way comes out whole, nothing stops, and the buffer ends empty at the largest size needed |
| Oversized.FragmentSequence.Complete | src/packetfragment.h:56-59 | when a message is complete |
| Oversized.HandedOverAsAnnounced | src/packetfragment.h:56-59 | a message is handed over at exactly the announced length, never past it |
| Oversized.TotalIs | src/packetfragment.cpp:89 | the total is the first four bytes, the most significant first |
| Oversized.FragmentSequence.Reset | src/packetfragment.cpp:71-79 | reset empties the buffer and keeps its space |
| Oversized.RestCompletes | src/packetfragment.cpp:126-144 | non-empty chunks complete the buffer exactly at the last of them and never overflow it |
| Oversized.SeriesReassembles | src/packetfragment.cpp:71-145 | a series comes out message by message, and what follows meets an empty buffer |
| Oversized.SequencedEndToEnd | src/packetstream.cpp:760-936 | through the 16-bit sequencer, with a timely good copy of every number below a bound, the messages those numbers carry come out first, whole, in order and once |
| Oversized.EarlyEndToEnd | src/packetstream.cpp:228-411 | the same from a condition on the order of arrival alone, with nothing else coming out |
| Bits.BitStream.ReadUInt | src/netstream.cpp:250-315 | the next bits as a most-significant-first number, modulo 2^32, for any position and count; 0 and no movement past the end |
| Bits.BitStream.ReadInt | src/netstream.cpp:317-325 | sign bit, then magnitude; the cursor moves past the field, or past the sign bit alone when the field runs past the end |
| Bits.FieldSplit | src/netstream.cpp:250-315 | reading a and then b bits is reading a + b bits |
| Bits.FieldInByte | src/netstream.cpp:277-303 | shift and mask of one byte are the bits they select |
| Bits.ShiftIn | src/netstream.cpp:294-305 | shifting into the 32-bit register loses only what falls out at the top |
| Bits.SignAndMagnitude | src/netstream.cpp:317-325 | up to 32 bits the result is exactly sign times magnitude |
| CaptureQueue.Queue.Enqueue | src/packetcapture.cpp:346-367 | appends under the lock unless closed; accepted = delivered + in flight + queued stays true, and the node in flight is not touched |
| CaptureQueue.Queue.Unlink | src/packetcaptureprovider.cpp:65-79 | takes the oldest node, which is then unreachable from the queue; both ends become null together |
| CaptureQueue.Queue.CopyAndFree | src/packetcaptureprovider.cpp:81-88 | the copy is whole exactly below 65536 bytes, and the freed node is never reachable again |
| CaptureQueue.Queue.GetPacket | src/packetcaptureprovider.cpp:60-89 | delivers the oldest accepted packet |
| CaptureQueue.Queue.Close | src/packetcapture.cpp:217-219 | nothing is accepted once closed, and what is queued stays |
| CaptureQueue.Queue.FreeAll | src/packetcaptureprovider.cpp:34-58 | the destructor frees every queued node once |
| SoeMap.LoadConserves | src/mapcore.cpp:1061-1123 | the polylines draw exactly the accepted records' segments, in file order |
| SoeMap.LoadIsMaximal | src/mapcore.cpp:1085-1123 | no polyline could have been joined to the next one |
| SoeMap.LoadKeepsColours | src/mapcore.cpp:1085-1123 | every record's segment lies, in file order and with negated 16-bit x and y, on a polyline one of whose two colours is the record's; each polyline's own colour is that of its first record and its shown colour the palette's for it |
| SoeMap.LoadOfSave | src/mapcore.cpp:1371-1397 | loading what was saved draws the same segments, whatever colours are written |
| SoeMap.SaveKeepsColours | src/mapcore.cpp:1371-1397 | one record is written for each segment, in the shown colour if that is valid and else in the line's own |
| SoeMap.LoadSoeMap | src/mapcore.cpp:1031-1135 | the loop with its point counters builds those polylines |
| SoeMap.LoadRecord | src/mapcore.cpp:1085-1123 | one record extends the current line or starts one, and checkPoint is always its last point |
| FixedPoint.TransformsAgree | src/mapcore.h:220-256 | while the 32-bit product fits, for coordinates up to n times 2^14 the two transforms differ by at most n pixels, with the direction of the error |
| FixedPoint.WithinTwoIffFits | src/fixpt.h:121-125 | for a 16-bit coordinate they differ by at most 2 if and only if its product fits 32 bits |
| FixedPoint.ProductFitsIff | src/fixpt.h:121-125 | all 16-bit coordinates' products fit if and only if the fixed-point inverse ratio is at most 65536 |
| FixedPoint.FastTransformIff | src/mapcore.h:220-256 | so the fast transform is within 2 pixels for all 16-bit coordinates if and only if that ratio is at most 65536 |
| Filters.CacheIsNeverStale | src/messages.cpp:54-97 | after any messages, additions, removals and clears, every cached flag word is what filtering now would give, with slots reused |
| Filters.ApplyAgrees | src/messagefilter.cpp:106-187 | one operation keeps that |
| Filters.FlagsAre | src/messagefilter.h:80-86 | a message has flag i exactly when slot i holds a filter whose type word includes its kind and whose pattern matches its text |
| Filters.StoredFlagsAre | src/messages.cpp:54-97 | and so have the flags stored with every message after any operations |
| Filters.MessagesAreKept | src/messages.cpp:54-79 | the messages stored are always those added since the last clear, in order |
| Filters.AddingFillsLowest | src/messagefilter.cpp:106-135 | adding fills the lowest vacant slot and leaves the others |
| Filters.RemovingVacatesLowest | src/messagefilter.cpp:137-187 | removing by slot, by filter or by name vacates that slot, or the lowest that holds it, and leaves the others |
| Filters.MessageFilters.FilterMessage | src/messagefilter.cpp:189-205 | the loop collects exactly the slots whose filter the message passes |
| Filters.MessageFilters.AddFilter | src/messagefilter.cpp:106-135 | the first vacant slot, or 0xFF and no change |
| Filters.MessageFilters.FindFilter | src/messagefilter.cpp:137-148 | the first slot that holds an equal filter |
| Filters.MessageFilters.RemFilter | src/messagefilter.cpp:150-173 | vacates the slot and says whether it was taken |
| Filters.Messages.AddMessage | src/messages.cpp:54-70 | appends the message with its flags |
| Filters.Messages.AddFilter | src/messages.cpp:89-97 | adding a filter rewrites the flags of the messages it passes |
| Filters.Messages.RemoveSlot | src/messages.cpp:81-87 | removing a filter clears its flag everywhere |
| Filters.Messages.RemoveFilter | src/messagefilter.cpp:137-148 | removing an equal filter is removing the first slot that holds one, and the result says whether there was one |
| Filters.Messages.AddedFilter | src/messages.cpp:89-97 | the loop sets the new flag on exactly the messages the filter passes |
| Filters.Messages.RemovedFilter | src/messages.cpp:81-87 | the loop clears one flag on every message and leaves the others |
| Filters.Messages.ClearAll | src/messages.cpp:72-79 | clearing empties the store and keeps the filters |

## Left out

- Delivery.AssembledIff: arrivals must be within -32768..32767 of the highest number before them; `TestAgreesIff` says what the filter does otherwise. A packet without a number is one whole message; fragments without a number are not part of the network model (`History.AnyRun` covers them).
- AppCombined.Unroll: stops at an item shorter than its opcode; the source reads the opcode from what follows, dispatches it with a length of minus two or minus one, and goes on.
- Bits.BitStream.ReadInt: a count of 0 is excluded, because the source then asks for the largest number of bits there is and reads outside the data.
- Oversized.FragmentSequence.AddFragment: says nothing of the buffer after an unchecked copy, because the source then writes outside it.
- Sequencer.PacketStream.ProcessCache: an empty cache with a give-up limit of 0 is excluded, because the source then never returns.
- SequenceRefinement.SequencerRefines: starts at the first expected number with nothing kept; oversized packets cached before a mid-session join may lie outside the window afterwards and are not covered.
- Bits.BitStream.ReadUInt: the wrap-around of a bit count near the width of size_t is not modelled.
- SoeMap.LoadOfSave: points with x or y equal to -32768 are excluded, because what is written for them, 32768.0, has no defined conversion to 16 bits when it is read back.
- Filters.CacheIsNeverStale: a 32-bit flag word is the set of its one bits; the signals between filters and messages are direct calls.
- Sequenced packets that nest session control or further sequenced packets, OP_Combined, and the session request, response and disconnect cases of processPacket: a packet passed on is not looked into.
- Checksum values and zlib: a sequenced packet carries the outcome of its check, and inflating is a function; the session key does not change during a run.
- Compressed and combined protocol packets, opcode tables, structure layouts and the dispatch of decoded messages to receivers: lookups and plumbing.
- pcap, sockets, threads beyond lock-protected steps, playback timing, Qt signals, logging: input and output.
- Colours of saved map lines, text formatting, P records, bounds and 2D lines of SOE maps; loadMap and saveMap.
- Rounding of doubles in the screen transform: they are taken as reals; panning, zooming and centring are user interface state.
- Filter regular expressions, preferences and XML: whether a pattern matches is a parameter.
