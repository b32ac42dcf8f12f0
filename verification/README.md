# Verified model of the ring server

The ring server keeps seismic data packets in a fixed-size circular buffer, indexes them by stream, serves them to
readers over DataLink and SeedLink, and reads and writes miniSEED. This project models its most intricate parts in Dafny
and proves what they are for. The statements hold for all inputs; what is only an example is called one.

**The packet ring** (`RingTypes`, `RingHistory`, `RingIndex`, `RingBuffer`, `RingViews`, `RingReading`, `RingDelivery`,
`RingFiles`, `RingStorage`, `StreamTree`). The class `RingBuffer` has the ring's fields and its byte array; a ghost
sequence, the history, lists every packet ever written. Packet number n of the history belongs in slot n modulo the
number of slots, and the live packets are the last ones. `Valid` says that the byte slots, the earliest and latest
fields, the next-in-stream links and the stream index are all functions of the history; `Write` keeps it and appends one
packet. (The five earliest and the five latest fields, in the ring and in each stream entry, are grouped as marks.)
Everything else follows from the history: readers get each matching packet exactly once and in order, a restart
from the two files brings the same ring back, and lookups from the earliest packet work exactly while slots are free.
The class `RingBuffer` keeps its stream index as a map. `StreamTree` runs the same index steps, for any history, on the
red-black tree below, updating entries in their nodes, and shows that the tree holds that map after every write.

**The red-black tree** (`OrdinalStrings`, `TreeShape`, `TreeBalance`, `RedBlackTree`). Nodes with parent pointers and a
shared sentinel are changed in place. A zipper (a path and the subtree in its hole) says which tree the pointers spell
around the node in focus; each rotation, recolouring and transplant is proved first on pointers, then on the tree.

**Steim-1 and Steim-2** (`Bits`, `SteimFormat`, `SteimGreedy`, `SteimOne`, `SteimWords`, `Steim`, `SteimBlocks`). The decoder is
written from the frame layout in the SEED Reference Manual v2.4, Appendix B. The encoders run on arrays as in C, both in one
method with a version parameter, since they differ only in the window, the layouts and the failure case. Besides the round
trip, Steim-2's greedy packing is proved optimal, and Steim-1's, for all numbers of words, exactly when no greedy word starts
in a trap: a difference of 9 to 16 bits and then a positive multiple of four of 8 bits, and no more of those.

**Calendar and checksum arithmetic** (`Calendar`, `Gmtime`, `NsTime`, `Crc32c`): loops and closed forms against the
proleptic Gregorian calendar and against the bit-by-bit shift register.

**Stream machines that must not care how their input is cut**: the buffered record reader (`RecordReader`), DataLink
framing (`DataLinkFraming`), archive paging (`HistoryPages`), and the string routines `Utf8` and `SourceIds`.

The functions that methods are proved against are in their turn fixed by plain numbers. Formats are stated by byte position
(`RingTypes.HeaderPlaces`, `RingHistory.PacketInMemory`, `RingStorage.FileBytes`, `RingFiles.RecordPlaces`,
`RecordReader.Mseed3Means`), Steim words and codes as sums of fields (`SteimFormat.Spells`, `Steim.CodeIs`), text by the
characters it encodes (`Utf8.TextIsEncodings`), orders and conditions by comparing characters, times and widths
(`OrdinalStrings.CompareIsOrdinal`, `RingDelivery.ServeDelivers`, `HistoryPages.AsAsked`, `SteimWords.ChoiceIs`); and for
checksums, dates, identifiers and whole blocks there are worked values (`Crc32c.CheckValue`, `Gmtime.KnownTimes`,
`SourceIds.JoinedLiteral`, `Steim.EncodedLiteral`).

A socket is given with its schedule: the pieces, some of them empty, that arrive before each look at it. The other sources of
arbitrary choice are nondeterministic statements: how many bytes a file yields, when its end is noticed, in which order the
index map is walked. Clocks are parameters.

What the code does where its own text says otherwise:

- A first read of the earliest packet finds nothing once all slots are in use, because the end marker is then the earliest
  offset, nor when each match comes after a packet newer than the latest one; else it finds the first match
  (`RingReading.EarliestFinds`; examples are `RingReading.EarliestMissedWhenFull` and
  `RingReading.EarliestMissedAfterClockStep`). A lookup by id finds nothing on a full ring (`RingReading.FindOffsetForID`).
- `RecvDLCommand` is documented to return the bytes consumed; it returns the bytes received in the call. The two agree exactly
  when what is there to receive, up to the look that completes the command, is as long as the command
  (`DataLinkFraming.ClientInfo.RecvDLCommand`, `DataLinkFraming.Receivable`), and differ for a command that arrives together
  with the first byte of the next one (`DataLinkFraming.ReturnsReceived`).
- `ReadNext` takes a packet newer than the latest one for an overwritten slot and goes back to the earliest packet. When the
  clock has stepped back it may never return (exactly when: `RingReading.EndsExactly`; an example:
  `RingReading.HangsAfterClockStep`), deliver an earlier packet again (`RingReading.GoesBackExactly`,
  `RingReading.DeliveredAgain`), or deliver nothing where a match is left. It gives the next match exactly when
  `RingReading.GivesNextExactly` says.
- Archive paging asks for no further page once the last row sent starts at the query's end, so rows that start there may be
  missing (`HistoryPages.RowMissed` is an example); all rows are sent exactly when no page ends that way
  (`HistoryPages.AllSent`).
- The check that a ring has room for two packets is made in 32 bits. It lets a smaller ring pass exactly when the sum wraps and
  the ring is as large as what is left of it (`RingStorage.SizeCheckExact`; an example: `RingStorage.NoSlotAccepted`).
- A stream id that its header field cannot hold, such as one with a NUL (`RingTypes.NulCutsSid`), is indexed under the one name
  and stored under another: evicting its packet leaves the index entry standing exactly then (`RingIndex.StaleExactly`).
  Renaming a legacy id keeps it within its field (`RingTypes.RenamedFits`).
- The value that reports a time error is also the honest time of 1902-01-01 (`NsTime.ErrorIsAmbiguous`).
- "Determine optimal packing" (`packdata.c:321` and `packdata.c:523`) is said of the choice for one word. For whole blocks it
  holds of Steim-2; of Steim-1 it holds, for every number of words, exactly without traps (`SteimOne.OptimalExactly`), and
  `SteimBlocks.SteimOneBeaten` is a run of samples for which another frame holds more.

## Model

| member | source | states |
|---|---|---|
| RingDelivery.ExactlyOnce | RS_CSharp/Ring/RingBuffer.cs:662-836 | over any interleaving of writes and reads, what a reader has been given is exactly the filter-matching packets written after the one it started on, up to the one it is on, each once and in write order |
| RingDelivery.NothingRemains | RS_CSharp/Ring/RingBuffer.cs:662-836 | a read finds nothing if and only if no matching packet remains after the reader's, and by then every matching packet written has been delivered |
| RingDelivery.Serve | RS_CSharp/Ring/RingBuffer.cs:418-836 | the ring and reader objects, put through any run of writes and reads with a clock that does not go back and a reader that is never overtaken, deliver what the run prescribes: the matching packets, whole, from after the reader's first place to its last |
| RingDelivery.ServeDelivers | RS_CSharp/Ring/RingBuffer.cs:418-836 | the same run, said of what was put and of the expressions: the history goes on with the packets put, each with its stream, times and bytes (zeros where bytes are missing); and what the reader gets is exactly the packets between its first place and its last that limit and match pass where they are set and reject does not, each once and in order |
| RingDelivery.WriteThenRead | RS_CSharp/Ring/RingBuffer.cs:418-836 | a packet written and then read by a reader that had read everything before it, or asks for the earliest in an empty ring, and whose expressions let it through: out come the stream id, times, size and exactly the bytes that went in, and the given id |
| RingDelivery.RunCarries | RS_CSharp/Ring/RingBuffer.cs:418-596 | after any run the history is the old one and then the packets put, each as it was put |
| RingDelivery.MatchesMeet | RS_CSharp/Ring/RingBuffer.cs:759-780 | the matching packets are, place by place, those that limit and match pass where they are set and reject does not |
| RingDelivery.Accept | RS_CSharp/Ring/RingBuffer.cs:418-596 | a write in the middle of a run leaves the reader where it is and appends to the history |
| RingDelivery.Fetch | RS_CSharp/Ring/RingBuffer.cs:662-836 | a read in the middle of a run gives the next matching packet, header and payload, or nothing |
| RingReading.ReadNext | RS_CSharp/Ring/RingBuffer.cs:662-836 | every outcome of a read that returns, by the reader's position: empty ring, wait for the next packet, latest, earliest, unsupported id, or after the packet it is on; result id, reader fields, packet fields and data in each case, also when packets newer than the latest one send it back; a packet that is given satisfies limit and match where they are set and does not satisfy reject where it is set |
| RingReading.EndsExactly | RS_CSharp/Ring/RingBuffer.cs:728-835 | the scan ends after some number of turns, unless, and only unless, slots are free, from the start on a packet newer than the latest comes before any match, the earliest packet is not newer itself, and from it on, too, a newer packet comes before any match |
| RingReading.NeverEnds | RS_CSharp/Ring/RingBuffer.cs:728-757 | in that case the loop is still running after any number of turns |
| RingReading.HangsAfterClockStep | RS_CSharp/Ring/RingBuffer.cs:662-757 | three packets, the middle one stamped a second later than the others, keep a reader of another stream in the loop for good |
| RingReading.TrackTurn | RS_CSharp/Ring/RingBuffer.cs:731-785 | every turn of the loop that is not the last gets further, before or after being sent back, and the last one gives what the read finds |
| RingReading.Scan | RS_CSharp/Ring/RingBuffer.cs:725-835 | the scan from a packet on stops at the first packet that passes the three expressions, starting over from the earliest one if a packet newer than the latest comes first; or it finds none, at the end marker or after a hundred attempts, with the reader on the last packet examined; its turns are those of the loop |
| RingReading.Visit | RS_CSharp/Ring/RingBuffer.cs:759-780 | the reader is put on the examined packet, and the expressions decide whether it is skipped |
| RingReading.Skips | RS_CSharp/Ring/RingBuffer.cs:765-780 | limit, match and reject are tried in this order and together mean one filter, which RingReading.FindsMeets spells out |
| RingReading.FindsMeets | RS_CSharp/Ring/RingBuffer.cs:728-835 | what a read finds, by the expressions: a packet that limit and match pass where they are set and reject does not, and on the way to it none that does; or, when no packet is newer than the latest, none up to the end |
| RingReading.CopyOut | RS_CSharp/Ring/RingBuffer.cs:787-810 | the caller gets all header fields and exactly the packet's data bytes, the rest of its buffer untouched |
| RingReading.StartAtLatest | RS_CSharp/Ring/RingBuffer.cs:697-705 | a reader that waits for the next packet is put on the latest one |
| RingReading.ResumesAfter | RS_CSharp/Ring/RingBuffer.cs:720-725 | the search after a packet's offset starts with the very next packet if and only if that packet has not been overwritten, and otherwise after the packet now in the slot; what the read then finds is GivesNextExactly's |
| RingReading.OccupantIs | RS_CSharp/Ring/RingBuffer.cs:1135-1139 | a packet is the last one written to its slot if and only if it is still live |
| RingReading.EarliestFinds | RS_CSharp/Ring/RingBuffer.cs:710-757 | a first read of the earliest packet returns with one if and only if not all slots are in use and some match has no packet newer than the latest one up to it, and then with the first match |
| RingReading.EarliestMissedWhenFull | RS_CSharp/Ring/RingBuffer.cs:710-731 | two matching packets that fill their ring are not found by a first read of the earliest |
| RingReading.EarliestMissedAfterClockStep | RS_CSharp/Ring/RingBuffer.cs:710-757 | two matching packets with slots free are not found when the clock stepped back between them |
| RingReading.LatestFinds | RS_CSharp/Ring/RingBuffer.cs:697-757 | a read of the latest packet gives that packet if the filter passes it, and else nothing |
| RingReading.GivesNextExactly | RS_CSharp/Ring/RingBuffer.cs:728-835 | a read gives the next match, or nothing when none is left, if and only if no packet newer than the latest comes first, or no match is left and slots are all in use or the earliest packet is a newer one |
| RingReading.GoesBackExactly | RS_CSharp/Ring/RingBuffer.cs:739-757 | a read delivers anything else if and only if it is sent back and a match comes before any newer packet from the earliest on; what it delivers lies before its start |
| RingReading.DeliveredAgain | RS_CSharp/Ring/RingBuffer.cs:662-836 | a reader that is given the same packet at each read and never the later one |
| RingReading.FindOffsetForID | RS_CSharp/Ring/RingBuffer.cs:1085-1116 | lookup by id finds the first packet with that id if and only if there is one and not all slots are in use |
| RingBuffer.RingBuffer.Write | RS_CSharp/Ring/RingBuffer.cs:418-596 | a packet that does not fit a slot is refused and nothing changes; any other joins the history with the stream id and data times given, the time of the write, exactly the bytes given and zeros where they fall short of the size, and the id given or else the one after the latest packet's; the whole buffer becomes what the history prescribes, and all views of the ring stay in agreement |
| RingBuffer.WrittenIs | RS_CSharp/Ring/RingBuffer.cs:449-545 | the written packet has the stream, times and size it was given, and byte for byte the data, then zeros |
| RingBuffer.WrittenId | RS_CSharp/Ring/RingBuffer.cs:449-468 | its id is the given one; or 1 in an empty ring; or one more than the latest packet's, which is 1 above the largest packet id, and 0 after the largest 64-bit number |
| RingBuffer.RingBuffer.Stamp | RS_CSharp/Ring/RingBuffer.cs:449-471 | the new packet's offset is the next slot, its id the given one or the one after the latest |
| RingBuffer.RingBuffer.MakeRoom | RS_CSharp/Ring/RingBuffer.cs:473-513 | the earliest packet goes exactly when the new one needs its slot |
| RingBuffer.RingBuffer.Evict | RS_CSharp/Ring/RingBuffer.cs:476-512 | dropping the head leaves every view that of the remaining packets |
| RingBuffer.RingBuffer.EvictFromStream | RS_CSharp/Ring/RingBuffer.cs:491-511 | the stream index becomes the index of the remaining packets, and the count its size, whether the stream goes on or is gone |
| RingBuffer.RingBuffer.FindOrCreate | RS_CSharp/Ring/RingBuffer.cs:515-532 | an existing entry is left as it is, a new one is added and counted |
| RingBuffer.RingBuffer.Append | RS_CSharp/Ring/RingBuffer.cs:515-588 | storing, linking and indexing a packet keeps all views in agreement, also when its stream has just been evicted |
| RingBuffer.RingBuffer.StoreSlot | RS_CSharp/Ring/RingBuffer.cs:535-545 | one slot is overwritten by header, data and zeros, and nothing outside it |
| RingBuffer.RingBuffer.LinkPrevious | RS_CSharp/Ring/RingBuffer.cs:564-581 | only the 112 header bytes of the stream's previous packet are written again, with the new link |
| RingBuffer.RingBuffer.StoreLinked | RS_CSharp/Ring/RingBuffer.cs:535-581 | the buffer after a write is the old one with the new slot and the previous packet's link |
| RingBuffer.RingBuffer.ReadPacketAtOffset | RS_CSharp/Ring/RingBuffer.cs:1066-1083 | null exactly outside the buffer, else the header at that place |
| RingBuffer.RingBuffer.ReadLive | RS_CSharp/Ring/RingBuffer.cs:1066-1083 | reading a live packet's offset gives the header that packet must have |
| RingBuffer.RingBuffer.ReadEnds | RS_CSharp/Ring/RingBuffer.cs:439-447 | the packets at the two ends of the queue, none if it is empty |
| RingHistory.NextSlot | RS_CSharp/Ring/RingBuffer.cs:1135-1139 | the next offset is the next packet's slot, also at the wrap |
| RingHistory.SlotsDiffer | RS_CSharp/Ring/RingBuffer.cs:84-92 | packets less than a whole ring apart lie in disjoint slots, those a whole ring apart in the same one |
| RingHistory.AppendHolds | RS_CSharp/Ring/RingBuffer.cs:535-581 | after a write every live slot, old and new, holds the header and payload it should, so no other packet's payload is touched |
| RingHistory.HeadersAfter | RS_CSharp/Ring/RingBuffer.cs:564-570 | a write changes the header of its stream's last packet and no other |
| RingHistory.SlotRead | RS_CSharp/Ring/RingBuffer.cs:1066-1083 | a live slot decodes to its packet's header and payload |
| RingHistory.PacketInMemory | RS_CSharp/Ring/RingBuffer.cs:535-545 | where a live packet lies: slot n modulo the number of slots has its 112 header bytes, each field at its offset, then its data and zeros |
| RingHistory.HeaderFields | RS_CSharp/Ring/RingBuffer.cs:449-471 | what that header says: its own offset, the packet's fields, and where the next packet of its stream lies, or -1 if and only if there is none |
| RingIndex.IndexAppend | RS_CSharp/Ring/RingBuffer.cs:515-588 | the index of a longer history is the old index with the packet's stream updated or added |
| RingIndex.IndexEvict | RS_CSharp/Ring/RingBuffer.cs:492-511 | the index without the head is the old index with the head's stream moved on or removed |
| RingIndex.OnlyPacket | RS_CSharp/Ring/RingBuffer.cs:496-500 | the ring's comparison of offsets holds if and only if the evicted packet is its stream's only one |
| RingIndex.StaleExactly | RS_CSharp/Ring/RingBuffer.cs:480-511 | after evicting a stream's first packet by what its slot says, the index entry under its id still names its place if and only if the id is not one that the slot can hold |
| RingIndex.ChainIsStream | RS_CSharp/Ring/RingBuffer.cs:492-582 | following the next-in-stream links visits exactly the stream's packets in write order, and the last one's link is -1 |
| RingIndex.StreamFromExact | RS_CSharp/Ring/RingBuffer.cs:492-582 | the list those links are compared with has each packet of the stream once, in ascending order, and nothing else |
| RingViews.IndexIsStreamView | RS_CSharp/Ring/RingBuffer.cs:473-588 | in every reachable state: a stream is in the index if and only if it has a live packet, its entry tells its first and last live packet, its links visit exactly its live packets up to a link of -1, and StreamCount is the number of streams |
| RingViews.QueueInSlots | RS_CSharp/Ring/RingBuffer.cs:418-596 | live packets lie in consecutive slots around the buffer from EarliestOffset to LatestOffset, each slot telling its own offset and its packet's fields and payload; a ring that has overwritten nothing starts at offset 0 |
| RingViews.WriteIsBoundedPut | RS_CSharp/Ring/RingBuffer.cs:473-512 | a write is a put into a bounded queue: the head goes if and only if all slots are in use |
| RingViews.IdsCount | RS_CSharp/Ring/RingBuffer.cs:449-468 | ids assigned by the ring are consecutive from 1 and start over at 1 above the largest packet id |
| RingViews.OffsetsFollow | RS_CSharp/Ring/RingBuffer.cs:1135-1139 | k steps of NextOffset lead k packets on |
| RingTypes.SidSurvives | RS_CSharp/Ring/RingTypes.cs:115-119 | a stream id comes back from the fixed-length header field if and only if it is ASCII without NUL and at most 60 long |
| RingTypes.NulCutsSid | RS_CSharp/Ring/RingTypes.cs:138-141 | an id with a NUL in it comes back cut off |
| RingTypes.RenamedFits | RS_CSharp/Protocols/DataLinkProtocol.cs:505-510 | a legacy id is renamed to one of at most 28 characters that its field holds |
| RingTypes.RenamedIs | RS_CSharp/Protocols/DataLinkProtocol.cs:505-510 | renaming puts FDSN: before the id and spells out the channel |
| RingTypes.HeaderRoundTrip | RS_CSharp/Ring/RingTypes.cs:107-148 | decoding a written header gives every field back, and the whole header if and only if its stream id survives |
| RingTypes.HeaderPlaces | RS_CSharp/Ring/RingTypes.cs:107-125 | little-endian numbers at bytes 0, 8, 16, 24, 92, 100 and 108, and the characters of the stream id with zeros after them from 32 to 91 |
| LittleEndian.ByteOrder | RS_CSharp/Ring/RingTypes.cs:107-125 | for example: which byte of a number comes first, and the bytes of a negative one |
| RingTypes.RingPacket.Serialize | RS_CSharp/Ring/RingTypes.cs:107-125 | exactly the 112 header bytes of the span change, to the header's layout |
| RingTypes.RingPacket.Deserialize | RS_CSharp/Ring/RingTypes.cs:130-148 | a new packet with the fields the bytes stand for |
| RingStorage.Restart | RS_CSharp/Ring/RingBuffer.cs:143-412 | stopping a persistent ring and starting it with the same sizes restores the live packets in their slots, the earliest and latest fields, the stream index and its count |
| RingStorage.Shutdown | RS_CSharp/Ring/RingBuffer.cs:285-357 | the two files hold the ring's header and slots, and one record per stream, in whatever order |
| RingStorage.Initialize | RS_CSharp/Ring/RingBuffer.cs:49-238 | -2 if and only if the ring is smaller than the minimum size in 32-bit arithmetic; otherwise the outcome the file's bytes call for: an empty ring if the version or any one size in its header differs, else flags and both ends from their places in it, or -1 if an offset lies beyond the ring; and a ring without a usable slot when the sum has wrapped |
| RingStorage.SizeCheckExact | RS_CSharp/Ring/RingBuffer.cs:83-92 | the layout has two slots in the buffer if and only if header and two packets fit; the check passes without that if and only if the sum wraps and the ring is as large as the rest |
| RingStorage.NoSlotAccepted | RS_CSharp/Ring/RingBuffer.cs:83-92 | a page, packet and ring size for which the check passes and the ring has no slot |
| RingStorage.GeometryLiteral | RS_CSharp/Ring/RingBuffer.cs:83-92 | for example: 2040 slots of 512 bytes in 1 MiB with pages of 4096 bytes, and a minimum size of 5120 |
| RingStorage.Open | RS_CSharp/Ring/RingBuffer.cs:143-234 | -1 if and only if recovered offsets lie beyond the buffer, an empty ring if the header is not recognized, else what header and stream file say, whoever wrote them, and so the ring the files hold when they hold one |
| RingStorage.Recover | RS_CSharp/Ring/RingBuffer.cs:144-212 | earliest and latest fields and flags from any recognized header, index and count from any stream file's records; from the files of a ring, that ring |
| RingStorage.Reset | RS_CSharp/Ring/RingBuffer.cs:240-271 | an unrecognized header leads to an empty ring in agreement, with the signature in the buffer |
| RingStorage.WriteHeaderToBuffer | RS_CSharp/Ring/RingBuffer.cs:362-412 | the header states the ring's parameters and both ends, and no slot changes |
| RingStorage.FileRead | RS_CSharp/Ring/RingBuffer.cs:146-177 | what WriteHeaderToBuffer wrote is recognized and read back |
| RingStorage.RecognizedExactly | RS_CSharp/Ring/RingBuffer.cs:166-176 | a header is taken for this ring's if and only if its first 38 bytes are RING, version 2, and the ring's size, packet size, packet count, largest offset and header size |
| RingStorage.FileBytes | RS_CSharp/Ring/RingBuffer.cs:362-412 | what a shut down ring leaves in its file, by byte positions: those sizes, the two flags, and the marks of its earliest and latest packet at 144 and 184 |
| RingStorage.FindHeaderSize | RS_CSharp/Ring/RingBuffer.cs:70-81 | the header size is the least multiple of the page size that holds 320 bytes, and a packet header with 128 bytes fits, too |
| RingStorage.GeometryFits | RS_CSharp/Ring/RingBuffer.cs:83-92 | when header and two packets fit, the slots fit the buffer and there are at least two |
| RingFiles.ParamsRoundTrip | RS_CSharp/Ring/RingBuffer.cs:146-155 | sizes and flags survive the header bytes |
| RingFiles.MarkRoundTrip | RS_CSharp/Ring/RingBuffer.cs:156-165 | the earliest and latest fields survive the header and the stream record |
| RingFiles.RecordRoundTrip | RS_CSharp/Ring/RingBuffer.cs:1141-1184 | a stream entry survives its 140-byte record |
| RingFiles.RecordPlaces | RS_CSharp/Ring/RingBuffer.cs:1141-1184 | a record by byte positions: the stream id, and for the first and the last packet data start, data end, time, id and offset |
| RingFiles.MarkPlaces | RS_CSharp/Ring/RingBuffer.cs:392-412 | the five fields of a mark by byte positions, in the header and in a record |
| RingFiles.LoadStreams | RS_CSharp/Ring/RingBuffer.cs:202-212 | any file is read as its whole 140-byte records, one after the other into the index, and all are counted |
| RingFiles.RecordsDecode | RS_CSharp/Ring/RingBuffer.cs:1141-1184 | a file of records of entries, in any order, is read as exactly those entries |
| RingFiles.SaveStreams | RS_CSharp/Ring/RingBuffer.cs:306-319 | the file has one record for each entry of the index |
| StreamTree.Replay | RS_CSharp/Ring/RingBuffer.cs:473-588 | for any history: a red-black tree that goes through the index steps of all its writes, inserting, updating and deleting entries, ends up with the index of a ring with that history |
| StreamTree.Write | RS_CSharp/Ring/RingBuffer.cs:473-588 | the index steps of one write, eviction included, take a tree that holds the ring's index to one that holds the index of the ring after the write |
| StreamTree.Evict | RS_CSharp/Ring/RingBuffer.cs:482-511 | on the tree: the evicted packet's stream goes on to the packet it links to, or is deleted |
| StreamTree.Append | RS_CSharp/Ring/RingBuffer.cs:515-588 | on the tree: the new packet's stream is found or inserted, and the packet made its latest |
| StreamTree.SetStream | RS_CSharp/Ring/RingBuffer.cs:504-508 | updating an entry in its node updates the map at its id, and the tree stays valid |
| StreamTree.GetStreamIdx | RS_CSharp/Ring/RingBuffer.cs:1118-1122 | lookup in a tree that holds a map is lookup in the map |
| StreamTree.AddStreamIdx | RS_CSharp/Ring/RingBuffer.cs:530 | inserting an absent stream into the tree is adding it to the map |
| StreamTree.DelStreamIdx | RS_CSharp/Ring/RingBuffer.cs:1124-1133 | deleting by id removes exactly that entry from the map, and tells whether it was there |
| StreamTree.StackOfStreams | RS_CSharp/Ring/RingBuffer.cs:309-314 | the stack that Shutdown pops is the entries of the map, each exactly once and nothing else, in ascending order: of two ids the earlier one is a proper prefix of the other, or has the smaller character where they first differ |
| StreamTree.Reload | RS_CSharp/Ring/RingBuffer.cs:202-319 | saving a tree to the stream file and inserting the file's records into a new tree gives one, of whatever shape, that holds the same index, and its count |
| StreamTree.SaveTree | RS_CSharp/Ring/RingBuffer.cs:306-319 | the file written from the tree has one record for each entry of its map, popped from the stack and so in descending ordinal order of the ids |
| StreamTree.LoadTree | RS_CSharp/Ring/RingBuffer.cs:202-212 | from any file, the tree that inserting its records builds is valid and has exactly one node for each record |
| StreamTree.LoadedHolds | RS_CSharp/Ring/RingBuffer.cs:202-212 | that tree holds the map of the records if and only if no id occurs twice |
| RedBlackTree.RBTree.Insert | RS_CSharp/Types/RBTree.cs:84-88 | the new node joins the in-order sequence at one place and everything else stays; the tree stays a red-black tree |
| RedBlackTree.RBTree.InsertNode | RS_CSharp/Types/RBTree.cs:93-128 | search order, colours, black height, root, sentinel and parent links are all kept |
| RedBlackTree.RBTree.InsertFixup | RS_CSharp/Types/RBTree.cs:133-195 | the loop ends and leaves a balanced tree with the same in-order sequence |
| RedBlackTree.RBTree.LeftRotate | RS_CSharp/Types/RBTree.cs:200-218 | the pointers spell the rotated tree, in the same surroundings |
| RedBlackTree.RBTree.RightRotate | RS_CSharp/Types/RBTree.cs:223-241 | the pointers spell the rotated tree, in the same surroundings |
| RedBlackTree.RBTree.RelinkLeft | RS_CSharp/Types/RBTree.cs:200-218 | exactly which links change in a left rotation |
| RedBlackTree.RBTree.RelinkRight | RS_CSharp/Types/RBTree.cs:223-241 | exactly which links change in a right rotation |
| RedBlackTree.RBTree.Find | RS_CSharp/Types/RBTree.cs:246-257 | a node with the key, or null if and only if no node has it |
| RedBlackTree.RBTree.Minimum | RS_CSharp/Types/RBTree.cs:262-270 | the leftmost node of the subtree, and null for the sentinel or null |
| RedBlackTree.RBTree.Successor | RS_CSharp/Types/RBTree.cs:288-301 | the next node in the in-order sequence, the sentinel after the last, and null for the sentinel or null |
| RedBlackTree.RBTree.Delete | RS_CSharp/Types/RBTree.cs:324-365 | exactly the node leaves the in-order sequence; the tree stays a red-black tree |
| RedBlackTree.RBTree.Transplant | RS_CSharp/Types/RBTree.cs:370-379 | exactly which links change |
| RedBlackTree.RBTree.DeleteFixup | RS_CSharp/Types/RBTree.cs:384-452 | the loop ends and leaves a balanced tree with the same in-order sequence |
| RedBlackTree.RBTree.TraverseNode | RS_CSharp/Types/RBTree.cs:462-469 | the nodes are visited in in-order sequence |
| RedBlackTree.RBTree.BuildStack | RS_CSharp/Types/RBTree.cs:474-477 | the data of all nodes, each node once, in ascending order: a key that comes earlier is equal, a proper prefix, or has the smaller character where they first differ |
| RedBlackTree.RBTree.ValidMeans | RS_CSharp/Types/RBTree.cs:93-195 | what stays true, node by node: parent and child links agree, red nodes have black children, root and sentinel are black; and the height is at most 2 log2(n + 1) |
| TreeBalance.HeightLogarithmic | RS_CSharp/Types/RBTree.cs:93-195 | a balanced tree of n nodes has height at most 2 log2(n + 1) |
| TreeBalance.PushedUpKeeps | RS_CSharp/Types/RBTree.cs:140-146 | recolouring below a red uncle moves the only possible red-red pair two levels up |
| TreeBalance.TurnedKeeps | RS_CSharp/Types/RBTree.cs:149-153 | turning an inner red node outwards keeps the loop's invariant |
| TreeBalance.RaisedKeeps | RS_CSharp/Types/RBTree.cs:154-162 | raising the parent removes the red-red pair and keeps black heights and order |
| TreeBalance.RedFocusDone | RS_CSharp/Types/RBTree.cs:194 | blackening the root ends in a balanced tree |
| TreeBalance.LoweredKeeps | RS_CSharp/Types/RBTree.cs:391-397 | a red sibling is rotated away with the missing black node where it was |
| TreeBalance.ReddenedKeeps | RS_CSharp/Types/RBTree.cs:398-402 | reddening the sibling moves the missing black node one level up |
| TreeBalance.NephewRaisedKeeps | RS_CSharp/Types/RBTree.cs:405-411 | the near nephew becomes the sibling with a red far child |
| TreeBalance.MadeUpKeeps | RS_CSharp/Types/RBTree.cs:412-416 | the last rotation makes up the missing black node |
| TreeBalance.ShortFocusDone | RS_CSharp/Types/RBTree.cs:451 | painting the focus black ends in a balanced tree |
| TreeBalance.SpliceBalance | RS_CSharp/Types/RBTree.cs:330-339 | taking out a node with one child leaves at most one missing black node |
| TreeBalance.SwapOutBalance | RS_CSharp/Types/RBTree.cs:340-361 | moving the successor up leaves at most one missing black node, where the successor was |
| TreeShape.RotateLeftSpells | RS_CSharp/Types/RBTree.cs:200-218 | a left rotation of the links is a left rotation of the tree they spell |
| TreeShape.RotateRightSpells | RS_CSharp/Types/RBTree.cs:223-241 | a right rotation of the links is a right rotation of the tree they spell |
| TreeShape.AttachSpells | RS_CSharp/Types/RBTree.cs:108-124 | hanging a leaf into the links hangs it into the tree |
| TreeShape.SpliceSpells | RS_CSharp/Types/RBTree.cs:330-339 | transplanting a child hangs it in its parent's place in the tree |
| TreeShape.SwapOutSpells | RS_CSharp/Types/RBTree.cs:340-361 | the two transplants put the successor in the node's place in the tree |
| OrdinalStrings.CompareEqual | RS_CSharp/Types/RBTree.cs:72-79 | ordinal comparison is 0 if and only if the keys are equal |
| OrdinalStrings.CompareAntisymmetric | RS_CSharp/Types/RBTree.cs:72-79 | comparing the other way round negates the result |
| OrdinalStrings.CompareTransitive | RS_CSharp/Types/RBTree.cs:72-79 | ordinal comparison orders keys |
| OrdinalStrings.CompareIsOrdinal | RS_CSharp/Types/RBTree.cs:72-79 | negative if and only if the first key is a proper prefix of the second, or there is a place up to which they agree and where it has the smaller character; positive if and only if the other way round |
| OrdinalStrings.OrdinalExamples | RS_CSharp/Types/RBTree.cs:72-79 | for example: AB before ABC, ABZ before ABa, A9 before AA, and B after AB |
| Steim.Encode | ringserver-4/libmseed/packdata.c:223-717 | -1 if and only if the greedy encoder comes to a difference it cannot store with words left; else n is what the greedy words of all frames hold, every code and data word of every frame is the number written out for them and zero beyond, the frames decode (SEED Reference Manual v2.4, Appendix B) to exactly the first n samples in either byte order, the first and last sample stand in their words, and nothing beyond the frames changes; Steim-1 and Steim-2 alike |
| Steim.EncodedLiteral | ringserver-4/libmseed/packdata.c:435-717 | one block byte for byte: samples 0 and 20000 in big-endian Steim-2 take one frame, 02 80 00 00, 00 00 00 00, 00 00 4E 20, 40 00 00 00, 40 00 4E 20 and eleven words of zeros |
| Steim.SpelledDone | ringserver-4/libmseed/packdata.c:503-703 | a finished frame: the codes of all sixteen words and every data word are those of the greedy choices, and zero when no differences are left |
| Steim.CodeIs | ringserver-4/libmseed/packdata.c:345-388 | the code of word w is the base-4 digit at its place in the frame's first word |
| Steim.EncodeFrames | ringserver-4/libmseed/packdata.c:269-408 | frame by frame: the frames so far decode to the differences so far |
| Steim.EncodeFrame | ringserver-4/libmseed/packdata.c:470-703 | one frame, word by word, holds as many differences as the greedy words do, its words and codes are the numbers written out, and it decodes to them |
| Steim.EncodeWord | ringserver-4/libmseed/packdata.c:503-698 | one word holds the greedy choice, as the number written out for it, and outputsamples plus waiting differences stays one ahead of inputidx |
| Steim.FillWindow | ringserver-4/libmseed/packdata.c:505-521 | shifting and refilling leaves the window with the next differences and their widths |
| Steim.PackWord | ringserver-4/libmseed/packdata.c:523-694 | the word is the number written out for the differences taken and decodes to them, and they are as many as the greedy choice says |
| SteimWords.PackSteim2 | ringserver-4/libmseed/packdata.c:532-694 | the seven layouts tried in order make the greedy choice; the word is, by arithmetic, its decode bits and each difference in its field of 4, 5, 6, 8, 10, 15 or 30 bits, with the frame code that goes with it, and decodes to the differences, in either byte order |
| SteimWords.PackSteim1 | ringserver-4/libmseed/packdata.c:327-388 | the three layouts tried in order make the greedy choice, which is never 0; the word is four bytes, two 16-bit halves in the data's byte order, or one 32-bit number, with its frame code, and decodes to the differences |
| SteimWords.PackedSpells | ringserver-4/libmseed/packdata.c:534-684 | fields and decode bits are the number written out: high bits 2, 1, 0 before seven, six, five fields, and 3, 2, 1 before three, two, one |
| SteimWords.ChoiceIs | ringserver-4/libmseed/packdata.c:327-690 | the greedy choice by the differences: seven from -8 to 7, or else six from -16 to 15, and so on down to one of 30 bits; for Steim-1 four of 8 bits, two of 16, one of 32 |
| SteimWords.StoreFields | ringserver-4/libmseed/packdata.c:534-558 | masked, shifted and or-ed fields are the number written out and decode to the differences |
| SteimWords.BitwidthFits | ringserver-4/libmseed/packdata.c:189-207 | the width is at most b if and only if the value fits b bits, for every width in use |
| Steim.BeginFrame | ringserver-4/libmseed/packdata.c:274-296 | a cleared frame with the first sample holds no differences yet |
| Steim.EndFrame | ringserver-4/libmseed/packdata.c:391-394 | with its codes swapped a frame decodes to what it holds |
| Steim.StoreSample | ringserver-4/libmseed/packdata.c:276-284 | a sample stored and swapped is the number modulo 2^32 in the data's byte order and reads back |
| Steim.SteimTwoOptimal | ringserver-4/libmseed/packdata.c:523-690 | no other Steim-2 frames of the same differences use fewer frames, or get more samples into the frames at hand |
| SteimBlocks.SteimTwoShortest | ringserver-4/libmseed/packdata.c:523-690 | when the first difference fits 4 bits, no Steim-2 block that decodes to the same samples uses fewer frames, or gets more of them into the frames at hand |
| SteimBlocks.SteimOneShortest | ringserver-4/libmseed/packdata.c:321-388 | the same for Steim-1 when the first difference fits 8 bits and no greedy word starts in a trap |
| SteimBlocks.SteimOneOptimal | ringserver-4/libmseed/packdata.c:321-388 | when no greedy word starts in a trap, no other Steim-1 frames of the same differences use fewer frames, or get more samples into the frames at hand |
| SteimBlocks.SteimOneBeaten | ringserver-4/libmseed/packdata.c:321-388 | sixteen samples of which every run of the Steim-1 encoder puts fifteen into one frame, though another frame decodes to all sixteen |
| SteimBlocks.Realize | ringserver-4/libmseed/packdata.c:321-394 | every packing of differences into the words of n Steim-1 frames is a block of n frames that decodes to them |
| SteimGreedy.GreedyOptimal | ringserver-4/libmseed/packdata.c:523-690 | whatever n Steim-2 frames decode to a prefix of the differences, it is no longer than what the greedy words hold |
| SteimGreedy.WordsWithinReach | ringserver-4/libmseed/packdata.c:523-690 | the same word by word, so no packing uses fewer words |
| SteimGreedy.RunTail | ringserver-4/libmseed/packdata.c:523-690 | any tail of differences that share a word could share a word of its own |
| SteimGreedy.AheadStep | ringserver-4/libmseed/packdata.c:523-690 | who is ahead before a word is ahead after it |
| SteimOne.OptimalExactly | ringserver-4/libmseed/packdata.c:321-388 | Steim-1's greedy packing reaches as far as any packing in every number of words if and only if no greedy word starts in a trap: a difference of 9 to 16 bits before a maximal run of 8-bit ones whose length is a positive multiple of 4 |
| SteimOne.OptimalWithoutTraps | ringserver-4/libmseed/packdata.c:321-388 | whatever n Steim-1 frames decode to a prefix of differences without a trap anywhere, it is no longer than what the greedy words hold |
| SteimOne.OptimalUntrapped | ringserver-4/libmseed/packdata.c:321-388 | the same when no greedy word of the first n frames starts in a trap |
| SteimBlocks.FramesExactly | ringserver-4/libmseed/packdata.c:321-394 | no n Steim-1 frames hold more of the differences than the greedy encoder's if and only if none of the totals that can be reached word by word is larger |
| SteimOne.TrapLoses | ringserver-4/libmseed/packdata.c:321-388 | from a greedy word that starts in a trap on, another packing is one difference ahead once the run ends |
| SteimOne.InPhaseStep | ringserver-4/libmseed/packdata.c:321-388 | away from traps, one word each keeps any packing behind the greedy one and not one short with three of a four to go |
| SteimOne.FramesPack | ringserver-4/libmseed/packdata.c:321-394 | the words of any frames, in either format, are a packing of what the frames decode to |
| Steim.SteimTwoStuck | ringserver-4/libmseed/packdata.c:686-690 | the Steim-2 encoder fails if and only if a difference of more than 30 bits stands where it is with words left |
| Steim.SteimOneProgress | ringserver-4/libmseed/packdata.c:321-388 | the Steim-1 encoder never fails and packs at least one sample per data word while any remain |
| Steim.FrameLimit | ringserver-4/libmseed/packdata.h:31-32 | no frame exceeds 60 samples (Steim-1) or 105 (Steim-2) |
| Steim.IntegrateDiffs | ringserver-4/libmseed/packdata.c:312-318 | running sums of the differences from the first sample are the samples, whatever diff0 is |
| Steim.DecodeFramesSame | ringserver-4/libmseed/packdata.c:396-402 | storing the last sample changes nothing that the frames decode to |
| Gmtime.Gmtime64 | ringserver-4/libmseed/gmtime64.c:72-186 | for every 64-bit time: day number, year, month, day, weekday, year day and clock are right, or the year does not fit an int and the call fails |
| Gmtime.KnownTimes | ringserver-4/libmseed/gmtime64.c:72-186 | for example: second 1234567890 is Friday, 2009-02-13 23:31:30, day 43 of its year from 0, and second -1 the end of Wednesday, 1969-12-31 |
| Gmtime.SplitTime | ringserver-4/libmseed/gmtime64.c:86-98 | days and time of day, also before the epoch |
| Gmtime.SplitForward | ringserver-4/libmseed/gmtime64.c:111-137 | cycles, years and months from a day on reach the date |
| Gmtime.SplitBackward | ringserver-4/libmseed/gmtime64.c:138-167 | the same backwards |
| Gmtime.SplitDate | ringserver-4/libmseed/gmtime64.c:105-167 | the date is right with and without the 2008 shortcut |
| Gmtime.CheatDays | ringserver-4/libmseed/gmtime64.c:61-63 | the shortcut constant is the day number of 2008-01-01 |
| Calendar.YearStartClosed | ringserver-4/libmseed/gmtime64.c:66-67 | day number of a year's start by leap-year counting in closed form |
| Calendar.KnownYears | ringserver-4/libmseed/gmtime64.c:66-67 | for example: the day numbers of the first of January 1900, 1970, 2000, 2001 and 2100, and which of four years are leap years |
| Calendar.MonthStartTable | ringserver-4/libmseed/gmtime64.c:46-49 | days of the year before each month, in common and in leap years, as numbers |
| Calendar.InYearUnique | ringserver-4/libmseed/gmtime64.c:72-186 | a day lies in one year only |
| NsTime.Time2NsTimeExact | ringserver-4/libmseed/genutils.c:1293-1381 | years 1678 to 2262, a day the year has, and a time of day up to second 60 give their exact time if it fits 64 bits; anything else gives -2145916800000000000 |
| NsTime.KnownNanoseconds | ringserver-4/libmseed/genutils.c:1293-1325 | for example: the epoch is 0, a time in 2009 is 1234567890123456789, and the nanosecond before the epoch is -1 |
| NsTime.NothingOverflows | ringserver-4/libmseed/genutils.c:1299-1322 | for valid fields every step of the day count fits an int, every step of the seconds an int64, and once the guard is passed so do the nanoseconds |
| NsTime.DaysRight | ringserver-4/libmseed/genutils.c:1302-1309 | the shift-and-divide leap-day formula is the day count, for every year |
| NsTime.ErrorIsAmbiguous | ringserver-4/libmseed/genutils.c:1293-1325 | the error value is also the time of one valid instant, 1902-01-01, under its two names |
| NsTime.NsTime2Time | ringserver-4/libmseed/genutils.c:976-1018 | the fields spell out exactly the given time, and its year is within 1677 to 2262 |
| NsTime.RoundTrip | ringserver-4/libmseed/genutils.c:976-1381 | time to fields to time is the identity from 1678-01-01 on and the error value before |
| NsTime.FieldsRoundTrip | ringserver-4/libmseed/genutils.c:976-1381 | fields to time to fields is the identity if and only if they are valid, their time fits 64 bits and the second is not 60; with second 60 the same time comes back |
| NsTime.DescribesUnique | ringserver-4/libmseed/genutils.c:976-1018 | no time has two such descriptions |
| NsTime.DayOfYear2MonthDay | ringserver-4/libmseed/genutils.c:858-897 | accepted if and only if year and day are valid, and then the month and day of that day |
| NsTime.MonthDay2DayOfYear | ringserver-4/libmseed/genutils.c:912-957 | accepted if and only if the date is valid, and then its day of the year |
| NsTime.YearDayRoundTrip | ringserver-4/libmseed/genutils.c:858-957 | day of year to date and back |
| NsTime.MonthDayRoundTrip | ringserver-4/libmseed/genutils.c:858-957 | date to day of year and back |
| Crc32c.Crc32C | ringserver-4/libmseed/crc32c.c:401-411 | for every input, length, alignment, start value and host order: the bit-by-bit CRC-32C of RFC 3720 section 12.1, and 0 for no input |
| Crc32c.CheckValue | ringserver-4/libmseed/crc32c.c:308-377 | the checksum of 123456789 from 0 is E3069283, the check value by which CRC-32C is known |
| Crc32c.BitEntries | ringserver-4/libmseed/crc32c.c:27-49 | the eight entries of the first table for single bits are the source's literals, 82F63B78, the polynomial, among them |
| Crc32c.TableLinear | ringserver-4/libmseed/crc32c.c:27-64 | the entry of an exclusive or is the exclusive or of the entries, so those eight fix all others |
| Crc32c.ChecksumByte | ringserver-4/libmseed/crc32c.c:308-314 | and the entries fix the checksum: no bytes leave the start value, and one more byte is one lookup |
| Crc32c.SliceByOne | ringserver-4/libmseed/crc32c.c:308-314 | one table lookup per byte is the shift register |
| Crc32c.Align | ringserver-4/libmseed/crc32c.c:318-342 | the alignment prologue consumes a prefix and leaves the register of it |
| Crc32c.SliceByFour | ringserver-4/libmseed/crc32c.c:345-358 | four lookups per word are the shift register |
| Crc32c.SliceByEight | ringserver-4/libmseed/crc32c.c:361-377 | eight lookups per two words are the shift register |
| Crc32c.ChecksumConcat | ringserver-4/libmseed/crc32c.c:380-388 | the checksum of a concatenation is the second part's started from the first's |
| Crc32c.TableIsShift | ringserver-4/libmseed/crc32c.c:361-377 | slice k of the tables shifts a byte through k + 1 bytes of zeros |
| Crc32c.AbsorbWord | ringserver-4/libmseed/crc32c.c:350-355 | exclusive-or of a word and four lookups absorb its four bytes in order |
| Utf8.Utf8Length | ringserver-4/libmseed/genutils.c:662-681 | the longest prefix within the limit and before any NUL that consists of complete well-formed sequences (RFC 3629 section 4) |
| Utf8.AutomatonIsText | ringserver-4/libmseed/genutils.c:617-642 | the table-driven automaton is between characters exactly after well-formed text |
| Utf8.EncodingsAreText | ringserver-4/libmseed/genutils.c:617-642 | characters up to U+10FFFF but surrogates, encoded (RFC 3629 section 3) one after the other, are text |
| Utf8.TextIsEncodings | ringserver-4/libmseed/genutils.c:617-642 | and every text is characters encoded one after the other |
| Utf8.CopyClean | ringserver-4/libmseed/genutils.c:701-734 | exactly that prefix without its spaces, and a NUL; what is left has no space and is still well-formed text, and all of the prefix if that has none |
| Utf8.SqueezedText | ringserver-4/libmseed/genutils.c:718-730 | removing spaces never splits a character |
| DataLinkFraming.ReceiveFrame | RS_CSharp/Net/ClientHandler.cs:497-604 | a sent frame, however its bytes arrive, is accepted by repeated calls if and only if its header has at least 2 bytes, gives exactly its header and payload, and leaves the bytes that follow |
| DataLinkFraming.AcceptFrame | RS_CSharp/Net/ClientHandler.cs:497-604 | repeated calls accept a command, for any schedule of pieces and looks that find nothing, at the very look that finds the last byte of its header there, with the pieces after it still to come; a header shorter than 2 bytes is refused with -1 at the look that finds the length byte |
| DataLinkFraming.ReturnsReceived | RS_CSharp/Net/ClientHandler.cs:488-600 | a 5-byte command that arrives with the first byte of the next one is consumed, and 6 returned |
| DataLinkFraming.ClientInfo.RecvDLCommand | RS_CSharp/Net/ClientHandler.cs:497-604 | only a complete command is consumed, at the first look that finds it there, and else buffered and coming bytes together are unchanged; 0 only when nothing arrived, the buffer is full, or all that has arrived is buffered and the command incomplete; -1 if and only if bytes arrived and those there cannot start a command; a positive result is the number of bytes received, which is the length of the command if and only if just as many were there to receive |
| DataLinkFraming.ClientInfo.RecvBody | RS_CSharp/Net/ClientHandler.cs:543-600 | from a good header on, the command is completed at the first look that finds it there, or not at all |
| DataLinkFraming.ReceivableAtOnce | RS_CSharp/Net/ClientHandler.cs:505-515 | when the next look completes the command, what is received is what it finds, as far as there is room |
| DataLinkFraming.ClientInfo.FillBody | RS_CSharp/Net/ClientHandler.cs:546-565 | receiving goes on until the body is there, nothing more is, the buffer is full or the other side has closed, and loses nothing |
| DataLinkFraming.ClientInfo.RecvData | RS_CSharp/Protocols/DataLinkProtocol.cs:590-635 | exactly the next bytes of the stream, from the buffer first; -1 only when the stream ends before that |
| DataLinkFraming.ClientInfo.ReceiveMore | RS_CSharp/Net/ClientHandler.cs:505-515 | receiving loses and consumes nothing |
| DataLinkFraming.ClientInfo.Consume | RS_CSharp/Net/ClientHandler.cs:577-588 | shifting the buffer drops exactly the consumed bytes |
| DataLinkFraming.ClientInfo.TakeBody | RS_CSharp/Net/ClientHandler.cs:573-588 | the command body and its terminator, and the bytes after it next |
| DataLinkFraming.SendPacket | RS_CSharp/Protocols/DataLinkProtocol.cs:643-662 | the bytes on the wire: 68, 76, the header's length, the header text and the payload; refused if and only if the header exceeds 255 bytes |
| DataLinkFraming.HeaderTextForms | RS_CSharp/Protocols/DataLinkProtocol.cs:646-649 | value and payload size follow the header text when asked for, in this order and each after a space |
| DataLinkFraming.DecimalReads | RS_CSharp/Protocols/DataLinkProtocol.cs:646-649 | a number is written in digits that stand for it, without a leading zero |
| DataLinkFraming.FrameLiteral | RS_CSharp/Protocols/DataLinkProtocol.cs:643-661 | for example: OK with value 12 and three bytes, byte for byte |
| HistoryPages.SLExtInfo.StreamHistory | RS_CSharp/Protocols/SeedLinkProtocol.cs:236-487 | for any first limit, page limit and burst size, what is sent is the ordered result of the one query up to the first page's end at which a row starts at the query's end; without an end time or patterns, the first batch. Every row sent is of the streams and the time range asked for, each once, by start time and then id; and with end time and patterns every row asked for that starts before the end is sent |
| HistoryPages.AllSent | RS_CSharp/Protocols/SeedLinkProtocol.cs:446-487 | all of the result is sent if and only if the first batch has no limit or each page's end short of the result's has a row that starts before the query's end |
| HistoryPages.RowMissed | RS_CSharp/Protocols/SeedLinkProtocol.cs:236-487 | two matching rows that both start at the query's end, fetched one at a time: a session sends the first only |
| HistoryPages.SLExtInfo.StreamPackets | RS_CSharp/Protocols/SeedLinkProtocol.cs:236-289 | a burst sends the next records in order and stays on course |
| HistoryPages.SLExtInfo.SendOne | RS_CSharp/Protocols/SeedLinkProtocol.cs:241-283 | a record leaves the queue, the cursor follows it, and an empty queue is refilled with what comes next |
| HistoryPages.SLExtInfo.HandleDbQueueExhausted | RS_CSharp/Protocols/SeedLinkProtocol.cs:446-487 | when the archive is asked for more, and with which cursor |
| HistoryPages.PageFollows | RS_CSharp/Mseed/MseedArchive.cs:843-928 | the page after the cursor is the next stretch of the ordered result |
| HistoryPages.WhereAfter | RS_CSharp/Mseed/MseedArchive.cs:864-871 | of ordered rows, those past a cursor are the rest |
| SourceIds.RoundTrip | ringserver-4/libmseed/genutils.c:242-350 | parsing what printing gives returns the codes if and only if the channel has three characters without separators, or two separators without being the five-character form |
| SourceIds.JoinedLiteral | ringserver-4/libmseed/genutils.c:397-514 | for example: XX, STA, 00 and BHZ print as FDSN:XX_STA_00_B_H_Z, and without location as FDSN:XX_STA__B_H_Z |
| SourceIds.ParseLiteral | ringserver-4/libmseed/genutils.c:242-350 | and the first of these is parsed as XX, STA, 00 and B_H_Z |
| SourceIds.ParseFields | ringserver-4/libmseed/genutils.c:242-350 | what follows FDSN: is taken apart at its separators, for any codes without separators and a channel with two |
| SourceIds.ThereAndBack | ringserver-4/libmseed/genutils.c:242-514 | through the C buffers, when they are large enough, every code comes back |
| SourceIds.Nslc2Sid | ringserver-4/libmseed/genutils.c:397-514 | -1 and the part that fits when the buffer is too small, else the identifier without spaces and its length |
| SourceIds.AppendText | ringserver-4/libmseed/genutils.c:426-433 | characters are copied while there is room and all are counted |
| SourceIds.RemoveSpaces | ringserver-4/libmseed/genutils.c:500-512 | spaces are taken out in place |
| SourceIds.SeedChan2XChan | ringserver-4/libmseed/genutils.c:536-568 | three-character channels, and only those, are extended |
| SourceIds.XChan2SeedChan | ringserver-4/libmseed/genutils.c:591-611 | five-character extended channels, and only those, are mapped back |
| SourceIds.Sid2Nslc | ringserver-4/libmseed/genutils.c:242-350 | accepted if and only if the namespace and five separators are there; each code goes to its buffer |
| SourceIds.CutFields | ringserver-4/libmseed/genutils.c:285-327 | the fields between the separators |
| RecordReader.MS3FileParam.ReadAll | ringserver-4/libmseed/fileutils.c:374-574 | for any prefix-stable parser the records and the final code depend on the stream alone, not on how reads are cut; and every record returned satisfies the selection |
| RecordReader.RecordsRead | ringserver-4/libmseed/fileutils.c:374-574 | on a stream that is records one after the other, each taken by the parser for one of its own length, that is: those that satisfy the selection, in order and unchanged, and then the end of the file, or that there was no data when none does |
| RecordReader.JunkSkipped | ringserver-4/libmseed/fileutils.c:477-527 | where skipping is on, places at which no record begins are passed over byte by byte, until a record begins |
| RecordReader.MS3FileParam.ReadRecord | ringserver-4/libmseed/fileutils.c:374-574 | one call: code, record, stream position and record count are those of the next selected record from the position on; the loop ends |
| RecordReader.MS3FileParam.Turn | ringserver-4/libmseed/fileutils.c:375-567 | each turn of the loop ends the call or gets further |
| RecordReader.MS3FileParam.Examine | ringserver-4/libmseed/fileutils.c:422-548 | a verdict on the buffered bytes is acted on as if it were on the whole stream |
| RecordReader.MS3FileParam.Fill | ringserver-4/libmseed/fileutils.c:384-420 | after reading, the unread buffer is the stream slice at streampos, and something arrived, the end was noticed, or the buffer is full |
| RecordReader.MS3FileParam.Shift | ringserver-4/libmseed/fileutils.c:187-217 | the buffer, offset and stream position after a shift, or nothing for a shift out of range |
| RecordReader.Mseed3Stable | ringserver-4/libmseed/parseutils.c:61-225 | detection and parsing of miniSEED 3 records are prefix-stable, so for them the reader does not depend on how reads are cut |
| RecordReader.Mseed3Means | ringserver-4/libmseed/parseutils.c:61-225 | when bytes are a miniSEED 3 record, byte by byte: 77, 83, 3 and a time of day, and a length of 40 and the stated lengths of identifier, extra headers and data |
| RecordReader.VerdictIsDecision | ringserver-4/libmseed/fileutils.c:423-429 | what the parser decides on any buffered prefix is what it decides on the stream |

## Left out

- RingBuffer.RingBuffer.Write: does not model the 32-bit wrap of the size check for data sizes within 112 bytes of 2^32, which no array reaches; asks for the packet's own DataSize to be the size passed, as every caller does; and asks for a stream id that is ASCII, NUL-free and at most 60 long. The length is checked at `DataLinkProtocol.cs:489`, a NUL inside an id is not; `RingIndex.StaleExactly` says what follows.
- RingReading.ReadNext: a read that would not return is excluded by its precondition, which is exactly that (`RingReading.EndsExactly`); a slot overwritten while it is being copied is not modelled, since one writer or reader acts at a time.
- RingDelivery.Serve: asks that the reader's packet be live at each read; `RingReading.ResumesAfter` says what happens otherwise. One writer or reader acts at a time, as under the ring's locks.
- RingBuffer.RingBuffer.FindOrCreate: stream entries are values, in the map as in the tree's nodes, so the sharing of one RingStream object between a node and a local variable is not captured.
- RingStorage.Initialize: volatile rings and file errors are not modelled.
- RingStorage.Recover: of two records with one id in a stream file the map of the model keeps the later; `StreamTree.LoadTree` has the tree, which keeps both, and `StreamTree.LoadedHolds` says that the two agree exactly when no id occurs twice.
- Steim.Encode: signed overflow of a 32-bit difference is undefined in C, so the differences are required to fit; null input is not told apart from no samples.
- SteimOne.OptimalUntrapped: for a given number of frames this condition is enough; the exact one, `SteimBlocks.FramesExactly`, is by the totals that can be reached word by word, not by traps.
- Crc32c.TableIsShift: the tables are defined by their recurrence; of the 2048 literals in the source the eight for single bits in the first table are compared with it (`Crc32c.BitEntries`), which fix the others of that table by linearity.
- Utf8.AutomatonIsText: the table is given by ranges rather than as 400 literals.
- RecordReader.MS3FileParam.ReadRecord: byte ranges with an end offset, read errors and data unpacking are not modelled.
- RecordReader.Mseed3Stable: has no counterpart for miniSEED 2, whose detection scans the buffered bytes for the next header when they hold no length; unpacking is any return code that depends on the record alone.
- HistoryPages.SLExtInfo.StreamHistory: every send succeeds, and rows of equal start time come in id order in the first batch too; the handover from the archive to the ring is not modelled.
- DataLinkFraming.ClientInfo.RecvDLCommand: socket errors other than would-block and shutdown are not modelled, nor is what the command handler reads past the terminator.
- DataLinkFraming.AcceptFrame: starts with an incomplete command in the buffer; one that is complete, left over with an earlier command, waits for more bytes to arrive.
- SourceIds.Nslc2Sid: text is in characters, not bytes, and the copy that strtok-like parsing makes is a sequence.
- Position, After and AfterRev on the ring, Predecessor and Maximum on the tree: not modelled.
- Sockets, TLS, threads, throttling, logging, configuration, HTTP, XML, regular expressions (a filter is any predicate on stream ids), PostgreSQL beyond filter, order and limit, floating-point sample rates, time strings, and the data unpacking side of libmseed: not modelled.
