/** The ring buffer: writing packets, in place, into a fixed byte array with a stream index. */
module RingBuffer {
  import Bits
  import opened LittleEndian
  import opened RingTypes
  import opened RingHistory
  import opened RingIndex

  /** The oldest packet still held when all slots may be in use. */
  function FirstLive(g: Geometry, h: seq<Packet>): (b: nat)
    ensures b <= |h| && (b > 0 ==> |h| == b + g.maxPackets)
  {
    if |h| <= g.maxPackets then 0 else |h| - g.maxPackets
  }

  /** The id after this one: counting in 64 bits, and starting over above the largest packet id. */
  function IdAfter(id: int): (next: int) {
    var next := (id + 1) % 0x1_0000_0000_0000_0000;
    if next > RINGID_MAXIMUM then 1 else next
  }

  /** The id a packet gets: the one it comes with, or the one after the latest packet's. */
  function AssignedId(h: seq<Packet>, given: int): int {
    if given != RINGID_NONE then given else if h == [] then 1 else IdAfter(h[|h| - 1].id)
  }

  /** What a written packet adds to the history. */
  function Written(h: seq<Packet>, f: Header, packetdata: seq<byte>, now: int): Packet
    requires f.dataSize >= 0
  {
    Packet(AssignedId(h, f.pktId), now, f.streamId, f.dataStart, f.dataEnd, Pad(packetdata, f.dataSize))
  }

  class RingBuffer {
    const g: Geometry
    const maxOffset: int
    const data: array<byte>
    var earliest: Mark
    var latest: Mark
    var streamIdx: map<string, Entry>
    var streamCount: int
    var corruptFlag: byte
    var fluxFlag: byte

    /** Every packet ever written. */
    ghost var history: seq<Packet>

    constructor (g: Geometry, maxOffset: int, data: array<byte>, earliest: Mark, latest: Mark,
                 streamIdx: map<string, Entry>, streamCount: int, corruptFlag: byte, fluxFlag: byte, ghost history: seq<Packet>)
      ensures this.g == g && this.maxOffset == maxOffset && this.data == data
      ensures this.earliest == earliest && this.latest == latest && this.streamIdx == streamIdx && this.streamCount == streamCount
      ensures this.corruptFlag == corruptFlag && this.fluxFlag == fluxFlag && this.history == history
    {
      this.g, this.maxOffset, this.data, this.earliest, this.latest := g, maxOffset, data, earliest, latest;
      this.streamIdx, this.streamCount, this.corruptFlag, this.fluxFlag := streamIdx, streamCount, corruptFlag, fluxFlag;
      this.history := history;
    }

    /** All views agree, packets from number b on being the live ones. */
    ghost predicate Holds(b: nat)
      reads `history, `streamIdx, `streamCount, `earliest, `latest, data
    {
      && Sound(g) && maxOffset == (g.maxPackets - 1) * g.pktSize
      && b <= |history| <= b + g.maxPackets && (history != [] ==> b < |history|)
      && SlotsHold(g, history, b, data[..])
      && streamIdx == IndexOf(g, history, b) && streamCount == |streamIdx|
      && earliest == (if history == [] then NO_MARK else MarkOf(g, history, b))
      && latest == (if history == [] then NO_MARK else MarkOf(g, history, |history| - 1))
    }

    ghost predicate Valid()
      reads `history, `streamIdx, `streamCount, `earliest, `latest, data
    {
      Holds(FirstLive(g, history))
    }

    lemma HoldsSound(b: nat)
      requires Holds(b)
      ensures Sound(g) && maxOffset == (g.maxPackets - 1) * g.pktSize && GoodHistory(g, history)
    {
    }

    lemma ValidSound()
      requires Valid()
      ensures Sound(g)
    {
    }

    method ReadPacketAtOffset(offset: int) returns (pkt: RingPacket?)
      ensures pkt == null <==> offset < 0 || g.dataOffset + offset + HEADER_SIZE > data.Length
      ensures pkt != null ==> fresh(pkt) && pkt.Fields() == DecodeHeader(data[g.dataOffset + offset..g.dataOffset + offset + HEADER_SIZE])
    {
      if offset < 0 {
        return null;
      }
      var bufOffset := g.dataOffset + offset;
      if bufOffset + HEADER_SIZE > data.Length {
        return null;
      }
      pkt := RingPacket.Deserialize(data, bufOffset);
    }

    /** Reading where a live packet lies. */
    method ReadLive(offset: int, ghost b: nat, ghost n: nat) returns (pkt: RingPacket)
      requires SlotsHold(g, history, b, data[..]) && b <= n < |history| && offset == SlotAt(g, n)
      ensures fresh(pkt) && pkt.Fields() == HeaderAt(g, history, n)
    {
      hide SlotAt, DecodeHeader, HeaderAt, HeaderBytes;
      SlotRead(g, history, b, data[..], n);
      var at := g.dataOffset + offset;
      assert data[at..at + HEADER_SIZE] == data[..][at..at + HEADER_SIZE];
      var p := ReadPacketAtOffset(offset);
      pkt := p;
    }

    /** The evicted packet's stream goes on to its next packet, or is gone. */
    method EvictFromStream(e: RingPacket, ghost b: nat)
      requires Holds(b) && |history| == b + g.maxPackets && e.Fields() == HeaderAt(g, history, b)
      modifies `streamIdx, `streamCount
      ensures streamIdx == IndexOf(g, history, b + 1) && streamCount == |streamIdx|
      ensures var m := NextOf(history, e.streamId, b + 1);
        streamIdx == EvictStep(old(streamIdx), e.Fields(), if m < |history| then HeaderAt(g, history, m) else e.Fields())
    {
      hide SlotAt, SlotsHold, IndexOf, HeaderBytes, DecodeHeader, NextOf, LastOf, Sound;
      IndexEvict(g, history, b);
      OnlyPacket(g, history, b);
      if e.streamId in streamIdx {
        var stream := streamIdx[e.streamId];
        if e.offset == stream.earliest.offset && e.offset == stream.latest.offset {
          CountWithout(streamIdx, e.streamId);
          streamIdx := streamIdx - {e.streamId};
          streamCount := streamCount - 1;
        } else if e.nextInStream >= 0 {
          var nextInStream := ReadLive(e.nextInStream, b, NextOf(history, e.streamId, b + 1));
          stream := stream.(earliest := HeaderMark(nextInStream.Fields()));
          CountWith(streamIdx, e.streamId, stream);
          streamIdx := streamIdx[e.streamId := stream];
        }
      }
    }

    /** Drop the earliest packet, e, of a full ring: the earliest fields move on to the next slot. */
    method Evict(e: RingPacket, ghost b: nat)
      requires Holds(b) && |history| == b + g.maxPackets && e.Fields() == HeaderAt(g, history, b)
      modifies `earliest, `streamIdx, `streamCount
      ensures Holds(b + 1)
    {
      hide SlotAt, SlotsHold, IndexOf, HeaderBytes, DecodeHeader, EvictStep, NextOf;
      NextSlot(g, b);
      LiveLater(g, history, b, data[..]);
      EvictFromStream(e, b);
      var nextOffset := NextOffset(e.offset, maxOffset, g.pktSize);
      var nextInRing := ReadLive(nextOffset, b, b + 1);
      earliest := HeaderMark(nextInRing.Fields());
    }

    /** The packet, padded to a whole slot, goes into the buffer. */
    method StoreSlot(packet: RingPacket, packetdata: seq<byte>, datasize: nat)
      requires 0 <= packet.offset && g.dataOffset + packet.offset + g.pktSize <= data.Length
      requires HEADER_SIZE + datasize <= g.pktSize && InRange(packet.Fields())
      modifies data
      ensures data[..] == Splice(old(data[..]), g.dataOffset + packet.offset,
                                 HeaderBytes(packet.Fields()) + Pad(Pad(packetdata, datasize), g.pktSize - HEADER_SIZE))
    {
      hide HeaderBytes, Splice, Pad;
      var packetSpan := new byte[g.pktSize](_ => 0);
      SlotImage(packetSpan[..], HeaderBytes(packet.Fields()), packetdata, datasize);
      packet.Serialize(packetSpan, 0);
      var count := if datasize < |packetdata| then datasize else |packetdata|;
      PutBytes(packetSpan, HEADER_SIZE, packetdata[..count]);
      PutBytes(data, g.dataOffset + packet.offset, packetSpan[..]);
    }

    /** Only the header of the stream's previous packet is written again. */
    method LinkPrevious(previous: int, next: int)
      requires 0 <= previous && g.dataOffset + previous + HEADER_SIZE <= data.Length && Signed64(next)
      requires InRange(DecodeHeader(data[g.dataOffset + previous..g.dataOffset + previous + HEADER_SIZE]))
      modifies data
      ensures data[..] == Splice(old(data[..]), g.dataOffset + previous,
                                 HeaderBytes(DecodeHeader(old(data[g.dataOffset + previous..g.dataOffset + previous + HEADER_SIZE])).(nextInStream := next)))
    {
      hide HeaderBytes, DecodeHeader;
      var prevLatest := ReadPacketAtOffset(previous);
      prevLatest.nextInStream := next;
      var prevSpan := new byte[HEADER_SIZE](_ => 0);
      prevLatest.Serialize(prevSpan, 0);
      assert prevSpan[..] == HeaderBytes(prevLatest.Fields());
      PutBytes(data, g.dataOffset + previous, prevSpan[..]);
    }

    /** Slot and link of a new packet p with the given header; `previous` is where its stream's latest packet lies. */
    method StoreLinked(packet: RingPacket, packetdata: seq<byte>, datasize: nat, previous: int, ghost b: nat, ghost p: Packet)
      requires SlotsHold(g, history, b, data[..]) && GoodPacket(g, p) && |history| < b + g.maxPackets
      requires p.payload == Pad(packetdata, datasize) && packet.Fields() == HeaderAt(g, history + [p], |history|)
      requires previous == if LastOf(history, p.sid) >= b then SlotAt(g, LastOf(history, p.sid)) else -1
      modifies data
      ensures data[..] == BytesAfter(g, history, b, old(data[..]), p)
    {
      hide SlotAt, HeaderBytes, DecodeHeader, Splice, HeaderAt, GoodSid, SlotsHold, LastOf;
      ghost var h, bytes := history, data[..];
      SlotsMeans(g, h, b, bytes);
      NewHeader(g, h, p);
      SlotWritten(g, bytes, |h|, SlotBytes(g, h + [p], |h|), 0);
      StoreSlot(packet, packetdata, datasize);
      assert data[..] == Stored(g, h, bytes, p);
      if previous >= 0 {
        PreviousStored(g, h, b, bytes, p);
        ghost var at := g.dataOffset + previous;
        assert data[at..at + HEADER_SIZE] == data[..][at..at + HEADER_SIZE];
        LinkPrevious(previous, packet.offset);
      }
    }

    /** The stream's entry, made if it is not there, as yet without a latest packet. */
    method FindOrCreate(sid: string, mark: Mark) returns (stream: Entry)
      requires streamCount == |streamIdx| && (sid in streamIdx ==> streamIdx[sid].streamId == sid)
      modifies `streamIdx, `streamCount
      ensures stream.streamId == sid
      ensures sid in old(streamIdx) ==> stream == old(streamIdx)[sid]
      ensures sid !in old(streamIdx) ==> stream.earliest == mark && stream.latest.offset == -1
      ensures streamIdx == old(streamIdx)[sid := stream] && streamCount == |streamIdx|
    {
      if sid in streamIdx {
        stream := streamIdx[sid];
        assert streamIdx == streamIdx[sid := stream];
      } else {
        stream := Entry(sid, mark, Mark(0, 0, 0, 0, -1));
        CountWith(streamIdx, sid, stream);
        streamIdx := streamIdx[sid := stream];
        streamCount := streamCount + 1;
      }
    }

    /** Find or create the stream's entry, store the packet, and bring the latest fields, the stream's previous packet
        and its entry up to date. */
    method Append(packet: RingPacket, packetdata: seq<byte>, datasize: nat, initial: bool, ghost b: nat, ghost p: Packet)
      requires Holds(b) && GoodPacket(g, p) && |history| < b + g.maxPackets && initial == (history == [])
      requires p.payload == Pad(packetdata, datasize) && packet.Fields() == HeaderAt(g, history + [p], |history|)
      modifies `earliest, `latest, `streamIdx, `streamCount, `history, data
      ensures Holds(b) && history == old(history) + [p]
      ensures data[..] == BytesAfter(g, old(history), b, old(data[..]), p)
    {
      hide SlotAt, SlotsHold, HeaderBytes, DecodeHeader, HeaderAt, IndexOf, BytesAfter, LastOf, NextOf, GoodPacket, Sound, Sids, MarkOf, HeaderMark,
           GoodHistory, BigEnough;
      ghost var h, bytes, index := history, data[..], streamIdx;
      var sid, mark := packet.streamId, HeaderMark(packet.Fields());
      NewMark(g, h, p);
      IndexAppend(g, h, b, p);
      AppendHolds(g, h, b, bytes, p);
      EntryPrevious(g, h, b, p.sid);
      var stream := FindOrCreate(sid, mark);
      SlotsMeans(g, h, b, bytes);
      StoreLinked(packet, packetdata, datasize, stream.latest.offset, b, p);
      latest := mark;
      if initial {
        earliest := mark;
      }
      CountWith(streamIdx, sid, stream.(latest := mark));
      streamIdx := streamIdx[sid := stream.(latest := mark)];
      assert streamIdx == index[sid := stream.(latest := mark)];
      history := h + [p];
      MarksKept(g, h, b, p);
    }

    /** What callers of Write owe it: fields of their widths, a stream id that fits its field, the data's true size. */
    ghost predicate Writable(f: Header, datasize: nat, now: int) {
      && Unsigned64(f.pktId) && Signed64(f.dataStart) && Signed64(f.dataEnd) && Signed64(now) && GoodSid(f.streamId)
      && f.dataSize == datasize && HEADER_SIZE + datasize < 0x1_0000_0000
    }

    /** Number and offset of the next packet follow from the latest one in the buffer. */
    method Stamp(packet: RingPacket, latestPkt: RingPacket?, ghost packetdata: seq<byte>, datasize: nat, now: int) returns (offset: int)
      requires Sound(g) && maxOffset == (g.maxPackets - 1) * g.pktSize && packet != latestPkt
      requires Writable(packet.Fields(), datasize, now) && HEADER_SIZE + datasize <= g.pktSize
      requires history == [] <==> latestPkt == null
      requires latestPkt != null ==> latestPkt.Fields() == HeaderAt(g, history, |history| - 1)
      modifies packet
      ensures var p := Written(history, old(packet.Fields()), packetdata, now);
        GoodPacket(g, p) && offset == SlotAt(g, |history|) && packet.Fields() == HeaderAt(g, history + [p], |history|)
    {
      hide SlotAt, GoodSid;
      NewHeader(g, history, Written(history, packet.Fields(), packetdata, now));
      var pktid;
      if latestPkt != null {
        NextSlot(g, |history| - 1);
        offset := NextOffset(latestPkt.offset, maxOffset, g.pktSize);
        pktid := (latestPkt.pktId + 1) % 0x1_0000_0000_0000_0000;
        if pktid > RINGID_MAXIMUM {
          pktid := 1;
        }
      } else {
        pktid := 1;
        offset := 0;
        FirstSlot(g);
      }
      packet.pktId := if packet.pktId == RINGID_NONE then pktid else packet.pktId;
      packet.offset := offset;
      packet.pktTime := now;
      packet.nextInStream := -1;
    }

    /** Copies of the packets at the two ends; none when the ring is empty. */
    ghost predicate AreEnds(earliestPkt: RingPacket?, latestPkt: RingPacket?)
      requires Sound(g)
      reads `history, earliestPkt, latestPkt
    {
      && (history == [] <==> earliestPkt == null) && (history == [] <==> latestPkt == null)
      && (history != [] ==> earliestPkt != latestPkt && earliestPkt.Fields() == HeaderAt(g, history, FirstLive(g, history))
                            && latestPkt.Fields() == HeaderAt(g, history, |history| - 1))
    }

    method ReadEnds() returns (earliestPkt: RingPacket?, latestPkt: RingPacket?)
      requires Valid()
      ensures AreEnds(earliestPkt, latestPkt)
      ensures earliestPkt != null ==> fresh(earliestPkt)
      ensures latestPkt != null ==> fresh(latestPkt)
    {
      hide SlotAt, SlotsHold, HeaderAt, IndexOf, Sound;
      earliestPkt, latestPkt := null, null;
      if earliest.offset >= 0 {
        earliestPkt := ReadLive(earliest.offset, FirstLive(g, history), FirstLive(g, history));
      }
      if latest.offset >= 0 {
        latestPkt := ReadLive(latest.offset, FirstLive(g, history), |history| - 1);
      }
    }

    /** Evict the earliest packet when the new one would take its slot, which is when the ring is full. */
    method MakeRoom(earliestPkt: RingPacket?, latestPkt: RingPacket?, offset: int, ghost p: Packet)
      requires Valid() && offset == SlotAt(g, |history|)
      requires AreEnds(earliestPkt, latestPkt)
      modifies `earliest, `streamIdx, `streamCount
      ensures Holds(FirstLive(g, history + [p])) && |history| < FirstLive(g, history + [p]) + g.maxPackets
    {
      hide SlotAt, SlotsHold, HeaderAt, IndexOf;
      if history != [] { SlotsDiffer(g, FirstLive(g, history), |history|); }
      if earliestPkt != null && latestPkt != null && earliestPkt != latestPkt && offset == earliest.offset {
        Evict(earliestPkt, FirstLive(g, history));
      }
    }

    /** RingWrite: reject what does not fit a slot; otherwise the packet joins the history, the oldest one leaving a full ring. */
    method Write(packet: RingPacket, packetdata: seq<byte>, datasize: nat, now: int) returns (code: int)
      requires Valid() && Writable(packet.Fields(), datasize, now)
      modifies this, data, packet
      ensures code == if HEADER_SIZE + datasize <= g.pktSize then 0 else -1
      ensures code != 0 ==> unchanged(this, data, packet)
      ensures Valid() && corruptFlag == old(corruptFlag) && (code == 0 ==> fluxFlag == 0)
      ensures code == 0 ==> history == old(history) + [Written(old(history), old(packet.Fields()), packetdata, now)]
      ensures code == 0 ==> packet.Fields() == HeaderAt(g, history, |history| - 1)
      ensures code == 0 ==> Adds(old(history), old(packet.Fields()), packetdata, now, history)
      ensures code == 0 ==> data[..] == BytesAfter(g, old(history), FirstLive(g, history), old(data[..]), history[|history| - 1])
    {
      hide SlotAt, HeaderAt, BytesAfter, GoodSid, Holds, Sound, Adds, Pad, GoodHistory;
      if HEADER_SIZE + datasize > g.pktSize {
        return -1;
      }
      ghost var h, p := history, Written(history, packet.Fields(), packetdata, now);
      HoldsSound(FirstLive(g, h));
      WriteAdds(g, h, packet.Fields(), packetdata, now);
      fluxFlag := 1;
      var earliestPkt, latestPkt := ReadEnds();
      var offset := Stamp(packet, latestPkt, packetdata, datasize, now);
      MakeRoom(earliestPkt, latestPkt, offset, p);
      Append(packet, packetdata, datasize, earliestPkt == null, FirstLive(g, h + [p]), p);
      fluxFlag := 0;
      code := 0;
    }
  }

  /** A written packet has the fields and the bytes it was given, with zeros where bytes are missing. */
  lemma WrittenIs(h: seq<Packet>, f: Header, packetdata: seq<byte>, now: int)
    requires 0 <= f.dataSize
    ensures var p := Written(h, f, packetdata, now);
      && p.sid == f.streamId && p.time == now && p.dataStart == f.dataStart && p.dataEnd == f.dataEnd && |p.payload| == f.dataSize
      && (forall i :: 0 <= i < f.dataSize ==> p.payload[i] == if i < |packetdata| then packetdata[i] else 0)
      && (|packetdata| == f.dataSize ==> p.payload == packetdata)
  {
  }

  /** The id after another, in 64 bits: one more, but 1 above the largest packet id, and 0 after the largest number of all. */
  function Following(id: int): int {
    if id == 0xFFFF_FFFF_FFFF_FFFF then 0 else if id >= 0xFFFF_FFFF_FFFF_FFF5 then 1 else id + 1
  }

  /** Its id is the given one, or else the one after the latest packet's, and 1 in an empty ring. */
  lemma WrittenId(h: seq<Packet>, f: Header, packetdata: seq<byte>, now: int)
    requires 0 <= f.dataSize && (h != [] ==> Unsigned64(h[|h| - 1].id))
    ensures Written(h, f, packetdata, now).id == if f.pktId != RINGID_NONE then f.pktId else if h == [] then 1 else Following(h[|h| - 1].id)
  {
    if h != [] {
      var next := h[|h| - 1].id + 1;
      if next < 0x1_0000_0000_0000_0000 {
        Bits.ModSmall(next, 0x1_0000_0000_0000_0000);
      } else {
        assert next % 0x1_0000_0000_0000_0000 == 0;
      }
    }
  }

  /** What a successful write adds, by what it was given. */
  ghost predicate Adds(h: seq<Packet>, f: Header, packetdata: seq<byte>, now: int, h': seq<Packet>)
    requires 0 <= f.dataSize
  {
    && |h'| == |h| + 1 && h'[..|h|] == h
    && var p := h'[|h|];
    && p.sid == f.streamId && p.time == now && p.dataStart == f.dataStart && p.dataEnd == f.dataEnd
    && |p.payload| == f.dataSize && (forall i :: 0 <= i < f.dataSize ==> p.payload[i] == if i < |packetdata| then packetdata[i] else 0)
    && p.id == if f.pktId != 0xFFFF_FFFF_FFFF_FFFE then f.pktId else if h == [] then 1 else Following(h[|h| - 1].id)
  }

  lemma WriteAdds(g: Geometry, h: seq<Packet>, f: Header, packetdata: seq<byte>, now: int)
    requires 0 <= f.dataSize && GoodHistory(g, h)
    ensures Adds(h, f, packetdata, now, h + [Written(h, f, packetdata, now)])
  {
    hide Written, GoodSid;
    if h != [] { GoodLast(g, h); }
    WrittenIs(h, f, packetdata, now);
    WrittenId(h, f, packetdata, now);
  }

  lemma GoodLast(g: Geometry, h: seq<Packet>)
    requires GoodHistory(g, h) && h != []
    ensures Unsigned64(h[|h| - 1].id)
  {
  }

  lemma FirstSlot(g: Geometry)
    requires Sound(g)
    ensures SlotAt(g, 0) == 0
  {
  }

  lemma NewMark(g: Geometry, h: seq<Packet>, p: Packet)
    requires Sound(g)
    ensures HeaderMark(HeaderAt(g, h + [p], |h|)) == MarkOf(g, h + [p], |h|) && HeaderAt(g, h + [p], |h|).streamId == p.sid
    ensures HeaderAt(g, h + [p], |h|).offset == SlotAt(g, |h|)
  {
  }

  /** An entry's latest offset is where the new packet's predecessor lies. */
  lemma EntryPrevious(g: Geometry, h: seq<Packet>, b: nat, sid: string)
    requires Sound(g) && b <= |h|
    ensures sid in IndexOf(g, h, b) <==> LastOf(h, sid) >= b
    ensures sid in IndexOf(g, h, b) ==> IndexOf(g, h, b)[sid].latest.offset == SlotAt(g, LastOf(h, sid)) && IndexOf(g, h, b)[sid].streamId == sid
  {
    hide SlotAt, LastOf, NextOf, Sids;
    SidLive(h, b, sid);
  }

  lemma MarksKept(g: Geometry, h: seq<Packet>, b: nat, p: Packet)
    requires Sound(g) && b <= |h|
    ensures b < |h| ==> MarkOf(g, h + [p], b) == MarkOf(g, h, b)
    ensures |h + [p]| == |h| + 1
  {
    hide SlotAt;
  }

  /** A cleared slot with header and data copied in. */
  lemma SlotImage(zeros: seq<byte>, header: seq<byte>, packetdata: seq<byte>, datasize: nat)
    requires |header| == HEADER_SIZE && HEADER_SIZE + datasize <= |zeros| && forall i :: 0 <= i < |zeros| ==> zeros[i] == 0
    ensures var count := if datasize < |packetdata| then datasize else |packetdata|;
      Splice(Splice(zeros, 0, header), HEADER_SIZE, packetdata[..count]) == header + Pad(Pad(packetdata, datasize), |zeros| - HEADER_SIZE)
  {
    var count := if datasize < |packetdata| then datasize else |packetdata|;
    var d, rest := packetdata[..count], zeros[HEADER_SIZE + count..];
    assert Splice(zeros, 0, header) == header + zeros[HEADER_SIZE..];
    assert Splice(header + zeros[HEADER_SIZE..], HEADER_SIZE, d) == header + (d + rest);
    assert Pad(packetdata, datasize) == d + rest[..datasize - count];
    assert Pad(d + rest[..datasize - count], |zeros| - HEADER_SIZE) == d + rest;
  }

  lemma LiveLater(g: Geometry, h: seq<Packet>, b: nat, bytes: seq<byte>)
    requires SlotsHold(g, h, b, bytes)
    ensures SlotsHold(g, h, b + 1, bytes)
  {
  }

  lemma CountWithout<K, V>(m: map<K, V>, k: K)
    requires k in m
    ensures |m - {k}| == |m| - 1
  {
    assert (m - {k}).Keys == m.Keys - {k};
    assert |m - {k}| == |(m - {k}).Keys| && |m| == |m.Keys|;
  }

  lemma CountWith<K, V>(m: map<K, V>, k: K, v: V)
    ensures |m[k := v]| == if k in m then |m| else |m| + 1
  {
    assert m[k := v].Keys == m.Keys + {k};
    assert |m[k := v]| == |m[k := v].Keys| && |m| == |m.Keys|;
  }
}
