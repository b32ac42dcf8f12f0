/** What a valid ring means: a bounded queue in consecutive slots, and a stream index that is the per-stream view of it. */
module RingViews {
  import Bits
  import opened LittleEndian
  import opened RingTypes
  import opened RingHistory
  import opened RingIndex
  import opened RingBuffer

  /** The queue of live packets. */
  function Live(g: Geometry, h: seq<Packet>): seq<Packet> {
    h[FirstLive(g, h)..]
  }

  /** A write is a put into a bounded queue: the head goes just when all slots are in use. */
  lemma WriteIsBoundedPut(g: Geometry, h: seq<Packet>, p: Packet)
    requires g.maxPackets > 0
    ensures |Live(g, h)| <= g.maxPackets
    ensures Live(g, h + [p]) == (if |Live(g, h)| == g.maxPackets then Live(g, h)[1..] else Live(g, h)) + [p]
  {
    if |Live(g, h)| == g.maxPackets {
      assert Live(g, h)[1..] == h[FirstLive(g, h) + 1..];
    }
  }

  /** The k-th next offset after this one. */
  function OffsetAfter(g: Geometry, offset: int, k: nat): int
    requires Sound(g)
  {
    if k == 0 then offset else NextOffset(OffsetAfter(g, offset, k - 1), (g.maxPackets - 1) * g.pktSize, g.pktSize)
  }

  lemma {:induction false} OffsetsFollow(g: Geometry, n: nat, k: nat)
    requires Sound(g)
    ensures OffsetAfter(g, SlotAt(g, n), k) == SlotAt(g, n + k)
  {
    hide SlotAt, NextOffset;
    if k > 0 {
      OffsetsFollow(g, n, k - 1);
      NextSlot(g, n + k - 1);
    }
  }

  /** The slot at an offset tells that offset, and the header fields and payload that packet p was written with. */
  predicate SlotTells(g: Geometry, bytes: seq<byte>, offset: int, p: Packet) {
    var at := g.dataOffset + offset;
    && 0 <= offset && offset + g.pktSize <= g.maxPackets * g.pktSize && at + g.pktSize <= |bytes|
    && HEADER_SIZE + |p.payload| <= g.pktSize
    && (var f := DecodeHeader(bytes[at..at + HEADER_SIZE]);
        && f.offset == offset && f.pktId == p.id && f.pktTime == p.time && f.streamId == p.sid
        && f.dataStart == p.dataStart && f.dataEnd == p.dataEnd && f.dataSize == |p.payload|)
    && bytes[at + HEADER_SIZE..at + HEADER_SIZE + |p.payload|] == p.payload
  }

  /** The mark has the packet's id and times. */
  predicate MarkTells(m: Mark, p: Packet) {
    m.id == p.id && m.pTime == p.time && m.dsTime == p.dataStart && m.deTime == p.dataEnd
  }

  lemma LiveSlotTells(g: Geometry, h: seq<Packet>, b: nat, bytes: seq<byte>, n: nat)
    requires SlotsHold(g, h, b, bytes) && b <= n < |h|
    ensures SlotTells(g, bytes, SlotAt(g, n), h[n])
  {
    hide SlotAt, DecodeHeader, GoodSid, SlotsHold;
    SlotsMeans(g, h, b, bytes);
    GoodOne(g, h, n);
    SlotRead(g, h, b, bytes, n);
  }

  /** Live packets lie one after the other around the buffer, from the earliest offset to the latest, each as it was
      written; a ring that has not yet overwritten anything starts at offset 0. */
  lemma QueueInSlots(ring: RingBuffer, k: nat)
    requires ring.Valid() && k < |Live(ring.g, ring.history)|
    ensures Sound(ring.g)
    ensures var g, live := ring.g, Live(ring.g, ring.history);
      var offset := OffsetAfter(g, ring.earliest.offset, k);
      SlotTells(g, ring.data[..], offset, live[k]) && (k == |live| - 1 ==> offset == ring.latest.offset && MarkTells(ring.latest, live[k]))
    ensures k == 0 ==> MarkTells(ring.earliest, Live(ring.g, ring.history)[k])
    ensures |ring.history| <= ring.g.maxPackets ==> ring.earliest.offset == 0
  {
    hide SlotAt, SlotsHold, IndexOf, SlotTells;
    var g, h, b := ring.g, ring.history, FirstLive(ring.g, ring.history);
    OffsetsFollow(g, b, k);
    LiveSlotTells(g, h, b, ring.data[..], b + k);
    FirstSlot(g);
  }

  /** A stream is in the index just when it has a live packet; its entry tells the stream's first and last live packet,
      and the links from the first one visit exactly its live packets, in write order, up to a link of -1. */
  lemma IndexIsStreamView(ring: RingBuffer, sid: string, steps: nat)
    requires ring.Valid() && steps >= ring.g.maxPackets
    ensures ring.streamCount == |Sids(ring.history, FirstLive(ring.g, ring.history))|
    ensures var g, h, b := ring.g, ring.history, FirstLive(ring.g, ring.history);
      var ns := StreamFrom(h, sid, b);
      && BigEnough(g, ring.data[..])
      && (sid in ring.streamIdx <==> ns != [])
      && (sid in ring.streamIdx ==>
            var e := ring.streamIdx[sid];
            && e.streamId == sid && e.earliest == MarkOf(g, h, ns[0]) && e.latest == MarkOf(g, h, ns[|ns| - 1])
            && MarkTells(e.earliest, h[ns[0]]) && MarkTells(e.latest, h[ns[|ns| - 1]])
            && ChainFrom(g, ring.data[..], e.earliest.offset, steps) == Offsets(g, ns)
            && ChainEnd(g, ring.data[..], e.earliest.offset, steps) == -1)
  {
    hide SlotAt, DecodeHeader, GoodSid, SlotsHold, IndexOf, Sids, NextOf, LastOf, HeaderAt;
    var g, h, b := ring.g, ring.history, FirstLive(ring.g, ring.history);
    SlotsMeans(g, h, b, ring.data[..]);
    KeyCount(ring.streamIdx);
    SidLive(h, b, sid);
    StreamEnds(h, sid, b);
    ChainIsStream(g, h, b, ring.data[..], sid, b, steps);
    if sid in ring.streamIdx { IndexGives(g, h, b, sid); }
  }

  /** A stream's list starts at its next packet and stops at its last one. */
  lemma StreamEnds(h: seq<Packet>, sid: string, n: nat)
    requires n <= |h|
    ensures var ns := StreamFrom(h, sid, n);
      && (ns == [] <==> NextOf(h, sid, n) == |h|)
      && (ns != [] ==> ns[0] == NextOf(h, sid, n) && ns[|ns| - 1] == LastOf(h, sid))
  {
    var ns := StreamFrom(h, sid, n);
    StreamFromExact(h, sid, n);
    if ns != [] {
      var last := ns[|ns| - 1];
      assert last in ns;
      forall k | last < k < |h| ensures h[k].sid != sid {
        if h[k].sid == sid {
          var i :| 0 <= i < |ns| && ns[i] == k;
        }
      }
      LastOfIs(h, sid, last);
    }
  }

  // ---------- ids ----------

  /** No caller chose an id, so the ring did. */
  predicate ServerNumbered(h: seq<Packet>) {
    forall n :: 0 <= n < |h| ==> h[n].id == AssignedId(h[..n], RINGID_NONE)
  }

  lemma IdStep(r: nat)
    requires r < RINGID_MAXIMUM
    ensures IdAfter(r + 1) == if r + 1 == RINGID_MAXIMUM then 1 else r + 2
  {
    Bits.ModSmall(r + 2, 0x1_0000_0000_0000_0000);
  }

  /** Ids assigned by the ring count 1, 2, 3 and so on up to the largest packet id, and then from 1 again. */
  lemma {:induction false} IdsCount(h: seq<Packet>, n: nat)
    requires ServerNumbered(h) && n < |h|
    ensures h[n].id == n % 0xFFFF_FFFF_FFFF_FFF5 + 1
  {
    hide IdAfter;
    if n > 0 {
      IdsCount(h, n - 1);
      NextResidue(n - 1, RINGID_MAXIMUM);
      IdStep((n - 1) % RINGID_MAXIMUM);
      assert h[..n][n - 1] == h[n - 1];
    }
  }
}
