/** What a ring should hold, given every packet ever written to it: packet number n of the history
    lives in slot n modulo the number of slots, and the live packets are the last ones. */
module RingHistory {
  import Bits
  import opened LittleEndian
  import opened RingTypes

  datatype Packet = Packet(id: int, time: int, sid: string, dataStart: int, dataEnd: int, payload: seq<byte>)

  /** The sizes a ring is made with; a C# array holds less than 2^31 bytes. */
  datatype Geometry = Geometry(pktSize: nat, maxPackets: nat, dataOffset: nat)

  predicate Sound(g: Geometry) {
    0 < g.pktSize && 2 <= g.maxPackets && g.dataOffset + g.maxPackets * g.pktSize < 0x8000_0000
  }

  predicate GoodPacket(g: Geometry, p: Packet) {
    && Unsigned64(p.id) && p.id != RINGID_NONE && Signed64(p.time) && Signed64(p.dataStart) && Signed64(p.dataEnd) && GoodSid(p.sid)
    && HEADER_SIZE + |p.payload| <= g.pktSize
  }

  ghost predicate GoodHistory(g: Geometry, h: seq<Packet>) {
    forall n :: 0 <= n < |h| ==> GoodPacket(g, h[n])
  }

  // ---------- slots ----------

  function SlotAt(g: Geometry, n: nat): (offset: nat)
    requires Sound(g)
    ensures offset + g.pktSize <= g.maxPackets * g.pktSize < 0x8000_0000
  {
    SlotFits(n % g.maxPackets, g.maxPackets, g.pktSize);
    n % g.maxPackets * g.pktSize
  }

  lemma SlotFits(s: nat, max: nat, size: nat)
    requires s < max
    ensures s * size + size == (s + 1) * size <= max * size
    ensures s + 1 < max ==> (s + 1) * size <= (max - 1) * size
  {
    Bits.MulMonotone(s + 1, max, size);
    if s + 1 < max { Bits.MulMonotone(s + 1, max - 1, size); }
  }

  function NextOffset(offset: int, maxOffset: int, pktSize: nat): int {
    var result := offset + pktSize;
    if result > maxOffset then 0 else result
  }

  /** Going to the next offset is going to the next packet number. */
  lemma NextSlot(g: Geometry, n: nat)
    requires Sound(g)
    ensures NextOffset(SlotAt(g, n), (g.maxPackets - 1) * g.pktSize, g.pktSize) == SlotAt(g, n + 1)
  {
    var s, max := n % g.maxPackets, g.maxPackets;
    NextResidue(n, max);
    if s + 1 < max {
      SlotFits(s, max, g.pktSize);
    }
    assert (s + 1) * g.pktSize == s * g.pktSize + g.pktSize;
    if s + 1 == max { assert (max - 1) * g.pktSize < (s + 1) * g.pktSize; }
  }

  lemma NextResidue(n: nat, max: nat)
    requires max > 0
    ensures (n + 1) % max == if n % max + 1 == max then 0 else n % max + 1
  {
    Turn(n, 1, max);
  }

  /** Going on by less than a whole ring. */
  lemma Turn(n: nat, k: nat, max: nat)
    requires k <= max && max > 0
    ensures (n + k) % max == if n % max + k < max then n % max + k else n % max + k - max
  {
    var q, s := n / max, n % max;
    assert n == max * q + s;
    assert q * max == max * q && (q + 1) * max == q * max + max;
    if s + k < max {
      Bits.DivUnique(n + k, max, q, s + k);
    } else {
      Bits.DivUnique(n + k, max, q + 1, s + k - max);
    }
  }

  /** Packets less than a whole ring apart are in different slots; a whole ring apart, in the same one. */
  lemma SlotsDiffer(g: Geometry, m: nat, n: nat)
    requires Sound(g) && m < n
    ensures n < m + g.maxPackets ==> SlotAt(g, m) != SlotAt(g, n)
    ensures n == m + g.maxPackets ==> SlotAt(g, m) == SlotAt(g, n)
    ensures SlotAt(g, m) < SlotAt(g, n) ==> SlotAt(g, m) + g.pktSize <= SlotAt(g, n)
    ensures SlotAt(g, m) > SlotAt(g, n) ==> SlotAt(g, n) + g.pktSize <= SlotAt(g, m)
    ensures SlotAt(g, m) == SlotAt(g, n) <==> m % g.maxPackets == n % g.maxPackets
  {
    var max, a, b := g.maxPackets, m % g.maxPackets, n % g.maxPackets;
    if n <= m + max { Turn(m, n - m, max); }
    if a < b { SlotFits(a, b, g.pktSize); }
    if b < a { SlotFits(b, a, g.pktSize); }
  }

  // ---------- streams within the history ----------

  /** The first packet of the stream from number n on; |h| if there is none. */
  function NextOf(h: seq<Packet>, sid: string, n: nat): (m: nat)
    requires n <= |h|
    ensures n <= m <= |h| && (m < |h| ==> h[m].sid == sid)
    ensures forall k :: n <= k < m ==> h[k].sid != sid
    decreases |h| - n
  {
    if n == |h| || h[n].sid == sid then n else NextOf(h, sid, n + 1)
  }

  /** The last packet of the stream; -1 if there is none. */
  function LastOf(h: seq<Packet>, sid: string): (m: int)
    ensures -1 <= m < |h| && (m >= 0 ==> h[m].sid == sid)
    ensures forall k :: m < k < |h| ==> h[k].sid != sid
  {
    if h == [] then -1
    else if h[|h| - 1].sid == sid then |h| - 1
    else LastOf(h[..|h| - 1], sid)
  }

  /** Having both defining properties is being it. */
  lemma {:induction false} NextOfIs(h: seq<Packet>, sid: string, n: nat, m: nat)
    requires n <= m <= |h| && (m < |h| ==> h[m].sid == sid) && forall k :: n <= k < m ==> h[k].sid != sid
    ensures NextOf(h, sid, n) == m
    decreases m - n
  {
    if n < m { NextOfIs(h, sid, n + 1, m); }
  }

  lemma {:induction false} LastOfIs(h: seq<Packet>, sid: string, m: int)
    requires -1 <= m < |h| && (m >= 0 ==> h[m].sid == sid) && forall k :: m < k < |h| ==> h[k].sid != sid
    ensures LastOf(h, sid) == m
  {
    if m < |h| - 1 { LastOfIs(h[..|h| - 1], sid, m); }
  }

  lemma NextOfAppend(h: seq<Packet>, p: Packet, sid: string, n: nat)
    requires n <= |h|
    ensures NextOf(h + [p], sid, n) == if NextOf(h, sid, n) < |h| then NextOf(h, sid, n) else if p.sid == sid then |h| else |h| + 1
  {
    var m, h' := NextOf(h, sid, n), h + [p];
    assert forall k :: 0 <= k < |h| ==> h'[k] == h[k];
    NextOfIs(h', sid, n, if m < |h| then m else if p.sid == sid then |h| else |h| + 1);
  }

  lemma LastOfAppend(h: seq<Packet>, p: Packet, sid: string)
    ensures LastOf(h + [p], sid) == if p.sid == sid then |h| else LastOf(h, sid)
  {
    var h' := h + [p];
    assert forall k :: 0 <= k < |h| ==> h'[k] == h[k];
    LastOfIs(h', sid, if p.sid == sid then |h| else LastOf(h, sid));
  }

  // ---------- what each slot holds ----------

  function HeaderAt(g: Geometry, h: seq<Packet>, n: nat): (header: Header)
    requires Sound(g) && n < |h|
    ensures GoodPacket(g, h[n]) ==> InRange(header)
  {
    var p, m := h[n], NextOf(h, h[n].sid, n + 1);
    Header(SlotAt(g, n), p.id, p.time, if m == |h| then -1 else SlotAt(g, m), p.sid, p.dataStart, p.dataEnd, |p.payload|)
  }

  function SlotBytes(g: Geometry, h: seq<Packet>, n: nat): (s: seq<byte>)
    requires Sound(g) && n < |h| && GoodPacket(g, h[n])
    ensures |s| == g.pktSize
  {
    HeaderBytes(HeaderAt(g, h, n)) + Pad(h[n].payload, g.pktSize - HEADER_SIZE)
  }

  predicate BigEnough(g: Geometry, bytes: seq<byte>) {
    Sound(g) && g.dataOffset + g.maxPackets * g.pktSize <= |bytes|
  }

  function SlotOf(g: Geometry, bytes: seq<byte>, n: nat): (s: seq<byte>)
    requires BigEnough(g, bytes)
    ensures |s| == g.pktSize
  {
    var at := g.dataOffset + SlotAt(g, n);
    bytes[at..at + g.pktSize]
  }

  /** Packets b and later lie in their slots. */
  ghost predicate SlotsHold(g: Geometry, h: seq<Packet>, b: nat, bytes: seq<byte>) {
    && BigEnough(g, bytes) && GoodHistory(g, h)
    && forall n {:trigger SlotOf(g, bytes, n)} | b <= n < |h| :: SlotOf(g, bytes, n) == SlotBytes(g, h, n)
  }

  /** Reading a live slot yields that packet's header and payload. */
  lemma SlotRead(g: Geometry, h: seq<Packet>, b: nat, bytes: seq<byte>, n: nat)
    requires SlotsHold(g, h, b, bytes) && b <= n < |h|
    ensures var at := g.dataOffset + SlotAt(g, n);
      && g.pktSize >= HEADER_SIZE && DecodeHeader(bytes[at..at + HEADER_SIZE]) == HeaderAt(g, h, n)
      && bytes[at + HEADER_SIZE..at + HEADER_SIZE + |h[n].payload|] == h[n].payload
  {
    hide HeaderBytes, DecodeHeader, SlotAt, HeaderAt, GoodSid, InRange;
    var at, header := g.dataOffset + SlotAt(g, n), HeaderAt(g, h, n);
    var s := SlotOf(g, bytes, n);
    assert s == SlotBytes(g, h, n);
    assert bytes[at..at + HEADER_SIZE] == s[..HEADER_SIZE] == HeaderBytes(header) + [];
    GoodOne(g, h, n);
    HeaderRoundTrip(header, []);
    assert bytes[at + HEADER_SIZE..at + HEADER_SIZE + |h[n].payload|] == s[HEADER_SIZE..][..|h[n].payload|];
  }

  /** Where a live packet lies in the buffer: slot n modulo the number of slots has its header, from byte 112 on its data, and
      then zeros. */
  lemma PacketInMemory(g: Geometry, h: seq<Packet>, b: nat, bytes: seq<byte>, n: nat)
    requires SlotsHold(g, h, b, bytes) && b <= n < |h|
    ensures var at, p := g.dataOffset + n % g.maxPackets * g.pktSize, h[n];
      && 0 <= at && 112 + |p.payload| <= g.pktSize && at + g.pktSize <= |bytes|
      && HeaderSays(bytes[at..at + 112], HeaderAt(g, h, n))
      && bytes[at + 112..at + 112 + |p.payload|] == p.payload
      && (forall i :: at + 112 + |p.payload| <= i < at + g.pktSize ==> bytes[i] == 0)
  {
    hide HeaderBytes, SlotAt, HeaderAt, GoodSid, InRange, HeaderSays;
    SlotPlace(g, n);
    var at, s, header := g.dataOffset + SlotAt(g, n), SlotOf(g, bytes, n), HeaderAt(g, h, n);
    assert s == SlotBytes(g, h, n);
    GoodOne(g, h, n);
    HeaderPlaces(header);
    assert bytes[at..at + 112] == s[..112] == HeaderBytes(header);
    assert forall i :: at <= i < at + g.pktSize ==> bytes[i] == s[i - at];
  }

  lemma SlotPlace(g: Geometry, n: nat)
    requires Sound(g)
    ensures SlotAt(g, n) == n % g.maxPackets * g.pktSize
  {
  }

  /** What the header of a packet says: its place and fields, and where the next packet of its stream lies, or -1. */
  lemma HeaderFields(g: Geometry, h: seq<Packet>, n: nat)
    requires Sound(g) && n < |h|
    ensures var header, p := HeaderAt(g, h, n), h[n];
      && header.offset == n % g.maxPackets * g.pktSize && header.pktId == p.id && header.pktTime == p.time && header.streamId == p.sid
      && header.dataStart == p.dataStart && header.dataEnd == p.dataEnd && header.dataSize == |p.payload|
      && (header.nextInStream == -1 <==> forall k :: n < k < |h| ==> h[k].sid != p.sid)
      && (header.nextInStream != -1 ==> exists k :: n < k < |h| && h[k].sid == p.sid && header.nextInStream == k % g.maxPackets * g.pktSize
                                                    && forall j :: n < j < k ==> h[j].sid != p.sid)
  {
    hide SlotAt;
    var m := NextOf(h, h[n].sid, n + 1);
    SlotPlace(g, n);
    if m < |h| { SlotPlace(g, m); }
  }

  lemma GoodOne(g: Geometry, h: seq<Packet>, n: nat)
    requires Sound(g) && GoodHistory(g, h) && n < |h|
    ensures GoodPacket(g, h[n]) && InRange(HeaderAt(g, h, n)) && GoodSid(HeaderAt(g, h, n).streamId)
  {
  }

  /** Writing into one slot leaves the others alone. */
  lemma SlotWritten(g: Geometry, bytes: seq<byte>, n: nat, s: seq<byte>, m: nat)
    requires BigEnough(g, bytes) && |s| <= g.pktSize
    ensures g.dataOffset + SlotAt(g, n) + |s| <= |bytes|
    ensures var bytes' := Splice(bytes, g.dataOffset + SlotAt(g, n), s);
      && BigEnough(g, bytes')
      && (SlotAt(g, m) != SlotAt(g, n) ==> SlotOf(g, bytes', m) == SlotOf(g, bytes, m))
      && SlotOf(g, bytes', n) == s + SlotOf(g, bytes, n)[|s|..]
  {
    hide SlotAt, Sound, Splice;
    var at := g.dataOffset + SlotAt(g, n);
    if m < n { SlotsDiffer(g, m, n); }
    if n < m { SlotsDiffer(g, n, m); }
    Spliced(bytes, at, s, g.dataOffset + SlotAt(g, m), g.dataOffset + SlotAt(g, m) + g.pktSize);
    Spliced(bytes, at, s, at + |s|, at + g.pktSize);
    var bytes' := Splice(bytes, at, s);
    assert bytes'[at..at + g.pktSize] == bytes'[at..at + |s|] + bytes'[at + |s|..at + g.pktSize];
    assert SlotOf(g, bytes, n)[|s|..] == bytes[at + |s|..at + g.pktSize];
  }

  /** A new packet changes the header of its stream's last packet, and no other slot. */
  lemma HeadersAfter(g: Geometry, h: seq<Packet>, p: Packet, n: nat)
    requires Sound(g) && n < |h|
    ensures HeaderAt(g, h + [p], n) == if n == LastOf(h, p.sid) then HeaderAt(g, h, n).(nextInStream := SlotAt(g, |h|)) else HeaderAt(g, h, n)
  {
    hide SlotAt;
    NextOfAppend(h, p, h[n].sid, n + 1);
    var last := LastOf(h, p.sid);
    assert n < last && h[n].sid == p.sid ==> NextOf(h, p.sid, n + 1) <= last;
    assert n == last ==> NextOf(h, p.sid, n + 1) == |h|;
  }

  lemma NewHeader(g: Geometry, h: seq<Packet>, p: Packet)
    requires Sound(g)
    ensures HeaderAt(g, h + [p], |h|) == Header(SlotAt(g, |h|), p.id, p.time, -1, p.sid, p.dataStart, p.dataEnd, |p.payload|)
  {
  }

  /** The new packet goes into the next slot. */
  function Stored(g: Geometry, h: seq<Packet>, bytes: seq<byte>, p: Packet): (bytes': seq<byte>)
    requires BigEnough(g, bytes) && GoodPacket(g, p)
    ensures |bytes'| == |bytes|
  {
    var slot := SlotBytes(g, h + [p], |h|);
    SlotWritten(g, bytes, |h|, slot, 0);
    Splice(bytes, g.dataOffset + SlotAt(g, |h|), slot)
  }

  /** The bytes after a write: the new packet stored, then its stream's previous packet told where the new one is. */
  function BytesAfter(g: Geometry, h: seq<Packet>, b: nat, bytes: seq<byte>, p: Packet): (bytes': seq<byte>)
    requires BigEnough(g, bytes) && GoodPacket(g, p) && GoodHistory(g, h)
    ensures |bytes'| == |bytes|
  {
    var stored, prev := Stored(g, h, bytes, p), LastOf(h, p.sid);
    if prev < b then stored else
      GoodOne(g, h, prev);
      Splice(stored, g.dataOffset + SlotAt(g, prev), HeaderBytes(HeaderAt(g, h, prev).(nextInStream := SlotAt(g, |h|))))
  }

  /** The first bytes of a slot are its header. */
  lemma SlotHeader(g: Geometry, bytes: seq<byte>, n: nat)
    requires BigEnough(g, bytes) && g.pktSize >= HEADER_SIZE
    ensures var at := g.dataOffset + SlotAt(g, n);
      at + HEADER_SIZE <= |bytes| && bytes[at..at + HEADER_SIZE] == SlotOf(g, bytes, n)[..HEADER_SIZE]
  {
  }

  /** Storing the new packet leaves the previous one's header readable where it was. */
  lemma PreviousStored(g: Geometry, h: seq<Packet>, b: nat, bytes: seq<byte>, p: Packet)
    requires SlotsHold(g, h, b, bytes) && GoodPacket(g, p) && b <= LastOf(h, p.sid) && |h| < b + g.maxPackets
    ensures var prev, stored := LastOf(h, p.sid), Stored(g, h, bytes, p);
      var at := g.dataOffset + SlotAt(g, prev);
      && at + HEADER_SIZE <= |stored| && DecodeHeader(stored[at..at + HEADER_SIZE]) == HeaderAt(g, h, prev)
      && InRange(HeaderAt(g, h, prev))
  {
    hide SlotAt, HeaderBytes, DecodeHeader, Splice, HeaderAt, GoodSid, SlotBytes, SlotsHold, LastOf, SlotOf;
    var prev := LastOf(h, p.sid);
    SlotsMeans(g, h, b, bytes);
    SlotsDiffer(g, prev, |h|);
    SlotWritten(g, bytes, |h|, SlotBytes(g, h + [p], |h|), prev);
    SlotRead(g, h, b, bytes, prev);
    GoodOne(g, h, prev);
    SlotHeader(g, bytes, prev);
    SlotHeader(g, Stored(g, h, bytes, p), prev);
  }

  lemma SlotsMeans(g: Geometry, h: seq<Packet>, b: nat, bytes: seq<byte>)
    requires SlotsHold(g, h, b, bytes)
    ensures BigEnough(g, bytes) && GoodHistory(g, h)
  {
  }

  /** Slot n after the write, for each n. */
  lemma AppendSlot(g: Geometry, h: seq<Packet>, b: nat, bytes: seq<byte>, p: Packet, n: nat)
    requires SlotsHold(g, h, b, bytes) && GoodPacket(g, p) && b <= |h| < b + g.maxPackets && b <= n <= |h|
    ensures GoodHistory(g, h + [p])
    ensures SlotOf(g, BytesAfter(g, h, b, bytes, p), n) == SlotBytes(g, h + [p], n)
  {
    hide SlotAt, HeaderBytes, HeaderAt, SlotOf, Splice, GoodSid;
    var h', prev := h + [p], LastOf(h, p.sid);
    GoodAppend(g, h, p);
    var written := SlotBytes(g, h', |h|);
    SlotWritten(g, bytes, |h|, written, n);
    var stored := Stored(g, h, bytes, p);
    assert written + SlotOf(g, bytes, |h|)[|written|..] == written;
    if n < |h| {
      SlotsDiffer(g, n, |h|);
      HeadersAfter(g, h, p, n);
      assert SlotOf(g, bytes, n) == SlotBytes(g, h, n);
    }
    if prev >= b {
      GoodOne(g, h, prev);
      HeadersAfter(g, h, p, prev);
      SlotsDiffer(g, prev, |h|);
      if n < prev { SlotsDiffer(g, n, prev); }
      if prev < n { SlotsDiffer(g, prev, n); }
      SlotWritten(g, stored, prev, HeaderBytes(HeaderAt(g, h', prev)), n);
    }
  }

  lemma AppendHolds(g: Geometry, h: seq<Packet>, b: nat, bytes: seq<byte>, p: Packet)
    requires SlotsHold(g, h, b, bytes) && GoodPacket(g, p) && b <= |h| < b + g.maxPackets
    ensures SlotsHold(g, h + [p], b, BytesAfter(g, h, b, bytes, p))
  {
    hide SlotAt, GoodPacket, HeaderAt, SlotOf, SlotBytes, BytesAfter;
    var h', bytes' := h + [p], BytesAfter(g, h, b, bytes, p);
    GoodAppend(g, h, p);
    forall n {:trigger SlotOf(g, bytes', n)} | b <= n < |h'| ensures SlotOf(g, bytes', n) == SlotBytes(g, h', n) {
      AppendSlot(g, h, b, bytes, p, n);
    }
  }

  lemma GoodAppend(g: Geometry, h: seq<Packet>, p: Packet)
    requires GoodHistory(g, h) && GoodPacket(g, p)
    ensures GoodHistory(g, h + [p])
  {
  }
}
