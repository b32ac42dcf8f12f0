/** Reading the ring: the next matching packet, and lookup by id. */
module RingReading {
  import opened LittleEndian
  import opened Options
  import opened RingTypes
  import opened RingHistory
  import opened RingIndex
  import opened RingBuffer

  /** A compiled expression, as far as the ring sees it: the stream ids it matches. */
  type Pattern = string -> bool

  datatype Filter = Filter(limit: Option<Pattern>, accept: Option<Pattern>, reject: Option<Pattern>)

  predicate Passes(f: Filter, sid: string) {
    && (f.limit.Some? ==> f.limit.value(sid))
    && (f.accept.Some? ==> f.accept.value(sid))
    && (f.reject.Some? ==> !f.reject.value(sid))
  }

  class RingReader {
    var pktOffset: int
    var pktId: int
    var pktTime: int
    var dataStart: int
    var dataEnd: int
    var filter: Filter

    constructor (pktId: int, filter: Filter)
      ensures this.pktOffset == -1 && this.pktId == pktId && this.filter == filter
    {
      this.pktOffset, this.pktId, this.filter := -1, pktId, filter;
      pktTime, dataStart, dataEnd := UNSET, UNSET, UNSET;
    }

    /** The packet it has read last. */
    function At(): Mark
      reads this
    {
      Mark(pktId, pktTime, dataStart, dataEnd, pktOffset)
    }
  }

  // ---------- which packet comes next ----------

  /** The first packet from number n on that the filter lets through; |h| if there is none. */
  function NextMatch(h: seq<Packet>, f: Filter, n: nat): (m: nat)
    requires n <= |h|
    ensures n <= m <= |h| && (m < |h| ==> Passes(f, h[m].sid))
    ensures forall k :: n <= k < m ==> !Passes(f, h[k].sid)
    decreases |h| - n
  {
    if n == |h| || Passes(f, h[n].sid) then n else NextMatch(h, f, n + 1)
  }

  lemma {:induction false} NextMatchIs(h: seq<Packet>, f: Filter, n: nat, m: nat)
    requires n <= m <= |h| && (m < |h| ==> Passes(f, h[m].sid)) && forall k :: n <= k < m ==> !Passes(f, h[k].sid)
    ensures NextMatch(h, f, n) == m
    decreases m - n
  {
    if n < m { NextMatchIs(h, f, n + 1, m); }
  }

  /** The last packet written at this offset; -1 if none ever was. */
  function Occupant(g: Geometry, h: seq<Packet>, offset: int): (n: int)
    requires Sound(g)
    ensures -1 <= n < |h| && (n >= 0 ==> SlotAt(g, n) == offset)
    ensures forall k {:trigger SlotAt(g, k)} :: n < k < |h| ==> SlotAt(g, k) != offset
  {
    if h == [] then -1 else if SlotAt(g, |h| - 1) == offset then |h| - 1 else Occupant(g, h[..|h| - 1], offset)
  }

  /** A packet is still the occupant of its slot exactly as long as it is live. */
  lemma OccupantIs(g: Geometry, h: seq<Packet>, n: nat)
    requires Sound(g) && n < |h|
    ensures Occupant(g, h, SlotAt(g, n)) == n <==> FirstLive(g, h) <= n
    ensures FirstLive(g, h) <= Occupant(g, h, SlotAt(g, n))
  {
    hide SlotAt;
    var o := Occupant(g, h, SlotAt(g, n));
    assert n <= o;
    if n < o { SlotsDiffer(g, n, o); }
    if n + g.maxPackets < |h| {
      SlotsDiffer(g, n, n + g.maxPackets);
    }
    if 0 <= o && o + g.maxPackets < |h| {
      SlotsDiffer(g, o, o + g.maxPackets);
    }
  }

  /** Where a read starts looking, for a reader with an offset or asking for the latest or earliest packet.
      Asking for the earliest packet of a ring whose slots are all in use looks at nothing. */
  function StartOf(g: Geometry, h: seq<Packet>, at: Mark): (n: nat)
    requires Sound(g) && h != []
    ensures n <= |h|
  {
    if at.offset >= 0 then Occupant(g, h, at.offset) + 1
    else if at.id == RINGID_LATEST then |h| - 1
    else if |h| < g.maxPackets then 0 else |h|
  }

  /** No live packet was written later than the latest one. */
  ghost predicate NoneNewer(g: Geometry, h: seq<Packet>) {
    forall n :: FirstLive(g, h) <= n < |h| ==> h[n].time <= h[|h| - 1].time
  }

  /** Readers get their offsets from this ring. */
  ghost predicate Placed(g: Geometry, h: seq<Packet>, at: Mark) {
    Sound(g) && (at.offset >= 0 ==> Occupant(g, h, at.offset) >= 0)
  }

  lemma StartInWindow(g: Geometry, h: seq<Packet>, at: Mark)
    requires Sound(g) && h != [] && Placed(g, h, at)
    ensures StartOf(g, h, at) == |h| || FirstLive(g, h) <= StartOf(g, h, at)
    ensures StartOf(g, h, at) < |h| && FirstLive(g, h) == StartOf(g, h, at) ==> |h| < g.maxPackets
    ensures at.offset < 0 && at.id != RINGID_LATEST ==> (StartOf(g, h, at) == |h| <==> SlotAt(g, FirstLive(g, h)) == SlotAt(g, |h|))
  {
    hide SlotAt;
    SlotsDiffer(g, FirstLive(g, h), |h|);
    if at.offset >= 0 {
      OccupantIs(g, h, Occupant(g, h, at.offset));
    }
  }

  /** Written later than the latest packet, which takes a clock that has gone back. */
  predicate Newer(h: seq<Packet>, n: int)
    requires 0 <= n < |h|
  {
    h[n].time > h[|h| - 1].time
  }

  /** The first packet from number n on that is newer than the latest; |h| if there is none. */
  function NextNewer(h: seq<Packet>, n: nat): (x: nat)
    requires n <= |h|
    ensures n <= x <= |h| && (x < |h| ==> Newer(h, x))
    ensures forall k :: n <= k < x ==> !Newer(h, k)
    decreases |h| - n
  {
    if n == |h| || Newer(h, n) then n else NextNewer(h, n + 1)
  }

  lemma {:induction false} NextNewerIs(h: seq<Packet>, n: nat, x: nat)
    requires n <= x <= |h| && (x < |h| ==> Newer(h, x)) && forall k :: n <= k < x ==> !Newer(h, k)
    ensures NextNewer(h, n) == x
    decreases x - n
  {
    if n < x { NextNewerIs(h, n + 1, x); }
  }

  /** What a read finds: a packet, or none, with the reader left on some packet. */
  datatype Found = Delivered(n: nat) | Nothing(at: Mark)

  /** The reader where the scan from s left it on meeting packet m: on the one before, or where it was. */
  function LeftAt(g: Geometry, h: seq<Packet>, s: nat, m: nat, was: Mark): Mark
    requires Sound(g) && s <= m <= |h|
  {
    if m == s then was else MarkOf(g, h, m - 1)
  }

  /** What a read that starts looking at packet s finds. Without newer packets in the way, the first that the filter passes.
      A newer one before that sends it back to the earliest packet: on a full ring that is where the scan ends; if the
      earliest is a newer one, too, the scan gives up; else it starts over from there. */
  function Finds(g: Geometry, h: seq<Packet>, f: Filter, s: nat, was: Mark): (found: Found)
    requires Sound(g) && s <= |h|
    ensures found.Delivered? ==> found.n <= |h|
  {
    var m, x := NextMatch(h, f, s), NextNewer(h, s);
    if m < x then Delivered(m)
    else if x == |h| || |h| >= g.maxPackets || Newer(h, 0) then Nothing(LeftAt(g, h, s, x, was))
    else Delivered(NextMatch(h, f, 0))
  }

  /** The scan that starts over meets a newer packet again before any that the filter passes, and so again and again. */
  predicate RunsForever(g: Geometry, h: seq<Packet>, f: Filter, s: nat)
    requires Sound(g) && s <= |h|
  {
    && |h| < g.maxPackets && NextNewer(h, s) < |h| && NextNewer(h, s) <= NextMatch(h, f, s)
    && !Newer(h, 0) && NextNewer(h, 0) <= NextMatch(h, f, 0)
  }

  lemma NoneNewerFinds(g: Geometry, h: seq<Packet>, f: Filter, s: nat, was: Mark)
    requires Sound(g) && s <= |h| && NoneNewer(g, h) && (s == |h| || FirstLive(g, h) <= s)
    ensures !RunsForever(g, h, f, s)
    ensures var m := NextMatch(h, f, s); Finds(g, h, f, s, was) == if m < |h| then Delivered(m) else Nothing(LeftAt(g, h, s, |h|, was))
  {
  }

  /** What such a read leaves in the caller's hands. */
  ghost predicate Outcome(ring: RingBuffer, reader: RingReader, packet: RingPacket, packetdata: array?<byte>, id: int, found: Found,
                          header: Header, bytes: seq<byte>)
    requires Sound(ring.g)
    reads ring, reader, packet, packetdata
  {
    var g, h := ring.g, ring.history;
    match found
    case Delivered(n) =>
      && n < |h| && id == h[n].id && reader.At() == MarkOf(g, h, n) && packet.Fields() == HeaderAt(g, h, n)
      && (packetdata != null ==> |h[n].payload| <= |bytes| && packetdata[..] == Splice(bytes, 0, h[n].payload))
    case Nothing(at) =>
      && id == RINGID_NONE && reader.At() == at && packet.Fields() == header
      && (packetdata != null ==> packetdata[..] == bytes)
  }

  // ---------- the turns of the scan ----------

  /** Where the scan stands before a turn: at which packet, and how often in a row it has been sent back. */
  datatype Place = Place(m: nat, skipped: nat)

  predicate AtPlace(g: Geometry, h: seq<Packet>, p: Place) {
    FirstLive(g, h) <= p.m <= |h|
  }

  /** One turn of the scan; None when it is the last. */
  function Turn(g: Geometry, h: seq<Packet>, f: Filter, p: Place): (next: Option<Place>)
    requires Sound(g) && h != [] && AtPlace(g, h, p)
    ensures next.Some? ==> AtPlace(g, h, next.value)
  {
    if SlotAt(g, p.m) == SlotAt(g, |h|) then None
    else if Newer(h, p.m) then if p.skipped + 1 >= 100 then None else Some(Place(FirstLive(g, h), p.skipped + 1))
    else if Passes(f, h[p.m].sid) then None
    else Some(Place(p.m + 1, 0))
  }

  function Turns(g: Geometry, h: seq<Packet>, f: Filter, p: Place, n: nat): (now: Option<Place>)
    requires Sound(g) && h != [] && AtPlace(g, h, p)
    ensures now.Some? ==> AtPlace(g, h, now.value)
  {
    if n == 0 then Some(p) else match Turns(g, h, f, p, n - 1)
      case None => None
      case Some(q) => Turn(g, h, f, q)
  }

  lemma {:induction false} TurnFirst(g: Geometry, h: seq<Packet>, f: Filter, p: Place, n: nat)
    requires Sound(g) && h != [] && AtPlace(g, h, p)
    ensures Turns(g, h, f, p, n + 1) == match Turn(g, h, f, p) case None => None case Some(q) => Turns(g, h, f, q, n)
  {
    hide Turn;
    if n > 0 { TurnFirst(g, h, f, p, n - 1); }
  }

  /** On the round that never ends: between the start or the earliest packet and the next newer one. */
  ghost predicate OnRound(h: seq<Packet>, s: nat, p: Place)
    requires s <= |h|
  {
    && p.skipped <= (if p.m == 0 then 1 else 0)
    && (p.m <= NextNewer(h, 0) || s <= p.m <= NextNewer(h, s))
  }

  lemma {:induction false} NeverEnds(g: Geometry, h: seq<Packet>, f: Filter, s: nat, n: nat)
    requires Sound(g) && h != [] && FirstLive(g, h) <= s <= |h| && RunsForever(g, h, f, s)
    ensures var now := Turns(g, h, f, Place(s, 0), n); now.Some? && OnRound(h, s, now.value)
  {
    hide SlotAt, Passes, Newer;
    if n > 0 {
      NeverEnds(g, h, f, s, n - 1);
      var p := Turns(g, h, f, Place(s, 0), n - 1).value;
      SlotsDiffer(g, p.m, |h|);
    }
  }

  /** Where a scan that began at packet s is, before and after it was first sent back. */
  ghost predicate OnTrack(g: Geometry, h: seq<Packet>, f: Filter, s: nat, p: Place, back: bool)
    requires Sound(g) && h != []
  {
    && FirstLive(g, h) <= s <= |h| && AtPlace(g, h, p)
    && if !back then
         s <= p.m && p.skipped == 0 && forall k :: s <= k < p.m ==> !Passes(f, h[k].sid) && !Newer(h, k)
       else
         && NextNewer(h, s) < |h| && NextNewer(h, s) <= NextMatch(h, f, s) && 0 <= p.skipped < 100
         && if |h| >= g.maxPackets then p.m == FirstLive(g, h) else if Newer(h, 0) then p.m == 0 else p.m <= NextMatch(h, f, 0)
  }

  /** And where the reader is then. */
  ghost function ReaderAt(g: Geometry, h: seq<Packet>, s: nat, p: Place, back: bool, was: Mark): Mark
    requires Sound(g) && h != [] && s <= |h| && AtPlace(g, h, p) && (!back ==> s <= p.m)
  {
    if !back then LeftAt(g, h, s, p.m, was)
    else if p.m == FirstLive(g, h) then LeftAt(g, h, s, NextNewer(h, s), was)
    else MarkOf(g, h, p.m - 1)
  }

  /** A start in the window that the end marker does not hide. */
  ghost predicate GoodStart(g: Geometry, h: seq<Packet>, s: nat)
    requires Sound(g)
  {
    s == |h| || (FirstLive(g, h) <= s < |h| && (s == FirstLive(g, h) ==> |h| < g.maxPackets))
  }

  /** The end marker, seen from a place in the window. */
  lemma EndSeen(g: Geometry, h: seq<Packet>, m: nat)
    requires Sound(g) && h != [] && FirstLive(g, h) <= m <= |h|
    ensures SlotAt(g, m) == SlotAt(g, |h|) <==> m == |h| || (m == FirstLive(g, h) && |h| >= g.maxPackets)
  {
    hide SlotAt;
    if m < |h| { SlotsDiffer(g, m, |h|); }
  }

  /** Closer to the end of the scan. */
  predicate Further(p: Place, back: bool, q: Place, back': bool) {
    if back == back' then q.m > p.m || (q.m == p.m && q.skipped > p.skipped) else back'
  }

  lemma TrackTurn(g: Geometry, h: seq<Packet>, f: Filter, s: nat, p: Place, back: bool, was: Mark)
    requires Sound(g) && h != [] && GoodStart(g, h, s) && OnTrack(g, h, f, s, p, back) && !RunsForever(g, h, f, s)
    ensures match Turn(g, h, f, p)
            case None =>
              Finds(g, h, f, s, was) == (if SlotAt(g, p.m) != SlotAt(g, |h|) && !Newer(h, p.m) then Delivered(p.m)
                                         else Nothing(ReaderAt(g, h, s, p, back, was)))
            case Some(q) =>
              && p.m < |h| && OnTrack(g, h, f, s, q, back || Newer(h, p.m))
              && ReaderAt(g, h, s, q, back || Newer(h, p.m), was)
                 == (if Newer(h, p.m) then ReaderAt(g, h, s, p, back, was) else MarkOf(g, h, p.m))
              && Further(p, back, q, back || Newer(h, p.m))
  {
    hide SlotAt, Passes, Newer, MarkOf;
    EndSeen(g, h, p.m);
  }

  lemma {:induction false} Ends(g: Geometry, h: seq<Packet>, f: Filter, s: nat, p: Place, back: bool) returns (n: nat)
    requires Sound(g) && h != [] && GoodStart(g, h, s) && OnTrack(g, h, f, s, p, back) && !RunsForever(g, h, f, s)
    ensures Turns(g, h, f, p, n) == None
    decreases !back, |h| - p.m, 100 - p.skipped
  {
    hide SlotAt, Passes, Newer, MarkOf, Turn, RunsForever, Finds, ReaderAt;
    TrackTurn(g, h, f, s, p, back, NO_MARK);
    n := 0;
    match Turn(g, h, f, p) {
      case None =>
      case Some(q) =>
        TrackRoom(g, h, f, s, q, back || Newer(h, p.m));
        n := Ends(g, h, f, s, q, back || Newer(h, p.m));
    }
    TurnFirst(g, h, f, p, n);
    n := n + 1;
  }

  lemma TrackRoom(g: Geometry, h: seq<Packet>, f: Filter, s: nat, p: Place, back: bool)
    requires Sound(g) && h != [] && OnTrack(g, h, f, s, p, back)
    ensures p.m <= |h| && p.skipped < 100
  {
  }

  /** The scan ends after some number of turns exactly when it does not run forever. */
  lemma EndsExactly(g: Geometry, h: seq<Packet>, f: Filter, s: nat)
    requires Sound(g) && h != [] && GoodStart(g, h, s)
    ensures (exists n: nat :: Turns(g, h, f, Place(s, 0), n) == None) <==> !RunsForever(g, h, f, s)
  {
    hide Turn, RunsForever;
    if RunsForever(g, h, f, s) {
      forall n: nat ensures Turns(g, h, f, Place(s, 0), n) != None {
        NeverEnds(g, h, f, s, n);
      }
    } else {
      var n := Ends(g, h, f, s, Place(s, 0), false);
    }
  }

  // ---------- ReadNext ----------

  /** The three expressions in the order the ring tries them. */
  method Skips(reader: RingReader, streamId: string) returns (skip: bool)
    ensures skip == !Passes(reader.filter, streamId)
  {
    skip := false;
    if reader.filter.limit.Some? {
      if !reader.filter.limit.value(streamId) {
        skip := true;
      }
    }
    if reader.filter.accept.Some? && !skip {
      if !reader.filter.accept.value(streamId) {
        skip := true;
      }
    }
    if reader.filter.reject.Some? && !skip {
      if reader.filter.reject.value(streamId) {
        skip := true;
      }
    }
  }

  /** Copy a live packet's header fields and data to the caller. */
  method CopyOut(ring: RingBuffer, pkt: RingPacket, offset: int, packet: RingPacket, packetdata: array?<byte>, ghost b: nat, ghost n: nat)
    requires SlotsHold(ring.g, ring.history, b, ring.data[..]) && b <= n < |ring.history| && offset == SlotAt(ring.g, n)
    requires pkt.Fields() == HeaderAt(ring.g, ring.history, n) && pkt != packet && packetdata != ring.data
    requires packetdata != null ==> packetdata.Length >= ring.g.pktSize - HEADER_SIZE
    modifies packet, packetdata
    ensures packet.Fields() == HeaderAt(ring.g, ring.history, n)
    ensures packetdata != null ==> packetdata[..] == Splice(old(packetdata[..]), 0, ring.history[n].payload)
  {
    hide SlotAt, HeaderBytes, DecodeHeader, GoodSid, NextOf;
    ghost var payload := ring.history[n].payload;
    SlotRead(ring.g, ring.history, b, ring.data[..], n);
    GoodOne(ring.g, ring.history, n);
    packet.offset, packet.pktId, packet.pktTime, packet.nextInStream := pkt.offset, pkt.pktId, pkt.pktTime, pkt.nextInStream;
    packet.streamId, packet.dataStart, packet.dataEnd, packet.dataSize := pkt.streamId, pkt.dataStart, pkt.dataEnd, pkt.dataSize;
    if packetdata != null {
      var bufOffset := ring.g.dataOffset + offset + HEADER_SIZE;
      assert ring.data[bufOffset..bufOffset + |payload|] == ring.data[..][bufOffset..bufOffset + |payload|];
      if pkt.dataSize > 0 {
        PutBytes(packetdata, 0, ring.data[bufOffset..bufOffset + pkt.dataSize]);
      } else {
        assert packetdata[..] == Splice(packetdata[..], 0, payload);
      }
    }
  }

  /** Put the reader on packet m and try the expressions on it. */
  method Visit(ring: RingBuffer, reader: RingReader, pkt: RingPacket, offset: int, ghost m: nat) returns (skip: bool)
    requires Sound(ring.g) && m < |ring.history| && offset == SlotAt(ring.g, m)
    requires pkt.Fields() == HeaderAt(ring.g, ring.history, m)
    modifies reader
    ensures reader.At() == MarkOf(ring.g, ring.history, m) && reader.filter == old(reader.filter)
    ensures skip == !Passes(reader.filter, ring.history[m].sid)
  {
    hide SlotAt, NextOf, Passes;
    reader.pktOffset, reader.pktId, reader.pktTime := offset, pkt.pktId, pkt.pktTime;
    reader.dataStart, reader.dataEnd := pkt.dataStart, pkt.dataEnd;
    skip := Skips(reader, pkt.streamId);
  }

  /** The scan: from packet number s on, skip what the filter does not pass; on meeting a packet newer than the latest one,
      which the source takes for an overwritten slot, go back to the earliest packet. */
  method Scan(ring: RingBuffer, reader: RingReader, packet: RingPacket, packetdata: array?<byte>, offset0: int, ghost s: nat)
    returns (id: int, ghost turns: nat)
    requires ring.Valid() && packetdata != ring.data
    requires packetdata != null ==> packetdata.Length >= ring.g.pktSize - HEADER_SIZE
    requires ring.history != [] && GoodStart(ring.g, ring.history, s) && offset0 == SlotAt(ring.g, s)
    requires !RunsForever(ring.g, ring.history, reader.filter, s)
    modifies reader, packet, packetdata
    ensures Outcome(ring, reader, packet, packetdata, id, Finds(ring.g, ring.history, reader.filter, s, old(reader.At())),
                    old(packet.Fields()), if packetdata == null then [] else old(packetdata[..]))
    ensures reader.filter == old(reader.filter)
    ensures Turns(ring.g, ring.history, reader.filter, Place(s, 0), turns) == None
  {
    hide SlotAt, NextOffset, NextMatch, NextNewer, SlotsHold, IndexOf, HeaderAt, Passes, OnTrack, ReaderAt, Turn, Finds, RunsForever, MarkOf;
    ghost var g, h, b, f := ring.g, ring.history, FirstLive(ring.g, ring.history), reader.filter;
    NextSlot(g, |h| - 1);
    EndsOfRing(ring);
    var eobOffset := NextOffset(ring.latest.offset, ring.maxOffset, ring.g.pktSize);
    var offset, skipped := offset0, 0;
    ghost var m, back := s, false;
    turns := 0;
    TrackBegins(g, h, f, s, reader.At());
    while offset != eobOffset
      invariant b <= m <= |h| && 0 <= skipped <= 100 && offset == SlotAt(g, m) && OnTrack(g, h, f, s, Place(m, skipped), back)
      invariant !back ==> s <= m
      invariant reader.filter == f && reader.At() == ReaderAt(g, h, s, Place(m, skipped), back, old(reader.At()))
      invariant packet.Fields() == old(packet.Fields()) && (packetdata != null ==> packetdata[..] == old(packetdata[..]))
      invariant Turns(g, h, f, Place(s, 0), turns) == Some(Place(m, skipped))
      decreases !back, |h| - m, 100 - skipped
    {
      TrackTurn(g, h, f, s, Place(m, skipped), back, old(reader.At()));
      TurnHere(g, h, f, Place(m, skipped));
      turns := turns + 1;
      var pkt := ring.ReadLive(offset, b, m);
      PacketNewer(g, h, m);
      if pkt.pktTime > ring.latest.pTime {
        offset := ring.earliest.offset;
        skipped := skipped + 1;
        if skipped >= 100 {
          return RINGID_NONE, turns;
        }
        m, back := b, true;
      } else {
        skipped := 0;
        var skip := Visit(ring, reader, pkt, offset, m);
        if !skip {
          CopyOut(ring, pkt, offset, packet, packetdata, b, m);
          return packet.pktId, turns;
        }
        NextSlot(g, m);
        offset := NextOffset(offset, ring.maxOffset, ring.g.pktSize);
        m := m + 1;
      }
    }
    TrackTurn(g, h, f, s, Place(m, skipped), back, old(reader.At()));
    TurnHere(g, h, f, Place(m, skipped));
    turns := turns + 1;
    id := RINGID_NONE;
  }

  lemma EndsOfRing(ring: RingBuffer)
    requires ring.Valid() && ring.history != []
    ensures ring.earliest == MarkOf(ring.g, ring.history, FirstLive(ring.g, ring.history))
    ensures ring.latest == MarkOf(ring.g, ring.history, |ring.history| - 1)
    ensures ring.earliest.offset == SlotAt(ring.g, FirstLive(ring.g, ring.history)) && ring.latest.offset == SlotAt(ring.g, |ring.history| - 1)
    ensures ring.latest.pTime == ring.history[|ring.history| - 1].time
  {
    hide SlotAt, SlotsHold, IndexOf;
  }

  lemma PacketNewer(g: Geometry, h: seq<Packet>, m: nat)
    requires Sound(g) && m < |h|
    ensures HeaderAt(g, h, m).pktTime > h[|h| - 1].time <==> Newer(h, m)
    ensures HeaderAt(g, h, m).pktId == h[m].id
  {
  }

  lemma TrackBegins(g: Geometry, h: seq<Packet>, f: Filter, s: nat, was: Mark)
    requires Sound(g) && h != [] && GoodStart(g, h, s)
    ensures OnTrack(g, h, f, s, Place(s, 0), false) && ReaderAt(g, h, s, Place(s, 0), false, was) == was
    ensures Turns(g, h, f, Place(s, 0), 0) == Some(Place(s, 0))
  {
  }

  /** The turn in its cases. */
  lemma TurnHere(g: Geometry, h: seq<Packet>, f: Filter, p: Place)
    requires Sound(g) && h != [] && AtPlace(g, h, p)
    ensures SlotAt(g, p.m) == SlotAt(g, |h|) ==> Turn(g, h, f, p) == None
    ensures SlotAt(g, p.m) != SlotAt(g, |h|) ==>
      p.m < |h| && Turn(g, h, f, p) == if Newer(h, p.m) then if p.skipped + 1 >= 100 then None else Some(Place(FirstLive(g, h), p.skipped + 1))
                                       else if Passes(f, h[p.m].sid) then None else Some(Place(p.m + 1, 0))
  {
  }

  /** The reader waits for packets newer than the latest one. */
  method StartAtLatest(ring: RingBuffer, reader: RingReader)
    requires ring.Valid() && ring.history != []
    modifies reader
    ensures reader.At() == ring.latest && reader.filter == old(reader.filter)
  {
    hide SlotAt, SlotsHold, IndexOf;
    var latest := ring.latest;
    reader.pktOffset, reader.pktId, reader.pktTime := latest.offset, latest.id, latest.pTime;
    reader.dataStart, reader.dataEnd := latest.dsTime, latest.deTime;
  }

  /** A read that would not return. */
  ghost predicate Hangs(g: Geometry, h: seq<Packet>, f: Filter, at: Mark)
    requires Sound(g)
  {
    && h != [] && (at.offset >= 0 || at.id == RINGID_LATEST || at.id == RINGID_EARLIEST)
    && RunsForever(g, h, f, StartOf(g, h, at))
  }

  /** For example: three packets, the second written a second after the others by the clock, and a client that wants another
      stream asks for the earliest packet. */
  lemma HangsAfterClockStep(g: Geometry, f: Filter, at: Mark)
    requires Sound(g) && g.maxPackets > 3 && at.offset < 0 && at.id == RINGID_EARLIEST
    requires !Passes(f, "FDSN:XX_A__H_H_Z")
    ensures var p := Packet(1, 0, "FDSN:XX_A__H_H_Z", 0, 0, []);
      Hangs(g, [p, p.(id := 2, time := 1_000_000_000), p.(id := 3)], f, at)
  {
    var p := Packet(1, 0, "FDSN:XX_A__H_H_Z", 0, 0, []);
    var h := [p, p.(id := 2, time := 1_000_000_000), p.(id := 3)];
    NextMatchIs(h, f, 0, 3);
    NextNewerIs(h, 0, 1);
  }

  /** What a read that returns leaves behind, by where the reader was. The five highest ids, from the top, are an error, none,
      and the earliest, the latest and the next packet. */
  ghost predicate ReadResult(ring: RingBuffer, reader: RingReader, packet: RingPacket, packetdata: array?<byte>, id: int, was: Mark,
                             header: Header, bytes: seq<byte>)
    requires Sound(ring.g)
    reads ring, reader, packet, packetdata
  {
    var h := ring.history;
    var quiet := packet.Fields() == header && (packetdata != null ==> packetdata[..] == bytes);
    if h == [] then
      quiet && id == 0xFFFF_FFFF_FFFF_FFFE && reader.At() == if was.offset < 0 && was.id == 0xFFFF_FFFF_FFFF_FFFB then was.(id := 0xFFFF_FFFF_FFFF_FFFD) else was
    else if was.offset < 0 && was.id == 0xFFFF_FFFF_FFFF_FFFB then
      quiet && id == 0xFFFF_FFFF_FFFF_FFFE && reader.At() == MarkOf(ring.g, h, |h| - 1)
    else if was.offset < 0 && was.id != 0xFFFF_FFFF_FFFF_FFFC && was.id != 0xFFFF_FFFF_FFFF_FFFD then
      quiet && id == 0xFFFF_FFFF_FFFF_FFFF && reader.At() == was
    else
      Outcome(ring, reader, packet, packetdata, id, Finds(ring.g, h, reader.filter, StartOf(ring.g, h, was), was), header, bytes)
  }

  /** RingReadNext. */
  method ReadNext(ring: RingBuffer, reader: RingReader, packet: RingPacket, packetdata: array?<byte>) returns (id: int)
    requires Placed(ring.g, ring.history, reader.At()) && !Hangs(ring.g, ring.history, reader.filter, reader.At())
    requires ring.Valid() && packetdata != ring.data && (packetdata != null ==> packetdata.Length >= ring.g.pktSize - HEADER_SIZE)
    modifies reader, packet, packetdata
    ensures reader.filter == old(reader.filter)
    ensures id != RINGID_NONE && id != RINGID_ERROR ==>
      var f, sid := reader.filter, packet.streamId;
      (f.limit.Some? ==> f.limit.value(sid)) && (f.accept.Some? ==> f.accept.value(sid)) && (f.reject.Some? ==> !f.reject.value(sid))
    ensures ReadResult(ring, reader, packet, packetdata, id, old(reader.At()), old(packet.Fields()),
                       if packetdata == null then [] else old(packetdata[..]))
  {
    hide SlotAt, NextOffset, NextMatch, SlotsHold, IndexOf, Outcome, Occupant, Finds, RunsForever;
    if ring.latest.offset < 0 {
      if reader.pktOffset < 0 && reader.pktId == RINGID_NEXT {
        reader.pktId := RINGID_EARLIEST;
      }
      return RINGID_NONE;
    }
    StartInWindow(ring.g, ring.history, reader.At());
    ghost var s := StartOf(ring.g, ring.history, reader.At());
    var offset;
    if reader.pktOffset < 0 {
      if reader.pktId == RINGID_NEXT {
        StartAtLatest(ring, reader);
        return RINGID_NONE;
      } else if reader.pktId == RINGID_LATEST {
        offset := ring.latest.offset;
      } else if reader.pktId == RINGID_EARLIEST {
        offset := ring.earliest.offset;
      } else {
        return RINGID_ERROR;
      }
    } else {
      NextSlot(ring.g, Occupant(ring.g, ring.history, reader.pktOffset));
      offset := NextOffset(reader.pktOffset, ring.maxOffset, ring.g.pktSize);
    }
    ghost var turns;
    id, turns := Scan(ring, reader, packet, packetdata, offset, s);
    DeliveredMeets(ring, reader, packet, packetdata, id, s, old(reader.At()), old(packet.Fields()),
                   if packetdata == null then [] else old(packetdata[..]));
  }

  lemma DeliveredMeets(ring: RingBuffer, reader: RingReader, packet: RingPacket, packetdata: array?<byte>, id: int, s: nat, was: Mark,
                       header: Header, bytes: seq<byte>)
    requires Sound(ring.g) && s <= |ring.history|
    requires Outcome(ring, reader, packet, packetdata, id, Finds(ring.g, ring.history, reader.filter, s, was), header, bytes)
    ensures id != RINGID_NONE ==>
      && (reader.filter.limit.Some? ==> reader.filter.limit.value(packet.streamId))
      && (reader.filter.accept.Some? ==> reader.filter.accept.value(packet.streamId))
      && (reader.filter.reject.Some? ==> !reader.filter.reject.value(packet.streamId))
  {
    hide SlotAt;
    FindsMeets(ring.g, ring.history, reader.filter, s, was);
  }

  /** What a read finds, by the three expressions: a packet that limit and match pass where they are set, and reject does not;
      and on the way to it, or to the end when no packet is newer than the latest one, none that meets this. */
  lemma FindsMeets(g: Geometry, h: seq<Packet>, f: Filter, s: nat, was: Mark)
    requires Sound(g) && s <= |h|
    ensures var found := Finds(g, h, f, s, was);
      var meets := (sid: string) => (f.limit.None? || f.limit.value(sid)) && (f.accept.None? || f.accept.value(sid))
                                    && (f.reject.None? || !f.reject.value(sid));
      && (found.Delivered? && found.n < |h| ==> meets(h[found.n].sid) && forall k :: s <= k < found.n ==> !meets(h[k].sid))
      && (found.Nothing? && NextNewer(h, s) == |h| ==> forall k :: s <= k < |h| ==> !meets(h[k].sid))
  {
  }

  /** A read of the latest packet gives that packet if the filter passes it, and else nothing. */
  lemma LatestFinds(g: Geometry, h: seq<Packet>, f: Filter, at: Mark)
    requires Sound(g) && h != [] && at.offset < 0 && at.id == 0xFFFF_FFFF_FFFF_FFFC
    ensures !Hangs(g, h, f, at)
    ensures var last := |h| - 1;
      Finds(g, h, f, StartOf(g, h, at), at) == if Passes(f, h[last].sid) then Delivered(last) else Nothing(MarkOf(g, h, last))
  {
    NextNewerIs(h, |h| - 1, |h|);
    NextMatchIs(h, f, |h| - 1, if Passes(f, h[|h| - 1].sid) then |h| - 1 else |h|);
  }

  /** A first read of the earliest packet returns with one exactly when not all slots are in use and some match has no packet
      newer than the latest one up to it; and then with the first match. */
  lemma EarliestFinds(g: Geometry, h: seq<Packet>, f: Filter, at: Mark)
    requires Sound(g) && h != [] && at.offset < 0 && at.id == 0xFFFF_FFFF_FFFF_FFFD
    ensures !Hangs(g, h, f, at) && Finds(g, h, f, StartOf(g, h, at), at).Delivered? <==>
            |h| < g.maxPackets && exists k :: 0 <= k < |h| && Passes(f, h[k].sid) && NoneNewerUpTo(h, k)
    ensures !Hangs(g, h, f, at) && Finds(g, h, f, StartOf(g, h, at), at).Delivered? ==>
            Finds(g, h, f, StartOf(g, h, at), at).n == NextMatch(h, f, 0) < |h|
  {
    hide Passes;
    var m, x := NextMatch(h, f, 0), NextNewer(h, 0);
    if m < x { assert Passes(f, h[m].sid) && NoneNewerUpTo(h, m); }
  }

  ghost predicate NoneNewerUpTo(h: seq<Packet>, k: int)
    requires 0 <= k < |h|
  {
    forall j :: 0 <= j <= k ==> !Newer(h, j)
  }

  /** For example: two packets that fill their ring both match, and neither is found. */
  lemma EarliestMissedWhenFull(g: Geometry, f: Filter, at: Mark, p: Packet)
    requires Sound(g) && g.maxPackets == 2 && at.offset < 0 && at.id == RINGID_EARLIEST && Passes(f, p.sid)
    ensures var h := [p, p.(id := 2)]; !Hangs(g, h, f, at) && Finds(g, h, f, StartOf(g, h, at), at) == Nothing(at)
  {
    var h := [p, p.(id := 2)];
    NextMatchIs(h, f, 2, 2);
    NextNewerIs(h, 2, 2);
  }

  /** And: two packets both match, slots are free, but the clock stepped back between them. */
  lemma EarliestMissedAfterClockStep(g: Geometry, f: Filter, at: Mark, p: Packet)
    requires Sound(g) && g.maxPackets > 2 && at.offset < 0 && at.id == RINGID_EARLIEST && Passes(f, p.sid) && p.time == 5
    ensures var h := [p, p.(id := 2, time := 0)]; !Hangs(g, h, f, at) && Finds(g, h, f, StartOf(g, h, at), at) == Nothing(at)
  {
    var h := [p, p.(id := 2, time := 0)];
    NextMatchIs(h, f, 0, 0);
    NextNewerIs(h, 0, 0);
  }

  /** A read gives the next match from where it starts, or nothing when there is none. */
  predicate GivesNext(g: Geometry, h: seq<Packet>, f: Filter, s: nat, was: Mark)
    requires Sound(g) && s <= |h|
  {
    var m := NextMatch(h, f, s);
    !RunsForever(g, h, f, s) && if m < |h| then Finds(g, h, f, s, was) == Delivered(m) else Finds(g, h, f, s, was).Nothing?
  }

  /** It does so exactly when no packet newer than the latest one comes first; where no match is left, also when one does, but
      slots are all in use or the earliest packet is a newer one. */
  lemma GivesNextExactly(g: Geometry, h: seq<Packet>, f: Filter, s: nat, was: Mark)
    requires Sound(g) && s <= |h|
    ensures var m, x := NextMatch(h, f, s), NextNewer(h, s);
      GivesNext(g, h, f, s, was) <==> m < x || x == |h| || (m == |h| && (|h| >= g.maxPackets || Newer(h, 0)))
  {
    hide Passes, Newer;
    NewerFromStart(g, h, f, s);
  }

  /** A read delivers something else exactly when it is sent back and finds a match before any newer packet; that match lies
      before the start, so the read goes back. */
  lemma GoesBackExactly(g: Geometry, h: seq<Packet>, f: Filter, s: nat, was: Mark)
    requires Sound(g) && s <= |h|
    ensures var found := Finds(g, h, f, s, was);
      !RunsForever(g, h, f, s) && found.Delivered? && found.n != NextMatch(h, f, s) <==>
      && |h| < g.maxPackets && NextNewer(h, s) < |h| && NextNewer(h, s) <= NextMatch(h, f, s) && !Newer(h, 0)
      && NextMatch(h, f, 0) < NextNewer(h, 0)
    ensures var found := Finds(g, h, f, s, was);
      !RunsForever(g, h, f, s) && found.Delivered? && found.n != NextMatch(h, f, s) ==> found.n == NextMatch(h, f, 0) < s
  {
    hide Passes, Newer;
    NewerFromStart(g, h, f, s);
  }

  lemma NewerFromStart(g: Geometry, h: seq<Packet>, f: Filter, s: nat)
    requires s <= |h|
    ensures NextNewer(h, 0) <= NextNewer(h, s) && NextMatch(h, f, 0) <= NextMatch(h, f, s)
    ensures s <= NextMatch(h, f, 0) ==> NextMatch(h, f, 0) == NextMatch(h, f, s)
  {
    hide Passes;
    if s <= NextMatch(h, f, 0) { NextMatchIs(h, f, s, NextMatch(h, f, 0)); }
  }

  /** For example: of three packets the second, of another stream, was written when the clock was ahead. A reader that has been
      given the first one is given it again at each read, and never the third. */
  lemma DeliveredAgain(g: Geometry, f: Filter, p: Packet, other: string)
    requires Sound(g) && g.maxPackets > 3 && Passes(f, p.sid) && !Passes(f, other) && p.time == 0
    ensures var h := [p, p.(id := 2, sid := other, time := 5), p.(id := 3)];
      var at := MarkOf(g, h, 0);
      !Hangs(g, h, f, at) && Finds(g, h, f, StartOf(g, h, at), at) == Delivered(0)
  {
    hide SlotAt;
    var h := [p, p.(id := 2, sid := other, time := 5), p.(id := 3)];
    OccupantIs(g, h, 0);
    NextMatchIs(h, f, 1, 2);
    NextNewerIs(h, 1, 1);
    NextMatchIs(h, f, 0, 0);
    NextNewerIs(h, 0, 1);
  }

  /** Where a read starts looking: after the packet now in the slot of the reader's packet. So between the two packets none is
      looked at, and none lies between exactly while the reader's packet is live. What is then found is a matter of Finds. */
  lemma ResumesAfter(g: Geometry, h: seq<Packet>, n: nat, at: Mark)
    requires Sound(g) && n < |h| && at.offset == SlotAt(g, n)
    ensures n < StartOf(g, h, at)
    ensures StartOf(g, h, at) == n + 1 <==> FirstLive(g, h) <= n
  {
    hide SlotAt;
    OccupantIs(g, h, n);
  }

  // ---------- lookup by id ----------

  /** The first packet from number n on with this id; |h| if there is none. */
  function NextWithId(h: seq<Packet>, id: int, n: nat): (m: nat)
    requires n <= |h|
    ensures n <= m <= |h| && (m < |h| ==> h[m].id == id)
    ensures forall k :: n <= k < m ==> h[k].id != id
    decreases |h| - n
  {
    if n == |h| || h[n].id == id then n else NextWithId(h, id, n + 1)
  }

  /** The scan from the earliest packet to the end finds the first packet with the id; but when all slots are in use
      the end is where it starts, and it finds none. */
  method FindOffsetForID(ring: RingBuffer, pktid: int) returns (offset: int, pkttime: int)
    requires ring.Valid()
    ensures var h := ring.history;
      var m := NextWithId(h, pktid, 0);
      if |h| < ring.g.maxPackets && m < |h| then offset == SlotAt(ring.g, m) && pkttime == h[m].time
      else offset == -1 && pkttime == -0x8000_0000_0000_0000
  {
    hide SlotAt, NextOffset, SlotsHold, IndexOf, NextOf, NextWithId, HeaderAt;
    ghost var g, h := ring.g, ring.history;
    pkttime := UNSET;
    if ring.earliest.offset < 0 || ring.latest.offset < 0 {
      NoId(h, pktid);
      return -1, pkttime;
    }
    NextSlot(g, |h| - 1);
    var eobOffset := NextOffset(ring.latest.offset, ring.maxOffset, ring.g.pktSize);
    offset := ring.earliest.offset;
    ghost var m := 0;
    EndIsAhead(g, h, 0);
    while offset != eobOffset
      invariant |h| >= g.maxPackets ==> offset == eobOffset
      invariant |h| < g.maxPackets ==> m <= |h| && offset == SlotAt(g, m) && (offset == eobOffset <==> m == |h|)
      invariant |h| < g.maxPackets ==> NextWithId(h, pktid, 0) == NextWithId(h, pktid, m)
      decreases |h| - m
    {
      var pkt := ring.ReadLive(offset, 0, m);
      NextWithIdStep(g, h, pktid, m);
      if pkt.pktId == pktid {
        return offset, pkt.pktTime;
      }
      NextSlot(g, m);
      EndIsAhead(g, h, m + 1);
      offset := NextOffset(offset, ring.maxOffset, ring.g.pktSize);
      m := m + 1;
      if offset == ring.earliest.offset {
        break;
      }
    }
    NoId(h, pktid);
    offset := -1;
  }

  lemma NoId(h: seq<Packet>, id: int)
    ensures NextWithId(h, id, |h|) == |h|
  {
  }

  lemma NextWithIdStep(g: Geometry, h: seq<Packet>, id: int, m: nat)
    requires Sound(g) && m < |h|
    ensures NextWithId(h, id, m) == if h[m].id == id then m else NextWithId(h, id, m + 1)
    ensures HeaderAt(g, h, m).pktId == h[m].id && HeaderAt(g, h, m).pktTime == h[m].time
  {
  }

  /** The end marker, seen from packet m: the start when all slots are in use, ahead otherwise. */
  lemma EndIsAhead(g: Geometry, h: seq<Packet>, m: nat)
    requires Sound(g) && h != [] && m <= |h|
    ensures |h| >= g.maxPackets ==> SlotAt(g, FirstLive(g, h)) == SlotAt(g, |h|)
    ensures |h| < g.maxPackets ==> (SlotAt(g, m) == SlotAt(g, |h|) <==> m == |h|)
    ensures |h| < g.maxPackets ==> (SlotAt(g, m) == SlotAt(g, 0) <==> m == 0)
  {
    hide SlotAt;
    SlotsDiffer(g, FirstLive(g, h), |h|);
    if m < |h| { SlotsDiffer(g, m, |h|); }
    if 0 < m { SlotsDiffer(g, 0, m); }
  }
}
