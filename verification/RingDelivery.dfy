/** Whole runs: any interleaving of writers with one reader that is never overtaken by a whole ring. */
module RingDelivery {
  import opened LittleEndian
  import opened RingTypes
  import opened RingHistory
  import opened RingIndex
  import opened RingBuffer
  import opened RingReading

  /** A writer puts a packet at some time, or the reader asks for its next one. */
  datatype Event = Put(f: Header, packetdata: seq<byte>, now: int) | Get

  /** The packets written, the number of the one the reader is on, and what it has been given. */
  datatype Course = Course(h: seq<Packet>, n: int, got: seq<Packet>)

  predicate Underway(c: Course) {
    0 <= c.n < |c.h|
  }

  function After(g: Geometry, f: Filter, c: Course, e: Event): (c': Course)
    requires Underway(c)
    ensures Underway(c')
  {
    match e
    case Put(header, packetdata, now) =>
      if 0 <= header.dataSize && HEADER_SIZE + header.dataSize <= g.pktSize
      then c.(h := c.h + [Written(c.h, header, packetdata, now)]) else c
    case Get =>
      var m := NextMatch(c.h, f, c.n + 1);
      if m < |c.h| then c.(n := m, got := c.got + [c.h[m]]) else c.(n := |c.h| - 1)
  }

  function Run(g: Geometry, f: Filter, c: Course, es: seq<Event>): (c': Course)
    requires Underway(c)
    ensures Underway(c')
  {
    if es == [] then c else After(g, f, Run(g, f, c, es[..|es| - 1]), es[|es| - 1])
  }

  /** The event may happen now: the clock has not gone back, and the reader's packet has not been overwritten. */
  ghost predicate Timely(g: Geometry, c: Course, e: Event) {
    && Underway(c)
    && match e
       case Put(f, packetdata, now) =>
         && Unsigned64(f.pktId) && Signed64(f.dataStart) && Signed64(f.dataEnd) && Signed64(now) && GoodSid(f.streamId)
         && 0 <= f.dataSize && HEADER_SIZE + f.dataSize < 0x1_0000_0000 && c.h[|c.h| - 1].time <= now
       case Get => FirstLive(g, c.h) <= c.n
  }

  ghost predicate AllTimely(g: Geometry, f: Filter, c: Course, es: seq<Event>) {
    Underway(c) && forall i {:trigger es[i]} :: 0 <= i < |es| ==> Timely(g, Run(g, f, c, es[..i]), es[i])
  }

  // ---------- exactly once ----------

  /** The packets numbered lo to hi-1 that the filter passes, in write order. */
  function Matches(f: Filter, h: seq<Packet>, lo: nat, hi: nat): seq<Packet>
    requires lo <= hi <= |h|
  {
    if lo == hi then [] else Matches(f, h, lo, hi - 1) + if Passes(f, h[hi - 1].sid) then [h[hi - 1]] else []
  }

  lemma {:induction false} MatchesPrefix(f: Filter, h: seq<Packet>, h': seq<Packet>, lo: nat, hi: nat)
    requires lo <= hi <= |h| && h <= h'
    ensures Matches(f, h', lo, hi) == Matches(f, h, lo, hi)
  {
    if lo < hi { MatchesPrefix(f, h, h', lo, hi - 1); }
  }

  /** Going on over packets that do not match adds nothing. */
  lemma {:induction false} MatchesSkip(f: Filter, h: seq<Packet>, lo: nat, mid: nat, hi: nat)
    requires lo <= mid <= hi <= |h| && forall k :: mid <= k < hi ==> !Passes(f, h[k].sid)
    ensures Matches(f, h, lo, hi) == Matches(f, h, lo, mid)
  {
    if mid < hi { MatchesSkip(f, h, lo, mid, hi - 1); }
  }

  lemma ExactlyOnceStep(g: Geometry, f: Filter, got: seq<Packet>, lo: nat, b: Course, e: Event)
    requires Underway(b) && lo <= b.n + 1 && b.got == got + Matches(f, b.h, lo, b.n + 1)
    ensures var c' := After(g, f, b, e);
      b.h <= c'.h && b.n <= c'.n && c'.got == got + Matches(f, c'.h, lo, c'.n + 1)
  {
    hide Passes, NextMatch;
    match e {
      case Put(header, packetdata, now) =>
        MatchesPrefix(f, b.h, After(g, f, b, e).h, lo, b.n + 1);
      case Get =>
        var m := NextMatch(b.h, f, b.n + 1);
        MatchesSkip(f, b.h, lo, b.n + 1, m);
        assert m < |b.h| ==> Matches(f, b.h, lo, m + 1) == Matches(f, b.h, lo, m) + [b.h[m]];
    }
  }

  /** Whatever the order of writes and reads, the reader has been given exactly the matching packets written after the one
      it started on, up to the one it is on now, each once and in write order. */
  lemma {:induction false} ExactlyOnce(g: Geometry, f: Filter, c: Course, es: seq<Event>)
    requires Underway(c)
    ensures var c' := Run(g, f, c, es);
      c.h <= c'.h && c.n <= c'.n && c'.got == c.got + Matches(f, c'.h, c.n + 1, c'.n + 1)
  {
    hide Passes, NextMatch, After;
    if es != [] {
      ExactlyOnce(g, f, c, es[..|es| - 1]);
      ExactlyOnceStep(g, f, c.got, c.n + 1, Run(g, f, c, es[..|es| - 1]), es[|es| - 1]);
    }
  }

  /** A read finds nothing just when no matching packet remains, and then everything that matches has been delivered. */
  lemma NothingRemains(g: Geometry, f: Filter, c: Course, es: seq<Event>)
    requires Underway(c) && es != [] && es[|es| - 1].Get?
    ensures var b, c' := Run(g, f, c, es[..|es| - 1]), Run(g, f, c, es);
      && c.n < |c'.h|
      && (c'.got == b.got <==> forall k :: b.n < k < |b.h| ==> !Passes(f, b.h[k].sid))
      && (c'.got == b.got ==> c'.got == c.got + Matches(f, c'.h, c.n + 1, |c'.h|))
  {
    hide Passes, After;
    ExactlyOnce(g, f, c, es);
    GetNothing(g, f, Run(g, f, c, es[..|es| - 1]));
  }

  lemma GetNothing(g: Geometry, f: Filter, b: Course)
    requires Underway(b)
    ensures var c' := After(g, f, b, Get);
      && c'.h == b.h && (c'.got == b.got <==> forall k :: b.n < k < |b.h| ==> !Passes(f, b.h[k].sid))
      && (c'.got == b.got ==> c'.n == |b.h| - 1)
  {
    hide Passes;
    var m := NextMatch(b.h, f, b.n + 1);
    assert m < |b.h| ==> |b.got + [b.h[m]]| == |b.got| + 1;
  }

  // ---------- the ring does it ----------

  /** What the reader has in hand after a successful read. */
  function Received(f: Header, bytes: seq<byte>): Packet
    requires 0 <= f.dataSize <= |bytes|
  {
    Packet(f.pktId, f.pktTime, f.streamId, f.dataStart, f.dataEnd, bytes[..f.dataSize])
  }

  /** Ring and reader are where the course says. */
  ghost predicate InStep(ring: RingBuffer, reader: RingReader, c: Course)
    reads ring, ring.data, reader
  {
    && ring.Valid() && Underway(c) && ring.history == c.h && NoneNewer(ring.g, c.h)
    && reader.At() == MarkOf(ring.g, c.h, c.n)
  }

  method Accept(ring: RingBuffer, reader: RingReader, ghost c: Course, f: Header, packetdata: seq<byte>, now: int)
    requires InStep(ring, reader, c) && Timely(ring.g, c, Put(f, packetdata, now))
    modifies ring, ring.data
    ensures InStep(ring, reader, After(ring.g, reader.filter, c, Put(f, packetdata, now)))
  {
    hide SlotAt, NextMatch, BytesAfter, HeaderAt, RingBuffer.Valid, NoneNewer, MarkOf, GoodSid;
    ring.ValidSound();
    var packet := new RingPacket(f);
    var code := ring.Write(packet, packetdata, f.dataSize, now);
    if code == 0 {
      MarkStays(ring.g, c.h, ring.history[|ring.history| - 1], c.n);
    }
  }

  lemma MarkStays(g: Geometry, h: seq<Packet>, p: Packet, n: nat)
    requires Sound(g) && n < |h|
    ensures MarkOf(g, h + [p], n) == MarkOf(g, h, n)
    ensures NoneNewer(g, h) && h[|h| - 1].time <= p.time ==> NoneNewer(g, h + [p])
  {
  }

  method Fetch(ring: RingBuffer, reader: RingReader, ghost c: Course) returns (got: seq<Packet>)
    requires InStep(ring, reader, c) && Timely(ring.g, c, Get)
    modifies reader
    ensures InStep(ring, reader, After(ring.g, reader.filter, c, Get)) && reader.filter == old(reader.filter)
    ensures c.got + got == After(ring.g, reader.filter, c, Get).got
  {
    hide SlotAt, NextMatch, HeaderAt, StartOf, Passes, Outcome, RingBuffer.Valid, NoneNewer, Placed, MarkOf, Finds, Hangs;
    var packet := new RingPacket(Header(0, 0, 0, 0, "", 0, 0, 0));
    var packetdata := new byte[ring.g.pktSize](_ => 0);
    ghost var was, header, bytes := reader.At(), packet.Fields(), packetdata[..];
    ring.ValidSound();
    FetchStart(ring.g, c.h, c.n, was, reader.filter);
    var id := ReadNext(ring, reader, packet, packetdata);
    OutcomeMeans(ring, reader, packet, packetdata, id, c.n + 1, was, header, bytes);
    got := [];
    if id != RINGID_NONE {
      got := [Received(packet.Fields(), packetdata[..])];
    }
  }

  /** No packet has the id that says there is none, so the id tells what a read found. */
  lemma OutcomeMeans(ring: RingBuffer, reader: RingReader, packet: RingPacket, packetdata: array<byte>, id: int, s: nat,
                     was: Mark, header: Header, bytes: seq<byte>)
    requires ring.Valid() && s <= |ring.history| && NoneNewer(ring.g, ring.history) && FirstLive(ring.g, ring.history) <= s
    requires Outcome(ring, reader, packet, packetdata, id, Finds(ring.g, ring.history, reader.filter, s, was), header, bytes)
    ensures var g, h, m := ring.g, ring.history, NextMatch(ring.history, reader.filter, s);
      && (id == RINGID_NONE <==> m == |h|)
      && (m < |h| ==> 0 <= packet.dataSize <= packetdata.Length && Received(packet.Fields(), packetdata[..]) == h[m]
                      && reader.At() == MarkOf(g, h, m))
      && (m == |h| && s < |h| ==> reader.At() == MarkOf(g, h, |h| - 1))
      && (m == |h| && s == |h| ==> reader.At() == was)
  {
    hide SlotAt, NextMatch, HeaderAt, Passes, IndexOf, MarkOf, Finds, RunsForever, NoneNewer;
    var g, h, m := ring.g, ring.history, NextMatch(ring.history, reader.filter, s);
    NoneNewerFinds(g, h, reader.filter, s, was);
    if m < |h| {
      GoodOne(g, h, m);
      ReceivedIs(g, h, m, packet.Fields(), packetdata[..]);
    }
  }

  /** A read goes on after the reader's packet, and comes to an end. */
  lemma FetchStart(g: Geometry, h: seq<Packet>, n: nat, at: Mark, f: Filter)
    requires Sound(g) && FirstLive(g, h) <= n < |h| && at == MarkOf(g, h, n) && NoneNewer(g, h)
    ensures Placed(g, h, at) && at.offset >= 0 && StartOf(g, h, at) == n + 1 && !Hangs(g, h, f, at)
  {
    hide SlotAt, Finds, RunsForever;
    OccupantIs(g, h, n);
    NoneNewerFinds(g, h, f, n + 1, at);
  }

  lemma ReceivedIs(g: Geometry, h: seq<Packet>, m: nat, f: Header, bytes: seq<byte>)
    requires Sound(g) && m < |h| && f == HeaderAt(g, h, m) && |h[m].payload| <= |bytes| && bytes[..|h[m].payload|] == h[m].payload
    ensures 0 <= f.dataSize <= |bytes| && Received(f, bytes) == h[m]
  {
  }

  /** The ring and a reader, put through any such run, end up where the run does and deliver what it delivers. */
  method Serve(ring: RingBuffer, reader: RingReader, ghost c: Course, es: seq<Event>) returns (got: seq<Packet>)
    requires InStep(ring, reader, c) && c.got == [] && AllTimely(ring.g, reader.filter, c, es)
    modifies ring, ring.data, reader
    ensures InStep(ring, reader, Run(ring.g, reader.filter, c, es)) && reader.filter == old(reader.filter)
    ensures got == Run(ring.g, reader.filter, c, es).got
    ensures var c' := Run(ring.g, reader.filter, c, es);
      c.h <= ring.history && c.n <= c'.n < |ring.history| && got == Matches(reader.filter, ring.history, c.n + 1, c'.n + 1)
  {
    hide InStep, Timely, After, Matches, NextMatch;
    got := [];
    var i := 0;
    assert es[..0] == [];
    while i < |es|
      invariant 0 <= i <= |es| && reader.filter == old(reader.filter)
      invariant InStep(ring, reader, Run(ring.g, reader.filter, c, es[..i]))
      invariant got == Run(ring.g, reader.filter, c, es[..i]).got
    {
      ghost var b := Run(ring.g, reader.filter, c, es[..i]);
      assert es[..i + 1][..i] == es[..i];
      match es[i] {
        case Put(f, packetdata, now) =>
          Accept(ring, reader, b, f, packetdata, now);
          PutGivesNothing(ring.g, reader.filter, b, es[i]);
        case Get =>
          var more := Fetch(ring, reader, b);
          got := got + more;
      }
      i := i + 1;
    }
    assert es[..i] == es;
    ExactlyOnce(ring.g, reader.filter, c, es);
    WhereRun(ring, reader, Run(ring.g, reader.filter, c, es));
  }

  lemma PutGivesNothing(g: Geometry, f: Filter, c: Course, e: Event)
    requires Underway(c) && e.Put?
    ensures After(g, f, c, e).got == c.got
  {
  }

  lemma WhereRun(ring: RingBuffer, reader: RingReader, c: Course)
    requires InStep(ring, reader, c)
    ensures ring.history == c.h
  {
  }

  // ---------- what Serve means for the packets written and the expressions ----------

  /** The packets that the ring accepts, in the order of the run. */
  function Puts(g: Geometry, es: seq<Event>): (puts: seq<Event>)
    ensures forall e :: e in puts ==> e.Put? && e.f.dataSize >= 0
  {
    if es == [] then []
    else
      var e := es[|es| - 1];
      Puts(g, es[..|es| - 1]) + if e.Put? && 0 <= e.f.dataSize && HEADER_SIZE + e.f.dataSize <= g.pktSize then [e] else []
  }

  /** The packet has the stream, times and bytes that were put. */
  ghost predicate Carries(p: Packet, e: Event)
    requires e.Put?
  {
    && p.sid == e.f.streamId && p.time == e.now && p.dataStart == e.f.dataStart && p.dataEnd == e.f.dataEnd
    && |p.payload| == e.f.dataSize
    && (forall i :: 0 <= i < |p.payload| ==> p.payload[i] == if i < |e.packetdata| then e.packetdata[i] else 0)
    && (e.f.pktId != 0xFFFF_FFFF_FFFF_FFFE ==> p.id == e.f.pktId)
  }

  /** After any run the history is the old one and then the packets put, each as it was put. */
  lemma {:induction false} RunCarries(g: Geometry, f: Filter, c: Course, es: seq<Event>)
    requires Underway(c)
    ensures var h, puts := Run(g, f, c, es).h, Puts(g, es);
      |h| == |c.h| + |puts| && h[..|c.h|] == c.h && forall i :: 0 <= i < |puts| ==> Carries(h[|c.h| + i], puts[i])
  {
    hide Carries, Passes, NextMatch, Written;
    if es != [] {
      RunCarries(g, f, c, es[..|es| - 1]);
      match es[|es| - 1] {
        case Put(header, packetdata, now) =>
          if 0 <= header.dataSize { WrittenCarries(Run(g, f, c, es[..|es| - 1]).h, header, packetdata, now); }
        case Get =>
      }
    }
  }

  lemma WrittenCarries(h: seq<Packet>, f: Header, packetdata: seq<byte>, now: int)
    requires 0 <= f.dataSize
    ensures Carries(Written(h, f, packetdata, now), Put(f, packetdata, now))
  {
    WrittenIs(h, f, packetdata, now);
  }

  /** A list of packets by their places: ascending, so each once and in write order. */
  ghost predicate Places(h: seq<Packet>, ks: seq<nat>, got: seq<Packet>) {
    && |ks| == |got| && (forall i :: 0 <= i < |ks| ==> ks[i] < |h| && got[i] == h[ks[i]])
    && forall i, j :: 0 <= i < j < |ks| ==> ks[i] < ks[j]
  }

  /** Just the places from lo to hi - 1 whose packets limit and match pass where they are set, and reject does not. */
  ghost predicate Chosen(f: Filter, h: seq<Packet>, lo: nat, hi: nat, ks: seq<nat>)
    requires hi <= |h|
  {
    forall k: nat :: k in ks <==>
      && lo <= k < hi
      && (f.limit.None? || f.limit.value(h[k].sid)) && (f.accept.None? || f.accept.value(h[k].sid))
      && (f.reject.None? || !f.reject.value(h[k].sid))
  }

  /** The matching packets, by the three expressions themselves. */
  lemma {:induction false} MatchesMeet(f: Filter, h: seq<Packet>, lo: nat, hi: nat) returns (ks: seq<nat>)
    requires lo <= hi <= |h|
    ensures Places(h, ks, Matches(f, h, lo, hi))
    ensures Chosen(f, h, lo, hi, ks)
  {
    hide Passes, Places, Chosen;
    if lo == hi {
      ks := [];
      NoPlaces(f, h, lo);
    } else {
      var before := MatchesMeet(f, h, lo, hi - 1);
      ChosenNext(f, h, lo, hi, before);
      PlaceNext(h, before, Matches(f, h, lo, hi - 1), hi - 1, f, lo);
      ks := if Passes(f, h[hi - 1].sid) then before + [hi - 1] else before;
      assert Matches(f, h, lo, hi - 1) + [] == Matches(f, h, lo, hi - 1);
    }
  }

  lemma NoPlaces(f: Filter, h: seq<Packet>, lo: nat)
    requires lo <= |h|
    ensures Places(h, [], []) && Chosen(f, h, lo, lo, [])
  {
  }

  lemma ChosenNext(f: Filter, h: seq<Packet>, lo: nat, hi: nat, ks: seq<nat>)
    requires lo < hi <= |h| && Chosen(f, h, lo, hi - 1, ks)
    ensures Chosen(f, h, lo, hi, if Passes(f, h[hi - 1].sid) then ks + [hi - 1] else ks)
  {
    hide Passes;
    PassesExactly(f, h[hi - 1].sid);
  }

  lemma PlaceNext(h: seq<Packet>, ks: seq<nat>, got: seq<Packet>, k: nat, f: Filter, lo: nat)
    requires k < |h| && Places(h, ks, got) && Chosen(f, h, lo, k, ks)
    ensures Places(h, ks + [k], got + [h[k]])
  {
    forall i | 0 <= i < |ks| ensures ks[i] < k { assert ks[i] in ks; }
  }

  /** What the expressions decide: limit and match must hold where they are set, and reject must not. */
  lemma PassesExactly(f: Filter, sid: string)
    ensures Passes(f, sid) <==>
      && (f.limit.None? || f.limit.value(sid)) && (f.accept.None? || f.accept.value(sid))
      && (f.reject.None? || !f.reject.value(sid))
  {
  }

  /** Serve, said of the bytes put and of the expressions: the ring's history goes on with the packets put, each with its
      stream, times and bytes; and what the reader is given is exactly those packets after its first place and up to its last
      that limit and match pass where they are set and reject does not, each once and in the order written. */
  method ServeDelivers(ring: RingBuffer, reader: RingReader, ghost c: Course, es: seq<Event>)
    returns (got: seq<Packet>, ghost last: nat, ghost ks: seq<nat>)
    requires InStep(ring, reader, c) && c.got == [] && AllTimely(ring.g, reader.filter, c, es)
    modifies ring, ring.data, reader
    ensures reader.filter == old(reader.filter) && |ring.history| == |c.h| + |Puts(ring.g, es)| && ring.history[..|c.h|] == c.h
    ensures forall i :: 0 <= i < |Puts(ring.g, es)| ==> Carries(ring.history[|c.h| + i], Puts(ring.g, es)[i])
    ensures c.n <= last < |ring.history| && InStep(ring, reader, Course(ring.history, last, got))
    ensures Places(ring.history, ks, got) && Chosen(reader.filter, ring.history, c.n + 1, last + 1, ks)
  {
    hide Puts, Carries, Places, Matches, Run, InStep, Chosen, Timely;
    got := Serve(ring, reader, c, es);
    RunCarries(ring.g, reader.filter, c, es);
    last := Run(ring.g, reader.filter, c, es).n;
    WhereRun(ring, reader, Run(ring.g, reader.filter, c, es));
    ks := MatchesMeet(reader.filter, ring.history, c.n + 1, last + 1);
  }

  /** A packet written and then read by a reader that had read everything before it, or was to begin with the earliest in an
      empty ring: what comes out is what was put in. */
  method WriteThenRead(ring: RingBuffer, reader: RingReader, packet: RingPacket, data: seq<byte>, now: int, out: RingPacket, buffer: array<byte>)
    returns (id: int)
    requires ring.Valid() && ring.Writable(packet.Fields(), |data|, now) && HEADER_SIZE + |data| <= ring.g.pktSize
    requires if ring.history == [] then reader.pktOffset < 0 && reader.pktId == 0xFFFF_FFFF_FFFF_FFFD else reader.At() == ring.latest
    requires reader.filter.limit.Some? ==> reader.filter.limit.value(packet.streamId)
    requires reader.filter.accept.Some? ==> reader.filter.accept.value(packet.streamId)
    requires reader.filter.reject.Some? ==> !reader.filter.reject.value(packet.streamId)
    requires out != packet && buffer != ring.data && buffer.Length >= ring.g.pktSize - HEADER_SIZE
    modifies ring, ring.data, reader, packet, out, buffer
    ensures out.streamId == old(packet.streamId) && out.pktTime == now && out.dataStart == old(packet.dataStart) && out.dataEnd == old(packet.dataEnd)
    ensures out.dataSize == |data| && buffer[..|data|] == data && buffer[|data|..] == old(buffer[|data|..])
    ensures id == out.pktId && (old(packet.pktId) != 0xFFFF_FFFF_FFFF_FFFE ==> id == old(packet.pktId))
  {
    hide SlotAt, NextMatch, HeaderAt, StartOf, Passes, Finds, Hangs, Placed, MarkOf, Outcome, Adds, BytesAfter, RingBuffer.Valid, Sound, Splice, GoodSid;
    ghost var g, h, f, was, before, given := ring.g, ring.history, reader.filter, reader.At(), buffer[..], packet.Fields();
    ReaderPlaced(ring, reader);
    PassesExactly(f, packet.streamId);
    var code := ring.Write(packet, data, |data|, now);
    AddedIs(h, given, data, now, ring.history);
    ring.ValidSound();
    NewPacketFound(g, h, ring.history, f, was);
    ghost var header := out.Fields();
    id := ReadNext(ring, reader, out, buffer);
    OutcomeGives(ring, reader, out, buffer, id, |h|, header, before);
  }

  lemma ReaderPlaced(ring: RingBuffer, reader: RingReader)
    requires ring.Valid()
    ensures Sound(ring.g) && (ring.history != [] ==> ring.latest == MarkOf(ring.g, ring.history, |ring.history| - 1))
  {
  }

  lemma AddedIs(h: seq<Packet>, f: Header, data: seq<byte>, now: int, h': seq<Packet>)
    requires f.dataSize == |data| && Adds(h, f, data, now, h')
    ensures |h'| == |h| + 1 && h'[..|h|] == h
    ensures var p := h'[|h|];
      p.sid == f.streamId && p.time == now && p.dataStart == f.dataStart && p.dataEnd == f.dataEnd && p.payload == data
      && (f.pktId != RINGID_NONE ==> p.id == f.pktId)
  {
  }

  lemma OutcomeGives(ring: RingBuffer, reader: RingReader, out: RingPacket, buffer: array<byte>, id: int, n: nat, header: Header, before: seq<byte>)
    requires Sound(ring.g) && Outcome(ring, reader, out, buffer, id, Delivered(n), header, before)
    ensures n < |ring.history|
    ensures var p := ring.history[n];
      && out.streamId == p.sid && out.pktTime == p.time && out.dataStart == p.dataStart && out.dataEnd == p.dataEnd
      && out.dataSize == |p.payload| && id == out.pktId == p.id
      && |p.payload| <= |before| == buffer.Length && buffer[..|p.payload|] == p.payload && buffer[|p.payload|..] == before[|p.payload|..]
  {
    hide SlotAt, NextOf;
  }

  lemma NewPacketFound(g: Geometry, h: seq<Packet>, h': seq<Packet>, f: Filter, was: Mark)
    requires Sound(g) && |h'| == |h| + 1 && h'[..|h|] == h && Passes(f, h'[|h|].sid)
    requires if h == [] then was.offset < 0 && was.id == RINGID_EARLIEST else was == MarkOf(g, h, |h| - 1)
    ensures Placed(g, h', was) && !Hangs(g, h', f, was) && StartOf(g, h', was) == |h|
    ensures was.offset >= 0 || was.id == RINGID_EARLIEST
    ensures Finds(g, h', f, |h|, was) == Delivered(|h|)
  {
    hide SlotAt;
    if h != [] { OccupantIs(g, h', |h| - 1); }
    NextMatchIs(h', f, |h|, |h|);
    NextNewerIs(h', |h|, |h'|);
  }
}
