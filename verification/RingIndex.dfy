/** The stream index that a history calls for, and how writing and evicting change it. */
module RingIndex {
  import opened LittleEndian
  import opened RingTypes
  import opened RingHistory

  /** The id, three times and offset that the ring keeps of a packet. */
  datatype Mark = Mark(id: int, pTime: int, dsTime: int, deTime: int, offset: int)

  /** A RingStream: a stream's first and last packet. */
  datatype Entry = Entry(streamId: string, earliest: Mark, latest: Mark)

  const NO_MARK := Mark(RINGID_NONE, UNSET, UNSET, UNSET, -1)

  function HeaderMark(h: Header): Mark {
    Mark(h.pktId, h.pktTime, h.dataStart, h.dataEnd, h.offset)
  }

  function MarkOf(g: Geometry, h: seq<Packet>, n: nat): (m: Mark)
    requires Sound(g) && n < |h|
    ensures m == HeaderMark(HeaderAt(g, h, n))
  {
    Mark(h[n].id, h[n].time, h[n].dataStart, h[n].dataEnd, SlotAt(g, n))
  }

  /** Packets from number b on are live. */
  function Sids(h: seq<Packet>, b: nat): set<string> {
    set n | b <= n < |h| :: h[n].sid
  }

  /** The stream has a live packet just when its next packet from b on exists, or its last one is live. */
  lemma SidLive(h: seq<Packet>, b: nat, sid: string)
    requires b <= |h|
    ensures sid in Sids(h, b) <==> NextOf(h, sid, b) < |h|
    ensures sid in Sids(h, b) <==> LastOf(h, sid) >= b
    ensures sid in Sids(h, b) ==> NextOf(h, sid, b) <= LastOf(h, sid)
  {
    var m, l := NextOf(h, sid, b), LastOf(h, sid);
    if sid in Sids(h, b) {
      var n :| b <= n < |h| && h[n].sid == sid;
      assert m <= n <= l;
    }
    if m < |h| { assert h[m].sid in Sids(h, b); }
    if l >= b { assert h[l].sid in Sids(h, b); }
  }

  function EntryOf(g: Geometry, h: seq<Packet>, b: nat, sid: string): Entry
    requires Sound(g) && b <= |h| && sid in Sids(h, b)
  {
    SidLive(h, b, sid);
    Entry(sid, MarkOf(g, h, NextOf(h, sid, b)), MarkOf(g, h, LastOf(h, sid)))
  }

  /** One entry for each stream with a live packet, telling its first and last live packet. */
  function IndexOf(g: Geometry, h: seq<Packet>, b: nat): (index: map<string, Entry>)
    requires Sound(g) && b <= |h|
    ensures index.Keys == Sids(h, b)
  {
    map sid | sid in Sids(h, b) :: EntryOf(g, h, b, sid)
  }

  lemma IndexIs(g: Geometry, h: seq<Packet>, b: nat, index: map<string, Entry>)
    requires Sound(g) && b <= |h|
    requires forall sid :: sid in index <==> sid in Sids(h, b)
    requires forall sid :: sid in index ==> index[sid] == EntryOf(g, h, b, sid)
    ensures index == IndexOf(g, h, b)
  {
    hide Sids, EntryOf;
    assert index.Keys == IndexOf(g, h, b).Keys;
  }

  function EntryAfter(index: map<string, Entry>, sid: string, mark: Mark): Entry {
    Entry(sid, if sid in index then index[sid].earliest else mark, mark)
  }

  /** A new packet becomes its stream's latest, and its earliest if the stream was not there. */
  lemma IndexAppend(g: Geometry, h: seq<Packet>, b: nat, p: Packet)
    requires Sound(g) && b <= |h|
    ensures IndexOf(g, h + [p], b) == IndexOf(g, h, b)[p.sid := EntryAfter(IndexOf(g, h, b), p.sid, MarkOf(g, h + [p], |h|))]
  {
    hide SlotAt, Sids, IndexOf;
    var h', index := h + [p], IndexOf(g, h, b);
    var after := index[p.sid := EntryAfter(index, p.sid, MarkOf(g, h', |h|))];
    forall sid ensures sid in after <==> sid in Sids(h', b) {
      SidLive(h, b, sid);
      SidLive(h', b, sid);
      NextOfAppend(h, p, sid, b);
    }
    forall sid | sid in after ensures after[sid] == EntryOf(g, h', b, sid) {
      EntryAppend(g, h, b, p, sid);
    }
    IndexIs(g, h', b, after);
  }

  lemma EntryAppend(g: Geometry, h: seq<Packet>, b: nat, p: Packet, sid: string)
    requires Sound(g) && b <= |h|
    requires sid == p.sid || sid in IndexOf(g, h, b)
    ensures sid in Sids(h + [p], b)
    ensures EntryOf(g, h + [p], b, sid)
         == if sid == p.sid then EntryAfter(IndexOf(g, h, b), p.sid, MarkOf(g, h + [p], |h|)) else IndexOf(g, h, b)[sid]
  {
    hide SlotAt;
    SidLive(h, b, sid);
    SidLive(h + [p], b, sid);
    NextOfAppend(h, p, sid, b);
    LastOfAppend(h, p, sid);
  }

  /** Without packet b, entries of other streams stay, and its own stream is gone or starts at its next packet. */
  lemma EntryEvict(g: Geometry, h: seq<Packet>, b: nat, sid: string)
    requires Sound(g) && b < |h|
    ensures var next := NextOf(h, h[b].sid, b + 1);
      && (sid in Sids(h, b + 1) <==> sid in Sids(h, b) && (sid == h[b].sid ==> next < |h|))
      && (sid in Sids(h, b + 1) && sid != h[b].sid ==> EntryOf(g, h, b + 1, sid) == EntryOf(g, h, b, sid))
      && (sid in Sids(h, b + 1) && sid == h[b].sid ==> EntryOf(g, h, b + 1, sid) == EntryOf(g, h, b, sid).(earliest := MarkOf(g, h, next)))
  {
    hide SlotAt, Sids;
    SidLive(h, b, sid);
    SidLive(h, b + 1, sid);
  }

  lemma IndexEvict(g: Geometry, h: seq<Packet>, b: nat)
    requires Sound(g) && b < |h|
    ensures var sid := h[b].sid;
      var next := NextOf(h, sid, b + 1);
      && sid in IndexOf(g, h, b)
      && IndexOf(g, h, b + 1) == (if next == |h| then IndexOf(g, h, b) - {sid}
                                  else IndexOf(g, h, b)[sid := IndexOf(g, h, b)[sid].(earliest := MarkOf(g, h, next))])
  {
    hide SlotAt, Sids, EntryOf;
    var gone, index := h[b].sid, IndexOf(g, h, b);
    var next := NextOf(h, gone, b + 1);
    SidLive(h, b, gone);
    var after := if next == |h| then index - {gone} else index[gone := index[gone].(earliest := MarkOf(g, h, next))];
    forall sid ensures sid in after <==> sid in Sids(h, b + 1) {
      EntryEvict(g, h, b, sid);
    }
    forall sid | sid in after ensures after[sid] == EntryOf(g, h, b + 1, sid) {
      EntryEvict(g, h, b, sid);
    }
    IndexIs(g, h, b + 1, after);
  }

  lemma IndexGives(g: Geometry, h: seq<Packet>, b: nat, sid: string)
    requires Sound(g) && b <= |h| && sid in Sids(h, b)
    ensures sid in IndexOf(g, h, b) && IndexOf(g, h, b)[sid] == EntryOf(g, h, b, sid)
  {
  }

  /** The test by which the ring finds that the evicted packet is its stream's only one. */
  lemma OnlyPacket(g: Geometry, h: seq<Packet>, b: nat)
    requires Sound(g) && b < |h| <= b + g.maxPackets
    ensures h[b].sid in IndexOf(g, h, b)
    ensures var e := IndexOf(g, h, b)[h[b].sid];
      e.earliest.offset == SlotAt(g, b) && (e.latest.offset == SlotAt(g, b) <==> NextOf(h, h[b].sid, b + 1) == |h|)
  {
    hide SlotAt, Sids, Sound, IndexOf, NextOf, LastOf;
    var sid := h[b].sid;
    SidLive(h, b, sid);
    SidLive(h, b + 1, sid);
    IndexGives(g, h, b, sid);
    assert NextOf(h, sid, b) == b;
    var l := LastOf(h, sid);
    if l > b { SlotsDiffer(g, b, l); }
  }

  lemma KeyCount<K, V>(m: map<K, V>)
    ensures |m| == |m.Keys|
  {
  }

  // ---------- what eviction does to any index ----------

  /** The index after evicting the packet whose header reads e, next being the header at the place that e links to. */
  function EvictStep(index: map<string, Entry>, e: Header, next: Header): map<string, Entry> {
    if e.streamId !in index then index
    else
      var stream := index[e.streamId];
      if e.offset == stream.earliest.offset && e.offset == stream.latest.offset then index - {e.streamId}
      else if e.nextInStream >= 0 then index[e.streamId := stream.(earliest := HeaderMark(next))]
      else index
  }

  /** A packet f goes into the index under its id and into its slot with that id as the slot can hold it. Let f be its stream's
      first packet, and its only one or linked to the next. Evicting it, by what the slot says, leaves an entry that still names
      its place exactly when the id is not one that the slot can hold. */
  lemma StaleExactly(index: map<string, Entry>, f: Header, rest: seq<byte>, next: Header)
    requires InRange(f) && f.streamId in index && index[f.streamId].earliest.offset == f.offset
    requires index[f.streamId].latest.offset == f.offset || (f.nextInStream >= 0 && next.offset != f.offset)
    ensures var after := EvictStep(index, DecodeHeader(HeaderBytes(f) + rest), next);
      f.streamId in after && after[f.streamId].earliest.offset == f.offset <==> !GoodSid(f.streamId)
  {
    hide DecodeHeader, HeaderBytes, GoodSid, ReadSid, StoredSid;
    HeaderRoundTrip(f, rest);
    SidSurvives(f.streamId);
  }

  // ---------- the lists threaded through the slots ----------

  /** The offsets met when following the next-in-stream links from an offset on, as far as a limit of steps. */
  function ChainFrom(g: Geometry, bytes: seq<byte>, offset: int, steps: nat): seq<int>
    requires BigEnough(g, bytes)
    decreases steps
  {
    var at := g.dataOffset + offset;
    if steps == 0 || offset < 0 || at + HEADER_SIZE > |bytes| then []
    else [offset] + ChainFrom(g, bytes, DecodeHeader(bytes[at..at + HEADER_SIZE]).nextInStream, steps - 1)
  }

  /** The offset at which that stops: a negative one, one beyond the buffer, or wherever the steps run out. */
  function ChainEnd(g: Geometry, bytes: seq<byte>, offset: int, steps: nat): int
    requires BigEnough(g, bytes)
    decreases steps
  {
    var at := g.dataOffset + offset;
    if steps == 0 || offset < 0 || at + HEADER_SIZE > |bytes| then offset
    else ChainEnd(g, bytes, DecodeHeader(bytes[at..at + HEADER_SIZE]).nextInStream, steps - 1)
  }

  /** The numbers of a stream's packets from n on, in write order. */
  function StreamFrom(h: seq<Packet>, sid: string, n: nat): (ns: seq<nat>)
    requires n <= |h|
    ensures |ns| <= |h| - n && forall i :: 0 <= i < |ns| ==> n <= ns[i] < |h|
    decreases |h| - n
  {
    var m := NextOf(h, sid, n);
    if m == |h| then [] else [m] + StreamFrom(h, sid, m + 1)
  }

  /** StreamFrom lists exactly the stream's packets, each once, in ascending order. */
  lemma {:induction false} StreamFromExact(h: seq<Packet>, sid: string, n: nat)
    requires n <= |h|
    ensures forall k :: k in StreamFrom(h, sid, n) <==> n <= k < |h| && h[k].sid == sid
    ensures forall i, j :: 0 <= i < j < |StreamFrom(h, sid, n)| ==> StreamFrom(h, sid, n)[i] < StreamFrom(h, sid, n)[j]
    decreases |h| - n
  {
    var m := NextOf(h, sid, n);
    if m < |h| {
      StreamFromExact(h, sid, m + 1);
      var ns := StreamFrom(h, sid, m + 1);
      assert StreamFrom(h, sid, n) == [m] + ns;
      assert forall i :: 0 <= i < |ns| ==> ns[i] in ns;
    }
  }

  function Offsets(g: Geometry, ns: seq<nat>): (os: seq<int>)
    requires Sound(g)
    ensures |os| == |ns|
  {
    seq(|ns|, i requires 0 <= i < |ns| => SlotAt(g, ns[i]))
  }

  /** Where a stream's next packet from n on lies; -1 when there is none. */
  function NextPlace(g: Geometry, h: seq<Packet>, sid: string, n: nat): int
    requires Sound(g) && n <= |h|
  {
    var m := NextOf(h, sid, n);
    if m == |h| then -1 else SlotAt(g, m)
  }

  /** The links visit exactly the stream's packets, in write order, and the last one's link is -1. */
  lemma {:induction false} ChainIsStream(g: Geometry, h: seq<Packet>, b: nat, bytes: seq<byte>, sid: string, n: nat, steps: nat)
    requires SlotsHold(g, h, b, bytes) && b <= n <= |h| && steps >= |h| - n
    ensures ChainFrom(g, bytes, NextPlace(g, h, sid, n), steps) == Offsets(g, StreamFrom(h, sid, n))
    ensures ChainEnd(g, bytes, NextPlace(g, h, sid, n), steps) == -1
    decreases |h| - n
  {
    hide SlotAt, DecodeHeader, SlotsHold, NextOf;
    SlotsMeans(g, h, b, bytes);
    var m := NextOf(h, sid, n);
    if m < |h| {
      ChainIsStream(g, h, b, bytes, sid, m + 1, steps - 1);
      SlotRead(g, h, b, bytes, m);
      SlotHeader(g, bytes, m);
      assert HeaderAt(g, h, m).nextInStream == NextPlace(g, h, sid, m + 1);
      assert Offsets(g, [m] + StreamFrom(h, sid, m + 1)) == [SlotAt(g, m)] + Offsets(g, StreamFrom(h, sid, m + 1));
    }
  }
}
