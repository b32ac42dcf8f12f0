/** Shutting a ring down to its two files and starting it again from them. */
module RingStorage {
  import Bits
  import opened LittleEndian
  import opened Options
  import opened RingTypes
  import opened RingHistory
  import opened RingIndex
  import opened RingBuffer
  import opened RingFiles

  /** The parameters of a ring, as its header states them. */
  function ParamsOf(g: Geometry, ringSize: nat, corruptFlag: byte, fluxFlag: byte): (p: Params)
    requires Sound(g) && ringSize < 0x8000_0000 && g.dataOffset + g.maxPackets * g.pktSize <= ringSize
    ensures ParamsInRange(p)
  {
    SizesInRange(g);
    Params(RING_VERSION, ringSize, g.pktSize, g.maxPackets, (g.maxPackets - 1) * g.pktSize, g.dataOffset, corruptFlag, fluxFlag)
  }

  lemma SizesInRange(g: Geometry)
    requires Sound(g)
    ensures g.pktSize < 0x8000_0000 && g.maxPackets < 0x8000_0000 && 0 <= (g.maxPackets - 1) * g.pktSize < 0x8000_0000
  {
    SlotFits(0, g.maxPackets, g.pktSize);
    SlotFits(g.maxPackets - 1, g.maxPackets, g.pktSize);
    Bits.MulMonotone(1, g.pktSize, g.maxPackets);
  }

  function EarliestOf(g: Geometry, h: seq<Packet>): Mark
    requires Sound(g)
  {
    if h == [] then NO_MARK else MarkOf(g, h, FirstLive(g, h))
  }

  function LatestOf(g: Geometry, h: seq<Packet>): Mark
    requires Sound(g)
  {
    if h == [] then NO_MARK else MarkOf(g, h, |h| - 1)
  }

  lemma MarksInRange(g: Geometry, h: seq<Packet>)
    requires Sound(g) && GoodHistory(g, h)
    ensures MarkInRange(EarliestOf(g, h)) && MarkInRange(LatestOf(g, h))
    ensures forall sid :: sid in IndexOf(g, h, FirstLive(g, h)) ==>
      var e := IndexOf(g, h, FirstLive(g, h))[sid]; e.streamId == sid && GoodEntry(e)
  {
    hide SlotAt, Sids, NextOf, LastOf;
    forall n: nat | n < |h| ensures MarkInRange(MarkOf(g, h, n)) {
      GoodOne(g, h, n);
    }
    forall sid | sid in Sids(h, FirstLive(g, h)) ensures EntryOf(g, h, FirstLive(g, h), sid).streamId == sid
        && GoodEntry(EntryOf(g, h, FirstLive(g, h), sid)) {
      SidLive(h, FirstLive(g, h), sid);
    }
  }

  /** These are the fields at the head of the buffer. */
  ghost predicate HeaderStates(bytes: seq<byte>, params: Params, earliest: Mark, latest: Mark) {
    && MARKS_END <= |bytes| && ParamsInRange(params) && MarkInRange(earliest) && MarkInRange(latest)
    && bytes[..PARAMS_SIZE] == ParamsBytes(params)
    && bytes[MARKS_AT..MARKS_AT + 40] == MarkBytes(earliest)
    && bytes[MARKS_AT + 40..MARKS_END] == MarkBytes(latest)
  }

  /** The packet buffer file holds this ring: header and slots. */
  ghost predicate BufferFile(g: Geometry, h: seq<Packet>, corruptFlag: byte, fluxFlag: byte, bytes: seq<byte>) {
    && SlotsHold(g, h, FirstLive(g, h), bytes) && |bytes| < 0x8000_0000 && MARKS_END <= g.dataOffset
    && HeaderStates(bytes, ParamsOf(g, |bytes|, corruptFlag, fluxFlag), EarliestOf(g, h), LatestOf(g, h))
  }

  lemma SlotAbove(g: Geometry, bytes: seq<byte>, at: nat, s: seq<byte>, n: nat)
    requires BigEnough(g, bytes) && at + |s| <= g.dataOffset
    ensures BigEnough(g, Splice(bytes, at, s)) && SlotOf(g, Splice(bytes, at, s), n) == SlotOf(g, bytes, n)
  {
    hide SlotAt, Splice;
    var from := g.dataOffset + SlotAt(g, n);
    Spliced(bytes, at, s, from, from + g.pktSize);
  }

  /** Writing below the data area changes no slot. */
  lemma HeaderWritten(g: Geometry, h: seq<Packet>, b: nat, bytes: seq<byte>, at: nat, s: seq<byte>)
    requires SlotsHold(g, h, b, bytes) && at + |s| <= g.dataOffset
    ensures SlotsHold(g, h, b, Splice(bytes, at, s))
  {
    hide SlotAt, Splice, GoodPacket, SlotOf, SlotBytes, Sound;
    var bytes' := Splice(bytes, at, s);
    SlotAbove(g, bytes, at, s, 0);
    forall n {:trigger SlotOf(g, bytes', n)} | b <= n < |h| ensures SlotOf(g, bytes', n) == SlotBytes(g, h, n) {
      SlotAbove(g, bytes, at, s, n);
    }
  }

  /** Both blocks of the header are in place after writing them one after the other. */
  lemma HeaderBlocks(bytes: seq<byte>, params: Params, earliest: Mark, latest: Mark)
    requires MARKS_END <= |bytes| && ParamsInRange(params) && MarkInRange(earliest) && MarkInRange(latest)
    ensures HeaderStates(Splice(Splice(bytes, 0, ParamsBytes(params)), MARKS_AT, MarkBytes(earliest) + MarkBytes(latest)), params, earliest, latest)
  {
    hide ParamsBytes, MarkBytes, MarkInRange, ParamsInRange;
    var p, m, l := ParamsBytes(params), MarkBytes(earliest), MarkBytes(latest);
    var bytes' := Splice(Splice(bytes, 0, p), MARKS_AT, m + l);
    assert bytes'[..PARAMS_SIZE] == p;
    assert bytes'[MARKS_AT..MARKS_AT + 40] == m;
    assert bytes'[MARKS_AT + 40..MARKS_END] == l;
  }

  /** WriteHeaderToBuffer. */
  method WriteHeaderToBuffer(ring: RingBuffer)
    requires ring.Valid() && MARKS_END <= ring.g.dataOffset && ring.data.Length < 0x8000_0000
    modifies ring.data
    ensures ring.Valid() && BufferFile(ring.g, ring.history, ring.corruptFlag, ring.fluxFlag, ring.data[..])
  {
    hide SlotAt, IndexOf, ParamsBytes, MarkBytes, SlotsHold, MarkInRange, Splice, MarkOf, ParamsInRange, HeaderStates, Sound;
    ghost var g, h, b := ring.g, ring.history, FirstLive(ring.g, ring.history);
    SlotsMeans(g, h, b, ring.data[..]);
    MarksInRange(g, h);
    SizesInRange(g);
    var params := Params(RING_VERSION, ring.data.Length, ring.g.pktSize, ring.g.maxPackets, ring.maxOffset, ring.g.dataOffset,
                         ring.corruptFlag, ring.fluxFlag);
    assert params == ParamsOf(g, ring.data.Length, ring.corruptFlag, ring.fluxFlag);
    ghost var bytes := ring.data[..];
    HeaderBlocks(bytes, params, ring.earliest, ring.latest);
    HeaderWritten(g, h, b, bytes, 0, ParamsBytes(params));
    HeaderWritten(g, h, b, Splice(bytes, 0, ParamsBytes(params)), MARKS_AT, MarkBytes(ring.earliest) + MarkBytes(ring.latest));
    PutBytes(ring.data, 0, ParamsBytes(params));
    PutBytes(ring.data, MARKS_AT, MarkBytes(ring.earliest) + MarkBytes(ring.latest));
  }

  /** The stream file holds this ring's index: a record for each stream, in some order. */
  ghost predicate StreamFile(g: Geometry, h: seq<Packet>, streams: seq<byte>, es: seq<Entry>) {
    Sound(g) && Lists(es, IndexOf(g, h, FirstLive(g, h))) && streams == Records(es)
  }

  /** RingShutdown of a persistent ring: what goes into its files. */
  method Shutdown(ring: RingBuffer) returns (packets: seq<byte>, streams: seq<byte>, ghost es: seq<Entry>)
    requires ring.Valid() && MARKS_END <= ring.g.dataOffset && ring.data.Length < 0x8000_0000
    modifies ring.data, ring`fluxFlag
    ensures BufferFile(ring.g, ring.history, ring.corruptFlag, old(ring.fluxFlag), packets) && |packets| == ring.data.Length
    ensures StreamFile(ring.g, ring.history, streams, es)
    ensures packets == ring.data[..] && ring.fluxFlag == 0
  {
    hide SlotAt, SlotsHold, IndexOf, BufferFile, Lists, GoodEntry, MarkInRange;
    WriteHeaderToBuffer(ring);
    ring.fluxFlag := 1;
    SlotsMeans(ring.g, ring.history, FirstLive(ring.g, ring.history), ring.data[..]);
    MarksInRange(ring.g, ring.history);
    streams, es := SaveStreams(ring.streamIdx);
    ring.fluxFlag := 0;
    packets := ring.data[..];
  }

  // ---------- starting ----------

  /** The size of the header: whole pages, and as few of them as give 256 bytes of parameters and 64 more. */
  function HeaderSize(pagesize: nat): (size: nat)
    requires pagesize > 0
    ensures size >= 256 + 64
  {
    Bits.QuotientNatural(256 + 63, pagesize);
    PageCount(256 + 63, pagesize);
    ((256 + 63) / pagesize + 1) * pagesize
  }

  lemma PageCount(need: nat, pagesize: nat)
    requires pagesize > 0
    ensures need / pagesize * pagesize <= need < (need / pagesize + 1) * pagesize
  {
    assert need == pagesize * (need / pagesize) + need % pagesize;
  }

  /** How a ring of these sizes is laid out, in 64-bit arithmetic. */
  function GeometryFor(ringsize: nat, pktsize: nat, pagesize: nat): Geometry
    requires pktsize > 0 && pagesize > 0
  {
    var room: nat := (ringsize - HeaderSize(pagesize)) % 0x1_0000_0000_0000_0000;
    Bits.QuotientNatural(room, pktsize);
    Geometry(pktsize, room / pktsize, HeaderSize(pagesize))
  }

  /** Room for the header and two packets, in 32-bit arithmetic. */
  function MinimumSize(pktsize: nat, pagesize: nat): nat
    requires pagesize > 0
  {
    (HeaderSize(pagesize) + 2 * pktsize) % 0x1_0000_0000
  }

  lemma GeometryFits(ringsize: nat, pktsize: nat, pagesize: nat)
    requires pktsize > 0 && pagesize > 0 && HeaderSize(pagesize) + 2 * pktsize <= ringsize < 0x8000_0000
    ensures var g := GeometryFor(ringsize, pktsize, pagesize);
      Sound(g) && g.dataOffset + g.maxPackets * g.pktSize <= ringsize
  {
    hide HeaderSize;
    var n := ringsize - HeaderSize(pagesize);
    Bits.QuotientNatural(n, pktsize);
    assert (n / pktsize) * pktsize == pktsize * (n / pktsize);
    if n / pktsize < 2 { Bits.MulMonotone(n / pktsize, 1, pktsize); }
  }

  /** What the size check is for, and where it fails: it lets a ring pass that has no room for two packets exactly when the sum
      wraps and the ring is as large as what is left of it. */
  lemma SizeCheckExact(ringsize: nat, pktsize: nat, pagesize: nat, bytes: seq<byte>)
    requires pktsize > 0 && pagesize > 0 && HeaderSize(pagesize) < 0x1_0000_0000 && |bytes| == ringsize < 0x8000_0000
    ensures BigEnough(GeometryFor(ringsize, pktsize, pagesize), bytes) <==> HeaderSize(pagesize) + 2 * pktsize <= ringsize
    ensures MinimumSize(pktsize, pagesize) <= ringsize && !BigEnough(GeometryFor(ringsize, pktsize, pagesize), bytes) <==>
            HeaderSize(pagesize) + 2 * pktsize >= 0x1_0000_0000 && MinimumSize(pktsize, pagesize) <= ringsize
  {
    hide HeaderSize, MinimumSize, GeometryFor;
    var sum := HeaderSize(pagesize) + 2 * pktsize;
    if sum < 0x1_0000_0000 { MinimumIs(pktsize, pagesize); }
    if sum <= ringsize {
      GeometryFits(ringsize, pktsize, pagesize);
    } else {
      GeometryIs(ringsize, pktsize, pagesize);
      TooSmall(ringsize, pktsize, HeaderSize(pagesize));
    }
  }

  lemma MinimumMeans(pktsize: nat, pagesize: nat)
    requires pagesize > 0
    ensures MinimumSize(pktsize, pagesize) == (HeaderSize(pagesize) + 2 * pktsize) % 0x1_0000_0000
  {
    hide HeaderSize;
  }

  lemma MinimumIs(pktsize: nat, pagesize: nat)
    requires pagesize > 0 && HeaderSize(pagesize) + 2 * pktsize < 0x1_0000_0000
    ensures MinimumSize(pktsize, pagesize) == HeaderSize(pagesize) + 2 * pktsize
  {
    hide HeaderSize;
    Bits.ModSmall(HeaderSize(pagesize) + 2 * pktsize, 0x1_0000_0000);
  }

  lemma GeometryIs(ringsize: nat, pktsize: nat, pagesize: nat)
    requires pktsize > 0 && pagesize > 0
    ensures var g := GeometryFor(ringsize, pktsize, pagesize);
      g.pktSize == pktsize && g.maxPackets == (ringsize - HeaderSize(pagesize)) % 0x1_0000_0000_0000_0000 / pktsize && g.dataOffset == HeaderSize(pagesize)
  {
    hide HeaderSize;
  }

  lemma TooSmall(ringsize: nat, pktsize: nat, headersize: nat)
    requires pktsize > 0 && ringsize < headersize + 2 * pktsize && headersize < 0x1_0000_0000 && ringsize < 0x8000_0000
    ensures var n := (ringsize - headersize) % 0x1_0000_0000_0000_0000 / pktsize; n >= 2 ==> headersize + n * pktsize > ringsize
  {
    var room := (ringsize - headersize) % 0x1_0000_0000_0000_0000;
    Bits.QuotientNatural(room, pktsize);
    var n := room / pktsize;
    assert room == n * pktsize + room % pktsize;
    if n >= 2 {
      Bits.MulMonotone(2, n, pktsize);
    }
  }

  lemma MinimumMet(ringsize: nat, pktsize: nat, pagesize: nat)
    requires pktsize > 0 && pagesize > 0 && HeaderSize(pagesize) + 2 * pktsize <= ringsize < 0x8000_0000
    ensures MinimumSize(pktsize, pagesize) <= ringsize && GeometryFor(ringsize, pktsize, pagesize).dataOffset == HeaderSize(pagesize)
  {
    hide HeaderSize;
    MinimumIs(pktsize, pagesize);
  }

  /** For example: with pages of 4096 bytes, a ring of 4096 bytes for packets of 2^31 bytes passes, and has no slot at all. */
  lemma NoSlotAccepted()
    ensures MinimumSize(0x8000_0000, 4096) <= 4096 && GeometryFor(4096, 0x8000_0000, 4096) == Geometry(0x8000_0000, 0, 4096)
  {
    assert HeaderSize(4096) == 4096;
  }

  /** For example: with pages of 4096 bytes, a ring of 1 MiB for packets of 512 bytes has 2040 slots after one page of header. */
  lemma GeometryLiteral()
    ensures GeometryFor(0x10_0000, 512, 4096) == Geometry(512, 2040, 4096) && MinimumSize(512, 4096) == 5120
  {
    assert HeaderSize(4096) == 4096;
  }

  /** The header takes the least multiple of a page that holds 320 bytes; a packet header and 128 bytes then fit, too. */
  method FindHeaderSize(pagesize: nat) returns (headersize: nat)
    requires pagesize > 0
    ensures headersize >= 256 + 64 && headersize >= HEADER_SIZE + 128 && headersize % pagesize == 0
    ensures forall k: nat :: k * pagesize >= 256 + 64 ==> headersize <= k * pagesize
    ensures headersize == HeaderSize(pagesize)
  {
    headersize := pagesize;
    ghost var pages := 1;
    while headersize < HEADER_SIZE + 128
      invariant pages >= 1 && headersize == pages * pagesize && (pages - 1) * pagesize < 256 + 64
    {
      headersize := headersize + pagesize;
      pages := pages + 1;
    }
    var paramHeadersize := headersize;
    while paramHeadersize < 256 + 64
      invariant pages >= 1 && paramHeadersize == pages * pagesize && (pages - 1) * pagesize < 256 + 64
    {
      paramHeadersize := paramHeadersize + pagesize;
      pages := pages + 1;
    }
    headersize := if headersize < paramHeadersize then paramHeadersize else headersize;
    FewestPages(pagesize, pages);
  }

  lemma FewestPages(pagesize: nat, pages: nat)
    requires pagesize > 0 && pages >= 1 && (pages - 1) * pagesize < 256 + 64 <= pages * pagesize
    ensures pages * pagesize == HeaderSize(pagesize) && pages * pagesize % pagesize == 0
    ensures forall k: nat :: k * pagesize >= 256 + 64 ==> pages * pagesize <= k * pagesize
  {
    Bits.DivUnique(256 + 63, pagesize, pages - 1, 256 + 63 - (pages - 1) * pagesize);
    Bits.DivUnique(pages * pagesize, pagesize, pages, 0);
    forall k: nat | k * pagesize >= 256 + 64 ensures pages * pagesize <= k * pagesize {
      if k < pages { Bits.MulMonotone(k, pages - 1, pagesize); }
      if k >= pages { Bits.MulMonotone(pages, k, pagesize); }
    }
  }

  /** What the buffer starts with: the file if it has the right length, and zeros otherwise. */
  function StartBytes(packetFile: Option<seq<byte>>, ringsize: nat): (bytes: seq<byte>)
    ensures |bytes| == ringsize
  {
    if packetFile.Some? && |packetFile.value| == ringsize then packetFile.value else seq(ringsize, _ => 0)
  }

  method LoadBuffer(packetFile: Option<seq<byte>>, ringsize: nat) returns (data: array<byte>)
    ensures fresh(data) && data[..] == StartBytes(packetFile, ringsize)
  {
    data := new byte[ringsize](_ => 0);
    if packetFile.Some? && |packetFile.value| == ringsize {
      PutBytes(data, 0, packetFile.value);
    }
  }

  /** The header is one this ring could have written. */
  predicate Recognized(bytes: seq<byte>, g: Geometry)
    requires |bytes| >= MARKS_END
  {
    var p := DecodeParams(bytes);
    && bytes[..4] == SIGNATURE && p.version == RING_VERSION && p.ringSize == |bytes| && p.pktSize == g.pktSize
    && p.maxPackets == g.maxPackets && p.maxOffset == (g.maxPackets - 1) * g.pktSize && p.headerSize == g.dataOffset
  }

  /** The first 38 bytes are those of a ring of these sizes: "RING", version 2, and the ring's size, packet size, number of packets,
      largest offset and header size. */
  ghost predicate SameSizes(bytes: seq<byte>, g: Geometry) {
    && |bytes| >= 224 && bytes[..4] == [82, 73, 78, 71] && Number(bytes[4..6]) == 2 && Number(bytes[6..14]) == |bytes|
    && Number(bytes[14..18]) == g.pktSize && Number(bytes[18..26]) == g.maxPackets
    && Int64(bytes[26..34]) == (g.maxPackets - 1) * g.pktSize && Number(bytes[34..38]) == g.dataOffset
  }

  lemma RecognizedExactly(bytes: seq<byte>, g: Geometry)
    requires |bytes| >= MARKS_END
    ensures Recognized(bytes, g) <==> SameSizes(bytes, g)
  {
    hide Number, Int64;
  }

  /** What a shut down ring leaves in its file: those sizes, the two flags, and at 144 and 184 the marks of the earliest and the
      latest packet. */
  lemma FileBytes(g: Geometry, h: seq<Packet>, corruptFlag: byte, fluxFlag: byte, bytes: seq<byte>)
    requires BufferFile(g, h, corruptFlag, fluxFlag, bytes)
    ensures SameSizes(bytes, g) && bytes[38] == corruptFlag && bytes[39] == fluxFlag
    ensures MarkSays(bytes[144..184], EarliestOf(g, h)) && MarkSays(bytes[184..224], LatestOf(g, h))
  {
    hide Recognized, DecodeParams, SlotsHold, SlotAt, ParamsBytes, MarkBytes, MarkSays, MarkOf, SameSizes;
    FileRead(g, h, corruptFlag, fluxFlag, bytes);
    RecognizedExactly(bytes, g);
    FlagBytes(bytes);
    MarkPlaces(EarliestOf(g, h));
    MarkPlaces(LatestOf(g, h));
  }

  lemma FlagBytes(bytes: seq<byte>)
    requires |bytes| >= PARAMS_SIZE
    ensures DecodeParams(bytes).corruptFlag == bytes[38] && DecodeParams(bytes).fluxFlag == bytes[39]
  {
  }

  lemma PrefixParams(bytes: seq<byte>)
    requires |bytes| >= PARAMS_SIZE
    ensures DecodeParams(bytes) == DecodeParams(bytes[..PARAMS_SIZE]) && bytes[..4] == bytes[..PARAMS_SIZE][..4]
  {
    var s := bytes[..PARAMS_SIZE];
    assert bytes[4..6] == s[4..6] && bytes[6..14] == s[6..14] && bytes[14..18] == s[14..18] && bytes[18..26] == s[18..26];
    assert bytes[26..34] == s[26..34] && bytes[34..38] == s[34..38];
  }

  /** Reading back what WriteHeaderToBuffer wrote. */
  lemma FileRead(g: Geometry, h: seq<Packet>, corruptFlag: byte, fluxFlag: byte, bytes: seq<byte>)
    requires BufferFile(g, h, corruptFlag, fluxFlag, bytes)
    ensures |bytes| >= MARKS_END && BigEnough(g, bytes) && Recognized(bytes, g)
    ensures DecodeMark(bytes[MARKS_AT..MARKS_AT + 40]) == EarliestOf(g, h) && DecodeMark(bytes[MARKS_AT + 40..MARKS_END]) == LatestOf(g, h)
    ensures DecodeParams(bytes).corruptFlag == corruptFlag && DecodeParams(bytes).fluxFlag == fluxFlag
    ensures EarliestOf(g, h).offset <= (g.maxPackets - 1) * g.pktSize && LatestOf(g, h).offset <= (g.maxPackets - 1) * g.pktSize
    ensures EarliestOf(g, h).offset >= 0 <==> h != []
  {
    hide DecodeParams, ParamsBytes, DecodeMark, MarkBytes, SlotsHold, SlotAt;
    SlotsMeans(g, h, FirstLive(g, h), bytes);
    PrefixParams(bytes);
    ParamsRoundTrip(ParamsOf(g, |bytes|, corruptFlag, fluxFlag));
    MarkRoundTrip(EarliestOf(g, h));
    MarkRoundTrip(LatestOf(g, h));
    OffsetBound(g, FirstLive(g, h));
    if h != [] { OffsetBound(g, |h| - 1); }
  }

  lemma OffsetBound(g: Geometry, n: nat)
    requires Sound(g)
    ensures 0 <= SlotAt(g, n) <= (g.maxPackets - 1) * g.pktSize
  {
    Bits.MulMonotone(n % g.maxPackets, g.maxPackets - 1, g.pktSize);
    SizesInRange(g);
  }

  /** The files are those of a ring with this history. */
  ghost predicate FilesHold(g: Geometry, h: seq<Packet>, corruptFlag: byte, fluxFlag: byte,
                            packetFile: Option<seq<byte>>, streamFile: Option<seq<byte>>, es: seq<Entry>) {
    && packetFile.Some? && BufferFile(g, h, corruptFlag, fluxFlag, packetFile.value)
    && (h != [] ==> streamFile.Some? && StreamFile(g, h, streamFile.value, es))
  }

  /** The index that a stream file, of this ring or not, gives a ring whose header names these earliest fields. */
  function IndexFrom(earliest: Mark, streamFile: Option<seq<byte>>): map<string, Entry> {
    if earliest.offset >= 0 && streamFile.Some? then MapOf(DecodeAll(streamFile.value)) else map[]
  }

  function CountFrom(earliest: Mark, streamFile: Option<seq<byte>>): int {
    if earliest.offset >= 0 && streamFile.Some? then |streamFile.value| / RECORD_SIZE else 0
  }

  /** A ring with the sizes, marks and index given, whose buffer is `data`. */
  ghost predicate Restored(ring: RingBuffer, g: Geometry, data: array<byte>, earliest: Mark, latest: Mark)
    reads ring
  {
    ring.g == g && ring.maxOffset == (g.maxPackets - 1) * g.pktSize && ring.data == data && ring.earliest == earliest && ring.latest == latest
  }

  /** Fields that agree with the history make the ring valid. */
  lemma RestoredValid(ring: RingBuffer, h: seq<Packet>)
    requires Sound(ring.g) && Restored(ring, ring.g, ring.data, EarliestOf(ring.g, h), LatestOf(ring.g, h)) && ring.history == h
    requires SlotsHold(ring.g, h, FirstLive(ring.g, h), ring.data[..])
    requires ring.streamIdx == IndexOf(ring.g, h, FirstLive(ring.g, h)) && ring.streamCount == |ring.streamIdx|
    ensures ring.Valid()
  {
    hide SlotAt, SlotsHold, IndexOf;
  }

  lemma EmptyIndex(g: Geometry, bytes: seq<byte>)
    requires BigEnough(g, bytes)
    ensures IndexOf(g, [], FirstLive(g, [])) == map[] && SlotsHold(g, [], FirstLive(g, []), bytes)
  {
  }

  /** A header that is not recognized: the ring starts empty. */
  method Reset(g: Geometry, data: array<byte>) returns (ring: RingBuffer)
    requires MARKS_END <= data.Length
    modifies data
    ensures fresh(ring) && Restored(ring, g, data, NO_MARK, NO_MARK) && ring.history == [] && ring.streamIdx == map[] && ring.streamCount == 0
    ensures BigEnough(g, old(data[..])) ==> ring.Valid()
    ensures ring.corruptFlag == 0 && ring.fluxFlag == 0 && data[..] == Splice(old(data[..]), 0, SIGNATURE)
  {
    hide Splice, IndexOf, SlotsHold;
    ring := new RingBuffer(g, (g.maxPackets - 1) * g.pktSize, data, NO_MARK, NO_MARK, map[], 0, 0, 0, []);
    PutBytes(data, 0, SIGNATURE);
    if BigEnough(g, data[..]) {
      EmptyIndex(g, data[..]);
      RestoredValid(ring, []);
    }
  }

  /** The ring that a recognized header and a stream file give, whether they belong together or not: earliest and latest
      fields and flags as the header states them, and the index and its size as the stream file lists them. */
  ghost predicate Recovered(ring: RingBuffer, g: Geometry, bytes: seq<byte>, streamFile: Option<seq<byte>>)
    requires |bytes| >= MARKS_END
    reads ring
  {
    && Restored(ring, g, ring.data, DecodeMark(bytes[MARKS_AT..MARKS_AT + 40]), DecodeMark(bytes[MARKS_AT + 40..MARKS_END]))
    && ring.streamIdx == IndexFrom(ring.earliest, streamFile) && ring.streamCount == CountFrom(ring.earliest, streamFile)
    && ring.corruptFlag == DecodeParams(bytes).corruptFlag && ring.fluxFlag == DecodeParams(bytes).fluxFlag
  }

  /** A recognized header: earliest and latest fields from the header, and the index from the stream file. */
  method Recover(g: Geometry, data: array<byte>, streamFile: Option<seq<byte>>, ghost h: seq<Packet>, ghost corruptFlag: byte,
                 ghost fluxFlag: byte, ghost es: seq<Entry>)
    returns (ring: RingBuffer)
    requires MARKS_END <= data.Length
    ensures fresh(ring) && ring.data == data && Recovered(ring, g, data[..], streamFile)
    ensures FilesHold(g, h, corruptFlag, fluxFlag, Some(data[..]), streamFile, es) ==>
      ring.Valid() && ring.history == h && ring.corruptFlag == corruptFlag && ring.fluxFlag == fluxFlag
  {
    hide DecodeParams, DecodeMark, SlotsHold, SlotAt, IndexOf, StreamFile, BufferFile, MarkOf, Recognized, RingBuffer.Valid, DecodeAll, MapOf;
    var bytes := data[..];
    var params := DecodeParams(bytes);
    var earliest, latest := DecodeMark(bytes[MARKS_AT..MARKS_AT + 40]), DecodeMark(bytes[MARKS_AT + 40..MARKS_END]);
    assert data[MARKS_AT..MARKS_AT + 40] == bytes[MARKS_AT..MARKS_AT + 40] && data[MARKS_AT + 40..MARKS_END] == bytes[MARKS_AT + 40..MARKS_END];
    var streamIdx: map<string, Entry>, streamCount := map[], 0;
    if earliest.offset >= 0 && streamFile.Some? {
      streamIdx, streamCount := LoadStreams(streamFile.value);
    }
    ring := new RingBuffer(g, (g.maxPackets - 1) * g.pktSize, data, earliest, latest, streamIdx, streamCount,
                           params.corruptFlag, params.fluxFlag, h);
    if FilesHold(g, h, corruptFlag, fluxFlag, Some(bytes), streamFile, es) {
      FileRead(g, h, corruptFlag, fluxFlag, bytes);
      FilesIndex(g, h, corruptFlag, fluxFlag, bytes, streamFile, es);
      RestoredValid(ring, h);
    }
  }

  lemma FilesIndex(g: Geometry, h: seq<Packet>, corruptFlag: byte, fluxFlag: byte, bytes: seq<byte>, streamFile: Option<seq<byte>>, es: seq<Entry>)
    requires BigEnough(g, bytes) && FilesHold(g, h, corruptFlag, fluxFlag, Some(bytes), streamFile, es)
    requires EarliestOf(g, h).offset >= 0 <==> h != []
    ensures IndexFrom(EarliestOf(g, h), streamFile) == IndexOf(g, h, FirstLive(g, h))
    ensures CountFrom(EarliestOf(g, h), streamFile) == |IndexOf(g, h, FirstLive(g, h))|
    ensures SlotsHold(g, h, FirstLive(g, h), bytes)
  {
    hide IndexOf, SlotsHold, SlotAt, MapOf, DecodeAll, Records, Lists, EarliestOf;
    if h != [] {
      ListsCount(es, IndexOf(g, h, FirstLive(g, h)));
    } else {
      EmptyIndex(g, bytes);
    }
  }

  lemma ListsCount(es: seq<Entry>, index: map<string, Entry>)
    requires Lists(es, index)
    ensures DecodeAll(Records(es)) == es && MapOf(es) == index && |Records(es)| / RECORD_SIZE == |index|
  {
    RecordsDecode(es);
  }

  /** What becomes of a buffer with these contents: -1 when the recovered offsets lie beyond it, empty when its header is
      not recognized, else whatever header and stream file say, which is the ring that the files hold when they hold one. */
  ghost predicate Opened(g: Geometry, bytes: seq<byte>, streamFile: Option<seq<byte>>, h: seq<Packet>, corruptFlag: byte, fluxFlag: byte,
                         es: seq<Entry>, code: int, ring: RingBuffer?)
    requires |bytes| >= MARKS_END
    reads ring, if ring == null then {} else {ring.data}
  {
    var maxOffset := (g.maxPackets - 1) * g.pktSize;
    && (code == 0 <==> ring != null)
    && (code == -1 <==> Recognized(bytes, g) && (DecodeMark(bytes[MARKS_AT..MARKS_AT + 40]).offset > maxOffset
                                                 || DecodeMark(bytes[MARKS_AT + 40..MARKS_END]).offset > maxOffset))
    && (!Recognized(bytes, g) ==> code == 0 && (BigEnough(g, bytes) ==> ring.Valid()) && ring.history == [] && ring.data[..] == Splice(bytes, 0, SIGNATURE)
                                  && ring.corruptFlag == 0 && ring.fluxFlag == 0 && Restored(ring, g, ring.data, NO_MARK, NO_MARK)
                                  && ring.streamIdx == map[] && ring.streamCount == 0)
    && (FilesHold(g, h, corruptFlag, fluxFlag, Some(bytes), streamFile, es) ==>
          code == 0 && ring.Valid() && ring.history == h && ring.data[..] == bytes
          && ring.corruptFlag == corruptFlag && ring.fluxFlag == fluxFlag)
    && (Recognized(bytes, g) && code == 0 ==> Recovered(ring, g, bytes, streamFile) && ring.data[..] == bytes)
    && (ring != null ==> ring.g == g && ring.data.Length == |bytes|)
  }

  method Open(g: Geometry, data: array<byte>, streamFile: Option<seq<byte>>,
              ghost h: seq<Packet>, ghost corruptFlag: byte, ghost fluxFlag: byte, ghost es: seq<Entry>)
    returns (code: int, ring: RingBuffer?)
    requires MARKS_END <= data.Length
    modifies data
    ensures Opened(g, old(data[..]), streamFile, h, corruptFlag, fluxFlag, es, code, ring)
    ensures code == 0 || code == -1
    ensures ring != null ==> fresh(ring) && ring.data == data
  {
    hide DecodeParams, DecodeMark, BufferFile, StreamFile, SlotAt, RingBuffer.Valid, Recognized;
    var bytes := data[..];
    if FilesHold(g, h, corruptFlag, fluxFlag, Some(bytes), streamFile, es) {
      FileRead(g, h, corruptFlag, fluxFlag, bytes);
    }
    if !Recognized(bytes, g) {
      var r := Reset(g, data);
      return 0, r;
    }
    assert data[MARKS_AT..MARKS_AT + 40] == bytes[MARKS_AT..MARKS_AT + 40] && data[MARKS_AT + 40..MARKS_END] == bytes[MARKS_AT + 40..MARKS_END];
    var r := Recover(g, data, streamFile, h, corruptFlag, fluxFlag, es);
    if r.earliest.offset > r.maxOffset || r.latest.offset > r.maxOffset {
      return -1, null;
    }
    return 0, r;
  }

  /** What becomes of the ring by the bytes of its file: if the version and all sizes agree, earliest and latest fields and flags
      are those at their places, unless one of the offsets lies beyond the ring; else the ring starts empty. */
  ghost predicate OpenedBy(g: Geometry, bytes: seq<byte>, code: int, ring: RingBuffer?)
    requires |bytes| >= 224
    reads ring
  {
    if SameSizes(bytes, g) then
      && (code == -1 <==> Int64(bytes[176..184]) > (g.maxPackets - 1) * g.pktSize || Int64(bytes[216..224]) > (g.maxPackets - 1) * g.pktSize)
      && (code == 0 ==> ring != null && MarkSays(bytes[144..184], ring.earliest) && MarkSays(bytes[184..224], ring.latest)
                        && ring.corruptFlag == bytes[38] && ring.fluxFlag == bytes[39])
    else
      code == 0 && ring != null && ring.history == [] && ring.streamIdx == map[] && ring.streamCount == 0
      && ring.corruptFlag == ring.fluxFlag == 0 && ring.earliest == ring.latest
      && ring.earliest.offset == -1 && ring.earliest.id == 0xFFFF_FFFF_FFFF_FFFE
  }

  lemma OpenedMeans(g: Geometry, bytes: seq<byte>, streamFile: Option<seq<byte>>, h: seq<Packet>, corruptFlag: byte, fluxFlag: byte,
                    es: seq<Entry>, code: int, ring: RingBuffer?)
    requires |bytes| >= MARKS_END && Opened(g, bytes, streamFile, h, corruptFlag, fluxFlag, es, code, ring)
    ensures OpenedBy(g, bytes, code, ring)
  {
    hide Recognized, DecodeParams, SlotsHold, SameSizes, FilesHold, RingBuffer.Valid, DecodeMark, MarkSays, IndexFrom, CountFrom, Number, Int64;
    RecognizedExactly(bytes, g);
    FlagBytes(bytes);
    DecodedMark(bytes[144..184]);
    DecodedMark(bytes[184..224]);
    assert bytes[144..184][32..40] == bytes[176..184] && bytes[184..224][32..40] == bytes[216..224];
  }

  lemma DecodedMark(s: seq<byte>)
    requires |s| == 40
    ensures MarkSays(s, DecodeMark(s)) && DecodeMark(s).offset == Int64(s[32..40])
  {
    hide Number, Int64;
  }

  /** A 64-bit result read as a signed number. */
  function Signed64Of(v: int): int {
    (v + 0x8000_0000_0000_0000) % 0x1_0000_0000_0000_0000 - 0x8000_0000_0000_0000
  }

  /** A buffer too small for its header: the fields are set, and the signature written if there is room for it. */
  method Blank(g: Geometry, data: array<byte>) returns (ring: RingBuffer)
    modifies data
    ensures fresh(ring) && ring.data == data && ring.g == g && ring.maxOffset == Signed64Of((g.maxPackets - 1) * g.pktSize)
    ensures ring.earliest == NO_MARK && ring.latest == NO_MARK && ring.history == [] && ring.streamIdx == map[] && ring.streamCount == 0
    ensures data[..] == if data.Length > 4 then Splice(old(data[..]), 0, SIGNATURE) else old(data[..])
  {
    ring := new RingBuffer(g, Signed64Of((g.maxPackets - 1) * g.pktSize), data, NO_MARK, NO_MARK, map[], 0, 0, 0, []);
    if data.Length > 4 {
      PutBytes(data, 0, SIGNATURE);
    }
  }

  lemma NotValid(ring: RingBuffer, bytes: seq<byte>)
    requires |bytes| == ring.data.Length && !BigEnough(ring.g, bytes)
    ensures !ring.Valid()
  {
  }

  /** RingInitialize of a persistent ring; -2 when the ring is smaller than the minimum size, as that is computed. */
  method Initialize(packetFile: Option<seq<byte>>, streamFile: Option<seq<byte>>, ringsize: nat, pktsize: nat, pagesize: nat,
                    ghost h: seq<Packet>, ghost corruptFlag: byte, ghost fluxFlag: byte, ghost es: seq<Entry>)
    returns (code: int, ring: RingBuffer?)
    requires 0 < pktsize < 0x1_0000_0000 && pagesize > 0 && HeaderSize(pagesize) < 0x1_0000_0000 && ringsize < 0x8000_0000
    ensures code == -2 <==> ringsize < MinimumSize(pktsize, pagesize)
    ensures code == -2 ==> ring == null
    ensures ring != null ==> fresh(ring) && fresh(ring.data)
    ensures code != -2 && HeaderSize(pagesize) <= ringsize ==>
      Opened(GeometryFor(ringsize, pktsize, pagesize), StartBytes(packetFile, ringsize), streamFile, h, corruptFlag, fluxFlag, es, code, ring)
      && OpenedBy(GeometryFor(ringsize, pktsize, pagesize), StartBytes(packetFile, ringsize), code, ring)
    ensures code != -2 && ringsize < HeaderSize(pagesize) ==>
      code == 0 && ring != null && ring.g == GeometryFor(ringsize, pktsize, pagesize) && ring.data.Length == ringsize && !ring.Valid()
      && ring.earliest == ring.latest == NO_MARK && ring.history == [] && ring.streamIdx == map[]
  {
    hide Opened, OpenedBy, HeaderSize, GeometryFor, MinimumSize, RingBuffer.Valid;
    var headersize := FindHeaderSize(pagesize);
    MinimumMeans(pktsize, pagesize);
    if ringsize < (headersize + 2 * pktsize) % 0x1_0000_0000 {
      return -2, null;
    }
    GeometryIs(ringsize, pktsize, pagesize);
    var g := GeometryFor(ringsize, pktsize, pagesize);
    var data := LoadBuffer(packetFile, ringsize);
    SizeCheckExact(ringsize, pktsize, pagesize, data[..]);
    if data.Length < headersize {
      ring := Blank(g, data);
      NotValid(ring, data[..]);
      return 0, ring;
    }
    ghost var bytes := data[..];
    code, ring := Open(g, data, streamFile, h, corruptFlag, fluxFlag, es);
    OpenedMeans(g, bytes, streamFile, h, corruptFlag, fluxFlag, es, code, ring);
  }

  /** Stopping a persistent ring and starting it again with the same sizes brings back the same ring: the same live packets
      in the same slots, the same earliest and latest fields, and the same stream index. */
  method Restart(ring: RingBuffer, ringsize: nat, pktsize: nat, pagesize: nat) returns (again: RingBuffer)
    requires pktsize > 0 && pagesize > 0 && HeaderSize(pagesize) + 2 * pktsize <= ringsize < 0x8000_0000
    requires ring.Valid() && ring.g == GeometryFor(ringsize, pktsize, pagesize) && ring.data.Length == ringsize
    modifies ring.data, ring`fluxFlag
    ensures fresh(again) && again.Valid() && again.g == ring.g && again.history == ring.history
    ensures again.data[..] == ring.data[..]
    ensures again.earliest == ring.earliest && again.latest == ring.latest
    ensures again.streamIdx == ring.streamIdx && again.streamCount == ring.streamCount
  {
    hide BufferFile, StreamFile, Recognized, SlotAt, IndexOf, SlotsHold, HeaderSize, GeometryFor, MinimumSize, ParamsOf, DecodeMark, DecodeParams, OpenedBy,
         Restored, Recovered;
    MinimumMet(ringsize, pktsize, pagesize);
    ghost var h, corruptFlag, fluxFlag := ring.history, ring.corruptFlag, ring.fluxFlag;
    var packets, streams, es := Shutdown(ring);
    var code, r := Initialize(Some(packets), Some(streams), ringsize, pktsize, pagesize, h, corruptFlag, fluxFlag, es);
    assert FilesHold(ring.g, h, corruptFlag, fluxFlag, Some(packets), Some(streams), es);
    again := r;
  }
}
