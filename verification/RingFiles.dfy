/** The two files of a ring as bytes: the parameters at the head of the packet buffer, and the stream index. */
module RingFiles {
  import opened LittleEndian
  import opened RingTypes
  import opened RingHistory
  import opened RingIndex

  /** The sizes and flags at the head of the packet buffer. */
  datatype Params = Params(version: nat, ringSize: nat, pktSize: nat, maxPackets: nat, maxOffset: int, headerSize: nat,
                           corruptFlag: byte, fluxFlag: byte)

  const RING_VERSION := 2

  /** "RING". */
  const SIGNATURE: seq<byte> := [82, 73, 78, 71]

  /** Bytes of sizes and flags; where the earliest and latest fields begin; and where they end. */
  const PARAMS_SIZE := 40
  const MARKS_AT := 144
  const MARKS_END := 224

  predicate ParamsInRange(p: Params) {
    && p.version < 0x1_0000 && Unsigned64(p.ringSize) && Unsigned32(p.pktSize) && Unsigned64(p.maxPackets)
    && Signed64(p.maxOffset) && Unsigned32(p.headerSize)
  }

  predicate MarkInRange(m: Mark) {
    Unsigned64(m.id) && Signed64(m.pTime) && Signed64(m.dsTime) && Signed64(m.deTime) && Signed64(m.offset)
  }

  function ParamsBytes(p: Params): (s: seq<byte>)
    requires ParamsInRange(p)
    ensures |s| == PARAMS_SIZE
  {
    SIGNATURE + Bytes(p.version, 2) + Bytes(p.ringSize, 8) + Bytes(p.pktSize, 4) + Bytes(p.maxPackets, 8)
    + Int64Bytes(p.maxOffset) + Bytes(p.headerSize, 4) + [p.corruptFlag, p.fluxFlag]
  }

  function DecodeParams(s: seq<byte>): Params
    requires |s| >= PARAMS_SIZE
  {
    Params(Number(s[4..6]), Number(s[6..14]), Number(s[14..18]), Number(s[18..26]), Int64(s[26..34]), Number(s[34..38]), s[38], s[39])
  }

  lemma ParamFields(a: seq<byte>, b: seq<byte>, c: seq<byte>, d: seq<byte>, e: seq<byte>, f: seq<byte>, g: seq<byte>, h: seq<byte>)
    requires |a| == 4 && |b| == 2 && |c| == |e| == |f| == 8 && |d| == |g| == 4 && |h| == 2
    ensures var s := a + b + c + d + e + f + g + h;
      s[..4] == a && s[4..6] == b && s[6..14] == c && s[14..18] == d && s[18..26] == e && s[26..34] == f && s[34..38] == g
      && s[38] == h[0] && s[39] == h[1]
  {
  }

  lemma ParamsRoundTrip(p: Params)
    requires ParamsInRange(p)
    ensures ParamsBytes(p)[..4] == SIGNATURE && DecodeParams(ParamsBytes(p)) == p
  {
    hide Bytes, Number, Int64, Int64Bytes;
    ParamFields(SIGNATURE, Bytes(p.version, 2), Bytes(p.ringSize, 8), Bytes(p.pktSize, 4), Bytes(p.maxPackets, 8),
                Int64Bytes(p.maxOffset), Bytes(p.headerSize, 4), [p.corruptFlag, p.fluxFlag]);
    UnsignedRoundTrip(p.version);
    UnsignedRoundTrip(p.ringSize);
    UnsignedRoundTrip(p.pktSize);
    UnsignedRoundTrip(p.maxPackets);
    Int64RoundTrip(p.maxOffset);
    UnsignedRoundTrip(p.headerSize);
  }

  // ---------- marks ----------

  /** Five fields, in the order given. */
  function FiveBytes(a: int, b: int, c: int, d: int, e: int, idFirst: bool): (s: seq<byte>)
    requires Signed64(b) && Signed64(c) && Signed64(e) && (if idFirst then Unsigned64(a) && Signed64(d) else Signed64(a) && Unsigned64(d))
    ensures |s| == 40
  {
    if idFirst then Bytes(a, 8) + Int64Bytes(b) + Int64Bytes(c) + Int64Bytes(d) + Int64Bytes(e)
    else Int64Bytes(a) + Int64Bytes(b) + Int64Bytes(c) + Bytes(d, 8) + Int64Bytes(e)
  }

  lemma FiveFields(a: seq<byte>, b: seq<byte>, c: seq<byte>, d: seq<byte>, e: seq<byte>)
    requires |a| == |b| == |c| == |d| == |e| == 8
    ensures var s := a + b + c + d + e;
      s[0..8] == a && s[8..16] == b && s[16..24] == c && s[24..32] == d && s[32..40] == e
  {
  }

  /** In the packet buffer: id, packet time, data start, data end, offset. */
  function MarkBytes(m: Mark): (s: seq<byte>)
    requires MarkInRange(m)
    ensures |s| == 40
  {
    FiveBytes(m.id, m.pTime, m.dsTime, m.deTime, m.offset, true)
  }

  function DecodeMark(s: seq<byte>): Mark
    requires |s| == 40
  {
    Mark(Number(s[0..8]), Int64(s[8..16]), Int64(s[16..24]), Int64(s[24..32]), Int64(s[32..40]))
  }

  /** In the stream file: data start, data end, packet time, id, offset. */
  function StreamMarkBytes(m: Mark): (s: seq<byte>)
    requires MarkInRange(m)
    ensures |s| == 40
  {
    FiveBytes(m.dsTime, m.deTime, m.pTime, m.id, m.offset, false)
  }

  function DecodeStreamMark(s: seq<byte>): Mark
    requires |s| == 40
  {
    Mark(Number(s[24..32]), Int64(s[16..24]), Int64(s[0..8]), Int64(s[8..16]), Int64(s[32..40]))
  }

  lemma MarkRoundTrip(m: Mark)
    requires MarkInRange(m)
    ensures DecodeMark(MarkBytes(m)) == m && DecodeStreamMark(StreamMarkBytes(m)) == m
  {
    hide Bytes, Number, Int64, Int64Bytes;
    FiveFields(Bytes(m.id, 8), Int64Bytes(m.pTime), Int64Bytes(m.dsTime), Int64Bytes(m.deTime), Int64Bytes(m.offset));
    FiveFields(Int64Bytes(m.dsTime), Int64Bytes(m.deTime), Int64Bytes(m.pTime), Bytes(m.id, 8), Int64Bytes(m.offset));
    UnsignedRoundTrip(m.id);
    Int64RoundTrip(m.pTime);
    Int64RoundTrip(m.dsTime);
    Int64RoundTrip(m.deTime);
    Int64RoundTrip(m.offset);
  }

  /** Where the five fields of a mark lie in the packet buffer. */
  ghost predicate MarkSays(s: seq<byte>, m: Mark) {
    && |s| == 40 && Number(s[0..8]) == m.id && Int64(s[8..16]) == m.pTime && Int64(s[16..24]) == m.dsTime
    && Int64(s[24..32]) == m.deTime && Int64(s[32..40]) == m.offset
  }

  /** And where they lie in a stream record. */
  ghost predicate StreamMarkSays(s: seq<byte>, m: Mark) {
    && |s| == 40 && Int64(s[0..8]) == m.dsTime && Int64(s[8..16]) == m.deTime && Int64(s[16..24]) == m.pTime
    && Number(s[24..32]) == m.id && Int64(s[32..40]) == m.offset
  }

  lemma MarkPlaces(m: Mark)
    requires MarkInRange(m)
    ensures MarkSays(MarkBytes(m), m) && StreamMarkSays(StreamMarkBytes(m), m)
  {
    hide Bytes, Number, Int64, Int64Bytes;
    FiveFields(Bytes(m.id, 8), Int64Bytes(m.pTime), Int64Bytes(m.dsTime), Int64Bytes(m.deTime), Int64Bytes(m.offset));
    FiveFields(Int64Bytes(m.dsTime), Int64Bytes(m.deTime), Int64Bytes(m.pTime), Bytes(m.id, 8), Int64Bytes(m.offset));
    UnsignedRoundTrip(m.id);
    Int64RoundTrip(m.pTime);
    Int64RoundTrip(m.dsTime);
    Int64RoundTrip(m.deTime);
    Int64RoundTrip(m.offset);
  }

  // ---------- stream records ----------

  const RECORD_SIZE := 140

  predicate GoodEntry(e: Entry) {
    GoodSid(e.streamId) && MarkInRange(e.earliest) && MarkInRange(e.latest)
  }

  function StreamRecord(e: Entry): (s: seq<byte>)
    requires GoodEntry(e)
    ensures |s| == RECORD_SIZE
  {
    StoredSid(e.streamId) + StreamMarkBytes(e.earliest) + StreamMarkBytes(e.latest)
  }

  function DecodeRecord(s: seq<byte>): Entry
    requires |s| == RECORD_SIZE
  {
    Entry(AsciiString(TrimEndNul(s[..60])), DecodeStreamMark(s[60..100]), DecodeStreamMark(s[100..140]))
  }

  lemma RecordRoundTrip(e: Entry)
    requires GoodEntry(e)
    ensures DecodeRecord(StreamRecord(e)) == e
  {
    hide StreamMarkBytes, DecodeStreamMark, StoredSid, TrimEndNul, AsciiString;
    var s := StreamRecord(e);
    assert s[..60] == StoredSid(e.streamId) && s[60..100] == StreamMarkBytes(e.earliest) && s[100..140] == StreamMarkBytes(e.latest);
    TrimmedSidSurvives(e.streamId);
    MarkRoundTrip(e.earliest);
    MarkRoundTrip(e.latest);
  }

  /** Where the fields of an entry lie in its record of 140 bytes: the stream id, its first packet's mark and its last one's. */
  lemma RecordPlaces(e: Entry)
    requires GoodEntry(e)
    ensures var s := StreamRecord(e);
      |s| == 140 && SidSays(s[0..60], e.streamId) && StreamMarkSays(s[60..100], e.earliest) && StreamMarkSays(s[100..140], e.latest)
  {
    hide StreamMarkBytes, StoredSid, StreamMarkSays, SidSays, GoodSid;
    var s := StreamRecord(e);
    assert s[0..60] == StoredSid(e.streamId) && s[60..100] == StreamMarkBytes(e.earliest) && s[100..140] == StreamMarkBytes(e.latest);
    StoredChars(e.streamId);
    MarkPlaces(e.earliest);
    MarkPlaces(e.latest);
  }

  /** A file of records, in whatever order. */
  function Records(es: seq<Entry>): (s: seq<byte>)
    requires forall e :: e in es ==> GoodEntry(e)
    ensures |s| == RECORD_SIZE * |es|
  {
    if es == [] then [] else Records(es[..|es| - 1]) + StreamRecord(es[|es| - 1])
  }

  lemma {:induction false} RecordAt(es: seq<Entry>, k: nat)
    requires k < |es| && forall e :: e in es ==> GoodEntry(e)
    ensures Records(es)[RECORD_SIZE * k..RECORD_SIZE * (k + 1)] == StreamRecord(es[k])
  {
    hide StreamRecord, GoodEntry;
    if k < |es| - 1 {
      RecordAt(es[..|es| - 1], k);
      assert es[..|es| - 1][k] == es[k];
      assert Records(es)[RECORD_SIZE * k..RECORD_SIZE * (k + 1)] == Records(es[..|es| - 1])[RECORD_SIZE * k..RECORD_SIZE * (k + 1)];
    }
  }

  /** The index that inserting the entries one after the other builds. */
  function MapOf(es: seq<Entry>): map<string, Entry> {
    if es == [] then map[] else MapOf(es[..|es| - 1])[es[|es| - 1].streamId := es[|es| - 1]]
  }

  /** The entries are those of the index, each once. */
  ghost predicate Lists(es: seq<Entry>, index: map<string, Entry>) {
    MapOf(es) == index && |es| == |index| && forall e :: e in es ==> GoodEntry(e)
  }

  /** The records that a stream file holds, whatever wrote it; what is left over at its end is ignored. */
  function DecodeAll(streams: seq<byte>): (es: seq<Entry>)
    ensures |es| == |streams| / RECORD_SIZE
  {
    seq(|streams| / RECORD_SIZE, k requires 0 <= k < |streams| / RECORD_SIZE => DecodeRecord(streams[RECORD_SIZE * k..RECORD_SIZE * (k + 1)]))
  }

  /** Read records one by one into an index, counting them. */
  method LoadStreams(streams: seq<byte>) returns (streamIdx: map<string, Entry>, streamCount: nat)
    ensures streamIdx == MapOf(DecodeAll(streams)) && streamCount == |streams| / RECORD_SIZE
  {
    hide DecodeRecord;
    streamIdx, streamCount := map[], 0;
    ghost var es := DecodeAll(streams);
    while RECORD_SIZE * (streamCount + 1) <= |streams|
      invariant streamCount <= |es| && streamIdx == MapOf(es[..streamCount])
      decreases |es| - streamCount
    {
      var streamData := streams[RECORD_SIZE * streamCount..RECORD_SIZE * (streamCount + 1)];
      var stream := DecodeRecord(streamData);
      assert es[..streamCount + 1][..streamCount] == es[..streamCount];
      streamIdx := streamIdx[stream.streamId := stream];
      streamCount := streamCount + 1;
    }
    assert es[..streamCount] == es;
  }

  /** The records written are the records read. */
  lemma RecordsDecode(es: seq<Entry>)
    requires forall e :: e in es ==> GoodEntry(e)
    ensures DecodeAll(Records(es)) == es
  {
    hide DecodeRecord, StreamRecord, GoodEntry, Records;
    forall k: nat | k < |es| ensures DecodeAll(Records(es))[k] == es[k] {
      RecordAt(es, k);
      RecordRoundTrip(es[k]);
    }
  }

  lemma OneMore(es: seq<Entry>, e: Entry)
    requires GoodEntry(e) && forall x :: x in es ==> GoodEntry(x)
    ensures forall x :: x in es + [e] ==> GoodEntry(x)
    ensures Records(es + [e]) == Records(es) + StreamRecord(e) && MapOf(es + [e]) == MapOf(es)[e.streamId := e]
  {
    assert (es + [e])[..|es|] == es;
  }

  /** The entries no longer to be written. */
  function Done(index: map<string, Entry>, left: set<string>): map<string, Entry> {
    map sid | sid in index && sid !in left :: index[sid]
  }

  lemma DoneStep(index: map<string, Entry>, left: set<string>, sid: string)
    requires sid in left && left <= index.Keys
    ensures Done(index, left - {sid}) == Done(index, left)[sid := index[sid]]
  {
  }

  /** Write the entries of the index as records, in whatever order the tree is walked. */
  method SaveStreams(streamIdx: map<string, Entry>) returns (streams: seq<byte>, ghost es: seq<Entry>)
    requires forall sid :: sid in streamIdx ==> streamIdx[sid].streamId == sid && GoodEntry(streamIdx[sid])
    ensures Lists(es, streamIdx) && streams == Records(es)
  {
    hide StreamRecord, GoodEntry, Records, MapOf, Done;
    streams, es := [], [];
    var left := streamIdx.Keys;
    NoneDone(streamIdx);
    while left != {}
      invariant left <= streamIdx.Keys && |es| + |left| == |streamIdx.Keys|
      invariant forall e :: e in es ==> GoodEntry(e)
      invariant streams == Records(es) && MapOf(es) == Done(streamIdx, left)
      decreases |left|
    {
      var sid :| sid in left;
      var stream := streamIdx[sid];
      OneMore(es, stream);
      DoneStep(streamIdx, left, sid);
      streams := streams + StreamRecord(stream);
      es := es + [stream];
      left := left - {sid};
    }
    KeyCount(streamIdx);
  }

  lemma NoneDone(index: map<string, Entry>)
    ensures Done(index, index.Keys) == map[] == MapOf([]) && Records([]) == [] && Done(index, {}) == index
  {
  }
}
