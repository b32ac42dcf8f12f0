/** The packet header as it lies in the ring, and the objects that callers hand to the ring. */
module RingTypes {
  import opened LittleEndian

  const RINGID_ERROR := 0xFFFF_FFFF_FFFF_FFFF
  const RINGID_NONE := 0xFFFF_FFFF_FFFF_FFFE
  const RINGID_EARLIEST := 0xFFFF_FFFF_FFFF_FFFD
  const RINGID_LATEST := 0xFFFF_FFFF_FFFF_FFFC
  const RINGID_NEXT := 0xFFFF_FFFF_FFFF_FFFB
  const RINGID_MAXIMUM := 0xFFFF_FFFF_FFFF_FFF5

  /** NsTime.Unset. */
  const UNSET := -0x8000_0000_0000_0000

  const MAX_STREAM_ID := 60

  /** RingPacket.SerializedSize. */
  const HEADER_SIZE := 112

  /** The fields of a RingPacket. */
  datatype Header = Header(offset: int, pktId: int, pktTime: int, nextInStream: int, streamId: string, dataStart: int, dataEnd: int, dataSize: int)

  predicate InRange(h: Header) {
    && Signed64(h.offset) && Unsigned64(h.pktId) && Signed64(h.pktTime) && Signed64(h.nextInStream)
    && Signed64(h.dataStart) && Signed64(h.dataEnd) && Unsigned32(h.dataSize)
  }

  // ---------- stream ids of fixed length ----------

  /** Encoding.ASCII.GetBytes. */
  function AsciiBytes(s: string): (b: seq<byte>)
    ensures |b| == |s|
  {
    seq(|s|, i requires 0 <= i < |s| => if s[i] as int < 128 then s[i] as int else '?' as int)
  }

  /** Encoding.ASCII.GetString. */
  function AsciiString(b: seq<byte>): (s: string)
    ensures |s| == |b|
  {
    seq(|b|, i requires 0 <= i < |b| => if b[i] < 128 then b[i] as char else '?')
  }

  /** Split('\0')[0]. */
  function UpToNul(b: seq<byte>): (p: seq<byte>)
    ensures p <= b && 0 !in p && (|p| < |b| ==> b[|p|] == 0)
  {
    if b == [] || b[0] == 0 then [] else [b[0]] + UpToNul(b[1..])
  }

  /** TrimEnd('\0'). */
  function TrimEndNul(b: seq<byte>): (p: seq<byte>)
    ensures p <= b && (p != [] ==> p[|p| - 1] != 0) && forall i :: |p| <= i < |b| ==> b[i] == 0
  {
    if b == [] || b[|b| - 1] != 0 then b else TrimEndNul(b[..|b| - 1])
  }

  function StoredSid(s: string): (b: seq<byte>)
    ensures |b| == MAX_STREAM_ID
  {
    Pad(AsciiBytes(s), MAX_STREAM_ID)
  }

  function ReadSid(b: seq<byte>): string {
    AsciiString(UpToNul(b))
  }

  /** ASCII without NUL, at most 60 characters. */
  predicate GoodSid(s: string) {
    |s| <= MAX_STREAM_ID && forall i :: 0 <= i < |s| ==> 0 < s[i] as int < 128
  }

  lemma {:induction false} UpToNulIs(b: seq<byte>, n: nat)
    requires n <= |b| && (forall i :: 0 <= i < n ==> b[i] != 0) && (n < |b| ==> b[n] == 0)
    ensures UpToNul(b) == b[..n]
  {
    if n > 0 {
      UpToNulIs(b[1..], n - 1);
      assert b[..n] == [b[0]] + b[1..][..n - 1];
    }
  }

  /** A stream id survives the fixed-length field exactly when it is good. */
  lemma SidSurvives(s: string)
    ensures ReadSid(StoredSid(s)) == s <==> GoodSid(s)
  {
    var a, b := AsciiBytes(s), StoredSid(s);
    var p := UpToNul(b);
    if GoodSid(s) {
      assert b[..|s|] == a;
      assert forall i :: 0 <= i < |s| ==> b[i] == a[i] != 0;
      UpToNulIs(b, |s|);
      assert forall i :: 0 <= i < |s| ==> p[i] == a[i];
    }
    if ReadSid(b) == s {
      assert |p| == |s| && b[..|s|] == a;
      forall i | 0 <= i < |s| ensures 0 < s[i] as int < 128 {
        assert p[i] == b[i] == a[i] && p[i] in p;
        assert s[i] == AsciiString(p)[i];
      }
    }
  }

  /** For example: a NUL cuts an id off. */
  lemma NulCutsSid()
    ensures !GoodSid("XX_ABC\0_H") && ReadSid(StoredSid("XX_ABC\0_H")) == "XX_ABC"
  {
    hide UpToNul;
    var s: string := "XX_ABC\0_H";
    var b := StoredSid(s);
    assert b[..|s|] == AsciiBytes(s);
    forall i: nat | i < 7 ensures b[i] == AsciiBytes(s)[i] {
      assert b[i] == b[..|s|][i];
    }
    UpToNulIs(b, 6);
    assert AsciiString(b[..6]) == "XX_ABC";
  }

  // ---------- ids that DataLink renames ----------

  /** A character of network, station, location and channel codes: 0 to 9 or A to Z. */
  predicate CodeChars(s: string) {
    forall c :: c in s ==> '0' <= c <= '9' || 'A' <= c <= 'Z'
  }

  /** The form of a legacy id. */
  predicate Legacy(net: string, sta: string, loc: string, cha: string) {
    && CodeChars(net) && CodeChars(sta) && CodeChars(loc) && CodeChars(cha)
    && 1 <= |net| <= 2 && 1 <= |sta| <= 5 && |loc| <= 2 && |cha| == 3
  }

  function LastIndexOf(s: string, c: char): (i: int)
    ensures -1 <= i < |s| && (i >= 0 ==> s[i] == c) && forall k :: i < k < |s| ==> s[k] != c
  {
    if s == [] then -1 else if s[|s| - 1] == c then |s| - 1 else LastIndexOf(s[..|s| - 1], c)
  }

  /** How a legacy id is renamed. */
  function Renamed(s: string): string {
    var lu := LastIndexOf(s, '_');
    if lu >= 0 && lu + 4 < |s| then "FDSN:" + s[..lu] + "_" + [s[lu + 1]] + "_" + [s[lu + 2]] + "_" + [s[lu + 3]] + s[lu + 4..] else s
  }

  /** Renaming spells out the channel. */
  lemma RenamedIs(station: string, cha: string)
    requires CodeChars(cha) && |cha| == 3
    ensures Renamed(station + "_" + cha + "/MSEED") == "FDSN:" + station + "_" + [cha[0]] + "_" + [cha[1]] + "_" + [cha[2]] + "/MSEED"
  {
    var s, lu := station + "_" + cha + "/MSEED", |station|;
    forall k | lu < k < |s| ensures s[k] != '_' {
      if k < lu + 4 { assert s[k] == cha[k - lu - 1] && s[k] in cha; }
    }
    assert s[..lu] == station && s[lu + 4..] == "/MSEED" && s[lu] == '_';
    assert LastIndexOf(s, '_') == lu;
  }

  predicate Plain(s: string) {
    forall c :: c in s ==> 0 < c as int < 128
  }

  /** The new id of at most 28 characters fits its field. */
  lemma RenamedFits(net: string, sta: string, loc: string, cha: string)
    requires Legacy(net, sta, loc, cha)
    ensures var renamed := Renamed(net + "_" + sta + "_" + loc + "_" + cha + "/MSEED");
      |renamed| <= 28 && GoodSid(renamed)
  {
    hide Renamed;
    RenamedIs(net + "_" + sta + "_" + loc, cha);
    assert net + "_" + sta + "_" + loc + "_" + cha + "/MSEED" == (net + "_" + sta + "_" + loc) + "_" + cha + "/MSEED";
    var station := net + "_" + sta + "_" + loc;
    assert Plain(net) && Plain(sta) && Plain(loc) && Plain(station);
    assert cha[0] in cha && cha[1] in cha && cha[2] in cha;
    var front, back := "FDSN:" + station + "_", [cha[0]] + "_" + [cha[1]] + "_" + [cha[2]] + "/MSEED";
    assert Plain("FDSN:") && Plain("_") && Plain("/MSEED") && Plain([cha[0]]) && Plain([cha[1]]) && Plain([cha[2]]);
    assert Plain(front) && Plain(back);
    assert "FDSN:" + station + "_" + [cha[0]] + "_" + [cha[1]] + "_" + [cha[2]] + "/MSEED" == front + back;
    PlainIsGood(front + back);
  }

  lemma PlainIsGood(s: string)
    requires Plain(s) && |s| <= MAX_STREAM_ID
    ensures GoodSid(s)
  {
    forall i | 0 <= i < |s| ensures 0 < s[i] as int < 128 {
      assert s[i] in s;
    }
  }

  /** The stream index file trims only trailing NULs, which comes to the same for good ids. */
  lemma TrimmedSidSurvives(s: string)
    requires GoodSid(s)
    ensures AsciiString(TrimEndNul(StoredSid(s))) == s
  {
    var a, b := AsciiBytes(s), StoredSid(s);
    var p := TrimEndNul(b);
    assert b[..|s|] == a;
    assert forall i :: 0 <= i < |s| ==> b[i] == a[i] != 0;
    assert forall i :: |s| <= i < |b| ==> b[i] == 0;
    assert forall i :: 0 <= i < |p| ==> p[i] == b[i];
    assert |p| < |b| ==> b[|p|] == 0;
    assert |p| == |s|;
    assert forall i :: 0 <= i < |s| ==> p[i] == a[i];
  }

  // ---------- the header as bytes ----------

  /** Offset(8) id(8) time(8) next(8) stream id(60) data start(8) data end(8) data size(4). */
  function HeaderBytes(h: Header): (s: seq<byte>)
    requires InRange(h)
    ensures |s| == HEADER_SIZE
  {
    Int64Bytes(h.offset) + Bytes(h.pktId, 8) + Int64Bytes(h.pktTime) + Int64Bytes(h.nextInStream)
    + StoredSid(h.streamId) + Int64Bytes(h.dataStart) + Int64Bytes(h.dataEnd) + Bytes(h.dataSize, 4)
  }

  function DecodeHeader(s: seq<byte>): Header
    requires |s| >= HEADER_SIZE
  {
    Header(Int64(s[0..8]), Number(s[8..16]), Int64(s[16..24]), Int64(s[24..32]), ReadSid(s[32..92]),
           Int64(s[92..100]), Int64(s[100..108]), Number(s[108..112]))
  }

  lemma FieldsOf(a: seq<byte>, b: seq<byte>, c: seq<byte>, d: seq<byte>, e: seq<byte>, f: seq<byte>, g: seq<byte>, h: seq<byte>, rest: seq<byte>)
    requires |a| == |b| == |c| == |d| == |f| == |g| == 8 && |e| == 60 && |h| == 4
    ensures var s := a + b + c + d + e + f + g + h + rest;
      && s[0..8] == a && s[8..16] == b && s[16..24] == c && s[24..32] == d && s[32..92] == e
      && s[92..100] == f && s[100..108] == g && s[108..112] == h
  {
  }

  /** Where each field of a header lies: little-endian numbers at 0, 8, 16, 24, 92, 100 and 108, and the characters of the stream
      id, followed by zeros, from 32 to 91. */
  ghost predicate HeaderSays(s: seq<byte>, h: Header) {
    && |s| == 112 && Int64(s[0..8]) == h.offset && Number(s[8..16]) == h.pktId && Int64(s[16..24]) == h.pktTime
    && Int64(s[24..32]) == h.nextInStream && Int64(s[92..100]) == h.dataStart && Int64(s[100..108]) == h.dataEnd
    && Number(s[108..112]) == h.dataSize && SidSays(s[32..92], h.streamId)
  }

  ghost predicate SidSays(s: seq<byte>, sid: string) {
    |s| == 60 && forall i :: 0 <= i < 60 ==> s[i] == if i < |sid| then sid[i] as int else 0
  }

  lemma HeaderPlaces(h: Header)
    requires InRange(h) && GoodSid(h.streamId)
    ensures HeaderSays(HeaderBytes(h), h)
  {
    hide Bytes, Number, Int64, Int64Bytes, StoredSid, SidSays;
    FieldsOf(Int64Bytes(h.offset), Bytes(h.pktId, 8), Int64Bytes(h.pktTime), Int64Bytes(h.nextInStream), StoredSid(h.streamId),
             Int64Bytes(h.dataStart), Int64Bytes(h.dataEnd), Bytes(h.dataSize, 4), []);
    assert HeaderBytes(h) + [] == HeaderBytes(h);
    Int64RoundTrip(h.offset);
    UnsignedRoundTrip(h.pktId);
    Int64RoundTrip(h.pktTime);
    Int64RoundTrip(h.nextInStream);
    Int64RoundTrip(h.dataStart);
    Int64RoundTrip(h.dataEnd);
    UnsignedRoundTrip(h.dataSize);
    StoredChars(h.streamId);
  }

  lemma StoredChars(sid: string)
    requires GoodSid(sid)
    ensures SidSays(StoredSid(sid), sid)
  {
    assert StoredSid(sid)[..|sid|] == AsciiBytes(sid);
  }

  /** What is written is read back, up to what the fixed-length stream id loses. */
  lemma HeaderRoundTrip(h: Header, rest: seq<byte>)
    requires InRange(h)
    ensures DecodeHeader(HeaderBytes(h) + rest) == h.(streamId := ReadSid(StoredSid(h.streamId)))
    ensures DecodeHeader(HeaderBytes(h) + rest) == h <==> GoodSid(h.streamId)
  {
    hide Bytes, Number, Int64, Int64Bytes, ReadSid, StoredSid, GoodSid;
    FieldsOf(Int64Bytes(h.offset), Bytes(h.pktId, 8), Int64Bytes(h.pktTime), Int64Bytes(h.nextInStream), StoredSid(h.streamId),
             Int64Bytes(h.dataStart), Int64Bytes(h.dataEnd), Bytes(h.dataSize, 4), rest);
    Int64RoundTrip(h.offset);
    UnsignedRoundTrip(h.pktId);
    Int64RoundTrip(h.pktTime);
    Int64RoundTrip(h.nextInStream);
    Int64RoundTrip(h.dataStart);
    Int64RoundTrip(h.dataEnd);
    UnsignedRoundTrip(h.dataSize);
    SidSurvives(h.streamId);
  }

  // ---------- in-place serialization ----------

  /** Copy a field into the span. */
  method PutBytes(span: array<byte>, at: nat, s: seq<byte>)
    requires at + |s| <= span.Length
    modifies span
    ensures span[..] == Splice(old(span[..]), at, s)
  {
    var i := 0;
    while i < |s|
      invariant 0 <= i <= |s|
      invariant span[..] == Splice(old(span[..]), at, s[..i])
    {
      span[at + i] := s[i];
      i := i + 1;
    }
    assert s[..i] == s;
  }

  lemma SpliceJoin(t: seq<byte>, at: nat, a: seq<byte>, b: seq<byte>)
    requires at + |a| + |b| <= |t|
    ensures Splice(Splice(t, at, a), at + |a|, b) == Splice(t, at, a + b)
  {
  }

  /** A packet's header fields, and their forms in a byte buffer. */
  class RingPacket {
    var offset: int
    var pktId: int
    var pktTime: int
    var nextInStream: int
    var streamId: string
    var dataStart: int
    var dataEnd: int
    var dataSize: int

    function Fields(): Header
      reads this
    {
      Header(offset, pktId, pktTime, nextInStream, streamId, dataStart, dataEnd, dataSize)
    }

    constructor (h: Header)
      ensures Fields() == h
    {
      offset, pktId, pktTime, nextInStream := h.offset, h.pktId, h.pktTime, h.nextInStream;
      streamId, dataStart, dataEnd, dataSize := h.streamId, h.dataStart, h.dataEnd, h.dataSize;
    }

    method Serialize(span: array<byte>, at: nat)
      requires at + HEADER_SIZE <= span.Length && InRange(Fields())
      modifies span
      ensures span[..] == Splice(old(span[..]), at, HeaderBytes(Fields()))
    {
      hide Bytes, Int64Bytes, StoredSid, Splice, GoodSid;
      ghost var before := span[..];
      var off := at;
      PutBytes(span, off, Int64Bytes(offset));
      off := off + 8;
      SpliceJoin(before, at, Int64Bytes(offset), Bytes(pktId, 8));
      PutBytes(span, off, Bytes(pktId, 8));
      off := off + 8;
      ghost var done := Int64Bytes(offset) + Bytes(pktId, 8);
      SpliceJoin(before, at, done, Int64Bytes(pktTime));
      PutBytes(span, off, Int64Bytes(pktTime));
      off := off + 8;
      done := done + Int64Bytes(pktTime);
      SpliceJoin(before, at, done, Int64Bytes(nextInStream));
      PutBytes(span, off, Int64Bytes(nextInStream));
      off := off + 8;
      done := done + Int64Bytes(nextInStream);
      SpliceJoin(before, at, done, StoredSid(streamId));
      PutBytes(span, off, StoredSid(streamId));
      off := off + MAX_STREAM_ID;
      done := done + StoredSid(streamId);
      SpliceJoin(before, at, done, Int64Bytes(dataStart));
      PutBytes(span, off, Int64Bytes(dataStart));
      off := off + 8;
      done := done + Int64Bytes(dataStart);
      SpliceJoin(before, at, done, Int64Bytes(dataEnd));
      PutBytes(span, off, Int64Bytes(dataEnd));
      off := off + 8;
      done := done + Int64Bytes(dataEnd);
      SpliceJoin(before, at, done, Bytes(dataSize, 4));
      PutBytes(span, off, Bytes(dataSize, 4));
    }

    static method Deserialize(span: array<byte>, at: nat) returns (pkt: RingPacket)
      requires at + HEADER_SIZE <= span.Length
      ensures fresh(pkt) && pkt.Fields() == DecodeHeader(span[at..at + HEADER_SIZE])
    {
      hide Number, Int64, ReadSid;
      var s := span[at..at + HEADER_SIZE];
      pkt := new RingPacket(Header(0, 0, 0, 0, seq(MAX_STREAM_ID, _ => ' '), 0, 0, 0));
      var off := 0;
      pkt.offset := Int64(s[off..off + 8]);
      off := off + 8;
      pkt.pktId := Number(s[off..off + 8]);
      off := off + 8;
      pkt.pktTime := Int64(s[off..off + 8]);
      off := off + 8;
      pkt.nextInStream := Int64(s[off..off + 8]);
      off := off + 8;
      pkt.streamId := ReadSid(s[off..off + MAX_STREAM_ID]);
      off := off + MAX_STREAM_ID;
      pkt.dataStart := Int64(s[off..off + 8]);
      off := off + 8;
      pkt.dataEnd := Int64(s[off..off + 8]);
      off := off + 8;
      pkt.dataSize := Number(s[off..off + 4]);
    }
  }
}
