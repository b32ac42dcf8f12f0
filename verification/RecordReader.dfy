/** Reading records from a stream through a buffer, whatever the sizes of the reads. */
module RecordReader {
  import opened LittleEndian
  import opened Options
  import opened RingTypes

  const MINRECLEN := 40
  const MAXRECLEN := 10485760
  const SKIPLEN := 1

  const MS_ENDOFFILE := 1
  const MS_NOERROR := 0
  const MS_NOTSEED := -2
  const MS_OUTOFRANGE := -4

  // ---------- the parser, as far as the reader sees it ----------

  /** A record of so many bytes; not a record, with an error code; or so many more bytes needed. */
  datatype Parsed = Found(reclen: int) | Bad(code: int) | Need(hint: int)

  /** The parser sees the bytes and whether they are the last ones. */
  type Parser = (seq<byte>, bool) -> Parsed

  /** What the reader makes of it. */
  datatype Verdict = IsRecord(reclen: int) | NotData(code: int) | TooLong | More

  function Look(parse: Parser, buf: seq<byte>, atEnd: bool): Verdict {
    match parse(buf, atEnd)
    case Found(reclen) => IsRecord(reclen)
    case Bad(code) => NotData(code)
    case Need(hint) => if |buf| + hint > MAXRECLEN then TooLong else More
  }

  /** A record lies in the buffer, an error code is negative, and a wish for more is for something. */
  predicate Sensible(b: seq<byte>, p: Parsed) {
    match p
    case Found(reclen) => 0 < reclen <= |b|
    case Bad(code) => code < 0
    case Need(hint) => hint > 0
  }

  /** What a parser says once it stops asking for more does not change when more bytes come; and it tells the end of the
      stream from its middle only while it would ask for more. */
  ghost predicate PrefixStable(parse: Parser) {
    && (forall b, e :: Sensible(b, parse(b, e)))
    && (forall b, b', e {:trigger Look(parse, b, false), Look(parse, b', e)} ::
          MINRECLEN <= |b| && b <= b' && |b'| <= MAXRECLEN && Look(parse, b, false) != More ==> Look(parse, b', e) == Look(parse, b, false))
  }

  // ---------- miniSEED 3 ----------

  const MS3FSDH_LENGTH := 40

  /** MS3_ISVALIDHEADER: the signature and a possible time of day. */
  predicate Mseed3Header(buf: seq<byte>)
    requires |buf| >= 15
  {
    buf[0] == 'M' as int && buf[1] == 'S' as int && buf[2] == 3 && buf[12] <= 23 && buf[13] <= 59 && buf[14] <= 60
  }

  /** The length that the header states: itself, source identifier, extra headers and data. */
  function Mseed3Length(buf: seq<byte>): nat
    requires |buf| >= MINRECLEN
  {
    MS3FSDH_LENGTH + buf[33] + Number(buf[34..36]) + Number(buf[36..40])
  }

  /** Detection and parsing of miniSEED 3 records; unpack is the return code of unpacking a complete record. */
  function ParseMseed3(unpack: seq<byte> -> int): Parser {
    (buf: seq<byte>, atEnd: bool) =>
      if |buf| < MINRECLEN || !Mseed3Header(buf) then Bad(MS_NOTSEED)
      else
        var reclen := Mseed3Length(buf);
        if reclen > MAXRECLEN then Bad(MS_OUTOFRANGE)
        else if reclen > |buf| then Need(reclen - |buf|)
        else if unpack(buf[..reclen]) == MS_NOERROR then Found(reclen)
        else Bad(unpack(buf[..reclen]))
  }

  /** The miniSEED 3 parser is prefix-stable, whatever unpacking finds. */
  lemma Mseed3Stable(unpack: seq<byte> -> int)
    requires forall record :: unpack(record) <= MS_NOERROR
    ensures PrefixStable(ParseMseed3(unpack))
  {
    hide Number;
    var parse := ParseMseed3(unpack);
    forall b, e ensures Sensible(b, parse(b, e)) {
      if |b| >= MINRECLEN && Mseed3Length(b) <= |b| { assert unpack(b[..Mseed3Length(b)]) <= MS_NOERROR; }
    }
    forall b, b', e {:trigger Look(parse, b, false), Look(parse, b', e)} |
      MINRECLEN <= |b| && b <= b' && |b'| <= MAXRECLEN && Look(parse, b, false) != More
      ensures Look(parse, b', e) == Look(parse, b, false)
    {
      Mseed3Extends(unpack, b, b', e);
    }
  }

  lemma SameHeader(b: seq<byte>, b': seq<byte>)
    requires MINRECLEN <= |b| && b <= b'
    ensures Mseed3Header(b) == Mseed3Header(b') && Mseed3Length(b) == Mseed3Length(b')
  {
    hide Number;
    assert forall i :: 0 <= i < |b| ==> b[i] == b'[i];
    assert b[34..36] == b'[34..36] && b[36..40] == b'[36..40];
  }

  lemma Mseed3Extends(unpack: seq<byte> -> int, b: seq<byte>, b': seq<byte>, e: bool)
    requires MINRECLEN <= |b| && b <= b' && |b'| <= MAXRECLEN && Look(ParseMseed3(unpack), b, false) != More
    ensures Look(ParseMseed3(unpack), b', e) == Look(ParseMseed3(unpack), b, false)
  {
    hide Mseed3Header, Mseed3Length;
    SameHeader(b, b');
    var reclen := Mseed3Length(b);
    assert reclen <= |b| ==> b[..reclen] == b'[..reclen];
    assert reclen > |b| && reclen <= MAXRECLEN ==> |b| + (reclen - |b|) <= MAXRECLEN;
  }

  /** What makes miniSEED 3 bytes a record, byte by byte: at least 40 of them, "MS" and 3, an hour, minute and second, and no
      fewer and no more than 10 MiB of what the lengths of the identifier, the extra headers and the data add up to. */
  lemma Mseed3Means(unpack: seq<byte> -> int, buf: seq<byte>, atEnd: bool)
    requires |buf| >= 40
    ensures Number(buf[34..36]) == buf[34] as int + buf[35] as int * 0x100
    ensures Number(buf[36..40]) == buf[36] as int + buf[37] as int * 0x100 + buf[38] as int * 0x1_0000 + buf[39] as int * 0x100_0000
    ensures var p := ParseMseed3(unpack)(buf, atEnd);
      var length := 40 + buf[33] as int + Number(buf[34..36]) + Number(buf[36..40]);
      if !(buf[..3] == [77, 83, 3] && buf[12] < 24 && buf[13] < 60 && buf[14] <= 60) then p == Bad(-2)
      else if length > 10 * 1024 * 1024 then p == Bad(-4)
      else if length > |buf| then p == Need(length - |buf|)
      else p == if unpack(buf[..length]) == 0 then Found(length) else Bad(unpack(buf[..length]))
  {
    var parse := ParseMseed3(unpack);
    assert Mseed3Header(buf) <==> buf[..3] == [77, 83, 3] && buf[12] < 24 && buf[13] < 60 && buf[14] <= 60;
    assert Mseed3Length(buf) == 40 + buf[33] as int + Number(buf[34..36]) + Number(buf[36..40]);
    NumberOfTwo(buf[34..36]);
    NumberOfFour(buf[36..40]);
    assert buf[..3] == [buf[0], buf[1], buf[2]];
  }

  /** What is at this place of the stream. */
  function Decision(parse: Parser, rest: seq<byte>): Verdict {
    if |rest| >= MAXRECLEN then Look(parse, rest[..MAXRECLEN], false) else Look(parse, rest, true)
  }

  lemma FullBufferDecides(parse: Parser, b: seq<byte>, e: bool)
    requires PrefixStable(parse) && |b| == MAXRECLEN
    ensures Look(parse, b, e) != More && Look(parse, b, e) == Look(parse, b, false)
  {
    assert Look(parse, b, false) != More;
  }

  /** Whatever part of the stream is in the buffer, a verdict on it is the verdict on the stream. */
  lemma VerdictIsDecision(parse: Parser, buf: seq<byte>, rest: seq<byte>, atEnd: bool)
    requires PrefixStable(parse) && MINRECLEN <= |buf| <= MAXRECLEN && buf <= rest && (atEnd ==> buf == rest)
    ensures Look(parse, buf, atEnd) != More || atEnd ==> Decision(parse, rest) == Look(parse, buf, atEnd)
  {
    if |rest| >= MAXRECLEN {
      assert buf <= rest[..MAXRECLEN];
      if atEnd {
        assert rest[..MAXRECLEN] == buf;
        FullBufferDecides(parse, buf, atEnd);
      }
    }
  }

  // ---------- what one call should give ----------

  /** The return code, and where the stream then stands. */
  datatype Outcome = Outcome(code: int, start: nat, pos: nat)

  predicate Selected(selection: Option<seq<byte> -> bool>, record: seq<byte>) {
    selection.None? || selection.value(record)
  }

  lemma RecordFits(parse: Parser, rest: seq<byte>)
    requires PrefixStable(parse)
    ensures Decision(parse, rest).IsRecord? ==> 0 < Decision(parse, rest).reclen <= |rest|
    ensures Decision(parse, rest).NotData? ==> Decision(parse, rest).code < 0
  {
  }

  /** From a place in the stream on: the next selected record; or how the search for it ends. */
  ghost function NextRecord(parse: Parser, content: seq<byte>, pos: nat, none: bool, skip: bool, selection: Option<seq<byte> -> bool>): (o: Outcome)
    requires pos <= |content| && PrefixStable(parse)
    ensures pos <= o.start <= o.pos <= |content| && (o.code == MS_NOERROR ==> o.start < o.pos)
    decreases |content| - pos
  {
    RecordFits(parse, content[pos..]);
    if |content| - pos < MINRECLEN then Outcome(if none then MS_NOTSEED else MS_ENDOFFILE, pos, pos)
    else match Decision(parse, content[pos..])
    case IsRecord(reclen) =>
      if Selected(selection, content[pos..pos + reclen]) then Outcome(MS_NOERROR, pos, pos + reclen)
      else NextRecord(parse, content, pos + reclen, none, skip, selection)
    case NotData(code) =>
      if skip then NextRecord(parse, content, pos + SKIPLEN, none, skip, selection) else Outcome(code, pos, pos)
    case TooLong =>
      if skip then NextRecord(parse, content, pos + SKIPLEN, none, skip, selection) else Outcome(MS_OUTOFRANGE, pos, pos)
    case More => Outcome(MS_ENDOFFILE, pos, pos)
  }

  /** All records from a place on, and the code that ends the reading. */
  ghost function AllRecords(parse: Parser, content: seq<byte>, pos: nat, none: bool, skip: bool, selection: Option<seq<byte> -> bool>)
    : (r: (seq<seq<byte>>, int))
    requires pos <= |content| && PrefixStable(parse)
    ensures r.1 != MS_NOERROR
    decreases |content| - pos
  {
    var o := NextRecord(parse, content, pos, none, skip, selection);
    if o.code != MS_NOERROR then ([], o.code)
    else
      var (records, code) := AllRecords(parse, content, o.pos, false, skip, selection);
      ([content[o.start..o.pos]] + records, code)
  }

  /** Whatever is read has been selected. */
  lemma {:induction false} NextSelected(parse: Parser, content: seq<byte>, pos: nat, none: bool, skip: bool, select: seq<byte> -> bool)
    requires pos <= |content| && PrefixStable(parse)
    ensures var o := NextRecord(parse, content, pos, none, skip, Some(select));
      o.code == MS_NOERROR ==> select(content[o.start..o.pos])
    decreases |content| - pos
  {
    hide Decision, PrefixStable;
    RecordFits(parse, content[pos..]);
    if pos + MINRECLEN <= |content| {
      NextStep(parse, content, pos, none, skip, Some(select));
      match Decision(parse, content[pos..]) {
        case IsRecord(reclen) =>
          if !select(content[pos..pos + reclen]) { NextSelected(parse, content, pos + reclen, none, skip, select); }
        case NotData(_) => if skip { NextSelected(parse, content, pos + SKIPLEN, none, skip, select); }
        case TooLong => if skip { NextSelected(parse, content, pos + SKIPLEN, none, skip, select); }
        case More =>
      }
    }
  }

  lemma {:induction false} AllSelected(parse: Parser, content: seq<byte>, pos: nat, none: bool, skip: bool, select: seq<byte> -> bool)
    requires pos <= |content| && PrefixStable(parse)
    ensures forall record :: record in AllRecords(parse, content, pos, none, skip, Some(select)).0 ==> select(record)
    decreases |content| - pos
  {
    hide NextRecord, PrefixStable;
    var o := NextRecord(parse, content, pos, none, skip, Some(select));
    NextSelected(parse, content, pos, none, skip, select);
    if o.code == MS_NOERROR { AllSelected(parse, content, o.pos, false, skip, select); }
  }

  // ---------- a stream of records ----------

  function Joined(records: seq<seq<byte>>): seq<byte> {
    if records == [] then [] else records[0] + Joined(records[1..])
  }

  function Kept(records: seq<seq<byte>>, select: seq<byte> -> bool): (kept: seq<seq<byte>>)
    ensures forall record :: record in kept <==> record in records && select(record)
  {
    if records == [] then []
    else if select(records[0]) then [records[0]] + Kept(records[1..], select) else Kept(records[1..], select)
  }

  /** The parser takes each of these for a record of its own length. */
  ghost predicate AllRecognized(parse: Parser, records: seq<seq<byte>>) {
    forall record :: record in records ==> 40 <= |record| <= 10 * 1024 * 1024 && parse(record, false) == Found(|record|)
  }

  /** Bytes that follow do not change what a whole record is taken for. */
  lemma WholeRecord(parse: Parser, record: seq<byte>, rest: seq<byte>)
    requires PrefixStable(parse) && 40 <= |record| <= MAXRECLEN && parse(record, false) == Found(|record|)
    ensures Decision(parse, record + rest) == IsRecord(|record|)
  {
    var all := record + rest;
    var b := if |all| >= MAXRECLEN then all[..MAXRECLEN] else all;
    assert record <= b && Look(parse, record, false) == IsRecord(|record|);
    assert Look(parse, b, |all| < MAXRECLEN) == Look(parse, record, false);
  }

  /** A whole record, selected or not, and what is read after it. */
  lemma OneRead(parse: Parser, before: seq<byte>, record: seq<byte>, rest: seq<byte>, none: bool, skip: bool, select: seq<byte> -> bool)
    requires PrefixStable(parse) && 40 <= |record| <= MAXRECLEN && parse(record, false) == Found(|record|)
    ensures var all, after := AllRecords(parse, before + (record + rest), |before|, none, skip, Some(select)),
                              AllRecords(parse, (before + record) + rest, |before + record|, none && !select(record), skip, Some(select));
      all == if select(record) then ([record] + after.0, after.1) else after
  {
    hide PrefixStable, Decision, NextRecord;
    var content := before + (record + rest);
    assert content == (before + record) + rest;
    assert content[|before|..] == record + rest && content[|before|..|before| + |record|] == record;
    WholeRecord(parse, record, rest);
    NextStep(parse, content, |before|, none, skip, Some(select));
  }

  /** Records one after the other are read one after the other: those selected, in their order, and then the end of the file,
      or that there was no data if none was selected. */
  lemma {:induction false} RecordsRead(parse: Parser, before: seq<byte>, records: seq<seq<byte>>, none: bool, skip: bool, select: seq<byte> -> bool)
    requires PrefixStable(parse) && AllRecognized(parse, records)
    ensures var kept := Kept(records, select);
      AllRecords(parse, before + Joined(records), |before|, none, skip, Some(select)) == (kept, if kept == [] && none then -2 else 1)
    decreases |records|
  {
    hide PrefixStable, NextRecord;
    if records == [] {
      EndStep(parse, before + Joined(records), |before|, none, skip, Some(select));
    } else {
      hide AllRecords;
      assert records[0] in records;
      OneRead(parse, before, records[0], Joined(records[1..]), none, skip, select);
      RecordsRead(parse, before + records[0], records[1..], none && !select(records[0]), skip, select);
    }
  }

  /** Where skipping is on, bytes at which no record begins are passed over one by one. */
  lemma {:induction false} JunkSkipped(parse: Parser, content: seq<byte>, pos: nat, count: nat, none: bool, selection: Option<seq<byte> -> bool>)
    requires PrefixStable(parse) && pos + count + 40 <= |content|
    requires forall p :: pos <= p < pos + count ==> Decision(parse, content[p..]).NotData? || Decision(parse, content[p..]).TooLong?
    ensures NextRecord(parse, content, pos, none, true, selection) == NextRecord(parse, content, pos + count, none, true, selection)
    decreases count
  {
    hide PrefixStable, Decision, NextRecord;
    if count > 0 {
      assert Decision(parse, content[pos..]).NotData? || Decision(parse, content[pos..]).TooLong?;
      NextStep(parse, content, pos, none, true, selection);
      JunkSkipped(parse, content, pos + 1, count - 1, none, selection);
    }
  }

  // ---------- the stream and the buffer ----------

  class Input {
    const content: seq<byte>
    var pos: nat
    var eof: bool

    constructor (content: seq<byte>)
      ensures this.content == content && pos == 0 && !eof
    {
      this.content, pos, eof := content, 0, false;
    }

    /** Some of the bytes that follow, at least one while there are any; the end may be noticed together with the last
        bytes or only afterwards. */
    method Read(buffer: array<byte>, at: nat, size: nat) returns (count: nat)
      requires pos <= |content| && at + size <= buffer.Length && size > 0 && !eof
      modifies this, buffer
      ensures count <= size && pos == old(pos) + count <= |content| && (count == 0 <==> old(pos) == |content|)
      ensures (eof ==> pos == |content|) && (count == 0 ==> eof)
      ensures buffer[..] == Splice(old(buffer[..]), at, content[old(pos)..pos])
    {
      if pos == |content| {
        eof := true;
        assert buffer[..] == Splice(buffer[..], at, []);
        return 0;
      }
      count :| 0 < count <= size && count <= |content| - pos;
      PutBytes(buffer, at, content[pos..pos + count]);
      pos := pos + count;
      var noticed: bool := *;
      eof := noticed && pos == |content|;
    }
  }

  class MS3FileParam {
    const input: Input
    const readbuffer: array<byte>
    var readlength: nat
    var readoffset: nat
    var streampos: nat
    var recordcount: nat

    constructor (input: Input)
      requires input.pos <= |input.content| && !input.eof
      ensures this.input == input && fresh(readbuffer) && Valid() && streampos == input.pos && recordcount == 0
    {
      this.input, readbuffer := input, new byte[MAXRECLEN];
      readlength, readoffset, streampos, recordcount := 0, 0, input.pos, 0;
    }

    ghost function Unread(): seq<byte>
      requires readoffset <= readlength <= readbuffer.Length
      reads this, readbuffer
    {
      readbuffer[readoffset..readlength]
    }

    /** The unread buffer is the slice of the stream that starts at streampos and ends where reading has got to. */
    ghost predicate Valid()
      reads this, readbuffer, input
    {
      && readbuffer.Length == MAXRECLEN && readoffset <= readlength <= MAXRECLEN
      && streampos <= input.pos <= |input.content| && (input.eof ==> input.pos == |input.content|)
      && Unread() == input.content[streampos..input.pos]
    }

    /** ms3_shift_msfp: bytes off the front; the stream position moves on by those that were unread. */
    method Shift(shift: int)
      requires Valid()
      modifies this`readlength, this`readoffset, this`streampos, readbuffer
      ensures Valid()
      ensures shift <= 0 || shift > old(readlength) ==>
        readlength == old(readlength) && readoffset == old(readoffset) && streampos == old(streampos) && readbuffer[..] == old(readbuffer[..])
      ensures 0 < shift <= old(readlength) ==> readlength == old(readlength) - shift && readbuffer[..readlength] == old(readbuffer[..readlength])[shift..]
      ensures 0 < shift <= old(readlength) ==> readoffset == if shift < old(readoffset) then old(readoffset) - shift else 0
      ensures 0 < shift <= old(readlength) ==> streampos == old(streampos) + if shift < old(readoffset) then 0 else shift - old(readoffset)
    {
      if shift <= 0 || shift > readlength {
        return;
      }
      ghost var held, unread := readbuffer[..readlength], Unread();
      MoveDown(shift);
      SliceOfSlice(held, shift, readoffset);
      if shift < readoffset {
        readoffset := readoffset - shift;
        assert Unread() == held[shift..][readoffset..];
      } else {
        streampos := streampos + (shift - readoffset);
        readoffset := 0;
        assert Unread() == held[shift..];
      }
    }

    method MoveDown(shift: nat)
      requires shift <= readlength <= readbuffer.Length
      modifies this`readlength, readbuffer
      ensures readlength == old(readlength) - shift && readbuffer[..readlength] == old(readbuffer[..readlength])[shift..]
    {
      hide Splice;
      ghost var bytes := readbuffer[..];
      var moved := readbuffer[shift..readlength];
      PutBytes(readbuffer, 0, moved);
      Spliced(bytes, 0, moved, 0, 0);
      readlength := readlength - shift;
      assert readbuffer[..readlength] == moved;
    }

    /** More bytes of the stream go after those in the buffer. */
    method ReadMore()
      requires Valid() && !input.eof && readlength < MAXRECLEN
      modifies this`readlength, readbuffer, input
      ensures Valid() && (input.pos > old(input.pos) || input.eof) && input.pos >= old(input.pos)
    {
      hide Splice;
      ghost var bytes, unread, from, had := readbuffer[..], Unread(), input.pos, readlength;
      var readcount := input.Read(readbuffer, readlength, MAXRECLEN - readlength);
      ghost var arrived := input.content[from..input.pos];
      Spliced(bytes, had, arrived, readoffset, had);
      assert readbuffer[readoffset..had] == unread;
      assert readbuffer[had..had + readcount] == arrived;
      readlength := readlength + readcount;
      Joins(input.content, streampos, from, input.pos);
      assert Unread() == unread + arrived;
    }

    /** Make room and read: something arrives, or the end is noticed, or the buffer is full. */
    method Fill()
      requires Valid() && !input.eof
      modifies this`readlength, this`readoffset, this`streampos, readbuffer, input
      ensures Valid() && streampos == old(streampos)
      ensures input.pos > old(input.pos) || input.eof || |Unread()| == MAXRECLEN
      ensures input.pos >= old(input.pos)
    {
      if readlength - readoffset <= 0 {
        readlength, readoffset := 0, 0;
      } else if readoffset > 0 {
        Shift(readoffset);
      }
      if MAXRECLEN - readlength > 0 {
        ReadMore();
      }
    }

    /** Go on past bytes that have been dealt with. */
    method Advance(count: nat)
      requires Valid() && count <= |Unread()|
      modifies this`readoffset, this`streampos
      ensures Valid() && streampos == old(streampos) + count
    {
      ghost var unread := Unread();
      readoffset, streampos := readoffset + count, streampos + count;
      assert Unread() == unread[count..];
    }

    /** Try the parser on the unread buffer: take a record, skip, ask for more, or end. */
    method Examine(parse: Parser, skip: bool, selection: Option<seq<byte> -> bool>) returns (done: bool, retcode: int, record: seq<byte>, more: bool)
      requires Valid() && PrefixStable(parse) && |Unread()| >= MINRECLEN
      modifies this`readoffset, this`streampos, this`recordcount
      ensures Valid() && streampos >= old(streampos)
      ensures var none := old(recordcount) == 0;
        var o := NextRecord(parse, input.content, old(streampos), none, skip, selection);
        && (done ==> Returns(o, retcode, record, old(recordcount)))
        && (!done ==> recordcount == old(recordcount) && o == NextRecord(parse, input.content, streampos, none, skip, selection))
        && (!done && streampos == old(streampos) ==> more && !input.eof && |Unread()| < MAXRECLEN)
    {
      hide NextRecord, PrefixStable, Selected;
      var buf := readbuffer[readoffset..readlength];
      VerdictMeans(parse, buf, input.content, streampos, input.eof, recordcount == 0, skip, selection);
      done, retcode, record, more := false, MS_NOERROR, [], false;
      match parse(buf, input.eof) {
        case Found(reclen) =>
          record := buf[..reclen];
          done := Selected(selection, record);
          Advance(reclen);
          if done {
            recordcount := recordcount + 1;
          }
        case Bad(code) =>
          if skip {
            Advance(SKIPLEN);
          } else {
            done, retcode := true, code;
          }
        case Need(hint) =>
          more := true;
          if |buf| + hint > MAXRECLEN {
            if skip {
              Advance(SKIPLEN);
            } else {
              done, retcode := true, MS_OUTOFRANGE;
            }
          } else if input.eof {
            done, retcode := true, MS_ENDOFFILE;
          }
      }
    }

    /** What a call that ends this way leaves behind. */
    ghost predicate Returns(o: Outcome, retcode: int, record: seq<byte>, count: nat)
      reads this, input
    {
      && retcode == o.code && streampos == o.pos && recordcount == count + (if retcode == MS_NOERROR then 1 else 0)
      && (retcode == MS_NOERROR ==> o.start <= o.pos <= |input.content| && record == input.content[o.start..o.pos])
    }

    lemma ReturnsAtEnd(o: Outcome, retcode: int, record: seq<byte>, count: nat)
      requires o == Outcome(retcode, streampos, streampos) && retcode != MS_NOERROR && count == recordcount
      ensures Returns(o, retcode, record, count)
    {
    }

    lemma Sizes()
      requires Valid()
      ensures readoffset <= readlength <= readbuffer.Length && |Unread()| == readlength - readoffset == input.pos - streampos
      ensures streampos <= input.pos <= |input.content| && (input.eof ==> input.pos == |input.content|)
    {
    }

    /** Read more if that is called for, examine, and end when nothing is left. Any other turn gets further: in the stream,
        in reading it, in noticing its end, or in learning that the parser wants more. */
    method Turn(parse: Parser, skip: bool, selection: Option<seq<byte> -> bool>, wanted: bool)
      returns (done: bool, retcode: int, record: seq<byte>, more: bool)
      requires Valid() && PrefixStable(parse)
      modifies this, readbuffer, input
      ensures Valid() && streampos <= input.pos <= |input.content|
      ensures var o := NextRecord(parse, input.content, old(streampos), old(recordcount) == 0, skip, selection);
        && (done ==> Returns(o, retcode, record, old(recordcount)))
        && (!done ==> recordcount == old(recordcount) && o == NextRecord(parse, input.content, streampos, recordcount == 0, skip, selection))
      ensures streampos >= old(streampos) && input.pos >= old(input.pos)
      ensures !done && streampos == old(streampos) && input.pos == old(input.pos) ==>
        (input.eof && !old(input.eof)) || (input.eof == old(input.eof) && more && !wanted)
    {
      hide NextRecord, PrefixStable, Valid, Returns, Unread;
      done, retcode, record, more := false, MS_NOERROR, [], wanted;
      Sizes();
      if !input.eof && (readlength - readoffset < MINRECLEN || more) {
        Fill();
      }
      Sizes();
      if readlength - readoffset >= MINRECLEN {
        done, retcode, record, more := Examine(parse, skip, selection);
        if done {
          Sizes();
          return;
        }
      }
      Sizes();
      if input.eof && readlength - readoffset < MINRECLEN {
        EndStep(parse, input.content, streampos, recordcount == 0, skip, selection);
        done, retcode, record := true, if recordcount == 0 then MS_NOTSEED else MS_ENDOFFILE, [];
        ReturnsAtEnd(Outcome(retcode, streampos, streampos), retcode, record, recordcount);
      }
    }

    /** One call of the reader. Its return code, its record and the place where it leaves the stream depend on the stream and
        the place it starts from alone, not on how the reads are cut; and it ends. */
    method ReadRecord(parse: Parser, skip: bool, selection: Option<seq<byte> -> bool>) returns (retcode: int, record: seq<byte>)
      requires Valid() && PrefixStable(parse)
      modifies this, readbuffer, input
      ensures Valid()
      ensures Returns(NextRecord(parse, input.content, old(streampos), old(recordcount) == 0, skip, selection), retcode, record, old(recordcount))
    {
      hide NextRecord, PrefixStable, Valid, Returns, Unread;
      Sizes();
      ghost var goal := NextRecord(parse, input.content, streampos, recordcount == 0, skip, selection);
      var done, more := false, false;
      retcode, record := MS_NOERROR, [];
      while !done
        invariant Valid() && streampos <= input.pos <= |input.content|
        invariant done ==> Returns(goal, retcode, record, old(recordcount))
        invariant !done ==> recordcount == old(recordcount) && goal == NextRecord(parse, input.content, streampos, recordcount == 0, skip, selection)
        decreases !done, |input.content| - streampos, |input.content| - input.pos, !input.eof, !more
      {
        done, retcode, record, more := Turn(parse, skip, selection, more);
      }
    }

    /** Calling the reader until it ends gives the same records for every way the reads are cut. */
    method ReadAll(parse: Parser, skip: bool, selection: Option<seq<byte> -> bool>) returns (records: seq<seq<byte>>, code: int)
      requires Valid() && PrefixStable(parse)
      modifies this, readbuffer, input
      ensures (records, code) == AllRecords(parse, input.content, old(streampos), old(recordcount) == 0, skip, selection)
      ensures selection.Some? ==> forall record :: record in records ==> selection.value(record)
    {
      hide NextRecord, PrefixStable, Valid, AllRecords;
      Sizes();
      ghost var goal := AllRecords(parse, input.content, streampos, recordcount == 0, skip, selection);
      records, code := [], MS_NOERROR;
      assert records + goal.0 == goal.0;
      while code == MS_NOERROR
        invariant Valid() && streampos <= |input.content|
        invariant code == MS_NOERROR ==> Continued(records, AllRecords(parse, input.content, streampos, recordcount == 0, skip, selection)) == goal
        invariant code != MS_NOERROR ==> goal == (records, code)
        decreases code == MS_NOERROR, |input.content| - streampos
      {
        AllStep(parse, input.content, streampos, recordcount == 0, skip, selection, records);
        var record;
        code, record := ReadRecord(parse, skip, selection);
        if code == MS_NOERROR {
          records := records + [record];
        }
        Sizes();
      }
      if selection.Some? {
        AllSelected(parse, input.content, old(streampos), old(recordcount) == 0, skip, selection.value);
      }
    }
  }

  /** Records already read, and those still to come. */
  function Continued(records: seq<seq<byte>>, rest: (seq<seq<byte>>, int)): (seq<seq<byte>>, int) {
    (records + rest.0, rest.1)
  }

  lemma AllStep(parse: Parser, content: seq<byte>, pos: nat, none: bool, skip: bool, selection: Option<seq<byte> -> bool>, records: seq<seq<byte>>)
    requires pos <= |content| && PrefixStable(parse)
    ensures var o := NextRecord(parse, content, pos, none, skip, selection);
      var all := AllRecords(parse, content, pos, none, skip, selection);
      && (o.code != MS_NOERROR ==> Continued(records, all) == (records, o.code))
      && (o.code == MS_NOERROR ==>
            o.pos <= |content|
            && Continued(records, all) == Continued(records + [content[o.start..o.pos]], AllRecords(parse, content, o.pos, false, skip, selection)))
  {
    hide NextRecord, PrefixStable;
    var o := NextRecord(parse, content, pos, none, skip, selection);
    assert records + [] == records;
    if o.code == MS_NOERROR {
      var rest := AllRecords(parse, content, o.pos, false, skip, selection);
      assert records + ([content[o.start..o.pos]] + rest.0) == records + [content[o.start..o.pos]] + rest.0;
    }
  }

  lemma SliceOfSlice(s: seq<byte>, shift: nat, offset: nat)
    requires shift <= |s| && offset <= |s|
    ensures shift < offset ==> s[shift..][offset - shift..] == s[offset..]
    ensures shift >= offset ==> s[shift..] == s[offset..][shift - offset..]
  {
  }

  lemma Joins(s: seq<byte>, a: nat, b: nat, c: nat)
    requires a <= b <= c <= |s|
    ensures s[a..b] + s[b..c] == s[a..c]
  {
  }

  /** What the parser's answer on the buffer means for the call. */
  lemma VerdictMeans(parse: Parser, buf: seq<byte>, content: seq<byte>, pos: nat, atEnd: bool, none: bool, skip: bool,
                     selection: Option<seq<byte> -> bool>)
    requires PrefixStable(parse) && MINRECLEN <= |buf| <= MAXRECLEN && pos + |buf| <= |content| && buf == content[pos..pos + |buf|]
    requires atEnd ==> pos + |buf| == |content|
    ensures var p, o := parse(buf, atEnd), NextRecord(parse, content, pos, none, skip, selection);
      && (p.Found? ==> 0 < p.reclen <= |buf| && content[pos..pos + p.reclen] == buf[..p.reclen]
                       && o == if Selected(selection, buf[..p.reclen]) then Outcome(MS_NOERROR, pos, pos + p.reclen)
                               else NextRecord(parse, content, pos + p.reclen, none, skip, selection))
      && (p.Bad? ==> p.code < 0 && o == if skip then NextRecord(parse, content, pos + SKIPLEN, none, skip, selection)
                                        else Outcome(p.code, pos, pos))
      && (p.Need? ==> p.hint > 0)
      && (p.Need? && |buf| + p.hint > MAXRECLEN ==> o == if skip then NextRecord(parse, content, pos + SKIPLEN, none, skip, selection)
                                                         else Outcome(MS_OUTOFRANGE, pos, pos))
      && (p.Need? && |buf| + p.hint <= MAXRECLEN && atEnd ==> o == Outcome(MS_ENDOFFILE, pos, pos))
  {
    hide PrefixStable, Decision, NextRecord;
    var rest := content[pos..];
    assert buf == rest[..|buf|] && (atEnd ==> buf == rest);
    VerdictIsDecision(parse, buf, rest, atEnd);
    NextStep(parse, content, pos, none, skip, selection);
    AnswerBounds(parse, buf, atEnd);
    assert parse(buf, atEnd).Found? ==> content[pos..pos + parse(buf, atEnd).reclen] == buf[..parse(buf, atEnd).reclen];
  }

  lemma AnswerBounds(parse: Parser, buf: seq<byte>, atEnd: bool)
    requires PrefixStable(parse)
    ensures Sensible(buf, parse(buf, atEnd))
  {
  }

  lemma NextStep(parse: Parser, content: seq<byte>, pos: nat, none: bool, skip: bool, selection: Option<seq<byte> -> bool>)
    requires PrefixStable(parse) && pos + MINRECLEN <= |content|
    ensures var d, o := Decision(parse, content[pos..]), NextRecord(parse, content, pos, none, skip, selection);
      && (d.IsRecord? ==> 0 < d.reclen <= |content| - pos
                          && o == if Selected(selection, content[pos..pos + d.reclen]) then Outcome(MS_NOERROR, pos, pos + d.reclen)
                                  else NextRecord(parse, content, pos + d.reclen, none, skip, selection))
      && (d.NotData? ==> o == if skip then NextRecord(parse, content, pos + SKIPLEN, none, skip, selection) else Outcome(d.code, pos, pos))
      && (d.TooLong? ==> o == if skip then NextRecord(parse, content, pos + SKIPLEN, none, skip, selection) else Outcome(MS_OUTOFRANGE, pos, pos))
      && (d.More? ==> o == Outcome(MS_ENDOFFILE, pos, pos))
  {
    hide Decision;
    RecordFits(parse, content[pos..]);
  }

  lemma EndStep(parse: Parser, content: seq<byte>, pos: nat, none: bool, skip: bool, selection: Option<seq<byte> -> bool>)
    requires PrefixStable(parse) && pos <= |content| < pos + MINRECLEN
    ensures NextRecord(parse, content, pos, none, skip, selection) == Outcome(if none then MS_NOTSEED else MS_ENDOFFILE, pos, pos)
  {
  }
}
