/** DataLink frames over a byte stream that arrives in arbitrary pieces: 'D' 'L' length, header, and then payload. */
module DataLinkFraming {
  import opened LittleEndian
  import opened Options
  import opened RingTypes

  const LETTER_D: byte := 'D' as int
  const LETTER_L: byte := 'L' as int

  // ---------- sending ----------

  /** A number as interpolated into the header text. */
  function Decimal(n: nat): string {
    if n < 10 then [(n + '0' as int) as char] else Decimal(n / 10) + [(n % 10 + '0' as int) as char]
  }

  predicate Digits(s: string) {
    forall i :: 0 <= i < |s| ==> '0' <= s[i] <= '9'
  }

  /** The number that digits stand for. */
  function Reading(s: string): nat
    requires Digits(s)
  {
    if s == [] then 0 else 10 * Reading(s[..|s| - 1]) + (s[|s| - 1] as int - 48)
  }

  /** A number is written in digits that stand for it, without a leading zero. */
  lemma {:induction false} DecimalReads(n: nat)
    ensures var s := Decimal(n); Digits(s) && Reading(s) == n && |s| >= 1 && (|s| > 1 ==> s[0] != '0') && (n > 0 ==> s[0] != '0')
  {
    if n >= 10 { DecimalReads(n / 10); }
    assert Decimal(n)[..|Decimal(n)| - 1] == if n < 10 then [] else Decimal(n / 10);
  }

  function HeaderText(header: string, value: nat, dlen: nat, addVal: bool, addSz: bool): string {
    if addVal && addSz then header + " " + Decimal(value) + " " + Decimal(dlen)
    else if addVal then header + " " + Decimal(value)
    else if addSz then header + " " + Decimal(dlen)
    else header
  }

  function Frame(hb: seq<byte>, payload: seq<byte>): seq<byte>
    requires |hb| < 256
  {
    [LETTER_D, LETTER_L, |hb|] + hb + payload
  }

  /** SendPacket up to the socket: nothing when the header does not fit its length byte. */
  method SendPacket(header: string, data: Option<seq<byte>>, value: nat, addVal: bool, addSz: bool) returns (wire: Option<seq<byte>>)
    ensures var payload := if data.Some? then data.value else [];
      var hb := AsciiBytes(HeaderText(header, value, |payload|, addVal, addSz));
      wire == if |hb| <= 255 then Some(Frame(hb, payload)) else None
    ensures var payload := if data.Some? then data.value else [];
      var hb := AsciiBytes(HeaderText(header, value, |payload|, addVal, addSz));
      wire.Some? ==> && |wire.value| == 3 + |hb| + |payload| && wire.value[..2] == [68, 76] && wire.value[2] == |hb|
                     && wire.value[3..3 + |hb|] == hb && wire.value[3 + |hb|..] == payload
  {
    hide Decimal, AsciiBytes, HeaderText;
    var dlen := if data.Some? then |data.value| else 0;
    var hb := AsciiBytes(HeaderText(header, value, dlen, addVal, addSz));
    if |hb| > 255 {
      return None;
    }
    var wp := new byte[3 + |hb| + dlen](_ => 0);
    wp[0], wp[1], wp[2] := LETTER_D, LETTER_L, |hb|;
    FrameImage(wp[..], hb, if data.Some? then data.value else []);
    PutBytes(wp, 3, hb);
    if data.Some? && dlen > 0 {
      PutBytes(wp, 3 + |hb|, data.value);
    }
    wire := Some(wp[..]);
  }

  /** The value follows the header if asked for, and then the payload's size if asked for, each after a space. */
  lemma HeaderTextForms(header: string, value: nat, dlen: nat)
    ensures HeaderText(header, value, dlen, false, false) == header
    ensures HeaderText(header, value, dlen, true, false) == header + [' '] + Decimal(value)
    ensures HeaderText(header, value, dlen, false, true) == header + [' '] + Decimal(dlen)
    ensures HeaderText(header, value, dlen, true, true) == HeaderText(HeaderText(header, value, dlen, true, false), value, dlen, false, true)
  {
  }

  /** For example: "OK 12 3" and three bytes. */
  lemma FrameLiteral()
    ensures Frame(AsciiBytes(HeaderText("OK", 12, 3, true, true)), [1, 2, 3]) == [68, 76, 7, 79, 75, 32, 49, 50, 32, 51, 1, 2, 3]
  {
    assert Decimal(12) == "12";
    assert HeaderText("OK", 12, 3, true, true) == "OK 12 3";
  }

  lemma FrameImage(w: seq<byte>, hb: seq<byte>, payload: seq<byte>)
    requires |hb| < 256 && |w| == 3 + |hb| + |payload| && w[..3] == [LETTER_D, LETTER_L, |hb|]
    ensures Splice(Splice(w, 3, hb), 3 + |hb|, payload) == Frame(hb, payload)
    ensures payload == [] ==> Splice(w, 3, hb) == Frame(hb, payload)
  {
    assert Splice(w, 3, hb) == w[..3] + hb + w[3 + |hb|..];
    assert Splice(w[..3] + hb + w[3 + |hb|..], 3 + |hb|, payload) == w[..3] + hb + payload;
  }

  /** The length byte of a frame whose first three bytes are there. */
  function BodyLength(p: seq<byte>): nat
    requires |p| >= 3
  {
    p[2]
  }

  // ---------- receiving ----------

  ghost function Flatten(pieces: seq<seq<byte>>): seq<byte> {
    if pieces == [] then [] else pieces[0] + Flatten(pieces[1..])
  }

  lemma {:induction false} FlattenSplit(pieces: seq<seq<byte>>, k: nat)
    requires k <= |pieces|
    ensures Flatten(pieces) == Flatten(pieces[..k]) + Flatten(pieces[k..])
  {
    if k > 0 {
      FlattenSplit(pieces[1..], k - 1);
      assert pieces[..k][1..] == pieces[1..][..k - 1] && pieces[k..] == pieces[1..][k - 1..];
    }
  }

  /** How many looks it takes until `need` bytes are there, when `have` are there before the first: at least one, if there is a
      piece to come, and all, if they are never there. */
  ghost function LooksNeeded(have: nat, coming: seq<seq<byte>>, need: nat): (k: nat)
    ensures k <= |coming|
    decreases |coming|
  {
    if coming == [] then 0
    else if have + |coming[0]| >= need then 1
    else 1 + LooksNeeded(have + |coming[0]|, coming[1..], need)
  }

  /** Looks that did not bring enough bytes come on top. */
  lemma {:induction false} LooksLater(have: nat, coming: seq<seq<byte>>, k: nat, need: nat)
    requires k <= |coming| && have + |Flatten(coming[..k])| < need
    ensures LooksNeeded(have, coming, need) == k + LooksNeeded(have + |Flatten(coming[..k])|, coming[k..], need)
    decreases k
  {
    if k > 0 {
      assert coming[..k][1..] == coming[1..][..k - 1] && coming[k..] == coming[1..][k - 1..];
      LooksLater(have + |coming[0]|, coming[1..], k - 1, need);
    } else {
      assert coming[k..] == coming;
    }
  }

  lemma FlattenFirst(pieces: seq<seq<byte>>, others: seq<seq<byte>>)
    requires others == if pieces == [] then [] else pieces[1..]
    ensures |Flatten(pieces)| == |Flatten(others)| + if pieces == [] then 0 else |pieces[0]|
  {
  }

  lemma NextLook(have: nat, coming: seq<seq<byte>>, need: nat)
    requires coming != []
    ensures LooksNeeded(have, coming, need)
         == if have + |coming[0]| >= need then 1 else 1 + LooksNeeded(have + |coming[0]|, coming[1..], need)
  {
  }

  /** What is received up to the first look that finds `need` bytes there: all that has arrived by then, as far as there was room. */
  ghost function Receivable(length: nat, room: nat, arrived: nat, coming: seq<seq<byte>>, need: nat): nat {
    Min(room, arrived + |Flatten(coming[..LooksNeeded(length + arrived, coming, need)])|)
  }

  /** When the next look is enough, that is what it finds. */
  lemma ReceivableAtOnce(length: nat, room: nat, arrived: nat, coming: seq<seq<byte>>, need: nat)
    requires length + arrived + (if coming == [] then 0 else |coming[0]|) >= need
    ensures Receivable(length, room, arrived, coming, need) == Min(room, arrived + if coming == [] then 0 else |coming[0]|)
  {
    if coming == [] {
      assert coming[..0] == [];
    } else {
      assert coming[..1] == [coming[0]] && Flatten([coming[0]]) == coming[0] + Flatten([]);
    }
  }

  /** The pieces left are those after the first look that finds `need` bytes there, and just what was there to receive by then
      has been received. */
  ghost predicate Punctual(length: nat, room: int, arrived: nat, coming: seq<seq<byte>>, need: nat, left: seq<seq<byte>>, received: int) {
    room >= 0 && left == coming[LooksNeeded(length + arrived, coming, need)..] && received == Receivable(length, room, arrived, coming, need)
  }

  /** A first look and those of the loop after it are together as many as are needed. */
  lemma LooksTaken(have: nat, coming: seq<seq<byte>>, have': nat, coming': seq<seq<byte>>, left: seq<seq<byte>>, need: nat)
    requires if coming == [] then coming' == [] && have' == have else coming' == coming[1..] && have' == have + |coming[0]|
    requires left == if have' >= need then coming' else coming'[LooksNeeded(have', coming', need)..]
    ensures left == coming[LooksNeeded(have, coming, need)..]
  {
  }

  lemma PunctualIs(length: nat, room: nat, arrived: nat, coming: seq<seq<byte>>, need: nat, left: seq<seq<byte>>, inbox': seq<byte>, received: int)
    requires left == coming[LooksNeeded(length + arrived, coming, need)..]
    requires 0 <= received <= room && (inbox' == [] || received == room)
    requires received == arrived + |Flatten(coming)| - |inbox'| - |Flatten(left)|
    ensures Punctual(length, room, arrived, coming, need, left, received)
  {
    hide LooksNeeded, Flatten;
    FlattenSplit(coming, LooksNeeded(length + arrived, coming, need));
  }

  lemma PunctualLooks(length: nat, room: int, arrived: nat, coming: seq<seq<byte>>, need: nat, left: seq<seq<byte>>, received: int)
    requires Punctual(length, room, arrived, coming, need, left, received)
    ensures |coming| - |left| == LooksNeeded(length + arrived, coming, need)
  {
  }

  /** Looks that did not bring what is needed, or one that did. */
  lemma LooksMade(have: nat, coming: seq<seq<byte>>, have': nat, left: seq<seq<byte>>, need: nat)
    requires LeftOf(left, coming) && have' + |Flatten(left)| == have + |Flatten(coming)|
    ensures have' < need ==> LooksNeeded(have, coming, need) == |coming| - |left| + LooksNeeded(have', left, need)
    ensures have' >= need && |coming| <= |left| + 1 && (coming != [] ==> left != coming) ==>
      LooksNeeded(have, coming, need) == |coming| - |left|
  {
    var k := |coming| - |left|;
    FlattenSplit(coming, k);
    if have' < need { LooksLater(have, coming, k, need); }
    if coming != [] && k == 1 { assert coming[..1] == [coming[0]] && Flatten([coming[0]]) == coming[0] + Flatten([]); }
  }

  lemma BodyPunctual(length: nat, room: nat, arrived: nat, coming: seq<seq<byte>>, need: nat, have: nat, coming': seq<seq<byte>>,
                     left: seq<seq<byte>>, inbox': seq<byte>, first: nat, more: nat)
    requires if coming == [] then coming' == [] && have == length + arrived else coming' == coming[1..] && have == length + arrived + |coming[0]|
    requires left == if have >= need then coming' else coming'[LooksNeeded(have, coming', need)..]
    requires first + more <= room && (inbox' == [] || first + more == room)
    requires length + first + more + |inbox'| + |Flatten(left)| == have + |Flatten(coming')|
    ensures Punctual(length, room, arrived, coming, need, left, first + more)
  {
    hide LooksNeeded, Flatten, Punctual;
    FlattenFirst(coming, coming');
    LooksTaken(length + arrived, coming, have, coming', left, need);
    PunctualIs(length, room, arrived, coming, need, left, inbox', first + more);
  }

  function Min(a: nat, b: nat): nat {
    if a < b then a else b
  }

  /** The pieces that are left after some looks. */
  ghost predicate LeftOf(left: seq<seq<byte>>, coming: seq<seq<byte>>) {
    |left| <= |coming| && left == coming[|coming| - |left|..]
  }

  lemma LeftOfLeft(left: seq<seq<byte>>, mid: seq<seq<byte>>, coming: seq<seq<byte>>)
    requires LeftOf(left, mid) && LeftOf(mid, coming)
    ensures LeftOf(left, coming)
  {
  }

  /** The receiving end of a connection: the bytes that have arrived, and, for each look at it from now on, the piece that
      arrives just before. A piece may be empty; after the last one the other side has closed. */
  class Socket {
    var inbox: seq<byte>
    var coming: seq<seq<byte>>

    /** All bytes not yet received. */
    ghost function Stream(): seq<byte>
      reads this
    {
      inbox + Flatten(coming)
    }

    /** The bytes that the next look finds. */
    function Found(): seq<byte>
      reads this
    {
      if coming == [] then inbox else inbox + coming[0]
    }

    lemma StreamSize()
      ensures |Stream()| == |inbox| + |Flatten(coming)|
      ensures |Found()| == |inbox| + if coming == [] then 0 else |coming[0]|
    {
    }

    method Look()
      modifies this
      ensures inbox == old(Found()) && coming == (if old(coming) == [] then [] else old(coming)[1..])
      ensures Stream() == old(Stream())
    {
      if coming != [] {
        inbox, coming := inbox + coming[0], coming[1..];
      }
    }

    /** A blocking socket looks until something is there or the other side has closed. */
    method Wait()
      modifies this
      ensures Stream() == old(Stream()) && (inbox == [] ==> coming == [])
    {
      while inbox == [] && coming != []
        invariant Stream() == old(Stream())
        decreases |coming|
      {
        Look();
      }
    }

    method Take(buffer: array<byte>, offset: nat, size: nat) returns (n: nat)
      requires offset + size <= buffer.Length && size > 0 && inbox != []
      modifies this`inbox, buffer
      ensures 0 < n == Min(size, |old(inbox)|) && inbox == old(inbox)[n..]
      ensures n <= |old(Stream())| && Stream() == old(Stream())[n..] && buffer[..] == Splice(old(buffer[..]), offset, old(Stream())[..n])
    {
      n := Min(size, |inbox|);
      assert Stream()[..n] == inbox[..n];
      PutBytes(buffer, offset, inbox[..n]);
      inbox := inbox[n..];
    }

    /** Receive at most `size` bytes: as many as are there; 0 when the other side has closed. When nothing is there a
        non-blocking socket says so, with -1, and a blocking one waits. */
    method Receive(buffer: array<byte>, offset: nat, size: nat, blocking: bool) returns (n: int)
      requires offset + size <= buffer.Length && size > 0
      modifies this, buffer
      ensures !blocking ==> n == (if old(Found()) != [] then Min(size, |old(Found())|) else if old(coming) == [] then 0 else -1)
      ensures !blocking ==> inbox == old(Found())[if n > 0 then n else 0..] && coming == (if old(coming) == [] then [] else old(coming)[1..])
      ensures blocking ==> n >= 0 && (n == 0 <==> old(Stream()) == [])
      ensures n <= 0 ==> Stream() == old(Stream()) && buffer[..] == old(buffer[..])
      ensures n > 0 ==> n <= size && n <= |old(Stream())| && Stream() == old(Stream())[n..]
                        && buffer[..] == Splice(old(buffer[..]), offset, old(Stream())[..n])
    {
      hide Splice;
      var closed := coming == [];
      Look();
      if blocking {
        Wait();
      }
      if inbox == [] {
        return if closed || blocking then 0 else -1;
      }
      n := Take(buffer, offset, size);
    }
  }

  lemma SpliceNothing(t: seq<byte>, at: nat)
    requires at <= |t|
    ensures Splice(t, at, []) == t
  {
  }

  /** Taking n more bytes after the first k. */
  lemma TakenMore(before: seq<byte>, start: nat, p: seq<byte>, k: nat, n: nat)
    requires k + n <= |p| && start + k + n <= |before|
    ensures Splice(Splice(before, start, p[..k]), start + k, p[k..][..n]) == Splice(before, start, p[..k + n])
    ensures p[k..][n..] == p[k + n..]
  {
    assert p[..k] + p[k..][..n] == p[..k + n];
    SpliceJoin(before, start, p[..k], p[k..][..n]);
  }

  class ClientInfo {
    const socket: Socket
    const recvBuffer: array<byte>
    const dlCommand: array<byte>
    var recvLength: nat
    var socketErr: int

    constructor (socket: Socket, bufferSize: nat)
      ensures this.socket == socket && Valid() && fresh(recvBuffer) && fresh(dlCommand) && recvLength == 0 && recvBuffer.Length == bufferSize
    {
      this.socket, this.recvBuffer, this.dlCommand := socket, new byte[bufferSize], new byte[256];
      recvLength, socketErr := 0, 0;
    }

    ghost predicate Valid()
      reads this
    {
      recvLength <= recvBuffer.Length && dlCommand.Length == 256 && dlCommand != recvBuffer
    }

    /** The bytes still to be consumed: received and buffered, and then those yet to arrive. */
    ghost function Pending(): seq<byte>
      requires recvLength <= recvBuffer.Length
      reads `recvLength, recvBuffer, socket
    {
      recvBuffer[..recvLength] + socket.Stream()
    }

    /** The command at the head of the buffer is not all there. */
    predicate Incomplete()
      requires recvLength <= recvBuffer.Length
      reads `recvLength, recvBuffer
    {
      recvLength < 3 || recvLength - 3 < recvBuffer[2]
    }

    /** What the buffer begins with cannot be a command: other letters, or a body of less than two bytes. */
    predicate BadHeader()
      requires recvLength <= recvBuffer.Length
      reads `recvLength, recvBuffer
    {
      recvLength >= 3 && (recvBuffer[0] != LETTER_D || recvBuffer[1] != LETTER_L || recvBuffer[2] < 2)
    }

    /** Everything that has arrived is in the buffer, or the buffer is full. */
    predicate Drained()
      reads this, socket
    {
      socket.inbox == [] || recvLength == recvBuffer.Length
    }

    /** Receive into the free part of the buffer: nothing is lost and nothing is consumed. */
    method ReceiveMore() returns (n: int)
      requires Valid() && recvLength < recvBuffer.Length
      modifies this`recvLength, recvBuffer, socket
      ensures Valid() && Pending() == old(Pending()) && Drained()
      ensures n > 0 <==> old(socket.Found()) != []
      ensures n == 0 <==> old(socket.Found()) == [] && old(socket.coming) == []
      ensures n > 0 ==> n == Min(recvBuffer.Length - old(recvLength), |old(socket.Found())|)
      ensures recvLength == old(recvLength) + (if n > 0 then n else 0)
      ensures recvLength + |socket.inbox| == old(recvLength) + |old(socket.Found())|
      ensures |socket.Stream()| == |old(socket.Stream())| - (if n > 0 then n else 0)
      ensures socket.coming == (if old(socket.coming) == [] then [] else old(socket.coming)[1..])
      ensures recvBuffer[..old(recvLength)] == old(recvBuffer[..recvLength])
    {
      n := socket.Receive(recvBuffer, recvLength, recvBuffer.Length - recvLength, false);
      if n > 0 {
        recvLength := recvLength + n;
      }
    }

    /** Shift out the first bytes of the buffer. */
    method Consume(count: nat)
      requires Valid() && count <= recvLength
      modifies this`recvLength, recvBuffer
      ensures Valid() && Pending() == old(Pending())[count..] && recvLength == old(recvLength) - count
    {
      if count < recvLength {
        var remaining := recvLength - count;
        PutBytes(recvBuffer, 0, recvBuffer[count..recvLength]);
        recvLength := remaining;
      } else {
        recvLength := 0;
      }
    }

    /** The loop of RecvDLCommand: receive until the body is there, nothing more is, the buffer is full or the other side has
        closed; once the body is there it does not look again. */
    method FillBody(headerLen: nat) returns (more: nat, closed: bool)
      requires Valid() && Drained() && recvLength >= 3 && recvBuffer[2] == headerLen
      modifies this`recvLength, recvBuffer, socket
      ensures Valid() && Pending() == old(Pending()) && Drained() && recvLength == old(recvLength) + more
      ensures recvBuffer[..3] == old(recvBuffer[..3]) && LeftOf(socket.coming, old(socket.coming))
      ensures |socket.Stream()| == |old(socket.Stream())| - more
      ensures more + |socket.inbox| + |Flatten(socket.coming)| == old(|socket.inbox| + |Flatten(socket.coming)|)
      ensures closed ==> Incomplete() && socket.inbox == [] && socket.coming == []
      ensures old(recvLength) >= 3 + headerLen ==> more == 0 && socket.coming == old(socket.coming) && socket.inbox == old(socket.inbox)
      ensures old(recvLength) < 3 + headerLen <= recvLength ==>
        socket.coming == old(socket.coming)[LooksNeeded(old(recvLength + |socket.inbox|), old(socket.coming), 3 + headerLen)..]
    {
      hide Socket.Stream, Socket.Found, Pending, Flatten, LooksNeeded;
      socket.StreamSize();
      more, closed := 0, false;
      ghost var head, looks := recvBuffer[..3], LooksNeeded(recvLength + |socket.inbox|, socket.coming, 3 + headerLen);
      ghost var k := 0;
      while recvLength - 3 < headerLen
        invariant Valid() && Pending() == old(Pending()) && recvLength >= 3 && Drained()
        invariant more == recvLength - old(recvLength) == |old(socket.Stream())| - |socket.Stream()|
        invariant k <= |old(socket.coming)| && socket.coming == old(socket.coming)[k..]
        invariant k == 0 ==> recvLength == old(recvLength) && socket.inbox == old(socket.inbox)
        invariant recvBuffer[..3] == head && (k > 0 ==> old(recvLength) < 3 + headerLen)
        invariant recvLength < 3 + headerLen && recvLength < recvBuffer.Length ==>
          looks == k + LooksNeeded(recvLength + |socket.inbox|, socket.coming, 3 + headerLen)
        invariant old(recvLength) < 3 + headerLen <= recvLength ==> k == looks
        decreases |socket.Stream()|
      {
        if recvBuffer.Length - recvLength <= 0 {
          break;
        }
        ghost var held, before := recvBuffer[..recvLength], socket.coming;
        if before != [] { NextLook(recvLength + |socket.inbox|, before, 3 + headerLen); }
        assert held[..3] == head;
        socket.StreamSize();
        var n := ReceiveMore();
        assert recvBuffer[..3] == held[..3];
        if n == 0 {
          assert recvBuffer[2] == head[2];
          closed := true;
          break;
        }
        assert before != [];
        k := k + 1;
        if n < 0 {
          break;
        }
        more := more + n;
      }
      socket.StreamSize();
    }

    /** The bytes begin with a command, and it is now in dlCommand and no longer pending. */
    ghost predicate CommandTaken(p: seq<byte>)
      requires Valid()
      reads this, recvBuffer, dlCommand, socket
    {
      && |p| >= 3 && p[0] == LETTER_D && p[1] == LETTER_L && 2 <= BodyLength(p) < 256 && |p| >= 3 + BodyLength(p)
      && dlCommand[..BodyLength(p)] == p[3..3 + BodyLength(p)] && dlCommand[BodyLength(p)] == 0
      && Pending() == p[3 + BodyLength(p)..]
    }

    /** Copy the command body out, end it with NUL, and shift the buffer past it. */
    method TakeBody(headerLen: nat)
      requires Valid() && recvLength >= 3 + headerLen && 2 <= headerLen < 256
      requires recvBuffer[..3] == [LETTER_D, LETTER_L, headerLen]
      modifies this`recvLength, recvBuffer, dlCommand
      ensures Valid() && CommandTaken(old(Pending())) && headerLen == BodyLength(old(Pending())) && recvLength == old(recvLength) - 3 - headerLen
    {
      ghost var p := Pending();
      assert p[..3] == recvBuffer[..3];
      assert p[0] == p[..3][0] && p[1] == p[..3][1] && p[2] == p[..3][2];
      hide Flatten, Socket.Stream;
      var body := recvBuffer[3..3 + headerLen];
      assert p[..recvLength] == recvBuffer[..recvLength];
      assert body == p[..recvLength][3..3 + headerLen] == p[3..3 + headerLen];
      PutBytes(dlCommand, 0, body);
      assert dlCommand[..headerLen] == body;
      dlCommand[headerLen] := 0;
      assert dlCommand[..headerLen] == body;
      Consume(3 + headerLen);
    }

    lemma HeaderMeans(headerLen: byte)
      requires Valid() && recvLength >= 3 && recvBuffer[..3] == [LETTER_D, LETTER_L, headerLen]
      ensures recvBuffer[2] == headerLen && (headerLen >= 2 ==> !BadHeader())
      ensures Incomplete() <==> recvLength < 3 + headerLen as int
    {
      var head := recvBuffer[..3];
      assert recvBuffer[0] == head[0] && recvBuffer[1] == head[1] && recvBuffer[2] == head[2];
    }

    /** Where things stand after a first look: what was found and what was buffered before are now in the buffer or still there. */
    ghost predicate AfterLook(length: nat, arrived: nat, coming: seq<seq<byte>>)
      reads `recvLength, socket
    {
      if coming == [] then socket.coming == [] && recvLength + |socket.inbox| == length + arrived
      else socket.coming == coming[1..] && recvLength + |socket.inbox| == length + arrived + |coming[0]|
    }

    /** The second half of RecvDLCommand: the header is there and good. */
    method RecvBody(headerLen: nat, totalRead: nat, ghost length: nat, ghost arrived: nat, ghost coming: seq<seq<byte>>)
      returns (result: int)
      requires Valid() && Drained() && recvLength >= 3 && recvBuffer[..3] == [LETTER_D, LETTER_L, headerLen] && 2 <= headerLen < 256
      requires totalRead > 0 && length + totalRead == recvLength && AfterLook(length, arrived, coming)
      modifies this, recvBuffer, dlCommand, socket
      ensures Valid() && LeftOf(socket.coming, old(socket.coming))
      ensures result > 0 ==> CommandTaken(old(Pending())) && headerLen == BodyLength(old(Pending()))
      ensures result > 0 ==> result == totalRead + |old(socket.Stream())| - |socket.Stream()|
      ensures result > 0 ==> result == totalRead + recvLength + 3 + headerLen - old(recvLength) && recvLength + 3 + headerLen <= recvBuffer.Length
      ensures result > 0 ==> socket.inbox == [] || recvLength + 3 + headerLen == recvBuffer.Length
      ensures result > 0 ==> Punctual(length, recvBuffer.Length - length, arrived, coming, 3 + headerLen, socket.coming, result)
      ensures result <= 0 ==> Pending() == old(Pending()) && dlCommand[..] == old(dlCommand[..]) && recvBuffer[..3] == old(recvBuffer[..3])
      ensures result <= 0 ==> recvLength >= old(recvLength) && Incomplete() && Drained() && !BadHeader()
      ensures result <= 0 ==> result == 0 || (result == -2 && socket.inbox == [] && socket.coming == [])
      ensures socketErr == old(socketErr) || socketErr == -2
    {
      hide CommandTaken, Pending, Flatten, LooksNeeded, Punctual, Socket.Stream, Socket.Found, Incomplete, BadHeader;
      ghost var have, coming' := recvLength + |socket.inbox|, socket.coming;
      HeaderMeans(headerLen);
      var more, closed := FillBody(headerLen);
      HeaderMeans(headerLen);
      if closed {
        socketErr := -2;
        return -2;
      }
      if recvLength - 3 < headerLen {
        return 0;
      }
      TakeBody(headerLen);
      result := totalRead + more;
      BodyPunctual(length, recvBuffer.Length - length, arrived, coming, 3 + headerLen, have, coming', socket.coming, socket.inbox, totalRead, more);
    }

    /** RecvDLCommand: more than 0 when a whole command was taken out; 0 when more bytes are needed; -1 when what has arrived
        cannot be a command; -2 when the other side has closed. Only in the first case is anything consumed. A command is taken
        at the first look that finds all of it there, and the number returned is that of the bytes received up to then. That is
        the length of the command exactly when no more and no fewer were there to receive. */
    method RecvDLCommand() returns (result: int)
      requires Valid()
      modifies this, recvBuffer, dlCommand, socket
      ensures Valid() && -2 <= result
      ensures result > 0 ==> CommandTaken(old(Pending()))
      ensures result > 0 ==> Punctual(old(recvLength), recvBuffer.Length - old(recvLength), |old(socket.inbox)|, old(socket.coming),
                                      3 + BodyLength(old(Pending())), socket.coming, result)
      ensures result > 0 ==> result == |old(socket.Stream())| - |socket.Stream()|
      ensures result > 0 ==>
        var need := 3 + BodyLength(old(Pending()));
        && (result == need <==> Receivable(old(recvLength), recvBuffer.Length - old(recvLength), |old(socket.inbox)|, old(socket.coming), need) == need)
        && (result == need <==> recvLength == old(recvLength))
      ensures result > 0 ==> socket.inbox == [] || recvLength + 3 + BodyLength(old(Pending())) == recvBuffer.Length
      ensures result <= 0 ==> Pending() == old(Pending()) && dlCommand[..] == old(dlCommand[..])
      ensures result == 0 ==> Drained()
      ensures result == 0 && recvLength == old(recvLength) ==>
        recvLength == recvBuffer.Length || (old(socket.Found()) == [] && old(socket.coming) != [])
      ensures result == 0 && recvLength != old(recvLength) ==> recvLength > old(recvLength) && Incomplete()
      ensures result <= 0 ==> (result == -1 <==> recvLength > old(recvLength) && BadHeader())
      ensures result == -1 ==> socket.coming == (if old(socket.coming) == [] then [] else old(socket.coming)[1..])
      ensures result == -2 ==> socket.inbox == [] && socket.coming == [] && (recvLength == old(recvLength) || Incomplete())
      ensures recvLength > old(recvLength) ==> old(socket.Found()) != []
      ensures LeftOf(socket.coming, old(socket.coming))
      ensures old(recvLength) < recvBuffer.Length && old(socket.coming) != [] ==> |socket.coming| < |old(socket.coming)|
      ensures result > 0 || result == -2 || result == 0 ==> socketErr == old(socketErr) || socketErr == -2
    {
      hide CommandTaken, Pending, Flatten, Receivable, LooksNeeded, Socket.Stream, Socket.Found;
      socket.StreamSize();
      var totalRead := 0;
      if recvBuffer.Length - recvLength <= 0 {
        return 0;
      }
      var n := ReceiveMore();
      if n == 0 {
        return -2;
      }
      if n < 0 {
        return 0;
      }
      totalRead := totalRead + n;
      if recvLength < 3 {
        return 0;
      }
      if recvBuffer[0] != LETTER_D || recvBuffer[1] != LETTER_L {
        socketErr := -1;
        return -1;
      }
      var headerLen: nat := recvBuffer[2];
      if headerLen < 2 {
        socketErr := -1;
        return -1;
      }
      result := RecvBody(headerLen, totalRead, old(recvLength), |old(socket.inbox)|, old(socket.coming));
    }

    /** What the buffer holds of the wanted bytes is taken first. */
    method TakeBuffered(buffer: array<byte>, start: nat, length: nat) returns (cpy: nat)
      requires Valid() && start + length <= buffer.Length && buffer != recvBuffer && buffer != dlCommand
      modifies this`recvLength, recvBuffer, buffer
      ensures Valid() && cpy <= length && cpy <= |old(Pending())| && (cpy < length ==> recvLength == 0)
      ensures buffer[..] == Splice(old(buffer[..]), start, old(Pending())[..cpy]) && Pending() == old(Pending())[cpy..]
    {
      hide Splice;
      ghost var p := Pending();
      cpy := 0;
      if recvLength == 0 {
        SpliceNothing(buffer[..], start);
        assert p[..0] == [] && p[0..] == p;
      } else {
        cpy := if recvLength < length then recvLength else length;
        assert recvBuffer[..cpy] == p[..cpy];
        PutBytes(buffer, start, recvBuffer[..cpy]);
        Consume(cpy);
      }
    }

    lemma NoneBuffered()
      requires Valid() && recvLength == 0
      ensures Pending() == socket.Stream()
    {
    }

    /** One receive of RecvData: after the first `got` of the bytes p come some more of them, or p is at its end. */
    method RecvSome(buffer: array<byte>, start: nat, got: nat, length: nat, ghost p: seq<byte>, ghost before: seq<byte>) returns (n: nat)
      requires got < length && start + length <= buffer.Length == |before| && got <= |p|
      requires socket.Stream() == p[got..] && buffer[..] == Splice(before, start, p[..got])
      modifies socket, buffer
      ensures n == 0 ==> got == |p| && socket.Stream() == []
      ensures got + n <= length && got + n <= |p| && socket.Stream() == p[got + n..] && buffer[..] == Splice(before, start, p[..got + n])
    {
      hide Splice, Flatten, Socket.Found, Socket.Stream, Min;
      n := socket.Receive(buffer, start + got, length - got, true);
      TakenMore(before, start, p, got, n);
    }

    /** The loop of RecvData: the bytes of p after the first `got`, until there are `length`, or p is at its end. */
    method RecvRest(buffer: array<byte>, start: nat, got0: nat, length: nat, ghost p: seq<byte>, ghost before: seq<byte>) returns (got: nat)
      requires got0 <= length && start + length <= buffer.Length == |before| && got0 <= |p|
      requires socket.Stream() == p[got0..] && buffer[..] == Splice(before, start, p[..got0])
      modifies socket, buffer
      ensures got <= length && got <= |p| && (got < length ==> got == |p|)
      ensures socket.Stream() == p[got..] && buffer[..] == Splice(before, start, p[..got])
    {
      hide Splice, Flatten, Socket.Found, Socket.Stream, Min;
      got := got0;
      while got < length
        invariant got <= length && got <= |p|
        invariant buffer[..] == Splice(before, start, p[..got]) && socket.Stream() == p[got..]
      {
        var n := RecvSome(buffer, start, got, length, p, before);
        if n <= 0 {
          return;
        }
        got := got + n;
      }
    }

    /** RecvData: exactly the next bytes, from the buffer first and then from the socket, however they arrive. */
    method RecvData(buffer: array<byte>, start: nat, length: nat) returns (total: int)
      requires Valid() && start + length <= buffer.Length && buffer != recvBuffer && buffer != dlCommand
      modifies this, recvBuffer, socket, buffer
      ensures Valid()
      ensures total == length || total == -1
      ensures total == length ==>
        |old(Pending())| >= length && buffer[..] == Splice(old(buffer[..]), start, old(Pending())[..length]) && Pending() == old(Pending())[length..]
      ensures total == -1 ==> |old(Pending())| < length && Pending() == [] && socketErr == -2
    {
      hide Splice, Flatten, Socket.Found, Socket.Stream, Pending, Min;
      ghost var p, before := Pending(), buffer[..];
      var got := TakeBuffered(buffer, start, length);
      if got == length {
        return length;
      }
      NoneBuffered();
      got := RecvRest(buffer, start, got, length, p, before);
      NoneBuffered();
      if got < length {
        socketErr := -2;
        return -1;
      }
      total := length;
    }
  }

  // ---------- there and back ----------

  lemma FrameParts(hb: seq<byte>, payload: seq<byte>, rest: seq<byte>)
    requires |hb| < 256
    ensures var p := Frame(hb, payload) + rest;
      && p == Frame(hb, []) + (payload + rest) && |p| >= 3 + |hb| && p[0] == LETTER_D && p[1] == LETTER_L && BodyLength(p) == |hb|
      && p[3..3 + |hb|] == hb && p[3 + |hb|..] == payload + rest
    ensures (payload + rest)[..|payload|] == payload && (payload + rest)[|payload|..] == rest
  {
    assert Frame(hb, payload) + rest == Frame(hb, []) + (payload + rest);
  }

  /** While the bytes to be consumed are a frame and what follows it, the buffer holds a part of them. */
  lemma PartBuffered(client: ClientInfo, hb: seq<byte>, following: seq<byte>)
    requires client.Valid() && |hb| < 256 && client.Pending() == Frame(hb, []) + following
    ensures client.Incomplete() <==> client.recvLength < 3 + |hb|
    ensures client.BadHeader() <==> |hb| < 2 && client.recvLength >= 3
    ensures client.socket.inbox == [] && client.socket.coming == [] ==> client.recvLength >= 3 + |hb|
  {
    var p := client.Pending();
    FrameParts(hb, [], following);
    forall i: nat | i < client.recvLength ensures client.recvBuffer[i] == p[i] {
    }
  }

  lemma PendingSize(client: ClientInfo)
    requires client.Valid()
    ensures |client.Pending()| == client.recvLength + |client.socket.inbox| + |Flatten(client.socket.coming)|
  {
  }

  /** How many bytes of a frame with this header a call of RecvDLCommand can judge by: all of the command, or, when the header is
      too short for one, what tells so. */
  function Telling(hb: seq<byte>): nat {
    if |hb| >= 2 then 3 + |hb| else 3
  }

  /** Calls of RecvDLCommand, one after the other, until one has something to say. However the frame arrives, in whatever
      pieces and with however many looks that find nothing, it is accepted, at the very look that finds the last byte of its
      header there; or, when that is shorter than any command, refused at the look that finds its length byte there. */
  method AcceptFrame(client: ClientInfo, ghost hb: seq<byte>, ghost following: seq<byte>) returns (result: int)
    requires client.Valid() && client.recvBuffer.Length >= 258 && client.Incomplete()
    requires |hb| < 256 && client.Pending() == Frame(hb, []) + following
    modifies client, client.recvBuffer, client.dlCommand, client.socket
    ensures client.Valid()
    ensures if |hb| >= 2 then result > 0 else result == -1
    ensures old(client.recvLength) < Telling(hb) ==>
      client.socket.coming == old(client.socket.coming)[
        LooksNeeded(old(client.recvLength + |client.socket.inbox|), old(client.socket.coming), Telling(hb))..]
    ensures |hb| >= 2 ==> old(client.recvLength) < Telling(hb)
    ensures |hb| >= 2 ==> client.dlCommand[..|hb|] == hb && client.dlCommand[|hb|] == 0 && client.Pending() == following
    ensures |hb| < 2 ==> client.Pending() == Frame(hb, []) + following
  {
    hide Socket.Stream, Socket.Found, Frame, ClientInfo.Pending, Flatten, LooksNeeded, Punctual, ClientInfo.CommandTaken;
    ghost var p, early, need := client.Pending(), client.recvLength < Telling(hb), Telling(hb);
    PartBuffered(client, hb, following);
    result := 0;
    ghost var start, looks := client.socket.coming, LooksNeeded(client.recvLength + |client.socket.inbox|, client.socket.coming, need);
    while result == 0
      invariant client.Valid() && -2 < result && LeftOf(client.socket.coming, start)
      invariant result == 0 ==> client.Pending() == p && client.recvLength < 3 + |hb|
      invariant result == 0 && early ==> client.recvLength < need
      invariant result == 0 && early ==>
        looks == |start| - |client.socket.coming| + LooksNeeded(client.recvLength + |client.socket.inbox|, client.socket.coming, need)
      invariant result != 0 && early ==> looks == |start| - |client.socket.coming|
      invariant result == -1 ==> client.Pending() == p && |hb| < 2
      invariant result > 0 ==> |hb| >= 2 && client.CommandTaken(p)
      decreases result == 0, |client.socket.coming|, |client.socket.inbox|
    {
      ghost var coming := client.socket.coming;
      result := AcceptTurn(client, hb, following);
      LeftOfLeft(client.socket.coming, coming, start);
    }
    if result > 0 { TakenFrame(client, hb, following, p); }
  }

  lemma TakenFrame(client: ClientInfo, hb: seq<byte>, following: seq<byte>, p: seq<byte>)
    requires client.Valid() && |hb| < 256 && p == Frame(hb, []) + following && client.CommandTaken(p)
    ensures client.dlCommand[..|hb|] == hb && client.dlCommand[|hb|] == 0 && client.Pending() == following
  {
    hide ClientInfo.Pending;
    FrameParts(hb, [], following);
  }

  /** One call, while the frame is not all there. */
  method AcceptTurn(client: ClientInfo, ghost hb: seq<byte>, ghost following: seq<byte>) returns (result: int)
    requires client.Valid() && client.recvBuffer.Length >= 258 && client.recvLength < 3 + |hb|
    requires |hb| < 256 && client.Pending() == Frame(hb, []) + following
    modifies client, client.recvBuffer, client.dlCommand, client.socket
    ensures client.Valid() && -2 < result && LeftOf(client.socket.coming, old(client.socket.coming))
    ensures result == 0 ==> client.Pending() == old(client.Pending()) && client.recvLength < 3 + |hb|
    ensures result == 0 && old(client.recvLength) < Telling(hb) ==> client.recvLength < Telling(hb)
    ensures old(client.recvLength) < Telling(hb) ==>
      LooksNeeded(old(client.recvLength + |client.socket.inbox|), old(client.socket.coming), Telling(hb))
      == |old(client.socket.coming)| - |client.socket.coming|
         + if result != 0 then 0 else LooksNeeded(client.recvLength + |client.socket.inbox|, client.socket.coming, Telling(hb))
    ensures result == -1 ==> client.Pending() == old(client.Pending()) && |hb| < 2
    ensures result > 0 ==> |hb| >= 2 && client.CommandTaken(old(client.Pending()))
    ensures result == 0 ==> |client.socket.coming| < |old(client.socket.coming)|
  {
    hide Socket.Stream, Socket.Found, Frame, ClientInfo.Pending, Flatten, LooksNeeded, Punctual, ClientInfo.CommandTaken, Receivable;
    hide ClientInfo.Incomplete, ClientInfo.BadHeader;
    ghost var length, arrived, coming, p := client.recvLength, |client.socket.inbox|, client.socket.coming, client.Pending();
    PendingSize(client);
    result := client.RecvDLCommand();
    if result <= 0 {
      PartBuffered(client, hb, following);
      assert result == 0 ==> coming != [];
      PendingSize(client);
      LooksMade(length + arrived, coming, client.recvLength + |client.socket.inbox|, client.socket.coming, Telling(hb));
    } else {
      TakenSize(client, hb, following, p);
      PunctualLooks(length, client.recvBuffer.Length - length, arrived, coming, 3 + |hb|, client.socket.coming, result);
    }
  }

  lemma TakenSize(client: ClientInfo, hb: seq<byte>, following: seq<byte>, p: seq<byte>)
    requires client.Valid() && |hb| < 256 && p == Frame(hb, []) + following && client.CommandTaken(p)
    ensures |hb| >= 2 && |p| >= 3 && BodyLength(p) == |hb|
  {
    hide ClientInfo.Pending;
    FrameParts(hb, [], following);
  }

  /** A frame on the wire gives exactly its header and its payload, and the bytes after it are next. */
  method ReceiveFrame(client: ClientInfo, ghost hb: seq<byte>, ghost payload: seq<byte>, ghost rest: seq<byte>, buffer: array<byte>, length: nat)
    returns (result: int, total: int)
    requires client.Valid() && client.recvBuffer.Length >= 258 && client.Incomplete()
    requires |hb| < 256 && client.Pending() == Frame(hb, payload) + rest
    requires length == |payload| <= buffer.Length && buffer != client.recvBuffer && buffer != client.dlCommand
    modifies client, client.recvBuffer, client.dlCommand, client.socket, buffer
    ensures client.Valid()
    ensures if |hb| >= 2 then result > 0 else result == -1
    ensures |hb| >= 2 ==> client.dlCommand[..|hb|] == hb && client.dlCommand[|hb|] == 0
    ensures |hb| >= 2 ==> total == |payload| && buffer[..|payload|] == payload && client.Pending() == rest
    ensures |hb| < 2 ==> client.Pending() == Frame(hb, payload) + rest
  {
    hide Splice;
    FrameParts(hb, payload, rest);
    result := AcceptFrame(client, hb, payload + rest);
    total := 0;
    if result > 0 {
      ghost var before := buffer[..];
      total := client.RecvData(buffer, 0, length);
      Spliced(before, 0, payload, 0, 0);
    }
  }

  /** The number returned is not that of the bytes consumed: a command of five bytes that arrives together with the first
      byte of the next one is consumed, and 6 returned. */
  method ReturnsReceived() returns (result: int, consumed: int)
    ensures result == 6 && consumed == 5
  {
    var socket := new Socket;
    socket.inbox, socket.coming := [], [[LETTER_D, LETTER_L, 2, 'I' as int, 'D' as int, LETTER_D]];
    var client := new ClientInfo(socket, 512);
    assert Flatten(socket.coming) == socket.coming[0] + Flatten([]) == socket.coming[0];
    ghost var hb, following: seq<byte> := ['I' as int, 'D' as int], [LETTER_D];
    assert client.Pending() == Frame(hb, []) + following;
    PartBuffered(client, hb, following);
    result := client.RecvDLCommand();
    if result <= 0 { PartBuffered(client, hb, following); }
    assert client.Pending() == following;
    consumed := 6 - client.recvLength;
  }
}
