/** FDSN source identifiers made from network, station, location and channel codes, and taken apart again. */
module SourceIds {
  import opened Options

  const NUL := '\0'
  const PREFIX := "FDSN:"

  // ---------- what the functions should give ----------

  function Without(s: string, c: char): string {
    if s == [] then [] else Without(s[..|s| - 1], c) + if s[|s| - 1] != c then [s[|s| - 1]] else []
  }

  /** A three-character channel in its extended form; any other as it is. */
  function Extended(chan: string): string {
    if |chan| == 3 then Without([chan[0], '_', chan[1], '_', chan[2]], ' ') else chan
  }

  function Joined(net: string, sta: string, loc: string, chan: string): string {
    PREFIX + net + "_" + sta + "_" + loc + "_" + Extended(chan)
  }

  predicate Mappable(xchan: string) {
    |xchan| == 5 && xchan[1] == '_' && xchan[3] == '_'
  }

  /** The three-character channel of a mappable extended one; any other as it is. */
  function Seed(xchan: string): string {
    if Mappable(xchan) then [xchan[0], xchan[2], xchan[4]] else xchan
  }

  function Count(s: string, c: char): nat {
    if s == [] then 0 else Count(s[..|s| - 1], c) + if s[|s| - 1] == c then 1 else 0
  }

  /** Where the first c is; |s| if there is none. */
  function IndexOf(s: string, c: char): (i: nat)
    ensures i <= |s| && c !in s[..i] && (i < |s| ==> s[i] == c)
  {
    if s == [] || s[0] == c then 0 else 1 + IndexOf(s[1..], c)
  }

  /** What follows the last c; all of s if there is none. */
  function AfterLast(s: string, c: char): (t: string)
    ensures c !in t
  {
    if s == [] then [] else if s[|s| - 1] == c then [] else AfterLast(s[..|s| - 1], c) + [s[|s| - 1]]
  }

  datatype Codes = Codes(net: string, sta: string, loc: string, xchan: string)

  /** The first three fields and the rest of an identifier with five separators. */
  function Split(id: string): Codes
    requires Count(id, '_') == 5
  {
    var i := IndexOf(id, '_');
    CountTail(id, '_');
    var a := id[i + 1..];
    var j := IndexOf(a, '_');
    CountTail(a, '_');
    var b := a[j + 1..];
    var k := IndexOf(b, '_');
    CountTail(b, '_');
    Codes(id[..i], a[..j], b[..k], b[k + 1..])
  }

  function Parse(sid: string): Option<Codes> {
    if PREFIX <= sid && Count(AfterLast(sid, ':'), '_') == 5 then Some(Split(AfterLast(sid, ':'))) else None
  }

  // ---------- counting and splitting ----------

  lemma {:induction false} CountConcat(a: string, b: string, c: char)
    ensures Count(a + b, c) == Count(a, c) + Count(b, c)
  {
    if b == [] {
      assert a + b == a;
    } else {
      assert (a + b)[..|a + b| - 1] == a + b[..|b| - 1];
      CountConcat(a, b[..|b| - 1], c);
    }
  }

  lemma {:induction false} CountZero(s: string, c: char)
    ensures Count(s, c) == 0 <==> c !in s
  {
    if s != [] {
      CountZero(s[..|s| - 1], c);
      assert s == s[..|s| - 1] + [s[|s| - 1]];
    }
  }

  lemma CountOne(c: char)
    ensures Count([c], c) == 1
  {
    assert [c][..0] == [];
  }

  /** Past the first separator there is one fewer. */
  lemma CountTail(s: string, c: char)
    ensures c in s <==> IndexOf(s, c) < |s|
    ensures c in s ==> Count(s, c) == 1 + Count(s[IndexOf(s, c) + 1..], c)
    ensures Count(s, c) > 0 ==> IndexOf(s, c) < |s|
  {
    var i := IndexOf(s, c);
    CountZero(s, c);
    if i < |s| {
      assert s == s[..i] + ([c] + s[i + 1..]);
      CountConcat(s[..i], [c] + s[i + 1..], c);
      CountConcat([c], s[i + 1..], c);
      CountZero(s[..i], c);
      CountOne(c);
    } else {
      assert s[..i] == s;
    }
  }

  lemma {:induction false} IndexOfJoined(a: string, c: char, b: string)
    requires c !in a
    ensures IndexOf(a + [c] + b, c) == |a|
    ensures (a + [c] + b)[..|a|] == a && (a + [c] + b)[|a| + 1..] == b
  {
    if a != [] {
      IndexOfJoined(a[1..], c, b);
      assert (a + [c] + b)[1..] == a[1..] + [c] + b;
    }
  }

  lemma {:induction false} AfterLastJoined(a: string, c: char, b: string)
    requires c !in b
    ensures AfterLast(a + [c] + b, c) == b
  {
    if b == [] {
      assert a + [c] + b == a + [c];
    } else {
      var front := b[..|b| - 1];
      assert (a + [c] + b)[..|a + [c] + b| - 1] == a + [c] + front;
      AfterLastJoined(a, c, front);
      assert b == front + [b[|b| - 1]];
    }
  }

  lemma {:induction false} WithoutNone(s: string, c: char)
    requires c !in s
    ensures Without(s, c) == s
  {
    if s != [] { WithoutNone(s[..|s| - 1], c); }
  }

  // ---------- there and back ----------

  predicate Clean(code: string) {
    '_' !in code && ':' !in code && ' ' !in code && NUL !in code
  }

  /** Channels that come back: three characters, or two separators but not in the form that stands for three characters. */
  predicate Returns(chan: string) {
    if |chan| == 3 then '_' !in chan else Count(chan, '_') == 2 && !Mappable(chan)
  }

  lemma FieldCut(a: string, b: string)
    requires '_' !in a
    ensures var s := a + "_" + b;
      IndexOf(s, '_') == |a| && s[..|a|] == a && s[|a| + 1..] == b && Count(s, '_') == 1 + Count(b, '_')
  {
    IndexOfJoined(a, '_', b);
    CountTail(a + "_" + b, '_');
  }

  lemma SplitJoined(net: string, sta: string, loc: string, xchan: string)
    requires '_' !in net && '_' !in sta && '_' !in loc
    ensures var id := net + "_" + (sta + "_" + (loc + "_" + xchan));
      && Count(id, '_') == 3 + Count(xchan, '_')
      && (Count(xchan, '_') == 2 ==> Split(id) == Codes(net, sta, loc, xchan))
  {
    hide Count, IndexOf;
    FieldCut(loc, xchan);
    FieldCut(sta, loc + "_" + xchan);
    FieldCut(net, sta + "_" + (loc + "_" + xchan));
  }

  lemma ExtendedSeparators(chan: string)
    requires ' ' !in chan
    ensures Count(Extended(chan), '_') == if |chan| == 3 then 2 + Count(chan, '_') else Count(chan, '_')
    ensures |chan| == 3 ==> Extended(chan) == [chan[0], '_', chan[1], '_', chan[2]]
  {
    hide Count, Without;
    if |chan| == 3 {
      var x := [chan[0], '_', chan[1], '_', chan[2]];
      WithoutNone(x, ' ');
      var a, b, c := [chan[0]], [chan[1]], [chan[2]];
      assert x == a + ("_" + (b + ("_" + c))) && chan == a + (b + c);
      FiveCount(a, b, c);
    }
  }

  lemma FiveCount(a: string, b: string, c: string)
    ensures Count(a + ("_" + (b + ("_" + c))), '_') == 2 + Count(a + (b + c), '_')
  {
    hide Count;
    CountOne('_');
    CountConcat(a, "_" + (b + ("_" + c)), '_');
    CountConcat("_", b + ("_" + c), '_');
    CountConcat(b, "_" + c, '_');
    CountConcat("_", c, '_');
    CountConcat(a, b + c, '_');
    CountConcat(b, c, '_');
  }

  /** Parsing what joining prints gives the codes back exactly when the channel is one that returns. */
  lemma RoundTrip(net: string, sta: string, loc: string, chan: string)
    requires Clean(net) && Clean(sta) && Clean(loc) && ':' !in chan && ' ' !in chan && NUL !in chan
    ensures var parsed := Parse(Joined(net, sta, loc, chan));
      (parsed.Some? && parsed.value.(xchan := Seed(parsed.value.xchan)) == Codes(net, sta, loc, chan)) <==> Returns(chan)
  {
    hide Split, Without;
    var xchan := Extended(chan);
    ExtendedSeparators(chan);
    var id := net + "_" + (sta + "_" + (loc + "_" + xchan));
    assert Joined(net, sta, loc, chan) == "FDSN" + [':'] + id;
    assert PREFIX == "FDSN" + [':'];
    assert ':' !in id;
    AfterLastJoined("FDSN", ':', id);
    SplitJoined(net, sta, loc, xchan);
    CountZero(chan, '_');
    SeedExtended(chan);
  }

  lemma SeedExtended(chan: string)
    requires ' ' !in chan
    ensures |chan| == 3 ==> Seed(Extended(chan)) == chan
    ensures |chan| != 3 ==> (Seed(Extended(chan)) == chan <==> !Mappable(chan))
  {
    ExtendedSeparators(chan);
  }

  /** For example: network XX, station STA, location 00 or none, and channel BHZ. */
  lemma JoinedLiteral()
    ensures Joined("XX", "STA", "00", "BHZ") == "FDSN:XX_STA_00_B_H_Z" && Joined("XX", "STA", "", "BHZ") == "FDSN:XX_STA__B_H_Z"
    ensures Extended("BHZ") == "B_H_Z" && Seed("B_H_Z") == "BHZ"
  {
    hide Without, Count;
    ExtendedSeparators("BHZ");
  }

  /** What follows "FDSN:" is taken apart at its separators. */
  lemma ParseFields(net: string, sta: string, loc: string, xchan: string)
    requires '_' !in net && '_' !in sta && '_' !in loc && ':' !in net + sta + loc + xchan && Count(xchan, '_') == 2
    ensures Parse("FDSN:" + (net + "_" + (sta + "_" + (loc + "_" + xchan)))) == Some(Codes(net, sta, loc, xchan))
  {
    hide Split, Count, AfterLast;
    var id := net + "_" + (sta + "_" + (loc + "_" + xchan));
    assert ':' !in id by { assert forall c :: c in net || c in sta || c in loc || c in xchan ==> c in net + sta + loc + xchan; }
    SplitJoined(net, sta, loc, xchan);
    AfterLastJoined("FDSN", ':', id);
    assert "FDSN" + [':'] + id == "FDSN:" + id;
  }

  lemma ParseLiteral()
    ensures Parse("FDSN:XX_STA_00_B_H_Z") == Some(Codes("XX", "STA", "00", "B_H_Z"))
  {
    hide Parse, Count, Without;
    ExtendedSeparators("BHZ");
    CountZero("BHZ", '_');
    ParseFields("XX", "STA", "00", "B_H_Z");
    assert "FDSN:" + ("XX" + "_" + ("STA" + "_" + ("00" + "_" + "B_H_Z"))) == "FDSN:XX_STA_00_B_H_Z";
  }

  // ---------- building an identifier ----------

  /** As many of the characters as still fit. */
  function Fitting(text: string, room: nat): (t: string)
    ensures t <= text && |t| == if |text| < room then |text| else room
  {
    if |text| < room then text else text[..room]
  }

  /** Copy characters while there is room, counting all of them. */
  method AppendText(sid: array<char>, sidlen: nat, at: nat, text: string, needed: nat, ghost sofar: string) returns (at': nat, needed': nat)
    requires sidlen <= sid.Length && at <= sidlen && sid[..at] == Fitting(sofar, sidlen) && needed == |sofar|
    modifies sid
    ensures at' <= sidlen && sid[..at'] == Fitting(sofar + text, sidlen) && needed' == |sofar + text|
    ensures sid[sidlen..] == old(sid[sidlen..])
  {
    at', needed' := at, needed;
    var i := 0;
    assert sofar + text[..0] == sofar;
    while i < |text|
      invariant 0 <= i <= |text| && at' <= sidlen && needed' == needed + i
      invariant sid[..at'] == Fitting(sofar + text[..i], sidlen)
      invariant sid[sidlen..] == old(sid[sidlen..])
    {
      assert sofar + text[..i + 1] == sofar + text[..i] + [text[i]];
      if at' < sidlen {
        sid[at'] := text[i];
        at' := at' + 1;
      }
      needed' := needed' + 1;
      i := i + 1;
    }
    assert text[..i] == text;
  }

  /** ms_seedchan2xchan: 0 for a three-character string. */
  method SeedChan2XChan(seedchan: string) returns (code: int, xchan: string)
    requires NUL !in seedchan
    ensures code == if |seedchan| == 3 then 0 else -1
    ensures code == 0 ==> xchan == Extended(seedchan)
    ensures code == 0 && ' ' !in seedchan ==> xchan == [seedchan[0], '_', seedchan[1], '_', seedchan[2]]
  {
    if |seedchan| != 3 {
      return -1, [];
    }
    var spaced := [seedchan[0], '_', seedchan[1], '_', seedchan[2]];
    xchan := [];
    var i := 0;
    assert spaced[..0] == [];
    while i < 5
      invariant 0 <= i <= 5 && xchan == Without(spaced[..i], ' ')
    {
      assert spaced[..i + 1][..i] == spaced[..i];
      if spaced[i] != ' ' {
        xchan := xchan + [spaced[i]];
      }
      i := i + 1;
    }
    assert spaced[..i] == spaced;
    if ' ' !in seedchan { WithoutNone(spaced, ' '); }
    code := 0;
  }

  /** Take the spaces out of a NUL-terminated text in place. */
  method RemoveSpaces(sid: array<char>, sidlen: nat, ghost text: string) returns (length: nat)
    requires |text| < sidlen <= sid.Length && NUL !in text && sid[..|text|] == text && sid[|text|] == NUL
    modifies sid
    ensures length <= |text| && sid[..length] == Without(text, ' ') && sid[length] == NUL
    ensures sid[sidlen..] == old(sid[sidlen..])
  {
    hide Without;
    var pos, out := 0, 0;
    WithoutNone(text[..0], ' ');
    while sid[pos] != NUL
      invariant 0 <= out <= pos <= |text|
      invariant sid[..out] == Without(text[..pos], ' ')
      invariant forall x :: pos <= x < sid.Length ==> sid[x] == old(sid[x])
      decreases |text| - pos
    {
      assert pos < |text| && sid[pos] == old(sid[..|text|])[pos];
      WithoutStep(text, pos, ' ');
      if sid[pos] != ' ' {
        sid[out] := sid[pos];
        out := out + 1;
      }
      pos := pos + 1;
    }
    assert forall x :: 0 <= x < |text| ==> old(sid[..|text|])[x] in text;
    assert text[..pos] == text;
    sid[out] := NUL;
    length := out;
  }

  lemma WithoutStep(s: string, n: nat, c: char)
    requires n < |s|
    ensures Without(s[..n + 1], c) == Without(s[..n], c) + if s[n] != c then [s[n]] else []
  {
    assert s[..n + 1][..n] == s[..n];
  }

  /** ms_nslc2sid: -1 for missing arguments or too small a buffer, which then holds as much as fits; or the length of the
      identifier, which is in the buffer without its spaces. */
  method Nslc2Sid(sid: array?<char>, sidlen: nat, net: Option<string>, sta: Option<string>, loc: Option<string>, chan: Option<string>)
    returns (length: int)
    requires sid != null ==> sidlen <= sid.Length
    requires net.Some? ==> NUL !in net.value
    requires sta.Some? ==> NUL !in sta.value
    requires loc.Some? ==> NUL !in loc.value
    requires chan.Some? ==> NUL !in chan.value
    modifies sid
    ensures sid == null || net.None? || sta.None? || chan.None? || sidlen < 16 ==> length == -1 && (sid != null ==> sid[..] == old(sid[..]))
    ensures !(sid == null || net.None? || sta.None? || chan.None? || sidlen < 16) ==>
      var text := Joined(net.value, sta.value, if loc.Some? then loc.value else "", chan.value);
      && sid[sidlen..] == old(sid[sidlen..])
      && (|text| + 1 > sidlen ==> length == -1 && sid[..sidlen - 1] == text[..sidlen - 1] && sid[sidlen - 1] == NUL)
      && (|text| + 1 <= sidlen ==> 0 <= length < sidlen && sid[..length] == Without(text, ' ') && sid[length] == NUL)
  {
    hide Without, Fitting;
    if sid == null || net.None? || sta.None? || chan.None? || sidlen < 16 {
      return -1;
    }
    var code, xchan := SeedChan2XChan(chan.value);
    if code != 0 {
      xchan := chan.value;
    }
    ghost var text := Joined(net.value, sta.value, if loc.Some? then loc.value else "", chan.value);
    JoinedClean(net.value, sta.value, if loc.Some? then loc.value else "", chan.value);
    var at, needed := WriteParts(sid, sidlen, net.value, sta.value, loc, xchan, text);
    Terminate(sid, sidlen, at, text);
    needed := needed + 1;
    if needed > sidlen {
      return -1;
    }
    length := RemoveSpaces(sid, sidlen, text);
  }

  /** The parts of the identifier one after the other. */
  method WriteParts(sid: array<char>, sidlen: nat, net: string, sta: string, loc: Option<string>, xchan: string, ghost text: string)
    returns (at: nat, needed: nat)
    requires sidlen <= sid.Length
    requires text == PREFIX + net + "_" + sta + "_" + (if loc.Some? then loc.value else "") + "_" + xchan
    modifies sid
    ensures at <= sidlen && sid[..at] == Fitting(text, sidlen) && needed == |text|
    ensures sid[sidlen..] == old(sid[sidlen..])
  {
    hide Fitting;
    at, needed := 0, 0;
    FittingNothing(sid[..0], sidlen);
    ghost var sofar := "";
    at, needed := AppendText(sid, sidlen, at, PREFIX, needed, sofar);
    sofar := sofar + PREFIX;
    assert sofar == PREFIX;
    at, needed := AppendText(sid, sidlen, at, net, needed, sofar);
    sofar := sofar + net;
    at, needed := AppendText(sid, sidlen, at, "_", needed, sofar);
    sofar := sofar + "_";
    at, needed := AppendText(sid, sidlen, at, sta, needed, sofar);
    sofar := sofar + sta;
    at, needed := AppendText(sid, sidlen, at, "_", needed, sofar);
    sofar := sofar + "_";
    if loc.Some? {
      at, needed := AppendText(sid, sidlen, at, loc.value, needed, sofar);
      sofar := sofar + loc.value;
    } else {
      assert sofar + "" == sofar;
    }
    at, needed := AppendText(sid, sidlen, at, "_", needed, sofar);
    sofar := sofar + "_";
    at, needed := AppendText(sid, sidlen, at, xchan, needed, sofar);
  }

  /** The terminator goes after the text, or into the last byte. */
  method Terminate(sid: array<char>, sidlen: nat, at: nat, ghost text: string)
    requires 0 < sidlen <= sid.Length && at <= sidlen && sid[..at] == Fitting(text, sidlen)
    modifies sid
    ensures |text| < sidlen ==> sid[..|text|] == text && sid[|text|] == NUL
    ensures |text| >= sidlen ==> sid[..sidlen - 1] == text[..sidlen - 1] && sid[sidlen - 1] == NUL
    ensures sid[sidlen..] == old(sid[sidlen..])
  {
    if at < sidlen {
      sid[at] := NUL;
    } else {
      sid[at - 1] := NUL;
    }
  }

  lemma FittingNothing(none: string, room: nat)
    requires none == []
    ensures none == Fitting("", room)
  {
  }

  lemma {:induction false} WithoutKeepsOut(s: string, c: char, d: char)
    requires d !in s
    ensures d !in Without(s, c)
  {
    if s != [] { WithoutKeepsOut(s[..|s| - 1], c, d); }
  }

  lemma JoinedClean(net: string, sta: string, loc: string, chan: string)
    requires NUL !in net && NUL !in sta && NUL !in loc && NUL !in chan
    ensures NUL !in Joined(net, sta, loc, chan)
  {
    hide Without;
    if |chan| == 3 {
      assert chan[0] in chan && chan[1] in chan && chan[2] in chan;
      WithoutKeepsOut([chan[0], '_', chan[1], '_', chan[2]], ' ', NUL);
    }
  }

  // ---------- taking an identifier apart ----------

  /** strchr, as an index; the length where C gives a null pointer. */
  method StrChr(s: string, c: char) returns (i: nat)
    ensures i == IndexOf(s, c)
  {
    i := 0;
    while i < |s| && s[i] != c
      invariant 0 <= i <= |s| && IndexOf(s, c) == i + IndexOf(s[i..], c)
    {
      assert s[i..][1..] == s[i + 1..];
      i := i + 1;
    }
  }

  /** strrchr, as the index after it. */
  method AfterStrRChr(s: string, c: char) returns (i: nat)
    ensures i <= |s| && s[i..] == AfterLast(s, c)
  {
    i := |s|;
    assert s[..i] == s && s[i..] == [];
    while i > 0 && s[i - 1] != c
      invariant 0 <= i <= |s| && AfterLast(s, c) == AfterLast(s[..i], c) + s[i..]
    {
      assert s[..i][..i - 1] == s[..i - 1] && [s[i - 1]] + s[i..] == s[i - 1..];
      i := i - 1;
    }
    if i > 0 { assert AfterLast(s[..i], c) == []; }
  }

  method CountChar(s: string, c: char) returns (sepcnt: nat)
    ensures sepcnt == Count(s, c)
  {
    sepcnt := 0;
    var i := 0;
    assert s[..0] == [];
    while i < |s|
      invariant 0 <= i <= |s| && sepcnt == Count(s[..i], c)
    {
      assert s[..i + 1][..i] == s[..i];
      if s[i] == c {
        sepcnt := sepcnt + 1;
      }
      i := i + 1;
    }
    assert s[..i] == s;
  }

  /** What strncpy and the terminator leave in a buffer of this size. */
  function Copied(text: string, size: nat): (b: string)
    requires size > 0
    ensures |b| == size && b[size - 1] == NUL
    ensures |text| < size ==> b[..|text|] == text && b[|text|] == NUL
  {
    if |text| < size then text + seq(size - |text|, _ => NUL) else text[..size - 1] + [NUL]
  }

  /** Where there is a buffer, it gets the code. */
  ghost predicate Filled(dst: array?<char>, size: nat, text: string)
    reads dst
  {
    dst != null && size > 0 ==> size <= dst.Length && dst[..size] == Copied(text, size)
  }

  method StrNCopy(dst: array?<char>, size: nat, text: string)
    requires dst != null ==> size <= dst.Length
    modifies dst
    ensures Filled(dst, size, text)
    ensures dst != null ==> dst[size..] == old(dst[size..])
    ensures dst != null && size == 0 ==> dst[..] == old(dst[..])
  {
    if dst != null && size > 0 {
      var i := 0;
      while i < size
        invariant 0 <= i <= size && dst[..i] == Copied(text, size)[..i] && dst[size..] == old(dst[size..])
      {
        dst[i] := if i < |text| && i < size - 1 then text[i] else NUL;
        i := i + 1;
      }
    }
  }

  /** ms_xchan2seedchan: 0 for a mappable extended channel, whose codes then fill the first four bytes. */
  method XChan2SeedChan(seedchan: array<char>, xchan: string) returns (code: int)
    requires seedchan.Length >= 4
    modifies seedchan
    ensures code == if Mappable(xchan) then 0 else -1
    ensures code == 0 ==> seedchan[..4] == Seed(xchan) + [NUL] && seedchan[4..] == old(seedchan[4..])
    ensures code == 0 <==> |xchan| == 5 && xchan[1] == '_' && xchan[3] == '_'
    ensures code == 0 ==> seedchan[0] == xchan[0] && seedchan[1] == xchan[2] && seedchan[2] == xchan[4] && seedchan[3] == '\0'
    ensures code != 0 ==> seedchan[..] == old(seedchan[..])
  {
    if |xchan| == 5 && xchan[1] == '_' && xchan[3] == '_' {
      seedchan[0], seedchan[1], seedchan[2], seedchan[3] := xchan[0], xchan[2], xchan[4], NUL;
      return 0;
    }
    code := -1;
  }

  /** Up to the next separator, and after it. */
  method CutField(s: string) returns (field: string, rest: string)
    requires Count(s, '_') > 0
    ensures IndexOf(s, '_') < |s| && field == s[..IndexOf(s, '_')] && rest == s[IndexOf(s, '_') + 1..]
    ensures Count(s, '_') == 1 + Count(rest, '_')
  {
    hide Count, IndexOf;
    CountTail(s, '_');
    var i := StrChr(s, '_');
    CountZero(s, '_');
    field, rest := s[..i], s[i + 1..];
  }

  /** The fields between the separators. */
  method CutFields(id: string) returns (codes: Codes)
    requires Count(id, '_') == 5
    ensures codes == Split(id)
  {
    hide Count, IndexOf;
    var net, sta, loc, top;
    net, top := CutField(id);
    sta, top := CutField(top);
    loc, top := CutField(top);
    codes := Codes(net, sta, loc, top);
  }

  /** The channel goes in its three-character form when it has one and the buffer takes it; an empty one not at all. */
  method FillChannel(chan: array?<char>, chansize: nat, xchan: string)
    requires chan != null ==> chansize <= chan.Length
    modifies chan
    ensures xchan != "" && chan != null && chansize >= 4 && Mappable(xchan) ==> chan[..4] == Seed(xchan) + [NUL]
    ensures xchan != "" && !(chansize >= 4 && Mappable(xchan)) ==> Filled(chan, chansize, xchan)
    ensures xchan == "" && chan != null ==> chan[..] == old(chan[..])
    ensures chan != null ==> chan[chansize..] == old(chan[chansize..])
  {
    if |xchan| > 0 && chan != null && chansize > 0 {
      var code := -1;
      if chansize >= 4 {
        code := XChan2SeedChan(chan, xchan);
        assert chan[chansize..] == old(chan[chansize..]);
      }
      if code != 0 {
        StrNCopy(chan, chansize, xchan);
      }
    }
  }

  /** Buffers of their own, as large as they are said to be. */
  ghost predicate Separate(net: array?<char>, netsize: nat, sta: array?<char>, stasize: nat, loc: array?<char>, locsize: nat,
                           chan: array?<char>, chansize: nat) {
    && (net != null ==> netsize <= net.Length && net != sta && net != loc && net != chan)
    && (sta != null ==> stasize <= sta.Length && sta != loc && sta != chan)
    && (loc != null ==> locsize <= loc.Length && loc != chan)
    && (chan != null ==> chansize <= chan.Length)
  }

  /** ms_sid2nslc_n: -1 and nothing written for what is not an identifier; otherwise each code in its buffer. */
  method Sid2Nslc(sid: Option<string>, net: array?<char>, netsize: nat, sta: array?<char>, stasize: nat, loc: array?<char>, locsize: nat,
                  chan: array?<char>, chansize: nat)
    returns (code: int)
    requires Separate(net, netsize, sta, stasize, loc, locsize, chan, chansize)
    modifies net, sta, loc, chan
    ensures code == if sid.Some? && Parse(sid.value).Some? then 0 else -1
    ensures code != 0 && net != null ==> net[..] == old(net[..])
    ensures code != 0 && sta != null ==> sta[..] == old(sta[..])
    ensures code != 0 && loc != null ==> loc[..] == old(loc[..])
    ensures code != 0 && chan != null ==> chan[..] == old(chan[..])
    ensures code == 0 ==> var codes := Parse(sid.value).value;
      && Filled(net, netsize, codes.net) && Filled(sta, stasize, codes.sta) && Filled(loc, locsize, codes.loc)
      && (codes.xchan != "" && chan != null && chansize >= 4 && Mappable(codes.xchan) ==> chan[..4] == Seed(codes.xchan) + [NUL])
      && (codes.xchan != "" && !(chansize >= 4 && Mappable(codes.xchan)) ==> Filled(chan, chansize, codes.xchan))
  {
    hide Count, AfterLast, Copied, Split;
    if sid.None? || !(PREFIX <= sid.value) {
      return -1;
    }
    var start := AfterStrRChr(sid.value, ':');
    var id := sid.value[start..];
    var sepcnt := CountChar(id, '_');
    if sepcnt != 5 {
      return -1;
    }
    var codes := CutFields(id);
    StrNCopy(net, netsize, codes.net);
    StrNCopy(sta, stasize, codes.sta);
    StrNCopy(loc, locsize, codes.loc);
    FillChannel(chan, chansize, codes.xchan);
    code := 0;
  }

  /** Printing codes and parsing the result gives every code back, in buffers that are large enough. */
  method ThereAndBack(net: string, sta: string, loc: string, chan: string, sid: array<char>, a: array<char>, b: array<char>, c: array<char>, d: array<char>)
    returns (length: int)
    requires Clean(net) && Clean(sta) && Clean(loc) && ':' !in chan && ' ' !in chan && NUL !in chan && Returns(chan)
    requires sid.Length >= 16 && |Joined(net, sta, loc, chan)| < sid.Length
    requires |net| < a.Length && |sta| < b.Length && |loc| < c.Length && |chan| < d.Length
    requires a != b && a != c && a != d && b != c && b != d && c != d
    modifies sid, a, b, c, d
    ensures 0 <= length < sid.Length
    ensures a[..|net| + 1] == net + [NUL] && b[..|sta| + 1] == sta + [NUL] && c[..|loc| + 1] == loc + [NUL] && d[..|chan| + 1] == chan + [NUL]
  {
    hide Joined, Parse, Copied, Without;
    RoundTrip(net, sta, loc, chan);
    NoSpaces(net, sta, loc, chan);
    length := Nslc2Sid(sid, sid.Length, Some(net), Some(sta), Some(loc), Some(chan));
    var text := sid[..length];
    var code := Sid2Nslc(Some(text), a, a.Length, b, b.Length, c, c.Length, d, d.Length);
    ghost var codes := Parse(text).value;
    CopiedStart(net, a.Length);
    CopiedStart(sta, b.Length);
    CopiedStart(loc, c.Length);
    ReturnedChannel(chan, codes.xchan);
    CopiedStart(chan, d.Length);
  }

  lemma NoSpaces(net: string, sta: string, loc: string, chan: string)
    requires ' ' !in net && ' ' !in sta && ' ' !in loc && ' ' !in chan
    ensures Without(Joined(net, sta, loc, chan), ' ') == Joined(net, sta, loc, chan)
  {
    hide Without;
    ExtendedSeparators(chan);
    assert ' ' !in Extended(chan);
    WithoutNone(Joined(net, sta, loc, chan), ' ');
  }

  lemma CopiedStart(text: string, size: nat)
    requires |text| < size
    ensures Copied(text, size)[..|text| + 1] == text + [NUL]
  {
  }

  lemma ReturnedChannel(chan: string, xchan: string)
    requires Returns(chan) && Seed(xchan) == chan
    ensures xchan != "" && (Mappable(xchan) ==> |chan| == 3) && (!Mappable(xchan) ==> xchan == chan)
  {
    assert chan != "";
  }
}
