/** Copying UTF-8 strings without spaces, never cutting a character in two. */
module Utf8 {
  import opened LittleEndian
  import opened Options

  // ---------- RFC 3629, section 4 ----------

  predicate Tail(b: int) {
    0x80 <= b <= 0xBF
  }

  /** The bytes that may follow a first byte; the later ones are tails. */
  predicate SecondByte(first: int, second: int) {
    if first == 0xE0 then 0xA0 <= second <= 0xBF
    else if first == 0xED then 0x80 <= second <= 0x9F
    else if first == 0xF0 then 0x90 <= second <= 0xBF
    else if first == 0xF4 then 0x80 <= second <= 0x8F
    else Tail(second)
  }

  /** How many bytes a character with this first byte has; 0 if there is none. */
  function CharSize(first: int): (k: nat)
    ensures k <= 4
  {
    if 0 <= first <= 0x7F then 1
    else if 0xC2 <= first <= 0xDF then 2
    else if 0xE0 <= first <= 0xEF then 3
    else if 0xF0 <= first <= 0xF4 then 4
    else 0
  }

  /** The string begins with a complete well-formed character of k bytes. */
  predicate BeginsWith(s: seq<byte>, k: nat) {
    && 0 < k <= |s| && CharSize(s[0]) == k
    && (k > 1 ==> SecondByte(s[0], s[1])) && (k > 2 ==> Tail(s[2])) && (k > 3 ==> Tail(s[3]))
  }

  /** Nothing but complete well-formed characters. */
  predicate Text(s: seq<byte>) {
    s == [] || (BeginsWith(s, CharSize(s[0])) && Text(s[CharSize(s[0])..]))
  }

  // ---------- RFC 3629, section 3 ----------

  /** The numbers that stand for characters: all up to 0x10FFFF but the surrogates. */
  predicate Scalar(c: int) {
    0 <= c < 0xD800 || 0xE000 <= c < 0x11_0000
  }

  /** A character as one to four bytes. */
  function Encoded(c: int): (s: seq<byte>)
    requires Scalar(c)
    ensures 1 <= |s| <= 4
  {
    if c < 0x80 then [c]
    else if c < 0x800 then [0xC0 + c / 64, 0x80 + c % 64]
    else if c < 0x1_0000 then [0xE0 + c / 64 / 64, 0x80 + c / 64 % 64, 0x80 + c % 64]
    else [0xF0 + c / 64 / 64 / 64, 0x80 + c / 64 / 64 % 64, 0x80 + c / 64 % 64, 0x80 + c % 64]
  }

  function EncodedAll(cs: seq<int>): seq<byte>
    requires forall i :: 0 <= i < |cs| ==> Scalar(cs[i])
  {
    if cs == [] then [] else Encoded(cs[0]) + EncodedAll(cs[1..])
  }

  lemma EncodedBegins(c: int)
    requires Scalar(c)
    ensures BeginsWith(Encoded(c), |Encoded(c)|)
  {
  }

  /** Every well-formed character encodes a number. */
  lemma Decoded(s: seq<byte>, k: nat) returns (c: int)
    requires BeginsWith(s, k)
    ensures Scalar(c) && Encoded(c) == s[..k]
  {
    var b: int := s[0];
    if k == 1 {
      c := b;
    } else if k == 2 {
      c := Shifted(b - 0xC0, s[1]);
    } else if k == 3 {
      c := Shifted(Shifted(b - 0xE0, s[1]), s[2]);
    } else {
      c := Shifted(Shifted(Shifted(b - 0xF0, s[1]), s[2]), s[3]);
    }
  }

  /** Six more bits, from a byte that follows. */
  function Shifted(high: int, b: byte): (c: int)
    requires Tail(b)
    ensures c / 64 == high && 0x80 + c % 64 == b && c == 64 * high + b - 0x80
  {
    high * 64 + b - 0x80
  }

  /** Encoded characters one after the other are text. */
  lemma {:induction false} EncodingsAreText(cs: seq<int>)
    requires forall i :: 0 <= i < |cs| ==> Scalar(cs[i])
    ensures Text(EncodedAll(cs))
  {
    if cs != [] {
      EncodedBegins(cs[0]);
      EncodingsAreText(cs[1..]);
      TextJoin(Encoded(cs[0]), EncodedAll(cs[1..]));
    }
  }

  /** And all text is encoded characters one after the other. */
  lemma {:induction false} TextIsEncodings(s: seq<byte>) returns (cs: seq<int>)
    requires Text(s)
    ensures (forall i :: 0 <= i < |cs| ==> Scalar(cs[i])) && s == EncodedAll(cs)
  {
    if s == [] {
      cs := [];
    } else {
      var k := CharSize(s[0]);
      var c := Decoded(s, k);
      var rest := TextIsEncodings(s[k..]);
      cs := [c] + rest;
      assert s == s[..k] + s[k..] && cs[1..] == rest;
    }
  }

  // ---------- the automaton ----------

  /** The first 256 table entries: the class of a byte. */
  function Class(b: byte): nat {
    if b <= 0x7F then 0
    else if b <= 0x8F then 1
    else if b <= 0x9F then 9
    else if b <= 0xBF then 7
    else if b <= 0xC1 then 8
    else if b <= 0xDF then 2
    else if b == 0xE0 then 10
    else if b == 0xED then 4
    else if b <= 0xEF then 3
    else if b == 0xF0 then 11
    else if b <= 0xF3 then 6
    else if b == 0xF4 then 5
    else 8
  }

  /** The other table entries: the state after a state and a class. State 0 is between characters, state 1 is failure. */
  function NextState(state: nat, t: nat): (next: nat)
    ensures next <= 8
  {
    if state == 0 then
      if t == 0 then 0 else if t == 2 then 2 else if t == 3 then 3 else if t == 4 then 5 else if t == 5 then 8
      else if t == 6 then 7 else if t == 10 then 4 else if t == 11 then 6 else 1
    else if state == 2 then if t == 1 || t == 7 || t == 9 then 0 else 1
    else if state == 3 then if t == 1 || t == 7 || t == 9 then 2 else 1
    else if state == 4 then if t == 7 then 2 else 1
    else if state == 5 then if t == 1 || t == 9 then 2 else 1
    else if state == 6 then if t == 7 || t == 9 then 3 else 1
    else if state == 7 then if t == 1 || t == 7 || t == 9 then 3 else 1
    else if state == 8 then if t == 1 then 3 else 1
    else 1
  }

  function StateAfter(state: nat, s: seq<byte>): nat
    decreases |s|
  {
    if s == [] then state else StateAfter(NextState(state, Class(s[0])), s[1..])
  }

  /** What must follow in each state for the whole to be text. */
  predicate Completes(state: nat, s: seq<byte>) {
    if state == 0 then Text(s)
    else if state == 2 then |s| >= 1 && Tail(s[0]) && Text(s[1..])
    else if state == 3 then |s| >= 2 && Tail(s[0]) && Tail(s[1]) && Text(s[2..])
    else if state == 4 then |s| >= 2 && 0xA0 <= s[0] <= 0xBF && Tail(s[1]) && Text(s[2..])
    else if state == 5 then |s| >= 2 && 0x80 <= s[0] <= 0x9F && Tail(s[1]) && Text(s[2..])
    else if state == 6 then |s| >= 3 && 0x90 <= s[0] <= 0xBF && Tail(s[1]) && Tail(s[2]) && Text(s[3..])
    else if state == 7 then |s| >= 3 && Tail(s[0]) && Tail(s[1]) && Tail(s[2]) && Text(s[3..])
    else if state == 8 then |s| >= 3 && 0x80 <= s[0] <= 0x8F && Tail(s[1]) && Tail(s[2]) && Text(s[3..])
    else false
  }

  lemma DropDrop(s: seq<byte>)
    ensures |s| >= 2 ==> s[1..][1..] == s[2..]
    ensures |s| >= 3 ==> s[1..][2..] == s[3..]
    ensures |s| >= 4 ==> s[1..][3..] == s[4..]
  {
  }

  lemma CompletesStep(state: nat, s: seq<byte>)
    requires s != []
    ensures Completes(state, s) <==> Completes(NextState(state, Class(s[0])), s[1..])
  {
    DropDrop(s);
    if state == 0 {
      FirstStep(s);
    }
  }

  lemma FirstStep(s: seq<byte>)
    requires s != []
    ensures Text(s) <==> Completes(NextState(0, Class(s[0])), s[1..])
  {
    DropDrop(s);
  }

  /** The automaton ends between characters exactly on text. */
  lemma {:induction false} AutomatonIsText(state: nat, s: seq<byte>)
    ensures StateAfter(state, s) == 0 <==> Completes(state, s)
    decreases |s|
  {
    if s != [] {
      AutomatonIsText(NextState(state, Class(s[0])), s[1..]);
      CompletesStep(state, s);
    }
  }

  lemma {:induction false} StateAppend(state: nat, s: seq<byte>, b: byte)
    ensures StateAfter(state, s + [b]) == NextState(StateAfter(state, s), Class(b))
    decreases |s|
  {
    if s != [] {
      StateAppend(NextState(state, Class(s[0])), s[1..], b);
      assert (s + [b])[1..] == s[1..] + [b];
    }
  }

  // ---------- the measured prefix ----------

  /** A C string within a limit: what lies before the first NUL and the limit. */
  function Within(str: seq<byte>, limit: int): (w: seq<byte>)
    ensures w <= str && 0 !in w && |w| <= (if limit < 0 then 0 else limit)
    ensures |w| == |str| || str[|w|] == 0 || |w| >= limit
  {
    if limit <= 0 || str == [] || str[0] == 0 then [] else [str[0]] + Within(str[1..], limit - 1)
  }

  /** The longest part of the string, within the limit and before any NUL, that consists of complete characters. */
  ghost predicate LongestText(str: seq<byte>, limit: int, length: nat) {
    var w := Within(str, limit);
    length <= |w| && Text(w[..length]) && forall l :: length < l <= |w| ==> !Text(w[..l])
  }

  lemma PrefixStep(w: seq<byte>, n: nat)
    requires n < |w|
    ensures StateAfter(0, w[..n + 1]) == NextState(StateAfter(0, w[..n]), Class(w[n]))
    ensures StateAfter(0, w[..n + 1]) == 0 <==> Text(w[..n + 1])
  {
    hide Text, StateAfter, Class, NextState;
    StateAppend(0, w[..n], w[n]);
    assert w[..n + 1] == w[..n] + [w[n]];
    AutomatonIsText(0, w[..n + 1]);
  }

  lemma WithinAt(str: seq<byte>, limit: int, n: nat)
    requires (0 in str || limit <= |str|) && n <= |Within(str, limit)|
    ensures n < limit ==> n < |str|
    ensures n < |Within(str, limit)| <==> n < limit && str[n] != 0
    ensures n < |Within(str, limit)| ==> Within(str, limit)[n] == str[n]
  {
    hide Within;
    var w := Within(str, limit);
    assert forall i :: 0 <= i < |w| ==> w[i] == str[i] && w[i] in w;
    assert |w| == |str| ==> w == str;
  }

  method Utf8Length(str: seq<byte>, maxlength: int) returns (length: nat)
    requires 0 in str || maxlength <= |str|
    ensures LongestText(str, maxlength, length)
  {
    hide Text, StateAfter, Class, NextState, Within;
    ghost var w := Within(str, maxlength);
    var state := 0;
    length := 0;
    var offset := 0;
    WithinAt(str, maxlength, 0);
    EmptyText(w);
    while offset < maxlength && str[offset] != 0
      invariant 0 <= length <= offset <= |w| && (offset < maxlength ==> offset < |str|)
      invariant offset < |w| <==> offset < maxlength && str[offset] != 0
      invariant state == StateAfter(0, w[..offset])
      invariant Text(w[..length]) && forall l :: length < l <= offset ==> !Text(w[..l])
      decreases |w| - offset
    {
      PrefixStep(w, offset);
      WithinAt(str, maxlength, offset);
      WithinAt(str, maxlength, offset + 1);
      state := NextState(state, Class(str[offset]));
      if state == 0 {
        length := offset + 1;
      }
      offset := offset + 1;
    }
  }

  lemma EmptyText(w: seq<byte>)
    ensures Text(w[..0]) && StateAfter(0, w[..0]) == 0
  {
  }

  /** Everything but spaces. */
  function Squeezed(s: seq<byte>): seq<byte> {
    if s == [] then [] else Squeezed(s[..|s| - 1]) + if s[|s| - 1] != 0x20 then [s[|s| - 1]] else []
  }

  lemma {:induction false} SqueezedConcat(a: seq<byte>, b: seq<byte>)
    ensures Squeezed(a + b) == Squeezed(a) + Squeezed(b)
  {
    if b == [] {
      assert a + b == a;
    } else {
      SqueezedConcat(a, b[..|b| - 1]);
      assert (a + b)[..|a + b| - 1] == a + b[..|b| - 1];
    }
  }

  lemma TextJoin(c: seq<byte>, rest: seq<byte>)
    requires c != [] && BeginsWith(c, |c|)
    ensures Text(c + rest) <==> Text(rest)
  {
    var t := c + rest;
    assert t[|c|..] == rest && BeginsWith(t, |c|);
  }

  /** Taking the spaces out of text leaves text. */
  lemma {:induction false} SqueezedText(s: seq<byte>)
    requires Text(s)
    ensures Text(Squeezed(s))
  {
    hide Squeezed;
    if s == [] {
      NoSpaces(s);
    } else {
      var k := CharSize(s[0]);
      var c, rest := s[..k], s[k..];
      assert s == c + rest;
      SqueezedConcat(c, rest);
      SqueezedText(rest);
      SqueezedChar(c);
      TextJoin(c, Squeezed(rest));
      assert [] + Squeezed(rest) == Squeezed(rest);
    }
  }

  /** A character is a space, or has no byte that looks like one. */
  lemma SqueezedChar(c: seq<byte>)
    requires c != [] && BeginsWith(c, |c|)
    ensures Squeezed(c) == if c == [0x20] then [] else c
  {
    hide Squeezed;
    NoSpaces(c);
    if |c| == 1 {
      SqueezedOne(c[0]);
      assert c == [c[0]];
    }
  }

  lemma SqueezedOne(b: byte)
    ensures Squeezed([b]) == if b == 0x20 then [] else [b]
  {
    assert [b][..0] == [];
  }

  lemma {:induction false} NoSpaces(c: seq<byte>)
    ensures (forall i :: 0 <= i < |c| ==> c[i] != 0x20) ==> Squeezed(c) == c
  {
    if c != [] { NoSpaces(c[..|c| - 1]); }
  }

  lemma {:induction false} NoSpaceLeft(s: seq<byte>)
    ensures forall i :: 0 <= i < |Squeezed(s)| ==> Squeezed(s)[i] != 0x20
  {
    if s != [] { NoSpaceLeft(s[..|s| - 1]); }
  }

  /** ms_strncpclean: the measured prefix without its spaces, and a NUL. */
  method CopyClean(dest: array?<byte>, source: Option<seq<byte>>, length: int) returns (didx: nat, ghost measured: nat)
    requires source.Some? ==> 0 in source.value || length <= |source.value|
    requires dest != null ==> dest.Length >= 1 && dest.Length >= length + 1
    modifies dest
    ensures dest == null ==> didx == 0
    ensures dest != null && source.None? ==> didx == 0 && dest[0] == 0 && dest[1..] == old(dest[1..])
    ensures dest != null && source.Some? ==>
      && LongestText(source.value, length, measured) && didx < dest.Length
      && dest[..didx] == Squeezed(source.value[..measured]) && Text(dest[..didx])
      && dest[didx] == 0 && dest[didx + 1..] == old(dest[didx + 1..])
      && (forall i :: 0 <= i < didx ==> dest[i] != 0x20)
      && ((forall i :: 0 <= i < measured ==> source.value[i] != 0x20) ==> dest[..didx] == source.value[..measured])
  {
    hide Squeezed, Text, Within;
    didx, measured := 0, 0;
    if dest == null {
      return;
    }
    if source.None? {
      dest[0] := 0;
      return;
    }
    var str := source.value;
    var count := Utf8Length(str, length);
    measured := count;
    didx := CopySqueezed(dest, str, count);
    dest[didx] := 0;
    assert Within(str, length)[..count] == str[..count];
    SqueezedText(str[..count]);
    NoSpaces(str[..count]);
    NoSpaceLeft(str[..count]);
    assert dest[..didx] == Squeezed(str[..count]);
  }

  method CopySqueezed(dest: array<byte>, source: seq<byte>, count: nat) returns (didx: nat)
    requires count <= |source| && count <= dest.Length && 0 !in source[..count]
    modifies dest
    ensures didx <= count && dest[..didx] == Squeezed(source[..count]) && dest[didx..] == old(dest[didx..])
  {
    hide Squeezed;
    var sidx := 0;
    didx := 0;
    NoSpaces(source[..0]);
    while sidx < count
      invariant 0 <= sidx <= count && didx <= sidx
      invariant dest[..didx] == Squeezed(source[..sidx])
      invariant dest[didx..] == old(dest[didx..])
    {
      if source[sidx] == 0 {
        break;
      }
      SqueezedConcat(source[..sidx], [source[sidx]]);
      SqueezedOne(source[sidx]);
      assert source[..sidx + 1] == source[..sidx] + [source[sidx]];
      if source[sidx] != 0x20 {
        dest[didx] := source[sidx];
        didx := didx + 1;
      }
      sidx := sidx + 1;
    }
  }
}
