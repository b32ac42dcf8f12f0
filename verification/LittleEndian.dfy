/** Fixed-width integers in memory, least significant byte first, as BitConverter lays them out. */
module LittleEndian {
  type byte = x: int | 0 <= x < 256

  function Power(n: nat): (p: nat)
    ensures p > 0
  {
    if n == 0 then 1 else 256 * Power(n - 1)
  }

  function Bytes(v: nat, n: nat): (s: seq<byte>)
    ensures |s| == n
  {
    if n == 0 then [] else [v % 256] + Bytes(v / 256, n - 1)
  }

  function Number(s: seq<byte>): nat {
    if s == [] then 0 else s[0] + 256 * Number(s[1..])
  }

  lemma {:induction false} NumberBytes(v: nat, n: nat)
    requires v < Power(n)
    ensures Number(Bytes(v, n)) == v
  {
    if n > 0 {
      NumberBytes(v / 256, n - 1);
      assert Bytes(v, n)[1..] == Bytes(v / 256, n - 1);
    }
  }

  lemma {:induction false} BytesNumber(s: seq<byte>)
    ensures Bytes(Number(s), |s|) == s
  {
    if s != [] { BytesNumber(s[1..]); }
  }

  lemma NumberOfTwo(s: seq<byte>)
    requires |s| == 2
    ensures Number(s) == s[0] as int + s[1] as int * 0x100
  {
    assert s[1..][1..] == [];
    assert Number(s[1..]) == s[1] + 256 * Number([]);
  }

  /** The first byte is worth one, and each other one 256 times the one before. */
  lemma NumberOfFour(s: seq<byte>)
    requires |s| == 4
    ensures Number(s) == s[0] as int + s[1] as int * 0x100 + s[2] as int * 0x1_0000 + s[3] as int * 0x100_0000
  {
    NumberOfTwo(s[2..]);
    assert s[1..][1..] == s[2..];
    assert Number(s[1..]) == s[1] + 256 * Number(s[2..]);
  }

  lemma NumberOfEight(s: seq<byte>)
    requires |s| == 8
    ensures Number(s) == Number(s[..4]) + 0x1_0000_0000 * Number(s[4..])
  {
    assert s[1..][1..] == s[2..] && s[2..][1..] == s[3..] && s[3..][1..] == s[4..];
    NumberOfFour(s[..4]);
    assert Number(s[3..]) == s[3] + 256 * Number(s[4..]);
    assert Number(s[2..]) == s[2] + 256 * Number(s[3..]);
    assert Number(s[1..]) == s[1] + 256 * Number(s[2..]);
  }

  /** For example: the least significant byte comes first, and negative numbers are in two's complement. */
  lemma ByteOrder()
    ensures Bytes(0x0102, 2) == [2, 1] && Bytes(0x0102_0304, 4) == [4, 3, 2, 1]
    ensures Int64Bytes(0x0102_0304_0506_0708) == [8, 7, 6, 5, 4, 3, 2, 1] == Bytes(0x0102_0304_0506_0708, 8)
    ensures Int64Bytes(-2) == [254, 255, 255, 255, 255, 255, 255, 255]
  {
    hide Number, Bytes;
    var two: seq<byte>, low: seq<byte>, high: seq<byte> := [2, 1], [8, 7, 6, 5], [4, 3, 2, 1];
    NumberOfTwo(two);
    BytesNumber(two);
    NumberOfFour(high);
    BytesNumber(high);
    NumberOfFour(low);
    EightBytes(low, high);
    var lowest: seq<byte>, ones: seq<byte> := [254, 255, 255, 255], [255, 255, 255, 255];
    NumberOfFour(lowest);
    NumberOfFour(ones);
    EightBytes(lowest, ones);
  }

  lemma EightBytes(low: seq<byte>, high: seq<byte>)
    requires |low| == |high| == 4
    ensures Bytes(Number(low) + 0x1_0000_0000 * Number(high), 8) == low + high
  {
    hide Number, Bytes;
    NumberOfEight(low + high);
    BytesNumber(low + high);
    assert (low + high)[..4] == low && (low + high)[4..] == high;
  }

  /** An unsigned number is a signed one in two's complement. */
  predicate Signed64(v: int) {
    -0x8000_0000_0000_0000 <= v < 0x8000_0000_0000_0000
  }

  predicate Unsigned64(v: int) {
    0 <= v < 0x1_0000_0000_0000_0000
  }

  predicate Unsigned32(v: int) {
    0 <= v < 0x1_0000_0000
  }

  function Int64(s: seq<byte>): int {
    var v := Number(s);
    if v < 0x8000_0000_0000_0000 then v else v - 0x1_0000_0000_0000_0000
  }

  function Int64Bytes(v: int): (s: seq<byte>)
    requires Signed64(v)
    ensures |s| == 8
  {
    Bytes(if v < 0 then v + 0x1_0000_0000_0000_0000 else v, 8)
  }

  lemma Powers()
    ensures Power(1) == 0x100 && Power(2) == 0x1_0000 && Power(4) == 0x1_0000_0000 && Power(8) == 0x1_0000_0000_0000_0000
  {
    assert Power(4) == 0x1_0000_0000 by { assert Power(2) == 0x1_0000; assert Power(3) == 0x100_0000; }
    assert Power(6) == 0x1_0000_0000_0000 by { assert Power(5) == 0x100_0000_0000; }
    assert Power(7) == 0x100_0000_0000_0000;
  }

  lemma Int64RoundTrip(v: int)
    requires Signed64(v)
    ensures Int64(Int64Bytes(v)) == v
  {
    hide Bytes, Number;
    Powers();
    NumberBytes(if v < 0 then v + 0x1_0000_0000_0000_0000 else v, 8);
  }

  lemma UnsignedRoundTrip(v: nat)
    ensures v < 0x1_0000_0000_0000_0000 ==> Number(Bytes(v, 8)) == v
    ensures v < 0x1_0000_0000 ==> Number(Bytes(v, 4)) == v
    ensures v < 0x1_0000 ==> Number(Bytes(v, 2)) == v
  {
    hide Bytes, Number;
    Powers();
    if v < 0x1_0000_0000_0000_0000 { NumberBytes(v, 8); }
    if v < 0x1_0000_0000 { NumberBytes(v, 4); }
    if v < 0x1_0000 { NumberBytes(v, 2); }
  }

  /** s copied into t from `at` on. */
  function Splice<T>(t: seq<T>, at: nat, s: seq<T>): (r: seq<T>)
    requires at + |s| <= |t|
    ensures |r| == |t|
  {
    t[..at] + s + t[at + |s|..]
  }

  /** The splice holds s there and t elsewhere. */
  lemma Spliced<T>(t: seq<T>, at: nat, s: seq<T>, lo: nat, hi: nat)
    requires at + |s| <= |t| && lo <= hi <= |t|
    ensures Splice(t, at, s)[at..at + |s|] == s
    ensures hi <= at || at + |s| <= lo ==> Splice(t, at, s)[lo..hi] == t[lo..hi]
  {
  }

  /** s followed by zeros, or cut short, to n bytes. */
  function Pad(s: seq<byte>, n: nat): (r: seq<byte>)
    ensures |r| == n
    ensures |s| <= n ==> r[..|s|] == s
  {
    if n <= |s| then s[..n] else s + seq(n - |s|, _ => 0)
  }
}
