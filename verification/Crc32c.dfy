/** CRC-32C (RFC 3720 section 12.1): the bit-by-bit shift register as the definition, and
    the slicing loops that compute it up to eight bytes at a time. */
module Crc32c {

  /** Exclusive or under a name, so that the algebra below need not look at bits. */
  function Xor(x: bv32, y: bv32): bv32 {
    x ^ y
  }

  function Flip(x: bv32): bv32 {
    !x
  }

  /** One bit through the shift register of the (bit-reversed) CRC-32C polynomial. */
  function ShiftOne(x: bv32): bv32 {
    if x & 1 == 1 then (x >> 1) ^ 0x82F6_3B78 else x >> 1
  }

  function Shift(x: bv32, n: nat): bv32
    decreases n
  {
    if n == 0 then x else Shift(ShiftOne(x), n - 1)
  }

  /** The definition: every byte enters at the low end and is shifted through bit by bit. */
  function Register(s: seq<bv8>, crc: bv32): bv32 {
    if s == [] then crc else Shift(Xor(Register(s[..|s| - 1], crc), s[|s| - 1] as bv32), 8)
  }

  /** The lookup tables by their recurrence: slice 0 shifts a byte through, slice k shifts
      slice k-1's entry through by one byte more. */
  function Table(k: nat, i: bv32): bv32 {
    if k == 0 then Shift(i, 8) else Xor(Table(k - 1, i) >> 8, Table(0, Table(k - 1, i) & 0xff))
  }

  // ---------- bits ----------

  lemma XorLaws(x: bv32, y: bv32, z: bv32)
    ensures Xor(Xor(x, y), z) == Xor(x, Xor(y, z))
    ensures Xor(x, y) == Xor(y, x)
  {
  }

  lemma ShiftOneLinear(x: bv32, y: bv32)
    ensures ShiftOne(Xor(x, y)) == Xor(ShiftOne(x), ShiftOne(y))
  {
    if x & 1 == 1 {
      if y & 1 == 1 { ShiftOneOdd(x, y); } else { ShiftOneMixed(x, y); }
    } else {
      if y & 1 == 1 { ShiftOneMixed(y, x); XorLaws(x, y, 0); XorLaws(ShiftOne(x), ShiftOne(y), 0); } else { ShiftOneEven(x, y); }
    }
  }

  lemma ShiftOneOdd(x: bv32, y: bv32)
    requires x & 1 == 1 && y & 1 == 1
    ensures ShiftOne(Xor(x, y)) == Xor(ShiftOne(x), ShiftOne(y))
  {
  }

  lemma ShiftOneEven(x: bv32, y: bv32)
    requires x & 1 != 1 && y & 1 != 1
    ensures ShiftOne(Xor(x, y)) == Xor(ShiftOne(x), ShiftOne(y))
  {
  }

  lemma ShiftOneMixed(x: bv32, y: bv32)
    requires x & 1 == 1 && y & 1 != 1
    ensures ShiftOne(Xor(x, y)) == Xor(ShiftOne(x), ShiftOne(y))
  {
  }

  lemma SplitLow(x: bv32)
    ensures (x >> 8) & 0xff00_0000 == 0
    ensures x == Xor((x >> 8) << 8, x & 0xff)
  {
  }

  ghost predicate Halved(x: bv32, y: bv32) {
    x & 1 == 0 && x >> 1 == y
  }

  lemma HalvesDown(y: bv32)
    requires y & 0xff00_0000 == 0
    ensures Halved(y << 8, y << 7) && Halved(y << 7, y << 6) && Halved(y << 6, y << 5) && Halved(y << 5, y << 4)
    ensures Halved(y << 4, y << 3) && Halved(y << 3, y << 2) && Halved(y << 2, y << 1) && Halved(y << 1, y)
  {
  }

  lemma ShiftHalved(x: bv32, y: bv32, n: nat)
    requires Halved(x, y) && n > 0
    ensures Shift(x, n) == Shift(y, n - 1)
  {
  }

  lemma ShiftHalvedFour(a: bv32, b: bv32, c: bv32, d: bv32, e: bv32, n: nat)
    requires Halved(a, b) && Halved(b, c) && Halved(c, d) && Halved(d, e) && n >= 4
    ensures Shift(a, n) == Shift(e, n - 4)
  {
    hide Shift, Halved;
    ShiftHalved(a, b, n);
    ShiftHalved(b, c, n - 1);
    ShiftHalved(c, d, n - 2);
    ShiftHalved(d, e, n - 3);
  }

  /** A byte still eight places up just moves down. */
  lemma ShiftHigh(y: bv32)
    requires y & 0xff00_0000 == 0
    ensures Shift(y << 8, 8) == y
  {
    hide Shift, Halved;
    HalvesDown(y);
    ShiftHalvedFour(y << 8, y << 7, y << 6, y << 5, y << 4, 8);
    ShiftHalvedFour(y << 4, y << 3, y << 2, y << 1, y, 4);
    ShiftNone(y);
  }

  lemma ShiftNone(x: bv32)
    ensures Shift(x, 0) == x
  {
  }

  // ---------- tables ----------

  lemma {:induction false} ShiftLinear(x: bv32, y: bv32, n: nat)
    ensures Shift(Xor(x, y), n) == Xor(Shift(x, n), Shift(y, n))
    decreases n
  {
    hide ShiftOne, Xor;
    if n > 0 {
      ShiftOneLinear(x, y);
      ShiftLinear(ShiftOne(x), ShiftOne(y), n - 1);
    }
  }

  /** One lookup shifts a whole byte through. */
  lemma LookupStep(x: bv32)
    ensures Xor(x >> 8, Shift(x & 0xff, 8)) == Shift(x, 8)
  {
    hide Shift, Xor;
    SplitLow(x);
    ShiftLinear((x >> 8) << 8, x & 0xff, 8);
    ShiftHigh(x >> 8);
  }

  lemma TableNext(k: nat, i: bv32)
    requires k > 0
    ensures Table(k, i) == Shift(Table(k - 1, i), 8)
  {
    LookupStep(Table(k - 1, i));
    TableUnfold(k, i);
  }

  lemma TableUnfold(k: nat, i: bv32)
    requires k > 0
    ensures Table(k, i) == Xor(Table(k - 1, i) >> 8, Shift(Table(k - 1, i) & 0xff, 8))
  {
  }

  lemma {:induction false} ShiftAdd(x: bv32, m: nat, n: nat)
    ensures Shift(Shift(x, m), n) == Shift(x, m + n)
    decreases m
  {
    hide ShiftOne;
    if m > 0 { ShiftAdd(ShiftOne(x), m - 1, n); }
  }

  /** Slice k of the tables shifts through by k + 1 bytes. */
  lemma {:induction false} TableIsShift(k: nat, i: bv32)
    ensures Table(k, i) == Shift(i, 8 * (k + 1))
  {
    hide Shift;
    if k > 0 {
      TableNext(k, i);
      TableIsShift(k - 1, i);
      ShiftAdd(i, 8 * k, 8);
    }
  }

  lemma ShiftUp(y: bv32, n: nat)
    requires y & 0xff00_0000 == 0
    ensures Shift(y << 8, 8 + n) == Shift(y, n)
  {
    hide Shift;
    ShiftHigh(y);
    ShiftAdd(y << 8, 8, n);
  }

  // ---------- words ----------

  /** The 32-bit word that four consecutive bytes spell on a little-endian host. */
  function Word(a: bv8, b: bv8, c: bv8, d: bv8): bv32 {
    (a as bv32) | ((b as bv32) << 8) | ((c as bv32) << 16) | ((d as bv32) << 24)
  }

  function Spread(a: bv32, b: bv32, c: bv32, d: bv32): bv32 {
    Xor(a, Xor(b << 8, Xor(c << 8 << 8, d << 8 << 8 << 8)))
  }

  lemma WordSpread(a: bv8, b: bv8, c: bv8, d: bv8)
    ensures Word(a, b, c, d) == Spread(a as bv32, b as bv32, c as bv32, d as bv32)
  {
  }

  lemma BytesSpread(x: bv32)
    ensures x == Spread(x & 0xff, (x >> 8) & 0xff, (x >> 16) & 0xff, x >> 24)
  {
  }

  lemma SpreadFits(b: bv32, c: bv32, d: bv32)
    requires b & 0xffff_ff00 == 0 && c & 0xffff_ff00 == 0 && d & 0xffff_ff00 == 0
    ensures b & 0xff00_0000 == 0 && c & 0xff00_0000 == 0 && (c << 8) & 0xff00_0000 == 0
    ensures d & 0xff00_0000 == 0 && (d << 8) & 0xff00_0000 == 0 && (d << 8 << 8) & 0xff00_0000 == 0
  {
  }

  /** Shifting four bytes through together is shifting each through by its own distance. */
  lemma ShiftSpread(a: bv32, b: bv32, c: bv32, d: bv32, n: nat)
    requires b & 0xffff_ff00 == 0 && c & 0xffff_ff00 == 0 && d & 0xffff_ff00 == 0
    ensures Shift(Spread(a, b, c, d), 24 + n) == Xor(Shift(a, 24 + n), Xor(Shift(b, 16 + n), Xor(Shift(c, 8 + n), Shift(d, n))))
  {
    hide Shift, Xor;
    SpreadFits(b, c, d);
    ShiftLinear(a, Xor(b << 8, Xor(c << 8 << 8, d << 8 << 8 << 8)), 24 + n);
    ShiftLinear(b << 8, Xor(c << 8 << 8, d << 8 << 8 << 8), 24 + n);
    ShiftLinear(c << 8 << 8, d << 8 << 8 << 8, 24 + n);
    ShiftUp(b, 16 + n);
    ShiftUp(c << 8, 16 + n);
    ShiftUp(c, 8 + n);
    ShiftUp(d << 8 << 8, 16 + n);
    ShiftUp(d << 8, 8 + n);
    ShiftUp(d, n);
  }

  // ---------- the register over several bytes ----------

  lemma {:induction false} RegisterConcat(s: seq<bv8>, t: seq<bv8>, crc: bv32)
    ensures Register(s + t, crc) == Register(t, Register(s, crc))
  {
    hide Shift, Xor;
    if t == [] {
      assert s + t == s;
    } else {
      RegisterConcat(s, t[..|t| - 1], crc);
      assert (s + t)[..|s + t| - 1] == s + t[..|t| - 1];
    }
  }

  lemma RegisterByte(a: bv8, crc: bv32)
    ensures Register([a], crc) == Shift(Xor(crc, a as bv32), 8)
  {
    hide Shift, Xor;
    assert [a][..0] == [];
  }

  lemma RegisterFour(a: bv8, b: bv8, c: bv8, d: bv8, crc: bv32)
    ensures Register([a, b, c, d], crc) == Register([d], Register([c], Register([b], Register([a], crc))))
  {
    hide Register;
    RegisterConcat([a], [b], crc);
    RegisterConcat([a, b], [c], crc);
    RegisterConcat([a, b, c], [d], crc);
    assert [a, b, c, d] == [a, b, c] + [d] && [a, b, c] == [a, b] + [c] && [a, b] == [a] + [b];
  }

  /** A byte entering n bits late is the same byte entering now, n bits further up. */
  lemma AbsorbLate(x: bv32, n: nat, b: bv32, raised: bv32)
    requires Shift(raised, n) == b
    ensures Shift(Xor(Shift(x, n), b), 8) == Shift(Xor(x, raised), n + 8)
  {
    hide Shift, Xor;
    ShiftLinear(x, raised, n);
    ShiftAdd(Xor(x, raised), n, 8);
  }

  lemma Raised(b: bv32, c: bv32, d: bv32)
    requires b & 0xffff_ff00 == 0 && c & 0xffff_ff00 == 0 && d & 0xffff_ff00 == 0
    ensures Shift(b << 8, 8) == b && Shift(c << 8 << 8, 16) == c && Shift(d << 8 << 8 << 8, 24) == d
  {
    hide Shift;
    SpreadFits(b, c, d);
    ShiftHigh(b);
    ShiftUp(c << 8, 8);
    ShiftHigh(c);
    ShiftUp(d << 8 << 8, 16);
    ShiftUp(d << 8, 8);
    ShiftHigh(d);
  }

  /** Four bytes absorbed one at a time are one word absorbed at once. */
  lemma AbsorbWord(a: bv8, b: bv8, c: bv8, d: bv8, crc: bv32)
    ensures Register([a, b, c, d], crc) == Shift(Xor(crc, Word(a, b, c, d)), 32)
  {
    hide Shift, Xor, Register, Word;
    RegisterFour(a, b, c, d, crc);
    var xa, xb, xc, xd := a as bv32, b as bv32, c as bv32, d as bv32;
    ByteFits(b);
    ByteFits(c);
    ByteFits(d);
    Raised(xb, xc, xd);
    var x1 := Xor(crc, xa);
    var x2 := Xor(x1, xb << 8);
    var x3 := Xor(x2, xc << 8 << 8);
    RegisterByte(a, crc);
    RegisterByte(b, Shift(x1, 8));
    AbsorbLate(x1, 8, xb, xb << 8);
    RegisterByte(c, Shift(x2, 16));
    AbsorbLate(x2, 16, xc, xc << 8 << 8);
    RegisterByte(d, Shift(x3, 24));
    AbsorbLate(x3, 24, xd, xd << 8 << 8 << 8);
    XorRight(crc, xa, xb << 8, xc << 8 << 8, xd << 8 << 8 << 8);
    WordSpread(a, b, c, d);
  }

  lemma ByteFits(a: bv8)
    ensures (a as bv32) & 0xffff_ff00 == 0
  {
  }

  lemma XorRight(p: bv32, a: bv32, b: bv32, c: bv32, d: bv32)
    ensures Xor(Xor(Xor(Xor(p, a), b), c), d) == Xor(p, Xor(a, Xor(b, Xor(c, d))))
  {
    hide Xor;
    XorLaws(Xor(Xor(p, a), b), c, d);
    XorLaws(Xor(p, a), b, Xor(c, d));
    XorLaws(p, a, Xor(b, Xor(c, d)));
  }

  /** Four lookups in consecutive slices shift a whole word through. */
  lemma FourLookups(x: bv32, k: nat)
    ensures Xor(Table(k + 3, x & 0xff), Xor(Table(k + 2, (x >> 8) & 0xff), Xor(Table(k + 1, (x >> 16) & 0xff), Table(k, x >> 24))))
         == Shift(x, 8 * (k + 4))
  {
    hide Shift, Xor, Table, Spread;
    var a, b, c, d := x & 0xff, (x >> 8) & 0xff, (x >> 16) & 0xff, x >> 24;
    TableIsShift(k + 3, a);
    TableIsShift(k + 2, b);
    TableIsShift(k + 1, c);
    TableIsShift(k, d);
    BytesSpread(x);
    PartsFit(x);
    ShiftSpread(a, b, c, d, 8 * (k + 1));
  }

  lemma PartsFit(x: bv32)
    ensures ((x >> 8) & 0xff) & 0xffff_ff00 == 0 && ((x >> 16) & 0xff) & 0xffff_ff00 == 0 && (x >> 24) & 0xffff_ff00 == 0
  {
  }

  /** What the byte loop computes in one turn. */
  lemma LookupByte(crc: bv32, b: bv8)
    ensures Xor(crc >> 8, Table(0, Xor(crc & 0xff, b as bv32))) == Register([b], crc)
  {
    hide Shift, Register, Xor;
    RegisterByte(b, crc);
    MixLow(crc, b);
    LookupStep(Xor(crc, b as bv32));
  }

  lemma MixLow(crc: bv32, b: bv8)
    ensures Xor(crc, b as bv32) >> 8 == crc >> 8
    ensures Xor(crc, b as bv32) & 0xff == Xor(crc & 0xff, b as bv32)
  {
  }

  lemma RegisterNone(crc: bv32)
    ensures Register([], crc) == crc
  {
  }

  // ---------- the loops ----------

  method SliceByOne(input: array<bv8>, start: nat, length: int, crc0: bv32) returns (crc: bv32)
    requires start <= start + length <= input.Length
    ensures crc == Register(input[start..start + length], crc0)
  {
    hide Table, Register, Xor;
    crc := crc0;
    RegisterNone(crc0);
    assert input[start..start] == [];
    var p := start;
    while p < start + length
      invariant start <= p <= start + length
      invariant crc == Register(input[start..p], crc0)
    {
      LookupByte(crc, input[p]);
      assert input[start..p + 1] == input[start..p] + [input[p]];
      RegisterConcat(input[start..p], [input[p]], crc0);
      crc := Xor(crc >> 8, Table(0, Xor(crc & 0xff, input[p] as bv32)));
      p := p + 1;
    }
  }

  /** The word a little-endian host loads from four consecutive bytes. */
  function LoadWord(input: array<bv8>, p: nat): bv32
    requires p + 4 <= input.Length
    reads input
  {
    Word(input[p], input[p + 1], input[p + 2], input[p + 3])
  }

  lemma AbsorbLoad(input: array<bv8>, start: nat, p: nat, crc0: bv32)
    requires start <= p && p + 4 <= input.Length
    ensures Register(input[start..p + 4], crc0) == Shift(Xor(Register(input[start..p], crc0), LoadWord(input, p)), 32)
  {
    hide Register, Shift, Xor, Word;
    var w := input[p..p + 4];
    assert input[start..p + 4] == input[start..p] + w;
    assert w == [input[p], input[p + 1], input[p + 2], input[p + 3]];
    RegisterConcat(input[start..p], w, crc0);
    AbsorbWord(input[p], input[p + 1], input[p + 2], input[p + 3], Register(input[start..p], crc0));
  }

  method SliceByFour(input: array<bv8>, start: nat, length: int, crc0: bv32) returns (crc: bv32)
    requires start <= start + length <= input.Length
    ensures crc == Register(input[start..start + length], crc0)
  {
    hide Table, Register, Xor, Word, Shift;
    crc := crc0;
    RegisterNone(crc0);
    assert input[start..start] == [];
    var remaining := length;
    var current := start;
    while remaining >= 4
      invariant 0 <= remaining <= length && current == start + length - remaining
      invariant crc == Register(input[start..current], crc0)
    {
      AbsorbLoad(input, start, current, crc0);
      crc := Xor(crc, LoadWord(input, current));
      current := current + 4;
      FourLookups(crc, 0);
      crc := Xor(Table(3, crc & 0xff), Xor(Table(2, (crc >> 8) & 0xff), Xor(Table(1, (crc >> 16) & 0xff), Table(0, crc >> 24))));
      remaining := remaining - 4;
    }
    RegisterConcat(input[start..current], input[current..current + remaining], crc0);
    assert input[start..start + length] == input[start..current] + input[current..current + remaining];
    crc := SliceByOne(input, start + length - remaining, remaining, crc);
  }

  /** Eight bytes at once: the first word goes through the upper four slices, the second through the lower. */
  lemma AbsorbTwo(input: array<bv8>, start: nat, p: nat, crc0: bv32, t1: bv32, t2: bv32)
    requires start <= p && p + 8 <= input.Length
    requires t1 == Shift(Xor(LoadWord(input, p), Register(input[start..p], crc0)), 64)
    requires t2 == Shift(LoadWord(input, p + 4), 32)
    ensures Register(input[start..p + 8], crc0) == Xor(t1, t2)
  {
    hide Register, Shift, Xor, Word;
    var r, w := Register(input[start..p], crc0), LoadWord(input, p);
    AbsorbLoad(input, start, p, crc0);
    AbsorbLoad(input, start, p + 4, crc0);
    XorLaws(r, w, 0);
    ShiftLinear(Shift(Xor(r, w), 32), LoadWord(input, p + 4), 32);
    ShiftAdd(Xor(r, w), 32, 32);
  }

  method SliceByEight(input: array<bv8>, start: nat, length: int, crc0: bv32) returns (crc: bv32)
    requires start <= start + length <= input.Length
    ensures crc == Register(input[start..start + length], crc0)
  {
    hide Table, Register, Xor, Word, Shift;
    crc := crc0;
    RegisterNone(crc0);
    assert input[start..start] == [];
    var remaining := length;
    var current := start;
    while remaining >= 8
      invariant 0 <= remaining <= length && current == start + length - remaining
      invariant crc == Register(input[start..current], crc0)
    {
      var c1 := Xor(LoadWord(input, current), crc);
      var c2 := LoadWord(input, current + 4);
      FourLookups(c1, 4);
      FourLookups(c2, 0);
      HighByte(c1);
      HighByte(c2);
      var t1 := Xor(Table(7, c1 & 0xff), Xor(Table(6, (c1 >> 8) & 0xff), Xor(Table(5, (c1 >> 16) & 0xff), Table(4, (c1 >> 24) & 0xff))));
      var t2 := Xor(Table(3, c2 & 0xff), Xor(Table(2, (c2 >> 8) & 0xff), Xor(Table(1, (c2 >> 16) & 0xff), Table(0, (c2 >> 24) & 0xff))));
      AbsorbTwo(input, start, current, crc0, t1, t2);
      crc := Xor(t1, t2);
      current := current + 8;
      remaining := remaining - 8;
    }
    RegisterConcat(input[start..current], input[current..current + remaining], crc0);
    assert input[start..start + length] == input[start..current] + input[current..current + remaining];
    crc := SliceByFour(input, start + length - remaining, remaining, crc);
  }

  lemma HighByte(x: bv32)
    ensures (x >> 24) & 0xff == x >> 24
  {
  }

  /** Bytes before the first four-byte boundary go one at a time, unless nothing would be left for the word loops. */
  method Align(input: array<bv8>, address: nat, length: int, crc0: bv32) returns (start: nat, rest: int, crc: bv32)
    requires 0 <= length <= input.Length
    ensures start + rest == length && 0 <= rest
    ensures crc == Register(input[..start], crc0)
    ensures rest >= 4 ==> (address + start) % 4 == 0
  {
    var leading := (4 - address % 4) % 4;
    var remaining := length - leading;
    start, rest, crc := 0, length, crc0;
    if leading != 0 && remaining > 0 {
      crc := SliceByOne(input, 0, leading, crc0);
      start, rest := leading, length - leading;
    }
    RegisterNone(crc0);
    assert input[0..start] == input[..start];
  }

  /** address is where the input lies in memory; only its distance to a four-byte boundary matters. */
  method Crc32C(input: array?<bv8>, address: nat, length: int, previous: bv32, bigEndianHost: bool) returns (crc: bv32)
    requires input != null ==> length <= input.Length
    ensures input == null || length <= 0 ==> crc == 0
    ensures input != null && length > 0 ==> crc == Checksum(input[..length], previous)
  {
    hide Register, Flip;
    if input == null || length <= 0 {
      return 0;
    }
    if bigEndianHost {
      crc := SliceByOne(input, 0, length, Flip(previous));
      assert input[0..length] == input[..length];
    } else {
      var start, rest;
      start, rest, crc := Align(input, address, length, Flip(previous));
      RegisterConcat(input[..start], input[start..start + rest], Flip(previous));
      assert input[..length] == input[..start] + input[start..start + rest];
      crc := SliceByEight(input, start, rest, crc);
    }
    crc := Flip(crc);
  }

  /** The checksum of a byte string continuing from an earlier checksum. */
  function Checksum(s: seq<bv8>, previous: bv32): bv32 {
    Flip(Register(s, Flip(previous)))
  }

  /** Feeding a string in two pieces gives the checksum of the whole. */
  lemma ChecksumConcat(s: seq<bv8>, t: seq<bv8>, previous: bv32)
    ensures Checksum(s + t, previous) == Checksum(t, Checksum(s, previous))
  {
    hide Register, Flip;
    RegisterConcat(s, t, Flip(previous));
    FlipTwice(Register(s, Flip(previous)));
  }

  lemma FlipTwice(x: bv32)
    ensures Flip(Flip(x)) == x
  {
  }

  // ---------- the polynomial and the check value, as numbers ----------

  /** The entries of slice 0 for single bits. The last is the polynomial 0x1EDC_6F41 with its bits reversed. */
  lemma BitEntries()
    ensures Table(0, 0x01) == 0xF26B_8303 && Table(0, 0x02) == 0xE13B_70F7 && Table(0, 0x04) == 0xC79A_971F
    ensures Table(0, 0x08) == 0x8AD9_58CF && Table(0, 0x10) == 0x105E_C76F && Table(0, 0x20) == 0x20BD_8EDE
    ensures Table(0, 0x40) == 0x417B_1DBC && Table(0, 0x80) == 0x82F6_3B78
  {
  }

  /** Every other entry of slice 0 is the exclusive or of those for its bits. */
  lemma TableLinear(x: bv32, y: bv32)
    ensures Table(0, x ^ y) == Table(0, x) ^ Table(0, y)
  {
    ShiftLinear(x, y, 8);
  }

  /** And they determine the checksum: each further byte is one lookup. */
  lemma ChecksumByte(s: seq<bv8>, b: bv8, previous: bv32)
    ensures var crc := Flip(Checksum(s, previous));
      Checksum(s + [b], previous) == Flip(Xor(crc >> 8, Table(0, Xor(crc, b as bv32) & 0xff)))
    ensures Checksum([], previous) == previous
  {
    hide Shift, Flip, Xor, Table;
    var r := Register(s, Flip(previous));
    FlipTwice(r);
    FlipTwice(previous);
    assert (s + [b])[..|s|] == s;
    RegisterLookup(r, b);
  }

  lemma RegisterLookup(r: bv32, b: bv8)
    ensures Shift(Xor(r, b as bv32), 8) == Xor(r >> 8, Table(0, Xor(r, b as bv32) & 0xff))
  {
    LookupStep(Xor(r, b as bv32));
    HighPart(r, b);
    hide Shift, Xor;
  }

  lemma HighPart(r: bv32, b: bv8)
    ensures Xor(r, b as bv32) >> 8 == r >> 8
  {
  }

  /** The check value: the checksum of the digits 1 to 9. */
  lemma CheckValue()
    ensures Checksum([0x31, 0x32, 0x33, 0x34, 0x35, 0x36, 0x37, 0x38, 0x39], 0) == 0xE306_9283
  {
    hide Register;
    RegisterNone(0xFFFF_FFFF);
    assert Shift(0xFFFF_FFCE, 8) == 0x6F0A_661C;
    Digit([], 0x31, [0x31], 0xFFFF_FFFF, 0xFFFF_FFCE, 0x6F0A_661C);
    assert Shift(0x6F0A_662E, 8) == 0x8CAA_3B9F;
    Digit([0x31], 0x32, [0x31, 0x32], 0x6F0A_661C, 0x6F0A_662E, 0x8CAA_3B9F);
    assert Shift(0x8CAA_3BAC, 8) == 0xEF84_D04D;
    Digit([0x31, 0x32], 0x33, [0x31, 0x32, 0x33], 0x8CAA_3B9F, 0x8CAA_3BAC, 0xEF84_D04D);
    assert Shift(0xEF84_D079, 8) == 0x09C5_0B11;
    Digit([0x31, 0x32, 0x33], 0x34, [0x31, 0x32, 0x33, 0x34], 0xEF84_D04D, 0xEF84_D079, 0x09C5_0B11);
    assert Shift(0x09C5_0B24, 8) == 0xE72E_DCCA;
    Digit([0x31, 0x32, 0x33, 0x34], 0x35, [0x31, 0x32, 0x33, 0x34, 0x35], 0x09C5_0B11, 0x09C5_0B24, 0xE72E_DCCA);
    assert Shift(0xE72E_DCFC, 8) == 0xBECA_8E79;
    Digit([0x31, 0x32, 0x33, 0x34, 0x35], 0x36, [0x31, 0x32, 0x33, 0x34, 0x35, 0x36], 0xE72E_DCCA, 0xE72E_DCFC, 0xBECA_8E79);
    assert Shift(0xBECA_8E4E, 8) == 0xEDBD_6815;
    Digit([0x31, 0x32, 0x33, 0x34, 0x35, 0x36], 0x37, [0x31, 0x32, 0x33, 0x34, 0x35, 0x36, 0x37], 0xBECA_8E79, 0xBECA_8E4E, 0xEDBD_6815);
    assert Shift(0xEDBD_682D, 8) == 0x9F78_7F65;
    Digit([0x31, 0x32, 0x33, 0x34, 0x35, 0x36, 0x37], 0x38, [0x31, 0x32, 0x33, 0x34, 0x35, 0x36, 0x37, 0x38], 0xEDBD_6815, 0xEDBD_682D, 0x9F78_7F65);
    assert Shift(0x9F78_7F5C, 8) == 0x1CF9_6D7C;
    Digit([0x31, 0x32, 0x33, 0x34, 0x35, 0x36, 0x37, 0x38], 0x39, [0x31, 0x32, 0x33, 0x34, 0x35, 0x36, 0x37, 0x38, 0x39], 0x9F78_7F65, 0x9F78_7F5C, 0x1CF9_6D7C);
  }

  /** One digit through the register. */
  lemma Digit(s: seq<bv8>, b: bv8, s': seq<bv8>, before: bv32, mixed: bv32, after: bv32)
    requires s' == s + [b] && Register(s, 0xFFFF_FFFF) == before && before ^ b as bv32 == mixed && Shift(mixed, 8) == after
    ensures Register(s', 0xFFFF_FFFF) == after
  {
    hide Shift;
    assert s'[..|s|] == s;
  }
}
