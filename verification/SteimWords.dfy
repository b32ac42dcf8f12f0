/** Packing the differences of one data word, and the two-bit codes of a frame. */
module SteimWords {
  import opened Bits
  import opened SteimFormat
  import opened SteimGreedy

  /** The bits a difference needs, among the widths the formats know. */
  function Bitwidth(d: int): int {
    if -8 <= d <= 7 then 4
    else if -16 <= d <= 15 then 5
    else if -32 <= d <= 31 then 6
    else if -128 <= d <= 127 then 8
    else if -512 <= d <= 511 then 10
    else if -16384 <= d <= 16383 then 15
    else if -32768 <= d <= 32767 then 16
    else if -536870912 <= d <= 536870911 then 30
    else 32
  }

  lemma BitwidthFits(d: int, bits: nat)
    requires bits in {4, 5, 6, 8, 10, 15, 16, 30}
    ensures Bitwidth(d) <= bits <==> Fits(d, bits)
  {
    HalfRanges();
  }

  lemma HalfRanges()
    ensures Pow2(3) == 8 && Pow2(4) == 16 && Pow2(5) == 32 && Pow2(7) == 128 && Pow2(9) == 512
    ensures Pow2(14) == 16384 && Pow2(15) == 32768 && Pow2(29) == 536870912 && Pow2(31) == 0x8000_0000
  {
    assert Pow2(3) == 8;
    Pow2Add(3, 2);
    Pow2Add(5, 2);
    Pow2Add(7, 2);
    Pow2Add(9, 5);
    Pow2Add(14, 1);
    Pow2Add(15, 14);
    Pow2Add(29, 2);
  }

  /** The next k differences are from -m to m - 1. */
  ghost predicate Between(ds: seq<int>, i: int, k: nat, m: int) {
    0 <= i && i + k <= |ds| && forall j :: i <= j < i + k ==> -m <= ds[j] < m
  }

  lemma RunIs(version: Version, ds: seq<int>, i: int, k: nat, m: nat)
    requires Holds(version, k) && m == Pow2(FieldBits(version, k) - 1)
    ensures Run(version, ds, i, k) <==> Between(ds, i, k, m)
  {
    hide Pow2;
  }

  /** The encoder's choice by the differences themselves: as many as fit, up to seven (Steim-1: four) in a word. */
  lemma ChoiceIs(ds: seq<int>, i: int)
    ensures Choose(Steim2, ds, i) ==
      if Between(ds, i, 7, 8) then 7 else if Between(ds, i, 6, 16) then 6 else if Between(ds, i, 5, 32) then 5
      else if Between(ds, i, 4, 128) then 4 else if Between(ds, i, 3, 512) then 3 else if Between(ds, i, 2, 16384) then 2
      else if Between(ds, i, 1, 536870912) then 1 else 0
    ensures Choose(Steim1, ds, i) ==
      if Between(ds, i, 4, 128) then 4 else if Between(ds, i, 2, 32768) then 2 else if Between(ds, i, 1, 0x8000_0000) then 1 else 0
  {
    hide Run, Between, Pow2;
    HalfRanges();
    RunIs(Steim2, ds, i, 7, 8);
    RunIs(Steim2, ds, i, 6, 16);
    RunIs(Steim2, ds, i, 5, 32);
    RunIs(Steim2, ds, i, 4, 128);
    RunIs(Steim2, ds, i, 3, 512);
    RunIs(Steim2, ds, i, 2, 16384);
    RunIs(Steim2, ds, i, 1, 536870912);
    RunIs(Steim1, ds, i, 4, 128);
    RunIs(Steim1, ds, i, 2, 32768);
    RunIs(Steim1, ds, i, 1, 0x8000_0000);
  }

  /** The first k cached bit widths are at most b. */
  predicate Within(bitwidth: array<int>, k: nat, b: int)
    requires k <= bitwidth.Length
    reads bitwidth
  {
    forall j | 0 <= j < k :: bitwidth[j] <= b
  }

  ghost predicate Cached(diffs: array<int>, bitwidth: array<int>, n: int)
    reads diffs, bitwidth
  {
    0 <= n <= diffs.Length && n <= bitwidth.Length && forall j :: 0 <= j < n ==> bitwidth[j] == Bitwidth(diffs[j])
  }

  lemma WithinIsRun(version: Version, diffs: array<int>, bitwidth: array<int>, n: nat, k: nat, b: nat)
    requires Cached(diffs, bitwidth, n) && Holds(version, k) && b == FieldBits(version, k) && b in {4, 5, 6, 8, 10, 15, 16, 30}
    ensures n >= k && Within(bitwidth, k, b) <==> Run(version, diffs[..n], 0, k)
  {
    forall j | 0 <= j < n ensures bitwidth[j] <= b <==> Fits(diffs[j], b) {
      BitwidthFits(diffs[j], b);
    }
  }

  lemma PackedWordValue(ds: seq<int>, bits: nat, dnib: nat, w: nat)
    requires 1 <= |ds| <= 7 && |ds| != 4 && FieldBits(Steim2, |ds|) == bits && dnib < 4
    requires w == Or(Pack(ds, bits), Shl(dnib, 30))
    ensures w == Pack(ds, bits) + Shl(dnib, 30) && w < 0x1_0000_0000 && Shr(w, 30) == dnib
  {
    hide Or, Pack, Pow2;
    var low := Pack(ds, bits);
    FieldsFit(|ds|, bits);
    PackBound(ds, bits);
    Pow2Values();
    Pow2Monotone(Width(bits, |ds|), 30);
    OrAbove(low, dnib, 30);
    DivUnique(w, Pow2(30), dnib, low);
  }

  /** The encoder's test for k differences of b bits, against the window and against the fields alone. */
  lemma CheckIsRun(version: Version, diffs: array<int>, bitwidth: array<int>, n: nat, k: nat, b: nat)
    requires Cached(diffs, bitwidth, n)
    requires (version, k, b) in {(Steim2, 7, 4), (Steim2, 6, 5), (Steim2, 5, 6), (Steim2, 4, 8), (Steim2, 3, 10), (Steim2, 2, 15), (Steim2, 1, 30),
                                 (Steim1, 4, 8), (Steim1, 2, 16)}
    ensures k <= diffs.Length && k <= bitwidth.Length ==> (n >= k && Within(bitwidth, k, b) <==> Run(version, diffs[..n], 0, k))
    ensures n >= k && Run(version, diffs[..n], 0, k) ==> Run(version, diffs[..k], 0, k)
    ensures Holds(version, k) && FieldBits(version, k) == b
  {
    if k <= diffs.Length && k <= bitwidth.Length { WithinIsRun(version, diffs, bitwidth, n, k, b); }
  }

  /** Fields and format bits of one Steim-2 word decode back to the differences. */
  lemma PackedWord(ds: seq<int>, bits: nat, code: int, dnib: nat, w: nat, big: bool)
    requires Layout(code, dnib) == (|ds|, bits) && 1 <= |ds| <= 7 && dnib < 4 && code != 1
    requires Run(Steim2, ds, 0, |ds|) && FieldBits(Steim2, |ds|) == bits
    requires w == Or(Pack(ds, bits), Shl(dnib, 30))
    ensures w < 0x1_0000_0000 && DecodeWord(Steim2, code, Put(w, big), big) == ds
  {
    hide Or, Pack, Pow2, Put, Get, Unpack;
    PackedWordValue(ds, bits, dnib, w);
    GetPut(w, big);
    FieldsFit(|ds|, bits);
    UnpackLow(Pack(ds, bits), dnib, |ds|, bits);
    UnpackPack(ds, bits);
  }

  lemma FieldsFit(k: nat, bits: nat)
    requires 1 <= k <= 7 && k != 4 && FieldBits(Steim2, k) == bits
    ensures Width(bits, k) <= 30
  {
    WidthIsProduct(bits, k);
    if k == 7 { } else if k == 6 { } else if k == 5 { } else if k == 3 { } else if k == 2 { }
  }

  lemma {:induction false} WidthIsProduct(bits: nat, k: nat)
    ensures Width(bits, k) == bits * k
  {
    if k > 0 { WidthIsProduct(bits, k - 1); }
  }

  /** Bits from 30 up do not reach the low k fields. */
  lemma UnpackLow(low: nat, high: nat, k: nat, bits: nat)
    requires bits > 0 && Width(bits, k) <= 30
    ensures Unpack(low + Shl(high, 30), k, bits) == Unpack(low, k, bits)
  {
    UnpackAbove(low, high, 30, k, bits);
  }

  lemma {:induction false} UnpackAbove(low: nat, high: nat, at: nat, k: nat, bits: nat)
    requires bits > 0 && Width(bits, k) <= at
    ensures Unpack(low + Shl(high, at), k, bits) == Unpack(low, k, bits)
    decreases k
  {
    if k > 0 {
      hide Pow2;
      WidthStep(bits, k);
      Pow2Add(at - bits, bits);
      ShiftedField(low, Shl(high, at - bits), bits);
      MulAssoc(high, Pow2(at - bits), Pow2(bits));
      UnpackAbove(Shr(low, bits), high, at - bits, k - 1, bits);
    }
  }

  lemma WidthStep(bits: nat, k: nat)
    requires k > 0
    ensures Width(bits, k) == Width(bits, k - 1) + bits && Width(bits, 0) == 0
  {
  }

  lemma MulAssoc(a: int, b: int, c: int)
    ensures a * b * c == a * (b * c)
  {
  }

  lemma ShiftedField(low: nat, high: nat, bits: nat)
    ensures Low(low + Shl(high, bits), bits) == Low(low, bits)
    ensures Shr(low + Shl(high, bits), bits) == Shr(low, bits) + high
  {
    var b := Pow2(bits);
    QuotientNatural(low, b);
    Distribute(low / b, high, b);
    DivUnique(low + high * b, b, low / b + high, low % b);
  }

  lemma Distribute(a: int, b: int, c: int)
    ensures (a + b) * c == a * c + b * c
  {
  }

  /** Four bytes stored in memory order decode back whatever the byte order. */
  lemma BytesWord(version: Version, ds: seq<int>, q: Quad, big: bool)
    requires |ds| == 4 && Run(version, ds, 0, 4)
    requires q == Quad(ds[0] % 256, ds[1] % 256, ds[2] % 256, ds[3] % 256)
    ensures DecodeWord(version, 1, q, big) == ds && Spells(version, ds, 1, q, big)
  {
    Pow2Values();
    SignedLow(ds[0], 8);
    SignedLow(ds[1], 8);
    SignedLow(ds[2], 8);
    SignedLow(ds[3], 8);
  }

  /** Choosing looks no further than seven differences ahead (Steim-1: four). */
  function Window(version: Version): nat {
    if version == Steim1 then 4 else 7
  }

  lemma ChooseInWindow(version: Version, ds: seq<int>, i: nat, w: seq<int>)
    requires i <= |ds| && |w| == (if Window(version) <= |ds| - i then Window(version) else |ds| - i) && At(ds, i, w)
    ensures Choose(version, ds, i) == Choose(version, w, 0)
  {
    forall k | Holds(version, k) ensures Run(version, ds, i, k) <==> Run(version, w, 0, k) {
      RunInWindow(version, ds, i, w, k);
    }
  }

  lemma RunInWindow(version: Version, ds: seq<int>, i: nat, w: seq<int>, k: int)
    requires i <= |ds| && |w| == (if Window(version) <= |ds| - i then Window(version) else |ds| - i) && At(ds, i, w)
    requires Holds(version, k)
    ensures Run(version, ds, i, k) <==> Run(version, w, 0, k)
  {
    forall j | i <= j < i + |w| ensures ds[j] == w[j - i] {
      AtElement(ds, i, w, j);
    }
    if Run(version, w, 0, k) {
      forall j | i <= j < i + k ensures Fits(ds[j], FieldBits(version, k)) {
        assert Fits(w[j - i], FieldBits(version, k));
      }
    }
    if Run(version, ds, i, k) {
      forall j | 0 <= j < k ensures Fits(w[j], FieldBits(version, k)) {
        assert Fits(ds[i + j], FieldBits(version, k));
      }
    }
  }

  // ---------- packing one word ----------

  /** The mask-shift-or lines of one Steim-2 word, stored in the host's byte order. */
  method StoreFields(ds: seq<int>, bits: nat, code: int, dnib: nat, hostBig: bool) returns (q: Quad)
    requires Layout(code, dnib) == (|ds|, bits) && 1 <= |ds| <= 7 && |ds| != 4 && dnib < 4 && code != 1
    requires Run(Steim2, ds, 0, |ds|) && FieldBits(Steim2, |ds|) == bits
    ensures DecodeWord(Steim2, code, q, hostBig) == ds && Spells(Steim2, ds, code, q, hostBig)
  {
    hide Pack, Pow2, Or, Get, Put, Run, DecodeWord, Spells;
    var w := Pack(ds, bits);
    w := Or(w, Shl(dnib, 30));
    PackedWord(ds, bits, code, dnib, w, hostBig);
    PackedWordValue(ds, bits, dnib, w);
    PackedSpells(ds, bits, code, dnib, w);
    GetPut(w, hostBig);
    SpellsPut(ds, code, w, hostBig);
    q := Put(w, hostBig);
  }

  lemma SpellsPut(ds: seq<int>, code: nat, w: nat, big: bool)
    requires w < 0x1_0000_0000 && |ds| != 4 && SpellsTwo(ds, code, w) && Get(Put(w, big), big) == w
    ensures Spells(Steim2, ds, code, Put(w, big), big)
  {
    hide SpellsTwo, Get, Put;
  }

  /** The fields before the last are shifted up by its width. */
  lemma PackStep(ds: seq<int>, bits: nat, b: nat, k: nat)
    requires k < |ds| && b == Pow2(bits)
    ensures Pack(ds[..k + 1], bits) == Pack(ds[..k], bits) * b + ds[k] % b
  {
    hide Pow2, Or;
    assert ds[..k + 1][..k] == ds[..k];
    LowBound(ds[k], bits);
    OrAbove(Low(ds[k], bits), Pack(ds[..k], bits), bits);
  }

  /** The first fields of a word, one shift at a time. */
  lemma PackFields(ds: seq<int>, bits: nat, b: nat)
    requires |ds| >= 1 && b == Pow2(bits)
    ensures Pack(ds[..1], bits) == ds[0] % b
    ensures |ds| >= 2 ==> Pack(ds[..2], bits) == Pack(ds[..1], bits) * b + ds[1] % b
    ensures |ds| >= 3 ==> Pack(ds[..3], bits) == Pack(ds[..2], bits) * b + ds[2] % b
    ensures |ds| >= 4 ==> Pack(ds[..4], bits) == Pack(ds[..3], bits) * b + ds[3] % b
    ensures |ds| >= 5 ==> Pack(ds[..5], bits) == Pack(ds[..4], bits) * b + ds[4] % b
    ensures |ds| >= 6 ==> Pack(ds[..6], bits) == Pack(ds[..5], bits) * b + ds[5] % b
    ensures |ds| >= 7 ==> Pack(ds[..7], bits) == Pack(ds[..6], bits) * b + ds[6] % b
    ensures ds[..|ds|] == ds
  {
    hide Pack, Pow2;
    PackNothing(bits);
    PackStep(ds, bits, b, 0);
    if |ds| >= 2 { PackStep(ds, bits, b, 1); }
    if |ds| >= 3 { PackStep(ds, bits, b, 2); }
    if |ds| >= 4 { PackStep(ds, bits, b, 3); }
    if |ds| >= 5 { PackStep(ds, bits, b, 4); }
    if |ds| >= 6 { PackStep(ds, bits, b, 5); }
    if |ds| >= 7 { PackStep(ds, bits, b, 6); }
  }

  lemma PackNothing(bits: nat)
    ensures Pack([], bits) == 0
  {
  }

  /** Fields and format bits of one Steim-2 word are the number written out. */
  lemma PackedSpells(ds: seq<int>, bits: nat, code: int, dnib: nat, w: nat)
    requires Layout(code, dnib) == (|ds|, bits) && 1 <= |ds| <= 7 && |ds| != 4 && dnib < 4 && code != 1
    requires w == Pack(ds, bits) + Shl(dnib, 30)
    ensures SpellsTwo(ds, code, w)
  {
    hide Pow2, Pack;
    Pow2Values();
    FieldRanges();
    match |ds| {
      case 7 => PackFields(ds, bits, 16);
      case 6 => PackFields(ds, bits, 32);
      case 5 => PackFields(ds, bits, 64);
      case 3 => PackFields(ds, bits, 0x400);
      case 2 => PackFields(ds, bits, 0x8000);
      case 1 => PackFields(ds, bits, 0x4000_0000);
    }
  }

  lemma FieldRanges()
    ensures Pow2(4) == 16 && Pow2(5) == 32 && Pow2(6) == 64 && Pow2(10) == 0x400 && Pow2(15) == 0x8000 && Pow2(30) == 0x4000_0000
  {
    HalfRanges();
    Pow2Values();
    Pow2Add(5, 1);
    Pow2Add(5, 5);
  }

  lemma SwappedWord(ds: seq<int>, code: int, q: Quad, big: bool)
    requires code != 1
    ensures DecodeWord(Steim2, code, Swap4(q), !big) == DecodeWord(Steim2, code, q, big)
    ensures Spells(Steim2, ds, code, q, big) ==> Spells(Steim2, ds, code, Swap4(q), !big)
  {
    hide SpellsTwo, Get, Layout, Unpack;
    GetSwap(q, big);
  }

  /** One Steim-2 word from the waiting differences; packed == 0 when the first does not fit 30 bits. */
  method PackSteim2(diffs: array<int>, bitwidth: array<int>, diffcount: nat, swapflag: bool, hostBig: bool)
    returns (packed: nat, code: nat, q: Quad)
    requires diffs.Length == bitwidth.Length == 7 && 1 <= diffcount <= 7 && Cached(diffs, bitwidth, diffcount)
    ensures packed == Choose(Steim2, diffs[..diffcount], 0) && packed <= diffcount
    ensures packed > 0 ==> 1 <= code <= 3 && DecodeWord(Steim2, code, q, hostBig != swapflag) == diffs[..packed]
    ensures packed > 0 ==> Spells(Steim2, diffs[..packed], code, q, hostBig != swapflag)
  {
    hide Run, Within, Cached, DecodeWord, FieldBits, Holds, Spells;
    CheckIsRun(Steim2, diffs, bitwidth, diffcount, 7, 4);
    CheckIsRun(Steim2, diffs, bitwidth, diffcount, 6, 5);
    CheckIsRun(Steim2, diffs, bitwidth, diffcount, 5, 6);
    CheckIsRun(Steim2, diffs, bitwidth, diffcount, 4, 8);
    CheckIsRun(Steim2, diffs, bitwidth, diffcount, 3, 10);
    CheckIsRun(Steim2, diffs, bitwidth, diffcount, 2, 15);
    CheckIsRun(Steim2, diffs, bitwidth, diffcount, 1, 30);
    packed, code, q := 0, 0, Quad(0, 0, 0, 0);
    if diffcount == 7 && Within(bitwidth, 7, 4) {
      q := StoreFields(diffs[..7], 4, 3, 2, hostBig);
      packed, code := 7, 3;
    } else if diffcount >= 6 && Within(bitwidth, 6, 5) {
      q := StoreFields(diffs[..6], 5, 3, 1, hostBig);
      packed, code := 6, 3;
    } else if diffcount >= 5 && Within(bitwidth, 5, 6) {
      q := StoreFields(diffs[..5], 6, 3, 0, hostBig);
      packed, code := 5, 3;
    } else if diffcount >= 4 && Within(bitwidth, 4, 8) {
      q := Quad(diffs[0] % 256, diffs[1] % 256, diffs[2] % 256, diffs[3] % 256);
      BytesWord(Steim2, diffs[..4], q, hostBig != swapflag);
      packed, code := 4, 1;
    } else if diffcount >= 3 && Within(bitwidth, 3, 10) {
      q := StoreFields(diffs[..3], 10, 2, 3, hostBig);
      packed, code := 3, 2;
    } else if diffcount >= 2 && Within(bitwidth, 2, 15) {
      q := StoreFields(diffs[..2], 15, 2, 2, hostBig);
      packed, code := 2, 2;
    } else if diffcount >= 1 && Within(bitwidth, 1, 30) {
      q := StoreFields(diffs[..1], 30, 2, 1, hostBig);
      packed, code := 1, 2;
    }
    if swapflag && packed != 4 {
      if code != 1 { SwappedWord(diffs[..packed], code, q, hostBig); }
      q := Swap4(q);
    }
  }

  /** Two 16-bit halves, each in the data's byte order. */
  lemma HalvesWord(ds: seq<int>, q: Quad, hostBig: bool, swapflag: bool)
    requires |ds| == 2 && Run(Steim1, ds, 0, 2)
    requires var a, b := PutHalf(Low(ds[0], 16), hostBig), PutHalf(Low(ds[1], 16), hostBig);
      var c, d := if swapflag then (a.1, a.0) else a, if swapflag then (b.1, b.0) else b;
      q == Quad(c.0, c.1, d.0, d.1)
    ensures TwoHalves(q, hostBig != swapflag) == ds && Spells(Steim1, ds, 2, q, hostBig != swapflag)
  {
    Pow2Values();
    SignedLow(ds[0], 16);
    SignedLow(ds[1], 16);
  }

  function PutHalf(v: nat, big: bool): (byte, byte)
    requires v < Pow2(16)
  {
    Pow2Values();
    if big then (v / 256, v % 256) else (v % 256, v / 256)
  }

  lemma WholeWord(d: int, hostBig: bool, swapflag: bool)
    requires Fits(d, 32)
    ensures Low(d, 32) < 0x1_0000_0000
    ensures var q := Put(Low(d, 32), hostBig);
      Signed(Get(if swapflag then Swap4(q) else q, hostBig != swapflag), 32) == d
      && Get(if swapflag then Swap4(q) else q, hostBig != swapflag) == d % 0x1_0000_0000
  {
    hide Get, Put;
    Pow2Values();
    SignedLow(d, 32);
    GetPut(Low(d, 32), hostBig);
    GetSwap(Put(Low(d, 32), hostBig), hostBig);
  }

  /** One Steim-1 word from the waiting differences; a single difference always fits. */
  method PackSteim1(diffs: array<int>, bitwidth: array<int>, diffcount: nat, swapflag: bool, hostBig: bool)
    returns (packed: nat, code: nat, q: Quad)
    requires diffs.Length == bitwidth.Length == 4 && 1 <= diffcount <= 4 && Cached(diffs, bitwidth, diffcount)
    requires Fits(diffs[0], 32)
    ensures packed == Choose(Steim1, diffs[..diffcount], 0) && 1 <= packed <= diffcount
    ensures 1 <= code <= 3 && DecodeWord(Steim1, code, q, hostBig != swapflag) == diffs[..packed]
    ensures Spells(Steim1, diffs[..packed], code, q, hostBig != swapflag)
  {
    hide Run, Within, Cached, FieldBits, Holds, Pow2, Put, Get;
    CheckIsRun(Steim1, diffs, bitwidth, diffcount, 4, 8);
    CheckIsRun(Steim1, diffs, bitwidth, diffcount, 2, 16);
    if diffcount == 4 && Within(bitwidth, 4, 8) {
      q := Quad(diffs[0] % 256, diffs[1] % 256, diffs[2] % 256, diffs[3] % 256);
      BytesWord(Steim1, diffs[..4], q, hostBig != swapflag);
      packed, code := 4, 1;
    } else if diffcount >= 2 && Within(bitwidth, 2, 16) {
      LowBound(diffs[0], 16);
      LowBound(diffs[1], 16);
      var a, b := PutHalf(Low(diffs[0], 16), hostBig), PutHalf(Low(diffs[1], 16), hostBig);
      if swapflag {
        a, b := (a.1, a.0), (b.1, b.0);
      }
      q := Quad(a.0, a.1, b.0, b.1);
      HalvesWord(diffs[..2], q, hostBig, swapflag);
      packed, code := 2, 2;
    } else {
      WholeWord(diffs[0], hostBig, swapflag);
      q := Put(Low(diffs[0], 32), hostBig);
      if swapflag {
        q := Swap4(q);
      }
      packed, code := 1, 3;
      SingleRun(diffs[..diffcount]);
    }
  }

  lemma SingleRun(ds: seq<int>)
    requires |ds| > 0 && Fits(ds[0], 32)
    ensures Run(Steim1, ds, 0, 1)
  {
  }
}
