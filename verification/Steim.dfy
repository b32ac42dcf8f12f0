/** The Steim-1 and Steim-2 encoders. */
module Steim {
  import opened Bits
  import opened SteimFormat
  import opened SteimGreedy
  import opened SteimWords

  // ---------- the codes in a frame's first word ----------

  /** Two-bit codes read as one number, first code highest. */
  ghost function CodeNumber(codes: seq<nat>): nat {
    if codes == [] then 0 else 4 * CodeNumber(codes[..|codes| - 1]) + codes[|codes| - 1]
  }

  /** The first word once the codes of words 0..|codes|-1 are set. */
  ghost function Nibbles(codes: seq<nat>): nat
    requires |codes| <= 16
  {
    Shl(CodeNumber(codes), 32 - 2 * |codes|)
  }

  lemma NibblesStep(codes: seq<nat>, c: nat)
    requires |codes| < 16 && c < 4
    ensures Or(Nibbles(codes), Shl(c, 30 - 2 * |codes|)) == Nibbles(codes + [c])
  {
    hide Pow2, Or;
    var k, n := 30 - 2 * |codes|, CodeNumber(codes);
    assert (codes + [c])[..|codes|] == codes;
    Pow2Values();
    Pow2Add(2, k);
    MulLess(c, 4, Pow2(k));
    OrAbove(Shl(c, k), n, k + 2);
    Distribute(4 * n, c, Pow2(k));
    MulAssoc(n, 4, Pow2(k));
  }

  lemma MulLess(a: int, b: int, c: int)
    requires a < b && c > 0
    ensures a * c < b * c
  {
  }

  lemma ShrIgnore(y: nat, r: nat, m: nat, e: nat)
    requires r < Pow2(m) && m <= e
    ensures Shr(Shl(y, m) + r, e) == Shr(y, e - m)
  {
    hide Pow2;
    var a, b := Pow2(m), Pow2(e - m);
    Pow2Add(m, e - m);
    QuotientNatural(y, b);
    // y = (y / b) * b + y % b, so y * a + r = (y / b) * (a * b) + ((y % b) * a + r)
    Distribute((y / b) * b, y % b, a);
    MulAssoc(y / b, b, a);
    Carry(y % b, r, b, a);
    DivUnique(y * a + r, a * b, y / b, (y % b) * a + r);
  }

  lemma {:induction false} CodeRead(codes: seq<nat>, w: nat)
    requires |codes| <= 16 && w < 16 && forall i :: 0 <= i < |codes| ==> codes[i] < 4
    ensures Code(Nibbles(codes), w) == if w < |codes| then codes[w] else 0
  {
    hide Pow2;
    var n := |codes|;
    Pow2Values();
    if w >= n {
      ZeroCode(CodeNumber(codes), 32 - 2 * n, 30 - 2 * w);
    } else {
      var y, c := CodeNumber(codes[..n - 1]), codes[n - 1];
      var m := 34 - 2 * n;
      Pow2Add(2, m - 2);
      MulLess(c, 4, Pow2(m - 2));
      Distribute(4 * y, c, Pow2(m - 2));
      MulAssoc(y, 4, Pow2(m - 2));
      assert Nibbles(codes) == Shl(y, m) + Shl(c, m - 2);
      if w == n - 1 {
        ShrIgnore(CodeNumber(codes), 0, m - 2, m - 2);
        ShrZero(CodeNumber(codes));
        DivUnique(CodeNumber(codes), 4, y, c);
      } else {
        ShrIgnore(y, Shl(c, m - 2), m, 30 - 2 * w);
        ShrIgnore(y, 0, m, 30 - 2 * w);
        CodeRead(codes[..n - 1], w);
      }
    }
  }

  lemma ShrZero(y: nat)
    ensures Shr(y, 0) == y
  {
  }

  /** Below the codes set so far all is zero. */
  lemma ZeroCode(y: nat, m: nat, e: nat)
    requires e + 2 <= m
    ensures Low(Shr(Shl(y, m), e), 2) == 0
  {
    hide Pow2;
    Pow2Values();
    Pow2Add(m - e - 2, 2);
    Pow2Add(m - e, e);
    MulAssoc(y, Pow2(m - e), Pow2(e));
    DivUnique(Shl(y, m), Pow2(e), Shl(y, m - e), 0);
    MulAssoc(y, Pow2(m - e - 2), 4);
    DivUnique(Shl(y, m - e), 4, y * Pow2(m - e - 2), 0);
  }

  // ---------- the words of one frame ----------

  /** Codes and data words agree from start on, so the differences do. */
  lemma {:induction false} DecodeWordsFrame(version: Version, nib: nat, nib': nat, frame: seq<Quad>, frame': seq<Quad>, start: nat, upto: nat, big: bool)
    requires upto <= 16 <= |frame| && 16 <= |frame'|
    requires forall w :: start <= w < upto ==> frame[w] == frame'[w] && Code(nib, w) == Code(nib', w)
    ensures DecodeWords(version, nib, frame, start, upto, big) == DecodeWords(version, nib', frame', start, upto, big)
  {
    hide Code, DecodeWord;
    if start < upto {
      DecodeWordsFrame(version, nib, nib', frame, frame', start, upto - 1, big);
    }
  }

  /** Words with code 0 hold nothing. */
  lemma {:induction false} DecodeWordsPadded(version: Version, nib: nat, frame: seq<Quad>, start: nat, upto: nat, end: nat, big: bool)
    requires start <= upto <= end <= 16 <= |frame|
    requires forall w :: upto <= w < end ==> Code(nib, w) == 0
    ensures DecodeWords(version, nib, frame, start, end, big) == DecodeWords(version, nib, frame, start, upto, big)
  {
    hide Code;
    if upto < end {
      DecodeWordsPadded(version, nib, frame, start, upto, end - 1, big);
    }
  }

  /** The first `codes` words of a frame decode to ds; its first word holds the codes, host order. */
  ghost predicate FrameHolds(version: Version, frame: seq<Quad>, codes: seq<nat>, start: nat, ds: seq<int>, hostBig: bool, big: bool) {
    && |frame| == 16 && start <= |codes| <= 16
    && (forall i :: 0 <= i < |codes| ==> codes[i] < 4)
    && Get(frame[0], hostBig) == Nibbles(codes)
    && DecodeWords(version, Nibbles(codes), frame, start, |codes|, big) == ds
  }

  /** Adding one packed word to a frame. */
  lemma FrameStep(version: Version, frame: seq<Quad>, frame': seq<Quad>, codes: seq<nat>, start: nat, ds: seq<int>,
                  code: nat, q: Quad, hostBig: bool, big: bool)
    requires FrameHolds(version, frame, codes, start, ds, hostBig, big) && 1 <= start && |codes| < 16 && code < 4
    requires Or(Get(frame[0], hostBig), Shl(code, 30 - 2 * |codes|)) < 0x1_0000_0000
    requires frame' == frame[|codes| := q][0 := Put(Or(Get(frame[0], hostBig), Shl(code, 30 - 2 * |codes|)), hostBig)]
    ensures FrameHolds(version, frame', codes + [code], start, ds + DecodeWord(version, code, q, big), hostBig, big)
  {
    hide Code, DecodeWord, Get, Put, Or, Nibbles;
    var n, codes' := |codes|, codes + [code];
    NibblesStep(codes, code);
    GetPut(Nibbles(codes'), hostBig);
    forall w | start <= w <= n ensures Code(Nibbles(codes'), w) == codes'[w] && (w < n ==> Code(Nibbles(codes), w) == codes[w]) {
      CodeRead(codes', w);
      CodeRead(codes, w);
    }
    DecodeWordsFrame(version, Nibbles(codes), Nibbles(codes'), frame, frame', start, n, big);
  }

  lemma NibblesBound(codes: seq<nat>)
    requires |codes| <= 16 && forall i :: 0 <= i < |codes| ==> codes[i] < 4
    ensures Nibbles(codes) < 0x1_0000_0000
  {
    CodeNumberBound(codes);
    Pow2Add(2 * |codes|, 32 - 2 * |codes|);
    Pow2Values();
    MulLess(CodeNumber(codes), Pow2(2 * |codes|), Pow2(32 - 2 * |codes|));
  }

  lemma {:induction false} CodeNumberBound(codes: seq<nat>)
    requires forall i :: 0 <= i < |codes| ==> codes[i] < 4
    ensures CodeNumber(codes) < Pow2(2 * |codes|)
  {
    if codes != [] {
      CodeNumberBound(codes[..|codes| - 1]);
      Pow2Add(2 * (|codes| - 1), 2);
      Pow2Values();
    }
  }

  // ---------- the words written out ----------

  /** Word j, counting the data words of all frames, is made of the greedy choice of differences. */
  ghost predicate WordIs(version: Version, ds: seq<int>, j: nat, code: int, q: Quad, big: bool) {
    var i := Reach(version, ds, j);
    var k := Choose(version, ds, i);
    0 < k <= |ds| - i && Spells(version, ds[i..i + k], code, q, big)
  }

  /** The words of frame f so far are the next greedy words, and the rest is zero. */
  ghost predicate Spelled(version: Version, ds: seq<int>, f: nat, frame: seq<Quad>, codes: seq<nat>, big: bool) {
    && |frame| == 16 && FirstWord(f) <= |codes| <= 16
    && (forall w :: 0 <= w < FirstWord(f) ==> codes[w] == 0)
    && (forall w :: FirstWord(f) <= w < |codes| ==> WordIs(version, ds, Capacity(f) + w - FirstWord(f), codes[w], frame[w], big))
    && (forall w :: |codes| <= w < 16 ==> frame[w] == Quad(0, 0, 0, 0))
  }

  lemma SpelledStep(version: Version, ds: seq<int>, f: nat, frame: seq<Quad>, frame': seq<Quad>, codes: seq<nat>,
                    done: nat, code: nat, q: Quad, first: Quad, big: bool)
    requires Spelled(version, ds, f, frame, codes, big) && |codes| < 16 && frame' == frame[|codes| := q][0 := first]
    requires done == Reach(version, ds, Capacity(f) + |codes| - FirstWord(f)) && 0 < Choose(version, ds, done) <= |ds| - done
    requires Spells(version, ds[done..done + Choose(version, ds, done)], code, q, big)
    ensures Spelled(version, ds, f, frame', codes + [code], big)
  {
    hide Spells, Reach, Choose;
    var codes' := codes + [code];
    forall w | FirstWord(f) <= w < |codes'|
      ensures WordIs(version, ds, Capacity(f) + w - FirstWord(f), codes'[w], frame'[w], big)
    {
      if w < |codes| {
        assert WordIs(version, ds, Capacity(f) + w - FirstWord(f), codes[w], frame[w], big);
      }
    }
  }

  /** Word w of frame f in the finished block: a greedy word, or zero when no differences are left. */
  ghost predicate WordDone(version: Version, ds: seq<int>, f: nat, w: nat, quads: seq<Quad>, big: bool)
    requires 16 * (f + 1) <= |quads| && FirstWord(f) <= w < 16
  {
    var j, code, q := Capacity(f) + w - FirstWord(f), Code(Get(quads[16 * f], big), w), quads[16 * f + w];
    if Reach(version, ds, j) < |ds| then WordIs(version, ds, j, code, q, big) else code == 0 && q == Quad(0, 0, 0, 0)
  }

  /** Every code and data word of frame f is what the differences make it. */
  ghost predicate FrameSpelled(version: Version, ds: seq<int>, f: nat, quads: seq<Quad>, big: bool) {
    && 16 * (f + 1) <= |quads|
    && (forall w :: 0 <= w < FirstWord(f) ==> Code(Get(quads[16 * f], big), w) == 0)
    && (forall w :: FirstWord(f) <= w < 16 ==> WordDone(version, ds, f, w, quads, big))
  }

  ghost predicate AllSpelled(version: Version, ds: seq<int>, frames: nat, quads: seq<Quad>, big: bool) {
    forall f: nat :: f < frames ==> FrameSpelled(version, ds, f, quads, big)
  }

  lemma SpelledDone(version: Version, ds: seq<int>, f: nat, frame: seq<Quad>, codes: seq<nat>, quads: seq<Quad>, big: bool)
    requires Spelled(version, ds, f, frame, codes, big) && 16 * (f + 1) <= |quads| && forall i :: 0 <= i < |codes| ==> codes[i] < 4
    requires Get(quads[16 * f], big) == Nibbles(codes) && forall w :: 1 <= w < 16 ==> Frame(quads, f)[w] == frame[w]
    requires |codes| == 16 || Reach(version, ds, Capacity(f) + |codes| - FirstWord(f)) == |ds|
    ensures FrameSpelled(version, ds, f, quads, big)
  {
    hide Code, Nibbles, Get, Spells, Reach, Choose;
    forall w: nat | w < 16 ensures Code(Nibbles(codes), w) == if w < |codes| then codes[w] else 0 {
      CodeRead(codes, w);
    }
    forall w: nat | FirstWord(f) <= w < 16 ensures WordDone(version, ds, f, w, quads, big) {
      WordSpelledDone(version, ds, f, frame, codes, quads, w, big);
    }
  }

  lemma WordSpelledDone(version: Version, ds: seq<int>, f: nat, frame: seq<Quad>, codes: seq<nat>, quads: seq<Quad>, w: nat, big: bool)
    requires Spelled(version, ds, f, frame, codes, big) && 16 * (f + 1) <= |quads| && FirstWord(f) <= w < 16
    requires Code(Get(quads[16 * f], big), w) == (if w < |codes| then codes[w] else 0) && Frame(quads, f)[w] == frame[w]
    requires |codes| == 16 || Reach(version, ds, Capacity(f) + |codes| - FirstWord(f)) == |ds|
    ensures WordDone(version, ds, f, w, quads, big)
  {
    hide Code, Get, Spells, Reach, Choose;
    var j := Capacity(f) + w - FirstWord(f);
    if w < |codes| {
      assert WordIs(version, ds, j, codes[w], frame[w], big);
    } else {
      ReachMonotone(version, ds, Capacity(f) + |codes| - FirstWord(f), j);
    }
  }

  /** The two integration constants are not among the words. */
  lemma FrameSpelledSame(version: Version, ds: seq<int>, f: nat, quads: seq<Quad>, quads': seq<Quad>, big: bool)
    requires FrameSpelled(version, ds, f, quads, big) && 16 * (f + 1) <= |quads'|
    requires forall i :: 16 * f <= i < 16 * (f + 1) && i != 1 && i != 2 ==> quads[i] == quads'[i]
    ensures FrameSpelled(version, ds, f, quads', big)
  {
    hide Code, Get, WordIs, Reach;
    forall w: nat | FirstWord(f) <= w < 16 ensures WordDone(version, ds, f, w, quads', big) {
      assert WordDone(version, ds, f, w, quads, big);
    }
  }

  /** The code of each word, by its place in the number. */
  lemma CodeIs(nibbles: nat, w: nat)
    requires w < 16
    ensures Code(nibbles, w) == nibbles / [0x4000_0000, 0x1000_0000, 0x400_0000, 0x100_0000, 0x40_0000, 0x10_0000, 0x4_0000, 0x1_0000,
                                           0x4000, 0x1000, 0x400, 0x100, 0x40, 0x10, 4, 1][w] % 4
  {
    Pow2Places();
  }

  lemma Pow2Places()
    ensures Pow2(0) == 1 && Pow2(2) == 4 && Pow2(4) == 0x10 && Pow2(6) == 0x40 && Pow2(8) == 0x100 && Pow2(10) == 0x400 && Pow2(12) == 0x1000
    ensures Pow2(14) == 0x4000 && Pow2(16) == 0x1_0000 && Pow2(18) == 0x4_0000 && Pow2(20) == 0x10_0000 && Pow2(22) == 0x40_0000
    ensures Pow2(24) == 0x100_0000 && Pow2(26) == 0x400_0000 && Pow2(28) == 0x1000_0000 && Pow2(30) == 0x4000_0000
  {
  }

  // ---------- the window of waiting differences ----------

  predicate Int32(x: int) {
    -0x8000_0000 <= x < 0x8000_0000
  }

  /** The differences to encode; the first relates to a sample the encoder does not see. */
  ghost function Diffs(input: seq<int>, diff0: int): (ds: seq<int>)
    ensures |ds| == |input|
  {
    seq(|input|, i requires 0 <= i < |input| => if i == 0 then diff0 else input[i] - input[i - 1])
  }

  /** Where the encoder stands: done samples are packed, and the next count differences wait at `from` in the window. */
  ghost predicate Waiting(ds: seq<int>, done: nat, diffs: array<int>, bitwidth: array<int>, from: nat, count: nat, inputidx: nat)
    reads diffs, bitwidth
  {
    && diffs.Length == bitwidth.Length && from + count <= diffs.Length
    && done + count <= |ds| && inputidx + 1 == done + count
    && (forall j :: from <= j < from + count ==> diffs[j] == ds[done + j - from] && bitwidth[j] == Bitwidth(diffs[j]))
  }

  /** Move the waiting differences to the front and take in new ones until the window is full or the input ends. */
  method FillWindow(input: seq<int>, ghost diff0: int, diffs: array<int>, bitwidth: array<int>,
                    ghost done: nat, from: nat, count0: nat, inputidx0: nat)
    returns (count: nat, inputidx: nat)
    requires diffs != bitwidth && count0 < diffs.Length
    requires Waiting(Diffs(input, diff0), done, diffs, bitwidth, from, count0, inputidx0) && done < |input|
    modifies diffs, bitwidth
    ensures Waiting(Diffs(input, diff0), done, diffs, bitwidth, 0, count, inputidx)
    ensures count == if |input| - done < diffs.Length then |input| - done else diffs.Length
  {
    ghost var ds := Diffs(input, diff0);
    var idx := 0;
    while idx < count0
      invariant 0 <= idx <= count0
      invariant forall j :: 0 <= j < idx ==> diffs[j] == ds[done + j] && bitwidth[j] == Bitwidth(diffs[j])
      invariant forall j :: idx + from <= j < from + count0 ==> diffs[j] == ds[done + j - from] && bitwidth[j] == Bitwidth(diffs[j])
    {
      diffs[idx] := diffs[from + idx];
      bitwidth[idx] := bitwidth[from + idx];
      idx := idx + 1;
    }
    count, inputidx := count0, inputidx0;
    while idx < diffs.Length && inputidx < |input| - 1
      invariant idx == count <= diffs.Length && inputidx + 1 == done + count <= |input|
      invariant forall j :: 0 <= j < idx ==> diffs[j] == ds[done + j] && bitwidth[j] == Bitwidth(diffs[j])
    {
      diffs[idx] := input[inputidx + 1] - input[inputidx];
      bitwidth[idx] := Bitwidth(diffs[idx]);
      count := count + 1;
      idx, inputidx := idx + 1, inputidx + 1;
    }
  }

  /** The next word, in either format. */
  method PackWord(version: Version, ghost ds: seq<int>, ghost done: nat, diffs: array<int>, bitwidth: array<int>, count: nat,
                  ghost inputidx: nat, swapflag: bool, hostBig: bool)
    returns (packed: nat, code: nat, q: Quad)
    requires Waiting(ds, done, diffs, bitwidth, 0, count, inputidx) && diffs.Length == Window(version)
    requires count == (if |ds| - done < Window(version) then |ds| - done else Window(version)) && count > 0
    requires forall i :: 0 <= i < |ds| ==> Int32(ds[i])
    ensures packed == Choose(version, ds, done) && packed <= count
    ensures packed > 0 ==> 1 <= code <= 3 && DecodeWord(version, code, q, hostBig != swapflag) == ds[done..done + packed]
    ensures packed > 0 ==> Spells(version, ds[done..done + packed], code, q, hostBig != swapflag)
  {
    hide DecodeWord, Choose, Spells;
    assert diffs[..count] == ds[done..done + count];
    ChooseInWindow(version, ds, done, diffs[..count]);
    match version {
      case Steim1 =>
        HalfRanges();
        packed, code, q := PackSteim1(diffs, bitwidth, count, swapflag, hostBig);
      case Steim2 =>
        packed, code, q := PackSteim2(diffs, bitwidth, count, swapflag, hostBig);
    }
    if packed > 0 {
      assert diffs[..packed] == diffs[..count][..packed] == ds[done..done + packed];
    }
  }

  // ---------- one frame ----------

  /** memset of one frame. */
  method ClearFrame(output: array<Quad>, f: nat)
    requires 16 * (f + 1) <= output.Length
    modifies output
    ensures Frame(output[..], f) == seq(16, _ => Quad(0, 0, 0, 0))
    ensures output[..16 * f] == old(output[..16 * f]) && output[16 * (f + 1)..] == old(output[16 * (f + 1)..])
  {
    var w := 0;
    while w < 16
      invariant 0 <= w <= 16
      invariant forall j :: 16 * f <= j < 16 * f + w ==> output[j] == Quad(0, 0, 0, 0)
      invariant output[..16 * f] == old(output[..16 * f]) && output[16 * (f + 1)..] == old(output[16 * (f + 1)..])
    {
      output[16 * f + w] := Quad(0, 0, 0, 0);
      w := w + 1;
    }
  }

  /** A sample stored as a 32-bit word of the frame. */
  method StoreSample(output: array<Quad>, at: nat, sample: int, swapflag: bool, hostBig: bool)
    requires at < output.Length && Int32(sample)
    modifies output
    ensures Signed(Get(output[at], hostBig != swapflag), 32) == sample
    ensures Get(output[at], hostBig != swapflag) == sample % 0x1_0000_0000
    ensures output[..] == old(output[..])[at := output[at]]
  {
    HalfRanges();
    WholeWord(sample, hostBig, swapflag);
    output[at] := Put(Low(sample, 32), hostBig);
    if swapflag {
      output[at] := Swap4(output[at]);
    }
  }

  /** A packed word and its code enter a frame. */
  method StoreWord(output: array<Quad>, f: nat, widx: nat, code: nat, q: Quad, hostBig: bool)
    requires 16 * (f + 1) <= output.Length && 1 <= widx < 16
    requires Or(Get(output[16 * f], hostBig), Shl(code, 30 - 2 * widx)) < 0x1_0000_0000
    modifies output
    ensures var frame := old(Frame(output[..], f));
      Frame(output[..], f) == frame[widx := q][0 := Put(Or(Get(frame[0], hostBig), Shl(code, 30 - 2 * widx)), hostBig)]
    ensures output[..16 * f] == old(output[..16 * f]) && output[16 * (f + 1)..] == old(output[16 * (f + 1)..])
  {
    hide Get, Put, Or;
    output[16 * f + widx] := q;
    output[16 * f] := Put(Or(Get(output[16 * f], hostBig), Shl(code, 30 - 2 * widx)), hostBig);
  }

  /** The codes of the words before the first data word. */
  ghost function NoCodes(n: nat): (codes: seq<nat>)
    ensures |codes| == n && forall i :: 0 <= i < n ==> codes[i] == 0
  {
    seq(n, _ => 0)
  }

  lemma {:induction false} NoCodesNumber(n: nat)
    ensures CodeNumber(NoCodes(n)) == 0
  {
    if n > 0 {
      assert NoCodes(n)[..n - 1] == NoCodes(n - 1);
      NoCodesNumber(n - 1);
    }
  }

  /** The frame is cleared; the first one gets the first sample. */
  method BeginFrame(version: Version, output: array<Quad>, f: nat, first: int, swapflag: bool, hostBig: bool)
    requires 16 * (f + 1) <= output.Length && Int32(first)
    modifies output
    ensures FrameHolds(version, Frame(output[..], f), NoCodes(FirstWord(f)), FirstWord(f), [], hostBig, hostBig != swapflag)
    ensures forall w :: FirstWord(f) <= w < 16 ==> Frame(output[..], f)[w] == Quad(0, 0, 0, 0)
    ensures f == 0 ==> Signed(Get(output[1], hostBig != swapflag), 32) == first && Get(output[1], hostBig != swapflag) == first % 0x1_0000_0000
    ensures output[..16 * f] == old(output[..16 * f]) && output[16 * (f + 1)..] == old(output[16 * (f + 1)..])
  {
    hide Pow2;
    ClearFrame(output, f);
    NoCodesNumber(FirstWord(f));
    if f == 0 {
      ghost var cleared := output[..];
      StoreSample(output, 1, first, swapflag, hostBig);
      assert Frame(output[..], 0)[0] == Frame(cleared, 0)[0];
      assert output[16..] == output[..][16..] == cleared[16..];
    }
  }

  /** The frame is finished: the codes go into the data's byte order. */
  method EndFrame(version: Version, output: array<Quad>, f: nat, ghost codes: seq<nat>, ghost ds: seq<int>, swapflag: bool, hostBig: bool)
    requires 16 * (f + 1) <= output.Length
    requires FrameHolds(version, Frame(output[..], f), codes, FirstWord(f), ds, hostBig, hostBig != swapflag)
    modifies output
    ensures FrameDone(version, output[..], f, ds, hostBig != swapflag) && Get(output[16 * f], hostBig != swapflag) == Nibbles(codes)
    ensures output[..] == old(output[..])[16 * f := output[16 * f]]
  {
    ghost var big, before := hostBig != swapflag, Frame(output[..], f);
    forall w | 1 <= w < 16 ensures Code(Nibbles(codes), w) == if w < |codes| then codes[w] else 0 {
      CodeRead(codes, w);
    }
    DecodeWordsPadded(version, Nibbles(codes), before, FirstWord(f), |codes|, 16, big);
    if swapflag {
      GetSwap(output[16 * f], hostBig);
      output[16 * f] := Swap4(output[16 * f]);
    }
    ghost var after := Frame(output[..], f);
    assert forall w :: 1 <= w < 16 ==> after[w] == before[w];
    DecodeWordsFrame(version, Nibbles(codes), Nibbles(codes), before, after, FirstWord(f), 16, big);
  }

  /** Frame f, in the data's byte order, decodes to ds. */
  ghost predicate FrameDone(version: Version, quads: seq<Quad>, f: nat, ds: seq<int>, big: bool) {
    && 16 * (f + 1) <= |quads|
    && DecodeWords(version, Get(Frame(quads, f)[0], big), Frame(quads, f), FirstWord(f), 16, big) == ds
  }

  /** The greedy encoder meets, within n words, a difference it cannot store. */
  ghost predicate Stuck(version: Version, ds: seq<int>, n: nat) {
    exists j: nat :: j < n && StuckAt(version, ds, j)
  }

  ghost predicate StuckAt(version: Version, ds: seq<int>, j: nat) {
    Reach(version, ds, j) < |ds| && Choose(version, ds, Reach(version, ds, j)) == 0
  }

  /** Once everything is packed it stays packed. */
  lemma DoneStays(version: Version, ds: seq<int>, a: nat, b: nat)
    requires a <= b && Reach(version, ds, a) == |ds| && !Stuck(version, ds, a)
    ensures Reach(version, ds, b) == |ds| && !Stuck(version, ds, b)
  {
    hide Choose;
    ReachMonotone(version, ds, a, b);
    forall j: nat | j < b ensures !StuckAt(version, ds, j) {
      if a <= j { ReachMonotone(version, ds, a, j); }
    }
  }

  /** Word n decides whether the encoder gets past it. */
  lemma StuckStep(version: Version, ds: seq<int>, n: nat, later: nat)
    requires !Stuck(version, ds, n) && Reach(version, ds, n) < |ds| && n < later
    ensures var packed := Choose(version, ds, Reach(version, ds, n));
      && Reach(version, ds, n + 1) == Reach(version, ds, n) + packed
      && (packed == 0 ==> Stuck(version, ds, later))
      && (packed > 0 ==> !Stuck(version, ds, n + 1))
  {
    hide Choose;
    if Choose(version, ds, Reach(version, ds, n)) == 0 {
      assert StuckAt(version, ds, n);
    }
  }

  lemma StuckLater(version: Version, ds: seq<int>, a: nat, b: nat)
    requires a <= b && Stuck(version, ds, a)
    ensures Stuck(version, ds, b)
  {
  }

  lemma NothingReached(version: Version, ds: seq<int>)
    ensures Reach(version, ds, 0) == 0 && !Stuck(version, ds, 0)
  {
  }

  /** One turn of the word loop: refill the window, pack a word, store it and its code. */
  method EncodeWord(version: Version, input: seq<int>, ghost diff0: int, output: array<Quad>, f: nat, widx: nat, swapflag: bool, hostBig: bool,
                    diffs: array<int>, bitwidth: array<int>, done: nat, from: nat, count0: nat, inputidx0: nat,
                    ghost codes: seq<nat>, ghost held: seq<int>)
    returns (packed: nat, count: nat, inputidx: nat, ghost codes': seq<nat>)
    requires 16 * (f + 1) <= output.Length && diffs != bitwidth && diffs.Length == Window(version) && FirstWord(f) <= widx == |codes| < 16
    requires forall i :: 0 <= i < |input| ==> Int32(Diffs(input, diff0)[i])
    requires Waiting(Diffs(input, diff0), done, diffs, bitwidth, from, count0, inputidx0) && count0 < diffs.Length && done < |input|
    requires FrameHolds(version, Frame(output[..], f), codes, FirstWord(f), held, hostBig, hostBig != swapflag)
    requires Spelled(version, Diffs(input, diff0), f, Frame(output[..], f), codes, hostBig != swapflag)
    requires done == Reach(version, Diffs(input, diff0), Capacity(f) + widx - FirstWord(f))
    modifies output, diffs, bitwidth
    ensures packed > 0 ==> |codes'| == widx + 1 && Spelled(version, Diffs(input, diff0), f, Frame(output[..], f), codes', hostBig != swapflag)
    ensures packed == Choose(version, Diffs(input, diff0), done) && packed <= count <= diffs.Length && done + packed <= |input|
    ensures packed > 0 ==> Waiting(Diffs(input, diff0), done + packed, diffs, bitwidth, packed, count - packed, inputidx)
    ensures packed > 0 ==> |codes'| == widx + 1 && FrameHolds(version, Frame(output[..], f), codes', FirstWord(f),
                                                              held + Diffs(input, diff0)[done..done + packed], hostBig, hostBig != swapflag)
    ensures output[..16 * f] == old(output[..16 * f]) && output[16 * (f + 1)..] == old(output[16 * (f + 1)..])
    ensures widx != 1 ==> output[16 * f + 1] == old(output[16 * f + 1])
  {
    hide DecodeWord, Choose, Get, Put, Or, Nibbles, Diffs, FrameHolds, Waiting, Reach, Shl, Spells, Spelled;
    ghost var ds, big := Diffs(input, diff0), hostBig != swapflag;
    count, inputidx := FillWindow(input, diff0, diffs, bitwidth, done, from, count0, inputidx0);
    var code, q;
    packed, code, q := PackWord(version, ds, done, diffs, bitwidth, count, inputidx, swapflag, hostBig);
    WaitingTaken(ds, done, diffs, bitwidth, count, inputidx, packed);
    codes' := codes + [code];
    if packed > 0 {
      FrameRoom(version, Frame(output[..], f), codes, FirstWord(f), held, code, hostBig, big);
      ghost var before := Frame(output[..], f);
      StoreWord(output, f, widx, code, q, hostBig);
      assert Frame(output[..], f)[1] == output[16 * f + 1];
      FrameStep(version, before, Frame(output[..], f), codes, FirstWord(f), held, code, q, hostBig, big);
      SpelledStep(version, ds, f, before, Frame(output[..], f), codes, done, code, q, Frame(output[..], f)[0], big);
    }
  }

  lemma SliceJoin(ds: seq<int>, a: nat, b: nat, c: nat)
    requires a <= b <= c <= |ds|
    ensures ds[a..b] + ds[b..c] == ds[a..c] && ds[a..a] == []
  {
  }

  /** One frame: cleared, filled word by word until it is full or the input ends, and closed. */
  method EncodeFrame(version: Version, input: seq<int>, ghost diff0: int, output: array<Quad>, f: nat, swapflag: bool, hostBig: bool,
                     diffs: array<int>, bitwidth: array<int>, done0: nat, from0: nat, count0: nat, inputidx0: nat)
    returns (ok: bool, done: nat, from: nat, count: nat, inputidx: nat)
    requires 16 * (f + 1) <= output.Length && diffs != bitwidth && diffs.Length == Window(version)
    requires forall i :: 0 <= i < |input| ==> Int32(input[i])
    requires forall i :: 0 <= i < |input| ==> Int32(Diffs(input, diff0)[i])
    requires Waiting(Diffs(input, diff0), done0, diffs, bitwidth, from0, count0, inputidx0) && count0 < diffs.Length
    requires done0 == Reach(version, Diffs(input, diff0), Capacity(f)) && done0 < |input|
    requires !Stuck(version, Diffs(input, diff0), Capacity(f))
    modifies output, diffs, bitwidth
    ensures ok <==> !Stuck(version, Diffs(input, diff0), Capacity(f + 1))
    ensures output[..16 * f] == old(output[..16 * f]) && output[16 * (f + 1)..] == old(output[16 * (f + 1)..])
    ensures ok ==> Waiting(Diffs(input, diff0), done, diffs, bitwidth, from, count, inputidx) && count < diffs.Length
    ensures ok ==> done0 < done == Reach(version, Diffs(input, diff0), Capacity(f + 1))
    ensures ok ==> FrameDone(version, output[..], f, Diffs(input, diff0)[done0..done], hostBig != swapflag)
    ensures ok ==> FrameSpelled(version, Diffs(input, diff0), f, output[..], hostBig != swapflag)
    ensures ok && f == 0 ==> Signed(Get(output[1], hostBig != swapflag), 32) == input[0] && Get(output[1], hostBig != swapflag) == input[0] % 0x1_0000_0000
  {
    hide DecodeWord, Choose, Get, Put, Or, Nibbles, Diffs, FrameHolds, FrameDone, Waiting, Reach, Signed, Stuck, StuckAt, Spelled, FrameSpelled;
    ghost var ds, big := Diffs(input, diff0), hostBig != swapflag;
    BeginFrame(version, output, f, input[0], swapflag, hostBig);
    done, from, count, inputidx := done0, from0, count0, inputidx0;
    var widx := FirstWord(f);
    ghost var codes := NoCodes(widx);
    SliceJoin(ds, done, done, done);
    NoneSpelled(version, ds, f, Frame(output[..], f), big);
    while widx < 16 && done < |input|
      invariant FirstWord(f) <= widx <= 16 && |codes| == widx && done0 <= done <= |ds| == |input|
      invariant widx == FirstWord(f) || done0 < done
      invariant FrameHolds(version, Frame(output[..], f), codes, FirstWord(f), ds[done0..done], hostBig, big)
      invariant Spelled(version, ds, f, Frame(output[..], f), codes, big)
      invariant Waiting(ds, done, diffs, bitwidth, from, count, inputidx) && count < diffs.Length
      invariant done == Reach(version, ds, Capacity(f) + widx - FirstWord(f))
      invariant !Stuck(version, ds, Capacity(f) + widx - FirstWord(f))
      invariant output[..16 * f] == old(output[..16 * f]) && output[16 * (f + 1)..] == old(output[16 * (f + 1)..])
      invariant f == 0 ==> Signed(Get(output[1], big), 32) == input[0] && Get(output[1], big) == input[0] % 0x1_0000_0000
      decreases 16 - widx
    {
      ghost var held := ds[done0..done];
      StuckStep(version, ds, Capacity(f) + widx - FirstWord(f), Capacity(f + 1));
      var packed;
      packed, count, inputidx, codes := EncodeWord(version, input, diff0, output, f, widx, swapflag, hostBig, diffs, bitwidth,
                                                   done, from, count, inputidx, codes, held);
      if packed == 0 {
        ok := false;
        return;
      }
      SliceJoin(ds, done0, done, done + packed);
      from, count, done := packed, count - packed, done + packed;
      widx := widx + 1;
    }
    if done == |input| {
      DoneStays(version, ds, Capacity(f) + widx - FirstWord(f), Capacity(f + 1));
    }
    ghost var before := Frame(output[..], f);
    HeldCodes(version, before, codes, FirstWord(f), ds[done0..done], hostBig, big);
    EndFrame(version, output, f, codes, ds[done0..done], swapflag, hostBig);
    SpelledDone(version, ds, f, before, codes, output[..], big);
    ok := true;
  }

  lemma NoneSpelled(version: Version, ds: seq<int>, f: nat, frame: seq<Quad>, big: bool)
    requires |frame| == 16 && forall w :: FirstWord(f) <= w < 16 ==> frame[w] == Quad(0, 0, 0, 0)
    ensures Spelled(version, ds, f, frame, NoCodes(FirstWord(f)), big)
  {
  }

  lemma HeldCodes(version: Version, frame: seq<Quad>, codes: seq<nat>, start: nat, ds: seq<int>, hostBig: bool, big: bool)
    requires FrameHolds(version, frame, codes, start, ds, hostBig, big)
    ensures forall i :: 0 <= i < |codes| ==> codes[i] < 4
  {
  }

  lemma WaitingTaken(ds: seq<int>, done: nat, diffs: array<int>, bitwidth: array<int>, count: nat, inputidx: nat, packed: nat)
    requires Waiting(ds, done, diffs, bitwidth, 0, count, inputidx) && packed <= count
    ensures Waiting(ds, done + packed, diffs, bitwidth, packed, count - packed, inputidx)
  {
  }

  lemma FrameRoom(version: Version, frame: seq<Quad>, codes: seq<nat>, start: nat, ds: seq<int>, code: nat, hostBig: bool, big: bool)
    requires FrameHolds(version, frame, codes, start, ds, hostBig, big) && |codes| < 16 && code < 4
    ensures Or(Get(frame[0], hostBig), Shl(code, 30 - 2 * |codes|)) < 0x1_0000_0000
  {
    hide Or, Nibbles, Get;
    NibblesStep(codes, code);
    NibblesBound(codes + [code]);
  }

  // ---------- the whole encoder ----------

  lemma FrameAgrees(quads: seq<Quad>, quads': seq<Quad>, f: nat)
    requires 16 * (f + 1) <= |quads| && 16 * (f + 1) <= |quads'|
    requires forall i :: 16 * f <= i < 16 * (f + 1) && i != 1 && i != 2 ==> quads[i] == quads'[i]
    ensures Frame(quads, f)[0] == Frame(quads', f)[0]
    ensures forall w :: FirstWord(f) <= w < 16 ==> Frame(quads, f)[w] == Frame(quads', f)[w]
  {
    forall w | 0 <= w < 16 ensures Frame(quads, f)[w] == quads[16 * f + w] && Frame(quads', f)[w] == quads'[16 * f + w] {
    }
  }

  /** Frames that agree but for the first frame's two integration constants decode alike. */
  lemma {:induction false} DecodeFramesSame(version: Version, quads: seq<Quad>, quads': seq<Quad>, n: nat, big: bool)
    requires 16 * n <= |quads| && 16 * n <= |quads'|
    requires forall i :: 0 <= i < 16 * n && i != 1 && i != 2 ==> quads[i] == quads'[i]
    ensures DecodeFrames(version, quads, n, big) == DecodeFrames(version, quads', n, big)
  {
    hide Get, Frame, DecodeWord, DecodeWords, Code;
    if n > 0 {
      DecodeFramesSame(version, quads, quads', n - 1, big);
      FrameAgrees(quads, quads', n - 1);
      var frame, frame' := Frame(quads, n - 1), Frame(quads', n - 1);
      DecodeWordsFrame(version, Get(frame[0], big), Get(frame[0], big), frame, frame', FirstWord(n - 1), 16, big);
    }
  }

  /** Running sums of the differences are the samples; the very first difference does not matter. */
  lemma {:induction false} IntegrateDiffs(input: seq<int>, diff0: int, n: nat)
    requires 0 < n <= |input|
    ensures Integrate(input[0], Diffs(input, diff0)[..n]) == input[..n]
  {
    var ds := Diffs(input, diff0)[..n];
    if n > 1 {
      assert ds[..n - 1] == Diffs(input, diff0)[..n - 1];
      IntegrateDiffs(input, diff0, n - 1);
      assert input[..n] == input[..n - 1] + [input[n - 1]];
    }
  }

  /** What a run of the encoder over maxframes frames leaves behind. */
  ghost predicate Encoded(version: Version, input: seq<int>, diff0: int, quads: seq<Quad>, maxframes: nat, frames: nat, n: nat, big: bool) {
    && frames <= maxframes && 16 * frames <= |quads| && n <= |input|
    && n == Reach(version, Diffs(input, diff0), Capacity(maxframes))
    && DecodeFrames(version, quads, frames, big) == Diffs(input, diff0)[..n]
    && (forall m: nat :: m < frames ==> Reach(version, Diffs(input, diff0), Capacity(m)) < n)
    && (n > 0 ==> frames > 0 && Decode(version, quads, frames, big) == (input[..n], input[n - 1]))
    && (n > 0 ==> Get(quads[1], big) == input[0] % 0x1_0000_0000 && Get(quads[2], big) == input[n - 1] % 0x1_0000_0000)
    && AllSpelled(version, Diffs(input, diff0), frames, quads, big)
  }

  lemma FramesStep(version: Version, before: seq<Quad>, after: seq<Quad>, f: nat, ds: seq<int>, done: nat, n: nat, big: bool)
    requires 16 * (f + 1) <= |before| == |after| && before[..16 * f] == after[..16 * f] && done <= n <= |ds|
    requires DecodeFrames(version, before, f, big) == ds[..done]
    requires FrameDone(version, after, f, ds[done..n], big)
    ensures DecodeFrames(version, after, f + 1, big) == ds[..n]
    ensures f > 0 ==> after[1] == before[1]
  {
    hide DecodeWords, Get;
    assert forall i :: 0 <= i < 16 * f ==> before[i] == before[..16 * f][i] && after[i] == after[..16 * f][i];
    DecodeFramesSame(version, before, after, f, big);
    assert ds[..done] + ds[done..n] == ds[..n];
  }

  lemma FramesSpelledSame(version: Version, ds: seq<int>, frames: nat, quads: seq<Quad>, quads': seq<Quad>, big: bool)
    requires 16 * frames <= |quads| && 16 * frames <= |quads'| && AllSpelled(version, ds, frames, quads, big)
    requires forall i :: 0 <= i < 16 * frames && i != 1 && i != 2 ==> quads[i] == quads'[i]
    ensures AllSpelled(version, ds, frames, quads', big)
  {
    hide FrameSpelled;
    forall f: nat | f < frames ensures FrameSpelled(version, ds, f, quads', big) {
      FrameSpelledSame(version, ds, f, quads, quads', big);
    }
  }

  lemma FramesSpelledNone(version: Version, ds: seq<int>, quads: seq<Quad>, big: bool)
    ensures AllSpelled(version, ds, 0, quads, big)
  {
  }

  lemma SpelledOn(version: Version, ds: seq<int>, frames: nat, quads: seq<Quad>, quads': seq<Quad>, big: bool)
    requires 16 * frames <= |quads| == |quads'| && AllSpelled(version, ds, frames, quads, big)
    requires quads[..16 * frames] == quads'[..16 * frames] && FrameSpelled(version, ds, frames, quads', big)
    ensures AllSpelled(version, ds, frames + 1, quads', big)
  {
    hide FrameSpelled;
    assert forall i :: 0 <= i < 16 * frames ==> quads[i] == quads[..16 * frames][i] && quads'[i] == quads'[..16 * frames][i];
    FramesSpelledSame(version, ds, frames, quads, quads', big);
  }

  /** At the start the first difference alone waits. */
  lemma WaitingFirst(input: seq<int>, diff0: int, diffs: array<int>, bitwidth: array<int>)
    requires |input| > 0 && diffs.Length == bitwidth.Length > 1 && diffs[0] == diff0 && bitwidth[0] == Bitwidth(diff0)
    ensures Waiting(Diffs(input, diff0), 0, diffs, bitwidth, 0, 1, 0)
  {
  }

  /** The frame loop. */
  method EncodeFrames(version: Version, input: seq<int>, diff0: int, output: array<Quad>, maxframes: nat, swapflag: bool, hostBig: bool)
    returns (ok: bool, n: nat, frames: nat)
    requires 16 * maxframes <= output.Length && |input| > 0
    requires forall i :: 0 <= i < |input| ==> Int32(input[i])
    requires forall i :: 0 <= i < |input| ==> Int32(Diffs(input, diff0)[i])
    modifies output
    ensures ok <==> !Stuck(version, Diffs(input, diff0), Capacity(maxframes))
    ensures frames <= maxframes && output[16 * maxframes..] == old(output[16 * maxframes..]) && n <= |input|
    ensures ok ==> (frames > 0 <==> n > 0)
    ensures ok ==> n == Reach(version, Diffs(input, diff0), Capacity(maxframes)) == Reach(version, Diffs(input, diff0), Capacity(frames))
    ensures ok ==> DecodeFrames(version, output[..], frames, hostBig != swapflag) == Diffs(input, diff0)[..n]
    ensures ok ==> forall m: nat :: m < frames ==> Reach(version, Diffs(input, diff0), Capacity(m)) < n
    ensures ok && frames > 0 ==> Signed(Get(output[1], hostBig != swapflag), 32) == input[0] && Get(output[1], hostBig != swapflag) == input[0] % 0x1_0000_0000
    ensures ok ==> AllSpelled(version, Diffs(input, diff0), frames, output[..], hostBig != swapflag)
    ensures ok ==> output[16 * frames..] == old(output[16 * frames..])
  {
    hide DecodeWord, DecodeWords, Choose, Get, Put, Diffs, Waiting, Reach, Signed, Stuck, FrameSpelled, AllSpelled;
    ghost var ds, big := Diffs(input, diff0), hostBig != swapflag;
    var diffs, bitwidth := new int[Window(version)], new int[Window(version)];
    diffs[0], bitwidth[0] := diff0, Bitwidth(diff0);
    var from: nat, count: nat, inputidx: nat := 0, 1, 0;
    WaitingFirst(input, diff0, diffs, bitwidth);
    FramesSpelledNone(version, ds, output[..], big);
    n, frames := 0, 0;
    NothingReached(version, ds);
    while frames < maxframes && n < |input|
      invariant frames <= maxframes && n == Reach(version, ds, Capacity(frames)) && n <= |ds| == |input|
      invariant Waiting(ds, n, diffs, bitwidth, from, count, inputidx) && count < diffs.Length
      invariant DecodeFrames(version, output[..], frames, big) == ds[..n]
      invariant forall m: nat :: m < frames ==> Reach(version, ds, Capacity(m)) < n
      invariant !Stuck(version, ds, Capacity(frames))
      invariant frames > 0 ==> Signed(Get(output[1], big), 32) == input[0] && Get(output[1], big) == input[0] % 0x1_0000_0000
      invariant AllSpelled(version, ds, frames, output[..], big)
      invariant frames > 0 <==> n > 0
      invariant output[16 * frames..] == old(output[16 * frames..])
      decreases maxframes - frames
    {
      ghost var before, done := output[..], n;
      ok, n, from, count, inputidx := EncodeFrame(version, input, diff0, output, frames, swapflag, hostBig, diffs, bitwidth, n, from, count, inputidx);
      if !ok {
        StuckLater(version, ds, Capacity(frames + 1), Capacity(maxframes));
        n := 0;
        return;
      }
      FramesStep(version, before, output[..], frames, ds, done, n, big);
      SpelledOn(version, ds, frames, before, output[..], big);
      frames := frames + 1;
    }
    if n == |input| {
      DoneStays(version, ds, Capacity(frames), Capacity(maxframes));
    }
    ok := true;
  }

  /** The integration constants and the differences together are the samples. */
  lemma EncodedDecodes(version: Version, input: seq<int>, diff0: int, before: seq<Quad>, after: seq<Quad>,
                       maxframes: nat, frames: nat, n: nat, big: bool)
    requires frames <= maxframes && 16 * frames <= |before| == |after| && n <= |input|
    requires n == Reach(version, Diffs(input, diff0), Capacity(maxframes))
    requires forall m: nat :: m < frames ==> Reach(version, Diffs(input, diff0), Capacity(m)) < n
    requires DecodeFrames(version, before, frames, big) == Diffs(input, diff0)[..n]
    requires frames > 0 <==> n > 0
    requires n > 0 ==> after[1] == before[1] && Signed(Get(before[1], big), 32) == input[0] && Signed(Get(after[2], big), 32) == input[n - 1]
    requires n > 0 ==> Get(before[1], big) == input[0] % 0x1_0000_0000 && Get(after[2], big) == input[n - 1] % 0x1_0000_0000
    requires AllSpelled(version, Diffs(input, diff0), frames, before, big)
    requires forall i :: 0 <= i < |before| && i != 2 ==> after[i] == before[i]
    ensures Encoded(version, input, diff0, after, maxframes, frames, n, big)
  {
    hide Reach, Get, Signed, DecodeWords, Integrate, Diffs, FrameSpelled;
    DecodeFramesSame(version, before, after, frames, big);
    FramesSpelledSame(version, Diffs(input, diff0), frames, before, after, big);
    if n > 0 { IntegrateDiffs(input, diff0, n); }
  }

  /** msr_encode_steim1 and msr_encode_steim2: n samples of the input go into `frames` frames. */
  method Encode(version: Version, input: seq<int>, output: array?<Quad>, outputlength: nat, diff0: int, swapflag: bool, hostBig: bool)
    returns (n: int, byteswritten: int, frames: nat)
    requires output != null ==> outputlength <= 4 * output.Length
    requires forall i :: 0 <= i < |input| ==> Int32(input[i])
    requires forall i :: 0 <= i < |input| ==> Int32(Diffs(input, diff0)[i])
    modifies if output == null then {} else {output}
    ensures input == [] ==> n == 0 && frames == 0
    ensures input != [] && (output == null || outputlength == 0) ==> n == -1
    ensures var maxframes, ds := outputlength / 64, Diffs(input, diff0);
      input != [] && output != null && outputlength > 0 ==>
        && (n == -1 <==> Stuck(version, ds, Capacity(maxframes)))
        && (n != -1 ==> n >= 0 && Encoded(version, input, diff0, output[..], maxframes, frames, n, hostBig != swapflag))
        && (n != -1 ==> byteswritten == 64 * frames % 0x1_0000_0000)
    ensures output != null && n >= 0 ==> 16 * frames <= output.Length && output[16 * frames..] == old(output[16 * frames..])
    ensures output != null && outputlength / 64 * 16 <= output.Length ==> output[outputlength / 64 * 16..] == old(output[outputlength / 64 * 16..])
  {
    hide Get, Diffs, Reach, Signed, Stuck, Encoded, DecodeFrames, Swap4, Put, FrameSpelled;
    n, byteswritten, frames := 0, 0, 0;
    if |input| == 0 {
      return;
    }
    if output == null || outputlength == 0 {
      n := -1;
      return;
    }
    var maxframes := outputlength / 64;
    var ok, done;
    ok, done, frames := EncodeFrames(version, input, diff0, output, maxframes, swapflag, hostBig);
    if !ok {
      n := -1;
      return;
    }
    NothingReached(version, Diffs(input, diff0));
    ghost var before := output[..];
    if frames > 0 {
      StoreSample(output, 2, input[done - 1], swapflag, hostBig);
    }
    EncodedDecodes(version, input, diff0, before, output[..], maxframes, frames, done, hostBig != swapflag);
    n, byteswritten := done, 64 * frames % 0x1_0000_0000;
  }

  // ---------- one block, byte for byte ----------

  /** The first codes of a number give its high bits. */
  lemma {:induction false} CodesFix(v: nat, codes: seq<nat>)
    requires v < 0x1_0000_0000 && |codes| <= 16 && forall w :: 0 <= w < |codes| ==> Code(v, w) == codes[w]
    ensures Shr(v, 32 - 2 * |codes|) == CodeNumber(codes)
  {
    hide Pow2;
    var n := |codes|;
    Pow2Values();
    if n == 0 {
      ModSmall(v, Pow2(32));
    } else {
      CodesFix(v, codes[..n - 1]);
      CodeBelow(v, n - 1);
    }
  }

  lemma CodeBelow(v: nat, w: nat)
    requires w < 16
    ensures Shr(v, 30 - 2 * w) == 4 * Shr(v, 32 - 2 * w) + Code(v, w)
  {
    hide Pow2;
    Pow2Values();
    Pow2Add(30 - 2 * w, 2);
    var b := Pow2(30 - 2 * w);
    DivUnique(v, b * 4, v / b / 4, v / b % 4 * b + v % b);
  }

  /** With no codes from word m on, all the low bits are zero. */
  lemma {:induction false} CodesEnd(v: nat, m: nat)
    requires m <= 16 && forall w :: m <= w < 16 ==> Code(v, w) == 0
    ensures v == Shl(Shr(v, 32 - 2 * m), 32 - 2 * m)
    decreases 16 - m
  {
    hide Pow2, Code;
    if m == 16 {
      ShrZero(v);
      Pow2Places();
    } else {
      CodesEnd(v, m + 1);
      CodeBelow(v, m);
      Pow2Values();
      Pow2Add(2, 30 - 2 * m);
      MulAssoc(Shr(v, 32 - 2 * m), 4, Pow2(30 - 2 * m));
    }
  }

  lemma LiteralReach(ds: seq<int>, j: nat)
    requires ds == [0, 20000]
    ensures Choose(Steim2, ds, 0) == 1 && Choose(Steim2, ds, 1) == 1
    ensures Reach(Steim2, ds, j) == if j < 2 then j else 2
  {
    hide Pow2;
    HalfRanges();
    assert Fits(ds[0], 30) && Fits(ds[1], 30) && !Fits(ds[1], 15);
    if j > 2 { LiteralReach(ds, j - 1); }
  }

  /** Samples 0 and 20000 in Steim-2, big-endian: 20000 needs 16 bits, so each difference has a word of its own. */
  lemma EncodedLiteral(quads: seq<Quad>, frames: nat, n: nat)
    requires Encoded(Steim2, [0, 20000], 0, quads, 1, frames, n, true)
    ensures n == 2 && frames == 1 && |quads| >= 16
    ensures quads[..5] == [Quad(0x02, 0x80, 0, 0), Quad(0, 0, 0, 0), Quad(0, 0, 0x4E, 0x20), Quad(0x40, 0, 0, 0), Quad(0x40, 0, 0x4E, 0x20)]
    ensures forall i :: 5 <= i < 16 ==> quads[i] == Quad(0, 0, 0, 0)
  {
    hide Reach, Choose, Code, DecodeFrames, Decode, FrameSpelled;
    var ds := Diffs([0, 20000], 0);
    assert ds == [0, 20000];
    LiteralReach(ds, 13);
    LiteralReach(ds, 0);
    assert FrameSpelled(Steim2, ds, 0, quads, true);
    LiteralWords(ds, quads);
    var v, codes := Get(quads[0], true), [0, 0, 0, 2, 2];
    CodesFix(v, codes);
    CodesEnd(v, 5);
    LiteralCodes(codes);
    Pow2Places();
    assert v == 10 * 0x40_0000;
  }

  lemma LiteralCodes(codes: seq<nat>)
    requires codes == [0, 0, 0, 2, 2]
    ensures CodeNumber(codes) == 10
  {
    assert codes[..4] == [0, 0, 0, 2] && codes[..4][..3] == [0, 0, 0];
    assert CodeNumber([0, 0, 0]) == 0 by { NoCodesNumber(3); assert NoCodes(3) == [0, 0, 0]; }
  }

  lemma LiteralWords(ds: seq<int>, quads: seq<Quad>)
    requires ds == [0, 20000] && FrameSpelled(Steim2, ds, 0, quads, true)
    ensures |quads| >= 16 && quads[3] == Quad(0x40, 0, 0, 0) && quads[4] == Quad(0x40, 0, 0x4E, 0x20)
    ensures forall i :: 5 <= i < 16 ==> quads[i] == Quad(0, 0, 0, 0)
    ensures forall w :: 0 <= w < 16 ==> Code(Get(quads[0], true), w) == if w == 3 || w == 4 then 2 else 0
  {
    hide Reach, Choose, Code;
    LiteralReach(ds, 0);
    LiteralReach(ds, 1);
    assert WordDone(Steim2, ds, 0, 3, quads, true) && WordDone(Steim2, ds, 0, 4, quads, true);
    forall w | 5 <= w < 16 ensures quads[w] == Quad(0, 0, 0, 0) && Code(Get(quads[0], true), w) == 0 {
      LiteralReach(ds, w - 3);
      assert WordDone(Steim2, ds, 0, w, quads, true);
    }
    assert ds[0..1] == [0] && ds[1..2] == [20000];
  }

  // ---------- how much fits ----------

  /** A Steim-1 encoder always goes on: while samples remain, every data word takes at least one. */
  lemma {:induction false} SteimOneProgress(ds: seq<int>, n: nat)
    requires forall i :: 0 <= i < |ds| ==> Int32(ds[i])
    ensures !Stuck(Steim1, ds, n)
    ensures Reach(Steim1, ds, n) == |ds| || Reach(Steim1, ds, n) >= n
  {
    if n > 0 {
      SteimOneProgress(ds, n - 1);
      var r := Reach(Steim1, ds, n - 1);
      if r < |ds| {
        HalfRanges();
        assert Run(Steim1, ds, r, 1);
      }
    }
  }

  /** A Steim-2 encoder fails on n words exactly when a difference of more than 30 bits stands where they end,
      that is, when it comes to one with words left. */
  lemma {:induction false} SteimTwoStuck(ds: seq<int>, n: nat)
    requires n > 0
    ensures Stuck(Steim2, ds, n) <==> Reach(Steim2, ds, n - 1) < |ds| && !Fits(ds[Reach(Steim2, ds, n - 1)], 30)
  {
    hide Choose, Fits;
    var r := Reach(Steim2, ds, n - 1);
    if r < |ds| { SteimTwoStuckAt(ds, r); }
    if n > 1 && Stuck(Steim2, ds, n - 1) {
      SteimTwoStuck(ds, n - 1);
      SteimTwoStuckAt(ds, Reach(Steim2, ds, n - 2));
    }
    assert StuckAt(Steim2, ds, n - 1) <==> r < |ds| && !Fits(ds[r], 30);
  }

  lemma SteimTwoStuckAt(ds: seq<int>, i: nat)
    requires i < |ds|
    ensures Choose(Steim2, ds, i) == 0 <==> !Fits(ds[i], 30)
  {
    hide Pow2;
    if Fits(ds[i], 30) {
      assert Run(Steim2, ds, i, 1);
    } else {
      forall k | Holds(Steim2, k) && Run(Steim2, ds, i, k) ensures false {
        Pow2Monotone(FieldBits(Steim2, k) - 1, 29);
      }
    }
  }

  /** At most 60 (Steim-1) or 105 (Steim-2) samples per frame, and 52 or 91 in the first. */
  lemma FrameLimit(version: Version, ds: seq<int>, f: nat)
    ensures Reach(version, ds, Capacity(f + 1)) - Reach(version, ds, Capacity(f)) <= (if version == Steim1 then 60 else 105)
    ensures f == 0 ==> Reach(version, ds, Capacity(1)) <= (if version == Steim1 then 52 else 91)
  {
    hide Reach;
    WordsLimit(version, ds, Capacity(f), 16 - FirstWord(f));
    NothingReached(version, ds);
  }

  lemma {:induction false} WordsLimit(version: Version, ds: seq<int>, n: nat, more: nat)
    ensures Reach(version, ds, n + more) - Reach(version, ds, n) <= more * Window(version)
  {
    hide Choose;
    if more > 0 {
      WordsLimit(version, ds, n, more - 1);
      ChooseLimit(version, ds, Reach(version, ds, n + more - 1));
      Distribute(more - 1, 1, Window(version));
    }
  }

  lemma ChooseLimit(version: Version, ds: seq<int>, i: int)
    ensures Choose(version, ds, i) <= Window(version)
  {
    hide Run;
  }

  /** No other Steim-2 block of the same differences uses fewer frames, or gets more of them into the frames at hand. */
  lemma SteimTwoOptimal(input: seq<int>, diff0: int, quads: seq<Quad>, maxframes: nat, frames: nat, n: nat, big: bool,
                        other: seq<Quad>, m: nat, otherBig: bool)
    requires Encoded(Steim2, input, diff0, quads, maxframes, frames, n, big)
    requires 16 * m <= |other| && DecodeFrames(Steim2, other, m, otherBig) <= Diffs(input, diff0)
    ensures m <= maxframes ==> |DecodeFrames(Steim2, other, m, otherBig)| <= n
    ensures |DecodeFrames(Steim2, other, m, otherBig)| >= n ==> m >= frames
  {
    hide Reach;
    GreedyOptimal(Diffs(input, diff0), other, m, otherBig);
    if m <= maxframes { ReachMonotone(Steim2, Diffs(input, diff0), Capacity(m), Capacity(maxframes)); }
  }
}
