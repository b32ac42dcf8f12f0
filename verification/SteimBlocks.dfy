/** Encoded blocks against all other blocks: when nothing shorter decodes to the same samples. */
module SteimBlocks {
  import opened Bits
  import opened SteimFormat
  import opened SteimGreedy
  import opened SteimWords
  import opened SteimOne
  import opened Steim

  // ---------- every Steim-1 packing is a block ----------

  /** A word that decodes to the next k differences. */
  lemma WordFor(ds: seq<int>, c: nat, k: nat, big: bool) returns (code: nat, q: Quad)
    requires c + k <= |ds| && (k == 0 || Run(Steim1, ds, c, k))
    ensures code < 4 && DecodeWord(Steim1, code, q, big) == ds[c..c + k]
  {
    hide Get, Put, Low, Pow2;
    if k == 0 {
      code, q := 0, Quad(0, 0, 0, 0);
      return;
    }
    var w := ds[c..c + k];
    RunMoves(ds, c, k);
    if k == 4 {
      code, q := 1, Quad(w[0] % 256, w[1] % 256, w[2] % 256, w[3] % 256);
      BytesWord(Steim1, w, q, big);
    } else if k == 2 {
      LowBound(w[0], 16);
      LowBound(w[1], 16);
      var a, b := PutHalf(Low(w[0], 16), big), PutHalf(Low(w[1], 16), big);
      code, q := 2, Quad(a.0, a.1, b.0, b.1);
      HalvesWord(w, q, big, false);
    } else {
      WholeWord(w[0], big, false);
      code, q := 3, Put(Low(w[0], 32), big);
    }
  }

  lemma RunMoves(ds: seq<int>, c: nat, k: nat)
    requires Run(Steim1, ds, c, k)
    ensures Run(Steim1, ds[c..c + k], 0, k)
  {
    var w := ds[c..c + k];
    assert forall j :: 0 <= j < k ==> w[j] == ds[c + j];
  }

  lemma {:induction false} TotalWithin(version: Version, ds: seq<int>, ks: seq<nat>, n: nat)
    requires Packs(version, ds, ks) && n <= |ks|
    ensures Packs(version, ds, ks[..n]) && Total(ks[..n]) <= Total(ks) <= |ds|
    decreases |ks|
  {
    if n < |ks| {
      TotalWithin(version, ds, ks[..|ks| - 1], n);
      assert ks[..|ks| - 1][..n] == ks[..n];
    } else {
      assert ks[..n] == ks;
      if ks != [] { TotalWithin(version, ds, ks[..|ks| - 1], 0); }
    }
  }

  lemma PrefixStep(version: Version, ds: seq<int>, ks: seq<nat>, n: nat)
    requires Packs(version, ds, ks) && n < |ks|
    ensures Total(ks[..n + 1]) == Total(ks[..n]) + ks[n] <= |ds|
    ensures ks[n] == 0 || Run(version, ds, Total(ks[..n]), ks[n])
  {
    TotalWithin(version, ds, ks, n + 1);
    assert ks[..n + 1][..n] == ks[..n];
  }

  /** Words base..upto-1 of a packing as words start.. of a frame, whatever stands in the frame's constants. */
  lemma {:induction false} FrameFor(ds: seq<int>, ks: seq<nat>, base: nat, upto: nat, start: nat, begun: seq<Quad>, big: bool)
    returns (frame: seq<Quad>, codes: seq<nat>)
    requires Packs(Steim1, ds, ks) && base <= upto <= |ks| && 1 <= start && start + upto - base <= 16
    requires |begun| == 16 && Get(begun[0], big) == 0
    ensures Total(ks[..base]) <= Total(ks[..upto]) <= |ds| && |codes| == start + upto - base
    ensures FrameHolds(Steim1, frame, codes, start, ds[Total(ks[..base])..Total(ks[..upto])], big, big)
    ensures forall w :: 1 <= w < start ==> frame[w] == begun[w]
    decreases upto - base
  {
    hide Get, Put, Or, Nibbles, DecodeWord, DecodeWords, Packs, Total, FrameHolds, Shl;
    TotalWithin(Steim1, ds, ks, base);
    if upto == base {
      frame, codes := begun, NoCodes(start);
      FrameBegins(begun, start, big);
      SliceJoin(ds, Total(ks[..base]), Total(ks[..base]), Total(ks[..base]));
    } else {
      frame, codes := FrameFor(ds, ks, base, upto - 1, start, begun, big);
      PrefixStep(Steim1, ds, ks, upto - 1);
      var from, done, k := Total(ks[..base]), Total(ks[..upto - 1]), ks[upto - 1];
      var code, q := WordFor(ds, done, k, big);
      FrameRoom(Steim1, frame, codes, start, ds[from..done], code, big, big);
      FrameLength(frame, codes, start, ds[from..done], big);
      var frame' := frame[|codes| := q][0 := Put(Or(Get(frame[0], big), Shl(code, 30 - 2 * |codes|)), big)];
      FrameStep(Steim1, frame, frame', codes, start, ds[from..done], code, q, big, big);
      SliceJoin(ds, from, done, done + k);
      frame, codes := frame', codes + [code];
    }
  }

  lemma FrameLength(frame: seq<Quad>, codes: seq<nat>, start: nat, ds: seq<int>, big: bool)
    requires FrameHolds(Steim1, frame, codes, start, ds, big, big)
    ensures |frame| == 16
  {
  }

  lemma FrameBegins(begun: seq<Quad>, start: nat, big: bool)
    requires |begun| == 16 && start <= 16 && Get(begun[0], big) == 0
    ensures FrameHolds(Steim1, begun, NoCodes(start), start, [], big, big)
  {
    hide Get, Pow2;
    NoCodesNumber(start);
  }

  lemma FrameCloses(frame: seq<Quad>, codes: seq<nat>, start: nat, ds: seq<int>, big: bool)
    requires FrameHolds(Steim1, frame, codes, start, ds, big, big) && |codes| == 16
    ensures |frame| == 16 && DecodeWords(Steim1, Get(frame[0], big), frame, start, 16, big) == ds
  {
  }

  /** The two integration constants of a block. */
  function Begun(first: int, last: int, big: bool): (frame: seq<Quad>)
    requires Int32(first) && Int32(last)
    ensures |frame| == 16
  {
    LowBound(first, 32);
    LowBound(last, 32);
    Pow2Values();
    [Quad(0, 0, 0, 0), Put(Low(first, 32), big), Put(Low(last, 32), big)] + seq(13, _ => Quad(0, 0, 0, 0))
  }

  lemma BegunReads(first: int, last: int, big: bool)
    requires Int32(first) && Int32(last)
    ensures Get(Begun(first, last, big)[0], big) == 0
    ensures Signed(Get(Begun(first, last, big)[1], big), 32) == first && Signed(Get(Begun(first, last, big)[2], big), 32) == last
  {
    HalfRanges();
    WholeWord(first, big, false);
    WholeWord(last, big, false);
  }

  /** Every way to pack differences into the words of n frames is a block of n frames that decodes to them. */
  lemma {:induction false} Realize(ds: seq<int>, ks: seq<nat>, n: nat, first: int, last: int, big: bool) returns (quads: seq<Quad>)
    requires n > 0 && Packs(Steim1, ds, ks) && Capacity(n) <= |ks| && Int32(first) && Int32(last)
    ensures |quads| == 16 * n && Total(ks[..Capacity(n)]) <= |ds|
    ensures DecodeFrames(Steim1, quads, n, big) == ds[..Total(ks[..Capacity(n)])]
    ensures Signed(Get(quads[1], big), 32) == first && Signed(Get(quads[2], big), 32) == last
  {
    hide Get, Put, DecodeWord, DecodeWords, Packs, Total, FrameHolds, Signed, Low, Begun;
    TotalWithin(Steim1, ds, ks, Capacity(n));
    BegunReads(first, last, big);
    var frame, codes := FrameFor(ds, ks, Capacity(n - 1), Capacity(n), FirstWord(n - 1), Begun(first, last, big), big);
    FrameCloses(frame, codes, FirstWord(n - 1), ds[Total(ks[..Capacity(n - 1)])..Total(ks[..Capacity(n)])], big);
    if n == 1 {
      quads := frame;
      NothingTotal(ks);
      assert Frame(quads, 0) == frame;
    } else {
      var before := Realize(ds, ks, n - 1, first, last, big);
      quads := before + frame;
      assert Frame(quads, n - 1) == frame;
      DecodeFramesSame(Steim1, before, quads, n - 1, big);
      SliceJoin(ds, 0, Total(ks[..Capacity(n - 1)]), Total(ks[..Capacity(n)]));
    }
  }

  lemma NothingTotal(ks: seq<nat>)
    ensures Total(ks[..0]) == 0
  {
  }

  // ---------- exactly, for a given number of frames ----------

  /** How many differences some w words can hold, step by step. */
  ghost function Totals(ds: seq<int>, w: nat): set<nat> {
    if w == 0 then {0}
    else Totals(ds, w - 1) + set t: nat, k: nat | t in Totals(ds, w - 1) && k in {1, 2, 4} && Run(Steim1, ds, t, k) :: t + k
  }

  lemma {:induction false} PackingTotal(ds: seq<int>, ks: seq<nat>)
    requires Packs(Steim1, ds, ks)
    ensures Total(ks) in Totals(ds, |ks|)
  {
    hide Run;
    if ks != [] {
      PackingTotal(ds, ks[..|ks| - 1]);
      if ks[|ks| - 1] != 0 { KindsOfRun(ds, Total(ks[..|ks| - 1]), ks[|ks| - 1]); }
    }
  }

  lemma {:induction false} TotalPacking(ds: seq<int>, w: nat, t: nat) returns (ks: seq<nat>)
    requires t in Totals(ds, w)
    ensures |ks| == w && Packs(Steim1, ds, ks) && Total(ks) == t
  {
    hide Run;
    if w == 0 {
      ks := [];
    } else if t in Totals(ds, w - 1) {
      ks := TotalPacking(ds, w - 1, t);
      OneWordMore(Steim1, ds, ks, 0);
      ks := ks + [0];
    } else {
      var t': nat, k: nat :| t' in Totals(ds, w - 1) && k in {1, 2, 4} && Run(Steim1, ds, t', k) && t == t' + k;
      ks := TotalPacking(ds, w - 1, t');
      OneWordMore(Steim1, ds, ks, k);
      ks := ks + [k];
    }
  }

  /** The block's n frames hold the first t of the differences. */
  ghost predicate HoldsFirst(ds: seq<int>, quads: seq<Quad>, n: nat, big: bool, t: nat) {
    16 * n <= |quads| && DecodeFrames(Steim1, quads, n, big) <= ds && |DecodeFrames(Steim1, quads, n, big)| == t
  }

  /** No n Steim-1 frames hold more of the differences than the greedy encoder's, exactly when no step-by-step total is larger. */
  lemma FramesExactly(ds: seq<int>, n: nat, big: bool)
    requires n > 0
    ensures (forall quads, t: nat | HoldsFirst(ds, quads, n, big, t) :: t <= Reach(Steim1, ds, Capacity(n)))
            <==> (forall t | t in Totals(ds, Capacity(n)) :: t <= Reach(Steim1, ds, Capacity(n)))
  {
    hide Totals, Packs, Total, Reach, DecodeFrames;
    forall quads, t: nat | HoldsFirst(ds, quads, n, big, t) ensures t in Totals(ds, Capacity(n)) {
      var ks := FramesPack(Steim1, ds, quads, n, big);
      PackingTotal(ds, ks);
    }
    forall t | t in Totals(ds, Capacity(n)) ensures exists quads :: HoldsFirst(ds, quads, n, big, t) {
      var ks := TotalPacking(ds, Capacity(n), t);
      var quads := Realize(ds, ks, n, 0, 0, big);
      assert ks[..Capacity(n)] == ks;
      assert HoldsFirst(ds, quads, n, big, t);
    }
  }

  // ---------- other blocks of the same samples ----------

  /** A decoder takes the differences after the first from the samples; the first it never uses. */
  lemma {:induction false} IntegrateBack(first: int, ds: seq<int>, input: seq<int>)
    requires Integrate(first, ds) <= input
    ensures |Integrate(first, ds)| == |ds| <= |input|
    ensures forall i :: 0 < i < |ds| ==> ds[i] == input[i] - input[i - 1]
  {
    if |ds| > 1 {
      var before := Integrate(first, ds[..|ds| - 1]);
      assert before <= input;
      IntegrateBack(first, ds[..|ds| - 1], input);
      assert Integrate(first, ds)[|ds| - 1] == before[|ds| - 2] + ds[|ds| - 1];
    }
  }

  /** A narrower first difference leaves every packing possible. */
  lemma {:induction false} PacksNarrower(version: Version, ds: seq<int>, ds': seq<int>, ks: seq<nat>)
    requires Packs(version, ds, ks) && |ds| <= |ds'| && 0 < |ds'| && (forall i :: 0 < i < |ds| ==> ds[i] == ds'[i])
    requires Fits(ds'[0], if version == Steim1 then 8 else 4)
    ensures Packs(version, ds', ks)
  {
    hide Run, Fits;
    if ks != [] {
      PacksNarrower(version, ds, ds', ks[..|ks| - 1]);
      if ks[|ks| - 1] != 0 { RunNarrower(version, ds, ds', Total(ks[..|ks| - 1]), ks[|ks| - 1]); }
    }
  }

  lemma RunNarrower(version: Version, ds: seq<int>, ds': seq<int>, i: int, k: int)
    requires Run(version, ds, i, k) && |ds| <= |ds'| && (forall j :: 0 < j < |ds| ==> ds[j] == ds'[j])
    requires Fits(ds'[0], if version == Steim1 then 8 else 4)
    ensures Run(version, ds', i, k)
  {
    hide Pow2;
    Pow2Monotone(if version == Steim1 then 7 else 3, FieldBits(version, k) - 1);
  }

  lemma {:induction false} PackingWithinReach(ds: seq<int>, ks: seq<nat>)
    requires Packs(Steim2, ds, ks)
    ensures Total(ks) <= Reach(Steim2, ds, |ks|)
  {
    hide Run, Reach;
    if ks == [] {
      NothingReached(Steim2, ds);
    } else {
      PackingWithinReach(ds, ks[..|ks| - 1]);
      AheadStep(ds, Total(ks[..|ks| - 1]), ks[|ks| - 1], |ks| - 1);
    }
  }

  /** The words of a block that decodes to samples of the input are a packing of the encoder's differences, too, if the
      first of those is narrow. */
  lemma BlockPacks(version: Version, input: seq<int>, diff0: int, other: seq<Quad>, m: nat, big: bool) returns (ks: seq<nat>)
    requires 0 < m && 16 * m <= |other| && input != [] && Decode(version, other, m, big).0 <= input
    requires Fits(diff0, if version == Steim1 then 8 else 4)
    ensures |ks| == Capacity(m) && Packs(version, Diffs(input, diff0), ks)
    ensures Total(ks) == |Decode(version, other, m, big).0|
  {
    hide Packs, Total, DecodeFrames, Integrate, Fits;
    var ds := DecodeFrames(version, other, m, big);
    assert ds[0..|ds|] == ds;
    ks := FramesPack(version, ds, other, m, big);
    IntegrateBack(Signed(Get(other[1], big), 32), ds, input);
    PacksNarrower(version, ds, Diffs(input, diff0), ks);
  }

  /** With a first difference of at most 4 bits, no Steim-2 block that decodes to the same samples uses fewer frames, or
      gets more of them into the frames at hand. */
  lemma SteimTwoShortest(input: seq<int>, diff0: int, quads: seq<Quad>, maxframes: nat, frames: nat, n: nat, big: bool,
                         other: seq<Quad>, m: nat, otherBig: bool)
    requires Encoded(Steim2, input, diff0, quads, maxframes, frames, n, big) && Fits(diff0, 4)
    requires 0 < m && 16 * m <= |other| && input != [] && Decode(Steim2, other, m, otherBig).0 <= input
    ensures m <= maxframes ==> |Decode(Steim2, other, m, otherBig).0| <= n
    ensures |Decode(Steim2, other, m, otherBig).0| >= n ==> m >= frames
  {
    hide Reach, Packs, Total, Fits, Decode, DecodeFrames;
    var ks := BlockPacks(Steim2, input, diff0, other, m, otherBig);
    PackingWithinReach(Diffs(input, diff0), ks);
    if m <= maxframes { ReachMonotone(Steim2, Diffs(input, diff0), Capacity(m), Capacity(maxframes)); }
  }

  /** The same for Steim-1 where no greedy word starts in a trap. */
  lemma SteimOneShortest(input: seq<int>, diff0: int, quads: seq<Quad>, maxframes: nat, frames: nat, n: nat, big: bool,
                         other: seq<Quad>, m: nat, otherBig: bool)
    requires Encoded(Steim1, input, diff0, quads, maxframes, frames, n, big) && Fits(diff0, 8)
    requires Untrapped(Diffs(input, diff0), Capacity(m))
    requires 0 < m && 16 * m <= |other| && input != [] && Decode(Steim1, other, m, otherBig).0 <= input
    ensures m <= maxframes ==> |Decode(Steim1, other, m, otherBig).0| <= n
    ensures |Decode(Steim1, other, m, otherBig).0| >= n ==> m >= frames
  {
    hide Reach, Packs, Total, Fits, Decode, DecodeFrames, Untrapped;
    var ks := BlockPacks(Steim1, input, diff0, other, m, otherBig);
    UntrappedInPhase(Diffs(input, diff0), ks);
    if m <= maxframes { ReachMonotone(Steim1, Diffs(input, diff0), Capacity(m), Capacity(maxframes)); }
  }

  /** And whatever the first difference, of all blocks that hold the encoder's differences. */
  lemma SteimOneOptimal(input: seq<int>, diff0: int, quads: seq<Quad>, maxframes: nat, frames: nat, n: nat, big: bool,
                        other: seq<Quad>, m: nat, otherBig: bool)
    requires Encoded(Steim1, input, diff0, quads, maxframes, frames, n, big)
    requires Untrapped(Diffs(input, diff0), Capacity(m))
    requires 16 * m <= |other| && DecodeFrames(Steim1, other, m, otherBig) <= Diffs(input, diff0)
    ensures m <= maxframes ==> |DecodeFrames(Steim1, other, m, otherBig)| <= n
    ensures |DecodeFrames(Steim1, other, m, otherBig)| >= n ==> m >= frames
  {
    hide Reach;
    OptimalUntrapped(Diffs(input, diff0), other, m, otherBig);
    if m <= maxframes { ReachMonotone(Steim1, Diffs(input, diff0), Capacity(m), Capacity(maxframes)); }
  }

  // ---------- samples that show the conditions are needed ----------

  /** Ten steps of 100000 each way, one of 200, four of 1, and one of 100000. */
  function Trapping(): (input: seq<int>)
    ensures |input| == 16
  {
    [0, -100000, 0, -100000, 0, -100000, 0, -100000, 0, -100000, -99800, -99799, -99798, -99797, -99796, 204]
  }

  lemma TrapDiffs()
    ensures var ds := Diffs(Trapping(), 100000);
      |ds| == 16 && (forall i :: 0 <= i < 10 ==> ds[i] == 100000 || ds[i] == -100000) && ds[10] == 200 && ds[15] == 100000
    ensures forall i :: 11 <= i < 15 ==> Diffs(Trapping(), 100000)[i] == 1
  {
  }

  /** Ten words of one difference each bring the encoder to the 200. */
  lemma {:induction false} TrapReached(ds: seq<int>, n: nat)
    requires n <= 10 && |ds| == 16 && forall i :: 0 <= i < 10 ==> ds[i] == 100000 || ds[i] == -100000
    ensures Reach(Steim1, ds, n) == n
  {
    hide Fits, Choose, Run;
    if n > 0 {
      TrapReached(ds, n - 1);
      FitsRanges(ds[n - 1]);
      ByteRunIs(ds, n - 1, 0);
      RunsOfOne(ds, n - 1);
      ChooseByRuns(ds, n - 1, 1);
    }
  }

  lemma TrapStands(ds: seq<int>)
    requires |ds| == 16 && ds[10] == 200 && (forall i :: 11 <= i < 15 ==> ds[i] == 1) && ds[15] == 100000
    ensures Trap(ds, 10) && ByteRun(ds, 11) == 4
  {
    hide Fits;
    FitsRanges(1);
    FitsRanges(200);
    FitsRanges(100000);
    ByteRunIs(ds, 11, 4);
  }

  /** Where greedy packing fails: the Steim-1 encoder puts fifteen of these samples into one frame, and another frame holds
      all sixteen. */
  lemma SteimOneBeaten(quads: seq<Quad>, frames: nat, n: nat, big: bool) returns (other: seq<Quad>)
    requires Encoded(Steim1, Trapping(), 100000, quads, 1, frames, n, big)
    ensures n == 15 && |other| == 16 && Decode(Steim1, other, 1, big) == (Trapping(), 204)
  {
    hide Fits, Run, Packs, Total, Choose, Reach, Encoded, DecodeFrames, Integrate;
    var ds := Diffs(Trapping(), 100000);
    TrapDiffs();
    TrapReached(ds, 10);
    TrapStands(ds);
    var ks := TrapLoses(ds, 10);
    TrappedReach(ds, 10, 0);
    LastTwo(ds);
    OneWordMore(Steim1, ds, ks, 1);
    ks := ks + [1];
    other := Realize(ds, ks, 1, 0, 204, big);
    assert ks[..13] == ks && ds[..16] == ds;
    IntegrateDiffs(Trapping(), 100000, 16);
    assert Trapping()[..16] == Trapping();
    EncodedReach(quads, frames, n, big);
  }

  lemma EncodedReach(quads: seq<Quad>, frames: nat, n: nat, big: bool)
    requires Encoded(Steim1, Trapping(), 100000, quads, 1, frames, n, big)
    ensures n == Reach(Steim1, Diffs(Trapping(), 100000), 13)
  {
  }

  /** Greedy words twelve and thirteen. */
  lemma LastTwo(ds: seq<int>)
    requires |ds| == 16 && (forall i :: 11 <= i < 15 ==> ds[i] == 1) && ds[15] == 100000 && Reach(Steim1, ds, 11) == 12
    ensures Reach(Steim1, ds, 12) == 14 && Reach(Steim1, ds, 13) == 15 && Run(Steim1, ds, 15, 1)
  {
    hide Fits, Choose, Run;
    FitsRanges(1);
    FitsRanges(100000);
    ByteRunIs(ds, 12, 3);
    RunsOfOne(ds, 12);
    ChooseByRuns(ds, 12, 2);
    ByteRunIs(ds, 14, 1);
    RunsOfOne(ds, 14);
    ChooseByRuns(ds, 14, 1);
    RunsOfOne(ds, 15);
  }
}
