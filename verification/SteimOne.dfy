/** When Steim-1's greedy packing is optimal. A word of the formats takes one, two or four differences, and the tail of
    four is three, which no word takes: that is where the greedy choice can fall behind. */
module SteimOne {
  import opened Bits
  import opened SteimFormat
  import opened SteimGreedy

  // ---------- packings ----------

  ghost function Total(ks: seq<nat>): nat {
    if ks == [] then 0 else Total(ks[..|ks| - 1]) + ks[|ks| - 1]
  }

  /** Words that take ks[0], ks[1] and so on of the differences, in order; a word may also stay empty. */
  ghost predicate Packs(version: Version, ds: seq<int>, ks: seq<nat>) {
    ks == [] || (Packs(version, ds, ks[..|ks| - 1]) && (ks[|ks| - 1] == 0 || Run(version, ds, Total(ks[..|ks| - 1]), ks[|ks| - 1])))
  }

  lemma OneWordMore(version: Version, ds: seq<int>, ks: seq<nat>, k: nat)
    requires Packs(version, ds, ks) && (k == 0 || Run(version, ds, Total(ks), k))
    ensures Packs(version, ds, ks + [k]) && Total(ks + [k]) == Total(ks) + k
  {
    assert (ks + [k])[..|ks|] == ks;
  }

  /** The greedy encoder's own packing. */
  lemma {:induction false} GreedyPacks(version: Version, ds: seq<int>, n: nat) returns (ks: seq<nat>)
    ensures |ks| == n && Packs(version, ds, ks) && Total(ks) == Reach(version, ds, n)
  {
    hide Run;
    if n == 0 {
      ks := [];
    } else {
      ks := GreedyPacks(version, ds, n - 1);
      ChooseRuns(version, ds, Total(ks));
      OneWordMore(version, ds, ks, Choose(version, ds, Total(ks)));
      ks := ks + [Choose(version, ds, Total(ks))];
    }
  }

  lemma ChooseRuns(version: Version, ds: seq<int>, i: int)
    ensures Choose(version, ds, i) == 0 || Run(version, ds, i, Choose(version, ds, i))
  {
    hide Run;
  }

  // ---------- traps ----------

  /** How many 8-bit differences stand in a row from i on. */
  ghost function ByteRun(ds: seq<int>, i: int): (r: nat)
    requires 0 <= i
    ensures i <= |ds| ==> i + r <= |ds|
    ensures forall j :: i <= j < i + r && j < |ds| ==> Fits(ds[j], 8)
    ensures i + r < |ds| ==> !Fits(ds[i + r], 8)
    decreases |ds| - i
  {
    if i >= |ds| || !Fits(ds[i], 8) then 0 else 1 + ByteRun(ds, i + 1)
  }

  /** A difference of 9 to 16 bits, and then four, eight, twelve and so on of 8 bits, and no more of those: taking the first
      together with the next spoils the fours. */
  ghost predicate Trap(ds: seq<int>, i: int) {
    && 0 <= i < |ds| && !Fits(ds[i], 8) && Fits(ds[i], 16)
    && ByteRun(ds, i + 1) > 0 && ByteRun(ds, i + 1) % 4 == 0
  }

  lemma {:induction false} ByteRunIs(ds: seq<int>, i: int, r: nat)
    requires 0 <= i && i + r <= |ds| && (forall j :: i <= j < i + r ==> Fits(ds[j], 8))
    requires i + r < |ds| ==> !Fits(ds[i + r], 8)
    ensures ByteRun(ds, i) == r
    decreases r
  {
    if r > 0 { ByteRunIs(ds, i + 1, r - 1); }
  }

  lemma ByteRunFrom(ds: seq<int>, i: int, k: nat)
    requires 0 <= i <= |ds| && k <= ByteRun(ds, i)
    ensures ByteRun(ds, i + k) == ByteRun(ds, i) - k
  {
    ByteRunIs(ds, i + k, ByteRun(ds, i) - k);
  }

  /** The runs of Steim-1 in terms of widths. */
  lemma RunsOfOne(ds: seq<int>, i: int)
    requires 0 <= i
    ensures Run(Steim1, ds, i, 4) <==> ByteRun(ds, i) >= 4
    ensures Run(Steim1, ds, i, 2) <==> i + 2 <= |ds| && Fits(ds[i], 16) && Fits(ds[i + 1], 16)
    ensures Run(Steim1, ds, i, 1) <==> i + 1 <= |ds| && Fits(ds[i], 32)
  {
    if ByteRun(ds, i) < 4 && i + 4 <= |ds| { assert !Fits(ds[i + ByteRun(ds, i)], 8); }
  }

  lemma Widths(d: int)
    ensures Fits(d, 8) ==> Fits(d, 16)
    ensures Fits(d, 16) ==> Fits(d, 32)
  {
    FitsRanges(d);
  }

  /** The packing is not one difference behind with the greedy encoder standing three short of a multiple of four. */
  ghost predicate InPhase(ds: seq<int>, c: int, i: int) {
    0 <= c <= i <= |ds| && !(c == i - 1 && Fits(ds[c], 8) && ByteRun(ds, i) % 4 == 3)
  }

  /** One word each: away from traps, whoever is behind and in phase stays so. */
  lemma InPhaseStep(ds: seq<int>, c: int, k: nat, i: int)
    requires InPhase(ds, c, i) && !Trap(ds, i) && (k == 0 || Run(Steim1, ds, c, k))
    ensures InPhase(ds, c + k, i + Choose(Steim1, ds, i))
  {
    hide Fits, Run;
    var g := Choose(Steim1, ds, i);
    RunsOfOne(ds, i);
    RunsOfOne(ds, c);
    forall j | 0 <= j < |ds| ensures (Fits(ds[j], 8) ==> Fits(ds[j], 16)) && (Fits(ds[j], 16) ==> Fits(ds[j], 32)) {
      Widths(ds[j]);
    }
    if k != 0 { KindsOfRun(ds, c, k); }
    ByteRunFrom(ds, i, if g <= ByteRun(ds, i) then g else 0);
  }

  lemma KindsOfRun(ds: seq<int>, c: int, k: nat)
    requires Run(Steim1, ds, c, k)
    ensures k == 1 || k == 2 || k == 4
  {
  }

  // ---------- the exact condition ----------

  /** No greedy word among the first n starts in a trap. */
  ghost predicate Untrapped(ds: seq<int>, n: nat) {
    forall j: nat | j < n :: !Trap(ds, Reach(Steim1, ds, j))
  }

  lemma {:induction false} UntrappedInPhase(ds: seq<int>, ks: seq<nat>)
    requires Packs(Steim1, ds, ks) && Untrapped(ds, |ks|)
    ensures InPhase(ds, Total(ks), Reach(Steim1, ds, |ks|))
  {
    hide Run, InPhase, Choose, Trap;
    if ks == [] {
      AtStart(ds);
    } else {
      UntrappedInPhase(ds, ks[..|ks| - 1]);
      InPhaseStep(ds, Total(ks[..|ks| - 1]), ks[|ks| - 1], Reach(Steim1, ds, |ks| - 1));
    }
  }

  lemma AtStart(ds: seq<int>)
    ensures InPhase(ds, 0, 0)
  {
  }

  /** From a trap on, greedy words fall behind one difference and then whole fours. */
  lemma {:induction false} TrappedReach(ds: seq<int>, j: nat, t: nat)
    requires Trap(ds, Reach(Steim1, ds, j)) && 4 * t < ByteRun(ds, Reach(Steim1, ds, j) + 1)
    ensures Reach(Steim1, ds, j + 1 + t) == Reach(Steim1, ds, j) + 2 + 4 * t
  {
    hide Fits, Run, Choose;
    var i := Reach(Steim1, ds, j);
    var r := ByteRun(ds, i + 1);
    if t == 0 {
      RunsOfOne(ds, i);
      Widths(ds[i + 1]);
      ChooseByRuns(ds, i, 2);
    } else {
      TrappedReach(ds, j, t - 1);
      var at := i + 2 + 4 * (t - 1);
      ByteRunFrom(ds, i + 1, 4 * (t - 1) + 1);
      RunsOfOne(ds, at);
      ChooseByRuns(ds, at, 4);
    }
  }

  /** The choice, when the next one, two and four differences do or do not fit. */
  lemma ChooseByRuns(ds: seq<int>, i: int, k: int)
    requires Run(Steim1, ds, i, k) && (k == 1 || k == 2 || k == 4)
    requires k < 4 ==> !Run(Steim1, ds, i, 4)
    requires k < 2 ==> !Run(Steim1, ds, i, 2)
    ensures Choose(Steim1, ds, i) == k
  {
    hide Run;
  }

  /** Fours, one after the other. */
  lemma {:induction false} FoursPack(ds: seq<int>, ks: seq<nat>, q: nat) returns (more: seq<nat>)
    requires Packs(Steim1, ds, ks) && 4 * q <= ByteRun(ds, Total(ks)) && Total(ks) <= |ds|
    ensures |more| == |ks| + q && Packs(Steim1, ds, more) && Total(more) == Total(ks) + 4 * q
    ensures ks <= more
  {
    hide Fits, Run, Packs, Total;
    if q == 0 {
      more := ks;
    } else {
      more := FoursPack(ds, ks, q - 1);
      ByteRunFrom(ds, Total(ks), 4 * (q - 1));
      RunsOfOne(ds, Total(more));
      OneWordMore(Steim1, ds, more, 4);
      more := more + [4];
    }
  }

  /** A greedy word that starts in a trap loses: taking its first difference alone, and then the fours, gets one further in
      the same number of words. */
  lemma TrapLoses(ds: seq<int>, j: nat) returns (ks: seq<nat>)
    requires Trap(ds, Reach(Steim1, ds, j))
    ensures Packs(Steim1, ds, ks) && |ks| == j + 1 + ByteRun(ds, Reach(Steim1, ds, j) + 1) / 4
    ensures Total(ks) == Reach(Steim1, ds, |ks|) + 1
  {
    hide Fits, Run, Packs, Total, Choose;
    var i := Reach(Steim1, ds, j);
    var q := ByteRun(ds, i + 1) / 4;
    ks := GreedyPacks(Steim1, ds, j);
    RunsOfOne(ds, i);
    Widths(ds[i]);
    OneWordMore(Steim1, ds, ks, 1);
    ks := FoursPack(ds, ks + [1], q);
    TrappedReach(ds, j, q - 1);
    var at := i + 2 + 4 * (q - 1);
    ByteRunFrom(ds, i + 1, 4 * (q - 1) + 1);
    RunsOfOne(ds, at);
    Widths(ds[at]);
    Widths(ds[at + 1]);
    ChooseByRuns(ds, at, 2);
  }

  /** Steim-1's greedy packing reaches as far as any packing in every number of words exactly when no greedy word starts
      in a trap. */
  lemma OptimalExactly(ds: seq<int>)
    ensures (forall ks | Packs(Steim1, ds, ks) :: Total(ks) <= Reach(Steim1, ds, |ks|)) <==> (forall n: nat :: Untrapped(ds, n))
  {
    hide Fits, Run, Packs, Total, Choose, Trap;
    forall j: nat | Trap(ds, Reach(Steim1, ds, j))
      ensures exists ks :: Packs(Steim1, ds, ks) && Total(ks) > Reach(Steim1, ds, |ks|)
    {
      var ks := TrapLoses(ds, j);
    }
    forall ks | Packs(Steim1, ds, ks) && Untrapped(ds, |ks|) ensures Total(ks) <= Reach(Steim1, ds, |ks|) {
      UntrappedInPhase(ds, ks);
    }
  }

  // ---------- frames ----------

  /** Whatever a word decodes to, in either format, could be packed into one word. */
  lemma WordIsRunOf(version: Version, ds: seq<int>, c: nat, code: int, q: Quad, big: bool)
    requires At(ds, c, DecodeWord(version, code, q, big))
    ensures var k := |DecodeWord(version, code, q, big)|; k == 0 || Run(version, ds, c, k)
  {
    var w := DecodeWord(version, code, q, big);
    match version {
      case Steim2 => WordIsRun(ds, c, code, q, big);
      case Steim1 =>
        Pow2Values();
        SignedFits(q.b0, 8);
        SignedFits(q.b1, 8);
        SignedFits(q.b2, 8);
        SignedFits(q.b3, 8);
        HalvesFit(q, big);
        forall j | c <= j < c + |w| ensures ds[j] == w[j - c] {
          AtElement(ds, c, w, j);
        }
    }
  }

  lemma HalvesFit(q: Quad, big: bool)
    ensures forall j :: 0 <= j < 2 ==> Fits(TwoHalves(q, big)[j], 16)
    ensures Fits(Signed(Get(q, big), 32), 32)
  {
    hide Signed, Fits;
    Pow2Values();
    SignedFits(q.b0 * 256 + q.b1, 16);
    SignedFits(q.b2 * 256 + q.b3, 16);
    SignedFits(q.b1 * 256 + q.b0, 16);
    SignedFits(q.b3 * 256 + q.b2, 16);
    SignedFits(Get(q, big), 32);
  }

  /** The words of a frame are a packing of what they decode to. */
  lemma {:induction false} WordsPack(version: Version, ds: seq<int>, ks: seq<nat>, nibbles: nat, frame: seq<Quad>, start: nat, upto: nat, big: bool)
    returns (more: seq<nat>)
    requires start <= upto <= 16 <= |frame| && Packs(version, ds, ks)
    requires At(ds, Total(ks), DecodeWords(version, nibbles, frame, start, upto, big))
    ensures |more| == |ks| + upto - start && Packs(version, ds, more)
    ensures Total(more) == Total(ks) + |DecodeWords(version, nibbles, frame, start, upto, big)|
  {
    hide At, DecodeWord, Packs, Total, Run, Code;
    more := ks;
    if start < upto {
      var head := DecodeWords(version, nibbles, frame, start, upto - 1, big);
      var last := DecodeWord(version, Code(nibbles, upto - 1), frame[upto - 1], big);
      AtSplit(ds, Total(ks), head, last);
      more := WordsPack(version, ds, ks, nibbles, frame, start, upto - 1, big);
      WordIsRunOf(version, ds, Total(more), Code(nibbles, upto - 1), frame[upto - 1], big);
      OneWordMore(version, ds, more, |last|);
      more := more + [|last|];
    }
  }

  /** So are the words of n frames. */
  lemma {:induction false} FramesPack(version: Version, ds: seq<int>, quads: seq<Quad>, n: nat, big: bool) returns (ks: seq<nat>)
    requires 16 * n <= |quads| && At(ds, 0, DecodeFrames(version, quads, n, big))
    ensures |ks| == Capacity(n) && Packs(version, ds, ks) && Total(ks) == |DecodeFrames(version, quads, n, big)|
  {
    hide At, DecodeWord, DecodeWords, Code, Get, Run;
    if n == 0 {
      ks := [];
    } else {
      var frame := Frame(quads, n - 1);
      var before := DecodeFrames(version, quads, n - 1, big);
      AtSplit(ds, 0, before, DecodeWords(version, Get(frame[0], big), frame, FirstWord(n - 1), 16, big));
      ks := FramesPack(version, ds, quads, n - 1, big);
      ks := WordsPack(version, ds, ks, Get(frame[0], big), frame, FirstWord(n - 1), 16, big);
    }
  }

  /** Where no greedy word starts in a trap, no n frames hold more of the differences than the greedy encoder's. */
  lemma OptimalUntrapped(ds: seq<int>, quads: seq<Quad>, n: nat, big: bool)
    requires 16 * n <= |quads| && DecodeFrames(Steim1, quads, n, big) <= ds
    requires Untrapped(ds, Capacity(n))
    ensures |DecodeFrames(Steim1, quads, n, big)| <= Reach(Steim1, ds, Capacity(n))
  {
    var ks := FramesPack(Steim1, ds, quads, n, big);
    UntrappedInPhase(ds, ks);
  }

  /** The same from the differences alone: no trap among them anywhere. */
  lemma OptimalWithoutTraps(ds: seq<int>, quads: seq<Quad>, n: nat, big: bool)
    requires 16 * n <= |quads| && DecodeFrames(Steim1, quads, n, big) <= ds
    requires forall i :: 0 <= i < |ds| ==> !Trap(ds, i)
    ensures |DecodeFrames(Steim1, quads, n, big)| <= Reach(Steim1, ds, Capacity(n))
  {
    hide Trap;
    forall j: nat ensures !Trap(ds, Reach(Steim1, ds, j)) {
      AtEnd(ds);
    }
    OptimalUntrapped(ds, quads, n, big);
  }

  lemma AtEnd(ds: seq<int>)
    ensures !Trap(ds, |ds|)
  {
  }
}
