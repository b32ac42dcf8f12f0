/** The encoder's greedy choice, and why no Steim-2 encoding does better. */
module SteimGreedy {
  import opened Bits
  import opened SteimFormat

  /** How many differences the encoder puts in the next word; 0 when it cannot go on. */
  ghost function Choose(version: Version, ds: seq<int>, i: int): nat {
    match version
    case Steim1 =>
      if Run(version, ds, i, 4) then 4 else if Run(version, ds, i, 2) then 2 else if Run(version, ds, i, 1) then 1 else 0
    case Steim2 =>
      if Run(version, ds, i, 7) then 7 else if Run(version, ds, i, 6) then 6 else if Run(version, ds, i, 5) then 5
      else if Run(version, ds, i, 4) then 4 else if Run(version, ds, i, 3) then 3 else if Run(version, ds, i, 2) then 2
      else if Run(version, ds, i, 1) then 1 else 0
  }

  /** How many differences the first n words hold. */
  ghost function Reach(version: Version, ds: seq<int>, n: nat): (r: nat)
    ensures r <= |ds|
  {
    if n == 0 then 0 else
      var r := Reach(version, ds, n - 1);
      r + Choose(version, ds, r)
  }

  /** Data words in n frames. */
  function Capacity(n: nat): nat {
    if n == 0 then 0 else 15 * n - 2
  }

  // ---------- optimality ----------

  /** Fewer differences per word leave more bits for each, so any tail of a run is a run. */
  lemma RunTail(ds: seq<int>, c: int, k: int, i: int)
    requires Run(Steim2, ds, c, k) && c <= i < c + k
    ensures Run(Steim2, ds, i, c + k - i)
  {
    Pow2Monotone(FieldBits(Steim2, k) - 1, FieldBits(Steim2, c + k - i) - 1);
  }

  lemma ChooseLongest(ds: seq<int>, i: int, k: int)
    requires Run(Steim2, ds, i, k)
    ensures Choose(Steim2, ds, i) >= k
  {
  }

  /** Whoever is ahead before a word is ahead after it. */
  lemma AheadStep(ds: seq<int>, c: int, k: int, n: nat)
    requires 0 <= c <= Reach(Steim2, ds, n)
    requires k == 0 || Run(Steim2, ds, c, k)
    ensures c + k <= Reach(Steim2, ds, n + 1)
  {
    var i := Reach(Steim2, ds, n);
    if i < c + k {
      RunTail(ds, c, k, i);
      ChooseLongest(ds, i, c + k - i);
    }
  }

  lemma SignedFits(f: nat, bits: nat)
    requires bits > 0 && f < Pow2(bits)
    ensures Fits(Signed(f, bits), bits)
  {
  }

  lemma UnpackFits(w: nat, k: nat, bits: nat)
    requires bits > 0
    ensures |Unpack(w, k, bits)| == k && forall j :: 0 <= j < k ==> Fits(Unpack(w, k, bits)[j], bits)
    decreases k
  {
    if k > 0 {
      UnpackFits(Shr(w, bits), k - 1, bits);
      LowBound(w, bits);
      SignedFits(Low(w, bits), bits);
    }
  }

  /** w is the stretch of ds from c on. */
  ghost predicate At(ds: seq<int>, c: int, w: seq<int>) {
    0 <= c && c + |w| <= |ds| && ds[c..c + |w|] == w
  }

  lemma AtSplit(ds: seq<int>, c: int, a: seq<int>, b: seq<int>)
    ensures At(ds, c, a + b) <==> At(ds, c, a) && At(ds, c + |a|, b)
  {
    if At(ds, c, a + b) {
      var w := ds[c..c + |a + b|];
      assert ds[c..c + |a|] == w[..|a|] == a;
      assert ds[c + |a|..c + |a| + |b|] == w[|a|..] == b;
    }
    if At(ds, c, a) && At(ds, c + |a|, b) {
      assert ds[c..c + |a + b|] == ds[c..c + |a|] + ds[c + |a|..c + |a| + |b|];
    }
  }

  lemma AtElement(ds: seq<int>, c: int, w: seq<int>, j: int)
    requires At(ds, c, w) && c <= j < c + |w|
    ensures ds[j] == w[j - c]
  {
    assert ds[c..c + |w|][j - c] == w[j - c];
  }

  /** Whatever a Steim-2 word decodes to could be packed into one word. */
  lemma WordIsRun(ds: seq<int>, c: nat, code: int, q: Quad, big: bool)
    requires At(ds, c, DecodeWord(Steim2, code, q, big))
    ensures var k := |DecodeWord(Steim2, code, q, big)|; k == 0 || Run(Steim2, ds, c, k)
  {
    var w := DecodeWord(Steim2, code, q, big);
    if code == 1 {
      Pow2Values();
      SignedFits(q.b0, 8);
      SignedFits(q.b1, 8);
      SignedFits(q.b2, 8);
      SignedFits(q.b3, 8);
    } else {
      var (k, bits) := Layout(code, Shr(Get(q, big), 30));
      if k > 0 { UnpackFits(Get(q, big), k, bits); }
    }
    forall j | c <= j < c + |w| ensures ds[j] == w[j - c] {
      AtElement(ds, c, w, j);
    }
  }

  /** Words start..upto-1 of a frame, beginning at difference c, stay within the greedy reach. */
  lemma {:induction false} WordsWithinReach(ds: seq<int>, c: nat, n: nat, nibbles: nat, frame: seq<Quad>, start: nat, upto: nat, big: bool)
    requires start <= upto <= 16 <= |frame| && c <= Reach(Steim2, ds, n)
    requires At(ds, c, DecodeWords(Steim2, nibbles, frame, start, upto, big))
    ensures c + |DecodeWords(Steim2, nibbles, frame, start, upto, big)| <= Reach(Steim2, ds, n + upto - start)
  {
    hide At, DecodeWord, Reach, Code;
    if start < upto {
      var head := DecodeWords(Steim2, nibbles, frame, start, upto - 1, big);
      var last := DecodeWord(Steim2, Code(nibbles, upto - 1), frame[upto - 1], big);
      AtSplit(ds, c, head, last);
      WordsWithinReach(ds, c, n, nibbles, frame, start, upto - 1, big);
      WordIsRun(ds, c + |head|, Code(nibbles, upto - 1), frame[upto - 1], big);
      AheadStep(ds, c + |head|, |last|, n + upto - 1 - start);
    }
  }

  lemma {:induction false} FramesWithinReach(ds: seq<int>, quads: seq<Quad>, n: nat, big: bool)
    requires 16 * n <= |quads| && At(ds, 0, DecodeFrames(Steim2, quads, n, big))
    ensures |DecodeFrames(Steim2, quads, n, big)| <= Reach(Steim2, ds, Capacity(n))
  {
    hide At, DecodeWord, DecodeWords, Reach, Code, Get;
    if n > 0 {
      var frame := Frame(quads, n - 1);
      var before := DecodeFrames(Steim2, quads, n - 1, big);
      var now := DecodeWords(Steim2, Get(frame[0], big), frame, FirstWord(n - 1), 16, big);
      AtSplit(ds, 0, before, now);
      FramesWithinReach(ds, quads, n - 1, big);
      WordsWithinReach(ds, |before|, Capacity(n - 1), Get(frame[0], big), frame, FirstWord(n - 1), 16, big);
    }
  }

  /** Greedy packing is optimal: no n frames, however encoded, hold more of the differences
      than the greedy encoder's first words do. */
  lemma GreedyOptimal(ds: seq<int>, quads: seq<Quad>, n: nat, big: bool)
    requires 16 * n <= |quads| && DecodeFrames(Steim2, quads, n, big) <= ds
    ensures |DecodeFrames(Steim2, quads, n, big)| <= Reach(Steim2, ds, Capacity(n))
  {
    FramesWithinReach(ds, quads, n, big);
  }

  lemma ReachMonotone(version: Version, ds: seq<int>, a: nat, b: nat)
    requires a <= b
    ensures Reach(version, ds, a) <= Reach(version, ds, b)
    decreases b
  {
    if a < b { ReachMonotone(version, ds, a, b - 1); }
  }

  lemma FitsRanges(d: int)
    ensures Fits(d, 8) <==> -128 <= d < 128
    ensures Fits(d, 16) <==> -32768 <= d < 32768
    ensures Fits(d, 32) <==> -0x8000_0000 <= d < 0x8000_0000
  {
    Pow2Values();
    Pow2Add(7, 1);
    Pow2Add(15, 1);
    Pow2Add(31, 1);
  }
}
