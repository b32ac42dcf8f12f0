/** Steim-1 and Steim-2 data frames as SEED Reference Manual v2.4, Appendix B defines them:
    a decoder, and what a single data word can hold. */
module SteimFormat {
  import opened Bits
  import LittleEndian

  type byte = LittleEndian.byte

  /** Four bytes of memory, in address order. */
  datatype Quad = Quad(b0: byte, b1: byte, b2: byte, b3: byte)

  datatype Version = Steim1 | Steim2

  /** The 32-bit number that four bytes spell in big-endian or little-endian order. */
  function Get(q: Quad, big: bool): nat {
    if big then ((q.b0 * 256 + q.b1) * 256 + q.b2) * 256 + q.b3
    else ((q.b3 * 256 + q.b2) * 256 + q.b1) * 256 + q.b0
  }

  function Put(v: nat, big: bool): Quad
    requires v < 0x1_0000_0000
  {
    var q := Quad(v / 256 / 256 / 256, v / 256 / 256 % 256, v / 256 % 256, v % 256);
    if big then q else Swap4(q)
  }

  function Swap4(q: Quad): Quad {
    Quad(q.b3, q.b2, q.b1, q.b0)
  }

  lemma GetPut(v: nat, big: bool)
    requires v < 0x1_0000_0000
    ensures Get(Put(v, big), big) == v
  {
  }

  lemma GetSwap(q: Quad, big: bool)
    ensures Get(Swap4(q), !big) == Get(q, big)
    ensures Get(q, big) < 0x1_0000_0000
  {
  }

  lemma Pow2Values()
    ensures Pow2(8) == 0x100 && Pow2(16) == 0x1_0000 && Pow2(32) == 0x1_0000_0000
    ensures Pow2(2) == 4 && Pow2(30) == 0x4000_0000
  {
    assert Pow2(2) == 4 && Pow2(4) == 16;
    Pow2Add(4, 4);
    Pow2Add(8, 8);
    Pow2Add(16, 16);
    Pow2Add(2, 30);
  }

  // ---------- the decoder ----------

  /** How many fields of which width a Steim-2 word holds, by its frame code and its own two high bits. */
  function Layout(code: int, dnib: int): (int, int) {
    if code == 2 then
      if dnib == 1 then (1, 30) else if dnib == 2 then (2, 15) else if dnib == 3 then (3, 10) else (0, 0)
    else if code == 3 then
      if dnib == 0 then (5, 6) else if dnib == 1 then (6, 5) else if dnib == 2 then (7, 4) else (0, 0)
    else (0, 0)
  }

  function FourBytes(q: Quad): seq<int> {
    [Signed(q.b0, 8), Signed(q.b1, 8), Signed(q.b2, 8), Signed(q.b3, 8)]
  }

  function TwoHalves(q: Quad, big: bool): seq<int> {
    if big then [Signed(q.b0 * 256 + q.b1, 16), Signed(q.b2 * 256 + q.b3, 16)]
    else [Signed(q.b1 * 256 + q.b0, 16), Signed(q.b3 * 256 + q.b2, 16)]
  }

  /** The differences in one data word. */
  function DecodeWord(version: Version, code: int, q: Quad, big: bool): seq<int> {
    if code == 1 then FourBytes(q)
    else match version
    case Steim1 =>
      if code == 2 then TwoHalves(q, big)
      else if code == 3 then [Signed(Get(q, big), 32)]
      else []
    case Steim2 =>
      var (k, bits) := Layout(code, Shr(Get(q, big), 30));
      if k == 0 then [] else Unpack(Get(q, big), k, bits)
  }

  /** The two-bit code of word w in a frame's first word. */
  function Code(nibbles: nat, w: nat): nat
    requires w < 16
  {
    Low(Shr(nibbles, 30 - 2 * w), 2)
  }

  /** The differences in words start..upto-1 of a frame. */
  function DecodeWords(version: Version, nibbles: nat, frame: seq<Quad>, start: nat, upto: nat, big: bool): seq<int>
    requires upto <= 16 <= |frame|
  {
    if upto <= start then []
    else DecodeWords(version, nibbles, frame, start, upto - 1, big) + DecodeWord(version, Code(nibbles, upto - 1), frame[upto - 1], big)
  }

  /** The first frame spends two more words on the integration constants. */
  function FirstWord(f: nat): nat {
    if f == 0 then 3 else 1
  }

  function Frame(quads: seq<Quad>, f: nat): (frame: seq<Quad>)
    requires 16 * (f + 1) <= |quads|
    ensures |frame| == 16
  {
    quads[16 * f..16 * (f + 1)]
  }

  /** The differences in the first n frames. */
  function DecodeFrames(version: Version, quads: seq<Quad>, n: nat, big: bool): seq<int>
    requires 16 * n <= |quads|
  {
    if n == 0 then [] else
      var frame := Frame(quads, n - 1);
      DecodeFrames(version, quads, n - 1, big) + DecodeWords(version, Get(frame[0], big), frame, FirstWord(n - 1), 16, big)
  }

  /** The samples from the first one and the differences (of which the first is not used). */
  function Integrate(first: int, ds: seq<int>): seq<int> {
    if |ds| == 0 then []
    else if |ds| == 1 then [first]
    else var s := Integrate(first, ds[..|ds| - 1]); s + [(if s == [] then first else s[|s| - 1]) + ds[|ds| - 1]]
  }

  /** What a whole block of frames says: its samples and its stored last sample. */
  function Decode(version: Version, quads: seq<Quad>, n: nat, big: bool): (seq<int>, int)
    requires 0 < n && 16 * n <= |quads|
  {
    (Integrate(Signed(Get(quads[1], big), 32), DecodeFrames(version, quads, n, big)), Signed(Get(quads[2], big), 32))
  }

  // ---------- the words as numbers ----------

  /** The word that k differences make, written out: its frame code, its two high bits and each difference in its field,
      the first one highest. Four bytes, and the halves of a Steim-1 word, stand in the order of the differences. */
  ghost predicate Spells(version: Version, ds: seq<int>, code: int, q: Quad, big: bool) {
    if |ds| == 4 then code == 1 && q == Quad(ds[0] % 256, ds[1] % 256, ds[2] % 256, ds[3] % 256)
    else if version == Steim1 then SpellsOne(ds, code, q, big)
    else SpellsTwo(ds, code, Get(q, big))
  }

  ghost predicate SpellsOne(ds: seq<int>, code: int, q: Quad, big: bool) {
    if |ds| == 2 then
      && code == 2
      && (big ==> q.b0 * 0x100 + q.b1 == ds[0] % 0x1_0000 && q.b2 * 0x100 + q.b3 == ds[1] % 0x1_0000)
      && (!big ==> q.b1 * 0x100 + q.b0 == ds[0] % 0x1_0000 && q.b3 * 0x100 + q.b2 == ds[1] % 0x1_0000)
    else |ds| == 1 && code == 3 && Get(q, big) == ds[0] % 0x1_0000_0000
  }

  ghost predicate SpellsTwo(ds: seq<int>, code: int, v: nat) {
    if |ds| == 7 then
      code == 3 && v == 0x8000_0000 + ds[0] % 16 * 0x100_0000 + ds[1] % 16 * 0x10_0000 + ds[2] % 16 * 0x1_0000
                        + ds[3] % 16 * 0x1000 + ds[4] % 16 * 0x100 + ds[5] % 16 * 0x10 + ds[6] % 16
    else if |ds| == 6 then
      code == 3 && v == 0x4000_0000 + ds[0] % 32 * 0x200_0000 + ds[1] % 32 * 0x10_0000 + ds[2] % 32 * 0x8000
                        + ds[3] % 32 * 0x400 + ds[4] % 32 * 0x20 + ds[5] % 32
    else if |ds| == 5 then
      code == 3 && v == ds[0] % 64 * 0x100_0000 + ds[1] % 64 * 0x4_0000 + ds[2] % 64 * 0x1000 + ds[3] % 64 * 0x40 + ds[4] % 64
    else if |ds| == 3 then
      code == 2 && v == 0xC000_0000 + ds[0] % 0x400 * 0x10_0000 + ds[1] % 0x400 * 0x400 + ds[2] % 0x400
    else if |ds| == 2 then
      code == 2 && v == 0x8000_0000 + ds[0] % 0x8000 * 0x8000 + ds[1] % 0x8000
    else |ds| == 1 && code == 2 && v == 0x4000_0000 + ds[0] % 0x4000_0000
  }

  // ---------- what a word can hold ----------

  /** The width of each of k differences sharing a word. */
  function FieldBits(version: Version, k: int): int
    requires Holds(version, k)
  {
    match version
    case Steim1 => if k == 4 then 8 else if k == 2 then 16 else 32
    case Steim2 =>
      if k == 7 then 4 else if k == 6 then 5 else if k == 5 then 6 else if k == 4 then 8
      else if k == 3 then 10 else if k == 2 then 15 else 30
  }

  predicate Holds(version: Version, k: int) {
    match version
    case Steim1 => k == 1 || k == 2 || k == 4
    case Steim2 => 1 <= k <= 7
  }

  /** The next k of the differences fit one word. */
  ghost predicate Run(version: Version, ds: seq<int>, i: int, k: int) {
    Holds(version, k) && 0 <= i && i + k <= |ds| && forall j :: i <= j < i + k ==> Fits(ds[j], FieldBits(version, k))
  }
}
