/** Fields of machine words: mask, shift and or on unsigned numbers. */
module Bits {

  function Pow2(n: nat): (p: nat)
    ensures p > 0
  {
    if n == 0 then 1 else 2 * Pow2(n - 1)
  }

  lemma Pow2Add(a: nat, b: nat)
    ensures Pow2(a + b) == Pow2(a) * Pow2(b)
  {
    if a > 0 { Pow2Add(a - 1, b); }
  }

  lemma Pow2Monotone(a: nat, b: nat)
    requires a <= b
    ensures Pow2(a) <= Pow2(b)
    decreases b
  {
    if a < b { Pow2Monotone(a, b - 1); }
  }

  /** Bitwise or. */
  function Or(a: nat, b: nat): nat
    decreases a + b
  {
    if a == 0 && b == 0 then 0
    else 2 * Or(a / 2, b / 2) + (if a % 2 == 1 || b % 2 == 1 then 1 else 0)
  }

  function Shl(a: nat, n: nat): nat {
    a * Pow2(n)
  }

  function Shr(a: nat, n: nat): nat {
    QuotientNatural(a, Pow2(n));
    a / Pow2(n)
  }

  lemma QuotientNatural(a: nat, b: nat)
    requires b > 0
    ensures a / b >= 0 && a == b * (a / b) + a % b
  {
  }

  /** The low bits of a two's complement number. */
  function Low(d: int, bits: nat): nat {
    d % Pow2(bits)
  }

  lemma OrZero(a: nat)
    ensures Or(a, 0) == a && Or(0, a) == a
  {
    if a > 0 { OrZero(a / 2); }
  }

  /** Or-ing a field in above the bits in use adds it. */
  lemma {:induction false} OrAbove(a: nat, b: nat, n: nat)
    requires a < Pow2(n)
    ensures Or(a, Shl(b, n)) == a + Shl(b, n)
    ensures Or(Shl(b, n), a) == a + Shl(b, n)
    decreases n
  {
    if n == 0 {
      OrZero(b);
    } else {
      assert Shl(b, n) == 2 * Shl(b, n - 1);
      OrAbove(a / 2, b, n - 1);
    }
  }

  /** A signed field of some width. */
  function Signed(f: nat, bits: nat): int
    requires bits > 0
  {
    if f < Pow2(bits - 1) then f else f - Pow2(bits)
  }

  predicate Fits(d: int, bits: nat)
    requires bits > 0
  {
    0 - Pow2(bits - 1) <= d < Pow2(bits - 1)
  }

  lemma SignedLow(d: int, bits: nat)
    requires bits > 0 && Fits(d, bits)
    ensures Signed(Low(d, bits), bits) == d && Low(d, bits) < Pow2(bits)
  {
    if d < 0 {
      ModAdd(d, Pow2(bits));
    } else {
      ModSmall(d, Pow2(bits));
    }
  }

  lemma LowBound(d: int, bits: nat)
    ensures Low(d, bits) < Pow2(bits)
  {
  }

  lemma ModSmall(a: int, b: int)
    requires 0 <= a < b
    ensures a % b == a && a / b == 0
  {
  }

  lemma ModAdd(a: int, b: int)
    requires -b <= a < 0 < b
    ensures a % b == a + b
  {
    DivUnique(a, b, -1, a + b);
  }

  lemma DivUnique(a: int, b: int, q: int, r: int)
    requires b > 0 && a == q * b + r && 0 <= r < b
    ensures a / b == q && a % b == r
  {
    var q', r' := a / b, a % b;
    assert a == b * q' + r';
    assert (q - q') * b == r' - r;
    if q > q' { MulAtLeast(q - q', b); }
    if q < q' { MulAtLeast(q' - q, b); }
  }

  lemma MulAtLeast(k: int, b: int)
    requires k >= 1 && b > 0
    ensures k * b >= b
  {
  }

  /** Fields of one width packed from the high end down, the last at bit 0: each is masked,
      and the fields before it are shifted up and or-ed in. */
  function Pack(ds: seq<int>, bits: nat): nat {
    if ds == [] then 0 else Or(Low(ds[|ds| - 1], bits), Shl(Pack(ds[..|ds| - 1], bits), bits))
  }

  /** The low k fields of a word as signed numbers, highest first. */
  function Unpack(w: nat, k: nat, bits: nat): seq<int>
    requires bits > 0
    decreases k
  {
    if k == 0 then [] else Unpack(Shr(w, bits), k - 1, bits) + [Signed(Low(w, bits), bits)]
  }

  /** The width of n fields, by addition. */
  function Width(bits: nat, n: nat): nat {
    if n == 0 then 0 else Width(bits, n - 1) + bits
  }

  lemma {:induction false} PackBound(ds: seq<int>, bits: nat)
    ensures Pack(ds, bits) < Pow2(Width(bits, |ds|))
  {
    if ds != [] {
      hide Pow2, Or, Low;
      var n := |ds| - 1;
      var hi, lo := Pack(ds[..n], bits), Low(ds[n], bits);
      PackBound(ds[..n], bits);
      LowBound(ds[n], bits);
      OrAbove(lo, hi, bits);
      Pow2Add(Width(bits, n), bits);
      Carry(hi, lo, Pow2(Width(bits, n)), Pow2(bits));
    }
  }

  lemma Carry(hi: nat, lo: nat, h: nat, b: nat)
    requires hi < h && lo < b
    ensures lo + hi * b < h * b
  {
    MulMonotone(hi + 1, h, b);
  }

  lemma MulMonotone(x: int, y: int, b: nat)
    requires x <= y
    ensures x * b <= y * b
  {
  }

  /** Unpacking undoes packing, whatever lies above the packed fields. */
  lemma {:induction false} UnpackPack(ds: seq<int>, bits: nat)
    requires bits > 0 && forall d :: d in ds ==> Fits(d, bits)
    ensures Unpack(Pack(ds, bits), |ds|, bits) == ds
  {
    if ds != [] {
      var init, last := ds[..|ds| - 1], ds[|ds| - 1];
      UnpackPack(init, bits);
      SignedLow(last, bits);
      OrAbove(Low(last, bits), Pack(init, bits), bits);
      DivUnique(Pack(ds, bits), Pow2(bits), Pack(init, bits), Low(last, bits));
      assert ds == init + [last];
    }
  }
}
