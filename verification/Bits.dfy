/** 32-bit words as bits, and bitmaps made of them, as the frame allocators use them. */
module Bits {
  import opened CTypes

  function Pow2(k: nat): (r: nat)
    ensures r > 0
  {
    if k == 0 then 1 else 2 * Pow2(k - 1)
  }

  /** The bits a and b have in common, and all the bits they have: C's & and |. */
  function And(a: nat, b: nat): nat {
    if a == 0 || b == 0 then 0 else 2 * And(a / 2, b / 2) + (if a % 2 == 1 && b % 2 == 1 then 1 else 0)
  }

  function Or(a: nat, b: nat): nat
    decreases a + b
  {
    if a == 0 then b else if b == 0 then a
    else 2 * Or(a / 2, b / 2) + (if a % 2 == 1 || b % 2 == 1 then 1 else 0)
  }

  /** C's ~ on 32 bits. */
  function Not(a: u32): u32 { 0xFFFF_FFFF - a }

  predicate Bit(w: nat, k: nat) { if k == 0 then w % 2 == 1 else Bit(w / 2, k - 1) }

  lemma {:induction false} BitZero(k: nat)
    ensures !Bit(0, k)
  {
    if k > 0 { BitZero(k - 1); }
  }

  lemma {:induction false} AndBit(a: nat, b: nat, k: nat)
    ensures Bit(And(a, b), k) <==> Bit(a, k) && Bit(b, k)
  {
    if a == 0 || b == 0 { BitZero(k); }
    else if k > 0 { AndBit(a / 2, b / 2, k - 1); }
  }

  lemma {:induction false} OrBit(a: nat, b: nat, k: nat)
    ensures Bit(Or(a, b), k) <==> Bit(a, k) || Bit(b, k)
  {
    if a == 0 || b == 0 { BitZero(k); }
    else if k > 0 { OrBit(a / 2, b / 2, k - 1); }
  }

  lemma {:induction false} PowBit(n: nat, k: nat)
    ensures Bit(Pow2(n), k) <==> k == n
  {
    if n == 0 { if k > 0 { BitZero(k - 1); } }
    else if k > 0 { PowBit(n - 1, k - 1); }
  }

  /** Taking a from all ones turns every bit round. */
  lemma {:induction false} ComplementBit(a: nat, n: nat, k: nat)
    requires a < Pow2(n) && k < n
    ensures Bit(Pow2(n) - 1 - a, k) <==> !Bit(a, k)
  {
    ComplementHalf(Pow2(n - 1), a);
    assert Pow2(n) == 2 * Pow2(n - 1);
    if k > 0 { ComplementBit(a / 2, n - 1, k - 1); }
  }

  lemma ComplementHalf(p: nat, a: nat)
    requires a < 2 * p
    ensures (2 * p - 1 - a) / 2 == p - 1 - a / 2 && (2 * p - 1 - a) % 2 == 1 - a % 2
  {
  }

  ghost predicate Ones(w: nat, n: nat) { forall k :: 0 <= k < n ==> Bit(w, k) }

  lemma {:induction false} AllOnes(w: nat, n: nat)
    requires w < Pow2(n)
    ensures w == Pow2(n) - 1 <==> Ones(w, n)
  {
    if n > 0 {
      AllOnes(w / 2, n - 1);
      if Ones(w, n) {
        assert Bit(w, 0) && w % 2 == 1;
        forall k | 0 <= k < n - 1 ensures Bit(w / 2, k) { assert Bit(w, k + 1); }
        assert Ones(w / 2, n - 1) && w / 2 == Pow2(n - 1) - 1;
      }
      if w == Pow2(n) - 1 {
        forall k | 0 <= k < n ensures Bit(w, k) {
          ComplementBit(0, n, k);
          BitZero(k);
        }
      }
    }
  }

  lemma {:induction false} SameBits(a: nat, b: nat)
    requires forall k :: 0 <= k <= a + b ==> (Bit(a, k) <==> Bit(b, k))
    ensures a == b
    decreases a + b
  {
    if a + b > 0 {
      assert Bit(a, 0) <==> Bit(b, 0);
      forall k | 0 <= k <= a / 2 + b / 2 ensures Bit(a / 2, k) <==> Bit(b / 2, k) {
        assert Bit(a, k + 1) <==> Bit(b, k + 1);
      }
      SameBits(a / 2, b / 2);
    }
  }

  lemma {:induction false} AndBelow(a: nat, b: nat)
    ensures And(a, b) <= a && And(a, b) <= b
  {
    if a != 0 && b != 0 { AndBelow(a / 2, b / 2); }
  }

  lemma {:induction false} OrBelow(a: nat, b: nat, n: nat)
    requires a < Pow2(n) && b < Pow2(n)
    ensures Or(a, b) < Pow2(n)
  {
    if a != 0 && b != 0 { OrBelow(a / 2, b / 2, n - 1); }
  }

  lemma {:induction false} PowBelow(k: nat, n: nat)
    requires k < n
    ensures Pow2(k) < Pow2(n)
  {
    if k < n - 1 { PowBelow(k, n - 1); }
  }

  /** Masking with n ones keeps the low n bits. */
  lemma {:induction false} AndLow(a: nat, n: nat)
    ensures And(a, Pow2(n) - 1) == a % Pow2(n)
  {
    if n == 0 { }
    else if a == 0 { }
    else {
      AndLow(a / 2, n - 1);
      HalfMod(a, Pow2(n - 1));
    }
  }

  lemma HalfMod(a: nat, p: nat)
    requires p > 0
    ensures a % (2 * p) == 2 * (a / 2 % p) + a % 2
  {
    var (q, r) := (a / 2 / p, a / 2 % p);
    assert a == q * (2 * p) + (2 * r + a % 2);
    QuotRem(a, q, 2 * r + a % 2, 2 * p);
  }

  lemma QuotRem(a: nat, q: nat, r: nat, d: nat)
    requires d > 0 && r < d && a == q * d + r
    ensures a / d == q && a % d == r
  {
    var k := a / d - q;
    assert k * d == r - a % d;
    assert k >= 1 ==> (k - 1) * d >= 0;
    assert k <= -1 ==> (-k - 1) * d >= 0;
  }

  lemma AndEven(a: nat, k: nat)
    ensures And(a, 2 * k) == 2 * And(a / 2, k)
  {
    if a != 0 && k != 0 { assert (2 * k) / 2 == k && (2 * k) % 2 == 0; }
  }

  /** The number the low n bits make. */
  function Low(a: nat, n: nat): nat { a % Pow2(n) }

  lemma LowStep(a: nat, n: nat)
    requires n > 0
    ensures Low(a, n) == 2 * Low(a / 2, n - 1) + a % 2
  {
    HalfMod(a, Pow2(n - 1));
  }

  lemma LowEnds(a: nat, n: nat)
    ensures Low(a, 0) == 0 && (a < Pow2(n) ==> Low(a, n) == a)
  {
    if a < Pow2(n) { QuotRem(a, 0, a, Pow2(n)); }
  }

  /** Masking with ones above n zeros clears the low n bits. */
  lemma {:induction false} AndHigh(a: nat, m: nat, n: nat)
    requires a < Pow2(m) && n <= m && Pow2(n) <= Pow2(m)
    ensures And(a, Pow2(m) - Pow2(n)) == a - Low(a, n)
    decreases n
  {
    hide And, Low;
    if n == 0 {
      AndOnes(a, m);
    } else {
      AndHigh(a / 2, m - 1, n - 1);
      AndEven(a, Pow2(m - 1) - Pow2(n - 1));
      LowStep(a, n);
    }
  }

  lemma AndOnes(a: nat, m: nat)
    requires a < Pow2(m)
    ensures And(a, Pow2(m) - Pow2(0)) == a - Low(a, 0)
  {
    AndLow(a, m);
    LowEnds(a, m);
  }

  lemma Pow32()
    ensures Pow2(32) == 0x1_0000_0000
  {
    assert Pow2(8) == 0x100;
    assert Pow2(12) == 0x1000;
    assert Pow2(16) == 0x1_0000;
    assert Pow2(20) == 0x10_0000;
    assert Pow2(24) == 0x100_0000;
    assert Pow2(28) == 0x1000_0000;
  }

  /** A bit as a 32-bit mask. */
  function Mask(k: nat): u32
    requires k < 32
  {
    PowBelow(k, 32);
    Pow32();
    Pow2(k)
  }

  /** w & (1 << k) != 0. */
  function Test(w: u32, k: nat): bool
    requires k < 32
  {
    And(w, Mask(k)) != 0
  }

  /** w | (1 << k). */
  function SetBit(w: u32, k: nat): u32
    requires k < 32
  {
    Pow32();
    OrBelow(w, Mask(k), 32);
    Or(w, Mask(k))
  }

  /** w & ~(1 << k). */
  function ClearBit(w: u32, k: nat): u32
    requires k < 32
  {
    AndBelow(w, Not(Mask(k)));
    And(w, Not(Mask(k)))
  }

  lemma TestIs(w: u32, k: nat)
    requires k < 32
    ensures Test(w, k) <==> Bit(w, k)
  {
    var a := And(w, Mask(k));
    AndBit(w, Mask(k), k);
    PowBit(k, k);
    BitZero(k);
    if a != 0 {
      if !Bit(w, k) {
        forall j | 0 <= j <= a + 0 ensures Bit(a, j) <==> Bit(0, j) {
          AndBit(w, Mask(k), j);
          PowBit(k, j);
          BitZero(j);
        }
        SameBits(a, 0);
      }
    }
  }

  lemma SetBitIs(w: u32, k: nat, j: nat)
    requires k < 32
    ensures Bit(SetBit(w, k), j) <==> j == k || Bit(w, j)
  {
    OrBit(w, Mask(k), j);
    PowBit(k, j);
  }

  lemma ClearBitIs(w: u32, k: nat, j: nat)
    requires k < 32 && j < 32
    ensures Bit(ClearBit(w, k), j) <==> j != k && Bit(w, j)
  {
    AndBit(w, Not(Mask(k)), j);
    Pow32();
    ComplementBit(Mask(k), 32, j);
    PowBit(k, j);
  }

  lemma FullIs(w: u32)
    ensures w == 0xFFFF_FFFF <==> forall k :: 0 <= k < 32 ==> Test(w, k)
  {
    Pow32();
    hide Bit, And;
    AllOnes(w, 32);
    forall k: nat | k < 32 ensures Test(w, k) <==> Bit(w, k) { TestIs(w, k); }
  }

  // ---------------------------------------------------------------- bitmaps

  /** The bits of a bitmap, in order. */
  function BitsOf(words: seq<u32>): (s: seq<bool>)
    ensures |s| == 32 * |words|
    ensures forall f :: 0 <= f < |s| ==> s[f] == Test(words[f / 32], f % 32)
  {
    seq(32 * |words|, f requires 0 <= f < 32 * |words| => Test(words[f / 32], f % 32))
  }

  /** Setting one bit of one word sets one bit of the bitmap, and clearing clears it. */
  lemma SetBitOf(words: seq<u32>, f: nat)
    requires f < 32 * |words|
    ensures BitsOf(words[f / 32 := SetBit(words[f / 32], f % 32)]) == BitsOf(words)[f := true]
  {
    var r := words[f / 32 := SetBit(words[f / 32], f % 32)];
    forall g | 0 <= g < 32 * |words| ensures BitsOf(r)[g] == (g == f || BitsOf(words)[g]) {
      TestIs(words[g / 32], g % 32);
      TestIs(r[g / 32], g % 32);
      SetBitIs(words[f / 32], f % 32, g % 32);
    }
  }

  lemma ClearBitOf(words: seq<u32>, f: nat)
    requires f < 32 * |words|
    ensures BitsOf(words[f / 32 := ClearBit(words[f / 32], f % 32)]) == BitsOf(words)[f := false]
  {
    var r := words[f / 32 := ClearBit(words[f / 32], f % 32)];
    forall g | 0 <= g < 32 * |words| ensures BitsOf(r)[g] == (g != f && BitsOf(words)[g]) {
      TestIs(words[g / 32], g % 32);
      TestIs(r[g / 32], g % 32);
      ClearBitIs(words[f / 32], f % 32, g % 32);
    }
  }

  // ---------------------------------------------------------------- counting

  /** How often x occurs in s. */
  function Count(s: seq<bool>, x: bool): (n: nat)
    ensures n <= |s|
  {
    if s == [] then 0 else (if s[0] == x then 1 else 0) + Count(s[1..], x)
  }

  lemma {:induction false} CountUpdate(s: seq<bool>, k: nat, x: bool)
    requires k < |s| && s[k] != x
    ensures Count(s[k := x], x) == Count(s, x) + 1 && Count(s[k := x], !x) == Count(s, !x) - 1
  {
    if k == 0 { assert s[k := x][1..] == s[1..]; }
    else {
      assert s[k := x][1..] == s[1..][k - 1 := x];
      CountUpdate(s[1..], k - 1, x);
    }
  }

  lemma {:induction false} CountAll(s: seq<bool>, x: bool)
    ensures Count(s, x) == |s| <==> forall k :: 0 <= k < |s| ==> s[k] == x
    ensures Count(s, x) == 0 <==> forall k :: 0 <= k < |s| ==> s[k] != x
  {
    if s != [] {
      CountAll(s[1..], x);
      assert forall k :: 0 < k < |s| ==> s[k] == s[1..][k - 1];
      assert forall k :: 0 <= k < |s| - 1 ==> s[1..][k] == s[k + 1];
    }
  }

  // ---------------------------------------------------------------- searching

  /** The first clear bit from lo on, or hi. */
  function FirstClear(bits: seq<bool>, lo: nat, hi: nat): (f: nat)
    requires lo <= hi <= |bits|
    ensures lo <= f <= hi && (f < hi ==> !bits[f]) && forall k :: lo <= k < f ==> bits[k]
    decreases hi - lo
  {
    if lo == hi || !bits[lo] then lo else FirstClear(bits, lo + 1, hi)
  }

  lemma FirstClearStep(bits: seq<bool>, lo: nat, hi: nat)
    requires lo < hi <= |bits| && bits[lo]
    ensures FirstClear(bits, lo, hi) == FirstClear(bits, lo + 1, hi)
  {
  }

  lemma FirstClearHere(bits: seq<bool>, lo: nat, hi: nat)
    requires lo < hi <= |bits| && !bits[lo]
    ensures FirstClear(bits, lo, hi) == lo
  {
  }

  lemma {:induction false} FirstClearSkip(bits: seq<bool>, lo: nat, mid: nat, hi: nat)
    requires lo <= mid <= hi <= |bits| && forall f :: lo <= f < mid ==> bits[f]
    ensures FirstClear(bits, lo, hi) == FirstClear(bits, mid, hi)
    decreases mid - lo
  {
    if lo < mid { FirstClearSkip(bits, lo + 1, mid, hi); }
  }
}
