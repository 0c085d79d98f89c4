/** The C scalar types the kernel is written in, and 32-bit wrap-around. */
module CTypes {

  type byte = x: int | 0 <= x < 0x100 witness 0

  const TWO_32: int := 0x1_0000_0000

  type u32 = x: int | 0 <= x < 0x1_0000_0000 witness 0

  /** What a 32-bit unsigned operation leaves of a mathematical result. */
  function Wrap32(x: int): (r: u32)
    ensures 0 <= x < TWO_32 ==> r == x
    ensures TWO_32 <= x < 2 * TWO_32 ==> r == x - TWO_32
    ensures -TWO_32 <= x < 0 ==> r == x + TWO_32
  {
    x % TWO_32
  }

  /** A 32-bit pattern read as a signed number: what becomes of a count returned as ssize_t. */
  function Signed(x: u32): (r: int)
    ensures r == x <==> x < 0x8000_0000
  {
    if x < 0x8000_0000 then x else x - TWO_32
  }

  function Min(a: int, b: int): (r: int)
    ensures r <= a && r <= b && (r == a || r == b)
  {
    if a < b then a else b
  }

  function Max(a: int, b: int): (r: int)
    ensures r >= a && r >= b && (r == a || r == b)
  {
    if a < b then b else a
  }

  function Radix(n: nat): nat { if n == 0 then 1 else 0x100 * Radix(n - 1) }

  /** The n bytes at address a, read as a little-endian number. */
  function LoadLE(m: seq<byte>, a: nat, n: nat): (r: nat)
    requires a + n <= |m|
    ensures r < Radix(n)
    decreases n
  {
    if n == 0 then 0 else (m[a] as int) + 0x100 * LoadLE(m, a + 1, n - 1)
  }

  /** The bytes m with the n low bytes of v stored at address a, lowest first. */
  function PutLE(m: seq<byte>, a: nat, n: nat, v: nat): (r: seq<byte>)
    requires a + n <= |m|
    ensures |r| == |m|
    ensures forall x :: 0 <= x < |m| && !(a <= x < a + n) ==> r[x] == m[x]
    ensures v < Radix(n) ==> LoadLE(r, a, n) == v
    decreases n
  {
    if n == 0 then m else PutLE(m[a := v % 0x100], a + 1, n - 1, v / 0x100)
  }

  /** The little-endian 32-bit word at address a. */
  function Load32(m: seq<byte>, a: nat): u32
    requires a + 4 <= |m|
  {
    assert Radix(4) == TWO_32;
    LoadLE(m, a, 4)
  }

  /** The bytes count 1, 2^8, 2^16 and 2^24. */
  lemma LittleEndian(m: seq<byte>, a: nat)
    requires a + 4 <= |m|
    ensures LoadLE(m, a, 2) == (m[a] as int) + 0x100 * (m[a + 1] as int)
    ensures Load32(m, a) ==
            (m[a] as int) + 0x100 * (m[a + 1] as int) + 0x1_0000 * (m[a + 2] as int) + 0x100_0000 * (m[a + 3] as int)
  {
    LoadStep(m, a, 2);
    LoadStep(m, a + 1, 1);
    LoadStep(m, a, 4);
    LoadStep(m, a + 1, 3);
    LoadStep(m, a + 2, 2);
    LoadStep(m, a + 3, 1);
  }

  lemma LoadStep(m: seq<byte>, a: nat, n: nat)
    requires 0 < n && a + n <= |m|
    ensures LoadLE(m, a, n) == (m[a] as int) + (if n == 1 then 0 else 0x100 * LoadLE(m, a + 1, n - 1))
  {
  }

  lemma LoadSame(m: seq<byte>, m': seq<byte>, a: nat, n: nat)
    requires a + n <= |m| && a + n <= |m'|
    requires forall x :: a <= x < a + n ==> m'[x] == m[x]
    ensures LoadLE(m', a, n) == LoadLE(m, a, n)
    decreases n
  {
    if n > 0 { LoadSame(m, m', a + 1, n - 1); }
  }

  /** Bytes pos..pos + n of data, as far as there are any. */
  function Slice(data: seq<byte>, pos: nat, n: nat): seq<byte> {
    if pos >= |data| then [] else data[pos..Min(pos + n, |data|)]
  }

  /** As many bytes as are there, each from its place. */
  lemma SliceAt(data: seq<byte>, pos: nat, n: nat)
    ensures |Slice(data, pos, n)| == if pos >= |data| then 0 else if pos + n <= |data| then n else |data| - pos
    ensures forall i :: 0 <= i < |Slice(data, pos, n)| ==> pos + i < |data| && Slice(data, pos, n)[i] == data[pos + i]
  {
  }

  lemma SubSlice(s: seq<byte>, a: nat, b: nat, c: nat, d: nat)
    requires a <= b <= |s| && c <= d <= b - a
    ensures s[a..b][c..d] == s[a + c..a + d]
  {
    var (x, y) := (s[a..b][c..d], s[a + c..a + d]);
    forall i | 0 <= i < |x| ensures x[i] == y[i] { }
  }
}
