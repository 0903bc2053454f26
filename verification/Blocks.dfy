/** Power-of-two block counts and naturally aligned runs of blocks. */
module Blocks {
  import opened Basics

  const BLOCK: nat := 4096

  /** The least power of two greater than x. */
  function Above(x: nat): (n: nat)
    ensures n > x && n >= 1
    ensures x > 0 ==> n <= 2 * x
  {
    if x == 0 then 1 else 2 * Above(x / 2)
  }

  /** Number of blocks for a region of `size` bytes, before truncation to 16 bits. */
  function Count(size: nat): nat {
    if size == 0 then 1 else Above((size - 1) / BLOCK)
  }

  function Pow2(e: nat): (n: nat)
    ensures n >= 1
  {
    if e == 0 then 1 else 2 * Pow2(e - 1)
  }

  ghost predicate IsPow2(n: nat) {
    exists e: nat :: Pow2(e) == n
  }

  lemma {:induction false} AbovePow2(x: nat)
    ensures IsPow2(Above(x))
  {
    if x == 0 {
      assert Pow2(0) == 1;
    } else {
      AbovePow2(x / 2);
      var e: nat :| Pow2(e) == Above(x / 2);
      assert Pow2(e + 1) == Above(x);
    }
  }

  lemma {:induction false} Pow2Factor(a: nat, b: nat) returns (m: nat)
    requires a <= b
    ensures m >= 1 && Pow2(b) == Pow2(a) * m
  {
    if a == b { m := 1; } else {
      var m1 := Pow2Factor(a, b - 1);
      m := 2 * m1;
    }
  }

  lemma {:induction false} Pow2Monotone(a: nat, b: nat)
    requires a < b
    ensures Pow2(a) < Pow2(b)
  {
    if a + 1 < b { Pow2Monotone(a, b - 1); }
  }

  /** Of two powers of two the smaller divides the larger. */
  lemma Divides(a: nat, b: nat) returns (m: nat)
    requires IsPow2(a) && IsPow2(b) && a <= b
    ensures m >= 1 && b == a * m
  {
    var i: nat :| Pow2(i) == a;
    var j: nat :| Pow2(j) == b;
    if i > j { Pow2Monotone(j, i); }
    m := Pow2Factor(i, j);
  }

  /** The block count fits the region, and no smaller power of two does. */
  lemma CountIsLeast(size: nat)
    ensures IsPow2(Count(size)) && size <= Count(size) * BLOCK
    ensures forall n: nat :: IsPow2(n) && size <= n * BLOCK ==> Count(size) <= n
  {
    if size == 0 { assert Pow2(0) == 1; } else { AbovePow2((size - 1) / BLOCK); }
    var c := Count(size);
    forall n: nat | IsPow2(n) && size <= n * BLOCK ensures c <= n {
      if n < c { AtLeastDouble(n, c); }
    }
  }

  lemma AtLeastDouble(a: nat, b: nat)
    requires IsPow2(a) && IsPow2(b) && a < b
    ensures 2 * a <= b
  {
    var m := Divides(a, b);
    Monotone(a, m, 1);
    Monotone(a, 2, m);
  }

  /** Rounding a size up to a multiple of four does not change its block count. */
  function Align4(size: nat): (r: nat)
    ensures size <= r < size + 4 && r % 4 == 0
  {
    (size + 3) / 4 * 4
  }

  lemma CountAlign4(size: nat)
    ensures Count(Align4(size)) == Count(size)
  {
    if size > 0 { SameBlocks(size, Align4(size) / 4, (size - 1) / BLOCK); }
  }

  lemma SameBlocks(size: nat, c: nat, q: nat)
    requires size > 0 && size <= 4 * c < size + 4 && q == (size - 1) / BLOCK
    ensures (4 * c - 1) / BLOCK == q
  {
    assert BLOCK * q <= 4 * c - 1;
    assert 4 * c < BLOCK * (q + 1) + 4;
    assert c < 1024 * (q + 1) + 1;
  }

  function Low16(x: nat): (r: nat)
    ensures r < U16
  {
    x % U16
  }

  lemma DoubleLow(c: nat)
    ensures Low16(Low16(c) * 2) == Low16(c * 2)
    ensures Low16(Low16(c) * 2 + 1) == Low16(c * 2 + 1)
  {
    var q, l := c / U16, Low16(c);
    var over := 2 * l >= U16;
    var r := if over then 2 * l - U16 else 2 * l;
    var p := if over then 1 else 0;
    DivUnique(l * 2, U16, p, r);
    DivUnique(l * 2 + 1, U16, p, r + 1);
    DivUnique(c * 2, U16, 2 * q + p, r);
    DivUnique(c * 2 + 1, U16, 2 * q + p, r + 1);
  }

  lemma LowPlusOne(c: nat)
    requires c >= 1
    ensures Low16(Low16(c - 1) + 1) == Low16(c)
  {
    var q := (c - 1) / U16;
    assert c == U16 * q + (Low16(c - 1) + 1);
  }

  /** Sixteen bits hold the count exactly up to 128 MiB; beyond that the truncated count is 0. */
  lemma CountTruncates(size: nat)
    ensures size <= 0x800_0000 ==> Count(size) % U16 == Count(size) <= 0x8000
    ensures size > 0x800_0000 ==> Count(size) % U16 == 0
  {
    CountIsLeast(size);
    Pow2Literals();
    if size <= 0x800_0000 {
      assert IsPow2(0x8000);
    } else {
      assert Count(size) > 0x8000;
      assert IsPow2(0x8000);
      var m := Divides(0x8000, Count(size));
      var i: nat :| Pow2(i) == Count(size);
      if i < 16 { if i < 15 { Pow2Monotone(i, 15); } }
      var k := Pow2Factor(16, i);
      assert Count(size) == U16 * k;
    }
  }

  lemma Pow2Literals()
    ensures Pow2(15) == 0x8000 && Pow2(16) == U16
  {
    assert Pow2(4) == 16;
    assert Pow2(8) == 256;
    assert Pow2(12) == 4096;
  }

  /** Block s starts a naturally aligned run of n blocks. */
  predicate Aligned(s: nat, n: nat)
    requires n > 0
  {
    s % n == 0
  }

  ghost predicate Disjoint(s: int, a: int, t: int, b: int) {
    s + a <= t || t + b <= s
  }

  ghost predicate Inside(s: int, a: int, t: int, b: int) {
    t <= s && s + a <= t + b
  }

  /** Naturally aligned runs nest: the smaller lies inside the larger or outside it. */
  lemma AlignedNest(s: nat, a: nat, t: nat, b: nat)
    requires IsPow2(a) && IsPow2(b) && 0 < a <= b && Aligned(s, a) && Aligned(t, b)
    ensures Disjoint(s, a, t, b) || Inside(s, a, t, b)
  {
    var m := Divides(a, b);
    var u, v := s / a, t / b;
    assert s == a * u && t == b * v;
    MulAssoc(a, m, v);
    if u < m * v {
      Multiples(a, u, 1, m * v);
    } else if m * v + m <= u {
      Multiples(a, m * v, m, u);
    } else {
      Multiples(a, u, 1, m * v + m);
      Multiples(a, m * v, 0, u);
      MulDistributes(a, m * v, m);
    }
  }

  /** Comparing multiples of a. */
  lemma Multiples(a: nat, x: nat, y: nat, z: nat)
    requires x + y <= z
    ensures a * x + a * y <= a * z
  {
    MulDistributes(a, x, y);
    Monotone(a, x + y, z);
  }

  /** A run aligned to n that starts below a multiple of n ends at or below it. */
  lemma AlignedFits(s: nat, n: nat, total: nat)
    requires n > 0 && Aligned(s, n) && total % n == 0 && s < total
    ensures s + n <= total
  {
    var u, v := s / n, total / n;
    assert s == n * u && total == n * v;
    if u >= v { Monotone(n, v, u); }
    Monotone(n, u + 1, v);
  }

  lemma Pow2Mod(a: nat, b: nat)
    requires IsPow2(a) && IsPow2(b) && 0 < a <= b
    ensures b % a == 0
  {
    var m := Divides(a, b);
    MultipleMod(a, m);
  }
}
