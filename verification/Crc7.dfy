/** The 7-bit checksum of SD commands: division by x^7 + x^3 + 1 over GF(2). */
module Crc7 {

  /** A polynomial over GF(2): the set of the exponents whose coefficient is 1. */
  type Poly = set<nat>

  /** Sum and difference. */
  function Xor(a: Poly, b: Poly): (r: Poly)
    ensures forall e :: e in r <==> (e in a) != (e in b)
  {
    (a - b) + (b - a)
  }

  /** Product with x^k. */
  function Shift(a: Poly, k: nat): (r: Poly)
    ensures forall e: nat :: e in r <==> e >= k && e - k in a
  {
    set e | e in a :: e + k
  }

  /** Product with the generator x^7 + x^3 + 1. */
  function TimesG(q: Poly): Poly {
    Xor(Xor(Shift(q, 7), Shift(q, 3)), q)
  }

  ghost predicate Below7(r: Poly) {
    forall e :: e in r ==> e < 7
  }

  /** The polynomial of a bit string, highest exponent first. */
  function PolyOf(m: seq<bool>): Poly {
    if m == [] then {}
    else
      var p := Shift(PolyOf(m[..|m| - 1]), 1);
      if m[|m| - 1] then Xor(p, {0}) else p
  }

  lemma {:induction false} PolyOfBits(m: seq<bool>, e: nat)
    ensures e in PolyOf(m) <==> e < |m| && m[|m| - 1 - e]
    decreases |m|
  {
    if m != [] && e > 0 {
      PolyOfBits(m[..|m| - 1], e - 1);
    }
  }

  /** One shift of the register r with input bit b. */
  function Step(r: Poly, b: bool): Poly {
    var up := Shift(r - {6}, 1);
    if (6 in r) != b then Xor(up, {0, 3}) else up
  }

  function Crc(r: Poly, m: seq<bool>): Poly {
    if m == [] then r else Step(Crc(r, m[..|m| - 1]), m[|m| - 1])
  }

  // ---------------------------------------------------------------- the checksum is a remainder

  lemma StepBelow7(r: Poly, b: bool)
    requires Below7(r)
    ensures Below7(Step(r, b))
  {
  }

  lemma {:induction false} CrcBelow7(r: Poly, m: seq<bool>)
    requires Below7(r)
    ensures Below7(Crc(r, m))
    decreases |m|
  {
    if m != [] {
      CrcBelow7(r, m[..|m| - 1]);
      StepBelow7(Crc(r, m[..|m| - 1]), m[|m| - 1]);
    }
  }

  function Bit(b: bool): Poly { if b then {0} else {} }

  /** A shift multiplies the register by x, adds b x^7, and subtracts the generator if the
      result has degree 7. */
  lemma StepDivides(r: Poly, b: bool)
    requires Below7(r)
    ensures Xor(Shift(r, 1), Shift(Bit(b), 7)) == Xor(TimesG(Bit((6 in r) != b)), Step(r, b))
  {
    var l, s := Xor(Shift(r, 1), Shift(Bit(b), 7)), Xor(TimesG(Bit((6 in r) != b)), Step(r, b));
    forall e ensures e in l <==> e in s { }
  }

  lemma TimesGLinear(a: Poly, b: Poly)
    ensures TimesG(Xor(a, b)) == Xor(TimesG(a), TimesG(b))
  {
    forall e ensures e in TimesG(Xor(a, b)) <==> e in Xor(TimesG(a), TimesG(b)) { }
  }

  lemma ShiftShift(a: Poly, j: nat, k: nat)
    ensures Shift(Shift(a, j), k) == Shift(a, j + k)
  {
  }

  lemma ShiftXor(a: Poly, b: Poly, k: nat)
    ensures Shift(Xor(a, b), k) == Xor(Shift(a, k), Shift(b, k))
  {
  }

  lemma TimesGShift(a: Poly, k: nat)
    ensures TimesG(Shift(a, k)) == Shift(TimesG(a), k)
  {
    ShiftShift(a, k, 7);
    ShiftShift(a, k, 3);
    ShiftShift(a, 7, k);
    ShiftShift(a, 3, k);
    ShiftXor(Shift(a, 7), Shift(a, 3), k);
    ShiftXor(Xor(Shift(a, 7), Shift(a, 3)), a, k);
  }

  /** r0 x^|m| + m x^7 = q (x^7 + x^3 + 1) + crc. */
  ghost predicate Divides(r0: Poly, m: seq<bool>, q: Poly) {
    Xor(Shift(r0, |m|), Shift(PolyOf(m), 7)) == Xor(TimesG(q), Crc(r0, m))
  }

  /** For every bit string and initial register the checksum is the remainder of a division. */
  lemma {:induction false} CrcIsRemainder(r0: Poly, m: seq<bool>) returns (q: Poly)
    requires Below7(r0)
    ensures Divides(r0, m, q) && Below7(Crc(r0, m))
    decreases |m|
  {
    CrcBelow7(r0, m);
    if m == [] {
      q := {};
      NoBits(r0);
    } else {
      var q0 := CrcIsRemainder(r0, m[..|m| - 1]);
      q := Extended(r0, m, q0);
    }
  }

  lemma Extended(r0: Poly, m: seq<bool>, q0: Poly) returns (q: Poly)
    requires m != []
    requires var n := m[..|m| - 1]; Below7(Crc(r0, n)) && Divides(r0, n, q0)
    ensures Divides(r0, m, q)
  {
    var n, b := m[..|m| - 1], m[|m| - 1];
    var r := Crc(r0, n);
    q := Xor(Shift(q0, 1), Bit((6 in r) != b));
    RemainderStep(r0, |n|, PolyOf(n), q0, r, b);
    PolyOfLast(m);
  }

  lemma NoBits(r0: Poly)
    ensures Xor(Shift(r0, 0), Shift({}, 7)) == Xor(TimesG({}), r0)
  {
  }

  /** One more message bit. */
  lemma RemainderStep(r0: Poly, n: nat, p: Poly, q: Poly, r: Poly, b: bool)
    requires Below7(r) && Xor(Shift(r0, n), Shift(p, 7)) == Xor(TimesG(q), r)
    ensures Xor(Shift(r0, n + 1), Shift(Xor(Shift(p, 1), Bit(b)), 7))
         == Xor(TimesG(Xor(Shift(q, 1), Bit((6 in r) != b))), Step(r, b))
  {
    var b0 := Bit((6 in r) != b);
    StepDivides(r, b);
    TimesGLinear(Shift(q, 1), b0);
    TimesGShift(q, 1);
    Regroup(r0, n, p, TimesG(q), r, b, TimesG(b0), Step(r, b));
  }

  lemma PolyOfLast(m: seq<bool>)
    requires m != []
    ensures PolyOf(m) == Xor(Shift(PolyOf(m[..|m| - 1]), 1), Bit(m[|m| - 1]))
  {
    var p := Shift(PolyOf(m[..|m| - 1]), 1);
    assert Xor(p, {}) == p;
  }

  /** Multiplying an equation by x and adding another one. */
  lemma Regroup(r0: Poly, n: nat, p: Poly, g: Poly, r: Poly, b: bool, g1: Poly, r1: Poly)
    requires Xor(Shift(r0, n), Shift(p, 7)) == Xor(g, r)
    requires Xor(Shift(r, 1), Shift(Bit(b), 7)) == Xor(g1, r1)
    ensures Xor(Shift(r0, n + 1), Shift(Xor(Shift(p, 1), Bit(b)), 7)) == Xor(Xor(Shift(g, 1), g1), r1)
  {
    var x, y := Shift(r0, n), Shift(p, 7);
    var g2, r2, c := Shift(g, 1), Shift(r, 1), Shift(Bit(b), 7);
    ShiftXor(x, y, 1);
    ShiftXor(g, r, 1);
    assert Xor(Shift(x, 1), Shift(y, 1)) == Xor(g2, r2);
    ShiftShift(r0, n, 1);
    ShiftShift(p, 7, 1);
    ShiftShift(p, 1, 7);
    ShiftXor(Shift(p, 1), Bit(b), 7);
    XorAssociates(Shift(x, 1), Shift(y, 1), c);
    XorAssociates(g2, r2, c);
    XorAssociates(g2, g1, r1);
  }

  lemma XorAssociates(a: Poly, b: Poly, c: Poly)
    ensures Xor(Xor(a, b), c) == Xor(a, Xor(b, c))
  {
  }

  lemma Extremes(s: Poly) returns (lo: nat, hi: nat)
    requires s != {}
    ensures lo in s && hi in s && forall e :: e in s ==> lo <= e <= hi
  {
    var x :| x in s;
    if s == {x} {
      lo, hi := x, x;
    } else {
      var t := s - {x};
      lo, hi := Extremes(t);
      assert forall e :: e in s ==> e == x || e in t;
      if x < lo { lo := x; }
      if x > hi { hi := x; }
    }
  }

  /** A non-zero multiple of the generator spans more than seven exponents. */
  lemma MultipleIsWide(q: Poly) returns (lo: nat, hi: nat)
    requires q != {}
    ensures lo in TimesG(q) && hi in TimesG(q) && hi >= lo + 7
  {
    var h;
    lo, h := Extremes(q);
    hi := h + 7;
  }

  /** Quotient and remainder are unique. */
  lemma RemainderIsUnique(q: Poly, r: Poly, q1: Poly, r1: Poly)
    requires Below7(r) && Below7(r1) && Xor(TimesG(q), r) == Xor(TimesG(q1), r1)
    ensures q == q1 && r == r1
  {
    var d := Xor(q, q1);
    TimesGLinear(q, q1);
    forall e ensures e in TimesG(d) <==> e in Xor(r, r1) {
      assert e in Xor(TimesG(q), r) <==> e in Xor(TimesG(q1), r1);
    }
    if d != {} {
      var lo, hi := MultipleIsWide(d);
    }
    assert forall e :: e !in d;
    forall e ensures e in q <==> e in q1 { assert e !in d; }
    forall e ensures e in r <==> e in r1 { assert e in Xor(TimesG(q), r) <==> e in Xor(TimesG(q1), r1); }
  }

  // ---------------------------------------------------------------- consequences

  /** The checksum of a concatenation continues from the checksum of its first part. */
  lemma {:induction false} Composes(r: Poly, a: seq<bool>, b: seq<bool>)
    ensures Crc(r, a + b) == Crc(Crc(r, a), b)
    decreases |b|
  {
    if b == [] {
      assert a + b == a;
    } else {
      assert (a + b)[..|a + b| - 1] == a + b[..|b| - 1];
      Composes(r, a, b[..|b| - 1]);
    }
  }

  /** The k highest bits of a register, highest first. */
  function TopBits(r: Poly, k: nat): (s: seq<bool>)
    requires k <= 7
    ensures |s| == k
  {
    seq(k, i requires 0 <= i < k => 6 - i in r)
  }

  /** The part of a register below x^n. */
  function Low(r: Poly, n: nat): (l: Poly)
    ensures forall e :: e in l <==> e in r && e < n
  {
    set e | e in r && e < n
  }

  lemma {:induction false} FeedBack(r: Poly, k: nat)
    requires Below7(r) && k <= 7
    ensures Crc(r, TopBits(r, k)) == Shift(Low(r, 7 - k), k)
    decreases k
  {
    if k > 0 {
      FeedBack(r, k - 1);
      var m := TopBits(r, k);
      assert m[..k - 1] == TopBits(r, k - 1) && m[k - 1] == (7 - k in r);
      assert Crc(r, m) == Step(Crc(r, m[..k - 1]), m[k - 1]);
      FeedOne(r, k);
    } else {
      NothingShifted(r);
    }
  }

  lemma NothingShifted(r: Poly)
    requires Below7(r)
    ensures Shift(Low(r, 7), 0) == r
  {
  }

  lemma FeedOne(r: Poly, k: nat)
    requires 0 < k <= 7
    ensures Step(Shift(Low(r, 8 - k), k - 1), 7 - k in r) == Shift(Low(r, 7 - k), k)
  {
    var t := Shift(Low(r, 8 - k), k - 1);
    assert 6 in t <==> 7 - k in r;
    assert t - {6} == Shift(Low(r, 7 - k), k - 1);
    ShiftShift(Low(r, 7 - k), k - 1, 1);
  }

  /** A message followed by its checksum has checksum 0. */
  lemma SelfCheck(m: seq<bool>)
    ensures Crc({}, m + TopBits(Crc({}, m), 7)) == {}
  {
    var r := Crc({}, m);
    CrcBelow7({}, m);
    Composes({}, m, TopBits(r, 7));
    FeedBack(r, 7);
  }

  /** Two messages of equal length that differ, and only inside a window of seven bits, have
      different checksums, whatever the initial register. */
  lemma BurstIsDetected(r0: Poly, m: seq<bool>, m1: seq<bool>, j: nat)
    requires Below7(r0) && |m| == |m1| && m != m1
    requires forall i :: 0 <= i < |m| && !(j <= i < j + 7) ==> m[i] == m1[i]
    ensures Crc(r0, m) != Crc(r0, m1)
  {
    if Crc(r0, m) == Crc(r0, m1) {
      var d := DifferenceIsMultiple(r0, m, m1);
      var s, n := Xor(PolyOf(m), PolyOf(m1)), |m|;
      var i :| 0 <= i < n && m[i] != m1[i];
      DiffersAt(m, m1, n - 1 - i);
      forall e | e in s ensures n - 7 - j <= e < n - j { DiffersAt(m, m1, e); }
      var lo, hi := MultipleSpans(d, s);
    }
  }

  /** A non-zero polynomial whose product with x^7 is a multiple of the generator has terms at
      least seven exponents apart. */
  lemma MultipleSpans(d: Poly, s: Poly) returns (lo: nat, hi: nat)
    requires TimesG(d) == Shift(s, 7) && s != {}
    ensures lo in s && hi in s && hi >= lo + 7
  {
    var x :| x in s;
    assert x + 7 in TimesG(d);
    assert TimesG({}) == {};
    var l, h := MultipleIsWide(d);
    lo, hi := l - 7, h - 7;
  }

  lemma DiffersAt(m: seq<bool>, m1: seq<bool>, e: nat)
    requires |m| == |m1|
    ensures e in Xor(PolyOf(m), PolyOf(m1)) <==> e < |m| && m[|m| - 1 - e] != m1[|m| - 1 - e]
  {
    PolyOfBits(m, e);
    PolyOfBits(m1, e);
  }

  /** Equal checksums make the difference of two messages a multiple of the generator. */
  lemma DifferenceIsMultiple(r0: Poly, m: seq<bool>, m1: seq<bool>) returns (d: Poly)
    requires Below7(r0) && |m| == |m1| && Crc(r0, m) == Crc(r0, m1)
    ensures TimesG(d) == Shift(Xor(PolyOf(m), PolyOf(m1)), 7)
  {
    var q := CrcIsRemainder(r0, m);
    var q1 := CrcIsRemainder(r0, m1);
    d := Xor(q, q1);
    TimesGLinear(q, q1);
    ShiftXor(PolyOf(m), PolyOf(m1), 7);
    Cancel(Shift(r0, |m|), Shift(PolyOf(m), 7), Shift(PolyOf(m1), 7), TimesG(q), TimesG(q1), Crc(r0, m));
  }

  lemma Cancel(a: Poly, b: Poly, c: Poly, g: Poly, h: Poly, r: Poly)
    requires Xor(a, b) == Xor(g, r) && Xor(a, c) == Xor(h, r)
    ensures Xor(b, c) == Xor(g, h)
  {
    forall e ensures e in Xor(b, c) <==> e in Xor(g, h) {
      assert e in Xor(a, b) <==> e in Xor(g, r);
      assert e in Xor(a, c) <==> e in Xor(h, r);
    }
  }

  // ---------------------------------------------------------------- the loop

  /** The register value c as a polynomial. */
  function Coefficients(c: bv32): Poly {
    set e: nat | e < 7 && BitOf(c, e)
  }

  function BitOf(c: bv32, e: nat): bool
    requires e < 32
  {
    (c >> e) & 1 == 1
  }

  /** The low n bits of x, highest first. */
  function LowBits(x: bv32, n: nat): seq<bool>
    requires n <= 32
  {
    if n == 0 then [] else [BitOf(x, n - 1)] + LowBits(x, n - 1)
  }

  /** The new register value the loop computes. */
  function Shifted(c: bv32, bit: bv32): bv32 {
    var b0 := ((c >> 6) ^ bit) & 1;
    b0 | ((((c >> 2) ^ b0) & 1) << 3) | ((c << 1) & 0x76)
  }

  lemma ShiftedBits(c: bv32, bit: bv32)
    requires bit <= 1
    ensures var s, b0 := Shifted(c, bit), BitOf(c, 6) != (bit == 1);
            && (BitOf(s, 0) <==> b0)
            && (BitOf(s, 1) <==> BitOf(c, 0))
            && (BitOf(s, 2) <==> BitOf(c, 1))
            && (BitOf(s, 3) <==> BitOf(c, 2) != b0)
            && (BitOf(s, 4) <==> BitOf(c, 3))
            && (BitOf(s, 5) <==> BitOf(c, 4))
            && (BitOf(s, 6) <==> BitOf(c, 5))
  {
  }

  lemma ShiftedIsStep(c: bv32, bit: bv32)
    requires bit <= 1
    ensures Coefficients(Shifted(c, bit)) == Step(Coefficients(c), bit == 1)
  {
    ShiftedBits(c, bit);
    var s, t := Coefficients(Shifted(c, bit)), Step(Coefficients(c), bit == 1);
    assert 6 in Coefficients(c) <==> BitOf(c, 6);
    forall e ensures e in s <==> e in t {
      if e == 0 { } else if e == 1 { } else if e == 2 { } else if e == 3 { } else if e == 4 { }
        else if e == 5 { } else if e == 6 { } else { }
    }
  }

  lemma {:induction false} CrcFront(r: Poly, b: bool, m: seq<bool>)
    ensures Crc(r, [b] + m) == Crc(Step(r, b), m)
  {
    Composes(r, [b], m);
    assert [b][..0] == [];
    assert Crc(r, [b]) == Step(Crc(r, []), b);
  }

  /** crc7: shift the low `count` bits of `bits` through the register. */
  method Crc7(crc7: bv32, bits: bv32, count: nat) returns (r: bv32)
    requires count <= 32
    ensures Coefficients(r) == Crc(Coefficients(crc7), LowBits(bits, count))
  {
    r := crc7;
    var n: nat := count;
    while n != 0
      invariant n <= count
      invariant Crc(Coefficients(r), LowBits(bits, n)) == Crc(Coefficients(crc7), LowBits(bits, count))
    {
      n := n - 1;
      var b0 := ((r >> 6) ^ (bits >> n)) & 1;
      var crc := b0 | ((((r >> 2) ^ b0) & 1) << 3) | ((r << 1) & 0x76);
      SameBit(r >> 6, bits >> n);
      assert crc == Shifted(r, (bits >> n) & 1);
      ShiftIn(r, bits, n);
      r := crc;
    }
  }

  /** One round of the loop consumes one bit of the message. */
  lemma ShiftIn(r: bv32, bits: bv32, n: nat)
    requires n < 32
    ensures Crc(Coefficients(r), LowBits(bits, n + 1)) ==
      Crc(Coefficients(Shifted(r, (bits >> n) & 1)), LowBits(bits, n))
  {
    LowestBit(bits >> n);
    ShiftedIsStep(r, (bits >> n) & 1);
    CrcFront(Coefficients(r), BitOf(bits, n), LowBits(bits, n));
  }

  lemma LowestBit(x: bv32)
    ensures x & 1 <= 1
  {
  }

  lemma SameBit(a: bv32, b: bv32)
    ensures (a ^ b) & 1 == (a ^ (b & 1)) & 1
  {
  }
}
