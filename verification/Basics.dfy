/** What several modules share: optional values, word sizes, and multiplication and division laws. */
module Basics {

  datatype Option<T> = None | Some(value: T)

  const U16: nat := 0x1_0000
  const U31: nat := 0x8000_0000
  const U32: nat := 0x1_0000_0000

  lemma Monotone(n: int, a: int, b: int)
    requires n >= 0
    ensures a <= b ==> n * a <= n * b
  {
  }

  lemma MulAssoc(a: int, b: int, c: int)
    ensures (a * b) * c == a * (b * c)
  {
  }

  lemma MulDistributes(a: int, b: int, c: int)
    ensures a * (b + c) == a * b + a * c
  {
  }

  /** Quotient and remainder are unique. */
  lemma DivUnique(x: int, n: int, q: int, r: int)
    requires n > 0 && x == n * q + r && 0 <= r < n
    ensures x / n == q && x % n == r
  {
    var d := x / n - q;
    assert n * d == r - x % n by { MulDistributes(n, x / n, -q); }
    Monotone(n, 1, d);
    Monotone(n, d, -1);
  }

  lemma MultipleMod(a: nat, m: nat)
    requires a > 0
    ensures (a * m) % a == 0
  {
    DivUnique(a * m, a, m, 0);
  }

  /** Parts one behind the other. */
  function Flat<T>(parts: seq<seq<T>>): seq<T>
    decreases |parts|
  {
    if parts == [] then [] else parts[0] + Flat(parts[1..])
  }

  lemma {:induction false} FlatLength<T>(parts: seq<seq<T>>, n: nat)
    requires forall j :: 0 <= j < |parts| ==> |parts[j]| == n
    ensures |Flat(parts)| == |parts| * n
    decreases |parts|
  {
    if parts != [] {
      FlatLength(parts[1..], n);
      MulDistributes(n, |parts|, -1);
    }
  }

  /** Parts of n elements each: what lies at i is in part i / n. */
  lemma {:induction false} FlatAt<T>(parts: seq<seq<T>>, n: nat, i: nat)
    requires n > 0 && (forall j :: 0 <= j < |parts| ==> |parts[j]| == n) && i < |Flat(parts)|
    ensures i / n < |parts| && Flat(parts)[i] == parts[i / n][i % n]
    decreases |parts|
  {
    if i < n {
      DivUnique(i, n, 0, i);
    } else {
      var q := (i - n) / n;
      MulDistributes(n, q, 1);
      DivUnique(i, n, q + 1, (i - n) % n);
      FlatAt(parts[1..], n, i - n);
    }
  }
}
