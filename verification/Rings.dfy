/** Circular doubly linked rings threaded through shared next/prev arrays.

    The process table keeps two of them, the ready ring and the free ring, and both use the
    same link fields of the table slots. A ring is described by the sequence of its slots,
    starting from the slot its head pointer designates. */
module Rings {

  /** The null link. */
  const NIL: int := -1

  ghost predicate Distinct(s: seq<int>) {
    forall i, j :: 0 <= i < j < |s| ==> s[i] != s[j]
  }

  function After(i: nat, n: nat): nat
    requires i < n
  {
    if i + 1 == n then 0 else i + 1
  }

  function Before(i: nat, n: nat): nat
    requires i < n
  {
    if i == 0 then n - 1 else i - 1
  }

  function Head(s: seq<int>): int {
    if s == [] then NIL else s[0]
  }

  ghost predicate InRange(s: seq<int>, n: nat) {
    forall i :: 0 <= i < |s| ==> 0 <= s[i] < n
  }

  /** The links of the i-th slot of s lead to its neighbours. */
  ghost predicate LinkAt(next: seq<int>, prev: seq<int>, s: seq<int>, i: nat)
    requires i < |s| && |next| == |prev| && InRange(s, |next|)
  {
    next[s[i]] == s[After(i, |s|)] && prev[s[i]] == s[Before(i, |s|)]
  }

  /** The slots of s, in order, form a well-formed circular doubly linked list. */
  ghost predicate Linked(next: seq<int>, prev: seq<int>, s: seq<int>) {
    && |next| == |prev|
    && InRange(s, |next|)
    && Distinct(s)
    && forall i :: 0 <= i < |s| ==> LinkAt(next, prev, s, i)
  }

  /** Position of x in s. */
  function IndexOf(s: seq<int>, x: int): (i: nat)
    requires x in s
    ensures i < |s| && s[i] == x
    ensures forall j :: 0 <= j < i ==> s[j] != x
  {
    if s[0] == x then 0 else 1 + IndexOf(s[1..], x)
  }

  /** Ring after x is inserted just behind the head. */
  function Insert(s: seq<int>, x: int): seq<int> {
    if s == [] then [x] else [s[0], x] + s[1..]
  }

  /** Ring after x is unlinked; the head moves on only when x was the head. */
  function Without(s: seq<int>, x: int): seq<int>
    requires x in s
  {
    var i := IndexOf(s, x); s[..i] + s[i + 1..]
  }

  /** Ring after x is unlinked and the head moved to the successor of x. */
  function TakenFrom(s: seq<int>, x: int): seq<int>
    requires x in s
  {
    var i := IndexOf(s, x); s[i + 1..] + s[..i]
  }

  /** Ring with its head moved i places forward. */
  function Rotate(s: seq<int>, i: nat): seq<int>
    requires i <= |s|
  {
    s[i..] + s[..i]
  }

  lemma InsertMembers(s: seq<int>, x: int)
    ensures forall y :: y in Insert(s, x) <==> y == x || y in s
    ensures x !in s && Distinct(s) ==> Distinct(Insert(s, x))
    ensures |Insert(s, x)| == |s| + 1
  {
    if s != [] { assert s == [s[0]] + s[1..]; }
  }

  lemma WithoutMembers(s: seq<int>, x: int)
    requires x in s && Distinct(s)
    ensures forall y :: y in Without(s, x) <==> y != x && y in s
    ensures Distinct(Without(s, x)) && |Without(s, x)| == |s| - 1
    ensures s[0] != x ==> Without(s, x)[0] == s[0]
  {
    var i := IndexOf(s, x);
    assert s == s[..i] + [x] + s[i + 1..];
    forall y | y in s && y != x ensures y in Without(s, x) {
      var j := IndexOf(s, y);
      if j < i { assert Without(s, x)[j] == y; } else { assert Without(s, x)[j - 1] == y; }
    }
  }

  lemma TakenFromMembers(s: seq<int>, x: int)
    requires x in s && Distinct(s)
    ensures forall y :: y in TakenFrom(s, x) <==> y != x && y in s
    ensures Distinct(TakenFrom(s, x)) && |TakenFrom(s, x)| == |s| - 1
  {
    var i := IndexOf(s, x);
    forall y | y in s && y != x ensures y in TakenFrom(s, x) {
      var j := IndexOf(s, y);
      if j > i { assert TakenFrom(s, x)[j - i - 1] == y; } else { assert TakenFrom(s, x)[|s| - i - 1 + j] == y; }
    }
  }

  lemma RotateMembers(s: seq<int>, i: nat)
    requires i <= |s|
    ensures forall y :: y in Rotate(s, i) <==> y in s
    ensures Distinct(s) ==> Distinct(Rotate(s, i))
    ensures |Rotate(s, i)| == |s|
    ensures forall j :: 0 <= j < |s| ==> Rotate(s, i)[j] == s[if i + j < |s| then i + j else i + j - |s|]
  {
    assert s == s[..i] + s[i..];
  }

  /** Moving the head changes no link. */
  lemma RotateLinked(next: seq<int>, prev: seq<int>, s: seq<int>, i: nat)
    requires Linked(next, prev, s) && i < |s|
    ensures Linked(next, prev, Rotate(s, i))
  {
    RotateMembers(s, i);
    var r := Rotate(s, i);
    forall j | 0 <= j < |r| ensures LinkAt(next, prev, r, j) {
      var k := if i + j < |s| then i + j else i + j - |s|;
      assert LinkAt(next, prev, s, k);
      assert r[j] == s[k] && r[After(j, |s|)] == s[After(k, |s|)] && r[Before(j, |s|)] == s[Before(k, |s|)];
    }
  }

  /** The four link stores of an insertion behind the head. */
  lemma InsertLinked(next: seq<int>, prev: seq<int>, s: seq<int>, x: int)
    requires Linked(next, prev, s) && s != [] && 0 <= x < |next| && x !in s
    ensures
      var h := s[0];
      var p1 := prev[x := h];
      var n1 := next[x := next[h]];
      0 <= n1[h] < |p1| && Linked(n1[h := x], p1[n1[h] := x], Insert(s, x))
  {
    var h := s[0];
    var t := Insert(s, x);
    InsertMembers(s, x);
    assert LinkAt(next, prev, s, 0);
    var nx := next[x := next[h]][h := x];
    var px := prev[x := h][next[h] := x];
    forall i | 0 <= i < |t| ensures LinkAt(nx, px, t, i) {
      if i >= 2 {
        assert LinkAt(next, prev, s, i - 1);
        assert t[i] == s[i - 1] && t[After(i, |t|)] == s[After(i - 1, |s|)];
        assert i > 2 ==> t[Before(i, |t|)] == s[Before(i - 1, |s|)];
        assert i > 2 ==> s[i - 1] != s[1];
      } else {
        assert LinkAt(next, prev, s, |s| - 1);
      }
    }
  }

  /** The two link stores that unlink the head of a ring. */
  lemma UnlinkHead(next: seq<int>, prev: seq<int>, s: seq<int>)
    requires Linked(next, prev, s) && |s| > 1
    ensures
      var x := s[0];
      && 0 <= next[x] < |prev| && 0 <= prev[x] < |next| && prev[x] != x
      && Linked(next[prev[x] := next[x]], prev[next[x] := prev[x]], s[1..])
  {
    var x := s[0];
    var t := s[1..];
    assert LinkAt(next, prev, s, 0);
    var n1, p1 := next[prev[x] := next[x]], prev[next[x] := prev[x]];
    forall i | 0 <= i < |t| ensures LinkAt(n1, p1, t, i) {
      assert LinkAt(next, prev, s, i + 1);
    }
  }

  /** Unlinking any slot of a ring of two or more: the stores of UnlinkHead on the ring seen
      from that slot. */
  lemma UnlinkLinked(next: seq<int>, prev: seq<int>, s: seq<int>, x: int)
    requires Linked(next, prev, s) && x in s && |s| > 1
    ensures 0 <= next[x] < |prev| && 0 <= prev[x] < |next| && prev[x] != x
    ensures
      var p1, n1 := prev[next[x] := prev[x]], next[prev[x] := next[x]];
      Linked(n1, p1, TakenFrom(s, x)) && Linked(n1, p1, Without(s, x))
    ensures Head(TakenFrom(s, x)) == next[x]
    ensures Head(Without(s, x)) == if s[0] == x then next[x] else s[0]
  {
    var i := IndexOf(s, x);
    RotateLinked(next, prev, s, i);
    UnlinkHead(next, prev, Rotate(s, i));
    assert Rotate(s, i)[1..] == TakenFrom(s, x);
    assert LinkAt(next, prev, s, i);
    var t := TakenFrom(s, x);
    if i == 0 {
      assert Without(s, x) == t;
    } else {
      var k := |s| - 1 - i;
      RotateLinked(next[prev[x] := next[x]], prev[next[x] := prev[x]], t, k);
      assert Without(s, x) == Rotate(t, k);
    }
  }

  /** A ring of one slot is the only one whose slot is its own predecessor. */
  lemma AloneIff(next: seq<int>, prev: seq<int>, s: seq<int>, x: int)
    requires Linked(next, prev, s) && x in s
    ensures prev[x] == x <==> |s| == 1
  {
    var i := IndexOf(s, x);
    assert LinkAt(next, prev, s, i);
  }

  /** Links of one ring survive changes to slots outside it. */
  lemma LinkedFrame(next: seq<int>, prev: seq<int>, n1: seq<int>, p1: seq<int>, s: seq<int>)
    requires Linked(next, prev, s) && |n1| == |next| && |p1| == |prev|
    requires forall x :: x in s ==> 0 <= x < |next| && n1[x] == next[x] && p1[x] == prev[x]
    ensures Linked(n1, p1, s)
  {
    forall i | 0 <= i < |s| ensures LinkAt(n1, p1, s, i) {
      assert LinkAt(next, prev, s, i) && s[i] in s;
    }
  }
}
