/** Fairness of the round-robin scheduler on an unchanged ready ring. */
module Scheduling {
  import opened Basics
  import opened Rings
  import opened Kernel
  import opened KernelInvariants

  /** i calls of the scheduler in a row. */
  function Nexts(k: Table, i: nat): (r: Table)
    requires k.ready != []
    ensures |r.ready| == |k.ready|
  {
    if i == 0 then k else Next(Nexts(k, i - 1))
  }

  lemma {:induction false} NextsRotate(k: Table, i: nat)
    requires k.ready != [] && i <= |k.ready| && k.cur == k.ready[0]
    ensures Nexts(k, i) == k.(ready := Rotate(k.ready, i), cur := Rotate(k.ready, i)[0])
  {
    if i == 0 {
      assert Rotate(k.ready, 0) == k.ready;
    } else {
      NextsRotate(k, i - 1);
      RotateOneMore(k.ready, i - 1);
    }
  }

  lemma RotateOneMore(s: seq<int>, i: nat)
    requires i < |s|
    ensures Rotate(Rotate(s, i), 1) == Rotate(s, i + 1)
    ensures Rotate(s, i + 1)[0] == Rotate(Rotate(s, i), 1)[0]
  {
  }

  /** A ring read once round from its second slot. */
  lemma OnceRound(s: seq<int>)
    requires s != [] && Distinct(s)
    ensures var r := (s + s[..1])[1..|s| + 1];
      Distinct(r) && r[|s| - 1] == s[0] && forall p :: p in r <==> p in s
  {
    RotateMembers(s, 1);
    assert (s + s[..1])[1..|s| + 1] == Rotate(s, 1);
  }

  /** Who runs after each of the first n calls. */
  function Served(k: Table, n: nat): (s: seq<int>)
    requires k.ready != []
    ensures |s| == n
  {
    if n == 0 then [] else Served(k, n - 1) + [Nexts(k, n).cur]
  }

  /** As many calls as there are ready processes run each of them exactly once, the caller
      last, and bring the table back. */
  lemma RoundRobin(k: Table)
    requires Valid(k)
    ensures var s := Served(k, |k.ready|);
            && Distinct(s)
            && (forall p :: 0 <= p < |k.procs| ==> (p in s <==> k.procs[p].state.Ready?))
            && s[|k.ready| - 1] == k.cur
    ensures Nexts(k, |k.ready|) == k
  {
    var n := |k.ready|;
    ServedPrefix(k, n);
    OnceRound(k.ready);
    NextsRotate(k, n);
    assert Rotate(k.ready, n) == k.ready;
    ReadyInRing(k, Served(k, n));
  }

  lemma ReadyInRing(k: Table, s: seq<int>)
    requires Valid(k) && forall p :: p in s <==> p in k.ready
    ensures forall p :: 0 <= p < |k.procs| ==> (p in s <==> k.procs[p].state.Ready?)
  {
  }

  lemma {:induction false} ServedPrefix(k: Table, i: nat)
    requires k.ready != [] && i <= |k.ready| && k.cur == k.ready[0]
    ensures Served(k, i) == (k.ready + k.ready[..1])[1..i + 1]
  {
    if i > 0 {
      ServedPrefix(k, i - 1);
      NextsRotate(k, i);
      RotatedHead(k.ready, i);
    }
  }

  lemma RotatedHead(s: seq<int>, i: nat)
    requires 0 < i <= |s|
    ensures (s + s[..1])[1..i + 1] == (s + s[..1])[1..i] + [Rotate(s, i)[0]]
  {
  }

  /** After a system interrupt the idle task runs if and only if nothing else is ready. */
  lemma IdleOnlyWhenAlone(k: Table)
    requires Valid(k)
    ensures Reschedule(k).cur == Idle(k) <==> |k.ready| == 1
    ensures Reschedule(k).cur == Idle(k) <==>
              forall p :: 0 <= p < |k.procs| && k.procs[p].state.Ready? ==> p == Idle(k)
  {
    RotateMembers(k.ready, 1);
    RotateMembers(Rotate(k.ready, 1), 1);
    if |k.ready| > 1 {
      assert k.ready[0] != k.ready[1];
      assert k.ready[0] in k.ready && k.ready[1] in k.ready;
      assert IsPid(k, k.ready[0]) && IsPid(k, k.ready[1]);
    } else {
      forall p | 0 <= p < |k.procs| && k.procs[p].state.Ready? ensures p == Idle(k) { assert p in k.ready; }
    }
  }

  /** i system interrupts in a row. */
  function Interrupts(k: Table, i: nat): (r: Table)
    requires Valid(k)
    ensures Valid(r) && r.procs == k.procs
  {
    if i == 0 then k else var r := Interrupts(k, i - 1); RescheduleKeeps(r); Reschedule(r)
  }

  /** Where removing x leaves the slots of a ring that is moved one place. */
  lemma RotateWithout(s: seq<int>, x: int)
    requires Distinct(s) && x in s && s[0] != x
    ensures x in Rotate(s, 1)
    ensures Without(Rotate(s, 1), x) == Rotate(Without(s, x), 1)
  {
    var i := IndexOf(s, x);
    var t := Rotate(s, 1);
    RotateMembers(s, 1);
    assert t[i - 1] == x;
    DistinctIndex(t, x, i - 1);
    assert Without(s, x) == s[..i] + s[i + 1..];
  }

  /** Moving a ring past x does not show once x is removed. */
  lemma PassOver(s: seq<int>, x: int)
    requires Distinct(s) && |s| > 0 && s[0] == x
    ensures x in Rotate(s, 1)
    ensures Without(Rotate(s, 1), x) == Without(s, x)
  {
    var t := Rotate(s, 1);
    RotateMembers(s, 1);
    assert t[|s| - 1] == x;
    DistinctIndex(t, x, |s| - 1);
    DistinctIndex(s, x, 0);
  }

  lemma DistinctIndex(s: seq<int>, x: int, i: nat)
    requires Distinct(s) && i < |s| && s[i] == x
    ensures x in s && IndexOf(s, x) == i
  {
    var j := IndexOf(s, x);
  }

  /** One interrupt moves the ring of the tasks other than idle one place, stepping over idle. */
  lemma InterruptRotates(k: Table)
    requires Valid(k) && k.cur != Idle(k)
    ensures |Without(k.ready, Idle(k))| == |k.ready| - 1 > 0
    ensures Idle(k) in Reschedule(k).ready && Reschedule(k).cur != Idle(k)
    ensures Without(Reschedule(k).ready, Idle(k)) == Rotate(Without(k.ready, Idle(k)), 1)
  {
    RescheduleKeeps(k);
    IdleOnlyWhenAlone(k);
    WithoutMembers(k.ready, Idle(k));
    RotateWithout(k.ready, Idle(k));
    NextKeeps(k);
    if Next(k).cur == Idle(k) { PassOver(Next(k).ready, Idle(k)); }
  }

  /** In r it is the turn of the m-th task of the ring w of tasks other than idle. */
  ghost predicate Turn(r: Table, w: seq<int>, m: nat) {
    && Valid(r) && m < |w|
    && r.cur == w[m] != Idle(r)
    && Without(r.ready, Idle(r)) == Rotate(w, m)
  }

  lemma InterruptAdvances(k: Table, w: seq<int>, m: nat)
    requires Turn(k, w, m)
    ensures Turn(Reschedule(k), w, After(m, |w|))
  {
    InterruptRotates(k);
    RotateTwice(w, m);
    RescheduleKeeps(k);
    WithoutMembers(Reschedule(k).ready, Idle(k));
  }

  lemma FirstTurn(k: Table)
    requires Valid(k) && k.cur != Idle(k)
    ensures Turn(k, Without(k.ready, Idle(k)), 0)
  {
    var w := Without(k.ready, Idle(k));
    WithoutMembers(k.ready, Idle(k));
    RunningIsNotAlone(k);
    assert Rotate(w, 0) == w;
  }

  lemma {:induction false} TurnAfter(k: Table, w: seq<int>, i: nat)
    requires Turn(k, w, 0)
    ensures Turn(Interrupts(k, i), w, Cyclic(i, |w|))
  {
    if i > 0 {
      TurnAfter(k, w, i - 1);
      InterruptAdvances(Interrupts(k, i - 1), w, Cyclic(i - 1, |w|));
    }
  }

  /** Interrupts serve the ready processes other than idle in ring order, again and again, and
      never run idle while there is one. */
  lemma InterruptsAreFair(k: Table, i: nat)
    requires Valid(k) && k.cur != Idle(k)
    ensures
      var w := Without(k.ready, Idle(k));
      |w| > 0 && Interrupts(k, i).cur == w[i % |w|] != Idle(k)
  {
    var w := Without(k.ready, Idle(k));
    FirstTurn(k);
    TurnAfter(k, w, i);
    CyclicIsMod(i, |w|);
  }

  /** i steps around a ring of n. */
  function Cyclic(i: nat, n: nat): (c: nat)
    requires n > 0
    ensures c < n
  {
    if i == 0 then 0 else After(Cyclic(i - 1, n), n)
  }

  lemma {:induction false} CyclicIsMod(i: nat, n: nat)
    requires n > 0
    ensures Cyclic(i, n) == i % n
  {
    if i > 0 { CyclicIsMod(i - 1, n); NextIndex(i - 1, n); }
  }

  lemma RotateTwice(w: seq<int>, m: nat)
    requires m < |w|
    ensures Rotate(Rotate(w, m), 1) == Rotate(w, After(m, |w|))
  {
  }

  lemma NextIndex(i: nat, n: nat)
    requires n > 0
    ensures (i + 1) % n == After(i % n, n)
  {
    var q, r := i / n, i % n;
    if r + 1 < n {
      DivUnique(i + 1, n, q, r + 1);
    } else {
      MulDistributes(n, q, 1);
      DivUnique(i + 1, n, q + 1, 0);
    }
  }
}
