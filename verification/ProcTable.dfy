/** The process table as the kernel keeps it: an array of descriptors and two rings threaded
    through the link fields of its slots, updated in place. Every method is proved against the
    corresponding function of module Kernel. */
module ProcTable {
  import opened Rings
  import opened Kernel
  import opened KernelInvariants
  import opened Rendezvous

  class ProcTable {
    const procs: array<Proc>
    const next: array<int>
    const prev: array<int>
    var readyHead: int
    var freeHead: int
    var cur: int
    ghost var ready: seq<int>
    ghost var free: seq<int>

    /** The link fields realise the two rings, which share no slot. */
    ghost predicate Linked2()
      reads this, procs, next, prev
    {
      && procs.Length == next.Length == prev.Length && next != prev
      && Linked(next[..], prev[..], ready) && Linked(next[..], prev[..], free)
      && (forall x :: x in ready ==> x !in free)
      && readyHead == Head(ready) && freeHead == Head(free)
    }

    /** The table as a value. */
    ghost function View(): Table
      reads this, procs
    {
      Table(procs[..], ready, free, cur)
    }

    ghost predicate Valid()
      reads this, procs, next, prev
    {
      Linked2() && Kernel.Valid(View())
    }

    // -------------------------------------------------------------- rings

    method AddToReady(x: int)
      requires Linked2() && 0 <= x < procs.Length && x !in ready && x !in free
      modifies this`readyHead, this`ready, next, prev
      ensures Linked2() && ready == Insert(old(ready), x)
    {
      ghost var n0, p0 := next[..], prev[..];
      if readyHead != NIL {
        InsertLinked(n0, p0, ready, x);
        prev[x] := readyHead;
        next[x] := next[readyHead];
        prev[next[readyHead]] := x;
        next[readyHead] := x;
        LinkAtHead(n0, p0, ready);
      } else {
        readyHead := x;
        prev[x] := x;
        next[x] := x;
        assert LinkAt(next[..], prev[..], [x], 0);
      }
      InsertMembers(ready, x);
      ready := Insert(ready, x);
      LinkedFrame(n0, p0, next[..], prev[..], free);
    }

    method AddToFree(x: int)
      requires Linked2() && 0 <= x < procs.Length && x !in ready && x !in free
      modifies this`freeHead, this`free, next, prev
      ensures Linked2() && free == Insert(old(free), x)
    {
      ghost var n0, p0 := next[..], prev[..];
      if freeHead != NIL {
        InsertLinked(n0, p0, free, x);
        prev[x] := freeHead;
        next[x] := next[freeHead];
        prev[next[freeHead]] := x;
        next[freeHead] := x;
        LinkAtHead(n0, p0, free);
      } else {
        freeHead := x;
        prev[x] := x;
        next[x] := x;
        assert LinkAt(next[..], prev[..], [x], 0);
      }
      InsertMembers(free, x);
      free := Insert(free, x);
      LinkedFrame(n0, p0, next[..], prev[..], ready);
    }

    /** The successor of the head belongs to the ring. */
    static lemma LinkAtHead(n0: seq<int>, p0: seq<int>, s: seq<int>)
      requires Linked(n0, p0, s) && s != []
      ensures n0[s[0]] in s
    {
      assert LinkAt(n0, p0, s, 0);
    }

    /** What unlinking x from its ring of two or more does to both rings. */
    static lemma BothAfterUnlink(n0: seq<int>, p0: seq<int>, ring: seq<int>, other: seq<int>, x: int)
      requires Linked(n0, p0, ring) && Linked(n0, p0, other) && forall y :: y in ring ==> y !in other
      requires x in ring && |ring| > 1
      ensures 0 <= n0[x] < |n0| && 0 <= p0[x] < |n0| && n0[x] != x && p0[x] != x
      ensures
        var n1, p1 := n0[p0[x] := n0[x]], p0[n0[x] := p0[x]];
        && Linked(n1, p1, Without(ring, x)) && Linked(n1, p1, TakenFrom(ring, x)) && Linked(n1, p1, other)
      ensures Head(TakenFrom(ring, x)) == n0[x] && Head(Without(ring, x)) == if ring[0] == x then n0[x] else ring[0]
    {
      UnlinkLinked(n0, p0, ring, x);
      assert LinkAt(n0, p0, ring, IndexOf(ring, x));
      LinkedFrame(n0, p0, n0[p0[x] := n0[x]], p0[n0[x] := p0[x]], other);
    }

    /** Links of a slot outside a ring can be cleared. */
    static lemma ClearedOutside(n0: seq<int>, p0: seq<int>, s: seq<int>, x: int)
      requires Linked(n0, p0, s) && 0 <= x < |n0| && x !in s
      ensures Linked(n0[x := NIL], p0[x := NIL], s)
    {
      LinkedFrame(n0, p0, n0[x := NIL], p0[x := NIL], s);
    }

    /** The two stores that unlink a slot. */
    method Unlink(x: int)
      requires next != prev && next.Length == prev.Length && 0 <= x < next.Length
      requires 0 <= next[x] < next.Length && 0 <= prev[x] < next.Length && next[x] != x && prev[x] != x
      modifies next, prev
      ensures next[..] == old(next[..])[old(prev[x]) := old(next[x])]
      ensures prev[..] == old(prev[..])[old(next[x]) := old(prev[x])]
    {
      prev[next[x]] := prev[x];
      next[prev[x]] := next[x];
    }

    /** Unlink a ready slot. The kernel panics when it is the only one, and only then. */
    method RemoveFromReady(x: int) returns (panic: bool)
      requires Linked2() && x in ready
      modifies this`readyHead, this`ready, next, prev
      ensures Linked2()
      ensures panic <==> |old(ready)| == 1
      ensures ready == if panic then old(ready) else Without(old(ready), x)
      ensures !panic ==> x !in ready && next[x] == NIL && prev[x] == NIL
    {
      ghost var n0, p0 := next[..], prev[..];
      assert 0 <= x < procs.Length;
      AloneIff(n0, p0, ready, x);
      if prev[x] == x { return true; }
      BothAfterUnlink(n0, p0, ready, free, x);
      WithoutMembers(ready, x);
      Unlink(x);
      if readyHead == x { readyHead := next[x]; }
      ready := Without(ready, x);
      ClearedOutside(next[..], prev[..], ready, x);
      ClearedOutside(next[..], prev[..], free, x);
      ghost var n1, p1 := next[..], prev[..];
      prev[x] := NIL;
      next[x] := NIL;
      assert next[..] == n1[x := NIL] && prev[..] == p1[x := NIL];
      return false;
    }

    method RemoveFromFree(x: int)
      requires Linked2() && x in free
      modifies this`freeHead, this`free, next, prev
      ensures Linked2() && free == TakenFrom(old(free), x) && x !in free
    {
      assert 0 <= x < procs.Length;
      AloneIff(next[..], prev[..], free, x);
      TakenFromMembers(free, x);
      if prev[x] == x {
        assert TakenFrom(free, x) == [];
        freeHead, free := NIL, [];
      } else {
        UnlinkFree(x);
      }
    }

    /** Unlink one of several free slots; the head moves to its successor. */
    method UnlinkFree(x: int)
      requires Linked2() && x in free && |free| > 1 && 0 <= x < next.Length
      modifies this`freeHead, this`free, next, prev
      ensures Linked2() && free == TakenFrom(old(free), x)
    {
      BothAfterUnlink(next[..], prev[..], free, ready, x);
      TakenFromMembers(free, x);
      Unlink(x);
      freeHead := next[x];
      free := TakenFrom(free, x);
    }

    method Put(p: int, d: Proc)
      requires Linked2() && 0 <= p < procs.Length
      modifies procs
      ensures Linked2() && View() == Kernel.Put(old(View()), p, d)
    {
      procs[p] := d;
    }

    /** Link slot p into the ready ring and make it ready with descriptor d. */
    method Wake(p: int, d: Proc)
      requires Linked2() && 0 <= p < procs.Length && p !in ready && p !in free
      modifies this`readyHead, this`ready, next, prev, procs
      ensures Linked2() && View() == Kernel.Wake(old(View()), p, d)
    {
      AddToReady(p);
      procs[p] := d.(state := Ready);
    }

    // -------------------------------------------------------------- creation and end

    /** The loop of proc_init: all slots unused, in one free ring. */
    constructor (n: nat)
      requires n >= 2
      ensures fresh(procs) && fresh(next) && fresh(prev)
      ensures Linked2() && View() == Empty(n)
    {
      procs := new Proc[n](_ => Proc(Unused, 0, 0, BLANK, {}, 0, 0, 0, 0));
      next := new int[n](i => i + 1);
      var before: nat -> int := i => i - 1;
      prev := new int[n](before);
      readyHead, freeHead, cur := NIL, 0, NIL;
      ready, free := [], seq(n, i => i);
      new;
      next[n - 1] := 0;
      prev[0] := n - 1;
      forall i | 0 <= i < n ensures LinkAt(next[..], prev[..], free, i) { }
    }

    /** The tasks start-up creates: idle, by proc_init, and the system task, which is scheduled. */
    method Start()
      requires Linked2() && procs.Length >= 2 && View() == Empty(procs.Length)
      modifies this, next, prev, procs
      ensures Valid() && View() == Boot(procs.Length)
    {
      CreateBoth();
      SwitchStarts(View(), procs.Length);
      var _ := ScheduleTo(0);
    }

    method CreateBoth()
      requires Linked2() && procs.Length >= 2 && View() == Empty(procs.Length)
      modifies this`readyHead, this`ready, this`freeHead, this`free, next, prev, procs
      ensures Linked2() && View() == WithSystem(procs.Length)
    {
      IdleShape(procs.Length);
      var _ := CreateTask(procs.Length - 1);
      assert View() == WithIdle(procs.Length);
      SystemShape(View(), procs.Length);
      var _ := CreateTask(0);
    }

    /** proc_create_task. */
    method CreateTask(p: int) returns (r: int)
      requires Linked2() && (p == ANY || 0 <= p < procs.Length)
      requires p != ANY && procs[p].state.Unused? ==> p in free
      modifies this`readyHead, this`ready, this`freeHead, this`free, next, prev, procs
      ensures Linked2() && (View(), r) == Kernel.CreateTask(old(View()), p)
    {
      var s;
      if p == ANY {
        if freeHead == NIL { return NONE; }
        s := freeHead;
      } else {
        s := p;
        if !procs[s].state.Unused? { return NONE; }
      }
      RemoveFromFree(s);
      AddToReady(s);
      procs[s] := TaskProc();
      return p;
    }

    /** proc_create_init, once memory has been found. */
    method CreateInit() returns (r: int)
      requires Linked2()
      modifies this`freeHead, this`free, next, prev, procs
      ensures Linked2() && (View(), r) == Kernel.CreateInit(old(View()))
    {
      var s := freeHead;
      if s == NIL { return NONE; }
      RemoveFromFree(s);
      procs[s] := Proc(Blocked, NONE, NONE, BLANK, {}, ROOT_UID, 0, 0, 0);
      return s;
    }

    /** proc_fork; `memory` tells whether memory was found for the child. */
    method Fork(parent: int, memory: bool) returns (r: int)
      requires Linked2() && 0 <= parent < procs.Length
      modifies this`freeHead, this`free, next, prev, procs
      ensures Linked2() && (View(), r) == Kernel.Fork(old(View()), parent, memory)
    {
      var s := freeHead;
      if s == NIL { return NONE; }
      RemoveFromFree(s);
      procs[s] := procs[parent];
      procs[s] := procs[s].(ppid := parent);
      if memory {
        procs[s] := procs[s].(state := Blocked);
        assert procs[..] == old(procs[..])[s := procs[s]];
        return s;
      }
      assert procs[..] == old(procs[..])[s := procs[s]];
      return NONE;
    }

    /** Unlink p if it is ready, then give it state s; the ready ring is never left empty. */
    method Retire(p: int, s: State) returns (panic: bool)
      requires Valid() && 0 <= p < procs.Length && p != Idle(View())
      modifies this`readyHead, this`ready, next, prev, procs
      ensures !panic && Linked2() && View() == Kernel.Retire(old(View()), p, s)
      ensures p in old(free) || (p !in ready && p !in free)
    {
      panic := false;
      if procs[p].state.Ready? {
        panic := RemoveFromReady(p);
      }
      procs[p] := procs[p].(state := s);
    }

    /** proc_kill, apart from releasing the memory of a user process. */
    method Kill(p: int)
      requires Valid() && Enabled(View(), KillOf(p))
      modifies this`readyHead, this`ready, this`freeHead, this`free, next, prev, procs
      ensures Valid() && View() == Step(old(View()), KillOf(p))
    {
      KillKeeps(View(), p);
      ghost var k := View();
      var _ := Retire(p, Unused);
      ghost var k1 := View();
      AddToFree(p);
      assert View() == k1.(free := Insert(k1.free, p)) == Kernel.Kill(k, p);
    }

    /** proc_sig. */
    method Raise(p: int, sig: Signal)
      requires Valid() && 0 <= p < procs.Length
      modifies this`readyHead, this`ready, next, prev, procs
      ensures Valid() && View() == Step(old(View()), Sig(p, sig))
    {
      RaiseKeeps(View(), p, sig);
      var d := procs[p];
      if d.state.Blocked? {
        Wake(p, d.(mFrom := NONE, mTo := NONE, d0 := EABORT));
      } else if d.state.Ready? {
        Put(p, d.(signals := d.signals + {sig}));
      }
    }

    /** Record the exit value and stop p. */
    method Stop(p: int, val: int)
      requires Valid() && Enabled(View(), ExitOf(p, val))
      modifies this`readyHead, this`ready, next, prev, procs
      ensures Valid() && View() == Kernel.Retire(Kernel.Put(old(View()), p, old(procs[p]).(exitVal := val)), p, Stopped)
    {
      StopKeeps(View(), p, val);
      PutKeeps(View(), p, procs[p].(exitVal := val));
      Put(p, procs[p].(exitVal := val));
      var _ := Retire(p, Stopped);
    }

    /** proc_exit: stop p and signal its parent. */
    method Exit(p: int, val: int)
      requires Valid() && Enabled(View(), ExitOf(p, val))
      modifies this`readyHead, this`ready, next, prev, procs
      ensures Valid() && View() == Kernel.Exit(old(View()), p, val)
    {
      Stop(p, val);
      Raise(procs[p].ppid, Child);
    }

    /** proc_wait. */
    method Wait(p: int)
      requires Valid() && 0 <= p < procs.Length
      modifies procs
      ensures Valid() && View() == Step(old(View()), WaitFor(p))
    {
      Put(p, procs[p].(mFrom := NONE, mTo := NONE));
    }

    // -------------------------------------------------------------- scheduling

    /** proc_schedule(ANY). */
    method ScheduleNext() returns (p: int)
      requires Linked2() && ready != []
      modifies this`readyHead, this`ready, this`cur
      ensures Linked2() && View() == Next(old(View())) && p == cur
    {
      assert LinkAt(next[..], prev[..], ready, 0);
      RotateMembers(ready, 1);
      if |ready| > 1 { RotateLinked(next[..], prev[..], ready, 1); } else { assert Rotate(ready, 1) == ready; }
      readyHead := next[readyHead];
      cur := readyHead;
      ready := Rotate(ready, 1);
      return cur;
    }

    /** proc_schedule of a named process. */
    method ScheduleTo(p: int) returns (r: int)
      requires Linked2() && 0 <= p < procs.Length && (procs[p].state.Ready? ==> p in ready)
      modifies this`readyHead, this`ready, this`cur
      ensures Linked2() && View() == SwitchTo(old(View()), p)
      ensures r == if procs[p].state.Ready? then p else NONE
    {
      if !procs[p].state.Ready? { return NONE; }
      ghost var i := IndexOf(ready, p);
      RotateMembers(ready, i);
      RotateLinked(next[..], prev[..], ready, i);
      readyHead := p;
      cur := p;
      ready := Rotate(ready, i);
      return p;
    }

    /** The rescheduling of the system interrupt, with its second chance. */
    method Reschedule()
      requires Linked2() && ready != []
      modifies this`readyHead, this`ready, this`cur
      ensures Linked2() && View() == Kernel.Reschedule(old(View()))
    {
      RotateMembers(ready, 1);
      var p := ScheduleNext();
      if p == procs.Length - 1 {
        var _ := ScheduleNext();
      }
    }

    // -------------------------------------------------------------- messages

    /** Hand the caller's message to the waiting receiver t. */
    method HandOver(t: int)
      requires Valid() && 0 <= t < procs.Length && procs[t].state.Blocked?
      modifies this`readyHead, this`ready, next, prev, procs
      ensures Valid() && View() == Kernel.HandOver(old(View()), t)
    {
      HandOverKeeps(View(), t);
      ghost var k := View();
      Put(cur, procs[cur].(mTo := NONE));
      PutKeeps(k, cur, procs[cur]);
      Wake(t, procs[t].(msg := procs[cur].msg, mFrom := cur, d0 := cur));
    }

    /** Take the message of the blocked sender s. */
    method TakeFrom(s: int)
      requires Valid() && 0 <= s < procs.Length && procs[s].state.Blocked?
      modifies this`readyHead, this`ready, next, prev, procs
      ensures Valid() && View() == Kernel.TakeFrom(old(View()), s)
    {
      TakeFromKeeps(View(), s);
      Put(cur, procs[cur].(msg := procs[s].msg, mFrom := NONE));
      var d := procs[s].(d0 := cur, mTo := NONE);
      if d.mFrom == NONE {
        Wake(s, d);
      } else {
        Put(s, d);
      }
    }

    /** The first slot that is blocked sending to c. */
    method FindSender(c: int) returns (s: int)
      requires Linked2()
      ensures s == FirstSender(View(), c, 0)
    {
      var p := 0;
      while p < procs.Length
        invariant 0 <= p <= procs.Length
        invariant FirstSender(View(), c, 0) == FirstSender(View(), c, p)
      {
        if procs[p].state.Blocked? && procs[p].mTo == c { return p; }
        p := p + 1;
      }
      return ANY;
    }

    /** Return if no communication is left; else block, unless a signal is pending. */
    method Settle(t: int) returns (r: Reply)
      requires Valid() && cur != Idle(View())
      modifies this`readyHead, this`ready, this`cur, next, prev, procs
      ensures |old(View()).ready| > 1
      ensures Valid() && View() == Kernel.Settle(old(View()), t, []).k && r == Kernel.Settle(old(View()), t, []).reply
    {
      SettleKeeps(View(), t, []);
      WithoutMembers(ready, cur);
      var c := cur;
      var d := procs[c];
      if d.mFrom == NONE && d.mTo == NONE {
        return Returns(t);
      }
      if d.signals == {} {
        var panic := RemoveFromReady(c);
        assert !panic;
        procs[c] := d.(state := Blocked);
        r := Suspended;
      } else {
        procs[c] := d.(signals := d.signals - {Alarm}, mFrom := NONE, mTo := NONE, d0 := EABORT);
        r := Returns(EABORT);
      }
      Reschedule();
    }

    /** The receiving half of sendreceive. */
    method ReceivePart(t: int, recv: bool) returns (r: Reply)
      requires Valid() && cur != Idle(View()) && (t == ANY || 0 <= t < procs.Length)
      modifies this`readyHead, this`ready, this`cur, next, prev, procs
      ensures |old(View()).ready| > 1
      ensures Valid() && View() == Kernel.ReceivePart(old(View()), t, recv, []).k
      ensures r == Kernel.ReceivePart(old(View()), t, recv, []).reply
    {
      ReceivePartKeeps(View(), t, recv, []);
      var c := cur;
      var s := t;
      PutKeeps(View(), c, procs[c].(mFrom := if recv then t else NONE));
      Put(c, procs[c].(mFrom := if recv then t else NONE));
      if recv && procs[c].mTo == NONE {
        if t == ANY {
          s := FindSender(c);
        }
        if s != ANY && procs[s].state.Blocked? && procs[s].mTo == c {
          TakeFrom(s);
          return Returns(s);
        }
      }
      r := Settle(s);
    }

    /** sendreceive, as called by the running process. */
    method SendReceive(t: int, msg: Message, send: bool, recv: bool) returns (r: Reply)
      requires Valid() && Enabled(View(), Call(t, msg, send, recv))
      modifies this`readyHead, this`ready, this`cur, next, prev, procs
      ensures var o := Kernel.SendReceive(old(View()), t, msg, send, recv);
        Valid() && View() == o.k && r == o.reply
    {
      ghost var k := View();
      SendReceiveKeeps(k, t, msg, send, recv);
      Put(cur, procs[cur].(msg := msg));
      PutKeeps(k, cur, procs[cur]);
      ghost var k0 := View();
      if send {
        if t == ANY { return Returns(ESENDANY); }
        Put(cur, procs[cur].(mTo := t));
        PutKeeps(k0, cur, procs[cur]);
        if procs[t].state.Blocked? {
          if procs[t].mFrom == cur || procs[t].mFrom == ANY {
            HandOver(t);
          } else if procs[t].mTo == cur {
            return Returns(ELOCK);
          }
        }
      } else {
        Put(cur, procs[cur].(mTo := NONE));
        PutKeeps(k0, cur, procs[cur]);
      }
      ghost var k1 := View();
      r := ReceivePart(t, recv);
      CopiesAside(k1, t, recv, [Copy(k.cur, t, msg)]);
    }

    /** The copies already made do not influence the receiving half. */
    static lemma CopiesAside(k: Table, t: int, recv: bool, copies: seq<Copy>)
      requires IsPid(k, k.cur) && (t == ANY || IsPid(k, t)) && k.cur != Idle(k)
      requires |k.ready| > 1 && k.cur in k.ready
      ensures Kernel.ReceivePart(k, t, recv, copies).k == Kernel.ReceivePart(k, t, recv, []).k
      ensures Kernel.ReceivePart(k, t, recv, copies).reply == Kernel.ReceivePart(k, t, recv, []).reply
    {
    }
  }
}
