/** What every step of the process manager keeps, and what follows for every run. */
module KernelInvariants {
  import opened Rings
  import opened Kernel

  // ---------------------------------------------------------------- the rings

  lemma NextKeeps(k: Table)
    requires Valid(k)
    ensures Valid(Next(k)) && Next(k).procs == k.procs && Next(k).free == k.free
  {
    RotateMembers(k.ready, 1);
  }

  lemma RescheduleKeeps(k: Table)
    requires Valid(k)
    ensures Valid(Reschedule(k)) && Reschedule(k).procs == k.procs && Reschedule(k).free == k.free
  {
    NextKeeps(k);
    NextKeeps(Next(k));
  }

  /** Valid except that the head of the ready ring need not be the running process. */
  ghost predicate AlmostValid(k: Table) {
    k.ready != [] && Valid(k.(cur := k.ready[0]))
  }

  lemma RescheduleRestores(k: Table)
    requires AlmostValid(k)
    ensures Valid(Reschedule(k)) && Reschedule(k).procs == k.procs && Reschedule(k).free == k.free
  {
    var k1 := k.(cur := k.ready[0]);
    RescheduleKeeps(k1);
    assert Next(k) == Next(k1);
  }

  lemma PutKeeps(k: Table, p: int, d: Proc)
    requires Valid(k) && IsPid(k, p) && d.state == k.procs[p].state && d.ppid == k.procs[p].ppid
    ensures Valid(Put(k, p, d))
  {
  }

  lemma WakeKeeps(k: Table, p: int, d: Proc)
    requires Valid(k) && IsPid(k, p) && d.ppid == k.procs[p].ppid
    requires k.procs[p].state.Blocked?
    ensures Valid(Wake(k, p, d)) && |Wake(k, p, d).ready| > |k.ready|
  {
    InsertMembers(k.ready, p);
  }

  /** Two different slots are in the ready ring whenever a process other than idle runs, so
      unlinking the running process never meets a ring of one. */
  lemma RunningIsNotAlone(k: Table)
    requires Valid(k) && k.cur != Idle(k)
    ensures |k.ready| > 1 && k.cur in k.ready
  {
  }

  lemma HandOverKeeps(k: Table, t: int)
    requires Valid(k) && IsPid(k, t) && k.procs[t].state.Blocked?
    ensures Valid(HandOver(k, t)) && HandOver(k, t).cur == k.cur
  {
    var c := k.cur;
    var k1 := Put(k, c, k.procs[c].(mTo := NONE));
    WakeKeeps(k1, t, k1.procs[t].(msg := k.procs[c].msg, mFrom := c, d0 := c));
  }

  lemma TakeFromKeeps(k: Table, s: int)
    requires Valid(k) && IsPid(k, s) && k.procs[s].state.Blocked?
    ensures Valid(TakeFrom(k, s)) && TakeFrom(k, s).cur == k.cur
  {
    var c := k.cur;
    var k1 := Put(k, c, k.procs[c].(msg := k.procs[s].msg, mFrom := NONE));
    var d := k1.procs[s].(d0 := c, mTo := NONE);
    if d.mFrom == NONE { WakeKeeps(k1, s, d); }
  }

  lemma SettleKeeps(k: Table, t: int, copies: seq<Copy>)
    requires Valid(k) && k.cur != Idle(k)
    ensures |k.ready| > 1
    ensures Valid(Settle(k, t, copies).k) && |Settle(k, t, copies).k.procs| == |k.procs|
  {
    RunningIsNotAlone(k);
    var c := k.cur;
    var d := k.procs[c];
    if d.mFrom == NONE && d.mTo == NONE {
    } else if d.signals == {} {
      WithoutMembers(k.ready, c);
      var k1 := k.(procs := k.procs[c := d.(state := Blocked)], ready := Without(k.ready, c));
      assert Idle(k) in k1.ready;
      RescheduleRestores(k1);
    } else {
      RescheduleKeeps(Put(k, c, d.(signals := d.signals - {Alarm}, mFrom := NONE, mTo := NONE, d0 := EABORT)));
    }
  }

  lemma ReceivePartKeeps(k: Table, t: int, recv: bool, copies: seq<Copy>)
    requires Valid(k) && k.cur != Idle(k) && (t == ANY || IsPid(k, t))
    ensures |k.ready| > 1
    ensures Valid(ReceivePart(k, t, recv, copies).k)
    ensures |ReceivePart(k, t, recv, copies).k.procs| == |k.procs|
  {
    RunningIsNotAlone(k);
    var c := k.cur;
    var k1 := Put(k, c, k.procs[c].(mFrom := if recv then t else NONE));
    if recv && k.procs[c].mTo == NONE {
      var s := if t == ANY then FirstSender(k1, c, 0) else t;
      if s != ANY && SendsTo(k1, s, c) { TakeFromKeeps(k1, s); } else { SettleKeeps(k1, s, copies); }
    } else {
      SettleKeeps(k1, t, copies);
    }
  }

  lemma SendReceiveKeeps(k: Table, t: int, msg: Message, send: bool, recv: bool)
    requires Valid(k) && k.cur != Idle(k) && (t == ANY || IsPid(k, t))
    ensures Valid(SendReceive(k, t, msg, send, recv).k)
    ensures |SendReceive(k, t, msg, send, recv).k.procs| == |k.procs|
  {
    var c := k.cur;
    var k0 := Put(k, c, k.procs[c].(msg := msg));
    if !send {
      ReceivePartKeeps(Put(k0, c, k0.procs[c].(mTo := NONE)), t, recv, []);
    } else if t != ANY {
      var k1 := Put(k0, c, k0.procs[c].(mTo := t));
      var r := k1.procs[t];
      if r.state.Blocked? && (r.mFrom == c || r.mFrom == ANY) {
        HandOverKeeps(k1, t);
        ReceivePartKeeps(HandOver(k1, t), t, recv, [Copy(c, t, msg)]);
      } else if !(r.state.Blocked? && r.mTo == c) {
        ReceivePartKeeps(k1, t, recv, []);
      }
    }
  }

  lemma RaiseKeeps(k: Table, p: int, sig: Signal)
    requires Valid(k) && IsPid(k, p)
    ensures Valid(Raise(k, p, sig)) && Raise(k, p, sig).cur == k.cur
  {
    var d := k.procs[p];
    if d.state.Blocked? { WakeKeeps(k, p, d.(mFrom := NONE, mTo := NONE, d0 := EABORT)); }
  }

  lemma RetireKeeps(k: Table, p: int, s: State)
    requires Valid(k) && IsPid(k, p) && p != k.cur && p != Idle(k)
    requires !k.procs[p].state.Unused? && !s.Ready?
    ensures var r := Retire(k, p, s); Shaped(r) && r.cur == k.cur && |r.procs| == |k.procs|
    ensures forall q :: 0 <= q < |k.procs| ==> (q in Retire(k, p, s).ready <==> q != p && q in k.ready)
  {
    if k.procs[p].state.Ready? {
      WithoutMembers(k.ready, p);
      var r := Without(k.ready, p);
      forall i | 0 <= i < |r| ensures 0 <= r[i] < |k.procs| { assert r[i] in r; }
    }
  }

  lemma KillKeeps(k: Table, p: int)
    requires Valid(k) && Enabled(k, KillOf(p))
    ensures Valid(Kill(k, p))
  {
    RetireKeeps(k, p, Unused);
    InsertMembers(k.free, p);
    var f := Insert(k.free, p);
    forall i | 0 <= i < |f| ensures 0 <= f[i] < |k.procs| { assert f[i] in f; }
  }

  lemma StopKeeps(k: Table, p: int, val: int)
    requires Valid(k) && Enabled(k, ExitOf(p, val))
    ensures Valid(Retire(Put(k, p, k.procs[p].(exitVal := val)), p, Stopped))
  {
    var k1 := Put(k, p, k.procs[p].(exitVal := val));
    PutKeeps(k, p, k1.procs[p]);
    RetireKeeps(k1, p, Stopped);
  }

  lemma ExitKeeps(k: Table, p: int, val: int)
    requires Valid(k) && Enabled(k, ExitOf(p, val))
    ensures Valid(Exit(k, p, val))
  {
    StopKeeps(k, p, val);
    RaiseKeeps(Retire(Put(k, p, k.procs[p].(exitVal := val)), p, Stopped), k.procs[p].ppid, Child);
  }

  /** The running slot, the idle task and the unused slots may not be ended. */
  predicate MayEnd(k: Table, p: int)
    requires IsPid(k, p)
  {
    p != k.cur && p != Idle(k) && !k.procs[p].state.Unused?
  }

  /** proc_kill keeps the table well formed for exactly the slots that may be ended. */
  lemma KillKeepsIff(k: Table, p: int)
    requires Valid(k) && IsPid(k, p)
    ensures Valid(Kill(k, p)) <==> MayEnd(k, p)
  {
    if MayEnd(k, p) {
      KillKeeps(k, p);
    } else if k.procs[p].state.Unused? {
      TwiceInRing(k.free, p);
    } else {
      WithoutMembers(k.ready, p);
      assert p !in Kill(k, p).ready;
    }
  }

  /** proc_exit likewise. */
  lemma ExitKeepsIff(k: Table, p: int, val: int)
    requires Valid(k) && IsPid(k, p)
    ensures Valid(Exit(k, p, val)) <==> MayEnd(k, p)
  {
    if MayEnd(k, p) {
      ExitKeeps(k, p, val);
    } else {
      if k.procs[p].state.Ready? { WithoutMembers(k.ready, p); }
      StoppedStaysBroken(Retire(Put(k, p, k.procs[p].(exitVal := val)), p, Stopped), p, k.procs[p].ppid);
    }
  }

  /** Signalling a parent repairs nothing. */
  lemma StoppedStaysBroken(k: Table, p: int, q: int)
    requires IsPid(k, p) && IsPid(k, q) && k.procs[p].state.Stopped? && p !in k.ready
    requires p == k.cur || p == Idle(k) || p in k.free
    ensures !Valid(Raise(k, q, Child))
  {
    InsertMembers(k.ready, q);
    assert p !in Raise(k, q, Child).ready;
  }

  lemma TwiceInRing(s: seq<int>, x: int)
    requires x in s
    ensures !Distinct(Insert(s, x))
  {
    var i :| 0 <= i < |s| && s[i] == x;
    var t := Insert(s, x);
    assert t[1] == x && t[if i == 0 then 0 else i + 1] == x;
  }

  lemma TakeFreeKeeps(k: Table, s: int, d: Proc)
    requires Valid(k) && s in k.free && 0 <= d.ppid < |k.procs| && !d.state.Unused?
    ensures
      var k1 := k.(procs := k.procs[s := d], free := TakenFrom(k.free, s));
      Valid(if d.state.Ready? then k1.(ready := Insert(k.ready, s)) else k1)
  {
    assert IsPid(k, s);
    TakenFromMembers(k.free, s);
    InsertMembers(k.ready, s);
    var f := TakenFrom(k.free, s);
    forall i | 0 <= i < |f| ensures 0 <= f[i] < |k.procs| { assert f[i] in f; }
  }

  lemma ForkKeeps(k: Table, p: int, memory: bool)
    requires Valid(k) && Enabled(k, ForkOf(p, memory))
    ensures Valid(Fork(k, p, memory).0)
  {
    if k.free != [] {
      var d := k.procs[p].(ppid := p);
      TakeFreeKeeps(k, k.free[0], if memory then d.(state := Blocked) else d);
    }
  }

  /** A fork that fails gives its slot back, that is, leaves the table as it was, exactly when there
      was no slot to take; otherwise the slot is in neither ring and no longer unused. */
  lemma FailedForkLosesSlotIff(k: Table, p: int, memory: bool)
    requires Valid(k) && IsPid(k, p)
    ensures Fork(k, p, memory).1 == NONE <==> k.free == [] || !memory
    ensures Fork(k, p, memory).1 == NONE ==> (Fork(k, p, memory).0 == k <==> k.free == [])
    ensures Fork(k, p, memory).1 == NONE && k.free != [] ==>
              var k1, s := Fork(k, p, memory).0, k.free[0];
              k.procs[s].state.Unused? && k1.procs[s] == k.procs[p].(ppid := p)
              && s !in k1.free && s !in k1.ready && |k1.free| == |k.free| - 1
  {
    if k.free != [] {
      assert k.free[0] in k.free && k.free[0] !in k.ready;
      TakenFromMembers(k.free, k.free[0]);
    }
  }

  /** With a free slot, fork of any process keeps the table and the rings in agreement exactly when
      memory was found or the parent is blocked or stopped: without memory the child keeps the
      parent's state, and a ready child would be in no ring. */
  lemma ForkKeepsIff(k: Table, p: int, memory: bool)
    requires Valid(k) && IsPid(k, p) && k.free != []
    ensures Valid(Fork(k, p, memory).0) <==> memory || k.procs[p].state.Blocked? || k.procs[p].state.Stopped?
  {
    var d := k.procs[p].(ppid := p);
    TakenFromMembers(k.free, k.free[0]);
    if memory || d.state.Blocked? || d.state.Stopped? {
      TakeFreeKeeps(k, k.free[0], if memory then d.(state := Blocked) else d);
    } else if d.state.Ready? {
      assert k.free[0] !in k.ready;
    }
  }

  /** proc_create_task returns the slot it used exactly when the slot was named and unused, or when
      there was none; asked for any slot it returns ANY instead of the slot. */
  lemma TaskNumberIsSlotIff(k: Table, p: int)
    requires Valid(k) && (p == ANY || IsPid(k, p))
    ensures CreateTask(k, p).1 == TaskSlot(k, p) <==>
              (p != ANY && k.procs[p].state.Unused?) || TaskSlot(k, p) == NONE
    ensures p == ANY && k.free != [] ==> CreateTask(k, p).1 == ANY && TaskSlot(k, p) == k.free[0] >= 0
  {
    if k.free != [] { assert k.free[0] in k.free; }
  }

  lemma CreateTaskKeeps(k: Table, p: int)
    requires Valid(k) && Enabled(k, NewTask(p))
    ensures Valid(CreateTask(k, p).0)
  {
    var s := TaskSlot(k, p);
    if s != NONE { TakeFreeKeeps(k, s, TaskProc()); }
  }

  lemma CreateInitKeeps(k: Table)
    requires Valid(k)
    ensures Valid(CreateInit(k).0)
  {
    if k.free != [] {
      TakeFreeKeeps(k, k.free[0], Proc(Blocked, NONE, NONE, BLANK, {}, ROOT_UID, 0, 0, 0));
    }
  }

  /** One step of the process manager. Every step keeps the rings and the table in agreement. */
  function Step(k: Table, e: Event): (r: Table)
    requires Valid(k) && Enabled(k, e)
    ensures Valid(r) && |r.procs| == |k.procs|
  {
    match e
    case Call(t, msg, send, recv) => SendReceiveKeeps(k, t, msg, send, recv); SendReceive(k, t, msg, send, recv).k
    case Interrupt => RescheduleKeeps(k); Reschedule(k)
    case Sig(p, sig) => RaiseKeeps(k, p, sig); Raise(k, p, sig)
    case WaitFor(p) => PutKeeps(k, p, k.procs[p].(mFrom := NONE, mTo := NONE)); Wait(k, p)
    case ExitOf(p, val) => ExitKeeps(k, p, val); Exit(k, p, val)
    case KillOf(p) => KillKeeps(k, p); Kill(k, p)
    case ForkOf(p, memory) => ForkKeeps(k, p, memory); Fork(k, p, memory).0
    case NewTask(p) => CreateTaskKeeps(k, p); CreateTask(k, p).0
    case NewInit => CreateInitKeeps(k); CreateInit(k).0
  }
}
