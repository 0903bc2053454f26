/** Signals, exits, waits, forks and creations: what they mean for the process concerned, and how long
    it lasts. */
module Lifecycle {
  import opened Rings
  import opened Kernel
  import opened KernelInvariants
  import opened Rendezvous
  import opened Delivery
  import opened Replies

  // ---------------------------------------------------------------- signals

  /** A signal makes a blocked process ready, without a wait or a message to send, and with an abort as
      the value of its call; a ready process keeps it in mind; others do not notice. */
  lemma SignalReaches(k: Table, p: int, sig: Signal)
    requires Valid(k) && IsPid(k, p)
    ensures
      var k1 := Raise(k, p, sig);
      && (k.procs[p].state.Blocked? ==>
            p in k1.ready && k1.procs[p].d0 == EABORT && !IsBlocked(k1, p)
            && (forall recv :: ResumeValue(k1.procs[p], recv) == EABORT))
      && (k.procs[p].state.Ready? ==> sig in k1.procs[p].signals && k.procs[p].signals <= k1.procs[p].signals)
      && (!k.procs[p].state.Blocked? && !k.procs[p].state.Ready? ==> k1 == k)
      && (forall q :: IsPid(k, q) && q != p ==> Untouched(k, k1, q))
  {
    InsertMembers(k.ready, p);
  }

  /** Neither a call of slot p nor its end. */
  predicate LeavesAlone(k: Table, e: Event, p: int) {
    && !(e.Call? && k.cur == p) && e != KillOf(p) && !(e.ExitOf? && e.p == p)
  }

  /** Slot p is ready and has signals. */
  predicate Signalled(k: Table, p: int, sigs: set<Signal>) {
    IsPid(k, p) && k.procs[p].state.Ready? && sigs <= k.procs[p].signals
  }

  /** Signals stay until the process makes a call or is ended. */
  lemma SignalStays(k: Table, e: Event, p: int, sigs: set<Signal>)
    requires Valid(k) && Enabled(k, e) && Signalled(k, p, sigs) && LeavesAlone(k, e, p)
    ensures Signalled(Step(k, e), p, sigs)
  {
    match e
    case Call(t, msg, send, recv) => ReadyIsUntouched(k, t, msg, send, recv, p);
    case ForkOf(parent, memory) => CreationTakesUnused(k, e, p);
    case NewTask(q) => CreationTakesUnused(k, e, p);
    case NewInit => CreationTakesUnused(k, e, p);
    case ExitOf(q, val) => ExitLeavesOthers(k, q, val, p);
    case _ =>
  }

  /** Forks and creations change an unused slot only. */
  lemma CreationTakesUnused(k: Table, e: Event, p: int)
    requires Valid(k) && Enabled(k, e) && (e.ForkOf? || e.NewTask? || e.NewInit?)
    requires IsPid(k, p) && !k.procs[p].state.Unused?
    ensures Untouched(k, Step(k, e), p)
  {
    assert k.free != [] ==> k.free[0] in k.free;
  }

  /** An exit changes the process and signals its parent. */
  lemma ExitLeavesOthers(k: Table, q: int, val: int, p: int)
    requires Valid(k) && Enabled(k, ExitOf(q, val)) && IsPid(k, p) && p != q
    ensures
      var k1 := Step(k, ExitOf(q, val));
      IsPid(k1, p) && if p == k.procs[q].ppid && k.procs[p].state.Ready?
                      then k1.procs[p] == k.procs[p].(signals := k.procs[p].signals + {Child})
                      else p == k.procs[q].ppid || k1.procs[p] == k.procs[p]
  {
    assert Step(k, ExitOf(q, val)) == Exit(k, q, val);
  }

  /** A call changes its caller and blocked slots only. */
  lemma ReadyIsUntouched(k: Table, t: int, msg: Message, send: bool, recv: bool, p: int)
    requires Valid(k) && Enabled(k, Call(t, msg, send, recv))
    requires IsPid(k, p) && p != k.cur && !k.procs[p].state.Blocked?
    ensures Untouched(k, SendReceive(k, t, msg, send, recv).k, p)
  {
    CallEffect(k, t, msg, send, recv);
    var o := SendReceive(k, t, msg, send, recv);
    if !(send && Expects(k, t)) && o.copies != [] {
      var s :| TakesOne(k, o, t, recv, [], s);
      assert Untouched(k, o.k, p);
    }
  }

  /** Whole runs that leave p alone. */
  ghost predicate QuietFor(k: Table, es: seq<Event>, p: int)
    requires Valid(k) && Follows(k, es)
    decreases |es|
  {
    es == [] || (LeavesAlone(k, es[0], p) && QuietFor(Step(k, es[0]), es[1..], p))
  }

  lemma {:induction false} SignalStaysOver(k: Table, es: seq<Event>, p: int, sigs: set<Signal>)
    requires Valid(k) && Follows(k, es) && Signalled(k, p, sigs) && QuietFor(k, es, p)
    ensures Signalled(AfterRun(k, es), p, sigs)
    decreases |es|
  {
    if es != [] {
      SignalStays(k, es[0], p, sigs);
      SignalStaysOver(Step(k, es[0]), es[1..], p, sigs);
    }
  }

  /** The call returns at once, and with an abort where it would have to wait. */
  ghost predicate ReturnsAtOnce(k: Table, t: int, msg: Message, send: bool, recv: bool)
    requires Valid(k) && Enabled(k, Call(t, msg, send, recv))
  {
    var o := SendReceive(k, t, msg, send, recv);
    && IsPid(o.k, k.cur) && o.reply.Returns? && o.k.procs[k.cur].state.Ready?
    && (forall unsent :: WaitsOrAborts(k, o, t, unsent, recv) ==> o.reply == Returns(EABORT))
  }

  lemma SignalledReturns(k: Table, t: int, msg: Message, send: bool, recv: bool)
    requires Valid(k) && Enabled(k, Call(t, msg, send, recv)) && k.procs[k.cur].signals != {}
    ensures ReturnsAtOnce(k, t, msg, send, recv)
  {
    CallReply(k, t, msg, send, recv);
    SendReceiveKeeps(k, t, msg, send, recv);
    CallerStaysReady(k, t, msg, send, recv);
  }

  /** A ready process that is signalled does not block in its next call, however much later that is. */
  lemma NextCallAborts(k: Table, p: int, sig: Signal, es: seq<Event>, t: int, msg: Message, send: bool, recv: bool)
    requires Valid(k) && Follows(k, es) && Signalled(k, p, {sig}) && QuietFor(k, es, p)
    ensures var k1 := AfterRun(k, es);
      k1.cur == p && Enabled(k1, Call(t, msg, send, recv)) ==> ReturnsAtOnce(k1, t, msg, send, recv)
  {
    SignalStaysOver(k, es, p, {sig});
    var k1 := AfterRun(k, es);
    if k1.cur == p && Enabled(k1, Call(t, msg, send, recv)) {
      assert sig in k1.procs[p].signals;
      SignalledReturns(k1, t, msg, send, recv);
    }
  }

  /** A caller that is not suspended goes on. */
  lemma CallerStaysReady(k: Table, t: int, msg: Message, send: bool, recv: bool)
    requires Valid(k) && Enabled(k, Call(t, msg, send, recv))
    ensures var o := SendReceive(k, t, msg, send, recv); o.reply.Returns? ==> o.k.procs[k.cur].state.Ready?
  {
    RunningIsNotAlone(k);
  }

  // ---------------------------------------------------------------- exit and wait

  /** Slot p has stopped with a value. */
  predicate Exited(k: Table, p: int, val: int) {
    IsPid(k, p) && k.procs[p].state.Stopped? && k.procs[p].exitVal == val
  }

  /** An exit stops the process, off the ready ring, with its value, and its parent has the child signal
      or is woken with an abort. */
  lemma ExitStops(k: Table, p: int, val: int)
    requires Valid(k) && Enabled(k, ExitOf(p, val))
    ensures
      var k1, q := Step(k, ExitOf(p, val)), k.procs[p].ppid;
      && Exited(k1, p, val) && p !in k1.ready
      && (q != p && k.procs[q].state.Ready? ==> Child in k1.procs[q].signals)
      && (q != p && k.procs[q].state.Blocked? ==> k1.procs[q].state.Ready? && k1.procs[q].d0 == EABORT)
  {
    var k2 := Retire(Put(k, p, k.procs[p].(exitVal := val)), p, Stopped);
    assert Step(k, ExitOf(p, val)) == Raise(k2, k.procs[p].ppid, Child);
    StopKeeps(k, p, val);
    SignalReaches(k2, k.procs[p].ppid, Child);
    assert Untouched(k2, Raise(k2, k.procs[p].ppid, Child), p) || k.procs[p].ppid == p;
  }

  /** The exit value stays readable until the slot is freed. */
  lemma ExitValueStays(k: Table, e: Event, p: int, val: int)
    requires Valid(k) && Enabled(k, e) && Exited(k, p, val) && LeavesAlone(k, e, p)
    ensures Exited(Step(k, e), p, val)
  {
    match e
    case Call(t, msg, send, recv) => ReadyIsUntouched(k, t, msg, send, recv, p);
    case ForkOf(parent, memory) => CreationTakesUnused(k, e, p);
    case NewTask(q) => CreationTakesUnused(k, e, p);
    case NewInit => CreationTakesUnused(k, e, p);
    case ExitOf(q, v) => ExitLeavesOthers(k, q, v, p);
    case _ =>
  }

  lemma {:induction false} ExitValueStaysOver(k: Table, es: seq<Event>, p: int, val: int)
    requires Valid(k) && Follows(k, es) && Exited(k, p, val) && QuietFor(k, es, p)
    ensures Exited(AfterRun(k, es), p, val)
    decreases |es|
  {
    if es != [] {
      ExitValueStays(k, es[0], p, val);
      ExitValueStaysOver(Step(k, es[0]), es[1..], p, val);
    }
  }

  /** Slot p is blocked and waits for no message: wait leaves a process so, and it is how the first user
      process starts. */
  predicate Asleep(k: Table, p: int) {
    IsBlocked(k, p) && k.procs[p].mFrom == NONE && k.procs[p].mTo == NONE
  }

  lemma WaitSilences(k: Table, p: int)
    requires Valid(k) && IsBlocked(k, p)
    ensures Asleep(Step(k, WaitFor(p)), p)
  {
  }

  /** No call and no other event but a signal, or its end, gets a sleeping process going. */
  lemma AsleepUntilSignal(k: Table, e: Event, p: int)
    requires Valid(k) && Enabled(k, e) && Asleep(k, p)
    ensures p in Cancels(k, e) || Asleep(Step(k, e), p)
  {
    match e
    case Call(t, msg, send, recv) => AsleepIsUntouched(k, t, msg, send, recv, p);
    case ForkOf(parent, memory) => CreationTakesUnused(k, e, p);
    case NewTask(q) => CreationTakesUnused(k, e, p);
    case NewInit => CreationTakesUnused(k, e, p);
    case ExitOf(q, val) => if p != q { ExitLeavesOthers(k, q, val, p); }
    case _ =>
  }

  lemma AsleepIsUntouched(k: Table, t: int, msg: Message, send: bool, recv: bool, p: int)
    requires Valid(k) && Enabled(k, Call(t, msg, send, recv)) && Asleep(k, p)
    ensures Untouched(k, SendReceive(k, t, msg, send, recv).k, p)
  {
    CallEffect(k, t, msg, send, recv);
    var o := SendReceive(k, t, msg, send, recv);
    if send && Expects(k, t) {
      assert p != t;
    } else if o.copies != [] {
      var s :| TakesOne(k, o, t, recv, [], s);
      assert p != s;
    }
  }

  // ---------------------------------------------------------------- creation

  /** A fork that finds memory makes an unused slot a copy of its parent that waits for the same answer,
      with the same buffer, owner and signals; the parent itself does not change. */
  lemma ForkedChild(k: Table, parent: int)
    requires Valid(k) && Enabled(k, ForkOf(parent, true)) && k.free != []
    ensures
      var (k1, child) := Fork(k, parent, true);
      && k1 == Step(k, ForkOf(parent, true)) && IsPid(k, child) && k.procs[child].state.Unused?
      && AwaitsAnswer(k1, child) && k1.procs[child] == k1.procs[parent].(ppid := parent)
      && Untouched(k, k1, parent) && AwaitsAnswer(k1, parent)
  {
    assert k.free[0] in k.free;
  }

  /** The first user process starts asleep. */
  lemma InitStartsAsleep(k: Table)
    requires Valid(k) && k.free != []
    ensures var (k1, p) := CreateInit(k);
      IsPid(k, p) && k.procs[p].state.Unused? && Asleep(k1, p) && k1.procs[p].uid == ROOT_UID && k1.procs[p].ppid == 0
  {
    assert k.free[0] in k.free;
  }

  /** A created task is ready, belongs to the kernel and has no message, no signal and no parent but
      task 0; the running process goes on. */
  lemma CreatedTask(k: Table, p: int)
    requires Valid(k) && (p == ANY || IsPid(k, p)) && TaskSlot(k, p) != NONE
    ensures var k1, s := CreateTask(k, p).0, TaskSlot(k, p);
      && IsPid(k, s) && k.procs[s].state.Unused? && s in k1.ready && k1.cur == k.cur
      && k1.procs[s].uid == KERNEL_UID && k1.procs[s].signals == {} && k1.procs[s].ppid == 0
  {
    assert k.free != [] ==> k.free[0] in k.free;
    InsertMembers(k.ready, TaskSlot(k, p));
  }

  /** Scheduling a ready slot by name makes it run, and changes nothing else but where the ring starts. */
  lemma NamedSlotRuns(k: Table, p: int)
    requires Valid(k) && IsPid(k, p) && k.procs[p].state.Ready?
    ensures
      var k1 := SwitchTo(k, p);
      && Valid(k1) && k1.cur == p && k1.procs == k.procs && k1.free == k.free
      && exists i :: 0 <= i < |k.ready| && k.ready[i] == p && k1.ready == k.ready[i..] + k.ready[..i]
  {
    var i := IndexOf(k.ready, p);
    RotateMembers(k.ready, i);
    assert SwitchTo(k, p).ready == k.ready[i..] + k.ready[..i];
  }

  /** Whoever becomes ready gets the next turn: a process woken by a signal, */
  lemma WokenIsNext(k: Table, p: int, sig: Signal)
    requires Valid(k) && IsBlocked(k, p)
    ensures Next(Raise(k, p, sig)).cur == p
  {
    assert Raise(k, p, sig).ready == [k.ready[0], p] + k.ready[1..];
  }

  /** a receiver that is handed a message by a process that goes on, */
  lemma ReceiverIsNext(k: Table, t: int, msg: Message)
    requires Valid(k) && Enabled(k, Call(t, msg, true, false)) && Expects(k, t)
    ensures var k1 := SendReceive(k, t, msg, true, false).k; k1.ready != [] && Next(k1).cur == t
  {
    RunningIsNotAlone(k);
    var c := k.cur;
    var k1 := Put(Put(k, c, k.procs[c].(msg := msg)), c, k.procs[c].(msg := msg).(mTo := t));
    assert SendReceive(k, t, msg, true, false) == ReceivePart(HandOver(k1, t), t, false, [Copy(c, t, msg)]);
    assert HandOver(k1, t).ready == [k.ready[0], t] + k.ready[1..];
  }

  /** and a created task. */
  lemma CreatedIsNext(k: Table, p: int)
    requires Valid(k) && (p == ANY || IsPid(k, p)) && TaskSlot(k, p) != NONE
    ensures var k1 := CreateTask(k, p).0; k1.ready != [] && Next(k1).cur == TaskSlot(k, p)
  {
    assert CreateTask(k, p).0.ready == [k.ready[0], TaskSlot(k, p)] + k.ready[1..];
  }
}
