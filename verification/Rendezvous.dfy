/** No rendezvous is ever missed: in every reachable state of the process manager there is no
    blocked sender whose receiver is blocked waiting for it, and no two processes block each
    other by sending to each other. */
module Rendezvous {
  import opened Rings
  import opened Kernel
  import opened KernelInvariants

  /** p is blocked sending to q while q is blocked ready to receive from p. */
  ghost predicate Missed(k: Table, p: int, q: int) {
    && p != q && IsBlocked(k, p) && IsBlocked(k, q)
    && k.procs[p].mTo == q && k.procs[q].mTo == NONE
    && (k.procs[q].mFrom == p || k.procs[q].mFrom == ANY)
  }

  /** p and q are each blocked sending to the other. */
  ghost predicate TwoWay(k: Table, p: int, q: int) {
    && p != q && IsBlocked(k, p) && IsBlocked(k, q)
    && k.procs[p].mTo == q && k.procs[q].mTo == p
  }

  /** A blocked sender sends to a slot and waits, if at all, for an answer of that slot. */
  ghost predicate WaitOk(k: Table, p: int) {
    IsBlocked(k, p) ==>
      var d := k.procs[p];
      && (d.mTo == NONE || IsPid(k, d.mTo))
      && (d.mFrom == NONE || d.mFrom == ANY || IsPid(k, d.mFrom))
      && (d.mTo != NONE && d.mFrom != NONE ==> d.mFrom == d.mTo)
  }

  ghost predicate Live(k: Table) {
    && (forall p :: WaitOk(k, p))
    && (forall p, q :: !Missed(k, p, q))
    && (forall p, q :: !TwoWay(k, p, q))
  }

  /** Every slot blocked in k1 is blocked in k, in the same communication. */
  ghost predicate FewerBlocked(k: Table, k1: Table) {
    && |k1.procs| == |k.procs|
    && forall p :: IsBlocked(k1, p) ==>
         IsBlocked(k, p) && k1.procs[p].mTo == k.procs[p].mTo && k1.procs[p].mFrom == k.procs[p].mFrom
  }

  lemma FewerBlockedLive(k: Table, k1: Table)
    requires Live(k) && FewerBlocked(k, k1)
    ensures Live(k1)
  {
    forall p ensures WaitOk(k1, p) { assert WaitOk(k, p); }
    forall p, q ensures !Missed(k1, p, q) && !TwoWay(k1, p, q) {
      assert !Missed(k, p, q) && !TwoWay(k, p, q);
    }
  }

  /** The running process has found nobody to communicate with and may block. */
  ghost predicate MayBlock(k: Table) {
    && IsPid(k, k.cur) && !IsBlocked(k, k.cur)
    && var c, d := k.cur, k.procs[k.cur];
       if d.mTo == NONE then
         && (d.mFrom == NONE || d.mFrom == ANY || IsPid(k, d.mFrom))
         && forall s :: SendsTo(k, s, c) ==> d.mFrom != s && d.mFrom != ANY
       else
         && IsPid(k, d.mTo) && (d.mFrom == NONE || d.mFrom == d.mTo)
         && (IsBlocked(k, d.mTo) ==>
              k.procs[d.mTo].mFrom != c && k.procs[d.mTo].mFrom != ANY && k.procs[d.mTo].mTo != c)
  }

  lemma BlockLive(k: Table, d: Proc)
    requires Live(k) && MayBlock(k) && d == k.procs[k.cur].(state := Blocked)
    ensures Live(Put(k, k.cur, d))
  {
    var c := k.cur;
    var k1 := Put(k, c, d);
    forall p ensures WaitOk(k1, p) { assert WaitOk(k, p); }
    forall p, q ensures !Missed(k1, p, q) && !TwoWay(k1, p, q) {
      assert !Missed(k, p, q) && !TwoWay(k, p, q);
      if p != c && q == c { assert SendsTo(k1, p, c) ==> SendsTo(k, p, c); }
      if p == c && q != c { assert SendsTo(k1, q, c) ==> SendsTo(k, q, c); }
    }
  }

  lemma SettleLive(k: Table, t: int, copies: seq<Copy>)
    requires Valid(k) && k.cur != Idle(k) && Live(k) && MayBlock(k) && |k.ready| > 1
    ensures Live(Settle(k, t, copies).k)
  {
    var c := k.cur;
    var d := k.procs[c];
    if !(d.mFrom == NONE && d.mTo == NONE) {
      SettleKeeps(k, t, copies);
      if d.signals == {} {
        BlockLive(k, d.(state := Blocked));
        FewerBlockedLive(Put(k, c, d.(state := Blocked)), Settle(k, t, copies).k);
      } else {
        FewerBlockedLive(k, Settle(k, t, copies).k);
      }
    }
  }

  lemma TakeFromLive(k: Table, s: int)
    requires Valid(k) && Live(k) && SendsTo(k, s, k.cur)
    ensures Live(TakeFrom(k, s))
  {
    var c := k.cur;
    var k1 := TakeFrom(k, s);
    forall p ensures WaitOk(k1, p) { assert WaitOk(k, p); }
    forall p, q ensures !Missed(k1, p, q) && !TwoWay(k1, p, q) {
      assert !Missed(k, p, q) && !TwoWay(k, p, q);
      assert WaitOk(k, s) && WaitOk(k, p);
    }
  }

  lemma ReceivePartLive(k: Table, t: int, recv: bool, copies: seq<Copy>)
    requires Valid(k) && Live(k) && k.cur != Idle(k) && (t == ANY || IsPid(k, t)) && |k.ready| > 1
    requires var d := k.procs[k.cur];
             d.mTo == NONE || (d.mTo == t && IsPid(k, t) && (IsBlocked(k, t) ==>
               k.procs[t].mFrom != k.cur && k.procs[t].mFrom != ANY && k.procs[t].mTo != k.cur))
    ensures Live(ReceivePart(k, t, recv, copies).k)
  {
    var c := k.cur;
    var k1 := Put(k, c, k.procs[c].(mFrom := if recv then t else NONE));
    FewerBlockedLive(k, k1);
    if recv && k.procs[c].mTo == NONE {
      var s := if t == ANY then FirstSender(k1, c, 0) else t;
      if s != ANY && SendsTo(k1, s, c) {
        TakeFromLive(k1, s);
      } else {
        assert MayBlock(k1);
        SettleLive(k1, s, copies);
      }
    } else {
      assert MayBlock(k1);
      SettleLive(k1, t, copies);
    }
  }

  lemma SendReceiveLive(k: Table, t: int, msg: Message, send: bool, recv: bool)
    requires Valid(k) && Live(k) && Enabled(k, Call(t, msg, send, recv))
    ensures Live(SendReceive(k, t, msg, send, recv).k)
  {
    RunningIsNotAlone(k);
    var c := k.cur;
    var k0 := Put(k, c, k.procs[c].(msg := msg));
    if !send {
      var k1 := Put(k0, c, k0.procs[c].(mTo := NONE));
      FewerBlockedLive(k, k1);
      ReceivePartLive(k1, t, recv, []);
    } else if t == ANY {
      FewerBlockedLive(k, k0);
    } else {
      var k1 := Put(k0, c, k0.procs[c].(mTo := t));
      FewerBlockedLive(k, k1);
      SendLive(k1, t, recv, msg);
    }
  }

  /** The rest of a call once its destination has been entered. */
  lemma SendLive(k: Table, t: int, recv: bool, msg: Message)
    requires Valid(k) && Live(k) && k.cur != Idle(k) && IsPid(k, t) && k.procs[k.cur].mTo == t && |k.ready| > 1
    ensures
      var r, c := k.procs[t], k.cur;
      if r.state.Blocked? && (r.mFrom == c || r.mFrom == ANY)
      then Live(ReceivePart(HandOver(k, t), t, recv, [Copy(c, t, msg)]).k)
      else (r.state.Blocked? && r.mTo == c) || Live(ReceivePart(k, t, recv, []).k)
  {
    var r, c := k.procs[t], k.cur;
    if r.state.Blocked? && (r.mFrom == c || r.mFrom == ANY) {
      HandOverKeeps(k, t);
      FewerBlockedLive(k, HandOver(k, t));
      ReceivePartLive(HandOver(k, t), t, recv, [Copy(c, t, msg)]);
    } else if !(r.state.Blocked? && r.mTo == c) {
      ReceivePartLive(k, t, recv, []);
    }
  }

  lemma ExitFewerBlocked(k: Table, p: int, val: int)
    requires Valid(k) && Enabled(k, ExitOf(p, val))
    ensures FewerBlocked(k, Exit(k, p, val))
  {
    var k1 := Retire(Put(k, p, k.procs[p].(exitVal := val)), p, Stopped);
    assert FewerBlocked(k, k1);
    assert FewerBlocked(k1, Raise(k1, k.procs[p].ppid, Child));
  }

  /** The child waits for the answer its parent waits for; the answering process is running,
      so it is not blocked sending to the new slot. */
  lemma ForkLive(k: Table, parent: int, memory: bool)
    requires Valid(k) && Live(k) && Enabled(k, ForkOf(parent, memory))
    ensures Live(Fork(k, parent, memory).0)
  {
    if k.free != [] {
      var k1 := Fork(k, parent, memory).0;
      forall p ensures WaitOk(k1, p) { assert WaitOk(k, p) && WaitOk(k, parent); }
      forall p, q ensures !Missed(k1, p, q) && !TwoWay(k1, p, q) {
        assert !Missed(k, p, q) && !TwoWay(k, p, q);
      }
    }
  }

  lemma CreateInitLive(k: Table)
    requires Valid(k) && Live(k)
    ensures Live(CreateInit(k).0)
  {
    if k.free != [] {
      var k1 := CreateInit(k).0;
      forall p ensures WaitOk(k1, p) { assert WaitOk(k, p); }
      forall p, q ensures !Missed(k1, p, q) && !TwoWay(k1, p, q) {
        assert !Missed(k, p, q) && !TwoWay(k, p, q);
      }
    }
  }

  /** Every step keeps rendezvous from being missed. */
  lemma StepLive(k: Table, e: Event)
    requires Valid(k) && Live(k) && Enabled(k, e)
    ensures Live(Step(k, e))
  {
    match e
    case Call(t, msg, send, recv) => SendReceiveLive(k, t, msg, send, recv);
    case Interrupt => FewerBlockedLive(k, Reschedule(k));
    case Sig(p, sig) => FewerBlockedLive(k, Raise(k, p, sig));
    case WaitFor(p) => WaitLive(k, p);
    case ExitOf(p, val) => ExitFewerBlocked(k, p, val); FewerBlockedLive(k, Exit(k, p, val));
    case KillOf(p) => FewerBlockedLive(k, Kill(k, p));
    case ForkOf(p, memory) => ForkLive(k, p, memory);
    case NewTask(p) =>
      FewerBlockedLive(k, CreateTask(k, p).0);
    case NewInit => CreateInitLive(k);
  }

  lemma WaitLive(k: Table, p: int)
    requires Valid(k) && Live(k) && IsPid(k, p)
    ensures Live(Wait(k, p))
  {
    var k1 := Wait(k, p);
    forall q ensures WaitOk(k1, q) { assert WaitOk(k, q); }
    forall q, r ensures !Missed(k1, q, r) && !TwoWay(k1, q, r) {
      assert !Missed(k, q, r) && !TwoWay(k, q, r);
    }
  }

  // ---------------------------------------------------------------- whole runs

  /** The table right after start-up: n slots, the idle task in the last one and the system
      task, which runs, in the first. */
  function Empty(n: nat): Table {
    Table(seq(n, i => Proc(Unused, 0, 0, BLANK, {}, 0, 0, 0, 0)), [], seq(n, i => i), NONE)
  }

  function Boot(n: nat): (k: Table)
    requires n >= 2
    ensures Started(k, n) && Valid(k) && Live(k) && forall p :: !IsBlocked(k, p)
  {
    SwitchStarts(WithSystem(n), n);
    var k := SwitchTo(WithSystem(n), 0);
    StartedIsLive(k, n);
    k
  }

  function WithIdle(n: nat): (k: Table)
    requires n >= 2
    ensures OneTask(k, n)
  {
    IdleShape(n);
    CreateTask(Empty(n), n - 1).0
  }

  function WithSystem(n: nat): (k: Table)
    requires n >= 2
    ensures TwoTasks(k, n)
  {
    SystemShape(WithIdle(n), n);
    CreateTask(WithIdle(n), 0).0
  }

  /** The free slots are those from lo to hi - 1. */
  ghost predicate FreeBetween(k: Table, n: nat, lo: int, hi: int) {
    InRange(k.free, n) && Distinct(k.free) && forall p :: p in k.free <==> lo <= p < hi
  }

  /** The table with its idle task. */
  ghost predicate OneTask(k: Table, n: nat) {
    n >= 2 && k.procs == Empty(n).procs[n - 1 := TaskProc()] && k.ready == [n - 1] && FreeBetween(k, n, 0, n - 1)
  }

  /** The table with idle and system task. */
  ghost predicate TwoTasks(k: Table, n: nat) {
    && n >= 2 && k.procs == Empty(n).procs[n - 1 := TaskProc()][0 := TaskProc()]
    && k.ready == [n - 1, 0] && FreeBetween(k, n, 1, n - 1)
  }

  lemma IdleShape(n: nat)
    requires n >= 2
    ensures FreeBetween(Empty(n), n, 0, n) && OneTask(CreateTask(Empty(n), n - 1).0, n)
  {
    var k := Empty(n);
    forall p ensures p in k.free <==> 0 <= p < n { assert 0 <= p < n ==> k.free[p] == p; }
    TakenFromMembers(k.free, n - 1);
    var k1 := CreateTask(k, n - 1).0;
    forall i | 0 <= i < |k1.free| ensures 0 <= k1.free[i] < n { assert k1.free[i] in k1.free; }
  }

  lemma SystemShape(k: Table, n: nat)
    requires OneTask(k, n)
    ensures TwoTasks(CreateTask(k, 0).0, n)
  {
    assert 0 in k.free;
    TakenFromMembers(k.free, 0);
    var k1 := CreateTask(k, 0).0;
    forall i | 0 <= i < |k1.free| ensures 0 <= k1.free[i] < n { assert k1.free[i] in k1.free; }
  }

  /** After start-up the system task runs, the idle task is ready, all other slots are free. */
  ghost predicate Started(k: Table, n: nat) {
    && n >= 2 && |k.procs| == n && k.ready == [0, n - 1] && k.cur == 0
    && k.procs[0] == TaskProc() && k.procs[n - 1] == TaskProc()
    && (forall p :: 0 < p < n - 1 ==> k.procs[p].state.Unused? && k.procs[p].ppid == 0)
    && InRange(k.free, n) && Distinct(k.free) && forall p :: p in k.free <==> 0 < p < n - 1
  }

  lemma StartedIsLive(k: Table, n: nat)
    requires Started(k, n)
    ensures Valid(k) && Live(k) && forall p :: !IsBlocked(k, p)
  {
    forall p ensures !IsBlocked(k, p) { }
    forall p, q ensures WaitOk(k, p) && !Missed(k, p, q) && !TwoWay(k, p, q) { }
  }

  lemma SwitchStarts(k: Table, n: nat)
    requires TwoTasks(k, n)
    ensures k.procs[0].state.Ready? && 0 in k.ready && Started(SwitchTo(k, 0), n)
  {
    assert k.ready[1] == 0;
    assert IndexOf(k.ready, 0) == 1;
    assert Rotate(k.ready, 1) == [0, n - 1];
  }

  /** Every event of es is enabled in the state its predecessors lead to. */
  ghost predicate Follows(k: Table, es: seq<Event>)
    requires Valid(k)
    decreases |es|
  {
    es == [] || (Enabled(k, es[0]) && Follows(Step(k, es[0]), es[1..]))
  }

  function AfterRun(k: Table, es: seq<Event>): (r: Table)
    requires Valid(k) && Follows(k, es)
    ensures Valid(r)
    decreases |es|
  {
    if es == [] then k else AfterRun(Step(k, es[0]), es[1..])
  }

  /** A run with one event in front. */
  lemma FollowsCons(k: Table, e: Event, es: seq<Event>)
    requires Valid(k) && Enabled(k, e) && Follows(Step(k, e), es)
    ensures Follows(k, [e] + es) && AfterRun(k, [e] + es) == AfterRun(Step(k, e), es)
  {
    assert ([e] + es)[1..] == es;
  }

  lemma FollowsOne(k: Table, e: Event)
    requires Valid(k) && Enabled(k, e)
    ensures Follows(k, [e]) && AfterRun(k, [e]) == Step(k, e)
  {
    FollowsCons(k, e, []);
    assert [e] + [] == [e];
  }

  lemma FollowsTwo(k: Table, e: Event, f: Event)
    requires Valid(k) && Enabled(k, e) && Enabled(Step(k, e), f)
    ensures Follows(k, [e, f]) && AfterRun(k, [e, f]) == Step(Step(k, e), f)
  {
    FollowsOne(Step(k, e), f);
    FollowsCons(k, e, [f]);
    assert [e] + [f] == [e, f];
  }

  lemma {:induction false} RunKeepsLive(k: Table, es: seq<Event>)
    requires Valid(k) && Live(k) && Follows(k, es)
    ensures Live(AfterRun(k, es))
    decreases |es|
  {
    if es != [] {
      StepLive(k, es[0]);
      RunKeepsLive(Step(k, es[0]), es[1..]);
    }
  }

  /** In every state the system ever reaches, for every table size: the free ring holds exactly
      the unused slots, the ready ring exactly the ready ones, no rendezvous is missed and no
      two processes block each other. */
  lemma NoMissedRendezvous(n: nat, es: seq<Event>)
    requires n >= 2 && Follows(Boot(n), es)
    ensures var k := AfterRun(Boot(n), es);
            && RingsMatch(k)
            && (forall p, q :: !Missed(k, p, q))
            && (forall p, q :: !TwoWay(k, p, q))
  {
    RunKeepsLive(Boot(n), es);
  }
}
