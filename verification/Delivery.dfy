/** Message delivery over whole runs: a send is copied into its receiver's buffer exactly once,
    or is aborted, or is still pending. */
module Delivery {
  import opened Rings
  import opened Kernel
  import opened KernelInvariants
  import opened Rendezvous

  /** p is blocked with a message it has not got rid of. */
  ghost predicate Sending(k: Table, p: int) {
    IsBlocked(k, p) && k.procs[p].mTo != NONE
  }

  /** The receiver t is blocked waiting for the running process, or for anybody. */
  predicate Expects(k: Table, t: int) {
    IsBlocked(k, t) && (k.procs[t].mFrom == k.cur || k.procs[t].mFrom == ANY)
  }

  /** t has sent a request to the running process and waits for the answer, but the running
      process has not taken the request yet. */
  predicate RequestUnread(k: Table, t: int) {
    IsBlocked(k, t) && k.procs[t].mTo == k.cur && k.procs[t].mFrom == k.cur
  }

  /** A send the kernel gives up at once: a dead lock, or a signal that prevents blocking. */
  predicate Refused(k: Table, t: int) {
    && IsPid(k, t) && IsPid(k, k.cur) && !Expects(k, t)
    && (SendsTo(k, t, k.cur) || k.procs[k.cur].signals != {})
  }

  /** Somebody other than the running process changed as little as a call allows: p keeps its
      message, its buffer and its wait, or takes part in the only copy of the call. */
  ghost predicate Untouched(k: Table, k1: Table, p: int) {
    && IsPid(k, p) && IsPid(k1, p) && k1.procs[p] == k.procs[p]
  }

  lemma SettleEffect(k: Table, t: int, copies: seq<Copy>)
    requires Valid(k) && k.cur != Idle(k) && |k.ready| > 1
    ensures
      var c, d, o := k.cur, k.procs[k.cur], Settle(k, t, copies);
      && o.copies == copies && |o.k.procs| == |k.procs|
      && (forall p :: IsPid(k, p) && p != c ==> Untouched(k, o.k, p))
      && o.k.procs[c].msg == d.msg
      && (IsBlocked(o.k, c) <==> o.reply.Suspended?)
      && (o.reply.Suspended? <==> (d.mFrom != NONE || d.mTo != NONE) && d.signals == {})
      && (o.reply.Suspended? ==> o.k.procs[c].mTo == d.mTo && o.k.procs[c].mFrom == d.mFrom)
      && (o.reply == Returns(t) || o.reply == Returns(EABORT) || o.reply == Suspended)
      && (o.reply.Returns? && d.mTo != NONE ==> o.reply == Returns(EABORT))
  {
    SettleKeeps(k, t, copies);
    assert k.procs[k.cur].state.Ready?;
  }

  /** The receiving half has copied nothing: the caller has blocked, been aborted, or is done. */
  ghost predicate Settled(k: Table, o: Outcome) {
    var c := k.cur;
    && IsPid(k, c) && |o.k.procs| == |k.procs|
    && (forall p :: IsPid(k, p) && p != c ==> Untouched(k, o.k, p))
    && o.k.procs[c].msg == k.procs[c].msg
    && (IsBlocked(o.k, c) && o.k.procs[c].mTo != NONE <==> k.procs[c].mTo != NONE && k.procs[c].signals == {})
    && (IsBlocked(o.k, c) ==> o.k.procs[c].mTo == k.procs[c].mTo)
    && (k.procs[c].mTo != NONE ==> o.reply == Suspended || o.reply == Returns(EABORT))
  }

  lemma SettledAfter(k: Table, from: int, t: int, copies: seq<Copy>)
    requires Valid(k) && k.cur != Idle(k) && |k.ready| > 1
    ensures
      var o := Settle(Put(k, k.cur, k.procs[k.cur].(mFrom := from)), t, copies);
      o.copies == copies && Settled(k, o)
  {
    var c := k.cur;
    var k1 := Put(k, c, k.procs[c].(mFrom := from));
    PutKeeps(k, c, k1.procs[c]);
    SettleEffect(k1, t, copies);
    forall p | IsPid(k, p) && p != c ensures Untouched(k, Settle(k1, t, copies).k, p) {
      assert Untouched(k1, Settle(k1, t, copies).k, p);
    }
  }

  lemma TakenAfter(k: Table, t: int, copies: seq<Copy>, s: int)
    requires Valid(k) && k.cur != Idle(k) && k.procs[k.cur].mTo == NONE && (t == ANY || t == s)
    requires SendsTo(k, s, k.cur)
    ensures
      var c := k.cur;
      var k1 := Put(k, c, k.procs[c].(mFrom := t));
      TakesOne(k, Outcome(TakeFrom(k1, s), Returns(s), copies + [Copy(s, c, k1.procs[s].msg)]), t, true, copies, s)
  {
    assert s != k.cur;
  }

  /** What the receiving half of a call does, for a caller with or without a send left. */
  lemma ReceiveEffect(k: Table, t: int, recv: bool, copies: seq<Copy>)
    requires Valid(k) && k.cur != Idle(k) && (t == ANY || IsPid(k, t)) && |k.ready| > 1
    ensures
      var c, d, o := k.cur, k.procs[k.cur], ReceivePart(k, t, recv, copies);
      && |o.k.procs| == |k.procs|
      && (o.copies == copies || exists s :: TakesOne(k, o, t, recv, copies, s))
      && (d.mTo != NONE || (t != ANY && !SendsTo(k, t, c)) ==> o.copies == copies)
      && (o.copies == copies ==> Settled(k, o))
  {
    var c := k.cur;
    var k1 := Put(k, c, k.procs[c].(mFrom := if recv then t else NONE));
    if recv && k.procs[c].mTo == NONE {
      var s := if t == ANY then FirstSender(k1, c, 0) else t;
      if s != ANY && SendsTo(k1, s, c) {
        assert s != c;
        TakenAfter(k, t, copies, s);
      } else {
        SettledAfter(k, t, s, copies);
      }
    } else {
      SettledAfter(k, if recv then t else NONE, t, copies);
    }
  }

  /** The caller has taken the message of the sender s and returned s. */
  ghost predicate TakesOne(k: Table, o: Outcome, t: int, recv: bool, copies: seq<Copy>, s: int) {
    var c := k.cur;
    && recv && IsPid(k, c) && s != c && SendsTo(k, s, c)
    && (t == ANY || t == s)
    && o.copies == copies + [Copy(s, c, k.procs[s].msg)]
    && o.reply == Returns(s)
    && |o.k.procs| == |k.procs|
    && o.k.procs[c].msg == k.procs[s].msg && !IsBlocked(o.k, c)
    && (forall p :: IsPid(k, p) && p != c && p != s ==> Untouched(k, o.k, p))
    && !Sending(o.k, s)
    && o.k.procs[s].msg == k.procs[s].msg && o.k.procs[s].mFrom == k.procs[s].mFrom && o.k.procs[s].d0 == c
    && (IsBlocked(o.k, s) <==> k.procs[s].mFrom != NONE)
  }

  /** The caller has handed its message to the waiting receiver t. */
  ghost predicate HandsOver(k: Table, o: Outcome, t: int, msg: Message) {
    var c := k.cur;
    && IsPid(k, c) && t != c && Expects(k, t)
    && o.copies == [Copy(c, t, msg)]
    && |o.k.procs| == |k.procs|
    && (forall p :: IsPid(k, p) && p != c && p != t ==> Untouched(k, o.k, p))
    && o.k.procs[c].msg == msg && !Sending(o.k, c)
    && o.k.procs[t].msg == msg && o.k.procs[t].state.Ready?
    && o.k.procs[t].mFrom == c && o.k.procs[t].d0 == c && o.k.procs[t].mTo == k.procs[t].mTo
  }

  /** The call copied nothing. */
  ghost predicate CopiesNothing(k: Table, o: Outcome, t: int, msg: Message, send: bool) {
    var c := k.cur;
    && IsPid(k, c)
    && o.copies == []
    && |o.k.procs| == |k.procs|
    && (forall p :: IsPid(k, p) && p != c ==> Untouched(k, o.k, p))
    && o.k.procs[c].msg == msg
    && (Sending(o.k, c) <==> send && t != ANY && !Refused(k, t))
    && (Sending(o.k, c) ==> o.k.procs[c].mTo == t && o.reply == Suspended)
    && (send ==> o.reply == Suspended || (o.reply.Returns? && o.reply.value < 0))
  }

  lemma ReceiveOnlyEffect(k: Table, t: int, msg: Message, recv: bool)
    requires Valid(k) && Enabled(k, Call(t, msg, false, recv))
    ensures
      var o := SendReceive(k, t, msg, false, recv);
      if o.copies == [] then CopiesNothing(k, o, t, msg, false)
      else exists s :: TakesOne(k, o, t, recv, [], s)
  {
    RunningIsNotAlone(k);
    var c := k.cur;
    var o := SendReceive(k, t, msg, false, recv);
    var k1 := Put(k, c, k.procs[c].(msg := msg).(mTo := NONE));
    PutKeeps(k, c, k1.procs[c]);
    assert Put(Put(k, c, k.procs[c].(msg := msg)), c, k1.procs[c]) == k1;
    ReceiveEffect(k1, t, recv, []);
    if o.copies != [] {
      var s :| TakesOne(k1, o, t, recv, [], s);
      TakenSeenBefore(k, k1, o, t, recv, s);
    } else {
      SettledSeenBefore(k, k1, o, t, msg);
    }
  }

  /** What was taken or settled after the caller's own descriptor was changed. */
  lemma TakenSeenBefore(k: Table, k1: Table, o: Outcome, t: int, recv: bool, s: int)
    requires IsPid(k, k.cur) && k1.cur == k.cur && k.procs[k.cur].state.Ready?
    requires |k1.procs| == |k.procs| && forall p :: IsPid(k, p) && p != k.cur ==> k1.procs[p] == k.procs[p]
    requires TakesOne(k1, o, t, recv, [], s)
    ensures TakesOne(k, o, t, recv, [], s)
  {
    assert SendsTo(k1, s, k.cur) && k1.procs[s] == k.procs[s];
    forall p | IsPid(k, p) && p != k.cur && p != s ensures Untouched(k, o.k, p) { assert Untouched(k1, o.k, p); }
  }

  lemma SettledSeenBefore(k: Table, k1: Table, o: Outcome, t: int, msg: Message)
    requires IsPid(k, k.cur) && k1 == Put(k, k.cur, k.procs[k.cur].(msg := msg).(mTo := NONE))
    requires Settled(k1, o) && o.copies == []
    ensures CopiesNothing(k, o, t, msg, false)
  {
    forall p | IsPid(k, p) && p != k.cur ensures Untouched(k, o.k, p) { assert Untouched(k1, o.k, p); }
  }

  lemma MatchedSendEffect(k: Table, t: int, msg: Message, recv: bool)
    requires Valid(k) && Enabled(k, Call(t, msg, true, recv)) && Expects(k, t)
    ensures HandsOver(k, SendReceive(k, t, msg, true, recv), t, msg)
  {
    RunningIsNotAlone(k);
    var c := k.cur;
    var k1 := Put(k, c, k.procs[c].(msg := msg).(mTo := t));
    PutKeeps(k, c, k1.procs[c]);
    assert Put(Put(k, c, k.procs[c].(msg := msg)), c, k1.procs[c]) == k1;
    HandOverKeeps(k1, t);
    var k2 := HandOver(k1, t);
    var o := ReceivePart(k2, t, recv, [Copy(c, t, msg)]);
    assert SendReceive(k, t, msg, true, recv) == o;
    ReceiveEffect(k2, t, recv, [Copy(c, t, msg)]);
    assert !SendsTo(k2, t, c);
    assert k2.procs[t].state.Ready? && k2.procs[c].mTo == NONE && k2.procs[c].msg == msg;
    forall p | IsPid(k, p) && p != c && p != t ensures Untouched(k, o.k, p) {
      assert Untouched(k2, o.k, p);
    }
    assert Untouched(k2, o.k, t);
  }

  lemma UnmatchedSendEffect(k: Table, t: int, msg: Message, recv: bool)
    requires Valid(k) && Enabled(k, Call(t, msg, true, recv)) && !Expects(k, t)
    ensures CopiesNothing(k, SendReceive(k, t, msg, true, recv), t, msg, true)
  {
    RunningIsNotAlone(k);
    var c := k.cur;
    var k1 := Put(k, c, k.procs[c].(msg := msg).(mTo := t));
    PutKeeps(k, c, k1.procs[c]);
    assert Put(Put(k, c, k.procs[c].(msg := msg)), c, k1.procs[c]) == k1;
    if t != ANY && !SendsTo(k, t, c) {
      ReceiveEffect(k1, t, recv, []);
      var o := ReceivePart(k1, t, recv, []);
      forall p | IsPid(k, p) && p != c ensures Untouched(k, o.k, p) { assert Untouched(k1, o.k, p); }
    }
  }

  /** Every call does exactly one of three things, chosen by who waits for whom. */
  lemma CallEffect(k: Table, t: int, msg: Message, send: bool, recv: bool)
    requires Valid(k) && Enabled(k, Call(t, msg, send, recv))
    ensures
      var o := SendReceive(k, t, msg, send, recv);
      if send && Expects(k, t) then HandsOver(k, o, t, msg)
      else if o.copies == [] then CopiesNothing(k, o, t, msg, send)
      else !send && exists s :: TakesOne(k, o, t, recv, [], s)
  {
    if !send { ReceiveOnlyEffect(k, t, msg, recv); }
    else if Expects(k, t) { MatchedSendEffect(k, t, msg, recv); }
    else { UnmatchedSendEffect(k, t, msg, recv); }
  }

  // ---------------------------------------------------------------- single steps

  /** A pending send survives a call unchanged, or is the one it copies, unless the call sends
      to a process whose request it has not read. */
  lemma OthersKeepSending(k: Table, t: int, msg: Message, send: bool, recv: bool, p: int)
    requires Valid(k) && Live(k) && Enabled(k, Call(t, msg, send, recv))
    requires p != k.cur && IsPid(k, p) && !(send && RequestUnread(k, t) && p == t)
    ensures
      var o := SendReceive(k, t, msg, send, recv);
      && |o.k.procs| == |k.procs|
      && (Sending(o.k, p) <==> Sending(k, p) && !(o.copies != [] && o.copies[0].src == p))
      && (Sending(o.k, p) ==> o.k.procs[p].mTo == k.procs[p].mTo && o.k.procs[p].msg == k.procs[p].msg)
  {
    CallEffect(k, t, msg, send, recv);
    var o := SendReceive(k, t, msg, send, recv);
    if send && Expects(k, t) {
      assert WaitOk(k, t);
      assert p != t ==> Untouched(k, o.k, p);
    } else if o.copies == [] {
      assert Untouched(k, o.k, p);
    } else {
      var s :| TakesOne(k, o, t, recv, [], s);
      assert p != s ==> Untouched(k, o.k, p);
    }
  }

  /** A call makes a pending send of another process vanish, neither delivered nor aborted, if
      and only if it sends to a process whose own request to the caller is still unread. */
  lemma LostExactlyWhen(k: Table, t: int, msg: Message, send: bool, recv: bool)
    requires Valid(k) && Live(k) && Enabled(k, Call(t, msg, send, recv))
    ensures
      var o := SendReceive(k, t, msg, send, recv);
      (exists p :: p != k.cur && Sending(k, p) && !Sending(o.k, p) && !(o.copies != [] && o.copies[0].src == p))
      <==> send && RequestUnread(k, t)
  {
    var o := SendReceive(k, t, msg, send, recv);
    if send && RequestUnread(k, t) {
      MatchedSendEffect(k, t, msg, recv);
      assert t != k.cur && Sending(k, t) && !Sending(o.k, t);
    } else {
      forall p | p != k.cur && Sending(k, p) ensures Sending(o.k, p) || (o.copies != [] && o.copies[0].src == p) {
        OthersKeepSending(k, t, msg, send, recv, p);
      }
    }
  }

  // ---------------------------------------------------------------- a message is really lost

  /** Slot 1, a task, is about to run after start-up. */
  ghost predicate SecondTask(k: Table, n: nat) {
    && n >= 3 && Valid(k) && |k.procs| == n && k.ready == [0, 1, n - 1]
    && k.procs[0] == TaskProc() && k.procs[1] == TaskProc()
  }

  lemma TaskAdded(k: Table, n: nat)
    requires n >= 3 && Valid(k) && Started(k, n)
    ensures SecondTask(Step(k, NewTask(1)), n)
  {
    assert 1 in k.free;
    assert Step(k, NewTask(1)) == CreateTask(k, 1).0;
    assert Insert(k.ready, 1) == [0, 1, n - 1];
  }

  /** Slot 1 runs. */
  ghost predicate SecondRuns(k: Table, n: nat) {
    && n >= 3 && Valid(k) && |k.procs| == n && k.ready == [1, n - 1, 0]
    && k.procs[0] == TaskProc() && k.procs[1] == TaskProc()
  }

  lemma SecondGetsTurn(k: Table, n: nat)
    requires SecondTask(k, n)
    ensures SecondRuns(Step(k, Interrupt), n)
  {
    assert Rotate(k.ready, 1) == [1, n - 1, 0];
  }

  /** Task 1 blocks and the system task runs. */
  lemma SecondBlocks(k: Table, n: nat)
    requires n >= 3 && |k.procs| == n && k.ready == [1, n - 1, 0] && k.cur == 1
    requires k.procs[1].signals == {} && k.procs[1].mFrom == 0
    ensures Settle(k, 0, []).k ==
      k.(procs := k.procs[1 := k.procs[1].(state := Blocked)], ready := [0, n - 1], cur := 0)
  {
    assert IndexOf(k.ready, 1) == 0 && Without(k.ready, 1) == [n - 1, 0];
    assert Rotate([n - 1, 0], 1) == [0, n - 1];
  }

  /** Task 1 asks task 0 for something and is blocked before task 0 has looked. */
  lemma RequestPending(k: Table, n: nat, request: Message)
    requires n >= 3 && Shaped(k) && |k.procs| == n && k.ready == [1, n - 1, 0]
    requires k.procs[0] == TaskProc() && k.procs[1] == TaskProc()
    ensures
      var k1 := SendReceive(k, 0, request, true, true).k;
      k1.cur == 0 && |k1.procs| == n && RequestUnread(k1, 1) && k1.procs[1].msg == request
  {
    var d := k.procs[1].(msg := request).(mTo := 0);
    var k1 := Put(Put(k, 1, k.procs[1].(msg := request)), 1, d);
    assert SendReceive(k, 0, request, true, true) == ReceivePart(k1, 0, true, []);
    var k2 := Put(k1, 1, d.(mFrom := 0));
    assert ReceivePart(k1, 0, true, []) == Settle(k2, 0, []);
    SecondBlocks(k2, n);
  }

  /** With three slots or more, four events after start-up lose a message: task 1 is created and runs,
      asks task 0 with a send and receive, and task 0 sends to task 1 before reading the request. */
  lemma MessageCanBeLost(n: nat, request: Message, other: Message)
    requires n >= 3
    ensures
      var es := [NewTask(1), Interrupt, Call(0, request, true, true)];
      Follows(Boot(n), es)
      && var k := AfterRun(Boot(n), es);
         k.cur == 0 && RequestUnread(k, 1) && Sending(k, 1) && k.procs[1].msg == request
         && Enabled(k, Call(1, other, true, false))
         && var o := SendReceive(k, 1, other, true, false);
            !Sending(o.k, 1) && o.copies == [Copy(0, 1, other)] && o.k.procs[1].msg == other
  {
    var e3 := Call(0, request, true, true);
    var k3 := RunToRequest(n, request, e3);
    MatchedSendEffect(k3, 1, other, false);
  }

  lemma RunToRequest(n: nat, request: Message, e: Event) returns (k: Table)
    requires n >= 3 && e == Call(0, request, true, true)
    ensures Follows(Boot(n), [NewTask(1), Interrupt, e]) && k == AfterRun(Boot(n), [NewTask(1), Interrupt, e])
    ensures k.cur == 0 && |k.procs| == n && RequestUnread(k, 1) && k.procs[1].msg == request
  {
    k := RunFromStart(Boot(n), n, request, e);
  }

  lemma RunFromStart(k0: Table, n: nat, request: Message, e: Event) returns (k: Table)
    requires n >= 3 && Valid(k0) && Started(k0, n) && e == Call(0, request, true, true)
    ensures Follows(k0, [NewTask(1), Interrupt, e]) && k == AfterRun(k0, [NewTask(1), Interrupt, e])
    ensures k.cur == 0 && |k.procs| == n && RequestUnread(k, 1) && k.procs[1].msg == request
  {
    TaskAdded(k0, n);
    k := RequestRun(Step(k0, NewTask(1)), n, request, e);
    FollowsCons(k0, NewTask(1), [Interrupt, e]);
    assert [NewTask(1)] + [Interrupt, e] == [NewTask(1), Interrupt, e];
  }

  lemma RequestRun(k0: Table, n: nat, request: Message, e: Event) returns (k: Table)
    requires SecondTask(k0, n) && e == Call(0, request, true, true)
    ensures Follows(k0, [Interrupt, e]) && k == AfterRun(k0, [Interrupt, e])
    ensures k.cur == 0 && |k.procs| == n && RequestUnread(k, 1) && k.procs[1].msg == request
  {
    var k1 := Step(k0, Interrupt);
    SecondGetsTurn(k0, n);
    RequestPending(k1, n, request);
    FollowsTwo(k0, Interrupt, e);
    k := Step(k1, e);
  }

  /** c carries the message of a send of this call, or of a pending one to its caller, and it has
      reached the buffer of the receiver. */
  ghost predicate CopyReached(k: Table, k1: Table, t: int, msg: Message, c: Copy) {
    && IsPid(k, c.src) && IsPid(k1, c.dst) && IsPid(k, k.cur)
    && c.src != c.dst && k1.procs[c.dst].msg == c.msg
    && c.msg == (if c.src == k.cur then msg else k.procs[c.src].msg)
    && (c.src == k.cur ==> c.dst == t)
    && (c.src != k.cur ==> SendsTo(k, c.src, c.dst) && c.dst == k.cur)
  }

  ghost predicate SameBuffer(k: Table, k1: Table, p: int) {
    IsPid(k, p) && IsPid(k1, p) && k1.procs[p].msg == k.procs[p].msg
  }

  /** At most one message is copied by a call. It ends in the receiver's buffer, and no buffer
      changes but the receiver's and the one the caller registers. */
  lemma OneCopyOneBuffer(k: Table, t: int, msg: Message, send: bool, recv: bool)
    requires Valid(k) && Enabled(k, Call(t, msg, send, recv))
    ensures
      var o := SendReceive(k, t, msg, send, recv);
      && |o.copies| <= 1
      && (forall c :: c in o.copies ==> CopyReached(k, o.k, t, msg, c))
      && (forall p :: IsPid(k, p) && p != k.cur && (forall c :: c in o.copies ==> c.dst != p) ==> SameBuffer(k, o.k, p))
  {
    CallEffect(k, t, msg, send, recv);
    var o := SendReceive(k, t, msg, send, recv);
    forall p | IsPid(k, p) && p != k.cur && (forall c :: c in o.copies ==> c.dst != p) ensures SameBuffer(k, o.k, p) {
      if send && Expects(k, t) {
        assert o.copies[0] in o.copies;
        assert Untouched(k, o.k, p);
      } else if o.copies == [] {
        assert Untouched(k, o.k, p);
      } else {
        var s :| TakesOne(k, o, t, recv, [], s);
        assert p != s ==> Untouched(k, o.k, p);
      }
    }
  }

  /** A receiver that is handed a message resumes with the sender's number, in its saved
      register as in the value of the call. A sender without a wait whose message is taken
      finds the receiver's number in its register; but a system task computes the value of the
      call from fields the receiver has cleared, and sees an abort. */
  lemma ResumedValues(k: Table, t: int, msg: Message, send: bool, recv: bool, c: Copy)
    requires Valid(k) && Enabled(k, Call(t, msg, send, recv))
    requires c in SendReceive(k, t, msg, send, recv).copies
    ensures Resumed(k, SendReceive(k, t, msg, send, recv).k, c)
  {
    CallEffect(k, t, msg, send, recv);
    var o := SendReceive(k, t, msg, send, recv);
    if !(send && Expects(k, t)) {
      var s :| TakesOne(k, o, t, recv, [], s);
      assert c == o.copies[0];
      SendReceiveKeeps(k, t, msg, send, recv);
    }
  }

  /** How the other side of a copy goes on: a receiver that was waiting, a sender that does not wait
      for an answer, a sender that does. */
  ghost predicate Resumed(k: Table, k1: Table, c: Copy) {
    && IsPid(k, c.src) && IsPid(k1, c.src) && IsPid(k1, c.dst)
    && if c.src == k.cur then
      && k1.procs[c.dst].state.Ready?
      && k1.procs[c.dst].d0 == k.cur == ResumeValue(k1.procs[c.dst], true)
    else if k.procs[c.src].mFrom == NONE then
      && k1.procs[c.src].state.Ready? && k1.procs[c.src].d0 == k.cur
      && ResumeValue(k1.procs[c.src], false) == EABORT
    else
      IsBlocked(k1, c.src) && k1.procs[c.src].mFrom == k.procs[c.src].mFrom
  }

  // ---------------------------------------------------------------- bookkeeping over a run

  /** The sends attempted so far, in order; which of them is the pending send of which slot;
      the copies made, each with the number of the send it completes; the aborted sends. */
  datatype Send = Send(src: int, dst: int, msg: Message)
  datatype Entry = Entry(id: nat, copy: Copy)
  datatype Track = Track(
    k: Table, sends: seq<Send>, pending: map<int, nat>, log: seq<Entry>, aborted: set<nat>)

  ghost predicate Attempts(e: Event) { e.Call? && e.send && e.t != ANY }

  ghost function Copies(k: Table, e: Event): seq<Copy>
    requires Valid(k) && Enabled(k, e)
  {
    if e.Call? then SendReceive(k, e.t, e.msg, e.send, e.recv).copies else []
  }

  /** Slots whose pending send an event cancels: it is signalled, ended, told to wait, or its
      child ends. */
  ghost function Cancels(k: Table, e: Event): set<int>
    requires Enabled(k, e)
  {
    match e
    case Sig(p, _) => {p}
    case WaitFor(p) => {p}
    case ExitOf(p, _) => {p, k.procs[p].ppid}
    case KillOf(p) => {p}
    case _ => {}
  }

  /** The pending sends after a step to k1; a new one gets the number id. */
  ghost function PendingIn(k1: Table, pending: map<int, nat>, id: nat): map<int, nat> {
    map p | 0 <= p < |k1.procs| && Sending(k1, p) :: if p in pending then pending[p] else id
  }

  ghost function Advance(m: Track, e: Event): Track
    requires Valid(m.k) && Enabled(m.k, e)
  {
    var k1 := Step(m.k, e);
    var id := |m.sends|;
    var cs := Copies(m.k, e);
    var gone := Cancels(m.k, e);
    Track(k1,
      if Attempts(e) then m.sends + [Send(m.k.cur, e.t, e.msg)] else m.sends,
      PendingIn(k1, m.pending, id),
      if cs == [] then m.log else m.log + [Entry(if cs[0].src in m.pending then m.pending[cs[0].src] else id, cs[0])],
      m.aborted + (set p | p in gone && p in m.pending :: m.pending[p])
                + (if Attempts(e) && Refused(m.k, e.t) then {id} else {}))
  }

  ghost function Numbers(pending: map<int, nat>): set<nat> {
    set p | p in pending :: pending[p]
  }

  ghost function Delivered(m: Track): set<nat> {
    set e | e in m.log :: e.id
  }

  /** The pending sends are those of the blocked senders, with the message in their buffers. */
  ghost predicate PendingFits(m: Track) {
    && (forall p :: p in m.pending <==> Sending(m.k, p))
    && (forall p :: p in m.pending ==>
          m.pending[p] < |m.sends| && m.sends[m.pending[p]] == Send(p, m.k.procs[p].mTo, m.k.procs[p].msg))
  }

  /** Every copy made carries the message of a send to the receiver of that send, and no send
      is copied twice. */
  ghost predicate LogFits(m: Track) {
    && (forall j :: 0 <= j < |m.log| ==> m.log[j].id < |m.sends| && CopyOf(m.sends[m.log[j].id], m.log[j].copy))
    && (forall i, j :: 0 <= i < j < |m.log| ==> m.log[i].id != m.log[j].id)
  }

  /** Sends 0 to n - 1 are each in exactly one of the three cases. */
  ghost predicate Partition(pending: map<int, nat>, delivered: set<nat>, aborted: set<nat>, n: nat) {
    && Numbers(pending) !! delivered !! aborted
    && forall i :: i in Numbers(pending) || i in delivered || i in aborted <==> 0 <= i < n
  }

  /** Every attempted send is in exactly one of three cases: pending, with its message still in
      the buffer of its blocked sender; delivered, by exactly one copy of its message to its
      receiver; aborted. */
  ghost predicate Accounted(m: Track) {
    && PendingFits(m)
    && LogFits(m)
    && Partition(m.pending, Delivered(m), m.aborted, |m.sends|)
  }

  ghost predicate CopyOf(s: Send, c: Copy) {
    c == Copy(s.src, s.dst, s.msg)
  }

  /** The request/reply discipline: nobody sends to a process before reading its request. */
  ghost predicate Disciplined(k: Table, e: Event) {
    e.Call? && e.send ==> !RequestUnread(k, e.t)
  }

  /** Between k and k1 the pending send of slot p, if any, stays the same or, if p is in `gone`,
      ends. */
  ghost predicate Shrinks(k: Table, k1: Table, gone: set<int>, p: int) {
    && (Sending(k1, p) <==> Sending(k, p) && p !in gone)
    && (Sending(k1, p) ==> k1.procs[p].mTo == k.procs[p].mTo && k1.procs[p].msg == k.procs[p].msg)
  }

  lemma ExitEffect(k: Table, e: Event, p: int)
    requires Valid(k) && Enabled(k, e) && e.ExitOf?
    ensures Shrinks(k, Step(k, e), Cancels(k, e), p)
  {
    var k1 := Retire(Put(k, e.p, k.procs[e.p].(exitVal := e.val)), e.p, Stopped);
    var q := k.procs[e.p].ppid;
    assert Step(k, e) == Raise(k1, q, Child);
    assert p != e.p && IsPid(k, p) ==> k1.procs[p] == k.procs[p];
    assert p != q && IsPid(k, p) ==> Step(k, e).procs[p] == k1.procs[p];
  }

  lemma SignalEffect(k: Table, e: Event, p: int)
    requires Valid(k) && Enabled(k, e) && e.Sig?
    ensures Shrinks(k, Step(k, e), Cancels(k, e), p)
  {
    assert p != e.p && IsPid(k, p) ==> Step(k, e).procs[p] == k.procs[p];
  }

  /** Events other than calls end pending sends by cancelling them, and only so. */
  lemma QuietEffect(k: Table, e: Event, p: int)
    requires Valid(k) && Enabled(k, e) && !e.Call?
    ensures Shrinks(k, Step(k, e), Cancels(k, e), p)
  {
    match e
    case ExitOf(_, _) => ExitEffect(k, e, p);
    case Sig(_, _) => SignalEffect(k, e, p);
    case Interrupt => Elsewhere(k, Step(k, e), Cancels(k, e), p);
    case WaitFor(q) => if p != q { Elsewhere(k, Step(k, e), Cancels(k, e), p); }
    case KillOf(q) => if p != q { Elsewhere(k, Step(k, e), Cancels(k, e), p); }
    case _ => CreationEffect(k, e, p);
  }

  /** A slot that keeps its descriptor keeps its send. */
  lemma Elsewhere(k: Table, k1: Table, gone: set<int>, p: int)
    requires |k1.procs| == |k.procs| && p !in gone && (IsPid(k, p) ==> k1.procs[p] == k.procs[p])
    ensures Shrinks(k, k1, gone, p)
  {
  }

  lemma CreationEffect(k: Table, e: Event, p: int)
    requires Valid(k) && Enabled(k, e) && (e.ForkOf? || e.NewTask? || e.NewInit?)
    ensures Shrinks(k, Step(k, e), Cancels(k, e), p)
  {
    match e
    case ForkOf(q, memory) => if k.free != [] && p != k.free[0] { Elsewhere(k, Fork(k, q, memory).0, {}, p); }
    case NewTask(q) => if TaskSlot(k, q) != NONE && p != TaskSlot(k, q) { Elsewhere(k, CreateTask(k, q).0, {}, p); }
    case NewInit => if k.free != [] && p != k.free[0] { Elsewhere(k, CreateInit(k).0, {}, p); }
  }

  /** What a disciplined call does to the send of its own caller. */
  lemma CallerSending(k: Table, e: Event)
    requires Valid(k) && Live(k) && Enabled(k, e) && e.Call? && Disciplined(k, e)
    ensures
      var k1, cs := Step(k, e), Copies(k, e);
      && |cs| <= 1
      && !Sending(k, k.cur)
      && (Sending(k1, k.cur) <==> Attempts(e) && cs == [] && !Refused(k, e.t))
      && (Sending(k1, k.cur) ==> k1.procs[k.cur].mTo == e.t && k1.procs[k.cur].msg == e.msg)
      && (cs != [] ==>
            if cs[0].src == k.cur then Attempts(e) && cs[0] == Copy(k.cur, e.t, e.msg) && !Refused(k, e.t)
            else !Attempts(e) && Sending(k, cs[0].src)
                 && CopyOf(Send(cs[0].src, k.procs[cs[0].src].mTo, k.procs[cs[0].src].msg), cs[0]))
  {
    CallEffect(k, e.t, e.msg, e.send, e.recv);
  }

  /** Every disciplined step keeps every send accounted for. */
  lemma AdvanceAccounts(m: Track, e: Event)
    requires Valid(m.k) && Live(m.k) && Enabled(m.k, e) && Accounted(m) && Disciplined(m.k, e)
    ensures Accounted(Advance(m, e))
  {
    if e.Call? { CallAccounts(m, e); } else { QuietAccounts(m, e); }
  }

  /** Each slot's pending send has a number of its own. */
  ghost predicate OwnNumbers(pending: map<int, nat>) {
    forall p, q :: p in pending && q in pending && p != q ==> pending[p] != pending[q]
  }

  lemma CancelPartition(pending: map<int, nat>, pending1: map<int, nat>, gone: set<int>,
                        delivered: set<nat>, aborted: set<nat>, n: nat)
    requires Partition(pending, delivered, aborted, n) && OwnNumbers(pending)
    requires forall p :: p in pending1 <==> p in pending && p !in gone
    requires forall p :: p in pending1 ==> pending1[p] == pending[p]
    ensures Partition(pending1, delivered, aborted + (set p | p in gone && p in pending :: pending[p]), n)
  {
    forall i | i in Numbers(pending) && i !in Numbers(pending1)
      ensures exists p :: p in gone && p in pending && pending[p] == i
    {
      var p :| p in pending && pending[p] == i;
      assert p !in pending1;
    }
  }

  /** A new send of slot c takes the next number. */
  lemma StartPartition(pending: map<int, nat>, c: int, delivered: set<nat>, aborted: set<nat>, n: nat)
    requires Partition(pending, delivered, aborted, n) && OwnNumbers(pending) && c !in pending
    ensures Partition(pending[c := n], delivered, aborted, n + 1) && OwnNumbers(pending[c := n])
  {
    var p1 := pending[c := n];
    forall i ensures i in Numbers(p1) <==> i == n || i in Numbers(pending) {
      if i == n { assert p1[c] == n; }
      if i in Numbers(pending) { var p :| p in pending && pending[p] == i; assert p1[p] == i; }
    }
    forall p | p in pending ensures pending[p] != n { assert pending[p] in Numbers(pending); }
  }

  /** Slot p's pending send is delivered. */
  lemma DeliverPartition(pending: map<int, nat>, p: int, delivered: set<nat>, aborted: set<nat>, n: nat)
    requires Partition(pending, delivered, aborted, n) && OwnNumbers(pending) && p in pending
    ensures Partition(pending - {p}, delivered + {pending[p]}, aborted, n)
  {
    var p1 := pending - {p};
    forall i ensures i in Numbers(p1) <==> i != pending[p] && i in Numbers(pending) {
      if i != pending[p] && i in Numbers(pending) { var q :| q in pending && pending[q] == i; assert p1[q] == i; }
    }
  }

  lemma TracksNumbers(m: Track)
    requires PendingFits(m)
    ensures OwnNumbers(m.pending)
  {
    forall p, q | p in m.pending && q in m.pending && p != q ensures m.pending[p] != m.pending[q] {
      assert m.sends[m.pending[p]].src == p && m.sends[m.pending[q]].src == q;
    }
  }

  /** The pending sends of k1, given that only the sends of `gone` ended since k. */
  lemma PendingShrinks(m: Track, m1: Track, gone: set<int>)
    requires PendingFits(m) && m1.sends == m.sends
    requires forall p :: p in m1.pending <==> Sending(m1.k, p)
    requires forall p :: p in m1.pending && p in m.pending ==> m1.pending[p] == m.pending[p]
    requires forall p :: Shrinks(m.k, m1.k, gone, p)
    ensures PendingFits(m1)
    ensures forall p :: p in m1.pending <==> p in m.pending && p !in gone
  {
    forall p ensures p in m1.pending <==> p in m.pending && p !in gone { assert Shrinks(m.k, m1.k, gone, p); }
    forall p | p in m1.pending ensures m1.k.procs[p].mTo == m.k.procs[p].mTo && m1.k.procs[p].msg == m.k.procs[p].msg {
      assert Shrinks(m.k, m1.k, gone, p);
    }
  }

  lemma QuietAccounts(m: Track, e: Event)
    requires Valid(m.k) && Live(m.k) && Enabled(m.k, e) && Accounted(m) && !e.Call?
    ensures Accounted(Advance(m, e))
  {
    var m1 := Advance(m, e);
    forall p ensures Shrinks(m.k, m1.k, Cancels(m.k, e), p) { QuietEffect(m.k, e, p); }
    PendingShrinks(m, m1, Cancels(m.k, e));
    TracksNumbers(m);
    CancelPartition(m.pending, m1.pending, Cancels(m.k, e), Delivered(m), m.aborted, |m.sends|);
    var dropped := set p | p in Cancels(m.k, e) && p in m.pending :: m.pending[p];
    assert m1.aborted == m.aborted + dropped + {};
    assert m1.aborted == m.aborted + dropped;
    assert m1.log == m.log && m1.sends == m.sends;
  }

  lemma CallAccounts(m: Track, e: Event)
    requires Valid(m.k) && Live(m.k) && Enabled(m.k, e) && Accounted(m) && e.Call? && Disciplined(m.k, e)
    ensures Accounted(Advance(m, e))
  {
    CallPending(m, e);
    CallDelivered(m, e);
    CallPartition(m, e);
  }

  lemma CallPartition(m: Track, e: Event)
    requires Valid(m.k) && Live(m.k) && Enabled(m.k, e) && Accounted(m) && e.Call? && Disciplined(m.k, e)
    ensures var m1 := Advance(m, e); Partition(m1.pending, Delivered(m1), m1.aborted, |m1.sends|)
  {
    var m1, cs := Advance(m, e), Copies(m.k, e);
    var copied := if cs == [] then [] else [cs[0].src];
    TracksNumbers(m);
    CallPending(m, e);
    CallDelivered(m, e);
    CallSources(m, e);
    Repartition(m.pending, m1.pending, m.k.cur, copied, Delivered(m), Delivered(m1),
      m.aborted, m1.aborted, Attempts(e), Attempts(e) && Refused(m.k, e.t), |m.sends|);
  }

  /** Whose send a call's copy completes, and which sends it aborts. */
  lemma CallSources(m: Track, e: Event)
    requires Valid(m.k) && Live(m.k) && Enabled(m.k, e) && Accounted(m) && e.Call? && Disciplined(m.k, e)
    ensures
      var m1, cs := Advance(m, e), Copies(m.k, e);
      var refused := Attempts(e) && Refused(m.k, e.t);
      && (cs != [] ==> if Attempts(e) then cs[0].src == m.k.cur else cs[0].src in m.pending)
      && (refused ==> cs == []) && |m1.sends| == |m.sends| + (if Attempts(e) then 1 else 0)
      && m1.aborted == m.aborted + {} + if refused then {|m.sends|} else {}
  {
    CallerSending(m.k, e);
  }

  /** The cases after a call: c's new send, if any, is pending, refused, or the copied one; a
      copied send of another slot leaves pending. */
  lemma Repartition(pending: map<int, nat>, pending1: map<int, nat>, c: int, copied: seq<int>,
                    delivered: set<nat>, delivered1: set<nat>, aborted: set<nat>, aborted1: set<nat>,
                    attempt: bool, refused: bool, n: nat)
    requires Partition(pending, delivered, aborted, n) && OwnNumbers(pending)
    requires c !in pending && |copied| <= 1
    requires forall p :: p != c ==> (p in pending1 <==> p in pending && p !in copied)
    requires forall p :: p in pending1 ==> pending1[p] == if p in pending then pending[p] else n
    requires c in pending1 <==> attempt && copied == [] && !refused
    requires refused ==> attempt && copied == []
    requires copied != [] ==> if attempt then copied[0] == c else copied[0] in pending
    requires delivered1 == delivered + if copied == [] then {}
      else {if copied[0] in pending then pending[copied[0]] else n}
    requires aborted1 == aborted + {} + if refused then {n} else {}
    ensures Partition(pending1, delivered1, aborted1, if attempt then n + 1 else n)
  {
    var base := if attempt then pending[c := n] else pending;
    var n1 := if attempt then n + 1 else n;
    if attempt { StartPartition(pending, c, delivered, aborted, n); }
    forall p ensures p in pending1 <==> p in base && p !in copied && !(refused && p == c) {
      if p == c && copied != [] { assert copied[0] in copied; }
    }
    forall p | p in pending1 ensures p in base && pending1[p] == base[p] {
      if p == c { assert base[c] == n; } else { assert p in pending; }
    }
    if copied != [] {
      DeliverPartition(base, copied[0], delivered, aborted, n1);
      assert pending1.Keys == (base - {copied[0]}).Keys;
      assert pending1 == base - {copied[0]};
      assert aborted1 == aborted;
    } else if refused {
      CancelPartition(base, pending1, {c}, delivered, aborted, n1);
      assert (set p | p in {c} && p in base :: base[p]) == {n} by { assert base[c] == n; }
      assert delivered1 == delivered;
    } else {
      assert pending1.Keys == base.Keys;
      assert pending1 == base && delivered1 == delivered && aborted1 == aborted;
    }
  }

  /** How a disciplined call changes the pending sends. */
  lemma CallPending(m: Track, e: Event)
    requires Valid(m.k) && Live(m.k) && Enabled(m.k, e) && Accounted(m) && e.Call? && Disciplined(m.k, e)
    ensures
      var m1, cs := Advance(m, e), Copies(m.k, e);
      && PendingFits(m1)
      && (forall p :: p in m1.pending ==> m1.pending[p] == if p in m.pending then m.pending[p] else |m.sends|)
      && (m.k.cur in m1.pending <==> Attempts(e) && cs == [] && !Refused(m.k, e.t))
      && m.k.cur !in m.pending
      && (forall p :: p != m.k.cur ==> (p in m1.pending <==> p in m.pending && !(cs != [] && cs[0].src == p)))
  {
    var k, m1, cs := m.k, Advance(m, e), Copies(m.k, e);
    CallerSending(k, e);
    forall p | p != k.cur
      ensures Sending(m1.k, p) <==> Sending(k, p) && !(cs != [] && cs[0].src == p)
      ensures Sending(m1.k, p) ==> m1.k.procs[p].mTo == k.procs[p].mTo && m1.k.procs[p].msg == k.procs[p].msg
    {
      if IsPid(k, p) { OthersKeepSending(k, e.t, e.msg, e.send, e.recv, p); }
    }
  }

  /** How a disciplined call extends the log. */
  lemma CallDelivered(m: Track, e: Event)
    requires Valid(m.k) && Live(m.k) && Enabled(m.k, e) && Accounted(m) && e.Call? && Disciplined(m.k, e)
    ensures
      var m1, cs := Advance(m, e), Copies(m.k, e);
      && LogFits(m1)
      && Delivered(m1) == Delivered(m) +
           if cs == [] then {} else {if cs[0].src in m.pending then m.pending[cs[0].src] else |m.sends|}
  {
    CallerSending(m.k, e);
    var m1, cs := Advance(m, e), Copies(m.k, e);
    assert m.sends <= m1.sends;
    if cs != [] {
      var x := Entry(if cs[0].src in m.pending then m.pending[cs[0].src] else |m.sends|, cs[0]);
      assert cs[0].src in m.pending ==> x.id in Numbers(m.pending);
      LogExtended(m, m1, x);
    }
  }

  /** One more copy in the log, of a send not copied before. */
  lemma LogExtended(m: Track, m1: Track, x: Entry)
    requires LogFits(m) && m.sends <= m1.sends && m1.log == m.log + [x]
    requires x.id < |m1.sends| && CopyOf(m1.sends[x.id], x.copy) && x.id !in Delivered(m)
    ensures LogFits(m1) && Delivered(m1) == Delivered(m) + {x.id}
  {
    forall j | 0 <= j < |m.log| ensures m.log[j].id != x.id {
      assert m.log[j].id in Delivered(m);
    }
  }

  /** Whole disciplined runs. */
  ghost predicate Orderly(k: Table, es: seq<Event>)
    requires Valid(k)
    decreases |es|
  {
    es == [] || (Enabled(k, es[0]) && Disciplined(k, es[0]) && Orderly(Step(k, es[0]), es[1..]))
  }

  ghost function AdvanceAll(m: Track, es: seq<Event>): Track
    requires Valid(m.k) && Orderly(m.k, es)
    decreases |es|
  {
    if es == [] then m else AdvanceAll(Advance(m, es[0]), es[1..])
  }

  lemma {:induction false} RunAccounts(m: Track, es: seq<Event>)
    requires Valid(m.k) && Live(m.k) && Orderly(m.k, es) && Accounted(m)
    ensures Accounted(AdvanceAll(m, es))
    decreases |es|
  {
    if es != [] {
      StepLive(m.k, es[0]);
      AdvanceAccounts(m, es[0]);
      RunAccounts(Advance(m, es[0]), es[1..]);
    }
  }

  /** In every run from start-up that follows the request/reply discipline, every send is
      pending, or delivered by exactly one copy to its receiver, or aborted, and never two of
      these. */
  lemma ExactlyOnceOrAborted(n: nat, es: seq<Event>)
    requires n >= 2 && Orderly(Boot(n), es)
    ensures Accounted(AdvanceAll(Track(Boot(n), [], map[], [], {}), es))
  {
    var m := Track(Boot(n), [], map[], [], {});
    RunAccounts(m, es);
  }

  // ---------------------------------------------------------------- waiting for an answer

  /** Events that end a wait without an answer. */
  ghost predicate Interrupts(k: Table, e: Event, p: int)
    requires Enabled(k, e)
  {
    p in Cancels(k, e)
  }

  /** p is blocked until t answers. */
  predicate WaitsFor(k: Table, p: int, t: int) {
    IsBlocked(k, p) && k.procs[p].mFrom == t
  }

  /** The event copies a message of t into p's buffer. */
  ghost predicate Answers(k: Table, e: Event, p: int, t: int)
    requires Valid(k) && Enabled(k, e)
  {
    exists c :: c in Copies(k, e) && c.src == t && c.dst == p
  }

  /** A process that waits for t's answer goes on waiting until t's message is copied to it,
      unless it is signalled, ended or told to wait. */
  lemma WaitsUntilAnswer(k: Table, e: Event, p: int, t: int)
    requires Valid(k) && Live(k) && Enabled(k, e) && WaitsFor(k, p, t) && IsPid(k, t)
    ensures Interrupts(k, e, p) || WaitsFor(Step(k, e), p, t) ||
            (Answers(k, e, p, t) && Step(k, e).procs[p].state.Ready? && Step(k, e).procs[p].d0 == t)
  {
    if e.Call? {
      var o := SendReceive(k, e.t, e.msg, e.send, e.recv);
      CallEffect(k, e.t, e.msg, e.send, e.recv);
      if e.send && Expects(k, e.t) {
        if p == e.t { assert o.copies[0] in Copies(k, e); } else { assert Untouched(k, o.k, p); }
      } else if o.copies == [] {
        assert Untouched(k, o.k, p);
      } else {
        var s :| TakesOne(k, o, e.t, e.recv, [], s);
        if p != s { assert Untouched(k, o.k, p); }
      }
    } else if e.ExitOf? {
      ExitWaits(k, e, p, t);
    }
  }

  lemma ExitWaits(k: Table, e: Event, p: int, t: int)
    requires Valid(k) && Enabled(k, e) && e.ExitOf? && WaitsFor(k, p, t)
    ensures Interrupts(k, e, p) || WaitsFor(Step(k, e), p, t)
  {
    var k1 := Retire(Put(k, e.p, k.procs[e.p].(exitVal := e.val)), e.p, Stopped);
    var q := k.procs[e.p].ppid;
    assert Step(k, e) == Raise(k1, q, Child);
    if p != e.p && p != q {
      assert k1.procs[p] == k.procs[p];
      assert Step(k, e).procs[p] == k1.procs[p];
    }
  }

  /** At some event of the run p stops waiting: by t's answer, or by an interruption. */
  ghost predicate Released(k: Table, es: seq<Event>, p: int, t: int)
    requires Valid(k) && Follows(k, es)
    decreases |es|
  {
    es != [] && (Interrupts(k, es[0], p) || Answers(k, es[0], p, t) || Released(Step(k, es[0]), es[1..], p, t))
  }

  /** Over whole runs: a caller of send-and-receive stays blocked until its answer. */
  lemma {:induction false} BlockedUntilAnswer(k: Table, es: seq<Event>, p: int, t: int)
    requires Valid(k) && Live(k) && Follows(k, es) && WaitsFor(k, p, t) && IsPid(k, t)
    ensures WaitsFor(AfterRun(k, es), p, t) || Released(k, es, p, t)
    decreases |es|
  {
    if es != [] {
      WaitsUntilAnswer(k, es[0], p, t);
      StepLive(k, es[0]);
      if WaitsFor(Step(k, es[0]), p, t) {
        BlockedUntilAnswer(Step(k, es[0]), es[1..], p, t);
      }
    }
  }
}
