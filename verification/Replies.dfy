/** What a call of sendreceive answers its caller: every case, told by who waits for whom. */
module Replies {
  import opened Rings
  import opened Kernel
  import opened KernelInvariants
  import opened Rendezvous
  import opened Delivery

  /** Slot s has a message pending for the caller of a call that names t. */
  predicate Offers(k: Table, t: int, s: int) {
    SendsTo(k, s, k.cur) && (t == ANY || t == s)
  }

  /** The caller waits: for t if it receives, and with its message for t if that is still to go. */
  ghost predicate Waits(k: Table, o: Outcome, t: int, unsent: bool, recv: bool) {
    && o.reply == Suspended && IsBlocked(o.k, k.cur)
    && o.k.procs[k.cur].mFrom == (if recv then t else NONE)
    && o.k.procs[k.cur].mTo == (if unsent then t else NONE)
  }

  /** The caller goes on with an abort, waits for nothing, and has lost its alarm signal. */
  ghost predicate Aborts(k: Table, o: Outcome) {
    && IsPid(k, k.cur) && IsPid(o.k, k.cur) && o.reply == Returns(EABORT)
    && var d := o.k.procs[k.cur];
       d.state.Ready? && d.mFrom == NONE && d.mTo == NONE && d.d0 == EABORT
       && d.signals == k.procs[k.cur].signals - {Alarm}
  }

  /** What is left of a call blocks it, unless a signal is pending. */
  ghost predicate WaitsOrAborts(k: Table, o: Outcome, t: int, unsent: bool, recv: bool) {
    IsPid(k, k.cur) && if k.procs[k.cur].signals == {} then Waits(k, o, t, unsent, recv) else Aborts(k, o)
  }

  /** The caller took the message of the lowest slot that offered one. */
  ghost predicate Takes(k: Table, o: Outcome, t: int, s: int) {
    && Offers(k, t, s) && (forall q :: 0 <= q < s ==> !Offers(k, t, q))
    && o.reply == Returns(s) && o.copies == [Copy(s, k.cur, k.procs[s].msg)]
  }

  lemma SettleReply(k: Table, t: int, copies: seq<Copy>)
    requires Valid(k) && k.cur != Idle(k) && |k.ready| > 1
    ensures
      var d, o := k.procs[k.cur], Settle(k, t, copies);
      && o.copies == copies
      && if d.mFrom == NONE && d.mTo == NONE then o.reply == Returns(t)
         else if d.signals == {} then
           o.reply == Suspended && o.k.procs == k.procs[k.cur := d.(state := Blocked)]
         else Aborts(k, o)
  {
    assert k.procs[k.cur].state.Ready?;
  }

  /** The receiving half for a caller whose message for t is still to go, or who has none. */
  lemma ReceiveReply(k: Table, t: int, recv: bool, copies: seq<Copy>)
    requires Valid(k) && k.cur != Idle(k) && (t == ANY || IsPid(k, t)) && |k.ready| > 1
    requires k.procs[k.cur].mTo == NONE || (k.procs[k.cur].mTo == t && t != ANY)
    ensures
      var o, unsent := ReceivePart(k, t, recv, copies), k.procs[k.cur].mTo != NONE;
      if recv && !unsent && exists s :: Offers(k, t, s)
      then exists s :: Offers(k, t, s) && (forall q :: 0 <= q < s ==> !Offers(k, t, q))
             && o.reply == Returns(s) && o.copies == copies + [Copy(s, k.cur, k.procs[s].msg)]
      else o.copies == copies && if !recv && !unsent then o.reply == Returns(t)
        else WaitsOrAborts(k, o, t, unsent, recv)
  {
    var c := k.cur;
    var k1 := Put(k, c, k.procs[c].(mFrom := if recv then t else NONE));
    PutKeeps(k, c, k1.procs[c]);
    SameOffers(k, k1, t);
    if recv && k.procs[c].mTo == NONE {
      var s := if t == ANY then FirstSender(k1, c, 0) else t;
      SettleReply(k1, s, copies);
      if s != ANY && SendsTo(k1, s, c) {
        assert Offers(k, t, s);
      } else {
        assert forall q :: !Offers(k1, t, q);
        SettleNames(k1, s, t, copies);
      }
    } else {
      SettleReply(k1, t, copies);
    }
  }

  /** The caller's own descriptor does not matter to who offers it a message. */
  lemma SameOffers(k: Table, k1: Table, t: int)
    requires |k1.procs| == |k.procs| && k1.cur == k.cur && IsPid(k, k.cur)
    requires k.procs[k.cur].state.Ready? && k1.procs[k.cur].state.Ready?
    requires forall p :: IsPid(k, p) && p != k.cur ==> k1.procs[p] == k.procs[p]
    ensures forall s :: Offers(k1, t, s) <==> Offers(k, t, s)
  {
  }

  /** A wait does not depend on the value Settle would return otherwise. */
  lemma SettleNames(k: Table, s: int, t: int, copies: seq<Copy>)
    requires IsPid(k, k.cur) && |k.ready| > 1 && k.cur in k.ready && k.procs[k.cur].mFrom != NONE
    ensures Settle(k, s, copies) == Settle(k, t, copies)
  {
  }

  /** The answer of every call. A send to ANY and a send to a process that is itself sending to the
      caller are refused. A receive without a send takes the message of the lowest slot that offers
      one. A send that finds its receiver waiting is copied, and a call without a receive then returns
      the receiver. Whatever is left, the message or the receive, makes the caller wait, or return with
      an abort if it has a signal. */
  lemma CallReply(k: Table, t: int, msg: Message, send: bool, recv: bool)
    requires Valid(k) && Enabled(k, Call(t, msg, send, recv))
    ensures
      var o, matched := SendReceive(k, t, msg, send, recv), send && Expects(k, t);
      if send && t == ANY then o.reply == Returns(ESENDANY) && o.copies == []
      else if send && !matched && SendsTo(k, t, k.cur) then o.reply == Returns(ELOCK) && o.copies == []
      else if !send && recv && exists s :: Offers(k, t, s) then exists s :: Takes(k, o, t, s)
      else
        && o.copies == (if matched then [Copy(k.cur, t, msg)] else [])
        && if !recv && (matched || !send) then o.reply == Returns(t) else WaitsOrAborts(k, o, t, send && !matched, recv)
  {
    RunningIsNotAlone(k);
    if !send { ReceiveOnlyReply(k, t, msg, recv); }
    else if t != ANY && Expects(k, t) { MatchedReply(k, t, msg, recv); }
    else if t != ANY && !SendsTo(k, t, k.cur) { UnmatchedReply(k, t, msg, recv); }
  }

  lemma ReceiveOnlyReply(k: Table, t: int, msg: Message, recv: bool)
    requires Valid(k) && Enabled(k, Call(t, msg, false, recv)) && |k.ready| > 1
    ensures
      var o := SendReceive(k, t, msg, false, recv);
      if recv && exists s :: Offers(k, t, s) then exists s :: Takes(k, o, t, s)
      else o.copies == [] && if recv then WaitsOrAborts(k, o, t, false, recv) else o.reply == Returns(t)
  {
    var c := k.cur;
    var k1 := Put(k, c, k.procs[c].(msg := msg).(mTo := NONE));
    PutKeeps(k, c, k1.procs[c]);
    assert Put(Put(k, c, k.procs[c].(msg := msg)), c, k1.procs[c]) == k1;
    ReceiveReply(k1, t, recv, []);
    SameOffers(k, k1, t);
    var o := SendReceive(k, t, msg, false, recv);
    if recv && exists s :: Offers(k, t, s) {
      var s0 :| Offers(k, t, s0);
      assert Offers(k1, t, s0);
      var s :| Offers(k1, t, s) && (forall q :: 0 <= q < s ==> !Offers(k1, t, q))
               && o.reply == Returns(s) && o.copies == [] + [Copy(s, c, k1.procs[s].msg)];
      assert Takes(k, o, t, s);
    }
  }

  lemma MatchedReply(k: Table, t: int, msg: Message, recv: bool)
    requires Valid(k) && Enabled(k, Call(t, msg, true, recv)) && Expects(k, t) && |k.ready| > 1
    ensures
      var o := SendReceive(k, t, msg, true, recv);
      && o.copies == [Copy(k.cur, t, msg)]
      && if recv then WaitsOrAborts(k, o, t, false, recv) else o.reply == Returns(t)
  {
    var c := k.cur;
    var k1 := Put(k, c, k.procs[c].(msg := msg).(mTo := t));
    PutKeeps(k, c, k1.procs[c]);
    assert Put(Put(k, c, k.procs[c].(msg := msg)), c, k1.procs[c]) == k1;
    HandOverKeeps(k1, t);
    var k2 := HandOver(k1, t);
    assert SendReceive(k, t, msg, true, recv) == ReceivePart(k2, t, recv, [Copy(c, t, msg)]);
    assert k2.procs[t].state.Ready? && k2.procs[c].mTo == NONE && k2.procs[c].signals == k.procs[c].signals;
    assert forall s :: !Offers(k2, t, s);
    ReceiveReply(k2, t, recv, [Copy(c, t, msg)]);
  }

  lemma UnmatchedReply(k: Table, t: int, msg: Message, recv: bool)
    requires Valid(k) && Enabled(k, Call(t, msg, true, recv)) && t != ANY && |k.ready| > 1
    requires !Expects(k, t) && !SendsTo(k, t, k.cur)
    ensures
      var o := SendReceive(k, t, msg, true, recv);
      o.copies == [] && WaitsOrAborts(k, o, t, true, recv)
  {
    var c := k.cur;
    var k1 := Put(k, c, k.procs[c].(msg := msg).(mTo := t));
    PutKeeps(k, c, k1.procs[c]);
    assert Put(Put(k, c, k.procs[c].(msg := msg)), c, k1.procs[c]) == k1;
    ReceiveReply(k1, t, recv, []);
  }

  /** A call that receives waits for its answer, fails with a negative value, or returns the slot
      whose message it has just been given. A call that only sends returns the receiver if that was
      waiting, and no slot otherwise. */
  lemma AnswerOrWait(k: Table, t: int, msg: Message, send: bool, recv: bool)
    requires Valid(k) && Enabled(k, Call(t, msg, send, recv))
    ensures
      var o := SendReceive(k, t, msg, send, recv);
      && (recv && o.reply.Suspended? ==> IsBlocked(o.k, k.cur) && o.k.procs[k.cur].mFrom == t)
      && (recv && o.reply.Returns? && o.reply.value >= 0 ==>
            exists c :: c in o.copies && c.src == o.reply.value && c.dst == k.cur)
      && (send && !recv && Expects(k, t) ==> o.reply == Returns(t))
      && (send && !recv && !Expects(k, t) && o.reply.Returns? ==> o.reply.value < 0)
  {
    CallReply(k, t, msg, send, recv);
    var o := SendReceive(k, t, msg, send, recv);
    if !send && recv && exists s :: Offers(k, t, s) {
      var s :| Takes(k, o, t, s);
      assert o.copies[0] in o.copies;
    }
  }

  /** A request of a process without a signal, to a process that is not itself sending to it: its
      caller waits for the answer from the call on, over every run that follows, until the answer is
      copied to it or it is interrupted. */
  lemma RequestWaits(k: Table, t: int, msg: Message, es: seq<Event>)
    requires Valid(k) && Live(k) && Enabled(k, Call(t, msg, true, true)) && t != ANY
    requires k.procs[k.cur].signals == {} && (Expects(k, t) || !SendsTo(k, t, k.cur))
    requires Follows(Step(k, Call(t, msg, true, true)), es)
    ensures
      var k1 := Step(k, Call(t, msg, true, true));
      WaitsFor(k1, k.cur, t) && (WaitsFor(AfterRun(k1, es), k.cur, t) || Released(k1, es, k.cur, t))
  {
    var e := Call(t, msg, true, true);
    CallReply(k, t, msg, true, true);
    StepLive(k, e);
    assert Waits(k, SendReceive(k, t, msg, true, true), t, !Expects(k, t), true);
    BlockedUntilAnswer(Step(k, e), es, k.cur, t);
  }
}
