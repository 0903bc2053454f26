/** The process table as a value: what each kernel operation of the process manager does to
    the slots, the two rings and the running process. */
module Kernel {
  import opened Rings

  const NONE: int := -1
  const ANY: int := -2
  const ELOCK: int := -1
  const EABORT: int := -2
  const ESENDANY: int := -3
  const KERNEL_UID: nat := 0
  const ROOT_UID: nat := 1

  datatype State = Unused | Blocked | Ready | Stopped

  datatype Signal = Alarm | Child

  /** A message as it lies in its owner's buffer. */
  datatype Message = Message(kind: int, body: seq<int>)

  const BLANK: Message := Message(0, [])

  /** One process descriptor. `msg` is the content of the message buffer that the process
      named in its latest call; `d0` is the saved register that carries the value of a trap. */
  datatype Proc = Proc(
    state: State, mFrom: int, mTo: int, msg: Message, signals: set<Signal>,
    uid: nat, ppid: int, d0: int, exitVal: int)

  datatype Table = Table(procs: seq<Proc>, ready: seq<int>, free: seq<int>, cur: int)

  /** A message copied from one process's buffer to another's. */
  datatype Copy = Copy(src: int, dst: int, msg: Message)

  /** What a caller of sendreceive gets at once: a value, or a suspension. */
  datatype Reply = Returns(value: int) | Suspended

  datatype Outcome = Outcome(k: Table, reply: Reply, copies: seq<Copy>)

  function Idle(k: Table): int { |k.procs| - 1 }

  predicate IsPid(k: Table, p: int) { 0 <= p < |k.procs| }

  /** A slot that waits in a call of sendreceive, as sender or as receiver. */
  predicate IsBlocked(k: Table, p: int) {
    IsPid(k, p) && k.procs[p].state.Blocked?
  }

  /** The running process exists and heads the ready ring, which also holds the idle task;
      ring members are slots and occur once. */
  ghost predicate Shaped(k: Table) {
    && |k.procs| > 0
    && InRange(k.ready, |k.procs|) && Distinct(k.ready)
    && InRange(k.free, |k.procs|) && Distinct(k.free)
    && Idle(k) in k.ready
    && k.cur == k.ready[0]
  }

  /** The free ring holds exactly the unused slots, the ready ring exactly the ready ones. */
  ghost predicate RingsMatch(k: Table) {
    && (forall p :: 0 <= p < |k.procs| ==> (p in k.free <==> k.procs[p].state.Unused?))
    && (forall p :: 0 <= p < |k.procs| ==> (p in k.ready <==> k.procs[p].state.Ready?))
  }

  ghost predicate Valid(k: Table) {
    && Shaped(k)
    && RingsMatch(k)
    && forall p :: 0 <= p < |k.procs| ==> 0 <= k.procs[p].ppid < |k.procs|
  }

  // ---------------------------------------------------------------- scheduling

  /** Pass the processor to the next slot of the ready ring. */
  function Next(k: Table): (r: Table)
    requires k.ready != []
  {
    var ring := Rotate(k.ready, 1);
    k.(ready := ring, cur := ring[0])
  }

  /** Pass the processor to a named slot, if it is ready. */
  function SwitchTo(k: Table, p: int): (r: Table)
    requires IsPid(k, p) && (k.procs[p].state.Ready? ==> p in k.ready)
  {
    if k.procs[p].state.Ready? then
      var ring := Rotate(k.ready, IndexOf(k.ready, p));
      k.(ready := ring, cur := p)
    else k
  }

  /** The system interrupt: the next slot, and the one after it if that was the idle task. */
  function Reschedule(k: Table): (r: Table)
    requires k.ready != []
  {
    var k1 := Next(k);
    if k1.cur == Idle(k1) then Next(k1) else k1
  }

  // ---------------------------------------------------------------- messages

  function Put(k: Table, p: int, d: Proc): Table
    requires IsPid(k, p)
  {
    k.(procs := k.procs[p := d])
  }

  /** Make slot p ready with descriptor d. */
  function Wake(k: Table, p: int, d: Proc): Table
    requires IsPid(k, p)
  {
    k.(procs := k.procs[p := d.(state := Ready)], ready := Insert(k.ready, p))
  }

  /** The running process hands its message to receiver t. */
  function HandOver(k: Table, t: int): Table
    requires IsPid(k, k.cur) && IsPid(k, t)
  {
    var c := k.cur;
    var k1 := Put(k, c, k.procs[c].(mTo := NONE));
    Wake(k1, t, k1.procs[t].(msg := k.procs[c].msg, mFrom := c, d0 := c))
  }

  /** The running process takes the message of sender s, which goes on only if it does not
      itself wait for an answer. */
  function TakeFrom(k: Table, s: int): Table
    requires IsPid(k, k.cur) && IsPid(k, s)
  {
    var c := k.cur;
    var k1 := Put(k, c, k.procs[c].(msg := k.procs[s].msg, mFrom := NONE));
    var d := k1.procs[s].(d0 := c, mTo := NONE);
    if d.mFrom == NONE then Wake(k1, s, d) else Put(k1, s, d)
  }

  /** Slot p is blocked with a message for c. */
  predicate SendsTo(k: Table, p: int, c: int) {
    IsBlocked(k, p) && k.procs[p].mTo == c
  }

  /** The lowest slot at or above p that sends to c; ANY if there is none. */
  function FirstSender(k: Table, c: int, p: nat): (s: int)
    requires p <= |k.procs|
    ensures s == ANY || p <= s < |k.procs|
    ensures s == ANY <==> forall q :: p <= q < |k.procs| ==> !SendsTo(k, q, c)
    ensures s != ANY ==> SendsTo(k, s, c) && forall q :: p <= q < s ==> !SendsTo(k, q, c)
    decreases |k.procs| - p
  {
    if p == |k.procs| then ANY
    else if SendsTo(k, p, c) then p
    else FirstSender(k, c, p + 1)
  }

  /** sendreceive called by the running process; `t` is a slot or ANY. */
  function SendReceive(k: Table, t: int, msg: Message, send: bool, recv: bool): (o: Outcome)
    requires Shaped(k) && (t == ANY || IsPid(k, t)) && k.cur != Idle(k)
  {
    var c := k.cur;
    var k0 := Put(k, c, k.procs[c].(msg := msg));
    if !send then
      ReceivePart(Put(k0, c, k0.procs[c].(mTo := NONE)), t, recv, [])
    else if t == ANY then
      Outcome(k0, Returns(ESENDANY), [])
    else
      var k1 := Put(k0, c, k0.procs[c].(mTo := t));
      var r := k1.procs[t];
      if r.state.Blocked? && (r.mFrom == c || r.mFrom == ANY) then
        ReceivePart(HandOver(k1, t), t, recv, [Copy(c, t, msg)])
      else if r.state.Blocked? && r.mTo == c then
        Outcome(k1, Returns(ELOCK), [])
      else
        ReceivePart(k1, t, recv, [])
  }

  function ReceivePart(k: Table, t: int, recv: bool, copies: seq<Copy>): (o: Outcome)
    requires IsPid(k, k.cur) && (t == ANY || IsPid(k, t)) && k.cur != Idle(k)
    requires |k.ready| > 1 && k.cur in k.ready
  {
    var c := k.cur;
    var k1 := Put(k, c, k.procs[c].(mFrom := if recv then t else NONE));
    if recv && k.procs[c].mTo == NONE then
      var s := if t == ANY then FirstSender(k1, c, 0) else t;
      if s != ANY && SendsTo(k1, s, c) then
        Outcome(TakeFrom(k1, s), Returns(s), copies + [Copy(s, c, k1.procs[s].msg)])
      else
        Settle(k1, s, copies)
    else
      Settle(k1, t, copies)
  }

  /** Return if no communication is left; else block, unless a signal is pending. */
  function Settle(k: Table, t: int, copies: seq<Copy>): (o: Outcome)
    requires IsPid(k, k.cur) && |k.ready| > 1 && k.cur in k.ready
  {
    var c := k.cur;
    var d := k.procs[c];
    if d.mFrom == NONE && d.mTo == NONE then
      Outcome(k, Returns(t), copies)
    else if d.signals == {} then
      var k1 := k.(procs := k.procs[c := d.(state := Blocked)], ready := Without(k.ready, c));
      Outcome(Reschedule(k1), Suspended, copies)
    else
      var d1 := d.(signals := d.signals - {Alarm}, mFrom := NONE, mTo := NONE, d0 := EABORT);
      Outcome(Reschedule(Put(k, c, d1)), Returns(EABORT), copies)
  }

  /** What a system task returns from sendreceive once it runs again after a suspension. */
  function ResumeValue(d: Proc, recv: bool): int {
    if recv then (if d.mFrom != NONE then d.mFrom else EABORT)
    else if d.mTo != NONE then d.mTo else EABORT
  }

  // ---------------------------------------------------------------- signals and life cycle

  function Raise(k: Table, p: int, sig: Signal): Table
    requires IsPid(k, p)
  {
    var d := k.procs[p];
    match d.state
    case Blocked => Wake(k, p, d.(mFrom := NONE, mTo := NONE, d0 := EABORT))
    case Ready => Put(k, p, d.(signals := d.signals + {sig}))
    case _ => k
  }

  function Wait(k: Table, p: int): Table
    requires IsPid(k, p)
  {
    Put(k, p, k.procs[p].(mFrom := NONE, mTo := NONE))
  }

  /** Take slot p off the ready ring, if it is there, and give it state s. */
  function Retire(k: Table, p: int, s: State): Table
    requires IsPid(k, p) && (k.procs[p].state.Ready? ==> p in k.ready)
  {
    k.(procs := k.procs[p := k.procs[p].(state := s)],
       ready := if k.procs[p].state.Ready? then Without(k.ready, p) else k.ready)
  }

  function Exit(k: Table, p: int, val: int): Table
    requires IsPid(k, p) && IsPid(k, k.procs[p].ppid) && (k.procs[p].state.Ready? ==> p in k.ready)
  {
    Raise(Retire(Put(k, p, k.procs[p].(exitVal := val)), p, Stopped), k.procs[p].ppid, Child)
  }

  function Kill(k: Table, p: int): Table
    requires IsPid(k, p) && (k.procs[p].state.Ready? ==> p in k.ready)
  {
    var k1 := Retire(k, p, Unused);
    k1.(free := Insert(k1.free, p))
  }

  /** A fresh system task: a zeroed descriptor made ready. */
  function TaskProc(): Proc {
    Proc(Ready, 0, 0, BLANK, {}, KERNEL_UID, 0, 0, 0)
  }

  /** The slot proc_create_task uses, NONE if it fails. */
  function TaskSlot(k: Table, p: int): (r: int)
    requires p == ANY || IsPid(k, p)
  {
    if p == ANY then (if k.free == [] then NONE else k.free[0])
    else if k.procs[p].state.Unused? then p else NONE
  }

  /** proc_create_task; note that the value returned for ANY is ANY itself, not the slot. */
  function CreateTask(k: Table, p: int): (r: (Table, int))
    requires (p == ANY || IsPid(k, p)) && InRange(k.free, |k.procs|)
    requires p != ANY && k.procs[p].state.Unused? ==> p in k.free
  {
    var s := TaskSlot(k, p);
    if s == NONE then (k, NONE)
    else
      (k.(procs := k.procs[s := TaskProc()], free := TakenFrom(k.free, s), ready := Insert(k.ready, s)), p)
  }

  /** proc_create_init: a user process that is blocked until a signal. */
  function CreateInit(k: Table): (r: (Table, int))
    requires InRange(k.free, |k.procs|)
  {
    if k.free == [] then (k, NONE)
    else
      var s := k.free[0];
      (k.(procs := k.procs[s := Proc(Blocked, NONE, NONE, BLANK, {}, ROOT_UID, 0, 0, 0)],
          free := TakenFrom(k.free, s)), s)
  }

  /** proc_fork. Without memory for the child the slot stays taken, as a copy of the parent. */
  function Fork(k: Table, parent: int, memory: bool): (r: (Table, int))
    requires IsPid(k, parent) && InRange(k.free, |k.procs|)
  {
    if k.free == [] then (k, NONE)
    else
      var s := k.free[0];
      var d := k.procs[parent].(ppid := parent);
      (k.(procs := k.procs[s := if memory then d.(state := Blocked) else d],
          free := TakenFrom(k.free, s)), if memory then s else NONE)
  }

  // ---------------------------------------------------------------- runs

  datatype Event =
    | Call(t: int, msg: Message, send: bool, recv: bool)
    | Interrupt
    | Sig(p: int, sig: Signal)
    | WaitFor(p: int)
    | ExitOf(p: int, val: int)
    | KillOf(p: int)
    | ForkOf(parent: int, memory: bool)
    | NewTask(p: int)
    | NewInit

  /** Slot p waits for an answer of the running process and has nothing left to send. */
  predicate AwaitsAnswer(k: Table, p: int) {
    IsBlocked(k, p) && k.procs[p].mTo == NONE && k.procs[p].mFrom == k.cur
  }

  /** When the kernel's callers perform an event: the idle task makes no call, nobody ends the
      running process, the idle task or an unused slot, and a fork is asked for by a process
      that waits for the answer. */
  predicate Enabled(k: Table, e: Event) {
    match e
    case Call(t, _, _, _) => (t == ANY || IsPid(k, t)) && k.cur != Idle(k)
    case Interrupt => true
    case Sig(p, _) => IsPid(k, p)
    case WaitFor(p) => IsPid(k, p)
    case ExitOf(p, _) => IsPid(k, p) && p != k.cur && p != Idle(k) && !k.procs[p].state.Unused?
    case KillOf(p) => IsPid(k, p) && p != k.cur && p != Idle(k) && !k.procs[p].state.Unused?
    case ForkOf(p, _) => AwaitsAnswer(k, p)
    case NewTask(p) => p == ANY || IsPid(k, p)
    case NewInit => true
  }
}
