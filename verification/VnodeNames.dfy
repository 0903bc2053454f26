/** Who names a vnode: file descriptors, current directories and mounts. The reference counts never
    fall below the number of names, and exceed it by exactly the names that were overwritten. */
module VnodeNames {

  const NIL: int := -1

  /** A process's current directory and file descriptors. */
  datatype Proc = Proc(cdir: int, fds: seq<int>)

  /** Counts, processes, and the vnodes that mounts hold, one entry a hold. */
  datatype State = State(count: seq<nat>, procs: seq<Proc>, pins: seq<int>)

  datatype Event =
    | Open(pid: nat, fd: nat, v: nat)
    | Close(pid: nat, fd: nat)
    | Chdir(pid: nat, v: nat)
    | Fork(parent: nat, child: nat)
    | Kill(pid: nat)
    | Sysdir(pid: nat)
    | MountRoot(root: nat)
    | Mount(root: nat, dir: nat)

  function One(b: bool): nat {
    if b then 1 else 0
  }

  function Occurs(s: seq<int>, v: nat): nat {
    if s == [] then 0 else Occurs(s[..|s| - 1], v) + One(s[|s| - 1] == v)
  }

  function NamesOf(p: Proc, v: nat): nat {
    Occurs(p.fds, v) + One(p.cdir == v)
  }

  function Names(ps: seq<Proc>, v: nat): nat {
    if ps == [] then 0 else Names(ps[..|ps| - 1], v) + NamesOf(ps[|ps| - 1], v)
  }

  /** The references to v that something accounts for. */
  function Total(s: State, v: nat): nat {
    Names(s.procs, v) + Occurs(s.pins, v)
  }

  /** Every name is a vnode, and is paid for by the vnode's count. */
  ghost predicate Accounted(s: State) {
    && (forall v :: 0 <= v < |s.count| ==> Total(s, v) <= s.count[v])
    && (forall v: nat :: v >= |s.count| ==> Total(s, v) == 0)
  }

  // ---------------------------------------------------------------- counting

  lemma {:induction false} OccursUpdate(s: seq<int>, i: nat, x: int, v: nat)
    requires i < |s|
    ensures Occurs(s[i := x], v) == Occurs(s, v) - One(s[i] == v) + One(x == v)
  {
    var n := |s| - 1;
    if i == n {
      assert s[i := x][..n] == s[..n];
    } else {
      assert s[i := x][..n] == s[..n][i := x];
      OccursUpdate(s[..n], i, x, v);
    }
  }

  lemma {:induction false} NamesUpdate(ps: seq<Proc>, i: nat, p: Proc, v: nat)
    requires i < |ps|
    ensures Names(ps[i := p], v) == Names(ps, v) - NamesOf(ps[i], v) + NamesOf(p, v)
  {
    var n := |ps| - 1;
    if i == n {
      assert ps[i := p][..n] == ps[..n];
    } else {
      assert ps[i := p][..n] == ps[..n][i := p];
      NamesUpdate(ps[..n], i, p, v);
    }
  }

  lemma {:induction false} NameIsCounted(ps: seq<Proc>, i: nat, v: nat)
    requires i < |ps|
    ensures NamesOf(ps[i], v) <= Names(ps, v)
  {
    var n := |ps| - 1;
    if i < n { NameIsCounted(ps[..n], i, v); }
  }

  lemma {:induction false} OccursAt(s: seq<int>, i: nat)
    requires i < |s| && s[i] >= 0
    ensures Occurs(s, s[i]) >= 1
  {
    var n := |s| - 1;
    if i < n {
      assert s[..n][i] == s[i];
      OccursAt(s[..n], i);
    }
  }

  // ---------------------------------------------------------------- the handlers

  /** The descriptors after one slot is set. */
  function WithFd(s: State, pid: nat, fd: nat, x: int): seq<Proc>
    requires pid < |s.procs| && fd < |s.procs[pid].fds|
  {
    s.procs[pid := s.procs[pid].(fds := s.procs[pid].fds[fd := x])]
  }

  ghost predicate Enabled(s: State, e: Event) {
    match e
    case Open(pid, fd, v) => pid < |s.procs| && fd < |s.procs[pid].fds| && s.procs[pid].fds[fd] == NIL && v < |s.count|
    case Close(pid, fd) => pid < |s.procs| && fd < |s.procs[pid].fds| && s.procs[pid].fds[fd] >= 0
    case Chdir(pid, v) => pid < |s.procs| && v < |s.count|
    case Fork(parent, child) => parent < |s.procs| && child < |s.procs|
    case Kill(pid) => pid < |s.procs|
    case Sysdir(pid) => pid < |s.procs|
    case MountRoot(root) => root < |s.count|
    case Mount(root, dir) => root < |s.count| && dir < |s.count|
  }

  /** The processes after an event. */
  function ProcsAfter(s: State, e: Event): seq<Proc>
    requires Enabled(s, e)
  {
    match e
    case Open(pid, fd, v) => WithFd(s, pid, fd, v)
    case Close(pid, fd) => WithFd(s, pid, fd, NIL)
    case Chdir(pid, v) => s.procs[pid := s.procs[pid].(cdir := v)]
    case Fork(parent, child) => s.procs[child := s.procs[parent]]
    case Kill(pid) => s.procs[pid := Proc(NIL, seq(|s.procs[pid].fds|, i => NIL))]
    case Sysdir(pid) => s.procs[0 := s.procs[0].(cdir := if pid != 0 then s.procs[pid].cdir else NIL)]
    case MountRoot(_) => s.procs
    case Mount(_, _) => s.procs
  }

  /** What mounts hold after an event: a mount holds its root, and the covered directory if it has one. */
  function PinsAfter(s: State, e: Event): seq<int> {
    match e
    case MountRoot(root) => s.pins + [root]
    case Mount(root, dir) => s.pins + [root, dir]
    case _ => s.pins
  }

  /** How often an event holds v, and how often it releases it. */
  function Holds(s: State, e: Event, v: nat): nat
    requires Enabled(s, e)
  {
    match e
    case Open(pid, fd, w) => One(v == w)
    case Chdir(pid, w) => One(v == w)
    case Fork(parent, child) => NamesOf(s.procs[parent], v)
    case Sysdir(pid) => One(pid != 0 && s.procs[pid].cdir == v)
    case MountRoot(root) => One(root == v)
    case Mount(root, dir) => One(root == v) + One(dir == v)
    case _ => 0
  }

  function Releases(s: State, e: Event, v: nat): nat
    requires Enabled(s, e)
  {
    match e
    case Close(pid, fd) => One(s.procs[pid].fds[fd] == v)
    case Kill(pid) => NamesOf(s.procs[pid], v)
    case Sysdir(pid) => One(pid == 0 && s.procs[0].cdir == v)
    case _ => 0
  }

  /** The names an event overwrites without releasing them. */
  function Dropped(s: State, e: Event, v: nat): nat
    requires Enabled(s, e)
  {
    match e
    case Chdir(pid, w) => One(s.procs[pid].cdir == v)
    case Fork(parent, child) => NamesOf(s.procs[child], v)
    case Sysdir(pid) => One(pid != 0 && s.procs[0].cdir == v)
    case _ => 0
  }

  /** From s to t by e. */
  ghost predicate Step(s: State, e: Event, t: State) {
    && Enabled(s, e) && t.procs == ProcsAfter(s, e) && t.pins == PinsAfter(s, e) && |t.count| == |s.count|
    && forall v :: 0 <= v < |s.count| ==> CountAfter(s, e, t, v)
  }

  ghost predicate CountAfter(s: State, e: Event, t: State, v: nat)
    requires Enabled(s, e) && v < |s.count| && v < |t.count|
  {
    t.count[v] == s.count[v] + Holds(s, e, v) - Releases(s, e, v)
  }

  /** The names of every process but pid are the same. */
  ghost predicate OthersSame(s: State, t: State, pid: nat) {
    |t.procs| == |s.procs| && forall q :: 0 <= q < |s.procs| && q != pid ==> t.procs[q] == s.procs[q]
  }

  /** One descriptor of a process is x; its others and its directory are the same. */
  ghost predicate OneFdIs(p: Proc, q: Proc, fd: nat, x: int) {
    && |q.fds| == |p.fds| && fd < |q.fds| && q.fds[fd] == x && q.cdir == p.cdir
    && forall i :: 0 <= i < |p.fds| && i != fd ==> q.fds[i] == p.fds[i]
  }

  /** Who names what after an event. */
  lemma NamesOfProcesses(s: State, e: Event, t: State)
    requires Step(s, e, t)
    ensures
      match e
      case Open(pid, fd, v) => OthersSame(s, t, pid) && OneFdIs(s.procs[pid], t.procs[pid], fd, v)
      case Close(pid, fd) => OthersSame(s, t, pid) && OneFdIs(s.procs[pid], t.procs[pid], fd, NIL)
      case Chdir(pid, v) => OthersSame(s, t, pid) && t.procs[pid].cdir == v && t.procs[pid].fds == s.procs[pid].fds
      case Fork(parent, child) => OthersSame(s, t, child)
        && t.procs[child].cdir == s.procs[parent].cdir && t.procs[child].fds == s.procs[parent].fds
      case Kill(pid) => OthersSame(s, t, pid)
        && t.procs[pid].cdir == NIL && forall i :: 0 <= i < |t.procs[pid].fds| ==> t.procs[pid].fds[i] == NIL
      case Sysdir(pid) => OthersSame(s, t, 0)
        && t.procs[0].cdir == (if pid == 0 then NIL else s.procs[pid].cdir) && t.procs[0].fds == s.procs[0].fds
      case MountRoot(_) => t.procs == s.procs
      case Mount(_, _) => t.procs == s.procs
  {
    match e
    case Open(pid, fd, v) => assert t.procs[pid].fds == s.procs[pid].fds[fd := v];
    case Close(pid, fd) => assert t.procs[pid].fds == s.procs[pid].fds[fd := NIL];
    case Kill(pid) => assert t.procs[pid] == Proc(NIL, seq(|s.procs[pid].fds|, i => NIL));
    case _ =>
  }

  lemma {:induction false} NothingOccurs(n: nat, v: nat)
    ensures Occurs(seq(n, i => NIL), v) == 0
  {
    var s := seq(n, i => NIL);
    if n > 0 {
      assert s[..n - 1] == seq(n - 1, i => NIL);
      NothingOccurs(n - 1, v);
    }
  }

  /** Names and pins change by what is held, less what is released and what is dropped. */
  lemma NamesAfter(s: State, e: Event, v: nat)
    requires Enabled(s, e)
    ensures Names(ProcsAfter(s, e), v) + Occurs(PinsAfter(s, e), v)
         == Total(s, v) + Holds(s, e, v) - Releases(s, e, v) - Dropped(s, e, v)
  {
    match e
    case Open(pid, fd, w) =>
      OccursUpdate(s.procs[pid].fds, fd, w, v);
      NamesUpdate(s.procs, pid, WithFd(s, pid, fd, w)[pid], v);
    case Close(pid, fd) =>
      OccursUpdate(s.procs[pid].fds, fd, NIL, v);
      NamesUpdate(s.procs, pid, WithFd(s, pid, fd, NIL)[pid], v);
    case Chdir(pid, w) => NamesUpdate(s.procs, pid, s.procs[pid].(cdir := w), v);
    case Fork(parent, child) => NamesUpdate(s.procs, child, s.procs[parent], v);
    case Kill(pid) =>
      NothingOccurs(|s.procs[pid].fds|, v);
      NamesUpdate(s.procs, pid, ProcsAfter(s, e)[pid], v);
    case Sysdir(pid) => NamesUpdate(s.procs, 0, ProcsAfter(s, e)[0], v);
    case MountRoot(root) => assert (s.pins + [root])[..|s.pins|] == s.pins;
    case Mount(root, dir) => OccursTwo(s.pins, root, dir, v);
  }

  lemma OccursTwo(s: seq<int>, a: int, b: int, v: nat)
    ensures Occurs(s + [a, b], v) == Occurs(s, v) + One(a == v) + One(b == v)
  {
    var t := s + [a, b];
    assert t[..|t| - 1] == s + [a];
    assert (s + [a])[..|s|] == s;
  }

  /** An event raises the surplus of a count over its names by exactly the names it drops. */
  lemma SurplusIsDropped(s: State, e: Event, t: State, v: nat)
    requires Step(s, e, t) && v < |s.count|
    ensures t.count[v] - Total(t, v) == s.count[v] - Total(s, v) + Dropped(s, e, v)
  {
    assert CountAfter(s, e, t, v);
    NamesAfter(s, e, v);
  }

  lemma StepKeeps(s: State, e: Event, t: State)
    requires Accounted(s) && Step(s, e, t)
    ensures Accounted(t)
  {
    forall v | 0 <= v < |t.count| ensures Total(t, v) <= t.count[v] { SurplusIsDropped(s, e, t, v); }
    forall v: nat | v >= |t.count| ensures Total(t, v) == 0 {
      NamesAfter(s, e, v);
      HoldsOnlyNames(s, e, v);
      assert Total(s, v) == 0;
    }
  }

  /** What an event holds is in the pool. */
  lemma HoldsOnlyNames(s: State, e: Event, v: nat)
    requires Accounted(s) && Enabled(s, e) && v >= |s.count|
    ensures Holds(s, e, v) == 0
  {
    assert Total(s, v) == 0;
    match e
    case Fork(parent, child) => NameIsCounted(s.procs, parent, v);
    case Sysdir(pid) => NameIsCounted(s.procs, pid, v);
    case _ =>
  }

  // ---------------------------------------------------------------- start-up

  /** The state after start-up: n vnodes without references, processes that name nothing. */
  function Boot(n: nat, procCount: nat, fdCount: nat): State {
    State(seq(n, i => 0), seq(procCount, i => Proc(NIL, seq(fdCount, j => NIL))), [])
  }

  lemma {:induction false} NobodyNames(procCount: nat, fdCount: nat, v: nat)
    ensures Names(seq(procCount, i => Proc(NIL, seq(fdCount, j => NIL))), v) == 0
  {
    var ps := seq(procCount, i => Proc(NIL, seq(fdCount, j => NIL)));
    if procCount > 0 {
      assert ps[..procCount - 1] == seq(procCount - 1, i => Proc(NIL, seq(fdCount, j => NIL)));
      NobodyNames(procCount - 1, fdCount, v);
      NothingOccurs(fdCount, v);
    }
  }

  lemma BootIsExact(n: nat, procCount: nat, fdCount: nat)
    ensures Accounted(Boot(n, procCount, fdCount))
    ensures forall v: nat :: Total(Boot(n, procCount, fdCount), v) == 0
  {
    forall v: nat ensures Total(Boot(n, procCount, fdCount), v) == 0 { NobodyNames(procCount, fdCount, v); }
  }

  // ---------------------------------------------------------------- runs

  ghost predicate Run(states: seq<State>, events: seq<Event>) {
    |states| == |events| + 1 && forall i :: 0 <= i < |events| ==> StepAt(states, events, i)
  }

  ghost predicate StepAt(states: seq<State>, events: seq<Event>, i: nat)
    requires i < |events| && i + 1 < |states|
  {
    Step(states[i], events[i], states[i + 1])
  }

  /** All that the events dropped of v. */
  ghost function AllDropped(states: seq<State>, events: seq<Event>, v: nat): nat
    requires Run(states, events)
    decreases |events|
  {
    if events == [] then 0
    else
      var n := |events| - 1;
      RunPrefix(states, events);
      assert StepAt(states, events, n);
      AllDropped(states[..n + 1], events[..n], v) + Dropped(states[n], events[n], v)
  }

  lemma RunPrefix(states: seq<State>, events: seq<Event>)
    requires Run(states, events) && events != []
    ensures Run(states[..|events|], events[..|events| - 1])
  {
    var n := |events| - 1;
    var ss, es := states[..n + 1], events[..n];
    forall i | 0 <= i < |es| ensures StepAt(ss, es, i) { assert StepAt(states, events, i); }
  }

  /** Over any run from an exact start: no vnode that is named has its count at zero, and the count
      is the number of names and of names dropped. */
  lemma {:induction false} NamedIsHeld(states: seq<State>, events: seq<Event>, v: nat)
    requires Run(states, events) && Accounted(states[0]) && v < |states[0].count|
    requires states[0].count[v] == Total(states[0], v)
    ensures var t := states[|events|];
      && Accounted(t) && |t.count| == |states[0].count|
      && t.count[v] == Total(t, v) + AllDropped(states, events, v)
      && (Total(t, v) > 0 ==> t.count[v] > 0)
    decreases |events|
  {
    if events != [] {
      var n := |events| - 1;
      RunPrefix(states, events);
      NamedIsHeld(states[..n + 1], events[..n], v);
      assert StepAt(states, events, n);
      StepKeeps(states[n], events[n], states[n + 1]);
      SurplusIsDropped(states[n], events[n], states[n + 1], v);
    }
  }

  /** Over any run from start-up, with any number of vnodes, processes and descriptors: no vnode that
      is named has its count at zero, and its count is the number of its names and of names dropped. */
  lemma NamedIsHeldFromStart(n: nat, procCount: nat, fdCount: nat, states: seq<State>, events: seq<Event>, v: nat)
    requires Run(states, events) && states[0] == Boot(n, procCount, fdCount) && v < n
    ensures var t := states[|events|];
      && Accounted(t) && |t.count| == n
      && t.count[v] == Total(t, v) + AllDropped(states, events, v)
      && (Total(t, v) > 0 ==> t.count[v] > 0)
  {
    BootIsExact(n, procCount, fdCount);
    NamedIsHeld(states, events, v);
  }
}
