/** Memory isolation over runs: what the process manager records about each user process
    matches the owner table, and the memories of two processes never meet. */
module Isolation {
  import opened Basics
  import opened Blocks
  import opened Memory

  /** Address and size recorded in a process descriptor. */
  datatype Grant = Grant(ad: nat, sz: nat)

  /** The owner table and what is recorded. grants are the regions of the processes that have
      memory; stale is what the slot of a process created or forked without memory records. */
  datatype Mem = Mem(sts: seq<int>, rsvd: nat, grants: map<int, Grant>, stale: map<int, Grant>)

  predicate Known(m: Mem, pid: int) { pid in m.grants || pid in m.stale }

  /** Block i lies in the region of g. */
  predicate In(g: Grant, i: int) {
    g.ad / BLOCK <= i < g.ad / BLOCK + Count(g.sz)
  }

  /** pid's region is well placed and consists of exactly the blocks tagged with pid. */
  ghost predicate Exact(m: Mem, pid: int)
    requires pid in m.grants
  {
    var g := m.grants[pid];
    && pid > 0 && g.ad > 0 && g.sz <= 0x800_0000
    && Region(m.sts, pid, m.rsvd, g.ad, g.sz)
    && forall i :: 0 <= i < |m.sts| && m.sts[i] == pid ==> In(g, i)
  }

  ghost predicate Isolated(m: Mem) {
    && m.rsvd >= 1 && |m.sts| <= 0x8000
    && (forall i :: 0 <= i < |m.sts| && m.sts[i] != 0 ==> m.sts[i] in m.grants)
    && forall pid :: pid in m.grants ==> Exact(m, pid)
  }

  datatype Event = Create(pid: int, size: nat) | Fork(parent: int, child: int) | Brk(pid: int, size: nat)
    | Kill(pid: int)

  predicate Enabled(m: Mem, e: Event) {
    match e
    case Create(pid, size) => pid > 0 && !Known(m, pid) && size <= 0x800_0000
    case Fork(parent, child) => parent in m.grants && child > 0 && !Known(m, child)
    case Brk(pid, size) => pid in m.grants && size <= 0x800_0000
    case Kill(pid) => Known(m, pid)
  }

  /** First allocation for a process, proc_create_init and proc_fork. Without memory the slot
      stays with what it recorded. */
  function Allocate(m: Mem, pid: int, size: nat, left: Grant): Mem {
    var (t, r) := Reallocated(m.sts, pid, m.rsvd, 0, 0, size);
    if r == 0 then m.(stale := m.stale[pid := left])
    else Mem(t, m.rsvd, m.grants[pid := Grant(r, size)], m.stale)
  }

  /** proc_brk. */
  function Resize(m: Mem, pid: int, size: nat): Mem
    requires pid in m.grants
  {
    var g := m.grants[pid];
    var (t, r) := Reallocated(m.sts, pid, m.rsvd, g.ad, g.sz, size);
    if r == 0 then m else Mem(t, m.rsvd, m.grants[pid := Grant(r, Align4(size))], m.stale)
  }

  /** What the slot of pid records. */
  function Recorded(m: Mem, pid: int): Grant
    requires Known(m, pid)
  {
    if pid in m.grants then m.grants[pid] else m.stale[pid]
  }

  /** The memory part of proc_kill: the recorded region is freed, whoever owns it. */
  function Release(m: Mem, pid: int): Mem
    requires Known(m, pid)
  {
    var g := Recorded(m, pid);
    Mem(Fill(m.sts, g.ad / BLOCK, Count(g.sz), 0), m.rsvd, m.grants - {pid}, m.stale - {pid})
  }

  function Step(m: Mem, e: Event): Mem
    requires Enabled(m, e)
  {
    match e
    case Create(pid, size) => Allocate(m, pid, size, Grant(0, size))
    case Fork(parent, child) => Allocate(m, child, m.grants[parent].sz, m.grants[parent])
    case Brk(pid, size) => Resize(m, pid, size)
    case Kill(pid) => Release(m, pid)
  }

  /** The start of the region a reallocation of pid to `size` bytes would choose. */
  function Choice(m: Mem, pid: int, size: nat): int {
    FirstFit(m.sts, pid, m.rsvd, 0, Count(size))
  }

  /** The call shrinks a region to fewer blocks without moving it. */
  predicate ShrinksInPlace(m: Mem, pid: int, size: nat)
    requires pid in m.grants
  {
    && Count(size) < Count(m.grants[pid].sz)
    && Choice(m, pid, size) == m.grants[pid].ad / BLOCK
  }

  /** q's blocks and record are the same. */
  lemma ExactStays(m: Mem, m1: Mem, q: int)
    requires q in m.grants && Exact(m, q) && |m1.sts| == |m.sts| && m1.rsvd == m.rsvd
    requires q in m1.grants && m1.grants[q] == m.grants[q]
    requires forall i :: 0 <= i < |m.sts| ==> (m1.sts[i] == q <==> m.sts[i] == q)
    ensures Exact(m1, q)
  {
  }

  /** A successful placement of pid at block f leaves everybody exact: old blocks outside the
      new run have been given up. */
  lemma PlaceKeeps(m: Mem, m1: Mem, pid: int, f: nat, size: nat, recorded: nat)
    requires Isolated(m) && pid > 0 && recorded <= 0x800_0000 && Count(recorded) == Count(size)
    requires Candidate(m.sts, pid, m.rsvd, f, Count(size))
    requires |m1.sts| == |m.sts| && m1.rsvd == m.rsvd && m1.grants == m.grants[pid := Grant(f * BLOCK, recorded)]
    requires forall i :: 0 <= i < |m.sts| ==>
               m1.sts[i] == if f <= i < f + Count(size) then pid else if m.sts[i] == pid then 0 else m.sts[i]
    ensures Isolated(m1)
  {
    forall q | q in m1.grants ensures Exact(m1, q) {
      if q != pid { assert Exact(m, q); ExactStays(m, m1, q); }
    }
    forall i | 0 <= i < |m1.sts| && m1.sts[i] != 0 ensures m1.sts[i] in m1.grants {
      if !(f <= i < f + Count(size)) { assert m.sts[i] in m.grants; }
    }
  }

  /** Creating or forking a process keeps everybody exact; it gets memory if there is a run. */
  lemma AllocateKeeps(m: Mem, pid: int, size: nat, left: Grant)
    requires Isolated(m) && pid > 0 && !Known(m, pid) && size <= 0x800_0000
    ensures var m1 := Allocate(m, pid, size, left);
      && Isolated(m1)
      && (pid in m1.grants <==> exists b :: Candidate(m.sts, pid, m.rsvd, b, Count(size)))
      && (pid !in m1.grants ==> m1 == m.(stale := m.stale[pid := left]))
  {
    Memory.FirstOrNone(m.sts, pid, m.rsvd, 0, 0, size);
    var f := FirstFit(m.sts, pid, m.rsvd, 0, Count(size));
    if f >= 0 {
      PlaceKeeps(m, Allocate(m, pid, size, left), pid, f, size, size);
    }
  }

  /** No process owns a block of the region that pid's slot records. */
  predicate NobodyLosesBy(m: Mem, pid: int)
    requires Known(m, pid)
  {
    forall i :: 0 <= i < |m.sts| && In(Recorded(m, pid), i) ==> m.sts[i] == pid || m.sts[i] == 0
  }

  lemma ReleaseKeepsIf(m: Mem, pid: int)
    requires Isolated(m) && Known(m, pid) && NobodyLosesBy(m, pid)
    ensures Isolated(Release(m, pid))
    ensures forall i :: 0 <= i < |m.sts| ==> Release(m, pid).sts[i] == if m.sts[i] == pid then 0 else m.sts[i]
  {
    var m1, r := Release(m, pid), Recorded(m, pid);
    forall i | 0 <= i < |m.sts| ensures m1.sts[i] == if m.sts[i] == pid then 0 else m.sts[i] {
      if m.sts[i] == pid && pid != 0 { assert Exact(m, pid) && In(m.grants[pid], i); }
      assert m1.sts[i] == if In(r, i) then 0 else m.sts[i];
    }
    forall q | q in m1.grants ensures Exact(m1, q) { assert Exact(m, q); ExactStays(m, m1, q); }
    forall i | 0 <= i < |m1.sts| && m1.sts[i] != 0 ensures m1.sts[i] in m1.grants {
      assert m.sts[i] == m1.sts[i] != pid;
    }
  }

  /** Killing keeps the memories isolated if and only if no other process owns a block of the
      recorded region. */
  lemma ReleaseKeepsIff(m: Mem, pid: int)
    requires Isolated(m) && Known(m, pid)
    ensures Isolated(Release(m, pid)) <==> NobodyLosesBy(m, pid)
    ensures pid in m.grants ==> NobodyLosesBy(m, pid)
  {
    if pid in m.grants { assert Exact(m, pid); }
    if NobodyLosesBy(m, pid) {
      ReleaseKeepsIf(m, pid);
    } else {
      var m1 := Release(m, pid);
      var i :| 0 <= i < |m.sts| && In(Recorded(m, pid), i) && m.sts[i] != pid && m.sts[i] != 0;
      var q := m.sts[i];
      assert Exact(m, q) && In(m.grants[q], i);
      assert m1.sts[i] == 0;
      assert !Exact(m1, q);
    }
  }

  /** After a failed fork, killing the slot left behind frees every block of the parent. */
  lemma FailedForkFreesParent(m: Mem, parent: int, child: int)
    requires Isolated(m) && Enabled(m, Fork(parent, child)) && child !in Step(m, Fork(parent, child)).grants
    ensures
      var m1 := Step(m, Fork(parent, child));
      && Known(m1, child) && !NobodyLosesBy(m1, child)
      && var m2 := Release(m1, child);
         && parent in m2.grants && !Exact(m2, parent)
         && forall i :: 0 <= i < |m.sts| ==> m2.sts[i] == if m.sts[i] == parent then 0 else m.sts[i]
  {
    var m1, g := Step(m, Fork(parent, child)), m.grants[parent];
    assert Exact(m, parent);
    assert m1 == m.(stale := m.stale[child := g]);
    var i := g.ad / BLOCK;
    assert In(g, i) && m.sts[i] == parent;
    var m2 := Release(m1, child);
    forall j | 0 <= j < |m.sts| ensures m2.sts[j] == if m.sts[j] == parent then 0 else m.sts[j] {
      assert m.sts[j] == parent <==> In(g, j);
    }
    assert m2.sts[i] == 0;
  }

  lemma ResizeKeepsIf(m: Mem, pid: int, size: nat)
    requires Isolated(m) && pid in m.grants && size <= 0x800_0000 && !ShrinksInPlace(m, pid, size)
    ensures Isolated(Resize(m, pid, size))
  {
    var f, g, m1 := Choice(m, pid, size), m.grants[pid], Resize(m, pid, size);
    assert Exact(m, pid);
    if f >= 0 {
      CountAlign4(size);
      forall i | 0 <= i < |m.sts|
        ensures m1.sts[i] == if f <= i < f + Count(size) then pid else if m.sts[i] == pid then 0 else m.sts[i]
      {
        assert m.sts[i] == pid <==> In(g, i);
      }
      PlaceKeeps(m, m1, pid, f, size, Align4(size));
    }
  }

  /** proc_brk keeps the memories isolated, each region being exactly the blocks tagged with
      its owner, if and only if it does not shrink a region in place: then the blocks cut off
      stay tagged and are lost. */
  lemma ResizeKeepsIff(m: Mem, pid: int, size: nat)
    requires Isolated(m) && pid in m.grants && size <= 0x800_0000
    ensures Isolated(Resize(m, pid, size)) <==> !ShrinksInPlace(m, pid, size)
  {
    if ShrinksInPlace(m, pid, size) {
      var f, g, m1 := Choice(m, pid, size), m.grants[pid], Resize(m, pid, size);
      assert Exact(m, pid);
      CountAlign4(size);
      var lost := f + Count(size);
      assert m.sts[lost] == pid && m1.sts[lost] == pid;
      assert !In(m1.grants[pid], lost);
      assert !Exact(m1, pid);
    } else {
      ResizeKeepsIf(m, pid, size);
    }
  }

  /** f is the lowest block at which pid could have a region of `size` bytes. */
  ghost predicate Lowest(m: Mem, pid: int, size: nat, f: nat) {
    && Candidate(m.sts, pid, m.rsvd, f, Count(size))
    && forall b :: Candidate(m.sts, pid, m.rsvd, b, Count(size)) ==> f <= b
  }

  /** What a creation and a resize record: the lowest place there is, and the size, which a resize rounds
      up to four bytes. Without a place a resize changes nothing. */
  lemma RecordsLowestPlace(m: Mem, pid: int, size: nat, left: Grant, f: nat)
    requires m.rsvd >= 1 && Lowest(m, pid, size, f)
    ensures var m1 := Allocate(m, pid, size, left); pid in m1.grants && m1.grants[pid] == Grant(f * BLOCK, size)
    ensures pid in m.grants ==>
      var g := Resize(m, pid, size).grants[pid];
      g.ad == f * BLOCK && size <= g.sz < size + 4 && g.sz % 4 == 0
  {
    FirstFitIs(m.sts, pid, m.rsvd, Count(size), f);
  }

  lemma ResizeFails(m: Mem, pid: int, size: nat)
    requires pid in m.grants && forall b :: !Candidate(m.sts, pid, m.rsvd, b, Count(size))
    ensures Resize(m, pid, size) == m
  {
    var f := Choice(m, pid, size);
    assert f >= 0 ==> Candidate(m.sts, pid, m.rsvd, f, Count(size));
  }

  /** A resize that moves copies the whole old region. It changes no byte of another process,
      whatever the memory holds, if and only if no other process owns a block behind the new
      region within the old size. */
  lemma ResizeOverwritesIff(m: Mem, pid: int, size: nat)
    requires Isolated(m) && pid in m.grants && size <= 0x800_0000
    requires 0 <= Choice(m, pid, size) != m.grants[pid].ad / BLOCK
    ensures
      var f, g := Choice(m, pid, size), m.grants[pid];
      && f * BLOCK + g.sz <= |m.sts| * BLOCK && g.ad + g.sz <= |m.sts| * BLOCK
      && ((forall bytes: seq<bv8> :: |bytes| == |m.sts| * BLOCK ==>
             OthersKept(m.sts, pid, bytes, Copied(bytes, f * BLOCK, g.ad, g.sz)))
          <==> forall i :: f + Count(size) <= i < |m.sts| && i * BLOCK < f * BLOCK + g.sz ==> !Foreign(m.sts, pid, i))
  {
    var f, g := Choice(m, pid, size), m.grants[pid];
    assert Exact(m, pid);
    MoveIsForward(m.sts, pid, m.rsvd, g.ad, g.sz, size);
    CountIsLeast(g.sz);
    assert g.ad == g.ad / BLOCK * BLOCK;
    CopyKeepsOthersIff(m.sts, pid, f, Count(size), g.ad, g.sz);
  }

  /** The table in which process 1, with blocks 4 to 7, is about to shrink to one block. */
  function Crowded(): Mem {
    Mem([0, 0, 2, 0, 1, 1, 1, 1], 1, map[1 := Grant(4 * BLOCK, 4 * BLOCK), 2 := Grant(2 * BLOCK, BLOCK)], map[])
  }

  function Vacant(blocks: nat, rsvd: nat): Mem {
    Mem(seq(blocks, i => 0), rsvd, map[], map[])
  }

  lemma FirstFitIs(sts: seq<int>, pid: int, rsvd: nat, n: nat, c: nat)
    requires n > 0 && Candidate(sts, pid, rsvd, c, n)
    requires forall b: nat :: b < c ==> !Candidate(sts, pid, rsvd, b, n)
    ensures FirstFit(sts, pid, rsvd, 0, n) == c
  {
    MultipleMod(n, 0);
    FirstFitIsFirst(sts, pid, rsvd, 0, n, c);
  }

  lemma SmallCounts()
    ensures Count(BLOCK) == 1 && Count(4 * BLOCK) == 4
  {
    assert (4 * BLOCK - 1) / BLOCK == 3;
    assert Above(3) == 2 * Above(1);
  }

  /** A creation that finds its first candidate at block c. */
  lemma Created(m: Mem, pid: int, size: nat, c: nat)
    requires Enabled(m, Create(pid, size)) && m.rsvd >= 1 && Candidate(m.sts, pid, m.rsvd, c, Count(size))
    requires forall b: nat :: b < c ==> !Candidate(m.sts, pid, m.rsvd, b, Count(size))
    ensures Step(m, Create(pid, size)) ==
      Mem(Fill(m.sts, c, Count(size), pid), m.rsvd, m.grants[pid := Grant(c * BLOCK, size)], m.stale)
  {
    FirstFitIs(m.sts, pid, m.rsvd, Count(size), c);
  }

  /** A run with one event in front. */
  lemma FollowsCons(m: Mem, e: Event, es: seq<Event>)
    requires Admitted(m, e) && Follows(Step(m, e), es)
    ensures Follows(m, [e] + es) && AfterRun(m, [e] + es) == AfterRun(Step(m, e), es)
  {
    assert ([e] + es)[1..] == es;
  }

  /** Such an overwriting resize is reached from the empty table of eight blocks, one of them
      reserved: processes 3, 2 and 1 are created, 3 is killed, and 1 gives up three of its four
      blocks. */
  lemma ShrinkMayOverwrite()
    ensures
      var es := [Create(3, BLOCK), Create(2, BLOCK), Create(1, 4 * BLOCK), Kill(3)];
      && Follows(Vacant(8, 1), es) && AfterRun(Vacant(8, 1), es) == Crowded() && Isolated(Crowded())
      && Admitted(Crowded(), Brk(1, BLOCK)) && Choice(Crowded(), 1, BLOCK) == 1
      && 2 * BLOCK < 1 * BLOCK + 4 * BLOCK && Foreign(Crowded().sts, 1, 2)
  {
    var k := Kill(3);
    var m1 := FillingSteps();
    var m2 := Filling();
    var m3 := CrowdedSteps();
    CrowdedIsIsolated();
    assert Follows(Crowded(), []);
    FollowsCons(m3, k, []);
    FollowsCons(m2, Create(1, 4 * BLOCK), [k] + []);
    FollowsCons(m1, Create(2, BLOCK), [Create(1, 4 * BLOCK)] + ([k] + []));
    FollowsCons(Vacant(8, 1), Create(3, BLOCK), [Create(2, BLOCK)] + ([Create(1, 4 * BLOCK)] + ([k] + [])));
    assert [Create(3, BLOCK)] + ([Create(2, BLOCK)] + ([Create(1, 4 * BLOCK)] + ([k] + [])))
        == [Create(3, BLOCK), Create(2, BLOCK), Create(1, 4 * BLOCK), k];
  }

  function Filling(): Mem {
    Mem([0, 3, 2, 0, 0, 0, 0, 0], 1, map[3 := Grant(BLOCK, BLOCK), 2 := Grant(2 * BLOCK, BLOCK)], map[])
  }

  lemma FillingSteps() returns (m1: Mem)
    ensures Admitted(Vacant(8, 1), Create(3, BLOCK)) && m1 == Step(Vacant(8, 1), Create(3, BLOCK))
    ensures Admitted(m1, Create(2, BLOCK)) && Step(m1, Create(2, BLOCK)) == Filling()
  {
    SmallCounts();
    m1 := Mem([0, 3, 0, 0, 0, 0, 0, 0], 1, map[3 := Grant(BLOCK, BLOCK)], map[]);
    Created(Vacant(8, 1), 3, BLOCK, 1);
    assert m1 == Step(Vacant(8, 1), Create(3, BLOCK));
    assert m1.sts[1] == 3;
    Created(m1, 2, BLOCK, 2);
    assert Step(m1, Create(2, BLOCK)) == Filling();
  }

  lemma CrowdedSteps() returns (m3: Mem)
    ensures Admitted(Filling(), Create(1, 4 * BLOCK)) && m3 == Step(Filling(), Create(1, 4 * BLOCK))
    ensures Admitted(m3, Kill(3)) && Step(m3, Kill(3)) == Crowded()
  {
    SmallCounts();
    m3 := Mem([0, 3, 2, 0, 1, 1, 1, 1], 1, Crowded().grants[3 := Grant(BLOCK, BLOCK)], map[]);
    Created(Filling(), 1, 4 * BLOCK, 4);
    assert m3 == Step(Filling(), Create(1, 4 * BLOCK));
    assert Step(m3, Kill(3)) == Crowded();
  }

  lemma CrowdedIsIsolated()
    ensures Isolated(Crowded()) && Choice(Crowded(), 1, BLOCK) == 1 && Admitted(Crowded(), Brk(1, BLOCK))
  {
    SmallCounts();
    var m := Crowded();
    assert Exact(m, 1) && Exact(m, 2);
    FirstFitIs(m.sts, 1, 1, 1, 1);
  }

  /** Runs in which no region is shrunk in place and nobody's blocks are freed by the kill of
      another. */
  ghost predicate Admitted(m: Mem, e: Event) {
    && Enabled(m, e)
    && (e.Brk? ==> !ShrinksInPlace(m, e.pid, e.size))
    && (e.Kill? ==> NobodyLosesBy(m, e.pid))
  }

  ghost predicate Follows(m: Mem, es: seq<Event>)
    decreases |es|
  {
    es == [] || (Admitted(m, es[0]) && Follows(Step(m, es[0]), es[1..]))
  }

  function AfterRun(m: Mem, es: seq<Event>): Mem
    requires Follows(m, es)
    decreases |es|
  {
    if es == [] then m else AfterRun(Step(m, es[0]), es[1..])
  }

  lemma {:induction false} RunKeepsIsolation(m: Mem, es: seq<Event>)
    requires Isolated(m) && Follows(m, es)
    ensures Isolated(AfterRun(m, es))
    decreases |es|
  {
    if es != [] {
      match es[0] {
        case Create(pid, size) => AllocateKeeps(m, pid, size, Grant(0, size));
        case Fork(parent, child) =>
          assert Exact(m, parent);
          AllocateKeeps(m, child, m.grants[parent].sz, m.grants[parent]);
        case Brk(pid, size) => ResizeKeepsIf(m, pid, size);
        case Kill(pid) => ReleaseKeepsIf(m, pid);
      }
      RunKeepsIsolation(Step(m, es[0]), es[1..]);
    }
  }

  /** In every state reached from the empty table: two processes share no block, and each owns
      exactly the blocks of its region. */
  lemma MemoriesStayIsolated(blocks: nat, rsvd: nat, es: seq<Event>)
    requires 1 <= rsvd && blocks <= 0x8000
    requires Follows(Vacant(blocks, rsvd), es)
    ensures
      var m := AfterRun(Vacant(blocks, rsvd), es);
      && (forall p :: p in m.grants ==> Exact(m, p))
      && (forall p, q, i :: p in m.grants && q in m.grants && p != q ==> !(In(m.grants[p], i) && In(m.grants[q], i)))
  {
    var m0 := Vacant(blocks, rsvd);
    RunKeepsIsolation(m0, es);
    var m := AfterRun(m0, es);
    forall p, q, i | p in m.grants && q in m.grants && p != q
      ensures !(In(m.grants[p], i) && In(m.grants[q], i))
    {
      assert Exact(m, p) && Exact(m, q);
      assert In(m.grants[p], i) ==> m.sts[i] == p;
      assert In(m.grants[q], i) ==> m.sts[i] == q;
    }
  }

  // ---------------------------------------------------------------- virtual addresses

  /** va_to_pa, in 32-bit arithmetic. */
  function VaToPa(g: Grant, va: nat, len: nat): nat
    requires va < U32 && len < U32
  {
    if (va + len) % U32 > g.sz then 0 else (va + g.ad) % U32
  }

  /** An accepted range lies in the region of its process if and only if the addition in the
      range check does not wrap. */
  lemma AcceptedIsInside(m: Mem, pid: int, va: nat, len: nat)
    requires Isolated(m) && pid in m.grants && va < U32 && 0 < len < U32
    requires VaToPa(m.grants[pid], va, len) != 0
    ensures
      var g := m.grants[pid];
      g.ad <= VaToPa(g, va, len) && VaToPa(g, va, len) + len <= g.ad + g.sz <==> va + len < U32
  {
    assert Exact(m, pid);
    var g := m.grants[pid];
    CountIsLeast(g.sz);
    Wrap(va + len);
    Wrap(va + g.ad);
  }

  /** A range whose end does not wrap is accepted if and only if it ends inside the recorded size, and is
      then translated to the address plus the start of the region. */
  lemma InsideIsAccepted(m: Mem, pid: int, va: nat, len: nat)
    requires Isolated(m) && pid in m.grants && va + len < U32
    ensures
      var g := m.grants[pid];
      && (VaToPa(g, va, len) != 0 <==> va + len <= g.sz)
      && (va + len <= g.sz ==> VaToPa(g, va, len) == g.ad + va < U32)
  {
    assert Exact(m, pid);
    var g := m.grants[pid];
    CountIsLeast(g.sz);
    RegionIsLow(g.ad, Count(g.sz), |m.sts|);
    Wrap(va + len);
    if va + len <= g.sz { Wrap(va + g.ad); }
  }

  lemma RegionIsLow(ad: nat, n: nat, blocks: nat)
    requires ad % BLOCK == 0 && ad / BLOCK + n <= blocks <= 0x8000
    ensures ad + n * BLOCK <= 0x800_0000
  {
  }

  /** A 32-bit sum wraps at most once. */
  lemma Wrap(x: nat)
    requires x < 2 * U32
    ensures x % U32 == if x < U32 then x else x - U32
  {
  }

  /** Ranges accepted for two different processes never intersect, when no check wraps. */
  lemma NoSharedBytes(m: Mem, p: int, q: int, va: nat, vb: nat, la: nat, lb: nat)
    requires Isolated(m) && p in m.grants && q in m.grants && p != q
    requires 0 < la && 0 < lb && va + la < U32 && vb + lb < U32
    requires VaToPa(m.grants[p], va, la) != 0 && VaToPa(m.grants[q], vb, lb) != 0
    ensures Disjoint(VaToPa(m.grants[p], va, la), la, VaToPa(m.grants[q], vb, lb), lb)
  {
    AcceptedIsInside(m, p, va, la);
    AcceptedIsInside(m, q, vb, lb);
    var g, h := m.grants[p], m.grants[q];
    assert Exact(m, p) && Exact(m, q);
    CountIsLeast(g.sz);
    CountIsLeast(h.sz);
    var s, t := g.ad / BLOCK, h.ad / BLOCK;
    assert m.sts[s] == p && m.sts[t] == q;
    assert !In(h, s) && !In(g, t);
    assert s + Count(g.sz) <= t || t + Count(h.sz) <= s;
  }
}
