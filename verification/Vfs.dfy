/** The file system task's handlers for opening, closing, changing directory, forking and killing,
    each an event of VnodeNames. */
module Vfs {
  import opened Basics
  import opened VnodeNames
  import V = Vnodes
  import T = VnodeTable
  import Paths

  datatype Error = EMFILE | EBADF | ENOTDIR | EINVAL | EBUSY | EACCES | FromLookup | FromOpen

  datatype Result = Done(fd: nat) | Failed(why: Error)

  class Vfs {
    const table: T.VnodeTable
    const procs: array<Proc>
    const fdCount: nat
    var root: int
    var used: seq<nat>
    ghost var pinned: seq<int>

    ghost function View(): State
      reads this, table, table.count, procs
    {
      State(table.count[..], procs[..], pinned)
    }

    ghost predicate ProcOk(p: Proc) {
      p.cdir >= NIL && |p.fds| == fdCount && forall i :: 0 <= i < fdCount ==> p.fds[i] >= NIL
    }

    /** The root is pinned, and every pin is a reference that is accounted for. */
    ghost predicate PinsOk()
      reads this, table
    {
      (root == NIL || root in table.pins) && forall v :: v in table.pins ==> Occurs(pinned, v) > 0
    }

    ghost predicate Inv()
      reads this, table, table.next, table.head, table.count, table.id, table.here, table.roots, procs
    {
      && procs.Length > 0 && table.Valid() && PinsOk()
      && (forall i :: 0 <= i < procs.Length ==> ProcOk(procs[i]))
    }

    ghost predicate Valid()
      reads this, table, table.next, table.head, table.count, table.id, table.here, table.roots, procs
    {
      Inv() && Accounted(View())
    }

    /** Start-up: no vnode in use, no process names anything, nothing is mounted. */
    constructor (vnodeCount: nat, roots: seq<nat>, procCount: nat, fdCount: nat)
      requires vnodeCount > 0 && roots != [] && procCount > 0
      ensures Valid() && root == NIL && used == [] && View() == Boot(vnodeCount, procCount, fdCount)
      ensures table.View() == V.Vacant(vnodeCount, roots)
      ensures fresh(procs) && fresh(table) && fresh(table.next) && fresh(table.head) && fresh(table.count)
      ensures fresh(table.id) && fresh(table.here)
    {
      table := new T.VnodeTable(vnodeCount, roots);
      this.fdCount := fdCount;
      root, used, pinned := NIL, [], [];
      procs := new Proc[procCount](_ => Proc(NIL, []));
      new;
      ClearProcs();
      assert View() == Boot(vnodeCount, procCount, fdCount);
      BootIsExact(vnodeCount, procCount, fdCount);
    }

    /** The loop of the start-up: no process names anything. */
    method ClearProcs()
      modifies procs
      ensures procs[..] == seq(procs.Length, i => Proc(NIL, seq(fdCount, j => NIL)))
    {
      var pid := 0;
      while pid < procs.Length
        invariant 0 <= pid <= procs.Length
        invariant forall i :: 0 <= i < pid ==> procs[i] == Proc(NIL, seq(fdCount, j => NIL))
      {
        procs[pid] := Proc(NIL, seq(fdCount, j => NIL));
        pid := pid + 1;
      }
    }

    /** A name is a vnode in use, with a reference to spare if it is also pinned. */
    lemma NameIsLive(pid: nat, x: int)
      requires Valid() && pid < procs.Length && x >= 0 && NamesOf(procs[pid], x) > 0
      ensures V.Live(table.View(), x) && (table.count[x] > 1 || x !in table.pins)
    {
      NameIsCounted(procs[..], pid, x);
      assert Total(View(), x) > 0;
    }

    lemma FdIsName(pid: nat, fd: nat)
      requires Valid() && pid < procs.Length && fd < fdCount && procs[pid].fds[fd] >= 0
      ensures ProcOk(procs[pid]) && NamesOf(procs[pid], procs[pid].fds[fd]) > 0
    {
      OccursAt(procs[pid].fds, fd);
    }

    /** _vfs_alloc_fd: the first free descriptor, or NIL. */
    method AllocFd(pid: nat) returns (fd: int)
      requires Inv() && pid < procs.Length
      ensures NIL <= fd < fdCount
      ensures fd >= 0 ==> procs[pid].fds[fd] == NIL && forall i :: 0 <= i < fd ==> procs[pid].fds[i] != NIL
      ensures fd == NIL <==> forall i :: 0 <= i < fdCount ==> procs[pid].fds[i] != NIL
    {
      assert ProcOk(procs[pid]);
      fd := 0;
      while fd < fdCount
        invariant 0 <= fd <= fdCount && forall i :: 0 <= i < fd ==> procs[pid].fds[i] != NIL
      {
        if procs[pid].fds[fd] == NIL { return; }
        fd := fd + 1;
      }
      fd := NIL;
    }

    /** The vnode a path starts at. */
    function Start(pid: nat, path: string): int
      requires pid < procs.Length
      reads this, procs
    {
      if (path != "" && path[0] == '/') || procs[pid].cdir == NIL then root else procs[pid].cdir
    }

    /** v is in use for the file the path leads to. */
    ghost predicate Leads(p: V.Pool, start: int, path: string, tree: T.Tree, v: nat)
      reads table, table.next, table.head, table.count, table.id, table.here, table.roots
    {
      && v < table.id.Length && 0 <= start < |p.id|
      && T.Resolve(tree, p, p.id[start], Paths.Comps(path)) == Some(table.id[v])
    }

    /** No way to walk the path: no start, too few free vnodes, or it leads nowhere. */
    ghost predicate NoWay(p: V.Pool, start: int, path: string, tree: T.Tree, need: nat) {
      || start == NIL || p.ls.lists == [] || |p.ls.lists[0]| < need
      || (0 <= start < |p.id| && T.Resolve(tree, p, p.id[start], Paths.Comps(path)) == None)
    }

    /** The path leads to a file outside dirs. */
    ghost predicate NoDirectory(p: V.Pool, start: int, path: string, tree: T.Tree, dirs: set<V.Node>) {
      && 0 <= start < |p.id|
      && exists n :: T.Resolve(tree, p, p.id[start], Paths.Comps(path)) == Some(n) && n !in dirs
    }

    /** The walk of a path for a process. */
    method Lookup(pid: nat, path: string, tree: T.Tree) returns (r: int)
      requires Valid() && pid < procs.Length
      modifies table, table.next, table.head, table.count, table.id, table.here
      ensures Inv() && table.pins == old(table.pins)
      ensures r == NIL ==> T.Back(old(table.View()), table.View())
      ensures r == NIL ==> NoWay(old(table.View()), old(Start(pid, path)), path, tree, 2)
      ensures r != NIL ==> r >= 0 && T.Holding(old(table.View()), table.View(), r)
      ensures r != NIL ==> Leads(old(table.View()), old(Start(pid, path)), path, tree, r)
    {
      var cdir := procs[pid].cdir;
      assert ProcOk(procs[pid]);
      if cdir >= 0 { NameIsLive(pid, cdir); }
      r := table.LookupPath(path, root, cdir, tree);
    }

    lemma PinsAreLive()
      requires Inv()
      ensures forall v :: v in table.pins ==> 0 <= v < table.count.Length && table.count[v] > 0
    {
      forall v | v in table.pins ensures 0 <= v < table.count.Length && table.count[v] > 0 {
        assert V.Live(table.View(), v);
      }
    }

    /** Give back a reference taken on top of the counts given. */
    method GiveBack(v: nat, ghost before: seq<nat>)
      requires Inv() && v < |before| && (v in table.pins ==> before[v] > 0)
      requires table.count[..] == before[v := before[v] + 1]
      modifies table, table.next, table.head, table.count
      ensures Inv() && table.pins == old(table.pins) && table.count[..] == before
    {
      assert V.VnodeOk(table.View(), v);
      table.Rele(v);
    }

    /** _vfs_open; opens is what the file's own open operation answers. */
    method Open(pid: nat, path: string, opens: bool, tree: T.Tree) returns (r: Result)
      requires Valid() && pid < procs.Length
      modifies table, table.next, table.head, table.count, table.id, table.here, procs
      ensures Valid()
      ensures r.Failed? ==> View() == old(View()) && r.why in {FromLookup, EMFILE, FromOpen}
      ensures r == Failed(FromLookup) ==> NoWay(old(table.View()), old(Start(pid, path)), path, tree, 2)
      ensures r == Failed(EMFILE) ==> forall i :: 0 <= i < fdCount ==> procs[pid].fds[i] != NIL
      ensures r == Failed(FromOpen) ==> !opens
      ensures r.Done? ==> opens && r.fd < fdCount && forall i :: 0 <= i < r.fd ==> old(procs[pid].fds[i]) != NIL
      ensures r.Done? ==> exists v: nat ::
        && Step(old(View()), VnodeNames.Open(pid, r.fd, v), View())
        && Leads(old(table.View()), old(Start(pid, path)), path, tree, v)
    {
      ghost var p := table.View();
      PinsAreLive();
      var v := Lookup(pid, path, tree);
      if v == NIL { return Failed(FromLookup); }
      var fd := AllocFd(pid);
      if fd < 0 {
        GiveBack(v, p.count);
        return Failed(EMFILE);
      }
      if !opens {
        GiveBack(v, p.count);
        return Failed(FromOpen);
      }
      Install(pid, fd, v, p);
      r := Done(fd);
    }

    /** The reference of a lookup becomes a descriptor. */
    method Install(pid: nat, fd: nat, v: nat, ghost p: V.Pool)
      requires Inv() && pid < procs.Length && fd < fdCount && procs[pid].fds[fd] == NIL
      requires V.Ok(p) && T.Holding(p, table.View(), v) && Accounted(State(p.count, procs[..], pinned))
      modifies procs
      ensures Valid() && Step(State(p.count, old(procs[..]), pinned), VnodeNames.Open(pid, fd, v), View())
    {
      ghost var s, e := State(p.count, procs[..], pinned), VnodeNames.Open(pid, fd, v);
      procs[pid] := procs[pid].(fds := procs[pid].fds[fd := v]);
      assert procs[..] == ProcsAfter(s, e);
      forall w | 0 <= w < |s.count| ensures CountAfter(s, e, View(), w) { }
      StepKeeps(s, e, View());
    }

    /** Release a descriptor's vnode and clear the descriptor. */
    method Drop(pid: nat, fd: nat)
      requires Valid() && pid < procs.Length && fd < fdCount && procs[pid].fds[fd] >= 0
      modifies table, table.next, table.head, table.count, procs
      ensures Valid() && Step(old(View()), VnodeNames.Close(pid, fd), View())
    {
      ghost var s, e := View(), VnodeNames.Close(pid, fd);
      var v := procs[pid].fds[fd];
      FdIsName(pid, fd);
      NameIsLive(pid, v);
      table.Rele(v);
      procs[pid] := procs[pid].(fds := procs[pid].fds[fd := NIL]);
      assert procs[..] == ProcsAfter(s, e);
      forall w | 0 <= w < |s.count| ensures CountAfter(s, e, View(), w) { }
      StepKeeps(s, e, View());
    }

    /** _vfs_close. */
    method Close(pid: nat, fd: int) returns (r: Result)
      requires Valid() && pid < procs.Length
      modifies table, table.next, table.head, table.count, procs
      ensures Valid()
      ensures r.Done? <==> 0 <= fd < fdCount && old(procs[pid]).fds[fd] >= 0
      ensures r.Done? ==> Step(old(View()), VnodeNames.Close(pid, fd), View())
      ensures r.Failed? ==> r.why == EBADF && View() == old(View())
    {
      assert ProcOk(procs[pid]);
      if fd < 0 || fd >= fdCount || procs[pid].fds[fd] == NIL { return Failed(EBADF); }
      Drop(pid, fd);
      r := Done(fd);
    }

    /** _vfs_chdir; dirs are the directories. */
    method Chdir(pid: nat, path: string, dirs: set<V.Node>, tree: T.Tree) returns (r: Result)
      requires Valid() && pid < procs.Length
      modifies table, table.next, table.head, table.count, table.id, table.here, procs
      ensures Valid()
      ensures r.Failed? ==> View() == old(View()) && r.why in {FromLookup, ENOTDIR}
      ensures r == Failed(FromLookup) ==> NoWay(old(table.View()), old(Start(pid, path)), path, tree, 2)
      ensures r == Failed(ENOTDIR) ==> NoDirectory(old(table.View()), old(Start(pid, path)), path, tree, dirs)
      ensures r.Done? ==> exists v: nat ::
        && Step(old(View()), VnodeNames.Chdir(pid, v), View())
        && Leads(old(table.View()), old(Start(pid, path)), path, tree, v) && table.id[v] in dirs
        && procs[pid].cdir == v && forall next :: next == "" || next[0] != '/' ==> Start(pid, next) == v
    {
      ghost var p := table.View();
      PinsAreLive();
      var v := Lookup(pid, path, tree);
      if v == NIL { return Failed(FromLookup); }
      if table.id[v] !in dirs {
        GiveBack(v, p.count);
        return Failed(ENOTDIR);
      }
      ghost var s, e := State(p.count, procs[..], pinned), VnodeNames.Chdir(pid, v);
      procs[pid] := procs[pid].(cdir := v);
      assert procs[..] == ProcsAfter(s, e);
      forall w | 0 <= w < |s.count| ensures CountAfter(s, e, View(), w) { }
      assert Step(s, e, View());
      StepKeeps(s, e, View());
      r := Done(0);
    }

    /** VN_HOLD of everything in a table of descriptors. */
    method HoldAll(fds: seq<int>)
      requires Inv() && forall i :: 0 <= i < |fds| ==> fds[i] == NIL || V.Live(table.View(), fds[i])
      modifies table.count
      ensures Inv() && forall v: nat :: v < table.count.Length ==>
        table.count[v] == old(table.count[v]) + Occurs(fds, v)
    {
      var i := 0;
      while i < |fds|
        invariant 0 <= i <= |fds| && Inv()
        invariant forall v: nat :: v < table.count.Length ==>
          table.count[v] == old(table.count[v]) + Occurs(fds[..i], v)
      {
        assert fds[..i + 1][..i] == fds[..i];
        if fds[i] != NIL { table.Hold(fds[i]); }
        i := i + 1;
      }
      assert fds[..i] == fds;
    }

    /** _vfs_fork. */
    method Fork(parent: nat, child: nat)
      requires Valid() && parent < procs.Length && child < procs.Length
      modifies table.count, procs
      ensures Valid() && Step(old(View()), VnodeNames.Fork(parent, child), View())
      ensures procs[child].cdir == old(procs[parent]).cdir && procs[child].fds == old(procs[parent]).fds
      ensures forall q :: 0 <= q < procs.Length && q != child ==> procs[q] == old(procs[q])
    {
      ghost var s, e := View(), VnodeNames.Fork(parent, child);
      var p := procs[parent];
      assert ProcOk(p);
      forall i | 0 <= i < fdCount && p.fds[i] != NIL ensures V.Live(table.View(), p.fds[i]) {
        FdIsName(parent, i);
        NameIsLive(parent, p.fds[i]);
      }
      if p.cdir >= 0 { NameIsLive(parent, p.cdir); }
      procs[child] := p;
      HoldAll(p.fds);
      if p.cdir != NIL { table.Hold(p.cdir); }
      assert procs[..] == ProcsAfter(s, e);
      forall w | 0 <= w < |s.count| ensures CountAfter(s, e, View(), w) { }
      StepKeeps(s, e, View());
    }

    /** Close the descriptor fd of a process if it is open. */
    method CloseIfOpen(pid: nat, fd: nat)
      requires Valid() && pid < procs.Length && fd < fdCount
      modifies table, table.next, table.head, table.count, procs
      ensures Valid() && table.count.Length == |old(table.count[..])|
      ensures procs[..] == WithFd(old(View()), pid, fd, NIL)
      ensures forall v: nat :: v < table.count.Length ==>
        table.count[v] == old(table.count[v]) - One(old(procs[pid]).fds[fd] == v)
    {
      assert ProcOk(procs[pid]);
      ghost var s := View();
      if procs[pid].fds[fd] != NIL {
        Drop(pid, fd);
        forall v: nat | v < |s.count| ensures table.count[v] == s.count[v] - One(s.procs[pid].fds[fd] == v) {
          assert CountAfter(s, VnodeNames.Close(pid, fd), View(), v);
        }
      } else {
        assert s.procs[pid].fds[fd := NIL] == s.procs[pid].fds;
      }
    }

    /** _vfs_kill: close every descriptor and let the current directory go. */
    method Kill(pid: nat)
      requires Valid() && pid < procs.Length
      modifies table, table.next, table.head, table.count, procs
      ensures Valid() && Step(old(View()), VnodeNames.Kill(pid), View())
    {
      ghost var s, p := View(), procs[pid];
      assert ProcOk(p);
      assert seq(0, i => NIL) + p.fds[0..] == p.fds;
      assert s.procs[pid := p] == s.procs;
      var fd := 0;
      while fd < fdCount
        invariant 0 <= fd <= fdCount && Valid() && pinned == s.pins && Closed(s, pid, fd)
      {
        CloseNext(pid, fd, s);
        fd := fd + 1;
      }
      assert p.fds[..fd] == p.fds;
      assert seq(fd, i => NIL) + p.fds[fd..] == seq(fdCount, i => NIL);
      LeaveDirectory(pid, s);
    }

    /** One round of that loop. */
    method CloseNext(pid: nat, fd: nat, ghost s: State)
      requires Valid() && pid < procs.Length && fd < fdCount && pinned == s.pins && Closed(s, pid, fd)
      requires |s.procs[pid].fds| == fdCount
      modifies table, table.next, table.head, table.count, procs
      ensures Valid() && Closed(s, pid, fd + 1)
    {
      ghost var fds := s.procs[pid].fds;
      assert fds[..fd + 1][..fd] == fds[..fd];
      assert procs[pid] == procs[..][pid];
      assert procs[pid].fds[fd] == fds[fd];
      CloseIfOpen(pid, fd);
      assert (seq(fd, i => NIL) + fds[fd..])[fd := NIL] == seq(fd + 1, i => NIL) + fds[fd + 1..];
    }

    /** The first fd descriptors of the process are closed. */
    ghost predicate Closed(s: State, pid: nat, fd: nat)
      reads this, table, table.count, procs
    {
      && pid < |s.procs| && fd <= |s.procs[pid].fds| && table.count.Length == |s.count|
      && procs[..] == s.procs[pid := s.procs[pid].(fds := seq(fd, i => NIL) + s.procs[pid].fds[fd..])]
      && forall v: nat :: v < |s.count| ==> table.count[v] == s.count[v] - Occurs(s.procs[pid].fds[..fd], v)
    }

    /** The end of _vfs_kill. */
    method LeaveDirectory(pid: nat, ghost s: State)
      requires Valid() && pid < procs.Length && pinned == s.pins && pid < |s.procs| && |s.procs[pid].fds| == fdCount
      requires Closed(s, pid, fdCount) && s.procs[pid].fds[..fdCount] == s.procs[pid].fds
      requires seq(fdCount, i => NIL) + s.procs[pid].fds[fdCount..] == seq(fdCount, i => NIL)
      modifies table, table.next, table.head, table.count, procs
      ensures Valid() && Step(s, VnodeNames.Kill(pid), View())
    {
      ghost var t, e := View(), VnodeNames.Kill(pid);
      assert ProcOk(procs[pid]);
      if procs[pid].cdir != NIL {
        NameIsLive(pid, procs[pid].cdir);
        table.Rele(procs[pid].cdir);
        procs[pid] := procs[pid].(cdir := NIL);
      }
      assert procs[..] == ProcsAfter(s, e);
      forall w | 0 <= w < |s.count| ensures CountAfter(s, e, View(), w) { }
      KillKeeps(s, t, View(), pid);
    }

    /** Leaving the directory only removes a name with its reference. */
    lemma KillKeeps(s: State, t: State, u: State, pid: nat)
      requires Accounted(t) && Step(s, VnodeNames.Kill(pid), u) && |t.count| == |s.count| && t.pins == s.pins
      requires pid < |s.procs| && t.procs == s.procs[pid := s.procs[pid].(fds := seq(|s.procs[pid].fds|, i => NIL))]
      requires forall v: nat :: v < |s.count| ==> t.count[v] == s.count[v] - Occurs(s.procs[pid].fds, v)
      ensures Accounted(u)
    {
      var p := t.procs[pid];
      assert u.procs == t.procs[pid := p.(cdir := NIL)];
      forall v: nat ensures Total(u, v) == Total(t, v) - One(p.cdir == v) {
        NamesUpdate(t.procs, pid, p.(cdir := NIL), v);
      }
      forall v | 0 <= v < |u.count| ensures Total(u, v) <= u.count[v] {
        assert CountAfter(s, VnodeNames.Kill(pid), u, v) && Total(t, v) <= t.count[v];
      }
      forall v: nat | v >= |u.count| ensures Total(u, v) == 0 { assert Total(t, v) == 0; }
    }

    /** There is neither a vnode in use for the file nor a free one. */
    static ghost predicate NoVnode(p: V.Pool, n: V.Node) {
      (p.ls.lists == [] || p.ls.lists[0] == []) && forall v: nat :: !V.IsAt(p, v, n)
    }

    /** vfs_root: the vnode of the root of file system g, with a reference. */
    method TakeRoot(g: nat) returns (top: int)
      requires Valid() && 0 < g < table.roots.Length
      modifies table, table.next, table.head, table.count, table.id, table.here
      ensures Valid() && table.pins == old(table.pins)
      ensures top == NIL <==> NoVnode(old(table.View()), V.Node(g, table.roots[g]))
      ensures top == NIL ==> View() == old(View())
      ensures top != NIL ==> T.Holding(old(table.View()), table.View(), top)
      ensures top != NIL ==> V.Live(table.View(), top) && table.id[top] == V.Node(g, table.roots[g])
    {
      ghost var s, p, n := View(), table.View(), V.Node(g, table.roots[g]);
      top := table.Get(g, table.roots[g]);
      if top != NIL && p.ls.lists[0] == [] { assert V.IsAt(p, top, n); }
      forall v | 0 <= v < |s.count| ensures Total(View(), v) <= table.count[v] { assert Total(s, v) <= s.count[v]; }
      forall v: nat | v >= |s.count| ensures Total(View(), v) == 0 { assert Total(s, v) == 0; }
    }

    /** _vfs_mount of file system g, which has been started. */
    method Mount(pid: nat, path: string, g: nat, dirs: set<V.Node>, tree: T.Tree) returns (r: Result)
      requires Valid() && pid < procs.Length && 0 < g < table.roots.Length
      modifies this`root, this`used, this`pinned, table, table.next, table.head, table.count, table.id, table.here
      ensures Valid()
      ensures r.Failed? ==> View() == old(View()) && root == old(root) && used == old(used)
      ensures r.Failed? ==> r.why in {EINVAL, EBUSY, EACCES, ENOTDIR}
      ensures r == Failed(EINVAL) <==> NoVnode(old(table.View()), V.Node(g, table.roots[g]))
      ensures r == Failed(EBUSY) <==>
        path == "/" && old(used) != [] && !NoVnode(old(table.View()), V.Node(g, table.roots[g]))
      ensures r == Failed(EACCES) ==> path != "/" && NoWay(old(table.View()), old(Start(pid, path)), path, tree, 3)
      ensures r == Failed(ENOTDIR) ==>
        path != "/" && NoDirectory(old(table.View()), old(Start(pid, path)), path, tree, dirs)
      ensures r.Done? ==> used == [g] + old(used)
      ensures r.Done? && path == "/" ==>
        root >= 0 && Step(old(View()), VnodeNames.MountRoot(root), View()) && IsTop(root, g)
      ensures r.Done? && path != "/" ==> root == old(root) && exists top: nat, v: nat ::
        && Step(old(View()), VnodeNames.Mount(top, v), View())
        && Covers(top, v, g) && Leads(old(table.View()), old(Start(pid, path)), path, tree, v) && table.id[v] in dirs
        && table.cover == old(table.cover)[table.id[v] := g]
      ensures r.Done? ==> T.Same(old(table.View()), table.View())
      ensures r.Done? ==> |table.lists| == |old(table.lists)| > 0 && |table.lists[0]| + 2 >= |old(table.lists[0])|
    {
      PinsAreLive();
      ghost var p := table.View();
      var top := TakeRoot(g);
      if top == NIL { return Failed(EINVAL); }
      if path == "/" {
        r := MountTop(g, top, p);
      } else {
        r := MountAt(pid, path, g, dirs, tree, top, p);
      }
    }

    /** The end of _vfs_mount on "/". */
    method MountTop(g: nat, top: nat, ghost p: V.Pool) returns (r: Result)
      requires Valid() && 0 < g < table.roots.Length && V.Ok(p) && p.pins == table.pins
      requires T.Holding(p, table.View(), top) && IsTop(top, g)
      requires Accounted(State(p.count, procs[..], pinned))
      modifies this`root, this`used, this`pinned, table, table.next, table.head, table.count
      ensures Valid() && IsTop(top, g)
      ensures r == if old(used) == [] then Done(0) else Failed(EBUSY)
      ensures r.Failed? ==> View() == State(p.count, procs[..], old(pinned)) && root == old(root) && used == old(used)
      ensures r.Done? ==> root == top && used == [g] + old(used) && T.Same(p, table.View())
      ensures r.Done? ==> table.lists == old(table.lists)
      ensures r.Done? ==> Step(State(p.count, procs[..], old(pinned)), VnodeNames.MountRoot(top), View())
    {
      if used != [] {
        assert top in table.pins ==> V.Live(p, top);
        GiveBack(top, p.count);
        assert View() == State(p.count, procs[..], pinned);
        return Failed(EBUSY);
      }
      PinTop(top, g, p);
      r := Done(0);
    }

    /** The reference of a root mount becomes a pin. */
    method PinTop(top: nat, g: nat, ghost p: V.Pool)
      requires Inv() && Accounted(State(p.count, procs[..], pinned)) && T.Holding(p, table.View(), top)
      modifies this`root, this`used, this`pinned, table`pins
      ensures Valid() && root == top && used == [g] + old(used)
      ensures Step(State(p.count, procs[..], old(pinned)), VnodeNames.MountRoot(top), View())
    {
      ghost var s := State(p.count, procs[..], pinned);
      table.Pin(top);
      pinned := pinned + [top];
      root, used := top, [g] + used;
      TopStep(s, View(), top);
      StepKeeps(s, VnodeNames.MountRoot(top), View());
      PinAdded(s.pins, top);
    }

    lemma TopStep(s: State, t: State, top: nat)
      requires top < |s.count| && t.procs == s.procs && t.pins == s.pins + [top]
      requires t.count == s.count[top := s.count[top] + 1]
      ensures Step(s, VnodeNames.MountRoot(top), t)
    {
      forall w | 0 <= w < |s.count| ensures CountAfter(s, VnodeNames.MountRoot(top), t, w) { }
    }

    lemma PinAdded(pins: seq<int>, v: nat)
      ensures Occurs(pins + [v], v) > 0 && forall x: nat :: Occurs(pins + [v], x) >= Occurs(pins, x)
    {
      assert (pins + [v])[..|pins|] == pins;
    }

    /** The vnode is that of the root of file system g. */
    ghost predicate IsTop(top: int, g: nat)
      reads table, table.id, table.roots
    {
      0 <= top < table.id.Length && g < table.roots.Length && table.id[top] == V.Node(g, table.roots[g])
    }

    /** Where a walk starts is in use, whatever else is held for the moment. */
    lemma StartIsLive(pid: nat, path: string, p: V.Pool)
      requires Inv() && pid < procs.Length && V.Ok(p) && p.pins == table.pins
      requires Accounted(State(p.count, procs[..], pinned))
      ensures Start(pid, path) == NIL || V.Live(p, Start(pid, path))
    {
      var cdir := procs[pid].cdir;
      assert ProcOk(procs[pid]);
      if cdir >= 0 {
        NameIsCounted(procs[..], pid, cdir);
        assert Total(State(p.count, procs[..], pinned), cdir) > 0;
      }
      assert root != NIL ==> V.Live(p, root);
    }

    /** Walks do not see one more reference, except that it may have cost a free vnode. */
    lemma WaySame(p: V.Pool, q: V.Pool, top: nat, start: int, path: string, tree: T.Tree)
      requires T.Holding(p, q, top) && (start == NIL || V.Live(p, start))
      ensures NoWay(q, start, path, tree, 2) ==> NoWay(p, start, path, tree, 3)
      ensures start != NIL ==> q.id[start] == p.id[start]
      ensures start != NIL ==>
        T.Resolve(tree, q, q.id[start], Paths.Comps(path)) == T.Resolve(tree, p, p.id[start], Paths.Comps(path))
    {
      if start != NIL { T.ResolveSame(tree, p, q, p.id[start], Paths.Comps(path)); }
    }

    /** The end of _vfs_mount elsewhere: find the directory, and undo everything if that fails. */
    method MountAt(pid: nat, path: string, g: nat, dirs: set<V.Node>, tree: T.Tree, top: nat, ghost p: V.Pool)
        returns (r: Result)
      requires Valid() && pid < procs.Length && 0 < g < table.roots.Length && V.Ok(p) && p.pins == table.pins
      requires T.Holding(p, table.View(), top) && V.Live(table.View(), top) && IsTop(top, g)
      requires Accounted(State(p.count, procs[..], pinned))
      modifies this`used, this`pinned, table, table.next, table.head, table.count, table.id, table.here
      ensures Valid()
      ensures r.Failed? ==> View() == State(p.count, procs[..], old(pinned)) && used == old(used)
      ensures r.Failed? ==> r.why in {EACCES, ENOTDIR}
      ensures r == Failed(EACCES) ==> NoWay(p, Start(pid, path), path, tree, 3)
      ensures r == Failed(ENOTDIR) ==> NoDirectory(p, Start(pid, path), path, tree, dirs)
      ensures r.Done? ==> used == [g] + old(used)
      ensures r.Done? ==> exists v: nat ::
        && Step(State(p.count, procs[..], old(pinned)), VnodeNames.Mount(top, v), View())
        && Covers(top, v, g) && Leads(p, Start(pid, path), path, tree, v) && table.id[v] in dirs
        && table.cover == p.cover[table.id[v] := g]
      ensures r.Done? ==> T.Same(p, table.View())
      ensures r.Done? ==> |table.lists| == |p.ls.lists| > 0 && |table.lists[0]| + 2 >= |p.ls.lists[0]|
    {
      ghost var q := table.View();
      var v, why := FindDirectory(pid, path, dirs, tree, top, p);
      if v == NIL { return Failed(why); }
      T.SameTwice(p, q, table.View(), top, v);
      PinMount(v, top, g, p, q);
      r := Done(0);
    }

    /** The walk of a path while the root of the file system to be mounted is held. */
    method LookupHolding(pid: nat, path: string, tree: T.Tree, top: nat, ghost p: V.Pool) returns (v: int)
      requires Valid() && pid < procs.Length && V.Ok(p) && p.pins == table.pins
      requires T.Holding(p, table.View(), top) && Accounted(State(p.count, procs[..], pinned))
      modifies table, table.next, table.head, table.count, table.id, table.here
      ensures Inv() && table.pins == old(table.pins)
      ensures v == NIL ==> T.Back(old(table.View()), table.View()) && NoWay(p, Start(pid, path), path, tree, 3)
      ensures v != NIL ==> v >= 0 && T.Holding(old(table.View()), table.View(), v)
      ensures v != NIL ==> Leads(p, Start(pid, path), path, tree, v)
    {
      StartIsLive(pid, path, p);
      WaySame(p, table.View(), top, Start(pid, path), path, tree);
      v := Lookup(pid, path, tree);
    }

    /** The directory to mount on; without it the reference to the root is given back too. */
    method FindDirectory(pid: nat, path: string, dirs: set<V.Node>, tree: T.Tree, top: nat, ghost p: V.Pool)
        returns (v: int, why: Error)
      requires Valid() && pid < procs.Length && V.Ok(p) && p.pins == table.pins
      requires T.Holding(p, table.View(), top) && Accounted(State(p.count, procs[..], pinned))
      modifies table, table.next, table.head, table.count, table.id, table.here
      ensures Inv() && table.pins == old(table.pins)
      ensures v == NIL ==> table.count[..] == p.count && why in {EACCES, ENOTDIR}
      ensures v == NIL && why == EACCES ==> NoWay(p, Start(pid, path), path, tree, 3)
      ensures v == NIL && why == ENOTDIR ==> NoDirectory(p, Start(pid, path), path, tree, dirs)
      ensures v != NIL ==> v >= 0 && T.Holding(old(table.View()), table.View(), v)
      ensures v != NIL ==> Leads(p, Start(pid, path), path, tree, v) && table.id[v] in dirs
    {
      assert top in table.pins ==> V.Live(p, top);
      why := EACCES;
      v := LookupHolding(pid, path, tree, top, p);
      if v == NIL {
        GiveBack(top, p.count);
      } else if table.id[v] !in dirs {
        assert v in table.pins ==> V.Live(p, v);
        why := ENOTDIR;
        GiveBackBoth(top, v, p.count);
        v := NIL;
      }
    }

    /** Both references of a failed mount. */
    method GiveBackBoth(top: nat, v: nat, ghost before: seq<nat>)
      requires Inv() && top < |before| && v < |before|
      requires (top in table.pins ==> before[top] > 0) && (v in table.pins ==> before[v] > 0)
      requires table.count[..] == before[top := before[top] + 1][v := before[top := before[top] + 1][v] + 1]
      modifies table, table.next, table.head, table.count
      ensures Inv() && table.pins == old(table.pins) && table.count[..] == before
    {
      ghost var mid := before[v := before[v] + 1];
      assert table.count[..] == mid[top := mid[top] + 1];
      GiveBack(top, mid);
      GiveBack(v, before);
    }

    /** The references of a mount that succeeded become pins. */
    method PinMount(v: nat, top: nat, g: nat, ghost p: V.Pool, ghost q: V.Pool)
      requires Inv() && 0 < g < table.roots.Length && Accounted(State(p.count, procs[..], pinned))
      requires top < |p.count| && q.count == p.count[top := p.count[top] + 1]
      requires T.Holding(q, table.View(), v) && V.Live(q, top) && q.id[top] == V.Node(g, table.roots[g])
      modifies this`used, this`pinned, table`pins, table`cover, table.here
      ensures Valid() && Covers(top, v, g) && used == [g] + old(used)
      ensures table.cover == old(table.cover)[table.id[v] := g] && table.lists == old(table.lists)
      ensures Step(State(p.count, procs[..], old(pinned)), VnodeNames.Mount(top, v), View())
    {
      ghost var s := State(p.count, procs[..], pinned);
      table.Cover(v, top, g);
      pinned := pinned + [top, v];
      used := [g] + used;
      MountStep(s, View(), top, v);
      StepKeeps(s, VnodeNames.Mount(top, v), View());
      PinsGrow(s.pins, top, v);
    }

    lemma MountStep(s: State, t: State, root: nat, v: nat)
      requires root < |s.count| && v < |s.count| && t.procs == s.procs && t.pins == s.pins + [root, v]
      requires t.count == s.count[root := s.count[root] + 1][v := s.count[root := s.count[root] + 1][v] + 1]
      ensures Step(s, VnodeNames.Mount(root, v), t)
    {
      forall w | 0 <= w < |s.count| ensures CountAfter(s, VnodeNames.Mount(root, v), t, w) { }
    }

    lemma PinsGrow(pins: seq<int>, root: nat, v: nat)
      ensures Occurs(pins + [root, v], root) > 0 && Occurs(pins + [root, v], v) > 0
      ensures forall x: nat :: Occurs(pins + [root, v], x) >= Occurs(pins, x)
    {
      forall x: nat ensures Occurs(pins + [root, v], x) == Occurs(pins, x) + One(root == x) + One(v == x) {
        OccursTwo(pins, root, v, x);
      }
    }

    /** v is covered by file system g, whose root is the vnode top. */
    ghost predicate Covers(top: nat, v: nat, g: nat)
      reads table, table.here, table.id, table.roots
    {
      && v < table.here.Length && table.here[v] == g && IsTop(top, g)
    }

    /** _vfs_sysdir: the system task takes a process's current directory, or lets its own go. */
    method Sysdir(pid: nat)
      requires Valid() && pid < procs.Length
      modifies table, table.next, table.head, table.count, procs
      ensures Valid() && Step(old(View()), VnodeNames.Sysdir(pid), View())
    {
      if pid != 0 {
        TakeDirectory(pid);
      } else {
        LeaveOwnDirectory();
      }
    }

    method TakeDirectory(pid: nat)
      requires Valid() && 0 < pid < procs.Length
      modifies table.count, procs
      ensures Valid() && Step(old(View()), VnodeNames.Sysdir(pid), View())
    {
      ghost var s, e := View(), VnodeNames.Sysdir(pid);
      assert ProcOk(procs[pid]) && ProcOk(procs[0]);
      if procs[pid].cdir >= 0 { NameIsLive(pid, procs[pid].cdir); }
      procs[0] := procs[0].(cdir := procs[pid].cdir);
      if procs[0].cdir != NIL { table.Hold(procs[0].cdir); }
      assert procs[..] == ProcsAfter(s, e);
      forall w | 0 <= w < |s.count| ensures CountAfter(s, e, View(), w) { }
      StepKeeps(s, e, View());
    }

    method LeaveOwnDirectory()
      requires Valid()
      modifies table, table.next, table.head, table.count, procs
      ensures Valid() && Step(old(View()), VnodeNames.Sysdir(0), View())
    {
      ghost var s, e := View(), VnodeNames.Sysdir(0);
      assert ProcOk(procs[0]);
      if procs[0].cdir != NIL {
        NameIsLive(0, procs[0].cdir);
        table.Rele(procs[0].cdir);
        procs[0] := procs[0].(cdir := NIL);
      }
      assert procs[..] == ProcsAfter(s, e);
      forall w | 0 <= w < |s.count| ensures CountAfter(s, e, View(), w) { }
      StepKeeps(s, e, View());
    }
  }
  /** The first mount after start-up succeeds, and leaves every count exact. */
  method StartUp(vnodeCount: nat, roots: seq<nat>, procCount: nat, fdCount: nat, g: nat) returns (vfs: Vfs)
    requires vnodeCount > 0 && procCount > 0 && 0 < g < |roots|
    ensures vfs.Valid() && vfs.IsTop(vfs.root, g) && vfs.used == [g]
    ensures Step(Boot(vnodeCount, procCount, fdCount), MountRoot(vfs.root), vfs.View())
    ensures forall v :: 0 <= v < vnodeCount ==> vfs.View().count[v] == Total(vfs.View(), v)
  {
    vfs := new Vfs(vnodeCount, roots, procCount, fdCount);
    assert |vfs.table.View().ls.lists[0]| == vnodeCount;
    var r := vfs.Mount(0, "/", g, {}, map[]);
    ghost var s := Boot(vnodeCount, procCount, fdCount);
    BootIsExact(vnodeCount, procCount, fdCount);
    forall v | 0 <= v < vnodeCount ensures vfs.View().count[v] == Total(vfs.View(), v) {
      SurplusIsDropped(s, MountRoot(vfs.root), vfs.View(), v);
    }
  }
}
