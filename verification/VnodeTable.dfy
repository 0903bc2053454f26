/** The kernel's vnode table: intrusive lists, counts, and the walk of a path name. */
module VnodeTable {
  import opened Basics
  import opened VnodeLists
  import opened Vnodes
  import Paths

  /** What the file systems answer: the number of the file a directory calls by a name. */
  type Tree = map<(Node, string), nat>

  const MAX_NAME: nat := 15

  /** A directory, or the root of what is mounted on it. */
  function Cross(p: Pool, n: Node): Node {
    if n in p.cover && p.cover[n] < |p.roots| then Node(p.cover[n], p.roots[p.cover[n]]) else n
  }

  /** The file that the names lead to from n. */
  function Resolve(tree: Tree, p: Pool, n: Node, names: seq<string>): Option<Node>
    decreases |names|
  {
    var m := Cross(p, n);
    if names == [] then Some(m)
    else if names[0] == "." then Resolve(tree, p, m, names[1..])
    else if |names[0]| <= MAX_NAME && (m, names[0]) in tree
    then Resolve(tree, p, Node(m.fs, tree[(m, names[0])]), names[1..])
    else None
  }

  class VnodeTable {
    const next: array<int>
    const count: array<nat>
    const id: array<Node>
    const here: array<nat>
    const head: array<int>
    const roots: array<nat>
    ghost var lists: seq<seq<nat>>
    ghost var place: seq<int>
    ghost var pins: set<nat>
    ghost var cover: map<Node, nat>

    ghost function Ls(): Lists
      reads this, next, head
    {
      Lists(next[..], head[..], lists, place)
    }

    ghost function View(): Pool
      reads this, next, head, count, id, here, roots
    {
      Pool(Ls(), count[..], id[..], here[..], roots[..], pins, cover)
    }

    ghost predicate Separate()
      reads this
    {
      next != head && count != here && count != roots && here != roots
    }

    ghost predicate Valid()
      reads this, next, head, count, id, here, roots
    {
      Separate() && Ok(View())
    }

    /** Start-up: every vnode cleared and chained into the free list, no file system in use. The
        roots of the file systems are those that the volumes will turn out to have. */
    constructor (vnodeCount: nat, roots: seq<nat>)
      requires vnodeCount > 0 && roots != []
      ensures Valid() && View() == Vacant(vnodeCount, roots)
      ensures fresh(next) && fresh(head) && fresh(count) && fresh(id) && fresh(here) && fresh(this.roots)
    {
      next := new int[vnodeCount](_ => NIL);
      count := new nat[vnodeCount](_ => 0);
      id := new Node[vnodeCount](_ => Node(0, 0));
      here := new nat[vnodeCount](_ => 0);
      head := new int[|roots|](_ => NIL);
      this.roots := new nat[|roots|](f requires 0 <= f < |roots| => roots[f]);
      lists := VacantLists(vnodeCount, |roots|).lists;
      place := VacantLists(vnodeCount, |roots|).place;
      pins, cover := {}, map[];
      new;
      ChainFree();
      assert head[..] == VacantLists(vnodeCount, |roots|).head;
      assert this.roots[..] == roots;
      VacantIsOk(vnodeCount, roots);
      assert View() == Vacant(vnodeCount, roots);
    }

    /** The loop of the start-up: each vnode points to the next one. */
    method ChainFree()
      requires next.Length > 0 && head.Length > 0 && next != head
      modifies next, head
      ensures next[..] == Chain(next.Length) && head[..] == old(head[..])[0 := 0]
    {
      var v := 0;
      while v < next.Length - 1
        invariant 0 <= v < next.Length && forall w :: 0 <= w < v ==> next[w] == w + 1
        modifies next
      {
        next[v] := v + 1;
        v := v + 1;
      }
      next[v] := NIL;
      head[0] := 0;
    }

    /** A vnode held for good, as the root of the whole tree is. */
    ghost method Pin(v: nat)
      requires Valid() && Live(View(), v)
      modifies `pins
      ensures Valid() && View() == Pinned(old(View()), v)
    {
      PinnedKeeps(View(), v);
      pins := pins + {v};
    }

    /** vfs_vnode_alloc: the first free vnode, taken off the free list. */
    method Alloc() returns (v: int)
      requires Separate() && Shape(Ls()) && |lists| > 0
      modifies `lists, `place, next, head
      ensures old(lists[0]) == [] ==> v == NIL && Ls() == old(Ls())
      ensures old(lists[0]) != [] ==> v == old(lists[0][0]) && ListOk(old(Ls()), 0)
      ensures old(lists[0]) != [] ==> var s := TakenOff(old(Ls()), 0, 0); Ls() == s.(next := s.next[v := NIL])
    {
      assert ListOk(Ls(), 0);
      v := head[0];
      if v != NIL {
        assert LinkAt(Ls().next, lists[0], 0);
        head[0] := next[v];
        next[v] := NIL;
        place := place[v := NIL];
        lists := lists[0 := lists[0][..0] + lists[0][1..]];
      }
    }

    /** A vnode to the front of a list. */
    method Push(f: nat, v: nat)
      requires Separate() && Shape(Ls()) && f < |lists| && v < |place| && place[v] == NIL
      modifies `lists, `place, next, head
      ensures Ls() == Pushed(old(Ls()), f, v)
    {
      next[v] := head[f];
      head[f] := v;
      lists := lists[f := [v] + lists[f]];
      place := place[v := f];
    }

    /** _find_vnode: the vnode in use for file rn of file system f. */
    method Find(f: nat, rn: nat) returns (v: int)
      requires Valid() && 0 < f < |lists|
      ensures v == NIL ==> forall w: nat :: !IsAt(View(), w, Node(f, rn))
      ensures v != NIL ==> v >= 0 && IsAt(View(), v, Node(f, rn))
    {
      ghost var l, p := lists[f], View();
      assert ListOk(Ls(), f);
      v := head[f];
      ghost var i := 0;
      while v != NIL
        invariant 0 <= i <= |l| && v == (if i < |l| then l[i] else NIL)
        invariant forall j :: 0 <= j < i ==> !IsAt(p, l[j], Node(f, rn))
        decreases |l| - i
      {
        assert LinkAt(Ls().next, l, i) && place[v] == f && VnodeOk(p, v);
        if id[v].rnode == rn { return; }
        v := next[v];
        i := i + 1;
      }
      forall w: nat | w < |p.count| && p.count[w] > 0 && p.id[w].fs == f ensures w in l {
        assert VnodeOk(p, w);
      }
      forall w: nat ensures !IsAt(p, w, Node(f, rn)) {
        assert w in l ==> exists j :: 0 <= j < |l| && l[j] == w;
      }
    }

    /** VN_HOLD. */
    method Hold(v: nat)
      requires Valid() && Live(View(), v)
      modifies count
      ensures Valid() && View() == Held(old(View()), v)
    {
      HeldKeeps(View(), v);
      count[v] := count[v] + 1;
    }

    /** The inactive operation of the file systems: unlink the vnode and free it. */
    method Inactive(v: nat)
      requires Separate() && Shape(Ls()) && v < |place| && id.Length == |place|
      requires 0 < place[v] == id[v].fs
      modifies `lists, `place, next, head
      ensures old(place[v]) < |old(lists)| && v in old(lists[place[v]])
      ensures Ls() == Freed(old(Ls()), old(place[v]), v)
    {
      var f := id[v].fs;
      ghost var s, l := Ls(), lists[f];
      assert ListOk(s, f);
      ghost var k := IndexIn(l, v);
      TakenOffKeeps(s, f, k);
      assert LinkAt(s.next, l, k);
      ghost var t := TakenOff(s, f, k);
      if head[f] == v {
        assert k == 0;
        head[f] := next[v];
        lists, place := t.lists, t.place;
        assert Ls() == t;
        Push(0, v);
      } else {
        var u := Before(f, v);
        next[u] := next[v];
        lists, place := t.lists, t.place;
        assert Ls() == t;
        LooseNext(t, v, NIL);
        next[v] := NIL;
        Push(0, v);
        assert next[..] == Pushed(t, 0, v).next;
      }
    }

    /** The node before v on list f. */
    method Before(f: nat, v: nat) returns (u: int)
      requires Shape(Ls()) && f < |lists| && v in lists[f] && head[f] != v
      ensures var k := IndexIn(lists[f], v); k > 0 && u == lists[f][k - 1] && 0 <= u < next.Length
    {
      ghost var l, k := lists[f], IndexIn(lists[f], v);
      assert ListOk(Ls(), f);
      u := head[f];
      ghost var i := 0;
      while next[u] != v
        invariant 0 <= i < k && u == l[i] && 0 <= u < next.Length
        decreases k - i
      {
        assert LinkAt(Ls().next, l, i);
        u := next[u];
        i := i + 1;
        assert LinkAt(Ls().next, l, i);
      }
      assert LinkAt(Ls().next, l, i);
    }

    /** VN_RELE. */
    method Rele(v: nat)
      requires Valid() && Live(View(), v) && (count[v] > 1 || v !in pins)
      modifies `lists, `place, next, head, count
      ensures Valid() && View() == Released(old(View()), v)
      ensures |lists[0]| == |old(lists[0])| + if old(count[v]) > 1 then 0 else 1
    {
      ReleasedKeeps(View(), v);
      assert VnodeOk(View(), v);
      count[v] := count[v] - 1;
      if count[v] == 0 {
        Inactive(v);
      }
    }

    /** The vnode of file rn of file system f with one more reference, found or made. */
    method Get(f: nat, rn: nat) returns (v: int)
      requires Valid() && 0 < f < |lists|
      modifies `lists, `place, next, head, count, id, here
      ensures Valid() && (v == NIL || v >= 0)
      ensures v == NIL ==> View() == old(View()) && lists[0] == []
      ensures v == NIL ==> forall w: nat :: !IsAt(old(View()), w, Node(f, rn))
      ensures v != NIL ==> IsAt(View(), v, Node(f, rn)) && v < |old(View()).count| && Took(old(View()), View(), v)
    {
      ghost var p, n := View(), Node(f, rn);
      v := Find(f, rn);
      if v != NIL {
        Hold(v);
        return;
      }
      v := Allocate(f, rn);
      if v != NIL { MadeTakes(p, n); }
    }

    /** _allocate_vnode and the first hold, for a file that has no vnode. */
    method Allocate(f: nat, rn: nat) returns (v: int)
      requires Valid() && 0 < f < |lists|
      requires forall w: nat :: !IsAt(View(), w, Node(f, rn))
      modifies `lists, `place, next, head, count, id, here
      ensures old(lists[0]) == [] ==> v == NIL && View() == old(View())
      ensures old(lists[0]) != [] ==> v == old(lists[0][0]) && View() == Made(old(View()), Node(f, rn))
    {
      ghost var p, n := View(), Node(f, rn);
      assert ListOk(p.ls, 0);
      if lists[0] != [] { Detached(p, p.ls.lists[0][0]); }
      v := Alloc();
      if v != NIL {
        Occupy(v, f, rn);
        assert here[..] == p.here;
      }
    }

    /** The fields of a vnode just allocated, and its list. */
    method Occupy(v: nat, f: nat, rn: nat)
      requires Separate() && Shape(Ls()) && f < |lists| && v < |place| && place[v] == NIL
      requires count.Length == id.Length == here.Length == |place|
      modifies `lists, `place, next, head, count, id, here
      ensures Ls() == Pushed(old(Ls()), f, v)
      ensures count[..] == old(count[..])[v := 1] && id[..] == old(id[..])[v := Node(f, rn)]
      ensures here[..] == old(here[..])[v := 0]
    {
      count[v] := 0;
      id[v] := Node(f, rn);
      Push(f, v);
      count[v] := count[v] + 1;
      here[v] := 0;
    }

    /** The vnode of file rn of file system f, as vfs_root and the lookup of a name get it. */
    method Lookup(at: nat, name: string, tree: Tree) returns (v: int)
      requires Valid() && Live(View(), at)
      modifies `lists, `place, next, head, count, id, here
      ensures Valid() && (v == NIL || v >= 0)
      ensures v == NIL ==> View() == old(View())
      ensures v == NIL ==> lists[0] == [] || |name| > MAX_NAME || (old(id[at]), name) !in tree
      ensures v != NIL ==> |name| <= MAX_NAME && (old(id[at]), name) in tree
      ensures v != NIL ==> IsAt(View(), v, Node(old(id[at]).fs, tree[(old(id[at]), name)]))
      ensures v != NIL ==> v < |old(View()).count| && Took(old(View()), View(), v)
    {
      assert VnodeOk(View(), at);
      if |name| > MAX_NAME || (id[at], name) !in tree { return NIL; }
      v := Get(id[at].fs, tree[(id[at], name)]);
    }

    /** Where a directory is mounted on, go to the root of what is mounted, and let the directory go. */
    method CrossOver(cur: nat, ghost p0: Pool) returns (r: nat)
      requires Valid() && Ok(p0) && Holding(p0, View(), cur)
      modifies `lists, `place, next, head, count, id, here
      ensures Valid() && Holding(p0, View(), r) && id[r] == Cross(p0, old(id[cur]))
    {
      ghost var p := View();
      assert VnodeOk(p, cur);
      r := cur;
      var mounted := here[cur];
      if mounted != 0 {
        assert MountOk(p, p.id[cur]);
        RootIsInUse(p, p.id[cur]);
        var v := Get(mounted, roots[mounted]);
        r := Swap(cur, v, p0, p);
      }
    }

    /** Let cur go, after v has been taken. */
    method Swap(cur: nat, v: int, ghost p0: Pool, ghost p: Pool) returns (r: nat)
      requires Valid() && Ok(p0) && Ok(p) && Holding(p0, p, cur)
      requires 0 <= v < |p.count| && Took(p, View(), v)
      modifies `lists, `place, next, head, count
      ensures Valid() && r == v && Holding(p0, View(), r) && id[..] == old(id[..])
    {
      assert cur in pins ==> Live(p0, cur);
      assert VnodeOk(View(), cur);
      Rele(cur);
      r := v;
    }

    /** One name of a path, from a directory on which nothing is mounted. */
    method Enter(cur: nat, name: string, tree: Tree, ghost p0: Pool) returns (r: int)
      requires Valid() && Ok(p0) && Holding(p0, View(), cur)
      modifies `lists, `place, next, head, count, id, here
      ensures Valid()
      ensures r == NIL ==> Back(p0, View()) && (|p0.ls.lists[0]| < 2 || Entered(tree, old(id[cur]), name) == None)
      ensures r != NIL ==> r >= 0 && Holding(p0, View(), r) && Entered(tree, old(id[cur]), name) == Some(id[r])
    {
      ghost var p := View();
      r := Lookup(cur, name, tree);
      if r == NIL {
        assert cur in pins ==> Live(p0, cur);
        assert VnodeOk(p, cur);
        Rele(cur);
      } else {
        r := Swap(cur, r, p0, p);
      }
    }

    /** One name: cross a mount point, then enter the name unless it is ".". */
    method Visit(cur: nat, name: string, tree: Tree, ghost p0: Pool) returns (r: int)
      requires Valid() && Ok(p0) && Holding(p0, View(), cur) && name != ""
      modifies `lists, `place, next, head, count, id, here
      ensures Valid()
      ensures r == NIL ==> Back(p0, View()) && (|p0.ls.lists[0]| < 2 || Moved(tree, p0, old(id[cur]), name) == None)
      ensures r != NIL ==> r >= 0 && Holding(p0, View(), r) && Moved(tree, p0, old(id[cur]), name) == Some(id[r])
    {
      assert name == "." <==> |name| == 1 && name[0] == '.';
      r := CrossOver(cur, p0);
      if |name| > 1 || name[0] != '.' {
        r := Enter(r, name, tree, p0);
      }
    }

    /** Where the rest of the path leads from n. */
    ghost function Goal(tree: Tree, p0: Pool, n: Node, rest: string): Option<Node> {
      Resolve(tree, p0, n, Paths.Comps(rest))
    }

    /** One round of the walk. */
    method Round(path: string, i: nat, cur: nat, tree: Tree, ghost p0: Pool) returns (j: nat, r: int)
      requires i < |path| && path[i] != '/'
      requires Valid() && Ok(p0) && Holding(p0, View(), cur)
      modifies `lists, `place, next, head, count, id, here
      ensures Valid() && i < j <= |path| && (j < |path| ==> path[j] != '/')
      ensures r == NIL ==> Back(p0, View()) && (|p0.ls.lists[0]| < 2 || Goal(tree, p0, old(id[cur]), path[i..]) == None)
      ensures r != NIL ==> r >= 0 && Holding(p0, View(), r)
      ensures r != NIL ==> Goal(tree, p0, id[r], path[j..]) == Goal(tree, p0, old(id[cur]), path[i..])
    {
      var n;
      n, j := Paths.NextName(path, i);
      ResolveStep(tree, p0, id[cur], path[i..i + n], Paths.Comps(path[j..]));
      r := Visit(cur, path[i..i + n], tree, p0);
    }

    /** The loop over the names, and the mount point at the end. */
    method Walk(path: string, i0: nat, start: nat, tree: Tree, ghost p0: Pool) returns (r: int)
      requires i0 <= |path| && (i0 < |path| ==> path[i0] != '/')
      requires Valid() && Ok(p0) && Holding(p0, View(), start)
      modifies `lists, `place, next, head, count, id, here
      ensures Valid()
      ensures r == NIL ==>
        Back(p0, View()) && (|p0.ls.lists[0]| < 2 || Goal(tree, p0, old(id[start]), path[i0..]) == None)
      ensures r != NIL ==> r >= 0 && Holding(p0, View(), r) && Goal(tree, p0, old(id[start]), path[i0..]) == Some(id[r])
    {
      var i, cur := i0, start;
      while i < |path|
        invariant i <= |path| && (i < |path| ==> path[i] != '/')
        invariant Valid() && Holding(p0, View(), cur)
        invariant Goal(tree, p0, id[cur], path[i..]) == Goal(tree, p0, old(id[start]), path[i0..])
        decreases |path| - i
      {
        i, r := Round(path, i, cur, tree, p0);
        if r == NIL { return; }
        cur := r;
      }
      assert path[i..] == "";
      r := CrossOver(cur, p0);
    }

    /** _lookuppn: the vnode of a path, with one reference for the caller. */
    method LookupPath(path: string, root: int, cdir: int, tree: Tree) returns (r: int)
      requires Valid() && (root == NIL || Live(View(), root)) && (cdir == NIL || Live(View(), cdir))
      modifies `lists, `place, next, head, count, id, here
      ensures Valid()
      ensures
        var p := old(View());
        var start := if (path != "" && path[0] == '/') || cdir == NIL then root else cdir;
        if r == NIL
        then Back(p, View()) && (start == NIL || |p.ls.lists[0]| < 2
             || Resolve(tree, p, p.id[start], Paths.Comps(path)) == None)
        else r >= 0 && start != NIL && Holding(p, View(), r)
             && Resolve(tree, p, p.id[start], Paths.Comps(path)) == Some(View().id[r])
    {
      ghost var p0 := View();
      var i := 0;
      assert path[0..] == path;
      var start := cdir;
      if path != "" && path[0] == '/' {
        i := Paths.TrimSlash(path, 0);
        start := root;
      } else if cdir == NIL {
        start := root;
      }
      if start == NIL { return NIL; }
      assert VnodeOk(p0, start);
      Hold(start);
      r := Walk(path, i, start, tree, p0);
    }

    /** The end of a mount: the directory's vnode learns what covers it. */
    method Cover(dir: nat, root: nat, g: nat)
      requires Valid() && Live(View(), dir) && Live(View(), root)
      requires 0 < g < roots.Length && id[root] == Node(g, roots[g])
      modifies here, `pins, `cover
      ensures Valid() && View() == Mounted(old(View()), dir, root, g)
    {
      MountedKeeps(View(), dir, root, g);
      here[dir] := g;
      pins := pins + {dir, root};
      cover := cover[id[dir] := g];
    }
  }

  /** v has one more reference and may have come from the free list; nothing else changed. */
  ghost predicate Took(p: Pool, q: Pool, v: nat)
    requires v < |p.count|
  {
    && q.count == p.count[v := p.count[v] + 1] && q.roots == p.roots && q.pins == p.pins && q.cover == p.cover
    && Same(p, q)
    && |p.ls.lists| == |q.ls.lists| > 0
    && |q.ls.lists[0]| == |p.ls.lists[0]| - (if p.count[v] > 0 then 0 else 1)
  }

  /** p0 with one more reference to v, and otherwise its counts and its files. */
  ghost predicate Holding(p0: Pool, p: Pool, v: int) {
    0 <= v < |p0.count| && Took(p0, p, v)
  }

  /** The counts of p0 again. */
  ghost predicate Back(p0: Pool, p: Pool) {
    p.count == p0.count && p.roots == p0.roots && p.pins == p0.pins && p.cover == p0.cover && Same(p0, p)
  }

  /** Where one name leads from n. */
  function Moved(tree: Tree, p: Pool, n: Node, name: string): Option<Node> {
    var m := Cross(p, n);
    if name == "." then Some(m) else Entered(tree, m, name)
  }

  /** The file that directory m calls by a name. */
  function Entered(tree: Tree, m: Node, name: string): Option<Node> {
    if |name| <= MAX_NAME && (m, name) in tree then Some(Node(m.fs, tree[(m, name)])) else None
  }

  /** Where a path leads depends on the mounts only. */
  lemma {:induction false} ResolveSame(tree: Tree, p: Pool, q: Pool, n: Node, names: seq<string>)
    requires q.cover == p.cover && q.roots == p.roots
    ensures Resolve(tree, q, n, names) == Resolve(tree, p, n, names)
    decreases |names|
  {
    var m := Cross(p, n);
    if names != [] {
      ResolveSame(tree, p, q, m, names[1..]);
      if (m, names[0]) in tree { ResolveSame(tree, p, q, Node(m.fs, tree[(m, names[0])]), names[1..]); }
    }
  }

  lemma ResolveStep(tree: Tree, p: Pool, n: Node, name: string, rest: seq<string>)
    ensures Resolve(tree, p, n, [name] + rest) ==
      match Moved(tree, p, n, name) case None => None case Some(m) => Resolve(tree, p, m, rest)
  {
    assert ([name] + rest)[1..] == rest;
  }

  /** The root of a mounted file system has a vnode in use. */
  lemma RootIsInUse(p: Pool, n: Node)
    requires Ok(p) && MountOk(p, n)
    ensures exists r: nat :: IsAt(p, r, Node(p.cover[n], p.roots[p.cover[n]]))
  {
    var r: nat :| PinAt(p, r, Node(p.cover[n], p.roots[p.cover[n]]));
    assert Live(p, r);
    assert IsAt(p, r, Node(p.cover[n], p.roots[p.cover[n]]));
  }

  /** The first free vnode v, taken off the free list, is on no list, has no references and covers
      nothing. */
  lemma Detached(p: Pool, v: nat)
    requires Ok(p) && p.ls.lists[0] != [] && v == p.ls.lists[0][0]
    ensures ListOk(p.ls, 0) && v < |p.count| && p.count[v] == 0 && p.here[v] == 0
    ensures var s := TakenOff(p.ls, 0, 0); Shape(s.(next := s.next[v := NIL])) && s.place[v] == NIL
  {
    assert ListOk(p.ls, 0);
    TakenOffKeeps(p.ls, 0, 0);
    LooseNext(TakenOff(p.ls, 0, 0), v, NIL);
    assert VnodeOk(p, v);
  }

  lemma MadeTakes(p: Pool, n: Node)
    requires Ok(p) && 0 < n.fs < |p.ls.lists| && p.ls.lists[0] != []
    requires forall v: nat :: !IsAt(p, v, n)
    ensures ListOk(p.ls, 0) && Ok(Made(p, n))
    ensures var v := p.ls.lists[0][0]; v < |p.count| && IsAt(Made(p, n), v, n) && Took(p, Made(p, n), v)
  {
    MadeKeeps(p, n);
  }

  /** The vnodes in use before are still those of the same files. */
  ghost predicate Same(p: Pool, q: Pool) {
    |q.id| == |p.id| == |p.count| && forall w :: 0 <= w < |p.count| && p.count[w] > 0 ==> q.id[w] == p.id[w]
  }

  /** Two more references leave the vnodes in use those of the same files. */
  lemma SameTwice(p: Pool, q: Pool, r: Pool, v: int, w: int)
    requires Holding(p, q, v) && Holding(q, r, w)
    ensures Same(p, r) && |r.ls.lists| == |p.ls.lists| > 0 && |r.ls.lists[0]| + 2 >= |p.ls.lists[0]|
  {
  }
}
