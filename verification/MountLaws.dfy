/** What a mount does to the paths that lead through it. */
module MountLaws {
  import opened Basics
  import opened Vnodes
  import opened VnodeTable
  import opened Vfs
  import VnodeNames
  import Paths

  /** The root of file system g. */
  function Top(p: Pool, g: nat): Node
    requires g < |p.roots|
  {
    Node(g, p.roots[g])
  }

  // ---------------------------------------------------------------- single files

  /** A directory without a mount resolves by its own entries. */
  lemma UncoveredResolves(tree: Tree, p: Pool, n: Node, name: string, rest: seq<string>)
    requires n !in p.cover
    ensures Resolve(tree, p, n, []) == Some(n)
    ensures name == "." ==> Resolve(tree, p, n, [name] + rest) == Resolve(tree, p, n, rest)
    ensures name != "." && |name| <= MAX_NAME && (n, name) in tree ==>
              Resolve(tree, p, n, [name] + rest) == Resolve(tree, p, Node(n.fs, tree[(n, name)]), rest)
    ensures name != "." && (|name| > MAX_NAME || (n, name) !in tree) ==> Resolve(tree, p, n, [name] + rest) == None
  {
    ResolveStep(tree, p, n, name, rest);
  }

  /** A directory on which a file system is mounted resolves as the root of that file system, whose entries
      take the place of its own. */
  lemma CoveredResolves(tree: Tree, p: Pool, n: Node, names: seq<string>)
    requires n in p.cover && p.cover[n] < |p.roots| && Top(p, p.cover[n]) !in p.cover
    ensures Resolve(tree, p, n, names) == Resolve(tree, p, Top(p, p.cover[n]), names)
  {
  }

  // ---------------------------------------------------------------- walks

  /** Where a walk is after all the names, before it looks for a mount for the last time. */
  function Arrival(tree: Tree, p: Pool, n: Node, names: seq<string>): Option<Node>
    decreases |names|
  {
    if names == [] then Some(n)
    else
      match Moved(tree, p, n, names[0])
      case None => None
      case Some(m) => Arrival(tree, p, m, names[1..])
  }

  /** The walk comes by x with names still to go. */
  predicate Passes(tree: Tree, p: Pool, n: Node, names: seq<string>, x: Node)
    decreases |names|
  {
    names != [] && (n == x ||
      match Moved(tree, p, n, names[0])
      case None => false
      case Some(m) => Passes(tree, p, m, names[1..], x))
  }

  lemma {:induction false} ResolveIsArrival(tree: Tree, p: Pool, n: Node, names: seq<string>)
    ensures Resolve(tree, p, n, names) ==
      match Arrival(tree, p, n, names) case None => None case Some(w) => Some(Cross(p, w))
    decreases |names|
  {
    if names != [] {
      assert names == [names[0]] + names[1..];
      ResolveStep(tree, p, n, names[0], names[1..]);
      match Moved(tree, p, n, names[0])
      case None =>
      case Some(m) => ResolveIsArrival(tree, p, m, names[1..]);
    }
  }

  /** q is p with file system g mounted on x. */
  ghost predicate MountedOn(p: Pool, q: Pool, x: Node, g: nat) {
    q.cover == p.cover[x := g] && q.roots == p.roots && g < |p.roots|
  }

  /** A mount elsewhere does not change a walk. */
  lemma {:induction false} ArrivalStays(tree: Tree, p: Pool, q: Pool, x: Node, g: nat, n: Node, names: seq<string>)
    requires MountedOn(p, q, x, g) && !Passes(tree, p, n, names, x)
    ensures Arrival(tree, q, n, names) == Arrival(tree, p, n, names)
    decreases |names|
  {
    if names != [] {
      assert Cross(q, n) == Cross(p, n);
      match Moved(tree, p, n, names[0])
      case None =>
      case Some(m) => ArrivalStays(tree, p, q, x, g, m, names[1..]);
    }
  }

  /** g is mounted on the directory x that a path leads to, and the path does not come by x before its
      end. Then the path leads to the root of g if and only if what lay at its end was not a mount point
      already, or was one of g: of two mounts at the end of a path the walk crosses the first only. */
  lemma MountIsSeenIff(tree: Tree, p: Pool, q: Pool, x: Node, g: nat, n: Node, names: seq<string>)
    requires Resolve(tree, p, n, names) == Some(x) && MountedOn(p, q, x, g) && !Passes(tree, p, n, names, x)
    ensures Resolve(tree, q, n, names) == Some(Top(p, g)) <==> Arrival(tree, p, n, names) == Some(x) || x == Top(p, g)
    ensures var w := Arrival(tree, p, n, names); w.Some? && (w.value !in p.cover ==> w.value == x)
  {
    ResolveIsArrival(tree, p, n, names);
    ResolveIsArrival(tree, q, n, names);
    ArrivalStays(tree, p, q, x, g, n, names);
  }

  /** A path that comes by x earlier leads, from there on, through the file system mounted on x. */
  lemma {:induction false} MountRedirects(tree: Tree, p: Pool, q: Pool, x: Node, g: nat, n: Node, names: seq<string>)
      returns (i: nat)
    requires MountedOn(p, q, x, g) && Passes(tree, p, n, names, x)
    ensures i < |names| && Resolve(tree, q, n, names) == Resolve(tree, q, x, names[i..])
    ensures Top(q, g) !in q.cover ==> Resolve(tree, q, n, names) == Resolve(tree, q, Top(q, g), names[i..])
    decreases |names|
  {
    if n == x {
      i := 0;
      assert names[0..] == names;
    } else {
      assert Cross(q, n) == Cross(p, n);
      var m := Moved(tree, p, n, names[0]).value;
      var j := MountRedirects(tree, p, q, x, g, m, names[1..]);
      assert names == [names[0]] + names[1..] && names[j + 1..] == names[1..][j..];
      ResolveStep(tree, q, n, names[0], names[1..]);
      i := j + 1;
    }
    if Top(q, g) !in q.cover { CoveredResolves(tree, q, x, names[i..]); }
  }

  /** Two such failures: a second mount on the same directory, and a mount on a directory named by way of
      itself, here as "d/s/..", where ".." is an entry of s. */
  lemma MountsNotSeen(tree: Tree, p: Pool, q: Pool, r: Pool)
    requires |p.roots| == 3 && p.cover == map[] && MountedOn(p, q, Node(1, 5), 2)
    requires p.roots[2] == 7 && MountedOn(q, r, Node(2, 7), 1) && p.roots[1] == 4
    requires tree == map[(Node(1, 4), "d") := 5, (Node(1, 5), "s") := 6, (Node(1, 6), "..") := 5]
    ensures Resolve(tree, q, Node(1, 4), ["d"]) == Some(Node(2, 7)) == Resolve(tree, r, Node(1, 4), ["d"])
    ensures Resolve(tree, p, Node(1, 4), ["d", "s", ".."]) == Some(Node(1, 5))
    ensures Resolve(tree, q, Node(1, 4), ["d", "s", ".."]) == None
  {
    var a, b, c := Node(1, 4), Node(1, 5), Node(1, 6);
    assert ["d"] == ["d"] + [] && ["d", "s", ".."] == ["d"] + ["s", ".."];
    assert ["s", ".."] == ["s"] + [".."] && [".."] == [".."] + [];
    UncoveredResolves(tree, q, a, "d", []);
    UncoveredResolves(tree, r, a, "d", []);
    UncoveredResolves(tree, p, a, "d", ["s", ".."]);
    UncoveredResolves(tree, p, b, "s", [".."]);
    UncoveredResolves(tree, p, c, "..", []);
    UncoveredResolves(tree, p, b, ".", []);
    UncoveredResolves(tree, q, a, "d", ["s", ".."]);
    ResolveStep(tree, q, b, "s", [".."]);
  }

  // ---------------------------------------------------------------- on the operations

  /** The path of process pid starts at the file n and, in the files and mounts of p, leads to x, where
      nothing is mounted, without coming by x before. */
  ghost predicate LeadsStraight(tree: Tree, p: Pool, start: int, path: string, x: Node) {
    && 0 <= start < |p.id| && Resolve(tree, p, p.id[start], Paths.Comps(path)) == Some(x)
    && Arrival(tree, p, p.id[start], Paths.Comps(path)) == Some(x)
    && !Passes(tree, p, p.id[start], Paths.Comps(path), x)
  }

  /** Where a path leads after the mount. */
  lemma LeadsToTop(tree: Tree, p: Pool, q: Pool, start: int, path: string, x: Node, g: nat)
    requires LeadsStraight(tree, p, start, path, x) && MountedOn(p, q, x, g)
    requires start < |q.id| && q.id[start] == p.id[start]
    ensures Resolve(tree, q, q.id[start], Paths.Comps(path)) == Some(Top(p, g))
  {
    MountIsSeenIff(tree, p, q, x, g, p.id[start], Paths.Comps(path));
  }

  /** The lookup of a path through which g has been mounted on x. */
  method LookupMounted(vfs: Vfs, pid: nat, path: string, g: nat, tree: Tree, ghost p: Pool,
    ghost x: Node) returns (v: int)
    requires vfs.Valid() && pid < vfs.procs.Length && g < vfs.table.roots.Length
    requires MountedOn(p, vfs.table.View(), x, g) && LeadsStraight(tree, p, vfs.Start(pid, path), path, x)
    requires var s := vfs.Start(pid, path); s < vfs.table.id.Length && vfs.table.id[s] == p.id[s]
    modifies vfs.table, vfs.table.next, vfs.table.head, vfs.table.count, vfs.table.id, vfs.table.here
    ensures if v == VnodeNames.NIL then FewFree(old(vfs.table.View())) else vfs.IsTop(v, g)
  {
    LeadsToTop(tree, p, vfs.table.View(), vfs.Start(pid, path), path, x, g);
    v := vfs.Lookup(pid, path, tree);
  }

  /** Less than two vnodes are free. */
  ghost predicate FewFree(p: Pool) {
    p.ls.lists == [] || |p.ls.lists[0]| < 2
  }

  /** A mount, and a lookup of the same path by the same process: if the path leads straight to a
      directory without a mount, and the mount succeeds, the lookup finds the root of the mounted file
      system, or fails for want of free vnodes. */
  method MountThenLookup(vfs: Vfs, pid: nat, path: string, g: nat, dirs: set<Node>, tree: Tree, ghost x: Node)
      returns (r: Result, v: int)
    requires vfs.Valid() && pid < vfs.procs.Length && 0 < g < vfs.table.roots.Length && path != "/"
    requires LeadsStraight(tree, vfs.table.View(), vfs.Start(pid, path), path, x)
    modifies vfs`root, vfs`used, vfs`pinned, vfs.table, vfs.table.next, vfs.table.head, vfs.table.count
    modifies vfs.table.id, vfs.table.here
    ensures r.Done? ==> |old(vfs.table.lists)| > 0
    ensures r.Done? ==> if v == VnodeNames.NIL then |old(vfs.table.lists[0])| < 4 else vfs.IsTop(v, g)
  {
    ghost var p := vfs.table.View();
    vfs.StartIsLive(pid, path, p);
    v := VnodeNames.NIL;
    r := vfs.Mount(pid, path, g, dirs, tree);
    if r.Done? {
      v := LookupMounted(vfs, pid, path, g, tree, p, x);
    }
  }
}
