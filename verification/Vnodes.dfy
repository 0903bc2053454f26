/** Reference-counted vnodes: holding, releasing, finding or making the vnode of a file, and what
    keeps mount points and roots alive. */
module Vnodes {
  import opened VnodeLists

  /** A file: its file system (1, 2, ...) and its number there. */
  datatype Node = Node(fs: nat, rnode: nat)

  /** The pool. roots[f] is the root of file system f; pins are the vnodes that mounting holds for
      good; cover says which file system is mounted on a directory, and here[v] repeats it in the
      vnode. */
  datatype Pool = Pool(ls: Lists, count: seq<nat>, id: seq<Node>, here: seq<nat>, roots: seq<nat>,
                       pins: set<nat>, cover: map<Node, nat>)

  ghost predicate Live(p: Pool, v: int) {
    0 <= v < |p.count| && p.count[v] > 0
  }

  ghost predicate Sized(p: Pool) {
    && |p.count| == |p.id| == |p.here| == |p.ls.next| && |p.roots| == |p.ls.lists| > 0
    && Shape(p.ls)
  }

  /** The vnode's place, identity and mount mark fit its count. */
  ghost predicate VnodeOk(p: Pool, v: nat)
    requires Sized(p) && v < |p.count|
  {
    && p.ls.place[v] != NIL
    && (p.count[v] > 0 <==> p.ls.place[v] != 0)
    && (p.count[v] > 0 ==> p.id[v].fs == p.ls.place[v])
    && p.here[v] == (if p.count[v] > 0 && p.id[v] in p.cover then p.cover[p.id[v]] else 0)
  }

  ghost predicate PinAt(p: Pool, v: nat, n: Node) {
    v in p.pins && v < |p.id| && p.id[v] == n
  }

  /** A mount pins the covered directory and the root of the file system mounted there. */
  ghost predicate MountOk(p: Pool, n: Node) {
    && n in p.cover && 0 < p.cover[n] < |p.roots|
    && (exists v: nat :: PinAt(p, v, n))
    && (exists r: nat :: PinAt(p, r, Node(p.cover[n], p.roots[p.cover[n]])))
  }

  /** Two vnodes in use for one file. */
  ghost predicate SameFile(p: Pool, v: nat, w: nat)
    requires |p.id| == |p.count| && v < |p.count| && w < |p.count|
  {
    p.count[v] > 0 && p.count[w] > 0 && p.id[v] == p.id[w]
  }

  ghost predicate Ok(p: Pool) {
    && Sized(p)
    && (forall v :: 0 <= v < |p.count| ==> VnodeOk(p, v))
    && (forall v, w :: 0 <= v < |p.count| && 0 <= w < |p.count| && SameFile(p, v, w) ==> v == w)
    && (forall v :: v in p.pins ==> Live(p, v))
    && (forall n :: n in p.cover ==> MountOk(p, n))
  }

  // ---------------------------------------------------------------- start-up

  /** The links of the free list after start-up: each vnode to the one behind it. */
  function Chain(n: nat): seq<int> {
    seq(n, i => if i + 1 < n then i + 1 else NIL)
  }

  /** All n vnodes, in order, on the free list; the other lists are empty. */
  function VacantLists(n: nat, m: nat): Lists
    requires n > 0
  {
    Lists(Chain(n), seq(m, f => if f == 0 then 0 else NIL),
          seq(m, f => if f == 0 then seq(n, i requires 0 <= i => i) else []), seq(n, i => 0))
  }

  /** The pool after start-up: nothing in use, nothing mounted. */
  function Vacant(n: nat, roots: seq<nat>): Pool
    requires n > 0
  {
    Pool(VacantLists(n, |roots|), seq(n, i => 0), seq(n, i => Node(0, 0)), seq(n, i => 0), roots, {}, map[])
  }

  lemma VacantShape(n: nat, m: nat)
    requires n > 0 && m > 0
    ensures Shape(VacantLists(n, m))
  {
    var s := VacantLists(n, m);
    forall f | 0 <= f < m ensures ListOk(s, f) {
      var l := s.lists[f];
      forall i | 0 <= i < |l| ensures LinkAt(s.next, l, i) { assert f == 0; }
    }
    forall v | 0 <= v < n ensures v in s.lists[0] { assert s.lists[0][v] == v; }
  }

  /** Start-up leaves a well-formed pool. */
  lemma VacantIsOk(n: nat, roots: seq<nat>)
    requires n > 0 && roots != []
    ensures Ok(Vacant(n, roots))
  {
    VacantShape(n, |roots|);
    var p := Vacant(n, roots);
    forall v | 0 <= v < n ensures VnodeOk(p, v) { }
    assert forall v :: 0 <= v < n ==> p.count[v] == 0;
  }

  /** A vnode in use held for good. */
  function Pinned(p: Pool, v: nat): Pool {
    p.(pins := p.pins + {v})
  }

  lemma PinnedKeeps(p: Pool, v: nat)
    requires Ok(p) && Live(p, v)
    ensures Ok(Pinned(p, v))
  {
    var q := Pinned(p, v);
    forall w | 0 <= w < |q.count| ensures VnodeOk(q, w) { assert VnodeOk(p, w); }
    forall x, y | 0 <= x < |q.count| && 0 <= y < |q.count| && SameFile(q, x, y)
      ensures x == y { assert SameFile(p, x, y); }
    forall n | n in q.cover ensures MountOk(q, n) {
      assert MountOk(p, n);
      var w: nat :| PinAt(p, w, n);
      assert PinAt(q, w, n);
      var r: nat :| PinAt(p, r, Node(p.cover[n], p.roots[p.cover[n]]));
      assert PinAt(q, r, Node(q.cover[n], q.roots[q.cover[n]]));
    }
  }

  // ---------------------------------------------------------------- hold and release

  function Held(p: Pool, v: nat): Pool
    requires v < |p.count|
  {
    p.(count := p.count[v := p.count[v] + 1])
  }

  lemma HeldKeeps(p: Pool, v: nat)
    requires Ok(p) && Live(p, v)
    ensures Ok(Held(p, v))
  {
    var q := Held(p, v);
    forall w | 0 <= w < |q.count| ensures VnodeOk(q, w) { assert VnodeOk(p, w); }
    forall x, y | 0 <= x < |q.count| && 0 <= y < |q.count| && SameFile(q, x, y)
      ensures x == y { assert SameFile(p, x, y); }
    forall n | n in q.cover ensures MountOk(q, n) { MountStays(p, q, n); }
  }

  /** Mounts depend on pins and identities only. */
  lemma MountStays(p: Pool, q: Pool, n: Node)
    requires n in p.cover && MountOk(p, n) && q.cover == p.cover && q.pins == p.pins && q.roots == p.roots
    requires |q.id| == |p.id| && forall v :: v in p.pins && 0 <= v < |p.id| ==> q.id[v] == p.id[v]
    ensures MountOk(q, n)
  {
    var v: nat :| PinAt(p, v, n);
    assert PinAt(q, v, n);
    var r: nat :| PinAt(p, r, Node(p.cover[n], p.roots[p.cover[n]]));
    assert PinAt(q, r, Node(p.cover[n], p.roots[p.cover[n]]));
  }

  function IndexIn(l: seq<nat>, v: nat): (k: nat)
    requires v in l
    ensures k < |l| && l[k] == v
  {
    if l[0] == v then 0 else 1 + IndexIn(l[1..], v)
  }

  /** A vnode from list f back to the free list. */
  ghost function Freed(s: Lists, f: nat, v: nat): Lists
    requires Shape(s) && f < |s.lists| && v < |s.next| && v in s.lists[f]
  {
    assert ListOk(s, f);
    Pushed(TakenOff(s, f, IndexIn(s.lists[f], v)), 0, v)
  }

  /** One reference less; the last one sends the vnode back to the free list. */
  ghost function Released(p: Pool, v: nat): Pool
    requires Ok(p) && Live(p, v)
  {
    assert VnodeOk(p, v);
    var c := p.count[v := p.count[v] - 1];
    if p.count[v] > 1 then p.(count := c) else p.(count := c, ls := Freed(p.ls, p.id[v].fs, v))
  }

  lemma FreedKeeps(s: Lists, f: nat, v: nat)
    requires Shape(s) && 0 < f < |s.lists| && v < |s.next| && v in s.lists[f]
    ensures Shape(Freed(s, f, v)) && Freed(s, f, v).place == s.place[v := 0]
    ensures |Freed(s, f, v).lists| == |s.lists| && |Freed(s, f, v).next| == |s.next|
    ensures |Freed(s, f, v).lists[0]| == |s.lists[0]| + 1
  {
    assert ListOk(s, f);
    var k := IndexIn(s.lists[f], v);
    TakenOffKeeps(s, f, k);
    PushedKeeps(TakenOff(s, f, k), 0, v);
    assert s.place[v := NIL][v := 0] == s.place[v := 0];
  }

  /** The free list grows by the vnodes that lose their last reference. */
  lemma ReleasedKeeps(p: Pool, v: nat)
    requires Ok(p) && Live(p, v) && (p.count[v] > 1 || v !in p.pins)
    ensures Ok(Released(p, v))
    ensures |Released(p, v).ls.lists[0]| == |p.ls.lists[0]| + if p.count[v] > 1 then 0 else 1
  {
    var q := Released(p, v);
    assert VnodeOk(p, v);
    if p.count[v] == 1 { FreedKeeps(p.ls, p.id[v].fs, v); }
    assert p.count[v] == 1 ==> p.id[v] !in p.cover by {
      if p.id[v] in p.cover {
        assert MountOk(p, p.id[v]);
        var w: nat :| PinAt(p, w, p.id[v]);
        assert Live(p, w) && (SameFile(p, v, w) ==> v == w);
      }
    }
    forall w | 0 <= w < |q.count| ensures VnodeOk(q, w) { assert VnodeOk(p, w); }
    forall x, y | 0 <= x < |q.count| && 0 <= y < |q.count| && SameFile(q, x, y)
      ensures x == y { assert SameFile(p, x, y); }
    forall n | n in q.cover ensures MountOk(q, n) { MountStays(p, q, n); }
    forall w | w in q.pins ensures Live(q, w) { assert Live(p, w); }
  }

  // ---------------------------------------------------------------- finding and making

  ghost predicate IsAt(p: Pool, v: nat, n: Node) {
    v < |p.count| == |p.id| && p.count[v] > 0 && p.id[v] == n
  }

  /** A free vnode made the vnode of n, with one reference. */
  ghost function Made(p: Pool, n: Node): Pool
    requires Ok(p) && 0 < n.fs < |p.ls.lists| && p.ls.lists[0] != []
  {
    assert ListOk(p.ls, 0);
    var v := p.ls.lists[0][0];
    var s := TakenOff(p.ls, 0, 0);
    p.(ls := Pushed(s.(next := s.next[v := NIL]), n.fs, v), count := p.count[v := 1], id := p.id[v := n])
  }

  lemma MadeKeeps(p: Pool, n: Node)
    requires Ok(p) && 0 < n.fs < |p.ls.lists| && p.ls.lists[0] != []
    requires forall v: nat :: !IsAt(p, v, n)
    ensures ListOk(p.ls, 0) && Ok(Made(p, n)) && p.count[p.ls.lists[0][0]] == 0
    ensures |Made(p, n).ls.lists[0]| == |p.ls.lists[0]| - 1
  {
    assert ListOk(p.ls, 0);
    var v, q := p.ls.lists[0][0], Made(p, n);
    assert VnodeOk(p, v);
    var s := TakenOff(p.ls, 0, 0);
    TakenOffKeeps(p.ls, 0, 0);
    LooseNext(s, v, NIL);
    PushedKeeps(s.(next := s.next[v := NIL]), n.fs, v);
    assert n !in p.cover by {
      if n in p.cover {
        assert MountOk(p, n);
        var w: nat :| PinAt(p, w, n);
        assert Live(p, w) && IsAt(p, w, n);
      }
    }
    forall w | 0 <= w < |q.count| ensures VnodeOk(q, w) { assert VnodeOk(p, w); }
    forall w | w in q.pins ensures Live(q, w) && w != v { assert Live(p, w); }
    forall m | m in q.cover ensures MountOk(q, m) { MountStays(p, q, m); }
    forall x, y | 0 <= x < |q.count| && 0 <= y < |q.count| && SameFile(q, x, y) ensures x == y {
      assert !IsAt(p, x, n) && !IsAt(p, y, n);
      assert x != v && y != v ==> SameFile(p, x, y);
    }
  }

  // ---------------------------------------------------------------- mounting

  /** File system g mounted on the directory of vnode dir; root is the vnode of its root. */
  function Mounted(p: Pool, dir: nat, root: nat, g: nat): Pool
    requires dir < |p.here| == |p.id|
  {
    p.(here := p.here[dir := g], pins := p.pins + {dir, root}, cover := p.cover[p.id[dir] := g])
  }

  lemma MountedKeeps(p: Pool, dir: nat, root: nat, g: nat)
    requires Ok(p) && Live(p, dir) && Live(p, root) && 0 < g < |p.roots| && p.id[root] == Node(g, p.roots[g])
    ensures Ok(Mounted(p, dir, root, g))
  {
    var q := Mounted(p, dir, root, g);
    forall v | 0 <= v < |q.count| ensures VnodeOk(q, v) {
      assert VnodeOk(p, v) && (SameFile(p, v, dir) ==> v == dir);
    }
    forall x, y | 0 <= x < |q.count| && 0 <= y < |q.count| && SameFile(q, x, y)
      ensures x == y { assert SameFile(p, x, y); }
    forall n | n in q.cover ensures MountOk(q, n) {
      if n == p.id[dir] {
        assert PinAt(q, dir, n) && PinAt(q, root, Node(g, p.roots[g]));
      } else {
        assert MountOk(p, n);
        var v: nat :| PinAt(p, v, n);
        assert PinAt(q, v, n);
        var r: nat :| PinAt(p, r, Node(p.cover[n], p.roots[p.cover[n]]));
        assert PinAt(q, r, Node(q.cover[n], q.roots[q.cover[n]]));
      }
    }
  }
}
