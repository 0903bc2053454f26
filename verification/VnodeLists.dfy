/** The null-terminated lists of the vnode pool: the free list and one list a file system. */
module VnodeLists {

  const NIL: int := -1

  /** List 0 is the free list, list f > 0 that of file system f. place[v] is the list v is on, or
      NIL while it is on none. */
  datatype Lists = Lists(next: seq<int>, head: seq<int>, lists: seq<seq<nat>>, place: seq<int>)

  ghost predicate Distinct(l: seq<nat>) {
    forall i, j :: 0 <= i < j < |l| ==> l[i] != l[j]
  }

  /** What follows the i-th node. */
  function After(l: seq<nat>, i: nat): int
    requires i < |l|
  {
    if i + 1 < |l| then l[i + 1] else NIL
  }

  ghost predicate LinkAt(next: seq<int>, l: seq<nat>, i: nat)
    requires i < |l|
  {
    l[i] < |next| && next[l[i]] == After(l, i)
  }

  ghost predicate Linked(next: seq<int>, head: int, l: seq<nat>) {
    head == (if l == [] then NIL else l[0] as int) && forall i :: 0 <= i < |l| ==> LinkAt(next, l, i)
  }

  ghost predicate ListOk(s: Lists, f: nat)
    requires f < |s.lists| == |s.head|
  {
    && Linked(s.next, s.head[f], s.lists[f]) && Distinct(s.lists[f])
    && forall i :: 0 <= i < |s.lists[f]| ==> s.lists[f][i] < |s.place| && s.place[s.lists[f][i]] == f
  }

  /** Every list is well formed, and every vnode is on the list its place says. */
  ghost predicate Shape(s: Lists) {
    && |s.lists| == |s.head| && |s.place| == |s.next|
    && (forall f :: 0 <= f < |s.lists| ==> ListOk(s, f))
    && (forall v :: 0 <= v < |s.place| && s.place[v] != NIL ==>
        0 <= s.place[v] < |s.lists| && v in s.lists[s.place[v]])
  }

  /** A vnode on no list at the front of list f. */
  function Pushed(s: Lists, f: nat, v: nat): Lists
    requires f < |s.lists| == |s.head| && v < |s.next| == |s.place|
  {
    Lists(s.next[v := s.head[f]], s.head[f := v], s.lists[f := [v] + s.lists[f]], s.place[v := f])
  }

  lemma PushedKeeps(s: Lists, f: nat, v: nat)
    requires Shape(s) && f < |s.lists| && v < |s.next| && s.place[v] == NIL
    ensures Shape(Pushed(s, f, v))
  {
    var t := Pushed(s, f, v);
    forall g | 0 <= g < |t.lists| ensures ListOk(t, g) {
      assert ListOk(s, g);
      var l, m := s.lists[g], t.lists[g];
      forall i | 0 <= i < |l| ensures l[i] != v { assert s.place[l[i]] == g; }
      forall i | 0 <= i < |m| ensures LinkAt(t.next, m, i) {
        if g == f { assert i > 0 ==> LinkAt(s.next, l, i - 1); } else { assert LinkAt(s.next, l, i); }
      }
    }
    forall w | 0 <= w < |t.place| && t.place[w] != NIL ensures 0 <= t.place[w] < |t.lists| && w in t.lists[t.place[w]] {
      if w == v {
        assert t.lists[f][0] == v;
      } else {
        assert w in s.lists[s.place[w]];
        if s.place[w] == f { assert w in [v] + s.lists[f]; }
      }
    }
  }

  /** The k-th node of list f taken off; next of the node before it skips it. */
  function TakenOff(s: Lists, f: nat, k: nat): Lists
    requires f < |s.lists| == |s.head| && k < |s.lists[f]|
    requires forall i :: 0 <= i < |s.lists[f]| ==> s.lists[f][i] < |s.next| == |s.place|
  {
    var l := s.lists[f];
    Lists(if k == 0 then s.next else s.next[l[k - 1] := s.next[l[k]]],
          if k == 0 then s.head[f := s.next[l[k]]] else s.head,
          s.lists[f := l[..k] + l[k + 1..]], s.place[l[k] := NIL])
  }

  lemma TakenOffKeeps(s: Lists, f: nat, k: nat)
    requires Shape(s) && f < |s.lists| && k < |s.lists[f]|
    ensures ListOk(s, f) && Shape(TakenOff(s, f, k))
  {
    assert ListOk(s, f);
    var t, l, v := TakenOff(s, f, k), s.lists[f], s.lists[f][k];
    assert LinkAt(s.next, l, k);
    TakenOffList(s, f, k);
    forall g | 0 <= g < |t.lists| && g != f ensures ListOk(t, g) {
      assert ListOk(s, g);
      var m := s.lists[g];
      forall i | 0 <= i < |m| ensures LinkAt(t.next, m, i) && t.place[m[i]] == g {
        assert LinkAt(s.next, m, i) && s.place[m[i]] == g;
        assert k > 0 ==> s.place[l[k - 1]] == f;
      }
    }
    forall w | 0 <= w < |t.place| && t.place[w] != NIL ensures 0 <= t.place[w] < |t.lists| && w in t.lists[t.place[w]] {
      assert w != v && w in s.lists[s.place[w]];
      if s.place[w] == f {
        var i :| 0 <= i < |l| && l[i] == w;
        assert t.lists[f][if i < k then i else i - 1] == w;
      }
    }
  }

  lemma TakenOffList(s: Lists, f: nat, k: nat)
    requires Shape(s) && f < |s.lists| && k < |s.lists[f]| && ListOk(s, f)
    ensures ListOk(TakenOff(s, f, k), f)
  {
    var t, l := TakenOff(s, f, k), s.lists[f];
    var m := t.lists[f];
    assert LinkAt(s.next, l, k);
    WithoutOne(l, k);
    forall i | 0 <= i < |m| ensures LinkAt(t.next, m, i) && t.place[m[i]] == f {
      var j := if i < k then i else i + 1;
      assert m[i] == l[j] && LinkAt(s.next, l, j);
    }
  }

  lemma WithoutOne(l: seq<nat>, k: nat)
    requires Distinct(l) && k < |l|
    ensures var m := l[..k] + l[k + 1..]; Distinct(m) && l[k] !in m && forall x :: x in m ==> x in l
  {
  }

  /** A write to next of a vnode on no list disturbs none. */
  lemma LooseNext(s: Lists, v: nat, x: int)
    requires Shape(s) && v < |s.next| && s.place[v] == NIL
    ensures Shape(s.(next := s.next[v := x]))
  {
    var t := s.(next := s.next[v := x]);
    forall f | 0 <= f < |t.lists| ensures ListOk(t, f) {
      assert ListOk(s, f);
      var l := s.lists[f];
      forall i | 0 <= i < |l| ensures LinkAt(t.next, l, i) {
        assert LinkAt(s.next, l, i) && s.place[l[i]] == f;
      }
    }
  }
}
