/** What malloc and free do for their callers: which chunks are in use, for how long, and that freed
    memory can be had again. */
module HeapLaws {
  import opened Basics
  import opened HeapModel

  /** The chunks in use. */
  ghost function Used(cs: seq<Chunk>): set<Chunk> {
    set c | c in cs && c.used
  }

  /** Some free chunk contains the bytes from lo to hi - 1, headers included. */
  ghost predicate FreeAround(cs: seq<Chunk>, lo: int, hi: int) {
    exists j :: 0 <= j < |cs| && !cs[j].used && cs[j].at <= lo && hi <= End(cs[j])
  }

  lemma Distinct(cs: seq<Chunk>, lo: int, hi: int, i: nat, j: nat)
    requires Tiled(cs, lo, hi) && i < |cs| && j < |cs| && cs[i].at == cs[j].at
    ensures i == j
  {
    if i < j { LaterIsHigher(cs, lo, hi, i, j); }
    if j < i { LaterIsHigher(cs, lo, hi, j, i); }
  }

  // ---------------------------------------------------------------- free

  /** A join moves no chunk in use. */
  lemma MergeUses(cs: seq<Chunk>, i: int)
    ensures Used(MergeAt(cs, i)) == Used(cs)
  {
    var r := MergeAt(cs, i);
    if r != cs {
      forall c | c in Used(cs) ensures c in r {
        var k :| 0 <= k < |cs| && cs[k] == c;
        assert r[if k < i then k else k - 1] == c;
      }
      forall c | c in Used(r) ensures c in cs {
        var k :| 0 <= k < |r| && r[k] == c;
        assert cs[if k < i then k else k + 1] == c;
      }
    }
  }

  /** A join keeps what was free free. */
  lemma MergeFrees(cs: seq<Chunk>, lo: int, hi: int, i: int, a: int, b: int)
    requires Tiled(cs, lo, hi) && FreeAround(cs, a, b)
    ensures FreeAround(MergeAt(cs, i), a, b)
  {
    var r := MergeAt(cs, i);
    if r != cs {
      var j :| 0 <= j < |cs| && !cs[j].used && cs[j].at <= a && b <= End(cs[j]);
      assert Abuts(cs, i);
      var k := if j <= i then j else j - 1;
      assert !r[k].used && r[k].at <= a && b <= End(r[k]);
    }
  }

  /** Clearing the flag of one chunk takes it, and no other, out of use. */
  lemma ClearedUses(cs: seq<Chunk>, lo: int, hi: int, i: nat)
    requires Tiled(cs, lo, hi) && i < |cs|
    ensures Used(cs[i := cs[i].(used := false)]) == Used(cs) - {cs[i]}
  {
    var r := cs[i := cs[i].(used := false)];
    forall c | c in Used(r) ensures c in Used(cs) - {cs[i]} {
      var k :| 0 <= k < |r| && r[k] == c;
      if c == cs[i] { Distinct(cs, lo, hi, i, k); }
    }
    forall c | c in Used(cs) - {cs[i]} ensures c in r {
      var k :| 0 <= k < |cs| && cs[k] == c;
      assert r[k] == c;
    }
  }

  /** free of the address of a chunk: the chunks in use afterwards are all those before but this one, and
      all its bytes lie in one free chunk. */
  lemma FreeReleases(cs: seq<Chunk>, lo: int, hi: int, p: int)
    requires HeapOk(cs, lo, hi) && p != 0 && ChunkAt(cs, p, |cs|) >= 0
    ensures
      var i, r := ChunkAt(cs, p, |cs|), Apply(cs, Free(p));
      && cs[i].at + HEADER == p
      && Used(r) == Used(cs) - {cs[i]}
      && FreeAround(r, cs[i].at, End(cs[i]))
  {
    var i := ChunkAt(cs, p, |cs|);
    ClearedUses(cs, lo, hi, i);
    ClearedTiled(cs, lo, hi, i);
    JoinsKeep(cs[i := cs[i].(used := false)], lo, hi, i);
  }

  lemma ClearedTiled(cs: seq<Chunk>, lo: int, hi: int, i: nat)
    requires Tiled(cs, lo, hi) && i < |cs|
    ensures Tiled(cs[i := cs[i].(used := false)], lo, hi)
  {
    var c1 := cs[i := cs[i].(used := false)];
    forall k | 0 <= k < |c1| - 1 ensures Abuts(c1, k) { assert Abuts(cs, k); }
    forall k | 0 <= k < |c1| ensures Even4(c1, k) { assert Even4(cs, k); }
  }

  lemma JoinsKeep(cs: seq<Chunk>, lo: int, hi: int, i: nat)
    requires Tiled(cs, lo, hi) && i < |cs| && !cs[i].used
    ensures var r := MergeAt(MergeAt(cs, i), i - 1); Used(r) == Used(cs) && FreeAround(r, cs[i].at, End(cs[i]))
  {
    var c2 := MergeAt(cs, i);
    MergeUses(cs, i);
    MergeFrees(cs, lo, hi, i, cs[i].at, End(cs[i]));
    MergeTiled(cs, lo, hi, i);
    MergeUses(c2, i - 1);
    MergeFrees(c2, lo, hi, i - 1, cs[i].at, End(cs[i]));
  }

  /** Memory that is freed can be had again: a request that the chunk would have satisfied succeeds. */
  lemma FreedIsAvailable(cs: seq<Chunk>, lo: int, hi: int, p: int, req: nat)
    requires HeapOk(cs, lo, hi) && p != 0 && ChunkAt(cs, p, |cs|) >= 0
    requires Rounded(req) <= cs[ChunkAt(cs, p, |cs|)].len
    ensures var r := Apply(cs, Free(p)); Best(r, Rounded(req), |r|) >= 0
  {
    var i, r := ChunkAt(cs, p, |cs|), Apply(cs, Free(p));
    FreeReleases(cs, lo, hi, p);
    var j :| 0 <= j < |r| && !r[j].used && r[j].at <= cs[i].at && End(cs[i]) <= End(r[j]);
    assert Fits(r, j, Rounded(req));
  }

  // ---------------------------------------------------------------- malloc

  /** The chunk a request gets: the upper end of the best chunk. */
  function Given(cs: seq<Chunk>, req: nat): Chunk
    requires Best(cs, Rounded(req), |cs|) >= 0
  {
    var c := cs[Best(cs, Rounded(req), |cs|)];
    Chunk(End(c) - HEADER - Rounded(req), Rounded(req), true)
  }

  /** malloc: the chunks in use afterwards are those before and a new one, of the rounded length, whose
      bytes were all free. */
  lemma MallocTakes(cs: seq<Chunk>, lo: int, hi: int, req: nat)
    requires HeapOk(cs, lo, hi) && req != 0 && Best(cs, Rounded(req), |cs|) >= 0 && NoSliver(cs, req)
    ensures
      var c, r := Given(cs, req), Apply(cs, Malloc(req));
      && c !in cs && Used(r) == Used(cs) + {c}
      && FreeAround(cs, c.at, End(c)) && c in r
  {
    var b, c, r := Best(cs, Rounded(req), |cs|), Given(cs, req), Apply(cs, Malloc(req));
    assert Even4(cs, b);
    assert !cs[b].used && cs[b].at <= c.at && End(c) <= End(cs[b]);
    if c in cs {
      var k :| 0 <= k < |cs| && cs[k] == c;
      if k < b { LaterIsHigher(cs, lo, hi, k, b); } else if k > b { LaterIsHigher(cs, lo, hi, b, k); }
      assert false;
    }
    AllocatedUses(cs, b, Rounded(req), c);
  }

  lemma AllocatedUses(cs: seq<Chunk>, i: nat, size: nat, c: Chunk)
    requires i < |cs| && !cs[i].used && size <= cs[i].len
    requires c == Chunk(End(cs[i]) - HEADER - size, size, true)
    ensures Used(Allocated(cs, i, size)) == Used(cs) + {c} && c in Allocated(cs, i, size)
  {
    var r := Allocated(cs, i, size);
    assert r[AllocatedIndex(cs, i, size)] == c;
    var d := |r| - |cs|;
    forall x | x in Used(cs) ensures x in r {
      var k :| 0 <= k < |cs| && cs[k] == x;
      assert r[if k < i then k else k + d] == x;
    }
    forall x | x in Used(r) ensures x in Used(cs) + {c} {
      var k :| 0 <= k < |r| && r[k] == x;
      if k < i { assert cs[k] == x; } else if k > i + d { assert cs[k - d] == x; }
    }
  }

  /** Freeing what malloc has just given restores the heap. */
  lemma MallocThenFree(cs: seq<Chunk>, lo: int, hi: int, req: nat, r: seq<Chunk>, p: int)
    requires HeapOk(cs, lo, hi) && lo > 0 && req != 0 && Best(cs, Rounded(req), |cs|) >= 0 && NoSliver(cs, req)
    requires r == Apply(cs, Malloc(req)) && p == Given(cs, req).at + HEADER
    ensures Apply(r, Free(p)) == cs
  {
    var size := Rounded(req);
    SplitThenFree(cs, lo, hi, Best(cs, size, |cs|), size, Given(cs, req));
  }

  lemma SplitThenFree(cs: seq<Chunk>, lo: int, hi: int, b: nat, size: nat, c: Chunk)
    requires HeapOk(cs, lo, hi) && lo > 0 && b < |cs| && Fits(cs, b, size) && size % 4 == 0 && cs[b].len - size != 4
    requires c == Chunk(End(cs[b]) - HEADER - size, size, true)
    ensures Apply(Allocated(cs, b, size), Free(c.at + HEADER)) == cs
  {
    AllocatedKeeps(cs, lo, hi, b, size);
    GivenBack(cs, lo, hi, b, size, c);
    AboveStart(cs, lo, hi, b);
    FreeApplied(Allocated(cs, b, size), c.at + HEADER);
  }

  lemma AboveStart(cs: seq<Chunk>, lo: int, hi: int, b: nat)
    requires Tiled(cs, lo, hi) && b < |cs|
    ensures lo <= cs[b].at
  {
    if b > 0 { LaterIsHigher(cs, lo, hi, 0, b); }
  }

  lemma FreeApplied(cs: seq<Chunk>, p: int)
    requires p != 0 && ChunkAt(cs, p, |cs|) >= 0
    ensures Apply(cs, Free(p)) == Freed(cs, ChunkAt(cs, p, |cs|))
  {
  }

  lemma GivenBack(cs: seq<Chunk>, lo: int, hi: int, b: nat, size: nat, c: Chunk)
    requires b < |cs| && Coalesced(cs) && !cs[b].used && size <= cs[b].len && Tiled(Allocated(cs, b, size), lo, hi)
    requires c == Chunk(End(cs[b]) - HEADER - size, size, true)
    ensures
      var r := Allocated(cs, b, size);
      var n := ChunkAt(r, c.at + HEADER, |r|);
      n >= 0 && Freed(r, n) == cs
  {
    var r, i := Allocated(cs, b, size), AllocatedIndex(cs, b, size);
    assert r[i] == c;
    var n := ChunkAt(r, c.at + HEADER, |r|);
    Distinct(r, lo, hi, i, n);
    assert b + 1 < |cs| ==> Apart(cs, b);
    assert b > 0 ==> Apart(cs, b - 1);
    if cs[b].len == size {
      assert r[i := c.(used := false)] == cs;
      DoubleFree(cs, b);
    } else {
      JoinedAgain(cs, b, size, r[i := c.(used := false)]);
    }
  }

  /** The two parts of a split chunk, both free, join to that chunk. */
  lemma JoinedAgain(cs: seq<Chunk>, b: nat, size: nat, r: seq<Chunk>)
    requires b < |cs| && !cs[b].used && (b + 1 < |cs| ==> cs[b + 1].used)
    requires var c := cs[b];
      r == cs[..b] + [Chunk(c.at, c.len - size - HEADER, false), Chunk(c.at + (c.len - size), size,
        false)] + cs[b + 1..]
    ensures MergeAt(r, b + 1) == r && MergeAt(r, b) == cs
  {
    assert r[b + 2..] == cs[b + 1..] && r[..b] == cs[..b];
    assert b + 2 < |r| ==> r[b + 2] == cs[b + 1];
    assert cs == cs[..b] + [cs[b]] + cs[b + 1..];
  }

  // ---------------------------------------------------------------- runs

  /** Only a free of its own address takes a chunk out of use. */
  lemma InUseStays(cs: seq<Chunk>, lo: int, hi: int, op: Op, c: Chunk)
    requires HeapOk(cs, lo, hi) && (op.Malloc? ==> NoSliver(cs, op.req)) && c in Used(cs)
    ensures op == Free(c.at + HEADER) || c in Used(Apply(cs, op))
  {
    match op
    case Malloc(req) =>
      if req != 0 && Best(cs, Rounded(req), |cs|) >= 0 { MallocTakes(cs, lo, hi, req); }
    case Free(p) =>
      if p != 0 && ChunkAt(cs, p, |cs|) >= 0 { FreeReleases(cs, lo, hi, p); }
  }

  /** Over every run of allocations and releases a chunk in use stays where it is and as long as it is,
      until its own address is freed. */
  lemma {:induction false} InUseUntilFreed(cs: seq<Chunk>, lo: int, hi: int, ops: seq<Op>, c: Chunk)
    requires HeapOk(cs, lo, hi) && Sound(cs, ops) && c in Used(cs)
    ensures Free(c.at + HEADER) in ops || c in Used(ApplyAll(cs, ops))
    decreases |ops|
  {
    if ops != [] {
      ApplyKeeps(cs, lo, hi, ops[0]);
      InUseStays(cs, lo, hi, ops[0], c);
      if ops[0] != Free(c.at + HEADER) { InUseUntilFreed(Apply(cs, ops[0]), lo, hi, ops[1..], c); }
    }
  }
}
