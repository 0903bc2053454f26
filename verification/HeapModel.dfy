/** The libc heap as a list of chunks in address order. */
module HeapModel {
  import opened Basics

  /** Bytes of a chunk header: the length word, whose lowest bit tells an allocated chunk, and
      the link word. */
  const HEADER: nat := 8

  /** A chunk: header address, bytes of payload, whether it is allocated. */
  datatype Chunk = Chunk(at: int, len: int, used: bool)

  function End(c: Chunk): int { c.at + HEADER + c.len }

  /** Chunk i + 1 starts where chunk i ends. */
  ghost predicate Abuts(cs: seq<Chunk>, i: int)
    requires 0 <= i < |cs| - 1
  {
    cs[i + 1].at == End(cs[i])
  }

  /** Chunks i and i + 1 are not both free. */
  ghost predicate Apart(cs: seq<Chunk>, i: int)
    requires 0 <= i < |cs| - 1
  {
    cs[i].used || cs[i + 1].used
  }

  ghost predicate Even4(cs: seq<Chunk>, i: int)
    requires 0 <= i < |cs|
  {
    cs[i].len % 4 == 0
  }

  /** The chunks cover [lo, hi) without gap or overlap, in address order. */
  ghost predicate Tiled(cs: seq<Chunk>, lo: int, hi: int) {
    && cs != [] && cs[0].at == lo && End(cs[|cs| - 1]) == hi
    && (forall i :: 0 <= i < |cs| ==> cs[i].len >= 0)
    && (forall i :: 0 <= i < |cs| ==> Even4(cs, i))
    && forall i :: 0 <= i < |cs| - 1 ==> Abuts(cs, i)
  }

  /** No two neighbouring chunks are both free. */
  ghost predicate Coalesced(cs: seq<Chunk>) {
    forall i :: 0 <= i < |cs| - 1 ==> Apart(cs, i)
  }

  ghost predicate HeapOk(cs: seq<Chunk>, lo: int, hi: int) {
    Tiled(cs, lo, hi) && Coalesced(cs)
  }

  // ---------------------------------------------------------------- allocation

  /** malloc's rounding of a request, in 32-bit arithmetic. */
  function Rounded(req: nat): (r: nat)
    ensures r % 4 == 0
  {
    (req + 3) / 4 * 4 % U32
  }

  lemma RoundedCovers(req: nat)
    requires req < U32
    ensures Rounded(req) >= req <==> req <= U32 - 4
  {
    if req <= U32 - 4 { assert (req + 3) / 4 * 4 < U32; } else { assert (req + 3) / 4 * 4 == U32; }
  }

  predicate Fits(cs: seq<Chunk>, i: int, size: nat)
    requires 0 <= i < |cs|
  {
    !cs[i].used && cs[i].len >= size
  }

  /** Index of the best free chunk among the first n, -1 if none is large enough. */
  function Best(cs: seq<Chunk>, size: nat, n: nat): (b: int)
    requires n <= |cs|
    ensures -1 <= b < n
    ensures b >= 0 ==> Fits(cs, b, size)
    ensures b >= 0 ==> forall j :: 0 <= j < n && Fits(cs, j, size) ==> cs[b].len <= cs[j].len
    ensures b < 0 ==> forall j :: 0 <= j < n ==> !Fits(cs, j, size)
    ensures forall j :: 0 <= j < b && Fits(cs, j, size) ==> cs[b].len < cs[j].len
  {
    if n == 0 then -1
    else
      var b := Best(cs, size, n - 1);
      if Fits(cs, n - 1, size) && (b < 0 || cs[n - 1].len < cs[b].len) then n - 1 else b
  }

  /** The chunks once `size` bytes of free chunk i are allocated: all of it, or its upper part. */
  function Allocated(cs: seq<Chunk>, i: nat, size: nat): seq<Chunk>
    requires i < |cs|
  {
    var c := cs[i];
    if c.len == size then cs[i := c.(used := true)]
    else
      cs[..i] + [Chunk(c.at, c.len - size - HEADER, false), Chunk(c.at + (c.len - size), size, true)] + cs[i + 1..]
  }

  /** Index of the chunk that Allocated allocates. */
  function AllocatedIndex(cs: seq<Chunk>, i: nat, size: nat): nat
    requires i < |cs|
  {
    if cs[i].len == size then i else i + 1
  }

  lemma AllocatedKeeps(cs: seq<Chunk>, lo: int, hi: int, i: nat, size: nat)
    requires HeapOk(cs, lo, hi) && i < |cs| && Fits(cs, i, size) && size % 4 == 0
    requires cs[i].len - size != 4
    ensures HeapOk(Allocated(cs, i, size), lo, hi)
    ensures var r := Allocated(cs, i, size)[AllocatedIndex(cs, i, size)]; r.used && r.len == size
  {
    var r := Allocated(cs, i, size);
    if i > 0 { assert Abuts(cs, i - 1) && Apart(cs, i - 1); }
    if i < |cs| - 1 { assert Abuts(cs, i) && Apart(cs, i); }
    assert Even4(cs, i);
    if cs[i].len == size {
      forall k | 0 <= k < |r| ensures Even4(r, k) { assert Even4(cs, k); }
      forall k | 0 <= k < |r| - 1 ensures Abuts(r, k) && Apart(r, k) { assert Abuts(cs, k) && Apart(cs, k); }
    } else {
      SplitKeeps(cs, lo, hi, i, size);
    }
  }

  lemma SplitKeeps(cs: seq<Chunk>, lo: int, hi: int, i: nat, size: nat)
    requires HeapOk(cs, lo, hi) && i < |cs| && Fits(cs, i, size) && size % 4 == 0
    requires cs[i].len - size > 4
    ensures HeapOk(Allocated(cs, i, size), lo, hi)
  {
    var r := Allocated(cs, i, size);
    assert forall k :: 0 <= k < i ==> r[k] == cs[k];
    assert forall k :: i + 2 <= k < |r| ==> r[k] == cs[k - 1];
    assert Even4(cs, i);
    forall k | 0 <= k < |r| ensures Even4(r, k) {
      if k < i { assert Even4(cs, k); } else if k > i + 1 { assert Even4(cs, k - 1); }
    }
    forall k | 0 <= k < |r| - 1 ensures Abuts(r, k) && Apart(r, k) {
      if k < i { assert Abuts(cs, k) && Apart(cs, k); }
      else if k > i { assert Abuts(cs, k - 1) && Apart(cs, k - 1); }
    }
  }

  // ---------------------------------------------------------------- release

  /** Chunk i joined with its successor when both are free. */
  function MergeAt(cs: seq<Chunk>, i: int): seq<Chunk> {
    if 0 <= i < |cs| - 1 && !cs[i].used && !cs[i + 1].used then
      cs[..i] + [cs[i].(len := cs[i].len + cs[i + 1].len + HEADER)] + cs[i + 2..]
    else cs
  }

  /** The chunks once chunk i is freed and joined with free neighbours. */
  function Freed(cs: seq<Chunk>, i: nat): seq<Chunk>
    requires i < |cs|
  {
    MergeAt(MergeAt(cs[i := cs[i].(used := false)], i), i - 1)
  }

  lemma MergeTiled(cs: seq<Chunk>, lo: int, hi: int, i: int)
    requires Tiled(cs, lo, hi)
    ensures Tiled(MergeAt(cs, i), lo, hi)
  {
    var r := MergeAt(cs, i);
    if r != cs {
      assert forall k :: 0 <= k < i ==> r[k] == cs[k];
      assert forall k :: i < k < |r| ==> r[k] == cs[k + 1];
      assert Abuts(cs, i) && Even4(cs, i) && Even4(cs, i + 1);
      forall k | 0 <= k < |r| ensures Even4(r, k) {
        if k < i { assert Even4(cs, k); } else if k > i { assert Even4(cs, k + 1); }
      }
      forall k | 0 <= k < |r| - 1 ensures Abuts(r, k) {
        if k < i { assert Abuts(cs, k); } else { assert Abuts(cs, k + 1); }
      }
    }
  }

  /** Two neighbours are both free only at the given places. */
  ghost predicate CoalescedBut(cs: seq<Chunk>, a: int, b: int) {
    forall i :: 0 <= i < |cs| - 1 && i != a && i != b ==> Apart(cs, i)
  }

  lemma FreedKeeps(cs: seq<Chunk>, lo: int, hi: int, i: nat)
    requires HeapOk(cs, lo, hi) && i < |cs|
    ensures HeapOk(Freed(cs, i), lo, hi)
  {
    var c1 := cs[i := cs[i].(used := false)];
    forall k | 0 <= k < |c1| - 1 ensures Abuts(c1, k) { assert Abuts(cs, k); }
    forall k | 0 <= k < |c1| ensures Even4(c1, k) { assert Even4(cs, k); }
    forall k | 0 <= k < |c1| - 1 && k != i && k != i - 1 ensures Apart(c1, k) { assert Apart(cs, k); }
    var c2 := MergeAt(c1, i);
    MergeTiled(c1, lo, hi, i);
    assert i + 2 < |cs| ==> Apart(cs, i + 1);
    MergeCoalesces(c1, i, i - 1);
    MergeTiled(c2, lo, hi, i - 1);
    assert c2[i].used == false && (i + 1 < |c2| ==> c2[i + 1].used) by { assert i + 1 < |c2| ==> Apart(c2, i); }
    MergeCoalesces(c2, i - 1, -2);
    forall k | 0 <= k < |Freed(cs, i)| - 1 ensures Apart(Freed(cs, i), k) { }
  }

  /** Merging at one of the two places leaves only the place before it. */
  lemma MergeCoalesces(cs: seq<Chunk>, i: int, b: int)
    requires CoalescedBut(cs, i, b) && b < i && i >= -1
    requires 0 <= i < |cs| - 2 ==> cs[i + 1].used || cs[i + 2].used
    ensures CoalescedBut(MergeAt(cs, i), b, b)
  {
    var r := MergeAt(cs, i);
    if r != cs {
      assert forall k :: 0 <= k < i ==> r[k] == cs[k];
      assert forall k :: i < k < |r| ==> r[k] == cs[k + 1];
      forall k | 0 <= k < |r| - 1 && k != b ensures Apart(r, k) {
        if k < i { assert Apart(cs, k); } else if k > i { assert Apart(cs, k + 1); }
      }
    } else {
      forall k | 0 <= k < |r| - 1 && k != b ensures Apart(r, k) {
        if k != i { assert Apart(cs, k); }
      }
    }
  }

  /** Freeing a free chunk again changes nothing. */
  lemma DoubleFree(cs: seq<Chunk>, i: nat)
    requires Coalesced(cs) && i < |cs| && !cs[i].used
    ensures Freed(cs, i) == cs
  {
    assert cs[i := cs[i].(used := false)] == cs;
    assert i < |cs| - 1 ==> Apart(cs, i);
    assert i > 0 ==> Apart(cs, i - 1);
  }

  // ---------------------------------------------------------------- consequences

  lemma {:induction false} LaterIsHigher(cs: seq<Chunk>, lo: int, hi: int, i: nat, j: nat)
    requires Tiled(cs, lo, hi) && i < j < |cs|
    ensures End(cs[i]) <= cs[j].at
    decreases j
  {
    assert Abuts(cs, j - 1);
    if i + 1 < j { LaterIsHigher(cs, lo, hi, i, j - 1); }
  }

  /** The payloads of different chunks are disjoint and lie in the heap. */
  lemma PayloadsDisjoint(cs: seq<Chunk>, lo: int, hi: int, i: nat, j: nat)
    requires Tiled(cs, lo, hi) && i < |cs| && j < |cs| && i != j
    ensures End(cs[i]) <= cs[j].at + HEADER || End(cs[j]) <= cs[i].at + HEADER
    ensures lo <= cs[i].at && End(cs[i]) <= hi
  {
    if i < j { LaterIsHigher(cs, lo, hi, i, j); } else { LaterIsHigher(cs, lo, hi, j, i); }
    if i > 0 { LaterIsHigher(cs, lo, hi, 0, i); }
    if i < |cs| - 1 { LaterIsHigher(cs, lo, hi, i, |cs| - 1); }
  }

  /** Bytes of headers and payloads. */
  function Bytes(cs: seq<Chunk>): int {
    if cs == [] then 0 else Bytes(cs[..|cs| - 1]) + HEADER + cs[|cs| - 1].len
  }

  lemma {:induction false} BytesConserved(cs: seq<Chunk>, lo: int, hi: int)
    requires Tiled(cs, lo, hi)
    ensures Bytes(cs) == hi - lo
    decreases |cs|
  {
    if |cs| > 1 {
      var k := |cs| - 2;
      var front := cs[..|cs| - 1];
      assert Abuts(cs, k);
      forall j | 0 <= j < |front| - 1 ensures Abuts(front, j) { assert Abuts(cs, j); }
      forall j | 0 <= j < |front| ensures Even4(front, j) { assert Even4(cs, j); }
      BytesConserved(front, lo, End(cs[k]));
    } else {
      assert cs[..0] == [];
    }
  }

  // ---------------------------------------------------------------- runs

  datatype Op = Malloc(req: nat) | Free(p: int)

  /** The chunk whose payload starts at p, -1 if there is none. */
  function ChunkAt(cs: seq<Chunk>, p: int, n: nat): (i: int)
    requires n <= |cs|
    ensures -1 <= i < n
    ensures i >= 0 ==> cs[i].at + HEADER == p
    ensures i < 0 ==> forall j :: 0 <= j < n ==> cs[j].at + HEADER != p
  {
    if n == 0 then -1
    else if ChunkAt(cs, p, n - 1) >= 0 then ChunkAt(cs, p, n - 1)
    else if cs[n - 1].at + HEADER == p then n - 1 else -1
  }

  /** The best chunk for a request leaves room for a header, or nothing. */
  predicate NoSliver(cs: seq<Chunk>, req: nat) {
    var b := Best(cs, Rounded(req), |cs|);
    req == 0 || b < 0 || cs[b].len - Rounded(req) != 4
  }

  function Apply(cs: seq<Chunk>, op: Op): seq<Chunk> {
    match op
    case Malloc(req) =>
      var b := Best(cs, Rounded(req), |cs|);
      if req == 0 || b < 0 then cs else Allocated(cs, b, Rounded(req))
    case Free(p) =>
      var i := ChunkAt(cs, p, |cs|);
      if p == 0 || i < 0 then cs else Freed(cs, i)
  }

  ghost predicate Sound(cs: seq<Chunk>, ops: seq<Op>)
    decreases |ops|
  {
    ops == [] || ((ops[0].Malloc? ==> NoSliver(cs, ops[0].req)) && Sound(Apply(cs, ops[0]), ops[1..]))
  }

  function ApplyAll(cs: seq<Chunk>, ops: seq<Op>): seq<Chunk>
    decreases |ops|
  {
    if ops == [] then cs else ApplyAll(Apply(cs, ops[0]), ops[1..])
  }

  lemma ApplyKeeps(cs: seq<Chunk>, lo: int, hi: int, op: Op)
    requires HeapOk(cs, lo, hi) && (op.Malloc? ==> NoSliver(cs, op.req))
    ensures HeapOk(Apply(cs, op), lo, hi) && Bytes(Apply(cs, op)) == Bytes(cs)
  {
    match op {
      case Malloc(req) =>
        var b := Best(cs, Rounded(req), |cs|);
        if req != 0 && b >= 0 { AllocatedKeeps(cs, lo, hi, b, Rounded(req)); }
      case Free(p) =>
        var i := ChunkAt(cs, p, |cs|);
        if p != 0 && i >= 0 { FreedKeeps(cs, lo, hi, i); }
    }
    BytesConserved(cs, lo, hi);
    BytesConserved(Apply(cs, op), lo, hi);
  }

  /** Over every sequence of allocations and releases, even of foreign or already freed
      addresses, the chunks tile the heap, bytes are conserved and no neighbours are free. */
  lemma {:induction false} HeapStaysOk(cs: seq<Chunk>, lo: int, hi: int, ops: seq<Op>)
    requires HeapOk(cs, lo, hi) && Sound(cs, ops)
    ensures HeapOk(ApplyAll(cs, ops), lo, hi)
    ensures Bytes(ApplyAll(cs, ops)) == Bytes(cs)
    decreases |ops|
  {
    if ops != [] {
      ApplyKeeps(cs, lo, hi, ops[0]);
      HeapStaysOk(Apply(cs, ops[0]), lo, hi, ops[1..]);
    }
  }
}
