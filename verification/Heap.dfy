/** malloc and free over memory that holds its own chunk headers. */
module Heap {
  import opened Basics
  import opened HeapModel

  /** The header of chunk i lies in memory: length and flag in one word, then the address of the
      next header, 0 at the end. */
  ghost predicate HeaderAt(m: seq<int>, cs: seq<Chunk>, i: int)
    requires 0 <= i < |cs|
  {
    var c := cs[i];
    && 0 < c.at && c.at + HEADER <= |m|
    && m[c.at] == c.len + (if c.used then 1 else 0)
    && m[c.at + 4] == if i + 1 < |cs| then cs[i + 1].at else 0
  }

  ghost predicate InBand(m: seq<int>, cs: seq<Chunk>) {
    forall i :: 0 <= i < |cs| ==> HeaderAt(m, cs, i)
  }

  /** Memory as words indexed by byte address; words at multiples of four from the heap base. */
  class Heap {
    const mem: array<int>
    const lo: nat
    ghost var chunks: seq<Chunk>

    ghost predicate Valid()
      reads this, mem
    {
      && 0 < lo
      && HeapOk(chunks, lo, mem.Length)
      && InBand(mem[..], chunks)
    }

    /** __mem_init: one free chunk from lo to the end of memory. */
    constructor (lo: nat, hi: nat)
      requires 0 < lo && lo + HEADER <= hi && (hi - lo) % 4 == 0
      ensures Valid() && fresh(mem) && this.lo == lo && mem.Length == hi
      ensures chunks == [Chunk(lo, hi - lo - HEADER, false)]
    {
      mem := new int[hi](_ => 0);
      this.lo := lo;
      chunks := [Chunk(lo, hi - lo - HEADER, false)];
      new;
      mem[lo] := hi - lo - HEADER;
      mem[lo + 4] := 0;
    }

    /** _find_chunk: the address of the best free chunk, 0 if none is large enough. */
    method FindChunk(size: nat) returns (best: int)
      requires Valid()
      ensures var b := Best(chunks, size, |chunks|); best == if b < 0 then 0 else chunks[b].at
    {
      HeadersAbove(chunks, lo, mem.Length);
      best := 0;
      var diff := 0;
      var pch := lo;
      ghost var k := 0;
      while pch != 0
        invariant 0 <= k <= |chunks|
        invariant pch == if k < |chunks| then chunks[k].at else 0
        invariant pch == 0 <==> k == |chunks|
        invariant BestIs(chunks, size, k, best, diff)
        decreases |chunks| - k
      {
        ReadHeader(mem[..], chunks, lo, k);
        var exact;
        exact, best, diff := Consider(mem[pch], pch, size, best, diff, chunks, k);
        if exact {
          ExactIsBest(chunks, size, k, |chunks|);
          return pch;
        }
        pch := mem[pch + 4];
        k := k + 1;
      }
    }

    /** Address and slack of the best chunk so far. */
    static ghost predicate BestIs(cs: seq<Chunk>, size: nat, k: nat, best: int, diff: int)
      requires k <= |cs|
    {
      var b := Best(cs, size, k);
      if b < 0 then best == 0 else best == cs[b].at > 0 && diff == cs[b].len - size > 0
    }

    /** One chunk of the search: is it exactly right, and if not, the best chunk so far. */
    static method Consider(len: int, pch: int, size: nat, best0: int, diff0: int, ghost cs: seq<Chunk>, ghost k: nat)
        returns (exact: bool, best: int, diff: int)
      requires k < |cs| && 0 < pch == cs[k].at && BestIs(cs, size, k, best0, diff0)
      requires len == cs[k].len + (if cs[k].used then 1 else 0) && len % 2 == if cs[k].used then 1 else 0
      ensures exact <==> !cs[k].used && cs[k].len == size
      ensures !exact ==> BestIs(cs, size, k + 1, best, diff)
    {
      exact, best, diff := false, best0, diff0;
      BestStep(cs, size, k);
      if len % 2 == 0 {
        if len == size {
          exact := true;
        } else if len > size {
          if best == 0 || len - size < diff {
            best := pch;
            diff := len - size;
          }
        }
      }
    }

    static lemma BestStep(cs: seq<Chunk>, size: nat, k: nat)
      requires k < |cs|
      ensures var b := Best(cs, size, k);
        Best(cs, size, k + 1) == if !cs[k].used && cs[k].len >= size && (b < 0 || cs[k].len < cs[b].len) then k else b
    {
    }

    /** A free chunk of exactly the wanted size that no earlier one equals is best of all. */
    static lemma {:induction false} ExactIsBest(cs: seq<Chunk>, size: nat, k: nat, n: nat)
      requires k < n <= |cs| && !cs[k].used && cs[k].len == size
      requires var b := Best(cs, size, k); b < 0 || cs[b].len > size
      ensures Best(cs, size, n) == k
      decreases n
    {
      if k + 1 < n { ExactIsBest(cs, size, k, n - 1); }
    }

    /** malloc, with a heap that cannot grow. Returns 0 or the address of the payload. */
    method Malloc(req: nat) returns (p: int)
      requires Valid() && req < U32 && NoSliver(chunks, req)
      modifies this`chunks, mem
      ensures Valid() && chunks == Apply(old(chunks), HeapModel.Malloc(req))
      ensures p == 0 <==> req == 0 || Best(old(chunks), Rounded(req), |old(chunks)|) < 0
      ensures p != 0 ==>
                var b := Best(old(chunks), Rounded(req), |old(chunks)|);
                var k := AllocatedIndex(old(chunks), b, Rounded(req));
                && p == chunks[k].at + HEADER && chunks[k].used && chunks[k].len == Rounded(req)
                && (forall a :: 0 <= a < mem.Length && !(old(chunks)[b].at <= a < End(old(chunks)[b])) ==>
                  mem[a] == old(mem[a]))
      ensures p == 0 ==> mem[..] == old(mem[..])
    {
      if req == 0 { return 0; }
      var size := Rounded(req);
      var best := FindChunk(size);
      ghost var b := Best(chunks, size, |chunks|);
      if b >= 0 { ReadHeader(mem[..], chunks, lo, b); assert Even4(chunks, b); }
      if best == 0 { return 0; }
      AllocatedKeeps(chunks, lo, mem.Length, b, size);
      BlockInside(chunks, lo, mem.Length, b);
      if mem[best] == size {
        TakeWhole(b, best);
        return best + HEADER;
      } else {
        p := Split(b, best, size);
      }
    }

    static lemma BlockInside(cs: seq<Chunk>, lo: int, hi: int, i: nat)
      requires Tiled(cs, lo, hi) && i < |cs|
      ensures lo <= cs[i].at && End(cs[i]) <= hi
      ensures forall j :: 0 <= j < |cs| && j != i ==> End(cs[j]) <= cs[i].at || End(cs[i]) <= cs[j].at
    {
      forall j | 0 <= j < |cs| && j != i ensures End(cs[j]) <= cs[i].at || End(cs[i]) <= cs[j].at {
        if j < i { LaterIsHigher(cs, lo, hi, j, i); } else { LaterIsHigher(cs, lo, hi, i, j); }
      }
      if i > 0 { LaterIsHigher(cs, lo, hi, 0, i); }
      if i < |cs| - 1 { LaterIsHigher(cs, lo, hi, i, |cs| - 1); }
    }

    /** Mark a chunk of exactly the right size as allocated. */
    method TakeWhole(ghost b: nat, best: nat)
      requires Valid() && b < |chunks| && !chunks[b].used && best == chunks[b].at
      modifies this`chunks, mem
      ensures chunks == old(chunks)[b := old(chunks)[b].(used := true)]
      ensures InBand(mem[..], chunks)
      ensures forall a :: 0 <= a < mem.Length && a != old(chunks)[b].at ==> mem[a] == old(mem[a])
    {
      BlockInside(chunks, lo, mem.Length, b);
      forall j | 0 <= j < |chunks| ensures HeaderAt(mem[..], chunks, j) { }
      assert HeaderAt(mem[..], chunks, b);
      ghost var m0, c0 := mem[..], chunks;
      mem[best] := mem[best] + 1;
      chunks := chunks[b := chunks[b].(used := true)];
      forall j | 0 <= j < |chunks| ensures HeaderAt(mem[..], chunks, j) { assert HeaderAt(m0, c0, j); }
    }

    /** Give the upper `size` bytes of a larger free chunk away as a chunk of their own. */
    method Split(ghost b: nat, best: nat, size: nat) returns (p: int)
      requires Valid() && b < |chunks| && best == chunks[b].at
      requires !chunks[b].used && chunks[b].len - size > 4 && size % 4 == 0
      modifies this`chunks, mem
      ensures chunks == Allocated(old(chunks), b, size)
      ensures p == chunks[b + 1].at + HEADER
      ensures InBand(mem[..], chunks)
      ensures forall a :: 0 <= a < mem.Length && !(best <= a < End(old(chunks)[b])) ==> mem[a] == old(mem[a])
    {
      BlockInside(chunks, lo, mem.Length, b);
      assert HeaderAt(mem[..], chunks, b);
      var fst := best + (mem[best] - size);
      SplitInBand(mem[..], chunks, lo, b, size);
      mem[fst] := size + 1;
      mem[fst + 4] := mem[best + 4];
      mem[best] := mem[best] - (size + HEADER);
      mem[best + 4] := fst;
      assert mem[..] == SplitWords(old(mem[..]), best, size);
      chunks := Allocated(chunks, b, size);
      return fst + HEADER;
    }

    /** What the header words of chunk i tell. */
    static lemma ReadHeader(m: seq<int>, cs: seq<Chunk>, lo: int, i: nat)
      requires 0 < lo && Tiled(cs, lo, |m|) && InBand(m, cs) && i < |cs|
      ensures lo <= cs[i].at && End(cs[i]) <= |m|
      ensures m[cs[i].at] == cs[i].len + (if cs[i].used then 1 else 0)
      ensures m[cs[i].at] % 2 == if cs[i].used then 1 else 0
      ensures m[cs[i].at + 4] == if i + 1 < |cs| then cs[i + 1].at else 0
    {
      assert HeaderAt(m, cs, i) && Even4(cs, i);
      FlagBit(cs[i].len, cs[i].used);
      PayloadsDisjointOf(cs, lo, |m|, i);
    }

    /** A length is a multiple of four, so its lowest bit is free for the flag. */
    static lemma FlagBit(len: int, used: bool)
      requires len % 4 == 0
      ensures (len + (if used then 1 else 0)) % 2 == if used then 1 else 0
    {
      assert len == 2 * (2 * (len / 4));
    }

    /** No header is at address 0. */
    static lemma HeadersAbove(cs: seq<Chunk>, lo: int, hi: int)
      requires Tiled(cs, lo, hi)
      ensures forall i :: 0 <= i < |cs| ==> cs[i].at >= lo
    {
      forall i | 0 <= i < |cs| ensures cs[i].at >= lo { PayloadsDisjointOf(cs, lo, hi, i); }
    }

    /** Headers of chunks that stay where they are survive changes elsewhere. */
    static lemma HeaderKept(m: seq<int>, cs: seq<Chunk>, j: nat, m1: seq<int>, r: seq<Chunk>, k: nat)
      requires j < |cs| && k < |r| && HeaderAt(m, cs, j) && r[k] == cs[j] && |m1| == |m|
      requires m1[cs[j].at] == m[cs[j].at] && m1[cs[j].at + 4] == m[cs[j].at + 4]
      requires (if k + 1 < |r| then r[k + 1].at else 0) == if j + 1 < |cs| then cs[j + 1].at else 0
      ensures HeaderAt(m1, r, k)
    {
    }

    static lemma SplitInBand(m: seq<int>, cs: seq<Chunk>, lo: int, b: nat, size: nat)
      requires 0 < lo && HeapOk(cs, lo, |m|) && InBand(m, cs) && b < |cs|
      requires !cs[b].used && cs[b].len - size > 4 && size % 4 == 0
      ensures 0 <= cs[b].at && cs[b].at + cs[b].len + HEADER <= |m| && m[cs[b].at] == cs[b].len
      ensures InBand(SplitWords(m, cs[b].at, size), Allocated(cs, b, size))
    {
      PayloadsDisjointOf(cs, lo, |m|, b);
      assert HeaderAt(m, cs, b) && Even4(cs, b);
      var m1, r := SplitWords(m, cs[b].at, size), Allocated(cs, b, size);
      SplitHeaders(m, cs, lo, b, size);
      forall j | 0 <= j < |r| ensures HeaderAt(m1, r, j) {
        if j != b && j != b + 1 { SplitKeepsOther(m, cs, lo, b, size, if j < b then j else j - 1); }
      }
    }

    /** The headers of the two parts. */
    static lemma SplitHeaders(m: seq<int>, cs: seq<Chunk>, lo: int, b: nat, size: nat)
      requires b < |cs| && 0 < lo <= cs[b].at && HeaderAt(m, cs, b) && End(cs[b]) <= |m|
      requires !cs[b].used && cs[b].len - size > 4 && size % 4 == 0 && cs[b].len % 4 == 0
      ensures var m1, r := SplitWords(m, cs[b].at, size), Allocated(cs, b, size);
        |r| == |cs| + 1 && HeaderAt(m1, r, b) && HeaderAt(m1, r, b + 1)
    {
      var r := Allocated(cs, b, size);
      assert b + 2 < |r| ==> r[b + 2] == cs[b + 1];
    }

    /** The headers of the other chunks. */
    static lemma SplitKeepsOther(m: seq<int>, cs: seq<Chunk>, lo: int, b: nat, size: nat, j: nat)
      requires 0 < lo && Tiled(cs, lo, |m|) && InBand(m, cs) && b < |cs| && j < |cs| && j != b
      requires !cs[b].used && cs[b].len - size > 4
      ensures 0 <= cs[b].at && End(cs[b]) <= |m| && m[cs[b].at] == cs[b].len
      ensures HeaderAt(SplitWords(m, cs[b].at, size), Allocated(cs, b, size), if j < b then j else j + 1)
    {
      PayloadsDisjointOf(cs, lo, |m|, b);
      assert HeaderAt(m, cs, b) && HeaderAt(m, cs, j);
      var m1, r := SplitWords(m, cs[b].at, size), Allocated(cs, b, size);
      if j < b {
        LaterIsHigher(cs, lo, |m|, j, b);
        assert r[j] == cs[j] && (j + 1 < b ==> r[j + 1] == cs[j + 1]);
        HeaderKept(m, cs, j, m1, r, j);
      } else {
        LaterIsHigher(cs, lo, |m|, b, j);
        assert r[j + 1] == cs[j] && (j + 2 < |r| ==> r[j + 2] == cs[j + 1]);
        HeaderKept(m, cs, j, m1, r, j + 1);
      }
    }

    static lemma PayloadsDisjointOf(cs: seq<Chunk>, lo: int, hi: int, i: nat)
      requires Tiled(cs, lo, hi) && i < |cs|
      ensures lo <= cs[i].at && End(cs[i]) <= hi
    {
      if i > 0 { LaterIsHigher(cs, lo, hi, 0, i); }
      if i < |cs| - 1 { LaterIsHigher(cs, lo, hi, i, |cs| - 1); }
    }

    /** Join the chunk at a with the chunk at nx, its list successor or 0, if nx is free. */
    method Merge(ghost i: nat, a: nat, nx: int)
      requires 0 < lo && Tiled(chunks, lo, mem.Length) && InBand(mem[..], chunks)
      requires i < |chunks| && a == chunks[i].at && nx == if i + 1 < |chunks| then chunks[i + 1].at else 0
      requires !chunks[i].used
      modifies this`chunks, mem
      ensures Tiled(chunks, lo, mem.Length) && InBand(mem[..], chunks) && chunks == MergeAt(old(chunks), i)
      ensures forall x :: 0 <= x < mem.Length && x != a && x != a + 4 ==> mem[x] == old(mem[x])
    {
      ReadHeader(mem[..], chunks, lo, i);
      if i + 1 < |chunks| {
        ReadHeader(mem[..], chunks, lo, i + 1);
        assert Abuts(chunks, i);
      }
      if nx != 0 && mem[nx] % 2 == 0 && nx == mem[a] + HEADER + a {
        MergeTiled(chunks, lo, mem.Length, i);
        MergeInBand(mem[..], chunks, lo, i);
        mem[a] := mem[a] + mem[nx] + HEADER;
        mem[a + 4] := mem[nx + 4];
        chunks := MergeAt(chunks, i);
      }
    }

    static lemma MergeInBand(m: seq<int>, cs: seq<Chunk>, lo: int, i: nat)
      requires 0 < lo && Tiled(cs, lo, |m|) && InBand(m, cs) && i + 1 < |cs| && !cs[i].used && !cs[i + 1].used
      ensures
        var a, nx := cs[i].at, cs[i + 1].at;
        && 0 <= a && a + HEADER <= nx && nx + HEADER <= |m|
        && InBand(m[a := m[a] + m[nx] + HEADER][a + 4 := m[nx + 4]], MergeAt(cs, i))
    {
      ReadHeader(m, cs, lo, i);
      ReadHeader(m, cs, lo, i + 1);
      assert Abuts(cs, i);
      var a, nx, r := cs[i].at, cs[i + 1].at, MergeAt(cs, i);
      var m1 := m[a := m[a] + m[nx] + HEADER][a + 4 := m[nx + 4]];
      forall j | 0 <= j < |r| ensures HeaderAt(m1, r, j) {
        if j < i {
          assert HeaderAt(m, cs, j);
          LaterIsHigher(cs, lo, |m|, j, i);
          assert r[j] == cs[j];
          HeaderKept(m, cs, j, m1, r, j);
        } else if j > i {
          assert HeaderAt(m, cs, j + 1);
          LaterIsHigher(cs, lo, |m|, i, j + 1);
          assert r[j] == cs[j + 1] && (j + 1 < |r| ==> r[j + 1] == cs[j + 2]);
          HeaderKept(m, cs, j + 1, m1, r, j);
        } else {
          assert j + 1 < |r| ==> r[j + 1] == cs[j + 2];
        }
      }
    }

    /** Clear the flag of chunk i. */
    method Release(ghost i: nat, a: nat)
      requires 0 < lo && Tiled(chunks, lo, mem.Length) && InBand(mem[..], chunks) && i < |chunks| && a == chunks[i].at
      modifies this`chunks, mem
      ensures chunks == old(chunks)[i := old(chunks)[i].(used := false)]
      ensures Tiled(chunks, lo, mem.Length) && InBand(mem[..], chunks)
      ensures forall x :: 0 <= x < mem.Length && (x != a || !old(chunks)[i].used) ==> mem[x] == old(mem[x])
    {
      ghost var m0, c0 := mem[..], chunks;
      ReadHeader(m0, c0, lo, i);
      mem[a] := mem[a] - mem[a] % 2;
      chunks := chunks[i := chunks[i].(used := false)];
      forall j | 0 <= j < |chunks| - 1 ensures Abuts(chunks, j) { assert Abuts(c0, j); }
      forall j | 0 <= j < |chunks| ensures Even4(chunks, j) { assert Even4(c0, j); }
      forall j | 0 <= j < |chunks| ensures HeaderAt(mem[..], chunks, j) {
        assert HeaderAt(m0, c0, j);
        if j < i { LaterIsHigher(c0, lo, mem.Length, j, i); } else if j > i { LaterIsHigher(c0, lo, mem.Length, i, j); }
      }
    }

    /** free. An address that is not the payload of a chunk is ignored. */
    method Free(p: int)
      requires Valid()
      modifies this`chunks, mem
      ensures Valid() && chunks == Apply(old(chunks), HeapModel.Free(p))
      // only headers of the freed chunk and of its predecessor are written
      ensures var i := ChunkAt(old(chunks), p, |old(chunks)|);
              forall a :: 0 <= a < mem.Length && (p == 0 || i < 0 || !HeaderWord(old(chunks), i, a)) ==>
                mem[a] == old(mem[a])
    {
      if p == 0 { return; }
      HeadersAbove(chunks, lo, mem.Length);
      var hdr := p - HEADER;
      var pch: int := lo;
      var prev := 0;
      ghost var k := 0;
      while pch != 0
        invariant 0 <= k <= |chunks| && chunks == old(chunks) && mem[..] == old(mem[..])
        invariant Valid()
        invariant pch == if k < |chunks| then chunks[k].at else 0
        invariant prev == if k > 0 then chunks[k - 1].at else 0
        invariant pch == 0 <==> k == |chunks|
        invariant ChunkAt(chunks, p, k) == -1
        decreases |chunks| - k
      {
        assert HeaderAt(mem[..], chunks, k);
        if pch == hdr {
          ChunkFound(chunks, lo, mem.Length, p, k, |chunks|);
          FreedKeeps(chunks, lo, mem.Length, k);
          FreeChunk(k, pch, prev);
          return;
        }
        prev := pch;
        pch := mem[pch + 4];
        k := k + 1;
      }
    }

    /** Address a holds a header word of chunk i or of its predecessor. */
    static predicate HeaderWord(cs: seq<Chunk>, i: int, a: int)
      requires 0 <= i < |cs|
    {
      a == cs[i].at || a == cs[i].at + 4 || (i > 0 && (a == cs[i - 1].at || a == cs[i - 1].at + 4))
    }

    static lemma {:induction false} ChunkFound(cs: seq<Chunk>, lo: int, hi: int, p: int, k: nat, n: nat)
      requires Tiled(cs, lo, hi) && k < n <= |cs| && cs[k].at + HEADER == p && ChunkAt(cs, p, k) == -1
      ensures ChunkAt(cs, p, n) == k
      decreases n
    {
      if k + 1 < n { ChunkFound(cs, lo, hi, p, k, n - 1); }
    }

    /** Free chunk i at address a and join it with its free neighbours. */
    method FreeChunk(ghost i: nat, a: nat, prev: int)
      requires Valid() && i < |chunks| && a == chunks[i].at
      requires prev == if i > 0 then chunks[i - 1].at else 0
      modifies this`chunks, mem
      ensures Tiled(chunks, lo, mem.Length) && InBand(mem[..], chunks) && chunks == Freed(old(chunks), i)
      ensures forall x :: 0 <= x < mem.Length && !HeaderWord(old(chunks), i, x) ==> mem[x] == old(mem[x])
    {
      ReadHeader(mem[..], chunks, lo, i);
      if i > 0 { ReadHeader(mem[..], chunks, lo, i - 1); }
      var pnext := mem[a + 4];
      Release(i, a);
      Merge(i, a, pnext);
      if prev != 0 {
        ReadHeader(mem[..], chunks, lo, i - 1);
        if mem[prev] % 2 == 0 {
          Merge(i - 1, prev, a);
        }
      }
    }
  }

  /** Memory after the four stores that split the free chunk at best, in program order. */
  function SplitWords(m: seq<int>, best: nat, size: nat): (r: seq<int>)
    requires best + HEADER <= |m| && 0 <= best + (m[best] - size) && best + m[best] - size + HEADER <= |m|
    ensures |r| == |m|
  {
    var fst := best + (m[best] - size);
    var m1 := m[fst := size + 1];
    var m2 := m1[fst + 4 := m1[best + 4]];
    var m3 := m2[best := m2[best] - (size + HEADER)];
    m3[best + 4 := fst]
  }

  /** Splitting leaves two sound headers, the free part's and the allocated part's, linked to
      what followed, if and only if the part that is left over is not exactly four bytes: then
      the new header overlaps the old one. */
  lemma SplitSoundIff(m: seq<int>, best: nat, size: nat)
    requires best + HEADER <= |m| && m[best] > size && (m[best] - size) % 4 == 0
    requires best + m[best] + HEADER <= |m|
    ensures
      var r, fst := SplitWords(m, best, size), best + (m[best] - size);
      (r[best] >= 0 && best + HEADER + r[best] == fst && r[best + 4] == fst
        && r[fst] == size + 1 && r[fst + 4] == m[best + 4])
      <==> m[best] - size != 4
  {
  }
}
