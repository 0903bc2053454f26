/** The physical memory manager: a table with the owner of every block, and the memory itself.
    Regions are naturally aligned runs of a power-of-two number of blocks, found first fit, and
    a process's own blocks count as free when its region is reallocated. */
module Memory {
  import opened Basics
  import opened Blocks

  /** Every block of the run is free or belongs to pid. */
  predicate Usable(sts: seq<int>, pid: int, b: nat, n: nat)
    requires b + n <= |sts|
  {
    forall i :: b <= i < b + n ==> sts[i] == pid || sts[i] <= 0
  }

  /** Block b can start a region of n blocks for pid. */
  predicate Candidate(sts: seq<int>, pid: int, rsvd: nat, b: int, n: nat) {
    && n > 0 && rsvd <= b && Aligned(b, n) && b + n <= |sts|
    && Usable(sts, pid, b, n)
  }

  /** The first candidate at or after the aligned block b, -1 if there is none. */
  function FirstFit(sts: seq<int>, pid: int, rsvd: nat, b: nat, n: nat): (r: int)
    requires n > 0
    ensures r < 0 ==> r == -1
    ensures r >= 0 ==> b <= r && Candidate(sts, pid, rsvd, r, n)
    decreases |sts| - b
  {
    if b >= |sts| then -1
    else if Candidate(sts, pid, rsvd, b, n) then b
    else FirstFit(sts, pid, rsvd, b + n, n)
  }

  /** FirstFit skips no candidate. */
  lemma {:induction false} FirstFitIsFirst(sts: seq<int>, pid: int, rsvd: nat, b: nat, n: nat, c: nat)
    requires n > 0 && Aligned(b, n) && b <= c && Candidate(sts, pid, rsvd, c, n)
    ensures 0 <= FirstFit(sts, pid, rsvd, b, n) <= c
    decreases |sts| - b
  {
    if !Candidate(sts, pid, rsvd, b, n) {
      NextAligned(b, n, c);
      FirstFitIsFirst(sts, pid, rsvd, b + n, n, c);
    }
  }

  lemma NextAligned(b: nat, n: nat, c: nat)
    requires n > 0 && Aligned(b, n) && Aligned(c, n) && b <= c
    ensures Aligned(b + n, n)
    ensures b < c ==> b + n <= c
  {
    var u, v := b / n, c / n;
    assert b == n * u && c == n * v;
    MulDistributes(n, u, 1);
    MultipleMod(n, u + 1);
    if v <= u {
      Multiples(n, v, 0, u);
    } else {
      Multiples(n, u, 1, v);
    }
  }

  /** The table with v in the n blocks from b. */
  function Fill(sts: seq<int>, b: nat, n: nat, v: int): (r: seq<int>)
    ensures |r| == |sts|
    ensures forall i :: 0 <= i < |sts| ==> r[i] == if b <= i < b + n then v else sts[i]
  {
    seq(|sts|, i requires 0 <= i < |sts| => if b <= i < b + n then v else sts[i])
  }

  /** The owner table and the address mem_realloc returns, 0 if it fails. */
  function Reallocated(sts: seq<int>, pid: int, rsvd: nat, addr: nat, oldSz: nat, newSz: nat): (seq<int>, nat) {
    var n := Count(newSz);
    var f := FirstFit(sts, pid, rsvd, 0, n);
    if f < 0 then (sts, 0)
    else
      var cleared := if addr != 0 && addr != f * BLOCK then Fill(sts, addr / BLOCK, Count(oldSz), 0) else sts;
      (Fill(cleared, f, n, pid), f * BLOCK)
  }

  /** The n-block region of pid at address addr, of a process whose recorded size is sz. */
  predicate Region(sts: seq<int>, pid: int, rsvd: nat, addr: nat, sz: nat) {
    && addr % BLOCK == 0
    && rsvd <= addr / BLOCK
    && Aligned(addr / BLOCK, Count(sz))
    && addr / BLOCK + Count(sz) <= |sts|
    && forall i :: addr / BLOCK <= i < addr / BLOCK + Count(sz) ==> sts[i] == pid
  }

  /** Where a reallocation moves a region, it moves it down or clear of the old one, so that a
      copy in ascending order never overwrites what it has yet to read. */
  lemma MoveIsForward(sts: seq<int>, pid: int, rsvd: nat, addr: nat, oldSz: nat, newSz: nat)
    requires Region(sts, pid, rsvd, addr, oldSz)
    requires FirstFit(sts, pid, rsvd, 0, Count(newSz)) >= 0
    ensures
      var f, b := FirstFit(sts, pid, rsvd, 0, Count(newSz)), addr / BLOCK;
      f <= b || (b + Count(oldSz) <= f && Count(oldSz) <= Count(newSz))
  {
    var f, b, o, n := FirstFit(sts, pid, rsvd, 0, Count(newSz)), addr / BLOCK, Count(oldSz), Count(newSz);
    CountIsLeast(oldSz);
    CountIsLeast(newSz);
    if o <= n {
      AlignedNest(b, o, f, n);
    } else {
      AlignedSub(b, n, o);
      FirstFitIsFirst(sts, pid, rsvd, 0, n, b);
    }
  }

  /** A run aligned to a power of two is aligned to every smaller one. */
  lemma AlignedSub(b: nat, n: nat, o: nat)
    requires IsPow2(n) && IsPow2(o) && 0 < n <= o && Aligned(b, o)
    ensures Aligned(b, n)
  {
    var m := Divides(n, o);
    assert b == o * (b / o);
    MulAssoc(n, m, b / o);
    MultipleMod(n, m * (b / o));
  }

  /** Block i belongs to another process. */
  predicate Foreign(sts: seq<int>, pid: int, i: nat)
    requires i < |sts|
  {
    sts[i] > 0 && sts[i] != pid
  }

  /** Beyond the n blocks from b, a range of len bytes from b meets no block of another process. */
  predicate Clear(sts: seq<int>, pid: int, b: nat, n: nat, len: nat) {
    forall i :: b + n <= i < |sts| && i * BLOCK < b * BLOCK + len ==> !Foreign(sts, pid, i)
  }

  /** Memory after a copy of len bytes. */
  function Copied(bytes: seq<bv8>, dst: nat, src: nat, len: nat): (r: seq<bv8>)
    requires dst + len <= |bytes| && src + len <= |bytes|
    ensures |r| == |bytes|
  {
    bytes[..dst] + bytes[src..src + len] + bytes[dst + len..]
  }

  /** No byte in a block of another process differs. */
  ghost predicate OthersKept(sts: seq<int>, pid: int, was: seq<bv8>, now: seq<bv8>) {
    && |was| == |now| == |sts| * BLOCK
    && forall j :: 0 <= j < |now| && Foreign(sts, pid, j / BLOCK) ==> now[j] == was[j]
  }

  /** The blocks that a copy into usable blocks from b can meet. */
  lemma CopyStaysClear(sts: seq<int>, pid: int, b: nat, n: nat, len: nat)
    requires b + n <= |sts| && Usable(sts, pid, b, n) && Clear(sts, pid, b, n, len)
    ensures forall j :: b * BLOCK <= j < b * BLOCK + len && j / BLOCK < |sts| ==> !Foreign(sts, pid, j / BLOCK)
  {
    forall j | b * BLOCK <= j < b * BLOCK + len && j / BLOCK < |sts| ensures !Foreign(sts, pid, j / BLOCK) {
      var i := j / BLOCK;
      assert i >= b + n ==> i * BLOCK <= j;
    }
  }

  lemma GrowthIsClear(sts: seq<int>, pid: int, b: nat, n: nat, len: nat)
    requires len <= n * BLOCK
    ensures Clear(sts, pid, b, n, len)
  {
  }

  lemma ClearKeepsOthers(sts: seq<int>, pid: int, b: nat, n: nat, addr: nat, len: nat, bytes: seq<bv8>)
    requires b + n <= |sts| && Usable(sts, pid, b, n) && Clear(sts, pid, b, n, len) && |bytes| == |sts| * BLOCK
    requires b * BLOCK + len <= |bytes| && addr + len <= |bytes|
    ensures OthersKept(sts, pid, bytes, Copied(bytes, b * BLOCK, addr, len))
  {
    CopyStaysClear(sts, pid, b, n, len);
    var now := Copied(bytes, b * BLOCK, addr, len);
    forall j | 0 <= j < |now| && Foreign(sts, pid, j / BLOCK) ensures now[j] == bytes[j] {
      assert j < b * BLOCK || b * BLOCK + len <= j;
    }
  }

  /** The copy of a region to another place touches no byte of another process, whatever the
      memory holds, if and only if no block of another process lies behind the new region within
      the old size. */
  lemma CopyKeepsOthersIff(sts: seq<int>, pid: int, b: nat, n: nat, addr: nat, len: nat)
    requires b + n <= |sts| && Usable(sts, pid, b, n)
    requires b * BLOCK + len <= |sts| * BLOCK && addr + len <= |sts| * BLOCK && addr != b * BLOCK
    ensures
      (forall bytes: seq<bv8> :: |bytes| == |sts| * BLOCK ==>
        OthersKept(sts, pid, bytes, Copied(bytes, b * BLOCK, addr, len)))
      <==> Clear(sts, pid, b, n, len)
  {
    var dst := b * BLOCK;
    if Clear(sts, pid, b, n, len) {
      forall bytes: seq<bv8> | |bytes| == |sts| * BLOCK
        ensures OthersKept(sts, pid, bytes, Copied(bytes, dst, addr, len)) {
        ClearKeepsOthers(sts, pid, b, n, addr, len, bytes);
      }
    } else {
      var i :| b + n <= i < |sts| && i * BLOCK < dst + len && Foreign(sts, pid, i);
      var bytes := Overwriting(sts, pid, i, dst, addr, len);
    }
  }

  /** Contents that show block i overwritten: one byte is set, the one copied to its start. */
  lemma Overwriting(sts: seq<int>, pid: int, i: nat, dst: nat, addr: nat, len: nat) returns (bytes: seq<bv8>)
    requires dst + len <= |sts| * BLOCK && addr + len <= |sts| * BLOCK && addr != dst
    requires dst <= i * BLOCK < dst + len && i < |sts| && Foreign(sts, pid, i)
    ensures |bytes| == |sts| * BLOCK && !OthersKept(sts, pid, bytes, Copied(bytes, dst, addr, len))
  {
    var j := i * BLOCK;
    var from := addr + (j - dst);
    bytes := seq(|sts| * BLOCK, k => if k == from then 1 else 0);
    assert Copied(bytes, dst, addr, len)[j] == 1 && bytes[j] == 0;
    assert Foreign(sts, pid, j / BLOCK);
  }

  class Memory {
    const sts: array<int>
    const bytes: array<bv8>
    const rsvd: nat

    ghost predicate Valid() {
      && rsvd >= 1
      && IsPow2(sts.Length) && sts.Length <= 0x8000
      && bytes.Length == sts.Length * BLOCK
    }

    /** mem_init. */
    constructor (blocks: nat, rsvd: nat)
      requires IsPow2(blocks) && blocks <= 0x8000 && rsvd >= 1
      ensures Valid() && fresh(sts) && fresh(bytes)
      ensures sts.Length == blocks && this.rsvd == rsvd && forall i :: 0 <= i < blocks ==> sts[i] == 0
    {
      sts := new int[blocks](_ => 0);
      bytes := new bv8[blocks * BLOCK];
      this.rsvd := rsvd;
    }

    /** _mem_blocks, in 16-bit arithmetic. */
    static method MemBlocks(size: nat) returns (n: nat)
      requires size < U32
      ensures n == Count(size) % U16
    {
      n := 1;
      if size != 0 {
        var s: nat := (size - 1) / BLOCK;
        ghost var c: nat := 1;
        while s != 0
          invariant n == Low16(c) && Scaled(c, s) == Count(size)
        {
          HalfScaled(c, s);
          DoubleLow(c);
          s := s / 2;
          n := Low16(n * 2);
          c := c * 2;
        }
      }
    }

    static ghost function Scaled(c: nat, s: nat): nat {
      c * Above(s)
    }

    static lemma HalfScaled(c: nat, s: nat)
      requires s > 0
      ensures Scaled(c * 2, s / 2) == Scaled(c, s)
    {
      Doubling(c, Above(s / 2));
    }

    static lemma Doubling(c: nat, a: nat)
      ensures c * (2 * a) == (c * 2) * a
    {
    }

    /** memcpy: ascending, byte by byte. */
    method Copy(dst: nat, src: nat, len: nat)
      requires dst + len <= bytes.Length && src + len <= bytes.Length
      requires dst <= src || src + len <= dst
      modifies bytes
      ensures bytes[dst..dst + len] == old(bytes[src..src + len])
      ensures forall j :: 0 <= j < bytes.Length && !(dst <= j < dst + len) ==> bytes[j] == old(bytes[j])
    {
      var k := 0;
      while k < len
        invariant 0 <= k <= len
        invariant forall j :: dst <= j < dst + k ==> bytes[j] == old(bytes[src - dst + j])
        invariant forall j :: 0 <= j < bytes.Length && !(dst <= j < dst + k) ==> bytes[j] == old(bytes[j])
      {
        ghost var was := bytes[src + k];
        assert was == old(bytes[src + k]);
        bytes[dst + k] := bytes[src + k];
        k := k + 1;
      }
    }

    /** Give n blocks from b to v. */
    method Mark(b: nat, n: nat, v: int)
      requires n > 0 ==> b + n <= sts.Length
      modifies sts
      ensures sts[..] == Fill(old(sts[..]), b, n, v)
    {
      var k := 0;
      while k < n
        invariant 0 <= k <= n
        invariant sts[..] == Fill(old(sts[..]), b, k, v)
      {
        sts[b + k] := v;
        k := k + 1;
      }
    }

    /** The scanning loops of mem_realloc. */
    method FindRun(pid: int, n: nat) returns (ok: bool, blk: nat)
      requires Valid() && n > 0
      requires IsPow2(n)
      ensures FirstFit(sts[..], pid, rsvd, 0, n) == if ok then blk else -1
    {
      blk := 0;
      ok := false;
      MultipleMod(n, 0);
      while blk < sts.Length
        invariant !ok && Aligned(blk, n)
        invariant FirstFit(sts[..], pid, rsvd, 0, n) == FirstFit(sts[..], pid, rsvd, blk, n)
        decreases sts.Length - blk
      {
        if blk >= rsvd {
          ok := true;
          if n <= sts.Length { Pow2Mod(n, sts.Length); AlignedFits(blk, n, sts.Length); }
          BelowRun(blk, n);
          var sblk := blk;
          while sblk < blk + n
            invariant blk <= sblk <= blk + n
            invariant ok && forall i :: blk <= i < sblk ==> sts[i] == pid || sts[i] <= 0
          {
            if sts[sblk] != pid && sts[sblk] > 0 {
              ok := false;
              break;
            }
            sblk := sblk + 1;
          }
          assert ok <==> Candidate(sts[..], pid, rsvd, blk, n);
          if ok { return; }
        }
        NextAligned(blk, n, blk);
        blk := blk + n;
      }
    }

    /** A positive aligned block is at least as high as the run it starts is long. */
    static lemma BelowRun(b: nat, n: nat)
      requires n > 0 && Aligned(b, n)
      ensures b > 0 ==> n <= b
    {
    }

    /** mem_realloc. The size must have a block count that fits 16 bits: for a larger one the
        count is truncated to 0 and the scan of the original never ends. */
    method Realloc(pid: int, addr: nat, oldSz: nat, newSz: nat) returns (r: nat)
      requires Valid() && pid > 0 && newSz <= 0x800_0000 && oldSz <= 0x800_0000
      requires addr != 0 ==> Region(sts[..], pid, rsvd, addr, oldSz)
      modifies sts, bytes
      ensures (sts[..], r) == Reallocated(old(sts[..]), pid, rsvd, addr, oldSz, newSz)
      // failure means that no candidate exists, success that the region is the first one
      ensures r == 0 ==> forall b :: !Candidate(old(sts[..]), pid, rsvd, b, Count(newSz))
      ensures r != 0 ==> Region(sts[..], pid, rsvd, r, newSz) &&
                         forall b :: Candidate(old(sts[..]), pid, rsvd, b, Count(newSz)) ==> r / BLOCK <= b
      // the old contents arrive, whether or not the regions overlap
      ensures r != 0 && addr != 0 ==> r + oldSz <= bytes.Length && addr + oldSz <= bytes.Length
      ensures r != 0 && addr != 0 ==> bytes[..] == Copied(old(bytes[..]), r, addr, oldSz)
      ensures r == 0 || addr == 0 ==> bytes[..] == old(bytes[..])
      // a copy that fits the new region, as every growing one does, or that meets only free or own
      // blocks behind it, touches nobody else's memory
      ensures oldSz <= newSz ==> Clear(old(sts[..]), pid, r / BLOCK, Count(newSz), oldSz)
      ensures r == 0 || addr == 0 || addr == r || Clear(old(sts[..]), pid, r / BLOCK, Count(newSz), oldSz) ==>
                OthersKept(old(sts[..]), pid, old(bytes[..]), bytes[..])
    {
      ghost var t0, b0 := sts[..], bytes[..];
      CountTruncates(newSz);
      CountIsLeast(newSz);
      var n := MemBlocks(newSz);
      var ok, blk := FindRun(pid, n);
      FirstOrNone(t0, pid, rsvd, addr, oldSz, newSz);
      if !ok { return 0; }
      r := blk * BLOCK;
      Place(pid, addr, oldSz, newSz, blk, n);
      if oldSz <= newSz { GrowthIsClear(t0, pid, blk, n, oldSz); }
      if addr != 0 && Clear(t0, pid, blk, n, oldSz) { ClearKeepsOthers(t0, pid, blk, n, addr, oldSz, b0); }
    }

    /** The end of mem_realloc, once a run is found. */
    method Place(pid: int, addr: nat, oldSz: nat, newSz: nat, blk: nat, n: nat)
      requires Valid() && pid > 0 && newSz <= 0x800_0000 && oldSz <= 0x800_0000 && n == Count(newSz)
      requires addr != 0 ==> Region(sts[..], pid, rsvd, addr, oldSz)
      requires blk == FirstFit(sts[..], pid, rsvd, 0, n)
      modifies sts, bytes
      ensures sts[..] == Reallocated(old(sts[..]), pid, rsvd, addr, oldSz, newSz).0
      ensures addr != 0 ==> blk * BLOCK + oldSz <= bytes.Length && addr + oldSz <= bytes.Length
      ensures addr != 0 ==> bytes[..] == Copied(old(bytes[..]), blk * BLOCK, addr, oldSz)
      ensures addr == 0 ==> bytes[..] == old(bytes[..])
    {
      ghost var t0, b0 := sts[..], bytes[..];
      if addr != 0 {
        RegionBytes(t0, pid, rsvd, addr, oldSz, bytes.Length);
        MoveIsForward(t0, pid, rsvd, addr, oldSz, newSz);
        CountIsLeast(oldSz);
        CountIsLeast(newSz);
        if addr != blk * BLOCK {
          Move(addr, oldSz, blk * BLOCK);
        } else {
          assert b0 == Copied(b0, addr, addr, oldSz);
        }
      }
      Mark(blk, n, pid);
    }

    /** Copy the contents of a region that moves and give up its old blocks. */
    method Move(addr: nat, oldSz: nat, r: nat)
      requires oldSz <= 0x800_0000 && bytes.Length == sts.Length * BLOCK
      requires addr % BLOCK == 0 && addr / BLOCK + Count(oldSz) <= sts.Length
      requires r <= addr || (addr + Count(oldSz) * BLOCK <= r && r + oldSz <= bytes.Length)
      modifies sts, bytes
      ensures r + oldSz <= bytes.Length && addr + oldSz <= bytes.Length
      ensures bytes[..] == Copied(old(bytes[..]), r, addr, oldSz)
      ensures sts[..] == Fill(old(sts[..]), addr / BLOCK, Count(oldSz), 0)
    {
      CountIsLeast(oldSz);
      CountTruncates(oldSz);
      ghost var b0 := bytes[..];
      Copy(r, addr, oldSz);
      assert bytes[..] == Copied(b0, r, addr, oldSz);
      var o := MemBlocks(oldSz);
      Mark(addr / BLOCK, o, 0);
    }

    /** The address is 0 only without any candidate; otherwise it is the first one, and the table
        gives the new region to pid. */
    static lemma FirstOrNone(t: seq<int>, pid: int, rsvd: nat, addr: nat, oldSz: nat, newSz: nat)
      requires rsvd >= 1
      ensures
        var (t1, r) := Reallocated(t, pid, rsvd, addr, oldSz, newSz);
        if r == 0 then forall b :: !Candidate(t, pid, rsvd, b, Count(newSz))
        else r / BLOCK == FirstFit(t, pid, rsvd, 0, Count(newSz)) && Region(t1, pid, rsvd, r, newSz)
             && forall b :: Candidate(t, pid, rsvd, b, Count(newSz)) ==> r / BLOCK <= b
    {
      var n := Count(newSz);
      MultipleMod(n, 0);
      forall b | Candidate(t, pid, rsvd, b, n) ensures 0 <= FirstFit(t, pid, rsvd, 0, n) <= b {
        FirstFitIsFirst(t, pid, rsvd, 0, n, b);
      }
    }

    static lemma RegionBytes(t: seq<int>, pid: int, rsvd: nat, addr: nat, sz: nat, total: nat)
      requires Region(t, pid, rsvd, addr, sz) && total == |t| * BLOCK
      ensures addr + sz <= total && addr == addr / BLOCK * BLOCK
    {
      CountIsLeast(sz);
    }

    /** mem_free; for more than 128 MiB the truncated count is 0 and nothing is freed. */
    method Free(addr: nat, sz: nat)
      requires sz < U32 && (sz <= 0x800_0000 ==> addr / BLOCK + Count(sz) <= sts.Length)
      modifies sts
      ensures sts[..] == if sz <= 0x800_0000 then Fill(old(sts[..]), addr / BLOCK, Count(sz), 0) else old(sts[..])
    {
      CountTruncates(sz);
      var n := MemBlocks(sz);
      Mark(addr / BLOCK, n, 0);
      assert n == 0 ==> sts[..] == old(sts[..]);
    }

    /** The mask mem_setup_mmu computes, in 32- and 16-bit arithmetic. */
    static method MmuMask(sz: nat) returns (mask: nat)
      requires sz < U32
      ensures mask == MaskOf(sz)
    {
      mask := 0;
      var s: nat := Less1(sz) / BLOCK;
      while s != 0
        invariant Shifted(s, mask) == MaskOf(sz)
        decreases s
      {
        s := s / 2;
        mask := Low16(mask * 2 + 1);
      }
    }
  }

  /** The mask after the remaining bits of s have been shifted in. */
  function Shifted(s: nat, mask: nat): nat {
    if s == 0 then mask else Shifted(s / 2, Low16(mask * 2 + 1))
  }

  /** One less, in 32 bits. */
  function Less1(sz: nat): nat
    requires sz < U32
  {
    (sz + U32 - 1) % U32
  }

  function MaskOf(sz: nat): nat
    requires sz < U32
  {
    Shifted(Less1(sz) / BLOCK, 0)
  }

  /** Shifting in all bits of s multiplies mask + 1 by the least power of two above s. */
  lemma {:induction false} ShiftedIsAbove(s: nat, c: nat)
    requires c >= 1
    ensures c * Above(s) >= 1 && Shifted(s, Low16(c - 1)) == Low16(c * Above(s) - 1)
    decreases s
  {
    Monotone(c, 1, Above(s));
    if s != 0 {
      Memory.Doubling(c, Above(s / 2));
      ShiftedIsAbove(s / 2, c * 2);
      DoubleLow(c - 1);
      assert (c - 1) * 2 + 1 == c * 2 - 1;
    }
  }

  /** The mask covers exactly the blocks of the region, in 16 bits, unless the size is 0: then
      it opens the whole address space although one block is allocated. */
  lemma MaskMatchesCount(sz: nat)
    requires sz < U32
    ensures Low16(MaskOf(sz) + 1) == Low16(Count(sz)) <==> sz != 0
    ensures 0 < sz <= 0x800_0000 ==> MaskOf(sz) == Count(sz) - 1
  {
    if sz == 0 {
      MaskOfCount(U32, 0);
      CountTruncates(U32);
      LowPlusOne(Count(U32));
    } else {
      MaskOfCount(sz, sz);
      CountTruncates(sz);
      LowPlusOne(Count(sz));
      if sz <= 0x800_0000 { assert Low16(Count(sz) - 1) == Count(sz) - 1; }
    }
  }

  lemma MaskOfCount(sz: nat, low: nat)
    requires 0 < sz <= U32 && low == if sz == U32 then 0 else sz
    ensures Count(sz) >= 1 && MaskOf(low) == Low16(Count(sz) - 1)
  {
    assert Less1(low) == sz - 1;
    ShiftedIsAbove((sz - 1) / BLOCK, 1);
    assert 1 * Above((sz - 1) / BLOCK) == Count(sz);
  }
}
