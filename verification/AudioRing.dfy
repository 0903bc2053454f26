/** The 256-byte ring between a player and the audio interrupt: two producers that fill it in chunks
    while the interrupt may consume bytes at any moment. */
module AudioRing {
  import opened Frames

  const SIZE: nat := 256

  /** The first n bytes of a source. */
  ghost function Prefix(src: nat -> Byte, n: nat): seq<Byte> {
    seq(n, i requires 0 <= i < n => src(i))
  }

  lemma PrefixGrows(src: nat -> Byte, n: nat)
    ensures Prefix(src, n + 1) == Prefix(src, n) + [src(n)]
  {
  }

  /** Slot of the i-th byte. */
  function Slot(i: nat): (s: nat)
    ensures s < SIZE
  {
    i % SIZE
  }

  lemma SlotsDiffer(i: nat, j: nat)
    requires i < j < i + SIZE
    ensures Slot(i) != Slot(j)
  {
  }

  lemma SlotAhead(i: nat, n: nat)
    ensures (Slot(i) + n) % SIZE == Slot(i + n)
  {
  }

  class Ring {
    const buf: array<Byte>
    var rptr: nat
    var wptr: nat
    ghost var read: nat
    ghost var written: nat
    ghost var out: seq<Byte>

    /** The pointers are the counts of bytes read and written, less than 256 apart, modulo 256; what
        has come out is a prefix of the source; what is in between is in the ring. */
    ghost predicate Valid(src: nat -> Byte)
      reads this, buf
    {
      && buf.Length == SIZE && rptr == Slot(read) && wptr == Slot(written)
      && read <= written < read + SIZE && out == Prefix(src, read)
      && forall i :: read <= i < written ==> buf[Slot(i)] == src(i)
    }

    /** The next n bytes of the source are behind wptr already, with room for them. */
    ghost predicate Staged(src: nat -> Byte, n: nat, len: nat)
      reads this, buf
      requires buf.Length == SIZE
    {
      && n <= len && written + len < read + SIZE
      && forall i :: written <= i < written + n ==> buf[Slot(i)] == src(i)
    }

    constructor (ghost src: nat -> Byte)
      ensures Valid(src) && read == 0 && written == 0 && fresh(buf)
    {
      buf := new Byte[SIZE](_ => 0);
      rptr, wptr := 0, 0;
      read, written, out := 0, 0, [];
    }

    /** The ring looks empty only when it is. */
    lemma EmptyIff(src: nat -> Byte)
      requires Valid(src)
      ensures rptr == wptr <==> read == written
      ensures (wptr - rptr) % SIZE == written - read
    {
      if read < written { SlotsDiffer(read, written); }
    }

    /** rptr == wptr, as the interrupt tests it. */
    method IsEmpty(ghost src: nat -> Byte) returns (empty: bool)
      requires Valid(src)
      ensures empty <==> read == written
    {
      EmptyIff(src);
      empty := rptr == wptr;
    }

    /** The interrupt: it takes some of the bytes there are. */
    method Interrupt(ghost src: nat -> Byte)
      requires Valid(src)
      modifies `rptr, `read, `out
      ensures Valid(src) && old(read) <= read
    {
      EmptyIff(src);
      var used := (wptr - rptr) % SIZE;
      var n: nat :| n <= used;
      while n > 0
        invariant Valid(src) && n <= written - read && old(read) <= read
      {
        var _ := TakeByte(src);
        n := n - 1;
      }
    }

    method TakeByte(ghost src: nat -> Byte) returns (c: Byte)
      requires Valid(src) && read < written
      modifies `rptr, `read, `out
      ensures Valid(src) && read == old(read) + 1 && c == src(old(read))
    {
      PrefixGrows(src, read);
      SlotAhead(read, 1);
      c := buf[rptr];
      out := out + [c];
      rptr := (rptr + 1) % SIZE;
      read := read + 1;
    }

    /** One byte stored at index at, which is n bytes behind wptr in the ring. */
    method Stage(n: nat, at: nat, b: Byte, ghost src: nat -> Byte, ghost len: nat)
      requires Valid(src) && Staged(src, n, len) && n < len && b == src(written + n)
      requires at < SIZE && at == (wptr + n) % SIZE
      modifies `rptr, `read, `out, buf
      ensures Valid(src) && Staged(src, n + 1, len) && old(read) <= read
    {
      Interrupt(src);
      ghost var next := written + n;
      forall i | read <= i < next ensures Slot(i) != Slot(next) { SlotsDiffer(i, next); }
      SlotAhead(written, n);
      buf[at] := b;
    }

    /** wptr moves behind the staged bytes. */
    method Publish(len: nat, ghost src: nat -> Byte)
      requires Valid(src) && Staged(src, len, len)
      modifies `rptr, `read, `out, `wptr, `written
      ensures Valid(src) && written == old(written) + len && old(read) <= read
    {
      Interrupt(src);
      SlotAhead(written, len);
      wptr := (wptr + len) % SIZE;
      written := written + len;
    }

    /** One round of the file player's refill loop; left bytes of the file are still to come. */
    method RefillFromFile(src: nat -> Byte, at: nat, left: nat) returns (rest: nat)
      requires Valid(src) && at == written
      modifies `rptr, `read, `out, `wptr, `written, buf
      ensures Valid(src) && rest <= left && written == old(written) + (left - rest)
      ensures old(written - read) < 192 ==> left - rest == if left > 64 then 64 else left
    {
      EmptyIff(src);
      var used := (wptr - rptr) % SIZE;
      Interrupt(src);
      rest := left;
      if used < SIZE - 64 {
        var len := if left > 64 then 64 else left;
        var lc := SIZE - wptr;
        if lc >= len {
          FromFile(src, at, wptr, 0, len, len);
        } else {
          FromFile(src, at, wptr, 0, lc, len);
          FromFile(src, at, 0, lc, len - lc, len);
        }
        Publish(len, src);
        rest := left - len;
      }
    }

    /** read: n bytes of the file to the ring from index to on; the first is done bytes behind wptr. */
    method FromFile(src: nat -> Byte, at: nat, to: nat, done: nat, n: nat, ghost len: nat)
      requires Valid(src) && Staged(src, done, len) && done + n <= len && at == written
      requires to + n <= SIZE && (n > 0 ==> to == (wptr + done) % SIZE)
      modifies `rptr, `read, `out, buf
      ensures Valid(src) && Staged(src, done + n, len) && old(read) <= read
    {
      var i := 0;
      while i < n
        invariant 0 <= i <= n && Valid(src) && Staged(src, done + i, len) && old(read) <= read
      {
        assert (wptr + (done + i)) % SIZE == to + i;
        Stage(done + i, to + i, src(at + done + i), src, len);
        i := i + 1;
      }
    }
  }

  // ---------------------------------------------------------------- the looping player

  /** The i-th byte of d repeated for ever. */
  function Cyclic(d: seq<Byte>, i: nat): Byte
    requires d != []
  {
    if i < |d| then d[i] else Cyclic(d, i - |d|)
  }

  /** The repetition starts anew at byte base. */
  ghost predicate LapStart(d: seq<Byte>, base: nat)
    requires d != []
  {
    forall j: nat :: j < |d| ==> ByteOfLap(d, base, j)
  }

  ghost predicate ByteOfLap(d: seq<Byte>, base: nat, j: nat)
    requires j < |d|
  {
    Cyclic(d, base + j) == d[j]
  }

  lemma FirstLap(d: seq<Byte>)
    requires d != []
    ensures LapStart(d, 0)
  {
    forall j: nat | j < |d| ensures ByteOfLap(d, 0, j) { }
  }

  lemma NextLap(d: seq<Byte>, base: nat)
    requires d != [] && LapStart(d, base)
    ensures LapStart(d, base + |d|)
  {
    var next := base + |d|;
    forall j: nat | j < |d| ensures ByteOfLap(d, next, j) {
      assert ByteOfLap(d, base, j);
      assert next + j - |d| == base + j;
    }
  }

  /** A player that repeats its data: the ring, and how far into the data it is. */
  class Looper {
    const ring: Ring
    const data: seq<Byte>
    var dptr: nat
    ghost var base: nat

    ghost predicate Valid()
      reads this, ring, ring.buf
    {
      && |data| >= 32 && ring.Valid(Source()) && dptr <= |data|
      && LapStart(data, base) && ring.written == base + dptr && ring.written % 32 == 0
    }

    ghost function Source(): nat -> Byte
      reads this
      requires |data| >= 32
    {
      i => Cyclic(data, i)
    }

    constructor (data: seq<Byte>)
      requires |data| >= 32
      ensures Valid() && this.data == data && fresh(ring) && fresh(ring.buf)
    {
      this.data := data;
      ring := new Ring(i => Cyclic(data, i));
      dptr, base := 0, 0;
      FirstLap(data);
    }

    /** The bytes written so far are a multiple of 32, so that the next 32 slots do not wrap. */
    lemma RoomBeforeEnd()
      requires Valid()
      ensures ring.wptr + 32 <= SIZE
    {
      assert Slot(ring.written) % 32 == 0;
    }

    /** One round of vgm_update, when there is room for 32 bytes. */
    method Refill() returns (more: bool)
      requires Valid()
      modifies this, ring, ring.buf
      ensures Valid()
      ensures dptr == if more then NextDptr(|data|, old(dptr)) else old(dptr)
      ensures more <==> old(ring.written - ring.read) < 224
      ensures ring.written == old(ring.written) + if more then 32 else 0
    {
      ring.EmptyIff(Source());
      more := (ring.wptr - ring.rptr) % SIZE < SIZE - 32;
      if more {
        RoomBeforeEnd();
        var left := |data| - dptr;
        if left < 32 {
          Copy(0, dptr, left);
          CopyWrapped(left, 32 - left);
        } else {
          Copy(0, dptr, 32);
        }
        Advance(left);
      }
    }

    /** wptr and dptr move on, dptr into the next lap if this one had less than 32 bytes left. */
    method Advance(left: nat)
      requires Valid() && ring.Staged(Source(), 32, 32) && left == |data| - dptr
      modifies this, ring`rptr, ring`read, ring`out, ring`wptr, ring`written
      ensures Valid() && ring.written == old(ring.written) + 32 && dptr == NextDptr(|data|, old(dptr))
    {
      ring.Publish(32, Source());
      if left < 32 {
        NextLap(data, base);
        base, dptr := base + |data|, 32 - left;
      } else {
        dptr := dptr + 32;
      }
    }

    /** memcpy of n bytes of the data, from dptr on, to the buffer from wptr on. */
    method Copy(done: nat, from: nat, n: nat)
      requires Valid() && done == 0 && from == dptr && from + n <= |data| && n <= 32
      requires ring.wptr + 32 <= SIZE
      requires ring.Staged(Source(), 0, 32)
      modifies ring`rptr, ring`read, ring`out, ring.buf
      ensures Valid() && ring.Staged(Source(), n, 32)
    {
      var i := 0;
      while i < n
        invariant 0 <= i <= n && Valid() && ring.Staged(Source(), i, 32)
      {
        assert ByteOfLap(data, base, dptr + i);
        ring.Stage(i, ring.wptr + i, data[from + i], Source(), 32);
        i := i + 1;
      }
    }

    /** memcpy of the first n bytes of the data to the buffer behind the end of the lap. */
    method CopyWrapped(done: nat, n: nat)
      requires Valid() && done == |data| - dptr && done + n <= 32 && ring.wptr + 32 <= SIZE
      requires ring.Staged(Source(), done, 32)
      modifies ring`rptr, ring`read, ring`out, ring.buf
      ensures Valid() && ring.Staged(Source(), done + n, 32)
    {
      NextLap(data, base);
      var i := 0;
      while i < n
        invariant 0 <= i <= n && Valid() && ring.Staged(Source(), done + i, 32)
      {
        assert ByteOfLap(data, base + |data|, i);
        assert (ring.wptr + (done + i)) % SIZE == ring.wptr + done + i;
        ring.Stage(done + i, ring.wptr + done + i, data[i], Source(), 32);
        i := i + 1;
      }
    }
  }

  /** How far into size bytes of data the player is after one round from dptr. */
  function NextDptr(size: nat, dptr: int): int {
    if size - dptr < 32 then 32 - (size - dptr) else dptr + 32
  }

  /** Both copies of a round from dptr stay inside the data. */
  predicate StaysInside(size: nat, dptr: int) {
    0 <= dptr <= size && (size - dptr < 32 ==> 32 - (size - dptr) <= size)
  }

  /** Where round k starts. */
  function RoundStart(size: nat, k: nat): int {
    if k == 0 then 0 else NextDptr(size, RoundStart(size, k - 1))
  }

  predicate RoundStays(size: nat, k: nat) {
    StaysInside(size, RoundStart(size, k))
  }

  lemma {:induction false} LongLaps(size: nat, k: nat)
    requires size >= 32
    ensures RoundStays(size, k)
  {
    if k > 0 { LongLaps(size, k - 1); }
  }

  /** With less than 32 bytes every round starts further into the data than the one before. */
  lemma {:induction false} ShortLapsDrift(size: nat, k: nat)
    requires size < 32 && forall i: nat :: i < k ==> RoundStays(size, i)
    ensures RoundStart(size, k) >= k
  {
    if k > 0 {
      ShortLapsDrift(size, k - 1);
      assert RoundStays(size, k - 1);
    }
  }

  /** Playing from the start, no round ever leaves the data if and only if there are at least 32
      bytes. */
  lemma LongEnoughIff(size: nat)
    ensures (forall k: nat :: RoundStays(size, k)) <==> size >= 32
  {
    if size >= 32 {
      forall k: nat ensures RoundStays(size, k) { LongLaps(size, k); }
    } else {
      var n := size + 1;
      if forall i: nat :: i < n ==> RoundStays(size, i) {
        ShortLapsDrift(size, n);
        assert !RoundStays(size, n);
      }
    }
  }
}
