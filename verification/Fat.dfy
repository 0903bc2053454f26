/** Reading a file of a FAT volume through a cursor and a one-sector cache. */
module Fat {
  import opened Basics

  type Sector = s: seq<bv8> | |s| == 512 witness seq(512, _ => 0)

  /** A mounted volume: the disk's sectors and where the tables lie. */
  datatype Volume = Volume(disk: seq<Sector>, fatStart: nat, dataStart: nat, spc: nat)

  /** A plausible volume: the file allocation table lies on the disk, and disk and data area end
      so far below 4 GiB that byte addresses of sectors do not wrap. */
  ghost predicate Sane(v: Volume) {
    && 1 <= v.spc <= 255
    && 0 < v.fatStart && v.fatStart + 256 <= |v.disk|
    && 0 < v.dataStart && v.dataStart + 0x10000 * v.spc <= 0x80_0000
    && |v.disk| <= 0x80_0000 - 0x200
  }

  function ToNat(b: bv8): (n: nat)
    ensures n < 256
  {
    b as nat
  }

  /** The entry of cluster c in the file allocation table. */
  function NextCluster(v: Volume, c: nat): (n: nat)
    requires Sane(v) && c < 0x10000
    ensures n < 0x10000
  {
    var s := v.disk[v.fatStart + c * 2 / 512];
    ToNat(s[c * 2 % 512]) + 256 * ToNat(s[c * 2 % 512 + 1])
  }

  /** The k-th cluster of the chain that starts at first. */
  function Chain(v: Volume, first: nat, k: nat): (n: nat)
    requires Sane(v) && first < 0x10000
    ensures n < 0x10000
  {
    if k == 0 then first else NextCluster(v, Chain(v, first, k - 1))
  }

  /** The disk sector of sector s of cluster c. */
  function DataSector(v: Volume, c: nat, s: nat): int {
    v.dataStart + (c - 2) * v.spc + s
  }

  lemma DataSectorPositive(v: Volume, c: nat, s: nat)
    requires c >= 2
    ensures DataSector(v, c, s) >= v.dataStart
  {
    assert (c - 2) * v.spc >= 0;
  }

  /** The disk sector that holds the file's byte i. */
  function SectorOf(v: Volume, first: nat, i: nat): int
    requires Sane(v) && first < 0x10000
  {
    DataSector(v, Chain(v, first, i / 512 / v.spc), i / 512 % v.spc)
  }

  /** Byte i of the file lies in a data cluster. */
  predicate InCluster(v: Volume, first: nat, i: nat)
    requires Sane(v) && first < 0x10000
  {
    Chain(v, first, i / 512 / v.spc) >= 2
  }

  /** Byte i of the file, 0 where its sector lies beyond the disk. */
  function ByteAt(v: Volume, first: nat, i: nat): bv8
    requires Sane(v) && first < 0x10000
  {
    var s := SectorOf(v, first, i);
    if 0 <= s < |v.disk| then v.disk[s][i % 512] else 0
  }

  /** n bytes of the file from byte i. */
  function Content(v: Volume, first: nat, i: nat, n: nat): (r: seq<bv8>)
    requires Sane(v) && first < 0x10000
    ensures |r| == n
  {
    seq(n, j requires 0 <= j < n => ByteAt(v, first, i + j))
  }

  lemma ContentSplits(v: Volume, first: nat, i: nat, a: nat, b: nat)
    requires Sane(v) && first < 0x10000
    ensures Content(v, first, i, a + b) == Content(v, first, i, a) + Content(v, first, i + a, b)
  {
    var l, r := Content(v, first, i, a + b), Content(v, first, i, a) + Content(v, first, i + a, b);
    forall j | 0 <= j < a + b ensures l[j] == r[j] {
      if j >= a { assert r[j] == ByteAt(v, first, i + a + (j - a)); }
    }
  }

  lemma ContentGrows(v: Volume, first: nat, i: nat, a: seq<bv8>, b: seq<bv8>)
    requires Sane(v) && first < 0x10000
    requires a == Content(v, first, i, |a|) && b == Content(v, first, i + |a|, |b|)
    ensures a + b == Content(v, first, i, |a + b|)
  {
    ContentSplits(v, first, i, |a|, |b|);
  }

  /** The n bytes from byte i lie in data clusters, as they do in an intact table. */
  ghost predicate Intact(v: Volume, first: nat, i: nat, n: nat)
    requires Sane(v) && first < 0x10000
  {
    forall j: nat :: i <= j < i + n ==> InCluster(v, first, j)
  }

  lemma IntactAt(v: Volume, first: nat, i: nat, n: nat, j: nat)
    requires Sane(v) && first < 0x10000 && Intact(v, first, i, n) && i <= j < i + n
    ensures InCluster(v, first, j)
  {
  }

  /** The bytes a read is limited to: up to the end of the file as the byte counter sees it. */
  function Clamp(isDir: bool, counter: nat, size: nat, count: nat): (n: int) {
    if !isDir && counter + count >= size then size - counter else count
  }

  /** The bytes from pos to the end of the file. */
  function Left(pos: nat, size: nat): nat {
    if pos < size then size - pos else 0
  }

  /** For a regular file the limit is the end of the file, for every count, if and only if the
      byte counter agrees with the position, or with the size when the position is beyond it. */
  lemma ClampRightIff(counter: nat, pos: nat, size: nat)
    requires counter <= size
    ensures (forall count: nat ::
              Clamp(false, counter, size, count) == if count < Left(pos, size) then count else Left(pos, size))
      <==> counter == if pos < size then pos else size
  {
    assert Clamp(false, counter, size, size) == size - counter;
  }

  /** A cursor in sector s of the k-th cluster, at byte b of that sector, is at byte pos. */
  predicate At(v: Volume, pos: nat, k: nat, s: nat, b: nat) {
    s < v.spc && b < 512 && pos == (k * v.spc + s) * 512 + b
  }

  /** The three coordinates of a position are unique: the whole clusters before it, the sectors
      before it in its cluster, the bytes before it in its sector. */
  lemma Coordinates(v: Volume, pos: nat, k: nat, s: nat, b: nat)
    requires At(v, pos, k, s, b)
    ensures pos / 512 / v.spc == k && pos / 512 % v.spc == s && pos % 512 == b
    ensures pos / (512 * v.spc) == k
  {
    assert pos / 512 == k * v.spc + s;
    DivUnique(k * v.spc + s, v.spc, k, s);
    assert pos == k * (512 * v.spc) + (s * 512 + b) by { assert k * v.spc * 512 == k * (512 * v.spc); }
    DivUnique(pos, 512 * v.spc, k, s * 512 + b);
  }

  datatype Whence = Set | Cur | End

  /** An open file: the private data of its vnode. */
  class File {
    const v: Volume
    const isDir: bool
    const first: nat
    const size: nat
    var cluster: nat
    var sector: nat
    var byte: nat
    var counter: nat
    var bufSector: nat
    const buf: array<bv8>
    ghost var pos: nat
    ghost var k: nat

    /** The cursor designates byte pos, and a valid cache holds its sector's content. */
    ghost predicate Valid()
      reads this, buf
    {
      && Sane(v) && first < 0x10000 && buf.Length == 512
      && cluster == Chain(v, first, k) && At(v, pos, k, sector, byte)
      && (bufSector != 0 ==> bufSector < |v.disk| && buf[..] == v.disk[bufSector])
      && (!isDir ==> counter <= size)
    }

    /** The position as its three coordinates. */
    lemma CursorRefinesPosition()
      requires Valid()
      ensures cluster == Chain(v, first, pos / 512 / v.spc)
      ensures sector == pos / 512 % v.spc && byte == pos % 512
    {
      Coordinates(v, pos, k, sector, byte);
    }

    constructor (v: Volume, isDir: bool, first: nat, size: nat)
      requires Sane(v) && first < 0x10000
      ensures Valid() && pos == 0 && counter == 0 && fresh(buf)
      ensures this.v == v && this.isDir == isDir && this.first == first && this.size == size
    {
      this.v, this.isDir, this.first, this.size := v, isDir, first, size;
      cluster, sector, byte, counter, bufSector := first, 0, 0, 0, 0;
      buf := new bv8[512](_ => 0);
      pos, k := 0, 0;
    }

    /** The cursor part of _fnode_open. */
    method Open()
      requires Valid()
      modifies this`cluster, this`sector, this`byte, this`counter, this`pos, this`k
      ensures Valid() && pos == 0 && counter == 0
    {
      cluster, sector, byte, counter := first, 0, 0, 0;
      pos, k := 0, 0;
    }

    /** A read of sector n into the buffer, which fails beyond the end of the disk. */
    method DeviceRead(n: int) returns (ok: bool)
      requires buf.Length == 512
      modifies buf
      ensures ok <==> 0 <= n < |v.disk|
      ensures ok ==> buf[..] == v.disk[n]
    {
      if n < 0 || n >= |v.disk| { return false; }
      forall i | 0 <= i < 512 { buf[i] := v.disk[n][i]; }
      return true;
    }

    /** _fat_next_cluster; it uses the buffer and leaves the cache invalid. */
    method FatNext(from: nat) returns (to: nat)
      requires Sane(v) && from < 0x10000 && buf.Length == 512
      modifies this`bufSector, buf
      ensures to == NextCluster(v, from) && bufSector == 0
    {
      var _ := DeviceRead(v.fatStart + from * 2 / 512);
      bufSector := 0;
      to := buf[from * 2 % 512] as nat + 256 * (buf[from * 2 % 512 + 1] as nat);
    }

    /** Move the cursor to the next sector, across the end of a cluster if need be. */
    method NextSector()
      requires Valid() && byte == 0
      modifies this`cluster, this`sector, this`bufSector, this`pos, this`k, buf
      ensures Valid() && pos == old(pos) + 512 && byte == 0
    {
      pos := pos + 512;
      if sector == v.spc - 1 {
        assert (k + 1) * v.spc == k * v.spc + v.spc;
        k := k + 1;
        sector := 0;
        cluster := FatNext(cluster);
      } else {
        sector := sector + 1;
      }
    }

    /** _fnode_lseek. Returns -1 for a target beyond the end, leaving the cursor alone. */
    method Seek(offset: nat, whence: Whence) returns (r: int)
      requires Valid()
      modifies this`cluster, this`sector, this`byte, this`bufSector, this`pos, this`k, buf
      ensures Valid()
      ensures r == if (whence.End? && offset > size) || (whence.Cur? && counter + offset > size) then -1 else 0
      ensures pos == if r < 0 then old(pos) else match whence
                case Set => offset
                case Cur => counter + offset
                case End => size - offset
    {
      var rest: nat := offset;
      if whence.End? {
        if offset > size { return -1; }
        rest := size - offset;
      }
      if whence.Cur? {
        if counter + offset > size { return -1; }
        rest := counter + offset;
      }
      ghost var target := rest;
      byte, sector, cluster := 0, 0, first;
      pos, k := 0, 0;
      while rest != 0
        invariant Valid() && pos + rest == target && (rest != 0 ==> byte == 0)
      {
        if rest < 512 {
          byte := rest;
          pos := pos + rest;
          rest := 0;
        } else {
          NextSector();
          rest := rest - 512;
        }
      }
      return 0;
    }

    /** Make sure the buffer holds the cursor's sector. */
    method Fetch() returns (ok: bool)
      requires Valid() && cluster >= 2
      modifies this`bufSector, buf
      ensures Valid()
      ensures ok <==> 0 <= DataSector(v, cluster, sector) < |v.disk|
      ensures ok ==> bufSector == DataSector(v, cluster, sector) && buf[..] == v.disk[bufSector]
    {
      var n := DataSector(v, cluster, sector);
      DataSectorPositive(v, cluster, sector);
      ok := true;
      if bufSector != n {
        bufSector := 0;
        ok := DeviceRead(n);
        if ok { bufSector := n; }
      }
    }

    /** One round of the loop of _fnode_read: up to the end of the sector in the cache. */
    method ReadChunk(count: nat) returns (ok: bool, data: seq<bv8>)
      requires Valid() && count > 0 && InCluster(v, first, pos)
      requires !isDir ==> counter + count <= size
      modifies this`cluster, this`sector, this`byte, this`counter, this`bufSector, this`pos, this`k, buf
      ensures Valid()
      ensures ok <==> SectorOf(v, first, old(pos)) < |v.disk|
      ensures !ok ==> data == [] && pos == old(pos) && counter == old(counter)
      ensures ok ==> 0 < |data| <= count && data == Content(v, first, old(pos), |data|)
      ensures pos == old(pos) + |data| && counter == old(counter) + |data|
    {
      Coordinates(v, pos, k, sector, byte);
      DataSectorPositive(v, cluster, sector);
      ok := Fetch();
      if !ok { return false, []; }
      var bsize := if count <= 512 - byte then count else 512 - byte;
      data := buf[byte..byte + bsize];
      SectorContent(v, first, pos, k, sector, byte, bsize);
      Advance(bsize);
    }

    /** Move the cursor over n bytes of its sector. */
    method Advance(n: nat)
      requires Valid() && n > 0 && byte + n <= 512 && (!isDir ==> counter + n <= size)
      modifies this`cluster, this`sector, this`byte, this`counter, this`bufSector, this`pos, this`k, buf
      ensures Valid() && pos == old(pos) + n && counter == old(counter) + n
    {
      counter := counter + n;
      pos := pos + n;
      byte := byte + n;
      if byte >= 512 {
        byte := 0;
        bufSector := 0;
        sector := sector + 1;
        if sector >= v.spc {
          assert (k + 1) * v.spc == k * v.spc + v.spc;
          sector := 0;
          k := k + 1;
          cluster := FatNext(cluster);
        }
      }
    }

    /** _fnode_read. Returns -1 and what was read so far when the disk fails. */
    method Read(count: nat) returns (r: int, data: seq<bv8>)
      requires Valid()
      requires Intact(v, first, pos, Clamp(isDir, counter, size, count))
      modifies this`cluster, this`sector, this`byte, this`counter, this`bufSector, this`pos, this`k, buf
      ensures Valid()
      ensures data == Content(v, first, old(pos), |data|)
      ensures pos == old(pos) + |data| && counter == old(counter) + |data|
      ensures r >= 0 ==> r == |data| == Clamp(isDir, old(counter), size, count)
      ensures r < 0 ==>
        r == -1 && |data| < Clamp(isDir, old(counter), size, count) && SectorOf(v, first, pos) >= |v.disk|
    {
      var n: nat := Clamp(isDir, counter, size, count);
      var rest: nat := n;
      data := [];
      ghost var p0: nat := pos;
      while rest != 0
        invariant Valid() && rest + |data| == n
        invariant pos == p0 + |data| && counter == old(counter) + |data|
        invariant !isDir ==> counter + rest <= size
        invariant data == Content(v, first, p0, |data|)
      {
        IntactAt(v, first, p0, n, pos);
        var ok, chunk := ReadChunk(rest);
        if !ok { return -1, data; }
        ContentGrows(v, first, p0, data, chunk);
        data := data + chunk;
        rest := rest - |chunk|;
      }
      return n, data;
    }

    /** Open, seek, read: the seek moves the position and not the counter, so that a read that asks
        for more than the rest of the file gets more than the rest of the file. */
    method ReadAfterSeek(offset: nat, count: nat) returns (r: int, data: seq<bv8>)
      requires Valid() && !isDir && 0 < offset && Left(offset, size) < count && size > 0
      requires Intact(v, first, offset, Clamp(isDir, 0, size, count))
      modifies this`cluster, this`sector, this`byte, this`counter, this`bufSector, this`pos, this`k, buf
      ensures Valid() && data == Content(v, first, offset, |data|)
      ensures r >= 0 ==> r == |data| > Left(offset, size)
    {
      Open();
      var found := Seek(offset, Set);
      assert found == 0 && pos == offset && counter == 0;
      r, data := Read(count);
    }
  }

  /** n bytes within one sector are a slice of that sector. */
  lemma SectorContent(v: Volume, first: nat, pos: nat, k: nat, s: nat, b: nat, n: nat)
    requires Sane(v) && first < 0x10000 && At(v, pos, k, s, b) && b + n <= 512
    requires 0 <= DataSector(v, Chain(v, first, k), s) < |v.disk|
    ensures Content(v, first, pos, n) == v.disk[DataSector(v, Chain(v, first, k), s)][b..b + n]
  {
    var c := Content(v, first, pos, n);
    var d := v.disk[DataSector(v, Chain(v, first, k), s)];
    forall j | 0 <= j < n ensures c[j] == d[b..b + n][j] {
      assert At(v, pos + j, k, s, b + j);
      Coordinates(v, pos + j, k, s, b + j);
      assert c[j] == ByteAt(v, first, pos + j);
    }
  }

  /** What reads of the given sizes return one after the other on a regular file, from the
      position that the byte counter shows. */
  function ReadsFrom(v: Volume, first: nat, size: nat, counter: nat, counts: seq<nat>): seq<bv8>
    requires Sane(v) && first < 0x10000 && counter <= size
    decreases |counts|
  {
    if counts == [] then []
    else
      var n := Clamp(false, counter, size, counts[0]);
      Content(v, first, counter, n) + ReadsFrom(v, first, size, counter + n, counts[1..])
  }

  function Sum(counts: seq<nat>): nat {
    if counts == [] then 0 else counts[0] + Sum(counts[1..])
  }

  /** However a file is read after it is opened, the pieces join to its beginning, cut at the
      end of the file. */
  lemma {:induction false} ReadsJoin(v: Volume, first: nat, size: nat, counter: nat, counts: seq<nat>)
    requires Sane(v) && first < 0x10000 && counter <= size
    ensures
      var left := size - counter;
      ReadsFrom(v, first, size, counter, counts)
        == Content(v, first, counter, if Sum(counts) < left then Sum(counts) else left)
    decreases |counts|
  {
    if counts != [] {
      var n: nat := Clamp(false, counter, size, counts[0]);
      var left := size - counter - n;
      ReadsJoin(v, first, size, counter + n, counts[1..]);
      ContentSplits(v, first, counter, n, if Sum(counts[1..]) < left then Sum(counts[1..]) else left);
    }
  }
}
