/** Where a FAT volume keeps its table and its clusters, told by their order on the disk: a file stored
    cluster by cluster reads back. */
module FatLayout {
  import opened Basics
  import opened Fat

  /** An entry of the table, and the number of the next cluster that it gives. */
  datatype Entry = Entry(low: bv8, high: bv8)

  function Number(e: Entry): (n: nat)
    ensures n < 0x1_0000
  {
    ToNat(e.low) + 256 * ToNat(e.high)
  }

  /** The table as bytes: two an entry, the low one first. */
  function TableBytes(entries: seq<Entry>): seq<seq<bv8>> {
    seq(|entries|, c requires 0 <= c < |entries| => [entries[c].low, entries[c].high])
  }

  /** The volume holds this table, in the bytes from the table's first sector on, and these clusters, one
      behind the other from the first data sector on; the first of them is cluster 2. */
  ghost predicate Stored(v: Volume, entries: seq<Entry>, area: seq<seq<Sector>>) {
    && Sane(v) && v.dataStart <= |v.disk|
    && Flat(TableBytes(entries)) <= Flat<bv8>(v.disk[v.fatStart..])
    && (forall i :: 0 <= i < |area| ==> |area[i]| == v.spc)
    && Flat(area) <= v.disk[v.dataStart..]
  }

  type Cluster16 = c: nat | c < 0x1_0000

  /** The cluster with number c. */
  function Cluster(area: seq<seq<Sector>>, c: nat): seq<Sector>
    requires 2 <= c < |area| + 2
  {
    area[c - 2]
  }

  // ---------------------------------------------------------------- the table

  /** Byte i of the disk behind its first n sectors. */
  lemma DiskByte(v: Volume, n: nat, i: nat)
    requires n <= |v.disk| && i < (|v.disk| - n) * 512
    ensures var bytes := Flat<bv8>(v.disk[n..]);
      i < |bytes| && n + i / 512 < |v.disk| && bytes[i] == v.disk[n + i / 512][i % 512]
  {
    FlatLength<bv8>(v.disk[n..], 512);
    FlatAt<bv8>(v.disk[n..], 512, i);
  }

  /** Following the chain goes by the stored entries. */
  lemma EntryIsRead(v: Volume, entries: seq<Entry>, area: seq<seq<Sector>>, c: nat)
    requires Stored(v, entries, area) && c < |entries| && c < 0x1_0000
    ensures NextCluster(v, c) == Number(entries[c])
  {
    var table, disk := Flat(TableBytes(entries)), Flat<bv8>(v.disk[v.fatStart..]);
    TableByte(entries, c);
    PairInSector(c);
    DiskByte(v, v.fatStart, c * 2);
    DiskByte(v, v.fatStart, c * 2 + 1);
    assert table[c * 2] == disk[c * 2] && table[c * 2 + 1] == disk[c * 2 + 1];
  }

  /** The two bytes of an entry lie in one sector. */
  lemma PairInSector(c: nat)
    ensures (c * 2 + 1) / 512 == c * 2 / 512 && (c * 2 + 1) % 512 == c * 2 % 512 + 1
  {
  }

  lemma TableByte(entries: seq<Entry>, c: nat)
    requires c < |entries|
    ensures var table := Flat(TableBytes(entries));
      |table| == |entries| * 2 && table[c * 2] == entries[c].low && table[c * 2 + 1] == entries[c].high
  {
    var parts := TableBytes(entries);
    DivUnique(c * 2, 2, c, 0);
    DivUnique(c * 2 + 1, 2, c, 1);
    FlatLength(parts, 2);
    FlatAt(parts, 2, c * 2);
    FlatAt(parts, 2, c * 2 + 1);
    assert parts[c] == [entries[c].low, entries[c].high];
  }

  // ---------------------------------------------------------------- the data area

  /** Sector s of cluster c is where the formula of the code looks for it. */
  lemma SectorIsFound(v: Volume, entries: seq<Entry>, area: seq<seq<Sector>>, c: nat, s: nat)
    requires Stored(v, entries, area) && 2 <= c < |area| + 2 && s < v.spc
    ensures 0 <= DataSector(v, c, s) < |v.disk| && v.disk[DataSector(v, c, s)] == Cluster(area, c)[s]
  {
    var i, rest := (c - 2) * v.spc + s, v.disk[v.dataStart..];
    MulDistributes(v.spc, c - 2, 1);
    Monotone(v.spc, c - 1, |area|);
    DivUnique(i, v.spc, c - 2, s);
    FlatLength(area, v.spc);
    FlatAt(area, v.spc, i);
    assert Flat(area)[i] == rest[i];
  }

  /** The first sector of cluster 2 is the first data sector, the next sector of a cluster is the next
      sector of the disk, and behind a cluster comes the next one: so the pairs of a cluster and a sector
      in it stand, one to one, for the sectors from the first data sector on. */
  lemma SectorsAreNumbered(v: Volume, c: nat, s: nat)
    requires Sane(v) && c >= 2 && s < v.spc
    ensures DataSector(v, 2, 0) == v.dataStart
    ensures DataSector(v, c, s + 1) == DataSector(v, c, s) + 1
    ensures DataSector(v, c + 1, 0) == DataSector(v, c, v.spc - 1) + 1
  {
    MulDistributes(v.spc, c - 2, 1);
  }

  lemma SectorsAreOneToOne(v: Volume, n: nat)
    requires Sane(v) && n >= v.dataStart
    ensures exists c: nat, s: nat :: IsSector(v, c, s, n)
    ensures forall c: nat, s: nat, d: nat, r: nat :: IsSector(v, c, s, n) && IsSector(v, d, r, n) ==> c == d && s == r
  {
    var i := n - v.dataStart;
    var c, s := i / v.spc + 2, i % v.spc;
    assert i == (c - 2) * v.spc + s;
    assert IsSector(v, c, s, n);
    forall d: nat, r: nat | IsSector(v, d, r, n) ensures d == c && r == s {
      DivUnique(i, v.spc, d - 2, r);
    }
  }

  ghost predicate IsSector(v: Volume, c: nat, s: nat, n: nat) {
    c >= 2 && s < v.spc && DataSector(v, c, s) == n
  }

  // ---------------------------------------------------------------- files

  predicate InArea(area: seq<seq<Sector>>, chain: seq<Cluster16>) {
    forall i :: 0 <= i < |chain| ==> 2 <= chain[i] < |area| + 2
  }

  /** Clusters of the area, each but the last with the next as its entry. */
  ghost predicate IsChain(entries: seq<Entry>, area: seq<seq<Sector>>, chain: seq<Cluster16>) {
    && chain != [] && InArea(area, chain)
    && (forall i, j :: 0 <= i && j == i + 1 < |chain| ==> chain[i] < |entries| && Number(entries[chain[i]]) == chain[j])
  }

  lemma {:induction false} ChainIsFollowed(v: Volume, entries: seq<Entry>, area: seq<seq<Sector>>,
    chain: seq<Cluster16>, k: nat)
    requires Stored(v, entries, area) && IsChain(entries, area, chain) && k < |chain|
    ensures Chain(v, chain[0], k) == chain[k]
  {
    if k > 0 {
      var i := k - 1;
      ChainIsFollowed(v, entries, area, chain, i);
      assert chain[i] < |entries| && Number(entries[chain[i]]) == chain[k];
      EntryIsRead(v, entries, area, chain[i]);
    }
  }

  /** What was stored in the clusters of a chain, as sectors and as bytes. */
  function FileSectors(area: seq<seq<Sector>>, chain: seq<Cluster16>): seq<Sector>
    requires InArea(area, chain)
  {
    Flat(seq(|chain|, i requires 0 <= i < |chain| => Cluster(area, chain[i])))
  }

  function FileBytes(area: seq<seq<Sector>>, chain: seq<Cluster16>): (r: seq<bv8>)
    requires InArea(area, chain)
    ensures |r| == |FileSectors(area, chain)| * 512
  {
    FlatLength<bv8>(FileSectors(area, chain), 512);
    Flat<bv8>(FileSectors(area, chain))
  }

  lemma FileSector(area: seq<seq<Sector>>, chain: seq<Cluster16>, spc: nat, j: nat)
    requires (forall i :: 0 <= i < |area| ==> |area[i]| == spc) && spc > 0 && InArea(area, chain)
    requires j < |FileSectors(area, chain)|
    ensures j / spc < |chain| && FileSectors(area, chain)[j] == Cluster(area, chain[j / spc])[j % spc]
  {
    var clusters := seq(|chain|, i requires 0 <= i < |chain| => Cluster(area, chain[i]));
    FlatAt(clusters, spc, j);
  }

  lemma FileByte(area: seq<seq<Sector>>, chain: seq<Cluster16>, i: nat)
    requires InArea(area, chain) && i < |FileBytes(area, chain)|
    ensures i / 512 < |FileSectors(area, chain)|
    ensures FileBytes(area, chain)[i] == FileSectors(area, chain)[i / 512][i % 512]
  {
    FlatAt<bv8>(FileSectors(area, chain), 512, i);
  }

  /** The file is intact, and its bytes are those stored in its clusters, in the order of the chain. */
  lemma StoredReadsBack(v: Volume, entries: seq<Entry>, area: seq<seq<Sector>>, chain: seq<Cluster16>, n: nat)
    requires Stored(v, entries, area) && IsChain(entries, area, chain) && n <= |FileBytes(area, chain)|
    ensures Intact(v, chain[0], 0, n) && Content(v, chain[0], 0, n) == FileBytes(area, chain)[..n]
    ensures forall i: nat :: i < n ==> 0 <= SectorOf(v, chain[0], i) < |v.disk|
  {
    forall i: nat | i < n
      ensures InCluster(v, chain[0], i) && 0 <= SectorOf(v, chain[0], i) < |v.disk|
      ensures ByteAt(v, chain[0], i) == FileBytes(area, chain)[i]
    {
      StoredByte(v, entries, area, chain, i);
    }
  }

  lemma StoredByte(v: Volume, entries: seq<Entry>, area: seq<seq<Sector>>, chain: seq<Cluster16>, i: nat)
    requires Stored(v, entries, area) && IsChain(entries, area, chain) && i < |FileBytes(area, chain)|
    ensures InCluster(v, chain[0], i) && 0 <= SectorOf(v, chain[0], i) < |v.disk|
    ensures ByteAt(v, chain[0], i) == FileBytes(area, chain)[i]
  {
    FileByte(area, chain, i);
    StoredSector(v, entries, area, chain, i / 512);
  }

  lemma StoredSector(v: Volume, entries: seq<Entry>, area: seq<seq<Sector>>, chain: seq<Cluster16>, q: nat)
    requires Stored(v, entries, area) && IsChain(entries, area, chain) && q < |FileSectors(area, chain)|
    ensures
      var c := Chain(v, chain[0], q / v.spc);
      var n := DataSector(v, c, q % v.spc);
      c >= 2 && 0 <= n < |v.disk| && v.disk[n] == FileSectors(area, chain)[q]
  {
    FileSector(area, chain, v.spc, q);
    ChainIsFollowed(v, entries, area, chain, q / v.spc);
    SectorIsFound(v, entries, area, chain[q / v.spc], q % v.spc);
  }

  /** A stored file that is opened and read to its size, or to any count, comes back as it was stored. */
  method ReadBack(v: Volume, ghost entries: seq<Entry>, ghost area: seq<seq<Sector>>, ghost chain: seq<Cluster16>,
                  first: Cluster16, size: nat, count: nat)
      returns (data: seq<bv8>)
    requires Stored(v, entries, area) && IsChain(entries, area, chain) && size <= |FileBytes(area, chain)|
    requires first == chain[0]
    ensures data == FileBytes(area, chain)[..if count < size then count else size]
  {
    var f := new File(v, false, first, size);
    var n := if count < size then count else size;
    StoredReadsBack(v, entries, area, chain, n);
    assert Clamp(false, 0, size, count) == n;
    var r;
    r, data := f.Read(count);
    assert r >= 0;
  }
}
