/**
 Reading a file of a FAT32 volume (src/fs/fat/fat32.cc): the cluster chain in the file
 allocation table, the linked list that caches its beginning, and Read for volumes whose
 clusters are one sector. The card is a function from block numbers to blocks.
 */
module Fat32 {
  import opened Bits

  const BLOCK_SIZE: nat := 512
  const BAD_CLUSTER: nat := 0x0fff_fff7
  const ENTRY_LIMIT: nat := 0x1000_0000
  const U32: nat := 0x1_0000_0000

  /** The card by blocks; what lies past its end reads as zeros. */
  type Card = seq<seq<nat>>

  function BlockAt(card: Card, b: nat): (r: seq<nat>)
    ensures |r| == BLOCK_SIZE
  {
    if b < |card| && |card[b]| == BLOCK_SIZE then card[b] else seq(BLOCK_SIZE, _ => 0)
  }

  datatype Volume = Volume(firstLba: nat, fatFirstSector: nat, dataFirstSector: nat, secPerClus: nat)

  /** Where ReadSector reads: the byte position is computed in 32 bits. */
  function Block(lba: nat): (b: nat) {
    BLOCK_SIZE * lba % U32 / BLOCK_SIZE
  }

  /** A sector is reached if and only if it lies below 4 GiB. */
  lemma BlockReached(lba: nat)
    ensures Block(lba) == lba <==> lba < 0x80_0000
  {
    var q, r := lba / 0x80_0000, lba % 0x80_0000;
    assert BLOCK_SIZE * lba == U32 * q + BLOCK_SIZE * r;
    Quotient(BLOCK_SIZE * lba, U32, q, BLOCK_SIZE * r);
    Quotient(BLOCK_SIZE * r, BLOCK_SIZE, r, 0);
  }

  /** Which cluster of a file an offset lies in. */
  function ClusterIndex(v: Volume, offset: nat): nat
    requires v.secPerClus > 0
  {
    offset / (v.secPerClus * BLOCK_SIZE)
  }

  function IsValidCluster(cluster: nat): bool {
    2 <= cluster <= 0x0fff_fff6
  }

  // The volume as it should be read.

  /** Byte k of the file allocation table. */
  function FatByte(card: Card, v: Volume, k: nat): nat
  {
    BlockAt(card, v.firstLba + v.fatFirstSector + k / 512)[k % 512]
  }

  /** The 28-bit table entry of a cluster. */
  function Next(card: Card, v: Volume, cluster: nat): (n: nat)
    ensures n < ENTRY_LIMIT
  {
    var k := 4 * cluster;
    var word := FatByte(card, v, k) + 0x100 * FatByte(card, v, k + 1)
                + 0x1_0000 * FatByte(card, v, k + 2) + 0x100_0000 * FatByte(card, v, k + 3);
    word % 0x1000_0000
  }

  /** Cluster k of the chain that starts at root. */
  function At(card: Card, v: Volume, root: nat, k: nat): (c: nat)
    ensures root < ENTRY_LIMIT ==> c < ENTRY_LIMIT
  {
    if k == 0 then root else Next(card, v, At(card, v, root, k - 1))
  }

  /** All of the first n clusters are in use. */
  ghost predicate InChain(card: Card, v: Volume, root: nat, n: nat)
  {
    forall k :: 0 <= k < n ==> 2 <= At(card, v, root, k) < 0x0fff_fff7
  }

  /** The chain ends after n clusters. */
  ghost predicate EndsAfter(card: Card, v: Volume, root: nat, n: nat)
  {
    InChain(card, v, root, n) && !IsValidCluster(At(card, v, root, n))
  }

  /** A walk of k steps without a cache; running off the chain gives the bad cluster. */
  function Walk(card: Card, v: Volume, cluster: nat, k: nat): nat
    decreases k
  {
    if k == 0 then cluster
    else
      var next := Next(card, v, cluster);
      if IsValidCluster(next) then Walk(card, v, next, k - 1) else 0x0fff_fff7
  }

  lemma {:induction false} AtShift(card: Card, v: Volume, root: nat, i: nat, k: nat)
    ensures At(card, v, At(card, v, root, i), k) == At(card, v, root, i + k)
  {
    hide Next;
    if k > 0 {
      AtShift(card, v, root, i, k - 1);
    }
  }

  /** Inside the chain the walk finds cluster k. */
  lemma {:induction false} WalkIsAt(card: Card, v: Volume, root: nat, k: nat)
    ensures (forall j :: 1 <= j <= k ==> IsValidCluster(At(card, v, root, j))) ==>
              Walk(card, v, root, k) == At(card, v, root, k)
    ensures !(forall j :: 1 <= j <= k ==> IsValidCluster(At(card, v, root, j))) ==>
              Walk(card, v, root, k) == BAD_CLUSTER
    decreases k
  {
    hide Next;
    if k > 0 {
      var next := Next(card, v, root);
      assert At(card, v, root, 1) == next by { assert At(card, v, root, 0) == root; }
      forall j: nat ensures At(card, v, next, j) == At(card, v, root, j + 1) {
        AtShift(card, v, root, 1, j);
      }
      if IsValidCluster(next) {
        WalkIsAt(card, v, next, k - 1);
        if forall j :: 1 <= j <= k - 1 ==> IsValidCluster(At(card, v, next, j)) {
          forall j | 1 <= j <= k ensures IsValidCluster(At(card, v, root, j)) {
            if j > 1 {
              assert At(card, v, next, j - 1) == At(card, v, root, j);
            }
          }
        } else {
          var j :| 1 <= j <= k - 1 && !IsValidCluster(At(card, v, next, j));
          assert !IsValidCluster(At(card, v, root, j + 1));
        }
      }
    }
  }

  /** A chain that ends has no cluster twice, the end mark included. */
  lemma NoRepeat(card: Card, v: Volume, root: nat, n: nat, i: nat, k: nat)
    requires EndsAfter(card, v, root, n) && i < k <= n
    ensures At(card, v, root, i) != At(card, v, root, k)
  {
    hide Next;
    AtShift(card, v, root, i, n - k);
    AtShift(card, v, root, k, n - k);
    assert IsValidCluster(At(card, v, root, i + (n - k)));
  }

  // The cache.

  /** What CalcCluster finds when the first m clusters are cached. */
  function Cached(card: Card, v: Volume, root: nat, m: nat, k: nat): nat
    requires m > 0
  {
    if k < m then At(card, v, root, k) else Walk(card, v, At(card, v, root, m - 1), k - (m - 1))
  }

  /**
   The cache is invisible inside the chain; at its end it shows exactly when the end mark
   itself was cached and is not the bad cluster.
   */
  lemma CacheAgrees(card: Card, v: Volume, root: nat, n: nat, m: nat, k: nat)
    requires 0 < n && EndsAfter(card, v, root, n) && 0 < m <= n + 1 && k <= n
    ensures Cached(card, v, root, m, k) == Walk(card, v, root, k) <==>
            k < n || m <= n || At(card, v, root, n) == BAD_CLUSTER
  {
    hide Next;
    WalkIsAt(card, v, root, k);
    if k >= m {
      var c := At(card, v, root, m - 1);
      WalkIsAt(card, v, c, k - (m - 1));
      forall j: nat ensures At(card, v, c, j) == At(card, v, root, m - 1 + j) {
        AtShift(card, v, root, m - 1, j);
      }
      if k < n {
        forall j | 1 <= j <= k - (m - 1) ensures IsValidCluster(At(card, v, c, j)) {
          assert IsValidCluster(At(card, v, root, m - 1 + j));
        }
      } else {
        assert !IsValidCluster(At(card, v, c, n - (m - 1)));
        assert !IsValidCluster(At(card, v, root, n));
      }
    } else if k == n {
      assert !IsValidCluster(At(card, v, root, n));
    }
  }

  /**
   Inside a chain that need not end the cluster found is cluster k, whatever is cached, the
   same that a walk without a cache finds.
   */
  lemma FoundInChain(card: Card, v: Volume, root: nat, n: nat, m: nat, k: nat)
    requires InChain(card, v, root, n) && 0 < m && k < n
    ensures Cached(card, v, root, m, k) == At(card, v, root, k) == Walk(card, v, root, k)
    ensures IsValidCluster(At(card, v, root, k)) && At(card, v, root, k) != BAD_CLUSTER
  {
    hide Next;
    WalkIsAt(card, v, root, k);
    forall j | 1 <= j <= k ensures IsValidCluster(At(card, v, root, j)) {
    }
    if m <= k {
      var c := At(card, v, root, m - 1);
      forall j: nat ensures At(card, v, c, j) == At(card, v, root, m - 1 + j) {
        AtShift(card, v, root, m - 1, j);
      }
      WalkIsAt(card, v, c, k - (m - 1));
    }
  }

  /** A step of the walk past the end of the cache. */
  lemma CacheGrows(card: Card, v: Volume, root: nat, m: nat, k: nat)
    requires 0 < m <= k
    ensures At(card, v, root, m) == Next(card, v, At(card, v, root, m - 1))
    ensures Cached(card, v, root, m, k) ==
            if IsValidCluster(At(card, v, root, m)) then Cached(card, v, root, m + 1, k) else BAD_CLUSTER
  {
    hide Next, IsValidCluster;
  }

  lemma CacheHit(card: Card, v: Volume, root: nat, m: nat, k: nat)
    requires 0 < m
    ensures k < m ==> Cached(card, v, root, m, k) == At(card, v, root, k)
  {
  }

  // Reading the card as the code does.

  /** The table lies below 4 GiB whatever cluster is looked up, and the root is a 28-bit number. */
  ghost predicate TableLow(v: Volume) {
    v.firstLba + v.fatFirstSector + 0x20_0000 <= 0x80_0000
  }

  function FatSector(v: Volume, cluster: nat): nat {
    (v.fatFirstSector + cluster * 4 % U32 / BLOCK_SIZE) % U32
  }

  /** The code's look-up reads the table entry. */
  function ReadEntry(card: Card, v: Volume, cluster: nat): (n: nat)
    requires TableLow(v) && cluster < ENTRY_LIMIT
    ensures n < ENTRY_LIMIT
  {
    var buf := BlockAt(card, Block((v.firstLba + FatSector(v, cluster)) % U32));
    var offset := cluster * 4 % U32 % BLOCK_SIZE;
    EntryPlace(v, cluster, 0);
    EntryPlace(v, cluster, 1);
    EntryPlace(v, cluster, 2);
    EntryPlace(v, cluster, 3);
    var word := buf[offset] + 0x100 * buf[offset + 1] + 0x1_0000 * buf[offset + 2] + 0x100_0000 * buf[offset + 3];
    word % ENTRY_LIMIT
  }

  lemma EntryRead(card: Card, v: Volume, cluster: nat)
    requires TableLow(v) && cluster < ENTRY_LIMIT
    ensures ReadEntry(card, v, cluster) == Next(card, v, cluster)
  {
    hide BlockAt, Block, FatSector;
    EntryPlace(v, cluster, 0);
    EntryPlace(v, cluster, 1);
    EntryPlace(v, cluster, 2);
    EntryPlace(v, cluster, 3);
  }

  lemma EntryPlace(v: Volume, cluster: nat, i: nat)
    requires TableLow(v) && cluster < ENTRY_LIMIT && i < 4
    ensures Block((v.firstLba + FatSector(v, cluster)) % U32) ==
            v.firstLba + v.fatFirstSector + (4 * cluster + i) / BLOCK_SIZE
    ensures (4 * cluster + i) % BLOCK_SIZE == cluster * 4 % U32 % BLOCK_SIZE + i < BLOCK_SIZE
  {
    var q, r := cluster / 128, cluster % 128;
    var lba := v.firstLba + v.fatFirstSector + q;
    BlockReached(lba);
    Quotient(4 * cluster + i, BLOCK_SIZE, q, 4 * r + i);
    Quotient(4 * cluster, BLOCK_SIZE, q, 4 * r);
    assert cluster * 4 % U32 == 4 * cluster && FatSector(v, cluster) == v.fatFirstSector + q;
    hide Block;
    assert (v.firstLba + FatSector(v, cluster)) % U32 == lba;
  }

  /** Where the code reads the sector of a cluster that an offset lies in; all in 32 bits. */
  function CalcSector(v: Volume, cluster: nat, offset: nat): nat
    requires v.secPerClus > 0
  {
    var first := (v.dataFirstSector + (cluster + U32 - 2) % U32 * v.secPerClus) % U32;
    (first + offset % (v.secPerClus * BLOCK_SIZE) / BLOCK_SIZE) % U32
  }

  /** The number of sector j of a cluster, counted from the start of the volume. */
  function SectorNumber(v: Volume, cluster: nat, j: nat): nat
    requires cluster >= 2
  {
    v.dataFirstSector + (cluster - 2) * v.secPerClus + j
  }

  /** Where it lies on the card. */
  function DataBlock(v: Volume, cluster: nat, j: nat): nat
    requires cluster >= 2
  {
    v.firstLba + SectorNumber(v, cluster, j)
  }

  /** Which sector of its cluster an offset lies in. */
  function SectorIndex(v: Volume, offset: nat): nat
    requires v.secPerClus > 0
  {
    offset % (v.secPerClus * BLOCK_SIZE) / BLOCK_SIZE
  }

  /** An offset lies in that sector of that cluster, counting 512 bytes a sector. */
  lemma SectorOfOffset(v: Volume, offset: nat)
    requires v.secPerClus > 0
    ensures SectorIndex(v, offset) < v.secPerClus
    ensures offset == 512 * (ClusterIndex(v, offset) * v.secPerClus + SectorIndex(v, offset)) + offset % 512
  {
    var n, r := v.secPerClus * BLOCK_SIZE, offset % (v.secPerClus * BLOCK_SIZE);
    Recompose(offset, n);
    Quotient(offset, BLOCK_SIZE, ClusterIndex(v, offset) * v.secPerClus + r / BLOCK_SIZE, r % BLOCK_SIZE);
  }

  lemma SectorReached(v: Volume, cluster: nat, offset: nat)
    requires v.secPerClus > 0 && IsValidCluster(cluster)
    requires DataBlock(v, cluster, SectorIndex(v, offset)) < 0x80_0000
    ensures Block((v.firstLba + CalcSector(v, cluster, offset)) % U32) ==
            v.firstLba + v.dataFirstSector + (cluster - 2) * v.secPerClus + offset % (512 * v.secPerClus) / 512
  {
    IndexIs(v, offset);
    hide Block;
    var lba := DataBlock(v, cluster, SectorIndex(v, offset));
    BlockReached(lba);
    hide SectorIndex;
    var p := (cluster - 2) * v.secPerClus;
    SectorSum(cluster, v.dataFirstSector, p, SectorIndex(v, offset));
    assert v.firstLba + CalcSector(v, cluster, offset) == lba;
    assert lba % U32 == lba;
  }

  lemma IndexIs(v: Volume, offset: nat)
    requires v.secPerClus > 0
    ensures SectorIndex(v, offset) == offset % (512 * v.secPerClus) / 512
  {
  }

  /** None of the sums leaves 32 bits. */
  lemma SectorSum(cluster: nat, data: nat, p: nat, j: nat)
    requires IsValidCluster(cluster) && data + p + j < U32
    ensures (cluster + U32 - 2) % U32 == cluster - 2
    ensures ((data + p) % U32 + j) % U32 == data + p + j
  {
  }

  /**
   The test for the last sector of a cluster looks at the number of the sector in the volume.
   It is right for the sectors of a cluster if and only if the data begin at a multiple of
   the cluster size.
   */
  lemma BoundaryFound(v: Volume, cluster: nat)
    requires v.secPerClus > 0 && IsValidCluster(cluster)
    ensures v.dataFirstSector % v.secPerClus == 0 <==>
            forall j :: 0 <= j < v.secPerClus ==>
              (SectorNumber(v, cluster, j) % v.secPerClus == v.secPerClus - 1 <==> j == v.secPerClus - 1)
  {
    var n, q, d := v.secPerClus, v.dataFirstSector / v.secPerClus, v.dataFirstSector % v.secPerClus;
    forall j | 0 <= j < n
      ensures SectorNumber(v, cluster, j) % n == if d + j < n then d + j else d + j - n
    {
      assert SectorNumber(v, cluster, j) == n * q + d + (cluster - 2) * n + j;
      if d + j < n {
        assert SectorNumber(v, cluster, j) == n * (q + cluster - 2) + (d + j);
        Quotient(SectorNumber(v, cluster, j), n, q + cluster - 2, d + j);
      } else {
        assert SectorNumber(v, cluster, j) == n * (q + cluster - 1) + (d + j - n);
        Quotient(SectorNumber(v, cluster, j), n, q + cluster - 1, d + j - n);
      }
    }
    hide SectorNumber;
    assert SectorNumber(v, cluster, n - 1) % n == n - 1 ==> d == 0;
  }

  // An open file.

  class ClusterNode {
    const val: nat
    ghost const pos: nat       // place in the list
    var next: ClusterNode?

    constructor (val: nat, ghost pos: nat)
      ensures this.val == val && this.pos == pos && next == null
    {
      this.val, this.pos, this.next := val, pos, null;
    }
  }

  class File {
    const card: Card
    const v: Volume
    const size: nat
    const clusterRoot: ClusterNode
    ghost var nodes: seq<ClusterNode>     // the list

    /** The list is a beginning of the chain. */
    ghost predicate Valid()
      reads this, nodes
    {
      && TableLow(v) && v.secPerClus > 0 && size < U32 && clusterRoot.val < ENTRY_LIMIT
      && |nodes| > 0 && nodes[0] == clusterRoot
      && (forall i :: 0 <= i < |nodes| ==>
            nodes[i].pos == i && nodes[i].val == At(card, v, clusterRoot.val, i))
      && (forall i {:trigger nodes[i].next} :: 0 <= i < |nodes| - 1 ==> nodes[i].next == nodes[i + 1])
      && nodes[|nodes| - 1].next == null
    }

    /** InitFile. */
    constructor (card: Card, v: Volume, size: nat, cluster: nat)
      requires TableLow(v) && v.secPerClus > 0 && size < U32 && cluster < ENTRY_LIMIT
      ensures Valid() && this.card == card && this.v == v && this.size == size && clusterRoot.val == cluster
      ensures nodes == [clusterRoot]
    {
      var node := new ClusterNode(cluster, 0);
      this.card, this.v, this.size, clusterRoot := card, v, size, node;
      nodes := [node];
    }

    ghost function Last(): ClusterNode
      requires |nodes| > 0
      reads this`nodes
    {
      nodes[|nodes| - 1]
    }

    /** Cluster k of the file. */
    ghost function Cluster(k: nat): nat
    {
      At(card, v, clusterRoot.val, k)
    }

    twostate predicate Grown()
      reads this`nodes
    {
      |old(nodes)| <= |nodes| &&
      forall j :: 0 <= j < |nodes| ==> if j < |old(nodes)| then nodes[j] == old(nodes)[j] else fresh(nodes[j])
    }

    lemma NextInList(i: nat)
      requires Valid() && i < |nodes|
      ensures nodes[i].next == null <==> i + 1 == |nodes|
      ensures nodes[i].next != null ==> nodes[i].next == nodes[i + 1] && nodes[i + 1].pos == i + 1
      ensures nodes[i].next != null ==> nodes[i + 1].val == Next(card, v, nodes[i].val)
    {
      assert nodes[i].pos == i;
      hide Next;
      if i + 1 < |nodes| {
        var n: ClusterNode := nodes[i + 1];
        assert nodes[i].next == n && n.val == At(card, v, clusterRoot.val, i + 1);
      }
    }

    /** A node more, for the next cluster of the chain. */
    method Append(node: ClusterNode, cluster: nat) returns (next: ClusterNode)
      requires Valid() && node == Last() && cluster == Next(card, v, node.val)
      modifies this`nodes, Last()`next
      ensures Valid() && fresh(next) && nodes == old(nodes) + [next]
    {
      hide Next;
      next := new ClusterNode(cluster, |nodes|);
      node.next := next;
      nodes := nodes + [next];
    }

    /**
     One round of CalcCluster: the next node, read from the table where the list ends; null
     where the chain does.
     */
    method StepAlong(node: ClusterNode) returns (next: ClusterNode?)
      requires Valid() && node.pos < |nodes| && nodes[node.pos] == node
      modifies this`nodes, Last()`next
      ensures Valid() && Grown()
      ensures next != null ==> node.pos + 1 < |nodes| && next == nodes[node.pos + 1]
      ensures next != null ==> next.pos == node.pos + 1 && next.val == Cluster(node.pos + 1)
      ensures next != null ==>
                |old(nodes)| == |nodes| || (|old(nodes)| == node.pos + 1 == |nodes| - 1 && IsValidCluster(next.val))
      ensures next == null ==> nodes == old(nodes) && |nodes| == node.pos + 1 && !IsValidCluster(Cluster(|nodes|))
    {
      hide Next, ReadEntry, IsValidCluster;
      NextInList(node.pos);
      next := node.next;
      if next == null {
        EntryRead(card, v, node.val);
        var cluster := ReadEntry(card, v, node.val);
        if IsValidCluster(cluster) {
          next := Append(node, cluster);
        }
      }
    }

    lemma First()
      requires Valid()
      ensures |nodes| > 0 && nodes[0] == clusterRoot && clusterRoot.pos == 0 && v.secPerClus > 0
      ensures Cluster(0) == clusterRoot.val
    {
    }

    /** The cluster an offset lies in: that many steps along the list, which grows at its end. */
    method CalcCluster(offset: nat) returns (cluster: nat)
      requires Valid()
      modifies this`nodes, Last()`next
      ensures Valid() && Grown()
      ensures cluster == Cached(card, v, clusterRoot.val, |old(nodes)|, ClusterIndex(v, offset))
      ensures cluster != BAD_CLUSTER ==> ClusterIndex(v, offset) < |nodes|
      ensures InChain(card, v, clusterRoot.val, ClusterIndex(v, offset) + 1) ==>
                cluster == Cluster(ClusterIndex(v, offset)) == Walk(card, v, clusterRoot.val, ClusterIndex(v, offset))
      ensures forall i :: |old(nodes)| <= i < |nodes| ==> IsValidCluster(Cluster(i))
    {
      hide Cached, Walk, Next, At, InChain, Valid, IsValidCluster, ClusterIndex;
      First();
      if InChain(card, v, clusterRoot.val, ClusterIndex(v, offset) + 1) {
        FoundInChain(card, v, clusterRoot.val, ClusterIndex(v, offset) + 1, |nodes|, ClusterIndex(v, offset));
      }
      var maxSector := ClusterIndex(v, offset);
      var node: ClusterNode := clusterRoot;
      cluster := node.val;
      var i := 0;
      while i < maxSector
        invariant Valid() && Grown() && i <= maxSector
        invariant i == node.pos < |nodes| && node == nodes[i] && cluster == node.val == Cluster(i)
        invariant Cached(card, v, clusterRoot.val, |nodes|, maxSector) ==
                  Cached(card, v, clusterRoot.val, |old(nodes)|, maxSector)
        invariant forall i :: |old(nodes)| <= i < |nodes| ==> IsValidCluster(Cluster(i))
      {
        CacheGrows(card, v, clusterRoot.val, i + 1, maxSector);
        var next := StepAlong(node);
        if next == null {
          cluster := BAD_CLUSTER;
          break;
        }
        node := next;
        cluster := node.val;
        i := i + 1;
      }
      CacheHit(card, v, clusterRoot.val, |nodes|, maxSector);
    }

    /** The cluster behind a node; the end mark is cached like any other. */
    method CalcNextCluster(node: ClusterNode) returns (cluster: nat)
      requires Valid() && node.pos < |nodes| && nodes[node.pos] == node
      modifies this`nodes, Last()`next
      ensures Valid() && Grown() && cluster == Cluster(node.pos + 1)
      ensures node.pos + 1 < |nodes|
    {
      hide Next, ReadEntry;
      NextInList(node.pos);
      if node.next == null {
        EntryRead(card, v, node.val);
        cluster := ReadEntry(card, v, node.val);
        var next := Append(node, cluster);
      } else {
        cluster := node.next.val;
      }
    }

    /** The sector behind one; the first of the next cluster behind one that counts as the last. */
    method CalcNextSector(curSector: nat, node: ClusterNode) returns (sector: nat)
      requires Valid() && node.pos < |nodes| && nodes[node.pos] == node
      modifies this`nodes, Last()`next
      ensures Valid() && Grown()
      ensures curSector % v.secPerClus == v.secPerClus - 1 ==>
                node.pos + 1 < |nodes| && sector == CalcSector(v, Cluster(node.pos + 1), 0)
      ensures curSector % v.secPerClus != v.secPerClus - 1 ==>
                nodes == old(nodes) && sector == (curSector + 1) % U32
    {
      hide Next;
      if curSector % v.secPerClus != v.secPerClus - 1 {
        return (curSector + 1) % U32;
      }
      var cluster := CalcNextCluster(node);
      sector := CalcSector(v, cluster, 0);
    }

    /** The chain has count clusters of one sector, covers the file, and lies below 4 GiB. */
    ghost predicate Covers(count: nat) {
      && v.secPerClus == 1
      && EndsAfter(card, v, clusterRoot.val, count) && size <= BLOCK_SIZE * count
      && forall k :: 0 <= k < count ==> DataBlock(v, Cluster(k), 0) < 0x80_0000
    }

    /** Byte x of the file, by walking the chain on the card. */
    ghost function FileByte(count: nat, x: nat): nat
      requires Covers(count) && x < BLOCK_SIZE * count
    {
      assert IsValidCluster(Cluster(x / BLOCK_SIZE));
      BlockAt(card, v.firstLba + v.dataFirstSector + (Cluster(x / 512) - 2))[x % 512]
    }

    /** done bytes of the file from an offset on lie in the buffer, whose other bytes are as before. */
    ghost predicate Copied(count: nat, bytes: seq<nat>, bytes0: seq<nat>, at: nat, offset: nat, done: nat)
      requires Covers(count) && offset + done <= BLOCK_SIZE * count
    {
      |bytes| == |bytes0| &&
      forall i :: 0 <= i < |bytes| ==>
        bytes[i] == if at <= i < at + done then FileByte(count, offset + (i - at)) else bytes0[i]
    }

    lemma ByteIs(count: nat, x: nat)
      requires Covers(count) && x < BLOCK_SIZE * count && IsValidCluster(Cluster(x / BLOCK_SIZE))
      ensures FileByte(count, x) == BlockAt(card, DataBlock(v, Cluster(x / BLOCK_SIZE), 0))[x % BLOCK_SIZE]
    {
      hide At, Next, BlockAt;
    }

    lemma CopyMore(count: nat, bytes: seq<nat>, mid: seq<nat>, bytes0: seq<nat>, at: nat, offset: nat,
                   done: nat, n: nat, block: seq<nat>)
      requires Covers(count) && offset + done + n <= BLOCK_SIZE * count && at + done + n <= |mid|
      requires Copied(count, mid, bytes0, at, offset, done)
      requires (offset + done) % BLOCK_SIZE + n <= BLOCK_SIZE == |block| && |bytes| == |mid| && n > 0
      requires (offset + done) / BLOCK_SIZE < count && IsValidCluster(Cluster((offset + done) / BLOCK_SIZE))
      requires block == BlockAt(card, DataBlock(v, Cluster((offset + done) / BLOCK_SIZE), 0))
      requires forall i :: 0 <= i < |bytes| ==>
                 bytes[i] ==
                 if at + done <= i < at + done + n
                 then block[(offset + done) % BLOCK_SIZE + (i - at - done)]
                 else mid[i]
      ensures Copied(count, bytes, bytes0, at, offset, done + n)
    {
      hide Covers, Cluster, At, Next, FileByte, BlockAt, DataBlock, IsValidCluster;
      forall i | at + done <= i < at + done + n
        ensures bytes[i] == FileByte(count, offset + (i - at))
      {
        var x := offset + (i - at);
        Quotient(x, BLOCK_SIZE, (offset + done) / BLOCK_SIZE, (offset + done) % BLOCK_SIZE + (i - at - done));
        ByteIs(count, x);
      }
    }

    /** The first node with a value; null is where the code runs off its list. */
    method FindNode(cluster: nat) returns (node: ClusterNode?)
      requires Valid()
      ensures node == null <==> forall i :: 0 <= i < |nodes| ==> nodes[i].val != cluster
      ensures node != null ==> node.pos < |nodes| && node == nodes[node.pos] && node.val == cluster
      ensures node != null ==> forall i :: 0 <= i < node.pos ==> nodes[i].val != cluster
    {
      hide Next, At;
      node := clusterRoot;
      ghost var i := 0;
      while node != null && node.val != cluster
        invariant i <= |nodes| && if i < |nodes| then node == nodes[i] && i == node.pos else node == null
        invariant forall j :: 0 <= j < i ==> nodes[j].val != cluster
        decreases |nodes| - i
      {
        NextInList(i);
        node := node.next;
        i := i + 1;
      }
    }

    /** A cached cluster of a chain that ends is found at its own place. */
    lemma PlaceInList(count: nat, k: nat, node: ClusterNode)
      requires Valid() && EndsAfter(card, v, clusterRoot.val, count) && k <= count && k < |nodes|
      requires node.pos <= k && node == nodes[node.pos] && node.val == Cluster(k)
      ensures node == nodes[k]
    {
      hide Next, EndsAfter;
      if node.pos < k {
        NoRepeat(card, v, clusterRoot.val, count, node.pos, k);
      }
    }

    /** What an offset that is not behind the chain leads to: cluster k, or nothing that is in the list. */
    lemma CachedWhere(count: nat, m: nat, k: nat)
      requires EndsAfter(card, v, clusterRoot.val, count) && 0 < m && k <= count
      ensures k < count || k < m ==> Cached(card, v, clusterRoot.val, m, k) == Cluster(k)
      ensures k == count && m <= count ==> Cached(card, v, clusterRoot.val, m, k) == BAD_CLUSTER
      ensures forall i :: 0 <= i < count ==> Cluster(i) != BAD_CLUSTER
    {
      hide Next;
      var root := clusterRoot.val;
      if k < count {
        FoundInChain(card, v, root, count, m, k);
      } else if m <= count {
        CacheAgrees(card, v, root, count, m, k);
        WalkIsAt(card, v, root, k);
        assert !IsValidCluster(At(card, v, root, count));
      }
    }

    lemma NodesAre()
      requires Valid()
      ensures forall i :: 0 <= i < |nodes| ==> nodes[i].val == Cluster(i)
    {
    }

    /** A list that had no end mark cached has none when CalcCluster has extended it. */
    lemma ListHolds(count: nat, m: nat)
      requires Valid() && EndsAfter(card, v, clusterRoot.val, count) && 0 < m <= |nodes|
      requires forall i :: m <= i < |nodes| ==> IsValidCluster(Cluster(i))
      ensures m <= count ==> |nodes| <= count
      ensures m <= count ==> forall i :: 0 <= i < |nodes| ==> nodes[i].val != BAD_CLUSTER
    {
      hide Next, At;
      assert m <= count < |nodes| ==> IsValidCluster(Cluster(count));
    }

    /** memcpy of a part of a block into the buffer. */
    method CopyOut(buf: array<nat>, to: nat, block: seq<nat>, from: nat, n: nat)
      requires to + n <= buf.Length && from + n <= |block|
      modifies buf
      ensures forall i :: 0 <= i < buf.Length ==>
                buf[i] == if to <= i < to + n then block[from + (i - to)] else old(buf[i])
    {
      forall i | 0 <= i < n {
        buf[to + i] := block[from + i];
      }
    }

    /** One sector of the range: all that is left of it, or of the range. */
    method ReadPart(buf: array<nat>, to: nat, sector: nat, sectorOffset: nat, remains: nat,
                    ghost count: nat, ghost bytes0: seq<nat>, ghost at: nat, ghost offset: nat, ghost done: nat)
      returns (copyLen: nat)
      requires Covers(count) && remains > 0 && offset + done + remains <= size && to == at + done
      requires to + remains <= buf.Length
      requires sectorOffset == (offset + done) % BLOCK_SIZE
      requires (offset + done) / BLOCK_SIZE < count && IsValidCluster(Cluster((offset + done) / BLOCK_SIZE))
      requires Block((v.firstLba + sector) % U32) == DataBlock(v, Cluster((offset + done) / BLOCK_SIZE), 0)
      requires Copied(count, buf[..], bytes0, at, offset, done)
      modifies buf
      ensures 0 < copyLen <= remains && (copyLen == remains || (offset + done + copyLen) % BLOCK_SIZE == 0)
      ensures copyLen < remains ==> (offset + done + copyLen) / BLOCK_SIZE == (offset + done) / BLOCK_SIZE + 1
      ensures Copied(count, buf[..], bytes0, at, offset, done + copyLen)
    {
      hide Cached, Walk, Next, At, Block, BlockAt, Copied, IsValidCluster;
      var block := BlockAt(card, Block((v.firstLba + sector) % U32));
      copyLen := if remains < BLOCK_SIZE - sectorOffset then remains else BLOCK_SIZE - sectorOffset;
      ghost var mid: seq<nat> := buf[..];
      CopyOut(buf, to, block, sectorOffset, copyLen);
      CopyMore(count, buf[..], mid, bytes0, at, offset, done, copyLen, block);
    }

    /** Cluster k of the file is read where it lies. */
    lemma PlaceOf(count: nat, k: nat, x: nat)
      requires Covers(count) && k < count
      ensures Cluster(k) >= 2 && IsValidCluster(Cluster(k))
      ensures Block((v.firstLba + CalcSector(v, Cluster(k), x)) % U32) == DataBlock(v, Cluster(k), 0)
    {
      hide Next, At, Block, CalcSector;
      SectorReached(v, Cluster(k), x);
    }

    lemma NothingCopied(count: nat, bytes: seq<nat>, at: nat, offset: nat)
      requires Covers(count) && offset <= BLOCK_SIZE * count
      ensures Copied(count, bytes, bytes, at, offset, 0)
    {
    }

    lemma InsideCount(count: nat, x: nat)
      requires Covers(count) && x <= size
      ensures ClusterIndex(v, x) == x / BLOCK_SIZE <= count && (x < size ==> x / BLOCK_SIZE < count)
      ensures EndsAfter(card, v, clusterRoot.val, count)
    {
      hide EndsAfter;
    }

    /** A place of the file, in a chain of clusters of one sector: the node, sector and offset to read it from. */
    ghost predicate Reads(node: ClusterNode?, sector: nat, sectorOffset: nat, x: nat)
      reads this`nodes
    {
      && node != null && node.pos == x / BLOCK_SIZE < |nodes| && node == nodes[node.pos]
      && sectorOffset == x % BLOCK_SIZE
      && Cluster(node.pos) >= 2 && Block((v.firstLba + sector) % U32) == DataBlock(v, Cluster(node.pos), 0)
    }

    /** From a node to the next one and its sector; x is the first byte there. */
    method Advance(node: ClusterNode, sector: nat, ghost count: nat, ghost x: nat)
      returns (nextSector: nat, next: ClusterNode?)
      requires Valid() && Covers(count) && node.pos < |nodes| && nodes[node.pos] == node
      modifies this`nodes, Last()`next
      ensures Valid() && Grown()
      ensures x < size && x / BLOCK_SIZE == node.pos + 1 && x % BLOCK_SIZE == 0 ==> Reads(next, nextSector, 0, x)
    {
      hide Next, At, IsValidCluster, CalcSector, BlockAt, Block, DataBlock, EndsAfter;
      nextSector := CalcNextSector(sector, node);
      NextInList(node.pos);
      next := node.next;
      if x < size && x / BLOCK_SIZE == node.pos + 1 {
        InsideCount(count, x);
        PlaceOf(count, node.pos + 1, 0);
      }
    }

    /** The loop of Read. */
    method CopyRange(buf: array<nat>, at: nat, offset: nat, len: nat, start: ClusterNode, first: nat,
                     cluster: nat, ghost count: nat)
      returns (remains: nat)
      requires Valid() && Covers(count) && offset + len <= size && at + len <= buf.Length
      requires len > 0 ==> IsValidCluster(cluster) && Reads(start, first, offset % BLOCK_SIZE, offset)
      modifies this`nodes, Last()`next, buf
      ensures Valid() && Grown() && remains == 0 && Copied(count, buf[..], old(buf[..]), at, offset, len)
    {
      hide Cached, Walk, Next, At, IsValidCluster, CalcSector, BlockAt, Block, FileByte, Copied, Valid, DataBlock;
      NothingCopied(count, buf[..], at, offset);
      hide Covers;
      remains := len;
      var sector: nat, sectorOffset: nat, to: nat := first, offset % BLOCK_SIZE, at;
      var node: ClusterNode? := start;
      ghost var done := 0;
      ghost var bytes0: seq<nat> := buf[..];
      while remains > 0 && IsValidCluster(cluster)
        invariant Valid() && Grown() && done + remains == len && to == at + done
        invariant remains > 0 ==> Reads(node, sector, sectorOffset, offset + done)
        invariant Copied(count, buf[..], bytes0, at, offset, done)
      {
        InsideCount(count, offset + done);
        PlaceOf(count, node.pos, 0);
        var copyLen := ReadPart(buf, to, sector, sectorOffset, remains, count, bytes0, at, offset, done);
        to, remains, sectorOffset := to + copyLen, remains - copyLen, 0;
        done := done + copyLen;
        sector, node := Advance(node, sector, count, offset + done);
      }
    }

    /**
     Where Read starts: the cluster of an offset and its node. There is none exactly where the
     chain ends and the list does not hold the end mark.
     */
    method Locate(offset: nat, ghost count: nat) returns (cluster: nat, node: ClusterNode?)
      requires Valid() && EndsAfter(card, v, clusterRoot.val, count) && ClusterIndex(v, offset) <= count
      modifies this`nodes, Last()`next
      ensures Valid() && Grown()
      ensures node != null <==> ClusterIndex(v, offset) < count || |old(nodes)| > count
      ensures node != null ==> ClusterIndex(v, offset) < |nodes| && node == nodes[ClusterIndex(v, offset)]
      ensures node != null ==> cluster == Cluster(ClusterIndex(v, offset))
    {
      hide Cached, Walk, Next, At, IsValidCluster, InChain, EndsAfter, ClusterIndex, Valid;
      First();
      ghost var k := ClusterIndex(v, offset);
      CachedWhere(count, |nodes|, k);
      cluster := CalcCluster(offset);
      ListHolds(count, |old(nodes)|);
      NodesAre();
      node := FindNode(cluster);
      if node != null {
        PlaceInList(count, k, node);
      }
    }

    lemma TailOf(offset: nat, len: nat)
      requires offset + len <= size < U32
      ensures (if offset + len % U32 < size then offset + len % U32 else size) == offset + len
    {
    }

    /**
     Read, on a volume with clusters of one sector: a range inside the file is copied byte
     for byte; one that exceeds it is refused. The code runs off its list exactly for an empty
     range at the end of a file that fills its clusters, unless the end mark is cached.
     */
    method Read(buf: array<nat>, at: nat, offset: nat, len: nat, ghost count: nat) returns (found: bool, n: nat)
      requires Valid() && offset < U32 && at + len <= buf.Length
      requires offset + len <= size ==> Covers(count)
      modifies this`nodes, Last()`next, buf
      ensures Valid() && Grown()
      ensures found <==>
              offset + len > size || len > 0 || ClusterIndex(v, offset) < count || |old(nodes)| > count
      ensures offset + len > size || !found ==> n == 0 && buf[..] == old(buf[..])
      ensures offset + len <= size && found ==> n == len && Copied(count, buf[..], old(buf[..]), at, offset, len)
    {
      hide Cached, Walk, Next, At, IsValidCluster, CalcSector, BlockAt, Block, Copied, InChain, EndsAfter;
      hide Covers, ClusterIndex;
      if offset + len > size {
        return true, 0;
      }
      InsideCount(count, offset);
      TailOf(offset, len);
      var tail := if offset + len % U32 < size then offset + len % U32 else size;
      var remains := tail - offset;
      var cluster, node := Locate(offset, count);
      if node == null {
        return false, 0;
      }
      var sector := CalcSector(v, cluster, offset);
      if remains > 0 {
        PlaceOf(count, ClusterIndex(v, offset), offset);
      }
      remains := CopyRange(buf, at, offset, remains, node, sector, cluster, count);
      found, n := true, tail - offset - remains;
    }
  }
}
