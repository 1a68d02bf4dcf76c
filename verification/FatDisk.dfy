/**
 The layout of a FAT32 volume on the disk: where the copies of the table and the data clusters
 lie, and how writing one sector shows in the volume read back.
 */
module FatDisk {
  import opened Bytes
  import opened FatVolume
  import opened ModArith

  /** The fields of the boot sector's parameter block that the driver uses. */
  datatype Geometry = Geometry(sectors: nat, perCluster: nat, reserved: nat, fatCount: nat, fatSize: nat, root: nat) {
    /** One past the largest cluster number `alloc_cluster` tries, in 32 bits. */
    function Clusters(): nat
      requires perCluster > 0
    {
      (sectors / perCluster + 2) % 0x1_0000_0000
    }

    function FirstData(): nat {
      reserved + fatCount * fatSize
    }

    /** `cluster_sector`; the clusters in use are at least 2. */
    function ClusterSector(c: nat): nat
      requires c >= 2
    {
      FirstData() + (c - 2) * perCluster
    }

    /** Where `fat_entry` reads, in 32 bits, of which the ATA commands pass on 28. */
    function TableSector(c: nat): nat {
      (reserved + c * 4 % 0x1_0000_0000 / 512) % 0x1000_0000
    }

    /** The copies of the table lie on the disk, and its sectors can be addressed with 28 bits. */
    predicate Fits(disk: nat) {
      perCluster > 0 && fatCount > 0 && fatSize > 0 && FirstData() <= disk <= 0x1000_0000
    }

    /** The copy of the table that a number leads into, counted from the first. */
    function Copy(c: nat): nat
      requires fatSize > 0
    {
      QuotientNatural(c, 128 * fatSize);
      c / (128 * fatSize)
    }

    /** The entry within that copy. */
    function Entry(c: nat): (b: nat)
      requires fatSize > 0
      ensures b < 128 * fatSize
    {
      c % (128 * fatSize)
    }

    /** How many cluster numbers, from 0 on, are tried by the allocator and backed by table entries and sectors. */
    function Backed(disk: nat): (n: nat)
      requires Fits(disk)
      ensures n <= Clusters() && n <= 128 * fatSize
    {
      Min(Clusters(), Min(128 * fatSize, 2 + (disk - FirstData()) / perCluster))
    }
  }

  /** What it means for a cluster number to be backed. */
  lemma BackedIff(g: Geometry, disk: nat, c: nat)
    requires g.Fits(disk) && c >= 2
    ensures c < g.Backed(disk) <==> c < g.Clusters() && c < 128 * g.fatSize && g.ClusterSector(c) + g.perCluster <= disk
  {
    var room := disk - g.FirstData();
    Quotient(room, g.perCluster, c - 2);
  }

  lemma Quotient(room: nat, w: nat, i: nat)
    requires w > 0
    ensures i < room / w <==> i * w + w <= room
  {
    assert room == (room / w) * w + room % w;
    if i < room / w {
      RowRange(room / w, w, i, w - 1);
    } else {
      assert i * w == (room / w) * w + (i - room / w) * w;
      assert (i - room / w) * w >= 0;
    }
  }

  /** Backed cluster numbers are below the values that end a chain. */
  lemma BackedRange(g: Geometry, disk: nat)
    requires g.Fits(disk)
    ensures g.Backed(disk) <= EOC
  {
    hide Geometry.Backed;
    var n := g.Backed(disk);
    ProductAtLeast(g.fatSize, g.fatCount);
    if n > EOC {
      BackedIff(g, disk, n - 1);
      ProductAtLeast(n - 3, g.perCluster);
    }
  }

  lemma ClusterRange(g: Geometry, disk: nat, c: nat)
    requires g.Fits(disk) && 2 <= c < g.Backed(disk)
    ensures g.FirstData() <= g.ClusterSector(c) <= g.ClusterSector(c) + g.perCluster <= disk
  {
    hide Geometry.Backed;
    BackedIff(g, disk, c);
    RowRange(c - 1, g.perCluster, c - 2, 0);
  }

  /** Sectors of different clusters are different sectors. */
  lemma ClustersApart(g: Geometry, c: nat, i: nat, c': nat)
    requires 2 <= c && 2 <= c' && i < g.perCluster
    requires g.ClusterSector(c) + i == g.ClusterSector(c')
    ensures c == c' && i == 0
  {
    RowsApart(g.perCluster, c - 2, i, c' - 2, 0);
  }

  lemma CopyRange(g: Geometry, copy: nat, s: nat)
    requires copy < g.fatCount && s < g.fatSize
    ensures g.reserved <= g.reserved + copy * g.fatSize + s < g.FirstData()
  {
    RowRange(g.fatCount, g.fatSize, copy, s);
  }

  lemma CopiesApart(g: Geometry, copy: nat, s: nat, copy': nat, s': nat)
    requires s < g.fatSize && s' < g.fatSize
    requires g.reserved + copy * g.fatSize + s == g.reserved + copy' * g.fatSize + s'
    ensures copy == copy' && s == s'
  {
    RowsApart(g.fatSize, copy, s, copy', s');
  }

  lemma CopyOnDisk(g: Geometry, disk: nat, copy: nat, s: nat)
    requires g.Fits(disk) && copy < g.fatCount && s < g.fatSize
    ensures 0 <= copy * g.fatSize && g.reserved + copy * g.fatSize + s < g.FirstData() <= disk
  {
    CopyRange(g, copy, s);
  }

  // ---- The volume on a disk ----

  ghost function FatCopy(g: Geometry, disk: seq<Sector>, copy: nat, s: nat): Sector
    requires g.Fits(|disk|) && copy < g.fatCount && s < g.fatSize
  {
    CopyOnDisk(g, |disk|, copy, s);
    disk[g.reserved + copy * g.fatSize + s]
  }

  ghost function FatAt(g: Geometry, disk: seq<Sector>, c: nat): nat
    requires g.Fits(|disk|) && c < 128 * g.fatSize
  {
    EntryInTable(c, g.fatSize);
    Word32(FatCopy(g, disk, 0, c / 128), c * 4 % 512) % 0x1000_0000
  }

  /** Cluster c's entry lies in sector c / 128 of the table, whole. */
  lemma EntryInTable(c: int, fatSize: int)
    requires 0 <= c < 128 * fatSize
    ensures 0 <= c / 128 < fatSize && c * 4 / 512 == c / 128 && c * 4 % 512 == 4 * (c % 128)
  {
    ModUnique(c * 4, c / 128, 4 * (c % 128), 512);
  }

  ghost function DataAt(g: Geometry, disk: seq<Sector>, c: nat): Sector
    requires g.Fits(|disk|) && c < g.Backed(|disk|)
  {
    if c < 2 then Zeros() else
      ClusterRange(g, |disk|, c);
      disk[g.ClusterSector(c)]
  }

  ghost function Volume(g: Geometry, disk: seq<Sector>): (v: Vol)
    requires g.Fits(|disk|)
    ensures |v.fat| == |v.data| == g.Backed(|disk|)
  {
    Vol(seq(g.Backed(|disk|), c requires 0 <= c < g.Backed(|disk|) => FatAt(g, disk, c)),
        seq(g.Backed(|disk|), c requires 0 <= c < g.Backed(|disk|) => DataAt(g, disk, c)))
  }

  /** All copies of the table hold the same sectors. */
  ghost predicate Mirrored(g: Geometry, disk: seq<Sector>)
    requires g.Fits(|disk|)
  {
    forall copy: nat, s: nat | copy < g.fatCount && s < g.fatSize ::
      FatCopy(g, disk, copy, s) == FatCopy(g, disk, 0, s)
  }

  // ---- Reading entries by number, as the allocator does for numbers beyond the table, too ----

  /** The entry `fat_entry` reads for a number. */
  ghost function Probe(g: Geometry, disk: seq<Sector>, c: nat): nat
    requires g.TableSector(c) < |disk|
  {
    EntryInTable(c, c / 128 + 1);
    Word32(disk[g.TableSector(c)], c * 4 % 512) % 0x1000_0000
  }

  /** Every entry the allocator may read lies on the disk. */
  ghost predicate Readable(g: Geometry, disk: nat)
    requires g.perCluster > 0
  {
    forall c: nat | 2 <= c < g.Clusters() :: g.TableSector(c) < disk
  }

  /** The allocator finds no free entry, whatever it reads. */
  ghost predicate Exhausted(g: Geometry, disk: seq<Sector>)
    requires g.perCluster > 0
  {
    forall c: nat | 2 <= c < g.Clusters() :: g.TableSector(c) < |disk| && Probe(g, disk, c) != FREE
  }

  /** A number behind the table names an entry of one of its copies. */
  lemma ProbeCopy(g: Geometry, disk: seq<Sector>, c: nat)
    requires g.Fits(|disk|) && Mirrored(g, disk) && c < 0x4000_0000 && g.Copy(c) < g.fatCount
    ensures g.TableSector(c) < |disk| && Probe(g, disk, c) == FatAt(g, disk, g.Entry(c))
  {
    var copy, b := g.Copy(c), g.Entry(c);
    assert c == 128 * (copy * g.fatSize) + b by {
      assert c == copy * (128 * g.fatSize) + b;
      assert copy * (128 * g.fatSize) == 128 * (copy * g.fatSize);
    }
    hide Geometry.Copy, Geometry.Entry;
    EntryInTable(b, g.fatSize);
    CopyOnDisk(g, |disk|, copy, b / 128);
    SectorOf(g, copy * g.fatSize, b, c);
    assert disk[g.TableSector(c)] == FatCopy(g, disk, copy, b / 128);
  }

  lemma SectorOf(g: Geometry, sectors: nat, b: nat, c: nat)
    requires c == 128 * sectors + b < 0x4000_0000 && g.reserved + sectors + b / 128 < 0x1000_0000
    ensures g.TableSector(c) == g.reserved + sectors + b / 128 && c * 4 % 512 == b * 4 % 512
    ensures c * 4 % 0x1_0000_0000 / 512 == sectors + b / 128
  {
    assert c * 4 % 0x1_0000_0000 == c * 4;
    assert c * 4 / 512 == sectors + b / 128;
  }

  /** Where `fat_entry` and `set_fat_entry` find the entry of a backed cluster. */
  lemma TablePosition(g: Geometry, disk: seq<Sector>, c: nat)
    requires g.Fits(|disk|) && c < g.Backed(|disk|)
    ensures g.TableSector(c) == g.reserved + c / 128 < |disk| && c / 128 < g.fatSize && c * 4 % 512 <= 508
    ensures c * 4 % 0x1_0000_0000 / 512 == c / 128
    ensures disk[g.TableSector(c)] == FatCopy(g, disk, 0, c / 128) && Probe(g, disk, c) == FatAt(g, disk, c)
  {
    BackedRange(g, |disk|);
    EntryInTable(c, g.fatSize);
    CopyOnDisk(g, |disk|, 0, c / 128);
    hide Geometry.Backed, Geometry.FirstData;
    SectorOf(g, 0, c, c);
  }

  /** The number names an entry of some copy of the table that is not free once all backed clusters are taken. */
  ghost predicate Answered(g: Geometry, disk: seq<Sector>, c: nat)
    requires g.Fits(|disk|)
  {
    c < 0x4000_0000 && g.Copy(c) < g.fatCount && (2 <= g.Entry(c) < g.Backed(|disk|) || FatAt(g, disk, g.Entry(c)) != FREE)
  }

  /** Once all backed clusters are taken, the allocator finds no free entry behind theirs either. */
  ghost predicate Closed(g: Geometry, disk: seq<Sector>)
    requires g.Fits(|disk|)
  {
    forall c: nat | g.Backed(|disk|) <= c < g.Clusters() :: Answered(g, disk, c)
  }

  lemma ClosedExhausted(g: Geometry, disk: seq<Sector>)
    requires g.Fits(|disk|) && Mirrored(g, disk) && Closed(g, disk) && Full(Volume(g, disk))
    ensures Exhausted(g, disk)
  {
    hide Geometry.Backed, Geometry.Entry, Geometry.Copy, Geometry.Clusters, Geometry.TableSector, FatAt, DataAt, Probe, Mirrored;
    forall c: nat | 2 <= c < g.Clusters()
      ensures g.TableSector(c) < |disk| && Probe(g, disk, c) != FREE
    {
      if c < g.Backed(|disk|) {
        TablePosition(g, disk, c);
        FullEntry(g, disk, c);
      } else {
        assert Answered(g, disk, c);
        ProbeCopy(g, disk, c);
        if 2 <= g.Entry(c) < g.Backed(|disk|) {
          FullEntry(g, disk, g.Entry(c));
        }
      }
    }
  }

  lemma FullEntry(g: Geometry, disk: seq<Sector>, c: nat)
    requires g.Fits(|disk|) && Full(Volume(g, disk)) && 2 <= c < g.Backed(|disk|)
    ensures FatAt(g, disk, c) != FREE
  {
    hide FatAt;
    var v := Volume(g, disk);
    assert v.fat[c] == FatAt(g, disk, c);
    assert c !in Free(v);
  }

  lemma ClosedKept(g: Geometry, disk: seq<Sector>, disk': seq<Sector>)
    requires g.Fits(|disk|) && |disk'| == |disk| && Closed(g, disk)
    requires forall b: nat | b < 128 * g.fatSize && (b < 2 || g.Backed(|disk|) <= b) :: FatAt(g, disk', b) == FatAt(g, disk, b)
    ensures Closed(g, disk')
  {
    hide Geometry.Backed, Geometry.Entry, Geometry.Copy, Geometry.Clusters, FatAt;
    forall c: nat | g.Backed(|disk|) <= c < g.Clusters()
      ensures Answered(g, disk', c)
    {
      assert Answered(g, disk, c);
    }
  }

  /** Entries of different clusters in one sector of the table do not overlap. */
  lemma EntriesApart(b: nat, c: nat)
    requires b / 128 == c / 128 && b != c
    ensures b * 4 % 512 + 4 <= c * 4 % 512 || c * 4 % 512 + 4 <= b * 4 % 512
  {
    EntryInTable(b, b / 128 + 1);
    EntryInTable(c, c / 128 + 1);
  }

  lemma SameTable(g: Geometry, disk: seq<Sector>, disk': seq<Sector>)
    requires g.Fits(|disk|) && |disk'| == |disk|
    requires forall s: nat | s < g.fatSize :: FatCopy(g, disk', 0, s) == FatCopy(g, disk, 0, s)
    ensures forall b: nat | b < 128 * g.fatSize :: FatAt(g, disk', b) == FatAt(g, disk, b)
    ensures Volume(g, disk').fat == Volume(g, disk).fat
  {
    hide FatCopy, Geometry.Backed;
    forall b: nat | b < 128 * g.fatSize
      ensures FatAt(g, disk', b) == FatAt(g, disk, b)
    {
      EntryInTable(b, g.fatSize);
    }
  }

  /** Writing sector i of a cluster changes the data of that cluster, if i is 0, and nothing else. */
  lemma WriteCluster(g: Geometry, disk: seq<Sector>, disk': seq<Sector>, c: nat, i: nat, s: Sector)
    requires g.Fits(|disk|) && 2 <= c < g.Backed(|disk|) && i < g.perCluster
    requires |disk'| == |disk| && g.ClusterSector(c) + i < |disk|
    requires disk' == disk[g.ClusterSector(c) + i := s]
    ensures Volume(g, disk').fat == Volume(g, disk).fat
    ensures Volume(g, disk').data == if i == 0 then Volume(g, disk).data[c := s] else Volume(g, disk).data
    ensures Mirrored(g, disk) ==> Mirrored(g, disk')
    ensures Closed(g, disk) ==> Closed(g, disk')
  {
    hide FatCopy, DataAt, FatAt, Closed, Geometry.Clusters, Geometry.FirstData, Geometry.Backed;
    ClusterRange(g, |disk|, c);
    forall copy: nat, t: nat | copy < g.fatCount && t < g.fatSize
      ensures FatCopy(g, disk', copy, t) == FatCopy(g, disk, copy, t)
    {
      TableAfterCluster(g, disk, disk', g.ClusterSector(c) + i, s, copy, t);
    }
    SameTable(g, disk, disk');
    if Closed(g, disk) {
      ClosedKept(g, disk, disk');
    }
    forall b: nat | b < g.Backed(|disk|)
      ensures DataAt(g, disk', b) == if b == c && i == 0 then s else DataAt(g, disk, b)
    {
      ClusterAfter(g, disk, disk', c, i, s, b);
    }
  }

  lemma TableAfterCluster(g: Geometry, disk: seq<Sector>, disk': seq<Sector>, at: nat, s: Sector, copy: nat, t: nat)
    requires g.Fits(|disk|) && g.FirstData() <= at < |disk| && disk' == disk[at := s]
    requires copy < g.fatCount && t < g.fatSize
    ensures FatCopy(g, disk', copy, t) == FatCopy(g, disk, copy, t)
  {
    CopyOnDisk(g, |disk|, copy, t);
  }

  lemma ClusterAfter(g: Geometry, disk: seq<Sector>, disk': seq<Sector>, c: nat, i: nat, s: Sector, b: nat)
    requires g.Fits(|disk|) && 2 <= c < g.Backed(|disk|) && i < g.perCluster && b < g.Backed(|disk|)
    requires g.ClusterSector(c) + i < |disk| && disk' == disk[g.ClusterSector(c) + i := s]
    ensures DataAt(g, disk', b) == if b == c && i == 0 then s else DataAt(g, disk, b)
  {
    if b >= 2 {
      ClusterRange(g, |disk|, b);
      if g.ClusterSector(c) + i == g.ClusterSector(b) {
        ClustersApart(g, c, i, b);
      }
    }
  }

  /** The disk once sector s of the table has been written to its first n copies. */
  ghost predicate CopiesWritten(g: Geometry, disk: seq<Sector>, disk': seq<Sector>, s: nat, sector: Sector, n: nat)
    requires g.Fits(|disk|) && s < g.fatSize && n <= g.fatCount
  {
    && |disk'| == |disk|
    && (forall copy: nat | copy < n :: FatCopy(g, disk', copy, s) == sector)
    && (forall m: nat | m < |disk| && disk'[m] != disk[m] :: exists copy: nat :: copy < n && m == g.reserved + copy * g.fatSize + s)
  }

  /** Which sectors of which copies a table write touches. */
  lemma CopiesAfter(g: Geometry, disk: seq<Sector>, disk': seq<Sector>, s: nat, sector: Sector, copy: nat, t: nat)
    requires g.Fits(|disk|) && s < g.fatSize && CopiesWritten(g, disk, disk', s, sector, g.fatCount)
    requires copy < g.fatCount && t < g.fatSize
    ensures FatCopy(g, disk', copy, t) == if t == s then sector else FatCopy(g, disk, copy, t)
  {
    CopyOnDisk(g, |disk|, copy, t);
    var m := g.reserved + copy * g.fatSize + t;
    if t != s && disk'[m] != disk[m] {
      var copy': nat :| copy' < g.fatCount && m == g.reserved + copy' * g.fatSize + s;
      CopiesApart(g, copy, t, copy', s);
    }
  }

  /** Writing one entry to every copy changes that entry of the volume and nothing else. */
  lemma WriteFat(g: Geometry, disk: seq<Sector>, disk': seq<Sector>, c: nat, value: nat)
    requires g.Fits(|disk|) && 2 <= c < g.Backed(|disk|) && c / 128 < g.fatSize && c * 4 % 512 <= 508 && value < 0x1000_0000 && Mirrored(g, disk)
    requires CopiesWritten(g, disk, disk', c / 128, Put32(FatCopy(g, disk, 0, c / 128), c * 4 % 512, value), g.fatCount)
    ensures Volume(g, disk').fat == Volume(g, disk).fat[c := value]
    ensures Volume(g, disk').data == Volume(g, disk).data
    ensures Mirrored(g, disk')
    ensures Closed(g, disk) ==> Closed(g, disk')
  {
    hide FatCopy, DataAt, FatAt, Put32, Closed, Geometry.Clusters, Geometry.FirstData, Geometry.Backed;
    var sector := Put32(FatCopy(g, disk, 0, c / 128), c * 4 % 512, value);
    forall copy: nat, t: nat | copy < g.fatCount && t < g.fatSize
      ensures FatCopy(g, disk', copy, t) == if t == c / 128 then sector else FatCopy(g, disk, copy, t)
    {
      CopiesAfter(g, disk, disk', c / 128, sector, copy, t);
    }
    forall b: nat | b < 128 * g.fatSize
      ensures FatAt(g, disk', b) == if b == c then value % 0x1000_0000 else FatAt(g, disk, b)
    {
      EntryInTable(b, g.fatSize);
      EntryAfter(g, disk, disk', c, value, b);
    }
    forall b: nat | b < g.Backed(|disk|)
      ensures DataAt(g, disk', b) == DataAt(g, disk, b)
    {
      DataAfter(g, disk, disk', c / 128, sector, b);
    }
    if Closed(g, disk) {
      ClosedKept(g, disk, disk');
    }
  }

  lemma EntryAfter(g: Geometry, disk: seq<Sector>, disk': seq<Sector>, c: nat, value: nat, b: nat)
    requires g.Fits(|disk|) && |disk'| == |disk| && b < 128 * g.fatSize && c < 128 * g.fatSize && value < 0x1_0000_0000
    requires b / 128 < g.fatSize && c / 128 < g.fatSize && c * 4 % 512 <= 508
    requires FatCopy(g, disk', 0, b / 128)
      == if b / 128 == c / 128 then Put32(FatCopy(g, disk, 0, c / 128), c * 4 % 512, value) else FatCopy(g, disk, 0, b / 128)
    ensures FatAt(g, disk', b) == if b == c then value % 0x1000_0000 else FatAt(g, disk, b)
  {
    hide FatCopy, Put32, Geometry.Backed, Geometry.FirstData;
    if b / 128 == c / 128 && b != c {
      EntriesApart(b, c);
    }
  }

  lemma DataAfter(g: Geometry, disk: seq<Sector>, disk': seq<Sector>, s: nat, sector: Sector, b: nat)
    requires g.Fits(|disk|) && s < g.fatSize && CopiesWritten(g, disk, disk', s, sector, g.fatCount) && b < g.Backed(|disk|)
    ensures DataAt(g, disk', b) == DataAt(g, disk, b)
  {
    if b >= 2 {
      ClusterRange(g, |disk|, b);
      var m := g.ClusterSector(b);
      if disk'[m] != disk[m] {
        var copy: nat :| copy < g.fatCount && m == g.reserved + copy * g.fatSize + s;
        CopyRange(g, copy, s);
      }
    }
  }

  /** A number the allocator comes to can be read if clusters are free or every number can. */
  lemma NextProbe(g: Geometry, disk: seq<Sector>, c: nat)
    requires g.Fits(|disk|) && 2 <= c < g.Clusters() && (!Full(Volume(g, disk)) || Readable(g, |disk|))
    requires forall b: nat | 2 <= b < c :: g.TableSector(b) < |disk| && Probe(g, disk, b) != FREE
    ensures c < g.Backed(|disk|) || g.TableSector(c) < |disk|
  {
    hide Geometry.Backed, Geometry.Clusters, Geometry.TableSector, Probe;
    if c >= g.Backed(|disk|) {
      AllProbed(g, disk, c);
    }
  }

  /** When all backed clusters have been tried in vain, none is free. */
  lemma AllProbed(g: Geometry, disk: seq<Sector>, c: nat)
    requires g.Fits(|disk|) && c >= g.Backed(|disk|)
    requires forall b: nat | 2 <= b < c :: g.TableSector(b) < |disk| && Probe(g, disk, b) != FREE
    ensures Full(Volume(g, disk))
  {
    hide Geometry.Backed, Geometry.Clusters, Geometry.TableSector, Probe, FatAt;
    var v := Volume(g, disk);
    forall b | 2 <= b < |v.fat|
      ensures v.fat[b] != FREE
    {
      TablePosition(g, disk, b);
      assert v.fat[b] == FatAt(g, disk, b);
    }
  }

  /** The first number with a free entry is the first free cluster, unless no backed cluster is free. */
  lemma FirstProbed(g: Geometry, disk: seq<Sector>, c: nat)
    requires g.Fits(|disk|) && 2 <= c < g.Clusters() && g.TableSector(c) < |disk| && Probe(g, disk, c) == FREE
    requires forall b: nat | 2 <= b < c :: g.TableSector(b) < |disk| && Probe(g, disk, b) != FREE
    ensures c < g.Backed(|disk|) ==> FirstFree(Volume(g, disk), c)
    ensures c < g.Backed(|disk|) <==> !Full(Volume(g, disk))
    ensures !Exhausted(g, disk)
  {
    hide Geometry.Backed, Geometry.Clusters, Geometry.TableSector, Probe, FatAt;
    var v := Volume(g, disk);
    if c >= g.Backed(|disk|) {
      AllProbed(g, disk, c);
    } else {
      forall b: nat | 2 <= b <= c
        ensures v.fat[b] == FREE <==> b == c
      {
        TablePosition(g, disk, b);
        assert v.fat[b] == FatAt(g, disk, b);
      }
      assert c in Free(v);
    }
  }

  lemma NothingProbed(g: Geometry, disk: seq<Sector>, c: nat)
    requires g.Fits(|disk|) && c >= g.Clusters()
    requires forall b: nat | 2 <= b < c :: g.TableSector(b) < |disk| && Probe(g, disk, b) != FREE
    ensures Full(Volume(g, disk)) && Exhausted(g, disk)
  {
    hide Geometry.Backed, Geometry.Clusters, Geometry.TableSector, Probe;
    AllProbed(g, disk, c);
  }

  lemma FirstCopy(g: Geometry, start: seq<Sector>, after: seq<Sector>, s: nat, sector: Sector)
    requires g.Fits(|start|) && s < g.fatSize && g.reserved + s < |start| && after == start[g.reserved + s := sector]
    ensures CopiesWritten(g, start, after, s, sector, 1)
  {
    assert g.reserved + 0 * g.fatSize + s == g.reserved + s;
  }

  lemma NextCopy(g: Geometry, start: seq<Sector>, before: seq<Sector>, after: seq<Sector>, s: nat, sector: Sector, copy: nat)
    requires g.Fits(|start|) && s < g.fatSize && copy < g.fatCount
    requires CopiesWritten(g, start, before, s, sector, copy)
    requires g.reserved + copy * g.fatSize + s < |before|
    requires after == before[g.reserved + copy * g.fatSize + s := sector]
    ensures CopiesWritten(g, start, after, s, sector, copy + 1)
  {
    forall c: nat | c < copy + 1
      ensures FatCopy(g, after, c, s) == sector
    {
      CopyOnDisk(g, |start|, c, s);
      assert c < copy ==> FatCopy(g, before, c, s) == sector;
    }
    forall m: nat | m < |start| && after[m] != start[m]
      ensures exists c: nat :: c < copy + 1 && m == g.reserved + c * g.fatSize + s
    {
      if m != g.reserved + copy * g.fatSize + s {
        var c: nat :| c < copy && m == g.reserved + c * g.fatSize + s;
      }
    }
  }

  // ---- Disks on which the allocator may go too far, and the disk that the system is built on ----

  /** On a disk of exactly the advertised number of sectors the allocator tries numbers that are not backed. */
  lemma AdvertisedSize(g: Geometry)
    requires g.Fits(g.sectors) && g.FirstData() > g.sectors % g.perCluster
    ensures g.Backed(g.sectors) < g.Clusters()
  {
    var q, w := g.sectors / g.perCluster, g.perCluster;
    AtMost(g.sectors, w);
    assert g.sectors == q * w + g.sectors % w;
    hide Geometry.Backed;
    if q > 0 {
      assert q * w == (q - 1) * w + w;
      BackedIff(g, g.sectors, q + 1);
    }
  }

  /** A free entry behind those of the backed clusters keeps the allocator from finding the disk full. */
  lemma FreeBehind(g: Geometry, disk: seq<Sector>, c: nat)
    requires g.Fits(|disk|) && g.Backed(|disk|) <= c < g.Clusters() && 2 <= c < 128 * g.fatSize
    requires c < 0x4000_0000 && FatAt(g, disk, c) == FREE
    ensures !Exhausted(g, disk) && !Closed(g, disk)
  {
    EntryInTable(c, g.fatSize);
    CopyOnDisk(g, |disk|, 0, c / 128);
    SectorOf(g, 0, c, c);
    assert Probe(g, disk, c) == FREE;
    SmallModulus(c, 128 * g.fatSize);
    assert !Answered(g, disk, c);
  }

  lemma AtMost(x: nat, m: nat)
    requires m > 0
    ensures x / m <= x
  {
    assert x == (x / m) * m + x % m;
    QuotientNatural(x, m);
    ProductAtLeast(x / m, m);
  }

  /**
   The 64 MiB image that the system boots from, with a volume of 125952 sectors in clusters of one and two copies of
   a table long enough for them: more than 65536 clusters are backed, all those that the table has room for.
   */
  lemma SystemImage(fatSize: nat)
    requires 513 <= fatSize <= 0x4000
    ensures var g := Geometry(125952, 1, 32, 2, fatSize, 2);
      && g.Fits(131072) && g.Clusters() == 125954
      && (fatSize <= 2000 ==> g.Backed(131072) == Min(125954, 128 * fatSize) > 0x1_0000)
  {
  }
}
