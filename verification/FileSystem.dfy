/** `system_plikow.c`: the FAT32 driver over an ATA disk of 512-byte sectors. */
module FileSystem {
  import opened Bytes
  import opened FatVolume
  import opened FatFrames
  import opened FatSlots
  import opened FatDisk
  import opened FatUpdates
  import opened FatWrites
  import opened ModArith

  const SPACE: byte := 0x20

  // ---- Short names ----

  /** Length of the part of a name that goes into the first eight bytes. */
  function BaseLength(input: seq<byte>, n: nat): (m: nat)
    requires n <= |input| && n <= 8
    ensures n <= m <= |input| && m <= 8
    decreases 8 - n
  {
    if n == |input| || input[n] == DOT || n == 8 then n else BaseLength(input, n + 1)
  }

  /** The eleven bytes a name is stored as; an extension counts only when its dot follows at most eight characters. */
  ghost function ShortName(input: seq<byte>): (name: seq<byte>)
    ensures |name| == 11
  {
    var n := BaseLength(input, 0);
    seq(11, j requires 0 <= j =>
      if j < 8 then (if j < n then input[j] else SPACE)
      else if n < |input| && input[n] == DOT && n + 1 + (j - 8) < |input| then input[n + 1 + (j - 8)] else SPACE)
  }

  /** `make_name`; C strings hold no zero byte. */
  method MakeName(input: seq<byte>, output: array<byte>)
    requires output.Length == 11
    modifies output
    ensures output[..] == ShortName(input)
  {
    for i := 0 to 11
      invariant forall j :: 0 <= j < i ==> output[j] == SPACE
    {
      output[i] := SPACE;
    }
    var n := MakeBase(input, output);
    if n < |input| && input[n] == DOT {
      MakeExtension(input, n, output);
    }
  }

  method MakeBase(input: seq<byte>, output: array<byte>) returns (n: nat)
    requires output.Length == 11
    modifies output
    ensures n == BaseLength(input, 0)
    ensures forall j :: 0 <= j < 11 ==> output[j] == if j < n then input[j] else old(output[j])
  {
    n := 0;
    while n < |input| && input[n] != DOT && n < 8
      invariant n <= |input| && n <= 8
      invariant forall j :: 0 <= j < 11 ==> output[j] == if j < n then input[j] else old(output[j])
      invariant BaseLength(input, 0) == BaseLength(input, n)
    {
      output[n] := input[n];
      n := n + 1;
    }
  }

  method MakeExtension(input: seq<byte>, n: nat, output: array<byte>)
    requires output.Length == 11 && n < |input|
    modifies output
    ensures forall j :: 0 <= j < 11 ==>
      output[j] == if j >= 8 && n + 1 + (j - 8) < |input| then input[n + 1 + (j - 8)] else old(output[j])
  {
    var i := 8;
    while n + 1 + (i - 8) < |input| && i < 11
      invariant 8 <= i <= 11
      invariant forall j :: 0 <= j < 8 || i <= j < 11 ==> output[j] == old(output[j])
      invariant forall j :: 8 <= j < i ==> n + 1 + (j - 8) < |input| && output[j] == input[n + 1 + (j - 8)]
    {
      output[i] := input[n + 1 + (i - 8)];
      i := i + 1;
    }
  }

  // ---- What names are stored as ----

  const BLANKS: seq<byte> := [0x20, 0x20, 0x20, 0x20, 0x20, 0x20, 0x20, 0x20, 0x20, 0x20, 0x20]

  lemma {:induction false} BaseEnds(input: seq<byte>, n: nat, m: nat)
    requires n <= m <= |input| && m <= 8 && (forall j :: n <= j < m ==> input[j] != 0x2E)
    requires m == |input| || m == 8 || input[m] == 0x2E
    ensures BaseLength(input, n) == m
    decreases m - n
  {
    if n < m {
      BaseEnds(input, n + 1, m);
    }
  }

  /** A name with a base of up to eight bytes and an extension: both padded with blanks, the extension cut to three. */
  lemma StoredParts(base: seq<byte>, extension: seq<byte>)
    requires |base| <= 8 && 0x2E !in base
    ensures ShortName(base + [0x2E] + extension)
         == base + BLANKS[..8 - |base|] + extension[..Min(|extension|, 3)] + BLANKS[..3 - Min(|extension|, 3)]
  {
    var input := base + [0x2E] + extension;
    BaseEnds(input, 0, |base|);
  }

  /** A name without a dot: its first eight bytes, padded with blanks. The same holds when the first dot comes later than that. */
  lemma StoredPlain(name: seq<byte>)
    requires forall j :: 0 <= j < |name| && j <= 8 ==> name[j] != 0x2E
    ensures ShortName(name) == name[..Min(|name|, 8)] + BLANKS[..11 - Min(|name|, 8)]
  {
    BaseEnds(name, 0, Min(|name|, 8));
  }

  /** Names of a base and an extension that hold no blanks are stored alike only when they are the same. */
  lemma StoredApart(base: seq<byte>, extension: seq<byte>, base': seq<byte>, extension': seq<byte>)
    requires |base| <= 8 && |extension| <= 3 && |base'| <= 8 && |extension'| <= 3 && 0x2E !in base && 0x2E !in base'
    requires 0x20 !in base && 0x20 !in extension && 0x20 !in base' && 0x20 !in extension'
    ensures ShortName(base + [0x2E] + extension) == ShortName(base' + [0x2E] + extension') <==> base == base' && extension == extension'
  {
    hide ShortName;
    StoredParts(base, extension);
    StoredParts(base', extension');
    var s, t := ShortName(base + [0x2E] + extension), ShortName(base' + [0x2E] + extension');
    assert extension[..Min(|extension|, 3)] == extension && extension'[..Min(|extension'|, 3)] == extension';
    if s == t {
      PartUnique(base, base', s, 0, 8);
      PartUnique(extension, extension', s, 8, 11);
    }
  }

  /** What stands before the first blank of a field. */
  lemma PartUnique(a: seq<byte>, b: seq<byte>, s: seq<byte>, from: nat, to: nat)
    requires from + |a| <= to <= |s| && from + |b| <= to && 0x20 !in a && 0x20 !in b
    requires forall j :: from <= j < to ==> s[j] == if j < from + |a| then a[j - from] else 0x20
    requires forall j :: from <= j < to ==> s[j] == if j < from + |b| then b[j - from] else 0x20
    ensures a == b
  {
    assert forall j :: 0 <= j < |a| ==> a[j] in a;
    assert forall j :: 0 <= j < |b| ==> b[j] in b;
    var k := Min(|a|, |b|);
    assert from + k < to ==> s[from..to][k] == s[from + k];
    forall j | 0 <= j < |a| && j < |b|
      ensures a[j] == b[j]
    {
      assert s[from + j] == a[j];
    }
  }

  /** `cd` takes a name for the root when it starts with a slash and for the parent when it starts with two dots. */
  lemma SpecialNames(name: seq<byte>)
    ensures NamesRoot(name) <==> name != [] && name[0] as int == '/' as int
    ensures NamesParent(name) <==> |name| >= 2 && name[0] as int == '.' as int && name[1] as int == '.' as int
  {
  }

  // ---- The driver ----

  class Driver {
    const g: Geometry
    var disk: seq<Sector>
    var currentDir: nat
    var directoryStack: seq<nat>
    ghost var chains: Chains
    ghost var heads: set<nat>

    /** The chains tracked are those of the volume on the disk, and the copies of the table agree. */
    ghost predicate Sound()
      reads this
    {
      g.Fits(|disk|) && Mirrored(g, disk) && Linked(Volume(g, disk), chains)
    }

    ghost function Vol(): Vol
      reads this
      requires Sound()
    {
      Volume(g, disk)
    }

    ghost predicate Valid()
      reads this
    {
      && Sound() && currentDir in heads && Consistent(Vol(), chains, heads, g.root)
      && |directoryStack| <= 16 && forall i :: 0 <= i < |directoryStack| ==> directoryStack[i] in heads
    }

    /** `init_fs` on a disk whose volume is consistent. */
    constructor Mount(g: Geometry, disk: seq<Sector>, ghost chains: Chains, ghost heads: set<nat>)
      requires g.Fits(|disk|) && Mirrored(g, disk) && Consistent(Volume(g, disk), chains, heads, g.root)
      ensures Valid() && this.g == g && this.disk == disk && this.chains == chains && this.heads == heads
    {
      this.g, this.disk, this.chains, this.heads := g, disk, chains, heads;
      currentDir, directoryStack := g.root, [];
    }

    ghost function Tree(): Dirs
      reads this
      requires Valid()
    {
      DirsOf(Vol(), chains, heads)
    }

    /** Contents of a file by the eleven bytes of its name, in the directory with head d. */
    ghost function File(d: nat, wanted: seq<byte>): Contents
      reads this
      requires Valid() && d in heads
    {
      FatUpdates.File(Vol(), chains, heads, g.root, d, wanted)
    }

    /** Some free cluster can be stored as the head of a new entry, or the allocator notices that there is none at all. */
    ghost predicate HeadRoom()
      reads this
      requires Sound()
    {
      LowFree(Vol()) != {} || (Full(Vol()) && Exhausted(g, disk))
    }

    /** That many clusters are free, or the allocator will notice when there are none left. */
    ghost predicate Supplies(clusters: nat)
      reads this
      requires Sound()
    {
      clusters <= |Free(Vol())| || Closed(g, disk)
    }

    /**
     That many clusters below 65536 are free, or there are no free clusters beyond and the allocator will notice when
     none are left. A run of operations needs this of the disk.
     */
    ghost predicate HeadSupply(clusters: nat)
      reads this
      requires Sound()
    {
      clusters <= |LowFree(Vol())| || (Closed(g, disk) && Free(Vol()) == LowFree(Vol()))
    }

    lemma Supplied(clusters: nat)
      requires Sound() && HeadSupply(clusters)
      ensures clusters > 0 ==> HeadRoom()
    {
      hide Closed, Exhausted, Mirrored, Linked, Geometry.Backed, Volume;
      if LowFree(Vol()) == {} && Closed(g, disk) && Full(Vol()) {
        ClosedExhausted(g, disk);
      }
    }

    lemma SuppliedWrite(wanted: seq<byte>, size: nat, rest: nat)
      requires Valid() && Counts(g, |disk|, size) && HeadSupply(1 + More(1, size) + rest)
      ensures CanWrite(wanted, size)
    {
      hide Closed, Mirrored, Linked, FatVolume.Tree, Needed, More, Geometry.Backed, Volume;
      Supplied(1 + More(1, size) + rest);
      NeededMost(Tree(), chains, currentDir, wanted, size);
      SubsetSize(LowFree(Vol()), Free(Vol()));
    }

    /** The sector number as the drive sees it: 28 bits. */
    method ReadSector(sector: nat, buffer: array<byte>)
      requires sector % 0x1000_0000 < |disk| && buffer.Length == 512
      modifies buffer
      ensures buffer[..] == disk[sector % 0x1000_0000]
    {
      for i := 0 to 512
        invariant forall j :: 0 <= j < i ==> buffer[j] == disk[sector % 0x1000_0000][j]
      {
        buffer[i] := disk[sector % 0x1000_0000][i];
      }
    }

    /** The drive turns down a number past its end. */
    method WriteSector(sector: nat, buffer: array<byte>)
      requires buffer.Length == 512
      modifies `disk
      ensures var s := sector % 0x1000_0000;
        disk == if s < |old(disk)| then old(disk)[s := buffer[..]] else old(disk)
    {
      var s := sector % 0x1000_0000;
      if s < |disk| {
        disk := disk[s := buffer[..]];
      }
    }

    method FatEntry(cluster: nat) returns (value: nat)
      requires g.Fits(|disk|) && (cluster < g.Backed(|disk|) || g.TableSector(cluster) < |disk|)
      ensures g.TableSector(cluster) < |disk| && value == Probe(g, disk, cluster)
      ensures cluster < g.Backed(|disk|) ==> value == Volume(g, disk).fat[cluster]
    {
      hide FatCopy, FatAt, Geometry.Backed;
      var sector := new byte[512];
      if cluster < g.Backed(|disk|) {
        TablePosition(g, disk, cluster);
      }
      ReadSector(g.reserved + cluster * 4 % 0x1_0000_0000 / 512, sector);
      EntryInTable(cluster, cluster / 128 + 1);
      value := Word32(sector[..], cluster * 4 % 512) % 0x1000_0000;
    }

    /** Numbers that are not backed are written somewhere, too. */
    method SetFatEntry(cluster: nat, value: nat)
      requires g.Fits(|disk|) && 2 <= cluster && value < 0x1000_0000
      requires if cluster < g.Backed(|disk|) then Mirrored(g, disk) else g.TableSector(cluster) < |disk|
      modifies `disk
      ensures |disk| == |old(disk)|
      ensures cluster < g.Backed(|disk|) ==> Mirrored(g, disk)
      ensures cluster < g.Backed(|disk|) && old(Closed(g, disk)) ==> Closed(g, disk)
      ensures cluster < g.Backed(|disk|) ==> Volume(g, disk).fat == old(Volume(g, disk).fat)[cluster := value]
      ensures cluster < g.Backed(|disk|) ==> Volume(g, disk).data == old(Volume(g, disk).data)
    {
      hide CopiesWritten, Mirrored, Closed, Volume, FatCopy, Put32, Probe, Geometry.Clusters, Geometry.FirstData, Geometry.Backed;
      ghost var start := disk;
      var sector := new byte[512];
      var offset := cluster * 4 % 512;
      EntryInTable(cluster, cluster / 128 + 1);
      ghost var backed, s := cluster < g.Backed(|disk|), cluster / 128;
      if backed {
        TablePosition(g, disk, cluster);
      }
      var sectorNumber := g.reserved + cluster * 4 % 0x1_0000_0000 / 512;
      ReadSector(sectorNumber, sector);
      PutWord(sector, offset, value);
      WriteSector(sectorNumber, sector);
      if backed {
        FirstCopy(g, start, disk, s, sector[..]);
      }
      WriteOtherCopies(sectorNumber, sector, start, backed, s);
      if backed {
        WriteFat(g, start, disk, cluster, value);
      }
    }

    /** The loop that brings the other copies of the table in line with the first. */
    method WriteOtherCopies(sectorNumber: nat, sector: array<byte>, ghost start: seq<Sector>, ghost backed: bool, ghost s: nat)
      requires sector.Length == 512 && |disk| == |start| && g.Fits(|start|)
      requires backed ==> s < g.fatSize && sectorNumber == g.reserved + s
      requires backed ==> CopiesWritten(g, start, disk, s, sector[..], 1)
      modifies `disk
      ensures |disk| == |start|
      ensures backed ==> CopiesWritten(g, start, disk, s, sector[..], g.fatCount)
    {
      hide CopiesWritten, FatCopy, Geometry.FirstData;
      for copy := 1 to g.fatCount
        invariant |disk| == |start|
        invariant backed ==> CopiesWritten(g, start, disk, s, sector[..], copy)
      {
        if backed {
          CopyOnDisk(g, |disk|, copy, s);
          SmallModulus(g.reserved + copy * g.fatSize + s, 0x1000_0000);
        }
        ghost var before := disk;
        WriteSector(sectorNumber + copy * g.fatSize, sector);
        if backed {
          NextCopy(g, start, before, disk, s, sector[..], copy);
        }
      }
    }

    static method PutWord(sector: array<byte>, offset: nat, value: nat)
      requires sector.Length == 512 && offset + 4 <= 512 && value < 0x1_0000_0000
      modifies sector
      ensures sector[..] == old(Put32(sector[..], offset, value))
    {
      sector[offset] := (value % 0x1_0000 % 0x100) as byte;
      sector[offset + 1] := (value % 0x1_0000 / 0x100) as byte;
      sector[offset + 2] := (value / 0x1_0000 % 0x100) as byte;
      sector[offset + 3] := (value / 0x1_0000 / 0x100) as byte;
    }

    /**
     `alloc_cluster`: the first free cluster becomes a chain of its own, zeroed. A cluster that the disk backs is
     returned exactly when one is free; otherwise none is taken exactly when no entry read beyond them is free either.
     */
    method AllocCluster() returns (cluster: nat)
      requires Sound() && (!Full(Vol()) || Readable(g, |disk|))
      modifies `disk, `chains
      ensures |disk| == |old(disk)|
      ensures 2 <= cluster < g.Backed(|disk|) <==> !Full(old(Vol()))
      ensures !Full(old(Vol())) ==> Sound() && FirstFree(old(Vol()), cluster) && cluster !in old(chains)
      ensures !Full(old(Vol())) ==> Vol() == Allocated(old(Vol()), cluster) && chains == old(chains)[cluster := [cluster]]
      ensures !Full(old(Vol())) ==> old(Vol()).fat[cluster] == 0 && Vol().fat[cluster] == 0x0FFF_FFF8 && Zeroed(cluster)
      ensures !Full(old(Vol())) && old(Closed(g, disk)) ==> Closed(g, disk)
      ensures Full(old(Vol())) ==> (cluster == 0 <==> old(Exhausted(g, disk)))
      ensures cluster == 0 ==> disk == old(disk)
      ensures Full(old(Vol())) ==> chains == old(chains)
    {
      hide Linked, Mirrored, Closed, Volume, Probe, Full, Geometry.Backed, Geometry.Clusters, Geometry.FirstData, Geometry.TableSector;
      var c := 2;
      while c < g.Clusters()
        invariant 2 <= c
        invariant disk == old(disk) && chains == old(chains)
        invariant forall b: nat | 2 <= b < c :: g.TableSector(b) < |disk| && Probe(g, disk, b) != FREE
      {
        NextProbe(g, disk, c);
        var entry := FatEntry(c);
        if entry == FREE {
          FirstProbed(g, disk, c);
          TakeCluster(c);
          return c;
        }
        c := c + 1;
      }
      NothingProbed(g, disk, c);
      return 0;
    }

    /** Marks a cluster as the end of a chain and zeroes it. */
    method TakeCluster(c: nat)
      requires Sound() && 2 <= c && (c < g.Backed(|disk|) || g.TableSector(c) < |disk|)
      requires c < g.Backed(|disk|) ==> Vol().fat[c] == FREE
      modifies `disk, `chains
      ensures |disk| == |old(disk)|
      ensures c < g.Backed(|disk|) ==> Sound() && c !in old(chains) && (old(Closed(g, disk)) ==> Closed(g, disk))
      ensures c < g.Backed(|disk|) ==> Vol() == Allocated(old(Vol()), c) && chains == old(chains)[c := [c]]
      ensures c < g.Backed(|disk|) ==> Zeroed(c)
      ensures c >= g.Backed(|disk|) ==> chains == old(chains)
    {
      hide Linked, Mirrored, Closed, Volume, Probe, Geometry.Backed, Geometry.Clusters, Geometry.FirstData, Geometry.TableSector;
      if c < g.Backed(|disk|) {
        AllocateLinked(Vol(), chains, c);
      }
      SetFatEntry(c, EOC);
      ZeroCluster(c);
      if c < g.Backed(|disk|) {
        chains := chains[c := [c]];
      }
    }

    /** All sectors of a cluster hold zeros. */
    ghost predicate Zeroed(c: nat)
      reads `disk
      requires c >= 2
    {
      ZeroSectors(disk, g.ClusterSector(c), g.perCluster)
    }

    method ZeroCluster(c: nat)
      requires g.Fits(|disk|) && 2 <= c
      modifies `disk
      ensures |disk| == |old(disk)|
      ensures c < g.Backed(|disk|) ==> Zeroed(c)
      ensures c < g.Backed(|disk|) && old(Mirrored(g, disk)) ==> Mirrored(g, disk)
      ensures c < g.Backed(|disk|) && old(Closed(g, disk)) ==> Closed(g, disk)
      ensures c < g.Backed(|disk|) ==> Volume(g, disk).fat == old(Volume(g, disk).fat)
      ensures c < g.Backed(|disk|) ==> Volume(g, disk).data == old(Volume(g, disk).data)[c := Zeros()]
    {
      hide Mirrored, Closed, Volume, Geometry.Backed, Geometry.Clusters, Geometry.FirstData, Geometry.ClusterSector;
      var sector := new byte[512];
      ghost var backed := c < g.Backed(|disk|);
      if backed {
        ClusterRange(g, |disk|, c);
      }
      for i := 0 to g.perCluster
        modifies `disk, sector
        invariant |disk| == |old(disk)|
        invariant backed ==> ZeroSectors(disk, g.ClusterSector(c), i)
        invariant backed && old(Mirrored(g, disk)) ==> Mirrored(g, disk)
        invariant backed && old(Closed(g, disk)) ==> Closed(g, disk)
        invariant backed ==> Volume(g, disk).fat == old(Volume(g, disk).fat)
        invariant backed ==> Volume(g, disk).data == if i == 0 then old(Volume(g, disk).data) else old(Volume(g, disk).data)[c := Zeros()]
      {
        for j := 0 to 512
          modifies sector
          invariant forall m :: 0 <= m < j ==> sector[m] == 0
        {
          sector[j] := 0;
        }
        assert sector[..] == Zeros();
        ghost var before := disk;
        if backed {
          SmallModulus(g.ClusterSector(c) + i, 0x1000_0000);
        }
        WriteSector(g.ClusterSector(c) + i, sector);
        if backed {
          WriteCluster(g, before, disk, c, i, Zeros());
        }
      }
    }

    /** Reads the first sector of a cluster. */
    method ReadCluster(cluster: nat, sector: array<byte>)
      requires g.Fits(|disk|) && 2 <= cluster < g.Backed(|disk|) && sector.Length == 512
      modifies sector
      ensures sector[..] == Volume(g, disk).data[cluster]
    {
      hide Geometry.ClusterSector, Geometry.FirstData, Geometry.Backed;
      ClusterRange(g, |disk|, cluster);
      SmallModulus(g.ClusterSector(cluster), 0x1000_0000);
      ReadSector(g.ClusterSector(cluster), sector);
      assert sector[..] == DataAt(g, disk, cluster);
    }

    /** `find_entry`: the slot a name leads to, with the sector that holds it left in the buffer. */
    method FindEntry(name: seq<byte>, directory: nat, sector: array<byte>) returns (slot: int, sectorNumber: nat, ghost k: nat)
      requires Sound() && directory in chains && sector.Length == 512
      modifies sector
      ensures match Find(Sectors(Vol().data, chains[directory]), 0, ShortName(name))
        case Nowhere => slot == -1
        case Found(link, i) =>
          && slot == i && k == link && sectorNumber == g.ClusterSector(chains[directory][k])
          && sector[..] == Vol().data[chains[directory][k]]
    {
      hide Disjoint, Mirrored, FatAt, DataAt, ShortName, ScanSector;
      var wanted := new byte[11];
      MakeName(name, wanted);
      ghost var w, chain := ShortName(name), chains[directory];
      ghost var sectors := Sectors(Vol().data, chain);
      var d := directory;
      k, slot, sectorNumber := 0, -1, 0;
      while 2 <= d < EOC
        invariant k <= |chain| && (if k < |chain| then d == chain[k] else d >= EOC)
        invariant Find(sectors, 0, w) == Find(sectors, k, w)
        invariant wanted[..] == w && slot == -1
        decreases |chain| - k
      {
        NextOnChain(Vol().fat, chain, k);
        sectorNumber := g.ClusterSector(d);
        ReadCluster(d, sector);
        var scan := ScanBuffer(sector, wanted);
        if scan.Stop? {
          return;
        }
        if scan.Hit? {
          slot := scan.slot;
          return;
        }
        d := FatEntry(d);
        k := k + 1;
      }
    }

    /** The slots of one directory sector, compared with the wanted name in order. */
    static method ScanBuffer(sector: array<byte>, wanted: array<byte>) returns (r: Scan)
      requires sector.Length == 512 && wanted.Length == 11
      ensures r == ScanSector(sector[..], 0, wanted[..])
    {
      for i := 0 to 16
        invariant ScanSector(sector[..], 0, wanted[..]) == ScanSector(sector[..], i, wanted[..])
      {
        if sector[32 * i] == 0 {
          return Stop;
        }
        if sector[32 * i] != 0xE5 && sector[32 * i] != DOT && sector[32 * i + 11] != 0x0F
          && sector[32 * i..32 * i + 11] == wanted[..] {
          assert sector[..][32 * i..32 * i + 11] == sector[32 * i..32 * i + 11];
          return Hit(i);
        }
        assert sector[..][32 * i..32 * i + 11] == sector[32 * i..32 * i + 11];
      }
      return Miss;
    }

    /** `read_file`: -1 for a missing name or a directory, otherwise the file's bytes cut to the capacity. */
    method ReadFile(name: seq<byte>, buffer: array<byte>, size: nat) returns (done: int)
      requires Valid() && size <= buffer.Length
      modifies buffer
      ensures match File(currentDir, ShortName(name))
        case Missing => done == -1 && buffer[..] == old(buffer[..])
        case Contents(b) => done == Min(size, |b|) && buffer[..] == b[..done] + old(buffer[..])[done..]
    {
      hide Disjoint, NoSharing, Terminated, Mirrored, Volume, Find, ShortName;
      var sector := new byte[512];
      var slot, _, k := FindEntry(name, currentDir, sector);
      if slot == -1 || IsDirectory(sector[..], slot) {
        return -1;
      }
      assert LiveSlot(Tree(), currentDir, k, slot);
      var fileSize := Size(sector[..], slot);
      var cluster := Head(sector[..], slot);
      done := 0;
      if cluster != 0 {
        done := ReadChain(cluster, buffer, Min(size, fileSize));
      }
    }

    /** Copies the bytes of one sector behind the first `start` bytes of the buffer, up to the limit. */
    static method CopySector(buffer: array<byte>, sector: array<byte>, start: nat, limit: nat, ghost sectors: seq<Sector>, ghost k: nat) returns (done: nat)
      requires sector.Length == 512 && buffer != sector && start <= limit <= buffer.Length
      requires k < |sectors| && sector[..] == sectors[k] && start == 512 * k
      modifies buffer
      ensures done == Min(limit, 512 * (k + 1))
      ensures forall j :: start <= j < done ==> buffer[j] == sectors[j / 512][j % 512]
      ensures forall j :: 0 <= j < start || done <= j < buffer.Length ==> buffer[j] == old(buffer[j])
    {
      done := start;
      for i := 0 to 512
        invariant done == Min(limit, 512 * k + i)
        invariant forall j :: start <= j < done ==> buffer[j] == sector[j - start]
        invariant forall j :: 0 <= j < start || done <= j < buffer.Length ==> buffer[j] == old(buffer[j])
      {
        if done < limit {
          buffer[done] := sector[i];
          done := done + 1;
        }
      }
      forall j | start <= j < done
        ensures buffer[j] == sectors[j / 512][j % 512]
      {
        assert j / 512 == k && j % 512 == j - start;
      }
    }

    /** The reading loop, from the head of a chain, up to the smaller of capacity and file size. */
    method ReadChain(head: nat, buffer: array<byte>, limit: nat) returns (done: nat)
      requires Sound() && head in chains && limit <= buffer.Length
      modifies buffer
      ensures var b := ChainBytes(Sectors(Vol().data, chains[head]), limit);
        done == |b| && buffer[..] == b + old(buffer[..])[done..]
    {
      hide Disjoint, Mirrored, FatAt, DataAt;
      var sector := new byte[512];
      ghost var chain := chains[head];
      ghost var sectors := Sectors(Vol().data, chain);
      var cluster := head;
      ghost var k := 0;
      done := 0;
      while done < limit && cluster < EOC
        invariant k <= |chain| && (if k < |chain| then cluster == chain[k] else cluster >= EOC)
        invariant done == Min(limit, 512 * k)
        invariant forall j :: 0 <= j < done ==> buffer[j] == sectors[j / 512][j % 512]
        invariant forall j :: done <= j < buffer.Length ==> buffer[j] == old(buffer[j])
        decreases |chain| - k
      {
        NextOnChain(Vol().fat, chain, k);
        ReadCluster(cluster, sector);
        done := CopySector(buffer, sector, done, limit, sectors, k);
        cluster := FatEntry(cluster);
        k := k + 1;
      }
    }

    /** One block of the data, padded with zeros, into cluster k of a chain. */
    method WriteBlock(head: nat, cluster: nat, data: seq<byte>, done: nat, ghost k: nat)
      requires Sound() && On(chains, head, k) && cluster == chains[head][k]
      modifies `disk
      ensures Sound() && |disk| == |old(disk)| && Vol().fat == old(Vol()).fat
      ensures Apart(old(Vol()), chains, Vol(), chains, head)
      ensures old(Closed(g, disk)) ==> Closed(g, disk)
      ensures Sectors(Vol().data, chains[head]) == old(Sectors(Vol().data, chains[head]))[k := Block(data, done)]
    {
      hide Mirrored, Disjoint, Volume, Geometry.Backed, Geometry.FirstData, Geometry.ClusterSector;
      var dataSector := new byte[512];
      for i := 0 to 512
        modifies dataSector
        invariant forall j :: 0 <= j < i ==> dataSector[j] == Block(data, done)[j]
      {
        dataSector[i] := if done + i < |data| then data[done + i] else 0;
      }
      assert dataSector[..] == Block(data, done);
      ClusterRange(g, |disk|, cluster);
      SmallModulus(g.ClusterSector(cluster), 0x1000_0000);
      ghost var before := disk;
      WriteApart(Vol(), chains, head, k, Block(data, done));
      WriteSector(g.ClusterSector(cluster), dataSector);
      WriteCluster(g, before, disk, cluster, 0, Block(data, done));
    }

    /** Links a fresh cluster behind the last one of a chain; 0 when none is free. */
    method ExtendChain(head: nat, last: nat) returns (next: nat)
      requires Sound() && Supplies(1) && head in chains && last == chains[head][|chains[head]| - 1]
      modifies `disk, `chains
      ensures Sound() && |disk| == |old(disk)| && chains.Keys == old(chains).Keys
      ensures Apart(old(Vol()), old(chains), Vol(), chains, head)
      ensures old(Closed(g, disk)) ==> Closed(g, disk)
      ensures next == 0 <==> Full(old(Vol()))
      ensures next == 0 ==> chains == old(chains) && Vol() == old(Vol())
      ensures next != 0 ==> chains[head] == old(chains)[head] + [next] && Takes(old(Vol()), Vol(), 1)
      ensures next != 0 ==> Sectors(Vol().data, chains[head]) == old(Sectors(Vol().data, chains[head])) + [Zeros()]
    {
      hide Linked, Mirrored, Volume, Closed, Exhausted, Readable, Full, FirstFree, Allocated, Joined, Takes, Geometry.Backed, Geometry.Clusters;
      ghost var v, c := Vol(), chains;
      ApartSelf(v, c, head);
      if Full(v) {
        Answer();
      }
      next := AllocCluster();
      if next != 0 {
        Extend(v, c, head, next);
        BackedRange(g, |disk|);
        SetFatEntry(last, next);
        chains := Joined(chains, head, next);
      }
    }

    /** On a full volume whose allocator notices that it is full, every number can be read. */
    lemma Answer()
      requires Sound() && Supplies(1) && Full(Vol())
      ensures Exhausted(g, disk) && Readable(g, |disk|)
    {
      ClosedExhausted(g, disk);
    }

    lemma CounterFits(head: nat, size: nat, k: nat)
      requires Sound() && On(chains, head, k) && 512 * k < size && Counts(g, |disk|, size)
      ensures 512 * k + 512 < 0x1_0000_0000
    {
      ChainLength(Vol(), chains, head);
    }

    /** The volume of the driver is one that a write has filled from the given one, with `done` bytes stored. */
    ghost predicate Storing(v: Vol, c: Chains, closed: bool, size: nat, head: nat, data: seq<byte>, done: nat)
      reads this
    {
      Sound() && |disk| == size && (closed ==> Closed(g, disk)) && Filled(v, c, Vol(), chains, head, data, done)
    }

    /** The next block of the data into cluster k of the chain. */
    method StoreNext(head: nat, cluster: nat, data: seq<byte>, done: nat, ghost k: nat,
                     ghost v: Vol, ghost c: Chains, ghost closed: bool, ghost size: nat)
      requires Storing(v, c, closed, size, head, data, done) && On(chains, head, k) && cluster == chains[head][k]
      requires done == 512 * k
      modifies `disk
      ensures Storing(v, c, closed, size, head, data, done + 512)
    {
      hide Linked, Mirrored, Volume, Apart, Filled, Block, Closed, Geometry.Backed;
      ghost var w := Vol();
      WriteBlock(head, cluster, data, done, k);
      FilledBlock(v, c, w, chains, Vol(), head, data, k);
    }

    /** From a cluster that has been stored to the next of the chain, which is lengthened if data is left; 0 when it cannot be. */
    method NextCluster(head: nat, cluster: nat, data: seq<byte>, done: nat, ghost k: nat,
                       ghost v: Vol, ghost c: Chains, ghost closed: bool, ghost size: nat) returns (next: nat)
      requires Storing(v, c, closed, size, head, data, done) && On(chains, head, k) && cluster == chains[head][k]
      requires done == 512 * (k + 1) && (More(|chains[head]|, |data|) <= |Free(Vol())| || closed)
      modifies `disk, `chains
      ensures Storing(v, c, closed, size, head, data, done)
      ensures next == 0 ==> Full(Vol()) && k == |chains[head]| - 1 && done < |data|
      ensures next != 0 && done < |data| ==> On(chains, head, k + 1) && next == chains[head][k + 1]
    {
      hide Disjoint, Mirrored, Volume, Apart, Filled, Closed, Full, Free, Takes, Geometry.Backed;
      ghost var w, l := Vol(), chains;
      NextOnChain(w.fat, l[head], k);
      next := FatEntry(cluster);
      if done < |data| && next >= EOC {
        next := ExtendChain(head, cluster);
        if next != 0 {
          FilledLonger(v, c, w, l, Vol(), chains, head, data, done, next);
        }
      }
    }

    /** One turn of the loop of `write_file`: a block into the current cluster, then on to the next; 0 when none is left. */
    method StoreTurn(head: nat, cluster: nat, data: seq<byte>, done: nat, ghost k: nat,
                     ghost v: Vol, ghost c: Chains, ghost closed: bool, ghost size: nat) returns (next: nat)
      requires Storing(v, c, closed, size, head, data, done) && On(chains, head, k) && cluster == chains[head][k]
      requires done == 512 * k < |data| && Counts(g, |disk|, |data|)
      requires More(|c[head]|, |data|) <= |Free(v)| || closed
      modifies `disk, `chains
      ensures Storing(v, c, closed, size, head, data, done + 512)
      ensures next == 0 ==> Full(Vol()) && k == |chains[head]| - 1 && done + 512 < |data|
      ensures next != 0 && done + 512 < |data| ==> On(chains, head, k + 1) && next == chains[head][k + 1]
    {
      hide Linked, Mirrored, Volume, Filled, Closed, Full, Free, More, Geometry.Backed;
      CounterFits(head, |data|, k);
      assert done + 512 < 0x1_0000_0000;
      StoreNext(head, cluster, data, done, k, v, c, closed, size);
      FilledSupply(v, c, Vol(), chains, head, data, done + 512);
      next := NextCluster(head, cluster, data, done + 512, k, v, c, closed, size);
    }

    /**
     The loop of `write_file`: follows the chain, lengthening it when it is too short, and stores the data block by
     block. It gives up exactly when the chain and the free clusters together are too short, and has then filled both.
     */
    method StoreData(head: nat, data: seq<byte>) returns (done: nat)
      requires Sound() && head in chains && Counts(g, |disk|, |data|) && Supplies(More(|chains[head]|, |data|))
      modifies `disk, `chains
      ensures Storing(old(Vol()), old(chains), old(Closed(g, disk)), |old(disk)|, head, data, done)
      ensures done >= |data| <==> More(|old(chains)[head]|, |data|) <= |Free(old(Vol()))|
      ensures done < |data| ==> done == 512 * |chains[head]| && Full(Vol())
    {
      hide Linked, Mirrored, Volume, Filled, Closed, Full, Free, More, Geometry.Backed;
      var cluster := head;
      ghost var k: nat, v, c, closed, size := 0, Vol(), chains, Closed(g, disk), |disk|;
      done := 0;
      FilledStart(v, c, head, data);
      HeadRange(v, c, head);
      assert Storing(v, c, closed, size, head, data, 0);
      StoringSound(v, c, closed, size, head, data, 0);
      while done < |data| && 2 <= cluster < EOC
        invariant Storing(v, c, closed, size, head, data, done) && done == 512 * k
        invariant |disk| == size
        invariant done < |data| ==> head in chains && On(chains, head, k) && cluster == chains[head][k] && 2 <= cluster < EOC
        decreases |data| - done
      {
        var next := StoreTurn(head, cluster, data, done, k, v, c, closed, size);
        StoringSound(v, c, closed, size, head, data, done + 512);
        done := done + 512;
        k := k + 1;
        if next == 0 {
          FilledEnd(v, c, Vol(), chains, head, data, done);
          return;
        }
        cluster := next;
      }
      FilledEnd(v, c, Vol(), chains, head, data, done);
    }

    lemma StoringSound(v: Vol, c: Chains, closed: bool, size: nat, head: nat, data: seq<byte>, done: nat)
      requires Storing(v, c, closed, size, head, data, done)
      ensures Sound() && |disk| == size && head in chains
      ensures forall k :: 0 <= k < |chains[head]| ==> 2 <= chains[head][k] < EOC
    {
      assert IsChain(Vol().fat, chains[head]);
    }

    static method PutHalf(sector: array<byte>, offset: nat, value: nat)
      requires sector.Length == 512 && offset + 2 <= 512 && value < 0x1_0000
      modifies sector
      ensures sector[..] == old(Put16(sector[..], offset, value))
    {
      sector[offset] := (value % 0x100) as byte;
      sector[offset + 1] := (value / 0x100) as byte;
    }

    /** How many clusters writing that much data to a name takes. */
    ghost function Need(wanted: seq<byte>, size: nat): nat
      reads this
      requires Valid()
    {
      Needed(Tree(), chains, currentDir, wanted, size)
    }

    /** How many bytes of a file can be read once all free clusters have been put behind its chain under its old size. */
    ghost function Room(wanted: seq<byte>): nat
      reads this
      requires Valid()
    {
      Min(SlotSize(Tree(), currentDir, wanted), 512 * (Length(Tree(), chains, currentDir, wanted) + |Free(Vol())|))
    }

    /** The disk has what a write needs: a cluster that can be stored as a new head, and clusters for the data. */
    ghost predicate CanWrite(wanted: seq<byte>, size: nat)
      reads this
      requires Valid()
    {
      && Counts(g, |disk|, size) && (Headless(Tree(), currentDir, wanted) ==> HeadRoom())
      && Supplies(Need(wanted, size))
    }

    /**
     `write_file`: 0 when the file now holds exactly the data, which is the case exactly when the name leads to a file
     and enough clusters are free. When they are not, the file reads as the data that fitted, cut to its old size.
     Whatever it returns, every other file and every other directory slot is as before.
     */
    method WriteFile(name: seq<byte>, data: seq<byte>) returns (r: int)
      requires Valid() && CanWrite(ShortName(name), |data|)
      modifies `disk, `chains
      ensures Valid() && (r == 0 || r == -1)
      ensures r == 0 <==> old(!NotAFile(Tree(), currentDir, ShortName(name)) && Need(ShortName(name), |data|) <= |Free(Vol())|)
      ensures r == 0 ==> File(currentDir, ShortName(name)) == Contents(data)
      ensures r == -1 && !NotAFile(old(Tree()), currentDir, ShortName(name)) ==>
        File(currentDir, ShortName(name)) == Contents(data[..Min(old(Room(ShortName(name))), |data|)])
      ensures Takes(old(Vol()), Vol(), old(Min(Need(ShortName(name), |data|), |Free(Vol())|)))
      ensures OthersKept(old(Vol()), old(chains), heads, Vol(), chains, heads, g.root, currentDir, ShortName(name))
      ensures r == -1 ==> Tree() == old(Tree())
      ensures r == 0 ==> ResizedAt(old(Tree()), Tree(), currentDir, ShortName(name), |data|)
      ensures PathsKept(old(Tree()), Tree(), currentDir, ShortName(name))
      ensures |disk| == |old(disk)| && (old(Closed(g, disk)) ==> Closed(g, disk))
    {
      hide Linked, FatVolume.Tree, Mirrored, Volume, ShortName, Closed, OthersKept, PathsKept, Takes, ResizedAt, FileBytes, Find, Geometry.Backed;
      ghost var v, c, t := Vol(), chains, Tree();
      r := WriteNamed(name, data);
      assert t == DirsOf(v, c, heads);
    }

    /** All of `write_file`, with its outcome as one relation between the volume before and after. */
    method WriteNamed(name: seq<byte>, data: seq<byte>) returns (r: int)
      requires Valid() && CanWrite(ShortName(name), |data|)
      modifies `disk, `chains
      ensures Valid() && |disk| == |old(disk)| && (old(Closed(g, disk)) ==> Closed(g, disk))
      ensures WriteResult(old(Vol()), old(chains), Vol(), chains, heads, g.root, currentDir, ShortName(name), data, r)
    {
      hide Linked, FatVolume.Tree, Mirrored, Volume, ShortName, Resized, Filled, Prepared, WriteResult, DataStored, Written, OthersKept, Live, Closed, Full, Takes, More, Needed, Free, LowFree, Geometry.Backed;
      ghost var v, c, wanted := Vol(), chains, ShortName(name);
      var directorySector := new byte[512];
      var slot, sectorNumber, k := FindEntry(name, currentDir, directorySector);
      if slot == -1 || IsDirectory(directorySector[..], slot) {
        WriteNothing(v, c, heads, g.root, currentDir, wanted, data);
        return -1;
      }
      ghost var s0: Sector := directorySector[..];
      var cluster, ok, s1 := PrepareChain(directorySector, slot, k, name, |data|, s0);
      if !ok {
        WriteNoHead(v, c, heads, g.root, currentDir, wanted, data);
        return -1;
      }
      ghost var v1, c1 := Vol(), chains;
      var done := StoreData(cluster, data);
      ghost var v2, c2 := Vol(), chains;
      FilledKeeps(v, c, v1, c1, v2, c2, heads, g.root, currentDir, wanted, k, slot, cluster, data, done);
      if done < |data| {
        WriteShort(v, c, v1, c1, v2, c2, heads, g.root, currentDir, wanted, k, slot, cluster, data, done);
        return -1;
      }
      WriteReady(v, c, v1, c1, v2, c2, heads, g.root, currentDir, wanted, k, slot, cluster, s0, data, done);
      FinishWrite(name, data, directorySector, sectorNumber, slot, k, cluster, s0);
      WriteWhole(v, c, v1, c1, v2, c2, Vol(), chains, heads, g.root, currentDir, wanted, k, slot, cluster, data, done);
      WriteConsistent(v, c, Vol(), chains, heads, g.root, currentDir, wanted, data, 0);
      return 0;
    }

    /** Puts a size into the buffered entry. */
    static method BufferSize(directorySector: array<byte>, slot: nat, size: nat, ghost cluster: nat, ghost s0: Sector) returns (ghost s2: Sector)
      requires directorySector.Length == 512 && slot < SLOTS && size < 0x1_0000_0000
      requires Resized(s0, directorySector[..], slot, cluster, Size(s0, slot))
      modifies directorySector
      ensures directorySector[..] == s2 && Resized(s0, s2, slot, cluster, size)
    {
      ghost var s1: Sector := directorySector[..];
      PutWord(directorySector, 32 * slot + 28, size);
      s2 := directorySector[..];
      PatchedSize(s0, s1, s2, slot, cluster, size);
    }

    /** Puts a first cluster into the buffered entry: its low 16 bits, under high bits of zero. */
    static method BufferHead(directorySector: array<byte>, slot: nat, cluster: nat, ghost s0: Sector)
      requires directorySector.Length == 512 && directorySector[..] == s0 && slot < SLOTS
      modifies directorySector
      ensures Resized(s0, directorySector[..], slot, cluster % 0x1_0000, Size(s0, slot))
    {
      PutHalf(directorySector, 32 * slot + 26, cluster % 0x1_0000);
      PutHalf(directorySector, 32 * slot + 20, 0);
      PatchedHead(s0, directorySector[..], slot, cluster % 0x1_0000);
    }

    /** The chain to write to: the file's own, or a fresh one whose number is put into the buffered entry. */
    method PrepareChain(directorySector: array<byte>, slot: nat, ghost k: nat, ghost name: seq<byte>, ghost size: nat, ghost s0: Sector)
        returns (cluster: nat, ok: bool, ghost s1: Sector)
      requires Valid() && directorySector.Length == 512 && slot < SLOTS
      requires LeadsTo(Tree(), currentDir, ShortName(name), k, slot) && directorySector[..] == s0 && SectorAt(Tree(), currentDir, k, s0)
      requires !IsDirectory(s0, slot) && (Head(s0, slot) == 0 ==> HeadRoom())
      modifies `disk, `chains, directorySector
      ensures |disk| == |old(disk)| && Sound() && old(chains).Keys <= chains.Keys && (old(Closed(g, disk)) ==> Closed(g, disk))
      ensures !ok <==> Head(s0, slot) == 0 && Full(old(Vol()))
      ensures !ok ==> Vol() == old(Vol()) && chains == old(chains)
      ensures ok ==> cluster in chains
      ensures ok ==>
        Prepared(old(Vol()), old(chains), Vol(), chains, heads, g.root, currentDir, ShortName(name), k, slot, cluster, size)
      ensures ok ==> directorySector[..] == s1 && Resized(s0, s1, slot, cluster, Size(s0, slot))
      ensures ok && old(Supplies(Needed(Tree(), chains, currentDir, ShortName(name), size))) ==> Supplies(More(|chains[cluster]|, size))
    {
      hide Linked, FatVolume.Tree, Mirrored, Volume, ShortName, Resized, Prepared, Closed, Exhausted, Full, Free, LowFree, More, Needed, FirstFree, Allocated, Readable, Geometry.Backed, Geometry.Clusters;
      ghost var v, c, wanted := Vol(), chains, ShortName(name);
      ok := true;
      cluster := Head(directorySector[..], slot);
      if cluster != 0 {
        PreparedOwn(v, c, heads, g.root, currentDir, wanted, k, slot, size);
      }
      if cluster < 2 {
        AnswerHead();
        cluster := AllocCluster();
        if cluster == 0 {
          return cluster, false, s0;
        }
        FirstFreeLow(v, cluster);
        PreparedFresh(v, c, heads, g.root, currentDir, wanted, k, slot, cluster, size);
        BufferHead(directorySector, slot, cluster, s0);
      } else {
        ResizedSelf(s0, slot);
      }
      PreparedSupply(v, c, Vol(), chains, heads, g.root, currentDir, wanted, k, slot, cluster, size);
      s1 := directorySector[..];
    }

    /** When there is room for a head, the allocator returns a cluster or notices that there is none. */
    lemma AnswerHead()
      requires Sound() && HeadRoom()
      ensures Full(Vol()) ==> Exhausted(g, disk) && Readable(g, |disk|)
    {
    }

    /** Writes the buffered directory sector back with the new size. */
    method FinishWrite(name: seq<byte>, data: seq<byte>, directorySector: array<byte>, sectorNumber: nat, slot: nat, ghost k: nat, ghost cluster: nat, ghost s0: Sector)
      requires Valid() && |data| < 0x1_0000_0000 && directorySector.Length == 512 && slot < SLOTS
      requires On(chains, currentDir, k) && 2 <= chains[currentDir][k] < g.Backed(|disk|)
      requires DataStored(Vol(), chains, heads, g.root, currentDir, ShortName(name), k, slot, s0, cluster, data)
      requires Resized(s0, directorySector[..], slot, cluster, Size(s0, slot))
      requires sectorNumber == g.ClusterSector(chains[currentDir][k])
      modifies `disk, directorySector
      ensures Sound() && |disk| == |old(disk)| && chains == old(chains) && Vol().fat == old(Vol()).fat
      ensures old(Closed(g, disk)) ==> Closed(g, disk)
      ensures Written(old(Vol()), chains, Vol(), chains, heads, g.root, currentDir, ShortName(name), k, slot, data)
    {
      hide Disjoint, FatVolume.Tree, Mirrored, Volume, ShortName, Resized, OnlyAt, FileBytes, ChainBytes, Written, LeadsTo, Closed, Geometry.Backed;
      ghost var v := Vol();
      ghost var s2 := BufferSize(directorySector, slot, |data|, cluster, s0);
      ResizeFiles(v, chains, heads, g.root, currentDir, ShortName(name), k, slot, s0, s2, cluster, data);
      DirectoryWrite(v, chains, heads, currentDir, k, s2);
      WriteDirectory(sectorNumber, chains[currentDir][k], directorySector);
    }

    /**
     `new_entry`: picks the first free slot of the directory's first sector and fills it in the buffer with the name,
     the attributes and the low 16 bits of a fresh cluster; -1 exactly when the sector has no free slot. The entry
     refers to the cluster taken exactly when some free cluster is below 65536. The buffer is not written back here.
     */
    method NewEntry(name: seq<byte>, attributes: byte, sector: array<byte>) returns (slot: int, ghost h: nat, ghost s': Sector, ghost s0: Sector)
      requires Valid() && sector.Length == 512 && 0 !in name
      requires !FirstSectorFull(Tree(), currentDir) && Full(Vol()) ==> Readable(g, |disk|)
      modifies `disk, `chains, sector
      ensures sector[..] == s' && |disk| == |old(disk)|
      ensures slot == -1 <==> FirstSectorFull(old(Tree()), currentDir)
      ensures slot == -1 ==> disk == old(disk) && chains == old(chains)
      ensures slot != -1 ==> 0 <= slot < SLOTS && Word16(s', 32 * slot + 26) == h % 0x1_0000
      ensures SectorAt(old(Tree()), currentDir, 0, s0)
      ensures forall j :: 0 <= j < (if slot == -1 then 16 else slot) ==> s0[32 * j] != 0 && s0[32 * j] != 0xE5
      ensures slot != -1 ==> s0[32 * slot] == 0 || s0[32 * slot] == 0xE5
      ensures slot != -1 ==> FreshEntry(old(Tree()), currentDir, slot, s', ShortName(name), attributes, h % 0x1_0000, 0)
      ensures slot != -1 && !Full(old(Vol())) ==> FirstFree(old(Vol()), h) && (Head(s', slot) == h <==> LowFree(old(Vol())) != {})
      ensures slot != -1 && !Full(old(Vol())) ==> Sound() && Vol() == Allocated(old(Vol()), h) && chains == old(chains)[h := [h]]
      ensures slot != -1 && !Full(old(Vol())) && old(Closed(g, disk)) ==> Closed(g, disk)
      ensures slot != -1 && Full(old(Vol())) ==> (h == 0 <==> old(Exhausted(g, disk)))
      ensures slot != -1 && h == 0 ==> disk == old(disk) && chains == old(chains)
    {
      hide Disjoint, NoSharing, Terminated, Mirrored, Volume, Find, ShortName, Occupied, Live, ScanSector, Closed, Exhausted, Full, Free, LowFree, Readable, Entered, FreshEntry, FirstFree, Geometry.Backed, Geometry.Clusters;
      ghost var t, v := Tree(), Vol();
      HeadRange(v, chains, currentDir);
      ReadCluster(currentDir, sector);
      s0 := sector[..];
      assert s0 == t[currentDir][0];
      var i := FreeSlot(sector);
      OccupiedSlots(s0, i);
      if i == 16 {
        return -1, 0, s0, s0;
      }
      NotFull(t, currentDir, i);
      var c := AllocCluster();
      FillEntry(sector, i, name, attributes, c);
      FirstFreeSlot(t, currentDir, i, sector[..], name, attributes, c % 0x1_0000);
      if !Full(v) {
        FirstFreeLow(v, c);
      }
      return i, c, sector[..], s0;
    }

    /** A fresh entry when a head can be stored: nothing has changed exactly when the sector or the disk is full. */
    method EntryWithHead(name: seq<byte>, attributes: byte, sector: array<byte>) returns (slot: int, ok: bool, ghost h: nat, ghost s': Sector)
      requires Valid() && sector.Length == 512 && 0 !in name && (!FirstSectorFull(Tree(), currentDir) ==> HeadRoom())
      modifies `disk, `chains, sector
      ensures sector[..] == s' && |disk| == |old(disk)|
      ensures !ok <==> FirstSectorFull(old(Tree()), currentDir) || Full(old(Vol()))
      ensures !ok ==> disk == old(disk) && chains == old(chains)
      ensures ok ==> 0 <= slot < SLOTS && FreshEntry(old(Tree()), currentDir, slot, s', ShortName(name), attributes, h, 0)
      ensures ok ==> Sound() && FirstFree(old(Vol()), h) && Vol() == Allocated(old(Vol()), h) && chains == old(chains)[h := [h]]
      ensures ok && old(Closed(g, disk)) ==> Closed(g, disk)
    {
      hide Linked, FatVolume.Tree, Mirrored, Volume, ShortName, Closed, Full, Free, LowFree, Exhausted, Readable, FirstFree, FirstSectorFull, Allocated, Geometry.Backed, Geometry.Clusters;
      ghost var v, full := Vol(), Full(Vol());
      if full && !FirstSectorFull(Tree(), currentDir) {
        AnswerHead();
      }
      ghost var s0;
      slot, h, s', s0 := NewEntry(name, attributes, sector);
      if slot != -1 && !full {
        FirstFreeLow(v, h);
        FirstFreeAt(v, h);
      }
      ok := slot != -1 && Word16(sector[..], 32 * slot + 26) != 0;
    }

    /** The scan for a slot whose first byte is 0 or marks a deleted entry; 16 if there is none. */
    static method FreeSlot(sector: array<byte>) returns (i: nat)
      requires sector.Length == 512
      ensures i <= SLOTS && forall j :: 0 <= j < i ==> Occupied(sector[..], j)
      ensures i < SLOTS ==> !Occupied(sector[..], i)
    {
      i := 0;
      while i < 16
        invariant i <= SLOTS && forall j :: 0 <= j < i ==> Occupied(sector[..], j)
      {
        if sector[32 * i] == 0 || sector[32 * i] == 0xE5 {
          return;
        }
        i := i + 1;
      }
    }

    /** Fills slot i of the buffer; the dates left there by an earlier entry stay. */
    static method FillEntry(sector: array<byte>, i: nat, name: seq<byte>, attributes: byte, cluster: nat)
      requires sector.Length == 512 && i < SLOTS
      modifies sector
      ensures Entered(old(sector[..]), sector[..], i, ShortName(name), attributes, cluster % 0x1_0000, 0)
    {
      var shortName := new byte[11];
      MakeName(name, shortName);
      for j := 0 to 11
        modifies sector
        invariant forall m :: 0 <= m < 512 ==> sector[m] == if 32 * i <= m < 32 * i + j then shortName[m - 32 * i] else old(sector[m])
      {
        sector[32 * i + j] := shortName[j];
      }
      sector[32 * i + 11] := attributes;
      PutHalf(sector, 32 * i + 20, 0);
      PutHalf(sector, 32 * i + 26, cluster % 0x1_0000);
      PutWord(sector, 32 * i + 28, 0);
    }

    /**
     `create_file`: 0 when the name now is a file on a fresh cluster, which is the case exactly when it was unused, the
     first directory sector has a slot and a cluster is free; -1 otherwise, with nothing changed. A name starting with
     the byte 0xE5 is stored but can never be found again.
     */
    method CreateFile(name: seq<byte>, size: nat) returns (r: int)
      requires Valid() && 0 !in name && size < 0x1_0000_0000
      requires TakesHead(Tree(), currentDir, ShortName(name)) ==> HeadRoom()
      modifies `disk, `chains
      ensures Valid() && |disk| == |old(disk)| && (old(Closed(g, disk)) ==> Closed(g, disk))
      ensures CreateResult(old(Vol()), old(chains), heads, Vol(), chains, heads, g.root, currentDir, ShortName(name), r)
      ensures r == 0 && ShortName(name)[0] != 0xE5 ==> File(currentDir, ShortName(name)) == Contents(seq(Min(size, 512), _ => 0))
      ensures r == 0 && ShortName(name)[0] != 0xE5 ==> HasEntry(Tree(), currentDir, ShortName(name), 0x20, size)
      ensures r == 0 && ShortName(name)[0] == 0xE5 ==> File(currentDir, ShortName(name)) == Missing
    {
      hide Linked, FatVolume.Tree, Mirrored, Volume, Find, ShortName, FileBytes, FreshEntry, Live, OthersKept, PathsKept, Closed, Full, Takes, Free, LowFree, Exhausted, Readable, FirstFree, FirstSectorFull, CreateResult, Created, Allocated, HasEntry, Geometry.Backed;
      ghost var v, c, wanted := Vol(), chains, ShortName(name);
      var sector := new byte[512];
      var found, _, _ := FindEntry(name, currentDir, sector);
      HeadRange(v, c, currentDir);
      ShortNameStart(name);
      if found != -1 {
        CreateNothing(v, c, heads, g.root, currentDir, wanted);
        return -1;
      }
      var slot, ok, h, s1 := EntryWithHead(name, 0x20, sector);
      if !ok {
        CreateNothing(v, c, heads, g.root, currentDir, wanted);
        return -1;
      }
      PutWord(sector, 32 * slot + 28, size);
      ghost var s2: Sector := sector[..];
      FreshSize(DirsOf(v, c, heads), currentDir, slot, s1, s2, wanted, 0x20, h, size);
      CreateDone(v, c, heads, g.root, currentDir, wanted, slot, s2, 0x20, h, size);
      WriteDirectory(g.ClusterSector(currentDir), currentDir, sector);
      FirstFreeAt(v, h);
      CreatedIs(v, currentDir, h, s2);
      return 0;
    }

    /** `create_dir`: like `create_file`, but the entry is a directory whose one cluster is empty. */
    method CreateDirectory(name: seq<byte>) returns (r: int, ghost h: nat)
      requires Valid() && 0 !in name
      requires TakesHead(Tree(), currentDir, ShortName(name)) ==> HeadRoom()
      modifies `disk, `chains, `heads
      ensures Valid() && |disk| == |old(disk)| && (old(Closed(g, disk)) ==> Closed(g, disk))
      ensures CreateResult(old(Vol()), old(chains), old(heads), Vol(), chains, heads, g.root, currentDir, ShortName(name), r)
      ensures r == 0 ==> h !in old(chains) && heads == old(heads) + {h} && EmptyDirectory(Tree(), h)
      ensures r == 0 && ShortName(name)[0] != 0xE5 ==> EntersDirectory(Tree(), currentDir, ShortName(name), h)
      ensures r == 0 && ShortName(name)[0] != 0xE5 ==> HasEntry(Tree(), currentDir, ShortName(name), 0x10, 0)
    {
      hide Linked, FatVolume.Tree, Mirrored, Volume, Find, ShortName, FileBytes, FreshEntry, Live, OthersKept, PathsKept, Closed, Full, Takes, Free, LowFree, Exhausted, Readable, FirstFree, FirstSectorFull, CreateResult, Created, Allocated, EntersDirectory, HasEntry, Geometry.Backed;
      ghost var v, c, wanted := Vol(), chains, ShortName(name);
      h := 0;
      var sector := new byte[512];
      var found, _, _ := FindEntry(name, currentDir, sector);
      HeadRange(v, c, currentDir);
      ShortNameStart(name);
      if found != -1 {
        CreateNothing(v, c, heads, g.root, currentDir, wanted);
        return -1, 0;
      }
      var slot, ok;
      ghost var s1;
      slot, ok, h, s1 := EntryWithHead(name, 0x10, sector);
      if !ok {
        CreateNothing(v, c, heads, g.root, currentDir, wanted);
        return -1, 0;
      }
      CreateDone(v, c, heads, g.root, currentDir, wanted, slot, s1, 0x10, h, 0);
      WriteDirectory(g.ClusterSector(currentDir), currentDir, sector);
      FirstFreeAt(v, h);
      CreatedIs(v, currentDir, h, s1);
      heads := heads + {h};
      return 0, h;
    }

    /** `cd`: to the root, to the parent, or into a subdirectory; -1 leaves everything as it was. */
    method ChangeDirectory(name: seq<byte>) returns (r: int)
      requires Valid()
      modifies `currentDir, `directoryStack
      ensures Valid() && (r == 0 || r == -1)
      ensures r == -1 ==> currentDir == old(currentDir) && directoryStack == old(directoryStack)
      ensures NamesRoot(name) || (NamesParent(name) && old(directoryStack) == []) ==>
        r == 0 && currentDir == g.root && directoryStack == []
      ensures !NamesRoot(name) && NamesParent(name) && old(directoryStack) != [] ==>
        r == 0 && old(directoryStack) == directoryStack + [currentDir]
      ensures !NamesRoot(name) && !NamesParent(name) && r == 0 ==>
        directoryStack == old(directoryStack) + [old(currentDir)] && EntersDirectory(Tree(), old(currentDir), ShortName(name), currentDir)
      ensures !NamesRoot(name) && !NamesParent(name) && r == -1 ==>
        NotADirectory(Tree(), currentDir, ShortName(name)) || |directoryStack| == 16
    {
      hide Disjoint, NoSharing, Terminated, Mirrored, Volume, ShortName;
      var up := NamesParent(name);
      if NamesRoot(name) || (up && |directoryStack| == 0) {
        currentDir, directoryStack := g.root, [];
        return 0;
      }
      if up {
        currentDir, directoryStack := directoryStack[|directoryStack| - 1], directoryStack[..|directoryStack| - 1];
        return 0;
      }
      var sector := new byte[512];
      var slot, _, k := FindEntry(name, currentDir, sector);
      if slot == -1 || !IsDirectory(sector[..], slot) || |directoryStack| >= 16 {
        return -1;
      }
      assert LiveSlot(Tree(), currentDir, k, slot);
      directoryStack := directoryStack + [currentDir];
      currentDir := Head(sector[..], slot);
      return 0;
    }

    /** Puts a buffer back as the first sector of a cluster. */
    method WriteDirectory(sectorNumber: nat, ghost cluster: nat, buffer: array<byte>)
      requires Sound() && 2 <= cluster < g.Backed(|disk|) && sectorNumber == g.ClusterSector(cluster) && buffer.Length == 512
      modifies `disk
      ensures |disk| == |old(disk)| && Mirrored(g, disk) && (old(Closed(g, disk)) ==> Closed(g, disk))
      ensures Volume(g, disk) == old(Vol()).(data := old(Vol()).data[cluster := buffer[..]])
    {
      hide Linked, Geometry.ClusterSector, Geometry.FirstData, Geometry.Backed;
      ClusterRange(g, |disk|, cluster);
      SmallModulus(sectorNumber, 0x1000_0000);
      ghost var before := disk;
      WriteSector(sectorNumber, buffer);
      WriteCluster(g, before, disk, cluster, 0, buffer[..]);
    }
  }

  /** A stored name starts neither with a zero byte nor with a dot. */
  lemma ShortNameStart(name: seq<byte>)
    requires 0 !in name
    ensures ShortName(name)[0] != 0 && ShortName(name)[0] != DOT
  {
  }

  lemma FirstFreeSlot(t: Dirs, d: nat, i: nat, s': Sector, name: seq<byte>, attributes: byte, h: nat)
    requires Slot(t, d, 0, i) && !Occupied(t[d][0], i) && forall j :: 0 <= j < i ==> Occupied(t[d][0], j)
    requires Entered(t[d][0], s', i, ShortName(name), attributes, h, 0) && 0 !in name
    ensures FreshEntry(t, d, i, s', ShortName(name), attributes, h, 0) && Word16(s', 32 * i + 26) == h % 0x1_0000 && Head(s', i) == h
  {
    ShortNameStart(name);
    assert Name(s', i)[0] == s'[32 * i];
    forall j | 0 <= j < i
      ensures !Ended(t[d][0], j)
    {
      assert Occupied(t[d][0], j);
    }
  }

  lemma CreatedIs(v: Vol, d: nat, h: nat, s': Sector)
    requires d < |v.data| && h < |v.fat| == |v.data|
    ensures Created(v, d, h, s') == Allocated(v, h).(data := Allocated(v, h).data[d := s'])
  {
  }

  ghost predicate ZeroSectors(disk: seq<Sector>, from: nat, n: nat) {
    from + n <= |disk| && forall m :: from <= m < from + n ==> disk[m] == Zeros()
  }

  lemma OccupiedSlots(s: Sector, i: nat)
    requires i <= SLOTS && (forall j :: 0 <= j < i ==> Occupied(s, j)) && (i < SLOTS ==> !Occupied(s, i))
    ensures forall j :: 0 <= j < i ==> s[32 * j] != 0 && s[32 * j] != 0xE5
    ensures i < SLOTS ==> s[32 * i] == 0 || s[32 * i] == 0xE5
  {
    forall j | 0 <= j < i
      ensures s[32 * j] != 0 && s[32 * j] != 0xE5
    {
      assert Occupied(s, j);
    }
  }

  lemma FirstFreeAt(v: Vol, h: nat)
    requires FirstFree(v, h)
    ensures 2 <= h < |v.fat|
  {
  }

  lemma NotFull(t: Dirs, d: nat, i: nat)
    requires Slot(t, d, 0, i) && !Occupied(t[d][0], i)
    ensures !FirstSectorFull(t, d)
  {
  }

  ghost predicate SectorAt(t: Dirs, d: nat, k: nat, s: Sector) {
    d in t && k < |t[d]| && t[d][k] == s
  }

  predicate NamesRoot(name: seq<byte>) {
    |name| >= 1 && name[0] == 0x2F
  }

  predicate NamesParent(name: seq<byte>) {
    |name| >= 2 && name[0] == DOT && name[1] == DOT
  }

  ghost predicate EmptyDirectory(t: Dirs, d: nat) {
    d in t && t[d] == [Zeros()]
  }

  ghost predicate NotADirectory(t: Dirs, d: nat, wanted: seq<byte>) {
    d in t && var p := Find(t[d], 0, wanted); p.Found? ==> !IsDirectory(t[d][p.link], p.slot)
  }

  /** The counter of stored bytes, 32 bits wide, does not wrap around before data of that size is stored. */
  ghost predicate Counts(g: Geometry, disk: nat, size: nat)
    requires g.Fits(disk)
  {
    size <= 0xFFFF_FE00 || (size <= 0xFFFF_FFFF && g.Backed(disk) <= 0x80_0001)
  }

  // ---- Whole runs ----

  datatype Request = Create(name: seq<byte>, size: nat) | MakeDirectory(name: seq<byte>)
                   | Write(name: seq<byte>, data: seq<byte>) | Enter(name: seq<byte>)

  /** Names hold no zero byte, and sizes fit 32 bits; the sizes of data to write also leave the counter of a write in range. */
  ghost predicate WellFormed(g: Geometry, disk: nat, r: Request)
    requires g.Fits(disk)
  {
    match r
    case Create(name, size) => 0 !in name && size < 0x1_0000_0000
    case MakeDirectory(name) => 0 !in name
    case Write(name, data) => 0 !in name && Counts(g, disk, |data|)
    case Enter(name) => 0 !in name
  }

  /** The most clusters a request takes. */
  ghost function Demand(r: Request): nat {
    match r
    case Create(_, _) => 1
    case MakeDirectory(_) => 1
    case Write(_, data) => 1 + More(1, |data|)
    case Enter(_) => 0
  }

  ghost function TotalDemand(requests: seq<Request>): nat {
    if requests == [] then 0 else Demand(requests[0]) + TotalDemand(requests[1..])
  }

  /**
   Any run of requests keeps the chains acyclic and disjoint, the table's copies equal and the tree consistent; a name
   that no request mentions keeps its contents and its place, in every directory. What a run needs of the disk is that
   the free clusters below 65536 suffice for it, or that there are no free clusters beyond and the allocator notices
   when the last is gone.
   */
  method Run(driver: Driver, requests: seq<Request>)
    requires driver.Valid() && forall i :: 0 <= i < |requests| ==> WellFormed(driver.g, |driver.disk|, requests[i])
    requires driver.HeadSupply(TotalDemand(requests))
    modifies driver
    ensures driver.Valid()
    ensures NamesKept(old(driver.Vol()), old(driver.chains), old(driver.heads), driver.Vol(), driver.chains, driver.heads,
                      driver.g.root, Names(requests))
  {
    hide NamesKept, Names, NameOf, WellFormed, Consistent, Driver.Sound, Driver.HeadSupply, Demand;
    ghost var v, c, h, root, size := driver.Vol(), driver.chains, driver.heads, driver.g.root, |driver.disk|;
    NamesKeptSelf(v, c, h, root, Names([]));
    assert requests[..0] == [] && requests[0..] == requests;
    for i := 0 to |requests|
      invariant driver.Valid() && |driver.disk| == size && driver.HeadSupply(TotalDemand(requests[i..]))
      invariant NamesKept(v, c, h, driver.Vol(), driver.chains, driver.heads, root, Names(requests[..i]))
    {
      ghost var v1, c1, h1 := driver.Vol(), driver.chains, driver.heads;
      assert requests[i..][1..] == requests[i + 1..];
      var _ := Serve(driver, requests[i], TotalDemand(requests[i + 1..]));
      NamesKeptTrans(v, c, h, v1, c1, h1, driver.Vol(), driver.chains, driver.heads, root, Names(requests[..i]), {NameOf(requests[i])});
      NamesAppend(requests[..i], requests[i]);
      assert requests[..i + 1] == requests[..i] + [requests[i]];
    }
    assert requests[..|requests|] == requests;
  }

  lemma NamesAppend(requests: seq<Request>, r: Request)
    ensures Names(requests + [r]) == Names(requests) + {NameOf(r)}
  {
    hide NameOf;
    forall n | n in Names(requests) + {NameOf(r)}
      ensures n in Names(requests + [r])
    {
      var q :| q in requests + [r] && NameOf(q) == n;
    }
  }

  ghost function NameOf(r: Request): seq<byte> {
    ShortName(r.name)
  }

  /** The names as stored that requests mention. */
  ghost function Names(requests: seq<Request>): set<seq<byte>> {
    set r | r in requests :: NameOf(r)
  }

  method Serve(driver: Driver, request: Request, ghost rest: nat) returns (r: int)
    requires driver.Valid() && WellFormed(driver.g, |driver.disk|, request) && driver.HeadSupply(Demand(request) + rest)
    modifies driver
    ensures driver.Valid() && |driver.disk| == |old(driver.disk)| && driver.HeadSupply(rest)
    ensures NamesKept(old(driver.Vol()), old(driver.chains), old(driver.heads), driver.Vol(), driver.chains, driver.heads,
                      driver.g.root, {NameOf(request)})
  {
    hide NamesKept, OthersKept, PathsKept, ShortName, Consistent, Driver.Sound, Driver.CanWrite, Driver.HeadRoom, Closed, Takes, Needed, More, Free, LowFree, FatUpdates.File, NotAFile, ResizedAt, DirsOf;
    ghost var v, c, h, d, n := driver.Vol(), driver.chains, driver.heads, driver.currentDir, 0;
    driver.Supplied(Demand(request) + rest);
    match request {
      case Create(name, size) =>
        r := driver.CreateFile(name, size);
        n := if r == 0 then 1 else 0;
      case MakeDirectory(name) =>
        ghost var head;
        r, head := driver.CreateDirectory(name);
        n := if r == 0 then 1 else 0;
      case Write(name, data) =>
        driver.SuppliedWrite(ShortName(name), |data|, rest);
        NeededMost(driver.Tree(), c, d, ShortName(name), |data|);
        n := Min(driver.Need(ShortName(name), |data|), |Free(v)|);
        r := driver.WriteFile(name, data);
      case Enter(name) =>
        r := driver.ChangeDirectory(name);
    }
    if request.Enter? || n == 0 {
      TakesNone(v, v);
    }
    SupplyLeft(v, driver.Vol(), n, Demand(request), rest);
    if request.Enter? {
      NamesKeptSelf(v, c, h, driver.g.root, {NameOf(request)});
    } else {
      NamesKeptOne(v, c, h, driver.Vol(), driver.chains, driver.heads, driver.g.root, d, NameOf(request));
    }
  }
}
