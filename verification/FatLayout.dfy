/** Where a FAT32 volume keeps what the other modules speak of, byte by byte: directory entries, table entries, clusters. */
module FatLayout {
  import opened Bytes
  import opened FatVolume
  import opened FatFrames
  import opened FatDisk
  import opened ModArith

  // ---- Directory entries ----

  /** Bit 4 of a byte. */
  lemma DirectoryBit(attributes: byte)
    ensures (attributes / 16) % 2 == 1 <==> (attributes as bv8) & 0x10 == 0x10
  {
  }

  /** The fields of `struct fat32_entry`, in order: name, attributes, times, high half of the cluster, times, low half, size. */
  lemma EntryFields(s: Sector, i: nat, name: seq<byte>, attributes: byte, times: seq<byte>, high: seq<byte>, more: seq<byte>,
                    low: seq<byte>, size: seq<byte>)
    requires i < 16 && |name| == 11 && |times| == 8 && |high| == 2 && |more| == 4 && |low| == 2 && |size| == 4
    requires s[32 * i..32 * i + 32] == name + [attributes] + times + high + more + low + size
    ensures Name(s, i) == name && Attributes(s, i) == attributes && (IsDirectory(s, i) <==> (attributes as bv8) & 0x10 == 0x10)
    ensures Head(s, i) == low[0] as int + 0x100 * low[1] as int + 0x1_0000 * high[0] as int + 0x100_0000 * high[1] as int
    ensures Size(s, i) == size[0] as int + 0x100 * size[1] as int + 0x1_0000 * size[2] as int + 0x100_0000 * size[3] as int
  {
    DirectoryBit(attributes);
    var e := s[32 * i..32 * i + 32];
    assert s[32 * i..32 * i + 11] == e[..11];
    assert s[32 * i + 11] == e[11];
    assert s[32 * i + 20] == e[20] && s[32 * i + 21] == e[21] && s[32 * i + 26] == e[26] && s[32 * i + 27] == e[27];
    assert s[32 * i + 28] == e[28] && s[32 * i + 29] == e[29] && s[32 * i + 30] == e[30] && s[32 * i + 31] == e[31];
  }

  // ---- Looking a name up ----

  /** A slot's bytes: not deleted, no dot entry, not a part of a long name, and the wanted name in its first eleven. */
  ghost predicate Matches(s: Sector, i: int, wanted: seq<byte>) {
    0 <= i < 16 && s[32 * i] != 0xE5 && s[32 * i] != 0x2E && s[32 * i + 11] != 0x0F && s[32 * i..32 * i + 11] == wanted
  }

  ghost predicate SlotGoesOn(s: Sector, j: int, wanted: seq<byte>) {
    0 <= j < 16 && s[32 * j] != 0 && !Matches(s, j, wanted)
  }

  /** No slot from m to i, excluded, ends the directory or matches. */
  ghost predicate Clear(s: Sector, m: int, i: int, wanted: seq<byte>) {
    m <= i < 16 && 0 <= m && forall j :: m <= j < i ==> SlotGoesOn(s, j, wanted)
  }

  lemma {:induction false} ScanIff(s: Sector, m: nat, wanted: seq<byte>)
    requires m <= 16
    ensures match ScanSector(s, m, wanted)
      case Hit(i) => Clear(s, m, i, wanted) && s[32 * i] != 0 && Matches(s, i, wanted)
      case Stop => exists i :: Clear(s, m, i, wanted) && s[32 * i] == 0
      case Miss => forall j :: m <= j < 16 ==> SlotGoesOn(s, j, wanted)
    decreases 16 - m
  {
    if m < 16 {
      ScanIff(s, m + 1, wanted);
      if s[32 * m] == 0 {
        assert Clear(s, m, m, wanted);
      } else if !Matches(s, m, wanted) && ScanSector(s, m + 1, wanted).Stop? {
        var i :| Clear(s, m + 1, i, wanted) && s[32 * i] == 0;
        assert Clear(s, m, i, wanted);
      }
    }
  }

  /** The first slot with the name, with no slot before it that ends the directory. */
  ghost predicate FirstMatch(sectors: seq<Sector>, start: nat, k: nat, i: nat, wanted: seq<byte>) {
    && start <= k < |sectors| && Clear(sectors[k], 0, i, wanted) && sectors[k][32 * i] != 0 && Matches(sectors[k], i, wanted)
    && forall l: nat, j :: start <= l < k && 0 <= j < 16 ==> SlotGoesOn(sectors[l], j, wanted)
  }

  /** A name leads to a slot exactly when that is the first with the name. */
  lemma FindIff(sectors: seq<Sector>, k: nat, i: nat, wanted: seq<byte>)
    ensures Find(sectors, 0, wanted) == Found(k, i) <==> FirstMatch(sectors, 0, k, i, wanted)
  {
    hide Matches;
    if Find(sectors, 0, wanted) == Found(k, i) {
      FindsFirst(sectors, 0, wanted);
    }
    if FirstMatch(sectors, 0, k, i, wanted) {
      FirstIsFound(sectors, 0, k, i, wanted);
    }
  }

  lemma {:induction false} FindsFirst(sectors: seq<Sector>, start: nat, wanted: seq<byte>)
    requires start <= |sectors| && Find(sectors, start, wanted).Found?
    ensures var p := Find(sectors, start, wanted); FirstMatch(sectors, start, p.link, p.slot, wanted)
    decreases |sectors| - start
  {
    hide Matches;
    ScanIff(sectors[start], 0, wanted);
    if ScanSector(sectors[start], 0, wanted).Miss? {
      FindsFirst(sectors, start + 1, wanted);
    }
  }

  lemma {:induction false} FirstIsFound(sectors: seq<Sector>, start: nat, k: nat, i: nat, wanted: seq<byte>)
    requires FirstMatch(sectors, start, k, i, wanted)
    ensures Find(sectors, start, wanted) == Found(k, i)
    decreases |sectors| - start
  {
    hide Matches;
    if start < k {
      assert forall j :: 0 <= j < 16 ==> SlotGoesOn(sectors[start], j, wanted);
      ScanPasses(sectors[start], 0, wanted);
      FirstIsFound(sectors, start + 1, k, i, wanted);
    } else {
      ScanHits(sectors[k], 0, i, wanted);
    }
  }

  lemma {:induction false} ScanPasses(s: Sector, m: nat, wanted: seq<byte>)
    requires m <= 16 && forall j :: m <= j < 16 ==> SlotGoesOn(s, j, wanted)
    ensures ScanSector(s, m, wanted) == Miss
    decreases 16 - m
  {
    if m < 16 {
      assert SlotGoesOn(s, m, wanted);
      ScanPasses(s, m + 1, wanted);
    }
  }

  lemma {:induction false} ScanHits(s: Sector, m: nat, i: nat, wanted: seq<byte>)
    requires Clear(s, m, i, wanted) && s[32 * i] != 0 && Matches(s, i, wanted)
    ensures ScanSector(s, m, wanted) == Hit(i)
    decreases i - m
  {
    if m < i {
      assert SlotGoesOn(s, m, wanted);
      ScanHits(s, m + 1, i, wanted);
    }
  }

  // ---- The table and the clusters ----

  /** The tables lie behind the reserved sectors, the clusters behind the tables, one after the other. */
  lemma ClustersInOrder(g: Geometry, c: nat)
    requires c >= 2
    ensures g.ClusterSector(2) == g.reserved + g.fatCount * g.fatSize
    ensures g.ClusterSector(c + 1) == g.ClusterSector(c) + g.perCluster
  {
    assert (c - 1) * g.perCluster == (c - 2) * g.perCluster + g.perCluster;
  }

  /**
   The entry of a cluster is the four bytes at four times its number in the table, the lowest first, without their top
   four bits.
   */
  lemma EntryBytes(g: Geometry, disk: seq<Sector>, c: nat)
    requires g.Fits(|disk|) && c < g.Backed(|disk|)
    ensures var at := 512 * g.reserved + 4 * c;
      && at / 512 < |disk| && at % 512 + 4 <= 512
      && var s, o := disk[at / 512], at % 512;
        Volume(g, disk).fat[c]
        == s[o] as int + 0x100 * s[o + 1] as int + 0x1_0000 * s[o + 2] as int + 0x100_0000 * (s[o + 3] as int % 16)
  {
    hide Geometry.Backed, FatCopy;
    TablePosition(g, disk, c);
    EntryInTable(c, g.fatSize);
    var s, o := disk[g.reserved + c / 128], c * 4 % 512;
    assert (512 * g.reserved + 4 * c) / 512 == g.reserved + c / 128;
    assert Volume(g, disk).fat[c] == FatAt(g, disk, c) == Word32(s, o) % 0x1000_0000;
    LowBits(s[o] as int + 0x100 * s[o + 1] as int + 0x1_0000 * s[o + 2] as int, s[o + 3] as int);
  }

  lemma LowBits(low: int, top: int)
    requires 0 <= low < 0x100_0000 && 0 <= top < 256
    ensures (low + 0x100_0000 * top) % 0x1000_0000 == low + 0x100_0000 * (top % 16)
  {
  }

  /** What is free and where a chain ends, as numbers. */
  lemma LinkValues(v: Vol, chain: seq<nat>, c: nat)
    requires |v.fat| == |v.data| && c < |v.fat|
    ensures c in Free(v) <==> c >= 2 && v.fat[c] == 0
    ensures IsChain(v.fat, chain) ==> v.fat[chain[|chain| - 1]] >= 0x0FFF_FFF8
    ensures Allocated(v, c).fat[c] == 0x0FFF_FFF8 && Allocated(v, c).data[c] == seq(512, _ => 0)
  {
  }

  /** Byte j of a file is byte j % 512 of the first sector of the cluster that j / 512 links lead to from the slot's. */
  lemma FileByte(v: Vol, chains: Chains, t: Dirs, root: nat, d: nat, wanted: seq<byte>, j: nat)
    requires Linked(v, chains) && Tree(t, chains.Keys, root) && d in t
    requires FileBytes(v, chains, t, root, d, wanted).Contents? && j < |FileBytes(v, chains, t, root, d, wanted).bytes|
    ensures var p := Find(t[d], 0, wanted);
      && p.Found? && j < Size(t[d][p.link], p.slot)
      && Reaches(v.fat, Head(t[d][p.link], p.slot), j / 512) < |v.data|
      && FileBytes(v, chains, t, root, d, wanted).bytes[j]
         == v.data[Reaches(v.fat, Head(t[d][p.link], p.slot), j / 512)][j % 512]
  {
    hide Disjoint, NoSharing, Terminated, Find;
    var p := Find(t[d], 0, wanted);
    assert LiveSlot(t, d, p.link, p.slot);
    var h := Head(t[d][p.link], p.slot);
    assert IsChain(v.fat, chains[h]);
    ReachesChain(v.fat, chains[h], j / 512);
  }

  /** The cluster that n links lead to. */
  ghost function Reaches(fat: seq<nat>, c: nat, n: nat): nat
    decreases n
  {
    if n == 0 || c >= |fat| then c else Reaches(fat, fat[c], n - 1)
  }

  lemma {:induction false} ReachesChain(fat: seq<nat>, chain: seq<nat>, n: nat)
    requires IsChain(fat, chain) && n < |chain|
    ensures Reaches(fat, chain[0], n) == chain[n]
    decreases n
  {
    if n > 0 {
      assert fat[chain[0]] == chain[1];
      assert IsChain(fat, chain[1..]) by {
        forall k | 0 <= k < |chain| - 2
          ensures fat[chain[1..][k]] == chain[1..][k + 1]
        {
          assert fat[chain[k + 1]] == chain[k + 2];
        }
      }
      ReachesChain(fat, chain[1..], n - 1);
    }
  }
}
