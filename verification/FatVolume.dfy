/**
 What a FAT32 volume means once its layout on disk is set aside: the allocation table as
 a sequence of links, the first sector of every cluster, and the chains and directories
 they form. `FileSystem` proves its methods against these definitions.
 */
module FatVolume {
  import opened Bytes
  import opened ModArith

  const SECTOR: nat := 512
  const SLOTS: nat := 16
  const FREE: nat := 0
  const DOT: byte := 0x2E
  const EOC: nat := 0x0FFF_FFF8

  type Sector = s: seq<byte> | |s| == 512 witness seq(512, _ => 0)

  ghost function Zeros(): Sector {
    seq(512, _ => 0)
  }

  /** fat[c] is the link of cluster c, data[c] the first sector of cluster c. */
  datatype Vol = Vol(fat: seq<nat>, data: seq<Sector>)

  type Chains = map<nat, seq<nat>>

  // ---- Directory slots ----

  function Name(s: Sector, i: nat): (n: seq<byte>)
    requires i < SLOTS
    ensures |n| == 11
  {
    s[32 * i..32 * i + 11]
  }

  function Attributes(s: Sector, i: nat): byte
    requires i < SLOTS
  {
    s[32 * i + 11]
  }

  function Head(s: Sector, i: nat): nat
    requires i < SLOTS
  {
    0x1_0000 * Word16(s, 32 * i + 20) + Word16(s, 32 * i + 26)
  }

  function Size(s: Sector, i: nat): nat
    requires i < SLOTS
  {
    Word32(s, 32 * i + 28)
  }

  function SlotBytes(s: Sector, i: nat): seq<byte>
    requires i < SLOTS
  {
    s[32 * i..32 * i + 32]
  }

  predicate IsDirectory(s: Sector, i: nat)
    requires i < SLOTS
  {
    (Attributes(s, i) / 16) % 2 == 1
  }

  /** Slots that `find_entry` compares with the wanted name. */
  predicate Live(s: Sector, i: nat)
    requires i < SLOTS
  {
    var first := s[32 * i];
    first != 0 && first != 0xE5 && first != DOT && Attributes(s, i) != 0x0F
  }

  // ---- Looking a name up ----

  datatype Scan = Hit(slot: nat) | Stop | Miss
  datatype Place = Nowhere | Found(link: nat, slot: nat)

  /** Outcome of scanning one directory sector from slot i on. */
  function ScanSector(s: Sector, i: nat, wanted: seq<byte>): (r: Scan)
    requires i <= SLOTS
    ensures r.Hit? ==> i <= r.slot < SLOTS && Live(s, r.slot) && Name(s, r.slot) == wanted
    decreases SLOTS - i
  {
    if i == SLOTS then Miss
    else if s[32 * i] == 0 then Stop
    else if Live(s, i) && Name(s, i) == wanted then Hit(i)
    else ScanSector(s, i + 1, wanted)
  }

  /** The first matching slot in the sectors of a directory, from the k-th on. */
  function Find(sectors: seq<Sector>, k: nat, wanted: seq<byte>): (p: Place)
    requires k <= |sectors|
    ensures p.Found? ==> k <= p.link < |sectors| && p.slot < SLOTS
    ensures p.Found? ==> Live(sectors[p.link], p.slot) && Name(sectors[p.link], p.slot) == wanted
    decreases |sectors| - k
  {
    if k == |sectors| then Nowhere
    else match ScanSector(sectors[k], 0, wanted)
      case Hit(i) => Found(k, i)
      case Stop => Nowhere
      case Miss => Find(sectors, k + 1, wanted)
  }

  // ---- Chains ----

  ghost predicate IsChain(fat: seq<nat>, chain: seq<nat>) {
    && |chain| > 0
    && (forall k :: 0 <= k < |chain| ==> 2 <= chain[k] < |fat|)
    && (forall k :: 0 <= k < |chain| - 1 ==> fat[chain[k]] == chain[k + 1])
    && fat[chain[|chain| - 1]] >= EOC
  }

  /** Following the table from cluster k of a chain leads to the next one or past the end. */
  lemma NextOnChain(fat: seq<nat>, chain: seq<nat>, k: nat)
    requires IsChain(fat, chain) && k < |chain|
    ensures 2 <= chain[k] < |fat|
    ensures if k + 1 < |chain| then fat[chain[k]] == chain[k + 1] else fat[chain[k]] >= EOC
  {
  }

  ghost predicate On(chains: Chains, h: nat, k: int) {
    h in chains && 0 <= k < |chains[h]|
  }

  /** Marks a pair of positions at which a property of pairs is to be used. */
  ghost predicate Pair(h: nat, k: int, h': nat, k': int) {
    true
  }

  ghost predicate SlotPair(d: nat, k: int, i: int, d': nat, k': int, i': int) {
    true
  }

  ghost predicate Disjoint(chains: Chains) {
    forall h: nat, k, h': nat, k' {:trigger Pair(h, k, h', k')} ::
      Pair(h, k, h', k') && On(chains, h, k) && On(chains, h', k') && chains[h][k] == chains[h'][k']
      ==> h == h' && k == k'
  }

  /** Positions on disjoint chains that differ hold different clusters. */
  lemma Different(chains: Chains, h: nat, k: int, h': nat, k': int)
    requires Disjoint(chains) && On(chains, h, k) && On(chains, h', k') && (h != h' || k != k')
    ensures chains[h][k] != chains[h'][k']
  {
    assert Pair(h, k, h', k');
  }

  lemma DisjointAt(chains: Chains, h: nat, k: int, h': nat, k': int)
    requires Disjoint(chains) && On(chains, h, k) && On(chains, h', k') && chains[h][k] == chains[h'][k']
    ensures h == h' && k == k'
  {
    assert Pair(h, k, h', k');
  }

  /**
   Every head starts a chain that ends; no cluster lies on two chains or twice on one. Cluster numbers stay below
   the values that end a chain.
   */
  ghost predicate Linked(v: Vol, chains: Chains) {
    && |v.fat| == |v.data| <= EOC
    && (forall h :: h in chains ==> IsChain(v.fat, chains[h]) && chains[h][0] == h)
    && Disjoint(chains)
  }

  /** The head of a chain is one of the clusters. */
  lemma HeadRange(v: Vol, chains: Chains, h: nat)
    requires Linked(v, chains) && h in chains
    ensures 2 <= h < |v.fat| && On(chains, h, 0) && chains[h][0] == h
  {
    assert IsChain(v.fat, chains[h]);
  }

  lemma {:induction false} DistinctBound(s: seq<nat>, n: nat)
    requires forall i :: 0 <= i < |s| ==> s[i] < n
    requires forall i, j :: 0 <= i < j < |s| ==> s[i] != s[j]
    ensures |s| <= n
  {
    if |s| > 0 {
      assert s[0] < n;
      if i :| 0 <= i < |s| && s[i] == n - 1 {
        var rest := s[..i] + s[i + 1..];
        assert forall j :: 0 <= j < |rest| ==> rest[j] == if j < i then s[j] else s[j + 1];
        DistinctBound(rest, n - 1);
      } else {
        DistinctBound(s, n - 1);
      }
    }
  }

  /** No chain has more clusters than the volume. */
  lemma ChainLength(v: Vol, chains: Chains, h: nat)
    requires Linked(v, chains) && h in chains
    ensures |chains[h]| + 2 <= |v.fat|
  {
    assert IsChain(v.fat, chains[h]);
    var numbers: seq<nat> := [0, 1] + chains[h];
    forall i, j | 0 <= i < j < |numbers|
      ensures numbers[i] != numbers[j]
    {
      if i >= 2 {
        Different(chains, h, i - 2, h, j - 2);
      }
    }
    DistinctBound(numbers, |v.fat|);
  }

  // ---- Free clusters ----

  ghost function Free(v: Vol): set<nat> {
    set c: nat | 2 <= c < |v.fat| && v.fat[c] == FREE
  }

  /** The free clusters whose numbers fit the 16 bits in which a new entry's head is stored. */
  ghost function LowFree(v: Vol): (s: set<nat>)
    ensures s <= Free(v)
  {
    set c | c in Free(v) && c < 0x1_0000
  }

  ghost predicate Full(v: Vol) {
    Free(v) == {}
  }

  /** The cluster `alloc_cluster` comes to first. */
  ghost predicate FirstFree(v: Vol, c: nat) {
    2 <= c < |v.fat| && v.fat[c] == FREE && forall b :: 2 <= b < c ==> v.fat[b] != FREE
  }

  lemma FirstFreeLow(v: Vol, c: nat)
    requires FirstFree(v, c)
    ensures !Full(v) && (c < 0x1_0000 <==> LowFree(v) != {})
  {
    assert c in Free(v);
    assert c < 0x1_0000 ==> c in LowFree(v);
    assert forall b :: b in LowFree(v) ==> c <= b;
  }

  /** The clusters taken between two states of a volume: none is ever given back, and n are taken. */
  ghost predicate Takes(v: Vol, w: Vol, n: nat) {
    Free(w) <= Free(v) && |Free(w)| + n == |Free(v)|
  }

  lemma TakesTrans(u: Vol, v: Vol, w: Vol, m: nat, n: nat)
    requires Takes(u, v, m) && Takes(v, w, n)
    ensures Takes(u, w, m + n)
  {
  }

  lemma TakesNone(v: Vol, w: Vol)
    requires Free(w) == Free(v)
    ensures Takes(v, w, 0)
  {
  }

  /** Of the low clusters at most as many are gone as were taken in all. */
  lemma LowLeft(v: Vol, w: Vol, n: nat)
    requires Takes(v, w, n)
    ensures LowFree(w) <= LowFree(v) && |LowFree(v)| <= |LowFree(w)| + n
    ensures Free(v) == LowFree(v) ==> Free(w) == LowFree(w)
  {
    var gone := Free(v) - Free(w);
    SubsetSize(Free(w), Free(v));
    SubsetSize(LowFree(v) - LowFree(w), gone);
    SubsetSize(LowFree(w), LowFree(v));
  }

  /** What a supply of low clusters has left after some of them are taken. */
  lemma SupplyLeft(v: Vol, w: Vol, n: nat, most: nat, rest: nat)
    requires Takes(v, w, n) && n <= most
    ensures most + rest <= |LowFree(v)| ==> rest <= |LowFree(w)|
    ensures Free(v) == LowFree(v) ==> Free(w) == LowFree(w)
  {
    LowLeft(v, w, n);
  }

  lemma SubsetSize<T>(a: set<T>, b: set<T>)
    requires a <= b
    ensures |a| <= |b| && |b - a| == |b| - |a|
  {
    assert a + (b - a) == b;
  }

  // ---- Space for data ----

  /** How many clusters a chain of the given length lacks to hold data of the given size. */
  function More(length: nat, size: nat): (n: nat)
    ensures n == 0 <==> size <= 512 * length
    ensures n > 0 ==> size <= 512 * (length + n) < size + 512
  {
    if size <= 512 * length then 0 else (size + 511) / 512 - length
  }

  // ---- Directories ----

  /** The first sectors of the clusters of every directory, by directory head. */
  type Dirs = map<nat, seq<Sector>>

  /** The first sectors of the clusters of a chain. */
  ghost function Sectors(data: seq<Sector>, chain: seq<nat>): (s: seq<Sector>)
    requires forall k :: 0 <= k < |chain| ==> chain[k] < |data|
    ensures |s| == |chain|
  {
    seq(|chain|, k requires 0 <= k < |chain| => data[chain[k]])
  }

  ghost function DirsOf(v: Vol, chains: Chains, heads: set<nat>): (t: Dirs)
    requires Linked(v, chains) && heads <= chains.Keys
    ensures t.Keys == heads
  {
    map d | d in heads :: Sectors(v.data, chains[d])
  }

  ghost predicate Slot(t: Dirs, d: nat, k: int, i: int) {
    d in t && 0 <= k < |t[d]| && 0 <= i < SLOTS
  }

  ghost predicate LiveSlot(t: Dirs, d: nat, k: int, i: int) {
    Slot(t, d, k, i) && Live(t[d][k], i)
  }

  /** A live slot refers to nothing yet, or to a chain of its own, which is a directory iff its attribute says so. */
  ghost predicate SlotOk(t: Dirs, heads: set<nat>, root: nat, s: Sector, i: nat)
    requires i < SLOTS
  {
    var h := Head(s, i);
    && h != root
    && (h == 0 ==> !IsDirectory(s, i) && Size(s, i) == 0)
    && (h != 0 ==> h in heads && (h in t <==> IsDirectory(s, i)))
  }

  ghost predicate Ended(s: Sector, i: int) {
    0 <= i < SLOTS && s[32 * i] == 0
  }

  ghost predicate EndsAt(sectors: seq<Sector>, k: int, i: int) {
    0 <= k < |sectors| && Ended(sectors[k], i)
  }

  /** Once a slot's first byte is zero, so are those of all later slots of the directory. */
  ghost predicate Terminated(sectors: seq<Sector>) {
    forall k: nat, i, k': nat, i' {:trigger Pair(k, i, k', i')} ::
      Pair(k, i, k', i') && EndsAt(sectors, k, i) && 0 <= k' < |sectors| && 0 <= i' < SLOTS && (k < k' || (k == k' && i < i'))
      ==> EndsAt(sectors, k', i')
  }

  lemma TerminatedAt(sectors: seq<Sector>, k: nat, i: int, k': nat, i': int)
    requires Terminated(sectors) && EndsAt(sectors, k, i) && k' < |sectors| && 0 <= i' < SLOTS
    requires k < k' || (k == k' && i < i')
    ensures EndsAt(sectors, k', i')
  {
    assert Pair(k, i, k', i');
  }

  /** No two live slots share a chain. */
  ghost predicate NoSharing(t: Dirs) {
    forall d: nat, k, i, d': nat, k', i' {:trigger SlotPair(d, k, i, d', k', i')} ::
      SlotPair(d, k, i, d', k', i') && LiveSlot(t, d, k, i) && LiveSlot(t, d', k', i') && Head(t[d][k], i) == Head(t[d'][k'], i') != 0
      ==> d == d' && k == k' && i == i'
  }

  lemma NoSharingAt(t: Dirs, d: nat, k: int, i: int, d': nat, k': int, i': int)
    requires NoSharing(t) && LiveSlot(t, d, k, i) && LiveSlot(t, d', k', i')
    requires Head(t[d][k], i) == Head(t[d'][k'], i') != 0
    ensures d == d' && k == k' && i == i'
  {
    assert SlotPair(d, k, i, d', k', i');
  }

  /** The directory tree over the chains with the given heads. */
  ghost predicate Tree(t: Dirs, heads: set<nat>, root: nat) {
    && root in t && t.Keys <= heads
    && (forall d :: d in t ==> Terminated(t[d]))
    && (forall d: nat, k, i :: LiveSlot(t, d, k, i) ==> SlotOk(t, heads, root, t[d][k], i))
    && NoSharing(t)
  }

  // ---- Files ----

  datatype Contents = Missing | Contents(bytes: seq<byte>)

  /** The bytes a chain holds for a file of the given size: 512 from the first sector of each cluster. */
  ghost function ChainBytes(sectors: seq<Sector>, size: nat): (b: seq<byte>)
    ensures |b| == Min(size, 512 * |sectors|)
  {
    seq(Min(size, 512 * |sectors|), j requires 0 <= j < 512 * |sectors| => sectors[j / 512][j % 512])
  }

  /** What reading a file by name in a directory yields when the buffer is large enough. */
  ghost function FileBytes(v: Vol, chains: Chains, t: Dirs, root: nat, d: nat, wanted: seq<byte>): Contents
    requires Linked(v, chains) && Tree(t, chains.Keys, root) && d in t
  {
    match Find(t[d], 0, wanted)
    case Nowhere => Missing
    case Found(k, i) =>
      var s := t[d][k];
      if IsDirectory(s, i) then Missing
      else if Head(s, i) == 0 then Contents([])
      else
        assert LiveSlot(t, d, k, i);
        Contents(ChainBytes(Sectors(v.data, chains[Head(s, i)]), Size(s, i)))
  }
}
