/**
 What `write_file` does, step by step, on values: the data on a chain, the chain growing into free clusters, and
 the outcome of the whole write.
 */
module FatWrites {
  import opened Bytes
  import opened FatVolume
  import opened FatFrames
  import opened FatSlots
  import opened FatUpdates
  import opened ModArith

  lemma ResizedSelf(s: Sector, i: nat)
    requires i < SLOTS
    ensures Resized(s, s, i, Head(s, i), Size(s, i))
  {
  }

  lemma PatchedHead(s: Sector, s': Sector, i: nat, h: nat)
    requires i < SLOTS && h < 0x1_0000 && s' == Put16(Put16(s, 32 * i + 26, h), 32 * i + 20, 0)
    ensures Resized(s, s', i, h, Size(s, i))
  {
  }

  lemma PatchedSize(s: Sector, s1: Sector, s2: Sector, i: nat, h: nat, size: nat)
    requires i < SLOTS && size < 0x1_0000_0000 && Resized(s, s1, i, h, Size(s, i)) && s2 == Put32(s1, 32 * i + 28, size)
    ensures Resized(s, s2, i, h, size)
  {
    forall m | 0 <= m < SLOTS && m != i
      ensures SameSlot(s, s2, m)
    {
      assert SameSlot(s, s1, m);
    }
    assert Name(s2, i) == Name(s1, i);
  }

  ghost function Block(data: seq<byte>, done: nat): Sector {
    seq(512, i requires 0 <= i => if done + i < |data| then data[done + i] else 0)
  }

  /** Behind the end of the data, a block holds zeros. */
  lemma SlackIsZero(data: seq<byte>, done: nat, i: nat)
    requires i < 512 && |data| <= done + i
    ensures Block(data, done)[i] == 0
  {
  }

  /** The first bytes of the data are where a read of the chain will find them. */
  ghost predicate Stored(sectors: seq<Sector>, data: seq<byte>, done: nat) {
    && (done <= 512 * |sectors| || |data| <= 512 * |sectors|)
    && forall j :: 0 <= j < done && j < |data| ==> sectors[j / 512][j % 512] == data[j]
  }

  lemma StoreBlock(sectors: seq<Sector>, data: seq<byte>, k: nat)
    requires k < |sectors| && Stored(sectors, data, 512 * k)
    ensures Stored(sectors[k := Block(data, 512 * k)], data, 512 * (k + 1))
  {
    forall j | 512 * k <= j < 512 * (k + 1) && j < |data|
      ensures Block(data, 512 * k)[j % 512] == data[j] && j / 512 == k
    {
      assert j / 512 == k && j % 512 == j - 512 * k;
    }
  }

  lemma StoredLonger(sectors: seq<Sector>, data: seq<byte>, done: nat)
    requires Stored(sectors, data, done)
    ensures Stored(sectors + [Zeros()], data, done)
  {
  }

  lemma StoredFits(sectors: seq<Sector>, data: seq<byte>, done: nat)
    requires Stored(sectors, data, done) && |data| <= done
    ensures |data| <= 512 * |sectors|
  {
  }

  /** Data stored until all clusters of the chain are used is what a file of the given size then reads as. */
  lemma StoredBytes(sectors: seq<Sector>, data: seq<byte>, done: nat, size: nat)
    requires Stored(sectors, data, done) && (|data| <= done || done == 512 * |sectors| < |data|)
    requires |data| <= done ==> size == |data|
    ensures ChainBytes(sectors, size) == data[..Min(Min(size, 512 * |sectors|), |data|)]
  {
  }

  /** A chain has grown by free clusters towards what data of the given size needs, no further. */
  ghost predicate Lengthened(v: Vol, w: Vol, before: nat, after: nat, size: nat) {
    before <= after && Takes(v, w, after - before) && More(after, size) + (after - before) == More(before, size)
  }

  lemma LengthenedSame(v: Vol, w: Vol, length: nat, size: nat)
    requires w.fat == v.fat
    ensures Lengthened(v, w, length, length, size)
  {
    TakesNone(v, w);
  }

  lemma LengthenedTrans(u: Vol, v: Vol, w: Vol, a: nat, b: nat, c: nat, size: nat)
    requires Lengthened(u, v, a, b, size) && Lengthened(v, w, b, c, size)
    ensures Lengthened(u, w, a, c, size)
  {
    TakesTrans(u, v, w, b - a, c - b);
  }

  lemma LengthenedOne(u: Vol, v: Vol, w: Vol, length: nat, size: nat)
    requires Lengthened(u, v, length, length, size) && Takes(v, w, 1) && 512 * length < size
    ensures Lengthened(u, w, length, length + 1, size)
  {
    TakesTrans(u, v, w, 0, 1);
  }

  lemma LengthenedSupply(v: Vol, w: Vol, before: nat, after: nat, size: nat)
    requires Lengthened(v, w, before, after, size)
    ensures More(before, size) <= |Free(v)| ==> More(after, size) <= |Free(w)|
  {
  }

  /** All the data is stored exactly when the chain and the free clusters suffice; otherwise both are used up. */
  lemma LengthenedEnd(v: Vol, w: Vol, before: nat, after: nat, size: nat, done: nat)
    requires Lengthened(v, w, before, after, size)
    requires if done >= size then size <= 512 * after else done == 512 * after && Full(w)
    ensures done >= size <==> More(before, size) <= |Free(v)|
    ensures Takes(v, w, Min(More(before, size), |Free(v)|))
    ensures done < size ==> done == 512 * (before + |Free(v)|)
  {
  }

  lemma ApartSelf(v: Vol, chains: Chains, h: nat)
    requires Linked(v, chains)
    ensures Apart(v, chains, v, chains, h)
  {
  }

  // ---- What a write needs ----

  /** Number of clusters of the file a name leads to. */
  ghost function Length(t: Dirs, chains: Chains, d: nat, wanted: seq<byte>): nat
    requires d in t
  {
    match Find(t[d], 0, wanted)
    case Nowhere => 0
    case Found(k, i) =>
      var h := Head(t[d][k], i);
      if h in chains then |chains[h]| else 0
  }

  /** How many clusters writing that much data to a name takes: a head for a file without one, then what its chain lacks. */
  ghost function Needed(t: Dirs, chains: Chains, d: nat, wanted: seq<byte>, size: nat): nat
    requires d in t
  {
    match Find(t[d], 0, wanted)
    case Nowhere => 0
    case Found(k, i) =>
      if IsDirectory(t[d][k], i) then 0
      else if Head(t[d][k], i) == 0 then 1 + More(1, size)
      else More(Length(t, chains, d, wanted), size)
  }

  /** In the worst case a write takes a head and then what a chain of one cluster lacks. */
  lemma NeededMost(t: Dirs, chains: Chains, d: nat, wanted: seq<byte>, size: nat)
    requires d in t
    ensures Needed(t, chains, d, wanted, size) <= 1 + More(1, size)
  {
  }

  /** A name leads to a file that has no cluster yet. */
  ghost predicate Headless(t: Dirs, d: nat, wanted: seq<byte>) {
    d in t && var p := Find(t[d], 0, wanted);
      p.Found? && !IsDirectory(t[d][p.link], p.slot) && Head(t[d][p.link], p.slot) == 0
  }

  /** The size stored in the slot a name leads to. */
  ghost function SlotSize(t: Dirs, d: nat, wanted: seq<byte>): nat
    requires d in t
  {
    match Find(t[d], 0, wanted)
    case Nowhere => 0
    case Found(k, i) => Size(t[d][k], i)
  }

  /** The slot a name leads to has a new size. */
  ghost predicate ResizedAt(t: Dirs, u: Dirs, d: nat, wanted: seq<byte>, size: nat) {
    d in t && var p := Find(t[d], 0, wanted); p.Found? && OneSlotResized(t, u, d, p.link, p.slot, size)
  }

  // ---- The outcome of a write ----

  /** All that a write of the data to a name has done when it returns r. */
  ghost predicate WriteResult(v: Vol, c: Chains, v': Vol, c': Chains, heads: set<nat>, root: nat,
                              d: nat, wanted: seq<byte>, data: seq<byte>, r: int) {
    && d in heads && OthersKept(v, c, heads, v', c', heads, root, d, wanted)
    && var t, u := DirsOf(v, c, heads), DirsOf(v', c', heads);
      var need, free := Needed(t, c, d, wanted, |data|), |Free(v)|;
      var room := 512 * (Length(t, c, d, wanted) + free);
      && PathsKept(t, u, d, wanted) && Takes(v, v', Min(need, free))
      && (r == 0 || r == -1) && (r == 0 <==> !NotAFile(t, d, wanted) && need <= free)
      && (r == 0 ==> File(v', c', heads, root, d, wanted) == Contents(data) && ResizedAt(t, u, d, wanted, |data|))
      && (r == -1 ==> u == t)
      && (r == -1 && !NotAFile(t, d, wanted) ==>
        File(v', c', heads, root, d, wanted) == Contents(data[..Min(Min(SlotSize(t, d, wanted), room), |data|)]))
  }

  lemma WriteConsistent(v: Vol, c: Chains, v': Vol, c': Chains, heads: set<nat>, root: nat, d: nat, wanted: seq<byte>, data: seq<byte>, r: int)
    requires WriteResult(v, c, v', c', heads, root, d, wanted, data, r)
    ensures Consistent(v', c', heads, root)
  {
    OthersKeptConsistent(v, c, heads, v', c', heads, root, d, wanted);
  }

  /** A name that leads to no file is left alone. */
  lemma WriteNothing(v: Vol, c: Chains, heads: set<nat>, root: nat, d: nat, wanted: seq<byte>, data: seq<byte>)
    requires Consistent(v, c, heads, root) && d in heads && NotAFile(DirsOf(v, c, heads), d, wanted)
    ensures WriteResult(v, c, v, c, heads, root, d, wanted, data, -1)
  {
    hide Linked, Tree, PathsKept, OthersKept, Free, FileBytes, Find;
    OthersKeptSelf(v, c, heads, root, d, wanted);
    PathsKeptSelf(DirsOf(v, c, heads), d, wanted);
    TakesNone(v, v);
  }

  /** A file without a cluster on a full disk is left alone. */
  lemma WriteNoHead(v: Vol, c: Chains, heads: set<nat>, root: nat, d: nat, wanted: seq<byte>, data: seq<byte>)
    requires Consistent(v, c, heads, root) && d in heads && Headless(DirsOf(v, c, heads), d, wanted) && Full(v)
    ensures WriteResult(v, c, v, c, heads, root, d, wanted, data, -1)
  {
    hide Disjoint, IsChain, NoSharing, Terminated, PathsKept, OthersKept, Find;
    OthersKeptSelf(v, c, heads, root, d, wanted);
    PathsKeptSelf(DirsOf(v, c, heads), d, wanted);
    TakesNone(v, v);
    var t := DirsOf(v, c, heads);
    var p := Find(t[d], 0, wanted);
    assert LiveSlot(t, d, p.link, p.slot);
    assert !On(c, 0, 0) by {
      if 0 in c {
        HeadRange(v, c, 0);
      }
    }
  }

  /** The chain a write stores to: the file's own, or one of a single fresh cluster. */
  ghost predicate Prepared(v: Vol, c: Chains, v1: Vol, c1: Chains, heads: set<nat>, root: nat,
                           d: nat, wanted: seq<byte>, k: nat, i: nat, h: nat, size: nat) {
    && Consistent(v, c, heads, root) && d in heads && LeadsTo(DirsOf(v, c, heads), d, wanted, k, i)
    && Linked(v1, c1) && Apart(v, c, v1, c1, h) && c.Keys <= c1.Keys && h in c1 && h != 0 && h !in heads
    && var t := DirsOf(v, c, heads);
      var s, first := t[d][k], if Head(t[d][k], i) == 0 then 1 else 0;
      && OnlyAt(t, h, d, k, i) && !IsDirectory(s, i) && (Head(s, i) == h || Head(s, i) == 0)
      && Takes(v, v1, first)
      && first + More(|c1[h]|, size) == Needed(t, c, d, wanted, size)
      && |c1[h]| == Length(t, c, d, wanted) + first
  }

  lemma PreparedOwn(v: Vol, c: Chains, heads: set<nat>, root: nat, d: nat, wanted: seq<byte>, k: nat, i: nat, size: nat)
    requires Consistent(v, c, heads, root) && d in heads && LeadsTo(DirsOf(v, c, heads), d, wanted, k, i)
    requires var s := DirsOf(v, c, heads)[d][k]; !IsDirectory(s, i) && Head(s, i) != 0
    ensures var h := Head(DirsOf(v, c, heads)[d][k], i);
      h >= 2 && h in c && Prepared(v, c, v, c, heads, root, d, wanted, k, i, h, size)
  {
    hide Disjoint, NoSharing, Terminated, OnlyAt, Find, More, Takes;
    var t := DirsOf(v, c, heads);
    var h := Head(t[d][k], i);
    LeadsToLive(t, d, wanted, k, i);
    assert SlotOk(t, c.Keys, root, t[d][k], i);
    HeadRange(v, c, h);
    ApartSelf(v, c, h);
    TakesNone(v, v);
    OnlyOwner(t, c.Keys, root, d, k, i, h);
  }

  lemma PreparedFresh(v: Vol, c: Chains, heads: set<nat>, root: nat, d: nat, wanted: seq<byte>, k: nat, i: nat, h: nat, size: nat)
    requires Consistent(v, c, heads, root) && d in heads && LeadsTo(DirsOf(v, c, heads), d, wanted, k, i)
    requires var s := DirsOf(v, c, heads)[d][k]; !IsDirectory(s, i) && Head(s, i) == 0
    requires FirstFree(v, h)
    ensures Prepared(v, c, Allocated(v, h), c[h := [h]], heads, root, d, wanted, k, i, h, size)
  {
    hide Disjoint, IsChain, NoSharing, Terminated, OnlyAt, Find, More, Takes;
    var t := DirsOf(v, c, heads);
    LeadsToLive(t, d, wanted, k, i);
    AllocateLinked(v, c, h);
    AllocateTakes(v, h);
    OnlyOwner(t, c.Keys, root, d, k, i, h);
    if 0 in c {
      HeadRange(v, c, 0);
    }
  }

  lemma PreparedSupply(v: Vol, c: Chains, v1: Vol, c1: Chains, heads: set<nat>, root: nat,
                       d: nat, wanted: seq<byte>, k: nat, i: nat, h: nat, size: nat)
    requires Prepared(v, c, v1, c1, heads, root, d, wanted, k, i, h, size)
    ensures h in c1 && Linked(v1, c1) && c.Keys <= c1.Keys
    ensures Needed(DirsOf(v, c, heads), c, d, wanted, size) <= |Free(v)| ==> More(|c1[h]|, size) <= |Free(v1)|
  {
  }

  /** What the loop has done to the volume it started from, with `done` bytes stored. */
  ghost predicate Filled(v: Vol, c: Chains, v': Vol, c': Chains, h: nat, data: seq<byte>, done: nat) {
    && Linked(v, c) && Linked(v', c') && h in c && h in c' && c'.Keys == c.Keys && Apart(v, c, v', c', h)
    && Stored(Sectors(v'.data, c'[h]), data, done) && Lengthened(v, v', |c[h]|, |c'[h]|, |data|)
  }

  /** Lengthening a chain by the first free cluster. */
  lemma Extend(v: Vol, c: Chains, h: nat, next: nat)
    requires Linked(v, c) && h in c && FirstFree(v, next)
    ensures next !in c && |c[h]| > 0 && 2 <= c[h][|c[h]| - 1] < |v.fat| && 2 <= next < |v.fat|
    ensures var w := Linking(Allocated(v, next), c[h][|c[h]| - 1], next);
      var l := Joined(c[next := [next]], h, next);
      && Linked(w, l) && Apart(v, c, w, l, h) && l.Keys == c.Keys && l[h] == c[h] + [next] && Takes(v, w, 1)
      && Sectors(w.data, l[h]) == Sectors(v.data, c[h]) + [Zeros()]
  {
    hide Disjoint, Takes, Apart, Free, Allocated, Linking;
    NextOnChain(v.fat, c[h], |c[h]| - 1);
    ExtendApart(v, c, h, next);
    ExtendTakes(v, c[h][|c[h]| - 1], next);
  }

  lemma ExtendTakes(v: Vol, last: nat, next: nat)
    requires |v.fat| == |v.data| && FirstFree(v, next) && last < |v.fat| && v.fat[last] != FREE
    ensures Takes(v, Linking(Allocated(v, next), last, next), 1)
  {
    hide Takes, Free;
    var w := Allocated(v, next);
    AllocateTakes(v, next);
    LinkTakes(w, last, next);
    TakesNone(w, Linking(w, last, next));
    TakesTrans(v, w, Linking(w, last, next), 1, 0);
  }

  lemma FilledStart(v: Vol, c: Chains, h: nat, data: seq<byte>)
    requires Linked(v, c) && h in c
    ensures Filled(v, c, v, c, h, data, 0)
  {
    ApartSelf(v, c, h);
    LengthenedSame(v, v, |c[h]|, |data|);
  }

  /** A further block stored. */
  lemma FilledBlock(v: Vol, c: Chains, w: Vol, l: Chains, x: Vol, h: nat, data: seq<byte>, k: nat)
    requires Filled(v, c, w, l, h, data, 512 * k) && k < |l[h]|
    requires Linked(x, l) && x.fat == w.fat && Apart(w, l, x, l, h)
    requires Sectors(x.data, l[h]) == Sectors(w.data, l[h])[k := Block(data, 512 * k)]
    ensures Filled(v, c, x, l, h, data, 512 * (k + 1))
  {
    hide Disjoint, Apart, Stored, Lengthened, Block;
    ApartTrans(v, c, w, l, x, l, h);
    StoreBlock(Sectors(w.data, l[h]), data, k);
    LengthenedSame(w, x, |l[h]|, |data|);
    LengthenedTrans(v, w, x, |c[h]|, |l[h]|, |l[h]|, |data|);
  }

  /** A further cluster on the chain. */
  lemma FilledLonger(v: Vol, c: Chains, w: Vol, l: Chains, x: Vol, l': Chains, h: nat, data: seq<byte>, done: nat, next: nat)
    requires Filled(v, c, w, l, h, data, done) && 512 * |l[h]| < |data|
    requires Linked(x, l') && Apart(w, l, x, l', h) && l'.Keys == l.Keys && l'[h] == l[h] + [next] && Takes(w, x, 1)
    requires Sectors(x.data, l'[h]) == Sectors(w.data, l[h]) + [Zeros()]
    ensures Filled(v, c, x, l', h, data, done)
  {
    hide Disjoint, Apart, Stored, Lengthened, Takes;
    ApartTrans(v, c, w, l, x, l', h);
    StoredLonger(Sectors(w.data, l[h]), data, done);
    LengthenedSame(w, w, |l[h]|, |data|);
    LengthenedOne(w, w, x, |l[h]|, |data|);
    LengthenedTrans(v, w, x, |c[h]|, |l[h]|, |l'[h]|, |data|);
  }

  lemma FilledSupply(v: Vol, c: Chains, w: Vol, l: Chains, h: nat, data: seq<byte>, done: nat)
    requires Filled(v, c, w, l, h, data, done)
    ensures h in c && h in l && Linked(w, l)
    ensures More(|c[h]|, |data|) <= |Free(v)| ==> More(|l[h]|, |data|) <= |Free(w)|
  {
    LengthenedSupply(v, w, |c[h]|, |l[h]|, |data|);
  }

  lemma FilledEnd(v: Vol, c: Chains, w: Vol, l: Chains, h: nat, data: seq<byte>, done: nat)
    requires Filled(v, c, w, l, h, data, done)
    requires done >= |data| || (done == 512 * |l[h]| && Full(w))
    ensures done >= |data| <==> More(|c[h]|, |data|) <= |Free(v)|
  {
    hide Disjoint, Apart, Takes, Stored, Lengthened, More, Full;
    if done >= |data| {
      StoredFits(Sectors(w.data, l[h]), data, done);
    }
    LengthenedEnd(v, w, |c[h]|, |l[h]|, |data|, done);
  }

  lemma FilledKeeps(v: Vol, c: Chains, v1: Vol, c1: Chains, v2: Vol, c2: Chains, heads: set<nat>, root: nat,
                    d: nat, wanted: seq<byte>, k: nat, i: nat, h: nat, data: seq<byte>, done: nat)
    requires Prepared(v, c, v1, c1, heads, root, d, wanted, k, i, h, |data|) && Filled(v1, c1, v2, c2, h, data, done)
    ensures Apart(v, c, v2, c2, h) && c.Keys <= c2.Keys
    ensures OthersKept(v, c, heads, v2, c2, heads, root, d, wanted)
    ensures Consistent(v2, c2, heads, root) && DirsOf(v2, c2, heads) == DirsOf(v, c, heads)
  {
    hide Disjoint, IsChain, Tree, Apart, OthersKept, OnlyAt, Stored, Lengthened, More, Find, Takes;
    ApartTrans(v, c, v1, c1, v2, c2, h);
    StoreKeepsFiles(v, c, v2, c2, heads, root, h, d, k, i, wanted);
    OthersKeptConsistent(v, c, heads, v2, c2, heads, root, d, wanted);
  }

  /** How many clusters the write has taken, and whether they sufficed. */
  lemma FilledTakes(v: Vol, c: Chains, v1: Vol, c1: Chains, v2: Vol, c2: Chains, heads: set<nat>, root: nat,
                    d: nat, wanted: seq<byte>, k: nat, i: nat, h: nat, data: seq<byte>, done: nat)
    requires Prepared(v, c, v1, c1, heads, root, d, wanted, k, i, h, |data|) && Filled(v1, c1, v2, c2, h, data, done)
    requires done >= |data| || (done == 512 * |c2[h]| && Full(v2))
    ensures var t := DirsOf(v, c, heads);
      var need, free := Needed(t, c, d, wanted, |data|), |Free(v)|;
      && Takes(v, v2, Min(need, free)) && (done >= |data| <==> need <= free)
      && (done < |data| ==> done == 512 * (Length(t, c, d, wanted) + free))
  {
    hide Disjoint, Tree, Apart, OnlyAt, Stored, Lengthened, More, Find, Free, LeadsTo, Needed, Length;
    if done >= |data| {
      StoredFits(Sectors(v2.data, c2[h]), data, done);
    }
    LengthenedEnd(v1, v2, |c1[h]|, |c2[h]|, |data|, done);
  }

  /** The disk was full before all the data was stored. */
  lemma WriteShort(v: Vol, c: Chains, v1: Vol, c1: Chains, v2: Vol, c2: Chains, heads: set<nat>, root: nat,
                   d: nat, wanted: seq<byte>, k: nat, i: nat, h: nat, data: seq<byte>, done: nat)
    requires Prepared(v, c, v1, c1, heads, root, d, wanted, k, i, h, |data|) && Filled(v1, c1, v2, c2, h, data, done)
    requires done == 512 * |c2[h]| < |data| && Full(v2)
    ensures WriteResult(v, c, v2, c2, heads, root, d, wanted, data, -1)
  {
    hide Disjoint, IsChain, Tree, Apart, OthersKept, PathsKept, OnlyAt, Stored, Lengthened, More, Takes, Free, Needed, Length, Full;
    FilledKeeps(v, c, v1, c1, v2, c2, heads, root, d, wanted, k, i, h, data, done);
    FilledTakes(v, c, v1, c1, v2, c2, heads, root, d, wanted, k, i, h, data, done);
    var t := DirsOf(v, c, heads);
    PathsKeptSelf(t, d, wanted);
    ShortFile(v2, c2, heads, root, d, wanted, k, i, h, data, done);
  }

  /** What the file reads as then. */
  lemma ShortFile(v: Vol, c: Chains, heads: set<nat>, root: nat, d: nat, wanted: seq<byte>, k: nat, i: nat, h: nat, data: seq<byte>, done: nat)
    requires Consistent(v, c, heads, root) && d in heads && h in c && LeadsTo(DirsOf(v, c, heads), d, wanted, k, i)
    requires Stored(Sectors(v.data, c[h]), data, done) && done == 512 * |c[h]| < |data|
    requires var s := DirsOf(v, c, heads)[d][k]; !IsDirectory(s, i) && (Head(s, i) == h || Head(s, i) == 0)
    ensures File(v, c, heads, root, d, wanted)
      == Contents(data[..Min(Min(SlotSize(DirsOf(v, c, heads), d, wanted), done), |data|)])
  {
    hide Disjoint, NoSharing, Terminated, Stored, ChainBytes, Find;
    var t := DirsOf(v, c, heads);
    assert LiveSlot(t, d, k, i);
    assert SlotOk(t, c.Keys, root, t[d][k], i);
    StoredBytes(Sectors(v.data, c[h]), data, done, Size(t[d][k], i));
  }

  /** All the data is stored: the slot can be patched. */
  lemma WriteReady(v: Vol, c: Chains, v1: Vol, c1: Chains, v2: Vol, c2: Chains, heads: set<nat>, root: nat,
                   d: nat, wanted: seq<byte>, k: nat, i: nat, h: nat, s0: Sector, data: seq<byte>, done: nat)
    requires Prepared(v, c, v1, c1, heads, root, d, wanted, k, i, h, |data|) && Filled(v1, c1, v2, c2, h, data, done)
    requires done >= |data| && s0 == DirsOf(v, c, heads)[d][k]
    ensures DataStored(v2, c2, heads, root, d, wanted, k, i, s0, h, data)
    ensures On(c, d, k) && c2[d] == c[d] && 2 <= c[d][k] < |v2.data|
  {
    hide Disjoint, Tree, Apart, OthersKept, OnlyAt, Stored, Lengthened, More, Takes, Needed, Length, Find, ChainBytes, DataStored;
    FilledKeeps(v, c, v1, c1, v2, c2, heads, root, d, wanted, k, i, h, data, done);
    StoredFits(Sectors(v2.data, c2[h]), data, done);
    StoredBytes(Sectors(v2.data, c2[h]), data, done, |data|);
    ReadyToPatch(v, c, v2, c2, heads, root, d, wanted, k, i, s0, h, data);
  }

  /** All the data is stored and the slot patched. */
  lemma WriteWhole(v: Vol, c: Chains, v1: Vol, c1: Chains, v2: Vol, c2: Chains, v3: Vol, c3: Chains, heads: set<nat>, root: nat,
                   d: nat, wanted: seq<byte>, k: nat, i: nat, h: nat, data: seq<byte>, done: nat)
    requires Prepared(v, c, v1, c1, heads, root, d, wanted, k, i, h, |data|) && Filled(v1, c1, v2, c2, h, data, done)
    requires done >= |data| && Written(v2, c2, v3, c3, heads, root, d, wanted, k, i, data) && v3.fat == v2.fat
    ensures WriteResult(v, c, v3, c3, heads, root, d, wanted, data, 0)
  {
    hide Disjoint, IsChain, Tree, Apart, OthersKept, PathsKept, OnlyAt, Stored, Lengthened, More, Takes, Needed, Length, FileBytes, Written, OneSlotResized;
    FilledKeeps(v, c, v1, c1, v2, c2, heads, root, d, wanted, k, i, h, data, done);
    FilledTakes(v, c, v1, c1, v2, c2, heads, root, d, wanted, k, i, h, data, done);
    StoreThenPatch(v, c, v2, c2, v3, c3, heads, root, d, wanted, k, i, data);
    ResizePaths(DirsOf(v, c, heads), DirsOf(v3, c3, heads), d, k, i, |data|, wanted);
    TakesNone(v2, v3);
    TakesTrans(v, v2, v3, Min(Needed(DirsOf(v, c, heads), c, d, wanted, |data|), |Free(v)|), 0);
  }

  // ---- The outcome of a creation ----

  /** A slot that `new_entry` does not reuse. */
  ghost predicate Occupied(s: Sector, i: nat) {
    i < SLOTS && s[32 * i] != 0 && s[32 * i] != 0xE5
  }

  /** Every slot of the directory's first sector is taken. */
  ghost predicate FirstSectorFull(t: Dirs, d: nat) {
    d in t && |t[d]| > 0 && forall j :: 0 <= j < SLOTS ==> Occupied(t[d][0], j)
  }

  /** A creation gets as far as asking for a cluster. */
  ghost predicate TakesHead(t: Dirs, d: nat, wanted: seq<byte>) {
    Unused(t, d, wanted) && !FirstSectorFull(t, d)
  }

  /** What every creation that returns r has done: a new file or directory exactly when it returns 0. */
  ghost predicate CreateResult(v: Vol, c: Chains, heads: set<nat>, v': Vol, c': Chains, heads': set<nat>, root: nat,
                               d: nat, wanted: seq<byte>, r: int) {
    && d in heads && OthersKept(v, c, heads, v', c', heads', root, d, wanted)
    && var t, u := DirsOf(v, c, heads), DirsOf(v', c', heads');
      && PathsKept(t, u, d, wanted) && (r == 0 || r == -1)
      && (r == 0 <==> TakesHead(t, d, wanted) && !Full(v))
      && (r == -1 ==> v' == v && c' == c && heads' == heads)
      && (r == 0 ==> Takes(v, v', 1))
  }

  lemma CreateNothing(v: Vol, c: Chains, heads: set<nat>, root: nat, d: nat, wanted: seq<byte>)
    requires Consistent(v, c, heads, root) && d in heads
    requires !TakesHead(DirsOf(v, c, heads), d, wanted) || Full(v)
    ensures CreateResult(v, c, heads, v, c, heads, root, d, wanted, -1)
  {
    hide Linked, Tree, PathsKept, OthersKept, TakesHead, Full;
    OthersKeptSelf(v, c, heads, root, d, wanted);
    PathsKeptSelf(DirsOf(v, c, heads), d, wanted);
  }

  /** A name leads to an entry with these attributes and this size. */
  ghost predicate HasEntry(t: Dirs, d: nat, wanted: seq<byte>, attributes: byte, size: nat) {
    d in t && var p := Find(t[d], 0, wanted);
      p.Found? && Attributes(t[d][p.link], p.slot) == attributes && Size(t[d][p.link], p.slot) == size
  }

  lemma EntryThere(t: Dirs, d: nat, i: nat, s': Sector, wanted: seq<byte>, attributes: byte, h: nat, size: nat, directory: bool)
    requires FreshEntry(t, d, i, s', wanted, attributes, h, size) && Live(s', i) && Find(t[d], 0, wanted) == Nowhere && h !in t
    ensures HasEntry(WithEntry(t, d, 0, s', h, directory), d, wanted, attributes, size)
  {
    hide Find;
    FindNew(t[d], i, s', wanted, attributes, h, size);
    assert WithEntry(t, d, 0, s', h, directory)[d] == t[d][0 := s'];
  }

  /** The volume after a creation, its chains and the heads of its directories. */
  lemma CreateDone(v: Vol, c: Chains, heads: set<nat>, root: nat, d: nat, wanted: seq<byte>, i: nat, s': Sector,
                   attributes: byte, h: nat, size: nat)
    requires Consistent(v, c, heads, root) && d in heads && FirstFree(v, h)
    requires FreshEntry(DirsOf(v, c, heads), d, i, s', wanted, attributes, h, size)
    requires attributes == 0x10 || attributes == 0x20
    requires TakesHead(DirsOf(v, c, heads), d, wanted) && wanted[0] != DOT
    ensures d < |v.data| && h !in c
    ensures var w, l, more := Created(v, d, h, s'), c[h := [h]], NewHeads(heads, h, attributes == 0x10);
      && Consistent(w, l, more, root) && CreateResult(v, c, heads, w, l, more, root, d, wanted, 0)
      && (attributes == 0x10 ==> DirsOf(w, l, more)[h] == [Zeros()])
      && (wanted[0] != 0xE5 ==> HasEntry(DirsOf(w, l, more), d, wanted, attributes, size))
      && (attributes == 0x10 && size == 0 && wanted[0] != 0xE5 ==> EntersDirectory(DirsOf(w, l, more), d, wanted, h))
      && (attributes == 0x20 && wanted[0] != 0xE5 ==> File(w, l, more, root, d, wanted) == Contents(seq(Min(size, 512), _ => 0)))
      && (attributes == 0x20 && wanted[0] == 0xE5 ==> File(w, l, more, root, d, wanted) == Missing)
  {
    hide Linked, Tree, PathsKept, OthersKept, FreshEntry, FirstSectorFull, EntersDirectory, FileBytes, Takes, Full, Find, HasEntry;
    FirstFreeLow(v, h);
    CreateEffect(v, c, heads, root, d, i, s', wanted, attributes, h, size);
    CreateTakes(v, c, d, h, s');
    CreatedEntry(v, c, heads, root, d, wanted, i, s', attributes, h, size);
  }

  lemma CreatedEntry(v: Vol, c: Chains, heads: set<nat>, root: nat, d: nat, wanted: seq<byte>, i: nat, s': Sector,
                     attributes: byte, h: nat, size: nat)
    requires Consistent(v, c, heads, root) && d in heads && FirstFree(v, h)
    requires FreshEntry(DirsOf(v, c, heads), d, i, s', wanted, attributes, h, size)
    requires attributes == 0x10 || attributes == 0x20
    requires Unused(DirsOf(v, c, heads), d, wanted) && wanted[0] != DOT
    ensures d < |v.data| && h !in c
    ensures var w, l, more := Created(v, d, h, s'), c[h := [h]], NewHeads(heads, h, attributes == 0x10);
      Linked(w, l) && more <= l.Keys && (wanted[0] != 0xE5 ==> HasEntry(DirsOf(w, l, more), d, wanted, attributes, size))
  {
    hide Disjoint, NoSharing, Terminated, IsChain, Find, HasEntry, Created;
    var t := DirsOf(v, c, heads);
    AttributeKinds(s', i);
    FreshLive(t, d, i, s', wanted, attributes, h, size);
    CreateKeeps(v, c, heads, root, d, i, s', wanted, attributes, h, size);
    if Live(s', i) {
      EntryThere(t, d, i, s', wanted, attributes, h, size, attributes == 0x10);
    }
  }

  lemma CreateTakes(v: Vol, c: Chains, d: nat, h: nat, s': Sector)
    requires Linked(v, c) && d < |v.data| && FirstFree(v, h)
    ensures Takes(v, Created(v, d, h, s'), 1)
  {
    hide Disjoint, IsChain;
    AllocateTakes(v, h);
    TakesNone(Allocated(v, h), Created(v, d, h, s'));
    TakesTrans(v, Allocated(v, h), Created(v, d, h, s'), 1, 0);
  }

  /**
   A cluster number that loses its high bits: when the first free cluster is 65536 above the root directory's, the
   entry `create_file` makes in the root directory refers to the root directory, and no chains make the volume
   consistent again.
   */
  lemma TruncatedHead(v: Vol, c: Chains, heads: set<nat>, root: nat, i: nat, s': Sector, name: seq<byte>, attributes: byte,
                      h: nat, size: nat, c': Chains, heads': set<nat>)
    requires Consistent(v, c, heads, root) && root in heads && FirstFree(v, h) && h % 0x1_0000 == root
    requires FreshEntry(DirsOf(v, c, heads), root, i, s', name, attributes, h % 0x1_0000, size) && Live(s', i)
    ensures h != root && root < |v.data|
    ensures !Consistent(Created(v, root, h, s'), c', heads', root)
  {
    HeadRange(v, c, root);
    FreeIsUnlinked(v, c, h, root, 0);
    if Consistent(Created(v, root, h, s'), c', heads', root) {
      RootSlot(Created(v, root, h, s'), c', heads', root, i);
    }
  }

  /** No entry of the root directory refers to the root directory. */
  lemma RootSlot(v: Vol, c: Chains, heads: set<nat>, root: nat, i: nat)
    requires Consistent(v, c, heads, root) && root < |v.data| && i < SLOTS
    ensures Live(v.data[root], i) ==> Head(v.data[root], i) != root
  {
    hide Disjoint, NoSharing, Terminated;
    HeadRange(v, c, root);
    var t := DirsOf(v, c, heads);
    if Live(v.data[root], i) {
      assert LiveSlot(t, root, 0, i);
    }
  }
}
