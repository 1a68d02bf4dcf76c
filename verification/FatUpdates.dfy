/** Steps of `write_file`, `create_file` and `create_dir` on the whole volume: chains, directories and file contents. */
module FatUpdates {
  import opened Bytes
  import opened FatVolume
  import opened FatFrames
  import opened FatSlots
  import opened ModArith

  /** The volume, its chains and its directories are consistent. */
  ghost predicate Consistent(v: Vol, chains: Chains, heads: set<nat>, root: nat) {
    Linked(v, chains) && heads <= chains.Keys && Tree(DirsOf(v, chains, heads), chains.Keys, root)
  }

  ghost function File(v: Vol, chains: Chains, heads: set<nat>, root: nat, d: nat, wanted: seq<byte>): Contents
    requires Consistent(v, chains, heads, root) && d in heads
  {
    FileBytes(v, chains, DirsOf(v, chains, heads), root, d, wanted)
  }

  /** Every name but the given one in directory d has the same contents, in every directory there was. */
  ghost predicate OthersKept(v: Vol, chains: Chains, heads: set<nat>, v': Vol, chains': Chains, heads': set<nat>, root: nat,
                             d: nat, name: seq<byte>) {
    && Consistent(v, chains, heads, root) && Consistent(v', chains', heads', root) && heads <= heads'
    && forall d', wanted ::
      d' in heads && (d' != d || wanted != name)
      ==> File(v', chains', heads', root, d', wanted) == File(v, chains, heads, root, d', wanted)
  }

  lemma OthersKeptConsistent(v: Vol, chains: Chains, heads: set<nat>, v': Vol, chains': Chains, heads': set<nat>, root: nat,
                             d: nat, name: seq<byte>)
    requires OthersKept(v, chains, heads, v', chains', heads', root, d, name)
    ensures Consistent(v', chains', heads', root)
  {
  }

  /** Storing into the chain of something that is no directory keeps everything else. */
  lemma StoreKeeps(v: Vol, chains: Chains, v': Vol, chains': Chains, heads: set<nat>, root: nat, h: nat)
    requires Consistent(v, chains, heads, root) && h !in heads
    requires Linked(v', chains') && Apart(v, chains, v', chains', h) && chains.Keys <= chains'.Keys
    ensures Consistent(v', chains', heads, root) && DirsOf(v', chains', heads) == DirsOf(v, chains, heads)
  {
    ApartDirs(v, chains, v', chains', heads, h);
    MoreHeads(DirsOf(v, chains, heads), chains.Keys, chains'.Keys, root);
  }

  /** A name leads to slot (k, i) of directory d. */
  ghost predicate LeadsTo(t: Dirs, d: nat, wanted: seq<byte>, k: nat, i: nat) {
    d in t && Find(t[d], 0, wanted) == Found(k, i)
  }

  lemma LeadsToLive(t: Dirs, d: nat, wanted: seq<byte>, k: nat, i: nat)
    requires LeadsTo(t, d, wanted, k, i)
    ensures LiveSlot(t, d, k, i) && Name(t[d][k], i) == wanted
  {
  }

  lemma StoreKeepsFile(v: Vol, chains: Chains, v': Vol, chains': Chains, heads: set<nat>, root: nat, h: nat,
                       d: nat, k: nat, i: nat, d': nat, wanted: seq<byte>)
    requires Consistent(v, chains, heads, root) && h !in heads && h != 0 && d' in heads
    requires Linked(v', chains') && Apart(v, chains, v', chains', h) && chains.Keys <= chains'.Keys
    requires OnlyAt(DirsOf(v, chains, heads), h, d, k, i)
    requires d' != d || !LeadsTo(DirsOf(v, chains, heads), d, wanted, k, i)
    ensures Consistent(v', chains', heads, root)
    ensures File(v', chains', heads, root, d', wanted) == File(v, chains, heads, root, d', wanted)
  {
    StoreKeeps(v, chains, v', chains', heads, root, h);
    var t := DirsOf(v, chains, heads);
    var p := Find(t[d'], 0, wanted);
    if p.Found? {
      LeadsToLive(t, d', wanted, p.link, p.slot);
      assert Head(t[d'][p.link], p.slot) != h;
    }
    hide Linked, Tree, DirsOf;
    ApartFiles(v, chains, v', chains', t, root, h, d', wanted);
  }

  /** Storing into the chain of one file keeps all others. */
  lemma StoreKeepsFiles(v: Vol, chains: Chains, v': Vol, chains': Chains, heads: set<nat>, root: nat, h: nat,
                        d: nat, k: nat, i: nat, name: seq<byte>)
    requires Consistent(v, chains, heads, root) && h !in heads && h != 0
    requires Linked(v', chains') && Apart(v, chains, v', chains', h) && chains.Keys <= chains'.Keys
    requires OnlyAt(DirsOf(v, chains, heads), h, d, k, i) && LeadsTo(DirsOf(v, chains, heads), d, name, k, i)
    ensures OthersKept(v, chains, heads, v', chains', heads, root, d, name)
    ensures DirsOf(v', chains', heads) == DirsOf(v, chains, heads)
  {
    hide Disjoint, NoSharing, Terminated, IsChain, Find, FileBytes, OnlyAt, Apart;
    StoreKeeps(v, chains, v', chains', heads, root, h);
    LeadsToLive(DirsOf(v, chains, heads), d, name, k, i);
    forall d', wanted | d' in heads && (d' != d || wanted != name)
      ensures File(v', chains', heads, root, d', wanted) == File(v, chains, heads, root, d', wanted)
    {
      if LeadsTo(DirsOf(v, chains, heads), d, wanted, k, i) {
        LeadsToLive(DirsOf(v, chains, heads), d, wanted, k, i);
      }
      StoreKeepsFile(v, chains, v', chains', heads, root, h, d, k, i, d', wanted);
    }
  }

  /** A chain that the slot itself refers to, or that nothing refers to yet, is referred to nowhere else. */
  lemma OnlyOwner(t: Dirs, heads: set<nat>, root: nat, d: nat, k: nat, i: nat, h: nat)
    requires Tree(t, heads, root) && LiveSlot(t, d, k, i) && h != 0
    requires Head(t[d][k], i) == h || h !in heads
    ensures OnlyAt(t, h, d, k, i)
  {
    forall d': nat, k', i' | LiveSlot(t, d', k', i') && Head(t[d'][k'], i') == h
      ensures d' == d && k' == k && i' == i
    {
      assert SlotOk(t, heads, root, t[d'][k'], i');
      NoSharingAt(t, d, k, i, d', k', i');
    }
  }

  /** Overwriting a sector of a directory replaces that sector and no other. */
  lemma DirectoryWrite(v: Vol, chains: Chains, heads: set<nat>, d: nat, k: nat, s': Sector)
    requires Linked(v, chains) && heads <= chains.Keys && d in heads && On(chains, d, k)
    ensures chains[d][k] < |v.data|
    ensures var w := v.(data := v.data[chains[d][k] := s']);
      Linked(w, chains) && Apart(v, chains, w, chains, d) && DirsOf(w, chains, heads) == Replaced(DirsOf(v, chains, heads), d, k, s')
  {
    hide Disjoint, IsChain;
    WriteApart(v, chains, d, k, s');
    var w := v.(data := v.data[chains[d][k] := s']);
    var a, b := DirsOf(w, chains, heads), Replaced(DirsOf(v, chains, heads), d, k, s');
    forall d' | d' in heads
      ensures a[d'] == b[d']
    {
      if d' != d {
        SameSectors(v, chains, w, chains, d, d');
      }
    }
  }

  // ---- The last step of write_file: the patched directory sector goes back ----

  lemma ResizeKeeps(v: Vol, chains: Chains, heads: set<nat>, root: nat, d: nat, k: nat, i: nat, s': Sector, h: nat, size: nat)
    requires Consistent(v, chains, heads, root)
    requires var t := DirsOf(v, chains, heads);
      && LiveSlot(t, d, k, i) && !IsDirectory(t[d][k], i) && Resized(t[d][k], s', i, h, size)
      && OnlyAt(t, h, d, k, i)
    requires h != 0 && h in chains && h !in heads
    ensures On(chains, d, k) && chains[d][k] < |v.data|
    ensures var w := v.(data := v.data[chains[d][k] := s']);
      Consistent(w, chains, heads, root) && DirsOf(w, chains, heads) == Replaced(DirsOf(v, chains, heads), d, k, s')
  {
    assert On(chains, d, k);
    DirectoryWrite(v, chains, heads, d, k, s');
    ResizeTree(DirsOf(v, chains, heads), chains.Keys, root, d, k, i, s', h, size);
  }

  /** Contents after the patch: the patched file has the new size on its chain, every other file is as before. */
  lemma ResizeFile(v: Vol, chains: Chains, heads: set<nat>, root: nat, d: nat, k: nat, i: nat, s': Sector, h: nat, size: nat,
                   w: Vol, d': nat, wanted: seq<byte>)
    requires Consistent(v, chains, heads, root) && Consistent(w, chains, heads, root) && d' in heads && d in heads
    requires var t := DirsOf(v, chains, heads);
      && LiveSlot(t, d, k, i) && !IsDirectory(t[d][k], i) && Resized(t[d][k], s', i, h, size)
      && DirsOf(w, chains, heads) == Replaced(t, d, k, s')
    requires h != 0 && h in chains && h !in heads && Apart(v, chains, w, chains, d)
    ensures d' == d && LeadsTo(DirsOf(v, chains, heads), d, wanted, k, i) ==>
      File(w, chains, heads, root, d', wanted) == Contents(ChainBytes(Sectors(v.data, chains[h]), size))
    ensures d' != d || !LeadsTo(DirsOf(v, chains, heads), d, wanted, k, i) ==>
      File(w, chains, heads, root, d', wanted) == File(v, chains, heads, root, d', wanted)
  {
    hide Disjoint, NoSharing, Terminated, IsChain, Find;
    var t, u := DirsOf(v, chains, heads), DirsOf(w, chains, heads);
    if d' == d {
      FindResized(t[d], k, s', i, h, size, 0, wanted);
    }
    var p := Find(t[d'], 0, wanted);
    SameSectors(v, chains, w, chains, d, h);
    ResizedLive(t[d][k], s', i, h, size);
    if p.Found? {
      LeadsToLive(t, d', wanted, p.link, p.slot);
      var g := Head(t[d'][p.link], p.slot);
      if (d', p.link, p.slot) != (d, k, i) {
        OtherSlots(t, d, k, i, s', d', p.link, p.slot);
        if !IsDirectory(t[d'][p.link], p.slot) && g != 0 {
          assert SlotOk(t, chains.Keys, root, t[d'][p.link], p.slot);
          SameSectors(v, chains, w, chains, d, g);
        }
        FileSame(v, chains, t, w, chains, u, root, d', wanted, p.link, p.slot);
      }
    }
  }

  /** The data lies on chain h, which the slot a name leads to may refer to; the slot itself is still to be patched. */
  ghost predicate DataStored(v: Vol, chains: Chains, heads: set<nat>, root: nat, d: nat, name: seq<byte>, k: nat, i: nat,
                             s0: Sector, h: nat, data: seq<byte>) {
    && Consistent(v, chains, heads, root)
    && LeadsTo(DirsOf(v, chains, heads), d, name, k, i) && On(chains, d, k) && 2 <= chains[d][k] < |v.data|
    && s0 == DirsOf(v, chains, heads)[d][k] && !IsDirectory(s0, i)
    && h in chains && h != 0 && h !in heads && OnlyAt(DirsOf(v, chains, heads), h, d, k, i)
    && ChainBytes(Sectors(v.data, chains[h]), |data|) == data
  }

  /** Slot (k, i) of directory d has a new size, and possibly its first cluster; all else is as before. */
  ghost predicate OneSlotResized(t: Dirs, u: Dirs, d: nat, k: nat, i: nat, size: nat) {
    exists s': Sector, h: nat :: d in t && k < |t[d]| && Resized(t[d][k], s', i, h, size) && u == Replaced(t, d, k, s')
  }

  /** The effect of a successful write: the file holds the data, every other file and directory slot is as before. */
  ghost predicate Written(v: Vol, chains: Chains, v': Vol, chains': Chains, heads: set<nat>, root: nat,
                          d: nat, name: seq<byte>, k: nat, i: nat, data: seq<byte>) {
    && OthersKept(v, chains, heads, v', chains', heads, root, d, name) && d in heads
    && File(v', chains', heads, root, d, name) == Contents(data)
    && OneSlotResized(DirsOf(v, chains, heads), DirsOf(v', chains', heads), d, k, i, |data|)
  }

  /** The same for all directories and names at once, for the name that leads to the slot. */
  lemma ResizeFiles(v: Vol, chains: Chains, heads: set<nat>, root: nat, d: nat, name: seq<byte>, k: nat, i: nat,
                    s0: Sector, s': Sector, h: nat, data: seq<byte>)
    requires DataStored(v, chains, heads, root, d, name, k, i, s0, h, data) && Resized(s0, s', i, h, |data|)
    ensures Written(v, chains, v.(data := v.data[chains[d][k] := s']), chains, heads, root, d, name, k, i, data)
  {
    hide Disjoint, NoSharing, Terminated, IsChain, Find, FileBytes, Resized, OnlyAt, ChainBytes;
    var size, t := |data|, DirsOf(v, chains, heads);
    LeadsToLive(t, d, name, k, i);
    ResizeKeeps(v, chains, heads, root, d, k, i, s', h, size);
    DirectoryWrite(v, chains, heads, d, k, s');
    var w := v.(data := v.data[chains[d][k] := s']);
    ResizeFile(v, chains, heads, root, d, k, i, s', h, size, w, d, name);
    forall d', wanted | d' in heads && (d' != d || wanted != name)
      ensures File(w, chains, heads, root, d', wanted) == File(v, chains, heads, root, d', wanted)
    {
      if LeadsTo(t, d, wanted, k, i) {
        LeadsToLive(t, d, wanted, k, i);
      }
      ResizeFile(v, chains, heads, root, d, k, i, s', h, size, w, d', wanted);
    }
    assert Resized(t[d][k], s', i, h, size) && DirsOf(w, chains, heads) == Replaced(t, d, k, s');
  }

  /** Once the data is stored, the slot can be patched: what the last step of a write starts from. */
  lemma ReadyToPatch(v: Vol, c: Chains, v1: Vol, c1: Chains, heads: set<nat>, root: nat,
                     d: nat, name: seq<byte>, k: nat, i: nat, s0: Sector, h: nat, data: seq<byte>)
    requires Consistent(v, c, heads, root) && h != 0 && h in c1 && h !in heads && c.Keys <= c1.Keys
    requires Linked(v1, c1) && Apart(v, c, v1, c1, h)
    requires LeadsTo(DirsOf(v, c, heads), d, name, k, i) && s0 == DirsOf(v, c, heads)[d][k] && !IsDirectory(s0, i)
    requires OnlyAt(DirsOf(v, c, heads), h, d, k, i) && ChainBytes(Sectors(v1.data, c1[h]), |data|) == data
    ensures DataStored(v1, c1, heads, root, d, name, k, i, s0, h, data)
    ensures On(c, d, k) && c1[d] == c[d] && 2 <= c[d][k] < |v1.data|
  {
    hide Disjoint, NoSharing, Terminated, ChainBytes, OnlyAt, Find;
    StoreKeeps(v, c, v1, c1, heads, root, h);
    assert On(c, d, k);
  }

  /** Storing the data and then patching the slot is a write. */
  lemma StoreThenPatch(v: Vol, c: Chains, v1: Vol, c1: Chains, v2: Vol, c2: Chains, heads: set<nat>, root: nat,
                       d: nat, name: seq<byte>, k: nat, i: nat, data: seq<byte>)
    requires OthersKept(v, c, heads, v1, c1, heads, root, d, name) && DirsOf(v1, c1, heads) == DirsOf(v, c, heads)
    requires Written(v1, c1, v2, c2, heads, root, d, name, k, i, data)
    ensures Consistent(v2, c2, heads, root) && File(v2, c2, heads, root, d, name) == Contents(data)
    ensures OthersKept(v, c, heads, v2, c2, heads, root, d, name)
    ensures OneSlotResized(DirsOf(v, c, heads), DirsOf(v2, c2, heads), d, k, i, |data|)
  {
    hide Disjoint, IsChain, Tree, FileBytes, OneSlotResized;
  }

  /** A name leads nowhere, or to a directory. */
  ghost predicate NotAFile(t: Dirs, d: nat, wanted: seq<byte>) {
    d in t && var p := Find(t[d], 0, wanted);
      p.Found? ==> IsDirectory(t[d][p.link], p.slot)
  }

  ghost predicate Unused(t: Dirs, d: nat, wanted: seq<byte>) {
    d in t && Find(t[d], 0, wanted) == Nowhere
  }

  /** Exactly these names have no contents. */
  lemma MissingIsNotAFile(v: Vol, chains: Chains, heads: set<nat>, root: nat, d: nat, wanted: seq<byte>)
    requires Consistent(v, chains, heads, root) && d in heads
    ensures File(v, chains, heads, root, d, wanted) == Missing <==> NotAFile(DirsOf(v, chains, heads), d, wanted)
  {
  }

  /** A slot with the same fields whose chain holds the same sectors gives a file the same contents. */
  lemma FileSame(v: Vol, chains: Chains, t: Dirs, w: Vol, l: Chains, u: Dirs, root: nat, d: nat, wanted: seq<byte>, k: nat, i: nat)
    requires Linked(v, chains) && Linked(w, l) && Tree(t, chains.Keys, root) && Tree(u, l.Keys, root)
    requires LeadsTo(t, d, wanted, k, i) && LeadsTo(u, d, wanted, k, i)
    requires Head(u[d][k], i) == Head(t[d][k], i) && Size(u[d][k], i) == Size(t[d][k], i)
    requires IsDirectory(u[d][k], i) == IsDirectory(t[d][k], i)
    requires var g := Head(t[d][k], i);
      !IsDirectory(t[d][k], i) && g != 0 && g in chains ==> g in l && Sectors(w.data, l[g]) == Sectors(v.data, chains[g])
    ensures FileBytes(w, l, u, root, d, wanted) == FileBytes(v, chains, t, root, d, wanted)
  {
    hide Disjoint, NoSharing, Terminated, Find, IsChain;
    assert LiveSlot(t, d, k, i);
  }

  // ---- create_file and create_dir: a fresh cluster and a fresh entry in the first sector ----

  /** What the slot `new_entry` picks and the sector it leaves satisfy. */
  ghost predicate FreshEntry(t: Dirs, d: nat, i: nat, s': Sector, name: seq<byte>, attributes: byte, h: nat, size: nat) {
    && Slot(t, d, 0, i) && Entered(t[d][0], s', i, name, attributes, h, size)
    && s'[32 * i] != 0 && !Live(t[d][0], i) && (forall j :: 0 <= j < i ==> !Ended(t[d][0], j))
  }

  ghost function Created(v: Vol, d: nat, h: nat, s': Sector): Vol
    requires d < |v.data| && h < |v.fat| == |v.data|
  {
    var w := Allocated(v, h);
    w.(data := w.data[d := s'])
  }

  ghost function NewHeads(heads: set<nat>, h: nat, directory: bool): set<nat> {
    if directory then heads + {h} else heads
  }

  lemma FirstEndOf(sectors: seq<Sector>, i: nat)
    requires |sectors| > 0 && forall j :: 0 <= j < i ==> !Ended(sectors[0], j)
    ensures FirstEnd(sectors, 0, i)
  {
  }

  /** The chains after an allocation and the write of the new entry into directory d. */
  lemma CreatedChains(v: Vol, chains: Chains, heads: set<nat>, d: nat, h: nat, s': Sector)
    requires Linked(v, chains) && heads <= chains.Keys && d in heads
    requires 2 <= h < |v.fat| && v.fat[h] == FREE
    ensures d < |v.data| && h !in chains && Linked(Created(v, d, h, s'), chains[h := [h]])
    ensures Linked(Allocated(v, h), chains[h := [h]]) && Apart(v, chains, Allocated(v, h), chains[h := [h]], h)
    ensures Apart(Allocated(v, h), chains[h := [h]], Created(v, d, h, s'), chains[h := [h]], d)
    ensures DirsOf(Created(v, d, h, s'), chains[h := [h]], heads) == Replaced(DirsOf(v, chains, heads), d, 0, s')
    ensures Sectors(Created(v, d, h, s').data, [h]) == [Zeros()]
  {
    hide Disjoint, IsChain;
    HeadRange(v, chains, d);
    AllocateLinked(v, chains, h);
    var v1, l := Allocated(v, h), chains[h := [h]];
    ApartDirs(v, chains, v1, l, heads, h);
    HeadRange(v1, l, d);
    DirectoryWrite(v1, l, heads, d, 0, s');
  }

  /** The directories after that: the rewritten sector and, for a new directory, its zeroed one. */
  lemma CreatedDirs(v: Vol, chains: Chains, heads: set<nat>, d: nat, h: nat, s': Sector, directory: bool)
    requires Linked(v, chains) && heads <= chains.Keys && d in heads
    requires 2 <= h < |v.fat| && v.fat[h] == FREE
    ensures d < |v.data| && h !in chains && Linked(Created(v, d, h, s'), chains[h := [h]]) && On(chains, d, 0)
    ensures DirsOf(Created(v, d, h, s'), chains[h := [h]], NewHeads(heads, h, directory))
      == WithEntry(DirsOf(v, chains, heads), d, 0, s', h, directory)
  {
    hide Apart, Disjoint;
    CreatedChains(v, chains, heads, d, h, s');
    assert On(chains, d, 0);
    var w, l := Created(v, d, h, s'), chains[h := [h]];
    if directory {
      var a, b := DirsOf(w, l, heads + {h}), WithEntry(DirsOf(v, chains, heads), d, 0, s', h, true);
      assert forall d' :: d' in heads ==> a[d'] == DirsOf(w, l, heads)[d'];
      assert a == b;
    }
  }

  lemma CreateKeeps(v: Vol, chains: Chains, heads: set<nat>, root: nat, d: nat, i: nat, s': Sector,
                    name: seq<byte>, attributes: byte, h: nat, size: nat)
    requires Consistent(v, chains, heads, root) && d in heads
    requires 2 <= h < |v.fat| && v.fat[h] == FREE
    requires FreshEntry(DirsOf(v, chains, heads), d, i, s', name, attributes, h, size)
    ensures d < |v.data| && h !in chains
    ensures Consistent(Created(v, d, h, s'), chains[h := [h]], NewHeads(heads, h, IsDirectory(s', i)), root)
    ensures DirsOf(Created(v, d, h, s'), chains[h := [h]], NewHeads(heads, h, IsDirectory(s', i)))
      == WithEntry(DirsOf(v, chains, heads), d, 0, s', h, IsDirectory(s', i))
  {
    hide Disjoint, NoSharing, Terminated;
    var t := DirsOf(v, chains, heads);
    CreatedDirs(v, chains, heads, d, h, s', IsDirectory(s', i));
    FirstEndOf(t[d], i);
    EntryTree(t, chains.Keys, root, d, 0, i, s', name, attributes, h, size);
    assert chains[h := [h]].Keys == chains.Keys + {h};
  }

  /** A fresh entry leads no other name anywhere else, and leaves the slots those names lead to alone. */
  lemma CreateFind(t: Dirs, d: nat, i: nat, s': Sector, name: seq<byte>, attributes: byte, h: nat, size: nat,
                   directory: bool, d': nat, wanted: seq<byte>)
    requires FreshEntry(t, d, i, s', name, attributes, h, size) && Terminated(t[d]) && d' in t && h !in t
    requires d' != d || wanted != name
    ensures var u, p := WithEntry(t, d, 0, s', h, directory), Find(t[d'], 0, wanted);
      && d' in u && Find(u[d'], 0, wanted) == p
      && (p.Found? ==> Head(u[d'][p.link], p.slot) == Head(t[d'][p.link], p.slot))
      && (p.Found? ==> Size(u[d'][p.link], p.slot) == Size(t[d'][p.link], p.slot))
      && (p.Found? ==> IsDirectory(u[d'][p.link], p.slot) == IsDirectory(t[d'][p.link], p.slot))
  {
    if d' == d {
      FindEntered(t[d], 0, i, s', name, attributes, h, size, 0, wanted);
    }
    hide Terminated, Find;
    var p := Find(t[d'], 0, wanted);
    if p.Found? {
      LeadsToLive(t, d', wanted, p.link, p.slot);
      assert (d', p.link, p.slot) != (d, 0, i);
      OtherSlots(t, d, 0, i, s', d', p.link, p.slot);
    }
  }

  /** After a creation every other name, in every directory there was, still has its contents. */
  lemma CreateKeepsFile(v: Vol, chains: Chains, heads: set<nat>, root: nat, d: nat, i: nat, s': Sector,
                        name: seq<byte>, attributes: byte, h: nat, size: nat, d': nat, wanted: seq<byte>)
    requires Consistent(v, chains, heads, root) && d in heads && d' in heads
    requires 2 <= h < |v.fat| && v.fat[h] == FREE
    requires FreshEntry(DirsOf(v, chains, heads), d, i, s', name, attributes, h, size)
    requires d' != d || wanted != name
    ensures d < |v.data| && h !in chains
    ensures Consistent(Created(v, d, h, s'), chains[h := [h]], NewHeads(heads, h, IsDirectory(s', i)), root)
    ensures File(Created(v, d, h, s'), chains[h := [h]], NewHeads(heads, h, IsDirectory(s', i)), root, d', wanted)
      == File(v, chains, heads, root, d', wanted)
  {
    CreateKeeps(v, chains, heads, root, d, i, s', name, attributes, h, size);
    var t := DirsOf(v, chains, heads);
    assert Slot(t, d, 0, i);
    hide Disjoint, NoSharing, Terminated, IsChain, Find, FreshEntry;
    CreatedChains(v, chains, heads, d, h, s');
    var directory := IsDirectory(s', i);
    CreateFind(t, d, i, s', name, attributes, h, size, directory, d', wanted);
    var w, l, u := Created(v, d, h, s'), chains[h := [h]], WithEntry(t, d, 0, s', h, directory);
    var p := Find(t[d'], 0, wanted);
    if p.Found? {
      LeadsToLive(t, d', wanted, p.link, p.slot);
      var g := Head(t[d'][p.link], p.slot);
      if !IsDirectory(t[d'][p.link], p.slot) && g != 0 {
        SameSectors(v, chains, Allocated(v, h), l, h, g);
        SameSectors(Allocated(v, h), l, w, l, d, g);
      }
      FileSame(v, chains, t, w, l, u, root, d', wanted, p.link, p.slot);
    }
  }

  /** A created file reads as zeros of the asked size, at most 512, provided its first byte does not mark it deleted. */
  lemma CreatedFile(v: Vol, chains: Chains, heads: set<nat>, root: nat, d: nat, i: nat, s': Sector,
                    name: seq<byte>, attributes: byte, h: nat, size: nat)
    requires Consistent(v, chains, heads, root) && d in heads
    requires 2 <= h < |v.fat| && v.fat[h] == FREE
    requires FreshEntry(DirsOf(v, chains, heads), d, i, s', name, attributes, h, size)
    requires Live(s', i) && !IsDirectory(s', i) && Find(DirsOf(v, chains, heads)[d], 0, name) == Nowhere
    ensures d < |v.data| && h !in chains
    ensures Consistent(Created(v, d, h, s'), chains[h := [h]], heads, root)
    ensures File(Created(v, d, h, s'), chains[h := [h]], heads, root, d, name) == Contents(seq(Min(size, 512), _ => 0))
  {
    CreateKeeps(v, chains, heads, root, d, i, s', name, attributes, h, size);
    var t := DirsOf(v, chains, heads);
    FindNew(t[d], i, s', name, attributes, h, size);
    assert Slot(t, d, 0, i) && Head(s', i) == h && Size(s', i) == size;
    CreatedChains(v, chains, heads, d, h, s');
    OneSectorFile(Created(v, d, h, s'), chains[h := [h]], Replaced(t, d, 0, s'), root, d, name, i, h, size);
  }

  /** A file on a chain of one zeroed sector. */
  lemma OneSectorFile(w: Vol, l: Chains, u: Dirs, root: nat, d: nat, name: seq<byte>, i: nat, h: nat, size: nat)
    requires Linked(w, l) && Tree(u, l.Keys, root) && LeadsTo(u, d, name, 0, i) && h in l && h != 0
    requires !IsDirectory(u[d][0], i) && Head(u[d][0], i) == h && Size(u[d][0], i) == size
    requires Sectors(w.data, l[h]) == [Zeros()]
    ensures FileBytes(w, l, u, root, d, name) == Contents(seq(Min(size, 512), _ => 0))
  {
    assert ChainBytes([Zeros()], size) == seq(Min(size, 512), _ => 0);
  }

  lemma OthersKeptSelf(v: Vol, chains: Chains, heads: set<nat>, root: nat, d: nat, name: seq<byte>)
    requires Consistent(v, chains, heads, root)
    ensures OthersKept(v, chains, heads, v, chains, heads, root, d, name)
  {
  }

  /** Setting the size of a fresh entry. */
  lemma FreshSize(t: Dirs, d: nat, i: nat, s1: Sector, s2: Sector, name: seq<byte>, attributes: byte, h: nat, size: nat)
    requires FreshEntry(t, d, i, s1, name, attributes, h, 0) && size < 0x1_0000_0000
    requires s2 == Put32(s1, 32 * i + 28, size)
    ensures FreshEntry(t, d, i, s2, name, attributes, h, size)
  {
    forall m | 0 <= m < SLOTS && m != i
      ensures SameSlot(t[d][0], s2, m)
    {
      assert SameSlot(t[d][0], s1, m);
    }
    assert Name(s2, i) == Name(s1, i);
  }

  /** The attributes `create_file` and `create_dir` store tell files from directories. */
  lemma AttributeKinds(s: Sector, i: nat)
    requires i < SLOTS
    ensures Attributes(s, i) == 0x20 ==> !IsDirectory(s, i)
    ensures Attributes(s, i) == 0x10 ==> IsDirectory(s, i)
  {
  }

  /** A name leads to the directory with head `target`. */
  ghost predicate EntersDirectory(t: Dirs, d: nat, wanted: seq<byte>, target: nat) {
    d in t && var p := Find(t[d], 0, wanted);
      p.Found? && IsDirectory(t[d][p.link], p.slot) && Head(t[d][p.link], p.slot) == target
  }

  /** Every name but the given one leads to the same directory as before, or to none as before. */
  ghost predicate PathsKept(t: Dirs, u: Dirs, d: nat, name: seq<byte>) {
    forall d', wanted, target ::
      d' in t && (d' != d || wanted != name) ==> EntersDirectory(u, d', wanted, target) == EntersDirectory(t, d', wanted, target)
  }

  lemma PathsKeptSelf(t: Dirs, d: nat, name: seq<byte>)
    ensures PathsKept(t, t, d, name)
  {
  }

  /** Patching the slot of a file changes no path. */
  lemma ResizePaths(t: Dirs, u: Dirs, d: nat, k: nat, i: nat, size: nat, name: seq<byte>)
    requires LeadsTo(t, d, name, k, i) && OneSlotResized(t, u, d, k, i, size)
    requires !IsDirectory(t[d][k], i)
    ensures PathsKept(t, u, d, name)
  {
    LeadsToLive(t, d, name, k, i);
    var s': Sector, h: nat :| Resized(t[d][k], s', i, h, size) && u == Replaced(t, d, k, s');
    hide Find, Resized;
    ResizedOthers(t[d][k], s', i, h, size);
    forall d', wanted, target | d' in t && (d' != d || wanted != name)
      ensures EntersDirectory(u, d', wanted, target) == EntersDirectory(t, d', wanted, target)
    {
      if d' == d {
        FindResized(t[d], k, s', i, h, size, 0, wanted);
      }
      var p := Find(t[d'], 0, wanted);
      if p.Found? {
        LeadsToLive(t, d', wanted, p.link, p.slot);
        if (d', p.link, p.slot) != (d, k, i) {
          OtherSlots(t, d, k, i, s', d', p.link, p.slot);
        }
      }
    }
  }

  lemma ResizedOthers(s: Sector, s': Sector, i: nat, head: nat, size: nat)
    requires Resized(s, s', i, head, size)
    ensures OthersSame(s, s', i)
  {
  }

  lemma CreatePaths(t: Dirs, d: nat, i: nat, s': Sector, name: seq<byte>, attributes: byte, h: nat, size: nat, directory: bool)
    requires FreshEntry(t, d, i, s', name, attributes, h, size) && Terminated(t[d]) && h !in t
    ensures PathsKept(t, WithEntry(t, d, 0, s', h, directory), d, name)
  {
    hide Find, FreshEntry, Terminated;
    FreshSlot(t, d, i, s', name, attributes, h, size);
    var u := WithEntry(t, d, 0, s', h, directory);
    forall d', wanted, target | d' in t && (d' != d || wanted != name)
      ensures EntersDirectory(u, d', wanted, target) == EntersDirectory(t, d', wanted, target)
    {
      CreateFind(t, d, i, s', name, attributes, h, size, directory, d', wanted);
    }
  }

  lemma FreshSlot(t: Dirs, d: nat, i: nat, s': Sector, name: seq<byte>, attributes: byte, h: nat, size: nat)
    requires FreshEntry(t, d, i, s', name, attributes, h, size)
    ensures Slot(t, d, 0, i)
  {
  }

  /** The new name leads to the new directory. */
  lemma CreatedPath(t: Dirs, d: nat, i: nat, s': Sector, name: seq<byte>, h: nat)
    requires FreshEntry(t, d, i, s', name, 0x10, h, 0) && h !in t && Live(s', i) && Find(t[d], 0, name) == Nowhere
    ensures EntersDirectory(WithEntry(t, d, 0, s', h, true), d, name, h)
  {
    FindNew(t[d], i, s', name, 0x10, h, 0);
    AttributeKinds(s', i);
    assert WithEntry(t, d, 0, s', h, true)[d] == t[d][0 := s'];
  }

  /** All that a creation does: consistency, the other files, the new file or the new directory. */
  lemma CreateEffect(v: Vol, chains: Chains, heads: set<nat>, root: nat, d: nat, i: nat, s': Sector,
                     name: seq<byte>, attributes: byte, h: nat, size: nat)
    requires Consistent(v, chains, heads, root) && d in heads
    requires 2 <= h < |v.fat| && v.fat[h] == FREE
    requires FreshEntry(DirsOf(v, chains, heads), d, i, s', name, attributes, h, size)
    requires attributes == 0x10 || attributes == 0x20
    requires Find(DirsOf(v, chains, heads)[d], 0, name) == Nowhere && name[0] != DOT
    ensures d < |v.data| && h !in chains
    ensures var w, l, more := Created(v, d, h, s'), chains[h := [h]], NewHeads(heads, h, attributes == 0x10);
      && Consistent(w, l, more, root) && OthersKept(v, chains, heads, w, l, more, root, d, name)
      && PathsKept(DirsOf(v, chains, heads), DirsOf(w, l, more), d, name)
      && (attributes == 0x10 ==> DirsOf(w, l, more)[h] == [Zeros()])
      && (attributes == 0x10 && size == 0 && name[0] != 0xE5 ==> EntersDirectory(DirsOf(w, l, more), d, name, h))
      && (attributes == 0x20 && name[0] != 0xE5 ==> File(w, l, more, root, d, name) == Contents(seq(Min(size, 512), _ => 0)))
      && (attributes == 0x20 && name[0] == 0xE5 ==> File(w, l, more, root, d, name) == Missing)
  {
    hide Disjoint, NoSharing, Terminated, IsChain, Find, FileBytes, Created;
    AttributeKinds(s', i);
    CreateKeeps(v, chains, heads, root, d, i, s', name, attributes, h, size);
    forall d', wanted | d' in heads && (d' != d || wanted != name)
      ensures File(Created(v, d, h, s'), chains[h := [h]], NewHeads(heads, h, attributes == 0x10), root, d', wanted)
        == File(v, chains, heads, root, d', wanted)
    {
      CreateKeepsFile(v, chains, heads, root, d, i, s', name, attributes, h, size, d', wanted);
    }
    FreshLive(DirsOf(v, chains, heads), d, i, s', name, attributes, h, size);
    CreatePaths(DirsOf(v, chains, heads), d, i, s', name, attributes, h, size, attributes == 0x10);
    if attributes == 0x10 && size == 0 && name[0] != 0xE5 {
      CreatedPath(DirsOf(v, chains, heads), d, i, s', name, h);
    }
    if attributes == 0x20 {
      if name[0] != 0xE5 {
        CreatedFile(v, chains, heads, root, d, i, s', name, attributes, h, size);
      } else {
        CreatedDead(v, chains, heads, root, d, i, s', name, attributes, h, size);
      }
    }
  }

  /** A fresh entry is found by `find_entry` unless its name starts with the byte that marks deleted entries. */
  lemma FreshLive(t: Dirs, d: nat, i: nat, s': Sector, name: seq<byte>, attributes: byte, h: nat, size: nat)
    requires FreshEntry(t, d, i, s', name, attributes, h, size) && |name| == 11 && name[0] != DOT && attributes != 0x0F
    ensures Live(s', i) <==> name[0] != 0xE5
  {
    assert Name(s', i)[0] == s'[32 * i];
  }

  /** A file whose stored name starts with the deletion mark is nowhere to be found. */
  lemma CreatedDead(v: Vol, chains: Chains, heads: set<nat>, root: nat, d: nat, i: nat, s': Sector,
                    name: seq<byte>, attributes: byte, h: nat, size: nat)
    requires Consistent(v, chains, heads, root) && d in heads
    requires 2 <= h < |v.fat| && v.fat[h] == FREE
    requires FreshEntry(DirsOf(v, chains, heads), d, i, s', name, attributes, h, size)
    requires !Live(s', i) && !IsDirectory(s', i) && Find(DirsOf(v, chains, heads)[d], 0, name) == Nowhere
    ensures d < |v.data| && h !in chains
    ensures Consistent(Created(v, d, h, s'), chains[h := [h]], heads, root)
    ensures File(Created(v, d, h, s'), chains[h := [h]], heads, root, d, name) == Missing
  {
    hide Disjoint, NoSharing, IsChain, Created;
    CreateKeeps(v, chains, heads, root, d, i, s', name, attributes, h, size);
    var t := DirsOf(v, chains, heads);
    assert Terminated(t[d]);
    FindEntered(t[d], 0, i, s', name, attributes, h, size, 0, name);
    MissingIsNotAFile(Created(v, d, h, s'), chains[h := [h]], heads, root, d, name);
  }

  /** A freshly formatted volume - an empty root directory, all other clusters free - is consistent. */
  lemma FormattedIsConsistent(clusters: nat, root: nat)
    requires 2 <= root < clusters <= EOC
    ensures var v := Vol(seq(clusters, _ => FREE)[root := EOC], seq(clusters, _ => Zeros()));
      && Consistent(v, map[root := [root]], {root}, root)
      && forall c :: c in Free(v) <==> 2 <= c < clusters && c != root
  {
    var v, chains := Vol(seq(clusters, _ => FREE)[root := EOC], seq(clusters, _ => Zeros())), map[root := [root]];
    assert Linked(v, chains);
    var t := DirsOf(v, chains, {root});
    assert t[root] == [Zeros()];
    forall i | 0 <= i < SLOTS
      ensures Ended(t[root][0], i) && !Live(t[root][0], i)
    {
      ZeroSector(i);
    }
  }

  // ---- Whole runs ----

  /** Every name that is not among the given ones has the same contents and leads to the same directory, wherever it is looked up. */
  ghost predicate NamesKept(v: Vol, chains: Chains, heads: set<nat>, v': Vol, chains': Chains, heads': set<nat>, root: nat,
                            names: set<seq<byte>>) {
    && Consistent(v, chains, heads, root) && Consistent(v', chains', heads', root) && heads <= heads'
    && (forall d, wanted ::
      d in heads && wanted !in names ==> File(v', chains', heads', root, d, wanted) == File(v, chains, heads, root, d, wanted))
    && (forall d, wanted, target ::
      d in heads && wanted !in names ==>
      EntersDirectory(DirsOf(v', chains', heads'), d, wanted, target) == EntersDirectory(DirsOf(v, chains, heads), d, wanted, target))
  }

  lemma NamesKeptSelf(v: Vol, chains: Chains, heads: set<nat>, root: nat, names: set<seq<byte>>)
    requires Consistent(v, chains, heads, root)
    ensures NamesKept(v, chains, heads, v, chains, heads, root, names)
  {
  }

  /** One operation on a name keeps all other names. */
  lemma NamesKeptOne(v: Vol, chains: Chains, heads: set<nat>, v': Vol, chains': Chains, heads': set<nat>, root: nat,
                     d: nat, name: seq<byte>)
    requires OthersKept(v, chains, heads, v', chains', heads', root, d, name)
    requires PathsKept(DirsOf(v, chains, heads), DirsOf(v', chains', heads'), d, name)
    ensures NamesKept(v, chains, heads, v', chains', heads', root, {name})
  {
    hide Linked, Tree, Find, FileBytes, EntersDirectory;
  }

  lemma NamesKeptTrans(v: Vol, c: Chains, h: set<nat>, v1: Vol, c1: Chains, h1: set<nat>, v2: Vol, c2: Chains, h2: set<nat>,
                       root: nat, names: set<seq<byte>>, more: set<seq<byte>>)
    requires NamesKept(v, c, h, v1, c1, h1, root, names) && NamesKept(v1, c1, h1, v2, c2, h2, root, more)
    ensures NamesKept(v, c, h, v2, c2, h2, root, names + more)
  {
    hide Linked, Tree, Find, FileBytes, EntersDirectory;
  }
}
