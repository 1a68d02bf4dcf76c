/**
 How the elementary changes `write_file`, `create_file` and `create_dir` make - taking a free
 cluster, linking it, overwriting a data sector, rewriting one directory slot - act on chains,
 directories and the contents of all files.
 */
module FatFrames {
  import opened Bytes
  import opened FatVolume

  // ---- Chains ----

  /** A free cluster lies on no chain. */
  lemma FreeIsUnlinked(v: Vol, chains: Chains, c: nat, h: nat, k: int)
    requires Linked(v, chains) && c < |v.fat| && v.fat[c] == FREE && On(chains, h, k)
    ensures chains[h][k] != c
  {
    assert IsChain(v.fat, chains[h]);
    if k < |chains[h]| - 1 {
      assert v.fat[chains[h][k]] == chains[h][k + 1];
    }
  }

  ghost function Allocated(v: Vol, c: nat): Vol
    requires c < |v.fat| && |v.fat| == |v.data|
  {
    Vol(v.fat[c := EOC], v.data[c := Zeros()])
  }

  /** A chain depends on the table only at its own clusters. */
  lemma ChainFrame(fat: seq<nat>, fat': seq<nat>, chain: seq<nat>)
    requires IsChain(fat, chain) && |fat'| == |fat|
    requires forall k :: 0 <= k < |chain| ==> fat'[chain[k]] == fat[chain[k]]
    ensures IsChain(fat', chain)
  {
  }

  lemma AddDisjoint(chains: Chains, c: nat)
    requires Disjoint(chains) && c !in chains
    requires forall h: nat, k :: On(chains, h, k) ==> chains[h][k] != c
    ensures Disjoint(chains[c := [c]])
  {
    var l := chains[c := [c]];
    assert forall h: nat, k :: On(l, h, k) ==> if h == c then k == 0 && l[h][k] == c else On(chains, h, k) && l[h][k] == chains[h][k];
  }

  /** Taking a free cluster starts a chain of its own. */
  lemma AllocateLinked(v: Vol, chains: Chains, c: nat)
    requires Linked(v, chains) && 2 <= c < |v.fat| && v.fat[c] == FREE
    ensures c !in chains && Linked(Allocated(v, c), chains[c := [c]])
    ensures Apart(v, chains, Allocated(v, c), chains[c := [c]], c)
  {
    if c in chains {
      FreeIsUnlinked(v, chains, c, c, 0);
      assert false;
    }
    forall h: nat, k | On(chains, h, k)
      ensures chains[h][k] != c
    {
      FreeIsUnlinked(v, chains, c, h, k);
    }
    AddDisjoint(chains, c);
    var w, l := Allocated(v, c), chains[c := [c]];
    forall h | h in l
      ensures IsChain(w.fat, l[h]) && l[h][0] == h
    {
      if h != c {
        assert forall k :: 0 <= k < |chains[h]| ==> On(chains, h, k);
        ChainFrame(v.fat, w.fat, chains[h]);
      }
    }
  }

  /** Taking a free cluster takes that one. */
  lemma AllocateTakes(v: Vol, c: nat)
    requires 2 <= c < |v.fat| == |v.data| && v.fat[c] == FREE
    ensures Free(Allocated(v, c)) == Free(v) - {c} && Takes(v, Allocated(v, c), 1)
  {
    SubsetSize({c}, Free(v));
    assert Free(Allocated(v, c)) == Free(v) - {c};
  }

  /** Linking a cluster that is taken takes nothing. */
  lemma LinkTakes(v: Vol, c: nat, next: nat)
    requires c < |v.fat| && v.fat[c] != FREE && next != FREE
    ensures Free(Linking(v, c, next)) == Free(v)
  {
  }

  /** All chains but h's are still there, with the same clusters and the same data. */
  ghost predicate Apart(v: Vol, chains: Chains, v': Vol, chains': Chains, h: nat)
    requires Linked(v, chains)
  {
    && |v'.data| == |v.data|
    && (forall g :: g in chains && g != h ==> g in chains' && chains'[g] == chains[g])
    && (forall g: nat, k :: On(chains, g, k) && g != h ==> v'.data[chains[g][k]] == v.data[chains[g][k]])
  }

  ghost function Linking(v: Vol, c: nat, next: nat): Vol
    requires c < |v.fat|
  {
    v.(fat := v.fat[c := next])
  }

  ghost function Joined(chains: Chains, h: nat, next: nat): Chains
    requires h in chains
  {
    (chains - {next})[h := chains[h] + [next]]
  }

  lemma JoinDisjoint(chains: Chains, h: nat, next: nat)
    requires Disjoint(chains) && h in chains && next in chains && h != next && chains[next] == [next]
    ensures Disjoint(Joined(chains, h, next))
  {
    var l := Joined(chains, h, next);
    forall g: nat, k, g': nat, k' | On(l, g, k) && On(l, g', k') && l[g][k] == l[g'][k']
      ensures g == g' && k == k'
    {
      var a: nat, i: int, b: nat, j: int := g, k, g', k';
      if g == h && k == |chains[h]| {
        a, i := next, 0;
      }
      if g' == h && k' == |chains[h]| {
        b, j := next, 0;
      }
      assert On(chains, a, i) && chains[a][i] == l[g][k];
      assert On(chains, b, j) && chains[b][j] == l[g'][k'];
      DisjointAt(chains, a, i, b, j);
    }
  }

  /** Linking a chain of one cluster behind the last cluster of h's chain joins the two. */
  lemma LinkLinked(v: Vol, chains: Chains, h: nat, next: nat)
    requires Linked(v, chains) && h in chains && next in chains && h != next && chains[next] == [next]
    ensures var last := chains[h][|chains[h]| - 1];
      last < |v.fat| && Linked(Linking(v, last, next), Joined(chains, h, next))
  {
    var ch := chains[h];
    var last := ch[|ch| - 1];
    assert IsChain(v.fat, ch) && IsChain(v.fat, chains[next]);
    JoinDisjoint(chains, h, next);
    var w, l := Linking(v, last, next), Joined(chains, h, next);
    assert On(chains, h, |ch| - 1) && On(chains, next, 0);
    forall g | g in l
      ensures IsChain(w.fat, l[g]) && l[g][0] == g
    {
      if g == h {
        forall k | 0 <= k < |ch|
          ensures ch[k] != next && (k < |ch| - 1 ==> ch[k] != last)
        {
          Different(chains, h, k, next, 0);
          if k < |ch| - 1 {
            Different(chains, h, k, h, |ch| - 1);
          }
        }
        LengthenChain(v.fat, ch, next);
      } else {
        forall k | 0 <= k < |chains[g]|
          ensures chains[g][k] != last
        {
          Different(chains, g, k, h, |ch| - 1);
        }
        ChainFrame(v.fat, w.fat, chains[g]);
      }
    }
  }

  lemma LengthenChain(fat: seq<nat>, chain: seq<nat>, next: nat)
    requires IsChain(fat, chain) && IsChain(fat, [next]) && next !in chain
    requires forall k :: 0 <= k < |chain| - 1 ==> chain[k] != chain[|chain| - 1]
    ensures IsChain(fat[chain[|chain| - 1] := next], chain + [next])
  {
    var longer, last := chain + [next], chain[|chain| - 1];
    var fat' := fat[last := next];
    assert last != next;
    assert fat'[next] == fat[[next][0]];
    forall k | 0 <= k < |longer| - 1
      ensures fat'[longer[k]] == longer[k + 1]
    {
      if k < |chain| - 1 {
        assert fat[chain[k]] == chain[k + 1];
      }
    }
  }

  lemma WriteLinked(v: Vol, chains: Chains, c: nat, s: Sector)
    requires Linked(v, chains) && c < |v.data|
    ensures Linked(v.(data := v.data[c := s]), chains)
  {
  }

  lemma ApartTrans(v0: Vol, c0: Chains, v1: Vol, c1: Chains, v2: Vol, c2: Chains, h: nat)
    requires Linked(v0, c0) && Linked(v1, c1)
    requires Apart(v0, c0, v1, c1, h) && Apart(v1, c1, v2, c2, h)
    ensures Apart(v0, c0, v2, c2, h)
  {
    forall g: nat, k | On(c0, g, k) && g != h
      ensures v2.data[c0[g][k]] == v0.data[c0[g][k]]
    {
      assert On(c1, g, k);
    }
  }

  /** Overwriting cluster k of h's chain changes sector k of that chain and no other chain. */
  lemma WriteApart(v: Vol, chains: Chains, h: nat, k: nat, s: Sector)
    requires Linked(v, chains) && On(chains, h, k)
    ensures chains[h][k] < |v.data| && Linked(v.(data := v.data[chains[h][k] := s]), chains)
    ensures var w := v.(data := v.data[chains[h][k] := s]);
      Apart(v, chains, w, chains, h) && Sectors(w.data, chains[h]) == Sectors(v.data, chains[h])[k := s]
  {
    var w := v.(data := v.data[chains[h][k] := s]);
    WriteLinked(v, chains, chains[h][k], s);
    forall g: nat, j | On(chains, g, j) && (g != h || j != k)
      ensures chains[g][j] != chains[h][k]
    {
      Different(chains, g, j, h, k);
    }
    assert forall j :: 0 <= j < |chains[h]| ==> On(chains, h, j);
  }

  /** Taking a free cluster and linking it behind h's chain lengthens that chain by a zeroed sector. */
  lemma ExtendApart(v: Vol, chains: Chains, h: nat, next: nat)
    requires Linked(v, chains) && h in chains && 2 <= next < |v.fat| && v.fat[next] == FREE
    ensures next !in chains && chains[h][|chains[h]| - 1] < |v.fat|
    ensures var w := Linking(Allocated(v, next), chains[h][|chains[h]| - 1], next);
      var l := Joined(chains[next := [next]], h, next);
      && Linked(w, l) && Apart(v, chains, w, l, h) && l.Keys == chains.Keys && l[h] == chains[h] + [next]
      && Sectors(w.data, l[h]) == Sectors(v.data, chains[h]) + [Zeros()]
  {
    hide Disjoint;
    forall g: nat, k | On(chains, g, k)
      ensures chains[g][k] != next
    {
      FreeIsUnlinked(v, chains, next, g, k);
    }
    AllocateLinked(v, chains, next);
    var v1, c1 := Allocated(v, next), chains[next := [next]];
    LinkLinked(v1, c1, h, next);
    var w, l := Linking(v1, chains[h][|chains[h]| - 1], next), Joined(c1, h, next);
    assert forall k :: 0 <= k < |chains[h]| ==> On(chains, h, k);
    SectorsAppend(v.data, chains[h], next);
    hide Linked, IsChain;
  }

  lemma SectorsAppend(data: seq<Sector>, chain: seq<nat>, next: nat)
    requires next < |data| && forall k :: 0 <= k < |chain| ==> chain[k] < |data| && chain[k] != next
    ensures Sectors(data[next := Zeros()], chain + [next]) == Sectors(data, chain) + [Zeros()]
  {
  }

  // ---- Directories and files away from the changed chain ----

  lemma SameSectors(v: Vol, chains: Chains, v': Vol, chains': Chains, h: nat, d: nat)
    requires Linked(v, chains) && Linked(v', chains') && Apart(v, chains, v', chains', h)
    requires d in chains && d != h
    ensures d in chains' && Sectors(v'.data, chains'[d]) == Sectors(v.data, chains[d])
  {
    assert forall k :: 0 <= k < |chains[d]| ==> On(chains, d, k);
  }

  /** Changing only the chain of something that is not a directory leaves every directory sector alone. */
  lemma ApartDirs(v: Vol, chains: Chains, v': Vol, chains': Chains, heads: set<nat>, h: nat)
    requires Linked(v, chains) && Linked(v', chains') && Apart(v, chains, v', chains', h)
    requires heads <= chains.Keys && h !in heads
    ensures heads <= chains'.Keys && DirsOf(v', chains', heads) == DirsOf(v, chains, heads)
  {
    hide Disjoint;
    forall d | d in heads
      ensures d in chains' && Sectors(v'.data, chains'[d]) == Sectors(v.data, chains[d])
    {
      SameSectors(v, chains, v', chains', h, d);
    }
  }

  lemma MoreHeads(t: Dirs, heads: set<nat>, heads': set<nat>, root: nat)
    requires Tree(t, heads, root) && heads <= heads'
    ensures Tree(t, heads', root)
  {
  }

  /** The contents of every file but the one on chain h are untouched. */
  lemma ApartFiles(v: Vol, chains: Chains, v': Vol, chains': Chains, t: Dirs, root: nat, h: nat, d: nat, wanted: seq<byte>)
    requires Linked(v, chains) && Tree(t, chains.Keys, root) && d in t
    requires Linked(v', chains') && Apart(v, chains, v', chains', h) && Tree(t, chains'.Keys, root)
    requires var p := Find(t[d], 0, wanted); p.Found? ==> Head(t[d][p.link], p.slot) == 0 || Head(t[d][p.link], p.slot) != h
    ensures FileBytes(v', chains', t, root, d, wanted) == FileBytes(v, chains, t, root, d, wanted)
  {
    hide Disjoint, IsChain, NoSharing, Terminated, Head, IsDirectory;
    var p := Find(t[d], 0, wanted);
    if p.Found? {
      var s := t[d][p.link];
      assert LiveSlot(t, d, p.link, p.slot);
      if !IsDirectory(s, p.slot) && Head(s, p.slot) != 0 {
        SameSectors(v, chains, v', chains', h, Head(s, p.slot));
      }
    }
  }
}
