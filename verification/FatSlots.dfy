/** Rewriting one directory slot: what the tree and the contents of all files become. */
module FatSlots {
  import opened Bytes
  import opened FatVolume
  import opened FatFrames

  ghost predicate SameSlot(s: Sector, s': Sector, i: nat)
    requires i < SLOTS
  {
    forall j :: 32 * i <= j < 32 * i + 32 ==> s'[j] == s[j]
  }

  lemma SameFields(s: Sector, s': Sector, i: nat)
    requires i < SLOTS && SameSlot(s, s', i)
    ensures Live(s', i) == Live(s, i) && Name(s', i) == Name(s, i) && Head(s', i) == Head(s, i)
    ensures IsDirectory(s', i) == IsDirectory(s, i) && Size(s', i) == Size(s, i) && SlotBytes(s', i) == SlotBytes(s, i)
    ensures s'[32 * i] == s[32 * i]
  {
  }

  /** All slots but slot i are the same. */
  ghost predicate OthersSame(s: Sector, s': Sector, i: nat) {
    forall m :: 0 <= m < SLOTS && m != i ==> SameSlot(s, s', m)
  }

  /** Slot i keeps its name and attributes and gets a new head and size, as `write_file` patches it. */
  ghost predicate Resized(s: Sector, s': Sector, i: nat, head: nat, size: nat) {
    && i < SLOTS && OthersSame(s, s', i)
    && Name(s', i) == Name(s, i) && Attributes(s', i) == Attributes(s, i)
    && Head(s', i) == head && Size(s', i) == size
  }

  /** Slot i is overwritten by a fresh entry, as `new_entry` and its callers fill it in. */
  ghost predicate Entered(s: Sector, s': Sector, i: nat, name: seq<byte>, attributes: byte, head: nat, size: nat) {
    && i < SLOTS && OthersSame(s, s', i)
    && Name(s', i) == name && Attributes(s', i) == attributes
    && Head(s', i) == head && Size(s', i) == size
  }

  lemma ResizedLive(s: Sector, s': Sector, i: nat, head: nat, size: nat)
    requires Resized(s, s', i, head, size)
    ensures Live(s', i) == Live(s, i) && IsDirectory(s', i) == IsDirectory(s, i) && s'[32 * i] == s[32 * i]
  {
    assert Name(s', i)[0] == s'[32 * i] && Name(s, i)[0] == s[32 * i];
  }

  lemma {:induction false} ScanResized(s: Sector, s': Sector, i: nat, head: nat, size: nat, m: nat, wanted: seq<byte>)
    requires Resized(s, s', i, head, size) && m <= SLOTS
    ensures ScanSector(s', m, wanted) == ScanSector(s, m, wanted)
    decreases SLOTS - m
  {
    if m < SLOTS {
      ScanResized(s, s', i, head, size, m + 1, wanted);
      if m == i {
        ResizedLive(s, s', i, head, size);
      } else {
        SameFields(s, s', m);
      }
    }
  }

  lemma {:induction false} FindResized(sectors: seq<Sector>, k: nat, s': Sector, i: nat, head: nat, size: nat, n: nat, wanted: seq<byte>)
    requires k < |sectors| && n <= |sectors| && Resized(sectors[k], s', i, head, size)
    ensures Find(sectors[k := s'], n, wanted) == Find(sectors, n, wanted)
    decreases |sectors| - n
  {
    if n < |sectors| {
      FindResized(sectors, k, s', i, head, size, n + 1, wanted);
      ScanResized(sectors[k], s', i, head, size, 0, wanted);
    }
  }

  ghost function Replaced(t: Dirs, d: nat, k: nat, s': Sector): Dirs
    requires d in t && k < |t[d]|
  {
    var sectors: seq<Sector> := t[d][k := s'];
    t[d := sectors]
  }

  /** Slots other than the rewritten one are live with the same fields before and after. */
  lemma OtherSlots(t: Dirs, d: nat, k: nat, i: nat, s': Sector, d': nat, k': int, i': int)
    requires Slot(t, d, k, i) && OthersSame(t[d][k], s', i) && Slot(t, d', k', i')
    requires (d', k', i') != (d, k as int, i as int)
    ensures var u := Replaced(t, d, k, s');
      && Slot(u, d', k', i') && LiveSlot(u, d', k', i') == LiveSlot(t, d', k', i')
      && Head(u[d'][k'], i') == Head(t[d'][k'], i') && Size(u[d'][k'], i') == Size(t[d'][k'], i')
      && IsDirectory(u[d'][k'], i') == IsDirectory(t[d'][k'], i') && u[d'][k'][32 * i'] == t[d'][k'][32 * i']
  {
    if d' == d && k' == k {
      SameFields(t[d][k], s', i');
    }
  }

  /** No live slot other than (d, k, i) refers to chain h. */
  ghost predicate OnlyAt(t: Dirs, h: nat, d: nat, k: int, i: int) {
    forall d': nat, k', i' :: LiveSlot(t, d', k', i') && Head(t[d'][k'], i') == h ==> d' == d && k' == k && i' == i
  }

  lemma ReplacedSharing(t: Dirs, d: nat, k: nat, i: nat, s': Sector, h: nat)
    requires Slot(t, d, k, i) && OthersSame(t[d][k], s', i) && NoSharing(t)
    requires h != 0 ==> OnlyAt(t, h, d, k, i)
    requires Live(s', i) ==> Head(s', i) == h
    ensures NoSharing(Replaced(t, d, k, s'))
  {
    var u := Replaced(t, d, k, s');
    forall d1: nat, k1, i1, d2: nat, k2, i2 |
      LiveSlot(u, d1, k1, i1) && LiveSlot(u, d2, k2, i2) && Head(u[d1][k1], i1) == Head(u[d2][k2], i2) != 0
      ensures d1 == d2 && k1 == k2 && i1 == i2
    {
      assert Slot(t, d1, k1, i1) && Slot(t, d2, k2, i2);
      if (d1, k1, i1) != (d, k as int, i as int) {
        OtherSlots(t, d, k, i, s', d1, k1, i1);
      }
      if (d2, k2, i2) != (d, k as int, i as int) {
        OtherSlots(t, d, k, i, s', d2, k2, i2);
      }
      if (d1, k1, i1) != (d, k as int, i as int) && (d2, k2, i2) != (d, k as int, i as int) {
        NoSharingAt(t, d1, k1, i1, d2, k2, i2);
      }
    }
  }

  lemma ReplacedTerminated(sectors: seq<Sector>, k: nat, i: nat, s': Sector)
    requires k < |sectors| && i < SLOTS && OthersSame(sectors[k], s', i) && Terminated(sectors)
    requires s'[32 * i] == 0 ==> sectors[k][32 * i] == 0
    requires s'[32 * i] != 0 && sectors[k][32 * i] == 0 ==> FirstEnd(sectors, k, i)
    ensures Terminated(sectors[k := s'])
  {
    var u := sectors[k := s'];
    forall k1, i1 | 0 <= k1 < |sectors| && 0 <= i1 < SLOTS && !(k1 == k && i1 == i)
      ensures u[k1][32 * i1] == sectors[k1][32 * i1]
    {
      if k1 == k {
        SameFields(sectors[k], s', i1);
      }
    }
    forall k1: nat, i1, k2: nat, i2 |
      EndsAt(u, k1, i1) && 0 <= k2 < |u| && 0 <= i2 < SLOTS && (k1 < k2 || (k1 == k2 && i1 < i2))
      ensures EndsAt(u, k2, i2)
    {
      assert EndsAt(sectors, k1, i1);
      TerminatedAt(sectors, k1, i1, k2, i2);
    }
  }

  /** No slot before (k, i) ends the directory. */
  ghost predicate FirstEnd(sectors: seq<Sector>, k: int, i: int) {
    forall k1, i1 :: EndsAt(sectors, k1, i1) ==> k < k1 || (k == k1 && i <= i1)
  }

  // ---- write_file's patch ----

  lemma ResizeTree(t: Dirs, heads: set<nat>, root: nat, d: nat, k: nat, i: nat, s': Sector, h: nat, size: nat)
    requires Tree(t, heads, root) && LiveSlot(t, d, k, i) && !IsDirectory(t[d][k], i)
    requires Resized(t[d][k], s', i, h, size)
    requires h != 0 && h in heads && h !in t && h != root && OnlyAt(t, h, d, k, i)
    ensures Tree(Replaced(t, d, k, s'), heads, root)
  {
    var u := Replaced(t, d, k, s');
    ResizedLive(t[d][k], s', i, h, size);
    ReplacedTerminated(t[d], k, i, s');
    ReplacedSharing(t, d, k, i, s', h);
    forall d1: nat, k1, i1 | LiveSlot(u, d1, k1, i1)
      ensures SlotOk(u, heads, root, u[d1][k1], i1)
    {
      assert Slot(t, d1, k1, i1);
      if (d1, k1, i1) != (d, k as int, i as int) {
        OtherSlots(t, d, k, i, s', d1, k1, i1);
        assert SlotOk(t, heads, root, t[d1][k1], i1);
      }
    }
  }

  // ---- new_entry's slot ----

  /** A fresh entry for a new chain h, possibly a new directory whose one sector is all zero. */
  ghost function WithEntry(t: Dirs, d: nat, k: nat, s': Sector, h: nat, directory: bool): Dirs
    requires d in t && k < |t[d]|
  {
    var u := Replaced(t, d, k, s');
    if directory then u[h := [Zeros()]] else u
  }

  lemma ZeroSector(i: nat)
    requires i < SLOTS
    ensures Zeros()[32 * i] == 0 && !Live(Zeros(), i)
  {
  }

  lemma EntryTree(t: Dirs, heads: set<nat>, root: nat, d: nat, k: nat, i: nat, s': Sector,
                  name: seq<byte>, attributes: byte, h: nat, size: nat)
    requires Tree(t, heads, root) && Slot(t, d, k, i) && !Live(t[d][k], i)
    requires Entered(t[d][k], s', i, name, attributes, h, size) && s'[32 * i] != 0
    requires t[d][k][32 * i] == 0 ==> FirstEnd(t[d], k, i)
    requires h !in heads && h != 0
    ensures Tree(WithEntry(t, d, k, s', h, IsDirectory(s', i)), heads + {h}, root)
  {
    var u, w := Replaced(t, d, k, s'), WithEntry(t, d, k, s', h, IsDirectory(s', i));
    forall d1: nat, k1, i1 | LiveSlot(t, d1, k1, i1)
      ensures Head(t[d1][k1], i1) != h
    {
      assert SlotOk(t, heads, root, t[d1][k1], i1);
    }
    ReplacedSharing(t, d, k, i, s', h);
    ReplacedTerminated(t[d], k, i, s');
    forall d1: nat, k1, i1 | LiveSlot(w, d1, k1, i1)
      ensures LiveSlot(u, d1, k1, i1) && w[d1] == u[d1] && d1 != h && SlotOk(w, heads + {h}, root, w[d1][k1], i1)
    {
      if d1 == h {
        if h !in t {
          ZeroSector(i1);
        }
      }
      assert Slot(t, d1, k1, i1);
      if (d1, k1, i1) != (d, k as int, i as int) {
        OtherSlots(t, d, k, i, s', d1, k1, i1);
        assert SlotOk(t, heads, root, t[d1][k1], i1);
      }
    }
    forall d1 | d1 in w
      ensures Terminated(w[d1])
    {
      if d1 == h && IsDirectory(s', i) {
        forall i1 | 0 <= i1 < SLOTS
          ensures EndsAt([Zeros()], 0, i1)
        {
          ZeroSector(i1);
        }
      }
    }
  }

  /** Slots at or after i end the directory in the old sector. */
  ghost predicate EndsFrom(s: Sector, i: nat) {
    forall j :: i <= j < SLOTS ==> Ended(s, j)
  }

  lemma {:induction false} ScanEntered(s: Sector, s': Sector, i: nat, name: seq<byte>, attributes: byte, head: nat, size: nat, m: nat, wanted: seq<byte>)
    requires Entered(s, s', i, name, attributes, head, size) && m <= SLOTS
    requires name != wanted || !Live(s', i)
    requires s'[32 * i] != 0 && !Live(s, i) && (s[32 * i] == 0 ==> EndsFrom(s, i))
    ensures s[32 * i] != 0 ==> ScanSector(s', m, wanted) == ScanSector(s, m, wanted)
    ensures ScanSector(s', m, wanted) == ScanSector(s, m, wanted)
      || (ScanSector(s, m, wanted).Stop? && ScanSector(s', m, wanted).Miss? && i == SLOTS - 1 && s[32 * i] == 0)
    decreases SLOTS - m
  {
    if m < SLOTS {
      ScanEntered(s, s', i, name, attributes, head, size, m + 1, wanted);
      if m != i {
        SameFields(s, s', m);
      } else if i + 1 < SLOTS {
        SameFields(s, s', i + 1);
        assert s[32 * i] == 0 ==> Ended(s, i + 1);
      }
    }
  }

  /** A fresh entry does not change which slot any other name leads to, nor, unless it is live, its own. */
  lemma {:induction false} FindEntered(sectors: seq<Sector>, k: nat, i: nat, s': Sector, name: seq<byte>, attributes: byte, head: nat, size: nat, n: nat, wanted: seq<byte>)
    requires k < |sectors| && n <= |sectors| && Terminated(sectors)
    requires Entered(sectors[k], s', i, name, attributes, head, size) && (name != wanted || !Live(s', i))
    requires s'[32 * i] != 0 && !Live(sectors[k], i)
    ensures Find(sectors[k := s'], n, wanted) == Find(sectors, n, wanted)
    decreases |sectors| - n
  {
    if n < |sectors| {
      FindEntered(sectors, k, i, s', name, attributes, head, size, n + 1, wanted);
      if n == k {
        if sectors[k][32 * i] == 0 {
          assert EndsAt(sectors, k, i);
          forall j | i <= j < SLOTS
            ensures Ended(sectors[k], j)
          {
            if j > i {
              TerminatedAt(sectors, k, i, k, j);
            }
          }
          if k + 1 < |sectors| {
            TerminatedAt(sectors, k, i, k + 1, 0);
          }
        }
        ScanEntered(sectors[k], s', i, name, attributes, head, size, 0, wanted);
      }
    }
  }

  lemma {:induction false} ScanNew(s: Sector, s': Sector, i: nat, name: seq<byte>, attributes: byte, head: nat, size: nat, m: nat)
    requires Entered(s, s', i, name, attributes, head, size) && m <= i && Live(s', i)
    requires forall j :: m <= j < i ==> !Ended(s, j)
    requires !ScanSector(s, m, name).Hit?
    ensures ScanSector(s', m, name) == Hit(i)
    decreases i - m
  {
    if m < i {
      SameFields(s, s', m);
      assert !Ended(s, m);
      ScanNew(s, s', i, name, attributes, head, size, m + 1);
    }
  }

  /** A name that led nowhere leads to its fresh entry in the first sector. */
  lemma FindNew(sectors: seq<Sector>, i: nat, s': Sector, name: seq<byte>, attributes: byte, head: nat, size: nat)
    requires |sectors| > 0 && Entered(sectors[0], s', i, name, attributes, head, size) && Live(s', i)
    requires forall j :: 0 <= j < i ==> !Ended(sectors[0], j)
    requires Find(sectors, 0, name) == Nowhere
    ensures Find(sectors[0 := s'], 0, name) == Found(0, i)
  {
    ScanNew(sectors[0], s', i, name, attributes, head, size, 0);
  }
}
