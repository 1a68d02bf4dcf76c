/**
 The frame allocator of `paging.c` and the page directories that `proces.cpp` clones from it and gives
 back when a process ends.
 */
module Paging {
  import opened BitWords

  const PAGE_SIZE: nat := 4096
  const FRAME_START: nat := 0x0020_0000
  const FRAME_END: nat := 0x0100_0000
  const FRAME_COUNT: nat := (FRAME_END - FRAME_START) / PAGE_SIZE
  const WORDS: nat := 112
  const USER_MEM_START: nat := 0x0010_0000
  const USER_MEM_END: nat := 0x0040_0000
  const FRAMEBUFFER: nat := 0xFD00_0000

  const PRESENT_WRITABLE: nat := 3
  const PRESENT_WRITABLE_USER: nat := 7
  const USER_SLOT: nat := 1
  const FRAMEBUFFER_SLOT: nat := 1012

  type Table = t: seq<nat> | |t| == 1024 witness seq(1024, _ => 0)

  /** Addresses that the allocator hands out: whole frames inside its pool. */
  predicate IsFrame(a: nat) {
    FRAME_START <= a < FRAME_END && a % PAGE_SIZE == 0
  }

  function FrameOf(i: nat): (a: nat)
    requires i < FRAME_COUNT
    ensures IsFrame(a) && IndexOf(a) == i
  {
    FRAME_START + i * PAGE_SIZE
  }

  function IndexOf(a: nat): (i: nat)
    requires IsFrame(a)
    ensures i < FRAME_COUNT && FRAME_START + i * PAGE_SIZE == a
  {
    (a - FRAME_START) / PAGE_SIZE
  }

  /** A table entry for a frame: its address in the high bits, the flags in the low twelve. */
  function Entry(address: nat, flags: nat): (e: nat)
    requires flags < PAGE_SIZE
    ensures address % PAGE_SIZE == 0 ==> Target(e) == address
  {
    address - address % PAGE_SIZE + flags
  }

  /** The address in an entry: `entry & ~0xFFF`. */
  function Target(entry: nat): (a: nat) {
    entry - entry % PAGE_SIZE
  }

  /** A cloned address space: its directory and the two tables that belong to it alone. */
  datatype Space = Space(directory: nat, user: nat, framebuffer: nat)

  ghost function Frames(s: Space): set<nat> {
    {s.directory, s.user, s.framebuffer}
  }

  /** The user table of a clone: its upper three quarters map the pages of user memory. */
  ghost function UserTable(): Table {
    seq(1024, i requires 0 <= i < 1024 => UserEntry(i))
  }

  ghost function UserEntry(i: nat): (e: nat) {
    if USER_MEM_START / PAGE_SIZE <= i then Entry(i * PAGE_SIZE, PRESENT_WRITABLE_USER) else 0
  }

  ghost function FramebufferTable(): Table {
    seq(1024, i requires 0 <= i < 1024 => Entry(FRAMEBUFFER + i * PAGE_SIZE, PRESENT_WRITABLE))
  }

  /** The directory of a clone: the first quarter of the kernel's, but for the user slot, and the framebuffer slot. */
  ghost function Directory(kernel: Table, user: nat, framebuffer: nat): Table {
    seq(1024, i requires 0 <= i < 1024 => DirectoryEntry(kernel, user, framebuffer, i))
  }

  ghost function DirectoryEntry(kernel: Table, user: nat, framebuffer: nat, i: nat): (e: nat)
    requires i < 1024
  {
    if i == USER_SLOT then Entry(user, PRESENT_WRITABLE_USER)
    else if i == FRAMEBUFFER_SLOT then Entry(framebuffer, PRESENT_WRITABLE)
    else KernelEntry(kernel, i)
  }

  function KernelEntry(kernel: Table, i: nat): (e: nat)
    requires i < 1024
  {
    if i < 256 then kernel[i] else 0
  }

  ghost function KernelPart(kernel: Table): Table {
    seq(1024, i requires 0 <= i < 1024 => KernelEntry(kernel, i))
  }

  lemma DirectoryFilled(kernel: Table, user: nat, framebuffer: nat)
    ensures Directory(kernel, user, framebuffer) ==
            KernelPart(kernel)[USER_SLOT := Entry(user, PRESENT_WRITABLE_USER)][FRAMEBUFFER_SLOT := Entry(framebuffer, PRESENT_WRITABLE)]
  {
  }

  /** Every live space has three frames of its own. */
  ghost predicate Apart(live: set<Space>) {
    && (forall s :: s in live ==> Three(s))
    && (forall s, t :: s in live && t in live && s != t ==> Frames(s) !! Frames(t))
  }

  ghost predicate Three(s: Space) {
    && IsFrame(s.directory) && IsFrame(s.user) && IsFrame(s.framebuffer)
    && s.directory != s.user && s.directory != s.framebuffer && s.user != s.framebuffer
  }

  ghost function Union(live: set<Space>): set<nat> {
    set s, a | s in live && a in Frames(s) :: a
  }

  lemma LiveExtends(live: set<Space>, s: Space)
    requires Apart(live) && Three(s) && Frames(s) !! Union(live)
    ensures s !in live && Apart(live + {s}) && Union(live + {s}) == Union(live) + Frames(s)
  {
    assert s.directory in Frames(s);
    forall t | t in live
      ensures Frames(s) !! Frames(t)
    {
      assert Frames(t) <= Union(live);
    }
  }

  lemma LiveShrinks(live: set<Space>, s: Space)
    requires Apart(live) && s in live
    ensures Apart(live - {s}) && Union(live - {s}) == Union(live) - Frames(s)
  {
  }

  /** A directory's entries name the tables of its space. */
  ghost predicate Linked(tables: map<nat, Table>, s: Space) {
    && s.directory in tables
    && Target(tables[s.directory][USER_SLOT]) == s.user && Target(tables[s.directory][FRAMEBUFFER_SLOT]) == s.framebuffer
  }

  ghost predicate AllLinked(tables: map<nat, Table>, live: set<Space>) {
    forall s :: s in live ==> Linked(tables, s)
  }

  /** Filling frames of no live space leaves the links of the live ones. */
  lemma LinkedKept(tables: map<nat, Table>, a: nat, t: Table, live: set<Space>)
    requires AllLinked(tables, live) && a !in Union(live)
    ensures AllLinked(tables[a := t], live)
  {
    forall s | s in live
      ensures Linked(tables[a := t], s)
    {
      assert s.directory in Frames(s);
    }
  }

  lemma TablesFilled(t: map<nat, Table>, d: nat, u: nat, f: nat, k0: Table, k1: Table, k2: Table, user: Table, framebuffer: Table)
    requires d != u && d != f && u != f
    ensures t[d := k0][u := user][d := k1][f := framebuffer][d := k2] == t[d := k2][u := user][f := framebuffer]
  {
  }

  lemma LinkedNow(tables: map<nat, Table>, s: Space)
    requires Three(s) && s.directory in tables
    requires tables[s.directory][USER_SLOT] == Entry(s.user, PRESENT_WRITABLE_USER)
    requires tables[s.directory][FRAMEBUFFER_SLOT] == Entry(s.framebuffer, PRESENT_WRITABLE)
    ensures Linked(tables, s)
  {
  }

  lemma LinkedMore(tables: map<nat, Table>, live: set<Space>, s: Space)
    requires AllLinked(tables, live) && Linked(tables, s)
    ensures AllLinked(tables, live + {s})
  {
  }

  lemma ThreeFrames(live: set<Space>, s: Space)
    requires Apart(live) && s in live
    ensures Frames(s) <= Union(live) && |Frames(s)| == 3
  {
    assert Three(s);
    assert Frames(s) == {s.directory} + {s.user} + {s.framebuffer};
  }

  /** The allocated frames are three for each live space. */
  lemma {:induction false} ThreeEach(live: set<Space>)
    requires Apart(live)
    ensures |Union(live)| == 3 * |live|
    decreases |live|
  {
    if live == {} {
      assert Union(live) == {};
    } else {
      var s :| s in live;
      ThreeFrames(live, s);
      LiveShrinks(live, s);
      ThreeEach(live - {s});
    }
  }

  /** All frames of the pool below an index. */
  ghost function Pool(n: nat): set<nat>
    requires n <= FRAME_COUNT
  {
    set i: nat | i < n :: FrameOf(i)
  }

  lemma {:induction false} PoolSize(n: nat)
    requires n <= FRAME_COUNT
    ensures |Pool(n)| == n
    decreases n
  {
    if n > 0 {
      PoolSize(n - 1);
      assert Pool(n) == Pool(n - 1) + {FrameOf(n - 1)};
    }
  }

  /** A set of frames has all of them exactly when it has as many as the pool. */
  lemma FullPool(taken: set<nat>)
    requires forall a :: a in taken ==> IsFrame(a)
    ensures |taken| <= FRAME_COUNT
    ensures (forall i: nat :: i < FRAME_COUNT ==> FrameOf(i) in taken) <==> |taken| == FRAME_COUNT
  {
    hide FrameOf, IndexOf;
    PoolSize(FRAME_COUNT);
    forall a | a in taken
      ensures a in Pool(FRAME_COUNT)
    {
      FrameOfIndex(a);
    }
    assert taken <= Pool(FRAME_COUNT);
    SubsetSize(taken, Pool(FRAME_COUNT));
  }

  lemma FrameOfIndex(a: nat)
    requires IsFrame(a)
    ensures FrameOf(IndexOf(a)) == a
  {
  }

  lemma {:induction false} SubsetSize<T>(a: set<T>, b: set<T>)
    requires a <= b
    ensures |a| <= |b| && (|a| == |b| <==> a == b)
    decreases |a|
  {
    if a == {} {
      assert b != {} ==> |b| > 0;
    } else {
      var x :| x in a;
      SubsetSize(a - {x}, b - {x});
      assert a == (a - {x}) + {x} && b == (b - {x}) + {x};
    }
  }

  /** The frames before one are those of the indices before its own. */
  lemma FramesBefore(taken: set<nat>, i: nat)
    requires i < FRAME_COUNT && forall j: nat :: j < i ==> FrameOf(j) in taken
    ensures forall b :: 0x0020_0000 <= b < FrameOf(i) && b % 4096 == 0 ==> b in taken
  {
    forall b | 0x0020_0000 <= b < FrameOf(i) && b % 4096 == 0
      ensures b in taken
    {
      FrameOfIndex(b);
      assert FrameOf(IndexOf(b)) in taken;
    }
  }

  // ---- What the processor makes of a directory ----

  datatype Page = NotPresent | Page(physical: nat, writable: bool, user: bool)

  /**
   The translation of an address: ten bits of it choose the entry of the directory, ten that of the table, twelve are
   kept. Bit 0 of an entry says that it is present, bit 1 that it may be written, bit 2 that a user may use it.
   */
  ghost function Walk(tables: map<nat, Table>, directory: nat, address: nat): Page
    requires address < 0x1_0000_0000 && directory in tables
    requires var e := tables[directory][address / 0x40_0000]; e % 2 == 1 ==> e - e % 0x1000 in tables
  {
    var e := tables[directory][address / 0x40_0000];
    if e % 2 == 0 then NotPresent else
      var f := tables[e - e % 0x1000][address / 0x1000 % 0x400];
      if f % 2 == 0 then NotPresent
      else Page(f - f % 0x1000 + address % 0x1000, e / 2 % 2 == 1 && f / 2 % 2 == 1, e / 4 % 2 == 1 && f / 4 % 2 == 1)
  }

  /** The three frames of a space hold what a clone fills in. */
  ghost predicate Filled(tables: map<nat, Table>, kernel: Table, s: Space) {
    && Three(s) && s.directory in tables && s.user in tables && s.framebuffer in tables
    && tables[s.directory] == Directory(kernel, s.user, s.framebuffer)
    && tables[s.user] == UserTable() && tables[s.framebuffer] == FramebufferTable()
  }

  lemma FilledNow(before: map<nat, Table>, kernel: Table, s: Space)
    requires Three(s)
    ensures Filled(before[s.directory := Directory(kernel, s.user, s.framebuffer)][s.user := UserTable()][s.framebuffer := FramebufferTable()],
                   kernel, s)
  {
    hide Directory, UserTable, FramebufferTable;
  }

  lemma EntryBits(address: nat, flags: nat)
    requires address % 0x1000 == 0 && flags < 8
    ensures var e := Entry(address, flags);
      e - e % 0x1000 == address && e % 2 == flags % 2 && e / 2 % 2 == flags / 2 % 2 && e / 4 % 2 == flags / 4 % 2
  {
    FlagBits(address / 0x1000, flags);
  }

  lemma FlagBits(q: nat, flags: nat)
    requires flags < 8
    ensures var e := 0x1000 * q + flags;
      e % 0x1000 == flags && e % 2 == flags % 2 && e / 2 % 2 == flags / 2 % 2 && e / 4 % 2 == flags / 4 % 2
  {
    SmallDivisor(0x800 * q, flags, 2);
    SmallDivisor(0x400 * q, flags, 4);
  }

  lemma SmallDivisor(k: int, flags: int, m: int)
    requires 0 <= flags && (m == 2 || m == 4) && k % 2 == 0
    ensures (m * k + flags) / m % 2 == flags / m % 2
  {
    assert (m * k + flags) / m == k + flags / m;
  }

  /**
   In a cloned space the three megabytes of user memory from 1 MB on are at the addresses from 5 MB to 8 MB, for users to
   read and write; nothing is in the megabyte before; the framebuffer is at its own address, for the kernel alone; the
   kernel's entries for all other addresses below 1 GB are there, and none above.
   */
  lemma CloneTranslates(tables: map<nat, Table>, kernel: Table, s: Space, address: nat)
    requires Filled(tables, kernel, s) && address < 0x1_0000_0000
    ensures 0x50_0000 <= address < 0x80_0000 ==> Walked(tables, s.directory, address, Page(address - 0x40_0000, true, true))
    ensures 0x40_0000 <= address < 0x50_0000 ==> Walked(tables, s.directory, address, NotPresent)
    ensures 0xFD00_0000 <= address < 0xFD40_0000 ==> Walked(tables, s.directory, address, Page(address, true, false))
    ensures 0x4000_0000 <= address && !(0xFD00_0000 <= address < 0xFD40_0000) ==> Walked(tables, s.directory, address, NotPresent)
    ensures address < 0x4000_0000 && !(0x40_0000 <= address < 0x80_0000) ==>
      tables[s.directory][address / 0x40_0000] == kernel[address / 0x40_0000]
  {
    hide Entry;
    var i, j := address / 0x40_0000, address / 0x1000 % 0x400;
    EntryBits(s.user, PRESENT_WRITABLE_USER);
    EntryBits(s.framebuffer, PRESENT_WRITABLE);
    EntryBits(j * PAGE_SIZE, PRESENT_WRITABLE_USER);
    EntryBits(FRAMEBUFFER + j * PAGE_SIZE, PRESENT_WRITABLE);
    AddressParts(address);
  }

  lemma AddressParts(address: nat)
    ensures address == address / 0x40_0000 * 0x40_0000 + address / 0x1000 % 0x400 * 0x1000 + address % 0x1000
  {
    var pages := address / 0x1000;
    assert pages / 0x400 == address / 0x40_0000;
  }

  ghost predicate Walked(tables: map<nat, Table>, directory: nat, address: nat, page: Page) {
    && address < 0x1_0000_0000 && directory in tables
    && (var e := tables[directory][address / 0x40_0000]; e % 2 == 1 ==> e - e % 0x1000 in tables)
    && Walk(tables, directory, address) == page
  }

  class Memory {
    const bits: array<bv32>
    var tables: map<nat, Table>
    const kernel: Table
    ghost var live: set<Space>

    /** The frames whose bit is set. */
    ghost function Allocated(): (taken: set<nat>)
      requires bits.Length == WORDS
      reads bits
      ensures forall a :: a in taken ==> IsFrame(a)
    {
      set i: nat | i < FRAME_COUNT && Flag(bits, i) :: FrameOf(i)
    }

    /** The allocated frames are those of the live spaces, and each directory points to its own tables. */
    ghost predicate Valid()
      reads this, bits
    {
      && bits.Length == WORDS && Apart(live) && Allocated() == Union(live)
      && AllLinked(tables, live)
    }

    constructor (kernel: Table)
      ensures Valid() && live == {} && Allocated() == {} && fresh(bits)
    {
      bits := new bv32[WORDS](_ => 0);
      tables := map[];
      this.kernel := kernel;
      live := {};
      new;
      forall i: nat | i < FRAME_COUNT
        ensures !Flag(bits, i)
      {
        ZeroWord(BitOf(i));
      }
    }

    /** `paging_alloc_frame`: the first free frame, or 0 when there is none. */
    method AllocFrame() returns (a: nat)
      requires bits.Length == WORDS
      modifies bits
      ensures a == 0 <==> |old(Allocated())| == FRAME_COUNT
      ensures a == 0 ==> Allocated() == old(Allocated())
      ensures a != 0 ==> IsFrame(a) && a !in old(Allocated()) && Allocated() == old(Allocated()) + {a}
      ensures a != 0 ==> 0x0020_0000 <= a < 0x0100_0000 && a % 4096 == 0
      ensures a != 0 ==> forall b :: 0x0020_0000 <= b < a && b % 4096 == 0 ==> b in old(Allocated())
    {
      hide Flag;
      FullPool(Allocated());
      var i := 0;
      while i < FRAME_COUNT
        invariant i <= FRAME_COUNT && forall j: nat :: j < i ==> FrameOf(j) in Allocated()
      {
        if !Flag(bits, i) {
          ghost var taken := Allocated();
          SetFlag(bits, i);
          FramesBefore(taken, i);
          return FrameOf(i);
        }
        i := i + 1;
      }
      a := 0;
    }

    /** `paging_free_frame`: frames outside the pool or not at a frame's start are left alone. */
    method FreeFrame(a: nat)
      requires bits.Length == WORDS
      modifies bits
      ensures Allocated() == if IsFrame(a) then old(Allocated()) - {a} else old(Allocated())
      ensures IsFrame(a) <==> 0x0020_0000 <= a < 0x0100_0000 && a % 4096 == 0
    {
      hide Flag;
      if a < FRAME_START || a >= FRAME_END {
        return;
      }
      if a % PAGE_SIZE != 0 {
        return;
      }
      ClearFlag(bits, IndexOf(a));
    }

    /** A frame filled with zero words. */
    method ZeroTable(a: nat)
      modifies this`tables
      ensures tables == old(tables)[a := seq(1024, _ => 0)]
    {
      var t: Table := seq(1024, _ => 0);
      tables := tables[a := t];
    }

    /** `map_page`. */
    method MapPage(a: nat, virtual: nat, physical: nat, flags: nat)
      requires a in tables && flags < PAGE_SIZE
      modifies this`tables
      ensures a in tables && tables == old(tables)[a := old(tables)[a][virtual / PAGE_SIZE % 1024 := Entry(physical, flags)]]
    {
      var t: Table := tables[a][virtual / PAGE_SIZE % 1024 := Entry(physical, flags)];
      tables := tables[a := t];
    }

    /** One word of a directory. */
    method SetWord(a: nat, i: nat, word: nat)
      requires a in tables && i < 1024
      modifies this`tables
      ensures a in tables && tables == old(tables)[a := old(tables)[a][i := word]]
    {
      var t: Table := tables[a][i := word];
      tables := tables[a := t];
    }

    /** The directory with the kernel's first quarter in it. */
    method FillDirectory(a: nat)
      modifies this`tables
      ensures tables == old(tables)[a := KernelPart(kernel)]
    {
      ghost var was := tables;
      ZeroTable(a);
      for i := 0 to 256
        invariant a in tables && tables == was[a := tables[a]]
        invariant forall j :: 0 <= j < 1024 ==> tables[a][j] == if j < i then kernel[j] else 0
      {
        SetWord(a, i, kernel[i]);
      }
      assert tables[a] == KernelPart(kernel);
    }

    /** The loop over user memory. */
    method FillUserTable(a: nat)
      modifies this`tables
      ensures tables == old(tables)[a := UserTable()]
    {
      ghost var was := tables;
      ZeroTable(a);
      var page := USER_MEM_START / PAGE_SIZE;
      while page < USER_MEM_END / PAGE_SIZE
        invariant 256 <= page <= 1024 && a in tables && tables == was[a := tables[a]]
        invariant forall j :: 0 <= j < 1024 ==>
          tables[a][j] == if 256 <= j < page then Entry(j * PAGE_SIZE, PRESENT_WRITABLE_USER) else 0
      {
        MapPage(a, page * PAGE_SIZE, page * PAGE_SIZE, PRESENT_WRITABLE_USER);
        page := page + 1;
      }
      assert tables[a] == UserTable();
    }

    method FillFramebufferTable(a: nat)
      modifies this`tables
      ensures tables == old(tables)[a := FramebufferTable()]
    {
      ghost var was := tables;
      ZeroTable(a);
      for i := 0 to 1024
        invariant a in tables && tables == was[a := tables[a]]
        invariant forall j :: 0 <= j < 1024 ==>
          tables[a][j] == if j < i then Entry(FRAMEBUFFER + j * PAGE_SIZE, PRESENT_WRITABLE) else 0
      {
        assert (FRAMEBUFFER + i * PAGE_SIZE) / PAGE_SIZE % 1024 == i;
        MapPage(a, FRAMEBUFFER + i * PAGE_SIZE, FRAMEBUFFER + i * PAGE_SIZE, PRESENT_WRITABLE);
      }
      assert tables[a] == FramebufferTable();
    }

    /** A clone up to the user table's entry in the directory. */
    method CloneUser() returns (directory: nat, user: nat)
      requires Valid()
      modifies this`tables, bits
      ensures AllLinked(tables, live) && (directory == 0 <==> |old(Allocated())| > FRAME_COUNT - 2)
      ensures directory == 0 ==> Allocated() == old(Allocated())
      ensures directory != 0 ==> IsFrame(directory) && IsFrame(user) && directory != user
      ensures directory != 0 ==> {directory, user} !! old(Allocated()) && Allocated() == old(Allocated()) + {directory, user}
      ensures directory != 0 ==> tables == old(tables)[directory := KernelPart(kernel)][user := UserTable()]
        [directory := KernelPart(kernel)[USER_SLOT := Entry(user, PRESENT_WRITABLE_USER)]]
    {
      hide Apart, Union, Linked, AllLinked, KernelPart, UserTable, Entry, Allocated;
      FullPool(Allocated());
      user := 0;
      directory := AllocFrame();
      if directory == 0 {
        return;
      }
      ghost var t := tables;
      FillDirectory(directory);
      LinkedKept(t, directory, tables[directory], live);
      user := AllocFrame();
      if user == 0 {
        FreeFrame(directory);
        return 0, 0;
      }
      t := tables;
      FillUserTable(user);
      LinkedKept(t, user, tables[user], live);
      t := tables;
      SetWord(directory, USER_SLOT, Entry(user, PRESENT_WRITABLE_USER));
      LinkedKept(t, directory, tables[directory], live);
    }

    /**
     `proces_klonuj_page_directory`: a space of three fresh frames, whose tables are filled in as they should
     be; or 0 with the allocator as it was, exactly when fewer than three frames are free.
     */
    method Clone() returns (directory: nat, ghost s: Space)
      requires Valid()
      modifies this`tables, this`live, bits
      ensures Valid() && (directory == 0 <==> |old(Allocated())| > FRAME_COUNT - 3)
      ensures directory == 0 ==> live == old(live) && Allocated() == old(Allocated())
      ensures directory != 0 ==> s.directory == directory && s !in old(live) && live == old(live) + {s}
      ensures directory != 0 ==> tables == old(tables)[s.directory := Directory(kernel, s.user, s.framebuffer)]
        [s.user := UserTable()][s.framebuffer := FramebufferTable()]
      ensures directory != 0 ==> Filled(tables, kernel, s)
    {
      hide Apart, Union, Linked, AllLinked, KernelPart, Directory, UserTable, FramebufferTable, Entry, Target, Allocated, Filled;
      s := Space(0, 0, 0);
      FullPool(Allocated());
      var user;
      directory, user := CloneUser();
      if directory == 0 {
        return;
      }
      var framebuffer := AllocFrame();
      if framebuffer == 0 {
        FreeFrame(user);
        FreeFrame(directory);
        return 0, s;
      }
      ghost var t := tables;
      FillFramebufferTable(framebuffer);
      LinkedKept(t, framebuffer, tables[framebuffer], live);
      t := tables;
      SetWord(directory, FRAMEBUFFER_SLOT, Entry(framebuffer, PRESENT_WRITABLE));
      LinkedKept(t, directory, tables[directory], live);
      DirectoryFilled(kernel, user, framebuffer);
      TablesFilled(old(tables), directory, user, framebuffer, KernelPart(kernel),
                   KernelPart(kernel)[USER_SLOT := Entry(user, PRESENT_WRITABLE_USER)], tables[directory], UserTable(), FramebufferTable());
      s := Space(directory, user, framebuffer);
      LiveExtends(live, s);
      LinkedNow(tables, s);
      LinkedMore(tables, live, s);
      FilledNow(old(tables), kernel, s);
      live := live + {s};
    }

    /** The part of `proces_zakoncz` that gives a process's page directory back. */
    method Release(directory: nat, ghost s: Space)
      requires Valid() && s in live && directory == s.directory
      modifies this`live, bits
      ensures Valid() && live == old(live) - {s} && Allocated() == old(Allocated()) - Frames(s)
    {
      hide Union, Target, Allocated;
      LiveShrinks(live, s);
      assert Three(s) && Linked(tables, s);
      var user := Target(tables[directory][USER_SLOT]);
      var framebuffer := Target(tables[directory][FRAMEBUFFER_SLOT]);
      FreeFrame(framebuffer);
      FreeFrame(user);
      FreeFrame(directory);
      live := live - {s};
    }

    /** Nothing leaks and nothing is freed twice: after any run, three frames are allocated for each live space. */
    lemma FramesConserved()
      requires Valid()
      ensures |Allocated()| == 3 * |live| <= FRAME_COUNT
    {
      ThreeEach(live);
      FullPool(Allocated());
    }
  }
}
