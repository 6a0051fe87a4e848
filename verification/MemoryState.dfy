/** What holds of RAM, the bitmap and the page-table tree together. */
module MemoryState {
  import opened Paging
  import opened AddressSpace
  import opened FrameBitmap
  import opened Options
  import opened AllocatorRuns

  /** Frame f can become a table of any level as it is: all its words are dead. */
  predicate Blank(ram: Ram, f: nat) {
    forall i | 0 <= i < 512 :: Dead(2, Rd(ram, f, i))
  }

  /** A page the kernel allocator may hand out. */
  predicate Allocatable(b: Bytes, p: nat)
    requires |b| == MAX_PAGES
  {
    KERNEL_FIRST <= p < MAX_PAGES && !Used(b, p)
  }

  /** The tree is in RAM, and every table is a page that was handed out. */
  predicate Core(b: Bytes, ram: Ram, s: Space) {
    && IsBitmap(b) && HighByte(b)
    && |ram| >= MAX_PAGES
    && Tree(ram, s)
    && (forall n | n in s && n.level >= 1 :: KERNEL_FIRST <= s[n] < MAX_PAGES && !Allocatable(b, s[n]))
  }

  /** Pages that `kmalloc_mem` may hand out hold dead words only. `mmap` relies on it: its memset calls
      are commented out (see `UnclearedMapping`). `getPT` clears its pages itself. */
  predicate AllBlank(b: Bytes, ram: Ram)
    requires |b| == MAX_PAGES
  {
    forall p: nat | p < MAX_PAGES && Allocatable(b, p) :: Blank(ram, p)
  }

  /** Mapped pages are neither tables nor pages that may still be handed out. */
  predicate Separate(b: Bytes, s: Space)
    requires |b| == MAX_PAGES
  {
    && Isolated(s)
    && (forall n | n in s && n.level == 0 :: s[n] >= MAX_PAGES || !Allocatable(b, s[n]))
  }

  /** Frame f is no table and will not be handed out: it may be mapped as a page. */
  predicate Mappable(b: Bytes, s: Space, f: nat)
    requires |b| == MAX_PAGES
  {
    && (f >= MAX_PAGES || !Allocatable(b, f))
    && (forall n | n in s && n.level >= 1 :: s[n] != f)
  }

  /** Building tables keeps pages and tables apart, and takes no frame that may be mapped. */
  ghost predicate Keeps(b: Bytes, s: Space, b': Bytes, s': Space)
    requires |b| == MAX_PAGES && |b'| == MAX_PAGES
  {
    && (Separate(b, s) ==> Separate(b', s'))
    && (forall f: nat :: Mappable(b, s, f) ==> Mappable(b', s', f))
  }

  lemma KeepsSame(b: Bytes, s: Space)
    requires |b| == MAX_PAGES
    ensures Keeps(b, s, b, s)
  {
  }

  /** The effect of one `kmalloc_mem` that finds a page. */
  lemma TakeOne(b: Bytes)
    requires IsBitmap(b) && HighByte(b) && Supply(b) != []
    ensures var p, b' := Supply(b)[0], Take(b, KERNEL_FIRST);
            && Stops(b, KERNEL_FIRST) && Pick(b, KERNEL_FIRST) == Some(p)
            && Allocatable(b, p)
            && IsBitmap(b') && HighByte(b') && Supply(b') == Supply(b)[1..]
            && (forall q: nat | q < MAX_PAGES :: Allocatable(b', q) <==> Allocatable(b, q) && q != p)
  {
    TakeKeepsHighByte(b, KERNEL_FIRST);
    TakeMeaning(b, KERNEL_FIRST);
  }

  /** Allocating a page keeps everything; the page is no table and no mapped page. */
  lemma TakeKeepsCore(b: Bytes, ram: Ram, s: Space)
    requires Core(b, ram, s) && Supply(b) != []
    ensures Stops(b, KERNEL_FIRST)
    ensures var p, b' := Supply(b)[0], Take(b, KERNEL_FIRST);
            && Core(b', ram, s) && KERNEL_FIRST <= p < MAX_PAGES && !Allocatable(b', p)
            && (forall n | n in s && n.level >= 1 :: s[n] != p)
            && (Separate(b, s) ==> Separate(b', s) && forall n | n in s :: s[n] != p)
            && (AllBlank(b, ram) ==> AllBlank(b', ram) && Blank(ram, p))
  {
    TakeOne(b);
  }

  /** The page that `kmalloc_mem` returns can be linked in as a table, whatever it holds. */
  lemma TakenCanLink(b: Bytes, ram: Ram, s: Space, n: Node)
    requires Core(b, ram, s) && Supply(b) != []
    requires 1 <= n.level < 4 && Ordinary(n.level, n.prefix) && Parent(n) in s && n !in s
    ensures CanLink(ram, s, n, Supply(b)[0])
  {
    TakeKeepsCore(b, ram, s);
    hide Tree, HighByte, IsBitmap, Supply, Separate, AllBlank, Ordinary;
  }

  /** Installing a table of dead words keeps Core. */
  lemma AddTable(b: Bytes, ram: Ram, s: Space, n: Node, f: nat)
    requires Core(b, ram, s) && 1 <= n.level < 4 && Ordinary(n.level, n.prefix)
    requires n !in s && Parent(n) in s
    requires KERNEL_FIRST <= f < MAX_PAGES && Blank(ram, f) && !Allocatable(b, f)
    requires forall m | m in s && m.level >= 1 :: s[m] != f
    ensures var ram' := Wr(ram, s[Parent(n)], n.prefix % 512, f * 0x1000 + 7);
            && Core(b, ram', s[n := f]) && (SelfEntry(ram, s) ==> SelfEntry(ram', s[n := f]))
            && (AllBlank(b, ram) ==> AllBlank(b, ram'))
    ensures Separate(b, s) && (forall m | m in s :: s[m] != f) ==> Separate(b, s[n := f])
  {
    hide SelfEntry, IsBitmap, HighByte, Shape, Owned, Encodes, WellSized;
    AddNode(ram, s, n, f);
    WriteToTable(b, ram, s, Parent(n), n.prefix % 512, f * 0x1000 + 7);
    hide Tree, Ordinary, Blank;
  }

  /** Mapping a page keeps Core. */
  lemma AddPage(b: Bytes, ram: Ram, s: Space, v: nat, f: nat)
    requires Core(b, ram, s) && Ordinary(0, v) && PtNode(v) in s && f < 0x100_0000_0000
    ensures var ram' := Wr(ram, s[PtNode(v)], v % 512, f * 0x1000 + 7);
            && Core(b, ram', s[PageNode(v) := f])
            && (SelfEntry(ram, s) ==> SelfEntry(ram', s[PageNode(v) := f]))
            && (AllBlank(b, ram) ==> AllBlank(b, ram'))
    ensures && Separate(b, s) && (forall m | m in s && m.level >= 1 :: s[m] != f)
            && (f >= MAX_PAGES || !Allocatable(b, f))
            ==> Separate(b, s[PageNode(v) := f])
  {
    hide SelfEntry, IsBitmap, HighByte, Shape, Owned, Encodes, WellSized;
    AddNode(ram, s, PageNode(v), f);
    WriteToTable(b, ram, s, PtNode(v), v % 512, f * 0x1000 + 7);
    hide Tree, Ordinary;
  }

  lemma OtherFrameStaysBlank(ram: Ram, f: nat, i: nat, w: nat, p: nat)
    requires Blank(ram, p) && p != f
    ensures Blank(Wr(ram, f, i, w), p)
  {
    forall k | 0 <= k < 512 ensures Dead(2, Rd(Wr(ram, f, i, w), p, k)) {
      assert Dead(2, Rd(ram, p, k));
    }
  }

  lemma WriteToTable(b: Bytes, ram: Ram, s: Space, t: Node, i: nat, w: nat)
    requires Core(b, ram, s) && t in s && t.level >= 1 && i < 512
    ensures AllBlank(b, ram) ==> AllBlank(b, Wr(ram, s[t], i, w))
  {
    if AllBlank(b, ram) {
      forall p: nat | p < MAX_PAGES && Allocatable(b, p) ensures Blank(Wr(ram, s[t], i, w), p) {
        OtherFrameStaysBlank(ram, s[t], i, w, p);
      }
    }
  }

  /** A store into a mapped page, through an ordinary address, cannot harm the tables. */
  lemma StoreKeepsCore(b: Bytes, ram: Ram, s: Space, v: nat, i: nat, w: nat)
    requires Core(b, ram, s) && Separate(b, s) && PageNode(v) in s && i < 512
    ensures Core(b, Wr(ram, s[PageNode(v)], i, w), s)
    ensures SelfEntry(ram, s) ==> SelfEntry(Wr(ram, s[PageNode(v)], i, w), s)
    ensures AllBlank(b, ram) ==> AllBlank(b, Wr(ram, s[PageNode(v)], i, w))
  {
    var f := s[PageNode(v)];
    var ram' := Wr(ram, f, i, w);
    forall m, k | m in s && m.level >= 1 && k < 512 ensures Rd(ram', s[m], k) == Rd(ram, s[m], k) {
    }
    if AllBlank(b, ram) {
      forall p: nat | p < MAX_PAGES && Allocatable(b, p) ensures Blank(ram', p) {
        OtherFrameStaysBlank(ram, f, i, w, p);
      }
    }
  }

  /** memset(page, 0, PAGE_SIZE) */
  function Memset(ram: Ram, f: nat): Ram {
    if f < |ram| then ram[f := seq(512, i => 0)] else ram
  }

  lemma MemsetMeaning(ram: Ram, f: nat)
    requires WellSized(ram) && f < |ram|
    ensures WellSized(Memset(ram, f)) && |Memset(ram, f)| == |ram| && Blank(Memset(ram, f), f)
    ensures forall g: nat, i: nat | g != f :: Rd(Memset(ram, f), g, i) == Rd(ram, g, i)
  {
  }

  /** Clearing the page that `kmalloc_mem` returns next changes no table, whatever the page held. */
  lemma MemsetKeepsCore(b: Bytes, ram: Ram, s: Space)
    requires Core(b, ram, s) && Supply(b) != []
    ensures var p := Supply(b)[0];
            && Core(b, Memset(ram, p), s) && Blank(Memset(ram, p), p)
            && (AllBlank(b, ram) ==> AllBlank(b, Memset(ram, p)))
  {
    var p := Supply(b)[0];
    TakeKeepsCore(b, ram, s);
    MemsetMeaning(ram, p);
    hide Memset, Supply, HighByte, IsBitmap;
    forall m, i | m in s && m.level >= 1 && i < 512 && (m != ROOT || i != RECURSIVE_SLOT)
      ensures Stands(s, m, i, Rd(Memset(ram, p), s[m], i))
    {
      assert s[m] != p && Stands(s, m, i, Rd(ram, s[m], i));
    }
    if AllBlank(b, ram) { BlankAfterMemset(b, ram, p); }
  }

  lemma BlankAfterMemset(b: Bytes, ram: Ram, p: nat)
    requires |b| == MAX_PAGES && WellSized(ram) && p < |ram| && AllBlank(b, ram)
    ensures AllBlank(b, Memset(ram, p))
  {
    MemsetMeaning(ram, p);
    hide Memset;
    forall q: nat | q < MAX_PAGES && Allocatable(b, q) ensures Blank(Memset(ram, p), q) {
      assert Blank(ram, q);
    }
  }

  /** One block of `mmap` or of `getPT`: allocate a page, which is blank, and install it as table n. */
  lemma InstallTable(b: Bytes, ram: Ram, s: Space, n: Node)
    requires Core(b, ram, s) && Supply(b) != [] && Blank(ram, Supply(b)[0])
    requires 1 <= n.level < 4 && Ordinary(n.level, n.prefix) && n !in s && Parent(n) in s
    ensures Stops(b, KERNEL_FIRST) && Pick(b, KERNEL_FIRST) == Some(Supply(b)[0])
    ensures var p, b' := Supply(b)[0], Take(b, KERNEL_FIRST);
            var ram' := Wr(ram, s[Parent(n)], n.prefix % 512, WithFlags(p * PAGE_SIZE));
            && Core(b', ram', s[n := p]) && (SelfEntry(ram, s) ==> SelfEntry(ram', s[n := p]))
            && (AllBlank(b, ram) ==> AllBlank(b', ram'))
            && Supply(b') == Supply(b)[1..]
            && Keeps(b, s, b', s[n := p])
  {
    hide AllBlank, Separate, Supply, HighByte, IsBitmap, Take, Pick, Stops, Wr, WithFlags, Blank, Keeps, Tree;
    TakeOne(b);
    var p, b' := Supply(b)[0], Take(b, KERNEL_FIRST);
    hide Core;
    TakeKeepsCore(b, ram, s);
    AddTable(b', ram, s, n, p);
    assert WithFlags(p * PAGE_SIZE) == p * 0x1000 + 7 by { FlagsAreAdded(p); }
    hide Ordinary, Allocatable, SelfEntry;
    KeepsWithTable(b, s, b', n, p);
  }

  /** A new table takes a page that no one may map, and no other. */
  lemma KeepsWithTable(b: Bytes, s: Space, b': Bytes, n: Node, p: nat)
    requires |b| == |b'| == MAX_PAGES && n.level >= 1 && p < MAX_PAGES && Allocatable(b, p)
    requires forall q: nat | q < MAX_PAGES :: Allocatable(b', q) <==> Allocatable(b, q) && q != p
    requires Separate(b, s) ==> Separate(b', s[n := p])
    ensures Keeps(b, s, b', s[n := p])
  {
    hide Separate, Allocatable;
  }

  /** The last statement of `mmap`: one entry of the page table. */
  lemma InstallPage(b: Bytes, ram: Ram, s: Space, v: nat, phy: nat)
    requires Core(b, ram, s) && Ordinary(0, v) && PtNode(v) in s
    requires phy % PAGE_SIZE == 0 && phy / PAGE_SIZE < 0x100_0000_0000
    ensures var f, ram' := phy / PAGE_SIZE, Wr(ram, s[Parent(PageNode(v))], v % 512, WithFlags(phy));
            && Core(b, ram', s[PageNode(v) := f])
            && (SelfEntry(ram, s) ==> SelfEntry(ram', s[PageNode(v) := f]))
            && (AllBlank(b, ram) ==> AllBlank(b, ram'))
            && (Separate(b, s) && Mappable(b, s, f) ==> Separate(b, s[PageNode(v) := f]))
  {
    var f := phy / PAGE_SIZE;
    assert phy == f * 0x1000;
    FlagsAreAdded(f);
    AddPage(b, ram, s, v, f);
  }

  /** The page that `kmalloc_mem` returns may be mapped. */
  lemma TakenIsMappable(b: Bytes, ram: Ram, s: Space)
    requires Core(b, ram, s) && Supply(b) != []
    ensures var b' := Take(b, KERNEL_FIRST);
            && Stops(b, KERNEL_FIRST) && Pick(b, KERNEL_FIRST) == Some(Supply(b)[0])
            && Core(b', ram, s) && Supply(b') == Supply(b)[1..] && (AllBlank(b, ram) ==> AllBlank(b', ram))
            && (Separate(b, s) ==> Separate(b', s)) && Mappable(b', s, Supply(b)[0]) && Supply(b)[0] < MAX_PAGES
  {
    TakeOne(b);
    TakeKeepsCore(b, ram, s);
  }

  /** Page p was free and is in use now; it is no table and will not be handed out again. */
  predicate NewlyTaken(b: Bytes, b': Bytes, m: Vm, p: nat)
    requires |b| == MAX_PAGES && |b'| == MAX_PAGES
  {
    && p < MAX_PAGES && !Used(b, p) && Used(b', p)
    && (forall n | n in m.space && n.level >= 1 :: m.space[n] != p)
    && (forall i | 0 <= i < |m.supply| :: m.supply[i] != p)
  }

  /** What `malloc_mem` does to the bitmap keeps everything: it only marks a page, which is no table. */
  lemma MallocKeepsCore(b: Bytes, ram: Ram, s: Space)
    requires Core(b, ram, s)
    ensures Stops(b, 0)
    ensures var b' := Take(b, 0);
            Core(b', ram, s) && (AllBlank(b, ram) ==> AllBlank(b', ram)) && (Separate(b, s) ==> Separate(b', s))
  {
    MallocSupply(b);
    hide Supply, Take, Pick, Used, HighByte, IsBitmap, Tree;
  }

  lemma MallocTakes(b: Bytes, ram: Ram, s: Space)
    requires Core(b, ram, s)
    ensures Stops(b, 0) && IsBitmap(Take(b, 0)) && HighByte(Take(b, 0))
    ensures Pick(b, 0).Some? ==> NewlyTaken(b, Take(b, 0), Vm(s, Supply(Take(b, 0))), Pick(b, 0).value)
  {
    hide Supply, Take, Pick, Used, HighByte, Tree, Encodes;
    MallocSupply(b);
  }
}
