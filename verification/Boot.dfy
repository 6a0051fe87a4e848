/** The address space that `setup_page_tables` builds, and how it is reached. */
module Boot {
  import opened Bits
  import opened Paging
  import opened AddressSpace
  import opened FrameBitmap
  import opened Options
  import opened AllocatorRuns
  import opened MemoryState

  /** Page number of VIRT_OFFSET. */
  const FIRST_PAGE: nat := 0xF_FFF8_0000
  /** MAX_PHY_MEM, and the size of the region one page table maps. */
  const MAX_PHY_MEM: nat := 0x1000_0000
  const PT_SPAN: nat := 0x20_0000
  const VIDEO_PAGE: nat := 0xB8

  /** Before paging: enough RAM, whatever it holds. */
  predicate Ready(b: Bytes, ram: Ram) {
    IsBitmap(b) && HighByte(b) && |ram| >= MAX_PAGES && WellSized(ram)
  }

  lemma ReadyMeaning(b: Bytes, ram: Ram)
    requires Ready(b, ram)
    ensures IsBitmap(b) && |b| == MAX_PAGES && HighByte(b)
  {
  }

  /** The first page, cleared, becomes the top table: an empty tree. */
  lemma FirstTable(b: Bytes, ram: Ram)
    requires Ready(b, ram) && Supply(b) != []
    ensures var p, b' := Supply(b)[0], Take(b, KERNEL_FIRST);
            && Stops(b, KERNEL_FIRST) && Pick(b, KERNEL_FIRST) == Some(p)
            && 0 < p < MAX_PAGES
            && Core(b', Memset(ram, p), map[ROOT := p]) && Separate(b', map[ROOT := p])
            && (AllBlank(b, ram) ==> AllBlank(b', Memset(ram, p)))
            && Supply(b') == Supply(b)[1..]
            && forall f: nat | f >= MAX_PAGES || !Allocatable(b, f) :: Mappable(b', map[ROOT := p], f)
  {
    TakeOne(b);
    var p := Supply(b)[0];
    MemsetMeaning(ram, p);
    if AllBlank(b, ram) { BlankAfterMemset(b, ram, p); }
    hide Memset, Supply, HighByte, Take, Pick;
    forall i | 0 <= i < 512 ensures Stands(map[ROOT := p], ROOT, i, Rd(Memset(ram, p), p, i)) {
      assert Dead(2, Rd(Memset(ram, p), p, i));
    }
  }

  /** The page that the entry for frame p stands for in the page table of page FIRST_PAGE + lo. */
  function PageInTable(lo: nat, p: nat): nat {
    FIRST_PAGE + lo / 512 * 512 + p % 512
  }

  /** s after frames lo .. lo + n - 1 have been entered, one after the other, in the page table
      of the first: past the end of its 2 MB region they start over at its first entry. */
  function DirectMap(s: Space, lo: nat, n: nat): Space {
    if n == 0 then s
    else DirectMap(s, lo, n - 1)[PageNode(PageInTable(lo, lo + n - 1)) := lo + n - 1]
  }

  /** The frame that page v gets by that, if any: the last one entered there. */
  function EnteredAt(lo: nat, n: nat, v: nat): Option<nat> {
    if n == 0 then None
    else if v == PageInTable(lo, lo + n - 1) then Some(lo + n - 1)
    else EnteredAt(lo, n - 1, v)
  }

  lemma {:induction false} DirectMapMeaning(s: Space, lo: nat, n: nat)
    ensures var t := DirectMap(s, lo, n);
            && (forall m | m in s && m.level >= 1 :: m in t && t[m] == s[m])
            && (forall m | m in t && m.level >= 1 :: m in s)
            && (forall v: nat :: PageNode(v) in t <==> PageNode(v) in s || EnteredAt(lo, n, v).Some?)
            && (forall v: nat | PageNode(v) in t ::
                  t[PageNode(v)] == match EnteredAt(lo, n, v) case Some(p) => p case None => s[PageNode(v)])
  {
    if n > 0 { DirectMapMeaning(s, lo, n - 1); }
  }

  predicate InRun(v: nat, lo: nat, n: nat) {
    FIRST_PAGE + lo <= v < FIRST_PAGE + lo + n
  }

  /** Inside one region each frame is entered at its own page. */
  lemma {:induction false} EnteredInRegion(lo: nat, n: nat, v: nat)
    requires n == 0 || lo / 512 == (lo + n - 1) / 512
    ensures EnteredAt(lo, n, v) == if InRun(v, lo, n) then Some(v - FIRST_PAGE) else None
  {
    if n > 0 {
      OwnEntry(lo, lo + n - 1);
      if n > 1 { Between(lo, lo + n - 2, lo + n - 1); }
      EnteredInRegion(lo, n - 1, v);
    }
  }

  lemma Between(a: nat, b: nat, c: nat)
    requires a <= b <= c && a / 512 == c / 512
    ensures a / 512 == b / 512
  {
  }

  lemma OwnEntry(lo: nat, p: nat)
    ensures lo / 512 == p / 512 ==> PageInTable(lo, p) == FIRST_PAGE + p
    ensures PageInTable(lo, p) / 512 == (FIRST_PAGE + lo) / 512 && PageInTable(lo, p) % 512 == p % 512
  {
  }

  /** Nothing is ever entered outside the region of the first frame. */
  lemma {:induction false} EnteredNearby(lo: nat, n: nat, v: nat)
    requires v / 512 != (FIRST_PAGE + lo) / 512
    ensures EnteredAt(lo, n, v) == None
  {
    if n > 0 {
      OwnEntry(lo, lo + n - 1);
      EnteredNearby(lo, n - 1, v);
    }
  }

  lemma DirectMapEmpty(s: Space, lo: nat)
    ensures DirectMap(s, lo, 0) == s
  {
  }

  /** How many pages `while (p <= free)` visits from base on, page by page. */
  function PageCount(physbase: nat, physfree: nat): nat {
    if physbase <= physfree then (physfree - physbase) / PAGE_SIZE + 1 else 0
  }

  /** A top table, three tables for the kernel, and one more for the video page unless
      the kernel lies in its 2 MB region. */
  function BootTables(physbase: nat): nat {
    if physbase / PT_SPAN == 0 then 4 else 5
  }

  /** Tables that the pages of the first 256 MB above VIRT_OFFSET go through. */
  lemma DirectTables(p: nat)
    requires p < 0x1_0000
    ensures var v := FIRST_PAGE + p;
            && PdpNode(v) == Node(3, 511) && PdNode(v) == Node(2, 0x3_FFFE)
            && PtNode(v) == Node(1, 0x7FF_FC00 + p / 512)
  {
  }

  /** The kernel's own mapping, made on an empty tree, takes three tables. */
  lemma KernelTables(root: nat, supply: seq<nat>, p: nat)
    requires |supply| >= 3 && p < 0x1_0000
    ensures var m, v := Vm(map[ROOT := root], supply), FIRST_PAGE + p;
            && m.EnoughFor(v)
            && m.WithTables(TablesOf(v)).supply == supply[3..]
            && (forall n: Node :: n in m.WithTables(TablesOf(v)).space <==> n == ROOT || n in TablesOf(v))
  {
    var m, v := Vm(map[ROOT := root], supply), FIRST_PAGE + p;
    DirectTables(p);
    EnoughMeaning(m, v);
    TablesInTurn(m, v);
  }

  /** The video page needs its own page table unless the kernel's serves it. */
  lemma VideoTables(m: Vm, p: nat)
    requires p < 0x1_0000
    requires forall n: Node | n.level >= 1 :: n in m.space <==> n == ROOT || n in TablesOf(FIRST_PAGE + p)
    requires p / 512 == 0 || |m.supply| >= 1
    ensures m.EnoughFor(FIRST_PAGE + VIDEO_PAGE)
    ensures var t := m.WithTables(TablesOf(FIRST_PAGE + VIDEO_PAGE));
            && t.supply == (if p / 512 == 0 then m.supply else m.supply[1..])
            && (forall v: nat :: PageNode(v) in t.space <==> PageNode(v) in m.space)
            && (forall v: nat | PageNode(v) in t.space :: t.space[PageNode(v)] == m.space[PageNode(v)])
  {
    DirectTables(p);
    DirectTables(VIDEO_PAGE);
    EnoughMeaning(m, FIRST_PAGE + VIDEO_PAGE);
    TablesInTurn(m, FIRST_PAGE + VIDEO_PAGE);
  }

  /** `(kernmem & VIRT_BASE) | p` for a physical address p below 256 MB. */
  lemma DirectAddress(physbase: nat, p: nat)
    requires physbase < MAX_PHY_MEM && p < MAX_PHY_MEM
    ensures Or(And(VIRT_OFFSET + physbase, VIRT_BASE), p) == VIRT_OFFSET + p < W64
  {
    DirectBase(physbase);
    DirectOr(p);
  }

  lemma DirectOr(p: nat)
    requires p < MAX_PHY_MEM
    ensures Or(VIRT_OFFSET, p) == VIRT_OFFSET + p < W64
  {
    Pow2Values();
    OrDisjoint(VIRT_OFFSET, p, 28);
  }

  lemma DirectBase(physbase: nat)
    requires physbase < MAX_PHY_MEM
    ensures And(VIRT_OFFSET + physbase, VIRT_BASE) == VIRT_OFFSET
  {
    var a := VIRT_OFFSET + physbase;
    AlignDown(a);
    DivModUnique(a, MAX_PHY_MEM, 0xF_FFFF_FFF8, physbase);
  }

  lemma DirectVpn(p: nat)
    requires p < MAX_PHY_MEM
    ensures Vpn(VIRT_OFFSET + p) == FIRST_PAGE + p / PAGE_SIZE && OutsideSlot(VIRT_OFFSET + p)
    ensures PhyToVirt(p) == VIRT_OFFSET + p
  {
    var low := 0xFFFF_8000_0000 + p;
    DivModUnique(VIRT_OFFSET + p, 0x1_0000_0000_0000, 0xFFFF, low);
    DivModUnique(low, 0x1000, FIRST_PAGE + p / PAGE_SIZE, p % PAGE_SIZE);
    DirectTables(p / PAGE_SIZE);
  }

  /** One round of the loops of `setup_page_tables`: the entry of frame p, in the page table of
      page FIRST_PAGE + lo. */
  lemma DirectEntry(b: Bytes, ram: Ram, s: Space, lo: nat, p: nat)
    requires Core(b, ram, s) && p < MAX_PHY_MEM && p % PAGE_SIZE == 0 && lo < 0x1_0000
    requires PtNode(FIRST_PAGE + lo) in s
    ensures var v, f := PageInTable(lo, p / PAGE_SIZE), p / PAGE_SIZE;
            var ram' := Wr(ram, s[PtNode(FIRST_PAGE + lo)], GetPTIndex(VIRT_OFFSET + p), WithFlags(p));
            && Core(b, ram', s[PageNode(v) := f]) && (AllBlank(b, ram) ==> AllBlank(b, ram'))
            && (Separate(b, s) && Mappable(b, s, f) ==> Separate(b, s[PageNode(v) := f]))
  {
    hide Core, Separate, AllBlank, WithFlags, GetPTIndex, Wr, PageInTable, Mappable;
    var v := PageInTable(lo, p / PAGE_SIZE);
    OwnEntry(lo, p / PAGE_SIZE);
    assert GetPTIndex(VIRT_OFFSET + p) == v % 512 by { DirectIndex(p); }
    assert Ordinary(0, v) by { OrdinaryPage(lo, v); }
    assert PtNode(v) == PtNode(FIRST_PAGE + lo);
    InstallPage(b, ram, s, v, p);
  }

  lemma DirectIndex(p: nat)
    requires p < MAX_PHY_MEM
    ensures GetPTIndex(VIRT_OFFSET + p) == p / PAGE_SIZE % 512
  {
    var a := VIRT_OFFSET + p;
    assert Vpn(a) == FIRST_PAGE + p / PAGE_SIZE by { DirectVpn(p); }
    assert GetPTIndex(a) == Vpn(a) % 512 by { IndexMeaning(a); }
    hide GetPTIndex, Vpn;
    FirstPlus(p / PAGE_SIZE);
  }

  lemma FirstPlus(k: nat)
    ensures (FIRST_PAGE + k) % 512 == k % 512
  {
  }

  lemma OrdinaryPage(lo: nat, v: nat)
    requires lo < 0x1_0000 && v / 512 == (FIRST_PAGE + lo) / 512
    ensures Ordinary(0, v)
  {
    DirectTables(lo);
    assert v / 512 / 512 == 0x3_FFFE && v / 512 / 512 / 512 == 511;
    assert Ordinary(2, v / 512 / 512);
  }

  /** The same, in the middle of the loop: i frames from base on are entered already. */
  lemma DirectStep(b: Bytes, ram: Ram, s: Space, base: nat, i: nat)
    requires base % PAGE_SIZE == 0 && PtNode(FIRST_PAGE + base / PAGE_SIZE) in s
    requires Core(b, ram, DirectMap(s, base / PAGE_SIZE, i)) && base + PAGE_SIZE * i < MAX_PHY_MEM
    ensures var t, lo := base + PAGE_SIZE * i, base / PAGE_SIZE;
            var ram' := Wr(ram, s[PtNode(FIRST_PAGE + lo)], GetPTIndex(Or(VIRT_OFFSET, t)), WithFlags(t));
            && Core(b, ram', DirectMap(s, lo, i + 1)) && (AllBlank(b, ram) ==> AllBlank(b, ram'))
            && (Separate(b, DirectMap(s, lo, i)) && Mappable(b, s, lo + i) ==> Separate(b, DirectMap(s, lo, i + 1)))
  {
    hide Core, Separate, AllBlank, WithFlags, GetPTIndex, Or, Wr, DirectMap, EnteredAt, PageInTable;
    var t, lo := base + PAGE_SIZE * i, base / PAGE_SIZE;
    DirectMapMeaning(s, lo, i);
    DirectMapStep(s, lo, i);
    DirectOr(t);
    assert t / PAGE_SIZE == lo + i && t % PAGE_SIZE == 0 by { PageOfStep(base, i); }
    DirectEntry(b, ram, DirectMap(s, lo, i), lo, t);
  }

  lemma DirectMapStep(s: Space, lo: nat, i: nat)
    ensures DirectMap(s, lo, i + 1) == DirectMap(s, lo, i)[PageNode(PageInTable(lo, lo + i)) := lo + i]
  {
  }

  lemma PageOfStep(base: nat, i: nat)
    requires base % PAGE_SIZE == 0
    ensures var t := base + PAGE_SIZE * i; t / PAGE_SIZE == base / PAGE_SIZE + i && t % PAGE_SIZE == 0
  {
  }

  /** The loop runs once for each of the pages counted. */
  lemma CountMeaning(physbase: nat, physfree: nat, i: nat)
    ensures physbase + PAGE_SIZE * i <= physfree <==> i < PageCount(physbase, physfree)
    ensures physbase + PAGE_SIZE * i <= physfree ==>
              physbase / PAGE_SIZE <= physbase / PAGE_SIZE + i <= physfree / PAGE_SIZE
  {
  }

  lemma RegionOf(p: nat)
    ensures p / PAGE_SIZE / 512 == p / PT_SPAN
  {
  }

  /** Nothing else can have been mapped: what a page of the final space is. */
  predicate DirectlyMapped(v: nat, physbase: nat, physfree: nat) {
    InRun(v, physbase / PAGE_SIZE, PageCount(physbase, physfree)) || v == FIRST_PAGE + VIDEO_PAGE
  }

  /** Writing the recursive entry into a finished tree. */
  lemma CloseTree(b: Bytes, ram: Ram, s: Space)
    requires Core(b, ram, s)
    ensures var ram' := Wr(ram, s[ROOT], RECURSIVE_SLOT, WithFlags(s[ROOT] * PAGE_SIZE));
            Core(b, ram', s) && SelfEntry(ram', s) && (AllBlank(b, ram) ==> AllBlank(b, ram'))
  {
    var w := WithFlags(s[ROOT] * PAGE_SIZE);
    var ram' := Wr(ram, s[ROOT], RECURSIVE_SLOT, w);
    FlagsAreAdded(s[ROOT]);
    forall m, i | m in s && m.level >= 1 && i < 512 && (m != ROOT || i != RECURSIVE_SLOT)
      ensures Stands(s, m, i, Rd(ram', s[m], i))
    {
      assert Stands(s, m, i, Rd(ram, s[m], i));
      ReadAfterWrite(ram, s[ROOT], RECURSIVE_SLOT, w, s[m], i);
    }
    WriteToTable(b, ram, s, ROOT, RECURSIVE_SLOT, w);
  }

  /** The pages of the address space that `setup_page_tables` leaves. */
  ghost predicate ExactSpace(s: Space, physbase: nat, physfree: nat) {
    && (forall v: nat :: PageNode(v) in s <==> DirectlyMapped(v, physbase, physfree))
    && (forall v: nat | PageNode(v) in s :: v >= FIRST_PAGE && s[PageNode(v)] == v - FIRST_PAGE)
  }

  /** A map step of `setup_page_tables`: the tables of page lo, then n pages from lo on. */
  function WithRun(m: Vm, lo: nat, n: nat): Vm
    requires m.EnoughFor(FIRST_PAGE + lo)
  {
    var t := m.WithTables(TablesOf(FIRST_PAGE + lo));
    Vm(DirectMap(t.space, lo, n), t.supply)
  }

  lemma RootKept(m: Vm, lo: nat, n: nat)
    requires m.EnoughFor(FIRST_PAGE + lo) && ROOT in m.space
    ensures ROOT in WithRun(m, lo, n).space && WithRun(m, lo, n).space[ROOT] == m.space[ROOT]
  {
    WithTablesMeaning(m, TablesOf(FIRST_PAGE + lo));
    DirectMapMeaning(m.WithTables(TablesOf(FIRST_PAGE + lo)).space, lo, n);
  }

  /** The kernel range lies in the region of one page table, or is empty. */
  predicate OneRegion(physbase: nat, physfree: nat) {
    physfree < physbase || physbase / PT_SPAN == physfree / PT_SPAN
  }

  /** The pages after the kernel's run on an empty tree and the video page on top of it. */
  ghost predicate BothRuns(s: Space, physbase: nat, physfree: nat) {
    var p, n := physbase / PAGE_SIZE, PageCount(physbase, physfree);
    && (forall v: nat :: PageNode(v) in s <==> EnteredAt(p, n, v).Some? || v == FIRST_PAGE + VIDEO_PAGE)
    && (forall v: nat | PageNode(v) in s ::
          s[PageNode(v)] == if v == FIRST_PAGE + VIDEO_PAGE then VIDEO_PAGE else EnteredAt(p, n, v).value)
  }

  lemma KernelRun(root: nat, supply: seq<nat>, p: nat, n: nat)
    requires |supply| >= 3 && p < 0x1_0000
    ensures var m0 := Vm(map[ROOT := root], supply);
            && m0.EnoughFor(FIRST_PAGE + p)
            && var m := WithRun(m0, p, n);
            && m.supply == supply[3..]
            && (forall t: Node | t.level >= 1 :: t in m.space <==> t == ROOT || t in TablesOf(FIRST_PAGE + p))
            && (forall v: nat :: PageNode(v) in m.space <==> EnteredAt(p, n, v).Some?)
            && (forall v: nat | PageNode(v) in m.space :: m.space[PageNode(v)] == EnteredAt(p, n, v).value)
  {
    var m0 := Vm(map[ROOT := root], supply);
    KernelTables(root, supply, p);
    hide EnteredAt, DirectMap, Vm.WithTables, Vm.EnoughFor;
    DirectMapMeaning(m0.WithTables(TablesOf(FIRST_PAGE + p)).space, p, n);
  }

  lemma VideoRun(m: Vm, p: nat)
    requires p < 0x1_0000
    requires forall n: Node | n.level >= 1 :: n in m.space <==> n == ROOT || n in TablesOf(FIRST_PAGE + p)
    requires p / 512 == 0 || |m.supply| >= 1
    ensures m.EnoughFor(FIRST_PAGE + VIDEO_PAGE)
    ensures var t := WithRun(m, VIDEO_PAGE, 1);
            && t.supply == (if p / 512 == 0 then m.supply else m.supply[1..])
            && (forall v: nat :: PageNode(v) in t.space <==> PageNode(v) in m.space || v == FIRST_PAGE + VIDEO_PAGE)
            && (forall v: nat | PageNode(v) in t.space ::
                  t.space[PageNode(v)] == if v == FIRST_PAGE + VIDEO_PAGE then VIDEO_PAGE else m.space[PageNode(v)])
  {
    VideoTables(m, p);
    hide EnteredAt, DirectMap, Vm.WithTables, Vm.EnoughFor;
    DirectMapMeaning(m.WithTables(TablesOf(FIRST_PAGE + VIDEO_PAGE)).space, VIDEO_PAGE, 1);
    VideoEntry();
  }

  lemma AfterBoth(root: nat, supply: seq<nat>, physbase: nat, physfree: nat)
    requires |supply| >= BootTables(physbase) - 1 && physbase < MAX_PHY_MEM
    ensures var m0 := Vm(map[ROOT := root], supply);
            && m0.EnoughFor(FIRST_PAGE + physbase / PAGE_SIZE)
            && var m := WithRun(m0, physbase / PAGE_SIZE, PageCount(physbase, physfree));
            && m.EnoughFor(FIRST_PAGE + VIDEO_PAGE)
            && var t := WithRun(m, VIDEO_PAGE, 1);
            && t.supply == supply[BootTables(physbase) - 1..] && BothRuns(t.space, physbase, physfree)
  {
    hide EnteredAt, PageCount, WithRun, Vm.EnoughFor, TablesOf;
    var p, n := physbase / PAGE_SIZE, PageCount(physbase, physfree);
    KernelRun(root, supply, p, n);
    RegionOf(physbase);
    VideoRun(WithRun(Vm(map[ROOT := root], supply), p, n), p);
  }

  /** The virtual memory after both runs. */
  function BootVm(root: nat, supply: seq<nat>, physbase: nat, physfree: nat): Vm
    requires |supply| >= BootTables(physbase) - 1 && physbase < MAX_PHY_MEM
  {
    AfterBoth(root, supply, physbase, physfree);
    var m := WithRun(Vm(map[ROOT := root], supply), physbase / PAGE_SIZE, PageCount(physbase, physfree));
    WithRun(m, VIDEO_PAGE, 1)
  }

  /** Its pages are the ones intended if and only if the kernel range lies in one region; page 0xB8, counted
      from VIRT_OFFSET, is frame 0xB8 in any case. */
  lemma ExactAfterBoth(root: nat, supply: seq<nat>, physbase: nat, physfree: nat)
    requires |supply| >= BootTables(physbase) - 1 && physbase < MAX_PHY_MEM && physbase % PAGE_SIZE == 0
    ensures var t := BootVm(root, supply, physbase, physfree);
            && t.supply == supply[BootTables(physbase) - 1..] && BothRuns(t.space, physbase, physfree)
            && (ExactSpace(t.space, physbase, physfree) <==> OneRegion(physbase, physfree))
            && (!OneRegion(physbase, physfree) ==> PageNode(PastRegion(physbase)) !in t.space)
            && PageNode(0xF_FFF8_00B8) in t.space && t.space[PageNode(0xF_FFF8_00B8)] == 0xB8
  {
    AfterBoth(root, supply, physbase, physfree);
    hide ExactSpace, BothRuns, PageCount, OneRegion;
    PagesAfterBoth(BootVm(root, supply, physbase, physfree).space, physbase, physfree);
  }

  /** The first page behind the region of physbase. */
  function PastRegion(physbase: nat): nat {
    FIRST_PAGE + (physbase / PT_SPAN + 1) * 512
  }

  lemma VideoEntry()
    ensures forall v: nat ::
              EnteredAt(VIDEO_PAGE, 1, v) == if v == FIRST_PAGE + VIDEO_PAGE then Some(VIDEO_PAGE) else None
  {
    forall v: nat
      ensures EnteredAt(VIDEO_PAGE, 1, v) == if v == FIRST_PAGE + VIDEO_PAGE then Some(VIDEO_PAGE) else None
    {
      EnteredInRegion(VIDEO_PAGE, 1, v);
    }
  }

  lemma PagesAfterBoth(s: Space, physbase: nat, physfree: nat)
    requires physbase < MAX_PHY_MEM && physbase % PAGE_SIZE == 0
    requires BothRuns(s, physbase, physfree)
    ensures ExactSpace(s, physbase, physfree) <==> OneRegion(physbase, physfree)
    ensures !OneRegion(physbase, physfree) ==> PageNode(PastRegion(physbase)) !in s
    ensures PageNode(0xF_FFF8_00B8) in s && s[PageNode(0xF_FFF8_00B8)] == 0xB8
  {
    var p, n := physbase / PAGE_SIZE, PageCount(physbase, physfree);
    if OneRegion(physbase, physfree) {
      RunInRegion(physbase, physfree);
      forall v: nat ensures EnteredAt(p, n, v) == if InRun(v, p, n) then Some(v - FIRST_PAGE) else None {
        EnteredInRegion(p, n, v);
      }
    } else {
      var v := PastRegion(physbase);
      RunPastRegion(physbase, physfree);
      EnteredNearby(p, n, v);
      assert !(PageNode(v) in s <==> DirectlyMapped(v, physbase, physfree));
    }
  }

  lemma RunInRegion(physbase: nat, physfree: nat)
    requires OneRegion(physbase, physfree)
    ensures var p, n := physbase / PAGE_SIZE, PageCount(physbase, physfree); n == 0 || p / 512 == (p + n - 1) / 512
  {
    if physbase <= physfree {
      RegionOf(physbase);
      RegionOf(physfree);
      CountMeaning(physbase, physfree, PageCount(physbase, physfree) - 1);
      Between(physbase / PAGE_SIZE, physbase / PAGE_SIZE + PageCount(physbase, physfree) - 1, physfree / PAGE_SIZE);
    }
  }

  lemma RunPastRegion(physbase: nat, physfree: nat)
    requires physbase % PAGE_SIZE == 0 && !OneRegion(physbase, physfree)
    ensures InRun(PastRegion(physbase), physbase / PAGE_SIZE, PageCount(physbase, physfree))
    ensures PastRegion(physbase) / 512 != (FIRST_PAGE + physbase / PAGE_SIZE) / 512
    ensures PastRegion(physbase) != FIRST_PAGE + VIDEO_PAGE
  {
    RegionOf(physbase);
    RegionOf(physfree);
  }

  /** No page of the range physbase .. physfree may be handed out. */
  ghost predicate Reserves(b: Bytes, physbase: nat, physfree: nat)
    requires |b| == MAX_PAGES
  {
    forall p: nat | physbase / PAGE_SIZE <= p <= physfree / PAGE_SIZE :: p >= MAX_PAGES || !Allocatable(b, p)
  }

  /** The page of an address, counted from VIRT_OFFSET. */
  lemma PageFromOffset(va: nat)
    requires Canonical(va)
    ensures if va >= 0xFFFF_FFFF_8000_0000 then Vpn(va) == FIRST_PAGE + (va - 0xFFFF_FFFF_8000_0000) / 0x1000
            else Vpn(va) < FIRST_PAGE
  {
    if va >= 0xFFFF_8000_0000_0000 {
      var low := va - 0xFFFF_0000_0000_0000;
      DivModUnique(va, 0x1_0000_0000_0000, 0xFFFF, low);
    }
  }

  /** The run in page numbers: its end is included. */
  lemma RunIsRange(physbase: nat, physfree: nat, p: nat)
    requires physbase % PAGE_SIZE == 0
    ensures DirectlyMapped(FIRST_PAGE + p, physbase, physfree) <==>
            physbase / 0x1000 <= p <= physfree / 0x1000 || p == 0xB8
  {
  }

  lemma RunIsHigh(v: nat, physbase: nat, physfree: nat)
    requires v < FIRST_PAGE
    ensures !DirectlyMapped(v, physbase, physfree)
  {
  }

  /** The hardware's view of the exact space, in addresses: the pages of the kernel range and page 0xB8,
      at their physical addresses plus VIRT_OFFSET. */
  lemma ExactTranslation(ram: Ram, s: Space, physbase: nat, physfree: nat)
    requires Tree(ram, s) && ExactSpace(s, physbase, physfree) && physbase % PAGE_SIZE == 0
    ensures forall va: nat | Canonical(va) && OutsideSlot(va) ::
              Translate(ram, s[ROOT], va) ==
              var p: int := (va - 0xFFFF_FFFF_8000_0000) / 0x1000;
              if va >= 0xFFFF_FFFF_8000_0000 && (physbase / 0x1000 <= p <= physfree / 0x1000 || p == 0xB8)
              then At(p, true, true) else Fault
  {
    forall va: nat | Canonical(va) && OutsideSlot(va)
      ensures Translate(ram, s[ROOT], va) ==
              var p: int := (va - 0xFFFF_FFFF_8000_0000) / 0x1000;
              if va >= 0xFFFF_FFFF_8000_0000 && (physbase / 0x1000 <= p <= physfree / 0x1000 || p == 0xB8)
              then At(p, true, true) else Fault
    {
      hide Tree, Translate, Vpn, Canonical, OutsideSlot, DirectlyMapped;
      TranslateMeaning(ram, s, va);
      PageFromOffset(va);
      if va >= 0xFFFF_FFFF_8000_0000 {
        RunIsRange(physbase, physfree, (va - 0xFFFF_FFFF_8000_0000) / 0x1000);
      } else {
        RunIsHigh(Vpn(va), physbase, physfree);
      }
    }
  }

  /** The video page, at a number. */
  lemma VideoTranslation(ram: Ram, s: Space)
    requires Tree(ram, s) && PageNode(0xF_FFF8_00B8) in s && s[PageNode(0xF_FFF8_00B8)] == 0xB8
    ensures Translate(ram, s[ROOT], 0xFFFF_FFFF_800B_8000) == At(0xB8, true, true)
  {
    DirectVpn(0xB8000);
    TranslateMeaning(ram, s, 0xFFFF_FFFF_800B_8000);
  }

  /** What it sees behind the region of physbase when that page is not mapped. */
  lemma PastRegionFaults(ram: Ram, s: Space, physbase: nat)
    requires Tree(ram, s) && physbase < MAX_PHY_MEM && PageNode(PastRegion(physbase)) !in s
    ensures Translate(ram, s[ROOT], VIRT_OFFSET + (physbase / PT_SPAN + 1) * PT_SPAN) == Fault
  {
    hide Tree, Translate;
    var k := physbase / PT_SPAN + 1;
    RegionAddress(k);
    TranslateMeaning(ram, s, VIRT_OFFSET + k * PT_SPAN);
  }

  lemma RegionAddress(k: nat)
    requires k <= 128
    ensures var va := VIRT_OFFSET + k * PT_SPAN;
            Canonical(va) && OutsideSlot(va) && Vpn(va) == FIRST_PAGE + k * 512
  {
    var p := FIRST_PAGE + k * 512;
    DivModUnique(VIRT_OFFSET + k * PT_SPAN, 0x1_0000_0000_0000, 0xFFFF, p * 0x1000);
    assert p / 512 == 0x7FF_FC00 + k && p / 512 / 512 / 512 == 511;
  }
}
