/** The running kernel: page tables edited through the recursive slot, and the kernel heap. */
module KernelMemory {
  import opened Bits
  import opened Paging
  import opened AddressSpace
  import opened FrameBitmap
  import opened Options
  import opened AllocatorRuns
  import opened MemoryState
  import opened Pmap
  import Heap
  import HeapRuns
  import opened Boot

  /** The entry of table n's parent that stands for n, read and masked as the code does. */
  lemma EntryOf(ram: Ram, s: Space, n: Node)
    requires Tree(ram, s) && 1 <= n.level < 4 && Ordinary(n.level, n.prefix) && Parent(n) in s
    ensures var e := Rd(ram, s[Parent(n)], n.prefix % 512);
            And(e, PAGE_ALIGN) == if n in s then s[n] * 0x1000 else 0
    ensures n in s ==> s[n] > 0
  {
    ParentEntry(ram, s, n);
    if n in s {
      EntryAddress(s[n]);
    } else {
      DeadAddress(Rd(ram, s[Parent(n)], n.prefix % 512));
    }
  }

  lemma DeadAddress(w: nat)
    requires w < 0x1000
    ensures And(w, PAGE_ALIGN) == 0
  {
    AlignDown(w);
  }

  /** The virtual address `entry` is that of the entry standing for node n in its parent table. */
  predicate NamesEntry(ram: Ram, s: Space, n: Node, entry: nat)
    requires ROOT in s
  {
    && n.level < 4 && Ordinary(n.level, n.prefix) && Parent(n) in s
    && Translate(ram, s[ROOT], entry) == At(s[Parent(n)], true, true)
    && entry % 0x1000 / 8 == n.prefix % 512
  }

  lemma PdpEntry(ram: Ram, s: Space, va: nat)
    requires Tree(ram, s) && SelfEntry(ram, s) && va < W64 && OutsideSlot(va)
    ensures NamesEntry(ram, s, PdpNode(Vpn(va)), Pml4Addr() + 8 * GetPML4Index(va))
  {
    var n, i := PdpNode(Vpn(va)), GetPML4Index(va);
    assert Ordinary(n.level, n.prefix) by { OutsideIsOrdinary(va); }
    assert i == n.prefix % 512 && Parent(n) == ROOT by { TopIndex(va); }
    NamesTopEntry(ram, s, n, i);
  }

  lemma TopIndex(va: nat)
    requires va < W64
    ensures GetPML4Index(va) == PdpNode(Vpn(va)).prefix % 512 && Parent(PdpNode(Vpn(va))) == ROOT
  {
    IndexMeaning(va);
    OneDigit(PdpNode(Vpn(va)).prefix);
  }

  lemma OneDigit(i: nat)
    requires i < 512
    ensures i / 512 == 0 && i % 512 == i
  {
  }

  lemma NamesTopEntry(ram: Ram, s: Space, n: Node, i: nat)
    requires Tree(ram, s) && SelfEntry(ram, s)
    requires n.level < 4 && Ordinary(n.level, n.prefix) && Parent(n) == ROOT
    requires i == n.prefix % 512
    ensures NamesEntry(ram, s, n, Pml4Addr() + 8 * i)
  {
    assert Translate(ram, s[ROOT], Pml4Addr() + 8 * i) == At(s[ROOT], true, true)
           && (Pml4Addr() + 8 * i) % 0x1000 / 8 == i by {
      TreeIsSelfMapped(ram, s);
      ViaPml4(ram, s[ROOT], i);
    }
  }

  lemma PdEntry(ram: Ram, s: Space, va: nat)
    requires Tree(ram, s) && SelfEntry(ram, s) && va < W64 && OutsideSlot(va) && PdpNode(Vpn(va)) in s
    ensures NamesEntry(ram, s, PdNode(Vpn(va)), PdpBase(va) + 8 * GetPDPIndex(va))
  {
    var n, i := PdNode(Vpn(va)), GetPDPIndex(va);
    assert Ordinary(n.level, n.prefix) by { OutsideIsOrdinary(va); }
    assert i == n.prefix % 512 && i < 512 && Parent(n) == PdpNode(Vpn(va)) by {
      IndexMeaning(va);
      SlotBounds(Vpn(va));
    }
    TreeIsSelfMapped(ram, s);
    ViaPdp(ram, s[ROOT], va, i);
    LeafMeaning(ram, s, PdpNode(Vpn(va)));
  }

  lemma PtEntry(ram: Ram, s: Space, va: nat)
    requires Tree(ram, s) && SelfEntry(ram, s) && va < W64 && OutsideSlot(va) && PdNode(Vpn(va)) in s
    ensures NamesEntry(ram, s, PtNode(Vpn(va)), PdBase(va) + 8 * GetPDIndex(va))
  {
    var n, i := PtNode(Vpn(va)), GetPDIndex(va);
    assert Ordinary(n.level, n.prefix) by { OutsideIsOrdinary(va); }
    assert i == n.prefix % 512 && i < 512 && Parent(n) == PdNode(Vpn(va)) by {
      IndexMeaning(va);
      SlotBounds(Vpn(va));
    }
    TreeIsSelfMapped(ram, s);
    ViaPd(ram, s[ROOT], va, i);
    LeafMeaning(ram, s, PdNode(Vpn(va)));
  }

  lemma PageEntry(ram: Ram, s: Space, va: nat)
    requires Tree(ram, s) && SelfEntry(ram, s) && va < W64 && OutsideSlot(va) && PtNode(Vpn(va)) in s
    ensures NamesEntry(ram, s, PageNode(Vpn(va)), PtBase(va) + 8 * GetPTIndex(va))
  {
    var n, i := PageNode(Vpn(va)), GetPTIndex(va);
    assert Ordinary(n.level, n.prefix) by { OutsideIsOrdinary(va); }
    assert i == n.prefix % 512 && i < 512 && Parent(n) == PtNode(Vpn(va)) by {
      IndexMeaning(va);
      SlotBounds(Vpn(va));
    }
    TreeIsSelfMapped(ram, s);
    ViaPt(ram, s[ROOT], va, i);
    LeafMeaning(ram, s, PtNode(Vpn(va)));
  }

  /** A block of `mmap` at entry i of the table at frame f: an entry that masks to 0 comes to name the
      new page g, and any other is taken for a table that is there. */
  function AfterBlock(ram: Ram, f: nat, i: nat, g: nat): Ram {
    if And(Rd(ram, f, i), PAGE_ALIGN) == 0 then Wr(ram, f, i, g * 0x1000 + 7) else ram
  }

  /** Next is the address of an entry in table c, by which `mmap` goes on behind the block of c. */
  predicate Reaches(va: nat, c: Node, next: nat) {
    || (c == PdNode(Vpn(va)) && next == PdBase(va) + 8 * GetPDIndex(va))
    || (c == PtNode(Vpn(va)) && next == PtBase(va) + 8 * GetPTIndex(va))
  }

  /** `mmap` has installed frame f, not cleared, as the table above c, and has passed the block of c.
      Its next access goes to the new page if the entry that f held for c masks to 0. If not, it goes where
      that entry says, and faults when bit 0 is clear. */
  lemma StaleEntry(ram: Ram, s: Space, va: nat, c: Node, next: nat, f: nat, g: nat)
    requires CanLink(ram, s, Parent(c), f) && SelfEntry(ram, s) && g < 0x100_0000_0000
    requires va < W64 && OutsideSlot(va) && Reaches(va, c, next)
    ensures var n, i := Parent(c), c.prefix % 512;
            var ram' := AfterBlock(Wr(ram, s[Parent(n)], n.prefix % 512, f * 0x1000 + 7), f, i, g);
            var x := Translate(ram', s[ROOT], next);
            && x == (if And(Rd(ram, f, i), PAGE_ALIGN) == 0 then At(g, true, true)
                     else Step(ram, At(f, true, true), i, true))
            && (And(Rd(ram, f, i), PAGE_ALIGN) != 0 && Rd(ram, f, i) % 2 == 0 ==> x == Fault)
  {
    var root := s[ROOT];
    hide Reaches, Tree, OutsideSlot, Wr, AfterBlock, And, Translate, Step, SelfEntry;
    var n, i := Parent(c), c.prefix % 512;
    var ram' := AfterBlock(Wr(ram, s[Parent(n)], n.prefix % 512, f * 0x1000 + 7), f, i, g);
    StaleLeaf(ram, s, n, c, i, f, g);
    NextAccess(ram', root, va, c, next);
  }

  lemma StaleLeaf(ram: Ram, s: Space, n: Node, c: Node, i: nat, f: nat, g: nat)
    requires n == Parent(c) && i == c.prefix % 512
    requires CanLink(ram, s, n, f) && SelfEntry(ram, s) && g < 0x100_0000_0000
    ensures var ram' := AfterBlock(Wr(ram, s[Parent(n)], n.prefix % 512, f * 0x1000 + 7), f, i, g);
            var x := Leaf(ram', s[ROOT], c.level, c.prefix);
            && SelfMapped(ram', s[ROOT])
            && x == (if And(Rd(ram, f, i), PAGE_ALIGN) == 0 then At(g, true, true)
                     else Step(ram, At(f, true, true), i, true))
            && (Rd(ram, f, i) % 2 == 0 ==> Step(ram, At(f, true, true), i, true) == Fault)
  {
    var ram' := AfterBlock(Wr(ram, s[Parent(n)], n.prefix % 512, f * 0x1000 + 7), f, i, g);
    hide AfterBlock, And, Leaf, SelfMapped, Step, Reach, SelfEntry, Wr, Linked;
    BlockWords(ram, s, n, f, i, g);
    WalkArrives(ram, ram', s, n, f);
    LastStep(ram', s[ROOT], c, f);
    BlockStep(ram, ram', f, i, g);
  }

  lemma LastStep(ram: Ram, root: nat, c: Node, f: nat)
    requires Reach(ram, root, c.level + 1, c.prefix / 512) == At(f, true, true)
    ensures Leaf(ram, root, c.level, c.prefix) == Step(ram, At(f, true, true), c.prefix % 512, true)
  {
  }

  lemma BlockStep(ram: Ram, ram': Ram, f: nat, i: nat, g: nat)
    requires g < 0x100_0000_0000
    requires Rd(ram', f, i) == if And(Rd(ram, f, i), PAGE_ALIGN) == 0 then g * 0x1000 + 7 else Rd(ram, f, i)
    ensures Step(ram', At(f, true, true), i, true) ==
            if And(Rd(ram, f, i), PAGE_ALIGN) == 0 then At(g, true, true) else Step(ram, At(f, true, true), i, true)
    ensures Rd(ram, f, i) % 2 == 0 ==> Step(ram, At(f, true, true), i, true) == Fault
  {
    if And(Rd(ram, f, i), PAGE_ALIGN) == 0 { FollowEntry(ram', f, i, true, g); }
  }

  /** The recursive access to a table that the walk of va would pass goes where its entry says. */
  lemma NextAccess(ram: Ram, root: nat, va: nat, c: Node, next: nat)
    requires SelfMapped(ram, root) && va < W64 && Reaches(va, c, next)
    ensures Translate(ram, root, next) == Leaf(ram, root, c.level, c.prefix)
  {
    hide Translate, SelfMapped, PdBase, PtBase, Leaf, GetPDIndex, GetPTIndex;
    assert GetPDIndex(va) < 512 && GetPTIndex(va) < 512 by { IndexMeaning(va); }
    if c.level == 2 {
      ViaPd(ram, root, va, GetPDIndex(va));
    } else {
      ViaPt(ram, root, va, GetPTIndex(va));
    }
  }

  lemma BlockWords(ram: Ram, s: Space, n: Node, f: nat, i: nat, g: nat)
    requires CanLink(ram, s, n, f) && SelfEntry(ram, s) && i < 512
    ensures var ram' := AfterBlock(Wr(ram, s[Parent(n)], n.prefix % 512, f * 0x1000 + 7), f, i, g);
            && Linked(ram, ram', s, n, f) && SelfMapped(ram', s[ROOT])
            && Rd(ram', f, i) == if And(Rd(ram, f, i), PAGE_ALIGN) == 0 then g * 0x1000 + 7 else Rd(ram, f, i)
  {
    var ram' := AfterBlock(Wr(ram, s[Parent(n)], n.prefix % 512, f * 0x1000 + 7), f, i, g);
    hide And;
    assert Rd(ram', s[ROOT], RECURSIVE_SLOT) == s[ROOT] * 0x1000 + 7;
    FollowEntry(ram', s[ROOT], RECURSIVE_SLOT, false, s[ROOT]);
  }

  /** Two memories that hold the same tree translate alike. */
  lemma SameTranslations(ram: Ram, ram': Ram, s: Space)
    requires Tree(ram, s) && Tree(ram', s)
    ensures Alike(ram, ram', s[ROOT])
  {
    forall a | Canonical(a) && OutsideSlot(a) ensures Translate(ram', s[ROOT], a) == Translate(ram, s[ROOT], a) {
      TranslateMeaning(ram, s, a);
      TranslateMeaning(ram', s, a);
    }
  }

  /** The hardware's view of a simple map update. */
  lemma TranslateAfterMap(ram: Ram, m: Vm, ram': Ram, v: nat, f: nat)
    requires Tree(ram, m.space) && m.EnoughFor(v) && Tree(ram', m.Map(v, f).space)
    ensures m.Map(v, f).space[ROOT] == m.space[ROOT]
    ensures forall va | Canonical(va) && OutsideSlot(va) ::
              Translate(ram', m.space[ROOT], va) == if Vpn(va) == v then At(f, true, true)
                                                    else Translate(ram, m.space[ROOT], va)
  {
    MapMeaning(m, v, f);
    forall va | Canonical(va) && OutsideSlot(va)
      ensures Translate(ram', m.space[ROOT], va) == if Vpn(va) == v then At(f, true, true)
                                                    else Translate(ram, m.space[ROOT], va)
    {
      TranslateMeaning(ram, m.space, va);
      TranslateMeaning(ram', m.Map(v, f).space, va);
    }
  }

  lemma TableIndices(va: nat)
    requires va < W64 && OutsideSlot(va)
    ensures var v := Vpn(va);
            && Parent(PdpNode(v)) == ROOT && Parent(PdNode(v)) == PdpNode(v) && Parent(PtNode(v)) == PdNode(v)
            && PdpNode(v).prefix % 512 == GetPML4Index(va)
            && PdNode(v).prefix % 512 == GetPDPIndex(va)
            && PtNode(v).prefix % 512 == GetPDIndex(va)
            && v % 512 == GetPTIndex(va)
            && Ordinary(3, PdpNode(v).prefix) && Ordinary(2, PdNode(v).prefix) && Ordinary(1, PtNode(v).prefix)
  {
    TopIndex(va);
    IndexMeaning(va);
    OutsideIsOrdinary(va);
  }

  /** Word `index` of the table at physical address `table` is the entry of node n. */
  predicate EntryAt(s: Space, n: Node, table: nat, index: nat) {
    && n.level < 4 && Ordinary(n.level, n.prefix) && Parent(n) in s
    && table == s[Parent(n)] * PAGE_SIZE && index == n.prefix % 512
  }

  lemma EntriesAt(s: Space, va: nat)
    requires va < W64 && OutsideSlot(va)
    ensures var v := Vpn(va);
            && (ROOT in s ==> EntryAt(s, PdpNode(v), s[ROOT] * PAGE_SIZE, GetPML4Index(va)))
            && (PdpNode(v) in s ==> EntryAt(s, PdNode(v), s[PdpNode(v)] * PAGE_SIZE, GetPDPIndex(va)))
            && (PdNode(v) in s ==> EntryAt(s, PtNode(v), s[PdNode(v)] * PAGE_SIZE, GetPDIndex(va)))
            && (PtNode(v) in s ==> EntryAt(s, PageNode(v), s[PtNode(v)] * PAGE_SIZE, GetPTIndex(va)))
  {
    TableIndices(va);
    OutsideIsOrdinary(va);
  }

  /** A write changes one word of RAM. */
  lemma WordsAfterWrite(ram: Ram, f: nat, i: nat, w: nat)
    requires WellSized(ram) && i < 512
    ensures f < |ram| ==> Rd(Wr(ram, f, i, w), f, i) == w
    ensures forall g: nat, j: nat | g != f || j != i :: Rd(Wr(ram, f, i, w), g, j) == Rd(ram, g, j)
    ensures |Wr(ram, f, i, w)| == |ram|
  {
  }

  lemma MappedFrame(ram: Ram, b: Bytes, s: Space, va: nat)
    requires Core(b, ram, s) && Canonical(va) && OutsideSlot(va) && Translate(ram, s[ROOT], va).At?
    ensures PageNode(Vpn(va)) in s && s[PageNode(Vpn(va))] == Translate(ram, s[ROOT], va).frame
    ensures Translate(ram, s[ROOT], va).rw && WellSized(ram) && va % 0x1000 / 8 < 512
  {
    TranslateMeaning(ram, s, va);
  }

  lemma CoreTranslations(b: Bytes, ram: Ram, ram': Ram, s: Space)
    requires Core(b, ram, s) && Core(b, ram', s)
    ensures Alike(ram, ram', s[ROOT])
  {
    SameTranslations(ram, ram', s);
  }

  class Kernel {
    const pmap: FreeList
    var ram: Ram
    var cr3: nat            // the frame of the top table
    ghost var space: Space  // the tree that RAM holds

    /** RAM holds the tree; the recursive slot and CR3 may not be set yet. */
    ghost predicate Built()
      reads this, pmap, pmap.freePagesList
    {
      pmap.Valid() && Core(pmap.freePagesList[..], ram, space)
    }

    /** Paging is on, with the recursive slot in place. */
    ghost predicate Valid()
      reads this, pmap, pmap.freePagesList
    {
      Built() && SelfEntry(ram, space) && space[ROOT] == cr3
    }

    /** Every page still to be handed out holds dead words only: what `mmap` relies on. */
    ghost predicate Clean()
      requires Built()
      reads this, pmap, pmap.freePagesList
    {
      AllBlank(pmap.freePagesList[..], ram)
    }

    /** The tree, and the pages the coming `kmalloc_mem` calls will return. */
    ghost function View(): Vm
      requires Built()
      reads this, pmap, pmap.freePagesList
    {
      Vm(space, Supply(pmap.freePagesList[..]))
    }

    ghost predicate Safe()
      requires Built()
      reads this, pmap, pmap.freePagesList
    {
      Separate(pmap.freePagesList[..], space)
    }

    /** The kernel before paging: no tables yet. */
    constructor (freeList: FreeList, memory: Ram)
      ensures pmap == freeList && ram == memory
    {
      pmap := freeList;
      ram := memory;
      cr3 := 0;
      space := map[];
    }

    /** The word that the hardware finds at a virtual address. */
    ghost function WordAt(va: nat): nat
      requires Translate(ram, cr3, va).At?
      reads this
    {
      Rd(ram, Translate(ram, cr3, va).frame, va % 0x1000 / 8)
    }

    /** A word load by virtual address; the address must translate. */
    method Load(va: nat) returns (w: nat)
      requires Translate(ram, cr3, va).At?
      ensures w == WordAt(va)
    {
      w := Rd(ram, Translate(ram, cr3, va).frame, va % 0x1000 / 8);
    }

    /** A word store by virtual address; the address must translate to a writable page. */
    method Store(va: nat, w: nat)
      requires Translate(ram, cr3, va).At? && Translate(ram, cr3, va).rw
      modifies this`ram
      ensures ram == Wr(old(ram), old(Translate(ram, cr3, va)).frame, va % 0x1000 / 8, w)
    {
      ram := Wr(ram, Translate(ram, cr3, va).frame, va % 0x1000 / 8, w);
    }

    /** One of the three blocks of `mmap`: reads the entry of table n at virtual address
        `entry`, and installs a page there when it holds no address. */
    method EnsureTable(ghost n: Node, entry: nat)
      requires Valid() && Clean() && NamesEntry(ram, space, n, entry) && n.level >= 1
      requires |View().supply| >= Absent(space, n)
      modifies this`ram, this`space, pmap.freePagesList
      ensures Valid() && Clean() && Keeps(old(pmap.freePagesList[..]), old(space), pmap.freePagesList[..], space)
      ensures View() == old(View()).WithTable(n) && Drawn(old(pmap.freePagesList[..]), pmap.freePagesList[..])
    {
      DrawnNone(pmap.freePagesList[..]);
      assert And(Rd(ram, space[Parent(n)], n.prefix % 512), PAGE_ALIGN) == 0 <==> n !in space by {
        EntryOf(ram, space, n);
      }
      var e := Load(entry);
      var table := And(e, PAGE_ALIGN);
      if table == 0 {
        InstallNewPage(n, entry);
      }
    }

    /** The body of the block: a page from the allocator, written with its flags. */
    method InstallNewPage(ghost n: Node, entry: nat)
      requires Valid() && Clean() && NamesEntry(ram, space, n, entry) && n.level >= 1 && n !in space
      requires View().supply != []
      modifies this`ram, this`space, pmap.freePagesList
      ensures Valid() && Clean() && Keeps(old(pmap.freePagesList[..]), old(space), pmap.freePagesList[..], space)
      ensures View() == old(View()).WithTable(n) && Drawn(old(pmap.freePagesList[..]), pmap.freePagesList[..])
    {
      hide Translate, WithFlags, Take, Pick, Core, Supply, Keeps, Wr, Stops, Ordinary, Allocatable, Drawn;
      ghost var p := View().supply[0];
      TakeKeepsCore(pmap.freePagesList[..], ram, space);
      InstallTable(pmap.freePagesList[..], ram, space, n);
      var newpage := NextPage();
      Store(entry, WithFlags(newpage));
      space := space[n := p];
    }

    /** `kmalloc_mem`, when there is a page left. */
    method NextPage() returns (newpage: nat)
      requires Built() && View().supply != []
      modifies pmap.freePagesList
      ensures pmap.Valid() && newpage == old(View()).supply[0] * PAGE_SIZE
      ensures pmap.freePagesList[..] == Take(old(pmap.freePagesList[..]), KERNEL_FIRST)
      ensures Drawn(old(pmap.freePagesList[..]), pmap.freePagesList[..])
    {
      DrawnOne(pmap.freePagesList[..]);
      hide Drawn;
      TakeOne(pmap.freePagesList[..]);
      newpage := pmap.KmallocMem();
    }

    /** The first three blocks of `mmap`, each through its recursive address. */
    method EnsureTables(virt: nat)
      requires Valid() && Clean() && virt < W64 && OutsideSlot(virt)
      requires View().EnoughFor(Vpn(virt))
      modifies this`ram, this`space, pmap.freePagesList
      ensures Valid() && Clean() && Keeps(old(pmap.freePagesList[..]), old(space), pmap.freePagesList[..], space)
      ensures View() == old(View()).WithTables(TablesOf(Vpn(virt))) && PtNode(Vpn(virt)) in space
      ensures Drawn(old(pmap.freePagesList[..]), pmap.freePagesList[..])
    {
      hide Drawn;
      ghost var b := pmap.freePagesList[..];
      TablesInTurn(View(), Vpn(virt));
      PdpEntry(ram, space, virt);
      EnsureTable(PdpNode(Vpn(virt)), Pml4Addr() + 8 * GetPML4Index(virt));
      ghost var b1 := pmap.freePagesList[..];
      PdEntry(ram, space, virt);
      EnsureTable(PdNode(Vpn(virt)), PdpBase(virt) + 8 * GetPDPIndex(virt));
      ghost var b2 := pmap.freePagesList[..];
      DrawnMore(b, b1, b2);
      PtEntry(ram, space, virt);
      EnsureTable(PtNode(Vpn(virt)), PdBase(virt) + 8 * GetPDIndex(virt));
      DrawnMore(b, b2, pmap.freePagesList[..]);
    }

    /** The last statement of `mmap`, at the virtual address of the page's entry. */
    method SetPage(ghost v: nat, entry: nat, phy: nat)
      requires Valid() && NamesEntry(ram, space, PageNode(v), entry)
      requires phy % PAGE_SIZE == 0 && phy / PAGE_SIZE < 0x100_0000_0000
      modifies this`ram, this`space
      ensures Valid() && (old(Clean()) ==> Clean())
      ensures space == old(space)[PageNode(v) := phy / PAGE_SIZE]
      ensures old(Safe() && Mappable(pmap.freePagesList[..], space, phy / PAGE_SIZE)) ==> Safe()
    {
      InstallPage(pmap.freePagesList[..], ram, space, v, phy);
      Store(entry, WithFlags(phy));
      space := space[PageNode(v) := phy / PAGE_SIZE];
    }

    /** Maps the page of `virt` to the frame at `phy`: exactly that page of the ordinary
        address space changes, and every access on the way hits a present entry. */
    method Mmap(virt: nat, phy: nat)
      requires Valid() && Clean() && virt < W64 && OutsideSlot(virt)
      requires phy % PAGE_SIZE == 0 && phy / PAGE_SIZE < 0x100_0000_0000
      requires View().EnoughFor(Vpn(virt))
      modifies this`ram, this`space, pmap.freePagesList
      ensures Valid() && Clean() && Drawn(old(pmap.freePagesList[..]), pmap.freePagesList[..])
      ensures View() == old(View()).Map(Vpn(virt), phy / PAGE_SIZE)
      ensures forall va | Canonical(va) && OutsideSlot(va) ::
                Translate(ram, cr3, va) == if Vpn(va) == Vpn(virt) then At(phy / PAGE_SIZE, true, true)
                                           else old(Translate(ram, cr3, va))
      ensures old(Safe() && Mappable(pmap.freePagesList[..], space, phy / PAGE_SIZE)) ==> Safe()
    {
      hide Drawn;
      ghost var ram0, space0 := ram, space;
      ghost var m := View();
      EnsureTables(virt);
      PageEntry(ram, space, virt);
      SetPage(Vpn(virt), PtBase(virt) + 8 * GetPTIndex(virt), phy);
      TranslateAfterMap(ram0, m, ram, Vpn(virt), phy / PAGE_SIZE);
    }

    // ----- Building the tables by physical address, before paging -----

    /** One of the three blocks of `getPT`: returns the address of table n, whose entry is
        number `index` of the table at physical address `table`. */
    method GetTable(ghost n: Node, table: nat, index: nat) returns (next: nat)
      requires Built() && EntryAt(space, n, table, index) && n.level >= 1
      requires |View().supply| >= Absent(space, n)
      modifies this`ram, this`space, pmap.freePagesList
      ensures Built() && (old(Clean()) ==> Clean())
      ensures Keeps(old(pmap.freePagesList[..]), old(space), pmap.freePagesList[..], space)
      ensures View() == old(View()).WithTable(n)
      ensures next == space[n] * PAGE_SIZE
    {
      assert Tree(ram, space);
      KeepsSame(pmap.freePagesList[..], space);
      hide Core, AllBlank, Tree, Supply, Keeps, And, Rd, Ordinary;
      EntryOf(ram, space, n);
      next := And(Rd(ram, table / PAGE_SIZE, index), PAGE_ALIGN);
      if next == 0 {
        next := NewTable(n, table, index);
      }
    }

    method NewTable(ghost n: Node, table: nat, index: nat) returns (newpage: nat)
      requires Built() && EntryAt(space, n, table, index) && n.level >= 1 && n !in space
      requires View().supply != []
      modifies this`ram, this`space, pmap.freePagesList
      ensures Built() && (old(Clean()) ==> Clean())
      ensures Keeps(old(pmap.freePagesList[..]), old(space), pmap.freePagesList[..], space)
      ensures View() == old(View()).WithTable(n)
      ensures newpage == space[n] * PAGE_SIZE
    {
      hide WithFlags, Take, Pick, Memset;
      ghost var p := View().supply[0];
      MemsetKeepsCore(pmap.freePagesList[..], ram, space);
      InstallTable(pmap.freePagesList[..], Memset(ram, p), space, n);
      newpage := NextPage();
      assert newpage / PAGE_SIZE == p && table / PAGE_SIZE == space[Parent(n)];
      ram := Memset(ram, newpage / PAGE_SIZE);
      ram := Wr(ram, table / PAGE_SIZE, index, WithFlags(newpage));
      space := space[n := p];
    }

    /** `getPT`: the page table of `virt`, with the tables above it, made where missing. */
    method GetPT(pml4: nat, virt: nat) returns (pt: nat)
      requires Built() && pml4 == space[ROOT] * PAGE_SIZE && virt < W64 && OutsideSlot(virt)
      requires View().EnoughFor(Vpn(virt))
      modifies this`ram, this`space, pmap.freePagesList
      ensures Built() && (old(Clean()) ==> Clean())
      ensures Keeps(old(pmap.freePagesList[..]), old(space), pmap.freePagesList[..], space)
      ensures View() == old(View()).WithTables(TablesOf(Vpn(virt)))
      ensures PtNode(Vpn(virt)) in space && pt == space[PtNode(Vpn(virt))] * PAGE_SIZE
    {
      ghost var v := Vpn(virt);
      TablesInTurn(View(), v);
      EntriesAt(space, virt);
      var pdp := GetTable(PdpNode(v), pml4, GetPML4Index(virt));
      EntriesAt(space, virt);
      var pd := GetTable(PdNode(v), pdp, GetPDPIndex(virt));
      EntriesAt(space, virt);
      pt := GetTable(PtNode(v), pd, GetPDIndex(virt));
    }

    /** The loop of `setup_page_tables` that maps physbase .. physfree through table pt. */
    method MapDirect(pt: nat, virtBase: nat, physbase: nat, physfree: nat)
      requires Built() && virtBase == VIRT_OFFSET
      requires physbase % PAGE_SIZE == 0 && physbase < MAX_PHY_MEM && physfree < MAX_PHY_MEM
      requires PtNode(FIRST_PAGE + physbase / PAGE_SIZE) in space
      requires pt == space[PtNode(FIRST_PAGE + physbase / PAGE_SIZE)] * PAGE_SIZE
      modifies this`ram, this`space
      ensures Built() && (old(Clean()) ==> Clean())
      ensures space == DirectMap(old(space), physbase / PAGE_SIZE, PageCount(physbase, physfree))
      ensures old(Safe() && RangeMappable(physbase, physfree)) ==> Safe()
    {
      hide Core, Separate, AllBlank, DirectMap, PageCount, Mappable, WithFlags, GetPTIndex, Or, Wr, Supply;
      ghost var lo, i, s := physbase / PAGE_SIZE, 0, space;
      ghost var safe, clean := Safe() && RangeMappable(physbase, physfree), Clean();
      var t := physbase;
      DirectMapEmpty(s, lo);
      while t <= physfree
        invariant Built() && t == physbase + PAGE_SIZE * i && i <= PageCount(physbase, physfree)
        invariant space == DirectMap(s, lo, i)
        invariant (safe ==> Safe()) && (clean ==> Clean())
        decreases PageCount(physbase, physfree) - i
      {
        var virt := Or(virtBase, t);
        CountMeaning(physbase, physfree, i);
        DirectStep(pmap.freePagesList[..], ram, s, physbase, i);
        ram := Wr(ram, pt / PAGE_SIZE, GetPTIndex(virt), WithFlags(t));
        i := i + 1;
        space := DirectMap(s, lo, i);
        t := t + PAGE_SIZE;
      }
      CountMeaning(physbase, physfree, i);
    }

    ghost predicate RangeMappable(physbase: nat, physfree: nat)
      requires Built()
      reads this, pmap, pmap.freePagesList
    {
      forall p: nat | physbase / PAGE_SIZE <= p <= physfree / PAGE_SIZE ::
        Mappable(pmap.freePagesList[..], space, p)
    }

    /** Allocates and clears the top table. */
    method MakeTopTable() returns (pml4: nat)
      requires pmap.Valid() && Ready(pmap.freePagesList[..], ram) && Supply(pmap.freePagesList[..]) != []
      modifies this`ram, this`space, pmap.freePagesList
      ensures Built() && Safe() && pml4 == space[ROOT] * PAGE_SIZE
      ensures old(AllBlank(pmap.freePagesList[..], ram)) ==> Clean()
      ensures space == map[ROOT := old(Supply(pmap.freePagesList[..]))[0]]
      ensures View().supply == old(Supply(pmap.freePagesList[..]))[1..]
      ensures forall f: nat | f >= MAX_PAGES || !old(Allocatable(pmap.freePagesList[..], f)) ::
                Mappable(pmap.freePagesList[..], space, f)
    {
      ghost var b := pmap.freePagesList[..];
      hide Core, Separate, AllBlank, Supply, Take, Pick, Stops, Memset, HighByte, Ready, Mappable, Allocatable,
           IsBitmap;
      ReadyMeaning(b, ram);
      FirstTable(b, ram);
      ghost var p := Supply(b)[0];
      pml4 := pmap.KmallocMem();
      assert pml4 == p * PAGE_SIZE && pml4 / PAGE_SIZE == p;
      ram := Memset(ram, pml4 / PAGE_SIZE);
      space := map[ROOT := p];
    }

    /** The loop, for an address in the first page. */
    method MapRange(pt: nat, virt: nat, physbase: nat, physfree: nat)
      requires Built() && virt == VIRT_OFFSET + physbase
      requires physbase % PAGE_SIZE == 0 && physbase < MAX_PHY_MEM && physfree < MAX_PHY_MEM
      requires PtNode(FIRST_PAGE + physbase / PAGE_SIZE) in space
      requires pt == space[PtNode(FIRST_PAGE + physbase / PAGE_SIZE)] * PAGE_SIZE
      modifies this`ram, this`space
      ensures Built() && (old(Clean()) ==> Clean())
      ensures space == DirectMap(old(space), physbase / PAGE_SIZE, PageCount(physbase, physfree))
      ensures old(Safe() && RangeMappable(physbase, physfree)) ==> Safe()
      ensures forall f: nat :: old(Mappable(pmap.freePagesList[..], space, f)) ==>
                Mappable(pmap.freePagesList[..], space, f)
    {
      hide Core, Separate, AllBlank, DirectMap, PageCount, And, Supply;
      ghost var s := space;
      DirectBase(physbase);
      var virtBase := And(virt, VIRT_BASE);
      MapDirect(pt, virtBase, physbase, physfree);
      DirectMapMeaning(s, physbase / PAGE_SIZE, PageCount(physbase, physfree));
    }

    /** `getPT` for the first page, then the mapping loop. */
    method BuildMap(pml4: nat, virt: nat, physbase: nat, physfree: nat, ghost lo: nat)
      requires Built() && View().EnoughFor(FIRST_PAGE + lo) && lo == physbase / PAGE_SIZE
      requires pml4 == space[ROOT] * PAGE_SIZE && virt == VIRT_OFFSET + physbase
      requires physbase % PAGE_SIZE == 0 && physbase < MAX_PHY_MEM && physfree < MAX_PHY_MEM
      modifies this`ram, this`space, pmap.freePagesList
      ensures Built() && (old(Clean()) ==> Clean())
      ensures View() == WithRun(old(View()), lo, PageCount(physbase, physfree))
      ensures old(Safe() && RangeMappable(physbase, physfree)) ==> Safe()
      ensures forall f: nat :: old(Mappable(pmap.freePagesList[..], space, f)) ==>
                Mappable(pmap.freePagesList[..], space, f)
    {
      hide Core, Separate, AllBlank, DirectMap, PageCount, Mappable, Supply;
      DirectVpn(physbase);
      var pt := GetPT(pml4, virt);
      MapRange(pt, virt, physbase, physfree);
    }

    /** Slot 510 and CR3: from here on the tables are reached through the recursive slot. */
    method SwitchOn(pml4: nat)
      requires Built() && pml4 == space[ROOT] * PAGE_SIZE
      modifies this`ram, this`cr3
      ensures Valid() && (old(Safe()) ==> Safe()) && (old(Clean()) ==> Clean()) && View() == old(View())
    {
      hide WithFlags;
      CloseTree(pmap.freePagesList[..], ram, space);
      assert pml4 / PAGE_SIZE == space[ROOT];
      ram := Wr(ram, pml4 / PAGE_SIZE, RECURSIVE_SLOT, WithFlags(pml4));
      cr3 := pml4 / PAGE_SIZE;
    }

    /** The two mappings of `setup_page_tables`, on the new top table. */
    method BuildBoth(kernmem: nat, physbase: nat, physfree: nat) returns (pml4: nat)
      requires pmap.Valid() && Ready(pmap.freePagesList[..], ram)
      requires |Supply(pmap.freePagesList[..])| >= BootTables(physbase)
      requires kernmem == VIRT_OFFSET + physbase
      requires physbase % PAGE_SIZE == 0 && physbase < MAX_PHY_MEM && physfree < MAX_PHY_MEM
      requires Reserves(pmap.freePagesList[..], physbase, physfree)
      modifies this`ram, this`space, pmap.freePagesList
      ensures Built() && Safe() && pml4 == space[ROOT] * PAGE_SIZE
      ensures old(AllBlank(pmap.freePagesList[..], ram)) ==> Clean()
      ensures BothRuns(space, physbase, physfree)
      ensures ExactSpace(space, physbase, physfree) <==> OneRegion(physbase, physfree)
      ensures !OneRegion(physbase, physfree) ==> PageNode(PastRegion(physbase)) !in space
      ensures PageNode(0xF_FFF8_00B8) in space && space[PageNode(0xF_FFF8_00B8)] == 0xB8
      ensures View().supply == old(Supply(pmap.freePagesList[..]))[BootTables(physbase)..]
    {
      hide BothRuns, OneRegion, PastRegion, Core, Separate, AllBlank, ExactSpace, DirectMap, Supply, HighByte, Mappable;
      ghost var supply := Supply(pmap.freePagesList[..]);
      pml4 := MakeTopTable();
      ghost var root := space[ROOT];
      ghost var m0 := View();
      ghost var lo, n := physbase / PAGE_SIZE, PageCount(physbase, physfree);
      AfterBoth(root, supply[1..], physbase, physfree);
      ExactAfterBoth(root, supply[1..], physbase, physfree);
      RootKept(m0, lo, n);
      assert RangeMappable(physbase, physfree) && RangeMappable(0xB8000, 0xB8FA0);
      BuildMap(pml4, kernmem, physbase, physfree, lo);
      assert RangeMappable(0xB8000, 0xB8FA0);
      RootKept(View(), VIDEO_PAGE, 1);
      DirectVpn(0xB8000);
      BuildMap(pml4, PhyToVirt(0xB8000), 0xB8000, 0xB8FA0, VIDEO_PAGE);
      assert supply[1..][BootTables(physbase) - 1..] == supply[BootTables(physbase)..];
    }

    /** `setup_page_tables`: the kernel range and the video page at VIRT_OFFSET plus their
        physical address, slot 510 at the top table, and nothing else, exactly if the kernel range lies in
        one 2 MB region. There is one page table for the whole range: if it crosses a region, the page behind the
        first region is not mapped. `kernmem` is the address of the symbol of that name. RAM may hold
        anything: the tables are cleared. */
    method SetupPageTables(kernmem: nat, physbase: nat, physfree: nat) returns (top: nat)
      requires pmap.Valid() && Ready(pmap.freePagesList[..], ram)
      requires |Supply(pmap.freePagesList[..])| >= BootTables(physbase)
      requires kernmem == VIRT_OFFSET + physbase
      requires physbase % PAGE_SIZE == 0 && physbase < MAX_PHY_MEM && physfree < MAX_PHY_MEM
      requires Reserves(pmap.freePagesList[..], physbase, physfree)
      modifies this`ram, this`space, this`cr3, pmap.freePagesList
      ensures Valid() && Safe() && top == Pml4Addr()
      ensures old(AllBlank(pmap.freePagesList[..], ram)) ==> Clean()
      ensures BothRuns(space, physbase, physfree)
      ensures ExactSpace(space, physbase, physfree) <==> OneRegion(physbase, physfree)
      ensures View().supply == old(Supply(pmap.freePagesList[..]))[BootTables(physbase)..]
      ensures Translate(ram, cr3, 0xFFFF_FFFF_800B_8000) == At(0xB8, true, true)
      ensures physfree < physbase || physbase / 0x20_0000 == physfree / 0x20_0000 ==>
                forall va: nat | Canonical(va) && OutsideSlot(va) ::
                  Translate(ram, cr3, va) ==
                  var p: int := (va - 0xFFFF_FFFF_8000_0000) / 0x1000;
                  if va >= 0xFFFF_FFFF_8000_0000 && (physbase / 0x1000 <= p <= physfree / 0x1000 || p == 0xB8)
                  then At(p, true, true) else Fault
      ensures !(physfree < physbase || physbase / 0x20_0000 == physfree / 0x20_0000) ==>
                Translate(ram, cr3, 0xFFFF_FFFF_8000_0000 + (physbase / 0x20_0000 + 1) * 0x20_0000) == Fault
    {
      assert OneRegion(physbase, physfree) <==>
             physfree < physbase || physbase / 0x20_0000 == physfree / 0x20_0000;
      hide BothRuns, OneRegion, ExactSpace, DirectlyMapped, BootTables, Supply, Core, Separate, AllBlank, Translate,
           Canonical, OutsideSlot, PageCount, PastRegion;
      var pml4 := BuildBoth(kernmem, physbase, physfree);
      SwitchOn(pml4);
      VideoTranslation(ram, space);
      if OneRegion(physbase, physfree) {
        ExactTranslation(ram, space, physbase, physfree);
      } else {
        PastRegionFaults(ram, space, physbase);
      }
      top := Pml4Addr();
    }

    /** Frame f holds a part of the kernel image or of the bitmap behind it. */
    predicate InKernel(f: nat)
      reads pmap`kernelbase
    {
      Overlaps(f, pmap.kernelbase, pmap.bitmapBase + MAX_PAGES)
    }

    /** Any code's store through an ordinary mapped address outside the kernel image and the bitmap:
        it changes the words of that address and of its aliases, and nothing of the kernel. */
    method Poke(va: nat, w: nat)
      requires Valid() && Safe() && Canonical(va) && OutsideSlot(va) && Translate(ram, cr3, va).At?
      requires !InKernel(Translate(ram, cr3, va).frame)
      modifies this`ram
      ensures Valid() && Safe() && (old(Clean()) ==> Clean()) && View() == old(View())
      ensures forall a | Canonical(a) && OutsideSlot(a) :: Translate(ram, cr3, a) == old(Translate(ram, cr3, a))
      ensures Translate(ram, cr3, va).frame < |ram| ==> WordAt(va) == w
      ensures forall g: nat, j: nat | g != old(Translate(ram, cr3, va)).frame || j != va % 0x1000 / 8 ::
                Rd(ram, g, j) == old(Rd(ram, g, j))
      ensures forall g: nat, j: nat | InKernel(g) :: Rd(ram, g, j) == old(Rd(ram, g, j))
    {
      hide Core, Separate, AllBlank, Translate, Canonical, OutsideSlot, SelfEntry, Wr, Rd, Overlaps;
      ghost var ram0, f := ram, Translate(ram, cr3, va).frame;
      MappedFrame(ram, pmap.freePagesList[..], space, va);
      StoreKeepsCore(pmap.freePagesList[..], ram, space, Vpn(va), va % 0x1000 / 8, w);
      WordsAfterWrite(ram0, f, va % 0x1000 / 8, w);
      Store(va, w);
      CoreTranslations(pmap.freePagesList[..], ram0, ram, space);
    }

    /** The heap state: the view, and the break in pages. */
    ghost function HeapState(): Heap.State
      requires Valid()
      reads this, pmap, pmap.freePagesList
    {
      Heap.State(View(), pmap.kernelfree / PAGE_SIZE)
    }

    /** No page of the kernel image or of the bitmap will be handed out. */
    ghost predicate KernelApart()
      requires Built()
      reads this, pmap, pmap.freePagesList
    {
      forall i | 0 <= i < |View().supply| :: !InKernel(View().supply[i])
    }

    /** What `kmalloc` needs and keeps: an aligned break with address space left above it,
        pages that are kept apart from tables and free frames, and free frames that are blank. */
    ghost predicate HeapReady()
      reads this, pmap, pmap.freePagesList
    {
      Valid() && KernelApart() && Safe() && Clean() && pmap.kernelfree % PAGE_SIZE == 0 && HeapState().Room()
    }

    /** `kmalloc_mem` followed by `mmap` of the page it returns. */
    method MapNewPage(virt: nat)
      requires Valid() && Safe() && Clean() && virt < W64 && OutsideSlot(virt)
      requires View().supply != [] && Vm(space, View().supply[1..]).EnoughFor(Vpn(virt))
      modifies this`ram, this`space, pmap.freePagesList
      ensures Valid() && Safe() && Clean() && Drawn(old(pmap.freePagesList[..]), pmap.freePagesList[..])
      ensures View() == Vm(old(space), old(View()).supply[1..]).Map(Vpn(virt), old(View()).supply[0])
    {
      hide Drawn;
      ghost var b := pmap.freePagesList[..];
      ghost var m := Vm(space, View().supply[1..]);
      ghost var f := View().supply[0];
      var physAddr := TakeFrame();
      ghost var b1 := pmap.freePagesList[..];
      assert View() == m && physAddr / PAGE_SIZE == f;
      Mmap(virt, physAddr);
      DrawnMore(b, b1, pmap.freePagesList[..]);
      assert View() == m.Map(Vpn(virt), f);
    }

    /** `kmalloc_mem` for a page that will be mapped. */
    method TakeFrame() returns (physAddr: nat)
      requires Valid() && Safe() && Clean() && View().supply != []
      modifies pmap.freePagesList
      ensures Valid() && Safe() && Clean() && View() == Vm(space, old(View()).supply[1..])
      ensures physAddr % PAGE_SIZE == 0 && physAddr / PAGE_SIZE == old(View()).supply[0] < MAX_PAGES
      ensures Mappable(pmap.freePagesList[..], space, physAddr / PAGE_SIZE)
      ensures Drawn(old(pmap.freePagesList[..]), pmap.freePagesList[..])
    {
      hide Core, Separate, AllBlank, Mappable, Take, Pick, Stops, Supply, Allocatable, Drawn;
      TakenIsMappable(pmap.freePagesList[..], ram, space);
      physAddr := NextPage();
    }

    /** `kmalloc_page`, which is also the body of the loop of `kmalloc`. */
    method KmallocPage() returns (virtAddr: nat)
      requires HeapReady() && HeapState().HasPage()
      modifies this`ram, this`space, pmap`kernelfree, pmap.freePagesList
      ensures HeapReady() && HeapState() == old(HeapState()).AddPage()
      ensures Drawn(old(pmap.freePagesList[..]), pmap.freePagesList[..])
      ensures virtAddr == PhyToVirt(old(pmap.kernelfree))
      ensures pmap.kernelfree == old(pmap.kernelfree) + PAGE_SIZE
    {
      hide Core, Separate, AllBlank, Supply, Overlaps, SelfEntry, Vm.Map, Vm.EnoughFor, Drawn;
      ghost var h := HeapState();
      Heap.AddPageMeaning(h);
      virtAddr := PhyToVirt(pmap.kernelfree);
      assert virtAddr < W64 && OutsideSlot(virtAddr) && Vpn(virtAddr) == h.NextVpn() by {
        assert pmap.kernelfree == h.top * PAGE_SIZE;
        Heap.HeapAddress(h.top, 0);
      }
      MapNewPage(virtAddr);
      pmap.kernelfree := pmap.kernelfree + PAGE_SIZE;
      assert HeapState() == h.AddPage();
    }

    /** `kmalloc`: size / PAGE_SIZE + 1 heap pages; returns the address of the first. */
    method Kmalloc(sizeMem: nat) returns (baseAddr: nat)
      requires HeapReady() && HeapState().HasPages(sizeMem / PAGE_SIZE + 1)
      modifies this`ram, this`space, pmap`kernelfree, pmap.freePagesList
      ensures HeapReady() && HeapState() == old(HeapState()).Grow(sizeMem / PAGE_SIZE + 1)
      ensures Drawn(old(pmap.freePagesList[..]), pmap.freePagesList[..])
      ensures baseAddr == PhyToVirt(old(pmap.kernelfree))
    {
      hide Supply, Core, Separate, PhyToVirt, Heap.State.AddPage, Drawn;
      ghost var h, start, b := HeapState(), pmap.kernelfree, pmap.freePagesList[..];
      var num := sizeMem / PAGE_SIZE + 1;
      var isBase := false;
      baseAddr := 0;
      for c := 0 to num
        invariant HeapReady() && h.HasPages(c) && HeapState() == h.Grow(c)
        invariant if c == 0 then pmap.freePagesList[..] == b else Drawn(b, pmap.freePagesList[..])
        invariant isBase <==> c > 0
        invariant !isBase ==> pmap.kernelfree == start
        invariant isBase ==> baseAddr == PhyToVirt(start)
      {
        Heap.OneMore(h, num, c);
        ghost var b1 := pmap.freePagesList[..];
        var virtAddr := KmallocPage();
        if c > 0 { DrawnMore(b, b1, pmap.freePagesList[..]); }
        if !isBase {
          baseAddr := virtAddr;
          isBase := true;
        }
      }
    }

    /** `malloc`, whatever the size: one page, by physical address; no mapping changes. The heap loses
        the frame it would have taken next, if that is the page, or nothing. */
    method Malloc(sizeMem: nat) returns (address: nat, ghost page: Option<nat>, ghost shared: bool)
      requires HeapReady()
      modifies pmap.freePagesList
      ensures HeapReady()
      ensures shared ==> old(HeapState()).vm.supply != [] && page == Some(old(HeapState()).vm.supply[0])
      ensures HeapState() == if shared then old(HeapState()).DropFrame() else old(HeapState())
      ensures address == match page case Some(p) => p * PAGE_SIZE case None => 0
      ensures page.Some? ==> NewlyTaken(old(pmap.freePagesList[..]), pmap.freePagesList[..], View(), page.value)
      ensures MallocStep(old(pmap.freePagesList[..]), pmap.freePagesList[..], page, shared)
    {
      hide Core, Separate, AllBlank, Overlaps, SelfEntry, NewlyTaken, MallocStep;
      ghost var supply := View().supply;
      address, page, shared := TakeAny();
      assert View().supply == if shared then supply[1..] else supply;
    }

    /** The call of `malloc_mem` in it. */
    method TakeAny() returns (address: nat, ghost page: Option<nat>, ghost shared: bool)
      requires Built()
      modifies pmap.freePagesList
      ensures Built() && (old(Safe()) ==> Safe()) && (old(Clean()) ==> Clean())
      ensures MallocStep(old(pmap.freePagesList[..]), pmap.freePagesList[..], page, shared)
      ensures address == match page case Some(p) => p * PAGE_SIZE case None => 0
      ensures page.Some? ==> NewlyTaken(old(pmap.freePagesList[..]), pmap.freePagesList[..], View(), page.value)
      ensures if shared then old(View()).supply != [] && page == Some(old(View()).supply[0])
                             && View().supply == old(View()).supply[1..]
              else View().supply == old(View()).supply
    {
      ghost var b := pmap.freePagesList[..];
      assert IsBitmap(b) && HighByte(b);
      hide Core, Separate, AllBlank, NewlyTaken, HighByte, Supply, Take, Pick, Stops, IsBitmap, Used, FirstFit,
           AddressOf, MallocStep;
      MallocKeepsCore(b, ram, space);
      MallocTakes(b, ram, space);
      MallocSupply(b);
      page := Pick(b, 0);
      shared := page.Some? && page == Pick(b, 528);
      assert MallocStep(b, Take(b, 0), page, shared) by { StepOf(b, page, shared); }
      address := pmap.MallocMem();
    }

    /** One request of a caller, as call c of a run. */
    method ServeOne(r: HeapRuns.Request, ghost c: HeapRuns.Call) returns (address: nat)
      requires HeapReady() && HeapRuns.Answers(c, r) && HeapRuns.Can(HeapState(), c)
      requires IsBitmap(pmap.freePagesList[..]) && HighByte(pmap.freePagesList[..])
      requires c.Malloc? ==> (c.shared <==> HeapRuns.SharesNext(pmap.freePagesList[..]))
      modifies this`ram, this`space, pmap`kernelfree, pmap.freePagesList
      ensures HeapReady() && HeapState() == HeapRuns.Step(old(HeapState()), c)
      ensures pmap.freePagesList[..] ==
              HeapRuns.BitmapNext(old(pmap.freePagesList[..]), c, |old(View()).supply|, |View().supply|)
      ensures Stops(old(pmap.freePagesList[..]), 0)
      ensures address == if c.Malloc? then AddressOf(Pick(old(pmap.freePagesList[..]), 0))
                         else PhyToVirt(old(pmap.kernelfree))
    {
      hide Core, Separate, AllBlank, Overlaps, SelfEntry, Heap.State.HasPages, Heap.State.Grow, Heap.State.HasPage,
           Heap.State.AddPage, Supply, NewlyTaken, Take, Pick, Stops, HighByte, IsBitmap;
      AlwaysStops(pmap.freePagesList[..]);
      Heap.OnePageIsGrowth(HeapState());
      match r {
        case ForKmalloc(size) =>
          address := Kmalloc(size);
        case ForKmallocPage =>
          address := KmallocPage();
        case ForMalloc(size) =>
          ghost var page, shared;
          address, page, shared := Malloc(size);
      }
    }

    /** This kernel is before call i of a run that started in heap state h with bitmap b. */
    ghost predicate AtCall(h: Heap.State, b: Bytes, calls: seq<HeapRuns.Call>, i: nat)
      requires HeapRuns.CanRun(h, calls) && i <= |calls| && IsBitmap(b) && HighByte(b)
      reads this, pmap, pmap.freePagesList
    {
      && HeapReady() && HeapState() == HeapRuns.Before(h, calls, i)
      && pmap.freePagesList[..] == HeapRuns.BitmapBefore(h, b, calls, i)
    }

    method ServeNext(requests: seq<HeapRuns.Request>, ghost calls: seq<HeapRuns.Call>, i: nat, ghost h: Heap.State,
                     ghost b: Bytes)
      returns (address: nat)
      requires IsBitmap(b) && HighByte(b) && HeapRuns.Served(h, b, requests, calls)
      requires i < |calls| && AtCall(h, b, calls, i)
      modifies this`ram, this`space, pmap`kernelfree, pmap.freePagesList
      ensures AtCall(h, b, calls, i + 1)
      ensures HeapRuns.Returns(h, b, calls, i, address)
    {
      hide HeapRuns.CanRun, HeapRuns.Before, HeapRuns.Can, HeapRuns.Step, HeapRuns.BitmapNext, HeapRuns.SharesNext,
           HeapRuns.Answers, IsBitmap, HighByte, Core, Separate, AllBlank, SelfEntry, Overlaps, Supply;
      HeapRuns.BeforeNext(h, calls, i);
      address := ServeOne(requests[i], calls[i]);
    }

    /** The requests one after the other, from heap state h and bitmap b on. */
    method ServeAll(requests: seq<HeapRuns.Request>, ghost calls: seq<HeapRuns.Call>, ghost h: Heap.State,
                    ghost b: Bytes)
      returns (addresses: seq<nat>)
      requires IsBitmap(b) && HighByte(b) && HeapRuns.Served(h, b, requests, calls) && AtCall(h, b, calls, 0)
      modifies this`ram, this`space, pmap`kernelfree, pmap.freePagesList
      ensures |addresses| == |requests| && AtCall(h, b, calls, |calls|) && HeapRuns.AllReturn(h, b, calls, addresses)
    {
      assert |calls| == |requests| && HeapRuns.CanRun(h, calls);
      hide AtCall, HeapRuns.Served, HeapRuns.CanRun, HeapRuns.Returns, IsBitmap, HighByte;
      addresses := [];
      for i := 0 to |requests|
        invariant |addresses| == i && AtCall(h, b, calls, i)
        invariant HeapRuns.AllReturn(h, b, calls, addresses)
      {
        var address := ServeNext(requests, calls, i, h, b);
        HeapRuns.OneMoreReturns(h, b, calls, addresses, address);
        addresses := addresses + [address];
      }
    }

    /** Any requests, in any order: the kernel goes through the calls that they lead to, and returns
        their regions, and the pages of `malloc`. */
    method Serve(requests: seq<HeapRuns.Request>, ghost calls: seq<HeapRuns.Call>) returns (addresses: seq<nat>)
      requires HeapReady() && IsBitmap(pmap.freePagesList[..]) && HighByte(pmap.freePagesList[..])
      requires HeapRuns.Served(HeapState(), pmap.freePagesList[..], requests, calls)
      modifies this`ram, this`space, pmap`kernelfree, pmap.freePagesList
      ensures HeapReady() && HeapState() == HeapRuns.After(old(HeapState()), calls) && |addresses| == |requests|
      ensures HeapRuns.AllReturn(old(HeapState()), old(pmap.freePagesList[..]), calls, addresses)
    {
      ghost var h, b := HeapState(), pmap.freePagesList[..];
      assert |calls| == |requests| && HeapRuns.CanRun(h, calls);
      hide AtCall, HeapReady, HeapRuns.Served, HeapRuns.CanRun, HeapRuns.Returns, IsBitmap, HighByte;
      AtStart(calls);
      addresses := ServeAll(requests, calls, h, b);
      AtEnd(h, b, calls);
    }

    lemma AtStart(calls: seq<HeapRuns.Call>)
      requires HeapReady() && IsBitmap(pmap.freePagesList[..]) && HighByte(pmap.freePagesList[..])
      requires HeapRuns.CanRun(HeapState(), calls)
      ensures AtCall(HeapState(), pmap.freePagesList[..], calls, 0)
    {
      HeapRuns.BeforeFirst(HeapState(), calls);
    }

    lemma AtEnd(h: Heap.State, b: Bytes, calls: seq<HeapRuns.Call>)
      requires HeapRuns.CanRun(h, calls) && IsBitmap(b) && HighByte(b) && AtCall(h, b, calls, |calls|)
      ensures HeapReady() && HeapState() == HeapRuns.After(h, calls)
    {
      HeapRuns.PrefixRuns(h, calls, |calls|);
    }
  }

  /** Table ownership in every state that the kernel's methods keep: a table is a page marked in
      use, it is no other table and no mapped page, and below the top one exactly one entry of
      all tables, slot 510 aside, addresses it. */
  lemma TablesAreOwned(k: Kernel, n: Node)
    requires k.Valid() && k.Safe() && n in k.space && n.level >= 1
    ensures k.space[n] < MAX_PAGES && Used(k.pmap.freePagesList[..], k.space[n])
    ensures forall m | m in k.space && m != n :: k.space[m] != k.space[n]
    ensures n != ROOT ==> Parent(n) in k.space && Addresses(k.ram, k.space[Parent(n)], n.prefix % 512, k.space[n])
    ensures forall m, i | m in k.space && m.level >= 1 && i < 512 && (m != ROOT || i != RECURSIVE_SLOT)
                          && Addresses(k.ram, k.space[m], i, k.space[n]) ::
              n != ROOT && m == Parent(n) && i == n.prefix % 512
  {
    hide Addresses;
    OneParent(k.ram, k.space, n);
  }

  /** The condition of `Poke` shuts out exactly the pages with a byte of the kernel image or of the
      bitmap of 8192 bytes behind it. */
  lemma KernelIsExcluded(k: Kernel, f: nat)
    requires k.pmap.kernelbase < k.pmap.bitmapBase + MAX_PAGES
    ensures k.InKernel(f) <==>
            exists a: nat | k.pmap.kernelbase <= a < k.pmap.bitmapBase + 8192 :: a / 0x1000 == f
  {
    OverlapsMeaning(f, k.pmap.kernelbase, k.pmap.bitmapBase + MAX_PAGES);
  }

  /** So it shuts out every address of kernel image and bitmap, wherever it is mapped. */
  lemma BitmapIsExcluded(k: Kernel, va: nat)
    requires Translate(k.ram, k.cr3, va).At?
    requires var address := Translate(k.ram, k.cr3, va).frame * 0x1000 + va % 0x1000;
             k.pmap.kernelbase <= address < k.pmap.bitmapBase + 8192
    ensures k.InKernel(Translate(k.ram, k.cr3, va).frame)
  {
    hide Translate;
  }

  /** Boot does map the bitmap: byte i of it at PHY_TO_VIRT of its address, where `remap_bitmap` moves
      `free_pages_list`. */
  lemma BitmapIsMapped(k: Kernel, i: nat)
    requires k.Valid() && ExactSpace(k.space, k.pmap.kernelbase, k.pmap.bitmapBase + MAX_PAGES)
    requires k.pmap.kernelbase <= k.pmap.bitmapBase && k.pmap.kernelbase % PAGE_SIZE == 0
    requires k.pmap.bitmapBase + MAX_PAGES < MAX_PHY_MEM && i < MAX_PAGES
    ensures var a := k.pmap.bitmapBase + i;
            && Translate(k.ram, k.cr3, PhyToVirt(a)) == At(a / PAGE_SIZE, true, true)
            && PhyToVirt(a) % PAGE_SIZE == a % PAGE_SIZE && k.InKernel(a / PAGE_SIZE)
  {
    var base, free, a := k.pmap.kernelbase, k.pmap.bitmapBase + MAX_PAGES, k.pmap.bitmapBase + i;
    DirectVpn(a);
    DirectPage(a);
    InDirectRun(base, free, a);
    hide Core, Overlaps, InRun, PageCount, Vpn;
    ExactTranslation(k.ram, k.space, base, free);
  }

  lemma DirectPage(a: nat)
    requires a < MAX_PHY_MEM
    ensures PhyToVirt(a) % PAGE_SIZE == a % PAGE_SIZE && Canonical(PhyToVirt(a))
  {
    DirectVpn(a);
    DivModUnique(PhyToVirt(a), PAGE_SIZE, VIRT_OFFSET / PAGE_SIZE + a / PAGE_SIZE, a % PAGE_SIZE);
  }

  lemma InDirectRun(base: nat, free: nat, a: nat)
    requires base % PAGE_SIZE == 0 && base <= a < free
    ensures InRun(FIRST_PAGE + a / PAGE_SIZE, base / PAGE_SIZE, PageCount(base, free))
    ensures Overlaps(a / PAGE_SIZE, base, free)
  {
  }
}
