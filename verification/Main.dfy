/** sys/main.c: from the loader's memory map to a running kernel heap. */
module Main {
  import opened Bits
  import opened Paging
  import opened AddressSpace
  import opened FrameBitmap
  import opened AllocatorRuns
  import opened MemoryState
  import opened Pmap
  import opened Boot
  import opened KernelMemory
  import Heap
  import HeapRuns

  /** An entry of the loader's memory map; type 1 is usable memory. */
  datatype SmapEntry = SmapEntry(start: nat, length: nat, kind: nat)

  /** The regions that `start` passes to `set_kernel_in_freelist`. */
  function Usable(smap: seq<SmapEntry>): seq<Region> {
    if smap == [] then []
    else
      var last := smap[|smap| - 1];
      Usable(smap[..|smap| - 1]) +
      (if last.kind == 1 && last.length != 0 then [Region(last.start, last.start + last.length)] else [])
  }

  predicate AllInRange(smap: seq<SmapEntry>) {
    forall r | r in Usable(smap) :: InRange(r)
  }

  /** The bitmap when `setup_page_tables` starts. */
  function BootBitmap(physbase: nat, physfree: nat, smap: seq<SmapEntry>): Bytes
    requires AllInRange(smap)
  {
    Pmap.Boot(physbase, physfree + MAX_PAGES, Usable(smap))
  }

  lemma {:induction false} PrefixInRange(smap: seq<SmapEntry>, i: nat)
    requires AllInRange(smap) && i <= |smap|
    ensures AllInRange(smap[..i])
    decreases |smap|
  {
    if i == |smap| {
      assert smap[..i] == smap;
    } else {
      assert smap[..|smap| - 1][..i] == smap[..i];
      PrefixInRange(smap[..|smap| - 1], i);
    }
  }

  /** Entry e of the memory map makes page q available. */
  predicate Offers(e: SmapEntry, q: nat) {
    e.kind == 1 && e.length != 0 && e.start < (q + 1) * 0x1000 <= e.start + e.length
  }

  predicate Offered(smap: seq<SmapEntry>, q: nat) {
    exists e | e in smap :: Offers(e, q)
  }

  lemma {:induction false} UsableMeaning(smap: seq<SmapEntry>, q: nat)
    ensures CoveredBy(Usable(smap), q) <==> Offered(smap, q)
    decreases |smap|
  {
    if smap != [] {
      var init, last := smap[..|smap| - 1], smap[|smap| - 1];
      UsableMeaning(init, q);
      assert smap == init + [last];
      var r := Region(last.start, last.start + last.length);
      CoversMeaning(r, q);
      assert forall x :: x in Usable(smap) <==> x in Usable(init) || (last.kind == 1 && last.length != 0 && x == r);
      if Offers(last, q) { assert r in Usable(smap); }
    }
  }

  /** The bitmap of the boot, in addresses: a page is free if and only if an entry of type 1 offers it and
      it starts neither in the kernel image nor in the bitmap of 8192 bytes, nor right behind it. */
  lemma BootMapIsExact(physbase: nat, physfree: nat, smap: seq<SmapEntry>, q: nat)
    requires AllInRange(smap) && q < 8 * 8192
    ensures |BootBitmap(physbase, physfree, smap)| == 8192
    ensures !Used(BootBitmap(physbase, physfree, smap), q) <==>
            && (exists e | e in smap ::
                  e.kind == 1 && e.length != 0 && e.start < (q + 1) * 0x1000 <= e.start + e.length)
            && (q * 0x1000 < physbase || q * 0x1000 > physfree + 8192)
  {
    BootIsExact(physbase, physfree + MAX_PAGES, Usable(smap));
    hide Used;
    UsableMeaning(smap, q);
    assert forall e: SmapEntry ::
             Offers(e, q) <==> e.kind == 1 && e.length != 0 && e.start < (q + 1) * 0x1000 <= e.start + e.length;
  }

  /** With usable memory from above the kernel to past page 8191, boot leaves the allocator in a
      contiguous state: with K the page that the reserved range ends in, its i-th page is
      max(528, K + 1) + i. */
  lemma BootIsContiguous(physbase: nat, physfree: nat, smap: seq<SmapEntry>)
    requires AllInRange(smap)
    requires physbase <= 528 * 0x1000 && (physfree + 8192) / 0x1000 < 8192
    requires forall p: nat | (physfree + 8192) / 0x1000 < p <= 8192 :: Offered(smap, p)
    ensures var b, k := BootBitmap(physbase, physfree, smap), (physfree + 8192) / 0x1000;
            var n := if k < 528 then 528 else k + 1;
            && IsBitmap(b) && HighByte(b) && Contiguous(b, n)
            && |Supply(b)| == 8192 - n
            && forall i | 0 <= i < |Supply(b)| :: Supply(b)[i] == n + i
  {
    hide Used, Offered;
    var b, k := BootBitmap(physbase, physfree, smap), (physfree + MAX_PAGES) / PAGE_SIZE;
    var n := if k < KERNEL_FIRST then KERNEL_FIRST else k + 1;
    BootIsExact(physbase, physfree + MAX_PAGES, Usable(smap));
    forall p: nat | k < p <= MAX_PAGES ensures CoveredBy(Usable(smap), p) {
      UsableMeaning(smap, p);
    }
    hide BootBitmap, Supply, HighByte, IsBitmap, Usable;
    IsContiguous(b, k, physbase, physfree + MAX_PAGES, Usable(smap));
    HasHighByte(b);
    hide Contiguous, CoveredBy;
    ExactTrace(b, n);
  }

  lemma IsContiguous(b: Bytes, k: nat, base: nat, free: nat, regions: seq<Region>)
    requires IsBitmap(b) && k == free / PAGE_SIZE < MAX_PAGES && base <= KERNEL_FIRST * PAGE_SIZE
    requires forall q: nat | q < 8 * MAX_PAGES ::
               !Used(b, q) <==> CoveredBy(regions, q) && (q * 0x1000 < base || q * 0x1000 > free)
    requires forall p: nat | k < p <= MAX_PAGES :: CoveredBy(regions, p)
    ensures Contiguous(b, if k < KERNEL_FIRST then KERNEL_FIRST else k + 1) && !Used(b, MAX_PAGES)
  {
    ReservedPages(base, free);
    hide CoveredBy, Used;
  }

  lemma HasHighByte(b: Bytes)
    requires IsBitmap(b) && !Used(b, MAX_PAGES)
    ensures HighByte(b)
  {
    assert b[1024] != FULL by {
      if b[1024] == FULL {
        Pow2Values();
        BitOfOnes(8, 0);
      }
    }
  }

  lemma ReservedPages(base: nat, free: nat)
    requires base <= KERNEL_FIRST * PAGE_SIZE
    ensures forall p: nat | KERNEL_FIRST <= p :: base <= p * 0x1000 <= free <==> p <= free / PAGE_SIZE
  {
  }

  /** `start`, up to the point where the kernel heap can be used. */
  method Start(physbase: nat, physfree: nat, smap: seq<SmapEntry>, memory: Ram) returns (k: Kernel)
    requires AllInRange(smap)
    requires physbase % PAGE_SIZE == 0 && physfree % PAGE_SIZE == 0
    requires physbase < MAX_PHY_MEM && physfree + MAX_PAGES < MAX_PHY_MEM
    requires Ready(BootBitmap(physbase, physfree, smap), memory)
    requires |Supply(BootBitmap(physbase, physfree, smap))| >= BootTables(physbase)
    ensures k.Valid() && k.Safe()
    ensures ExactSpace(k.space, physbase, physfree + MAX_PAGES) <==> OneRegion(physbase, physfree + MAX_PAGES)
    ensures AllBlank(BootBitmap(physbase, physfree, smap), memory) ==> k.HeapReady()
    ensures k.KernelApart() && k.HeapState().Room()
    ensures k.pmap.kernelbase == physbase && k.pmap.bitmapBase == physfree && k.pmap.kernelfree == physfree + MAX_PAGES
    ensures k.View().supply == Supply(BootBitmap(physbase, physfree, smap))[BootTables(physbase)..]
  {
    hide BootBitmap, Supply, Ready, AllBlank, ExactSpace, OneRegion, AllInRange, BootTables, Core, Separate,
         Reserves, HighByte, IsBitmap, Overlaps, Kernel.HeapReady, Kernel.KernelApart, Heap.State.Room;
    k := Prepare(physbase, physfree, smap, memory);
    SetUp(k, physbase, physfree);
  }

  /** The bitmap of the boot, and a kernel on it. */
  method Prepare(physbase: nat, physfree: nat, smap: seq<SmapEntry>, memory: Ram) returns (k: Kernel)
    requires AllInRange(smap) && physbase % PAGE_SIZE == 0
    ensures fresh(k) && fresh(k.pmap) && fresh(k.pmap.freePagesList) && k.pmap.Valid() && k.ram == memory
    ensures k.pmap.kernelbase == physbase && k.pmap.bitmapBase == physfree && k.pmap.kernelfree == physfree + MAX_PAGES
    ensures k.pmap.freePagesList[..] == BootBitmap(physbase, physfree, smap)
    ensures |k.pmap.freePagesList[..]| == MAX_PAGES
    ensures Reserves(k.pmap.freePagesList[..], physbase, physfree + MAX_PAGES)
  {
    hide BootBitmap, AllInRange, Reserves;
    var pmap := PublishAll(physbase, physfree, smap);
    k := new Kernel(pmap, memory);
    KernelIsReserved(physbase, physfree, smap);
  }

  /** `setup_page_tables` with the reserved range of the boot. */
  method SetUp(k: Kernel, physbase: nat, physfree: nat)
    requires physbase % PAGE_SIZE == 0 && physfree % PAGE_SIZE == 0
    requires physbase < MAX_PHY_MEM && physfree + MAX_PAGES < MAX_PHY_MEM
    requires k.pmap.Valid() && Ready(k.pmap.freePagesList[..], k.ram)
    requires |Supply(k.pmap.freePagesList[..])| >= BootTables(physbase)
    requires Reserves(k.pmap.freePagesList[..], physbase, physfree + MAX_PAGES)
    requires k.pmap.kernelbase == physbase && k.pmap.bitmapBase == physfree && k.pmap.kernelfree == physfree + MAX_PAGES
    modifies k`ram, k`space, k`cr3, k.pmap.freePagesList
    ensures k.Valid() && k.Safe()
    ensures ExactSpace(k.space, physbase, physfree + MAX_PAGES) <==> OneRegion(physbase, physfree + MAX_PAGES)
    ensures old(AllBlank(k.pmap.freePagesList[..], k.ram)) ==> k.HeapReady()
    ensures k.KernelApart() && k.HeapState().Room()
    ensures k.View().supply == old(Supply(k.pmap.freePagesList[..]))[BootTables(physbase)..]
  {
    ghost var b := k.pmap.freePagesList[..];
    assert IsBitmap(b) && HighByte(b);
    hide Supply, Ready, AllBlank, ExactSpace, OneRegion, BothRuns, BootTables, Core, Separate, Reserves, HighByte,
         IsBitmap, Overlaps, Translate, Canonical, OutsideSlot, Kernel.HeapReady, Kernel.KernelApart, Heap.State.Room;
    var top := k.SetupPageTables(VIRT_OFFSET + physbase, physbase, physfree + MAX_PAGES);
    HeapAfterBoot(k, b, BootTables(physbase));
  }

  /** After boot the heap has room, and no page of the kernel will be handed out. */
  lemma HeapAfterBoot(k: Kernel, b: Bytes, n: nat)
    requires k.Valid() && k.Safe() && IsBitmap(b) && HighByte(b)
    requires n <= |Supply(b)| && k.View().supply == Supply(b)[n..]
    requires var base, free := k.pmap.kernelbase, k.pmap.bitmapBase + MAX_PAGES;
             k.pmap.kernelfree == free < MAX_PHY_MEM && base % PAGE_SIZE == 0 && Reserves(b, base, free)
    requires k.pmap.bitmapBase % PAGE_SIZE == 0
    ensures k.KernelApart() && k.HeapState().Room() && (k.Clean() ==> k.HeapReady())
  {
    hide Supply, Core, Separate, AllBlank, Reserves, Overlaps, HighByte, IsBitmap, SelfEntry;
    SupplyFacts(b, k.pmap.kernelbase, k.pmap.kernelfree);
    BreakIsAligned(k.pmap.bitmapBase);
  }

  /** The pages to come are few, in order, and none overlaps the reserved range. */
  lemma SupplyFacts(b: Bytes, base: nat, free: nat)
    requires IsBitmap(b) && HighByte(b) && Reserves(b, base, free) && base % PAGE_SIZE == 0
    ensures |Supply(b)| <= MAX_PAGES
    ensures forall i | 0 <= i < |Supply(b)| :: !Overlaps(Supply(b)[i], base, free)
  {
    SupplyIncreases(b);
    IncreasingIsShort(Supply(b), MAX_PAGES);
    hide Supply;
    forall i | 0 <= i < |Supply(b)| ensures !Overlaps(Supply(b)[i], base, free) {
      NotReserved(b, base, free, Supply(b)[i]);
    }
  }

  lemma PagesOfRange(base: nat, free: nat, p: nat)
    requires base % PAGE_SIZE == 0
    ensures Overlaps(p, base, free) ==> base / PAGE_SIZE <= p <= free / PAGE_SIZE
  {
  }

  lemma NotReserved(b: Bytes, base: nat, free: nat, p: nat)
    requires |b| == MAX_PAGES && Reserves(b, base, free) && base % PAGE_SIZE == 0
    requires p < MAX_PAGES && Allocatable(b, p)
    ensures !Overlaps(p, base, free)
  {
    PagesOfRange(base, free, p);
  }

  lemma BreakIsAligned(physfree: nat)
    requires physfree % PAGE_SIZE == 0 && physfree + MAX_PAGES < MAX_PHY_MEM
    ensures (physfree + MAX_PAGES) % PAGE_SIZE == 0
    ensures (physfree + MAX_PAGES) / PAGE_SIZE + MAX_PAGES <= 0x8_0000
  {
  }

  /** `init_freelist` and the loop over the memory map. */
  method PublishAll(physbase: nat, physfree: nat, smap: seq<SmapEntry>) returns (pmap: FreeList)
    requires AllInRange(smap)
    ensures fresh(pmap) && fresh(pmap.freePagesList) && pmap.Valid()
    ensures pmap.kernelbase == physbase && pmap.bitmapBase == physfree && pmap.kernelfree == physfree + MAX_PAGES
    ensures pmap.freePagesList[..] == BootBitmap(physbase, physfree, smap)
  {
    hide BootBitmap, Publish, IsBitmap, AllInRange;
    pmap := new FreeList.InitFreelist(physbase, physfree);
    var i := 0;
    BootFromStart(physbase, physfree, smap);
    while i < |smap|
      invariant i <= |smap| && AllInRange(smap[..i]) && fresh(pmap) && fresh(pmap.freePagesList)
      invariant pmap.Valid() && pmap.kernelbase == physbase && pmap.bitmapBase == physfree
      invariant pmap.kernelfree == physfree + MAX_PAGES
      invariant pmap.freePagesList[..] == BootBitmap(physbase, physfree, smap[..i])
    {
      BootStep(physbase, physfree, smap, i);
      if smap[i].kind == 1 && smap[i].length != 0 {
        pmap.SetKernelInFreelist(smap[i].start, smap[i].start + smap[i].length);
      }
      i := i + 1;
    }
    assert smap[..i] == smap;
  }

  lemma BootFromStart(physbase: nat, physfree: nat, smap: seq<SmapEntry>)
    ensures AllInRange(smap[..0])
    ensures BootBitmap(physbase, physfree, smap[..0]) == Pmap.Boot(physbase, physfree + MAX_PAGES, [])
  {
    assert smap[..0] == [];
  }

  /** One round of the loop over the memory map. */
  lemma BootStep(physbase: nat, physfree: nat, smap: seq<SmapEntry>, i: nat)
    requires AllInRange(smap) && i < |smap|
    ensures AllInRange(smap[..i]) && AllInRange(smap[..i + 1])
    ensures var b, e := BootBitmap(physbase, physfree, smap[..i]), smap[i];
            if e.kind == 1 && e.length != 0 then
              && |b| == MAX_PAGES && InRange(Region(e.start, e.start + e.length))
              && BootBitmap(physbase, physfree, smap[..i + 1]) ==
                 Publish(b, physbase, physfree + MAX_PAGES, e.start / PAGE_SIZE, (e.start + e.length) / PAGE_SIZE)
            else BootBitmap(physbase, physfree, smap[..i + 1]) == b
  {
    hide Publish;
    PrefixInRange(smap, i);
    PrefixInRange(smap, i + 1);
    assert smap[..i + 1][..i] == smap[..i];
    var e, us := smap[i], Usable(smap[..i]);
    if e.kind == 1 && e.length != 0 {
      var r := Region(e.start, e.start + e.length);
      assert Usable(smap[..i + 1]) == us + [r];
      assert r in Usable(smap[..i + 1]) && (us + [r])[..|us|] == us;
    } else {
      assert Usable(smap[..i + 1]) == us;
    }
  }

  lemma KernelIsReserved(physbase: nat, physfree: nat, smap: seq<SmapEntry>)
    requires AllInRange(smap) && physbase % PAGE_SIZE == 0
    ensures IsBitmap(BootBitmap(physbase, physfree, smap))
    ensures Reserves(BootBitmap(physbase, physfree, smap), physbase, physfree + MAX_PAGES)
  {
    BootIsExact(physbase, physfree + MAX_PAGES, Usable(smap));
  }

  /** The frames that the heap will take come in increasing order. */
  lemma FramesIncrease(k: Kernel)
    requires k.Valid()
    ensures k.HeapState().Increasing()
  {
    SupplyIncreases(k.pmap.freePagesList[..]);
  }

  /** No table and no mapped page of a running kernel has a frame that is still to be handed out. */
  lemma FramesAreFresh(k: Kernel)
    requires k.Valid() && k.Safe()
    ensures k.HeapState().Fresh()
  {
    SupplyIncreases(k.pmap.freePagesList[..]);
    hide Supply, Tree;
  }

  /** When a kernel has gone from heap state h through the first m calls, every byte of the region of each of
      them translates to its frame. */
  lemma RegionTranslates(k: Kernel, h: Heap.State, calls: seq<HeapRuns.Call>, m: nat, i: nat, offset: nat)
    requires k.Valid() && HeapRuns.CanRun(h, calls) && h.Room()
    requires i < m <= |calls| && offset < PAGE_SIZE * HeapRuns.PagesOf(calls[i])
    requires k.HeapState() == HeapRuns.Before(h, calls, m)
    ensures offset / PAGE_SIZE < HeapRuns.PagesOf(calls[i])
    ensures Translate(k.ram, k.cr3, HeapRuns.Base(h, calls, i) + offset) ==
            At(HeapRuns.PageFrame(h, calls, i, offset / PAGE_SIZE), true, true)
  {
    HeapRuns.RegionsStayMapped(h, calls, m, i, offset, k.ram);
  }

  /** The bytes of the heap may be written: when the pages to come were apart from the kernel at the
      start, no heap frame holds a part of the kernel image or of the bitmap. */
  lemma HeapIsOutsideKernel(k: Kernel, h: Heap.State, calls: seq<HeapRuns.Call>, m: nat, i: nat, offset: nat)
    requires k.Valid() && HeapRuns.CanRun(h, calls) && h.Room()
    requires i < m <= |calls| && offset < PAGE_SIZE * HeapRuns.PagesOf(calls[i])
    requires k.HeapState() == HeapRuns.Before(h, calls, m)
    requires forall j | 0 <= j < |h.vm.supply| :: !k.InKernel(h.vm.supply[j])
    ensures var a := HeapRuns.Base(h, calls, i) + offset;
            && Canonical(a) && OutsideSlot(a) && Translate(k.ram, k.cr3, a).At?
            && Translate(k.ram, k.cr3, a).rw && !k.InKernel(Translate(k.ram, k.cr3, a).frame)
  {
    RegionTranslates(k, h, calls, m, i, offset);
    HeapRuns.RegionAddress(h, calls, i, offset);
    var j := HeapRuns.FrameInSupply(h, calls, i, offset / PAGE_SIZE);
    hide Canonical, OutsideSlot, Translate, Overlaps, Core;
  }

  /** What was asked for lies in the pages of the call, and where the region starts. */
  lemma AskedIsMapped(h: Heap.State, b: Bytes, requests: seq<HeapRuns.Request>, calls: seq<HeapRuns.Call>, i: nat,
                      address: nat)
    requires IsBitmap(b) && HighByte(b) && HeapRuns.Served(h, b, requests, calls) && i < |calls|
    requires HeapRuns.Returns(h, b, calls, i, address)
    ensures match requests[i]
            case ForKmalloc(size) => address == HeapRuns.Base(h, calls, i) && size < 0x1000 * HeapRuns.PagesOf(calls[i])
            case ForKmallocPage => address == HeapRuns.Base(h, calls, i) && HeapRuns.PagesOf(calls[i]) == 1
            case ForMalloc(_) => true
  {
    hide HeapRuns.CanRun, HeapRuns.Base, HeapRuns.SharesNext;
    assert HeapRuns.Answers(calls[i], requests[i]);
  }

  /** Address va lies in what request i asked for. */
  predicate AskedAt(requests: seq<HeapRuns.Request>, addresses: seq<nat>, i: nat, va: nat)
    requires i < |requests| && |addresses| == |requests|
  {
    var n := match requests[i] case ForKmalloc(size) => size case ForKmallocPage => 0x1000 case ForMalloc(_) => 0;
    addresses[i] <= va < addresses[i] + n
  }

  lemma AskedAtMeaning(requests: seq<HeapRuns.Request>, addresses: seq<nat>, i: nat, va: nat)
    requires i < |requests| && |addresses| == |requests|
    ensures AskedAt(requests, addresses, i, va) <==>
            addresses[i] <= va < addresses[i] + (
              match requests[i] case ForKmalloc(size) => size case ForKmallocPage => 0x1000 case ForMalloc(_) => 0)
  {
  }

  /** A byte that request i asked for. */
  lemma ByteOfRequest(k: Kernel, h: Heap.State, b: Bytes, requests: seq<HeapRuns.Request>, calls: seq<HeapRuns.Call>,
                      addresses: seq<nat>, i: nat, va: nat)
    requires HasServed(k, h, b, requests, calls, addresses) && i < |requests| == |addresses|
    requires AskedAt(requests, addresses, i, va)
    ensures HeapRuns.CanRun(h, calls) && |calls| == |requests|
    ensures addresses[i] == HeapRuns.Base(h, calls, i) && va - addresses[i] < 0x1000 * HeapRuns.PagesOf(calls[i])
    ensures Canonical(va) && OutsideSlot(va) && Translate(k.ram, k.cr3, va).At? && Translate(k.ram, k.cr3, va).rw
    ensures !k.InKernel(Translate(k.ram, k.cr3, va).frame)
  {
    AskedIsMapped(h, b, requests, calls, i, addresses[i]);
    hide HeapRuns.CanRun, HeapRuns.Before, HeapRuns.Base, HeapRuns.Returns, Translate, Canonical, OutsideSlot, Core;
    HeapIsOutsideKernel(k, h, calls, |calls|, i, va - addresses[i]);
  }

  /** Bytes of different requests. */
  lemma RequestsApart(k: Kernel, h: Heap.State, b: Bytes, requests: seq<HeapRuns.Request>, calls: seq<HeapRuns.Call>,
                      addresses: seq<nat>, i: nat, j: nat, va: nat, vb: nat)
    requires HasServed(k, h, b, requests, calls, addresses) && i < j < |requests| == |addresses|
    requires AskedAt(requests, addresses, i, va) && AskedAt(requests, addresses, j, vb)
    ensures Vpn(va) < Vpn(vb) && Translate(k.ram, k.cr3, va).At? && Translate(k.ram, k.cr3, vb).At?
    ensures Translate(k.ram, k.cr3, va).frame != Translate(k.ram, k.cr3, vb).frame
  {
    hide HeapRuns.CanRun, HeapRuns.Before, HeapRuns.Base, HeapRuns.Returns, Translate, Vpn, Canonical, OutsideSlot,
         Core;
    ByteOfRequest(k, h, b, requests, calls, addresses, i, va);
    ByteOfRequest(k, h, b, requests, calls, addresses, j, vb);
    BytesApart(k, h, calls, i, va - addresses[i], j, vb - addresses[j]);
  }

  lemma BytesApart(k: Kernel, h: Heap.State, calls: seq<HeapRuns.Call>, i: nat, o: nat, j: nat, q: nat)
    requires k.Valid() && h.Room() && h.Increasing() && HeapRuns.CanRun(h, calls) && i < j < |calls|
    requires k.HeapState() == HeapRuns.Before(h, calls, |calls|)
    requires o < PAGE_SIZE * HeapRuns.PagesOf(calls[i]) && q < PAGE_SIZE * HeapRuns.PagesOf(calls[j])
    ensures Vpn(HeapRuns.Base(h, calls, i) + o) < Vpn(HeapRuns.Base(h, calls, j) + q)
    ensures var x := Translate(k.ram, k.cr3, HeapRuns.Base(h, calls, i) + o);
            var y := Translate(k.ram, k.cr3, HeapRuns.Base(h, calls, j) + q);
            x.At? && y.At? && x.frame != y.frame
  {
    hide HeapRuns.CanRun, HeapRuns.Before, HeapRuns.Base, HeapRuns.PagesOf, HeapRuns.PageFrame, Translate, Vpn, Core,
         SelfEntry, Heap.State.Room, Heap.State.Increasing;
    RegionTranslates(k, h, calls, |calls|, i, o);
    RegionTranslates(k, h, calls, |calls|, j, q);
    HeapRuns.RegionsAreDisjoint(h, calls, i, o, j, q);
  }

  /** No frame that is still to be handed out holds a part of the kernel or of the bitmap. */
  ghost predicate FramesOutside(k: Kernel, h: Heap.State)
    reads k.pmap`kernelbase
  {
    forall j | 0 <= j < |h.vm.supply| :: !k.InKernel(h.vm.supply[j])
  }

  lemma BeforeServing(k: Kernel)
    requires k.HeapReady()
    ensures k.HeapState().Room() && k.HeapState().Increasing() && FramesOutside(k, k.HeapState())
  {
    FramesIncrease(k);
  }

  lemma AfterServing(k: Kernel, h: Heap.State, b: Bytes, requests: seq<HeapRuns.Request>, calls: seq<HeapRuns.Call>,
                     addresses: seq<nat>)
    requires k.HeapReady() && h.Room() && h.Increasing() && FramesOutside(k, h)
    requires IsBitmap(b) && HighByte(b) && HeapRuns.Served(h, b, requests, calls) && |addresses| == |requests|
    requires k.HeapState() == HeapRuns.After(h, calls) && HeapRuns.AllReturn(h, b, calls, addresses)
    ensures HasServed(k, h, b, requests, calls, addresses)
  {
    HeapRuns.PrefixRuns(h, calls, |calls|);
  }

  /** Kernel k has gone from heap state h and bitmap b through these requests, with these results. */
  ghost predicate HasServed(k: Kernel, h: Heap.State, b: Bytes, requests: seq<HeapRuns.Request>,
                            calls: seq<HeapRuns.Call>, addresses: seq<nat>)
    reads k, k.pmap, k.pmap.freePagesList
  {
    && k.Valid() && h.Room() && h.Increasing() && FramesOutside(k, h)
    && IsBitmap(b) && HighByte(b) && HeapRuns.Served(h, b, requests, calls) && |addresses| == |requests|
    && k.HeapState() == HeapRuns.Before(h, calls, |calls|) && HeapRuns.AllReturn(h, b, calls, addresses)
  }

  lemma AllMapped(k: Kernel, h: Heap.State, b: Bytes, requests: seq<HeapRuns.Request>, calls: seq<HeapRuns.Call>,
                  addresses: seq<nat>)
    requires HasServed(k, h, b, requests, calls, addresses)
    ensures forall i, va: nat | 0 <= i < |requests| && AskedAt(requests, addresses, i, va) ::
              && Canonical(va) && OutsideSlot(va) && Translate(k.ram, k.cr3, va).At? && Translate(k.ram, k.cr3, va).rw
              && !k.InKernel(Translate(k.ram, k.cr3, va).frame)
  {
    assert |addresses| == |requests|;
    hide AskedAt, HasServed, Canonical, OutsideSlot, Translate, Kernel.InKernel;
    forall i, va: nat | 0 <= i < |requests| && AskedAt(requests, addresses, i, va)
      ensures && Canonical(va) && OutsideSlot(va) && Translate(k.ram, k.cr3, va).At? && Translate(k.ram, k.cr3, va).rw
              && !k.InKernel(Translate(k.ram, k.cr3, va).frame)
    {
      ByteOfRequest(k, h, b, requests, calls, addresses, i, va);
    }
  }

  lemma AllApart(k: Kernel, h: Heap.State, b: Bytes, requests: seq<HeapRuns.Request>, calls: seq<HeapRuns.Call>,
                 addresses: seq<nat>)
    requires HasServed(k, h, b, requests, calls, addresses)
    ensures forall i, j, va: nat, vb: nat | 0 <= i < j < |requests|
              && AskedAt(requests, addresses, i, va) && AskedAt(requests, addresses, j, vb) ::
              && Vpn(va) < Vpn(vb) && Translate(k.ram, k.cr3, va).At? && Translate(k.ram, k.cr3, vb).At?
              && Translate(k.ram, k.cr3, va).frame != Translate(k.ram, k.cr3, vb).frame
  {
    assert |addresses| == |requests|;
    hide AskedAt, HasServed, Translate, Vpn, Canonical, OutsideSlot, Kernel.InKernel, HeapRuns.Served,
         HeapRuns.AllReturn, IsBitmap, HighByte, Kernel.Valid, Kernel.HeapState;
    forall i, j, va: nat, vb: nat | 0 <= i < j < |requests|
      && AskedAt(requests, addresses, i, va) && AskedAt(requests, addresses, j, vb)
      ensures && Vpn(va) < Vpn(vb) && Translate(k.ram, k.cr3, va).At? && Translate(k.ram, k.cr3, vb).At?
              && Translate(k.ram, k.cr3, va).frame != Translate(k.ram, k.cr3, vb).frame
    {
      RequestsApart(k, h, b, requests, calls, addresses, i, j, va, vb);
    }
  }

  /** Every byte that `kmalloc` or `kmalloc_page` was asked for translates, at the address it returned, to
      a writable frame that holds no part of the kernel image or of the bitmap. */
  ghost predicate BytesAreMapped(k: Kernel, requests: seq<HeapRuns.Request>, addresses: seq<nat>)
    requires |addresses| == |requests|
    reads k, k.pmap
  {
    forall i, va: nat | 0 <= i < |requests| && AskedAt(requests, addresses, i, va) ::
      && Canonical(va) && OutsideSlot(va) && Translate(k.ram, k.cr3, va).At? && Translate(k.ram, k.cr3, va).rw
      && !k.InKernel(Translate(k.ram, k.cr3, va).frame)
  }

  /** Bytes of different requests lie on different pages, in different frames. */
  ghost predicate BytesAreApart(k: Kernel, requests: seq<HeapRuns.Request>, addresses: seq<nat>)
    requires |addresses| == |requests|
    reads k
  {
    forall i, j, va: nat, vb: nat | 0 <= i < j < |requests|
    && AskedAt(requests, addresses, i, va) && AskedAt(requests, addresses, j, vb) ::
      && Vpn(va) < Vpn(vb) && Translate(k.ram, k.cr3, va).At? && Translate(k.ram, k.cr3, vb).At?
      && Translate(k.ram, k.cr3, va).frame != Translate(k.ram, k.cr3, vb).frame
  }

  /** Whole-run heap guarantee for a running kernel: it serves any requests, and afterwards all bytes that
      were asked for are mapped and apart. */
  method AllocationsLast(k: Kernel, requests: seq<HeapRuns.Request>, ghost calls: seq<HeapRuns.Call>)
    returns (addresses: seq<nat>)
    requires k.HeapReady() && IsBitmap(k.pmap.freePagesList[..]) && HighByte(k.pmap.freePagesList[..])
    requires HeapRuns.Served(k.HeapState(), k.pmap.freePagesList[..], requests, calls)
    modifies k`ram, k`space, k.pmap`kernelfree, k.pmap.freePagesList
    ensures k.HeapReady() && HasServed(k, old(k.HeapState()), old(k.pmap.freePagesList[..]), requests, calls, addresses)
    ensures |addresses| == |requests| && BytesAreMapped(k, requests, addresses) && BytesAreApart(k, requests, addresses)
  {
    ghost var h, b := k.HeapState(), k.pmap.freePagesList[..];
    assert HeapRuns.CanRun(h, calls);
    hide HasServed, FramesOutside, Kernel.HeapReady, HeapRuns.Served, HeapRuns.CanRun, HeapRuns.After,
         HeapRuns.AllReturn, Heap.State.Room, Heap.State.Increasing, IsBitmap, HighByte, BytesAreMapped, BytesAreApart;
    BeforeServing(k);
    addresses := k.Serve(requests, calls);
    AfterServing(k, h, b, requests, calls, addresses);
    RunIsGood(k, h, b, requests, calls, addresses);
  }

  lemma RunIsGood(k: Kernel, h: Heap.State, b: Bytes, requests: seq<HeapRuns.Request>, calls: seq<HeapRuns.Call>,
                  addresses: seq<nat>)
    requires HasServed(k, h, b, requests, calls, addresses)
    ensures |addresses| == |requests| && BytesAreMapped(k, requests, addresses) && BytesAreApart(k, requests, addresses)
  {
    hide Canonical, OutsideSlot, Translate, Vpn, Kernel.InKernel, HeapRuns.Served, HeapRuns.AllReturn;
    AllMapped(k, h, b, requests, calls, addresses);
    AllApart(k, h, b, requests, calls, addresses);
  }
}
