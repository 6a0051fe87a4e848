/** sys/pmap.c: boot reservation and the frame allocators, over the bitmap in place. */
module Pmap {
  import opened Bits
  import opened Paging
  import opened FrameBitmap
  import opened Options
  import opened AllocatorRuns

  /** A page is reserved when its first byte lies between the two bounds, both included. */
  predicate Reserved(kernelbase: nat, kernelfree: nat, page: nat) {
    kernelbase <= page * PAGE_SIZE <= kernelfree
  }

  /** A range of usable memory as the loader reports it. */
  datatype Region = Region(start: nat, end: nat)

  predicate InRange(r: Region) {
    r.end / PAGE_SIZE <= 8 * MAX_PAGES
  }

  predicate Covers(r: Region, page: nat) {
    r.start / PAGE_SIZE <= page < r.end / PAGE_SIZE
  }

  /** Covering, in addresses: the region starts before the end of the page, and does not end before it. */
  lemma CoversMeaning(r: Region, page: nat)
    ensures Covers(r, page) <==> r.start < (page + 1) * 0x1000 <= r.end
  {
  }

  predicate CoveredBy(regions: seq<Region>, page: nat) {
    exists r | r in regions :: Covers(r, page)
  }

  /** The loop of `set_kernel_in_freelist` from `page` up to `endPage`. */
  function Publish(b: Bytes, base: nat, free: nat, page: nat, endPage: nat): (r: Bytes)
    requires |b| == MAX_PAGES && endPage <= 8 * MAX_PAGES
    ensures |r| == MAX_PAGES
    decreases endPage - page
  {
    if page >= endPage then b
    else Publish(if Reserved(base, free, page) then Mark(b, page) else Clear(b, page),
                 base, free, page + 1, endPage)
  }

  lemma {:induction false} PublishMeaning(b: Bytes, base: nat, free: nat, page: nat, endPage: nat)
    requires IsBitmap(b) && endPage <= 8 * MAX_PAGES
    ensures var r := Publish(b, base, free, page, endPage);
            && IsBitmap(r)
            && forall q: nat | q < 8 * MAX_PAGES ::
                 Used(r, q) <==> if page <= q < endPage then base <= q * 0x1000 <= free else Used(b, q)
    decreases endPage - page
  {
    if page < endPage {
      MarkMeaning(b, page);
      ClearMeaning(b, page);
      PublishMeaning(if Reserved(base, free, page) then Mark(b, page) else Clear(b, page),
                     base, free, page + 1, endPage);
    }
  }

  function AllFull(): (b: Bytes)
    ensures IsBitmap(b) && forall i | 0 <= i < |b| :: b[i] == FULL
  {
    seq(MAX_PAGES, _ => FULL)
  }

  /** The bitmap after `init_freelist` and one `set_kernel_in_freelist` call a region. */
  function Boot(base: nat, free: nat, regions: seq<Region>): (b: Bytes)
    requires forall r | r in regions :: InRange(r)
    ensures |b| == MAX_PAGES
  {
    if regions == [] then AllFull()
    else
      var last := regions[|regions| - 1];
      assert last in regions && InRange(last);
      Publish(Boot(base, free, regions[..|regions| - 1]), base, free,
              last.start / PAGE_SIZE, last.end / PAGE_SIZE)
  }

  /** Boot reservation is exact: a page is free if and only if some region covers it
      and its address does not lie in base .. free. */
  lemma {:induction false} BootIsExact(base: nat, free: nat, regions: seq<Region>)
    requires forall r | r in regions :: InRange(r)
    ensures var b := Boot(base, free, regions);
            && IsBitmap(b)
            && forall q: nat | q < 8 * MAX_PAGES ::
                 !Used(b, q) <==> CoveredBy(regions, q) && (q * 0x1000 < base || q * 0x1000 > free)
  {
    if regions == [] {
      Pow2Values();
      forall q: nat | q < 8 * MAX_PAGES ensures Used(AllFull(), q) {
        BitOfOnes(8, q % 8);
      }
    } else {
      var init, last := regions[..|regions| - 1], regions[|regions| - 1];
      assert last in regions && regions == init + [last];
      BootIsExact(base, free, init);
      PublishMeaning(Boot(base, free, init), base, free, last.start / PAGE_SIZE, last.end / PAGE_SIZE);
      assert forall q: nat :: CoveredBy(regions, q) <==> CoveredBy(init, q) || Covers(last, q);
    }
  }

  /** The order of the regions, overlaps and repetitions do not matter: only which pages
      they cover does. */
  lemma BootIsOrderIndependent(base: nat, free: nat, rs: seq<Region>, rs': seq<Region>)
    requires forall r | r in rs :: InRange(r)
    requires forall r | r in rs' :: InRange(r)
    requires forall q: nat | q < 8 * MAX_PAGES ::
               CoveredBy(rs, q) <==> CoveredBy(rs', q)
    ensures Boot(base, free, rs) == Boot(base, free, rs')
  {
    BootIsExact(base, free, rs);
    BootIsExact(base, free, rs');
    SamePagesSameBytes(Boot(base, free, rs), Boot(base, free, rs'));
  }

  /** Page q shares a byte with the addresses lo .. hi - 1. */
  predicate Overlaps(q: nat, lo: nat, hi: nat) {
    lo < (q + 1) * PAGE_SIZE && q * PAGE_SIZE < hi
  }

  /** That is, some byte of the range lies on the page. */
  lemma OverlapsMeaning(q: nat, lo: nat, hi: nat)
    ensures Overlaps(q, lo, hi) && lo < hi <==> exists a: nat | lo <= a < hi :: a / 0x1000 == q
  {
    if Overlaps(q, lo, hi) && lo < hi {
      var a := if lo <= q * 0x1000 then q * 0x1000 else lo;
      assert a / 0x1000 == q;
    }
  }

  /** After booting with these regions, page q is free though it overlaps the kernel image
      or the bitmap, which lie in base .. physfree + MAX_PAGES - 1. */
  predicate Exposed(base: nat, physfree: nat, regions: seq<Region>, q: nat)
    requires forall r | r in regions :: InRange(r)
  {
    && q < 8 * MAX_PAGES
    && !Used(Boot(base, physfree + MAX_PAGES, regions), q)
    && Overlaps(q, base, physfree + MAX_PAGES)
  }

  /** No free page overlaps the kernel image or the bitmap's own bytes, whatever the regions,
      if and only if the kernel base is page aligned (or its page lies beyond the bitmap). */
  lemma KernelIsSafe(base: nat, physfree: nat)
    requires base < physfree + MAX_PAGES
    ensures (forall regions: seq<Region>, q: nat | forall r | r in regions :: InRange(r) ::
               !Exposed(base, physfree, regions, q))
            <==> base % PAGE_SIZE == 0 || base / PAGE_SIZE >= 8 * MAX_PAGES
  {
    var free := physfree + MAX_PAGES;
    if base % PAGE_SIZE == 0 || base / PAGE_SIZE >= 8 * MAX_PAGES {
      forall regions: seq<Region>, q: nat | forall r | r in regions :: InRange(r)
        ensures !Exposed(base, physfree, regions, q)
      {
        BootIsExact(base, free, regions);
      }
    } else {
      var q := base / PAGE_SIZE;
      var r := Region(q * PAGE_SIZE, (q + 1) * PAGE_SIZE);
      assert InRange(r) && Covers(r, q) && r in [r];
      BootIsExact(base, free, [r]);
      assert Exposed(base, physfree, [r], q);
    }
  }

  /** What an allocator returns: the address of the page, or NULL. */
  function AddressOf(page: Option<nat>): nat {
    match page
    case None => 0
    case Some(p) => p * PAGE_SIZE
  }

  /** The first page is not page 0, so the address 0 can only mean that there is none. */
  lemma KmallocAddress(b: Bytes)
    requires IsBitmap(b) && Stops(b, KERNEL_FIRST)
    ensures var a := AddressOf(Pick(b, KERNEL_FIRST)); FirstFit(b, 528, if a == 0 then None else Some(a / 0x1000))
  {
    PickMeaning(b, KERNEL_FIRST);
    AddressMeaning(Pick(b, KERNEL_FIRST));
  }

  lemma AddressMeaning(page: Option<nat>)
    ensures page.None? ==> AddressOf(page) == 0
    ensures page.Some? ==> AddressOf(page) % 0x1000 == 0 && AddressOf(page) / 0x1000 == page.value
  {
  }

  /** The first i calls of a run have led to bitmap c and to these results. */
  ghost predicate Performed(b: Bytes, ops: seq<Op>, i: nat, c: Bytes, addresses: seq<nat>)
    requires StaysInside(b, ops)
  {
    && |addresses| == i <= |ops| && StaysInside(b, ops[..i]) && c == After(b, ops[..i])
    && forall j | 0 <= j < i :: addresses[j] == AddressOf(Result(b, ops, j))
  }

  lemma NoOps(b: Bytes, ops: seq<Op>)
    requires StaysInside(b, ops)
    ensures Performed(b, ops, 0, b, [])
  {
    assert ops[..0] == [];
  }

  lemma NextOp(b: Bytes, ops: seq<Op>, i: nat, c: Bytes, addresses: seq<nat>)
    requires StaysInside(b, ops) && Performed(b, ops, i, c, addresses) && i < |ops|
    ensures Stops(c, First(ops[i])) && Result(b, ops, i) == Pick(c, First(ops[i]))
  {
    hide Stops, Pick, First, AddressOf;
    PrefixStaysInside(b, ops, i);
  }

  /** One call more. */
  lemma OneOp(b: Bytes, ops: seq<Op>, i: nat, c: Bytes, addresses: seq<nat>)
    requires StaysInside(b, ops) && Performed(b, ops, i, c, addresses) && i < |ops|
    ensures Stops(c, First(ops[i]))
    ensures Performed(b, ops, i + 1, Take(c, First(ops[i])), addresses + [AddressOf(Pick(c, First(ops[i])))])
  {
    NextOp(b, ops, i, c, addresses);
    hide Stops, Pick, Take, First, AddressOf, Result;
    PrefixStaysInside(b, ops, i + 1);
    assert ops[..i + 1][..i] == ops[..i];
  }

  lemma AllOps(b: Bytes, ops: seq<Op>, c: Bytes, addresses: seq<nat>)
    requires StaysInside(b, ops) && Performed(b, ops, |ops|, c, addresses)
    ensures |addresses| == |ops| && c == After(b, ops)
    ensures forall i | 0 <= i < |ops| :: addresses[i] == AddressOf(Result(b, ops, i))
  {
    hide After, Result, AddressOf;
    assert ops[..|ops|] == ops;
  }

  lemma AddressesDiffer(b: Bytes, ops: seq<Op>, addresses: seq<nat>)
    requires IsBitmap(b) && StaysInside(b, ops) && |addresses| == |ops|
    requires forall i | 0 <= i < |ops| :: addresses[i] == AddressOf(Result(b, ops, i))
    ensures forall i | 0 <= i < |ops| && addresses[i] != 0 ::
              addresses[i] % 0x1000 == 0 && addresses[i] / 0x1000 < 8192 && !Used(b, addresses[i] / 0x1000)
    ensures forall i, j | 0 <= i < j < |ops| && addresses[i] != 0 :: addresses[i] != addresses[j]
  {
    hide Used, StaysInside, Result, AddressOf;
    forall i | 0 <= i < |ops| && addresses[i] != 0
      ensures addresses[i] % 0x1000 == 0 && addresses[i] / 0x1000 < 8192 && !Used(b, addresses[i] / 0x1000)
    {
      AddressMeaning(Result(b, ops, i));
      PageWasFree(b, ops, i);
    }
    forall i, j | 0 <= i < j < |ops| && addresses[i] != 0 ensures addresses[i] != addresses[j] {
      AddressMeaning(Result(b, ops, i));
      AddressMeaning(Result(b, ops, j));
      if Result(b, ops, j).Some? { NoDoubleAllocation(b, ops, i, j); }
    }
  }

  /** The allocator's globals: the bitmap, its physical address, and the bounds of the reserved memory. */
  class FreeList {
    const freePagesList: array<nat>
    const bitmapBase: nat
    var kernelbase: nat
    var kernelfree: nat

    ghost predicate Valid()
      reads this, freePagesList
    {
      IsBitmap(freePagesList[..])
    }

    constructor InitFreelist(physbase: nat, physfree: nat)
      ensures Valid() && fresh(freePagesList)
      ensures kernelbase == physbase && bitmapBase == physfree && kernelfree == physfree + 8192
      ensures freePagesList.Length == 8192 && forall i | 0 <= i < 8192 :: freePagesList[i] == 255
      ensures freePagesList[..] == Boot(kernelbase, kernelfree, [])
    {
      kernelbase := physbase;
      freePagesList := new nat[MAX_PAGES];
      bitmapBase := physfree;
      kernelfree := physfree;
      new;
      for counter := 0 to MAX_PAGES
        invariant kernelbase == physbase && kernelfree == physfree
        invariant forall i | 0 <= i < counter :: freePagesList[i] == FULL
      {
        freePagesList[counter] := FULL;
      }
      kernelfree := kernelfree + MAX_PAGES;
    }

    function IsMemoryReserved(page: nat): bool
      reads this
    {
      page * PAGE_SIZE >= kernelbase && page * PAGE_SIZE <= kernelfree
    }

    method SetKernelInFreelist(startAddr: nat, endAddr: nat)
      requires Valid() && InRange(Region(startAddr, endAddr))
      modifies freePagesList
      ensures Valid()
      ensures freePagesList[..] == Publish(old(freePagesList[..]), kernelbase, kernelfree,
                                           startAddr / PAGE_SIZE, endAddr / PAGE_SIZE)
      ensures forall q: nat | q < 8 * 8192 ::
                Used(freePagesList[..], q) <==> if startAddr / 0x1000 <= q < endAddr / 0x1000
                                                then kernelbase <= q * 0x1000 <= kernelfree
                                                else old(Used(freePagesList[..], q))
    {
      PublishMeaning(freePagesList[..], kernelbase, kernelfree, startAddr / PAGE_SIZE, endAddr / PAGE_SIZE);
      var page := startAddr / PAGE_SIZE;
      var endPage := endAddr / PAGE_SIZE;
      while page < endPage
        invariant IsBitmap(freePagesList[..])
        invariant Publish(freePagesList[..], kernelbase, kernelfree, page, endPage) ==
                  Publish(old(freePagesList[..]), kernelbase, kernelfree, startAddr / PAGE_SIZE, endPage)
      {
        ghost var b := freePagesList[..];
        MarkMeaning(b, page);
        ClearMeaning(b, page);
        if IsMemoryReserved(page) {
          freePagesList[page / 8] := Or(freePagesList[page / 8], Shl(1, page % 8)) % 256;
          assert freePagesList[..] == Mark(b, page);
        } else {
          OneShifted(page % 8);
          freePagesList[page / 8] := And(freePagesList[page / 8], 0xFFFF_FFFF - Shl(1, page % 8)) % 256;
          assert freePagesList[..] == Clear(b, page);
        }
        page := page + 1;
      }
    }

    /** Returns the address of a free page, or 0 (NULL) when the search finds none. */
    method KmallocMem() returns (address: nat)
      requires Valid() && Stops(freePagesList[..], KERNEL_FIRST)
      modifies freePagesList
      ensures Valid() && freePagesList[..] == Take(old(freePagesList[..]), KERNEL_FIRST)
      ensures address == match Pick(old(freePagesList[..]), KERNEL_FIRST)
                         case None => 0
                         case Some(p) => p * PAGE_SIZE
      ensures FirstFit(old(freePagesList[..]), 528, if address == 0 then None else Some(address / 0x1000))
    {
      KmallocAddress(freePagesList[..]);
      hide FirstFit, Stops, IsBitmap, Pick, Take;
      address := Search(KERNEL_FIRST);
    }

    /** As `KmallocMem`, but from page 0 on, so that 0 is also the address of the first page. */
    method MallocMem() returns (address: nat)
      requires Valid() && Stops(freePagesList[..], 0)
      modifies freePagesList
      ensures Valid() && freePagesList[..] == Take(old(freePagesList[..]), 0)
      ensures address == match Pick(old(freePagesList[..]), 0)
                         case None => 0
                         case Some(p) => p * PAGE_SIZE
      ensures exists r :: FirstFit(old(freePagesList[..]), 0, r) && address == AddressOf(r)
    {
      PickMeaning(freePagesList[..], 0);
      hide FirstFit, Stops, IsBitmap;
      address := Search(0);
    }

    method Perform(op: Op) returns (address: nat)
      requires Valid() && Stops(freePagesList[..], First(op))
      modifies freePagesList
      ensures Valid() && freePagesList[..] == Take(old(freePagesList[..]), First(op))
      ensures address == AddressOf(Pick(old(freePagesList[..]), First(op)))
    {
      hide IsBitmap, Stops, Take, Pick, FirstFit;
      match op {
        case KmallocMem => address := KmallocMem();
        case MallocMem => address := MallocMem();
      }
    }

    /** Any calls of the two allocators, in any order. */
    method PerformAll(ops: seq<Op>) returns (addresses: seq<nat>)
      requires Valid() && StaysInside(freePagesList[..], ops)
      modifies freePagesList
      ensures Valid() && |addresses| == |ops| && freePagesList[..] == After(old(freePagesList[..]), ops)
      ensures forall i | 0 <= i < |ops| :: addresses[i] == AddressOf(Result(old(freePagesList[..]), ops, i))
    {
      ghost var b := freePagesList[..];
      hide IsBitmap, Stops, Take, Pick, StaysInside, Performed, First;
      addresses := [];
      NoOps(b, ops);
      for i := 0 to |ops|
        invariant Valid() && Performed(b, ops, i, freePagesList[..], addresses)
      {
        ghost var c := freePagesList[..];
        NextOp(b, ops, i, c, addresses);
        var address := Perform(ops[i]);
        OneOp(b, ops, i, c, addresses);
        addresses := addresses + [address];
      }
      AllOps(b, ops, freePagesList[..], addresses);
    }

    /** In any run of the two allocators a page is never returned twice, and every page returned was free
        at the start. */
    method Allocate(ops: seq<Op>) returns (addresses: seq<nat>)
      requires Valid() && StaysInside(freePagesList[..], ops)
      modifies freePagesList
      ensures Valid() && |addresses| == |ops| && freePagesList[..] == After(old(freePagesList[..]), ops)
      ensures forall i | 0 <= i < |ops| && addresses[i] != 0 ::
                addresses[i] % 0x1000 == 0 && addresses[i] / 0x1000 < 8192
                && !Used(old(freePagesList[..]), addresses[i] / 0x1000)
      ensures forall i, j | 0 <= i < j < |ops| && addresses[i] != 0 :: addresses[i] != addresses[j]
    {
      ghost var b := freePagesList[..];
      addresses := PerformAll(ops);
      hide StaysInside, After, Result, AddressOf, Used;
      AddressesDiffer(b, ops, addresses);
    }

    /** The body the two allocators share, from their first page on. */
    method Search(first: nat) returns (address: nat)
      requires Valid() && Stops(freePagesList[..], first)
      modifies freePagesList
      ensures Valid() && freePagesList[..] == Take(old(freePagesList[..]), first)
      ensures address == match Pick(old(freePagesList[..]), first)
                         case None => 0
                         case Some(p) => p * PAGE_SIZE
    {
      hide Or, Shl, Shr;
      ghost var b := freePagesList[..];
      var page := first;
      while freePagesList[page] == FULL
        invariant first <= page <= PreScan(b, first)
        decreases MAX_PAGES - page
      {
        page := page + 1;
      }
      assert page == PreScan(b, first);
      while page < MAX_PAGES
        invariant page <= MAX_PAGES && freePagesList[..] == b
        invariant Scan(b, page) == Pick(b, first)
      {
        if Shr(freePagesList[page / 8], page % 8) == 0 {
          assert Scan(b, page) == Some(page);
          freePagesList[page / 8] := Or(freePagesList[page / 8], Shl(1, page % 8)) % 256;
          assert freePagesList[..] == Mark(b, page);
          MarkMeaning(b, page);
          return page * PAGE_SIZE;
        }
        page := page + 1;
      }
      return 0;
    }
  }
}
