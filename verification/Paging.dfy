/** Virtual addresses, the recursive-slot macros and the hardware walk.
    The walk is the one of 4-level paging with 4 KB pages: section 4.5 of the
    Intel 64 and IA-32 Architectures Software Developer's Manual, Volume 3A. */
module Paging {
  import opened Bits

  const PR: nat := 0x1
  const RW: nat := 0x2
  const US: nat := 0x4
  const PAGE_SIZE: nat := 0x1000
  const PAGE_ALIGN: nat := 0xFFFF_FFFF_FFFF_F000
  const VIRT_OFFSET: nat := 0xFFFF_FFFF_8000_0000
  const VIRT_BASE: nat := 0xFFFF_FFFF_F000_0000

  const RECURSIVE_SLOT: nat := 510
  const L4_SHIFT: nat := 39
  const L3_SHIFT: nat := 30
  const L2_SHIFT: nat := 21
  const L1_SHIFT: nat := 12

  function UpperAddr(x: nat): nat {
    Or(Shl(0xffff, 48), x)
  }

  function PtAddr(): nat {
    UpperAddr(Shl(RECURSIVE_SLOT, L4_SHIFT))
  }

  function PdAddr(): nat {
    UpperAddr(Or(Shl(RECURSIVE_SLOT, L4_SHIFT), Shl(RECURSIVE_SLOT, L3_SHIFT)))
  }

  function PdpAddr(): nat {
    UpperAddr(Or(Or(Shl(RECURSIVE_SLOT, L4_SHIFT), Shl(RECURSIVE_SLOT, L3_SHIFT)),
                 Shl(RECURSIVE_SLOT, L2_SHIFT)))
  }

  function Pml4Addr(): nat {
    UpperAddr(Or(Or(Or(Shl(RECURSIVE_SLOT, L4_SHIFT), Shl(RECURSIVE_SLOT, L3_SHIFT)),
                    Shl(RECURSIVE_SLOT, L2_SHIFT)),
                 Shl(RECURSIVE_SLOT, L1_SHIFT)))
  }

  /** `((virt << 16) >> 16) >> shift << L1_SHIFT`, the part the macros share. */
  function Slot(virt: nat, shift: nat): nat {
    Shl(Shr(Shr(Shl(virt, 16), 16), shift), L1_SHIFT)
  }

  function PdpBase(virt: nat): nat { Or(PdpAddr(), Slot(virt, L4_SHIFT)) }

  function PdBase(virt: nat): nat { Or(PdAddr(), Slot(virt, L3_SHIFT)) }

  function PtBase(virt: nat): nat { Or(PtAddr(), Slot(virt, L2_SHIFT)) }

  function PhyToVirt(phy: nat): nat { (phy + VIRT_OFFSET) % W64 }

  function GetPTIndex(a: nat): nat { And(Shr(a, 12), 0x1FF) }

  function GetPDIndex(a: nat): nat { And(Shr(a, 21), 0x1FF) }

  function GetPDPIndex(a: nat): nat { And(Shr(a, 30), 0x1FF) }

  function GetPML4Index(a: nat): nat { And(Shr(a, 39), 0x1FF) }

  /** The 36-bit virtual page number, four indices of nine bits. */
  function Vpn(va: nat): (r: nat)
    ensures r < 0x10_0000_0000
  {
    va % 0x1_0000_0000_0000 / 0x1000
  }

  predicate Canonical(va: nat) {
    va < 0x8000_0000_0000 || 0xFFFF_8000_0000_0000 <= va < W64
  }

  lemma TableAddresses()
    ensures PtAddr() == 0xFFFF_FF00_0000_0000
    ensures PdAddr() == 0xFFFF_FF7F_8000_0000
    ensures PdpAddr() == 0xFFFF_FF7F_BFC0_0000
    ensures Pml4Addr() == 0xFFFF_FF7F_BFDF_E000
  {
    SlotBits();
    JoinSlots(Shl(RECURSIVE_SLOT, L4_SHIFT), Shl(RECURSIVE_SLOT, L3_SHIFT),
              Shl(RECURSIVE_SLOT, L2_SHIFT), Shl(RECURSIVE_SLOT, L1_SHIFT));
  }

  lemma SlotBits()
    ensures Shl(RECURSIVE_SLOT, L4_SHIFT) == 0xFF00_0000_0000
    ensures Shl(RECURSIVE_SLOT, L3_SHIFT) == 0x7F_8000_0000
    ensures Shl(RECURSIVE_SLOT, L2_SHIFT) == 0x3FC0_0000
    ensures Shl(RECURSIVE_SLOT, L1_SHIFT) == 0x1F_E000
    ensures Shl(0xffff, 48) == 0xFFFF_0000_0000_0000
  {
    Pow2Values();
  }

  lemma JoinSlots(s4: nat, s3: nat, s2: nat, s1: nat)
    requires s4 == 0xFF00_0000_0000 && s3 == 0x7F_8000_0000 && s2 == 0x3FC0_0000 && s1 == 0x1F_E000
    ensures UpperAddr(s4) == 0xFFFF_FF00_0000_0000
    ensures UpperAddr(Or(s4, s3)) == 0xFFFF_FF7F_8000_0000
    ensures UpperAddr(Or(Or(s4, s3), s2)) == 0xFFFF_FF7F_BFC0_0000
    ensures UpperAddr(Or(Or(Or(s4, s3), s2), s1)) == 0xFFFF_FF7F_BFDF_E000
  {
    OrSlots(s4, s3, s2, s1);
    UpperBits(s4);
    UpperBits(s4 + s3);
    UpperBits(s4 + s3 + s2);
    UpperBits(s4 + s3 + s2 + s1);
  }

  lemma OrSlots(s4: nat, s3: nat, s2: nat, s1: nat)
    requires s4 == 0xFF00_0000_0000 && s3 == 0x7F_8000_0000 && s2 == 0x3FC0_0000 && s1 == 0x1F_E000
    ensures Or(s4, s3) == s4 + s3
    ensures Or(s4 + s3, s2) == s4 + s3 + s2
    ensures Or(s4 + s3 + s2, s1) == s4 + s3 + s2 + s1
  {
    hide Or, Pow2;
    Pow2Values();
    assert Or(s4, s3) == s4 + s3 by { OrDisjoint(s4, s3, 39); }
    assert Or(s4 + s3, s2) == s4 + s3 + s2 by { OrDisjoint(s4 + s3, s2, 30); }
    assert Or(s4 + s3 + s2, s1) == s4 + s3 + s2 + s1 by { OrDisjoint(s4 + s3 + s2, s1, 21); }
  }

  lemma UpperBits(x: nat)
    requires x < 0x1_0000_0000_0000
    ensures UpperAddr(x) == 0xFFFF_0000_0000_0000 + x
  {
    SlotBits();
    Pow2Values();
    OrDisjoint(Shl(0xffff, 48), x, 48);
  }

  /** Each index function yields the next nine bits of the page number. */
  lemma IndexMeaning(va: nat)
    requires va < W64
    ensures GetPTIndex(va) == Vpn(va) % 512
    ensures GetPDIndex(va) == Vpn(va) / 512 % 512
    ensures GetPDPIndex(va) == Vpn(va) / 512 / 512 % 512
    ensures GetPML4Index(va) == Vpn(va) / 512 / 512 / 512 < 512
  {
    Pow2Values();
    ShrIsDiv(va, 12);
    ShrIsDiv(va, 21);
    ShrIsDiv(va, 30);
    ShrIsDiv(va, 39);
    NestedDiv(va);
    var x := va / 0x1000;
    AndLowMask(x, 9);
    AndLowMask(x / 512, 9);
    AndLowMask(x / 512 / 512, 9);
    AndLowMask(x / 512 / 512 / 512, 9);
    IndexDigits(va);
  }

  lemma NestedDiv(va: nat)
    ensures va / 0x20_0000 == va / 0x1000 / 512
    ensures va / 0x4000_0000 == va / 0x1000 / 512 / 512
    ensures va / 0x80_0000_0000 == va / 0x1000 / 512 / 512 / 512
  {
  }

  lemma IndexDigits(va: nat)
    ensures Vpn(va) % 512 == va / 0x1000 % 512
    ensures Vpn(va) / 512 % 512 == va / 0x1000 / 512 % 512
    ensures Vpn(va) / 512 / 512 % 512 == va / 0x1000 / 512 / 512 % 512
    ensures Vpn(va) / 512 / 512 / 512 == va / 0x1000 / 512 / 512 / 512 % 512
  {
    var hi := va / 0x1_0000_0000_0000;
    var x, v := va / 0x1000, Vpn(va);
    assert x == hi * 0x10_0000_0000 + v;
    DropDigit(x, v, hi, 0x800_0000);
    DropDigit(x / 512, v / 512, hi, 0x4_0000);
    DropDigit(x / 512 / 512, v / 512 / 512, hi, 512);
  }

  lemma DropDigit(x: nat, v: nat, hi: nat, m: nat)
    requires m in {0x800_0000, 0x4_0000, 512}
    requires x == hi * (m * 512) + v && v < m * 512
    ensures v % 512 == x % 512
    ensures x / 512 == hi * m + v / 512
    ensures v / 512 < m
  {
  }

  /** `address | PR | RW | US` for an aligned address. */
  function WithFlags(address: nat): nat {
    Or(Or(Or(address, PR), RW), US)
  }

  lemma FlagsAreAdded(f: nat)
    ensures WithFlags(f * 0x1000) == f * 0x1000 + 7
  {
    OrOne(f * 0x800);
    OrTwo(f * 0x400);
    OrFour(f * 0x200);
  }

  /** Masking an entry with PAGE_ALIGN leaves the address it holds. */
  lemma EntryAddress(f: nat)
    requires f < 0x100_0000_0000
    ensures And(f * 0x1000 + 7, PAGE_ALIGN) == f * 0x1000 && And(0, PAGE_ALIGN) == 0
  {
    hide And;
    AlignDown(f * 0x1000 + 7);
    AlignDown(0);
    DivModUnique(f * 0x1000 + 7, 0x1000, f, 7);
  }

  lemma MasksAreOnes()
    ensures PAGE_ALIGN == Up(Pow2(52) - 1, 12)
    ensures VIRT_BASE == Up(Pow2(36) - 1, 28)
  {
    Pow2Values();
    UpIsTimes(Pow2(52) - 1, 12);
    UpIsTimes(Pow2(36) - 1, 28);
  }

  lemma AlignDown(a: nat)
    requires a < W64
    ensures And(a, PAGE_ALIGN) == a / 0x1000 * 0x1000
    ensures And(a, VIRT_BASE) == a / 0x1000_0000 * 0x1000_0000
  {
    Pow2Values();
    MasksAreOnes();
    AndHighOnes(a, 52, 12);
    AndHighOnes(a, 36, 28);
  }

  // ----- Physical memory and the hardware walk -----

  /** Physical memory as frames of 512 words. */
  type Ram = seq<seq<nat>>

  /** A word of RAM; reads outside RAM find no present entry. */
  function Rd(ram: Ram, f: nat, i: nat): nat {
    if f < |ram| && i < |ram[f]| then ram[f][i] else 0
  }

  function Wr(ram: Ram, f: nat, i: nat, w: nat): Ram {
    if f < |ram| && i < |ram[f]| then
      var page: seq<nat> := ram[f][i := w];
      ram[f := page]
    else ram
  }

  /** What a walk has found: a frame with the rights granted so far, or a fault. */
  datatype Xlat = Fault | At(frame: nat, rw: bool, us: bool)

  /** Follows entry i of the table at x. An entry above the last level
      must not have bit 7 (large page) set. */
  function Step(ram: Ram, x: Xlat, i: nat, last: bool): Xlat {
    if x.Fault? then Fault
    else
      var e := Rd(ram, x.frame, i);
      if e % 2 == 0 || (!last && e / 0x80 % 2 == 1) then Fault
      else At(e / 0x1000 % 0x100_0000_0000, x.rw && e / 2 % 2 == 1, x.us && e / 4 % 2 == 1)
  }

  /** The table of the given level (4 = PML4 ... 1 = PT), or at level 0 the page,
      that the walk from `root` reaches for the address prefix q. */
  function Reach(ram: Ram, root: nat, level: nat, q: nat): Xlat
    decreases 4 - level
  {
    if level >= 4 then At(root, true, true)
    else Step(ram, Reach(ram, root, level + 1, q / 512), q % 512, level == 0)
  }

  function Translate(ram: Ram, root: nat, va: nat): Xlat {
    if Canonical(va) then Reach(ram, root, 0, Vpn(va)) else Fault
  }

  /** Entry 510 of the top table maps the top table itself. */
  predicate SelfMapped(ram: Ram, root: nat) {
    && Step(ram, At(root, true, true), RECURSIVE_SLOT, false) == At(root, true, true)
  }

  /** The recursive bases are page aligned and carry the indices of va, shifted down
      behind the recursive slot. */
  lemma PtBaseIs(va: nat)
    requires va < W64
    ensures Vpn(va) / 512 < 0x800_0000
    ensures PtBase(va) == 0xFFFF_FF00_0000_0000 + (Vpn(va) / 512) * 0x1000
  {
    Pow2Values();
    TableAddresses();
    SlotMeaning(va);
    OrDisjoint(PtAddr(), Slot(va, L2_SHIFT), 39);
  }

  lemma PdBaseIs(va: nat)
    requires va < W64
    ensures Vpn(va) / 512 / 512 < 0x4_0000
    ensures PdBase(va) == 0xFFFF_FF00_0000_0000 + (0x7F8_0000 + Vpn(va) / 512 / 512) * 0x1000
  {
    Pow2Values();
    TableAddresses();
    SlotMeaning(va);
    OrDisjoint(PdAddr(), Slot(va, L3_SHIFT), 30);
  }

  lemma PdpBaseIs(va: nat)
    requires va < W64
    ensures Vpn(va) / 512 / 512 / 512 < 512
    ensures PdpBase(va) == 0xFFFF_FF00_0000_0000 + (0x7FB_FC00 + Vpn(va) / 512 / 512 / 512) * 0x1000
  {
    Pow2Values();
    TableAddresses();
    SlotMeaning(va);
    OrDisjoint(PdpAddr(), Slot(va, L4_SHIFT), 21);
  }

  lemma SlotMeaning(va: nat)
    requires va < W64
    ensures Slot(va, L2_SHIFT) == Vpn(va) / 512 * 0x1000 < 0x80_0000_0000
    ensures Slot(va, L3_SHIFT) == Vpn(va) / 512 / 512 * 0x1000 < 0x4000_0000
    ensures Slot(va, L4_SHIFT) == Vpn(va) / 512 / 512 / 512 * 0x1000 < 0x20_0000
  {
    Pow2Values();
    var low := va % 0x1_0000_0000_0000;
    ShrIsDiv(low, 21);
    ShrIsDiv(low, 30);
    ShrIsDiv(low, 39);
    NestedDiv(low);
    SlotBounds(Vpn(va));
    SlotShift(va, L2_SHIFT, Vpn(va) / 512);
    SlotShift(va, L3_SHIFT, Vpn(va) / 512 / 512);
    SlotShift(va, L4_SHIFT, Vpn(va) / 512 / 512 / 512);
  }

  lemma SlotShift(va: nat, shift: nat, q: nat)
    requires Shr(va % 0x1_0000_0000_0000, shift) == q && q * 0x1000 < W64
    ensures Slot(va, shift) == q * 0x1000
  {
    Pow2Values();
    DropHighBits(va);
    ShrIsDiv(Shl(va, 16), 16);
  }

  lemma DropHighBits(va: nat)
    ensures va * 0x1_0000 % W64 == va % 0x1_0000_0000_0000 * 0x1_0000
    ensures va * 0x1_0000 % W64 / 0x1_0000 == va % 0x1_0000_0000_0000
  {
    var hi, low := va / 0x1_0000_0000_0000, va % 0x1_0000_0000_0000;
    assert va * 0x1_0000 == W64 * hi + low * 0x1_0000;
    DivModUnique(va * 0x1_0000, W64, hi, low * 0x1_0000);
  }

  lemma SlotBounds(v: nat)
    requires v < 0x10_0000_0000
    ensures v / 512 * 0x1000 < 0x80_0000_0000
    ensures v / 512 / 512 * 0x1000 < 0x4000_0000
    ensures v / 512 / 512 / 512 * 0x1000 < 0x20_0000
  {
  }

  /** Walking through the recursive slot leads back to the top table. */
  lemma ThroughSlot(ram: Ram, root: nat)
    requires SelfMapped(ram, root)
    ensures Reach(ram, root, 3, 510) == At(root, true, true)
    ensures Reach(ram, root, 2, 510 * 512 + 510) == At(root, true, true)
    ensures Reach(ram, root, 1, 510 * 512 * 512 + 510 * 512 + 510) == At(root, true, true)
  {
    assert Reach(ram, root, 4, 0) == At(root, true, true);
    assert Reach(ram, root, 3, 510) == Step(ram, Reach(ram, root, 4, 510 / 512), 510 % 512, false);
    assert Reach(ram, root, 2, 510 * 512 + 510) == Step(ram, Reach(ram, root, 3, 510), 510, false);
    assert Reach(ram, root, 1, 510 * 512 * 512 + 510 * 512 + 510) ==
           Step(ram, Reach(ram, root, 2, 510 * 512 + 510), 510, false);
  }

  /** What the walk to prefix q finds when its last entry is read as a leaf. */
  function Leaf(ram: Ram, root: nat, level: nat, q: nat): Xlat {
    Step(ram, Reach(ram, root, level + 1, q / 512), q % 512, true)
  }

  lemma ViaPml4(ram: Ram, root: nat, j: nat)
    requires j < 512 && SelfMapped(ram, root)
    ensures Translate(ram, root, Pml4Addr() + 8 * j) == At(root, true, true)
    ensures (Pml4Addr() + 8 * j) % 0x1000 / 8 == j && Pml4Addr() + 8 * j < W64
  {
    TableAddresses();
    ThroughSlot(ram, root);
    OneBehind(ram, root, 1, 510 * 512 * 512 + 510 * 512 + 510, 510);
    RecursiveWalk(ram, root, Pml4Addr(), 0x7FB_FDFE, j);
  }

  lemma ViaPdp(ram: Ram, root: nat, va: nat, j: nat)
    requires va < W64 && j < 512 && SelfMapped(ram, root)
    ensures Translate(ram, root, PdpBase(va) + 8 * j) == Leaf(ram, root, 3, Vpn(va) / 512 / 512 / 512)
    ensures (PdpBase(va) + 8 * j) % 0x1000 / 8 == j && PdpBase(va) + 8 * j < W64
  {
    var base, q := PdpBase(va), Vpn(va) / 512 / 512 / 512;
    assert base == 0xFFFF_FF00_0000_0000 + (0x7FB_FC00 + q) * 0x1000 && q < 512 by {
      PdpBaseIs(va);
    }
    ViaPdpAt(ram, root, base, q, j);
  }

  lemma ViaPdpAt(ram: Ram, root: nat, base: nat, q: nat, j: nat)
    requires base == 0xFFFF_FF00_0000_0000 + (0x7FB_FC00 + q) * 0x1000 && q < 512 && j < 512
    requires SelfMapped(ram, root)
    ensures Translate(ram, root, base + 8 * j) == Leaf(ram, root, 3, q)
    ensures (base + 8 * j) % 0x1000 / 8 == j && base + 8 * j < W64
  {
    ThroughSlot(ram, root);
    RecursiveWalk(ram, root, base, 0x7FB_FC00 + q, j);
    OneBehind(ram, root, 1, 510 * 512 * 512 + 510 * 512 + 510, q);
  }

  lemma ViaPd(ram: Ram, root: nat, va: nat, j: nat)
    requires va < W64 && j < 512 && SelfMapped(ram, root)
    ensures Translate(ram, root, PdBase(va) + 8 * j) == Leaf(ram, root, 2, Vpn(va) / 512 / 512)
    ensures (PdBase(va) + 8 * j) % 0x1000 / 8 == j && PdBase(va) + 8 * j < W64
  {
    var base, q := PdBase(va), Vpn(va) / 512 / 512;
    assert base == 0xFFFF_FF00_0000_0000 + (0x7F8_0000 + q) * 0x1000 && q < 0x4_0000 by {
      PdBaseIs(va);
    }
    ViaPdAt(ram, root, base, q, j);
  }

  lemma ViaPdAt(ram: Ram, root: nat, base: nat, q: nat, j: nat)
    requires base == 0xFFFF_FF00_0000_0000 + (0x7F8_0000 + q) * 0x1000 && q < 0x4_0000 && j < 512
    requires SelfMapped(ram, root)
    ensures Translate(ram, root, base + 8 * j) == Leaf(ram, root, 2, q)
    ensures (base + 8 * j) % 0x1000 / 8 == j && base + 8 * j < W64
  {
    ThroughSlot(ram, root);
    RecursiveWalk(ram, root, base, 0x7F8_0000 + q, j);
    TwoBehind(ram, root, 2, 510 * 512 + 510, q);
  }

  lemma ViaPt(ram: Ram, root: nat, va: nat, j: nat)
    requires va < W64 && j < 512 && SelfMapped(ram, root)
    ensures Translate(ram, root, PtBase(va) + 8 * j) == Leaf(ram, root, 1, Vpn(va) / 512)
    ensures (PtBase(va) + 8 * j) % 0x1000 / 8 == j && PtBase(va) + 8 * j < W64
  {
    var base, q := PtBase(va), Vpn(va) / 512;
    assert base == 0xFFFF_FF00_0000_0000 + (q) * 0x1000 && q < 0x800_0000 by {
      PtBaseIs(va);
    }
    ViaPtAt(ram, root, base, q, j);
  }

  lemma ViaPtAt(ram: Ram, root: nat, base: nat, q: nat, j: nat)
    requires base == 0xFFFF_FF00_0000_0000 + (q) * 0x1000 && q < 0x800_0000 && j < 512
    requires SelfMapped(ram, root)
    ensures Translate(ram, root, base + 8 * j) == Leaf(ram, root, 1, q)
    ensures (base + 8 * j) % 0x1000 / 8 == j && base + 8 * j < W64
  {
    ThroughSlot(ram, root);
    RecursiveWalk(ram, root, base, q, j);
    ThreeBehind(ram, root, q);
  }

  lemma RecursiveWalk(ram: Ram, root: nat, base: nat, page: nat, j: nat)
    requires base == 0xFFFF_FF00_0000_0000 + page * 0x1000 && page < 0x800_0000 && j < 512
    ensures Translate(ram, root, base + 8 * j) == Reach(ram, root, 0, 510 * 0x800_0000 + page)
    ensures (base + 8 * j) % 0x1000 / 8 == j && base + 8 * j < W64
  {
    RecursiveVpn(base, page, j);
  }

  lemma RecursiveVpn(base: nat, page: nat, j: nat)
    requires base == 0xFFFF_FF00_0000_0000 + page * 0x1000 && page < 0x800_0000 && j < 512
    ensures Canonical(base + 8 * j) && Vpn(base + 8 * j) == 510 * 0x800_0000 + page
    ensures (base + 8 * j) % 0x1000 / 8 == j
  {
    var a, low := base + 8 * j, 0xFF00_0000_0000 + page * 0x1000 + 8 * j;
    assert a % 0x1_0000_0000_0000 == low by { DivModUnique(a, 0x1_0000_0000_0000, 0xFFFF, low); }
    assert low / 0x1000 == 510 * 0x800_0000 + page by { DivModUnique(low, 0x1000, 510 * 0x800_0000 + page, 8 * j); }
    assert a % 0x1000 == 8 * j by { DivModUnique(a, 0x1000, 0xF_FFFF_F000_0000 + page, 8 * j); }
  }

  /** The table reached at prefix k is the top table, so one more index q walks from the top. */
  lemma OneBehind(ram: Ram, root: nat, level: nat, k: nat, q: nat)
    requires 1 <= level <= 4 && q < 512 && Reach(ram, root, level, k) == At(root, true, true)
    ensures Reach(ram, root, level - 1, k * 512 + q) == Step(ram, At(root, true, true), q, level == 1)
    ensures Leaf(ram, root, 3, q) == Step(ram, At(root, true, true), q, true)
    ensures Reach(ram, root, 3, q) == Step(ram, At(root, true, true), q, false)
  {
    assert (k * 512 + q) / 512 == k && (k * 512 + q) % 512 == q;
    assert q / 512 == 0 && q % 512 == q;
  }

  lemma TwoBehind(ram: Ram, root: nat, level: nat, k: nat, q: nat)
    requires 2 <= level <= 4 && q < 0x4_0000 && Reach(ram, root, level, k) == At(root, true, true)
    ensures Reach(ram, root, level - 2, k * 0x4_0000 + q) ==
            if level == 2 then Leaf(ram, root, 2, q) else Reach(ram, root, 2, q)
  {
    assert (k * 0x4_0000 + q) / 512 == k * 512 + q / 512 && (k * 0x4_0000 + q) % 512 == q % 512;
    OneBehind(ram, root, level, k, q / 512);
  }

  lemma ThreeBehind(ram: Ram, root: nat, q: nat)
    requires q < 0x800_0000 && Reach(ram, root, 3, 510) == At(root, true, true)
    ensures Reach(ram, root, 0, 510 * 0x800_0000 + q) == Leaf(ram, root, 1, q)
  {
    var p := 510 * 0x800_0000 + q;
    assert p / 512 == 510 * 0x4_0000 + q / 512 && p % 512 == q % 512;
    TwoBehind(ram, root, 3, 510, q / 512);
  }

  /** An upper entry with bit 7 set: the hardware takes it for a large page. */
  predicate LargeEntry(ram: Ram, root: nat, level: nat, q: nat) {
    var x := Reach(ram, root, level + 1, q / 512);
    x.At? && Rd(ram, x.frame, q % 512) / 0x80 % 2 == 1
  }

  /** Whenever the tables of va exist, the recursive bases of va translate to exactly those
      tables; and a recursive base that translates names a table of va's walk unless that
      entry maps a large page. */
  lemma RecursiveSelfMap(ram: Ram, root: nat, va: nat, j: nat)
    requires va < W64 && j < 512 && SelfMapped(ram, root)
    ensures Translate(ram, root, Pml4Addr() + 8 * j) == Reach(ram, root, 4, 0)
    ensures var q := Vpn(va) / 512 / 512 / 512;
            !LargeEntry(ram, root, 3, q) ==>
              Translate(ram, root, PdpBase(va) + 8 * j) == Reach(ram, root, 3, q)
    ensures var q := Vpn(va) / 512 / 512;
            !LargeEntry(ram, root, 2, q) ==>
              Translate(ram, root, PdBase(va) + 8 * j) == Reach(ram, root, 2, q)
    ensures var q := Vpn(va) / 512;
            !LargeEntry(ram, root, 1, q) ==>
              Translate(ram, root, PtBase(va) + 8 * j) == Reach(ram, root, 1, q)
  {
    ViaPml4(ram, root, j);
    ViaPdp(ram, root, va, j);
    ViaPd(ram, root, va, j);
    ViaPt(ram, root, va, j);
  }
}
