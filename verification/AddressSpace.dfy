/** The page-table tree as a map from address prefixes to frames, and its encoding in RAM. */
module AddressSpace {
  import opened Bits
  import opened Paging

  /** A table or page named by the address prefix that leads to it: level 4 is the top
      table (prefix 0), level 1 a page table, level 0 a page (prefix = page number). */
  datatype Node = Node(level: nat, prefix: nat)

  const ROOT: Node := Node(4, 0)

  function Parent(n: Node): Node { Node(n.level + 1, n.prefix / 512) }

  function Child(n: Node, i: nat): Node
    requires n.level >= 1
  {
    Node(n.level - 1, n.prefix * 512 + i)
  }

  /** Prefixes that do not go through the recursive slot. */
  predicate Ordinary(level: nat, q: nat)
    decreases 4 - level
  {
    if level >= 4 then level == 4 && q == 0
    else if level == 3 then q < 512 && q != RECURSIVE_SLOT
    else Ordinary(level + 1, q / 512)
  }

  /** The frame behind every table and every mapped page outside the recursive slot. */
  type Space = map<Node, nat>

  /** A word that stands for nothing in a table of the given level: it is not present and, above the
      page tables, `& PAGE_ALIGN` leaves 0, so that the kernel takes the table for missing. */
  predicate Dead(level: nat, w: nat) {
    w % 2 == 0 && (level >= 2 ==> w < 0x1000)
  }

  /** Word w is right for entry i of table n. */
  predicate Stands(s: Space, n: Node, i: nat, w: nat)
    requires n.level >= 1
  {
    if Child(n, i) in s then w == s[Child(n, i)] * 0x1000 + 7 else Dead(n.level, w)
  }

  /** A prefix-closed tree under the top table. */
  predicate Shape(s: Space) {
    && ROOT in s
    && (forall n | n in s :: Ordinary(n.level, n.prefix))
    && (forall n | n in s && n != ROOT :: Parent(n) in s)
  }

  /** No frame is two tables, and tables are real RAM frames other than frame 0. */
  predicate Owned(s: Space, frames: nat) {
    && (forall n | n in s :: s[n] < 0x100_0000_0000)
    && (forall n | n in s && n.level >= 1 :: 0 < s[n] < frames)
    && (forall m, n | m in s && n in s && m.level >= 1 && n.level >= 1 && m != n :: s[m] != s[n])
  }

  /** No page of the ordinary address space is a table frame. */
  predicate Isolated(s: Space) {
    forall m, n | m in s && n in s && m.level >= 1 && n.level == 0 :: s[m] != s[n]
  }

  predicate Encodes(ram: Ram, s: Space)
    requires ROOT in s
  {
    forall n, i | n in s && n.level >= 1 && i < 512 && (n != ROOT || i != RECURSIVE_SLOT) ::
      Stands(s, n, i, Rd(ram, s[n], i))
  }

  predicate WellSized(ram: Ram) {
    forall f | 0 <= f < |ram| :: |ram[f]| == 512
  }

  /** RAM holds exactly the tree s, leaving entry 510 of the top table aside. */
  predicate Tree(ram: Ram, s: Space) {
    WellSized(ram) && Shape(s) && Owned(s, |ram|) && Encodes(ram, s)
  }

  /** Entry 510 of the top table, as the kernel writes it. */
  predicate SelfEntry(ram: Ram, s: Space)
    requires ROOT in s
  {
    Rd(ram, s[ROOT], RECURSIVE_SLOT) == s[ROOT] * 0x1000 + 7
  }

  /** An entry f * 4096 + 7 is present, writable, user accessible, and addresses frame f. */
  lemma FollowEntry(ram: Ram, t: nat, i: nat, last: bool, f: nat)
    requires Rd(ram, t, i) == f * 0x1000 + 7 && f < 0x100_0000_0000
    ensures Step(ram, At(t, true, true), i, last) == At(f, true, true)
  {
    EntryBits(f);
  }

  lemma EntryBits(f: nat)
    requires f < 0x100_0000_0000
    ensures var e := f * 0x1000 + 7;
            && e % 2 == 1 && e / 2 % 2 == 1 && e / 4 % 2 == 1 && e / 0x80 % 2 == 0
            && e / 0x1000 % 0x100_0000_0000 == f && e < W64
  {
    var e := f * 0x1000 + 7;
    assert e / 2 == f * 0x800 + 3 by { DivModUnique(e, 2, f * 0x800 + 3, 1); }
    assert e / 4 == f * 0x400 + 1 by { DivModUnique(e, 4, f * 0x400 + 1, 3); }
    assert e / 0x80 == f * 0x20 by { DivModUnique(e, 0x80, f * 0x20, 7); }
    assert e / 0x1000 == f by { DivModUnique(e, 0x1000, f, 7); }
  }

  lemma ChildOfParent(n: Node)
    ensures Child(Parent(n), n.prefix % 512) == n
  {
  }

  /** A child determines its parent and its index. */
  lemma ChildInjective(n: Node, i: nat, c: Node)
    requires n.level >= 1 && i < 512
    ensures Child(n, i) == c <==> n == Parent(c) && i == c.prefix % 512
    ensures Parent(Child(n, i)) == n
  {
    assert (n.prefix * 512 + i) / 512 == n.prefix && (n.prefix * 512 + i) % 512 == i;
  }

  lemma TreeIsSelfMapped(ram: Ram, s: Space)
    requires Tree(ram, s) && SelfEntry(ram, s)
    ensures SelfMapped(ram, s[ROOT])
  {
    FollowEntry(ram, s[ROOT], RECURSIVE_SLOT, false, s[ROOT]);
  }

  /** The hardware walk computes the map: an ordinary prefix is reached exactly when it is in s,
      at its frame, writable and user accessible. */
  lemma {:induction false} WalkMeaning(ram: Ram, s: Space, level: nat, q: nat)
    requires Tree(ram, s) && Ordinary(level, q)
    ensures Reach(ram, s[ROOT], level, q) ==
            if Node(level, q) in s then At(s[Node(level, q)], true, true) else Fault
    decreases 4 - level
  {
    if level == 4 {
      assert Node(level, q) == ROOT;
    } else {
      ParentOrdinary(level, q);
      WalkMeaning(ram, s, level + 1, q / 512);
      WalkStep(ram, s, Node(level, q));
      assert Parent(Node(level, q)) == Node(level + 1, q / 512);
    }
  }

  lemma ParentOrdinary(level: nat, q: nat)
    requires level < 4 && Ordinary(level, q)
    ensures Ordinary(level + 1, q / 512)
  {
    if level == 3 { assert q / 512 == 0; }
  }

  lemma WalkStep(ram: Ram, s: Space, n: Node)
    requires Tree(ram, s) && n.level < 4 && Ordinary(n.level, n.prefix)
    ensures Parent(n) in s ==>
              Step(ram, At(s[Parent(n)], true, true), n.prefix % 512, n.level == 0) ==
              if n in s then At(s[n], true, true) else Fault
    ensures Parent(n) !in s ==> n !in s
  {
    var p, i := Parent(n), n.prefix % 512;
    if p in s {
      ParentEntry(ram, s, n);
      if n in s {
        FollowEntry(ram, s[p], i, n.level == 0, s[n]);
      }
    }
  }

  /** The entry of the parent table that stands for node n. */
  lemma ParentEntry(ram: Ram, s: Space, n: Node)
    requires Tree(ram, s) && n.level < 4 && Ordinary(n.level, n.prefix) && Parent(n) in s
    ensures var w := Rd(ram, s[Parent(n)], n.prefix % 512);
            if n in s then w == s[n] * 0x1000 + 7 else Dead(n.level + 1, w)
    ensures n in s ==> s[n] < 0x100_0000_0000
  {
    ChildOfParent(n);
    assert Stands(s, Parent(n), n.prefix % 512, Rd(ram, s[Parent(n)], n.prefix % 512));
  }

  lemma ReadAfterWrite(ram: Ram, f: nat, i: nat, w: nat, g: nat, j: nat)
    requires f < |ram| && i < |ram[f]|
    ensures Rd(Wr(ram, f, i, w), g, j) == if g == f && j == i then w else Rd(ram, g, j)
  {
  }

  /** Node n can be added with frame f: its parent table exists; a new table's frame is a
      frame of dead words of RAM that is no table yet, and the table was not there before. */
  predicate CanAdd(ram: Ram, s: Space, n: Node, f: nat) {
    && n.level < 4 && Ordinary(n.level, n.prefix) && Parent(n) in s && f < 0x100_0000_0000
    && (n.level >= 1 ==>
          && n !in s && 0 < f < |ram|
          && (forall i | 0 <= i < 512 :: Dead(n.level, Rd(ram, f, i)))
          && (forall m | m in s && m.level >= 1 :: s[m] != f))
  }

  /** Adds node n with frame f: one entry of its parent table changes. */
  lemma AddNode(ram: Ram, s: Space, n: Node, f: nat)
    requires Tree(ram, s) && CanAdd(ram, s, n, f)
    ensures var ram' := Wr(ram, s[Parent(n)], n.prefix % 512, f * 0x1000 + 7);
            Tree(ram', s[n := f]) && (SelfEntry(ram, s) ==> SelfEntry(ram', s[n := f]))
  {
    var t := s[n := f];
    var ram' := Wr(ram, s[Parent(n)], n.prefix % 512, f * 0x1000 + 7);
    assert Shape(t) && Owned(t, |ram'|);
    forall m, i | m in t && m.level >= 1 && i < 512 && (m != ROOT || i != RECURSIVE_SLOT)
      ensures Stands(t, m, i, Rd(ram', t[m], i))
    {
      EntryAfterAdd(ram, s, n, f, m, i);
    }
    assert n.level == 3 ==> n.prefix % 512 != RECURSIVE_SLOT;
    ReadAfterWrite(ram, s[Parent(n)], n.prefix % 512, f * 0x1000 + 7, s[ROOT], RECURSIVE_SLOT);
  }

  lemma EntryAfterAdd(ram: Ram, s: Space, n: Node, f: nat, m: Node, i: nat)
    requires Tree(ram, s) && CanAdd(ram, s, n, f)
    requires (m in s || m == n) && m.level >= 1 && i < 512 && (m != ROOT || i != RECURSIVE_SLOT)
    ensures Stands(s[n := f], m, i, Rd(Wr(ram, s[Parent(n)], n.prefix % 512, f * 0x1000 + 7), s[n := f][m], i))
  {
    ChildInjective(m, i, n);
    ReadAfterWrite(ram, s[Parent(n)], n.prefix % 512, f * 0x1000 + 7, s[n := f][m], i);
    if m == n {
      NoOrphans(s, n, i);
    } else {
      assert Stands(s, m, i, Rd(ram, s[m], i));
    }
  }

  lemma NoOrphans(s: Space, n: Node, i: nat)
    requires Shape(s) && n !in s && n.level >= 1 && i < 512 && n.level < 4
    ensures Child(n, i) !in s
  {
    ChildInjective(n, i, Child(n, i));
  }

  /** A recursive access to a table that exists goes to that table. */
  lemma LeafMeaning(ram: Ram, s: Space, n: Node)
    requires Tree(ram, s) && n in s && n.level < 4
    ensures Leaf(ram, s[ROOT], n.level, n.prefix) == At(s[n], true, true)
  {
    WalkMeaning(ram, s, n.level + 1, n.prefix / 512);
    ParentEntry(ram, s, n);
    FollowEntry(ram, s[Parent(n)], n.prefix % 512, true, s[n]);
  }

  /** The tables that a walk to page v goes through, below the top one. */
  function PdpNode(v: nat): Node { Node(3, v / 512 / 512 / 512) }

  function PdNode(v: nat): Node { Node(2, v / 512 / 512) }

  function PtNode(v: nat): Node { Node(1, v / 512) }

  function PageNode(v: nat): Node { Node(0, v) }

  // ----- Tables that are not cleared -----

  /** ram' is ram with table frame f linked in for node n; what f holds is left open. */
  predicate Linked(ram: Ram, ram': Ram, s: Space, n: Node, f: nat)
    requires Parent(n) in s
  {
    && Rd(ram', s[Parent(n)], n.prefix % 512) == f * 0x1000 + 7
    && forall m, i | m in s && m.level >= 1 && i < 512 && !(m == Parent(n) && i == n.prefix % 512) ::
         Rd(ram', s[m], i) == Rd(ram, s[m], i)
  }

  /** A new table of the tree: its parent is there, and its frame is no table yet. */
  predicate CanLink(ram: Ram, s: Space, n: Node, f: nat) {
    && Tree(ram, s) && 1 <= n.level < 4 && Ordinary(n.level, n.prefix) && Parent(n) in s && n !in s
    && 0 < f < |ram| && f < 0x100_0000_0000 && forall m | m in s && m.level >= 1 :: s[m] != f
  }

  /** The walk to prefix q of the given level goes through node n. */
  predicate Through(n: Node, level: nat, q: nat)
    decreases n.level - level
  {
    if level >= n.level then level == n.level && q == n.prefix else Through(n, level + 1, q / 512)
  }

  /** Where entry i of the table x of the given level leads. */
  function Below(ram: Ram, x: Xlat, level: nat, i: nat): Xlat {
    Step(ram, x, i, level == 1)
  }

  /** No walk from the table x of the given level ends at a page. */
  predicate MapsNothing(ram: Ram, x: Xlat, level: nat)
    decreases level
  {
    if level == 0 then x.Fault?
    else forall i | 0 <= i < 512 :: MapsNothing(ram, Below(ram, x, level, i), level - 1)
  }

  /** Walks that do not go through the new node are as before. */
  lemma {:induction false} WalkApart(ram: Ram, ram': Ram, s: Space, n: Node, f: nat, level: nat, q: nat)
    requires CanLink(ram, s, n, f) && Linked(ram, ram', s, n, f)
    requires Ordinary(level, q) && !Through(n, level, q)
    ensures Reach(ram', s[ROOT], level, q) == Reach(ram, s[ROOT], level, q)
    decreases 4 - level
  {
    if level < 4 {
      ParentOrdinary(level, q);
      WalkApart(ram, ram', s, n, f, level + 1, q / 512);
      WalkMeaning(ram, s, level + 1, q / 512);
      hide Tree;
      StepApart(ram, ram', s, n, f, Node(level, q));
    }
  }

  lemma StepApart(ram: Ram, ram': Ram, s: Space, n: Node, f: nat, c: Node)
    requires Parent(n) in s && Linked(ram, ram', s, n, f) && c != n
    ensures Parent(c) in s ==> Rd(ram', s[Parent(c)], c.prefix % 512) == Rd(ram, s[Parent(c)], c.prefix % 512)
  {
    hide Rd;
    ChildOfParent(n);
    ChildOfParent(c);
  }

  /** A walk through a missing node faults. */
  lemma {:induction false} WalkMissing(ram: Ram, s: Space, n: Node, level: nat, q: nat)
    requires Tree(ram, s) && Ordinary(n.level, n.prefix) && n !in s && Through(n, level, q)
    ensures Reach(ram, s[ROOT], level, q) == Fault
    decreases 4 - level
  {
    if level == n.level {
      WalkMeaning(ram, s, level, q);
    } else {
      WalkMissing(ram, s, n, level + 1, q / 512);
    }
  }

  /** The walk to the new node itself arrives there. */
  lemma WalkArrives(ram: Ram, ram': Ram, s: Space, n: Node, f: nat)
    requires CanLink(ram, s, n, f) && Linked(ram, ram', s, n, f)
    ensures Reach(ram', s[ROOT], n.level, n.prefix) == At(f, true, true)
  {
    ParentOrdinary(n.level, n.prefix);
    WalkApart(ram, ram', s, n, f, n.level + 1, n.prefix / 512);
    WalkMeaning(ram, s, n.level + 1, n.prefix / 512);
    FollowEntry(ram', s[Parent(n)], n.prefix % 512, false, f);
  }

  /** When the new table maps nothing, every walk through it faults. */
  lemma {:induction false} NothingThrough(ram: Ram, root: nat, n: Node, level: nat, q: nat)
    requires n.level < 4 && MapsNothing(ram, Reach(ram, root, n.level, n.prefix), n.level) && Through(n, level, q)
    ensures MapsNothing(ram, Reach(ram, root, level, q), level)
    decreases n.level - level
  {
    if level < n.level {
      NothingThrough(ram, root, n, level + 1, q / 512);
      assert Reach(ram, root, level, q) == Below(ram, Reach(ram, root, level + 1, q / 512), level + 1, q % 512);
    }
  }

  /** Otherwise some walk through it ends at a page. */
  lemma {:induction false} SomethingThrough(ram: Ram, root: nat, n: Node, level: nat, q: nat) returns (page: nat)
    requires level <= n.level < 4 && !MapsNothing(ram, Reach(ram, root, level, q), level)
    requires Ordinary(level, q) && Through(n, level, q)
    ensures Ordinary(0, page) && Through(n, 0, page) && Reach(ram, root, 0, page).At?
    decreases level
  {
    if level == 0 {
      page := q;
    } else {
      var i :| 0 <= i < 512 && !MapsNothing(ram, Below(ram, Reach(ram, root, level, q), level, i), level - 1);
      var c := q * 512 + i;
      DigitBehind(q, i);
      OneLower(ram, root, n, level - 1, c);
      hide Reach, Ordinary, Through, MapsNothing;
      page := SomethingThrough(ram, root, n, level - 1, c);
    }
  }

  lemma OneLower(ram: Ram, root: nat, n: Node, level: nat, c: nat)
    requires level < n.level < 4 && Ordinary(level + 1, c / 512) && Through(n, level + 1, c / 512)
    ensures Ordinary(level, c) && Through(n, level, c)
    ensures Reach(ram, root, level, c) == Below(ram, Reach(ram, root, level + 1, c / 512), level + 1, c % 512)
  {
  }

  lemma DigitBehind(q: nat, i: nat)
    requires i < 512
    ensures (q * 512 + i) / 512 == q && (q * 512 + i) % 512 == i
  {
  }

  /** Every ordinary page has an address. */
  lemma AddressOfPage(q: nat) returns (va: nat)
    requires Ordinary(0, q)
    ensures Canonical(va) && OutsideSlot(va) && Vpn(va) == q
  {
    assert Ordinary(2, q / 512 / 512) && Ordinary(3, q / 512 / 512 / 512);
    LowDigits(q);
    if q < 0x8_0000_0000 {
      va := q * 0x1000;
    } else {
      va := 0xFFFF_0000_0000_0000 + q * 0x1000;
      DivModUnique(va, 0x1_0000_0000_0000, 0xFFFF, q * 0x1000);
    }
  }

  lemma LowDigits(q: nat)
    requires q / 512 / 512 / 512 < 512
    ensures q < 0x10_0000_0000
  {
  }

  /** Outside slot 510 the two memories translate alike. */
  ghost predicate Alike(ram: Ram, ram': Ram, root: nat) {
    forall va | Canonical(va) && OutsideSlot(va) :: Translate(ram', root, va) == Translate(ram, root, va)
  }

  lemma AlikeByWalks(ram: Ram, ram': Ram, root: nat)
    requires forall q: nat | Ordinary(0, q) :: Reach(ram', root, 0, q) == Reach(ram, root, 0, q)
    ensures Alike(ram, ram', root)
  {
    forall va | Canonical(va) && OutsideSlot(va) ensures Translate(ram', root, va) == Translate(ram, root, va) {
      OutsideIsOrdinary(va);
    }
  }

  lemma UnlikeByWalk(ram: Ram, ram': Ram, root: nat, q: nat)
    requires Ordinary(0, q) && Reach(ram', root, 0, q) != Reach(ram, root, 0, q)
    ensures !Alike(ram, ram', root)
  {
    hide Reach, Ordinary;
    var va := AddressOfPage(q);
    assert Translate(ram', root, va) != Translate(ram, root, va);
  }

  /** Linking in a table that is not cleared leaves all translations outside slot 510 as they were
      if and only if no walk through the frame, as it is, ends at a page. */
  lemma UnclearedTable(ram: Ram, ram': Ram, s: Space, n: Node, f: nat)
    requires CanLink(ram, s, n, f) && ram' == Wr(ram, s[Parent(n)], n.prefix % 512, f * 0x1000 + 7)
    ensures Alike(ram, ram', s[ROOT]) <==> MapsNothing(ram', At(f, true, true), n.level)
  {
    var root := s[ROOT];
    assert Linked(ram, ram', s, n, f);
    WalkArrives(ram, ram', s, n, f);
    hide Wr, Tree, Reach, Linked, MapsNothing, Alike;
    if MapsNothing(ram', At(f, true, true), n.level) {
      forall q: nat | Ordinary(0, q) ensures Reach(ram', root, 0, q) == Reach(ram, root, 0, q) {
        if Through(n, 0, q) {
          NothingThrough(ram', root, n, 0, q);
          PageFaults(ram', Reach(ram', root, 0, q));
          WalkMissing(ram, s, n, 0, q);
        } else {
          WalkApart(ram, ram', s, n, f, 0, q);
        }
      }
      AlikeByWalks(ram, ram', root);
    } else {
      var q := SomethingThrough(ram', root, n, n.level, n.prefix);
      WalkMissing(ram, s, n, 0, q);
      UnlikeByWalk(ram, ram', root, q);
    }
  }

  lemma PageFaults(ram: Ram, x: Xlat)
    ensures MapsNothing(ram, x, 0) <==> x == Fault
  {
  }

  /** For a page table: if and only if no word of the frame has bit 0 set. */
  lemma UnclearedPageTable(ram: Ram, ram': Ram, s: Space, n: Node, f: nat)
    requires CanLink(ram, s, n, f) && ram' == Wr(ram, s[Parent(n)], n.prefix % 512, f * 0x1000 + 7) && n.level == 1
    ensures Alike(ram, ram', s[ROOT]) <==> forall i | 0 <= i < 512 :: Rd(ram, f, i) % 2 == 0
  {
    UnclearedTable(ram, ram', s, n, f);
    LeavesOf(ram', f);
    assert forall i: nat :: Rd(ram', f, i) == Rd(ram, f, i);
  }

  lemma LeavesOf(ram: Ram, f: nat)
    ensures MapsNothing(ram, At(f, true, true), 1) <==> forall i | 0 <= i < 512 :: Rd(ram, f, i) % 2 == 0
  {
    hide Rd;
    forall i | 0 <= i < 512
      ensures MapsNothing(ram, Below(ram, At(f, true, true), 1, i), 0) <==> Rd(ram, f, i) % 2 == 0
    {
    }
  }

  /** Outside slot 510, page v has come to be frame p and every other page is as before. */
  ghost predicate MapsOnly(ram: Ram, ram': Ram, root: nat, v: nat, p: nat) {
    forall va | Canonical(va) && OutsideSlot(va) ::
      Translate(ram', root, va) == if Vpn(va) == v then At(p, true, true) else Translate(ram, root, va)
  }

  /** Memory after `mmap` of page v to frame p, when the page table was missing, got frame f, and f
      was not cleared. */
  function AfterUncleared(ram: Ram, s: Space, v: nat, f: nat, p: nat): Ram
    requires PdNode(v) in s
  {
    Wr(Wr(ram, s[PdNode(v)], v / 512 % 512, f * 0x1000 + 7), f, v % 512, p * 0x1000 + 7)
  }

  /** Page q after such a mapping. */
  lemma PageAfter(ram: Ram, s: Space, v: nat, f: nat, p: nat, q: nat)
    requires CanLink(ram, s, PtNode(v), f) && p < 0x100_0000_0000 && Ordinary(0, q)
    ensures var x := Reach(AfterUncleared(ram, s, v, f, p), s[ROOT], 0, q);
            if q == v then x == At(p, true, true)
            else if q / 512 == v / 512 then x == Step(ram, At(f, true, true), q % 512, true)
            else x == Reach(ram, s[ROOT], 0, q)
    ensures q / 512 == v / 512 ==> Reach(ram, s[ROOT], 0, q) == Fault
  {
    var n, ram' := PtNode(v), AfterUncleared(ram, s, v, f, p);
    assert Linked(ram, ram', s, n, f);
    assert Rd(ram', f, v % 512) == p * 0x1000 + 7;
    assert q != v && q / 512 == v / 512 ==> Rd(ram', f, q % 512) == Rd(ram, f, q % 512);
    assert Through(n, 0, q) <==> q / 512 == v / 512;
    WalkArrives(ram, ram', s, n, f);
    hide Linked, Tree, Wr, Rd, AfterUncleared, Ordinary;
    if q / 512 == v / 512 {
      WalkMissing(ram, s, n, 0, q);
      if q == v { FollowEntry(ram', f, v % 512, true, p); }
    } else {
      WalkApart(ram, ram', s, n, f, 0, q);
    }
  }

  /** `mmap` is right with a page table that was not cleared if and only if no word of its frame, but
      the one that is written, has bit 0 set. */
  lemma UnclearedMapping(ram: Ram, s: Space, v: nat, f: nat, p: nat)
    requires CanLink(ram, s, PtNode(v), f) && p < 0x100_0000_0000
    ensures MapsOnly(ram, AfterUncleared(ram, s, v, f, p), s[ROOT], v, p) <==>
            forall i | 0 <= i < 512 && i != v % 512 :: Rd(ram, f, i) % 2 == 0
  {
    var ram' := AfterUncleared(ram, s, v, f, p);
    hide Tree, AfterUncleared, Ordinary, Reach, Rd;
    if forall i | 0 <= i < 512 && i != v % 512 :: Rd(ram, f, i) % 2 == 0 {
      forall va | Canonical(va) && OutsideSlot(va)
        ensures Translate(ram', s[ROOT], va) ==
                if Vpn(va) == v then At(p, true, true) else Translate(ram, s[ROOT], va)
      {
        OutsideIsOrdinary(va);
        PageAfter(ram, s, v, f, p, Vpn(va));
      }
    } else {
      var i: nat :| 0 <= i < 512 && i != v % 512 && Rd(ram, f, i) % 2 != 0;
      var va := StrayPage(ram, s, v, f, p, i);
      assert Translate(ram', s[ROOT], va) != Translate(ram, s[ROOT], va);
    }
  }

  /** Otherwise a page is mapped that no one asked for: a word i of the frame that names a frame g maps
      page i of the table's region to g. */
  lemma StrayPage(ram: Ram, s: Space, v: nat, f: nat, p: nat, i: nat) returns (va: nat)
    requires CanLink(ram, s, PtNode(v), f) && p < 0x100_0000_0000
    requires i < 512 && i != v % 512 && Rd(ram, f, i) % 2 == 1
    ensures Canonical(va) && OutsideSlot(va) && Vpn(va) == v / 512 * 512 + i != v
    ensures Translate(ram, s[ROOT], va) == Fault
    ensures Translate(AfterUncleared(ram, s, v, f, p), s[ROOT], va).At?
    ensures forall g: nat | g < 0x100_0000_0000 && Rd(ram, f, i) == g * 0x1000 + 7 ::
              Translate(AfterUncleared(ram, s, v, f, p), s[ROOT], va) == At(g, true, true)
  {
    var q := v / 512 * 512 + i;
    DigitBehind(v / 512, i);
    assert Ordinary(1, v / 512) && Ordinary(0, q);
    assert Step(ram, At(f, true, true), i, true).At?;
    hide Tree, AfterUncleared, Reach, Rd, Step, Ordinary, CanLink, Linked, OutsideSlot, Canonical, Vpn;
    va := AddressOfPage(q);
    PageAfter(ram, s, v, f, p, q);
    forall g: nat | g < 0x100_0000_0000 && Rd(ram, f, i) == g * 0x1000 + 7
      ensures Translate(AfterUncleared(ram, s, v, f, p), s[ROOT], va) == At(g, true, true)
    {
      FollowEntry(ram, f, i, true, g);
    }
  }

  // ----- The address space after a mapping -----

  function TablesOf(v: nat): seq<Node> {
    [PdpNode(v), PdNode(v), PtNode(v)]
  }

  function Absent(s: Space, n: Node): nat {
    if n in s then 0 else 1
  }

  /** How many tables must be allocated before page v can be mapped. */
  function Missing(s: Space, v: nat): nat {
    Absent(s, PdpNode(v)) + Absent(s, PdNode(v)) + Absent(s, PtNode(v))
  }

  /** The memory as the kernel sees it: the tree, and the frames still to be handed out. */
  datatype Vm = Vm(space: Space, supply: seq<nat>) {

    /** Table n present; when absent it takes the next frame of the supply. */
    function WithTable(n: Node): Vm
      requires |supply| >= Absent(space, n)
    {
      if n in space then this else Vm(space[n := supply[0]], supply[1..])
    }

    /** The supply is enough to make the tables present, one after the other. */
    predicate Affords(tables: seq<Node>)
      decreases |tables|
    {
      tables == [] ||
      (|supply| >= Absent(space, tables[0]) && WithTable(tables[0]).Affords(tables[1..]))
    }

    function WithTables(tables: seq<Node>): Vm
      requires Affords(tables)
      decreases |tables|
    {
      if tables == [] then this else WithTable(tables[0]).WithTables(tables[1..])
    }

    predicate EnoughFor(v: nat) {
      Affords(TablesOf(v))
    }

    /** Page v mapped to frame f, with all tables of v present. */
    function Map(v: nat, f: nat): Vm
      requires EnoughFor(v)
    {
      var t := WithTables(TablesOf(v));
      Vm(t.space[PageNode(v) := f], t.supply)
    }
  }

  /** The tables of page v are made present one by one, from the top. */
  lemma TablesInTurn(m: Vm, v: nat)
    ensures m.EnoughFor(v) <==>
            && |m.supply| >= Absent(m.space, PdpNode(v))
            && var m1 := m.WithTable(PdpNode(v));
            && |m1.supply| >= Absent(m1.space, PdNode(v))
            && var m2 := m1.WithTable(PdNode(v));
            && |m2.supply| >= Absent(m2.space, PtNode(v))
    ensures m.EnoughFor(v) ==>
              m.WithTables(TablesOf(v)) == m.WithTable(PdpNode(v)).WithTable(PdNode(v)).WithTable(PtNode(v))
  {
    assert TablesOf(v) == [PdpNode(v)] + [PdNode(v), PtNode(v)];
    assert [PdNode(v), PtNode(v)] == [PdNode(v)] + [PtNode(v)];
    assert [PtNode(v)] == [PtNode(v)] + [];
    OneTable(m, PdpNode(v), [PdNode(v), PtNode(v)]);
    if |m.supply| >= Absent(m.space, PdpNode(v)) {
      var m1 := m.WithTable(PdpNode(v));
      OneTable(m1, PdNode(v), [PtNode(v)]);
      if |m1.supply| >= Absent(m1.space, PdNode(v)) {
        OneTable(m1.WithTable(PdNode(v)), PtNode(v), []);
      }
    }
  }

  lemma OneTable(m: Vm, n: Node, rest: seq<Node>)
    ensures m.Affords([n] + rest) <==> |m.supply| >= Absent(m.space, n) && m.WithTable(n).Affords(rest)
    ensures m.Affords([n] + rest) ==> m.WithTables([n] + rest) == m.WithTable(n).WithTables(rest)
  {
    assert ([n] + rest)[1..] == rest;
  }

  /** A mapping needs a frame for each missing table, no more. */
  lemma EnoughMeaning(m: Vm, v: nat)
    ensures m.EnoughFor(v) <==> |m.supply| >= Missing(m.space, v)
    ensures Missing(m.space, v) == (if Node(3, v / 512 / 512 / 512) in m.space then 0 else 1)
                                   + (if Node(2, v / 512 / 512) in m.space then 0 else 1)
                                   + if Node(1, v / 512) in m.space then 0 else 1
  {
    TablesInTurn(m, v);
  }

  lemma MapCost(m: Vm, v: nat, f: nat)
    requires m.EnoughFor(v)
    ensures |m.Map(v, f).supply| + Missing(m.space, v) == |m.supply|
  {
    TablesInTurn(m, v);
  }

  /** Making tables present adds nodes of the list only, and uses up as many frames. */
  lemma {:induction false} WithTablesMeaning(m: Vm, ts: seq<Node>)
    requires m.Affords(ts)
    ensures var t := m.WithTables(ts);
            && (forall n | n in ts :: n in t.space)
            && (forall n | n in m.space :: n in t.space && t.space[n] == m.space[n])
            && (forall n | n in t.space :: n in m.space || n in ts)
            && |t.supply| <= |m.supply| && t.supply == m.supply[|m.supply| - |t.supply|..]
    decreases |ts|
  {
    if ts != [] {
      var m1 := m.WithTable(ts[0]);
      WithTablesMeaning(m1, ts[1..]);
      assert ts == [ts[0]] + ts[1..];
    }
  }

  /** The address lies outside the recursive slot. */
  predicate OutsideSlot(va: nat) {
    Vpn(va) / 512 / 512 / 512 != RECURSIVE_SLOT
  }

  lemma OutsideIsOrdinary(va: nat)
    requires OutsideSlot(va)
    ensures var v := Vpn(va);
            && Ordinary(0, v) && Ordinary(1, v / 512) && Ordinary(2, v / 512 / 512)
            && Ordinary(3, v / 512 / 512 / 512)
  {
    SlotBounds(Vpn(va));
  }

  lemma TranslateMeaning(ram: Ram, s: Space, va: nat)
    requires Tree(ram, s) && OutsideSlot(va) && Canonical(va)
    ensures Translate(ram, s[ROOT], va) ==
            if PageNode(Vpn(va)) in s then At(s[PageNode(Vpn(va))], true, true) else Fault
  {
    OutsideIsOrdinary(va);
    WalkMeaning(ram, s, 0, Vpn(va));
  }

  /** Mapping page v changes no other page and no table that was there. */
  lemma MapMeaning(m: Vm, v: nat, f: nat)
    requires m.EnoughFor(v)
    ensures var s := m.Map(v, f).space;
            && (forall n | n in m.space && n != PageNode(v) :: n in s && s[n] == m.space[n])
            && (forall w | PageNode(w) in s && w != v :: PageNode(w) in m.space)
            && PageNode(v) in s && s[PageNode(v)] == f
    ensures var r := m.Map(v, f).supply;
            |r| <= |m.supply| && r == m.supply[|m.supply| - |r|..]
  {
    WithTablesMeaning(m, TablesOf(v));
  }

  /** Entry i of table frame t is present and addresses frame f. */
  predicate Addresses(ram: Ram, t: nat, i: nat, f: nat) {
    var e := Rd(ram, t, i);
    e % 2 == 1 && e / 0x1000 % 0x100_0000_0000 == f
  }

  /** Table ownership: leaving slot 510 aside, exactly one entry of all tables addresses the
      frame of a table below the top one, and none addresses the top table. */
  lemma OneParent(ram: Ram, s: Space, n: Node)
    requires Tree(ram, s) && Isolated(s) && n in s && n.level >= 1
    ensures n != ROOT ==> Addresses(ram, s[Parent(n)], n.prefix % 512, s[n])
    ensures forall m, i | m in s && m.level >= 1 && i < 512 && (m != ROOT || i != RECURSIVE_SLOT)
                          && Addresses(ram, s[m], i, s[n]) ::
              n != ROOT && m == Parent(n) && i == n.prefix % 512
  {
    if n != ROOT { ParentAddresses(ram, s, n); }
    hide Tree, Isolated, Addresses;
    forall m, i | m in s && m.level >= 1 && i < 512 && (m != ROOT || i != RECURSIVE_SLOT)
                  && Addresses(ram, s[m], i, s[n])
      ensures n != ROOT && m == Parent(n) && i == n.prefix % 512
    {
      ChildAddressed(ram, s, m, i, n);
    }
  }

  lemma ParentAddresses(ram: Ram, s: Space, n: Node)
    requires Tree(ram, s) && n in s && n != ROOT
    ensures Parent(n) in s && Addresses(ram, s[Parent(n)], n.prefix % 512, s[n])
  {
    assert n.level < 4;
    ParentEntry(ram, s, n);
    EntryBits(s[n]);
  }

  lemma ChildAddressed(ram: Ram, s: Space, m: Node, i: nat, n: Node)
    requires Tree(ram, s) && Isolated(s) && n in s && n.level >= 1
    requires m in s && m.level >= 1 && i < 512 && (m != ROOT || i != RECURSIVE_SLOT) && Addresses(ram, s[m], i, s[n])
    ensures n != ROOT && m == Parent(n) && i == n.prefix % 512
  {
    var c := Child(m, i);
    assert Stands(s, m, i, Rd(ram, s[m], i));
    assert c in s;
    EntryBits(s[c]);
    assert c == n;
    ChildInjective(m, i, n);
  }
}
