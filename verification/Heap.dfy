/** The kernel heap of sys/pmap.c as a sequence of page mappings at a moving break. */
module Heap {
  import opened Bits
  import opened Paging
  import opened AddressSpace

  /** The virtual memory and the break: the source's `kernelfree` is top * PAGE_SIZE. */
  datatype State = State(vm: Vm, top: nat) {

    /** The virtual page of the break, PHY_TO_VIRT(kernelfree) (see `HeapAddress`). */
    function NextVpn(): nat {
      0xF_FFF8_0000 + top
    }

    /** There is a frame for the next page, and frames for the tables it lacks. */
    predicate HasPage() {
      vm.supply != [] && Vm(vm.space, vm.supply[1..]).EnoughFor(NextVpn())
    }

    /** One round of the loop of `kmalloc`: `kmalloc_mem`, `mmap`, advance the break. */
    function AddPage(): State
      requires HasPage()
    {
      State(Vm(vm.space, vm.supply[1..]).Map(NextVpn(), vm.supply[0]), top + 1)
    }

    /** `malloc` of a page that `kmalloc_mem` would have returned next: it is mapped nowhere. */
    function DropFrame(): State
      requires vm.supply != []
    {
      State(Vm(vm.space, vm.supply[1..]), top)
    }

    /** The frames left are enough for n more pages. */
    predicate HasPages(n: nat)
      decreases n, 0
    {
      n == 0 || (HasPages(n - 1) && Grow(n - 1).HasPage())
    }

    function Grow(n: nat): State
      requires HasPages(n)
      decreases n, 1
    {
      if n == 0 then this else Grow(n - 1).AddPage()
    }

    /** Virtual addresses cannot overflow before the frames run out. */
    predicate Room() {
      top + |vm.supply| <= 0x8_0000
    }

    /** Frames are handed out in increasing order (see `SupplyIncreases`). */
    predicate Increasing() {
      forall i, j | 0 <= i < j < |vm.supply| :: vm.supply[i] < vm.supply[j]
    }

    /** No table and no mapped page has a frame that is still to be handed out. */
    predicate Fresh() {
      forall n, i | n in vm.space && 0 <= i < |vm.supply| :: vm.space[n] != vm.supply[i]
    }
  }

  /** Heap pages follow one another from VIRT_OFFSET on, outside the recursive slot. */
  lemma HeapAddress(top: nat, k: nat)
    requires top * PAGE_SIZE + k < 0x8000_0000
    ensures var a := PhyToVirt(top * PAGE_SIZE) + k;
            && a < W64 && Canonical(a) && OutsideSlot(a)
            && Vpn(a) == 0xF_FFF8_0000 + top + k / PAGE_SIZE
  {
    BreakAddress(top);
    var a := VIRT_OFFSET + top * PAGE_SIZE + k;
    var low := 0xFFFF_8000_0000 + top * PAGE_SIZE + k;
    DivModUnique(a, 0x1_0000_0000_0000, 0xFFFF, low);
    DivModUnique(low, 0x1000, 0xF_FFF8_0000 + top + k / PAGE_SIZE, k % PAGE_SIZE);
    TopHalf(Vpn(a));
  }

  lemma BreakAddress(top: nat)
    requires top < 0x8_0000
    ensures PhyToVirt(top * PAGE_SIZE) == VIRT_OFFSET + top * PAGE_SIZE
  {
  }

  lemma TopHalf(v: nat)
    requires 0xF_FFF8_0000 <= v < 0x10_0000_0000
    ensures v / 512 / 512 / 512 == 511
  {
  }

  /** One page later: the break has moved by a page, the supply is a proper suffix. */
  lemma AddPageMeaning(h: State)
    requires h.HasPage()
    ensures var r := h.AddPage().vm.supply;
            && h.AddPage().top == h.top + 1
            && |r| < |h.vm.supply| && r == h.vm.supply[|h.vm.supply| - |r|..]
  {
    MapMeaning(Vm(h.vm.space, h.vm.supply[1..]), h.NextVpn(), h.vm.supply[0]);
  }

  lemma AddPageMaps(h: State)
    requires h.HasPage()
    ensures var s := h.AddPage().vm.space;
            && PageNode(h.NextVpn()) in s && s[PageNode(h.NextVpn())] == h.vm.supply[0]
            && (forall v: nat | v != h.NextVpn() ::
                  (PageNode(v) in s <==> PageNode(v) in h.vm.space) &&
                  (PageNode(v) in s ==> s[PageNode(v)] == h.vm.space[PageNode(v)]))
  {
    MapMeaning(Vm(h.vm.space, h.vm.supply[1..]), h.NextVpn(), h.vm.supply[0]);
  }

  /** n pages later: the break has moved by n pages, the supply is a suffix, shorter by
      at least n, and the room is still there. */
  lemma {:induction false} GrowMeaning(h: State, n: nat)
    requires h.HasPages(n) && h.Room()
    ensures var g := h.Grow(n);
            && g.top == h.top + n && g.Room()
            && |g.vm.supply| + n <= |h.vm.supply|
            && g.vm.supply == h.vm.supply[|h.vm.supply| - |g.vm.supply|..]
  {
    hide State.HasPages, State.Grow, State.HasPage, State.AddPage;
    if n == 0 {
      NoGrowth(h);
    } else {
      OneMore(h, n, n - 1);
      GrowMeaning(h, n - 1);
      AddPageMeaning(h.Grow(n - 1));
      SuffixOfSuffix(h.vm.supply, h.Grow(n - 1).vm.supply, h.Grow(n).vm.supply);
    }
  }

  lemma NoGrowth(h: State)
    ensures h.HasPages(0) && h.Grow(0) == h
  {
  }

  lemma OnePageIsGrowth(h: State)
    ensures h.HasPages(1) <==> h.HasPage()
    ensures h.HasPage() ==> h.Grow(1) == h.AddPage()
  {
    NoGrowth(h);
  }

  lemma SuffixOfSuffix(a: seq<nat>, b: seq<nat>, c: seq<nat>)
    requires |b| <= |a| && b == a[|a| - |b|..] && |c| <= |b| && c == b[|b| - |c|..]
    ensures c == a[|a| - |c|..]
  {
  }

  lemma {:induction false} FewerPages(h: State, n: nat, m: nat)
    requires h.HasPages(n) && m <= n
    ensures h.HasPages(m)
    ensures m < n ==> h.Grow(m).HasPage()
  {
    if m < n { FewerPages(h, n - 1, m); }
  }

  lemma OneMore(h: State, n: nat, m: nat)
    requires h.HasPages(n) && m < n
    ensures h.HasPages(m) && h.Grow(m).HasPage()
    ensures h.HasPages(m + 1) && h.Grow(m + 1) == h.Grow(m).AddPage()
  {
    FewerPages(h, n, m);
    FewerPages(h, n, m + 1);
  }

  /** The page number of the i-th heap page from h on. */
  function PageAt(h: State, i: nat): nat {
    h.NextVpn() + i
  }

  /** The frame that backs the i-th heap page from h on. */
  function FrameAt(h: State, n: nat, i: nat): nat
    requires h.HasPages(n) && i < n
  {
    FewerPages(h, n, i);
    h.Grow(i).vm.supply[0]
  }

  /** After n pages: the i-th page is backed by its frame, and every other page, and every
      table, is as before. */
  lemma {:induction false} GrowMaps(h: State, n: nat)
    requires h.HasPages(n) && h.Room()
    ensures var s := h.Grow(n).vm.space;
            && (forall i | 0 <= i < n :: PageNode(PageAt(h, i)) in s && s[PageNode(PageAt(h, i))] == FrameAt(h, n, i))
            && (forall v: nat | v < PageAt(h, 0) || PageAt(h, n) <= v ::
                  (PageNode(v) in s <==> PageNode(v) in h.vm.space) &&
                  (PageNode(v) in s ==> s[PageNode(v)] == h.vm.space[PageNode(v)]))
  {
    hide State.HasPages, State.Grow, State.HasPage, State.AddPage, FrameAt;
    if n == 0 {
      NoGrowth(h);
    } else {
      OneMore(h, n, n - 1);
      GrowMaps(h, n - 1);
      GrowMeaning(h, n - 1);
      AddPageMaps(h.Grow(n - 1));
      FramesOfOneMore(h, n);
    }
  }

  lemma FramesOfOneMore(h: State, n: nat)
    requires n > 0 && h.HasPages(n) && h.HasPages(n - 1)
    ensures forall i | 0 <= i < n - 1 :: FrameAt(h, n, i) == FrameAt(h, n - 1, i)
    ensures h.Grow(n - 1).vm.supply != [] && FrameAt(h, n, n - 1) == h.Grow(n - 1).vm.supply[0]
  {
    hide State.HasPages, State.Grow, State.HasPage, State.AddPage;
    forall i | 0 <= i < n - 1 ensures FrameAt(h, n, i) == FrameAt(h, n - 1, i) {
      FewerPages(h, n - 1, i);
    }
    FewerPages(h, n, n - 1);
    HasSupply(h.Grow(n - 1));
  }

  lemma HasSupply(h: State)
    requires h.HasPage()
    ensures h.vm.supply != []
  {
  }

  /** Different heap pages have different frames. */
  lemma FramesDiffer(h: State, n: nat, i: nat, j: nat)
    requires h.HasPages(n) && h.Room() && h.Increasing() && i < j < n
    ensures FrameAt(h, n, i) < FrameAt(h, n, j)
  {
    FewerPages(h, n, i);
    FewerPages(h, n, j);
    GrowMeaning(h, i);
    GrowMeaning(h, j);
    SuppliesShrink(h, i, j);
  }

  lemma {:induction false} SuppliesShrink(h: State, i: nat, j: nat)
    requires i < j && h.HasPages(j) && h.HasPages(i) && h.Room()
    ensures |h.Grow(j).vm.supply| < |h.Grow(i).vm.supply|
  {
    hide State.HasPages, State.Grow, State.HasPage, State.AddPage;
    OneMore(h, j, j - 1);
    AddPageMeaning(h.Grow(j - 1));
    if i < j - 1 { SuppliesShrink(h, i, j - 1); }
  }

  /** The frame of a heap page is one of those that were still to be handed out. */
  lemma FrameOfSupply(h: State, n: nat, i: nat) returns (j: nat)
    requires h.HasPages(n) && h.Room() && i < n
    ensures j < |h.vm.supply| && FrameAt(h, n, i) == h.vm.supply[j]
  {
    FewerPages(h, n, i);
    GrowMeaning(h, i);
    j := |h.vm.supply| - |h.Grow(i).vm.supply|;
  }

  /** A heap frame is mapped by its heap page alone: neither what was mapped before, as the kernel's
      own mapping, nor another heap page maps it. */
  lemma MappedOnce(h: State, n: nat, i: nat, v: nat)
    requires h.HasPages(n) && h.Room() && h.Increasing() && h.Fresh() && i < n
    requires var s := h.Grow(n).vm.space; PageNode(v) in s && s[PageNode(v)] == FrameAt(h, n, i)
    ensures v == PageAt(h, i)
  {
    GrowMaps(h, n);
    var j := FrameOfSupply(h, n, i);
    hide State.HasPages, State.Grow, FrameAt, State.Increasing, State.Room;
    if PageAt(h, 0) <= v < PageAt(h, n) {
      var k := v - PageAt(h, 0);
      assert PageAt(h, k) == v;
      if k < i { FramesDiffer(h, n, k, i); }
      if i < k { FramesDiffer(h, n, i, k); }
    }
  }

  /** Making tables present, in any order, keeps the supply apart from what is mapped. */
  lemma {:induction false} TablesKeepFresh(m: Vm, ts: seq<Node>, top: nat)
    requires m.Affords(ts) && State(m, top).Fresh() && State(m, top).Increasing()
    ensures State(m.WithTables(ts), top).Fresh() && State(m.WithTables(ts), top).Increasing()
    decreases |ts|
  {
    if ts != [] {
      var m1 := m.WithTable(ts[0]);
      OneTableKeepsFresh(m, ts[0], top);
      hide State.Fresh, State.Increasing, Vm.WithTable;
      TablesKeepFresh(m1, ts[1..], top);
    }
  }

  lemma OneTableKeepsFresh(m: Vm, n: Node, top: nat)
    requires |m.supply| >= Absent(m.space, n) && State(m, top).Fresh() && State(m, top).Increasing()
    ensures State(m.WithTable(n), top).Fresh() && State(m.WithTable(n), top).Increasing()
  {
  }

  lemma DropKeepsFresh(h: State)
    requires h.vm.supply != [] && h.Fresh() && h.Increasing()
    ensures h.DropFrame().Fresh() && h.DropFrame().Increasing()
    ensures forall n | n in h.vm.space :: h.vm.space[n] != h.vm.supply[0]
    ensures forall i | 0 <= i < |h.DropFrame().vm.supply| :: h.DropFrame().vm.supply[i] != h.vm.supply[0]
  {
  }

  /** One heap page later no mapped page and no table has a frame that is still to be handed out. */
  lemma AddPageKeepsFresh(h: State)
    requires h.HasPage() && h.Fresh() && h.Increasing()
    ensures h.AddPage().Fresh() && h.AddPage().Increasing()
  {
    DropKeepsFresh(h);
    var m, v, f := Vm(h.vm.space, h.vm.supply[1..]), h.NextVpn(), h.vm.supply[0];
    TablesKeepFresh(m, TablesOf(v), h.top);
    WithTablesMeaning(m, TablesOf(v));
    var t := m.WithTables(TablesOf(v));
    assert h.AddPage().vm == Vm(t.space[PageNode(v) := f], t.supply);
    hide Vm.WithTables, Vm.Affords;
    forall i | 0 <= i < |t.supply| ensures t.supply[i] != f {
      assert t.supply[i] == m.supply[|m.supply| - |t.supply| + i];
    }
  }

  lemma {:induction false} GrowKeepsFresh(h: State, n: nat)
    requires h.HasPages(n) && h.Fresh() && h.Increasing()
    ensures h.Grow(n).Fresh() && h.Grow(n).Increasing()
  {
    hide State.HasPages, State.Grow, State.HasPage, State.AddPage, State.Fresh, State.Increasing;
    if n == 0 {
      NoGrowth(h);
    } else {
      OneMore(h, n, n - 1);
      GrowKeepsFresh(h, n - 1);
      AddPageKeepsFresh(h.Grow(n - 1));
    }
  }

  // ----- How many frames n pages need -----

  function WithThree(a: set<Node>, x: Node, y: Node, z: Node): set<Node> {
    a + {x} + {y} + {z}
  }

  /** The tables that the pages v .. v + n - 1 go through. */
  function TablesOfRun(v: nat, n: nat): set<Node> {
    if n == 0 then {}
    else WithThree(TablesOfRun(v, n - 1), PdpNode(v + n - 1), PdNode(v + n - 1), PtNode(v + n - 1))
  }

  function MissingOf(a: set<Node>, s: Space): nat {
    |a - s.Keys|
  }

  function MissingTables(s: Space, v: nat, n: nat): nat {
    MissingOf(TablesOfRun(v, n), s)
  }

  lemma CountOne(a: set<Node>, n: Node, s: Space, b: set<Node>)
    requires b == a + {n}
    ensures MissingOf(b, s) == MissingOf(a, s) + if n in a || n in s then 0 else 1
  {
    if n in a || n in s {
      assert b - s.Keys == a - s.Keys;
    } else {
      assert b - s.Keys == (a - s.Keys) + {n};
    }
  }

  lemma CountThree(a: set<Node>, x: Node, y: Node, z: Node, s: Space)
    requires x.level == 3 && y.level == 2 && z.level == 1
    ensures MissingOf(WithThree(a, x, y, z), s) ==
            MissingOf(a, s) + (if x in a || x in s then 0 else 1) + (if y in a || y in s then 0 else 1)
            + if z in a || z in s then 0 else 1
  {
    hide MissingOf;
    var b, c := a + {x}, a + {x} + {y};
    assert (y in b <==> y in a) && (z in c <==> z in a);
    CountOne(a, x, s, b);
    CountOne(b, y, s, c);
    CountOne(c, z, s, WithThree(a, x, y, z));
  }

  /** One page more misses what its own three tables add. */
  lemma MissingOneMore(s: Space, g: Space, v: nat, n: nat)
    requires n > 0
    requires forall t: Node | t.level >= 1 :: t in g <==> t in s || t in TablesOfRun(v, n - 1)
    ensures MissingTables(s, v, n) == MissingTables(s, v, n - 1) + Missing(g, v + n - 1)
  {
    hide TablesOfRun, Missing, MissingOf, WithThree;
    RunOfOneMore(v, n);
    var w := v + n - 1;
    MissingParts(g, w, PdpNode(w), PdNode(w), PtNode(w));
    CountThree(TablesOfRun(v, n - 1), PdpNode(w), PdNode(w), PtNode(w), s);
  }

  lemma RunOfOneMore(v: nat, n: nat)
    requires n > 0
    ensures TablesOfRun(v, n) ==
            WithThree(TablesOfRun(v, n - 1), PdpNode(v + n - 1), PdNode(v + n - 1), PtNode(v + n - 1))
  {
  }

  lemma MissingParts(s: Space, v: nat, x: Node, y: Node, z: Node)
    requires x == PdpNode(v) && y == PdNode(v) && z == PtNode(v)
    ensures Missing(s, v) == (if x in s then 0 else 1) + (if y in s then 0 else 1) + if z in s then 0 else 1
  {
  }

  lemma AddPageCost(h: State)
    requires h.HasPage()
    ensures |h.AddPage().vm.supply| + 1 + Missing(h.vm.space, h.NextVpn()) == |h.vm.supply|
    ensures forall t: Node | t.level >= 1 ::
              t in h.AddPage().vm.space <==> t in h.vm.space || t in TablesOf(h.NextVpn())
  {
    var m := Vm(h.vm.space, h.vm.supply[1..]);
    MapCost(m, h.NextVpn(), h.vm.supply[0]);
    WithTablesMeaning(m, TablesOf(h.NextVpn()));
  }

  lemma TablesOfOneMore(v: nat, n: nat)
    requires n > 0
    ensures forall t: Node :: t in TablesOfRun(v, n) <==> t in TablesOfRun(v, n - 1) || t in TablesOf(v + n - 1)
  {
  }

  lemma NoPages(h: State)
    ensures h.HasPages(0) && h.Grow(0) == h
    ensures TablesOfRun(h.NextVpn(), 0) == {} && MissingTables(h.vm.space, h.NextVpn(), 0) == 0
  {
    assert TablesOfRun(h.NextVpn(), 0) - h.vm.space.Keys == {};
  }

  /** n pages take n frames and one for each table that was missing. */
  lemma {:induction false} GrowCost(h: State, n: nat)
    requires h.HasPages(n)
    ensures h.Grow(n).top == h.top + n
    ensures |h.Grow(n).vm.supply| + n + MissingTables(h.vm.space, h.NextVpn(), n) == |h.vm.supply|
    ensures forall t: Node | t.level >= 1 ::
              t in h.Grow(n).vm.space <==> t in h.vm.space || t in TablesOfRun(h.NextVpn(), n)
  {
    hide State.HasPages, State.Grow, State.HasPage, State.AddPage, TablesOfRun, TablesOf, Missing, MissingTables;
    if n == 0 {
      NoPages(h);
    } else {
      OneMore(h, n, n - 1);
      GrowCost(h, n - 1);
      var g := h.Grow(n - 1);
      AddPageMeaning(g);
      AddPageCost(g);
      MissingOneMore(h.vm.space, g.vm.space, h.NextVpn(), n);
      TablesOfOneMore(h.NextVpn(), n);
    }
  }

  lemma HasOneMore(h: State, n: nat)
    requires n > 0
    ensures h.HasPages(n) <==> h.HasPages(n - 1) && h.Grow(n - 1).HasPage()
  {
  }

  /** The frames are enough for n pages if and only if there is one for each page and one for each
      table that the pages go through and that is missing. */
  lemma {:induction false} EnoughFrames(h: State, n: nat)
    ensures h.HasPages(n) <==> |h.vm.supply| >= n + MissingTables(h.vm.space, h.NextVpn(), n)
  {
    hide State.HasPages, State.Grow, State.HasPage, State.AddPage, TablesOfRun, TablesOf, Missing, MissingTables;
    if n == 0 {
      NoPages(h);
    } else {
      HasOneMore(h, n);
      EnoughFrames(h, n - 1);
      FewerMissing(h.vm.space, h.NextVpn(), n);
      if h.HasPages(n - 1) {
        var g := h.Grow(n - 1);
        GrowCost(h, n - 1);
        MissingOneMore(h.vm.space, g.vm.space, h.NextVpn(), n);
        OnePage(g);
      }
    }
  }

  lemma OnePage(g: State)
    ensures g.HasPage() <==> |g.vm.supply| >= 1 + Missing(g.vm.space, g.NextVpn())
  {
    if g.vm.supply != [] {
      EnoughMeaning(Vm(g.vm.space, g.vm.supply[1..]), g.NextVpn());
    }
  }

  lemma FewerMissing(s: Space, v: nat, n: nat)
    requires n > 0
    ensures MissingTables(s, v, n - 1) <= MissingTables(s, v, n)
  {
    hide TablesOfRun, MissingOf, WithThree;
    RunOfOneMore(v, n);
    var w := v + n - 1;
    CountThree(TablesOfRun(v, n - 1), PdpNode(w), PdNode(w), PtNode(w), s);
  }

  /** Some space with the tables of s and these. */
  function WithAll(s: Space, ts: set<Node>): (x: Space)
    ensures x.Keys == s.Keys + ts
  {
    map t: Node | t in s.Keys + ts :: 0
  }

  lemma {:induction false} RunOfSum(v: nat, a: nat, b: nat)
    ensures TablesOfRun(v, a + b) == TablesOfRun(v, a) + TablesOfRun(v + a, b)
  {
    hide TablesOfRun, WithThree, PdpNode, PdNode, PtNode;
    if b == 0 {
      NoTables(v + a);
    } else {
      var w := v + a + b - 1;
      RunOfSum(v, a, b - 1);
      RunOfOneMore(v, a + b);
      RunOfOneMore(v + a, b);
      ThreeBehind(TablesOfRun(v, a), TablesOfRun(v + a, b - 1), PdpNode(w), PdNode(w), PtNode(w));
    }
  }

  lemma NoTables(v: nat)
    ensures TablesOfRun(v, 0) == {}
  {
  }

  lemma ThreeBehind(a: set<Node>, b: set<Node>, x: Node, y: Node, z: Node)
    ensures WithThree(a + b, x, y, z) == a + WithThree(b, x, y, z)
  {
  }

  /** The tables missing for a + b pages are those missing for the first a and, once these are mapped,
      for the other b. */
  lemma {:induction false} MissingAdds(s: Space, g: Space, v: nat, a: nat, b: nat)
    requires forall t: Node | t.level >= 1 :: t in g <==> t in s || t in TablesOfRun(v, a)
    ensures MissingTables(s, v, a + b) == MissingTables(s, v, a) + MissingTables(g, v + a, b)
  {
    hide TablesOfRun, MissingTables, Missing;
    if b == 0 {
      NoneMissing(g, v + a);
    } else {
      MissingAdds(s, g, v, a, b - 1);
      RunOfSum(v, a, b - 1);
      var x := WithAll(s, TablesOfRun(v, a + b - 1));
      MissingOneMore(s, x, v, a + b);
      MissingOneMore(g, x, v + a, b);
    }
  }

  /** A page lacks three tables at most. */
  lemma {:induction false} ThreeAPage(s: Space, v: nat, n: nat)
    ensures MissingTables(s, v, n) <= 3 * n
  {
    hide TablesOfRun, MissingOf, WithThree;
    if n == 0 {
      NoneMissing(s, v);
    } else {
      ThreeAPage(s, v, n - 1);
      RunOfOneMore(v, n);
      var w := v + n - 1;
      CountThree(TablesOfRun(v, n - 1), PdpNode(w), PdNode(w), PtNode(w), s);
    }
  }

  lemma NoneMissing(s: Space, v: nat)
    ensures MissingTables(s, v, 0) == 0
  {
    assert TablesOfRun(v, 0) - s.Keys == {};
  }
}
