/** Whole runs of `kmalloc`, `kmalloc_page` and `malloc`: what every earlier allocation keeps. */
module HeapRuns {
  import opened Paging
  import opened AddressSpace
  import opened FrameBitmap
  import AllocatorRuns
  import opened Heap

  /** `malloc` takes the frame that `kmalloc_mem` would have returned next, or one that it never returns
      (see `MallocSupply`). */
  datatype Call = Kmalloc(size: nat) | KmallocPage | Malloc(shared: bool)

  /** How many pages a call maps: `size_mem / PAGE_SIZE + 1`, or one, or none. */
  function PagesOf(c: Call): nat {
    match c
    case Kmalloc(size) => size / PAGE_SIZE + 1
    case KmallocPage => 1
    case Malloc(_) => 0
  }

  predicate Can(h: State, c: Call) {
    if c.Malloc? then c.shared ==> h.vm.supply != [] else h.HasPages(PagesOf(c))
  }

  function Step(h: State, c: Call): State
    requires Can(h, c)
  {
    if !c.Malloc? then h.Grow(PagesOf(c)) else if c.shared then h.DropFrame() else h
  }

  /** The frames are enough for a run of calls. */
  predicate CanRun(h: State, calls: seq<Call>)
    decreases |calls|, 0
  {
    calls == [] || (CanRun(h, calls[..|calls| - 1]) && Can(After(h, calls[..|calls| - 1]), calls[|calls| - 1]))
  }

  /** The kernel after a run of calls. */
  function After(h: State, calls: seq<Call>): State
    requires CanRun(h, calls)
    decreases |calls|, 1
  {
    if calls == [] then h else Step(After(h, calls[..|calls| - 1]), calls[|calls| - 1])
  }

  lemma {:induction false} PrefixRuns(h: State, calls: seq<Call>, i: nat)
    requires CanRun(h, calls) && i <= |calls|
    ensures CanRun(h, calls[..i]) && (i == |calls| ==> calls[..i] == calls)
    decreases |calls|
  {
    if i == |calls| {
      assert calls[..i] == calls;
    } else {
      PrefixRuns(h, calls[..|calls| - 1], i);
      assert calls[..|calls| - 1][..i] == calls[..i];
    }
  }

  /** The kernel before call i of the run, or at its end. */
  function Before(h: State, calls: seq<Call>, i: nat): State
    requires CanRun(h, calls) && i <= |calls|
  {
    PrefixRuns(h, calls, i);
    After(h, calls[..i])
  }

  lemma BeforeNext(h: State, calls: seq<Call>, i: nat)
    requires CanRun(h, calls) && i < |calls|
    ensures Can(Before(h, calls, i), calls[i]) && Before(h, calls, i + 1) == Step(Before(h, calls, i), calls[i])
  {
    PrefixRuns(h, calls, i);
    PrefixRuns(h, calls, i + 1);
    hide Can, Step;
    assert calls[..i + 1][..i] == calls[..i];
  }

  /** What one call does to the break and to the supply. */
  lemma StepMeaning(g: State, c: Call)
    requires Can(g, c) && g.Room()
    ensures var r := Step(g, c);
            && r.top == g.top + PagesOf(c) && r.Room()
            && |r.vm.supply| + PagesOf(c) <= |g.vm.supply|
            && r.vm.supply == g.vm.supply[|g.vm.supply| - |r.vm.supply|..]
  {
    hide State.HasPages, State.Grow;
    if !c.Malloc? { GrowMeaning(g, PagesOf(c)); }
  }

  /** From one call of a run to a later one. */
  lemma {:induction false} RunMeaning(h: State, calls: seq<Call>, i: nat, j: nat)
    requires CanRun(h, calls) && h.Room() && i <= j <= |calls|
    ensures var a, b := Before(h, calls, i), Before(h, calls, j);
            && a.Room() && b.Room() && a.top <= b.top
            && |b.vm.supply| <= |a.vm.supply| && b.vm.supply == a.vm.supply[|a.vm.supply| - |b.vm.supply|..]
    decreases j
  {
    hide CanRun, Before, State.Room, Can, Step, PagesOf;
    if j == 0 {
      BeforeFirst(h, calls);
    } else {
      BeforeNext(h, calls, j - 1);
      if i == j {
        RunMeaning(h, calls, i - 1, j - 1);
        StepMeaning(Before(h, calls, j - 1), calls[j - 1]);
      } else {
        RunMeaning(h, calls, i, j - 1);
        StepMeaning(Before(h, calls, j - 1), calls[j - 1]);
        SuffixOfSuffix(Before(h, calls, i).vm.supply, Before(h, calls, j - 1).vm.supply,
                       Before(h, calls, j).vm.supply);
      }
    }
  }

  lemma BeforeFirst(h: State, calls: seq<Call>)
    requires CanRun(h, calls)
    ensures Before(h, calls, 0) == h
  {
    assert calls[..0] == [];
  }

  /** What the i-th call of the run returns: PHY_TO_VIRT of the break it found. */
  function Base(h: State, calls: seq<Call>, i: nat): nat
    requires CanRun(h, calls) && i < |calls|
  {
    PhyToVirt(Before(h, calls, i).top * PAGE_SIZE)
  }

  /** The frame behind page x of the i-th call. */
  function PageFrame(h: State, calls: seq<Call>, i: nat, x: nat): nat
    requires CanRun(h, calls) && i < |calls| && x < PagesOf(calls[i])
  {
    BeforeNext(h, calls, i);
    FrameAt(Before(h, calls, i), PagesOf(calls[i]), x)
  }

  /** The i-th call lies wholly before the j-th. */
  lemma CallsInOrder(h: State, calls: seq<Call>, i: nat, j: nat)
    requires CanRun(h, calls) && h.Room() && i < j <= |calls|
    ensures Before(h, calls, i).top + PagesOf(calls[i]) <= Before(h, calls, j).top <= 0x8_0000
  {
    hide CanRun, Before, Can, Step, PagesOf;
    BeforeNext(h, calls, i);
    RunMeaning(h, calls, i, j);
    StepMeaning(Before(h, calls, i), calls[i]);
    RunMeaning(h, calls, i + 1, j);
  }

  lemma BaseIs(h: State, calls: seq<Call>, i: nat)
    requires CanRun(h, calls) && h.Room() && i < |calls| && PagesOf(calls[i]) > 0
    ensures Base(h, calls, i) == VIRT_OFFSET + Before(h, calls, i).top * PAGE_SIZE
  {
    hide CanRun, Before, PagesOf;
    CallsInOrder(h, calls, i, i + 1);
    BreakAddress(Before(h, calls, i).top);
  }

  lemma RegionAddress(h: State, calls: seq<Call>, i: nat, k: nat)
    requires CanRun(h, calls) && h.Room() && i < |calls| && k < PAGE_SIZE * PagesOf(calls[i])
    ensures k / PAGE_SIZE < PagesOf(calls[i])
    ensures var a := Base(h, calls, i) + k;
            && Canonical(a) && OutsideSlot(a) && Vpn(a) == PageAt(Before(h, calls, i), k / PAGE_SIZE)
  {
    PageOfByte(calls[i], k);
    hide CanRun, Before, PagesOf, Base, Vpn, Canonical, OutsideSlot;
    CallsInOrder(h, calls, i, i + 1);
    BaseIs(h, calls, i);
    RoomForByte(Base(h, calls, i) + k, Before(h, calls, i).top, k);
  }

  lemma PageOfByte(c: Call, k: nat)
    requires k < PAGE_SIZE * PagesOf(c)
    ensures k / PAGE_SIZE < PagesOf(c)
  {
  }

  lemma RoomForByte(a: nat, top: nat, k: nat)
    requires top + k / PAGE_SIZE + 1 <= 0x8_0000 && a == VIRT_OFFSET + top * PAGE_SIZE + k
    ensures Canonical(a) && OutsideSlot(a) && Vpn(a) == 0xF_FFF8_0000 + top + k / PAGE_SIZE
  {
    HeapAddress(top, k);
  }

  /** A call maps its own pages, to its frames, and leaves every other page alone. */
  lemma StepMaps(g: State, c: Call)
    requires Can(g, c) && g.Room()
    ensures var s := Step(g, c).vm.space;
            && (forall x | 0 <= x < PagesOf(c) ::
                  PageNode(PageAt(g, x)) in s && s[PageNode(PageAt(g, x))] == FrameAt(g, PagesOf(c), x))
            && (forall v: nat | v < PageAt(g, 0) || PageAt(g, PagesOf(c)) <= v ::
                  (PageNode(v) in s <==> PageNode(v) in g.vm.space) &&
                  (PageNode(v) in s ==> s[PageNode(v)] == g.vm.space[PageNode(v)]))
  {
    hide State.HasPages, State.Grow, FrameAt;
    if !c.Malloc? { GrowMaps(g, PagesOf(c)); }
  }

  /** Pages below the break stay as they are. */
  lemma {:induction false} PageKept(h: State, calls: seq<Call>, j: nat, m: nat, v: nat)
    requires CanRun(h, calls) && h.Room() && j <= m <= |calls| && v < Before(h, calls, j).NextVpn()
    ensures var s, s' := Before(h, calls, j).vm.space, Before(h, calls, m).vm.space;
            (PageNode(v) in s' <==> PageNode(v) in s) && (PageNode(v) in s' ==> s'[PageNode(v)] == s[PageNode(v)])
    decreases m
  {
    hide CanRun, Before, Can, Step, PagesOf, State.Room, FrameAt;
    if j < m {
      PageKept(h, calls, j, m - 1, v);
      RunMeaning(h, calls, j, m - 1);
      BeforeNext(h, calls, m - 1);
      StepMaps(Before(h, calls, m - 1), calls[m - 1]);
    }
  }

  /** Page x of call i is mapped to its frame ever after. */
  lemma PageStays(h: State, calls: seq<Call>, m: nat, i: nat, x: nat)
    requires CanRun(h, calls) && h.Room() && i < m <= |calls| && x < PagesOf(calls[i])
    ensures var s, v := Before(h, calls, m).vm.space, PageAt(Before(h, calls, i), x);
            PageNode(v) in s && s[PageNode(v)] == PageFrame(h, calls, i, x)
  {
    BeforeNext(h, calls, i);
    var g := Before(h, calls, i);
    RunMeaning(h, calls, i, i);
    assert PageFrame(h, calls, i, x) == FrameAt(g, PagesOf(calls[i]), x);
    hide CanRun, Before, Can, Step, PagesOf, State.Room, State.HasPages, FrameAt, PageFrame;
    StepMaps(g, calls[i]);
    StepMeaning(g, calls[i]);
    PageKept(h, calls, i + 1, m, PageAt(g, x));
  }

  /** Whole-run heap guarantee: after any run, whatever RAM holds the resulting tree, byte k of
      the region of any call i translates to a frame that depends only on the run up to that call, so
      no later call has changed it. */
  lemma RegionsStayMapped(h: State, calls: seq<Call>, m: nat, i: nat, k: nat, ram: Ram)
    requires CanRun(h, calls) && h.Room() && i < m <= |calls| && k < PAGE_SIZE * PagesOf(calls[i])
    requires Tree(ram, Before(h, calls, m).vm.space)
    ensures k / PAGE_SIZE < PagesOf(calls[i])
    ensures Translate(ram, Before(h, calls, m).vm.space[ROOT], Base(h, calls, i) + k) ==
            At(PageFrame(h, calls, i, k / PAGE_SIZE), true, true)
  {
    hide CanRun, Before, PagesOf, Base, PageFrame, Vpn, Canonical, OutsideSlot, Tree, Translate;
    RegionAddress(h, calls, i, k);
    PageStays(h, calls, m, i, k / PAGE_SIZE);
    TranslateMeaning(ram, Before(h, calls, m).vm.space, Base(h, calls, i) + k);
  }

  /** Where in the supply the frame of a page was: behind what earlier calls took, before what is left. */
  lemma FrameInSupply(h: State, calls: seq<Call>, i: nat, x: nat) returns (y: nat)
    requires CanRun(h, calls) && h.Room() && i < |calls| && x < PagesOf(calls[i])
    ensures y < |h.vm.supply| && PageFrame(h, calls, i, x) == h.vm.supply[y]
    ensures |h.vm.supply| - |Before(h, calls, i).vm.supply| <= y < |h.vm.supply| - |Before(h, calls, i + 1).vm.supply|
  {
    hide CanRun, Before, PagesOf, State.Room, State.HasPages, State.Grow, PageFrame, FrameAt;
    BeforeFirst(h, calls);
    RunMeaning(h, calls, 0, i);
    var g, n := Before(h, calls, i), PagesOf(calls[i]);
    FrameOfPage(h, calls, i, x);
    var z := FrameOfGrowth(g, n, x);
    y := |h.vm.supply| - |g.vm.supply| + z;
  }

  lemma FrameOfGrowth(g: State, n: nat, x: nat) returns (z: nat)
    requires g.HasPages(n) && g.Room() && x < n
    ensures z < |g.vm.supply| - |g.Grow(n).vm.supply| && FrameAt(g, n, x) == g.vm.supply[z]
  {
    FewerPages(g, n, x);
    GrowMeaning(g, x);
    GrowMeaning(g, n);
    SuppliesShrink(g, x, n);
    z := |g.vm.supply| - |g.Grow(x).vm.supply|;
  }

  /** Bytes of different calls lie on different pages, backed by different frames. */
  lemma RegionsAreDisjoint(h: State, calls: seq<Call>, i: nat, k: nat, j: nat, l: nat)
    requires CanRun(h, calls) && h.Room() && h.Increasing() && i < j < |calls|
    requires k < PAGE_SIZE * PagesOf(calls[i]) && l < PAGE_SIZE * PagesOf(calls[j])
    ensures Vpn(Base(h, calls, i) + k) < Vpn(Base(h, calls, j) + l)
    ensures k / PAGE_SIZE < PagesOf(calls[i]) && l / PAGE_SIZE < PagesOf(calls[j])
    ensures PageFrame(h, calls, i, k / PAGE_SIZE) < PageFrame(h, calls, j, l / PAGE_SIZE)
  {
    hide CanRun, Before, PagesOf, Base, PageFrame, Vpn, State.Room;
    RegionAddress(h, calls, i, k);
    RegionAddress(h, calls, j, l);
    CallsInOrder(h, calls, i, j);
    FramesInOrder(h, calls, i, k / PAGE_SIZE, j, l / PAGE_SIZE);
  }

  lemma FramesInOrder(h: State, calls: seq<Call>, i: nat, x: nat, j: nat, z: nat)
    requires CanRun(h, calls) && h.Room() && h.Increasing() && i < j < |calls|
    requires x < PagesOf(calls[i]) && z < PagesOf(calls[j])
    ensures PageFrame(h, calls, i, x) < PageFrame(h, calls, j, z)
  {
    hide CanRun, Before, PagesOf, PageFrame, State.Room;
    var a := FrameInSupply(h, calls, i, x);
    var b := FrameInSupply(h, calls, j, z);
    RunMeaning(h, calls, i + 1, j);
  }

  /** The page that a `malloc` shares with the supply is the frame of no heap page, earlier or later. */
  lemma MallocIsApart(h: State, calls: seq<Call>, j: nat, i: nat, x: nat)
    requires CanRun(h, calls) && h.Room() && h.Increasing() && j < |calls| && calls[j] == Malloc(true)
    requires i < |calls| && x < PagesOf(calls[i])
    ensures Before(h, calls, j).vm.supply != [] && Before(h, calls, j).vm.supply[0] != PageFrame(h, calls, i, x)
  {
    BeforeNext(h, calls, j);
    BeforeFirst(h, calls);
    RunMeaning(h, calls, 0, j);
    var g := Before(h, calls, j);
    assert |Before(h, calls, j + 1).vm.supply| + 1 == |g.vm.supply| && i != j;
    hide CanRun, Before, Can, Step, PagesOf, PageFrame, State.Room;
    var a := FrameInSupply(h, calls, i, x);
    var b := |h.vm.supply| - |g.vm.supply|;
    if i < j { RunMeaning(h, calls, i + 1, j); } else { RunMeaning(h, calls, j + 1, i); }
    assert a != b && h.vm.supply[b] == g.vm.supply[0];
  }

  lemma {:induction false} StaysFresh(h: State, calls: seq<Call>, i: nat)
    requires CanRun(h, calls) && i <= |calls| && h.Fresh() && h.Increasing()
    ensures Before(h, calls, i).Fresh() && Before(h, calls, i).Increasing()
  {
    hide CanRun, Before, State.Fresh, State.Increasing, State.HasPages, State.Grow;
    if i == 0 {
      BeforeFirst(h, calls);
    } else {
      BeforeNext(h, calls, i - 1);
      StaysFresh(h, calls, i - 1);
      var g, c := Before(h, calls, i - 1), calls[i - 1];
      if !c.Malloc? { GrowKeepsFresh(g, PagesOf(c)); } else if c.shared { DropKeepsFresh(g); }
    }
  }

  /** Whatever the run, a frame of the heap is mapped by its own heap page alone. */
  lemma {:induction false} MappedOnce(h: State, calls: seq<Call>, m: nat, i: nat, x: nat, v: nat)
    requires CanRun(h, calls) && h.Room() && h.Fresh() && h.Increasing()
    requires i < m <= |calls| && x < PagesOf(calls[i])
    requires var s := Before(h, calls, m).vm.space; PageNode(v) in s && s[PageNode(v)] == PageFrame(h, calls, i, x)
    ensures v == PageAt(Before(h, calls, i), x)
    decreases m
  {
    hide CanRun, Before, PagesOf, PageFrame, State.Room, State.Increasing, State.Fresh, Can, FrameAt, State.HasPages,
         State.Grow;
    var g, n := Before(h, calls, m - 1), PagesOf(calls[m - 1]);
    BeforeNext(h, calls, m - 1);
    RunMeaning(h, calls, m - 1, m - 1);
    if i == m - 1 {
      StaysFresh(h, calls, m - 1);
      FrameOfPage(h, calls, m - 1, x);
      Heap.MappedOnce(g, n, x, v);
    } else {
      StepMaps(g, calls[m - 1]);
      if PageAt(g, 0) <= v < PageAt(g, n) {
        var z := v - PageAt(g, 0);
        assert PageAt(g, z) == v;
        FrameOfPage(h, calls, m - 1, z);
        FramesInOrder(h, calls, i, x, m - 1, z);
      } else {
        MappedOnce(h, calls, m - 1, i, x, v);
      }
    }
  }

  lemma FrameOfPage(h: State, calls: seq<Call>, i: nat, x: nat)
    requires CanRun(h, calls) && i < |calls| && x < PagesOf(calls[i])
    ensures Before(h, calls, i).HasPages(PagesOf(calls[i]))
    ensures Before(h, calls, i + 1) == Before(h, calls, i).Grow(PagesOf(calls[i]))
    ensures PageFrame(h, calls, i, x) == FrameAt(Before(h, calls, i), PagesOf(calls[i]), x)
  {
    hide Before, CanRun, FrameAt;
    BeforeNext(h, calls, i);
  }

  // ----- How many frames a run needs -----

  function Total(calls: seq<Call>): nat {
    if calls == [] then 0 else Total(calls[..|calls| - 1]) + PagesOf(calls[|calls| - 1])
  }

  /** Growing by n + m pages is growing by n, then by m. */
  lemma {:induction false} GrowInTwo(h: State, n: nat, m: nat)
    ensures h.HasPages(n + m) <==> h.HasPages(n) && h.Grow(n).HasPages(m)
    ensures h.HasPages(n + m) ==> h.Grow(n + m) == h.Grow(n).Grow(m)
    decreases m
  {
    hide State.HasPages, State.Grow, State.HasPage, State.AddPage;
    if m == 0 {
      if h.HasPages(n) { NoGrowth(h.Grow(n)); }
    } else {
      GrowInTwo(h, n, m - 1);
      HasOneMore(h, n + m);
      if h.HasPages(n) { HasOneMore(h.Grow(n), m); }
      if h.HasPages(n + m) {
        OneMore(h, n + m, n + m - 1);
        OneMore(h.Grow(n), m, m - 1);
      }
    }
  }

  /** Without `malloc` a run is one long growth. */
  lemma {:induction false} AfterIsGrow(h: State, calls: seq<Call>)
    requires forall c | c in calls :: !c.Malloc?
    ensures CanRun(h, calls) <==> h.HasPages(Total(calls))
    ensures CanRun(h, calls) ==> After(h, calls) == h.Grow(Total(calls))
    decreases |calls|
  {
    if calls != [] {
      var init, c := calls[..|calls| - 1], calls[|calls| - 1];
      assert c in calls && forall d | d in init :: d in calls;
      AfterIsGrow(h, init);
      GrowInTwo(h, Total(init), PagesOf(c));
    }
  }

  /** Frames that `malloc` takes from the supply. */
  function Drops(calls: seq<Call>): nat {
    if calls == [] then 0
    else Drops(calls[..|calls| - 1]) + if calls[|calls| - 1] == Malloc(true) then 1 else 0
  }

  /** A frame for each heap page and each missing table, and those that `malloc` takes. */
  function Needed(h: State, calls: seq<Call>): nat {
    Total(calls) + MissingTables(h.vm.space, h.NextVpn(), Total(calls)) + Drops(calls)
  }

  function NeededByCall(g: State, c: Call): nat {
    if c == Malloc(true) then 1 else PagesOf(c) + MissingTables(g.vm.space, g.NextVpn(), PagesOf(c))
  }

  lemma CallCost(g: State, c: Call)
    ensures Can(g, c) <==> |g.vm.supply| >= NeededByCall(g, c)
    ensures Can(g, c) ==>
              var r := Step(g, c);
              && r.top == g.top + PagesOf(c) && |r.vm.supply| + NeededByCall(g, c) == |g.vm.supply|
              && (forall t: Node | t.level >= 1 ::
                    t in r.vm.space <==> t in g.vm.space || t in TablesOfRun(g.NextVpn(), PagesOf(c)))
  {
    NoneMissing(g.vm.space, g.NextVpn());
    EnoughFrames(g, PagesOf(c));
    if !c.Malloc? && Can(g, c) { GrowCost(g, PagesOf(c)); }
  }

  /** A run can be made if and only if there are as many frames as it needs, and it uses up just these. */
  lemma {:induction false} EnoughForRun(h: State, calls: seq<Call>)
    ensures CanRun(h, calls) <==> |h.vm.supply| >= Needed(h, calls)
    ensures CanRun(h, calls) ==>
              var r := After(h, calls);
              && r.top == h.top + Total(calls) && |r.vm.supply| + Needed(h, calls) == |h.vm.supply|
              && (forall t: Node | t.level >= 1 ::
                    t in r.vm.space <==> t in h.vm.space || t in TablesOfRun(h.NextVpn(), Total(calls)))
    decreases |calls|
  {
    hide Can, Step, PagesOf, MissingTables, TablesOfRun, NeededByCall;
    if calls == [] {
      NoneMissing(h.vm.space, h.NextVpn());
      NoTables(h.NextVpn());
    } else {
      var init, c := calls[..|calls| - 1], calls[|calls| - 1];
      EnoughForRun(h, init);
      if CanRun(h, init) {
        NeededInTurn(h, calls, After(h, init));
        CallCost(After(h, init), c);
        RunOfSum(h.NextVpn(), Total(init), PagesOf(c));
      } else {
        var g := State(Vm(WithAll(h.vm.space, TablesOfRun(h.NextVpn(), Total(init))), []), h.top + Total(init));
        NeededInTurn(h, calls, g);
      }
    }
  }

  /** What the last call needs comes on top of what the others do. */
  lemma NeededInTurn(h: State, calls: seq<Call>, g: State)
    requires calls != [] && g.top == h.top + Total(calls[..|calls| - 1])
    requires forall t: Node | t.level >= 1 ::
               t in g.vm.space <==> t in h.vm.space || t in TablesOfRun(h.NextVpn(), Total(calls[..|calls| - 1]))
    ensures Needed(h, calls) == Needed(h, calls[..|calls| - 1]) + NeededByCall(g, calls[|calls| - 1])
  {
    hide MissingTables, TablesOfRun;
    var init, c := calls[..|calls| - 1], calls[|calls| - 1];
    MissingAdds(h.vm.space, g.vm.space, h.NextVpn(), Total(init), PagesOf(c));
    NoneMissing(g.vm.space, g.NextVpn());
  }

  // ----- Runs on a kernel's bitmap -----

  /** What a caller asks for. */
  datatype Request = ForKmalloc(size: nat) | ForKmallocPage | ForMalloc(size: nat)

  predicate Answers(c: Call, r: Request) {
    match r
    case ForKmalloc(size) => c == Kmalloc(size)
    case ForKmallocPage => c == KmallocPage
    case ForMalloc(_) => c.Malloc?
  }

  /** The page that `malloc_mem` takes is the one that `kmalloc_mem` would have returned next. */
  ghost predicate SharesNext(b: Bytes)
    requires AllocatorRuns.HighByte(b) && IsBitmap(b)
  {
    AllocatorRuns.MallocSupply(b);
    Pick(b, 0).Some? && Pick(b, 0) == Pick(b, 528)
  }

  /** The bitmap before call i of a run from heap state h and bitmap b. */
  ghost function BitmapBefore(h: State, b: Bytes, calls: seq<Call>, i: nat): (r: Bytes)
    requires CanRun(h, calls) && i <= |calls| && IsBitmap(b) && AllocatorRuns.HighByte(b)
    ensures IsBitmap(r) && AllocatorRuns.HighByte(r)
  {
    if i == 0 then b
    else BitmapNext(BitmapBefore(h, b, calls, i - 1), calls[i - 1],
                    |Before(h, calls, i - 1).vm.supply|, |Before(h, calls, i).vm.supply|)
  }

  /** The bitmap after one call, given how long the supply was and is. */
  ghost function BitmapNext(b: Bytes, c: Call, was: nat, left: nat): (r: Bytes)
    requires IsBitmap(b) && AllocatorRuns.HighByte(b)
    ensures IsBitmap(r) && AllocatorRuns.HighByte(r)
  {
    AllocatorRuns.MallocSupply(b);
    if c.Malloc? then Take(b, 0) else AllocatorRuns.TakenTimes(b, if left <= was then was - left else 0)
  }

  /** These are the calls that the requests lead to, and the frames are enough for them. */
  ghost predicate Served(h: State, b: Bytes, requests: seq<Request>, calls: seq<Call>)
    requires IsBitmap(b) && AllocatorRuns.HighByte(b)
  {
    && |calls| == |requests| && CanRun(h, calls)
    && (forall i | 0 <= i < |calls| :: Answers(calls[i], requests[i]))
    && (forall i | 0 <= i < |calls| && calls[i].Malloc? ::
          calls[i].shared <==> SharesNext(BitmapBefore(h, b, calls, i)))
  }

  /** Frames that requests need at most: a page and three tables for each page, and one for each `malloc`. */
  function AtMost(requests: seq<Request>): nat {
    if requests == [] then 0
    else AtMost(requests[..|requests| - 1]) +
         match requests[|requests| - 1]
         case ForKmalloc(size) => 4 * (size / 0x1000 + 1)
         case ForKmallocPage => 4
         case ForMalloc(_) => 1
  }

  /** With that many frames any requests can be served, and lead to some calls. */
  lemma {:induction false} CanServe(h: State, b: Bytes, requests: seq<Request>) returns (calls: seq<Call>)
    requires IsBitmap(b) && AllocatorRuns.HighByte(b) && |h.vm.supply| >= AtMost(requests)
    ensures Served(h, b, requests, calls) && |After(h, calls).vm.supply| + AtMost(requests) >= |h.vm.supply|
    decreases |requests|
  {
    hide IsBitmap, AllocatorRuns.HighByte, BitmapBefore, SharesNext, Can, Step, CanRun, After, Served;
    if requests == [] {
      calls := [];
      NoneServed(h, b);
    } else {
      var init, r := requests[..|requests| - 1], requests[|requests| - 1];
      var first := CanServe(h, b, init);
      ServedRuns(h, b, init, first);
      var g := After(h, first);
      var c := if r.ForKmalloc? then Kmalloc(r.size) else if r.ForKmallocPage? then KmallocPage
               else Malloc(SharesNext(BitmapBefore(h, b, first, |first|)));
      OneMoreFits(g, c, r);
      OneMoreRuns(h, first, c);
      OneMoreServed(h, b, init, first, r, c);
      calls := first + [c];
      assert requests == init + [r];
    }
  }

  lemma NoneServed(h: State, b: Bytes)
    requires IsBitmap(b) && AllocatorRuns.HighByte(b)
    ensures Served(h, b, [], []) && After(h, []) == h
  {
  }

  lemma ServedRuns(h: State, b: Bytes, requests: seq<Request>, calls: seq<Call>)
    requires IsBitmap(b) && AllocatorRuns.HighByte(b) && Served(h, b, requests, calls)
    ensures CanRun(h, calls)
  {
  }

  lemma OneMoreFits(g: State, c: Call, r: Request)
    requires Answers(c, r)
    requires |g.vm.supply| >= match r case ForKmalloc(size) => 4 * (size / 0x1000 + 1) case ForKmallocPage => 4
                                      case ForMalloc(_) => 1
    ensures Can(g, c)
    ensures |Step(g, c).vm.supply| + (match r case ForKmalloc(size) => 4 * (size / 0x1000 + 1) case ForKmallocPage => 4
                                              case ForMalloc(_) => 1) >= |g.vm.supply|
  {
    CallCost(g, c);
    ThreeAPage(g.vm.space, g.NextVpn(), PagesOf(c));
    hide MissingTables, Can, Step;
  }

  lemma OneMoreRuns(h: State, calls: seq<Call>, c: Call)
    requires CanRun(h, calls) && Can(After(h, calls), c)
    ensures CanRun(h, calls + [c]) && After(h, calls + [c]) == Step(After(h, calls), c)
  {
    hide Can, Step;
    assert (calls + [c])[..|calls|] == calls;
  }

  lemma OneMoreServed(h: State, b: Bytes, requests: seq<Request>, calls: seq<Call>, r: Request, c: Call)
    requires IsBitmap(b) && AllocatorRuns.HighByte(b) && Served(h, b, requests, calls)
    requires CanRun(h, calls + [c]) && Answers(c, r)
    requires c.Malloc? ==> (c.shared <==> SharesNext(BitmapBefore(h, b, calls, |calls|)))
    ensures Served(h, b, requests + [r], calls + [c])
  {
    hide IsBitmap, AllocatorRuns.HighByte, SharesNext, BitmapBefore, CanRun, Answers;
    var all := calls + [c];
    forall i | 0 <= i < |all| && all[i].Malloc?
      ensures all[i].shared <==> SharesNext(BitmapBefore(h, b, all, i))
    {
      SameBitmaps(h, b, calls, all, i);
    }
  }

  /** The bitmap before a call depends on the calls before it alone. */
  lemma {:induction false} SameBitmaps(h: State, b: Bytes, calls: seq<Call>, all: seq<Call>, i: nat)
    requires IsBitmap(b) && AllocatorRuns.HighByte(b) && CanRun(h, calls) && CanRun(h, all)
    requires i <= |calls| <= |all| && all[..|calls|] == calls
    ensures BitmapBefore(h, b, all, i) == BitmapBefore(h, b, calls, i)
  {
    hide IsBitmap, AllocatorRuns.HighByte, BitmapNext, CanRun, After;
    if i > 0 {
      SameBitmaps(h, b, calls, all, i - 1);
      assert all[..i] == all[..|calls|][..i] == calls[..i] && all[..i - 1] == calls[..i - 1];
    }
  }

  /** What call i returns: the address of its region, or that of the page of `malloc`, 0 if there is none. */
  ghost predicate Returns(h: State, b: Bytes, calls: seq<Call>, i: nat, address: nat)
    requires CanRun(h, calls) && i < |calls| && IsBitmap(b) && AllocatorRuns.HighByte(b)
  {
    var c := BitmapBefore(h, b, calls, i);
    if calls[i].Malloc? then Stops(c, 0) && address == match Pick(c, 0) case Some(p) => p * PAGE_SIZE case None => 0
    else address == Base(h, calls, i)
  }

  /** These are the results of the first calls of the run. */
  ghost predicate AllReturn(h: State, b: Bytes, calls: seq<Call>, addresses: seq<nat>)
    requires CanRun(h, calls) && IsBitmap(b) && AllocatorRuns.HighByte(b)
  {
    && |addresses| <= |calls|
    && forall i | 0 <= i < |addresses| :: Returns(h, b, calls, i, addresses[i])
  }

  lemma OneMoreReturns(h: State, b: Bytes, calls: seq<Call>, addresses: seq<nat>, address: nat)
    requires CanRun(h, calls) && IsBitmap(b) && AllocatorRuns.HighByte(b)
    requires AllReturn(h, b, calls, addresses) && |addresses| < |calls|
    requires Returns(h, b, calls, |addresses|, address)
    ensures AllReturn(h, b, calls, addresses + [address])
  {
    hide Returns;
  }
}
