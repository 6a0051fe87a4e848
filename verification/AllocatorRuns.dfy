/** Whole runs of the two frame allocators, `kmalloc_mem` and `malloc_mem`. */
module AllocatorRuns {
  import opened Bits
  import opened FrameBitmap
  import opened Options

  datatype Op = KmallocMem | MallocMem

  const KERNEL_FIRST: nat := 528

  function First(op: Op): nat {
    if op.KmallocMem? then KERNEL_FIRST else 0
  }

  /** Every pre-scan of the run finds a byte that is not full. */
  ghost predicate StaysInside(b: Bytes, ops: seq<Op>)
    decreases |ops|, 0
  {
    ops == [] || (StaysInside(b, ops[..|ops| - 1]) && Stops(After(b, ops[..|ops| - 1]), First(ops[|ops| - 1])))
  }

  ghost function After(b: Bytes, ops: seq<Op>): Bytes
    requires StaysInside(b, ops)
    decreases |ops|, 1
  {
    if ops == [] then b else Take(After(b, ops[..|ops| - 1]), First(ops[|ops| - 1]))
  }

  lemma {:induction false} PrefixStaysInside(b: Bytes, ops: seq<Op>, i: nat)
    requires StaysInside(b, ops) && i <= |ops|
    ensures StaysInside(b, ops[..i])
    ensures i < |ops| ==> Stops(After(b, ops[..i]), First(ops[i]))
    decreases |ops|
  {
    if i == |ops| {
      assert ops[..i] == ops;
    } else if i < |ops| - 1 {
      PrefixStaysInside(b, ops[..|ops| - 1], i);
      assert ops[..|ops| - 1][..i] == ops[..i];
    }
  }

  /** What the i-th call of the run returns. */
  ghost function Result(b: Bytes, ops: seq<Op>, i: nat): Option<nat>
    requires StaysInside(b, ops) && i < |ops|
  {
    PrefixStaysInside(b, ops, i);
    Pick(After(b, ops[..i]), First(ops[i]))
  }

  lemma {:induction false} RunGrows(b: Bytes, ops: seq<Op>, i: nat, j: nat)
    requires IsBitmap(b) && StaysInside(b, ops) && i <= j <= |ops|
    ensures StaysInside(b, ops[..i]) && StaysInside(b, ops[..j])
    ensures var bi, bj := After(b, ops[..i]), After(b, ops[..j]);
            && IsBitmap(bi) && IsBitmap(bj) && Fuller(bi, bj)
            && (forall q: nat | q / 8 < MAX_PAGES :: Used(bi, q) ==> Used(bj, q))
            && (forall k | 1024 <= k < MAX_PAGES :: bi[k] == bj[k])
    decreases j
  {
    PrefixStaysInside(b, ops, i);
    PrefixStaysInside(b, ops, j);
    if j == 0 {
      assert ops[..i] == [] == ops[..j];
    } else {
      PrefixStaysInside(b, ops, j - 1);
      assert ops[..j][..j - 1] == ops[..j - 1];
      if i == j {
        RunGrows(b, ops, i - 1, j - 1);
      } else {
        RunGrows(b, ops, i, j - 1);
      }
      TakeMeaning(After(b, ops[..j - 1]), First(ops[j - 1]));
    }
  }

  /** The page of the i-th call was free at the start of the run and is in use right after. */
  lemma PageWasFree(b: Bytes, ops: seq<Op>, i: nat)
    requires IsBitmap(b) && StaysInside(b, ops) && i < |ops| && Result(b, ops, i).Some?
    ensures var p := Result(b, ops, i).value;
            && p < MAX_PAGES && !Used(b, p)
            && StaysInside(b, ops[..i + 1]) && |After(b, ops[..i + 1])| == MAX_PAGES
            && Used(After(b, ops[..i + 1]), p) && !Passes(After(b, ops[..i + 1]), p)
  {
    PrefixStaysInside(b, ops, i);
    PrefixStaysInside(b, ops, i + 1);
    RunGrows(b, ops, 0, i);
    assert ops[..0] == [] && ops[..i + 1][..i] == ops[..i];
    TakeMeaning(After(b, ops[..i]), First(ops[i]));
  }

  /** In any interleaving of the allocators, with nothing freed: a page handed out was free at
      the start and is never handed out again, and `kmalloc_mem` pages strictly increase. */
  lemma NoDoubleAllocation(b: Bytes, ops: seq<Op>, i: nat, j: nat)
    requires IsBitmap(b) && StaysInside(b, ops) && i < j < |ops|
    requires Result(b, ops, i).Some? && Result(b, ops, j).Some?
    ensures var p, q := Result(b, ops, i).value, Result(b, ops, j).value;
            && p < MAX_PAGES && q < MAX_PAGES && p != q
            && !Used(b, p) && !Used(b, q)
            && (ops[i] == ops[j] ==> p < q)
  {
    PageWasFree(b, ops, i);
    PageWasFree(b, ops, j);
    PagesDiffer(b, ops, i, j);
    if ops[i] == ops[j] {
      PagesIncrease(b, ops, i, j);
    }
  }

  lemma PagesDiffer(b: Bytes, ops: seq<Op>, i: nat, j: nat)
    requires IsBitmap(b) && StaysInside(b, ops) && i < j < |ops|
    requires Result(b, ops, i).Some? && Result(b, ops, j).Some?
    ensures Result(b, ops, i) != Result(b, ops, j)
  {
    PageWasFree(b, ops, i);
    RunGrows(b, ops, i + 1, j);
    PrefixStaysInside(b, ops, j);
    TakeMeaning(After(b, ops[..j]), First(ops[j]));
  }

  lemma PagesIncrease(b: Bytes, ops: seq<Op>, i: nat, j: nat)
    requires IsBitmap(b) && StaysInside(b, ops) && i < j < |ops| && ops[i] == ops[j]
    requires Result(b, ops, i).Some? && Result(b, ops, j).Some?
    ensures Result(b, ops, i).value < Result(b, ops, j).value
  {
    PageWasFree(b, ops, i);
    RunGrows(b, ops, i, j);
    RunGrows(b, ops, i + 1, j);
    PrefixStaysInside(b, ops, i);
    PrefixStaysInside(b, ops, j);
    PickGrows(After(b, ops[..i]), After(b, ops[..j]), First(ops[i]));
  }

  // ----- The pages future kmalloc_mem calls return -----

  /** Some byte that no page below MAX_PAGES lives in is not full: pre-scans always stop. */
  predicate HighByte(b: Bytes) {
    exists i: nat :: 1024 <= i < |b| && b[i] != FULL
  }

  function FreeSet(b: Bytes): set<nat>
    requires |b| == MAX_PAGES
  {
    set p: nat | p < MAX_PAGES && !Used(b, p)
  }

  lemma TakeKeepsHighByte(b: Bytes, first: nat)
    requires IsBitmap(b) && HighByte(b) && first <= 1024
    ensures Stops(b, first)
    ensures IsBitmap(Take(b, first)) && HighByte(Take(b, first))
    ensures Pick(b, first).Some? ==> FreeSet(Take(b, first)) == FreeSet(b) - {Pick(b, first).value}
    ensures Pick(b, first).Some? ==> Pick(b, first).value in FreeSet(b)
  {
    var i: nat :| 1024 <= i < |b| && b[i] != FULL;
    TakeMeaning(b, first);
    assert Take(b, first)[i] != FULL;
  }

  lemma AlwaysStops(b: Bytes)
    requires IsBitmap(b) && HighByte(b)
    ensures Stops(b, 0) && Stops(b, 528)
  {
  }

  /** With HighByte, every interleaving stays inside the bitmap. */
  lemma {:induction false} AlwaysInside(b: Bytes, ops: seq<Op>)
    requires IsBitmap(b) && HighByte(b)
    ensures StaysInside(b, ops) && IsBitmap(After(b, ops)) && HighByte(After(b, ops))
    decreases |ops|
  {
    if ops != [] {
      var init := ops[..|ops| - 1];
      AlwaysInside(b, init);
      TakeKeepsHighByte(After(b, init), First(ops[|ops| - 1]));
    }
  }

  /** The pages that the coming `kmalloc_mem` calls return, in order, until NULL. */
  ghost function Supply(b: Bytes): seq<nat>
    requires IsBitmap(b) && HighByte(b)
    decreases FreeSet(b)
  {
    TakeKeepsHighByte(b, KERNEL_FIRST);
    match Pick(b, KERNEL_FIRST)
    case None => []
    case Some(p) => [p] + Supply(Take(b, KERNEL_FIRST))
  }

  /** The first page of the supply, and what is known of the others. */
  lemma SupplyStep(b: Bytes)
    requires IsBitmap(b) && HighByte(b)
    ensures Stops(b, KERNEL_FIRST) && (Pick(b, KERNEL_FIRST) == None ==> Supply(b) == [])
    ensures Pick(b, KERNEL_FIRST).Some? ==>
              var p, b' := Pick(b, KERNEL_FIRST).value, Take(b, KERNEL_FIRST);
              && IsBitmap(b') && HighByte(b') && Supply(b') == Supply(b)[1..] && |Supply(b)| > 0 && Supply(b)[0] == p
              && KERNEL_FIRST <= p < MAX_PAGES && !Used(b, p)
              && (forall q: nat | q < MAX_PAGES && !Used(b', q) :: !Used(b, q))
              && FreeSet(b') < FreeSet(b)
  {
    TakeKeepsHighByte(b, KERNEL_FIRST);
    TakeMeaning(b, KERNEL_FIRST);
    hide Used, PreScan, Passes, Fuller;
  }

  lemma SecondIsLater(b: Bytes)
    requires IsBitmap(b) && HighByte(b) && |Supply(b)| > 1
    ensures Supply(b)[0] < Supply(b)[1]
  {
    hide Used, Passes, PreScan, Supply, FreeSet, Scan, Mark, Fuller, Pick, Take, Stops, HighByte, IsBitmap;
    SupplyStep(b);
    TakeMeaning(b, KERNEL_FIRST);
    var b' := Take(b, KERNEL_FIRST);
    SupplyStep(b');
    PickGrows(b, b', KERNEL_FIRST);
  }

  lemma {:induction false} SupplyIncreases(b: Bytes)
    requires IsBitmap(b) && HighByte(b)
    ensures forall i | 0 <= i < |Supply(b)| :: 528 <= Supply(b)[i] < 8192 && !Used(b, Supply(b)[i])
    ensures forall i, j | 0 <= i < j < |Supply(b)| :: Supply(b)[i] < Supply(b)[j]
    decreases FreeSet(b)
  {
    hide Used, Passes, PreScan, Supply, FreeSet, Scan, Mark, Pick, Take, Stops, HighByte, IsBitmap;
    SupplyStep(b);
    if Pick(b, KERNEL_FIRST).Some? {
      var all, tail := Supply(b), Supply(b)[1..];
      SupplyIncreases(Take(b, KERNEL_FIRST));
      assert forall i | 0 < i < |all| :: all[i] == tail[i - 1];
      if |all| > 1 { SecondIsLater(b); }
    }
  }

  lemma {:induction false} IncreasingIsShort(s: seq<nat>, bound: nat)
    requires forall i | 0 <= i < |s| :: s[i] < bound
    requires forall i, j | 0 <= i < j < |s| :: s[i] < s[j]
    ensures |s| <= bound
    decreases |s|
  {
    if s != [] { IncreasingIsShort(s[..|s| - 1], s[|s| - 1]); }
  }

  /** Pages from n on are free, and pages before n that `kmalloc_mem` looks at are in use. */
  ghost predicate Contiguous(b: Bytes, n: nat)
    requires |b| == MAX_PAGES
  {
    && KERNEL_FIRST <= n <= MAX_PAGES
    && (forall p: nat | KERNEL_FIRST <= p < n :: Used(b, p))
    && (forall p: nat | n <= p < MAX_PAGES :: !Used(b, p))
  }

  lemma ContiguousPick(b: Bytes, n: nat)
    requires IsBitmap(b) && HighByte(b) && Contiguous(b, n)
    ensures Stops(b, KERNEL_FIRST)
    ensures Pick(b, KERNEL_FIRST) == if n < MAX_PAGES then Some(n) else None
    ensures n < MAX_PAGES ==> Contiguous(Take(b, KERNEL_FIRST), n + 1)
  {
    TakeKeepsHighByte(b, KERNEL_FIRST);
    TakeMeaning(b, KERNEL_FIRST);
    ContiguousTest(b, n);
    if n < MAX_PAGES { PreScanBefore(b, n); }
    hide Used, Passes, Fuller, Mark, HighByte, IsBitmap;
    FirstPassing(b, PreScan(b, KERNEL_FIRST), n);
  }

  /** Of the pages that are searched, page n is the first to pass the test. */
  lemma ContiguousTest(b: Bytes, n: nat)
    requires IsBitmap(b) && Contiguous(b, n)
    ensures forall p: nat | KERNEL_FIRST <= p < n :: !Passes(b, p)
    ensures n < MAX_PAGES ==> Passes(b, n)
  {
    hide Used, Passes;
    forall p: nat | KERNEL_FIRST <= p < n ensures !Passes(b, p) {
      PassesMeaning(b, p);
      assert Used(b, p);
    }
    if n < MAX_PAGES { PassesMeaning(b, n); }
  }

  lemma FirstPassing(b: Bytes, from: nat, n: nat)
    requires |b| == MAX_PAGES && KERNEL_FIRST <= from && n <= MAX_PAGES && (n < MAX_PAGES ==> from <= n && Passes(b, n))
    requires forall p: nat | KERNEL_FIRST <= p < n :: !Passes(b, p)
    ensures Scan(b, from) == if n < MAX_PAGES then Some(n) else None
  {
    hide Passes;
  }

  /** The byte index where the pre-scan stops, read as a page number, never passes page n. */
  lemma PreScanBefore(b: Bytes, n: nat)
    requires IsBitmap(b) && Stops(b, KERNEL_FIRST) && Contiguous(b, n) && n < MAX_PAGES
    ensures PreScan(b, KERNEL_FIRST) <= n
  {
    var i := if n / 8 < KERNEL_FIRST then KERNEL_FIRST else n / 8;
    var p := if n / 8 < KERNEL_FIRST then 8 * KERNEL_FIRST else n;
    assert p / 8 == i && !Used(b, p);
    assert b[i] != FULL by {
      if b[i] == FULL {
        Pow2Values();
        BitOfOnes(8, p % 8);
      }
    }
  }

  /** Exact allocator trace: the i-th `kmalloc_mem` from a contiguous state returns page n + i,
      until page 8191 has been handed out and the next call returns NULL. */
  lemma {:induction false} ExactTrace(b: Bytes, n: nat)
    requires IsBitmap(b) && HighByte(b) && Contiguous(b, n)
    ensures |Supply(b)| == MAX_PAGES - n
    ensures forall i | 0 <= i < |Supply(b)| :: Supply(b)[i] == n + i
    decreases MAX_PAGES - n
  {
    ContiguousPick(b, n);
    TakeKeepsHighByte(b, KERNEL_FIRST);
    if n < MAX_PAGES {
      ExactTrace(Take(b, KERNEL_FIRST), n + 1);
    }
  }

  // ----- What `malloc_mem` leaves of the supply -----

  /** Page p lies before the place where the pre-scan of `kmalloc_mem` stops, and in a byte before
      those that the pre-scan looks at. */
  predicate Behind(b: Bytes, p: nat)
    requires Stops(b, KERNEL_FIRST)
  {
    p / 8 < KERNEL_FIRST && p < PreScan(b, KERNEL_FIRST)
  }

  /** A page that `malloc_mem` takes and `kmalloc_mem` would not have taken next lies behind it. */
  lemma MallocIsBehind(b: Bytes)
    requires IsBitmap(b) && Stops(b, KERNEL_FIRST) && Stops(b, 0)
    requires Pick(b, 0).Some? && Pick(b, 0) != Pick(b, KERNEL_FIRST)
    ensures Behind(b, Pick(b, 0).value)
  {
    var p := Pick(b, 0).value;
    SameScan(b, PreScan(b, 0), PreScan(b, KERNEL_FIRST));
    hide Passes, Scan;
    if p / 8 >= KERNEL_FIRST { FullFails(b, p); }
  }

  /** A search that starts later finds the same page, or the page lies before its start. */
  lemma SameScan(b: Bytes, from: nat, later: nat)
    requires |b| == MAX_PAGES && from <= later && Scan(b, from).Some?
    ensures Scan(b, from).value < later || Scan(b, later) == Scan(b, from)
  {
    hide Passes;
  }

  lemma FullFails(b: Bytes, p: nat)
    requires IsBitmap(b) && p / 8 < MAX_PAGES && b[p / 8] == FULL
    ensures !Passes(b, p)
  {
    PassesMeaning(b, p);
    Pow2Values();
    BitOfOnes(8, p % 8);
    hide Passes;
    assert Used(b, p);
  }

  /** Marking such a page does not change what `kmalloc_mem` takes next. */
  lemma PickBehind(b: Bytes, p: nat)
    requires IsBitmap(b) && HighByte(b) && Stops(b, KERNEL_FIRST) && Behind(b, p)
    ensures var b' := Mark(b, p);
            && IsBitmap(b') && HighByte(b') && Stops(b', KERNEL_FIRST)
            && PreScan(b', KERNEL_FIRST) == PreScan(b, KERNEL_FIRST)
            && Pick(b', KERNEL_FIRST) == Pick(b, KERNEL_FIRST)
  {
    var b', stop := Mark(b, p), PreScan(b, KERNEL_FIRST);
    MarkMeaning(b, p);
    assert forall i | KERNEL_FIRST <= i < MAX_PAGES :: b'[i] == b[i];
    hide Mark;
    forall r: nat | stop <= r < MAX_PAGES ensures Passes(b', r) <==> Passes(b, r) {
      PassesMeaning(b, r);
      PassesMeaning(b', r);
    }
  }

  /** Nor does it change what later calls take. */
  lemma {:induction false} SupplyBehind(b: Bytes, p: nat)
    requires IsBitmap(b) && HighByte(b) && Stops(b, KERNEL_FIRST) && Behind(b, p)
    ensures IsBitmap(Mark(b, p)) && HighByte(Mark(b, p)) && Supply(Mark(b, p)) == Supply(b)
    decreases FreeSet(b)
  {
    PickBehind(b, p);
    if Pick(b, KERNEL_FIRST).Some? {
      var q := Pick(b, KERNEL_FIRST).value;
      SupplyStep(b);
      SupplyStep(Mark(b, p));
      var c := Take(b, KERNEL_FIRST);
      TakeKeepsHighByte(c, KERNEL_FIRST);
      TakeMeaning(b, KERNEL_FIRST);
      assert PreScan(b, KERNEL_FIRST) <= PreScan(c, KERNEL_FIRST);
      MarksCommute(b, p, q);
      SupplyBehind(c, p);
    }
  }

  lemma MarksCommute(b: Bytes, p: nat, q: nat)
    requires IsBitmap(b) && p / 8 < MAX_PAGES && q / 8 < MAX_PAGES
    ensures Mark(Mark(b, p), q) == Mark(Mark(b, q), p)
  {
    MarkMeaning(b, p);
    MarkMeaning(b, q);
    MarkMeaning(Mark(b, p), q);
    MarkMeaning(Mark(b, q), p);
    hide Mark, Used;
    SamePagesSameBytes(Mark(Mark(b, p), q), Mark(Mark(b, q), p));
  }

  /** One call of `malloc_mem`: the page it takes, and whether `kmalloc_mem` would have taken it next. */
  ghost predicate MallocStep(b: Bytes, b': Bytes, page: Option<nat>, shared: bool) {
    && Stops(b, 0) && Stops(b, 528) && b' == Take(b, 0) && page == Pick(b, 0)
    && (shared <==> page.Some? && page == Pick(b, 528))
  }

  lemma StepOf(b: Bytes, page: Option<nat>, shared: bool)
    requires Stops(b, 0) && Stops(b, 528) && page == Pick(b, 0) && (shared <==> page.Some? && page == Pick(b, 528))
    ensures MallocStep(b, Take(b, 0), page, shared)
  {
  }

  /** A call of `malloc_mem` takes the page that `kmalloc_mem` would have taken next, or a page that it
      never takes: the supply loses its first page or stays as it is. */
  lemma MallocSupply(b: Bytes)
    requires IsBitmap(b) && HighByte(b)
    ensures Stops(b, 0) && Stops(b, KERNEL_FIRST)
    ensures var b', p := Take(b, 0), Pick(b, 0);
            && IsBitmap(b') && HighByte(b')
            && (p.Some? && p == Pick(b, KERNEL_FIRST) ==>
                  Supply(b) != [] && p == Some(Supply(b)[0]) && Supply(b') == Supply(b)[1..])
            && (p == None || p != Pick(b, KERNEL_FIRST) ==> Supply(b') == Supply(b))
            && (p.Some? ==> p.value < MAX_PAGES && !Used(b, p.value)
                            && forall i | 0 <= i < |Supply(b')| :: Supply(b')[i] != p.value)
            && (forall q: nat | q / 8 < MAX_PAGES :: Used(b', q) <==> Some(q) == p || Used(b, q))
  {
    TakeKeepsHighByte(b, 0);
    TakeKeepsHighByte(b, KERNEL_FIRST);
    TakeMeaning(b, 0);
    SupplyStep(b);
    var b', p := Take(b, 0), Pick(b, 0);
    if p.Some? {
      if p != Pick(b, KERNEL_FIRST) {
        MallocIsBehind(b);
        SupplyBehind(b, p.value);
      }
      SupplyIncreases(b');
    }
  }

  // ----- The bitmap after a number of `kmalloc_mem` calls -----

  ghost function TakenTimes(b: Bytes, n: nat): (r: Bytes)
    requires IsBitmap(b) && HighByte(b)
    ensures IsBitmap(r) && HighByte(r)
  {
    if n == 0 then b
    else
      var c := TakenTimes(b, n - 1);
      TakeKeepsHighByte(c, KERNEL_FIRST);
      Take(c, KERNEL_FIRST)
  }

  lemma {:induction false} TakenSupply(b: Bytes, n: nat)
    requires IsBitmap(b) && HighByte(b) && n <= |Supply(b)|
    ensures Supply(TakenTimes(b, n)) == Supply(b)[n..]
  {
    hide Supply, HighByte, IsBitmap;
    if n > 0 {
      TakenSupply(b, n - 1);
      SupplyStep(TakenTimes(b, n - 1));
    }
  }

  lemma {:induction false} TakenInTwo(b: Bytes, n: nat, m: nat)
    requires IsBitmap(b) && HighByte(b)
    ensures TakenTimes(TakenTimes(b, n), m) == TakenTimes(b, n + m)
    decreases m
  {
    hide HighByte, IsBitmap, TakenTimes, Take, Stops;
    if m == 0 {
      TakenNone(TakenTimes(b, n));
    } else {
      TakenInTwo(b, n, m - 1);
      TakenStep(TakenTimes(b, n), m);
      TakenStep(b, n + m);
    }
  }

  lemma TakenNone(b: Bytes)
    requires IsBitmap(b) && HighByte(b)
    ensures TakenTimes(b, 0) == b
  {
  }

  lemma TakenStep(b: Bytes, n: nat)
    requires IsBitmap(b) && HighByte(b) && n > 0
    ensures Stops(TakenTimes(b, n - 1), KERNEL_FIRST)
    ensures TakenTimes(b, n) == Take(TakenTimes(b, n - 1), KERNEL_FIRST)
  {
    hide Stops, Take;
    TakeKeepsHighByte(TakenTimes(b, n - 1), KERNEL_FIRST);
  }

  /** Bitmap b' is b after some calls of `kmalloc_mem`, each of which found a page. */
  ghost predicate Drawn(b: Bytes, b': Bytes) {
    && IsBitmap(b) && HighByte(b) && IsBitmap(b') && HighByte(b') && |Supply(b')| <= |Supply(b)|
    && b' == TakenTimes(b, |Supply(b)| - |Supply(b')|)
  }

  lemma DrawnNone(b: Bytes)
    requires IsBitmap(b) && HighByte(b)
    ensures Drawn(b, b)
  {
  }

  lemma DrawnOne(b: Bytes)
    requires IsBitmap(b) && HighByte(b) && Supply(b) != []
    ensures Stops(b, KERNEL_FIRST) && Drawn(b, Take(b, KERNEL_FIRST))
  {
    hide Supply, HighByte, IsBitmap, Take;
    SupplyStep(b);
    assert TakenTimes(b, 0) == b;
    assert TakenTimes(b, 1) == Take(b, KERNEL_FIRST);
  }

  lemma DrawnMore(a: Bytes, b: Bytes, c: Bytes)
    requires Drawn(a, b) && Drawn(b, c)
    ensures Drawn(a, c)
  {
    hide Supply, HighByte, IsBitmap;
    TakenInTwo(a, |Supply(a)| - |Supply(b)|, |Supply(b)| - |Supply(c)|);
  }
}
