/** The free-page bitmap of sys/pmap.c: one bit a page, set when the page is in use. */
module FrameBitmap {
  import opened Bits
  import opened Options

  const MAX_PAGES: nat := 8192
  const FULL: nat := 255

  /** The bytes of the bitmap. Bits of MAX_PAGES bytes exist, though only pages
      below MAX_PAGES are ever handed out. */
  type Bytes = seq<nat>

  predicate IsBitmap(b: Bytes) {
    |b| == MAX_PAGES && forall i | 0 <= i < |b| :: b[i] < 256
  }

  predicate Used(b: Bytes, p: nat)
    requires p / 8 < |b|
  {
    Bit(b[p / 8], p % 8)
  }

  /** The allocators' test `!(byte >> (page % 8)) & 0x01`: `!` binds tighter than `&`. */
  predicate Passes(b: Bytes, p: nat)
    requires p / 8 < |b|
  {
    Shr(b[p / 8], p % 8) == 0
  }

  function Mark(b: Bytes, p: nat): Bytes
    requires p / 8 < |b|
  {
    b[p / 8 := Or(b[p / 8], Shl(1, p % 8)) % 256]
  }

  function Clear(b: Bytes, p: nat): Bytes
    requires p / 8 < |b|
  {
    OneShifted(p % 8);
    b[p / 8 := And(b[p / 8], 0xFFFF_FFFF - Shl(1, p % 8)) % 256]
  }

  lemma OneShifted(k: nat)
    requires k < 8
    ensures Shl(1, k) == Pow2(k) < 256
  {
    Pow2Values();
    Pow2Increases(k, 8);
  }

  lemma MarkByte(x: nat, k: nat)
    requires x < 256 && k < 8
    ensures var y := Or(x, Shl(1, k)) % 256;
            && y < 256 && x <= y
            && (forall j | 0 <= j < 8 :: Bit(y, j) <==> j == k || Bit(x, j))
  {
    OneShifted(k);
    OrInByte(x, Pow2(k));
    forall j | 0 <= j < 8 ensures Bit(Or(x, Pow2(k)), j) <==> j == k || Bit(x, j) {
      BitOfOr(x, Pow2(k), j);
      BitOfPow2(k, j);
    }
  }

  lemma OrInByte(x: nat, y: nat)
    requires x < 256 && y < 256
    ensures x <= Or(x, y) < 256
  {
    Pow2Values();
    OrStaysBelow(x, y, 8);
    OrGrows(x, y);
  }

  lemma ClearByte(x: nat, k: nat)
    requires x < 256 && k < 8
    ensures 0xFFFF_FFFF >= Shl(1, k)
    ensures var y := And(x, 0xFFFF_FFFF - Shl(1, k)) % 256;
            && y < 256
            && (forall j | 0 <= j < 8 :: Bit(y, j) <==> j != k && Bit(x, j))
  {
    hide And, Bit, Shl, Pow2;
    OneShifted(k);
    ClearedBits(x, k, 0xFFFF_FFFF - Shl(1, k));
  }

  lemma ClearedBits(x: nat, k: nat, m: nat)
    requires x < 256 && k < 8 && m == 0xFFFF_FFFF - Pow2(k)
    ensures And(x, m) <= x && forall j | 0 <= j < 8 :: Bit(And(x, m), j) <==> j != k && Bit(x, j)
  {
    AndStaysBelow(x, m);
    assert Pow2(32) == 0x1_0000_0000 by { Pow2Values(); }
    hide And, Bit, Pow2;
    forall j | 0 <= j < 8 ensures Bit(And(x, m), j) <==> j != k && Bit(x, j) {
      BitOfAnd(x, m, j);
      BitOfHole(32, k, j);
    }
  }

  lemma MarkMeaning(b: Bytes, p: nat)
    requires IsBitmap(b) && p / 8 < |b|
    ensures var b' := Mark(b, p);
            && IsBitmap(b')
            && (forall q: nat | q / 8 < |b| :: Used(b', q) <==> q == p || Used(b, q))
            && (forall i | 0 <= i < |b| :: b[i] <= b'[i])
  {
    MarkByte(b[p / 8], p % 8);
  }

  lemma ClearMeaning(b: Bytes, p: nat)
    requires IsBitmap(b) && p / 8 < |b|
    ensures var b' := Clear(b, p);
            && IsBitmap(b')
            && (forall q: nat | q / 8 < |b| :: Used(b', q) <==> q != p && Used(b, q))
  {
    ClearByte(b[p / 8], p % 8);
  }

  /** The test passes exactly when the page and all later pages of its byte are free. */
  lemma PassesMeaning(b: Bytes, p: nat)
    requires IsBitmap(b) && p / 8 < |b|
    ensures Passes(b, p) <==> forall q: nat | p <= q && q / 8 == p / 8 :: !Used(b, q)
  {
    var x, k := b[p / 8], p % 8;
    ShiftedOut(x, k);
    if Passes(b, p) {
      forall q: nat | p <= q && q / 8 == p / 8 ensures !Used(b, q) {
        assert !Bit(x, q % 8);
      }
    } else if forall q: nat | p <= q && q / 8 == p / 8 :: !Used(b, q) {
      forall j | k <= j < 8 ensures !Bit(x, j) {
        assert !Used(b, p / 8 * 8 + j);
      }
    }
  }

  /** A byte shifted right by k is zero exactly when its bits k .. 7 are clear. */
  lemma ShiftedOut(x: nat, k: nat)
    requires x < 256 && k < 8
    ensures Shr(x, k) == 0 ==> forall j | k <= j < 8 :: !Bit(x, j)
    ensures (forall j | k <= j < 8 :: !Bit(x, j)) ==> Shr(x, k) == 0
  {
    Pow2Values();
    assert Shr(x, k) == 0 <==> x < Pow2(k) by {
      ShrIsDiv(x, k);
      ZeroQuotient(x, Pow2(k));
    }
    if x < Pow2(k) {
      forall j | k <= j < 8 ensures !Bit(x, j) { SetBelow(x, k, j); }
    }
    if forall j | k <= j < 8 :: !Bit(x, j) {
      ClearAbove(x, k, 8);
    }
  }

  lemma ZeroQuotient(x: nat, m: nat)
    requires m > 0
    ensures x / m == 0 <==> x < m
  {
    assert x == m * (x / m) + x % m;
    if x < m { DivModUnique(x, m, 0, x); }
  }

  /** A bitmap is determined by which pages are in use. */
  lemma SamePagesSameBytes(a: Bytes, b: Bytes)
    requires IsBitmap(a) && IsBitmap(b)
    requires forall q: nat | q < 8 * MAX_PAGES :: Used(a, q) <==> Used(b, q)
    ensures a == b
  {
    forall i | 0 <= i < MAX_PAGES ensures a[i] == b[i] {
      Pow2Values();
      forall k | 0 <= k < 8 ensures Bit(a[i], k) == Bit(b[i], k) {
        assert Used(a, 8 * i + k) <==> Used(b, 8 * i + k);
      }
      SameBits(a[i], b[i], 8);
    }
  }

  // ----- The two searches -----

  /** The pre-scan takes page numbers for byte indices: it stops at the first byte,
      at or after `from`, that is not full. */
  function PreScan(b: Bytes, from: nat): (r: nat)
    requires exists i: nat :: from <= i < |b| && b[i] != FULL
    ensures from <= r < |b| && b[r] != FULL
    ensures forall i | from <= i < r :: b[i] == FULL
    decreases |b| - from
  {
    if b[from] != FULL then from else PreScan(b, from + 1)
  }

  function Scan(b: Bytes, from: nat): (r: Option<nat>)
    requires |b| == MAX_PAGES
    ensures r.Some? ==> from <= r.value < MAX_PAGES && Passes(b, r.value)
    ensures forall p: nat | from <= p < (if r.Some? then r.value else MAX_PAGES) :: !Passes(b, p)
    decreases MAX_PAGES - from
  {
    if from >= MAX_PAGES then None
    else if Passes(b, from) then Some(from)
    else Scan(b, from + 1)
  }

  /** The pre-scan stays inside the bitmap. */
  predicate Stops(b: Bytes, first: nat) {
    |b| == MAX_PAGES && exists i: nat :: first <= i < |b| && b[i] != FULL
  }

  function Pick(b: Bytes, first: nat): Option<nat>
    requires Stops(b, first)
  {
    Scan(b, PreScan(b, first))
  }

  /** Page p and all later pages of its byte are free. */
  ghost predicate FreeToByteEnd(b: Bytes, p: nat)
    requires p / 8 < |b|
  {
    forall q: nat | p <= q && q / 8 == p / 8 :: !Used(b, q)
  }

  /** r is the first page that is free to the end of its byte, at or after the number of the first byte
      from `first` on that is not 255, and below 8192; or there is none. */
  ghost predicate FirstFit(b: Bytes, first: nat, r: Option<nat>)
    requires |b| == 8192
  {
    exists stop: nat ::
      && first <= stop < 8192 && b[stop] != 255 && (forall i | first <= i < stop :: b[i] == 255)
      && (r.Some? ==> stop <= r.value < 8192 && FreeToByteEnd(b, r.value))
      && (forall q: nat | stop <= q < (if r.Some? then r.value else 8192) :: !FreeToByteEnd(b, q))
  }

  /** What the search finds, without naming it. */
  lemma PickMeaning(b: Bytes, first: nat)
    requires IsBitmap(b) && Stops(b, first)
    ensures FirstFit(b, first, Pick(b, first))
  {
    var stop := PreScan(b, first);
    forall q: nat | q < MAX_PAGES ensures Passes(b, q) <==> FreeToByteEnd(b, q) {
      PassesMeaning(b, q);
    }
    hide Passes, FreeToByteEnd;
    assert first <= stop < 8192 && b[stop] != 255;
  }

  function Take(b: Bytes, first: nat): Bytes
    requires Stops(b, first)
  {
    match Pick(b, first)
    case None => b
    case Some(p) => Mark(b, p)
  }

  /** b' has at least the full bytes of b, and passes the test at no further page. */
  ghost predicate Fuller(b: Bytes, b': Bytes) {
    && |b| == |b'| == MAX_PAGES
    && (forall i | 0 <= i < |b| :: b[i] == FULL ==> b'[i] == FULL)
    && (forall p: nat | p < MAX_PAGES :: Passes(b', p) ==> Passes(b, p))
  }

  lemma TakeMeaning(b: Bytes, first: nat)
    requires IsBitmap(b) && Stops(b, first)
    ensures var b' := Take(b, first);
            && IsBitmap(b') && Fuller(b, b')
            && (forall i | 1024 <= i < MAX_PAGES :: b'[i] == b[i])
            && (Pick(b, first).Some? ==> !Used(b, Pick(b, first).value) && !Passes(b', Pick(b, first).value))
            && (forall q: nat | q / 8 < |b| :: Used(b', q) <==> Some(q) == Pick(b, first) || Used(b, q))
  {
    var b' := Take(b, first);
    if Pick(b, first).Some? {
      var p := Pick(b, first).value;
      MarkMeaning(b, p);
      PassesMeaning(b, p);
      PassesMeaning(b', p);
      assert Used(b', p);
      forall q: nat | q < MAX_PAGES ensures Passes(b', q) ==> Passes(b, q) {
        PassesMeaning(b, q);
        PassesMeaning(b', q);
      }
    }
  }

  /** Once page p was picked from `first`, no later search from there finds p or a page before it. */
  lemma PickGrows(b: Bytes, b': Bytes, first: nat)
    requires Stops(b, first) && Stops(b', first) && Fuller(b, b')
    requires Pick(b, first).Some? && !Passes(b', Pick(b, first).value)
    ensures Pick(b', first).Some? ==> Pick(b', first).value > Pick(b, first).value
  {
    var r, r' := PreScan(b, first), PreScan(b', first);
    assert r <= r';
  }
}
