/** include/linux/list.h: circular doubly linked lists. */
module Rings {
  import opened Sequences

  class ListHead {
    var next: ListHead?
    var prev: ListHead?

    constructor ()
      ensures Ring([this])
    {
      next := this;
      prev := this;
    }
  }

  /** a and b are neighbours: the next of a is b, and the prev of b is a. */
  ghost predicate Link(a: ListHead, b: ListHead)
    reads a, b
  {
    a.next == b && b.prev == a
  }

  /** The nodes of s, in this order, form one ring: the head, then the entries. */
  ghost predicate Ring(s: seq<ListHead>)
    reads s
  {
    && |s| > 0 && Distinct(s)
    && (forall i | 0 <= i < |s| - 1 :: Link(s[i], s[i + 1]))
    && Link(s[|s| - 1], s[0])
  }

  /** `INIT_LIST_HEAD` */
  method InitListHead(list: ListHead)
    modifies list
    ensures Ring([list])
  {
    list.next := list;
    list.prev := list;
  }

  /** `__list_add`: between s[k] and its successor. */
  method ListAddBetween(entry: ListHead, prev: ListHead, next: ListHead, ghost s: seq<ListHead>, ghost k: nat)
    requires Ring(s) && entry !in s && k < |s| && prev == s[k] && next == prev.next
    modifies entry, prev, next
    ensures Ring(Insert(s, k + 1, entry))
  {
    ghost var t := Insert(s, k + 1, entry);
    InsertMeaning(s, k + 1, entry);
    assert k < |s| - 1 ==> Link(s[k], s[k + 1]);
    next.prev := entry;
    entry.next := next;
    entry.prev := prev;
    prev.next := entry;
    hide Insert;
    forall i | 0 <= i < |t| - 1 ensures Link(t[i], t[i + 1]) {
      if i < k {
        assert old(Link(s[i], s[i + 1]));
      } else if i > k + 1 {
        assert old(Link(s[i - 1], s[i - 1 + 1]));
      }
    }
  }

  /** `list_add`: right after the head. */
  method ListAdd(entry: ListHead, head: ListHead, ghost s: seq<ListHead>)
    requires Ring(s) && entry !in s && head == s[0]
    modifies entry, head, head.next
    ensures Ring([head, entry] + s[1..])
  {
    assert |s| > 1 ==> Link(s[0], s[0 + 1]);
    ListAddBetween(entry, head, head.next, s, 0);
    assert Insert(s, 1, entry) == [head, entry] + s[1..];
  }

  /** `list_add_tail`: right before the head. */
  method ListAddTail(entry: ListHead, head: ListHead, ghost s: seq<ListHead>)
    requires Ring(s) && entry !in s && head == s[0]
    modifies entry, head, head.prev
    ensures Ring(s + [entry])
  {
    ListAddBetween(entry, head.prev, head, s, |s| - 1);
    assert Insert(s, |s|, entry) == s + [entry];
  }

  /** The neighbours of a ring's node are in the ring. */
  lemma Neighbours(s: seq<ListHead>, k: nat)
    requires Ring(s) && k < |s|
    ensures s[k].next == (if k == |s| - 1 then s[0] else s[k + 1])
    ensures s[k].prev == (if k == 0 then s[|s| - 1] else s[k - 1])
    ensures s[k].next in s && s[k].prev in s
  {
    assert k < |s| - 1 ==> Link(s[k], s[k + 1]);
    assert k > 0 ==> Link(s[k - 1], s[k - 1 + 1]);
  }

  /** The ring that is left when its k-th node is unlinked: a node alone in its ring stays as it is. */
  function Unlinked<T>(s: seq<T>, k: nat): seq<T>
    requires k < |s|
  {
    if |s| == 1 then s else Remove(s, k)
  }

  /** `__list_del_entry` */
  method ListDelEntry(entry: ListHead, ghost s: seq<ListHead>, ghost k: nat)
    requires Ring(s) && k < |s| && entry == s[k]
    modifies entry.prev, entry.next
    ensures Ring(Unlinked(s, k))
  {
    ghost var t := Remove(s, k);
    RemoveMeaning(s, k);
    assert k > 0 ==> Link(s[k - 1], s[k - 1 + 1]);
    assert k < |s| - 1 ==> Link(s[k], s[k + 1]);
    var prev, next := entry.prev, entry.next;
    next.prev := prev;
    prev.next := next;
    hide Remove;
    forall i | 0 <= i < |t| - 1 ensures Link(t[i], t[i + 1]) {
      if i < k - 1 {
        assert old(Link(s[i], s[i + 1]));
      } else if i >= k {
        assert old(Link(s[i + 1], s[i + 1 + 1]));
      }
    }
  }

  /** `list_del`; the poison values are written as null. */
  method ListDel(entry: ListHead, ghost s: seq<ListHead>, ghost k: nat)
    requires Ring(s) && k < |s| && entry == s[k]
    modifies entry, entry.prev, entry.next
    ensures |s| > 1 ==> Ring(Remove(s, k))
    ensures entry !in Remove(s, k) && entry.next == null && entry.prev == null
  {
    hide Remove, Distinct;
    RemoveMeaning(s, k);
    Neighbours(s, k);
    ListDelEntry(entry, s, k);
    hide Unlinked;
    entry.next := null;
    entry.prev := null;
  }

  /** `list_del_init` */
  method ListDelInit(entry: ListHead, ghost s: seq<ListHead>, ghost k: nat)
    requires Ring(s) && k < |s| && entry == s[k]
    modifies entry, entry.prev, entry.next
    ensures |s| > 1 ==> Ring(Remove(s, k))
    ensures entry !in Remove(s, k) && Ring([entry])
  {
    RemoveMeaning(s, k);
    Neighbours(s, k);
    ListDelEntry(entry, s, k);
    hide Remove;
    InitListHead(entry);
  }

  /** `list_replace`, also when `old` is an empty head. */
  method ListReplace(old_: ListHead, new_: ListHead, ghost s: seq<ListHead>, ghost k: nat)
    requires Ring(s) && k < |s| && old_ == s[k] && new_ !in s
    modifies new_, old_.next, old_.prev
    ensures Ring(s[k := new_])
  {
    ghost var t := s[k := new_];
    assert k > 0 ==> Link(s[k - 1], s[k - 1 + 1]);
    assert k < |s| - 1 ==> Link(s[k], s[k + 1]);
    new_.next := old_.next;
    new_.next.prev := new_;
    new_.prev := old_.prev;
    new_.prev.next := new_;
    forall i | 0 <= i < |t| - 1 ensures Link(t[i], t[i + 1]) {
      assert old(Link(s[i], s[i + 1]));
    }
  }

  /** `list_replace_init` */
  method ListReplaceInit(old_: ListHead, new_: ListHead, ghost s: seq<ListHead>, ghost k: nat)
    requires Ring(s) && k < |s| && old_ == s[k] && new_ !in s
    modifies new_, s
    ensures Ring(s[k := new_]) && Ring([old_])
  {
    Neighbours(s, k);
    ListReplace(old_, new_, s, k);
    assert old_ !in s[k := new_];
    InitListHead(old_);
  }

  /** The lists of entry and of head: one ring, or two rings with no node in common. */
  ghost predicate SameOrApart(s: seq<ListHead>, t: seq<ListHead>) {
    s == t || forall x | x in s :: x !in t
  }

  /** A ring none of whose nodes was written is still a ring. */
  twostate lemma RingKept(s: seq<ListHead>)
    requires old(Ring(s))
    requires forall i | 0 <= i < |s| :: s[i].next == old(s[i].next) && s[i].prev == old(s[i].prev)
    ensures Ring(s)
  {
    forall i | 0 <= i < |s| - 1 ensures Link(s[i], s[i + 1]) {
      assert old(Link(s[i], s[i + 1]));
    }
  }

  lemma MoveMeaning(s: seq<ListHead>, k: nat, t: seq<ListHead>)
    requires SameOrApart(s, t) && Distinct(s) && Distinct(t) && k < |s| && t != [] && t[0] != s[k]
    ensures |s| > 1 ==> Unlinked(s, k) == Remove(s, k)
    ensures s[k] !in Remove(s, k)
    ensures s == t ==> |s| > 1 && Remove(s, k) != [] && Remove(s, k)[0] == t[0]
    ensures s != t ==> s[k] !in t && (forall x | x in s :: x !in t) && forall x | x in Remove(s, k) :: x in s
    ensures forall i | 0 <= i < |Remove(s, k)| :: Remove(s, k)[i] in s
  {
    RemoveMeaning(s, k);
  }

  /** The second half of a move: r is the ring of the head, q the ring that the node came from when
      that is another one. */
  ghost predicate CanReceive(list: ListHead, head: ListHead, r: seq<ListHead>, q: seq<ListHead>)
    reads r, q
  {
    && Ring(r) && head == r[0] && list !in r
    && (q != [] ==> Ring(q) && list !in q && forall x | x in q :: x !in r)
  }

  method AddApart(list: ListHead, head: ListHead, ghost r: seq<ListHead>, ghost q: seq<ListHead>)
    requires CanReceive(list, head, r, q)
    modifies list, head, head.next
    ensures Ring([head, list] + r[1..]) && (q != [] ==> Ring(q))
  {
    Neighbours(r, 0);
    assert q != [] ==> head !in q && head.next !in q;
    hide Distinct;
    ListAdd(list, head, r);
    if q != [] { RingKept(q); }
  }

  method AddTailApart(list: ListHead, head: ListHead, ghost r: seq<ListHead>, ghost q: seq<ListHead>)
    requires CanReceive(list, head, r, q)
    modifies list, head, head.prev
    ensures Ring(r + [list]) && (q != [] ==> Ring(q))
  {
    Neighbours(r, 0);
    assert q != [] ==> head !in q && head.prev !in q;
    hide Distinct;
    ListAddTail(list, head, r);
    if q != [] { RingKept(q); }
  }

  /** `list_move`: node s[k] goes right after the head of t. */
  method ListMove(list: ListHead, head: ListHead, ghost s: seq<ListHead>, ghost k: nat, ghost t: seq<ListHead>)
    requires Ring(s) && Ring(t) && SameOrApart(s, t) && k < |s| && list == s[k] && head == t[0] && head != list
    modifies s, t
    ensures if s == t then Ring([head, list] + Remove(s, k)[1..])
            else (|s| > 1 ==> Ring(Remove(s, k))) && Ring([head, list] + t[1..])
  {
    hide Remove, Distinct, SameOrApart, Unlinked;
    Neighbours(s, k);
    ghost var r := if s == t then Remove(s, k) else t;
    ghost var q := if s == t || |s| == 1 then [] else Remove(s, k);
    label start:
    ListDelEntry(list, s, k);
    MoveMeaning(s, k, t);
    assert CanReceive(list, head, r, q) by {
      if s != t { RingKept@start(t); }
    }
    assert head.next in s + t && head.prev in s + t by { Neighbours(r, 0); }
    hide Ring, CanReceive;
    AddApart(list, head, r, q);
  }

  /** `list_move_tail`: node s[k] goes right before the head of t. */
  method ListMoveTail(list: ListHead, head: ListHead, ghost s: seq<ListHead>, ghost k: nat, ghost t: seq<ListHead>)
    requires Ring(s) && Ring(t) && SameOrApart(s, t) && k < |s| && list == s[k] && head == t[0] && head != list
    modifies s, t
    ensures if s == t then Ring(Remove(s, k) + [list])
            else (|s| > 1 ==> Ring(Remove(s, k))) && Ring(t + [list])
  {
    hide Remove, Distinct, SameOrApart, Unlinked;
    Neighbours(s, k);
    ghost var r := if s == t then Remove(s, k) else t;
    ghost var q := if s == t || |s| == 1 then [] else Remove(s, k);
    label start:
    ListDelEntry(list, s, k);
    MoveMeaning(s, k, t);
    assert CanReceive(list, head, r, q) by {
      if s != t { RingKept@start(t); }
    }
    assert head.next in s + t && head.prev in s + t by { Neighbours(r, 0); }
    hide Ring, CanReceive;
    AddTailApart(list, head, r, q);
  }

  /** `list_empty` */
  method ListEmpty(head: ListHead, ghost s: seq<ListHead>) returns (empty: bool)
    requires Ring(s) && head == s[0]
    ensures empty <==> |s| == 1
  {
    assert |s| > 1 ==> Link(s[0], s[0 + 1]);
    empty := head.next == head;
  }

  /** `list_is_singular` */
  method ListIsSingular(head: ListHead, ghost s: seq<ListHead>) returns (singular: bool)
    requires Ring(s) && head == s[0]
    ensures singular <==> |s| == 2
  {
    assert |s| > 1 ==> Link(s[0], s[0 + 1]);
    var empty := ListEmpty(head, s);
    singular := !empty && head.next == head.prev;
  }

  /** `list_rotate_left` */
  method ListRotateLeft(head: ListHead, ghost s: seq<ListHead>)
    requires Ring(s) && head == s[0]
    modifies s
    ensures Ring([head] + RotateLeft(s[1..]))
  {
    var empty := ListEmpty(head, s);
    if !empty {
      assert Link(s[0], s[0 + 1]);
      var first := head.next;
      ListMoveTail(first, head, s, 1, s);
      assert Remove(s, 1) + [first] == [head] + RotateLeft(s[1..]);
    } else {
      assert [head] + RotateLeft(s[1..]) == s;
    }
  }

  // ----- Cutting and splicing -----

  /** `__list_cut_position` */
  method CutPosition(list: ListHead, head: ListHead, entry: ListHead, ghost s: seq<ListHead>, ghost k: nat)
    requires Ring(s) && list !in s && head == s[0] && 0 < k < |s| && entry == s[k]
    modifies s, list
    ensures Ring([list] + s[1..k + 1]) && Ring([head] + s[k + 1..])
  {
    assert Link(s[0], s[0 + 1]);
    assert k < |s| - 1 ==> Link(s[k], s[k + 1]);
    ghost var a, b := [list] + s[1..k + 1], [head] + s[k + 1..];
    var newFirst := entry.next;
    list.next := head.next;
    list.next.prev := list;
    list.prev := entry;
    entry.next := list;
    head.next := newFirst;
    newFirst.prev := head;
    forall i | 0 <= i < |a| - 1 ensures Link(a[i], a[i + 1]) {
      assert a[i + 1] == s[i + 1];
      if i > 0 {
        assert a[i] == s[i] && old(Link(s[i], s[i + 1]));
      }
    }
    forall i | 0 <= i < |b| - 1 ensures Link(b[i], b[i + 1]) {
      assert b[i + 1] == s[k + i + 1];
      if i > 0 {
        assert b[i] == s[k + i] && old(Link(s[k + i], s[k + i + 1]));
      }
    }
    assert a[|a| - 1] == entry && b[|b| - 1] == if k == |s| - 1 then head else s[|s| - 1];
  }

  /** `list_cut_position`: the entries up to `entry` go to `list`, the others stay. Cutting at the
      head empties `list`; an empty `head` leaves `list` as it is. */
  method ListCutPosition(list: ListHead, head: ListHead, entry: ListHead, ghost s: seq<ListHead>, ghost k: nat)
    requires Ring(s) && list !in s && head == s[0] && k < |s| && entry == s[k]
    modifies s, list
    ensures |s| > 1 || old(Ring([list])) ==> Ring([list] + s[1..k + 1])
    ensures Ring([head] + s[k + 1..])
  {
    var empty := ListEmpty(head, s);
    assert k == 0 ==> [head] + s[k + 1..] == s && [list] + s[1..k + 1] == [list];
    if empty {
      return;
    }
    var singular := ListIsSingular(head, s);
    assert Link(s[0], s[0 + 1]);
    if singular && head.next != entry && head != entry {
      return;
    }
    if entry == head {
      InitListHead(list);
    } else {
      CutPosition(list, head, entry, s, k);
    }
  }

  /** `__list_splice`: the entries of ring t between s[k] and its successor. */
  method SpliceBetween(list: ListHead, prev: ListHead, next: ListHead,
                       ghost t: seq<ListHead>, ghost s: seq<ListHead>, ghost k: nat)
    requires Ring(t) && |t| > 1 && list == t[0]
    requires Ring(s) && k < |s| && prev == s[k] && next == prev.next && forall x | x in t :: x !in s
    modifies t[1], t[|t| - 1], prev, next
    ensures Ring(s[..k + 1] + t[1..] + s[k + 1..])
  {
    assert Link(t[0], t[0 + 1]);
    assert k < |s| - 1 ==> Link(s[k], s[k + 1]);
    ghost var r := s[..k + 1] + t[1..] + s[k + 1..];
    var first := list.next;
    var last := list.prev;
    first.prev := prev;
    prev.next := first;
    last.next := next;
    next.prev := last;
    JoinMeaning(s, k, t);
    assert first in t && last in t && forall x | x in s :: x != first && x != last;
    forall i | 0 <= i < |r| - 1 ensures Link(r[i], r[i + 1]) {
      if i < k {
        assert old(Link(s[i], s[i + 1]));
      } else if k < i < k + |t| - 1 {
        assert old(Link(t[i - k], t[i - k + 1]));
      } else if i >= k + |t| {
        assert old(Link(s[i - |t| + 1], s[i - |t| + 1 + 1]));
      }
    }
  }

  lemma JoinMeaning<T>(s: seq<T>, k: nat, t: seq<T>)
    requires k < |s| && |t| > 0 && Distinct(s) && Distinct(t) && forall x | x in t :: x !in s
    ensures var r := s[..k + 1] + t[1..] + s[k + 1..];
            && |r| == |s| + |t| - 1 && Distinct(r)
            && (forall i | 0 <= i <= k :: r[i] == s[i])
            && (forall i | k < i < k + |t| :: r[i] == t[i - k])
            && (forall i | k + |t| <= i < |r| :: r[i] == s[i - |t| + 1])
  {
    var r := s[..k + 1] + t[1..] + s[k + 1..];
    forall i, j | 0 <= i < j < |r| ensures r[i] != r[j] {
      assert k < i < k + |t| ==> r[i] == t[i - k] && t[i - k] in t;
      assert k < j < k + |t| ==> r[j] == t[j - k] && t[j - k] in t;
    }
  }

  /** `list_splice`: the entries of `list` right after the head. */
  method ListSplice(list: ListHead, head: ListHead, ghost t: seq<ListHead>, ghost s: seq<ListHead>)
    requires Ring(t) && list == t[0] && Ring(s) && head == s[0] && forall x | x in t :: x !in s
    modifies t[1..], s
    ensures Ring([head] + t[1..] + s[1..])
  {
    assert |s| > 1 ==> Link(s[0], s[0 + 1]);
    var empty := ListEmpty(list, t);
    if !empty {
      SpliceBetween(list, head, head.next, t, s, 0);
      assert s[..1] == [head];
    } else {
      assert [head] + t[1..] + s[1..] == s;
    }
  }

  /** `list_splice_tail`: the entries of `list` right before the head. */
  method ListSpliceTail(list: ListHead, head: ListHead, ghost t: seq<ListHead>, ghost s: seq<ListHead>)
    requires Ring(t) && list == t[0] && Ring(s) && head == s[0] && forall x | x in t :: x !in s
    modifies t[1..], s
    ensures Ring(s + t[1..])
  {
    var empty := ListEmpty(list, t);
    if !empty {
      SpliceBetween(list, head.prev, head, t, s, |s| - 1);
      assert s[..|s|] + t[1..] + s[|s|..] == s + t[1..];
    } else {
      assert s + t[1..] == s;
    }
  }

  /** `list_splice_init`: as `list_splice`, and `list` is an empty list again. */
  method ListSpliceInit(list: ListHead, head: ListHead, ghost t: seq<ListHead>, ghost s: seq<ListHead>)
    requires Ring(t) && list == t[0] && Ring(s) && head == s[0] && forall x | x in t :: x !in s
    modifies t, s
    ensures Ring([head] + t[1..] + s[1..]) && Ring([list])
  {
    assert t == [list] + t[1..] && list !in t[1..];
    var empty := ListEmpty(list, t);
    ListSplice(list, head, t, s);
    assert list in t && list !in s && list !in [head] + t[1..] + s[1..];
    if !empty { InitListHead(list); }
  }

  /** `list_splice_tail_init`: as `list_splice_tail`, and `list` is an empty list again. */
  method ListSpliceTailInit(list: ListHead, head: ListHead, ghost t: seq<ListHead>, ghost s: seq<ListHead>)
    requires Ring(t) && list == t[0] && Ring(s) && head == s[0] && forall x | x in t :: x !in s
    modifies t, s
    ensures Ring(s + t[1..]) && Ring([list])
  {
    assert t == [list] + t[1..] && list !in t[1..];
    var empty := ListEmpty(list, t);
    ListSpliceTail(list, head, t, s);
    assert list in t && list !in s && list !in s + t[1..];
    if !empty { InitListHead(list); }
  }

  /** Cutting a list at any member, the head included, and splicing the first part back
      restores it, given that the receiving list starts empty. */
  method CutThenSplice(list: ListHead, head: ListHead, entry: ListHead, ghost s: seq<ListHead>, ghost k: nat)
    requires Ring(s) && Ring([list]) && list !in s && head == s[0] && k < |s| && entry == s[k]
    modifies s, list
    ensures Ring(s)
  {
    CutParts(list, head, s, k);
    ListCutPosition(list, head, entry, s, k);
    hide Ring, Distinct;
    ListSplice(list, head, [list] + s[1..k + 1], [head] + s[k + 1..]);
  }

  /** The two lists of a cut have no node in common, and make up the old one. */
  lemma CutParts(list: ListHead, head: ListHead, s: seq<ListHead>, k: nat)
    requires Distinct(s) && list !in s && k < |s| && head == s[0]
    ensures var t, r := [list] + s[1..k + 1], [head] + s[k + 1..];
            && t[0] == list && r[0] == head && (forall x | x in t :: x !in r)
            && (forall i | 0 <= i < |t| :: t[i] in s || t[i] == list) && (forall i | 0 <= i < |r| :: r[i] in s)
            && [head] + t[1..] + r[1..] == s
  {
    assert [head] + s[1..k + 1] + s[k + 1..] == s;
  }
}
