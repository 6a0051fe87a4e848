/** include/linux/list.h: lists with a single-pointer head and back pointers to pointer cells. */
module HashLists {
  import opened Sequences

  class HListHead {
    var first: HListNode?

    constructor ()
      ensures HList(this, [])
    {
      first := null;
    }
  }

  /** The address of a cell that holds a node pointer. */
  datatype Cell = Null | FirstOf(head: HListHead) | NextOf(node: HListNode)

  class HListNode {
    var next: HListNode?
    var pprev: Cell

    /** `INIT_HLIST_NODE` */
    constructor ()
      ensures next == null && pprev == Null
    {
      next := null;
      pprev := Null;
    }
  }

  /** The object that a cell is part of. */
  function Owner(c: Cell): set<object> {
    match c
    case Null => {}
    case FirstOf(h) => {h}
    case NextOf(n) => {n}
  }

  /** What a cell holds. */
  function Held(c: Cell): HListNode?
    reads Owner(c)
  {
    match c
    case Null => null
    case FirstOf(h) => h.first
    case NextOf(n) => n.next
  }

  /** `*cell = value` */
  method Assign(cell: Cell, value: HListNode?)
    requires cell != Null
    modifies Owner(cell)
    ensures Held(cell) == value
    ensures cell.FirstOf? ==> cell.head.first == value
    ensures cell.NextOf? ==> cell.node.next == value && cell.node.pprev == old(cell.node.pprev)
  {
    match cell
    case FirstOf(h) => h.first := value;
    case NextOf(n) => n.next := value;
  }

  /** b follows a: the next cell of a holds b, and b points back to that cell. */
  ghost predicate Follows(a: HListNode, b: HListNode)
    reads a, b
  {
    a.next == b && b.pprev == NextOf(a)
  }

  /** The nodes of s, in this order, are the list of head h. */
  ghost predicate HList(h: HListHead, s: seq<HListNode>)
    reads h, s
  {
    && Distinct(s)
    && (forall i | 0 <= i < |s| - 1 :: Follows(s[i], s[i + 1]))
    && (if s == [] then h.first == null
        else h.first == s[0] && s[0].pprev == FirstOf(h) && s[|s| - 1].next == null)
  }

  /** The cell that holds the i-th node. */
  function CellOf(h: HListHead, s: seq<HListNode>, i: nat): Cell
    requires i < |s|
  {
    if i == 0 then FirstOf(h) else NextOf(s[i - 1])
  }

  /** Back pointers: the cell that a node of a list points back to holds that node. */
  lemma CellHoldsNode(h: HListHead, s: seq<HListNode>, i: nat)
    requires HList(h, s) && i < |s|
    ensures s[i].pprev == CellOf(h, s, i)
    ensures Held(s[i].pprev) == s[i]
    ensures s[i].next == if i == |s| - 1 then null else s[i + 1]
  {
    assert i > 0 ==> Follows(s[i - 1], s[i - 1 + 1]);
    assert i < |s| - 1 ==> Follows(s[i], s[i + 1]);
  }

  /** `hlist_unhashed`: no member of a list is unhashed. */
  method HListUnhashed(n: HListNode, ghost h: HListHead, ghost s: seq<HListNode>) returns (unhashed: bool)
    requires HList(h, s)
    ensures unhashed <==> n.pprev == Null
    ensures unhashed ==> n !in s
  {
    if n in s {
      ghost var i :| 0 <= i < |s| && s[i] == n;
      CellHoldsNode(h, s, i);
    }
    unhashed := n.pprev == Null;
  }

  /** `hlist_empty` */
  method HListEmpty(h: HListHead, ghost s: seq<HListNode>) returns (empty: bool)
    requires HList(h, s)
    ensures empty <==> s == []
  {
    empty := h.first == null;
  }

  /** `__hlist_del` */
  method HListUnlink(n: HListNode, ghost h: HListHead, ghost s: seq<HListNode>, ghost k: nat)
    requires HList(h, s) && k < |s| && n == s[k]
    modifies h, s
    ensures HList(h, Remove(s, k)) && n !in Remove(s, k)
  {
    ghost var t := Remove(s, k);
    RemoveMeaning(s, k);
    CellHoldsNode(h, s, k);
    if k > 0 { CellHoldsNode(h, s, k - 1); }
    if k < |s| - 1 { CellHoldsNode(h, s, k + 1); }
    var next := n.next;
    var pprev := n.pprev;
    Assign(pprev, next);
    if next != null {
      next.pprev := pprev;
    }
    hide Remove;
    forall i | 0 <= i < |t| - 1 ensures Follows(t[i], t[i + 1]) {
      if i < k - 1 {
        assert old(Follows(s[i], s[i + 1]));
      } else if i >= k {
        assert old(Follows(s[i + 1], s[i + 1 + 1]));
      }
    }
  }

  /** `hlist_del`; the poison values are written as null pointers. */
  method HListDel(n: HListNode, ghost h: HListHead, ghost s: seq<HListNode>, ghost k: nat)
    requires HList(h, s) && k < |s| && n == s[k]
    modifies h, s
    ensures HList(h, Remove(s, k)) && n !in Remove(s, k)
    ensures n.next == null && n.pprev == Null
  {
    HListUnlink(n, h, s, k);
    n.next := null;
    n.pprev := Null;
  }

  /** `hlist_del_init`: does nothing to a node that is on no list. */
  method HListDelInit(n: HListNode, ghost h: HListHead, ghost s: seq<HListNode>, ghost k: nat)
    requires HList(h, s) && (n.pprev == Null || (k < |s| && n == s[k]))
    modifies h, s
    ensures if old(n.pprev) == Null then HList(h, s) && n.next == old(n.next)
            else k < |s| && HList(h, Remove(s, k)) && n !in Remove(s, k) && n.next == null
    ensures n.pprev == Null
  {
    var unhashed := HListUnhashed(n, h, s);
    if !unhashed {
      HListUnlink(n, h, s, k);
      n.next := null;
      n.pprev := Null;
    }
  }

  /** `hlist_add_head` */
  method HListAddHead(n: HListNode, h: HListHead, ghost s: seq<HListNode>)
    requires HList(h, s) && n !in s
    modifies n, h, h.first
    ensures HList(h, [n] + s)
  {
    var first := h.first;
    n.next := first;
    if first != null {
      first.pprev := NextOf(n);
    }
    h.first := n;
    n.pprev := FirstOf(h);
    ghost var t := [n] + s;
    forall i | 0 <= i < |t| - 1 ensures Follows(t[i], t[i + 1]) {
      if i > 0 { assert old(Follows(s[i - 1], s[i - 1 + 1])); }
    }
  }

  /** `hlist_add_before`: n right before s[k]. */
  method HListAddBefore(n: HListNode, next: HListNode, ghost h: HListHead, ghost s: seq<HListNode>, ghost k: nat)
    requires HList(h, s) && n !in s && k < |s| && next == s[k]
    modifies n, h, s
    ensures HList(h, Insert(s, k, n))
  {
    ghost var t := Insert(s, k, n);
    InsertMeaning(s, k, n);
    CellHoldsNode(h, s, k);
    if k > 0 { CellHoldsNode(h, s, k - 1); }
    n.pprev := next.pprev;
    n.next := next;
    next.pprev := NextOf(n);
    Assign(n.pprev, n);
    hide Insert;
    forall i | 0 <= i < |t| - 1 ensures Follows(t[i], t[i + 1]) {
      if i < k - 1 {
        assert old(Follows(s[i], s[i + 1]));
      } else if i > k {
        assert old(Follows(s[i - 1], s[i - 1 + 1]));
      }
    }
  }

  /** `hlist_add_after`: next right after n = s[k]. */
  method HListAddAfter(n: HListNode, next: HListNode, ghost h: HListHead, ghost s: seq<HListNode>, ghost k: nat)
    requires HList(h, s) && next !in s && k < |s| && n == s[k]
    modifies n, next, n.next
    ensures HList(h, Insert(s, k + 1, next))
  {
    ghost var t := Insert(s, k + 1, next);
    InsertMeaning(s, k + 1, next);
    CellHoldsNode(h, s, k);
    if k < |s| - 1 { CellHoldsNode(h, s, k + 1); }
    next.next := n.next;
    n.next := next;
    next.pprev := NextOf(n);
    if next.next != null {
      next.next.pprev := NextOf(next);
    }
    hide Insert;
    forall i | 0 <= i < |t| - 1 ensures Follows(t[i], t[i + 1]) {
      if i < k {
        assert old(Follows(s[i], s[i + 1]));
      } else if i > k + 1 {
        assert old(Follows(s[i - 1], s[i - 1 + 1]));
      }
    }
  }

  /** `hlist_move_list`: the nodes of `old_` become the list of `new_`. */
  method HListMoveList(old_: HListHead, new_: HListHead, ghost s: seq<HListNode>)
    requires HList(old_, s) && old_ != new_
    modifies old_, new_, old_.first
    ensures HList(new_, s) && HList(old_, [])
  {
    new_.first := old_.first;
    if new_.first != null {
      new_.first.pprev := FirstOf(new_);
    }
    old_.first := null;
    forall i | 0 <= i < |s| - 1 ensures Follows(s[i], s[i + 1]) {
      assert old(Follows(s[i], s[i + 1]));
    }
  }
}
