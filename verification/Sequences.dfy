/** Sequences that insertion, removal and rotation act on. */
module Sequences {
  import opened Bits

  predicate Distinct<T(==)>(s: seq<T>) {
    forall i, j | 0 <= i < j < |s| :: s[i] != s[j]
  }

  function Insert<T>(s: seq<T>, k: nat, x: T): seq<T>
    requires k <= |s|
  {
    s[..k] + [x] + s[k..]
  }

  function Remove<T>(s: seq<T>, k: nat): seq<T>
    requires k < |s|
  {
    s[..k] + s[k + 1..]
  }

  lemma InsertMeaning<T>(s: seq<T>, k: nat, x: T)
    requires k <= |s| && Distinct(s) && x !in s
    ensures var t := Insert(s, k, x);
            && |t| == |s| + 1 && t[k] == x && Distinct(t)
            && (forall i | 0 <= i < k :: t[i] == s[i])
            && (forall i | k < i < |t| :: t[i] == s[i - 1])
  {
  }

  lemma RemoveMeaning<T>(s: seq<T>, k: nat)
    requires k < |s| && Distinct(s)
    ensures var t := Remove(s, k);
            && |t| == |s| - 1 && Distinct(t) && s[k] !in t
            && (forall i | 0 <= i < k :: t[i] == s[i])
            && (forall i | k <= i < |t| :: t[i] == s[i + 1])
            && (forall x | x in t :: x in s)
  {
  }

  /** The entries of a list one place to the left, the first one at the end. */
  function RotateLeft<T>(entries: seq<T>): seq<T> {
    if entries == [] then [] else entries[1..] + [entries[0]]
  }

  lemma RotatedMembers<T>(s: seq<T>)
    ensures forall x | x in RotateLeft(s) :: x in s
  {
  }

  lemma RotateKeeps<T>(s: seq<T>)
    requires s != [] && Distinct(s)
    ensures |RotateLeft(s)| == |s| && Distinct(RotateLeft(s))
    ensures forall x :: x in RotateLeft(s) <==> x in s
    ensures RotateLeft(s)[0] == if |s| == 1 then s[0] else s[1]
  {
    assert s == [s[0]] + s[1..];
  }

  function Rotated<T>(entries: seq<T>, n: nat): seq<T> {
    if n == 0 then entries else RotateLeft(Rotated(entries, n - 1))
  }

  /** n rotations of a list move its first n entries, in order, behind the others. */
  lemma {:induction false} RotatedMeaning<T>(entries: seq<T>, n: nat)
    requires n <= |entries|
    ensures Rotated(entries, n) == entries[n..] + entries[..n]
  {
    if n == 0 {
      assert entries[0..] + entries[..0] == entries;
    } else {
      RotatedMeaning(entries, n - 1);
      var r := entries[n - 1..] + entries[..n - 1];
      assert r[1..] + [r[0]] == entries[n..] + entries[..n];
    }
  }

  /** As many rotations as there are entries are the identity. */
  lemma FullRotation<T>(entries: seq<T>)
    ensures Rotated(entries, |entries|) == entries
  {
    RotatedMeaning(entries, |entries|);
    assert entries[|entries|..] + entries[..|entries|] == entries;
  }

  lemma {:induction false} RotatedLater<T>(s: seq<T>, n: nat)
    ensures Rotated(RotateLeft(s), n) == Rotated(s, n + 1)
  {
    if n > 0 { RotatedLater(s, n - 1); }
  }

  lemma {:induction false} RotatedAt<T>(s: seq<T>, k: nat, j: nat)
    requires j < |s|
    ensures |Rotated(s, k)| == |s| && Rotated(s, k)[j] == s[(k + j) % |s|]
    decreases k
  {
    if k > 0 {
      var n := |s|;
      RotatedAt(s, k - 1, if j + 1 < n then j + 1 else 0);
      if j + 1 == n { AddOneRound(k - 1, n); }
    }
  }

  lemma AddOneRound(k: nat, n: nat)
    requires n > 0
    ensures (k + n) % n == k % n
  {
    assert k + n == n * (k / n + 1) + k % n;
    DivModUnique(k + n, n, k / n + 1, k % n);
  }
}
