/** sys/tarfs.c: the search of the initial archive, with strcmp of sys/math.c. */
module Tar {
  import opened Numbers
  import opened Options

  const SIZE_FIELD: nat := 124

  // ----- C strings and strcmp -----

  /** The C string at place o: up to the NUL. */
  function Str(mem: seq<char>, o: nat): string
    requires o <= |mem|
    decreases |mem| - o
  {
    if o == |mem| || mem[o] == '\0' then [] else [mem[o]] + Str(mem, o + 1)
  }

  ghost predicate Terminated(mem: seq<char>, o: nat) {
    exists k :: o <= k < |mem| && mem[k] == '\0'
  }

  lemma {:induction false} StrIs(mem: seq<char>, o: nat, s: string)
    requires o + |s| < |mem| && mem[o..o + |s|] == s && '\0' !in s && mem[o + |s|] == '\0'
    ensures Str(mem, o) == s && Terminated(mem, o)
    decreases |s|
  {
    if s != [] {
      assert mem[o] == s[0] && s[0] in s;
      assert forall c | c in s[1..] :: c in s;
      assert mem[o + 1..o + 1 + |s[1..]|] == s[1..];
      StrIs(mem, o + 1, s[1..]);
    }
  }

  lemma {:induction false} StrHasNoNul(mem: seq<char>, o: nat)
    requires o <= |mem|
    ensures '\0' !in Str(mem, o)
    decreases |mem| - o
  {
    if o < |mem| && mem[o] != '\0' { StrHasNoNul(mem, o + 1); }
  }

  /** The difference of the first two characters that differ, the end counting as 0. */
  function Compare(a: string, b: string): int {
    if a == [] then (if b == [] then 0 else -(b[0] as int))
    else if b == [] then a[0] as int
    else if a[0] == b[0] then Compare(a[1..], b[1..])
    else a[0] as int - b[0] as int
  }

  /** The result of `strcmp` is 0 exactly on equal strings, and changes sign with the arguments. */
  lemma {:induction false} CompareMeaning(a: string, b: string)
    requires '\0' !in a && '\0' !in b
    ensures Compare(a, b) == 0 <==> a == b
    ensures Compare(b, a) == -Compare(a, b)
    decreases |a|
  {
    if a != [] && b != [] && a[0] == b[0] {
      var a', b' := a[1..], b[1..];
      assert a == [a[0]] + a' && b == [b[0]] + b';
      CompareMeaning(a', b');
    } else if a != [] && b == [] {
      assert a[0] in a;
    } else if a == [] && b != [] {
      assert b[0] in b;
    }
  }

  /** Its size and sign: behind a common part, the difference of the first characters that differ, where the
      end of a string counts as 0. */
  lemma {:induction false} CompareAtDifference(p: string, x: char, y: char, s: string, t: string)
    ensures x != y ==> Compare(p + [x] + s, p + [y] + t) == x as int - y as int
    ensures Compare(p, p + [y] + t) == -(y as int)
    ensures Compare(p + [x] + s, p) == x as int
    decreases |p|
  {
    var a, b := p + [x] + s, p + [y] + t;
    if p == [] {
      assert a[0] == x && b[0] == y;
    } else {
      assert a[1..] == p[1..] + [x] + s && b[1..] == p[1..] + [y] + t && a[0] == b[0] == p[0];
      CompareAtDifference(p[1..], x, y, s, t);
    }
  }

  /** k is where two strings first differ, or where both end. */
  predicate DiffersAt(s1: seq<char>, s2: seq<char>, at: nat, k: nat) {
    && k < |s1| && at + k < |s2| && (forall i | 0 <= i < k :: s1[i] == s2[at + i] && s1[i] != '\0')
    && (s1[k] != s2[at + k] || s1[k] == '\0')
  }

  /** `strcmp` */
  method Strcmp(s1: seq<char>, s2: seq<char>, at: nat) returns (r: int)
    requires Terminated(s1, 0) && at < |s2| && Terminated(s2, at)
    ensures r == Compare(Str(s1, 0), Str(s2, at))
    ensures r == 0 <==> Str(s1, 0) == Str(s2, at)
    ensures exists k: nat :: DiffersAt(s1, s2, at, k) && r == s1[k] as int - s2[at + k] as int
  {
    StrHasNoNul(s1, 0);
    StrHasNoNul(s2, at);
    CompareMeaning(Str(s1, 0), Str(s2, at));
    var p, q := 0, at;
    while true
      invariant 0 <= p < |s1| && at <= q < |s2| && Terminated(s1, p) && Terminated(s2, q)
      invariant Compare(Str(s1, 0), Str(s2, at)) == Compare(Str(s1, p), Str(s2, q))
      invariant q == at + p && forall i | 0 <= i < p :: s1[i] == s2[at + i] && s1[i] != '\0'
      decreases |s1| - p
    {
      var same := s1[p] == s2[q];
      q := q + 1;
      if !same { break; }
      if s1[p] == '\0' {
        assert DiffersAt(s1, s2, at, p);
        return 0;
      }
      p := p + 1;
    }
    q := q - 1;
    assert DiffersAt(s1, s2, at, p);
    return s1[p] as int - s2[q] as int;
  }

  // ----- The walk over the records -----

  function SizeText(mem: seq<char>, h: nat): string
    requires 512 * (h + 1) <= |mem|
  {
    Str(mem, 512 * h + SIZE_FIELD)
  }

  /** From a header whose file has n bytes to the header that is read next. */
  function Skip(n: int): nat {
    if n > 0 then 1 + (n / 513 + 1) else 1
  }

  /** The record at h is in memory, its strings end, and its size can be converted. */
  ghost predicate Readable(mem: seq<char>, h: nat) {
    && 512 * (h + 1) <= |mem|
    && Terminated(mem, 512 * h) && Terminated(mem, 512 * h + SIZE_FIELD)
    && AtoiFits(SizeText(mem, h)) && forall c | c in SizeText(mem, h) :: c as int < 128
  }

  /** Every record that the search for a name meets is readable. */
  ghost predicate Walkable(mem: seq<char>, h: nat, name: string)
    decreases |mem| - 512 * h
  {
    Readable(mem, h) &&
    (Str(mem, 512 * h) != name ==>
       var next := h + Skip(Octal(Reading(SizeText(mem, h))));
       512 * next < |mem| ==> Walkable(mem, next, name))
  }

  ghost function Walk(mem: seq<char>, h: nat, name: string): Option<nat>
    requires Walkable(mem, h, name)
    decreases |mem| - 512 * h
  {
    if Str(mem, 512 * h) == name then Some(h)
    else
      var next := h + Skip(Octal(Reading(SizeText(mem, h))));
      if 512 * next < |mem| then Walk(mem, next, name) else None
  }

  /** `readTarfile`: the number of the record that is returned, or None for NULL. */
  method ReadTarfile(fileName: seq<char>, mem: seq<char>) returns (header: Option<nat>)
    requires Terminated(fileName, 0) && Walkable(mem, 0, Str(fileName, 0))
    ensures header == Walk(mem, 0, Str(fileName, 0))
  {
    var h := 0;
    ghost var name := Str(fileName, 0);
    while true
      invariant Walkable(mem, h, name) && Walk(mem, 0, name) == Walk(mem, h, name)
      decreases |mem| - 512 * h
    {
      var k := Atoi(SizeText(mem, h));
      var size := OctalDecimal(k);
      var order := Strcmp(fileName, mem, 512 * h);
      if order == 0 {
        return Some(h);
      }
      if size > 0 {
        h := h + 1 + (size as int / 513 + 1);
      } else {
        h := h + 1;
      }
      if !(512 * h < |mem|) { break; }
    }
    return None;
  }

  // ----- The skip formula -----

  /** The records of n bytes. */
  function Records(n: nat): nat {
    (n + 511) / 512
  }

  predicate SkipOk(n: nat) {
    n == 0 || (n - 1) % 512 + 1 >= (n - 1) / 512
  }

  /** The skip meets the next header exactly when the last record is full enough; else it stops short. */
  lemma SkipExact(n: nat)
    ensures Skip(n) == 1 + Records(n) <==> SkipOk(n)
    ensures Skip(n) <= 1 + Records(n)
    ensures n > 0 ==> 513 * (Skip(n) - 2) <= n < 513 * (Skip(n) - 1)
  {
    if n > 0 {
      var a, b := (n - 1) / 512, (n - 1) % 512;
      assert n == 512 * a + b + 1;
      assert Records(n) == a + 1;
      assert n / 513 <= a;
      assert n / 513 == a <==> 513 * a <= n;
    }
  }

  /** It is exact for all files of up to two records, first fails at 1025 bytes, and fails for
      every file of more than 513 records. A size of 0 or less skips the header alone. */
  lemma SkipRange(n: int)
    ensures 0 <= n <= 1024 ==> SkipOk(n)
    ensures !SkipOk(1025)
    ensures n > 513 * 512 ==> !SkipOk(n)
    ensures n <= 0 ==> Skip(n) == 1
  {
  }

  // ----- Archives -----

  /** A file; `mode` is what follows a name that fills its 100 bytes, up to the next NUL. */
  datatype Entry = Entry(name: string, mode: string, data: seq<char>)

  const NAME_SIZE: nat := 100

  /** The name as `strcmp` sees it: one of 100 characters has no NUL, and runs on into the mode field. */
  function Seen(e: Entry): string {
    if |e.name| < NAME_SIZE then e.name else e.name + e.mode
  }

  predicate IsOctal(s: string) {
    forall c | c in s :: '0' <= c <= '7'
  }

  /** The record at h is a header of e: its name, with a NUL unless it has 100 characters, its size in
      octal with a NUL, and the data in the records that follow. */
  predicate HeaderOf(mem: seq<char>, h: nat, e: Entry, size: string) {
    && 512 * (h + 1 + Records(|e.data|)) <= |mem|
    && |e.name| <= NAME_SIZE && |Seen(e)| < 512 && '\0' !in Seen(e)
    && mem[512 * h..512 * h + |Seen(e)|] == Seen(e) && mem[512 * h + |Seen(e)|] == '\0'
    && |size| < 12 && IsOctal(size) && mem[512 * h + SIZE_FIELD..512 * h + SIZE_FIELD + |size|] == size
    && mem[512 * h + SIZE_FIELD + |size|] == '\0'
    && Value(size, 8) == |e.data| && Reading(size) <= 2147483599
    && mem[512 * (h + 1)..512 * (h + 1) + |e.data|] == e.data
  }

  /** From record h on, memory holds the entries, and then records of zeros to its end. */
  ghost predicate Holds(mem: seq<char>, h: nat, entries: seq<Entry>)
    decreases |entries|
  {
    if entries == [] then
      512 * h <= |mem| && |mem| % 512 == 0 && forall k | 512 * h <= k < |mem| :: mem[k] == '\0'
    else
      var e := entries[0];
      && (exists size :: HeaderOf(mem, h, e, size))
      && Holds(mem, h + 1 + Records(|e.data|), entries[1..])
  }

  /** The header of the first entry with a name. A record of zeros is a header with an empty name. */
  function Position(entries: seq<Entry>, h: nat, name: string, end: nat): Option<nat>
    decreases |entries|
  {
    if entries == [] then (if name == "" && h < end then Some(h) else None)
    else if Seen(entries[0]) == name then Some(h)
    else Position(entries[1..], h + 1 + Records(|entries[0].data|), name, end)
  }

  /** The skip is exact for the entries that a search for the name passes over: those before the first
      one with the name. */
  predicate SkipsOk(entries: seq<Entry>, name: string)
    decreases |entries|
  {
    entries == [] || Seen(entries[0]) == name || (SkipOk(|entries[0].data|) && SkipsOk(entries[1..], name))
  }

  lemma {:induction false} SkipsOkMeaning(entries: seq<Entry>, name: string)
    ensures SkipsOk(entries, name) <==>
            forall i | 0 <= i < |entries| && (forall j | 0 <= j <= i :: Seen(entries[j]) != name) ::
              SkipOk(|entries[i].data|)
    decreases |entries|
  {
    if entries != [] && Seen(entries[0]) != name {
      var rest := entries[1..];
      SkipsOkMeaning(rest, name);
      hide SkipOk;
      if SkipsOk(entries, name) {
        forall i | 0 <= i < |entries| && (forall j | 0 <= j <= i :: Seen(entries[j]) != name)
          ensures SkipOk(|entries[i].data|)
        {
          if i > 0 {
            assert forall j | 0 <= j <= i - 1 :: rest[j] == entries[j + 1];
            assert rest[i - 1] == entries[i];
          }
        }
      } else if SkipOk(|entries[0].data|) {
        var i :| 0 <= i < |rest| && (forall j | 0 <= j <= i :: Seen(rest[j]) != name) && !SkipOk(|rest[i].data|);
        assert entries[i + 1] == rest[i];
        assert forall j | 0 <= j <= i + 1 :: j > 0 ==> entries[j] == rest[j - 1];
      } else {
        assert Seen(entries[0]) != name;
      }
    }
  }

  /** The records before the header of entry i. */
  function Place(entries: seq<Entry>, h: nat, i: nat): nat
    requires i <= |entries|
  {
    if i == 0 then h else Place(entries, h, i - 1) + 1 + Records(|entries[i - 1].data|)
  }

  lemma {:induction false} PlaceOfRest(entries: seq<Entry>, h: nat, i: nat)
    requires 0 < i <= |entries|
    ensures Place(entries, h, i) == Place(entries[1..], h + 1 + Records(|entries[0].data|), i - 1)
  {
    hide Records;
    if i > 1 { PlaceOfRest(entries, h, i - 1); }
  }

  /** Position is the place of the first entry with the name. */
  lemma {:induction false} PositionMeaning(entries: seq<Entry>, h: nat, name: string, end: nat, i: nat)
    requires i < |entries| && Seen(entries[i]) == name && forall j | 0 <= j < i :: Seen(entries[j]) != name
    ensures Position(entries, h, name, end) == Some(Place(entries, h, i))
    decreases |entries|
  {
    if i > 0 {
      var next := h + 1 + Records(|entries[0].data|);
      PlaceOfRest(entries, h, i);
      hide Records;
      PositionMeaning(entries[1..], next, name, end, i - 1);
    }
  }

  /** Without such an entry there is no place; a search for the empty name ends at the zeros behind. */
  lemma {:induction false} PositionOfNone(entries: seq<Entry>, h: nat, name: string, end: nat)
    requires forall e | e in entries :: Seen(e) != name
    ensures var behind := Place(entries, h, |entries|);
            Position(entries, h, name, end) == if name == "" && behind < end then Some(behind) else None
    decreases |entries|
  {
    if entries != [] {
      assert entries[0] in entries && forall e | e in entries[1..] :: e in entries;
      PlaceOfRest(entries, h, |entries|);
      hide Records, Seen;
      PositionOfNone(entries[1..], h + 1 + Records(|entries[0].data|), name, end);
    }
  }

  lemma HeaderIsRead(mem: seq<char>, h: nat, e: Entry, size: string)
    requires HeaderOf(mem, h, e, size)
    ensures Readable(mem, h) && Str(mem, 512 * h) == Seen(e) && SizeText(mem, h) == Str(mem, 512 * h + 124) == size
    ensures Octal(Reading(size)) == |e.data|
  {
    hide Octal, Reading, Value, AtoiFits, Str;
    assert IsDecimal(size) && '\0' !in size;
    StrIs(mem, 512 * h, Seen(e));
    StrIs(mem, 512 * h + SIZE_FIELD, size);
    AtoiSafe(size);
    OctalOfReading(size);
  }

  /** One record of the search: `own` is its name and n the size it states. */
  lemma WalkStep(mem: seq<char>, h: nat, name: string, own: string, n: int, next: nat)
    requires Readable(mem, h) && Str(mem, 512 * h) == own && Octal(Reading(SizeText(mem, h))) == n
    requires next == h + Skip(n)
    ensures own == name ==> Walkable(mem, h, name) && Walk(mem, h, name) == Some(h)
    ensures own != name && 512 * next >= |mem| ==> Walkable(mem, h, name) && Walk(mem, h, name) == None
    ensures own != name && 512 * next < |mem| && Walkable(mem, next, name) ==>
              Walkable(mem, h, name) && Walk(mem, h, name) == Walk(mem, next, name)
  {
    hide Readable, Str, SizeText, Octal, Reading, Skip;
  }

  /** From a record of zeros the search goes record by record to the end, unless it looks for the empty name. */
  lemma {:induction false} ZerosEnd(mem: seq<char>, h: nat, name: string)
    requires Holds(mem, h, []) && 512 * h < |mem|
    ensures Walkable(mem, h, name) && Walk(mem, h, name) == if name == "" then Some(h) else None
    decreases |mem| - 512 * h
  {
    assert 512 * (h + 1) <= |mem|;
    assert mem[512 * h] == '\0' && mem[512 * h + SIZE_FIELD] == '\0';
    assert Str(mem, 512 * h) == "" && SizeText(mem, h) == "";
    assert Reading("") == 0 && Octal(0) == 0;
    if name != "" && 512 * (h + 1) < |mem| { ZerosEnd(mem, h + 1, name); }
  }

  lemma NothingLeft(mem: seq<char>, h: nat, entries: seq<Entry>, name: string, end: nat)
    requires Holds(mem, h, entries) && |mem| == 512 * end && h >= end
    ensures Position(entries, h, name, end) == None
  {
  }

  lemma {:induction false} WholeRecords(mem: seq<char>, h: nat, entries: seq<Entry>)
    requires Holds(mem, h, entries)
    ensures |mem| == 512 * (|mem| / 512)
    decreases |entries|
  {
    if entries != [] { WholeRecords(mem, h + 1 + Records(|entries[0].data|), entries[1..]); }
  }

  lemma PositionStep(entries: seq<Entry>, h: nat, name: string, end: nat)
    requires entries != []
    ensures Position(entries, h, name, end) ==
            if Seen(entries[0]) == name then Some(h)
            else Position(entries[1..], h + 1 + Records(|entries[0].data|), name, end)
  {
  }

  /** One entry of the search, when the search of the rest is right. */
  lemma EntryStep(mem: seq<char>, h: nat, entries: seq<Entry>, name: string, end: nat, next: nat)
    requires entries != [] && |mem| == 512 * end && next == h + 1 + Records(|entries[0].data|)
    requires exists size :: HeaderOf(mem, h, entries[0], size)
    requires Seen(entries[0]) != name ==> SkipOk(|entries[0].data|)
    requires Seen(entries[0]) != name && next < end ==>
               Walkable(mem, next, name) && Walk(mem, next, name) == Position(entries[1..], next, name, end)
    requires Seen(entries[0]) != name && next >= end ==> Position(entries[1..], next, name, end) == None
    ensures Walkable(mem, h, name) && Walk(mem, h, name) == Position(entries, h, name, end)
  {
    hide Readable, Str, SizeText, Octal, Reading, SkipOk, Skip, Walk, Walkable, Records;
    var e := entries[0];
    var size :| HeaderOf(mem, h, e, size);
    hide HeaderOf;
    HeaderIsRead(mem, h, e, size);
    SkipExact(|e.data|);
    var reached := h + Skip(|e.data|);
    WalkStep(mem, h, name, Seen(e), |e.data|, reached);
    PositionStep(entries, h, name, end);
    hide Position;
  }

  /** The search finds the first entry with the name, or nothing, in every archive in which the
      skip is exact for the entries it passes over. */
  lemma {:induction false} FindsFirst(mem: seq<char>, h: nat, entries: seq<Entry>, name: string, end: nat)
    requires Holds(mem, h, entries) && |mem| == 512 * end && h < end
    requires SkipsOk(entries, name)
    ensures Walkable(mem, h, name) && Walk(mem, h, name) == Position(entries, h, name, end)
    decreases |entries|
  {
    if entries == [] {
      ZerosEnd(mem, h, name);
    } else {
      var e, rest := entries[0], entries[1..];
      var next := h + 1 + Records(|e.data|);
      assert Holds(mem, next, rest);
      hide HeaderOf, SkipOk, Walk, Walkable, Position, Records;
      if Seen(e) != name {
        if next < end {
          FindsFirst(mem, next, rest, name, end);
        } else {
          NothingLeft(mem, next, rest, name, end);
        }
      }
      EntryStep(mem, h, entries, name, end, next);
    }
  }

  /** `readTarfile` on an archive. */
  lemma FindsFirstEntry(mem: seq<char>, entries: seq<Entry>, name: string)
    requires Holds(mem, 0, entries) && mem != [] && SkipsOk(entries, name)
    ensures Walkable(mem, 0, name) && Walk(mem, 0, name) == Position(entries, 0, name, |mem| / 512)
  {
    WholeRecords(mem, 0, entries);
    FindsFirst(mem, 0, entries, name, |mem| / 512);
  }

  // ----- A file for which the skip is too short -----

  /** Whenever the condition fails, the record read after the header is one of the file's own data, and
      a search for the string there returns it, whatever headers follow. */
  lemma EntersData(mem: seq<char>, h: nat, e: Entry, size: string, next: nat, name: string)
    requires HeaderOf(mem, h, e, size) && !SkipOk(|e.data|) && next == h + Skip(|e.data|)
    ensures h < next < h + 1 + Records(|e.data|)
    ensures name != Seen(e) && Readable(mem, next) && Str(mem, 512 * next) == name ==>
              Walkable(mem, h, name) && Walk(mem, h, name) == Some(next)
  {
    SkipExact(|e.data|);
    HeaderIsRead(mem, h, e, size);
    hide HeaderOf, SkipOk, SizeText, Octal, Reading, Str, Skip, Records;
    WalkStep(mem, h, name, Seen(e), |e.data|, next);
    if Readable(mem, next) {
      var n := Octal(Reading(SizeText(mem, next)));
      var more: nat := next + Skip(n);
      WalkStep(mem, next, name, Str(mem, 512 * next), n, more);
    }
  }

  /** A name of 100 characters is never found unless its mode field is empty. */
  lemma LongNameIsMissed(mem: seq<char>, entries: seq<Entry>, name: string)
    requires Holds(mem, 0, entries) && mem != [] && SkipsOk(entries, name)
    requires |name| == 100 && forall e | e in entries && e.name == name :: e.mode != ""
    ensures Walkable(mem, 0, name) && Walk(mem, 0, name) == None
  {
    hide Holds, SkipsOk, Walk, Walkable, Position;
    FindsFirstEntry(mem, entries, name);
    NotSeen(entries, 0, name, |mem| / 512);
  }

  lemma {:induction false} NotSeen(entries: seq<Entry>, h: nat, name: string, end: nat)
    requires |name| == NAME_SIZE && forall e | e in entries && e.name == name :: e.mode != ""
    ensures Position(entries, h, name, end) == None
    decreases |entries|
  {
    if entries != [] {
      var e, rest := entries[0], entries[1..];
      LongName(e, name);
      assert forall x | x in rest :: x in entries;
      hide Records, Seen;
      NotSeen(rest, h + 1 + Records(|e.data|), name, end);
    }
  }

  lemma LongName(e: Entry, name: string)
    requires |name| == NAME_SIZE && (e.name == name ==> e.mode != "")
    ensures Seen(e) != name
  {
    if |e.name| == NAME_SIZE { assert Seen(e)[..NAME_SIZE] == e.name; }
  }

  // ----- The condition is needed -----

  function Zeros(n: nat): seq<char> {
    seq(n, _ => '\0')
  }

  /** Memory with the record `at` replaced by a string and zeros. */
  function WithRecord(mem: seq<char>, at: nat, name: string): (mem': seq<char>)
    requires 512 * (at + 1) <= |mem| && |name| < NAME_SIZE
    ensures |mem'| == |mem|
  {
    mem[..512 * at] + (name + Zeros(512 - |name|)) + mem[512 * (at + 1)..]
  }

  lemma OutsideRecord(mem: seq<char>, at: nat, name: string, a: nat, b: nat)
    requires 512 * (at + 1) <= |mem| && |name| < NAME_SIZE && a <= b <= |mem|
    requires b <= 512 * at || 512 * (at + 1) <= a
    ensures WithRecord(mem, at, name)[a..b] == mem[a..b]
  {
  }

  /** The new record is read as a header of that name and of no size. */
  lemma RecordIsRead(mem: seq<char>, at: nat, name: string)
    requires 512 * (at + 1) <= |mem| && |name| < NAME_SIZE && '\0' !in name
    ensures Readable(WithRecord(mem, at, name), at) && Str(WithRecord(mem, at, name), 512 * at) == name
  {
    var mem' := WithRecord(mem, at, name);
    assert mem'[512 * at..512 * at + |name|] == name;
    assert mem'[512 * at + |name|] == '\0' && mem'[512 * at + SIZE_FIELD] == '\0';
    hide WithRecord;
    StrIs(mem', 512 * at, name);
    StrIs(mem', 512 * at + SIZE_FIELD, "");
  }

  /** The file of e with other data. */
  function NewData(mem: seq<char>, h: nat, e: Entry): Entry
    requires 512 * (h + 1) + |e.data| <= |mem|
  {
    e.(data := mem[512 * (h + 1)..512 * (h + 1) + |e.data|])
  }

  /** A new record elsewhere leaves the header at h alone. */
  lemma HeaderKept(mem: seq<char>, h: nat, e: Entry, size: string, at: nat, name: string)
    requires HeaderOf(mem, h, e, size) && 512 * (at + 1) <= |mem| && |name| < NAME_SIZE && h != at
    ensures 512 * (h + 1) + |e.data| <= |mem|
    ensures var mem' := WithRecord(mem, at, name); HeaderOf(mem', h, NewData(mem', h, e), size)
    ensures at < h || at >= h + 1 + Records(|e.data|) ==> NewData(WithRecord(mem, at, name), h, e) == e
  {
    DataInMemory(mem, h, e, size);
    hide HeaderOf, WithRecord, Records;
    var mem', o := WithRecord(mem, at, name), 512 * h;
    OutsideRecord(mem, at, name, o, o + 512);
    HeaderCopied(mem, mem', h, e, NewData(mem', h, e), size);
    if at < h || at >= h + 1 + Records(|e.data|) { DataKept(mem, at, name, h, e); }
  }

  lemma DataInMemory(mem: seq<char>, h: nat, e: Entry, size: string)
    requires HeaderOf(mem, h, e, size)
    ensures 512 * (h + 1) + |e.data| <= |mem| && NewData(mem, h, e) == e
  {
  }

  lemma DataKept(mem: seq<char>, at: nat, name: string, h: nat, e: Entry)
    requires 512 * (at + 1) <= |mem| && |name| < NAME_SIZE && (at < h || at >= h + 1 + Records(|e.data|))
    requires 512 * (h + 1) + |e.data| <= |mem|
    ensures NewData(WithRecord(mem, at, name), h, e) == NewData(mem, h, e)
  {
    hide WithRecord;
    OutsideRecord(mem, at, name, 512 * (h + 1), 512 * (h + 1) + |e.data|);
  }

  lemma HeaderCopied(mem: seq<char>, mem': seq<char>, h: nat, e: Entry, e': Entry, size: string)
    requires HeaderOf(mem, h, e, size) && |mem'| == |mem|
    requires mem'[512 * h..512 * h + 512] == mem[512 * h..512 * h + 512]
    requires e'.name == e.name && e'.mode == e.mode && |e'.data| == |e.data|
    requires mem'[512 * (h + 1)..512 * (h + 1) + |e.data|] == e'.data
    ensures HeaderOf(mem', h, e', size)
  {
    hide Records, IsOctal, Value, Reading;
    var o := 512 * h;
    assert Seen(e') == Seen(e);
    hide Seen;
    SliceKept(mem, mem', o, 0, |Seen(e)|);
    SliceKept(mem, mem', o, SIZE_FIELD, SIZE_FIELD + |size|);
  }

  lemma SliceKept(mem: seq<char>, mem': seq<char>, o: nat, i: nat, j: nat)
    requires o + 512 <= |mem| == |mem'| && mem'[o..o + 512] == mem[o..o + 512] && i <= j < 512
    ensures mem'[o + i..o + j] == mem[o + i..o + j] && mem'[o + j] == mem[o + j]
  {
    forall k | o <= k < o + 512 ensures mem'[k] == mem[k] {
      assert mem'[o..o + 512][k - o] == mem[o..o + 512][k - o];
    }
  }

  lemma HeaderLater(mem: seq<char>, h: nat, e: Entry, size: string, at: nat, name: string)
    requires HeaderOf(mem, h, e, size) && 512 * (at + 1) <= |mem| && |name| < NAME_SIZE
    requires at < h || at >= h + 1 + Records(|e.data|)
    ensures HeaderOf(WithRecord(mem, at, name), h, e, size)
  {
    hide WithRecord, HeaderOf;
    HeaderKept(mem, h, e, size, at, name);
  }

  lemma {:induction false} HoldsKept(mem: seq<char>, h: nat, entries: seq<Entry>, at: nat, name: string)
    requires Holds(mem, h, entries) && 512 * (at + 1) <= |mem| && |name| < NAME_SIZE && at < h
    ensures Holds(WithRecord(mem, at, name), h, entries)
    decreases |entries|
  {
    hide WithRecord, HeaderOf, Records;
    if entries == [] {
      ZerosKept(mem, h, at, name);
    } else {
      var e, rest := entries[0], entries[1..];
      var next := h + 1 + Records(|e.data|);
      var size := HoldsParts(mem, h, entries, next);
      HeaderLater(mem, h, e, size, at, name);
      HoldsKept(mem, next, rest, at, name);
      HoldsMore(WithRecord(mem, at, name), h, entries, size, next);
    }
  }

  lemma HoldsParts(mem: seq<char>, h: nat, entries: seq<Entry>, next: nat) returns (size: string)
    requires entries != [] && Holds(mem, h, entries) && next == h + 1 + Records(|entries[0].data|)
    ensures HeaderOf(mem, h, entries[0], size) && Holds(mem, next, entries[1..])
  {
    hide HeaderOf, Records;
    size :| HeaderOf(mem, h, entries[0], size);
  }

  lemma HoldsMore(mem: seq<char>, h: nat, entries: seq<Entry>, size: string, next: nat)
    requires entries != [] && next == h + 1 + Records(|entries[0].data|)
    requires HeaderOf(mem, h, entries[0], size) && Holds(mem, next, entries[1..])
    ensures Holds(mem, h, entries)
  {
    hide HeaderOf, Records;
  }

  lemma ZerosKept(mem: seq<char>, h: nat, at: nat, name: string)
    requires Holds(mem, h, []) && 512 * (at + 1) <= |mem| && |name| < NAME_SIZE && at < h
    ensures Holds(WithRecord(mem, at, name), h, [])
  {
    OutsideRecord(mem, at, name, 512 * h, |mem|);
    var mem' := WithRecord(mem, at, name);
    forall k | 512 * h <= k < |mem'| ensures mem'[k] == '\0' {
      assert mem'[512 * h..|mem|][k - 512 * h] == mem[512 * h..|mem|][k - 512 * h];
    }
  }

  lemma {:induction false} PositionAtLeast(entries: seq<Entry>, h: nat, name: string, end: nat)
    ensures Position(entries, h, name, end).Some? ==> Position(entries, h, name, end).value >= h
    decreases |entries|
  {
    if entries != [] {
      hide Records, Seen;
      PositionAtLeast(entries[1..], h + 1 + Records(|entries[0].data|), name, end);
    }
  }

  /** The same headers, with other data of the same sizes. */
  predicate SameHeaders(a: seq<Entry>, b: seq<Entry>) {
    && |a| == |b|
    && forall i | 0 <= i < |a| :: a[i].name == b[i].name && a[i].mode == b[i].mode && |a[i].data| == |b[i].data|
  }

  /** The first entry itself fails the condition: the record read next becomes the one looked for. */
  lemma MisleadsHere(mem: seq<char>, h: nat, entries: seq<Entry>, name: string, end: nat)
    returns (at: nat, changed: seq<Entry>)
    requires Holds(mem, h, entries) && |mem| == 512 * end && |name| < NAME_SIZE && '\0' !in name
    requires entries != [] && Seen(entries[0]) != name && !SkipOk(|entries[0].data|)
    ensures h < at < end && SameHeaders(entries, changed)
    ensures var mem' := WithRecord(mem, at, name);
            && Holds(mem', h, changed) && Walkable(mem', h, name) && Walk(mem', h, name) == Some(at)
    ensures Position(changed, h, name, end) != Some(at)
  {
    hide Holds, Position, WithRecord, Records, SkipOk, Skip, Readable, Str, Walk, Walkable, Seen;
    var e, rest, next := entries[0], entries[1..], h + 1 + Records(|entries[0].data|);
    var size := HoldsParts(mem, h, entries, next);
    at := ReadNext(mem, h, e, size, next);
    hide HeaderOf;
    var mem' := WithRecord(mem, at, name);
    HeaderKept(mem, h, e, size, at, name);
    var e' := NewData(mem', h, e);
    changed := [e'] + rest;
    assert changed[1..] == rest && changed[0] == e';
    HoldsKept(mem, next, rest, at, name);
    HoldsMore(mem', h, changed, size, next);
    RecordIsRead(mem, at, name);
    SameName(e, e');
    EntersData(mem', h, e', size, at, name);
    PositionStep(changed, h, name, end);
    PositionAtLeast(rest, next, name, end);
  }

  lemma SameName(e: Entry, e': Entry)
    requires e'.name == e.name && e'.mode == e.mode
    ensures Seen(e') == Seen(e)
  {
  }

  /** Which record of the data is read next. */
  lemma ReadNext(mem: seq<char>, h: nat, e: Entry, size: string, next: nat) returns (at: nat)
    requires HeaderOf(mem, h, e, size) && !SkipOk(|e.data|) && next == h + 1 + Records(|e.data|)
    ensures h < at < next && at == h + Skip(|e.data|) && 512 * next <= |mem|
  {
    SkipExact(|e.data|);
    at := h + Skip(|e.data|);
  }

  /** The condition is needed: whenever it fails for the shape of an archive, other contents of one file's
      records make the search for the name return one of these records. What changes is one record: the
      name, and zeros behind it. */
  lemma {:induction false} Misleads(mem: seq<char>, h: nat, entries: seq<Entry>, name: string, end: nat)
    returns (at: nat, changed: seq<Entry>)
    requires Holds(mem, h, entries) && |mem| == 512 * end && |name| < NAME_SIZE && '\0' !in name
    requires !SkipsOk(entries, name)
    ensures h < at < end && SameHeaders(entries, changed)
    ensures var mem' := WithRecord(mem, at, name);
            && Holds(mem', h, changed) && Walkable(mem', h, name) && Walk(mem', h, name) == Some(at)
    ensures Position(changed, h, name, end) != Some(at)
    decreases |entries|
  {
    hide Holds, HeaderOf, Position, WithRecord, Records, SkipOk, Skip, Readable, Str, Walk, Walkable, Seen;
    var e, rest, next := entries[0], entries[1..], h + 1 + Records(|entries[0].data|);
    if !SkipOk(|e.data|) {
      at, changed := MisleadsHere(mem, h, entries, name, end);
    } else {
      var size := HoldsParts(mem, h, entries, next);
      var tail;
      at, tail := Misleads(mem, next, rest, name, end);
      changed := [e] + tail;
      assert changed[1..] == tail && changed[0] == e;
      MisleadsLater(mem, h, e, size, at, name, next);
      HoldsMore(WithRecord(mem, at, name), h, changed, size, next);
      PositionStep(changed, h, name, end);
    }
  }

  /** The search goes on from an entry for which the condition holds. */
  lemma MisleadsLater(mem: seq<char>, h: nat, e: Entry, size: string, at: nat, name: string, next: nat)
    requires HeaderOf(mem, h, e, size) && Seen(e) != name && SkipOk(|e.data|)
    requires next == h + 1 + Records(|e.data|) && next < at && 512 * (at + 1) <= |mem| && |name| < NAME_SIZE
    requires Walkable(WithRecord(mem, at, name), next, name)
    ensures var mem' := WithRecord(mem, at, name);
            HeaderOf(mem', h, e, size) && Walkable(mem', h, name) && Walk(mem', h, name) == Walk(mem', next, name)
  {
    SkipExact(|e.data|);
    hide HeaderOf, WithRecord, Records, SkipOk, Skip, Readable, Str, SizeText, Octal, Reading, Walk, Walkable, Seen;
    var mem' := WithRecord(mem, at, name);
    HeaderLater(mem, h, e, size, at, name);
    HeaderIsRead(mem', h, e, size);
    WalkStep(mem', h, name, Seen(e), |e.data|, next);
  }

  /** `readTarfile` is right for every contents of the files if and only if the condition holds. */
  lemma SkipsOkIsNeeded(mem: seq<char>, entries: seq<Entry>, name: string)
    requires Holds(mem, 0, entries) && mem != [] && |name| < NAME_SIZE && '\0' !in name
    ensures SkipsOk(entries, name) <==>
            forall mem': seq<char>, changed: seq<Entry> |
              |mem'| == |mem| && SameHeaders(entries, changed) && Holds(mem', 0, changed) ::
              Walkable(mem', 0, name) && Walk(mem', 0, name) == Position(changed, 0, name, |mem| / 512)
  {
    hide Holds, Position, Walkable, Walk;
    WholeRecords(mem, 0, entries);
    if SkipsOk(entries, name) {
      forall mem': seq<char>, changed: seq<Entry> |
        |mem'| == |mem| && SameHeaders(entries, changed) && Holds(mem', 0, changed)
        ensures Walkable(mem', 0, name) && Walk(mem', 0, name) == Position(changed, 0, name, |mem| / 512)
      {
        SameSkips(entries, changed, name);
        FindsFirstEntry(mem', changed, name);
      }
    } else {
      var at, changed := Misleads(mem, 0, entries, name, |mem| / 512);
      hide WithRecord;
      assert |WithRecord(mem, at, name)| == |mem|;
    }
  }

  lemma {:induction false} SameSkips(a: seq<Entry>, b: seq<Entry>, name: string)
    requires SameHeaders(a, b)
    ensures SkipsOk(a, name) <==> SkipsOk(b, name)
    decreases |a|
  {
    if a != [] {
      assert Seen(a[0]) == Seen(b[0]) && |a[0].data| == |b[0].data|;
      assert SameHeaders(a[1..], b[1..]);
      hide SkipOk, Seen;
      SameSkips(a[1..], b[1..], name);
    }
  }

  /** One file "a" of 1025 bytes, whose last byte is a 'b'. */
  function ShortSkipArchive(): seq<char> {
    seq(512 * 4, k requires 0 <= k => ShortSkipByte(k))
  }

  function ShortSkipByte(k: nat): char {
    if k == 0 then 'a'
    else if k == SIZE_FIELD then '2'
    else if k == SIZE_FIELD + 3 then '1'
    else if k == 512 * 3 then 'b'
    else if SIZE_FIELD < k < SIZE_FIELD + 3 then '0'
    else '\0'
  }

  lemma FourDigits(s: string)
    requires |s| == 4 && IsOctal(s)
    ensures Value(s, 8) ==
            512 * (s[0] as int - 48) + 64 * (s[1] as int - 48) + 8 * (s[2] as int - 48) + (s[3] as int - 48)
    ensures Reading(s) ==
            1000 * (s[0] as int - 48) + 100 * (s[1] as int - 48) + 10 * (s[2] as int - 48) + (s[3] as int - 48)
  {
    var t, u, v := s[..3], s[..2], s[..1];
    assert t[..2] == u && u[..1] == v && v[..0] == [];
    assert s[0] in s && s[1] in s && s[2] in s && s[3] in s;
    assert Value(v, 8) == DigitValue(s[0]) && Value(u, 8) == 8 * Value(v, 8) + DigitValue(s[1]);
    assert Reading(v) == s[0] as int - 48 && Reading(u) == 10 * Reading(v) + s[1] as int - 48;
  }

  lemma ShortSkipHeader(mem: seq<char>, data: seq<char>)
    requires mem == ShortSkipArchive() && data == mem[512..512 + 1025]
    ensures HeaderOf(mem, 0, Entry("a", "", data), "2001") && Octal(Reading("2001")) == 1025
  {
    var size := "2001";
    FourDigits(size);
    OctalOfReading(size);
    hide Value, Reading, Octal;
    assert mem[SIZE_FIELD..SIZE_FIELD + 4] == size;
  }

  lemma ShortSkipData(mem: seq<char>)
    requires mem == ShortSkipArchive()
    ensures Readable(mem, 3) && Str(mem, 512 * 3) == "b"
  {
    StrIs(mem, 512 * 3, "b");
    StrIs(mem, 512 * 3 + SIZE_FIELD, "");
  }

  lemma NothingHeld(mem: seq<char>)
    requires |mem| == 2048
    ensures Holds(mem, 4, [])
  {
  }

  lemma ShortSkipHolds(mem: seq<char>, data: seq<char>)
    requires mem == ShortSkipArchive() && data == mem[512..512 + 1025]
    ensures Holds(mem, 0, [Entry("a", "", data)])
  {
    var e := Entry("a", "", data);
    ShortSkipHeader(mem, data);
    NothingHeld(mem);
    assert [e][1..] == [];
    assert 0 + 1 + Records(|e.data|) == 4;
    hide HeaderOf, ShortSkipArchive;
  }

  /** In that archive the search for "b" finds the last byte of the data of "a". */
  lemma DataIsTakenForAHeader(mem: seq<char>, data: seq<char>)
    requires mem == ShortSkipArchive() && data == mem[512..512 + 1025]
    ensures Holds(mem, 0, [Entry("a", "", data)])
    ensures Walkable(mem, 0, "b") && Walk(mem, 0, "b") == Some(3)
    ensures Position([Entry("a", "", data)], 0, "b", 4) == None
  {
    ShortSkipHolds(mem, data);
    ShortSkipHeader(mem, data);
    HeaderIsRead(mem, 0, Entry("a", "", data), "2001");
    ShortSkipData(mem);
    assert |mem| == 2048;
    assert Skip(1025) == 3;
    hide ShortSkipArchive, HeaderOf, Readable, Str, SizeText, Octal, Reading, Holds, Skip;
    WalkStep(mem, 0, "b", "a", 1025, 3);
    var n := Octal(Reading(SizeText(mem, 3)));
    var next: nat := 3 + Skip(n);
    WalkStep(mem, 3, "b", "b", n, next);
    hide Walk, Walkable;
  }
}
