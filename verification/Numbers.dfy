/** Number conversion: itoa, atoi and octal_decimal of sys/write.c; pow and getSize of sys/math.c. */
module Numbers {
  import opened Bits

  newtype uint64 = x: int | 0 <= x < 0x1_0000_0000_0000_0000
  newtype int32 = x: int | -0x8000_0000 <= x < 0x8000_0000

  function Exp(x: int, n: nat): int {
    if n == 0 then 1 else x * Exp(x, n - 1)
  }

  // ----- Numerals -----

  function Digit(d: nat): char
    requires d < 16
  {
    if d <= 9 then '0' + d as char else 'a' + (d - 10) as char
  }

  function DigitValue(c: char): int {
    if 'a' <= c <= 'f' then c as int - 'a' as int + 10 else c as int - '0' as int
  }

  /** s is made of digits of the base. */
  predicate IsNumeral(s: string, base: nat) {
    forall c | c in s :: 0 <= DigitValue(c) < base && (c <= '9' || 'a' <= c <= 'f')
  }

  /** The number that a string of digits denotes. */
  function Value(s: string, base: nat): int {
    if s == [] then 0 else base * Value(s[..|s| - 1], base) + DigitValue(s[|s| - 1])
  }

  /** The digits of v, most significant first. */
  function Numeral(v: nat, base: nat): string
    requires 2 <= base <= 16
  {
    (if v < base then [] else Numeral(v / base, base)) + [Digit(v % base)]
  }

  function Zeros(n: int): string {
    if n <= 0 then [] else ['0'] + Zeros(n - 1)
  }

  /** What `itoa` leaves in its buffer: nothing for an unsupported base, sixteen digits in base 16. */
  function Text(v: nat, base: nat): string {
    if base < 2 || base > 16 then []
    else if base == 16 then Zeros(16 - |Numeral(v, base)|) + Numeral(v, base)
    else Numeral(v, base)
  }

  lemma DigitMeaning(d: nat)
    requires d < 16
    ensures DigitValue(Digit(d)) == d && Digit(d) == "0123456789abcdef"[d]
    ensures Digit(d) <= '9' || 'a' <= Digit(d) <= 'f'
    ensures Digit(d) == '0' <==> d == 0
  {
  }

  /** A digit string denotes the sum of its digits, each at its power of the base. */
  lemma {:induction false} ValueOfConcat(s: string, t: string, base: nat)
    ensures Value(s + t, base) == Value(s, base) * Exp(base, |t|) + Value(t, base)
    ensures forall d: nat | d < 16 :: Value(["0123456789abcdef"[d]], base) == d
    decreases |t|
  {
    forall d: nat | d < 16 ensures Value(["0123456789abcdef"[d]], base) == d {
      DigitMeaning(d);
      ValueSnoc([], Digit(d), base);
      EmptyValue(base);
    }
    if t == [] {
      assert s + t == s;
    } else {
      var u, c := t[..|t| - 1], t[|t| - 1];
      assert s + t == (s + u) + [c] && t == u + [c];
      ValueOfConcat(s, u, base);
      ValueSnoc(s + u, c, base);
      ValueSnoc(u, c, base);
      Distribute(base, Value(s, base), Exp(base, |u|), Value(u, base));
    }
  }

  lemma Distribute(b: int, x: int, e: int, y: int)
    ensures b * (x * e + y) == x * (b * e) + b * y
  {
  }

  /** q and r are the quotient and the remainder of v. */
  predicate Splits(v: nat, base: nat, q: nat, r: nat) {
    v == base * q + r && r < base
  }

  lemma QuotientSplits(v: nat, base: nat)
    requires base > 0
    ensures Splits(v, base, v / base, v % base)
  {
  }

  lemma SmallerQuotient(v: nat, base: nat, q: nat, r: nat)
    requires 2 <= base && Splits(v, base, q, r)
    ensures r < base && (v > 0 ==> q < v) && (q == 0 <==> v < base)
  {
    if q > 0 { assert base * q >= 2 * q; }
  }

  /** One turn of the digit loop. */
  lemma NumeralStep(v: nat, base: nat, q: nat, r: nat)
    requires 2 <= base <= 16 && Splits(v, base, q, r)
    ensures r < base
    ensures Numeral(v, base) == (if q == 0 then [] else Numeral(q, base)) + [Digit(r)]
  {
    SmallerQuotient(v, base, q, r);
    DivModUnique(v, base, q, r);
  }

  lemma ValueSnoc(s: string, c: char, base: nat)
    ensures Value(s + [c], base) == base * Value(s, base) + DigitValue(c)
  {
    assert (s + [c])[..|s|] == s;
  }

  lemma NumeralSnoc(v: nat, base: nat, q: nat, r: nat)
    requires 2 <= base <= 16 && Splits(v, base, q, r)
    requires q > 0 ==> Value(Numeral(q, base), base) == q && IsNumeral(Numeral(q, base), base)
    requires q > 0 ==> |Numeral(q, base)| > 0 && Numeral(q, base)[0] != '0'
    ensures Value(Numeral(v, base), base) == v && IsNumeral(Numeral(v, base), base)
    ensures |Numeral(v, base)| > 0 && (v > 0 ==> Numeral(v, base)[0] != '0')
  {
    hide Numeral, Digit, DigitValue, Value, Splits;
    NumeralStep(v, base, q, r);
    SmallerQuotient(v, base, q, r);
    DigitMeaning(r);
    var high := if q == 0 then [] else Numeral(q, base);
    EmptyValue(base);
    ValueOfSplit(v, base, q, r, high, Digit(r));
    if q == 0 { ZeroSplits(v, base, q, r); }
  }

  lemma ZeroSplits(v: nat, base: nat, q: nat, r: nat)
    requires Splits(v, base, q, r) && q == 0
    ensures v == r
  {
  }

  lemma ValueOfSplit(v: nat, base: nat, q: nat, r: nat, high: string, c: char)
    requires Splits(v, base, q, r) && Value(high, base) == q && DigitValue(c) == r
    ensures Value(high + [c], base) == v
  {
    ValueSnoc(high, c, base);
  }

  lemma EmptyValue(base: nat)
    ensures Value([], base) == 0
  {
  }

  lemma {:induction false} NumeralMeaning(v: nat, base: nat)
    requires 2 <= base <= 16
    ensures Value(Numeral(v, base), base) == v && IsNumeral(Numeral(v, base), base)
    ensures |Numeral(v, base)| > 0 && (v > 0 ==> Numeral(v, base)[0] != '0')
    decreases v
  {
    var q, r := v / base, v % base;
    QuotientSplits(v, base);
    SmallerQuotient(v, base, q, r);
    hide Numeral, Splits;
    if q > 0 { NumeralMeaning(q, base); }
    NumeralSnoc(v, base, q, r);
  }

  /** A number below base^k has at most k digits. */
  lemma {:induction false} NumeralIsShort(v: nat, base: nat, k: nat)
    requires 2 <= base <= 16 && k > 0 && v < Exp(base, k)
    ensures |Numeral(v, base)| <= k
    decreases v
  {
    hide Numeral, Splits, Exp;
    var q, r := SplitOf(v, base);
    NumeralStep(v, base, q, r);
    SmallerQuotient(v, base, q, r);
    QuotientBelow(v, base, q, r, k);
    if q > 0 { NumeralIsShort(q, base, k - 1); }
  }

  lemma SplitOf(v: nat, base: nat) returns (q: nat, r: nat)
    requires base > 0
    ensures Splits(v, base, q, r)
  {
    q, r := v / base, v % base;
    QuotientSplits(v, base);
  }

  lemma MulLess(m: int, a: int, b: int)
    requires m > 0 && m * a < m * b
    ensures a < b
  {
  }

  lemma QuotientBelow(v: nat, base: nat, q: nat, r: nat, k: nat)
    requires base > 0 && Splits(v, base, q, r) && k > 0 && v < Exp(base, k)
    ensures q < Exp(base, k - 1) && (q > 0 ==> k > 1)
  {
    MulLess(base, q, Exp(base, k - 1));
  }

  lemma {:induction false} LeadingZero(s: string, base: nat)
    ensures Value(['0'] + s, base) == Value(s, base)
  {
    if s == [] {
      assert (['0'] + s)[..0] == [];
    } else {
      var t := ['0'] + s;
      assert t[..|t| - 1] == ['0'] + s[..|s| - 1];
      LeadingZero(s[..|s| - 1], base);
    }
  }

  lemma {:induction false} ZerosMeaning(n: int, s: string, base: nat)
    ensures Value(Zeros(n) + s, base) == Value(s, base) && |Zeros(n)| == (if n < 0 then 0 else n)
    ensures forall c | c in Zeros(n) :: c == '0'
    decreases if n < 0 then 0 else n
  {
    if n <= 0 {
      assert Zeros(n) + s == s;
    } else {
      assert Zeros(n) + s == ['0'] + (Zeros(n - 1) + s);
      LeadingZero(Zeros(n - 1) + s, base);
      ZerosMeaning(n - 1, s, base);
    }
  }

  /** `itoa` writes digits that denote its argument: sixteen in base 16, else no leading zero except
      for zero itself. The text holds no NUL, so it is what a reader of the C string sees. */
  lemma TextMeaning(v: nat, base: nat)
    requires 2 <= base <= 16 && v < 0x1_0000_0000_0000_0000
    ensures Value(Text(v, base), base) == v && IsNumeral(Text(v, base), base) && '\0' !in Text(v, base)
    ensures |Text(v, base)| > 0
    ensures base == 16 ==> |Text(v, base)| == 16
    ensures base != 16 && v > 0 ==> Text(v, base)[0] != '0'
    ensures base != 16 && v == 0 ==> Text(v, base) == "0"
  {
    NumeralMeaning(v, base);
    if base == 16 {
      assert Exp(16, 16) == 0x1_0000_0000_0000_0000 by { SixteenPower(); }
      NumeralIsShort(v, 16, 16);
      ZerosMeaning(16 - |Numeral(v, 16)|, Numeral(v, 16), 16);
    }
  }

  lemma SixteenPower()
    ensures Exp(16, 16) == 0x1_0000_0000_0000_0000
  {
    assert Exp(16, 4) == 0x1_0000;
    assert Exp(16, 8) == 0x1_0000_0000;
    assert Exp(16, 12) == 0x1_0000_0000_0000;
  }

  lemma TextIsLonger(v: nat, base: nat)
    requires 2 <= base <= 16
    ensures |Numeral(v, base)| <= |Text(v, base)| && (base == 16 ==> 16 <= |Text(v, base)|)
    ensures var n := |Numeral(v, base)|;
            Text(v, base) == Zeros(if base == 16 && n < 16 then 16 - n else 0) + Numeral(v, base)
  {
    hide Numeral, Zeros, Value;
    var n := |Numeral(v, base)|;
    ZerosMeaning(16 - n, [], base);
    NoZeros(Numeral(v, base));
    if n >= 16 { FewZeros(16 - n); }
  }

  lemma FewZeros(n: int)
    requires n <= 0
    ensures Zeros(n) == Zeros(0)
  {
  }

  // ----- itoa -----

  function Reversed(s: string): string {
    if s == [] then [] else Reversed(s[1..]) + [s[0]]
  }

  lemma {:induction false} ReversedMeaning(s: string)
    ensures |Reversed(s)| == |s| && forall k | 0 <= k < |s| :: Reversed(s)[k] == s[|s| - 1 - k]
  {
    if s != [] { ReversedMeaning(s[1..]); }
  }

  lemma {:induction false} ReversedSnoc(s: string, c: char)
    ensures Reversed(s + [c]) == [c] + Reversed(s)
  {
    if s == [] {
      assert [c][1..] == [];
    } else {
      assert (s + [c])[1..] == s[1..] + [c];
      ReversedSnoc(s[1..], c);
    }
  }

  /** The final loop of `itoa`: low and high move towards each other and swap. */
  method ReverseInPlace(str: array<char>, n: nat)
    requires n < str.Length
    modifies str
    ensures str[..n] == Reversed(old(str[..n])) && forall k | n <= k < str.Length :: str[k] == old(str[k])
  {
    ghost var was := str[..n];
    var low, high := 0, n - 1;
    while low < high
      invariant 0 <= low <= n && high == n - 1 - low && low <= high + 1
      invariant forall k | 0 <= k < low :: str[k] == was[n - 1 - k] && str[n - 1 - k] == was[k]
      invariant forall k | low <= k <= high :: str[k] == was[k]
      invariant forall k | n <= k < str.Length :: str[k] == old(str[k])
    {
      str[low], str[high] := str[high], str[low];
      low, high := low + 1, high - 1;
    }
    ReversedMeaning(was);
  }

  /** `value % base` */
  function Remainder(value: uint64, base: uint64): nat
    requires base > 0
  {
    (value % base) as int
  }

  /** `value / base` */
  function Quotient(value: uint64, base: uint64): uint64
    requires base > 0
  {
    value / base
  }

  lemma DivisionSplits(value: uint64, base: uint64)
    requires base > 0
    ensures Splits(value as int, base as int, Quotient(value, base) as int, Remainder(value, base))
  {
    QuotientSplits(value as int, base as int);
  }

  /** The branch of `itoa` that turns a digit into a character. */
  method PutDigit(str: array<char>, at: nat, d: nat)
    requires at < str.Length && d < 16
    modifies str
    ensures str[at] == Digit(d) && forall k | 0 <= k < str.Length && k != at :: str[k] == old(str[k])
  {
    if d <= 9 {
      str[at] := d as char + '0';
    } else {
      str[at] := d as char + 'a' - 10 as char;
    }
  }

  /** The digit loop of `itoa`: least significant digit first. `ptr` counts the characters. */
  method WriteDigits(value: uint64, str: array<char>, base: uint64) returns (ptr: nat)
    requires 2 <= base <= 16 && |Numeral(value as int, base as int)| < str.Length
    modifies str
    ensures ptr < str.Length && Reversed(str[..ptr]) == Numeral(value as int, base as int)
    ensures forall k | ptr <= k < str.Length :: str[k] == old(str[k])
  {
    ghost var b, all, was := base as int, Numeral(value as int, base as int), str[..];
    hide Numeral, Reversed, Splits, Remainder, Quotient, Digit;
    var v := value;
    ptr := 0;
    ghost var written := "";
    assert Reversed(written) == [] by { ReversedMeaning(written); }
    while true
      invariant ptr == |written| < str.Length && (v > 0 || ptr == 0)
      invariant forall k | 0 <= k < ptr :: str[k] == written[k]
      invariant forall k | ptr <= k < str.Length :: str[k] == was[k]
      invariant all == Numeral(v as int, b) + Reversed(written)
      decreases v
    {
      ghost var v0 := v as int;
      DivisionSplits(v, base);
      var d := Remainder(v, base);
      v := Quotient(v, base);
      DigitWritten(all, v0, b, v as int, d, written);
      DigitFits(all, v0, b, v as int, d, written);
      written := written + [Digit(d)];
      PutDigit(str, ptr, d);
      ptr := ptr + 1;
      if v == 0 { break; }
    }
    assert str[..ptr] == written;
  }

  lemma DigitWritten(all: string, v: nat, base: nat, q: nat, r: nat, before: string)
    requires 2 <= base <= 16 && Splits(v, base, q, r)
    requires all == Numeral(v, base) + Reversed(before)
    ensures r < base && all == (if q == 0 then [] else Numeral(q, base)) + Reversed(before + [Digit(r)])
  {
    hide Numeral, Reversed, Digit, Splits;
    NumeralStep(v, base, q, r);
    ReversedSnoc(before, Digit(r));
    ghost var high := if q == 0 then [] else Numeral(q, base);
    assert (high + [Digit(r)]) + Reversed(before) == high + ([Digit(r)] + Reversed(before));
  }

  lemma DigitFits(all: string, v: nat, base: nat, q: nat, r: nat, before: string)
    requires 2 <= base <= 16 && Splits(v, base, q, r)
    requires all == Numeral(v, base) + Reversed(before)
    ensures (v > 0 ==> q < v) && |before| < |all| && (q > 0 ==> |before| + 1 < |all|)
  {
    hide Numeral, Reversed, Digit, Splits;
    SmallerQuotient(v, base, q, r);
    NumeralStep(v, base, q, r);
    ReversedMeaning(before);
    if q > 0 { NumeralNotEmpty(q, base); }
  }

  lemma NumeralNotEmpty(v: nat, base: nat)
    requires 2 <= base <= 16
    ensures |Numeral(v, base)| > 0
  {
  }

  /** The padding loop of `itoa`. The count of the digit loop is `ptr`. */
  method Pad(str: array<char>, n: nat, base: uint64) returns (ptr: nat)
    requires n < str.Length && (base == 16 ==> 16 < str.Length)
    modifies str
    ensures ptr == (if base == 16 && n < 16 then 16 else n) && ptr < str.Length
    ensures Reversed(str[..ptr]) == Zeros(ptr - n) + Reversed(old(str[..n]))
    ensures forall k | ptr <= k < str.Length :: str[k] == old(str[k])
  {
    hide Reversed, Zeros;
    var count := n;
    ptr := n;
    ghost var was, digits, padded := str[..], str[..n], str[..n];
    NoZeros(Reversed(digits));
    while true
      invariant n <= ptr == |padded| < str.Length && count == ptr && (ptr > n ==> base == 16 && ptr <= 16)
      invariant forall k | 0 <= k < ptr :: str[k] == padded[k]
      invariant forall k | ptr <= k < str.Length :: str[k] == was[k]
      invariant Reversed(padded) == Zeros(ptr - n) + Reversed(digits)
      decreases 16 - ptr as int
    {
      var more := count < 16;
      count := count + 1;
      if !(more && base == 16) { break; }
      OneZeroMore(padded, ptr - n, Reversed(digits));
      padded := padded + ['0'];
      str[ptr] := '0';
      ptr := ptr + 1;
    }
    assert str[..ptr] == padded;
  }

  lemma NoZeros(s: string)
    ensures Zeros(0) + s == s
  {
  }

  lemma OneZeroMore(padded: string, n: nat, s: string)
    requires Reversed(padded) == Zeros(n) + s
    ensures Reversed(padded + ['0']) == Zeros(n + 1) + s
  {
    ReversedSnoc(padded, '0');
    assert ['0'] + (Zeros(n) + s) == (['0'] + Zeros(n)) + s;
  }

  /** The conversion and the padding of `itoa`. */
  method WriteReversed(value: uint64, str: array<char>, base: uint64) returns (ptr: nat)
    requires 2 <= base <= 16 && |Text(value as int, base as int)| < str.Length
    modifies str
    ensures ptr == |Text(value as int, base as int)| && Reversed(str[..ptr]) == Text(value as int, base as int)
    ensures forall k | ptr <= k < str.Length :: str[k] == old(str[k])
  {
    hide Numeral, Reversed, Text, Zeros;
    TextIsLonger(value as int, base as int);
    var n := WriteDigits(value, str, base);
    assert n == |Numeral(value as int, base as int)| by { ReversedMeaning(str[..n]); }
    ptr := Pad(str, n, base);
    ReversedMeaning(str[..ptr]);
  }

  /** `itoa`: the text and a NUL at the start of the buffer, and the rest of the buffer as it was. */
  method Itoa(value: uint64, str: array<char>, base: uint64) returns (rc: array<char>)
    requires |Text(value as int, base as int)| < str.Length
    modifies str
    ensures rc == str
    ensures var t := Text(value as int, base as int);
            str[..|t|] == t && str[|t|] == '\0' && forall k | |t| < k < str.Length :: str[k] == old(str[k])
    ensures base < 2 || base > 16 ==> str[0] == '\0' && forall k | 0 < k < str.Length :: str[k] == old(str[k])
  {
    if base < 2 || base > 16 {
      str[0] := '\0';
      return str;
    }
    hide Reversed, Text;
    var ptr := WriteReversed(value, str, base);
    ghost var written := str[..ptr];
    str[ptr] := '\0';
    assert str[..ptr] == written;
    ReverseInPlace(str, ptr);
    return str;
  }

  // ----- atoi -----

  const INT_MAX: int := 0x7fff_ffff

  /** The decimal reading of s; any character counts as its code less that of '0'. */
  function Reading(s: string): int {
    if s == [] then 0 else 10 * Reading(s[..|s| - 1]) + s[|s| - 1] as int - '0' as int
  }

  predicate InInt(x: int) {
    -0x8000_0000 <= x <= INT_MAX
  }

  /** Every character counts ten times as much as the next. */
  lemma {:induction false} ReadingOfConcat(s: string, t: string)
    ensures Reading(s + t) == Reading(s) * Exp(10, |t|) + Reading(t)
    ensures forall c: char :: Reading([c]) == c as int - 48
    decreases |t|
  {
    if t == [] {
      assert s + t == s;
    } else {
      var u, c := t[..|t| - 1], t[|t| - 1];
      assert (s + t)[..|s + t| - 1] == s + u;
      ReadingOfConcat(s, u);
      Distribute(10, Reading(s), Exp(10, |u|), Reading(u));
    }
  }

  /** No step of `atoi` leaves the range of int: 8k, 2k, 10k, 10k + c and 10k + c - '0'. */
  predicate AtoiFits(s: string) {
    s == [] ||
    var k, c := Reading(s[..|s| - 1]), s[|s| - 1] as int;
    AtoiFits(s[..|s| - 1]) && InInt(8 * k) && InInt(2 * k) && InInt(10 * k) && InInt(10 * k + c) && InInt(Reading(s))
  }

  predicate IsDecimal(s: string) {
    forall c | c in s :: '0' <= c <= '9'
  }

  /** `atoi`, where s holds the characters before the NUL; every step is in `int32`. */
  method Atoi(s: string) returns (k: int32)
    requires AtoiFits(s) && forall c | c in s :: c as int < 128
    ensures k as int == Reading(s)
  {
    k := 0;
    var p := 0;
    assert s[..|s|] == s;
    while p < |s|
      invariant 0 <= p <= |s| && k as int == Reading(s[..p])
    {
      PrefixFits(s, p + 1);
      assert s[..p + 1][..p] == s[..p] && s[..p + 1][p] == s[p];
      k := 8 * k + 2 * k + s[p] as int32 - '0' as int32;
      p := p + 1;
    }
  }

  lemma {:induction false} PrefixFits(s: string, p: nat)
    requires AtoiFits(s) && p <= |s|
    ensures AtoiFits(s[..p])
    decreases |s|
  {
    if p < |s| {
      PrefixFits(s[..|s| - 1], p);
      assert s[..|s| - 1][..p] == s[..p];
    } else {
      assert s[..p] == s;
    }
  }

  /** On decimal digits `atoi` stays in range exactly up to 2147483599: the code of the last digit is
      added before '0' is subtracted. */
  lemma {:induction false} AtoiSafe(s: string)
    requires IsDecimal(s)
    ensures Reading(s) >= 0
    ensures AtoiFits(s) <==> Reading(s) <= INT_MAX - '0' as int
  {
    if s != [] {
      assert s[|s| - 1] in s;
      var t := s[..|s| - 1];
      assert forall c | c in t :: c in s;
      AtoiSafe(t);
    }
  }

  lemma {:induction false} ReadingIsValue(s: string)
    requires IsDecimal(s)
    ensures Reading(s) == Value(s, 10)
  {
    if s != [] {
      assert s[|s| - 1] in s;
      var t := s[..|s| - 1];
      assert forall c | c in t :: c in s;
      ReadingIsValue(t);
    }
  }

  lemma NumeralIsDecimal(s: string)
    requires IsNumeral(s, 10)
    ensures IsDecimal(s)
  {
  }

  /** `atoi` undoes `itoa` in base 10, without overflow exactly up to 2147483599. */
  lemma AtoiUndoesItoa(v: nat)
    requires v < 0x1_0000_0000_0000_0000
    ensures Reading(Text(v, 10)) == v
    ensures AtoiFits(Text(v, 10)) <==> v <= 2147483599
  {
    TextMeaning(v, 10);
    var t := Text(v, 10);
    hide Text, Value, Reading, AtoiFits;
    NumeralIsDecimal(t);
    ReadingIsValue(t);
    AtoiSafe(t);
  }

  // ----- pow and octal_decimal -----

  /** Division and remainder of C: the quotient is truncated towards zero. */
  function Div(a: int, b: int): int
    requires b > 0
  {
    if a >= 0 then a / b else -(-a / b)
  }

  function Mod(a: int, b: int): int
    requires b > 0
  {
    if a >= 0 then a % b else -(-a % b)
  }

  function Abs(x: int): nat {
    if x < 0 then -x else x
  }

  /** `pow` */
  function Pow(x: int, y: int): int
    decreases Abs(y)
  {
    if y == 0 then 1
    else if Mod(y, 2) == 0 then Pow(x, Div(y, 2)) * Pow(x, Div(y, 2))
    else x * Pow(x, Div(y, 2)) * Pow(x, Div(y, 2))
  }

  /** `pow` by halving is the power by the size of the exponent: the sign of the exponent is lost. */
  lemma {:induction false} PowMeaning(x: int, y: int)
    ensures Pow(x, y) == Exp(x, Abs(y))
    decreases Abs(y)
  {
    if y != 0 {
      var h := Abs(Div(y, 2));
      PowMeaning(x, Div(y, 2));
      ExpAdd(x, h, h);
      assert Abs(y) == if Mod(y, 2) == 0 then h + h else h + h + 1;
      if Mod(y, 2) != 0 {
        assert Exp(x, h + h + 1) == x * Exp(x, h + h);
        Associate(x, Exp(x, h));
      }
    }
  }

  lemma Associate(x: int, p: int)
    ensures x * p * p == x * (p * p)
  {
  }

  lemma {:induction false} ExpAdd(x: int, m: nat, n: nat)
    ensures Exp(x, m + n) == Exp(x, m) * Exp(x, n)
  {
    if m > 0 {
      ExpAdd(x, m - 1, n);
      Multiply(x, Exp(x, m - 1), Exp(x, n));
    }
  }

  lemma Multiply(a: int, b: int, c: int)
    ensures a * (b * c) == a * b * c
  {
  }

  /** No product in the evaluation of `pow` leaves the range of int. */
  predicate PowFits(x: int, y: int)
    decreases Abs(y)
  {
    y == 0 ||
    var p := Pow(x, Div(y, 2));
    PowFits(x, Div(y, 2)) && if Mod(y, 2) == 0 then InInt(p * p) else InInt(x * p) && InInt(x * p * p)
  }

  /** `pow` overflows somewhere exactly if its result is out of range. */
  lemma {:induction false} PowOverflow(x: int, y: int)
    requires InInt(x)
    ensures PowFits(x, y) <==> InInt(Pow(x, y))
    decreases Abs(y)
  {
    if y != 0 {
      var p := Pow(x, Div(y, 2));
      PowOverflow(x, Div(y, 2));
      PowMeaning(x, Div(y, 2));
      ExpSize(x, Abs(Div(y, 2)));
      if Mod(y, 2) == 0 { SquareFits(p); } else { OddFits(x, p); }
    }
  }

  lemma {:induction false} ExpSize(x: int, n: nat)
    ensures n > 0 && Abs(x) >= 2 ==> Abs(Exp(x, n)) >= 2
    ensures n == 0 ==> Exp(x, n) == 1
    ensures x == 0 ==> 0 <= Exp(x, n) <= 1
  {
    if n > 0 {
      ExpSize(x, n - 1);
      if n > 1 && Abs(x) >= 2 { ProductSize(x, Exp(x, n - 1)); }
    }
  }

  lemma AbsProduct(x: int, p: int)
    ensures Abs(x * p) == Abs(x) * Abs(p)
  {
    assert x * p == -x * -p == -(-x * p) == -(x * -p);
  }

  lemma ProductSize(x: int, p: int)
    requires x != 0 && p != 0
    ensures Abs(x * p) >= Abs(x) && Abs(x * p) >= Abs(p)
  {
    AbsProduct(x, p);
    AtLeastFactors(Abs(x), Abs(p));
  }

  lemma AtLeastFactors(a: nat, b: nat)
    requires a > 0 && b > 0
    ensures a * b >= a && a * b >= b
  {
  }

  lemma SquareFits(p: int)
    ensures InInt(p * p) ==> InInt(p)
  {
    if p != 0 { ProductSize(p, p); }
  }

  lemma OddFits(x: int, p: int)
    requires InInt(x) && (Abs(x) >= 2 ==> p != -1) && (x == 0 ==> 0 <= p <= 1)
    ensures InInt(x * p * p) ==> InInt(p) && InInt(x * p)
  {
    if x != 0 && p != 0 {
      Associate(x, p);
      ProductSize(x, p);
      ProductSize(x * p, p);
      if Abs(p) >= 2 { TwiceAsBig(x * p, p); } else { assert p == 1 || p == -1; }
    }
  }

  lemma TwiceAsBig(a: int, p: int)
    requires Abs(p) >= 2
    ensures Abs(a * p) >= 2 * Abs(a)
  {
    AbsProduct(a, p);
    TwiceAtLeast(Abs(a), Abs(p));
  }

  lemma TwiceAtLeast(a: nat, b: nat)
    requires b >= 2
    ensures a * b >= 2 * a
  {
  }

  /** `pow` in `int32`. */
  function PowInt(x: int32, y: int32): (r: int32)
    requires PowFits(x as int, y as int)
    ensures r as int == Pow(x as int, y as int)
    decreases Abs(y as int)
  {
    if y == 0 then 1
    else
      var h := Div(y as int, 2) as int32;
      if Mod(y as int, 2) == 0 then PowInt(x, h) * PowInt(x, h) else x * PowInt(x, h) * PowInt(x, h)
  }

  lemma {:induction false} ExpGrows(x: int, n: nat)
    requires x >= 2
    ensures Exp(x, n) > n
  {
    if n > 0 {
      ExpGrows(x, n - 1);
      TwiceAtLeast(Exp(x, n - 1), x);
    }
  }

  /** The decimal digits of n read in base 8. */
  function Octal(n: int): int
    decreases Abs(n)
  {
    if n == 0 then 0 else Mod(n, 10) + 8 * Octal(Div(n, 10))
  }

  /** Reading the decimal numeral of s in base 8 is reading s in base 8. */
  lemma {:induction false} OctalOfReading(s: string)
    requires IsDecimal(s)
    ensures Reading(s) >= 0 && Octal(Reading(s)) == Value(s, 8)
  {
    if s != [] {
      var t, d := s[..|s| - 1], s[|s| - 1] as int - '0' as int;
      assert s[|s| - 1] in s;
      assert forall c | c in t :: c in s;
      OctalOfReading(t);
      DivModUnique(Reading(s), 10, Reading(t), d);
    }
  }

  /** A negative number has the octal reading of its size, negated. */
  lemma {:induction false} OctalOfNegative(n: int)
    ensures Octal(-n) == -Octal(n)
    decreases Abs(n)
  {
    if n != 0 { OctalOfNegative(Div(n, 10)); }
  }

  /** The octal reading of n is no larger than n, so `octal_decimal` cannot overflow. */
  lemma {:induction false} OctalIsSmaller(n: int)
    ensures n >= 0 ==> 0 <= Octal(n) <= n
    ensures n <= 0 ==> n <= Octal(n) <= 0
    decreases Abs(n)
  {
    if n != 0 { OctalIsSmaller(Div(n, 10)); }
  }

  /** Before a turn of the loop of `octal_decimal`: `decimal` holds the digits read, m the others,
      and e is the power of eight. All that is left to add has the sign of n. */
  predicate Reads(n: int, decimal: int, m: int, e: int) {
    && e > 0 && Octal(n) == decimal + e * Octal(m)
    && (n >= 0 ==> decimal >= 0 && m >= 0) && (n <= 0 ==> decimal <= 0 && m <= 0)
    && e * Abs(m) <= Abs(n) && (e == 1 || m == 0 || e * Abs(m) < Abs(n))
  }

  lemma TurnFits(n: int, decimal: int, m: int, e: int)
    requires Reads(n, decimal, m, e) && m != 0 && InInt(n)
    ensures InInt(e) && InInt(Mod(m, 10) * e) && InInt(decimal + Mod(m, 10) * e)
    ensures Reads(n, decimal + Mod(m, 10) * e, Div(m, 10), 8 * e)
  {
    var r, q := Mod(m, 10), Div(m, 10);
    assert m == 10 * q + r && (m >= 0 ==> q >= 0 && r >= 0) && (m <= 0 ==> q <= 0 && r <= 0);
    assert Octal(m) == r + 8 * Octal(q);
    OctalIsSmaller(n);
    OctalIsSmaller(q);
    hide Octal, Mod, Div;
    TurnArithmetic(e, r, Octal(q), m, q);
    assert e * Octal(m) == r * e + 8 * e * Octal(q);
  }

  lemma TurnArithmetic(e: int, r: int, o: int, m: int, q: int)
    requires e > 0 && m != 0 && m == 10 * q + r
    requires (m >= 0 ==> q >= 0 && r >= 0 && o >= 0) && (m <= 0 ==> q <= 0 && r <= 0 && o <= 0)
    ensures e * (r + 8 * o) == r * e + 8 * e * o
    ensures (m >= 0 ==> r * e >= 0 && 8 * e * o >= 0) && (m <= 0 ==> r * e <= 0 && 8 * e * o <= 0)
    ensures 8 * e * Abs(q) < e * Abs(m) && e <= e * Abs(m)
  {
    var a, b := Abs(m), Abs(q);
    assert 8 * b < a;
    assert e * (8 * b) < e * a;
    assert e * (r + 8 * o) == e * r + e * (8 * o);
    assert e * (8 * o) == 8 * e * o && e * (8 * b) == 8 * e * b;
  }

  /** `octal_decimal`: its value for every int, with every step in `int32`. */
  method OctalDecimal(n: int32) returns (decimal: int32)
    ensures decimal as int == Octal(n as int)
  {
    decimal := 0;
    var m, i: int32 := n, 0;
    hide Octal, Mod, Div;
    while m != 0
      invariant i >= 0 && Reads(n as int, decimal as int, m as int, Exp(8, i as int))
      decreases Abs(m as int)
    {
      TurnFits(n as int, decimal as int, m as int, Exp(8, i as int));
      ExpGrows(8, i as int);
      EightFits(i as int);
      DivSmaller(m as int);
      hide Reads, Pow, PowFits;
      var rem := Mod(m as int, 10) as int32;
      m := Div(m as int, 10) as int32;
      decimal := decimal + rem * PowInt(8, i);
      i := i + 1;
    }
    OctalOfZero();
  }

  lemma EightFits(i: nat)
    requires InInt(Exp(8, i))
    ensures PowFits(8, i) && Pow(8, i) == Exp(8, i)
  {
    PowMeaning(8, i);
    PowOverflow(8, i);
  }

  lemma OctalOfZero()
    ensures Octal(0) == 0
  {
  }

  lemma DivSmaller(m: int)
    requires m != 0 && InInt(m)
    ensures InInt(Div(m, 10)) && InInt(Mod(m, 10)) && Abs(Div(m, 10)) < Abs(m)
  {
  }

  lemma ReadsStart(n: int)
    ensures Exp(8, 0) == 1 && Reads(n, 0, n, Exp(8, 0))
  {
  }

  lemma ReadsEnd(n: int, decimal: int, e: int)
    requires Reads(n, decimal, 0, e)
    ensures decimal == Octal(n)
  {
  }

  lemma EightTimesMore(i: nat)
    ensures Exp(8, i + 1) == 8 * Exp(8, i)
  {
  }

  /** `getSize`: a loop that reads decimal digits, then one that reads the number's digits in base 8,
      with every step in `int32`. */
  method GetSize(p: string) returns (decimal: int32)
    requires AtoiFits(p) && forall c | c in p :: c as int < 128
    ensures decimal as int == Octal(Reading(p))
  {
    var k: int32, q := 0, 0;
    assert p[..|p|] == p;
    while q < |p|
      invariant 0 <= q <= |p| && k as int == Reading(p[..q])
    {
      PrefixFits(p, q + 1);
      assert p[..q + 1][..q] == p[..q] && p[..q + 1][q] == p[q];
      k := 8 * k + 2 * k + p[q] as int32 - '0' as int32;
      q := q + 1;
    }
    assert p[..q] == p;
    hide Octal, Mod, Div, AtoiFits, Reading, Reads, Exp, Pow, PowFits;
    ghost var n := k as int;
    ReadsStart(n);
    decimal := 0;
    var i: int32, rem: int32 := 0, 0;
    while k != 0
      invariant i >= 0 && Reads(n, decimal as int, k as int, Exp(8, i as int))
      decreases Abs(k as int)
    {
      TurnFits(n, decimal as int, k as int, Exp(8, i as int));
      ExpGrows(8, i as int);
      EightFits(i as int);
      DivSmaller(k as int);
      EightTimesMore(i as int);
      rem := Mod(k as int, 10) as int32;
      k := Div(k as int, 10) as int32;
      decimal := decimal + rem * PowInt(8, i);
      i := i + 1;
    }
    ReadsEnd(n, decimal as int, Exp(8, i as int));
  }
}
