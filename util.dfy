/** String helpers of util.c: the decimal converters built on strtol/strtoll,
    in-place ASCII lowercasing and the substring test.

    A C string is modelled by the characters before its terminating NUL, so the
    end of a Dafny sequence plays the role of '\0' (except in StrLower, which
    works on a character array and stops at the first NUL itself). */
module Util {
  import opened Wrappers

  const UINT16_MAX: int := 65535
  const UINT32_MAX: int := 4294967295
  const INT64_MAX: int := 0x7FFF_FFFF_FFFF_FFFF
  const INT64_MIN: int := -0x8000_0000_0000_0000

  // ---------------------------------------------------------------------------
  // Decimal digits

  predicate IsDigit(c: char) {
    '0' <= c <= '9'
  }

  predicate AllDigits(s: string) {
    forall i :: 0 <= i < |s| ==> IsDigit(s[i])
  }

  function DigitValue(c: char): (d: nat)
    requires IsDigit(c)
    ensures d <= 9
  {
    c as int - '0' as int
  }

  function DigitChar(d: nat): (c: char)
    requires d <= 9
    ensures IsDigit(c) && DigitValue(c) == d
  {
    ('0' as int + d) as char
  }

  /** The value of a digit string, most significant digit first. */
  function DecimalValue(s: string): nat
    requires AllDigits(s)
  {
    if s == [] then 0 else DecimalValue(s[..|s| - 1]) * 10 + DigitValue(s[|s| - 1])
  }

  /** The number of decimal digits at the front of s. */
  function DigitRun(s: string): (n: nat)
    ensures n <= |s|
    ensures AllDigits(s[..n])
    ensures n < |s| ==> !IsDigit(s[n])
  {
    if s == [] || !IsDigit(s[0]) then 0
    else
      var m := DigitRun(s[1..]);
      assert s[..m + 1] == [s[0]] + s[1..][..m];
      m + 1
  }

  /** Shortest decimal rendering of n (the printf "%d" of a non-negative value). */
  function NatToDecimal(n: nat): (r: string)
    ensures |r| >= 1 && AllDigits(r)
    ensures DecimalValue(r) == n
    ensures r[0] == '0' ==> n == 0
    decreases n
  {
    if n < 10 then [DigitChar(n)]
    else
      var p := NatToDecimal(n / 10);
      var r := p + [DigitChar(n % 10)];
      assert r[..|r| - 1] == p;
      r
  }

  /** printf "%" PRId64 of any value: a minus sign before the magnitude. */
  function IntToDecimal(n: int): string
  {
    if n < 0 then "-" + NatToDecimal(-n) else NatToDecimal(n)
  }

  /** The renderings of numbers of up to three digits, spelled out. */
  lemma ShortDecimal(n: nat)
    ensures n < 10 ==> NatToDecimal(n) == [DigitChar(n)]
    ensures 10 <= n < 100 ==> NatToDecimal(n) == [DigitChar(n / 10), DigitChar(n % 10)]
    ensures 100 <= n < 1000 ==> NatToDecimal(n) == [DigitChar(n / 100), DigitChar(n / 10 % 10), DigitChar(n % 10)]
  {
    if 100 <= n < 1000 {
      assert NatToDecimal(n / 10) == [DigitChar(n / 100), DigitChar(n / 10 % 10)];
    }
  }

  lemma {:induction false} DigitRunOfDecimal(n: nat, rest: string)
    requires rest == [] || !IsDigit(rest[0])
    ensures DigitRun(NatToDecimal(n) + rest) == |NatToDecimal(n)|
    ensures (NatToDecimal(n) + rest)[..|NatToDecimal(n)|] == NatToDecimal(n)
  {
    DigitRunOfDigits(NatToDecimal(n), rest);
  }

  lemma {:induction false} DigitRunOfDigits(d: string, rest: string)
    requires AllDigits(d)
    requires rest == [] || !IsDigit(rest[0])
    ensures DigitRun(d + rest) == |d|
    ensures (d + rest)[..|d|] == d
    decreases |d|
  {
    if d == [] {
      assert d + rest == rest;
    } else {
      assert (d + rest)[1..] == d[1..] + rest;
      DigitRunOfDigits(d[1..], rest);
    }
  }

  // ---------------------------------------------------------------------------
  // strtol / strtoll

  /** A well-formed numeral: an optional sign followed by at least one digit,
      and nothing else. */
  predicate Numeral(s: string) {
    var body := if |s| > 0 && (s[0] == '+' || s[0] == '-') then s[1..] else s;
    |body| > 0 && AllDigits(body)
  }

  /** The (unbounded) value a numeral denotes. */
  function NumeralValue(s: string): int
    requires Numeral(s)
  {
    if s[0] == '-' then -(DecimalValue(s[1..]) as int)
    else if s[0] == '+' then DecimalValue(s[1..])
    else DecimalValue(s)
  }

  function Clamp64(v: int): (r: int)
    ensures INT64_MIN <= r <= INT64_MAX
    ensures INT64_MIN <= v <= INT64_MAX ==> r == v
  {
    if v > INT64_MAX then INT64_MAX else if v < INT64_MIN then INT64_MIN else v
  }

  /** The result of strtol/strtoll: the converted value and how many
      characters were consumed (where the end pointer is left). */
  datatype Conversion = Conversion(value: int, consumed: nat)

  /** strtol and strtoll in base 10 (both 64-bit here): an optional sign, then
      digits; out-of-range values saturate at the int64 bounds; when no digit
      follows, the value is 0 and the end pointer stays at the start. */
  function StrToLL(s: string): (r: Conversion)
    ensures r.consumed <= |s|
    ensures INT64_MIN <= r.value <= INT64_MAX
    ensures r.consumed == 0 ==> r.value == 0
    ensures |s| > 0 && r.consumed == |s| <==> Numeral(s)
    ensures Numeral(s) ==> r.value == Clamp64(NumeralValue(s))
  {
    var signed := |s| > 0 && (s[0] == '+' || s[0] == '-');
    var start := if signed then 1 else 0;
    var digits := DigitRun(s[start..]);
    if digits == 0 then
      Conversion(0, 0)
    else
      var magnitude: int := DecimalValue(s[start..][..digits]);
      assert digits == |s[start..]| ==> s[start..][..digits] == s[start..];
      Conversion(Clamp64(if signed && s[0] == '-' then -magnitude else magnitude), start + digits)
  }

  /** strtouint16: the value of a numeral in 1..65535, else 0. */
  function StrToUint16(number: string): (r: int)
    ensures 0 <= r <= UINT16_MAX
    ensures r == (if Numeral(number) && 1 <= NumeralValue(number) <= UINT16_MAX then NumeralValue(number) else 0)
  {
    var c := StrToLL(number);
    if c.value <= 0 || c.value > UINT16_MAX || c.consumed != |number| then 0 else c.value
  }

  /** strtouint32: the value of a numeral in 1..UINT32_MAX, else 0. */
  function StrToUint32(number: string): (r: int)
    ensures 0 <= r <= UINT32_MAX
    ensures r == (if Numeral(number) && 1 <= NumeralValue(number) <= UINT32_MAX then NumeralValue(number) else 0)
  {
    var c := StrToLL(number);
    if c.value <= 0 || c.value > UINT32_MAX || c.consumed != |number| then 0 else c.value
  }

  /** strtoint64u: a non-negative numeral's value (saturated at INT64_MAX); a
      negative numeral or any trailing garbage gives INT64_MIN.  The empty
      string converts to 0, as strtoll leaves the end pointer on the NUL. */
  function StrToInt64u(number: string): (r: int)
    ensures r == INT64_MIN || 0 <= r <= INT64_MAX
    ensures r == (if number == [] then 0
                  else if Numeral(number) && NumeralValue(number) >= 0 then Clamp64(NumeralValue(number))
                  else INT64_MIN)
  {
    var c := StrToLL(number);
    if c.value < 0 || c.consumed != |number| then INT64_MIN else c.value
  }

  lemma {:induction false} NumeralOfDecimal(n: nat)
    ensures Numeral(NatToDecimal(n)) && NumeralValue(NatToDecimal(n)) == n
  {
    var d := NatToDecimal(n);
    assert IsDigit(d[0]);
  }

  /** Printing a port number and reading it back gives the same number. */
  lemma StrToUint16RoundTrip(n: int)
    requires 1 <= n <= UINT16_MAX
    ensures StrToUint16(NatToDecimal(n)) == n
  {
    NumeralOfDecimal(n);
  }

  /** Printing a request id and reading it back gives the same id. */
  lemma StrToUint32RoundTrip(n: int)
    requires 1 <= n <= UINT32_MAX
    ensures StrToUint32(NatToDecimal(n)) == n
  {
    NumeralOfDecimal(n);
  }

  /** A printed int64 reads back as itself when it is non-negative and as
      INT64_MIN when it is negative. */
  lemma StrToInt64uRoundTrip(n: int)
    requires INT64_MIN <= n <= INT64_MAX
    ensures StrToInt64u(IntToDecimal(n)) == if n >= 0 then n else INT64_MIN
  {
    if n >= 0 {
      NumeralOfDecimal(n);
    } else {
      var s := IntToDecimal(n);
      NumeralOfDecimal(-n);
      assert s[1..] == NatToDecimal(-n);
      assert Numeral(s) && NumeralValue(s) == n;
    }
  }

  // ---------------------------------------------------------------------------
  // strlower

  function ToLower(c: char): char {
    if 'A' <= c <= 'Z' then (c as int + ('a' as int - 'A' as int)) as char else c
  }

  /** Every character lowered, one for one. */
  function Lower(s: string): (r: string)
    ensures |r| == |s|
    ensures forall i :: 0 <= i < |s| ==> r[i] == ToLower(s[i])
  {
    if s == [] then [] else [ToLower(s[0])] + Lower(s[1..])
  }

  /** Index of the first NUL, or the length when there is none. */
  function CLength(s: string): (n: nat)
    ensures n <= |s|
    ensures forall i :: 0 <= i < n ==> s[i] != '\0'
    ensures n < |s| ==> s[n] == '\0'
  {
    if s == [] || s[0] == '\0' then 0 else CLength(s[1..]) + 1
  }

  /** What strlower leaves in a character array: the C string lowered, the
      terminator and everything after it untouched. */
  function LowerCString(s: string): string {
    Lower(s[..CLength(s)]) + s[CLength(s)..]
  }

  /** strlower: lowers, in place, the characters before the first NUL. */
  method StrLower(str: array<char>)
    modifies str
    ensures str[..] == LowerCString(old(str[..]))
  {
    ghost var s := str[..];
    var i := 0;
    while i < str.Length && str[i] != '\0'
      invariant 0 <= i <= CLength(s)
      invariant str[..i] == Lower(s[..i])
      invariant str[i..] == s[i..]
    {
      assert str[i] == s[i];
      str[i] := ToLower(str[i]);
      assert str[..i + 1] == str[..i] + [ToLower(s[i])];
      assert s[..i + 1][..i] == s[..i];
      i := i + 1;
    }
    assert i < str.Length ==> str[i..][0] == s[i..][0];
    assert i == CLength(s);
    assert str[..] == str[..i] + str[i..];
  }

  /** Only the letters 'A'..'Z' change, the length never does, and lowering
      twice is lowering once. */
  lemma {:induction false} LowerProperties(s: string)
    ensures |Lower(s)| == |s|
    ensures forall i :: 0 <= i < |s| && !('A' <= s[i] <= 'Z') ==> Lower(s)[i] == s[i]
    ensures forall i :: 0 <= i < |s| && 'A' <= s[i] <= 'Z' ==> 'a' <= Lower(s)[i] <= 'z'
    ensures Lower(Lower(s)) == Lower(s)
  {
    assert forall i :: 0 <= i < |s| ==> Lower(Lower(s))[i] == Lower(s)[i];
  }

  // ---------------------------------------------------------------------------
  // strcontains

  predicate OccursAt<T(==)>(s: seq<T>, t: seq<T>, i: int) {
    0 <= i && i + |t| <= |s| && s[i..i + |t|] == t
  }

  /** strcontains (strstr != NULL): t occurs as a contiguous run inside s.
      The empty needle occurs everywhere. */
  function StrContains<T(==)>(s: seq<T>, t: seq<T>): (r: bool)
    ensures r <==> exists i :: OccursAt(s, t, i)
    decreases |s|
  {
    if |t| > |s| then false
    else if s[..|t|] == t then
      assert OccursAt(s, t, 0);
      true
    else
      OccursShift(s, t);
      StrContains(s[1..], t)
  }

  /** An occurrence not at the front is an occurrence in the tail. */
  lemma OccursShift<T>(s: seq<T>, t: seq<T>)
    requires |t| <= |s| && s[..|t|] != t
    ensures (exists i :: OccursAt(s, t, i)) <==> (exists i :: OccursAt(s[1..], t, i))
  {
    forall i | OccursAt(s[1..], t, i) ensures OccursAt(s, t, i + 1) {
      assert s[1..][i..i + |t|] == s[i + 1..i + 1 + |t|];
    }
    forall i | OccursAt(s, t, i) ensures OccursAt(s[1..], t, i - 1) {
      assert i != 0;
      assert s[1..][i - 1..i - 1 + |t|] == s[i..i + |t|];
    }
  }

  /** The leftmost occurrence of t in s, as regexec reports it for a pattern
      made of plain characters. */
  function FirstOccurrence<T(==)>(s: seq<T>, t: seq<T>): (r: Option<nat>)
    ensures r.Some? ==> OccursAt(s, t, r.value) && forall j :: 0 <= j < r.value ==> !OccursAt(s, t, j)
    ensures r.None? <==> !StrContains(s, t)
    decreases |s|
  {
    if |t| > |s| then None
    else if s[..|t|] == t then
      assert OccursAt(s, t, 0);
      Some(0)
    else
      OccursShift(s, t);
      match FirstOccurrence(s[1..], t)
      case None => None
      case Some(i) =>
        OccursTail(s, t, i);
        forall j | 0 <= j < i + 1 ensures !OccursAt(s, t, j) {
          if j > 0 { OccursTail(s, t, j - 1); }
        }
        Some(i + 1)
  }

  lemma OccursTail<T>(s: seq<T>, t: seq<T>, i: nat)
    requires |s| > 0
    ensures OccursAt(s[1..], t, i) <==> OccursAt(s, t, i + 1)
  {
    if i + 1 + |t| <= |s| {
      assert s[1..][i..i + |t|] == s[i + 1..i + 1 + |t|];
    }
  }
}
