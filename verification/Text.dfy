/** The pieces of the C and C++ text libraries the programs call, as far as they call them: white
    space, decimal output, `std::stoul`, `strtol` with base 0, and character search. */
module Text {
  datatype Option<+T> = None | Some(value: T) {
    function GetOr(default: T): T {
      if Some? then value else default
    }
  }

  /** `isspace` in the C locale. */
  predicate IsSpace(c: char) {
    c == ' ' || '\t' <= c <= '\r'
  }

  function SkipSpace(s: string): string {
    if s != [] && IsSpace(s[0]) then SkipSpace(s[1..]) else s
  }

  // ----- numbers as text -----

  /** The value of a digit in any base up to 16; 99 for every other character. */
  function DigitOf(c: char): nat {
    if '0' <= c <= '9' then c as int - '0' as int
    else if 'a' <= c <= 'f' then c as int - 'a' as int + 10
    else if 'A' <= c <= 'F' then c as int - 'A' as int + 10
    else 99
  }

  /** The length of the longest prefix of digits. */
  function RunLength(s: string, base: nat): (r: nat)
    ensures r <= |s|
  {
    if s == [] || DigitOf(s[0]) >= base then 0 else 1 + RunLength(s[1..], base)
  }

  /** The number the longest prefix of digits denotes, `acc` being the digits before it. */
  function RunValue(s: string, base: nat, acc: nat): nat {
    if s == [] || DigitOf(s[0]) >= base then acc else RunValue(s[1..], base, acc * base + DigitOf(s[0]))
  }

  const ULONG_MAX: nat := 0xFFFF_FFFF_FFFF_FFFF
  const LONG_MAX: int := 0x7FFF_FFFF_FFFF_FFFF

  function Max(x: int, y: int): int {
    if x < y then y else x
  }

  function SkipSign(s: string): string {
    if s != [] && (s[0] == '+' || s[0] == '-') then s[1..] else s
  }

  predicate Negative(s: string) {
    s != [] && s[0] == '-'
  }

  /** `std::stoul(s)`; `None` where it throws. */
  function Stoul(s: string): Option<nat> {
    var t := SkipSpace(s);
    var digits := SkipSign(t);
    var v := RunValue(digits, 10, 0);
    if RunLength(digits, 10) == 0 || v > ULONG_MAX then None
    else if Negative(t) && v > 0 then Some(ULONG_MAX + 1 - v)
    else Some(v)
  }

  /** The base `strtol(.., 0)` picks: hexadecimal after `0x`, octal after `0`, else decimal. */
  function StrtolBase(digits: string): nat {
    if digits == [] || digits[0] != '0' then 10
    else if |digits| > 2 && (digits[1] == 'x' || digits[1] == 'X') && DigitOf(digits[2]) < 16 then 16
    else 8
  }

  /** `strtol(s, &end, 0)` with a 64-bit `long`; `None` where `end` is left at the start. */
  function Strtol(s: string): Option<int> {
    var t := SkipSpace(s);
    var digits := SkipSign(t);
    var base := StrtolBase(digits);
    var run := if base == 16 then digits[2..] else digits;
    var v := RunValue(run, base, 0);
    if RunLength(run, base) == 0 then None
    else
      var n: int := v;
      Some(if Negative(t) then Max(-n, -LONG_MAX - 1) else -Max(-n, -LONG_MAX))
  }

  function DigitChar(d: nat): char
    requires d < 10
  {
    '0' + d as char
  }

  /** `std::to_string` of a natural number. */
  function ToText(n: nat): (r: string)
    ensures |r| > 0
  {
    if n < 10 then [DigitChar(n)] else ToText(n / 10) + [DigitChar(n % 10)]
  }

  predicate AllDigits(s: string) {
    forall i :: 0 <= i < |s| ==> '0' <= s[i] <= '9'
  }

  lemma {:induction false} RunOfDigits(s: string, rest: string, acc: nat)
    requires AllDigits(s)
    ensures RunValue(s + rest, 10, acc) == RunValue(rest, 10, RunValue(s, 10, acc))
    ensures RunLength(s + rest, 10) == |s| + RunLength(rest, 10)
  {
    if s == [] {
      assert s + rest == rest;
    } else {
      assert (s + rest)[1..] == s[1..] + rest;
      RunOfDigits(s[1..], rest, acc * 10 + DigitOf(s[0]));
    }
  }

  /** Decimal output is made of digits, has no leading zero, and reads back as the number. */
  lemma {:induction false} ToTextReadsBack(n: nat)
    ensures AllDigits(ToText(n))
    ensures RunValue(ToText(n), 10, 0) == n
    ensures n > 0 ==> ToText(n)[0] != '0'
  {
    if n >= 10 {
      ToTextReadsBack(n / 10);
      RunOfDigits(ToText(n / 10), [DigitChar(n % 10)], 0);
      assert RunValue([DigitChar(n % 10)], 10, n / 10) == n / 10 * 10 + n % 10;
    }
  }

  lemma ToTextInjective(m: nat, n: nat)
    requires ToText(m) == ToText(n)
    ensures m == n
  {
    ToTextReadsBack(m);
    ToTextReadsBack(n);
  }

  /** `stoul` of a non-empty string of decimal digits that fits an `unsigned long`. */
  lemma StoulOfDigits(s: string)
    requires s != [] && AllDigits(s)
    requires RunValue(s, 10, 0) <= ULONG_MAX
    ensures Stoul(s) == Some(RunValue(s, 10, 0))
  {
    assert s + [] == s;
    RunOfDigits(s, [], 0);
  }

  /** `strtol` reads back any positive `long` written in decimal. */
  lemma StrtolOfDecimal(n: nat)
    requires 0 < n <= LONG_MAX
    ensures Strtol(ToText(n)) == Some(n)
  {
    ToTextReadsBack(n);
    var s := ToText(n);
    assert s + [] == s;
    RunOfDigits(s, [], 0);
  }

  lemma {:induction false} ValueGrows(s: string, acc: nat)
    requires AllDigits(s)
    ensures acc <= RunValue(s, 10, acc)
  {
    if s == [] {
    } else {
      ValueGrows(s[1..], acc * 10 + DigitOf(s[0]));
    }
  }

  /** In base 8 the same digits denote less, unless only zeros came before them or nothing is left. */
  lemma {:induction false} OctalBelow(s: string, octal: nat, decimal: nat)
    requires AllDigits(s) && octal <= decimal
    ensures RunValue(s, 8, octal) <= RunValue(s, 10, decimal)
    ensures octal < decimal || (s != [] && decimal > 0) ==> RunValue(s, 8, octal) < RunValue(s, 10, decimal)
  {
    if s == [] {
    } else {
      var d := DigitOf(s[0]);
      if d < 8 {
        OctalBelow(s[1..], octal * 8 + d, decimal * 10 + d);
      } else {
        ValueGrows(s[1..], decimal * 10 + d);
      }
    }
  }

  /** Digits denote the same number in base 8 and in base 10 exactly when that number is below 8. */
  lemma {:induction false} OctalIsDecimal(s: string)
    requires AllDigits(s)
    ensures RunValue(s, 8, 0) == RunValue(s, 10, 0) <==> RunValue(s, 10, 0) < 8
  {
    if s == [] {
    } else {
      var d := DigitOf(s[0]);
      if d == 0 {
        OctalIsDecimal(s[1..]);
      } else {
        ValueGrows(s[1..], d);
        if d < 8 && s[1..] != [] {
          OctalBelow(s[1..], d, d);
          ValueGrows(s[2..], d * 10 + DigitOf(s[1]));
          assert s[1..][1..] == s[2..];
        }
      }
    }
  }

  /** What `strtol(.., 0)` makes of decimal digits: behind a leading zero they are octal, and reading
      stops at the first 8 or 9. So the digits read as the number they denote exactly when they do not
      start with a zero or that number is below 8. */
  lemma StrtolOfDigits(s: string)
    requires s != [] && AllDigits(s) && RunValue(s, 10, 0) <= LONG_MAX
    ensures s[0] == '0' ==> Strtol(s) == Some(RunValue(s, 8, 0))
    ensures Strtol(s) == Some(RunValue(s, 10, 0)) <==> s[0] != '0' || RunValue(s, 10, 0) < 8
  {
    hide RunValue;
    OctalIsDecimal(s);
    OctalBelow(s, 0, 0);
    assert DigitOf('0') < 8;
  }

  // ----- searching -----

  const NPOS: nat := 0xFFFF_FFFF_FFFF_FFFF

  /** `s.find(c, from)`. */
  function Find(s: string, c: char, from: nat): nat
    decreases |s| - from
  {
    if from >= |s| then NPOS else if s[from] == c then from else Find(s, c, from + 1)
  }

  lemma {:induction false} FindAt(s: string, c: char, from: nat, at: nat)
    requires from <= at <= |s|
    requires forall i :: from <= i < at ==> s[i] != c
    requires at < |s| ==> s[at] == c
    ensures Find(s, c, from) == if at < |s| then at else NPOS
    decreases at - from
  {
    if from < at {
      FindAt(s, c, from + 1, at);
    }
  }

  /** The part of `s` up to and including its last `c`; all of it is dropped when there is none,
      since `find_last_of` then gives `npos` and adding one wraps to 0. */
  function UpToLast(s: string, c: char): string {
    if s == [] then [] else if s[|s| - 1] == c then s else UpToLast(s[..|s| - 1], c)
  }

  lemma {:induction false} UpToLastAt(s: string, c: char, tail: string)
    requires forall i :: 0 <= i < |tail| ==> tail[i] != c
    ensures UpToLast(s + [c] + tail, c) == s + [c]
  {
    var t := s + [c] + tail;
    if tail == [] {
      assert t == s + [c];
    } else {
      assert t[..|t| - 1] == s + [c] + tail[..|tail| - 1];
      UpToLastAt(s, c, tail[..|tail| - 1]);
    }
  }
}
