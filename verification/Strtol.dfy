/** The C library's number parsing, as the receivers use it: leading space, a sign, then digits. */
module Strtols {
  import opened Decimals

  predicate IsSpace(c: char) {
    c == ' ' || '\t' <= c <= '\r'
  }

  function SkipSpace(s: string): string
    decreases s
  {
    if s != "" && IsSpace(s[0]) then SkipSpace(s[1..]) else s
  }

  /** The digits at the start of `s`. */
  function DigitPrefix(s: string): (r: string)
    ensures AllDigits(r) && r <= s
    ensures |r| < |s| ==> !IsDigit(s[|r|])
    decreases s
  {
    if s != "" && IsDigit(s[0]) then [s[0]] + DigitPrefix(s[1..]) else ""
  }

  /** strtol with base 10. */
  function Strtol10(s: string): int {
    var t := SkipSpace(s);
    if t != "" && t[0] == '-' then 0 - ReadDigits(0, DigitPrefix(t[1..]))
    else if t != "" && t[0] == '+' then ReadDigits(0, DigitPrefix(t[1..]))
    else ReadDigits(0, DigitPrefix(t))
  }

  lemma {:induction false} DigitPrefixAll(s: string)
    requires AllDigits(s)
    ensures DigitPrefix(s) == s
    decreases s
  {
    if s != "" {
      DigitPrefixAll(s[1..]);
      assert s == [s[0]] + s[1..];
    }
  }

  /** Numbers survive printing and parsing. */
  lemma Strtol10OfDecimal(n: nat)
    ensures Strtol10(Decimal(n)) == n
  {
    var s := Decimal(n);
    assert IsDigit(s[0]);
    DigitPrefixAll(s);
    ReadDecimal(n);
  }

  /** Two characters parse to at least 10 just when they are two digits, the first not 0. */
  lemma TwoCharacters(s: string)
    requires |s| == 2
    ensures Strtol10(s) >= 10 <==> IsDigit(s[0]) && IsDigit(s[1]) && s[0] != '0'
    ensures Strtol10(s) <= 99
  {
    assert s == [s[0], s[1]] && s[1..] == [s[1]] && s[1..][1..] == "";
    if IsDigit(s[0]) {
      if IsDigit(s[1]) {
        DigitPrefixAll(s);
        ReadTwo(s[0], s[1]);
      } else {
        assert DigitPrefix(s) == [s[0]];
        ReadOne(s[0]);
      }
    } else {
      AtMostOne(s);
    }
  }

  lemma ReadOne(c: char)
    requires IsDigit(c)
    ensures ReadDigits(0, [c]) == DigitValue(c) <= 9
  {
    assert [c][1..] == "";
  }

  lemma ReadTwo(c: char, d: char)
    requires IsDigit(c) && IsDigit(d)
    ensures ReadDigits(0, [c, d]) == DigitValue(c) * 10 + DigitValue(d)
  {
    assert [c, d][1..] == [d] && [d][1..] == "";
    assert ReadDigits(DigitValue(c), [d]) == DigitValue(c) * 10 + DigitValue(d);
  }

  /** A space or sign in front leaves room for one digit. */
  lemma AtMostOne(s: string)
    requires |s| == 2 && !IsDigit(s[0])
    ensures -9 <= Strtol10(s) <= 9
  {
    var c := s[1];
    assert s[1..] == [c] && [c][1..] == "";
    assert DigitPrefix("") == "" && SkipSpace([c]) == if IsSpace(c) then "" else [c];
    var t := SkipSpace(s);
    assert t == if IsSpace(s[0]) then SkipSpace([c]) else s;
    if IsDigit(c) {
      ReadOne(c);
      assert DigitPrefix([c]) == [c];
    } else {
      assert DigitPrefix([c]) == "";
    }
    assert DigitPrefix(s) == "";
  }

  // ---- other bases ----

  const ULONG_MAX := 0xFFFF_FFFF

  /** The value of a character as a digit, 99 for none. */
  function CharValue(c: char): nat {
    if '0' <= c <= '9' then c as int - '0' as int
    else if 'a' <= c <= 'z' then c as int - 'a' as int + 10
    else if 'A' <= c <= 'Z' then c as int - 'A' as int + 10
    else 99
  }

  /** The number at the start of `s`, on top of `acc`, up to the first character that is no digit of the base. */
  function ReadIn(acc: nat, s: string, radix: nat): nat
    decreases s
  {
    if s == "" || CharValue(s[0]) >= radix then acc else ReadIn(acc * radix + CharValue(s[0]), s[1..], radix)
  }

  /** strtoul with base 0 or 16, for 32-bit longs. */
  function Strtoul(s: string, radix: nat): nat {
    var t := SkipSpace(s);
    var negative := t != "" && t[0] == '-';
    var u := if t != "" && (t[0] == '-' || t[0] == '+') then t[1..] else t;
    var hex := |u| > 2 && u[0] == '0' && (u[1] == 'x' || u[1] == 'X') && CharValue(u[2]) < 16;
    var value :=
      if (radix == 0 || radix == 16) && hex then ReadIn(0, u[2..], 16)
      else if radix != 0 then ReadIn(0, u, radix)
      else if u != "" && u[0] == '0' then ReadIn(0, u, 8)
      else ReadIn(0, u, 10);
    if value > ULONG_MAX then ULONG_MAX else if negative then (ULONG_MAX + 1 - value) % (ULONG_MAX + 1) else value
  }

  lemma {:induction false} ReadInTen(acc: nat, s: string)
    requires AllDigits(s)
    ensures ReadIn(acc, s, 10) == ReadDigits(acc, s)
    decreases s
  {
    if s != "" {
      ReadInTen(acc * 10 + DigitValue(s[0]), s[1..]);
    }
  }

  /** A printed number survives parsing with the base told from its prefix. */
  lemma StrtoulOfDecimal(n: nat)
    requires n <= ULONG_MAX
    ensures Strtoul(Decimal(n), 0) == n
  {
    var s := Decimal(n);
    assert IsDigit(s[0]);
    ReadDecimal(n);
    ReadInTen(0, s);
    assert SkipSpace(s) == s;
    if s[0] == '0' {
      assert n == 0 && |s| == 1;
      assert s[1..] == "";
      assert ReadIn(0, s, 8) == ReadIn(0, s[1..], 8) == 0;
    } else {
      assert Strtoul(s, 0) == ReadIn(0, s, 10);
    }
  }
}
