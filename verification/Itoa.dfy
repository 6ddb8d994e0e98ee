/** libs/klibc/stdlib/itoa.c: digit generation and reversal in place. */
module Itoa {
  import opened Words

  const DECIMAL_CHARS: string := "0123456789"
  const LETTER_CHARS: string := "abcdefghijklmnopqrstuvwxyz"

  /** base_char[d]. */
  function DigitChar(d: nat): char
    requires d < 36
  {
    if d < 10 then DECIMAL_CHARS[d] else LETTER_CHARS[d - 10]
  }

  /** The digit a character stands for, in either case. */
  function DigitOf(c: char): nat {
    if '0' <= c <= '9' then c as int - '0' as int
    else if 'a' <= c <= 'z' then c as int - 'a' as int + 10
    else if 'A' <= c <= 'Z' then c as int - 'A' as int + 10
    else 36
  }

  lemma DigitOfChar(d: nat)
    requires d < 36
    ensures DigitOf(DigitChar(d)) == d && (DigitChar(d) == '0' <==> d == 0) && DigitChar(d) != '\0'
  {
    if d < 10 {
      assert DECIMAL_CHARS[d] == '0' + d as char;
    } else {
      assert LETTER_CHARS[d - 10] == 'a' + (d - 10) as char;
    }
  }

  // ---------------------------------------------------------------- numerals

  /** The digits of v from the least significant one on, as the do-while loop finds them. */
  function LowFirst(v: nat, base: nat): (s: string)
    requires 2 <= base <= 36
    ensures |s| >= 1
    decreases v
  {
    var d := DigitChar(v % base);
    if v < base then [d] else Shrinks(v, base); [d] + LowFirst(v / base, base)
  }

  lemma Shrinks(v: nat, base: nat)
    requires 2 <= base <= v
    ensures 0 < v / base < v
  {
  }

  lemma DivBase(v: nat, base: nat)
    requires 2 <= base
    ensures v == v / base * base + v % base && v % base < base
    ensures v < base ==> v / base == 0 && v % base == v
    ensures base <= v ==> 0 < v / base < v
  {
    if base <= v {
      Shrinks(v, base);
    }
  }

  lemma LowFirstStep(v: nat, base: nat)
    requires 2 <= base <= 36
    ensures LowFirst(v, base)[0] == DigitChar(v % base)
    ensures v < base ==> v / base == 0 && |LowFirst(v, base)| == 1
    ensures v >= base ==> 0 < v / base < v && LowFirst(v, base)[1..] == LowFirst(v / base, base)
  {
    DivBase(v, base);
    if v >= base {
      assert LowFirst(v, base) == [DigitChar(v % base)] + LowFirst(v / base, base);
    }
  }

  function Reversed(s: string): (r: string)
    ensures |r| == |s|
  {
    if s == [] then [] else Reversed(s[1..]) + [s[0]]
  }

  /** The numeral of v in the given base. */
  function Numeral(v: nat, base: nat): string
    requires 2 <= base <= 36
  {
    Reversed(LowFirst(v, base))
  }

  /** The number that a string of digits denotes, most significant digit first. */
  function ValueOf(s: string, base: nat): nat {
    if s == [] then 0 else ValueOf(s[..|s| - 1], base) * base + DigitOf(s[|s| - 1])
  }

  /** Parsing a numeral in its base returns the number. */
  lemma {:induction false} ParseNumeral(v: nat, base: nat)
    requires 2 <= base <= 36
    ensures ValueOf(Numeral(v, base), base) == v
    decreases v
  {
    var s := LowFirst(v, base);
    LowFirstStep(v, base);
    DivBase(v, base);
    DigitOfChar(v % base);
    hide LowFirst, DigitChar, DigitOf;
    assert Reversed(s)[..|s| - 1] == Reversed(s[1..]);
    if v < base {
      assert s[1..] == [];
    } else {
      ParseNumeral(v / base, base);
    }
  }

  /** No leading zero, and every character is a digit of the base. */
  lemma {:induction false} NumeralIsCanonical(v: nat, base: nat)
    requires 2 <= base <= 36
    ensures var n := Numeral(v, base);
      (|n| > 1 ==> n[0] != '0') && (v > 0 ==> n[0] != '0') &&
      forall i | 0 <= i < |n| :: DigitOf(n[i]) < base && n[i] != '\0'
    decreases v
  {
    var s := LowFirst(v, base);
    LowFirstStep(v, base);
    DivBase(v, base);
    DigitOfChar(v % base);
    hide LowFirst, DigitChar, DigitOf;
    if v < base {
      assert s[1..] == [];
    } else {
      NumeralIsCanonical(v / base, base);
    }
  }

  /** A numeral as the digit table spells it: digits of the base, in small letters, no leading zero. */
  predicate Canonical(s: string, base: nat) {
    |s| >= 1 && (|s| > 1 ==> s[0] != '0') && forall i | 0 <= i < |s| :: DigitOf(s[i]) < base && !('A' <= s[i] <= 'Z')
  }

  /** The other round trip: the numeral of a value is the only canonical string that denotes it. */
  lemma {:induction false} NumeralOfValue(s: string, base: nat)
    requires 2 <= base <= 36 && Canonical(s, base)
    ensures Numeral(ValueOf(s, base), base) == s
    ensures |s| > 1 || s[0] != '0' ==> ValueOf(s, base) > 0
  {
    var init := s[..|s| - 1];
    CharOfDigit(s[|s| - 1], base);
    CanonicalInit(s, base);
    LastDigit(s, base);
    hide LowFirst, DigitChar, DigitOf, Numeral, ValueOf, Canonical;
    if init != [] {
      NumeralOfValue(init, base);
    }
  }

  /** The numeral of a value, and what its last digit adds. */
  lemma LastDigit(s: string, base: nat)
    requires 2 <= base <= 36 && Canonical(s, base)
    ensures var init := s[..|s| - 1]; var q, d := ValueOf(init, base), DigitOf(s[|s| - 1]);
      d < base && Numeral(ValueOf(s, base), base) == (if q == 0 then [] else Numeral(q, base)) + [DigitChar(d)] &&
      (q > 0 || d > 0 ==> ValueOf(s, base) > 0) && (init == [] ==> q == 0) && s == init + [s[|s| - 1]]
  {
    hide LowFirst, Numeral, DigitChar;
    ValueStep(s, base);
    OneDigitMore(ValueOf(s[..|s| - 1], base), DigitOf(s[|s| - 1]), base);
  }

  lemma ValueStep(s: string, base: nat)
    requires s != []
    ensures ValueOf(s, base) == ValueOf(s[..|s| - 1], base) * base + DigitOf(s[|s| - 1])
    ensures |s| == 1 ==> ValueOf(s[..|s| - 1], base) == 0
  {
  }

  lemma CanonicalInit(s: string, base: nat)
    requires Canonical(s, base)
    ensures var init := s[..|s| - 1];
      s != [] && (init != [] ==> Canonical(init, base) && (|init| > 1 || init[0] != '0')) &&
      (init == [] ==> s == [s[0]])
  {
  }

  /** A digit appended. */
  lemma OneDigitMore(q: nat, d: nat, base: nat)
    requires 2 <= base <= 36 && d < base
    ensures var v := q * base + d;
      Numeral(v, base) == (if q == 0 then [] else Numeral(q, base)) + [DigitChar(d)] && (q > 0 || d > 0 ==> v > 0)
  {
    var v := q * base + d;
    DigitsOfValue(q, d, base);
    LowFirstStep(v, base);
    hide LowFirst, DigitChar;
    if q == 0 {
      ReversedOne(LowFirst(v, base));
    }
  }

  lemma ReversedOne(s: string)
    requires |s| == 1
    ensures Reversed(s) == s
  {
    assert s[1..] == [];
  }

  lemma CharOfDigit(c: char, base: nat)
    requires base <= 36 && DigitOf(c) < base && !('A' <= c <= 'Z')
    ensures DigitChar(DigitOf(c)) == c && (c == '0' <==> DigitOf(c) == 0)
  {
    DigitOfChar(DigitOf(c));
  }

  lemma DigitsOfValue(q: nat, d: nat, base: nat)
    requires d < base
    ensures var v := q * base + d; v / base == q && v % base == d && (q > 0 ==> v >= base) && (q == 0 ==> v == d)
  {
    var v := q * base + d;
    Quotient(v, base, q, d);
    if q > 0 {
      AtLeastOnce(q, base);
    }
  }

  function Pow(base: nat, n: nat): nat {
    if n == 0 then 1 else base * Pow(base, n - 1)
  }

  /** A numeral is as short as it can be: at most n digits for numbers below base^n. */
  lemma {:induction false} NumeralLength(v: nat, base: nat, n: nat)
    requires 2 <= base <= 36 && 1 <= n && v < Pow(base, n)
    ensures |Numeral(v, base)| <= n
    decreases n
  {
    if v >= base {
      Shrinks(v, base);
      assert n > 1 by {
        assert Pow(base, 1) == base * Pow(base, 0);
      }
      QuotientBelow(v, base, Pow(base, n - 1));
      NumeralLength(v / base, base, n - 1);
    }
  }

  lemma QuotientBelow(v: nat, base: nat, p: nat)
    requires 0 < base && v < base * p
    ensures v / base < p
  {
  }

  // ---------------------------------------------------------------- the loops

  lemma {:induction false} ReversedAt(s: string, k: nat)
    requires k < |s|
    ensures Reversed(s)[k] == s[|s| - 1 - k]
  {
    if k < |s| - 1 {
      ReversedAt(s[1..], k);
    }
  }

  /** The do-while loop of __uitoa_internal: the digits, least significant first. */
  method WriteDigits(value: Word, str: array<char>, off: nat, base: nat) returns (ptr: nat)
    requires 2 <= base <= 36 && off + |LowFirst(value, base)| <= str.Length
    modifies str
    ensures ptr == |LowFirst(value, base)| && str[off..off + ptr] == LowFirst(value, base)
    ensures forall k | 0 <= k < str.Length && (k < off || k >= off + ptr) :: str[k] == old(str[k])
  {
    ptr := 0;
    var v: nat := value;
    ghost var all := LowFirst(value, base);
    var more := true;
    while more
      invariant ptr <= |all| && (if more then ptr < |all| && all[ptr..] == LowFirst(v, base) else ptr == |all|)
      invariant forall k | off <= k < off + ptr :: str[k] == all[k - off]
      invariant forall k | 0 <= k < str.Length && (k < off || k >= off + ptr) :: str[k] == old(str[k])
      decreases more, v
    {
      hide LowFirst, DigitChar;
      LowFirstStep(v, base);
      assert all[ptr] == all[ptr..][0];
      assert all[ptr + 1..] == all[ptr..][1..];
      str[off + ptr] := DigitChar(v % base);
      v := v / base;
      ptr := ptr + 1;
      more := v != 0;
    }
  }

  /** The second loop of __uitoa_internal: str[off..off + n] backwards. */
  method ReverseDigits(str: array<char>, off: nat, n: nat)
    requires off + n <= str.Length
    modifies str
    ensures str[off..off + n] == Reversed(old(str[off..off + n]))
    ensures forall k | 0 <= k < str.Length && (k < off || k >= off + n) :: str[k] == old(str[k])
  {
    var i := 0;
    ghost var was := str[off..off + n];
    while i < n / 2
      invariant 0 <= i <= n / 2
      invariant forall k | off <= k < off + i || off + n - i <= k < off + n :: str[k] == old(str[2 * off + n - 1 - k])
      invariant forall k | off + i <= k < off + n - i :: str[k] == old(str[k])
      invariant forall k | 0 <= k < str.Length && (k < off || k >= off + n) :: str[k] == old(str[k])
    {
      var c := str[off + i];
      str[off + i] := str[off + n - i - 1];
      str[off + n - i - 1] := c;
      i := i + 1;
    }
    ghost var now := str[off..off + n];
    forall k | 0 <= k < n
      ensures now[k] == was[n - 1 - k]
    {
      assert str[off + k] == old(str[off + n - 1 - k]);
    }
    IsReversed(now, was);
  }

  lemma IsReversed(s: string, was: string)
    requires |s| == |was| && forall k | 0 <= k < |s| :: s[k] == was[|s| - 1 - k]
    ensures s == Reversed(was)
  {
    forall k | 0 <= k < |s|
      ensures s[k] == Reversed(was)[k]
    {
      ReversedAt(was, k);
    }
  }

  /** __uitoa_internal: writes the numeral of value and a terminator at str[off..]. */
  method UitoaInternal(value: Word, str: array<char>, off: nat, base: nat) returns (size: nat)
    requires 2 <= base <= 36 && off + |Numeral(value, base)| < str.Length
    modifies str
    ensures size == |Numeral(value, base)| && str[off..off + size] == Numeral(value, base) && str[off + size] == '\0'
    ensures forall k | 0 <= k < str.Length && (k < off || k > off + size) :: str[k] == old(str[k])
  {
    size := WriteDigits(value, str, off, base);
    ReverseDigits(str, off, size);
    ghost var s := str[off..off + size];
    str[off + size] := '\0';
    assert str[off..off + size] == s;
  }

  // ---------------------------------------------------------------- itoa

  /** The int that has the bits of an unsigned word. */
  function AsInt(w: Word): int {
    if w < 0x8000_0000 then w else w - 0x1_0000_0000
  }

  /** What itoa makes of an unsigned word passed as an int: a sign and a magnitude from 2^31 on in base 10. */
  function ItoaText(w: Word, base: nat): string
    requires 2 <= base <= 36
  {
    if AsInt(w) < 0 && base == 10 then "-" + Numeral(Wrap(0 - w), base) else Numeral(w, base)
  }

  /** __itoa_internal and itoa. The negation is that of the unsigned word, so that INT_MIN keeps its magnitude. */
  method Itoa(w: Word, str: array<char>, base: nat) returns (size: nat)
    requires 2 <= base <= 36 && |ItoaText(w, base)| < str.Length
    modifies str
    ensures size == |ItoaText(w, base)| && str[..size] == ItoaText(w, base) && str[size] == '\0'
  {
    if AsInt(w) < 0 && base == 10 {
      str[0] := '-';
      var n := UitoaInternal(Wrap(0 - w), str, 1, base);
      size := n + 1;
      assert str[..size] == [str[0]] + str[1..size];
    } else {
      size := UitoaInternal(w, str, 0, base);
      assert str[..size] == str[0..size];
    }
  }

  /** 2^32 - 1 comes out as the text of -1. */
  lemma ItoaExample()
    ensures ItoaText(0xFFFF_FFFF, 10) == "-1"
  {
    NumeralOfOne();
    hide Numeral;
  }

  lemma NumeralOfOne()
    ensures Numeral(1, 10) == "1"
  {
    assert ValueOf("1", 10) == 1;
    NumeralOfValue("1", 10);
  }

  /** itoa gives the numeral of the unsigned word exactly when the base is not 10 or the word is below 2^31. */
  lemma ItoaIsNumeral(w: Word, base: nat)
    requires 2 <= base <= 36
    ensures ItoaText(w, base) == Numeral(w, base) <==> base != 10 || w < 0x8000_0000
  {
    if base == 10 && w >= 0x8000_0000 {
      NumeralIsCanonical(w, base);
      assert ItoaText(w, base)[0] == '-';
    }
  }
}
