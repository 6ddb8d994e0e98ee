/** libs/klibc/stdio/sprintf.c: the numeric conversions of __sprintf_internal in unbounded mode, from the parsed
    specification to the characters in the buffer. */
module Sprintf {
  import opened Words
  import opened Itoa

  const NUMBUFSIZ: nat := 24

  /** Flags, width and precision as parsed (-1 where absent), and what the conversion character adds. */
  datatype Spec = Spec(
    alt: bool, zero: bool, left: bool, space: bool, plus: bool,
    signed: bool, negative: bool, alt2: bool, caps: bool,
    base: nat, width: int, precision: int)
  {
    predicate Valid() {
      (base == 10 || base == 16) && (negative ==> signed)
    }
  }

  /** `c & ~((c & 0x40) >> 1)`. */
  function Capital(c: char): char {
    if c as int / 64 % 2 == 1 && c as int / 32 % 2 == 1 then (c as int - 32) as char else c
  }

  function Capitals(s: string): (r: string)
    ensures |r| == |s|
  {
    if s == [] then [] else Capitals(s[..|s| - 1]) + [Capital(s[|s| - 1])]
  }

  function Repeat(c: char, n: int): (s: string)
    ensures |s| == if n < 0 then 0 else n
  {
    seq(if n < 0 then 0 else n, _ => c)
  }

  // ---------------------------------------------------------------- the field

  /** The digits: itoa, in capitals for %X. */
  function Data(spec: Spec, num: Word): string
    requires spec.Valid()
  {
    if spec.caps then Capitals(ItoaText(num, spec.base)) else ItoaText(num, spec.base)
  }

  function Prefix(spec: Spec, num: Word): string {
    if spec.signed then
      if spec.negative then "-" else if spec.plus then "+" else if spec.space then " " else ""
    else if spec.alt && spec.base == 16 && (num != 0 || spec.alt2) then "0x"
    else ""
  }

  function Zeros(spec: Spec, num: Word): (n: int)
    requires spec.Valid()
    ensures n >= 0
  {
    var len, pre := |Data(spec, num)|, |Prefix(spec, num)|;
    if spec.precision >= 0 then (if spec.precision > len then spec.precision - len else 0)
    else if spec.zero && !spec.left && len + pre < spec.width then spec.width - len - pre
    else 0
  }

  /** Sign or 0x, zeros, digits. */
  function Core(spec: Spec, num: Word): string
    requires spec.Valid()
  {
    Prefix(spec, num) + Repeat('0', Zeros(spec, num)) + Data(spec, num)
  }

  /** The field: the core, with the rest of the width in blanks on one side. */
  function Field(spec: Spec, num: Word): string
    requires spec.Valid()
  {
    var core := Core(spec, num);
    var blanks := Repeat(' ', spec.width - |core|);
    if spec.left then core + blanks else blanks + core
  }

  // ---------------------------------------------------------------- writing it

  method WriteRepeated(buffer: array<char>, ptr: nat, c: char, n: int) returns (ptr': nat)
    requires ptr + |Repeat(c, n)| <= buffer.Length
    modifies buffer
    ensures ptr' == ptr + |Repeat(c, n)| && buffer[..ptr'] == old(buffer[..ptr]) + Repeat(c, n)
  {
    ptr' := ptr;
    var left := n;
    while left > 0
      invariant ptr' == ptr + |Repeat(c, n)| - (if left < 0 then 0 else left) && ptr <= ptr' && left <= n
      invariant buffer[..ptr'] == old(buffer[..ptr]) + Repeat(c, ptr' - ptr)
    {
      buffer[ptr'] := c;
      ptr', left := ptr' + 1, left - 1;
    }
  }

  method WriteString(buffer: array<char>, ptr: nat, s: string) returns (ptr': nat)
    requires ptr + |s| <= buffer.Length
    modifies buffer
    ensures ptr' == ptr + |s| && buffer[..ptr'] == old(buffer[..ptr]) + s
  {
    ptr' := ptr;
    for i := 0 to |s|
      invariant ptr' == ptr + i && buffer[..ptr'] == old(buffer[..ptr]) + s[..i]
    {
      buffer[ptr'] := s[i];
      ptr' := ptr' + 1;
    }
    assert s[..|s|] == s;
  }

  /** The loop that turns the digits of %X into capitals. */
  method Capitalize(numbuf: array<char>, n: nat)
    requires n < numbuf.Length && numbuf[n] == '\0' && forall k | 0 <= k < n :: numbuf[k] != '\0'
    modifies numbuf
    ensures numbuf[..n] == Capitals(old(numbuf[..n]))
  {
    ghost var was := numbuf[..n];
    var i := 0;
    while numbuf[i] != '\0'
      invariant i <= n && numbuf[..i] == Capitals(was[..i])
      invariant forall k | i <= k < numbuf.Length :: numbuf[k] == old(numbuf[k])
      decreases n - i
    {
      assert was[..i + 1][..i] == was[..i];
      numbuf[i] := Capital(numbuf[i]);
      i := i + 1;
    }
    assert was[..n] == was;
  }

  lemma DataFits(spec: Spec, num: Word)
    requires spec.Valid()
    ensures |ItoaText(num, spec.base)| < NUMBUFSIZ
    ensures forall k | 0 <= k < |ItoaText(num, spec.base)| :: ItoaText(num, spec.base)[k] != '\0'
  {
    PowersOfTen();
    NumeralLength(num, spec.base, 10);
    NumeralLength(Wrap(0 - num), spec.base, 10);
    NumeralIsCanonical(num, spec.base);
    NumeralIsCanonical(Wrap(0 - num), spec.base);
  }

  lemma PowersOfTen()
    ensures Pow(10, 10) >= 0x1_0000_0000 && Pow(16, 10) >= 0x1_0000_0000
  {
    assert Pow(10, 2) == 100 && Pow(10, 4) == 10000 && Pow(10, 6) == 1000000 && Pow(10, 8) == 100000000;
    assert Pow(16, 2) == 256 && Pow(16, 4) == 65536 && Pow(16, 6) == 0x100_0000 && Pow(16, 8) == 0x1_0000_0000;
  }

  /** itoa into the local buffer, in capitals for %X. */
  method WriteDigits(spec: Spec, num: Word) returns (data: string)
    requires spec.Valid()
    ensures data == Data(spec, num)
  {
    var numbuf := new char[NUMBUFSIZ];
    DataFits(spec, num);
    var len := Itoa.Itoa(num, numbuf, spec.base);
    if spec.caps {
      assert forall k | 0 <= k < len :: numbuf[k] == numbuf[..len][k];
      Capitalize(numbuf, len);
    }
    data := numbuf[..len];
  }

  /** A numeric conversion from itoa to the last blank. */
  method WriteNumber(buffer: array<char>, ptr: nat, spec: Spec, num: Word) returns (ptr': nat)
    requires spec.Valid() && ptr + |Field(spec, num)| <= buffer.Length
    modifies buffer
    ensures ptr' == ptr + |Field(spec, num)| && buffer[..ptr'] == old(buffer[..ptr]) + Field(spec, num)
  {
    hide Data, Prefix, Zeros, Repeat, Field, Core;
    FieldLength(spec, num);
    ZerosAre(spec, num);
    FieldParts(spec, num);
    var data := WriteDigits(spec, num);
    var len := |data|;
    var prefix := Prefix(spec, num);
    var zeros :=
      if spec.precision >= 0 then (if spec.precision > len then spec.precision - len else 0)
      else if spec.zero && !spec.left && len + |prefix| < spec.width then spec.width - len - |prefix|
      else 0;
    var width := spec.width - (len + zeros + |prefix|);
    assert zeros == Zeros(spec, num) && width == spec.width - |Core(spec, num)|;
    RepeatLength(' ', width);
    RepeatLength('0', zeros);
    ghost var start := buffer[..ptr];
    ptr' := ptr;
    if !spec.left {
      ptr' := WriteRepeated(buffer, ptr', ' ', width);
    }
    ghost var lead := buffer[..ptr'];
    ptr' := WriteString(buffer, ptr', prefix);
    ptr' := WriteRepeated(buffer, ptr', '0', zeros);
    ptr' := WriteString(buffer, ptr', data);
    Grouped(lead, prefix, Repeat('0', zeros), data);
    assert buffer[..ptr'] == lead + Core(spec, num);
    if spec.left {
      ptr' := WriteRepeated(buffer, ptr', ' ', width);
      Grouped(start, Core(spec, num), Repeat(' ', width), []);
    } else {
      Grouped(start, Repeat(' ', width), Core(spec, num), []);
    }
  }

  lemma ZerosAre(spec: Spec, num: Word)
    requires spec.Valid()
    ensures var len, pre := |Data(spec, num)|, |Prefix(spec, num)|;
      Zeros(spec, num) ==
        if spec.precision >= 0 then (if spec.precision > len then spec.precision - len else 0)
        else if spec.zero && !spec.left && len + pre < spec.width then spec.width - len - pre
        else 0
  {
  }

  lemma RepeatLength(c: char, n: int)
    ensures |Repeat(c, n)| == if n < 0 then 0 else n
  {
  }

  lemma FieldParts(spec: Spec, num: Word)
    requires spec.Valid()
    ensures Core(spec, num) == Prefix(spec, num) + Repeat('0', Zeros(spec, num)) + Data(spec, num)
    ensures var blanks := Repeat(' ', spec.width - |Core(spec, num)|);
      Field(spec, num) == if spec.left then Core(spec, num) + blanks else blanks + Core(spec, num)
  {
  }

  lemma Grouped(a: string, b: string, c: string, d: string)
    ensures a + b + c + d == a + (b + c + d) && b + c + [] == b + c && a + b + c + [] == a + b + c
  {
  }

  // ---------------------------------------------------------------- what the field means

  /** The field is exactly as wide as asked, or as its core needs. */
  lemma FieldLength(spec: Spec, num: Word)
    requires spec.Valid()
    ensures |Core(spec, num)| == |Prefix(spec, num)| + Zeros(spec, num) + |Data(spec, num)|
    ensures |Field(spec, num)| == if spec.width > |Core(spec, num)| then spec.width else |Core(spec, num)|
    ensures spec.precision >= 0 ==> |Data(spec, num)| + Zeros(spec, num) >= spec.precision
  {
  }

  /** Without zero padding, left and right justification give the same core and the same blanks. */
  lemma JustificationMovesBlanks(spec: Spec, num: Word)
    requires spec.Valid() && (!spec.zero || spec.precision >= 0)
    ensures var l, r := spec.(left := true), spec.(left := false);
      Core(l, num) == Core(r, num) &&
      exists blanks: string :: (forall c | c in blanks :: c == ' ') &&
        Field(l, num) == Core(l, num) + blanks && Field(r, num) == blanks + Core(r, num)
  {
    hide Data, Prefix, Zeros, Repeat, Core, Field;
    var l, r := spec.(left := true), spec.(left := false);
    SamePieces(spec, num);
    FieldParts(l, num);
    FieldParts(r, num);
    var blanks := Repeat(' ', spec.width - |Core(l, num)|);
    AllBlanks(spec.width - |Core(l, num)|);
    assert Field(l, num) == Core(l, num) + blanks && Field(r, num) == blanks + Core(r, num);
  }

  lemma SamePieces(spec: Spec, num: Word)
    requires spec.Valid() && (!spec.zero || spec.precision >= 0)
    ensures var l, r := spec.(left := true), spec.(left := false);
      l.Valid() && r.Valid() && Data(l, num) == Data(r, num) && Prefix(l, num) == Prefix(r, num) &&
      Zeros(l, num) == Zeros(r, num)
  {
    hide ItoaText, Capitals;
  }

  lemma AllBlanks(n: int)
    ensures forall c | c in Repeat(' ', n) :: c == ' '
  {
  }

  /** Zero padding fills the width with zeros behind the sign, so that no blank is written. */
  lemma ZeroPadding(spec: Spec, num: Word)
    requires spec.Valid() && spec.zero && !spec.left && spec.precision < 0
    ensures Field(spec, num) == Core(spec, num) && spec.width <= |Core(spec, num)|
  {
  }

  lemma {:induction false} CapitalsKeepValue(s: string, base: nat)
    requires forall i | 0 <= i < |s| :: DigitOf(s[i]) < 36
    ensures ValueOf(Capitals(s), base) == ValueOf(s, base)
  {
    if s != [] {
      var init := s[..|s| - 1];
      assert Capitals(s)[..|s| - 1] == Capitals(init);
      CapitalsKeepValue(init, base);
      CapitalKeepsDigit(s[|s| - 1]);
    }
  }

  lemma CapitalKeepsDigit(c: char)
    requires DigitOf(c) < 36
    ensures DigitOf(Capital(c)) == DigitOf(c)
  {
  }

  lemma {:induction false} LeadingZerosKeepValue(n: nat, s: string, base: nat)
    ensures ValueOf(Repeat('0', n) + s, base) == ValueOf(s, base)
    decreases |s|, n
  {
    var z := Repeat('0', n);
    if s == [] {
      assert z + s == z;
      if n > 0 {
        assert z[..n - 1] == Repeat('0', n - 1);
        LeadingZerosKeepValue(n - 1, [], base);
        assert Repeat('0', n - 1) + [] == Repeat('0', n - 1);
      }
    } else {
      assert (z + s)[..|z + s| - 1] == z + s[..|s| - 1];
      LeadingZerosKeepValue(n, s[..|s| - 1], base);
    }
  }

  /** The zeros and digits of the field. */
  function Digits(spec: Spec, num: Word): string
    requires spec.Valid()
  {
    Repeat('0', Zeros(spec, num)) + Data(spec, num)
  }

  predicate AllDigits(s: string, base: nat) {
    forall i | 0 <= i < |s| :: DigitOf(s[i]) < base
  }

  /** The zeros and digits of the field parse back to the number exactly when the base is 16 or the number is
      below 2^31. */
  lemma FieldParsesBack(spec: Spec, num: Word)
    requires spec.Valid()
    ensures AllDigits(Digits(spec, num), spec.base) && ValueOf(Digits(spec, num), spec.base) == num <==>
            spec.base == 16 || num < 0x8000_0000
  {
    hide ItoaText, Zeros, Data, ValueOf, Digits, AllDigits;
    if spec.base == 16 || num < 0x8000_0000 {
      DigitsParseBack(spec, num);
    } else {
      SignIsNoDigit(spec, num);
    }
  }

  lemma DigitsParseBack(spec: Spec, num: Word)
    requires spec.Valid() && (spec.base == 16 || num < 0x8000_0000)
    ensures AllDigits(Digits(spec, num), spec.base) && ValueOf(Digits(spec, num), spec.base) == num
  {
    var text := Numeral(num, spec.base);
    assert text == ItoaText(num, spec.base);
    ParseNumeral(num, spec.base);
    NumeralIsCanonical(num, spec.base);
    hide ItoaText, Zeros, Numeral, DigitOf;
    CapitalsKeepValue(text, spec.base);
    CapitalsKeepDigits(text, spec.base);
    LeadingZerosKeepValue(Zeros(spec, num), Data(spec, num), spec.base);
    LeadingZerosAreDigits(Zeros(spec, num), Data(spec, num), spec.base);
  }

  lemma LeadingZerosAreDigits(n: nat, s: string, base: nat)
    requires AllDigits(s, base) && 1 <= base
    ensures AllDigits(Repeat('0', n) + s, base)
  {
  }

  lemma SignIsNoDigit(spec: Spec, num: Word)
    requires spec.Valid() && spec.base == 10 && num >= 0x8000_0000
    ensures !AllDigits(Digits(spec, num), 10)
  {
    LargeDecimalsCarryASign(spec, num);
    hide ItoaText, Zeros, Data;
    assert Digits(spec, num)[Zeros(spec, num)] == Data(spec, num)[0];
  }

  lemma CapitalsKeepDigits(s: string, base: nat)
    requires AllDigits(s, base) && base <= 36
    ensures AllDigits(Capitals(s), base)
  {
    forall i | 0 <= i < |s|
      ensures DigitOf(Capitals(s)[i]) < base
    {
      CapitalsAt(s, i);
      CapitalKeepsDigit(s[i]);
    }
  }

  /** In base 10 from 2^31 on itoa sees a negative int, and its sign ends up among the digits. */
  lemma LargeDecimalsCarryASign(spec: Spec, num: Word)
    requires spec.Valid() && spec.base == 10
    ensures Data(spec, num)[0] == '-' <==> num >= 0x8000_0000
  {
    DecimalSign(num);
    hide ItoaText, Capitals;
    CapitalsAt(ItoaText(num, 10), 0);
  }

  lemma DecimalSign(num: Word)
    ensures ItoaText(num, 10) != [] && (ItoaText(num, 10)[0] == '-' <==> num >= 0x8000_0000)
    ensures Capital(ItoaText(num, 10)[0]) == ItoaText(num, 10)[0]
  {
    NumeralIsCanonical(num, 10);
    hide Numeral;
    if num < 0x8000_0000 {
      var c := Numeral(num, 10)[0];
      assert DigitOf(c) < 10;
    }
  }

  lemma {:induction false} CapitalsAt(s: string, i: nat)
    requires i < |s|
    ensures Capitals(s)[i] == Capital(s[i])
  {
    if i < |s| - 1 {
      CapitalsAt(s[..|s| - 1], i);
    }
  }

  // ---------------------------------------------------------------- %d

  /** What `%d` hands over for an int argument: magnitude, sign and the flags of the specification. */
  function SignedSpec(spec: Spec, arg: Word): Spec {
    spec.(signed := true, negative := AsInt(arg) < 0, base := 10)
  }

  function Magnitude(arg: Word): Word {
    if AsInt(arg) < 0 then Wrap(0 - arg) else arg
  }

  /** The int that sign and digits of a %d field denote. */
  function SignedValue(spec: Spec, num: Word): int
    requires spec.Valid()
  {
    var v := ValueOf(Digits(spec, num), spec.base);
    if Prefix(spec, num) == "-" then -(v as int) else v
  }

  lemma SmallMagnitude(arg: Word)
    ensures Magnitude(arg) < 0x8000_0000 <==> AsInt(arg) != -0x8000_0000
    ensures Magnitude(arg) == if AsInt(arg) < 0 then -AsInt(arg) else AsInt(arg)
  {
  }

  /** What stands in front of the zeros: for a signed conversion the minus, or else the plus or the blank that was asked
      for, the plus taking precedence; for an unsigned one in base 16 the 0x of #, but not before 0; %p has it always.
      These are all the prefixes. */
  lemma PrefixIs(spec: Spec, num: Word)
    ensures Prefix(spec, num) == "-" <==> spec.signed && spec.negative
    ensures Prefix(spec, num) == "+" <==> spec.signed && !spec.negative && spec.plus
    ensures Prefix(spec, num) == " " <==> spec.signed && !spec.negative && !spec.plus && spec.space
    ensures Prefix(spec, num) == "0x" <==> !spec.signed && spec.alt && spec.base == 16 && (num != 0 || spec.alt2)
    ensures Prefix(spec, num) in {"", "-", "+", " ", "0x"}
  {
  }

  /** Without width, precision and zeros a field is prefix and numeral. */
  lemma PlainField(spec: Spec, num: Word)
    requires spec.Valid() && spec.width <= 0 && spec.precision <= 0 && !spec.caps
    requires spec.base == 16 || num < 0x8000_0000
    ensures Field(spec, num) == Prefix(spec, num) + Numeral(num, spec.base)
  {
    hide Numeral, Prefix;
    assert ItoaText(num, spec.base) == Numeral(num, spec.base);
  }

  /** %+d and % d of 42, %+d of -42. */
  lemma SignedFieldExamples()
    ensures Field(Spec(false, false, false, false, true, true, false, false, false, 10, -1, -1), 42) == "+42"
    ensures Field(Spec(false, false, false, true, false, true, false, false, false, 10, -1, -1), 42) == " 42"
    ensures Field(Spec(false, false, false, false, true, true, true, false, false, 10, -1, -1), 42) == "-42"
  {
    assert Numeral(42, 10) == "42";
    hide Field, Numeral;
    PlainField(Spec(false, false, false, false, true, true, false, false, false, 10, -1, -1), 42);
    PlainField(Spec(false, false, false, true, false, true, false, false, false, 10, -1, -1), 42);
    PlainField(Spec(false, false, false, false, true, true, true, false, false, 10, -1, -1), 42);
  }

  /** %#x of 255 and of 0, %p of 0. */
  lemma HexFieldExamples()
    ensures Field(Spec(true, false, false, false, false, false, false, false, false, 16, -1, -1), 255) == "0xff"
    ensures Field(Spec(true, false, false, false, false, false, false, false, false, 16, -1, -1), 0) == "0"
    ensures Field(Spec(true, false, false, false, false, false, false, true, false, 16, -1, -1), 0) == "0x0"
  {
    assert Numeral(255, 16) == "ff" && Numeral(0, 16) == "0";
    hide Field, Numeral;
    PlainField(Spec(true, false, false, false, false, false, false, false, false, 16, -1, -1), 255);
    PlainField(Spec(true, false, false, false, false, false, false, false, false, 16, -1, -1), 0);
    PlainField(Spec(true, false, false, false, false, false, false, true, false, 16, -1, -1), 0);
  }

  /** %5.3d and %05d of -7, %-5d of 7. */
  lemma PaddedFieldExamples()
    ensures Field(Spec(false, false, false, false, false, true, true, false, false, 10, 5, 3), 7) == " -007"
    ensures Field(Spec(false, true, false, false, false, true, true, false, false, 10, 5, -1), 7) == "-0007"
    ensures Field(Spec(false, false, true, false, false, true, false, false, false, 10, 5, -1), 7) == "7    "
  {
    assert Numeral(7, 10) == "7";
    hide Field, Numeral;
    PaddedField(Spec(false, false, false, false, false, true, true, false, false, 10, 5, 3), 7, "-", "00", " ", "7");
    PaddedField(Spec(false, true, false, false, false, true, true, false, false, 10, 5, -1), 7, "-", "000", "", "7");
    PaddedField(Spec(false, false, true, false, false, true, false, false, false, 10, 5, -1), 7, "", "", "    ", "7");
  }

  /** The parts of a field. */
  lemma PaddedField(spec: Spec, num: Word, prefix: string, zeros: string, blanks: string, digits: string)
    requires spec.Valid() && !spec.caps && (spec.base == 16 || num < 0x8000_0000) && digits == Numeral(num, spec.base)
    requires prefix == Prefix(spec, num)
    requires |zeros| ==
      if spec.precision >= 0 then (if spec.precision > |digits| then spec.precision - |digits| else 0)
      else if spec.zero && !spec.left && |digits| + |prefix| < spec.width then spec.width - |digits| - |prefix|
      else 0
    requires |blanks| ==
      if |prefix + zeros + digits| < spec.width then spec.width - |prefix + zeros + digits| else 0
    requires (forall k | 0 <= k < |zeros| :: zeros[k] == '0') && forall k | 0 <= k < |blanks| :: blanks[k] == ' '
    ensures Field(spec, num) ==
      if spec.left then prefix + zeros + digits + blanks else blanks + (prefix + zeros + digits)
  {
    assert Data(spec, num) == digits;
    FieldParts(spec, num);
    ZerosAre(spec, num);
    hide Data, Prefix, Field, Zeros, Numeral;
    assert zeros == Repeat('0', Zeros(spec, num));
    assert blanks == Repeat(' ', spec.width - |Core(spec, num)|);
  }

  /** %X of 255. */
  lemma CapitalFieldExample()
    ensures Field(Spec(false, false, false, false, false, false, false, false, true, 16, -1, -1), 255) == "FF"
  {
    assert ItoaText(255, 16) == Numeral(255, 16) == "ff";
    CapitalFs();
    hide ItoaText, Numeral, Capitals;
  }

  lemma CapitalFs()
    ensures Capitals("ff") == "FF"
  {
    assert "ff"[..1] == "f" && "f"[..0] == "";
    assert Capitals("f") == "F";
  }

  /** INT_MIN gets two signs. */
  lemma IntMinExample(spec: Spec)
    ensures var s, m := SignedSpec(spec, 0x8000_0000), Magnitude(0x8000_0000);
      s.Valid() && Prefix(s, m) == "-" && Data(s, m)[0] == '-'
  {
    hide ItoaText, Data, Numeral;
    LargeDecimalsCarryASign(SignedSpec(spec, 0x8000_0000), 0x8000_0000);
  }

  /** %d writes an int so that sign and digits read as that int exactly when it is not INT_MIN, the one int whose
      magnitude itoa takes for a negative number. */
  lemma SignedFieldParsesBack(spec: Spec, arg: Word)
    ensures var s, m := SignedSpec(spec, arg), Magnitude(arg);
      s.Valid() &&
      (AllDigits(Digits(s, m), 10) && SignedValue(s, m) == AsInt(arg) <==> AsInt(arg) != -0x8000_0000)
  {
    var s, m := SignedSpec(spec, arg), Magnitude(arg);
    SmallMagnitude(arg);
    hide Zeros, Data, ValueOf, Digits, AllDigits, Wrap, ItoaText, Numeral;
    if m < 0x8000_0000 {
      DigitsParseBack(s, m);
    } else {
      SignIsNoDigit(s, m);
    }
  }
}
