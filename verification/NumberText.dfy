/** Numbers as text: what kernel/lib/printf.c prints and kernel/lib/string.c and
    kernel/security/user.c read back. */
module NumberText {
  import opened Basics

  // ---------------------------------------------------------------- printing

  const DIGITS := "0123456789abcdef"

  predicate IsBase(base: nat) {
    base in {8, 10, 16}
  }

  /** The usual notation of a number: no leading zeros, and "0" for zero. */
  function Digits(v: nat, base: nat): (s: string)
    requires IsBase(base)
    ensures |s| > 0 && forall i :: 0 <= i < |s| ==> IsDigit(s[i], base)
  {
    DigitOf(v % base);
    if v < base then [DIGITS[v]] else Digits(v / base, base) + [DIGITS[v % base]]
  }

  /** The value of a digit character; 16 when it is none. */
  function DigitValue(c: char): (d: nat)
    ensures d <= 16
  {
    if '0' <= c <= '9' then c as nat - '0' as nat
    else if 'a' <= c <= 'f' then c as nat - 'a' as nat + 10
    else if 'A' <= c <= 'F' then c as nat - 'A' as nat + 10
    else 16
  }

  predicate IsDigit(c: char, base: nat) {
    DigitValue(c) < base
  }

  /** Sixteen digits, the upper ones in either case, and no other characters. */
  lemma DigitsMean(c: char)
    ensures IsDigit(c, 8) <==> c in "01234567"
    ensures IsDigit(c, 10) <==> c in "0123456789"
    ensures IsDigit(c, 16) <==> c in "0123456789abcdef" || c in "ABCDEF"
    ensures c in "ABCDEF" ==> DigitValue(c) == DigitValue(c + ('a' - 'A'))
  {
  }

  /** No number but zero starts with a zero. */
  lemma {:induction false} NoLeadingZero(v: nat, base: nat)
    requires IsBase(base)
    ensures Digits(v, base)[0] == '0' <==> v == 0
  {
    hide IsDigit, DigitValue;
    assert base > 0;
    hide IsBase;
    assert forall d :: 0 < d < 16 ==> DIGITS[d] != '0';
    if v >= base {
      Quotient(v, base);
      NoLeadingZero(v / base, base);
    }
  }

  lemma Quotient(v: nat, base: nat)
    requires IsBase(base) && v >= base
    ensures 0 < v / base < v
  {
  }

  lemma DigitOf(d: nat)
    requires d < 16
    ensures DigitValue(DIGITS[d]) == d
  {
  }

  function Reversed(s: string): string {
    if s == "" then "" else Reversed(s[1..]) + [s[0]]
  }

  function Pow8(n: nat): nat {
    if n == 0 then 1 else 8 * Pow8(n - 1)
  }

  /** A 64-bit number in base 8, 10 or 16: least significant digit first, then turned round. The
      buffer of 32 digits never runs out. */
  method UnsignedToString(value: nat, base: nat) returns (s: string)
    requires value < TWO_64 && IsBase(base)
    ensures s == Digits(value, base)
  {
    hide Digits, Reversed, Pow8, IsBase, Remaining;
    if value == 0 {
      DigitsOfZero(base);
      return "0";
    }
    var tmp := "";
    var v: nat := value;
    BigPower();
    RemainingDigits(value, base);
    ReversedNothing();
    while v != 0 && |tmp| < 32
      invariant |tmp| <= 32 && v < Pow8(32 - |tmp|)
      invariant Remaining(v, base) + Reversed(tmp) == Digits(value, base)
      decreases 32 - |tmp|
    {
      var c, w := TakeDigit(v, base, 32 - |tmp|);
      ReversedSnoc(tmp, c);
      assert Remaining(w, base) + [c] + Reversed(tmp) == Remaining(w, base) + ([c] + Reversed(tmp));
      tmp := tmp + [c];
      v := w;
    }
    NoPower(v, 32 - |tmp|);
    RemainingDigits(v, base);
    s := TurnRound(tmp);
  }

  /** The digits still to come; none for zero. */
  function Remaining(v: nat, base: nat): string
    requires IsBase(base)
  {
    if v == 0 then "" else Digits(v, base)
  }

  lemma RemainingDigits(v: nat, base: nat)
    requires IsBase(base)
    ensures Remaining(v, base) == if v == 0 then "" else Digits(v, base)
  {
  }

  lemma LastDigit(v: nat, base: nat)
    requires IsBase(base) && v != 0
    ensures Remaining(v, base) == Remaining(v / base, base) + [DIGITS[v % base]]
  {
    if v < base {
      assert v / base == 0 && v % base == v;
    }
  }

  /** The last digit and what is left. */
  method TakeDigit(v: nat, base: nat, ghost n: nat) returns (c: char, w: nat)
    requires IsBase(base) && v != 0 && n > 0 && v < Pow8(n)
    ensures Remaining(v, base) == Remaining(w, base) + [c] && w < Pow8(n - 1)
  {
    hide Pow8, Digits;
    SmallerPower(v, base, n);
    LastDigit(v, base);
    c, w := DIGITS[v % base], v / base;
  }

  lemma DigitsOfZero(base: nat)
    requires IsBase(base)
    ensures Digits(0, base) == "0"
  {
    assert "0" == [DIGITS[0]];
  }

  lemma ReversedNothing()
    ensures Reversed("") == ""
  {
  }

  lemma NoPower(v: nat, n: nat)
    requires v < Pow8(n) && (v == 0 || n == 0)
    ensures v == 0
  {
  }

  method TurnRound(tmp: string) returns (s: string)
    ensures s == Reversed(tmp)
  {
    s := "";
    var i := |tmp|;
    while i > 0
      invariant 0 <= i <= |tmp|
      invariant s == Reversed(tmp[i..])
    {
      i := i - 1;
      s := s + [tmp[i]];
    }
  }

  lemma BigPower()
    ensures Pow8(32) >= TWO_64
  {
    assert Pow8(4) == 4096;
    assert Pow8(8) == 4096 * Pow8(4);
    assert Pow8(12) == 4096 * Pow8(8);
    assert Pow8(16) == 4096 * Pow8(12);
    assert Pow8(20) == 4096 * Pow8(16);
    assert Pow8(24) == 4096 * Pow8(20);
    assert Pow8(28) == 4096 * Pow8(24);
    assert Pow8(32) == 4096 * Pow8(28);
  }

  lemma SmallerPower(v: nat, base: nat, n: nat)
    requires IsBase(base) && n > 0 && v < Pow8(n)
    ensures v / base < Pow8(n - 1)
  {
  }

  lemma {:induction false} ReversedSnoc(s: string, c: char)
    ensures Reversed(s + [c]) == [c] + Reversed(s)
  {
    if s == "" {
      assert s + [c] == [c];
    } else {
      assert (s + [c])[1..] == s[1..] + [c];
      ReversedSnoc(s[1..], c);
    }
  }

  function ZeroDigits(n: nat): (s: string)
    ensures |s| == n && forall i :: 0 <= i < n ==> s[i] == '0'
  {
    seq(n, _ => '0')
  }

  /** `s` filled up with zeros on the left to `width` characters. */
  function ZeroPadded(s: string, width: nat): string {
    if |s| < width then ZeroDigits(width - |s|) + s else s
  }

  // ---------------------------------------------------------------- reading

  /** Reading digits until something else comes, on top of what was read before. */
  function ValueFrom(s: string, base: nat, acc: nat): nat
    requires IsBase(base)
  {
    if s == "" || !IsDigit(s[0], base) then acc else ValueFrom(s[1..], base, acc * base + DigitValue(s[0]))
  }

  lemma {:induction false} ValueConcat(a: string, b: string, base: nat, acc: nat)
    requires IsBase(base) && forall i :: 0 <= i < |a| ==> IsDigit(a[i], base)
    ensures ValueFrom(a + b, base, acc) == ValueFrom(b, base, ValueFrom(a, base, acc))
  {
    if a == "" {
      assert a + b == b;
    } else {
      assert (a + b)[1..] == a[1..] + b;
      ValueConcat(a[1..], b, base, acc * base + DigitValue(a[0]));
    }
  }

  /** Reading what was printed gives the number back, and stops at the end of its digits. */
  lemma {:induction false} ReadDigits(v: nat, base: nat, rest: string)
    requires IsBase(base) && (rest == "" || !IsDigit(rest[0], base))
    ensures ValueFrom(Digits(v, base) + rest, base, 0) == v
  {
    ReadAlone(v, base);
    ValueConcat(Digits(v, base), rest, base, 0);
  }

  lemma {:induction false} ReadAlone(v: nat, base: nat)
    requires IsBase(base)
    ensures ValueFrom(Digits(v, base), base, 0) == v
  {
    if v >= base {
      ReadAlone(v / base, base);
      Whole(v, base);
      ReadLast(v / base, base, v % base, [DIGITS[v % base]]);
    } else {
      ReadOne(v, base);
    }
  }

  lemma ReadOne(d: nat, base: nat)
    requires IsBase(base) && d < base
    ensures ValueFrom([DIGITS[d]], base, 0) == d
  {
    DigitOf(d);
    assert [DIGITS[d]][1..] == "";
  }

  lemma ReadLast(v: nat, base: nat, d: nat, last: string)
    requires IsBase(base) && d < base && last == [DIGITS[d]] && ValueFrom(Digits(v, base), base, 0) == v
    ensures ValueFrom(Digits(v, base) + last, base, 0) == v * base + d
  {
    DigitOf(d);
    hide Digits, IsBase;
    assert last[1..] == "";
    ValueConcat(Digits(v, base), last, base, 0);
  }

  lemma Whole(v: nat, base: nat)
    requires IsBase(base)
    ensures v / base * base + v % base == v
  {
  }

  lemma {:induction false} ReadZeros(n: nat, s: string, base: nat)
    requires IsBase(base)
    ensures ValueFrom(ZeroDigits(n) + s, base, 0) == ValueFrom(s, base, 0)
  {
    if n == 0 {
      assert ZeroDigits(n) + s == s;
    } else {
      assert (ZeroDigits(n) + s)[1..] == ZeroDigits(n - 1) + s;
      ReadZeros(n - 1, s, base);
    }
  }

  /** Zero padding does not change what is read. */
  lemma ReadPadded(v: nat, base: nat, width: nat, rest: string)
    requires IsBase(base) && (rest == "" || !IsDigit(rest[0], base))
    ensures ValueFrom(ZeroPadded(Digits(v, base), width) + rest, base, 0) == v
  {
    var d := Digits(v, base);
    ReadDigits(v, base, rest);
    if |d| < width {
      assert ZeroDigits(width - |d|) + d + rest == ZeroDigits(width - |d|) + (d + rest);
      ReadZeros(width - |d|, d + rest, base);
    }
  }

  /** Hexadecimal digits into 64 bits. */
  method ParseHex64(text: string) returns (value: nat)
    ensures value == ValueFrom(text, 16, 0) % TWO_64
  {
    value := 0;
    var s := text;
    ghost var exact: nat := 0;
    while s != "" && DigitValue(s[0]) < 16
      invariant ValueFrom(s, 16, exact) == ValueFrom(text, 16, 0)
      invariant value == exact % TWO_64
      decreases |s|
    {
      ShiftIn(exact, DigitValue(s[0]));
      value := (value * 16 + DigitValue(s[0])) % TWO_64;
      exact := exact * 16 + DigitValue(s[0]);
      s := s[1..];
    }
  }

  lemma ShiftIn(exact: nat, d: nat)
    ensures (exact % TWO_64 * 16 + d) % TWO_64 == (exact * 16 + d) % TWO_64
  {
    var q, r := exact / TWO_64, exact % TWO_64;
    assert exact * 16 + d == TWO_64 * (16 * q) + (r * 16 + d);
    WholeMultiple(16 * q, r * 16 + d);
  }

  lemma WholeMultiple(k: nat, x: nat)
    ensures (TWO_64 * k + x) % TWO_64 == x % TWO_64
  {
  }

  /** What `atoi` makes of a text: blanks, a sign, digits. */
  function Signed(s: string): int {
    if s != "" && (s[0] == ' ' || s[0] == '\t' || s[0] == '\n') then Signed(s[1..])
    else if s != "" && s[0] == '-' then 0 - ValueFrom(s[1..], 10, 0)
    else if s != "" && s[0] == '+' then ValueFrom(s[1..], 10, 0)
    else ValueFrom(s, 10, 0)
  }

  /** `(uint32_t)atoi(s)`: the value modulo 2^32, as the conversions between widths keep it. */
  method ParseUnsigned32(text: string) returns (value: nat)
    ensures value == Signed(text) % TWO_32
  {
    var s := text;
    while s != "" && (s[0] == ' ' || s[0] == '\t' || s[0] == '\n')
      invariant Signed(s) == Signed(text)
      decreases |s|
    {
      s := s[1..];
    }
    var sign := 1;
    if s != "" && s[0] == '-' {
      sign := -1;
      s := s[1..];
    } else if s != "" && s[0] == '+' {
      s := s[1..];
    }
    var v: nat := 0;
    ghost var digits := s;
    while s != "" && DigitValue(s[0]) < 10
      invariant ValueFrom(s, 10, v) == ValueFrom(digits, 10, 0)
      decreases |s|
    {
      v := v * 10 + DigitValue(s[0]);
      s := s[1..];
    }
    assert v * sign == if sign == -1 then 0 - v else v;
    value := v * sign % TWO_32;
  }

  predicate IsBlank(s: string) {
    forall i :: 0 <= i < |s| ==> s[i] in {' ', '\t', '\n'}
  }

  /** A number with blanks in front and a sign reads back with its sign. */
  lemma {:induction false} ReadSign(blanks: string, sign: char, v: nat, rest: string)
    requires IsBlank(blanks) && sign in {'-', '+'} && (rest == "" || !IsDigit(rest[0], 10))
    ensures Signed(blanks + ([sign] + (Digits(v, 10) + rest))) == if sign == '-' then 0 - v else v
  {
    hide Digits, IsDigit, ValueFrom;
    var number := [sign] + (Digits(v, 10) + rest);
    var s := blanks + number;
    if blanks == "" {
      assert s == number && number[1..] == Digits(v, 10) + rest;
      ReadDigits(v, 10, rest);
    } else {
      assert s[1..] == blanks[1..] + number;
      ReadSign(blanks[1..], sign, v, rest);
    }
  }

  lemma ReadSigned(v: nat, rest: string)
    requires rest == "" || !IsDigit(rest[0], 10)
    ensures Signed(Digits(v, 10) + rest) == v
  {
    var s := Digits(v, 10) + rest;
    assert IsDigit(s[0], 10);
    ReadDigits(v, 10, rest);
  }
}
