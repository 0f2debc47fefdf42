/** Decimal text of 32-bit integers: printf("%d") and atoi(). */
module Decimal {
  import opened Basics

  type int32 = n: int | -0x8000_0000 <= n < 0x8000_0000

  function Digit(d: nat): char
    requires d < 10
  {
    '0' + d as char
  }

  predicate IsDigit(c: char) {
    '0' <= c <= '9'
  }

  function DigitValue(c: char): nat
    requires IsDigit(c)
  {
    (c - '0') as nat
  }

  function Digits(n: nat): (s: string)
    ensures s != "" && forall i :: 0 <= i < |s| ==> IsDigit(s[i])
  {
    if n < 10 then [Digit(n)] else Digits(n / 10) + [Digit(n % 10)]
  }

  // "%d"
  function Print(n: int): (s: string)
    ensures s != ""
  {
    if n < 0 then "-" + Digits(-n) else Digits(n)
  }

  // The number that the leading digits of s continue.
  function ReadDigits(s: string, acc: nat): nat {
    if s == "" || !IsDigit(s[0]) then acc else ReadDigits(s[1..], acc * 10 + DigitValue(s[0]))
  }

  function SkipSpace(s: string): string {
    if s != "" && s[0] in " \t\n\r\U{0B}\U{0C}" then SkipSpace(s[1..]) else s
  }

  function Signed(s: string): int {
    if s != "" && s[0] == '-' then -(ReadDigits(s[1..], 0) as int)
    else if s != "" && s[0] == '+' then ReadDigits(s[1..], 0)
    else ReadDigits(s, 0)
  }

  // The low 32 bits, as a signed number.
  function Truncate(n: int): int32 {
    (n + 0x8000_0000) % 0x1_0000_0000 - 0x8000_0000
  }

  // A long holds 64 bits; reading more saturates.
  function ToLong(n: int): int {
    if n < -0x8000_0000_0000_0000 then -0x8000_0000_0000_0000
    else if n > 0x7fff_ffff_ffff_ffff then 0x7fff_ffff_ffff_ffff
    else n
  }

  function Atoi(s: string): int32 {
    Truncate(ToLong(Signed(SkipSpace(s))))
  }

  lemma {:induction false} ReadOneMore(s: string, c: char, acc: nat)
    requires IsDigit(c) && forall i :: 0 <= i < |s| ==> IsDigit(s[i])
    ensures ReadDigits(s + [c], acc) == ReadDigits(s, acc) * 10 + DigitValue(c)
  {
    if s == "" {
      assert s + [c] == [c];
      assert ReadDigits([c][1..], acc * 10 + DigitValue(c)) == acc * 10 + DigitValue(c);
    } else {
      assert (s + [c])[1..] == s[1..] + [c];
      ReadOneMore(s[1..], c, acc * 10 + DigitValue(s[0]));
    }
  }

  lemma {:induction false} ReadsDigits(n: nat)
    ensures ReadDigits(Digits(n), 0) == n
  {
    if n < 10 {
      assert Digits(n)[1..] == "";
    } else {
      ReadsDigits(n / 10);
      ReadOneMore(Digits(n / 10), Digit(n % 10), 0);
    }
  }

  lemma SignedReadsPrint(n: int)
    ensures Signed(Print(n)) == n && SkipSpace(Print(n)) == Print(n)
  {
    if n < 0 {
      ReadsDigits(-n);
      assert Print(n)[1..] == Digits(-n);
    } else {
      ReadsDigits(n);
      assert IsDigit(Digits(n)[0]);
    }
  }

  lemma InRange(n: int32)
    ensures Truncate(ToLong(n)) == n
  {}

  // Space before a number is skipped, and what follows it is not looked at.
  lemma AtoiReadsNumber(space: string, n: int32, rest: string)
    requires forall i :: 0 <= i < |space| ==> space[i] in " \t\n\r\U{0B}\U{0C}"
    requires rest != "" ==> !IsDigit(rest[0])
    ensures Atoi(space + (Print(n) + rest)) == n
  {
    SpaceIsSkipped(space, Print(n) + rest);
    SignedReadsFront(n, rest);
    InRange(n);
  }

  lemma AtoiReadsPlus(n: nat, rest: string)
    requires n < 0x8000_0000 && (rest != "" ==> !IsDigit(rest[0]))
    ensures Atoi("+" + (Digits(n) + rest)) == n
  {
    var s := "+" + (Digits(n) + rest);
    assert s[0] == '+' && s[1..] == Digits(n) + rest;
    DigitsReadFront(n, rest);
    assert SkipSpace(s) == s;
    InRange(n);
  }

  // Numbers that are too large for an int lose their high bits, and those too large for a long are
  // taken for the largest.
  lemma AtoiWraps(n: int)
    ensures -0x8000_0000_0000_0000 <= n < 0x8000_0000_0000_0000 ==> (n - Atoi(Print(n))) % 0x1_0000_0000 == 0
    ensures n >= 0x8000_0000_0000_0000 ==> Atoi(Print(n)) == -1
    ensures n < -0x8000_0000_0000_0000 ==> Atoi(Print(n)) == 0
  {
    SignedReadsPrint(n);
    if n < -0x8000_0000_0000_0000 {
      TruncateIs(-0x8000_0000_0000_0000, -0x8000_0000, 0);
    } else if n > 0x7fff_ffff_ffff_ffff {
      TruncateIs(0x7fff_ffff_ffff_ffff, 0x8000_0000, -1);
    } else {
      LowBitsStay(n);
    }
  }

  lemma LowBitsStay(n: int)
    ensures (n - Truncate(n)) % 0x1_0000_0000 == 0
  {
    var q := (n + 0x8000_0000) / 0x1_0000_0000;
    assert n - Truncate(n) == q * 0x1_0000_0000;
  }

  lemma TruncateIs(n: int, q: int, r: int32)
    requires n == q * 0x1_0000_0000 + r
    ensures Truncate(n) == r
  {
    assert n + 0x8000_0000 == q * 0x1_0000_0000 + (r + 0x8000_0000);
  }

  lemma SignedReadsFront(n: int, rest: string)
    requires rest != "" ==> !IsDigit(rest[0])
    ensures Signed(Print(n) + rest) == n && SkipSpace(Print(n) + rest) == Print(n) + rest
  {
    DigitsReadFront(if n < 0 then -n else n, rest);
    if n < 0 {
      NegatedText(Digits(-n) + rest);
      Associates("-", Digits(-n), rest);
    }
  }

  lemma DigitsReadFront(n: nat, rest: string)
    requires rest != "" ==> !IsDigit(rest[0])
    ensures ReadDigits(Digits(n) + rest, 0) == n
    ensures Signed(Digits(n) + rest) == n && SkipSpace(Digits(n) + rest) == Digits(n) + rest
  {
    ReadsFront(Digits(n), rest, 0);
    ReadsDigits(n);
    StartsWithDigit(Digits(n) + rest);
  }

  lemma NegatedText(s: string)
    ensures Signed("-" + s) == 0 - ReadDigits(s, 0) && SkipSpace("-" + s) == "-" + s
  {
    assert ("-" + s)[1..] == s && ("-" + s)[0] == '-';
  }

  lemma StartsWithDigit(s: string)
    requires s != "" && IsDigit(s[0])
    ensures Signed(s) == ReadDigits(s, 0) && SkipSpace(s) == s
  {}

  lemma {:induction false} SpaceIsSkipped(space: string, s: string)
    requires forall i :: 0 <= i < |space| ==> space[i] in " \t\n\r\U{0B}\U{0C}"
    ensures SkipSpace(space + s) == SkipSpace(s)
  {
    if space == "" {
      assert space + s == s;
    } else {
      assert (space + s)[1..] == space[1..] + s;
      SpaceIsSkipped(space[1..], s);
    }
  }

  lemma {:induction false} ReadsFront(s: string, rest: string, acc: nat)
    requires forall i :: 0 <= i < |s| ==> IsDigit(s[i])
    requires rest != "" ==> !IsDigit(rest[0])
    ensures ReadDigits(s + rest, acc) == ReadDigits(s, acc)
  {
    if s == "" {
      assert s + rest == rest;
    } else {
      assert (s + rest)[1..] == s[1..] + rest;
      ReadsFront(s[1..], rest, acc * 10 + DigitValue(s[0]));
    }
  }

  // What the digits look like.
  lemma PrintExample()
    ensures Print(1234567890) == "1234567890" && Print(-45) == "-45"
  {
    assert Digits(12) == "12" && Digits(123) == "123" && Digits(1234) == "1234" && Digits(12345) == "12345";
    assert Digits(123456) == "123456" && Digits(1234567) == "1234567" && Digits(12345678) == "12345678";
    assert Digits(123456789) == "123456789" && Digits(45) == "45";
  }

  // Reading back what was printed gives the number, over the whole range.
  lemma AtoiReadsPrint(n: int32)
    ensures Atoi(Print(n)) == n
  {
    SignedReadsPrint(n);
    InRange(n);
  }
}
