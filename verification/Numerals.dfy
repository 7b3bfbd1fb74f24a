/** Numerals: the digit loops of the formatter (lib/vsnprintf.c) and what they write. */
module Numerals {
  import opened Words

  /** `xdigits[d] | lower` */
  function DigitChar(d: nat, lower: bool): (c: char)
    requires d < 16
    ensures d < 10 ==> c == '0' + d as char
  {
    if d < 10 then '0' + d as char else if lower then 'a' + (d - 10) as char else 'A' + (d - 10) as char
  }

  function DigitValue(c: char): (d: nat)
    ensures d < 16
  {
    if '0' <= c <= '9' then (c - '0') as nat
    else if 'a' <= c <= 'f' then (c - 'a') as nat + 10
    else if 'A' <= c <= 'F' then (c - 'A') as nat + 10
    else 0
  }

  lemma DigitRoundTrip(d: nat, lower: bool)
    requires d < 16
    ensures DigitValue(DigitChar(d, lower)) == d
  {}

  predicate IsBase(base: nat) { base == 8 || base == 10 || base == 16 }

  /** The digits of a number without leading zeros; nothing for zero. */
  function Numeral(x: nat, base: nat, lower: bool): string
    requires IsBase(base)
    decreases x
  {
    if x == 0 then "" else Numeral(x / base, base, lower) + [DigitChar(x % base, lower)]
  }

  /** The number that a string of digits denotes. */
  function Value(s: string, base: nat): nat
    requires IsBase(base)
  {
    if s == "" then 0 else Value(s[..|s| - 1], base) * base + DigitValue(s[|s| - 1])
  }

  /** Reading a numeral back gives the number. */
  lemma {:induction false} NumeralValue(x: nat, base: nat, lower: bool)
    requires IsBase(base)
    ensures Value(Numeral(x, base, lower), base) == x
    decreases x
  {
    hide Value, Numeral;
    if x == 0 {
      NumeralOfZero(base, lower);
      NothingIsZero(base);
    } else {
      var q, d: nat := x / base, x % base;
      Quotient(x, base);
      NumeralValue(q, base, lower);
      DigitRoundTrip(d, lower);
      NumeralStep(x, base, lower, q, d);
      ValueAppend(Numeral(q, base, lower), DigitChar(d, lower), base);
      Recombine(x, base);
    }
  }

  lemma NothingIsZero(base: nat)
    requires IsBase(base)
    ensures Value("", base) == 0
  {}

  lemma ValueAppend(s: string, c: char, base: nat)
    requires IsBase(base)
    ensures Value(s + [c], base) == Value(s, base) * base + DigitValue(c)
  {
    assert (s + [c])[..|s|] == s;
  }

  lemma Recombine(x: nat, base: nat)
    requires IsBase(base)
    ensures (x / base) * base + x % base == x
  {
    if base == 8 {} else if base == 10 {} else {}
  }

  /** Numerals are decimal digits, and have no leading zero. */
  lemma {:induction false} NumeralShape(x: nat, base: nat, lower: bool)
    requires IsBase(base)
    ensures x > 0 ==> |Numeral(x, base, lower)| > 0 && DigitValue(Numeral(x, base, lower)[0]) > 0
    ensures base <= 10 ==> forall c :: c in Numeral(x, base, lower) ==> '0' <= c <= '9'
    decreases x
  {
    hide Numeral;
    if x > 0 {
      var q, d: nat := x / base, x % base;
      Quotient(x, base);
      NumeralShape(q, base, lower);
      DigitRoundTrip(d, lower);
      NumeralStep(x, base, lower, q, d);
      if q == 0 { NumeralOfZero(base, lower); }
    } else {
      NumeralOfZero(base, lower);
    }
  }

  lemma Quotient(x: nat, base: nat)
    requires IsBase(base) && x > 0
    ensures x / base < x && x % base < base && (x / base == 0 ==> x % base == x)
  {
    if base == 8 {} else if base == 10 {} else {}
  }

  lemma NumeralOfZero(base: nat, lower: bool)
    requires IsBase(base)
    ensures Numeral(0, base, lower) == ""
  {}

  lemma NumeralStep(x: nat, base: nat, lower: bool, q: nat, d: nat)
    requires IsBase(base) && x > 0 && q == x / base && d == x % base
    ensures d < 16 && Numeral(x, base, lower) == Numeral(q, base, lower) + [DigitChar(d, lower)]
  {}

  function Power(base: nat, k: nat): nat {
    if k == 0 then 1 else base * Power(base, k - 1)
  }

  lemma {:induction false} NumeralLength(x: nat, base: nat, lower: bool, k: nat)
    requires IsBase(base) && x < Power(base, k)
    ensures |Numeral(x, base, lower)| <= k
    decreases k
  {
    if x > 0 {
      assert x / base < Power(base, k - 1);
      NumeralLength(x / base, base, lower, k - 1);
    }
  }

  /** The most digits that 64 bits need. */
  function MostDigits(base: nat): nat { if base == 8 then 22 else if base == 10 then 20 else 16 }

  lemma PowersOfTen()
    ensures Power(10, 20) == 100_000_000_000_000_000_000
  {
    assert Power(10, 4) == 10_000;
    assert Power(10, 8) == 100_000_000;
    assert Power(10, 12) == 1_000_000_000_000;
    assert Power(10, 16) == 10_000_000_000_000_000;
  }

  lemma PowersOfEight()
    ensures Power(8, 22) == 73_786_976_294_838_206_464
  {
    assert Power(8, 4) == 4096;
    assert Power(8, 8) == 16_777_216;
    assert Power(8, 12) == 68_719_476_736;
    assert Power(8, 16) == 281_474_976_710_656;
    assert Power(8, 20) == 1_152_921_504_606_846_976;
  }

  lemma PowersOfSixteen()
    ensures Power(16, 16) == 18_446_744_073_709_551_616
  {
    assert Power(16, 4) == 65536;
    assert Power(16, 8) == 4_294_967_296;
    assert Power(16, 12) == 281_474_976_710_656;
  }

  /** The digits of a 64-bit number fit the 24-byte buffer, in every base. */
  lemma WordFits(x: word, base: nat, lower: bool)
    requires IsBase(base)
    ensures |Numeral(x, base, lower)| <= MostDigits(base) <= 24
  {
    hide Power, Numeral;
    PowersOfTen();
    PowersOfEight();
    PowersOfSixteen();
    NumeralLength(x, base, lower, MostDigits(base));
  }

  // ---------------------------------------------------------------- the digit loops

  /** The loop invariant: from `a` on the buffer holds the digits that are done. */
  ghost predicate DigitsDone(x: nat, y: nat, base: nat, lower: bool, buf: seq<char>, a: nat, s: nat)
    requires IsBase(base)
  {
    a <= s <= |buf| && Numeral(x, base, lower) == Numeral(y, base, lower) + buf[a..s]
  }

  lemma OneDigit(x: nat, y: nat, base: nat, lower: bool, buf: seq<char>, a: nat, s: nat)
    requires IsBase(base) && DigitsDone(x, y, base, lower, buf, a, s) && y > 0 && |Numeral(x, base, lower)| <= s
    ensures a > 0
    ensures DigitsDone(x, y / base, base, lower, buf[a - 1 := DigitChar(y % base, lower)], a - 1, s)
  {
    OneInFront(Numeral(x, base, lower), Numeral(y / base, base, lower), DigitChar(y % base, lower), buf, a, s);
  }

  lemma OneInFront(all: string, rest: string, c: char, buf: seq<char>, a: nat, s: nat)
    requires a <= s <= |buf| && all == rest + [c] + buf[a..s] && |all| <= s
    ensures a > 0 && all == rest + buf[a - 1 := c][a - 1..s]
  {
    assert |all| == |rest| + 1 + (s - a);
    assert buf[a - 1 := c][a - 1..s] == [c] + buf[a..s];
  }

  /** `fmt_u`.  Its first loop is for numbers wider than `unsigned long`, which there are none of. */
  method FmtU(x: word, buf: array<char>, s: nat) returns (a: nat)
    requires 20 <= s <= buf.Length
    modifies buf
    ensures a <= s && buf[a..s] == Numeral(x, 10, false)
    ensures buf[s..] == old(buf[s..]) && buf[..a] == old(buf[..a])
  {
    WordFits(x, 10, false);
    hide DigitsDone, Numeral;
    a := s;
    var y: nat := x;
    NoDigits(x, 10, false, buf[..], s);
    while y != 0
      invariant a <= s && DigitsDone(x, y, 10, false, buf[..], a, s)
      invariant buf[s..] == old(buf[s..]) && buf[..a] == old(buf[..a])
      decreases y
    {
      OneDigit(x, y, 10, false, buf[..], a, s);
      ghost var was := buf[..];
      a := a - 1;
      buf[a] := '0' + (y % 10) as char;
      assert buf[..] == was[a := DigitChar(y % 10, false)];
      y := y / 10;
    }
    AllDigits(x, 10, false, buf[..], a, s);
  }

  /** `fmt_o` */
  method FmtO(x: word, buf: array<char>, s: nat) returns (a: nat)
    requires 22 <= s <= buf.Length
    modifies buf
    ensures a <= s && buf[a..s] == Numeral(x, 8, false)
    ensures buf[s..] == old(buf[s..]) && buf[..a] == old(buf[..a])
  {
    WordFits(x, 8, false);
    hide DigitsDone, Numeral;
    a := s;
    var y: nat := x;
    NoDigits(x, 8, false, buf[..], s);
    while y != 0
      invariant a <= s && DigitsDone(x, y, 8, false, buf[..], a, s)
      invariant buf[s..] == old(buf[s..]) && buf[..a] == old(buf[..a])
      decreases y
    {
      OneDigit(x, y, 8, false, buf[..], a, s);
      ghost var was := buf[..];
      a := a - 1;
      buf[a] := '0' + (y % 8) as char;
      assert buf[..] == was[a := DigitChar(y % 8, false)];
      y := y / 8;
    }
    AllDigits(x, 8, false, buf[..], a, s);
  }

  /** `fmt_x` */
  method FmtX(x: word, buf: array<char>, s: nat, lower: bool) returns (a: nat)
    requires 16 <= s <= buf.Length
    modifies buf
    ensures a <= s && buf[a..s] == Numeral(x, 16, lower)
    ensures buf[s..] == old(buf[s..]) && buf[..a] == old(buf[..a])
  {
    WordFits(x, 16, lower);
    hide DigitsDone, Numeral;
    a := s;
    var y: nat := x;
    NoDigits(x, 16, lower, buf[..], s);
    while y != 0
      invariant a <= s && DigitsDone(x, y, 16, lower, buf[..], a, s)
      invariant buf[s..] == old(buf[s..]) && buf[..a] == old(buf[..a])
      decreases y
    {
      OneDigit(x, y, 16, lower, buf[..], a, s);
      ghost var was := buf[..];
      a := a - 1;
      buf[a] := DigitChar(y % 16, lower);
      assert buf[..] == was[a := DigitChar(y % 16, lower)];
      y := y / 16;
    }
    AllDigits(x, 16, lower, buf[..], a, s);
  }

  lemma NoDigits(x: nat, base: nat, lower: bool, buf: seq<char>, s: nat)
    requires IsBase(base) && s <= |buf|
    ensures DigitsDone(x, x, base, lower, buf, s, s)
  {}

  lemma AllDigits(x: nat, base: nat, lower: bool, buf: seq<char>, a: nat, s: nat)
    requires IsBase(base) && DigitsDone(x, 0, base, lower, buf, a, s)
    ensures a <= s <= |buf| && buf[a..s] == Numeral(x, base, lower)
  {}
}
