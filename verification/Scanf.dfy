/** Reading with `vfscanf` (lib/vfscanf.c): characters that can be put back, white space, and the `%d`
    conversion; and that it reads what `printf` prints. */
module Scanf {
  import opened Wrappers
  import opened Words
  import opened Numerals
  import opened Printf

  predicate IsSpace(c: char) { c == ' ' || c == '\t' || c == '\n' || c == '\r' || c == '\U{0C}' || c == '\U{0B}' }

  function Reversed(s: string): (r: string)
    ensures |r| == |s|
  {
    if s == "" then "" else Reversed(s[1..]) + [s[0]]
  }

  /** A FILE to read from: 16 places for characters put back, and what `read` has yet to deliver. */
  class Stream {
    const ungetBuf: array<char>
    var ungetCount: nat
    var input: string

    ghost predicate Valid()
      reads this
    {
      ungetBuf.Length == 16 && ungetCount <= 16
    }

    /** The characters to come: the last one put back first. */
    ghost function Pending(): string
      requires Valid()
      reads this, ungetBuf
    {
      Reversed(ungetBuf[..ungetCount]) + input
    }

    constructor (input: string)
      ensures Valid() && Pending() == input && fresh(ungetBuf)
    {
      ungetBuf := new char[16];
      ungetCount := 0;
      this.input := input;
    }

    /** `file_getc`: None stands for EOF.  Afterwards there is room to put a character back. */
    method GetC() returns (c: Option<char>)
      requires Valid()
      modifies this`ungetCount, this`input
      ensures Valid()
      ensures c.None? ==> old(Pending()) == "" && Pending() == ""
      ensures c.Some? ==> old(Pending()) == [c.value] + Pending() && ungetCount < 16
    {
      if ungetCount > 0 {
        ReversedSnoc(ungetBuf[..ungetCount - 1], ungetBuf[ungetCount - 1]);
        assert ungetBuf[..ungetCount - 1] + [ungetBuf[ungetCount - 1]] == ungetBuf[..ungetCount];
        ungetCount := ungetCount - 1;
        return Some(ungetBuf[ungetCount]);
      }
      if input == "" { return None; }
      c := Some(input[0]);
      input := input[1..];
    }

    /** `file_ungetc`; a character beyond the sixteenth is dropped. */
    method UngetC(c: Option<char>)
      requires Valid()
      modifies this`ungetCount, ungetBuf
      ensures Valid()
      ensures Pending() == if c.Some? && old(ungetCount) < 16 then [c.value] + old(Pending()) else old(Pending())
    {
      if c.None? || ungetCount >= 16 { return; }
      ReversedSnoc(ungetBuf[..ungetCount], c.value);
      ungetBuf[ungetCount] := c.value;
      assert ungetBuf[..ungetCount + 1] == old(ungetBuf[..ungetCount]) + [c.value];
      ungetCount := ungetCount + 1;
    }

    /** `skip_whitespace` */
    method SkipWhitespace()
      requires Valid()
      modifies this`ungetCount, this`input, ungetBuf
      ensures Valid() && Pending() == AfterSpace(old(Pending()))
    {
      var c := GetC();
      while c.Some?
        invariant Valid()
        invariant c.Some? ==> ungetCount < 16 && AfterSpace(old(Pending())) == AfterSpace([c.value] + Pending())
        invariant c.None? ==> Pending() == "" && AfterSpace(old(Pending())) == ""
        decreases |Pending()|, c.Some?
      {
        ghost var rest := Pending();
        assert ([c.value] + rest)[1..] == rest;
        if !IsSpace(c.value) {
          UngetC(c);
          return;
        }
        c := GetC();
      }
    }

    /** The `%d` case: None when no digit follows.  `width` 0 means any number of digits. */
    method ScanInt(width: nat) returns (r: Option<int>)
      requires Valid()
      modifies this`ungetCount, this`input, ungetBuf
      ensures Valid() && ReadInt(old(Pending()), width) == (r, Pending())
    {
      hide RunEnd, Value, Wrap32, AfterSpace, AfterSign, DigitRun, Stream.Pending;
      SkipWhitespace();
      ghost var s := Pending();
      ghost var t := AfterSign(s);
      var sign, c := ReadSign();
      if c.None? || !IsDigit(c.value) {
        NoDigitHere(t, width);
        UngetC(c);
        return None;
      }
      SomeDigitHere(t, width);
      SignLeaves(s);
      var value;
      value, c := ReadDigits(c, width);
      UngetC(c);
      SignedWrap(sign, Value(t[..DigitRun(t, width)], 10));
      return Some(Wrap32(value * sign));
    }

    /** The optional sign, and the character behind it. */
    method ReadSign() returns (sign: int, c: Option<char>)
      requires Valid()
      modifies this`ungetCount, this`input
      ensures Valid() && (c.Some? ==> ungetCount < 16) && (c.None? ==> Pending() == "")
      ensures Ahead(c, Pending()) == AfterSign(old(Pending()))
      ensures sign == if old(Pending()) != "" && old(Pending())[0] == '-' then -1 else 1
    {
      sign := 1;
      c := GetC();
      if c == Some('-') {
        sign := -1;
        c := GetC();
      } else if c == Some('+') {
        c := GetC();
      }
    }

    /** The loop over the digits, with the arithmetic of a 32-bit int. */
    method ReadDigits(c0: Option<char>, width: nat) returns (value: int, c: Option<char>)
      requires Valid() && c0.Some? && ungetCount < 16
      modifies this`ungetCount, this`input
      ensures Valid() && (c.Some? ==> ungetCount < 16)
      ensures var t := Ahead(c0, old(Pending())); var n := DigitRun(t, width);
              value == Wrap32(Value(t[..n], 10)) && Ahead(c, Pending()) == t[n..]
    {
      hide Value, Wrap32, RunEnd, DigitRun, Stream.Pending;
      ghost var t := Ahead(c0, Pending());
      ghost var all := DigitRun(t, width);
      var digits: nat := 0;
      value, c := 0, c0;
      NoValue();
      assert t[..0] == "";
      while c.Some? && IsDigit(c.value) && (width == 0 || digits < width)
        invariant Valid() && (c.Some? ==> ungetCount < 16)
        invariant digits <= all && Ahead(c, Pending()) == t[digits..] && (c.None? ==> Pending() == "")
        invariant value == Wrap32(Value(t[..digits], 10))
        decreases |t| - digits
      {
        DigitGoesOn(t, width, digits);
        ghost var d := t[digits];
        assert t[..digits + 1] == t[..digits] + [d];
        ValueAppend(t[..digits], d, 10);
        WrapStep(Value(t[..digits], 10), (d - '0') as int);
        value := Wrap32(value * 10 + (c.value - '0') as int);
        c := GetC();
        digits := digits + 1;
      }
      DigitsEnd(t, width, digits);
    }
  }

  lemma {:induction false} ReversedSnoc(s: string, c: char)
    ensures Reversed(s + [c]) == [c] + Reversed(s)
  {
    if s != "" {
      ReversedSnoc(s[1..], c);
      assert (s + [c])[1..] == s[1..] + [c];
    } else {
      assert [c][1..] == "";
    }
  }

  /** The characters to come, the one already taken included. */
  function Ahead(c: Option<char>, rest: string): string { if c.Some? then [c.value] + rest else rest }

  // ---------------------------------------------------------------- what "%d" reads

  function AfterSpace(s: string): string {
    if s != "" && IsSpace(s[0]) then AfterSpace(s[1..]) else s
  }

  function AfterSign(s: string): string {
    if s != "" && (s[0] == '-' || s[0] == '+') then s[1..] else s
  }

  /** The number of digits at the front, as far as the width goes. */
  function DigitRun(s: string, width: nat): (n: nat)
    ensures n <= |s|
  {
    var n := RunEnd(s, 0, IsDigit);
    if width > 0 && n > width then width else n
  }

  /** What "%d" makes of the characters to come: white space, a sign, digits.  If there is no digit the
      white space and the sign are gone all the same. */
  function ReadInt(s0: string, width: nat): (Option<int>, string) {
    var s := AfterSpace(s0);
    var t := AfterSign(s);
    var n := DigitRun(t, width);
    if n == 0 then (None, t)
    else (Some(Wrap32(if s[0] == '-' then -(Value(t[..n], 10) as int) else Value(t[..n], 10))), t[n..])
  }

  lemma NoDigitHere(t: string, width: nat)
    requires t == "" || !IsDigit(t[0])
    ensures DigitRun(t, width) == 0
  {}

  lemma SomeDigitHere(t: string, width: nat)
    requires t != "" && IsDigit(t[0])
    ensures DigitRun(t, width) > 0
  {}

  lemma SignLeaves(s: string)
    ensures AfterSign(s) != "" ==> s != ""
  {}

  lemma DigitGoesOn(t: string, width: nat, k: nat)
    requires k < |t| && IsDigit(t[k]) && k <= DigitRun(t, width) && (width == 0 || k < width)
    ensures k < DigitRun(t, width)
  {}

  lemma DigitsEnd(t: string, width: nat, k: nat)
    requires k <= DigitRun(t, width) && (k < |t| && IsDigit(t[k]) ==> width > 0 && k >= width)
    ensures k == DigitRun(t, width)
  {}

  lemma NoValue()
    ensures Value("", 10) == 0 && Wrap32(0) == 0
  {}

  lemma WrapAdds(a: int, k: int)
    ensures Wrap32(a + 0x1_0000_0000 * k) == Wrap32(a)
  {}

  /** Wrapping after every digit is wrapping once at the end. */
  lemma WrapStep(a: int, d: int)
    ensures Wrap32(Wrap32(a) * 10 + d) == Wrap32(a * 10 + d)
  {
    hide Wrap32;
    var k := WrapQuotient(a);
    WrapAdds(a * 10 + d, 10 * k);
  }

  lemma WrapQuotient(a: int) returns (k: int)
    ensures Wrap32(a) == a + 0x1_0000_0000 * k
  {
    k := if a % 0x1_0000_0000 < 0x8000_0000 then -(a / 0x1_0000_0000) else -(a / 0x1_0000_0000) - 1;
  }

  lemma SignedWrap(sign: int, a: int)
    requires sign == 1 || sign == -1
    ensures Wrap32(Wrap32(a) * sign) == Wrap32(if sign == -1 then -a else a)
  {
    hide Wrap32;
    var k := WrapQuotient(a);
    WrapAdds(if sign == -1 then -a else a, if sign == -1 then -k else k);
  }

  // ---------------------------------------------------------------- reading what was printed

  /** A number printed with "%d" and read with "%d" is the same number, and reading stops just behind
      its digits, whatever follows, as long as that is not another digit. */
  lemma PrintThenScan(v: word, rest: string)
    requires rest != "" ==> !IsDigit(rest[0])
    ensures var out := Render("%d", 0, [Num(v)], 0, 0);
            out.end.Complete? && ReadInt(out.text + rest, 0) == (Some(Int32(v)), rest)
  {
    PrintInt(v);
    ReadIntText(Int32(v), rest);
  }

  lemma ReadIntText(n: int, rest: string)
    requires -0x8000_0000 <= n < 0x8000_0000 && (rest != "" ==> !IsDigit(rest[0]))
    ensures ReadInt(IntText(n) + rest, 0) == (Some(n), rest)
  {
    hide RunEnd, Numeral, Value, Wrap32, ReadInt;
    var digits := if n == 0 then "0" else Numeral(if n < 0 then -n else n, 10, false);
    IntDigits(n);
    RunOfDigits(digits, rest);
    WrapFits(n);
    var s := IntText(n) + rest;
    if n < 0 {
      assert s == "-" + digits + rest && s[1..] == digits + rest;
      assert AfterSign(s) == digits + rest;
    } else {
      assert s == digits + rest && s[0] in digits;
    }
    ReadParts(s, digits, rest);
  }

  lemma WrapFits(n: int)
    requires -0x8000_0000 <= n < 0x8000_0000
    ensures Wrap32(n) == n
  {}

  lemma ReadParts(s: string, digits: string, rest: string)
    requires s != "" && !IsSpace(s[0]) && AfterSign(s) == digits + rest && digits != ""
    requires RunEnd(digits + rest, 0, IsDigit) == |digits|
    ensures ReadInt(s, 0)
         == (Some(Wrap32(if s[0] == '-' then -(Value(digits, 10) as int) else Value(digits, 10))), rest)
  {
    hide RunEnd, Value, Wrap32;
    assert AfterSpace(s) == s;
    assert (digits + rest)[..|digits|] == digits && (digits + rest)[|digits|..] == rest;
  }

  lemma IntDigits(n: int)
    ensures var digits := if n == 0 then "0" else Numeral(if n < 0 then -n else n, 10, false);
            |digits| > 0 && (forall c :: c in digits ==> IsDigit(c)) && Value(digits, 10) == if n < 0 then -n else n
  {
    hide Numeral;
    if n == 0 {
      assert "0"[..0] == "";
    } else {
      NumeralShape(if n < 0 then -n else n, 10, false);
      NumeralValue(if n < 0 then -n else n, 10, false);
    }
  }

  lemma RunOfDigits(digits: string, rest: string)
    requires (forall c :: c in digits ==> IsDigit(c)) && (rest != "" ==> !IsDigit(rest[0]))
    ensures RunEnd(digits + rest, 0, IsDigit) == |digits|
  {
    var t, j := digits + rest, RunEnd(digits + rest, 0, IsDigit);
    assert forall k :: 0 <= k < |digits| ==> t[k] in digits;
    assert rest != "" ==> t[|digits|] == rest[0];
  }

  // ---------------------------------------------------------------- white space, signs and widths

  /** The six white-space characters of ISO/IEC 9899:2011, section 7.4.1.10. */
  predicate IsBlank(c: char) {
    c in [' ', '\t', '\n', '\U{0B}', '\U{0C}', '\r']
  }

  /** Skipping takes white space and nothing else, and what is left begins with something else. */
  lemma {:induction false} SkipsExactlySpace(s: string) returns (n: nat)
    ensures n <= |s| && AfterSpace(s) == s[n..] && (forall k :: 0 <= k < n ==> IsBlank(s[k]))
    ensures n < |s| ==> !IsBlank(s[n])
  {
    if s != "" && IsSpace(s[0]) {
      n := SkipsExactlySpace(s[1..]);
      n := n + 1;
    } else {
      n := 0;
      assert s[0..] == s;
    }
  }

  lemma SpaceIsSkipped(ws: string, s: string)
    requires (forall c :: c in ws ==> IsBlank(c)) && (s != "" ==> !IsBlank(s[0]))
    ensures AfterSpace(ws + s) == s
  {
    var n := SkipsExactlySpace(ws + s);
    assert forall k :: 0 <= k < |ws| ==> (ws + s)[k] == ws[k] && ws[k] in ws;
    assert s != "" ==> (ws + s)[|ws|] == s[0];
    assert n == |ws|;
    assert (ws + s)[|ws|..] == s;
  }

  /** So the white space in front does not matter. */
  lemma ReadSkips(ws: string, s: string, width: nat)
    requires (forall c :: c in ws ==> IsBlank(c)) && (s != "" ==> !IsBlank(s[0]))
    ensures ReadInt(ws + s, width) == ReadInt(s, width)
  {
    hide DigitRun, Value, AfterSign;
    SpaceIsSkipped(ws, s);
    SpaceIsSkipped("", s);
    assert "" + s == s;
  }

  /** A number is read behind any white space, up to whatever is not one of the digits '0' to '9'. */
  lemma SpaceThenNumber(ws: string, n: int, rest: string)
    requires (forall c :: c in ws ==> IsBlank(c)) && -0x8000_0000 <= n < 0x8000_0000
    requires rest != "" ==> !('0' <= rest[0] <= '9')
    ensures ReadInt(ws + IntText(n) + rest, 0) == (Some(n), rest)
  {
    hide ReadInt, IntText;
    ReadIntText(n, rest);
    NumberIsNoSpace(n);
    ReadSkips(ws, IntText(n) + rest, 0);
    assert ws + IntText(n) + rest == ws + (IntText(n) + rest);
  }

  lemma NumberIsNoSpace(n: int)
    requires -0x8000_0000 <= n < 0x8000_0000
    ensures IntText(n) != "" && !IsBlank(IntText(n)[0])
    ensures n >= 0 ==> IntText(n)[0] != '-' && IntText(n)[0] != '+'
  {
    hide Numeral, Value;
    IntDigits(n);
    var digits := if n == 0 then "0" else Numeral(if n < 0 then -n else n, 10, false);
    assert digits[0] in digits;
    DigitIsNoBlank(digits[0]);
    DigitIsNoBlank('-');
    if n < 0 {
      assert IntText(n) == "-" + digits && ("-" + digits)[0] == '-';
    } else {
      assert IntText(n) == digits;
    }
  }

  lemma DigitIsNoBlank(c: char)
    ensures IsDigit(c) || c == '-' || c == '+' ==> !IsBlank(c)
    ensures IsDigit(c) ==> c != '-' && c != '+'
  {}

  /** A plus sign in front changes nothing. */
  lemma PlusThenNumber(ws: string, n: int, rest: string)
    requires (forall c :: c in ws ==> IsBlank(c)) && 0 <= n < 0x8000_0000
    requires rest != "" ==> !('0' <= rest[0] <= '9')
    ensures ReadInt(ws + "+" + IntText(n) + rest, 0) == (Some(n), rest)
  {
    hide ReadInt, IntText;
    ReadIntText(n, rest);
    NumberIsNoSpace(n);
    var s := IntText(n) + rest;
    ReadSkips(ws, "+" + s, 0);
    PlusIsDropped(s, 0);
    assert ws + "+" + IntText(n) + rest == ws + ("+" + s);
  }

  lemma PlusIsDropped(s: string, width: nat)
    requires s != "" && !IsBlank(s[0]) && s[0] != '-' && s[0] != '+'
    ensures ReadInt("+" + s, width) == ReadInt(s, width)
  {
    hide DigitRun, Value;
    SpaceIsSkipped("", "+" + s);
    SpaceIsSkipped("", s);
    assert "" + s == s && "" + ("+" + s) == "+" + s;
    assert ("+" + s)[1..] == s && ("+" + s)[0] == '+';
  }

  /** A width takes that many digits and leaves the next one on the stream. */
  lemma WidthCuts(ws: string, digits: string, rest: string)
    requires (forall c :: c in ws ==> IsBlank(c)) && (forall c :: c in digits ==> '0' <= c <= '9') && digits != ""
    ensures ReadInt(ws + digits + rest, |digits|) == (Some(Wrap32(Value(digits, 10))), rest)
  {
    hide ReadInt;
    var s := digits + rest;
    assert digits[0] in digits;
    ReadSkips(ws, s, |digits|);
    assert ws + digits + rest == ws + s;
    WidthCutsHere(digits, rest);
  }

  lemma WidthCutsHere(digits: string, rest: string)
    requires (forall c :: c in digits ==> '0' <= c <= '9') && digits != ""
    ensures ReadInt(digits + rest, |digits|) == (Some(Wrap32(Value(digits, 10))), rest)
  {
    hide Value, Wrap32, AfterSpace, DigitRun, IsBlank, IsDigit;
    var s := digits + rest;
    assert digits[0] in digits && s[0] == digits[0];
    IsDigitMeans(s[0]);
    DigitIsNoBlank(s[0]);
    CutRun(digits, rest);
    SpaceIsSkipped("", s);
    assert "" + s == s;
    assert s[..|digits|] == digits && s[|digits|..] == rest;
  }

  lemma IsDigitMeans(c: char)
    ensures IsDigit(c) <==> '0' <= c <= '9'
  {}

  lemma CutRun(digits: string, rest: string)
    requires (forall c :: c in digits ==> '0' <= c <= '9') && digits != ""
    ensures DigitRun(digits + rest, |digits|) == |digits|
  {
    hide RunEnd;
    LongRun(digits, rest);
  }

  lemma LongRun(digits: string, rest: string)
    requires forall c :: c in digits ==> '0' <= c <= '9'
    ensures RunEnd(digits + rest, 0, IsDigit) >= |digits|
  {
    var t, j := digits + rest, RunEnd(digits + rest, 0, IsDigit);
    assert forall k :: 0 <= k < |digits| ==> t[k] == digits[k] && digits[k] in digits;
  }

  /** Without a digit there is no number; white space, and one sign, are gone all the same. */
  lemma NoNumber(ws: string, sign: string, rest: string, width: nat)
    requires (forall c :: c in ws ==> IsBlank(c)) && (sign == "" || sign == "-" || sign == "+")
    requires rest != "" ==> !('0' <= rest[0] <= '9')
    requires sign == "" && rest != "" ==> !IsBlank(rest[0]) && rest[0] != '-' && rest[0] != '+'
    ensures ReadInt(ws + sign + rest, width) == (None, rest)
  {
    SpaceIsSkipped(ws, sign + rest);
    assert ws + sign + rest == ws + (sign + rest);
    assert sign == "" ==> sign + rest == rest;
    assert sign != "" ==> (sign + rest)[1..] == rest;
  }
}
