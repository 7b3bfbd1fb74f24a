/** What `printf` formats mean, in the terms of ISO/IEC 9899:2011, section 7.21.6.1: how a directive is read
    off the format, what text it stands for, and where that text goes in its field. */
module PrintfTheorems {
  import opened Wrappers
  import Arith
  import opened Words
  import opened Numerals
  import opened Output
  import opened Printf

  // ---------------------------------------------------------------- flags

  /** Each flag character sets its flag, in whatever order and however often. */
  lemma {:induction false} FlagsMean(s: string)
    ensures (AllFlags(s).alt <==> '#' in s) && (AllFlags(s).zero <==> '0' in s) && (AllFlags(s).left <==> '-' in s)
    ensures (AllFlags(s).blank <==> ' ' in s) && (AllFlags(s).plus <==> '+' in s)
  {
    if s != "" {
      FlagsMean(s[..|s| - 1]);
      assert s == s[..|s| - 1] + [s[|s| - 1]];
    }
  }

  // ---------------------------------------------------------------- digits

  lemma DigitTable(d: nat)
    requires d < 16
    ensures DigitChar(d, true) == "0123456789abcdef"[d] && DigitChar(d, false) == "0123456789ABCDEF"[d]
  {}

  /** The `k`-th digit from the right is the digit of that weight, in the letters asked for. */
  lemma {:induction false} NumeralDigit(x: nat, base: nat, lower: bool, k: nat)
    requires IsBase(base) && k < |Numeral(x, base, lower)|
    ensures Power(base, k) > 0 && x / Power(base, k) % base < 16
    ensures Numeral(x, base, lower)[|Numeral(x, base, lower)| - 1 - k]
         == (if lower then "0123456789abcdef" else "0123456789ABCDEF")[x / Power(base, k) % base]
    decreases k
  {
    hide Numeral, DigitChar;
    if x == 0 { NumeralOfZero(base, lower); }
    NumeralStep(x, base, lower, x / base, x % base);
    DigitTable(x % base);
    if k > 0 {
      NumeralDigit(x / base, base, lower, k - 1);
      PowerStep(x, base, k);
    }
  }

  lemma PowerStep(x: nat, base: nat, k: nat)
    requires base > 0 && k > 0 && Power(base, k - 1) > 0
    ensures Power(base, k) > 0 && x / Power(base, k) == x / base / Power(base, k - 1)
  {
    DivTwice(x, base, Power(base, k - 1));
  }

  lemma DivTwice(x: nat, b: nat, d: nat)
    requires b > 0 && d > 0
    ensures b * d > 0 && x / b / d == x / (b * d)
  {
    var q, r := x / b / d, x / b % d;
    Arith.DivFacts(x, b);
    Arith.DivFacts(x / b, d);
    Arith.MulAtLeast(b, d);
    Arith.MulAssoc(q, d, b);
    Arith.MulAdd(q * d, r, b);
    Arith.MulCommute(d, b);
    Arith.MulMonotone(r + 1, d, b);
    Arith.MulAdd(r, 1, b);
    Arith.MulNonNeg(r, b);
    Arith.DivUnique(x, b * d, q, r * b + x % b);
  }

  /** The digits of "%x", "%p" and "%X" come in the letters of the conversion. */
  lemma {:induction false} NumeralLetters(x: nat, base: nat, lower: bool, c: char)
    requires IsBase(base) && c in Numeral(x, base, lower)
    ensures c in (if lower then "0123456789abcdef" else "0123456789ABCDEF")
    decreases x
  {
    hide Numeral, DigitChar;
    if x == 0 { NumeralOfZero(base, lower); }
    Quotient(x, base);
    NumeralStep(x, base, lower, x / base, x % base);
    DigitTable(x % base);
    if c in Numeral(x / base, base, lower) { NumeralLetters(x / base, base, lower, c); }
  }

  /** The digits and letters that a shape shows. */
  lemma HexLetters(d: Directive, v: word, c: char)
    requires IsInteger(d.t) && IntegerShape(d, v).Some? && c in IntegerShape(d, v).value.body
    ensures d.t == 'X' ==> c in "0123456789ABCDEF"
    ensures d.t == 'x' || d.t == 'p' ==> c in "0123456789abcdef"
    ensures d.t != 'x' && d.t != 'X' && d.t != 'p' ==> c in "0123456789"
  {
    hide Numeral, IntegerShape;
    ShapeParts(d, v);
    NumeralLetters(Absolute(d, v), Base(d.t), Base(d.t) == 16 && d.t != 'X', c);
    NumeralShape(Absolute(d, v), Base(d.t), Base(d.t) == 16 && d.t != 'X');
  }

  // ---------------------------------------------------------------- what the conversions show

  /** What stands in front of the digits: a sign for the signed conversions, "0x" or "0X" for hexadecimal
      numbers that are not zero, if the `#` flag asks for it or the conversion is "%p". */
  lemma PrefixMeans(d: Directive, v: word)
    requires IsInteger(d.t) && IntegerShape(d, v).Some?
    ensures var prefix := IntegerShape(d, v).value.prefix;
      && (d.t == 'd' || d.t == 'i' ==>
            prefix == if Signed(v) < 0 then "-" else if d.fl.plus then "+" else if d.fl.blank then " " else "")
      && (d.t == 'x' ==> prefix == if d.fl.alt && v != 0 then "0x" else "")
      && (d.t == 'X' ==> prefix == if d.fl.alt && v != 0 then "0X" else "")
      && (d.t == 'p' ==> prefix == if v != 0 then "0x" else "")
      && (d.t == 'u' || d.t == 'o' ==> prefix == "")
  {
    hide Numeral, Digits, Magnitude, PointerPrecision;
    DigitsParts(d, v);
  }

  /** Zero fill: the `0` flag, unless there is a `-` flag or a precision. */
  lemma ZeroFillMeans(d: Directive, v: word)
    requires IsInteger(d.t) && IntegerShape(d, v).Some?
    ensures IntegerShape(d, v).value.zero <==> d.fl.zero && !d.fl.left && !d.xp
  {
    hide Numeral;
  }

  /** An integer conversion fails only for a precision that no int holds; an octal one with the `#` flag not
      even then. */
  lemma IntegerFails(d: Directive, v: word)
    requires IsInteger(d.t)
    ensures IntegerShape(d, v).None? <==> d.xp && d.p < 0 && !(d.t == 'o' && d.fl.alt)
  {
    hide Numeral;
    PointerKeepsSign(d.p);
  }

  lemma PointerKeepsSign(p: int)
    ensures PointerPrecision(p) < 0 <==> p < 0
  {}

  /** How many digits a number of `n` digits shows: as many as the precision asks for, one more than `n` for an
      octal number with the `#` flag, sixteen for a pointer with a precision, one for a zero, and none for a
      zero with precision zero. */
  lemma DigitCount(d: Directive, v: word)
    requires IsInteger(d.t) && IntegerShape(d, v).Some?
    ensures var sh := IntegerShape(d, v).value; var n := |sh.body|;
      && (n == 0 <==> v == 0)
      && |Shown(sh)| ==
         if d.t == 'o' && d.fl.alt then AtLeast(d.p, n + 1)
         else if d.t == 'p' && d.p >= 0 then AtLeast(AtLeast(d.p, 16), n)
         else if v == 0 then if d.p == 0 then 0 else AtLeast(d.p, 1)
         else AtLeast(d.p, n)
  {
    hide IntegerShape, ShownBody, Shown, Value;
    ShapeParts(d, v);
    BodyFacts(d, v);
    ShownMeans(IntegerShape(d, v).value);
  }

  function AtLeast(a: int, b: int): int { if a < b then b else a }

  /** "%s" shows the argument, or as much of it as the precision allows; for a null pointer "(null)".  It
      fails only for an argument longer than an int counts. */
  lemma StringMeans(d: Directive, chars: string)
    requires d.t == 's' && chars == match d.arg case Text(t) => t case _ => "(null)"
    ensures ShapeOf(d).None? <==> d.p < 0 && |chars| > 0x7fff_ffff
    ensures ShapeOf(d).Some? ==>
              var sh := ShapeOf(d).value;
              && sh.prefix == "" && !sh.zero && sh.p == |sh.body| && sh.body == chars[..|sh.body|]
              && |sh.body| == if 0 <= d.p < |chars| then d.p else |chars|
  {}

  /** "%c" shows the character with the argument's code, as an unsigned char. */
  lemma CharMeans(d: Directive, v: word)
    requires d.t == 'c' && d.arg == Num(v)
    ensures ShapeOf(d) == Some(Shape("", [(v % 256) as char], 1, false))
  {}

  // ---------------------------------------------------------------- the field

  lemma RepeatIs(c: char, n: int)
    ensures |Repeat(c, n)| == if n < 0 then 0 else n
    ensures forall k :: 0 <= k < |Repeat(c, n)| ==> Repeat(c, n)[k] == c
  {}

  /** Digits are filled up with zeros in front. */
  lemma ShownMeans(sh: Shape)
    ensures |Shown(sh)| == (if sh.p < |sh.body| then |sh.body| else sh.p)
    ensures Shown(sh)[|Shown(sh)| - |sh.body|..] == sh.body
    ensures forall k :: 0 <= k < |Shown(sh)| - |sh.body| ==> Shown(sh)[k] == '0'
  {
    hide Repeat;
    RepeatIs('0', sh.p - |sh.body|);
  }

  /** Where prefix and digits stand in a field: at the left, followed by blanks, with a `-` flag; with zeros
      between them, with zero fill; at the right, behind blanks, otherwise. */
  ghost predicate StandsIn(t: string, left: bool, zero: bool, prefix: string, shown: string) {
    var m := |prefix| + |shown|;
    && |t| >= m
    && (left ==> t[..m] == prefix + shown && forall k :: m <= k < |t| ==> t[k] == ' ')
    && (!left && zero ==>
          t[..|prefix|] == prefix && t[|t| - |shown|..] == shown
          && forall k :: |prefix| <= k < |t| - |shown| ==> t[k] == '0')
    && (!left && !zero ==> t[|t| - m..] == prefix + shown && forall k :: 0 <= k < |t| - m ==> t[k] == ' ')
  }

  /** A conversion stands in its field, which is as wide as the conversion or as the width says. */
  lemma FieldMeans(d: Directive, cnt: nat)
    requires Expand(d, cnt).Some?
    ensures var t, sh := Expand(d, cnt).value, ShapeOf(d).value;
            var m := |sh.prefix| + |Shown(sh)|;
            StandsIn(t, d.fl.left, sh.zero, sh.prefix, Shown(sh)) && |t| == if d.w < m then m else d.w
  {
    hide ShapeOf, Repeat, Layout, Shown, StandsIn;
    var sh := ShapeOf(d).value;
    ShownMeans(sh);
    var p := Max(sh.p, |sh.body|);
    SameZeros(sh);
    LayoutMeans(d.fl.left, sh.zero, Max(d.w, |sh.prefix| + p), sh.prefix, p, sh.body, Shown(sh));
  }

  /** A conversion fails exactly when its argument cannot be shown, or the total would be more than an int
      holds. */
  lemma FieldFails(d: Directive, cnt: nat)
    ensures Expand(d, cnt).None?
       <==> ShapeOf(d).None? || (var sh := ShapeOf(d).value; var m := |sh.prefix| + |Shown(sh)|;
                                 (if d.w < m then m else d.w) + cnt > 0x7fff_ffff)
  {
    hide ShapeOf, Layout, Shown;
    if ShapeOf(d).Some? { ShownMeans(ShapeOf(d).value); }
  }

  lemma SameZeros(sh: Shape)
    ensures Repeat('0', Max(sh.p, |sh.body|) - |sh.body|) + sh.body == Shown(sh)
  {}

  lemma LayoutMeans(left: bool, zero: bool, w: int, prefix: string, p: int, body: string, shown: string)
    requires p >= |body| && w >= |prefix| + p && shown == Repeat('0', p - |body|) + body && |shown| == p
    ensures |Layout(left, zero, w, prefix, p, body)| == w
    ensures StandsIn(Layout(left, zero, w, prefix, p, body), left, zero, prefix, shown)
  {
    hide Repeat;
    RepeatIs(' ', w - (|prefix| + p));
    RepeatIs('0', w - (|prefix| + p));
  }

  // ---------------------------------------------------------------- reading a directive

  /** The run of characters that makes up the front of what is left of a format. */
  lemma RunAt(fmt: string, i: nat, run: string, rest: string, p: char -> bool)
    requires i <= |fmt| && fmt[i..] == run + rest
    requires (forall k :: 0 <= k < |run| ==> p(run[k])) && (rest != "" ==> !p(rest[0]))
    ensures RunEnd(fmt, i, p) == i + |run| <= |fmt| && fmt[i..i + |run|] == run && fmt[i + |run|..] == rest
  {
    var j := RunEnd(fmt, i, p);
    assert forall k :: 0 <= k < |run| ==> fmt[i + k] == fmt[i..][k] == run[k];
    assert rest != "" ==> fmt[i + |run|] == fmt[i..][|run|] == rest[0];
    assert fmt[i..][..|run|] == run && fmt[i..][|run|..] == rest;
  }

  lemma FrontAt(fmt: string, i: nat, rest: string)
    requires i <= |fmt| && fmt[i..] == rest
    ensures At(fmt, i) == At(rest, 0) && At(fmt, i + 1) == At(rest, 1)
    ensures forall n :: 0 <= n <= |rest| ==> i + n <= |fmt| && fmt[i + n..] == rest[n..]
  {
    assert rest != "" ==> fmt[i] == rest[0];
    assert |rest| > 1 ==> fmt[i + 1] == rest[1];
    forall n | 0 <= n <= |rest|
      ensures fmt[i + n..] == rest[n..]
    {
      assert fmt[i..][n..] == fmt[i + n..];
    }
  }

  /** A field width or a precision as written: digits, or `*` for an argument. */
  datatype Amount = Written(digits: string) | Star(value: word)

  function AmountText(a: Amount): string { if a.Star? then "*" else a.digits }

  function AmountValue(a: Amount): int { if a.Star? then Int32(a.value) else Value(a.digits, 10) }

  predicate AllDigits(s: string) { forall k :: 0 <= k < |s| ==> '0' <= s[k] <= '9' }

  predicate AmountOk(a: Amount, args: seq<Arg>, k: nat) {
    if a.Star? then k < |args| && args[k] == Num(a.value)
    else AllDigits(a.digits) && Value(a.digits, 10) <= 0x7fff_ffff
  }

  /** A number is read as it is written, or taken from the arguments. */
  lemma NumberRead(fmt: string, i: nat, a: Amount, rest: string, args: seq<Arg>, k: nat)
    requires i <= |fmt| && fmt[i..] == AmountText(a) + rest && AmountOk(a, args, k)
    requires rest != "" ==> !('0' <= rest[0] <= '9')
    requires a.Written? && a.digits == "" ==> At(rest, 0) != '*'
    ensures i + |AmountText(a)| <= |fmt| && fmt[i + |AmountText(a)|..] == rest
    ensures ReadNumber(fmt, i, args, k)
         == Given(AmountValue(a), i + |AmountText(a)|, k + if a.Star? then 1 else 0)
  {
    hide Value, RunEnd;
    FrontAt(fmt, i, AmountText(a) + rest);
    assert (AmountText(a) + rest)[|AmountText(a)|..] == rest;
    if a.Written? {
      RunAt(fmt, i, a.digits, rest, IsDigit);
    } else {
      assert ("*" + rest)[0] == '*';
      assert |rest| > 0 ==> ("*" + rest)[1] == rest[0];
    }
  }

  /** A number beyond an int is refused. */
  lemma NumberTooLarge(fmt: string, i: nat, digits: string, rest: string, args: seq<Arg>, k: nat)
    requires i <= |fmt| && fmt[i..] == digits + rest && AllDigits(digits) && Value(digits, 10) > 0x7fff_ffff
    requires rest != "" ==> !('0' <= rest[0] <= '9')
    ensures ReadNumber(fmt, i, args, k) == TooLarge
  {
    hide Value, RunEnd;
    NoValueOfNothing();
    FrontAt(fmt, i, digits + rest);
    assert (digits + rest)[0] == digits[0];
    RunAt(fmt, i, digits, rest, IsDigit);
  }

  lemma NoValueOfNothing()
    ensures Value("", 10) == 0
  {}

  /** So a directive with a field width beyond an int is an error. */
  lemma WidthTooLarge(fmt: string, s: nat, flags: string, digits: string, rest: string, args: seq<Arg>, k: nat)
    requires s < |fmt| && fmt[s..] == "%" + (flags + (digits + rest)) && forall c :: c in flags ==> c in "#0- +"
    requires AllDigits(digits) && Value(digits, 10) > 0x7fff_ffff && digits[0] != '0'
    requires rest != "" && !('0' <= rest[0] <= '9') && rest[0] != '$'
    ensures Parse(fmt, s, args, k) == Invalid
  {
    hide Value, RunEnd, ReadNumber, Parse, IsFlag, At;
    var text := flags + (digits + rest);
    FrontAt(fmt, s, "%" + text);
    assert ("%" + text)[1..] == text;
    FrontAt(fmt, s + 1, text);
    NoValueOfNothing();
    FlagRun(flags);
    DigitsAreNoFlags(digits, rest);
    RunAt(fmt, s + 1, flags, digits + rest, IsFlag);
    NumberTooLarge(fmt, s + 1 + |flags|, digits, rest, args, k);
    NoDollarFirst(flags, digits, rest);
    ParseTooLarge(fmt, s, s + 1 + |flags|, args, k);
  }

  lemma NoDollarFirst(flags: string, digits: string, rest: string)
    requires (forall c :: c in flags ==> c in "#0- +") && AllDigits(digits)
    requires rest != "" && !('0' <= rest[0] <= '9') && rest[0] != '$'
    ensures var t := flags + (digits + rest); !('0' <= At(t, 0) <= '9') || At(t, 1) != '$'
  {
    assert '$' !in flags + digits;
    TwoFirst(flags + digits, rest);
    assert flags + (digits + rest) == flags + digits + rest;
  }

  lemma ParseTooLarge(fmt: string, s: nat, i: nat, args: seq<Arg>, k: nat)
    requires s < |fmt| && i == RunEnd(fmt, s + 1, IsFlag) && ReadNumber(fmt, i, args, k) == TooLarge
    requires !('0' <= At(fmt, s + 1) <= '9') || At(fmt, s + 2) != '$'
    ensures Parse(fmt, s, args, k) == Invalid
  {
    hide ReadNumber, ParseRest, RunEnd, AllFlags, At;
  }

  lemma DigitsAreNoFlags(digits: string, rest: string)
    requires AllDigits(digits) && digits != "" && digits[0] != '0'
    ensures (digits + rest)[0] == digits[0] && !IsFlag((digits + rest)[0])
  {}

  /** A directive as it is written: flags, field width, precision if there is one, length modifier,
      conversion. */
  datatype Spelling = Spelling(flags: string, width: Amount, precision: Option<Amount>, modifier: string,
                               conversion: char)

  function PrecisionText(p: Option<Amount>): string { if p.None? then "" else "." + AmountText(p.value) }

  function Tail(w: Spelling, rest: string): string { w.modifier + [w.conversion] + rest }

  function SpelledText(w: Spelling, rest: string): string {
    w.flags + (AmountText(w.width) + (PrecisionText(w.precision) + Tail(w, rest)))
  }

  /** The arguments that width and precision take. */
  function Stars(w: Spelling): nat {
    (if w.width.Star? then 1 else 0) + if w.precision.Some? && w.precision.value.Star? then 1 else 0
  }

  /** The flags are flag characters, a written width does not begin with the flag `0`, the conversion is one of
      the standard's other than "%n", and the arguments are there and of its types. */
  ghost predicate WellSpelled(w: Spelling, args: seq<Arg>, k: nat, kind: ArgType) {
    && (forall c :: c in w.flags ==> c in "#0- +")
    && AmountOk(w.width, args, k) && (w.width.Written? && w.width.digits != "" ==> w.width.digits[0] != '0')
    && (w.precision.Some? ==> AmountOk(w.precision.value, args, k + if w.width.Star? then 1 else 0))
    && TypeOf(w.modifier, w.conversion) == Some(kind) && w.conversion != 'n'
    && k + Stars(w) < |args| && (kind == PTR <==> !args[k + Stars(w)].Num?)
  }

  /** A precision is the number behind the point; a negative argument stands for none. */
  lemma PrecisionRead(fmt: string, j: nat, p: Option<Amount>, rest: string, args: seq<Arg>, k: nat)
    requires j <= |fmt| && fmt[j..] == PrecisionText(p) + rest
    requires p.Some? ==> AmountOk(p.value, args, k)
    requires rest != "" && !('0' <= rest[0] <= '9') && rest[0] != '*' && rest[0] != '.'
    ensures j + |PrecisionText(p)| <= |fmt| && fmt[j + |PrecisionText(p)|..] == rest
    ensures ReadPrecision(fmt, j, args, k)
         == (Given(if p.None? then -1 else AmountValue(p.value), j + |PrecisionText(p)|,
                   k + if p.Some? && p.value.Star? then 1 else 0),
             p.Some? && (p.value.Written? || AmountValue(p.value) >= 0))
  {
    hide AmountValue, AmountText, AmountOk, ReadNumber, RunEnd, At, AllDigits;
    FrontAt(fmt, j, PrecisionText(p) + rest);
    AtFront(rest);
    if p.None? {
      NoPrecision(rest);
    } else {
      var all := "." + (AmountText(p.value) + rest);
      PointFirst(AmountText(p.value), rest);
      AmountDigits(p.value, args, k);
      SecondCharacter(p.value, rest);
      assert fmt[j + 1..] == all[1..];
      NumberRead(fmt, j + 1, p.value, rest, args, k);
    }
  }

  lemma NoPrecision(rest: string)
    requires rest != "" && rest[0] != '.'
    ensures PrecisionText(None) == "" && PrecisionText(None) + rest == rest && At(rest, 0) != '.'
  {}

  lemma AtFront(rest: string)
    requires rest != ""
    ensures At(rest, 0) == rest[0]
  {}

  lemma PointFirst(amount: string, rest: string)
    ensures "." + amount + rest == "." + (amount + rest) && At("." + (amount + rest), 0) == '.'
    ensures ("." + (amount + rest))[1..] == amount + rest && |"." + amount| == 1 + |amount|
  {}

  lemma AmountDigits(a: Amount, args: seq<Arg>, k: nat)
    requires AmountOk(a, args, k)
    ensures a.Written? ==> AllDigits(a.digits)
  {}

  lemma SecondCharacter(a: Amount, rest: string)
    requires rest != "" && rest[0] != '*' && (a.Written? ==> AllDigits(a.digits))
    ensures At("." + (AmountText(a) + rest), 1) == '*' <==> a.Star?
  {
    var all := "." + (AmountText(a) + rest);
    assert all[1] == (AmountText(a) + rest)[0];
    if a.Written? && a.digits != "" { assert (a.digits + rest)[0] == a.digits[0]; }
  }

  /** Modifier and conversion begin with a character that can be nothing else. */
  lemma TailStarts(w: Spelling, kind: ArgType, rest: string)
    requires TypeOf(w.modifier, w.conversion) == Some(kind)
    ensures var c := Tail(w, rest)[0];
            !('0' <= c <= '9') && c != '*' && c != '.' && c != '$' && c !in "#0- +" && c != '%'
  {
    if w.modifier == "" {
      assert Tail(w, rest)[0] == w.conversion;
    } else {
      assert Tail(w, rest)[0] == w.modifier[0];
    }
  }

  lemma KindRead(fmt: string, i: nat, w: Spelling, kind: ArgType, rest: string)
    requires i <= |fmt| && fmt[i..] == Tail(w, rest) && TypeOf(w.modifier, w.conversion) == Some(kind)
    ensures i + |w.modifier| + 1 <= |fmt| && fmt[i + |w.modifier|] == w.conversion
    ensures Kind(fmt, i, BARE) == Some((kind, i + |w.modifier| + 1))
    ensures fmt[i + |w.modifier| + 1..] == rest
  {
    hide TypeOf, Kind;
    var n := i + |w.modifier| + 1;
    var tail := Tail(w, rest);
    assert fmt[i..][..|w.modifier|] == w.modifier && fmt[i..n - 1] == fmt[i..][..|w.modifier|];
    assert fmt[n - 1] == fmt[i..][|w.modifier|] == w.conversion;
    assert fmt[i..][|w.modifier| + 1..] == rest;
    KindAccepts(fmt, i, kind, n);
  }

  lemma FlagRun(s: string)
    requires forall c :: c in s ==> c in "#0- +"
    ensures forall k :: 0 <= k < |s| ==> IsFlag(s[k])
  {
    forall k | 0 <= k < |s|
      ensures IsFlag(s[k])
    {
      assert s[k] in s;
    }
  }

  /** What follows the flags is no flag. */
  lemma FlagsEnd(w: Spelling, args: seq<Arg>, k: nat, kind: ArgType, rest: string)
    requires WellSpelled(w, args, k, kind)
    ensures var t := AmountText(w.width) + (PrecisionText(w.precision) + Tail(w, rest)); t != "" && !IsFlag(t[0])
  {
    hide TypeOf;
    TailStarts(w, kind, rest);
    var u := PrecisionText(w.precision) + Tail(w, rest);
    var t := AmountText(w.width) + u;
    assert u[0] == if w.precision.None? then Tail(w, rest)[0] else '.';
    if w.width.Star? {
      assert t[0] == '*';
    } else if w.width.digits == "" {
      assert t == u;
    } else {
      assert t[0] == w.width.digits[0];
    }
  }

  /** No directive that is spelled like this looks like one with a positional argument. */
  lemma NotPositional(w: Spelling, args: seq<Arg>, k: nat, kind: ArgType, rest: string)
    requires WellSpelled(w, args, k, kind)
    ensures var t := SpelledText(w, rest); !('0' <= At(t, 0) <= '9') || At(t, 1) != '$'
  {
    hide TypeOf, AmountText, PrecisionText, AmountOk;
    TailStarts(w, kind, rest);
    NoDollar(w, args, k, kind);
    TwoFirst(w.flags + AmountText(w.width) + PrecisionText(w.precision), Tail(w, rest));
    assert SpelledText(w, rest) == w.flags + AmountText(w.width) + PrecisionText(w.precision) + Tail(w, rest);
  }

  lemma TwoFirst(head: string, tail: string)
    requires '$' !in head && tail != "" && !('0' <= tail[0] <= '9') && tail[0] != '$'
    ensures !('0' <= At(head + tail, 0) <= '9') || At(head + tail, 1) != '$'
  {
    var t := head + tail;
    if head == "" {
      assert t[0] == tail[0];
    } else if |head| == 1 {
      assert t[1] == tail[0];
    } else {
      assert t[1] == head[1] && head[1] in head;
    }
  }

  lemma NoDollar(w: Spelling, args: seq<Arg>, k: nat, kind: ArgType)
    requires WellSpelled(w, args, k, kind)
    ensures '$' !in w.flags + AmountText(w.width) + PrecisionText(w.precision)
  {
    hide TypeOf;
    assert '$' !in "#0- +";
  }

  /** A directive is read as it is spelled, with the arguments it asks for; a negative field width from the
      arguments is a `-` flag and a width. */
  lemma DirectiveRead(fmt: string, s: nat, w: Spelling, rest: string, args: seq<Arg>, k: nat, kind: ArgType)
    requires s < |fmt| && fmt[s..] == "%" + SpelledText(w, rest) && WellSpelled(w, args, k, kind)
    ensures |fmt| >= |rest| && Parse(fmt, s, args, k) == Parsed(Meant(w, args, k, kind, |fmt| - |rest|))
  {
    hide TypeOf, AmountValue, AmountText, PrecisionText, Tail, ReadNumber, ParseRest, Parse, RunEnd, IsFlag, AmountOk,
      AllFlags, Negated, Meant, At;
    var text := SpelledText(w, rest);
    var afterFlags := AmountText(w.width) + (PrecisionText(w.precision) + Tail(w, rest));
    FrontAt(fmt, s, "%" + text);
    assert ("%" + text)[1..] == text;
    FrontAt(fmt, s + 1, text);
    NotPositional(w, args, k, kind, rest);
    FlagRun(w.flags);
    FlagsEnd(w, args, k, kind, rest);
    RunAt(fmt, s + 1, w.flags, afterFlags, IsFlag);
    var i := s + 1 + |w.flags|;
    WidthRead(fmt, i, w, rest, args, k, kind);
    ParseUnfolds(fmt, s, i, args, k);
    RestRead(fmt, i + |AmountText(w.width)|, w, rest, args, k, kind);
  }

  lemma ParseUnfolds(fmt: string, s: nat, i: nat, args: seq<Arg>, k: nat)
    requires s < |fmt| && i == RunEnd(fmt, s + 1, IsFlag) && ReadNumber(fmt, i, args, k).Given?
    requires !('0' <= At(fmt, s + 1) <= '9') || At(fmt, s + 2) != '$'
    requires s + 1 <= i <= |fmt| && ReadNumber(fmt, i, args, k).next <= |fmt|
    ensures var n, fl := ReadNumber(fmt, i, args, k), AllFlags(fmt[s + 1..i]);
            Parse(fmt, s, args, k)
            == ParseRest(fmt, n.next, args, n.used, if n.value < 0 then fl.(left := true) else fl,
                         if n.value < 0 then Negated(n.value) else n.value)
  {
    hide ReadNumber, ParseRest, RunEnd, AllFlags, Negated, At;
  }

  lemma WidthRead(fmt: string, i: nat, w: Spelling, rest: string, args: seq<Arg>, k: nat, kind: ArgType)
    requires WellSpelled(w, args, k, kind)
    requires i <= |fmt| && fmt[i..] == AmountText(w.width) + (PrecisionText(w.precision) + Tail(w, rest))
    ensures i + |AmountText(w.width)| <= |fmt|
    ensures fmt[i + |AmountText(w.width)|..] == PrecisionText(w.precision) + Tail(w, rest)
    ensures ReadNumber(fmt, i, args, k)
         == Given(AmountValue(w.width), i + |AmountText(w.width)|, k + if w.width.Star? then 1 else 0)
  {
    hide TypeOf, AmountValue, AmountText, PrecisionText, Tail, ReadNumber, AmountOk;
    AfterWidthStarts(w, kind, rest);
    NumberRead(fmt, i, w.width, PrecisionText(w.precision) + Tail(w, rest), args, k);
  }

  /** The part behind the field width. */
  lemma RestRead(fmt: string, j: nat, w: Spelling, rest: string, args: seq<Arg>, k: nat, kind: ArgType)
    requires WellSpelled(w, args, k, kind)
    requires j <= |fmt| && fmt[j..] == PrecisionText(w.precision) + Tail(w, rest)
    ensures |fmt| >= |rest|
    ensures ParseRest(fmt, j, args, k + if w.width.Star? then 1 else 0,
                      if AmountValue(w.width) < 0 then AllFlags(w.flags).(left := true) else AllFlags(w.flags),
                      if AmountValue(w.width) < 0 then Negated(AmountValue(w.width)) else AmountValue(w.width))
         == Parsed(Meant(w, args, k, kind, |fmt| - |rest|))
  {
    hide TypeOf, AmountValue, PrecisionText, ReadPrecision, Kind, AmountOk, AllFlags, Negated, Fetch;
    TailStarts(w, kind, rest);
    PrecisionRead(fmt, j, w.precision, Tail(w, rest), args, k + if w.width.Star? then 1 else 0);
    var l := j + |PrecisionText(w.precision)|;
    KindRead(fmt, l, w, kind, rest);
    assert l + |w.modifier| + 1 == |fmt| - |rest|;
    WrittenIsNatural(w);
  }

  lemma WrittenIsNatural(w: Spelling)
    ensures w.precision.Some? && w.precision.value.Written? ==> AmountValue(w.precision.value) >= 0
  {}

  lemma AfterWidthStarts(w: Spelling, kind: ArgType, rest: string)
    requires TypeOf(w.modifier, w.conversion) == Some(kind)
    ensures var t := PrecisionText(w.precision) + Tail(w, rest); t != "" && !('0' <= t[0] <= '9') && t[0] != '*'
  {
    hide TypeOf;
    TailStarts(w, kind, rest);
    var t := PrecisionText(w.precision) + Tail(w, rest);
    assert t[0] == if w.precision.None? then Tail(w, rest)[0] else '.';
  }

  /** A character that is neither a conversion nor part of a directive is an error. */
  lemma UnknownConversion(fmt: string, s: nat, flags: string, c: char, rest: string, args: seq<Arg>, k: nat)
    requires s < |fmt| && fmt[s..] == "%" + (flags + ([c] + rest)) && forall f :: f in flags ==> f in "#0- +"
    requires c !in "diouxXcspnlhjzt" && c !in "#0- +" && c != '*' && c != '.' && !('0' <= c <= '9') && c != '$'
    ensures Parse(fmt, s, args, k) == Invalid
  {
    hide RunEnd, ReadNumber, ParseRest, Parse, IsFlag, Value, At, AllFlags;
    var tail := [c] + rest;
    FrontAt(fmt, s, "%" + (flags + tail));
    assert ("%" + (flags + tail))[1..] == flags + tail;
    FrontAt(fmt, s + 1, flags + tail);
    FlagRun(flags);
    NoFlag(c);
    RunAt(fmt, s + 1, flags, tail, IsFlag);
    NoDollarHere(flags, c, rest);
    NoWidth(fmt, s + 1 + |flags|, c, rest, args, k);
    ParseUnfolds(fmt, s, s + 1 + |flags|, args, k);
    UnknownRest(fmt, s + 1 + |flags|, c, rest, args, k, AllFlags(fmt[s + 1..s + 1 + |flags|]));
  }

  lemma NoDollarHere(flags: string, c: char, rest: string)
    requires (forall f :: f in flags ==> f in "#0- +") && !('0' <= c <= '9') && c != '$'
    ensures var t := flags + ([c] + rest); !('0' <= At(t, 0) <= '9') || At(t, 1) != '$'
  {
    assert '$' !in flags;
    TwoFirst(flags, [c] + rest);
  }

  lemma NoWidth(fmt: string, i: nat, c: char, rest: string, args: seq<Arg>, k: nat)
    requires i <= |fmt| && fmt[i..] == [c] + rest && c != '*' && !('0' <= c <= '9')
    ensures ReadNumber(fmt, i, args, k) == Given(0, i, k)
  {
    hide ReadNumber, At;
    NoValueOfNothing();
    AtFront([c] + rest);
    assert "" + ([c] + rest) == [c] + rest;
    NumberRead(fmt, i, Written(""), [c] + rest, args, k);
  }

  lemma UnknownRest(fmt: string, i: nat, c: char, rest: string, args: seq<Arg>, k: nat, fl: Flags)
    requires i <= |fmt| && fmt[i..] == [c] + rest
    requires c !in "diouxXcspnlhjzt" && c != '.' && c != '*' && !('0' <= c <= '9')
    ensures ParseRest(fmt, i, args, k, fl, 0) == Invalid
  {
    hide ReadPrecision, Kind;
    assert PrecisionText(None) + ([c] + rest) == [c] + rest;
    PrecisionRead(fmt, i, None, [c] + rest, args, k);
    KindUnknown(fmt, i, c, rest);
  }

  lemma NoFlag(c: char)
    requires c !in "#0- +"
    ensures !IsFlag(c)
  {
    assert '#' in "#0- +" && '0' in "#0- +" && '-' in "#0- +" && ' ' in "#0- +" && '+' in "#0- +";
  }

  lemma KindUnknown(fmt: string, i: nat, c: char, rest: string)
    requires i <= |fmt| && fmt[i..] == [c] + rest && c !in "diouxXcspnlhjzt"
    ensures Kind(fmt, i, BARE) == None
  {
    FrontAt(fmt, i, [c] + rest);
    var known := "diouxXcspnlhjzt";
    assert known[0] == 'd' && known[1] == 'i' && known[2] == 'o' && known[3] == 'u' && known[4] == 'x';
    assert known[5] == 'X' && known[6] == 'c' && known[7] == 's' && known[8] == 'p' && known[9] == 'n';
    assert known[10] == 'l' && known[11] == 'h' && known[12] == 'j' && known[13] == 'z' && known[14] == 't';
  }

  /** The directive that a spelling means. */
  function Meant(w: Spelling, args: seq<Arg>, k: nat, kind: ArgType, next: nat): (d: Directive)
    requires k + Stars(w) < |args| && (kind == PTR <==> !args[k + Stars(w)].Num?)
    ensures d.next == next && d.used == k + Stars(w) + 1
  {
    var width := AmountValue(w.width);
    var arg := args[k + Stars(w)];
    Directive(if width < 0 then AllFlags(w.flags).(left := true) else AllFlags(w.flags),
              if width < 0 then Negated(width) else width,
              if w.precision.None? then -1 else AmountValue(w.precision.value),
              w.precision.Some? && AmountValue(w.precision.value) >= 0,
              w.conversion, if kind == PTR then arg else Num(Fetch(kind, arg.value)), next, k + Stars(w) + 1)
  }

  // ---------------------------------------------------------------- text and directives in a format

  /** Text as it is written in a format: percent signs doubled. */
  function Escape(t: string): string {
    if t == "" then "" else EscapeChar(t[0]) + Escape(t[1..])
  }

  function EscapeChar(c: char): string { if c == '%' then "%%" else [c] }

  lemma {:induction false} EscapeJoins(a: string, b: string)
    ensures Escape(a + b) == Escape(a) + Escape(b)
  {
    hide EscapeChar;
    if a == "" {
      assert a + b == b;
      assert "" + Escape(b) == Escape(b);
    } else {
      EscapeJoins(a[1..], b);
      assert (a + b)[1..] == a[1..] + b && (a + b)[0] == a[0];
      Associate(EscapeChar(a[0]), Escape(a[1..]), Escape(b));
    }
  }

  lemma Associate(a: string, b: string, c: string)
    ensures a + (b + c) == a + b + c
  {}

  lemma {:induction false} EscapePlain(t: string)
    requires forall k :: 0 <= k < |t| ==> t[k] != '%'
    ensures Escape(t) == t
  {
    if t != "" { EscapePlain(t[1..]); }
  }

  lemma {:induction false} EscapePercents(n: nat)
    ensures Escape(Repeat('%', n)) == Repeat('%', 2 * n)
  {
    if n > 0 {
      EscapePercents(n - 1);
      assert Repeat('%', n)[1..] == Repeat('%', n - 1);
      assert "%%" + Repeat('%', 2 * n - 2) == Repeat('%', 2 * n);
    }
  }

  /** Pairs of percent signs are counted up to the first that is none. */
  lemma {:induction false} PercentsAt(fmt: string, i: nat, n: nat, rest: string)
    requires i <= |fmt| && fmt[i..] == Repeat('%', 2 * n) + rest && !(At(rest, 0) == '%' && At(rest, 1) == '%')
    ensures Percents(fmt, i) == n
    decreases n
  {
    FrontAt(fmt, i, Repeat('%', 2 * n) + rest);
    if n == 0 {
      assert Repeat('%', 0) + rest == rest;
    } else {
      var all := Repeat('%', 2 * n) + rest;
      assert all[0] == '%' && all[1] == '%';
      assert all[2..] == Repeat('%', 2 * (n - 1)) + rest;
      PercentsAt(fmt, i + 2, n - 1, rest);
    }
  }

  /** A directive, or the end of the format. */
  predicate NoText(rest: string) { rest == "" || (rest[0] == '%' && At(rest, 1) != '%') }

  /** One turn takes plain characters, and the percent signs behind them. */
  lemma TextTurn(fmt: string, s: nat, plain: string, n: nat, t: string, rest: string)
    requires s <= |fmt| && fmt[s..] == plain + (Repeat('%', 2 * n) + (Escape(t) + rest)) && NoText(rest)
    requires (forall k :: 0 <= k < |plain| ==> plain[k] != '%') && (n == 0 ==> t == "") && (t != "" ==> t[0] != '%')
    ensures Literal(fmt, s) == plain + Repeat('%', n) && AfterLiteral(fmt, s) == s + |plain| + 2 * n
    ensures s + |plain| + 2 * n <= |fmt| && fmt[s + |plain| + 2 * n..] == Escape(t) + rest
  {
    hide Repeat, RunEnd, Percents, Escape, At;
    TextFronts(n, t, rest);
    var v := Repeat('%', 2 * n) + (Escape(t) + rest);
    RunAt(fmt, s, plain, v, NotPercent);
    PercentsAt(fmt, s + |plain|, n, Escape(t) + rest);
    FrontAt(fmt, s + |plain|, v);
    RepeatIs('%', 2 * n);
    assert v[2 * n..] == Escape(t) + rest;
  }

  lemma TextFronts(n: nat, t: string, rest: string)
    requires NoText(rest) && (n == 0 ==> t == "") && (t != "" ==> t[0] != '%')
    ensures var u := Escape(t) + rest; var v := Repeat('%', 2 * n) + u;
            (v != "" ==> !NotPercent(v[0])) && !(At(u, 0) == '%' && At(u, 1) == '%')
  {
    RepeatIs('%', 2 * n);
    var u := Escape(t) + rest;
    if t == "" {
      assert u == rest;
    } else {
      assert u[0] == t[0];
    }
    var v := Repeat('%', 2 * n) + u;
    assert n == 0 ==> v == u;
    assert n > 0 ==> v[0] == '%';
  }

  /** Plain text in a format is output as it is. */
  lemma {:induction false} TextIsOutput(fmt: string, s: nat, t: string, rest: string, args: seq<Arg>, k: nat, cnt: nat)
    requires s <= |fmt| && fmt[s..] == Escape(t) + rest && NoText(rest) && cnt + |t| <= 0x7fff_ffff
    ensures s + |Escape(t)| <= |fmt| && fmt[s + |Escape(t)|..] == rest
    ensures Render(fmt, s, args, k, cnt) == Prepend(t, Render(fmt, s + |Escape(t)|, args, k, cnt + |t|))
    decreases |t|
  {
    hide Literal, AfterLiteral, Render, Repeat, RunEnd, Escape, Prepend;
    if t == "" {
      NothingToEscape(rest);
      PrependNothing(Render(fmt, s, args, k, cnt));
    } else {
      var e, n, more := SplitText(t);
      var lit := t[..e] + Repeat('%', n);
      EscapeSplit(t, e, n, more, rest);
      TextTurn(fmt, s, t[..e], n, more, rest);
      var next := s + e + 2 * n;
      TextIsOutput(fmt, next, more, rest, args, k, cnt + |lit|);
      OneTurnOfText(fmt, s, lit, next, args, k, cnt);
      PrependJoins(lit, more, Render(fmt, s + |Escape(t)|, args, k, cnt + |t|));
    }
  }

  lemma NothingToEscape(rest: string)
    ensures Escape("") == "" && Escape("") + rest == rest
  {
    assert "" + rest == rest;
  }

  lemma EscapeSplit(t: string, e: nat, n: nat, more: string, rest: string)
    requires e <= |t| && t == t[..e] + (Repeat('%', n) + more) && forall k :: 0 <= k < e ==> t[k] != '%'
    ensures Escape(t) + rest == t[..e] + (Repeat('%', 2 * n) + (Escape(more) + rest))
    ensures |Escape(t)| == e + 2 * n + |Escape(more)|
    ensures t == t[..e] + Repeat('%', n) + more && |t| == e + n + |more|
  {
    hide Repeat, Escape;
    var plain, percents := t[..e], Repeat('%', n);
    EscapePlain(plain);
    EscapePercents(n);
    EscapeJoins(plain, percents + more);
    EscapeJoins(percents, more);
    RepeatIs('%', n);
    RepeatIs('%', 2 * n);
    Regroup(plain, Repeat('%', 2 * n), Escape(more), rest);
    assert plain + percents + more == plain + (percents + more);
  }

  lemma Regroup(a: string, b: string, c: string, d: string)
    ensures a + (b + c) + d == a + (b + (c + d))
  {}

  lemma OneTurnOfText(fmt: string, s: nat, lit: string, next: nat, args: seq<Arg>, k: nat, cnt: nat)
    requires s < |fmt| && next <= |fmt| && Literal(fmt, s) == lit != "" && AfterLiteral(fmt, s) == next
    requires cnt + |lit| <= 0x7fff_ffff
    ensures Render(fmt, s, args, k, cnt) == Prepend(lit, Render(fmt, next, args, k, cnt + |lit|))
  {
    hide Literal, AfterLiteral, Parse, Expand;
  }

  lemma PrependNothing(r: Rendering)
    ensures Prepend("", r) == r
  {
    assert "" + r.text == r.text;
  }

  lemma PrependJoins(a: string, b: string, r: Rendering)
    ensures Prepend(a, Prepend(b, r)) == Prepend(a + b, r)
  {
    assert a + (b + r.text) == a + b + r.text;
  }

  /** Text as plain characters, percent signs, and the rest. */
  lemma SplitText(t: string) returns (e: nat, n: nat, more: string)
    requires t != ""
    ensures e <= |t| && e + n + |more| == |t| && e + n > 0 && t == t[..e] + (Repeat('%', n) + more)
    ensures (forall k :: 0 <= k < e ==> t[k] != '%') && (n == 0 ==> more == "") && (more != "" ==> more[0] != '%')
  {
    e := RunEnd(t, 0, NotPercent);
    var f := RunEnd(t, e, c => c == '%');
    n, more := f - e, t[f..];
    assert t[e..f] == Repeat('%', n);
    assert t == t[..e] + (t[e..f] + t[f..]);
  }

  /** A directive is output as what it means. */
  lemma DirectiveIsOutput(fmt: string, s: nat, w: Spelling, rest: string, args: seq<Arg>, k: nat, kind: ArgType,
                          cnt: nat, text: string)
    requires s < |fmt| && fmt[s..] == "%" + SpelledText(w, rest) && WellSpelled(w, args, k, kind) && |rest| <= |fmt|
    requires Expand(Meant(w, args, k, kind, |fmt| - |rest|), cnt) == Some(text)
    ensures Render(fmt, s, args, k, cnt)
         == Prepend(text, Render(fmt, |fmt| - |rest|, args, k + Stars(w) + 1, cnt + |text|))
  {
    hide TypeOf, Parse, Expand, SpelledText, Meant, AmountOk, Render, Literal;
    DirectiveRead(fmt, s, w, rest, args, k, kind);
    NoLiteral(fmt, s, w, rest, args, k, kind);
    OneTurnOfDirective(fmt, s, Meant(w, args, k, kind, |fmt| - |rest|), args, k, cnt, text);
  }

  lemma OneTurnOfDirective(fmt: string, s: nat, d: Directive, args: seq<Arg>, k: nat, cnt: nat, text: string)
    requires s < |fmt| && Literal(fmt, s) == "" && Parse(fmt, s, args, k) == Parsed(d) && Expand(d, cnt) == Some(text)
    requires d.next <= |fmt|
    ensures Render(fmt, s, args, k, cnt) == Prepend(text, Render(fmt, d.next, args, d.used, cnt + |text|))
  {
    hide Literal, AfterLiteral, Parse, Expand;
    ExpandLength(d, cnt);
  }

  lemma NoLiteral(fmt: string, s: nat, w: Spelling, rest: string, args: seq<Arg>, k: nat, kind: ArgType)
    requires s < |fmt| && fmt[s..] == "%" + SpelledText(w, rest) && WellSpelled(w, args, k, kind)
    ensures Literal(fmt, s) == ""
  {
    hide TypeOf, SpelledText, WellSpelled;
    var t := SpelledText(w, rest);
    FrontAt(fmt, s, "%" + t);
    assert ("%" + t)[0] == '%';
    FirstIsNoPercent(w, rest, args, k, kind);
    assert t != "" ==> ("%" + t)[1] == t[0];
  }

  lemma FirstIsNoPercent(w: Spelling, rest: string, args: seq<Arg>, k: nat, kind: ArgType)
    requires WellSpelled(w, args, k, kind)
    ensures SpelledText(w, rest) != "" && SpelledText(w, rest)[0] != '%'
  {
    hide TypeOf, IsFlag;
    FlagsEnd(w, args, k, kind, rest);
    var t := AmountText(w.width) + (PrecisionText(w.precision) + Tail(w, rest));
    TailStarts(w, kind, rest);
    if w.flags != "" {
      assert (w.flags + t)[0] == w.flags[0] && w.flags[0] in w.flags;
      assert '%' !in "#0- +";
    } else {
      assert w.flags + t == t;
      AfterWidthStarts(w, kind, rest);
      NoPercentFirst(w, kind, rest);
    }
  }

  lemma NoPercentFirst(w: Spelling, kind: ArgType, rest: string)
    requires TypeOf(w.modifier, w.conversion) == Some(kind)
    requires w.width.Written? ==> AllDigits(w.width.digits)
    ensures var t := AmountText(w.width) + (PrecisionText(w.precision) + Tail(w, rest)); t != "" && t[0] != '%'
  {
    hide TypeOf;
    TailStarts(w, kind, rest);
    var u := PrecisionText(w.precision) + Tail(w, rest);
    assert u[0] == if w.precision.None? then Tail(w, rest)[0] else '.';
    var t := AmountText(w.width) + u;
    assert t[0] == if AmountText(w.width) == "" then u[0] else AmountText(w.width)[0];
  }

  // ---------------------------------------------------------------- plain strings and characters

  /** A conversion without flags, width, precision and modifier. */
  function Bare(c: char): Spelling { Spelling("", Written(""), None, "", c) }

  lemma BareIsSpelled(c: char, args: seq<Arg>, kind: ArgType)
    requires TypeOf("", c) == Some(kind) && c != 'n' && |args| == 1 && (kind == PTR <==> !args[0].Num?)
    ensures WellSpelled(Bare(c), args, 0, kind) && ['%', c] == "%" + SpelledText(Bare(c), "")
    ensures Meant(Bare(c), args, 0, kind, 2)
         == Directive(Flags(false, false, false, false, false), 0, -1, false, c,
                      if kind == PTR then args[0] else Num(Fetch(kind, args[0].value)), 2, 1)
  {
    hide TypeOf;
    assert Value("", 10) == 0;
    assert SpelledText(Bare(c), "") == [c];
  }

  /** "%" and a conversion are the whole output of a format that is nothing else. */
  lemma BareIsOutput(c: char, arg: Arg, kind: ArgType, text: string)
    requires TypeOf("", c) == Some(kind) && c != 'n' && (kind == PTR <==> !arg.Num?)
    requires Expand(Directive(Flags(false, false, false, false, false), 0, -1, false, c,
                              if kind == PTR then arg else Num(Fetch(kind, arg.value)), 2, 1), 0) == Some(text)
    ensures Render(['%', c], 0, [arg], 0, 0) == Rendering(Complete, text)
  {
    hide TypeOf, Expand, WellSpelled, SpelledText, Meant, Fetch;
    BareIsSpelled(c, [arg], kind);
    var fmt := ['%', c];
    assert fmt[0..] == fmt;
    DirectiveIsOutput(fmt, 0, Bare(c), "", [arg], 0, kind, 0, text);
    assert text + "" == text;
  }

  /** Without a width, a conversion is its prefix and digits. */
  lemma NoField(d: Directive, cnt: nat)
    requires ShapeOf(d).Some? && d.w == 0 && !d.fl.left && !ShapeOf(d).value.zero
    requires var sh := ShapeOf(d).value; sh.p == |sh.body| && sh.prefix == "" && |sh.body| + cnt <= 0x7fff_ffff
    ensures Expand(d, cnt) == Some(ShapeOf(d).value.body)
  {
    hide ShapeOf, Shown, Layout;
    var sh := ShapeOf(d).value;
    assert Expand(d, cnt).Some?;
    FieldMeans(d, cnt);
    ShownMeans(sh);
    assert Shown(sh) == sh.body;
    var t := Expand(d, cnt).value;
    assert t[|t| - |t|..] == t && "" + Shown(sh) == sh.body;
  }

  /** "%s" outputs its argument. */
  lemma StringIsOutput(t: CString)
    requires |t| <= 0x7fff_ffff
    ensures Render("%s", 0, [Text(t)], 0, 0) == Rendering(Complete, t)
  {
    hide Expand, Render;
    var d := Directive(Flags(false, false, false, false, false), 0, -1, false, 's', Text(t), 2, 1);
    StringMeans(d, t);
    assert t[..|t|] == t;
    NoField(d, 0);
    BareIsOutput('s', Text(t), PTR, t);
    assert "%s" == ['%', 's'];
  }

  /** A null pointer as "(null)". */
  lemma NullIsOutput()
    ensures Render("%s", 0, [Null], 0, 0) == Rendering(Complete, "(null)")
  {
    hide Expand, Render;
    var d := Directive(Flags(false, false, false, false, false), 0, -1, false, 's', Null, 2, 1);
    StringMeans(d, "(null)");
    assert "(null)"[..6] == "(null)";
    NoField(d, 0);
    BareIsOutput('s', Null, PTR, "(null)");
    assert "%s" == ['%', 's'];
  }

  /** "%c" outputs the character whose code is the argument modulo 256. */
  lemma CharIsOutput(v: word)
    ensures Render("%c", 0, [Num(v)], 0, 0) == Rendering(Complete, [(v % 256) as char])
  {
    hide Expand, Render;
    var d := Directive(Flags(false, false, false, false, false), 0, -1, false, 'c', Num(SextW(v)), 2, 1);
    LowByte(v);
    CharMeans(d, SextW(v));
    NoField(d, 0);
    BareIsOutput('c', Num(v), INT, [(v % 256) as char]);
    assert "%c" == ['%', 'c'];
  }

  lemma LowByte(v: word)
    ensures SextW(v) % 256 == v % 256
  {}

  // ---------------------------------------------------------------- the buffer

  /** The string that a buffer holds: the characters in front of the first NUL. */
  function StringIn(buf: seq<char>): string {
    if buf == [] || buf[0] == '\0' then "" else [buf[0]] + StringIn(buf[1..])
  }

  lemma {:induction false} StringInFront(buf: seq<char>, n: nat)
    requires n < |buf| && buf[n] == '\0' && forall k :: 0 <= k < n ==> buf[k] != '\0'
    ensures StringIn(buf) == buf[..n]
  {
    if n > 0 {
      StringInFront(buf[1..], n - 1);
      assert buf[..n] == [buf[0]] + buf[1..][..n - 1];
    }
  }

  /** After `vsnprintf` the buffer holds, as a string, as much of the output as fits with its NUL. */
  lemma BufferIsString(before: seq<char>, after: seq<char>, size: nat, text: string)
    requires Truncated(before, after, size, text) && size > 0 && '\0' !in text
    ensures StringIn(after) == if |text| < size then text else text[..size - 1]
  {
    var n := if |text| < size then |text| else size - 1;
    assert forall k :: 0 <= k < n ==> after[k] == after[..n][k] && text[..n][k] == text[k] && text[k] in text;
    StringInFront(after, n);
    assert text[..|text|] == text;
  }
}
