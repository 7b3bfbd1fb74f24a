/** `printf_core` and `vsnprintf` (lib/vsnprintf.c; lib/vfprintf.c has the same core): formats without
    `%n` and without positional arguments. */
module Printf {
  import opened Wrappers
  import opened Words
  import opened Numerals
  import opened Output

  const INT_MAX: int := 0x7fff_ffff

  /** A string in memory: the characters in front of its NUL. */
  type CString = s: string | '\0' !in s witness ""

  /** An argument: a register's value, or a pointer to a string. */
  datatype Arg = Num(value: word) | Text(chars: CString) | Null

  datatype Flags = Flags(alt: bool, zero: bool, left: bool, blank: bool, plus: bool)

  /** How far a length modifier has been read. */
  datatype Length = BARE | LPRE | LLPRE | HPRE | HHPRE | ZTPRE | JPRE

  datatype ArgType =
    | PTR | INT | UINT | ULLONG | LONG | ULONG | SHORT | USHORT | CHAR | UCHAR | LLONG
    | SIZET | IMAX | UMAX | PDIFF | UIPTR

  datatype Transition = Bad | Prefix(len: Length) | Stop(kind: ArgType)

  /** The character at an index; the string ends with a NUL. */
  function At(s: string, i: nat): char { if i < |s| then s[i] else '\0' }

  predicate IsDigit(c: char) { '0' <= c <= '9' }

  // ---------------------------------------------------------------- reading a directive

  predicate IsFlag(c: char) { c == '#' || c == '0' || c == '-' || c == ' ' || c == '+' }

  function WithFlag(fl: Flags, c: char): Flags {
    if c == '#' then fl.(alt := true) else if c == '0' then fl.(zero := true) else if c == '-' then fl.(left := true)
    else if c == ' ' then fl.(blank := true) else if c == '+' then fl.(plus := true) else fl
  }

  /** A maximal run of characters. */
  function RunEnd(fmt: string, i: nat, p: char -> bool): (j: nat)
    requires i <= |fmt|
    ensures i <= j <= |fmt| && (forall k :: i <= k < j ==> p(fmt[k])) && (j < |fmt| ==> !p(fmt[j]))
    decreases |fmt| - i
  {
    if i < |fmt| && p(fmt[i]) then RunEnd(fmt, i + 1, p) else i
  }

  function AllFlags(s: string): Flags {
    if s == "" then Flags(false, false, false, false, false) else WithFlag(AllFlags(s[..|s| - 1]), s[|s| - 1])
  }

  /** A decimal number, or -1 if an int does not hold it. */
  function Decimal(s: string): int {
    if Value(s, 10) <= INT_MAX then Value(s, 10) else -1
  }

  /** The rows of the state table. */
  function Row(len: Length, c: char): Transition {
    match len
    case BARE =>
      if c == 'd' || c == 'i' || c == 'c' then Stop(INT)
      else if c == 'o' || c == 'u' || c == 'x' || c == 'X' then Stop(UINT)
      else if c == 's' || c == 'n' then Stop(PTR)
      else if c == 'p' then Stop(UIPTR)
      else if c == 'l' then Prefix(LPRE) else if c == 'h' then Prefix(HPRE)
      else if c == 'z' || c == 't' then Prefix(ZTPRE) else if c == 'j' then Prefix(JPRE)
      else Bad
    case LPRE =>
      if c == 'd' || c == 'i' then Stop(LONG)
      else if c == 'o' || c == 'u' || c == 'x' || c == 'X' then Stop(ULONG)
      else if c == 'c' then Stop(UINT) else if c == 's' || c == 'n' then Stop(PTR)
      else if c == 'l' then Prefix(LLPRE) else Bad
    case LLPRE => Plain(c, LLONG, ULLONG)
    case HPRE => if c == 'h' then Prefix(HHPRE) else Plain(c, SHORT, USHORT)
    case HHPRE => Plain(c, CHAR, UCHAR)
    case ZTPRE => Plain(c, PDIFF, SIZET)
    case JPRE => Plain(c, IMAX, UMAX)
  }

  function Plain(c: char, signed: ArgType, unsigned: ArgType): Transition {
    if c == 'd' || c == 'i' then Stop(signed)
    else if c == 'o' || c == 'u' || c == 'x' || c == 'X' then Stop(unsigned)
    else if c == 'n' then Stop(PTR) else Bad
  }

  /** The argument type that the characters from `i` on select, and the index behind them. */
  function Kind(fmt: string, i: nat, len: Length): Option<(ArgType, nat)>
    requires i <= |fmt|
    decreases |fmt| - i
  {
    match Row(len, At(fmt, i))
    case Bad => None
    case Stop(kind) => if i < |fmt| then Some((kind, i + 1)) else None
    case Prefix(next) => if i < |fmt| then Kind(fmt, i + 1, next) else None
  }

  /** The argument types of ISO/IEC 9899:2011, section 7.21.6.1, by length modifier and conversion
      specifier, without floating point and `%%`. */
  function TypeOf(modifier: string, conversion: char): Option<ArgType> {
    if conversion == 'd' || conversion == 'i' then SignedType(modifier)
    else if conversion == 'o' || conversion == 'u' || conversion == 'x' || conversion == 'X' then UnsignedType(modifier)
    else if conversion == 'c' then
      if modifier == "" then Some(INT) else if modifier == "l" then Some(UINT) else None
    else if conversion == 's' then if modifier == "" || modifier == "l" then Some(PTR) else None
    else if conversion == 'p' then if modifier == "" then Some(UIPTR) else None
    else if conversion == 'n' then if SignedType(modifier).Some? then Some(PTR) else None
    else None
  }

  function SignedType(modifier: string): Option<ArgType> {
    if modifier == "" then Some(INT) else if modifier == "l" then Some(LONG) else if modifier == "ll" then Some(LLONG)
    else if modifier == "h" then Some(SHORT) else if modifier == "hh" then Some(CHAR)
    else if modifier == "j" then Some(IMAX) else if modifier == "z" || modifier == "t" then Some(PDIFF) else None
  }

  function UnsignedType(modifier: string): Option<ArgType> {
    if modifier == "" then Some(UINT) else if modifier == "l" then Some(ULONG)
      else if modifier == "ll" then Some(ULLONG)
    else if modifier == "h" then Some(USHORT) else if modifier == "hh" then Some(UCHAR)
    else if modifier == "j" then Some(UMAX) else if modifier == "z" || modifier == "t" then Some(SIZET) else None
  }

  /** The modifier characters that lead to a state of the machine; 'z' and 't' share theirs. */
  predicate Leads(modifier: string, len: Length) {
    match len
    case BARE => modifier == ""
    case LPRE => modifier == "l"
    case LLPRE => modifier == "ll"
    case HPRE => modifier == "h"
    case HHPRE => modifier == "hh"
    case ZTPRE => modifier == "z" || modifier == "t"
    case JPRE => modifier == "j"
  }

  predicate IsConversion(c: char) {
    c == 'd' || c == 'i' || c == 'o' || c == 'u' || c == 'x' || c == 'X' || c == 'c' || c == 's' || c == 'p' || c == 'n'
  }

  /** One step of the state machine, against the standard's table. */
  lemma RowMeans(modifier: string, len: Length, c: char)
    requires Leads(modifier, len)
    ensures match Row(len, c)
            case Stop(kind) => TypeOf(modifier, c) == Some(kind)
            case Prefix(next) => Leads(modifier + [c], next) && !IsConversion(c)
            case Bad => TypeOf(modifier, c).None?
  {}

  /** Only a prefix step leads on. */
  lemma OnlyPrefixLeads(modifier: string, len: Length, c: char, k: Length)
    requires Leads(modifier, len) && Leads(modifier + [c], k)
    ensures Row(len, c).Prefix?
  {
    var longer := modifier + [c];
    assert longer[|modifier|] == c && longer[0] == if modifier == "" then c else modifier[0];
  }

  /** A modifier is one of the standard's, or no conversion goes with it. */
  lemma NoSuchModifier(modifier: string, c: char)
    requires forall len: Length :: !Leads(modifier, len)
    ensures TypeOf(modifier, c).None?
  {
    assert !Leads(modifier, BARE) && !Leads(modifier, LPRE) && !Leads(modifier, LLPRE) && !Leads(modifier, HPRE);
    assert !Leads(modifier, HHPRE) && !Leads(modifier, ZTPRE) && !Leads(modifier, JPRE);
  }

  /** A modifier's beginning is itself a modifier. */
  lemma ModifierBegins(modifier: string, m: nat, len: Length)
    requires Leads(modifier, len) && m <= |modifier|
    ensures exists k: Length :: Leads(modifier[..m], k)
  {
    if m == 0 {
      assert Leads(modifier[..m], BARE);
    } else if m == |modifier| {
      assert modifier[..m] == modifier;
    } else {
      assert modifier[..m] == [modifier[0]];
      assert Leads(modifier[..m], if len == LLPRE then LPRE else HPRE);
    }
  }

  /** From a state on, the machine stops behind the conversion that the standard's table has for the
      whole modifier. */
  lemma {:induction false} KindMeans(fmt: string, s: nat, i: nat, len: Length, kind: ArgType, n: nat)
    requires s <= i <= |fmt| && Leads(fmt[s..i], len)
    ensures Kind(fmt, i, len) == Some((kind, n)) <==> i < n <= |fmt| && TypeOf(fmt[s..n - 1], fmt[n - 1]) == Some(kind)
    decreases |fmt| - i
  {
    hide TypeOf, Row, Leads;
    if i < |fmt| {
      RowMeans(fmt[s..i], len, fmt[i]);
      assert fmt[s..i] + [fmt[i]] == fmt[s..i + 1];
      if Row(len, fmt[i]).Prefix? {
        KindMeans(fmt, s, i + 1, Row(len, fmt[i]).len, kind, n);
        if n == i + 1 { ModifiersDoNotConvert(fmt[s..i], fmt[i]); }
      } else if i + 1 < n <= |fmt| {
        NoLongerModifier(fmt, s, i, len, n);
      }
    } else {
      KindAtEnd(fmt, len);
    }
  }

  lemma KindAtEnd(fmt: string, len: Length)
    ensures Kind(fmt, |fmt|, len).None?
  {}

  lemma ModifiersDoNotConvert(modifier: string, c: char)
    requires !IsConversion(c)
    ensures TypeOf(modifier, c).None?
  {}

  /** Behind a character that ends the modifier there is no conversion of a longer one. */
  lemma NoLongerModifier(fmt: string, s: nat, i: nat, len: Length, n: nat)
    requires s <= i && i + 1 < n <= |fmt| && Leads(fmt[s..i], len) && !Row(len, fmt[i]).Prefix?
    ensures TypeOf(fmt[s..n - 1], fmt[n - 1]).None?
  {
    hide TypeOf, Row, Leads;
    var whole := fmt[s..n - 1];
    assert whole[..i + 1 - s] == fmt[s..i] + [fmt[i]];
    forall k: Length
      ensures !Leads(whole, k)
    {
      if Leads(whole, k) {
        ModifierBegins(whole, i + 1 - s, k);
        var l: Length :| Leads(whole[..i + 1 - s], l);
        OnlyPrefixLeads(fmt[s..i], len, fmt[i], l);
      }
    }
    NoSuchModifier(whole, fmt[n - 1]);
  }

  /** The state machine accepts exactly the standard's modifiers and conversions, and selects the
      standard's argument type. */
  lemma KindAccepts(fmt: string, s: nat, kind: ArgType, n: nat)
    requires s <= |fmt|
    ensures Kind(fmt, s, BARE) == Some((kind, n)) <==> s < n <= |fmt| && TypeOf(fmt[s..n - 1], fmt[n - 1]) == Some(kind)
  {
    assert Leads(fmt[s..s], BARE);
    KindMeans(fmt, s, s, BARE, kind, n);
  }

  lemma {:induction false} KindIndex(fmt: string, i: nat, len: Length)
    requires i <= |fmt| && Kind(fmt, i, len).Some?
    ensures i < Kind(fmt, i, len).value.1 <= |fmt|
    decreases |fmt| - i
  {
    match Row(len, At(fmt, i))
    case Bad =>
    case Stop(kind) =>
    case Prefix(next) => KindIndex(fmt, i + 1, next);
  }

  /** What `va_arg` and the conversion to `uintmax_t` make of a register. */
  function Fetch(kind: ArgType, v: word): word {
    match kind
    case INT => SextW(v)
    case UINT => Low32(v)
    case SHORT => if v % 0x1_0000 < 0x8000 then v % 0x1_0000 else v % 0x1_0000 + 0xffff_ffff_ffff_0000
    case USHORT => v % 0x1_0000
    case CHAR => if v % 0x100 < 0x80 then v % 0x100 else v % 0x100 + 0xffff_ffff_ffff_ff00
    case UCHAR => v % 0x100
    case _ => v
  }

  /** How many values an argument type has, and whether it is signed. */
  function Values(kind: ArgType): nat {
    match kind
    case CHAR | UCHAR => 0x100
    case SHORT | USHORT => 0x1_0000
    case INT | UINT => 0x1_0000_0000
    case _ => WORD
  }

  predicate SignedKind(kind: ArgType) {
    kind == CHAR || kind == SHORT || kind == INT || kind == LONG || kind == LLONG || kind == IMAX || kind == PDIFF
  }

  /** A value of the argument's type arrives as itself, whatever the register holds above it. */
  lemma ArgumentArrives(kind: ArgType, x: int, v: word)
    requires v % Values(kind) == x % Values(kind)
    requires if SignedKind(kind) then 0 <= 2 * x + Values(kind) < 2 * Values(kind) else 0 <= x < Values(kind)
    ensures x == if SignedKind(kind) then Signed(Fetch(kind, v)) else Fetch(kind, v)
  {}

  function Int32(v: word): int { if Low32(v) < 0x8000_0000 then Low32(v) else Low32(v) - 0x1_0000_0000 }

  /** A directive as read: `xp` says whether a precision was given; `used` counts the arguments. */
  datatype Directive = Directive(fl: Flags, w: int, p: int, xp: bool, t: char, arg: Arg, next: nat, used: nat)

  /** `Outside` stands for what this model leaves out, and for arguments that do not fit the format. */
  datatype Parsed = Invalid | Outside | Parsed(d: Directive)

  datatype Number = Missing | TooLarge | Given(value: int, next: nat, used: nat)

  /** A number in the format, or `*` for one from the arguments. */
  function ReadNumber(fmt: string, i: nat, args: seq<Arg>, k: nat): Number
    requires i <= |fmt|
  {
    if At(fmt, i) == '*' then
      if IsDigit(At(fmt, i + 1)) && At(fmt, i + 2) == '$' then Missing
      else if k < |args| && args[k].Num? then Given(Int32(args[k].value), i + 1, k + 1)
      else Missing
    else
      var j := RunEnd(fmt, i, IsDigit);
      if Decimal(fmt[i..j]) < 0 then TooLarge else Given(Decimal(fmt[i..j]), j, k)
  }

  /** The precision: -1 and false if there is none.  A number too large counts as -1. */
  function ReadPrecision(fmt: string, i: nat, args: seq<Arg>, k: nat): (Number, bool)
    requires i <= |fmt|
  {
    if At(fmt, i) != '.' then (Given(-1, i, k), false)
    else
      match ReadNumber(fmt, i + 1, args, k)
      case Missing => (Missing, true)
      case TooLarge => (Given(-1, RunEnd(fmt, i + 1, IsDigit), k), true)
      case Given(p, j, k') => (Given(p, j, k'), if At(fmt, i + 1) == '*' then p >= 0 else true)
  }

  lemma NumberIndex(fmt: string, i: nat, args: seq<Arg>, k: nat)
    requires i <= |fmt| && ReadNumber(fmt, i, args, k).Given?
    ensures i <= ReadNumber(fmt, i, args, k).next <= |fmt|
  {}

  /** `-w`, which for the least int is that int again. */
  function Negated(w: int): int { if w == -0x8000_0000 then w else -w }

  function Parse(fmt: string, s: nat, args: seq<Arg>, k: nat): Parsed
    requires s < |fmt|
  {
    if IsDigit(At(fmt, s + 1)) && At(fmt, s + 2) == '$' then Outside
    else
      var i := RunEnd(fmt, s + 1, IsFlag);
      var fl := AllFlags(fmt[s + 1..i]);
      match ReadNumber(fmt, i, args, k)
      case Missing => Outside
      case TooLarge => Invalid
      case Given(w, j, k1) =>
        NumberIndex(fmt, i, args, k);
        ParseRest(fmt, j, args, k1, if w < 0 then fl.(left := true) else fl, if w < 0 then Negated(w) else w)
  }

  function ParseRest(fmt: string, j: nat, args: seq<Arg>, k: nat, fl: Flags, w: int): Parsed
    requires j <= |fmt|
  {
    match ReadPrecision(fmt, j, args, k)
    case (Missing, _) => Outside
    case (TooLarge, _) => Invalid
    case (Given(p, i, k1), xp) =>
      PrecisionIndex(fmt, j, args, k);
      match Kind(fmt, i, BARE)
      case None => Invalid
      case Some((kind, next)) =>
        KindIndex(fmt, i, BARE);
        var t := fmt[next - 1];
        if t == 'n' || k1 >= |args| || (kind == PTR && args[k1].Num?) || (kind != PTR && !args[k1].Num?) then Outside
        else
          var arg := if kind == PTR then args[k1] else Num(Fetch(kind, args[k1].value));
          Parsed(Directive(fl, w, p, xp, t, arg, next, k1 + 1))
  }

  lemma PrecisionIndex(fmt: string, i: nat, args: seq<Arg>, k: nat)
    requires i <= |fmt| && ReadPrecision(fmt, i, args, k).0.Given?
    ensures i <= ReadPrecision(fmt, i, args, k).0.next <= |fmt|
  {
    if At(fmt, i) == '.' && ReadNumber(fmt, i + 1, args, k).Given? { NumberIndex(fmt, i + 1, args, k); }
  }

  lemma ParseAdvances(fmt: string, s: nat, args: seq<Arg>, k: nat)
    requires s < |fmt| && Parse(fmt, s, args, k).Parsed?
    ensures s < Parse(fmt, s, args, k).d.next <= |fmt|
  {
    var i := RunEnd(fmt, s + 1, IsFlag);
    var n := ReadNumber(fmt, i, args, k);
    NumberIndex(fmt, i, args, k);
    PrecisionIndex(fmt, n.next, args, n.used);
    KindIndex(fmt, ReadPrecision(fmt, n.next, args, n.used).0.next, BARE);
  }

  // ---------------------------------------------------------------- what a directive shows

  /** Prefix, digits or text, least number of digits, and whether to fill with zeros. */
  datatype Shape = Shape(prefix: string, body: string, p: int, zero: bool)

  /** The sign or blank in front of a signed number. */
  function Sign(fl: Flags, v: word): string {
    if v >= 0x8000_0000_0000_0000 then "-" else if fl.plus then "+" else if fl.blank then " " else ""
  }

  function Magnitude(v: word): word { if v >= 0x8000_0000_0000_0000 then Neg(v) else v }

  /** The end of the integer cases: precision overrides zero fill; zero with precision zero shows no
      digit, zero otherwise at least one. */
  function Digits(d: Directive, v: word, prefix: string, body: string, p: int): Option<Shape> {
    if d.xp && p < 0 then None
    else Some(Shape(prefix, body, if v == 0 && p == 0 then 0 else Max(p, |body| + if v == 0 then 1 else 0),
                    d.fl.zero && !d.fl.left && !d.xp))
  }

  /** The precision that `%p` works with: a negative one is huge once it is unsigned, and the maximum
      of it is negative again once it is an int. */
  function PointerPrecision(p: int): int { if p < 0 then p else Max(p, 16) }

  predicate IsInteger(t: char) {
    t == 'd' || t == 'i' || t == 'u' || t == 'o' || t == 'x' || t == 'X' || t == 'p'
  }

  function IntegerShape(d: Directive, v: word): Option<Shape> {
    if d.t == 'o' then
      var body := Numeral(v, 8, false);
      Digits(d, v, "", body, if d.fl.alt && d.p < |body| + 1 then |body| + 1 else d.p)
    else if d.t == 'x' || d.t == 'X' || d.t == 'p' then
      var prefix := if v == 0 || !(d.fl.alt || d.t == 'p') then "" else if d.t == 'X' then "0X" else "0x";
      Digits(d, v, prefix, Numeral(v, 16, d.t != 'X'), if d.t == 'p' then PointerPrecision(d.p) else d.p)
    else if d.t == 'u' then
      Digits(d, v, "", Numeral(v, 10, false), d.p)
    else
      Digits(d, v, Sign(d.fl, v), Numeral(Magnitude(v), 10, false), d.p)
  }

  function ShapeOf(d: Directive): Option<Shape> {
    if d.t == 'c' then
      if d.arg.Num? then Some(Shape("", [(d.arg.value % 0x100) as char], 1, false)) else None
    else if d.t == 's' then
      var chars := if d.arg.Text? then d.arg.chars else "(null)";
      if d.p < 0 && |chars| > INT_MAX then None
      else
        var body := if d.p < 0 then chars else chars[..Min(d.p, |chars|)];
        Some(Shape("", body, |body|, false))
    else if d.arg.Num? then IntegerShape(d, d.arg.value)
    else None
  }

  /** The characters that a directive produces when `cnt` have been produced before; None if the
      total is more than an int holds. */
  function Expand(d: Directive, cnt: nat): Option<string> {
    match ShapeOf(d)
    case None => None
    case Some(Shape(prefix, body, p0, zero)) =>
      var p := Max(p0, |body|);
      if p > INT_MAX - |prefix| then None
      else
        var w := Max(d.w, |prefix| + p);
        if w > INT_MAX - cnt then None
        else Some(Layout(d.fl.left, zero, w, prefix, p, body))
  }

  function Base(t: char): nat { if t == 'o' then 8 else if t == 'x' || t == 'X' || t == 'p' then 16 else 10 }

  predicate IsSigned(t: char) { t == 'd' || t == 'i' }

  /** The digits that a shape shows, with those that the precision adds. */
  function Shown(sh: Shape): string { Repeat('0', sh.p - |sh.body|) + sh.body }

  /** The number whose digits are shown. */
  function Absolute(d: Directive, v: word): word { if IsSigned(d.t) then Magnitude(v) else v }

  function ShownBody(d: Directive, v: word): string {
    Numeral(Absolute(d, v), Base(d.t), Base(d.t) == 16 && d.t != 'X')
  }

  /** The least number of digits, when the number itself has `n`. */
  function LeastDigits(d: Directive, v: word, n: nat): int {
    var p := if d.t == 'o' && d.fl.alt && d.p < n + 1 then n + 1 else if d.t == 'p' then PointerPrecision(d.p) else d.p;
    if v == 0 && p == 0 then 0 else Max(p, n + if v == 0 then 1 else 0)
  }

  /** What an integer conversion shows denotes the argument: a minus sign exactly for negative values
      of the signed conversions, digits of that magnitude in the conversion's base, as many as the
      precision asks for, and none at all only for a zero with precision zero. */
  lemma IntegerDenotes(d: Directive, v: word)
    requires IsInteger(d.t) && IntegerShape(d, v).Some?
    ensures var sh := IntegerShape(d, v).value;
      && Value(Shown(sh), Base(d.t)) == (if IsSigned(d.t) then Magnitude(v) else v)
      && (sh.prefix == "-" <==> IsSigned(d.t) && Signed(v) < 0)
      && |Shown(sh)| >= d.p
      && (Shown(sh) == "" <==> v == 0 && d.p == 0 && d.t != 'p' && !(d.t == 'o' && d.fl.alt))
      && (d.t == 'o' && d.fl.alt ==> Shown(sh)[0] == '0')
  {
    hide Value, Numeral, Repeat, IntegerShape, LeastDigits, ShownBody, Magnitude, Signed, Shown;
    var sh := IntegerShape(d, v).value;
    ShapeParts(d, v);
    PrefixIsSign(d, v);
    BodyFacts(d, v);
    CountFacts(d, v, |sh.body|);
    ShownFacts(sh, Base(d.t));
  }

  lemma DigitsParts(d: Directive, v: word)
    ensures forall prefix, body, p :: Digits(d, v, prefix, body, p).Some? ==>
              var sh := Digits(d, v, prefix, body, p).value;
              && sh.prefix == prefix && sh.body == body
              && sh.p == if v == 0 && p == 0 then 0 else Max(p, |body| + if v == 0 then 1 else 0)
  {}

  lemma ShapeParts(d: Directive, v: word)
    requires IsInteger(d.t) && IntegerShape(d, v).Some?
    ensures IntegerShape(d, v).value.body == ShownBody(d, v)
    ensures IntegerShape(d, v).value.p == LeastDigits(d, v, |ShownBody(d, v)|)
  {
    hide Numeral, Digits, Magnitude, Sign, PointerPrecision;
    DigitsParts(d, v);
  }

  lemma PrefixIsSign(d: Directive, v: word)
    requires IsInteger(d.t) && IntegerShape(d, v).Some?
    ensures IntegerShape(d, v).value.prefix == "-" <==> IsSigned(d.t) && Signed(v) < 0
  {
    hide Numeral, Digits, Magnitude, Sign, PointerPrecision;
    DigitsParts(d, v);
    SignIsMinus(d.fl, v);
    assert "" != "-" && "0x" != "-" && "0X" != "-" by {
      assert |"0x"| == |"0X"| == 2;
    }
  }

  lemma SignIsMinus(fl: Flags, v: word)
    ensures Sign(fl, v) == "-" <==> Signed(v) < 0
  {
    assert "+"[0] != '-' && " "[0] != '-';
  }

  lemma BodyFacts(d: Directive, v: word)
    ensures ShownBody(d, v) == "" <==> v == 0
    ensures Value(ShownBody(d, v), Base(d.t)) == if IsSigned(d.t) then Magnitude(v) else v
  {
    hide Numeral, Value;
    NumeralValue(Absolute(d, v), Base(d.t), Base(d.t) == 16 && d.t != 'X');
    NumeralShape(Absolute(d, v), Base(d.t), Base(d.t) == 16 && d.t != 'X');
    NumeralOfZero(Base(d.t), Base(d.t) == 16 && d.t != 'X');
  }

  /** How the precision counts, for a number with `n` digits. */
  lemma CountFacts(d: Directive, v: word, n: nat)
    requires IsInteger(d.t) && (n == 0 <==> v == 0)
    ensures Max(LeastDigits(d, v, n), n) >= d.p
    ensures Max(LeastDigits(d, v, n), n) == 0 <==> v == 0 && d.p == 0 && d.t != 'p' && !(d.t == 'o' && d.fl.alt)
    ensures d.t == 'o' && d.fl.alt ==> LeastDigits(d, v, n) > n
  {}

  lemma ShownFacts(sh: Shape, base: nat)
    requires IsBase(base)
    ensures |Shown(sh)| == Max(sh.p, |sh.body|) && Value(Shown(sh), base) == Value(sh.body, base)
    ensures sh.p > |sh.body| ==> Shown(sh)[0] == '0'
  {
    hide Value, Repeat;
    ZerosInFront(sh.p - |sh.body|, sh.body, base);
    ZerosShown(sh.p - |sh.body|);
  }

  lemma {:induction false} ZerosInFront(n: int, s: string, base: nat)
    requires IsBase(base)
    ensures Value(Repeat('0', n) + s, base) == Value(s, base)
    decreases |s|
  {
    hide Repeat, Value;
    if s != "" {
      var t, c := s[..|s| - 1], s[|s| - 1];
      ZerosInFront(n, t, base);
      ValueAppend(Repeat('0', n) + t, c, base);
      ValueAppend(t, c, base);
      assert s == t + [c];
      assert Repeat('0', n) + s == Repeat('0', n) + t + [c];
    } else {
      OnlyZeros(n, base);
      assert Repeat('0', n) + s == Repeat('0', n);
    }
  }

  lemma {:induction false} OnlyZeros(n: int, base: nat)
    requires IsBase(base)
    ensures Value(Repeat('0', n), base) == Value("", base) == 0
    decreases n
  {
    hide Value, Repeat;
    NothingIsZero(base);
    RepeatSnoc(n);
    if n > 0 {
      OnlyZeros(n - 1, base);
      ValueAppend(Repeat('0', n - 1), '0', base);
    }
  }

  lemma RepeatSnoc(n: int)
    ensures n <= 0 ==> Repeat('0', n) == ""
    ensures n > 0 ==> Repeat('0', n) == Repeat('0', n - 1) + ['0']
  {}

  lemma ZerosShown(n: int)
    ensures |Repeat('0', n)| == Max(n, 0) && (n > 0 ==> Repeat('0', n)[0] == '0')
  {}

  // ---------------------------------------------------------------- what a format shows

  predicate NotPercent(c: char) { c != '%' }

  /** The number of "%%" from `i` on. */
  function Percents(fmt: string, i: nat): (n: nat)
    requires i <= |fmt|
    ensures i + 2 * n <= |fmt|
    decreases |fmt| - i
  {
    if At(fmt, i) == '%' && At(fmt, i + 1) == '%' then 1 + Percents(fmt, i + 2) else 0
  }

  datatype End = Complete | Fails | Beyond

  datatype Rendering = Rendering(end: End, text: string)

  function Prepend(t: string, r: Rendering): Rendering { r.(text := t + r.text) }

  /** Literal text up to a directive: plain characters, then a percent sign for each "%%". */
  function Literal(fmt: string, s: nat): string
    requires s <= |fmt|
  {
    var e := RunEnd(fmt, s, NotPercent);
    fmt[s..e] + Repeat('%', Percents(fmt, e))
  }

  function AfterLiteral(fmt: string, s: nat): (i: nat)
    requires s <= |fmt|
    ensures s <= i <= |fmt|
  {
    var e := RunEnd(fmt, s, NotPercent);
    e + 2 * Percents(fmt, e)
  }

  /** One turn of the loop of `printf_core`. */
  datatype Turn = Ends(end: End) | Goes(text: string, next: nat, used: nat)

  function TurnAt(fmt: string, s: nat, args: seq<Arg>, k: nat, cnt: nat): Turn
    requires s < |fmt|
  {
    var lit := Literal(fmt, s);
    if |lit| > INT_MAX - cnt then Ends(Fails)
    else if |lit| > 0 then Goes(lit, AfterLiteral(fmt, s), k)
    else
      match Parse(fmt, s, args, k)
      case Invalid => Ends(Fails)
      case Outside => Ends(Beyond)
      case Parsed(d) => if Expand(d, cnt).None? then Ends(Fails) else Goes(Expand(d, cnt).value, d.next, d.used)
  }

  lemma TurnAdvances(fmt: string, s: nat, args: seq<Arg>, k: nat, cnt: nat)
    requires s < |fmt| && TurnAt(fmt, s, args, k, cnt).Goes?
    ensures s < TurnAt(fmt, s, args, k, cnt).next <= |fmt|
    ensures |TurnAt(fmt, s, args, k, cnt).text| <= INT_MAX - cnt
  {
    hide Literal, AfterLiteral, Parse, Expand, RunEnd;
    if |Literal(fmt, s)| > 0 {
      LiteralAdvances(fmt, s);
    } else {
      ParseAdvances(fmt, s, args, k);
      ExpandLength(Parse(fmt, s, args, k).d, cnt);
    }
  }

  /** The output for the format from `s` on, with `k` arguments used and `cnt` characters produced. */
  function Render(fmt: string, s: nat, args: seq<Arg>, k: nat, cnt: nat): Rendering
    requires s <= |fmt|
    decreases |fmt| - s
  {
    if s == |fmt| then Rendering(Complete, "")
    else
      match TurnAt(fmt, s, args, k, cnt)
      case Ends(end) => Rendering(end, "")
      case Goes(text, next, used) =>
        TurnAdvances(fmt, s, args, k, cnt);
        Prepend(text, Render(fmt, next, args, used, cnt + |text|))
  }

  lemma LiteralAdvances(fmt: string, s: nat)
    requires s < |fmt| && |Literal(fmt, s)| > 0
    ensures AfterLiteral(fmt, s) > s
  {}

  /** A format that succeeds produces no more than an int counts. */
  lemma {:induction false} RenderFits(fmt: string, s: nat, args: seq<Arg>, k: nat, cnt: nat)
    requires s <= |fmt| && cnt <= INT_MAX
    ensures cnt + |Render(fmt, s, args, k, cnt).text| <= INT_MAX
    decreases |fmt| - s
  {
    hide TurnAt;
    if s < |fmt| && TurnAt(fmt, s, args, k, cnt).Goes? {
      TurnAdvances(fmt, s, args, k, cnt);
      var t := TurnAt(fmt, s, args, k, cnt);
      RenderFits(fmt, t.next, args, t.used, cnt + |t.text|);
    }
  }

  /** A directive produces as many characters as its width says, or as its prefix and digits need. */
  lemma ExpandLength(d: Directive, cnt: nat)
    requires Expand(d, cnt).Some?
    ensures var sh := ShapeOf(d).value;
            |Expand(d, cnt).value| == Max(d.w, |sh.prefix| + Max(sh.p, |sh.body|)) <= INT_MAX - cnt
  {
    var sh := ShapeOf(d).value;
    var p := Max(sh.p, |sh.body|);
    LayoutLength(d.fl.left, sh.zero, Max(d.w, |sh.prefix| + p), sh.prefix, p, sh.body);
  }

  // ---------------------------------------------------------------- the code: reading a directive

  /** What is left of an int after arithmetic that overflows. */
  function Wrap32(x: int): int {
    var m := x % 0x1_0000_0000;
    if m < 0x8000_0000 then m else m - 0x1_0000_0000
  }

  /** `getint`.  Once -1, it stays -1, because 10 times -1 wraps around. */
  method GetInt(fmt: string, s: nat) returns (i: int, j: nat)
    requires s <= |fmt|
    ensures j == RunEnd(fmt, s, IsDigit) && i == Decimal(fmt[s..j])
  {
    hide Decimal, Wrap32;
    i, j := 0, s;
    NoDigitsRead();
    assert fmt[s..s] == "";
    while IsDigit(At(fmt, j))
      invariant s <= j <= |fmt| && RunEnd(fmt, s, IsDigit) == RunEnd(fmt, j, IsDigit)
      invariant i == Decimal(fmt[s..j])
      decreases |fmt| - j
    {
      DecimalStep(fmt[s..j], fmt[j]);
      assert fmt[s..j + 1] == fmt[s..j] + [fmt[j]];
      var c := (fmt[j] - '0') as int;
      if i > INT_MAX / 10 || c > Wrap32(INT_MAX - 10 * i) {
        i := -1;
      } else {
        i := 10 * i + c;
      }
      j := j + 1;
    }
  }

  lemma NoDigitsRead()
    ensures Decimal("") == 0
  {}

  lemma DecimalStep(s: string, c: char)
    requires IsDigit(c)
    ensures Decimal(s + [c]) == (var i := Decimal(s); var d := (c - '0') as int;
              if i > INT_MAX / 10 || d > Wrap32(INT_MAX - 10 * i) then -1 else 10 * i + d)
  {
    hide Value;
    ValueAppend(s, c, 10);
    assert Wrap32(INT_MAX + 10) < 0;
  }

  lemma NoFlags()
    ensures AllFlags("") == Flags(false, false, false, false, false)
  {}

  lemma NulIsNoFlag()
    ensures !IsFlag('\0')
  {}

  lemma OneMoreFlag(fmt: string, s: nat, j: nat)
    requires s <= j < |fmt|
    ensures AllFlags(fmt[s..j + 1]) == WithFlag(AllFlags(fmt[s..j]), fmt[j])
  {
    hide WithFlag;
    assert fmt[s..j + 1][..j - s] == fmt[s..j] && fmt[s..j + 1][j - s] == fmt[j];
  }

  /** The loop that reads the flags. */
  method ScanFlags(fmt: string, s: nat) returns (fl: Flags, j: nat)
    requires s <= |fmt|
    ensures j == RunEnd(fmt, s, IsFlag) && fl == AllFlags(fmt[s..j])
  {
    hide AllFlags, WithFlag, IsFlag;
    NoFlags();
    fl, j := Flags(false, false, false, false, false), s;
    assert fmt[s..j] == "";
    while IsFlag(At(fmt, j))
      invariant s <= j <= |fmt| && RunEnd(fmt, s, IsFlag) == RunEnd(fmt, j, IsFlag)
      invariant fl == AllFlags(fmt[s..j])
      decreases |fmt| - j
    {
      NulIsNoFlag();
      OneMoreFlag(fmt, s, j);
      fl := WithFlag(fl, fmt[j]);
      j := j + 1;
    }
  }

  /** The loop over the state table: None stands for `goto inval`. */
  method ScanKind(fmt: string, s: nat) returns (r: Option<(ArgType, nat)>)
    requires s <= |fmt|
    ensures r == Kind(fmt, s, BARE)
  {
    var i, st := s, BARE;
    while i < |fmt|
      invariant s <= i <= |fmt| && Kind(fmt, s, BARE) == Kind(fmt, i, st)
    {
      match Row(st, fmt[i])
      case Bad => return None;
      case Stop(kind) => return Some((kind, i + 1));
      case Prefix(next) => i, st := i + 1, next;
    }
    return None;
  }

  /** Field width and precision share this shape. */
  method ScanNumber(fmt: string, i: nat, args: seq<Arg>, k: nat) returns (r: Number)
    requires i <= |fmt|
    ensures r == ReadNumber(fmt, i, args, k)
  {
    if At(fmt, i) == '*' {
      if IsDigit(At(fmt, i + 1)) && At(fmt, i + 2) == '$' { return Missing; }
      if k >= |args| || !args[k].Num? { return Missing; }
      return Given(Int32(args[k].value), i + 1, k + 1);
    }
    var w, j := GetInt(fmt, i);
    if w < 0 { return TooLarge; }
    return Given(w, j, k);
  }

  /** Everything of a directive that comes before its conversion. */
  method ScanDirective(fmt: string, s: nat, args: seq<Arg>, k: nat) returns (r: Parsed)
    requires s < |fmt|
    ensures r == Parse(fmt, s, args, k)
  {
    hide RunEnd, AllFlags, Decimal, Kind;
    if IsDigit(At(fmt, s + 1)) && At(fmt, s + 2) == '$' { return Outside; }
    var fl, i := ScanFlags(fmt, s + 1);
    var n := ScanNumber(fmt, i, args, k);
    if n.Missing? { return Outside; }
    if n.TooLarge? { return Invalid; }
    NumberIndex(fmt, i, args, k);
    var w := n.value;
    if w < 0 {
      fl, w := fl.(left := true), Negated(w);
    }
    r := ScanRest(fmt, n.next, args, n.used, fl, w);
  }

  method ScanRest(fmt: string, j: nat, args: seq<Arg>, k: nat, fl: Flags, w: int) returns (r: Parsed)
    requires j <= |fmt|
    ensures r == ParseRest(fmt, j, args, k, fl, w)
  {
    hide RunEnd, AllFlags, Kind;
    var i, k1, p, xp := j, k, -1, false;
    if At(fmt, j) == '.' {
      var n := ScanNumber(fmt, j + 1, args, k);
      match n
      case Missing => return Outside;
      case TooLarge => p, i := GetInt(fmt, j + 1); xp := true;
      case Given(value, next, used) =>
        p, i, k1 := value, next, used;
        xp := if At(fmt, j + 1) == '*' then value >= 0 else true;
    }
    PrecisionIndex(fmt, j, args, k);
    var kind := ScanKind(fmt, i);
    if kind.None? { return Invalid; }
    KindIndex(fmt, i, BARE);
    var t := fmt[kind.value.1 - 1];
    if t == 'n' || k1 >= |args| { return Outside; }
    if (kind.value.0 == PTR) == args[k1].Num? { return Outside; }
    var arg := if kind.value.0 == PTR then args[k1] else Num(Fetch(kind.value.0, args[k1].value));
    return Parsed(Directive(fl, w, p, xp, t, arg, kind.value.1, k1 + 1));
  }

  // ---------------------------------------------------------------- the code: converting

  /** The integer cases, with the digits written from the end of a 24-byte buffer. */
  method MakeInteger(d: Directive, v0: word, buf: array<char>) returns (r: Option<Shape>)
    requires buf.Length == 24
    modifies buf
    ensures r == IntegerShape(d, v0)
  {
    hide Numeral, Digits;
    var v, p, prefix, zero := v0, d.p, "", d.fl.zero && !d.fl.left;
    var a: nat;
    if d.t == 'o' {
      a := FmtO(v, buf, 24);
      if d.fl.alt && p < 24 - a + 1 {
        p := 24 - a + 1;
      }
    } else if d.t == 'x' || d.t == 'X' || d.t == 'p' {
      if d.t == 'p' {
        p := PointerPrecision(p);
      }
      a := FmtX(v, buf, 24, d.t != 'X');
      if v != 0 && (d.fl.alt || d.t == 'p') {
        prefix := if d.t == 'X' then "0X" else "0x";
      }
    } else {
      if d.t != 'u' {
        MagnitudeIsZero(d, v, Sign(d.fl, v), Numeral(Magnitude(v), 10, false), p);
        if v > 0x7fff_ffff_ffff_ffff {
          v, prefix := Neg(v), "-";
        } else if d.fl.plus {
          prefix := "+";
        } else if d.fl.blank {
          prefix := " ";
        }
      }
      a := FmtU(v, buf, 24);
    }
    if v == 0 { ZeroHasNoDigits(); }
    r := FinishInteger(d, v, prefix, buf[a..24], p, zero);
  }

  lemma MagnitudeIsZero(d: Directive, v: word, prefix: string, body: string, p: int)
    ensures Digits(d, v, prefix, body, p) == Digits(d, Magnitude(v), prefix, body, p)
  {}

  lemma ZeroHasNoDigits()
    ensures Numeral(0, 8, false) == "" && Numeral(0, 10, false) == "" && Numeral(0, 16, false) == ""
            && Numeral(0, 16, true) == ""
  {}

  method FinishInteger(d: Directive, v: word, prefix: string, digits: string, p0: int, zero0: bool)
    returns (r: Option<Shape>)
    requires zero0 == (d.fl.zero && !d.fl.left) && (v == 0 ==> digits == "")
    ensures r == Digits(d, v, prefix, digits, p0)
  {
    var p, zero := p0, zero0;
    if d.xp && p < 0 { return None; }
    if d.xp { zero := false; }
    if v == 0 && p == 0 {
      return Some(Shape(prefix, "", 0, zero));
    }
    p := Max(p, |digits| + if v == 0 then 1 else 0);
    return Some(Shape(prefix, digits, p, zero));
  }

  method MakeShape(d: Directive, buf: array<char>) returns (r: Option<Shape>)
    requires buf.Length == 24
    modifies buf
    ensures r == ShapeOf(d)
  {
    if d.t == 'c' {
      if !d.arg.Num? { return None; }
      return Some(Shape("", [(d.arg.value % 0x100) as char], 1, false));
    }
    if d.t == 's' {
      var a := if d.arg.Text? then d.arg.chars else "(null)";
      var z := StrNLen(a, if d.p < 0 then INT_MAX else d.p);
      if d.p < 0 && z < |a| { return None; }
      assert z == |a| ==> a[..z] == a;
      return Some(Shape("", a[..z], z, false));
    }
    if !d.arg.Num? { return None; }
    r := MakeInteger(d, d.arg.value, buf);
  }

  /** `strnlen` (lib/string.c) */
  method StrNLen(s: string, max: nat) returns (i: nat)
    ensures i == Min(max, |s|)
  {
    i := 0;
    while i < max && i < |s|
      invariant i <= max && i <= |s|
    {
      i := i + 1;
    }
  }

  /** From the switch over the conversion to the end of the loop body: -1 stands for overflow. */
  method Convert(f: Sink, d: Directive, cnt: nat) returns (l: int)
    requires f.Valid() && cnt <= INT_MAX
    modifies f`offset, f`full, f.str
    ensures f.Valid()
    ensures match Expand(d, cnt)
            case None => l == -1 && f.full == old(f.full)
            case Some(t) => l == |t| && f.full == old(f.full) + t
    ensures old(f.offset) <= f.offset && forall k :: f.offset <= k < f.str.Length ==> f.str[k] == old(f.str[k])
  {
    hide ShapeOf, Layout, Sink.Valid, Sink.Kept;
    var buf := new char[24];
    var sh := MakeShape(d, buf);
    if sh.None? { return -1; }
    var Shape(prefix, body, p, zero) := sh.value;
    if p < |body| { p := |body|; }
    if p > INT_MAX - |prefix| { return -1; }
    var w := d.w;
    if w < |prefix| + p { w := |prefix| + p; }
    if w > INT_MAX - cnt { return -1; }
    ZeroOrLeft(d);
    ExpandLength(d, cnt);
    Emit(f, d.fl.left, zero, w, prefix, p, body);
    SamePrecision(d.fl.left, zero, w, prefix, sh.value.p, p, body);
    l := w;
  }

  /** The flags `-` and `0` are never both in force. */
  lemma ZeroOrLeft(d: Directive)
    requires ShapeOf(d).Some?
    ensures !(d.fl.left && ShapeOf(d).value.zero)
  {
    hide Numeral;
  }

  lemma SamePrecision(left: bool, zero: bool, w: int, prefix: string, p: int, q: int, body: string)
    requires q == Max(p, |body|)
    ensures Layout(left, zero, w, prefix, q, body) == Layout(left, zero, w, prefix, p, body)
  {}

  // ---------------------------------------------------------------- the code: the main loop

  /** The two loops over literal text: characters up to a percent sign, then pairs of percent signs. */
  method ScanLiteral(fmt: string, a: nat) returns (s: nat, z: nat)
    requires a <= |fmt|
    ensures a <= z <= |fmt| && fmt[a..z] == Literal(fmt, a) && s == AfterLiteral(fmt, a)
  {
    s := a;
    while s < |fmt| && fmt[s] != '%'
      invariant a <= s <= |fmt| && RunEnd(fmt, a, NotPercent) == RunEnd(fmt, s, NotPercent)
    {
      s := s + 1;
    }
    ghost var e := s;
    z := s;
    while At(fmt, s) == '%' && At(fmt, s + 1) == '%'
      invariant e <= z <= s <= |fmt| && s - e == 2 * (z - e)
      invariant Percents(fmt, e) == z - e + Percents(fmt, s)
      invariant forall k :: e <= k < s ==> fmt[k] == '%'
      decreases |fmt| - s
    {
      z, s := z + 1, s + 2;
    }
    AllPercents(fmt, a, e, z);
  }

  lemma AllPercents(fmt: string, a: nat, e: nat, z: nat)
    requires a <= e <= z <= |fmt| && forall k :: e <= k < z ==> fmt[k] == '%'
    ensures fmt[a..z] == fmt[a..e] + Repeat('%', z - e)
  {}

  /** The result of `printf_core`: a count, -1, or nothing that this model says. */
  datatype Outcome = Count(n: nat) | Negative | Unspecified

  /** `printf_core` with a file to write to. */
  method PrintfCore(f: Sink, fmt: string, args: seq<Arg>) returns (r: Outcome)
    requires f.Valid() && f.full == "" && '\0' !in fmt
    modifies f`offset, f`full, f.str
    ensures f.Valid() && f.full == Render(fmt, 0, args, 0, 0).text
    ensures match Render(fmt, 0, args, 0, 0).end
            case Complete => r == Count(|f.full|)
            case Fails => r == Negative
            case Beyond => r == Unspecified
    ensures forall k :: f.offset <= k < f.str.Length ==> f.str[k] == old(f.str[k])
  {
    hide TurnAt, Sink.Valid, Sink.Kept;
    var s: nat, k: nat, cnt: nat := 0, 0, 0;
    while s < |fmt|
      invariant s <= |fmt| && cnt == |f.full| <= INT_MAX && f.Valid()
      invariant Render(fmt, 0, args, 0, 0) == Prepend(f.full, Render(fmt, s, args, k, cnt))
      invariant old(f.offset) <= f.offset && forall k :: f.offset <= k < f.str.Length ==> f.str[k] == old(f.str[k])
      decreases |fmt| - s
    {
      ghost var before := f.full;
      if TurnAt(fmt, s, args, k, cnt).Goes? { TurnAdvances(fmt, s, args, k, cnt); }
      var end, l, next, used := OneTurn(f, fmt, s, args, k, cnt);
      if end.Some? {
        return if end.value == Fails then Negative else Unspecified;
      }
      s, k := next, used;
      PrependTwice(before, f.full, Render(fmt, s, args, k, cnt + l));
      cnt := cnt + l;
    }
    return Count(cnt);
  }

  /** One turn of the main loop: literal text if there is any, or else a directive. */
  method OneTurn(f: Sink, fmt: string, s: nat, args: seq<Arg>, k: nat, cnt: nat)
    returns (end: Option<End>, l: nat, next: nat, used: nat)
    requires f.Valid() && s < |fmt| && cnt <= INT_MAX && '\0' !in fmt
    modifies f`offset, f`full, f.str
    ensures f.Valid() && end != Some(Complete)
    ensures match TurnAt(fmt, s, args, k, cnt)
            case Ends(e) => end == Some(e) && f.full == old(f.full)
            case Goes(text, n, u) => end == None && (l, next, used) == (|text|, n, u) && f.full == old(f.full) + text
    ensures old(f.offset) <= f.offset && forall k :: f.offset <= k < f.str.Length ==> f.str[k] == old(f.str[k])
  {
    hide Expand, Parse, Literal, AfterLiteral, Sink.Valid, Sink.Kept;
    var s', z := ScanLiteral(fmt, s);
    if z - s > INT_MAX - cnt {
      return Some(Fails), 0, s, k;
    }
    if z > s {
      f.Write(fmt[s..z]);
      return None, z - s, s', k;
    }
    var d := ScanDirective(fmt, s, args, k);
    if d.Invalid? {
      return Some(Fails), 0, s, k;
    }
    if d.Outside? {
      return Some(Beyond), 0, s, k;
    }
    var n := Convert(f, d.d, cnt);
    if n < 0 {
      return Some(Fails), 0, s, k;
    }
    return None, n, d.d.next, d.d.used;
  }

  lemma PrependTwice(a: string, b: string, r: Rendering)
    requires |a| <= |b| && a == b[..|a|]
    ensures Prepend(a, Prepend(b[|a|..], r)) == Prepend(b, r)
  {
    assert a + (b[|a|..] + r.text) == b + r.text;
  }

  // ---------------------------------------------------------------- vsnprintf

  /** What the pass without a file sees of the arguments: each `*` gives 0, and nothing is fetched. */
  function NoArgs(): seq<Arg> { [Num(0), Num(0), Num(0)] }

  /** The pass without a file fails: it goes through literal text up to the first directive. */
  function FirstPassFails(fmt: string, s: nat, cnt: nat): bool
    requires s <= |fmt|
    decreases |fmt| - s
  {
    if s == |fmt| then false
    else if |Literal(fmt, s)| > INT_MAX - cnt then true
    else if |Literal(fmt, s)| > 0 then
      LiteralAdvances(fmt, s);
      FirstPassFails(fmt, AfterLiteral(fmt, s), cnt + |Literal(fmt, s)|)
    else Parse(fmt, s, NoArgs(), 0).Invalid?
  }

  /** A directive that is malformed is malformed whatever the arguments. */
  lemma InvalidAnyway(fmt: string, s: nat, args: seq<Arg>, k: nat)
    requires s < |fmt| && Parse(fmt, s, NoArgs(), 0).Invalid?
    ensures !Parse(fmt, s, args, k).Parsed?
  {
    hide RunEnd, AllFlags, Kind, Decimal;
    var i := RunEnd(fmt, s + 1, IsFlag);
    var a, b := ReadNumber(fmt, i, NoArgs(), 0), ReadNumber(fmt, i, args, k);
    if a.Given? && b.Given? {
      NumberIndex(fmt, i, args, k);
      SamePlace(fmt, i, args, k);
      InvalidRest(fmt, a.next, args, a.used, b.used);
    }
  }

  lemma SamePlace(fmt: string, i: nat, args: seq<Arg>, k: nat)
    requires i <= |fmt| && ReadNumber(fmt, i, args, k).Given?
    ensures ReadNumber(fmt, i, NoArgs(), 0).Given?
            && ReadNumber(fmt, i, NoArgs(), 0).next == ReadNumber(fmt, i, args, k).next
    ensures ReadNumber(fmt, i, NoArgs(), 0).used <= 1
  {}

  lemma InvalidRest(fmt: string, j: nat, args: seq<Arg>, a: nat, k: nat)
    requires j <= |fmt| && a <= 1
    ensures forall fl, w, fl', w' :: ParseRest(fmt, j, NoArgs(), a, fl, w).Invalid? ==>
              !ParseRest(fmt, j, args, k, fl', w').Parsed?
  {
    hide RunEnd, AllFlags, Kind;
    forall fl, w, fl', w' | ParseRest(fmt, j, NoArgs(), a, fl, w).Invalid?
      ensures !ParseRest(fmt, j, args, k, fl', w').Parsed?
    {
      if ReadPrecision(fmt, j, NoArgs(), a).0.Given? {
        PrecisionIndex(fmt, j, NoArgs(), a);
      }
    }
  }

  /** The first pass fails only on formats that the second cannot complete. */
  lemma {:induction false} FirstPassIsRight(fmt: string, s: nat, args: seq<Arg>, k: nat, cnt: nat)
    requires s <= |fmt| && FirstPassFails(fmt, s, cnt)
    ensures !Render(fmt, s, args, k, cnt).end.Complete?
    decreases |fmt| - s
  {
    hide Literal, AfterLiteral, Parse, Expand;
    var lit := Literal(fmt, s);
    if |lit| > INT_MAX - cnt {
    } else if |lit| > 0 {
      LiteralAdvances(fmt, s);
      TurnAdvances(fmt, s, args, k, cnt);
      FirstPassIsRight(fmt, AfterLiteral(fmt, s), args, k, cnt + |lit|);
    } else {
      InvalidAnyway(fmt, s, args, k);
    }
  }

  /** `printf_core` without a file. */
  method FirstPass(fmt: string) returns (failed: bool)
    requires '\0' !in fmt
    ensures failed == FirstPassFails(fmt, 0, 0)
  {
    hide Literal, AfterLiteral, Parse;
    var s: nat, cnt: nat := 0, 0;
    while s < |fmt|
      invariant s <= |fmt| && cnt <= INT_MAX && FirstPassFails(fmt, 0, 0) == FirstPassFails(fmt, s, cnt)
      decreases |fmt| - s
    {
      var next, z := ScanLiteral(fmt, s);
      if z - s > INT_MAX - cnt { return true; }
      if z > s {
        LiteralAdvances(fmt, s);
        s, cnt := next, cnt + (z - s);
      } else {
        var d := ScanDirective(fmt, s, NoArgs(), 0);
        return d.Invalid?;
      }
    }
    return false;
  }

  /** What the buffer holds afterwards: the beginning of the output, cut off to leave room for a NUL;
      nothing is written behind the NUL. */
  ghost predicate Truncated(before: seq<char>, after: seq<char>, size: nat, text: string) {
    |before| == |after| && size <= |after| &&
    if size == 0 then after == before
    else
      var n := Min(|text|, size - 1);
      after[..n] == text[..n] && after[n] == '\0' && after[n + 1..] == before[n + 1..]
  }

  /** `vsnprintf`: for a format that completes, the length of the full output and a buffer that holds
      as much of it as fits; a negative result for one that does not. */
  method Vsnprintf(str: array<char>, size: nat, fmt: string, args: seq<Arg>) returns (r: Outcome)
    requires size <= str.Length && '\0' !in fmt
    modifies str
    ensures var out := Render(fmt, 0, args, 0, 0);
      match out.end
      case Complete => r == Count(|out.text|) && Truncated(old(str[..]), str[..], size, out.text)
      case Fails => r == Negative
      case Beyond => r == Unspecified || r == Negative
    ensures FirstPassFails(fmt, 0, 0) ==> r == Negative && str[..] == old(str[..])
    ensures !FirstPassFails(fmt, 0, 0) ==> Truncated(old(str[..]), str[..], size, Render(fmt, 0, args, 0, 0).text)
  {
    hide Render, FirstPassFails, Sink.Valid, Sink.Kept, Truncated, KeptIs;
    var failed := FirstPass(fmt);
    if failed {
      FirstPassIsRight(fmt, 0, args, 0, 0);
      return Negative;
    }
    var f := new Sink(str, size);
    r := PrintfCore(f, fmt, args);
    SinkFacts(f, old(str[..]));
    if f.offset < size {
      str[f.offset] := '\0';
    } else if size > 0 {
      str[size - 1] := '\0';
    }
    KeptBelow(size, f.full, f.offset);
  }

  /** The sink's offset is the length of what it has kept. */
  ghost predicate KeptIs(size: nat, text: string, offset: nat) {
    offset == if size == 0 then 0 else Min(|text|, size - 1)
  }

  lemma KeptBelow(size: nat, text: string, offset: nat)
    requires KeptIs(size, text, offset)
    ensures size > 0 ==> offset < size
  {}

  lemma SinkFacts(f: Sink, before: seq<char>)
    requires f.Valid() && |before| == f.str.Length
    requires forall k :: f.offset <= k < f.str.Length ==> f.str[k] == before[k]
    ensures KeptIs(f.size, f.full, f.offset)
    ensures f.size == 0 ==> Truncated(before, f.str[..], f.size, f.full)
    ensures f.offset < f.size ==>
              f.offset < f.str.Length && Truncated(before, f.str[..][f.offset := '\0'], f.size, f.full)
  {
    if f.offset < f.size {
      var after := f.str[..][f.offset := '\0'];
      assert after[..f.offset] == f.str[..f.offset];
      assert after[f.offset + 1..] == before[f.offset + 1..];
    }
  }

  // ---------------------------------------------------------------- "%d"

  /** An int in decimal: a minus sign if it is negative, and digits without leading zeros. */
  function IntText(n: int): string {
    if n == 0 then "0" else if n < 0 then "-" + Numeral(-n, 10, false) else Numeral(n, 10, false)
  }

  /** Printing an int with "%d" gives its decimal text. */
  lemma PrintInt(v: word)
    ensures Render("%d", 0, [Num(v)], 0, 0) == Rendering(Complete, IntText(Int32(v)))
  {
    var none := Flags(false, false, false, false, false);
    var d := Directive(none, 0, -1, false, 'd', Num(SextW(v)), 2, 1);
    PlainD(v);
    ExpandD(d, v);
    IntTextFits(Int32(v));
    hide Parse, Expand, IntText;
    assert Render("%d", 2, [Num(v)], 1, |IntText(Int32(v))|) == Rendering(Complete, "");
  }

  lemma PlainD(v: word)
    ensures Literal("%d", 0) == ""
    ensures Parse("%d", 0, [Num(v)], 0)
         == Parsed(Directive(Flags(false, false, false, false, false), 0, -1, false, 'd', Num(SextW(v)), 2, 1))
  {
    assert RunEnd("%d", 0, NotPercent) == 0 && RunEnd("%d", 1, IsFlag) == 1 && RunEnd("%d", 1, IsDigit) == 1;
    assert AllFlags("") == Flags(false, false, false, false, false) && Decimal("") == 0;
    assert Kind("%d", 1, BARE) == Some((INT, 2));
  }

  lemma IntTextFits(n: int)
    requires -0x8000_0000 <= n < 0x8000_0000
    ensures 0 < |IntText(n)| <= 21
  {
    WordFits(if n < 0 then -n else n, 10, false);
    NumeralShape(if n < 0 then -n else n, 10, false);
  }

  lemma ExpandD(d: Directive, v: word)
    requires d == Directive(Flags(false, false, false, false, false), 0, -1, false, 'd', Num(SextW(v)), 2, 1)
    ensures Expand(d, 0) == Some(IntText(Int32(v)))
  {
    hide Numeral, Layout, Repeat, Sign, Magnitude, SextW;
    SignOfInt(v);
    ZeroHasNoDigits();
    var n := Int32(v);
    var m, prefix: string := if n < 0 then -n else n, if n < 0 then "-" else "";
    var body := Numeral(m, 10, false);
    var p := if m == 0 then 1 else |body|;
    WordFits(m, 10, false);
    if m > 0 { NumeralShape(m, 10, false); }
    assert ShapeOf(d) == Some(Shape(prefix, body, p, false));
    LayoutPlain(prefix, body, p);
    assert Expand(d, 0) == Some(prefix + (Repeat('0', p - |body|) + body));
    if m == 0 {
      assert Repeat('0', 1) + body == "0";
      assert prefix + "0" == "0";
    } else if n > 0 {
      assert prefix + body == body;
    }
  }

  lemma SignOfInt(v: word)
    ensures Sign(Flags(false, false, false, false, false), SextW(v)) == if Int32(v) < 0 then "-" else ""
    ensures Magnitude(SextW(v)) == if Int32(v) < 0 then -Int32(v) else Int32(v)
    ensures SextW(v) == 0 <==> Int32(v) == 0
  {}

  lemma LayoutPlain(prefix: string, body: string, p: int)
    requires p >= |body|
    ensures Layout(false, false, |prefix| + p, prefix, p, body) == prefix + (Repeat('0', p - |body|) + body)
    ensures Repeat('0', 0) + body == body && Repeat('0', 1) == "0"
  {}
}
