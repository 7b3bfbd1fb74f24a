/** The output side of `vsnprintf` (lib/vsnprintf.c): a buffer that truncates, and padding. */
module Output {
  function Min(a: int, b: int): int { if a < b then a else b }

  function Max(a: int, b: int): int { if a > b then a else b }

  /** `n` copies of a character. */
  function Repeat(c: char, n: int): string {
    if n <= 0 then "" else seq(n, _ => c)
  }

  lemma RepeatSplit(c: char, m: int, n: int)
    requires m >= 0 && n >= 0
    ensures Repeat(c, m) + Repeat(c, n) == Repeat(c, m + n)
  {}

  /** The FILE that `vsnprintf` writes to.  `full` is all that was ever written to it. */
  class Sink {
    const str: array<char>
    const size: nat
    var offset: nat
    ghost var full: string

    /** The buffer holds as much of the output as fits in front of a final NUL. */
    ghost predicate Valid()
      reads this, str
    {
      && size <= str.Length
      && offset == Kept()
      && str[..offset] == full[..offset]
    }

    ghost function Kept(): (k: nat)
      reads this
      ensures k <= |full| && k <= size
    {
      if size == 0 then 0 else Min(|full|, size - 1)
    }

    constructor (str: array<char>, size: nat)
      requires size <= str.Length
      ensures Valid() && full == "" && this.str == str && this.size == size
    {
      this.str, this.size, offset, full := str, size, 0, "";
    }

    /** `str_write` */
    method Write(s: string)
      requires Valid()
      modifies this`offset, this`full, str
      ensures Valid() && full == old(full) + s
      ensures old(offset) <= offset && forall k :: offset <= k < str.Length ==> str[k] == old(str[k])
    {
      ghost var f := full;
      full := full + s;
      if size == 0 { return; }
      var len := |s|;
      if offset + len >= size {
        len := size - offset - 1;
      }
      var start := offset;
      var i := 0;
      while i < len
        invariant 0 <= i <= len && offset == start + i && full == f + s
        invariant str[..offset] == full[..offset]
        invariant old(offset) <= offset && forall k :: offset <= k < str.Length ==> str[k] == old(str[k])
      {
        str[offset] := s[i];
        assert full[offset] == s[i];
        offset := offset + 1;
        i := i + 1;
      }
    }

    /** `pad`, in pieces of 256 characters. */
    method Pad(c: char, w: nat, l0: nat, off: bool)
      requires Valid()
      modifies this`offset, this`full, str
      ensures Valid() && full == old(full) + if off then "" else Repeat(c, w - l0)
      ensures old(offset) <= offset && forall k :: offset <= k < str.Length ==> str[k] == old(str[k])
    {
      if off || l0 >= w { return; }
      var l := w - l0;
      var pad := Repeat(c, if l > 256 then 256 else l);
      ghost var done: nat := 0;
      while l >= 256
        invariant Valid() && 0 <= l && done + l == w - l0 && full == old(full) + Repeat(c, done)
        invariant l >= 256 ==> pad == Repeat(c, 256)
        invariant l < 256 ==> |pad| >= l && pad[..l] == Repeat(c, l)
        invariant old(offset) <= offset && forall k :: offset <= k < str.Length ==> str[k] == old(str[k])
      {
        RepeatSplit(c, done, 256);
        Write(pad);
        l, done := l - 256, done + 256;
      }
      RepeatSplit(c, done, l);
      Write(pad[..l]);
    }
  }

  /** One conversion laid out in a field: at most one of the three pads shows. */
  function Layout(left: bool, zero: bool, w: int, prefix: string, p: int, body: string): string {
    var width := |prefix| + Max(p, |body|);
    var core := Repeat('0', p - |body|) + body;
    if left then prefix + core + Repeat(' ', w - width)
    else if zero then prefix + Repeat('0', w - width) + core
    else Repeat(' ', w - width) + prefix + core
  }

  /** A conversion takes exactly as many characters as its width asks for, or as its prefix and
      digits need if that is more. */
  lemma LayoutLength(left: bool, zero: bool, w: int, prefix: string, p: int, body: string)
    ensures |Layout(left, zero, w, prefix, p, body)| == Max(w, |prefix| + Max(p, |body|))
  {}

  /** The six writes that end a conversion.  `pad` shows nothing if the `-` or the `0` flag is set in
      what it is passed; each of the three calls for the field width flips a different one of them. */
  method Emit(f: Sink, left: bool, zero: bool, w: nat, prefix: string, p: nat, body: string)
    requires f.Valid() && p >= |body| && w >= |prefix| + p && !(left && zero)
    modifies f`offset, f`full, f.str
    ensures f.Valid() && f.full == old(f.full) + Layout(left, zero, w, prefix, p, body)
    ensures old(f.offset) <= f.offset && forall k :: f.offset <= k < f.str.Length ==> f.str[k] == old(f.str[k])
  {
    hide Layout, Repeat, Sink.Valid;
    Assemble(f.full, left, zero, w, prefix, p, body);
    f.Pad(' ', w, |prefix| + p, left || zero);
    f.Write(prefix);
    f.Pad('0', w, |prefix| + p, left || !zero);
    f.Pad('0', p, |body|, false);
    f.Write(body);
    f.Pad(' ', w, |prefix| + p, !left || zero);
  }

  lemma Assemble(start: string, left: bool, zero: bool, w: nat, prefix: string, p: nat, body: string)
    requires p >= |body| && w >= |prefix| + p && !(left && zero)
    ensures start + (if left || zero then "" else Repeat(' ', w - (|prefix| + p))) + prefix
            + (if left || !zero then "" else Repeat('0', w - (|prefix| + p)))
              + (if false then "" else Repeat('0', p - |body|)) + body
            + (if !left || zero then "" else Repeat(' ', w - (|prefix| + p)))
         == start + Layout(left, zero, w, prefix, p, body)
  {
    hide Repeat;
    var pad, zeros := Repeat(' ', w - (|prefix| + p)), Repeat('0', p - |body|);
    Associate(start, prefix, zeros, body, pad);
    Associate(start, prefix, Repeat('0', w - (|prefix| + p)), zeros, body);
  }

  lemma Associate(start: string, a: string, b: string, c: string, d: string)
    ensures start + "" + a + "" + b + c + d == start + (a + (b + c) + d)
    ensures start + "" + a + b + c + d + "" == start + (a + b + (c + d))
    ensures start + d + a + "" + b + c + "" == start + (d + a + (b + c))
  {}
}
