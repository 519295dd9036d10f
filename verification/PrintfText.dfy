/** What the formatter prints: directives, numbers and padding, as text. */
module PrintfText {

  type Word = x: nat | x < 0x1_0000_0000 witness 0

  const W: nat := 0x1_0000_0000
  const NUL: char := '\0'

  /** The size of the buffer in which a number is converted. */
  const ROOM: nat := 32

  datatype Flags = Flags(zero: bool, left: bool, plus: bool, space: bool, hash: bool, upper: bool,
                         char_: bool, short: bool, long: bool, longLong: bool, precision: bool)

  const NoFlags: Flags := Flags(false, false, false, false, false, false, false, false, false, false, false)

  /** An argument: a machine word, a double word, or a text. */
  datatype Arg = One(w: Word) | Two(d: nat) | Text(s: string)

  // ---------- Numbers ----------

  function DigitChar(d: nat, upper: bool): char
    requires d < 16
  {
    if d < 10 then '0' + d as char else (if upper then 'A' else 'a') + (d - 10) as char
  }

  /** The digits of a value, lowest first, at most room of them. */
  function DigitsRev(value: nat, base: nat, upper: bool, room: nat): (b: string)
    requires IsBase(base) && room > 0
    ensures 1 <= |b| <= room
    decreases value
  {
    [LowDigit(value, base, upper)] +
    if Higher(value, base) != 0 && room > 1 then DigitsRev(Higher(value, base), base, upper, room - 1) else []
  }

  /** The bases in use. The divisions are written out base by base, so that
      every divisor is a constant. */
  predicate IsBase(base: nat) { base == 2 || base == 8 || base == 10 || base == 16 }

  function Low(value: nat, base: nat): (d: nat)
    ensures d < 16
  {
    if base == 2 then value % 2 else if base == 8 then value % 8 else if base == 10 then value % 10 else value % 16
  }

  function Higher(value: nat, base: nat): nat {
    if base == 2 then value / 2 else if base == 8 then value / 8 else if base == 10 then value / 10 else value / 16
  }

  function LowDigit(value: nat, base: nat, upper: bool): char { DigitChar(Low(value, base), upper) }

  lemma DigitsStep(value: nat, base: nat, upper: bool, room: nat)
    requires IsBase(base) && room > 0
    ensures DigitsRev(value, base, upper, room) ==
            [LowDigit(value, base, upper)] +
            if Higher(value, base) != 0 && room > 1 then DigitsRev(Higher(value, base), base, upper, room - 1) else []
  {
  }

  function Repeat(c: char, n: int): (s: string)
    ensures |s| == if n < 0 then 0 else n
    ensures forall i :: 0 <= i < |s| ==> s[i] == c
    decreases if n < 0 then 0 else n
  {
    if n <= 0 then "" else Repeat(c, n - 1) + [c]
  }

  function Reversed(b: string): (r: string)
    ensures |r| == |b|
  {
    if b == "" then "" else Reversed(b[1..]) + [b[0]]
  }

  function Least(a: int, b: int): int { if a < b then a else b }

  /** Zeros up to n characters, as far as there is room. */
  function ZerosTo(b: string, n: nat): (r: string)
    requires |b| <= ROOM
    ensures |b| <= |r| <= ROOM
  {
    b + Repeat('0', Least(n, ROOM) - |b|)
  }

  function Pushed(b: string, c: char): (r: string)
    requires |b| <= ROOM
    ensures |r| <= ROOM
  {
    if |b| < ROOM then b + [c] else b
  }

  /** The width that zeros are to fill: a sign needs one place of it. */
  function ZeroWidth(negative: bool, width: nat, fl: Flags): nat {
    if !fl.left && width > 0 && fl.zero && (negative || fl.plus || fl.space) then width - 1 else width
  }

  function ZeroPadded(b: string, prec: nat, width: nat, fl: Flags): (r: string)
    requires |b| <= ROOM
    ensures |r| <= ROOM
  {
    if fl.left then b else if fl.zero then ZerosTo(ZerosTo(b, prec), width) else ZerosTo(b, prec)
  }

  /** The '#' prefix takes the place of leading zeros if the width or the
      precision is used up. */
  function Hashed(b: string, base: nat, prec: nat, width: nat, fl: Flags): (r: string)
    requires |b| <= ROOM
    ensures |r| <= ROOM
  {
    if !fl.hash then b
    else
      var full := !fl.precision && |b| > 0 && (|b| == prec || |b| == width);
      var b1 := if full then b[..|b| - 1] else b;
      var b2 := if full && |b1| > 0 && base == 16 then b1[..|b1| - 1] else b1;
      Prefixed(b2, base, fl)
  }

  function Prefixed(b: string, base: nat, fl: Flags): (r: string)
    requires |b| <= ROOM
    ensures |r| <= ROOM
  {
    var b' := if base == 16 then Pushed(b, if fl.upper then 'X' else 'x') else if base == 2 then Pushed(b, 'b') else b;
    Pushed(b', '0')
  }

  function Signed(b: string, negative: bool, fl: Flags): (r: string)
    requires |b| <= ROOM
    ensures |r| <= ROOM
  {
    if negative then Pushed(b, '-') else if fl.plus then Pushed(b, '+') else if fl.space then Pushed(b, ' ') else b
  }

  /** A converted text in its field. */
  function InField(b: string, width: nat, fl: Flags): string {
    (if !fl.left && !fl.zero then Repeat(' ', width - |b|) else "") + Reversed(b) +
    if fl.left then Repeat(' ', width - |b|) else ""
  }

  /** Digits with zeros, prefix and sign, in their field. */
  function FieldText(digits: string, negative: bool, base: nat, prec: nat, width: nat, fl: Flags): string
    requires |digits| <= ROOM
  {
    var w := ZeroWidth(negative, width, fl);
    InField(Signed(Hashed(ZeroPadded(digits, prec, w, fl), base, prec, w, fl), negative, fl), w, fl)
  }

  /** A zero gets no prefix, and no digits if the precision is given. */
  function NumberDigits(value: nat, base: nat, fl: Flags): (b: string)
    requires IsBase(base)
    ensures |b| <= ROOM
  {
    if fl.precision && value == 0 then "" else DigitsRev(value, base, fl.upper, ROOM)
  }

  function ValueFlags(value: nat, fl: Flags): Flags { if value == 0 then fl.(hash := false) else fl }

  /** A number in its field. */
  function NumberText(value: nat, negative: bool, base: nat, prec: nat, width: nat, fl: Flags): string
    requires IsBase(base)
  {
    FieldText(NumberDigits(value, base, fl), negative, base, prec, width, ValueFlags(value, fl))
  }

  // ---------- Arguments ----------

  function WordArg(args: seq<Arg>, k: nat): Word { if k < |args| && args[k].One? then args[k].w else 0 }

  function LongArg(args: seq<Arg>, k: nat): nat { if k < |args| && args[k].Two? then args[k].d % (W * W) else 0 }

  function TextArg(args: seq<Arg>, k: nat): string { if k < |args| && args[k].Text? then args[k].s else "" }

  /** x as a two's complement number of the given size. */
  function AsSigned(x: nat, size: nat): int
    requires size > 0 && size % 2 == 0
  {
    if x % size < size / 2 then x % size else x % size - size
  }

  /** Texts end at their first zero, and hold none. */
  predicate TextsEnd(args: seq<Arg>) { forall k :: 0 <= k < |args| && args[k].Text? ==> NUL !in args[k].s }

  // ---------- Directives ----------

  function FlagsFrom(fmt: string, i: nat, fl: Flags): (r: (Flags, nat))
    requires i <= |fmt|
    ensures i <= r.1 <= |fmt|
    decreases |fmt| - i
  {
    if i == |fmt| then (fl, i)
    else if fmt[i] == '0' then FlagsFrom(fmt, i + 1, fl.(zero := true))
    else if fmt[i] == '-' then FlagsFrom(fmt, i + 1, fl.(left := true))
    else if fmt[i] == '+' then FlagsFrom(fmt, i + 1, fl.(plus := true))
    else if fmt[i] == ' ' then FlagsFrom(fmt, i + 1, fl.(space := true))
    else if fmt[i] == '#' then FlagsFrom(fmt, i + 1, fl.(hash := true))
    else (fl, i)
  }

  predicate IsDigit(c: char) { '0' <= c <= '9' }

  predicate DigitAt(fmt: string, i: nat) { i < |fmt| && IsDigit(fmt[i]) }

  predicate CharAt(fmt: string, i: nat, c: char) { i < |fmt| && fmt[i] == c }

  /** A decimal number, in 32-bit arithmetic. */
  function NumberFrom(fmt: string, i: nat, n: Word): (r: (Word, nat))
    requires i <= |fmt|
    ensures i <= r.1 <= |fmt|
    decreases |fmt| - i
  {
    if DigitAt(fmt, i) then NumberFrom(fmt, i + 1, (n * 10 + (fmt[i] - '0') as nat) % W) else (n, i)
  }

  /** The state of reading a directive: its parts so far, the place in the
      format, and the number of arguments used. */
  datatype Parsed = Parsed(fl: Flags, width: Word, prec: Word, i: nat, k: nat)

  function WidthFrom(fmt: string, p: Parsed, args: seq<Arg>): (r: Parsed)
    requires p.i <= |fmt|
    ensures p.i <= r.i <= |fmt|
  {
    if DigitAt(fmt, p.i) then var (n, i) := NumberFrom(fmt, p.i, 0); p.(width := n, i := i)
    else if CharAt(fmt, p.i, '*') then
      var w := AsSigned(WordArg(args, p.k), W);
      if w < 0 then p.(fl := p.fl.(left := true), width := -w, i := p.i + 1, k := p.k + 1)
      else p.(width := w, i := p.i + 1, k := p.k + 1)
    else p
  }

  function PrecisionFrom(fmt: string, p: Parsed, args: seq<Arg>): (r: Parsed)
    requires p.i <= |fmt|
    ensures p.i <= r.i <= |fmt|
  {
    if !CharAt(fmt, p.i, '.') then p
    else
      var q := p.(fl := p.fl.(precision := true), i := p.i + 1);
      if DigitAt(fmt, q.i) then var (n, i) := NumberFrom(fmt, q.i, 0); q.(prec := n, i := i)
      else if CharAt(fmt, q.i, '*') then
        var w := AsSigned(WordArg(args, q.k), W);
        q.(prec := if w > 0 then w else 0, i := q.i + 1, k := q.k + 1)
      else q
  }

  /** On the 32-bit target ptrdiff_t and size_t have the size of a long, intmax_t that of two. */
  function LengthFrom(fmt: string, p: Parsed): (r: Parsed)
    requires p.i <= |fmt|
    ensures p.i <= r.i <= |fmt|
  {
    if CharAt(fmt, p.i, 'l') then
      if CharAt(fmt, p.i + 1, 'l') then p.(fl := p.fl.(long := true, longLong := true), i := p.i + 2)
      else p.(fl := p.fl.(long := true), i := p.i + 1)
    else if CharAt(fmt, p.i, 'h') then
      if CharAt(fmt, p.i + 1, 'h') then p.(fl := p.fl.(short := true, char_ := true), i := p.i + 2)
      else p.(fl := p.fl.(short := true), i := p.i + 1)
    else if CharAt(fmt, p.i, 't') || CharAt(fmt, p.i, 'z') then p.(fl := p.fl.(long := true), i := p.i + 1)
    else if CharAt(fmt, p.i, 'j') then p.(fl := p.fl.(longLong := true), i := p.i + 1)
    else p
  }

  /** A directive, from behind its percent sign up to its last character. */
  function Directive(fmt: string, i: nat, args: seq<Arg>, k: nat): (p: Parsed)
    requires i <= |fmt|
    ensures i <= p.i <= |fmt|
  {
    var (fl, j) := FlagsFrom(fmt, i, NoFlags);
    LengthFrom(fmt, PrecisionFrom(fmt, WidthFrom(fmt, Parsed(fl, 0, 0, j, k), args), args))
  }

  predicate IsNumber(c: char) { c == 'd' || c == 'i' || c == 'u' || c == 'x' || c == 'X' || c == 'o' || c == 'b' }

  function BaseOf(c: char): (b: nat)
    ensures IsBase(b)
  {
    if c == 'x' || c == 'X' then 16 else if c == 'o' then 8 else if c == 'b' then 2 else 10
  }

  /** The flags that count for a number conversion. */
  function NumberFlags(c: char, fl: Flags): Flags {
    var f1 := if BaseOf(c) == 10 then fl.(hash := false) else fl;
    var f2 := if c == 'X' then f1.(upper := true) else f1;
    var f3 := if c != 'i' && c != 'd' then f2.(plus := false, space := false) else f2;
    if f3.precision then f3.(zero := false) else f3
  }

  /** The argument of a number conversion. */
  function NumberArg(c: char, fl: Flags, args: seq<Arg>, k: nat): int {
    if c == 'i' || c == 'd' then
      if fl.longLong then AsSigned(LongArg(args, k), W * W)
      else if fl.long then AsSigned(WordArg(args, k), W)
      else if fl.char_ then AsSigned(WordArg(args, k), 0x100)
      else if fl.short then AsSigned(WordArg(args, k), 0x1_0000)
      else AsSigned(WordArg(args, k), W)
    else if fl.longLong then LongArg(args, k)
    else if fl.long then WordArg(args, k)
    else if fl.char_ then WordArg(args, k) % 0x100
    else if fl.short then WordArg(args, k) % 0x1_0000
    else WordArg(args, k)
  }

  function Magnitude(x: int): nat { if x > 0 then x else -x }

  /** The part of a text that is printed. */
  function Cut(s: string, prec: nat, fl: Flags): string { if fl.precision && prec < |s| then s[..prec] else s }

  function Padded(t: string, width: nat, fl: Flags): string {
    if fl.left then t + Repeat(' ', width - |t|) else Repeat(' ', width - |t|) + t
  }

  /** What a directive with last character c prints. */
  function Converted(c: char, p: Parsed, args: seq<Arg>): string {
    if IsNumber(c) then
      var fl := NumberFlags(c, p.fl);
      var x := NumberArg(c, fl, args, p.k);
      NumberText(Magnitude(x), x < 0, BaseOf(c), p.prec, p.width, fl)
    else if c == 'c' then Padded([(WordArg(args, p.k) % 0x100) as char], p.width, p.fl)
    else if c == 's' then Padded(Cut(TextArg(args, p.k), p.prec, p.fl), p.width, p.fl)
    else if c == 'p' then NumberText(WordArg(args, p.k), false, 16, p.prec, 8, p.fl.(zero := true, upper := true))
    else [c]
  }

  function Consumed(c: char, k: nat): nat { if IsNumber(c) || c == 'c' || c == 's' || c == 'p' then k + 1 else k }

  /** Every directive of the format has its last character. */
  predicate Complete(fmt: string, i: nat, args: seq<Arg>, k: nat)
    requires i <= |fmt|
    decreases |fmt| - i
  {
    i < |fmt| ==>
      if fmt[i] != '%' then Complete(fmt, i + 1, args, k)
      else
        var p := Directive(fmt, i + 1, args, k);
        p.i < |fmt| && Complete(fmt, p.i + 1, args, Consumed(fmt[p.i], p.k))
  }

  /** The whole output of a format from position i on. */
  function Formatted(fmt: string, i: nat, args: seq<Arg>, k: nat): string
    requires i <= |fmt| && Complete(fmt, i, args, k)
    decreases |fmt| - i
  {
    if i == |fmt| then ""
    else if fmt[i] != '%' then [fmt[i]] + Formatted(fmt, i + 1, args, k)
    else
      var p := Directive(fmt, i + 1, args, k);
      Converted(fmt[p.i], p, args) + Formatted(fmt, p.i + 1, args, Consumed(fmt[p.i], p.k))
  }

  /** The next piece of the output, and where the format goes on. */
  function Piece(fmt: string, i: nat, args: seq<Arg>, k: nat): (string, nat, nat)
    requires i < |fmt| && Complete(fmt, i, args, k)
  {
    if fmt[i] != '%' then ([fmt[i]], i + 1, k)
    else var p := Directive(fmt, i + 1, args, k); (Converted(fmt[p.i], p, args), p.i + 1, Consumed(fmt[p.i], p.k))
  }

  lemma PieceIsNext(fmt: string, i: nat, args: seq<Arg>, k: nat)
    requires i < |fmt| && Complete(fmt, i, args, k)
    ensures var (text, j, l) := Piece(fmt, i, args, k);
      i < j <= |fmt| && Complete(fmt, j, args, l) && Formatted(fmt, i, args, k) == text + Formatted(fmt, j, args, l)
  {
  }
}
