/** Formats as lists of texts and directives: how they are read, and what each
    directive prints. */
module PrintfFormat {
  import opened PrintfText
  import opened PrintfNumbers

  // ---------- Directives in writing ----------

  datatype WidthSpec = NoWidth | Given(s: string) | FromArg

  datatype PrecisionSpec = NoPrecision | Dot | Exactly(s: string) | PrecisionArg

  /** The length modifiers: none, hh, h, l, ll, j, z and t. */
  datatype Size = Int | Char | Short | Long | LongLong | Max | SizeT | Difference

  datatype Dir = Dir(flags: string, width: WidthSpec, precision: PrecisionSpec, size: Size, conv: char)

  function WidthSpecText(w: WidthSpec): string {
    match w
    case NoWidth => ""
    case Given(s) => s
    case FromArg => "*"
  }

  function PrecisionText(p: PrecisionSpec): string {
    match p
    case NoPrecision => ""
    case Dot => "."
    case Exactly(s) => "." + s
    case PrecisionArg => ".*"
  }

  function SizeText(s: Size): string {
    match s
    case Int => ""
    case Char => "hh"
    case Short => "h"
    case Long => "l"
    case LongLong => "ll"
    case Max => "j"
    case SizeT => "z"
    case Difference => "t"
  }

  function DirText(d: Dir): string {
    "%" + (d.flags + (WidthSpecText(d.width) + (PrecisionText(d.precision) + (SizeText(d.size) + [d.conv]))))
  }

  predicate IsFlag(c: char) { c == '0' || c == '-' || c == '+' || c == ' ' || c == '#' }

  /** The last character of a directive: one that cannot belong to the parts before. */
  predicate IsConv(c: char) {
    && !IsFlag(c) && !IsDigit(c) && c != '*' && c != '.'
    && c != 'l' && c != 'h' && c != 'j' && c != 'z' && c != 't'
  }

  ghost predicate Decimal(s: string) { s != "" && forall i :: 0 <= i < |s| ==> IsDigit(s[i]) }

  /** A directive in the form the code reads it; a zero in front of a width would be a flag. */
  ghost predicate WellWritten(d: Dir) {
    && (forall i :: 0 <= i < |d.flags| ==> IsFlag(d.flags[i]))
    && (d.width.Given? ==> Decimal(d.width.s) && d.width.s[0] != '0')
    && (d.precision.Exactly? ==> Decimal(d.precision.s)) && IsConv(d.conv)
  }

  // ---------- What is to be read ----------

  /** Argument k as a signed 32-bit number. */
  function IntArg(args: seq<Arg>, k: nat): int {
    if k >= |args| || !args[k].One? then 0
    else if args[k].w < 0x8000_0000 then args[k].w
    else args[k].w - 0x1_0000_0000
  }

  /** The width, and whether it was a negative argument. */
  function WidthOf(w: WidthSpec, args: seq<Arg>, k: nat): (r: (Word, bool)) {
    match w
    case NoWidth => (0, false)
    case Given(s) => (Value(s, 10) % 0x1_0000_0000, false)
    case FromArg => var x := IntArg(args, k); if x < 0 then (-x, true) else (x, false)
  }

  function PrecisionOf(p: PrecisionSpec, args: seq<Arg>, k: nat): Word {
    match p
    case NoPrecision => 0
    case Dot => 0
    case Exactly(s) => Value(s, 10) % 0x1_0000_0000
    case PrecisionArg => var x := IntArg(args, k); if x > 0 then x else 0
  }

  /** The first argument behind those that give width and precision. */
  function ArgIndex(d: Dir, k: nat): nat {
    k + (if d.width.FromArg? then 1 else 0) + (if d.precision.PrecisionArg? then 1 else 0)
  }

  /** The flags of d: those written, and '-' if the width was a negative argument. */
  ghost predicate FlagsAre(d: Dir, negative: bool, fl: Flags) {
    && fl.zero == ('0' in d.flags) && fl.plus == ('+' in d.flags) && fl.left == ('-' in d.flags || negative)
    && fl.space == (' ' in d.flags) && fl.hash == ('#' in d.flags) && !fl.upper
  }

  /** What the precision and the length modifier say. */
  ghost predicate SizesAre(d: Dir, fl: Flags) {
    && fl.precision == !d.precision.NoPrecision?
    && fl.char_ == d.size.Char? && fl.short == (d.size.Char? || d.size.Short?)
    && fl.longLong == (d.size.LongLong? || d.size.Max?)
    && fl.long == (d.size.Long? || d.size.LongLong? || d.size.SizeT? || d.size.Difference?)
  }

  /** The directive d, read with argument k next, up to its last character. */
  ghost predicate ReadAs(d: Dir, args: seq<Arg>, k: nat, p: Parsed) {
    && FlagsAre(d, WidthOf(d.width, args, k).1, p.fl) && SizesAre(d, p.fl)
    && p.width == WidthOf(d.width, args, k).0
    && p.prec == PrecisionOf(d.precision, args, if d.width.FromArg? then k + 1 else k)
    && p.k == ArgIndex(d, k)
  }

  // ---------- Reading part by part ----------

  /** At position i of the format the text s stands. */
  ghost predicate TextAt(fmt: string, i: nat, s: string) { i + |s| <= |fmt| && fmt[i..i + |s|] == s }

  lemma TextParts(fmt: string, i: nat, a: string, b: string)
    requires TextAt(fmt, i, a + b)
    ensures TextAt(fmt, i, a) && TextAt(fmt, i + |a|, b)
  {
    var s := fmt[i..i + |a + b|];
    assert fmt[i..i + |a|] == s[..|a|] == (a + b)[..|a|] == a;
    assert fmt[i + |a|..i + |a| + |b|] == s[|a|..] == (a + b)[|a|..] == b;
  }

  function FlagWith(fl: Flags, c: char): Flags {
    fl.(zero := fl.zero || c == '0', left := fl.left || c == '-', plus := fl.plus || c == '+',
        space := fl.space || c == ' ', hash := fl.hash || c == '#')
  }

  function FlagsWith(fl: Flags, s: string): Flags
    decreases |s|
  {
    if s == "" then fl else FlagsWith(FlagWith(fl, s[0]), s[1..])
  }

  predicate Has(s: string, c: char) { s != "" && (s[0] == c || Has(s[1..], c)) }

  lemma {:induction false} HasIs(s: string, c: char)
    ensures Has(s, c) <==> c in s
  {
    if s != "" {
      HasIs(s[1..], c);
      assert s == [s[0]] + s[1..];
    }
  }

  /** f has the flags of fl and those of the text. */
  ghost predicate FlagsOf(fl: Flags, s: string, f: Flags) {
    && f.zero == (fl.zero || Has(s, '0')) && f.left == (fl.left || Has(s, '-')) && f.plus == (fl.plus || Has(s, '+'))
    && f.space == (fl.space || Has(s, ' ')) && f.hash == (fl.hash || Has(s, '#'))
    && f == fl.(zero := f.zero, left := f.left, plus := f.plus, space := f.space, hash := f.hash)
  }

  lemma {:induction false} FlagsWithIs(fl: Flags, s: string)
    ensures FlagsOf(fl, s, FlagsWith(fl, s))
    decreases |s|
  {
    if s != "" { FlagsWithIs(FlagWith(fl, s[0]), s[1..]); }
  }

  lemma FlagsStep(fmt: string, i: nat, fl: Flags)
    requires i < |fmt|
    ensures IsFlag(fmt[i]) ==> FlagsFrom(fmt, i, fl) == FlagsFrom(fmt, i + 1, FlagWith(fl, fmt[i]))
    ensures !IsFlag(fmt[i]) ==> FlagsFrom(fmt, i, fl) == (fl, i)
  {
  }

  lemma {:induction false} FlagsRun(fmt: string, i: nat, fl: Flags, s: string)
    requires TextAt(fmt, i, s) && (forall j :: 0 <= j < |s| ==> IsFlag(s[j]))
    requires i + |s| < |fmt| && !IsFlag(fmt[i + |s|])
    ensures FlagsFrom(fmt, i, fl) == (FlagsWith(fl, s), i + |s|)
    decreases |s|
  {
    FlagsStep(fmt, i, fl);
    if s != "" {
      assert fmt[i] == s[0];
      assert fmt[i + 1..i + |s|] == s[1..];
      FlagsRun(fmt, i + 1, FlagWith(fl, s[0]), s[1..]);
    }
  }

  /** The value of decimal digits read from the left, behind those that gave n. */
  function ReadOn(n: nat, s: string): nat
    decreases |s|
  {
    if s == "" then n else ReadOn(n * 10 + DigitValue(s[0]), s[1..])
  }

  lemma {:induction false} ReadOnLast(n: nat, s: string, c: char)
    ensures ReadOn(n, s + [c]) == ReadOn(n, s) * 10 + DigitValue(c)
    decreases |s|
  {
    if s == "" {
      assert s + [c] == [c];
      assert [c][1..] == "";
    } else {
      assert (s + [c])[1..] == s[1..] + [c];
      ReadOnLast(n * 10 + DigitValue(s[0]), s[1..], c);
    }
  }

  lemma {:induction false} ReadOnIsValue(s: string)
    ensures ReadOn(0, s) == Value(s, 10)
    decreases |s|
  {
    if s != "" {
      ReadOnIsValue(s[..|s| - 1]);
      ReadOnLast(0, s[..|s| - 1], s[|s| - 1]);
      assert s[..|s| - 1] + [s[|s| - 1]] == s;
    }
  }

  lemma NumberStep(fmt: string, i: nat, n: nat)
    requires i < |fmt|
    ensures IsDigit(fmt[i]) ==>
      NumberFrom(fmt, i, n % W) == NumberFrom(fmt, i + 1, (n * 10 + DigitValue(fmt[i])) % W)
    ensures !IsDigit(fmt[i]) ==> NumberFrom(fmt, i, n % W) == (n % W, i)
  {
  }

  /** _atoi reads digits up to the first other character, in 32-bit arithmetic. */
  lemma {:induction false} NumberIsRead(fmt: string, i: nat, s: string, n: nat)
    requires i + |s| < |fmt| && TextAt(fmt, i, s) && (s == "" || Decimal(s)) && !IsDigit(fmt[i + |s|])
    ensures NumberFrom(fmt, i, n % W) == (ReadOn(n, s) % W, i + |s|)
    decreases |s|
  {
    NumberStep(fmt, i, n);
    if s != "" {
      assert fmt[i] == s[0] && IsDigit(s[0]);
      assert fmt[i + 1..i + |s|] == s[1..];
      NumberIsRead(fmt, i + 1, s[1..], n * 10 + DigitValue(s[0]));
    }
  }

  /** A decimal number is read as it is written. */
  lemma DecimalRead(fmt: string, i: nat, s: string)
    requires TextAt(fmt, i, s) && Decimal(s) && i + |s| < |fmt| && !IsDigit(fmt[i + |s|])
    ensures DigitAt(fmt, i) && NumberFrom(fmt, i, 0) == (Value(s, 10) % W, i + |s|)
  {
    NumberIsRead(fmt, i, s, 0);
    ReadOnIsValue(s);
    assert fmt[i] == fmt[i..i + |s|][0] == s[0];
  }

  /** What has been read behind a width, a precision, a length modifier. */
  function AfterWidth(p: Parsed, w: WidthSpec, args: seq<Arg>): Parsed {
    var (n, neg) := WidthOf(w, args, p.k);
    Parsed(p.fl.(left := p.fl.left || neg), n, p.prec, p.i + |WidthSpecText(w)|, if w.FromArg? then p.k + 1 else p.k)
  }

  function AfterPrecision(p: Parsed, q: PrecisionSpec, args: seq<Arg>): Parsed {
    Parsed(p.fl.(precision := !q.NoPrecision?), p.width, PrecisionOf(q, args, p.k), p.i + |PrecisionText(q)|,
           if q.PrecisionArg? then p.k + 1 else p.k)
  }

  function AfterSize(p: Parsed, s: Size): Parsed {
    p.(fl := SizeFlags(p.fl, s), i := p.i + |SizeText(s)|)
  }

  lemma IntArgIs(args: seq<Arg>, k: nat)
    ensures AsSigned(WordArg(args, k), W) == IntArg(args, k)
  {
  }

  lemma StarRead(fmt: string, p: Parsed, args: seq<Arg>)
    requires p.i < |fmt| && fmt[p.i] == '*'
    ensures WidthFrom(fmt, p, args) == AfterWidth(p, FromArg, args)
  {
    IntArgIs(args, p.k);
  }

  lemma WidthRead(fmt: string, p: Parsed, w: WidthSpec, args: seq<Arg>)
    requires TextAt(fmt, p.i, WidthSpecText(w)) && p.i + |WidthSpecText(w)| < |fmt| && p.width == 0
    requires w.Given? ==> Decimal(w.s)
    requires var c := fmt[p.i + |WidthSpecText(w)|]; !IsDigit(c) && c != '*'
    ensures WidthFrom(fmt, p, args) == AfterWidth(p, w, args)
  {
    match w
    case NoWidth =>
    case Given(s) => DecimalRead(fmt, p.i, s);
    case FromArg =>
      FirstAt(fmt, p.i, "*");
      StarRead(fmt, p, args);
  }

  lemma PrecisionRead(fmt: string, p: Parsed, q: PrecisionSpec, args: seq<Arg>)
    requires TextAt(fmt, p.i, PrecisionText(q)) && p.i + |PrecisionText(q)| < |fmt|
    requires p.prec == 0 && !p.fl.precision && (q.Exactly? ==> Decimal(q.s))
    requires var c := fmt[p.i + |PrecisionText(q)|]; !IsDigit(c) && c != '*' && c != '.'
    ensures PrecisionFrom(fmt, p, args) == AfterPrecision(p, q, args)
  {
    match q
    case NoPrecision =>
    case Dot => assert fmt[p.i] == '.';
    case Exactly(s) =>
      TextParts(fmt, p.i, ".", s);
      assert fmt[p.i] == fmt[p.i..p.i + 1][0] == '.';
      DecimalRead(fmt, p.i + 1, s);
    case PrecisionArg =>
      IntArgIs(args, p.k);
      assert fmt[p.i..p.i + 2] == ".*";
      assert fmt[p.i] == fmt[p.i..p.i + 2][0] == '.' && fmt[p.i + 1] == fmt[p.i..p.i + 2][1] == '*';
  }

  function SizeFlags(fl: Flags, s: Size): Flags {
    fl.(char_ := fl.char_ || s.Char?, short := fl.short || s.Char? || s.Short?,
        long := fl.long || s.Long? || s.LongLong? || s.SizeT? || s.Difference?,
        longLong := fl.longLong || s.LongLong? || s.Max?)
  }

  lemma SizeRead(fmt: string, p: Parsed, s: Size)
    requires TextAt(fmt, p.i, SizeText(s)) && p.i + |SizeText(s)| < |fmt| && IsConv(fmt[p.i + |SizeText(s)|])
    ensures LengthFrom(fmt, p) == AfterSize(p, s)
  {
    SizeLetters(fmt, p.i, s);
    if s.Long? || s.LongLong? {
      LongRead(fmt, p, s.LongLong?);
    } else if s.Short? || s.Char? {
      ShortRead(fmt, p, s.Char?);
    } else {
      OtherRead(fmt, p, s);
    }
  }

  lemma LongRead(fmt: string, p: Parsed, double: bool)
    requires p.i + 1 < |fmt| && fmt[p.i] == 'l' && (fmt[p.i + 1] == 'l' <==> double)
    ensures LengthFrom(fmt, p) ==
            p.(fl := p.fl.(long := true, longLong := p.fl.longLong || double), i := p.i + if double then 2 else 1)
  {
  }

  lemma ShortRead(fmt: string, p: Parsed, double: bool)
    requires p.i + 1 < |fmt| && fmt[p.i] == 'h' && (fmt[p.i + 1] == 'h' <==> double)
    ensures LengthFrom(fmt, p) ==
            p.(fl := p.fl.(short := true, char_ := p.fl.char_ || double), i := p.i + if double then 2 else 1)
  {
  }

  lemma OtherRead(fmt: string, p: Parsed, s: Size)
    requires p.i < |fmt| && fmt[p.i] != 'l' && fmt[p.i] != 'h'
    requires match s
             case Max => fmt[p.i] == 'j'
             case SizeT => fmt[p.i] == 'z'
             case Difference => fmt[p.i] == 't'
             case _ => s.Int? && fmt[p.i] != 'j' && fmt[p.i] != 'z' && fmt[p.i] != 't'
    ensures LengthFrom(fmt, p) == p.(fl := SizeFlags(p.fl, s), i := p.i + |SizeText(s)|)
  {
  }

  lemma SizeLetters(fmt: string, i: nat, s: Size)
    requires TextAt(fmt, i, SizeText(s))
    ensures |SizeText(s)| > 0 ==> fmt[i] == SizeText(s)[0]
    ensures |SizeText(s)| > 1 ==> fmt[i + 1] == SizeText(s)[1]
  {
    var n := |SizeText(s)|;
    if n > 0 { assert fmt[i] == fmt[i..i + n][0]; }
    if n > 1 { assert fmt[i + 1] == fmt[i..i + n][1]; }
  }

  lemma StartOf(a: string, b: string)
    requires a != "" || b != ""
    ensures a + b != "" && (a + b)[0] == if a == "" then b[0] else a[0]
  {
  }

  /** What begins behind each part tells it from the part before. */
  lemma Separated(d: Dir)
    requires WellWritten(d)
    ensures var s := SizeText(d.size) + [d.conv];
      var q := PrecisionText(d.precision) + s;
      && s != "" && !IsDigit(s[0]) && s[0] != '*' && s[0] != '.'
      && q != "" && !IsDigit(q[0]) && q[0] != '*'
      && WidthSpecText(d.width) + q != "" && !IsFlag((WidthSpecText(d.width) + q)[0])
  {
    var s := SizeText(d.size) + [d.conv];
    var q := PrecisionText(d.precision) + s;
    StartOf(SizeText(d.size), [d.conv]);
    StartOf(PrecisionText(d.precision), s);
    StartOf(WidthSpecText(d.width), q);
  }

  /** The text t stands at position i, and x is its first character. */
  lemma FirstAt(fmt: string, i: nat, t: string)
    requires TextAt(fmt, i, t) && t != ""
    ensures i < |fmt| && fmt[i] == t[0]
  {
    assert fmt[i] == fmt[i..i + |t|][0];
  }

  /** A part of a directive stands at position i, and another text behind it. */
  lemma PartAt(fmt: string, i: nat, a: string, b: string)
    requires TextAt(fmt, i, a + b) && b != ""
    ensures TextAt(fmt, i, a) && TextAt(fmt, i + |a|, b) && i + |a| < |fmt| && fmt[i + |a|] == b[0]
  {
    TextParts(fmt, i, a, b);
    FirstAt(fmt, i + |a|, b);
  }

  /** Where the parts of a directive stand: behind the flags, the width and the
      precision, and where its last character is. */
  lemma PartsAt(fmt: string, i: nat, d: Dir) returns (i1: nat, i2: nat, i3: nat, i4: nat)
    requires WellWritten(d) && TextAt(fmt, i, DirText(d))
    ensures i < |fmt| && fmt[i] == '%' && i1 == i + 1 + |d.flags| && TextAt(fmt, i + 1, d.flags)
    ensures TextAt(fmt, i1, WidthSpecText(d.width)) && i2 == i1 + |WidthSpecText(d.width)|
    ensures TextAt(fmt, i2, PrecisionText(d.precision)) && i3 == i2 + |PrecisionText(d.precision)|
    ensures TextAt(fmt, i3, SizeText(d.size)) && i4 == i3 + |SizeText(d.size)| == i + |DirText(d)| - 1 < |fmt|
    ensures i1 < |fmt| && i2 < |fmt| && i3 < |fmt| && !IsFlag(fmt[i1])
    ensures !IsDigit(fmt[i2]) && fmt[i2] != '*' && !IsDigit(fmt[i3]) && fmt[i3] != '*' && fmt[i3] != '.'
    ensures fmt[i4] == d.conv
  {
    var s := SizeText(d.size) + [d.conv];
    var q := PrecisionText(d.precision) + s;
    var w := WidthSpecText(d.width) + q;
    Separated(d);
    StartOf(d.flags, w);
    PartAt(fmt, i, "%", d.flags + w);
    FirstAt(fmt, i, "%");
    PartAt(fmt, i + 1, d.flags, w);
    i1 := i + 1 + |d.flags|;
    PartAt(fmt, i1, WidthSpecText(d.width), q);
    i2 := i1 + |WidthSpecText(d.width)|;
    i3 := LaterParts(fmt, i2, d);
    i4 := i3 + |SizeText(d.size)|;
  }

  lemma LaterParts(fmt: string, i2: nat, d: Dir) returns (i3: nat)
    requires WellWritten(d) && TextAt(fmt, i2, PrecisionText(d.precision) + (SizeText(d.size) + [d.conv]))
    ensures TextAt(fmt, i2, PrecisionText(d.precision)) && i3 == i2 + |PrecisionText(d.precision)| < |fmt|
    ensures TextAt(fmt, i3, SizeText(d.size)) && i3 + |SizeText(d.size)| < |fmt|
    ensures !IsDigit(fmt[i3]) && fmt[i3] != '*' && fmt[i3] != '.' && fmt[i3 + |SizeText(d.size)|] == d.conv
  {
    var s := SizeText(d.size) + [d.conv];
    Separated(d);
    PartAt(fmt, i2, PrecisionText(d.precision), s);
    i3 := i2 + |PrecisionText(d.precision)|;
    PartAt(fmt, i3, SizeText(d.size), [d.conv]);
  }

  lemma WrittenFlags(d: Dir)
    ensures FlagsAre(d, false, FlagsWith(NoFlags, d.flags))
    ensures FlagsOf(NoFlags, d.flags, FlagsWith(NoFlags, d.flags))
  {
    FlagsWithIs(NoFlags, d.flags);
    HasIs(d.flags, '0');
    HasIs(d.flags, '-');
    HasIs(d.flags, '+');
    HasIs(d.flags, ' ');
    HasIs(d.flags, '#');
  }

  lemma ExpectedIs(d: Dir, args: seq<Arg>, k: nat, i: nat, fl: Flags)
    requires FlagsAre(d, false, fl) && fl == NoFlags.(zero := fl.zero, left := fl.left, plus := fl.plus,
                                                      space := fl.space, hash := fl.hash)
    ensures var p := Parsed(fl, 0, 0, i, k);
      ReadAs(d, args, k, AfterSize(AfterPrecision(AfterWidth(p, d.width, args), d.precision, args), d.size))
  {
  }

  lemma DirectiveSteps(fmt: string, i: nat, fl: Flags, j: nat, args: seq<Arg>, k: nat)
    requires i <= |fmt| && FlagsFrom(fmt, i, NoFlags) == (fl, j)
    ensures j <= |fmt| && Directive(fmt, i, args, k) ==
            LengthFrom(fmt, PrecisionFrom(fmt, WidthFrom(fmt, Parsed(fl, 0, 0, j, k), args), args))
  {
  }

  /** A directive as it is written is read as it is meant, wherever it stands. */
  lemma DirectiveRead(fmt: string, i: nat, d: Dir, args: seq<Arg>, k: nat) returns (p: Parsed)
    requires WellWritten(d) && TextAt(fmt, i, DirText(d))
    ensures i < |fmt| && fmt[i] == '%' && p == Directive(fmt, i + 1, args, k)
    ensures p.i == i + |DirText(d)| - 1 < |fmt| && fmt[p.i] == d.conv && ReadAs(d, args, k, p)
  {
    var i1, i2, i3, i4 := PartsAt(fmt, i, d);
    var fl := FlagsWith(NoFlags, d.flags);
    FlagsRun(fmt, i + 1, NoFlags, d.flags);
    WrittenFlags(d);
    DirectiveSteps(fmt, i + 1, fl, i1, args, k);
    p := RestRead(fmt, d, args, Parsed(fl, 0, 0, i1, k), i2, i3, i4);
    ExpectedIs(d, args, k, i1, fl);
  }

  lemma RestRead(fmt: string, d: Dir, args: seq<Arg>, p0: Parsed, i2: nat, i3: nat, i4: nat)
    returns (p: Parsed)
    requires p0.width == 0 && p0.prec == 0 && p0.i < |fmt| && !p0.fl.precision
    requires TextAt(fmt, p0.i, WidthSpecText(d.width)) && i2 == p0.i + |WidthSpecText(d.width)| < |fmt|
    requires TextAt(fmt, i2, PrecisionText(d.precision)) && i3 == i2 + |PrecisionText(d.precision)| < |fmt|
    requires TextAt(fmt, i3, SizeText(d.size)) && i4 == i3 + |SizeText(d.size)| < |fmt|
    requires !IsDigit(fmt[i2]) && fmt[i2] != '*' && !IsDigit(fmt[i3]) && fmt[i3] != '*' && fmt[i3] != '.'
    requires IsConv(fmt[i4])
    requires (d.width.Given? ==> Decimal(d.width.s)) && (d.precision.Exactly? ==> Decimal(d.precision.s))
    ensures p == LengthFrom(fmt, PrecisionFrom(fmt, WidthFrom(fmt, p0, args), args))
    ensures p == AfterSize(AfterPrecision(AfterWidth(p0, d.width, args), d.precision, args), d.size)
    ensures p.i == i4
  {
    var p1 := AfterWidth(p0, d.width, args);
    WidthRead(fmt, p0, d.width, args);
    var p2 := AfterPrecision(p1, d.precision, args);
    PrecisionRead(fmt, p1, d.precision, args);
    SizeRead(fmt, p2, d.size);
    p := AfterSize(p2, d.size);
  }
}
