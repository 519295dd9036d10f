/** What formats print: the number, the text or the character that each
    directive stands for, in its field, one behind the other. */
module PrintfOutput {
  import opened PrintfText
  import opened PrintfNumbers
  import opened PrintfPrefix
  import opened PrintfShape
  import opened PrintfFormat

  // ---------- Directives ----------

  /** x is the raw argument modulo n, in the range of the signed or the unsigned
      numbers of that size. */
  ghost predicate SameModulo(x: int, raw: nat, n: nat, signed: bool)
    requires n > 0
  {
    (x - (raw as int)) % n == 0 && if signed then 0 - n <= 2 * x < n else 0 <= x < n
  }

  /** x is argument a as a number of the directive's size. */
  ghost predicate ArgIs(x: int, c: char, size: Size, args: seq<Arg>, a: nat) {
    var signed := c == 'd' || c == 'i';
    if size.LongLong? || size.Max? then
      a < |args| && args[a].Two? ==> SameModulo(x, args[a].d, 0x1_0000_0000_0000_0000, signed)
    else
      a < |args| && args[a].One? ==>
        if size.Char? then SameModulo(x, args[a].w, 0x100, signed)
        else if size.Short? then SameModulo(x, args[a].w, 0x1_0000, signed)
        else SameModulo(x, args[a].w, 0x1_0000_0000, signed)
  }

  ghost function SignShown(d: Dir, x: int): string {
    if x < 0 then "-"
    else if d.conv != 'd' && d.conv != 'i' && d.conv != 'p' then ""
    else if '+' in d.flags then "+"
    else if ' ' in d.flags then " "
    else ""
  }

  ghost function PrefixShown(d: Dir, x: int): string {
    if '#' !in d.flags || x == 0 then ""
    else
      match d.conv
      case 'x' => "0x"
      case 'X' => "0X"
      case 'p' => "0X"
      case 'o' => "0"
      case 'b' => "0b"
      case _ => ""
  }

  /** How the directive d prints the number x. */
  ghost function StyleOf(d: Dir, args: seq<Arg>, k: nat, x: int): (st: Style)
    ensures IsBase(st.base)
  {
    var (width, negative) := WidthOf(d.width, args, k);
    Style(
      if d.conv == 'b' then 2 else if d.conv == 'o' then 8
      else if d.conv == 'd' || d.conv == 'i' || d.conv == 'u' then 10 else 16,
      d.conv == 'X' || d.conv == 'p',
      SignShown(d, x),
      PrefixShown(d, x),
      '-' in d.flags || negative,
      d.conv == 'p' || ('0' in d.flags && d.precision.NoPrecision?),
      !d.precision.NoPrecision?,
      PrecisionOf(d.precision, args, if d.width.FromArg? then k + 1 else k),
      if d.conv == 'p' then 8 else width)
  }

  /** The argument x with this numeral, as the directive d prints it; a zero has no
      digits if there is a precision. */
  ghost predicate NumberPrinted(d: Dir, args: seq<Arg>, k: nat, x: int, numeral: string, t: string) {
    var st := StyleOf(d, args, k, x);
    && ArgIs(x, d.conv, if d.conv == 'p' then Int else d.size, args, ArgIndex(d, k))
    && IsNumeral(numeral, if x < 0 then -x else x, st.base, st.upper)
    && NumberShown(t, if st.precise && x == 0 then "" else numeral, st)
  }

  /** t is the text s in the field of d, cut off behind as many characters as the
      precision says. */
  ghost predicate TextPrinted(d: Dir, args: seq<Arg>, k: nat, s: string, t: string) {
    var (width, negative) := WidthOf(d.width, args, k);
    var prec := PrecisionOf(d.precision, args, if d.width.FromArg? then k + 1 else k);
    Placed(t, if !d.precision.NoPrecision? && prec < |s| then s[..prec] else s, width, '-' in d.flags || negative)
  }

  /** t is the character in the field of d. */
  ghost predicate CharPrinted(d: Dir, args: seq<Arg>, k: nat, w: Word, t: string) {
    var (width, negative) := WidthOf(d.width, args, k);
    Placed(t, [(w % 0x100) as char], width, '-' in d.flags || negative)
  }

  /** t is what the directive d prints if argument k is the next one. */
  ghost predicate Prints(d: Dir, args: seq<Arg>, k: nat, t: string) {
    var a := ArgIndex(d, k);
    if d.conv in {'d', 'i', 'u', 'x', 'X', 'o', 'b', 'p'} then
      exists x, numeral :: NumberPrinted(d, args, k, x, numeral, t)
    else if d.conv == 's' then a < |args| && args[a].Text? ==> TextPrinted(d, args, k, args[a].s, t)
    else if d.conv == 'c' then a < |args| && args[a].One? ==> CharPrinted(d, args, k, args[a].w, t)
    else t == [d.conv]
  }

  ghost predicate ModuloOk(raw: nat, n: nat)
    requires n > 0 && n % 2 == 0
  {
    SameModulo(AsSigned(raw, n), raw, n, true) && SameModulo(raw % n, raw, n, false)
  }

  lemma Modulo8(raw: nat)
    ensures ModuloOk(raw, 0x100)
  {
  }

  lemma Modulo16(raw: nat)
    ensures ModuloOk(raw, 0x1_0000)
  {
  }

  lemma Modulo32(raw: nat)
    ensures ModuloOk(raw, W)
  {
  }

  lemma Modulo64(raw: nat)
    ensures ModuloOk(raw, W * W)
  {
  }

  lemma ModuloTwice(raw: nat, n: nat)
    requires n == 0x100 || n == 0x1_0000 || n == W || n == W * W
    ensures raw % n % n == raw % n && (raw < n ==> raw % n == raw)
  {
  }

  /** The argument of a number conversion is the one that C takes. */
  lemma ArgumentRead(d: Dir, args: seq<Arg>, k: nat, p: Parsed)
    requires ReadAs(d, args, k, p) && IsNumber(d.conv)
    ensures ArgIs(NumberArg(d.conv, NumberFlags(d.conv, p.fl), args, p.k), d.conv, d.size, args, ArgIndex(d, k))
  {
    var fl, a := NumberFlags(d.conv, p.fl), ArgIndex(d, k);
    assert SizesAre(d, fl) || d.conv == 'X';
    if a < |args| && args[a].Two? {
      Modulo64(args[a].d);
      ModuloTwice(args[a].d, W * W);
    } else if a < |args| && args[a].One? {
      WordRead(d.conv, d.size, fl, args, a);
    }
  }

  lemma WordRead(c: char, size: Size, fl: Flags, args: seq<Arg>, a: nat)
    requires a < |args| && args[a].One? && fl.char_ == size.Char? && fl.short == (size.Char? || size.Short?)
    requires fl.longLong == (size.LongLong? || size.Max?) && (fl.long ==> !size.Char? && !size.Short?)
    ensures ArgIs(NumberArg(c, fl, args, a), c, size, args, a)
  {
    var w := args[a].w;
    if size.Char? {
      Modulo8(w);
    } else if size.Short? {
      Modulo16(w);
    } else {
      Modulo32(w);
      ModuloTwice(w, W);
    }
  }

  lemma NumberDirective(d: Dir, args: seq<Arg>, k: nat, p: Parsed)
    requires ReadAs(d, args, k, p) && IsNumber(d.conv)
    ensures var fl := NumberFlags(d.conv, p.fl); var x := NumberArg(d.conv, fl, args, p.k);
      var st := StyleOf(d, args, k, x);
      && StyleWith(x < 0, BaseOf(d.conv), p.prec, p.width, ValueFlags(Magnitude(x), fl)) == st
      && fl.upper == st.upper && fl.precision == st.precise && BaseOf(d.conv) == st.base
      && (BaseOf(d.conv) == 10 ==> !fl.hash)
  {
  }

  lemma NumberPrints(d: Dir, args: seq<Arg>, k: nat, p: Parsed)
    requires ReadAs(d, args, k, p) && IsNumber(d.conv)
    ensures Prints(d, args, k, Converted(d.conv, p, args))
  {
    var fl := NumberFlags(d.conv, p.fl);
    var x := NumberArg(d.conv, fl, args, p.k);
    ArgumentRead(d, args, k, p);
    NumberDirective(d, args, k, p);
    var numeral := NumberIsShown(Magnitude(x), x < 0, BaseOf(d.conv), p.prec, p.width, fl);
    assert NumberPrinted(d, args, k, x, numeral, Converted(d.conv, p, args));
  }

  lemma PointerParts(d: Dir, fl: Flags, x: nat)
    requires fl.plus == ('+' in d.flags) && fl.space == (' ' in d.flags) && fl.hash == ('#' in d.flags)
    requires fl.upper && d.conv == 'p'
    ensures SignText(false, ValueFlags(x, fl)) == SignShown(d, x)
    ensures PrefixText(16, ValueFlags(x, fl)) == PrefixShown(d, x)
  {
  }

  lemma PointerDirective(d: Dir, args: seq<Arg>, k: nat, p: Parsed, x: nat)
    requires ReadAs(d, args, k, p) && d.conv == 'p'
    ensures var fl := ValueFlags(x, p.fl.(zero := true, upper := true));
      StyleWith(false, 16, p.prec, 8, fl) == StyleOf(d, args, k, x)
  {
    PointerParts(d, p.fl.(zero := true, upper := true), x);
  }

  lemma PointerRead(d: Dir, args: seq<Arg>, k: nat, p: Parsed)
    requires p.k == ArgIndex(d, k) && d.conv == 'p'
    ensures ArgIs(WordArg(args, p.k), d.conv, Int, args, ArgIndex(d, k))
  {
  }

  lemma PointerPrints(d: Dir, args: seq<Arg>, k: nat, p: Parsed)
    requires ReadAs(d, args, k, p) && d.conv == 'p'
    ensures Prints(d, args, k, Converted(d.conv, p, args))
  {
    var fl := p.fl.(zero := true, upper := true);
    var x: int := WordArg(args, p.k);
    var numeral := NumberIsShown(x, false, 16, p.prec, 8, fl);
    PointerRead(d, args, k, p);
    PointerDirective(d, args, k, p, x);
    assert NumberPrinted(d, args, k, x, numeral, Converted(d.conv, p, args));
  }

  lemma PaddedPlaced(t: string, width: nat, fl: Flags)
    ensures Placed(Padded(t, width, fl), t, width, fl.left)
  {
  }

  /** What a directive prints is what it stands for. */
  lemma DirectivePrints(d: Dir, args: seq<Arg>, k: nat, p: Parsed)
    requires ReadAs(d, args, k, p)
    ensures Prints(d, args, k, Converted(d.conv, p, args))
  {
    if IsNumber(d.conv) {
      NumberPrints(d, args, k, p);
    } else if d.conv == 'p' {
      PointerPrints(d, args, k, p);
    } else {
      PaddedPlaced([(WordArg(args, p.k) % 0x100) as char], p.width, p.fl);
      PaddedPlaced(Cut(TextArg(args, p.k), p.prec, p.fl), p.width, p.fl);
    }
  }

  // ---------- Formats ----------

  /** A format is a list of texts and directives. */
  datatype Item = Plain(s: string) | Conversion(d: Dir)

  function ItemText(item: Item): string {
    match item
    case Plain(s) => s
    case Conversion(d) => DirText(d)
  }

  function FormatText(items: seq<Item>): string {
    if items == [] then "" else ItemText(items[0]) + FormatText(items[1..])
  }

  ghost predicate NoPercent(s: string) { forall j :: 0 <= j < |s| ==> s[j] != '%' }

  ghost predicate ItemOk(item: Item) {
    match item
    case Plain(s) => NoPercent(s)
    case Conversion(d) => WellWritten(d)
  }

  ghost predicate WellFormed(items: seq<Item>) { forall j :: 0 <= j < |items| ==> ItemOk(items[j]) }

  /** The next argument behind an item. */
  function NextArg(item: Item, k: nat): nat {
    match item
    case Plain(_) => k
    case Conversion(d) =>
      ArgIndex(d, k) + if d.conv in {'d', 'i', 'u', 'x', 'X', 'o', 'b', 'p', 's', 'c'} then 1 else 0
  }

  ghost predicate ItemPrinted(item: Item, args: seq<Arg>, k: nat, t: string) {
    match item
    case Plain(s) => t == s
    case Conversion(d) => Prints(d, args, k, t)
  }

  /** t is what the items print, one behind the other, each directive with the
      arguments behind those of the one before. */
  ghost predicate Printed(items: seq<Item>, args: seq<Arg>, k: nat, t: string)
    decreases |items|
  {
    if items == [] then t == ""
    else exists n | 0 <= n <= |t| ::
      ItemPrinted(items[0], args, k, t[..n]) && Printed(items[1..], args, NextArg(items[0], k), t[n..])
  }

  datatype Outcome = Unfinished | Output(text: string)

  /** What the format prints from position i on, if its directives are complete. */
  function OutcomeFrom(fmt: string, i: nat, args: seq<Arg>, k: nat): Outcome
    requires i <= |fmt|
  {
    if Complete(fmt, i, args, k) then Output(Formatted(fmt, i, args, k)) else Unfinished
  }

  lemma PlainStep(fmt: string, i: nat, args: seq<Arg>, k: nat, rest: string)
    requires i < |fmt| && fmt[i] != '%' && OutcomeFrom(fmt, i + 1, args, k) == Output(rest)
    ensures OutcomeFrom(fmt, i, args, k) == Output([fmt[i]] + rest)
  {
  }

  /** Text without percent signs is put out as it is. */
  lemma {:induction false} PlainRun(fmt: string, i: nat, s: string, args: seq<Arg>, k: nat, rest: string)
    requires TextAt(fmt, i, s) && NoPercent(s) && OutcomeFrom(fmt, i + |s|, args, k) == Output(rest)
    ensures OutcomeFrom(fmt, i, args, k) == Output(s + rest)
    decreases |s|
  {
    if s == "" {
      assert "" + rest == rest;
    } else {
      assert fmt[i] == fmt[i..i + |s|][0] == s[0];
      assert fmt[i + 1..i + |s|] == s[1..];
      PlainRun(fmt, i + 1, s[1..], args, k, rest);
      PlainStep(fmt, i, args, k, s[1..] + rest);
      Rejoined(s, rest);
    }
  }

  lemma Rejoined(s: string, rest: string)
    requires s != ""
    ensures [s[0]] + (s[1..] + rest) == s + rest
  {
    assert [s[0]] + s[1..] == s;
  }

  lemma DirectiveStep(fmt: string, i: nat, args: seq<Arg>, k: nat, p: Parsed, j: nat, l: nat, rest: string)
    requires i < |fmt| && fmt[i] == '%' && p == Directive(fmt, i + 1, args, k) && p.i < |fmt|
    requires j == p.i + 1 && l == Consumed(fmt[p.i], p.k) && OutcomeFrom(fmt, j, args, l) == Output(rest)
    ensures OutcomeFrom(fmt, i, args, k) == Output(Converted(fmt[p.i], p, args) + rest)
  {
  }

  lemma DirectiveOut(fmt: string, i: nat, d: Dir, args: seq<Arg>, k: nat, j: nat, l: nat, rest: string)
    returns (p: Parsed)
    requires TextAt(fmt, i, DirText(d)) && WellWritten(d) && j == i + |DirText(d)| && l == NextArg(Conversion(d), k)
    requires OutcomeFrom(fmt, j, args, l) == Output(rest)
    ensures ReadAs(d, args, k, p) && OutcomeFrom(fmt, i, args, k) == Output(Converted(d.conv, p, args) + rest)
  {
    p := DirectiveRead(fmt, i, d, args, k);
    ArgumentsUsed(d, args, k, p);
    DirectiveStep(fmt, i, args, k, p, j, l, rest);
  }

  /** The first item of a format is printed, and what follows behind it. */
  lemma FirstStep(fmt: string, i: nat, item: Item, args: seq<Arg>, k: nat, j: nat, l: nat, rest: string)
    returns (t: string)
    requires TextAt(fmt, i, ItemText(item)) && ItemOk(item) && j == i + |ItemText(item)| && l == NextArg(item, k)
    requires OutcomeFrom(fmt, j, args, l) == Output(rest)
    ensures ItemPrinted(item, args, k, t) && OutcomeFrom(fmt, i, args, k) == Output(t + rest)
  {
    match item
    case Plain(s) =>
      PlainRun(fmt, i, s, args, k, rest);
      t := s;
    case Conversion(d) =>
      var p := DirectiveOut(fmt, i, d, args, k, j, l, rest);
      DirectivePrints(d, args, k, p);
      t := Converted(d.conv, p, args);
  }

  lemma ArgumentsUsed(d: Dir, args: seq<Arg>, k: nat, p: Parsed)
    requires ReadAs(d, args, k, p)
    ensures Consumed(d.conv, p.k) == NextArg(Conversion(d), k)
  {
  }

  lemma FirstPrinted(items: seq<Item>, args: seq<Arg>, k: nat, t: string, rest: string)
    requires items != [] && ItemPrinted(items[0], args, k, t)
    requires Printed(items[1..], args, NextArg(items[0], k), rest)
    ensures Printed(items, args, k, t + rest)
  {
    var u := t + rest;
    assert u[..|t|] == t && u[|t|..] == rest;
  }

  lemma RestOk(items: seq<Item>)
    requires items != [] && WellFormed(items)
    ensures WellFormed(items[1..]) && ItemOk(items[0])
  {
  }

  lemma Aside(fmt: string, i: nat, s: string, a: string, b: string) returns (j: nat)
    requires s == a + b && TextAt(fmt, i, s) && i + |s| == |fmt|
    ensures TextAt(fmt, i, a) && j == i + |a| && TextAt(fmt, j, b) && j + |b| == |fmt|
  {
    TextParts(fmt, i, a, b);
    j := i + |a|;
  }

  lemma {:induction false} RestPrinted(fmt: string, i: nat, items: seq<Item>, args: seq<Arg>, k: nat)
    returns (t: string)
    requires WellFormed(items) && TextAt(fmt, i, FormatText(items)) && i + |FormatText(items)| == |fmt|
    ensures OutcomeFrom(fmt, i, args, k) == Output(t) && Printed(items, args, k, t)
    decreases |items|
  {
    if items == [] {
      t := "";
    } else {
      var j := Aside(fmt, i, FormatText(items), ItemText(items[0]), FormatText(items[1..]));
      var l := NextArg(items[0], k);
      RestOk(items);
      var rest := RestPrinted(fmt, j, items[1..], args, l);
      var t0 := FirstStep(fmt, i, items[0], args, k, j, l, rest);
      FirstPrinted(items, args, k, t0, rest);
      t := t0 + rest;
    }
  }

  /** Whatever the format and the arguments: every text is printed as it is and
      every directive as what it stands for. */
  lemma FormatPrints(items: seq<Item>, args: seq<Arg>)
    requires WellFormed(items)
    ensures var fmt := FormatText(items);
      Complete(fmt, 0, args, 0) && Printed(items, args, 0, Formatted(fmt, 0, args, 0))
  {
    var fmt := FormatText(items);
    assert fmt[0..|fmt|] == fmt;
    var t := RestPrinted(fmt, 0, items, args, 0);
  }

  // ---------- Reading back ----------

  /** The flags that count for the number conversion d. */
  ghost predicate FlagsCount(d: Dir, negative: bool, fl: Flags) {
    && fl.left == ('-' in d.flags || negative) && fl.precision == !d.precision.NoPrecision?
    && fl.zero == ('0' in d.flags && d.precision.NoPrecision?) && fl.upper == (d.conv == 'X')
    && fl.plus == ('+' in d.flags && (d.conv == 'd' || d.conv == 'i'))
    && fl.space == (' ' in d.flags && (d.conv == 'd' || d.conv == 'i'))
  }

  lemma FlagsCounted(d: Dir, args: seq<Arg>, k: nat, p: Parsed)
    requires ReadAs(d, args, k, p) && IsNumber(d.conv) && ('#' in d.flags ==> d.conv in {'d', 'i', 'u'})
    ensures var fl := NumberFlags(d.conv, p.fl);
      FlagsCount(d, WidthOf(d.width, args, k).1, fl) && !fl.hash
  {
  }

  /** A format that is one number directive, without a '#' that counts: what it
      prints is read back as the argument, exactly when the number keeps its value. */
  lemma FormatParsesBack(d: Dir, args: seq<Arg>) returns (x: int, fl: Flags)
    requires WellWritten(d) && d.conv in {'d', 'i', 'u', 'x', 'X', 'o', 'b'}
    requires '#' in d.flags ==> d.conv in {'d', 'i', 'u'}
    ensures ArgIs(x, d.conv, d.size, args, ArgIndex(d, 0)) && Complete(DirText(d), 0, args, 0)
    ensures FlagsCount(d, WidthOf(d.width, args, 0).1, fl)
    ensures var base := match d.conv case 'b' => 2 case 'o' => 8 case 'x' => 16 case 'X' => 16 case _ => 10;
      Faithful(Formatted(DirText(d), 0, args, 0), x, base,
               PrecisionOf(d.precision, args, if d.width.FromArg? then 1 else 0), WidthOf(d.width, args, 0).0, fl)
  {
    var fmt, l := DirText(d), NextArg(Conversion(d), 0);
    assert fmt[0..|fmt|] == fmt;
    var p := DirectiveOut(fmt, 0, d, args, 0, |fmt|, l, "");
    fl := NumberFlags(d.conv, p.fl);
    x := NumberArg(d.conv, fl, args, p.k);
    ArgumentRead(d, args, 0, p);
    FlagsCounted(d, args, 0, p);
    ConversionParsesBack(d.conv, p, args);
    assert Converted(d.conv, p, args) + "" == Converted(d.conv, p, args);
  }
}
