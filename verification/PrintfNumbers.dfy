/** What a printed number means: reading it back gives the number. */
module PrintfNumbers {
  import opened PrintfText

  function DigitValue(c: char): nat {
    if '0' <= c <= '9' then (c - '0') as nat
    else if 'a' <= c <= 'f' then 10 + (c - 'a') as nat
    else if 'A' <= c <= 'F' then 10 + (c - 'A') as nat
    else 0
  }

  lemma DigitRoundTrip(d: nat, upper: bool)
    requires d < 16
    ensures DigitValue(DigitChar(d, upper)) == d
    ensures DigitChar(d, upper) != ' ' && DigitChar(d, upper) != '-' && DigitChar(d, upper) != '+'
  {
  }

  function Times(x: nat, base: nat): nat {
    if base == 2 then 2 * x else if base == 8 then 8 * x else if base == 10 then 10 * x else 16 * x
  }

  /** The value of digits held lowest first. */
  function ValueRev(b: string, base: nat): nat {
    if b == "" then 0 else DigitValue(b[0]) + Times(ValueRev(b[1..], base), base)
  }

  /** The value of digits as they are read. */
  function Value(s: string, base: nat): nat {
    if s == "" then 0 else Times(Value(s[..|s| - 1], base), base) + DigitValue(s[|s| - 1])
  }

  lemma {:induction false} ValueOfReversed(b: string, base: nat)
    ensures Value(Reversed(b), base) == ValueRev(b, base)
  {
    if b != "" {
      ValueOfReversed(b[1..], base);
      assert Reversed(b)[..|b| - 1] == Reversed(b[1..]);
    }
  }

  // ---------- Digits ----------

  function Pow(base: nat, k: nat): nat { if k == 0 then 1 else Times(Pow(base, k - 1), base) }

  lemma Divided(value: nat, base: nat)
    requires IsBase(base)
    ensures value == Times(Higher(value, base), base) + Low(value, base) && Low(value, base) < base
    ensures Higher(value, base) != 0 ==> Higher(value, base) < value
  {
  }

  /** With enough room the digits stand for the value. */
  lemma {:induction false} DigitsMean(value: nat, base: nat, upper: bool, room: nat)
    requires IsBase(base) && room > 0 && value < Pow(base, room)
    ensures ValueRev(DigitsRev(value, base, upper, room), base) == value
    decreases room
  {
    var d := DigitsRev(value, base, upper, room);
    Divided(value, base);
    DigitRoundTrip(Low(value, base), upper);
    if Higher(value, base) != 0 && room > 1 {
      DigitsMean(Higher(value, base), base, upper, room - 1);
      assert d[1..] == DigitsRev(Higher(value, base), base, upper, room - 1);
    } else {
      assert d[1..] == "";
      if room == 1 { assert Pow(base, 1) == Times(Pow(base, 0), base); }
    }
  }

  /** Whatever the room, the digits stand for less than a value that needs more of them. */
  lemma {:induction false} DigitsBelow(value: nat, base: nat, upper: bool, room: nat)
    requires IsBase(base) && room > 0
    ensures ValueRev(DigitsRev(value, base, upper, room), base) < Pow(base, room)
    decreases room
  {
    var d := DigitsRev(value, base, upper, room);
    Divided(value, base);
    DigitRoundTrip(Low(value, base), upper);
    assert Pow(base, room) == Times(Pow(base, room - 1), base);
    if Higher(value, base) != 0 && room > 1 {
      DigitsBelow(Higher(value, base), base, upper, room - 1);
      assert d[1..] == DigitsRev(Higher(value, base), base, upper, room - 1);
    } else {
      assert d[1..] == "";
      PowPositive(base, room - 1);
    }
  }

  lemma {:induction false} PowPositive(base: nat, k: nat)
    ensures Pow(base, k) > 0
  {
    if k > 0 { PowPositive(base, k - 1); }
  }

  lemma {:induction false} DigitsShort(value: nat, base: nat, upper: bool, room: nat, k: nat)
    requires IsBase(base) && 0 < k <= room && value < Pow(base, k)
    ensures |DigitsRev(value, base, upper, room)| <= k
    decreases k
  {
    Divided(value, base);
    if Higher(value, base) != 0 && room > 1 {
      assert Pow(base, k) == Times(Pow(base, k - 1), base);
      if k > 1 {
        DigitsShort(Higher(value, base), base, upper, room - 1, k - 1);
      }
    }
  }

  /** Neither spaces nor signs. */
  ghost predicate Digits(b: string) { forall i :: 0 <= i < |b| ==> b[i] != ' ' && b[i] != '-' && b[i] != '+' }

  lemma {:induction false} DigitsAreDigits(value: nat, base: nat, upper: bool, room: nat)
    requires IsBase(base) && room > 0
    ensures Digits(DigitsRev(value, base, upper, room))
    decreases value
  {
    Divided(value, base);
    DigitRoundTrip(Low(value, base), upper);
    if Higher(value, base) != 0 && room > 1 { DigitsAreDigits(Higher(value, base), base, upper, room - 1); }
  }

  /** A 32-bit value has at most 32 digits, and in decimal at most 11. */
  lemma WordDigits(value: Word, base: nat)
    requires IsBase(base)
    ensures value < Pow(base, ROOM) && (base == 10 ==> value < Pow(10, 11))
  {
    PowGrows(2, base, ROOM);
    Powers();
  }

  lemma {:induction false} PowGrows(a: nat, base: nat, k: nat)
    requires a == 2 && IsBase(base)
    ensures Pow(a, k) <= Pow(base, k)
  {
    if k > 0 { PowGrows(a, base, k - 1); }
  }

  lemma Powers()
    ensures Pow(2, ROOM) == W && Pow(10, 11) == 100_000_000_000
  {
    FourMore(0);
    FourMore(4);
    FourMore(8);
    FourMore(12);
    FourMore(16);
    FourMore(20);
    FourMore(24);
    FourMore(28);
    assert Pow(10, 2) == 100;
    assert Pow(10, 4) == 10_000;
    assert Pow(10, 6) == 1_000_000;
    assert Pow(10, 8) == 100_000_000;
    assert Pow(10, 10) == 10_000_000_000;
  }

  lemma FourMore(k: nat)
    ensures Pow(2, k + 4) == 16 * Pow(2, k)
  {
    assert Pow(2, k + 4) == 2 * Pow(2, k + 3);
    assert Pow(2, k + 2) == 2 * Pow(2, k + 1);
  }

  lemma {:induction false} ZerosMeanNothing(b: string, base: nat, n: int)
    ensures ValueRev(b + Repeat('0', n), base) == ValueRev(b, base)
  {
    if b == "" {
      assert b + Repeat('0', n) == Repeat('0', n);
      ZeroIsNothing(Repeat('0', n), base);
    } else {
      assert (b + Repeat('0', n))[1..] == b[1..] + Repeat('0', n);
      ZerosMeanNothing(b[1..], base, n);
    }
  }

  lemma {:induction false} ZeroIsNothing(z: string, base: nat)
    requires forall i :: 0 <= i < |z| ==> z[i] == '0'
    ensures ValueRev(z, base) == 0
  {
    if z != "" {
      assert z[0] == '0';
      ZeroIsNothing(z[1..], base);
    }
  }

  // ---------- Reading back ----------

  function StripFront(s: string): string { if s != "" && s[0] == ' ' then StripFront(s[1..]) else s }

  function StripBack(s: string): string { if s != "" && s[|s| - 1] == ' ' then StripBack(s[..|s| - 1]) else s }

  /** A number as a reader takes it: spaces around it do not count. */
  function Parse(s: string, base: nat): int { Read(StripBack(StripFront(s)), base) }

  function Read(t: string, base: nat): int {
    if t != "" && t[0] == '-' then -(Value(t[1..], base) as int)
    else if t != "" && t[0] == '+' then Value(t[1..], base)
    else Value(t, base)
  }

  lemma {:induction false} FrontStripped(n: int, s: string)
    requires s != "" && s[0] != ' '
    ensures StripFront(Repeat(' ', n) + s) == s
    decreases if n < 0 then 0 else n
  {
    var t := Repeat(' ', n) + s;
    if n > 0 {
      assert t[0] == ' ';
      assert t[1..] == Repeat(' ', n - 1) + s;
      FrontStripped(n - 1, s);
    } else {
      assert t == s;
    }
  }

  lemma {:induction false} BackStripped(s: string, n: int)
    requires s != "" && s[|s| - 1] != ' '
    ensures StripBack(s + Repeat(' ', n)) == s
    decreases if n < 0 then 0 else n
  {
    var t := s + Repeat(' ', n);
    if n > 0 {
      assert t[|t| - 1] == ' ';
      assert t[..|t| - 1] == s + Repeat(' ', n - 1);
      BackStripped(s, n - 1);
    } else {
      assert t == s;
    }
  }

  lemma {:induction false} ReversedAt(b: string, i: nat)
    requires i < |b|
    ensures Reversed(b)[i] == b[|b| - 1 - i]
  {
    if i < |b| - 1 { ReversedAt(b[1..], i); }
  }

  lemma {:induction false} FrontGone(s: string)
    requires forall i :: 0 <= i < |s| ==> s[i] == ' '
    ensures StripFront(s) == ""
  {
    if s != "" { FrontGone(s[1..]); }
  }

  lemma BothStripped(n: nat, r: string, m: int)
    requires r != "" ==> r[0] != ' ' && r[|r| - 1] != ' '
    ensures StripBack(StripFront(Repeat(' ', n) + (r + Repeat(' ', m)))) == r
  {
    if r == "" {
      FrontGone(Repeat(' ', n) + (r + Repeat(' ', m)));
    } else {
      FrontStripped(n, r + Repeat(' ', m));
      BackStripped(r, m);
    }
  }

  // ---------- Printed numbers ----------

  function SignedValue(value: nat, negative: bool): int { if negative then 0 - value else value }

  function Most(a: nat, b: nat): nat { if a < b then b else a }

  function SignText(negative: bool, fl: Flags): (s: string)
    ensures |s| <= 1
  {
    if negative then "-" else if fl.plus then "+" else if fl.space then " " else ""
  }

  /** The number of digits with leading zeros. */
  function PaddedLength(n: nat, prec: nat, w: nat, fl: Flags): (m: nat)
    ensures m >= n
  {
    if fl.left then n
    else
      var m := Most(n, Least(prec, ROOM));
      if fl.zero then Most(m, Least(w, ROOM)) else m
  }

  lemma {:induction false} PushedReversed(b: string, c: char)
    requires |b| < ROOM
    ensures Reversed(Pushed(b, c)) == [c] + Reversed(b)
    decreases |b|
  {
    if b == "" {
      assert b + [c] == [c];
      assert [c][1..] == [];
    } else {
      assert (b + [c])[1..] == b[1..] + [c];
      PushedReversed(b[1..], c);
    }
  }

  lemma SignReversed(b: string, negative: bool, f: Flags)
    requires |b| <= ROOM
    ensures |b| < ROOM ==> Reversed(Signed(b, negative, f)) == SignText(negative, f) + Reversed(b)
    ensures |b| == ROOM ==> Signed(b, negative, f) == b
  {
    if |b| < ROOM {
      PushedReversed(b, '-');
      PushedReversed(b, '+');
      PushedReversed(b, ' ');
    }
  }

  lemma FieldIs(b: string, width: nat, fl: Flags) returns (n: nat, m: int)
    ensures InField(b, width, fl) == Repeat(' ', n) + (Reversed(b) + Repeat(' ', m))
    ensures |InField(b, width, fl)| == if (fl.zero && !fl.left) || width < |b| then |b| else width
  {
    n := if !fl.left && !fl.zero && |b| < width then width - |b| else 0;
    m := if fl.left then width - |b| else 0;
    assert InField(b, width, fl) == Repeat(' ', n) + (Reversed(b) + Repeat(' ', m));
  }

  lemma Unsigned(n: nat, z: string, m: int, base: nat)
    requires Digits(z)
    ensures Parse(Repeat(' ', n) + (Reversed(z) + Repeat(' ', m)), base) == ValueRev(z, base)
  {
    ValueOfReversed(z, base);
    if z != "" {
      ReversedAt(z, 0);
      ReversedAt(z, |z| - 1);
    }
    BothStripped(n, Reversed(z), m);
  }

  lemma WithSign(n: nat, c: char, z: string, m: int, base: nat)
    requires Digits(z) && (c == '+' || c == '-')
    ensures Parse(Repeat(' ', n) + (([c] + Reversed(z)) + Repeat(' ', m)), base) ==
            SignedValue(ValueRev(z, base), c == '-')
  {
    var r := [c] + Reversed(z);
    ValueOfReversed(z, base);
    if z != "" { ReversedAt(z, 0); }
    BothStripped(n, r, m);
    assert r[1..] == Reversed(z);
  }

  /** What is read of a sign and digits in a field: the signs '+' and ' ' do not count. */
  lemma ReadOfField(n: nat, sign: string, z: string, m: int, base: nat)
    requires Digits(z) && (sign == "" || sign == " " || sign == "+" || sign == "-")
    ensures Parse(Repeat(' ', n) + ((sign + Reversed(z)) + Repeat(' ', m)), base) ==
            SignedValue(ValueRev(z, base), sign == "-")
  {
    var r, post := Reversed(z), Repeat(' ', m);
    if sign == " " {
      assert Repeat(' ', n) + ((sign + r) + post) == Repeat(' ', n + 1) + (r + post);
      Unsigned(n + 1, z, m, base);
    } else if sign == "" {
      assert sign + r == r;
      Unsigned(n, z, m, base);
    } else {
      WithSign(n, sign[0], z, m, base);
    }
  }

  /** Digits with a sign in their field: the sign is lost if they fill the buffer. */
  lemma SignedField(z: string, negative: bool, base: nat, width: nat, fl: Flags)
    requires Digits(z) && |z| <= ROOM
    ensures var t, n := InField(Signed(z, negative, fl), width, fl), |z| + |SignText(negative, fl)|;
      && Parse(t, base) == SignedValue(ValueRev(z, base), negative && |z| < ROOM)
      && |t| == var m := Least(n, ROOM); if (fl.zero && !fl.left) || width < m then m else width
  {
    var s := Signed(z, negative, fl);
    var n, m := FieldIs(s, width, fl);
    SignReversed(z, negative, fl);
    var sign := if |z| < ROOM then SignText(negative, fl) else "";
    assert Reversed(s) == sign + Reversed(z);
    ReadOfField(n, sign, z, m, base);
  }

  /** The digits of a number with zeros in front. */
  lemma PaddedDigits(value: nat, base: nat, prec: nat, w: nat, fl: Flags)
    requires IsBase(base)
    ensures var d := NumberDigits(value, base, fl); var z := ZeroPadded(d, prec, w, fl);
      && Digits(z) && |z| == PaddedLength(|d|, prec, w, fl) && ValueRev(z, base) == ValueRev(d, base)
  {
    var d := NumberDigits(value, base, fl);
    DigitsAreDigits(value, base, fl.upper, ROOM);
    ZerosMeanNothing(d, base, Least(prec, ROOM) - |d|);
    var z := ZerosTo(d, prec);
    ZerosMeanNothing(z, base, Least(w, ROOM) - |z|);
  }

  /** The digits stand for the value exactly when there is room for them. */
  lemma DigitsTell(value: nat, base: nat, fl: Flags)
    requires IsBase(base)
    ensures ValueRev(NumberDigits(value, base, fl), base) == value <==> value < Pow(base, ROOM)
    ensures ValueRev(NumberDigits(value, base, fl), base) <= value
  {
    if value < Pow(base, ROOM) {
      DigitsMean(value, base, fl.upper, ROOM);
    } else {
      PowPositive(base, ROOM);
      DigitsBelow(value, base, fl.upper, ROOM);
    }
  }

  /** The number of digits and zeros that the conversion of x has. */
  function PlacesOf(x: int, base: nat, prec: nat, width: nat, fl: Flags): nat
    requires IsBase(base)
  {
    PaddedLength(|NumberDigits(Magnitude(x), base, fl)|, prec, ZeroWidth(x < 0, width, fl), fl)
  }

  /** The number keeps its value: its digits fit the 32 places of the buffer, and
      a negative one has a place for its sign there besides the zeros that width
      and precision ask for. */
  predicate Kept(x: int, base: nat, prec: nat, width: nat, fl: Flags)
    requires IsBase(base)
  {
    Magnitude(x) < Pow(base, ROOM) && (x < 0 ==> PlacesOf(x, base, prec, width, fl) < ROOM)
  }

  /** t is read back as x exactly when x keeps its value. */
  ghost predicate ReadsBack(t: string, x: int, base: nat, prec: nat, width: nat, fl: Flags)
    requires IsBase(base)
  {
    Parse(t, base) == x <==> Kept(x, base, prec, width, fl)
  }

  /** The length of t is that of x with its sign, or the width. */
  ghost predicate FillsField(t: string, x: int, base: nat, prec: nat, width: nat, fl: Flags)
    requires IsBase(base)
  {
    |t| == var m := Least(PlacesOf(x, base, prec, width, fl) + |SignText(x < 0, fl)|, ROOM);
           if (fl.zero && !fl.left) || width < m then m else width
  }

  ghost predicate Faithful(t: string, x: int, base: nat, prec: nat, width: nat, fl: Flags)
    requires IsBase(base)
  {
    ReadsBack(t, x, base, prec, width, fl) && FillsField(t, x, base, prec, width, fl)
  }

  lemma FieldParts(d: string, negative: bool, base: nat, prec: nat, width: nat, fl: Flags)
    requires |d| <= ROOM && !fl.hash
    ensures var w := ZeroWidth(negative, width, fl);
      FieldText(d, negative, base, prec, width, fl) == InField(Signed(ZeroPadded(d, prec, w, fl), negative, fl), w, fl)
  {
  }

  lemma FieldReads(x: int, z: string, t: string, base: nat, prec: nat, width: nat, fl: Flags)
    requires IsBase(base) && |z| == PlacesOf(x, base, prec, width, fl) <= ROOM
    requires ValueRev(z, base) == Magnitude(x) <==> Magnitude(x) < Pow(base, ROOM)
    requires ValueRev(z, base) <= Magnitude(x)
    requires Parse(t, base) == SignedValue(ValueRev(z, base), x < 0 && |z| < ROOM)
    ensures ReadsBack(t, x, base, prec, width, fl)
  {
  }

  /** A printed number of any size, with any width and precision and all flags but
      '#', is read back as it was exactly when it keeps its value. */
  lemma NumberParsesBack(x: int, base: nat, prec: nat, width: nat, fl: Flags)
    requires IsBase(base) && !fl.hash
    ensures Faithful(NumberText(Magnitude(x), x < 0, base, prec, width, fl), x, base, prec, width, fl)
  {
    var value, w := Magnitude(x), ZeroWidth(x < 0, width, fl);
    var d := NumberDigits(value, base, fl);
    var z := ZeroPadded(d, prec, w, fl);
    FieldParts(d, x < 0, base, prec, width, fl);
    PaddedDigits(value, base, prec, w, fl);
    DigitsTell(value, base, fl);
    SignedField(z, x < 0, base, w, fl);
    FieldReads(x, z, NumberText(value, x < 0, base, prec, width, fl), base, prec, width, fl);
  }

  /** A 32-bit number without precision loses nothing but its sign, and that only
      if zeros are to fill more than 32 places. */
  lemma WordKept(x: int, base: nat, width: nat, fl: Flags)
    requires IsBase(base) && Magnitude(x) < W && !fl.precision && (x < 0 ==> base == 10)
    ensures Kept(x, base, 0, width, fl) <==> !(x < 0 && fl.zero && !fl.left && width > ROOM)
  {
    WordDigits(Magnitude(x), base);
    if x < 0 { DigitsShort(Magnitude(x), base, fl.upper, ROOM, 11); }
  }

  /** "%llb" of 2^32: the 33rd digit is missing. */
  lemma LongLosesDigit()
    ensures Parse(NumberText(W, false, 2, 0, 0, NoFlags), 2) != W
  {
    Powers();
    NumberParsesBack(W, 2, 0, 0, NoFlags);
  }

  /** "%.32d" of -1: the zeros take the place of the sign. */
  lemma PrecisionLosesSign()
    ensures Parse(NumberText(1, true, 10, 32, 0, NoFlags.(precision := true)), 10) != -1
  {
    NumberParsesBack(-1, 10, 32, 0, NoFlags.(precision := true));
  }

  /** The same for a whole conversion: what %d, %i, %u, %x, %X, %o or %b prints of
      an argument of any size, with any width and precision. */
  lemma ConversionParsesBack(c: char, p: Parsed, args: seq<Arg>)
    requires IsNumber(c) && !NumberFlags(c, p.fl).hash
    ensures var fl := NumberFlags(c, p.fl);
      Faithful(Converted(c, p, args), NumberArg(c, fl, args, p.k), BaseOf(c), p.prec, p.width, fl)
  {
    var fl := NumberFlags(c, p.fl);
    NumberParsesBack(NumberArg(c, fl, args, p.k), BaseOf(c), p.prec, p.width, fl);
  }
}
