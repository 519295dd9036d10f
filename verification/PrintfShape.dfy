/** What a printed number looks like: numeral, zeros, prefix and sign, and where
    they stand in the field. */
module PrintfShape {
  import opened PrintfText
  import opened PrintfNumbers
  import opened PrintfPrefix

  // ---------- Numerals ----------

  function Letters(upper: bool): (s: string)
    ensures |s| == 16
  {
    if upper then "0123456789ABCDEF" else "0123456789abcdef"
  }

  /** One more digit makes the value base times as large and adds its own. */
  lemma ValueIs(s: string, v: nat, upper: bool, base: nat)
    requires v < 16 && IsBase(base)
    ensures Value("", base) == 0 && Value(s + [Letters(upper)[v]], base) == base * Value(s, base) + v
  {
    LettersAre(v, upper);
    var t := s + [Letters(upper)[v]];
    assert t[..|t| - 1] == s;
  }

  lemma LettersAre(v: nat, upper: bool)
    requires v < 16
    ensures Letters(upper)[v] == DigitChar(v, upper) && DigitValue(Letters(upper)[v]) == v
  {
  }

  /** s is the value in the given base, without zeros in front. */
  ghost predicate IsNumeral(s: string, value: nat, base: nat, upper: bool) {
    && s != "" && base <= 16 && Value(s, base) == value && (value > 0 ==> s[0] != '0') && (value == 0 ==> s == "0")
    && forall i :: 0 <= i < |s| ==> s[i] in Letters(upper)[..base]
  }

  ghost predicate LettersOnly(b: string, base: nat, upper: bool)
    requires base <= 16
  {
    forall i :: 0 <= i < |b| ==> b[i] in Letters(upper)[..base]
  }

  lemma {:induction false} DigitsAreLetters(value: nat, base: nat, upper: bool, room: nat)
    requires IsBase(base) && room > 0
    ensures LettersOnly(DigitsRev(value, base, upper, room), base, upper)
    decreases value
  {
    Divided(value, base);
    LettersAre(Low(value, base), upper);
    assert Letters(upper)[..base][Low(value, base)] == LowDigit(value, base, upper);
    if Higher(value, base) != 0 && room > 1 { DigitsAreLetters(Higher(value, base), base, upper, room - 1); }
  }

  lemma {:induction false} Enough(value: nat, base: nat)
    requires IsBase(base)
    ensures value < Pow(base, value + 1)
    decreases value
  {
    assert Pow(base, value + 1) == Times(Pow(base, value), base);
    if value > 0 { Enough(value - 1, base); }
  }

  /** Less room only takes the highest digits away. */
  lemma {:induction false} RoomOnlyCuts(value: nat, base: nat, upper: bool, room: nat, more: nat)
    requires IsBase(base) && 0 < room <= more
    ensures var d, all := DigitsRev(value, base, upper, room), DigitsRev(value, base, upper, more);
      |d| == Least(|all|, room) && d == all[..|d|]
    decreases value
  {
    Divided(value, base);
    var rest := Higher(value, base);
    var d, all := DigitsRev(value, base, upper, room), DigitsRev(value, base, upper, more);
    DigitsStep(value, base, upper, room);
    DigitsStep(value, base, upper, more);
    if rest != 0 && room > 1 {
      RoomOnlyCuts(rest, base, upper, room - 1, more - 1);
      var d1, all1 := DigitsRev(rest, base, upper, room - 1), DigitsRev(rest, base, upper, more - 1);
      assert all == [LowDigit(value, base, upper)] + all1 && d == [LowDigit(value, base, upper)] + d1;
    }
  }

  /** The last 32 characters, for which the conversion buffer has room. */
  function Last32(s: string): (r: string) { if |s| <= 32 then s else s[|s| - 32..] }

  /** With room for all of them the digits are the numeral. */
  lemma AllDigits(value: nat, base: nat, upper: bool, room: nat)
    requires IsBase(base) && room > 0 && value < Pow(base, room)
    ensures IsNumeral(Reversed(DigitsRev(value, base, upper, room)), value, base, upper)
  {
    var all := DigitsRev(value, base, upper, room);
    DigitsMean(value, base, upper, room);
    ValueOfReversed(all, base);
    DigitsAreLetters(value, base, upper, room);
    ReversedLetters(all, base, upper);
    FirstOfNumeral(value, base, upper, room);
  }

  lemma ReversedLetters(b: string, base: nat, upper: bool)
    requires base <= 16 && LettersOnly(b, base, upper)
    ensures LettersOnly(Reversed(b), base, upper)
  {
    forall i | 0 <= i < |b| ensures Reversed(b)[i] in Letters(upper)[..base] { ReversedAt(b, i); }
  }

  lemma FirstOfNumeral(value: nat, base: nat, upper: bool, room: nat)
    requires IsBase(base) && room > 0 && value < Pow(base, room)
    ensures var s := Reversed(DigitsRev(value, base, upper, room));
      s != "" && (value > 0 ==> s[0] != '0') && (value == 0 ==> s == "0")
  {
    var all := DigitsRev(value, base, upper, room);
    ReversedAt(all, 0);
    if value > 0 {
      DigitsAreOf(value, base, upper, room);
    } else {
      DigitsStep(0, base, upper, room);
      assert all == ['0'] && all[1..] == "";
    }
  }

  /** The digits in the buffer are the last ones of the numeral. */
  lemma DigitsOfNumeral(value: nat, base: nat, upper: bool) returns (numeral: string)
    requires IsBase(base)
    ensures IsNumeral(numeral, value, base, upper) && Reversed(DigitsRev(value, base, upper, ROOM)) == Last32(numeral)
  {
    var room := if value + 1 < ROOM then ROOM else value + 1;
    var all := DigitsRev(value, base, upper, room);
    numeral := Reversed(all);
    Enough(value, base);
    PowMore(base, value + 1, room);
    AllDigits(value, base, upper, room);
    RoomOnlyCuts(value, base, upper, ROOM, room);
    LastReversed(all, DigitsRev(value, base, upper, ROOM));
  }

  lemma LastReversed(all: string, d: string)
    requires |d| == Least(|all|, ROOM) && d == all[..|d|]
    ensures Reversed(d) == Last32(Reversed(all))
  {
    FrontReversed(all, |d|);
    assert all[..|all|] == all;
  }

  lemma {:induction false} PowMore(base: nat, k: nat, n: nat)
    requires IsBase(base) && k <= n
    ensures Pow(base, k) <= Pow(base, n)
    decreases n
  {
    if k < n { PowMore(base, k, n - 1); }
  }

  // ---------- Numbers in their field ----------

  /** How a number is to be printed. */
  datatype Style = Style(base: nat, upper: bool, sign: string, prefix: string, left: bool, zero: bool,
                         precise: bool, prec: nat, width: nat)

  /** The places that zeros are to fill: one less if there is a sign. */
  function FillWidth(st: Style): int {
    if st.zero && !st.left && st.width > 0 then st.width - |st.sign| else st.width
  }

  /** The number of zeros in front of n digits. */
  function ZerosBefore(n: nat, st: Style): int {
    if st.left then 0
    else Largest(0, Largest(Least(st.prec, 32), if st.zero then Least(FillWidth(st), 32) else 0) - n)
  }

  function Largest(a: int, b: int): int { if a < b then b else a }

  /** The number of characters that the prefix displaces: its own places in the
      field, if the n zeros and digits have used it up. */
  function Displaced(n: nat, st: Style): (k: nat)
    ensures k <= n
  {
    if st.prefix == "" || st.precise || n == 0 || (n != st.prec && n != FillWidth(st)) then 0
    else if st.base == 16 && n > 1 then 2 else 1
  }

  /** Sign, prefix, zeros and digits, as far as there are places for them. */
  function Body(digits: string, st: Style): string {
    var z := Repeat('0', ZerosBefore(|digits|, st)) + digits;
    Last32(st.sign + (st.prefix + z[Displaced(|z|, st)..]))
  }

  /** t is the body with spaces up to the width, behind it or in front of it. */
  ghost predicate Placed(t: string, body: string, width: int, left: bool) {
    && |t| == Largest(|body|, width)
    && (if left then t[..|body|] == body && Spaces(t[|body|..])
        else t[|t| - |body|..] == body && Spaces(t[..|t| - |body|]))
  }

  ghost predicate Spaces(s: string) { forall i :: 0 <= i < |s| ==> s[i] == ' ' }

  /** The number with this numeral, printed in this style: it stands in its field as
      '-' says, but where zeros are to fill the field there are no spaces. */
  ghost predicate NumberShown(t: string, numeral: string, st: Style) {
    var body := Body(Last32(numeral), st);
    if st.zero && !st.left then t == body else Placed(t, body, st.width, st.left)
  }

  lemma LastTwice(a: string, s: string)
    ensures Last32(a + Last32(s)) == Last32(a + s)
  {
    if |s| > 32 {
      var x, y := Last32(a + Last32(s)), Last32(a + s);
      assert forall i :: 0 <= i < 32 ==> x[i] == y[i];
    }
  }

  lemma PushedLast(b: string, c: char)
    requires |b| <= ROOM
    ensures Reversed(Pushed(b, c)) == Last32([c] + Reversed(b))
  {
    if |b| < ROOM {
      PushedReversed(b, c);
    } else {
      assert ([c] + Reversed(b))[1..] == Reversed(b);
    }
  }

  lemma TwoPushed(b: string, c: char, e: char)
    requires |b| <= ROOM
    ensures Reversed(Pushed(Pushed(b, c), e)) == Last32([e, c] + Reversed(b))
  {
    PushedLast(b, c);
    PushedLast(Pushed(b, c), e);
    TwoInFront(e, c, Reversed(b));
  }

  lemma TwoInFront(e: char, c: char, r: string)
    ensures Last32([e] + Last32([c] + r)) == Last32([e, c] + r)
  {
    LastTwice([e], [c] + r);
    assert [e] + ([c] + r) == [e, c] + r;
  }

  lemma SignLast(b: string, negative: bool, fl: Flags)
    requires |b| <= ROOM
    ensures Reversed(Signed(b, negative, fl)) == Last32(SignText(negative, fl) + Reversed(b))
  {
    PushedLast(b, if negative then '-' else if fl.plus then '+' else ' ');
    assert "" + Reversed(b) == Reversed(b);
  }

  lemma PrefixLast(b: string, base: nat, fl: Flags)
    requires |b| <= ROOM && IsBase(base) && base != 10 && fl.hash
    ensures Reversed(Prefixed(b, base, fl)) == Last32(PrefixText(base, fl) + Reversed(b))
  {
    if base == 16 {
      TwoPushed(b, if fl.upper then 'X' else 'x', '0');
    } else if base == 2 {
      TwoPushed(b, 'b', '0');
    } else {
      PushedLast(b, '0');
    }
  }

  lemma HashedIs(b: string, base: nat, prec: nat, w: nat, fl: Flags)
    requires |b| <= ROOM && fl.hash
    ensures Hashed(b, base, prec, w, fl) == Prefixed(b[..|b| - Dropped(|b|, base, prec, w, fl)], base, fl)
  {
    assert b[..|b|] == b;
    if |b| > 1 { assert b[..|b| - 1][..|b| - 2] == b[..|b| - 2]; }
  }

  lemma HashedLast(b: string, base: nat, prec: nat, w: nat, fl: Flags)
    requires |b| <= ROOM && IsBase(base) && (base == 10 ==> !fl.hash)
    ensures Reversed(Hashed(b, base, prec, w, fl)) ==
            Last32(PrefixText(base, fl) + Reversed(b)[Dropped(|b|, base, prec, w, fl)..])
  {
    if fl.hash {
      HashedIs(b, base, prec, w, fl);
      FewerReversed(b, Dropped(|b|, base, prec, w, fl), base, fl);
    } else {
      NothingInFront(Reversed(b));
    }
  }

  lemma FewerReversed(b: string, k: nat, base: nat, fl: Flags)
    requires k <= |b| <= ROOM && IsBase(base) && base != 10 && fl.hash
    ensures Reversed(Prefixed(b[..|b| - k], base, fl)) == Last32(PrefixText(base, fl) + Reversed(b)[k..])
  {
    FrontReversed(b, |b| - k);
    PrefixLast(b[..|b| - k], base, fl);
  }

  lemma NothingInFront(r: string)
    ensures "" + r[0..] == r
  {
  }

  lemma ZerosReversed(b: string, d: string, n: int)
    requires b == d + Repeat('0', n)
    ensures Reversed(b) == Repeat('0', n) + Reversed(d)
  {
    var z := Repeat('0', n);
    ReversedSplit(d, z);
    forall i | 0 <= i < |z| ensures Reversed(z)[i] == '0' { ReversedAt(z, i); }
    assert Reversed(z) == z;
  }

  /** A number as flags, width and precision say. */
  function StyleWith(negative: bool, base: nat, prec: nat, width: nat, fl: Flags): Style {
    Style(base, fl.upper, SignText(negative, fl), PrefixText(base, fl), fl.left, fl.zero, fl.precision, prec, width)
  }

  lemma ZerosShown(d: string, prec: nat, w: nat, fl: Flags, st: Style)
    requires |d| <= ROOM && st.left == fl.left && st.zero == fl.zero && st.prec == prec && FillWidth(st) == w
    ensures Reversed(ZeroPadded(d, prec, w, fl)) == Repeat('0', ZerosBefore(|d|, st)) + Reversed(d)
  {
    ZerosCount(|d|, prec, w, fl, st);
    ZerosAre(d, prec, w, fl, ZerosBefore(|d|, st));
    ZerosReversed(ZeroPadded(d, prec, w, fl), d, ZerosBefore(|d|, st));
  }

  lemma ZerosCount(n: nat, prec: nat, w: nat, fl: Flags, st: Style)
    requires n <= ROOM && st.left == fl.left && st.zero == fl.zero && st.prec == prec && FillWidth(st) == w
    ensures PaddedLength(n, prec, w, fl) == n + ZerosBefore(n, st)
  {
  }

  lemma ZerosAre(d: string, prec: nat, w: nat, fl: Flags, n: int)
    requires |d| <= ROOM && PaddedLength(|d|, prec, w, fl) == |d| + n
    ensures ZeroPadded(d, prec, w, fl) == d + Repeat('0', n)
  {
    var z := ZeroPadded(d, prec, w, fl);
    assert forall i :: |d| <= i < |z| ==> z[i] == '0';
  }

  lemma FieldPlaced(b: string, width: nat, fl: Flags)
    ensures var t := InField(b, width, fl);
      if fl.zero && !fl.left then t == Reversed(b) else Placed(t, Reversed(b), width, fl.left)
  {
    var t, r := InField(b, width, fl), Reversed(b);
    if fl.left {
      assert t == r + Repeat(' ', width - |b|);
    } else if fl.zero {
      assert t == r;
    } else {
      assert t == Repeat(' ', width - |b|) + r;
    }
  }

  lemma DisplacedIs(n: nat, negative: bool, base: nat, prec: nat, width: nat, fl: Flags)
    requires IsBase(base) && (base == 10 ==> !fl.hash)
    ensures Dropped(n, base, prec, ZeroWidth(negative, width, fl), fl) ==
            Displaced(n, StyleWith(negative, base, prec, width, fl))
    ensures FillWidth(StyleWith(negative, base, prec, width, fl)) == ZeroWidth(negative, width, fl)
  {
  }

  /** Prefix, zeros and digits. */
  lemma UnsignedBody(d: string, negative: bool, base: nat, prec: nat, width: nat, fl: Flags)
    requires |d| <= ROOM && IsBase(base) && (base == 10 ==> !fl.hash)
    ensures var w, st := ZeroWidth(negative, width, fl), StyleWith(negative, base, prec, width, fl);
      var z := Repeat('0', ZerosBefore(|d|, st)) + Reversed(d);
      Reversed(Hashed(ZeroPadded(d, prec, w, fl), base, prec, w, fl)) ==
      Last32(st.prefix + z[Displaced(|z|, st)..])
  {
    var w, st := ZeroWidth(negative, width, fl), StyleWith(negative, base, prec, width, fl);
    var z := ZeroPadded(d, prec, w, fl);
    DisplacedIs(|z|, negative, base, prec, width, fl);
    ZerosShown(d, prec, w, fl, st);
    HashedLast(z, base, prec, w, fl);
  }

  lemma BodyIs(d: string, negative: bool, base: nat, prec: nat, width: nat, fl: Flags)
    requires |d| <= ROOM && IsBase(base) && (base == 10 ==> !fl.hash)
    ensures var w := ZeroWidth(negative, width, fl);
      Reversed(Signed(Hashed(ZeroPadded(d, prec, w, fl), base, prec, w, fl), negative, fl)) ==
      Body(Reversed(d), StyleWith(negative, base, prec, width, fl))
  {
    var w, st := ZeroWidth(negative, width, fl), StyleWith(negative, base, prec, width, fl);
    var z := Repeat('0', ZerosBefore(|d|, st)) + Reversed(d);
    UnsignedBody(d, negative, base, prec, width, fl);
    SignLast(Hashed(ZeroPadded(d, prec, w, fl), base, prec, w, fl), negative, fl);
    LastTwice(st.sign, st.prefix + z[Displaced(|z|, st)..]);
  }

  /** Every number, with every width, precision and set of flags. */
  lemma NumberIsShown(value: nat, negative: bool, base: nat, prec: nat, width: nat, fl: Flags)
    returns (numeral: string)
    requires IsBase(base) && (base == 10 ==> !fl.hash)
    ensures IsNumeral(numeral, value, base, fl.upper)
    ensures NumberShown(NumberText(value, negative, base, prec, width, fl),
                        if fl.precision && value == 0 then "" else numeral,
                        StyleWith(negative, base, prec, width, ValueFlags(value, fl)))
  {
    numeral := DigitsOfNumeral(value, base, fl.upper);
    var f, d := ValueFlags(value, fl), NumberDigits(value, base, fl);
    var w := ZeroWidth(negative, width, f);
    BodyIs(d, negative, base, prec, width, f);
    FieldPlaced(Signed(Hashed(ZeroPadded(d, prec, w, f), base, prec, w, f), negative, f), w, f);
  }
}
