/** Signs and the prefixes that '#' asks for: when they are complete, and when
    they cost digits. */
module PrintfPrefix {
  import opened PrintfText
  import opened PrintfNumbers

  function PrefixText(base: nat, fl: Flags): string {
    if !fl.hash then "" else if base == 16 then (if fl.upper then "0X" else "0x") else if base == 2 then "0b" else "0"
  }

  // ---------- Without width and precision ----------

  /** Without width and precision a number is a sign, the prefix of its base (but
      for the value 0) and its digits, exactly when they fit the conversion buffer. */
  lemma SignAndPrefix(value: nat, negative: bool, base: nat, fl: Flags)
    requires IsBase(base)
    ensures var d, f := NumberDigits(value, base, fl), ValueFlags(value, fl);
      NumberText(value, negative, base, 0, 0, fl) == SignText(negative, f) + (PrefixText(base, f) + Reversed(d)) <==>
      |d| + |PrefixText(base, f)| + |SignText(negative, f)| <= ROOM
  {
    PlainField(NumberDigits(value, base, fl), negative, base, ValueFlags(value, fl));
  }

  lemma PlainField(d: string, negative: bool, base: nat, f: Flags)
    requires |d| <= ROOM && (f.hash ==> d != "")
    ensures FieldText(d, negative, base, 0, 0, f) == SignText(negative, f) + (PrefixText(base, f) + Reversed(d)) <==>
            |d| + |PrefixText(base, f)| + |SignText(negative, f)| <= ROOM
  {
    assert ZerosTo(d, 0) == d;
    var h := Hashed(d, base, 0, 0, f);
    BareField(Signed(h, negative, f), f);
    if |d| + |PrefixText(base, f)| + |SignText(negative, f)| <= ROOM {
      PrefixReversed(d, base, f);
      SignReversed(h, negative, f);
    } else {
      assert |FieldText(d, negative, base, 0, 0, f)| <= ROOM;
    }
  }

  lemma BareField(b: string, f: Flags)
    ensures InField(b, 0, f) == Reversed(b)
  {
    assert "" + Reversed(b) + "" == Reversed(b);
  }

  lemma PrefixReversed(d: string, base: nat, f: Flags)
    requires |d| + |PrefixText(base, f)| <= ROOM && (f.hash ==> d != "")
    ensures var h := Hashed(d, base, 0, 0, f);
      |h| == |d| + |PrefixText(base, f)| && Reversed(h) == PrefixText(base, f) + Reversed(d)
  {
    if f.hash {
      var c := if base == 16 then (if f.upper then 'X' else 'x') else 'b';
      var e := if base == 16 || base == 2 then Pushed(d, c) else d;
      if base == 16 || base == 2 { PushedReversed(d, c); }
      PushedReversed(e, '0');
    }
  }

  // ---------- With any width and precision ----------

  ghost predicate StartsWith(t: string, s: string) { |s| <= |t| && t[..|s|] == s }

  ghost predicate EndsWith(t: string, s: string) { |s| <= |t| && t[|t| - |s|..] == s }

  lemma PaddedLengthIs(d: string, prec: nat, w: nat, fl: Flags)
    requires |d| <= ROOM
    ensures |ZeroPadded(d, prec, w, fl)| == PaddedLength(|d|, prec, w, fl) && StartsWith(ZeroPadded(d, prec, w, fl), d)
  {
  }

  /** How many of n characters make room for a prefix: none, unless they use the
      width or the precision up. */
  function Dropped(n: nat, base: nat, prec: nat, w: nat, fl: Flags): (k: nat)
    ensures k <= n
  {
    if !fl.hash || fl.precision || n == 0 || (n != prec && n != w) then 0 else if base == 16 && n > 1 then 2 else 1
  }

  ghost predicate DigitsOf(d: string, base: nat) {
    && d != "" && d[|d| - 1] != '0' && Digits(d)
    && forall i :: 0 <= i < |d| ==> d[i] != 'x' && d[i] != 'X' && d[i] != '+' && (base == 2 ==> d[i] != 'b')
  }

  lemma {:induction false} DigitsAreOf(value: nat, base: nat, upper: bool, room: nat)
    requires IsBase(base) && room > 0 && 0 < value < Pow(base, room)
    ensures DigitsOf(DigitsRev(value, base, upper, room), base)
    decreases room
  {
    var d, rest := DigitsRev(value, base, upper, room), Higher(value, base);
    Divided(value, base);
    DigitRoundTrip(Low(value, base), upper);
    assert Pow(base, room) == Times(Pow(base, room - 1), base);
    if rest != 0 && room > 1 {
      DigitsAreOf(rest, base, upper, room - 1);
      assert d == [LowDigit(value, base, upper)] + DigitsRev(rest, base, upper, room - 1);
    } else {
      assert d == [LowDigit(value, base, upper)];
    }
  }

  lemma PushedStarts(b: string, c: char)
    requires |b| <= ROOM
    ensures StartsWith(Pushed(b, c), b) && (|b| < ROOM ==> Pushed(b, c) == b + [c])
  {
  }

  lemma StartsFurther(t: string, u: string, s: string)
    requires StartsWith(t, u) && StartsWith(u, s)
    ensures StartsWith(t, s)
  {
    assert t[..|s|] == t[..|u|][..|s|];
  }

  /** The character that the prefix begins with, as the text is held in reverse. */
  function PrefixStart(base: nat, fl: Flags): char {
    if base == 16 then (if fl.upper then 'X' else 'x') else if base == 2 then 'b' else '0'
  }

  /** What is left of the characters stays in place, and the prefix follows. */
  lemma HashedStarts(b: string, base: nat, prec: nat, w: nat, fl: Flags)
    requires |b| <= ROOM
    ensures var k, h := Dropped(|b|, base, prec, w, fl), Hashed(b, base, prec, w, fl);
      StartsWith(h, b[..|b| - k]) && (k > 0 ==> |h| > |b| - k && h[|b| - k] == PrefixStart(base, fl))
  {
    var k, h := Dropped(|b|, base, prec, w, fl), Hashed(b, base, prec, w, fl);
    if fl.hash {
      var b2 := b[..|b| - k];
      assert k == 2 ==> b[..|b| - 1][..|b| - 2] == b2;
      var c := PrefixStart(base, fl);
      PushedStarts(b2, c);
      if base == 16 || base == 2 {
        PushedStarts(Pushed(b2, c), '0');
        assert h == Pushed(Pushed(b2, c), '0');
        StartsFurther(h, Pushed(b2, c), b2);
        assert k > 0 ==> h[|b2|] == Pushed(b2, c)[|b2|];
      } else {
        assert h == Pushed(b2, '0');
      }
    } else {
      assert b[..|b|] == b;
    }
  }

  /** The prefix leaves the digits alone exactly when the characters dropped for
      it are leading zeros. */
  lemma HashKeeps(d: string, b: string, base: nat, prec: nat, w: nat, fl: Flags)
    requires DigitsOf(d, base) && StartsWith(b, d) && |b| <= ROOM
    ensures StartsWith(Hashed(b, base, prec, w, fl), d) <==> Dropped(|b|, base, prec, w, fl) <= |b| - |d|
    ensures var h := Hashed(b, base, prec, w, fl); h != "" && h[0] != ' '
  {
    var k, h := Dropped(|b|, base, prec, w, fl), Hashed(b, base, prec, w, fl);
    HashedStarts(b, base, prec, w, fl);
    assert d[0] == b[0];
    if k < |b| { assert h[0] == h[..|b| - k][0] == b[0]; }
    if k <= |b| - |d| {
      assert b[..|b| - k][..|d|] == d;
      StartsFurther(h, b[..|b| - k], d);
    } else {
      assert h[|b| - k] != d[|b| - k];
    }
  }

  lemma SignKeeps(d: string, h: string, base: nat, negative: bool, fl: Flags)
    requires DigitsOf(d, base) && |h| <= ROOM
    ensures StartsWith(Signed(h, negative, fl), d) <==> StartsWith(h, d)
  {
    var s := Signed(h, negative, fl);
    if |s| > |h| { assert s[|h|] != d[|d| - 1]; }
  }

  lemma {:induction false} ReversedSplit(a: string, b: string)
    ensures Reversed(a + b) == Reversed(b) + Reversed(a)
  {
    if a == "" {
      assert a + b == b;
    } else {
      assert (a + b)[1..] == a[1..] + b;
      ReversedSplit(a[1..], b);
    }
  }

  lemma {:induction false} ReversedTwice(a: string)
    ensures Reversed(Reversed(a)) == a
  {
    if a != "" {
      ReversedSplit(Reversed(a[1..]), [a[0]]);
      ReversedTwice(a[1..]);
      assert [a[0]][1..] == "";
    }
  }

  lemma FrontReversed(s: string, n: nat)
    requires n <= |s|
    ensures Reversed(s)[|s| - n..] == Reversed(s[..n])
  {
    assert s == s[..n] + s[n..];
    ReversedSplit(s[..n], s[n..]);
  }

  /** Spaces in front do not matter for how a number ends. */
  lemma EndsAsItStarts(n: int, s: string, d: string, base: nat)
    requires DigitsOf(d, base)
    ensures EndsWith(Repeat(' ', n) + Reversed(s), Reversed(d)) <==> StartsWith(s, d)
  {
    var pre, r := Repeat(' ', n), Reversed(d);
    var t := pre + Reversed(s);
    if |d| <= |s| {
      FrontReversed(s, |d|);
      assert t[|t| - |d|..] == Reversed(s)[|s| - |d|..];
      ReversedTwice(d);
      ReversedTwice(s[..|d|]);
    } else if |d| <= |t| {
      ReversedAt(d, |d| - |s| - 1);
      assert t[|t| - |d|..][|d| - |s| - 1] == ' ';
    }
  }

  /** With any width and precision the digits of a number are printed in full,
      exactly when the characters that make room for the prefix are zeros. */
  lemma DigitsSurvive(value: Word, negative: bool, base: nat, prec: nat, width: nat, fl: Flags)
    requires IsBase(base) && value > 0
    ensures var d, w := DigitsRev(value, base, fl.upper, ROOM), ZeroWidth(negative, width, fl);
      var n := PaddedLength(|d|, prec, w, fl);
      EndsWith(StripBack(NumberText(value, negative, base, prec, width, fl)), Reversed(d)) <==>
      Dropped(n, base, prec, w, fl) <= n - |d|
  {
    var d, w := DigitsRev(value, base, fl.upper, ROOM), ZeroWidth(negative, width, fl);
    WordDigits(value, base);
    DigitsAreOf(value, base, fl.upper, ROOM);
    FieldSurvives(d, negative, base, prec, w, fl);
  }

  lemma FieldSurvives(d: string, negative: bool, base: nat, prec: nat, w: nat, fl: Flags)
    requires DigitsOf(d, base) && |d| <= ROOM
    ensures var n := PaddedLength(|d|, prec, w, fl);
      var s := Signed(Hashed(ZeroPadded(d, prec, w, fl), base, prec, w, fl), negative, fl);
      EndsWith(StripBack(InField(s, w, fl)), Reversed(d)) <==> Dropped(n, base, prec, w, fl) <= n - |d|
  {
    var b := ZeroPadded(d, prec, w, fl);
    var h := Hashed(b, base, prec, w, fl);
    var s := Signed(h, negative, fl);
    PaddedLengthIs(d, prec, w, fl);
    HashKeeps(d, b, base, prec, w, fl);
    SignKeeps(d, h, base, negative, fl);
    var pre := if !fl.left && !fl.zero then w - |s| else 0;
    BackOfField(s, w, fl);
    EndsAsItStarts(pre, s, d, base);
  }

  lemma BackOfField(s: string, w: nat, fl: Flags)
    requires s != "" && s[0] != ' '
    ensures StripBack(InField(s, w, fl)) == Repeat(' ', if !fl.left && !fl.zero then w - |s| else 0) + Reversed(s)
  {
    var pre := Repeat(' ', if !fl.left && !fl.zero then w - |s| else 0);
    var post := if fl.left then w - |s| else 0;
    ReversedAt(s, |s| - 1);
    assert InField(s, w, fl) == (pre + Reversed(s)) + Repeat(' ', post);
    BackStripped(pre + Reversed(s), post);
  }

  // ---------- Two inputs ----------

  const Hash: Flags := NoFlags.(hash := true)

  /** "%#4x" of 0xABCD: the width is used up by the digits, and two of them go. */
  lemma HashLosesDigits()
    ensures NumberText(0xABCD, false, 16, 0, 4, Hash) == "0xcd"
  {
    var d := DigitsRev(0xABCD, 16, false, ROOM);
    assert d == "dcba" by {
      DigitsStep(0xABCD, 16, false, ROOM);
      DigitsStep(0xABC, 16, false, ROOM - 1);
      DigitsStep(0xAB, 16, false, ROOM - 2);
      DigitsStep(0xA, 16, false, ROOM - 3);
    }
    assert ZerosTo(d, 0) == d;
    var h := Hashed(d, 16, 0, 4, Hash);
    assert h == "dcx0";
    ShortReversed('d', 'c', 'x', '0');
    assert InField(h, 4, Hash) == "" + "0xcd" + "";
  }

  lemma ShortReversed(a: char, b: char, c: char, d: char)
    ensures Reversed([a, b, c, d]) == [d, c, b, a]
  {
    assert Reversed([d]) == [d] && Reversed([c, d]) == [d, c] && Reversed([b, c, d]) == [d, c, b];
  }

  lemma {:induction false} BinaryPower(k: nat, room: nat)
    requires k < room
    ensures DigitsRev(Pow(2, k), 2, false, room) == Repeat('0', k) + ['1'] && Pow(2, k) > 0
    decreases k
  {
    DigitsStep(Pow(2, k), 2, false, room);
    if k > 0 {
      BinaryPower(k - 1, room - 1);
      assert Pow(2, k) == 2 * Pow(2, k - 1);
      ZerosShift(k - 1);
      assert ['0'] + (Repeat('0', k - 1) + ['1']) == (['0'] + Repeat('0', k - 1)) + ['1'];
    } else {
      assert Repeat('0', 0) + ['1'] == ['1'];
    }
  }

  lemma {:induction false} ZerosShift(k: nat)
    ensures ['0'] + Repeat('0', k) == Repeat('0', k + 1)
  {
    if k > 0 { ZerosShift(k - 1); }
  }

  /** "%#b" of 0x8000_0000: 32 digits fill the buffer, and the prefix is missing. */
  lemma PrefixIsDropped()
    ensures Pow(2, 31) == 0x8000_0000
    ensures NumberText(0x8000_0000, false, 2, 0, 0, Hash) == Reversed(Repeat('0', 31) + ['1'])
    ensures |Repeat('0', 31) + ['1']| == ROOM
  {
    Powers();
    assert Pow(2, ROOM) == 2 * Pow(2, 31);
    BinaryPower(31, ROOM);
    var d := DigitsRev(0x8000_0000, 2, false, ROOM);
    assert ZerosTo(d, 0) == d && Hashed(d, 2, 0, 0, Hash) == d;
    BareField(d, Hash);
  }
}
