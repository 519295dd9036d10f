/** The formatter itself: output character by character into a bounded buffer. */
module Printf {
  import opened PrintfText

  /** The output buffer with the number of characters put out so far. Characters
      that do not fit are counted but not stored. */
  class Sink {
    const buffer: array<char>
    const maxlen: nat
    var idx: nat

    ghost const before: seq<char>
    ghost var out: string

    constructor (buffer: array<char>, maxlen: nat)
      requires maxlen <= buffer.Length
      ensures Valid() && out == "" && this.buffer == buffer && this.maxlen == maxlen && before == buffer[..]
    {
      this.buffer, this.maxlen, this.idx := buffer, maxlen, 0;
      before, out := buffer[..], "";
    }

    ghost predicate CharOk(j: nat)
      reads `out, buffer
      requires j < buffer.Length && j < |before|
    {
      buffer[j] == if j < |out| && j < maxlen then out[j] else before[j]
    }

    ghost predicate Valid()
      reads this, buffer
    {
      && maxlen <= buffer.Length == |before| && idx == |out|
      && forall j :: 0 <= j < buffer.Length ==> CharOk(j)
    }

    method Out(c: char)
      requires Valid()
      modifies this, buffer
      ensures Valid() && out == old(out) + [c]
    {
      if idx < maxlen {
        buffer[idx] := c;
      }
      idx, out := idx + 1, out + [c];
      forall j | 0 <= j < buffer.Length ensures CharOk(j) {
        assert old(CharOk(j));
      }
    }

    /** The spaces a field of the given width needs around len characters. */
    method Spaces(len: nat, width: nat)
      requires Valid()
      modifies this, buffer
      ensures Valid() && out == old(out) + Repeat(' ', width - len)
    {
      var i := len;
      while i < width
        invariant Valid() && (width <= len ==> i == len) && (len < width ==> len <= i <= width)
        invariant out == old(out) + Repeat(' ', i - len)
      {
        Out(' ');
        i := i + 1;
        assert Repeat(' ', i - len) == Repeat(' ', i - 1 - len) + [' '];
      }
    }

    /** The characters from the last to the first. */
    method OutBack(buf: array<char>, len0: nat)
      requires Valid() && buf != buffer && len0 <= buf.Length
      modifies this, buffer
      ensures Valid() && out == old(out) + Reversed(buf[..len0])
    {
      var len := len0;
      assert buf[len..len0] == [] && out + Reversed([]) == out;
      while len > 0
        invariant len <= len0 && Valid() && out == old(out) + Reversed(buf[len..len0])
      {
        len := len - 1;
        assert buf[len..len0] == [buf[len]] + buf[len + 1..len0];
        Out(buf[len]);
      }
      assert buf[0..len0] == buf[..len0];
    }

    /** A converted text, which is held in reverse, in its field. */
    method OutRev(buf: array<char>, len0: nat, width: nat, fl: Flags)
      requires Valid() && buf != buffer && len0 <= buf.Length
      modifies this, buffer
      ensures Valid() && out == old(out) + InField(buf[..len0], width, fl)
    {
      var start := idx;
      ghost var out0 := out;
      ghost var pre := if !fl.left && !fl.zero then Repeat(' ', width - len0) else "";
      if !fl.left && !fl.zero {
        Spaces(len0, width);
      }
      assert out == out0 + pre;
      OutBack(buf, len0);
      if fl.left {
        Spaces(idx - start, width);
      } else {
        assert out == out + "";
      }
      assert out == out0 + InField(buf[..len0], width, fl);
    }

    /** Zeros on top of the converted text, up to n characters. */
    method PushZeros(buf: array<char>, len0: nat, n: nat) returns (len: nat)
      requires buf != buffer && buf.Length == ROOM && len0 <= ROOM
      modifies buf
      ensures len <= ROOM && buf[..len] == ZerosTo(old(buf[..len0]), n)
    {
      len := len0;
      while len < n && len < ROOM
        invariant len0 <= len <= ROOM && (len0 < len ==> len <= n)
        invariant buf[..len] == old(buf[..len0]) + Repeat('0', len - len0)
      {
        buf[len] := '0';
        len := len + 1;
        assert Repeat('0', len - len0) == Repeat('0', len - 1 - len0) + ['0'];
      }
    }

    method Push(buf: array<char>, len0: nat, c: char) returns (len: nat)
      requires buf != buffer && buf.Length == ROOM && len0 <= ROOM
      modifies buf
      ensures len <= ROOM && buf[..len] == Pushed(old(buf[..len0]), c)
    {
      len := len0;
      if len < ROOM {
        buf[len] := c;
        len := len + 1;
      }
    }

    /** Leading zeros. */
    method PadZeros(buf: array<char>, len0: nat, prec: nat, width: nat, fl: Flags) returns (len: nat)
      requires buf != buffer && buf.Length == ROOM && len0 <= ROOM
      modifies buf
      ensures len <= ROOM && buf[..len] == ZeroPadded(old(buf[..len0]), prec, width, fl)
    {
      len := len0;
      if !fl.left {
        len := PushZeros(buf, len, prec);
        if fl.zero {
          len := PushZeros(buf, len, width);
        }
      }
    }

    /** The prefix that '#' asks for. */
    method PushHash(buf: array<char>, len0: nat, base: nat, prec: nat, width: nat, fl: Flags) returns (len: nat)
      requires buf != buffer && buf.Length == ROOM && len0 <= ROOM
      modifies buf
      ensures len <= ROOM && buf[..len] == Hashed(old(buf[..len0]), base, prec, width, fl)
    {
      len := len0;
      if fl.hash {
        ghost var b := buf[..len];
        if !fl.precision && len > 0 && (len == prec || len == width) {
          len := len - 1;
          if len > 0 && base == 16 {
            len := len - 1;
          }
        }
        assert buf[..len] == b[..len] && (len0 > 1 && len == len0 - 2 ==> b[..len] == b[..len0 - 1][..len]);
        len := PushPrefix(buf, len, base, fl);
      }
    }

    method PushPrefix(buf: array<char>, len0: nat, base: nat, fl: Flags) returns (len: nat)
      requires buf != buffer && buf.Length == ROOM && len0 <= ROOM
      modifies buf
      ensures len <= ROOM && buf[..len] == Prefixed(old(buf[..len0]), base, fl)
    {
      len := len0;
      if base == 16 {
        len := Push(buf, len, if fl.upper then 'X' else 'x');
      } else if base == 2 {
        len := Push(buf, len, 'b');
      }
      len := Push(buf, len, '0');
    }

    /** Zeros, prefix and sign around the digits, and the field. */
    method NtoaFormat(buf: array<char>, len0: nat, negative: bool, base: nat, prec: nat, width0: nat, fl: Flags)
      requires Valid() && buf != buffer && buf.Length == ROOM && len0 <= ROOM
      modifies this, buffer, buf
      ensures Valid() && out == old(out) + FieldText(old(buf[..len0]), negative, base, prec, width0, fl)
    {
      var width := width0;
      if !fl.left && width > 0 && fl.zero && (negative || fl.plus || fl.space) {
        width := width - 1;
      }
      var len := PadZeros(buf, len0, prec, width, fl);
      len := PushHash(buf, len, base, prec, width, fl);
      if negative {
        len := Push(buf, len, '-');
      } else if fl.plus {
        len := Push(buf, len, '+');
      } else if fl.space {
        len := Push(buf, len, ' ');
      }
      OutRev(buf, len, width, fl);
    }

    /** A number in its field. */
    method NtoaLong(value0: nat, negative: bool, base: nat, prec: nat, width: nat, fl0: Flags)
      requires Valid() && IsBase(base)
      modifies this, buffer
      ensures Valid() && out == old(out) + NumberText(value0, negative, base, prec, width, fl0)
    {
      var buf := new char[ROOM](_ => NUL);
      var len := Convert(buf, value0, base, fl0);
      NtoaFormat(buf, len, negative, base, prec, width, if value0 == 0 then fl0.(hash := false) else fl0);
    }

    method Convert(buf: array<char>, value: nat, base: nat, fl: Flags) returns (len: nat)
      requires buf.Length == ROOM && IsBase(base)
      modifies buf
      ensures len <= ROOM && buf[..len] == NumberDigits(value, base, fl)
    {
      len := 0;
      if !fl.precision || value != 0 {
        len := PushDigits(buf, value, base, fl.upper);
      }
    }

    /** The digits of a value, lowest first. */
    method PushDigits(buf: array<char>, value0: nat, base: nat, upper: bool) returns (len: nat)
      requires buf.Length == ROOM && IsBase(base)
      modifies buf
      ensures len <= ROOM && buf[..len] == DigitsRev(value0, base, upper, ROOM)
    {
      var value: nat := value0;
      len := 0;
      ghost var all := DigitsRev(value0, base, upper, ROOM);
      ghost var tail := all;
      var more := true;
      while more
        invariant len <= ROOM
        invariant if more then len < ROOM && tail == DigitsRev(value, base, upper, ROOM - len) else tail == ""
        invariant all == buf[..len] + tail
        decreases ROOM - len, more
      {
        tail := PushDigit(buf, len, value, base, upper, all, tail);
        value := Higher(value, base);
        len := len + 1;
        more := value != 0 && len < ROOM;
      }
    }

    /** The lowest digit of a value in the buffer; those of the rest are still to come. */
    method PushDigit(buf: array<char>, len: nat, value: nat, base: nat, upper: bool, ghost all: string,
                     ghost tail: string)
      returns (ghost rest: string)
      requires len < ROOM == buf.Length && IsBase(base) && all == buf[..len] + tail
      requires tail == DigitsRev(value, base, upper, ROOM - len)
      modifies buf
      ensures all == buf[..len + 1] + rest
      ensures var v := Higher(value, base);
        rest == if v != 0 && len + 1 < ROOM then DigitsRev(v, base, upper, ROOM - (len + 1)) else ""
    {
      DigitsStep(value, base, upper, ROOM - len);
      rest := PushOne(buf, len, LowDigit(value, base, upper), all, tail);
    }

    /** One more digit in the buffer, out of those still to come. */
    method PushOne(buf: array<char>, len: nat, c: char, ghost all: string, ghost tail: string)
      returns (ghost rest: string)
      requires len < buf.Length && all == buf[..len] + tail && tail != "" && tail[0] == c
      modifies buf
      ensures rest == tail[1..] && all == buf[..len + 1] + rest
    {
      ghost var done := buf[..len];
      buf[len] := c;
      rest := tail[1..];
      assert tail == [c] + rest;
      Appended(done, [c], rest);
      assert buf[..len + 1] == done + [c];
    }

    // ---------- Directives ----------

    /** One text in its field. */
    method OutText(t: string, width: nat, fl: Flags)
      requires Valid()
      modifies this, buffer
      ensures Valid() && out == old(out) + Padded(t, width, fl)
    {
      ghost var out0 := out;
      if !fl.left {
        Spaces(|t|, width);
      }
      ghost var out1 := out;
      var i := 0;
      while i < |t|
        invariant i <= |t| && Valid() && out == out1 + t[..i]
      {
        Out(t[i]);
        i := i + 1;
      }
      assert t[..i] == t;
      if fl.left {
        Spaces(|t|, width);
      }
      assert out == out0 + Padded(t, width, fl);
    }

    /** What a directive with last character c prints. */
    method OutDirective(c: char, p: Parsed, args: seq<Arg>)
      requires Valid()
      modifies this, buffer
      ensures Valid() && out == old(out) + Converted(c, p, args)
    {
      if IsNumber(c) {
        var fl := NumberFlags(c, p.fl);
        var x := NumberArg(c, fl, args, p.k);
        NtoaLong(Magnitude(x), x < 0, BaseOf(c), p.prec, p.width, fl);
      } else if c == 'c' {
        OutText([(WordArg(args, p.k) % 0x100) as char], p.width, p.fl);
      } else if c == 's' {
        OutText(Cut(TextArg(args, p.k), p.prec, p.fl), p.width, p.fl);
      } else if c == 'p' {
        NtoaLong(WordArg(args, p.k), false, 16, p.prec, 8, p.fl.(zero := true, upper := true));
      } else {
        Out(c);
      }
    }

    /** The whole format; the text is complete even where it does not fit. */
    method OutFormat(fmt: string, args: seq<Arg>)
      requires Valid() && Complete(fmt, 0, args, 0)
      modifies this, buffer
      ensures Valid() && out == old(out) + Formatted(fmt, 0, args, 0)
    {
      ghost var out0, done := out, "";
      var i, k: nat := 0, 0;
      while i < |fmt|
        invariant i <= |fmt| && Valid() && Complete(fmt, i, args, k) && out == out0 + done
        invariant Formatted(fmt, 0, args, 0) == done + Formatted(fmt, i, args, k)
        decreases |fmt| - i
      {
        PieceIsNext(fmt, i, args, k);
        ghost var piece := Piece(fmt, i, args, k);
        i, k := OutPiece(fmt, i, args, k);
        Appended(done, piece.0, Formatted(fmt, i, args, k));
        Appended(out0, done, piece.0);
        done := done + piece.0;
      }
      assert done + "" == done;
    }

    /** A character of the format, or a directive. */
    method OutPiece(fmt: string, i: nat, args: seq<Arg>, k: nat) returns (j: nat, l: nat)
      requires Valid() && i < |fmt| && Complete(fmt, i, args, k)
      modifies this, buffer
      ensures Valid() && out == old(out) + Piece(fmt, i, args, k).0 &&
              (j, l) == (Piece(fmt, i, args, k).1, Piece(fmt, i, args, k).2)
    {
      if fmt[i] != '%' {
        Out(fmt[i]);
        return i + 1, k;
      }
      var p := ParseDirective(fmt, i + 1, args, k);
      OutDirective(fmt[p.i], p, args);
      return p.i + 1, Consumed(fmt[p.i], p.k);
    }

    /** The terminating character, at the end of the text or of the buffer. */
    method Terminate()
      requires Valid()
      modifies buffer
      ensures var m := Least(idx, maxlen - 1);
        buffer[..] == if maxlen == 0 then before else out[..m] + [NUL] + before[m + 1..]
    {
      ghost var b, m := buffer[..], Least(idx, maxlen - 1);
      forall j | 0 <= j < |b| ensures b[j] == if j < |out| && j < maxlen then out[j] else before[j] {
        assert CharOk(j);
      }
      if maxlen > 0 {
        Terminated(b, before, out, maxlen);
        buffer[if idx < maxlen then idx else maxlen - 1] := NUL;
        assert buffer[..] == b[m := NUL];
      } else {
        assert b == before;
      }
    }
  }

  lemma Terminated(b: seq<char>, before: seq<char>, out: string, maxlen: nat)
    requires 0 < maxlen <= |b| == |before|
    requires forall j :: 0 <= j < |b| ==> b[j] == if j < |out| && j < maxlen then out[j] else before[j]
    ensures var m := Least(|out|, maxlen - 1); b[m := NUL] == out[..m] + [NUL] + before[m + 1..]
  {
  }

  lemma Appended(a: string, b: string, c: string)
    ensures a + (b + c) == a + b + c
  {
  }

  method ParseFlags(fmt: string, i0: nat) returns (fl: Flags, i: nat)
    requires i0 <= |fmt|
    ensures (fl, i) == FlagsFrom(fmt, i0, NoFlags)
  {
    fl, i := NoFlags, i0;
    while i < |fmt| && (fmt[i] == '0' || fmt[i] == '-' || fmt[i] == '+' || fmt[i] == ' ' || fmt[i] == '#')
      invariant i <= |fmt| && FlagsFrom(fmt, i, fl) == FlagsFrom(fmt, i0, NoFlags)
      decreases |fmt| - i
    {
      match fmt[i] {
        case '0' => fl := fl.(zero := true);
        case '-' => fl := fl.(left := true);
        case '+' => fl := fl.(plus := true);
        case ' ' => fl := fl.(space := true);
        case _ => fl := fl.(hash := true);
      }
      i := i + 1;
    }
  }

  /** _atoi: wraps around at 32 bits. */
  method ParseNumber(fmt: string, i0: nat) returns (n: Word, i: nat)
    requires i0 <= |fmt|
    ensures (n, i) == NumberFrom(fmt, i0, 0)
  {
    n, i := 0, i0;
    while DigitAt(fmt, i)
      invariant i <= |fmt| && NumberFrom(fmt, i, n) == NumberFrom(fmt, i0, 0)
      decreases |fmt| - i
    {
      n := (n * 10 + (fmt[i] - '0') as nat) % W;
      i := i + 1;
    }
  }

  /** From behind the percent sign to the last character of a directive. */
  method ParseDirective(fmt: string, i0: nat, args: seq<Arg>, k: nat) returns (p: Parsed)
    requires i0 <= |fmt|
    ensures p == Directive(fmt, i0, args, k)
  {
    var fl, j := ParseFlags(fmt, i0);
    p := Parsed(fl, 0, 0, j, k);
    p := ParseWidth(fmt, p, args);
    p := ParsePrecision(fmt, p, args);
    p := LengthFrom(fmt, p);
  }

  method ParseWidth(fmt: string, p0: Parsed, args: seq<Arg>) returns (p: Parsed)
    requires p0.i <= |fmt|
    ensures p == WidthFrom(fmt, p0, args)
  {
    p := p0;
    if DigitAt(fmt, p.i) {
      var n, i := ParseNumber(fmt, p.i);
      p := p.(width := n, i := i);
    } else if CharAt(fmt, p.i, '*') {
      var w := AsSigned(WordArg(args, p.k), W);
      if w < 0 {
        p := p.(fl := p.fl.(left := true), width := -w);
      } else {
        p := p.(width := w);
      }
      p := p.(i := p.i + 1, k := p.k + 1);
    }
  }

  method ParsePrecision(fmt: string, p0: Parsed, args: seq<Arg>) returns (p: Parsed)
    requires p0.i <= |fmt|
    ensures p == PrecisionFrom(fmt, p0, args)
  {
    p := p0;
    if CharAt(fmt, p.i, '.') {
      p := p.(fl := p.fl.(precision := true), i := p.i + 1);
      if DigitAt(fmt, p.i) {
        var n, i := ParseNumber(fmt, p.i);
        p := p.(prec := n, i := i);
      } else if CharAt(fmt, p.i, '*') {
        var w := AsSigned(WordArg(args, p.k), W);
        p := p.(prec := if w > 0 then w else 0, i := p.i + 1, k := p.k + 1);
      }
    }
  }

  /** vsnprintf: the result is the length of the whole text, whatever fits of
      it; the buffer gets its first characters and a terminating zero, and
      nothing is written outside of the given size. */
  method VSnprintf(buffer: array<char>, count: nat, fmt: string, args: seq<Arg>) returns (length: nat)
    requires count <= buffer.Length && NUL !in fmt && TextsEnd(args) && Complete(fmt, 0, args, 0)
    modifies buffer
    ensures length == |Formatted(fmt, 0, args, 0)|
    ensures var m := Least(length, count - 1);
      buffer[..] ==
      if count == 0 then old(buffer[..])
      else Formatted(fmt, 0, args, 0)[..m] + [NUL] + old(buffer[m + 1..])
  {
    var sink := new Sink(buffer, count);
    sink.OutFormat(fmt, args);
    sink.Terminate();
    length := sink.idx;
    assert "" + Formatted(fmt, 0, args, 0) == Formatted(fmt, 0, args, 0);
  }
}
