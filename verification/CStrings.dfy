/** Zero-terminated strings in character buffers, and the string functions on them. */
module CStrings {
  import opened PathText

  /** The text s stands at position i of the buffer contents b. */
  ghost predicate HasText(b: seq<char>, i: nat, s: string) {
    i + |s| < |b| && b[i..i + |s|] == s && b[i + |s|] == NUL && NUL !in s
  }

  /** The buffer contents after text s was written to position d. */
  function Put(b: seq<char>, d: nat, s: string): seq<char>
    requires d + |s| < |b|
  {
    b[..d] + s + [NUL] + b[d + |s| + 1..]
  }

  lemma TextAt(b: seq<char>, i: nat, s: string, k: nat)
    requires HasText(b, i, s) && k <= |s|
    ensures b[i + k] == (if k < |s| then s[k] else NUL) && (b[i + k] == NUL <==> k == |s|)
  {
    if k < |s| {
      assert b[i..i + |s|][k] == b[i + k];
    }
  }

  lemma PutHolds(b: seq<char>, d: nat, s: string)
    requires d + |s| < |b| && NUL !in s
    ensures HasText(Put(b, d, s), d, s)
  {
  }

  lemma PutAfter(b: seq<char>, t: string, s: string)
    requires HasText(b, 0, t) && |t| + |s| < |b| && NUL !in s
    ensures HasText(Put(b, |t|, s), 0, t + s)
  {
  }

  /** Text that ends before the place of a write stays. */
  lemma TextStays(b: seq<char>, b': seq<char>, i: nat, s: string, n: nat)
    requires HasText(b, i, s) && i + |s| < n <= |b| && |b'| == |b| && b'[..n] == b[..n]
    ensures HasText(b', i, s)
  {
    assert b[i..i + |s|] == b[..n][i..i + |s|];
    assert b'[i..i + |s|] == b'[..n][i..i + |s|];
    assert b[i + |s|] == b[..n][i + |s|] && b'[i + |s|] == b'[..n][i + |s|];
  }

  method StrLen(a: array<char>, ghost s: string) returns (n: nat)
    requires HasText(a[..], 0, s)
    ensures n == |s|
  {
    n := 0;
    TextAt(a[..], 0, s, 0);
    while a[n] != NUL
      invariant n <= |s|
      invariant a[n] == NUL <==> n == |s|
      decreases |s| - n
    {
      n := n + 1;
      TextAt(a[..], 0, s, n);
    }
  }

  /** Copies the text at position i of src to position d of dst. */
  method StrCpy(dst: array<char>, d: nat, src: seq<char>, i: nat, ghost s: string)
    requires HasText(src, i, s) && d + |s| < dst.Length
    modifies dst
    ensures dst[..] == Put(old(dst[..]), d, s)
  {
    var k := 0;
    TextAt(src, i, s, 0);
    while src[i + k] != NUL
      invariant k <= |s| && (src[i + k] == NUL <==> k == |s|)
      invariant dst[..] == old(dst[..d]) + s[..k] + old(dst[d + k..])
      decreases |s| - k
    {
      TextAt(src, i, s, k);
      dst[d + k] := src[i + k];
      k := k + 1;
      TextAt(src, i, s, k);
    }
    dst[d + k] := NUL;
  }

  /** 0 exactly for equal texts. */
  method StrCmp(b: seq<char>, i: nat, c: seq<char>, j: nat, ghost s: string, ghost t: string) returns (diff: int)
    requires HasText(b, i, s) && HasText(c, j, t)
    ensures diff == 0 <==> s == t
  {
    var k := 0;
    TextAt(b, i, s, 0);
    TextAt(c, j, t, 0);
    while b[i + k] != NUL && b[i + k] == c[j + k]
      invariant k <= |s| && k <= |t| && s[..k] == t[..k]
      invariant b[i + k] == (if k < |s| then s[k] else NUL) && c[j + k] == (if k < |t| then t[k] else NUL)
      invariant (b[i + k] == NUL <==> k == |s|) && (c[j + k] == NUL <==> k == |t|)
      decreases |s| - k
    {
      k := k + 1;
      TextAt(b, i, s, k);
      TextAt(c, j, t, k);
    }
    assert s == t ==> k == |s|;
    diff := b[i + k] as int - c[j + k] as int;
    if diff == 0 { assert s == s[..k] && t == t[..k]; }
  }

  /** Appends the text at position i of src. */
  method StrCat(dst: array<char>, ghost t: string, src: seq<char>, i: nat, ghost s: string)
    requires HasText(dst[..], 0, t) && HasText(src, i, s) && |t| + |s| < dst.Length
    modifies dst
    ensures HasText(dst[..], 0, t + s)
  {
    var n := StrLen(dst, t);
    PutAfter(dst[..], t, s);
    StrCpy(dst, n, src, i, s);
  }

  /** Strips whitespace from both ends, in place. */
  method TrimWhitespace(a: array<char>, ghost s: string)
    requires HasText(a[..], 0, s)
    modifies a
    ensures HasText(a[..], 0, Trimmed(s))
  {
    var start := 0;
    TextAt(a[..], 0, s, 0);
    while IsSpace(a[start])
      invariant start <= |s| && TrimFront(s) == TrimFront(s[start..])
      invariant HasText(a[..], start, s[start..])
      decreases |s| - start
    {
      TextAt(a[..], start, s[start..], 0);
      start := start + 1;
    }
    ghost var t := s[start..];
    TextAt(a[..], start, t, 0);
    if a[start] == NUL {
      a[0] := NUL;
      return;
    }
    PutHolds(a[..], 0, t);
    StrCpy(a, 0, a[..], start, t);
    TrimEnd(a, t);
  }

  method TrimEnd(a: array<char>, ghost t: string)
    requires HasText(a[..], 0, t) && t != "" && !IsSpace(t[0])
    modifies a
    ensures HasText(a[..], 0, TrimBack(t))
  {
    var n := StrLen(a, t);
    var end := n - 1;
    assert t[..n] == t;
    while end > 0 && IsSpace(a[end])
      invariant 0 <= end < n && TrimBack(t) == TrimBack(t[..end + 1])
      decreases end
      modifies {}
    {
      TextAt(a[..], 0, t, end);
      assert t[..end + 1][..end] == t[..end];
      end := end - 1;
    }
    TextAt(a[..], 0, t, end);
    assert TrimBack(t) == t[..end + 1];
    a[end + 1] := NUL;
    assert a[..end + 1] == t[..end + 1];
  }

  // ---------- Tokens ----------

  /** The length of the prefix of the text at p whose characters are all in accept. */
  method StrSpn(b: seq<char>, p: nat, accept: string, ghost s: string) returns (n: nat)
    requires HasText(b, p, s)
    ensures n <= |s| && (forall k :: 0 <= k < n ==> s[k] in accept) && (n < |s| ==> s[n] !in accept)
  {
    n := 0;
    TextAt(b, p, s, 0);
    while b[p + n] != NUL && b[p + n] in accept
      invariant n <= |s| && forall k :: 0 <= k < n ==> s[k] in accept
      decreases |s| - n
    {
      TextAt(b, p, s, n);
      n := n + 1;
    }
    TextAt(b, p, s, n);
  }

  /** The distance from p to the first character in accept, or -1. */
  method StrPbrk(b: seq<char>, p: nat, accept: string, ghost s: string) returns (n: int)
    requires HasText(b, p, s)
    ensures n < 0 ==> forall k :: 0 <= k < |s| ==> s[k] !in accept
    ensures n >= 0 ==> n < |s| && s[n] in accept && forall k :: 0 <= k < n ==> s[k] !in accept
  {
    n := 0;
    TextAt(b, p, s, 0);
    while b[p + n] != NUL
      invariant 0 <= n <= |s| && forall k :: 0 <= k < n ==> s[k] !in accept
      decreases |s| - n
    {
      TextAt(b, p, s, n);
      if b[p + n] in accept {
        return;
      }
      n := n + 1;
      TextAt(b, p, s, n);
    }
    n := -1;
  }

  /** The length of the first run of characters that are no delimiters. */
  function RunOf(s: string, delim: string): (n: nat)
    ensures n <= |s|
  {
    if s == "" || s[0] in delim then 0 else 1 + RunOf(s[1..], delim)
  }

  /** The longest pieces without a delimiter, in order. */
  function Tokens(s: string, delim: string): seq<string>
    decreases |s|
  {
    if s == "" then []
    else if s[0] in delim then Tokens(s[1..], delim)
    else [s[..RunOf(s, delim)]] + Tokens(s[RunOf(s, delim)..], delim)
  }

  lemma {:induction false} SlashRun(s: string)
    ensures RunOf(s, "/") == RunLength(s)
  {
    if s != "" { SlashRun(s[1..]); }
  }

  /** Between slashes lie the components of a path. */
  lemma {:induction false} SlashTokens(s: string)
    ensures Tokens(s, "/") == Components(s)
    decreases |s|
  {
    if s != "" {
      SlashRun(s);
      SlashTokens(if s[0] in "/" then s[1..] else s[RunOf(s, "/")..]);
    }
  }

  lemma {:induction false} DelimitersSkipped(s: string, delim: string, n: nat)
    requires n <= |s| && forall k :: 0 <= k < n ==> s[k] in delim
    ensures Tokens(s, delim) == Tokens(s[n..], delim)
    decreases n
  {
    if n > 0 {
      DelimitersSkipped(s[1..], delim, n - 1);
      assert s[1..][n - 1..] == s[n..];
    } else {
      assert s[0..] == s;
    }
  }

  lemma {:induction false} RunIs(s: string, delim: string, n: nat)
    requires n <= |s| && (forall k :: 0 <= k < n ==> s[k] !in delim) && (n < |s| ==> s[n] in delim)
    ensures RunOf(s, delim) == n
    decreases n
  {
    if n > 0 { RunIs(s[1..], delim, n - 1); }
  }

  /** The first token of a text, and what is left behind the delimiter after it. */
  lemma FirstToken(s: string, delim: string, m: nat, n: nat)
    requires m < |s| && (forall k :: 0 <= k < m ==> s[k] in delim) && s[m] !in delim
    requires m < n <= |s| && (forall k :: m <= k < n ==> s[k] !in delim) && (n < |s| ==> s[n] in delim)
    ensures Tokens(s, delim) == [s[m..n]] + Tokens(if n < |s| then s[n + 1..] else "", delim)
  {
    DelimitersSkipped(s, delim, m);
    var r := s[m..];
    RunIs(r, delim, n - m);
    assert r[..n - m] == s[m..n] && r[n - m..] == s[n..];
    if n < |s| { assert s[n..][1..] == s[n + 1..]; }
  }

  lemma NoToken(s: string, delim: string)
    requires forall k :: 0 <= k < |s| ==> s[k] in delim
    ensures Tokens(s, delim) == []
  {
    DelimitersSkipped(s, delim, |s|);
  }

  /** What one call of strtok finds in the text s at p0, whose tokens are given:
      the first of them stands at t, its end is marked in the buffer, and the text
      behind it, if any, is next. */
  ghost predicate CutOff(b: seq<char>, b': seq<char>, p0: nat, s: string, tokens: seq<string>, t: int, last: int,
                         rest: string) {
    && tokens != [] && t >= p0 && HasText(b', t, tokens[0])
    && var e := t + |tokens[0]|;
       && e < |b| && b' == b[e := NUL]
       && (if last < 0 then rest == "" else last == e + 1 && HasText(b', last, rest))
       && e <= p0 + |s| && (last >= 0 ==> last + |rest| == p0 + |s|)
  }

  /** The outcome of strtok for any delimiters; a t below 0 is the null pointer. */
  ghost predicate Tokenized(b: seq<char>, b': seq<char>, p: int, s: string, delim: string, t: int, last: int,
                            rest: string) {
    if t < 0 then Tokens(s, delim) == [] && last < 0 && b' == b
    else p >= 0 && CutOff(b, b', p, s, Tokens(s, delim), t, last, rest) &&
         Tokens(rest, delim) == Tokens(s, delim)[1..]
  }

  /** With a slash as the delimiter the token is the first component. */
  ghost predicate TokenFound(b: seq<char>, b': seq<char>, p0: nat, s: string, t: int, last: int, rest: string) {
    CutOff(b, b', p0, s, Components(s), t, last, rest) && Components(rest) == Components(s)[1..]
  }

  lemma TokenIsComponent(b: seq<char>, b': seq<char>, p: int, s: string, t: int, last: int, rest: string)
    requires Tokenized(b, b', p, s, "/", t, last, rest)
    ensures if t < 0 then Components(s) == [] && last < 0 && b' == b
            else p >= 0 && TokenFound(b, b', p, s, t, last, rest)
  {
    SlashTokens(s);
    SlashTokens(rest);
  }

  /** strtok with its static pointer; a position below 0 stands for the null pointer. */
  class Tokenizer {
    var last: int

    constructor ()
      ensures last < 0
    {
      last := -1;
    }

    method StrTok(a: array<char>, str: int, delim: string, ghost s: string) returns (t: int, ghost rest: string)
      requires var p := if str < 0 then last else str; if p < 0 then s == "" else HasText(a[..], p, s)
      modifies this, a
      ensures Tokenized(old(a[..]), a[..], if str < 0 then old(last) else str, s, delim, t, last, rest)
    {
      t, rest := -1, "";
      var p := if str < 0 then last else str;
      if p < 0 {
        return;
      }
      var m := StrSpn(a[..], p, delim, s);
      TextAt(a[..], p, s, m);
      if a[p + m] == NUL {
        NoToken(s, delim);
        last := -1;
        return;
      }
      t, rest := CutToken(a, p, m, delim, s);
    }

    /** The token begins m characters behind p. */
    method CutToken(a: array<char>, p: nat, m: nat, delim: string, ghost s: string) returns (t: int, ghost rest: string)
      requires HasText(a[..], p, s) && m < |s| && (forall k :: 0 <= k < m ==> s[k] in delim) && s[m] !in delim
      modifies this, a
      ensures t >= 0 && Tokenized(old(a[..]), a[..], p, s, delim, t, last, rest)
    {
      ghost var b := a[..];
      TextFrom(b, p, s, m);
      var n := StrPbrk(a[..], p + m, delim, s[m..]);
      t := p + m;
      ghost var e := if n < 0 then |s| else m + n;
      if n >= 0 {
        a[t + n] := NUL;
        last := t + n + 1;
        rest := s[m + n + 1..];
      } else {
        last, rest := -1, "";
        TextAt(b, p, s, |s|);
      }
      assert a[..] == b[p + e := NUL];
      assert last == (if e < |s| then p + e + 1 else -1) && rest == if e < |s| then s[e + 1..] else "";
      TokenIs(b, p, s, delim, m, e);
    }
  }

  lemma TokenIs(b: seq<char>, p: nat, s: string, delim: string, m: nat, n: nat)
    requires HasText(b, p, s) && m < |s| && (forall k :: 0 <= k < m ==> s[k] in delim) && s[m] !in delim
    requires m < n <= |s| && (forall k :: m <= k < n ==> s[k] !in delim) && (n < |s| ==> s[n] in delim)
    ensures Tokenized(b, b[p + n := NUL], p, s, delim, p + m,
                      if n < |s| then p + n + 1 else -1, if n < |s| then s[n + 1..] else "")
  {
    FirstToken(s, delim, m, n);
    TokenStands(b, p, s, m, n);
  }

  lemma SubText(b: seq<char>, p: nat, s: string, m: nat, n: nat)
    requires HasText(b, p, s) && m <= n <= |s|
    ensures b[p + m..p + n] == s[m..n]
  {
    forall k | 0 <= k < n - m ensures b[p + m..p + n][k] == s[m..n][k] {
      TextAt(b, p, s, m + k);
    }
  }

  lemma TextFrom(b: seq<char>, p: nat, s: string, m: nat)
    requires HasText(b, p, s) && m <= |s|
    ensures HasText(b, p + m, s[m..])
  {
    SubText(b, p, s, m, |s|);
  }

  lemma TokenStands(b: seq<char>, p: nat, s: string, m: nat, n: nat)
    requires HasText(b, p, s) && m <= n <= |s|
    ensures HasText(b[p + n := NUL], p + m, s[m..n])
    ensures n < |s| ==> HasText(b[p + n := NUL], p + n + 1, s[n + 1..])
  {
    var b' := b[p + n := NUL];
    SubText(b, p, s, m, n);
    assert b'[p + m..p + n] == b[p + m..p + n];
    if n < |s| {
      SubText(b, p, s, n + 1, |s|);
      assert b'[p + n + 1..p + |s|] == b[p + n + 1..p + |s|];
    }
  }
}
