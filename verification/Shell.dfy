/** The shell's path resolution, in its character buffers. */
module Shell {
  import opened PathText
  import opened CStrings

  const BUFFER: nat := 512
  const PWD: nat := 256

  /** What has been printed before component i: every component but the last is
      followed by a slash. */
  function Pre(cs: seq<string>, i: nat): string
    requires i <= |cs|
  {
    if i == 0 then "" else Pre(cs, i - 1) + cs[i - 1] + if i < |cs| then "/" else ""
  }

  lemma Regroup(a: string, b: string, c: string, d: string)
    ensures a + (b + c + d) == a + b + c + d
  {
  }

  lemma {:induction false} PreIsJoin(cs: seq<string>, i: nat)
    requires i <= |cs|
    ensures Join(cs) == if i < |cs| then Pre(cs, i) + Join(cs[i..]) else Pre(cs, i)
  {
    if i == 0 {
      assert cs[0..] == cs;
    } else {
      PreIsJoin(cs, i - 1);
      assert cs[i - 1..][1..] == cs[i..];
      assert cs[i - 1..][0] == cs[i - 1];
      if i < |cs| {
        Regroup(Pre(cs, i - 1), cs[i - 1], "/", Join(cs[i..]));
      } else {
        assert Pre(cs, i) == Pre(cs, i - 1) + cs[i - 1];
      }
    }
  }

  lemma PreFits(cs: seq<string>, i: nat)
    requires i < |cs|
    ensures |Pre(cs, i)| + |cs[i]| <= |Join(cs)| && (i + 1 < |cs| ==> |Pre(cs, i)| + |cs[i]| + 1 <= |Join(cs)|)
  {
    PreIsJoin(cs, i);
    PreIsJoin(cs, i + 1);
  }

  /** The positions in starts point at the given texts, all of which end before the limit. */
  ghost predicate Stacked(b: seq<char>, starts: seq<nat>, stack: seq<string>, limit: int) {
    |stack| <= |starts| && forall i :: 0 <= i < |stack| ==> StackedAt(b, starts, stack, limit, i)
  }

  ghost predicate StackedAt(b: seq<char>, starts: seq<nat>, stack: seq<string>, limit: int, i: nat)
    requires i < |stack| <= |starts|
  {
    HasText(b, starts[i], stack[i]) && starts[i] + |stack[i]| < limit
  }

  /** A write at or behind the limit leaves the stacked texts alone. */
  lemma StackStays(b: seq<char>, b': seq<char>, starts: seq<nat>, stack: seq<string>, limit: int, limit': int)
    requires Stacked(b, starts, stack, limit) && 0 <= limit <= limit' && limit <= |b| && |b'| == |b| &&
             b'[..limit] == b[..limit]
    ensures Stacked(b', starts, stack, limit')
  {
    forall i | 0 <= i < |stack| ensures StackedAt(b', starts, stack, limit', i) {
      assert StackedAt(b, starts, stack, limit, i);
      TextStays(b, b', starts[i], stack[i], limit);
    }
  }

  /** So does cutting off the next token. */
  lemma StackStaysCut(b: seq<char>, b': seq<char>, starts: seq<nat>, stack: seq<string>, limit: nat,
                      p: nat, s: string, t: int, last: int, rest: string)
    requires Stacked(b, starts, stack, limit) && limit <= |b|
    requires if t < 0 then b' == b else TokenFound(b, b', p, s, t, last, rest) && limit <= p
    ensures Stacked(b', starts, stack, limit)
  {
    if t >= 0 {
      var e := t + |Components(s)[0]|;
      assert b[e := NUL][..limit] == b[..limit];
    }
    StackStays(b, b', starts, stack, limit, limit);
  }

  lemma StackPushed(b: seq<char>, starts: seq<nat>, stack: seq<string>, limit: int, t: nat, c: string)
    requires Stacked(b, starts, stack, limit) && |stack| < |starts| && HasText(b, t, c) && limit <= t + |c|
    ensures Stacked(b, starts[|stack| := t], stack + [c], t + |c| + 1)
  {
    var starts', stack', limit' := starts[|stack| := t], stack + [c], t + |c| + 1;
    forall i | 0 <= i < |stack'| ensures StackedAt(b, starts', stack', limit', i) {
      if i < |stack| { assert StackedAt(b, starts, stack, limit, i); }
    }
  }

  lemma StackPopped(b: seq<char>, starts: seq<nat>, stack: seq<string>, limit: int)
    requires Stacked(b, starts, stack, limit) && stack != []
    ensures Stacked(b, starts, stack[..|stack| - 1], limit)
  {
    var stack' := stack[..|stack| - 1];
    forall i | 0 <= i < |stack'| ensures StackedAt(b, starts, stack', limit, i) {
      assert StackedAt(b, starts, stack, limit, i);
    }
  }

  /** One component: "." and ".." are not kept. */
  method WalkToken(b: seq<char>, t: nat, starts: array<nat>, count: nat, ghost c: string, ghost stack: seq<string>,
                   ghost limit: int)
    returns (count': nat)
    requires HasText(b, t, c) && count == |stack| < starts.Length && Stacked(b, starts[..], stack, limit) &&
             0 <= limit <= t + |c|
    modifies starts
    ensures count' == |Entered(stack, c)| <= count + 1 && Stacked(b, starts[..], Entered(stack, c), t + |c| + 1)
  {
    StackStays(b, b, starts[..], stack, limit, t + |c| + 1);
    count' := count;
    var dot := StrCmp(b, t, ['.', NUL], 0, c, ".");
    if dot != 0 {
      var up := StrCmp(b, t, ['.', '.', NUL], 0, c, "..");
      if up == 0 {
        if count > 0 {
          StackPopped(b, starts[..], stack, t + |c| + 1);
          count' := count - 1;
        }
      } else {
        StackPushed(b, starts[..], stack, limit, t, c);
        starts[count] := t;
        count' := count + 1;
      }
    }
  }

  /** The state of taking a text apart: the token at t, if any, is the first
      component of s, behind which rest is next; all texts of the stack end in
      front of it. */
  ghost predicate Collecting(b: seq<char>, b': seq<char>, starts: seq<nat>, text: string, stack: seq<string>,
                             limit: nat,
                             s: string, p: nat, t: int, last: int, rest: string) {
    && (if t < 0 then Components(s) == [] else TokenFound(b, b', p, s, t, last, rest) && limit <= p)
    && Reduced(stack, Components(s)) == Reduced([], Components(text))
    && |stack| <= limit <= |b'| && Stacked(b', starts, stack, limit)
  }

  /** What a found token is. */
  lemma TokenFacts(b: seq<char>, b': seq<char>, p: nat, s: string, t: int, last: int, rest: string)
    requires TokenFound(b, b', p, s, t, last, rest)
    ensures Name(Components(s)[0]) && t + |Components(s)[0]| < |b'| == |b| && |rest| < |s|
    ensures last < 0 || (last == t + |Components(s)[0]| + 1 && last <= |b'|)
  {
    ComponentsAreNames(s);
  }

  /** One round: the token is worked off and the next one is cut off. */
  method CollectOne(tok: Tokenizer, temp: array<char>, starts: array<nat>, t0: int, count0: nat, ghost text: string,
                    ghost stack0: seq<string>,
                    ghost limit0: nat, ghost b0: seq<char>, ghost s0: string, ghost p0: nat, ghost rest0: string)
    returns (t: int, count: nat, ghost stack: seq<string>, ghost limit: nat, ghost b: seq<char>, ghost p: nat,
             ghost rest: string)
    requires t0 >= 0 && Collecting(b0, temp[..], starts[..], text, stack0, limit0, s0, p0, t0, tok.last, rest0)
    requires count0 == |stack0| && starts.Length >= temp.Length
    modifies tok, temp, starts
    ensures Collecting(b, temp[..], starts[..], text, stack, limit, rest0, p, t, tok.last, rest) &&
            count == |stack| && |rest0| < |s0|
  {
    ghost var c := Components(s0)[0];
    TokenFacts(b0, temp[..], p0, s0, t0, tok.last, rest0);
    count := WalkToken(temp[..], t0, starts, count0, c, stack0, limit0);
    stack, limit, p, b := Entered(stack0, c), t0 + |c| + 1, if tok.last < 0 then 0 else tok.last, temp[..];
    ghost var last := tok.last;
    t, rest := tok.StrTok(temp, -1, "/", rest0);
    TokenIsComponent(b, temp[..], last, rest0, t, tok.last, rest);
    StackStaysCut(b, temp[..], starts[..], stack, limit, p, rest0, t, tok.last, rest);
  }

  /** Takes a path apart in place; what is left after "." and ".." are worked
      off is found at the first count positions in starts. */
  method Collect(tok: Tokenizer, temp: array<char>, starts: array<nat>, ghost text: string)
    returns (count: nat, ghost stack: seq<string>)
    requires HasText(temp[..], 0, text) && starts.Length >= temp.Length
    modifies tok, temp, starts
    ensures stack == Reduced([], Components(text)) && count == |stack| &&
            Stacked(temp[..], starts[..], stack, temp.Length)
  {
    ghost var s, limit: nat, p: nat, b := text, 0, 0, temp[..];
    var t: int;
    ghost var rest, s0;
    count, stack := 0, [];
    t, rest := tok.StrTok(temp, 0, "/", text);
    TokenIsComponent(b, temp[..], 0, text, t, tok.last, rest);
    while t >= 0
      invariant Collecting(b, temp[..], starts[..], text, stack, limit, s, p, t, tok.last, rest) && count == |stack|
      decreases |s|
    {
      s0 := rest;
      t, count, stack, limit, b, p, rest := CollectOne(tok, temp, starts, t, count, text, stack, limit, b, s, p, rest);
      s := s0;
    }
    StackStays(temp[..], temp[..], starts[..], stack, limit, temp.Length);
  }

  method PrintOne(dst: array<char>, b: seq<char>, start: nat, more: bool, ghost before: string, ghost c: string)
    requires HasText(dst[..], 0, before) && HasText(b, start, c) &&
             |before| + |c| + (if more then 1 else 0) < dst.Length
    modifies dst
    ensures HasText(dst[..], 0, before + c + if more then "/" else "")
  {
    StrCat(dst, before, b, start, c);
    if more {
      StrCat(dst, before + c, [SLASH, NUL], 0, "/");
    }
    assert before + c + "" == before + c;
  }

  /** Prints the components, each but the last followed by a slash. */
  method PrintPath(dst: array<char>, b: seq<char>, starts: seq<nat>, count: nat, ghost stack: seq<string>,
                   ghost limit: int)
    requires count == |stack| && Stacked(b, starts, stack, limit) && |Shown(stack)| < dst.Length && 2 <= dst.Length
    modifies dst
    ensures HasText(dst[..], 0, Shown(stack))
  {
    dst[0] := SLASH;
    dst[1] := NUL;
    assert "/" + Pre(stack, 0) == "/";
    var i := 0;
    while i < count
      invariant i <= count && HasText(dst[..], 0, "/" + Pre(stack, i))
    {
      PreFits(stack, i);
      assert StackedAt(b, starts, stack, limit, i);
      PrintOne(dst, b, starts[i], i + 1 < count, "/" + Pre(stack, i), stack[i]);
      assert "/" + Pre(stack, i) + stack[i] + (if i + 1 < count then "/" else "") == "/" + Pre(stack, i + 1);
      i := i + 1;
    }
    PreIsJoin(stack, count);
  }

  lemma {:induction false} TrimFrontFits(s: string)
    ensures |TrimFront(s)| <= |s|
  {
    if s != "" && IsSpace(s[0]) { TrimFrontFits(s[1..]); }
  }

  lemma TrimmedFits(s: string)
    ensures |Trimmed(s)| <= |s|
  {
    TrimFrontFits(s);
    TrimBackFacts(TrimFront(s));
  }

  class Shell {
    const pwd: array<char>
    const tok: Tokenizer

    /** The working directory is the root. */
    constructor ()
      ensures fresh(pwd) && fresh(tok) && pwd.Length == PWD && HasText(pwd[..], 0, "/") && Normal("/")
    {
      pwd := new char[PWD](_ => NUL);
      tok := new Tokenizer();
      new;
      pwd[0] := SLASH;
      RootIsNormal();
    }

    /** The working directory and a slash in front of the text in dst. */
    method Prepend(dst: array<char>, ghost text: string, ghost wd: string)
      requires HasText(pwd[..], 0, wd) && HasText(dst[..], 0, text) && dst.Length == BUFFER &&
               |wd| + 1 + |text| < BUFFER
      modifies dst
      ensures HasText(dst[..], 0, wd + "/" + text)
    {
      var temp := new char[BUFFER](_ => NUL);
      StrCpy(temp, 0, pwd[..], 0, wd);
      PutHolds(seq(BUFFER, _ => NUL), 0, wd);
      assert HasText(temp[..], 0, wd);
      StrCat(temp, wd, [SLASH, NUL], 0, "/");
      StrCat(temp, wd + "/", dst[..], 0, text);
      PutHolds(dst[..], 0, wd + "/" + text);
      StrCpy(dst, 0, temp[..], 0, wd + "/" + text);
    }

    /** The argument, or the working directory, trimmed and made absolute. An
        empty sequence stands for a null pointer. */
    method MakeAbsolute(dst: array<char>, path: seq<char>, ghost arg: string, ghost wd: string)
      requires HasText(pwd[..], 0, wd) && (if path == [] then arg == "" else HasText(path, 0, arg))
      requires dst != pwd && pwd.Length == PWD && dst.Length == BUFFER && |arg| < BUFFER && |Absolute(wd, arg)| < BUFFER
      modifies dst
      ensures HasText(dst[..], 0, Absolute(wd, arg))
    {
      ghost var text := if arg == "" then wd else arg;
      if path == [] || path[0] == NUL {
        if path != [] { TextAt(path, 0, arg, 0); }
        StrCpy(dst, 0, pwd[..], 0, wd);
      } else {
        TextAt(path, 0, arg, 0);
        StrCpy(dst, 0, path, 0, arg);
      }
      PutHolds(dst[..], 0, text);
      TrimmedFits(text);
      TrimWhitespace(dst, text);
      TextAt(dst[..], 0, Trimmed(text), 0);
      if dst[0] != SLASH {
        Prepend(dst, Trimmed(text), wd);
      }
    }

    /** resolve_path, for texts that fit the buffers. */
    method ResolvePath(dst: array<char>, path: seq<char>, ghost arg: string, ghost wd: string)
      requires HasText(pwd[..], 0, wd) && (if path == [] then arg == "" else HasText(path, 0, arg))
      requires dst != pwd && pwd.Length == PWD && dst.Length == BUFFER && |arg| < BUFFER && |Absolute(wd, arg)| < BUFFER
      requires wd != "" && wd[0] == SLASH
      modifies dst, tok
      ensures HasText(dst[..], 0, Resolved(wd, arg))
    {
      MakeAbsolute(dst, path, arg, wd);
      ghost var text := Absolute(wd, arg);
      var temp := new char[BUFFER](_ => NUL);
      var starts := new nat[BUFFER](_ => 0);
      StrCpy(temp, 0, dst[..], 0, text);
      PutHolds(seq(BUFFER, _ => NUL), 0, text);
      assert HasText(temp[..], 0, text);
      var count, stack := Collect(tok, temp, starts, text);
      ResolvedFits(text);
      PrintPath(dst, temp[..], starts[..], count, stack, temp.Length);
    }

    /** The cd command: isFolder says which paths the file system knows as folders. */
    method CommandCd(path: seq<char>, isFolder: string -> bool, ghost arg: string, ghost wd: string)
      requires HasText(pwd[..], 0, wd) && Normal(wd) && (if path == [] then arg == "" else HasText(path, 0, arg))
      requires pwd.Length == PWD && |arg| < BUFFER && |Absolute(wd, arg)| < BUFFER && |Resolved(wd, arg)| < PWD
      modifies pwd, tok
      ensures HasText(pwd[..], 0, Changed(wd, arg, isFolder)) && Normal(Changed(wd, arg, isFolder))
      ensures if arg != "" && isFolder(Resolved(wd, arg)) then HasText(pwd[..], 0, Resolved(wd, arg))
              else pwd[..] == old(pwd[..])
    {
      if path != [] { TextAt(path, 0, arg, 0); }
      if path == [] || path[0] == NUL {
        return;
      }
      var full := new char[BUFFER](_ => NUL);
      NormalFixed(wd);
      ResolvePath(full, path, arg, wd);
      ResolvedIsNormal(wd, arg);
      var n := StrLen(full, Resolved(wd, arg));
      if isFolder(full[..n]) {
        PutHolds(pwd[..], 0, Resolved(wd, arg));
        StrCpy(pwd, 0, full[..], 0, Resolved(wd, arg));
      }
    }
  }
}
