/** Path names as text and as lists of components, and how the shell resolves them. */
module PathText {

  const SLASH: char := '/'
  const NUL: char := '\0'

  predicate IsSpace(c: char) {
    c == ' ' || c == '\t' || c == '\n' || c == (11 as char) || c == (12 as char) || c == '\r'
  }

  /** Blanks, and the control characters 9 (tab) to 13 (carriage return). */
  lemma IsSpaceIs(c: char)
    ensures IsSpace(c) <==> c as int == 32 || 9 <= c as int <= 13
  {
  }

  // ---------- Components ----------

  /** The length of the run of characters up to the first slash. */
  function RunLength(s: string): (n: nat)
    ensures n <= |s| && (n < |s| ==> s[n] == SLASH) && SLASH !in s[..n]
  {
    if s == "" || s[0] == SLASH then 0
    else
      assert s[..1 + RunLength(s[1..])] == [s[0]] + s[1..][..RunLength(s[1..])];
      1 + RunLength(s[1..])
  }

  /** The longest pieces without a slash, in order. */
  function Components(s: string): (cs: seq<string>)
    decreases |s|
  {
    if s == "" then []
    else if s[0] == SLASH then Components(s[1..])
    else [s[..RunLength(s)]] + Components(s[RunLength(s)..])
  }

  /** A name that can stand in a path. */
  ghost predicate Name(c: string) { c != "" && SLASH !in c }

  ghost predicate Names(cs: seq<string>) {
    forall i :: 0 <= i < |cs| ==> Name(cs[i])
  }

  /** A name other than the two special ones. */
  ghost predicate Plain(c: string) { Name(c) && c != "." && c != ".." }

  ghost predicate AllPlain(cs: seq<string>) {
    forall i :: 0 <= i < |cs| ==> Plain(cs[i])
  }

  lemma {:induction false} ComponentsAreNames(s: string)
    ensures Names(Components(s))
    decreases |s|
  {
    if s != "" {
      if s[0] == SLASH {
        ComponentsAreNames(s[1..]);
      } else {
        ComponentsAreNames(s[RunLength(s)..]);
      }
    }
  }

  function Join(cs: seq<string>): string {
    if cs == [] then "" else if |cs| == 1 then cs[0] else cs[0] + "/" + Join(cs[1..])
  }

  /** The absolute path with the given components. */
  function Shown(cs: seq<string>): string { "/" + Join(cs) }

  lemma {:induction false} RunOfName(c: string, rest: string)
    requires SLASH !in c && (rest == "" || rest[0] == SLASH)
    ensures RunLength(c + rest) == |c|
  {
    if c != "" {
      assert (c + rest)[1..] == c[1..] + rest;
      RunOfName(c[1..], rest);
    }
  }

  /** One name in front. */
  lemma ComponentFirst(c: string, rest: string)
    requires Name(c) && (rest == "" || rest[0] == SLASH)
    ensures Components(c + rest) == [c] + Components(rest)
  {
    RunOfName(c, rest);
    assert (c + rest)[..|c|] == c && (c + rest)[|c|..] == rest;
  }

  /** A slash between two texts separates their components. */
  lemma {:induction false} ComponentsSplit(a: string, b: string)
    ensures Components(a + "/" + b) == Components(a) + Components(b)
    decreases |a|
  {
    var whole := a + "/" + b;
    if a == "" {
      assert whole[1..] == b;
    } else if a[0] == SLASH {
      assert whole[1..] == a[1..] + "/" + b;
      ComponentsSplit(a[1..], b);
    } else {
      var n := RunLength(a);
      assert a == a[..n] + a[n..];
      assert whole == a[..n] + (a[n..] + "/" + b);
      ComponentFirst(a[..n], a[n..] + "/" + b);
      ComponentsSplit(a[n..], b);
    }
  }

  /** Taking a printed list of names apart gives the list back. */
  lemma {:induction false} JoinRoundTrip(cs: seq<string>)
    requires Names(cs)
    ensures Components(Join(cs)) == cs
  {
    if |cs| == 1 {
      ComponentFirst(cs[0], "");
      assert cs[0] + "" == cs[0];
    } else if cs != [] {
      JoinRoundTrip(cs[1..]);
      ComponentsSplit(cs[0], Join(cs[1..]));
      ComponentFirst(cs[0], "");
      assert cs[0] + "" == cs[0];
    }
  }

  lemma ShownRoundTrip(cs: seq<string>)
    requires Names(cs)
    ensures Components(Shown(cs)) == cs
  {
    JoinRoundTrip(cs);
    assert Shown(cs)[1..] == Join(cs);
  }

  // ---------- "." and ".." ----------

  /** One component: a dot stays, two dots go up, but not above the root. */
  function Entered(stack: seq<string>, c: string): seq<string> {
    if c == "." then stack
    else if c == ".." then (if stack == [] then [] else stack[..|stack| - 1])
    else stack + [c]
  }

  function Reduced(stack: seq<string>, cs: seq<string>): seq<string>
    decreases |cs|
  {
    if cs == [] then stack else Reduced(Entered(stack, cs[0]), cs[1..])
  }

  lemma {:induction false} ReducedSplit(stack: seq<string>, a: seq<string>, b: seq<string>)
    ensures Reduced(stack, a + b) == Reduced(Reduced(stack, a), b)
    decreases |a|
  {
    if a == [] {
      assert a + b == b;
    } else {
      assert (a + b)[1..] == a[1..] + b;
      ReducedSplit(Entered(stack, a[0]), a[1..], b);
    }
  }

  lemma {:induction false} ReducedIsPlain(stack: seq<string>, cs: seq<string>)
    requires AllPlain(stack) && Names(cs)
    ensures AllPlain(Reduced(stack, cs))
    decreases |cs|
  {
    if cs != [] {
      assert Name(cs[0]);
      ReducedIsPlain(Entered(stack, cs[0]), cs[1..]);
    }
  }

  /** Plain names are walked down one after the other. */
  lemma {:induction false} PlainIsReduced(stack: seq<string>, cs: seq<string>)
    requires AllPlain(cs)
    ensures Reduced(stack, cs) == stack + cs
    decreases |cs|
  {
    if cs != [] {
      assert Plain(cs[0]);
      PlainIsReduced(stack + [cs[0]], cs[1..]);
      assert stack + [cs[0]] + cs[1..] == stack + cs;
    }
  }

  /** What the special components mean: a dot changes nothing, two dots undo the
      step before them, and above the root there is nothing. */
  lemma SpecialComponents(stack: seq<string>, c: string, rest: seq<string>)
    requires Plain(c)
    ensures Reduced(stack, ["."] + rest) == Reduced(stack, rest)
    ensures Reduced(stack, [c, ".."] + rest) == Reduced(stack, rest)
    ensures Reduced([], [".."] + rest) == Reduced([], rest)
  {
    assert (["."] + rest)[1..] == rest;
    assert ([".."] + rest)[1..] == rest;
    assert ([c, ".."] + rest)[1..] == [".."] + rest;
    assert (stack + [c])[..|stack|] == stack;
  }

  // ---------- Whitespace ----------

  function TrimFront(s: string): string {
    if s != "" && IsSpace(s[0]) then TrimFront(s[1..]) else s
  }

  function TrimBack(s: string): string {
    if s != "" && IsSpace(s[|s| - 1]) then TrimBack(s[..|s| - 1]) else s
  }

  function Trimmed(s: string): string { TrimBack(TrimFront(s)) }

  lemma {:induction false} TrimBackFacts(s: string)
    ensures |TrimBack(s)| <= |s| && TrimBack(s) == s[..|TrimBack(s)|]
    ensures TrimBack(s) == s <==> s == "" || !IsSpace(s[|s| - 1])
    decreases |s|
  {
    if s != "" && IsSpace(s[|s| - 1]) {
      TrimBackFacts(s[..|s| - 1]);
    }
  }

  ghost predicate AllSpaces(s: string) { forall i :: 0 <= i < |s| ==> IsSpace(s[i]) }

  /** Trimming takes nothing but whitespace off both ends, and all of it. */
  lemma TrimmedIs(s: string) returns (a: string, b: string)
    ensures s == a + Trimmed(s) + b && AllSpaces(a) && AllSpaces(b)
    ensures Trimmed(s) != "" ==> !IsSpace(Trimmed(s)[0]) && !IsSpace(Trimmed(s)[|Trimmed(s)| - 1])
  {
    var f;
    a, f := FrontIs(s);
    b := BackIs(f);
    if f != "" { FrontKept(f); }
    assert a + (TrimBack(f) + b) == a + TrimBack(f) + b;
  }

  lemma {:induction false} FrontIs(s: string) returns (a: string, f: string)
    ensures f == TrimFront(s) && s == a + f && AllSpaces(a) && (f != "" ==> !IsSpace(f[0]))
    decreases |s|
  {
    if s != "" && IsSpace(s[0]) {
      var a';
      a', f := FrontIs(s[1..]);
      a := [s[0]] + a';
      assert s == [s[0]] + s[1..];
    } else {
      a, f := "", s;
    }
  }

  lemma {:induction false} BackIs(s: string) returns (b: string)
    ensures s == TrimBack(s) + b && AllSpaces(b) && (TrimBack(s) != "" ==> !IsSpace(TrimBack(s)[|TrimBack(s)| - 1]))
    decreases |s|
  {
    if s != "" && IsSpace(s[|s| - 1]) {
      var b' := BackIs(s[..|s| - 1]);
      b := b' + [s[|s| - 1]];
      assert s == s[..|s| - 1] + [s[|s| - 1]];
    } else {
      b := "";
    }
  }

  lemma {:induction false} FrontKept(s: string)
    requires s != "" && !IsSpace(s[0])
    ensures TrimBack(s) != "" && TrimBack(s)[0] == s[0]
    decreases |s|
  {
    if IsSpace(s[|s| - 1]) { FrontKept(s[..|s| - 1]); }
  }

  // ---------- Resolving ----------

  /** The text whose components count: the argument, or the working directory
      if there is none, made absolute. */
  function Absolute(pwd: string, path: string): string {
    var text := Trimmed(if path == "" then pwd else path);
    if text != "" && text[0] == SLASH then text else pwd + "/" + text
  }

  function Resolved(pwd: string, path: string): string { Shown(Reduced([], Components(Absolute(pwd, path)))) }

  /** A resolved path is absolute, with no empty, "." or ".." component. */
  ghost predicate Normal(p: string) { exists cs :: AllPlain(cs) && p == Shown(cs) }

  lemma PlainAreNames(cs: seq<string>)
    requires AllPlain(cs)
    ensures Names(cs)
  {
    forall i | 0 <= i < |cs| ensures Name(cs[i]) { assert Plain(cs[i]); }
  }

  lemma ResolvedIsNormal(pwd: string, path: string)
    ensures Normal(Resolved(pwd, path))
    ensures Components(Resolved(pwd, path)) == Reduced([], Components(Absolute(pwd, path)))
  {
    var cs := Components(Absolute(pwd, path));
    ComponentsAreNames(Absolute(pwd, path));
    ReducedIsPlain([], cs);
    PlainAreNames(Reduced([], cs));
    ShownRoundTrip(Reduced([], cs));
  }

  /** A relative path leads on from the working directory. */
  lemma RelativeWalksOn(pwd: string, path: string, cs: seq<string>)
    requires AllPlain(cs) && pwd == Shown(cs) && path != "" && !(Trimmed(path) != "" && Trimmed(path)[0] == SLASH)
    ensures Components(Resolved(pwd, path)) == Reduced(cs, Components(Trimmed(path)))
  {
    ResolvedIsNormal(pwd, path);
    ComponentsSplit(pwd, Trimmed(path));
    PlainAreNames(cs);
    ShownRoundTrip(cs);
    PlainIsReduced([], cs);
    ReducedSplit([], cs, Components(Trimmed(path)));
    assert [] + cs == cs;
  }

  /** An absolute path stands for itself. */
  lemma AbsoluteStands(pwd: string, path: string)
    requires Trimmed(path) != "" && Trimmed(path)[0] == SLASH
    ensures Components(Resolved(pwd, path)) == Reduced([], Components(Trimmed(path)))
  {
    ResolvedIsNormal(pwd, path);
  }

  lemma NormalFixed(p: string)
    requires Normal(p)
    ensures Shown(Reduced([], Components(p))) == p && p != "" && p[0] == SLASH
  {
    var cs :| AllPlain(cs) && p == Shown(cs);
    PlainAreNames(cs);
    ShownRoundTrip(cs);
    PlainIsReduced([], cs);
    assert [] + cs == cs;
  }

  // ---------- Length ----------

  /** The length of a printed list, a slash in front of every name. */
  function Total(cs: seq<string>): nat { if cs == [] then 0 else 1 + |cs[0]| + Total(cs[1..]) }

  lemma {:induction false} TotalSplit(a: seq<string>, b: seq<string>)
    ensures Total(a + b) == Total(a) + Total(b)
  {
    if a == [] {
      assert a + b == b;
    } else {
      assert (a + b)[1..] == a[1..] + b;
      TotalSplit(a[1..], b);
    }
  }

  lemma {:induction false} JoinLength(cs: seq<string>)
    ensures |Join(cs)| == if cs == [] then 0 else Total(cs) - 1
  {
    if |cs| > 1 { JoinLength(cs[1..]); }
  }

  lemma {:induction false} ComponentsTotal(s: string)
    ensures Total(Components(s)) <= |s| + if s != "" && s[0] != SLASH then 1 else 0
    decreases |s|
  {
    if s != "" {
      if s[0] == SLASH {
        ComponentsTotal(s[1..]);
      } else {
        ComponentsTotal(s[RunLength(s)..]);
      }
    }
  }

  lemma {:induction false} ReducedTotal(stack: seq<string>, cs: seq<string>)
    ensures Total(Reduced(stack, cs)) <= Total(stack) + Total(cs)
    decreases |cs|
  {
    if cs != [] {
      ReducedTotal(Entered(stack, cs[0]), cs[1..]);
      if cs[0] == ".." && stack != [] {
        assert stack == stack[..|stack| - 1] + [stack[|stack| - 1]];
        TotalSplit(stack[..|stack| - 1], [stack[|stack| - 1]]);
      } else if cs[0] != "." && cs[0] != ".." {
        TotalSplit(stack, [cs[0]]);
      }
    }
  }

  /** The resolved path is no longer than the text it was made from, so it fits
      the buffer that text fits. */
  lemma ResolvedFits(text: string)
    requires text != "" && text[0] == SLASH
    ensures |Shown(Reduced([], Components(text)))| <= |text|
  {
    ComponentsTotal(text);
    ReducedTotal([], Components(text));
    JoinLength(Reduced([], Components(text)));
  }

  /** Resolving again changes nothing, exactly when the result does not end in
      whitespace, which would be trimmed. */
  lemma ResolveIdempotent(pwd: string, p: string)
    requires Normal(p)
    ensures Resolved(pwd, p) == p <==> !IsSpace(p[|p| - 1])
  {
    NormalFixed(p);
    assert TrimFront(p) == p;
    TrimBackFacts(p);
    var t := TrimBack(p);
    if IsSpace(p[|p| - 1]) {
      FrontKept(p);
      ResolvedFits(t);
    }
  }

  // ---------- Changing the working directory ----------

  /** cd: is says which paths name a folder. */
  function Changed(pwd: string, arg: string, isFolder: string -> bool): string {
    if arg != "" && isFolder(Resolved(pwd, arg)) then Resolved(pwd, arg) else pwd
  }

  /** The working directory becomes the resolved path if that is a folder, and
      stays as it was if it is none or there is no argument. */
  lemma ChangedIs(pwd: string, arg: string, isFolder: string -> bool)
    ensures arg != "" && isFolder(Resolved(pwd, arg)) ==> Changed(pwd, arg, isFolder) == Resolved(pwd, arg)
    ensures arg == "" || !isFolder(Resolved(pwd, arg)) ==> Changed(pwd, arg, isFolder) == pwd
  {
  }

  datatype Command = Cd(arg: string, isFolder: string -> bool)

  function AfterAll(pwd: string, commands: seq<Command>): string
    decreases |commands|
  {
    if commands == [] then pwd else AfterAll(Changed(pwd, commands[0].arg, commands[0].isFolder), commands[1..])
  }

  lemma RootIsNormal()
    ensures Normal("/")
  {
    assert Shown([]) == "/";
    assert AllPlain([]);
  }

  /** Every sequence of cd commands keeps the working directory normal,
      whatever folders there are at each moment. */
  lemma {:induction false} CommandsKeepNormal(pwd: string, commands: seq<Command>)
    requires Normal(pwd)
    ensures Normal(AfterAll(pwd, commands))
    decreases |commands|
  {
    if commands != [] {
      ResolvedIsNormal(pwd, commands[0].arg);
      CommandsKeepNormal(Changed(pwd, commands[0].arg, commands[0].isFolder), commands[1..]);
    }
  }

  ghost predicate Always(commands: seq<Command>, isFolder: string -> bool) {
    forall i :: 0 <= i < |commands| ==> commands[i].isFolder == isFolder
  }

  /** While the folders stay the same, the working directory is always one of them. */
  lemma {:induction false} AlwaysInFolder(pwd: string, commands: seq<Command>, isFolder: string -> bool)
    requires isFolder(pwd) && Always(commands, isFolder)
    ensures isFolder(AfterAll(pwd, commands))
    decreases |commands|
  {
    if commands != [] {
      AlwaysInFolder(Changed(pwd, commands[0].arg, isFolder), commands[1..], isFolder);
    }
  }

  /** A folder can be left again: cd to a subfolder and then to ".." leads back. */
  lemma ThereAndBack(pwd: string, cs: seq<string>, c: string, isFolder: string -> bool)
    requires AllPlain(cs) && pwd == Shown(cs) && Plain(c) && Trimmed(c) == c
    requires isFolder(pwd) && isFolder(Shown(cs + [c]))
    ensures Changed(pwd, c, isFolder) == Shown(cs + [c])
    ensures Changed(Shown(cs + [c]), "..", isFolder) == pwd
  {
    RelativeTo(pwd, cs, c);
    assert Reduced(cs, [c]) == Reduced(cs + [c], []) == cs + [c];
    assert AllPlain(cs + [c]) by {
      forall i | 0 <= i < |cs + [c]| ensures Plain((cs + [c])[i]) { if i < |cs| { assert Plain(cs[i]); } }
    }
    assert Trimmed("..") == "..";
    RelativeTo(Shown(cs + [c]), cs + [c], "..");
    assert (cs + [c])[..|cs|] == cs;
    assert Reduced(cs + [c], [".."]) == Reduced(cs, []) == cs;
  }

  lemma RelativeTo(pwd: string, cs: seq<string>, c: string)
    requires AllPlain(cs) && pwd == Shown(cs) && Name(c) && Trimmed(c) == c
    ensures Resolved(pwd, c) == Shown(Reduced(cs, [c]))
  {
    assert SLASH !in c && c[0] in c;
    RelativeWalksOn(pwd, c, cs);
    ComponentFirst(c, "");
    assert c + "" == c && Components(c) == [c];
    ResolvedIsNormal(pwd, c);
    NormalFixed(Resolved(pwd, c));
  }
}
