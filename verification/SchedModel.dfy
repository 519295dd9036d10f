/** The round-robin scheduler as a step system over task lists and register frames. */
module SchedModel {

  type Word = x: nat | x < 0x1_0000_0000 witness 0

  const KERNEL_CS: nat := 8

  datatype TaskState = Running | Ready | Waiting | Blocked | Terminated

  /** The registers as the interrupt stub pushes them. */
  datatype Frame = Frame(gs: Word, fs: Word, es: Word, ds: Word,
                         edi: Word, esi: Word, ebp: Word, esp: Word, ebx: Word, edx: Word, ecx: Word, eax: Word,
                         interrupt: Word, error: Word,
                         eip: Word, cs: Word, eflags: Word, userEsp: Word, ss: Word)

  /** What a task structure keeps of them; the selectors are 16 bits wide. */
  datatype Saved = Saved(eax: Word, ebx: Word, ecx: Word, edx: Word, esi: Word, edi: Word, ebp: Word,
                         cs: Word, ds: Word, es: Word, fs: Word, gs: Word, ss: Word,
                         eip: Word, eflags: Word, esp: Word, kernelEsp: Word)

  function Low16(w: Word): Word { w % 0x1_0000 }

  /** The saved registers after a task with registers f was suspended. */
  function Suspend(s: Saved, f: Frame): Saved {
    Saved(f.eax, f.ebx, f.ecx, f.edx, f.esi, f.edi, f.ebp,
          Low16(f.cs), Low16(f.ds), Low16(f.es), Low16(f.fs), Low16(f.gs),
          if f.cs != KERNEL_CS then Low16(f.ss) else s.ss,
          f.eip, f.eflags, if f.cs != KERNEL_CS then f.userEsp else s.esp, f.esp)
  }

  /** The frame f after the registers of a task were put back into it. */
  function Resume(s: Saved, f: Frame): Frame {
    Frame(s.gs, s.fs, s.es, s.ds, s.edi, s.esi, s.ebp, s.kernelEsp, s.ebx, s.edx, s.ecx, s.eax, f.interrupt, f.error,
          s.eip, s.cs, s.eflags, if s.cs != KERNEL_CS then s.esp else f.userEsp, if s.cs != KERNEL_CS then s.ss
              else f.ss)
  }

  /** Every field of the frame out is that of the saved registers; the stack that a
      return to kernel code does not look at, and what the stub itself pushed, are
      those of the frame regs. */
  ghost predicate Restored(s: Saved, regs: Frame, out: Frame) {
    && out.eax == s.eax && out.ebx == s.ebx && out.ecx == s.ecx && out.edx == s.edx
    && out.esi == s.esi && out.edi == s.edi && out.ebp == s.ebp
    && out.cs == s.cs && out.ds == s.ds && out.es == s.es && out.fs == s.fs && out.gs == s.gs
    && out.eip == s.eip && out.eflags == s.eflags && out.esp == s.kernelEsp
    && out.userEsp == (if s.cs == 8 then regs.userEsp else s.esp) && out.ss == (if s.cs == 8 then regs.ss else s.ss)
    && out.interrupt == regs.interrupt && out.error == regs.error
  }

  /** Every saved register is the field of the frame f with its name, the selectors
      as far as they fit 16 bits; the user stack is kept when kernel code was interrupted. */
  ghost predicate Kept(s0: Saved, f: Frame, s: Saved) {
    && s.eax == f.eax && s.ebx == f.ebx && s.ecx == f.ecx && s.edx == f.edx
    && s.esi == f.esi && s.edi == f.edi && s.ebp == f.ebp
    && s.cs == f.cs % 0x1_0000 && s.ds == f.ds % 0x1_0000 && s.es == f.es % 0x1_0000
    && s.fs == f.fs % 0x1_0000 && s.gs == f.gs % 0x1_0000
    && s.eip == f.eip && s.eflags == f.eflags && s.kernelEsp == f.esp
    && s.esp == (if f.cs == 8 then s0.esp else f.userEsp)
    && s.ss == (if f.cs == 8 then s0.ss else f.ss % 0x1_0000)
  }

  lemma SavedByName(s: Saved, f: Frame)
    ensures Kept(s, f, Suspend(s, f)) && Restored(s, f, Resume(s, f))
  {
  }

  /** The registers that task_create gives a task: it starts in kernel code at
      callback, with interrupts enabled and the given stack. */
  function Created(callback: Word, stack: Word): Saved {
    Saved(0, 0, 0, 0, 0, 0, 0, KERNEL_CS, 0x10, 0x10, 0, 0, 0x10, callback, 0x202, 0, stack)
  }

  /** So it first runs at its callback, on its own stack. */
  lemma FirstRun(callback: Word, stack: Word, regs: Frame, out: Frame)
    requires Restored(Created(callback, stack), regs, out)
    ensures out.eip == callback && out.esp == stack && out.eflags == 0x202
    ensures out.cs == 8 && out.ds == 0x10 && out.es == 0x10 && out.fs == 0 && out.gs == 0
    ensures out.eax == out.ebx == out.ecx == out.edx == out.esi == out.edi == out.ebp == 0
  {
  }

  /** Two frames are the same to the task that runs with them. A return to kernel
      code does not look at the user stack. */
  ghost predicate SameContext(f: Frame, g: Frame) {
    f.(interrupt := 0, error := 0, userEsp := 0, ss := 0) == g.(interrupt := 0, error := 0, userEsp := 0, ss := 0) &&
    (f.cs != KERNEL_CS ==> f.userEsp == g.userEsp && f.ss == g.ss)
  }

  ghost predicate SelectorsFit(f: Frame) {
    f.gs < 0x1_0000 && f.fs < 0x1_0000 && f.es < 0x1_0000 && f.ds < 0x1_0000 && f.cs < 0x1_0000 &&
    (f.cs != KERNEL_CS ==> f.ss < 0x1_0000)
  }

  /** A resumed task finds the registers it was suspended with, exactly when its
      selectors fit the 16-bit fields. */
  lemma ResumeUndoesSuspend(s: Saved, f: Frame, g: Frame)
    ensures SameContext(Resume(Suspend(s, f), g), f) <==> SelectorsFit(f)
    ensures Resume(Suspend(s, f), g).interrupt == g.interrupt && Resume(Suspend(s, f), g).error == g.error
  {
    assert Low16(f.cs) == f.cs <==> f.cs < 0x1_0000;
    assert Low16(f.ss) == f.ss <==> f.ss < 0x1_0000;
  }

  // ---------- Tasks in a list ----------

  /** A task structure in memory. */
  class Task {
    var next: Task?
    const pid: Word
    var saved: Saved
    var state: TaskState

    constructor (pid: Word, saved: Saved)
      ensures this.pid == pid && this.saved == saved && state == Ready && next == null
    {
      this.next, this.pid, this.saved, this.state := null, pid, saved, Ready;
    }

    /** task_create */
    constructor Create(callback: Word, pid: Word, stack: Word)
      ensures this.pid == pid && state == Ready && next == null
      ensures saved.eip == callback && saved.kernelEsp == stack && saved == Created(callback, stack)
    {
      this.next, this.pid, this.state := null, pid, Ready;
      this.saved := Saved(0, 0, 0, 0, 0, 0, 0, 0x08, 0x10, 0x10, 0x00, 0x00, 0x10, callback, 0x202, 0x00, stack);
    }
  }

  datatype Info = Info(state: TaskState, saved: Saved)

  /** The task list in order, the position of the current task in it (or -1),
      and what the task structures say. */
  datatype Sys = Sys(order: seq<Task>, cur: int, info: seq<Info>)

  ghost predicate Apart(order: seq<Task>, i: nat, j: nat)
    requires i < |order| && j < |order|
  {
    order[i] != order[j] && order[i].pid != order[j].pid
  }

  ghost predicate Distinct(order: seq<Task>) {
    forall i, j :: 0 <= i < j < |order| ==> Apart(order, i, j)
  }

  ghost predicate ReadyAt(s: Sys, j: int) { 0 <= j < |s.info| && s.info[j].state == Ready }

  ghost predicate RunningAt(s: Sys, j: int) { 0 <= j < |s.info| && s.info[j].state == Running }

  /** Every task is listed once; no task but the current one is marked as running. */
  ghost predicate Wf(s: Sys) {
    && |s.info| == |s.order| && -1 <= s.cur < |s.order| && Distinct(s.order)
    && forall j :: RunningAt(s, j) ==> j == s.cur
  }

  ghost function CurrentOf(s: Sys): Task? { if 0 <= s.cur < |s.order| then s.order[s.cur] else null }

  lemma SamePlace(order: seq<Task>, i: nat, j: nat)
    requires Distinct(order) && i < |order| && j < |order| && (order[i] == order[j] || order[i].pid == order[j].pid)
    ensures i == j
  {
    assert i < j ==> Apart(order, i, j);
    assert j < i ==> Apart(order, j, i);
  }

  /** How far position i is ahead of position c in a circle of n; the whole circle for c itself. */
  function Ahead(n: nat, c: int, i: int): int { if i > c then i - c else i - c + n }

  /** The circular distance from the current task to position j. */
  ghost function Distance(s: Sys, j: int): int { Ahead(|s.order|, s.cur, j) }

  // ---------- One step ----------

  /** No task nearer than d is ready. */
  ghost predicate NoneNearer(s: Sys, d: int) {
    forall j :: ReadyAt(s, j) ==> Distance(s, j) >= d
  }

  /** Position k holds the first ready task after the current one, counting in a
      circle, or the current one when no other is ready. */
  ghost predicate Elected(s: Sys, k: int) {
    if s.order == [] then k == -1
    else 0 <= k < |s.order| && (k == s.cur || ReadyAt(s, k)) && NoneNearer(s, Distance(s, k))
  }

  /** schedule finds a task: the list is empty, or it has a current or a ready task. */
  ghost predicate CanElect(s: Sys) {
    s.order == [] || s.cur >= 0 || exists j :: ReadyAt(s, j)
  }

  lemma ElectedIsUnique(s: Sys, k: int, l: int)
    requires Wf(s) && Elected(s, k) && Elected(s, l)
    ensures k == l
  {
  }

  /** Somebody is elected exactly when the list is empty or has a current or a
      ready task. */
  lemma ElectionExists(s: Sys)
    requires Wf(s)
    ensures CanElect(s) <==> exists k :: Elected(s, k)
  {
    if s.order == [] {
      assert Elected(s, -1);
    } else if j :| ReadyAt(s, j) {
      var k := Nearest(s, j);
      assert Elected(s, k);
    } else if s.cur >= 0 {
      assert Elected(s, s.cur);
    }
  }

  lemma {:induction false} Nearest(s: Sys, j: int) returns (k: int)
    requires Wf(s) && ReadyAt(s, j)
    ensures ReadyAt(s, k) && NoneNearer(s, Distance(s, k))
    decreases Distance(s, j)
  {
    k := j;
    if i :| ReadyAt(s, i) && Distance(s, i) < Distance(s, j) {
      k := Nearest(s, i);
    }
  }

  /** The interrupted task is saved and ready again. */
  ghost function Suspended(s: Sys, regs: Frame): Sys
    requires |s.info| == |s.order|
  {
    if 0 <= s.cur < |s.order| then s.(info := s.info[s.cur := Info(Ready, Suspend(s.info[s.cur].saved, regs))]) else s
  }

  /** The task at position k runs. */
  ghost function Started(s: Sys, k: int): Sys {
    if 0 <= k < |s.info| then s.(cur := k, info := s.info[k := s.info[k].(state := Running)]) else s.(cur := k)
  }

  /** One timer interrupt, with the frame regs of the interrupted task, that
      returns with the frame out. */
  ghost predicate Ticked(s: Sys, regs: Frame, s': Sys, out: Frame) {
    && |s.info| == |s.order|
    && var mid := Suspended(s, regs);
    && Elected(mid, s'.cur) && s' == Started(mid, s'.cur)
    && out == if 0 <= s'.cur < |mid.info| then Resume(mid.info[s'.cur].saved, regs) else regs
  }

  ghost function Added(s: Sys, t: Task, i: Info): Sys {
    Sys([t] + s.order, if s.cur < 0 then s.cur else s.cur + 1, [i] + s.info)
  }

  /** The position of the first task with the given pid. */
  ghost function PidIndex(order: seq<Task>, pid: Word): (i: nat)
    ensures i <= |order| && (i < |order| ==> order[i].pid == pid)
  {
    if order == [] || order[0].pid == pid then 0 else 1 + PidIndex(order[1..], pid)
  }

  lemma {:induction false} PidIndexIs(order: seq<Task>, pid: Word, i: nat)
    requires i <= |order| && (i < |order| ==> order[i].pid == pid) && forall k :: 0 <= k < i ==> order[k].pid != pid
    ensures PidIndex(order, pid) == i
  {
    if i > 0 {
      assert order[0].pid != pid;
      PidIndexIs(order[1..], pid, i - 1);
    }
  }

  ghost function Dropped<T>(a: seq<T>, i: nat): seq<T>
    requires i < |a|
  {
    a[..i] + a[i + 1..]
  }

  /** The task at position r leaves the list; if it is the current one, the first
      task becomes current. */
  ghost function DroppedAt(s: Sys, r: nat): Sys
    requires r < |s.order| == |s.info|
  {
    Sys(Dropped(s.order, r),
        if s.cur == r then (if |s.order| == 1 then -1 else 0) else if s.cur > r then s.cur - 1 else s.cur,
        Dropped(s.info, r))
  }

  /** The first task with the given pid, if there is one, leaves the list. */
  ghost function Removed(s: Sys, pid: Word): Sys
    requires |s.order| == |s.info|
  {
    var r := PidIndex(s.order, pid);
    if r == |s.order| then s else DroppedAt(s, r)
  }

  lemma SuspendKeepsWf(s: Sys, regs: Frame)
    requires Wf(s)
    ensures Wf(Suspended(s, regs)) && (CanElect(s) ==> CanElect(Suspended(s, regs)))
  {
    var mid := Suspended(s, regs);
    assert forall j :: RunningAt(mid, j) ==> RunningAt(s, j);
    if j :| ReadyAt(s, j) { assert ReadyAt(mid, j); }
  }

  lemma TickKeepsWf(s: Sys, regs: Frame, s': Sys, out: Frame)
    requires Wf(s) && Ticked(s, regs, s', out)
    ensures Wf(s') && s'.order == s.order && (s'.cur >= 0 ==> RunningAt(s', s'.cur))
  {
    var mid := Suspended(s, regs);
    assert forall j :: RunningAt(s', j) && j != s'.cur ==> RunningAt(mid, j);
    assert forall j :: RunningAt(mid, j) ==> RunningAt(s, j) && j != s.cur;
  }

  lemma AddKeepsWf(s: Sys, t: Task, i: Info)
    requires Wf(s) && i.state != Running && forall j :: 0 <= j < |s.order| ==>
               s.order[j] != t && s.order[j].pid != t.pid
    ensures Wf(Added(s, t, i))
  {
    var s' := Added(s, t, i);
    forall j | RunningAt(s', j) ensures j == s'.cur {
      assert j > 0 && RunningAt(s, j - 1);
    }
    forall j, k | 0 <= j < k < |s'.order| ensures Apart(s'.order, j, k) {
      if j > 0 { assert Apart(s.order, j - 1, k - 1); }
    }
  }

  lemma DropKeepsWf(s: Sys, r: nat)
    requires Wf(s) && r < |s.order|
    ensures Wf(DroppedAt(s, r))
  {
    var s' := DroppedAt(s, r);
    forall j | RunningAt(s', j) ensures j == s'.cur {
      assert RunningAt(s, if j < r then j else j + 1);
    }
    forall j, k | 0 <= j < k < |s'.order| ensures Apart(s'.order, j, k) {
      assert Apart(s.order, if j < r then j else j + 1, if k < r then k else k + 1);
    }
  }

  lemma RemoveKeepsWf(s: Sys, pid: Word)
    requires Wf(s)
    ensures Wf(Removed(s, pid))
  {
    var r := PidIndex(s.order, pid);
    if r < |s.order| { DropKeepsWf(s, r); }
  }

  /** The current task is the one removed exactly when it has that pid. */
  lemma PidOfCurrent(s: Sys, pid: Word)
    requires Wf(s) && s.cur >= 0
    ensures s.order[s.cur].pid == pid <==> PidIndex(s.order, pid) == s.cur
  {
    var r := PidIndex(s.order, pid);
    if s.order[s.cur].pid == pid {
      if r < |s.order| { SamePlace(s.order, r, s.cur); } else { PidFound(s.order, pid, s.cur); }
    }
  }

  lemma {:induction false} PidFound(order: seq<Task>, pid: Word, k: nat)
    requires k < |order| && order[k].pid == pid
    ensures PidIndex(order, pid) <= k
  {
    if k > 0 { PidFound(order[1..], pid, k - 1); }
  }

  lemma RemovedCurrent(s: Sys, pid: Word)
    requires Wf(s)
    ensures var s' := Removed(s, pid);
      && Wf(s')
      && CurrentOf(s') ==
         if CurrentOf(s) != null && CurrentOf(s).pid == pid then (if s'.order == [] then null else s'.order[0])
         else CurrentOf(s)
  {
    RemoveKeepsWf(s, pid);
    if s.cur >= 0 { PidOfCurrent(s, pid); }
  }

  /** The three parts of the timer handler make up a tick. */
  lemma TickParts(s: Sys, regs: Frame, mid: Sys, k: int, s': Sys, out: Frame)
    requires Wf(s) && mid == Suspended(s, regs) && Elected(mid, k) && s' == Started(mid.(cur := k), k)
    requires out == if k < 0 then regs else Resume(mid.info[k].saved, regs)
    ensures Wf(s') && Step(s, Tick(regs, out), s')
  {
    TickKeepsWf(s, regs, s', out);
  }

  /** Only the interrupted task's saved registers change; only the interrupted
      and the chosen task change state. */
  lemma TickTouches(s: Sys, regs: Frame, s': Sys, out: Frame, j: nat)
    requires Wf(s) && Ticked(s, regs, s', out) && j < |s.order|
    ensures |s'.info| == |s.info|
    ensures s'.info[j].saved == if j == s.cur then Suspend(s.info[j].saved, regs) else s.info[j].saved
    ensures j != s'.cur ==> s'.info[j].state == if j == s.cur then Ready else s.info[j].state
  {
  }

  /** Without tasks an interrupt changes nothing. */
  lemma IdleTick(s: Sys, regs: Frame, s': Sys, out: Frame)
    requires Wf(s) && Ticked(s, regs, s', out) && s.order == []
    ensures s' == s && out == regs
  {
  }

  // ---------- The search ----------

  /** The search for a ready task stands at position k, and all tasks passed are not ready. */
  ghost predicate Reached(s: Sys, k: int) {
    if s.order == [] then k == -1
    else 0 <= k < |s.order| && NoneNearer(s, Distance(s, k)) && (k == s.cur ==> |s.order| == 1)
  }

  /** The position behind k, around the circle. */
  function Follower(n: nat, k: int): int { if k + 1 < n then k + 1 else 0 }

  lemma ReachedFirst(s: Sys)
    requires Wf(s) && s.order != []
    ensures Reached(s, Follower(|s.order|, s.cur))
  {
  }

  lemma ReachedStep(s: Sys, k: nat)
    requires Wf(s) && CanElect(s) && Reached(s, k) && k < |s.order| && !ReadyAt(s, k)
    ensures var u := Follower(|s.order|, k);
      if u == s.cur then Elected(s, u) else Reached(s, u) && Distance(s, k) < Distance(s, u) <= |s.order|
  {
  }

  /** The position that the search looks at after m rounds of its loop. */
  ghost function Visited(s: Sys, m: nat): int {
    Follower(|s.order|, if m == 0 then s.cur else Visited(s, m - 1))
  }

  /** The loop stops after m rounds: there is no task at all, or a ready one was
      found, or it is back at the current one. */
  ghost predicate StopsAt(s: Sys, m: nat) {
    s.order == [] || ReadyAt(s, Visited(s, m)) || (m > 0 && Visited(s, m) == s.cur)
  }

  ghost predicate NoStopBefore(s: Sys, m: nat) { forall l: nat :: l < m ==> !StopsAt(s, l) }

  /** The round in which the loop is left. */
  ghost predicate StopsFirst(s: Sys, m: nat) { StopsAt(s, m) && NoStopBefore(s, m) }

  lemma {:induction false} VisitedInside(s: Sys, m: nat)
    requires -1 <= s.cur < |s.order| && s.order != []
    ensures 0 <= Visited(s, m) < |s.order|
  {
    if m > 0 { VisitedInside(s, m - 1); }
  }

  lemma {:induction false} VisitedNext(s: Sys, m: nat, d: nat)
    requires 0 <= Visited(s, m) && Visited(s, m) + d < |s.order|
    ensures Visited(s, m + d) == Visited(s, m) + d
    decreases d
  {
    if d > 0 { VisitedNext(s, m, d - 1); }
  }

  /** Once around the circle the search comes to every position. */
  lemma Around(s: Sys, k: nat) returns (m: nat)
    requires -1 <= s.cur < |s.order| && k < |s.order|
    ensures m > 0 && Visited(s, m) == k
  {
    var d := |s.order| - 1 - Visited(s, 0);
    VisitedNext(s, 0, d);
    assert Visited(s, d + 1) == 0;
    VisitedNext(s, d + 1, k);
    m := d + 1 + k;
  }

  /** The search stops at some time exactly when the list is empty or has a
      current or a ready task; otherwise its loop goes round for ever. */
  lemma SearchEnds(s: Sys)
    requires Wf(s)
    ensures CanElect(s) <==> exists m: nat :: StopsAt(s, m)
  {
    if s.order == [] {
      assert StopsAt(s, 0);
    } else if s.cur >= 0 {
      var m := Around(s, s.cur);
      assert StopsAt(s, m);
    } else if j :| ReadyAt(s, j) {
      var m := Around(s, j);
      assert StopsAt(s, m);
    } else {
      forall m: nat ensures !StopsAt(s, m) { VisitedInside(s, m); }
    }
  }

  // ---------- Waiting ----------

  /** A tick brings a ready task nearer to the head of the circle, or runs it. */
  lemma TickCloser(s: Sys, regs: Frame, s': Sys, out: Frame, k: nat)
    requires Wf(s) && Ticked(s, regs, s', out) && k != s.cur && ReadyAt(s, k)
    ensures s'.cur == k || (Distance(s', k) < Distance(s, k) && ReadyAt(s', k))
  {
    assert ReadyAt(Suspended(s, regs), k);
  }

  lemma AddFurther(s: Sys, t: Task, i: Info, k: nat)
    requires Wf(s) && k < |s.order| && k != s.cur
    ensures Distance(Added(s, t, i), k + 1) <= Distance(s, k) + 1
  {
  }

  /** Where position k is found after position r was dropped. */
  function After(r: nat, k: nat): int { if k < r then k else k - 1 }

  lemma DropNoFurther(s: Sys, r: nat, k: nat)
    requires Wf(s) && r < |s.order| && r != s.cur && k < |s.order| && k != r && k != s.cur
    ensures var s', k' := DroppedAt(s, r), After(r, k);
      && 0 <= k' < |s'.order| && s'.order[k'] == s.order[k] && s'.info[k'] == s.info[k] && k' != s'.cur
      && Distance(s', k') <= Distance(s, k)
  {
  }

  // ---------- Runs ----------

  /** A timer interrupt, a new task, or the removal of a task followed by its timer interrupt. */
  datatype Event = Tick(regs: Frame, out: Frame) | Add(t: Task, info: Info) | Remove(pid: Word, regs: Frame, out: Frame)

  ghost predicate IsNew(order: seq<Task>, t: Task) {
    forall j :: 0 <= j < |order| ==> order[j] != t && order[j].pid != t.pid
  }

  ghost predicate Step(s: Sys, e: Event, s': Sys)
    requires |s.info| == |s.order|
  {
    match e
    case Tick(regs, out) => Ticked(s, regs, s', out)
    case Add(t, i) => IsNew(s.order, t) && i.state != Running && s' == Added(s, t, i)
    case Remove(pid, regs, out) => Ticked(Removed(s, pid), regs, s', out)
  }

  /** The current task is removed. */
  ghost predicate SelfRemoval(s: Sys, e: Event) {
    e.Remove? && 0 <= s.cur < |s.order| && s.order[s.cur].pid == e.pid
  }

  /** Event i leads from state i to state i + 1. */
  ghost predicate StepAt(states: seq<Sys>, events: seq<Event>, i: nat)
    requires i < |events| && |states| == |events| + 1
  {
    Wf(states[i]) && Step(states[i], events[i], states[i + 1])
  }

  ghost predicate Run(states: seq<Sys>, events: seq<Event>) {
    && |states| == |events| + 1 && Wf(states[0])
    && forall i :: 0 <= i < |events| ==> StepAt(states, events, i)
  }

  lemma StepKeepsWf(s: Sys, e: Event, s': Sys)
    requires Wf(s) && Step(s, e, s')
    ensures Wf(s')
  {
    match e
    case Tick(regs, out) => TickKeepsWf(s, regs, s', out);
    case Add(t, i) => AddKeepsWf(s, t, i);
    case Remove(pid, regs, out) =>
      RemoveKeepsWf(s, pid);
      TickKeepsWf(Removed(s, pid), regs, s', out);
  }

  lemma RunKeepsWf(states: seq<Sys>, events: seq<Event>, i: nat)
    requires Run(states, events) && i <= |events|
    ensures Wf(states[i])
  {
    if i > 0 {
      assert StepAt(states, events, i - 1);
      StepKeepsWf(states[i - 1], events[i - 1], states[i]);
    }
  }

  /** How many timer interrupts there are from event i on. */
  ghost function Ticks(events: seq<Event>, i: nat): nat
    requires i <= |events|
    decreases |events| - i
  {
    if i == |events| then 0 else (if events[i].Add? then 0 else 1) + Ticks(events, i + 1)
  }

  ghost function Adds(events: seq<Event>, i: nat): nat
    requires i <= |events|
    decreases |events| - i
  {
    if i == |events| then 0 else (if events[i].Add? then 1 else 0) + Adds(events, i + 1)
  }

  /** What the removals of current tasks from event i on cost: each sends the
      search back to the head of the list, at most one round of it behind. */
  ghost function Restarts(states: seq<Sys>, events: seq<Event>, i: nat): nat
    requires i <= |events| && |states| == |events| + 1
    decreases |events| - i
  {
    if i == |events| then 0
    else (if SelfRemoval(states[i], events[i]) then |states[i + 1].order| else 0) + Restarts(states, events, i + 1)
  }

  /** t is at position k, and ready unless it is the current task. */
  ghost predicate WillingAt(s: Sys, t: Task, k: int) {
    0 <= k < |s.order| && s.order[k] == t && (k == s.cur || ReadyAt(s, k))
  }

  ghost predicate Willing(s: Sys, t: Task) { exists k :: WillingAt(s, t, k) }

  /** One event of a run: t gets nearer, but for a task added in front of it, or
      the removal of the current task. */
  lemma StepCloser(s: Sys, e: Event, s': Sys, t: Task, k: nat, k': nat)
    requires Wf(s) && Step(s, e, s')
    requires WillingAt(s, t, k) && WillingAt(s', t, k') && k != s.cur && k' != s'.cur
    ensures Distance(s', k') <=
            Distance(s, k) + (if e.Add? then 1 else -1) + if SelfRemoval(s, e) then |s'.order| else 0
  {
    StepKeepsWf(s, e, s');
    if SelfRemoval(s, e) { return; }
    match e
    case Tick(regs, out) =>
      SamePlace(s.order, k, k');
      TickCloser(s, regs, s', out, k);
    case Add(n, i) =>
      SamePlace(s'.order, k + 1, k');
      AddFurther(s, n, i, k);
    case Remove(pid, regs, out) =>
      RemovedCloser(s, pid, regs, out, s', t, k, k');
  }

  lemma RemovedCloser(s: Sys, pid: Word, regs: Frame, out: Frame, s': Sys, t: Task, k: nat, k': nat)
    requires Wf(s) && Ticked(Removed(s, pid), regs, s', out) && (s.cur >= 0 ==> s.order[s.cur].pid != pid)
    requires WillingAt(s, t, k) && WillingAt(s', t, k') && k != s.cur && k' != s'.cur
    ensures Distance(s', k') <= Distance(s, k) - 1
  {
    var mid, r := Removed(s, pid), PidIndex(s.order, pid);
    RemoveKeepsWf(s, pid);
    var l := k;
    if r < |s.order| {
      if k == r { NotBack(s, r, k'); }
      DropNoFurther(s, r, k);
      l := After(r, k);
    }
    SamePlace(mid.order, l, k');
    TickCloser(mid, regs, s', out, l);
  }

  /** A dropped task is no longer in the list. */
  lemma NotBack(s: Sys, r: nat, k: nat)
    requires Wf(s) && r < |s.order| && k < |s.order| - 1
    ensures Dropped(s.order, r)[k] != s.order[r]
  {
    var o := if k < r then k else k + 1;
    if s.order[o] == s.order[r] { SamePlace(s.order, r, o); }
  }

  lemma {:induction false} WaitingFrom(states: seq<Sys>, events: seq<Event>, i: nat, t: Task, k: nat)
    requires Run(states, events) && i <= |events|
    requires forall j :: i <= j < |states| ==> Willing(states[j], t) && CurrentOf(states[j]) != t
    requires WillingAt(states[i], t, k)
    ensures Ticks(events, i) < Distance(states[i], k) + Adds(events, i) + Restarts(states, events, i)
    decreases |events| - i
  {
    RunKeepsWf(states, events, i);
    assert CurrentOf(states[i]) != t;
    if i < |events| {
      assert StepAt(states, events, i) && Willing(states[i + 1], t) && CurrentOf(states[i + 1]) != t;
      var k' :| WillingAt(states[i + 1], t, k');
      StepCloser(states[i], events[i], states[i + 1], t, k, k');
      WaitingFrom(states, events, i + 1, t, k');
    }
  }

  /** Bounded waiting: a task of a list of n that stays ready becomes the current
      one within n timer interrupts, plus one for every task added meanwhile, and
      the length of the list for every current task that was removed. */
  lemma BoundedWaiting(states: seq<Sys>, events: seq<Event>, t: Task)
    requires Run(states, events) && forall j :: 0 <= j < |states| ==> Willing(states[j], t)
    requires Ticks(events, 0) >= |states[0].order| + Adds(events, 0) + Restarts(states, events, 0)
    ensures exists j :: 0 <= j < |states| && CurrentOf(states[j]) == t
  {
    if forall j :: 0 <= j < |states| ==> CurrentOf(states[j]) != t {
      assert Willing(states[0], t);
      var k :| WillingAt(states[0], t, k);
      WaitingFrom(states, events, 0, t, k);
    }
  }

  // ---------- Contexts ----------

  const Boot: Sys := Sys([], -1, [])

  /** Where the registers of a task come from. */
  datatype Origin = Never | Made(saved: Saved) | Left(frame: Frame)

  /** The task in whose name the event saves the registers. */
  ghost function SavedFor(s: Sys, e: Event): Task?
    requires |s.info| == |s.order|
  {
    match e
    case Tick(_, _) => CurrentOf(s)
    case Add(_, _) => null
    case Remove(pid, _, _) => CurrentOf(Removed(s, pid))
  }

  /** It is the current task, but after the removal of the current task the first
      one that is left. */
  lemma SavedForIs(s: Sys, e: Event)
    requires Wf(s) && !e.Add?
    ensures !SelfRemoval(s, e) ==> SavedFor(s, e) == CurrentOf(s)
    ensures SelfRemoval(s, e) ==>
              SavedFor(s, e) != CurrentOf(s) &&
              SavedFor(s, e) == var order := Removed(s, e.pid).order; if order == [] then null else order[0]
  {
    if e.Remove? {
      RemovedCurrent(s, e.pid);
      if SelfRemoval(s, e) {
        PidOfCurrent(s, e.pid);
        if |s.order| > 1 { NotBack(s, s.cur, 0); }
      }
    }
  }

  /** The registers last saved in the name of t before event i, or else those it
      was created with. */
  ghost function LastLeft(states: seq<Sys>, events: seq<Event>, i: nat, t: Task): Origin
    requires Run(states, events) && i <= |events|
  {
    if i == 0 then Never
    else if events[i - 1].Add? then
      if events[i - 1].t == t then Made(events[i - 1].info.saved)
      else LastLeft(states, events, i - 1, t)
    else
      assert StepAt(states, events, i - 1);
      if SavedFor(states[i - 1], events[i - 1]) == t then Left(events[i - 1].regs)
      else LastLeft(states, events, i - 1, t)
  }

  ghost predicate Holds(o: Origin, saved: Saved) {
    match o
    case Never => false
    case Made(s) => saved == s
    case Left(f) => saved == Suspend(saved, f)
  }

  /** What one event does to the saved registers of the task at position k
      afterwards: l is where it was before. */
  lemma StepContext(s: Sys, e: Event, s': Sys, k: nat) returns (l: int)
    requires Wf(s) && Step(s, e, s') && k < |s'.order|
    ensures Wf(s') && (l < 0 <==> e.Add? && e.t == s'.order[k]) && (l < 0 ==> s'.info[k] == e.info)
    ensures l >= 0 ==>
              && l < |s.order| && s.order[l] == s'.order[k]
              && s'.info[k].saved ==
                 if SavedFor(s, e) == s'.order[k] then Suspend(s.info[l].saved, e.regs) else s.info[l].saved
  {
    StepKeepsWf(s, e, s');
    l := k;
    match e
    case Tick(regs, out) => TickContext(s, regs, s', out, k);
    case Add(t, i) =>
      l := k - 1;
      if k > 0 { SameNot(s.order, t, k - 1); }
    case Remove(pid, regs, out) =>
      RemoveKeepsWf(s, pid);
      TickContext(Removed(s, pid), regs, s', out, k);
      var r := PidIndex(s.order, pid);
      if r < |s.order| && r <= k { l := k + 1; }
  }

  lemma TickContext(s: Sys, regs: Frame, s': Sys, out: Frame, k: nat)
    requires Wf(s) && Ticked(s, regs, s', out) && k < |s.order|
    ensures s'.order == s.order && |s'.info| == |s.info|
    ensures s'.info[k].saved == if CurrentOf(s) == s.order[k] then Suspend(s.info[k].saved, regs) else s.info[k].saved
  {
    TickKeepsWf(s, regs, s', out);
    TickTouches(s, regs, s', out, k);
    if CurrentOf(s) == s.order[k] { SamePlace(s.order, s.cur, k); }
  }

  lemma SameNot(order: seq<Task>, t: Task, j: nat)
    requires IsNew(order, t) && j < |order|
    ensures order[j] != t
  {
  }

  lemma {:induction false} ContextsKept(states: seq<Sys>, events: seq<Event>, i: nat, k: nat)
    requires Run(states, events) && states[0] == Boot && i <= |events| && k < |states[i].order|
    ensures Wf(states[i]) && Holds(LastLeft(states, events, i, states[i].order[k]), states[i].info[k].saved)
  {
    RunKeepsWf(states, events, i);
    if i > 0 {
      assert StepAt(states, events, i - 1);
      var s, e := states[i - 1], events[i - 1];
      var l := StepContext(s, e, states[i], k);
      if l >= 0 {
        ContextsKept(states, events, i - 1, l);
      }
    }
  }

  /** What a resumed task must find in its registers. */
  ghost predicate Delivers(o: Origin, regs: Frame, out: Frame) {
    match o
    case Never => false
    case Made(s) => Restored(s, regs, out)
    case Left(f) => SameContext(out, f) <==> SelectorsFit(f)
  }

  lemma HeldIsDelivered(o: Origin, saved: Saved, regs: Frame)
    requires Holds(o, saved)
    ensures Delivers(o, regs, Resume(saved, regs))
  {
    SavedByName(saved, regs);
    if o.Left? { ResumeUndoesSuspend(saved, o.frame, regs); }
  }

  lemma ResumeReads(s: Sys, regs: Frame, s': Sys, out: Frame)
    requires Wf(s) && Ticked(s, regs, s', out) && s'.cur >= 0
    ensures s'.cur < |s'.info| && out == Resume(s'.info[s'.cur].saved, regs)
  {
  }

  /** Context conservation: every time a task is resumed it gets the registers
      last saved in its name, or those it was created with. */
  lemma ResumeDelivers(states: seq<Sys>, events: seq<Event>, i: nat)
    requires Run(states, events) && states[0] == Boot && i < |events| && !events[i].Add?
    requires CurrentOf(states[i + 1]) != null
    ensures Delivers(LastLeft(states, events, i + 1, CurrentOf(states[i + 1])), events[i].regs, events[i].out)
  {
    assert StepAt(states, events, i);
    var s, e, s' := states[i], events[i], states[i + 1];
    ContextsKept(states, events, i + 1, s'.cur);
    RemoveOrTick(s, e, s');
    HeldIsDelivered(LastLeft(states, events, i + 1, s'.order[s'.cur]), s'.info[s'.cur].saved, e.regs);
  }

  lemma RemoveOrTick(s: Sys, e: Event, s': Sys)
    requires Wf(s) && Step(s, e, s') && !e.Add? && s'.cur >= 0
    ensures s'.cur < |s'.info| && e.out == Resume(s'.info[s'.cur].saved, e.regs)
  {
    match e
    case Tick(regs, out) => ResumeReads(s, regs, s', out);
    case Remove(pid, regs, out) =>
      RemoveKeepsWf(s, pid);
      ResumeReads(Removed(s, pid), regs, s', out);
  }

  /** An interrupt leaves the saved registers of the task at position j alone. */
  ghost predicate ContextKept(d: Sys, regs: Frame, j: int)
    requires |d.info| == |d.order|
  {
    0 <= j < |d.info| ==> Suspended(d, regs).info[j].saved == d.info[j].saved
  }

  /** After the removal of the task at position r, the interrupt that follows
      leaves all tasks alone but one that was interrupted. */
  ghost predicate ContextsStay(s: Sys, r: nat)
    requires r < |s.order| == |s.info|
  {
    forall regs: Frame, j: int :: r == s.cur || j != DroppedAt(s, r).cur ==> ContextKept(DroppedAt(s, r), regs, j)
  }

  /** Removing the current task is different: unless it was the only one, the
      interrupt that follows saves its registers in the task at the head of the
      list. Removing any other task leaves the remaining contexts alone. */
  lemma SelfRemovalOverwrites(s: Sys, r: nat)
    requires Wf(s) && r < |s.order|
    ensures ContextsStay(s, r) <==> !(r == s.cur && |s.order| > 1)
  {
    var d := DroppedAt(s, r);
    if r == s.cur && |s.order| > 1 {
      var w: Word := if d.info[0].saved.eip == 0 then 1 else 0;
      var regs := Frame(0, 0, 0, 0, 0, 0, 0, 0, 0, 0, 0, 0, 0, 0, w, 0, 0, 0, 0);
      assert Suspended(d, regs).info[0].saved.eip == w;
      assert !ContextKept(d, regs, 0);
    } else {
      forall regs: Frame, j: int | r == s.cur || j != d.cur ensures ContextKept(d, regs, j) {}
    }
  }
}
