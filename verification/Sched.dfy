/** The scheduler itself, on a linked list of task structures. */
module Sched {
  import opened SchedModel

  /** The interrupt frame that the timer handler gets a pointer to. */
  class Registers {
    var frame: Frame

    constructor (frame: Frame)
      ensures this.frame == frame
    {
      this.frame := frame;
    }
  }

  class Scheduler {
    var current: Task?
    var list: Task?

    ghost var tasks: seq<Task>
    ghost var cur: int
    ghost var info: seq<Info>

    ghost predicate LinkOk(i: nat)
      reads `tasks, tasks`next
      requires i < |tasks|
    {
      tasks[i].next == if i + 1 == |tasks| then null else tasks[i + 1]
    }

    ghost predicate Linked()
      reads `tasks, `list, tasks`next
    {
      && list == (if tasks == [] then null else tasks[0])
      && forall i :: 0 <= i < |tasks| ==> LinkOk(i)
    }

    ghost predicate CurrentIs()
      reads `current, `tasks, `cur
    {
      -1 <= cur < |tasks| && current == if cur < 0 then null else tasks[cur]
    }

    ghost predicate InfoAt(i: nat)
      reads `tasks, `info, tasks`state, tasks`saved
      requires i < |tasks| && i < |info|
    {
      info[i] == Info(tasks[i].state, tasks[i].saved)
    }

    ghost predicate InfoIs()
      reads `tasks, `info, tasks`state, tasks`saved
    {
      |info| == |tasks| && forall i :: 0 <= i < |tasks| ==> InfoAt(i)
    }

    /** The list and what its task structures say. */
    ghost function Now(): Sys
      reads `cur, `tasks, `info
    {
      Sys(tasks, cur, info)
    }

    ghost predicate Valid()
      reads this, tasks
    {
      Linked() && CurrentIs() && InfoIs() && Wf(Now())
    }

    constructor ()
      ensures Valid() && Now() == Boot
    {
      current, list, tasks, cur, info := null, null, [], -1, [];
    }

    method AddTask(t: Task)
      requires Valid() && t.state != Running && IsNew(tasks, t)
      modifies this, t`next
      ensures Valid() && Step(old(Now()), Add(t, Info(t.state, t.saved)), Now())
    {
      AddKeepsWf(Now(), t, Info(t.state, t.saved));
      t.next := list;
      list := t;
      tasks, info := [t] + tasks, [Info(t.state, t.saved)] + info;
      cur := if cur < 0 then cur else cur + 1;
      forall i | 0 <= i < |tasks| ensures LinkOk(i) && InfoAt(i) {
        if i > 0 { assert old(LinkOk(i - 1)) && old(InfoAt(i - 1)); }
      }
    }

    /** Walks the circle from behind the current task to the first ready task;
        with no other one ready it stops at the current task. */
    method FindReady() returns (next: Task?, ghost k: int, ghost m: nat)
      requires Valid() && CanElect(Now())
      ensures Elected(Now(), k) && next == if k < 0 then null else tasks[k]
      ensures StopsFirst(Now(), m) && (k >= 0 ==> k == Visited(Now(), m))
    {
      ghost var s, n := Now(), |tasks|;
      next := if current != null then current.next else list;
      if next == null {
        next := list;
      }
      k, m := if n == 0 then -1 else Follower(n, cur), 0;
      if cur >= 0 { assert LinkOk(cur); }
      if n > 0 { ReachedFirst(s); }
      while next != null && next.state != Ready
        invariant Reached(s, k) && next == if k < 0 then null else tasks[k]
        invariant NoStopBefore(s, m) && (k >= 0 ==> k == Visited(s, m) && (m > 0 ==> k != cur))
        decreases n - Distance(s, k)
      {
        assert LinkOk(k) && InfoAt(k);
        ReachedStep(s, k);
        next := next.next;
        if next == null {
          next := list;
        }
        k, m := Follower(n, k), m + 1;
        if next == current {
          if k != cur { SamePlace(tasks, k, cur); }
          break;
        }
      }
      if k >= 0 { assert InfoAt(k); }
    }

    method Schedule()
      requires Valid() && CanElect(Now())
      modifies `current, `cur
      ensures Linked() && InfoIs() && CurrentIs() && Elected(old(Now()), cur) && Now() == old(Now()).(cur := cur)
    {
      ghost var k;
      var next;
      ghost var m;
      next, k, m := FindReady();
      if next != null && next != current {
        current := next;
      }
      cur := k;
    }

    method Save(t: Task, regs: Registers)
      modifies t`saved, t`state
      ensures t.saved == Suspend(old(t.saved), regs.frame) && t.state == Ready
    {
      var f := regs.frame;
      t.saved := t.saved.(cs := Low16(f.cs), ds := Low16(f.ds), es := Low16(f.es), fs := Low16(f.fs),
                          gs := Low16(f.gs));
      if f.cs != KERNEL_CS {
        t.saved := t.saved.(ss := Low16(f.ss), esp := f.userEsp);
      }
      t.saved := t.saved.(eflags := f.eflags, eip := f.eip, kernelEsp := f.esp);
      t.saved := t.saved.(eax := f.eax, ebx := f.ebx, ecx := f.ecx, edx := f.edx, esi := f.esi, edi := f.edi,
                          ebp := f.ebp);
      t.state := Ready;
    }

    method Restore(t: Task, regs: Registers)
      modifies regs, t`state
      ensures regs.frame == Resume(t.saved, old(regs.frame)) && t.state == Running
    {
      var s := t.saved;
      regs.frame := regs.frame.(cs := s.cs, ds := s.ds, es := s.es, fs := s.fs, gs := s.gs);
      if s.cs != KERNEL_CS {
        regs.frame := regs.frame.(ss := s.ss, userEsp := s.esp);
      }
      regs.frame := regs.frame.(eflags := s.eflags, eip := s.eip, esp := s.kernelEsp);
      regs.frame := regs.frame.(eax := s.eax, ebx := s.ebx, ecx := s.ecx, edx := s.edx, esi := s.esi, edi := s.edi,
                                ebp := s.ebp);
      t.state := Running;
    }

    /** A change in the current task only. */
    twostate lemma OthersSame(i: nat)
      requires old(CurrentIs()) && old(InfoIs()) && Distinct(tasks) && tasks == old(tasks) && cur == old(cur)
      requires i < |tasks| && i != cur
      requires forall t :: t in tasks && t != old(current) ==> t.state == old(t.state) && t.saved == old(t.saved)
      ensures tasks[i].state == old(info)[i].state && tasks[i].saved == old(info)[i].saved
    {
      assert old(InfoAt(i));
      if tasks[i] == old(current) { SamePlace(tasks, i, cur); }
    }

    method SaveCurrent(regs: Registers)
      requires Valid()
      modifies `info, tasks`saved, tasks`state
      ensures Valid() && Now() == Suspended(old(Now()), regs.frame) && (old(CanElect(Now())) ==> CanElect(Now()))
    {
      SuspendKeepsWf(Now(), regs.frame);
      if current != null {
        assert InfoAt(cur);
        Save(current, regs);
        forall i | 0 <= i < |tasks| && i != cur ensures info[i] == Info(tasks[i].state, tasks[i].saved) {
          OthersSame(i);
        }
        info := info[cur := Info(current.state, current.saved)];
      }
    }

    method RestoreCurrent(regs: Registers)
      requires CurrentIs() && Distinct(tasks) && Linked() && InfoIs()
      modifies `info, tasks`state, regs
      ensures Linked() && InfoIs()
      ensures Now() == Started(old(Now()), cur)
      ensures regs.frame == if cur < 0 then old(regs.frame) else Resume(old(Now()).info[cur].saved, old(regs.frame))
    {
      if current != null {
        assert InfoAt(cur);
        Restore(current, regs);
        forall i | 0 <= i < |tasks| && i != cur ensures info[i] == Info(tasks[i].state, tasks[i].saved) {
          OthersSame(i);
        }
        info := info[cur := Info(current.state, current.saved)];
      }
    }

    /** Saves the interrupted task, elects the next one, and puts its registers into the frame. */
    method TimerInterrupt(regs: Registers)
      requires Valid() && CanElect(Now())
      modifies `current, `cur, `info, tasks`saved, tasks`state, regs
      ensures Valid() && Step(old(Now()), Tick(old(regs.frame), regs.frame), Now())
    {
      ghost var s, f := Now(), regs.frame;
      SaveCurrent(regs);
      ghost var mid := Now();
      Schedule();
      RestoreCurrent(regs);
      TickParts(s, f, mid, cur, Now(), regs.frame);
    }

    /** Unlinks the first task with the given pid. */
    method Unlink(pid: Word) returns (ghost r: nat)
      requires Linked() && Distinct(tasks)
      modifies `list, `tasks, tasks`next
      ensures Linked() && r == PidIndex(old(tasks), pid)
      ensures tasks == if r == |old(tasks)| then old(tasks) else Dropped(old(tasks), r)
    {
      var prev: Task? := null;
      var t := list;
      r := 0;
      while t != null && t.pid != pid
        invariant r <= |tasks| && t == (if r == |tasks| then null else tasks[r])
        invariant prev == (if r == 0 then null else tasks[r - 1])
        invariant forall k :: 0 <= k < r ==> tasks[k].pid != pid
        decreases |tasks| - r
      {
        assert LinkOk(r);
        prev, t, r := t, t.next, r + 1;
      }
      PidIndexIs(tasks, pid, r);
      if t != null {
        assert LinkOk(r);
        if prev == null {
          list := t.next;
        } else {
          prev.next := t.next;
        }
        tasks := Dropped(tasks, r);
        forall k | 0 <= k < |tasks| ensures LinkOk(k) {
          ghost var o := if k < r then k else k + 1;
          assert old(LinkOk(o));
          if o + 1 != r && tasks[k] == prev { SamePlace(old(tasks), o, r - 1); }
        }
      }
    }

    /** What is left of the list, and what its structures say. */
    method DropTask(pid: Word)
      requires Valid()
      modifies `list, `tasks, `info, tasks`next
      ensures Linked() && InfoIs() && tasks == Removed(old(Now()), pid).order && info == Removed(old(Now()), pid).info
    {
      ghost var r := Unlink(pid);
      if r < |info| {
        info := Dropped(info, r);
        forall k | 0 <= k < |tasks| ensures InfoAt(k) {
          assert old(InfoAt(if k < r then k else k + 1));
        }
      }
    }

    /** Takes a task out of the list; if it is the current one, the first task becomes current. */
    method TakeOut(pid: Word)
      requires Valid()
      modifies this, tasks`next
      ensures Valid() && Now() == Removed(old(Now()), pid)
    {
      ghost var s := Now();
      RemovedCurrent(s, pid);
      assert current == CurrentOf(s);
      DropTask(pid);
      if current != null && current.pid == pid {
        current := list;
      }
      assert current == CurrentOf(Removed(s, pid));
      cur := Removed(s, pid).cur;
    }

    /** Takes a task out and gives up the processor, which is one more timer interrupt. */
    method RemoveTask(pid: Word, regs: Registers)
      requires Valid() && CanElect(Removed(Now(), pid))
      modifies this, tasks, regs
      ensures Valid() && Step(old(Now()), Remove(pid, old(regs.frame), regs.frame), Now())
    {
      TakeOut(pid);
      TimerInterrupt(regs);
    }
  }
}
