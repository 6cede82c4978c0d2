// The task lists of kernel/multitasking/scheduler.c, linked and updated in place.
module Scheduler {
  import opened Common
  import opened RoundRobin

  // The fields of task_t that scheduling reads and writes.
  class Task {
    const pid: nat
    const ppid: nat
    var timeSlice: nat
    var timeRemaining: nat
    var state: TaskState
    var next: Task?
    var prev: Task?
    ghost var isGone: bool  // the task has left the live list

    // ktask_create: `next` is cleared, `prev` keeps whatever kmalloc returned.
    constructor (pid: nat, ppid: nat, slice: nat)
      ensures this.pid == pid && this.ppid == ppid && timeSlice == timeRemaining == slice
      ensures state == Rdy && next == null && !isGone
    {
      this.pid, this.ppid := pid, ppid;
      timeSlice, timeRemaining, state := slice, slice, Rdy;
      next, prev, isGone := null, *, false;
    }
  }

  ghost function At(s: seq<Task>, i: int): Task? {
    if 0 <= i < |s| then s[i] else null
  }

  ghost predicate Within(s: seq<Task>, a: seq<Task>, b: seq<Task>) {
    forall i :: 0 <= i < |s| ==> s[i] in a || s[i] in b
  }

  // Following `next` from `head` visits `s`.
  ghost predicate Chain(s: seq<Task>, head: Task?)
    reads s
  {
    && Distinct(s) && head == At(s, 0)
    && forall i {:trigger s[i].next} :: 0 <= i < |s| ==> s[i].next == At(s, i + 1)
  }

  // `prev` is the inverse of `next`; that of the head is never set or read.
  ghost predicate Prevs(s: seq<Task>)
    reads s
  {
    forall i {:trigger s[i].prev} :: 1 <= i < |s| ==> s[i].prev == s[i - 1]
  }

  ghost predicate Gone(s: seq<Task>, value: bool)
    reads s
  {
    forall i :: 0 <= i < |s| ==> s[i].isGone == value
  }

  ghost function Slots(s: seq<Task>): (r: seq<Slot>)
    reads s
    ensures |r| == |s| && forall i :: 0 <= i < |s| ==> r[i] == Slot(s[i].timeSlice, s[i].timeRemaining, s[i].state)
  {
    seq(|s|, i requires 0 <= i < |s| reads s => Slot(s[i].timeSlice, s[i].timeRemaining, s[i].state))
  }

  class Kernel {
    var tasks: Task?
    var curTask: Task?
    var terminatedTasks: Task?
    ghost var live: seq<Task>
    ghost var gone: seq<Task>
    ghost var cur: nat  // the index of curTask while it is live

    constructor ()
      ensures Valid() && live == [] && gone == []
    {
      tasks, curTask, terminatedTasks := null, null, null;
      live, gone := [], [];
    }

    // The task with pid 0 heads the live list and is its own parent.
    ghost predicate Valid()
      reads this, live, gone
    {
      && Chain(live, tasks) && Prevs(live) && Gone(live, false)
      && Chain(gone, terminatedTasks) && Prevs(gone) && Gone(gone, true)
      && (live != [] ==> live[0].pid == 0 && live[0].ppid == 0)
      && (forall i, j :: 0 <= i < j < |live| ==> live[i].pid != live[j].pid)
    }

    ghost predicate CurrentIsLive()
      reads this
    {
      cur < |live| && curTask == live[cur]
    }

    ghost function View(): Cpu
      reads this, live
    {
      Cpu(Slots(live), cur)
    }

    method PushTask(task: Task)
      requires Valid() && !task.isGone && task.next == null && task !in live
      requires forall i :: 0 <= i < |live| ==> live[i].pid != task.pid
      requires live == [] ==> task.pid == 0 && task.ppid == 0
      modifies this`tasks, this`live, live, task
      ensures Valid() && live == old(live) + [task] && gone == old(gone)
      ensures Slots(old(live)) == old(Slots(live))
    {
      if tasks == null {
        tasks := task;
        live := [task];
        return;
      }
      var t := tasks;
      ghost var i := 0;
      while t.next != null
        invariant 0 <= i < |live| && t == live[i]
        decreases |live| - i
      {
        t, i := t.next, i + 1;
      }
      LinkAfter(t, task);
    }

    // Lines 50 and 51: the task goes after the last one.
    method LinkAfter(last: Task, task: Task)
      requires Valid() && |live| > 0 && last == live[|live| - 1]
      requires !task.isGone && task.next == null && task !in live
      requires forall i :: 0 <= i < |live| ==> live[i].pid != task.pid
      modifies this`live, live, task
      ensures Valid() && live == old(live) + [task] && gone == old(gone)
      ensures Slots(old(live)) == old(Slots(live))
    {
      last.next, task.prev := task, last;
      assert Chain(gone, terminatedTasks) && Prevs(gone) && Gone(gone, true);
      SnocIsChain(live, tasks, task);
      live := live + [task];
    }

    method GetTaskByPid(pid: nat) returns (t: Task?)
      requires Valid()
      ensures t == null <==> forall i :: 0 <= i < |live| ==> live[i].pid != pid
      ensures t != null ==> t in live && t.pid == pid
    {
      t := tasks;
      ghost var i := 0;
      while t != null && t.pid != pid
        invariant 0 <= i <= |live| && t == At(live, i)
        invariant forall j :: 0 <= j < i ==> live[j].pid != pid
        decreases |live| - i
      {
        t, i := t.next, i + 1;
      }
    }

    // `s` is the list the current task is linked into: the live one, or the
    // terminated one after the task has terminated itself.
    method PickNextTask(ghost s: seq<Task>, ghost at: nat) returns (next: Task?, ghost k: nat)
      requires at < |s| && Chain(s, s[0]) && curTask == s[at]
      ensures k == PickAfter(Slots(s), at + 1) && next == if k == 0 then tasks else s[k]
    {
      var n := curTask.next;
      if n == null {
        return tasks, 0;
      }
      if n.state != Fin {
        return n, at + 1;
      }
      n := n.next;
      k := at + 2;
      while n != null
        invariant at + 2 <= k <= |s| && n == At(s, k)
        invariant PickAfter(Slots(s), at + 1) == PickAfter(Slots(s), k)
        decreases |s| - k
      {
        if n.state != Fin {
          return n, k;
        }
        n, k := n.next, k + 1;
      }
      return tasks, 0;
    }

    method PickLive() returns (next: Task, ghost k: nat)
      requires Valid() && CurrentIsLive()
      ensures k == PickAfter(Slots(live), cur + 1) && next == live[k]
    {
      next, k := PickNextTask(live, cur);
    }

    // What mt_schedule picks once the current task has terminated itself:
    // `moved` are the tasks that left the live list with it, `rest` those
    // that had left before.
    method PickAfterExit(ghost moved: seq<Task>, ghost rest: seq<Task>) returns (next: Task?)
      requires Valid() && gone == moved + rest && |moved| > 0 && curTask == moved[|moved| - 1]
      requires forall i :: 0 <= i < |gone| ==> gone[i].state != Fin
      ensures next == if rest == [] then tasks else rest[0]
      ensures rest != [] ==> next !in live
    {
      ghost var k;
      next, k := PickNextTask(gone, |moved| - 1);
      assert rest != [] ==> gone[|moved|] == rest[0] && rest[0].isGone;
    }

    // mt_schedule after the current task has terminated itself: it runs on to
    // the end of its slice, and then the task just described is switched to.
    method ScheduleAfterExit(ghost moved: seq<Task>, ghost rest: seq<Task>)
      requires Valid() && gone == moved + rest && |moved| > 0 && curTask == moved[|moved| - 1] && live != []
      requires forall i :: 0 <= i < |gone| ==> gone[i].state != Fin
      modifies this`curTask, live, gone
      ensures Valid() && live == old(live) && gone == old(gone)
      ensures var t: Task := old(curTask);
        var left := (old(t.timeRemaining) - 1) % WORD;
        if old(t.state) == Run && left > 0 then curTask == t && t.timeRemaining == left && t.state == Run
        else
          && curTask == (if rest == [] then live[0] else rest[0]) && curTask.state == Run
          && t.timeRemaining == t.timeSlice && t.state == Sus
    {
      var t: Task := curTask;
      NextIsOther(moved, rest);
      SetCounter(t, (t.timeRemaining - 1) % WORD);
      if t.state == Run && t.timeRemaining > 0 {
        return;
      }
      SetCounter(t, t.timeSlice);
      var next := PickAfterExit(moved, rest);
      SwitchStates(t, next);
      curTask := next;
    }

    method SetCounter(t: Task, value: nat)
      requires Valid()
      modifies t`timeRemaining
      ensures Valid() && t.timeRemaining == value
    {
      t.timeRemaining := value;
    }

    method SwitchStates(t: Task, next: Task)
      requires Valid() && t != next
      modifies t`state, next`state
      ensures Valid() && next.state == Run && t.state == if old(t.state) == Fin then Fin else Sus
    {
      next.state := Run;
      if t.state != Fin {
        t.state := Sus;
      }
    }

    lemma NextIsOther(moved: seq<Task>, rest: seq<Task>)
      requires Valid() && gone == moved + rest && |moved| > 0 && live != []
      ensures moved[|moved| - 1] == gone[|moved| - 1]
      ensures var next := if rest == [] then live[0] else rest[0];
        next != moved[|moved| - 1] && next in (if rest == [] then live else gone)
    {
      assert gone[|moved| - 1].isGone && !live[0].isGone;
      assert rest != [] ==> gone[|moved|] == rest[0];
    }

    method SetRemaining(t: Task, ghost k: nat, value: nat)
      requires Valid() && k < |live| && t == live[k]
      modifies t`timeRemaining
      ensures Valid() && Slots(live) == old(Slots(live))[k := old(Slots(live)[k]).(remaining := value)]
    {
      t.timeRemaining := value;
    }

    method SetState(t: Task, ghost k: nat, value: TaskState)
      requires Valid() && k < |live| && t == live[k]
      modifies t`state
      ensures Valid() && Slots(live) == old(Slots(live))[k := old(Slots(live)[k]).(state := value)]
    {
      t.state := value;
    }

    // mt_schedule, with mt_switch_task as the assignment to cur_task.
    method Schedule()
      requires Valid() && CurrentIsLive()
      modifies this`curTask, this`cur, live
      ensures Valid() && CurrentIsLive() && live == old(live) && gone == old(gone)
      ensures View() == Tick(old(View()))
    {
      var t: Task := curTask;
      ghost var v, slot := View(), View().tasks[cur];
      SetRemaining(t, cur, (t.timeRemaining - 1) % WORD);
      assert Slots(live)[cur] == Slot(t.timeSlice, t.timeRemaining, t.state);
      if t.state == Run && t.timeRemaining > 0 {
        return;
      }
      SetRemaining(t, cur, t.timeSlice);
      assert Slots(live) == v.tasks[cur := slot.(remaining := slot.slice)];
      assert Tick(v) == Switch(View());
      Dispatch();
    }

    // Lines 205 to 207.
    method ChangeStates(next: Task, ghost k: nat)
      requires Valid() && CurrentIsLive() && k < |live| && next == live[k]
      modifies live
      ensures Valid()
      ensures var ts := old(Slots(live))[k := old(Slots(live)[k]).(state := Run)];
        Slots(live) == if ts[cur].state != Fin then ts[cur := ts[cur].(state := Sus)] else ts
    {
      SetState(next, k, Run);
      if curTask.state != Fin {
        SetState(curTask, cur, Sus);
      }
    }

    // Lines 197 to 209.
    method Dispatch()
      requires Valid() && CurrentIsLive()
      modifies this`curTask, this`cur, live
      ensures Valid() && CurrentIsLive() && live == old(live) && gone == old(gone)
      ensures View() == Switch(old(View()))
    {
      ghost var v := View();
      var next, k := PickLive();
      ChangeStates(next, k);
      ghost var slots := Slots(live);
      SwitchIs(v, Cpu(slots, k));
      curTask, cur := next, k;
      assert Slots(live) == slots;
    }

    // Lines 151 to 155: a task that is not the head leaves the links of the live list.
    method Bypass(t: Task, ghost k: nat)
      requires Valid() && 1 <= k < |live| && t == live[k]
      modifies live
      ensures Bypassed(live, tasks, k) && Gone(live, false) && Slots(live) == old(Slots(live))
      ensures Chain(gone, terminatedTasks) && Prevs(gone) && Gone(gone, true)
    {
      if t.prev != null {
        t.prev.next := t.next;
      }
      if t.next != null {
        t.next.prev := t.prev;
      }
    }

    // Lines 157 to 165: a task heads the terminated list.
    method PushTerminated(t: Task)
      requires Chain(live, tasks) && Prevs(live) && Gone(live, false)
      requires Chain(gone, terminatedTasks) && Prevs(gone) && Gone(gone, true) && !t.isGone && t !in live
      modifies this`terminatedTasks, this`gone, gone, t
      ensures Chain(live, tasks) && Prevs(live) && Gone(live, false) && Slots(live) == old(Slots(live))
      ensures gone == [t] + old(gone) && Chain(gone, terminatedTasks) && Prevs(gone) && Gone(gone, true)
    {
      t.isGone := true;
      if terminatedTasks == null {
        terminatedTasks := t;
        t.next := null;
        t.prev := null;
      } else {
        t.next := terminatedTasks;
        terminatedTasks.prev := t;
        terminatedTasks := t;
      }
      gone := [t] + gone;
    }

    method MoveToTerminated(t: Task, ghost k: nat)
      requires Valid() && 1 <= k < |live| && t == live[k]
      modifies this`terminatedTasks, this`live, this`gone, live, gone
      ensures Valid() && live == Remove(old(live), k) && gone == [t] + old(gone)
      ensures Slots(live) == Remove(old(Slots(live)), k)
    {
      ghost var s := live;
      LeaveLive(t, k);
      PushTerminated(t);
      PidsOfRemove(s, k);
    }

    method LeaveLive(t: Task, ghost k: nat)
      requires Valid() && 1 <= k < |live| && t == live[k]
      modifies this`live, live
      ensures live == Remove(old(live), k) && Slots(live) == Remove(old(Slots(live)), k)
      ensures Chain(live, tasks) && Prevs(live) && Gone(live, false) && t !in live && !t.isGone
      ensures Chain(gone, terminatedTasks) && Prevs(gone) && Gone(gone, true)
    {
      Bypass(t, k);
      BypassedIsRemoved(live, tasks, k);
      assert Slots(Remove(live, k)) == Remove(Slots(live), k);
      live := Remove(live, k);
    }

    // Lines 151 to 165 on a task of the terminated list that is not its head.
    // The scan below gets to such tasks, and terminates them again.
    method MoveWithinTerminated(t: Task, ghost k: nat)
      requires Valid() && 1 <= k < |gone| && t == gone[k]
      modifies this`terminatedTasks, this`gone, gone
      ensures Valid() && live == old(live) && gone == [t] + Remove(old(gone), k)
    {
      BypassTerminated(t, k);
      BypassedIsRemoved(gone, terminatedTasks, k);
      gone := Remove(gone, k);
      t.isGone := false;
      PushTerminated(t);
    }

    // The same lines on the head of the terminated list: the task becomes its
    // own successor, so nothing that follows the list ever ends.
    method MoveHeadAgain(t: Task)
      requires terminatedTasks == t
      modifies this`terminatedTasks, t, t.prev, t.next
      ensures terminatedTasks == t && t.next == t
    {
      if t.prev != null {
        t.prev.next := t.next;
      }
      if t.next != null {
        t.next.prev := t.prev;
      }
      t.next := terminatedTasks;
      terminatedTasks.prev := t;
      terminatedTasks := t;
    }

    method BypassTerminated(t: Task, ghost k: nat)
      requires Valid() && 1 <= k < |gone| && t == gone[k]
      modifies gone
      ensures Bypassed(gone, terminatedTasks, k) && Gone(gone, true) && Slots(live) == old(Slots(live))
      ensures Chain(live, tasks) && Prevs(live) && Gone(live, false)
    {
      if t.prev != null {
        t.prev.next := t.next;
      }
      if t.next != null {
        t.next.prev := t.prev;
      }
    }

    // mt_task_terminate as written, where it returns. The loop reads `next` of
    // a child after the recursive call, so it goes on in the terminated list.
    method TerminateAsWritten(t: Task, ghost k: nat)
      requires Valid() && k < |live| && t == live[k] && (k >= 1 ==> Clean(live, gone, k))
      modifies this`terminatedTasks, this`live, this`gone, live, gone
      ensures Valid()
      ensures live == if k == 0 then old(live) else LiveAfter(old(live), k)
      ensures gone == if k == 0 then old(gone) else ChainOf(old(live), k) + old(gone)
      decreases |live|, 0
    {
      if t.pid == 0 {
        return;
      }
      ghost var s0, gone0 := live, gone;
      MoveToTerminated(t, k);
      ScanForChildren(t, s0, gone0, k);
    }

    // Lines 167 to 173.
    method ScanForChildren(t: Task, ghost s0: seq<Task>, ghost gone0: seq<Task>, ghost k: nat)
      requires Valid() && 1 <= k < |s0| && t == s0[k] && Clean(s0, gone0, k) && t.pid != 0
      requires live == Remove(s0, k) && gone == [t] + gone0
      modifies this`terminatedTasks, this`live, this`gone, live, gone
      ensures Valid() && live == LiveAfter(s0, k) && gone == ChainOf(s0, k) + gone0
      decreases |live|, 2
    {
      ghost var rest, c := live, FirstChild(live, t.pid);
      var i := tasks;
      // The position of `i` in the live list, then in the terminated list.
      ghost var at: nat, moved := 0, false;
      while i != null
        invariant Valid()
        invariant !moved ==> live == rest && gone == [t] + gone0 && at <= c && i == At(rest, at)
        invariant moved ==> live == LiveAfter(s0, k) && gone == ChainOf(s0, k) + gone0
        invariant moved ==> at <= |gone| && i == At(gone, at) && forall x :: at <= x < |gone| ==> gone[x].ppid != t.pid
        decreases !moved, if moved then |gone| - at else |rest| - at
      {
        if i.ppid == t.pid {
          at := TerminateFirstChild(t, i, s0, gone0, k, at);
          moved := true;
        }
        i, at := i.next, at + 1;
      }
      assert !moved ==> at == |rest| && c == |rest|;
    }

    // The recursive call of the loop above, on the first child found. It
    // leaves the child at position `at'` of the terminated list.
    method TerminateFirstChild(t: Task, i: Task, ghost s0: seq<Task>, ghost gone0: seq<Task>, ghost k: nat, ghost at: nat)
      returns (ghost at': nat)
      requires Valid() && 1 <= k < |s0| && t == s0[k] && Clean(s0, gone0, k) && t.pid != 0
      requires live == Remove(s0, k) && gone == [t] + gone0
      requires at < |live| && i == live[at] && at == FirstChild(live, t.pid)
      modifies this`terminatedTasks, this`live, this`gone, live, gone
      ensures Valid() && live == LiveAfter(s0, k) && gone == ChainOf(s0, k) + gone0
      ensures at' < |gone| && i == gone[at'] && forall x :: at' < x < |gone| ==> gone[x].ppid != t.pid
      decreases |live|, 1
    {
      ghost var rest := live;
      ChildLeads(s0, gone0, k);
      TerminateAsWritten(i, at);
      at' := BehindChild(rest, at, t, gone0);
    }

    // mt_task_terminate with the scan of lines 167 to 173 begun again after
    // each recursive call (a repair, not the code: reading `next` before the
    // call would not do, as the next task may be moved by it too).
    method TerminateRepaired(t: Task, ghost k: nat) returns (ghost moved: seq<Task>)
      requires Valid() && k < |live| && t == live[k]
      modifies this`terminatedTasks, this`live, this`gone, live, gone
      ensures Valid() && gone == moved + old(gone) && live == Without(old(live), Elems(moved))
      ensures k == 0 ==> moved == []
      ensures k > 0 ==> forall x :: x in moved <==> Descends(old(live), t, x)
      ensures NoOrphan(live, moved)
      decreases |live|, 1
    {
      if t.pid == 0 {
        WithoutNone(live, {});
        moved := [];
        assert Elems(moved) == {};
        return;
      }
      ghost var s0, gone0 := live, gone;
      MoveToTerminated(t, k);
      moved := ScanRepaired(t, s0, gone0, k);
    }

    method ScanRepaired(t: Task, ghost s0: seq<Task>, ghost gone0: seq<Task>, ghost k: nat) returns (ghost moved: seq<Task>)
      requires Valid() && 1 <= k < |s0| && t == s0[k] && Distinct(s0) && t.pid != 0
      requires live == Remove(s0, k) && gone == [t] + gone0
      modifies this`terminatedTasks, this`live, this`gone, live, gone
      ensures Valid() && gone == moved + gone0 && live == Without(s0, Elems(moved))
      ensures forall x :: x in moved <==> Descends(s0, t, x)
      ensures NoOrphan(live, moved)
      decreases |live|, 3
    {
      moved := [t];
      BelowAtFirst(s0, gone0, t, k);
      var i := tasks;
      ghost var at: nat := 0;
      while i != null
        invariant Valid() && Below(s0, gone0, t, moved) && at <= |live| <= |old(live)| && i == At(live, at)
        invariant Within(live, old(live), old(gone)) && Within(gone, old(live), old(gone))
        invariant forall j :: 0 <= j < at ==> live[j].ppid != t.pid
        decreases |live|, |live| - at
      {
        if i.ppid == t.pid {
          ghost var l, g := live, gone;
          moved := TerminateChildRepaired(t, i, s0, gone0, moved, at);
          WithinTwice(live, l, g, old(live), old(gone));
          WithinTwice(gone, l, g, old(live), old(gone));
          i, at := tasks, 0;
        } else {
          i, at := i.next, at + 1;
        }
      }
      ClosedIsDescendants(s0, Elems(moved), t);
    }

    // Between two scans: `moved` are descendants of `t`, and those other than
    // `t` have no child left.
    ghost predicate Below(s0: seq<Task>, gone0: seq<Task>, t: Task, moved: seq<Task>)
      reads this
    {
      && gone == moved + gone0 && live == Without(s0, Elems(moved)) && t in moved && t.pid != 0
      && (forall x :: x in moved ==> x in s0 && Descends(s0, t, x))
      && forall x, y :: x in live && y in moved && y != t ==> x.ppid != y.pid
    }

    lemma BelowAtFirst(s0: seq<Task>, gone0: seq<Task>, t: Task, k: nat)
      requires k < |s0| && t == s0[k] && Distinct(s0) && t.pid != 0
      requires live == Remove(s0, k) && gone == [t] + gone0
      ensures Below(s0, gone0, t, [t])
    {
      RemoveIsWithout(s0, k);
      SelfDescends(s0, t);
      assert Elems([t]) == {t};
    }

    method TerminateChildRepaired(t: Task, i: Task, ghost s0: seq<Task>, ghost gone0: seq<Task>, ghost moved: seq<Task>,
        ghost at: nat)
      returns (ghost moved': seq<Task>)
      requires Valid() && Below(s0, gone0, t, moved)
      requires at < |live| && i == live[at] && i.ppid == t.pid
      modifies this`terminatedTasks, this`live, this`gone, live, gone
      ensures Valid() && Below(s0, gone0, t, moved') && |live| < |old(live)|
      ensures Within(live, old(live), old(gone)) && Within(gone, old(live), old(gone))
      decreases |live|, 2
    {
      ghost var s1 := live;
      ghost var m := TerminateRepaired(i, at);
      moved' := m + moved;
      assert gone == moved' + gone0;
      SubtreeMoved(s0, s1, t, at, m, moved);
    }
  }

  lemma SwitchIs(v: Cpu, r: Cpu)
    requires RoundRobin.Valid(v) && r.cur == PickAfter(v.tasks, v.cur + 1)
    requires var ts := v.tasks[r.cur := v.tasks[r.cur].(state := Run)];
      r.tasks == if ts[v.cur].state != Fin then ts[v.cur := ts[v.cur].(state := Sus)] else ts
    ensures r == Switch(v)
  {
  }

  lemma SnocIsChain(s: seq<Task>, head: Task?, t: Task)
    requires s != [] && Distinct(s) && t !in s && head == s[0] && t.next == null && t.prev == s[|s| - 1] && Prevs(s)
    requires forall i {:trigger s[i].next} :: 0 <= i < |s| ==> s[i].next == if i == |s| - 1 then t else s[i + 1]
    ensures Chain(s + [t], head) && Prevs(s + [t])
  {
  }

  lemma WithinTwice(s: seq<Task>, l: seq<Task>, g: seq<Task>, a: seq<Task>, b: seq<Task>)
    requires Within(s, l, g) && Within(l, a, b) && Within(g, a, b)
    ensures Within(s, a, b)
  {
  }

  lemma PidsOfRemove(s: seq<Task>, k: nat)
    requires 1 <= k < |s| && forall i, j :: 0 <= i < j < |s| ==> s[i].pid != s[j].pid
    ensures var r := Remove(s, k); r[0] == s[0] && forall i, j :: 0 <= i < j < |r| ==> r[i].pid != r[j].pid
  {
  }

  // ----- who is moved, by pid and ppid -----

  // The first task of `s` whose parent is `p`, or |s|.
  ghost function FirstChild(s: seq<Task>, p: nat): (c: nat)
    ensures c <= |s|
    ensures forall i :: 0 <= i < c ==> s[i].ppid != p
    ensures c < |s| ==> s[c].ppid == p
  {
    if s == [] then 0 else if s[0].ppid == p then 0 else 1 + FirstChild(s[1..], p)
  }

  // The tasks mt_task_terminate as written moves: the task, its first live
  // child, the first live child of that one, and so on; last moved first.
  ghost function ChainOf(s: seq<Task>, k: nat): (r: seq<Task>)
    requires k < |s|
    ensures |r| > 0 && r[|r| - 1] == s[k]
    decreases |s|
  {
    var rest := Remove(s, k);
    var c := FirstChild(rest, s[k].pid);
    if c == |rest| then [s[k]] else ChainOf(rest, c) + [s[k]]
  }

  // The live list after mt_task_terminate as written.
  ghost function LiveAfter(s: seq<Task>, k: nat): seq<Task>
    requires k < |s|
    decreases |s|
  {
    var rest := Remove(s, k);
    var c := FirstChild(rest, s[k].pid);
    if c == |rest| then rest else LiveAfter(rest, c)
  }

  // No task that is terminated and has a live child has a terminated child as
  // well, itself included. Otherwise the code never returns.
  ghost predicate Clean(s: seq<Task>, gone: seq<Task>, k: nat)
    requires k < |s|
    decreases |s|
  {
    var rest := Remove(s, k);
    var c := FirstChild(rest, s[k].pid);
    c < |rest| ==>
      && s[k].ppid != s[k].pid
      && (forall i :: 0 <= i < |gone| ==> gone[i].ppid != s[k].pid)
      && Clean(rest, [s[k]] + gone, c)
  }

  // What termination does to the first live child of a target.
  lemma ChildLeads(s: seq<Task>, gone: seq<Task>, k: nat)
    requires k < |s| && Clean(s, gone, k) && FirstChild(Remove(s, k), s[k].pid) < |s| - 1
    ensures var rest := Remove(s, k); var c := FirstChild(rest, s[k].pid);
      && Clean(rest, [s[k]] + gone, c) && LiveAfter(s, k) == LiveAfter(rest, c)
      && ChainOf(s, k) + gone == ChainOf(rest, c) + ([s[k]] + gone)
      && s[k].ppid != s[k].pid && forall i :: 0 <= i < |gone| ==> gone[i].ppid != s[k].pid
  {
    var rest := Remove(s, k);
    var c := FirstChild(rest, s[k].pid);
    Regroup(ChainOf(s, k), ChainOf(rest, c), s[k], gone);
  }

  lemma Regroup<T>(chain: seq<T>, first: seq<T>, t: T, rest: seq<T>)
    requires chain == first + [t]
    ensures chain + rest == first + ([t] + rest)
  {
  }

  // The child rest[c] stands last of those moved; no child of `t` follows.
  lemma BehindChild(rest: seq<Task>, c: nat, t: Task, gone: seq<Task>) returns (at: nat)
    requires c < |rest| && t.ppid != t.pid && forall i :: 0 <= i < |gone| ==> gone[i].ppid != t.pid
    ensures var s := ChainOf(rest, c) + ([t] + gone);
      at < |s| && s[at] == rest[c] && forall x :: at < x < |s| ==> s[x].ppid != t.pid
  {
    at := |ChainOf(rest, c)| - 1;
    var s := ChainOf(rest, c) + ([t] + gone);
    forall x | at < x < |s| ensures s[x].ppid != t.pid {
      assert s[x] == ([t] + gone)[x - at - 1];
    }
  }

  // ----- descendants -----

  // `line` leads from `t` to `x` through tasks of `s`, each the parent of the next.
  ghost predicate IsLine(s: seq<Task>, older line: seq<Task>, t: Task, x: Task) {
    && |line| > 0 && line[0] == t && line[|line| - 1] == x
    && (forall i :: 0 <= i < |line| ==> line[i] in s)
    && forall i :: 0 <= i < |line| - 1 ==> line[i + 1].ppid == line[i].pid
  }

  ghost predicate Descends(s: seq<Task>, t: Task, x: Task) {
    exists line: seq<Task> :: IsLine(s, line, t, x)
  }

  lemma SelfDescends(s: seq<Task>, t: Task)
    requires t in s
    ensures Descends(s, t, t)
  {
    assert IsLine(s, [t], t, t);
  }

  // A descendant of a child, among fewer tasks, is a descendant.
  lemma ChildLine(s: seq<Task>, r: seq<Task>, t: Task, c: Task, x: Task)
    requires t in s && (forall y :: y in r ==> y in s) && c.ppid == t.pid && Descends(r, c, x)
    ensures Descends(s, t, x)
  {
    var line :| IsLine(r, line, c, x);
    assert IsLine(s, [t] + line, t, x);
  }

  // A set of descendants of `t` that leaves no child behind is all of them.
  lemma ClosedIsDescendants(s: seq<Task>, moved: set<Task>, t: Task)
    requires t in moved && forall x :: x in moved ==> x in s && Descends(s, t, x)
    requires forall x, y :: x in s && x !in moved && y in moved ==> x.ppid != y.pid
    ensures forall x :: x in moved <==> Descends(s, t, x)
  {
    forall x | Descends(s, t, x) ensures x in moved {
      var line :| IsLine(s, line, t, x);
      LineStaysIn(s, moved, t, line, |line| - 1);
    }
  }

  lemma {:induction false} LineStaysIn(s: seq<Task>, moved: set<Task>, t: Task, line: seq<Task>, i: nat)
    requires t in moved && i < |line| && IsLine(s, line, t, line[|line| - 1])
    requires forall x, y :: x in s && x !in moved && y in moved ==> x.ppid != y.pid
    ensures line[i] in moved
  {
    if i > 0 {
      LineStaysIn(s, moved, t, line, i - 1);
      assert line[i - 1 + 1].ppid == line[i - 1].pid;
    }
  }

  // The tasks of `s` that are not in `m`, in order.
  ghost function Without(s: seq<Task>, m: set<Task>): (r: seq<Task>)
    ensures forall x :: x in r ==> x in s && x !in m
    ensures forall x :: x in s && x !in m ==> x in r
  {
    if s == [] then []
    else
      var last := s[|s| - 1];
      assert s == s[..|s| - 1] + [last];
      if last in m then Without(s[..|s| - 1], m) else Without(s[..|s| - 1], m) + [last]
  }

  lemma {:induction false} WithoutTwice(s: seq<Task>, a: set<Task>, b: set<Task>)
    ensures Without(Without(s, a), b) == Without(s, a + b)
  {
    if s != [] {
      WithoutTwice(s[..|s| - 1], a, b);
      var w := Without(s[..|s| - 1], a);
      if s[|s| - 1] !in a {
        assert (w + [s[|s| - 1]])[..|w|] == w;
      }
    }
  }

  lemma {:induction false} RemoveIsWithout(s: seq<Task>, k: nat)
    requires k < |s| && Distinct(s)
    ensures Remove(s, k) == Without(s, {s[k]})
  {
    var n := |s| - 1;
    if k == n {
      assert Remove(s, k) == s[..n];
      WithoutNone(s[..n], {s[k]});
    } else {
      RemoveIsWithout(s[..n], k);
      assert s[..n][k] == s[k] && s[n] != s[k];
      RemoveSnoc(s, k);
    }
  }

  lemma RemoveSnoc(s: seq<Task>, k: nat)
    requires k < |s| - 1
    ensures Remove(s, k) == Remove(s[..|s| - 1], k) + [s[|s| - 1]]
  {
  }

  lemma {:induction false} WithoutNone(s: seq<Task>, m: set<Task>)
    requires forall x :: x in s ==> x !in m
    ensures Without(s, m) == s
  {
    if s != [] {
      WithoutNone(s[..|s| - 1], m);
      assert s == s[..|s| - 1] + [s[|s| - 1]];
    }
  }

  // Each task on the way has at most one live child.
  ghost predicate OnlyChildren(s: seq<Task>, k: nat)
    requires k < |s|
    decreases |s|
  {
    var rest := Remove(s, k);
    var c := FirstChild(rest, s[k].pid);
    c < |rest| ==> (forall i :: c < i < |rest| ==> rest[i].ppid != s[k].pid) && OnlyChildren(rest, c)
  }

  // What moving the descendants `m` of the child s1[at] adds to `moved`.
  lemma SubtreeMoved(s0: seq<Task>, s1: seq<Task>, t: Task, at: nat, m: seq<Task>, moved: seq<Task>)
    requires at < |s1| && s1[at].ppid == t.pid && s1 == Without(s0, Elems(moved)) && t in moved
    requires forall x :: x in m <==> Descends(s1, s1[at], x)
    requires forall x :: x in moved ==> x in s0 && Descends(s0, t, x)
    ensures Without(s1, Elems(m)) == Without(s0, Elems(m + moved)) && |Without(s1, Elems(m))| < |s1|
    ensures forall x :: x in m + moved ==> x in s0 && Descends(s0, t, x)
    ensures forall x :: x in Without(s1, Elems(m)) ==> x in s1
  {
    WithoutTwice(s0, Elems(moved), Elems(m));
    assert Elems(moved) + Elems(m) == Elems(m + moved);
    SelfDescends(s1, s1[at]);
    WithoutIsShorter(s1, Elems(m), at);
    forall x | x in m ensures x in s0 && Descends(s0, t, x) {
      ChildLine(s0, s1, t, s1[at], x);
      DescendantIsMember(s1, s1[at], x);
    }
  }

  lemma DescendantIsMember(s: seq<Task>, t: Task, x: Task)
    requires Descends(s, t, x)
    ensures x in s
  {
    var line :| IsLine(s, line, t, x);
    assert line[|line| - 1] in s;
  }

  ghost predicate DistinctPids(s: seq<Task>) {
    forall i, j :: 0 <= i < j < |s| ==> s[i].pid != s[j].pid
  }

  // No live task is left whose parent is in `moved`.
  ghost predicate NoOrphan(live: seq<Task>, moved: seq<Task>) {
    forall x, y :: x in live && y in moved ==> x.ppid != y.pid
  }

  // The code splits the live list in two, and a moved task other than the
  // target is the child of a moved task.
  lemma {:induction false} ChainSplits(s: seq<Task>, k: nat)
    requires k < |s| && DistinctPids(s)
    ensures forall x :: x in ChainOf(s, k) ==> x in s && x !in LiveAfter(s, k)
    ensures forall x :: x in LiveAfter(s, k) ==> x in s
    ensures forall x :: x in s && x !in ChainOf(s, k) ==> x in LiveAfter(s, k)
    ensures forall x :: x in ChainOf(s, k) && x != s[k] ==> exists y :: y in ChainOf(s, k) && x.ppid == y.pid
    ensures forall x :: x in ChainOf(s, k) ==> Descends(s, s[k], x)
    decreases |s|
  {
    var rest := Remove(s, k);
    var c := FirstChild(rest, s[k].pid);
    SelfDescends(s, s[k]);
    RemoveMembers(s, k);
    if c < |rest| {
      ChainSplits(rest, c);
      forall x | x in ChainOf(rest, c) ensures Descends(s, s[k], x) {
        ChildLine(s, rest, s[k], rest[c], x);
      }
      assert s[k] in ChainOf(s, k);
    }
  }

  lemma RemoveMembers(s: seq<Task>, k: nat)
    requires k < |s| && DistinctPids(s)
    ensures DistinctPids(Remove(s, k))
    ensures forall x :: x in Remove(s, k) ==> x in s && x.pid != s[k].pid
    ensures forall x :: x in s && x != s[k] ==> x in Remove(s, k)
  {
    var r := Remove(s, k);
    forall i | 0 <= i < |s| && i != k ensures s[i] in r {
      assert s[i] == r[if i < k then i else i - 1];
    }
    forall i | 0 <= i < |r| ensures r[i] == s[if i < k then i else i + 1] {
    }
  }

  ghost predicate NoChild(live: seq<Task>, p: nat) {
    forall x :: x in live ==> x.ppid != p
  }

  // A second child of `p` cannot be further down the chain of the first one.
  lemma SecondChildStays(rest: seq<Task>, p: nat)
    requires FirstChild(rest, p) < |rest| && DistinctPids(rest) && forall x :: x in rest ==> x.pid != p
    ensures var c := FirstChild(rest, p);
      NoChild(LiveAfter(rest, c), p) <==> forall i :: c < i < |rest| ==> rest[i].ppid != p
  {
    var c := FirstChild(rest, p);
    forall i | c < i < |rest| && rest[i].ppid == p ensures rest[i] in LiveAfter(rest, c) {
      ChildIsLeft(rest, p, i);
    }
    forall x | x in LiveAfter(rest, c) && x.ppid == p ensures exists i :: c < i < |rest| && rest[i].ppid == p {
      var i := LeftIsSecond(rest, p, x);
    }
  }

  lemma ChildIsLeft(rest: seq<Task>, p: nat, i: nat)
    requires FirstChild(rest, p) < i < |rest| && DistinctPids(rest) && (forall x :: x in rest ==> x.pid != p) && rest[i].ppid == p
    ensures rest[i] in LiveAfter(rest, FirstChild(rest, p))
  {
    ChainSplits(rest, FirstChild(rest, p));
    assert rest[i].pid != rest[FirstChild(rest, p)].pid;
  }

  lemma LeftIsSecond(rest: seq<Task>, p: nat, x: Task) returns (i: nat)
    requires FirstChild(rest, p) < |rest| && DistinctPids(rest) && x in LiveAfter(rest, FirstChild(rest, p)) && x.ppid == p
    ensures FirstChild(rest, p) < i < |rest| && rest[i] == x
  {
    var c := FirstChild(rest, p);
    ChainSplits(rest, c);
    i :| 0 <= i < |rest| && rest[i] == x;
    assert rest[c] in ChainOf(rest, c);
  }

  // Moving them leaves an orphan exactly if some task on the way has a second
  // live child.
  lemma {:induction false} OrphansIff(s: seq<Task>, k: nat)
    requires k < |s| && DistinctPids(s)
    ensures NoOrphan(LiveAfter(s, k), ChainOf(s, k)) <==> OnlyChildren(s, k)
    decreases |s|
  {
    var rest, p := Remove(s, k), s[k].pid;
    var c := FirstChild(rest, p);
    RemoveMembers(s, k);
    if c < |rest| {
      SecondChildStays(rest, p);
      OrphansIff(rest, c);
      NoOrphanSnoc(LiveAfter(rest, c), ChainOf(rest, c), s[k]);
    } else {
      NoOrphanSnoc(rest, [], s[k]);
      assert [] + [s[k]] == [s[k]];
    }
  }

  lemma NoOrphanSnoc(live: seq<Task>, moved: seq<Task>, t: Task)
    ensures NoOrphan(live, moved + [t]) <==> (NoOrphan(live, moved) && NoChild(live, t.pid))
  {
    var all := moved + [t];
    assert all[|moved|] == t;
    assert forall y :: y in moved ==> y in all;
  }

  // The survivors keep their order.
  lemma {:induction false} SurvivorsInOrder(s: seq<Task>, k: nat)
    requires k < |s| && DistinctPids(s)
    ensures LiveAfter(s, k) == Without(s, Elems(ChainOf(s, k)))
    decreases |s|
  {
    var rest := Remove(s, k);
    var c := FirstChild(rest, s[k].pid);
    RemoveMembers(s, k);
    RemoveIsWithout(s, k);
    if c < |rest| {
      SurvivorsInOrder(rest, c);
      WithoutTwice(s, {s[k]}, Elems(ChainOf(rest, c)));
      ElemsSnoc(ChainOf(rest, c), s[k]);
    } else {
      assert Elems(ChainOf(s, k)) == {s[k]};
    }
  }

  lemma ElemsSnoc(s: seq<Task>, x: Task)
    ensures Elems(s + [x]) == {x} + Elems(s)
  {
    assert (s + [x])[|s|] == x;
    assert forall y :: y in s ==> y in s + [x];
  }

  // The target, its first live child and so on are exactly its descendants iff
  // no task on the way has a second live child.
  lemma ChainIsDescendantsIff(s: seq<Task>, k: nat)
    requires k < |s| && DistinctPids(s)
    ensures (forall x :: x in ChainOf(s, k) <==> Descends(s, s[k], x)) <==> OnlyChildren(s, k)
  {
    var chain, live := ChainOf(s, k), LiveAfter(s, k);
    ChainSplits(s, k);
    OrphansIff(s, k);
    assert s[k] in chain;
    if OnlyChildren(s, k) {
      ClosedIsDescendants(s, Elems(chain), s[k]);
    } else {
      var x, y :| x in live && y in chain && x.ppid == y.pid;
      ChildDescends(s, s[k], y, x);
    }
  }

  lemma ChildDescends(s: seq<Task>, t: Task, y: Task, x: Task)
    requires Descends(s, t, y) && x in s && x.ppid == y.pid
    ensures Descends(s, t, x)
  {
    var line :| IsLine(s, line, t, y);
    assert IsLine(s, line + [x], t, x);
  }

  ghost function Elems(s: seq<Task>): set<Task> {
    set x | x in s
  }

  lemma {:induction false} WithoutIsShorter(s: seq<Task>, m: set<Task>, k: nat)
    requires k < |s|
    ensures |Without(s, m)| <= |s| && (s[k] in m ==> |Without(s, m)| < |s|)
  {
    var n := |s| - 1;
    if n > 0 {
      WithoutIsShorter(s[..n], m, if k < n then k else 0);
    }
  }

  // The links of all tasks but the one at `k` pass over it.
  ghost predicate Bypassed(s: seq<Task>, head: Task?, k: nat)
    requires 1 <= k < |s|
    reads s
  {
    && Distinct(s) && head == s[0]
    && (forall i {:trigger s[i].next} :: 0 <= i < |s| && i != k ==> s[i].next == At(s, if i == k - 1 then k + 1 else i + 1))
    && (forall i {:trigger s[i].prev} :: 1 <= i < |s| && i != k ==> s[i].prev == s[if i == k + 1 then k - 1 else i - 1])
  }

  lemma BypassedIsRemoved(s: seq<Task>, head: Task?, k: nat)
    requires 1 <= k < |s| && Bypassed(s, head, k)
    ensures Chain(Remove(s, k), head) && Prevs(Remove(s, k)) && s[k] !in Remove(s, k)
  {
    var r := Remove(s, k);
    forall i | 0 <= i < |r|
      ensures r[i] == s[if i < k then i else i + 1]
      ensures r[i].next == At(r, i + 1)
    {
    }
  }
}