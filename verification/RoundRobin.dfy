// What a timer tick does in kernel/multitasking/scheduler.c, on values: the
// task list in order and the index of the current task.
module RoundRobin {
  import opened Common

  // TS_SUS, TS_RDY, TS_RUN and TS_FIN.
  datatype TaskState = Sus | Rdy | Run | Fin

  datatype Slot = Slot(slice: nat, remaining: nat, state: TaskState)

  datatype Cpu = Cpu(tasks: seq<Slot>, cur: nat)

  predicate Valid(s: Cpu) {
    s.cur < |s.tasks|
  }

  // The first unfinished task after position `i`, or the head of the list.
  function PickAfter(tasks: seq<Slot>, i: nat): (j: nat)
    requires tasks != [] && i <= |tasks|
    ensures j < |tasks|
    decreases |tasks| - i
  {
    if i == |tasks| then 0 else if tasks[i].state != Fin then i else PickAfter(tasks, i + 1)
  }

  // It is unfinished and none before it is, or it is the head and all from `i`
  // on have finished.
  lemma {:induction false} PickIsFirst(tasks: seq<Slot>, i: nat)
    requires tasks != [] && i <= |tasks|
    ensures var j := PickAfter(tasks, i);
      && (forall k :: i <= k < |tasks| && tasks[k].state != Fin ==> i <= j <= k)
      && ((i <= j && tasks[j].state != Fin) || (j == 0 && forall k :: i <= k < |tasks| ==> tasks[k].state == Fin))
    decreases |tasks| - i
  {
    if i < |tasks| && tasks[i].state == Fin {
      PickIsFirst(tasks, i + 1);
    }
  }

  // mt_schedule: the counter of the current task is a 32-bit word.
  function Tick(s: Cpu): (r: Cpu)
    requires Valid(s)
    ensures Valid(r) && |r.tasks| == |s.tasks|
  {
    var t := s.tasks[s.cur];
    var left := (t.remaining - 1) % WORD;
    if t.state == Run && left > 0 then s.(tasks := s.tasks[s.cur := t.(remaining := left)])
    else Switch(s.(tasks := s.tasks[s.cur := t.(remaining := t.slice)]))
  }

  // The choice of the next task and the switch to it.
  function Switch(s: Cpu): (r: Cpu)
    requires Valid(s)
    ensures Valid(r) && |r.tasks| == |s.tasks|
  {
    var next := PickAfter(s.tasks, s.cur + 1);
    var ts1 := s.tasks[next := s.tasks[next].(state := Run)];
    var ts2 := if ts1[s.cur].state != Fin then ts1[s.cur := ts1[s.cur].(state := Sus)] else ts1;
    Cpu(ts2, next)
  }

  function Ticks(s: Cpu, k: nat): (r: Cpu)
    requires Valid(s)
    ensures Valid(r) && |r.tasks| == |s.tasks|
    decreases k
  {
    if k == 0 then s else Ticks(Tick(s), k - 1)
  }

  lemma {:induction false} TicksAdd(s: Cpu, j: nat, k: nat)
    requires Valid(s)
    ensures Ticks(s, j + k) == Ticks(Ticks(s, j), k)
    decreases j
  {
    if j > 0 {
      FirstTick(s, j + k);
      FirstTick(s, j);
      TicksAdd(Tick(s), j - 1, k);
    }
  }

  lemma FirstTick(s: Cpu, k: nat)
    requires Valid(s) && k > 0
    ensures Ticks(s, k) == Ticks(Tick(s), k - 1)
  {
  }

  lemma LastTick(s: Cpu, k: nat)
    requires Valid(s) && k > 0
    ensures Ticks(s, k) == Tick(Ticks(s, k - 1))
  {
    TicksAdd(s, k - 1, 1);
    FirstTick(Ticks(s, k - 1), 1);
  }

  // Everything a tick changes. Within its slice the running task loses a count,
  // where 0 is followed by 2^32 - 1. Otherwise its counter is set to its slice,
  // the next task is running and current, and the old one is suspended unless
  // it has ended; a task that is its own successor is left suspended.
  lemma TickEffect(s: Cpu)
    requires Valid(s)
    ensures var t, r := s.tasks[s.cur], Tick(s);
      var left := if t.remaining % WORD == 0 then 0xFFFF_FFFF else t.remaining % WORD - 1;
      if t.state == Run && left > 0 then
        r.cur == s.cur && r.tasks == s.tasks[s.cur := t.(remaining := left)]
      else
        var next := PickAfter(s.tasks, s.cur + 1);
        && r.cur == next && (forall i :: 0 <= i < |s.tasks| && i != s.cur && i != next ==> r.tasks[i] == s.tasks[i])
        && (next != s.cur ==> r.tasks[next] == s.tasks[next].(state := Run))
        && r.tasks[s.cur] == t.(remaining := t.slice, state := if t.state == Fin && next != s.cur then Fin else Sus)
  {
    PickSame(s.tasks, s.cur, s.tasks[s.cur].(remaining := s.tasks[s.cur].slice), s.cur + 1);
    Decrement(s.tasks[s.cur].remaining);
  }

  lemma Decrement(n: nat)
    ensures (n - 1) % WORD == if n % WORD == 0 then 0xFFFF_FFFF else n % WORD - 1
  {
  }

  // The choice does not look at counters.
  lemma {:induction false} PickSame(tasks: seq<Slot>, cur: nat, t: Slot, i: nat)
    requires cur < |tasks| && i <= |tasks| && t.state == tasks[cur].state
    ensures PickAfter(tasks[cur := t], i) == PickAfter(tasks, i)
    decreases |tasks| - i
  {
    if i < |tasks| && tasks[i].state == Fin {
      PickSame(tasks, cur, t, i + 1);
    }
  }

  // After a switch to another task the current task is the only one running,
  // provided it was so before; a task that switches to itself is left suspended.
  ghost predicate OneRunning(s: Cpu) {
    Valid(s) && forall i :: 0 <= i < |s.tasks| ==> (s.tasks[i].state == Run ==> i == s.cur)
  }

  lemma TickKeepsOneRunning(s: Cpu)
    requires OneRunning(s)
    ensures OneRunning(Tick(s))
    ensures Tick(s).cur != s.cur ==> Tick(s).tasks[Tick(s).cur].state == Run
    ensures Tick(s).tasks[Tick(s).cur].state == Run <==>
      Tick(s).cur != s.cur || (s.tasks[s.cur].state == Run && (s.tasks[s.cur].remaining - 1) % WORD > 0)
  {
  }

  // ----- fairness for a fixed list of unfinished tasks -----

  // Task `s.cur` has just been dispatched: every counter is full.
  ghost predicate Dispatched(s: Cpu) {
    && Valid(s) && |s.tasks| >= 2
    && (forall i :: 0 <= i < |s.tasks| ==>
          0 < s.tasks[i].slice < WORD && s.tasks[i].remaining == s.tasks[i].slice && s.tasks[i].state != Fin)
    && (forall i :: 0 <= i < |s.tasks| ==> (s.tasks[i].state == Run <==> i == s.cur))
  }

  function Succ(n: nat, i: nat): (j: nat)
    requires i < n
    ensures j < n
  {
    if i + 1 == n then 0 else i + 1
  }

  // The position `m` places after `i` in a list of `n`, wrapping around.
  function Places(n: nat, i: nat, m: nat): (j: nat)
    requires i < n
    ensures j < n
    decreases m
  {
    if m == 0 then i else Places(n, Succ(n, i), m - 1)
  }

  // The state after the current task is suspended and its successor dispatched.
  function Handover(s: Cpu): Cpu
    requires Valid(s) && |s.tasks| >= 2
  {
    var next := Succ(|s.tasks|, s.cur);
    Cpu(s.tasks[s.cur := s.tasks[s.cur].(state := Sus)][next := s.tasks[next].(state := Run)], next)
  }

  // A dispatched task runs for exactly its slice: the list changes only in its
  // counter until then, and at that tick its successor is dispatched.
  lemma {:induction false} RunsItsSlice(s: Cpu, k: nat)
    requires Dispatched(s) && k <= s.tasks[s.cur].slice
    ensures var slice := s.tasks[s.cur].slice;
      Ticks(s, k) == if k < slice then s.(tasks := s.tasks[s.cur := s.tasks[s.cur].(remaining := slice - k)])
                     else Handover(s)
    ensures Dispatched(Handover(s))
  {
    HandoverDispatches(s);
    if k > 0 {
      RunsItsSlice(s, k - 1);
      LastTick(s, k);
      TickCountsDown(Ticks(s, k - 1));
    }
  }

  // A tick of the running task of a list of unfinished tasks.
  lemma TickCountsDown(s: Cpu)
    requires Valid(s) && |s.tasks| >= 2 && forall i :: 0 <= i < |s.tasks| ==> s.tasks[i].state != Fin
    requires s.tasks[s.cur].state == Run && 0 < s.tasks[s.cur].remaining < WORD
    ensures var t := s.tasks[s.cur];
      Tick(s) == if t.remaining > 1 then s.(tasks := s.tasks[s.cur := t.(remaining := t.remaining - 1)])
                 else Handover(s.(tasks := s.tasks[s.cur := t.(remaining := t.slice)]))
  {
  }

  lemma HandoverDispatches(s: Cpu)
    requires Dispatched(s)
    ensures Dispatched(Handover(s)) && |Handover(s).tasks| == |s.tasks|
    ensures forall i :: 0 <= i < |s.tasks| ==> Handover(s).tasks[i].slice == s.tasks[i].slice
  {
  }

  function Handovers(s: Cpu, m: nat): Cpu
    requires Valid(s) && |s.tasks| >= 2
    decreases m
  {
    if m == 0 then s else Handovers(Handover(s), m - 1)
  }

  // The sum of the slices of `m` tasks from position `i`, wrapping around.
  function SlicesFrom(tasks: seq<Slot>, i: nat, m: nat): nat
    requires i < |tasks|
    decreases m
  {
    if m == 0 then 0 else tasks[i].slice + SlicesFrom(tasks, Succ(|tasks|, i), m - 1)
  }

  lemma {:induction false} SlicesAgree(s: seq<Slot>, t: seq<Slot>, i: nat, m: nat)
    requires |s| == |t| && i < |s| && forall j :: 0 <= j < |s| ==> s[j].slice == t[j].slice
    ensures SlicesFrom(s, i, m) == SlicesFrom(t, i, m)
    decreases m
  {
    if m > 0 {
      SlicesAgree(s, t, Succ(|s|, i), m - 1);
    }
  }

  lemma {:induction false} HandoversDispatch(s: Cpu, m: nat)
    requires Dispatched(s)
    ensures Dispatched(Handovers(s, m)) && Handovers(s, m).cur == Places(|s.tasks|, s.cur, m)
    decreases m
  {
    if m > 0 {
      HandoverDispatches(s);
      HandoversDispatch(Handover(s), m - 1);
    }
  }

  // After the slices of `m` tasks in list order, the task `m` places on is dispatched.
  lemma {:induction false} RoundRobinOrder(s: Cpu, m: nat)
    requires Dispatched(s)
    ensures Ticks(s, SlicesFrom(s.tasks, s.cur, m)) == Handovers(s, m)
    ensures Dispatched(Handovers(s, m)) && Handovers(s, m).cur == Places(|s.tasks|, s.cur, m)
    decreases m
  {
    HandoversDispatch(s, m);
    if m > 0 {
      var h, k := FirstOfMany(s, m);
      RoundRobinOrder(h, m - 1);
    }
  }

  // The first task runs, and then `m - 1` tasks from the state it leaves.
  lemma {:induction false} FirstOfMany(s: Cpu, m: nat) returns (h: Cpu, k: nat)
    requires Dispatched(s) && m > 0
    ensures Dispatched(h) && Handovers(s, m) == Handovers(h, m - 1) && k == SlicesFrom(h.tasks, h.cur, m - 1)
    ensures Ticks(s, SlicesFrom(s.tasks, s.cur, m)) == Ticks(h, k)
  {
    h := Handover(s);
    k := SlicesAfterFirst(s, m);
    FirstHandover(s, k);
    HandoverDispatches(s);
  }

  lemma {:induction false} SlicesAfterFirst(s: Cpu, m: nat) returns (k: nat)
    requires Dispatched(s) && m > 0
    ensures k == SlicesFrom(Handover(s).tasks, Handover(s).cur, m - 1)
    ensures SlicesFrom(s.tasks, s.cur, m) == s.tasks[s.cur].slice + k
  {
    HandoverDispatches(s);
    k := SlicesFrom(Handover(s).tasks, Handover(s).cur, m - 1);
    SlicesAgree(s.tasks, Handover(s).tasks, Handover(s).cur, m - 1);
  }

  lemma {:induction false} FirstHandover(s: Cpu, k: nat)
    requires Dispatched(s)
    ensures Ticks(s, s.tasks[s.cur].slice + k) == Ticks(Handover(s), k)
  {
    RunsItsSlice(s, s.tasks[s.cur].slice);
    TicksAdd(s, s.tasks[s.cur].slice, k);
  }

  lemma {:induction false} PlacesIs(n: nat, i: nat, m: nat)
    requires i < n && m <= n
    ensures Places(n, i, m) == if i + m < n then i + m else i + m - n
    decreases m
  {
    if m > 0 {
      PlacesIs(n, Succ(n, i), m - 1);
    }
  }

  lemma {:induction false} SlicesSplit(tasks: seq<Slot>, i: nat, m: nat, k: nat)
    requires i < |tasks|
    ensures SlicesFrom(tasks, i, m + k) == SlicesFrom(tasks, i, m) + SlicesFrom(tasks, Places(|tasks|, i, m), k)
    decreases m
  {
    if m > 0 {
      SlicesSplit(tasks, Succ(|tasks|, i), m - 1, k);
    }
  }

  // The slices of all tasks but `j`.
  function OtherSlices(tasks: seq<Slot>, j: nat): nat
    requires j < |tasks|
  {
    SlicesFrom(tasks, Succ(|tasks|, j), |tasks| - 1)
  }

  // Every other task `j` is dispatched after the slices of the tasks between,
  // which is within the slices of the tasks other than `j`.
  lemma {:induction false} DispatchedWithin(s: Cpu, j: nat) returns (ticks: nat)
    requires Dispatched(s) && j < |s.tasks| && j != s.cur
    ensures ticks <= OtherSlices(s.tasks, j)
    ensures Dispatched(Ticks(s, ticks)) && Ticks(s, ticks).cur == j
  {
    var n := |s.tasks|;
    var m := if s.cur < j then j - s.cur else n + j - s.cur;
    PlacesIs(n, s.cur, m);
    RoundRobinOrder(s, m);
    ticks := SlicesFrom(s.tasks, s.cur, m);
    SlicesBetween(s.tasks, s.cur, j, m);
  }

  // From the task after `j`, n - 1 - m places lead to the task at `i`.
  lemma {:induction false} SlicesBetween(tasks: seq<Slot>, i: nat, j: nat, m: nat)
    requires i < |tasks| && j < |tasks| && i != j && m == if i < j then j - i else |tasks| + j - i
    ensures SlicesFrom(tasks, i, m) <= OtherSlices(tasks, j)
  {
    var n := |tasks|;
    PlacesIs(n, Succ(n, j), n - 1 - m);
    SlicesSplit(tasks, Succ(n, j), n - 1 - m, m);
  }

  // Once every waiting task is suspended a whole round restores the state.
  lemma {:induction false} RoundIsPeriodic(s: Cpu)
    requires Dispatched(s) && forall i :: 0 <= i < |s.tasks| ==> i == s.cur || s.tasks[i].state == Sus
    ensures Ticks(s, SlicesFrom(s.tasks, s.cur, |s.tasks|)) == s
  {
    RoundRobinOrder(s, |s.tasks|);
    PlacesIs(|s.tasks|, s.cur, |s.tasks|);
    HandoversShape(s, |s.tasks|);
    assert Handovers(s, |s.tasks|).tasks == s.tasks;
  }

  lemma {:induction false} HandoversShape(s: Cpu, m: nat)
    requires Dispatched(s) && forall i :: 0 <= i < |s.tasks| ==> i == s.cur || s.tasks[i].state == Sus
    ensures var r := Handovers(s, m);
      && Valid(r) && |r.tasks| == |s.tasks|
      && forall i :: 0 <= i < |s.tasks| ==> r.tasks[i] == s.tasks[i].(state := if i == r.cur then Run else Sus)
    decreases m
  {
    if m > 0 {
      RunsItsSlice(s, s.tasks[s.cur].slice);
      HandoversShape(Handover(s), m - 1);
    }
  }

  // mt_init leaves every task ready and the head current: the first tick
  // dispatches the second task, whatever the slice of the first.
  lemma FirstTickDispatches(s: Cpu)
    requires |s.tasks| >= 2 && s.cur == 0
    requires forall i :: 0 <= i < |s.tasks| ==>
      s.tasks[i].state == Rdy && 0 < s.tasks[i].slice < WORD && s.tasks[i].remaining == s.tasks[i].slice
    ensures Dispatched(Tick(s)) && Tick(s).cur == 1
  {
  }
}
