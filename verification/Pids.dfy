// Process numbers: gen_pid and the pid fields of kernel/multitasking/task.c,
// with the live list of kernel/multitasking/scheduler.c given by its pids.
module Pids {
  import opened Common

  const MAX_PID: nat := 0xFFFF

  // The least number from `from` on that is not in `live`.
  function LeastUnused(live: seq<nat>, from: nat): (p: nat)
    ensures p >= from && p !in live
    ensures forall q :: from <= q < p ==> q in live
    decreases |set q | q in live && q >= from|
  {
    if from in live then
      Shrinks(live, from);
      LeastUnused(live, from + 1)
    else from
  }

  lemma Shrinks(live: seq<nat>, from: nat)
    requires from in live
    ensures |set q | q in live && q >= from + 1| < |set q | q in live && q >= from|
  {
    var a, b := set q | q in live && q >= from + 1, set q | q in live && q >= from;
    assert b == a + {from};
  }

  // gen_pid: the static counter, and a search from 0 once it has passed MAX_PID.
  function Generated(counter: nat, live: seq<nat>): nat {
    if counter > MAX_PID then LeastUnused(live, 0) else counter
  }

  class PidGenerator {
    var counter: nat  // the static variable _pid

    constructor ()
      ensures counter == 0
    {
      counter := 0;
    }

    // mt_get_task_by_pid as a test, on the pids of the live list.
    static method Exists(live: seq<nat>, pid: nat) returns (found: bool)
      ensures found <==> pid in live
    {
      var i := 0;
      while i < |live| && live[i] != pid
        invariant 0 <= i <= |live| && pid !in live[..i]
      {
        i := i + 1;
      }
      assert live == live[..i] + live[i..];
      return i < |live|;
    }

    method GenPid(live: seq<nat>) returns (pid: nat)
      modifies this
      ensures pid == Generated(old(counter), live) && counter == pid + 1
    {
      if counter > MAX_PID {
        counter := 0;
        var taken := Exists(live, counter);
        while taken
          invariant taken <==> counter in live
          invariant LeastUnused(live, counter) == LeastUnused(live, 0)
          decreases LeastUnused(live, 0) - counter
        {
          counter := counter + 1;
          taken := Exists(live, counter);
        }
      }
      pid := counter;
      counter := counter + 1;
    }
  }

  // ----- runs -----

  // A creation that is pushed, or the removal of the live task at a position.
  datatype Event = Create | Remove(at: nat)

  datatype State = State(counter: nat, live: seq<nat>)

  function Step(s: State, e: Event): State {
    match e
    case Create =>
      var p := Generated(s.counter, s.live);
      State(p + 1, s.live + [p])
    case Remove(at) =>
      if at < |s.live| then s.(live := s.live[..at] + s.live[at + 1..]) else s
  }

  function Run(events: seq<Event>): State {
    if events == [] then State(0, []) else Step(Run(events[..|events| - 1]), events[|events| - 1])
  }

  function Creations(events: seq<Event>): nat {
    if events == [] then 0
    else Creations(events[..|events| - 1]) + if events[|events| - 1] == Create then 1 else 0
  }

  // A creation keeps the live pids distinct exactly when the counter is past
  // MAX_PID, so that a search is made, or no live task has the counter as pid.
  lemma CreateKeepsDistinct(s: State)
    requires Distinct(s.live)
    ensures Distinct(Step(s, Create).live) <==> s.counter > MAX_PID || s.counter !in s.live
  {
    var p := Generated(s.counter, s.live);
    var live := Step(s, Create).live;
    if p in s.live {
      var i :| 0 <= i < |s.live| && s.live[i] == p;
      assert live[i] == live[|s.live|];
    }
  }

  lemma RemoveKeepsDistinct(s: State, at: nat)
    requires Distinct(s.live)
    ensures Distinct(Step(s, Remove(at)).live)
    ensures forall p :: p in Step(s, Remove(at)).live ==> p in s.live
  {
  }

  // Up to 65536 creations the counter is their number and bounds every live pid.
  lemma {:induction false} BeforeWrap(events: seq<Event>)
    requires Creations(events) <= MAX_PID + 1
    ensures var s := Run(events);
      s.counter == Creations(events) && Distinct(s.live) && forall p :: p in s.live ==> p < s.counter
  {
    if events != [] {
      var init, e := events[..|events| - 1], events[|events| - 1];
      BeforeWrap(init);
      match e
      case Create => CreateKeepsDistinct(Run(init));
      case Remove(at) => RemoveKeepsDistinct(Run(init), at);
    }
  }

  // In every run that makes at most 65537 tasks the live pids are distinct.
  lemma {:induction false} DistinctUpTo65537(events: seq<Event>)
    requires Creations(events) <= 65537
    ensures Distinct(Run(events).live)
  {
    if Creations(events) <= MAX_PID + 1 {
      BeforeWrap(events);
    } else if events != [] {
      var init, e := events[..|events| - 1], events[|events| - 1];
      DistinctUpTo65537(init);
      match e
      case Create =>
        BeforeWrap(init);
        CreateKeepsDistinct(Run(init));
      case Remove(at) => RemoveKeepsDistinct(Run(init), at);
    }
  }

  // The creation after the search takes the next number unseen: with pid 1 the
  // only unused one below 65536, the two tasks made next get pid 1 and pid 2,
  // and 2 is live already.
  lemma SecondAfterWrapCollides(live: seq<nat>)
    requires Distinct(live) && 1 !in live && forall p :: 0 <= p <= 65535 && p != 1 ==> p in live
    ensures var s := State(65536, live);
      && Distinct(Step(s, Create).live)
      && !Distinct(Step(Step(s, Create), Create).live)
  {
    var s := State(MAX_PID + 1, live);
    CreateKeepsDistinct(s);
    assert LeastUnused(live, 0) == 1 by {
      assert 0 in live;
    }
    var s1 := Step(s, Create);
    assert 2 in live && s1.live == live + [1];
    CreateKeepsDistinct(s1);
  }

  function Creates(n: nat): seq<Event> {
    seq(n, _ => Create)
  }

  lemma {:induction false} RunOfCreates(n: nat)
    requires n <= MAX_PID + 1
    ensures Run(Creates(n)) == State(n, seq(n, i => i)) && Creations(Creates(n)) == n
  {
    if n > 0 {
      RunOfCreates(n - 1);
      assert Creates(n)[..n - 1] == Creates(n - 1);
      assert seq(n, i => i) == seq(n - 1, i => i) + [n - 1];
    }
  }

  // The bound of 65537 creations is sharp: create 65536 tasks, remove the
  // one with pid 1, and create two more.
  lemma BoundIsSharp(n: nat, events: seq<Event>)
    requires n == 65536 && events == Creates(n) + [Remove(1), Create, Create]
    ensures Creations(events) == n + 2 && !Distinct(Run(events).live)
  {
    RunOfCreates(n);
    var e1, e2 := Creates(n) + [Remove(1)], Creates(n) + [Remove(1), Create];
    assert events[..|events| - 1] == e2 && e2[..|e2| - 1] == e1 && e1[..|e1| - 1] == Creates(n);
    assert Creations(e1) == n && Creations(e2) == n + 1;
    var all := seq(n, i => i);
    var live := Run(e1).live;
    assert live == all[..1] + all[2..];
    forall p | 0 <= p <= MAX_PID && p != 1 ensures p in live {
      assert live[if p == 0 then 0 else p - 1] == p;
    }
    SecondAfterWrapCollides(live);
  }
}
