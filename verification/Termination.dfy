// When mt_task_terminate of kernel/multitasking/scheduler.c returns, and with
// what: its steps on values, whatever the two lists hold.
module Termination {
  import opened Common
  import opened Scheduler

  datatype Lists = Lists(live: seq<Task>, gone: seq<Task>)

  ghost function Index(s: seq<Task>, x: Task): (k: nat)
    ensures k <= |s|
    ensures forall i :: 0 <= i < k ==> s[i] != x
    ensures k < |s| ==> s[k] == x
  {
    if s == [] then 0 else if s[0] == x then 0 else 1 + Index(s[1..], x)
  }

  // Lines 151 to 165: a task leaves the list it is in, be it the terminated
  // one, and heads the terminated list. The scan below never gets to the head
  // of that list, whose `prev` is not set.
  ghost function Move(s: Lists, x: Task): Lists {
    var l, g := Index(s.live, x), Index(s.gone, x);
    if l < |s.live| then Lists(Remove(s.live, l), [x] + s.gone)
    else if g < |s.gone| then Lists(s.live, [x] + Remove(s.gone, g))
    else s
  }

  // mt_task_terminate; None if it needs more than `fuel` steps.
  ghost function Term(s: Lists, x: Task, fuel: nat): Option<Lists>
    decreases fuel
  {
    if fuel == 0 then None
    else if x.pid == 0 then Some(s)
    else Scan(Move(s, x), x.pid, false, 0, fuel - 1)
  }

  // Lines 167 to 173, for children of `p`, with `i` at position `at` of the
  // live or of the terminated list. After a call for a child the scan goes on
  // behind the child, in the list the child is in then.
  ghost function Scan(s: Lists, p: nat, inGone: bool, at: nat, fuel: nat): Option<Lists>
    decreases fuel
  {
    var list := if inGone then s.gone else s.live;
    if fuel == 0 then None
    else if at >= |list| then Some(s)
    else if list[at].ppid != p then Scan(s, p, inGone, at + 1, fuel - 1)
    else
      match Term(s, list[at], fuel - 1)
      case None => None
      case Some(s') =>
        var next := Behind(s', list[at]);
        Scan(s', p, next.inGone, next.at, fuel - 1)
  }

  datatype Place = Place(inGone: bool, at: nat)

  // The place behind `x`, in the list it is in.
  ghost function Behind(s: Lists, x: Task): Place {
    var g := Index(s.gone, x);
    if g < |s.gone| then Place(true, g + 1) else Place(false, Index(s.live, x) + 1)
  }

  // No task is in two places, and the task with pid 0 never terminates.
  ghost predicate WellFormed(s: Lists) {
    && Distinct(s.live) && Distinct(s.gone)
    && (forall x :: x in s.live ==> x !in s.gone)
    && (forall x :: x in s.gone ==> x.pid != 0)
  }

  ghost predicate Grows(s: Lists, r: Lists) {
    WellFormed(r) && forall x :: x in s.gone ==> x in r.gone
  }

  lemma MoveGrows(s: Lists, x: Task)
    requires WellFormed(s) && x.pid != 0 && (x in s.live || x in s.gone)
    ensures Grows(s, Move(s, x)) && x in Move(s, x).gone
  {
    if x in s.gone {
      ToFront(s.gone, Index(s.gone, x));
    } else {
      RemoveOne(s.live, Index(s.live, x));
      ConsOne(x, s.gone);
    }
  }

  lemma ConsOne(x: Task, gone: seq<Task>)
    requires Distinct(gone) && x !in gone
    ensures Distinct([x] + gone) && forall y :: y in [x] + gone <==> y == x || y in gone
  {
    var r := [x] + gone;
    assert r[0] == x && forall i :: 0 <= i < |gone| ==> r[i + 1] == gone[i];
  }

  lemma RemoveOne(s: seq<Task>, k: nat)
    requires k < |s| && Distinct(s)
    ensures Distinct(Remove(s, k)) && forall y :: y in Remove(s, k) <==> y in s && y != s[k]
  {
    var r := Remove(s, k);
    forall y | y in s && y != s[k] ensures y in r {
      var i :| 0 <= i < |s| && s[i] == y;
      assert r[if i < k then i else i - 1] == y;
    }
  }

  lemma ToFront(gone: seq<Task>, g: nat)
    requires g < |gone| && Distinct(gone)
    ensures Distinct([gone[g]] + Remove(gone, g)) && forall y :: y in [gone[g]] + Remove(gone, g) <==> y in gone
  {
    RemoveOne(gone, g);
    ConsOne(gone[g], Remove(gone, g));
  }

  lemma {:induction false} TermGrows(s: Lists, x: Task, fuel: nat)
    requires WellFormed(s) && (x in s.live || x in s.gone) && Term(s, x, fuel).Some?
    ensures Grows(s, Term(s, x, fuel).value) && (x.pid != 0 ==> x in Term(s, x, fuel).value.gone)
    decreases fuel
  {
    if x.pid != 0 {
      MoveGrows(s, x);
      ScanGrows(Move(s, x), x.pid, false, 0, fuel - 1);
    }
  }

  lemma {:induction false} ScanGrows(s: Lists, p: nat, inGone: bool, at: nat, fuel: nat)
    requires WellFormed(s) && Scan(s, p, inGone, at, fuel).Some?
    ensures Grows(s, Scan(s, p, inGone, at, fuel).value)
    decreases fuel
  {
    var list := if inGone then s.gone else s.live;
    if at < |list| {
      var i := list[at];
      if i.ppid != p {
        ScanGrows(s, p, inGone, at + 1, fuel - 1);
      } else {
        TermGrows(s, i, fuel - 1);
        var s' := Term(s, i, fuel - 1).value;
        ScanGrows(s', p, Behind(s', i).inGone, Behind(s', i).at, fuel - 1);
      }
    }
  }

  // ----- children in the terminated list -----

  // The tasks of `s` whose parent is `q`, in order.
  ghost function Kids(s: seq<Task>, q: nat): seq<Task> {
    if s == [] then [] else (if s[0].ppid == q then [s[0]] else []) + Kids(s[1..], q)
  }

  lemma {:induction false} NoKids(s: seq<Task>, q: nat)
    ensures Kids(s, q) == [] <==> forall x :: x in s ==> x.ppid != q
  {
    if s != [] {
      NoKids(s[1..], q);
      assert s[0] in s && forall x :: x in s ==> x == s[0] || x in s[1..];
    }
  }

  lemma {:induction false} KidsOfRemove(s: seq<Task>, k: nat, q: nat)
    requires k < |s| && s[k].ppid != q
    ensures Kids(Remove(s, k), q) == Kids(s, q)
  {
    if k == 0 {
      assert Remove(s, 0) == s[1..];
    } else {
      KidsOfRemove(s[1..], k - 1, q);
      assert Remove(s, k)[1..] == Remove(s[1..], k - 1);
    }
  }

  // Of two children of `q`, one stands behind the first.
  lemma {:induction false} SecondKid(s: seq<Task>, q: nat) returns (a: nat, b: nat)
    requires |Kids(s, q)| >= 2
    ensures a < b < |s| && s[a] == Kids(s, q)[0] && s[b].ppid == q
  {
    if s[0].ppid == q {
      NoKids(s[1..], q);
      var x :| x in s[1..] && x.ppid == q;
      var i :| 0 <= i < |s| - 1 && s[1..][i] == x;
      a, b := 0, i + 1;
    } else {
      a, b := SecondKid(s[1..], q);
      a, b := a + 1, b + 1;
    }
  }

  lemma SecondKidBehind(s: seq<Task>, q: nat, g: nat)
    requires |Kids(s, q)| >= 2 && Distinct(s) && g < |s| && s[g] == Kids(s, q)[0]
    ensures exists b :: g < b < |s| && s[b].ppid == q
  {
    var a, b := SecondKid(s, q);
    assert a == g;
  }

  // The terminated list without `x`.
  ghost function Others(s: Lists, x: Task): seq<Task> {
    var g := Index(s.gone, x);
    if g < |s.gone| then Remove(s.gone, g) else s.gone
  }

  lemma MoveIsCons(s: Lists, x: Task, q: nat)
    requires WellFormed(s) && (x in s.live || x in s.gone)
    ensures Move(s, x).gone == [x] + Others(s, x)
    ensures Kids(Move(s, x).gone, q) == (if x.ppid == q then [x] else []) + Kids(Others(s, x), q)
  {
    assert ([x] + Others(s, x))[1..] == Others(s, x);
  }

  // Moving a task that is no child of `q` keeps the children of `q` in the
  // terminated list.
  lemma KidsStay(s: Lists, x: Task, q: nat)
    requires WellFormed(s) && (x in s.live || x in s.gone) && x.ppid != q
    ensures Kids(Move(s, x).gone, q) == Kids(s.gone, q)
  {
    MoveIsCons(s, x, q);
    var g := Index(s.gone, x);
    if g < |s.gone| {
      KidsOfRemove(s.gone, g, q);
    }
    assert [] + Kids(s.gone, q) == Kids(s.gone, q);
  }

  lemma OtherStays(s: Lists, x: Task, y: Task)
    requires y in s.gone && y != x
    ensures y in Others(s, x)
  {
    var g := Index(s.gone, x);
    var i :| 0 <= i < |s.gone| && s.gone[i] == y;
    assert Others(s, x)[if g < i then i - 1 else i] == y;
  }

  // Moving a child of `q` puts it first, before the others.
  lemma KidIsFirst(s: Lists, x: Task, y: Task, q: nat)
    requires WellFormed(s) && (x in s.live || x in s.gone) && x.ppid == q
    requires y in s.gone && y != x && y.ppid == q
    ensures |Kids(Move(s, x).gone, q)| >= 2 && Kids(Move(s, x).gone, q)[0] == x
  {
    var others := Kids(Others(s, x), q);
    OtherStays(s, x, y);
    NoKids(Others(s, x), q);
    MoveIsCons(s, x, q);
    assert others != [] && Kids(Move(s, x).gone, q) == [x] + others;
  }

  // ----- a scan that reaches two of them never ends -----

  ghost predicate KidBefore(s: seq<Task>, at: nat, q: nat) {
    exists b :: 0 <= b < at && b < |s| && s[b].ppid == q
  }

  // A call that returns leaves the children of `q` in the terminated list as
  // they are, if there are any. A scan for children of `q` that has passed one
  // of them in the terminated list meets no other: it would move that one to
  // the head, come to the first again behind it, move that, and so on.
  lemma {:induction false} ScanKeepsKids(s: Lists, p: nat, inGone: bool, at: nat, fuel: nat, q: nat)
    requires WellFormed(s) && Scan(s, p, inGone, at, fuel).Some? && Kids(s.gone, q) != []
    requires inGone && p == q ==> KidBefore(s.gone, at, q)
    ensures Kids(Scan(s, p, inGone, at, fuel).value.gone, q) == Kids(s.gone, q)
    ensures inGone && p == q ==>
      Scan(s, p, inGone, at, fuel).value == s && forall b :: at <= b < |s.gone| ==> s.gone[b].ppid != q
    decreases fuel, 2
  {
    var list := if inGone then s.gone else s.live;
    if at < |list| {
      var i := list[at];
      if i.ppid != p {
        ScanKeepsKids(s, p, inGone, at + 1, fuel - 1, q);
      } else if i.pid == 0 {
        assert i !in s.gone && !inGone;
        assert Index(s.gone, i) == |s.gone|;
        ScanKeepsKids(s, p, false, Index(s.live, i) + 1, fuel - 1, q);
      } else if p == q {
        SecondKidMoved(s, inGone, at, fuel, q);
        assert false;
      } else {
        OtherKidMoved(s, i, fuel - 1, q);
        var s' := Term(s, i, fuel - 1).value;
        ScanKeepsKids(s', p, true, Index(s'.gone, i) + 1, fuel - 1, q);
      }
    }
  }

  lemma {:induction false} OtherKidMoved(s: Lists, i: Task, fuel: nat, q: nat)
    requires WellFormed(s) && (i in s.live || i in s.gone) && i.pid != 0 && i.ppid != q
    requires Term(s, i, fuel).Some? && Kids(s.gone, q) != []
    ensures var s' := Term(s, i, fuel).value; WellFormed(s') && i in s'.gone && Kids(s'.gone, q) == Kids(s.gone, q)
    decreases fuel, 0
  {
    MoveGrows(s, i);
    TermGrows(s, i, fuel);
    KidsStay(s, i, q);
    ScanKeepsKids(Move(s, i), i.pid, false, 0, fuel - 1, q);
  }

  // The scan does not return from a second child of `q`.
  lemma {:induction false} SecondKidMoved(s: Lists, inGone: bool, at: nat, fuel: nat, q: nat)
    requires WellFormed(s) && Kids(s.gone, q) != []
    requires at < |if inGone then s.gone else s.live|
    requires var i := (if inGone then s.gone else s.live)[at]; i.ppid == q && i.pid != 0
    requires inGone ==> KidBefore(s.gone, at, q)
    ensures Scan(s, q, inGone, at, fuel).None?
    decreases fuel, 0
  {
    if Scan(s, q, inGone, at, fuel).Some? {
      var i := (if inGone then s.gone else s.live)[at];
      var s' := ScanAtChild(s, q, inGone, at, fuel);
      var y := AnotherKid(s, inGone, at, q);
      KidComesFirst(s, i, y, fuel - 1, q);
      NeverReturns(s', Index(s'.gone, i), fuel - 1, q);
      assert false;
    }
  }

  // What a scan that returns does at a child.
  lemma ScanAtChild(s: Lists, p: nat, inGone: bool, at: nat, fuel: nat) returns (s': Lists)
    requires at < |if inGone then s.gone else s.live| && (if inGone then s.gone else s.live)[at].ppid == p
    requires Scan(s, p, inGone, at, fuel).Some?
    ensures var i := (if inGone then s.gone else s.live)[at];
      && fuel > 0 && Term(s, i, fuel - 1) == Some(s')
      && Scan(s, p, inGone, at, fuel) == Scan(s', p, Behind(s', i).inGone, Behind(s', i).at, fuel - 1)
  {
    s' := Term(s, (if inGone then s.gone else s.live)[at], fuel - 1).value;
  }

  // Behind the first of two children of `q` in the terminated list, the scan
  // does not return.
  lemma {:induction false} NeverReturns(s: Lists, g: nat, fuel: nat, q: nat)
    requires WellFormed(s) && g < |s.gone| && |Kids(s.gone, q)| >= 2 && s.gone[g] == Kids(s.gone, q)[0] && s.gone[g].ppid == q
    ensures Scan(s, q, true, g + 1, fuel).None?
    decreases fuel, 3
  {
    SecondKidBehind(s.gone, q, g);
    if Scan(s, q, true, g + 1, fuel).Some? {
      ScanKeepsKids(s, q, true, g + 1, fuel, q);
      assert false;
    }
  }

  lemma AnotherKid(s: Lists, inGone: bool, at: nat, q: nat) returns (y: Task)
    requires WellFormed(s) && Kids(s.gone, q) != []
    requires at < |if inGone then s.gone else s.live| && (inGone ==> KidBefore(s.gone, at, q))
    ensures y in s.gone && y != (if inGone then s.gone else s.live)[at] && y.ppid == q
  {
    NoKids(s.gone, q);
    y :| y in s.gone && y != (if inGone then s.gone else s.live)[at] && y.ppid == q;
  }

  lemma {:induction false} KidComesFirst(s: Lists, i: Task, y: Task, fuel: nat, q: nat)
    requires WellFormed(s) && (i in s.live || i in s.gone) && i.ppid == q && i.pid != 0 && Term(s, i, fuel).Some?
    requires y in s.gone && y != i && y.ppid == q
    ensures var s' := Term(s, i, fuel).value;
      WellFormed(s') && i in s'.gone && |Kids(s'.gone, q)| >= 2 && Kids(s'.gone, q)[0] == i
    decreases fuel, 0
  {
    KidIsFirst(s, i, y, q);
    MoveGrows(s, i);
    TermGrows(s, i, fuel);
    ScanKeepsKids(Move(s, i), i.pid, false, 0, fuel - 1, q);
  }

  // ----- where the code does return -----

  // Only the task that is never terminated, its own parent, has pid 0.
  ghost predicate Terminable(s: seq<Task>, gone: seq<Task>, k: nat) {
    && k < |s| && WellFormed(Lists(s, gone)) && s[k].pid != 0
    && forall x :: x in s && x.pid == 0 ==> x.ppid == 0
  }

  lemma MoveIsRemove(s: seq<Task>, gone: seq<Task>, k: nat)
    requires Terminable(s, gone, k)
    ensures Move(Lists(s, gone), s[k]) == Lists(Remove(s, k), [s[k]] + gone)
    ensures WellFormed(Lists(Remove(s, k), [s[k]] + gone))
    ensures forall x :: x in Remove(s, k) ==> x in s
  {
    assert Index(s, s[k]) == k;
    MoveGrows(Lists(s, gone), s[k]);
    forall x | x in Remove(s, k) ensures x in s {
    }
  }

  // The scan passes over tasks that are no children.
  lemma {:induction false} PassOver(s: Lists, p: nat, at: nat, c: nat, fuel: nat)
    requires at <= c <= |s.live| && forall i :: at <= i < c ==> s.live[i].ppid != p
    ensures Scan(s, p, false, at, fuel + (c - at)) == Scan(s, p, false, c, fuel)
    decreases c - at
  {
    if at < c {
      PassOver(s, p, at + 1, c, fuel);
    }
  }

  lemma PassedOver(s: Lists, p: nat, c: nat, fuel: nat) returns (left: nat)
    requires c <= |s.live| && (forall i :: 0 <= i < c ==> s.live[i].ppid != p) && Scan(s, p, false, 0, fuel).Some?
    ensures 0 < left <= fuel && Scan(s, p, false, c, left) == Scan(s, p, false, 0, fuel)
  {
    if fuel < c {
      PassOver(s, p, 0, fuel, 0);
      assert false;
    }
    left := fuel - c;
    PassOver(s, p, 0, c, left);
  }

  // The tail of the terminated list is passed over when it holds no child.
  lemma {:induction false} PassTail(s: Lists, p: nat, at: nat, fuel: nat)
    requires at <= |s.gone| && fuel > |s.gone| - at && forall i :: at <= i < |s.gone| ==> s.gone[i].ppid != p
    ensures Scan(s, p, true, at, fuel) == Some(s)
    decreases fuel
  {
    if at < |s.gone| {
      PassTail(s, p, at + 1, fuel - 1);
    }
  }

  ghost function Outcome(s: seq<Task>, gone: seq<Task>, k: nat): Lists
    requires k < |s|
  {
    Lists(LiveAfter(s, k), ChainOf(s, k) + gone)
  }

  // The first child found, and the state its own termination leaves: the scan
  // goes on behind it, at the target itself.
  lemma ChildOutcome(s: seq<Task>, gone: seq<Task>, k: nat)
    requires Terminable(s, gone, k)
    ensures var rest := Remove(s, k); var c := FirstChild(rest, s[k].pid);
      c < |rest| ==>
        && Terminable(rest, [s[k]] + gone, c)
        && Outcome(rest, [s[k]] + gone, c) == Outcome(s, gone, k)
        && var n := |ChainOf(rest, c)|;
           0 < n <= |Outcome(s, gone, k).gone| && Outcome(s, gone, k).gone[n - 1] == rest[c] && Outcome(s, gone, k).gone[n..] == [s[k]] + gone
  {
    var rest, c := Remove(s, k), FirstChild(Remove(s, k), s[k].pid);
    MoveIsRemove(s, gone, k);
    if c < |rest| {
      assert ChainOf(rest, c) + ([s[k]] + gone) == (ChainOf(rest, c) + [s[k]]) + gone;
      assert rest[c] in rest;
    }
  }

  // At a child the scan goes on behind it, in the list it is in then.
  lemma AtChild(s: Lists, p: nat, c: nat, fuel: nat, r: Lists, n: nat)
    requires c < |s.live| && s.live[c].ppid == p && Term(s, s.live[c], fuel) == Some(r)
    requires Distinct(r.gone) && 0 < n <= |r.gone| && r.gone[n - 1] == s.live[c]
    ensures Scan(s, p, false, c, fuel + 1) == Scan(r, p, true, n, fuel)
  {
    assert Index(r.gone, s.live[c]) == n - 1;
  }

  // If the code returns, no task on the way has a live and a terminated child,
  // and the target, its first live child and so on have moved.
  lemma {:induction false} EndsClean(s: seq<Task>, gone: seq<Task>, k: nat, fuel: nat)
    requires Terminable(s, gone, k) && Term(Lists(s, gone), s[k], fuel).Some?
    ensures Clean(s, gone, k) && Term(Lists(s, gone), s[k], fuel).value == Outcome(s, gone, k)
    decreases fuel
  {
    var t, p := s[k], s[k].pid;
    var rest := Remove(s, k);
    var c := FirstChild(rest, p);
    MoveIsRemove(s, gone, k);
    var s1 := Lists(rest, [t] + gone);
    var left := PassedOver(s1, p, c, fuel - 1);
    ChildOutcome(s, gone, k);
    if c < |rest| {
      var n := |ChainOf(rest, c)|;
      EndsClean(rest, [t] + gone, c, left - 1);
      TermGrows(s1, rest[c], left - 1);
      BehindFirstChild(s1, p, c, left, Outcome(s, gone, k), n);
      ConsHasNoKid(t, gone, p);
    }
  }

  // The scan goes on behind the first child and, if it returns, meets no other.
  lemma BehindFirstChild(s1: Lists, p: nat, c: nat, left: nat, r: Lists, n: nat)
    requires c < |s1.live| && s1.live[c].ppid == p && left > 0 && Term(s1, s1.live[c], left - 1) == Some(r)
    requires WellFormed(r) && 0 < n <= |r.gone| && r.gone[n - 1] == s1.live[c] && Scan(s1, p, false, c, left).Some?
    ensures Scan(s1, p, false, c, left).value == r
    ensures forall i :: 0 <= i < |r.gone[n..]| ==> r.gone[n..][i].ppid != p
  {
    AtChild(s1, p, c, left - 1, r, n);
    TailHasNoKid(r, p, n, left - 1);
  }

  lemma ConsHasNoKid(t: Task, gone: seq<Task>, p: nat)
    ensures (forall i :: 0 <= i < |[t] + gone| ==> ([t] + gone)[i].ppid != p)
      <==> t.ppid != p && forall i :: 0 <= i < |gone| ==> gone[i].ppid != p
  {
    assert ([t] + gone)[0] == t && forall i :: 0 <= i < |gone| ==> ([t] + gone)[i + 1] == gone[i];
  }

  lemma TailHasNoKid(s: Lists, p: nat, n: nat, fuel: nat)
    requires WellFormed(s) && 0 < n <= |s.gone| && s.gone[n - 1].ppid == p && Scan(s, p, true, n, fuel).Some?
    ensures Scan(s, p, true, n, fuel).value == s
    ensures forall i :: 0 <= i < |s.gone[n..]| ==> s.gone[n..][i].ppid != p
  {
    NoKids(s.gone, p);
    assert s.gone[n - 1] in s.gone;
    ScanKeepsKids(s, p, true, n, fuel, p);
  }

  // More fuel changes no outcome.
  lemma {:induction false} TermMore(s: Lists, x: Task, fuel: nat, more: nat)
    requires Term(s, x, fuel).Some?
    ensures Term(s, x, fuel + more) == Term(s, x, fuel)
    decreases fuel
  {
    if x.pid != 0 {
      ScanMore(Move(s, x), x.pid, false, 0, fuel - 1, more);
    }
  }

  lemma {:induction false} ScanMore(s: Lists, p: nat, inGone: bool, at: nat, fuel: nat, more: nat)
    requires Scan(s, p, inGone, at, fuel).Some?
    ensures Scan(s, p, inGone, at, fuel + more) == Scan(s, p, inGone, at, fuel)
    decreases fuel
  {
    var list := if inGone then s.gone else s.live;
    if at < |list| {
      var i := list[at];
      if i.ppid != p {
        ScanMore(s, p, inGone, at + 1, fuel - 1, more);
      } else {
        TermMore(s, i, fuel - 1, more);
        var s' := Term(s, i, fuel - 1).value;
        ScanMore(s', p, Behind(s', i).inGone, Behind(s', i).at, fuel - 1, more);
      }
    }
  }

  // A target whose first child returns, with no other child behind it, returns.
  lemma ReturnsAfterChild(s: Lists, t: Task, c: nat, r: Lists, n: nat, below: nat) returns (fuel: nat)
    requires var s1 := Move(s, t);
      && t.pid != 0 && c < |s1.live| && (forall i :: 0 <= i < c ==> s1.live[i].ppid != t.pid) && s1.live[c].ppid == t.pid
      && Term(s1, s1.live[c], below) == Some(r)
      && Distinct(r.gone) && 0 < n <= |r.gone| && r.gone[n - 1] == s1.live[c]
    requires forall i :: n <= i < |r.gone| ==> r.gone[i].ppid != t.pid
    ensures Term(s, t, fuel) == Some(r)
  {
    var s1, f := Move(s, t), below + (|r.gone| + 1);
    TermMore(s1, s1.live[c], below, |r.gone| + 1);
    PassTail(r, t.pid, n, f);
    AtChild(s1, t.pid, c, f, r, n);
    PassOver(s1, t.pid, 0, c, f + 1);
    fuel := f + 1 + c + 1;
  }

  // Otherwise it returns.
  lemma {:induction false} CleanEnds(s: seq<Task>, gone: seq<Task>, k: nat) returns (fuel: nat)
    requires Terminable(s, gone, k) && Clean(s, gone, k)
    ensures Term(Lists(s, gone), s[k], fuel) == Some(Outcome(s, gone, k))
    decreases |s|
  {
    var t, rest := s[k], Remove(s, k);
    var c := FirstChild(rest, t.pid);
    MoveIsRemove(s, gone, k);
    ChildOutcome(s, gone, k);
    if c == |rest| {
      fuel := c + 2;
      PassOver(Lists(rest, [t] + gone), t.pid, 0, c, 1);
    } else {
      var below := CleanEnds(rest, [t] + gone, c);
      var n := |ChainOf(rest, c)|;
      TermGrows(Lists(rest, [t] + gone), rest[c], below);
      TailIsQuiet(s, gone, k, n);
      fuel := ReturnsAfterChild(Lists(s, gone), t, c, Outcome(s, gone, k), n, below);
    }
  }

  lemma TailIsQuiet(s: seq<Task>, gone: seq<Task>, k: nat, n: nat)
    requires k < |s| && Clean(s, gone, k) && FirstChild(Remove(s, k), s[k].pid) < |Remove(s, k)|
    requires n <= |Outcome(s, gone, k).gone| && Outcome(s, gone, k).gone[n..] == [s[k]] + gone
    ensures var r := Outcome(s, gone, k); forall i :: n <= i < |r.gone| ==> r.gone[i].ppid != s[k].pid
  {
    ChildLeads(s, gone, k);
    QuietTail(Outcome(s, gone, k).gone, n, s[k], gone);
  }

  lemma QuietTail(r: seq<Task>, n: nat, t: Task, gone: seq<Task>)
    requires n <= |r| && r[n..] == [t] + gone && t.ppid != t.pid && forall i :: 0 <= i < |gone| ==> gone[i].ppid != t.pid
    ensures forall i :: n <= i < |r| ==> r[i].ppid != t.pid
  {
    forall i | n <= i < |r| ensures r[i].ppid != t.pid {
      assert r[i] == ([t] + gone)[i - n];
    }
  }

  // ----- results -----

  ghost predicate Ends(s: seq<Task>, gone: seq<Task>, k: nat)
    requires k < |s|
  {
    exists fuel: nat :: Term(Lists(s, gone), s[k], fuel).Some?
  }

  // mt_task_terminate returns exactly if no task on the way that has a live
  // child has a child in the terminated list too, and with one outcome.
  lemma EndsIff(s: seq<Task>, gone: seq<Task>, k: nat)
    requires Terminable(s, gone, k)
    ensures Ends(s, gone, k) <==> Clean(s, gone, k)
    ensures forall fuel: nat :: Term(Lists(s, gone), s[k], fuel).Some? ==> Term(Lists(s, gone), s[k], fuel).value == Outcome(s, gone, k)
  {
    forall fuel: nat | Term(Lists(s, gone), s[k], fuel).Some?
      ensures Clean(s, gone, k) && Term(Lists(s, gone), s[k], fuel).value == Outcome(s, gone, k)
    {
      EndsClean(s, gone, k, fuel);
    }
    if Clean(s, gone, k) {
      var fuel := CleanEnds(s, gone, k);
    }
  }

  // It returns and leaves no orphan exactly if, besides, no task on the way
  // has a second live child.
  lemma EndsWithoutOrphansIff(s: seq<Task>, gone: seq<Task>, k: nat)
    requires Terminable(s, gone, k) && DistinctPids(s)
    ensures Ends(s, gone, k) && NoOrphan(LiveAfter(s, k), ChainOf(s, k)) <==> Clean(s, gone, k) && OnlyChildren(s, k)
  {
    EndsIff(s, gone, k);
    OrphansIff(s, k);
  }

  // Exactly the descendants of the target have left the live list.
  ghost predicate MovesDescendants(s: seq<Task>, k: nat, live: seq<Task>)
    requires k < |s|
  {
    forall x :: x in s ==> (x !in live <==> Descends(s, s[k], x))
  }

  lemma ChainMovesDescendantsIff(s: seq<Task>, k: nat)
    requires k < |s| && DistinctPids(s)
    ensures MovesDescendants(s, k, LiveAfter(s, k)) <==> OnlyChildren(s, k)
  {
    ChainSplits(s, k);
    ChainIsDescendantsIff(s, k);
    forall x | Descends(s, s[k], x) ensures x in s {
      DescendantIsMember(s, s[k], x);
    }
  }

  // It returns with exactly the descendants of the target moved if and only if
  // no task on the way has a second live child, or a live and a terminated one.
  lemma MovesDescendantsIff(s: seq<Task>, gone: seq<Task>, k: nat)
    requires Terminable(s, gone, k) && DistinctPids(s)
    ensures EndsMovingDescendants(s, gone, k) <==> Clean(s, gone, k) && OnlyChildren(s, k)
  {
    EndsIff(s, gone, k);
    ChainMovesDescendantsIff(s, k);
    if Clean(s, gone, k) && OnlyChildren(s, k) {
      var fuel: nat :| Term(Lists(s, gone), s[k], fuel).Some?;
      assert Term(Lists(s, gone), s[k], fuel).value == Outcome(s, gone, k);
    }
  }

  ghost predicate EndsMovingDescendants(s: seq<Task>, gone: seq<Task>, k: nat)
    requires k < |s|
  {
    exists fuel: nat ::
      Term(Lists(s, gone), s[k], fuel).Some? && MovesDescendants(s, k, Term(Lists(s, gone), s[k], fuel).value.live)
  }
}
