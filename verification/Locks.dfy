/**
 The two spin locks of the interceptor. Any number of threads run any sequences of calls into the module;
 a call is the sequence of lock operations and accesses to shared data on the return path that it takes.
 */
module Locks {
  import opened CallPaths

  function Program(calls: seq<Call>): seq<Op> {
    if calls == [] then [] else Ops(calls[0]) + Program(calls[1..])
  }

  /**
   What keeps threads apart and moving: a lock is taken only when not held and dropped only when held, the
   list lock only nests inside the table lock, shared data are touched only under their lock, and at the end
   neither is held. c and p say what is held.
   */
  predicate Disciplined(ops: seq<Op>, c: bool, p: bool) {
    if ops == [] then !c && !p
    else
      match ops[0]
      case Take(Calltable) => !c && !p && Disciplined(ops[1..], true, p)
      case Take(Pidlist) => !p && Disciplined(ops[1..], c, true)
      case Drop(Calltable) => c && !p && Disciplined(ops[1..], false, p)
      case Drop(Pidlist) => p && Disciplined(ops[1..], c, false)
      case Touch(data) => Covered(data, c, p) && Disciplined(ops[1..], c, p)
  }

  predicate Covered(data: Data, c: bool, p: bool) {
    if data == SysCallTable then c else p
  }

  lemma {:induction false} DisciplinedAppend(a: seq<Op>, z: seq<Op>, c: bool, p: bool)
    requires Disciplined(a, c, p) && Disciplined(z, false, false)
    ensures Disciplined(a + z, c, p)
    decreases a
  {
    if a == [] {
      assert a + z == z;
    } else {
      assert (a + z)[1..] == a[1..] + z;
      match a[0] {
        case Take(Calltable) => DisciplinedAppend(a[1..], z, true, p);
        case Take(Pidlist) => DisciplinedAppend(a[1..], z, c, true);
        case Drop(Calltable) => DisciplinedAppend(a[1..], z, false, p);
        case Drop(Pidlist) => DisciplinedAppend(a[1..], z, c, false);
        case Touch(_) => DisciplinedAppend(a[1..], z, c, p);
      }
    }
  }

  /** All these data are under that lock. */
  predicate Under(lock: Lock, data: seq<Data>) {
    forall i :: 0 <= i < |data| ==> Covered(data[i], lock == Calltable, lock == Pidlist)
  }

  lemma {:induction false} TouchesBefore(data: seq<Data>, rest: seq<Op>, c: bool, p: bool)
    ensures Disciplined(Touches(data) + rest, c, p) <==>
            Disciplined(rest, c, p) && forall i :: 0 <= i < |data| ==> Covered(data[i], c, p)
    decreases |data|
  {
    var ops := Touches(data) + rest;
    if data == [] {
      assert ops == rest;
    } else {
      assert ops[1..] == Touches(data[1..]) + rest;
      TouchesBefore(data[1..], rest, c, p);
    }
  }

  /** A section and the steps behind it: the data are under its lock, and the steps are disciplined from none held. */
  lemma SectionBefore(lock: Lock, data: seq<Data>, rest: seq<Op>)
    ensures Disciplined(Section(lock, data) + rest, false, false) <==> Under(lock, data) && Disciplined(rest, false, false)
  {
    var ops, end := Section(lock, data) + rest, [Drop(lock)] + rest;
    assert end[1..] == rest;
    assert ops[1..] == Touches(data) + end;
    TouchesBefore(data, end, lock == Calltable, lock == Pidlist);
  }

  lemma NoneThen()
    ensures Disciplined([], false, false)
  {
  }

  lemma SectionsDisciplined(lock: Lock, data: seq<Data>)
    requires Under(lock, data)
    ensures Disciplined(Section(lock, data), false, false)
  {
    SectionBefore(lock, data, []);
    assert Section(lock, data) + [] == Section(lock, data);
  }

  lemma {:induction false} WalksUnder(listed: seq<bool>)
    ensures Under(Pidlist, Walks(listed))
  {
    if listed != [] {
      WalksUnder(listed[..|listed| - 1]);
    }
  }

  /** Every return path of every call keeps the discipline. */
  lemma CallDisciplined(call: Call)
    ensures Disciplined(Ops(call), false, false)
  {
    match call {
      case ExitCall(listed) =>
        WalksUnder(listed);
        SectionsDisciplined(Pidlist, Walks(listed));
      case StubCall(monitored) =>
        StubDisciplined(if monitored == 1 || monitored == 2 then WALK else []);
      case MyCall(cmd, t) =>
        NoneThen();
        InterceptReleaseDisciplined(t);
        StartDisciplined(t);
        StopDisciplined(t);
    }
  }

  lemma StubDisciplined(data: seq<Data>)
    requires Under(Pidlist, data)
    ensures Disciplined([Take(Calltable)] + Section(Pidlist, data) + [Drop(Calltable)], false, false)
  {
    var ops := [Take(Calltable)] + Section(Pidlist, data) + [Drop(Calltable)];
    var end := [Drop(Pidlist), Drop(Calltable)];
    assert end[1..] == [Drop(Calltable)] && end[1..][1..] == [];
    assert ops[1..] == Section(Pidlist, data) + [Drop(Calltable)];
    assert ops[1..][1..] == Touches(data) + end;
    TouchesBefore(data, end, true, true);
  }

  lemma InterceptReleaseDisciplined(t: Tests)
    ensures Disciplined(InterceptOps(t), false, false) && Disciplined(ReleaseOps(t), false, false)
  {
    NoneThen();
    assert Under(Pidlist, [InterceptedFlags]) && Under(Calltable, [SysCallTable, SysCallTable]);
    assert Under(Calltable, [SysCallTable]) && Under(Pidlist, DESTROY + [InterceptedFlags]);
    hide Disciplined, Section, Under;
    var install, restore := Section(Calltable, [SysCallTable, SysCallTable]), Section(Calltable, [SysCallTable]);
    SectionBefore(Pidlist, [InterceptedFlags], []);
    SectionsDisciplined(Pidlist, [InterceptedFlags]);
    SectionBefore(Calltable, [SysCallTable, SysCallTable], Section(Pidlist, [InterceptedFlags]));
    SectionBefore(Pidlist, [InterceptedFlags], install + Section(Pidlist, [InterceptedFlags]));
    SectionsDisciplined(Pidlist, DESTROY + [InterceptedFlags]);
    SectionBefore(Calltable, [SysCallTable], Section(Pidlist, DESTROY + [InterceptedFlags]));
    SectionBefore(Pidlist, [InterceptedFlags], restore + Section(Pidlist, DESTROY + [InterceptedFlags]));
  }

  /** Section(Pidlist, [InterceptedFlags]) and the sections behind it. */
  lemma AfterCheck(rest: seq<Op>)
    requires Disciplined(rest, false, false)
    ensures Disciplined(Section(Pidlist, [InterceptedFlags]) + rest, false, false)
  {
    SectionBefore(Pidlist, [InterceptedFlags], rest);
  }

  lemma StartDisciplined(t: Tests)
    ensures Disciplined(StartOps(t), false, false)
  {
    NoneThen();
    assert Under(Calltable, []) && Under(Pidlist, []) && Under(Pidlist, DESTROY) && Under(Pidlist, ADD + [ListCounts]);
    var walk := WALK + if t.monitored == 2 then (if t.listed then WALK + UNLINK + [ListCounts] else [])
                       else if !t.listed && t.memory then ADD + [ListCounts] else [];
    assert Under(Pidlist, walk);
    hide Disciplined, Section, Under;
    SectionsDisciplined(Calltable, []);
    SectionBefore(Calltable, [], []);
    SectionBefore(Pidlist, DESTROY, Section(Calltable, []));
    SectionBefore(Calltable, [], Section(Pidlist, DESTROY) + Section(Calltable, []));
    SectionsDisciplined(Pidlist, walk);
    SectionBefore(Calltable, [], Section(Pidlist, walk));
    SectionsDisciplined(Pidlist, []);
    SectionBefore(Calltable, [], Section(Pidlist, []));
    SectionBefore(Pidlist, ADD + [ListCounts], Section(Calltable, []));
    SectionBefore(Calltable, [], Section(Pidlist, ADD + [ListCounts]) + Section(Calltable, []));
    AfterCheck([]);
    AfterCheck(Section(Calltable, []) + []);
    AfterCheck(Section(Calltable, []) + (Section(Pidlist, DESTROY) + Section(Calltable, [])));
    AfterCheck(Section(Calltable, []) + Section(Pidlist, walk));
    AfterCheck(Section(Calltable, []) + Section(Pidlist, []));
    AfterCheck(Section(Calltable, []) + (Section(Pidlist, ADD + [ListCounts]) + Section(Calltable, [])));
  }

  lemma StopDisciplined(t: Tests)
    ensures Disciplined(StopOps(t), false, false)
  {
    NoneThen();
    assert Under(Calltable, []) && Under(Pidlist, DESTROY);
    var walk := WALK + if t.monitored == 1 then (if t.listed then WALK + UNLINK + [ListCounts] else [])
                       else if !t.listed && t.memory then ADD + [ListCounts] else [];
    assert Under(Pidlist, walk);
    hide Disciplined, Section, Under;
    SectionBefore(Calltable, [], []);
    SectionsDisciplined(Pidlist, DESTROY);
    SectionBefore(Calltable, [], Section(Pidlist, DESTROY));
    SectionsDisciplined(Pidlist, walk);
    SectionBefore(Calltable, [], Section(Pidlist, walk));
    AfterCheck([]);
    AfterCheck(Section(Calltable, []) + []);
    AfterCheck(Section(Calltable, []) + Section(Pidlist, DESTROY));
    AfterCheck(Section(Calltable, []) + Section(Pidlist, walk));
  }

  lemma {:induction false} ProgramDisciplined(calls: seq<Call>)
    ensures Disciplined(Program(calls), false, false)
  {
    if calls != [] {
      CallDisciplined(calls[0]);
      ProgramDisciplined(calls[1..]);
      DisciplinedAppend(Ops(calls[0]), Program(calls[1..]), false, false);
    }
  }

  // ---------- threads ----------

  datatype Holder = Free | HeldBy(thread: nat)

  /** Who holds each lock, and what each thread has still to do. */
  datatype State = State(calltable: Holder, pidlist: Holder, rest: seq<seq<Op>>) {
    function HolderOf(lock: Lock): Holder {
      if lock == Calltable then calltable else pidlist
    }

    function Set(lock: Lock, holder: Holder): State {
      if lock == Calltable then this.(calltable := holder) else this.(pidlist := holder)
    }
  }

  function Initial(programs: seq<seq<Call>>): (s: State)
    ensures |s.rest| == |programs| && forall i :: 0 <= i < |programs| ==> s.rest[i] == Program(programs[i])
  {
    State(Free, Free, seq(|programs|, i requires 0 <= i < |programs| => Program(programs[i])))
  }

  predicate Unfinished(s: State, i: nat) {
    i < |s.rest| && s.rest[i] != []
  }

  /** spin_lock waits for the lock; spin_unlock and accesses never wait; an unlock frees the lock whoever holds it. */
  predicate CanStep(s: State, i: nat) {
    Unfinished(s, i) && (s.rest[i][0].Take? ==> s.HolderOf(s.rest[i][0].lock) == Free)
  }

  function Next(s: State, i: nat): State
    requires CanStep(s, i)
  {
    var op, left := s.rest[i][0], s.rest[i := s.rest[i][1..]];
    match op
    case Take(lock) => s.Set(lock, HeldBy(i)).(rest := left)
    case Drop(lock) => s.Set(lock, Free).(rest := left)
    case Touch(_) => s.(rest := left)
  }

  /** Threads run as scheduled; one that cannot step spins. */
  function Run(s: State, schedule: seq<nat>): State
    decreases |schedule|
  {
    if schedule == [] then s
    else
      var before := Run(s, schedule[..|schedule| - 1]);
      var i := schedule[|schedule| - 1];
      if CanStep(before, i) then Next(before, i) else before
  }

  ghost predicate Inv(s: State) {
    forall i :: 0 <= i < |s.rest| ==> Obeys(s, i)
  }

  predicate Obeys(s: State, i: nat)
    requires i < |s.rest|
  {
    Disciplined(s.rest[i], s.calltable == HeldBy(i), s.pidlist == HeldBy(i))
  }

  /** Both locks are held by threads of the system, if at all. */
  predicate HoldersExist(s: State) {
    && (s.calltable.HeldBy? ==> s.calltable.thread < |s.rest|)
    && (s.pidlist.HeldBy? ==> s.pidlist.thread < |s.rest|)
  }

  lemma InvInitial(programs: seq<seq<Call>>)
    ensures Inv(Initial(programs)) && HoldersExist(Initial(programs))
  {
    var s := Initial(programs);
    forall i | 0 <= i < |s.rest| ensures Obeys(s, i) {
      ProgramDisciplined(programs[i]);
    }
  }

  lemma InvNext(s: State, i: nat)
    requires Inv(s) && HoldersExist(s) && CanStep(s, i)
    ensures Inv(Next(s, i)) && HoldersExist(Next(s, i))
  {
    var next := Next(s, i);
    assert Obeys(s, i);
    forall j | 0 <= j < |next.rest| ensures Obeys(next, j) {
      assert Obeys(s, j);
    }
  }

  lemma {:induction false} InvRun(programs: seq<seq<Call>>, schedule: seq<nat>)
    ensures Inv(Run(Initial(programs), schedule)) && HoldersExist(Run(Initial(programs), schedule))
    decreases |schedule|
  {
    if schedule == [] {
      InvInitial(programs);
    } else {
      InvRun(programs, schedule[..|schedule| - 1]);
      var before, i := Run(Initial(programs), schedule[..|schedule| - 1]), schedule[|schedule| - 1];
      if CanStep(before, i) {
        InvNext(before, i);
      }
    }
  }

  // ---------- safety and progress in every reachable state ----------

  /** A thread is inside the section of a lock when the next it does with the lock is to drop it. */
  predicate Inside(ops: seq<Op>, lock: Lock) {
    ops != [] && if !ops[0].Touch? && ops[0].lock == lock then ops[0].Drop? else Inside(ops[1..], lock)
  }

  lemma {:induction false} InsideIsHeld(ops: seq<Op>, c: bool, p: bool)
    requires Disciplined(ops, c, p)
    ensures Inside(ops, Calltable) <==> c
    ensures Inside(ops, Pidlist) <==> p
  {
    if ops != [] {
      match ops[0] {
        case Take(Calltable) => InsideIsHeld(ops[1..], true, p);
        case Take(Pidlist) => InsideIsHeld(ops[1..], c, true);
        case Drop(Calltable) => InsideIsHeld(ops[1..], false, p);
        case Drop(Pidlist) => InsideIsHeld(ops[1..], c, false);
        case Touch(_) => InsideIsHeld(ops[1..], c, p);
      }
    }
  }

  /** At most one thread is inside the section of a lock; it is the holder. */
  lemma MutualExclusion(programs: seq<seq<Call>>, schedule: seq<nat>, lock: Lock, i: nat, j: nat)
    requires i < |programs| && j < |programs|
    requires var s := Run(Initial(programs), schedule);
             |s.rest| == |programs| && Inside(s.rest[i], lock) && Inside(s.rest[j], lock)
    ensures i == j && Run(Initial(programs), schedule).HolderOf(lock) == HeldBy(i)
  {
    var s := Run(Initial(programs), schedule);
    InvRun(programs, schedule);
    assert Obeys(s, i) && Obeys(s, j);
    InsideIsHeld(s.rest[i], s.calltable == HeldBy(i), s.pidlist == HeldBy(i));
    InsideIsHeld(s.rest[j], s.calltable == HeldBy(j), s.pidlist == HeldBy(j));
  }

  /** The next step of a thread is to touch those data. */
  predicate AboutToTouch(s: State, i: nat, data: Data) {
    Unfinished(s, i) && s.rest[i][0] == Touch(data)
  }

  /**
   In every reachable state, whoever is about to touch a list of pids, its count or a flag of interception holds the
   list lock, and whoever is about to touch the kernel's table holds the table lock.
   */
  lemma Guarded(programs: seq<seq<Call>>, schedule: seq<nat>, i: nat)
    requires Unfinished(Run(Initial(programs), schedule), i)
    ensures var s := Run(Initial(programs), schedule);
            && (AboutToTouch(s, i, PidLists) ==> s.pidlist == HeldBy(i))
            && (AboutToTouch(s, i, ListCounts) ==> s.pidlist == HeldBy(i))
            && (AboutToTouch(s, i, InterceptedFlags) ==> s.pidlist == HeldBy(i))
            && (AboutToTouch(s, i, SysCallTable) ==> s.calltable == HeldBy(i))
  {
    InvRun(programs, schedule);
    assert Obeys(Run(Initial(programs), schedule), i);
  }

  /** No two threads are ever about to touch the same data. */
  lemma NoRace(programs: seq<seq<Call>>, schedule: seq<nat>, i: nat, j: nat, data: Data)
    requires var s := Run(Initial(programs), schedule); AboutToTouch(s, i, data) && AboutToTouch(s, j, data)
    ensures i == j
  {
    Guarded(programs, schedule, i);
    Guarded(programs, schedule, j);
  }

  /** Unloading puts handlers back under the list lock only: it is covered exactly if no call is intercepted. */
  lemma {:induction false} UnloadCovered(intercepted: seq<bool>)
    ensures Disciplined(UnloadOps(intercepted), false, false) <==>
            forall i :: 0 <= i < |intercepted| ==> !intercepted[i]
  {
    assert Under(Calltable, [SysCallTable, SysCallTable]);
    RestoresCovered(intercepted, []);
    assert Restores(intercepted) + [] == Restores(intercepted);
    SectionBefore(Calltable, [SysCallTable, SysCallTable], Restores(intercepted));
  }

  lemma {:induction false} RestoresCovered(intercepted: seq<bool>, rest: seq<Op>)
    ensures Disciplined(Restores(intercepted) + rest, false, false) <==>
            Disciplined(rest, false, false) && forall i :: 0 <= i < |intercepted| ==> !intercepted[i]
    decreases |intercepted|
  {
    if intercepted == [] {
      assert Restores(intercepted) + rest == rest;
    } else {
      var n := |intercepted| - 1;
      var data := [InterceptedFlags] + (if intercepted[n] then [SysCallTable] else []) + DESTROY;
      RestoredUnder(intercepted[n]);
      hide Section, Disciplined, Under;
      assert Restores(intercepted) + rest == Restores(intercepted[..n]) + (Section(Pidlist, data) + rest);
      RestoresCovered(intercepted[..n], Section(Pidlist, data) + rest);
      SectionBefore(Pidlist, data, rest);
    }
  }

  lemma RestoredUnder(intercepted: bool)
    ensures Under(Pidlist, [InterceptedFlags] + (if intercepted then [SysCallTable] else []) + DESTROY) <==> !intercepted
  {
    var data := [InterceptedFlags] + (if intercepted then [SysCallTable] else []) + DESTROY;
    if intercepted {
      assert data[1] == SysCallTable;
    }
  }

  /** Whoever can step: the holder of the list lock, else the holder of the table lock, else anyone unfinished. */
  lemma SomeoneSteps(s: State, i: nat) returns (j: nat)
    requires Inv(s) && HoldersExist(s) && Unfinished(s, i)
    ensures CanStep(s, j)
  {
    j := if s.pidlist.HeldBy? then s.pidlist.thread else if s.calltable.HeldBy? then s.calltable.thread else i;
    assert Obeys(s, j);
  }

  /** No deadlock: in every reachable state with an unfinished thread, some thread can step. */
  lemma DeadlockFree(programs: seq<seq<Call>>, schedule: seq<nat>, i: nat)
    requires Unfinished(Run(Initial(programs), schedule), i)
    ensures exists j: nat :: CanStep(Run(Initial(programs), schedule), j)
  {
    InvRun(programs, schedule);
    var j := SomeoneSteps(Run(Initial(programs), schedule), i);
  }

  /** A thread that has returned from its calls holds neither lock. */
  lemma FinishedHoldsNothing(programs: seq<seq<Call>>, schedule: seq<nat>, i: nat)
    requires var s := Run(Initial(programs), schedule); i < |s.rest| && s.rest[i] == []
    ensures var s := Run(Initial(programs), schedule); s.calltable != HeldBy(i) && s.pidlist != HeldBy(i)
  {
    InvRun(programs, schedule);
    assert Obeys(Run(Initial(programs), schedule), i);
  }

  /** Operations left. */
  function Work(rest: seq<seq<Op>>): nat {
    if rest == [] then 0 else |rest[0]| + Work(rest[1..])
  }

  lemma {:induction false} WorkStep(rest: seq<seq<Op>>, i: nat)
    requires i < |rest| && rest[i] != []
    ensures Work(rest) == Work(rest[i := rest[i][1..]]) + 1
  {
    var next := rest[i := rest[i][1..]];
    if i > 0 {
      assert next[1..] == rest[1..][i - 1 := rest[1..][i - 1][1..]];
      WorkStep(rest[1..], i - 1);
    } else {
      assert next[1..] == rest[1..];
    }
  }

  lemma {:induction false} NoWork(rest: seq<seq<Op>>, i: nat)
    requires Work(rest) == 0 && i < |rest|
    ensures rest[i] == []
  {
    if i > 0 {
      NoWork(rest[1..], i - 1);
    }
  }

  lemma {:induction false} SomeWork(rest: seq<seq<Op>>) returns (i: nat)
    requires Work(rest) > 0
    ensures i < |rest| && rest[i] != []
  {
    if rest[0] != [] {
      i := 0;
    } else {
      i := SomeWork(rest[1..]);
      i := i + 1;
    }
  }

  lemma NobodyLeft(s: State)
    requires Work(s.rest) == 0
    ensures forall i: nat :: !Unfinished(s, i)
  {
    forall i: nat ensures !Unfinished(s, i) {
      if i < |s.rest| {
        NoWork(s.rest, i);
      }
    }
  }

  lemma OneStep(s: State, schedule: seq<nat>, j: nat)
    requires CanStep(Run(s, schedule), j)
    ensures Work(Run(s, schedule).rest) == Work(Run(s, schedule + [j]).rest) + 1
  {
    hide Work;
    assert (schedule + [j])[..|schedule|] == schedule;
    WorkStep(Run(s, schedule).rest, j);
  }

  /** From every reachable state all threads can be run to completion, in as many steps as there are operations left. */
  lemma {:induction false} AllCanFinish(programs: seq<seq<Call>>, schedule: seq<nat>) returns (more: seq<nat>)
    ensures |more| == Work(Run(Initial(programs), schedule).rest)
    ensures var s := Run(Initial(programs), schedule + more); forall i: nat :: !Unfinished(s, i)
    decreases Work(Run(Initial(programs), schedule).rest)
  {
    hide Work, Run, CanStep, Inv, Unfinished;
    var s := Run(Initial(programs), schedule);
    if Work(s.rest) == 0 {
      more := [];
      assert schedule + more == schedule;
      NobodyLeft(s);
    } else {
      InvRun(programs, schedule);
      var j := WhoSteps(s);
      OneStep(Initial(programs), schedule, j);
      var later := AllCanFinish(programs, schedule + [j]);
      more := [j] + later;
      assert schedule + [j] + later == schedule + more;
    }
  }

  lemma WhoSteps(s: State) returns (j: nat)
    requires Inv(s) && HoldersExist(s) && Work(s.rest) > 0
    ensures CanStep(s, j)
  {
    var i := SomeWork(s.rest);
    j := SomeoneSteps(s, i);
  }
}
