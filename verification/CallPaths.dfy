/**
 The calls into the interceptor module as sequences of steps: on each return path, in the order of the code, the
 locks taken and dropped and the shared data touched. The monitored flag, which the code touches under either lock,
 and the saved handler, which it reads under none, are not among these data.
 */
module CallPaths {

  const REQUEST_SYSCALL_INTERCEPT := 1
  const REQUEST_SYSCALL_RELEASE := 2
  const REQUEST_START_MONITORING := 3
  const REQUEST_STOP_MONITORING := 4

  datatype Lock = Calltable | Pidlist

  /** The lists of pids, their counts, the flags that say what is intercepted, and the kernel's table. */
  datatype Data = PidLists | ListCounts | InterceptedFlags | SysCallTable

  datatype Op = Take(lock: Lock) | Drop(lock: Lock) | Touch(data: Data)

  /** What the tests on the way through my_syscall find. */
  datatype Tests = Tests(validCall: bool, root: bool, intercepted: bool, pid: int, pidExists: bool,
                         permitted: bool, monitored: int, listed: bool, memory: bool)

  /** A call of my_syscall, of an intercepted call, or of exit_group by a pid that is on some of the lists. */
  datatype Call = MyCall(cmd: int, tests: Tests) | StubCall(monitored: int) | ExitCall(listed: seq<bool>)

  function Touches(data: seq<Data>): (ops: seq<Op>)
    ensures |ops| == |data|
  {
    seq(|data|, i requires 0 <= i < |data| => Touch(data[i]))
  }

  function Section(lock: Lock, data: seq<Data>): seq<Op> {
    [Take(lock)] + Touches(data) + [Drop(lock)]
  }

  // ---------- what the list operations touch ----------

  const WALK := [PidLists]
  const ADD := [PidLists, ListCounts]
  const UNLINK := [PidLists, ListCounts]
  const DESTROY := [PidLists, ListCounts]

  /** del_pid: a walk of each list, and an unlinking from those that have the pid. */
  function Walks(listed: seq<bool>): seq<Data> {
    if listed == [] then []
    else
      var n := |listed| - 1;
      Walks(listed[..n]) + if listed[n] then WALK + UNLINK else WALK
  }

  // ---------- the return paths ----------

  function InterceptOps(t: Tests): seq<Op> {
    if !t.root then []
    else
      Section(Pidlist, [InterceptedFlags]) +
      if t.intercepted then []
      else Section(Calltable, [SysCallTable, SysCallTable]) + Section(Pidlist, [InterceptedFlags])
  }

  function ReleaseOps(t: Tests): seq<Op> {
    if !t.root then []
    else
      Section(Pidlist, [InterceptedFlags]) +
      if !t.intercepted then []
      else Section(Calltable, [SysCallTable]) + Section(Pidlist, DESTROY + [InterceptedFlags])
  }

  function StartOps(t: Tests): seq<Op> {
    Section(Pidlist, [InterceptedFlags]) +
    if !t.intercepted then []
    else if t.pid == 0 then
      if !t.root then []
      else
        Section(Calltable, []) +
        if t.monitored == 2 then [] else Section(Pidlist, DESTROY) + Section(Calltable, [])
    else if t.pid < 0 || !t.pidExists || !t.permitted then []
    else
      Section(Calltable, []) +
      if t.monitored == 2 then
        Section(Pidlist, WALK + if t.listed then WALK + UNLINK + [ListCounts] else [])
      else if t.monitored == 1 then
        Section(Pidlist, WALK + if !t.listed && t.memory then ADD + [ListCounts] else [])
      else if !t.memory then Section(Pidlist, [])
      else Section(Pidlist, ADD + [ListCounts]) + Section(Calltable, [])
  }

  function StopOps(t: Tests): seq<Op> {
    Section(Pidlist, [InterceptedFlags]) +
    if !t.intercepted then []
    else if t.pid == 0 then
      if !t.root then []
      else Section(Calltable, []) + if t.monitored == 0 then [] else Section(Pidlist, DESTROY)
    else if t.pid < 0 || !t.pidExists || !t.permitted then []
    else
      Section(Calltable, []) +
      if t.monitored == 0 then []
      else if t.monitored == 1 then
        Section(Pidlist, WALK + if t.listed then WALK + UNLINK + [ListCounts] else [])
      else
        Section(Pidlist, WALK + if !t.listed && t.memory then ADD + [ListCounts] else [])
  }

  function Ops(call: Call): seq<Op> {
    match call
    case StubCall(monitored) =>
      [Take(Calltable)] + Section(Pidlist, if monitored == 1 || monitored == 2 then WALK else []) + [Drop(Calltable)]
    case ExitCall(listed) => Section(Pidlist, Walks(listed))
    case MyCall(cmd, t) =>
      if !t.validCall then []
      else if cmd == REQUEST_SYSCALL_INTERCEPT then InterceptOps(t)
      else if cmd == REQUEST_SYSCALL_RELEASE then ReleaseOps(t)
      else if cmd == REQUEST_START_MONITORING then StartOps(t)
      else if cmd == REQUEST_STOP_MONITORING then StopOps(t)
      else []
  }

  /** exit_function, which is no call but runs when the module goes: which calls are intercepted then. */
  function UnloadOps(intercepted: seq<bool>): seq<Op> {
    Section(Calltable, [SysCallTable, SysCallTable]) + Restores(intercepted)
  }

  function Restores(intercepted: seq<bool>): seq<Op> {
    if intercepted == [] then []
    else
      var n := |intercepted| - 1;
      Restores(intercepted[..n])
      + Section(Pidlist, [InterceptedFlags] + (if intercepted[n] then [SysCallTable] else []) + DESTROY)
  }

  /** Some paths in full: of intercepted calls and exits, */
  lemma SpeltStub()
    ensures Ops(StubCall(1)) == Ops(StubCall(2))
         == [Take(Calltable), Take(Pidlist), Touch(PidLists), Drop(Pidlist), Drop(Calltable)]
    ensures Ops(ExitCall([true, false]))
         == [Take(Pidlist), Touch(PidLists), Touch(PidLists), Touch(ListCounts), Touch(PidLists), Drop(Pidlist)]
  {
    WalksOfTwo();
  }

  /** of intercepting a call, */
  lemma SpeltIntercept(t: Tests)
    requires t.validCall && t.root && !t.intercepted
    ensures Ops(MyCall(REQUEST_SYSCALL_INTERCEPT, t))
         == [Take(Pidlist), Touch(InterceptedFlags), Drop(Pidlist), Take(Calltable), Touch(SysCallTable),
             Touch(SysCallTable), Drop(Calltable), Take(Pidlist), Touch(InterceptedFlags), Drop(Pidlist)]
  {
  }

  /** of releasing it, */
  lemma SpeltRelease(t: Tests)
    requires t.validCall && t.root && t.intercepted
    ensures Ops(MyCall(REQUEST_SYSCALL_RELEASE, t))
         == [Take(Pidlist), Touch(InterceptedFlags), Drop(Pidlist), Take(Calltable), Touch(SysCallTable), Drop(Calltable),
             Take(Pidlist), Touch(PidLists), Touch(ListCounts), Touch(InterceptedFlags), Drop(Pidlist)]
  {
  }

  /** of starting to monitor the first pid, */
  lemma SpeltStart(t: Tests)
    requires t.validCall && t.intercepted && t.pid > 0 && t.pidExists && t.permitted && t.monitored == 0 && t.memory
    ensures Ops(MyCall(REQUEST_START_MONITORING, t))
         == [Take(Pidlist), Touch(InterceptedFlags), Drop(Pidlist), Take(Calltable), Drop(Calltable), Take(Pidlist),
             Touch(PidLists), Touch(ListCounts), Touch(ListCounts), Drop(Pidlist), Take(Calltable), Drop(Calltable)]
  {
  }

  /** and of ceasing to monitor a listed pid. */
  lemma SpeltStop(t: Tests)
    requires t.validCall && t.intercepted && t.pid > 0 && t.pidExists && t.permitted && t.monitored == 1 && t.listed
    ensures Ops(MyCall(REQUEST_STOP_MONITORING, t))
         == [Take(Pidlist), Touch(InterceptedFlags), Drop(Pidlist), Take(Calltable), Drop(Calltable), Take(Pidlist),
             Touch(PidLists), Touch(PidLists), Touch(PidLists), Touch(ListCounts), Touch(ListCounts), Drop(Pidlist)]
  {
    var data := [PidLists, PidLists, PidLists, ListCounts, ListCounts];
    assert WALK + (WALK + UNLINK + [ListCounts]) == data;
    assert Section(Pidlist, data)
        == [Take(Pidlist), Touch(PidLists), Touch(PidLists), Touch(PidLists), Touch(ListCounts), Touch(ListCounts),
            Drop(Pidlist)];
    hide Touches;
  }

  lemma WalksOfTwo()
    ensures Walks([true, false]) == [PidLists, PidLists, ListCounts, PidLists]
  {
    assert [true, false][..1] == [true] && [true][..0] == [];
    assert Walks([true]) == WALK + UNLINK;
  }

  // ---------- steps joined ----------

  lemma OneMore(done: seq<Op>, data: seq<Data>, d: Data)
    ensures done + Touches(data) + [Touch(d)] == done + Touches(data + [d])
  {
    assert Touches(data + [d]) == Touches(data) + [Touch(d)];
  }

  lemma More(done: seq<Op>, data: seq<Data>, more: seq<Data>)
    ensures done + Touches(data) + Touches(more) == done + Touches(data + more)
  {
    assert Touches(data + more) == Touches(data) + Touches(more);
  }

  lemma Closed(done: seq<Op>, lock: Lock, data: seq<Data>)
    ensures done + [Take(lock)] + Touches(data) + [Drop(lock)] == done + Section(lock, data)
  {
  }

  lemma Joined(done: seq<Op>, a: seq<Op>, b: seq<Op>)
    ensures done + a + b == done + (a + b)
  {
  }
}
