/**
 The system call interceptor: which calls are intercepted, and whose calls are logged. One list per system
 call names the monitored pids, or, once all pids are monitored, the pids that are not.
 */
module Interceptor {
  import opened CallPaths
  import opened Distinctness

  const MY_CUSTOM_SYSCALL := 0

  const EPERM := 1
  const ENOMEM := 12
  const EBUSY := 16
  const EINVAL := 22

  /** What an entry of the system call table points to. */
  datatype Handler = Null | Kernel(number: nat) | MySyscall | MyExitGroup | InterceptorStub

  /** One entry of the module's own table. */
  datatype Entry = Entry(f: Handler, intercepted: int, monitored: int, listcount: int, pids: seq<int>)

  /** What the kernel says of a request: is the caller root, does the pid exist, are their owners the same, is memory left. */
  datatype Caller = Caller(root: bool, pidExists: bool, sameOwner: bool, memory: bool)

  /** A call by pid is logged: it is on the list, or the list names those that are not. */
  predicate Logs(e: Entry, pid: int) {
    (e.monitored == 2 && pid !in e.pids) || (e.monitored == 1 && pid in e.pids)
  }

  /**
   No pid is listed twice, the list is empty while nothing is monitored, and listcount, which goes up by two
   for every pid added and down by two or one for every pid removed, never falls below twice the length.
   */
  ghost predicate ValidEntry(e: Entry) {
    && Distinct(e.pids) && e.listcount >= 2 * |e.pids|
    && 0 <= e.monitored <= 2 && (e.monitored == 0 ==> e.pids == [])
    && 0 <= e.intercepted <= 1 && (e.intercepted == 0 ==> e.monitored == 0)
  }

  // ---------- the meaning of a history ----------

  datatype Event = Command(cmd: int, syscall: int, pid: int, reply: int) | Exit(pid: int)

  /** Whether s is intercepted after the event. */
  predicate HookEffect(event: Event, s: nat, before: bool) {
    if !(event.Command? && event.syscall == s && event.reply == 0) then before
    else if event.cmd == REQUEST_SYSCALL_INTERCEPT then true
    else if event.cmd == REQUEST_SYSCALL_RELEASE then false
    else before
  }

  /** Whether any monitoring has been asked for and not been called off as a whole. */
  predicate OnEffect(event: Event, s: nat, before: bool) {
    if !(event.Command? && event.syscall == s && event.reply == 0) then before
    else if event.cmd == REQUEST_START_MONITORING then true
    else if event.cmd == REQUEST_STOP_MONITORING && event.pid == 0 then false
    else if event.cmd == REQUEST_SYSCALL_RELEASE then false
    else before
  }

  /** Whether all pids are monitored for s, but for those excepted one by one, after the event. */
  predicate AllEffect(event: Event, s: nat, before: bool) {
    if !(event.Command? && event.syscall == s && event.reply == 0) then before
    else if event.cmd == REQUEST_START_MONITORING && event.pid == 0 then true
    else if event.cmd == REQUEST_STOP_MONITORING && event.pid == 0 then false
    else if event.cmd == REQUEST_SYSCALL_RELEASE then false
    else before
  }

  /** Whether p is monitored for s after the event; an exit makes its pid like one never named. */
  predicate Effect(nr: nat, event: Event, s: nat, p: int, before: bool, all: bool) {
    match event
    case Command(cmd, syscall, pid, reply) =>
      if syscall != s || reply != 0 then before
      else if cmd == REQUEST_START_MONITORING && (pid == 0 || pid == p) then true
      else if cmd == REQUEST_STOP_MONITORING && (pid == 0 || pid == p) then false
      else if cmd == REQUEST_SYSCALL_RELEASE then false
      else before
    case Exit(pid) =>
      if pid == p && 1 <= s < nr then all else before
  }

  predicate Hooked(history: seq<Event>, s: nat) {
    history != [] && HookEffect(history[|history| - 1], s, Hooked(history[..|history| - 1], s))
  }

  predicate On(history: seq<Event>, s: nat) {
    history != [] && OnEffect(history[|history| - 1], s, On(history[..|history| - 1], s))
  }

  predicate All(history: seq<Event>, s: nat) {
    history != [] && AllEffect(history[|history| - 1], s, All(history[..|history| - 1], s))
  }

  /** After a history of commands and exits, p is monitored for s: the last event that concerned them decides. */
  predicate Watched(nr: nat, history: seq<Event>, s: nat, p: int) {
    if history == [] then false
    else
      var before := history[..|history| - 1];
      Effect(nr, history[|history| - 1], s, p, Watched(nr, before, s, p), All(before, s))
  }

  /** The answer to a request: is the call hooked, is any or all monitoring on, and is this pid monitored already? */
  function Answer(cmd: int, pid: int, caller: Caller, hooked: bool, on: bool, all: bool, watched: bool): int {
    if cmd == REQUEST_SYSCALL_INTERCEPT then
      if !caller.root then -EPERM else if hooked then -EBUSY else 0
    else if cmd == REQUEST_SYSCALL_RELEASE then
      if !caller.root then -EPERM else if !hooked then -EINVAL else 0
    else if cmd != REQUEST_START_MONITORING && cmd != REQUEST_STOP_MONITORING then
      -EINVAL
    else if !hooked then -EINVAL
    else if pid == 0 then
      if !caller.root then -EPERM
      else if cmd == REQUEST_START_MONITORING && all then -EBUSY
      else if cmd == REQUEST_STOP_MONITORING && !on then -EINVAL
      else 0
    else if pid < 0 || !caller.pidExists then -EINVAL
    else if !caller.root && !caller.sameOwner then -EPERM
    else if cmd == REQUEST_START_MONITORING && watched then -EBUSY
    else if cmd == REQUEST_STOP_MONITORING && !watched then -EINVAL
    else if !caller.memory && (all <==> cmd == REQUEST_STOP_MONITORING) then -ENOMEM
    else 0
  }

  predicate ValidCall(nr: nat, syscall: int) {
    0 <= syscall <= nr && syscall != MY_CUSTOM_SYSCALL
  }

  /** The reply to a request after a history. */
  function Reply(nr: nat, history: seq<Event>, cmd: int, syscall: int, pid: int, caller: Caller): int {
    if !ValidCall(nr, syscall) then -EINVAL
    else Answer(cmd, pid, caller, Hooked(history, syscall), On(history, syscall), All(history, syscall),
                Watched(nr, history, syscall, pid))
  }

  /** The history with that request carried out. */
  function Then(nr: nat, history: seq<Event>, cmd: int, syscall: int, pid: int, caller: Caller): seq<Event> {
    history + [Command(cmd, syscall, pid, Reply(nr, history, cmd, syscall, pid, caller))]
  }

  // ---------- who is refused, and what a request changes ----------

  /** A request to start or stop monitoring of an intercepted call, for a pid that there is or for all. */
  predicate Monitoring(nr: nat, history: seq<Event>, cmd: int, syscall: int, pid: int, caller: Caller) {
    && (cmd == REQUEST_START_MONITORING || cmd == REQUEST_STOP_MONITORING)
    && ValidCall(nr, syscall) && Hooked(history, syscall) && (pid == 0 || (pid > 0 && caller.pidExists))
  }

  /** Intercepting and releasing are for root; so is monitoring all pids, and any pid of another owner. */
  lemma PermissionDenied(nr: nat, history: seq<Event>, cmd: int, syscall: int, pid: int, caller: Caller)
    ensures Reply(nr, history, cmd, syscall, pid, caller) == -EPERM <==>
              && !caller.root && ValidCall(nr, syscall)
              && (|| cmd == REQUEST_SYSCALL_INTERCEPT || cmd == REQUEST_SYSCALL_RELEASE
                  || (Monitoring(nr, history, cmd, syscall, pid, caller) && (pid == 0 || !caller.sameOwner)))
  {
    hide Hooked, On, All, Watched;
  }

  lemma BusyAnswers(nr: nat, history: seq<Event>, cmd: int, syscall: int, pid: int, caller: Caller)
    ensures Reply(nr, history, cmd, syscall, pid, caller) == -EBUSY <==>
              || (cmd == REQUEST_SYSCALL_INTERCEPT && ValidCall(nr, syscall) && caller.root && Hooked(history, syscall))
              || (&& cmd == REQUEST_START_MONITORING && Monitoring(nr, history, cmd, syscall, pid, caller)
                  && if pid == 0 then caller.root && All(history, syscall)
                     else (caller.root || caller.sameOwner) && Watched(nr, history, syscall, pid))
  {
    hide Hooked, On, All, Watched;
  }

  lemma MemoryAnswers(nr: nat, history: seq<Event>, cmd: int, syscall: int, pid: int, caller: Caller)
    ensures Reply(nr, history, cmd, syscall, pid, caller) == -ENOMEM <==>
              && Monitoring(nr, history, cmd, syscall, pid, caller) && pid != 0 && (caller.root || caller.sameOwner)
              && !caller.memory
              && if cmd == REQUEST_START_MONITORING then !All(history, syscall) && !Watched(nr, history, syscall, pid)
                 else All(history, syscall) && Watched(nr, history, syscall, pid)
  {
    hide Hooked, On, All, Watched;
  }

  /** A command is carried out exactly if it is known and permitted, and there is something to change. */
  lemma Granted(nr: nat, history: seq<Event>, cmd: int, syscall: int, pid: int, caller: Caller)
    ensures Reply(nr, history, cmd, syscall, pid, caller) == 0 <==>
              && ValidCall(nr, syscall)
              && if cmd == REQUEST_SYSCALL_INTERCEPT then caller.root && !Hooked(history, syscall)
                 else if cmd == REQUEST_SYSCALL_RELEASE then caller.root && Hooked(history, syscall)
                 else
                   && Monitoring(nr, history, cmd, syscall, pid, caller)
                   && if pid == 0 then
                        caller.root && if cmd == REQUEST_START_MONITORING then !All(history, syscall) else On(history, syscall)
                      else
                        && (caller.root || caller.sameOwner)
                        && Watched(nr, history, syscall, pid) == (cmd == REQUEST_STOP_MONITORING)
                        && (caller.memory || All(history, syscall) == (cmd == REQUEST_START_MONITORING))
  {
    hide Hooked, On, All, Watched;
  }

  lemma OtherwiseInvalid(nr: nat, history: seq<Event>, cmd: int, syscall: int, pid: int, caller: Caller)
    ensures Reply(nr, history, cmd, syscall, pid, caller) in {0, -EPERM, -EBUSY, -ENOMEM, -EINVAL}
  {
    hide Hooked, On, All, Watched;
  }

  /** For call s and pid p nothing has changed. */
  predicate Same(nr: nat, history: seq<Event>, after: seq<Event>, s: nat, p: int) {
    && Hooked(after, s) == Hooked(history, s) && On(after, s) == On(history, s) && All(after, s) == All(history, s)
    && Watched(nr, after, s, p) == Watched(nr, history, s, p)
  }

  /** A refused request changes nothing, and no request changes anything for another call. */
  lemma RefusedKeeps(nr: nat, history: seq<Event>, cmd: int, syscall: int, pid: int, caller: Caller, s: nat, p: int)
    requires Reply(nr, history, cmd, syscall, pid, caller) != 0 || s != syscall
    ensures Same(nr, history, Then(nr, history, cmd, syscall, pid, caller), s, p)
  {
    hide Hooked, On, All, Watched, Reply;
    Latest(nr, history, Command(cmd, syscall, pid, Reply(nr, history, cmd, syscall, pid, caller)), s, p);
  }

  /**
   Protection: whoever is not root changes nothing by intercepting, releasing or asking for all pids, nor by any
   request for a pid of another owner; by other requests he changes only whether that one pid is monitored.
   */
  lemma Protected(nr: nat, history: seq<Event>, cmd: int, syscall: int, pid: int, caller: Caller, s: nat, p: int)
    requires !caller.root
    ensures var after := Then(nr, history, cmd, syscall, pid, caller);
            && Hooked(after, s) == Hooked(history, s) && All(after, s) == All(history, s)
            && (p != pid ==> Watched(nr, after, s, p) == Watched(nr, history, s, p))
    ensures cmd == REQUEST_SYSCALL_INTERCEPT || cmd == REQUEST_SYSCALL_RELEASE || pid == 0 || !caller.sameOwner ==>
              Same(nr, history, Then(nr, history, cmd, syscall, pid, caller), s, p)
  {
    hide Hooked, On, All, Watched, Reply;
    Granted(nr, history, cmd, syscall, pid, caller);
    Latest(nr, history, Command(cmd, syscall, pid, Reply(nr, history, cmd, syscall, pid, caller)), s, p);
  }

  /** Root intercepts a call that is not, and releases one that is; then nobody is monitored, and it can be done again. */
  lemma RootHooks(nr: nat, history: seq<Event>, s: nat, pid: int, caller: Caller)
    requires ValidCall(nr, s) && caller.root
    ensures var hooked := Then(nr, history, REQUEST_SYSCALL_INTERCEPT, s, pid, caller);
            && Reply(nr, history, REQUEST_SYSCALL_INTERCEPT, s, pid, caller) == (if Hooked(history, s) then -EBUSY else 0)
            && Hooked(hooked, s) && On(hooked, s) == On(history, s) && All(hooked, s) == All(history, s)
            && forall p :: Watched(nr, hooked, s, p) == Watched(nr, history, s, p)
    ensures var released := Then(nr, history, REQUEST_SYSCALL_RELEASE, s, pid, caller);
            && Reply(nr, history, REQUEST_SYSCALL_RELEASE, s, pid, caller) == (if Hooked(history, s) then 0 else -EINVAL)
            && !Hooked(released, s)
            && (Hooked(history, s) ==> !On(released, s) && !All(released, s) && forall p :: !Watched(nr, released, s, p))
  {
    hide Hooked, On, All, Watched;
    var hook := Command(REQUEST_SYSCALL_INTERCEPT, s, pid, Reply(nr, history, REQUEST_SYSCALL_INTERCEPT, s, pid, caller));
    var release := Command(REQUEST_SYSCALL_RELEASE, s, pid, Reply(nr, history, REQUEST_SYSCALL_RELEASE, s, pid, caller));
    Latest(nr, history, hook, s, 0);
    Latest(nr, history, release, s, 0);
    forall p
      ensures Watched(nr, history + [hook], s, p) == Watched(nr, history, s, p)
      ensures Hooked(history, s) ==> !Watched(nr, history + [release], s, p)
    {
      Latest(nr, history, hook, s, p);
      Latest(nr, history, release, s, p);
    }
  }

  /** Root starts the monitoring of every pid, and stops that of every pid. */
  lemma RootMonitorsAll(nr: nat, history: seq<Event>, s: nat, caller: Caller)
    requires ValidCall(nr, s) && caller.root && Hooked(history, s)
    ensures Reply(nr, history, REQUEST_START_MONITORING, s, 0, caller) == if All(history, s) then -EBUSY else 0
    ensures var started := Then(nr, history, REQUEST_START_MONITORING, s, 0, caller);
            Hooked(started, s) && On(started, s) && All(started, s)
            && (!All(history, s) ==> forall p :: Watched(nr, started, s, p))
    ensures Reply(nr, history, REQUEST_STOP_MONITORING, s, 0, caller) == if On(history, s) then 0 else -EINVAL
    ensures var stopped := Then(nr, history, REQUEST_STOP_MONITORING, s, 0, caller);
            Hooked(stopped, s) && !On(stopped, s) && !All(stopped, s) && forall p :: !Watched(nr, stopped, s, p)
  {
    hide Hooked, On, All, Watched;
    var start := Command(REQUEST_START_MONITORING, s, 0, Reply(nr, history, REQUEST_START_MONITORING, s, 0, caller));
    var stop := Command(REQUEST_STOP_MONITORING, s, 0, Reply(nr, history, REQUEST_STOP_MONITORING, s, 0, caller));
    Latest(nr, history, start, s, 0);
    Latest(nr, history, stop, s, 0);
    WatchedIsOn(nr, history, s, 0);
    forall p
      ensures !All(history, s) ==> Watched(nr, history + [start], s, p)
      ensures !Watched(nr, history + [stop], s, p)
    {
      WatchedIsOn(nr, history, s, p);
      Latest(nr, history, start, s, p);
      Latest(nr, history, stop, s, p);
    }
  }

  /** An exit makes its pid like one never named, for calls 1 to nr - 1, and changes nothing else. */
  lemma ExitForgets(nr: nat, history: seq<Event>, pid: int, s: nat, p: int)
    ensures var after := history + [Exit(pid)];
            && Hooked(after, s) == Hooked(history, s) && On(after, s) == On(history, s) && All(after, s) == All(history, s)
            && Watched(nr, after, s, p)
               == if p == pid && 1 <= s < nr then All(history, s) else Watched(nr, history, s, p)
  {
    hide Hooked, On, All, Watched;
    Latest(nr, history, Exit(pid), s, p);
  }

  /**
   For a valid, permitted, nonzero pid of an intercepted call, after any history: starting is answered busy exactly
   if the pid is monitored, stopping invalid exactly if it is not; then it is monitored, or not, and no other pid is
   touched. Asking again is always refused.
   */
  lemma StartStopAnswers(nr: nat, history: seq<Event>, s: nat, pid: int, caller: Caller)
    requires 1 <= s <= nr && Hooked(history, s)
    requires pid > 0 && caller.pidExists && caller.memory && (caller.root || caller.sameOwner)
    ensures Reply(nr, history, REQUEST_START_MONITORING, s, pid, caller) == -EBUSY <==> Watched(nr, history, s, pid)
    ensures Reply(nr, history, REQUEST_STOP_MONITORING, s, pid, caller) == -EINVAL <==> !Watched(nr, history, s, pid)
    ensures var started := Then(nr, history, REQUEST_START_MONITORING, s, pid, caller);
            && (forall p :: Watched(nr, started, s, p) == (p == pid || Watched(nr, history, s, p)))
            && Reply(nr, started, REQUEST_START_MONITORING, s, pid, caller) == -EBUSY
    ensures var stopped := Then(nr, history, REQUEST_STOP_MONITORING, s, pid, caller);
            && (forall p :: Watched(nr, stopped, s, p) == (p != pid && Watched(nr, history, s, p)))
            && Reply(nr, stopped, REQUEST_STOP_MONITORING, s, pid, caller) == -EINVAL
  {
    hide Watched, Hooked, On, All;
    var start := Command(REQUEST_START_MONITORING, s, pid, Reply(nr, history, REQUEST_START_MONITORING, s, pid, caller));
    var stop := Command(REQUEST_STOP_MONITORING, s, pid, Reply(nr, history, REQUEST_STOP_MONITORING, s, pid, caller));
    Latest(nr, history, start, s, pid);
    Latest(nr, history, stop, s, pid);
    forall p
      ensures Watched(nr, history + [start], s, p) == (p == pid || Watched(nr, history, s, p))
      ensures Watched(nr, history + [stop], s, p) == (p != pid && Watched(nr, history, s, p))
    {
      Latest(nr, history, start, s, p);
      Latest(nr, history, stop, s, p);
    }
  }

  /** Nothing is monitored unless monitoring is on; without it being on for all, only pids named by a start are. */
  lemma {:induction false} WatchedIsOn(nr: nat, history: seq<Event>, s: nat, p: int)
    ensures Watched(nr, history, s, p) ==> On(history, s)
    ensures All(history, s) ==> On(history, s)
  {
    if history != [] {
      WatchedIsOn(nr, history[..|history| - 1], s, p);
    }
  }

  /** No event concerns that pid by its number. */
  predicate Unnamed(history: seq<Event>, p: int) {
    forall i :: 0 <= i < |history| ==> history[i].pid != p
  }

  lemma {:induction false} SomeUnnamed(history: seq<Event>, least: int) returns (p: int)
    ensures p >= least && Unnamed(history, p)
  {
    if history == [] {
      p := least;
    } else {
      var last := history[|history| - 1].pid;
      p := SomeUnnamed(history[..|history| - 1], if last >= least then last + 1 else least);
    }
  }

  /** A pid that was never named is monitored exactly when all are. */
  lemma {:induction false} UnnamedAsAll(nr: nat, history: seq<Event>, s: nat, p: int)
    requires p != 0 && Unnamed(history, p)
    ensures Watched(nr, history, s, p) == All(history, s)
  {
    if history != [] {
      assert history[|history| - 1].pid != p;
      UnnamedAsAll(nr, history[..|history| - 1], s, p);
    }
  }

  /**
   Stopping all, by root and of an intercepted call, is refused when monitoring is off as a whole. That is when no pid
   is monitored, unless monitoring was started one pid at a time and every pid started has been stopped or has exited.
   */
  lemma StopAllRefused(nr: nat, history: seq<Event>, s: nat, caller: Caller)
    requires 1 <= s <= nr && caller.root && Hooked(history, s)
    ensures var refused := Reply(nr, history, REQUEST_STOP_MONITORING, s, 0, caller) == -EINVAL;
            var nobody := forall p :: !Watched(nr, history, s, p);
            && (refused ==> nobody)
            && ((refused <==> nobody) <==> !(On(history, s) && !All(history, s) && nobody))
  {
    hide Watched, On, All, Hooked;
    forall p ensures Watched(nr, history, s, p) ==> On(history, s) {
      WatchedIsOn(nr, history, s, p);
    }
    WatchedIsOn(nr, history, s, 0);
    var p := SomeUnnamed(history, 1);
    UnnamedAsAll(nr, history, s, p);
  }

  /** The same of an entry: its flag is off exactly when no pid is logged, unless it names the monitored and none is left. */
  lemma OffIsNobody(e: Entry)
    requires ValidEntry(e)
    ensures (e.monitored == 0 <==> forall p :: !Logs(e, p)) <==> !(e.monitored == 1 && e.pids == [])
  {
    if e.monitored == 2 {
      var p := SomeUnlisted(e.pids, 0);
      assert Logs(e, p);
    } else if e.monitored == 1 && e.pids != [] {
      assert Logs(e, e.pids[0]);
    }
  }

  lemma {:induction false} SomeUnlisted(pids: seq<int>, least: int) returns (p: int)
    ensures p >= least && p !in pids
  {
    if pids == [] {
      p := least;
    } else {
      p := SomeUnlisted(pids[1..], if pids[0] >= least then pids[0] + 1 else least);
    }
  }

  /** Intercept call 5, start and stop pid 7: no pid is monitored, and stopping all succeeds. */
  lemma StopAllMayFindNothing(nr: nat, root: Caller)
    requires root.root && root.pidExists && root.memory && nr >= 5
    ensures var intercepted := Then(nr, [], REQUEST_SYSCALL_INTERCEPT, 5, 0, root);
            var started := Then(nr, intercepted, REQUEST_START_MONITORING, 5, 7, root);
            var stopped := Then(nr, started, REQUEST_STOP_MONITORING, 5, 7, root);
            && (forall p :: !Watched(nr, stopped, 5, p))
            && Reply(nr, stopped, REQUEST_STOP_MONITORING, 5, 0, root) == 0
  {
    hide Watched, Hooked, On, All;
    var intercepted := Then(nr, [], REQUEST_SYSCALL_INTERCEPT, 5, 0, root);
    var started := Then(nr, intercepted, REQUEST_START_MONITORING, 5, 7, root);
    var stopped := Then(nr, started, REQUEST_STOP_MONITORING, 5, 7, root);
    forall p
      ensures !Watched(nr, stopped, 5, p) && Hooked(stopped, 5) && On(stopped, 5)
    {
      Beginning(nr, 5, p);
      Beginning(nr, 5, 7);
      Latest(nr, [], intercepted[0], 5, p);
      Latest(nr, [], intercepted[0], 5, 7);
      Latest(nr, intercepted, started[1], 5, p);
      Latest(nr, intercepted, started[1], 5, 7);
      Latest(nr, started, stopped[2], 5, p);
    }
  }

  lemma Beginning(nr: nat, s: nat, p: int)
    ensures !Hooked([], s) && !On([], s) && !All([], s) && !Watched(nr, [], s, p)
  {
  }

  lemma Latest(nr: nat, history: seq<Event>, event: Event, s: nat, p: int)
    ensures Hooked(history + [event], s) == HookEffect(event, s, Hooked(history, s))
    ensures On(history + [event], s) == OnEffect(event, s, On(history, s))
    ensures All(history + [event], s) == AllEffect(event, s, All(history, s))
    ensures Watched(nr, history + [event], s, p) == Effect(nr, event, s, p, Watched(nr, history, s, p), All(history, s))
  {
    assert (history + [event])[..|history|] == history;
  }

  /** The list without the entry at k: exactly that pid is gone. */
  lemma DropAt(pids: seq<int>, k: nat)
    requires k < |pids| && Distinct(pids)
    ensures Distinct(pids[..k] + pids[k + 1..])
    ensures forall p :: p in pids[..k] + pids[k + 1..] <==> p in pids && p != pids[k]
  {
    var rest := pids[..k] + pids[k + 1..];
    forall p ensures p in rest <==> p in pids && p != pids[k] {
      if p in pids && p != pids[k] {
        var i :| 0 <= i < |pids| && pids[i] == p;
        assert rest[if i < k then i else i - 1] == p;
      }
      if p in rest {
        var i :| 0 <= i < |rest| && rest[i] == p;
        assert p == pids[if i < k then i else i + 1];
      }
    }
  }

  /** The entry once place k of its list is unlinked: monitoring one pid at a time ends if the count reaches zero. */
  function Unlinked(e: Entry, k: nat): Entry
    requires k < |e.pids|
  {
    var shorter := e.(pids := e.pids[..k] + e.pids[k + 1..], listcount := e.listcount - 1);
    if shorter.listcount == 0 && e.monitored == 1 then shorter.(monitored := 0) else shorter
  }

  /** The count does not reach zero, because every pid was counted twice. */
  lemma StillMonitored(e: Entry, k: nat)
    requires ValidEntry(e) && k < |e.pids|
    ensures var e' := Unlinked(e, k);
            && e' == e.(pids := e'.pids, listcount := e.listcount - 1) && |e'.pids| == |e.pids| - 1
            && Distinct(e'.pids) && forall p :: p in e'.pids <==> p in e.pids && p != e.pids[k]
    ensures e.listcount - 1 >= 2 * |Unlinked(e, k).pids| + 1
  {
    DropAt(e.pids, k);
  }

  /** A valid entry, with the stub in the kernel's table, and its original kept, exactly while intercepted. */
  ghost predicate Sound(e: Entry, handler: Handler, original: Handler) {
    && ValidEntry(e)
    && if e.intercepted == 1 then handler == InterceptorStub && e.f == original else handler == original
  }

  predicate Flags(e: Entry, hooked: bool, on: bool, all: bool) {
    (e.intercepted == 1) == hooked && (e.monitored != 0) == on && (e.monitored == 2) == all
  }

  /** The flags of an entry after the event, from those before. */
  predicate FlagsAfter(e: Entry, event: Event, s: nat, before: Entry) {
    Flags(e, HookEffect(event, s, before.intercepted == 1), OnEffect(event, s, before.monitored != 0),
          AllEffect(event, s, before.monitored == 2))
  }

  /** What the tests on the way through my_syscall find, for a valid call number. */
  function TestsOf(e: Entry, pid: int, caller: Caller): Tests {
    Tests(true, caller.root, e.intercepted == 1, pid, caller.pidExists, caller.root || caller.sameOwner,
          e.monitored, pid in e.pids, caller.memory)
  }

  /** Which of the lists of calls 1 to nr - 1 have the pid. */
  function ListedIn(table: seq<Entry>, pid: int, nr: nat): (listed: seq<bool>)
    requires 1 <= nr <= |table|
    ensures |listed| == nr - 1 && forall i :: 0 <= i < nr - 1 ==> listed[i] == (pid in table[i + 1].pids)
  {
    seq(nr - 1, i requires 0 <= i < nr - 1 => pid in table[i + 1].pids)
  }

  /** Which of the calls 1 to nr are intercepted. */
  function HookedCalls(history: seq<Event>, nr: nat): (hooked: seq<bool>)
    ensures |hooked| == nr && forall i :: 0 <= i < nr ==> hooked[i] == Hooked(history, i + 1)
  {
    seq(nr, i requires 0 <= i < nr => Hooked(history, i + 1))
  }

  class Module {
    const nr: nat
    const sysCallTable: array<Handler>
    const table: array<Entry>
    const exitGroup: nat
    var origCustomSyscall: Handler
    var origExitGroup: Handler
    ghost const kernel: seq<Handler>
    ghost const original: seq<Handler>
    ghost var history: seq<Event>

    /** The locks taken and dropped and the shared data touched so far. */
    ghost var trace: seq<Op>

    /** Each entry is valid, and the system call table has the stub exactly where a call is intercepted. */
    ghost predicate Valid()
      reads table, sysCallTable
    {
      && table.Length == sysCallTable.Length == |original| == nr + 1
      && (forall s :: 1 <= s <= nr ==> original[s] != InterceptorStub)
      && forall s :: 1 <= s <= nr ==> Sound(table[s], sysCallTable[s], original[s])
    }

    /** What is logged is what the history says. */
    ghost predicate Faithful()
      reads `history, table
    {
      && table.Length == nr + 1
      && (forall s :: 1 <= s <= nr ==> Flags(table[s], Hooked(history, s), On(history, s), All(history, s)))
      && forall s, p :: 1 <= s <= nr ==> Logs(table[s], p) == Watched(nr, history, s, p)
    }

    /**
     The kernel's handlers before the module was loaded, and what was kept of them: the handler of MY_CUSTOM_SYSCALL,
     twice, because it is saved in place of that of exit_group as well.
     */
    ghost predicate Loaded()
      reads `origCustomSyscall, `origExitGroup, sysCallTable
    {
      && |kernel| == sysCallTable.Length == nr + 1 && 1 <= exitGroup <= nr
      && original == kernel[MY_CUSTOM_SYSCALL := MySyscall][exitGroup := MyExitGroup]
      && (forall s :: 0 <= s <= nr ==> kernel[s].Kernel? || kernel[s].Null?)
      && sysCallTable[MY_CUSTOM_SYSCALL] == MySyscall
      && origCustomSyscall == origExitGroup == kernel[MY_CUSTOM_SYSCALL]
    }

    /** init_function: the module's own handlers go into the table of the kernel, and its table is cleared. */
    constructor (handlers: array<Handler>, exitGroup: nat)
      requires forall s :: 0 <= s < handlers.Length ==> handlers[s].Kernel? || handlers[s].Null?
      requires handlers.Length > 0 && exitGroup < handlers.Length && exitGroup != MY_CUSTOM_SYSCALL
      modifies handlers
      ensures nr == handlers.Length - 1 && sysCallTable == handlers && fresh(table)
      ensures kernel == old(handlers[..]) && this.exitGroup == exitGroup && original == handlers[..]
      ensures Valid() && Faithful() && Loaded() && history == []
    {
      nr := handlers.Length - 1;
      sysCallTable := handlers;
      this.exitGroup := exitGroup;
      kernel := handlers[..];
      origCustomSyscall := handlers[MY_CUSTOM_SYSCALL];
      origExitGroup := handlers[MY_CUSTOM_SYSCALL];
      table := new Entry[handlers.Length](_ => Entry(Null, 0, 0, 0, []));
      original := handlers[..][MY_CUSTOM_SYSCALL := MySyscall][exitGroup := MyExitGroup];
      history, trace := [], [];
      new;
      sysCallTable[MY_CUSTOM_SYSCALL] := MySyscall;
      sysCallTable[exitGroup] := MyExitGroup;
      for i := 1 to nr + 1
        invariant sysCallTable[..] == original && history == []
        invariant origCustomSyscall == origExitGroup == kernel[MY_CUSTOM_SYSCALL]
        invariant forall s :: 1 <= s <= nr ==> table[s] == Entry(Null, 0, 0, 0, [])
      {
        table[i] := Entry(Null, 0, 0, 0, []);
      }
    }

    // ---------- locks and shared data ----------

    method SpinLock(lock: Lock)
      modifies this`trace
      ensures trace == old(trace) + [Take(lock)]
    {
      trace := trace + [Take(lock)];
    }

    method SpinUnlock(lock: Lock)
      modifies this`trace
      ensures trace == old(trace) + [Drop(lock)]
    {
      trace := trace + [Drop(lock)];
    }

    method GetIntercepted(sysc: nat) returns (intercepted: int)
      requires sysc < table.Length
      modifies this`trace
      ensures intercepted == table[sysc].intercepted && trace == old(trace) + [Touch(InterceptedFlags)]
    {
      intercepted := table[sysc].intercepted;
      trace := trace + [Touch(InterceptedFlags)];
    }

    method SetIntercepted(sysc: nat, intercepted: int)
      requires sysc < table.Length
      modifies table, this`trace
      ensures table[..] == old(table[..])[sysc := old(table[sysc]).(intercepted := intercepted)]
      ensures trace == old(trace) + [Touch(InterceptedFlags)]
    {
      table[sysc] := table[sysc].(intercepted := intercepted);
      trace := trace + [Touch(InterceptedFlags)];
    }

    method SetCount(sysc: nat, count: int)
      requires sysc < table.Length
      modifies table, this`trace
      ensures table[..] == old(table[..])[sysc := old(table[sysc]).(listcount := count)]
      ensures trace == old(trace) + [Touch(ListCounts)]
    {
      table[sysc] := table[sysc].(listcount := count);
      trace := trace + [Touch(ListCounts)];
    }

    method GetHandler(sysc: nat) returns (handler: Handler)
      requires sysc < sysCallTable.Length
      modifies this`trace
      ensures handler == sysCallTable[sysc] && trace == old(trace) + [Touch(SysCallTable)]
    {
      handler := sysCallTable[sysc];
      trace := trace + [Touch(SysCallTable)];
    }

    method SetHandler(sysc: nat, handler: Handler)
      requires sysc < sysCallTable.Length
      modifies sysCallTable, this`trace
      ensures sysCallTable[..] == old(sysCallTable[..])[sysc := handler] && trace == old(trace) + [Touch(SysCallTable)]
    {
      sysCallTable[sysc] := handler;
      trace := trace + [Touch(SysCallTable)];
    }

    /** Reads the flag under the list lock, as every command does first. */
    method CheckIntercepted(sysc: nat) returns (intercepted: int)
      requires sysc < table.Length
      modifies this`trace
      ensures intercepted == table[sysc].intercepted
      ensures trace == old(trace) + Section(Pidlist, [InterceptedFlags])
    {
      SpinLock(Pidlist);
      intercepted := GetIntercepted(sysc);
      SpinUnlock(Pidlist);
      Closed(old(trace), Pidlist, [InterceptedFlags]);
    }

    /** Reads whether anything is monitored, under the table lock. */
    method CheckMonitored(sysc: nat) returns (monitored: int)
      requires sysc < table.Length
      modifies this`trace
      ensures monitored == table[sysc].monitored && trace == old(trace) + Section(Calltable, [])
    {
      SpinLock(Calltable);
      monitored := table[sysc].monitored;
      SpinUnlock(Calltable);
    }

    method SetMonitored(sysc: nat, monitored: int)
      requires sysc < table.Length
      modifies table, this`trace
      ensures table[..] == old(table[..])[sysc := old(table[sysc]).(monitored := monitored)]
      ensures trace == old(trace) + Section(Calltable, [])
    {
      SpinLock(Calltable);
      table[sysc] := table[sysc].(monitored := monitored);
      SpinUnlock(Calltable);
    }

    // ---------- list operations ----------

    method CheckPidMonitored(sysc: nat, pid: int) returns (found: bool)
      requires sysc < table.Length
      modifies this`trace
      ensures found <==> pid in table[sysc].pids
      ensures trace == old(trace) + Touches(WALK)
    {
      trace := trace + [Touch(PidLists)];
      var i := 0;
      while i < |table[sysc].pids|
        invariant i <= |table[sysc].pids| && pid !in table[sysc].pids[..i]
        invariant trace == old(trace) + Touches(WALK)
      {
        if table[sysc].pids[i] == pid {
          return true;
        }
        i := i + 1;
      }
      return false;
    }

    method AddPidSysc(pid: int, sysc: nat, memory: bool) returns (r: int)
      requires sysc < table.Length
      modifies table, this`trace
      ensures r == if memory then 0 else -ENOMEM
      ensures var e := old(table[sysc]);
              table[..] == if memory then old(table[..])[sysc := e.(pids := [pid] + e.pids, listcount := e.listcount + 1)]
                           else old(table[..])
      ensures trace == old(trace) + Touches(if memory then ADD else [])
    {
      if !memory {
        return -ENOMEM;
      }
      table[sysc] := table[sysc].(pids := [pid] + table[sysc].pids);
      trace := trace + [Touch(PidLists)];
      SetCount(sysc, table[sysc].listcount + 1);
      OneMore(old(trace), [PidLists], ListCounts);
      return 0;
    }

    /** Unlinks place k of the list. */
    method ListDel(sysc: nat, k: nat)
      requires sysc < table.Length && k < |table[sysc].pids|
      modifies table, this`trace
      ensures table[..] == old(table[..])[sysc := Unlinked(old(table[sysc]), k)]
      ensures trace == old(trace) + Touches(UNLINK)
    {
      table[sysc] := table[sysc].(pids := table[sysc].pids[..k] + table[sysc].pids[k + 1..]);
      trace := trace + [Touch(PidLists)];
      SetCount(sysc, table[sysc].listcount - 1);
      OneMore(old(trace), [PidLists], ListCounts);
      if table[sysc].listcount == 0 && table[sysc].monitored == 1 {
        table[sysc] := table[sysc].(monitored := 0);
      }
    }

    /** The double count keeps monitored set even when the last pid goes. */
    method DelPidSysc(pid: int, sysc: nat) returns (r: int)
      requires sysc < table.Length && ValidEntry(table[sysc])
      modifies table, this`trace
      ensures r == if old(pid in table[sysc].pids) then 0 else -EINVAL
      ensures forall s :: 0 <= s < table.Length && s != sysc ==> table[s] == old(table[s])
      ensures r != 0 ==> table[sysc] == old(table[sysc])
      ensures r == 0 ==>
                var e, e' := old(table[sysc]), table[sysc];
                && e' == e.(pids := e'.pids, listcount := e.listcount - 1) && |e'.pids| == |e.pids| - 1
                && Distinct(e'.pids) && forall p :: p in e'.pids <==> p in e.pids && p != pid
      ensures trace == old(trace) + Touches(if r == 0 then WALK + UNLINK else WALK)
    {
      trace := trace + [Touch(PidLists)];
      var i := 0;
      while i < |table[sysc].pids|
        invariant i <= |table[sysc].pids| && pid !in table[sysc].pids[..i]
        invariant table[..] == old(table[..]) && trace == old(trace) + Touches(WALK)
      {
        if table[sysc].pids[i] == pid {
          StillMonitored(table[sysc], i);
          ListDel(sysc, i);
          More(old(trace), WALK, UNLINK);
          return 0;
        }
        i := i + 1;
      }
      return -EINVAL;
    }

    /** Takes a listed pid off the list and counts it off once more, under the list lock. */
    method Unlist(pid: int, sysc: nat, refusal: int) returns (r: int)
      requires sysc < table.Length && ValidEntry(table[sysc]) && refusal < 0
      modifies table, this`trace
      ensures r == if old(pid in table[sysc].pids) then 0 else refusal
      ensures forall s :: 0 <= s < table.Length && s != sysc ==> table[s] == old(table[s])
      ensures r != 0 ==> table[sysc] == old(table[sysc])
      ensures r == 0 ==>
                var e, e' := old(table[sysc]), table[sysc];
                && e' == e.(pids := e'.pids, listcount := e.listcount - 2) && |e'.pids| == |e.pids| - 1
                && Distinct(e'.pids) && forall p :: p in e'.pids <==> p in e.pids && p != pid
      ensures trace == old(trace) + Section(Pidlist, WALK + if r == 0 then WALK + UNLINK + [ListCounts] else [])
    {
      SpinLock(Pidlist);
      ghost var start := trace;
      var found := CheckPidMonitored(sysc, pid);
      if !found {
        SpinUnlock(Pidlist);
        assert WALK + [] == WALK;
        Closed(old(trace), Pidlist, WALK);
        return refusal;
      }
      r := DelPidSysc(pid, sysc);
      More(start, WALK, WALK + UNLINK);
      SetCount(sysc, table[sysc].listcount - 1);
      OneMore(start, WALK + (WALK + UNLINK), ListCounts);
      SpinUnlock(Pidlist);
      assert WALK + (WALK + UNLINK) + [ListCounts] == WALK + (WALK + UNLINK + [ListCounts]);
      Closed(old(trace), Pidlist, WALK + (WALK + UNLINK + [ListCounts]));
    }

    /** Puts a pid that is not listed on the list and counts it once more, under the list lock. */
    method Enlist(pid: int, sysc: nat, memory: bool, refusal: int) returns (r: int)
      requires sysc < table.Length && refusal < 0
      modifies table, this`trace
      ensures r == if old(pid in table[sysc].pids) then refusal else if memory then 0 else -ENOMEM
      ensures var e := old(table[sysc]);
              table[..] == if r == 0 then old(table[..])[sysc := e.(pids := [pid] + e.pids, listcount := e.listcount + 2)]
                           else old(table[..])
      ensures trace == old(trace) + Section(Pidlist, WALK + if r == 0 then ADD + [ListCounts] else [])
    {
      SpinLock(Pidlist);
      ghost var start := trace;
      var found := CheckPidMonitored(sysc, pid);
      assert WALK + [] == WALK;
      if found {
        SpinUnlock(Pidlist);
        Closed(old(trace), Pidlist, WALK);
        return refusal;
      }
      r := AddPidSysc(pid, sysc, memory);
      More(start, WALK, if memory then ADD else []);
      if r != 0 {
        SpinUnlock(Pidlist);
        Closed(old(trace), Pidlist, WALK);
        return;
      }
      SetCount(sysc, table[sysc].listcount + 1);
      OneMore(start, WALK + ADD, ListCounts);
      SpinUnlock(Pidlist);
      assert WALK + ADD + [ListCounts] == WALK + (ADD + [ListCounts]);
      Closed(old(trace), Pidlist, WALK + (ADD + [ListCounts]));
    }

    /** The first pid monitored: put on the list unseen, and counted twice, under the list lock. */
    method EnlistFirst(pid: int, sysc: nat, memory: bool) returns (r: int)
      requires sysc < table.Length
      modifies table, this`trace
      ensures r == if memory then 0 else -ENOMEM
      ensures var e := old(table[sysc]);
              table[..] == if r == 0 then old(table[..])[sysc := e.(pids := [pid] + e.pids, listcount := e.listcount + 2)]
                           else old(table[..])
      ensures trace == old(trace) + Section(Pidlist, if r == 0 then ADD + [ListCounts] else [])
    {
      SpinLock(Pidlist);
      ghost var start := trace;
      r := AddPidSysc(pid, sysc, memory);
      if r == 0 {
        SetCount(sysc, table[sysc].listcount + 1);
        OneMore(start, ADD, ListCounts);
      }
      SpinUnlock(Pidlist);
      Closed(old(trace), Pidlist, if r == 0 then ADD + [ListCounts] else []);
    }

    /** destroy_list under the list lock. */
    method Clear(sysc: nat)
      requires sysc < table.Length
      modifies table, this`trace
      ensures table[..] == old(table[..])[sysc := old(table[sysc]).(pids := [], listcount := 0, monitored := 0)]
      ensures trace == old(trace) + Section(Pidlist, DESTROY)
    {
      SpinLock(Pidlist);
      DestroyList(sysc);
      SpinUnlock(Pidlist);
      Closed(old(trace), Pidlist, DESTROY);
    }

    /** del_pid: the pid goes from the lists of calls 1 to nr - 1. */
    method DelPid(pid: int) returns (r: int)
      requires Valid() && nr > 0
      modifies table, this`trace
      ensures Valid()
      ensures forall s :: 0 <= s < table.Length ==> table[s].monitored == old(table[s].monitored)
      ensures forall s :: 1 <= s < nr ==> forall p :: p in table[s].pids <==> p in old(table[s].pids) && p != pid
      ensures table[nr] == old(table[nr])
      ensures r == 0 <==> exists s :: 1 <= s < nr && pid in old(table[s].pids)
      ensures trace == old(trace) + Touches(Walks(ListedIn(old(table[..]), pid, nr)))
    {
      hide Sound, Touches, Walks;
      ghost var listed := ListedIn(table[..], pid, nr);
      NoWalks(trace, listed);
      r := -1;
      var s := 1;
      while s < nr
        invariant 1 <= s <= nr < table.Length && Valid()
        invariant forall t :: 0 <= t < table.Length && (t == 0 || t >= s) ==> table[t] == old(table[t])
        invariant forall t :: 1 <= t < s ==> table[t].monitored == old(table[t].monitored)
        invariant forall t :: 1 <= t < s ==> forall p :: p in table[t].pids <==> p in old(table[t].pids) && p != pid
        invariant r == 0 <==> exists t :: 1 <= t < s && pid in old(table[t].pids)
        invariant r == 0 || r == -1
        invariant trace == old(trace) + Touches(Walks(listed[..s - 1]))
      {
        var ispid := DelFrom(pid, s);
        WalkNext(old(trace), listed, s - 1);
        if ispid {
          r := 0;
        }
        s := s + 1;
      }
      assert listed[..nr - 1] == listed;
    }

    lemma NoWalks(done: seq<Op>, listed: seq<bool>)
      ensures done + Touches(Walks(listed[..0])) == done
    {
    }

    lemma WalkNext(done: seq<Op>, listed: seq<bool>, n: nat)
      requires n < |listed|
      ensures done + Touches(Walks(listed[..n])) + Touches(if listed[n] then WALK + UNLINK else WALK)
           == done + Touches(Walks(listed[..n + 1]))
    {
      assert listed[..n + 1][..n] == listed[..n];
      More(done, Walks(listed[..n]), if listed[n] then WALK + UNLINK else WALK);
    }

    /** The inner loop of del_pid: every occurrence goes, and there is at most one. */
    method DelFrom(pid: int, s: nat) returns (ispid: bool)
      requires Valid() && 1 <= s <= nr
      modifies table, this`trace
      ensures Valid() && (ispid <==> old(pid in table[s].pids))
      ensures forall t :: 0 <= t < table.Length && t != s ==> table[t] == old(table[t])
      ensures table[s].monitored == old(table[s].monitored)
      ensures forall p :: p in table[s].pids <==> p in old(table[s].pids) && p != pid
      ensures trace == old(trace) + Touches(if ispid then WALK + UNLINK else WALK)
    {
      ispid := false;
      ghost var before := table[s].pids;
      assert Sound(table[s], sysCallTable[s], original[s]);
      trace := trace + [Touch(PidLists)];
      var i := 0;
      while i < |table[s].pids|
        invariant i <= |table[s].pids| && pid !in table[s].pids[..i]
        invariant Valid()
        invariant forall t :: 0 <= t < table.Length && t != s ==> table[t] == old(table[t])
        invariant table[s].monitored == old(table[s].monitored)
        invariant forall p :: p in table[s].pids ==> p in before
        invariant forall p :: p in before && p != pid ==> p in table[s].pids
        invariant ispid ==> pid in before && pid !in table[s].pids
        invariant !ispid ==> table[s].pids == before
        invariant trace == old(trace) + Touches(if ispid then WALK + UNLINK else WALK)
        decreases |table[s].pids| - i
      {
        assert Sound(table[s], sysCallTable[s], original[s]);
        if table[s].pids[i] == pid {
          StillMonitored(table[s], i);
          ghost var others := table[..];
          ListDel(s, i);
          More(old(trace), WALK, UNLINK);
          assert forall t :: 0 <= t < table.Length && t != s ==> table[t] == others[t];
          assert table[s] == Unlinked(others[s], i);
          forall t | 1 <= t <= nr ensures Sound(table[t], sysCallTable[t], original[t]) {
            assert t != s ==> table[t] == others[t];
          }
          ispid := true;
        } else {
          i := i + 1;
        }
      }
    }

    method DestroyList(sysc: nat)
      requires sysc < table.Length
      modifies table, this`trace
      ensures table[..] == old(table[..])[sysc := old(table[sysc]).(pids := [], listcount := 0, monitored := 0)]
      ensures trace == old(trace) + Touches(DESTROY)
    {
      trace := trace + [Touch(PidLists)];
      while table[sysc].pids != []
        invariant table[..] == old(table[..])[sysc := old(table[sysc]).(pids := table[sysc].pids)]
        invariant trace == old(trace) + Touches([PidLists])
        decreases |table[sysc].pids|
      {
        table[sysc] := table[sysc].(pids := table[sysc].pids[1..]);
      }
      SetCount(sysc, 0);
      OneMore(old(trace), [PidLists], ListCounts);
      table[sysc] := table[sysc].(monitored := 0);
    }

    // ---------- commands ----------

    /** A change of entry sysc that keeps it sound keeps everything sound. */
    lemma StillValid(before: seq<Entry>, sysc: nat)
      requires forall s :: 1 <= s <= nr ==> 0 <= s < |original| && original[s] != InterceptorStub
      requires |before| == table.Length == sysCallTable.Length == |original| == nr + 1 && 1 <= sysc <= nr
      requires forall s :: 0 <= s <= nr && s != sysc ==> table[s] == before[s]
      requires forall s :: 1 <= s <= nr && s != sysc ==> Sound(before[s], sysCallTable[s], original[s])
      requires Sound(table[sysc], sysCallTable[sysc], original[sysc])
      ensures Valid()
    {
      forall s | 1 <= s <= nr ensures Sound(table[s], sysCallTable[s], original[s]) {
      }
    }

    method Intercept(syscall: nat, pid: int, caller: Caller) returns (r: int)
      requires Valid() && 1 <= syscall <= nr
      modifies table, sysCallTable, this`trace
      ensures Valid()
      ensures forall s :: 0 <= s <= nr && s != syscall ==> table[s] == old(table[s]) && sysCallTable[s] == old(sysCallTable[s])
      ensures r == Answer(REQUEST_SYSCALL_INTERCEPT, pid, caller, old(table[syscall].intercepted == 1), false, false, false)
      ensures table[syscall].monitored == old(table[syscall].monitored) && table[syscall].pids == old(table[syscall].pids)
      ensures r == 0 ==> table[syscall].intercepted == 1 && sysCallTable[syscall] == InterceptorStub && table[syscall].f == old(sysCallTable[syscall])
      ensures r != 0 ==> table[syscall] == old(table[syscall]) && sysCallTable[syscall] == old(sysCallTable[syscall])
      ensures trace == old(trace) + InterceptOps(TestsOf(old(table[syscall]), pid, caller))
    {
      hide Section;
      if !caller.root {
        return -EPERM;
      }
      assert Sound(table[syscall], sysCallTable[syscall], original[syscall]);
      var intercepted := CheckIntercepted(syscall);
      ghost var checked := trace;
      if intercepted == 1 {
        return -EBUSY;
      }
      Replace(syscall);
      SpinLock(Pidlist);
      SetIntercepted(syscall, 1);
      SpinUnlock(Pidlist);
      Closed(checked + Section(Calltable, [SysCallTable, SysCallTable]), Pidlist, [InterceptedFlags]);
      Joined(checked, Section(Calltable, [SysCallTable, SysCallTable]), Section(Pidlist, [InterceptedFlags]));
      Joined(old(trace), Section(Pidlist, [InterceptedFlags]),
             Section(Calltable, [SysCallTable, SysCallTable]) + Section(Pidlist, [InterceptedFlags]));
      return 0;
    }

    /** Saves the handler and installs the stub, under the table lock. */
    method Replace(syscall: nat)
      requires syscall < table.Length == sysCallTable.Length
      modifies table, sysCallTable, this`trace
      ensures table[..] == old(table[..])[syscall := old(table[syscall]).(f := old(sysCallTable[syscall]))]
      ensures sysCallTable[..] == old(sysCallTable[..])[syscall := InterceptorStub]
      ensures trace == old(trace) + Section(Calltable, [SysCallTable, SysCallTable])
    {
      SpinLock(Calltable);
      ghost var start := trace;
      var f := GetHandler(syscall);
      table[syscall] := table[syscall].(f := f);
      SetHandler(syscall, InterceptorStub);
      OneMore(start, [SysCallTable], SysCallTable);
      SpinUnlock(Calltable);
      Closed(old(trace), Calltable, [SysCallTable, SysCallTable]);
    }

    method Release(syscall: nat, pid: int, caller: Caller) returns (r: int)
      requires Valid() && 1 <= syscall <= nr
      modifies table, sysCallTable, this`trace
      ensures Valid()
      ensures forall s :: 0 <= s <= nr && s != syscall ==> table[s] == old(table[s]) && sysCallTable[s] == old(sysCallTable[s])
      ensures r == Answer(REQUEST_SYSCALL_RELEASE, pid, caller, old(table[syscall].intercepted == 1), false, false, false)
      ensures r == 0 ==> sysCallTable[syscall] == original[syscall]
                         && table[syscall].intercepted == 0 && table[syscall].monitored == 0
      ensures r != 0 ==> table[syscall] == old(table[syscall]) && sysCallTable[syscall] == old(sysCallTable[syscall])
      ensures trace == old(trace) + ReleaseOps(TestsOf(old(table[syscall]), pid, caller))
    {
      hide Section;
      if !caller.root {
        return -EPERM;
      }
      assert Sound(table[syscall], sysCallTable[syscall], original[syscall]);
      var intercepted := CheckIntercepted(syscall);
      ghost var checked := trace;
      if intercepted == 0 {
        return -EINVAL;
      }
      Restore(syscall);
      Forget(syscall);
      Joined(checked, Section(Calltable, [SysCallTable]), Section(Pidlist, DESTROY + [InterceptedFlags]));
      Joined(old(trace), Section(Pidlist, [InterceptedFlags]),
             Section(Calltable, [SysCallTable]) + Section(Pidlist, DESTROY + [InterceptedFlags]));
      return 0;
    }

    /** Puts the handler back and ends all monitoring, under the table lock. */
    method Restore(syscall: nat)
      requires syscall < table.Length == sysCallTable.Length
      modifies table, sysCallTable, this`trace
      ensures table[..] == old(table[..])[syscall := old(table[syscall]).(monitored := 0)]
      ensures sysCallTable[..] == old(sysCallTable[..])[syscall := old(table[syscall]).f]
      ensures trace == old(trace) + Section(Calltable, [SysCallTable])
    {
      SpinLock(Calltable);
      SetHandler(syscall, table[syscall].f);
      table[syscall] := table[syscall].(monitored := 0);
      SpinUnlock(Calltable);
      Closed(old(trace), Calltable, [SysCallTable]);
    }

    /** Clears the list and the flag, under the list lock. */
    method Forget(syscall: nat)
      requires syscall < table.Length
      modifies table, this`trace
      ensures table[..] == old(table[..])[syscall :=
                old(table[syscall]).(pids := [], listcount := 0, monitored := 0, intercepted := 0)]
      ensures trace == old(trace) + Section(Pidlist, DESTROY + [InterceptedFlags])
    {
      SpinLock(Pidlist);
      ghost var start := trace;
      DestroyList(syscall);
      SetIntercepted(syscall, 0);
      OneMore(start, DESTROY, InterceptedFlags);
      SpinUnlock(Pidlist);
      Closed(old(trace), Pidlist, DESTROY + [InterceptedFlags]);
    }

    method StartMonitoring(syscall: nat, pid: int, caller: Caller) returns (r: int)
      requires Valid() && 1 <= syscall <= nr
      modifies table, this`trace
      ensures Valid() && forall s :: 0 <= s <= nr && s != syscall ==> table[s] == old(table[s])
      ensures r == Answer(REQUEST_START_MONITORING, pid, caller, old(table[syscall].intercepted == 1),
                          old(table[syscall].monitored != 0), old(table[syscall].monitored == 2),
                          old(Logs(table[syscall], pid)))
      ensures forall p :: Logs(table[syscall], p)
                       == Effect(nr, Command(REQUEST_START_MONITORING, syscall, pid, r), syscall, p,
                                 old(Logs(table[syscall], p)), old(table[syscall].monitored == 2))
      ensures FlagsAfter(table[syscall], Command(REQUEST_START_MONITORING, syscall, pid, r), syscall, old(table[syscall]))
      ensures trace == old(trace) + StartOps(TestsOf(old(table[syscall]), pid, caller))
    {
      hide Section;
      ghost var before := table[..];
      assert Sound(table[syscall], sysCallTable[syscall], original[syscall]);
      var intercepted := CheckIntercepted(syscall);
      ghost var checked := trace;
      if intercepted == 0 {
        return -EINVAL;
      }
      if pid == 0 {
        if !caller.root {
          return -EPERM;
        }
        r := StartAll(syscall);
        Joined(old(trace), Section(Pidlist, [InterceptedFlags]),
               Section(Calltable, []) + if old(table[syscall].monitored) == 2 then []
                                        else Section(Pidlist, DESTROY) + Section(Calltable, []));
      } else if pid < 0 || !caller.pidExists {
        return -EINVAL;
      } else {
        if !caller.root && !caller.sameOwner {
          return -EPERM;
        }
        ghost var ops;
        r, ops := StartOne(syscall, pid, caller.memory);
        Joined(old(trace), Section(Pidlist, [InterceptedFlags]), ops);
      }
      StillValid(before, syscall);
    }

    /** START_MONITORING for all pids, by root and of an intercepted call. */
    method StartAll(syscall: nat) returns (r: int)
      requires syscall < table.Length
      modifies table, this`trace
      ensures r == if old(table[syscall].monitored) == 2 then -EBUSY else 0
      ensures r != 0 ==> table[..] == old(table[..])
      ensures r == 0 ==> table[..] == old(table[..])[syscall := old(table[syscall]).(pids := [], listcount := 0, monitored := 2)]
      ensures trace == old(trace) + (Section(Calltable, []) + if old(table[syscall].monitored) == 2 then []
                                                               else Section(Pidlist, DESTROY) + Section(Calltable, []))
    {
      hide Section;
      var monitored := CheckMonitored(syscall);
      ghost var checked := trace;
      if monitored == 2 {
        return -EBUSY;
      }
      Clear(syscall);
      SetMonitored(syscall, 2);
      Joined(checked, Section(Pidlist, DESTROY), Section(Calltable, []));
      Joined(old(trace), Section(Calltable, []), Section(Pidlist, DESTROY) + Section(Calltable, []));
      return 0;
    }

    /** START_MONITORING for one existing pid, permitted and of an intercepted call. */
    method StartOne(syscall: nat, pid: int, memory: bool) returns (r: int, ghost ops: seq<Op>)
      requires syscall < table.Length && ValidEntry(table[syscall])
      modifies table, this`trace
      ensures trace == old(trace) + ops
      ensures var e := old(table[syscall]);
              ops == Section(Calltable, []) +
                if e.monitored == 2 then
                  Section(Pidlist, WALK + if pid in e.pids then WALK + UNLINK + [ListCounts] else [])
                else if e.monitored == 1 then
                  Section(Pidlist, WALK + if pid !in e.pids && memory then ADD + [ListCounts] else [])
                else if !memory then Section(Pidlist, [])
                else Section(Pidlist, ADD + [ListCounts]) + Section(Calltable, [])
      ensures forall s :: 0 <= s < table.Length && s != syscall ==> table[s] == old(table[s])
      ensures Started(old(table[syscall]), table[syscall], pid, memory, r)
    {
      hide Section, ValidEntry;
      var monitored := CheckMonitored(syscall);
      ghost var checked := trace;
      ghost var more;
      if monitored == 2 {
        r := Unlist(pid, syscall, -EBUSY);
        more := Section(Pidlist, WALK + if r == 0 then WALK + UNLINK + [ListCounts] else []);
      } else if monitored == 1 {
        r := Enlist(pid, syscall, memory, -EBUSY);
        more := Section(Pidlist, WALK + if r == 0 then ADD + [ListCounts] else []);
      } else {
        r := EnlistFirst(pid, syscall, memory);
        if r != 0 {
          more := Section(Pidlist, []);
        } else {
          SetMonitored(syscall, 1);
          more := Section(Pidlist, ADD + [ListCounts]) + Section(Calltable, []);
          Joined(checked, Section(Pidlist, ADD + [ListCounts]), Section(Calltable, []));
        }
      }
      ops := Section(Calltable, []) + more;
      Joined(old(trace), Section(Calltable, []), more);
    }

    /** What starting to monitor one pid does to an entry. */
    ghost predicate Started(e: Entry, e': Entry, pid: int, memory: bool, r: int) {
      if e.monitored == 2 then
        if pid !in e.pids then r == -EBUSY && e' == e else r == 0 && Shorter(e, e', pid)
      else if pid in e.pids && e.monitored == 1 then r == -EBUSY && e' == e
      else if !memory then r == -ENOMEM && e' == e
      else r == 0 && e' == e.(pids := [pid] + e.pids, listcount := e.listcount + 2, monitored := 1)
    }

    /** A pid has gone from the list and been counted off twice. */
    ghost predicate Shorter(e: Entry, e': Entry, pid: int) {
      && e' == e.(pids := e'.pids, listcount := e.listcount - 2) && |e'.pids| == |e.pids| - 1
      && Distinct(e'.pids) && forall p :: p in e'.pids <==> p in e.pids && p != pid
    }

    method StopMonitoring(syscall: nat, pid: int, caller: Caller) returns (r: int)
      requires Valid() && 1 <= syscall <= nr
      modifies table, this`trace
      ensures Valid() && forall s :: 0 <= s <= nr && s != syscall ==> table[s] == old(table[s])
      ensures r == Answer(REQUEST_STOP_MONITORING, pid, caller, old(table[syscall].intercepted == 1),
                          old(table[syscall].monitored != 0), old(table[syscall].monitored == 2),
                          old(Logs(table[syscall], pid)))
      ensures forall p :: Logs(table[syscall], p)
                       == Effect(nr, Command(REQUEST_STOP_MONITORING, syscall, pid, r), syscall, p,
                                 old(Logs(table[syscall], p)), old(table[syscall].monitored == 2))
      ensures FlagsAfter(table[syscall], Command(REQUEST_STOP_MONITORING, syscall, pid, r), syscall, old(table[syscall]))
      ensures trace == old(trace) + StopOps(TestsOf(old(table[syscall]), pid, caller))
    {
      hide Section;
      ghost var before := table[..];
      assert Sound(table[syscall], sysCallTable[syscall], original[syscall]);
      var intercepted := CheckIntercepted(syscall);
      ghost var checked := trace;
      if intercepted == 0 {
        return -EINVAL;
      }
      if pid == 0 {
        if !caller.root {
          return -EPERM;
        }
        r := StopAll(syscall);
        Joined(old(trace), Section(Pidlist, [InterceptedFlags]),
               Section(Calltable, []) + if old(table[syscall].monitored) == 0 then [] else Section(Pidlist, DESTROY));
      } else if pid < 0 || !caller.pidExists {
        return -EINVAL;
      } else {
        if !caller.root && !caller.sameOwner {
          return -EPERM;
        }
        ghost var ops;
        r, ops := StopOne(syscall, pid, caller.memory);
        Joined(old(trace), Section(Pidlist, [InterceptedFlags]), ops);
      }
      StillValid(before, syscall);
    }

    /** STOP_MONITORING for all pids, by root and of an intercepted call. */
    method StopAll(syscall: nat) returns (r: int)
      requires syscall < table.Length
      modifies table, this`trace
      ensures r == if old(table[syscall].monitored) == 0 then -EINVAL else 0
      ensures r != 0 ==> table[..] == old(table[..])
      ensures r == 0 ==> table[..] == old(table[..])[syscall := old(table[syscall]).(pids := [], listcount := 0, monitored := 0)]
      ensures trace == old(trace) + (Section(Calltable, []) + if old(table[syscall].monitored) == 0 then []
                                                               else Section(Pidlist, DESTROY))
    {
      hide Section;
      var monitored := CheckMonitored(syscall);
      if monitored == 0 {
        return -EINVAL;
      }
      Clear(syscall);
      Joined(old(trace), Section(Calltable, []), Section(Pidlist, DESTROY));
      return 0;
    }

    /** STOP_MONITORING for one existing pid, permitted and of an intercepted call. */
    method StopOne(syscall: nat, pid: int, memory: bool) returns (r: int, ghost ops: seq<Op>)
      requires syscall < table.Length && ValidEntry(table[syscall])
      modifies table, this`trace
      ensures trace == old(trace) + ops
      ensures var e := old(table[syscall]);
              ops == Section(Calltable, []) +
                if e.monitored == 0 then []
                else if e.monitored == 1 then
                  Section(Pidlist, WALK + if pid in e.pids then WALK + UNLINK + [ListCounts] else [])
                else
                  Section(Pidlist, WALK + if pid !in e.pids && memory then ADD + [ListCounts] else [])
      ensures forall s :: 0 <= s < table.Length && s != syscall ==> table[s] == old(table[s])
      ensures Stopped(old(table[syscall]), table[syscall], pid, memory, r)
    {
      hide Section, ValidEntry;
      var monitored := CheckMonitored(syscall);
      ghost var more := [];
      if monitored == 0 {
        r := -EINVAL;
      } else if monitored == 1 {
        r := Unlist(pid, syscall, -EINVAL);
        more := Section(Pidlist, WALK + if r == 0 then WALK + UNLINK + [ListCounts] else []);
      } else {
        r := Enlist(pid, syscall, memory, -EINVAL);
        more := Section(Pidlist, WALK + if r == 0 then ADD + [ListCounts] else []);
      }
      ops := Section(Calltable, []) + more;
      Joined(old(trace), Section(Calltable, []), more);
    }

    /** What ceasing to monitor one pid does to an entry. */
    ghost predicate Stopped(e: Entry, e': Entry, pid: int, memory: bool, r: int) {
      if e.monitored == 0 then r == -EINVAL && e' == e
      else if e.monitored == 1 then
        if pid !in e.pids then r == -EINVAL && e' == e else r == 0 && Shorter(e, e', pid)
      else if pid in e.pids then r == -EINVAL && e' == e
      else if !memory then r == -ENOMEM && e' == e
      else r == 0 && e' == e.(pids := [pid] + e.pids, listcount := e.listcount + 2)
    }

    /** The four commands of my_syscall, for a valid call number. */
    method Dispatch(cmd: int, syscall: nat, pid: int, caller: Caller) returns (r: int)
      requires Valid() && 1 <= syscall <= nr
      modifies table, sysCallTable, this`trace
      ensures Valid()
      ensures forall s :: 0 <= s <= nr && s != syscall ==> table[s] == old(table[s]) && sysCallTable[s] == old(sysCallTable[s])
      ensures r == Answer(cmd, pid, caller, old(table[syscall].intercepted == 1), old(table[syscall].monitored != 0),
                          old(table[syscall].monitored == 2), old(Logs(table[syscall], pid)))
      ensures FlagsAfter(table[syscall], Command(cmd, syscall, pid, r), syscall, old(table[syscall]))
      ensures forall p :: Logs(table[syscall], p) == Effect(nr, Command(cmd, syscall, pid, r), syscall, p,
                                                            old(Logs(table[syscall], p)), old(table[syscall].monitored == 2))
      ensures trace == old(trace) + Ops(MyCall(cmd, TestsOf(old(table[syscall]), pid, caller)))
    {
      hide InterceptOps, ReleaseOps, StartOps, StopOps;
      assert Sound(table[syscall], sysCallTable[syscall], original[syscall]);
      if cmd == REQUEST_SYSCALL_INTERCEPT {
        r := Intercept(syscall, pid, caller);
      } else if cmd == REQUEST_SYSCALL_RELEASE {
        r := Release(syscall, pid, caller);
      } else if cmd == REQUEST_START_MONITORING {
        r := StartMonitoring(syscall, pid, caller);
      } else if cmd == REQUEST_STOP_MONITORING {
        r := StopMonitoring(syscall, pid, caller);
      } else {
        r := -EINVAL;
      }
    }

    /**
     my_syscall: validates the call number and carries out one command, with the locks taken and the data touched
     of the return path that the tests lead to.
     */
    method Request(cmd: int, syscall: int, pid: int, caller: Caller) returns (r: int)
      requires Valid() && Faithful() && Loaded()
      modifies table, sysCallTable, this`history, this`trace
      ensures Valid() && Faithful() && Loaded()
      ensures r == Reply(nr, old(history), cmd, syscall, pid, caller)
      ensures history == Then(nr, old(history), cmd, syscall, pid, caller)
      ensures trace == old(trace) +
                if ValidCall(nr, syscall) then Ops(MyCall(cmd, TestsOf(old(table[syscall]), pid, caller))) else []
    {
      hide Sound, Watched, Hooked, On, All, Answer, Logs, Ops;
      ghost var before := table[..];
      if syscall < 0 || syscall > nr || syscall == MY_CUSTOM_SYSCALL {
        r := -EINVAL;
      } else {
        r := Dispatch(cmd, syscall, pid, caller);
      }
      HistoryNext(before, Command(cmd, syscall, pid, r));
      history := history + [Command(cmd, syscall, pid, r)];
    }

    /** What one event does to every entry, it does to the meaning of the history. */
    lemma HistoryNext(before: seq<Entry>, event: Event)
      requires |before| == table.Length == nr + 1
      requires forall s :: 1 <= s <= nr ==> Flags(before[s], Hooked(history, s), On(history, s), All(history, s))
      requires forall s, p :: 1 <= s <= nr ==> Logs(before[s], p) == Watched(nr, history, s, p)
      requires forall s :: 1 <= s <= nr ==> FlagsAfter(table[s], event, s, before[s])
      requires forall s, p :: 1 <= s <= nr ==>
                 Logs(table[s], p) == Effect(nr, event, s, p, Logs(before[s], p), before[s].monitored == 2)
      ensures var next := history + [event];
              forall s :: 1 <= s <= nr ==> Flags(table[s], Hooked(next, s), On(next, s), All(next, s))
      ensures forall s, p :: 1 <= s <= nr ==> Logs(table[s], p) == Watched(nr, history + [event], s, p)
    {
      hide Logs, Effect;
      forall s, p | 1 <= s <= nr
        ensures Flags(table[s], Hooked(history + [event], s), On(history + [event], s), All(history + [event], s))
        ensures Logs(table[s], p) == Watched(nr, history + [event], s, p)
      {
        Latest(nr, history, event, s, p);
      }
    }

    /** my_exit_group: the exiting pid is taken off the lists, and the handler that was saved runs. */
    method ExitGroup(pid: int) returns (handler: Handler)
      requires Valid() && Faithful() && Loaded()
      modifies table, this`history, this`trace
      ensures Valid() && Faithful() && Loaded() && history == old(history) + [Exit(pid)]
      ensures handler == kernel[MY_CUSTOM_SYSCALL]
      ensures 0 < nr < |old(table[..])| && trace == old(trace) + Ops(ExitCall(ListedIn(old(table[..]), pid, nr)))
    {
      hide Walks, Touches;
      ghost var before := table[..];
      SpinLock(Pidlist);
      var r := DelPid(pid);
      SpinUnlock(Pidlist);
      Closed(old(trace), Pidlist, Walks(ListedIn(before, pid, nr)));
      HistoryNext(before, Exit(pid));
      history := history + [Exit(pid)];
      handler := origExitGroup;
    }

    /** interceptor: whether the call is logged, and the handler that then runs. */
    method Stub(syscall: nat, current: int) returns (logged: bool, handler: Handler)
      requires Valid() && Faithful() && 1 <= syscall <= nr && sysCallTable[syscall] == InterceptorStub
      modifies this`trace
      ensures Hooked(history, syscall)
      ensures logged <==> Watched(nr, history, syscall, current)
      ensures handler == original[syscall]
      ensures trace == old(trace) + Ops(StubCall(table[syscall].monitored))
    {
      assert Sound(table[syscall], sysCallTable[syscall], original[syscall]);
      SpinLock(Calltable);
      SpinLock(Pidlist);
      logged := false;
      ghost var data := [];
      if table[syscall].monitored == 2 {
        var found := CheckPidMonitored(syscall, current);
        logged, data := !found, WALK;
      } else if table[syscall].monitored == 1 {
        logged := CheckPidMonitored(syscall, current);
        data := WALK;
      }
      SpinUnlock(Pidlist);
      Closed(old(trace) + [Take(Calltable)], Pidlist, data);
      SpinUnlock(Calltable);
      Joined(old(trace), [Take(Calltable)], Section(Pidlist, data));
      Joined(old(trace), [Take(Calltable)] + Section(Pidlist, data), [Drop(Calltable)]);
      handler := table[syscall].f;
    }

    /** Where the handler of each call is kept. */
    lemma Originals()
      requires Valid() && Faithful() && Loaded()
      ensures forall s :: 1 <= s <= nr ==>
                && (Hooked(history, s) <==> table[s].intercepted == 1)
                && (if table[s].intercepted == 1 then table[s].f else sysCallTable[s])
                   == if s == exitGroup then MyExitGroup else kernel[s]
    {
      hide Hooked, On, All, Watched;
      forall s | 1 <= s <= nr
        ensures Hooked(history, s) <==> table[s].intercepted == 1
        ensures (if table[s].intercepted == 1 then table[s].f else sysCallTable[s]) == original[s]
      {
        assert Sound(table[s], sysCallTable[s], original[s]);
        assert Flags(table[s], Hooked(history, s), On(history, s), All(history, s));
      }
    }

    /**
     exit_function: every handler is back where it was but that of exit_group, in whose place the wrong one was
     saved, or the module's own if exit_group was intercepted when the module goes.
     */
    method ExitFunction()
      requires Valid() && Faithful() && Loaded()
      modifies table, sysCallTable, this`trace
      ensures |kernel| == sysCallTable.Length && exitGroup < |kernel|
      ensures forall s :: 0 <= s < |kernel| && s != exitGroup ==> sysCallTable[s] == kernel[s]
      ensures sysCallTable[exitGroup] == if Hooked(history, exitGroup) then MyExitGroup else kernel[MY_CUSTOM_SYSCALL]
      ensures sysCallTable[..] == kernel <==>
                !Hooked(history, exitGroup) && kernel[exitGroup] == kernel[MY_CUSTOM_SYSCALL]
      ensures forall s, p :: 1 <= s < table.Length ==> !Logs(table[s], p)
      ensures trace == old(trace) + UnloadOps(HookedCalls(history, nr))
    {
      hide Hooked, Sound, Flags, Faithful, Restores, Section;
      Originals();
      RestoreOwn();
      ghost var begun := trace;
      NoRestores(begun, HookedCalls(history, nr));
      for i := 1 to nr + 1
        invariant forall s :: i <= s <= nr ==> table[s] == old(table[s])
        invariant forall s :: i <= s <= nr && s != exitGroup ==> sysCallTable[s] == old(sysCallTable[s])
        invariant sysCallTable[MY_CUSTOM_SYSCALL] == kernel[MY_CUSTOM_SYSCALL]
        invariant forall s :: 1 <= s < i && s != exitGroup ==> sysCallTable[s] == kernel[s]
        invariant sysCallTable[exitGroup] ==
                    if exitGroup < i && Hooked(history, exitGroup) then MyExitGroup else kernel[MY_CUSTOM_SYSCALL]
        invariant forall s :: 1 <= s < i ==> table[s].monitored == 0 && table[s].pids == []
        invariant trace == begun + Restores(HookedCalls(history, nr)[..i - 1])
      {
        RestoreCall(i);
        RestoresNext(begun, HookedCalls(history, nr), i - 1);
      }
      assert HookedCalls(history, nr)[..nr] == HookedCalls(history, nr);
      Joined(old(trace), Section(Calltable, [SysCallTable, SysCallTable]), Restores(HookedCalls(history, nr)));
    }

    /** Puts back what was saved for the module's own two calls. */
    method RestoreOwn()
      requires sysCallTable.Length == nr + 1 && 1 <= exitGroup <= nr
      modifies sysCallTable, this`trace
      ensures sysCallTable[..] == old(sysCallTable[..])[MY_CUSTOM_SYSCALL := origCustomSyscall][exitGroup := origExitGroup]
      ensures trace == old(trace) + Section(Calltable, [SysCallTable, SysCallTable])
    {
      SpinLock(Calltable);
      ghost var start := trace;
      SetHandler(MY_CUSTOM_SYSCALL, origCustomSyscall);
      SetHandler(exitGroup, origExitGroup);
      OneMore(start, [SysCallTable], SysCallTable);
      SpinUnlock(Calltable);
      Closed(old(trace), Calltable, [SysCallTable, SysCallTable]);
    }

    /** Puts the handler of one call back if it is intercepted, and clears its list. */
    method RestoreCall(i: nat)
      requires i < table.Length == sysCallTable.Length
      modifies table, sysCallTable, this`trace
      ensures table[..] == old(table[..])[i := old(table[i]).(pids := [], listcount := 0, monitored := 0)]
      ensures sysCallTable[..] == if table[i].intercepted == 1 then old(sysCallTable[..])[i := table[i].f]
                                  else old(sysCallTable[..])
      ensures trace == old(trace) + Section(Pidlist, [InterceptedFlags] +
                         (if table[i].intercepted == 1 then [SysCallTable] else []) + DESTROY)
    {
      SpinLock(Pidlist);
      ghost var start, data := trace, [InterceptedFlags];
      var intercepted := GetIntercepted(i);
      if intercepted == 1 {
        SetHandler(i, table[i].f);
        data := data + [SysCallTable];
        OneMore(start, [InterceptedFlags], SysCallTable);
      }
      DestroyList(i);
      More(start, data, DESTROY);
      SpinUnlock(Pidlist);
      Closed(old(trace), Pidlist, data + DESTROY);
    }

    lemma NoRestores(done: seq<Op>, hooked: seq<bool>)
      ensures done + Restores(hooked[..0]) == done
    {
    }

    lemma RestoresNext(done: seq<Op>, hooked: seq<bool>, n: nat)
      requires n < |hooked|
      ensures done + Restores(hooked[..n])
              + Section(Pidlist, [InterceptedFlags] + (if hooked[n] then [SysCallTable] else []) + DESTROY)
           == done + Restores(hooked[..n + 1])
    {
      hide Section;
      assert hooked[..n + 1][..n] == hooked[..n];
    }
  }
}
