/** The receive-wait monitor: tasks arm a deadline, notify the monitor and block; the monitor
    scans the sockets, selects on their descriptors and signals the ones that are ready. Every
    interleaving of their steps is a sequence of actions. Time passes only while the monitor is
    blocked and no task is between arming and notifying, and never past the end of a select. */
module Monitor {

  const WORD: nat := 0x1_0000_0000  // 32-bit seconds
  const MONITOR_MAX_RESPONSE_S: nat := 2

  /** Where a task is inside enqueue_select_rx. */
  datatype Task = Idle | Armed | Drained | Blocked(until: nat)

  /** One entry of system_sockets, receive side. The last five fields record history: the last
      arming, and whether since then the descriptor has stayed open, been selected on and been
      reported ready. */
  datatype Socket = Socket(
    sd: int, deadline: nat, signal: bool, task: Task,
    armedAt: nat, timeout: nat, openSince: bool, entered: bool, reported: bool)

  /** Where the monitor is inside select_task. */
  datatype Phase =
    | Start
    | HasTime(now: nat)
    | Selecting(since: nat, timeout: nat, fds: set<int>)
    | Reporting(ready: set<int>)
    | AboutToWait
    | Waiting

  datatype State = State(clock: nat, sockets: seq<Socket>, phase: Phase, pending: bool)

  // ----- The scan -----

  predicate Watched(k: Socket, now: nat) {
    k.sd > 0 && k.deadline != 0 && (k.deadline >= now || (k.deadline + 1) % WORD == now)
  }

  predicate Expired(k: Socket, now: nat) {
    k.sd > 0 && k.deadline != 0 && k.deadline < now && (k.deadline + 1) % WORD != now
  }

  function Scanned(k: Socket, now: nat): Socket {
    if Watched(k, now) then k.(entered := true)
    else if Expired(k, now) then k.(deadline := 0)
    else k
  }

  function ScannedAll(sockets: seq<Socket>, now: nat): (r: seq<Socket>)
    ensures |r| == |sockets| && forall i :: 0 <= i < |sockets| ==> r[i] == Scanned(sockets[i], now)
  {
    seq(|sockets|, i requires 0 <= i < |sockets| => Scanned(sockets[i], now))
  }

  function WatchedFds(sockets: seq<Socket>, now: nat): (r: set<int>)
    ensures forall fd :: fd in r <==> exists i :: 0 <= i < |sockets| && Watched(sockets[i], now) && sockets[i].sd == fd
  {
    set i | 0 <= i < |sockets| && Watched(sockets[i], now) :: sockets[i].sd
  }

  function Remaining(k: Socket, now: nat): nat { if k.deadline >= now then k.deadline - now else 0 }

  /** The select timeout: the least remaining time of a watched socket, below a cap. */
  function ScanTimeout(sockets: seq<Socket>, now: nat, n: nat, cap: nat): (r: nat)
    requires n <= |sockets|
    ensures r <= cap
  {
    if n == 0 then cap
    else
      var t := ScanTimeout(sockets, now, n - 1, cap);
      if Watched(sockets[n - 1], now) && Remaining(sockets[n - 1], now) < t then Remaining(sockets[n - 1], now) else t
  }

  /** The receive part of the scanning loop, on the shared table. */
  method ScanLoop(table: array<Socket>, now: nat, cap: nat) returns (timeout: nat, fds: set<int>)
    requires forall i :: 0 <= i < table.Length ==> table[i].deadline < WORD
    modifies table
    ensures table[..] == ScannedAll(old(table[..]), now) && fds == WatchedFds(old(table[..]), now)
    ensures timeout == ScanTimeout(old(table[..]), now, table.Length, cap)
  {
    hide WatchedFds, ScannedAll;
    ghost var sockets := table[..];
    timeout, fds := cap, {};
    var i := 0;
    while i < table.Length
      invariant i <= table.Length
      invariant forall j :: 0 <= j < i ==> table[j] == Scanned(sockets[j], now)
      invariant forall j :: i <= j < |sockets| ==> table[j] == sockets[j]
      invariant timeout == ScanTimeout(sockets, now, i, cap)
      invariant fds == WatchedFds(sockets[..i], now)
    {
      var k := table[i];
      FdsStep(sockets, now, i);
      if k.sd > 0 {
        if k.deadline != 0 {
          if k.deadline >= now {
            var current := k.deadline - now;
            if timeout > current {
              timeout := current;
            }
            fds := fds + {k.sd};
            table[i] := k.(entered := true);
          } else if (k.deadline + 1) % WORD == now {
            timeout := 0;
            fds := fds + {k.sd};
            table[i] := k.(entered := true);
          } else {
            table[i] := k.(deadline := 0);
          }
        }
      }
      i := i + 1;
    }
    assert sockets[..i] == sockets;
  }

  lemma FdsStep(sockets: seq<Socket>, now: nat, i: nat)
    requires i < |sockets|
    ensures WatchedFds(sockets[..i + 1], now)
      == WatchedFds(sockets[..i], now) + if Watched(sockets[i], now) then {sockets[i].sd} else {}
  {
    var a, b := sockets[..i], sockets[..i + 1];
    forall fd | fd in WatchedFds(b, now)
      ensures fd in WatchedFds(a, now) || (Watched(sockets[i], now) && fd == sockets[i].sd)
    {
      var j :| 0 <= j < |b| && Watched(b[j], now) && b[j].sd == fd;
      if j < i { assert a[j] == b[j]; }
    }
    forall fd | fd in WatchedFds(a, now) ensures fd in WatchedFds(b, now) {
      var j :| 0 <= j < |a| && Watched(a[j], now) && a[j].sd == fd;
      assert b[j] == a[j];
    }
    if Watched(sockets[i], now) {
      assert b[i] == sockets[i];
    }
  }

  // ----- Steps -----

  datatype Action =
    | Arm(i: nat, timeout: nat)          // register_rx_socket under the mutex
    | Drain(i: nat)                      // take a stale signal, without waiting
    | Notify(i: nat)                     // notify the monitor and block on the signal
    | Wake(i: nat)                       // the signal arrives
    | GiveUp(i: nat)                     // the wait on the signal times out
    | SetDescriptor(i: nat, sd: int)     // the socket is opened or closed
    | ReadTime
    | Scan(cap: nat, writers: bool)      // `cap` and `writers`: what the transmit half adds
    | SelectReturns(ready: set<int>)
    | Report
    | EnterWait
    | Notified
    | Tick

  predicate Enabled(s: State, a: Action) {
    match a
    case Arm(i, timeout) => i < |s.sockets| && s.sockets[i].task.Idle? && timeout < WORD
    case Drain(i) => i < |s.sockets| && s.sockets[i].task.Armed?
    case Notify(i) => i < |s.sockets| && s.sockets[i].task.Drained?
    case Wake(i) => i < |s.sockets| && s.sockets[i].task.Blocked? && s.sockets[i].signal
    case GiveUp(i) => i < |s.sockets| && s.sockets[i].task.Blocked? && s.sockets[i].task.until <= s.clock
    case SetDescriptor(i, sd) => i < |s.sockets|
    case ReadTime => s.phase.Start?
    case Scan(cap, writers) => s.phase.HasTime? && cap <= MONITOR_MAX_RESPONSE_S
    case SelectReturns(ready) => s.phase.Selecting? && ready <= s.phase.fds
    case Report => s.phase.Reporting?
    case EnterWait => s.phase.AboutToWait?
    case Notified => s.phase.Waiting? && s.pending
    case Tick => CanTick(s)
  }

  /** No step is under way anywhere, and a select has not yet used up its timeout. */
  predicate CanTick(s: State) {
    && s.clock + 1 < WORD
    && (forall i :: 0 <= i < |s.sockets| ==> s.sockets[i].task.Idle? || s.sockets[i].task.Blocked?)
    && ((s.phase.Selecting? && s.clock + 1 <= s.phase.since + s.phase.timeout) || (s.phase.Waiting? && !s.pending))
  }

  function At(s: State, i: nat, k: Socket): State
    requires i < |s.sockets|
  {
    s.(sockets := s.sockets[i := k])
  }

  function Signalled(sockets: seq<Socket>, ready: set<int>): (r: seq<Socket>)
    ensures |r| == |sockets| && forall i :: 0 <= i < |sockets| ==> r[i] == Signal(sockets[i], ready)
  {
    seq(|sockets|, i requires 0 <= i < |sockets| => Signal(sockets[i], ready))
  }

  function Signal(k: Socket, ready: set<int>): Socket {
    if k.sd > 0 && k.sd in ready then k.(deadline := 0, signal := true, reported := true) else k
  }

  /** The receive part of the reporting loop, on the shared table. */
  method ReportLoop(table: array<Socket>, ready: set<int>)
    modifies table
    ensures table[..] == Signalled(old(table[..]), ready)
  {
    for i := 0 to table.Length
      invariant forall j :: 0 <= j < i ==> table[j] == Signal(old(table[..])[j], ready)
      invariant forall j :: i <= j < table.Length ==> table[j] == old(table[..])[j]
    {
      var k := table[i];
      if k.sd > 0 {
        if k.sd in ready {
          table[i] := k.(deadline := 0, signal := true, reported := true);
        }
      }
    }
  }

  function Next(s: State, a: Action): State
    requires Enabled(s, a)
  {
    match a
    case Arm(i, timeout) =>
      var k := s.sockets[i];
      At(s, i, k.(deadline := (s.clock + timeout) % WORD, task := Armed,
                  armedAt := s.clock, timeout := timeout, openSince := k.sd > 0, entered := false, reported := false))
    case Drain(i) => At(s, i, s.sockets[i].(signal := false, task := Drained))
    case Notify(i) =>
      At(s, i, s.sockets[i].(task := Blocked(s.clock + s.sockets[i].timeout + 2))).(pending := true)
    case Wake(i) => At(s, i, s.sockets[i].(signal := false, task := Idle))
    case GiveUp(i) => At(s, i, s.sockets[i].(task := Idle))
    case SetDescriptor(i, sd) => At(s, i, s.sockets[i].(sd := sd, openSince := false))
    case ReadTime => s.(phase := HasTime(s.clock))
    case Scan(cap, writers) =>
      var now := s.phase.now;
      var fds := WatchedFds(s.sockets, now);
      var timeout := ScanTimeout(s.sockets, now, |s.sockets|, cap);
      s.(sockets := ScannedAll(s.sockets, now),
         phase := if fds != {} || writers then Selecting(s.clock, timeout, fds) else AboutToWait)
    case SelectReturns(ready) => s.(phase := if ready == {} then Start else Reporting(ready))
    case Report => s.(sockets := Signalled(s.sockets, s.phase.ready), phase := Start)
    case EnterWait => if s.pending then s.(pending := false, phase := Start) else s.(phase := Waiting)
    case Notified => s.(pending := false, phase := Start)
    case Tick => s.(clock := s.clock + 1)
  }

  // ----- Runs -----

  predicate Initial(s: State) {
    && s.phase.Start? && !s.pending && s.clock < WORD
    && forall i :: 0 <= i < |s.sockets| ==>
         var k := s.sockets[i];
         k.deadline == 0 && !k.signal && k.task.Idle? && !k.openSince && k.armedAt == 0
  }

  /** Every action is enabled when its turn comes. */
  predicate Runs(s: State, actions: seq<Action>)
    decreases |actions|
  {
    actions == [] || (Enabled(s, actions[0]) && Runs(Next(s, actions[0]), actions[1..]))
  }

  function Final(s: State, actions: seq<Action>): State
    requires Runs(s, actions)
    decreases |actions|
  {
    if actions == [] then s else Final(Next(s, actions[0]), actions[1..])
  }

  // ----- The invariant -----

  /** A wait the monitor owes service: armed for at least a second, without the deadline wrapping
      around, on a descriptor open ever since. */
  predicate Promised(k: Socket) {
    k.openSince && k.timeout >= 1 && k.armedAt + k.timeout < WORD
  }

  /** Owed, and neither selected on nor reported yet. */
  predicate Unserved(k: Socket) { Promised(k) && !k.entered && !k.reported }

  /** A wait that no select has covered and that the scan at `now` does not pick up either. */
  predicate Missed(k: Socket, now: nat) {
    k.openSince && !k.entered && !k.reported && !Watched(k, now)
  }

  predicate SocketOk(s: State, k: Socket) {
    && (Unserved(k) ==> k.deadline == k.armedAt + k.timeout)
    && (k.openSince ==> k.sd > 0)
    && k.armedAt <= s.clock
    && (Unserved(k) ==> s.clock <= k.armedAt + MONITOR_MAX_RESPONSE_S)
    && (Unserved(k) && s.phase.Selecting? ==> s.phase.since <= k.armedAt)
    && (Unserved(k) && (s.phase.AboutToWait? || s.phase.Waiting?) ==> s.pending || k.task.Armed? || k.task.Drained?)
  }

  predicate PhaseOk(s: State) {
    match s.phase
    case HasTime(now) => now == s.clock
    case Selecting(since, timeout, fds) =>
      since <= s.clock <= since + timeout && timeout <= MONITOR_MAX_RESPONSE_S
    case _ => true
  }

  predicate Invariant(s: State) {
    s.clock < WORD && PhaseOk(s) && forall i :: 0 <= i < |s.sockets| ==> SocketOk(s, s.sockets[i])
  }

  /** A promised wait is never taken for expired before it has been selected on: the cap of two
      seconds and the branch for the second after the deadline see to it. */
  lemma UnservedIsWatched(s: State, k: Socket)
    requires s.phase.HasTime? && s.clock < WORD && PhaseOk(s) && SocketOk(s, k) && Unserved(k)
    ensures Watched(k, s.phase.now)
  {
  }

  lemma ScanKeeps(s: State, cap: nat, writers: bool)
    requires Invariant(s) && Enabled(s, Scan(cap, writers))
    ensures Invariant(Next(s, Scan(cap, writers)))
  {
    var s' := Next(s, Scan(cap, writers));
    forall i | 0 <= i < |s'.sockets| ensures SocketOk(s', s'.sockets[i]) {
      var k := s.sockets[i];
      assert SocketOk(s, k);
      if Unserved(k) { UnservedIsWatched(s, k); }
    }
  }

  lemma TickKeeps(s: State)
    requires Invariant(s) && CanTick(s)
    ensures Invariant(Next(s, Tick))
  {
    var s' := Next(s, Tick);
    forall i | 0 <= i < |s'.sockets| ensures SocketOk(s', s'.sockets[i]) {
      assert SocketOk(s, s.sockets[i]);
    }
  }

  lemma MonitorKeeps(s: State, a: Action)
    requires Invariant(s) && Enabled(s, a)
    requires a.ReadTime? || a.SelectReturns? || a.Report? || a.EnterWait? || a.Notified?
    ensures Invariant(Next(s, a))
  {
    var s' := Next(s, a);
    forall i | 0 <= i < |s'.sockets| ensures SocketOk(s', s'.sockets[i]) {
      assert SocketOk(s, s.sockets[i]);
    }
  }

  lemma TaskKeeps(s: State, a: Action)
    requires Invariant(s) && Enabled(s, a)
    requires a.Arm? || a.Drain? || a.Notify? || a.Wake? || a.GiveUp? || a.SetDescriptor?
    ensures Invariant(Next(s, a))
  {
    var s' := Next(s, a);
    forall i | 0 <= i < |s'.sockets| ensures SocketOk(s', s'.sockets[i]) {
      assert SocketOk(s, s.sockets[i]);
    }
  }

  lemma StepKeeps(s: State, a: Action)
    requires Invariant(s) && Enabled(s, a)
    ensures Invariant(Next(s, a))
  {
    hide Invariant, Next, Enabled, CanTick;
    match a
    case Scan(cap, writers) => ScanKeeps(s, cap, writers);
    case Tick => EnabledTick(s); TickKeeps(s);
    case Arm(_, _) => TaskKeeps(s, a);
    case Drain(_) => TaskKeeps(s, a);
    case Notify(_) => TaskKeeps(s, a);
    case Wake(_) => TaskKeeps(s, a);
    case GiveUp(_) => TaskKeeps(s, a);
    case SetDescriptor(_, _) => TaskKeeps(s, a);
    case _ => MonitorKeeps(s, a);
  }

  lemma EnabledTick(s: State)
    requires Enabled(s, Tick)
    ensures CanTick(s)
  {
  }

  lemma {:induction false} RunKeeps(s: State, actions: seq<Action>)
    requires Invariant(s) && Runs(s, actions)
    ensures Invariant(Final(s, actions))
    decreases |actions|
  {
    hide Invariant, Next;
    if actions != [] {
      StepKeeps(s, actions[0]);
      RunKeeps(Next(s, actions[0]), actions[1..]);
    }
  }

  // ----- What the protocol promises -----

  /** In every interleaving, a promised wait has been in a select set (or been reported) before the
      scan can drop it, and gets there within two seconds of being armed. */
  lemma ServedBeforeExpiry(s0: State, actions: seq<Action>, i: nat)
    requires Initial(s0) && Runs(s0, actions) && i < |Final(s0, actions).sockets|
    requires Promised(Final(s0, actions).sockets[i])
    ensures var s := Final(s0, actions); var k := s.sockets[i];
      && (s.phase.HasTime? ==> !Missed(k, s.phase.now))
      && (k.entered || k.reported
          || (k.deadline == k.armedAt + k.timeout && s.clock <= k.armedAt + MONITOR_MAX_RESPONSE_S))
  {
    RunKeeps(s0, actions);
    var s := Final(s0, actions);
    var k := s.sockets[i];
    assert SocketOk(s, k);
    if Unserved(k) && s.phase.HasTime? { UnservedIsWatched(s, k); }
  }

  lemma {:induction false} Continue(s: State, first: seq<Action>, rest: seq<Action>)
    requires Runs(s, first) && Runs(Final(s, first), rest)
    ensures Runs(s, first + rest) && Final(s, first + rest) == Final(Final(s, first), rest)
    decreases |first|
  {
    hide Next, Enabled;
    if first == [] {
      assert first + rest == rest;
    } else {
      Continue(Next(s, first[0]), first[1..], rest);
      assert (first + rest)[1..] == first[1..] + rest;
    }
  }

  lemma Ahead(s: State, a: Action, rest: seq<Action>)
    requires Enabled(s, a) && Runs(Next(s, a), rest)
    ensures Runs(s, [a] + rest) && Final(s, [a] + rest) == Final(Next(s, a), rest)
  {
    hide Next, Enabled;
    assert ([a] + rest)[1..] == rest;
  }

  lemma Four(s: State, a: Action, b: Action, c: Action, d: Action)
    requires Enabled(s, a) && Enabled(Next(s, a), b) && Enabled(Next(Next(s, a), b), c)
    requires Enabled(Next(Next(Next(s, a), b), c), d)
    ensures Runs(s, [a, b, c, d]) && Final(s, [a, b, c, d]) == Next(Next(Next(Next(s, a), b), c), d)
  {
    hide Next, Enabled;
    var s1 := Next(s, a);
    var s2 := Next(s1, b);
    var s3 := Next(s2, c);
    assert [d] + [] == [d] && [c] + [d] == [c, d] && [b] + [c, d] == [b, c, d] && [a] + [b, c, d] == [a, b, c, d];
    Ahead(s3, d, []);
    Ahead(s2, c, [d]);
    Ahead(s1, b, [c, d]);
    Ahead(s, a, [b, c, d]);
  }

  function Fresh(sd: int): Socket { Socket(sd, 0, false, Idle, 0, 0, false, false, false) }

  /** Two open sockets at time `t`. */
  function Pair(t: nat): State { State(t, [Fresh(1), Fresh(2)], Start, false) }

  /** The first socket armed for two seconds, the monitor about to scan. */
  function First(t: nat): State {
    State(t, [Socket(1, t + 2, false, Blocked(t + 4), t, 2, true, false, false), Fresh(2)], HasTime(t), true)
  }

  /** The second socket armed while the monitor is in a two-second select for the first. */
  function Second(t: nat, timeout: nat): State {
    State(t, [Socket(1, t + 2, false, Blocked(t + 4), t, 2, true, true, false),
              Socket(2, (t + timeout) % WORD, false, Blocked(t + timeout + 2), t, timeout, true, false, false)],
          Selecting(t, 2, {1}), true)
  }

  const RUN_FIRST: seq<Action> := [Arm(0, 2), Drain(0), Notify(0), ReadTime]

  function RunSecond(timeout: nat): seq<Action> { [Scan(2, false), Arm(1, timeout), Drain(1), Notify(1)] }

  const RUN_LAST: seq<Action> := [Tick, Tick, SelectReturns({}), ReadTime]

  function BusyRun(timeout: nat): seq<Action> { RUN_FIRST + (RunSecond(timeout) + RUN_LAST) }

  lemma FirstRuns(t: nat)
    requires t + 4 < WORD
    ensures Runs(Pair(t), RUN_FIRST) && Final(Pair(t), RUN_FIRST) == First(t)
  {
    Four(Pair(t), Arm(0, 2), Drain(0), Notify(0), ReadTime);
  }

  lemma SecondRuns(t: nat, timeout: nat)
    requires t + 4 < WORD && timeout < WORD
    ensures Runs(First(t), RunSecond(timeout)) && Final(First(t), RunSecond(timeout)) == Second(t, timeout)
  {
    var sockets := First(t).sockets;
    assert WatchedFds(sockets, t) == {1};
    assert ScanTimeout(sockets, t, 0, 2) == ScanTimeout(sockets, t, 1, 2) == ScanTimeout(sockets, t, 2, 2) == 2;
    Four(First(t), Scan(2, false), Arm(1, timeout), Drain(1), Notify(1));
  }

  lemma LastRuns(t: nat, timeout: nat)
    requires t + 4 < WORD && timeout < WORD
    ensures Runs(Second(t, timeout), RUN_LAST)
    ensures Final(Second(t, timeout), RUN_LAST) == Second(t, timeout).(clock := t + 2, phase := HasTime(t + 2))
  {
    Four(Second(t, timeout), Tick, Tick, SelectReturns({}), ReadTime);
  }

  /** The conditions on a promised wait are exact: in the run where the monitor is busy, the wait
      is missed precisely when its timeout is zero or its deadline wraps around. */
  lemma PromiseIsExact(t: nat, timeout: nat)
    requires t + 4 < WORD && timeout < WORD
    ensures Initial(Pair(t)) && Runs(Pair(t), BusyRun(timeout))
    ensures var s := Final(Pair(t), BusyRun(timeout));
      && |s.sockets| == 2 && s.phase == HasTime(t + 2) && s.sockets[1].armedAt == t && s.sockets[1].timeout == timeout
      && (Missed(s.sockets[1], t + 2) <==> timeout == 0 || t + timeout >= WORD)
  {
    hide Next, Enabled, Runs, Final;
    FirstRuns(t);
    SecondRuns(t, timeout);
    LastRuns(t, timeout);
    Continue(First(t), RunSecond(timeout), RUN_LAST);
    Continue(Pair(t), RUN_FIRST, RunSecond(timeout) + RUN_LAST);
  }

  /** A step takes a signal away exactly when the task itself takes it: on waking or on draining. */
  lemma SignalTaken(s: State, a: Action, i: nat)
    requires i < |s.sockets| && Enabled(s, a) && s.sockets[i].signal
    ensures |Next(s, a).sockets| == |s.sockets|
    ensures !Next(s, a).sockets[i].signal <==> a == Wake(i) || a == Drain(i)
  {
    match a
    case Scan(_, _) =>
    case Report =>
    case _ =>
  }

  /** Over every run: a signal is there until its task wakes or drains, whatever else happens. */
  lemma {:induction false} SignalKept(s: State, actions: seq<Action>, i: nat)
    requires i < |s.sockets| && s.sockets[i].signal && Runs(s, actions)
    requires Wake(i) !in actions && Drain(i) !in actions
    ensures i < |Final(s, actions).sockets| && Final(s, actions).sockets[i].signal
    decreases |actions|
  {
    hide Next, Enabled;
    if actions != [] {
      SignalTaken(s, actions[0], i);
      SignalKept(Next(s, actions[0]), actions[1..], i);
    }
  }

  /** A report gives the signal and clears the deadline of exactly the open sockets whose descriptor is
      ready; nothing else changes in them, and nothing at all in the others. */
  lemma ReportExact(s: State, i: nat)
    requires s.phase.Reporting? && i < |s.sockets|
    ensures |Next(s, Report).sockets| == |s.sockets|
    ensures var k, k' := s.sockets[i], Next(s, Report).sockets[i];
      if k.sd > 0 && k.sd in s.phase.ready
      then k'.signal && k'.deadline == 0 && k' == k.(signal := k'.signal, deadline := k'.deadline, reported := true)
      else k' == k
  {
  }

  /** A blocked task with its signal given stays so, whatever else happens, until it wakes or gives up. */
  lemma {:induction false} StaysWakeable(s: State, actions: seq<Action>, i: nat)
    requires i < |s.sockets| && Enabled(s, Wake(i)) && Runs(s, actions)
    requires Wake(i) !in actions && GiveUp(i) !in actions
    ensures Enabled(Final(s, actions), Wake(i))
    decreases |actions|
  {
    if actions != [] {
      var a := actions[0];
      assert a != Drain(i);
      SignalTaken(s, a, i);
      TaskKept(s, a, i);
      hide Next;
      StaysWakeable(Next(s, a), actions[1..], i);
    }
  }

  /** Only its own steps move a task. */
  lemma TaskKept(s: State, a: Action, i: nat)
    requires i < |s.sockets| && Enabled(s, a)
    requires a !in {Drain(i), Notify(i), Wake(i), GiveUp(i)} && !(a.Arm? && a.i == i)
    ensures |Next(s, a).sockets| == |s.sockets| && Next(s, a).sockets[i].task == s.sockets[i].task
  {
  }

  /** Over every run: a task that is blocked when its open descriptor is reported ready can wake from
      then on, until it wakes or gives up; waking takes the signal and makes it idle. */
  lemma ReportWakes(s: State, actions: seq<Action>, i: nat)
    requires s.phase.Reporting? && i < |s.sockets| && s.sockets[i].task.Blocked?
    requires s.sockets[i].sd > 0 && s.sockets[i].sd in s.phase.ready
    requires Runs(Next(s, Report), actions) && Wake(i) !in actions && GiveUp(i) !in actions
    ensures var s' := Final(Next(s, Report), actions);
      && Enabled(s', Wake(i))
      && var k := Next(s', Wake(i)).sockets[i]; k.task.Idle? && !k.signal
  {
    ReportExact(s, i);
    StaysWakeable(Next(s, Report), actions, i);
  }

  // ----- What a scan decides -----

  /** Of the armed deadlines of open sockets, those that passed a second ago at most stay, in the select
      set, and the others are cleared; nothing else changes. */
  lemma ScanExact(s: State, cap: nat, writers: bool, i: nat)
    requires Enabled(s, Scan(cap, writers)) && i < |s.sockets| && s.sockets[i].deadline + 1 < WORD
    ensures |Next(s, Scan(cap, writers)).sockets| == |s.sockets|
    ensures var s' := Next(s, Scan(cap, writers));
      var k, k', armed := s.sockets[i], s'.sockets[i], s.sockets[i].sd > 0 && s.sockets[i].deadline != 0;
      && k' == k.(deadline := k'.deadline, entered := k'.entered)
      && if armed && s.phase.now <= k.deadline + 1
         then k'.deadline == k.deadline && k'.entered && s'.phase.Selecting? && k.sd in s'.phase.fds
         else k'.deadline == (if armed then 0 else k.deadline) && k'.entered == k.entered
  {
    if Watched(s.sockets[i], s.phase.now) {
      assert s.sockets[i].sd in WatchedFds(s.sockets, s.phase.now);
    }
  }

  /** The select timeout is the least of the cap and the remaining times of the watched sockets. */
  lemma {:induction false} TimeoutLeast(sockets: seq<Socket>, now: nat, n: nat, cap: nat)
    requires n <= |sockets|
    ensures var t := ScanTimeout(sockets, now, n, cap);
      && t <= cap && (forall i :: 0 <= i < n && Watched(sockets[i], now) ==> now + t <= Later(sockets[i].deadline, now))
      && (t == cap || exists i :: 0 <= i < n && Watched(sockets[i], now) && now + t == Later(sockets[i].deadline, now))
  {
    if n > 0 { TimeoutLeast(sockets, now, n - 1, cap); }
  }

  function Later(a: nat, b: nat): nat { if a < b then b else a }

  // ----- The notification -----

  /** The monitor takes its notification: on entering the wait or when woken from it. */
  predicate Takes(a: Action) { a.EnterWait? || a.Notified? }

  predicate Untaken(actions: seq<Action>) { forall q :: 0 <= q < |actions| ==> !Takes(actions[q]) }

  lemma PendingStep(s: State, a: Action)
    requires Enabled(s, a)
    ensures Next(s, a).pending <==> a.Notify? || (s.pending && !Takes(a))
  {
  }

  /** Over every run: a notification is pending exactly when the last one given came after the last one
      taken, or was there from the start; none is lost, and none is taken twice. */
  lemma {:induction false} PendingExact(s: State, actions: seq<Action>)
    requires Runs(s, actions)
    ensures Final(s, actions).pending <==>
      || (s.pending && Untaken(actions))
      || exists p :: 0 <= p < |actions| && actions[p].Notify? && Untaken(actions[p + 1..])
    decreases |actions|
  {
    hide Next, Enabled;
    if actions != [] {
      var a, rest := actions[0], actions[1..];
      PendingStep(s, a);
      PendingExact(Next(s, a), rest);
      assert Untaken(actions) <==> !Takes(a) && Untaken(rest);
      if p :| 0 <= p < |rest| && rest[p].Notify? && Untaken(rest[p + 1..]) {
        assert actions[p + 1] == rest[p] && actions[p + 1 + 1..] == rest[p + 1..];
      }
      if p :| 0 <= p < |actions| && actions[p].Notify? && Untaken(actions[p + 1..]) && p > 0 {
        assert rest[p - 1] == actions[p] && rest[p - 1 + 1..] == actions[p + 1..];
      }
    }
  }

  // ----- How long a wait lasts -----

  predicate WaitOk(s: State, k: Socket) {
    match k.task
    case Idle => true
    case Blocked(until) => until == k.armedAt + k.timeout + 2
    case _ => k.armedAt == s.clock
  }

  predicate WaitsOk(s: State) { forall i :: 0 <= i < |s.sockets| ==> WaitOk(s, s.sockets[i]) }

  lemma WaitStep(s: State, a: Action)
    requires Enabled(s, a) && WaitsOk(s)
    ensures WaitsOk(Next(s, a))
  {
    var s' := Next(s, a);
    forall i | 0 <= i < |s'.sockets| ensures WaitOk(s', s'.sockets[i]) {
      assert WaitOk(s, s.sockets[i]);
    }
  }

  lemma {:induction false} WaitRun(s: State, actions: seq<Action>)
    requires Runs(s, actions) && WaitsOk(s)
    ensures WaitsOk(Final(s, actions))
    decreases |actions|
  {
    hide Next, Enabled, WaitsOk;
    if actions != [] {
      WaitStep(s, actions[0]);
      WaitRun(Next(s, actions[0]), actions[1..]);
    }
  }

  /** In every run, a blocked task can give up exactly from two seconds after its timeout, counted from
      its arming, and is then idle with its deadline and signal as they were. */
  lemma GiveUpExact(s0: State, actions: seq<Action>, i: nat)
    requires Initial(s0) && Runs(s0, actions)
    ensures var s := Final(s0, actions);
      i < |s.sockets| && s.sockets[i].task.Blocked? ==>
        var k := s.sockets[i];
        && (Enabled(s, GiveUp(i)) <==> s.clock >= k.armedAt + k.timeout + 2)
        && (Enabled(s, GiveUp(i)) ==>
            var k' := Next(s, GiveUp(i)).sockets[i]; k'.task.Idle? && k' == k.(task := k'.task))
  {
    hide Runs, Final;
    WaitRun(s0, actions);
  }

  /** A signal given between arming and draining is thrown away: the task then waits out its
      timeout with no deadline for the monitor to act on. */
  function EarlySignal(timeout: nat): seq<Action> {
    [Arm(0, timeout), ReadTime, Scan(2, false), SelectReturns({1})] + [Report, Drain(0), Notify(0), ReadTime]
  }

  /** The first socket armed and already selected on, its descriptor ready. */
  function Early(t: nat, timeout: nat): State {
    State(t, [Socket(1, t + timeout, false, Armed, t, timeout, true, true, false), Fresh(2)], Reporting({1}), false)
  }

  lemma EarlyReport(t: nat, timeout: nat)
    requires t + timeout < WORD && 0 < timeout
    ensures var run := [Arm(0, timeout), ReadTime, Scan(2, false), SelectReturns({1})];
      Runs(Pair(t), run) && Final(Pair(t), run) == Early(t, timeout)
  {
    var s := Next(Next(Pair(t), Arm(0, timeout)), ReadTime);
    assert s.sockets[0].deadline == t + timeout;
    assert s
      == State(t, [Socket(1, t + timeout, false, Armed, t, timeout, true, false, false), Fresh(2)], HasTime(t), false);
    EarlyScan(s, t);
    Four(Pair(t), Arm(0, timeout), ReadTime, Scan(2, false), SelectReturns({1}));
  }

  lemma EarlyScan(s: State, t: nat)
    requires |s.sockets| == 2 && s.sockets[1] == Fresh(2) && s.sockets[0].sd == 1 && s.sockets[0].deadline > t
    ensures WatchedFds(s.sockets, t) == {1}
  {
    assert Watched(s.sockets[0], t);
  }

  lemma EarlyDrain(t: nat, timeout: nat)
    requires t + timeout < WORD && 0 < timeout
    ensures var run := [Report, Drain(0), Notify(0), ReadTime]; var s := Early(t, timeout);
      && Runs(s, run) && |Final(s, run).sockets| == 2
      && Final(s, run).sockets[0] == Socket(1, 0, false, Blocked(t + timeout + 2), t, timeout, true, true, true)
  {
    Four(Early(t, timeout), Report, Drain(0), Notify(0), ReadTime);
  }

  lemma SignalLost(t: nat, timeout: nat)
    requires t + timeout < WORD && 0 < timeout
    ensures Initial(Pair(t)) && Runs(Pair(t), EarlySignal(timeout))
    ensures var s := Final(Pair(t), EarlySignal(timeout));
      |s.sockets| == 2 && s.sockets[0].task.Blocked? && s.sockets[0].deadline == 0 && !s.sockets[0].signal
  {
    hide Next, Enabled, Runs, Final;
    EarlyReport(t, timeout);
    EarlyDrain(t, timeout);
    Continue(Pair(t), [Arm(0, timeout), ReadTime, Scan(2, false), SelectReturns({1})],
             [Report, Drain(0), Notify(0), ReadTime]);
  }
}
