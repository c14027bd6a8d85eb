/** Unmounting from any number of clones at once (src/platform_linux.rs, src/platform_windows.rs). Each call takes
    the session (or host) out of its slot, tears it down, then takes the backend out of its slot and shuts it down.
    Linux holds the session lock only while taking; Windows holds the host lock until the teardown is done.
    Both hold the backend lock until the shutdown is done. */
module MountLifecycle {

  datatype Platform = Linux | Windows

  datatype Outcome = Ok | FuseError

  /** Where a call stands. */
  datatype Call =
    | AtSession
    | TearingDown
    | AtBackend
    | ShuttingDown
    | Returned(outcome: Outcome)

  datatype Event =
    | TeardownBegins
    | TeardownEnds(joined: bool)
    | ShutdownBegins
    | ShutdownEnds

  /** `session` and `backend` are the two slots; a lock is the call that holds it across steps. */
  datatype Mount = Mount(
    session: bool,
    backend: bool,
    sessionLock: set<nat>,
    backendLock: set<nat>,
    calls: map<nat, Call>,
    log: seq<Event>)

  const MOUNTED := Mount(true, true, {}, {}, map[], [])

  datatype Action =
    | Enter(call: nat)
    | TakeSession(call: nat)
    | FinishTeardown(call: nat, joined: bool)
    | TakeBackend(call: nat)
    | FinishShutdown(call: nat)

  ghost predicate At(m: Mount, call: nat, place: Call) {
    call in m.calls && m.calls[call] == place
  }

  ghost predicate Next(p: Platform, m: Mount, action: Action, m': Mount) {
    match action
    case Enter(c) => c !in m.calls && m' == m.(calls := m.calls[c := AtSession])
    case TakeSession(c) =>
      && At(m, c, AtSession) && m.sessionLock == {}
      && m' == if !m.session then m.(calls := m.calls[c := AtBackend])
               else m.(session := false, calls := m.calls[c := TearingDown], log := m.log + [TeardownBegins],
                       sessionLock := if p.Windows? then {c} else {})
    case FinishTeardown(c, joined) =>
      && At(m, c, TearingDown)
      && (p.Windows? ==> joined)
      && m' == m.(calls := m.calls[c := if joined then AtBackend else Returned(FuseError)],
                  sessionLock := m.sessionLock - {c}, log := m.log + [TeardownEnds(joined)])
    case TakeBackend(c) =>
      && At(m, c, AtBackend) && m.backendLock == {}
      && m' == if !m.backend then m.(calls := m.calls[c := Returned(Ok)])
               else m.(backend := false, calls := m.calls[c := ShuttingDown], log := m.log + [ShutdownBegins],
                       backendLock := {c})
    case FinishShutdown(c) =>
      && At(m, c, ShuttingDown)
      && m' == m.(calls := m.calls[c := Returned(Ok)], backendLock := m.backendLock - {c}, log := m.log + [ShutdownEnds])
  }

  function Count(log: seq<Event>, event: Event): nat {
    if log == [] then 0 else Count(log[..|log| - 1], event) + if log[|log| - 1] == event then 1 else 0
  }

  function TeardownsEnded(log: seq<Event>): nat {
    Count(log, TeardownEnds(true)) + Count(log, TeardownEnds(false))
  }

  function Busy(m: Mount, place: Call): set<nat> {
    set c | c in m.calls && m.calls[c] == place
  }

  /** What holds in every reachable state, on both platforms. */
  ghost predicate Inv(p: Platform, m: Mount) {
    && Count(m.log, TeardownBegins) == (if m.session then 0 else 1)
    && Count(m.log, ShutdownBegins) == (if m.backend then 0 else 1)
    && Count(m.log, TeardownBegins) == TeardownsEnded(m.log) + |Busy(m, TearingDown)|
    && Count(m.log, ShutdownBegins) == Count(m.log, ShutdownEnds) + |Busy(m, ShuttingDown)|
    && m.backendLock == Busy(m, ShuttingDown)
    && m.sessionLock == (if p.Windows? then Busy(m, TearingDown) else {})
    && (forall c | c in m.calls && m.calls[c] != AtSession :: !m.session)
    && (forall c | c in m.calls && m.calls[c] == Returned(Ok) :: !m.backend && Count(m.log, ShutdownEnds) == 1)
    && (!m.backend ==> !m.session)
    && Count(m.log, TeardownEnds(false)) == |Busy(m, Returned(FuseError))|
    && (p.Windows? ==> Count(m.log, TeardownEnds(false)) == 0)
    && (p.Windows? ==> forall c | c in m.calls && m.calls[c] != AtSession && m.calls[c] != TearingDown ::
          TeardownsEnded(m.log) == 1)
  }

  lemma CountSnoc(log: seq<Event>, last: Event, event: Event)
    ensures Count(log + [last], event) == Count(log, event) + if last == event then 1 else 0
  {
    assert (log + [last])[..|log|] == log;
  }

  lemma NothingCounted()
    ensures TeardownsEnded([]) == 0
  {
  }

  /** What one more event does to the five counts. */
  lemma LogSnoc(log: seq<Event>, last: Event)
    ensures Count(log + [last], TeardownBegins) == Count(log, TeardownBegins) + if last == TeardownBegins then 1 else 0
    ensures Count(log + [last], TeardownEnds(true)) == Count(log, TeardownEnds(true)) + if last == TeardownEnds(true) then 1 else 0
    ensures Count(log + [last], TeardownEnds(false)) == Count(log, TeardownEnds(false)) + if last == TeardownEnds(false) then 1 else 0
    ensures Count(log + [last], ShutdownBegins) == Count(log, ShutdownBegins) + if last == ShutdownBegins then 1 else 0
    ensures Count(log + [last], ShutdownEnds) == Count(log, ShutdownEnds) + if last == ShutdownEnds then 1 else 0
  {
    hide Count;
    CountSnoc(log, last, TeardownBegins);
    CountSnoc(log, last, TeardownEnds(true));
    CountSnoc(log, last, TeardownEnds(false));
    CountSnoc(log, last, ShutdownBegins);
    CountSnoc(log, last, ShutdownEnds);
  }

  /** Moving one call to another place: the one it goes to, the one it leaves, and any other. */
  lemma BusyGains(m: Mount, m': Mount, c: nat, place: Call)
    requires c in m.calls && m'.calls == m.calls[c := place] && place != m.calls[c]
    ensures Busy(m', place) == Busy(m, place) + {c} && c !in Busy(m, place)
  {
  }

  lemma BusyLoses(m: Mount, m': Mount, c: nat, place: Call)
    requires c in m.calls && m'.calls == m.calls[c := place] && place != m.calls[c]
    ensures Busy(m', m.calls[c]) == Busy(m, m.calls[c]) - {c} && c in Busy(m, m.calls[c])
  {
  }

  lemma BusyKeeps(m: Mount, m': Mount, c: nat, place: Call, seen: Call)
    requires c in m.calls && m'.calls == m.calls[c := place] && seen != place && seen != m.calls[c]
    ensures Busy(m', seen) == Busy(m, seen)
  {
  }

  /** The same, seen from any place. */
  lemma BusyMoves(m: Mount, m': Mount, c: nat, place: Call, seen: Call)
    requires c in m.calls && m'.calls == m.calls[c := place] && place != m.calls[c]
    ensures Busy(m', seen) == if seen == place then Busy(m, seen) + {c}
                              else if seen == m.calls[c] then Busy(m, seen) - {c} else Busy(m, seen)
    ensures Moved(m, m', m.calls[c], place, seen)
  {
    hide Busy;
    if seen == place {
      BusyGains(m, m', c, place);
    } else if seen == m.calls[c] {
      BusyLoses(m, m', c, place);
    } else {
      BusyKeeps(m, m', c, place, seen);
    }
  }

  lemma PlacesMove(m: Mount, m': Mount, c: nat, place: Call)
    requires c in m.calls && m'.calls == m.calls[c := place] && place != m.calls[c]
    ensures var from := m.calls[c];
            && (place == TearingDown ==> Busy(m', TearingDown) == Busy(m, TearingDown) + {c})
            && (from == TearingDown ==> Busy(m', TearingDown) == Busy(m, TearingDown) - {c})
            && (place != TearingDown && from != TearingDown ==> Busy(m', TearingDown) == Busy(m, TearingDown))
            && (place == ShuttingDown ==> Busy(m', ShuttingDown) == Busy(m, ShuttingDown) + {c})
            && (from == ShuttingDown ==> Busy(m', ShuttingDown) == Busy(m, ShuttingDown) - {c})
            && (place != ShuttingDown && from != ShuttingDown ==> Busy(m', ShuttingDown) == Busy(m, ShuttingDown))
            && Moved(m, m', from, place, TearingDown) && Moved(m, m', from, place, ShuttingDown)
            && Moved(m, m', from, place, Returned(FuseError))
  {
    hide Busy;
    BusyMoves(m, m', c, place, TearingDown);
    BusyMoves(m, m', c, place, ShuttingDown);
    BusyMoves(m, m', c, place, Returned(FuseError));
  }

  ghost predicate Moved(m: Mount, m': Mount, from: Call, place: Call, seen: Call) {
    |Busy(m', seen)| == |Busy(m, seen)| + (if seen == place then 1 else 0) - (if seen == from then 1 else 0)
  }

  lemma EnterKeeps(p: Platform, m: Mount, c: nat, m': Mount)
    requires Inv(p, m) && Next(p, m, Enter(c), m')
    ensures Inv(p, m')
  {
    forall place: Call | place != AtSession ensures Busy(m', place) == Busy(m, place) {
    }
  }

  lemma TakeSessionKeeps(p: Platform, m: Mount, c: nat, m': Mount)
    requires Inv(p, m) && Next(p, m, TakeSession(c), m')
    ensures Inv(p, m')
  {
    hide Count, Busy;
    PlacesMove(m, m', c, if m.session then TearingDown else AtBackend);
    LogSnoc(m.log, TeardownBegins);
  }

  lemma FinishTeardownKeeps(p: Platform, m: Mount, c: nat, joined: bool, m': Mount)
    requires Inv(p, m) && Next(p, m, FinishTeardown(c, joined), m')
    ensures Inv(p, m')
  {
    hide Count, Busy;
    PlacesMove(m, m', c, if joined then AtBackend else Returned(FuseError));
    LogSnoc(m.log, TeardownEnds(joined));
  }

  lemma TakeBackendKeeps(p: Platform, m: Mount, c: nat, m': Mount)
    requires Inv(p, m) && Next(p, m, TakeBackend(c), m')
    ensures Inv(p, m')
  {
    hide Count, Busy;
    PlacesMove(m, m', c, if m.backend then ShuttingDown else Returned(Ok));
    LogSnoc(m.log, ShutdownBegins);
  }

  lemma FinishShutdownKeeps(p: Platform, m: Mount, c: nat, m': Mount)
    requires Inv(p, m) && Next(p, m, FinishShutdown(c), m')
    ensures Inv(p, m')
  {
    hide Count, Busy;
    PlacesMove(m, m', c, Returned(Ok));
    LogSnoc(m.log, ShutdownEnds);
  }

  lemma StepKeepsInv(p: Platform, m: Mount, action: Action, m': Mount)
    requires Inv(p, m) && Next(p, m, action, m')
    ensures Inv(p, m')
  {
    match action
    case Enter(c) => EnterKeeps(p, m, c, m');
    case TakeSession(c) => TakeSessionKeeps(p, m, c, m');
    case FinishTeardown(c, joined) => FinishTeardownKeeps(p, m, c, joined, m');
    case TakeBackend(c) => TakeBackendKeeps(p, m, c, m');
    case FinishShutdown(c) => FinishShutdownKeeps(p, m, c, m');
  }

  ghost predicate IsRun(p: Platform, states: seq<Mount>, actions: seq<Action>) {
    && |states| == |actions| + 1 && states[0] == MOUNTED
    && forall k | 0 <= k < |actions| :: Next(p, states[k], actions[k], states[k + 1])
  }

  lemma {:induction false} RunsKeepInv(p: Platform, states: seq<Mount>, actions: seq<Action>, k: nat)
    requires IsRun(p, states, actions) && k < |states|
    ensures Inv(p, states[k])
  {
    if k > 0 {
      RunsKeepInv(p, states, actions, k - 1);
      StepKeepsInv(p, states[k - 1], actions[k - 1], states[k]);
    }
  }

  // ----- Idempotence -----

  /** Over every interleaving of every number of calls, each of the two is begun at most once and ended at most as
      often as begun. A call that returned Ok found or left both slots empty, with the shutdown complete. */
  lemma UnmountIsIdempotent(p: Platform, states: seq<Mount>, actions: seq<Action>, k: nat)
    requires IsRun(p, states, actions) && k < |states|
    ensures var m := states[k];
            && TeardownsEnded(m.log) <= Count(m.log, TeardownBegins) <= 1
            && Count(m.log, ShutdownEnds) <= Count(m.log, ShutdownBegins) <= 1
            && (forall c | c in m.calls && m.calls[c] == Returned(Ok) ::
                  !m.session && !m.backend && Count(m.log, ShutdownEnds) == 1)
            && (p.Windows? ==> forall c | c in m.calls && m.calls[c] == Returned(Ok) :: TeardownsEnded(m.log) == 1)
  {
    RunsKeepInv(p, states, actions, k);
  }

  /** Once some call has returned Ok, the steps of calls entered later touch neither slot and begin nothing. */
  lemma LaterCallsAreNoOps(p: Platform, m: Mount, action: Action, m': Mount, returned: nat)
    requires Inv(p, m) && Next(p, m, action, m') && At(m, returned, Returned(Ok))
    ensures !m'.session && !m'.backend
    ensures m'.log == m.log || (action.FinishTeardown? && m'.log == m.log + [TeardownEnds(action.joined)])
    ensures p.Windows? ==> m'.log == m.log
  {
    NoneBusy(m, ShuttingDown);
    if p.Windows? {
      NoneBusy(m, TearingDown);
    }
  }

  lemma NoneBusy(m: Mount, place: Call)
    ensures |Busy(m, place)| == 0 <==> forall c | c in m.calls :: m.calls[c] != place
  {
    if c :| c in m.calls && m.calls[c] == place {
      assert c in Busy(m, place);
    }
    if |Busy(m, place)| != 0 {
      var c :| c in Busy(m, place);
    }
  }

  // ----- Ordering -----

  ghost predicate BeginsShutdown(m: Mount, m': Mount) {
    m'.log == m.log + [ShutdownBegins]
  }

  /** A shutdown that begins finds the teardown finished exactly when no call is tearing down at that moment,
      and successfully joined exactly when no call has returned an error either. */
  lemma ShutdownOrder(p: Platform, states: seq<Mount>, actions: seq<Action>, k: nat)
    requires IsRun(p, states, actions) && k < |actions| && BeginsShutdown(states[k], states[k + 1])
    ensures TeardownsEnded(states[k].log) == 1 <==> forall c | c in states[k].calls :: states[k].calls[c] != TearingDown
    ensures Count(states[k].log, TeardownEnds(true)) == 1 <==>
            forall c | c in states[k].calls :: states[k].calls[c] != TearingDown && states[k].calls[c] != Returned(FuseError)
    ensures p.Windows? ==> Count(states[k].log, TeardownEnds(true)) == 1
  {
    var m := states[k];
    RunsKeepInv(p, states, actions, k);
    BegunByTakeBackend(p, m, actions[k], states[k + 1]);
    NoneBusy(m, TearingDown);
    NoneBusy(m, Returned(FuseError));
  }

  lemma BegunByTakeBackend(p: Platform, m: Mount, action: Action, m': Mount)
    requires Next(p, m, action, m') && BeginsShutdown(m, m')
    ensures action.TakeBackend? && At(m, action.call, AtBackend)
  {
    assert |m'.log| == |m.log| + 1 && m'.log[|m.log|] == ShutdownBegins;
  }

  /** Calls do not overlap: each is entered only when all earlier ones have returned. */
  ghost predicate Sequential(states: seq<Mount>, actions: seq<Action>)
    requires |states| == |actions| + 1
  {
    forall k | 0 <= k < |actions| && actions[k].Enter? ::
      forall c | c in states[k].calls :: states[k].calls[c].Returned?
  }

  ghost predicate OneActive(m: Mount) {
    forall c, d | c in m.calls && d in m.calls && c != d :: m.calls[c].Returned? || m.calls[d].Returned?
  }

  lemma StepKeepsOneActive(p: Platform, m: Mount, action: Action, m': Mount)
    requires OneActive(m) && Next(p, m, action, m')
    requires action.Enter? ==> forall c | c in m.calls :: m.calls[c].Returned?
    ensures OneActive(m')
  {
    var c := action.call;
    assert forall d | d in m.calls && d != c :: d in m'.calls && m'.calls[d] == m.calls[d];
    assert action.Enter? || !m.calls[c].Returned?;
  }

  lemma {:induction false} OneActiveCall(p: Platform, states: seq<Mount>, actions: seq<Action>, k: nat)
    requires IsRun(p, states, actions) && Sequential(states, actions) && k < |states|
    ensures OneActive(states[k])
  {
    if k > 0 {
      OneActiveCall(p, states, actions, k - 1);
      StepKeepsOneActive(p, states[k - 1], actions[k - 1], states[k]);
    }
  }

  /** Without overlap the teardown has finished before the shutdown begins on Linux too,
      and its join succeeded unless an earlier call has returned an error. */
  lemma SequentialShutdownOrder(p: Platform, states: seq<Mount>, actions: seq<Action>, k: nat)
    requires IsRun(p, states, actions) && Sequential(states, actions)
    requires k < |actions| && BeginsShutdown(states[k], states[k + 1])
    ensures TeardownsEnded(states[k].log) == 1
    ensures (forall c | c in states[k].calls :: states[k].calls[c] != Returned(FuseError)) <==>
            Count(states[k].log, TeardownEnds(true)) == 1
  {
    OneActiveCall(p, states, actions, k);
    BegunByTakeBackend(p, states[k], actions[k], states[k + 1]);
    ShutdownOrder(p, states, actions, k);
  }

  /** On Linux two overlapping calls can begin the shutdown while the session is still being joined. */
  lemma LinuxOverlap() returns (states: seq<Mount>, actions: seq<Action>)
    ensures IsRun(Linux, states, actions) && |actions| > 0
    ensures BeginsShutdown(states[|actions| - 1], states[|actions|]) && TeardownsEnded(states[|actions|].log) == 0
  {
    hide Count;
    var m1 := MOUNTED.(calls := map[0 := AtSession]);
    var m2 := MOUNTED.(calls := map[0 := AtSession, 1 := AtSession]);
    var m3 := Mount(false, true, {}, {}, map[0 := TearingDown, 1 := AtSession], [TeardownBegins]);
    var m4 := m3.(calls := map[0 := TearingDown, 1 := AtBackend]);
    var m5 := Mount(false, false, {}, {1}, map[0 := TearingDown, 1 := ShuttingDown], [TeardownBegins, ShutdownBegins]);
    states := [MOUNTED, m1, m2, m3, m4, m5];
    actions := [Enter(0), Enter(1), TakeSession(0), TakeSession(1), TakeBackend(1)];
    assert Next(Linux, states[0], actions[0], states[1]);
    assert Next(Linux, states[1], actions[1], states[2]);
    assert m3.log == [] + [TeardownBegins];
    assert Next(Linux, states[2], actions[2], states[3]);
    assert Next(Linux, states[3], actions[3], states[4]);
    assert m5.log == [TeardownBegins] + [ShutdownBegins];
    assert Next(Linux, states[4], actions[4], states[5]);
    LogSnoc([TeardownBegins], ShutdownBegins);
    LogSnoc([], TeardownBegins);
    NothingCounted();
  }

  // ----- Every call returns -----

  function Rank(place: Call): nat {
    match place
    case AtSession => 4
    case TearingDown => 3
    case AtBackend => 2
    case ShuttingDown => 1
    case Returned(_) => 0
  }

  /** The step that lets a call, or the call holding the lock it waits for, go on. */
  lemma NoDeadlock(p: Platform, m: Mount, c: nat) returns (action: Action, m': Mount)
    requires Inv(p, m) && c in m.calls && !m.calls[c].Returned?
    ensures Next(p, m, action, m') && !action.Enter?
    ensures action.call in m.calls && m'.calls.Keys == m.calls.Keys
    ensures Rank(m'.calls[action.call]) < Rank(m.calls[action.call])
    ensures forall d | d in m.calls && d != action.call :: m'.calls[d] == m.calls[d]
  {
    var d := c;
    if m.calls[c] == AtSession && m.sessionLock != {} {
      d :| d in m.sessionLock;
      assert d in Busy(m, TearingDown);
    } else if m.calls[c] == AtBackend && m.backendLock != {} {
      d :| d in m.backendLock;
      assert d in Busy(m, ShuttingDown);
    }
    match m.calls[d]
    case AtSession =>
      action := TakeSession(d);
      m' := if !m.session then m.(calls := m.calls[d := AtBackend])
            else m.(session := false, calls := m.calls[d := TearingDown], log := m.log + [TeardownBegins],
                    sessionLock := if p.Windows? then {d} else {});
    case TearingDown =>
      action := FinishTeardown(d, true);
      m' := m.(calls := m.calls[d := AtBackend], sessionLock := m.sessionLock - {d}, log := m.log + [TeardownEnds(true)]);
    case AtBackend =>
      action := TakeBackend(d);
      m' := if !m.backend then m.(calls := m.calls[d := Returned(Ok)])
            else m.(backend := false, calls := m.calls[d := ShuttingDown], log := m.log + [ShutdownBegins], backendLock := {d});
    case ShuttingDown =>
      action := FinishShutdown(d);
      m' := m.(calls := m.calls[d := Returned(Ok)], backendLock := m.backendLock - {d}, log := m.log + [ShutdownEnds]);
  }

  /** What the calls still have to do, in steps. */
  function StepsLeft(m: Mount): nat {
    4 * |Busy(m, AtSession)| + 3 * |Busy(m, TearingDown)| + 2 * |Busy(m, AtBackend)| + |Busy(m, ShuttingDown)|
  }

  lemma MoveLowers(m: Mount, m': Mount, c: nat, place: Call)
    requires c in m.calls && m'.calls == m.calls[c := place] && Rank(place) < Rank(m.calls[c])
    ensures StepsLeft(m') < StepsLeft(m)
  {
    hide Busy;
    BusyMoves(m, m', c, place, AtSession);
    BusyMoves(m, m', c, place, TearingDown);
    BusyMoves(m, m', c, place, AtBackend);
    BusyMoves(m, m', c, place, ShuttingDown);
  }

  /** Every step of every call but its entry brings some call nearer to its return, whatever the schedule. */
  lemma StepLowers(p: Platform, m: Mount, action: Action, m': Mount)
    requires Next(p, m, action, m')
    ensures if action.Enter? then StepsLeft(m') == StepsLeft(m) + 4 else StepsLeft(m') < StepsLeft(m)
  {
    var c := action.call;
    if action.Enter? {
      assert Busy(m', AtSession) == Busy(m, AtSession) + {c};
      forall place: Call | place != AtSession ensures Busy(m', place) == Busy(m, place) {
      }
    } else {
      MoveLowers(m, m', c, m'.calls[c]);
    }
  }

  function Entries(actions: seq<Action>): nat {
    if actions == [] then 0
    else Entries(actions[..|actions| - 1]) + if actions[|actions| - 1].Enter? then 1 else 0
  }

  lemma {:induction false} EntriesCounted(actions: seq<Action>)
    ensures Entries(actions) == |set k: nat | k < |actions| && actions[k].Enter?|
  {
    var entered := set k: nat | k < |actions| && actions[k].Enter?;
    if actions == [] {
      assert entered == {};
    } else {
      var n, init := |actions| - 1, actions[..|actions| - 1];
      EntriesCounted(init);
      assert entered == (set k: nat | k < |init| && init[k].Enter?) + if actions[n].Enter? then {n} else {};
    }
  }

  /** All schedules are bounded: a run in which n calls enter has at most 4n steps of calls besides. With NoDeadlock,
      however the calls are scheduled, every one of them returns. */
  lemma {:induction false} SchedulesAreBounded(p: Platform, states: seq<Mount>, actions: seq<Action>)
    requires IsRun(p, states, actions)
    ensures |actions| + StepsLeft(states[|actions|]) <= 5 * Entries(actions)
    decreases |actions|
  {
    hide StepsLeft;
    if actions == [] {
      NothingLeft();
    } else {
      var n := |actions| - 1;
      SchedulesAreBounded(p, states[..n + 1], actions[..n]);
      StepLowers(p, states[n], actions[n], states[n + 1]);
    }
  }

  lemma NothingLeft()
    ensures StepsLeft(MOUNTED) == 0
  {
    hide Busy;
    NoneBusy(MOUNTED, AtSession);
    NoneBusy(MOUNTED, TearingDown);
    NoneBusy(MOUNTED, AtBackend);
    NoneBusy(MOUNTED, ShuttingDown);
  }

  // ----- Drop -----

  /** Drop has the mount to itself, ignores a failed join, and always goes on to the backend. */
  function Drop(m: Mount, joined: bool): Mount {
    var torn := if m.session then [TeardownBegins, TeardownEnds(joined)] else [];
    var stopped := if m.backend then [ShutdownBegins, ShutdownEnds] else [];
    m.(session := false, backend := false, log := m.log + torn + stopped)
  }

  /** Dropping after any calls have returned leaves both slots empty and both ended exactly once,
      whether or not an earlier join failed. */
  lemma DropCompletes(p: Platform, states: seq<Mount>, actions: seq<Action>, k: nat, joined: bool)
    requires IsRun(p, states, actions) && k < |states|
    requires forall c | c in states[k].calls :: states[k].calls[c].Returned?
    ensures var m := Drop(states[k], joined);
            && !m.session && !m.backend
            && Count(m.log, TeardownBegins) == TeardownsEnded(m.log) == 1
            && Count(m.log, ShutdownBegins) == Count(m.log, ShutdownEnds) == 1
  {
    hide Count, Busy;
    var m := states[k];
    RunsKeepInv(p, states, actions, k);
    NoneBusy(m, TearingDown);
    NoneBusy(m, ShuttingDown);
    var torn := if m.session then [TeardownBegins, TeardownEnds(joined)] else [];
    LogSnoc(m.log, TeardownBegins);
    LogSnoc(m.log + [TeardownBegins], TeardownEnds(joined));
    assert m.log + [TeardownBegins, TeardownEnds(joined)] == m.log + [TeardownBegins] + [TeardownEnds(joined)];
    assert m.log + [] == m.log;
    LogSnoc(m.log + torn, ShutdownBegins);
    LogSnoc(m.log + torn + [ShutdownBegins], ShutdownEnds);
    assert m.log + torn + [ShutdownBegins, ShutdownEnds] == m.log + torn + [ShutdownBegins] + [ShutdownEnds];
    assert m.log + torn + [] == m.log + torn;
  }

  lemma DropLog(m: Mount, joined: bool, log: seq<Event>)
    requires log == if m.session then m.log + [TeardownBegins] + [TeardownEnds(joined)] else m.log
    ensures Drop(m, joined).log == if m.backend then log + [ShutdownBegins] + [ShutdownEnds] else log
    ensures Count(log, TeardownEnds(true)) + Count(log, TeardownEnds(false))
            == TeardownsEnded(m.log) + if m.session then 1 else 0
    ensures Count(log, TeardownEnds(joined)) == Count(m.log, TeardownEnds(joined)) + if m.session then 1 else 0
  {
    hide Count;
    LogSnoc(m.log, TeardownBegins);
    LogSnoc(m.log + [TeardownBegins], TeardownEnds(joined));
  }

  /** Dropping only adds to the log, and never begins the shutdown before the teardown has ended.
      What joining said is what is logged. */
  lemma DropOrder(p: Platform, states: seq<Mount>, actions: seq<Action>, k: nat, joined: bool)
    requires IsRun(p, states, actions) && k < |states|
    requires forall c | c in states[k].calls :: states[k].calls[c].Returned?
    ensures states[k].log <= Drop(states[k], joined).log
    ensures forall i | |states[k].log| <= i < |Drop(states[k], joined).log| && Drop(states[k], joined).log[i] == ShutdownBegins ::
              TeardownsEnded(Drop(states[k], joined).log[..i]) == 1
    ensures Count(Drop(states[k], joined).log, TeardownEnds(joined))
            == Count(states[k].log, TeardownEnds(joined)) + if states[k].session then 1 else 0
  {
    hide Count, Busy;
    var m := states[k];
    RunsKeepInv(p, states, actions, k);
    NoneBusy(m, TearingDown);
    var log := if m.session then m.log + [TeardownBegins] + [TeardownEnds(joined)] else m.log;
    DropLog(m, joined, log);
    LogSnoc(log, ShutdownBegins);
    LogSnoc(log + [ShutdownBegins], ShutdownEnds);
    assert Drop(m, joined).log[..|log|] == log;
  }

  // ----- The calls as the source writes them -----

  lemma Unlocked(p: Platform, m: Mount)
    requires Inv(p, m) && forall c | c in m.calls :: m.calls[c].Returned?
    ensures m.sessionLock == {} && m.backendLock == {}
  {
    NoneBusy(m, TearingDown);
    NoneBusy(m, ShuttingDown);
  }

  /** The two slots, and the position of the mount in the transition system as it goes along. */
  class PlatformMount {
    const platform: Platform
    var session: bool
    var backend: bool
    ghost var state: Mount

    ghost predicate Valid()
      reads this
    {
      Inv(platform, state) && session == state.session && backend == state.backend
    }

    constructor (platform: Platform)
      ensures this.platform == platform && state == MOUNTED && Valid()
    {
      this.platform, session, backend, state := platform, true, true, MOUNTED;
      new;
      assert Busy(MOUNTED, TearingDown) == {} && Busy(MOUNTED, ShuttingDown) == {} && Busy(MOUNTED, Returned(FuseError)) == {};
    }

    ghost method Step(action: Action, next: Mount)
      requires Inv(platform, state) && Next(platform, state, action, next)
      modifies this`state
      ensures state == next && Inv(platform, state)
    {
      StepKeepsInv(platform, state, action, next);
      state := next;
    }

    /** `stop_backend`: what is left in the backend slot is shut down. */
    method StopBackend(ghost call: nat)
      requires Valid() && At(state, call, AtBackend) && state.backendLock == {}
      modifies this
      ensures Valid() && state.calls == old(state.calls)[call := Returned(Ok)]
      ensures !backend && session == old(session)
      ensures state.log == old(state.log) + (if old(backend) then [ShutdownBegins, ShutdownEnds] else [])
    {
      hide Inv;
      var stopping := backend;
      backend := false;
      if stopping {
        Step(TakeBackend(call), state.(backend := false, calls := state.calls[call := ShuttingDown],
                                       log := state.log + [ShutdownBegins], backendLock := {call}));
        Step(FinishShutdown(call), state.(calls := state.calls[call := Returned(Ok)],
                                          backendLock := {}, log := state.log + [ShutdownEnds]));
        assert state.log == old(state.log) + [ShutdownBegins, ShutdownEnds];
      } else {
        Step(TakeBackend(call), state.(calls := state.calls[call := Returned(Ok)]));
      }
    }

    /** The first half of `unmount`: what is left in the session slot is torn down; `joined` is what joining says.
        A failed join is an error, with the backend still running. */
    method TakeDown(ghost call: nat, joined: bool) returns (outcome: Outcome)
      requires Valid() && At(state, call, AtSession) && state.sessionLock == {} && (platform.Windows? ==> joined)
      modifies this
      ensures Valid() && !session && backend == old(backend)
      ensures outcome == if old(session) && !joined then FuseError else Ok
      ensures state.calls == old(state.calls)[call := if outcome == Ok then AtBackend else Returned(outcome)]
      ensures state.log == old(state.log) + (if old(session) then [TeardownBegins, TeardownEnds(joined)] else [])
      ensures state.backendLock == old(state.backendLock)
    {
      hide Inv;
      outcome := Ok;
      var taken := session;
      session := false;
      if taken {
        ghost var lock := if platform.Windows? then {call} else {};
        Step(TakeSession(call), state.(session := false, calls := state.calls[call := TearingDown],
                                       log := state.log + [TeardownBegins], sessionLock := lock));
        Step(FinishTeardown(call, joined),
             state.(calls := state.calls[call := if joined then AtBackend else Returned(FuseError)],
                    sessionLock := {}, log := state.log + [TeardownEnds(joined)]));
        assert state.log == old(state.log) + [TeardownBegins, TeardownEnds(joined)];
        if !joined {
          outcome := FuseError;
        }
      } else {
        Step(TakeSession(call), state.(calls := state.calls[call := AtBackend]));
      }
    }

    /** `unmount` with no other call under way. */
    method Unmount(ghost call: nat, joined: bool) returns (outcome: Outcome)
      requires Valid() && call !in state.calls && (platform.Windows? ==> joined)
      requires forall c | c in state.calls :: state.calls[c].Returned?
      modifies this
      ensures Valid() && state.calls == old(state.calls)[call := Returned(outcome)]
      ensures outcome == if old(session) && !joined then FuseError else Ok
      ensures !session && backend == (old(backend) && outcome == FuseError)
      ensures state.log == old(state.log)
                           + (if old(session) then [TeardownBegins, TeardownEnds(joined)] else [])
                           + (if old(backend) && outcome == Ok then [ShutdownBegins, ShutdownEnds] else [])
    {
      hide Inv;
      Unlocked(platform, state);
      Step(Enter(call), state.(calls := state.calls[call := AtSession]));
      outcome := TakeDown(call, joined);
      if outcome == Ok {
        StopBackend(call);
      }
    }
  }
}
