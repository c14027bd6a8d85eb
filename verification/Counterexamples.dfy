/** Concrete inputs at which the properties that hold under a condition fail without it. */
module Counterexamples {
  import opened Wrappers
  import opened Paths
  import opened Inodes
  import opened MountState
  import opened MountRuns
  import Utf16
  import Reparse
  import Timestamps
  import BackendProtocol
  import WindowsDirectory

  const A := "/a"
  const B := "/b"

  lemma TwoPaths()
    ensures Canonical("/") && Components("/") == []
    ensures Canonical(A) && Components(A) == ["a"]
    ensures Canonical(B) && Components(B) == ["b"]
    ensures !InSubtree("/", A) && !InSubtree(B, A) && !InSubtree(A, B) && InSubtree(A, A)
  {
    assert ValidName("a") && ValidName("b");
    assert Render([]) == "/";
    ComponentsOfRender([]);
    ParentOfChild("/", "a");
    ParentOfChild("/", "b");
    assert Child("/", "a") == A && Child("/", "b") == B;
    assert A + "/" != "/" && A[1] != B[1];
  }

  /** A device that holds nothing but its root. */
  const EMPTY_DEVICE := Device(map[[] := 0], 1, {})

  const EMPTY_MOUNT := MountedOn(EMPTY_DEVICE)

  lemma EmptyIsMountable()
    ensures Mountable(EMPTY_DEVICE)
  {
    assert WellPlaced(EMPTY_DEVICE, []);
  }

  // ----- Renaming -----

  function Files(count: nat): Device {
    if count == 0 then EMPTY_DEVICE
    else if count == 1 then Device(map[[] := 0, ["a"] := 1], 2, {})
    else Device(map[[] := 0, ["a"] := 1, ["b"] := 2], 3, {})
  }

  /** /a has replaced /b. */
  function Replaced(): Device { Device(map[[] := 0, ["b"] := 1], 3, {}) }

  lemma DeviceMakes()
    ensures CanMake(Files(0), ["a"]) && MakeEntry(Files(0), ["a"]) == Files(1)
    ensures CanMake(Files(1), ["b"]) && MakeEntry(Files(1), ["b"]) == Files(2)
  {
    assert ["a"][..0] == [] && ["b"][..0] == [];
  }

  lemma OnlyTheFileMoves(ds: Names)
    ensures (if ["b"] <= ds then Moved(["b"], ["a"], ds) in Files(2).entries else ds in Files(2).entries && !(["a"] <= ds))
            <==> ds == [] || ds == ["b"]
  {
    if ["b"] <= ds {
      var source := Moved(["b"], ["a"], ds);
      assert |source| == |ds| && source[0] == "a" != ["b"][0];
      assert |ds| == 1 ==> ds == ["b"] && source == ["a"];
    } else {
      assert ["a"] <= ["a"] && ["b"] <= ["b"];
    }
  }

  lemma DeviceRenames()
    ensures CanRename(Files(2), ["a"], ["b"]) && RenameEntry(Files(2), ["a"], ["b"]) == Replaced()
  {
    var d' := RenameEntry(Files(2), ["a"], ["b"]);
    DeviceCanRename();
    forall ds ensures ds in d'.entries <==> ds in Replaced().entries {
      RenamedEntries(Files(2), ["a"], ["b"], ds);
      OnlyTheFileMoves(ds);
    }
    assert Moved(["b"], ["a"], ["b"]) == ["a"];
    RenamedEntries(Files(2), ["a"], ["b"], []);
    RenamedEntries(Files(2), ["a"], ["b"], ["b"]);
    assert d'.entries == Replaced().entries;
  }

  lemma DeviceCanRename()
    ensures CanRename(Files(2), ["a"], ["b"])
  {
    assert ["b"][..0] == [] && ["a"][0] != ["b"][0];
    assert forall ds | ds in Files(2).entries :: |ds| <= 1;
  }

  lemma RenameIsStep(m: Mount, from: string, to: string, m': Mount)
    requires RenameTakesEffect(m, from, to, m')
    ensures MountState.Next(m, Callback.Rename(from, to), m')
  {
  }

  lemma ThreeSteps(a: Mount, b: Mount, c: Mount, callbacks: seq<Callback>)
    requires |callbacks| == 3 && MountState.Next(EMPTY_MOUNT, callbacks[0], a)
    requires MountState.Next(a, callbacks[1], b) && MountState.Next(b, callbacks[2], c)
    ensures MountRuns.IsRun([EMPTY_MOUNT, a, b, c], callbacks)
  {
    EmptyIsMountable();
  }

  const MAKE_AND_REPLACE := [Make(A), Make(B), Callback.Rename(A, B)]

  /** Only the second file has been given an inode. */
  function OneObserved(d: Device): Mount {
    Mount(d, Table(3, map[1 := "/", 2 := B], map["/" := 1, B := 2]), map[1 := 0, 2 := 2], {}, {})
  }

  lemma OneObservedSteps()
    ensures MountState.Next(EMPTY_MOUNT, Make(A), EMPTY_MOUNT.(device := Files(1)))
    ensures MountState.Next(EMPTY_MOUNT.(device := Files(1)), Make(B), OneObserved(Files(2)))
    ensures Identity(OneObserved(Files(2)))
  {
    TwoPaths();
    DeviceMakes();
    EmptyIsMountable();
    MountedIdentity(EMPTY_DEVICE);
    var m1 := EMPTY_MOUNT.(device := Files(1));
    MadeKeepsIdentity(EMPTY_MOUNT, A);
    MadeKeepsIdentity(m1, B);
    ObservedKeepsIdentity(Made(m1, B), B);
    assert Observed(Made(m1, B), B) == OneObserved(Files(2));
  }

  lemma NothingMoves(t: Table)
    requires Moves(t, A) == map[]
    ensures Inodes.Next(t, Operation.Rename(A, B), t)
  {
    assert Enumerates([], Moves(t, A).Keys);
    assert RunMoves(t, A, B, Moves(t, A), []) == t;
  }

  /** A rename whose source was never looked up: /a is made but its stat is refused, /b is made and given inode 2, and
      after the rename of /a over /b inode 2, issued for the old /b, stands for the entry that was moved there. */
  lemma UnknownSourceRun()
    ensures MountRuns.IsRun([EMPTY_MOUNT, EMPTY_MOUNT.(device := Files(1)), OneObserved(Files(2)), OneObserved(Replaced())], MAKE_AND_REPLACE)
    ensures Identity(OneObserved(Files(2))) && RenameTakesEffect(OneObserved(Files(2)), A, B, OneObserved(Replaced()))
    ensures !Identity(OneObserved(Replaced()))
  {
    hide Identity, MountState.Next, RenameTakesEffect, Files, Replaced;
    OneObservedSteps();
    OneRenamed();
    RenameIsStep(OneObserved(Files(2)), A, B, OneObserved(Replaced()));
    RenameKeepsIdentity(OneObserved(Files(2)), A, B, OneObserved(Replaced()));
    ThreeSteps(EMPTY_MOUNT.(device := Files(1)), OneObserved(Files(2)), OneObserved(Replaced()), MAKE_AND_REPLACE);
  }

  lemma OneRenamed()
    ensures RenameTakesEffect(OneObserved(Files(2)), A, B, OneObserved(Replaced()))
  {
    hide CanRename, RenameEntry, Files, Replaced;
    TwoPaths();
    DeviceRenames();
    NothingMoves(OneObserved(Files(2)).table);
  }

  function FirstObserved(): Mount {
    Mount(Files(1), Table(3, map[1 := "/", 2 := A], map["/" := 1, A := 2]), map[1 := 0, 2 := 1], {}, {})
  }

  /** Both files have been looked up, as inodes 2 and 3. */
  function BothObserved(): Mount {
    Mount(Files(2), Table(4, map[1 := "/", 2 := A, 3 := B], map["/" := 1, A := 2, B := 3]), map[1 := 0, 2 := 1, 3 := 2], {}, {})
  }

  function BothReplaced(): Mount {
    Mount(Replaced(), Table(4, map[1 := "/", 2 := B, 3 := B], map["/" := 1, B := 2]), map[1 := 0, 2 := 1, 3 := 2], {}, {})
  }

  lemma BothObservedSteps()
    ensures MountState.Next(EMPTY_MOUNT, Make(A), FirstObserved())
    ensures MountState.Next(FirstObserved(), Make(B), BothObserved())
  {
    TwoPaths();
    DeviceMakes();
    assert Observed(Made(EMPTY_MOUNT, A), A) == FirstObserved();
    assert Observed(Made(FirstObserved(), B), B) == BothObserved();
  }

  lemma OneMoves(t: Table, t': Table)
    requires Moves(t, A) == map[A := 2] && t' == MoveOne(t, A, B, A, 2)
    ensures Inodes.Next(t, Operation.Rename(A, B), t')
  {
    assert [A][..0] == [];
    assert RunMoves(t, A, B, Moves(t, A), [A][..0]) == t;
    assert Enumerates([A], Moves(t, A).Keys);
  }

  lemma BothRenamed()
    ensures RenameTakesEffect(BothObserved(), A, B, BothReplaced())
  {
    hide CanRename, RenameEntry, Files, Replaced;
    TwoPaths();
    DeviceRenames();
    TableRenames();
  }

  lemma BothMoves()
    ensures Moves(BothObserved().table, A) == map[A := 2]
  {
    hide Canonical, Components;
    TwoPaths();
  }

  /** One tracked file replaces another, for any three different paths. */
  lemma FileReplaced(root: string, from: string, to: string)
    requires root != from && root != to && from != to
    ensures MoveOne(Table(4, map[1 := root, 2 := from, 3 := to], map[root := 1, from := 2, to := 3]), from, to, from, 2)
            == Table(4, map[1 := root, 2 := to, 3 := to], map[root := 1, to := 2])
  {
    assert Image(from, to, from) == to;
  }

  lemma TableRenames()
    ensures Inodes.Next(BothObserved().table, Operation.Rename(A, B), BothReplaced().table)
  {
    BothMoves();
    TwoPaths();
    assert A != "/" && B != "/";
    FileReplaced("/", A, B);
    OneMoves(BothObserved().table, BothReplaced().table);
  }

  /** A careful run that leaves a number behind: with both files looked up, the rename of /a over /b keeps every tracked
      path on its entry, but inode 3, issued for the old /b, now leads to the entry of inode 2. */
  lemma StaleNumberRun()
    ensures MountRuns.IsRun([EMPTY_MOUNT, FirstObserved(), BothObserved(), BothReplaced()], MAKE_AND_REPLACE)
    ensures Identity(BothObserved()) && RenameTakesEffect(BothObserved(), A, B, BothReplaced())
    ensures Identity(BothReplaced()) && !Exact(BothReplaced().table) && !Reaches(BothReplaced(), 3)
    ensures BothReplaced().table.byInode[3] == B && Components(B) == ["b"]
    ensures BothReplaced().device.entries[["b"]] == BothReplaced().issuedFor[2] != BothReplaced().issuedFor[3]
  {
    hide Identity, MountState.Next, RenameTakesEffect;
    TwoPaths();
    BothObservedSteps();
    BothRenamed();
    RenameIsStep(BothObserved(), A, B, BothReplaced());
    var states := [EMPTY_MOUNT, FirstObserved(), BothObserved(), BothReplaced()];
    ThreeSteps(FirstObserved(), BothObserved(), BothReplaced(), MAKE_AND_REPLACE);
    RunIsCareful(states);
    WholeRunIdentity(states, MAKE_AND_REPLACE, 2);
    WholeRunIdentity(states, MAKE_AND_REPLACE, 3);
    NumberReachesItsEntry(BothReplaced(), 3);
  }

  lemma RunIsCareful(states: seq<Mount>)
    requires MountRuns.IsRun(states, MAKE_AND_REPLACE) && A in states[2].table.byPath
    ensures CarefulRun(states, MAKE_AND_REPLACE)
  {
  }

  /** Renaming /a to /a/b while both are tracked: the result depends on the order of the hash map. */
  lemma OrderMatters()
    ensures var t := Track(Track(FRESH_TABLE, A), "/a/b"); Consistent(t) && !OrderIndependent(t, A, "/a/b")
  {
    TrackKeeps(FRESH_TABLE, A);
    TrackKeeps(Track(FRESH_TABLE, A), "/a/b");
    var t := Track(Track(FRESH_TABLE, A), "/a/b");
    assert A + "/" == "/a/" <= "/a/b";
    assert Image(A, "/a/b", A) == "/a/b";
    assert A in Moves(t, A) && "/a/b" in Moves(t, A);
    EntangledOrdersDiffer(t, A, "/a/b", A);
  }

  // ----- Descriptors -----

  /** A release whose Close is refused: the kernel holds no handle, and the descriptor is still open. */
  lemma RefusedCloseRun() returns (states: seq<Mount>, callbacks: seq<Callback>)
    ensures MountRuns.IsRun(states, callbacks) && callbacks == [Create(A, 7), Release(7)]
    ensures CloseRefused(states[1], callbacks[1], states[2])
    ensures states[2].handles == {} && states[2].device.descriptors == {7}
  {
    TwoPaths();
    EmptyIsMountable();
    var made := MakeEntry(EMPTY_DEVICE, ["a"]);
    var mid := EMPTY_MOUNT.(device := made.(descriptors := {7}));
    assert ["a"][..0] == [];
    assert Opened(EMPTY_MOUNT, A, 7, mid);
    var m1 := Granted(Observed(mid, A), 7);
    var m2 := Closed(m1, 7, false).(handles := {});
    assert m1.handles - {7} == {};
    states, callbacks := [EMPTY_MOUNT, m1, m2], [Create(A, 7), Release(7)];
    assert MountState.Next(states[0], callbacks[0], states[1]);
    assert MountState.Next(states[1], callbacks[1], states[2]);
  }

  // ----- Paths -----

  /** Below the mount's own root the table finds only the root, but the device finds everything. */
  lemma RootSubtreeDiffers()
    ensures !InSubtree(A, "/") && InSubtree(DevicePath(B, A), DevicePath(B, "/"))
  {
    assert DevicePath(B, "/") == B;
    assert TrimEndSlashes(B) == B;
    assert DevicePath(B, A) == B + A;
    assert B + "/" <= B + A;
    assert ("/" + "/")[1] != A[1];
  }

  // ----- Encodings -----

  lemma {:induction false} PlainLength(s: string)
    requires forall c | c in s :: c as int < 0x1_0000
    ensures |Utf16.Encode(s)| == |s|
  {
    if s != "" {
      assert s[0] in s;
      assert forall c | c in s[1..] :: c in s;
      PlainLength(s[1..]);
    }
  }

  /** A target of 32768 characters is written without an error and read back as the empty target. */
  lemma LongTargetIsLost(tail: seq<Reparse.Byte>)
    ensures var target := seq(0x8000, _ => 'x');
            Reparse.Parse(Reparse.Layout(Reparse.Wide(target)) + tail) == Ok("") && target != ""
  {
    var target: string := seq(0x8000, _ => 'x');
    hide Utf16.Encode, Utf16.DecodeLossy, Reparse.Layout, Reparse.Parse;
    assert Utf16.Replace(target, '/', '\\') == target;
    PlainLength(target);
    var wide := Reparse.Wide(target);
    Reparse.ParseOfLayout(wide, tail);
    NothingDecodes(wide + wide);
  }

  lemma NothingDecodes(units: seq<Utf16.Unit>)
    ensures Utf16.Replace(Utf16.DecodeLossy(units[0..0]), '\\', '/') == ""
  {
    assert units[0..0] == [];
  }

  /** For 16381 units the data-length field has wrapped to zero. */
  lemma DataLengthWraps(wide: seq<Utf16.Unit>)
    requires |wide| == 16381
    ensures Reparse.U16At(Reparse.Header(|wide|), 4) == 0 && Reparse.TotalBytes(wide) - 8 == 0x1_0000
  {
    hide Reparse.U16At, Reparse.Header, Reparse.AsU16;
    Reparse.HeaderFields(|wide|);
    WrapsToZero(12 + 4 * |wide|);
  }

  lemma WrapsToZero(n: nat)
    requires n == 0x1_0000
    ensures Reparse.AsU16(n) == 0
  {
  }

  /** A write time before 1970 reads back as 1970, and the greatest of all as the year 2554. */
  lemma TimesAreClamped(stored: string)
    ensures Timestamps.WriteTime(Timestamps.SetWriteTime(stored, 1, 1), 1) == Timestamps.WINDOWS_EPOCH_TICKS
    ensures Timestamps.WriteTime(Timestamps.SetWriteTime(stored, Timestamps.U64_MAX, 1), 1) == 300_912_176_737_095_516
  {
    hide Timestamps.WriteTime, Timestamps.SetWriteTime;
    Timestamps.SetThenRead(stored, 1, 1);
    Timestamps.SetThenRead(stored, Timestamps.U64_MAX, 1);
  }

  /** 255 units fit a directory entry on Windows, and 256 do not. */
  lemma LongestName()
    ensures WindowsDirectory.NameFits(seq(255, _ => 'x')) && !WindowsDirectory.NameFits(seq(256, _ => 'x'))
  {
    PlainLength(seq(255, _ => 'x'));
    PlainLength(seq(256, _ => 'x'));
  }

  // ----- Backend -----

  /** A device that counts the commands it has executed and answers with the count. */
  function Counting(count: nat, command: string): (nat, nat) { (count + 1, count + 1) }

  type Scene = BackendProtocol.System<nat, string, nat>

  const X: BackendProtocol.Message<string> := BackendProtocol.Command(1, "x")
  const Y: BackendProtocol.Message<string> := BackendProtocol.Command(2, "y")
  const HALT: BackendProtocol.Message<string> := BackendProtocol.Shutdown

  function Asked(): Scene {
    BackendProtocol.Start(0).(
      queue := [X], history := [X], channels := map[1 := BackendProtocol.Channel([], true)],
      clients := map[1 := BackendProtocol.Waiting], submitted := map[1 := "x"], positions := map[1 := 0])
  }

  function Halting(): Scene {
    Asked().(queue := [X, HALT], history := [X, HALT], handle := BackendProtocol.Joining)
  }

  function AskedLate(): Scene {
    Halting().(
      queue := [X, HALT, Y], history := [X, HALT, Y],
      channels := map[1 := BackendProtocol.Channel([], true), 2 := BackendProtocol.Channel([], true)],
      clients := map[1 := BackendProtocol.Waiting, 2 := BackendProtocol.Waiting],
      submitted := map[1 := "x", 2 := "y"], positions := map[1 := 0, 2 := 2])
  }

  function Taken(): Scene {
    AskedLate().(worker := BackendProtocol.Serving(1, "x"), queue := [HALT, Y], taken := 1)
  }

  function Done(): Scene { Taken().(device := 1, worker := BackendProtocol.Replying(1, 1)) }

  function Sent(): Scene {
    Done().(worker := BackendProtocol.Ready,
            channels := map[1 := BackendProtocol.Channel([1], false), 2 := BackendProtocol.Channel([], true)])
  }

  function Left(): Scene {
    Sent().(worker := BackendProtocol.Gone, queue := [],
            channels := map[1 := BackendProtocol.Channel([1], false), 2 := BackendProtocol.Channel([], false)])
  }

  function FirstTold(): Scene {
    Left().(channels := map[1 := BackendProtocol.Channel([], false), 2 := BackendProtocol.Channel([], false)],
            clients := map[1 := BackendProtocol.Answered(1), 2 := BackendProtocol.Waiting])
  }

  function BothTold(): Scene {
    FirstTold().(clients := map[1 := BackendProtocol.Answered(1), 2 := BackendProtocol.Stopped])
  }

  function Over(): Scene { BothTold().(handle := BackendProtocol.Joined) }

  lemma RequestsAreSent()
    ensures BackendProtocol.Next(Counting, BackendProtocol.Start(0), BackendProtocol.Submit(1, "x"), Asked())
    ensures BackendProtocol.Next(Counting, Asked(), BackendProtocol.Stop, Halting())
    ensures BackendProtocol.Next(Counting, Halting(), BackendProtocol.Submit(2, "y"), AskedLate())
  {
    assert [] + [X] == [X] && [X] + [HALT] == [X, HALT] && [X, HALT] + [Y] == [X, HALT, Y];
  }

  lemma FirstIsServed()
    ensures BackendProtocol.Next(Counting, AskedLate(), BackendProtocol.Receive, Taken())
    ensures BackendProtocol.Next(Counting, Taken(), BackendProtocol.Execute, Done())
    ensures BackendProtocol.Next(Counting, Done(), BackendProtocol.Reply, Sent())
  {
    assert [X, HALT, Y][1..] == [HALT, Y] && [] + [1] == [1];
  }

  lemma WorkerStops()
    ensures BackendProtocol.Next(Counting, Sent(), BackendProtocol.Receive, Left())
  {
    assert [HALT, Y][1..] == [Y] && [Y][0] == Y;
    assert BackendProtocol.QueuedIds([Y]) == {2};
  }

  lemma OutcomesArrive()
    ensures BackendProtocol.Next(Counting, Left(), BackendProtocol.Collect(1), FirstTold())
    ensures BackendProtocol.Next(Counting, FirstTold(), BackendProtocol.Collect(2), BothTold())
    ensures BackendProtocol.Next(Counting, BothTold(), BackendProtocol.Join, Over())
  {
    assert [1][1..] == [];
  }

  lemma OverIsOver()
    ensures Over().clients == map[1 := BackendProtocol.Answered(1), 2 := BackendProtocol.Stopped]
    ensures Over().worker.Gone? && Over().handle.Joined? && Over().device == 1
  {
  }

  /** A request, a shutdown, and another request: the first is executed and answered, the second is told that the backend
      has stopped, and the join of the shutdown returns. */
  lemma ShutdownBetween() returns (states: seq<Scene>, actions: seq<BackendProtocol.Action<string>>)
    ensures BackendProtocol.IsRun(Counting, 0, states, actions) && |actions| == 10
    ensures actions[..3] == [BackendProtocol.Submit(1, "x"), BackendProtocol.Stop, BackendProtocol.Submit(2, "y")]
    ensures actions[9] == BackendProtocol.Join
    ensures states[10].clients == map[1 := BackendProtocol.Answered(1), 2 := BackendProtocol.Stopped]
    ensures states[10].worker.Gone? && states[10].handle.Joined? && states[10].device == 1
  {
    hide BackendProtocol.Next, BackendProtocol.Start, Asked, Halting, AskedLate, Taken, Done, Sent, Left, FirstTold, BothTold, Over;
    OverIsOver();
    RequestsAreSent();
    FirstIsServed();
    WorkerStops();
    OutcomesArrive();
    states := [BackendProtocol.Start(0), Asked(), Halting(), AskedLate(), Taken(), Done(), Sent(), Left(), FirstTold(),
               BothTold(), Over()];
    actions := [BackendProtocol.Submit(1, "x"), BackendProtocol.Stop, BackendProtocol.Submit(2, "y"), BackendProtocol.Receive,
                BackendProtocol.Execute, BackendProtocol.Reply, BackendProtocol.Receive, BackendProtocol.Collect(1),
                BackendProtocol.Collect(2), BackendProtocol.Join];
  }

  // ----- Removing -----

  function Emptied(): Mount {
    MountedOn(EMPTY_DEVICE).(device := EMPTY_DEVICE.(nextId := 2), table := FRESH_TABLE.(next := 3),
                             issuedFor := FirstObserved().issuedFor)
  }

  lemma EntryRemoved()
    ensures CanRemove(Files(1), ["a"]) && RemoveEntry(Files(1), ["a"]) == Emptied().device
  {
    assert ["a"] <= ["a"] && !(["a"] <= []);
    assert RemoveEntry(Files(1), ["a"]).entries == map[[] := 0];
  }

  lemma NumberRemoved()
    ensures IsRemoved(FirstObserved().table, Emptied().table, A)
  {
    hide Canonical, Components;
    TwoPaths();
    var t := FirstObserved().table;
    assert Moves(t, A) == map[A := 2];
    OneLessPath("/", A);
  }

  lemma OneLessPath(root: string, path: string)
    requires root != path
    ensures map[root := 1] == map[root := 1, path := 2] - map[path := 2].Keys
    ensures map[1 := root] == map[1 := root, 2 := path] - map[path := 2].Values
  {
    assert map[path := 2][path] == 2;
  }

  /** A file that is made, looked up and removed: its entry and its inode are gone, and nothing else is. */
  lemma RemovedRun()
    ensures MountRuns.IsRun([EMPTY_MOUNT, FirstObserved(), Emptied()], [Make(A), Unlink(A)])
    ensures Emptied().device.entries == EMPTY_DEVICE.entries && Emptied().table == FRESH_TABLE.(next := 3)
  {
    hide RemoveEntry, IsRemoved;
    TwoPaths();
    EmptyIsMountable();
    BothObservedSteps();
    EntryRemoved();
    NumberRemoved();
    assert MountState.Next(FirstObserved(), Unlink(A), Emptied());
  }
}
