/** Whole runs of FUSE callbacks: entries keep their inode numbers, and descriptors are conserved. */
module MountRuns {
  import opened Paths
  import opened Inodes
  import opened MountState

  /** A run starts from whatever the device holds, which then changes only through the mount. */
  ghost predicate IsRun(states: seq<Mount>, callbacks: seq<Callback>) {
    && |states| == |callbacks| + 1
    && Mountable(states[0].device) && states[0] == MountedOn(states[0].device)
    && forall k | 0 <= k < |callbacks| :: MountState.Next(states[k], callbacks[k], states[k + 1])
  }

  /** Every rename of the run has a source that was looked up, as the kernel does,
      or replaces nothing that was. */
  ghost predicate CarefulRun(states: seq<Mount>, callbacks: seq<Callback>)
    requires IsRun(states, callbacks)
  {
    forall k | 0 <= k < |callbacks| :: Careful(states[k], callbacks[k], states[k + 1])
  }

  lemma MountedIdentity(d: Device)
    requires Mountable(d)
    ensures Identity(MountedOn(d)) && Conserved(MountedOn(d))
  {
    var m := MountedOn(d);
    ComponentsOfRender([]);
    assert Render([]) == "/";
    assert WellPlaced(d, []);
    assert TracksEntry(m, "/");
    forall ds, i | ds in m.device.entries && i in m.issuedFor ensures EntryTracked(m, ds, i) {
      assert d.entries[ds] == d.entries[[]] ==> ds == [];
    }
  }

  lemma CreateKeeps(m: Mount, path: string, descriptor: nat, m': Mount)
    requires Identity(m) && MountState.Next(m, Create(path, descriptor), m')
    ensures Identity(m') && RecordKept(m, m')
  {
    hide Identity, Observed;
    if m' != m {
      var mid :| Opened(m, path, descriptor, mid)
        && (m' == Granted(Observed(mid, path), descriptor)
            || m' == Closed(mid, descriptor, true) || m' == Closed(mid, descriptor, false));
      OpenedKeepsIdentity(m, path, descriptor, mid);
      ObservedKeepsIdentity(mid, path);
      if m' == Granted(Observed(mid, path), descriptor) {
        IdentityIgnoresDescriptors(Observed(mid, path), m');
      } else {
        IdentityIgnoresDescriptors(mid, m');
      }
    }
  }

  lemma OpenKeeps(m: Mount, path: string, descriptor: nat, m': Mount)
    requires Identity(m) && MountState.Next(m, Open(path, descriptor), m')
    ensures Identity(m') && RecordKept(m, m')
  {
    if m' != m {
      var mid :| Opened(m, path, descriptor, mid) && m' == Granted(mid, descriptor);
      OpenedKeepsIdentity(m, path, descriptor, mid);
      IdentityIgnoresDescriptors(mid, m');
    }
  }

  /** Every callback keeps tracked paths on their own entries. */
  lemma StepKeepsIdentity(m: Mount, callback: Callback, m': Mount)
    requires Identity(m) && MountState.Next(m, callback, m') && Careful(m, callback, m')
    ensures Identity(m') && RecordKept(m, m')
  {
    if m' == m {
      return;
    }
    match callback
    case Lookup(path) => ObservedKeepsIdentity(m, path);
    case Make(path) =>
      MadeKeepsIdentity(m, path);
      ObservedKeepsIdentity(Made(m, path), path);
    case Create(path, descriptor) => CreateKeeps(m, path, descriptor, m');
    case List(paths) => ObservedAllKeepsIdentity(m, paths);
    case Unlink(path) => UnlinkKeepsIdentity(m, path, m');
    case Rename(from, to) => KnownSourceKeepsIdentity(m, from, to, m');
    case Open(path, descriptor) => OpenKeeps(m, path, descriptor, m');
    case Release(descriptor) => IdentityIgnoresDescriptors(m, m');
  }

  /** In every state of every careful run, each tracked path exists on the device and its inode is the one
      issued for that same entry, however often it or an ancestor was renamed; and each entry that was
      given an inode is still tracked under it. */
  lemma {:induction false} WholeRunIdentity(states: seq<Mount>, callbacks: seq<Callback>, k: nat)
    requires IsRun(states, callbacks) && CarefulRun(states, callbacks) && k < |states|
    ensures Identity(states[k])
  {
    hide Identity, MountState.Next, Mountable, MountedOn;
    if k == 0 {
      MountedIdentity(states[0].device);
    } else {
      WholeRunIdentity(states, callbacks, k - 1);
      StepKeepsIdentity(states[k - 1], callbacks[k - 1], states[k]);
    }
  }

  /** Careful is exactly what a run has to be: if any rename is not, identity is lost there and then. */
  lemma IdentityIffCareful(states: seq<Mount>, callbacks: seq<Callback>)
    requires IsRun(states, callbacks)
    ensures (forall k | 0 <= k < |states| :: Identity(states[k])) <==> CarefulRun(states, callbacks)
  {
    hide Identity, MountState.Next;
    if CarefulRun(states, callbacks) {
      forall k | 0 <= k < |states| ensures Identity(states[k]) {
        WholeRunIdentity(states, callbacks, k);
      }
    } else {
      var k :| 0 <= k < |callbacks| && !Careful(states[k], callbacks[k], states[k + 1]);
      if Identity(states[k]) {
        CarelessLoses(states[k], callbacks[k], states[k + 1]);
      }
    }
  }

  lemma CarelessLoses(m: Mount, callback: Callback, m': Mount)
    requires Identity(m) && MountState.Next(m, callback, m') && !Careful(m, callback, m')
    ensures !Identity(m')
  {
    hide Identity;
    RenameKeepsIdentity(m, callback.from, callback.to, m');
  }

  lemma RecordKeptOnce(states: seq<Mount>, callbacks: seq<Callback>, k: nat)
    requires IsRun(states, callbacks) && CarefulRun(states, callbacks) && k < |callbacks|
    ensures RecordKept(states[k], states[k + 1])
  {
    WholeRunIdentity(states, callbacks, k);
    StepKeepsIdentity(states[k], callbacks[k], states[k + 1]);
  }

  lemma RecordKeptHere(m: Mount)
    ensures RecordKept(m, m)
  {
  }

  lemma RecordKeptTwice(a: Mount, b: Mount, c: Mount)
    requires RecordKept(a, b) && RecordKept(b, c)
    ensures RecordKept(a, c)
  {
  }

  lemma {:induction false} RecordKeptOverRuns(states: seq<Mount>, callbacks: seq<Callback>, j: nat, k: nat)
    requires IsRun(states, callbacks) && CarefulRun(states, callbacks) && j <= k < |states|
    ensures RecordKept(states[j], states[k])
    decreases k - j
  {
    hide RecordKept, MountState.Next, Mountable, MountedOn, Careful;
    if j == k {
      RecordKeptHere(states[j]);
    } else {
      RecordKeptOverRuns(states, callbacks, j, k - 1);
      RecordKeptOnce(states, callbacks, k - 1);
      RecordKeptTwice(states[j], states[k - 1], states[k]);
    }
  }

  /** Once an entry has been given an inode number, every later lookup of that entry, at whatever path it has
      by then, yields the same number, and a lookup of any other entry yields a different one. */
  lemma EntryKeepsItsNumber(states: seq<Mount>, callbacks: seq<Callback>, j: nat, k: nat, inode: nat, names: Names)
    requires IsRun(states, callbacks) && CarefulRun(states, callbacks) && j <= k < |states|
    requires inode in states[j].issuedFor && names in states[k].device.entries
    ensures InodeOf(states[k].table, Render(names)) == inode
            <==> states[k].device.entries[names] == states[j].issuedFor[inode]
  {
    var m := states[k];
    WholeRunIdentity(states, callbacks, k);
    RecordKeptOverRuns(states, callbacks, j, k);
    assert EntryTracked(m, names, inode);
    assert WellPlaced(m.device, names);
    ComponentsOfRender(names);
    if Render(names) in m.table.byPath {
      assert TracksEntry(m, Render(names));
    }
  }

  // ----- Descriptors -----

  /** The callback gave up a descriptor that stayed open on the device: a release, or a create whose stat failed,
      had its Close refused. */
  ghost predicate CloseRefused(m: Mount, callback: Callback, m': Mount) {
    match callback
    case Release(d) => d in m.handles && d !in m'.handles && d in m'.device.descriptors
    case Create(_, d) => d !in m.device.descriptors && d in m'.device.descriptors && d !in m'.handles
    case _ => false
  }

  lemma CreateConserves(m: Mount, path: string, descriptor: nat, m': Mount)
    requires Conserved(m) && MountState.Next(m, Create(path, descriptor), m') && m' != m
    ensures Conserved(m')
    ensures if CloseRefused(m, Create(path, descriptor), m') then m'.leaked == m.leaked + {descriptor} else m'.leaked == m.leaked
  {
    var mid :| Opened(m, path, descriptor, mid)
      && (m' == Granted(Observed(mid, path), descriptor)
          || m' == Closed(mid, descriptor, true) || m' == Closed(mid, descriptor, false));
  }

  /** Every callback conserves descriptors, and those without a handle grow exactly when a Close is refused. */
  lemma StepConservesDescriptors(m: Mount, callback: Callback, m': Mount)
    requires Conserved(m) && MountState.Next(m, callback, m')
    ensures Conserved(m') && m.leaked <= m'.leaked
    ensures m'.leaked != m.leaked <==> CloseRefused(m, callback, m')
  {
    if m' == m {
      return;
    }
    match callback
    case Lookup(path) =>
    case Make(path) =>
    case Create(path, descriptor) => CreateConserves(m, path, descriptor, m');
    case List(paths) =>
    case Unlink(path) =>
    case Rename(from, to) =>
    case Open(path, descriptor) =>
      var mid :| Opened(m, path, descriptor, mid) && m' == Granted(mid, descriptor);
    case Release(descriptor) =>
      var accepted: bool :| m' == Closed(m, descriptor, accepted).(handles := m.handles - {descriptor});
  }

  /** In every reachable state the descriptors open on the device are exactly the handles the kernel holds, if and
      only if no callback of the run so far had its Close refused. In any case no handle is missing on the device. */
  lemma {:induction false} DescriptorsConserved(states: seq<Mount>, callbacks: seq<Callback>, k: nat)
    requires IsRun(states, callbacks) && k < |states|
    ensures Conserved(states[k])
    ensures states[k].device.descriptors == states[k].handles
            <==> forall j | 0 <= j < k :: !CloseRefused(states[j], callbacks[j], states[j + 1])
  {
    hide CloseRefused, Conserved, MountState.Next, Mountable;
    if k == 0 {
      MountedIdentity(states[0].device);
    } else {
      DescriptorsConserved(states, callbacks, k - 1);
      StepConservesDescriptors(states[k - 1], callbacks[k - 1], states[k]);
      HandlesAreAll(states[k - 1]);
      assert (forall j | 0 <= j < k :: !CloseRefused(states[j], callbacks[j], states[j + 1])) <==>
             (forall j | 0 <= j < k - 1 :: !CloseRefused(states[j], callbacks[j], states[j + 1]))
             && !CloseRefused(states[k - 1], callbacks[k - 1], states[k]);
    }
    HandlesAreAll(states[k]);
  }

  /** Without a new handle, nothing more is open exactly if nothing more was left open. */
  lemma NothingLeftOpen(m: Mount, callback: Callback, m': Mount)
    requires Conserved(m) && MountState.Next(m, callback, m')
    ensures Conserved(m')
    ensures m'.handles == m.handles ==> (m'.device.descriptors == m.device.descriptors <==> m'.leaked == m.leaked)
  {
    StepConservesDescriptors(m, callback, m');
    assert m.leaked == m.device.descriptors - m.handles && m'.leaked == m'.device.descriptors - m'.handles;
  }

  lemma HandlesAreAll(m: Mount)
    requires Conserved(m)
    ensures m.device.descriptors == m.handles <==> m.leaked == {}
  {
    if d :| d in m.leaked {
      assert d !in m.handles && d in m.handles + m.leaked;
    }
  }
}
