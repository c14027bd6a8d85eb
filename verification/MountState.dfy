/** The mount as a transition system (src/filesystem.rs): a device tree whose entries have identities,
    the inode table, and the open descriptors. Each FUSE callback is one atomic step. */
module MountState {
  import opened Splitting
  import opened Paths
  import opened Inodes

  /** Directory entries by the names leading to them, each with an identity never given out twice.
      A hard link is an entry of its own. */
  datatype Device = Device(entries: map<Names, nat>, nextId: nat, descriptors: set<nat>)

  /** `issuedFor` records the entry each inode number was first issued for; `handles` are the descriptors
      the kernel holds; `leaked` are those whose Close the device refused. */
  datatype Mount = Mount(device: Device, table: Table, issuedFor: map<nat, nat>, handles: set<nat>, leaked: set<nat>)

  // ----- The device -----

  predicate HasParent(d: Device, names: Names) {
    names != [] && names[..|names| - 1] in d.entries
  }

  predicate CanMake(d: Device, names: Names) {
    HasParent(d, names) && names !in d.entries
  }

  function MakeEntry(d: Device, names: Names): Device {
    d.(entries := d.entries[names := d.nextId], nextId := d.nextId + 1)
  }

  predicate CanRemove(d: Device, names: Names) {
    names != [] && names in d.entries
  }

  function RemoveEntry(d: Device, names: Names): Device {
    d.(entries := map ds | ds in d.entries && !(names <= ds) :: d.entries[ds])
  }

  /** A device refuses to move an entry below itself or over a directory that is not empty. */
  predicate CanRename(d: Device, from: Names, to: Names) {
    && from != [] && from in d.entries && HasParent(d, to)
    && (from == to || (!(from <= to) && forall ds | ds in d.entries :: to <= ds ==> ds == to))
  }

  function Moved(from: Names, to: Names, names: Names): Names
    requires from <= names
  {
    to + names[|from|..]
  }

  function RenameEntry(d: Device, from: Names, to: Names): Device {
    var kept := set ds | ds in d.entries && !(from <= ds) && !(to <= ds);
    var moved := set ds | ds in d.entries && from <= ds :: Moved(from, to, ds);
    d.(entries := map ds | ds in kept + moved ::
         if to <= ds && Moved(to, from, ds) in d.entries then d.entries[Moved(to, from, ds)]
         else if ds in d.entries then d.entries[ds] else d.nextId)
  }

  ghost predicate WellPlaced(d: Device, names: Names)
    requires names in d.entries
  {
    ValidNames(names) && d.entries[names] < d.nextId && (names == [] || HasParent(d, names))
  }

  ghost predicate Tree(d: Device) {
    && [] in d.entries
    && (forall ds | ds in d.entries :: WellPlaced(d, ds))
    && (forall a, b | a in d.entries && b in d.entries && d.entries[a] == d.entries[b] :: a == b)
  }

  /** What a device may hold when it is mounted: any tree at all, with nothing open yet in the new session. */
  ghost predicate Mountable(d: Device) { Tree(d) && d.descriptors == {} }

  /** The mount as it starts on such a device: only the root has an inode. */
  function MountedOn(d: Device): Mount
    requires [] in d.entries
  {
    Mount(d, FRESH_TABLE, map[ROOT := d.entries[[]]], {}, {})
  }

  predicate Exists(d: Device, path: string) { Components(path) in d.entries }

  // ----- What every callback keeps -----

  /** A tracked path names a device entry, and its inode is the one issued for that very entry. */
  ghost predicate TracksEntry(m: Mount, path: string)
    requires path in m.table.byPath
  {
    && Canonical(path) && Exists(m.device, path)
    && m.table.byPath[path] in m.issuedFor
    && m.issuedFor[m.table.byPath[path]] == m.device.entries[Components(path)]
  }

  /** An entry that has been given an inode is tracked under it wherever it now is. */
  ghost predicate EntryTracked(m: Mount, names: Names, inode: nat)
    requires names in m.device.entries && inode in m.issuedFor
  {
    m.issuedFor[inode] == m.device.entries[names] ==>
      Render(names) in m.table.byPath && m.table.byPath[Render(names)] == inode
  }

  ghost predicate Identity(m: Mount) {
    && Tree(m.device)
    && Consistent(m.table)
    && (forall i | i in m.table.byInode :: Canonical(m.table.byInode[i]) && i in m.issuedFor)
    && (forall i | i in m.issuedFor :: i < m.table.next && m.issuedFor[i] < m.device.nextId)
    && (forall p | p in m.table.byPath :: TracksEntry(m, p))
    && (forall ds, i | ds in m.device.entries && i in m.issuedFor :: EntryTracked(m, ds, i))
  }

  ghost predicate Conserved(m: Mount) {
    m.device.descriptors == m.handles + m.leaked && m.handles !! m.leaked
  }

  // ----- The callbacks -----

  datatype Callback =
    | Lookup(path: string)
    | Make(path: string)                 // mkdir, symlink, link
    | Create(path: string, descriptor: nat)
    | List(paths: seq<string>)           // readdir
    | Unlink(path: string)               // unlink, rmdir
    | Rename(from: string, to: string)
    | Open(path: string, descriptor: nat)
    | Release(descriptor: nat)

  /** The table is asked for the inode of an existing path. */
  function Observed(m: Mount, path: string): Mount
    requires Exists(m.device, path)
  {
    m.(table := Track(m.table, path),
       issuedFor := if path in m.table.byPath then m.issuedFor
                    else m.issuedFor[m.table.next := m.device.entries[Components(path)]])
  }

  function Made(m: Mount, path: string): Mount {
    m.(device := MakeEntry(m.device, Components(path)))
  }

  function ObservedAll(m: Mount, paths: seq<string>): (m': Mount)
    requires forall i | 0 <= i < |paths| :: Exists(m.device, paths[i])
    ensures m'.device == m.device && m'.handles == m.handles && m'.leaked == m.leaked
  {
    if paths == [] then m
    else Observed(ObservedAll(m, paths[..|paths| - 1]), paths[|paths| - 1])
  }

  /** The device opened the path, creating the entry if need be, under a descriptor not in use. */
  ghost predicate Opened(m: Mount, path: string, descriptor: nat, m': Mount) {
    var device := if Exists(m.device, path) then m.device else MakeEntry(m.device, Components(path));
    && (Exists(m.device, path) || CanMake(m.device, Components(path)))
    && descriptor !in m.device.descriptors
    && m' == m.(device := device.(descriptors := device.descriptors + {descriptor}))
  }

  function Closed(m: Mount, descriptor: nat, accepted: bool): Mount {
    if accepted then m.(device := m.device.(descriptors := m.device.descriptors - {descriptor}))
    else m.(leaked := m.leaked + {descriptor})
  }

  function Granted(m: Mount, descriptor: nat): Mount {
    m.(handles := m.handles + {descriptor})
  }

  ghost predicate RenameTakesEffect(m: Mount, from: string, to: string, m': Mount) {
    && Canonical(from) && Canonical(to)
    && CanRename(m.device, Components(from), Components(to))
    && Inodes.Next(m.table, Operation.Rename(from, to), m'.table)
    && m' == m.(device := RenameEntry(m.device, Components(from), Components(to)), table := m'.table)
  }

  /** One callback. The device may refuse anything, which leaves the state as far as it had come. */
  ghost predicate Next(m: Mount, callback: Callback, m': Mount) {
    m' == m ||
    match callback
    case Lookup(path) => Canonical(path) && Exists(m.device, path) && m' == Observed(m, path)
    case Make(path) =>
      && Canonical(path) && CanMake(m.device, Components(path))
      && (m' == Made(m, path) || m' == Observed(Made(m, path), path))
    case Create(path, descriptor) =>
      Canonical(path) && exists mid ::
        && Opened(m, path, descriptor, mid)
        && (m' == Granted(Observed(mid, path), descriptor)
            || m' == Closed(mid, descriptor, true)
            || m' == Closed(mid, descriptor, false))
    case List(paths) =>
      && (forall i | 0 <= i < |paths| :: Canonical(paths[i]) && Exists(m.device, paths[i]))
      && m' == ObservedAll(m, paths)
    case Unlink(path) =>
      && Canonical(path) && CanRemove(m.device, Components(path))
      && IsRemoved(m.table, m'.table, path)
      && m' == m.(device := RemoveEntry(m.device, Components(path)), table := m'.table)
    case Rename(from, to) => RenameTakesEffect(m, from, to, m')
    case Open(path, descriptor) =>
      Canonical(path) && exists mid :: Opened(m, path, descriptor, mid) && m' == Granted(mid, descriptor)
    case Release(descriptor) =>
      descriptor in m.handles && exists accepted: bool ::
        m' == Closed(m, descriptor, accepted).(handles := m.handles - {descriptor})
  }

  /** The renamed entry has been looked up, or nothing that has been is replaced by it. */
  predicate SourceKnown(t: Table, from: string, to: string) {
    from == to || from in t.byPath || to !in t.byPath
  }

  ghost predicate Careful(m: Mount, callback: Callback, m': Mount) {
    callback.Rename? && m' != m ==> SourceKnown(m.table, callback.from, callback.to)
  }

  /** issuedFor is written once per number. */
  ghost predicate RecordKept(m: Mount, m': Mount) {
    forall i | i in m.issuedFor :: i in m'.issuedFor && m'.issuedFor[i] == m.issuedFor[i]
  }

  // ----- Single steps keep the identity of entries -----

  lemma ObservedKeepsIdentity(m: Mount, path: string)
    requires Identity(m) && Canonical(path) && Exists(m.device, path)
    ensures Identity(Observed(m, path)) && RecordKept(m, Observed(m, path))
    ensures InodeOf(m.table, path) in Observed(m, path).issuedFor
  {
    TrackKeeps(m.table, path);
    var m' := Observed(m, path);
    if path !in m.table.byPath {
      forall p | p in m'.table.byPath ensures TracksEntry(m', p) {
        if p != path {
          assert TracksEntry(m, p);
        }
      }
      forall ds, i | ds in m'.device.entries && i in m'.issuedFor ensures EntryTracked(m', ds, i) {
        ComponentsOfRender(ds);
        if i == m.table.next {
          if m'.issuedFor[i] == m.device.entries[ds] {
            assert ds == Components(path);
          }
        } else {
          assert EntryTracked(m, ds, i);
        }
      }
    }
  }

  lemma MakeKeepsTree(d: Device, names: Names)
    requires Tree(d) && CanMake(d, names) && ValidNames(names)
    ensures Tree(MakeEntry(d, names))
  {
  }

  lemma MadeKeepsIdentity(m: Mount, path: string)
    requires Identity(m) && Canonical(path) && CanMake(m.device, Components(path))
    ensures Identity(Made(m, path))
  {
    var m' := Made(m, path);
    ComponentsAreValid(path);
    MakeKeepsTree(m.device, Components(path));
    forall p | p in m'.table.byPath ensures TracksEntry(m', p) {
      assert TracksEntry(m, p);
    }
    forall ds, i | ds in m'.device.entries && i in m'.issuedFor ensures EntryTracked(m', ds, i) {
      if ds in m.device.entries {
        assert EntryTracked(m, ds, i);
      }
    }
  }

  /** Identity does not depend on descriptors. */
  lemma IdentityIgnoresDescriptors(m: Mount, m': Mount)
    requires Identity(m) && m'.table == m.table && m'.issuedFor == m.issuedFor
    requires m'.device.entries == m.device.entries && m'.device.nextId == m.device.nextId
    ensures Identity(m')
  {
    forall ds | ds in m'.device.entries ensures WellPlaced(m'.device, ds) {
      assert WellPlaced(m.device, ds);
    }
    forall p | p in m'.table.byPath ensures TracksEntry(m', p) {
      assert TracksEntry(m, p);
    }
    forall ds, i | ds in m'.device.entries && i in m'.issuedFor ensures EntryTracked(m', ds, i) {
      assert EntryTracked(m, ds, i);
    }
  }

  lemma OpenedKeepsIdentity(m: Mount, path: string, descriptor: nat, m': Mount)
    requires Identity(m) && Canonical(path) && Opened(m, path, descriptor, m')
    ensures Identity(m') && Exists(m'.device, path)
  {
    if Exists(m.device, path) {
      IdentityIgnoresDescriptors(m, m');
    } else {
      MadeKeepsIdentity(m, path);
      IdentityIgnoresDescriptors(Made(m, path), m');
    }
  }

  lemma {:induction false} ObservedAllKeepsIdentity(m: Mount, paths: seq<string>)
    requires Identity(m)
    requires forall i | 0 <= i < |paths| :: Canonical(paths[i]) && Exists(m.device, paths[i])
    ensures Identity(ObservedAll(m, paths))
    ensures RecordKept(m, ObservedAll(m, paths))
    decreases |paths|
  {
    if paths != [] {
      ObservedAllKeepsIdentity(m, paths[..|paths| - 1]);
      ObservedKeepsIdentity(ObservedAll(m, paths[..|paths| - 1]), paths[|paths| - 1]);
    }
  }

  /** Listing gives out numbers without touching older ones. */
  lemma {:induction false} ObservedAllKeepsNumbers(m: Mount, paths: seq<string>)
    requires Identity(m)
    requires forall i | 0 <= i < |paths| :: Canonical(paths[i]) && Exists(m.device, paths[i])
    ensures NumbersKept(m.table, ObservedAll(m, paths).table)
    decreases |paths|
  {
    if paths != [] {
      var init := paths[..|paths| - 1];
      ObservedAllKeepsNumbers(m, init);
      ObservedAllKeepsIdentity(m, init);
      TrackKeeps(ObservedAll(m, init).table, paths[|paths| - 1]);
    }
  }

  ghost predicate NumbersKept(t: Table, t': Table) {
    && (forall p | p in t.byPath :: p in t'.byPath && t'.byPath[p] == t.byPath[p])
    && (forall i | i in t.byInode :: i in t'.byInode && t'.byInode[i] == t.byInode[i])
  }

  lemma RemoveKeepsTree(d: Device, names: Names)
    requires Tree(d) && CanRemove(d, names)
    ensures Tree(RemoveEntry(d, names))
  {
    var d' := RemoveEntry(d, names);
    forall ds | ds in d'.entries ensures WellPlaced(d', ds) {
      assert WellPlaced(d, ds);
      var parent := if ds == [] then [] else ds[..|ds| - 1];
      assert names <= parent ==> names <= ds;
    }
  }

  /** Device and table remove the same entries. */
  lemma UnlinkKeepsIdentity(m: Mount, path: string, m': Mount)
    requires Identity(m) && Canonical(path) && CanRemove(m.device, Components(path))
    requires IsRemoved(m.table, m'.table, path)
    requires m' == m.(device := RemoveEntry(m.device, Components(path)), table := m'.table)
    ensures Identity(m')
  {
    RemoveKeepsTree(m.device, Components(path));
    RemoveKeeps(m.table, m'.table, path);
    NonRootPath(path);
    forall p | p in m'.table.byPath ensures TracksEntry(m', p) {
      assert TracksEntry(m, p);
      SubtreeIsPrefix(p, path);
    }
    forall ds, i | ds in m'.device.entries && i in m'.issuedFor ensures EntryTracked(m', ds, i) {
      assert EntryTracked(m, ds, i);
      ComponentsOfRender(ds);
      SubtreeIsPrefix(Render(ds), path);
    }
  }

  lemma NonRootPath(path: string)
    requires Canonical(path)
    ensures path == "/" <==> Components(path) == []
  {
    ComponentsOfRender([]);
  }

  // ----- Renaming -----

  lemma MovedBack(from: Names, to: Names, names: Names)
    requires from <= names
    ensures to <= Moved(from, to, names) && Moved(to, from, Moved(from, to, names)) == names
  {
    assert Moved(from, to, names)[|to|..] == names[|from|..];
  }

  /** The renamed tree: below `to` is what was below `from`, and the rest is untouched. */
  lemma RenamedEntries(d: Device, from: Names, to: Names, ds: Names)
    requires CanRename(d, from, to)
    ensures ds in RenameEntry(d, from, to).entries <==>
            if to <= ds then Moved(to, from, ds) in d.entries else ds in d.entries && !(from <= ds)
    ensures ds in RenameEntry(d, from, to).entries ==>
            RenameEntry(d, from, to).entries[ds] == d.entries[if to <= ds then Moved(to, from, ds) else ds]
  {
    if to <= ds {
      MovedBack(to, from, ds);
    }
    if source :| source in d.entries && from <= source && Moved(from, to, source) == ds {
      MovedBack(from, to, source);
    }
  }

  lemma RenamedIdsDistinct(d: Device, from: Names, to: Names, a: Names, b: Names)
    requires Tree(d) && CanRename(d, from, to)
    requires a in RenameEntry(d, from, to).entries && b in RenameEntry(d, from, to).entries
    requires RenameEntry(d, from, to).entries[a] == RenameEntry(d, from, to).entries[b]
    ensures a == b
  {
    RenamedEntries(d, from, to, a);
    RenamedEntries(d, from, to, b);
    if to <= a { MovedBack(to, from, a); }
    if to <= b { MovedBack(to, from, b); }
  }

  lemma MovedNamesValid(from: Names, to: Names, names: Names)
    requires from <= names && ValidNames(names) && ValidNames(to)
    ensures ValidNames(Moved(from, to, names))
  {
    var suffix := names[|from|..];
    assert ValidNames(suffix);
  }

  lemma RenamedNamesValid(d: Device, from: Names, to: Names, ds: Names)
    requires Tree(d) && CanRename(d, from, to) && ValidNames(to)
    requires ds in RenameEntry(d, from, to).entries
    ensures ValidNames(ds) && RenameEntry(d, from, to).entries[ds] < d.nextId
  {
    RenamedEntries(d, from, to, ds);
    var source := if to <= ds then Moved(to, from, ds) else ds;
    assert WellPlaced(d, source);
    if to <= ds {
      MovedBack(to, from, ds);
      MovedNamesValid(from, to, source);
    }
  }

  lemma RenameKeepsTree(d: Device, from: Names, to: Names)
    requires Tree(d) && CanRename(d, from, to) && ValidNames(to)
    ensures Tree(RenameEntry(d, from, to))
  {
    var d' := RenameEntry(d, from, to);
    forall ds | ds in d'.entries ensures WellPlaced(d', ds) {
      RenamedNamesValid(d, from, to, ds);
      if ds != [] {
        RenamedHasParent(d, from, to, ds);
      }
    }
    RenamedEntries(d, from, to, []);
    forall a, b | a in d'.entries && b in d'.entries && d'.entries[a] == d'.entries[b] ensures a == b {
      RenamedIdsDistinct(d, from, to, a, b);
    }
  }

  lemma ParentOfMoved(from: Names, to: Names, ds: Names)
    requires from <= ds && |from| < |ds|
    ensures from <= ds[..|ds| - 1] && Moved(from, to, ds) != []
    ensures Moved(from, to, ds[..|ds| - 1]) == Moved(from, to, ds)[..|Moved(from, to, ds)| - 1]
  {
  }

  lemma SourceHasParent(d: Device, from: Names, to: Names, ds: Names)
    requires Tree(d) && to <= ds && |to| < |ds| && Moved(to, from, ds) in d.entries
    ensures to <= ds[..|ds| - 1] && Moved(to, from, ds[..|ds| - 1]) in d.entries
  {
    ParentOfMoved(to, from, ds);
    assert WellPlaced(d, Moved(to, from, ds));
  }

  /** A parent that existed and lies outside both subtrees is kept. */
  lemma KeptParent(d: Device, from: Names, to: Names, ds: Names)
    requires CanRename(d, from, to) && HasParent(d, ds)
    requires !(from <= ds && |from| < |ds|) && !(to <= ds && |to| < |ds|)
    ensures HasParent(RenameEntry(d, from, to), ds)
  {
    ParentOutside(from, ds);
    ParentOutside(to, ds);
    RenamedEntries(d, from, to, ds[..|ds| - 1]);
  }

  /** The parent of a kept or moved entry is kept or moved with it. */
  lemma RenamedHasParent(d: Device, from: Names, to: Names, ds: Names)
    requires Tree(d) && CanRename(d, from, to) && ds != [] && ds in RenameEntry(d, from, to).entries
    ensures HasParent(RenameEntry(d, from, to), ds)
  {
    RenamedEntries(d, from, to, ds);
    if to <= ds && |to| < |ds| {
      SourceHasParent(d, from, to, ds);
      RenamedEntries(d, from, to, ds[..|ds| - 1]);
    } else {
      if to <= ds {
        assert ds == to;
      } else {
        assert WellPlaced(d, ds);
      }
      KeptParent(d, from, to, ds);
    }
  }

  lemma ParentOutside(outer: Names, ds: Names)
    requires ds != []
    ensures outer <= ds[..|ds| - 1] ==> outer <= ds && |outer| < |ds|
  {
  }

  /** What the device accepts is never nested, so the table's rename is the simultaneous one. */
  lemma AcceptedRenameIsExact(m: Mount, from: string, to: string, m': Mount)
    requires Identity(m) && RenameTakesEffect(m, from, to, m')
    ensures from != "/" && to != "/" && m'.table == Renamed(m.table, from, to)
    ensures Consistent(m'.table) && m'.table.next == m.table.next && m'.table.byInode.Keys == m.table.byInode.Keys
  {
    NonRootPath(from);
    NonRootPath(to);
    SubtreeIsPrefix(to, from);
    SubtreeIsPrefix(from, to);
    forall p | p in m.table.byPath ensures Canonical(p) {
      assert TracksEntry(m, p);
    }
    UnnestedIsUnentangled(m.table, from, to);
    var order :| Enumerates(order, Moves(m.table, from).Keys)
                 && m'.table == RunMoves(m.table, from, to, Moves(m.table, from), order);
    RenameIsExact(m.table, from, to, order);
    RenameKeepsConsistent(m.table, from, to, order);
  }

  /** Strings and names move alike. */
  lemma MoveAgrees(from: string, to: string, path: string)
    requires Canonical(from) && Canonical(to) && Canonical(path) && from != "/" && to != "/"
    ensures InSubtree(path, from) <==> Components(from) <= Components(path)
    ensures InSubtree(path, from) ==>
            && from <= path && Canonical(Image(from, to, path))
            && Components(Image(from, to, path)) == Moved(Components(from), Components(to), Components(path))
            && InSubtree(Image(from, to, path), to)
            && Preimage(from, to, Image(from, to, path)) == path
  {
    SubtreeIsPrefix(path, from);
    if InSubtree(path, from) {
      ImageIsSubstitution(from, to, path);
      SubtreeIsPrefix(Image(from, to, path), to);
      ImageAndPreimage(from, to, path);
    }
  }

  lemma ImageTracks(m: Mount, from: string, to: string, m': Mount, q: string)
    requires Identity(m) && RenameTakesEffect(m, from, to, m') && from != "/" && to != "/"
    requires m'.table == Renamed(m.table, from, to) && IsImage(Moves(m.table, from), from, to, q)
    requires q in m'.table.byPath
    ensures TracksEntry(m', q)
  {
    hide RenameEntry, Tree, Renamed, Inodes.Next;
    var fs, ts, p := Components(from), Components(to), Preimage(from, to, q);
    RenamedValue(m.table, from, to, q);
    PreimageAndImage(from, to, q);
    assert TracksEntry(m, p);
    MoveAgrees(from, to, p);
    MovedBack(fs, ts, Components(p));
    RenamedEntries(m.device, fs, ts, Components(q));
  }

  lemma OtherTracks(m: Mount, from: string, to: string, m': Mount, q: string)
    requires Identity(m) && RenameTakesEffect(m, from, to, m') && SourceKnown(m.table, from, to) && from != "/" && to != "/"
    requires m'.table == Renamed(m.table, from, to) && !IsImage(Moves(m.table, from), from, to, q)
    requires q in m.table.byPath && q !in Moves(m.table, from) && q in m'.table.byPath
    ensures TracksEntry(m', q)
  {
    hide RenameEntry, Tree, Renamed, Inodes.Next;
    RenamedValue(m.table, from, to, q);
    assert TracksEntry(m, q);
    MoveAgrees(from, to, q);
    SubtreeIsPrefix(q, to);
    RenamedEntries(m.device, Components(from), Components(to), Components(q));
    assert from in m.table.byPath ==> IsImage(Moves(m.table, from), from, to, to) by {
      assert Preimage(from, to, to) == from;
    }
  }

  lemma RenamedTracks(m: Mount, from: string, to: string, m': Mount, q: string)
    requires Identity(m) && RenameTakesEffect(m, from, to, m') && SourceKnown(m.table, from, to)
    requires q in m'.table.byPath
    ensures TracksEntry(m', q)
  {
    hide Identity, RenameTakesEffect, TracksEntry, Renamed, Image, Preimage;
    AcceptedRenameIsExact(m, from, to, m');
    RenamedPaths(m.table, from, to, q);
    if IsImage(Moves(m.table, from), from, to, q) {
      ImageTracks(m, from, to, m', q);
    } else {
      OtherTracks(m, from, to, m', q);
    }
  }

  lemma RenamedEntryTracked(m: Mount, from: string, to: string, m': Mount, ds: Names, inode: nat)
    requires Identity(m) && RenameTakesEffect(m, from, to, m')
    requires ds in m'.device.entries && inode in m'.issuedFor
    ensures EntryTracked(m', ds, inode)
  {
    AcceptedRenameIsExact(m, from, to, m');
    var fs, ts := Components(from), Components(to);
    ComponentsAreValid(to);
    RenamedEntries(m.device, fs, ts, ds);
    if m'.issuedFor[inode] == m'.device.entries[ds] {
      var source := if ts <= ds then Moved(ts, fs, ds) else ds;
      assert EntryTracked(m, source, inode);
      ComponentsOfRender(source);
      var p := Render(source);
      MoveAgrees(from, to, p);
      if ts <= ds {
        MovedBack(ts, fs, ds);
        RenamedPaths(m.table, from, to, Image(from, to, p));
        assert Image(from, to, p) == Render(ds);
      } else {
        RenamedPaths(m.table, from, to, p);
        if IsImage(Moves(m.table, from), from, to, p) {
          var origin := Preimage(from, to, p);
          PreimageAndImage(from, to, p);
          assert TracksEntry(m, origin);
          MoveAgrees(from, to, origin);
          SubtreeIsPrefix(p, to);
        }
      }
    }
  }

  lemma RenamedPathsCanonical(m: Mount, from: string, to: string, m': Mount, inode: nat)
    requires Identity(m) && RenameTakesEffect(m, from, to, m') && inode in m'.table.byInode
    ensures Canonical(m'.table.byInode[inode])
  {
    AcceptedRenameIsExact(m, from, to, m');
    MoveAgrees(from, to, m.table.byInode[inode]);
  }

  /** Otherwise `to` keeps the inode of the entry that was replaced. */
  lemma UnknownSourceMisleads(m: Mount, from: string, to: string, m': Mount)
    requires Identity(m) && RenameTakesEffect(m, from, to, m') && !SourceKnown(m.table, from, to)
    ensures to in m'.table.byPath && !TracksEntry(m', to)
  {
    var fs, ts := Components(from), Components(to);
    AcceptedRenameIsExact(m, from, to, m');
    assert TracksEntry(m, to);
    assert Preimage(from, to, to) == from && Moved(ts, fs, ts) == fs;
    RenamedPaths(m.table, from, to, to);
    SubtreeIsPrefix(to, from);
    RenamedEntries(m.device, fs, ts, ts);
    assert fs != ts;
  }

  lemma KnownSourceKeepsIdentity(m: Mount, from: string, to: string, m': Mount)
    requires Identity(m) && RenameTakesEffect(m, from, to, m') && SourceKnown(m.table, from, to)
    ensures Identity(m')
  {
    AcceptedRenameIsExact(m, from, to, m');
    assert Tree(m'.device) by {
      ComponentsAreValid(to);
      RenameKeepsTree(m.device, Components(from), Components(to));
    }
    forall i | i in m'.table.byInode ensures Canonical(m'.table.byInode[i]) && i in m'.issuedFor {
      RenamedPathsCanonical(m, from, to, m', i);
    }
    forall p | p in m'.table.byPath ensures TracksEntry(m', p) {
      RenamedTracks(m, from, to, m', p);
    }
    forall ds, i | ds in m'.device.entries && i in m'.issuedFor ensures EntryTracked(m', ds, i) {
      RenamedEntryTracked(m, from, to, m', ds, i);
    }
  }

  /** A rename the device accepts keeps every tracked path on its own entry exactly when its source
      has been looked up or it replaces no tracked path. */
  lemma RenameKeepsIdentity(m: Mount, from: string, to: string, m': Mount)
    requires Identity(m) && RenameTakesEffect(m, from, to, m')
    ensures Identity(m') <==> SourceKnown(m.table, from, to)
  {
    if SourceKnown(m.table, from, to) {
      KnownSourceKeepsIdentity(m, from, to, m');
    } else {
      UnknownSourceMisleads(m, from, to, m');
    }
  }

  // ----- What a number leads to -----

  /** The path kept for a number, which every callback but a lookup starts from, is that of the number's own entry. */
  ghost predicate Reaches(m: Mount, inode: nat)
    requires inode in m.table.byInode && inode in m.issuedFor
  {
    var path := m.table.byInode[inode];
    Exists(m.device, path) && m.device.entries[Components(path)] == m.issuedFor[inode]
  }

  ghost predicate StillExists(m: Mount, inode: nat)
    requires inode in m.issuedFor
  {
    exists ds :: ds in m.device.entries && m.device.entries[ds] == m.issuedFor[inode]
  }

  /** A number reaches the entry it was issued for exactly if its path is tracked under it,
      and exactly if that entry still exists anywhere on the device. */
  lemma NumberReachesItsEntry(m: Mount, inode: nat)
    requires Identity(m) && inode in m.table.byInode
    ensures inode in m.issuedFor
    ensures Reaches(m, inode) <==> Returns(m.table, inode)
    ensures Reaches(m, inode) <==> StillExists(m, inode)
  {
    var path := m.table.byInode[inode];
    if Returns(m.table, inode) {
      assert TracksEntry(m, path);
    }
    if ds :| ds in m.device.entries && m.device.entries[ds] == m.issuedFor[inode] {
      assert EntryTracked(m, ds, inode);
      assert m.table.byInode[inode] == Render(ds);
    }
  }

  /** A rename over a path that had been looked up leaves the replaced number behind: it now leads
      to the entry that was moved there, which has a number of its own. */
  lemma ReplacedNumberMisleads(m: Mount, from: string, to: string, m': Mount)
    requires Identity(m) && RenameTakesEffect(m, from, to, m')
    requires from != to && from in m.table.byPath && to in m.table.byPath
    ensures var replaced, moved := m.table.byPath[to], m.table.byPath[from];
            && replaced in m'.table.byInode && m'.table.byInode[replaced] == to
            && moved in m.issuedFor && replaced in m.issuedFor && m.issuedFor[moved] != m.issuedFor[replaced]
            && Exists(m'.device, to) && m'.device.entries[Components(to)] == m.issuedFor[moved]
  {
    hide Identity, Tree, Consistent, Canonical, Image;
    BothTracked(m, from, to);
    assert CanRename(m.device, Components(from), Components(to));
    EntryMoves(m.device, Components(from), Components(to));
    UnmovedNumberStays(m, from, to, m');
  }

  lemma BothTracked(m: Mount, from: string, to: string)
    requires Identity(m) && from in m.table.byPath && to in m.table.byPath
    ensures TracksEntry(m, from) && TracksEntry(m, to)
    ensures m.table.byPath[to] in m.table.byInode && m.table.byInode[m.table.byPath[to]] == to
    ensures from != to ==> m.issuedFor[m.table.byPath[from]] != m.issuedFor[m.table.byPath[to]]
  {
    assert TracksEntry(m, from) && TracksEntry(m, to);
  }

  lemma EntryMoves(d: Device, from: Names, to: Names)
    requires CanRename(d, from, to)
    ensures to in RenameEntry(d, from, to).entries && RenameEntry(d, from, to).entries[to] == d.entries[from]
  {
    assert Moved(to, from, to) == from;
    RenamedEntries(d, from, to, to);
  }

  lemma UnmovedNumberStays(m: Mount, from: string, to: string, m': Mount)
    requires Identity(m) && RenameTakesEffect(m, from, to, m') && from != to && to in m.table.byPath
    ensures m.table.byPath[to] in m'.table.byInode && m'.table.byInode[m.table.byPath[to]] == to
  {
    AcceptedRenameIsExact(m, from, to, m');
    SubtreeIsPrefix(to, from);
  }

  /** Those are the only numbers a rename leaves behind, and none is restored by one. */
  lemma OnlyReplacedGoesStale(m: Mount, from: string, to: string, m': Mount, inode: nat)
    requires Identity(m) && RenameTakesEffect(m, from, to, m') && SourceKnown(m.table, from, to)
    requires inode in m.table.byInode
    ensures Returns(m'.table, inode) <==> Returns(m.table, inode) && (from == to || m.table.byInode[inode] != to)
  {
    hide RenameEntry;
    AcceptedRenameIsExact(m, from, to, m');
    LeftBehind(m.table, from, to, inode);
    if from == to {
      RenamedInPlace(m.table, from);
    } else if Returns(m.table, inode) {
      OnlyToIsReplaced(m, from, to, m.table.byInode[inode]);
    }
  }

  lemma OnlyToIsReplaced(m: Mount, from: string, to: string, p: string)
    requires Identity(m) && Canonical(from) && Canonical(to) && from != to && from != "/" && to != "/"
    requires CanRename(m.device, Components(from), Components(to))
    requires SourceKnown(m.table, from, to) && p in m.table.byPath
    ensures p == to ==> p !in Moves(m.table, from)
    ensures IsImage(Moves(m.table, from), from, to, p) <==> p == to
  {
    SubtreeIsPrefix(to, from);
    assert TracksEntry(m, p);
    if p == to {
      assert Preimage(from, to, to) == from;
    } else if IsImage(Moves(m.table, from), from, to, p) {
      var origin := Preimage(from, to, p);
      assert TracksEntry(m, origin);
      PreimageAndImage(from, to, p);
      MoveAgrees(from, to, origin);
    }
  }

  /** A device that answers a rename of one hard link over another of the same file without doing anything, as POSIX
      allows, is not such a step: the table renames all the same, and loses the entry if it had been looked up. */
  lemma IdleRenameMisleads(m: Mount, from: string, to: string, m': Mount)
    requires Identity(m) && Canonical(from) && Canonical(to) && from != to
    requires Exists(m.device, from) && Exists(m.device, to)
    requires forall ds | ds in m.device.entries && Components(from) <= ds :: ds == Components(from)
    requires m' == m.(table := Renamed(m.table, from, to))
    ensures Identity(m') <==> from !in m.table.byPath
  {
    NonRootPath(from);
    forall p | p in Moves(m.table, from) ensures p == from {
      assert TracksEntry(m, p);
      SubtreeIsPrefix(p, from);
    }
    if from in m.table.byPath {
      assert TracksEntry(m, from);
      RenamedMoves(m.table, from, to, from);
      assert Image(from, to, from) == to;
      assert !TracksEntry(m', to);
    } else {
      NothingRenamed(m.table, from, to);
    }
  }

  lemma NothingRenamed(t: Table, from: string, to: string)
    requires Consistent(t) && forall p | p in Moves(t, from) :: false
    ensures Renamed(t, from, to) == t
  {
    assert Renamed(t, from, to).byPath == t.byPath;
    forall i | i in t.byInode && IsMoved(t, from, i) ensures false {
      assert t.byInode[i] in Moves(t, from);
    }
    assert Renamed(t, from, to).byInode == t.byInode;
  }
}
