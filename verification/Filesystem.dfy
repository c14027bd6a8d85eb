/** The FUSE callbacks of src/filesystem.rs as methods over the inode table and the device,
    each proved to be one step of the mount's transition system. */
module Filesystem {
  import opened Wrappers
  import opened Paths
  import opened Paging
  import opened Inodes
  import opened MountState
  import opened MountRuns
  import opened Remote

  datatype Error = UnknownInode | InvalidFlags | Refused

  function EntryPath(path: string, name: string): string {
    if name == "." then path else if name == ".." then Parent(path) else Child(path, name)
  }

  /** The listing's entry at a position: with the offset after it, its name,
      and the inode that name is tracked under. */
  ghost predicate IsDirent(e: Dirent, path: string, listing: seq<string>, position: nat, byPath: map<string, nat>) {
    && position < |listing| && e.name == listing[position] && e.next == position + 1
    && EntryPath(path, e.name) in byPath && e.inode == byPath[EntryPath(path, e.name)]
  }

  /** One directory page: consecutive entries from the offset on. */
  ghost predicate IsPage(page: seq<Dirent>, path: string, listing: seq<string>, offset: nat, byPath: map<string, nat>) {
    forall k | 0 <= k < |page| :: IsDirent(page[k], path, listing, offset + k, byPath)
  }

  /** A listed name stands for an entry of the device: "." for the directory, ".." for the one above it (or the root),
      and any other name for the entry of that name inside. The inode is the one issued for that very entry. */
  ghost predicate StandsFor(m: Mount, directory: Names, e: Dirent) {
    var entry := if e.name == "." then directory
                 else if e.name == ".." then (if directory == [] then [] else directory[..|directory| - 1])
                 else directory + [e.name];
    && e.inode in m.issuedFor && entry in m.device.entries
    && m.issuedFor[e.inode] == m.device.entries[entry]
  }

  lemma DirentStandsFor(m: Mount, e: Dirent, path: string, listing: seq<string>, position: nat)
    requires Identity(m) && Canonical(path) && ValidName(e.name) && IsDirent(e, path, listing, position, m.table.byPath)
    ensures StandsFor(m, Components(path), e)
  {
    assert TracksEntry(m, EntryPath(path, e.name));
    var names := Components(path);
    ComponentsAreValid(path);
    if e.name == ".." {
      ParentOfRender(names);
      ComponentsOfRender(if names == [] then [] else names[..|names| - 1]);
    } else if e.name != "." {
      ParentOfChild(path, e.name);
    }
  }

  lemma PageStandsFor(m: Mount, page: seq<Dirent>, path: string, listing: seq<string>, offset: nat)
    requires Identity(m) && Canonical(path) && ValidNames(listing) && IsPage(page, path, listing, offset, m.table.byPath)
    ensures forall e | e in page :: StandsFor(m, Components(path), e)
  {
    hide Identity, Canonical, StandsFor;
    forall k | 0 <= k < |page| ensures StandsFor(m, Components(path), page[k]) {
      assert IsDirent(page[k], path, listing, offset + k, m.table.byPath);
      DirentStandsFor(m, page[k], path, listing, offset + k);
    }
  }

  /** The paths a page asks about, from one position of the listing to another. */
  function EntryPaths(path: string, listing: seq<string>, start: nat, end: nat): (paths: seq<string>)
    requires start <= end <= |listing|
    ensures |paths| == end - start
  {
    seq(end - start, i requires 0 <= i < end - start => EntryPath(path, listing[start + i]))
  }

  function Infos(paths: seq<string>): (plan: seq<Request>)
    ensures |plan| == |paths|
  {
    seq(|paths|, i requires 0 <= i < |paths| => Request.FileInfo(paths[i]))
  }

  /** A page looks at the entries that fit and at the first that does not. */
  function Looked(costs: seq<nat>, offset: nat, room: nat): (stop: nat)
    requires offset <= |costs|
    ensures offset <= stop <= |costs|
  {
    var end := PageEnd(costs, offset, room);
    if end < |costs| then end + 1 else end
  }

  /** The paths of the entries a page looks at. */
  function LookedPaths(path: string, listing: seq<string>, costs: seq<nat>, offset: nat, room: nat): seq<string>
    requires |costs| == |listing|
  {
    if offset < |listing| then EntryPaths(path, listing, offset, Looked(costs, offset, room)) else []
  }

  function SetAttrPlan(path: string, size: Option<nat>, mtime: Option<nat>): seq<Request> {
    (if size.Some? then [Request.Truncate(path, size.value)] else [])
    + (if mtime.Some? then [Request.SetMtime(path, mtime.value)] else [])
    + [Request.FileInfo(path)]
  }

  class IfuseFilesystem {
    const inodes: InodeTable
    const device: RemoteDevice
    ghost var issuedFor: map<nat, nat>
    ghost var handles: set<nat>
    ghost var leaked: set<nat>

    ghost function State(): Mount
      reads this, inodes, device
    {
      Mount(device.state, inodes.Contents(), issuedFor, handles, leaked)
    }

    /** The mount of whatever the device holds. */
    constructor (held: Device)
      requires Mountable(held)
      ensures fresh(inodes) && fresh(device)
      ensures State() == MountedOn(held) && Identity(State()) && Conserved(State())
    {
      inodes := new InodeTable();
      device := new RemoteDevice(held);
      issuedFor := map[ROOT := held.entries[[]]];
      handles, leaked := {}, {};
      new;
      MountedIdentity(held);
    }

    /** The path a parent inode and a name stand for; an unknown inode is an error. */
    method NamedPath(parent: nat, name: string) returns (path: Result<string, Error>)
      requires Identity(State()) && ValidName(name)
      ensures path.Ok? <==> parent in inodes.byInode
      ensures path.Err? ==> path.error == UnknownInode
      ensures path.Ok? ==> path.value == Child(inodes.byInode[parent], name) && Canonical(path.value)
      ensures path.Ok? ==> Parent(path.value) == inodes.byInode[parent]
      ensures path.Ok? ==> parent in issuedFor && (Reaches(State(), parent) <==> Returns(State().table, parent))
    {
      var parentPath := inodes.Path(parent);
      if parentPath.None? {
        return Err(UnknownInode);
      }
      ParentOfChild(parentPath.value, name);
      NumberReachesItsEntry(State(), parent);
      path := Ok(Child(parentPath.value, name));
    }

    /** The inode of a path the device has just confirmed. */
    method Entry(path: string) returns (inode: nat)
      requires Identity(State()) && Canonical(path) && Exists(device.state, path)
      modifies this`issuedFor, inodes
      ensures State() == Observed(old(State()), path) && Identity(State())
      ensures path in inodes.byPath && inode == inodes.byPath[path]
      ensures forall p | p in old(inodes.byPath) :: p in inodes.byPath && inodes.byPath[p] == old(inodes.byPath)[p]
    {
      ObservedKeepsIdentity(State(), path);
      TrackKeeps(inodes.Contents(), path);
      if path !in inodes.byPath {
        issuedFor := issuedFor[inodes.next := device.state.entries[Components(path)]];
      }
      inode := inodes.Inode(path);
    }

    method Lookup(parent: nat, name: string) returns (reply: Result<nat, Error>)
      requires Identity(State()) && ValidName(name)
      modifies this`issuedFor, inodes, device`answers
      ensures reply.Err? ==> State() == old(State())
      ensures parent !in old(inodes.byInode) ==> reply == Err(UnknownInode) && device.answers == old(device.answers)
      ensures parent in old(inodes.byInode) ==>
                var path := Child(old(inodes.byInode)[parent], name);
                && MountState.Next(old(State()), Callback.Lookup(path), State())
                && Follows(old(device.answers), device.answers, [Request.FileInfo(path)], reply.Ok?)
                && (reply.Err? ==> reply.error == Refused)
      ensures Identity(State())
      ensures reply.Ok? ==>
                var path := Child(old(inodes.byInode)[parent], name);
                && Exists(device.state, path) && path in inodes.byPath && reply.value == inodes.byPath[path]
                && State() == Observed(old(State()), path)
    {
      var path := NamedPath(parent, name);
      if path.Err? {
        return Err(path.error);
      }
      FollowsOne(device.answers, Request.FileInfo(path.value));
      var ok := device.FileInfo(path.value);
      if !ok {
        return Err(Refused);
      }
      var inode := Entry(path.value);
      reply := Ok(inode);
    }

    /** mkdir and symlink, and link once its target is known: make the entry, stat it, and only then give it an inode. */
    method MakeEntry(parent: nat, name: string, kind: NewEntry) returns (reply: Result<nat, Error>)
      requires Identity(State()) && ValidName(name)
      modifies this`issuedFor, inodes, device`state, device`answers
      ensures parent !in old(inodes.byInode) ==>
                reply == Err(UnknownInode) && State() == old(State()) && device.answers == old(device.answers)
      ensures parent in old(inodes.byInode) ==>
                var path := Child(old(inodes.byInode)[parent], name);
                && MountState.Next(old(State()), Callback.Make(path), State())
                && Follows(old(device.answers), device.answers, [Request.Make(kind, path), Request.FileInfo(path)], reply.Ok?)
                && (reply.Err? ==> reply.error == Refused)
      ensures Identity(State())
      ensures reply.Err? ==> State().table == old(State().table)
      ensures reply.Ok? ==>
                var path := Child(old(inodes.byInode)[parent], name);
                && !Exists(old(device.state), path) && Exists(device.state, path)
                && path in inodes.byPath && reply.value == inodes.byPath[path]
                && State() == Observed(Made(old(State()), path), path)
    {
      var path := NamedPath(parent, name);
      if path.Err? {
        return Err(path.error);
      }
      ghost var before, asked := State(), device.answers;
      FollowsTwo(asked, Request.Make(kind, path.value), Request.FileInfo(path.value));
      var made := device.Make(kind, path.value);
      if !made {
        return Err(Refused);
      }
      MadeKeepsIdentity(before, path.value);
      assert State() == Made(before, path.value);
      var ok := device.FileInfo(path.value);
      if !ok {
        return Err(Refused);
      }
      var inode := Entry(path.value);
      reply := Ok(inode);
    }

    /** `link` resolves the inode of its target first. */
    method Link(inode: nat, newParent: nat, newName: string) returns (reply: Result<nat, Error>)
      requires Identity(State()) && ValidName(newName)
      modifies this`issuedFor, inodes, device`state, device`answers
      ensures inode !in old(inodes.byInode) || newParent !in old(inodes.byInode) ==>
                reply == Err(UnknownInode) && State() == old(State()) && device.answers == old(device.answers)
      ensures inode in old(inodes.byInode) && newParent in old(inodes.byInode) ==>
                var target, path := old(inodes.byInode)[inode], Child(old(inodes.byInode)[newParent], newName);
                && MountState.Next(old(State()), Callback.Make(path), State())
                && Follows(old(device.answers), device.answers,
                           [Request.Make(HardLink(target), path), Request.FileInfo(path)], reply.Ok?)
                && (reply.Err? ==> reply.error == Refused)
      ensures Identity(State())
      ensures reply.Err? ==> State().table == old(State().table)
      ensures reply.Ok? ==>
                var path := Child(old(inodes.byInode)[newParent], newName);
                && !Exists(old(device.state), path) && Exists(device.state, path)
                && path in inodes.byPath && reply.value == inodes.byPath[path]
                && State() == Observed(Made(old(State()), path), path)
    {
      var target := inodes.Path(inode);
      if target.None? {
        return Err(UnknownInode);
      }
      reply := MakeEntry(newParent, newName, HardLink(target.value));
    }

    method Remove(parent: nat, name: string) returns (reply: Result<(), Error>)
      requires Identity(State()) && ValidName(name)
      modifies inodes, device`state, device`answers
      ensures parent !in old(inodes.byInode) ==> reply == Err(UnknownInode) && device.answers == old(device.answers)
      ensures reply.Err? ==> State() == old(State())
      ensures parent in old(inodes.byInode) ==>
                var path := Child(old(inodes.byInode)[parent], name);
                && MountState.Next(old(State()), Callback.Unlink(path), State())
                && Follows(old(device.answers), device.answers, [Request.Remove(path)], reply.Ok?)
                && (reply.Err? ==> reply.error == Refused)
      ensures Identity(State())
      ensures reply.Ok? ==>
                var path := Child(old(inodes.byInode)[parent], name);
                && Exists(old(device.state), path) && !Exists(device.state, path)
                && IsRemoved(old(State().table), State().table, path)
    {
      var path := NamedPath(parent, name);
      if path.Err? {
        return Err(path.error);
      }
      ghost var before := State();
      FollowsOne(device.answers, Request.Remove(path.value));
      var removed := device.Remove(path.value);
      if !removed {
        return Err(Refused);
      }
      inodes.Remove(path.value);
      UnlinkKeepsIdentity(before, path.value, State());
      reply := Ok(());
    }

    method Rename(parent: nat, name: string, newParent: nat, newName: string, flags: nat) returns (reply: Result<(), Error>)
      requires Identity(State()) && ValidName(name) && ValidName(newName)
      modifies inodes, device`state, device`answers
      ensures flags != 0 ==> reply == Err(InvalidFlags)
      ensures flags == 0 && (parent !in old(inodes.byInode) || newParent !in old(inodes.byInode)) ==> reply == Err(UnknownInode)
      ensures flags != 0 || parent !in old(inodes.byInode) || newParent !in old(inodes.byInode) ==>
                device.answers == old(device.answers)
      ensures flags == 0 && parent in old(inodes.byInode) && newParent in old(inodes.byInode) ==>
                && Follows(old(device.answers), device.answers,
                           [Request.Rename(Child(old(inodes.byInode)[parent], name), Child(old(inodes.byInode)[newParent], newName))],
                           reply.Ok?)
                && (reply.Err? ==> reply.error == Refused)
      ensures reply.Err? ==> State() == old(State())
      ensures reply.Ok? ==>
                var from, to := Child(old(inodes.byInode)[parent], name), Child(old(inodes.byInode)[newParent], newName);
                && RenameTakesEffect(old(State()), from, to, State())
                && State().table == Renamed(old(State().table), from, to)
                && (Identity(State()) <==> SourceKnown(old(State().table), from, to))
    {
      hide Follows, Canonical;
      if flags != 0 {
        return Err(InvalidFlags);
      }
      var from := NamedPath(parent, name);
      if from.Err? {
        return Err(from.error);
      }
      var to := NamedPath(newParent, newName);
      if to.Err? {
        return Err(to.error);
      }
      ghost var before := State();
      FollowsOne(device.answers, Request.Rename(from.value, to.value));
      var renamed := device.Rename(from.value, to.value);
      if !renamed {
        return Err(Refused);
      }
      inodes.Rename(from.value, to.value);
      assert RenameTakesEffect(before, from.value, to.value, State());
      AcceptedRenameIsExact(before, from.value, to.value, State());
      RenameKeepsIdentity(before, from.value, to.value, State());
      reply := Ok(());
    }

    /** The entry that is opened is the one the number was issued for exactly if the number's path still leads back to
        it. A number left behind by a rename opens what has replaced its entry. */
    method Open(inode: nat) returns (reply: Result<nat, Error>)
      requires Identity(State())
      modifies this`handles, device`state, device`answers
      ensures inode !in inodes.byInode ==> reply == Err(UnknownInode) && device.answers == old(device.answers)
      ensures inode in inodes.byInode ==>
                && Follows(old(device.answers), device.answers, [Request.Open(inodes.byInode[inode])], reply.Ok?)
                && (reply.Err? ==> reply.error == Refused)
      ensures reply.Err? ==> State() == old(State())
      ensures reply.Ok? ==> MountState.Next(old(State()), Callback.Open(inodes.byInode[inode], reply.value), State())
      ensures reply.Ok? ==> handles == old(handles) + {reply.value} && reply.value !in old(device.state).descriptors
      ensures reply.Ok? ==>
                && inode in issuedFor && Exists(device.state, inodes.byInode[inode])
                && (Reaches(State(), inode) <==> Returns(State().table, inode))
                && (Reaches(State(), inode) <==> Reaches(old(State()), inode))
      ensures Identity(State())
    {
      var path := inodes.Path(inode);
      if path.None? {
        return Err(UnknownInode);
      }
      ghost var before := State();
      FollowsOne(device.answers, Request.Open(path.value));
      var descriptor := device.Open(path.value);
      if descriptor.None? {
        return Err(Refused);
      }
      ghost var mid := State();
      assert Opened(before, path.value, descriptor.value, mid);
      handles := handles + {descriptor.value};
      OpenKeeps(before, path.value, descriptor.value, State());
      NumberReachesItsEntry(before, inode);
      NumberReachesItsEntry(State(), inode);
      reply := Ok(descriptor.value);
    }

    /** The attributes of the entry a number leads to: the number's own exactly if it has not been left behind. */
    method GetAttr(inode: nat) returns (reply: Result<nat, Error>)
      requires Identity(State())
      modifies device`answers
      ensures inode !in inodes.byInode ==> reply == Err(UnknownInode) && device.answers == old(device.answers)
      ensures inode in inodes.byInode ==>
                && Follows(old(device.answers), device.answers, [Request.FileInfo(inodes.byInode[inode])], reply.Ok?)
                && (reply.Err? ==> reply.error == Refused)
      ensures reply.Ok? ==>
                && inode in inodes.byInode && Exists(device.state, inodes.byInode[inode])
                && reply.value == device.state.entries[Components(inodes.byInode[inode])]
                && inode in issuedFor && (reply.value == issuedFor[inode] <==> Returns(State().table, inode))
    {
      var path := inodes.Path(inode);
      if path.None? {
        return Err(UnknownInode);
      }
      NumberReachesItsEntry(State(), inode);
      FollowsOne(device.answers, Request.FileInfo(path.value));
      var ok := device.FileInfo(path.value);
      reply := if ok then Ok(device.state.entries[Components(path.value)]) else Err(Refused);
    }

    /** Truncate and then set the time, by the number's path, whatever handle the kernel passes. Both requests go to the
        one entry `target`: the number's own exactly if it has not been left behind, and otherwise the one that replaced
        it. An error leaves what was done before it. */
    method SetAttr(inode: nat, size: Option<nat>, mtime: Option<nat>) returns (reply: Result<(), Error>, ghost target: nat)
      requires Identity(State())
      modifies device`sizesSet, device`timesSet, device`answers
      ensures State() == old(State())
      ensures inode !in inodes.byInode ==> reply == Err(UnknownInode) && device.answers == old(device.answers)
      ensures inode in inodes.byInode ==>
                && Follows(old(device.answers), device.answers, SetAttrPlan(inodes.byInode[inode], size, mtime), reply.Ok?)
                && (reply.Err? ==> reply.error == Refused)
      ensures device.sizesSet == old(device.sizesSet) || (size.Some? && device.sizesSet == old(device.sizesSet)[target := size.value])
      ensures device.timesSet == old(device.timesSet) || (mtime.Some? && device.timesSet == old(device.timesSet)[target := mtime.value])
      ensures reply.Ok? ==>
                && (size.Some? ==> device.sizesSet == old(device.sizesSet)[target := size.value])
                && (mtime.Some? ==> device.timesSet == old(device.timesSet)[target := mtime.value])
      ensures reply.Ok? || device.sizesSet != old(device.sizesSet) || device.timesSet != old(device.timesSet) ==>
                && inode in inodes.byInode && Exists(device.state, inodes.byInode[inode])
                && target == device.state.entries[Components(inodes.byInode[inode])]
                && inode in issuedFor && (target == issuedFor[inode] <==> Returns(State().table, inode))
    {
      hide Identity, Follows, StillExists, Components, SetAttrPlan;
      target := 0;
      var path := inodes.Path(inode);
      if path.None? {
        return Err(UnknownInode), target;
      }
      NumberReachesItsEntry(State(), inode);
      SetAttrFollows(device.answers, path.value, size, mtime);
      if Exists(device.state, path.value) {
        target := device.state.entries[Components(path.value)];
      }
      if size.Some? {
        var truncated := device.Truncate(path.value, size.value);
        if !truncated {
          return Err(Refused), target;
        }
      }
      ghost var truncate := if size.Some? then [Answer(Request.Truncate(path.value, size.value), true)] else [];
      assert device.answers == old(device.answers) + truncate;
      if mtime.Some? {
        var changed := device.SetMtime(path.value, mtime.value);
        if !changed {
          return Err(Refused), target;
        }
      }
      ghost var change := if mtime.Some? then [Answer(Request.SetMtime(path.value, mtime.value), true)] else [];
      assert device.answers == old(device.answers) + truncate + change;
      var ok := device.FileInfo(path.value);
      reply := if ok then Ok(()) else Err(Refused);
    }

    method Release(descriptor: nat) returns (reply: Result<(), Error>)
      requires Identity(State()) && descriptor in handles
      modifies this`handles, this`leaked, device`state, device`answers
      ensures Follows(old(device.answers), device.answers, [Request.Close(descriptor)], reply.Ok?)
      ensures reply.Err? ==> reply.error == Refused
      ensures MountState.Next(old(State()), Callback.Release(descriptor), State())
      ensures handles == old(handles) - {descriptor}
      ensures reply.Ok? ==> descriptor !in device.state.descriptors && leaked == old(leaked)
      ensures Identity(State())
    {
      ghost var before := State();
      FollowsOne(device.answers, Request.Close(descriptor));
      var ok := device.Close(descriptor);
      handles := handles - {descriptor};
      if !ok {
        leaked := leaked + {descriptor};
      }
      assert State() == Closed(before, descriptor, ok).(handles := before.handles - {descriptor});
      IdentityIgnoresDescriptors(before, State());
      reply := if ok then Ok(()) else Err(Refused);
    }

    /** A Close whose answer does not matter. */
    method CloseAgain(descriptor: nat) returns (ghost closed: bool)
      modifies this`leaked, device`state, device`answers
      ensures State() == Closed(old(State()), descriptor, closed)
      ensures device.answers == old(device.answers) + [Answer(Request.Close(descriptor), closed)]
    {
      var ok := device.Close(descriptor);
      if !ok {
        leaked := leaked + {descriptor};
      }
      closed := ok;
    }

    /** A file whose stat fails after the open is closed again before the error is returned. */
    method Create(parent: nat, name: string) returns (reply: Result<(nat, nat), Error>)
      requires Identity(State()) && ValidName(name)
      modifies this, inodes, device`state, device`answers
      ensures parent !in old(inodes.byInode) ==>
                reply == Err(UnknownInode) && State() == old(State()) && device.answers == old(device.answers)
      ensures parent in old(inodes.byInode) ==>
                CreateFollows(old(device.answers), device.answers, Child(old(inodes.byInode)[parent], name), reply.Ok?)
                && (reply.Err? ==> reply.error == Refused)
      ensures reply.Err? ==> State().table == old(State().table)
      ensures parent in old(inodes.byInode) ==>
                exists descriptor ::
                  MountState.Next(old(State()), Callback.Create(Child(old(inodes.byInode)[parent], name), descriptor), State())
      ensures reply.Err? ==> handles == old(handles)
      ensures old(Conserved(State())) ==> Conserved(State())
      ensures old(Conserved(State())) && reply.Err? ==>
                (device.state.descriptors == old(device.state.descriptors) <==> leaked == old(leaked))
      ensures reply.Ok? ==>
                var path := Child(old(inodes.byInode)[parent], name);
                && path in inodes.byPath && reply.value.0 == inodes.byPath[path]
                && handles == old(handles) + {reply.value.1} && reply.value.1 !in old(device.state).descriptors
      ensures Identity(State())
    {
      hide Identity, Conserved, Follows, Observed;
      var path := NamedPath(parent, name);
      if path.Err? {
        return Err(path.error);
      }
      ghost var before := State();
      var descriptor := device.Open(path.value);
      if descriptor.None? {
        FollowsOne(old(device.answers), Request.Open(path.value));
        assert MountState.Next(before, Callback.Create(path.value, 0), State());
        return Err(Refused);
      }
      ghost var mid := State();
      assert Opened(before, path.value, descriptor.value, mid);
      OpenedKeepsIdentity(before, path.value, descriptor.value, mid);
      FollowsTwo(old(device.answers), Request.Open(path.value), Request.FileInfo(path.value));
      var ok := device.FileInfo(path.value);
      if ok {
        var inode := Entry(path.value);
        handles := handles + {descriptor.value};
        assert State() == Granted(Observed(mid, path.value), descriptor.value);
        reply := Ok((inode, descriptor.value));
      } else {
        ghost var _ := CloseAgain(descriptor.value);
        reply := Err(Refused);
      }
      assert MountState.Next(before, Callback.Create(path.value, descriptor.value), State());
      CreateKeeps(before, path.value, descriptor.value, State());
      if Conserved(before) {
        NothingLeftOpen(before, Callback.Create(path.value, descriptor.value), State());
      }
    }

    /** One page of a directory. `names` is the device's answer to the listing request; `costs` is the
        room each entry takes in the kernel's buffer. The entry that did not fit has its inode already. */
    method ReadDir(inode: nat, offset: nat, names: seq<string>, costs: seq<nat>, room: nat)
      returns (reply: Result<seq<Dirent>, Error>, ghost paths: seq<string>)
      requires Identity(State())
      requires ValidNames(names) && |costs| == |WithDots(names)|
      modifies this`issuedFor, inodes, device`answers
      ensures inode !in old(inodes.byInode) ==> reply == Err(UnknownInode) && device.answers == old(device.answers)
      ensures MountState.Next(old(State()), Callback.List(paths), State())
      ensures Identity(State()) && NumbersKept(old(State()).table, State().table)
      ensures inode in old(inodes.byInode) ==>
                var path := old(inodes.byInode)[inode];
                var looked := LookedPaths(path, WithDots(names), costs, offset, room);
                && paths <= looked && (reply.Ok? ==> paths == looked)
                && Follows(old(device.answers), device.answers, [Request.ListDir(path)] + Infos(looked), reply.Ok?)
                && (reply.Err? ==> reply.error == Refused)
      ensures reply.Ok? ==>
                && inode in old(inodes.byInode)
                && PageEnd(costs, offset, room) == offset + |reply.value|
                && IsPage(reply.value, old(inodes.byInode)[inode], WithDots(names), offset, inodes.byPath)
                && forall e | e in reply.value :: StandsFor(State(), Components(old(inodes.byInode)[inode]), e)
    {
      hide Identity, Canonical, StandsFor, IsPage, Follows, WithDots, ValidNames, Infos, EntryPath, EntryPaths, Looked;
      paths := [];
      var directory := inodes.Path(inode);
      if directory.None? {
        return Err(UnknownInode), paths;
      }
      var path := directory.value;
      TrackedPathIsCanonical(State(), inode);
      var all := WithDots(names);
      WithDotsValid(names);
      ghost var before, asked := State(), device.answers;
      ghost var looked := LookedPaths(path, all, costs, offset, room);
      FollowsOne(asked, Request.ListDir(path));
      var listed := device.ListDir(path);
      if !listed {
        FollowsStops(asked, device.answers, [Request.ListDir(path)], Infos(looked));
        return Err(Refused), paths;
      }
      if offset >= |all| {
        assert Infos([]) == [] && [Request.ListDir(path)] + [] == [Request.ListDir(path)];
        NothingListed(path, all, offset, inodes.byPath);
        return Ok([]), paths;
      }
      ghost var mid := device.answers;
      reply, paths := FillPage(path, all, offset, costs, room);
      ObservedAllKeepsIdentity(before, paths);
      ObservedAllKeepsNumbers(before, paths);
      FollowsBoth(asked, mid, device.answers, [Request.ListDir(path)], Infos(looked), reply.Ok?);
      if reply.Ok? {
        PageStandsFor(State(), reply.value, path, all, offset);
      }
    }

    /** The loop of `readdir` over the listing, skipping to the offset. */
    method FillPage(path: string, all: seq<string>, offset: nat, costs: seq<nat>, room: nat)
      returns (reply: Result<seq<Dirent>, Error>, ghost paths: seq<string>)
      requires Identity(State()) && offset < |all|
      requires Canonical(path) && ValidNames(all) && |costs| == |all|
      modifies this`issuedFor, inodes, device`answers
      ensures IsListing(old(State()), paths, State())
      ensures paths <= EntryPaths(path, all, offset, Looked(costs, offset, room))
      ensures reply.Ok? ==> paths == EntryPaths(path, all, offset, Looked(costs, offset, room))
      ensures Follows(old(device.answers), device.answers, Infos(EntryPaths(path, all, offset, Looked(costs, offset, room))), reply.Ok?)
      ensures reply.Err? ==> reply.error == Refused
      ensures reply.Ok? ==> PageEnd(costs, offset, room) == offset + |reply.value| <= |all|
      ensures reply.Ok? ==> IsPage(reply.value, path, all, offset, inodes.byPath)
    {
      hide Identity, Canonical, ValidNames, IsListing, IsPage, EntryPath, EntryPaths, Infos, Follows;
      ghost var before, asked := State(), device.answers;
      ghost var stop := Looked(costs, offset, room);
      paths := [];
      var page: seq<Dirent> := [];
      var left: nat := room;
      var index := offset;
      ghost var end := PageEnd(costs, offset, room);
      NothingListed(path, all, offset, inodes.byPath);
      NothingLooked(before, path, all, offset, asked);
      while index < |all|
        invariant offset <= index <= |all| && |page| == index - offset
        invariant paths == EntryPaths(path, all, offset, index)
        invariant IsListing(before, paths, State())
        invariant Follows(asked, device.answers, Infos(paths), true)
        invariant IsPage(page, path, all, offset, inodes.byPath)
        invariant PageEnd(costs, index, left) == end
      {
        EntryPathsGrow(path, all, offset, index);
        EntryPathsSplit(path, all, offset, index, stop);
        EntryPathsSplit(path, all, offset, index + 1, stop);
        ghost var looked := paths + [EntryPath(path, all[index])];
        var entry;
        entry, paths := TakeEntry(path, all, offset, index, page, before, paths, asked);
        if entry.None? {
          FollowsStops(asked, device.answers, Infos(looked), Infos(EntryPaths(path, all, index + 1, stop)));
          return Err(Refused), paths;
        }
        if costs[index] > left {
          return Ok(page), paths;
        }
        left := left - costs[index];
        page := page + [entry.value];
        index := index + 1;
      }
      reply := Ok(page);
    }

    /** Stat one listed entry and give it its inode. */
    method TakeEntry(path: string, all: seq<string>, offset: nat, index: nat, ghost page: seq<Dirent>,
                     ghost before: Mount, ghost paths: seq<string>, ghost asked: seq<Answer>)
      returns (entry: Option<Dirent>, ghost longer: seq<string>)
      requires index == offset + |page| < |all| && Canonical(path) && ValidNames(all)
      requires Identity(before) && IsListing(before, paths, State()) && IsPage(page, path, all, offset, inodes.byPath)
      requires Follows(asked, device.answers, Infos(paths), true)
      modifies this`issuedFor, inodes, device`answers
      ensures IsListing(before, longer, State()) && IsPage(page, path, all, offset, inodes.byPath)
      ensures longer == if entry.Some? then paths + [EntryPath(path, all[index])] else paths
      ensures Follows(asked, device.answers, Infos(paths + [EntryPath(path, all[index])]), entry.Some?)
      ensures entry.Some? ==> IsPage(page + [entry.value], path, all, offset, inodes.byPath)
    {
      hide Identity, Canonical, Observed, ObservedAll, IsPage, EntryPath, Follows;
      ObservedAllKeepsIdentity(before, paths);
      EntryPathCanonical(path, all[index]);
      var entryPath := EntryPath(path, all[index]);
      ghost var answers := device.answers;
      assert Infos(paths + [entryPath]) == Infos(paths) + [Request.FileInfo(entryPath)];
      var ok := device.FileInfo(entryPath);
      FollowsMore(asked, answers, Infos(paths), Request.FileInfo(entryPath), ok);
      if !ok {
        return None, paths;
      }
      var inode := Entry(entryPath);
      entry, longer := Some(Dirent(inode, index + 1, all[index])), paths + [entryPath];
      ListingGrows(before, paths, old(State()), entryPath);
      PageSurvives(page, path, all, offset, old(inodes.byPath), inodes.byPath);
      PageGrows(page, entry.value, path, all, offset, old(inodes.byPath), inodes.byPath);
    }
  }

  lemma WithDotsValid(names: seq<string>)
    requires ValidNames(names)
    ensures ValidNames(WithDots(names))
  {
  }

  lemma TrackedPathIsCanonical(m: Mount, inode: nat)
    requires Identity(m) && inode in m.table.byInode
    ensures Canonical(m.table.byInode[inode])
  {
  }

  lemma NothingListed(path: string, all: seq<string>, offset: nat, byPath: map<string, nat>)
    ensures IsPage([], path, all, offset, byPath)
  {
  }

  lemma NothingLooked(before: Mount, path: string, all: seq<string>, offset: nat, asked: seq<Answer>)
    requires offset <= |all|
    ensures EntryPaths(path, all, offset, offset) == [] && IsListing(before, [], before)
    ensures Follows(asked, asked, Infos([]), true)
  {
  }

  /** Open, then stat; if the stat is refused, close again whatever comes of it. */
  ghost predicate CreateFollows(before: seq<Answer>, after: seq<Answer>, path: string, good: bool) {
    if good then Follows(before, after, [Request.Open(path), Request.FileInfo(path)], true)
    else
      || Follows(before, after, [Request.Open(path)], false)
      || exists descriptor, closed ::
           after == before + [Answer(Request.Open(path), true), Answer(Request.FileInfo(path), false)]
                           + [Answer(Request.Close(descriptor), closed)]
  }

  lemma FollowsOne(before: seq<Answer>, request: Request)
    ensures Follows(before, before + [Answer(request, true)], [request], true)
    ensures Follows(before, before + [Answer(request, false)], [request], false)
  {
    FollowsNothing(before);
    assert [] + [request] == [request];
    FollowsMore(before, before, [], request, true);
    FollowsMore(before, before, [], request, false);
  }

  lemma FollowsTwo(before: seq<Answer>, first: Request, second: Request)
    ensures Follows(before, before + [Answer(first, false)], [first, second], false)
    ensures forall good :: Follows(before, before + [Answer(first, true)] + [Answer(second, good)], [first, second], good)
  {
    FollowsOne(before, first);
    assert [first] + [second] == [first, second];
    FollowsStops(before, before + [Answer(first, false)], [first], [second]);
    FollowsMore(before, before + [Answer(first, true)], [first], second, true);
    FollowsMore(before, before + [Answer(first, true)], [first], second, false);
  }

  lemma SetAttrFollows(before: seq<Answer>, path: string, size: Option<nat>, mtime: Option<nat>)
    ensures size.Some? ==>
              Follows(before, before + [Answer(Request.Truncate(path, size.value), false)], SetAttrPlan(path, size, mtime), false)
    ensures var truncated := before + if size.Some? then [Answer(Request.Truncate(path, size.value), true)] else [];
            var changed := truncated + if mtime.Some? then [Answer(Request.SetMtime(path, mtime.value), true)] else [];
            && (mtime.Some? ==>
                  Follows(before, truncated + [Answer(Request.SetMtime(path, mtime.value), false)], SetAttrPlan(path, size, mtime), false))
            && (forall good :: Follows(before, changed + [Answer(Request.FileInfo(path), good)], SetAttrPlan(path, size, mtime), good))
  {
    hide Follows;
    var info := Request.FileInfo(path);
    if size.Some? && mtime.Some? {
      var truncate, change := Request.Truncate(path, size.value), Request.SetMtime(path, mtime.value);
      FollowsTwo(before, truncate, change);
      FollowsOne(before, truncate);
      FollowsStops(before, before + [Answer(truncate, false)], [truncate], [change, info]);
      FollowsStops(before, before + [Answer(truncate, true)] + [Answer(change, false)], [truncate, change], [info]);
      var mid := before + [Answer(truncate, true)] + [Answer(change, true)];
      FollowsMore(before, mid, [truncate, change], info, true);
      FollowsMore(before, mid, [truncate, change], info, false);
      assert SetAttrPlan(path, size, mtime) == [truncate] + [change, info] == [truncate, change] + [info];
    } else if size.Some? {
      FollowsTwo(before, Request.Truncate(path, size.value), info);
      assert SetAttrPlan(path, size, mtime) == [Request.Truncate(path, size.value), info];
    } else if mtime.Some? {
      FollowsTwo(before, Request.SetMtime(path, mtime.value), info);
      assert SetAttrPlan(path, size, mtime) == [Request.SetMtime(path, mtime.value), info];
    } else {
      FollowsOne(before, info);
      assert SetAttrPlan(path, size, mtime) == [info];
    }
    assert before + [] == before;
    assert forall longer: seq<Answer> :: longer + [] == longer;
  }

  lemma AcceptedConcat(first: seq<Request>, second: seq<Request>)
    ensures AllAccepted(first + second) == AllAccepted(first) + AllAccepted(second)
  {
  }

  /** One plan after another. */
  lemma FollowsBoth(before: seq<Answer>, mid: seq<Answer>, after: seq<Answer>, first: seq<Request>, second: seq<Request>, good: bool)
    requires Follows(before, mid, first, true) && Follows(mid, after, second, good)
    ensures Follows(before, after, first + second, good)
  {
    hide AllAccepted;
    var all, accepted := first + second, AllAccepted(first);
    if good {
      AcceptedConcat(first, second);
      assert before + (accepted + AllAccepted(second)) == before + accepted + AllAccepted(second);
    } else {
      var n :| 0 <= n < |second| && after == mid + AllAccepted(second[..n]) + [Answer(second[n], false)];
      var m := |first| + n;
      AcceptedConcat(first, second[..n]);
      assert before + (accepted + AllAccepted(second[..n])) == before + accepted + AllAccepted(second[..n]);
      assert all[..m] == first + second[..n] && all[m] == second[n];
    }
  }

  /** Something was asked, and the last answer was a refusal. */
  ghost predicate LastRefused(before: seq<Answer>, after: seq<Answer>) {
    before < after && !after[|after| - 1].accepted
  }

  lemma FollowsGrows(before: seq<Answer>, after: seq<Answer>, plan: seq<Request>, good: bool)
    requires Follows(before, after, plan, good)
    ensures before <= after && (!good ==> LastRefused(before, after))
  {
  }

  lemma EntryPathsGrow(path: string, listing: seq<string>, start: nat, end: nat)
    requires start <= end < |listing|
    ensures EntryPaths(path, listing, start, end + 1) == EntryPaths(path, listing, start, end) + [EntryPath(path, listing[end])]
    ensures Infos(EntryPaths(path, listing, start, end + 1))
            == Infos(EntryPaths(path, listing, start, end)) + [Request.FileInfo(EntryPath(path, listing[end]))]
  {
  }

  lemma EntryPathsSplit(path: string, listing: seq<string>, start: nat, mid: nat, end: nat)
    requires start <= mid <= end <= |listing|
    ensures EntryPaths(path, listing, start, end) == EntryPaths(path, listing, start, mid) + EntryPaths(path, listing, mid, end)
    ensures Infos(EntryPaths(path, listing, start, end))
            == Infos(EntryPaths(path, listing, start, mid)) + Infos(EntryPaths(path, listing, mid, end))
  {
  }

  /** The state after the given paths have been listed. */
  ghost predicate IsListing(before: Mount, paths: seq<string>, after: Mount) {
    && (forall i | 0 <= i < |paths| :: Canonical(paths[i]) && Exists(before.device, paths[i]))
    && after == ObservedAll(before, paths)
  }

  /** The kernel reading a directory: page after page, each resumed with the last offset it was given. Whatever the sizes
      of the pages, it is given the positions of the completed listing from the first on, each once and in order, every
      entry under its inode; enough pages give all of it. */
  method ReadWholeDirectory(fs: IfuseFilesystem, inode: nat, names: seq<string>, costs: seq<nat>, rooms: seq<nat>)
    returns (reply: Result<seq<Dirent>, Error>)
    requires Identity(fs.State())
    requires ValidNames(names) && |costs| == |WithDots(names)| && RoomForOne(0, costs, rooms)
    modifies fs`issuedFor, fs.inodes, fs.device`answers
    ensures Identity(fs.State()) && fs.device.state == old(fs.device.state)
    ensures reply.Ok? && rooms != [] ==>
              && inode in old(fs.inodes.byInode) && |reply.value| <= |costs|
              && IsPage(reply.value, old(fs.inodes.byInode)[inode], WithDots(names), 0, fs.inodes.byPath)
              && (forall e | e in reply.value :: StandsFor(fs.State(), Components(old(fs.inodes.byInode)[inode]), e))
    ensures reply.Err? ==> if inode in old(fs.inodes.byInode) then reply.error == Refused && LastRefused(old(fs.device.answers), fs.device.answers)
                           else reply.error == UnknownInode
    ensures reply.Ok? && |rooms| >= |costs| ==> |reply.value| == |costs|
  {
    hide Identity, ValidNames, Canonical, WithDots, IsPage, MountState.Next, Follows, StandsFor, LookedPaths, Infos;
    WithDotsValid(names);
    ghost var listing, known := WithDots(names), inode in fs.inodes.byInode;
    ghost var path := if known then fs.inodes.byInode[inode] else "";
    var read: seq<Dirent> := [];
    var offset := 0;
    NothingRead(path, listing, fs.inodes.byPath);
    for k := 0 to |rooms|
      invariant Identity(fs.State())
      invariant known ==> inode in fs.inodes.byInode && fs.inodes.byInode[inode] == path
      invariant k == 0 ==> fs.inodes.byInode == old(fs.inodes.byInode)
      invariant k > 0 ==> known
      invariant old(fs.device.answers) <= fs.device.answers
      invariant offset == |read| <= |costs| && (offset == |costs| || offset >= k)
      invariant RoomForOne(offset, costs, rooms[k..])
      invariant IsPage(read, path, listing, 0, fs.inodes.byPath)
    {
      ghost var byPath, asked := fs.inodes.byPath, fs.device.answers;
      var page, _ := fs.ReadDir(inode, offset, names, costs, rooms[k]);
      if known {
        ghost var plan := [Request.ListDir(path)] + Infos(LookedPaths(path, listing, costs, offset, rooms[k]));
        FollowsGrows(asked, fs.device.answers, plan, page.Ok?);
      }
      if page.Err? {
        return page;
      }
      PagesJoin(read, page.value, path, listing, byPath, fs.inodes.byPath);
      assert rooms[k..][1..] == rooms[k + 1..];
      read := read + page.value;
      if page.value != [] {
        offset := page.value[|page.value| - 1].next;
      }
    }
    if known {
      TrackedPathIsCanonical(fs.State(), inode);
      PageStandsFor(fs.State(), read, path, listing, 0);
    }
    reply := Ok(read);
  }

  lemma NothingRead(path: string, listing: seq<string>, byPath: map<string, nat>)
    ensures IsPage([], path, listing, 0, byPath)
  {
  }

  lemma PagesJoin(read: seq<Dirent>, page: seq<Dirent>, path: string, listing: seq<string>, a: map<string, nat>, b: map<string, nat>)
    requires IsPage(read, path, listing, 0, a) && IsPage(page, path, listing, |read|, b)
    requires forall p | p in a :: p in b && b[p] == a[p]
    ensures IsPage(read + page, path, listing, 0, b)
    ensures page != [] ==> page[|page| - 1].next == |read| + |page|
  {
    PageSurvives(read, path, listing, 0, a, b);
    forall k | 0 <= k < |read + page| ensures IsDirent((read + page)[k], path, listing, k, b) {
      assert k >= |read| ==> IsDirent(page[k - |read|], path, listing, |read| + (k - |read|), b);
    }
    assert page != [] ==> IsDirent(page[|page| - 1], path, listing, |read| + (|page| - 1), b);
  }

  lemma ListingGrows(before: Mount, paths: seq<string>, after: Mount, path: string)
    requires IsListing(before, paths, after) && Canonical(path) && Exists(before.device, path)
    ensures IsListing(before, paths + [path], Observed(after, path))
  {
    assert (paths + [path])[..|paths + [path]| - 1] == paths;
  }

  /** A page stays right when more paths are tracked, and when the next entry is added. */
  lemma PageGrows(page: seq<Dirent>, e: Dirent, path: string, listing: seq<string>, offset: nat,
                  a: map<string, nat>, b: map<string, nat>)
    requires IsPage(page, path, listing, offset, a)
    requires forall p | p in a :: p in b && b[p] == a[p]
    requires IsDirent(e, path, listing, offset + |page|, b)
    ensures IsPage(page + [e], path, listing, offset, b)
  {
    forall k | 0 <= k < |page| ensures IsDirent(page[k], path, listing, offset + k, b) {
      assert IsDirent(page[k], path, listing, offset + k, a);
    }
  }

  /** The entry that did not fit leaves the page as it was. */
  lemma PageSurvives(page: seq<Dirent>, path: string, listing: seq<string>, offset: nat, a: map<string, nat>, b: map<string, nat>)
    requires IsPage(page, path, listing, offset, a)
    requires forall p | p in a :: p in b && b[p] == a[p]
    ensures IsPage(page, path, listing, offset, b)
  {
    forall k | 0 <= k < |page| ensures IsDirent(page[k], path, listing, offset + k, b) {
      assert IsDirent(page[k], path, listing, offset + k, a);
    }
  }

  lemma EntryPathCanonical(path: string, name: string)
    requires Canonical(path) && ValidName(name)
    ensures Canonical(EntryPath(path, name))
  {
    if name == ".." {
      var names := Components(path);
      ComponentsAreValid(path);
      ParentOfRender(names);
      ComponentsOfRender(if names == [] then [] else names[..|names| - 1]);
    } else if name != "." {
      ParentOfChild(path, name);
    }
  }
}
