/** The device behind the backend, as src/filesystem.rs talks to it. It may refuse any request; what it accepts, it does.
    Every request and its answer are recorded in order. */
module Remote {
  import opened Wrappers
  import opened Paths
  import opened MountState

  datatype NewEntry = Directory | SymbolicLink(target: string) | HardLink(target: string)

  datatype Request =
    | FileInfo(path: string)
    | ListDir(path: string)
    | Make(kind: NewEntry, path: string)
    | Remove(path: string)
    | Rename(from: string, to: string)
    | Open(path: string)
    | Close(descriptor: nat)
    | Truncate(path: string, size: nat)
    | SetMtime(path: string, time: nat)

  datatype Answer = Answer(request: Request, accepted: bool)

  function AllAccepted(plan: seq<Request>): (answers: seq<Answer>)
    ensures |answers| == |plan|
  {
    seq(|plan|, i requires 0 <= i < |plan| => Answer(plan[i], true))
  }

  /** The requests of the plan are sent in order until one is refused; the outcome is good exactly if none is. */
  ghost predicate Follows(before: seq<Answer>, after: seq<Answer>, plan: seq<Request>, good: bool) {
    if good then after == before + AllAccepted(plan)
    else exists n :: 0 <= n < |plan| && after == before + AllAccepted(plan[..n]) + [Answer(plan[n], false)]
  }

  lemma FollowsNothing(before: seq<Answer>)
    ensures Follows(before, before, [], true)
  {
  }

  lemma FollowsMore(before: seq<Answer>, mid: seq<Answer>, plan: seq<Request>, request: Request, good: bool)
    requires Follows(before, mid, plan, true)
    ensures Follows(before, mid + [Answer(request, good)], plan + [request], good)
  {
    var longer := plan + [request];
    if good {
      assert AllAccepted(longer) == AllAccepted(plan) + [Answer(request, true)];
    } else {
      assert longer[..|plan|] == plan && longer[|plan|] == request;
    }
  }

  /** What comes after a refused request is not sent. */
  lemma FollowsStops(before: seq<Answer>, after: seq<Answer>, plan: seq<Request>, rest: seq<Request>)
    requires Follows(before, after, plan, false)
    ensures Follows(before, after, plan + rest, false)
  {
    var n :| 0 <= n < |plan| && after == before + AllAccepted(plan[..n]) + [Answer(plan[n], false)];
    assert (plan + rest)[..n] == plan[..n] && (plan + rest)[n] == plan[n];
  }

  /** `sizesSet` and `timesSet` record, by entry, the sizes and modification times that were set by path. */
  class RemoteDevice {
    var state: Device
    var sizesSet: map<nat, nat>
    var timesSet: map<nat, nat>
    ghost var answers: seq<Answer>

    /** It holds what it held before. */
    constructor (held: Device)
      ensures state == held && answers == []
    {
      state, sizesSet, timesSet, answers := held, map[], map[], [];
    }

    method FileInfo(path: string) returns (ok: bool)
      modifies this`answers
      ensures answers == old(answers) + [Answer(Request.FileInfo(path), ok)]
      ensures ok ==> Exists(state, path)
    {
      ok := *;
      ok := ok && Exists(state, path);
      answers := answers + [Answer(Request.FileInfo(path), ok)];
    }

    method ListDir(path: string) returns (ok: bool)
      modifies this`answers
      ensures answers == old(answers) + [Answer(Request.ListDir(path), ok)]
    {
      ok := *;
      answers := answers + [Answer(Request.ListDir(path), ok)];
    }

    /** mkdir, and both kinds of link. */
    method Make(kind: NewEntry, path: string) returns (ok: bool)
      modifies this`state, this`answers
      ensures answers == old(answers) + [Answer(Request.Make(kind, path), ok)]
      ensures ok ==> CanMake(old(state), Components(path)) && state == MakeEntry(old(state), Components(path))
      ensures !ok ==> state == old(state)
    {
      ok := *;
      ok := ok && CanMake(state, Components(path));
      if ok {
        state := MakeEntry(state, Components(path));
      }
      answers := answers + [Answer(Request.Make(kind, path), ok)];
    }

    method Remove(path: string) returns (ok: bool)
      modifies this`state, this`answers
      ensures answers == old(answers) + [Answer(Request.Remove(path), ok)]
      ensures ok ==> CanRemove(old(state), Components(path)) && state == RemoveEntry(old(state), Components(path))
      ensures !ok ==> state == old(state)
    {
      ok := *;
      ok := ok && CanRemove(state, Components(path));
      if ok {
        state := RemoveEntry(state, Components(path));
      }
      answers := answers + [Answer(Request.Remove(path), ok)];
    }

    method Rename(from: string, to: string) returns (ok: bool)
      modifies this`state, this`answers
      ensures answers == old(answers) + [Answer(Request.Rename(from, to), ok)]
      ensures ok ==> CanRename(old(state), Components(from), Components(to))
                     && state == RenameEntry(old(state), Components(from), Components(to))
      ensures !ok ==> state == old(state)
    {
      ok := *;
      ok := ok && CanRename(state, Components(from), Components(to));
      if ok {
        state := RenameEntry(state, Components(from), Components(to));
      }
      answers := answers + [Answer(Request.Rename(from, to), ok)];
    }

    method Open(path: string) returns (descriptor: Option<nat>)
      modifies this`state, this`answers
      ensures answers == old(answers) + [Answer(Request.Open(path), descriptor.Some?)]
      ensures descriptor.None? ==> state == old(state)
      ensures descriptor.Some? ==>
                && descriptor.value !in old(state).descriptors
                && (Exists(old(state), path) || CanMake(old(state), Components(path)))
                && var d := if Exists(old(state), path) then old(state) else MakeEntry(old(state), Components(path));
                   state == d.(descriptors := d.descriptors + {descriptor.value})
    {
      var number: nat, willing: bool := *, *;
      var ok := willing && number !in state.descriptors && (Exists(state, path) || CanMake(state, Components(path)));
      descriptor := if ok then Some(number) else None;
      if ok && !Exists(state, path) {
        state := MakeEntry(state, Components(path));
      }
      if ok {
        state := state.(descriptors := state.descriptors + {number});
      }
      answers := answers + [Answer(Request.Open(path), ok)];
    }

    method Close(descriptor: nat) returns (ok: bool)
      modifies this`state, this`answers
      ensures answers == old(answers) + [Answer(Request.Close(descriptor), ok)]
      ensures state == if ok then old(state).(descriptors := old(state).descriptors - {descriptor}) else old(state)
    {
      ok := *;
      if ok {
        state := state.(descriptors := state.descriptors - {descriptor});
      }
      answers := answers + [Answer(Request.Close(descriptor), ok)];
    }

    method Truncate(path: string, size: nat) returns (ok: bool)
      modifies this`sizesSet, this`answers
      ensures answers == old(answers) + [Answer(Request.Truncate(path, size), ok)]
      ensures ok ==> Exists(state, path) && sizesSet == old(sizesSet)[state.entries[Components(path)] := size]
      ensures !ok ==> sizesSet == old(sizesSet)
    {
      ok := *;
      ok := ok && Exists(state, path);
      if ok {
        sizesSet := sizesSet[state.entries[Components(path)] := size];
      }
      answers := answers + [Answer(Request.Truncate(path, size), ok)];
    }

    method SetMtime(path: string, time: nat) returns (ok: bool)
      modifies this`timesSet, this`answers
      ensures answers == old(answers) + [Answer(Request.SetMtime(path, time), ok)]
      ensures ok ==> Exists(state, path) && timesSet == old(timesSet)[state.entries[Components(path)] := time]
      ensures !ok ==> timesSet == old(timesSet)
    {
      ok := *;
      ok := ok && Exists(state, path);
      if ok {
        timesSet := timesSet[state.entries[Components(path)] := time];
      }
      answers := answers + [Answer(Request.SetMtime(path, time), ok)];
    }
  }
}
