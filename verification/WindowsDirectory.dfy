/** Directory enumeration on Windows (src/windows_filesystem.rs): a sorted snapshot taken when the enumeration
    starts, and pages that resume after the last name returned. */
module WindowsDirectory {
  import opened Wrappers
  import opened Utf16
  import opened Paging
  import Payload

  datatype Error = NotADirectory | Refused | NameTooLong

  datatype DirectoryEntry = DirectoryEntry(name: string, info: nat)

  // ----- The order of names -----

  /** Lexicographic by code point. */
  predicate Leq(a: string, b: string) {
    a == "" || (b != "" && (a[0] < b[0] || (a[0] == b[0] && Leq(a[1..], b[1..]))))
  }

  predicate Less(a: string, b: string) { Leq(a, b) && a != b }

  lemma {:induction false} LeqTotal(a: string, b: string)
    ensures Leq(a, b) || Leq(b, a)
    ensures Leq(a, b) && Leq(b, a) <==> a == b
    decreases |a| + |b|
  {
    if a != "" && b != "" {
      LeqTotal(a[1..], b[1..]);
      assert a == [a[0]] + a[1..] && b == [b[0]] + b[1..];
    }
  }

  lemma {:induction false} LeqTransitive(a: string, b: string, c: string)
    requires Leq(a, b) && Leq(b, c)
    ensures Leq(a, c)
    decreases |a|
  {
    if a != "" && a[0] == b[0] == c[0] {
      LeqTransitive(a[1..], b[1..], c[1..]);
    }
  }

  /** Code-point order, without recursion: a proper prefix comes first, and otherwise the first difference decides. */
  ghost predicate Before(a: string, b: string) {
    a < b || exists k: nat :: k < |a| && k < |b| && a[..k] == b[..k] && a[k] < b[k]
  }

  /** An equal first character decides nothing. */
  lemma BeforeTail(a: string, b: string)
    requires a != "" && b != "" && a[0] == b[0]
    ensures Before(a, b) <==> Before(a[1..], b[1..])
  {
    assert a == [a[0]] + a[1..] && b == [b[0]] + b[1..];
    if k: nat :| k < |a| && k < |b| && a[..k] == b[..k] && a[k] < b[k] {
      assert k > 0 && a[1..][..k - 1] == a[..k][1..] && b[1..][..k - 1] == b[..k][1..];
      assert a[1..][k - 1] < b[1..][k - 1];
    }
    if k: nat :| k < |a| - 1 && k < |b| - 1 && a[1..][..k] == b[1..][..k] && a[1..][k] < b[1..][k] {
      assert a[..k + 1] == [a[0]] + a[1..][..k] && b[..k + 1] == [b[0]] + b[1..][..k];
      assert a[k + 1] < b[k + 1];
    }
  }

  lemma {:induction false} LessIsBefore(a: string, b: string)
    ensures Less(a, b) <==> Before(a, b)
    decreases |a|
  {
    if a != "" && b != "" && a[0] == b[0] {
      LessIsBefore(a[1..], b[1..]);
      BeforeTail(a, b);
      assert a == [a[0]] + a[1..] && b == [b[0]] + b[1..];
    } else if a != "" && b != "" && a[0] < b[0] {
      assert a[..0] == b[..0];
    } else {
      assert forall k: nat | 0 < k && k < |a| && k < |b| :: a[..k][0] == a[0] && b[..k][0] == b[0];
    }
  }

  ghost predicate BytesBefore(a: seq<Payload.Byte>, b: seq<Payload.Byte>) {
    a < b || exists k: nat :: k < |a| && k < |b| && a[..k] == b[..k] && a[k] < b[k]
  }

  /** Two characters differ first where the byte of the smaller one is smaller. */
  lemma CharOrder(x: char, y: char) returns (j: nat)
    requires x < y
    ensures var bx, by_ := Payload.EncodeChar(x), Payload.EncodeChar(y);
            j < |bx| && j < |by_| && bx[..j] == by_[..j] && bx[j] < by_[j]
  {
    hide Payload.EncodeChar;
    var bx, by_ := Payload.EncodeChar(x), Payload.EncodeChar(y);
    Payload.BytesOfChar(x);
    Payload.BytesOfChar(y);
    if |bx| != |by_| || bx[0] != by_[0] {
      j := 0;
    } else if bx[1] != by_[1] {
      j := 1;
      assert bx[..1] == [bx[0]] && by_[..1] == [by_[0]];
    } else if bx[2] != by_[2] {
      j := 2;
      assert bx[..2] == [bx[0], bx[1]] && by_[..2] == [by_[0], by_[1]];
    } else {
      j := 3;
      assert bx[..3] == [bx[0], bx[1], bx[2]] && by_[..3] == [by_[0], by_[1], by_[2]];
    }
  }

  lemma DifferenceKept(front: string, x: char, y: char, a: string, b: string)
    requires x < y
    ensures BytesBefore(Payload.Utf8(front + [x] + a), Payload.Utf8(front + [y] + b))
  {
    hide Payload.Utf8, Payload.EncodeChar;
    var f, ex, ey := Payload.Utf8(front), Payload.EncodeChar(x), Payload.EncodeChar(y);
    BytesAround(front, x, a);
    BytesAround(front, y, b);
    var j := CharOrder(x, y);
    FirstDifference(f, ex, ey, Payload.Utf8(a), Payload.Utf8(b), j);
  }

  lemma FirstDifference(f: seq<Payload.Byte>, x: seq<Payload.Byte>, y: seq<Payload.Byte>, a: seq<Payload.Byte>, b: seq<Payload.Byte>, j: nat)
    requires j < |x| && j < |y| && x[..j] == y[..j] && x[j] < y[j]
    ensures BytesBefore(f + x + a, f + y + b)
  {
    var u, v, i := f + x + a, f + y + b, |f| + j;
    assert u[..i] == f + x[..j] && v[..i] == f + y[..j];
    assert u[i] == x[j] && v[i] == y[j];
  }

  lemma BytesKeepOrder(a: string, b: string)
    requires Before(a, b)
    ensures BytesBefore(Payload.Utf8(a), Payload.Utf8(b))
  {
    hide Payload.Utf8;
    if a < b {
      assert b == a + b[|a|..];
      Payload.Utf8Concat(a, b[|a|..]);
      Payload.Utf8NonEmpty(b[|a|..]);
    } else {
      hide BytesBefore;
      var k: nat :| k < |a| && k < |b| && a[..k] == b[..k] && a[k] < b[k];
      AroundChar(a, k);
      AroundChar(b, k);
      DifferenceKept(a[..k], a[k], b[k], a[k + 1..], b[k + 1..]);
    }
  }

  lemma BytesAround(front: string, c: char, rest: string)
    ensures Payload.Utf8(front + [c] + rest) == Payload.Utf8(front) + Payload.EncodeChar(c) + Payload.Utf8(rest)
  {
    hide Payload.Utf8, Payload.EncodeChar;
    Payload.Utf8Concat(front + [c], rest);
    Payload.Utf8Concat(front, [c]);
    Payload.Utf8One(c);
  }

  lemma AroundChar(s: string, k: nat)
    requires k < |s|
    ensures s[..k] + [s[k]] + s[k + 1..] == s
  {
  }

  lemma PrefixAgrees(a: seq<Payload.Byte>, b: seq<Payload.Byte>, i: nat, k: nat)
    ensures k < i <= |a| && i <= |b| && a[..i] == b[..i] ==> a[k] == b[k]
  {
    if k < i <= |a| && i <= |b| && a[..i] == b[..i] {
      assert a[..i][k] == b[..i][k];
    }
  }

  lemma BytesBeforeOneWay(a: seq<Payload.Byte>, b: seq<Payload.Byte>)
    requires BytesBefore(a, b)
    ensures a != b && !BytesBefore(b, a)
  {
    forall i: nat, k: nat ensures k < i <= |a| && i <= |b| && a[..i] == b[..i] ==> a[k] == b[k] {
      PrefixAgrees(a, b, i, k);
    }
  }

  /** The order of names is the order of their bytes in UTF-8, which is how the source compares strings. */
  lemma OrderOfBytes(a: string, b: string)
    ensures Less(a, b) <==> BytesBefore(Payload.Utf8(a), Payload.Utf8(b))
  {
    hide Before, BytesBefore, Payload.Utf8;
    LessIsBefore(a, b);
    LessIsBefore(b, a);
    LeqTotal(a, b);
    if Before(a, b) {
      BytesKeepOrder(a, b);
    } else if BytesBefore(Payload.Utf8(a), Payload.Utf8(b)) {
      BytesBeforeOneWay(Payload.Utf8(a), Payload.Utf8(b));
      if Before(b, a) {
        BytesKeepOrder(b, a);
      }
    }
  }

  lemma LessTransitive(a: string, b: string, c: string)
    requires Leq(a, b) && Less(b, c)
    ensures Less(a, c)
  {
    LeqTransitive(a, b, c);
    LeqTotal(b, c);
  }

  predicate StrictlySorted(entries: seq<DirectoryEntry>) {
    forall i, j | 0 <= i < j < |entries| :: Less(entries[i].name, entries[j].name)
  }

  predicate Distinct(names: seq<string>) {
    forall i, j | 0 <= i < j < |names| :: names[i] != names[j]
  }

  // ----- The snapshot -----

  function Insert(e: DirectoryEntry, sorted: seq<DirectoryEntry>): seq<DirectoryEntry> {
    if sorted == [] || Leq(e.name, sorted[0].name) then [e] + sorted
    else [sorted[0]] + Insert(e, sorted[1..])
  }

  function SortByName(entries: seq<DirectoryEntry>): seq<DirectoryEntry> {
    if entries == [] then [] else Insert(entries[0], SortByName(entries[1..]))
  }

  lemma {:induction false} InsertKeeps(e: DirectoryEntry, sorted: seq<DirectoryEntry>)
    ensures multiset(Insert(e, sorted)) == multiset{e} + multiset(sorted)
  {
    if sorted != [] && !Leq(e.name, sorted[0].name) {
      InsertKeeps(e, sorted[1..]);
      assert sorted == [sorted[0]] + sorted[1..];
    }
  }

  lemma ConsSorted(e: DirectoryEntry, sorted: seq<DirectoryEntry>)
    requires StrictlySorted(sorted) && forall x | x in sorted :: Less(e.name, x.name)
    ensures StrictlySorted([e] + sorted)
  {
    hide Less;
  }

  lemma {:induction false} InsertSorts(e: DirectoryEntry, sorted: seq<DirectoryEntry>)
    requires StrictlySorted(sorted) && forall i | 0 <= i < |sorted| :: sorted[i].name != e.name
    ensures StrictlySorted(Insert(e, sorted))
  {
    if sorted == [] {
    } else if Leq(e.name, sorted[0].name) {
      forall x | x in sorted ensures Less(e.name, x.name) {
        if x != sorted[0] {
          LessTransitive(e.name, sorted[0].name, x.name);
        }
      }
      ConsSorted(e, sorted);
    } else {
      var rest := Insert(e, sorted[1..]);
      InsertSorts(e, sorted[1..]);
      InsertKeeps(e, sorted[1..]);
      LeqTotal(e.name, sorted[0].name);
      forall x | x in rest ensures Less(sorted[0].name, x.name) {
        assert x in multiset(rest);
        assert x == e || x in sorted[1..];
      }
      ConsSorted(sorted[0], rest);
    }
  }

  lemma {:induction false} SortSorts(entries: seq<DirectoryEntry>)
    requires forall i, j | 0 <= i < j < |entries| :: entries[i].name != entries[j].name
    ensures StrictlySorted(SortByName(entries)) && multiset(SortByName(entries)) == multiset(entries)
    ensures Ascending(SortByName(entries))
  {
    SortedIsAscending(SortByName(entries));
    if entries != [] {
      var rest := SortByName(entries[1..]);
      SortSorts(entries[1..]);
      assert entries == [entries[0]] + entries[1..];
      forall i | 0 <= i < |rest| ensures rest[i].name != entries[0].name {
        assert rest[i] in multiset(rest);
        assert rest[i] in entries[1..];
      }
      InsertSorts(entries[0], rest);
      InsertKeeps(entries[0], rest);
    }
  }

  lemma HeadIsLeast(sorted: seq<DirectoryEntry>, e: DirectoryEntry)
    requires StrictlySorted(sorted) && e in multiset(sorted)
    ensures Leq(sorted[0].name, e.name) && (e.name == sorted[0].name ==> e == sorted[0])
  {
    var i :| 0 <= i < |sorted| && sorted[i] == e;
    LeqTotal(e.name, e.name);
  }

  lemma HeadsEqual(a: seq<DirectoryEntry>, b: seq<DirectoryEntry>)
    requires a != [] && b != [] && StrictlySorted(a) && StrictlySorted(b) && multiset(a) == multiset(b)
    ensures a[0] == b[0]
  {
    hide StrictlySorted, Leq;
    assert a[0] in multiset(a) && b[0] in multiset(b);
    HeadIsLeast(b, a[0]);
    HeadIsLeast(a, b[0]);
    LeqTotal(a[0].name, b[0].name);
  }

  /** Each name comes before all later ones. */
  ghost predicate Ascending(entries: seq<DirectoryEntry>) {
    forall i, j | 0 <= i < j < |entries| :: Before(entries[i].name, entries[j].name)
  }

  lemma SortedIsAscending(entries: seq<DirectoryEntry>)
    ensures StrictlySorted(entries) <==> Ascending(entries)
  {
    hide Less, Before;
    forall i, j | 0 <= i < j < |entries|
      ensures Less(entries[i].name, entries[j].name) <==> Before(entries[i].name, entries[j].name)
    {
      LessIsBefore(entries[i].name, entries[j].name);
    }
  }

  lemma TailOf(sorted: seq<DirectoryEntry>)
    requires sorted != [] && StrictlySorted(sorted)
    ensures StrictlySorted(sorted[1..]) && multiset(sorted[1..]) == multiset(sorted) - multiset{sorted[0]}
  {
    assert sorted == [sorted[0]] + sorted[1..];
  }

  /** For distinct names there is only one sorted arrangement, so an unstable sort has one possible result. */
  lemma {:induction false} SortedIsUnique(a: seq<DirectoryEntry>, b: seq<DirectoryEntry>)
    requires StrictlySorted(a) && StrictlySorted(b) && multiset(a) == multiset(b)
    ensures a == b
    decreases |a|
  {
    hide StrictlySorted, Leq;
    assert |a| == |multiset(a)| == |multiset(b)| == |b|;
    if a != [] {
      HeadsEqual(a, b);
      TailOf(a);
      TailOf(b);
      SortedIsUnique(a[1..], b[1..]);
      assert a == [a[0]] + a[1..] && b == [b[0]] + b[1..];
    }
  }

  /** The device answered every stat request. */
  predicate AllStat(names: seq<string>, stat: map<string, nat>) {
    forall n | n in names && n != "." && n != ".." :: n in stat
  }

  /** The device's listing with "." and ".." left out and each name given its stat. */
  function Described(names: seq<string>, stat: map<string, nat>): seq<DirectoryEntry>
    requires AllStat(names, stat)
  {
    if names == [] then []
    else if names[0] == "." || names[0] == ".." then Described(names[1..], stat)
    else [DirectoryEntry(names[0], stat[names[0]])] + Described(names[1..], stat)
  }

  lemma {:induction false} DescribedNames(names: seq<string>, stat: map<string, nat>)
    requires AllStat(names, stat)
    ensures forall e | e in Described(names, stat) :: e.name in names && e.name != "." && e.name != ".." && e.info == stat[e.name]
    ensures forall n | n in names && n != "." && n != ".." :: DirectoryEntry(n, stat[n]) in Described(names, stat)
    ensures Distinct(names) ==>
              forall i, j | 0 <= i < j < |Described(names, stat)| :: Described(names, stat)[i].name != Described(names, stat)[j].name
  {
    if names != [] {
      assert Distinct(names) ==> Distinct(names[1..]) && names[0] !in names[1..];
      DescribedNames(names[1..], stat);
      assert names == [names[0]] + names[1..];
    }
  }

  lemma {:induction false} DescribedSnoc(names: seq<string>, last: string, stat: map<string, nat>)
    requires AllStat(names + [last], stat)
    ensures Described(names + [last], stat)
            == Described(names, stat) + (if last == "." || last == ".." then [] else [DirectoryEntry(last, stat[last])])
  {
    if names == [] {
      assert [] + [last] == [last] && [last][1..] == [];
    } else {
      assert (names + [last])[1..] == names[1..] + [last];
      assert names[0] in names + [last];
      DescribedSnoc(names[1..], last, stat);
    }
  }

  function Snapshot(names: seq<string>, stat: map<string, nat>): seq<DirectoryEntry>
    requires AllStat(names, stat)
  {
    SortByName(Described(names, stat))
  }

  /** The snapshot is the listing without the dot names: strictly sorted, each entry exactly once. */
  lemma SnapshotIsListing(names: seq<string>, stat: map<string, nat>)
    requires Distinct(names) && AllStat(names, stat)
    ensures StrictlySorted(Snapshot(names, stat)) && Ascending(Snapshot(names, stat))
    ensures forall e :: e in Snapshot(names, stat) <==>
              e.name in names && e.name != "." && e.name != ".." && e.info == stat[e.name]
  {
    DescribedNames(names, stat);
    SortSorts(Described(names, stat));
    assert forall e :: e in Snapshot(names, stat) <==> e in multiset(Snapshot(names, stat));
    assert forall e :: e in Described(names, stat) <==> e in multiset(Described(names, stat));
  }

  // ----- Resuming by name -----

  /** partition_point of `name <= marker`. */
  function DirectoryStart(entries: seq<DirectoryEntry>, marker: Option<string>): (start: nat)
    ensures start <= |entries|
  {
    if marker.None? || entries == [] || !Leq(entries[0].name, marker.value) then 0
    else 1 + DirectoryStart(entries[1..], marker)
  }

  lemma {:induction false} StartsAfterLeq(entries: seq<DirectoryEntry>, marker: string)
    requires StrictlySorted(entries)
    ensures var start := DirectoryStart(entries, Some(marker));
            forall i | 0 <= i < |entries| :: i < start <==> Leq(entries[i].name, marker)
  {
    if entries != [] {
      assert StrictlySorted(entries[1..]);
      StartsAfterLeq(entries[1..], marker);
      forall i | 0 <= i < |entries|
        ensures i < DirectoryStart(entries, Some(marker)) <==> Leq(entries[i].name, marker)
      {
        if i > 0 {
          assert entries[i] == entries[1..][i - 1];
          if Leq(entries[i].name, marker) {
            LeqTransitive(entries[0].name, entries[i].name, marker);
          }
        }
      }
    }
  }

  /** The page starts at the first name that comes after the marker, whether or not the marker is listed. */
  lemma StartsAfterMarker(entries: seq<DirectoryEntry>, marker: string)
    requires Ascending(entries)
    ensures var start := DirectoryStart(entries, Some(marker));
            forall i | 0 <= i < |entries| :: i >= start <==> Before(marker, entries[i].name)
  {
    hide Leq, Before, DirectoryStart, Ascending, StrictlySorted;
    SortedIsAscending(entries);
    StartsAfterLeq(entries, marker);
    forall i | 0 <= i < |entries|
      ensures i >= DirectoryStart(entries, Some(marker)) <==> Before(marker, entries[i].name)
    {
      LeqTotal(entries[i].name, marker);
      LessIsBefore(marker, entries[i].name);
    }
  }

  /** Resuming with the name of entry k goes on with entry k + 1. */
  lemma ResumesAfter(entries: seq<DirectoryEntry>, k: nat)
    requires StrictlySorted(entries) && k < |entries|
    ensures DirectoryStart(entries, Some(entries[k].name)) == k + 1
  {
    StartsAfterLeq(entries, entries[k].name);
    LeqTotal(entries[k].name, entries[k].name);
    if k + 1 < |entries| {
      LeqTotal(entries[k].name, entries[k + 1].name);
    }
  }

  /** A reader that resumes each page with the last name it was given. */
  function ReadByName(entries: seq<DirectoryEntry>, marker: Option<string>, costs: seq<nat>, rooms: seq<nat>): seq<DirectoryEntry>
    requires |costs| == |entries|
    decreases |rooms|
  {
    if rooms == [] then []
    else
      var start := DirectoryStart(entries, marker);
      var end := PageEnd(costs, start, rooms[0]);
      entries[start..end]
      + ReadByName(entries, if start < end then Some(entries[end - 1].name) else marker, costs, rooms[1..])
  }

  /** Resuming by name is resuming by position. */
  lemma {:induction false} ByNameIsByPosition(entries: seq<DirectoryEntry>, marker: Option<string>, costs: seq<nat>, rooms: seq<nat>)
    requires StrictlySorted(entries) && |costs| == |entries|
    ensures ReadByName(entries, marker, costs, rooms) == ReadAll(entries, DirectoryStart(entries, marker), costs, rooms)
    decreases |rooms|
  {
    hide Leq, StrictlySorted, DirectoryStart;
    if rooms != [] {
      var start := DirectoryStart(entries, marker);
      var end := PageEnd(costs, start, rooms[0]);
      if start < end {
        ResumesAfter(entries, end - 1);
        ByNameIsByPosition(entries, Some(entries[end - 1].name), costs, rooms[1..]);
      } else {
        ByNameIsByPosition(entries, marker, costs, rooms[1..]);
      }
    }
  }

  /** For distinct names, every sequence of buffers that each hold the entry they start with yields the sorted
      listing without the dot names from its beginning on, every entry exactly once, and enough buffers yield all of it. */
  lemma PagesReproduceSnapshot(names: seq<string>, stat: map<string, nat>, costs: seq<nat>, rooms: seq<nat>)
    returns (reached: nat)
    requires Distinct(names) && AllStat(names, stat)
    requires |costs| == |Snapshot(names, stat)| && RoomForOne(0, costs, rooms)
    ensures reached <= |Snapshot(names, stat)|
    ensures Ascending(Snapshot(names, stat))
    ensures ReadByName(Snapshot(names, stat), None, costs, rooms) == Snapshot(names, stat)[..reached]
    ensures |rooms| >= |Snapshot(names, stat)| ==> reached == |Snapshot(names, stat)|
  {
    SnapshotIsListing(names, stat);
    var entries := Snapshot(names, stat);
    ByNameIsByPosition(entries, None, costs, rooms);
    reached := PagesReproduceListing(entries, 0, costs, rooms);
  }

  // ----- The callback -----

  predicate NameFits(name: string) { |Encode(name)| <= 255 }

  /** The entries a call looks at: those it returns and the first that did not fit. */
  function Attempted(entries: seq<DirectoryEntry>, start: nat, end: nat): seq<DirectoryEntry>
    requires start <= end <= |entries|
  {
    entries[start..if end < |entries| then end + 1 else end]
  }

  /** `finished` says whether the mark that ends the listing is in the buffer. */
  datatype Page = Page(entries: seq<DirectoryEntry>, finished: bool)

  /** The marker arrives as UTF-16. */
  function Decoded(marker: Option<seq<Unit>>): Option<string> {
    if marker.None? then None else Some(DecodeLossy(marker.value))
  }

  /** What a call that starts at an entry returns: an error exactly if a name it looks at is too long, and otherwise
      the entries that fit, with the end mark exactly if they are the last and it fits as well. */
  ghost predicate Filled(reply: Result<Page, Error>, entries: seq<DirectoryEntry>, start: nat, costs: seq<nat>, mark: nat, room: nat)
    requires start <= |entries| == |costs|
  {
    var end := PageEnd(costs, start, room);
    if exists e :: e in Attempted(entries, start, end) && !NameFits(e.name) then reply == Err(NameTooLong)
    else reply == Ok(Page(entries[start..end], end == |entries| && Total(costs, start, end) + mark <= room))
  }

  class IfuseFileContext {
    const directory: bool
    var directoryEntries: Option<seq<DirectoryEntry>>

    constructor (directory: bool)
      ensures this.directory == directory && directoryEntries == None
    {
      this.directory, directoryEntries := directory, None;
    }

    /** The loop that describes and sorts the listing; `stat` holds the answers to the stat requests,
        and a missing answer is a refusal. */
    method TakeSnapshot(names: seq<string>, stat: map<string, nat>) returns (reply: Result<(), Error>)
      modifies this
      ensures reply.Ok? <==> AllStat(names, stat)
      ensures reply.Ok? ==> directoryEntries == Some(Snapshot(names, stat))
      ensures reply.Err? ==> reply.error == Refused && directoryEntries == old(directoryEntries)
    {
      var entries: seq<DirectoryEntry> := [];
      for k := 0 to |names|
        invariant AllStat(names[..k], stat)
        invariant entries == Described(names[..k], stat)
        invariant directoryEntries == old(directoryEntries)
      {
        var name := names[k];
        assert names[..k + 1] == names[..k] + [name];
        if name != "." && name != ".." {
          if name !in stat {
            assert name in names;
            return Err(Refused);
          }
          entries := entries + [DirectoryEntry(name, stat[name])];
        }
        DescribedSnoc(names[..k], name, stat);
      }
      assert names[..|names|] == names;
      directoryEntries := Some(SortByName(entries));
      reply := Ok(());
    }

    /** One page. A call without a marker takes a new snapshot from the device's answers; a call with one
        goes on with the snapshot there is. `costs` is the room each entry of that snapshot takes,
        and `mark` the room of the end mark. */
    method ReadDirectory(marker: Option<seq<Unit>>, names: Option<seq<string>>, stat: map<string, nat>,
                         costs: seq<nat>, mark: nat, room: nat) returns (reply: Result<Page, Error>)
      requires marker.Some? ==> |costs| == |directoryEntries.GetOr([])|
      requires marker.None? && names.Some? && AllStat(names.value, stat) ==> |costs| == |Snapshot(names.value, stat)|
      modifies this
      ensures !directory ==> reply == Err(NotADirectory)
      ensures directory && marker.None? && (names.None? || !AllStat(names.value, stat)) ==> reply == Err(Refused)
      ensures directoryEntries == if directory && marker.None? && names.Some? && AllStat(names.value, stat)
                                  then Some(Snapshot(names.value, stat)) else old(directoryEntries)
      ensures directory && (marker.None? ==> names.Some? && AllStat(names.value, stat)) ==>
                var entries := directoryEntries.GetOr([]);
                && |costs| == |entries|
                && Filled(reply, entries, DirectoryStart(entries, Decoded(marker)), costs, mark, room)
                && (marker.Some? && Ascending(entries) ==> ResumesFirst(entries, DecodeLossy(marker.value), reply))
    {
      if !directory {
        return Err(NotADirectory);
      }
      if marker.None? {
        if names.None? {
          return Err(Refused);
        }
        var taken := TakeSnapshot(names.value, stat);
        if taken.Err? {
          return Err(taken.error);
        }
      }
      var entries := directoryEntries.GetOr([]);
      reply := FillBuffer(entries, DirectoryStart(entries, Decoded(marker)), costs, mark, room);
      if marker.Some? && Ascending(entries) {
        ResumesThere(entries, DecodeLossy(marker.value), reply, costs, mark, room);
      }
    }
  }

  /** The first entry of a page, or the end of the listing if it has none that fit, follows the marker directly. */
  ghost predicate ResumesFirst(entries: seq<DirectoryEntry>, marker: string, reply: Result<Page, Error>) {
    reply.Ok? && reply.value.entries != [] ==>
      exists start: nat ::
        && start < |entries| && reply.value.entries <= entries[start..]
        && forall i | 0 <= i < |entries| :: i >= start <==> Before(marker, entries[i].name)
  }

  lemma ResumesThere(entries: seq<DirectoryEntry>, marker: string, reply: Result<Page, Error>, costs: seq<nat>, mark: nat, room: nat)
    requires |costs| == |entries| && Ascending(entries)
    requires Filled(reply, entries, DirectoryStart(entries, Some(marker)), costs, mark, room)
    ensures ResumesFirst(entries, marker, reply)
  {
    hide Before, Ascending;
    var start := DirectoryStart(entries, Some(marker));
    StartsAfterMarker(entries, marker);
    FilledIsSlice(reply, entries, start, costs, mark, room);
    if reply.Ok? && reply.value.entries != [] {
      var end := PageEnd(costs, start, room);
      assert entries[start..end] == entries[start..][..end - start];
    }
  }

  /** The loop that appends entries until one does not fit; a name too long for an entry is an error. */
  method FillBuffer(entries: seq<DirectoryEntry>, start: nat, costs: seq<nat>, mark: nat, room: nat)
    returns (reply: Result<Page, Error>)
    requires start <= |entries| == |costs|
    ensures Filled(reply, entries, start, costs, mark, room)
  {
    hide NameFits;
    ghost var end := PageEnd(costs, start, room);
    var index := start;
    var left: nat := room;
    while index < |entries|
      invariant start <= index <= |entries| && PageEnd(costs, index, left) == end
      invariant left + Total(costs, start, index) == room
      invariant forall e | e in entries[start..index] :: NameFits(e.name)
    {
      if !NameFits(entries[index].name) {
        assert entries[index] == Attempted(entries, start, end)[index - start];
        return Err(NameTooLong);
      }
      assert entries[start..index + 1] == entries[start..index] + [entries[index]];
      TotalSnoc(costs, start, index);
      if costs[index] > left {
        return Ok(Page(entries[start..index], false));
      }
      left := left - costs[index];
      index := index + 1;
    }
    assert entries[start..end] == entries[start..];
    reply := Ok(Page(entries[start..], mark <= left));
  }

  /** WinFsp enumerating a directory: page after page, each resumed with the last name it was given, in UTF-16.
      Whatever the buffers, it is given the sorted listing without the dot names from its beginning on, every entry
      exactly once; enough buffers give all of it, and nothing fails if all names fit. */
  method EnumerateDirectory(context: IfuseFileContext, names: seq<string>, stat: map<string, nat>,
                            costs: seq<nat>, mark: nat, rooms: seq<nat>)
    returns (reply: Result<seq<DirectoryEntry>, Error>)
    requires context.directory && Distinct(names) && AllStat(names, stat)
    requires |costs| == |Snapshot(names, stat)| && RoomForOne(0, costs, rooms)
    modifies context
    ensures reply.Ok? ==> reply.value <= Snapshot(names, stat) && Ascending(reply.value)
    ensures reply.Ok? && |rooms| >= |costs| ==> reply.value == Snapshot(names, stat)
    ensures (forall e | e in Snapshot(names, stat) :: NameFits(e.name)) ==> reply.Ok?
  {
    hide StrictlySorted, Ascending, Leq, Snapshot, NameFits, Filled, PageEnd, DirectoryStart, Decoded, Encode, AllStat, Distinct, RoomForOne;
    SnapshotIsListing(names, stat);
    ghost var listing := Snapshot(names, stat);
    ghost var reached: nat := 0;
    var read: seq<DirectoryEntry> := [];
    var marker: Option<seq<Unit>> := None;
    StartsAtFirst(listing);
    assert rooms[0..] == rooms;
    for k := 0 to |rooms|
      invariant reached <= |listing| && read == listing[..reached]
      invariant reached == |listing| || reached >= k
      invariant RoomForOne(reached, costs, rooms[k..])
      invariant marker.Some? ==> context.directoryEntries == Some(listing)
      invariant DirectoryStart(listing, Decoded(marker)) == reached
    {
      var page := context.ReadDirectory(marker, Some(names), stat, costs, mark, rooms[k]);
      if page.Err? {
        FilledIsSlice(page, listing, reached, costs, mark, rooms[k]);
        return Err(page.error);
      }
      reached := PageAdvances(page.value, listing, reached, costs, mark, rooms, k);
      if page.value.entries != [] {
        marker := Some(Encode(page.value.entries[|page.value.entries| - 1].name));
      }
      read := read + page.value.entries;
    }
    assert listing[..|listing|] == listing;
    AscendingPrefix(listing, reached);
    reply := Ok(read);
  }

  /** What one page adds, and where the next one starts. */
  lemma PageAdvances(page: Page, listing: seq<DirectoryEntry>, reached: nat, costs: seq<nat>, mark: nat, rooms: seq<nat>, k: nat)
    returns (end: nat)
    requires StrictlySorted(listing) && |listing| == |costs|
    requires reached <= |listing| && k < |rooms| && RoomForOne(reached, costs, rooms[k..])
    requires Filled(Ok(page), listing, reached, costs, mark, rooms[k])
    ensures reached <= end <= |listing| && (reached < |listing| ==> reached < end)
    ensures RoomForOne(end, costs, rooms[k + 1..])
    ensures listing[..reached] + page.entries == listing[..end]
    ensures page.entries == [] ==> end == reached
    ensures page.entries != [] ==>
              DirectoryStart(listing, Decoded(Some(Encode(page.entries[|page.entries| - 1].name)))) == end
  {
    hide StrictlySorted, Leq, Filled, NameFits, RoomForOne, DirectoryStart, Decoded, Encode;
    end := PageEnd(costs, reached, rooms[k]);
    FilledIsSlice(Ok(page), listing, reached, costs, mark, rooms[k]);
    NextPageFits(reached, costs, rooms, k);
    if page.entries != [] {
      ResumesAfterEncoded(listing, end - 1);
    }
  }

  lemma AscendingPrefix(entries: seq<DirectoryEntry>, reached: nat)
    requires reached <= |entries| && Ascending(entries)
    ensures Ascending(entries[..reached])
  {
  }

  lemma StartsAtFirst(entries: seq<DirectoryEntry>)
    ensures DirectoryStart(entries, Decoded(None)) == 0
  {
  }

  lemma FilledIsSlice(reply: Result<Page, Error>, entries: seq<DirectoryEntry>, start: nat, costs: seq<nat>, mark: nat, room: nat)
    requires start <= |entries| == |costs| && Filled(reply, entries, start, costs, mark, room)
    ensures (forall e | e in entries :: NameFits(e.name)) ==> reply.Ok?
    ensures reply.Ok? ==> reply.value.entries == entries[start..PageEnd(costs, start, room)]
  {
  }

  /** A name comes back from UTF-16 as itself, so that the next page goes on after it. */
  lemma ResumesAfterEncoded(entries: seq<DirectoryEntry>, k: nat)
    requires StrictlySorted(entries) && k < |entries|
    ensures DirectoryStart(entries, Decoded(Some(Encode(entries[k].name)))) == k + 1
  {
    DecodeOfEncode(entries[k].name);
    ResumesAfter(entries, k);
  }
}
