/** Filling directory pages: what fits in a buffer, the Linux listing resumed by offset, and the
    proof that resuming reproduces the whole listing. */
module Paging {

  /** Where the page that starts at an offset ends: entries are taken while the next one fits
      the room that is left. `costs` is the room each entry of the listing takes.
      An offset past the end gives an empty page. */
  function PageEnd(costs: seq<nat>, offset: nat, room: nat): (end: nat)
    ensures offset <= |costs| ==> offset <= end <= |costs|
    ensures offset < |costs| && costs[offset] <= room ==> offset < end
    decreases |costs| - offset
  {
    if offset >= |costs| || costs[offset] > room then offset
    else PageEnd(costs, offset + 1, room - costs[offset])
  }

  function Total(costs: seq<nat>, start: nat, end: nat): nat
    requires start <= end <= |costs|
    decreases end - start
  {
    if start == end then 0 else costs[start] + Total(costs, start + 1, end)
  }

  lemma {:induction false} TotalSnoc(costs: seq<nat>, start: nat, end: nat)
    requires start <= end < |costs|
    ensures Total(costs, start, end + 1) == Total(costs, start, end) + costs[end]
    decreases end - start
  {
    if start < end {
      TotalSnoc(costs, start + 1, end);
    }
  }

  /** The page is the longest run of entries that fits. */
  lemma {:induction false} PageIsLongest(costs: seq<nat>, offset: nat, room: nat, end: nat)
    requires offset <= end <= |costs|
    ensures end <= PageEnd(costs, offset, room) <==> Total(costs, offset, end) <= room
    decreases end - offset
  {
    if offset < end && costs[offset] <= room {
      PageIsLongest(costs, offset + 1, room - costs[offset], end);
    }
  }

  // ----- Linux: the listing with "." and "..", resumed by numeric offset -----

  /** `names` with "." put in front and ".." at index 1 where the device left them out. */
  function WithDots(names: seq<string>): (all: seq<string>)
    ensures "." in all && ".." in all
  {
    var dotted := if "." in names then names else ["."] + names;
    assert "." in dotted;
    if ".." in dotted then dotted else dotted[..1] + [".."] + dotted[1..]
  }

  function Without(names: seq<string>, dropped: set<string>): seq<string> {
    if names == [] then []
    else if names[0] in dropped then Without(names[1..], dropped)
    else [names[0]] + Without(names[1..], dropped)
  }

  lemma {:induction false} WithoutConcat(a: seq<string>, b: seq<string>, dropped: set<string>)
    ensures Without(a + b, dropped) == Without(a, dropped) + Without(b, dropped)
  {
    if a == [] {
      assert a + b == b;
    } else {
      assert (a + b)[1..] == a[1..] + b;
      WithoutConcat(a[1..], b, dropped);
    }
  }

  /** The device's own entries stay, in order and as often. */
  lemma WithDotsKeeps(names: seq<string>)
    ensures Without(WithDots(names), {".", ".."}) == Without(names, {".", ".."})
  {
    var dots := {".", ".."};
    var dotted := if "." in names then names else ["."] + names;
    assert Without(["."], dots) == Without([], dots) == Without([".."], dots);
    WithoutConcat(["."], names, dots);
    assert dotted == dotted[..1] + dotted[1..];
    WithoutConcat(dotted[..1], dotted[1..], dots);
    WithoutConcat(dotted[..1], [".."], dots);
    WithoutConcat(dotted[..1] + [".."], dotted[1..], dots);
  }

  /** Each dot name the device gave stays as often as it gave it, and each it left out appears exactly once. */
  lemma WithDotsCompletes(names: seq<string>)
    ensures multiset(WithDots(names))
            == multiset(names) + (if "." in names then multiset{} else multiset{"."})
                               + (if ".." in names then multiset{} else multiset{".."})
  {
    var dotted := if "." in names then names else ["."] + names;
    assert ".." in dotted <==> ".." in names by {
      if "." !in names {
        assert forall n :: n in dotted <==> n == "." || n in names;
      }
    }
    assert dotted == dotted[..1] + dotted[1..];
    assert multiset(dotted) == multiset(names) + (if "." in names then multiset{} else multiset{"."});
    assert multiset(dotted) == multiset(dotted[..1]) + multiset(dotted[1..]);
  }

  /** Where they go: "." comes first and ".." second. */
  lemma WithDotsPlaces(names: seq<string>)
    ensures "." !in names ==> WithDots(names)[0] == "."
    ensures ".." !in names ==> |WithDots(names)| > 1 && WithDots(names)[1] == ".."
    ensures "." in names && ".." in names ==> WithDots(names) == names
  {
    var dotted := if "." in names then names else ["."] + names;
    assert "." !in names ==> forall n :: n in dotted <==> n == "." || n in names;
    assert dotted == dotted[..1] + dotted[1..];
  }

  datatype Dirent = Dirent(inode: nat, next: nat, name: string)

  /** A reader that resumes with the last offset it was given, page after page. */
  function ReadAll<T>(listing: seq<T>, offset: nat, costs: seq<nat>, rooms: seq<nat>): seq<T>
    requires offset <= |listing| == |costs|
    decreases |rooms|
  {
    if rooms == [] then []
    else
      var end := PageEnd(costs, offset, rooms[0]);
      listing[offset..end] + ReadAll(listing, end, costs, rooms[1..])
  }

  /** Each buffer has room for the entry its page must start with. */
  predicate RoomForOne(offset: nat, costs: seq<nat>, rooms: seq<nat>)
    requires offset <= |costs|
    decreases |rooms|
  {
    rooms == [] ||
    ((offset < |costs| ==> costs[offset] <= rooms[0]) &&
     RoomForOne(PageEnd(costs, offset, rooms[0]), costs, rooms[1..]))
  }

  /** Buffers that hold every entry hold the one they must start with. */
  lemma {:induction false} LargeBuffersSuffice(offset: nat, costs: seq<nat>, rooms: seq<nat>)
    requires offset <= |costs| && forall i, k | 0 <= i < |costs| && 0 <= k < |rooms| :: costs[i] <= rooms[k]
    ensures RoomForOne(offset, costs, rooms)
    decreases |rooms|
  {
    if rooms != [] {
      assert forall k | 0 <= k < |rooms| - 1 :: rooms[1..][k] == rooms[k + 1];
      LargeBuffersSuffice(PageEnd(costs, offset, rooms[0]), costs, rooms[1..]);
    }
  }

  /** The next page makes progress, and the rest of the buffers fit from where it ends. */
  lemma NextPageFits(offset: nat, costs: seq<nat>, rooms: seq<nat>, k: nat)
    requires offset <= |costs| && k < |rooms| && RoomForOne(offset, costs, rooms[k..])
    ensures offset <= PageEnd(costs, offset, rooms[k]) <= |costs|
    ensures offset < |costs| ==> offset < PageEnd(costs, offset, rooms[k])
    ensures RoomForOne(PageEnd(costs, offset, rooms[k]), costs, rooms[k + 1..])
  {
    assert rooms[k..][1..] == rooms[k + 1..];
  }

  lemma SlicesJoin<T>(s: seq<T>, a: nat, b: nat, c: nat)
    requires a <= b <= c <= |s|
    ensures s[a..b] + s[b..c] == s[a..c]
  {
  }

  /** Any number of pages of any sizes gives the positions from the offset on, each once and in order;
      every page makes progress, so as many pages as entries give the whole listing. */
  lemma {:induction false} PagesReproduceListing<T>(listing: seq<T>, offset: nat, costs: seq<nat>, rooms: seq<nat>)
    returns (reached: nat)
    requires offset <= |listing| == |costs| && RoomForOne(offset, costs, rooms)
    ensures offset <= reached <= |listing| && ReadAll(listing, offset, costs, rooms) == listing[offset..reached]
    ensures reached == |listing| || reached >= offset + |rooms|
    decreases |rooms|
  {
    if rooms == [] {
      reached := offset;
    } else {
      var end := PageEnd(costs, offset, rooms[0]);
      reached := PagesReproduceListing(listing, end, costs, rooms[1..]);
      SlicesJoin(listing, offset, end, reached);
    }
  }
}
