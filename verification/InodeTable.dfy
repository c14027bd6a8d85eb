/** The two maps of src/inode.rs: a value model of the table with its laws, and the class
    that updates the maps in place and is proved against it. */
module Inodes {
  import opened Paths
  import opened Wrappers

  const ROOT := 1

  datatype Table = Table(next: nat, byInode: map<nat, string>, byPath: map<string, nat>)

  const FRESH_TABLE := Table(2, map[ROOT := "/"], map["/" := ROOT])

  // ----- Invariants -----

  /** What every operation keeps: a tracked path's inode leads back to that path,
      and every number in use is below the next one to issue. */
  ghost predicate Consistent(t: Table) {
    && (forall p | p in t.byPath :: t.byPath[p] in t.byInode && t.byInode[t.byPath[p]] == p)
    && (forall i | i in t.byInode :: i < t.next)
  }

  /** The maps are exact inverses: no inode is left behind by an overwritten path. */
  ghost predicate Exact(t: Table) {
    && Consistent(t)
    && (forall i | i in t.byInode :: t.byInode[i] in t.byPath && t.byPath[t.byInode[i]] == i)
  }

  lemma ByPathInjective(t: Table, p: string, q: string)
    requires Consistent(t) && p in t.byPath && q in t.byPath && t.byPath[p] == t.byPath[q]
    ensures p == q
  {
    assert t.byInode[t.byPath[p]] == p;
  }

  // ----- Issuing -----

  function InodeOf(t: Table, path: string): nat {
    if path in t.byPath then t.byPath[path] else t.next
  }

  function Track(t: Table, path: string): Table {
    if path in t.byPath then t
    else Table(t.next + 1, t.byInode[t.next := path], t.byPath[path := t.next])
  }

  // ----- Renaming -----

  /** The pairs `rename` collects before it touches the maps. */
  function Moves(t: Table, from: string): map<string, nat> {
    map p | p in t.byPath && InSubtree(p, from) :: t.byPath[p]
  }

  /** One iteration of the loop of `rename`. */
  function MoveOne(t: Table, from: string, to: string, old_: string, inode: nat): Table
    requires from <= old_
  {
    var renamed := Image(from, to, old_);
    Table(t.next, t.byInode[inode := renamed], (t.byPath - {old_})[renamed := inode])
  }

  ghost predicate Picks(order: seq<string>, keys: set<string>) {
    && (forall i | 0 <= i < |order| :: order[i] in keys)
    && (forall i, j | 0 <= i < j < |order| :: order[i] != order[j])
  }

  /** `order` lists each of the keys exactly once. */
  ghost predicate Enumerates(order: seq<string>, keys: set<string>) {
    Picks(order, keys) && forall k | k in keys :: k in order
  }

  /** The loop of `rename` over the collected pairs, visited in the given order. */
  ghost function RunMoves(t: Table, from: string, to: string, moves: map<string, nat>, order: seq<string>): Table
    requires Picks(order, moves.Keys) && forall p | p in moves :: from <= p
  {
    if order == [] then t
    else
      var last := order[|order| - 1];
      MoveOne(RunMoves(t, from, to, moves, order[..|order| - 1]), from, to, last, moves[last])
  }

  /** No image of a moved path is another moved path. A caller can check this before the call. */
  ghost predicate Unentangled(t: Table, from: string, to: string) {
    forall p | p in Moves(t, from) ::
      Image(from, to, p) == p || Image(from, to, p) !in Moves(t, from)
  }

  /** The moved path whose image is q, if q is an image at all. */
  function Preimage(from: string, to: string, q: string): string
    requires to <= q
  {
    from + q[|to|..]
  }

  predicate IsImage(moves: map<string, nat>, from: string, to: string, q: string) {
    to <= q && Preimage(from, to, q) in moves
  }

  predicate IsMoved(t: Table, from: string, inode: nat)
    requires inode in t.byInode
  {
    var p := t.byInode[inode];
    p in t.byPath && InSubtree(p, from) && t.byPath[p] == inode
  }

  function RenamedInodes(t: Table, from: string, to: string): map<nat, string> {
    map i | i in t.byInode :: if IsMoved(t, from, i) then Image(from, to, t.byInode[i]) else t.byInode[i]
  }

  function RenamedByPath(t: Table, from: string, to: string): map<string, nat> {
    var moves := Moves(t, from);
    var images := set p | p in moves :: Image(from, to, p);
    map q | q in (t.byPath.Keys - moves.Keys) + images ::
      if IsImage(moves, from, to, q) then moves[Preimage(from, to, q)]
      else if q in t.byPath then t.byPath[q] else t.next
  }

  /** What `rename` is for: all moved paths carry their inodes to their images at once, an image
      overwrites the path it lands on, and nothing else changes. */
  function Renamed(t: Table, from: string, to: string): Table {
    Table(t.next, RenamedInodes(t, from, to), RenamedByPath(t, from, to))
  }

  lemma ImageAndPreimage(from: string, to: string, p: string)
    requires from <= p
    ensures to <= Image(from, to, p) && Preimage(from, to, Image(from, to, p)) == p
  {
    assert Image(from, to, p)[|to|..] == p[|from|..];
  }

  lemma PreimageAndImage(from: string, to: string, q: string)
    requires to <= q
    ensures Image(from, to, Preimage(from, to, q)) == q
  {
    assert Preimage(from, to, q)[|from|..] == q[|to|..];
  }

  lemma FixedImage(from: string, to: string, p: string)
    requires from <= p && Image(from, to, p) == p
    ensures from == to
  {
    var suffix := p[|from|..];
    assert p == from + suffix == to + suffix;
    assert |from| == |to|;
    assert (from + suffix)[..|from|] == from && (to + suffix)[..|to|] == to;
  }

  lemma ImageInPlace(from: string, p: string)
    requires from <= p
    ensures Image(from, from, p) == p
  {
  }

  /** What holds after any part of the loop, in any order, nested paths included. */
  ghost predicate PartlyMoved(t: Table, s: Table, from: string, to: string, moves: map<string, nat>, order: seq<string>)
    requires Picks(order, moves.Keys) && forall p | p in moves :: from <= p
  {
    && Consistent(s)
    && s.next == t.next
    && s.byInode.Keys == t.byInode.Keys
    && (forall p | p in order :: moves[p] in s.byInode && s.byInode[moves[p]] == Image(from, to, p))
    && (forall i | i in t.byInode && (forall p | p in order :: moves[p] != i) :: s.byInode[i] == t.byInode[i])
    && (forall p, r | p in moves && p !in order && r in s.byPath :: s.byPath[r] == moves[p] ==> r == p)
  }

  lemma MoveOneKeeps(t: Table, s: Table, from: string, to: string, moves: map<string, nat>, init: seq<string>, last: string)
    requires Consistent(t) && moves == Moves(t, from) && Picks(init, moves.Keys) && last in moves && last !in init
    requires PartlyMoved(t, s, from, to, moves, init)
    ensures PartlyMoved(t, MoveOne(s, from, to, last, moves[last]), from, to, moves, init + [last])
  {
    var s', order := MoveOne(s, from, to, last, moves[last]), init + [last];
    forall p | p in moves && p != last ensures moves[p] != moves[last] {
      if moves[p] == moves[last] {
        ByPathInjective(t, p, last);
      }
    }
    forall p, r | p in moves && p !in order && r in s'.byPath && s'.byPath[r] == moves[p] ensures r == p {
      assert p != last;
    }
  }

  lemma NothingMoved(t: Table, from: string, to: string)
    requires Consistent(t)
    ensures PartlyMoved(t, t, from, to, Moves(t, from), [])
  {
    forall p, r | p in Moves(t, from) && r in t.byPath && t.byPath[r] == t.byPath[p] ensures r == p {
      ByPathInjective(t, p, r);
    }
  }

  lemma {:induction false} LoopKeepsConsistency(t: Table, from: string, to: string, moves: map<string, nat>, order: seq<string>)
    requires Consistent(t) && moves == Moves(t, from) && Picks(order, moves.Keys)
    ensures PartlyMoved(t, RunMoves(t, from, to, moves, order), from, to, moves, order)
    decreases |order|
  {
    hide PartlyMoved, Consistent, MoveOne, Image;
    if order == [] {
      NothingMoved(t, from, to);
    } else {
      var init, last := order[..|order| - 1], order[|order| - 1];
      assert order == init + [last];
      LoopKeepsConsistency(t, from, to, moves, init);
      MoveOneKeeps(t, RunMoves(t, from, to, moves, init), from, to, moves, init, last);
    }
  }

  /** by_path after part of the loop, when no image is a moved path. */
  ghost predicate PathsMoved(t: Table, s: Table, from: string, to: string, moves: map<string, nat>, order: seq<string>) {
    forall q :: q in s.byPath <==> (PendingImage(from, to, order, q) || (q in t.byPath && q !in order))
  }

  ghost predicate PendingImage(from: string, to: string, order: seq<string>, q: string) {
    to <= q && Preimage(from, to, q) in order
  }

  ghost predicate PathValues(t: Table, s: Table, from: string, to: string, moves: map<string, nat>, order: seq<string>)
    requires forall p | p in order :: p in moves
  {
    forall q | q in s.byPath ::
      if PendingImage(from, to, order, q) then s.byPath[q] == moves[Preimage(from, to, q)]
      else q in t.byPath && s.byPath[q] == t.byPath[q]
  }

  lemma {:induction false} LoopMovesPaths(t: Table, from: string, to: string, moves: map<string, nat>, order: seq<string>)
    requires moves == Moves(t, from) && Picks(order, moves.Keys)
    requires forall p | p in moves :: Image(from, to, p) !in moves
    ensures PathsMoved(t, RunMoves(t, from, to, moves, order), from, to, moves, order)
    ensures PathValues(t, RunMoves(t, from, to, moves, order), from, to, moves, order)
    decreases |order|
  {
    if order != [] {
      var init, last := order[..|order| - 1], order[|order| - 1];
      assert order == init + [last];
      LoopMovesPaths(t, from, to, moves, init);
      var s := RunMoves(t, from, to, moves, init);
      var s' := RunMoves(t, from, to, moves, order);
      var image := Image(from, to, last);
      ImageAndPreimage(from, to, last);
      forall q
        ensures q in s'.byPath <==> (PendingImage(from, to, order, q) || (q in t.byPath && q !in order))
        ensures q in s'.byPath ==>
                  if PendingImage(from, to, order, q) then s'.byPath[q] == moves[Preimage(from, to, q)]
                  else q in t.byPath && s'.byPath[q] == t.byPath[q]
      {
        if to <= q {
          PreimageAndImage(from, to, q);
        }
        assert q in order <==> q in init || q == last;
        if PendingImage(from, to, init, q) {
          assert Image(from, to, Preimage(from, to, q)) !in moves;
        }
      }
    }
  }

  lemma {:induction false} LoopInPlace(t: Table, from: string, moves: map<string, nat>, order: seq<string>)
    requires Consistent(t) && moves == Moves(t, from) && Picks(order, moves.Keys)
    ensures RunMoves(t, from, from, moves, order) == t
    decreases |order|
  {
    if order != [] {
      var last := order[|order| - 1];
      LoopInPlace(t, from, moves, order[..|order| - 1]);
      assert Image(from, from, last) == last;
      assert (t.byPath - {last})[last := moves[last]] == t.byPath;
      assert t.byInode[moves[last] := last] == t.byInode;
    }
  }

  lemma EnumerationHas(order: seq<string>, keys: set<string>)
    requires Enumerates(order, keys)
    ensures forall k :: k in order <==> k in keys
  {
  }

  lemma DisjointPathsRenamed(t: Table, from: string, to: string, order: seq<string>)
    requires Consistent(t) && Enumerates(order, Moves(t, from).Keys)
    requires forall p | p in Moves(t, from) :: Image(from, to, p) !in Moves(t, from)
    ensures RunMoves(t, from, to, Moves(t, from), order).byPath == Renamed(t, from, to).byPath
  {
    hide RunMoves, Image, Consistent, RenamedInodes;
    var moves := Moves(t, from);
    var s, r := RunMoves(t, from, to, moves, order), Renamed(t, from, to);
    EnumerationHas(order, moves.Keys);
    LoopMovesPaths(t, from, to, moves, order);
    forall q
      ensures q in s.byPath <==> q in r.byPath
      ensures q in s.byPath ==> s.byPath[q] == r.byPath[q]
    {
      RenamedPaths(t, from, to, q);
      assert PendingImage(from, to, order, q) <==> IsImage(moves, from, to, q);
    }
  }

  /** Whatever order the hash map yields, an unentangled rename is the simultaneous one. */
  lemma {:induction false} RenameIsExact(t: Table, from: string, to: string, order: seq<string>)
    requires Consistent(t) && Unentangled(t, from, to) && Enumerates(order, Moves(t, from).Keys)
    ensures RunMoves(t, from, to, Moves(t, from), order) == Renamed(t, from, to)
  {
    hide Renamed, RunMoves;
    var moves := Moves(t, from);
    if from == to {
      LoopInPlace(t, from, moves, order);
      RenamedInPlace(t, from);
    } else {
      forall p | p in moves ensures Image(from, to, p) !in moves {
        if Image(from, to, p) == p {
          FixedImage(from, to, p);
        }
      }
      InodesRenamed(t, from, to, order);
      DisjointPathsRenamed(t, from, to, order);
    }
  }

  /** The paths tracked after a rename, without mention of a loop. */
  lemma RenamedPaths(t: Table, from: string, to: string, q: string)
    ensures q in Renamed(t, from, to).byPath <==>
            IsImage(Moves(t, from), from, to, q) || (q in t.byPath && q !in Moves(t, from))
  {
    var moves := Moves(t, from);
    if IsImage(moves, from, to, q) {
      PreimageAndImage(from, to, q);
    }
    if p :| p in moves && Image(from, to, p) == q {
      ImageAndPreimage(from, to, p);
    }
  }

  /** Each moved path carries its inode to its image, both ways round. */
  lemma RenamedMoves(t: Table, from: string, to: string, p: string)
    requires Consistent(t) && p in Moves(t, from)
    ensures var r, image := Renamed(t, from, to), Image(from, to, p);
            && image in r.byPath && r.byPath[image] == t.byPath[p]
            && t.byPath[p] in r.byInode && r.byInode[t.byPath[p]] == image
  {
    ImageAndPreimage(from, to, p);
    RenamedPaths(t, from, to, Image(from, to, p));
  }

  /** Every other path stays tracked, under its own inode unless an image lands on it. */
  lemma RenamedKeeps(t: Table, from: string, to: string, q: string)
    requires Consistent(t) && q in t.byPath && q !in Moves(t, from)
    ensures q in Renamed(t, from, to).byPath
    ensures Renamed(t, from, to).byPath[q] == t.byPath[q] || exists p :: p in Moves(t, from) && Image(from, to, p) == q
  {
    RenamedPaths(t, from, to, q);
    if IsImage(Moves(t, from), from, to, q) {
      PreimageAndImage(from, to, q);
    }
  }

  lemma RenamedInPlace(t: Table, from: string)
    requires Consistent(t)
    ensures Renamed(t, from, from) == t
  {
    var r := Renamed(t, from, from);
    forall q ensures q in r.byPath <==> q in t.byPath {
      RenamedPaths(t, from, from, q);
      if from <= q {
        assert Preimage(from, from, q) == q;
      }
    }
    forall q | q in t.byPath ensures r.byPath[q] == t.byPath[q] {
      if from <= q {
        assert Preimage(from, from, q) == q;
      }
    }
    assert r.byPath == t.byPath;
    assert r.byInode == t.byInode;
  }

  lemma InodesRenamed(t: Table, from: string, to: string, order: seq<string>)
    requires Consistent(t) && Enumerates(order, Moves(t, from).Keys)
    ensures var s := RunMoves(t, from, to, Moves(t, from), order);
            s.byInode == Renamed(t, from, to).byInode && s.next == Renamed(t, from, to).next
  {
    hide RunMoves, RenamedByPath;
    var moves := Moves(t, from);
    var s := RunMoves(t, from, to, moves, order);
    LoopKeepsConsistency(t, from, to, moves, order);
    EnumerationHas(order, moves.Keys);
    forall i | i in t.byInode
      ensures s.byInode[i] == if IsMoved(t, from, i) then Image(from, to, t.byInode[i]) else t.byInode[i]
    {
      if IsMoved(t, from, i) {
        assert t.byInode[i] in order;
      } else {
        forall p | p in order ensures moves[p] != i {
          assert p in moves;
        }
      }
    }
  }

  lemma {:induction false} SomeOrder(keys: set<string>) returns (order: seq<string>)
    ensures Enumerates(order, keys)
    decreases |keys|
  {
    if keys == {} {
      order := [];
    } else {
      var k :| k in keys;
      var rest := SomeOrder(keys - {k});
      order := rest + [k];
    }
  }

  ghost predicate OrderIndependent(t: Table, from: string, to: string) {
    forall a, b | Enumerates(a, Moves(t, from).Keys) && Enumerates(b, Moves(t, from).Keys) ::
      RunMoves(t, from, to, Moves(t, from), a) == RunMoves(t, from, to, Moves(t, from), b)
  }

  /** Exactly when the result of `rename` does not depend on the hash map's order. */
  lemma RenameOrderIndependence(t: Table, from: string, to: string)
    requires Consistent(t)
    ensures OrderIndependent(t, from, to) <==> Unentangled(t, from, to)
  {
    var moves := Moves(t, from);
    if Unentangled(t, from, to) {
      forall a, b | Enumerates(a, moves.Keys) && Enumerates(b, moves.Keys)
        ensures RunMoves(t, from, to, moves, a) == RunMoves(t, from, to, moves, b)
      {
        RenameIsExact(t, from, to, a);
        RenameIsExact(t, from, to, b);
      }
    } else {
      var p :| p in moves && Image(from, to, p) != p && Image(from, to, p) in moves;
      EntangledOrdersDiffer(t, from, to, p);
    }
  }

  /** The last path visited has its image tracked afterwards, and is itself gone unless it is its own image. */
  lemma LastVisited(t: Table, from: string, to: string, p: string) returns (order: seq<string>)
    requires p in Moves(t, from)
    ensures Enumerates(order, Moves(t, from).Keys)
    ensures Image(from, to, p) in RunMoves(t, from, to, Moves(t, from), order).byPath
    ensures Image(from, to, p) != p ==> p !in RunMoves(t, from, to, Moves(t, from), order).byPath
  {
    var keys := Moves(t, from).Keys;
    var others := SomeOrder(keys - {p});
    order := others + [p];
    assert order[..|order| - 1] == others;
    forall k | k in keys ensures k in order {
      if k != p {
        assert k in keys - {p};
      }
    }
  }

  /** If the image of p is the moved path q, visiting p last keeps q tracked and visiting q last loses it. */
  lemma EntangledOrdersDiffer(t: Table, from: string, to: string, p: string)
    requires p in Moves(t, from)
    requires Image(from, to, p) != p && Image(from, to, p) in Moves(t, from)
    ensures !OrderIndependent(t, from, to)
  {
    var q := Image(from, to, p);
    var pLast := LastVisited(t, from, to, p);
    var qLast := LastVisited(t, from, to, q);
    ImageInPlace(from, p);
    if Image(from, to, q) == q {
      FixedImage(from, to, q);
    }
  }

  lemma PrefixesNest<T>(a: seq<T>, b: seq<T>, whole: seq<T>)
    requires a <= whole && b <= whole
    ensures a <= b || b <= a
  {
    if |a| <= |b| {
      assert a == whole[..|a|] && b == whole[..|b|];
      assert whole[..|b|][..|a|] == whole[..|a|];
    } else {
      assert whole[..|a|][..|b|] == whole[..|b|];
    }
  }

  /** Paths that are equal, or not nested either way, are never entangled. */
  lemma UnnestedIsUnentangled(t: Table, from: string, to: string)
    requires forall p | p in t.byPath :: Canonical(p)
    requires Canonical(from) && Canonical(to) && from != "/" && to != "/"
    requires from == to || (!InSubtree(to, from) && !InSubtree(from, to))
    ensures Unentangled(t, from, to)
  {
    if from == to {
      forall p | p in Moves(t, from) ensures Image(from, to, p) == p {}
      return;
    }
    forall p | p in Moves(t, from)
      ensures Image(from, to, p) !in Moves(t, from)
    {
      ImageIsSubstitution(from, to, p);
      SubtreeIsPrefix(Image(from, to, p), from);
      SubtreeIsPrefix(to, from);
      SubtreeIsPrefix(from, to);
      var fs, ts := Components(from), Components(to);
      var image := Components(Image(from, to, p));
      if fs <= image {
        PrefixesNest(fs, ts, image);
      }
    }
  }

  /** Rename keeps the table consistent and the set of live numbers, in every order and however nested. */
  lemma RenameKeepsConsistent(t: Table, from: string, to: string, order: seq<string>)
    requires Consistent(t) && Enumerates(order, Moves(t, from).Keys)
    ensures var t' := RunMoves(t, from, to, Moves(t, from), order);
            Consistent(t') && t'.next == t.next && t'.byInode.Keys == t.byInode.Keys
  {
    LoopKeepsConsistency(t, from, to, Moves(t, from), order);
  }

  /** An image lands on a tracked path outside the moved set. */
  ghost predicate Overwrites(t: Table, from: string, to: string) {
    exists p :: p in Moves(t, from) && Image(from, to, p) in t.byPath && Image(from, to, p) !in Moves(t, from)
  }

  ghost predicate Returns(t: Table, i: nat) {
    i in t.byInode && t.byInode[i] in t.byPath && t.byPath[t.byInode[i]] == i
  }

  /** A number's path leads back to it after a rename exactly if it did before and no image took the path. */
  lemma LeftBehind(t: Table, from: string, to: string, i: nat)
    requires Consistent(t) && i in t.byInode
    ensures Returns(Renamed(t, from, to), i) <==>
            Returns(t, i) && (IsMoved(t, from, i) || !IsImage(Moves(t, from), from, to, t.byInode[i]))
  {
    hide RenamedByPath;
    var p := t.byInode[i];
    if IsMoved(t, from, i) {
      RenamedMoves(t, from, to, p);
    } else {
      RenamedPaths(t, from, to, p);
      RenamedValue(t, from, to, p);
    }
  }

  lemma RenamedValue(t: Table, from: string, to: string, q: string)
    ensures q in Renamed(t, from, to).byPath ==>
            if IsImage(Moves(t, from), from, to, q) then Renamed(t, from, to).byPath[q] == t.byPath[Preimage(from, to, q)]
            else q in t.byPath && Renamed(t, from, to).byPath[q] == t.byPath[q]
  {
    RenamedPaths(t, from, to, q);
  }

  /** An unentangled rename keeps the maps exact inverses if and only if it overwrites nothing. */
  lemma RenameKeepsExact(t: Table, from: string, to: string)
    requires Exact(t) && Unentangled(t, from, to)
    ensures Exact(Renamed(t, from, to)) <==> !Overwrites(t, from, to)
  {
    hide Renamed, Image;
    var order := SomeOrder(Moves(t, from).Keys);
    RenameIsExact(t, from, to, order);
    RenameKeepsConsistent(t, from, to, order);
    if Overwrites(t, from, to) {
      var p :| p in Moves(t, from) && Image(from, to, p) in t.byPath && Image(from, to, p) !in Moves(t, from);
      ImageAndPreimage(from, to, p);
      LeftBehind(t, from, to, t.byPath[Image(from, to, p)]);
    } else {
      forall i | i in t.byInode ensures Returns(Renamed(t, from, to), i) {
        LeftBehind(t, from, to, i);
        if IsImage(Moves(t, from), from, to, t.byInode[i]) {
          PreimageAndImage(from, to, t.byInode[i]);
        }
      }
    }
  }

  // ----- Removing -----

  ghost predicate IsRemoved(t: Table, t': Table, path: string) {
    && t'.next == t.next
    && t'.byPath == t.byPath - Moves(t, path).Keys
    && t'.byInode == t.byInode - Moves(t, path).Values
  }

  lemma RemoveKeeps(t: Table, t': Table, path: string)
    requires Consistent(t) && IsRemoved(t, t', path)
    ensures Consistent(t') && (Exact(t) ==> Exact(t'))
  {
    var moves := Moves(t, path);
    forall p | p in t'.byPath ensures t'.byPath[p] in t'.byInode {
      if q :| q in moves && moves[q] == t.byPath[p] {
        ByPathInjective(t, p, q);
      }
    }
    if Exact(t) {
      forall i | i in t'.byInode ensures t'.byInode[i] in t'.byPath {
        assert t.byPath[t.byInode[i]] == i;
        assert t.byInode[i] in moves ==> i in moves.Values;
      }
    }
  }

  lemma TrackKeeps(t: Table, path: string)
    requires Consistent(t)
    ensures var t' := Track(t, path);
            && Consistent(t') && (Exact(t) ==> Exact(t'))
            && path in t'.byPath && t'.byPath[path] == InodeOf(t, path)
            && (forall p | p in t.byPath :: t'.byPath[p] == t.byPath[p])
  {
    var t' := Track(t, path);
    if path !in t.byPath {
      forall p | p in t'.byPath ensures t'.byPath[p] in t'.byInode && t'.byInode[t'.byPath[p]] == p {
        if p != path {
          assert t.byPath[p] in t.byInode && t.byPath[p] < t.next;
        }
      }
    }
  }

  // ----- Whole runs of the three operations -----

  datatype Operation =
    | Issue(path: string)
    | Rename(from: string, to: string)
    | Remove(path: string)

  ghost predicate Next(t: Table, op: Operation, t': Table) {
    match op
    case Issue(path) => t' == Track(t, path)
    case Rename(from, to) =>
      exists order :: Enumerates(order, Moves(t, from).Keys) && t' == RunMoves(t, from, to, Moves(t, from), order)
    case Remove(path) => IsRemoved(t, t', path)
  }

  /** A run starts with the fresh table and makes one operation after another. */
  ghost predicate IsRun(states: seq<Table>, ops: seq<Operation>) {
    && |states| == |ops| + 1
    && states[0] == FRESH_TABLE
    && forall k | 0 <= k < |ops| :: Next(states[k], ops[k], states[k + 1])
  }

  ghost predicate Tidy(t: Table, op: Operation) {
    op.Rename? ==> Unentangled(t, op.from, op.to) && !Overwrites(t, op.from, op.to)
  }

  lemma NextKeeps(t: Table, op: Operation, t': Table)
    requires Consistent(t) && Next(t, op, t')
    ensures Consistent(t') && t.next <= t'.next
    ensures op.Rename? ==> t'.byInode.Keys == t.byInode.Keys
    ensures forall i | i in t'.byInode :: i in t.byInode || i == t.next < t'.next
    ensures Exact(t) && Tidy(t, op) ==> Exact(t')
  {
    match op
    case Issue(path) => TrackKeeps(t, path);
    case Remove(path) => RemoveKeeps(t, t', path);
    case Rename(from, to) =>
      var order :| Enumerates(order, Moves(t, from).Keys) && t' == RunMoves(t, from, to, Moves(t, from), order);
      RenameKeepsConsistent(t, from, to, order);
      if Exact(t) && Tidy(t, op) {
        RenameIsExact(t, from, to, order);
        RenameKeepsExact(t, from, to);
      }
  }

  /** Every table of every run is consistent; renames never change the set of live numbers;
      a number that has disappeared never comes back; tidy runs keep the maps exact inverses. */
  lemma {:induction false} RunsAreConsistent(states: seq<Table>, ops: seq<Operation>, k: nat)
    requires IsRun(states, ops) && k < |states|
    ensures Consistent(states[k])
    ensures (forall j | 0 <= j < k :: Tidy(states[j], ops[j])) ==> Exact(states[k])
  {
    if k > 0 {
      RunsAreConsistent(states, ops, k - 1);
      NextKeeps(states[k - 1], ops[k - 1], states[k]);
    }
  }

  /** No number is ever issued twice: one that is live later was already live, or was not yet issued. */
  lemma {:induction false} NumbersAreNeverReissued(states: seq<Table>, ops: seq<Operation>, j: nat, k: nat, inode: nat)
    requires IsRun(states, ops) && j <= k < |states|
    ensures states[j].next <= states[k].next
    ensures inode in states[k].byInode && inode < states[j].next ==> inode in states[j].byInode
    ensures (forall i | j <= i < k :: ops[i].Rename?) ==> states[k].byInode.Keys == states[j].byInode.Keys
    decreases k - j
  {
    if j < k {
      NumbersAreNeverReissued(states, ops, j, k - 1, inode);
      RunsAreConsistent(states, ops, k - 1);
      NextKeeps(states[k - 1], ops[k - 1], states[k]);
    }
  }

  // ----- The class -----

  class InodeTable {
    var next: nat
    var byInode: map<nat, string>
    var byPath: map<string, nat>

    ghost function Contents(): Table
      reads this
    {
      Table(next, byInode, byPath)
    }

    constructor ()
      ensures Contents() == FRESH_TABLE && Exact(Contents())
    {
      next := 2;
      byInode := map[ROOT := "/"];
      byPath := map["/" := ROOT];
    }

    method Path(inode: nat) returns (path: Option<string>)
      ensures path.Some? <==> inode in byInode
      ensures path.Some? ==> path.value == byInode[inode]
    {
      path := if inode in byInode then Some(byInode[inode]) else None;
    }

    method Inode(path: string) returns (inode: nat)
      modifies this
      ensures Contents() == Track(old(Contents()), path)
      ensures path in byPath && inode == byPath[path]
      ensures old(Consistent(Contents())) ==> Consistent(Contents())
      ensures path !in old(byPath) ==> inode == old(next) && next == inode + 1
    {
      if path in byPath {
        return byPath[path];
      }
      inode := next;
      next := next + 1;
      byInode := byInode[inode := path];
      byPath := byPath[path := inode];
      if old(Consistent(Contents())) {
        TrackKeeps(old(Contents()), path);
      }
    }

    /** The pairs are collected first and then visited in whatever order the hash map gave. */
    method Rename(from: string, to: string)
      modifies this
      ensures Next(old(Contents()), Operation.Rename(from, to), Contents())
      ensures old(Consistent(Contents())) ==> Consistent(Contents())
      ensures old(Consistent(Contents()) && Unentangled(Contents(), from, to)) ==>
                Contents() == Renamed(old(Contents()), from, to)
    {
      ghost var before := Contents();
      var moves := Moves(Table(next, byInode, byPath), from);
      var pending := moves.Keys;
      ghost var order: seq<string> := [];
      while pending != {}
        invariant pending <= moves.Keys
        invariant Picks(order, moves.Keys)
        invariant forall p :: p in moves <==> p in pending || p in order
        invariant forall p | p in order :: p !in pending
        invariant Contents() == RunMoves(before, from, to, moves, order)
        decreases |pending|
      {
        var path :| path in pending;
        pending := pending - {path};
        ghost var longer := order + [path];
        assert longer[..|longer| - 1] == order;
        order := longer;
        var inode := moves[path];
        byPath := byPath - {path};
        var renamed := Image(from, to, path);
        byPath := byPath[renamed := inode];
        byInode := byInode[inode := renamed];
      }
      assert Enumerates(order, moves.Keys);
      if Consistent(before) {
        RenameKeepsConsistent(before, from, to, order);
        if Unentangled(before, from, to) {
          RenameIsExact(before, from, to, order);
        }
      }
    }

    method Remove(path: string)
      modifies this
      ensures IsRemoved(old(Contents()), Contents(), path)
      ensures old(Consistent(Contents())) ==> Consistent(Contents())
    {
      ghost var before := Contents();
      var removals := Moves(Table(next, byInode, byPath), path);
      var pending := removals.Keys;
      while pending != {}
        invariant pending <= removals.Keys
        invariant next == before.next
        invariant byPath == before.byPath - (removals.Keys - pending)
        invariant byInode == before.byInode - (set p | p in removals && p !in pending :: removals[p])
        decreases |pending|
      {
        var candidate :| candidate in pending;
        pending := pending - {candidate};
        byPath := byPath - {candidate};
        byInode := byInode - {removals[candidate]};
      }
      assert (set p | p in removals && p !in pending :: removals[p]) == removals.Values;
      if Consistent(before) {
        RemoveKeeps(before, Contents(), path);
      }
    }
  }
}
