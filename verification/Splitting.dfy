/** Cutting a sequence at every separator and dropping the empty pieces.
    Paths are cut at '/' and AFC payloads at the zero byte, so both share these facts. */
module Splitting {

  function Split<T(==)>(s: seq<T>, separator: T): (pieces: seq<seq<T>>)
    ensures |pieces| >= 1
  {
    if s == [] then [[]]
    else
      var rest := Split(s[1..], separator);
      if s[0] == separator then [[]] + rest else [[s[0]] + rest[0]] + rest[1..]
  }

  function NonEmpty<T(==)>(pieces: seq<seq<T>>): seq<seq<T>> {
    if pieces == [] then []
    else if pieces[0] == [] then NonEmpty(pieces[1..])
    else [pieces[0]] + NonEmpty(pieces[1..])
  }

  /** The non-empty pieces of s, in order. */
  function Pieces<T(==)>(s: seq<T>, separator: T): seq<seq<T>> {
    NonEmpty(Split(s, separator))
  }

  /** A piece can stand between two separators and come back unchanged. */
  predicate Solid<T(==)>(piece: seq<T>, separator: T) {
    piece != [] && separator !in piece
  }

  predicate AllSolid<T(==)>(pieces: seq<seq<T>>, separator: T) {
    forall i | 0 <= i < |pieces| :: Solid(pieces[i], separator)
  }

  lemma SplitCons<T>(x: T, s: seq<T>, separator: T)
    ensures Split([x] + s, separator) ==
            if x == separator then [[]] + Split(s, separator)
            else [[x] + Split(s, separator)[0]] + Split(s, separator)[1..]
  {
    assert ([x] + s)[1..] == s;
  }

  lemma SplitNothing<T>(separator: T)
    ensures Split([], separator) == [[]]
  {
  }

  lemma {:induction false} SplitAtSeparator<T>(left: seq<T>, separator: T, right: seq<T>)
    ensures Split(left + [separator] + right, separator) == Split(left, separator) + Split(right, separator)
    decreases |left|
  {
    hide Split;
    SplitNothing(separator);
    if left == [] {
      assert left + [separator] + right == [separator] + right;
      SplitCons(separator, right, separator);
    } else {
      var tail := left[1..] + [separator] + right;
      assert left + [separator] + right == [left[0]] + tail;
      assert left == [left[0]] + left[1..];
      SplitCons(left[0], tail, separator);
      SplitCons(left[0], left[1..], separator);
      SplitAtSeparator(left[1..], separator, right);
    }
  }

  lemma {:induction false} NonEmptyConcat<T>(a: seq<seq<T>>, b: seq<seq<T>>)
    ensures NonEmpty(a + b) == NonEmpty(a) + NonEmpty(b)
  {
    if a == [] {
      assert a + b == b;
    } else {
      assert (a + b)[1..] == a[1..] + b;
      NonEmptyConcat(a[1..], b);
    }
  }

  /** Cutting is a homomorphism at a separator. */
  lemma PiecesAtSeparator<T>(left: seq<T>, separator: T, right: seq<T>)
    ensures Pieces(left + [separator] + right, separator) == Pieces(left, separator) + Pieces(right, separator)
  {
    SplitAtSeparator(left, separator, right);
    NonEmptyConcat(Split(left, separator), Split(right, separator));
  }

  lemma {:induction false} SplitWithoutSeparator<T>(s: seq<T>, separator: T)
    requires separator !in s
    ensures Split(s, separator) == [s]
  {
    if s != [] {
      SplitWithoutSeparator(s[1..], separator);
      assert [s[0]] + s[1..] == s;
    }
  }

  lemma PiecesOfSolid<T>(s: seq<T>, separator: T)
    requires Solid(s, separator)
    ensures Pieces(s, separator) == [s]
  {
    SplitWithoutSeparator(s, separator);
    assert [s][1..] == [] && NonEmpty<T>([]) == [];
    assert NonEmpty([s]) == [s];
  }

  lemma {:induction false} SplitPiecesAreFree<T>(s: seq<T>, separator: T)
    ensures forall i | 0 <= i < |Split(s, separator)| :: separator !in Split(s, separator)[i]
  {
    if s != [] {
      SplitPiecesAreFree(s[1..], separator);
    }
  }

  lemma {:induction false} NonEmptyKeeps<T>(pieces: seq<seq<T>>, separator: T)
    requires forall i | 0 <= i < |pieces| :: separator !in pieces[i]
    ensures AllSolid(NonEmpty(pieces), separator)
  {
    if pieces != [] {
      assert forall i | 0 <= i < |pieces[1..]| :: pieces[1..][i] == pieces[i + 1];
      NonEmptyKeeps(pieces[1..], separator);
    }
  }

  /** Every piece is non-empty and free of the separator. */
  lemma PiecesAreSolid<T>(s: seq<T>, separator: T)
    ensures AllSolid(Pieces(s, separator), separator)
  {
    SplitPiecesAreFree(s, separator);
    NonEmptyKeeps(Split(s, separator), separator);
  }
}
