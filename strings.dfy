// util::split (include/util.h; helpers.h carries an identical copy): cutting a
// string at every occurrence of a delimiter.

module Strings {

  /** `d` occurs in `s` starting at index j. */
  predicate At(s: string, j: nat, d: string)
  {
    j + |d| <= |s| && s[j..j + |d|] == d
  }

  ghost predicate Occurs(d: string, s: string)
  {
    exists j: nat :: At(s, j, d)
  }

  /** std::search from index i: the first index at or after i at which `d`
    * occurs in `s`, or |s|. */
  function Find(s: string, d: string, i: nat): (k: nat)
    requires d != [] && i <= |s|
    ensures i <= k <= |s|
    ensures k < |s| ==> At(s, k, d)
    decreases |s| - i
  {
    if i + |d| > |s| then |s|
    else if s[i..i + |d|] == d then i
    else Find(s, d, i + 1)
  }

  /** No occurrence of `d` starts between i and Find's answer. */
  lemma {:induction false} FindFirst(s: string, d: string, i: nat, j: nat)
    requires d != [] && i <= |s| && i <= j < Find(s, d, i)
    ensures !At(s, j, d)
    decreases |s| - i
  {
    if i < j {
      FindFirst(s, d, i + 1, j);
    }
  }

  /** A piece is recorded unless it is empty and empty pieces are dropped. */
  function Keep(piece: string, keepEmpty: bool): seq<string>
  {
    if keepEmpty || piece != [] then [piece] else []
  }

  /** The pieces of s[i..] between occurrences of a non-empty delimiter. */
  function Pieces(s: string, d: string, keepEmpty: bool, i: nat): seq<string>
    requires d != [] && i <= |s|
    decreases |s| - i
  {
    var k := Find(s, d, i);
    if k == |s| then Keep(s[i..], keepEmpty)
    else Keep(s[i..k], keepEmpty) + Pieces(s, d, keepEmpty, k + |d|)
  }

  /** util::split: an empty delimiter leaves the string whole. */
  function Split(s: string, d: string, keepEmpty: bool): seq<string>
  {
    if d == [] then [s] else Pieces(s, d, keepEmpty, 0)
  }

  /** The pieces joined with the delimiter. */
  function Join(ps: seq<string>, d: string): string
  {
    if ps == [] then "" else if |ps| == 1 then ps[0] else ps[0] + d + Join(ps[1..], d)
  }

  /** The non-empty strings of `ps`, in order. */
  function NonEmpty(ps: seq<string>): seq<string>
  {
    if ps == [] then [] else Keep(ps[0], false) + NonEmpty(ps[1..])
  }

  lemma JoinCons(p: string, ps: seq<string>, d: string)
    requires ps != []
    ensures Join([p] + ps, d) == p + d + Join(ps, d)
  {
    assert ([p] + ps)[1..] == ps;
  }

  /** Keeping the empty pieces, split inverts join: nothing of `s` is lost. */
  lemma {:induction false} JoinSplit(s: string, d: string, i: nat)
    requires d != [] && i <= |s|
    ensures Pieces(s, d, true, i) != []
    ensures Join(Pieces(s, d, true, i), d) == s[i..]
    decreases |s| - i
  {
    var k := Find(s, d, i);
    if k < |s| {
      var rest := Pieces(s, d, true, k + |d|);
      JoinSplit(s, d, k + |d|);
      assert Pieces(s, d, true, i) == [s[i..k]] + rest;
      JoinCons(s[i..k], rest, d);
      assert s[k..k + |d|] == d;
      assert s[i..] == s[i..k] + d + s[k + |d|..];
    } else {
      assert Pieces(s, d, true, i) == [s[i..]];
    }
  }

  /** The text between i and the first occurrence from i holds no occurrence. */
  lemma FirstPieceAvoids(s: string, d: string, i: nat)
    requires d != [] && i <= |s|
    ensures !Occurs(d, s[i..Find(s, d, i)])
  {
    var k := Find(s, d, i);
    var p := s[i..k];
    if Occurs(d, p) {
      var j: nat :| At(p, j, d);
      assert s[i + j..i + j + |d|] == p[j..j + |d|];
      FindFirst(s, d, i, i + j);
    }
  }

  /** None of the strings of `ps` contains `d`. */
  ghost predicate NoneOccurs(ps: seq<string>, d: string)
  {
    forall i :: 0 <= i < |ps| ==> !Occurs(d, ps[i])
  }

  lemma NoneOccursConcat(a: seq<string>, b: seq<string>, d: string)
    requires NoneOccurs(a, d) && NoneOccurs(b, d)
    ensures NoneOccurs(a + b, d)
  {
    forall i | 0 <= i < |a + b|
      ensures !Occurs(d, (a + b)[i])
    {
      if i >= |a| {
        assert (a + b)[i] == b[i - |a|];
      }
    }
  }

  /** No piece contains the delimiter. */
  lemma {:induction false} PiecesAvoidDelim(s: string, d: string, keepEmpty: bool, i: nat)
    requires d != [] && i <= |s|
    ensures NoneOccurs(Pieces(s, d, keepEmpty, i), d)
    decreases |s| - i
  {
    var k := Find(s, d, i);
    FirstPieceAvoids(s, d, i);
    if k < |s| {
      var a, b := Keep(s[i..k], keepEmpty), Pieces(s, d, keepEmpty, k + |d|);
      assert NoneOccurs(a, d);
      PiecesAvoidDelim(s, d, keepEmpty, k + |d|);
      assert Pieces(s, d, keepEmpty, i) == a + b;
      NoneOccursConcat(a, b, d);
    } else {
      assert s[i..k] == s[i..];
      assert NoneOccurs(Keep(s[i..], keepEmpty), d);
    }
  }

  /** Dropping the empty pieces is exactly filtering them out of the full split. */
  lemma {:induction false} SplitDropsEmpty(s: string, d: string, i: nat)
    requires d != [] && i <= |s|
    ensures Pieces(s, d, false, i) == NonEmpty(Pieces(s, d, true, i))
    decreases |s| - i
  {
    var k := Find(s, d, i);
    if k < |s| {
      var rest := Pieces(s, d, true, k + |d|);
      SplitDropsEmpty(s, d, k + |d|);
      assert Pieces(s, d, true, i) == [s[i..k]] + rest;
      NonEmptyCons(s[i..k], rest);
    } else {
      assert Pieces(s, d, true, i) == [s[i..]];
      NonEmptyCons(s[i..], []);
      assert Keep(s[i..], false) + [] == Keep(s[i..], false);
    }
  }

  lemma NonEmptyCons(p: string, ps: seq<string>)
    ensures NonEmpty([p] + ps) == Keep(p, false) + NonEmpty(ps)
  {
    assert ([p] + ps)[0] == p && ([p] + ps)[1..] == ps;
  }

  /** The piece a turn of the loop records: itself, or nothing when it is
    * empty and empty pieces are dropped. */
  lemma KeepAppend(done: seq<string>, piece: string, keepEmpty: bool)
    ensures done + Keep(piece, keepEmpty) == if keepEmpty || piece != [] then done + [piece] else done
  {
  }

  /** A turn of the split loop that finds a delimiter: the pieces still to
    * come are its piece, then those after that delimiter. */
  lemma TurnOn(s: string, d: string, keepEmpty: bool, start: nat, k: nat, done: seq<string>, all: seq<string>)
    requires d != [] && start <= |s| && k == Find(s, d, start) < |s|
    requires done + Pieces(s, d, keepEmpty, start) == all
    ensures (done + Keep(s[start..k], keepEmpty)) + Pieces(s, d, keepEmpty, k + |d|) == all
  {
    var a, b := Keep(s[start..k], keepEmpty), Pieces(s, d, keepEmpty, k + |d|);
    assert done + (a + b) == (done + a) + b;
  }

  /** The last turn: the piece runs to the end of the string. */
  lemma TurnEnd(s: string, d: string, keepEmpty: bool, start: nat, done: seq<string>, all: seq<string>)
    requires d != [] && start <= |s| && Find(s, d, start) == |s|
    requires done + Pieces(s, d, keepEmpty, start) == all
    ensures done + Keep(s[start..|s|], keepEmpty) == all
  {
    assert s[start..|s|] == s[start..];
  }

  /** The split loop of util::split: search, take the piece, skip the delimiter. */
  method SplitLoop(s: string, d: string, keepEmpty: bool) returns (result: seq<string>)
    ensures result == Split(s, d, keepEmpty)
  {
    if d == [] {
      return [s];
    }
    result := [];
    var start := 0;
    ghost var all := Pieces(s, d, keepEmpty, 0);
    assert result + Pieces(s, d, keepEmpty, start) == all;
    while true
      invariant 0 <= start <= |s|
      invariant result + Pieces(s, d, keepEmpty, start) == all
      decreases |s| - start
    {
      var k := Find(s, d, start);
      var piece := s[start..k];
      ghost var done := result;
      KeepAppend(done, piece, keepEmpty);
      if keepEmpty || piece != [] {
        result := result + [piece];
      }
      if k == |s| {
        TurnEnd(s, d, keepEmpty, start, done, all);
        return;
      }
      TurnOn(s, d, keepEmpty, start, k, done, all);
      start := k + |d|;
    }
  }
}
