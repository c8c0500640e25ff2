/**
 * What playing a stone does under the deprecated engine's rules, stated on the
 * reference `PlayRef` that `Board.PlayIntersection` is proved to follow: when a move
 * is legal, what it changes, how captures are counted, and where the ko point goes.
 */
module LegacyPlay {
  import opened Wrappers
  import opened Stones
  import opened Grid
  import opened Regions
  import opened LegacyTypes
  import opened CaptureRules
  import opened LegacyBoard
  import opened LegacyPlayout

  /** The cells holding an `o` stone in `P` that are empty in `Q`. */
  ghost function Removed(P: seq<State>, Q: seq<State>, o: Color): set<int>
    requires |P| == |Q|
  {
    set j | 0 <= j < |P| && P[j] == Occupied(o) && Q[j] == Empty
  }

  /** A stone at the on-board point `x` (the cell `i`) reaches `PlayOnEmpty` unless the point is the ko point or taken. */
  lemma PlayRefOnBoard(s: Snapshot, size: BoardSize, x: Intersection, c: Color, i: nat)
    requires WellBordered(s.position, Width(size)) && ToPositionIndex(x, size) == Some(i)
    ensures i < |s.position| && s.position[i] != Offboard
    ensures PlayRef(s, size, x, c) ==
      if s.ko == Some(x) || s.position[i] != Empty then Outcome(false, s) else PlayOnEmpty(s, size, x, c, i)
  {
    PositionIndexRoundTrip(x, size);
  }

  /**
   * Legality: a stone is accepted exactly when its point is on the board, is not the
   * ko point, is empty, and the stone either captures something or its group has a
   * liberty on the board with the stone placed; so capturing beats suicide. A refused
   * move leaves the game as it was.
   */
  lemma PlayLegal(s: Snapshot, size: BoardSize, x: Intersection, c: Color)
    requires WellBordered(s.position, Width(size))
    ensures !PlayRef(s, size, x, c).ok ==> PlayRef(s, size, x, c).after == s
    ensures PlayRef(s, size, x, c).ok <==>
      && s.ko != Some(x)
      && ToPositionIndex(x, size).Some?
      && var i := ToPositionIndex(x, size).value;
         && i < |s.position| && s.position[i] == Empty
         && var B := Placed(s.position, i, c);
            || Captured(B, Width(size), c.Opposite(), i) != {}
            || Libs(B, Width(size), Comp(B, Width(size), Occupied(c), i)) != {}
  {
    var idx := ToPositionIndex(x, size);
    if idx.Some? {
      var i := idx.value;
      PlayRefOnBoard(s, size, x, c, i);
      if s.ko != Some(x) && s.position[i] == Empty {
        var w, o := Width(size), c.Opposite();
        var B := Placed(s.position, i, c);
        var R := Captured(B, w, o, i);
        SetKeepsBordered(s.position, w, i, Occupied(c));
        CaptureGivesLiberty(B, w, c, i);
        if R == {} {
          ClearNothing(B);
        }
      }
    }
  }

  /**
   * An accepted stone stays on its point, the board keeps its shape and changes, the
   * other side is to move and the move is recorded.
   */
  lemma PlayEffects(s: Snapshot, size: BoardSize, x: Intersection, c: Color, i: nat)
    requires WellBordered(s.position, Width(size)) && ToPositionIndex(x, size) == Some(i)
    requires PlayRef(s, size, x, c).ok
    ensures var a := PlayRef(s, size, x, c).after;
      && WellBordered(a.position, Width(size)) && |a.position| == |s.position|
      && i < |s.position| && s.position[i] == Empty && a.position[i] == Occupied(c)
      && a.position != s.position
      && a.side == c.Opposite() && a.lastMove == PlayAt(x, c)
  {
    var w, o := Width(size), c.Opposite();
    PlayRefOnBoard(s, size, x, c, i);
    var B := Placed(s.position, i, c);
    var R := Captured(B, w, o, i);
    var F := ClearCells(B, R);
    SetKeepsBordered(s.position, w, i, Occupied(c));
    PlacedStoneStays(B, w, c, i);
    CapturedShape(B, w, o, i, 4);
    assert F == PlayRef(s, size, x, c).after.position;
    forall j | 0 <= j < |F| && F[j] == Offboard
      ensures OnRing(j, w)
    {
      assert j !in R;
    }
    assert F[i] != s.position[i];
  }

  /**
   * After an accepted stone both its own group and every opposing group next to it
   * have a liberty: no group without a liberty is left next to the stone.
   */
  lemma LibertiesAfterPlay(s: Snapshot, size: BoardSize, x: Intersection, c: Color, i: nat)
    requires WellBordered(s.position, Width(size)) && ToPositionIndex(x, size) == Some(i)
    requires PlayRef(s, size, x, c).ok
    ensures var a := PlayRef(s, size, x, c).after;
      && Libs(a.position, Width(size), Comp(a.position, Width(size), Occupied(c), i)) != {}
      && forall k :: 0 <= k < 4 && 0 <= Nbr(i, Width(size), k) < |a.position| && a.position[Nbr(i, Width(size), k)] == Occupied(c.Opposite()) ==>
           Libs(a.position, Width(size), Comp(a.position, Width(size), Occupied(c.Opposite()), Nbr(i, Width(size), k))) != {}
  {
    var w, o := Width(size), c.Opposite();
    PlayRefOnBoard(s, size, x, c, i);
    var B := Placed(s.position, i, c);
    var F := ClearCells(B, Captured(B, w, o, i));
    SetKeepsBordered(s.position, w, i, Occupied(c));
    assert F == PlayRef(s, size, x, c).after.position;
    forall k | 0 <= k < 4 && 0 <= Nbr(i, w, k) < |F| && F[Nbr(i, w, k)] == Occupied(o)
      ensures Libs(F, w, Comp(F, w, Occupied(o), Nbr(i, w, k))) != {}
    {
      CapturesComplete(B, w, c, i, k);
    }
  }

  /** Clearing a set of `o` stones of the board with a stone added at an empty cell removes exactly that set. */
  lemma RemovedByClearing(P: seq<State>, i: int, c: Color, o: Color, R: set<int>)
    requires 0 <= i < |P| && P[i] == Empty && o != c
    requires forall j :: j in R ==> 0 <= j < |P| && Placed(P, i, c)[j] == Occupied(o)
    ensures Removed(P, ClearCells(Placed(P, i, c), R), o) == R
  {
    var F := ClearCells(Placed(P, i, c), R);
    forall j | j in R
      ensures j in Removed(P, F, o)
    {
      assert j != i;
    }
  }

  /** The cells an accepted stone removes are exactly the stones it captures. */
  lemma RemovedAreCaptured(s: Snapshot, size: BoardSize, x: Intersection, c: Color, i: nat)
    requires WellBordered(s.position, Width(size)) && ToPositionIndex(x, size) == Some(i)
    requires PlayRef(s, size, x, c).ok
    ensures i < |s.position|
    ensures var B := Placed(s.position, i, c);
      var F := ClearCells(B, Captured(B, Width(size), c.Opposite(), i));
      && PlayRef(s, size, x, c).after.position == F
      && Removed(s.position, F, c.Opposite()) == Captured(B, Width(size), c.Opposite(), i)
  {
    var w, o := Width(size), c.Opposite();
    PlayRefOnBoard(s, size, x, c, i);
    var B := Placed(s.position, i, c);
    CapturedShape(B, w, o, i, 4);
    RemovedByClearing(s.position, i, c, o, Captured(B, w, o, i));
  }

  /**
   * An accepted stone changes no cell but its own point and the opposing stones it
   * removes.
   */
  lemma PlayChangesOnlyCaptures(s: Snapshot, size: BoardSize, x: Intersection, c: Color, i: nat)
    requires WellBordered(s.position, Width(size)) && ToPositionIndex(x, size) == Some(i)
    requires PlayRef(s, size, x, c).ok
    ensures var a := PlayRef(s, size, x, c).after;
      && |a.position| == |s.position|
      && forall j :: 0 <= j < |s.position| && j != i && j !in Removed(s.position, a.position, c.Opposite()) ==>
           a.position[j] == s.position[j]
  {
    RemovedAreCaptured(s, size, x, c, i);
  }

  /**
   * Capture bookkeeping: the player's capture counter rises by exactly the number of
   * opposing stones the move removes, and the other counter stays.
   */
  lemma CaptureBookkeeping(s: Snapshot, size: BoardSize, x: Intersection, c: Color, i: nat)
    requires WellBordered(s.position, Width(size)) && ToPositionIndex(x, size) == Some(i)
    requires PlayRef(s, size, x, c).ok
    ensures var a := PlayRef(s, size, x, c).after;
      && |a.position| == |s.position|
      && (c == White ==> a.whiteCaptures == s.whiteCaptures + |Removed(s.position, a.position, c.Opposite())|
                         && a.blackCaptures == s.blackCaptures)
      && (c == Black ==> a.blackCaptures == s.blackCaptures + |Removed(s.position, a.position, c.Opposite())|
                         && a.whiteCaptures == s.whiteCaptures)
  {
    RemovedAreCaptured(s, size, x, c, i);
  }

  /**
   * Ko: an accepted stone sets the ko point only at a single captured stone next to
   * it, and only when it was played inside a diamond of opposing stones; a move that
   * captures nothing clears the ko point; a move inside such a diamond that captures
   * exactly one stone makes that stone's point the ko point; and a stone of either
   * colour on the ko point is then refused.
   */
  lemma KoRule(s: Snapshot, size: BoardSize, x: Intersection, c: Color, i: nat)
    requires WellBordered(s.position, Width(size)) && ToPositionIndex(x, size) == Some(i)
    requires PlayRef(s, size, x, c).ok
    ensures var a := PlayRef(s, size, x, c).after;
      var w, o := Width(size), c.Opposite();
      var B := Placed(s.position, i, c);
      && (a.ko.Some? ==>
            exists n :: && n in Captured(B, w, o, i) && Dead(B, w, o, n) == {n}
                        && (exists k :: 0 <= k < 4 && n == Nbr(i, w, k))
                        && DiamondOf(B, w, i) == Some(o)
                        && 0 <= n && a.ko == FromPositionIndex(n, size))
      && (Captured(B, w, o, i) == {} ==> a.ko == None)
      && (forall n :: DiamondOf(B, w, i) == Some(o) && Captured(B, w, o, i) == {n} ==>
            0 <= n && a.ko == FromPositionIndex(n, size) && a.ko.Some?)
    ensures var a := PlayRef(s, size, x, c).after;
      forall c' :: a.ko.Some? ==> !PlayRef(a, size, a.ko.value, c').ok
  {
    var w, o := Width(size), c.Opposite();
    PlayRefOnBoard(s, size, x, c, i);
    var B := Placed(s.position, i, c);
    var a := PlayRef(s, size, x, c).after;
    var K := KoUpTo(B, w, o, i, 4);
    assert a.ko == KoPoint(K, size);
    SetKeepsBordered(s.position, w, i, Occupied(c));
    KoSound(B, w, o, i, 4);
    KoComplete(B, w, o, i, 4);
    CapturedShape(B, w, o, i, 4);
    if a.ko.Some? {
      var n := K.value;
      assert n in Captured(B, w, o, i) && Dead(B, w, o, n) == {n};
      assert 0 <= n && a.ko == FromPositionIndex(n, size);
    }
    forall n | DiamondOf(B, w, i) == Some(o) && Captured(B, w, o, i) == {n}
      ensures 0 <= n && a.ko == FromPositionIndex(n, size) && a.ko.Some?
    {
      assert K == Some(n);
      assert n in Captured(B, w, o, i);
      assert B[n] == Occupied(o);
    }
    forall c' | a.ko.Some?
      ensures !PlayRef(a, size, a.ko.value, c').ok
    {
      assert a.ko == Some(a.ko.value);
    }
  }

  /**
   * A point that the corrected liberty test `NotSuicide` approves is a legal move for
   * either colour: its empty neighbour stays a liberty of the new stone.
   */
  lemma NotSuicideLegal(s: Snapshot, size: BoardSize, x: Intersection, c: Color)
    requires WellBordered(s.position, Width(size)) && ToPositionIndex(x, size).Some?
    requires var i := ToPositionIndex(x, size).value;
      && i < |s.position| && s.position[i] == Empty && s.ko != Some(x)
      && EmptyAmong(s.position, i, NbrDirs(size))
    ensures PlayRef(s, size, x, c).ok
  {
    var w, i := Width(size), ToPositionIndex(x, size).value;
    var k :| 0 <= k < 4 && 0 <= i + NbrDirs(size)[k] < |s.position| && s.position[i + NbrDirs(size)[k]] == Empty;
    var m := i + NbrDirs(size)[k];
    var B := Placed(s.position, i, c);
    var G := Comp(B, w, Occupied(c), i);
    CompSpec(B, w, Occupied(c), i);
    assert i in G && m != i && B[m] == Empty;
    assert Touches(G, m, w);
    assert m in Libs(B, w, G);
    PlayLegal(s, size, x, c);
  }
}
