/**
 * Reference definitions for the deprecated engine's playout helpers: which cells at
 * given offsets from a cell are empty, a bound on the size of a set of cells, and a
 * board on which the liberty test of `not_suicide` as written goes wrong.
 */
module LegacyPlayout {
  import opened Wrappers
  import opened Stones
  import opened Grid
  import opened Regions
  import opened LegacyTypes

  /** Some cell `i + dirs[k]` lies on the board and is empty. */
  predicate EmptyAmong(P: seq<State>, i: int, dirs: seq<int>)
  {
    exists k :: 0 <= k < |dirs| && 0 <= i + dirs[k] < |P| && P[i + dirs[k]] == Empty
  }

  /** The offsets `not_suicide` steps by as written: one column, and `size` cells for a row. */
  function AsWrittenDirs(size: BoardSize): seq<int>
  {
    [1, -1, size.ToU16(), -(size.ToU16() as int)]
  }

  /** The offsets of the four neighbours of a cell: one column, and a stored row of `size + 2` cells. */
  function NbrDirs(size: BoardSize): seq<int>
  {
    [1, -1, Width(size), -(Width(size) as int)]
  }

  /** A set of cells below `n` has at most `n` elements. */
  lemma {:induction false} BoundedSetSize(S: set<int>, n: nat)
    requires forall x :: x in S ==> 0 <= x < n
    ensures |S| <= n
  {
    if n == 0 {
      assert forall x :: x !in S;
      assert S == {};
    } else {
      BoundedSetSize(S - {n - 1}, n - 1);
    }
  }

  /** No group has 1000 liberties on any board of the engine, so the sentinel of `weakest_group` is beaten by the first group. */
  lemma LibsBelowSentinel(P: seq<State>, size: BoardSize, G: set<int>)
    requires WellBordered(P, Width(size))
    ensures |Libs(P, Width(size), G)| < 1000
  {
    var w := Width(size);
    BoundedSetSize(Libs(P, w, G), |P|);
    WidthBounds(size);
    MulLe(w, 21, w);
    MulLe(w, 21, 21);
  }

  /** The position of the counterexample: a 9x9 board with black stones at the four neighbours of cell 25. */
  function WalledPoint(): seq<State>
  {
    Bordered(11)[24 := Occupied(Black)][26 := Occupied(Black)][36 := Occupied(Black)][14 := Occupied(Black)]
  }

  /**
   * On the 9x9 board `WalledPoint`, the empty point C8 (cell 25) has black stones on
   * all four sides, yet the offsets of `not_suicide` as written reach the empty cell
   * 34, so it reports a liberty that the point does not have.
   */
  lemma NotSuicideCounterexample()
    ensures WellBordered(WalledPoint(), 11)
    ensures ToPositionIndex(Intersection(C, 8), Nine) == Some(25)
    ensures WalledPoint()[25] == Empty
    ensures EmptyAmong(WalledPoint(), 25, AsWrittenDirs(Nine))
    ensures !EmptyAmong(WalledPoint(), 25, NbrDirs(Nine))
  {
    var B := Bordered(11);
    BorderedIsWellBordered(11);
    assert !OnRing(24, 11) && !OnRing(26, 11) && !OnRing(36, 11) && !OnRing(14, 11);
    assert !OnRing(25, 11) && !OnRing(34, 11);
    SetKeepsBordered(B, 11, 24, Occupied(Black));
    var B1 := B[24 := Occupied(Black)];
    SetKeepsBordered(B1, 11, 26, Occupied(Black));
    var B2 := B1[26 := Occupied(Black)];
    SetKeepsBordered(B2, 11, 36, Occupied(Black));
    var B3 := B2[36 := Occupied(Black)];
    SetKeepsBordered(B3, 11, 14, Occupied(Black));
    var P := WalledPoint();
    assert P[25] == B[25] && P[34] == B[34];
    assert 25 + AsWrittenDirs(Nine)[2] == 34;
    forall k | 0 <= k < 4
      ensures P[25 + NbrDirs(Nine)[k]] == Occupied(Black)
    {
    }
  }
}
