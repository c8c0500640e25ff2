/**
 * The deprecated engine's board: a flat bordered vector of intersection states with
 * the side to move, the ko point, komi, the last move, capture counters and the move
 * number, and the operations that flood-fill groups, capture, play, score and help
 * random playouts.
 */
module LegacyBoard {
  import opened Wrappers
  import opened Stones
  import opened Grid
  import opened Regions
  import opened LegacyTypes
  import opened CaptureRules
  import opened LegacyScore
  import opened LegacyPlayout

  /** Cell `y`, when on the board, is recorded: a `t` cell in `G`, an empty cell in `L`. */
  ghost predicate Recorded(P: seq<State>, t: State, G: set<int>, L: set<int>, y: int)
  {
    0 <= y < |P| ==> (P[y] == t ==> y in G) && (P[y] == Empty ==> y in L)
  }

  /** Every neighbour of every cell of `X` is recorded. */
  ghost predicate Explored(P: seq<State>, w: nat, t: State, X: set<int>, G: set<int>, L: set<int>)
  {
    forall y :: Touches(X, y, w) ==> Recorded(P, t, G, L, y)
  }

  /** The cells of `L` beyond `L0` are empty and are `i` or touch `X`. */
  ghost predicate LibertiesFrom(P: seq<State>, w: nat, L0: set<int>, L: set<int>, X: set<int>, i: int)
  {
    forall y :: y in L - L0 ==> 0 <= y < |P| && P[y] == Empty && (y == i || Touches(X, y, w))
  }

  /**
   * What one walk from cell `i` does to the sets `G0`, `L0`, giving `G`, `L`: it only
   * adds `t` cells of `K` to the group, records every neighbour of what it added and
   * `i` itself, and adds only empty cells that are `i` or touch what it added.
   */
  ghost predicate Walk(P: seq<State>, w: nat, t: State, K: set<int>,
                       G0: set<int>, L0: set<int>, G: set<int>, L: set<int>, i: int)
  {
    G0 <= G <= Indices(P) && L0 <= L && G - G0 <= K
    && (forall x :: x in G - G0 ==> P[x] == t)
    && Explored(P, w, t, G - G0, G, L)
    && Recorded(P, t, G, L, i)
    && LibertiesFrom(P, w, L0, L, G - G0, i)
  }

  /**
   * The state of a walk that took the `t` cell `i` into the group and has walked from
   * its first `k` neighbours.
   */
  ghost predicate Partial(P: seq<State>, w: nat, t: State, K: set<int>,
                          G0: set<int>, L0: set<int>, G: set<int>, L: set<int>, i: int, k: int)
  {
    i !in G0 && G0 + {i} <= G <= Indices(P) && L0 <= L && G - G0 <= K
    && (forall x :: x in G - G0 ==> P[x] == t)
    && Explored(P, w, t, G - (G0 + {i}), G, L)
    && (forall j :: 0 <= j < k ==> Recorded(P, t, G, L, Nbr(i, w, j)))
    && (forall y :: y in L - L0 ==> 0 <= y < |P| && P[y] == Empty && Touches(G - G0, y, w))
  }

  /** Taking `i` into the group starts a partial walk. */
  lemma PartialStart(P: seq<State>, w: nat, t: State, K: set<int>, G0: set<int>, L0: set<int>, i: int)
    requires G0 <= Indices(P) && 0 <= i < |P| && P[i] == t && i in K && i !in G0
    ensures Partial(P, w, t, K, G0, L0, G0 + {i}, L0, i, 0)
  {
    assert (G0 + {i}) - (G0 + {i}) == {};
  }

  /** The `t` neighbours of a cell of a closed set `K` are in `K`. */
  lemma NbrInK(P: seq<State>, w: nat, t: State, K: set<int>, i: int)
    requires Closed(P, w, t, K) && i in K
    ensures forall k :: 0 <= k < 4 && 0 <= Nbr(i, w, k) < |P| && P[Nbr(i, w, k)] == t ==> Nbr(i, w, k) in K
  {
    forall k | 0 <= k < 4 && 0 <= Nbr(i, w, k) < |P| && P[Nbr(i, w, k)] == t
      ensures Nbr(i, w, k) in K
    {
      NbrTouches(K, i, w, k);
    }
  }

  /** Walking from the `k`-th neighbour of `i` extends a partial walk. */
  lemma PartialStep(P: seq<State>, w: nat, t: State, K: set<int>, G0: set<int>, L0: set<int>,
                    Ga: set<int>, La: set<int>, G: set<int>, L: set<int>, i: int, k: int)
    requires 0 <= k < 4
    requires Partial(P, w, t, K, G0, L0, Ga, La, i, k)
    requires Walk(P, w, t, K, Ga, La, G, L, Nbr(i, w, k))
    ensures Partial(P, w, t, K, G0, L0, G, L, i, k + 1)
  {
    forall y | Touches(G - (G0 + {i}), y, w)
      ensures Recorded(P, t, G, L, y)
    {
      if !Touches(G - Ga, y, w) {
        assert Touches(Ga - (G0 + {i}), y, w);
      }
    }
    forall y | y in L - L0
      ensures 0 <= y < |P| && P[y] == Empty && Touches(G - G0, y, w)
    {
      if y in L - La {
        if y == Nbr(i, w, k) {
          NbrTouches(G - G0, i, w, k);
        } else {
          assert Touches(G - Ga, y, w);
        }
      } else {
        assert Touches(Ga - G0, y, w);
      }
    }
  }

  /** A partial walk over all four neighbours of `i` is a walk from `i`. */
  lemma PartialEnd(P: seq<State>, w: nat, t: State, K: set<int>, G0: set<int>, L0: set<int>,
                   G: set<int>, L: set<int>, i: int)
    requires t.Occupied? && Partial(P, w, t, K, G0, L0, G, L, i, 4)
    ensures Walk(P, w, t, K, G0, L0, G, L, i)
  {
    assert Recorded(P, t, G, L, Nbr(i, w, 0)) && Recorded(P, t, G, L, Nbr(i, w, 1));
    assert Recorded(P, t, G, L, Nbr(i, w, 2)) && Recorded(P, t, G, L, Nbr(i, w, 3));
    forall y | Touches(G - G0, y, w)
      ensures Recorded(P, t, G, L, y)
    {
      if !Touches(G - (G0 + {i}), y, w) {
        assert y == i - 1 || y == i + 1 || y == i - w || y == i + w;
      }
    }
  }

  /** The parts of the board that playing a stone may change. */
  datatype Snapshot = Snapshot(position: seq<State>, side: Color, ko: Option<Intersection>, lastMove: Move,
                               whiteCaptures: nat, blackCaptures: nat)

  /** The intersection at cell `n`, if `n` is an on-board cell. */
  function KoPoint(n: Option<int>, size: BoardSize): Option<Intersection>
  {
    if n.Some? && n.value >= 0 then FromPositionIndex(n.value, size) else None
  }

  /** Whether a move was accepted, and the game it leaves behind. */
  datatype Outcome = Outcome(ok: bool, after: Snapshot)

  /**
   * Reference for playing a `c` stone at `x`: refused (nothing changes) on the ko
   * point, off the board, on an occupied cell, and when the stone's group has no
   * liberty once the captures are removed; otherwise the captures are removed and
   * counted for `c`, the other side is to move, the ko point is set and the move is
   * recorded.
   */
  ghost function PlayRef(s: Snapshot, size: BoardSize, x: Intersection, c: Color): Outcome
  {
    if s.ko == Some(x) then Outcome(false, s)
    else match ToPositionIndex(x, size)
      case None => Outcome(false, s)
      case Some(i) =>
        if i >= |s.position| || s.position[i] != Empty then Outcome(false, s)
        else PlayOnEmpty(s, size, x, c, i)
  }

  /**
   * Reference for playing a `c` stone at `x`, which is the empty cell `i`: the
   * captures are removed and counted for `c`, and the move stands unless the stone's
   * group is left without a liberty.
   */
  ghost function PlayOnEmpty(s: Snapshot, size: BoardSize, x: Intersection, c: Color, i: nat): Outcome
    requires i < |s.position|
  {
    var w := Width(size);
    var o := c.Opposite();
    var B := Placed(s.position, i, c);
    var R := Captured(B, w, o, i);
    var F := ClearCells(B, R);
    if Libs(F, w, Comp(F, w, Occupied(c), i)) == {} then Outcome(false, s)
    else
      Outcome(true, Snapshot(F, o, KoPoint(KoUpTo(B, w, o, i, 4), size), PlayAt(x, c),
                      if c == White then s.whiteCaptures + |R| else s.whiteCaptures,
                      if c == Black then s.blackCaptures + |R| else s.blackCaptures))
  }

  /** The outcome of `PlayOnEmpty` when the played group keeps a liberty. */
  lemma PlayOnEmptyStands(s: Snapshot, size: BoardSize, x: Intersection, c: Color, i: nat,
                          B: seq<State>, F: seq<State>, k: Option<Intersection>, wc: nat, bc: nat)
    requires i < |s.position| && B == Placed(s.position, i, c)
    requires var w, o := Width(size), c.Opposite();
      && F == ClearCells(B, Captured(B, w, o, i))
      && Libs(F, w, Comp(F, w, Occupied(c), i)) != {}
      && k == KoPoint(KoUpTo(B, w, o, i, 4), size)
      && (c == White ==> wc == s.whiteCaptures + |Captured(B, w, o, i)| && bc == s.blackCaptures)
      && (c == Black ==> bc == s.blackCaptures + |Captured(B, w, o, i)| && wc == s.whiteCaptures)
    ensures PlayOnEmpty(s, size, x, c, i) == Outcome(true, Snapshot(F, c.Opposite(), k, PlayAt(x, c), wc, bc))
  {
    var w, o := Width(size), c.Opposite();
    var R := Captured(B, w, o, i);
    assert Libs(F, w, Comp(F, w, Occupied(c), i)) != {};
    var wc' := if c == White then s.whiteCaptures + |R| else s.whiteCaptures;
    var bc' := if c == Black then s.blackCaptures + |R| else s.blackCaptures;
    assert wc' == wc && bc' == bc;
    assert PlayOnEmpty(s, size, x, c, i).after == Snapshot(F, o, k, PlayAt(x, c), wc, bc);
  }

  /**
   * The outcome of `PlayOnEmpty` when the played group has no liberty left: nothing
   * was captured, and taking the stone back restores the position.
   */
  lemma PlayOnEmptyRefused(s: Snapshot, size: BoardSize, x: Intersection, c: Color, i: nat, B: seq<State>, F: seq<State>)
    requires i < |s.position| && s.position[i] == Empty && B == Placed(s.position, i, c)
    requires StoneAt(B, Width(size), i, c)
    requires var w := Width(size);
      && F == ClearCells(B, Captured(B, w, c.Opposite(), i))
      && Libs(F, w, Comp(F, w, Occupied(c), i)) == {}
    ensures Captured(B, Width(size), c.Opposite(), i) == {}
    ensures F[i := Empty] == s.position
    ensures PlayOnEmpty(s, size, x, c, i) == Outcome(false, s)
  {
    var w := Width(size);
    CaptureGivesLiberty(B, w, c, i);
    ClearNothing(B);
    assert F[i := Empty] == s.position;
  }

  /**
   * A game in progress: the bordered position, the side to move, the ko point, komi,
   * the last move, the stones each side has captured and the number of moves played.
   */
  class Board {
    var size: BoardSize
    var position: seq<State>
    var side: Color
    var ko: Option<Intersection>
    var komi: real
    var lastMove: Move
    var whiteCaptures: nat
    var blackCaptures: nat
    var moveNumber: nat

    /** The position is a well-bordered board of this size. */
    ghost predicate Valid()
      reads this
    {
      WellBordered(position, Width(size))
    }

    /** A new empty board of the given size: Black to move, komi 6.5, no ko, nothing played. */
    constructor New(size: BoardSize)
      ensures Valid()
      ensures this.size == size && position == Bordered(Width(size))
      ensures side == Black && ko == None && komi == 6.5 && lastMove == Pass
      ensures whiteCaptures == 0 && blackCaptures == 0 && moveNumber == 0
    {
      var cells := EmptyBoard(size.ToU16());
      BorderedIsWellBordered(Width(size));
      this.size := size;
      position := cells;
      side := Black;
      ko := None;
      komi := 6.5;
      lastMove := Pass;
      whiteCaptures := 0;
      blackCaptures := 0;
      moveNumber := 0;
    }

    /** The cells of an empty `n` x `n` board, built row by row: the ring is off the board, the rest empty. */
    static method EmptyBoard(n: nat) returns (cells: seq<State>)
      ensures cells == Bordered(n + 2)
    {
      var w := n + 2;
      cells := [];
      var row := 0;
      while row < w
        invariant 0 <= row <= w
        invariant |cells| == row * w
        invariant forall i :: 0 <= i < |cells| ==> cells[i] == if OnRing(i, w) then Offboard else Empty
      {
        var col := 0;
        while col < w
          invariant 0 <= col <= w
          invariant |cells| == row * w + col
          invariant forall i :: 0 <= i < |cells| ==> cells[i] == if OnRing(i, w) then Offboard else Empty
        {
          DivModOf(row, col, w);
          cells := cells + [if row == 0 || row == n + 1 || col == 0 || col == n + 1 then Offboard else Empty];
          col := col + 1;
        }
        row := row + 1;
      }
    }

    /** A new board equal to this one, sharing nothing with it. */
    method DeepCopy() returns (copy: Board)
      ensures fresh(copy)
      ensures copy.size == size && copy.position == position && copy.side == side && copy.ko == ko
      ensures copy.komi == komi && copy.lastMove == lastMove && copy.moveNumber == moveNumber
      ensures copy.whiteCaptures == whiteCaptures && copy.blackCaptures == blackCaptures
    {
      var cells: seq<State> := [];
      for j := 0 to |position|
        invariant cells == position[..j]
      {
        cells := cells + [position[j]];
      }
      copy := new Board.New(size);
      copy.position := cells;
      copy.side := side;
      copy.ko := ko;
      copy.komi := komi;
      copy.lastMove := lastMove;
      copy.whiteCaptures := whiteCaptures;
      copy.blackCaptures := blackCaptures;
      copy.moveNumber := moveNumber;
    }

    /**
     * The recursive walk behind `Count`: from cell `i`, adds unvisited `color` stones to
     * `group` and walks on to their four neighbours, and adds empty cells to
     * `liberties`. `K` is any closed set of `color` stones containing `i` when `i` is
     * such a stone; the walk never leaves it.
     */
    method CountHelp(i: int, color: Color, group: set<int>, liberties: set<int>, ghost K: set<int>)
      returns (group': set<int>, liberties': set<int>)
      requires Valid() && 0 <= i < |position| && group <= Indices(position)
      requires Closed(position, Width(size), Occupied(color), K)
      requires position[i] == Occupied(color) ==> i in K
      ensures Walk(position, Width(size), Occupied(color), K, group, liberties, group', liberties', i)
      ensures !(position[i] == Occupied(color) && i !in group) ==> group' == group
      decreases Indices(position) - group
    {
      var w := Width(size);
      var t := Occupied(color);
      match position[i]
      case Occupied(c) =>
        if c == color && i !in group {
          InteriorRange(position, w, i);
          PartialStart(position, w, t, K, group, liberties, i);
          var g0, l0 := group + {i}, liberties;
          NbrInK(position, w, t, K, i);
          assert Nbr(i, w, 0) == i + 1 && Nbr(i, w, 1) == i - 1 && Nbr(i, w, 2) == i + w && Nbr(i, w, 3) == i - w;
          assert 0 <= i - w && i + w < |position|;
          assert position[i - w] == t ==> i - w in K;
          var g1, l1 := CountHelp(i + 1, color, g0, l0, K);
          PartialStep(position, w, t, K, group, liberties, g0, l0, g1, l1, i, 0);
          var g2, l2 := CountHelp(i - 1, color, g1, l1, K);
          PartialStep(position, w, t, K, group, liberties, g1, l1, g2, l2, i, 1);
          var g3, l3 := CountHelp(i + w, color, g2, l2, K);
          PartialStep(position, w, t, K, group, liberties, g2, l2, g3, l3, i, 2);
          group', liberties' := CountHelp(i - w, color, g3, l3, K);
          PartialStep(position, w, t, K, group, liberties, g3, l3, group', liberties', i, 3);
          PartialEnd(position, w, t, K, group, liberties, group', liberties', i);
        } else {
          group', liberties' := group, liberties;
        }
      case Empty =>
        group', liberties' := group, liberties + {i};
      case Offboard =>
        group', liberties' := group, liberties;
    }

    /**
     * The group of `color` stones connected to cell `i`, and its liberties; when `i`
     * itself is empty it is its own liberty.
     */
    method Count(i: int, color: Color) returns (group: set<int>, liberties: set<int>)
      requires Valid() && 0 <= i < |position|
      ensures group == Comp(position, Width(size), Occupied(color), i)
      ensures liberties == Libs(position, Width(size), group) + (if position[i] == Empty then {i} else {})
    {
      var w := Width(size);
      ghost var K := Comp(position, w, Occupied(color), i);
      CompSpec(position, w, Occupied(color), i);
      group, liberties := CountHelp(i, color, {}, {}, K);
      assert Closed(position, w, Occupied(color), group) by {
        forall m | m in Reached(position, w, Occupied(color), group)
          ensures m in group
        {
          assert Touches(group - {}, m, w);
        }
      }
      if position[i] == Occupied(color) {
        CompLeast(position, w, Occupied(color), i, group);
      }
      forall y | y in liberties
        ensures y in Libs(position, w, group) + (if position[i] == Empty then {i} else {})
      {
        assert group - {} == group;
        assert y == i || Touches(group, y, w);
      }
      forall y | y in Libs(position, w, group)
        ensures y in liberties
      {
        assert Touches(group - {}, y, w);
      }
    }

    /** The parts of the board that playing a stone may change. */
    function Snap(): Snapshot
      reads this
    {
      Snapshot(position, side, ko, lastMove, whiteCaptures, blackCaptures)
    }

    /**
     * Empties the cells of `group`, one at a time, and adds its size to the capture
     * counter of `color`, the capturing side.
     */
    method CaptureGroup(group: set<int>, color: Color)
      modifies this`position, this`whiteCaptures, this`blackCaptures
      requires Valid() && forall s :: s in group ==> 0 <= s < |position| && position[s] != Offboard
      ensures Valid()
      ensures position == ClearCells(old(position), group)
      ensures whiteCaptures == old(whiteCaptures) + (if color == White then |group| else 0)
      ensures blackCaptures == old(blackCaptures) + (if color == Black then |group| else 0)
    {
      var stones := |group|;
      var rest: set<nat> := group;
      while rest != {}
        invariant rest <= group
        invariant position == ClearCells(old(position), group - rest)
        invariant whiteCaptures == old(whiteCaptures) && blackCaptures == old(blackCaptures)
        decreases rest
      {
        var cell :| cell in rest;
        position := position[cell := Empty];
        rest := rest - {cell};
      }
      match color
      case White => whiteCaptures := whiteCaptures + stones;
      case Black => blackCaptures := blackCaptures + stones;
    }

    /**
     * The colour of the diamond of stones around `x`: `None` when `x` is off the board,
     * when a neighbour is empty, or when two neighbours differ in colour.
     */
    method Diamond(x: Intersection) returns (r: Option<Color>)
      requires Valid()
      ensures r == if ToPositionIndex(x, size).Some?
                   then DiamondOf(position, Width(size), ToPositionIndex(x, size).value) else None
    {
      var idx := ToPositionIndex(x, size);
      if idx.None? {
        return None;
      }
      PositionIndexRoundTrip(x, size);
      InteriorBounds(position, Width(size), idx.value);
      WidthBounds(size);
      MulLe(Width(size), 21, Width(size));
      MulLe(Width(size), 21, 21);
      r := ScanDiamond(position, Width(size), idx.value);
    }

    /**
     * The captures made by playing a `color` stone on the empty cell `i` of the
     * snapshot `s0` (the stone already placed): the board, counters and pending ko
     * point are those the capture rules give, ready for the move to settle.
     */
    method CaptureAround(x: Intersection, i: nat, color: Color, ghost s0: Snapshot)
      returns (newKo: Option<Intersection>, ghost R: set<int>, ghost koCell: Option<int>)
      modifies this`position, this`whiteCaptures, this`blackCaptures
      requires Valid() && ToPositionIndex(x, size) == Some(i) && StoneAt(position, Width(size), i, color)
      requires i < |s0.position| && s0.position[i] == Empty && position == Placed(s0.position, i, color)
      requires s0 == Snapshot(s0.position, side, ko, lastMove, whiteCaptures, blackCaptures)
      ensures ReadyToSettle(i, color, newKo, s0, old(position), R, koCell)
    {
      ghost var B := position;
      ghost var count;
      newKo, count, koCell := CaptureLoop(x, i, color);
      R := Captured(B, Width(size), color.Opposite(), i);
      CapturesDone(i, color, newKo, s0, B, R, koCell, count);
    }

    /**
     * The loop over the four neighbours of the new `color` stone at cell `i`: each
     * neighbouring group of the other colour without a liberty is removed and counted,
     * and a single stone taken from a diamond becomes the ko point.
     */
    method CaptureLoop(x: Intersection, i: nat, color: Color)
      returns (newKo: Option<Intersection>, ghost count: nat, ghost koCell: Option<int>)
      modifies this`position, this`whiteCaptures, this`blackCaptures
      requires Valid() && ToPositionIndex(x, size) == Some(i) && StoneAt(position, Width(size), i, color)
      ensures Valid() && CaptureState(old(position), Width(size), color, i, 4, position, count, koCell)
      ensures Counters(color, old(whiteCaptures), old(blackCaptures), count) && newKo == KoPoint(koCell, size)
    {
      newKo := None;
      var w := Width(size);
      ghost var B := position;
      count := 0;
      koCell := None;
      ClearNothing(B);
      NbrIndices(B, size, i);
      var dirs := [1, -1, w, -(w as int)];
      DirsAre(w, dirs);
      for k := 0 to 4
        invariant Valid() && CaptureState(B, w, color, i, k, position, count, koCell)
        invariant Counters(color, old(whiteCaptures), old(blackCaptures), count)
        invariant newKo == KoPoint(koCell, size)
      {
        newKo, count, koCell := CaptureAt(x, i, color, k, dirs[k], newKo, B, count, koCell, old(whiteCaptures), old(blackCaptures));
      }
    }

    /** After the capture loop has visited all four neighbours, the move is ready to settle. */
    lemma CapturesDone(i: int, color: Color, newKo: Option<Intersection>, s0: Snapshot, B: seq<State>,
                       R: set<int>, koCell: Option<int>, count: nat)
      requires Valid() && 0 <= i < |s0.position| && s0.position[i] == Empty && B == Placed(s0.position, i, color)
      requires s0.side == side && s0.ko == ko && s0.lastMove == lastMove
      requires CaptureState(B, Width(size), color, i, 4, position, count, koCell)
      requires Counters(color, s0.whiteCaptures, s0.blackCaptures, count) && newKo == KoPoint(koCell, size)
      requires R == Captured(B, Width(size), color.Opposite(), i)
      ensures ReadyToSettle(i, color, newKo, s0, B, R, koCell)
    {
    }

    /**
     * The turn of the capture loop at the `k`-th neighbour of cell `i`, one step `dir`
     * away: it keeps the loop's state, its counters and its pending ko point.
     */
    method CaptureAt(x: Intersection, i: nat, color: Color, k: int, dir: int, newKo: Option<Intersection>,
                     ghost B: seq<State>, ghost count: nat, ghost koCell: Option<int>, ghost white0: nat, ghost black0: nat)
      returns (newKo': Option<Intersection>, ghost count': nat, ghost koCell': Option<int>)
      modifies this`position, this`whiteCaptures, this`blackCaptures
      requires Valid() && ToPositionIndex(x, size) == Some(i) && 0 <= k < 4 && dir == Dir(Width(size), k)
      requires CaptureState(B, Width(size), color, i, k, position, count, koCell)
      requires Counters(color, white0, black0, count) && newKo == KoPoint(koCell, size)
      ensures Valid() && CaptureState(B, Width(size), color, i, k + 1, position, count', koCell')
      ensures Counters(color, white0, black0, count') && newKo' == KoPoint(koCell', size)
    {
      var w, o := Width(size), color.Opposite();
      NbrIndices(B, size, i);
      var nb := AddSignedToUnsigned(i, dir, UsizeMax);
      if nb.Some? {
        ghost var P := position;
        ghost var G, L, D;
        newKo', G, L, D := CaptureNeighbour(x, i, color, nb.value, newKo);
        count' := count + |D|;
        if L == {} && |G| == 1 && DiamondOf(P, w, i) == Some(o) {
          koCell' := Some(nb.value);
          assert newKo' == FromPositionIndex(nb.value, size) == KoPoint(koCell', size);
        } else {
          koCell' := koCell;
          assert newKo' == newKo;
        }
        CaptureStateStep(B, w, color, i, k, P, count, koCell, G, L, D, position, count', koCell');
      } else {
        assert false;
      }
    }

    /**
     * The state between capturing and settling a move: `B` is the snapshot `s0`
     * with a `color` stone on the empty cell `i`, `R` and `koCell` are the stones
     * that stone captures and the ko cell it leaves, and those captures are made.
     */
    ghost predicate ReadyToSettle(i: int, color: Color, newKo: Option<Intersection>, s0: Snapshot, B: seq<State>,
                                  R: set<int>, koCell: Option<int>)
      reads this
    {
      var w, o := Width(size), color.Opposite();
      && Valid() && 0 <= i < |s0.position| && s0.position[i] == Empty && B == Placed(s0.position, i, color)
      && s0.side == side && s0.ko == ko && s0.lastMove == lastMove
      && StoneAt(B, w, i, color)
      && R == Captured(B, w, o, i) && koCell == KoUpTo(B, w, o, i, 4)
      && CapturesMade(B, R, koCell, color, newKo, s0.whiteCaptures, s0.blackCaptures)
    }

    /**
     * The captures around the `color` stone at cell `i` of `B` are made: the dead
     * groups of the other colour are removed, their size is added to the counter of
     * `color` (counters `white0`, `black0` before), and `newKo` is the ko point they leave.
     */
    ghost predicate CapturesMade(B: seq<State>, R: set<int>, koCell: Option<int>, color: Color, newKo: Option<Intersection>,
                                 white0: nat, black0: nat)
      reads this
    {
      && position == ClearCells(B, R)
      && newKo == KoPoint(koCell, size)
      && Counters(color, white0, black0, |R|)
    }

    /** The capture counter of `color` has grown by `count` since `white0`, `black0`; the other is unchanged. */
    ghost predicate Counters(color: Color, white0: nat, black0: nat, count: nat)
      reads this
    {
      && whiteCaptures == white0 + (if color == White then count else 0)
      && blackCaptures == black0 + (if color == Black then count else 0)
    }

    /**
     * One turn of the capture loop, at the neighbour `n` of cell `i`: counts the group
     * `G` of the other colour there and its liberties `L`, and when there is none
     * captures `G`, making `n` the ko point when `G` is a single stone and `x` sits in
     * a diamond of the other colour.
     */
    method CaptureNeighbour(x: Intersection, i: nat, color: Color, n: nat, newKo: Option<Intersection>)
      returns (newKo': Option<Intersection>, ghost G: set<int>, ghost L: set<int>, ghost D: set<int>)
      modifies this`position, this`whiteCaptures, this`blackCaptures
      requires Valid() && ToPositionIndex(x, size) == Some(i) && 0 <= n < |position|
      ensures Valid()
      ensures var w, o := Width(size), color.Opposite();
        && G == Comp(old(position), w, Occupied(o), n)
        && L == Libs(old(position), w, G) + (if old(position)[n] == Empty then {n} else {})
      ensures D == if L == {} then G else {}
      ensures position == ClearCells(old(position), D)
      ensures whiteCaptures == old(whiteCaptures) + (if color == White then |D| else 0)
      ensures blackCaptures == old(blackCaptures) + (if color == Black then |D| else 0)
      ensures newKo' == if L == {} && |G| == 1 && DiamondOf(old(position), Width(size), i) == Some(color.Opposite())
                        then FromPositionIndex(n, size) else newKo
    {
      var w, o := Width(size), color.Opposite();
      newKo' := newKo;
      var group, liberties := Count(n, o);
      G, L, D := group, liberties, {};
      if |liberties| == 0 {
        if |group| == 1 {
          var d := Diamond(x);
          if d.Some? && d.value != color {
            newKo' := FromPositionIndex(n, size);
          }
        }
        CompSpec(position, w, Occupied(o), n);
        CaptureGroup(group, color);
        D := group;
      } else {
        ClearNothing(position);
      }
    }

    /**
     * Plays a move: a pass always succeeds and changes nothing else, a resignation is
     * refused, and a stone is played as `PlayIntersection`. The move counter goes up
     * exactly when the move is accepted.
     */
    method Play(mov: Move) returns (played: bool)
      modifies this`position, this`whiteCaptures, this`blackCaptures, this`ko, this`side, this`lastMove, this`moveNumber
      requires Valid()
      ensures Valid()
      ensures moveNumber == if played then old(moveNumber) + 1 else old(moveNumber)
      ensures mov.Pass? ==> played && Snap() == old(Snap())
      ensures mov.Resign? ==> !played && Snap() == old(Snap())
      ensures mov.PlayAt? ==> Outcome(played, Snap()) == PlayRef(old(Snap()), size, mov.at, mov.color)
    {
      match mov {
        case Pass =>
          played := true;
        case PlayAt(x, color) =>
          played := PlayIntersection(x, color);
        case Resign =>
          played := false;
      }
      if played {
        moveNumber := moveNumber + 1;
      }
    }

    /**
     * Plays a `color` stone at `x`: refused on the ko point, off the board and on an
     * occupied cell; otherwise as `PlaceStone`.
     */
    method PlayIntersection(x: Intersection, color: Color) returns (ok: bool)
      modifies this`position, this`whiteCaptures, this`blackCaptures, this`ko, this`side, this`lastMove
      requires Valid()
      ensures Valid()
      ensures Outcome(ok, Snap()) == PlayRef(old(Snap()), size, x, color)
    {
      if ko == Some(x) {
        return false;
      }
      var idx := ToPositionIndex(x, size);
      if idx.None? {
        return false;
      }
      var i := idx.value;
      PositionIndexRoundTrip(x, size);
      if position[i] != Empty {
        return false;
      }
      ok := PlaceStone(x, i, color);
    }

    /**
     * Puts a `color` stone on the empty cell `i` (the intersection `x`), captures the
     * neighbouring groups left without a liberty, and takes the stone back if its own
     * group then has no liberty; a move that stands hands the turn over and records
     * the ko point and the move.
     */
    method PlaceStone(x: Intersection, i: nat, color: Color) returns (ok: bool)
      modifies this`position, this`whiteCaptures, this`blackCaptures, this`ko, this`side, this`lastMove
      requires Valid() && ToPositionIndex(x, size) == Some(i) && i < |position| && position[i] == Empty
      ensures Valid()
      ensures Outcome(ok, Snap()) == PlayOnEmpty(old(Snap()), size, x, color, i)
    {
      ghost var s0 := Snap();
      var w := Width(size);
      SetKeepsBordered(position, w, i, Occupied(color));
      position := position[i := Occupied(color)];
      ghost var B := position;
      assert B == Placed(s0.position, i, color) && StoneAt(B, w, i, color);
      ghost var R, koCell;
      var newKo;
      newKo, R, koCell := CaptureAround(x, i, color, s0);
      ok := Settle(x, i, color, newKo, s0, B, R, koCell);
    }

    /**
     * The end of a move, once the captures are made: takes the stone at `i` back when
     * its group has no liberty, and otherwise hands the turn over and records the ko
     * point and the move.
     */
    method Settle(x: Intersection, i: nat, color: Color, newKo: Option<Intersection>, ghost s0: Snapshot, ghost B: seq<State>,
                  ghost R: set<int>, ghost koCell: Option<int>)
      returns (ok: bool)
      modifies this`position, this`ko, this`side, this`lastMove
      requires ReadyToSettle(i, color, newKo, s0, B, R, koCell)
      ensures Valid()
      ensures Outcome(ok, Snap()) == PlayOnEmpty(s0, size, x, color, i)
    {
      PlacedStoneStays(B, Width(size), color, i);
      var _, played := Count(i, color);
      ok := |played| != 0;
      if ok {
        PlayOnEmptyStands(s0, size, x, color, i, B, position, newKo, whiteCaptures, blackCaptures);
        Commit(x, color, newKo);
      } else {
        TakeBack(x, i, color, s0, B);
      }
    }

    /** A move whose group has no liberty: the stone at `i` is taken off again. */
    method TakeBack(x: Intersection, i: nat, color: Color, ghost s0: Snapshot, ghost B: seq<State>)
      modifies this`position
      requires Valid() && i < |s0.position| && B == Placed(s0.position, i, color)
      requires s0.position[i] == Empty && s0.side == side && s0.ko == ko && s0.lastMove == lastMove
      requires StoneAt(B, Width(size), i, color)
      requires var w, o := Width(size), color.Opposite();
        && position == ClearCells(B, Captured(B, w, o, i))
        && Libs(position, w, Comp(position, w, Occupied(color), i)) == {}
        && (color == White ==> whiteCaptures == s0.whiteCaptures + |Captured(B, w, o, i)| && blackCaptures == s0.blackCaptures)
        && (color == Black ==> blackCaptures == s0.blackCaptures + |Captured(B, w, o, i)| && whiteCaptures == s0.whiteCaptures)
      ensures Valid()
      ensures Outcome(false, Snap()) == PlayOnEmpty(s0, size, x, color, i)
    {
      PlayOnEmptyRefused(s0, size, x, color, i, B, position);
      assert whiteCaptures == s0.whiteCaptures && blackCaptures == s0.blackCaptures;
      SetKeepsBordered(position, Width(size), i, Empty);
      position := position[i := Empty];
    }

    /** A move that stands: the other side is to move, and the ko point and the move are recorded. */
    method Commit(x: Intersection, color: Color, newKo: Option<Intersection>)
      modifies this`ko, this`side, this`lastMove
      requires Valid()
      ensures Valid()
      ensures Snap() == Snapshot(position, color.Opposite(), newKo, PlayAt(x, color), whiteCaptures, blackCaptures)
    {
      ko := newKo;
      side := color.Opposite();
      lastMove := PlayAt(x, color);
    }

    /**
     * Estimates the area score: scans the board row by row and, from every point no
     * earlier walk collected, walks the area around it and credits its size to the
     * colour it reaches alone; the difference, black minus white, less komi, which is
     * the difference of the reference totals `ScanTotals`. A board with stones of one
     * colour only scores in that colour's favour, and one without stones scores
     * exactly minus komi.
     */
    method EstimateScore() returns (score: real)
      requires Valid()
      ensures var t := ScanTotals(position, size, size.ToU16(), 0);
        score == (t.black - t.white) as real - komi
      ensures !HasStone(position, White) ==> score >= -komi
      ensures !HasStone(position, Black) ==> score <= -komi
      ensures HasStone(position, Black) && !HasStone(position, White) ==> score > -komi
      ensures HasStone(position, White) && !HasStone(position, Black) ==> score < -komi
    {
      var seen: set<Intersection> := {};
      var reachesBlack: nat, reachesWhite: nat := 0, 0;
      var n := size.ToU16();
      WidthBounds(size);
      for row := 0 to n
        invariant Tally(seen, reachesBlack, reachesWhite)
        invariant Scanned(seen, row, 0)
        invariant Totals(seen, reachesBlack, reachesWhite) == ScanTotals(position, size, row, 0)
      {
        seen, reachesBlack, reachesWhite := ScoreRow(row, seen, reachesBlack, reachesWhite);
      }
      ScoreCovers(seen);
      score := (reachesBlack - reachesWhite) as real - komi;
    }

    /**
     * One row of the area count's scan: from each point of row `row + 1` that no walk
     * has collected yet, walks its area and credits its size to the colour it reaches;
     * the totals move on to those of `ScanTotals` after the row.
     */
    method ScoreRow(row: nat, seen: set<Intersection>, reachesBlack: nat, reachesWhite: nat)
      returns (seen': set<Intersection>, reachesBlack': nat, reachesWhite': nat)
      requires Valid() && row < size.ToU16()
      requires Tally(seen, reachesBlack, reachesWhite) && Scanned(seen, row, 0)
      requires Totals(seen, reachesBlack, reachesWhite) == ScanTotals(position, size, row, 0)
      ensures Tally(seen', reachesBlack', reachesWhite') && Scanned(seen', row + 1, 0)
      ensures Totals(seen', reachesBlack', reachesWhite') == ScanTotals(position, size, row + 1, 0)
    {
      seen', reachesBlack', reachesWhite' := seen, reachesBlack, reachesWhite;
      var n := size.ToU16();
      for col := 0 to n
        invariant Tally(seen', reachesBlack', reachesWhite')
        invariant Scanned(seen', row, col)
        invariant Totals(seen', reachesBlack', reachesWhite') == ScanTotals(position, size, row, col)
      {
        var x := ScanPoint(size, row, col);
        assert ScanTotals(position, size, row, col + 1) == ScanVisit(position, size, ScanTotals(position, size, row, col), x);
        ghost var before := seen';
        seen', reachesBlack', reachesWhite' := ScorePoint(x, seen', reachesBlack', reachesWhite');
        assert Scanned(seen', row, col) by {
          assert before <= seen';
        }
        ScanStep(seen', x, row, col);
      }
      ScanRow(seen', row);
    }

    /**
     * One point of the scan: a point that some walk collected already changes nothing;
     * otherwise its area is walked and collected, and the area's size is credited to
     * the colour it reaches alone, while an area reaching both colours or none (dame)
     * is credited to nobody.
     */
    method ScorePoint(x: Intersection, seen: set<Intersection>, reachesBlack: nat, reachesWhite: nat)
      returns (seen': set<Intersection>, reachesBlack': nat, reachesWhite': nat)
      requires Valid() && ToPositionIndex(x, size).Some? && Tally(seen, reachesBlack, reachesWhite)
      ensures Tally(seen', reachesBlack', reachesWhite') && seen <= seen' && x in seen'
      ensures x in seen ==> seen' == seen && reachesBlack' == reachesBlack && reachesWhite' == reachesWhite
      ensures x !in seen ==> seen' == seen + AreaPoints(position, size, x)
      ensures var reach := ReachOf(position, Area(position, Width(size), ToPositionIndex(x, size).value));
        && reachesBlack' == reachesBlack + (if x !in seen && reach == Yes(Black) then |AreaPoints(position, size, x)| else 0)
        && reachesWhite' == reachesWhite + (if x !in seen && reach == Yes(White) then |AreaPoints(position, size, x)| else 0)
      ensures Totals(seen', reachesBlack', reachesWhite') == ScanVisit(position, size, Totals(seen, reachesBlack, reachesWhite), x)
    {
      seen', reachesBlack', reachesWhite' := seen, reachesBlack, reachesWhite;
      if x !in seen {
        var area, reaches := TrompTaylorCount(x);
        ghost var r := ToPositionIndex(x, size).value;
        SeenIsAreaPoints(position, size, x, area);
        ReachIsOf(position, Area(position, Width(size), r), reaches);
        if reaches.Yes? {
          match reaches.value
          case Black => reachesBlack' := reachesBlack + |area|;
          case White => reachesWhite' := reachesWhite + |area|;
        }
        TallyStep(seen, area, reaches, r, reachesBlack, reachesWhite, reachesBlack', reachesWhite');
        seen' := seen + area;
      }
    }

    /** Every on-board point before row `row + 1` and column `col` in the scan order is in `seen`. */
    ghost predicate Scanned(seen: set<Intersection>, row: int, col: int)
      reads this
    {
      forall y :: ToPositionIndex(y, size).Some? && (y.row - 1 < row || (y.row - 1 == row && y.column.ToU16() < col)) ==> y in seen
    }

    /** Scanning the point `x` at column `col` of row `row + 1` extends the scanned part by one point. */
    lemma ScanStep(seen: set<Intersection>, x: Intersection, row: int, col: int)
      requires 0 <= col < size.ToU16() && 0 <= row < size.ToU16() && x == ScanPoint(size, row, col)
      requires Scanned(seen, row, col) && x in seen
      ensures Scanned(seen, row, col + 1)
    {
      forall y | ToPositionIndex(y, size).Some? && y.row - 1 == row && y.column.ToU16() == col
        ensures y == x
      {
        ColumnRoundTrip(y.column);
        ColumnRoundTrip(x.column);
      }
    }

    /** A scan past the last column of a row has scanned the whole row. */
    lemma ScanRow(seen: set<Intersection>, row: int)
      requires Scanned(seen, row, size.ToU16())
      ensures Scanned(seen, row + 1, 0)
    {
    }

    /** Some intersection of `seen` holds a `c` stone. */
    ghost predicate SeenHolds(seen: set<Intersection>, c: Color)
      reads this
    {
      exists y :: y in seen && PointState(position, size, y) == Occupied(c)
    }

    /**
     * The running totals of the area count after visiting `seen`: a colour with no
     * stone on the board has no area, and a colour that alone has stones on the board
     * has some area as soon as one of its stones has been visited.
     */
    ghost predicate Tally(seen: set<Intersection>, reachesBlack: int, reachesWhite: int)
      reads this
    {
      && reachesBlack >= 0 && reachesWhite >= 0
      && (!HasStone(position, White) ==> reachesWhite == 0)
      && (!HasStone(position, Black) ==> reachesBlack == 0)
      && (!HasStone(position, White) && SeenHolds(seen, Black) ==> reachesBlack > 0)
      && (!HasStone(position, Black) && SeenHolds(seen, White) ==> reachesWhite > 0)
    }

    /**
     * One walk of the area count, from the cell `r`, keeps the running totals: the
     * walk credits a colour only when it met a stone of it and none of the other.
     */
    lemma TallyStep(seen: set<Intersection>, area: set<Intersection>, reaches: Tristate<Color>, r: int,
                    rb: int, rw: int, rb': int, rw': int)
      requires Valid() && 0 <= r < |position| && Tally(seen, rb, rw)
      requires SeenIs(size, area, Area(position, Width(size), r)) && area != {}
      requires ReachIs(position, Area(position, Width(size), r), reaches)
      requires rb' == if reaches == Yes(Black) then rb + |area| else rb
      requires rw' == if reaches == Yes(White) then rw + |area| else rw
      ensures Tally(seen + area, rb', rw')
    {
      var A := Area(position, Width(size), r);
      forall c | SeenHolds(area, c)
        ensures Meets(position, A, c)
      {
        var y :| y in area && PointState(position, size, y) == Occupied(c);
        assert ToPositionIndex(y, size).value in A;
      }
      forall c | reaches == Yes(c)
        ensures HasStone(position, c)
      {
        var j :| j in A && 0 <= j < |position| && position[j] == Occupied(c);
      }
      forall c | SeenHolds(seen + area, c)
        ensures SeenHolds(seen, c) || SeenHolds(area, c)
      {
        var y :| y in seen + area && PointState(position, size, y) == Occupied(c);
      }
    }

    /** When every point of the board has been scanned, a stone on it lies in `seen`. */
    lemma ScoreCovers(seen: set<Intersection>)
      requires Valid() && Scanned(seen, size.ToU16(), 0)
      ensures forall c :: HasStone(position, c) ==> SeenHolds(seen, c)
    {
      forall c | HasStone(position, c)
        ensures SeenHolds(seen, c)
      {
        var j :| 0 <= j < |position| && position[j] == Occupied(c);
        assert !OnRing(j, Width(size));
        var y := FromPositionIndex(j, size).value;
        IndexPositionRoundTrip(j, size);
        assert y in seen && PointState(position, size, y) == Occupied(c);
      }
    }

    /**
     * The walk of the area count from the on-board point `root`: collects the points of
     * its area (the empty region around it with the stones bordering it, or the stone
     * at `root` alone) and which colour their stones reach.
     */
    method TrompTaylorCount(root: Intersection) returns (seen: set<Intersection>, reaches: Tristate<Color>)
      requires Valid() && ToPositionIndex(root, size).Some?
      ensures root in seen
      ensures SeenIs(size, seen, Area(position, Width(size), ToPositionIndex(root, size).value))
      ensures ReachIs(position, Area(position, Width(size), ToPositionIndex(root, size).value), reaches)
    {
      var w := Width(size);
      ghost var ri := ToPositionIndex(root, size).value;
      PositionIndexRoundTrip(root, size);
      ghost var A := Area(position, w, ri);
      AreaShape(position, w, ri);
      ghost var cells: set<int> := {};
      seen := {};
      reaches := Unknown;
      var work := [root];
      WalkStart(position, size, root, A);
      while work != []
        invariant Walking(position, size, root, A, seen, cells, work, reaches)
        decreases A - cells, |work|
      {
        var x := work[0];
        ghost var rest := work[1..];
        assert work == [x] + rest;
        work := work[1..];
        if x in seen {
          WalkSkip(position, size, root, A, seen, cells, x, work, reaches);
        } else {
          var i := ToPositionIndex(x, size).value;
          PositionIndexRoundTrip(x, size);
          var st := position[i];
          ghost var r0 := reaches;
          var more := [];
          if st == Empty {
            more := NeighboringIntersections(x);
          } else if st.Occupied? {
            reaches := Join(reaches, st.color);
          }
          WalkVisit(position, size, root, ri, A, seen, cells, x, work, r0, i, more, reaches);
          work := work + more;
          seen := seen + {x};
          cells := cells + {i};
        }
      }
      WalkDone(position, size, root, ri, seen, cells, reaches);
    }

    /**
     * The on-board neighbours of `x`, right, left, below and above, found by checked
     * index arithmetic; none when `x` is off the board.
     */
    method NeighboringIntersections(x: Intersection) returns (neighbors: seq<Intersection>)
      requires Valid()
      ensures neighbors == NeighbourPoints(x, size)
    {
      neighbors := [];
      var idx := ToPositionIndex(x, size);
      if idx.Some? {
        var i := idx.value;
        var w := Width(size);
        PositionIndexRoundTrip(x, size);
        NbrIndices(position, size, i);
        var n: int := size.ToU16();
        var dirs: seq<int> := [1, -1, n + 2, -n - 2];
        DirsAre(w, dirs);
        for k := 0 to 4
          invariant neighbors == NbrPointsUpTo(i, size, k)
        {
          var m := AddSignedToUnsigned(i, dirs[k], 0xFFFF).value;
          assert m == Nbr(i, w, k);
          var p := FromPositionIndex(m, size);
          if p.Some? {
            neighbors := neighbors + [p.value];
          }
        }
      }
    }

    /**
     * The liberties of a weakest `color` group: scans the cells in order and counts
     * each group not met before, keeping the liberties of the first group with the
     * fewest. None when `color` has no stone on the board.
     */
    method WeakestGroup(color: Color) returns (liberties: set<int>)
      requires Valid()
      ensures !HasStone(position, color) ==> liberties == {}
      ensures HasStone(position, color) ==>
        exists j :: && 0 <= j < |position| && position[j] == Occupied(color)
                    && liberties == Libs(position, Width(size), Comp(position, Width(size), Occupied(color), j))
                    && FirstFewest(color, j, |liberties|)
      ensures forall j :: 0 <= j < |position| && position[j] == Occupied(color) ==>
        |liberties| <= |Libs(position, Width(size), Comp(position, Width(size), Occupied(color), j))|
    {
      liberties := {};
      var smallestSize := 1000;
      var seen: set<int> := {};
      ghost var best := -1;
      for index := 0 to |position|
        invariant Weakest(color, index, seen, liberties, smallestSize, best)
      {
        if position[index] == Occupied(color) && index !in seen {
          var group, groupLibs := Count(index, color);
          assert groupLibs == Libs(position, Width(size), group);
          WeakestAdd(color, index, seen, liberties, smallestSize, best, group, groupLibs);
          seen := seen + group;
          if |groupLibs| < smallestSize {
            smallestSize := |groupLibs|;
            liberties := groupLibs;
            best := index;
          }
        } else {
          WeakestKeep(color, index, seen, liberties, smallestSize, best);
        }
      }
      WeakestDone(color, seen, liberties, smallestSize, best);
    }

    /**
     * The scan of `weakest_group` up to `index`: every stone before `index` is in `seen`,
     * every seen stone's group has at least `smallestSize` liberties, and once a group
     * has been counted (`best != -1`), `liberties` are those of the group of `best`.
     */
    ghost predicate Weakest(color: Color, index: int, seen: set<int>, liberties: set<int>, smallestSize: int, best: int)
      reads this
    {
      && SeenAbove(color, seen, smallestSize)
      && 0 <= index <= |position|
      && (forall j :: 0 <= j < index && position[j] == Occupied(color) ==> j in seen)
      && BestIs(color, seen, liberties, smallestSize, best)
    }

    /** Every cell of `seen` is a `color` stone whose group has at least `small` liberties. */
    ghost predicate SeenAbove(color: Color, seen: set<int>, small: int)
      reads this
    {
      forall j :: j in seen ==>
        && 0 <= j < |position| && position[j] == Occupied(color)
        && small <= |Libs(position, Width(size), Comp(position, Width(size), Occupied(color), j))|
    }

    /**
     * Before any group is counted nothing is seen; afterwards `liberties` are those of
     * the group of `best`, and every stone before `best` has a group with more.
     */
    ghost predicate BestIs(color: Color, seen: set<int>, liberties: set<int>, smallestSize: int, best: int)
      reads this
    {
      && (best == -1 ==> smallestSize == 1000 && liberties == {} && seen == {})
      && (best != -1 ==>
            && 0 <= best < |position| && position[best] == Occupied(color)
            && liberties == Libs(position, Width(size), Comp(position, Width(size), Occupied(color), best))
            && smallestSize == |liberties|
            && FirstFewest(color, best, smallestSize))
    }

    /** Every `color` stone before cell `j` belongs to a group with more than `n` liberties. */
    ghost predicate FirstFewest(color: Color, j: int, n: int)
      reads this
    {
      forall k :: 0 <= k < j && k < |position| && position[k] == Occupied(color) ==>
        n < |Libs(position, Width(size), Comp(position, Width(size), Occupied(color), k))|
    }

    /** A cell that is no `color` stone, or whose group was counted already, leaves the scan as it is. */
    lemma WeakestKeep(color: Color, index: int, seen: set<int>, liberties: set<int>, smallestSize: int, best: int)
      requires Weakest(color, index, seen, liberties, smallestSize, best)
      requires 0 <= index < |position| && (position[index] != Occupied(color) || index in seen)
      ensures Weakest(color, index + 1, seen, liberties, smallestSize, best)
    {
    }

    /** Counting the group of a new stone adds it to `seen` and keeps the fewest liberties seen so far. */
    lemma WeakestAdd(color: Color, index: int, seen: set<int>, liberties: set<int>, smallestSize: int, best: int,
                     group: set<int>, groupLibs: set<int>)
      requires Valid() && Weakest(color, index, seen, liberties, smallestSize, best)
      requires 0 <= index < |position| && position[index] == Occupied(color) && index !in seen
      requires group == Comp(position, Width(size), Occupied(color), index)
      requires groupLibs == Libs(position, Width(size), group)
      ensures |groupLibs| < smallestSize ==> Weakest(color, index + 1, seen + group, groupLibs, |groupLibs|, index)
      ensures |groupLibs| >= smallestSize ==> Weakest(color, index + 1, seen + group, liberties, smallestSize, best)
    {
      WeakestStep(group, index, color);
      var small := if |groupLibs| < smallestSize then |groupLibs| else smallestSize;
      WeakestSeen(color, seen, smallestSize, group, small);
      assert forall j :: 0 <= j < index + 1 && position[j] == Occupied(color) ==> j in seen + group;
    }

    /** Adding a counted group to `seen` keeps every seen group at or above the new smallest count. */
    lemma WeakestSeen(color: Color, seen: set<int>, smallestSize: int, group: set<int>, small: int)
      requires SeenAbove(color, seen, smallestSize)
      requires forall j :: j in group ==>
        && 0 <= j < |position| && position[j] == Occupied(color)
        && Comp(position, Width(size), Occupied(color), j) == group
      requires small <= smallestSize && small <= |Libs(position, Width(size), group)|
      ensures SeenAbove(color, seen + group, small)
    {
    }

    /**
     * At the end of the scan, `liberties` are those of the first group in cell order
     * with the fewest, and empty when there is no stone.
     */
    lemma WeakestDone(color: Color, seen: set<int>, liberties: set<int>, smallestSize: int, best: int)
      requires Valid() && Weakest(color, |position|, seen, liberties, smallestSize, best)
      ensures !HasStone(position, color) ==> liberties == {}
      ensures HasStone(position, color) ==>
        exists j :: && 0 <= j < |position| && position[j] == Occupied(color)
                    && liberties == Libs(position, Width(size), Comp(position, Width(size), Occupied(color), j))
                    && FirstFewest(color, j, |liberties|)
      ensures forall j :: 0 <= j < |position| && position[j] == Occupied(color) ==>
        |liberties| <= |Libs(position, Width(size), Comp(position, Width(size), Occupied(color), j))|
    {
      if best == -1 {
        assert !HasStone(position, color);
      }
    }

    /**
     * Counting the group of the stone at `index` marks its cells seen: they are `t`
     * stones with that same group, and `index` is one of them.
     */
    lemma WeakestStep(group: set<int>, index: int, color: Color)
      requires Valid() && 0 <= index < |position| && position[index] == Occupied(color)
      requires group == Comp(position, Width(size), Occupied(color), index)
      ensures index in group
      ensures |Libs(position, Width(size), group)| < 1000
      ensures forall j :: j in group ==>
        && 0 <= j < |position| && position[j] == Occupied(color)
        && Comp(position, Width(size), Occupied(color), j) == group
    {
      var w, t := Width(size), Occupied(color);
      CompSpec(position, w, t, index);
      LibsBelowSentinel(position, size, group);
      forall j | j in group
        ensures Comp(position, w, t, j) == group
      {
        SameComp(position, w, t, index, j);
      }
    }

    /**
     * Whether `x` looks playable to the playout as the engine writes it: on the board,
     * empty, not the ko point, with an empty cell at one of the offsets `+-1`,
     * `+-size`. The row offset should be `size + 2` (see `NotSuicide`).
     */
    method NotSuicideAsWritten(x: Intersection) returns (r: bool)
      requires Valid()
      ensures r <==> && ToPositionIndex(x, size).Some?
                     && ToPositionIndex(x, size).value < |position|
                     && position[ToPositionIndex(x, size).value] == Empty
                     && EmptyAmong(position, ToPositionIndex(x, size).value, AsWrittenDirs(size))
                     && ko != Some(x)
    {
      var idx := ToPositionIndex(x, size);
      if idx.None? {
        return false;
      }
      var i := idx.value;
      PositionIndexRoundTrip(x, size);
      NbrIndices(position, size, i);
      InteriorRange(position, Width(size), i);
      var numericSize: int := size.ToU16();
      var dirs := [1, -1, numericSize, -numericSize];
      assert dirs == AsWrittenDirs(size);
      var liberties := CountOpen(i, dirs);
      r := position[i] == Empty && liberties > 0 && Some(x) != ko;
    }

    /**
     * Whether `x` is worth playing in a playout: on the board, empty, not the ko
     * point, and with an empty neighbour, so that a stone there keeps a liberty.
     */
    method NotSuicide(x: Intersection) returns (r: bool)
      requires Valid()
      ensures r <==> && ToPositionIndex(x, size).Some?
                     && ToPositionIndex(x, size).value < |position|
                     && position[ToPositionIndex(x, size).value] == Empty
                     && EmptyAmong(position, ToPositionIndex(x, size).value, NbrDirs(size))
                     && ko != Some(x)
    {
      var idx := ToPositionIndex(x, size);
      if idx.None? {
        return false;
      }
      var i := idx.value;
      PositionIndexRoundTrip(x, size);
      NbrIndices(position, size, i);
      InteriorRange(position, Width(size), i);
      var numericSize: int := size.ToU16();
      var dirs := [1, -1, numericSize + 2, -numericSize - 2];
      assert dirs == NbrDirs(size);
      var liberties := CountOpen(i, dirs);
      r := position[i] == Empty && liberties > 0 && Some(x) != ko;
    }

    /** The liberty loop of `not_suicide`: counts the empty cells at the offsets `dirs` from the interior cell `i`. */
    method CountOpen(i: nat, dirs: seq<int>) returns (liberties: nat)
      requires Valid() && |dirs| == 4 && i <= 0xFFFF
      requires forall k :: 0 <= k < 4 ==> -0x7FFF <= dirs[k] <= 0x7FFF && 0 <= i + dirs[k] < |position|
      ensures liberties > 0 <==> EmptyAmong(position, i, dirs)
    {
      liberties := 0;
      for k := 0 to 4
        invariant liberties > 0 <==> exists j :: 0 <= j < k && position[i + dirs[j]] == Empty
      {
        var neighbor := AddSignedToUnsigned(i, dirs[k], UsizeMax);
        if neighbor.Some? && position[neighbor.value] == Empty {
          liberties := liberties + 1;
        }
      }
    }

    /**
     * Whether a playout may play at `x`: on the board, empty, and passing the engine's
     * own `NotSuicideAsWritten`, so the empty cell it asks for is looked up at the
     * offsets `+-1` and `+-size`.
     */
    method CanPlaceStoneAt(x: Intersection) returns (r: bool)
      requires Valid()
      ensures r <==> && ToPositionIndex(x, size).Some?
                     && ToPositionIndex(x, size).value < |position|
                     && position[ToPositionIndex(x, size).value] == Empty
                     && EmptyAmong(position, ToPositionIndex(x, size).value, AsWrittenDirs(size))
                     && ko != Some(x)
    {
      var idx := ToPositionIndex(x, size);
      if idx.None? {
        return false;
      }
      PositionIndexRoundTrip(x, size);
      if position[idx.value] != Empty {
        return false;
      }
      r := NotSuicideAsWritten(x);
    }
  }

  /** Adding a direction offset to an interior cell gives its neighbour. */
  lemma NbrIndices(P: seq<State>, size: BoardSize, i: int)
    requires WellBordered(P, Width(size)) && 0 <= i < |P| && P[i] != Offboard
    ensures i <= 0xFFFF
    ensures forall k :: 0 <= k < 4 ==>
      (&& -0x7FFF <= Dir(Width(size), k) <= 0x7FFF
       && AddSignedToUnsigned(i, Dir(Width(size), k), UsizeMax) == Some(Nbr(i, Width(size), k))
       && AddSignedToUnsigned(i, Dir(Width(size), k), 0xFFFF) == Some(Nbr(i, Width(size), k))
       && 0 <= Nbr(i, Width(size), k) < |P|)
  {
    var w := Width(size);
    InteriorBounds(P, w, i);
    WidthBounds(size);
    MulLe(w, 21, w);
    MulLe(w, 21, 21);
  }

  /**
   * The loop of `Board.Diamond`: visits the four neighbours of the interior cell `i`
   * through `AddSignedToUnsigned`, stopping at an empty one or at a colour clash.
   */
  method ScanDiamond(P: seq<State>, w: nat, i: nat) returns (r: Option<Color>)
    requires 3 <= w <= 0x7FFF && w <= i < |P| - w && |P| <= UsizeMax
    ensures r == DiamondOf(P, w, i)
  {
    var diamondColor: Option<Color> := None;
    var dirs := [1, -1, w, -(w as int)];
    DirsAre(w, dirs);
    for k := 0 to 4
      invariant DiamondScan(P, w, i, k, diamondColor)
    {
      ghost var before := diamondColor;
      var nb := AddSignedToUnsigned(i, dirs[k], UsizeMax);
      if nb.Some? {
        var st := P[nb.value];
        if st == Empty {
          DiamondBroken(P, w, i, k);
          return None;
        } else if st.Occupied? {
          if diamondColor.Some? {
            if diamondColor.value != st.color {
              DiamondClash(P, w, i, k, diamondColor.value);
              return None;
            }
          } else {
            diamondColor := Some(st.color);
          }
        }
        DiamondScanStep(P, w, i, k, before, diamondColor);
      } else {
        assert false;
      }
    }
    DiamondScanned(P, w, i, diamondColor);
    return diamondColor;
  }
}
