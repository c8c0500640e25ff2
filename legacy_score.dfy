/**
 * Reference definitions for the deprecated engine's area count: the neighbours of an
 * intersection in Go notation, the cells one Tromp-Taylor walk collects from a
 * starting point, and which colour those cells reach.
 */
module LegacyScore {
  import opened Wrappers
  import opened Stones
  import opened Grid
  import opened Regions
  import opened LegacyTypes
  import opened CaptureRules

  /** A three-valued option: nothing known yet, a known value, or known to have none. */
  datatype Tristate<T> = Unknown | Yes(value: T) | No

  /**
   * What a walk knows after meeting a `c` stone: it reaches `c` alone when it had met
   * no stone or only `c` stones, and it reaches no single colour otherwise.
   */
  function Join(r: Tristate<Color>, c: Color): (r': Tristate<Color>)
    ensures r' != Unknown
    ensures r'.Yes? <==> r == Unknown || r == Yes(c)
    ensures r'.Yes? ==> r'.value == c
  {
    match r
    case Unknown => Yes(c)
    case Yes(d) => if c == d then Yes(c) else No
    case No => No
  }

  /** The board holds a `c` stone somewhere. */
  predicate HasStone(P: seq<State>, c: Color)
  {
    exists j :: 0 <= j < |P| && P[j] == Occupied(c)
  }

  /** The cells of `R` hold a `c` stone. */
  predicate Meets(P: seq<State>, R: set<int>, c: Color)
  {
    exists j :: j in R && 0 <= j < |P| && P[j] == Occupied(c)
  }

  /**
   * The colour the cells `R` reach: `Unknown` when they hold no stone, `Yes(c)` when
   * every stone among them is `c`, and `No` when they hold stones of both colours.
   */
  predicate ReachIs(P: seq<State>, R: set<int>, r: Tristate<Color>)
  {
    match r
    case Unknown => !Meets(P, R, Black) && !Meets(P, R, White)
    case Yes(c) => Meets(P, R, c) && !Meets(P, R, c.Opposite())
    case No => Meets(P, R, Black) && Meets(P, R, White)
  }

  /** The state of the intersection `y`: its cell when it is on the board, `Offboard` otherwise. */
  function PointState(P: seq<State>, size: BoardSize, y: Intersection): State
  {
    match ToPositionIndex(y, size)
    case Some(i) => if i < |P| then P[i] else Offboard
    case None => Offboard
  }

  /** The on-board intersections among the first `k` neighbours of cell `i`, in the engine's order. */
  function NbrPointsUpTo(i: nat, size: BoardSize, k: nat): seq<Intersection>
    requires k <= 4
  {
    if k == 0 then []
    else
      var m := Nbr(i, Width(size), k - 1);
      if m >= 0 && FromPositionIndex(m, size).Some? then NbrPointsUpTo(i, size, k - 1) + [FromPositionIndex(m, size).value]
      else NbrPointsUpTo(i, size, k - 1)
  }

  /** The on-board neighbours of `x`, right, left, below and above; none when `x` is off the board. */
  function NeighbourPoints(x: Intersection, size: BoardSize): seq<Intersection>
  {
    match ToPositionIndex(x, size)
    case Some(i) => NbrPointsUpTo(i, size, 4)
    case None => []
  }

  /**
   * The cells one walk collects from cell `r`: the region of empty cells around `r`
   * together with the stones bordering it, or the cell `r` alone when it is not empty.
   */
  ghost function Area(P: seq<State>, w: nat, r: int): set<int>
  {
    if 0 <= r < |P| && P[r] == Empty then Comp(P, w, Empty, r) + Border(P, w, Comp(P, w, Empty, r)) else {r}
  }

  /** An intersection maps to cell `m` exactly when `m` maps back to it. */
  lemma PointOfCell(m: int, size: BoardSize, z: Intersection)
    ensures (m >= 0 && FromPositionIndex(m, size) == Some(z)) <==> ToPositionIndex(z, size) == Some(m)
  {
    if ToPositionIndex(z, size) == Some(m) {
      PositionIndexRoundTrip(z, size);
    }
    if m >= 0 && FromPositionIndex(m, size) == Some(z) {
      IndexPositionRoundTrip(m, size);
    }
  }

  /** The neighbour list up to `k` adds to the one up to `k - 1` exactly the intersection at the `k`-th neighbour cell. */
  lemma NbrPointsStep(i: nat, size: BoardSize, k: nat, z: Intersection)
    requires 0 < k <= 4
    ensures z in NbrPointsUpTo(i, size, k) <==>
      z in NbrPointsUpTo(i, size, k - 1) || ToPositionIndex(z, size) == Some(Nbr(i, Width(size), k - 1))
  {
    PointOfCell(Nbr(i, Width(size), k - 1), size, z);
  }

  /** The neighbour list up to `k` holds exactly the intersections at the first `k` neighbour cells. */
  lemma {:induction false} NbrPointsUpToSpec(i: nat, size: BoardSize, k: nat, z: Intersection)
    requires k <= 4
    ensures z in NbrPointsUpTo(i, size, k) <==>
      exists j :: 0 <= j < k && ToPositionIndex(z, size) == Some(Nbr(i, Width(size), j))
  {
    var w := Width(size);
    if k > 0 {
      NbrPointsUpToSpec(i, size, k - 1, z);
      NbrPointsStep(i, size, k, z);
      if z in NbrPointsUpTo(i, size, k) {
        if z in NbrPointsUpTo(i, size, k - 1) {
          var j :| 0 <= j < k - 1 && ToPositionIndex(z, size) == Some(Nbr(i, w, j));
        } else {
          assert ToPositionIndex(z, size) == Some(Nbr(i, w, k - 1));
        }
      }
      if exists j :: 0 <= j < k && ToPositionIndex(z, size) == Some(Nbr(i, w, j)) {
        var j :| 0 <= j < k && ToPositionIndex(z, size) == Some(Nbr(i, w, j));
        if j < k - 1 {
          assert z in NbrPointsUpTo(i, size, k - 1);
        }
      }
    }
  }

  /**
   * The neighbours of an on-board intersection `x` are exactly the intersections at
   * the four cells next to its cell.
   */
  lemma NeighbourSpec(x: Intersection, size: BoardSize, z: Intersection)
    requires ToPositionIndex(x, size).Some?
    ensures z in NeighbourPoints(x, size) <==>
      exists k :: 0 <= k < 4 && ToPositionIndex(z, size) == Some(Nbr(ToPositionIndex(x, size).value, Width(size), k))
  {
    NbrPointsUpToSpec(ToPositionIndex(x, size).value, size, 4, z);
  }

  /** Stepping to the `k`-th neighbour and back in the opposite direction returns to the cell, which is not its own neighbour. */
  lemma NbrBack(i: int, w: nat, k: int)
    requires w > 0 && 0 <= k < 4
    ensures Nbr(Nbr(i, w, k), w, if k % 2 == 0 then k + 1 else k - 1) == i
    ensures Nbr(i, w, k) != i
  {
  }

  /** Being neighbours is symmetric, and no intersection is its own neighbour. */
  lemma NeighbourSymmetric(x: Intersection, z: Intersection, size: BoardSize)
    requires ToPositionIndex(x, size).Some? && ToPositionIndex(z, size).Some?
    ensures z in NeighbourPoints(x, size) <==> x in NeighbourPoints(z, size)
    ensures x !in NeighbourPoints(x, size)
  {
    var w := Width(size);
    var i, j := ToPositionIndex(x, size).value, ToPositionIndex(z, size).value;
    NeighbourSpec(x, size, z);
    NeighbourSpec(z, size, x);
    NeighbourSpec(x, size, x);
    if z in NeighbourPoints(x, size) {
      var k :| 0 <= k < 4 && j == Nbr(i, w, k);
      NbrBack(i, w, k);
    }
    if x in NeighbourPoints(z, size) {
      var k :| 0 <= k < 4 && i == Nbr(j, w, k);
      NbrBack(j, w, k);
    }
    forall k | 0 <= k < 4
      ensures i != Nbr(i, w, k)
    {
      NbrBack(i, w, k);
    }
  }

  /** Adding a cell to `R` joins its stone, if any, into what `R` reaches. */
  lemma ReachAdd(P: seq<State>, R: set<int>, r: Tristate<Color>, j: int)
    requires ReachIs(P, R, r) && 0 <= j < |P|
    ensures ReachIs(P, R + {j}, if P[j].Occupied? then Join(r, P[j].color) else r)
  {
    if P[j].Occupied? {
      assert Meets(P, R + {j}, P[j].color);
    }
    if P[j] == Empty {
      assert !Meets(P, R + {j}, Black) ==> !Meets(P, R, Black);
    }
  }

  /**
   * The area of an on-board cell holds the cell, stays on the board, and is closed:
   * an empty cell of it has every on-board neighbour in it.
   */
  lemma AreaShape(P: seq<State>, w: nat, r: int)
    requires WellBordered(P, w) && 0 <= r < |P| && P[r] != Offboard
    ensures r in Area(P, w, r)
    ensures forall e :: e in Area(P, w, r) ==> 0 <= e < |P| && P[e] != Offboard
    ensures forall e, k :: e in Area(P, w, r) && P[e] == Empty && 0 <= k < 4 ==>
      0 <= Nbr(e, w, k) < |P| && (P[Nbr(e, w, k)] != Offboard ==> Nbr(e, w, k) in Area(P, w, r))
  {
    if P[r] == Empty {
      var C := Comp(P, w, Empty, r);
      CompSpec(P, w, Empty, r);
      forall e, k | e in Area(P, w, r) && P[e] == Empty && 0 <= k < 4
        ensures 0 <= Nbr(e, w, k) < |P| && (P[Nbr(e, w, k)] != Offboard ==> Nbr(e, w, k) in Area(P, w, r))
      {
        assert e in C;
        NbrInRange(P, w, e);
        NbrTouches(C, e, w, k);
        var m := Nbr(e, w, k);
        if P[m] == Empty {
          assert m in Reached(P, w, Empty, C);
        } else if P[m].Occupied? {
          assert m in Border(P, w, C);
        }
      }
    }
  }

  /**
   * When a set of intersections has every neighbour of each of its empty points,
   * its cells have every on-board neighbour of each of their empty cells.
   */
  lemma CellsClosed(P: seq<State>, size: BoardSize, seen: set<Intersection>, cells: set<int>)
    requires WellBordered(P, Width(size))
    requires forall e :: e in cells ==> 0 <= e < |P| && FromPositionIndex(e, size).Some?
    requires forall y :: y in seen <==> ToPositionIndex(y, size).Some? && ToPositionIndex(y, size).value in cells
    requires forall y :: y in seen && PointState(P, size, y) == Empty ==> forall z :: z in NeighbourPoints(y, size) ==> z in seen
    ensures forall e, k :: e in cells && P[e] == Empty && 0 <= k < 4 && 0 <= Nbr(e, Width(size), k) < |P| && P[Nbr(e, Width(size), k)] != Offboard ==>
      Nbr(e, Width(size), k) in cells
  {
    var w := Width(size);
    forall e, k | e in cells && P[e] == Empty && 0 <= k < 4 && 0 <= Nbr(e, w, k) < |P| && P[Nbr(e, w, k)] != Offboard
      ensures Nbr(e, w, k) in cells
    {
      var y := FromPositionIndex(e, size).value;
      IndexPositionRoundTrip(e, size);
      assert y in seen && PointState(P, size, y) == Empty;
      var m := Nbr(e, w, k);
      assert !OnRing(m, w);
      var z := FromPositionIndex(m, size).value;
      IndexPositionRoundTrip(m, size);
      NeighbourSpec(y, size, z);
      assert z in NeighbourPoints(y, size);
    }
  }

  /** A cell touching `S` is a neighbour of some cell of `S`. */
  lemma TouchingIsNbr(S: set<int>, m: int, w: nat) returns (e: int, k: int)
    requires Touches(S, m, w)
    ensures e in S && 0 <= k < 4 && m == Nbr(e, w, k)
  {
    if m + 1 in S {
      e, k := m + 1, 1;
    } else if m - 1 in S {
      e, k := m - 1, 0;
    } else if m + w in S {
      e, k := m + w, 3;
    } else {
      e, k := m - w, 2;
    }
  }

  /**
   * Cells that hold the cell `r` and every on-board neighbour of each of their
   * empty cells cover the whole area of `r`.
   */
  lemma ClosedCoversArea(P: seq<State>, w: nat, cells: set<int>, r: int)
    requires WellBordered(P, w) && 0 <= r < |P| && r in cells
    requires forall e :: e in cells ==> 0 <= e < |P|
    requires forall e, k :: e in cells && P[e] == Empty && 0 <= k < 4 && 0 <= Nbr(e, w, k) < |P| && P[Nbr(e, w, k)] != Offboard ==>
      Nbr(e, w, k) in cells
    ensures Area(P, w, r) <= cells
  {
    if P[r] == Empty {
      var E := set e | e in cells && 0 <= e < |P| && P[e] == Empty;
      assert Closed(P, w, Empty, E) by {
        forall m | m in Reached(P, w, Empty, E)
          ensures m in E
        {
          var e, k := TouchingIsNbr(E, m, w);
        }
      }
      CompLeast(P, w, Empty, r, E);
      var C := Comp(P, w, Empty, r);
      forall m | m in Border(P, w, C)
        ensures m in cells
      {
        var e, k := TouchingIsNbr(C, m, w);
      }
    }
  }

  /**
   * The state of a walk of the area count from `root` (whose cell is `r`, with area
   * `A`): `seen` holds exactly the points of `cells`, which lie in `A`, as do the
   * points still to visit in `work`; `reaches` is what the stones of `cells` reach;
   * the root is visited first; and every neighbour of a visited empty point is
   * visited or waiting.
   */
  ghost predicate Walking(P: seq<State>, size: BoardSize, root: Intersection, A: set<int>,
                          seen: set<Intersection>, cells: set<int>, work: seq<Intersection>, reaches: Tristate<Color>)
  {
    && SeenIs(size, seen, cells)
    && cells <= A
    && Waiting(size, work, A)
    && ReachIs(P, cells, reaches)
    && (seen == {} ==> work == [root])
    && (seen != {} ==> root in seen)
    && Explores(P, size, seen, work)
  }

  /** `seen` holds exactly the on-board points whose cells are in `cells`. */
  ghost predicate SeenIs(size: BoardSize, seen: set<Intersection>, cells: set<int>)
  {
    forall y :: y in seen <==> ToPositionIndex(y, size).Some? && ToPositionIndex(y, size).value in cells
  }

  /** The points of `work` are on the board, with cells in `A`. */
  ghost predicate Waiting(size: BoardSize, work: seq<Intersection>, A: set<int>)
  {
    forall y :: y in work ==> ToPositionIndex(y, size).Some? && ToPositionIndex(y, size).value in A
  }

  /** Every neighbour of an empty point of `seen` is in `seen` or in `work`. */
  ghost predicate Explores(P: seq<State>, size: BoardSize, seen: set<Intersection>, work: seq<Intersection>)
  {
    forall y :: y in seen && PointState(P, size, y) == Empty ==>
      forall z :: z in NeighbourPoints(y, size) ==> z in seen || z in work
  }

  /** A walk starts with the root waiting and nothing visited. */
  lemma WalkStart(P: seq<State>, size: BoardSize, root: Intersection, A: set<int>)
    requires ToPositionIndex(root, size).Some? && ToPositionIndex(root, size).value in A
    ensures Walking(P, size, root, A, {}, {}, [root], Unknown)
  {
  }

  /** Popping a point already visited keeps the walk's state. */
  lemma WalkSkip(P: seq<State>, size: BoardSize, root: Intersection, A: set<int>,
                 seen: set<Intersection>, cells: set<int>, x: Intersection, work: seq<Intersection>, reaches: Tristate<Color>)
    requires Walking(P, size, root, A, seen, cells, [x] + work, reaches) && x in seen
    ensures Walking(P, size, root, A, seen, cells, work, reaches)
  {
    assert forall y :: y in [x] + work ==> y == x || y in work;
  }

  /**
   * Visiting a new point `x` (cell `i`): it is marked seen, its stone joins what the
   * walk reaches, and when it is empty its neighbours wait to be visited.
   */
  lemma WalkVisit(P: seq<State>, size: BoardSize, root: Intersection, r: int, A: set<int>,
                  seen: set<Intersection>, cells: set<int>, x: Intersection, work: seq<Intersection>, reaches: Tristate<Color>,
                  i: int, more: seq<Intersection>, reaches': Tristate<Color>)
    requires WellBordered(P, Width(size)) && 0 <= r < |P| && P[r] != Offboard && A == Area(P, Width(size), r)
    requires Walking(P, size, root, A, seen, cells, [x] + work, reaches) && x !in seen
    requires ToPositionIndex(x, size) == Some(i) && i < |P|
    requires more == if P[i] == Empty then NeighbourPoints(x, size) else []
    requires reaches' == if P[i].Occupied? then Join(reaches, P[i].color) else reaches
    ensures i in A && i !in cells
    ensures Walking(P, size, root, A, seen + {x}, cells + {i}, work + more, reaches')
  {
    ReachAdd(P, cells, reaches, i);
    VisitSeen(size, seen, cells, x, i);
    VisitWaiting(P, size, r, A, x, work, i, more);
    VisitExplores(P, size, seen, x, work, i, more);
    if seen == {} {
      assert ([x] + work)[0] == x;
    }
    assert root in seen + {x};
    assert cells + {i} <= A;
  }

  /** Marking the point `x` of cell `i` seen keeps `seen` the points of its cells. */
  lemma VisitSeen(size: BoardSize, seen: set<Intersection>, cells: set<int>, x: Intersection, i: int)
    requires SeenIs(size, seen, cells) && x !in seen && ToPositionIndex(x, size) == Some(i)
    ensures i !in cells && SeenIs(size, seen + {x}, cells + {i})
  {
    forall y | ToPositionIndex(y, size) == Some(i)
      ensures y == x
    {
      PositionIndexInjective(x, y, size);
    }
  }

  /** The neighbours of an empty point of the area wait inside the area. */
  lemma VisitWaiting(P: seq<State>, size: BoardSize, r: int, A: set<int>,
                     x: Intersection, work: seq<Intersection>, i: int, more: seq<Intersection>)
    requires WellBordered(P, Width(size)) && 0 <= r < |P| && P[r] != Offboard && A == Area(P, Width(size), r)
    requires Waiting(size, [x] + work, A)
    requires ToPositionIndex(x, size) == Some(i) && i < |P|
    requires more == if P[i] == Empty then NeighbourPoints(x, size) else []
    ensures i in A && Waiting(size, work + more, A)
  {
    var w := Width(size);
    assert x in [x] + work;
    assert forall y :: y in work ==> y in [x] + work;
    if P[i] == Empty {
      AreaShape(P, w, r);
      forall z | z in more
        ensures ToPositionIndex(z, size).Some? && ToPositionIndex(z, size).value in A
      {
        NeighbourSpec(x, size, z);
        var k :| 0 <= k < 4 && ToPositionIndex(z, size) == Some(Nbr(i, w, k));
        PositionIndexRoundTrip(z, size);
      }
    }
  }

  /** Visiting `x` and queueing its neighbours when it is empty keeps every visited empty point explored. */
  lemma VisitExplores(P: seq<State>, size: BoardSize, seen: set<Intersection>, x: Intersection, work: seq<Intersection>,
                      i: int, more: seq<Intersection>)
    requires Explores(P, size, seen, [x] + work)
    requires ToPositionIndex(x, size) == Some(i) && i < |P|
    requires more == if P[i] == Empty then NeighbourPoints(x, size) else []
    ensures Explores(P, size, seen + {x}, work + more)
  {
    assert forall z :: z in [x] + work ==> z == x || z in work;
  }

  /**
   * A walk with nothing left to visit has seen exactly the points of the area, and
   * reaches what the area reaches.
   */
  lemma WalkDone(P: seq<State>, size: BoardSize, root: Intersection, r: int,
                 seen: set<Intersection>, cells: set<int>, reaches: Tristate<Color>)
    requires WellBordered(P, Width(size)) && ToPositionIndex(root, size) == Some(r)
    requires Walking(P, size, root, Area(P, Width(size), r), seen, cells, [], reaches)
    ensures root in seen
    ensures SeenIs(size, seen, Area(P, Width(size), r))
    ensures ReachIs(P, Area(P, Width(size), r), reaches)
  {
    var w := Width(size);
    PositionIndexRoundTrip(root, size);
    AreaShape(P, w, r);
    forall e | e in cells
      ensures 0 <= e < |P| && FromPositionIndex(e, size).Some?
    {
      assert !OnRing(e, w);
    }
    CellsClosed(P, size, seen, cells);
    ClosedCoversArea(P, w, cells, r);
  }

  /** What the cells `R` reach, as a value: the one `r` with `ReachIs(P, R, r)`. */
  ghost function ReachOf(P: seq<State>, R: set<int>): Tristate<Color>
  {
    if Meets(P, R, Black) && Meets(P, R, White) then No
    else if Meets(P, R, Black) then Yes(Black)
    else if Meets(P, R, White) then Yes(White)
    else Unknown
  }

  /** `ReachIs` pins its value down: it holds of `ReachOf` and of nothing else. */
  lemma ReachIsOf(P: seq<State>, R: set<int>, r: Tristate<Color>)
    ensures ReachIs(P, R, r) <==> r == ReachOf(P, R)
  {
  }

  /** The points of the area the walk from the on-board point `x` collects. */
  ghost function AreaPoints(P: seq<State>, size: BoardSize, x: Intersection): set<Intersection>
    requires ToPositionIndex(x, size).Some?
  {
    set i | i in Area(P, Width(size), ToPositionIndex(x, size).value) && 0 <= i && FromPositionIndex(i, size).Some?
      :: FromPositionIndex(i, size).value
  }

  /** A set of points that `SeenIs` ties to the cells of an area is the set of that area's points. */
  lemma SeenIsAreaPoints(P: seq<State>, size: BoardSize, x: Intersection, seen: set<Intersection>)
    requires ToPositionIndex(x, size).Some?
    requires SeenIs(size, seen, Area(P, Width(size), ToPositionIndex(x, size).value))
    ensures seen == AreaPoints(P, size, x)
  {
    var A := Area(P, Width(size), ToPositionIndex(x, size).value);
    forall y | y in seen
      ensures y in AreaPoints(P, size, x)
    {
      PositionIndexRoundTrip(y, size);
    }
    forall i | i in A && 0 <= i && FromPositionIndex(i, size).Some?
      ensures FromPositionIndex(i, size).value in seen
    {
      IndexPositionRoundTrip(i, size);
    }
  }

  /** The running totals of the area count: the points collected so far and the points credited to each colour. */
  datatype Totals = Totals(seen: set<Intersection>, black: nat, white: nat)

  /** The point at column `col` of row `row + 1`, where the area count's scan looks after `row` rows and `col` columns. */
  function ScanPoint(size: BoardSize, row: nat, col: nat): (x: Intersection)
    requires row < size.ToU16() && col < size.ToU16()
    ensures x.row == row + 1 && x.column.ToU16() == col
    ensures ToPositionIndex(x, size).Some?
  {
    Intersection(ColumnFromU16(col).value, row + 1)
  }

  /**
   * One step of the scan at the on-board point `x`: a point no earlier walk collected
   * has its area collected, and the area's size is credited to the colour it reaches
   * alone; an area reaching both colours or none (dame) is credited to nobody.
   */
  ghost function ScanVisit(P: seq<State>, size: BoardSize, t: Totals, x: Intersection): Totals
    requires ToPositionIndex(x, size).Some?
  {
    if x in t.seen then t
    else
      var A := AreaPoints(P, size, x);
      var reach := ReachOf(P, Area(P, Width(size), ToPositionIndex(x, size).value));
      Totals(t.seen + A,
             t.black + (if reach == Yes(Black) then |A| else 0),
             t.white + (if reach == Yes(White) then |A| else 0))
  }

  /** A stage of the scan: `row` whole rows and then `col` points of the next row, or all `n` rows. */
  predicate ScanStage(size: BoardSize, row: nat, col: nat)
  {
    (row < size.ToU16() && col <= size.ToU16()) || (row == size.ToU16() && col == 0)
  }

  /**
   * The totals of the area count after its scan has visited the first `row` rows
   * (from row 1, column by column from A) and then the first `col` points of the next row.
   */
  ghost function ScanTotals(P: seq<State>, size: BoardSize, row: nat, col: nat): Totals
    requires ScanStage(size, row, col)
    decreases row, col
  {
    if col == 0 then
      if row == 0 then Totals({}, 0, 0) else ScanTotals(P, size, row - 1, size.ToU16())
    else ScanVisit(P, size, ScanTotals(P, size, row, col - 1), ScanPoint(size, row, col - 1))
  }

  /**
   * The walks do not split the board: an area can hold stones that an earlier area
   * collected, and then they are credited again, so a step can credit more points
   * than it newly collects. A wall of stones between two regions of one colour is
   * counted once for each.
   */
  lemma ScanRecounts(P: seq<State>, size: BoardSize, row: nat, col: nat)
    requires row < size.ToU16() && col < size.ToU16()
    requires var t, x := ScanTotals(P, size, row, col), ScanPoint(size, row, col);
      && x !in t.seen && AreaPoints(P, size, x) * t.seen != {}
      && ReachOf(P, Area(P, Width(size), ToPositionIndex(x, size).value)) == Yes(Black)
    ensures var t, t' := ScanTotals(P, size, row, col), ScanTotals(P, size, row, col + 1);
      t'.black - t.black > |t'.seen - t.seen|
  {
    var t, x := ScanTotals(P, size, row, col), ScanPoint(size, row, col);
    var A := AreaPoints(P, size, x);
    assert ScanTotals(P, size, row, col + 1) == ScanVisit(P, size, t, x);
    OverlapShrinks(A, t.seen);
  }

  /** Taking away a set that meets `A` leaves fewer than `|A|` elements. */
  lemma OverlapShrinks<T>(A: set<T>, S: set<T>)
    requires A * S != {}
    ensures |A - S| < |A|
  {
    assert A == (A - S) + (A * S);
    assert (A - S) * (A * S) == {};
  }
}
