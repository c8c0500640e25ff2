/**
 * Reference definition of placing a stone under the deprecated engine's rules:
 * which opposing groups are captured, the "diamond" test, the ko point the move
 * creates and whether the move is suicide. Captures are evaluated on the board
 * with the new stone placed, looking at the four neighbours of the stone in the
 * order `+1`, `-1`, `+w`, `-w`.
 */
module CaptureRules {
  import opened Wrappers
  import opened Stones
  import opened Grid
  import opened Regions

  /** The `k`-th neighbour offset, in the engine's order: right, left, next row, previous row. */
  function Dir(w: nat, k: int): int
  {
    if k == 0 then 1 else if k == 1 then -1 else if k == 2 then w else -(w as int)
  }

  /** The engine's table of the four offsets lists them in the order of `Dir`. */
  lemma DirsAre(w: nat, dirs: seq<int>)
    requires dirs == [1, -1, w, -(w as int)]
    ensures |dirs| == 4 && forall k :: 0 <= k < 4 ==> dirs[k] == Dir(w, k)
  {
    forall k | 0 <= k < 4
      ensures dirs[k] == Dir(w, k)
    {
      if k == 0 {} else if k == 1 {} else if k == 2 {} else {}
    }
  }

  /** The `k`-th neighbour of cell `i`. */
  function Nbr(i: int, w: nat, k: int): int
  {
    i + Dir(w, k)
  }

  /** Every neighbour of `i` is a `c` stone or off the board, and at least one is a `c` stone. */
  predicate Surrounded(P: seq<State>, w: nat, i: int, c: Color)
  {
    (forall k :: 0 <= k < 4 ==> 0 <= Nbr(i, w, k) < |P| && P[Nbr(i, w, k)] in {Occupied(c), Offboard})
    && exists k :: 0 <= k < 4 && 0 <= Nbr(i, w, k) < |P| && P[Nbr(i, w, k)] == Occupied(c)
  }

  /** The colour of the diamond of stones around `i`, if there is one. */
  function DiamondOf(P: seq<State>, w: nat, i: int): (r: Option<Color>)
    ensures r == Some(Black) <==> Surrounded(P, w, i, Black)
    ensures r == Some(White) <==> Surrounded(P, w, i, White)
  {
    if Surrounded(P, w, i, Black) then Some(Black)
    else if Surrounded(P, w, i, White) then Some(White)
    else None
  }

  /** The group of `o` stones at `n` if it has no liberty, else nothing. */
  ghost function Dead(B: seq<State>, w: nat, o: Color, n: int): set<int>
  {
    var G := Comp(B, w, Occupied(o), n);
    if Libs(B, w, G) == {} then G else {}
  }

  /** The stones captured by looking at the first `k` neighbours of the stone at `i`. */
  ghost function CapturedUpTo(B: seq<State>, w: nat, o: Color, i: int, k: int): set<int>
    requires 0 <= k <= 4
    decreases k
  {
    if k == 0 then {} else CapturedUpTo(B, w, o, i, k - 1) + Dead(B, w, o, Nbr(i, w, k - 1))
  }

  /** The stones captured by the stone at `i`: the liberty-less `o` groups next to it. */
  ghost function Captured(B: seq<State>, w: nat, o: Color, i: int): set<int>
  {
    CapturedUpTo(B, w, o, i, 4)
  }

  /**
   * The ko point chosen after looking at the first `k` neighbours: the first neighbour
   * whose capture is a single stone, provided it is the first capture and the stone
   * at `i` was surrounded by a diamond of `o` stones.
   */
  ghost function KoUpTo(B: seq<State>, w: nat, o: Color, i: int, k: int): Option<int>
    requires 0 <= k <= 4
    decreases k
  {
    if k == 0 then None
    else if CapturedUpTo(B, w, o, i, k - 1) == {} && |Dead(B, w, o, Nbr(i, w, k - 1))| == 1
            && DiamondOf(B, w, i) == Some(o)
    then Some(Nbr(i, w, k - 1))
    else KoUpTo(B, w, o, i, k - 1)
  }

  /** `B` is a well-bordered board with a `c` stone at `i`. */
  ghost predicate StoneAt(B: seq<State>, w: nat, i: int, c: Color)
  {
    WellBordered(B, w) && 0 <= i < |B| && B[i] == Occupied(c)
  }

  /** The board after a stone of colour `c` is put on cell `i`, before any capture. */
  function Placed(P: seq<State>, i: int, c: Color): (B: seq<State>)
    requires 0 <= i < |P|
    ensures |B| == |P| && B[i] == Occupied(c)
  {
    P[i := Occupied(c)]
  }

  /** The board after a stone of colour `c` is played on the empty cell `i`. */
  ghost function AfterPlay(P: seq<State>, w: nat, i: int, c: Color): seq<State>
    requires 0 <= i < |P|
  {
    var B := Placed(P, i, c);
    ClearCells(B, Captured(B, w, c.Opposite(), i))
  }

  /** The neighbours of an interior cell are on the board. */
  lemma NbrInRange(B: seq<State>, w: nat, i: int)
    requires WellBordered(B, w) && 0 <= i < |B| && B[i] != Offboard
    ensures forall k :: 0 <= k < 4 ==> 0 <= Nbr(i, w, k) < |B|
  {
    InteriorBounds(B, w, i);
  }

  /** A dead group is a closed set of `o` stones, each of which has that group as its own. */
  lemma DeadShape(B: seq<State>, w: nat, o: Color, n: int)
    ensures var D := Dead(B, w, o, n);
      D <= Indices(B) && Closed(B, w, Occupied(o), D)
      && forall x :: x in D ==> B[x] == Occupied(o) && Comp(B, w, Occupied(o), x) == D
    ensures Libs(B, w, Dead(B, w, o, n)) == {}
  {
    var D := Dead(B, w, o, n);
    CompSpec(B, w, Occupied(o), n);
    forall x | x in D
      ensures Comp(B, w, Occupied(o), x) == D
    {
      SameComp(B, w, Occupied(o), n, x);
    }
  }

  /**
   * `R` is a closed set of `o` stones whose groups have no liberty: a union of whole
   * liberty-less groups.
   */
  ghost predicate DeadGroups(B: seq<State>, w: nat, o: Color, R: set<int>)
  {
    R <= Indices(B) && Closed(B, w, Occupied(o), R)
    && forall x :: x in R ==> B[x] == Occupied(o) && Libs(B, w, Comp(B, w, Occupied(o), x)) == {}
  }

  /** Adding a dead group to a union of dead groups gives a union of dead groups. */
  lemma DeadGroupsAdd(B: seq<State>, w: nat, o: Color, R: set<int>, n: int)
    requires DeadGroups(B, w, o, R)
    ensures DeadGroups(B, w, o, R + Dead(B, w, o, n))
  {
    var D := Dead(B, w, o, n);
    DeadShape(B, w, o, n);
    ClosedUnion(B, w, Occupied(o), R, D);
    forall x | x in D
      ensures Libs(B, w, Comp(B, w, Occupied(o), x)) == {}
    {
      assert Comp(B, w, Occupied(o), x) == D;
    }
  }

  /** The stones captured by the first `k` neighbours form a union of whole liberty-less groups. */
  lemma {:induction false} CapturedShape(B: seq<State>, w: nat, o: Color, i: int, k: int)
    requires 0 <= k <= 4
    ensures DeadGroups(B, w, o, CapturedUpTo(B, w, o, i, k))
  {
    if k > 0 {
      CapturedShape(B, w, o, i, k - 1);
      DeadGroupsAdd(B, w, o, CapturedUpTo(B, w, o, i, k - 1), Nbr(i, w, k - 1));
    } else {
      assert Reached(B, w, Occupied(o), {}) == {};
    }
  }

  /** The stone played at `i` is never among the stones it captures. */
  lemma PlacedStoneStays(B: seq<State>, w: nat, c: Color, i: int)
    requires StoneAt(B, w, i, c)
    ensures i !in Captured(B, w, c.Opposite(), i)
    ensures ClearCells(B, Captured(B, w, c.Opposite(), i))[i] == Occupied(c)
  {
    CapturedShape(B, w, c.Opposite(), i, 4);
  }

  /** Once something is captured, some neighbour of `i` is among the captured stones. */
  lemma {:induction false} CapturedHasNeighbour(B: seq<State>, w: nat, o: Color, i: int, k: int)
    requires 0 <= k <= 4
    ensures CapturedUpTo(B, w, o, i, k) != {} ==> exists j :: 0 <= j < k && Nbr(i, w, j) in CapturedUpTo(B, w, o, i, k)
  {
    if k > 0 {
      CapturedHasNeighbour(B, w, o, i, k - 1);
      var n := Nbr(i, w, k - 1);
      CompSpec(B, w, Occupied(o), n);
      if Dead(B, w, o, n) != {} {
        assert n in CapturedUpTo(B, w, o, i, k);
      }
    }
  }
  /** Clearing nothing changes nothing. */
  lemma ClearNothing(B: seq<State>)
    ensures ClearCells(B, {}) == B
  {
  }

  /**
   * One step of the capture loop. With the captures of the first `k` neighbours
   * already removed, the group `G` the engine counts at the `k`-th neighbour `n`, and
   * its liberties `L` (which include `n` itself when `n` is empty), are such that:
   * no liberty means `G` is exactly the dead group of `n` on the placed board, new to
   * the captures, and removing it yields the captures of the first `k + 1`
   * neighbours; a liberty means this neighbour adds no capture.
   */
  lemma CaptureStep(B: seq<State>, w: nat, c: Color, i: int, k: int, P: seq<State>, G: set<int>, L: set<int>)
    requires StoneAt(B, w, i, c) && 0 <= k < 4
    requires P == ClearCells(B, CapturedUpTo(B, w, c.Opposite(), i, k))
    requires G == Comp(P, w, Occupied(c.Opposite()), Nbr(i, w, k))
    requires L == Libs(P, w, G) + (if 0 <= Nbr(i, w, k) < |P| && P[Nbr(i, w, k)] == Empty then {Nbr(i, w, k)} else {})
    ensures var o, n := c.Opposite(), Nbr(i, w, k);
      var R := CapturedUpTo(B, w, o, i, k);
      && (L == {} ==> G == Dead(B, w, o, n) && G * R == {}
                      && ClearCells(P, G) == ClearCells(B, CapturedUpTo(B, w, o, i, k + 1)))
      && (L != {} ==> Dead(B, w, o, n) <= R && CapturedUpTo(B, w, o, i, k + 1) == R)
  {
    var o := c.Opposite();
    var t := Occupied(o);
    var R := CapturedUpTo(B, w, o, i, k);
    var n := Nbr(i, w, k);
    NbrInRange(B, w, i);
    CapturedShape(B, w, o, i, k);
    assert CapturedUpTo(B, w, o, i, k + 1) == R + Dead(B, w, o, n);
    if B[n] == t && n !in R {
      LiveNeighbour(B, w, t, R, n);
      assert L == Libs(B, w, G);
    } else if n in R {
      CompSpec(B, w, t, n);
      CompLeast(B, w, t, n, R);
      assert n in L;
    } else {
      assert G == {} && Dead(B, w, o, n) == {};
      assert Reached(P, w, Empty, {}) == {};
      assert ClearCells(P, G) == P;
    }
  }

  /**
   * A `t` stone at `n` outside the dead groups `R` keeps its group and that group's
   * liberties once `R` is cleared, and clearing that group after `R` clears both.
   */
  lemma LiveNeighbour(B: seq<State>, w: nat, t: State, R: set<int>, n: int)
    requires t.Occupied? && DeadGroups(B, w, t.color, R)
    requires 0 <= n < |B| && B[n] == t && n !in R
    ensures var P := ClearCells(B, R);
      var G := Comp(B, w, t, n);
      && Comp(P, w, t, n) == G && Libs(P, w, G) == Libs(B, w, G)
      && P[n] == t && G * R == {}
      && ClearCells(P, G) == ClearCells(B, R + G)
  {
    ClearedStable(B, w, t, R, n);
    Separation(B, w, t, R, n);
    var P := ClearCells(B, R);
    var G := Comp(B, w, t, n);
    assert ClearCells(P, G) == ClearCells(B, R + G);
  }

  /**
   * The step of the capture loop as the engine sees it, given the board `P`, the
   * group `G` and the liberties `L` it counted at the `k`-th neighbour `n`: without a
   * liberty, `G` joins the captures (adding its size to the count) and `n` becomes
   * the ko point when `G` is a single stone, nothing was captured before and the
   * stone at `i` sits in a diamond; with a liberty, captures and ko point stay.
   */
  lemma CaptureTurn(B: seq<State>, w: nat, c: Color, i: int, k: int, P: seq<State>, G: set<int>, L: set<int>)
    requires StoneAt(B, w, i, c) && 0 <= k < 4
    requires P == ClearCells(B, CapturedUpTo(B, w, c.Opposite(), i, k))
    requires G == Comp(P, w, Occupied(c.Opposite()), Nbr(i, w, k))
    requires L == Libs(P, w, G) + (if 0 <= Nbr(i, w, k) < |P| && P[Nbr(i, w, k)] == Empty then {Nbr(i, w, k)} else {})
    ensures var o, n := c.Opposite(), Nbr(i, w, k);
      var R, R' := CapturedUpTo(B, w, o, i, k), CapturedUpTo(B, w, o, i, k + 1);
      && (L == {} ==> R' == R + G && |R'| == |R| + |G| && ClearCells(P, G) == ClearCells(B, R')
                      && KoUpTo(B, w, o, i, k + 1)
                         == if R == {} && |G| == 1 && DiamondOf(B, w, i) == Some(o) then Some(n)
                            else KoUpTo(B, w, o, i, k))
      && (L != {} ==> R' == R && KoUpTo(B, w, o, i, k + 1) == KoUpTo(B, w, o, i, k))
  {
    var o, n := c.Opposite(), Nbr(i, w, k);
    var R := CapturedUpTo(B, w, o, i, k);
    CaptureStep(B, w, c, i, k, P, G, L);
    if L == {} {
      DisjointUnionSize(R, G);
    } else if R == {} {
      assert Dead(B, w, o, n) == {};
    }
  }

  /**
   * The state of the capture loop after the first `k` neighbours of the stone at `i`:
   * the board `P` has those captures removed, `count` stones were captured and `ko`
   * is the pending ko point.
   */
  ghost predicate CaptureState(B: seq<State>, w: nat, c: Color, i: int, k: int, P: seq<State>,
                               count: nat, ko: Option<int>)
  {
    && StoneAt(B, w, i, c) && 0 <= k <= 4
    && P == ClearCells(B, CapturedUpTo(B, w, c.Opposite(), i, k))
    && count == |CapturedUpTo(B, w, c.Opposite(), i, k)|
    && ko == KoUpTo(B, w, c.Opposite(), i, k)
  }

  /**
   * The capture loop keeps its state: at the `k`-th neighbour, removing the counted
   * group `G` when it has no liberty (and taking its cell as the ko point when it is a
   * single stone and the current board has a diamond around `i`) gives the state after
   * `k + 1` neighbours.
   */
  lemma CaptureStateStep(B: seq<State>, w: nat, c: Color, i: int, k: int, P: seq<State>, count: nat,
                         ko: Option<int>, G: set<int>, L: set<int>, D: set<int>,
                         P': seq<State>, count': nat, ko': Option<int>)
    requires CaptureState(B, w, c, i, k, P, count, ko) && k < 4
    requires G == Comp(P, w, Occupied(c.Opposite()), Nbr(i, w, k))
    requires L == Libs(P, w, G) + (if 0 <= Nbr(i, w, k) < |P| && P[Nbr(i, w, k)] == Empty then {Nbr(i, w, k)} else {})
    requires D == if L == {} then G else {}
    requires P' == ClearCells(P, D) && count' == count + |D|
    requires ko' == if L == {} && |G| == 1 && DiamondOf(P, w, i) == Some(c.Opposite()) then Some(Nbr(i, w, k)) else ko
    ensures CaptureState(B, w, c, i, k + 1, P', count', ko')
  {
    CaptureTurn(B, w, c, i, k, P, G, L);
    DiamondAfterCaptures(B, w, c, i, k);
    ClearNothing(P);
  }

  /**
   * After captures the diamond around the placed stone is gone: some neighbour is
   * now empty. Before any capture it is the diamond of the placed board.
   */
  lemma DiamondAfterCaptures(B: seq<State>, w: nat, c: Color, i: int, k: int)
    requires StoneAt(B, w, i, c) && 0 <= k <= 4
    ensures var R := CapturedUpTo(B, w, c.Opposite(), i, k);
      DiamondOf(ClearCells(B, R), w, i) == if R == {} then DiamondOf(B, w, i) else None
  {
    var R := CapturedUpTo(B, w, c.Opposite(), i, k);
    CapturedHasNeighbour(B, w, c.Opposite(), i, k);
    ClearNothing(B);
    NbrInRange(B, w, i);
    if R != {} {
      var j :| 0 <= j < k && Nbr(i, w, j) in R;
      assert ClearCells(B, R)[Nbr(i, w, j)] == Empty;
    }
  }

  /** Cell `i` of `S` touches each of its neighbours. */
  lemma NbrTouches(S: set<int>, i: int, w: nat, j: int)
    requires i in S && 0 <= j < 4
    ensures Touches(S, Nbr(i, w, j), w)
  {
    if j == 0 {
      assert Nbr(i, w, j) - 1 == i;
    } else if j == 1 {
      assert Nbr(i, w, j) + 1 == i;
    } else if j == 2 {
      assert Nbr(i, w, j) - w == i;
    } else {
      assert Nbr(i, w, j) + w == i;
    }
  }

  /** A one-element set holding `m` is `{m}`. */
  lemma SingletonOf(S: set<int>, m: int)
    requires |S| == 1 && m in S
    ensures S == {m}
  {
    assert |S - {m}| == 0;
  }

  /** The chosen ko point is a single captured stone next to `i`, and needs a diamond. */
  lemma {:induction false} KoSound(B: seq<State>, w: nat, o: Color, i: int, k: int)
    requires 0 <= k <= 4
    ensures KoUpTo(B, w, o, i, k).Some? ==>
      var n := KoUpTo(B, w, o, i, k).value;
      n in CapturedUpTo(B, w, o, i, k) && Dead(B, w, o, n) == {n} && DiamondOf(B, w, i) == Some(o)
      && exists j :: 0 <= j < k && n == Nbr(i, w, j)
  {
    if k > 0 {
      KoSound(B, w, o, i, k - 1);
      var m := Nbr(i, w, k - 1);
      CompSpec(B, w, Occupied(o), m);
      if CapturedUpTo(B, w, o, i, k - 1) == {} && |Dead(B, w, o, m)| == 1 && DiamondOf(B, w, i) == Some(o) {
        SingletonOf(Dead(B, w, o, m), m);
      }
    }
  }

  /**
   * There is no ko without a capture, and a move inside a diamond of `o` stones that
   * captures exactly one stone makes that stone's cell the ko point.
   */
  lemma KoComplete(B: seq<State>, w: nat, o: Color, i: int, k: int)
    requires 0 <= k <= 4
    ensures CapturedUpTo(B, w, o, i, k) == {} ==> KoUpTo(B, w, o, i, k) == None
    ensures forall n :: DiamondOf(B, w, i) == Some(o) && CapturedUpTo(B, w, o, i, k) == {n} ==>
      KoUpTo(B, w, o, i, k) == Some(n)
  {
    KoNone(B, w, o, i, k);
    forall n | DiamondOf(B, w, i) == Some(o) && CapturedUpTo(B, w, o, i, k) == {n}
      ensures KoUpTo(B, w, o, i, k) == Some(n)
    {
      KoSingle(B, w, o, i, k, n);
    }
  }

  /** Without a capture among the first `k` neighbours there is no ko point. */
  lemma {:induction false} KoNone(B: seq<State>, w: nat, o: Color, i: int, k: int)
    requires 0 <= k <= 4
    ensures CapturedUpTo(B, w, o, i, k) == {} ==> KoUpTo(B, w, o, i, k) == None
  {
    if k > 0 {
      KoNone(B, w, o, i, k - 1);
    }
  }

  /** Inside a diamond of `o` stones, capturing exactly the stone at `n` makes `n` the ko point. */
  lemma {:induction false} KoSingle(B: seq<State>, w: nat, o: Color, i: int, k: int, n: int)
    requires 0 <= k <= 4 && DiamondOf(B, w, i) == Some(o) && CapturedUpTo(B, w, o, i, k) == {n}
    ensures KoUpTo(B, w, o, i, k) == Some(n)
  {
    if k == 0 {
      assert false;
    } else {
      var m := Nbr(i, w, k - 1);
      var R := CapturedUpTo(B, w, o, i, k - 1);
      var D := Dead(B, w, o, m);
      assert R + D == {n};
      if R == {} {
        assert D == {n};
        DeadHasRoot(B, w, o, m);
      } else {
        assert R == {n};
        KoSingle(B, w, o, i, k - 1, n);
      }
    }
  }

  /** A dead group found at `m` contains `m`. */
  lemma DeadHasRoot(B: seq<State>, w: nat, o: Color, m: int)
    ensures Dead(B, w, o, m) != {} ==> m in Dead(B, w, o, m)
  {
    CompSpec(B, w, Occupied(o), m);
  }

  /** A move that captures something always has a liberty: the cell of a captured neighbour. */
  lemma CaptureGivesLiberty(B: seq<State>, w: nat, c: Color, i: int)
    requires StoneAt(B, w, i, c)
    ensures var F := ClearCells(B, Captured(B, w, c.Opposite(), i));
      Captured(B, w, c.Opposite(), i) != {} ==> Libs(F, w, Comp(F, w, Occupied(c), i)) != {}
  {
    var o := c.Opposite();
    var R := Captured(B, w, o, i);
    var F := ClearCells(B, R);
    CapturedShape(B, w, o, i, 4);
    CapturedHasNeighbour(B, w, o, i, 4);
    if R != {} {
      var j :| 0 <= j < 4 && Nbr(i, w, j) in R;
      NbrInRange(B, w, i);
      assert i !in R;
      CompSpec(F, w, Occupied(c), i);
      NbrTouches(Comp(F, w, Occupied(c), i), i, w, j);
      assert F[Nbr(i, w, j)] == Empty;
    }
  }

  /**
   * Captures are complete: after the move every opposing stone next to the played
   * stone keeps its whole group, and that group has a liberty.
   */
  lemma CapturesComplete(B: seq<State>, w: nat, c: Color, i: int, k: int)
    requires StoneAt(B, w, i, c) && 0 <= k < 4
    ensures var o := c.Opposite();
      var F := ClearCells(B, Captured(B, w, o, i));
      var n := Nbr(i, w, k);
      0 <= n < |F| && F[n] == Occupied(o) ==>
        Comp(F, w, Occupied(o), n) == Comp(B, w, Occupied(o), n) && Libs(F, w, Comp(F, w, Occupied(o), n)) != {}
  {
    var o := c.Opposite();
    var t := Occupied(o);
    var R := Captured(B, w, o, i);
    var F := ClearCells(B, R);
    var n := Nbr(i, w, k);
    NbrInRange(B, w, i);
    CapturedShape(B, w, o, i, 4);
    if F[n] == t {
      assert n !in R && B[n] == t;
      CompSpec(B, w, t, n);
      assert CapturedUpTo(B, w, o, i, k + 1) == CapturedUpTo(B, w, o, i, k) + Dead(B, w, o, n);
      CapturedMonotone(B, w, o, i, k + 1, 4);
      assert n !in Dead(B, w, o, n);
      assert Libs(B, w, Comp(B, w, t, n)) != {};
      ClearedStable(B, w, t, R, n);
    }
  }

  /** The captures only grow as more neighbours are examined. */
  lemma {:induction false} CapturedMonotone(B: seq<State>, w: nat, o: Color, i: int, j: int, k: int)
    requires 0 <= j <= k <= 4
    ensures CapturedUpTo(B, w, o, i, j) <= CapturedUpTo(B, w, o, i, k)
    decreases k - j
  {
    if j < k {
      CapturedMonotone(B, w, o, i, j, k - 1);
    }
  }

  /**
   * After scanning the first `k` neighbours of `i` without finding an empty one:
   * `d` is the colour of the occupied ones, all of which agree, or `None` if all
   * were off the board.
   */
  predicate DiamondScan(P: seq<State>, w: nat, i: int, k: int, d: Option<Color>)
  {
    (forall j :: 0 <= j < k ==> 0 <= Nbr(i, w, j) < |P| && P[Nbr(i, w, j)] != Empty)
    && (d.None? ==> forall j :: 0 <= j < k ==> P[Nbr(i, w, j)] == Offboard)
    && (d.Some? ==>
          (forall j :: 0 <= j < k ==> P[Nbr(i, w, j)] in {Occupied(d.value), Offboard})
          && exists j :: 0 <= j < k && P[Nbr(i, w, j)] == Occupied(d.value))
  }

  /** An empty neighbour rules out a diamond. */
  lemma DiamondBroken(P: seq<State>, w: nat, i: int, k: int)
    requires 0 <= k < 4 && 0 <= Nbr(i, w, k) < |P| && P[Nbr(i, w, k)] == Empty
    ensures DiamondOf(P, w, i) == None
  {
  }

  /** Two neighbours of different colours rule out a diamond. */
  lemma DiamondClash(P: seq<State>, w: nat, i: int, k: int, c: Color)
    requires 0 <= k < 4 && DiamondScan(P, w, i, k, Some(c))
    requires 0 <= Nbr(i, w, k) < |P| && P[Nbr(i, w, k)] == Occupied(c.Opposite())
    ensures DiamondOf(P, w, i) == None
  {
    var j :| 0 <= j < k && P[Nbr(i, w, j)] == Occupied(c);
    assert !Surrounded(P, w, i, c) by {
      assert P[Nbr(i, w, k)] !in {Occupied(c), Offboard};
    }
    assert !Surrounded(P, w, i, c.Opposite()) by {
      assert P[Nbr(i, w, j)] !in {Occupied(c.Opposite()), Offboard};
    }
  }

  /** Scanning all four neighbours without a clash finds the diamond. */
  lemma DiamondScanned(P: seq<State>, w: nat, i: int, d: Option<Color>)
    requires DiamondScan(P, w, i, 4, d)
    ensures DiamondOf(P, w, i) == d
  {
    if d.None? {
      assert !Surrounded(P, w, i, Black) && !Surrounded(P, w, i, White);
    } else {
      assert Surrounded(P, w, i, d.value);
      assert !Surrounded(P, w, i, d.value.Opposite()) by {
        var j :| 0 <= j < 4 && P[Nbr(i, w, j)] == Occupied(d.value);
        assert P[Nbr(i, w, j)] !in {Occupied(d.value.Opposite()), Offboard};
      }
    }
  }

  /** Scanning one more non-empty neighbour that agrees with the colour seen so far. */
  lemma DiamondScanStep(P: seq<State>, w: nat, i: int, k: int, d: Option<Color>, d': Option<Color>)
    requires 0 <= k < 4 && DiamondScan(P, w, i, k, d)
    requires 0 <= Nbr(i, w, k) < |P| && P[Nbr(i, w, k)] != Empty
    requires P[Nbr(i, w, k)] == Offboard ==> d' == d
    requires P[Nbr(i, w, k)].Occupied? ==> d' == Some(P[Nbr(i, w, k)].color) && (d.Some? ==> d == d')
    ensures DiamondScan(P, w, i, k + 1, d')
  {
    if d'.Some? && P[Nbr(i, w, k)] == Occupied(d'.value) {
      assert exists j :: 0 <= j < k + 1 && P[Nbr(i, w, j)] == Occupied(d'.value);
    }
  }
}
