/**
 * Groups of the rewritten engine: the neighbours of a cell and the breadth-first
 * search that collects the stones of a group and its liberties, proved against the
 * reference regions (the connected region of the start cell and its empty border).
 */
module Groups {
  import opened Stones
  import opened Grid
  import opened Regions

  /** The stones of a group, its liberties and its colour. */
  datatype Group = Group(stones: seq<nat>, liberties: seq<nat>, color: Color)

  /** The elements of `s`. */
  function Elems(s: seq<nat>): set<int>
  {
    set x: int | x in s
  }

  /** No element of `s` occurs twice. */
  predicate Distinct(s: seq<nat>)
  {
    forall a, b :: 0 <= a < b < |s| ==> s[a] != s[b]
  }

  /**
   * The neighbours of cell `index`: none for a ring cell, else the cells to the right,
   * left, in the next stored row and in the previous one.
   */
  function Neighbors(index: nat, board: seq<State>, size: BoardSize): (r: seq<nat>)
    requires WellBordered(board, Width(size)) && index < |board|
    ensures board[index] == Offboard ==> r == []
    ensures board[index] != Offboard ==> |r| == 4 && Distinct(r)
    ensures forall n :: n in r ==> n < |board|
    ensures forall n: int :: n in r <==> board[index] != Offboard && Touches({index}, n, Width(size))
  {
    var w := Width(size);
    if board[index] == Offboard then []
    else
      InteriorRange(board, w, index);
      [index + 1, index - 1, index + w, index - w]
  }

  /** The elements of `ns` that are not in `seen`, in order. */
  function Unseen(ns: seq<nat>, seen: set<nat>): (r: seq<nat>)
    ensures forall x: int :: x in r <==> x in ns && x !in seen
    ensures Distinct(ns) ==> Distinct(r)
    ensures (forall x :: x in ns ==> x in seen) ==> r == []
  {
    if |ns| == 0 then []
    else (if ns[0] in seen then [] else [ns[0]]) + Unseen(ns[1..], seen)
  }

  /** The worklist holds distinct seen cells of the board. */
  ghost predicate Queue(board: seq<State>, seen: set<nat>, work: seq<nat>)
  {
    && (forall x :: x in work ==> x < |board| && x in seen)
    && Distinct(work)
  }

  /**
   * The stones and liberties found so far are distinct cells of the right state, off
   * the worklist; a liberty is `start` or touches a found stone.
   */
  ghost predicate Found(board: seq<State>, w: nat, color: Color, start: nat, seen: set<nat>,
                        work: seq<nat>, group: seq<nat>, libs: seq<nat>)
  {
    && Distinct(group) && Distinct(libs)
    && (forall x :: x in group ==> x < |board| && board[x] == Occupied(color) && x in seen && x !in work)
    && (forall x :: x in libs ==> x < |board| && board[x] == Empty && x in seen && x !in work
                                  && (x == start || Touches(Elems(group), x, w)))
  }

  /** A cell is seen exactly when it is `start` or a neighbour of a found stone. */
  ghost predicate SeenIs(w: nat, start: nat, seen: set<nat>, group: seq<nat>)
  {
    forall x: int :: x in seen <==> x == start || Touches(Elems(group), x, w)
  }

  /** Every seen cell off the worklist has been sorted into the stones or the liberties. */
  ghost predicate Sorted(board: seq<State>, color: Color, seen: set<nat>, work: seq<nat>,
                         group: seq<nat>, libs: seq<nat>)
  {
    forall x: nat :: x in seen && x !in work && x < |board| ==>
      (board[x] == Occupied(color) ==> x in group) && (board[x] == Empty ==> x in libs)
  }

  /**
   * The state of the search for the `color` group of `start`, whose reference region is
   * `C`: the parts above, and the stones found lie in `C`.
   */
  ghost predicate Searching(board: seq<State>, w: nat, color: Color, start: nat, C: set<int>,
                            seen: set<nat>, work: seq<nat>, group: seq<nat>, libs: seq<nat>)
  {
    && Queue(board, seen, work)
    && Found(board, w, color, start, seen, work, group, libs)
    && SeenIs(w, start, seen, group)
    && Sorted(board, color, seen, work, group, libs)
    && Elems(group) <= C
  }

  /** The facts about the reference region that the search relies on. */
  ghost predicate Region(board: seq<State>, w: nat, color: Color, start: nat, C: set<int>)
  {
    && Closed(board, w, Occupied(color), C)
    && (start < |board| && board[start] == Occupied(color) ==> start in C)
  }

  /** The head of a sequence without repetitions is not in its tail, which has none either. */
  lemma DistinctTail(s: seq<nat>)
    requires Distinct(s) && s != []
    ensures Distinct(s[1..]) && s[0] !in s[1..]
    ensures forall x :: x in s[1..] ==> x in s
  {
    assert forall x :: x in s[1..] ==> x in s;
  }

  /** Concatenating sequences without repetitions and without common elements. */
  lemma DistinctAppend(a: seq<nat>, b: seq<nat>)
    requires Distinct(a) && Distinct(b) && forall x :: x in a ==> x !in b
    ensures Distinct(a + b)
  {
    forall i, j | 0 <= i < j < |a + b|
      ensures (a + b)[i] != (a + b)[j]
    {
      if i < |a| && j >= |a| {
        assert (a + b)[i] in a && (a + b)[j] in b;
      }
    }
  }

  /** Popping an empty cell records it as a liberty. */
  lemma StepLiberty(board: seq<State>, w: nat, color: Color, start: nat, C: set<int>,
                    seen: set<nat>, work: seq<nat>, group: seq<nat>, libs: seq<nat>)
    requires Searching(board, w, color, start, C, seen, work, group, libs)
    requires work != [] && work[0] < |board| && board[work[0]] == Empty
    ensures Searching(board, w, color, start, C, seen, work[1..], group, libs + [work[0]])
  {
    var cur := work[0];
    DistinctTail(work);
    assert cur in seen;
    DistinctAppend(libs, [cur]);
  }

  /** Popping a ring cell or a stone of the other colour does nothing else. */
  lemma StepSkip(board: seq<State>, w: nat, color: Color, start: nat, C: set<int>,
                 seen: set<nat>, work: seq<nat>, group: seq<nat>, libs: seq<nat>)
    requires Searching(board, w, color, start, C, seen, work, group, libs)
    requires work != [] && work[0] < |board| && board[work[0]] != Empty && board[work[0]] != Occupied(color)
    ensures Searching(board, w, color, start, C, seen, work[1..], group, libs)
  {
    DistinctTail(work);
  }

  /**
   * Popping a stone of the group records it and queues its unseen neighbours; the
   * seen set grows, or else the worklist shrinks.
   */
  lemma StepStone(board: seq<State>, size: BoardSize, color: Color, start: nat, C: set<int>,
                  seen: set<nat>, work: seq<nat>, group: seq<nat>, libs: seq<nat>, ns: seq<nat>,
                  seen': set<nat>, work': seq<nat>, group': seq<nat>)
    requires WellBordered(board, Width(size)) && Region(board, Width(size), color, start, C)
    requires Searching(board, Width(size), color, start, C, seen, work, group, libs)
    requires work != [] && work[0] < |board| && board[work[0]] == Occupied(color)
    requires ns == Neighbors(work[0], board, size) && seen' == seen + (set x | x in ns)
    requires work' == work[1..] + Unseen(ns, seen) && group' == group + [work[0]]
    ensures Searching(board, Width(size), color, start, C, seen', work', group', libs)
    ensures Indices(board) - seen' < Indices(board) - seen || (seen' == seen && |work'| < |work|)
  {
    var w, cur := Width(size), work[0];
    DistinctTail(work);
    assert cur in seen;
    QueueStone(board, seen, work, ns, seen', work');
    FoundStone(board, w, color, start, work, group, libs, ns, seen, seen', work', group');
    SeenStone(board, size, start, seen, group, cur, ns, seen', group');
    SortedStone(board, color, seen, work, group, libs, ns, seen', work', group');
    InRegion(board, w, color, start, C, seen, group, cur, group');
    Shrinks(Indices(board), seen, seen');
  }

  /** A seen stone of the group's colour lies in the region, like the stones found before it. */
  lemma InRegion(board: seq<State>, w: nat, color: Color, start: nat, C: set<int>,
                 seen: set<nat>, group: seq<nat>, cur: nat, group': seq<nat>)
    requires Region(board, w, color, start, C) && SeenIs(w, start, seen, group) && Elems(group) <= C
    requires cur in seen && cur < |board| && board[cur] == Occupied(color) && group' == group + [cur]
    ensures Elems(group') <= C
  {
    if cur != start {
      assert Touches(C, cur, w);
      assert cur in Reached(board, w, Occupied(color), C);
    }
    assert Elems(group') == Elems(group) + {cur};
  }

  /** Adding new elements of `I` to `seen` shrinks what is left of `I`. */
  lemma Shrinks(I: set<int>, seen: set<nat>, seen': set<nat>)
    requires seen <= seen' <= I + seen
    ensures seen' != seen ==> I - seen' < I - seen
  {
    if seen' != seen {
      assert exists x :: x in seen' && x !in seen;
      var x :| x in seen' && x !in seen;
      assert x in I - seen && x !in I - seen';
    }
  }

  /** The worklist stays a list of distinct seen cells when the unseen neighbours join it. */
  lemma QueueStone(board: seq<State>, seen: set<nat>, work: seq<nat>, ns: seq<nat>,
                   seen': set<nat>, work': seq<nat>)
    requires Queue(board, seen, work) && work != [] && Distinct(ns) && forall x :: x in ns ==> x < |board|
    requires seen' == seen + (set x | x in ns) && work' == work[1..] + Unseen(ns, seen)
    ensures Queue(board, seen', work')
    ensures seen' == seen ==> |work'| < |work|
  {
    DistinctTail(work);
    DistinctAppend(work[1..], Unseen(ns, seen));
    if seen' == seen {
      assert forall x :: x in ns ==> x in seen;
    }
  }

  /** The popped stone joins the stones found; the liberties keep touching them. */
  lemma FoundStone(board: seq<State>, w: nat, color: Color, start: nat, work: seq<nat>, group: seq<nat>,
                   libs: seq<nat>, ns: seq<nat>, seen: set<nat>, seen': set<nat>, work': seq<nat>, group': seq<nat>)
    requires Found(board, w, color, start, seen, work, group, libs) && Queue(board, seen, work)
    requires work != [] && work[0] < |board| && board[work[0]] == Occupied(color)
    requires seen' == seen + (set x | x in ns)
    requires work' == work[1..] + Unseen(ns, seen) && group' == group + [work[0]]
    ensures Found(board, w, color, start, seen', work', group', libs)
  {
    var cur := work[0];
    DistinctTail(work);
    assert cur !in group;
    DistinctAppend(group, [cur]);
    assert Elems(group) <= Elems(group');
    forall x | x in group'
      ensures x !in work'
    {
      if x != cur {
        assert x !in work && x in seen;
        assert x !in Unseen(ns, seen);
      }
    }
    forall x | x in libs
      ensures x !in work' && (x == start || Touches(Elems(group'), x, w))
    {
      assert x !in work && x in seen;
      assert x !in Unseen(ns, seen);
    }
  }

  /** The seen set grows by the neighbours of the popped stone. */
  lemma SeenStone(board: seq<State>, size: BoardSize, start: nat, seen: set<nat>, group: seq<nat>,
                  cur: nat, ns: seq<nat>, seen': set<nat>, group': seq<nat>)
    requires WellBordered(board, Width(size)) && cur < |board| && board[cur] != Offboard
    requires SeenIs(Width(size), start, seen, group) && ns == Neighbors(cur, board, size)
    requires seen' == seen + (set x | x in ns) && group' == group + [cur]
    ensures SeenIs(Width(size), start, seen', group')
    ensures seen <= seen' <= Indices(board) + seen
  {
    var w := Width(size);
    assert Elems(group') == Elems(group) + {cur};
    forall x: int
      ensures x in seen' <==> x == start || Touches(Elems(group'), x, w)
    {
      assert Touches(Elems(group'), x, w) <==> Touches(Elems(group), x, w) || Touches({cur}, x, w);
      assert x in seen' <==> x in seen || x in ns;
    }
  }

  /** The popped stone is sorted; the newly seen cells are queued. */
  lemma SortedStone(board: seq<State>, color: Color, seen: set<nat>, work: seq<nat>, group: seq<nat>,
                    libs: seq<nat>, ns: seq<nat>, seen': set<nat>, work': seq<nat>, group': seq<nat>)
    requires Sorted(board, color, seen, work, group, libs)
    requires work != [] && work[0] < |board| && board[work[0]] == Occupied(color)
    requires seen' == seen + (set x | x in ns) && work' == work[1..] + Unseen(ns, seen) && group' == group + [work[0]]
    ensures Sorted(board, color, seen', work', group', libs)
  {
    forall x: nat | x in seen' && x !in work' && x < |board|
      ensures (board[x] == Occupied(color) ==> x in group') && (board[x] == Empty ==> x in libs)
    {
      if x != work[0] {
        assert x !in Unseen(ns, seen) && x !in work[1..];
        assert x in seen;
        assert x !in work by {
          assert work == [work[0]] + work[1..];
        }
      }
    }
  }

  /** The search starts with `start` seen and queued, nothing found, inside the region of `start`. */
  lemma SearchStart(board: seq<State>, w: nat, color: Color, start: nat, C: set<int>)
    requires start < |board| && C == Comp(board, w, Occupied(color), start)
    ensures Region(board, w, color, start, C)
    ensures Searching(board, w, color, start, C, {start}, [start], [], [])
  {
    CompSpec(board, w, Occupied(color), start);
    assert Elems([]) == {};
  }

  /** When the worklist is empty the search has found the reference region and its liberties. */
  lemma SearchDone(board: seq<State>, w: nat, color: Color, start: nat,
                   seen: set<nat>, group: seq<nat>, libs: seq<nat>)
    requires start < |board|
    requires Searching(board, w, color, start, Comp(board, w, Occupied(color), start), seen, [], group, libs)
    ensures Elems(group) == Comp(board, w, Occupied(color), start)
    ensures Elems(libs) == Libs(board, w, Elems(group)) + (if board[start] == Empty then {start} else {})
  {
    var t, G := Occupied(color), Elems(group);
    var C := Comp(board, w, t, start);
    assert start in seen;
    CompSpec(board, w, t, start);
    if board[start] == t {
      assert Reached(board, w, t, G) <= G by {
        forall x | x in Reached(board, w, t, G)
          ensures x in G
        {
          assert x in seen;
        }
      }
      CompLeast(board, w, t, start, G);
    }
    forall x | x in Libs(board, w, G)
      ensures x in Elems(libs)
    {
      assert x in seen;
    }
  }

  /** From a cell that is not a `color` stone the search finds no stone, and only the cell if it is empty. */
  lemma NoStone(board: seq<State>, w: nat, color: Color, start: nat, group: seq<nat>, libs: seq<nat>)
    requires start < |board| && Distinct(libs)
    requires Elems(group) == Comp(board, w, Occupied(color), start)
    requires Elems(libs) == Libs(board, w, Elems(group)) + (if board[start] == Empty then {start} else {})
    ensures board[start] != Occupied(color) ==> group == []
    ensures board[start] == Empty ==> libs == [start]
  {
    CompSpec(board, w, Occupied(color), start);
    ElemsShape(group, start);
    ElemsShape(libs, start);
  }

  /** A sequence with no elements is empty; one without repetitions whose only element is `a` is `[a]`. */
  lemma ElemsShape(s: seq<nat>, a: nat)
    ensures Elems(s) == {} ==> s == []
    ensures Distinct(s) && Elems(s) == {a} ==> s == [a]
  {
    if s != [] {
      assert s[0] in Elems(s);
      if |s| > 1 {
        assert s[1] in Elems(s);
      }
    }
  }

  /**
   * Collects the group of `color` stones connected to `start` and its liberties by a
   * breadth-first search over a worklist, marking cells as seen when they are queued.
   * The stones found are exactly the region of `start`, and the liberties exactly the
   * empty cells next to it (or `start` itself when it is empty), each listed once.
   */
  method FindGroup(start: nat, color: Color, board: seq<State>, size: BoardSize) returns (g: Group)
    requires WellBordered(board, Width(size)) && start < |board|
    ensures g.color == color
    ensures Distinct(g.stones) && Distinct(g.liberties)
    ensures forall x :: x in g.stones ==> x < |board| && board[x] == Occupied(color)
    ensures forall x :: x in g.liberties ==> x < |board| && board[x] == Empty
    ensures Elems(g.stones) == Comp(board, Width(size), Occupied(color), start)
    ensures Elems(g.liberties)
      == Libs(board, Width(size), Elems(g.stones)) + (if board[start] == Empty then {start} else {})
    ensures board[start] != Occupied(color) ==> g.stones == []
    ensures board[start] == Empty ==> g.liberties == [start]
  {
    ghost var w := Width(size);
    ghost var C := Comp(board, w, Occupied(color), start);
    var seen: set<nat> := {start};
    var work: seq<nat> := [start];
    var group: seq<nat> := [];
    var liberties: seq<nat> := [];
    SearchStart(board, w, color, start, C);
    while work != []
      invariant Searching(board, w, color, start, C, seen, work, group, liberties)
      decreases Indices(board) - seen, |work|
    {
      ghost var queued := work;
      var cur := work[0];
      assert cur in queued;
      work := work[1..];
      match board[cur]
      case Empty =>
        StepLiberty(board, w, color, start, C, seen, queued, group, liberties);
        liberties := liberties + [cur];
      case Occupied(c) =>
        if c == color {
          var ns := Neighbors(cur, board, size);
          ghost var seen0, group0 := seen, group;
          group := group + [cur];
          work := work + Unseen(ns, seen);
          seen := seen + (set x | x in ns);
          StepStone(board, size, color, start, C, seen0, queued, group0, liberties, ns, seen, work, group);
        } else {
          StepSkip(board, w, color, start, C, seen, queued, group, liberties);
        }
      case Offboard =>
        StepSkip(board, w, color, start, C, seen, queued, group, liberties);
    }
    SearchDone(board, w, color, start, seen, group, liberties);
    NoStone(board, w, color, start, group, liberties);
    g := Group(group, liberties, color);
  }
}
