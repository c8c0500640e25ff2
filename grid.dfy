/**
 * Geometry of the flat board shared by both drafts: a size x size grid is stored
 * row by row in a vector of (size + 2)^2 cells whose outer ring is `Offboard`.
 */
module Grid {
  import opened Stones

  /** The length of one stored row: the playable lines plus the two ring cells. */
  function Width(size: BoardSize): nat
  {
    size.ToU16() + 2
  }

  /** Cell `i` of a board whose rows have length `w` lies on the sentinel ring. */
  predicate OnRing(i: int, w: nat)
    requires w > 0
  {
    i / w == 0 || i / w == w - 1 || i % w == 0 || i % w == w - 1
  }

  /** The reference empty board: ring cells `Offboard`, every other cell `Empty`. */
  function Bordered(w: nat): seq<State>
    requires w > 0
  {
    seq(w * w, i requires 0 <= i < w * w => if OnRing(i, w) then Offboard else Empty)
  }

  /** `P` has the shape of a board with rows of length `w`: exactly the ring is `Offboard`. */
  ghost predicate WellBordered(P: seq<State>, w: nat)
  {
    && w >= 3
    && |P| == w * w
    && forall i {:trigger OnRing(i, w)} :: 0 <= i < |P| ==> (P[i] == Offboard <==> OnRing(i, w))
  }

  /** Multiplying by a non-negative factor preserves order. */
  lemma MulLe(a: int, b: int, c: int)
    requires a <= b && c >= 0
    ensures a * c <= b * c
  {
    assert b * c - a * c == (b - a) * c;
  }

  /** Quotient and remainder of `a * w + b` for a remainder-sized `b`. */
  lemma DivModOf(a: int, b: int, w: int)
    requires w > 0 && 0 <= b < w
    ensures (a * w + b) / w == a && (a * w + b) % w == b
  {
    var x := a * w + b;
    var q, r := x / w, x % w;
    assert q * w + r == a * w + b;
    assert (a + 1) * w == a * w + w && (q + 1) * w == q * w + w;
    if q > a {
      MulLe(a + 1, q, w);
    } else if q < a {
      MulLe(q + 1, a, w);
    }
  }

  /** A cell below `w * w` has a row index below `w`. */
  lemma RowBelowWidth(i: int, w: int)
    requires w > 0 && 0 <= i < w * w
    ensures 0 <= i / w < w
  {
    var q := i / w;
    assert q * w + i % w == i;
    if q >= w {
      MulLe(w, q, w);
    }
  }

  /**
   * A cell off the ring has its four neighbours inside the vector: this is what makes
   * the `index +- 1` and `index +- (size + 2)` arithmetic of both drafts safe.
   */
  lemma InteriorBounds(P: seq<State>, w: nat, i: int)
    requires WellBordered(P, w)
    requires 0 <= i < |P| && P[i] != Offboard
    ensures w <= i < |P| - w
    ensures 1 <= i % w <= w - 2 && 1 <= i / w <= w - 2
  {
    assert !OnRing(i, w);
    RowBelowWidth(i, w);
    var q, r := i / w, i % w;
    assert i == q * w + r;
    assert 1 <= q <= w - 2;
    MulLe(1, q, w);
    MulLe(q, w - 2, w);
    assert (w - 2) * w == w * w - 2 * w;
  }

  /** A cell off the ring is at least a row away from both ends of the vector. */
  lemma InteriorRange(P: seq<State>, w: nat, i: int)
    requires WellBordered(P, w)
    requires 0 <= i < |P| && P[i] != Offboard
    ensures w <= i < |P| - w
  {
    InteriorBounds(P, w, i);
  }

  /** Changing an on-board cell to another on-board state keeps the shape. */
  lemma SetKeepsBordered(P: seq<State>, w: nat, i: int, v: State)
    requires WellBordered(P, w) && 0 <= i < |P| && P[i] != Offboard && v != Offboard
    ensures WellBordered(P[i := v], w)
  {
  }

  /** The reference empty board is well bordered. */
  lemma BorderedIsWellBordered(w: nat)
    requires w >= 3
    ensures WellBordered(Bordered(w), w)
  {
  }

  /** Every supported size gives a row length of at least 3. */
  lemma WidthBounds(size: BoardSize)
    ensures 11 <= Width(size) <= 21
  {
  }
}
