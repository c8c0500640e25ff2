/**
 * Reference definitions for the flood fills of both drafts: the connected region of
 * cells holding a given state, the liberties of a group and the stones bordering a
 * region. Adjacency is the board's 4-neighbourhood `n +- 1`, `n +- w`, where `w` is
 * the stored row length; on a well-bordered board the ring keeps rows apart.
 */
module Regions {
  import opened Stones

  /** The valid indices of `P`. */
  function Indices(P: seq<State>): set<int>
  {
    set i {:trigger P[i]} | 0 <= i < |P|
  }

  /** Some cell of `S` is one of the four neighbours of `n`. */
  predicate Touches(S: set<int>, n: int, w: int)
  {
    n + 1 in S || n - 1 in S || n + w in S || n - w in S
  }

  /** The cells holding `t` that touch `S`. */
  function Reached(P: seq<State>, w: int, t: State, S: set<int>): set<int>
  {
    set n | 0 <= n < |P| && P[n] == t && Touches(S, n, w)
  }

  /** No cell holding `t` touches `S` from outside. */
  predicate Closed(P: seq<State>, w: int, t: State, S: set<int>)
  {
    Reached(P, w, t, S) <= S
  }

  /** Repeatedly adds to `S` the `t`-cells touching it, until nothing changes. */
  ghost function Flood(P: seq<State>, w: int, t: State, S: set<int>): set<int>
    requires S <= Indices(P)
    decreases Indices(P) - S
  {
    var E := S + Reached(P, w, t, S);
    if E == S then S else Flood(P, w, t, E)
  }

  /** The 4-connected region of `t`-cells containing `n` (empty when `n` does not hold `t`). */
  ghost function Comp(P: seq<State>, w: int, t: State, n: int): set<int>
  {
    if 0 <= n < |P| && P[n] == t then Flood(P, w, t, {n}) else {}
  }

  /** The liberties of `G`: the `Empty` cells touching it. */
  function Libs(P: seq<State>, w: int, G: set<int>): set<int>
  {
    Reached(P, w, Empty, G)
  }

  /** The stones of either colour touching `R`. */
  function Border(P: seq<State>, w: int, R: set<int>): set<int>
  {
    set n | 0 <= n < |P| && P[n].Occupied? && Touches(R, n, w)
  }

  /** `P` with every cell of `R` set to `Empty`. */
  function ClearCells(P: seq<State>, R: set<int>): (Q: seq<State>)
    ensures |Q| == |P|
  {
    seq(|P|, i requires 0 <= i < |P| => if i in R then Empty else P[i])
  }

  /** The size of a union of disjoint sets is the sum of their sizes. */
  lemma DisjointUnionSize(R: set<int>, G: set<int>)
    requires R * G == {}
    ensures |R + G| == |R| + |G|
  {
  }

  /** Flooding stays on the board, keeps the seed, only adds `t`-cells and ends closed. */
  lemma {:induction false} FloodSpec(P: seq<State>, w: int, t: State, S: set<int>)
    requires S <= Indices(P)
    ensures S <= Flood(P, w, t, S) <= Indices(P)
    ensures Closed(P, w, t, Flood(P, w, t, S))
    ensures (forall x :: x in S ==> P[x] == t) ==> forall x :: x in Flood(P, w, t, S) ==> P[x] == t
    decreases Indices(P) - S
  {
    var E := S + Reached(P, w, t, S);
    if E != S {
      FloodSpec(P, w, t, E);
    }
  }

  /** Flooding from `S` stays inside every closed superset of `S`. */
  lemma {:induction false} FloodLeast(P: seq<State>, w: int, t: State, S: set<int>, T: set<int>)
    requires S <= Indices(P) && S <= T && Closed(P, w, t, T)
    ensures Flood(P, w, t, S) <= T
    decreases Indices(P) - S
  {
    var E := S + Reached(P, w, t, S);
    if E != S {
      assert Reached(P, w, t, S) <= Reached(P, w, t, T);
      FloodLeast(P, w, t, E, T);
    }
  }

  /** The region of `n` holds only `t`-cells, is closed, and contains `n` exactly when `n` holds `t`. */
  lemma CompSpec(P: seq<State>, w: int, t: State, n: int)
    ensures Comp(P, w, t, n) <= Indices(P)
    ensures Closed(P, w, t, Comp(P, w, t, n))
    ensures forall x :: x in Comp(P, w, t, n) ==> P[x] == t
    ensures (0 <= n < |P| && P[n] == t) <==> n in Comp(P, w, t, n)
    ensures !(0 <= n < |P| && P[n] == t) ==> Comp(P, w, t, n) == {}
  {
    if 0 <= n < |P| && P[n] == t {
      FloodSpec(P, w, t, {n});
    }
  }

  /** The region of `n` is the least closed set containing `n`. */
  lemma CompLeast(P: seq<State>, w: int, t: State, n: int, T: set<int>)
    requires Closed(P, w, t, T) && n in T
    ensures Comp(P, w, t, n) <= T
  {
    if 0 <= n < |P| && P[n] == t {
      FloodLeast(P, w, t, {n}, T);
    }
  }

  /** A `t`-cell outside a closed set `K` has a region disjoint from `K`. */
  lemma Separation(P: seq<State>, w: int, t: State, K: set<int>, n: int)
    requires Closed(P, w, t, K)
    ensures (0 <= n < |P| && P[n] == t && n !in K) ==> Comp(P, w, t, n) * K == {}
  {
    if 0 <= n < |P| && P[n] == t && n !in K {
      var C := Comp(P, w, t, n);
      var D := C - K;
      CompSpec(P, w, t, n);
      forall m | m in Reached(P, w, t, D)
        ensures m in D
      {
        OutsideStaysOutside(P, w, t, K, C, m);
      }
      CompLeast(P, w, t, n, D);
    }
  }

  /**
   * For closed sets `C` (of `t` cells) and `K`, a `t` cell touching `C - K` is in
   * `C - K`: it is in `C`, and were it in `K` the cell of `C - K` it touches would
   * be too.
   */
  lemma OutsideStaysOutside(P: seq<State>, w: int, t: State, K: set<int>, C: set<int>, m: int)
    requires Closed(P, w, t, C) && Closed(P, w, t, K) && forall x :: x in C ==> 0 <= x < |P| && P[x] == t
    requires m in Reached(P, w, t, C - K)
    ensures m in C - K
  {
    var d :| d in C - K && (d == m + 1 || d == m - 1 || d == m + w || d == m - w);
    assert Touches(C, m, w);
    assert m in Reached(P, w, t, C);
    TouchesBack(K, m, d, w);
    assert m in K ==> d in Reached(P, w, t, K);
  }

  /** Adjacency is symmetric: a cell next to a member `m` of `K` touches `K`. */
  lemma TouchesBack(K: set<int>, m: int, d: int, w: int)
    requires d == m + 1 || d == m - 1 || d == m + w || d == m - w
    ensures m in K ==> Touches(K, d, w)
  {
    if d == m + 1 {
      assert d - 1 == m;
    } else if d == m - 1 {
      assert d + 1 == m;
    } else if d == m + w {
      assert d - w == m;
    } else {
      assert d + w == m;
    }
  }

  /** Regions are equivalence classes: any member of a region has that same region. */
  lemma SameComp(P: seq<State>, w: int, t: State, a: int, x: int)
    requires x in Comp(P, w, t, a)
    ensures Comp(P, w, t, x) == Comp(P, w, t, a)
  {
    CompSpec(P, w, t, a);
    CompSpec(P, w, t, x);
    CompLeast(P, w, t, x, Comp(P, w, t, a));
    Separation(P, w, t, Comp(P, w, t, x), a);
    assert x in Comp(P, w, t, a) * Comp(P, w, t, x);
    CompLeast(P, w, t, a, Comp(P, w, t, x));
  }

  /** The union of two closed sets is closed. */
  lemma ClosedUnion(P: seq<State>, w: int, t: State, A: set<int>, B: set<int>)
    requires Closed(P, w, t, A) && Closed(P, w, t, B)
    ensures Closed(P, w, t, A + B)
  {
    assert Reached(P, w, t, A + B) == Reached(P, w, t, A) + Reached(P, w, t, B);
  }

  /**
   * Clearing a closed set `R` of stones leaves the group of every other stone `n`
   * unchanged, and gives that group no new liberty.
   */
  lemma ClearedStable(B: seq<State>, w: int, t: State, R: set<int>, n: int)
    requires t != Empty
    requires Closed(B, w, t, R) && forall r :: r in R ==> 0 <= r < |B| && B[r] == t
    requires 0 <= n < |B| && B[n] == t && n !in R
    ensures Comp(ClearCells(B, R), w, t, n) == Comp(B, w, t, n)
    ensures Libs(ClearCells(B, R), w, Comp(B, w, t, n)) == Libs(B, w, Comp(B, w, t, n))
  {
    var P := ClearCells(B, R);
    var C := Comp(B, w, t, n);
    CompSpec(B, w, t, n);
    Separation(B, w, t, R, n);
    assert Closed(P, w, t, C) by {
      assert Reached(P, w, t, C) <= Reached(B, w, t, C);
    }
    CompLeast(P, w, t, n, C);
    var C' := Comp(P, w, t, n);
    CompSpec(P, w, t, n);
    forall m | m in Reached(B, w, t, C')
      ensures m in C'
    {
      var d :| d in C' && (d == m + 1 || d == m - 1 || d == m + w || d == m - w);
      assert m in R ==> d in Reached(B, w, t, R);
      assert m in Reached(P, w, t, C');
    }
    CompLeast(B, w, t, n, C');
    forall m | m in Libs(P, w, C)
      ensures m in Libs(B, w, C)
    {
      var d :| d in C && (d == m + 1 || d == m - 1 || d == m + w || d == m - w);
      assert m in R ==> d in Reached(B, w, t, R);
    }
  }
}
