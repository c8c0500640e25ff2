/**
 * The command loop of the rewritten engine: `Update` applies one message (play,
 * place a stone, pass, clear, resize) to a board in place and answers with the next
 * message or an error text. `Apply` is its reference definition on board values, and
 * the lemmas below state what each message does to the game.
 */
module Update {
  import W = Wrappers
  import opened Stones
  import opened Grid
  import opened Regions
  import opened Groups
  import opened RewriteBoard

  /** A point of the board by row and column, counted from 0. */
  datatype Position = Position(row: nat, col: nat)

  /**
   * The cell of `p` as the source computes it: refused only when `col + row * n`
   * reaches `n * n`, so a column of `n` or more slips through. An accepted point
   * always has a row inside the grid and a cell past the first stored row.
   */
  function ToBoardIndexAsWritten(p: Position, size: BoardSize): (r: W.Option<nat>)
    ensures r.None? <==> p.col + p.row * size.ToU16() >= size.ToU16() * size.ToU16()
    ensures r.Some? ==> p.row < size.ToU16() && r.value >= Width(size)
  {
    var n := size.ToU16();
    if p.col + p.row * n >= n * n then W.None
    else
      AcceptedRow(n, p.row, p.col);
      W.Some(p.col + (n - p.row) * (n + 2) + 1)
  }

  /** A point passing the source's bounds test has a row inside the grid, so its cell is past the first row. */
  lemma AcceptedRow(n: nat, row: nat, col: nat)
    requires col + row * n < n * n
    ensures row < n && col + (n - row) * (n + 2) + 1 >= n + 2
  {
    if row >= n {
      MulLe(n, row, n);
    }
    MulLe(1, n - row, n + 2);
  }

  /** A quotient and remainder fact for the cell of a point. */
  lemma CellDivMod(n: nat, row: nat, col: nat)
    requires row < n && col < n
    ensures var i, w := col + (n - row) * (n + 2) + 1, n + 2;
      i / w == n - row && i % w == col + 1 && 0 <= i < w * w
  {
    var w := n + 2;
    DivModOf(n - row, col + 1, w);
    assert (n - row) * w + (col + 1) == col + (n - row) * w + 1;
    MulLe(n - row, n, w);
    assert n * w + w <= w * w by {
      assert (n + 1) * w == n * w + w;
      MulLe(n + 1, w, w);
    }
  }

  /**
   * The cell of `p` on a board of `size`: a point outside the `n` by `n` grid has
   * none, and every point of the grid lands on a playable cell, row 0 on the last
   * stored row.
   */
  function ToBoardIndex(p: Position, size: BoardSize): (r: W.Option<nat>)
    ensures r.Some? <==> p.row < size.ToU16() && p.col < size.ToU16()
    ensures r.Some? ==> r.value < Width(size) * Width(size) && !OnRing(r.value, Width(size))
  {
    var n := size.ToU16();
    if p.col < n && p.row < n then
      CellDivMod(n, p.row, p.col);
      W.Some(p.col + (n - p.row) * (n + 2) + 1)
    else W.None
  }

  /** The point of a playable cell, and none for a ring cell or a cell past the end. */
  function FromBoardIndex(i: nat, size: BoardSize): (r: W.Option<Position>)
    ensures r.Some? <==> i < Width(size) * Width(size) && !OnRing(i, Width(size))
  {
    var w := Width(size);
    if i < w * w && !OnRing(i, w) then W.Some(Position(w - 2 - i / w, i % w - 1)) else W.None
  }

  /** Every point of the grid has a cell, and the point is read back from it. */
  lemma PositionRoundTrip(p: Position, size: BoardSize)
    requires p.row < size.ToU16() && p.col < size.ToU16()
    ensures ToBoardIndex(p, size).Some?
    ensures FromBoardIndex(ToBoardIndex(p, size).value, size) == W.Some(p)
  {
    CellDivMod(size.ToU16(), p.row, p.col);
  }

  /** Every playable cell is the cell of the point read back from it. */
  lemma CellRoundTrip(i: nat, size: BoardSize)
    requires i < Width(size) * Width(size) && !OnRing(i, Width(size))
    ensures FromBoardIndex(i, size).Some?
    ensures ToBoardIndex(FromBoardIndex(i, size).value, size) == W.Some(i)
  {
    var w, n := Width(size), size.ToU16();
    var p := FromBoardIndex(i, size).value;
    assert p.row == n - i / w && p.col == i % w - 1;
    assert p.row < n && p.col < n by { RowBelowWidth(i, w); }
    assert p.col + (n - p.row) * (n + 2) + 1 == i by {
      CellRecomposed(i, n, i / w, i % w, p.row, p.col);
    }
  }

  /** The arithmetic of `CellRoundTrip`: the cell formula inverts the row and column read back. */
  lemma CellRecomposed(i: int, n: int, q: int, m: int, row: int, col: int)
    requires i == q * (n + 2) + m && row == n - q && col == m - 1
    ensures col + (n - row) * (n + 2) + 1 == i
  {
    assert n - row == q;
  }

  /** The source's computation agrees with the checked one for every column inside the grid. */
  lemma ToBoardIndexAgrees(p: Position, size: BoardSize)
    ensures p.col < size.ToU16() ==> ToBoardIndexAsWritten(p, size) == ToBoardIndex(p, size)
  {
    var n := size.ToU16();
    if p.col < n && p.row < n {
      MulLe(p.row, n - 1, n);
    } else if p.col < n {
      MulLe(n, p.row, n);
    }
  }

  /**
   * On the 9x9 board the source's computation accepts columns past the grid: row 0,
   * column 9 lands on a ring cell; row 0, column 80 lands past the end of the cells;
   * and row 1, column 11 lands on the same cell as row 0, column 0.
   */
  lemma ToBoardIndexAsWrittenFlaws()
    ensures ToBoardIndexAsWritten(Position(0, 9), Nine) == W.Some(109) && Bordered(11)[109] == Offboard
    ensures ToBoardIndexAsWritten(Position(0, 80), Nine) == W.Some(180) && |Bordered(11)| == 121
    ensures ToBoardIndexAsWritten(Position(1, 11), Nine) == ToBoardIndexAsWritten(Position(0, 0), Nine) == W.Some(100)
    ensures ToBoardIndex(Position(0, 9), Nine) == ToBoardIndex(Position(0, 80), Nine) == ToBoardIndex(Position(1, 11), Nine) == W.None
  {
    assert OnRing(109, 11);
  }

  /** The requests the command loop handles. */
  datatype Message =
    | None
    | Play(color: Color, pos: Position)
    | PlaceStone(color: Color, pos: Position)
    | Pass
    | Resign
    | Clear
    | SetSize(size: BoardSize)

  /**
   * Which cell computation the command loop uses: the source's own, or the checked
   * one that refuses every point outside the grid.
   */
  datatype Indexing = AsWritten | Checked

  /** The cell of `p` under the chosen computation. */
  function CellOf(p: Position, size: BoardSize, ix: Indexing): (r: W.Option<nat>)
    ensures ix == Checked ==> (r.Some? <==> p.row < size.ToU16() && p.col < size.ToU16())
    ensures p.col < size.ToU16() ==> r == ToBoardIndex(p, size)
  {
    ToBoardIndexAgrees(p, size);
    match ix
    case AsWritten => ToBoardIndexAsWritten(p, size)
    case Checked => ToBoardIndex(p, size)
  }

  /** The cell of `p`, if any, lies inside the stored cells; the source indexes them unchecked. */
  predicate InStore(p: Position, size: BoardSize, ix: Indexing)
  {
    CellOf(p, size, ix).Some? ==> CellOf(p, size, ix).value < Width(size) * Width(size)
  }

  /** The checked computation always stays inside the stored cells. */
  lemma CheckedInStore(p: Position, size: BoardSize)
    ensures InStore(p, size, Checked)
  {
  }

  /**
   * What the capture step leaves behind: its routine is not part of this model, so
   * the board, ko point and counters it produces are given.
   */
  datatype Captures = Captures(board: seq<State>, ko: W.Option<nat>, blackCaptures: nat, whiteCaptures: nat)

  /** The answer to a message and the game after it. */
  datatype Reply = Reply(result: W.Result<Message>, after: Game)

  /**
   * The `color` stone on cell `i` of `P` has a liberty: its region touches an empty
   * cell (or the cell itself is empty).
   */
  ghost predicate HasLiberty(P: seq<State>, w: nat, color: Color, i: nat)
    requires i < |P|
  {
    Libs(P, w, Comp(P, w, Occupied(color), i)) + (if P[i] == Empty then {i} else {}) != {}
  }

  /**
   * The preconditions of `Apply`: a well-formed game, a point whose cell does not
   * lie past the stored cells, and a capture step that keeps the shape.
   */
  ghost predicate Applicable(s: Game, msg: Message, cap: Captures, ix: Indexing)
  {
    && !msg.Resign?
    && ((msg.Play? || msg.PlaceStone?) ==> s.Valid() && InStore(msg.pos, s.size, ix))
    && (msg.Play? ==> WellBordered(cap.board, Width(s.size)))
  }

  /** Placing a `color` stone at `pos` without the rules: only on an empty cell. */
  function Placing(s: Game, color: Color, pos: Position, ix: Indexing): Reply
    requires s.Valid() && InStore(pos, s.size, ix)
  {
    match CellOf(pos, s.size, ix)
    case None => Reply(W.Err("Intersection is out of bounds for current boardsize"), s)
    case Some(index) =>
      match s.board[index]
      case Empty => Reply(W.Ok(None), s.(board := s.board[index := Occupied(color)]))
      case Occupied(_) => Reply(W.Err("Cannot place stone at occupied intersection"), s)
      case Offboard => Reply(W.Err("Should be impossible how"), s)
  }

  /** The empty board of the game's size, with no ko and no captures. */
  function Cleared(s: Game): Game
  {
    s.(board := Bordered(Width(s.size)), ko := W.None, blackCaptures := 0, whiteCaptures := 0)
  }

  /**
   * The rules applied once a `color` stone stands on cell `index` of `t`: refused as
   * ko when `index` is the ko point (the stone stays); otherwise the capture step's
   * outcome is taken, and the move stands only when the stone's group has a liberty,
   * else the stone is lifted again.
   */
  ghost function Judging(t: Game, color: Color, index: nat, cap: Captures): Reply
    requires index < |cap.board|
  {
    if t.ko == W.Some(index) then
      Reply(W.Err("Placing a stone at this intersection violates the rule of ko"), t)
    else
      var u := t.(board := cap.board, ko := cap.ko,
                  blackCaptures := cap.blackCaptures, whiteCaptures := cap.whiteCaptures);
      if HasLiberty(u.board, Width(t.size), color, index) then
        Reply(W.Ok(None), u.(playerTurn := u.playerTurn.Opposite(), ko := W.None, moveNumber := u.moveNumber + 1))
      else
        Reply(W.Err("Placing a stone at this intersection is suicidal"), u.(board := u.board[index := Empty]))
  }

  /**
   * The reference definition of the command loop on game values, with the points
   * mapped to cells by `ix`: `AsWritten` is the source, `Checked` the intended program.
   */
  ghost function Apply(s: Game, msg: Message, cap: Captures, ix: Indexing): Reply
    requires Applicable(s, msg, cap, ix)
    decreases if msg.Play? || msg.SetSize? then 1 else 0
  {
    match msg
    case None => Reply(W.Ok(None), s)
    case Play(color, pos) =>
      if s.playerTurn != color then Reply(W.Err("Playing this move violates the turn order"), s)
      else
        var placed := Apply(s, PlaceStone(color, pos), cap, ix);
        if placed.result.Err? then placed
        else Judging(placed.after, color, CellOf(pos, s.size, ix).value, cap)
    case PlaceStone(color, pos) => Placing(s, color, pos, ix)
    case Pass => Reply(W.Ok(None), s.(playerTurn := s.playerTurn.Opposite(), moveNumber := s.moveNumber + 1, ko := W.None))
    case Clear => Reply(W.Ok(None), Cleared(s))
    case SetSize(size) => Apply(s.(size := size), Clear, cap, ix)
  }

  /** Applies the capture step's outcome to the board. */
  method AttemptCaptures(b: Board, cap: Captures)
    modifies b
    ensures b.Snap() == old(b.Snap()).(board := cap.board, ko := cap.ko,
                                       blackCaptures := cap.blackCaptures, whiteCaptures := cap.whiteCaptures)
  {
    b.board := cap.board;
    b.ko := cap.ko;
    b.blackCaptures := cap.blackCaptures;
    b.whiteCaptures := cap.whiteCaptures;
  }

  /** The collected liberties of a group are empty exactly when the set of them is. */
  lemma NoLiberties(g: Group)
    ensures |g.liberties| == 0 <==> Elems(g.liberties) == {}
  {
    ElemsShape(g.liberties, 0);
  }

  /** The liberty test on a group found on the captured board decides `Judging`. */
  lemma LibertyTest(t: Game, color: Color, index: nat, cap: Captures, g: Group)
    requires index < |cap.board| && t.ko != W.Some(index)
    requires Elems(g.stones) == Comp(cap.board, Width(t.size), Occupied(color), index)
    requires Elems(g.liberties) == Libs(cap.board, Width(t.size), Elems(g.stones))
                                   + (if cap.board[index] == Empty then {index} else {})
    ensures var u := t.(board := cap.board, ko := cap.ko,
                        blackCaptures := cap.blackCaptures, whiteCaptures := cap.whiteCaptures);
      Judging(t, color, index, cap)
      == if |g.liberties| != 0
         then Reply(W.Ok(None), u.(playerTurn := u.playerTurn.Opposite(), ko := W.None, moveNumber := u.moveNumber + 1))
         else Reply(W.Err("Placing a stone at this intersection is suicidal"), u.(board := u.board[index := Empty]))
  {
    NoLiberties(g);
  }

  /** Applies the rules to the `color` stone just placed on cell `index`, as `Judging` does. */
  method Judge(b: Board, color: Color, index: nat, cap: Captures) returns (r: W.Result<Message>)
    modifies b
    requires WellBordered(cap.board, Width(b.size)) && index < |cap.board|
    ensures Reply(r, b.Snap()) == Judging(old(b.Snap()), color, index, cap)
  {
    if b.ko.None? || b.ko.value != index {
      ghost var t := b.Snap();
      AttemptCaptures(b, cap);
      var g := FindGroup(index, color, b.board, b.size);
      LibertyTest(t, color, index, cap, g);
      if |g.liberties| != 0 {
        b.playerTurn := b.playerTurn.Opposite();
        b.ko := W.None;
        b.moveNumber := b.moveNumber + 1;
        r := W.Ok(None);
      } else {
        b.board := b.board[index := Empty];
        r := W.Err("Placing a stone at this intersection is suicidal");
      }
    } else {
      r := W.Err("Placing a stone at this intersection violates the rule of ko");
    }
  }

  /**
   * Updates the board according to `msg`, answering with the next message or the
   * reason it was refused; the board and the answer are those of `Apply` with the
   * source's own cell computation.
   */
  method Update(b: Board, msg: Message, cap: Captures) returns (r: W.Result<Message>)
    modifies b
    requires Applicable(b.Snap(), msg, cap, AsWritten)
    ensures Reply(r, b.Snap()) == Apply(old(b.Snap()), msg, cap, AsWritten)
    decreases if msg.Play? || msg.SetSize? then 1 else 0
  {
    match msg
    case None =>
      r := W.Ok(None);
    case Play(color, pos) =>
      if b.playerTurn == color {
        r := Update(b, PlaceStone(color, pos), cap);
        if r.Ok? {
          var index := ToBoardIndexAsWritten(pos, b.size).value;
          r := Judge(b, color, index, cap);
        }
      } else {
        r := W.Err("Playing this move violates the turn order");
      }
    case PlaceStone(color, pos) =>
      var index := ToBoardIndexAsWritten(pos, b.size);
      if index.Some? {
        match b.board[index.value]
        case Empty =>
          b.board := b.board[index.value := Occupied(color)];
          r := W.Ok(None);
        case Occupied(_) =>
          r := W.Err("Cannot place stone at occupied intersection");
        case Offboard =>
          r := W.Err("Should be impossible how");
      } else {
        r := W.Err("Intersection is out of bounds for current boardsize");
      }
    case Pass =>
      b.playerTurn := b.playerTurn.Opposite();
      b.moveNumber := b.moveNumber + 1;
      b.ko := W.None;
      r := W.Ok(None);
    case Clear =>
      b.board := InitBoard(b.size);
      b.ko := W.None;
      b.blackCaptures := 0;
      b.whiteCaptures := 0;
      r := W.Ok(None);
    case SetSize(size) =>
      b.size := size;
      r := Update(b, Clear, cap);
  }

  /**
   * Placing a stone succeeds exactly when the point has a cell and the cell is empty,
   * and then changes only that cell; a refused placement changes nothing. The
   * out-of-bounds answer comes exactly when the point has no cell, and the
   * "impossible" answer exactly when its cell is on the ring, which the checked
   * computation never gives.
   */
  lemma PlaceStoneEffect(s: Game, color: Color, pos: Position, cap: Captures, ix: Indexing)
    requires s.Valid() && InStore(pos, s.size, ix)
    ensures var r, index := Apply(s, PlaceStone(color, pos), cap, ix), CellOf(pos, s.size, ix);
      && (r.result.Ok? <==> index.Some? && s.board[index.value] == Empty)
      && (r.result.Ok? ==> r.after == s.(board := s.board[index.value := Occupied(color)]))
      && (r.result.Err? ==> r.after == s)
      && (r.result == W.Err("Intersection is out of bounds for current boardsize") <==> index.None?)
      && (r.result == W.Err("Should be impossible how") <==> index.Some? && OnRing(index.value, Width(s.size)))
      && (ix == Checked ==> r.result != W.Err("Should be impossible how"))
      && r.after.Valid()
  {
    assert Apply(s, PlaceStone(color, pos), cap, ix) == Placing(s, color, pos, ix);
    PlacingEffect(s, color, pos, ix);
  }

  /** `PlaceStoneEffect` for the placing step on its own. */
  lemma PlacingEffect(s: Game, color: Color, pos: Position, ix: Indexing)
    requires s.Valid() && InStore(pos, s.size, ix)
    ensures var r, index := Placing(s, color, pos, ix), CellOf(pos, s.size, ix);
      && (r.result.Ok? <==> index.Some? && s.board[index.value] == Empty)
      && (r.result.Ok? ==> r.after == s.(board := s.board[index.value := Occupied(color)]))
      && (r.result.Err? ==> r.after == s)
      && (r.result == W.Err("Intersection is out of bounds for current boardsize") <==> index.None?)
      && (r.result == W.Err("Should be impossible how") <==> index.Some? && OnRing(index.value, Width(s.size)))
      && (ix == Checked ==> r.result != W.Err("Should be impossible how"))
      && r.after.Valid()
  {
    var outOfBounds, occupied, impossible :=
      "Intersection is out of bounds for current boardsize", "Cannot place stone at occupied intersection", "Should be impossible how";
    assert |outOfBounds| == 51 && |occupied| == 43 && |impossible| == 24;
    match CellOf(pos, s.size, ix)
    case None =>
    case Some(index) =>
      var w := Width(s.size);
      assert s.board[index] == Offboard <==> OnRing(index, w);
      match s.board[index]
      case Empty => SetKeepsBordered(s.board, w, index, Occupied(color));
      case Occupied(_) =>
      case Offboard =>
  }

  /**
   * On the 9x9 board the source places a stone for row 1, column 11 on the cell of
   * row 0, column 0, and answers "impossible" for row 0, column 9; the checked
   * computation refuses both as out of bounds. Row 0, column 80 lies past the stored
   * cells, where the source's indexing fails.
   */
  lemma PlaceStoneAsWrittenFlaws(color: Color)
    ensures var s := Game(Nine, Bordered(11), W.None, 0, 0, Black, 0);
      && Apply(s, PlaceStone(color, Position(1, 11)), Captures([], W.None, 0, 0), AsWritten)
         == Apply(s, PlaceStone(color, Position(0, 0)), Captures([], W.None, 0, 0), AsWritten)
         == Reply(W.Ok(None), s.(board := Bordered(11)[100 := Occupied(color)]))
      && Apply(s, PlaceStone(color, Position(0, 9)), Captures([], W.None, 0, 0), AsWritten).result
         == W.Err("Should be impossible how")
      && Apply(s, PlaceStone(color, Position(1, 11)), Captures([], W.None, 0, 0), Checked).result
         == Apply(s, PlaceStone(color, Position(0, 9)), Captures([], W.None, 0, 0), Checked).result
         == W.Err("Intersection is out of bounds for current boardsize")
      && !InStore(Position(0, 80), Nine, AsWritten)
  {
    BorderedIsWellBordered(11);
    ToBoardIndexAsWrittenFlaws();
    assert !OnRing(100, 11);
  }

  /**
   * A move is accepted exactly when it is the mover's turn, the point's cell is empty
   * and not the ko point, and after the capture step the new stone's group has a
   * liberty; an accepted move takes the captured board, clears the ko point, hands
   * the turn over and counts one move.
   */
  lemma PlayEffect(s: Game, color: Color, pos: Position, cap: Captures, ix: Indexing)
    requires s.Valid() && InStore(pos, s.size, ix) && WellBordered(cap.board, Width(s.size))
    ensures var r, index := Apply(s, Play(color, pos), cap, ix), CellOf(pos, s.size, ix);
      && (r.result.Ok? <==>
            && color == s.playerTurn && index.Some? && s.board[index.value] == Empty
            && s.ko != W.Some(index.value)
            && HasLiberty(cap.board, Width(s.size), color, index.value))
      && (r.result.Ok? ==>
            r.after == s.(board := cap.board, ko := W.None, blackCaptures := cap.blackCaptures,
                          whiteCaptures := cap.whiteCaptures, playerTurn := color.Opposite(),
                          moveNumber := s.moveNumber + 1))
      && (color != s.playerTurn ==> r == Reply(W.Err("Playing this move violates the turn order"), s))
      && (r.result.Err? ==> r.after.playerTurn == s.playerTurn && r.after.moveNumber == s.moveNumber)
      && r.after.Valid() && r.after.size == s.size
  {
    var index := CellOf(pos, s.size, ix);
    PlaceStoneEffect(s, color, pos, cap, ix);
    if color == s.playerTurn && index.Some? && s.board[index.value] == Empty && s.ko != W.Some(index.value) {
      assert cap.board[index.value] != Offboard;
      SetKeepsBordered(cap.board, Width(s.size), index.value, Empty);
    }
  }

  /**
   * A move in turn that cannot be placed (no cell, an occupied cell or a ring cell) is
   * refused with the placing step's own error, and the game is left as it was.
   */
  lemma PlayRefusedAtPlacing(s: Game, color: Color, pos: Position, cap: Captures, ix: Indexing)
    requires s.Valid() && InStore(pos, s.size, ix) && WellBordered(cap.board, Width(s.size))
    ensures var index := CellOf(pos, s.size, ix);
      color == s.playerTurn && !(index.Some? && s.board[index.value] == Empty) ==>
        && Apply(s, Play(color, pos), cap, ix) == Apply(s, PlaceStone(color, pos), cap, ix)
        && Apply(s, Play(color, pos), cap, ix).result.Err?
        && Apply(s, Play(color, pos), cap, ix).after == s
  {
    PlaceStoneEffect(s, color, pos, cap, ix);
  }

  /**
   * A move on the ko point is refused, yet the stone placed before the ko test stays
   * on the board: only the turn, the move count, the ko point and the counters are kept.
   */
  lemma PlayOnKoKeepsStone(s: Game, color: Color, pos: Position, cap: Captures, ix: Indexing)
    requires s.Valid() && InStore(pos, s.size, ix) && WellBordered(cap.board, Width(s.size))
    requires color == s.playerTurn && CellOf(pos, s.size, ix).Some?
    requires s.board[CellOf(pos, s.size, ix).value] == Empty && s.ko == CellOf(pos, s.size, ix)
    ensures var r := Apply(s, Play(color, pos), cap, ix);
      && r.result == W.Err("Placing a stone at this intersection violates the rule of ko")
      && r.after == s.(board := s.board[s.ko.value := Occupied(color)])
  {
    PlaceStoneEffect(s, color, pos, cap, ix);
  }

  /**
   * A suicidal move is refused and its stone lifted, but the rest of the capture
   * step's outcome is kept; the turn and the move count stay.
   */
  lemma PlaySuicide(s: Game, color: Color, pos: Position, cap: Captures, ix: Indexing)
    requires s.Valid() && InStore(pos, s.size, ix) && WellBordered(cap.board, Width(s.size))
    requires color == s.playerTurn && CellOf(pos, s.size, ix).Some?
    requires var index := CellOf(pos, s.size, ix).value;
      s.board[index] == Empty && s.ko != W.Some(index) && !HasLiberty(cap.board, Width(s.size), color, index)
    ensures var r, index := Apply(s, Play(color, pos), cap, ix), CellOf(pos, s.size, ix).value;
      && r.result == W.Err("Placing a stone at this intersection is suicidal")
      && r.after == s.(board := cap.board[index := Empty], ko := cap.ko, blackCaptures := cap.blackCaptures,
                       whiteCaptures := cap.whiteCaptures)
      && r.after.board[index] == Empty
  {
    PlaceStoneEffect(s, color, pos, cap, ix);
  }

  /**
   * Whatever the message, a refused one neither hands the turn over nor counts a move
   * nor resizes the board, and a refused message other than a move changes nothing at
   * all; the empty message changes nothing; every message keeps the board well-formed.
   */
  lemma ApplyKeepsGame(s: Game, msg: Message, cap: Captures, ix: Indexing)
    requires Applicable(s, msg, cap, ix) && s.Valid()
    ensures var r := Apply(s, msg, cap, ix);
      && r.after.Valid()
      && (r.result.Err? ==> r.after.playerTurn == s.playerTurn && r.after.moveNumber == s.moveNumber
                            && r.after.size == s.size)
      && (r.result.Err? && !msg.Play? ==> r.after == s)
      && (msg.None? ==> r == Reply(W.Ok(None), s))
      && (r.result.Ok? && (msg.Play? || msg.Pass?) ==>
            r.after.playerTurn == s.playerTurn.Opposite() && r.after.moveNumber == s.moveNumber + 1)
  {
    match msg
    case Play(color, pos) => PlayEffect(s, color, pos, cap, ix);
    case PlaceStone(color, pos) => PlaceStoneEffect(s, color, pos, cap, ix);
    case Clear => BorderedIsWellBordered(Width(s.size));
    case SetSize(size) => BorderedIsWellBordered(Width(size));
    case _ =>
  }

  /**
   * Clearing gives the empty board of the game's size, with no ko and no captures,
   * and keeps the turn and the move count; clearing twice is clearing once.
   */
  lemma ClearEffect(s: Game, cap: Captures, ix: Indexing)
    ensures var r := Apply(s, Clear, cap, ix);
      && r.result == W.Ok(None) && r.after.Valid()
      && r.after.board == Bordered(Width(s.size)) && |r.after.board| == Width(s.size) * Width(s.size)
      && r.after.ko == W.None && r.after.blackCaptures == 0 && r.after.whiteCaptures == 0
      && r.after.size == s.size && r.after.playerTurn == s.playerTurn && r.after.moveNumber == s.moveNumber
      && Apply(r.after, Clear, cap, ix) == r
  {
    BorderedIsWellBordered(Width(s.size));
  }

  /** Resizing is clearing on the new size: an empty well-formed board of that size. */
  lemma SetSizeEffect(s: Game, size: BoardSize, cap: Captures, ix: Indexing)
    ensures var r := Apply(s, SetSize(size), cap, ix);
      && r == Apply(s.(size := size), Clear, cap, ix)
      && r.after.size == size && r.after.Valid()
      && |r.after.board| == (size.ToU16() + 2) * (size.ToU16() + 2)
      && r.after.playerTurn == s.playerTurn && r.after.moveNumber == s.moveNumber
  {
    ClearEffect(s.(size := size), cap, ix);
  }

  /** Passing twice gives the turn back, counts two moves and leaves no ko point. */
  lemma PassTwice(s: Game, cap: Captures, ix: Indexing)
    ensures var r1 := Apply(s, Pass, cap, ix); var r2 := Apply(r1.after, Pass, cap, ix);
      && r1.result == r2.result == W.Ok(None)
      && r2.after == s.(moveNumber := s.moveNumber + 2, ko := W.None)
  {
    OppositeInvolution(s.playerTurn);
  }
}
