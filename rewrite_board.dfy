/**
 * The board of the rewritten engine: the bordered cell vector built by `init_board`,
 * the `Board` record that the command loop updates in place, and the text rendering
 * of a board (`.` for an empty point, `X` and `0` for black and white stones).
 */
module RewriteBoard {
  import opened Wrappers
  import opened Stones
  import opened Grid

  /**
   * Builds the cell vector of an empty board of `size`, one cell at a time: the
   * first and last stored rows and the first and last cell of every row are
   * `Offboard`, every other cell is `Empty`.
   */
  method InitBoard(size: BoardSize) returns (board: seq<State>)
    ensures board == Bordered(Width(size))
  {
    board := [];
    var rowLen := size.ToU16() + 2;
    for i := 0 to rowLen * rowLen
      invariant |board| == i
      invariant forall j :: 0 <= j < i ==> board[j] == Bordered(rowLen)[j]
    {
      if i / rowLen == 0 || i / rowLen == rowLen - 1 {
        board := board + [Offboard];
      } else if i % rowLen == rowLen - 1 || i % rowLen == 0 {
        board := board + [Offboard];
      } else {
        board := board + [Empty];
      }
    }
  }

  /** The fields of a board, as one value. */
  datatype Game = Game(size: BoardSize, board: seq<State>, ko: Option<nat>,
                       blackCaptures: nat, whiteCaptures: nat, playerTurn: Color, moveNumber: nat)
  {
    /** The cells have the bordered shape of the board's size. */
    ghost predicate Valid()
    {
      WellBordered(board, Width(size))
    }
  }

  /**
   * A game board. The command loop mutates its fields in place; `playerTurn` and
   * `moveNumber` are the fields that loop reads and writes besides the declared ones.
   */
  class Board {
    var size: BoardSize
    var board: seq<State>
    var ko: Option<nat>
    var blackCaptures: nat
    var whiteCaptures: nat
    var playerTurn: Color
    var moveNumber: nat

    /** The current fields, as one value. */
    function Snap(): Game
      reads this
    {
      Game(size, board, ko, blackCaptures, whiteCaptures, playerTurn, moveNumber)
    }

    /** The cells have the bordered shape of the board's size. */
    ghost predicate Valid()
      reads this
    {
      Snap().Valid()
    }

    /** A new empty 19x19 board: no ko, no captures, black to move at move 0. */
    constructor ()
      ensures Valid()
      ensures Snap() == Game(Nineteen, Bordered(21), None, 0, 0, Black, 0)
    {
      var cells := InitBoard(Nineteen);
      size := Nineteen;
      board := cells;
      ko := None;
      blackCaptures := 0;
      whiteCaptures := 0;
      playerTurn := Black;
      moveNumber := 0;
      new;
      BorderedIsWellBordered(21);
    }
  }

  /** The empty board of every size has the bordered shape, with `(size + 2)^2` cells. */
  lemma InitBoardShape(size: BoardSize)
    ensures WellBordered(Bordered(Width(size)), Width(size))
    ensures |Bordered(Width(size))| == (size.ToU16() + 2) * (size.ToU16() + 2)
  {
    BorderedIsWellBordered(Width(size));
  }

  /** The character a stone is shown as. */
  function ColorChar(c: Color): (ch: char)
    ensures ch == 'X' || ch == '0'
  {
    match c
    case Black => 'X'
    case White => '0'
  }

  /** The text of one cell: nothing for an `Offboard` cell. */
  function CellText(s: State): (t: string)
    ensures |t| == if s == Offboard then 0 else 1
  {
    match s
    case Empty => "."
    case Occupied(c) => [ColorChar(c)]
    case Offboard => ""
  }

  /** The texts of the cells of `P`, in order, folded into one line. */
  function LineRender(P: seq<State>): string
  {
    if |P| == 0 then "" else LineRender(P[..|P| - 1]) + CellText(P[|P| - 1])
  }

  /** The cells of `P` that are on the board, in order. */
  function OnBoardCells(P: seq<State>): (Q: seq<State>)
    ensures |Q| <= |P| && Offboard !in Q
  {
    if |P| == 0 then []
    else if P[|P| - 1] == Offboard then OnBoardCells(P[..|P| - 1])
    else OnBoardCells(P[..|P| - 1]) + [P[|P| - 1]]
  }

  /** The cell a rendered character stands for; any other character reads as `Offboard`. */
  function CellOf(ch: char): State
  {
    match ch
    case '.' => Empty
    case 'X' => Occupied(Black)
    case '0' => Occupied(White)
    case _ => Offboard
  }

  /** Reads a rendered line back, one cell per character. */
  function ParseLine(s: string): (P: seq<State>)
    ensures |P| == |s|
  {
    if |s| == 0 then [] else ParseLine(s[..|s| - 1]) + [CellOf(s[|s| - 1])]
  }

  /** Reading a cell's rendered character back gives the cell. */
  lemma CellRoundTrip(s: State)
    requires s != Offboard
    ensures CellOf(CellText(s)[0]) == s
  {
  }

  /** Rendering a line of cells and reading it back gives the cells on the board, in order. */
  lemma {:induction false} LineRoundTrip(P: seq<State>)
    ensures ParseLine(LineRender(P)) == OnBoardCells(P)
    ensures |LineRender(P)| == |OnBoardCells(P)|
  {
    if |P| > 0 {
      var Q, s := P[..|P| - 1], P[|P| - 1];
      LineRoundTrip(Q);
      var L := LineRender(Q);
      if s != Offboard {
        CellRoundTrip(s);
        var t := CellText(s);
        assert (L + t)[..|L + t| - 1] == L;
        assert ParseLine(L + t) == ParseLine(L) + [CellOf(t[0])];
      } else {
        assert LineRender(P) == L;
      }
    }
  }

  /** Rendering distributes over concatenation of cell sequences. */
  lemma {:induction false} LineRenderAppend(A: seq<State>, B: seq<State>)
    ensures LineRender(A + B) == LineRender(A) + LineRender(B)
  {
    if |B| > 0 {
      var B' := B[..|B| - 1];
      assert (A + B)[..|A + B| - 1] == A + B';
      LineRenderAppend(A, B');
    } else {
      assert A + B == A;
    }
  }

  /**
   * The first stage of the rendering: a newline is put before every `n`-th
   * character after the first.
   */
  function Breaks(line: string, n: nat, i: nat): (s: string)
    requires n > 0 && i <= |line|
    decreases |line| - i
  {
    if i == |line| then ""
    else (if i != 0 && i % n == 0 then "\n" else "") + [line[i]] + Breaks(line, n, i + 1)
  }

  /** The second stage: every character is prefixed with a space. */
  function Spaced(s: string): (r: string)
    ensures |r| == 2 * |s|
  {
    if |s| == 0 then "" else [' ', s[0]] + Spaced(s[1..])
  }

  /**
   * The rendering of a board of `size` with cells `P`. It can be read back: dropping
   * its spaces and newlines and parsing the rest gives the on-board cells of the
   * board, in order.
   */
  function Render(P: seq<State>, size: BoardSize): (r: string)
    ensures ParseLine(Unbroken(Unspaced(r))) == OnBoardCells(P)
  {
    var line := LineRender(P);
    SpacedRoundTrip(Breaks(line, size.ToU16(), 0));
    LineHasNoNewline(P);
    BreaksRoundTrip(line, size.ToU16(), 0);
    assert line[0..] == line;
    LineRoundTrip(P);
    Spaced(Breaks(line, size.ToU16(), 0))
  }

  /** The characters after the spaces: undoes `Spaced`. */
  function Unspaced(r: string): string
  {
    if |r| < 2 then "" else [r[1]] + Unspaced(r[2..])
  }

  /** `s` without its newlines: undoes `Breaks`. */
  function Unbroken(s: string): string
  {
    if |s| == 0 then "" else (if s[0] == '\n' then "" else [s[0]]) + Unbroken(s[1..])
  }

  /** Each character of a spaced string follows a space. */
  lemma {:induction false} SpacedChars(s: string, j: nat)
    requires j < |s|
    ensures Spaced(s)[2 * j] == ' ' && Spaced(s)[2 * j + 1] == s[j]
  {
    var head, tail := [' ', s[0]], Spaced(s[1..]);
    assert Spaced(s) == head + tail;
    if j > 0 {
      SpacedChars(s[1..], j - 1);
      var k := 2 * (j - 1);
      assert 2 * j == k + 2 && |head| == 2;
    }
  }

  /**
   * A row of the rendering: the characters of the line from the start `i` of the
   * `q`-th run of `n` up to at most `n` further stay together, with a newline before them unless they
   * come first.
   */
  lemma BreaksRow(line: string, n: nat, q: nat, i: nat, j: nat)
    requires n > 0 && i == q * n && i < j <= |line| && j <= i + n
    ensures Breaks(line, n, i) == (if i != 0 then "\n" else "") + line[i..j] + Breaks(line, n, j)
  {
    DivModOf(q, 0, n);
    BreaksRowTail(line, n, q, i, i + 1, j);
    assert [line[i]] + line[i + 1..j] == line[i..j];
  }

  /** Inside a row no newline is put: the line from `k` up to the row's end `j` is copied. */
  lemma {:induction false} BreaksRowTail(line: string, n: nat, q: nat, i: nat, k: nat, j: nat)
    requires n > 0 && i == q * n && i < k <= j <= |line| && j <= i + n
    ensures Breaks(line, n, k) == line[k..j] + Breaks(line, n, j)
    decreases j - k
  {
    if k < j {
      BreaksRowTail(line, n, q, i, k + 1, j);
      DivModOf(q, k - i, n);
      assert k % n != 0;
      assert [line[k]] + line[k + 1..j] == line[k..j];
    }
  }

  /** Dropping the spaces of a spaced string gives it back. */
  lemma {:induction false} SpacedRoundTrip(s: string)
    ensures Unspaced(Spaced(s)) == s
  {
    if |s| > 0 {
      SpacedRoundTrip(s[1..]);
      var r := Spaced(s);
      assert r[2..] == Spaced(s[1..]);
    }
  }

  /** Dropping the newlines of the broken line gives back the line from `i`, when it has none. */
  lemma {:induction false} BreaksRoundTrip(line: string, n: nat, i: nat)
    requires n > 0 && i <= |line| && '\n' !in line
    ensures Unbroken(Breaks(line, n, i)) == line[i..]
    decreases |line| - i
  {
    if i < |line| {
      BreaksRoundTrip(line, n, i + 1);
      var tail := [line[i]] + Breaks(line, n, i + 1);
      assert line[i] != '\n';
      assert tail[1..] == Breaks(line, n, i + 1);
      assert Unbroken(tail) == [line[i]] + line[i + 1..];
      if i != 0 && i % n == 0 {
        var s := "\n" + tail;
        assert s[1..] == tail;
      }
      assert [line[i]] + line[i + 1..] == line[i..];
    }
  }

  /** No rendered line holds a newline. */
  lemma {:induction false} LineHasNoNewline(P: seq<State>)
    ensures '\n' !in LineRender(P)
  {
    if |P| > 0 {
      LineHasNoNewline(P[..|P| - 1]);
    }
  }
}
