/**
 * Value types of the deprecated engine: column letters, intersections in Go
 * notation, their mapping to and from indices of the flat bordered board, the
 * textual forms the command layer parses, and checked index arithmetic.
 */
module LegacyTypes {
  import opened Wrappers
  import opened Stones
  import opened Grid

  /** The range of a Rust `u16`. */
  type U16 = n: int | 0 <= n < 0x1_0000

  /** Column letters of Go notation; `I` is skipped by convention. */
  datatype Column = A | B | C | D | E | F | G | H | J | K | L | M | N | O | P | Q | R | S | T {

    /** The zero-based column index. */
    function ToU16(): (r: nat)
      ensures r < 19
    {
      match this
      case A => 0 case B => 1 case C => 2 case D => 3 case E => 4
      case F => 5 case G => 6 case H => 7 case J => 8 case K => 9
      case L => 10 case M => 11 case N => 12 case O => 13 case P => 14
      case Q => 15 case R => 16 case S => 17 case T => 18
    }

    /** The letter that displays this column. */
    function Letter(): (r: char)
      ensures 'A' <= r <= 'T' && r != 'I'
    {
      match this
      case A => 'A' case B => 'B' case C => 'C' case D => 'D' case E => 'E'
      case F => 'F' case G => 'G' case H => 'H' case J => 'J' case K => 'K'
      case L => 'L' case M => 'M' case N => 'N' case O => 'O' case P => 'P'
      case Q => 'Q' case R => 'R' case S => 'S' case T => 'T'
    }
  }

  /** The column with zero-based index `n`, if there is one. */
  function ColumnFromU16(n: int): (r: Option<Column>)
    ensures r.Some? <==> 0 <= n < 19
    ensures r.Some? ==> r.value.ToU16() == n
  {
    match n
    case 0 => Some(A) case 1 => Some(B) case 2 => Some(C) case 3 => Some(D)
    case 4 => Some(E) case 5 => Some(F) case 6 => Some(G) case 7 => Some(H)
    case 8 => Some(J) case 9 => Some(K) case 10 => Some(L) case 11 => Some(M)
    case 12 => Some(N) case 13 => Some(O) case 14 => Some(P) case 15 => Some(Q)
    case 16 => Some(R) case 17 => Some(S) case 18 => Some(T)
    case _ => None
  }

  /** `ColumnFromU16` inverts `ToU16`. */
  lemma ColumnRoundTrip(c: Column)
    ensures ColumnFromU16(c.ToU16()) == Some(c)
  {
  }

  /** ASCII upper-casing of one character. */
  function UpperAscii(ch: char): char
  {
    if 'a' <= ch <= 'z' then (ch as int - 32) as char else ch
  }

  /** ASCII lower-casing of one character. */
  function LowerAscii(ch: char): char
  {
    if 'A' <= ch <= 'Z' then (ch as int + 32) as char else ch
  }

  /**
   * Upper-casing of one character as far as it matters for ASCII letters: Unicode maps
   * the letters `a`-`z`, the long s `U+017F` (to `S`) and the dotless i `U+0131` (to `I`)
   * onto ASCII letters; every other character upper-cases to text with no ASCII letter
   * in it, or to itself, so it is kept.
   */
  function UpperChar(ch: char): char
  {
    if ch == '\U{017F}' then 'S' else if ch == '\U{0131}' then 'I' else UpperAscii(ch)
  }

  /**
   * Lower-casing of one character as far as it matters for ASCII letters: Unicode maps
   * `A`-`Z` and the Kelvin sign `U+212A` (to `k`) onto ASCII letters; every other
   * character lower-cases to itself or to text holding a character that is not an
   * ASCII letter, so it is kept.
   */
  function LowerChar(ch: char): char
  {
    if ch == '\U{212A}' then 'k' else LowerAscii(ch)
  }

  /** Lower-casing of a string, character by character. */
  function LowerString(s: string): (r: string)
    ensures |r| == |s| && forall i :: 0 <= i < |s| ==> r[i] == LowerChar(s[i])
  {
    seq(|s|, i requires 0 <= i < |s| => LowerChar(s[i]))
  }

  /** The column named by the one-letter string `s`, in either case. */
  function ColumnFromString(s: string): (r: Option<Column>)
    ensures forall c: Column :: r == Some(c) <==> |s| == 1 && UpperChar(s[0]) == c.Letter()
  {
    if |s| != 1 then None
    else
      match UpperChar(s[0])
      case 'A' => Some(A) case 'B' => Some(B) case 'C' => Some(C) case 'D' => Some(D)
      case 'E' => Some(E) case 'F' => Some(F) case 'G' => Some(G) case 'H' => Some(H)
      case 'J' => Some(J) case 'K' => Some(K) case 'L' => Some(L) case 'M' => Some(M)
      case 'N' => Some(N) case 'O' => Some(O) case 'P' => Some(P) case 'Q' => Some(Q)
      case 'R' => Some(R) case 'S' => Some(S) case 'T' => Some(T)
      case _ => None
  }

  /** Every column is parsed back from its letter, upper or lower case. */
  lemma ColumnStringRoundTrip(c: Column)
    ensures ColumnFromString([c.Letter()]) == Some(c)
    ensures ColumnFromString([LowerAscii(c.Letter())]) == Some(c)
  {
  }

  /** Upper-casing is Unicode's: the long s names column S, and `I` names no column in any spelling. */
  lemma ColumnFromStringUnicode()
    ensures ColumnFromString("\U{017F}") == Some(S)
    ensures ColumnFromString("I") == ColumnFromString("i") == ColumnFromString("\U{0131}") == None
    ensures ColumnFromString("") == ColumnFromString("AB") == None
  {
  }

  /** An intersection in Go notation: a column letter and a row number (1 is the bottom row). */
  datatype Intersection = Intersection(column: Column, row: U16)

  /**
   * The index of `x` on the flat board of `size`, or `None` when the column or the
   * row is not on that board.
   */
  function ToPositionIndex(x: Intersection, size: BoardSize): (r: Option<nat>)
    ensures r.Some? <==> x.column.ToU16() < size.ToU16() && 1 <= x.row <= size.ToU16()
    ensures r.Some? ==> r.value < Width(size) * Width(size) && !OnRing(r.value, Width(size))
    ensures r.Some? ==> r.value % Width(size) == x.column.ToU16() + 1
    ensures r.Some? ==> r.value / Width(size) == Width(size) - x.row - 1
  {
    var w := Width(size);
    var col := x.column.ToU16();
    if col >= size.ToU16() || x.row > size.ToU16() || x.row == 0 then None
    else
      CellIndex(w - x.row - 1, col + 1, w);
      assert col + (w - x.row - 1) * w + 1 == (w - x.row - 1) * w + (col + 1);
      Some(col + (w - x.row - 1) * w + 1)
  }

  /** The intersection at index `i` of the flat board of `size`, or `None` off the board. */
  function FromPositionIndex(i: int, size: BoardSize): (r: Option<Intersection>)
    requires 0 <= i
    ensures r.None? <==> i >= Width(size) * Width(size) || OnRing(i, Width(size))
  {
    var w := Width(size);
    if i >= w * w then None
    else
      var col := i % w;
      var row := i / w;
      if col == 0 || col == w - 1 || row == 0 || row == w - 1 then None
      else Some(Intersection(ColumnFromU16(col - 1).value, w - row - 1))
  }

  /** Row `q` and column `c` of the interior of a `w`-wide board give the index `q * w + c`. */
  lemma CellIndex(q: int, c: int, w: int)
    requires w >= 3 && 1 <= q <= w - 2 && 1 <= c <= w - 2
    ensures 0 <= q * w + c < w * w
    ensures (q * w + c) / w == q && (q * w + c) % w == c
  {
    DivModOf(q, c, w);
    MulLe(q, w - 2, w);
    assert (w - 2) * w + w == w * w - w;
  }

  /** Every on-board intersection maps to an interior cell of the board, and back to itself. */
  lemma PositionIndexRoundTrip(x: Intersection, size: BoardSize)
    requires ToPositionIndex(x, size).Some?
    ensures var i := ToPositionIndex(x, size).value;
      i < Width(size) * Width(size) && !OnRing(i, Width(size)) && FromPositionIndex(i, size) == Some(x)
  {
    var w := Width(size);
    var col := x.column.ToU16();
    var q := w - x.row - 1;
    CellIndex(q, col + 1, w);
    assert ToPositionIndex(x, size).value == q * w + (col + 1);
    ColumnRoundTrip(x.column);
  }

  /** Every interior cell maps to an on-board intersection, and back to itself. */
  lemma IndexPositionRoundTrip(i: nat, size: BoardSize)
    requires FromPositionIndex(i, size).Some?
    ensures ToPositionIndex(FromPositionIndex(i, size).value, size) == Some(i)
  {
    var x := FromPositionIndex(i, size).value;
    var col, row := FromPositionIndexParts(i, size);
    assert ToPositionIndex(x, size) == Some(col + (Width(size) - row - 1) * Width(size) + 1);
  }

  /** The column and row read back from an interior cell lie on the board and rebuild the cell. */
  lemma FromPositionIndexParts(i: nat, size: BoardSize) returns (col: nat, row: nat)
    requires FromPositionIndex(i, size).Some?
    ensures col == FromPositionIndex(i, size).value.column.ToU16() && col < size.ToU16()
    ensures row == FromPositionIndex(i, size).value.row && 1 <= row <= size.ToU16()
    ensures col + (Width(size) - row - 1) * Width(size) + 1 == i
  {
    var w := Width(size);
    var x := FromPositionIndex(i, size).value;
    col, row := x.column.ToU16(), x.row;
    assert col == i % w - 1 && row == w - i / w - 1;
    Recompose(i, w);
    Recomposed(i, w, col, row);
  }

  /** The cell of column `col` and row `row` counted from the bottom is the cell they were read from. */
  lemma Recomposed(i: int, w: int, col: int, row: int)
    requires w > 0 && (i / w) * w + i % w == i
    requires col == i % w - 1 && row == w - i / w - 1
    ensures col + (w - row - 1) * w + 1 == i
  {
    assert w - row - 1 == i / w;
  }

  /** Euclidean division recomposes its dividend. */
  lemma Recompose(i: int, w: int)
    requires w > 0
    ensures (i / w) * w + i % w == i
  {
  }

  /** The two index conversions are injective on the intersections and cells they accept. */
  lemma PositionIndexInjective(x: Intersection, y: Intersection, size: BoardSize)
    requires ToPositionIndex(x, size).Some? && ToPositionIndex(x, size) == ToPositionIndex(y, size)
    ensures x == y
  {
    PositionIndexRoundTrip(x, size);
    PositionIndexRoundTrip(y, size);
  }

  /** The decimal digit character for `d`. */
  function DigitChar(d: nat): (ch: char)
    requires d < 10
    ensures '0' <= ch <= '9'
  {
    (('0' as int) + d) as char
  }

  /** Every character of `s` is an ASCII decimal digit. */
  predicate AllDigits(s: string)
  {
    forall i :: 0 <= i < |s| ==> '0' <= s[i] <= '9'
  }

  /** The decimal rendering of `n`, without sign or leading zeros. */
  function NatToString(n: nat): (r: string)
    ensures |r| >= 1 && AllDigits(r)
    decreases n
  {
    if n < 10 then [DigitChar(n)] else NatToString(n / 10) + [DigitChar(n % 10)]
  }

  /** The value of a string of decimal digits, most significant first. */
  function DigitsValue(s: string): nat
    requires AllDigits(s)
  {
    if |s| == 0 then 0 else DigitsValue(s[..|s| - 1]) * 10 + (s[|s| - 1] as int - '0' as int)
  }

  /** `DigitsValue` reads back what `NatToString` writes. */
  lemma {:induction false} DigitsValueOfNatToString(n: nat)
    ensures DigitsValue(NatToString(n)) == n
    decreases n
  {
    if n >= 10 {
      var s := NatToString(n);
      assert s[..|s| - 1] == NatToString(n / 10);
      DigitsValueOfNatToString(n / 10);
    }
  }

  /**
   * Parsing of a `u16` the way Rust's `str::parse::<u16>` does it: an optional
   * leading `+`, then one or more decimal digits whose value fits in 16 bits.
   */
  function ParseU16(s: string): (r: Option<U16>)
    ensures r.Some? <==> |Unsigned(s)| >= 1 && AllDigits(Unsigned(s)) && DigitsValue(Unsigned(s)) < 0x1_0000
    ensures r.Some? ==> r.value == DigitsValue(Unsigned(s))
  {
    if |s| == 0 || (s[0] == '+' && |s| == 1) then None
    else
      var digits := if s[0] == '+' then s[1..] else s;
      if !AllDigits(digits) then None
      else
        var v := DigitsValue(digits);
        if v >= 0x1_0000 then None else Some(v)
  }

  /** The digits of a number's text: all of it, or what follows a leading `+`. */
  function Unsigned(s: string): string
  {
    if |s| > 0 && s[0] == '+' then s[1..] else s
  }

  /** A leading zero does not change the value of a string of digits. */
  lemma {:induction false} LeadingZero(s: string)
    requires AllDigits(s)
    ensures AllDigits("0" + s) && DigitsValue("0" + s) == DigitsValue(s)
    decreases |s|
  {
    if |s| > 0 {
      var t := "0" + s;
      assert t[..|t| - 1] == "0" + s[..|s| - 1];
      LeadingZero(s[..|s| - 1]);
    }
  }

  /**
   * Leading zeros are accepted and do not change the number, while a number of
   * 65536 or more, an empty text, a lone `+`, a `-` sign and a non-digit are refused.
   */
  lemma ParseU16Edges(s: string, n: nat)
    requires AllDigits(s) && |s| >= 1
    ensures ParseU16("0" + s) == ParseU16(s)
    ensures n >= 0x1_0000 ==> ParseU16(NatToString(n)) == None
    ensures ParseU16("") == ParseU16("+") == ParseU16("-0") == ParseU16("1a") == None
  {
    LeadingZero(s);
    DigitsValueOfNatToString(n);
    assert "-0"[0] == '-' && "1a"[1] == 'a';
  }

  /** Every `u16` is parsed back from its decimal rendering, with or without a `+` sign. */
  lemma ParseU16RoundTrip(n: U16)
    ensures ParseU16(NatToString(n)) == Some(n)
    ensures ParseU16("+" + NatToString(n)) == Some(n)
  {
    DigitsValueOfNatToString(n);
    assert ("+" + NatToString(n))[1..] == NatToString(n);
  }

  /** The Go notation of an intersection, column letter then row number, e.g. `D4`. */
  function IntersectionToString(x: Intersection): (r: string)
    ensures |r| >= 2 && r[0] == x.column.Letter()
  {
    [x.column.Letter()] + NatToString(x.row)
  }

  /**
   * Parses Go notation: the first character names the column, the rest is the row
   * as a `u16`. Rows off the board are accepted here and rejected by the index mapping.
   */
  function IntersectionFromString(s: string): (r: Option<Intersection>)
    requires |s| == 0 || s[0] < 128 as char
    ensures r.Some? <==> |s| >= 2 && ColumnFromString(s[..1]).Some? && ParseU16(s[1..]).Some?
    ensures r.Some? ==> UpperChar(s[0]) == r.value.column.Letter() && ParseU16(s[1..]) == Some(r.value.row)
  {
    if |s| < 2 then None
    else
      var col := s[..1];
      var row := s[1..];
      if ColumnFromString(col).None? then None
      else if ParseU16(row).None? then None
      else Some(Intersection(ColumnFromString(col).value, ParseU16(row).value))
  }

  /** Displaying an intersection and parsing the text gives the intersection back. */
  lemma IntersectionStringRoundTrip(x: Intersection)
    ensures IntersectionFromString(IntersectionToString(x)) == Some(x)
  {
    var s := IntersectionToString(x);
    assert s[..1] == [x.column.Letter()];
    assert s[1..] == NatToString(x.row);
    ColumnStringRoundTrip(x.column);
    ParseU16RoundTrip(x.row);
  }

  /** `s` spells `name` in any letter case. */
  predicate Spells(s: string, name: string)
  {
    |s| == |name| && forall i :: 0 <= i < |s| ==> LowerChar(s[i]) == name[i]
  }

  /** `s` spells `name` in any letter case exactly when its lower-casing is `name`. */
  lemma SpellsLower(s: string, name: string)
    ensures Spells(s, name) <==> LowerString(s) == name
  {
    if LowerString(s) == name {
      assert forall i :: 0 <= i < |s| ==> LowerChar(s[i]) == LowerString(s)[i];
    }
  }

  /** The colour named by `s`: `b`/`black` or `w`/`white`, in any letter case. */
  function ColorFromString(s: string): (r: Option<Color>)
    ensures r == Some(Black) <==> Spells(s, "b") || Spells(s, "black")
    ensures r == Some(White) <==> Spells(s, "w") || Spells(s, "white")
    ensures r.None? <==> !Spells(s, "b") && !Spells(s, "black") && !Spells(s, "w") && !Spells(s, "white")
  {
    SpellsLower(s, "b");
    SpellsLower(s, "black");
    SpellsLower(s, "w");
    SpellsLower(s, "white");
    var l := LowerString(s);
    if l == "b" || l == "black" then Some(Black)
    else if l == "w" || l == "white" then Some(White)
    else None
  }

  /** Colour names are case-insensitive: strings that agree after lower-casing parse alike. */
  lemma ColorFromStringCaseInsensitive(s: string, t: string)
    requires |s| == |t| && forall i :: 0 <= i < |s| ==> LowerChar(s[i]) == LowerChar(t[i])
    ensures ColorFromString(s) == ColorFromString(t)
  {
    assert LowerString(s) == LowerString(t);
  }

  /**
   * The names of the colours in the cases a user types them, including the Kelvin
   * sign that Unicode lower-cases to `k`; a near miss such as `bxxxx` is refused.
   */
  lemma ColorNames()
    ensures ColorFromString("B") == ColorFromString("Black") == ColorFromString("blac\U{212A}") == Some(Black)
    ensures ColorFromString("w") == ColorFromString("WHITE") == Some(White)
    ensures ColorFromString("bxxxx") == ColorFromString("") == None
  {
    assert Spells("B", "b");
    assert "Black"[0] == 'B' && "Black"[1] == 'l' && "Black"[4] == 'k' && Spells("Black", "black");
    assert "blac\U{212A}"[4] == '\U{212A}' && Spells("blac\U{212A}", "black");
    assert Spells("w", "w");
    assert "WHITE"[0] == 'W' && "WHITE"[4] == 'E' && Spells("WHITE", "white");
    assert "bxxxx"[1] == 'x' && !Spells("bxxxx", "black");
  }

  /** The largest value of a Rust `usize` on a 64-bit target. */
  const UsizeMax: nat := 0xFFFF_FFFF_FFFF_FFFF

  /**
   * Adds the `i16` value `toAdd` to the unsigned `base` of a type whose largest value
   * is `max`, or `None` when the sum leaves `0..max`. The magnitude of a negative
   * `toAdd` is taken with `i16` negation, which wraps for -32768 in a release build;
   * the cast of that negative magnitude into the unsigned type fails, so -32768 is
   * always refused.
   */
  function AddSignedToUnsigned(base: nat, toAdd: int, max: nat): (r: Option<nat>)
    requires base <= max
    requires -0x8000 <= toAdd <= 0x7FFF
    ensures toAdd == -0x8000 ==> r.None?
    ensures toAdd != -0x8000 ==> r == if 0 <= base + toAdd <= max then Some(base + toAdd) else None
  {
    if toAdd >= 0 then
      if max - toAdd < base then None else Some(base + toAdd)
    else
      var magnitude := if toAdd == -0x8000 then toAdd else -toAdd;
      if magnitude < 0 then None
      else if magnitude > base then None else Some(base - magnitude)
  }

  /** A move of the deprecated engine. */
  datatype Move = Pass | PlayAt(at: Intersection, color: Color) | Resign
}
