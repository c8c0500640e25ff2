/**
 * Stone colours, intersection states and board sizes. Both drafts of the engine
 * declare the same three enumerations; they are declared once here.
 */
module Stones {
  import opened Wrappers

  /** The colour of a stone. */
  datatype Color = Black | White {

    /** The other colour. */
    function Opposite(): (r: Color)
      ensures r != this
    {
      match this
      case White => Black
      case Black => White
    }
  }

  /** `Opposite` is an involution. */
  lemma OppositeInvolution(c: Color)
    ensures c.Opposite().Opposite() == c
  {
  }

  /** What an intersection of the flat board holds; `Offboard` marks the sentinel ring. */
  datatype State = Empty | Occupied(color: Color) | Offboard

  /** The supported board sizes. */
  datatype BoardSize = Nine | Thirteen | Nineteen {

    /** The number of playable lines of this size. */
    function ToU16(): nat
    {
      match this
      case Nine => 9
      case Thirteen => 13
      case Nineteen => 19
    }
  }

  /** The board size with `n` lines, if it is one of the supported ones. */
  function BoardSizeFromU16(n: int): (r: Option<BoardSize>)
    ensures r.Some? <==> n == 9 || n == 13 || n == 19
    ensures r.Some? ==> r.value.ToU16() == n
  {
    match n
    case 9 => Some(Nine)
    case 13 => Some(Thirteen)
    case 19 => Some(Nineteen)
    case _ => None
  }

  /** `BoardSizeFromU16` inverts `ToU16`, and `ToU16` takes no other values. */
  lemma BoardSizeRoundTrip(size: BoardSize)
    ensures BoardSizeFromU16(size.ToU16()) == Some(size)
    ensures 9 <= size.ToU16() <= 19
  {
  }
}
