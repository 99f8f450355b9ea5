/** The four values a board cell, a side or a game result can take. */
module Players {

  /** `Agent` and `Human` are the two sides. As a cell, `Invalid` lies off the board and `Vacant` is
      an empty place; as a result, `Invalid` is a game still running and `Vacant` is a draw. */
  datatype Player = Invalid | Agent | Vacant | Human {

    predicate Occupied() {
      Agent? || Human?
    }

    /** The other side. `Vacant` is its own opponent; negating `Invalid` names no player at all. */
    function Opponent(): (p: Player)
      requires !Invalid?
      ensures !p.Invalid? && p.Occupied() == Occupied() && (Occupied() ==> p != this)
    {
      match this
      case Agent => Human
      case Human => Agent
      case Vacant => Vacant
    }
  }
}
