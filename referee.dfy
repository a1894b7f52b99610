/** The decision at the end of a round in `Game.start`: the higher roll
    wins, equal rolls tie. */
module Referee {

  datatype Outcome = PlayerWins | ComputerWins | Tie

  /** Outcome of a round in which the player rolled `playerRoll` and the
      computer rolled `computerRoll`. */
  function Decide(playerRoll: int, computerRoll: int): (o: Outcome)
    ensures o == PlayerWins <==> playerRoll > computerRoll
    ensures o == ComputerWins <==> computerRoll > playerRoll
    ensures o == Tie <==> playerRoll == computerRoll
  {
    if playerRoll > computerRoll then PlayerWins
    else if computerRoll > playerRoll then ComputerWins
    else Tie
  }

  /** The same outcome seen with the two parties' roles exchanged. */
  function Mirror(o: Outcome): (m: Outcome)
    ensures (m == Tie) == (o == Tie)
    ensures m != o || o == Tie
  {
    match o
    case PlayerWins => ComputerWins
    case ComputerWins => PlayerWins
    case Tie => Tie
  }

  /** Exchanging the two rolls exchanges winner and loser and keeps a tie. */
  lemma DecideSwapped(x: int, y: int)
    ensures Decide(y, x) == Mirror(Decide(x, y))
    ensures Mirror(Mirror(Decide(x, y))) == Decide(x, y)
  {
  }
}
