/** Dice and their validation: the `Dice` class and `DiceParser.parseDice`.
    Faces arrive already parsed to integers; turning text into numbers is
    not part of this model. */
module Dice {

  /** A die: its face values in input order; they may repeat and need not be sorted. */
  datatype Die = Die(values: seq<int>)

  /** The two ways building the dice can fail. */
  datatype DiceError = EmptyFaces | TooFewDice

  datatype Result<T> = Ok(value: T) | Err(error: DiceError)

  /** Fewest dice a game accepts. */
  const MinDice: nat := 3

  predicate ValidDie(d: Die) {
    |d.values| >= 1
  }

  predicate AllValid(dice: seq<Die>) {
    forall k :: 0 <= k < |dice| ==> ValidDie(dice[k])
  }

  /** The `Dice` constructor: a face list with no entries is refused,
      any other one is kept exactly as given. */
  function NewDie(values: seq<int>): (r: Result<Die>)
    ensures r.Err? <==> values == []
    ensures r.Err? ==> r.error == EmptyFaces
    ensures r.Ok? ==> r.value.values == values && ValidDie(r.value)
  {
    if |values| < 1 then Err(EmptyFaces) else Ok(Die(values))
  }

  /** `Dice.roll` with the random index supplied by the caller:
      whatever index is drawn, the result is one of the die's faces. */
  function Roll(d: Die, index: nat): (v: int)
    requires index < |d.values|
    ensures v in d.values
  {
    d.values[index]
  }

  /** The `map` inside `parseDice`: one die per entry, in order; the first
      entry with no faces aborts the whole construction. */
  function BuildDice(args: seq<seq<int>>): (r: Result<seq<Die>>)
    ensures r.Err? <==> exists k :: 0 <= k < |args| && args[k] == []
    ensures r.Err? ==> r.error == EmptyFaces
    ensures r.Ok? ==> |r.value| == |args| && AllValid(r.value)
    ensures r.Ok? ==> forall k :: 0 <= k < |args| ==> r.value[k].values == args[k]
  {
    if |args| == 0 then Ok([])
    else
      match NewDie(args[0])
      case Err(e) => Err(e)
      case Ok(d) =>
        match BuildDice(args[1..])
        case Err(e) => Err(e)
        case Ok(rest) =>
          assert forall k :: 1 <= k < |args| ==> args[k] == args[1..][k - 1];
          Ok([d] + rest)
  }

  /** `DiceParser.parseDice` over already-split integer lists: fewer than
      three dice is refused before any die is looked at; otherwise every
      entry becomes one die, in input order. */
  function ParseDice(args: seq<seq<int>>): (r: Result<seq<Die>>)
    ensures (r.Err? && r.error == TooFewDice) <==> |args| < MinDice
    ensures (r.Err? && r.error == EmptyFaces) <==>
              |args| >= MinDice && exists k :: 0 <= k < |args| && args[k] == []
    ensures r.Ok? ==> |r.value| == |args| >= MinDice && AllValid(r.value)
    ensures r.Ok? ==> forall k :: 0 <= k < |args| ==> r.value[k].values == args[k]
  {
    if |args| < MinDice then Err(TooFewDice) else BuildDice(args)
  }
}
