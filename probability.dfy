/** `ProbabilityCalculator.calculateProbabilities`: for every pair of dice,
    the exact probability that a roll of the first die beats a roll of the
    second, counted over the full cross product of their faces. */
module Probability {
  import opened Dice
  import opened Referee

  /** Number of faces `y` of `b` for which a round with rolls `x` against `y`
      ends in `o`. */
  function CountAgainst(x: int, b: seq<int>, o: Outcome): (n: nat)
    ensures n <= |b|
  {
    if |b| == 0 then 0
    else CountAgainst(x, b[..|b| - 1], o) + (if Decide(x, b[|b| - 1]) == o then 1 else 0)
  }

  /** Number of faces `x` of `a` for which a round with rolls `x` against `y`
      ends in `o` (one column of the cross product). */
  function CountFor(a: seq<int>, y: int, o: Outcome): (n: nat)
    ensures n <= |a|
  {
    if |a| == 0 then 0
    else CountFor(a[..|a| - 1], y, o) + (if Decide(a[|a| - 1], y) == o then 1 else 0)
  }

  /** Number of face pairs `(x, y)` in `a × b` for which a round with
      rolls `x` against `y` ends in `o`. */
  function PairCount(a: seq<int>, b: seq<int>, o: Outcome): (n: nat)
    ensures n <= |a| * |b|
  {
    if |a| == 0 then 0
    else
      assert (|a| - 1) * |b| + |b| == |a| * |b|;
      PairCount(a[..|a| - 1], b, o) + CountAgainst(a[|a| - 1], b, o)
  }

  /** No face value of `a` occurs on `b`, so no pair of rolls can tie. */
  ghost predicate NoCommonFace(a: seq<int>, b: seq<int>) {
    forall x :: x in a ==> x !in b
  }

  /** Every face of `b` is beaten by `x`, beats `x`, or ties with it. */
  lemma {:induction false} CountAgainstPartition(x: int, b: seq<int>)
    ensures CountAgainst(x, b, PlayerWins) + CountAgainst(x, b, ComputerWins)
            + CountAgainst(x, b, Tie) == |b|
  {
    if |b| > 0 {
      CountAgainstPartition(x, b[..|b| - 1]);
    }
  }

  /** Wins, losses and ties together account for the whole cross product. */
  lemma {:induction false} PairCountPartition(a: seq<int>, b: seq<int>)
    ensures PairCount(a, b, PlayerWins) + PairCount(a, b, ComputerWins)
            + PairCount(a, b, Tie) == |a| * |b|
  {
    if |a| > 0 {
      PairCountPartition(a[..|a| - 1], b);
      CountAgainstPartition(a[|a| - 1], b);
      assert |a| * |b| == (|a| - 1) * |b| + |b|;
    }
  }

  /** Counting a column of `y` against `a` is the same as counting `y`
      against all of `a` with the roles exchanged. */
  lemma {:induction false} CountForMirror(a: seq<int>, y: int, o: Outcome)
    ensures CountFor(a, y, o) == CountAgainst(y, a, Mirror(o))
  {
    if |a| > 0 {
      CountForMirror(a[..|a| - 1], y, o);
      DecideSwapped(a[|a| - 1], y);
    }
  }

  /** Appending a face `y` to the second die adds one column to the count. */
  lemma {:induction false} PairCountAppendColumn(a: seq<int>, b: seq<int>, y: int, o: Outcome)
    ensures PairCount(a, b + [y], o) == PairCount(a, b, o) + CountFor(a, y, o)
  {
    if |a| > 0 {
      var x := a[|a| - 1];
      PairCountAppendColumn(a[..|a| - 1], b, y, o);
      CountAgainstSnoc(x, b, y, o);
    }
  }

  /** The cross product read the other way round: the pairs where die `b`
      reaches `o` against `a` are the pairs where `a` reaches the mirrored
      outcome against `b`. */
  lemma {:induction false} PairCountTranspose(a: seq<int>, b: seq<int>, o: Outcome)
    ensures PairCount(b, a, o) == PairCount(a, b, Mirror(o))
  {
    if |b| > 0 {
      var b', y := b[..|b| - 1], b[|b| - 1];
      PairCountTranspose(a, b', o);
      PairCountAppendColumn(a, b', y, Mirror(o));
      CountForMirror(a, y, Mirror(o));
      assert Mirror(Mirror(o)) == o;
      assert b' + [y] == b;
    } else {
      PairCountNoColumns(a, Mirror(o));
    }
  }

  /** Against a die with no faces nothing is ever counted. */
  lemma {:induction false} PairCountNoColumns(a: seq<int>, o: Outcome)
    ensures PairCount(a, [], o) == 0
  {
    if |a| > 0 {
      PairCountNoColumns(a[..|a| - 1], o);
    }
  }

  /** `x` ties with no face of `b` exactly when `x` is not a face of `b`. */
  lemma {:induction false} CountAgainstNoTie(x: int, b: seq<int>)
    ensures CountAgainst(x, b, Tie) == 0 <==> x !in b
  {
    if |b| > 0 {
      CountAgainstNoTie(x, b[..|b| - 1]);
      assert b == b[..|b| - 1] + [b[|b| - 1]];
    }
  }

  /** No pair of faces ties exactly when the dice share no face value. */
  lemma {:induction false} PairCountNoTie(a: seq<int>, b: seq<int>)
    ensures PairCount(a, b, Tie) == 0 <==> NoCommonFace(a, b)
  {
    if |a| > 0 {
      var a', x := a[..|a| - 1], a[|a| - 1];
      PairCountNoTie(a', b);
      CountAgainstNoTie(x, b);
      assert a == a' + [x];
      assert forall z :: z in a <==> z in a' || z == x;
    }
  }

  /** A count out of a positive total, as an exact fraction: it lies in
      [0, 1], is 1 exactly for the full total and 0 exactly for none. */
  lemma FractionBounds(n: nat, t: nat)
    requires 0 < t && n <= t
    ensures 0.0 <= n as real / t as real <= 1.0
    ensures n as real / t as real == 1.0 <==> n == t
    ensures n as real / t as real == 0.0 <==> n == 0
  {
  }

  /** Fractions over one positive denominator add up by their numerators. */
  lemma SameDenominator(x: nat, y: nat, z: nat, t: nat)
    requires t > 0
    ensures x as real / t as real + y as real / t as real + z as real / t as real
            == (x + y + z) as real / t as real
  {
  }

  /** Probability that a roll of `a` is strictly higher than a roll of `b`:
      strict wins over the size of the full cross product, ties excluded
      from the numerator but not from the denominator. */
  function WinProbability(a: seq<int>, b: seq<int>): (p: real)
    requires |a| > 0 && |b| > 0
    ensures 0.0 <= p <= 1.0
  {
    PairCountPartition(a, b);
    FractionBounds(PairCount(a, b, PlayerWins), |a| * |b|);
    PairCount(a, b, PlayerWins) as real / (|a| * |b|) as real
  }

  /** Probability that a roll of `a` and a roll of `b` are equal. */
  function TieProbability(a: seq<int>, b: seq<int>): (p: real)
    requires |a| > 0 && |b| > 0
    ensures 0.0 <= p <= 1.0
    ensures p == 0.0 <==> NoCommonFace(a, b)
  {
    PairCountPartition(a, b);
    PairCountNoTie(a, b);
    FractionBounds(PairCount(a, b, Tie), |a| * |b|);
    PairCount(a, b, Tie) as real / (|a| * |b|) as real
  }

  /** For two dice, the two strict-win probabilities and the tie probability
      make exactly one. */
  lemma {:induction false} ProbabilitiesSumToOne(a: seq<int>, b: seq<int>)
    requires |a| > 0 && |b| > 0
    ensures WinProbability(a, b) + WinProbability(b, a) + TieProbability(a, b) == 1.0
  {
    var t := |a| * |b|;
    var w, l, e := PairCount(a, b, PlayerWins), PairCount(a, b, ComputerWins), PairCount(a, b, Tie);
    PairCountTranspose(a, b, PlayerWins);
    assert |b| * |a| == t;
    assert WinProbability(b, a) == l as real / t as real;
    PairCountPartition(a, b);
    SameDenominator(w, l, e, t);
    FractionBounds(w + l + e, t);
  }

  /** The two strict-win probabilities of a pair of dice add up to at most
      one, and to exactly one when and only when no face value is shared. */
  lemma {:induction false} PairProbabilityBound(a: seq<int>, b: seq<int>)
    requires |a| > 0 && |b| > 0
    ensures WinProbability(a, b) + WinProbability(b, a) <= 1.0
    ensures WinProbability(a, b) + WinProbability(b, a) == 1.0 <==> NoCommonFace(a, b)
  {
    ProbabilitiesSumToOne(a, b);
  }

  /** Table entry `[i][j]`: zero on the diagonal, elsewhere the probability
      that die `i` beats die `j`. */
  function Entry(dice: seq<Die>, i: nat, j: nat): real
    requires AllValid(dice) && i < |dice| && j < |dice|
  {
    if i == j then 0.0 else WinProbability(dice[i].values, dice[j].values)
  }

  /** `p` is the square win-probability table of `dice`. */
  predicate IsProbabilityTable(dice: seq<Die>, p: seq<seq<real>>)
    requires AllValid(dice)
  {
    && |p| == |dice|
    && (forall i :: 0 <= i < |dice| ==> |p[i]| == |dice|)
    && (forall i, j :: 0 <= i < |dice| && 0 <= j < |dice| ==> p[i][j] == Entry(dice, i, j))
  }

  /** The laws every win-probability table obeys. */
  lemma TableLaws(dice: seq<Die>, p: seq<seq<real>>)
    requires AllValid(dice) && IsProbabilityTable(dice, p)
    ensures forall i :: 0 <= i < |dice| ==> p[i][i] == 0.0
    ensures forall i, j :: 0 <= i < |dice| && 0 <= j < |dice| ==> 0.0 <= p[i][j] <= 1.0
    ensures forall i, j :: 0 <= i < |dice| && 0 <= j < |dice| && i != j ==>
              p[i][j] + p[j][i] <= 1.0
              && (p[i][j] + p[j][i] == 1.0 <==> NoCommonFace(dice[i].values, dice[j].values))
  {
    forall i, j | 0 <= i < |dice| && 0 <= j < |dice| && i != j
      ensures p[i][j] + p[j][i] <= 1.0
      ensures p[i][j] + p[j][i] == 1.0 <==> NoCommonFace(dice[i].values, dice[j].values)
    {
      PairProbabilityBound(dice[i].values, dice[j].values);
    }
  }

  /** The two inner loops of `calculateProbabilities`: walk the cross
      product of the faces and count strict wins for each side; ties go to
      neither count. */
  method CountWins(valuesI: seq<int>, valuesJ: seq<int>) returns (winsI: nat, winsJ: nat)
    ensures winsI == PairCount(valuesI, valuesJ, PlayerWins)
    ensures winsJ == PairCount(valuesI, valuesJ, ComputerWins)
  {
    winsI, winsJ := 0, 0;
    for p := 0 to |valuesI|
      invariant winsI == PairCount(valuesI[..p], valuesJ, PlayerWins)
      invariant winsJ == PairCount(valuesI[..p], valuesJ, ComputerWins)
    {
      var valueI := valuesI[p];
      for q := 0 to |valuesJ|
        invariant winsI == PairCount(valuesI[..p], valuesJ, PlayerWins) + CountAgainst(valueI, valuesJ[..q], PlayerWins)
        invariant winsJ == PairCount(valuesI[..p], valuesJ, ComputerWins) + CountAgainst(valueI, valuesJ[..q], ComputerWins)
      {
        var valueJ := valuesJ[q];
        assert valuesJ[..q + 1][..q] == valuesJ[..q];
        if valueI > valueJ {
          winsI := winsI + 1;
        } else if valueJ > valueI {
          winsJ := winsJ + 1;
        }
      }
      assert valuesJ[..|valuesJ|] == valuesJ;
      assert valuesI[..p + 1][..p] == valuesI[..p];
    }
    assert valuesI[..|valuesI|] == valuesI;
  }

  /** Cells of the table already written when the outer loop is at `i` and
      the inner loop at `j`: both cells of every pair handled so far. */
  predicate Written(i: int, j: int, r: int, c: int) {
    || (r < c && (r < i || (r == i && c < j)))
    || (c < r && (c < i || (c == i && r < j)))
  }

  /** `calculateProbabilities`: a table of zeros, then for every pair
      `i < j` one pass over the cross product fills both `[i][j]` and
      `[j][i]`. */
  method CalculateProbabilities(dice: seq<Die>) returns (probabilities: seq<seq<real>>)
    requires AllValid(dice)
    ensures IsProbabilityTable(dice, probabilities)
  {
    var numDice := |dice|;
    probabilities := seq(numDice, _ => seq(numDice, _ => 0.0));
    for i := 0 to numDice
      invariant |probabilities| == numDice
      invariant forall r :: 0 <= r < numDice ==> |probabilities[r]| == numDice
      invariant forall r, c :: 0 <= r < numDice && 0 <= c < numDice ==>
                  probabilities[r][c] == if Written(i, i + 1, r, c) then Entry(dice, r, c) else 0.0
    {
      for j := i + 1 to numDice
        invariant |probabilities| == numDice
        invariant forall r :: 0 <= r < numDice ==> |probabilities[r]| == numDice
        invariant forall r, c :: 0 <= r < numDice && 0 <= c < numDice ==>
                    probabilities[r][c] == if Written(i, j, r, c) then Entry(dice, r, c) else 0.0
      {
        var winsI, winsJ := CountWins(dice[i].values, dice[j].values);
        var total := |dice[i].values| * |dice[j].values|;
        PairCountTranspose(dice[i].values, dice[j].values, PlayerWins);
        assert |dice[j].values| * |dice[i].values| == total;
        probabilities := probabilities[i := probabilities[i][j := winsI as real / total as real]];
        probabilities := probabilities[j := probabilities[j][i := winsJ as real / total as real]];
      }
    }
  }

  /** Adding a face to the end of `b` adds one to the count if that face
      reaches the outcome against `x`. */
  lemma CountAgainstSnoc(x: int, b: seq<int>, y: int, o: Outcome)
    ensures CountAgainst(x, b + [y], o) == CountAgainst(x, b, o) + (if Decide(x, y) == o then 1 else 0)
  {
  }

  /** Adding a face to the end of `a` adds its row to the count. */
  lemma PairCountSnoc(a: seq<int>, x: int, b: seq<int>, o: Outcome)
    ensures PairCount(a + [x], b, o) == PairCount(a, b, o) + CountAgainst(x, b, o)
  {
  }

  /** The first two dice of the non-transitive set in the usage message:
      the first beats the second with probability 5/9. */
  lemma UsageDicePair()
    ensures WinProbability([2, 2, 4, 4, 9, 9], [6, 8, 1, 1, 8, 6]) == 5.0 / 9.0
  {
    var b := [6, 8, 1, 1, 8, 6];
    UsageDieRow(2);
    UsageDieRow(4);
    UsageDieRow(9);
    PairCountSnoc([], 2, b, PlayerWins);
    PairCountSnoc([2], 2, b, PlayerWins);
    PairCountSnoc([2, 2], 4, b, PlayerWins);
    PairCountSnoc([2, 2, 4], 4, b, PlayerWins);
    PairCountSnoc([2, 2, 4, 4], 9, b, PlayerWins);
    PairCountSnoc([2, 2, 4, 4, 9], 9, b, PlayerWins);
    assert [] + [2] == [2] && [2] + [2] == [2, 2] && [2, 2] + [4] == [2, 2, 4];
    assert [2, 2, 4] + [4] == [2, 2, 4, 4] && [2, 2, 4, 4] + [9] == [2, 2, 4, 4, 9];
    assert [2, 2, 4, 4, 9] + [9] == [2, 2, 4, 4, 9, 9];
  }

  /** One face `x` against all faces of the second die of that set. */
  lemma UsageDieRow(x: int)
    ensures CountAgainst(x, [6, 8, 1, 1, 8, 6], PlayerWins)
            == (if x > 1 then 2 else 0) + (if x > 6 then 2 else 0) + (if x > 8 then 2 else 0)
  {
    CountAgainstSnoc(x, [], 6, PlayerWins);
    CountAgainstSnoc(x, [6], 8, PlayerWins);
    CountAgainstSnoc(x, [6, 8], 1, PlayerWins);
    CountAgainstSnoc(x, [6, 8, 1], 1, PlayerWins);
    CountAgainstSnoc(x, [6, 8, 1, 1], 8, PlayerWins);
    CountAgainstSnoc(x, [6, 8, 1, 1, 8], 6, PlayerWins);
    assert [] + [6] == [6] && [6] + [8] == [6, 8] && [6, 8] + [1] == [6, 8, 1];
    assert [6, 8, 1] + [1] == [6, 8, 1, 1] && [6, 8, 1, 1] + [8] == [6, 8, 1, 1, 8];
    assert [6, 8, 1, 1, 8] + [6] == [6, 8, 1, 1, 8, 6];
  }
}
