/** `FairRandomGenerator` and the range used by `Game.fairRoll`: the
    computer commits to its number with a MAC over the number's decimal
    text, and the shared result is the sum of both numbers modulo the range. */
module Fairness {
  import opened Dice

  newtype Byte = x: int | 0 <= x < 256

  /** `crypto.randomInt` refuses a range of 2^48 or more. */
  const MaxRandomRange: nat := 281474976710656

  /** Length in bytes of the secret key drawn for every commitment. */
  const KeyLength: nat := 32

  /** What the computer holds after committing: its number, the published
      MAC and the still secret key. */
  datatype Commitment = Commitment(computerNumber: nat, hmac: seq<Byte>, key: seq<Byte>)

  function Max(x: nat, y: nat): nat {
    if x >= y then x else y
  }

  /** `rangeEnd` in `fairRoll`: the largest face count among the dice. */
  function RangeEnd(dice: seq<Die>): (r: nat)
    requires |dice| > 0
    ensures forall k :: 0 <= k < |dice| ==> |dice[k].values| <= r
    ensures exists k :: 0 <= k < |dice| && |dice[k].values| == r
    ensures AllValid(dice) ==> r >= 1
  {
    if |dice| == 1 then |dice[0].values|
    else
      var rest := RangeEnd(dice[1..]);
      assert forall k :: 1 <= k < |dice| ==> dice[k] == dice[1..][k - 1];
      Max(|dice[0].values|, rest)
  }

  /** `verifyFairness`: the key is accepted and not used; the result is
      the value in [0, rangeEnd) congruent to the sum of both numbers. */
  function VerifyFairness(userNumber: nat, computerNumber: nat, key: seq<Byte>, rangeEnd: nat): (r: nat)
    requires rangeEnd > 0
    ensures r < rangeEnd && r <= userNumber + computerNumber
    ensures (userNumber + computerNumber - r) % rangeEnd == 0
  {
    var x := userNumber + computerNumber;
    ModUnique(x - x % rangeEnd, x / rangeEnd, 0, rangeEnd);
    x % rangeEnd
  }

  /** For a computer number inside the range, the result is the user's
      residue shifted by that number, wrapping around once at most. */
  lemma FairnessShift(userNumber: nat, computerNumber: nat, key: seq<Byte>, rangeEnd: nat)
    requires rangeEnd > 0 && computerNumber < rangeEnd
    ensures var s := userNumber % rangeEnd + computerNumber;
            VerifyFairness(userNumber, computerNumber, key, rangeEnd)
            == if s < rangeEnd then s else s - rangeEnd
  {
    var q, s := userNumber / rangeEnd, userNumber % rangeEnd + computerNumber;
    if s < rangeEnd {
      ModUnique(userNumber + computerNumber, q, s, rangeEnd);
    } else {
      assert userNumber + computerNumber == (q + 1) * rangeEnd + (s - rangeEnd);
      ModUnique(userNumber + computerNumber, q + 1, s - rangeEnd, rangeEnd);
    }
  }

  /** Inverse of `VerifyFairness` for a fixed user number: the one
      computer number in the range that, combined with `userNumber`, gives
      `result`. */
  function ComputerNumberFor(userNumber: nat, result: nat, rangeEnd: nat): (c: nat)
    requires result < rangeEnd
    ensures c < rangeEnd
  {
    var m := userNumber % rangeEnd;
    if result >= m then result - m else result + rangeEnd - m
  }

  /** For a fixed user number, combining is a bijection on [0, rangeEnd):
      `ComputerNumberFor` undoes it in both directions. So every result
      comes from exactly one computer number, and a uniformly drawn
      computer number gives a uniformly distributed result, whatever the
      user picks. */
  lemma FairnessBijection(userNumber: nat, key: seq<Byte>, rangeEnd: nat)
    requires rangeEnd > 0
    ensures forall c: nat :: c < rangeEnd ==>
              ComputerNumberFor(userNumber, VerifyFairness(userNumber, c, key, rangeEnd), rangeEnd) == c
    ensures forall r: nat :: r < rangeEnd ==>
              VerifyFairness(userNumber, ComputerNumberFor(userNumber, r, rangeEnd), key, rangeEnd) == r
  {
    forall c: nat | c < rangeEnd
      ensures ComputerNumberFor(userNumber, VerifyFairness(userNumber, c, key, rangeEnd), rangeEnd) == c
    {
      FairnessShift(userNumber, c, key, rangeEnd);
    }
    forall r: nat | r < rangeEnd
      ensures VerifyFairness(userNumber, ComputerNumberFor(userNumber, r, rangeEnd), key, rangeEnd) == r
    {
      FairnessShift(userNumber, ComputerNumberFor(userNumber, r, rangeEnd), key, rangeEnd);
    }
  }

  /** Two different computer numbers in the range never give the same result. */
  lemma FairnessInjective(userNumber: nat, key: seq<Byte>, rangeEnd: nat, c1: nat, c2: nat)
    requires rangeEnd > 0 && c1 < rangeEnd && c2 < rangeEnd && c1 != c2
    ensures VerifyFairness(userNumber, c1, key, rangeEnd) != VerifyFairness(userNumber, c2, key, rangeEnd)
  {
    FairnessBijection(userNumber, key, rangeEnd);
  }

  /** 2^53: above it a JavaScript number no longer holds every integer. */
  const TwoTo53: nat := 9007199254740992

  /** The JavaScript number nearest to a non-negative integer below 2^54:
      the integer itself below 2^53; above, where only even integers are
      representable, an odd value goes to the neighbour that is a multiple
      of four (round half to even). */
  function NearestDouble(x: nat): (d: nat)
    requires x < 2 * TwoTo53
    ensures x < TwoTo53 ==> d == x
    ensures d == x - 1 || d == x || d == x + 1
    ensures x >= TwoTo53 ==> d % 2 == 0
  {
    if x < TwoTo53 || x % 2 == 0 then x
    else if (x - 1) % 4 == 0 then x - 1
    else x + 1
  }

  /** `verifyFairness` as the source evaluates it: the sum is a double, so
      it is rounded before `%` (which is exact on the integer-valued
      doubles involved). Stated for user numbers up to 2^53, which `parseInt`
      returns exactly. */
  function VerifyFairnessAsWritten(userNumber: nat, computerNumber: nat, key: seq<Byte>, rangeEnd: nat): (r: nat)
    requires 0 < rangeEnd <= TwoTo53 && computerNumber < rangeEnd && userNumber <= TwoTo53
    ensures r < rangeEnd
    ensures userNumber + computerNumber < TwoTo53 ==> r == VerifyFairness(userNumber, computerNumber, key, rangeEnd)
  {
    NearestDouble(userNumber + computerNumber) % rangeEnd
  }

  /** With the user number 2^53 and a range of 6, the computer numbers 0 and
      1 give the same result in the source, so the combination is not a
      bijection there, while the exact combination keeps them apart. */
  lemma LargeUserNumberCollides()
    ensures VerifyFairnessAsWritten(TwoTo53, 0, [], 6) == 2
    ensures VerifyFairnessAsWritten(TwoTo53, 1, [], 6) == 2
    ensures VerifyFairness(TwoTo53, 1, [], 6) == 3
  {
  }

  /** While `userNumber + rangeEnd` stays within 2^53, the source's
      combination is the exact one, so it keeps the bijection. */
  lemma AsWrittenInjectiveBelow(userNumber: nat, key: seq<Byte>, rangeEnd: nat, c1: nat, c2: nat)
    requires 0 < rangeEnd && userNumber + rangeEnd <= TwoTo53
    requires c1 < rangeEnd && c2 < rangeEnd && c1 != c2
    ensures VerifyFairnessAsWritten(userNumber, c1, key, rangeEnd)
            != VerifyFairnessAsWritten(userNumber, c2, key, rangeEnd)
  {
    FairnessInjective(userNumber, key, rangeEnd, c1, c2);
  }

  /** Uniqueness of quotient and remainder. */
  lemma ModUnique(y: int, q: int, r: int, n: int)
    requires n > 0 && 0 <= r < n && y == q * n + r
    ensures y % n == r && y / n == q
  {
    var q', r' := y / n, y % n;
    Distribute(q, q', n);
    assert (q - q') * n == r' - r;
    if q > q' {
      MulAtLeast(q - q', n);
    } else if q < q' {
      Distribute(q', q, n);
      MulAtLeast(q' - q, n);
    }
  }

  lemma Distribute(a: int, b: int, n: int)
    ensures (a - b) * n == a * n - b * n
  {
  }

  lemma MulAtLeast(k: nat, n: nat)
    requires k >= 1
    ensures k * n >= n
  {
  }

  /** The digit character for a value below ten. */
  function DigitChar(d: nat): (ch: char)
    requires d < 10
    ensures '0' <= ch <= '9' && (ch as int) - ('0' as int) == d
  {
    ('0' as int + d) as char
  }

  /** `String(n)` for a non-negative integer below 10^21 (where JavaScript
      switches to exponent form): its decimal digits, most
      significant first, with no leading zero. */
  function DecimalString(n: nat): (s: string)
    ensures |s| >= 1 && (|s| > 1 ==> s[0] != '0')
    ensures forall k :: 0 <= k < |s| ==> '0' <= s[k] <= '9'
  {
    if n < 10 then [DigitChar(n)]
    else DecimalString(n / 10) + [DigitChar(n % 10)]
  }

  /** Reads a string of decimal digits back as a number. */
  function DecimalValue(s: string): nat
    requires forall k :: 0 <= k < |s| ==> '0' <= s[k] <= '9'
  {
    if |s| == 0 then 0
    else DecimalValue(s[..|s| - 1]) * 10 + ((s[|s| - 1] as int) - ('0' as int))
  }

  /** The decimal text of a number reads back as that number. */
  lemma {:induction false} DecimalRoundTrip(n: nat)
    ensures DecimalValue(DecimalString(n)) == n
  {
    if n >= 10 {
      DecimalRoundTrip(n / 10);
      var s := DecimalString(n);
      assert s[..|s| - 1] == DecimalString(n / 10);
    }
  }

  /** `generateFairNumber` with its random draws supplied by the caller:
      `computerNumber` is the draw from [0, rangeEnd), `key` the 32 random
      bytes, and `mac` stands for HMAC-SHA3-256 keyed by its first argument
      over the decimal text of the number. */
  function GenerateFairNumber(rangeEnd: nat, computerNumber: nat, key: seq<Byte>,
                              mac: (seq<Byte>, string) -> seq<Byte>): (c: Commitment)
    requires computerNumber < rangeEnd < MaxRandomRange && |key| == KeyLength
    ensures c.computerNumber == computerNumber && c.computerNumber < rangeEnd
    ensures c.key == key && |c.key| == KeyLength
    ensures DecimalValue(DecimalString(c.computerNumber)) == computerNumber
    ensures c.hmac == mac(c.key, DecimalString(c.computerNumber))
  {
    DecimalRoundTrip(computerNumber);
    Commitment(computerNumber, mac(key, DecimalString(computerNumber)), key)
  }

  /** Binding: different numbers have different decimal texts, so under
      one key two different committed numbers are MACed over two different
      messages, and once the MAC is published the computer cannot reveal
      another number without a MAC collision. */
  lemma DecimalInjective(n1: nat, n2: nat)
    requires n1 != n2
    ensures DecimalString(n1) != DecimalString(n2)
  {
    DecimalRoundTrip(n1);
    DecimalRoundTrip(n2);
  }
}
