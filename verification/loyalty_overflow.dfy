/** Loyalty points as the rental system's code computes them: both the
    award `days * 10` and the running total are Java `int`s, so a long enough
    rental wraps the award into a negative number and lowers the balance.
    The ledger model uses unbounded points instead (`Fleet.AddLoyaltyPoints`,
    `RentalSystem.Rent`); this module records the difference. */
module LoyaltyOverflow {
  import opened JavaInt
  import opened Fleet

  /** The balance after a confirmed rental of `days` days, with the
      multiplication and the `+=` each wrapped to 32 bits. */
  function AwardAsWritten(points: int32, days: int32): (r: int32)
    ensures (r - (points + 10 * days)) % TwoTo32 == 0
    ensures -TwoTo31 <= points + 10 * days < TwoTo31 ==> r == points + 10 * days
  {
    var w := Wrap32(days * 10);
    var r := Wrap32(points + w);
    ModSumZero(r - (points + w), w - days * 10);
    CongruentInRange(r, points + 10 * days);
    r
  }

  lemma ModSumZero(a: int, b: int)
    requires a % TwoTo32 == 0 && b % TwoTo32 == 0
    ensures (a + b) % TwoTo32 == 0
  {
  }

  /** Two values in the `int` range that agree modulo 2^32 are equal. */
  lemma CongruentInRange(x: int, y: int)
    requires (x - y) % TwoTo32 == 0
    ensures -TwoTo31 <= x < TwoTo31 && -TwoTo31 <= y < TwoTo31 ==> x == y
  {
  }

  /** The shortest rental whose award no longer fits in an `int`. */
  const FirstOverflowingDays: int32 := 214748365

  /** As written, a customer with no points who rents for 214748365 days
      ends up with a negative balance: the award wrapped. */
  lemma AwardAsWrittenCanDecrease()
    ensures AwardAsWritten(0, FirstOverflowingDays) < 0
    ensures AwardAsWritten(0, FirstOverflowingDays) == -2147483646
  {
  }

  /** Every positive rental from 214748365 up to 429496729 days wraps the
      award of a customer with no points below zero. */
  lemma {:induction false} AwardAsWrittenNegativeRange(days: int32)
    requires FirstOverflowingDays <= days <= 429496729
    ensures AwardAsWritten(0, days) < 0
  {
    var prod := days * 10;
    assert TwoTo31 <= prod < TwoTo32;
    assert prod % TwoTo32 == prod;
    assert Wrap32(prod) == prod - TwoTo32;
  }

  /** Where nothing overflows the code as written awards exactly what the
      unbounded model awards. */
  lemma AwardAsWrittenAgreesWithoutOverflow(c: Customer, points: int32, days: int32)
    requires c.loyaltyPoints == points && 0 <= days
    requires points + 10 * days < TwoTo31
    ensures AwardAsWritten(points, days) == AddLoyaltyPoints(c, 10 * days).loyaltyPoints
  {
  }

  /** The corrected award never lowers a balance, however long the rental. */
  lemma AwardNeverDecreases(c: Customer, days: nat)
    ensures AddLoyaltyPoints(c, 10 * days).loyaltyPoints >= c.loyaltyPoints
    ensures AddLoyaltyPoints(c, 10 * days).loyaltyPoints == c.loyaltyPoints + 10 * days
  {
  }
}
