/** Reward points earned by one purchase. */
module Rewards {
  import opened Values

  /** `calculatePoints(amount)`: 2 points for every dollar above $100, plus 1 point for every
      dollar between $50 and $100, rounded down. Amounts that are not numbers (NaN, a string,
      `undefined`) and amounts of at most 0 earn nothing. */
  function CalculatePoints(amount: Value): (points: int)
    ensures points >= 0
    ensures !amount.Num? || amount.x <= 50.0 ==> points == 0
  {
    if !amount.Num? || amount.x <= 0.0 then 0
    else if amount.x > 100.0 then ((amount.x - 100.0) * 2.0 + 50.0).Floor
    else if amount.x > 50.0 then (amount.x - 50.0).Floor
    else 0
  }

  /** The formula per band: above $100, and between $50 and $100. */
  lemma PointsBands(x: real)
    ensures x > 100.0 ==> CalculatePoints(Num(x)) == ((x - 100.0) * 2.0 + 50.0).Floor
    ensures 50.0 < x <= 100.0 ==> CalculatePoints(Num(x)) == (x - 50.0).Floor
    ensures 50.0 < x <= 100.0 ==> 0 <= CalculatePoints(Num(x)) <= 50
    ensures x > 100.0 ==> CalculatePoints(Num(x)) >= 50
  {
  }

  /** Spending more never earns fewer points; the two bands meet at $100 with 50 points. */
  lemma PointsMonotone(x: real, y: real)
    requires x <= y
    ensures CalculatePoints(Num(x)) <= CalculatePoints(Num(y))
  {
    if 50.0 < x <= 100.0 && y > 100.0 {
      assert (x - 50.0).Floor <= 50;
      assert ((y - 100.0) * 2.0 + 50.0).Floor >= 50;
    }
  }

  /** The points at the band edges and for a typical purchase. */
  lemma PointsExamples()
    ensures CalculatePoints(Num(50.0)) == 0 && CalculatePoints(Num(51.0)) == 1
    ensures CalculatePoints(Num(100.0)) == 50 && CalculatePoints(Num(101.0)) == 52
    ensures CalculatePoints(Num(120.0)) == 90 && CalculatePoints(Num(75.5)) == 25
    ensures CalculatePoints(Num(-5.0)) == 0 && CalculatePoints(NaN) == 0 && CalculatePoints(Undef) == 0
  {
  }
}
