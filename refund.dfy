/** The refund policy of the booking service: `calculateRefundAmount` (a
    tiered fraction of the booking total by whole hours left before
    departure) and the refund percent reported in a cancellation response
    (`mapToCancellationResponseDto`). Amounts are exact decimals (BigDecimal),
    modelled as `real`. */
module Refund {
  import opened Wrappers
  import opened Calendar

  datatype RefundError = CancellationNotAllowed

  /** The refund fraction for the whole hours left before departure; none
      within two hours of departure. */
  function RefundFraction(hours: int): Option<real> {
    if hours >= 24 then Some(0.90)
    else if hours >= 12 then Some(0.75)
    else if hours >= 6 then Some(0.50)
    else if hours >= 2 then Some(0.25)
    else None
  }

  function RefundForHours(totalAmount: real, hours: int): Result<real, RefundError> {
    match RefundFraction(hours)
    case Some(fraction) => Ok(totalAmount * fraction)
    case None => Err(CancellationNotAllowed)
  }

  /** calculateRefundAmount: hours are ChronoUnit.HOURS between now and the
      departure date-time (truncated toward zero). */
  function CalculateRefundAmount(totalAmount: real, departure: DateTime, now: DateTime): Result<real, RefundError>
    requires ValidDate(departure.date) && ValidDate(now.date)
  {
    RefundForHours(totalAmount, HoursBetween(now, departure))
  }

  /** The tiers: one of four fractions, never decreasing as departure gets
      further away, and none below two hours. */
  lemma RefundFractionTiers(h1: int, h2: int)
    ensures RefundFraction(h1).None? <==> h1 < 2
    ensures RefundFraction(h1).Some? ==> RefundFraction(h1).value in {0.90, 0.75, 0.50, 0.25}
    ensures h1 <= h2 && RefundFraction(h1).Some? ==>
              RefundFraction(h2).Some? && RefundFraction(h1).value <= RefundFraction(h2).value
  {
  }

  /** Cancellation is refused exactly when departure is less than two hours
      (7200 seconds) away, including a departure in the past; otherwise the
      refund is between a quarter and nine tenths of the total. */
  lemma RefundWindow(totalAmount: real, departure: DateTime, now: DateTime)
    requires ValidDate(departure.date) && ValidDate(now.date)
    requires totalAmount >= 0.0
    ensures CalculateRefundAmount(totalAmount, departure, now).Err?
        <==> EpochSeconds(departure) - EpochSeconds(now) < 2 * 3600
    ensures CalculateRefundAmount(totalAmount, departure, now).Ok? ==>
              totalAmount * 0.25 <= CalculateRefundAmount(totalAmount, departure, now).value <= totalAmount * 0.90
    ensures EpochSeconds(departure) - EpochSeconds(now) >= 24 * 3600 ==>
              CalculateRefundAmount(totalAmount, departure, now) == Ok(totalAmount * 0.90)
  {
    HoursAtLeast(now, departure, 2);
    HoursAtLeast(now, departure, 24);
  }

  /** The reference values: a total of 1000.00 refunds 900.00, 750.00, 500.00
      and 250.00 at 30, 20, 8 and 3 hours, and nothing at 1 hour. */
  lemma RefundReferenceValues()
    ensures RefundForHours(1000.00, 30) == Ok(900.00)
    ensures RefundForHours(1000.00, 20) == Ok(750.00)
    ensures RefundForHours(1000.00, 8) == Ok(500.00)
    ensures RefundForHours(1000.00, 3) == Ok(250.00)
    ensures RefundForHours(1000.00, 1) == Err(CancellationNotAllowed)
  {
  }

  // ---------------------------------------------------------------------
  // The reported refund percent.

  /** A non-negative quantity rounded to the nearest integer, halves up. */
  function RoundHalfUp(x: real): (n: int)
    requires x >= 0.0
    ensures x - 0.5 < n as real <= x + 0.5
  {
    (x + 0.5).Floor
  }

  /** BigDecimal.divide(b, 2, RoundingMode.HALF_UP): the exact quotient
      rounded to two decimals, ties away from zero. */
  function DivideHalfUp2(a: real, b: real): real
    requires b != 0.0
  {
    var x := a / b * 100.0;
    if x >= 0.0 then RoundHalfUp(x) as real / 100.0 else -(RoundHalfUp(-x) as real) / 100.0
  }

  /** The refund percent: the ratio rounded to two decimals, times 100.
      BigDecimal division by a zero total throws, which is `None` here. */
  function RefundPercent(refundAmount: real, totalAmount: real): Option<real> {
    if totalAmount == 0.0 then None
    else Some(DivideHalfUp2(refundAmount, totalAmount) * 100.0)
  }

  /** The reported percent is within half a point of the true ratio. */
  lemma RefundPercentAccuracy(refundAmount: real, totalAmount: real)
    requires totalAmount != 0.0
    ensures RefundPercent(refundAmount, totalAmount).Some?
    ensures var p := RefundPercent(refundAmount, totalAmount).value;
      var exact := refundAmount / totalAmount * 100.0;
      exact - 0.5 <= p <= exact + 0.5
  {
  }

  /** For a refund computed by the policy, the reported percent is exactly
      90, 75, 50 or 25, matching the tier, and the refund is exactly that
      percent of the total: the rounding to two decimals loses nothing. */
  lemma RefundPercentOfTier(totalAmount: real, hours: int)
    requires totalAmount > 0.0
    requires RefundForHours(totalAmount, hours).Ok?
    ensures RefundPercent(RefundForHours(totalAmount, hours).value, totalAmount)
         == Some(RefundFraction(hours).value * 100.0)
    ensures RefundPercent(RefundForHours(totalAmount, hours).value, totalAmount).value in {90.0, 75.0, 50.0, 25.0}
    ensures RefundForHours(totalAmount, hours).value ==
            totalAmount * RefundPercent(RefundForHours(totalAmount, hours).value, totalAmount).value / 100.0
  {
    var f := RefundFraction(hours).value;
    assert totalAmount * f / totalAmount == f;
    var x := f * 100.0;
    assert RoundHalfUp(x) as real == x;
    assert totalAmount * x / 100.0 == totalAmount * f;
  }
}
