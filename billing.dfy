/**
 * The billing arithmetic of the remove-vehicle endpoint and serializer
 * (parking/views.py and parking/serializers.py): the elapsed time is turned
 * into hours, any partial hour is charged as a whole one, and the result is
 * multiplied by the lot's hourly rate.
 *
 * The source computes `hours = seconds / 3600` in floating point and then
 * `int(hours) + (1 if hours % 1 > 0 else 0)`. Here the elapsed time is an
 * exact number of microseconds: `int(...)` truncates toward zero and Python's
 * `% 1` is a floored remainder, which is positive exactly when the hours are
 * not whole, whatever their sign.
 */
module Billing {
  import opened ParkingModels

  const MicrosPerHour: int := 3_600_000_000
  const MicrosPerMinute: int := 60_000_000
  const MicrosPerSecond: int := 1_000_000

  /** Python's `int(a / b)` for b > 0: the quotient truncated toward zero. */
  function TruncDiv(a: int, b: int): int
    requires b > 0
  {
    if a >= 0 then a / b else -((-a) / b)
  }

  /**
   * The number of hours billed for `elapsed` microseconds. For a non-negative
   * duration this is the ceiling of the hours; for a negative duration that is
   * not a whole number of hours the formula bills one hour more than the
   * ceiling, because truncation already rounded toward zero before the
   * partial-hour bump is added.
   */
  function HoursToCharge(elapsed: Micros): (h: int)
    ensures elapsed >= 0 ==> h >= 0 && (h - 1) * MicrosPerHour < elapsed <= h * MicrosPerHour
    ensures elapsed < 0 && elapsed % MicrosPerHour != 0 ==>
              (h - 2) * MicrosPerHour < elapsed < (h - 1) * MicrosPerHour
    ensures elapsed % MicrosPerHour == 0 ==> h * MicrosPerHour == elapsed
  {
    TruncDiv(elapsed, MicrosPerHour) + (if elapsed % MicrosPerHour != 0 then 1 else 0)
  }

  /**
   * `charge_per_hour * hours_to_charge`, exact in cents. For a stay of
   * non-negative length the charge is at least the pro-rata amount and less
   * than one more hour's rate above it; a whole number of hours costs exactly
   * the pro-rata amount.
   */
  function TotalCharge(chargePerHour: Cents, elapsed: Micros): (c: Cents)
    ensures chargePerHour > 0 && elapsed >= 0 ==>
              chargePerHour * elapsed <= c * MicrosPerHour < chargePerHour * elapsed + chargePerHour * MicrosPerHour
    ensures elapsed % MicrosPerHour == 0 ==> c * MicrosPerHour == chargePerHour * elapsed
  {
    var h := HoursToCharge(elapsed);
    ProRataBounds(chargePerHour, elapsed, h);
    chargePerHour * h
  }

  /** Scaling the hour bounds of `HoursToCharge` by a positive rate. */
  lemma ProRataBounds(rate: int, elapsed: int, h: int)
    requires h == HoursToCharge(elapsed)
    ensures rate > 0 && elapsed >= 0 ==>
              rate * elapsed <= rate * h * MicrosPerHour < rate * elapsed + rate * MicrosPerHour
    ensures elapsed % MicrosPerHour == 0 ==> rate * h * MicrosPerHour == rate * elapsed
  {
    if elapsed % MicrosPerHour == 0 {
      assert rate * (h * MicrosPerHour) == rate * elapsed;
    }
    if rate > 0 && elapsed >= 0 {
      var hi := h * MicrosPerHour;
      var lo := hi - MicrosPerHour;
      assert lo < elapsed <= hi;
      MulMonotonic(rate, elapsed, hi);
      MulStrict(rate, lo, elapsed);
      assert rate * lo == rate * hi - rate * MicrosPerHour;
    }
  }

  lemma MulStrict(c: int, a: int, b: int)
    requires c > 0 && a < b
    ensures c * a < c * b
  {
    assert c * b == c * a + c * (b - a);
  }

  /** Billing never decreases as the stay gets longer (for a non-negative rate). */
  lemma ChargeMonotonic(chargePerHour: Cents, e1: Micros, e2: Micros)
    requires chargePerHour >= 0 && 0 <= e1 <= e2
    ensures 0 <= TotalCharge(chargePerHour, e1) <= TotalCharge(chargePerHour, e2)
  {
    var h1, h2 := HoursToCharge(e1), HoursToCharge(e2);
    assert h1 <= h2;
    MulMonotonic(chargePerHour, h1, h2);
  }

  lemma MulMonotonic(c: int, a: int, b: int)
    requires c >= 0 && 0 <= a <= b
    ensures 0 <= c * a <= c * b
  {
    assert c * b == c * a + c * (b - a);
  }

  /** A whole number of hours is billed as exactly that many hours. */
  lemma WholeHoursBilledExactly(chargePerHour: Cents, hours: nat)
    ensures TotalCharge(chargePerHour, hours * MicrosPerHour) == chargePerHour * hours
  {
    var h := HoursToCharge(hours * MicrosPerHour);
    assert (hours * MicrosPerHour) % MicrosPerHour == 0;
    assert h * MicrosPerHour == hours * MicrosPerHour;
  }

  /**
   * Sample charges: nothing for no time at all, a full hour for one second,
   * two hours for ninety minutes, and 60.00 for 2h10m at 20.00 per hour.
   */
  lemma ChargeExamples(chargePerHour: Cents)
    ensures TotalCharge(chargePerHour, 0) == 0
    ensures TotalCharge(chargePerHour, MicrosPerSecond) == chargePerHour
    ensures TotalCharge(chargePerHour, 90 * MicrosPerMinute) == 2 * chargePerHour
    ensures TotalCharge(2000, 2 * MicrosPerHour + 10 * MicrosPerMinute) == 6000
  {
  }

  /**
   * A negative elapsed time (the exit clock behind the entry clock) is not
   * rejected: half an hour "backwards" is billed as one full hour, where the
   * ceiling of -0.5 hours would be 0.
   */
  lemma NegativeHalfHourBillsOneHour(chargePerHour: Cents)
    ensures HoursToCharge(-30 * MicrosPerMinute) == 1
    ensures TotalCharge(chargePerHour, -30 * MicrosPerMinute) == chargePerHour
  {
  }
}
