/**
 * Checking the user's subscription against the clock and renewing it when
 * it has expired (action_check_subscription). The renewal runs from the
 * start of today to 23:59 on the first day of the month computed as
 * (month + 1) % 12, in the same year.
 */
module Renewal {
  import opened DateTime
  import opened Courses

  /** C's remainder on ints: it truncates toward zero, so it takes the sign
      of the dividend (Dafny's own % never goes negative). */
  function CRem(a: int, b: int): (r: int)
    requires b > 0
    ensures -b < r < b
    ensures a >= 0 ==> r == a % b
    ensures a <= 0 ==> r <= 0
    ensures r == a - b * CQuot(a, b)
  {
    if a >= 0 then a % b else -((-a) % b)
  }

  /** C's quotient on ints: it truncates toward zero. */
  function CQuot(a: int, b: int): int
    requires b > 0
  {
    if a >= 0 then a / b else -((-a) / b)
  }

  /** Midnight at the start of the day of `now`. */
  function StartOfDay(now: DateTime): (d: DateTime)
    ensures CompareDate(d, now) == 0
    ensures now.hour >= 0 && now.minute >= 0 ==> CompareDateTime(d, now) <= 0
    ensures d.hour == 0 && d.minute == 0
  {
    DateTime(0, 0, now.day, now.month, now.year)
  }

  /** The end of a renewal started at `now`, as the code computes it. */
  function RenewalEnd(now: DateTime): DateTime {
    DateTime(59, 23, 1, CRem(now.month + 1, 12), now.year)
  }

  /** For the months a clock reading yields, the renewal ends on the first
      of the next month up to October; November gives month 0 and December
      gives January, both in the current year. */
  lemma RenewalEndMonth(now: DateTime)
    requires 1 <= now.month <= 12
    ensures RenewalEnd(now).year == now.year && RenewalEnd(now).day == 1
    ensures now.month <= 10 ==> RenewalEnd(now).month == now.month + 1
    ensures now.month == 11 ==> RenewalEnd(now).month == 0
    ensures now.month == 12 ==> RenewalEnd(now).month == 1
  {
  }

  /** From January to October the renewed subscription is valid now. */
  lemma RenewalCoversNowUntilOctober(now: DateTime)
    requires 1 <= now.month <= 10
    ensures CompareDateTime(now, RenewalEnd(now)) == -1
  {
    RenewalEndMonth(now);
  }

  /** In November and December the renewal ends before `now`: the renewed
      subscription is already expired, and every later check renews it
      again. */
  lemma RenewalInNovemberOrDecemberIsExpired(now: DateTime)
    requires 11 <= now.month <= 12
    ensures CompareDateTime(now, RenewalEnd(now)) == 1
  {
    RenewalEndMonth(now);
  }

  /** A renewal on 15 December 2025 ends on 1 January 2025. */
  lemma RenewalInDecemberCounterexample()
    ensures RenewalEnd(DateTime(30, 10, 15, 12, 2025)) == DateTime(59, 23, 1, 1, 2025)
    ensures CompareDateTime(DateTime(30, 10, 15, 12, 2025), DateTime(59, 23, 1, 1, 2025)) == 1
  {
  }

  /** The evidently intended end of a renewal: the first of the next month,
      which after December is January of the next year. */
  function RenewalEndFixed(now: DateTime): (end: DateTime)
    requires 1 <= now.month <= 12
    ensures 1 <= end.month <= 12 && end.day == 1 && end.hour == 23 && end.minute == 59
    ensures end.year * 12 + end.month == now.year * 12 + now.month + 1
  {
    if now.month == 12 then DateTime(59, 23, 1, 1, now.year + 1)
    else DateTime(59, 23, 1, now.month + 1, now.year)
  }

  /** The corrected renewal is valid now in every month. */
  lemma RenewalEndFixedCoversNow(now: DateTime)
    requires 1 <= now.month <= 12
    ensures CompareDateTime(now, RenewalEndFixed(now)) == -1
  {
  }

  /** It agrees with the code from January to October. */
  lemma RenewalEndFixedAgreesUntilOctober(now: DateTime)
    requires 1 <= now.month <= 10
    ensures RenewalEndFixed(now) == RenewalEnd(now)
  {
    RenewalEndMonth(now);
  }

  /**
   * action_check_subscription: it reads the clock once to test the end date
   * (`checked`) and again to compute the new dates (`now`). A subscription
   * whose end is not before the first reading is left alone; otherwise both
   * of its dates are replaced, from the second reading. Reports whether it
   * renewed.
   */
  method CheckSubscription(user: User, checked: DateTime, now: DateTime) returns (renewed: bool)
    modifies user.subscription
    ensures renewed <==> CompareDateTime(checked, old(user.subscription.endDate)) == 1
    ensures renewed <==> Before(old(user.subscription.endDate), checked)
    ensures !renewed ==> user.subscription.startDate == old(user.subscription.startDate)
    ensures !renewed ==> user.subscription.endDate == old(user.subscription.endDate)
    ensures renewed ==> user.subscription.startDate == StartOfDay(now)
    ensures renewed ==> user.subscription.endDate == RenewalEnd(now)
  {
    if CompareDateTime(checked, user.subscription.endDate) < 1 {
      renewed := false;
    } else {
      var start := DateTime(0, 0, now.day, now.month, now.year);
      var end := DateTime(59, 23, 1, CRem(now.month + 1, 12), now.year);
      user.subscription.SetRenew(start, end);
      renewed := true;
    }
  }
}
