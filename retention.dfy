/**
 * compute_retention_expiry: the retention policy table and the year shift
 * of a document's creation time, with the Feb 29 fallback.
 * Dates follow Python's datetime: years 1..9999, the Gregorian leap rule.
 */
module Retention {
  import opened Wrappers

  /** Retention policy name to years; 0 means no expiry and -1 means "use the custom years". */
  const RetentionPolicies: map<string, int> := map[
    "Business record (7y)" := 7,
    "Contract life + 6y" := 6,
    "Finance (10y)" := 10,
    "Until superseded" := 0,
    "Custom" := -1
  ]

  /** The table's marker for the custom policy. */
  const UseCustomYears := -1

  /** Python's datetime.MINYEAR and datetime.MAXYEAR. */
  const MinYear := 1
  const MaxYear := 9999

  /** A naive datetime (no time zone). */
  datatype DateTime = DateTime(year: int, month: int, day: int,
                               hour: int, minute: int, second: int, microsecond: int)

  predicate IsLeap(year: int)
  {
    year % 4 == 0 && (year % 100 != 0 || year % 400 == 0)
  }

  function DaysInMonth(year: int, month: int): int
    requires 1 <= month <= 12
  {
    if month == 2 then (if IsLeap(year) then 29 else 28)
    else if month == 4 || month == 6 || month == 9 || month == 11 then 30
    else 31
  }

  /** The values a Python datetime can hold. */
  predicate ValidDateTime(t: DateTime)
  {
    && MinYear <= t.year <= MaxYear
    && 1 <= t.month <= 12
    && 1 <= t.day <= DaysInMonth(t.year, t.month)
    && 0 <= t.hour < 24 && 0 <= t.minute < 60 && 0 <= t.second < 60
    && 0 <= t.microsecond < 1000000
  }

  /** Same time of day. */
  predicate SameTime(a: DateTime, b: DateTime)
  {
    a.hour == b.hour && a.minute == b.minute && a.second == b.second && a.microsecond == b.microsecond
  }

  /** Strictly earlier, in calendar order. */
  predicate Before(a: DateTime, b: DateTime)
  {
    if a.year != b.year then a.year < b.year
    else if a.month != b.month then a.month < b.month
    else if a.day != b.day then a.day < b.day
    else if a.hour != b.hour then a.hour < b.hour
    else if a.minute != b.minute then a.minute < b.minute
    else if a.second != b.second then a.second < b.second
    else a.microsecond < b.microsecond
  }

  /**
   * The years a policy keeps a document: the table's value, the custom
   * years for "Custom", and 0 for a name the table does not know.
   */
  function EffectiveYears(policy: string, customYears: int): (n: int)
    ensures policy !in RetentionPolicies ==> n == 0
    ensures policy == "Custom" ==> n == customYears
    ensures policy in RetentionPolicies && policy != "Custom" ==> n == RetentionPolicies[policy] && n >= 0
  {
    var years := if policy in RetentionPolicies then RetentionPolicies[policy] else 0;
    if years == UseCustomYears then customYears else years
  }

  /** datetime.replace(year=y): None where Python raises (year out of range, or a day the target month lacks). */
  function ReplaceYear(t: DateTime, year: int): (r: Option<DateTime>)
    requires ValidDateTime(t)
    ensures r.Some? <==> MinYear <= year <= MaxYear && t.day <= DaysInMonth(year, t.month)
    ensures r.Some? ==> r.value == t.(year := year) && ValidDateTime(r.value)
  {
    if MinYear <= year <= MaxYear && t.day <= DaysInMonth(year, t.month) then Some(t.(year := year))
    else None
  }

  /** t - timedelta(days=1): None where Python raises OverflowError (before 0001-01-01). */
  function PreviousDay(t: DateTime): (r: Option<DateTime>)
    requires ValidDateTime(t)
    ensures r.None? <==> t.year == MinYear && t.month == 1 && t.day == 1
    ensures r.Some? ==> ValidDateTime(r.value) && SameTime(r.value, t) && Before(r.value, t)
    ensures r.Some? && t.day > 1 ==> r.value == t.(day := t.day - 1)
    ensures r.Some? && t.day == 1 && t.month > 1 ==>
      r.value == t.(month := t.month - 1, day := DaysInMonth(t.year, t.month - 1))
    ensures r.Some? && t.day == 1 && t.month == 1 ==> r.value == t.(year := t.year - 1, month := 12, day := 31)
  {
    if t.day > 1 then Some(t.(day := t.day - 1))
    else if t.month > 1 then Some(t.(month := t.month - 1, day := DaysInMonth(t.year, t.month - 1)))
    else if t.year > MinYear then Some(t.(year := t.year - 1, month := 12, day := 31))
    else None
  }

  /** The outcome of compute_retention_expiry: None, a datetime, or an exception raised to the caller. */
  datatype Expiry = NoExpiry | Expires(at: DateTime) | Raises

  /**
   * compute_retention_expiry(policy, created, customYears): no expiry unless
   * the effective years N are positive; otherwise the creation time N years
   * later, a Feb 29 landing in a common year falling back to Feb 28 of that
   * year. A target year beyond 9999 makes Python raise, and so does the
   * fallback, so the exception reaches the caller.
   */
  function ComputeRetentionExpiry(policy: string, created: DateTime, customYears: int): (r: Expiry)
    requires ValidDateTime(created)
    ensures r == NoExpiry <==> EffectiveYears(policy, customYears) <= 0
    ensures r == Raises <==> EffectiveYears(policy, customYears) > 0 && created.year + EffectiveYears(policy, customYears) > MaxYear
    ensures r.Expires? ==>
      var target := created.year + EffectiveYears(policy, customYears);
      && ValidDateTime(r.at)
      && r.at.year == target
      && r.at.month == created.month
      && r.at.day == (if created.month == 2 && created.day == 29 && !IsLeap(target) then 28 else created.day)
      && SameTime(r.at, created)
  {
    var years := EffectiveYears(policy, customYears);
    if years <= 0 then NoExpiry
    else
      match ReplaceYear(created, created.year + years)
      case Some(t) => Expires(t)
      case None =>
        match PreviousDay(created)
        case None => Raises
        case Some(dayBefore) =>
          match ReplaceYear(dayBefore, created.year + years)
          case Some(t) => Expires(t)
          case None => Raises
  }

  /** An expiry always lies after the creation time. */
  lemma ExpiryIsLater(policy: string, created: DateTime, customYears: int)
    requires ValidDateTime(created)
    ensures ComputeRetentionExpiry(policy, created, customYears).Expires? ==>
      Before(created, ComputeRetentionExpiry(policy, created, customYears).at)
  {
  }

  /** A longer custom retention expires later. */
  lemma LongerRetentionExpiresLater(created: DateTime, shorter: int, longer: int)
    requires ValidDateTime(created)
    requires 0 < shorter < longer && created.year + longer <= MaxYear
    ensures ComputeRetentionExpiry("Custom", created, shorter).Expires?
    ensures ComputeRetentionExpiry("Custom", created, longer).Expires?
    ensures Before(ComputeRetentionExpiry("Custom", created, shorter).at,
                   ComputeRetentionExpiry("Custom", created, longer).at)
  {
  }

  /** A Feb 29 creation keeps its day exactly when the target year is a leap year too. */
  lemma LeapDayKeptInLeapYears(policy: string, created: DateTime, customYears: int)
    requires ValidDateTime(created) && created.month == 2 && created.day == 29
    requires ComputeRetentionExpiry(policy, created, customYears).Expires?
    ensures ComputeRetentionExpiry(policy, created, customYears).at.day == 29 <==>
      IsLeap(created.year + EffectiveYears(policy, customYears))
  {
  }

  /** A shift by a multiple of 400 years keeps every date, Feb 29 included. */
  lemma FourHundredYearsKeepTheDate(created: DateTime, k: int)
    requires ValidDateTime(created) && k > 0 && created.year + 400 * k <= MaxYear
    ensures ComputeRetentionExpiry("Custom", created, 400 * k) == Expires(created.(year := created.year + 400 * k))
  {
    LeapYearsRepeat(created.year, k);
  }

  /** The leap-year rule repeats every 400 years. */
  lemma {:induction false} LeapYearsRepeat(y: int, k: nat)
    ensures IsLeap(y + 400 * k) == IsLeap(y)
  {
    if k > 0 {
      LeapYearsRepeat(y, k - 1);
      var z := y + 400 * (k - 1);
      assert y + 400 * k == z + 400;
      LeapYearAfter400(z);
    }
  }

  /** The leap-year rule is the same 400 years later. */
  lemma LeapYearAfter400(z: int)
    ensures IsLeap(z + 400) == IsLeap(z)
  {
    assert (z + 400) % 4 == z % 4;
    assert (z + 400) % 100 == z % 100;
    assert (z + 400) % 400 == z % 400;
  }
}
