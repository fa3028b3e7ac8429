/**
 * The timezone comparison every calendar type (XSCalendarType) uses: two
 * timezones, each an optional duration, and for each a flag saying the
 * value came from the fn:date function.
 */
module Calendar {
  import opened Results
  import opened Durations

  /**
   * `isTimezoneEqual`: two absent timezones are equal; two present ones are
   * equal when hours, minutes and sign agree; when exactly one is absent
   * they are equal only if either value came from fn:date.
   */
  function IsTimezoneEqual(tz1: Option<DayTimeDuration>, tz2: Option<DayTimeDuration>,
                           fromDate1: bool, fromDate2: bool): (r: bool)
    ensures tz1.None? && tz2.None? ==> r
    ensures tz1.Some? && tz2.Some? ==>
      (r <==> tz1.value.(days := 0, seconds := 0.0) == tz2.value.(days := 0, seconds := 0.0))
    ensures tz1.Some? != tz2.Some? ==> (r <==> fromDate1 || fromDate2)
  {
    if tz1.None? && tz2.None? then true
    else if tz1.Some? && tz2.Some? then
      tz1.value.hours == tz2.value.hours && tz1.value.minutes == tz2.value.minutes
      && tz1.value.negative == tz2.value.negative
    else fromDate1 || fromDate2
  }

  /**
   * The comparison is symmetric, reflexive, ignores days and seconds, and
   * with exactly one timezone absent it holds just when a flag is set.
   */
  lemma TimezoneEqualProperties(tz1: Option<DayTimeDuration>, tz2: Option<DayTimeDuration>, f1: bool, f2: bool)
    ensures IsTimezoneEqual(tz1, tz2, f1, f2) == IsTimezoneEqual(tz2, tz1, f2, f1)
    ensures IsTimezoneEqual(tz1, tz1, f1, f2)
    ensures tz1.Some? && tz2.Some? ==>
      (IsTimezoneEqual(tz1, tz2, f1, f2) <==>
        tz1.value.(days := 0, seconds := 0.0) == tz2.value.(days := 0, seconds := 0.0))
    ensures tz1.Some? != tz2.Some? ==> (IsTimezoneEqual(tz1, tz2, f1, f2) <==> f1 || f2)
  {
  }

  /**
   * With neither flag set the comparison is an equivalence: two present
   * timezones related to a third are related to each other.
   */
  lemma TimezoneEqualTransitive(a: Option<DayTimeDuration>, b: Option<DayTimeDuration>, c: Option<DayTimeDuration>)
    requires IsTimezoneEqual(a, b, false, false) && IsTimezoneEqual(b, c, false, false)
    ensures IsTimezoneEqual(a, c, false, false)
  {
  }

  /**
   * A set flag breaks transitivity: an absent timezone from fn:date matches
   * two present timezones that differ.
   */
  lemma FlagBreaksTransitivity()
    ensures var a, c := Some(DayTimeDuration(0, 1, 0, 0.0, false)), Some(DayTimeDuration(0, 2, 0, 0.0, false));
      IsTimezoneEqual(a, None, false, true) && IsTimezoneEqual(None, c, true, false)
      && !IsTimezoneEqual(a, c, false, false)
  {
  }
}
