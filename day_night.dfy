/**
 * The day/night verdict of isNight and the two cached minute values it
 * refreshes, as functions of the previous cache, the settings and the
 * answers of the sunrise/sunset calculator.
 */
module DayNight {
  import opened Wrappers

  datatype HourMinute = HourMinute(hour: int, minute: int)

  /** A time of day as the sunrise/sunset calculator reports it. */
  type SunTime = t: HourMinute | 0 <= t.hour < 24 && 0 <= t.minute < 60 witness HourMinute(0, 0)

  const MINUTES_PER_DAY := 1440

  function MinuteOfDay(hour: int, minute: int): int {
    hour * 60 + minute
  }

  /** Minutes since midnight of a reported time cover one day, without collisions. */
  lemma MinuteOfDayIsOneToOne(s: SunTime, t: SunTime)
    ensures 0 <= MinuteOfDay(s.hour, s.minute) < MINUTES_PER_DAY
    ensures MinuteOfDay(s.hour, s.minute) == MinuteOfDay(t.hour, t.minute) <==> s == t
  {
  }

  /**
   * The cached sunrise after a lookup: kept when the sun does not rise, the
   * custom sunrise when one is set (a positive value), the reported time
   * otherwise.
   */
  function NextSunRiseMinutes(cached: int, sunRiseCustom: int, sunRise: Option<SunTime>): (r: int)
    ensures sunRise.None? ==> r == cached
    ensures sunRise.Some? && sunRiseCustom > 0 ==> r == sunRiseCustom
    ensures sunRise.Some? && sunRiseCustom <= 0 ==> 0 <= r < MINUTES_PER_DAY
  {
    match sunRise
    case None => cached
    case Some(t) => if sunRiseCustom > 0 then sunRiseCustom else MinuteOfDay(t.hour, t.minute)
  }

  /** The cached sunset after a lookup: kept when the sun does not set, else the reported time less the offset. */
  function NextSunSetMinutes(cached: int, sunSetOffset: int, sunSet: Option<SunTime>): (r: int)
    ensures sunSet.None? ==> r == cached
    ensures sunSet.Some? ==> 0 <= r + sunSetOffset < MINUTES_PER_DAY
  {
    match sunSet
    case None => cached
    case Some(t) => MinuteOfDay(t.hour, t.minute) - sunSetOffset
  }

  /**
   * The verdict of isNight for the minute of day cur: day is exactly the
   * closed interval from sunrise to sunset, both ends included.
   */
  predicate IsNightAt(cur: int, sunRiseMinutes: int, sunSetMinutes: int)
    ensures !IsNightAt(cur, sunRiseMinutes, sunSetMinutes) <==> sunRiseMinutes <= cur <= sunSetMinutes
  {
    cur > sunSetMinutes || cur < sunRiseMinutes
  }

  // ---------------------------------------------------------------------
  // The verdict

  /** Sunrise at 07:00 and sunset at 18:00: the minutes around each boundary. */
  lemma BoundaryMinutes()
    ensures IsNightAt(419, 420, 1080)
    ensures !IsNightAt(420, 420, 1080)
    ensures !IsNightAt(1080, 420, 1080)
    ensures IsNightAt(1081, 420, 1080)
  {
  }

  /**
   * With the cache as it starts, both values 0, every minute of the day is
   * night except 00:00.
   */
  lemma ColdStartIsNight(hour: int, minute: int)
    requires 0 <= hour < 24 && 0 <= minute < 60
    ensures IsNightAt(MinuteOfDay(hour, minute), 0, 0) <==> (hour, minute) != (0, 0)
  {
  }

  // ---------------------------------------------------------------------
  // The cache updates

  lemma SunRiseUpdate(cached: int, sunRiseCustom: int, sunRise: Option<SunTime>)
    ensures sunRise.None? ==> NextSunRiseMinutes(cached, sunRiseCustom, sunRise) == cached
    ensures sunRise.Some? && sunRiseCustom > 0 ==>
      NextSunRiseMinutes(cached, sunRiseCustom, sunRise) == sunRiseCustom
    ensures sunRise.Some? && sunRiseCustom <= 0 ==>
      var r := NextSunRiseMinutes(cached, sunRiseCustom, sunRise);
      r == sunRise.value.hour * 60 + sunRise.value.minute && 0 <= r < MINUTES_PER_DAY
  {
  }

  /** A custom sunrise makes the reported sunrise irrelevant, as long as the sun rises. */
  lemma CustomSunRiseOverrides(cached: int, sunRiseCustom: int, s: SunTime, t: SunTime)
    requires sunRiseCustom > 0
    ensures NextSunRiseMinutes(cached, sunRiseCustom, Some(s)) == NextSunRiseMinutes(cached, sunRiseCustom, Some(t))
  {
  }

  lemma SunSetUpdate(cached: int, sunSetOffset: int, sunSet: Option<SunTime>)
    ensures sunSet.None? ==> NextSunSetMinutes(cached, sunSetOffset, sunSet) == cached
    ensures sunSet.Some? ==>
      NextSunSetMinutes(cached, sunSetOffset, sunSet) == sunSet.value.hour * 60 + sunSet.value.minute - sunSetOffset
  {
  }

  /**
   * The sunset offset moves the end of the day earlier: with a larger offset
   * every minute that was night stays night.
   */
  lemma LargerOffsetKeepsNight(cur: int, sunRiseMinutes: int, cached: int, smaller: int, larger: int, t: SunTime)
    requires smaller <= larger
    requires IsNightAt(cur, sunRiseMinutes, NextSunSetMinutes(cached, smaller, Some(t)))
    ensures IsNightAt(cur, sunRiseMinutes, NextSunSetMinutes(cached, larger, Some(t)))
  {
  }

  /** Refreshing the cache twice with the same answers changes nothing the second time. */
  lemma RefreshIsIdempotent(
    sunRiseMinutes: int, sunSetMinutes: int, sunRiseCustom: int, sunSetOffset: int,
    sunRise: Option<SunTime>, sunSet: Option<SunTime>)
    ensures var r := NextSunRiseMinutes(sunRiseMinutes, sunRiseCustom, sunRise);
      NextSunRiseMinutes(r, sunRiseCustom, sunRise) == r
    ensures var s := NextSunSetMinutes(sunSetMinutes, sunSetOffset, sunSet);
      NextSunSetMinutes(s, sunSetOffset, sunSet) == s
  {
  }
}
