/**
 * The relative-age label shown beside posts and comments ("5m", "3h", "2w", ...).
 * The clock is a parameter: `nowMs` and the stored instant `thenMs` are
 * milliseconds since the epoch.
 */
module TimeUtils {
  import opened Text

  const MS_PER_MINUTE: int := 60_000
  const MS_PER_HOUR: int := 3_600_000
  const MS_PER_DAY: int := 86_400_000

  /**
   * The suffix rule of `parseTimestamp`: a stored timestamp is read as UTC by
   * appending "Z" unless it already ends with one. The result is the input
   * extended by at most one character, it ends with "Z", and an input that
   * already ends with "Z" is kept as it is.
   */
  function WithUtcSuffix(s: string): (r: string)
    ensures EndsWith(r, "Z")
    ensures |s| <= |r| <= |s| + 1 && r[..|s|] == s
    ensures EndsWith(s, "Z") ==> r == s
  {
    if EndsWith(s, "Z") then s else s + "Z"
  }

  lemma WithUtcSuffixIdempotent(s: string)
    ensures WithUtcSuffix(WithUtcSuffix(s)) == WithUtcSuffix(s)
  {
  }

  datatype Unit = Minutes | Hours | Days | Weeks | Months | Years

  /** The order in which the units take over as time passes. */
  function Rank(u: Unit): nat {
    match u
    case Minutes => 0
    case Hours => 1
    case Days => 2
    case Weeks => 3
    case Months => 4
    case Years => 5
  }

  function UnitSuffix(u: Unit): string {
    match u
    case Minutes => "m"
    case Hours => "h"
    case Days => "d"
    case Weeks => "w"
    case Months => "mo"
    case Years => "y"
  }

  /** A bucketed age: a count of some unit. */
  datatype Age = Age(count: nat, unit: Unit)

  /**
   * `Math.max(1, Math.floor(diffMs / 60000))`: whole minutes elapsed, at least
   * one. (Dafny's `/` by a positive constant is the floor.)
   */
  function ElapsedMinutes(diffMs: int): (m: nat)
    ensures m >= 1
    ensures diffMs < 2 * MS_PER_MINUTE ==> m == 1
    ensures diffMs >= MS_PER_MINUTE ==> m * MS_PER_MINUTE <= diffMs < (m + 1) * MS_PER_MINUTE
  {
    var floorMin := diffMs / MS_PER_MINUTE;
    if floorMin < 1 then 1 else floorMin
  }

  /** The chain of floor divisions and early returns of `formatLiveTime`. */
  function AgeOf(diffMs: int): Age {
    var diffMin := ElapsedMinutes(diffMs);
    if diffMin < 60 then Age(diffMin, Minutes)
    else
      var diffHr := diffMin / 60;
      if diffHr < 24 then Age(diffHr, Hours)
      else
        var diffDays := diffHr / 24;
        if diffDays < 7 then Age(diffDays, Days)
        else if diffDays < 28 then Age(diffDays / 7, Weeks)
        else if diffDays < 365 then Age(diffDays / 30, Months)
        else Age(diffDays / 365, Years)
  }

  function Label(a: Age): string {
    NatToString(a.count) + UnitSuffix(a.unit)
  }

  /** `formatLiveTime` with the clock passed in. */
  function FormatLiveTime(nowMs: int, thenMs: int): string {
    Label(AgeOf(nowMs - thenMs))
  }

  /** For at least one minute elapsed, the minute, hour and day counts are floors of the milliseconds. */
  lemma FloorChain(diffMs: int)
    requires diffMs >= MS_PER_MINUTE
    ensures ElapsedMinutes(diffMs) == diffMs / MS_PER_MINUTE
    ensures ElapsedMinutes(diffMs) / 60 == diffMs / MS_PER_HOUR
    ensures ElapsedMinutes(diffMs) / 60 / 24 == diffMs / MS_PER_DAY
  {
    var m := diffMs / MS_PER_MINUTE;
    var h := m / 60;
    assert h * MS_PER_HOUR <= diffMs < (h + 1) * MS_PER_HOUR;
    var d := h / 24;
    assert d * MS_PER_DAY <= diffMs < (d + 1) * MS_PER_DAY;
  }

  /** Less than two minutes elapsed, a future instant included, reads "1m". */
  lemma UnderTwoMinutes(diffMs: int)
    requires diffMs < 2 * MS_PER_MINUTE
    ensures AgeOf(diffMs) == Age(1, Minutes)
  {
  }

  /**
   * Which unit is chosen, by elapsed milliseconds, and the count it shows:
   * minutes 1..59 below an hour, hours 1..23 below a day, days 1..6 below a
   * week, weeks 1..3 below 28 days, months 0..12 below 365 days, and at least
   * one year beyond.
   */
  lemma {:induction false} AgeRanges(diffMs: int)
    ensures var a := AgeOf(diffMs);
      && (a.unit == Minutes <==> diffMs < MS_PER_HOUR)
      && (a.unit == Hours <==> MS_PER_HOUR <= diffMs < MS_PER_DAY)
      && (a.unit == Days <==> MS_PER_DAY <= diffMs < 7 * MS_PER_DAY)
      && (a.unit == Weeks <==> 7 * MS_PER_DAY <= diffMs < 28 * MS_PER_DAY)
      && (a.unit == Months <==> 28 * MS_PER_DAY <= diffMs < 365 * MS_PER_DAY)
      && (a.unit == Years <==> 365 * MS_PER_DAY <= diffMs)
    ensures var a := AgeOf(diffMs);
      && (a.unit == Minutes ==> 1 <= a.count <= 59 && (diffMs >= MS_PER_MINUTE ==> a.count == diffMs / MS_PER_MINUTE))
      && (a.unit == Hours ==> 1 <= a.count <= 23 && a.count == diffMs / MS_PER_HOUR)
      && (a.unit == Days ==> 1 <= a.count <= 6 && a.count == diffMs / MS_PER_DAY)
      && (a.unit == Weeks ==> 1 <= a.count <= 3 && a.count == diffMs / MS_PER_DAY / 7)
      && (a.unit == Months ==> a.count <= 12 && a.count == diffMs / MS_PER_DAY / 30)
      && (a.unit == Years ==> 1 <= a.count && a.count == diffMs / MS_PER_DAY / 365)
  {
    if diffMs >= MS_PER_MINUTE {
      FloorChain(diffMs);
    }
  }

  /** 28 and 29 days show as "0mo": the month bucket starts before the first whole month. */
  lemma ZeroMonths(nowMs: int, thenMs: int)
    requires 28 * MS_PER_DAY <= nowMs - thenMs < 30 * MS_PER_DAY
    ensures FormatLiveTime(nowMs, thenMs) == "0mo"
  {
    AgeRanges(nowMs - thenMs);
  }

  /** As more time passes, the unit never goes back, and within one unit the count never drops. */
  lemma {:induction false} AgeMonotone(d1: int, d2: int)
    requires d1 <= d2
    ensures Rank(AgeOf(d1).unit) <= Rank(AgeOf(d2).unit)
    ensures AgeOf(d1).unit == AgeOf(d2).unit ==> AgeOf(d1).count <= AgeOf(d2).count
  {
    AgeRanges(d1);
    AgeRanges(d2);
    if AgeOf(d1).unit == AgeOf(d2).unit && d1 >= MS_PER_MINUTE {
      assert d1 / MS_PER_MINUTE <= d2 / MS_PER_MINUTE;
      assert d1 / MS_PER_DAY <= d2 / MS_PER_DAY;
    }
  }

  /** The labels for 30 seconds, 90 minutes, 3, 10, 40 and 400 days. */
  lemma Examples(nowMs: int)
    ensures FormatLiveTime(nowMs, nowMs - 30_000) == "1m"
    ensures FormatLiveTime(nowMs, nowMs - 90 * MS_PER_MINUTE) == "1h"
    ensures FormatLiveTime(nowMs, nowMs - 3 * MS_PER_DAY) == "3d"
    ensures FormatLiveTime(nowMs, nowMs - 10 * MS_PER_DAY) == "1w"
    ensures FormatLiveTime(nowMs, nowMs - 40 * MS_PER_DAY) == "1mo"
    ensures FormatLiveTime(nowMs, nowMs - 400 * MS_PER_DAY) == "1y"
  {
  }
}
