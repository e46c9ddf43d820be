/**
 * Relative ages (app.js `timeAgo`): the elapsed whole seconds are bucketed
 * into flat-length units (a 365-day year, a 30-day month) and rendered as
 * `"<n> <unit>[s] ago"`, or `"just now"` under a minute.
 */
module TimeAgo {

  datatype Interval = Interval(name: string, seconds: nat)

  /** The units, largest first, exactly as the source lists them. */
  const Intervals: seq<Interval> := [
    Interval("year", 31536000),
    Interval("month", 2592000),
    Interval("week", 604800),
    Interval("day", 86400),
    Interval("hour", 3600),
    Interval("minute", 60)
  ]

  /**
   * `Math.floor((now - date) / 1000)` for two millisecond timestamps. Dafny's
   * `/` is Euclidean, which is floor division when the divisor is positive.
   */
  function ElapsedSeconds(nowMs: int, thenMs: int): (seconds: int)
    ensures seconds * 1000 <= nowMs - thenMs < seconds * 1000 + 1000
  {
    (nowMs - thenMs) / 1000
  }

  /** Decimal digits of n as JavaScript prints a non-negative integer: no sign, no leading zero. */
  function NatToString(n: nat): (s: string)
    ensures |s| >= 1
    ensures forall i :: 0 <= i < |s| ==> '0' <= s[i] <= '9'
    ensures s[0] == '0' ==> n == 0
  {
    if n < 10 then ['0' + n as char]
    else NatToString(n / 10) + ['0' + (n % 10) as char]
  }

  /** The number a string of decimal digits denotes. */
  function DecimalValue(s: string): nat
    requires forall i :: 0 <= i < |s| ==> '0' <= s[i] <= '9'
  {
    if s == [] then 0
    else DecimalValue(s[..|s| - 1]) * 10 + (s[|s| - 1] - '0') as nat
  }

  /** The printed count reads back as the count. */
  lemma {:induction false} DecimalRoundTrip(n: nat)
    ensures DecimalValue(NatToString(n)) == n
  {
    if n >= 10 {
      var s := NatToString(n);
      assert s[..|s| - 1] == NatToString(n / 10);
      DecimalRoundTrip(n / 10);
    }
  }

  lemma ProductAtLeast(d: int, q: int)
    requires d > 0 && q >= 1
    ensures d * q >= d
  {
    assert d * q == d * (q - 1) + d;
  }

  lemma ProductAtMostZero(d: int, q: int)
    requires d > 0 && q <= 0
    ensures d * q <= 0
  {
    assert d * q == -(d * -q);
  }

  /** For a positive divisor the floored quotient reaches one exactly when the dividend reaches the divisor. */
  lemma DivisionReachesOne(x: int, d: int)
    requires d > 0
    ensures x / d >= 1 <==> x >= d
  {
    var q, r := x / d, x % d;
    assert x == d * q + r && 0 <= r < d;
    if q >= 1 {
      ProductAtLeast(d, q);
    } else {
      ProductAtMostZero(d, q);
    }
  }

  /** The index of the first unit, from `from` on, that fits in `elapsed`; `|Intervals|` when none does. */
  function FirstFit(elapsed: int, from: nat): (k: nat)
    requires from <= |Intervals|
    ensures from <= k <= |Intervals|
    ensures forall j :: from <= j < k ==> elapsed < Intervals[j].seconds
    ensures k < |Intervals| ==> Intervals[k].seconds <= elapsed
    decreases |Intervals| - from
  {
    if from == |Intervals| || Intervals[from].seconds <= elapsed then from
    else FirstFit(elapsed, from + 1)
  }

  /** The bucket an elapsed time falls in: a count of `Intervals[unit]`, or under a minute. */
  datatype Age = JustNow | Ago(count: nat, unit: nat)

  function AgeOf(elapsed: int): (a: Age)
    ensures a.Ago? ==> a.unit < |Intervals| && a.count >= 1
  {
    var k := FirstFit(elapsed, 0);
    if k == |Intervals| then JustNow
    else
      DivisionReachesOne(elapsed, Intervals[k].seconds);
      Ago(elapsed / Intervals[k].seconds, k)
  }

  function Phrase(a: Age): string
    requires a.Ago? ==> a.unit < |Intervals|
  {
    match a
    case JustNow => "just now"
    case Ago(count, unit) =>
      NatToString(count) + " " + Intervals[unit].name + (if count > 1 then "s" else "") + " ago"
  }

  /** What `timeAgo` returns for an elapsed time in whole seconds. */
  function TimeAgoText(elapsed: int): string
  {
    Phrase(AgeOf(elapsed))
  }

  /** The source's loop: the first unit whose floored count is at least one wins. */
  method TimeAgo(elapsed: int) returns (text: string)
    ensures text == TimeAgoText(elapsed)
  {
    var i := 0;
    while i < |Intervals|
      invariant 0 <= i <= |Intervals|
      invariant forall j :: 0 <= j < i ==> elapsed < Intervals[j].seconds
    {
      var count := elapsed / Intervals[i].seconds;
      DivisionReachesOne(elapsed, Intervals[i].seconds);
      if count >= 1 {
        return NatToString(count) + " " + Intervals[i].name + (if count > 1 then "s" else "") + " ago";
      }
      i := i + 1;
    }
    return "just now";
  }

  /** `"just now"` exactly when less than a minute has passed, negative elapsed times included. */
  lemma JustNowIff(elapsed: int)
    ensures TimeAgoText(elapsed) == "just now" <==> elapsed < 60
  {
    var a := AgeOf(elapsed);
    if a.Ago? {
      var text := TimeAgoText(elapsed);
      assert text[0] == NatToString(a.count)[0];
      assert text[0] != 'j';
    }
  }

  /** The unit chosen is the largest that fits, and the count is the floored number of whole units. */
  lemma LargestUnitFits(elapsed: int)
    ensures AgeOf(elapsed).JustNow? <==> elapsed < 60
    ensures AgeOf(elapsed).Ago? ==>
      var k := AgeOf(elapsed).unit;
      var count := AgeOf(elapsed).count;
      && Intervals[k].seconds <= elapsed
      && count * Intervals[k].seconds <= elapsed < (count + 1) * Intervals[k].seconds
      && forall j :: 0 <= j < |Intervals| && Intervals[j].seconds <= elapsed ==>
           Intervals[j].seconds <= Intervals[k].seconds
  {
    var k := FirstFit(elapsed, 0);
    if k < |Intervals| {
      var d := Intervals[k].seconds;
      var count := elapsed / d;
      assert count * d <= elapsed < (count + 1) * d;
    }
  }

  /** The count stays below the next unit up: at most 12 months, 4 weeks, 6 days, 23 hours, 59 minutes. */
  lemma CountBelowNextUnit(elapsed: int)
    ensures AgeOf(elapsed).Ago? ==>
      var a := AgeOf(elapsed);
      && (Intervals[a.unit].name == "month" ==> a.count <= 12)
      && (Intervals[a.unit].name == "week" ==> a.count <= 4)
      && (Intervals[a.unit].name == "day" ==> a.count <= 6)
      && (Intervals[a.unit].name == "hour" ==> a.count <= 23)
      && (Intervals[a.unit].name == "minute" ==> a.count <= 59)
  {
    var k := FirstFit(elapsed, 0);
    if 0 < k < |Intervals| {
      assert elapsed < Intervals[k - 1].seconds;
    }
  }

  /** The unit is written in the plural (`"s ago"` at the end) exactly when the count exceeds one. */
  lemma PluralIff(elapsed: int)
    requires AgeOf(elapsed).Ago?
    ensures var text := TimeAgoText(elapsed);
      |text| >= 5 && (text[|text| - 5..] == "s ago" <==> AgeOf(elapsed).count > 1)
  {
    var a := AgeOf(elapsed);
    var text := TimeAgoText(elapsed);
    var stem := NatToString(a.count) + " " + Intervals[a.unit].name;
    if a.count > 1 {
      assert text == stem + "s ago";
      assert text[|text| - 5..] == "s ago";
    } else {
      assert text == stem + " ago";
      assert text[|text| - 5] == stem[|stem| - 1];
      assert stem[|stem| - 1] != 's';
    }
  }

  /** The worked examples: 90 s is one minute, 3600 s one hour, 7200 s two hours, 30 s just now. */
  lemma NinetySeconds()
    ensures TimeAgoText(90) == "1 minute ago"
  {
  }

  lemma OneHour()
    ensures TimeAgoText(3600) == "1 hour ago"
  {
  }

  lemma TwoHours()
    ensures TimeAgoText(7200) == "2 hours ago"
  {
  }

  lemma ThirtySeconds()
    ensures TimeAgoText(30) == "just now"
  {
  }
}
