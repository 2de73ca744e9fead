/**
 * `secondsAgoFromUnix`: the relative-age label of a trade timestamp. The
 * label is a count and a unit ("30s ago" is Ago(30, Seconds)); the current
 * time in whole seconds is an explicit argument.
 */
module TimeAgo {
  import opened Wrappers

  datatype Unit = Seconds | Minutes | Hours | Days

  /** `Missing` is the em-dash shown for an absent timestamp. */
  datatype Label = Missing | Ago(count: int, unit: Unit)

  function UnitSeconds(u: Unit): int {
    match u
    case Seconds => 1
    case Minutes => 60
    case Hours => 3600
    case Days => 86400
  }

  /** Age at `now`; a timestamp in the future reads as 0. */
  function Diff(unixSeconds: int, nowSeconds: int): (d: int)
    ensures d >= 0 && d >= nowSeconds - unixSeconds
    ensures d == 0 || d == nowSeconds - unixSeconds
  {
    if nowSeconds - unixSeconds > 0 then nowSeconds - unixSeconds else 0
  }

  function SecondsAgo(unixSeconds: Option<int>, nowSeconds: int): (l: Label)
    ensures l.Missing? <==> unixSeconds.None? || unixSeconds.value == 0
    ensures l.Ago? ==> var d := Diff(unixSeconds.value, nowSeconds);
              UnitSeconds(l.unit) * l.count <= d < UnitSeconds(l.unit) * (l.count + 1)
    ensures l.Ago? ==> l.count >= 0
    ensures l.Ago? && l.unit != Seconds ==> l.count >= 1
    ensures l.Ago? && (l.unit == Seconds || l.unit == Minutes) ==> l.count < 60
    ensures l.Ago? && l.unit == Hours ==> l.count < 24
  {
    if unixSeconds.None? || unixSeconds.value == 0 then Missing
    else
      var diff := Diff(unixSeconds.value, nowSeconds);
      if diff < 60 then Ago(diff, Seconds)
      else
        var mins := diff / 60;
        if mins < 60 then Ago(mins, Minutes)
        else
          var hrs := mins / 60;
          if hrs < 24 then Ago(hrs, Hours)
          else Ago(hrs / 24, Days)
  }

  /** The unit is the largest one that fits the age: seconds below a minute, and so on. */
  lemma UnitChoice(t: int, now: int)
    requires t != 0
    ensures var d := Diff(t, now);
            var l := SecondsAgo(Some(t), now);
            (l.unit == Seconds <==> d < 60)
            && (l.unit == Minutes <==> 60 <= d < 3600)
            && (l.unit == Hours <==> 3600 <= d < 86400)
            && (l.unit == Days <==> 86400 <= d)
  {
  }

  /** A future timestamp reads "0s ago"; a year-old one reads "365d ago". */
  lemma LabelExamples(now: int)
    requires now > 31536000
    ensures SecondsAgo(Some(now + 100), now) == Ago(0, Seconds)
    ensures SecondsAgo(Some(now - 3540), now) == Ago(59, Minutes)
    ensures SecondsAgo(Some(now - 82800), now) == Ago(23, Hours)
    ensures SecondsAgo(Some(now - 31536000), now) == Ago(365, Days)
  {
  }
}
