/** Duration decomposition: `msToTime`, which splits a millisecond count into
    days, hours, minutes and seconds, or returns one running total when a unit
    is selected. */
module Time {
  import opened Arith

  datatype Option<T> = None | Some(value: T)

  /** The `TimeObject` record: days, hours, minutes and seconds. */
  datatype TimeObject = TimeObject(d: nat, h: nat, m: nat, s: nat)

  /** The `TimeFormats` selector: 's', 'm', 'h' or 'd'. */
  datatype TimeFormat = Seconds | Minutes | Hours | Days

  /** What `msToTime` returns: the record when no selector is given, a single
      number otherwise. */
  datatype TimeValue = Breakdown(obj: TimeObject) | Total(amount: nat)

  /** Hours, minutes and seconds lie below their moduli (days are unbounded). */
  predicate WithinModuli(t: TimeObject) {
    t.h < 24 && t.m < 60 && t.s < 60
  }

  /** The whole number of seconds a record stands for. */
  function TotalSeconds(t: TimeObject): nat {
    t.d * 86400 + t.h * 3600 + t.m * 60 + t.s
  }

  /** `msToTime(milliseconds, format)` for a non-negative integer count. */
  function MsToTime(ms: nat, format: Option<TimeFormat>): (r: TimeValue)
    ensures format.None? <==> r.Breakdown?
    ensures r.Breakdown? ==> WithinModuli(r.obj) && TotalSeconds(r.obj) == ms / 1000
    ensures format == Some(Seconds) ==> r == Total(ms / 1000)
    ensures format == Some(Minutes) ==> r == Total(ms / 60000)
    ensures format == Some(Hours) ==> r == Total(ms / 3600000)
    ensures format == Some(Days) ==> r == Total(ms / 86400000)
  {
    var totalSeconds := ms / 1000;
    var totalMinutes := totalSeconds / 60;
    var totalHours := totalMinutes / 60;
    var days := totalHours / 24;
    var seconds := totalSeconds % 60;
    var minutes := totalMinutes % 60;
    var hours := totalHours % 24;
    match format
    case Some(Seconds) => Total(totalSeconds)
    case Some(Minutes) => Total(totalMinutes)
    case Some(Hours) => Total(totalHours)
    case Some(Days) => Total(days)
    case None => Breakdown(TimeObject(days, hours, minutes, seconds))
  }

  /** The 'd' total is the record's day field. */
  lemma DaysTotalIsDayField(ms: nat)
    ensures MsToTime(ms, Some(Days)).amount == MsToTime(ms, None).obj.d
  {
  }

  /** The record is the only one within the moduli that stands for
      `ms / 1000` seconds: decomposing the milliseconds of any such record,
      plus any sub-second remainder, gives that record back. */
  lemma BreakdownInverse(t: TimeObject, extra: nat)
    requires WithinModuli(t) && extra < 1000
    ensures MsToTime(TotalSeconds(t) * 1000 + extra, None) == Breakdown(t)
  {
    var ms := TotalSeconds(t) * 1000 + extra;
    DivUnique(ms, 1000, TotalSeconds(t), extra);
    var ts := TotalSeconds(t);
    var tm := t.d * 1440 + t.h * 60 + t.m;
    var th := t.d * 24 + t.h;
    DivUnique(ts, 60, tm, t.s);
    DivUnique(tm, 60, th, t.m);
    DivUnique(th, 24, t.d, t.h);
  }

  /** The examples of the documentation and the test suite: one hour, one day,
      and 2 days 3 hours 4 minutes 5 seconds and 6 milliseconds. */
  lemma MsToTimeExamples()
    ensures MsToTime(3600000, None) == Breakdown(TimeObject(0, 1, 0, 0))
    ensures MsToTime(3600000, Some(Seconds)) == Total(3600)
    ensures MsToTime(3600000, Some(Minutes)) == Total(60)
    ensures MsToTime(3600000, Some(Hours)) == Total(1)
    ensures MsToTime(86400000, Some(Days)) == Total(1)
    ensures MsToTime(183845006, None) == Breakdown(TimeObject(2, 3, 4, 5))
    ensures MsToTime(183845006, Some(Days)) == Total(2)
    ensures MsToTime(183845006, Some(Hours)) == Total(51)
    ensures MsToTime(183845006, Some(Minutes)) == Total(3064)
    ensures MsToTime(183845006, Some(Seconds)) == Total(183845)
  {
  }
}
