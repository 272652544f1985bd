/**
 `format_elapsed` of src/predict.py: a whole number of elapsed seconds is split
 into days, hours, minutes and seconds by chained `divmod`, and rendered as
 `"{h}h{mm}m{ss}s"`, prefixed with `"{d}d"` only when there is at least one day.

 The argument is the already truncated `int(time.time() - start_time)`. It is an
 `int`, not a `nat`: a clock that steps backwards makes it negative, and the
 chained `divmod` then floors. Python's `divmod` by a positive divisor agrees
 with Dafny's Euclidean `/` and `%`, so the arithmetic below is the source's.
 */
module Elapsed {
  import opened Numerals

  const SecondsPerMinute := 60
  const MinutesPerHour := 60
  const HoursPerDay := 24
  const SecondsPerHour := 3600
  const SecondsPerDay := 86400

  datatype Duration = Duration(days: int, hours: nat, minutes: nat, seconds: nat)

  /** Every field but `days` is within the range of its unit. */
  predicate Normal(d: Duration) {
    d.hours < HoursPerDay && d.minutes < MinutesPerHour && d.seconds < SecondsPerMinute
  }

  function TotalSeconds(d: Duration): int {
    d.days * SecondsPerDay + d.hours * SecondsPerHour + d.minutes * SecondsPerMinute + d.seconds
  }

  /** The three chained `divmod` calls. */
  function Decompose(elapsed: int): (d: Duration)
    ensures Normal(d)
    ensures TotalSeconds(d) == elapsed
    ensures d.days > 0 <==> elapsed >= SecondsPerDay
  {
    var minutes, seconds := elapsed / SecondsPerMinute, elapsed % SecondsPerMinute;
    var hours, minutes' := minutes / MinutesPerHour, minutes % MinutesPerHour;
    var days, hours' := hours / HoursPerDay, hours % HoursPerDay;
    Duration(days, hours', minutes', seconds)
  }

  /** A normal duration is the decomposition of its own total: the split is unique. */
  lemma DecomposeUnique(d: Duration)
    requires Normal(d)
    ensures Decompose(TotalSeconds(d)) == d
  {
    // Each divmod step peels off one unit; the quotients are the coarser units.
    var minutes := d.days * 1440 + d.hours * 60 + d.minutes;
    var hours := d.days * 24 + d.hours;
    assert TotalSeconds(d) / 60 == minutes;
    assert minutes / 60 == hours;
  }

  /** The seconds, minutes and hours part, which never contains a `d`. */
  function Clock(d: Duration): (r: string)
    ensures 'd' !in r
  {
    var h, m, s := NatToString(d.hours), Pad2(d.minutes), Pad2(d.seconds);
    NoDayInDigits(h);
    NoDayInDigits(m);
    NoDayInDigits(s);
    h + "h" + m + "m" + s + "s"
  }

  /** The `format` call, with the day prefix added only for a positive day count. */
  function Render(d: Duration): string {
    if d.days > 0 then NatToString(d.days) + "d" + Clock(d) else Clock(d)
  }

  lemma NoDayInDigits(s: string)
    requires AllDigits(s)
    ensures 'd' !in s
  {
  }

  function FormatElapsed(elapsed: int): (r: string)
    ensures 'd' in r <==> elapsed >= SecondsPerDay
  {
    var d := Decompose(elapsed);
    assert d.days > 0 ==> (NatToString(d.days) + "d" + Clock(d))[|NatToString(d.days)|] == 'd';
    Render(d)
  }

  /** Below one day the result is exactly the hours, padded minutes and padded seconds of `elapsed`. */
  lemma FormatElapsedWithinDay(elapsed: int)
    requires 0 <= elapsed < SecondsPerDay
    ensures FormatElapsed(elapsed)
            == NatToString(elapsed / 3600) + "h" + Pad2(elapsed / 60 % 60) + "m" + Pad2(elapsed % 60) + "s"
  {
    var m := elapsed / 60;
    var h := elapsed / 3600;
    assert m / 60 == h;
    assert h < 24;
    var d := Duration(0, h, m % 60, elapsed % 60);
    assert TotalSeconds(d) == elapsed;
    DecomposeUnique(d);
  }

  /** From one day on, the result is the day count, a `d`, and the rendering of the remainder of the day. */
  lemma FormatElapsedDayPrefix(elapsed: int)
    requires elapsed >= SecondsPerDay
    ensures FormatElapsed(elapsed)
            == NatToString(elapsed / SecondsPerDay) + "d" + FormatElapsed(elapsed % SecondsPerDay)
  {
    SplitDay(elapsed);
  }

  /** A negative count (a clock that stepped back) renders as its place within a day, with no day prefix. */
  lemma FormatElapsedNegative(elapsed: int)
    requires elapsed < 0
    ensures FormatElapsed(elapsed) == FormatElapsed(elapsed % SecondsPerDay)
  {
    SplitDay(elapsed);
    var d := Decompose(elapsed);
    assert Render(d) == Clock(d);
  }

  /** Whole days and the remainder within the day are the two halves of the decomposition. */
  lemma SplitDay(elapsed: int)
    ensures var d := Decompose(elapsed);
            && elapsed / SecondsPerDay == d.days
            && Decompose(elapsed % SecondsPerDay) == Duration(0, d.hours, d.minutes, d.seconds)
  {
    var d := Decompose(elapsed);
    DecomposeUnique(Duration(0, d.hours, d.minutes, d.seconds));
  }

  /** Index of the first `c` in `s`, or `|s|` when there is none. */
  function IndexOf(s: string, c: char): (i: nat)
    ensures i <= |s|
    ensures i < |s| ==> s[i] == c
    ensures forall k :: 0 <= k < i ==> s[k] != c
  {
    if s == [] then 0 else if s[0] == c then 0 else 1 + IndexOf(s[1..], c)
  }

  /** Reads back the day and hour fields, `"{d}d{h}"` or `"{h}"`. */
  function ParseDaysHours(head: string): Option<(int, nat)> {
    var i := IndexOf(head, 'd');
    if i == |head| then
      match ParseNat(head)
      case Some(h) => Some((0, h))
      case None => None
    else
      match (ParseNat(head[..i]), ParseNat(head[i + 1..]))
      case (Some(d), Some(h)) => Some((d, h))
      case _ => None
  }

  /** Reads an elapsed-time string back into seconds; `None` when it is not laid out as `FormatElapsed` lays it out. */
  function ParseElapsed(s: string): Option<int> {
    if |s| < 8 || s[|s| - 1] != 's' || s[|s| - 4] != 'm' || s[|s| - 7] != 'h' then None
    else
      match (ParseDaysHours(s[..|s| - 7]), ParseNat(s[|s| - 6..|s| - 4]), ParseNat(s[|s| - 3..|s| - 1]))
      case (Some((d, h)), Some(m), Some(sec)) => Some(TotalSeconds(Duration(d, h, m, sec)))
      case _ => None
  }

  /** The fixed-width tail of the layout: where the minute and second fields sit. */
  lemma ClockLayout(head: string, mm: string, ss: string)
    requires |mm| == 2 && |ss| == 2
    ensures var r := head + "h" + mm + "m" + ss + "s";
            |r| >= 7 + |head| && r[|r| - 1] == 's' && r[|r| - 4] == 'm' && r[|r| - 7] == 'h'
            && r[..|r| - 7] == head && r[|r| - 6..|r| - 4] == mm && r[|r| - 3..|r| - 1] == ss
  {
  }

  /** The head of the layout reads back as the day and hour counts. */
  lemma DaysHoursRoundTrip(d: Duration)
    requires d.days >= 0
    ensures ParseDaysHours((if d.days > 0 then NatToString(d.days) + "d" else "") + NatToString(d.hours))
            == Some((d.days, d.hours))
  {
    var h := NatToString(d.hours);
    NatToStringRoundTrip(d.hours);
    NoDayInDigits(h);
    if d.days > 0 {
      var ds := NatToString(d.days);
      var head := ds + "d" + h;
      NoDayInDigits(ds);
      assert head[|ds|] == 'd';
      assert IndexOf(head, 'd') == |ds|;
      assert head[..|ds|] == ds;
      assert head[|ds| + 1..] == h;
      NatToStringRoundTrip(d.days);
    } else {
      assert "" + h == h;
    }
  }

  /** No information is lost: the rendered string of a non-negative count determines the count. */
  lemma FormatElapsedRoundTrip(elapsed: int)
    requires elapsed >= 0
    ensures ParseElapsed(FormatElapsed(elapsed)) == Some(elapsed)
  {
    var d := Decompose(elapsed);
    var h, mm, ss := NatToString(d.hours), Pad2(d.minutes), Pad2(d.seconds);
    var head := (if d.days > 0 then NatToString(d.days) + "d" else "") + h;
    var r := FormatElapsed(elapsed);
    assert r == head + "h" + mm + "m" + ss + "s";
    ParseLaidOut(d);
  }

  /** The layout reads back field by field. */
  lemma ParseLaidOut(d: Duration)
    requires Normal(d) && d.days >= 0
    ensures ParseElapsed((if d.days > 0 then NatToString(d.days) + "d" else "") + NatToString(d.hours)
                         + "h" + Pad2(d.minutes) + "m" + Pad2(d.seconds) + "s")
            == Some(TotalSeconds(d))
  {
    var head := (if d.days > 0 then NatToString(d.days) + "d" else "") + NatToString(d.hours);
    var mm, ss := Pad2(d.minutes), Pad2(d.seconds);
    ClockLayout(head, mm, ss);
    DaysHoursRoundTrip(d);
    Pad2RoundTrip(d.minutes);
    Pad2RoundTrip(d.seconds);
  }

  /** Distinct non-negative counts render differently. */
  lemma FormatElapsedInjective(a: int, b: int)
    requires a >= 0 && b >= 0
    requires FormatElapsed(a) == FormatElapsed(b)
    ensures a == b
  {
    FormatElapsedRoundTrip(a);
    FormatElapsedRoundTrip(b);
  }
}
