/** The time resolver, `parse_time`: turns "HH:MM" or "HH:MM-HH:MM" and a date into a start
    and an end instant. All instants are in the one fixed UTC offset captured when the
    program starts, so an instant is written as the date plus the minutes since that
    date's midnight; an end on the following day has 1440 minutes or more. */
module TimeResolver {
  import opened Outcome
  import opened Text
  import opened Calendar

  const MinutesPerHour: nat := 60
  const MinutesPerDay: nat := 1440

  /** `datetime.strptime(s, "%H:%M")`, as minutes since midnight: one or two digits of
      hour up to 23, a colon, one or two digits of minute up to 59, and nothing else. */
  function ParseClock(s: string): (t: Option<nat>)
    ensures t.Some? ==> t.value < MinutesPerDay
  {
    if ':' !in s then None
    else
      var i := IndexOf(s, ':');
      match (ParseSmall(s[..i]), ParseSmall(s[i + 1..]))
      case (Some(h), Some(m)) => if h <= 23 && m <= 59 then Some(h * MinutesPerHour + m) else None
      case _ => None
  }

  /** A time of day written "HH:MM". */
  function FormatClock(t: nat): string
    requires t < MinutesPerDay
  {
    Pad2(t / MinutesPerHour) + ":" + Pad2(t % MinutesPerHour)
  }

  /** Every time of day written "HH:MM" reads back as itself. */
  lemma ClockRoundTrip(t: nat)
    requires t < MinutesPerDay
    ensures ParseClock(FormatClock(t)) == Some(t)
  {
    var s := FormatClock(t);
    assert s[2] == ':' && ':' !in s[..2];
    assert s[..2] == Pad2(t / MinutesPerHour) && s[3..] == Pad2(t % MinutesPerHour);
    Pad2RoundTrip(t / MinutesPerHour);
    Pad2RoundTrip(t % MinutesPerHour);
  }

  /** What a readable clock text reads as: the hour digits before the one colon, up to 23,
      and the minute digits after it, up to 59, each one or two digits long ("9:30",
      "09:30" and "9:5" alike), taken as hours and minutes. */
  lemma ClockReading(s: string)
    requires ParseClock(s).Some?
    ensures ':' in s
    ensures var i := IndexOf(s, ':');
            1 <= i <= 2 && AllDigits(s[..i]) && Value(s[..i]) <= 23
            && 1 <= |s[i + 1..]| <= 2 && AllDigits(s[i + 1..]) && Value(s[i + 1..]) <= 59
            && ParseClock(s).value == Value(s[..i]) * MinutesPerHour + Value(s[i + 1..])
  {
  }

  /** Conversely, hour digits up to 23, a colon and minute digits up to 59, one or two
      digits each, read as that time of day. */
  lemma ClockOfPieces(h: string, m: string, hour: nat, minute: nat)
    requires 1 <= |h| <= 2 && AllDigits(h) && Value(h) == hour <= 23
    requires 1 <= |m| <= 2 && AllDigits(m) && Value(m) == minute <= 59
    ensures ParseClock(h + ":" + m) == Some(hour * MinutesPerHour + minute)
  {
    DigitsHaveNoColon(h);
    FirstAfter(h, ':', m);
    ClockAt(h + ":" + m, |h|, hour, minute);
  }

  /** Digits are never a colon, so the colon after the hour digits is the first one. */
  lemma DigitsHaveNoColon(h: string)
    requires AllDigits(h)
    ensures ':' !in h
  {
    forall k | 0 <= k < |h| ensures h[k] != ':' {
      assert IsDigit(h[k]);
    }
  }

  /** With the first colon at i, hour digits before it and minute digits after it, the
      text reads as that time of day. */
  lemma ClockAt(s: string, i: nat, hour: nat, minute: nat)
    requires ':' in s && IndexOf(s, ':') == i
    requires ParseSmall(s[..i]) == Some(hour) && hour <= 23
    requires ParseSmall(s[i + 1..]) == Some(minute) && minute <= 59
    ensures ParseClock(s) == Some(hour * MinutesPerHour + minute)
  {
  }

  /** A clock text is exactly three to five characters of digits and one colon, so any
      whitespace in it (the strip is never applied to the pieces) makes it unreadable. */
  lemma ClockShape(s: string)
    ensures ParseClock(s).Some? ==> 3 <= |s| <= 5
    ensures ParseClock(s).Some? ==> forall k :: 0 <= k < |s| ==> IsDigit(s[k]) || s[k] == ':'
  {
    if ParseClock(s).None? {
      return;
    }
    var i := IndexOf(s, ':');
    assert s == s[..i] + [':'] + s[i + 1..];
    forall k | 0 <= k < |s|
      ensures IsDigit(s[k]) || s[k] == ':'
    {
      if k < i {
        assert s[k] == s[..i][k];
      } else if k > i {
        assert s[k] == s[i + 1..][k - i - 1];
      }
    }
  }

  /** The resolved interval: the event's date, and its start and end in minutes after
      that date's midnight. */
  datatype TimeSpan = TimeSpan(day: Date, start: nat, end: nat)

  /** A start on the event's date, and an end no earlier than the start and less than a
      day after it. */
  predicate Proper(span: TimeSpan) {
    span.start < MinutesPerDay && span.start <= span.end < span.start + MinutesPerDay
  }

  /** `parse_time(time_str, date)`: the start is the text before the first `-`; the end is
      the text between the first and a second `-`, or one hour after the start (as a time
      of day) when there is no `-`; an end before the start moves to the next day. */
  function ParseTime(text: string, date: Option<Date>): (r: Result<TimeSpan>)
    ensures r.Ok? ==> date == Some(r.value.day) && Proper(r.value)
  {
    var parts := Split(text, '-');
    Resolve(parts[0], if |parts| > 1 then Some(parts[1]) else None, date)
  }

  /** The body of `parse_time` once the text is split: the start piece, the end piece if
      there is one, and the date. */
  function Resolve(first: string, second: Option<string>, date: Option<Date>): (r: Result<TimeSpan>)
    ensures r.Ok? ==> date == Some(r.value.day) && Proper(r.value)
  {
    match ParseClock(first)
    case None => Err(MalformedTime(first))
    case Some(start) =>
      var endOfDay :=
        match second
        case None => Ok((start + MinutesPerHour) % MinutesPerDay)
        case Some(t) =>
          match ParseClock(t)
          case None => Err(MalformedTime(t))
          case Some(e) => Ok(e);
      if endOfDay.Err? then Err(endOfDay.error)
      else if date.None? then Err(NoDate)
      else
        var e := endOfDay.value;
        Ok(TimeSpan(date.value, start, if e < start then e + MinutesPerDay else e))
  }

  /** The resolver succeeds exactly when there is a date, the first piece is a time, and the
      second piece, when there is one, is a time; text after a second `-` plays no part. */
  lemma ParseTimeSucceeds(text: string, date: Option<Date>)
    ensures var parts := Split(text, '-');
            ParseTime(text, date).Ok? <==>
              date.Some? && ParseClock(parts[0]).Some?
              && (|parts| > 1 ==> ParseClock(parts[1]).Some?)
  {
  }

  /** A single time "HH:MM" lasts exactly one hour, also when it starts after 23:00: the
      hour wraps the time of day and the rollover then moves the end to the next day. */
  lemma SingleTimeLastsOneHour(text: string, d: Date)
    requires '-' !in text && ParseClock(text).Some?
    ensures ParseTime(text, Some(d)) == Ok(TimeSpan(d, ParseClock(text).value, ParseClock(text).value + MinutesPerHour))
  {
    var t := ParseClock(text).value;
    assert Split(text, '-') == [text];
    assert ParseTime(text, Some(d)) == Resolve(text, None, Some(d));
    if t + MinutesPerHour < MinutesPerDay {
      assert (t + MinutesPerHour) % MinutesPerDay == t + MinutesPerHour;
    } else {
      assert (t + MinutesPerHour) % MinutesPerDay == t + MinutesPerHour - MinutesPerDay;
    }
  }

  /** Split of "A-B" with neither part holding a `-`. */
  lemma SplitRange(a: string, b: string)
    requires '-' !in a && '-' !in b
    ensures Split(a + "-" + b, '-') == [a, b]
  {
    SplitAt(a, '-', b);
    assert Split(b, '-') == [b];
  }

  /** "A-B" with B not earlier than A: both instants are on the given date, at exactly A and
      B, with no rollover. */
  lemma RangeWithinDay(a: string, b: string, d: Date)
    requires '-' !in a && '-' !in b
    requires ParseClock(a).Some? && ParseClock(b).Some?
    requires ParseClock(a).value <= ParseClock(b).value
    ensures ParseTime(a + "-" + b, Some(d)) == Ok(TimeSpan(d, ParseClock(a).value, ParseClock(b).value))
  {
    RangeResolves(a + "-" + b, a, b, d, ParseClock(a).value, ParseClock(b).value);
  }

  /** "A-B" with B earlier than A: the end is B on the next day, so the event lasts a day
      less the distance from B back to A. */
  lemma RangeOvernight(a: string, b: string, d: Date)
    requires '-' !in a && '-' !in b
    requires ParseClock(a).Some? && ParseClock(b).Some?
    requires ParseClock(b).value < ParseClock(a).value
    ensures var x, y := ParseClock(a).value, ParseClock(b).value;
            ParseTime(a + "-" + b, Some(d)) == Ok(TimeSpan(d, x, y + MinutesPerDay))
            && (y + MinutesPerDay) - x == MinutesPerDay - (x - y)
  {
    RangeResolves(a + "-" + b, a, b, d, ParseClock(a).value, ParseClock(b).value);
  }

  /** Whatever follows a second `-` is ignored. */
  lemma TrailingRangeIgnored(a: string, b: string, c: string, date: Option<Date>)
    requires '-' !in a && '-' !in b
    ensures ParseTime(a + "-" + b + "-" + c, date) == ParseTime(a + "-" + b, date)
  {
    var long := a + "-" + b + "-" + c;
    assert long == a + ['-'] + (b + ['-'] + c);
    SplitAt(a, '-', b + ['-'] + c);
    SplitAt(b, '-', c);
    var p := Split(long, '-');
    assert p == [a] + ([b] + Split(c, '-'));
    assert ParseTime(long, date) == Resolve(a, Some(b), date);
    SplitRange(a, b);
    assert ParseTime(a + "-" + b, date) == Resolve(a, Some(b), date);
  }

  /** A start piece with whitespace in it, such as the "09:00 " of "09:00 - 10:00", makes
      the whole text fail. */
  lemma SpacedStartFails(text: string, date: Option<Date>, k: nat)
    requires k < |Split(text, '-')[0]| && IsSpace(Split(text, '-')[0][k])
    ensures ParseTime(text, date).Err?
  {
    ClockShape(Split(text, '-')[0]);
  }

  /** A clock text has no `-` and no whitespace at either end. */
  lemma ClockHasNoDash(t: nat)
    requires t < MinutesPerDay
    ensures '-' !in FormatClock(t)
    ensures Trimmed(FormatClock(t))
  {
    var s := FormatClock(t);
    assert |s| == 5 && IsDigit(s[0]) && IsDigit(s[4]);
    forall k | 0 <= k < 5
      ensures s[k] != '-'
    {
      assert IsDigit(s[k]) || s[k] == ':';
    }
  }

  /** A time of day written "HH:MM" is a piece of a range that reads back as itself. */
  lemma ClockPiece(t: nat)
    requires t < MinutesPerDay
    ensures '-' !in FormatClock(t) && ParseClock(FormatClock(t)) == Some(t)
  {
    ClockHasNoDash(t);
    ClockRoundTrip(t);
  }

  /** "A-B" for two times of day A and B: A, and B on the same day or the next. */
  lemma RangeResolves(text: string, a: string, b: string, d: Date, x: nat, y: nat)
    requires text == a + "-" + b && '-' !in a && '-' !in b
    requires ParseClock(a) == Some(x) && ParseClock(b) == Some(y)
    ensures ParseTime(text, Some(d)) == Ok(TimeSpan(d, x, if y < x then y + MinutesPerDay else y))
  {
    assert Split(text, '-') == [a, b] by {
      SplitRange(a, b);
    }
    assert ParseTime(text, Some(d)) == Resolve(a, Some(b), Some(d));
    ResolveRange(a, b, d, x, y);
  }

  lemma ResolveRange(a: string, b: string, d: Date, x: nat, y: nat)
    requires ParseClock(a) == Some(x) && ParseClock(b) == Some(y)
    ensures Resolve(a, Some(b), Some(d)) == Ok(TimeSpan(d, x, if y < x then y + MinutesPerDay else y))
  {
  }

  /** A range text "HH:MM-HH:MM" has no whitespace to strip. */
  lemma ClockRangeTrimmed(x: nat, y: nat)
    requires x < MinutesPerDay && y < MinutesPerDay
    ensures Strip(FormatClock(x) + "-" + FormatClock(y)) == FormatClock(x) + "-" + FormatClock(y)
  {
    var a, b := FormatClock(x), FormatClock(y);
    ClockHasNoDash(x);
    ClockHasNoDash(y);
    var text := a + "-" + b;
    assert text[0] == a[0] && text[|text| - 1] == b[4];
    StripTrimmed(text);
  }

  /** A local date and time of day in the fixed offset. */
  datatype DateTime = DateTime(date: Date, hour: nat, minute: nat)

  /** The wall-clock reading of an instant given as minutes after `day`'s midnight. */
  function WallClock(day: Date, minutes: nat): (t: DateTime)
    requires ValidDate(day) && minutes < 2 * MinutesPerDay
    ensures ValidDate(t.date) && t.hour < 24 && t.minute < 60
    ensures t.date == (if minutes < MinutesPerDay then day else NextDay(day))
    ensures minutes == (if t.date == day then 0 else MinutesPerDay) + t.hour * MinutesPerHour + t.minute
  {
    if minutes < MinutesPerDay then DateTime(day, minutes / MinutesPerHour, minutes % MinutesPerHour)
    else DateTime(NextDay(day), (minutes - MinutesPerDay) / MinutesPerHour, (minutes - MinutesPerDay) % MinutesPerHour)
  }
}
