/** Worked instances of the general properties, on texts as they appear on the events
    page: time texts, date headings, and small event groups and pages. */
module Scenarios {
  import opened Outcome
  import opened Text
  import opened Calendar
  import opened TimeResolver
  import opened DateParser
  import opened EventExtractor
  import opened Pipeline

  /** "09:00" on 5 March 2024 runs from 09:00 to 10:00. */
  lemma MorningEvent()
    ensures var d := Date(2024, 3, 5);
            ParseTime("09:00", Some(d)) == Ok(TimeSpan(d, 540, 600))
  {
    assert "09:00" == FormatClock(540);
    ClockRoundTrip(540);
    ClockHasNoDash(540);
    SingleTimeLastsOneHour("09:00", Date(2024, 3, 5));
  }

  /** "23:30" on 31 December 2024 ends at 00:30 on 1 January 2025. */
  lemma LateSingleTime()
    ensures var d := Date(2024, 12, 31);
            WallClock(d, 1470) == DateTime(Date(2025, 1, 1), 0, 30)
            && ParseTime("23:30", Some(d)) == Ok(TimeSpan(d, 1410, 1470))
  {
    assert "23:30" == FormatClock(1410);
    ClockRoundTrip(1410);
    ClockHasNoDash(1410);
    SingleTimeLastsOneHour("23:30", Date(2024, 12, 31));
  }

  /** "22:00-00:30" on 1 January 2024 ends at 00:30 on 2 January. */
  lemma OvernightParty()
    ensures var d := Date(2024, 1, 1);
            ParseTime("22:00-00:30", Some(d)) == Ok(TimeSpan(d, 1320, 1470))
            && WallClock(d, 1470) == DateTime(Date(2024, 1, 2), 0, 30)
  {
    assert "22:00-00:30" == FormatClock(1320) + "-" + FormatClock(30);
    ClockPiece(1320);
    ClockPiece(30);
    RangeResolves("22:00-00:30", FormatClock(1320), FormatClock(30), Date(2024, 1, 1), 1320, 30);
  }

  /** "10:00-10:00" is an event of no length, not one of a day. */
  lemma EmptyRange(d: Date)
    ensures ParseTime("10:00-10:00", Some(d)) == Ok(TimeSpan(d, 600, 600))
  {
    assert "10:00-10:00" == FormatClock(600) + "-" + FormatClock(600);
    ClockPiece(600);
    RangeResolves("10:00-10:00", FormatClock(600), FormatClock(600), d, 600, 600);
  }

  /** "09:00 - 10:00" cannot be read: the pieces around the `-` are not stripped. */
  lemma SpacedRange(date: Option<Date>)
    ensures ParseTime("09:00 - 10:00", date).Err?
  {
    var text := "09:00 - 10:00";
    assert text == "09:00 " + ['-'] + " 10:00";
    SplitAt("09:00 ", '-', " 10:00");
    SpacedStartFails(text, date, 5);
  }

  /** The text a heading is read from, when it is a day and month, maybe some whitespace,
      and a `-`. */
  lemma HeadingPrefix(core: string, pad: string, tail: string)
    requires core != [] && Trimmed(core) && '-' !in core
    requires forall k :: 0 <= k < |pad| ==> IsSpace(pad[k])
    ensures Strip(Split(core + pad + "-" + tail, '-')[0]) == core
  {
    assert forall k :: 0 <= k < |pad| ==> pad[k] != '-';
    assert '-' !in core + pad;
    assert core + pad + "-" + tail == (core + pad) + ['-'] + tail;
    SplitAt(core + pad, '-', tail);
    assert core + pad == [] + core + pad;
    StripSurrounded([], core, pad);
  }

  lemma MarchIsThird()
    ensures MonthNumber("March") == 3
  {
    var r := Lower("March");
    assert r[0] == 'm' && r[1] == 'a' && r[2] == 'r' && r[3] == 'c' && r[4] == 'h';
    assert r == "march";
    MonthNumberOfName(3);
  }

  lemma NamedDay()
    ensures ParseDayMonthName("12 March") == Some(DayMonth(12, 3))
    ensures ParseDayMonthNumeric("12 March").None?
  {
    MarchIsThird();
    assert Pad2(12) == "12";
    assert Value("12") == 12;
    DayThenName("12 March", "12", " ", "March", DayMonth(12, 3));
    FormatsExclusive("12 March");
  }

  lemma NumericDay()
    ensures ParseDayMonthName("12.03.").None?
    ensures ParseDayMonthNumeric("12.03.") == Some(DayMonth(12, 3))
  {
    assert Pad2(12) == "12" && Pad2(3) == "03";
    assert "12.03." == FormatDayMonthNumeric(DayMonth(12, 3));
    NumericFormatRoundTrip(DayMonth(12, 3));
    FormatsExclusive("12.03.");
  }

  /** "12 March - Opening" names 12 March of the running year. */
  lemma NamedHeading(year: int)
    ensures ParseDateDiv(Some("12 March - Opening"), year) == Ok(Date(year, 3, 12))
  {
    var heading := "12 March - Opening";
    assert heading == "12 March" + " " + "-" + " Opening";
    HeadingPrefix("12 March", " ", " Opening");
    NamedDay();
  }

  /** "12.03. - Opening" names the same day. */
  lemma NumericHeading(year: int)
    ensures ParseDateDiv(Some("12.03. - Opening"), year) == Ok(Date(year, 3, 12))
  {
    var heading := "12.03. - Opening";
    assert heading == "12.03." + " " + "-" + " Opening";
    HeadingPrefix("12.03.", " ", " Opening");
    NumericDay();
  }

  /** A heading that is not a date stops the program. */
  lemma GarbageHeading(year: int)
    ensures ParseDateDiv(Some("garbage"), year) == Err(MalformedDate("garbage"))
  {
    var text := "garbage";
    GarbageText();
    NoDayField(text);
  }

  lemma GarbageText()
    ensures Strip(Split("garbage", '-')[0]) == "garbage"
  {
    var text := "garbage";
    assert Split(text, '-') == [text];
    StripTrimmed(text);
  }

  /** Text that starts with neither a digit nor a space has no day field, so it reads in
      neither format. */
  lemma NoDayField(text: string)
    requires text != [] && !IsDigit(text[0]) && text[0] != ' '
    ensures ParseDayField(text).None?
    ensures ParseDayMonthName(text).None? && ParseDayMonthNumeric(text).None?
  {
    assert text == "" + text;
    LeadingDigitsOf("", text);
  }

  /** A parade at 12:00-14:00 in the old town, without description or link. */
  function Parade(): Child {
    Child(Some("Parade"), ["Old Town", "12:00-14:00"], NoAnchor)
  }

  /** A talk whose time widget is missing. */
  function Talk(): Child {
    Child(Some("Talk"), ["Hall"], NoAnchor)
  }

  lemma ParadeTexts()
    ensures Strip("Parade") == "Parade" && Strip("Old Town") == "Old Town"
  {
    StripTrimmed("Parade");
    StripTrimmed("Old Town");
  }

  lemma ParadeEvent(d: Date)
    ensures ParseEvent(Parade(), Some(d)) == Ok(Some(Event("Parade", "Old Town", d, 720, 840, "", "")))
  {
    var timeText := "12:00-14:00";
    assert timeText == FormatClock(720) + "-" + FormatClock(840);
    ClockRangeTrimmed(720, 840);
    ClockPiece(720);
    ClockPiece(840);
    RangeResolves(timeText, FormatClock(720), FormatClock(840), d, 720, 840);
    ParadeTexts();
    ExtractTitled(Parade(), Some(d), TimeSpan(d, 720, 840));
  }

  /** The talk's failure repeats the parade. */
  lemma ParadeThenTalk(d: Date)
    ensures var e := Event("Parade", "Old Town", d, 720, 840, "", "");
            GroupEvents([Parade(), Talk()], Some(d)) == Ok([e, e])
  {
    ParadeEvent(d);
    TalkFails(d);
    RepeatedEvent(Parade(), Talk(), Some(d), Event("Parade", "Old Town", d, 720, 840, "", ""));
  }

  lemma TalkFails(d: Date)
    ensures ParseEvent(Talk(), Some(d)) == Err(MissingWidget(1))
  {
  }

  /** A group of an event followed by a child that raises yields the event twice. */
  lemma RepeatedEvent(good: Child, bad: Child, date: Option<Date>, e: Event)
    requires ParseEvent(good, date) == Ok(Some(e)) && ParseEvent(bad, date).Err?
    ensures GroupEvents([good, bad], date) == Ok([e, e])
  {
    FirstGroupRepeats(good, bad, date, e);
    PairGroup(good, bad, date);
  }

  lemma FirstGroupRepeats(good: Child, bad: Child, date: Option<Date>, e: Event)
    requires ParseEvent(good, date) == Ok(Some(e)) && ParseEvent(bad, date).Err?
    ensures GroupEvents([] + [good] + [bad], date) == Ok([e, e])
  {
    var none: seq<Child> := [];
    FailedChildRepeatsPrevious(none, good, bad, date);
    assert GroupEvents(none, date) == Ok([]);
    assert [] + [e, e] == [e, e];
  }

  lemma PairGroup(good: Child, bad: Child, date: Option<Date>)
    ensures GroupEvents([] + [good] + [bad], date) == GroupEvents([good, bad], date)
  {
    var none: seq<Child> := [];
    assert none + [good] + [bad] == [good, bad];
  }

  /** A failing first child aborts the group, and the page with it. */
  lemma TalkThenParade(d: Date)
    ensures GroupEvents([Talk(), Parade()], Some(d)) == Err(UnboundEvent)
  {
    GroupFailsIffFirstChildFails([Talk(), Parade()], Some(d));
  }

  /** The parade alone makes a group with one event. */
  lemma ParadeGroup(d: Date)
    ensures GroupEvents([Parade()], Some(d)) == Ok([Event("Parade", "Old Town", d, 720, 840, "", "")])
  {
    ParadeEvent(d);
    SingleChildGroup(Parade(), Event("Parade", "Old Town", d, 720, 840, "", ""), Some(d));
  }

  /** A page with one date heading and one group with the parade. */
  lemma OpeningDay(year: int)
    ensures PageEvents([DateBlock(Some("12 March - Opening")), GroupBlock([Parade()])], year)
              == Ok([Event("Parade", "Old Town", Date(year, 3, 12), 720, 840, "", "")])
  {
    var d := Date(year, 3, 12);
    NamedHeading(year);
    ParadeGroup(d);
    HeadedGroup(Some("12 March - Opening"), [Parade()], year, d,
                [Event("Parade", "Old Town", d, 720, 840, "", "")]);
  }

  /** A group before the first date heading aborts the page when it has a titled child. */
  lemma GroupBeforeAnyDate(year: int)
    ensures PageEvents([GroupBlock([Parade()])], year) == Err(UnboundEvent)
  {
    var page := [GroupBlock([Parade()])];
    assert GroupEvents([Parade()], None) == Err(UnboundEvent) by {
      GroupWithoutDate([Parade()]);
    }
    assert page[..0] == [];
    assert Run(page, year) == Visit(Cursor(None, []), page[0], year);
  }
}
