/** The per-event extractor, `parse_event`: one child container of an event group becomes
    one `Event`, its fields taken by position. */
module EventExtractor {
  import opened Outcome
  import opened Text
  import opened Calendar
  import opened TimeResolver

  /** A child's first `<a>`: absent, present without an `href`, or present with one. */
  datatype Link = NoAnchor | BareAnchor | Href(url: string)

  /** One child container of an event group, reduced to what `parse_event` reads: the text
      of its first `h2` (None when it has none), the texts of its text-editor widgets in
      document order, and its first anchor. */
  datatype Child = Child(title: Option<string>, widgets: seq<string>, link: Link)

  /** The `Event` record. The start and end instants are `day`'s midnight plus `start` and
      `end` minutes, in the fixed offset. */
  datatype Event = Event(
    title: string,
    location: string,
    day: Date,
    start: nat,
    end: nat,
    description: string,
    link: string)

  /** The timing every extracted event has: it starts on its date, and ends no earlier than
      it starts and less than a day later. */
  predicate WellTimed(e: Event) {
    Proper(TimeSpan(e.day, e.start, e.end))
  }

  /** `parse_event(event, date)`. A child without a title is not an event (Ok(None)).
      Otherwise the 1st widget is the location, the 2nd the time text, the 3rd (if any) the
      description, and the anchor's `href` (if there is no anchor, "") the link. Missing
      1st or 2nd widgets, an anchor without `href`, and an unresolvable time are errors,
      raised in that order. */
  function ParseEvent(child: Child, date: Option<Date>): (r: Result<Option<Event>>)
    ensures r == Ok(None) <==> child.title.None?
    ensures r.Ok? && r.value.Some? ==> WellTimed(r.value.value) && date == Some(r.value.value.day)
  {
    match child.title
    case None => Ok(None)
    case Some(heading) =>
      var widgets := child.widgets;
      if |widgets| < 2 then Err(MissingWidget(|widgets|))
      else
        var description := if |widgets| > 2 then Strip(widgets[2]) else "";
        match LinkText(child.link)
        case Err(e) => Err(e)
        case Ok(link) =>
          match ParseTime(Strip(widgets[1]), date)
          case Err(e) => Err(e)
          case Ok(span) =>
            Ok(Some(Event(Strip(heading), Strip(widgets[0]), span.day, span.start, span.end, description, link)))
  }

  /** What `parse_event` raises on, in this order: a missing location or time widget, an
      anchor without `href`, and a time text that does not resolve; and the fields of the
      event it returns otherwise, each taken from its own widget. */
  lemma ParseEventOutcome(child: Child, date: Option<Date>)
    ensures var r := ParseEvent(child, date);
            (r.Err? <==>
               child.title.Some?
               && (|child.widgets| < 2 || child.link.BareAnchor?
                   || ParseTime(Strip(child.widgets[1]), date).Err?))
            && (child.title.Some? && |child.widgets| < 2 ==> r == Err(MissingWidget(|child.widgets|)))
            && (r.Ok? && r.value.Some? ==>
                  var e := r.value.value;
                  e.title == Strip(child.title.value)
                  && e.location == Strip(child.widgets[0])
                  && ParseTime(Strip(child.widgets[1]), date) == Ok(TimeSpan(e.day, e.start, e.end))
                  && e.description == (if |child.widgets| > 2 then Strip(child.widgets[2]) else "")
                  && e.link == (if child.link.Href? then child.link.url else ""))
  {
  }

  /** `event.select_one("a")["href"]`, where only the TypeError of a missing anchor is
      caught: a missing anchor gives "", an anchor without `href` raises. */
  function LinkText(link: Link): (r: Result<string>)
    ensures r.Err? <==> link.BareAnchor?
    ensures r.Ok? ==> r.value == (if link.Href? then link.url else "")
  {
    match link
    case NoAnchor => Ok("")
    case BareAnchor => Err(AnchorWithoutHref)
    case Href(url) => Ok(url)
  }

  /** The time text of an event: "HH:MM-HH:MM", the end as a time of day. */
  function TimeText(e: Event): string
    requires WellTimed(e)
  {
    FormatClock(e.start) + "-" + FormatClock(e.end % MinutesPerDay)
  }

  /** A child container that shows an event: its title, location, time text and
      description as widgets, its link as an anchor. */
  function ChildOf(e: Event): Child
    requires WellTimed(e)
  {
    Child(Some(e.title), [e.location, TimeText(e), e.description], Href(e.link))
  }

  /** Extraction inverts display: every well-timed event whose texts have no whitespace at
      either end is extracted, on its own date, from the child container that shows it. */
  lemma ExtractRoundTrip(e: Event)
    requires WellTimed(e)
    requires Trimmed(e.title) && Trimmed(e.location) && Trimmed(e.description)
    ensures ParseEvent(ChildOf(e), Some(e.day)) == Ok(Some(e))
  {
    TimeTextResolves(e);
    TimeTextTrimmed(e);
    ExtractShown(e, TimeText(e));
  }

  /** Extraction from a child that shows an event's texts, given a time text that resolves
      to the event's times. */
  lemma ExtractShown(e: Event, timeText: string)
    requires Trimmed(e.title) && Trimmed(e.location) && Trimmed(e.description)
    requires Strip(timeText) == timeText
    requires ParseTime(timeText, Some(e.day)) == Ok(TimeSpan(e.day, e.start, e.end))
    ensures ParseEvent(Child(Some(e.title), [e.location, timeText, e.description], Href(e.link)), Some(e.day))
              == Ok(Some(e))
  {
    StripTrimmed(e.title);
    StripTrimmed(e.location);
    StripTrimmed(e.description);
    ExtractTitled(Child(Some(e.title), [e.location, timeText, e.description], Href(e.link)),
                  Some(e.day), TimeSpan(e.day, e.start, e.end));
  }

  /** A titled child whose anchor is usable and whose time text resolves is the event at
      that time, its texts stripped. */
  lemma ExtractTitled(child: Child, date: Option<Date>, span: TimeSpan)
    requires child.title.Some? && |child.widgets| >= 2 && !child.link.BareAnchor?
    requires ParseTime(Strip(child.widgets[1]), date) == Ok(span)
    ensures ParseEvent(child, date)
              == Ok(Some(Event(Strip(child.title.value), Strip(child.widgets[0]), span.day, span.start, span.end,
                               if |child.widgets| > 2 then Strip(child.widgets[2]) else "",
                               if child.link.Href? then child.link.url else "")))
  {
  }

  lemma TimeTextTrimmed(e: Event)
    requires WellTimed(e)
    ensures Strip(TimeText(e)) == TimeText(e)
  {
    ClockRangeTrimmed(e.start, e.end % MinutesPerDay);
  }

  /** The time text of a well-timed event resolves, on the event's date, to its own start
      and end. */
  lemma TimeTextResolves(e: Event)
    requires WellTimed(e)
    ensures ParseTime(TimeText(e), Some(e.day)) == Ok(TimeSpan(e.day, e.start, e.end))
  {
    var y := e.end % MinutesPerDay;
    if e.end < MinutesPerDay {
      assert y == e.end;
    } else {
      assert y == e.end - MinutesPerDay;
    }
    assert (if y < e.start then y + MinutesPerDay else y) == e.end;
    ClockPiece(e.start);
    ClockPiece(y);
    RangeResolves(TimeText(e), FormatClock(e.start), FormatClock(y), e.day, e.start, y);
  }
}
