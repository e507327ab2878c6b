# Events page parser — a verified model

The program reads the events page of a festival and turns it into calendar events. The
page is a sequence of top-level blocks. A *date block* carries a heading such as
"12 March - Opening" or "12.03. - Opening". An *event group* holds one child container per
event. Each child has a title, text widgets for location, time and description, and
perhaps a link. One pass over the blocks does the work:

- `parse_events` keeps a current date, set by every date block, and passes it to every
  later event group.
- `parse_events_block` extracts one event per child. It swallows per-child errors, and the
  `event` variable carries over from one child to the next.
- `parse_event` takes the fields of one child by position.
- `parse_time` turns "HH:MM" or "HH:MM-HH:MM" plus the date into a start and an end. A
  single time lasts one hour. An end earlier than the start moves to the next day.
- `parse_date_div` reads the heading before its first `-` as "day Monthname" or as
  "day.month.", in the current year.

The Dafny modules follow that structure:

- `Outcome`: `Option`, `Result`, and the errors the program can raise.
- `Text`: `str.split`, `str.strip`, digits, and ASCII case folding.
- `Calendar`: Gregorian dates and the next day.
- `TimeResolver`: `parse_time`.
- `DateParser`: `parse_date_div`.
- `EventExtractor`: `parse_event` and the `Event` record.
- `Pipeline`: the two loops, as methods proved against the functions `GroupEvents` and
  `Run`.
- `Scenarios`: worked instances on concrete page texts.

The program has one fixed UTC offset, captured when it starts. An instant is therefore
written as a date plus minutes after that date's midnight, and an end on the following
day has 1440 minutes or more. `WallClock` converts such an instant back to a date and a
time of day. `datetime.strptime` is modelled as its regular expressions behave on ASCII
text:

- `%H`, `%M`, `%d` and `%m` take one or two digits.
- `%d` also accepts a space and one digit.
- A space in the format matches any run of whitespace.
- `%B` matches a full English month name in any letter case.
- The whole text must be consumed.
- The day is checked against the default year 1900, so 29 February is refused.

A raised exception is an `Err` of the `Error` datatype:

| exception in the program | `Error` constructor |
|---|---|
| missing `h2` in a date block | `NoHeading` |
| `ValueError` of the second `strptime` | `MalformedDate` |
| `IndexError` of a missing widget | `MissingWidget` |
| `KeyError` of an `<a>` without `href` | `AnchorWithoutHref` |
| `ValueError` of a time | `MalformedTime` |
| `TypeError` of combining a time with no date | `NoDate` |
| `UnboundLocalError` of `event` | `UnboundEvent` |

The model follows the code in two places worth knowing:

- The `try`/`except` around each child at main.py:44-48 logs the error, but it does not
  skip the child. A failing child appends the previous child's event again
  (`FailedChildRepeatsPrevious`). A failing first child leaves `event` unbound, so the
  group and the whole run abort (`GroupFailsIffFirstChildFails`).
- The rollover test at main.py:94 is strict. "10:00-10:00" therefore gives an event of
  no length (`EmptyRange`), and `Proper` states `start <= end`.

## Model

| member | source | states |
|---|---|---|
| Text.Split | main.py:28 | `str.split` on one character: at least one piece, no piece holds the separator, and joining the pieces with the separator gives back the text |
| Text.SplitJoin | main.py:81 | splitting inverts joining pieces that hold no separator |
| Text.SplitAt | main.py:28 | the first piece is the text before the first separator, and the rest is the split of the text after it |
| Text.Strip | main.py:28 | `str.strip`: the result is a contiguous middle of the text, only whitespace is cut on either side, and no whitespace is left at either end |
| Text.StripTrimmed | main.py:62-66 | text without border whitespace is left unchanged |
| Text.StripIdempotent | main.py:62-66 | stripping twice is stripping once |
| Text.StripSurrounded | main.py:28 | whitespace around a text without border whitespace is exactly what `strip` removes |
| Text.ParseSmall | main.py:82 | a strptime numeric field succeeds exactly on one or two digits, and reads as their decimal value, so "9" and "09" both read as 9 |
| Text.Pad2RoundTrip | main.py:82 | a two-digit zero-padded number reads back as itself |
| Text.LeadingDigitsOf | main.py:31 | the digit run at the start of a text is its all-digit prefix |
| Text.FirstAfter | main.py:82 | the first occurrence of a character is right after a prefix free of it, and the text splits there into that prefix and the rest |
| Calendar.NextDay | main.py:95 | `+ timedelta(days=1)` gives a valid date, later than the given one, in the same month or on the 1st |
| Calendar.NextDayIsImmediate | main.py:95 | no valid date lies strictly between a date and the next day |
| TimeResolver.ParseClock | main.py:82 | `strptime(s, "%H:%M")` yields a time of day below 24 hours |
| TimeResolver.ClockReading | main.py:82 | a readable clock text has one or two digits of hour up to 23 before its first colon and one or two digits of minute up to 59 after it, and reads as hours times 60 plus minutes |
| TimeResolver.ClockOfPieces | main.py:82 | conversely, any such hour digits, a colon and minute digits read as that time of day, "9:30" and "09:30" alike |
| TimeResolver.DigitsHaveNoColon | main.py:82 | an hour field holds no colon |
| TimeResolver.ClockAt | main.py:82 | with the first colon at a position, an hour field before it and a minute field after it, the text reads as that time |
| TimeResolver.ClockRoundTrip | main.py:82 | every time of day written "HH:MM" reads back as itself |
| TimeResolver.ClockShape | main.py:82 | a readable clock text is 3 to 5 characters of digits and one colon, so it holds no whitespace |
| TimeResolver.ParseTime | main.py:80-97 | on success the span lies on the given date, starts within that day, and ends no earlier than the start and less than a day after it |
| TimeResolver.Resolve | main.py:82-97 | once the text is split, a resolved span lies on the given date and is proper: it starts within the day and ends no earlier than the start and less than a day after it |
| TimeResolver.ParseTimeSucceeds | main.py:81-91 | `parse_time` succeeds exactly when there is a date, the first piece is a time, and the second piece (if any) is a time |
| TimeResolver.SingleTimeLastsOneHour | main.py:84-95 | "HH:MM" lasts exactly 60 minutes, also when it starts after 23:00 |
| TimeResolver.RangeWithinDay | main.py:81-94 | "A-B" with B not before A spans exactly A to B on the given date, without rollover |
| TimeResolver.RangeOvernight | main.py:94-95 | "A-B" with B before A ends at B on the next day, so it lasts 24 hours less the distance from B back to A |
| TimeResolver.RangeResolves | main.py:81-95 | "A-B" of two times of day resolves to A, and to B on the same day or on the next |
| TimeResolver.TrailingRangeIgnored | main.py:81-85 | text after a second `-` plays no part |
| TimeResolver.SpacedStartFails | main.py:81-82 | a start piece with whitespace in it makes the time fail, since pieces are not stripped |
| TimeResolver.ClockHasNoDash | main.py:81 | a clock text holds no `-` and no border whitespace |
| TimeResolver.ClockRangeTrimmed | main.py:64 | a range text "HH:MM-HH:MM" is unchanged by `strip` |
| TimeResolver.WallClock | main.py:90-95 | an instant of less than two days after a date's midnight falls on that date when it is under one day and on the next day otherwise, at a valid hour and minute that add back to the instant |
| DateParser.MonthFrom | main.py:31 | the month search gives 0 or a month after the starting position whose name is the text |
| DateParser.MonthFromMisses | main.py:31 | the month search finds nothing exactly when no month name matches |
| DateParser.MonthFromFinds | main.py:31 | the month search returns the first month whose name matches |
| DateParser.MonthNumber | main.py:31 | `%B` gives a month from 1 to 12 whose name is the text in lower case |
| DateParser.MonthNumberMisses | main.py:31 | a text names no month exactly when its lower-case form is none of the twelve names |
| DateParser.MonthNumberOfName | main.py:31 | each month name reads as its own month number |
| DateParser.MonthNamesDistinct | main.py:31 | the twelve month names are pairwise different |
| DateParser.ParseDayField | main.py:31-33 | the `%d` field takes one or two characters of the text and reads as a number below 100 |
| DateParser.DayFieldReading | main.py:31-33 | a space and a nonzero digit read as that digit; otherwise the field is the whole digit run at the front, read as its decimal value |
| DateParser.DigitsField | main.py:31-33 | one or two digits before a non-digit read as their value, and the text goes on after them |
| DateParser.ParseDayMonthName | main.py:31 | `strptime(text, "%d %B")` gives only days that exist in that month of 1900 |
| DateParser.NameFormatReading | main.py:31 | conversely, a text that reads in "%d %B" is a day field, a whitespace character, and after the whitespace run exactly a month name up to letter case, and reads as those fields |
| DateParser.ParseDayMonthNumeric | main.py:33 | `strptime(text, "%d.%m.")` gives only days that exist in that month of 1900 |
| DateParser.NumericFormatReading | main.py:33 | conversely, a text that reads in "%d.%m." is a day field, a dot, one or two month digits and a final dot, and reads as those fields |
| DateParser.InYear | main.py:35 | `replace(year=...)` keeps the day and month and gives a valid date in that year |
| DateParser.ParseDateDiv | main.py:26-37 | a heading that reads gives a valid date in the current year |
| DateParser.ParseDateDivOutcome | main.py:27-35 | `parse_date_div` fails exactly when the heading is missing or its stripped text before the first `-` reads in neither format; otherwise the date's day and month are the text's reading in one of the two formats |
| DateParser.HeadingBeforeDash | main.py:28 | only the text before the first `-` matters |
| DateParser.FormatsExclusive | main.py:30-33 | no text reads in both formats, so trying the name format first hides no numeric reading |
| DateParser.NameFormatRoundTrip | main.py:31 | every valid day and month written "DD Monthname" reads back as itself |
| DateParser.NameFormatPieces | main.py:31 | "DD" of a valid day is two digits whose value is the day, and a month's name starts with a letter and reads as that month |
| DateParser.DayThenName | main.py:31 | a day of one or two digits, any run of whitespace and any letter case of month m's name read as that day of month m: "5 March", "05  MARCH" and "5\tmarch" alike |
| DateParser.DayGapName | main.py:31 | in such a text the day field reads as the digits, whitespace follows it, and the text after the whitespace is the month name |
| DateParser.FieldThenGap | main.py:31 | digits followed by whitespace: the day field reads as the digits |
| DateParser.GapThenName | main.py:31 | the text after a run of whitespace is the word that follows it |
| DateParser.NameAfterField | main.py:31 | once the day field has read, whitespace and a month name finish the "%d %B" reading |
| DateParser.NumericFormatRoundTrip | main.py:33 | every valid day and month written "DD.MM." reads back as itself |
| DateParser.DayDotMonth | main.py:33 | a day of one or two digits, a dot, a month of one or two digits and a dot read as that day and month: "5.3." and "05.03." alike |
| DateParser.DayDotPieces | main.py:33 | in such a text the day field reads as the day digits, a dot follows, and the month digits run up to the final dot |
| DateParser.MonthThenDot | main.py:33 | the month digits and the final dot split where the digits end |
| DateParser.MonthAfterDot | main.py:33 | once the day field has read, a dot, the month digits and a final dot finish the "%d.%m." reading |
| EventExtractor.ParseEvent | main.py:56-77 | `parse_event` yields None exactly for a child without a title; an event it yields is well timed and lies on the given date |
| EventExtractor.ParseEventOutcome | main.py:57-77 | `parse_event` raises exactly for a titled child with fewer than two widgets, an `<a>` without `href`, or a time that does not resolve; the missing-widget error is raised first; an event's fields come from the title, the 1st, 2nd and 3rd widgets and the `href` |
| EventExtractor.ExtractTitled | main.py:62-77 | a titled child with a usable anchor and a resolving time text is the event of its stripped texts at that time, with "" for a missing description or link |
| EventExtractor.LinkText | main.py:69-72 | a missing `<a>` gives "", an `<a>` with `href` gives its value, and an `<a>` without `href` raises |
| EventExtractor.ExtractRoundTrip | main.py:56-77 | extraction inverts display: every well-timed event with trimmed texts is extracted, on its own date, from the child that shows it |
| EventExtractor.ExtractShown | main.py:62-77 | a child showing an event's trimmed texts and a time text that resolves to its times gives back that event |
| EventExtractor.TimeTextResolves | main.py:80-97 | the "HH:MM-HH:MM" text of a well-timed event resolves to its own start and end |
| EventExtractor.TimeTextTrimmed | main.py:64 | the time text of an event is unchanged by `strip` |
| Pipeline.Carry | main.py:43-51 | the carried `event` is an event of the group's date whenever it holds one |
| Pipeline.CarryUnbound | main.py:43-49 | `event` stays unbound exactly while every child so far has raised |
| Pipeline.CarryStep | main.py:44-48 | one more child rebinds `event` to its result unless it raises |
| Pipeline.GroupEvents | main.py:40-53 | a group yields at most one event per child, each well timed and on the group's date |
| Pipeline.ParseEventsBlock | main.py:40-53 | the loop returns exactly what the group yields (events or the escaping error) |
| Pipeline.GroupFailsIffFirstChildFails | main.py:43-51 | a group raises exactly when its first child raises, and then with the unbound-variable error |
| Pipeline.GroupOfWellFormedChildren | main.py:43-51 | when no child raises, the group yields each titled child's event once, in order |
| Pipeline.FailedChildRepeatsPrevious | main.py:44-51 | a child that raises after a child that gave an event appends that event a second time |
| Pipeline.BoundStep | main.py:49-51 | a child after which `event` holds an event appends that event |
| Pipeline.FailedChildAfterUntitled | main.py:44-50 | a child that raises after an untitled child adds nothing |
| Pipeline.SingleChildGroup | main.py:43-53 | a group of one event child yields exactly that event |
| Pipeline.GroupEventsComeFromChildren | main.py:43-51 | every event a group yields is the event of one of its children |
| Pipeline.CarriedComesFromChild | main.py:43-48 | an event held by `event` is the event of one of the children visited |
| Pipeline.GroupWithoutDate | main.py:90-91 | with no date, a group raises when its first child has a title and yields nothing otherwise |
| Pipeline.VisitOutcome | main.py:106-110 | one loop iteration (`Visit`) returns exactly when its block runs without raising under the current date; a date block then replaces the date and keeps the events, an event group keeps the date and appends its events |
| Pipeline.PageEventsOutcome | main.py:100-112 | `parse_events` (`PageEvents`) returns exactly when every block runs without raising, and then gives every block's contribution in document order |
| Pipeline.Run | main.py:100-112 | every event the run collects is well timed |
| Pipeline.ParseEvents | main.py:100-112 | the loop returns exactly the events of the run, or the error that aborts it |
| Pipeline.RunStep | main.py:103-110 | the run over one more block is the previous run followed by a visit of that block |
| Pipeline.RunStopsAtError | main.py:106-110 | once a prefix of the page raises, the whole run ends with that error |
| Pipeline.PageEventsInOrder | main.py:100-112 | the current date is the latest date block's, and the events are every group's events under that date, concatenated in document order |
| Pipeline.EmittedUpToPrefix | main.py:110 | what the first blocks contribute does not depend on the blocks after them |
| Pipeline.RunSucceedsIffEveryBlockDoes | main.py:103-110 | the run returns exactly when every date heading reads and no group raises under the date in force for it |
| Pipeline.EveryBlockOfPrefix | main.py:103-110 | every block of a page succeeds exactly when every block before the last does and the last does too |
| Pipeline.PrefixBlocksSucceed | main.py:103-110 | when every block of a page succeeds, every block of a prefix does |
| Pipeline.ExtendedBlocksSucceed | main.py:103-110 | when every block of a prefix and the next block succeed, every block of the longer page does |
| Pipeline.BlockOfPrefix | main.py:103-110 | a block succeeds within a prefix of the page exactly when it succeeds within the page |
| Pipeline.LastBlockSucceeds | main.py:103-110 | after a successful run of the earlier blocks, the run succeeds exactly when the last block does |
| Pipeline.RunPrefix | main.py:100-112 | the run over a prefix of the page succeeds and gives a prefix of the events |
| Pipeline.HeadedGroup | main.py:106-110 | a date heading followed by one group yields the group's events on the heading's date |
| Scenarios.MorningEvent | main.py:84-95 | "09:00" on 5 March 2024 runs from 09:00 to 10:00 |
| Scenarios.LateSingleTime | main.py:84-95 | "23:30" on 31 December 2024 ends at 00:30 on 1 January 2025 |
| Scenarios.OvernightParty | main.py:94-95 | "22:00-00:30" on 1 January 2024 ends at 00:30 on 2 January 2024 |
| Scenarios.EmptyRange | main.py:90-97 | "10:00-10:00" is an event of no length, not one of a day |
| Scenarios.SpacedRange | main.py:81-82 | "09:00 - 10:00" does not resolve |
| Scenarios.HeadingPrefix | main.py:28 | the text a heading is read from is its day and month, without the whitespace before the `-` |
| Scenarios.MarchIsThird | main.py:31 | "March" is month 3 |
| Scenarios.NamedDay | main.py:30-33 | "12 March" reads as 12 March in the name format and not in the numeric one |
| Scenarios.NumericDay | main.py:30-33 | "12.03." reads as 12 March in the numeric format and not in the name one |
| Scenarios.NamedHeading | main.py:26-37 | "12 March - Opening" names 12 March of the current year |
| Scenarios.NumericHeading | main.py:26-37 | "12.03. - Opening" names the same day |
| Scenarios.NoDayField | main.py:31-33 | text that starts with neither a digit nor a space reads in neither format |
| Scenarios.GarbageHeading | main.py:30-33 | the heading "garbage" raises with its text |
| Scenarios.ParadeTexts | main.py:62-63 | "Parade" and "Old Town" are unchanged by `strip` |
| Scenarios.ParadeEvent | main.py:56-77 | a titled child with location "Old Town" and time "12:00-14:00" is the event from 12:00 to 14:00 |
| Scenarios.TalkFails | main.py:64 | a child with only one widget raises the missing-widget error |
| Scenarios.ParadeThenTalk | main.py:43-51 | the parade followed by a failing talk yields the parade twice |
| Scenarios.RepeatedEvent | main.py:43-51 | an event child followed by a failing child yields the event twice |
| Scenarios.TalkThenParade | main.py:43-51 | a failing first child aborts the group with the unbound-variable error |
| Scenarios.ParadeGroup | main.py:40-53 | a group with only the parade yields the parade once |
| Scenarios.OpeningDay | main.py:100-112 | a page with the heading "12 March - Opening" and the parade yields the parade on 12 March |
| Scenarios.GroupBeforeAnyDate | main.py:100-112 | a group before the first date heading aborts the page when its first child has a title |

## Left out

- CSS selection with BeautifulSoup is not modelled. Pages and children are given as the
  `Block` and `Child` datatypes, and `is_date_div` is the choice of `Block` constructor.
- The `print` calls are not modelled: they are logging with no effect on the result.
- `main` is not modelled: it reads a file and writes an `ics` calendar, which is I/O and a
  foreign library.
- `DataClassJsonMixin` is not modelled: it is a serialisation mixin with no logic here.
- Timezone discovery is replaced by one fixed offset. The current year (`datetime.now()`)
  is a parameter.
- The program reads `datetime.now().year` once per date block (main.py:35). The model
  reads it once per run: `Run`, `PageEvents` and `ParseEvents` pass one `year` to every
  heading. A run that crosses New Year could put later headings in the next year; the
  model does not capture that.
- `strptime` is modelled for ASCII text only. Python's regular expressions also accept
  non-ASCII digits and fold some non-ASCII letters onto ASCII ones. Month names are the
  English ones of the C locale.
- TimeResolver.ParseTime: does not raise the OverflowError of a rollover past 31 December
  9999, because instants are kept as minutes after the event's date.
- TimeResolver.WallClock: for the same reason, it gives year 10000 instead of raising at
  that boundary.
