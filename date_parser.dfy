/** The date-heading parser, `parse_date_div`: the heading of a date block names a day and a
    month, as "12 March" or as "12.03.", and the year is the year the program runs in. */
module DateParser {
  import opened Outcome
  import opened Text
  import opened Calendar

  /** A day of a month, without a year. */
  datatype DayMonth = DayMonth(day: nat, month: nat)

  /** strptime builds its result in its default year 1900, so a day must exist in that
      year's month (1900 is not a leap year: no 29 February). */
  predicate ValidDayMonth(dm: DayMonth) {
    1 <= dm.month <= 12 && 1 <= dm.day <= DaysInMonth(1900, dm.month)
  }

  /** The full month names that "%B" matches, in lower case; the match ignores case. */
  const MonthNames: seq<string> :=
    ["january", "february", "march", "april", "may", "june",
     "july", "august", "september", "october", "november", "december"]

  /** The first month, from position `i` on, whose name is `name`; 0 when there is none. */
  function MonthFrom(name: string, i: nat): (m: nat)
    requires i <= 12
    ensures m == 0 || (i < m <= 12 && MonthNames[m - 1] == name)
    decreases 12 - i
  {
    if i == 12 then 0
    else if MonthNames[i] == name then i + 1
    else MonthFrom(name, i + 1)
  }

  /** The number of the month named `s` in any letter case, or 0. */
  function MonthNumber(s: string): (m: nat)
    ensures m <= 12
    ensures 1 <= m ==> Lower(s) == MonthNames[m - 1]
  {
    MonthFrom(Lower(s), 0)
  }

  /** The search finds no month exactly when no name from position `i` on matches. */
  lemma {:induction false} MonthFromMisses(name: string, i: nat)
    requires i <= 12
    ensures MonthFrom(name, i) == 0 <==> forall j :: i <= j < 12 ==> MonthNames[j] != name
    decreases 12 - i
  {
    if i < 12 && MonthNames[i] != name {
      MonthFromMisses(name, i + 1);
    }
  }

  /** The search stops at the first name that matches. */
  lemma {:induction false} MonthFromFinds(name: string, i: nat, m: nat)
    requires i < m <= 12 && MonthNames[m - 1] == name
    requires forall j :: i <= j < m - 1 ==> MonthNames[j] != name
    ensures MonthFrom(name, i) == m
    decreases 12 - i
  {
    if i < m - 1 {
      MonthFromFinds(name, i + 1, m);
    }
  }

  /** A text names no month exactly when its lower-case form is none of the names. */
  lemma MonthNumberMisses(s: string)
    ensures MonthNumber(s) == 0 <==> Lower(s) !in MonthNames
  {
    MonthFromMisses(Lower(s), 0);
  }

  /** The "%d" field: one or two digits, or a space and one digit from 1 to 9. Returns the
      number and how many characters it took; its range is checked with the month. */
  function ParseDayField(s: string): (r: Option<(nat, nat)>)
    ensures r.Some? ==> 1 <= r.value.1 <= 2 && r.value.1 <= |s| && r.value.0 < 100
  {
    if s != [] && s[0] == ' ' then
      if |s| >= 2 && IsDigit(s[1]) && s[1] != '0' then Some((DigitValue(s[1]), 2)) else None
    else
      var n := LeadingDigits(s);
      match ParseSmall(s[..n])
      case None => None
      case Some(v) => Some((v, n))
  }

  /** What a day field reads as: a space and a nonzero digit reads as that digit; otherwise
      the one or two digits at the front, all of them, read as their decimal value. */
  lemma DayFieldReading(s: string)
    requires ParseDayField(s).Some?
    ensures s[0] == ' ' ==>
              ParseDayField(s).value.1 == 2 && IsDigit(s[1]) && 1 <= ParseDayField(s).value.0 == DigitValue(s[1])
    ensures s[0] != ' ' ==>
              var (v, n) := ParseDayField(s).value;
              AllDigits(s[..n]) && v == Value(s[..n]) && (n < |s| ==> !IsDigit(s[n]))
  {
  }

  /** `strptime(s, "%d %B")`: a day, at least one whitespace character, and a full month
      name in any letter case, with nothing after it. */
  function ParseDayMonthName(s: string): (r: Option<DayMonth>)
    ensures r.Some? ==> ValidDayMonth(r.value)
  {
    match ParseDayField(s)
    case None => None
    case Some((day, n)) =>
      var rest := s[n..];
      if rest == [] || !IsSpace(rest[0]) then None
      else
        var month := MonthNumber(TrimLeft(rest));
        if month == 0 || !ValidDayMonth(DayMonth(day, month)) then None
        else Some(DayMonth(day, month))
  }

  /** `strptime(s, "%d.%m.")`: a day, a dot, a month of one or two digits, a dot, and
      nothing after it. */
  function ParseDayMonthNumeric(s: string): (r: Option<DayMonth>)
    ensures r.Some? ==> ValidDayMonth(r.value)
  {
    match ParseDayField(s)
    case None => None
    case Some((day, n)) =>
      var rest := s[n..];
      if rest == [] || rest[0] != '.' then None
      else
        var tail := rest[1..];
        var k := LeadingDigits(tail);
        match ParseSmall(tail[..k])
        case None => None
        case Some(month) =>
          if tail[k..] != "." || !ValidDayMonth(DayMonth(day, month)) then None
          else Some(DayMonth(day, month))
  }

  /** `date.replace(year=year)`: a day valid in 1900 exists in every year. */
  function InYear(dm: DayMonth, year: int): (d: Date)
    requires ValidDayMonth(dm)
    ensures ValidDate(d) && d == Date(year, dm.month, dm.day)
  {
    Date(year, dm.month, dm.day)
  }

  /** `parse_date_div(block)` given the text of the block's first `h2` (None when it has
      none) and the current year: the stripped text before the first `-`, read first as
      "%d %B" and then as "%d.%m.", placed in `year`. The date is always a real date of
      that year, and it fails only for a missing heading or text neither format reads. */
  function ParseDateDiv(heading: Option<string>, year: int): (r: Result<Date>)
    ensures r.Ok? ==> r.value.year == year && ValidDate(r.value)
  {
    match heading
    case None => Err(NoHeading)
    case Some(h) =>
      var text := Strip(Split(h, '-')[0]);
      match ParseDayMonthName(text)
      case Some(dm) => Ok(InYear(dm, year))
      case None =>
        match ParseDayMonthNumeric(text)
        case Some(dm) => Ok(InYear(dm, year))
        case None => Err(MalformedDate(text))
  }

  /** The heading fails exactly when it is missing or its text reads in neither format; a
      text that reads gives that day and month of `year`. */
  lemma ParseDateDivOutcome(heading: Option<string>, year: int)
    ensures var r := ParseDateDiv(heading, year);
            (r.Err? <==>
               (heading.None?
                || (ParseDayMonthName(Strip(Split(heading.value, '-')[0])).None?
                    && ParseDayMonthNumeric(Strip(Split(heading.value, '-')[0])).None?)))
            && (r.Ok? ==>
                  var text := Strip(Split(heading.value, '-')[0]);
                  ParseDayMonthName(text) == Some(DayMonth(r.value.day, r.value.month))
                  || ParseDayMonthNumeric(text) == Some(DayMonth(r.value.day, r.value.month)))
  {
  }

  /** Only the text before the first `-` matters: "12 March - Opening" reads as "12 March". */
  lemma HeadingBeforeDash(a: string, b: string, year: int)
    requires '-' !in a
    ensures ParseDateDiv(Some(a + "-" + b), year) == ParseDateDiv(Some(a), year)
  {
    SplitAt(a, '-', b);
    assert Split(a, '-') == [a];
  }

  /** No text reads in both formats, so trying the month-name format first never hides a
      numeric reading. */
  lemma FormatsExclusive(s: string)
    ensures ParseDayMonthName(s).None? || ParseDayMonthNumeric(s).None?
  {
  }

  /** A day and month written "DD Monthname". */
  function FormatDayMonthName(dm: DayMonth): string
    requires ValidDayMonth(dm)
  {
    Pad2(dm.day) + " " + MonthNames[dm.month - 1]
  }

  /** A day and month written "DD.MM.". */
  function FormatDayMonthNumeric(dm: DayMonth): string
    requires ValidDayMonth(dm)
  {
    Pad2(dm.day) + "." + Pad2(dm.month) + "."
  }

  lemma MonthNamesDistinct()
    ensures forall i, j :: 0 <= i < j < 12 ==> MonthNames[i] != MonthNames[j]
  {
  }

  lemma MonthNamesLowerCase(m: nat)
    requires 1 <= m <= 12
    ensures Lower(MonthNames[m - 1]) == MonthNames[m - 1]
    ensures MonthNames[m - 1] != [] && 'a' <= MonthNames[m - 1][0] <= 'z'
  {
  }

  /** Every valid day and month written "DD Monthname" reads back as itself. */
  lemma NameFormatRoundTrip(dm: DayMonth)
    requires ValidDayMonth(dm)
    ensures ParseDayMonthName(FormatDayMonthName(dm)) == Some(dm)
  {
    var name := MonthNames[dm.month - 1];
    NameFormatPieces(dm, name);
    DayThenName(FormatDayMonthName(dm), Pad2(dm.day), " ", name, dm);
  }

  /** The pieces of "DD Monthname", as `DayThenName` takes them. */
  lemma NameFormatPieces(dm: DayMonth, name: string)
    requires ValidDayMonth(dm) && name == MonthNames[dm.month - 1]
    ensures AllDigits(Pad2(dm.day)) && Value(Pad2(dm.day)) == dm.day
    ensures name != [] && !IsSpace(name[0]) && MonthNumber(name) == dm.month
  {
    MonthNamesLowerCase(dm.month);
    MonthNumberOfName(dm.month);
    Pad2RoundTrip(dm.day);
  }

  /** A day field of one or two digits followed by a non-digit reads as their value. */
  lemma DigitsField(text: string, digits: string, rest: string)
    requires 1 <= |digits| <= 2 && AllDigits(digits)
    requires rest != [] && !IsDigit(rest[0])
    requires text == digits + rest
    ensures ParseDayField(text) == Some((Value(digits), |digits|))
    ensures text[|digits|..] == rest
  {
    LeadingDigitsOf(digits, rest);
    assert text[0] == digits[0] && text[..|digits|] == digits;
  }

  /** A day of one or two digits, any run of whitespace and any spelling of month m read as
      that day of month m: "5 March", "05  MARCH" and "5\tmarch" alike. */
  lemma DayThenName(text: string, digits: string, gap: string, name: string, dm: DayMonth)
    requires ValidDayMonth(dm)
    requires 1 <= |digits| <= 2 && AllDigits(digits) && Value(digits) == dm.day
    requires gap != [] && forall k :: 0 <= k < |gap| ==> IsSpace(gap[k])
    requires name != [] && !IsSpace(name[0]) && MonthNumber(name) == dm.month
    requires text == digits + gap + name
    ensures ParseDayMonthName(text) == Some(dm)
  {
    DayGapName(text, digits, gap, name);
    NameAfterField(text, |digits|, dm);
  }

  /** The pieces of a day-and-month-name text, as the parser meets them. */
  lemma DayGapName(text: string, digits: string, gap: string, name: string)
    requires 1 <= |digits| <= 2 && AllDigits(digits)
    requires gap != [] && forall k :: 0 <= k < |gap| ==> IsSpace(gap[k])
    requires name != [] && !IsSpace(name[0])
    requires text == digits + gap + name
    ensures ParseDayField(text) == Some((Value(digits), |digits|))
    ensures |digits| < |text| && IsSpace(text[|digits|])
    ensures TrimLeft(text[|digits|..]) == name
  {
    assert text == digits + (gap + name);
    FieldThenGap(text, digits, gap + name);
    GapThenName(gap, name);
  }

  /** Digits followed by whitespace: the day field reads as the digits' value. */
  lemma FieldThenGap(text: string, digits: string, rest: string)
    requires 1 <= |digits| <= 2 && AllDigits(digits)
    requires rest != [] && IsSpace(rest[0]) && text == digits + rest
    ensures ParseDayField(text) == Some((Value(digits), |digits|)) && text[|digits|..] == rest
    ensures |digits| < |text| && IsSpace(text[|digits|])
  {
    DigitsField(text, digits, rest);
  }

  /** The text after a run of whitespace is what follows it. */
  lemma GapThenName(gap: string, name: string)
    requires gap != [] && forall k :: 0 <= k < |gap| ==> IsSpace(gap[k])
    requires name != [] && !IsSpace(name[0])
    ensures TrimLeft(gap + name) == name
  {
    LeadingSpacesOf(gap, name);
  }

  /** Conversely, a text that reads in the "%d %B" format is a day field, a whitespace
      character, and after the whitespace run a month name (exactly, up to letter case),
      and it reads as those fields: "5 Marchx" and "5March" read as nothing. */
  lemma NameFormatReading(s: string)
    requires ParseDayMonthName(s).Some?
    ensures ParseDayField(s).Some?
    ensures var dm := ParseDayMonthName(s).value;
            var (day, n) := ParseDayField(s).value;
            day == dm.day && n < |s| && IsSpace(s[n]) && MonthNumber(TrimLeft(s[n..])) == dm.month
            && Lower(TrimLeft(s[n..])) == MonthNames[dm.month - 1]
  {
  }

  /** Once the day field has read, a whitespace character and a month name finish the
      "%d %B" reading. */
  lemma NameAfterField(text: string, n: nat, dm: DayMonth)
    requires ValidDayMonth(dm) && ParseDayField(text) == Some((dm.day, n))
    requires n < |text| && IsSpace(text[n]) && MonthNumber(TrimLeft(text[n..])) == dm.month
    ensures ParseDayMonthName(text) == Some(dm)
  {
  }

  /** Each month name reads as its own month number. */
  lemma MonthNumberOfName(m: nat)
    requires 1 <= m <= 12
    ensures MonthNumber(MonthNames[m - 1]) == m
  {
    MonthNamesLowerCase(m);
    MonthNamesDistinct();
    MonthFromFinds(MonthNames[m - 1], 0, m);
  }

  /** Every valid day and month written "DD.MM." reads back as itself. */
  lemma NumericFormatRoundTrip(dm: DayMonth)
    requires ValidDayMonth(dm)
    ensures ParseDayMonthNumeric(FormatDayMonthNumeric(dm)) == Some(dm)
  {
    Pad2RoundTrip(dm.day);
    Pad2RoundTrip(dm.month);
    DayDotMonth(FormatDayMonthNumeric(dm), Pad2(dm.day), Pad2(dm.month), dm);
  }

  /** A day and a month of one or two digits each, each followed by a dot, read as that day
      and month: "5.3." and "05.03." alike. */
  lemma DayDotMonth(text: string, d: string, m: string, dm: DayMonth)
    requires ValidDayMonth(dm)
    requires 1 <= |d| <= 2 && AllDigits(d) && Value(d) == dm.day
    requires 1 <= |m| <= 2 && AllDigits(m) && Value(m) == dm.month
    requires text == d + "." + m + "."
    ensures ParseDayMonthNumeric(text) == Some(dm)
  {
    DayDotPieces(text, d, m);
    MonthAfterDot(text, |d|, |m|, dm);
  }

  /** The pieces of a "%d.%m." text, as the parser meets them. */
  lemma DayDotPieces(text: string, d: string, m: string)
    requires 1 <= |d| <= 2 && AllDigits(d)
    requires 1 <= |m| <= 2 && AllDigits(m)
    requires text == d + "." + m + "."
    ensures ParseDayField(text) == Some((Value(d), |d|))
    ensures |d| < |text| && text[|d|] == '.'
    ensures LeadingDigits(text[|d| + 1..]) == |m|
    ensures text[|d| + 1..][..|m|] == m && text[|d| + 1..][|m|..] == "."
  {
    var tail := m + ".";
    var rest := "." + tail;
    assert text == d + rest;
    DigitsField(text, d, rest);
    assert text[|d| + 1..] == rest[1..] == tail;
    MonthThenDot(m);
  }

  /** The month digits and the final dot split where the digits end. */
  lemma MonthThenDot(m: string)
    requires 1 <= |m| <= 2 && AllDigits(m)
    ensures LeadingDigits(m + ".") == |m|
    ensures (m + ".")[..|m|] == m && (m + ".")[|m|..] == "."
  {
    LeadingDigitsOf(m, ".");
  }

  /** Once the day field has read, a dot, the month digits and a final dot finish the
      "%d.%m." reading. */
  lemma MonthAfterDot(text: string, n: nat, k: nat, dm: DayMonth)
    requires ValidDayMonth(dm) && ParseDayField(text) == Some((dm.day, n))
    requires n < |text| && text[n] == '.' && LeadingDigits(text[n + 1..]) == k
    requires ParseSmall(text[n + 1..][..k]) == Some(dm.month) && text[n + 1..][k..] == "."
    ensures ParseDayMonthNumeric(text) == Some(dm)
  {
    assert DayMonth(dm.day, dm.month) == dm;
  }

  /** Conversely, a text that reads in the "%d.%m." format is a day field, a dot, one or
      two month digits and a final dot, and it reads as those fields: "5.3.x" and "5.3"
      read as nothing. */
  lemma NumericFormatReading(s: string)
    requires ParseDayMonthNumeric(s).Some?
    ensures ParseDayField(s).Some?
    ensures var dm := ParseDayMonthNumeric(s).value;
            var (day, n) := ParseDayField(s).value;
            day == dm.day && n < |s| && s[n] == '.'
            && var k := LeadingDigits(s[n + 1..]);
               1 <= k <= 2 && AllDigits(s[n + 1..][..k]) && Value(s[n + 1..][..k]) == dm.month
               && s[n + 1..][k..] == "."
  {
    var n := ParseDayField(s).value.1;
    var k := LeadingDigits(s[n + 1..]);
    assert ParseSmall(s[n + 1..][..k]).Some?;
  }
}
