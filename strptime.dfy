/** The acceptance rule of `datetime.datetime.strptime(text, "%Y-%m-%d")`,
    which validate_due_date relies on. The format is turned into a regular
    expression (`%Y` is `\d\d\d\d`, `%m` is `1[0-2]|0[1-9]|[1-9]`, `%d` is
    `3[01]|[12]\d|0[1-9]|[1-9]| [1-9]`), matched at the start of the text;
    text left over after the match is an error, and the fields must then form
    a date that `datetime.date` accepts (years 1 to 9999, the Gregorian month
    lengths). */
module Strptime {
  import opened Outcomes

  datatype Date = Date(year: int, month: int, day: int)

  const MinYear := 1     // datetime.MINYEAR
  const MaxYear := 9999  // datetime.MAXYEAR

  predicate IsLeapYear(year: int) {
    year % 4 == 0 && (year % 100 != 0 || year % 400 == 0)
  }

  function DaysInMonth(year: int, month: int): (n: int)
    requires 1 <= month <= 12
    ensures 28 <= n <= 31
    ensures n == 29 <==> month == 2 && IsLeapYear(year)
  {
    if month == 2 then (if IsLeapYear(year) then 29 else 28)
    else if month == 4 || month == 6 || month == 9 || month == 11 then 30
    else 31
  }

  /** The number of days in the months before `month` of `year`. */
  function DaysBeforeMonth(year: int, month: int): int
    requires 1 <= month <= 13
    decreases month
  {
    if month == 1 then 0 else DaysBeforeMonth(year, month - 1) + DaysInMonth(year, month - 1)
  }

  /** The month lengths add up to the length of a Gregorian year. */
  lemma YearLength(year: int)
    ensures DaysBeforeMonth(year, 13) == if IsLeapYear(year) then 366 else 365
  {
    var b := DaysBeforeMonth(year, 3);
    assert b == if IsLeapYear(year) then 60 else 59;
    assert DaysBeforeMonth(year, 7) == b + 122;
    assert DaysBeforeMonth(year, 10) == b + 214;
  }

  /** A date that `datetime.date(year, month, day)` constructs without error. */
  predicate IsCalendarDate(d: Date) {
    MinYear <= d.year <= MaxYear && 1 <= d.month <= 12 && 1 <= d.day <= DaysInMonth(d.year, d.month)
  }

  // ---------------------------------------------------------------------
  // The regular expression, matched the way the regex engine does it

  /** An ASCII digit: the only characters this model lets `\d` match. */
  predicate IsDigit(c: char) {
    '0' <= c <= '9'
  }

  function DigitValue(c: char): (n: int)
    requires IsDigit(c)
    ensures 0 <= n < 10
  {
    c as int - '0' as int
  }

  /** What one group of the pattern matched: the field's value and the index
      just past the matched text. */
  datatype Group = Group(value: int, end: nat)

  /** `%Y`, that is `\d\d\d\d`, at index `i`. */
  function YearGroup(s: string, i: nat): (g: Option<Group>)
    ensures g.Some? ==> g.value.end == i + 4 <= |s| && 0 <= g.value.value <= 9999
  {
    if i + 4 <= |s| && IsDigit(s[i]) && IsDigit(s[i + 1]) && IsDigit(s[i + 2]) && IsDigit(s[i + 3]) then
      Some(Group(1000 * DigitValue(s[i]) + 100 * DigitValue(s[i + 1])
                 + 10 * DigitValue(s[i + 2]) + DigitValue(s[i + 3]), i + 4))
    else
      None
  }

  /** `%m`, that is `1[0-2]|0[1-9]|[1-9]`, at index `i`: the match of each
      alternative that matches, in the order the engine tries them. */
  function MonthGroups(s: string, i: nat): (gs: seq<Group>)
    ensures forall k :: 0 <= k < |gs| ==> 1 <= gs[k].value <= 12 && i < gs[k].end <= |s|
  {
    (if i + 2 <= |s| && s[i] == '1' && '0' <= s[i + 1] <= '2' then [Group(10 + DigitValue(s[i + 1]), i + 2)] else [])
    + (if i + 2 <= |s| && s[i] == '0' && '1' <= s[i + 1] <= '9' then [Group(DigitValue(s[i + 1]), i + 2)] else [])
    + (if i + 1 <= |s| && '1' <= s[i] <= '9' then [Group(DigitValue(s[i]), i + 1)] else [])
  }

  /** `%d`, that is `3[01]|[12]\d|0[1-9]|[1-9]| [1-9]`, at index `i`, in the
      same way. */
  function DayGroups(s: string, i: nat): (gs: seq<Group>)
    ensures forall k :: 0 <= k < |gs| ==> 1 <= gs[k].value <= 31 && i < gs[k].end <= |s|
  {
    (if i + 2 <= |s| && s[i] == '3' && '0' <= s[i + 1] <= '1' then [Group(30 + DigitValue(s[i + 1]), i + 2)] else [])
    + (if i + 2 <= |s| && '1' <= s[i] <= '2' && IsDigit(s[i + 1]) then [Group(10 * DigitValue(s[i]) + DigitValue(s[i + 1]), i + 2)] else [])
    + (if i + 2 <= |s| && s[i] == '0' && '1' <= s[i + 1] <= '9' then [Group(DigitValue(s[i + 1]), i + 2)] else [])
    + (if i + 1 <= |s| && '1' <= s[i] <= '9' then [Group(DigitValue(s[i]), i + 1)] else [])
    + (if i + 2 <= |s| && s[i] == ' ' && '1' <= s[i + 1] <= '9' then [Group(DigitValue(s[i + 1]), i + 2)] else [])
  }

  /** The rest of the pattern, `-%d`, after each candidate month in turn: the
      engine backtracks into the month group only when `-` does not follow or
      no day alternative matches. `%d` ends the pattern, so its first matching
      alternative ends the match. */
  function MatchMonthDay(s: string, months: seq<Group>): (r: Option<(Group, Group)>)
    ensures r.Some? ==> r.value.0 in months && r.value.0.end < |s| && s[r.value.0.end] == '-'
                        && DayGroups(s, r.value.0.end + 1) != []
                        && r.value.1 == DayGroups(s, r.value.0.end + 1)[0]
  {
    if months == [] then None
    else if months[0].end < |s| && s[months[0].end] == '-' && DayGroups(s, months[0].end + 1) != [] then
      Some((months[0], DayGroups(s, months[0].end + 1)[0]))
    else
      MatchMonthDay(s, months[1..])
  }

  /** The regex match of `%Y-%m-%d` at the start of `s`: the three fields and
      the index where the match ends. */
  function MatchFormat(s: string): Option<(Date, nat)> {
    match YearGroup(s, 0)
    case None => None
    case Some(y) =>
      if y.end < |s| && s[y.end] == '-' then
        match MatchMonthDay(s, MonthGroups(s, y.end + 1))
        case None => None
        case Some((m, d)) => Some((Date(y.value, m.value, d.value), d.end))
      else
        None
  }

  /** `strptime(s, "%Y-%m-%d")`: the date it returns, or None where it raises
      ValueError (no match, unconverted data remains, or the fields are not a
      date). */
  function Parse(s: string): (r: Option<Date>)
    ensures r.Some? ==> IsCalendarDate(r.value)
  {
    match MatchFormat(s)
    case None => None
    case Some((d, end)) => if end == |s| && IsCalendarDate(d) then Some(d) else None
  }

  // ---------------------------------------------------------------------
  // The texts a date may be written as

  /** `%m` accepts the month with or without a leading zero. */
  datatype MonthForm = MonthPadded | MonthBare
  /** `%d` accepts the day with a leading zero, bare, or with a leading space. */
  datatype DayForm = DayPadded | DayBare | DaySpaced

  /** The field values the pattern itself can produce. */
  predicate InPatternRange(d: Date) {
    0 <= d.year <= 9999 && 1 <= d.month <= 12 && 1 <= d.day <= 31
  }

  /** The unpadded forms exist only for values below 10. */
  predicate FormFits(d: Date, mf: MonthForm, df: DayForm) {
    (mf == MonthBare ==> d.month < 10) && (df != DayPadded ==> d.day < 10)
  }

  function DigitChar(n: int): (c: char)
    requires 0 <= n < 10
    ensures IsDigit(c) && DigitValue(c) == n
  {
    ('0' as int + n) as char
  }

  function Pad2(n: int): string
    requires 0 <= n < 100
  {
    [DigitChar(n / 10), DigitChar(n % 10)]
  }

  function YearText(y: int): string
    requires 0 <= y <= 9999
  {
    [DigitChar(y / 1000), DigitChar(y / 100 % 10), DigitChar(y / 10 % 10), DigitChar(y % 10)]
  }

  function MonthText(m: int, mf: MonthForm): string
    requires 1 <= m <= 12 && (mf == MonthBare ==> m < 10)
  {
    if mf == MonthPadded then Pad2(m) else [DigitChar(m)]
  }

  function DayText(d: int, df: DayForm): string
    requires 1 <= d <= 31 && (df != DayPadded ==> d < 10)
  {
    match df
    case DayPadded => Pad2(d)
    case DayBare => [DigitChar(d)]
    case DaySpaced => [' ', DigitChar(d)]
  }

  /** A calendar date written in the chosen forms, e.g. "2024-05-01",
      "2024-5-1" or "2024-05- 1". */
  function Render(d: Date, mf: MonthForm, df: DayForm): string
    requires InPatternRange(d) && FormFits(d, mf, df)
  {
    YearText(d.year) + "-" + MonthText(d.month, mf) + "-" + DayText(d.day, df)
  }

  /** Splitting a number below 10000 into decimal digits and joining them
      again gives the number back. */
  lemma JoinDigits(y: int)
    requires 0 <= y <= 9999
    ensures 1000 * (y / 1000) + 100 * (y / 100 % 10) + 10 * (y / 10 % 10) + y % 10 == y
  {
    var q1 := y / 10;
    assert y == 10 * q1 + y % 10;
    var q2 := q1 / 10;
    assert q1 == 10 * q2 + q1 % 10;
    assert q2 == y / 100;
    assert q2 == 10 * (q2 / 10) + q2 % 10;
    assert q2 / 10 == y / 1000;
  }

  lemma SplitDigits(a: int, b: int, c: int, e: int)
    requires 0 <= a < 10 && 0 <= b < 10 && 0 <= c < 10 && 0 <= e < 10
    ensures var y := 1000 * a + 100 * b + 10 * c + e;
            y / 1000 == a && y / 100 % 10 == b && y / 10 % 10 == c && y % 10 == e
  {
    var y := 1000 * a + 100 * b + 10 * c + e;
    var q1 := 100 * a + 10 * b + c;
    assert y == 10 * q1 + e;
    assert y / 10 == q1 && y % 10 == e;
    var q2 := 10 * a + b;
    assert q1 == 10 * q2 + c;
    assert q1 / 10 == q2 && q1 % 10 == c;
    assert y / 100 == q2;
    assert q2 / 10 == a && q2 % 10 == b;
    assert y / 1000 == a;
  }

  lemma YearTextDigits(y: int)
    requires 0 <= y <= 9999
    ensures YearGroup(YearText(y), 0) == Some(Group(y, 4))
  {
    JoinDigits(y);
  }

  /** A month written in either form, followed by `-`, is the first
      alternative of `%m` to match there. */
  lemma MonthTextMatches(s: string, i: nat, m: int, mf: MonthForm)
    requires 1 <= m <= 12 && (mf == MonthBare ==> m < 10)
    requires i + |MonthText(m, mf)| < |s| && s[i..i + |MonthText(m, mf)|] == MonthText(m, mf)
    requires s[i + |MonthText(m, mf)|] == '-'
    ensures MonthGroups(s, i) != [] && MonthGroups(s, i)[0] == Group(m, i + |MonthText(m, mf)|)
  {
    var t := MonthText(m, mf);
    assert s[i] == t[0];
    if mf == MonthPadded {
      assert s[i + 1] == t[1];
    }
  }

  /** A day written in any form, up to the end of the text, is the first
      alternative of `%d` to match there. */
  lemma DayTextMatches(s: string, i: nat, d: int, df: DayForm)
    requires 1 <= d <= 31 && (df != DayPadded ==> d < 10)
    requires i <= |s| && s[i..] == DayText(d, df)
    ensures DayGroups(s, i) != [] && DayGroups(s, i)[0] == Group(d, |s|)
  {
    var t := DayText(d, df);
    assert s[i] == t[0];
    if df != DayBare {
      assert s[i + 1] == t[1];
    }
  }

  /** Every rendering of a calendar date is accepted and parses back to it. */
  lemma ParseRender(d: Date, mf: MonthForm, df: DayForm)
    requires IsCalendarDate(d) && FormFits(d, mf, df)
    ensures Parse(Render(d, mf, df)) == Some(d)
  {
    MatchRender(d, mf, df);
  }

  /** The three fields joined by `-` can be cut apart at the separators. */
  lemma Split(yt: string, mt: string, dt: string)
    requires |yt| == 4
    ensures var s, e := yt + "-" + mt + "-" + dt, 5 + |mt|;
            s[..4] == yt && s[4] == '-' && s[5..e] == mt && s[e] == '-' && s[e + 1..] == dt
  {
  }

  /** `%Y` reads only the first four characters. */
  lemma YearGroupOfPrefix(s: string, yt: string)
    requires |yt| == 4 <= |s| && s[..4] == yt
    ensures YearGroup(s, 0) == YearGroup(yt, 0)
  {
    assert s[0] == yt[0] && s[1] == yt[1] && s[2] == yt[2] && s[3] == yt[3];
  }

  /** The pattern matches every rendering of field values in its range, in
      full, and reads the values back. */
  lemma MatchRender(d: Date, mf: MonthForm, df: DayForm)
    requires InPatternRange(d) && FormFits(d, mf, df)
    ensures MatchFormat(Render(d, mf, df)) == Some((d, |Render(d, mf, df)|))
  {
    var s := Render(d, mf, df);
    var yt, mt, dt := YearText(d.year), MonthText(d.month, mf), DayText(d.day, df);
    var e := 5 + |mt|;
    assert s == yt + "-" + mt + "-" + dt;
    Split(yt, mt, dt);
    YearTextDigits(d.year);
    YearGroupOfPrefix(s, yt);
    MonthTextMatches(s, 5, d.month, mf);
    DayTextMatches(s, e + 1, d.day, df);
    MatchOfGroups(s, d, e, |s|);
  }

  /** Once the year, the month followed by `-` and the day have been matched,
      the whole pattern matches with those fields, up to the day's end. */
  lemma MatchOfGroups(s: string, d: Date, e: nat, end: nat)
    requires YearGroup(s, 0) == Some(Group(d.year, 4)) && 4 < |s| && s[4] == '-'
    requires MonthGroups(s, 5) != [] && MonthGroups(s, 5)[0] == Group(d.month, e)
    requires e < |s| && s[e] == '-'
    requires DayGroups(s, e + 1) != [] && DayGroups(s, e + 1)[0] == Group(d.day, end)
    ensures MatchFormat(s) == Some((d, end))
  {
    var months := MonthGroups(s, 5);
    assert months[0].end < |s| && s[months[0].end] == '-' && DayGroups(s, months[0].end + 1) != [];
    assert MatchMonthDay(s, months) == Some((Group(d.month, e), Group(d.day, end)));
  }

  /** The year field of an accepted text is the four-digit rendering of the
      parsed year. */
  lemma YearOfDigits(s: string)
    requires YearGroup(s, 0).Some?
    ensures s[..4] == YearText(YearGroup(s, 0).value.value)
  {
    var y := YearGroup(s, 0).value.value;
    var a, b, c, e := DigitValue(s[0]), DigitValue(s[1]), DigitValue(s[2]), DigitValue(s[3]);
    assert y == 1000 * a + 100 * b + 10 * c + e;
    SplitDigits(a, b, c, e);
    assert DigitChar(a) == s[0] && DigitChar(b) == s[1] && DigitChar(c) == s[2] && DigitChar(e) == s[3];
  }

  /** The text a month alternative matched is that month in one of its forms. */
  lemma MonthOfGroup(s: string, i: nat, g: Group) returns (mf: MonthForm)
    requires g in MonthGroups(s, i)
    ensures (mf == MonthBare ==> g.value < 10) && s[i..g.end] == MonthText(g.value, mf)
  {
    if g.end == i + 2 {
      mf := MonthPadded;
      assert s[i..g.end] == [s[i], s[i + 1]];
    } else {
      mf := MonthBare;
      assert s[i..g.end] == [s[i]];
    }
  }

  /** The text the first day alternative matched is that day in one of its
      forms. */
  lemma DayOfGroup(s: string, i: nat) returns (df: DayForm)
    requires DayGroups(s, i) != []
    ensures var g := DayGroups(s, i)[0];
            (df != DayPadded ==> g.value < 10) && s[i..g.end] == DayText(g.value, df)
  {
    var g := DayGroups(s, i)[0];
    if s[i] == ' ' {
      df := DaySpaced;
      assert s[i..g.end] == [s[i], s[i + 1]];
    } else if g.end == i + 2 {
      df := DayPadded;
      assert s[i..g.end] == [s[i], s[i + 1]];
    } else {
      df := DayBare;
      assert s[i..g.end] == [s[i]];
    }
  }

  /** A text cut at the two separators is its three fields joined by `-`. */
  lemma Reassemble(s: string, e: nat, yt: string, mt: string, dt: string)
    requires 4 < e < |s| && s[4] == '-' && s[e] == '-'
    requires s[..4] == yt && s[5..e] == mt && s[e + 1..] == dt
    ensures s == yt + "-" + mt + "-" + dt
  {
    assert s == s[..4] + [s[4]] + s[5..e] + [s[e]] + s[e + 1..];
  }

  /** Every accepted text is a rendering of the date it parses to. */
  lemma RenderParse(s: string)
    requires Parse(s).Some?
    ensures exists mf: MonthForm, df: DayForm :: FormFits(Parse(s).value, mf, df) && s == Render(Parse(s).value, mf, df)
  {
    var d := Parse(s).value;
    var y := YearGroup(s, 0).value;
    var md := MatchMonthDay(s, MonthGroups(s, 5)).value;
    var m, dg := md.0, md.1;
    assert m.value == d.month && dg.value == d.day && y.value == d.year && dg.end == |s|;
    YearOfDigits(s);
    var mf := MonthOfGroup(s, 5, m);
    var e := m.end;
    var df := DayOfGroup(s, e + 1);
    assert s[e + 1..] == s[e + 1..dg.end];
    Reassemble(s, e, YearText(d.year), MonthText(d.month, mf), DayText(d.day, df));
    assert FormFits(d, mf, df) && s == Render(d, mf, df);
  }

  /** `strptime` accepts exactly the renderings of calendar dates. */
  lemma AcceptedIff(s: string)
    ensures Parse(s).Some? <==>
            exists d: Date, mf: MonthForm, df: DayForm :: IsCalendarDate(d) && FormFits(d, mf, df) && s == Render(d, mf, df)
  {
    if Parse(s).Some? {
      RenderParse(s);
    }
    forall d: Date, mf: MonthForm, df: DayForm | IsCalendarDate(d) && FormFits(d, mf, df) && s == Render(d, mf, df)
      ensures Parse(s).Some?
    {
      ParseRender(d, mf, df);
    }
  }

  // ---------------------------------------------------------------------
  // Examples

  lemma AcceptsPaddedDate()
    ensures Parse("2024-05-01") == Some(Date(2024, 5, 1))
  {
    ParseRender(Date(2024, 5, 1), MonthPadded, DayPadded);
    assert Render(Date(2024, 5, 1), MonthPadded, DayPadded) == "2024-05-01";
  }

  /** `%m` and `%d` also take a month or day without its leading zero, and
      `%d` a day with a leading space. */
  lemma AcceptsUnpaddedFields()
    ensures Parse("2024-5-1") == Some(Date(2024, 5, 1))
    ensures Parse("2024-05- 1") == Some(Date(2024, 5, 1))
  {
    ParseRender(Date(2024, 5, 1), MonthBare, DayBare);
    assert Render(Date(2024, 5, 1), MonthBare, DayBare) == "2024-5-1";
    ParseRender(Date(2024, 5, 1), MonthPadded, DaySpaced);
    assert Render(Date(2024, 5, 1), MonthPadded, DaySpaced) == "2024-05- 1";
  }

  lemma AcceptsLeapDay()
    ensures Parse("2024-02-29") == Some(Date(2024, 2, 29))
    ensures Parse("2000-02-29") == Some(Date(2000, 2, 29))
  {
    ParseRender(Date(2024, 2, 29), MonthPadded, DayPadded);
    assert Render(Date(2024, 2, 29), MonthPadded, DayPadded) == "2024-02-29";
    ParseRender(Date(2000, 2, 29), MonthPadded, DayPadded);
    assert Render(Date(2000, 2, 29), MonthPadded, DayPadded) == "2000-02-29";
  }

  lemma RejectsMonth13()
    ensures Parse("2024-13-01") == None
  {
  }

  /** Text the pattern matches is still rejected when its fields do not form
      a calendar date: `datetime.date` refuses them. */
  lemma RejectsNonCalendar(d: Date, mf: MonthForm, df: DayForm)
    requires InPatternRange(d) && FormFits(d, mf, df) && !IsCalendarDate(d)
    ensures Parse(Render(d, mf, df)) == None
  {
    MatchRender(d, mf, df);
  }

  lemma RejectsFebruary30()
    ensures Parse("2024-02-30") == None
  {
    RejectsNonCalendar(Date(2024, 2, 30), MonthPadded, DayPadded);
    assert Render(Date(2024, 2, 30), MonthPadded, DayPadded) == "2024-02-30";
  }

  /** 2023 is not a leap year, and neither is 1900, a century not divisible
      by 400. */
  lemma RejectsFebruary29()
    ensures Parse("2023-02-29") == None
    ensures Parse("1900-02-29") == None
  {
    RejectsNonCalendar(Date(2023, 2, 29), MonthPadded, DayPadded);
    assert Render(Date(2023, 2, 29), MonthPadded, DayPadded) == "2023-02-29";
    RejectsNonCalendar(Date(1900, 2, 29), MonthPadded, DayPadded);
    assert Render(Date(1900, 2, 29), MonthPadded, DayPadded) == "1900-02-29";
  }

  lemma RejectsApril31()
    ensures Parse("2024-04-31") == None
  {
    RejectsNonCalendar(Date(2024, 4, 31), MonthPadded, DayPadded);
    assert Render(Date(2024, 4, 31), MonthPadded, DayPadded) == "2024-04-31";
  }

  lemma RejectsYearZero()
    ensures Parse("0000-01-01") == None
  {
    RejectsNonCalendar(Date(0, 1, 1), MonthPadded, DayPadded);
    assert Render(Date(0, 1, 1), MonthPadded, DayPadded) == "0000-01-01";
  }

  lemma RejectsShortYear()
    ensures Parse("24-05-01") == None
    ensures Parse("") == None
  {
    assert YearGroup("24-05-01", 0) == None;
  }

  lemma RejectsOtherSeparator()
    ensures Parse("2024/05/01") == None
  {
    assert YearGroup("2024/05/01", 0).Some? && "2024/05/01"[4] != '-';
  }

  /** The match stops after the day; anything left over is "unconverted
      data" and an error. */
  lemma RejectsTrailingSpace()
    ensures Parse("2024-05-01 ") == None
  {
    var s := "2024-05-01 ";
    assert YearGroup(s, 0) == Some(Group(2024, 4));
    assert MonthGroups(s, 5)[0] == Group(5, 7);
    assert DayGroups(s, 8)[0] == Group(1, 10);
    MatchOfGroups(s, Date(2024, 5, 1), 7, 10);
  }

  /** A three-digit day: `%d` takes "01" and leaves the last digit over. */
  lemma RejectsThreeDigitDay()
    ensures Parse("2024-05-010") == None
  {
    var s := "2024-05-010";
    assert YearGroup(s, 0) == Some(Group(2024, 4));
    assert MonthGroups(s, 5)[0] == Group(5, 7);
    assert DayGroups(s, 8)[0] == Group(1, 10);
    MatchOfGroups(s, Date(2024, 5, 1), 7, 10);
  }
}
